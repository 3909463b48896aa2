/** Request and response packets, and how a command finds its response among the frames. */
module Protocol {
  import opened Bytes
  import opened Link
  import opened Slip

  const FLASH_BEGIN: byte := 0x02
  const FLASH_DATA: byte := 0x03
  const MEM_BEGIN: byte := 0x05
  const MEM_END: byte := 0x06
  const MEM_DATA: byte := 0x07
  const FLASH_DEFL_BEGIN: byte := 0x10
  const FLASH_DEFL_DATA: byte := 0x11
  const SPI_FLASH_MD5: byte := 0x13
  const READ_FLASH: byte := 0xD2

  // ---------------------------------------------------------------- checksum

  const CHECKSUM_MAGIC: byte := 0xEF

  function XorBits(a: bv8, b: bv8): bv8 { a ^ b }
  function Xor8(a: byte, b: byte): byte { OfBits(XorBits(Bits(a), Bits(b))) }

  function XorAll(c: byte, data: seq<byte>): byte
    decreases |data|
  {
    if data == [] then c else XorAll(Xor8(c, data[0]), data[1..])
  }

  lemma {:induction false} XorSnoc(c: byte, data: seq<byte>, b: byte)
    ensures XorAll(c, data + [b]) == Xor8(XorAll(c, data), b)
    decreases |data|
  {
    hide Xor8;
    if data == [] {
      assert (data + [b])[1..] == [];
    } else {
      assert (data + [b])[1..] == data[1..] + [b];
      XorSnoc(Xor8(c, data[0]), data[1..], b);
    }
  }

  method Checksum(data: seq<byte>) returns (c: uint32)
    ensures c == XorAll(CHECKSUM_MAGIC, data)
  {
    hide Xor8;
    c := CHECKSUM_MAGIC;
    for i := 0 to |data|
      invariant c < 0x100 && c == XorAll(CHECKSUM_MAGIC, data[..i])
    {
      assert data[..i + 1] == data[..i] + [data[i]];
      XorSnoc(CHECKSUM_MAGIC, data[..i], data[i]);
      c := Xor8(c, data[i]);
    }
    assert data[..|data|] == data;
  }

  lemma XorBitsCancel(a: bv8, b: bv8, c: bv8)
    ensures XorBits(a, c) == XorBits(b, c) ==> a == b
    ensures XorBits(c, a) == XorBits(c, b) ==> a == b
  {
    assert (a ^ c) ^ c == a && (b ^ c) ^ c == b;
    assert c ^ (c ^ a) == a && c ^ (c ^ b) == b;
  }

  lemma Xor8Injective(a: byte, b: byte, c: byte)
    ensures Xor8(a, c) == Xor8(b, c) ==> a == b
    ensures Xor8(c, a) == Xor8(c, b) ==> a == b
  {
    hide Bits, OfBits, XorBits;
    if Xor8(a, c) == Xor8(b, c) || Xor8(c, a) == Xor8(c, b) {
      if Xor8(a, c) == Xor8(b, c) {
        OfBitsInjective(XorBits(Bits(a), Bits(c)), XorBits(Bits(b), Bits(c)));
      } else {
        OfBitsInjective(XorBits(Bits(c), Bits(a)), XorBits(Bits(c), Bits(b)));
      }
      XorBitsCancel(Bits(a), Bits(b), Bits(c));
      BitsInjective(a, b);
    }
  }

  /** A byte folded in twice leaves no trace. */
  lemma XorCancels(c: byte, b: byte)
    ensures XorAll(c, [b, b]) == c
  {
    hide Bits, OfBits, XorBits, Xor8;
    assert [b, b][1..] == [b] && [b][1..] == [];
    assert XorAll(c, [b, b]) == XorAll(Xor8(c, b), [b]) == Xor8(Xor8(c, b), b);
    TwiceIsNothing(c, b);
  }

  lemma TwiceIsNothing(c: byte, b: byte)
    ensures Xor8(Xor8(c, b), b) == c
  {
    hide Bits, OfBits, XorBits;
    BitsOfByte(XorBits(Bits(c), Bits(b)));
    XorBitsTwice(Bits(c), Bits(b));
    ByteOfBits(c);
  }

  lemma XorBitsTwice(a: bv8, b: bv8)
    ensures XorBits(XorBits(a, b), b) == a
  {
  }

  /** Two checksums in numbers: of nothing, and of three bytes that do not cancel. */
  lemma ChecksumBytes()
    ensures XorAll(CHECKSUM_MAGIC, []) == 0xEF
    ensures XorAll(CHECKSUM_MAGIC, [0x01, 0x02, 0x04]) == 0xE8
  {
    assert [0x01, 0x02, 0x04][1..] == [0x02, 0x04] && [0x02, 0x04][1..] == [0x04] && [0x04][1..] == [];
    XorValues();
  }

  lemma XorValues()
    ensures Xor8(0xEF, 0x01) == 0xEE && Xor8(0xEE, 0x02) == 0xEC && Xor8(0xEC, 0x04) == 0xE8
  {
  }

  lemma {:induction false} XorAllInjective(c: byte, d: byte, data: seq<byte>)
    requires XorAll(c, data) == XorAll(d, data)
    ensures c == d
    decreases |data|
  {
    hide Xor8;
    if data != [] {
      XorAllInjective(Xor8(c, data[0]), Xor8(d, data[0]), data[1..]);
      Xor8Injective(c, d, data[0]);
    }
  }

  /** One byte changed on the way gives a different checksum. */
  lemma {:induction false} ChecksumDetects(c: byte, data: seq<byte>, i: nat, x: byte)
    requires i < |data| && data[i] != x
    ensures XorAll(c, data[i := x]) != XorAll(c, data)
    decreases i
  {
    hide Xor8;
    var changed := data[i := x];
    if i == 0 {
      assert changed[1..] == data[1..];
      Xor8Injective(x, data[0], c);
      if XorAll(c, changed) == XorAll(c, data) {
        XorAllInjective(Xor8(c, x), Xor8(c, data[0]), data[1..]);
      }
    } else {
      assert changed[1..] == data[1..][i - 1 := x];
      ChecksumDetects(Xor8(c, data[0]), data[1..], i - 1, x);
    }
  }

  // ---------------------------------------------------------------- requests

  datatype Request = Request(cmd: byte, data: seq<byte>, chk: uint32)

  /** `encodeCommand`: direction, opcode, length in 16 bits, checksum, data. */
  function Packet(r: Request): seq<byte> {
    [0x00, r.cmd] + Le16(ToUint16(|r.data|)) + Le32(r.chk) + r.data
  }

  method EncodeCommand(cmd: byte, data: seq<byte>, chk: uint32) returns (pkt: seq<byte>)
    ensures pkt == Packet(Request(cmd, data, chk))
  {
    var buf := new byte[8 + |data|](_ => 0);
    buf[0] := 0x00;
    buf[1] := cmd;
    CopyInto(buf, 2, Le16(ToUint16(|data|)));
    assert buf[..4] == [0x00, cmd] + Le16(ToUint16(|data|));
    CopyInto(buf, 4, Le32(chk));
    assert buf[..8] == [0x00, cmd] + Le16(ToUint16(|data|)) + Le32(chk);
    CopyInto(buf, 8, data);
    pkt := buf[..];
  }

  /** The device's reading of a request: the length field has to account for the whole packet. */
  function ParseRequest(pkt: seq<byte>): Option<Request> {
    if |pkt| < 8 || pkt[0] != 0x00 || FromLe(pkt[2..4]) != |pkt| - 8 then None
    else Some(Request(pkt[1], pkt[8..], FromLe32(pkt[4..8])))
  }

  function FromLe32(s: seq<byte>): uint32
    requires |s| == 4
  {
    Pow256Values();
    FromLeBound(s);
    FromLe(s)
  }

  /** Word `i` of a request's data. */
  function Word(data: seq<byte>, i: nat): uint32
    requires 4 * i + 4 <= |data|
  {
    FromLe32(data[4 * i..4 * i + 4])
  }

  lemma PacketParts(r: Request)
    ensures var pkt := Packet(r);
            && |pkt| == 8 + |r.data| && pkt[0] == 0x00 && pkt[1] == r.cmd
            && pkt[2..4] == Le16(ToUint16(|r.data|)) && pkt[4..8] == Le32(r.chk) && pkt[8..] == r.data
  {
  }

  /** A request reaches the device as it was meant exactly when its length fits in 16 bits. */
  lemma RequestRoundTrip(r: Request)
    ensures ParseRequest(Packet(r)) == Some(r) <==> |r.data| < 0x1_0000
  {
    hide Packet;
    PacketParts(r);
    Le16RoundTrip(ToUint16(|r.data|));
    Le32RoundTrip(r.chk);
  }

  /** The request a device makes of bytes that came in. */
  function Heard(bytes: seq<byte>): Option<Request> {
    match ReadFrame(Data(bytes)).0
    case Err(_) => None
    case Ok(packet) => ParseRequest(packet)
  }

  /** Whatever comes behind it. */
  lemma HeardFirst(r: Request, more: seq<byte>)
    requires |r.data| < 0x1_0000
    ensures Heard(Frame(Packet(r)) + more) == Some(r)
  {
    hide ReadFrame, Frame, Packet, ParseRequest;
    var wire := Frame(Packet(r));
    PacketParts(r);
    DataAppend(wire, more);
    FrameRoundTrip([], Packet(r), Data(more));
    assert [] + wire == wire;
    RequestRoundTrip(r);
  }

  lemma HeardAsMeant(r: Request)
    requires |r.data| < 0x1_0000
    ensures Heard(Frame(Packet(r))) == Some(r)
  {
    hide Heard, Frame, Packet;
    HeardFirst(r, []);
    assert Frame(Packet(r)) + [] == Frame(Packet(r));
  }

  /** All the requests a device makes of what comes in, up to where nothing more can be read. */
  function HearAll(rx: seq<RxEvent>): seq<Request>
    decreases |rx|
  {
    var (f, rest) := ReadFrame(rx);
    match f
    case Err(_) => []
    case Ok(packet) => (match ParseRequest(packet) case None => [] case Some(r) => [r]) + HearAll(rest)
  }

  /** Requests one after the other on the wire. */
  function OnWire(rs: seq<Request>): seq<byte> {
    if rs == [] then [] else Frame(Packet(rs[0])) + OnWire(rs[1..])
  }

  predicate AllFit(rs: seq<Request>) { forall r :: r in rs ==> |r.data| < 0x1_0000 }

  lemma {:induction false} HearsWire(rs: seq<Request>, rest: seq<RxEvent>)
    requires AllFit(rs)
    ensures HearAll(Data(OnWire(rs)) + rest) == rs + HearAll(rest)
    decreases |rs|
  {
    hide HearAll, Frame, Packet;
    if rs == [] {
      assert Data([]) + rest == rest && [] + HearAll(rest) == HearAll(rest);
    } else {
      var first, more := Frame(Packet(rs[0])), Data(OnWire(rs[1..])) + rest;
      assert rs[0] in rs && forall r :: r in rs[1..] ==> r in rs;
      DataAppend(first, OnWire(rs[1..]));
      assert Data(OnWire(rs)) + rest == Data(first) + more;
      HearsFirst(rs[0], more);
      HearsWire(rs[1..], rest);
      assert [rs[0]] + (rs[1..] + HearAll(rest)) == rs + HearAll(rest);
    }
  }

  lemma HearsFirst(r: Request, more: seq<RxEvent>)
    requires |r.data| < 0x1_0000
    ensures HearAll(Data(Frame(Packet(r))) + more) == [r] + HearAll(more)
  {
    hide ReadFrame, Frame, Packet, ParseRequest;
    PacketParts(r);
    FrameRoundTrip([], Packet(r), more);
    assert [] + Frame(Packet(r)) == Frame(Packet(r));
    RequestRoundTrip(r);
  }

  /** The beginning of a frame is not heard as a request. */
  lemma HearsNoPart(p: seq<byte>, n: nat)
    requires n < |Frame(p)|
    ensures HearAll(Data(Frame(p)[..n])) == []
  {
    PartIsNoFrame(p, n);
  }

  // ---------------------------------------------------------------- responses

  function TrailerSize(stub: bool): nat { if stub then 2 else 4 }

  datatype Response = Response(cmd: byte, value: uint32, data: seq<byte>) {
    /** The status trailer: success and error code. */
    function Status(stub: bool): (bool, byte) {
      var n := TrailerSize(stub);
      if |data| < n then (false, 0xFF) else
        var tail := data[|data| - n..];
        (tail[0] == 0, tail[1])
    }

    /** The data without the trailer. */
    function Payload(stub: bool): seq<byte> {
      var n := TrailerSize(stub);
      if |data| < n then [] else data[..|data| - n]
    }
  }

  function ParseResponse(frame: seq<byte>): Option<Response> {
    if |frame| < 8 || frame[0] != 0x01 then None else
      var size := FromLe(frame[2..4]);
      if |frame| < 8 + size then None
      else Some(Response(frame[1], FromLe32(frame[4..8]), frame[8..8 + size]))
  }

  /** A response as the device sends it; bytes behind the announced length are allowed. */
  function ResponseFrame(cmd: byte, value: uint32, payload: seq<byte>, trailer: seq<byte>, extra: seq<byte>): seq<byte> {
    [0x01, cmd] + Le16(|payload| + |trailer|) + Le32(value) + payload + trailer + extra
  }

  lemma ResponseParts(cmd: byte, value: uint32, payload: seq<byte>, trailer: seq<byte>, extra: seq<byte>)
    ensures var frame := ResponseFrame(cmd, value, payload, trailer, extra);
            var size := |payload| + |trailer|;
            && |frame| == 8 + size + |extra| && frame[0] == 0x01 && frame[1] == cmd
            && frame[2..4] == Le16(size) && frame[4..8] == Le32(value) && frame[8..8 + size] == payload + trailer
  {
    hide Le;
  }

  lemma TrailerSplits(payload: seq<byte>, trailer: seq<byte>)
    ensures var data := payload + trailer;
            data[..|data| - |trailer|] == payload && data[|data| - |trailer|..] == trailer
  {
  }

  /** What the device packed is what the host unpacks, in either trailer mode. */
  lemma ResponseRoundTrip(cmd: byte, value: uint32, payload: seq<byte>, trailer: seq<byte>, extra: seq<byte>, stub: bool)
    requires |trailer| == TrailerSize(stub) && |payload| + |trailer| < 0x1_0000
    ensures var resp := Response(cmd, value, payload + trailer);
            && ParseResponse(ResponseFrame(cmd, value, payload, trailer, extra)) == Some(resp)
            && resp.Payload(stub) == payload && resp.Status(stub) == (trailer[0] == 0, trailer[1])
  {
    hide ResponseFrame, Le, FromLe;
    ResponseParts(cmd, value, payload, trailer, extra);
    Le16RoundTrip(|payload| + |trailer|);
    Le32RoundTrip(value);
    TrailerSplits(payload, trailer);
  }

  // ---------------------------------------------------------------- the answer to a command

  predicate Answers(frame: seq<byte>, cmd: byte) {
    ParseResponse(frame).Some? && ParseResponse(frame).value.cmd == cmd
  }

  function Verdict(frame: seq<byte>, cmd: byte, stub: bool): Result<Response, Error>
    requires Answers(frame, cmd)
  {
    var resp := ParseResponse(frame).value;
    var (ok, code) := resp.Status(stub);
    if ok then Ok(resp) else Err(Refused(cmd, code, resp.value, resp.data))
  }

  /** The response loop of `command`; `ticks` is how often the clock is found before the deadline. */
  function Await(rx: seq<RxEvent>, cmd: byte, stub: bool, ticks: nat): (r: (Result<Response, Error>, seq<RxEvent>))
    ensures |r.1| <= |rx|
    decreases ticks
  {
    if ticks == 0 then (Err(Timeout), rx) else
      var (f, rest) := ReadFrame(rx);
      match f
      case Err(e) => (Err(e), rest)
      case Ok(frame) =>
        if Answers(frame, cmd) then (Verdict(frame, cmd, stub), rest) else Await(rest, cmd, stub, ticks - 1)
  }

  predicate NoneAnswers(frames: seq<seq<byte>>, cmd: byte) {
    forall f :: f in frames ==> !Answers(f, cmd)
  }

  /** `command` drops exactly the frames in front of the first answer, as long as the clock
      allows, judges that answer, and leaves every byte behind it unread. */
  lemma {:induction false} AwaitsFirstAnswer(rx: seq<RxEvent>, cmd: byte, stub: bool, ticks: nat, k: nat)
    requires k < ticks
    requires ReadFrames(rx, k).0.Ok? && NoneAnswers(ReadFrames(rx, k).0.value, cmd)
    requires ReadFrame(ReadFrames(rx, k).1).0.Ok?
    requires Answers(ReadFrame(ReadFrames(rx, k).1).0.value, cmd)
    ensures var (f, rest) := ReadFrame(ReadFrames(rx, k).1);
            Await(rx, cmd, stub, ticks) == (Verdict(f.value, cmd, stub), rest)
    decreases k
  {
    hide ReadFrame, Answers, Verdict;
    if k > 0 {
      var f, rest := ReadFrame(rx).0.value, ReadFrame(rx).1;
      var frames := ReadFrames(rx, k).0.value;
      var more := ReadFrames(rest, k - 1).0.value;
      assert frames == [f] + more;
      assert f in frames && forall g :: g in more ==> g in frames;
      AwaitsFirstAnswer(rest, cmd, stub, ticks - 1, k - 1);
    }
  }

  /** And conversely: whatever response it returns, or refusal it reports, was the first answer in
      its time. */
  lemma {:induction false} AnswerWasFirst(rx: seq<RxEvent>, cmd: byte, stub: bool, ticks: nat) returns (k: nat)
    requires var r := Await(rx, cmd, stub, ticks).0; r.Ok? || r.error.Refused?
    ensures k < ticks && ReadFrames(rx, k).0.Ok? && NoneAnswers(ReadFrames(rx, k).0.value, cmd)
    ensures var (f, rest) := ReadFrame(ReadFrames(rx, k).1);
            && f.Ok? && Answers(f.value, cmd)
            && Await(rx, cmd, stub, ticks) == (Verdict(f.value, cmd, stub), rest)
    decreases ticks
  {
    hide ReadFrame, Answers, Verdict;
    var (f, rest) := ReadFrame(rx);
    FrameErrors(rx);
    if Answers(f.value, cmd) {
      k := 0;
    } else {
      var j := AnswerWasFirst(rest, cmd, stub, ticks - 1);
      k := j + 1;
      assert ReadFrames(rx, k).0.value == [f.value] + ReadFrames(rest, j).0.value;
    }
  }

  // ---------------------------------------------------------------- the same on the bytes of frames

  /** Direction, opcode, and an announced length that the frame covers. */
  predicate Matches(frame: seq<byte>, cmd: byte) {
    |frame| >= 8 && frame[0] == 0x01 && frame[1] == cmd && 8 + Size(frame) <= |frame|
  }

  function Size(frame: seq<byte>): nat
    requires |frame| >= 4
  {
    frame[2] as int + 0x100 * (frame[3] as int)
  }

  /** What a matching frame says: the status stands 4 bytes before the end of what is announced, or
      2 under the stub, and if there are not so many the response is refused with code 0xFF. */
  function Judged(frame: seq<byte>, cmd: byte, stub: bool): Result<Response, Error>
    requires Matches(frame, cmd)
  {
    var n, size := if stub then 2 else 4, Size(frame);
    var value, data := FromLe32(frame[4..8]), frame[8..8 + size];
    if size < n then Err(Refused(cmd, 0xFF, value, data))
    else if frame[8 + size - n] != 0 then Err(Refused(cmd, frame[8 + size - n + 1], value, data))
    else Ok(Response(cmd, value, data))
  }

  lemma JudgedIsVerdict(frame: seq<byte>, cmd: byte, stub: bool)
    ensures Answers(frame, cmd) <==> Matches(frame, cmd)
    ensures Matches(frame, cmd) ==> Verdict(frame, cmd, stub) == Judged(frame, cmd, stub)
  {
    hide FromLe;
    if |frame| >= 8 {
      assert frame[2..4] == [frame[2], frame[3]];
      TwoBytes(frame[2], frame[3]);
    }
  }

  /** Every outcome of the response loop: it passes over the frames that do not match, and then the
      clock runs out, or a frame cannot be read, or the first that matches is judged. */
  lemma {:induction false} AwaitExactly(rx: seq<RxEvent>, cmd: byte, stub: bool, ticks: nat) returns (k: nat)
    ensures k <= ticks && ReadFrames(rx, k).0.Ok? && forall f :: f in ReadFrames(rx, k).0.value ==> !Matches(f, cmd)
    ensures var (passed, at) := ReadFrames(rx, k);
            var (f, rest) := ReadFrame(at);
            && (k < ticks && f.Ok? ==> Matches(f.value, cmd))
            && Await(rx, cmd, stub, ticks) ==
               if k == ticks then (Err(Timeout), at)
               else if f.Err? then (Err(f.error), rest)
               else (Judged(f.value, cmd, stub), rest)
    decreases ticks
  {
    hide ReadFrame, Answers, Verdict, Matches, Judged;
    k := 0;
    if ticks > 0 {
      var (f, rest) := ReadFrame(rx);
      if f.Ok? {
        JudgedIsVerdict(f.value, cmd, stub);
        if !Matches(f.value, cmd) {
          var j := AwaitExactly(rest, cmd, stub, ticks - 1);
          k := j + 1;
          assert ReadFrames(rx, k).0.value == [f.value] + ReadFrames(rest, j).0.value;
        }
      }
    }
  }

  /** So success takes a frame of direction 1 and this opcode, long enough for what it announces,
      that announces a trailer, and that has a zero in the trailer's place. */
  lemma SuccessOnBytes(rx: seq<RxEvent>, cmd: byte, stub: bool, ticks: nat) returns (frame: seq<byte>)
    requires Await(rx, cmd, stub, ticks).0.Ok?
    ensures var n := if stub then 2 else 4;
            var resp := Await(rx, cmd, stub, ticks).0.value;
            && |frame| >= 8 && frame[0] == 0x01 && frame[1] == cmd
            && var size := frame[2] as int + 0x100 * (frame[3] as int);
               && n <= size <= |frame| - 8 && frame[8 + size - n] == 0
               && resp.data == frame[8..8 + size] && resp.value == FromLe(frame[4..8])
    ensures exists k :: 0 <= k < ticks && ReadFrames(rx, k).0.Ok? && ReadFrame(ReadFrames(rx, k).1).0 == Ok(frame)
  {
    hide ReadFrame, FromLe;
    var k := AwaitExactly(rx, cmd, stub, ticks);
    frame := ReadFrame(ReadFrames(rx, k).1).0.value;
  }

  /** The round trip through the link: noise, frames meant for nobody or for another command, then
      the device's response. The host gets the same value, payload and status, and stops there. */
  lemma CommandRoundTrip(noise: seq<seq<byte>>, skipped: seq<seq<byte>>, cmd: byte, value: uint32,
                         payload: seq<byte>, trailer: seq<byte>, extra: seq<byte>, stub: bool,
                         rest: seq<RxEvent>, ticks: nat)
    requires |trailer| == TrailerSize(stub) && |payload| + |trailer| < 0x1_0000
    requires |noise| == |skipped| + 1 && NoneAnswers(skipped, cmd) && |skipped| < ticks
    requires Readable(noise, skipped + [ResponseFrame(cmd, value, payload, trailer, extra)])
    ensures var resp := Response(cmd, value, payload + trailer);
            var wire := Stream(noise, skipped + [ResponseFrame(cmd, value, payload, trailer, extra)]);
            && Await(Data(wire) + rest, cmd, stub, ticks)
               == (if trailer[0] == 0 then Ok(resp) else Err(Refused(cmd, trailer[1], value, payload + trailer)), rest)
            && resp.Payload(stub) == payload
  {
    hide ReadFrame, ReadFrames, ParseResponse, ResponseFrame, Frame, Readable, Stream;
    var frame := ResponseFrame(cmd, value, payload, trailer, extra);
    var n := |skipped|;
    ResponseRoundTrip(cmd, value, payload, trailer, extra, stub);
    StreamSplit(noise, skipped, frame);
    var first := Stream(noise[..n], skipped);
    DataAppend(first, noise[n] + Frame(frame));
    assert Data(Stream(noise, skipped + [frame])) + rest == Data(first) + (Data(noise[n] + Frame(frame)) + rest);
    StreamRoundTrip(noise[..n], skipped, Data(noise[n] + Frame(frame)) + rest);
    FrameRoundTrip(noise[n], frame, rest);
    AwaitsFirstAnswer(Data(Stream(noise, skipped + [frame])) + rest, cmd, stub, ticks, n);
  }

  lemma {:induction false} StreamSplit(noise: seq<seq<byte>>, ps: seq<seq<byte>>, last: seq<byte>)
    requires |noise| == |ps| + 1 && Readable(noise, ps + [last])
    ensures Readable(noise[..|ps|], ps) && END !in noise[|ps|] && last != []
    ensures Stream(noise, ps + [last]) == Stream(noise[..|ps|], ps) + (noise[|ps|] + Frame(last))
    decreases |ps|
  {
    hide Frame;
    var all := ps + [last];
    assert all[|ps|] == last;
    assert forall i :: 0 <= i < |ps| ==> all[i] == ps[i];
    if ps == [] {
      assert all[1..] == [] && noise[1..] == [];
    } else {
      var front := noise[..|ps|];
      assert all[0] == ps[0] && all[1..] == ps[1..] + [last];
      assert front[0] == noise[0] && front[1..] == noise[1..][..|ps| - 1];
      StreamSplit(noise[1..], ps[1..], last);
      var first, mid, end := noise[0] + Frame(ps[0]), Stream(front[1..], ps[1..]), noise[|ps|] + Frame(last);
      assert Stream(noise, all) == first + (mid + end);
      assert Stream(front, ps) == first + mid;
    }
  }

  // ---------------------------------------------------------------- DATA requests

  /** The 16 bytes in front of a block: its length, its number and two unused words. */
  function Header(len: nat, i: nat): seq<byte> {
    Le32(ToUint32(len)) + Le32(ToUint32(i)) + Fill(8, 0)
  }

  function DataRequest(cmd: byte, i: nat, block: seq<byte>): Request {
    Request(cmd, Header(|block|, i) + block, XorAll(CHECKSUM_MAGIC, block))
  }

  function DataRequests(cmd: byte, blocks: seq<seq<byte>>, i: nat): (rs: seq<Request>)
    ensures |rs| == |blocks|
    decreases |blocks|
  {
    if blocks == [] then [] else [DataRequest(cmd, i, blocks[0])] + DataRequests(cmd, blocks[1..], i + 1)
  }

  lemma {:induction false} DataRequestAt(cmd: byte, blocks: seq<seq<byte>>, i: nat, k: nat)
    requires k < |blocks|
    ensures DataRequests(cmd, blocks, i)[k] == DataRequest(cmd, i + k, blocks[k])
    decreases k
  {
    hide DataRequest;
    if k > 0 {
      DataRequestAt(cmd, blocks[1..], i + 1, k - 1);
    }
  }

  // ---------------------------------------------------------------- the device's view of DATA requests

  /** The data of one DATA request, if its header and checksum agree with it and it is number `i`. */
  function ParseData(r: Request, cmd: byte, i: nat): Option<seq<byte>> {
    if r.cmd != cmd || |r.data| < 16 then None else
      var block := r.data[16..];
      if FromLe(r.data[..4]) != |block| || FromLe(r.data[4..8]) != i || r.chk != XorAll(CHECKSUM_MAGIC, block) then None
      else Some(block)
  }

  /** The number a DATA request carries. */
  function BlockNumber(r: Request): nat { if |r.data| < 16 then 0 else FromLe(r.data[4..8]) }

  lemma DataRequestParses(cmd: byte, i: nat, block: seq<byte>)
    requires |block| < 0x1_0000_0000
    ensures ParseData(DataRequest(cmd, i, block), cmd, ToUint32(i)) == Some(block)
    ensures BlockNumber(DataRequest(cmd, i, block)) == ToUint32(i)
  {
    hide XorAll, Le, FromLe;
    var r := DataRequest(cmd, i, block);
    assert r.data[16..] == block;
    assert r.data[..4] == Le32(|block|) && r.data[4..8] == Le32(ToUint32(i));
    Le32RoundTrip(|block|);
    Le32RoundTrip(ToUint32(i));
  }

  /** A block request, in numbers: opcode, length, number, eight zero bytes, block, checksum. */
  predicate IsBlock(r: Request, cmd: byte, k: nat, block: seq<byte>) {
    && r.cmd == cmd && |r.data| == 16 + |block|
    && Word(r.data, 0) == |block| && Word(r.data, 1) == k % 0x1_0000_0000 && r.data[8..16] == Fill(8, 0)
    && r.data[16..] == block && r.chk == XorAll(0xEF, block)
  }

  lemma BlockInNumbers(cmd: byte, k: nat, block: seq<byte>)
    requires |block| < 0x1_0000_0000
    ensures IsBlock(DataRequest(cmd, k, block), cmd, k, block)
  {
    hide Le, FromLe, XorAll;
    var d := DataRequest(cmd, k, block).data;
    assert d[0..4] == Le32(|block|) && d[4..8] == Le32(ToUint32(k)) && d[8..16] == Fill(8, 0) && d[16..] == block;
    Le32RoundTrip(|block|);
    Le32RoundTrip(ToUint32(k));
  }

  /** What a device that takes the blocks in order puts into RAM. */
  function Assemble(rs: seq<Request>, cmd: byte, i: nat): Option<seq<byte>>
    decreases |rs|
  {
    if rs == [] then Some([]) else
      match ParseData(rs[0], cmd, i)
      case None => None
      case Some(block) =>
        match Assemble(rs[1..], cmd, i + 1)
        case None => None
        case Some(more) => Some(block + more)
  }

  lemma {:induction false} Assembled(cmd: byte, blocks: seq<seq<byte>>, i: nat)
    requires i + |blocks| <= 0x1_0000_0000 && forall b :: b in blocks ==> |b| < 0x1_0000_0000
    ensures Assemble(DataRequests(cmd, blocks, i), cmd, i) == Some(Flat(blocks))
    decreases |blocks|
  {
    hide ParseData, DataRequest;
    if blocks != [] {
      DataRequestParses(cmd, i, blocks[0]);
      Assembled(cmd, blocks[1..], i + 1);
    }
  }
}
