/** The acknowledged streaming read: the host's loop, the two parties as one state machine, and
    why the exchange always ends with the whole region. */
module ReadFlash {
  import opened Bytes
  import opened Link
  import opened Slip
  import opened Protocol
  import L = Loader

  const READ_BLOCK_SIZE: uint32 := 0x1000
  const READ_MAX_IN_FLIGHT: uint32 := 64

  // ---------------------------------------------------------------- the host's side

  /** The acknowledgement of a running total. */
  function Ack(total: nat): seq<byte> { Frame(Le32(ToUint32(total))) }

  datatype Reading = Reading(result: Result<seq<byte>, Error>, rx: seq<RxEvent>, writes: seq<WriteEvent>, tx: seq<byte>)

  /** The data loop: append a frame, acknowledge the total, until enough has come. */
  function ReadLoop(rx: seq<RxEvent>, writes: seq<WriteEvent>, tx: seq<byte>, out: seq<byte>, length: uint32): Reading
    decreases |rx|
  {
    if ToUint32(|out|) >= length then Reading(Ok(out), rx, writes, tx) else
      var (f, rest) := Slip.ReadFrame(rx);
      match f
      case Err(e) => Reading(Err(e), rest, writes, tx)
      case Ok(packet) =>
        var ack := Ack(|out + packet|);
        var (err, n, writes2) := Send(writes, |ack|);
        if err.Some? then Reading(Err(err.value), rest, writes2, tx + ack[..n])
        else ReadLoop(rest, writes2, tx + ack, out + packet, length)
  }

  /** The digest frame counts only if it comes and has 16 bytes; otherwise the data stands. */
  function CheckDigest(r: Reading, md5: seq<byte> -> seq<byte>): Reading {
    if r.result.Err? then r else
      var (d, rest) := Slip.ReadFrame(r.rx);
      var bad := d.Ok? && |d.value| == 16 && d.value != md5(r.result.value);
      r.(result := if bad then Err(DigestMismatch(r.result.value)) else r.result, rx := rest)
  }

  function ReadRequest(offset: uint32, length: uint32): Request {
    Request(READ_FLASH, Le32(offset) + Le32(length) + Le32(READ_BLOCK_SIZE) + Le32(READ_MAX_IN_FLIGHT), 0)
  }

  function ReadWhole(rx: seq<RxEvent>, writes: seq<WriteEvent>, tx: seq<byte>, stub: bool, offset: uint32,
                     length: uint32, ticks: nat, md5: seq<byte> -> seq<byte>): Reading
  {
    if !stub then Reading(Err(NeedsStub), rx, writes, tx) else
      var (r, rx2, writes2, tx2) := L.Exchange(rx, writes, tx, ReadRequest(offset, length), stub, ticks);
      match r
      case Err(e) => Reading(Err(e), rx2, writes2, tx2)
      case Ok(_) => CheckDigest(ReadLoop(rx2, writes2, tx2, [], length), md5)
  }

  method ReadFlash(l: L.Loader, offset: uint32, length: uint32, ticks: nat, md5: seq<byte> -> seq<byte>)
    returns (r: Result<seq<byte>, Error>)
    modifies l.t
    ensures Reading(r, l.t.rx, l.t.writes, l.t.tx)
         == ReadWhole(old(l.t.rx), old(l.t.writes), old(l.t.tx), l.stub, offset, length, ticks, md5)
  {
    if !l.stub {
      return Err(NeedsStub);
    }
    var d := Le32(offset) + Le32(length) + Le32(READ_BLOCK_SIZE) + Le32(READ_MAX_IN_FLIGHT);
    var resp := l.Command(READ_FLASH, d, 0, ticks);
    if resp.Err? {
      return Err(resp.error);
    }
    r := ReadData(l, length);
    if r.Err? {
      return;
    }
    var digest := l.ReadFrame();
    if digest.Ok? && |digest.value| == 16 {
      var want := md5(r.value);
      if digest.value != want {
        return Err(DigestMismatch(r.value));
      }
    }
  }

  /** The loop of `ReadFlash`. */
  method ReadData(l: L.Loader, length: uint32) returns (r: Result<seq<byte>, Error>)
    modifies l.t
    ensures Reading(r, l.t.rx, l.t.writes, l.t.tx)
         == ReadLoop(old(l.t.rx), old(l.t.writes), old(l.t.tx), [], length)
  {
    hide Slip.ReadFrame, Frame, Send, ToUint32;
    var out: seq<byte> := [];
    while ToUint32(|out|) < length
      invariant ReadLoop(old(l.t.rx), old(l.t.writes), old(l.t.tx), [], length)
             == ReadLoop(l.t.rx, l.t.writes, l.t.tx, out, length)
      decreases |l.t.rx|
    {
      var frame := l.ReadFrame();
      if frame.Err? {
        return Err(frame.error);
      }
      out := out + frame.value;
      var ack := SlipEncode(Le32(ToUint32(|out|)));
      var err := l.WriteAll(ack);
      if err.Some? {
        return Err(err.value);
      }
      assert ack[..|ack|] == ack;
    }
    return Ok(out);
  }

  // ---------------------------------------------------------------- the host against a stream of packets

  /** The acknowledgements owed for packets that arrive on top of `total` bytes. */
  function Acks(total: nat, packets: seq<seq<byte>>): seq<byte>
    decreases |packets|
  {
    if packets == [] then [] else
      Ack(total + |packets[0]|) + Acks(total + |packets[0]|, packets[1..])
  }

  /** What is left of the write script once every acknowledgement has gone out whole; none if one
      of them does not. */
  function AckWrites(writes: seq<WriteEvent>, total: nat, packets: seq<seq<byte>>): Option<seq<WriteEvent>>
    decreases |packets|
  {
    if packets == [] then Some(writes) else
      var (err, _, left) := Send(writes, |Ack(total + |packets[0]|)|);
      if err.Some? then None else AckWrites(left, total + |packets[0]|, packets[1..])
  }

  /** While no more than `length` bytes have come, the loop takes the packets one by one, if every
      acknowledgement goes out whole; if one does not, it ends with an error. */
  lemma {:induction false} LoopAdvances(noise: seq<seq<byte>>, packets: seq<seq<byte>>, rest: seq<RxEvent>,
                                        writes: seq<WriteEvent>, tx: seq<byte>, out: seq<byte>, length: uint32)
    requires Readable(noise, packets) && |out| + |Flat(packets)| <= length
    ensures var r := ReadLoop(Data(Stream(noise, packets)) + rest, writes, tx, out, length);
            var left := AckWrites(writes, |out|, packets);
            && (left.Some? ==> r == ReadLoop(rest, left.value, tx + Acks(|out|, packets), out + Flat(packets), length))
            && (left.None? ==> r.result.Err?)
    decreases |packets|
  {
    hide ReadLoop, Frame, Ack, Send;
    if packets == [] {
      assert Data([]) + rest == rest && out + [] == out && tx + [] == tx;
    } else {
      var p, tail := packets[0], Stream(noise[1..], packets[1..]);
      var first := noise[0] + Frame(p);
      DataAppend(first, tail);
      assert Data(first + tail) + rest == Data(first) + (Data(tail) + rest);
      FrameRoundTrip(noise[0], p, Data(tail) + rest);
      LoopTakes(Data(first) + (Data(tail) + rest), writes, tx, out, length, p);
      assert |out + p| == |out| + |p|;
      var (err, n, left) := Send(writes, |Ack(|out + p|)|);
      if err.None? {
        LoopAdvances(noise[1..], packets[1..], rest, left, tx + Ack(|out + p|), out + p, length);
        assert out + p + Flat(packets[1..]) == out + Flat(packets);
        assert tx + Ack(|out + p|) + Acks(|out + p|, packets[1..]) == tx + Acks(|out|, packets);
      }
    }
  }

  /** Non-empty packets, with any noise between the frames, come out as their concatenation exactly
      when every acknowledgement goes out whole, in however many writes; each packet is then
      answered with the running total, and nothing behind the packets is touched. */
  lemma LoopCollects(noise: seq<seq<byte>>, packets: seq<seq<byte>>, rest: seq<RxEvent>,
                     writes: seq<WriteEvent>, tx: seq<byte>, out: seq<byte>, length: uint32)
    requires Readable(noise, packets) && |out| + |Flat(packets)| == length
    ensures var r := ReadLoop(Data(Stream(noise, packets)) + rest, writes, tx, out, length);
            var left := AckWrites(writes, |out|, packets);
            && (left.Some? ==> r == Reading(Ok(out + Flat(packets)), rest, left.value, tx + Acks(|out|, packets)))
            && (left.None? ==> r.result.Err?)
  {
    hide ReadLoop, Frame, Ack, Send, Acks, AckWrites;
    LoopAdvances(noise, packets, rest, writes, tx, out, length);
    var left := AckWrites(writes, |out|, packets);
    if left.Some? {
      LoopEnds(rest, left.value, tx + Acks(|out|, packets), out + Flat(packets), length);
    }
  }

  /** A frame that cannot be read before enough has come ends the loop with that error, and what has
      come so far is not returned. */
  lemma LoopBreaks(noise: seq<seq<byte>>, packets: seq<seq<byte>>, rest: seq<RxEvent>, writes: seq<WriteEvent>,
                   tx: seq<byte>, out: seq<byte>, length: uint32)
    requires Readable(noise, packets) && |out| + |Flat(packets)| < length
    requires AckWrites(writes, |out|, packets).Some? && Slip.ReadFrame(rest).0.Err?
    ensures ReadLoop(Data(Stream(noise, packets)) + rest, writes, tx, out, length)
         == Reading(Err(Slip.ReadFrame(rest).0.error), Slip.ReadFrame(rest).1, AckWrites(writes, |out|, packets).value,
                    tx + Acks(|out|, packets))
  {
    hide Slip.ReadFrame, Frame, Ack, Send, Acks, AckWrites;
    LoopAdvances(noise, packets, rest, writes, tx, out, length);
  }

  /** And whatever the input, data is returned only when it is the frames read, one after the other,
      each acknowledged with the total so far, and exactly as many as it takes to have enough. */
  lemma {:induction false} LoopReads(rx: seq<RxEvent>, writes: seq<WriteEvent>, tx: seq<byte>, out: seq<byte>,
                                     length: uint32) returns (k: nat)
    requires ReadLoop(rx, writes, tx, out, length).result.Ok?
    ensures var (frames, rest) := ReadFrames(rx, k);
            var r := ReadLoop(rx, writes, tx, out, length);
            && frames.Ok? && r.result.value == out + Flat(frames.value) && r.rx == rest
            && r.tx == tx + Acks(|out|, frames.value) && |r.result.value| >= length
            && (k > 0 ==> ToUint32(|out + Flat(frames.value[..k - 1])|) < length)
    decreases |rx|
  {
    hide Slip.ReadFrame, Ack, Send, ToUint32;
    AtLeast(|out|);
    k := 0;
    if ToUint32(|out|) < length {
      var (f, rest) := Slip.ReadFrame(rx);
      var ack := Ack(|out + f.value|);
      var left := Send(writes, |ack|).2;
      var j := LoopReads(rest, left, tx + ack, out + f.value, length);
      k := j + 1;
      var more := ReadFrames(rest, j).0.value;
      assert ([f.value] + more)[1..] == more;
      assert out + f.value + Flat(more) == out + (f.value + Flat(more));
      assert |out + f.value| == |out| + |f.value|;
      assert tx + ack + Acks(|out + f.value|, more) == tx + (ack + Acks(|out| + |f.value|, more));
      LastButOne(out, f.value, more);
    } else {
      assert out + [] == out && tx + [] == tx;
    }
  }

  lemma AtLeast(n: nat)
    ensures ToUint32(n) <= n
  {
  }

  lemma LastButOne(out: seq<byte>, p: seq<byte>, more: seq<seq<byte>>)
    ensures out + Flat(([p] + more)[..|more|]) == if more == [] then out else out + p + Flat(more[..|more| - 1])
  {
    if more != [] {
      assert ([p] + more)[..|more|] == [p] + more[..|more| - 1];
      JoinPacket(out, p, more[..|more| - 1]);
    } else {
      assert ([p] + more)[..0] == [];
    }
  }

  lemma JoinPacket(out: seq<byte>, p: seq<byte>, later: seq<seq<byte>>)
    ensures out + Flat([p] + later) == out + p + Flat(later)
  {
    assert ([p] + later)[1..] == later;
    assert Flat([p] + later) == p + Flat(later);
  }

  lemma LoopEnds(rx: seq<RxEvent>, writes: seq<WriteEvent>, tx: seq<byte>, out: seq<byte>, length: uint32)
    requires |out| == length
    ensures ReadLoop(rx, writes, tx, out, length) == Reading(Ok(out), rx, writes, tx)
  {
    hide Slip.ReadFrame, Send, Ack;
  }

  lemma LoopTakes(rx: seq<RxEvent>, writes: seq<WriteEvent>, tx: seq<byte>, out: seq<byte>, length: uint32, p: seq<byte>)
    requires |out| < length && Slip.ReadFrame(rx).0 == Ok(p)
    ensures var ack, rest := Ack(|out + p|), Slip.ReadFrame(rx).1;
            var (err, n, left) := Send(writes, |ack|);
            ReadLoop(rx, writes, tx, out, length)
            == if err.Some? then Reading(Err(err.value), rest, left, tx + ack[..n])
               else ReadLoop(rest, left, tx + ack, out + p, length)
  {
    hide Slip.ReadFrame, Send, Ack;
  }

  /** What the check makes of anything at all behind the data: the region is refused exactly when
      the next frame has 16 bytes and they are not its digest. A frame that is missing, broken,
      or of another size lets it pass. */
  lemma ReadsRegion(noise: seq<seq<byte>>, packets: seq<seq<byte>>, rest: seq<RxEvent>, writes: seq<WriteEvent>,
                    region: seq<byte>, md5: seq<byte> -> seq<byte>)
    requires Readable(noise, packets) && Flat(packets) == region && |region| < 0x1_0000_0000
    requires AckWrites(writes, 0, packets).Some?
    ensures var d := Slip.ReadFrame(rest).0;
            CheckDigest(ReadLoop(Data(Stream(noise, packets)) + rest, writes, [], [], |region|), md5).result
            == if d.Ok? && |d.value| == 16 && d.value != md5(region) then Err(DigestMismatch(region)) else Ok(region)
  {
    hide Slip.ReadFrame, ReadLoop, Acks, AckWrites;
    LoopCollects(noise, packets, rest, writes, [], [], |region|);
    assert [] + Flat(packets) == region;
  }

  /** With a digest frame there, whatever noise stands in front of it and whatever comes behind. */
  lemma ReadsRegionAndDigest(noise: seq<seq<byte>>, packets: seq<seq<byte>>, hiss: seq<byte>, digest: seq<byte>,
                             rest: seq<RxEvent>, writes: seq<WriteEvent>, region: seq<byte>, md5: seq<byte> -> seq<byte>)
    requires Readable(noise, packets) && Flat(packets) == region && |region| < 0x1_0000_0000
    requires AckWrites(writes, 0, packets).Some? && END !in hiss && digest != []
    ensures var rx := Data(Stream(noise, packets)) + (Data(hiss + Frame(digest)) + rest);
            CheckDigest(ReadLoop(rx, writes, [], [], |region|), md5).result
            == if |digest| == 16 && digest != md5(region) then Err(DigestMismatch(region)) else Ok(region)
  {
    hide Slip.ReadFrame, Frame, ReadLoop, AckWrites, CheckDigest;
    FrameRoundTrip(hiss, digest, rest);
    ReadsRegion(noise, packets, Data(hiss + Frame(digest)) + rest, writes, region, md5);
  }

  // ---------------------------------------------------------------- what the chip hears

  /** An acknowledgement, in numbers: a frame of four bytes, the total's low 32 bits. */
  lemma AckHeard(total: nat, rest: seq<RxEvent>)
    ensures var (f, after) := Slip.ReadFrame(Data(Ack(total)) + rest);
            f.Ok? && |f.value| == 4 && FromLe(f.value) == total % 0x1_0000_0000 && after == rest
  {
    hide Slip.ReadFrame, Frame, Le, FromLe;
    var word := Le32(ToUint32(total));
    FrameRoundTrip([], word, rest);
    assert [] + Frame(word) == Frame(word);
    Le32RoundTrip(ToUint32(total));
  }

  /** Without the stub nothing is sent and nothing read. */
  lemma NeedsTheStub(rx: seq<RxEvent>, writes: seq<WriteEvent>, tx: seq<byte>, offset: uint32, length: uint32, ticks: nat,
                     md5: seq<byte> -> seq<byte>)
    ensures ReadWhole(rx, writes, tx, false, offset, length, ticks, md5) == Reading(Err(NeedsStub), rx, writes, tx)
  {
  }

  /** The request, in numbers: offset, length, packet size and window. */
  lemma RequestInNumbers(offset: uint32, length: uint32)
    ensures var r := ReadRequest(offset, length);
            && r.cmd == 0xD2 && r.chk == 0 && |r.data| == 16
            && Word(r.data, 0) == offset && Word(r.data, 1) == length
            && Word(r.data, 2) == 0x1000 && Word(r.data, 3) == 64
  {
    hide Le, FromLe;
    var d := ReadRequest(offset, length).data;
    assert d[0..4] == Le32(offset) && d[4..8] == Le32(length) && d[8..12] == Le32(0x1000) && d[12..16] == Le32(64);
    Le32RoundTrip(offset);
    Le32RoundTrip(length);
    Le32RoundTrip(0x1000);
    Le32RoundTrip(64);
  }

  lemma AnswerTaken(rx: seq<RxEvent>, writes: seq<WriteEvent>, tx: seq<byte>, req: Request, stub: bool, ticks: nat)
    ensures var (r, rest, _, tx2) := L.Exchange(rx, writes, tx, req, stub, ticks);
            r.Ok? ==> Await(rx, req.cmd, stub, ticks).0.Ok? && rest == Await(rx, req.cmd, stub, ticks).1
                      && tx2 == tx + Frame(Packet(req))
  {
    hide Await, Frame, Packet, Send;
  }

  lemma DigestPassed(r: Reading, md5: seq<byte> -> seq<byte>)
    ensures var c := CheckDigest(r, md5); c.tx == r.tx && (c.result.Ok? ==> c.result == r.result)
  {
    hide Slip.ReadFrame;
  }

  /** A read that returns data: the chip was asked for `length` bytes from `offset`, the data is the
      frames that came after its response, one after the other, at least `length` bytes, and each
      was acknowledged with the total so far. */
  lemma ReadIsAsked(rx: seq<RxEvent>, writes: seq<WriteEvent>, tx: seq<byte>, offset: uint32, length: uint32, ticks: nat,
                    md5: seq<byte> -> seq<byte>) returns (asked: Request, at: seq<RxEvent>, k: nat)
    requires ReadWhole(rx, writes, tx, true, offset, length, ticks, md5).result.Ok?
    ensures var r := ReadWhole(rx, writes, tx, true, offset, length, ticks, md5);
            var frames := ReadFrames(at, k).0;
            && tx <= r.tx && Heard(r.tx[|tx|..]) == Some(asked)
            && asked.cmd == 0xD2 && |asked.data| == 16
            && Word(asked.data, 0) == offset && Word(asked.data, 1) == length
            && Word(asked.data, 2) == 0x1000 && Word(asked.data, 3) == 64
            && Await(rx, 0xD2, true, ticks).0.Ok? && at == Await(rx, 0xD2, true, ticks).1
            && frames.Ok? && r.result.value == Flat(frames.value) && |r.result.value| >= length
            && r.tx == tx + Frame(Packet(asked)) + Acks(0, frames.value)
  {
    hide Await, Slip.ReadFrame, Frame, Packet, ReadLoop, Heard, Acks, Word, L.Exchange, CheckDigest, ReadRequest, Flat,
         ReadFrames, ToUint32;
    asked := ReadRequest(offset, length);
    RequestInNumbers(offset, length);
    AnswerTaken(rx, writes, tx, asked, true, ticks);
    var (_, rx2, writes2, tx2) := L.Exchange(rx, writes, tx, asked, true, ticks);
    at := rx2;
    DigestPassed(ReadLoop(rx2, writes2, tx2, [], length), md5);
    k := LoopReads(rx2, writes2, tx2, [], length);
    var acks := Acks(0, ReadFrames(at, k).0.value);
    assert (tx + Frame(Packet(asked)) + acks)[|tx|..] == Frame(Packet(asked)) + acks;
    HeardFirst(asked, acks);
    assert [] + Flat(ReadFrames(at, k).0.value) == Flat(ReadFrames(at, k).0.value);
  }

  // ---------------------------------------------------------------- both parties

  /** The device's counters, the two channels and the host's buffer. */
  datatype State = State(sent: nat, acked: nat, toHost: seq<seq<byte>>, toDevice: seq<nat>, out: seq<byte>)

  const INIT := State(0, 0, [], [], [])

  datatype Action = DeviceSends(n: nat) | HostTakes | DeviceHears

  /** The device sends the next `n` bytes while less than a window is unacknowledged; the host
      takes a packet, as its loop does, while it wants more; the device takes an acknowledgement. */
  predicate Enabled(region: seq<byte>, window: nat, s: State, a: Action) {
    match a
    case DeviceSends(n) => 1 <= n && s.sent + n <= |region| && s.sent < s.acked + window
    case HostTakes => s.toHost != [] && |s.out| < |region|
    case DeviceHears => s.toDevice != []
  }

  function Step(region: seq<byte>, window: nat, s: State, a: Action): State
    requires Enabled(region, window, s, a)
  {
    match a
    case DeviceSends(n) => s.(sent := s.sent + n, toHost := s.toHost + [region[s.sent..s.sent + n]])
    case HostTakes =>
      var out := s.out + s.toHost[0];
      s.(out := out, toHost := s.toHost[1..], toDevice := s.toDevice + [|out|])
    case DeviceHears => s.(acked := s.toDevice[0], toDevice := s.toDevice[1..])
  }

  /** The acknowledgements under way, each larger than the one before, up to `top`. */
  predicate Rising(from: nat, acks: seq<nat>, top: nat)
    decreases |acks|
  {
    if acks == [] then from == top else from < acks[0] && Rising(acks[0], acks[1..], top)
  }

  predicate Inv(region: seq<byte>, s: State) {
    && s.acked <= |s.out| <= s.sent <= |region|
    && s.out == region[..|s.out|]
    && (forall i :: 0 <= i < |s.toHost| ==> s.toHost[i] != [])
    && Flat(s.toHost) == region[|s.out|..s.sent]
    && Rising(s.acked, s.toDevice, |s.out|)
  }

  lemma {:induction false} RisingSnoc(from: nat, acks: seq<nat>, top: nat, next: nat)
    requires Rising(from, acks, top) && top < next
    ensures Rising(from, acks + [next], next)
    decreases |acks|
  {
    if acks == [] {
      assert [next][1..] == [];
    } else {
      assert (acks + [next])[1..] == acks[1..] + [next];
      RisingSnoc(acks[0], acks[1..], top, next);
    }
  }

  lemma {:induction false} RisingBound(from: nat, acks: seq<nat>, top: nat)
    requires Rising(from, acks, top)
    ensures from <= top
    decreases |acks|
  {
    if acks != [] {
      RisingBound(acks[0], acks[1..], top);
    }
  }

  /** Every step keeps acked <= received <= sent, the received bytes a prefix of the region, and
      the acknowledgements rising. */
  lemma StepKeepsInv(region: seq<byte>, window: nat, s: State, a: Action)
    requires Inv(region, s) && Enabled(region, window, s, a)
    ensures Inv(region, Step(region, window, s, a))
  {
    match a {
      case DeviceSends(n) =>
        var packet := region[s.sent..s.sent + n];
        FlatSnoc(s.toHost, packet);
        assert region[|s.out|..s.sent] + packet == region[|s.out|..s.sent + n];
      case HostTakes =>
        var p := s.toHost[0];
        var out := s.out + p;
        SliceSplit(region, |s.out|, s.sent, p, Flat(s.toHost[1..]));
        assert out == region[..|out|];
        RisingSnoc(s.acked, s.toDevice, |s.out|, |out|);
      case DeviceHears =>
        RisingBound(s.toDevice[0], s.toDevice[1..], |s.out|);
    }
  }

  /** How much is still to happen. */
  function Remaining(region: seq<byte>, s: State): int {
    3 * (|region| - s.sent) + 2 * |s.toHost| + |s.toDevice|
  }

  lemma StepMakesProgress(region: seq<byte>, window: nat, s: State, a: Action)
    requires Inv(region, s) && Enabled(region, window, s, a)
    ensures 0 <= Remaining(region, Step(region, window, s, a)) < Remaining(region, s)
  {
    StepKeepsInv(region, window, s, a);
  }

  /** With a window of at least one byte the exchange is never stuck before the end. */
  lemma NeverStuck(region: seq<byte>, window: nat, s: State)
    requires Inv(region, s) && window >= 1 && |s.out| < |region|
    ensures exists a :: Enabled(region, window, s, a)
  {
    if s.toHost != [] {
      assert Enabled(region, window, s, HostTakes);
    } else if s.toDevice != [] {
      assert Enabled(region, window, s, DeviceHears);
    } else {
      assert |s.out| == s.sent == s.acked;
      assert Enabled(region, window, s, DeviceSends(1));
    }
  }

  /** A run: each action is enabled where it is taken. */
  predicate IsRun(region: seq<byte>, window: nat, s: State, actions: seq<Action>)
    decreases |actions|
  {
    actions == [] ||
    (Enabled(region, window, s, actions[0]) && IsRun(region, window, Step(region, window, s, actions[0]), actions[1..]))
  }

  function After(region: seq<byte>, window: nat, s: State, actions: seq<Action>): State
    requires IsRun(region, window, s, actions)
    decreases |actions|
  {
    if actions == [] then s else After(region, window, Step(region, window, s, actions[0]), actions[1..])
  }

  lemma {:induction false} RunKeepsInv(region: seq<byte>, window: nat, s: State, actions: seq<Action>)
    requires Inv(region, s) && IsRun(region, window, s, actions)
    ensures Inv(region, After(region, window, s, actions))
    ensures |actions| <= Remaining(region, s) - Remaining(region, After(region, window, s, actions))
    decreases |actions|
  {
    hide Inv, Enabled, Remaining;
    if actions != [] {
      StepKeepsInv(region, window, s, actions[0]);
      StepMakesProgress(region, window, s, actions[0]);
      RunKeepsInv(region, window, Step(region, window, s, actions[0]), actions[1..]);
    }
  }

  /** In every interleaving, from the start: what the host has is a prefix of the region, no run
      is longer than three steps a byte, and a run that cannot go on has delivered the region. */
  lemma EveryRunDelivers(region: seq<byte>, window: nat, actions: seq<Action>)
    requires window >= 1 && IsRun(region, window, INIT, actions)
    ensures var s := After(region, window, INIT, actions);
            && s.acked <= |s.out| <= s.sent && s.out <= region
            && |actions| <= 3 * |region|
            && ((forall a :: !Enabled(region, window, s, a)) ==> s.out == region)
  {
    assert Inv(region, INIT);
    RunKeepsInv(region, window, INIT, actions);
    var s := After(region, window, INIT, actions);
    if |s.out| < |region| {
      NeverStuck(region, window, s);
    }
  }

  // ---------------------------------------------------------------- the loop as the host's half of a run

  /** Acknowledgements as they stand on the wire. */
  function AckBytes(totals: seq<nat>): seq<byte> {
    if totals == [] then [] else Ack(totals[0]) + AckBytes(totals[1..])
  }

  function Sent(region: seq<byte>, s: State, a: Action): seq<seq<byte>>
    requires a.DeviceSends? ==> s.sent + a.n <= |region|
  {
    if a.DeviceSends? then [region[s.sent..s.sent + a.n]] else []
  }

  function Total(s: State, a: Action): seq<nat>
    requires a.HostTakes? ==> s.toHost != []
  {
    if a.HostTakes? then [|s.out| + |s.toHost[0]|] else []
  }

  /** The packets the device sends in a run. */
  function Packets(region: seq<byte>, window: nat, s: State, actions: seq<Action>): seq<seq<byte>>
    requires IsRun(region, window, s, actions)
    decreases |actions|
  {
    if actions == [] then [] else
      Sent(region, s, actions[0]) + Packets(region, window, Step(region, window, s, actions[0]), actions[1..])
  }

  /** The totals the host acknowledges in a run. */
  function Totals(region: seq<byte>, window: nat, s: State, actions: seq<Action>): seq<nat>
    requires IsRun(region, window, s, actions)
    decreases |actions|
  {
    if actions == [] then [] else
      Total(s, actions[0]) + Totals(region, window, Step(region, window, s, actions[0]), actions[1..])
  }

  /** What one action means for the packets the host takes from then on. */
  lemma OneAction(region: seq<byte>, window: nat, s: State, a: Action, sent: seq<seq<byte>>, later: seq<seq<byte>>,
                  totals: seq<nat>, left: seq<seq<byte>>) returns (taken: seq<seq<byte>>)
    requires Inv(region, s) && Enabled(region, window, s, a)
    requires Step(region, window, s, a).toHost + sent == later + left
    requires AckBytes(totals) == Acks(|Step(region, window, s, a).out|, later)
    requires forall p :: p in later ==> p != []
    ensures s.toHost + (Sent(region, s, a) + sent) == taken + left
    ensures s.out + Flat(taken) == Step(region, window, s, a).out + Flat(later)
    ensures AckBytes(Total(s, a) + totals) == Acks(|s.out|, taken)
    ensures forall p :: p in taken ==> p != []
  {
    hide Inv, Flat, Ack, Acks, AckBytes;
    taken := later;
    match a {
      case DeviceSends(n) =>
        assert s.toHost + (Sent(region, s, a) + sent) == (s.toHost + Sent(region, s, a)) + sent;
        assert Total(s, a) + totals == totals;
      case HostTakes =>
        Taking(region, window, s);
        taken := [s.toHost[0]] + later;
        assert s.toHost + (Sent(region, s, a) + sent) == [s.toHost[0]] + (s.toHost[1..] + sent);
        assert taken + left == [s.toHost[0]] + (later + left);
        JoinPacket(s.out, s.toHost[0], later);
        AcksCons(|s.out|, s.toHost[0], later);
        AckBytesCons(|s.out| + |s.toHost[0]|, totals);
      case DeviceHears =>
        assert Sent(region, s, a) + sent == sent;
        assert Total(s, a) + totals == totals;
    }
  }

  lemma AcksCons(total: nat, p: seq<byte>, later: seq<seq<byte>>)
    ensures Acks(total, [p] + later) == Ack(total + |p|) + Acks(total + |p|, later)
  {
    hide Ack;
    assert ([p] + later)[1..] == later;
  }

  lemma AckBytesCons(total: nat, totals: seq<nat>)
    ensures AckBytes([total] + totals) == Ack(total) + AckBytes(totals)
  {
    hide Ack;
    assert ([total] + totals)[1..] == totals;
  }

  lemma Taking(region: seq<byte>, window: nat, s: State)
    requires Inv(region, s) && Enabled(region, window, s, HostTakes)
    ensures s.toHost != [] && s.toHost[0] != []
  {
  }

  /** The packets the host takes in a run: all that were under way or sent, but for those under way
      at its end. */
  lemma {:induction false} HostSide(region: seq<byte>, window: nat, s: State, actions: seq<Action>)
    returns (taken: seq<seq<byte>>)
    requires Inv(region, s) && IsRun(region, window, s, actions)
    ensures var end := After(region, window, s, actions);
            && s.toHost + Packets(region, window, s, actions) == taken + end.toHost
            && end.out == s.out + Flat(taken) && Inv(region, end)
    ensures AckBytes(Totals(region, window, s, actions)) == Acks(|s.out|, taken)
    ensures forall p :: p in taken ==> p != []
    decreases |actions|
  {
    hide Inv, Enabled, Step, Sent, Total;
    taken := [];
    if actions == [] {
      assert s.toHost + [] == [] + s.toHost && s.out + Flat<byte>([]) == s.out;
    } else {
      StepKeepsInv(region, window, s, actions[0]);
      var s1 := Step(region, window, s, actions[0]);
      var later := HostSide(region, window, s1, actions[1..]);
      taken := OneAction(region, window, s, actions[0], Packets(region, window, s1, actions[1..]), later,
                         Totals(region, window, s1, actions[1..]), After(region, window, s1, actions[1..]).toHost);
    }
  }

  lemma {:induction false} NothingUnderWay(packets: seq<seq<byte>>)
    requires Flat(packets) == [] && forall i :: 0 <= i < |packets| ==> packets[i] != []
    ensures packets == []
  {
  }

  lemma DeliveredAll(region: seq<byte>, s: State)
    requires Inv(region, s) && s.out == region
    ensures s.toHost == []
  {
    NothingUnderWay(s.toHost);
  }

  /** The loop is the host's half of every complete run: whichever way the device cut the region
      into packets and the parties took turns, the loop over those packets ends with the region
      and has written, in SLIP frames, exactly the totals that the host acknowledges in the run. */
  lemma LoopIsHostSteps(region: seq<byte>, window: nat, s: State, actions: seq<Action>, noise: seq<seq<byte>>,
                        rest: seq<RxEvent>, writes: seq<WriteEvent>, tx: seq<byte>)
    requires Inv(region, s) && IsRun(region, window, s, actions) && |region| < 0x1_0000_0000
    requires After(region, window, s, actions).out == region
    requires var packets := s.toHost + Packets(region, window, s, actions);
             && |noise| == |packets| && (forall i :: 0 <= i < |noise| ==> END !in noise[i])
             && AckWrites(writes, |s.out|, packets).Some?
    ensures var packets := s.toHost + Packets(region, window, s, actions);
            ReadLoop(Data(Stream(noise, packets)) + rest, writes, tx, s.out, |region|)
            == Reading(Ok(region), rest, AckWrites(writes, |s.out|, packets).value,
                       tx + AckBytes(Totals(region, window, s, actions)))
  {
    hide ReadLoop, Stream, Inv, Acks, AckWrites, AckBytes, Totals, Packets, After, IsRun;
    var taken := HostSide(region, window, s, actions);
    DeliveredAll(region, After(region, window, s, actions));
    var packets := s.toHost + Packets(region, window, s, actions);
    assert packets == taken;
    assert forall i :: 0 <= i < |taken| ==> taken[i] in taken;
    assert |region| == |s.out| + |Flat(taken)|;
    LoopCollects(noise, taken, rest, writes, tx, s.out, |region|);
  }
}
