/** The loader's link layer: reading frames, writing all of a frame, sending a command and
    waiting for its answer. */
module Loader {
  import opened Bytes
  import opened Link
  import opened Slip
  import opened Protocol

  class Loader {
    const t: Transport
    var stub: bool

    constructor (t: Transport)
      ensures this.t == t && !stub
    {
      this.t := t;
      this.stub := false;
    }

    method ReadFrame() returns (r: Result<seq<byte>, Error>)
      modifies t`rx
      ensures (r, t.rx) == Slip.ReadFrame(old(t.rx))
    {
      var b := t.Read();
      while b.Ok? && b.value != END
        invariant Seek(old(t.rx)) == AfterByte(b, t.rx)
        decreases b.Ok?, |t.rx|
      {
        b := t.Read();
      }
      if b.Err? {
        return Err(b.error);
      }
      r := ReadBody();
    }

    /** The second loop of `readFrame`: collects the payload, undoing the escapes. */
    method ReadBody() returns (r: Result<seq<byte>, Error>)
      modifies t`rx
      ensures (r, t.rx) == Body(old(t.rx), [])
    {
      var out := [];
      while true
        invariant Body(old(t.rx), []) == Body(t.rx, out)
        decreases |t.rx|
      {
        var b := t.Read();
        if b.Err? {
          return Err(b.error);
        }
        if b.value == END {
          if out != [] {
            return Ok(out);
          }
        } else if b.value == ESC {
          var n := t.Read();
          if n.Err? {
            return Err(n.error);
          }
          if n.value == ESC_END {
            out := out + [END];
          } else if n.value == ESC_ESC {
            out := out + [ESC];
          } else {
            return Err(BadEscape(n.value));
          }
        } else {
          out := out + [b.value];
        }
      }
    }

    method WriteAll(b: seq<byte>) returns (err: Option<Error>)
      modifies t`tx, t`writes
      ensures (err, t.writes) == (Send(old(t.writes), |b|).0, Send(old(t.writes), |b|).2)
      ensures t.tx == old(t.tx) + b[..Send(old(t.writes), |b|).1]
    {
      hide Send;
      var left := b;
      ghost var done: nat := 0;
      while |left| > 0
        invariant done <= |b| && left == b[done..] && t.tx == old(t.tx) + b[..done]
        invariant Send(old(t.writes), |b|) == Later(Send(t.writes, |left|), done)
        decreases |left|
      {
        SendNext(t.writes, |left|);
        var n, failed := t.Write(left);
        TakeMore(b, done, n);
        if failed {
          return Some(WriteFault);
        }
        if n == 0 {
          return Some(ShortWrite);
        }
        left := left[n..];
        done := done + n;
      }
      SendNothing(t.writes);
      return None;
    }

    /** `command`: the request goes out whole, then frames are read until one answers it. */
    method Command(cmd: byte, data: seq<byte>, chk: uint32, ticks: nat) returns (r: Result<Response, Error>)
      modifies t
      ensures (r, t.rx, t.writes, t.tx) == Exchange(old(t.rx), old(t.writes), old(t.tx), Request(cmd, data, chk), stub, ticks)
    {
      var pkt := EncodeCommand(cmd, data, chk);
      var wire := SlipEncode(pkt);
      var err := WriteAll(wire);
      if err.Some? {
        return Err(err.value);
      }
      ghost var sent := t.rx;
      var left := ticks;
      while left > 0
        invariant Await(sent, cmd, stub, ticks) == Await(t.rx, cmd, stub, left)
        invariant t.tx == old(t.tx) + wire && t.writes == Send(old(t.writes), |wire|).2
      {
        var frame := ReadFrame();
        if frame.Err? {
          return Err(frame.error);
        }
        left := left - 1;
        if Answers(frame.value, cmd) {
          return Verdict(frame.value, cmd, stub);
        }
      }
      return Err(Timeout);
    }
  }

  /** What `Seek` comes to once a byte, or an error, has been read. */
  function AfterByte(b: Result<byte, Error>, rest: seq<RxEvent>): (Result<(), Error>, seq<RxEvent>) {
    match b
    case Err(e) => (Err(e), rest)
    case Ok(c) => if c == END then (Ok(()), rest) else Seek(rest)
  }

  lemma SendNothing(writes: seq<WriteEvent>)
    ensures Send(writes, 0) == (None, 0, writes)
  {
  }

  /** The first of the writes of a whole frame. */
  lemma SendNext(writes: seq<WriteEvent>, len: nat)
    requires len > 0
    ensures var (n, failed, rest) := WriteOnce(writes, len);
            Send(writes, len) == if failed then (Some(WriteFault), n, rest)
                                 else if n == 0 then (Some(ShortWrite), 0, rest)
                                 else Later(Send(rest, len - n), n)
  {
  }

  lemma TakeMore(b: seq<byte>, done: nat, n: nat)
    requires done + n <= |b|
    ensures b[..done + n] == b[..done] + b[done..][..n]
    ensures b[done..][n..] == b[done + n..]
  {
  }

  function Later(r: (Option<Error>, nat, seq<WriteEvent>), done: nat): (Option<Error>, nat, seq<WriteEvent>) {
    (r.0, done + r.1, r.2)
  }

  /** One command: the answer, and what is left of the channel's scripts. */
  function Exchange(rx: seq<RxEvent>, writes: seq<WriteEvent>, tx: seq<byte>, req: Request, stub: bool, ticks: nat)
    : (Result<Response, Error>, seq<RxEvent>, seq<WriteEvent>, seq<byte>)
  {
    var wire := Frame(Packet(req));
    var (err, n, writes2) := Send(writes, |wire|);
    if err.Some? then (Err(err.value), rx, writes2, tx + wire[..n]) else
      var (r, rest) := Await(rx, req.cmd, stub, ticks);
      (r, rest, writes2, tx + wire)
  }

  /** A command fails with a write error exactly when the writes break off; then nothing of the input
      has been read, and what went out is the beginning of the frame. */
  lemma UnsentExactly(rx: seq<RxEvent>, writes: seq<WriteEvent>, tx: seq<byte>, req: Request, stub: bool, ticks: nat)
    returns (n: nat)
    ensures var wire := Frame(Packet(req));
            var (r, rest, _, tx2) := Exchange(rx, writes, tx, req, stub, ticks);
            && n <= |wire| && tx2 == tx + wire[..n]
            && (r.Err? && r.error in {WriteFault, ShortWrite} <==> !exists k: nat :: TakenBy(writes, |wire|, k))
            && (r.Err? && r.error in {WriteFault, ShortWrite} ==> rest == rx)
            && (!(r.Err? && r.error in {WriteFault, ShortWrite}) ==> n == |wire|)
  {
    hide Await, Frame, Packet, Send, TakenBy;
    var wire := Frame(Packet(req));
    n := Send(writes, |wire|).1;
    SendExactly(writes, |wire|);
    assert wire[..|wire|] == wire;
    AwaitErrors(rx, req.cmd, stub, ticks);
  }

  lemma AwaitErrors(rx: seq<RxEvent>, cmd: byte, stub: bool, ticks: nat)
    ensures var r := Await(rx, cmd, stub, ticks).0; r.Err? ==> r.error !in {WriteFault, ShortWrite}
  {
    hide Await, ReadFrames, Slip.ReadFrame;
    var k := AwaitExactly(rx, cmd, stub, ticks);
    FrameErrors(ReadFrames(rx, k).1);
  }

  /** Whatever the channel does to the writes, a command that gets an answer has sent exactly one
      whole frame, which a device reads as exactly that request. */
  lemma AnsweredWasSent(rx: seq<RxEvent>, writes: seq<WriteEvent>, tx: seq<byte>, req: Request, stub: bool, ticks: nat)
    requires |req.data| < 0x1_0000
    requires var r := Exchange(rx, writes, tx, req, stub, ticks).0; r.Ok? || r.error.Refused?
    ensures var tx2 := Exchange(rx, writes, tx, req, stub, ticks).3;
            && tx2 == tx + Frame(Packet(req))
            && Slip.ReadFrame(Data(tx2[|tx|..])) == (Ok(Packet(req)), [])
            && ParseRequest(Packet(req)) == Some(req)
  {
    hide Await, Slip.ReadFrame, Packet, ParseRequest;
    PacketParts(req);
    FrameRoundTrip([], Packet(req), []);
    var wire := Frame(Packet(req));
    assert [] + wire == wire && Data(wire) + [] == Data(wire);
    assert (tx + wire)[|tx|..] == wire;
    RequestRoundTrip(req);
  }
}
