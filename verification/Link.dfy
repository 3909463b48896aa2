/** The byte channel to the chip. What it will do is a script fixed in advance and unknown to the
    host, so a statement about every script is a statement about every behaviour of the channel. */
module Link {
  import opened Bytes

  /** The outcomes of successive reads of one byte: a byte, nothing before the deadline, or an error. */
  datatype RxEvent = Arrived(b: byte) | Silence | Fault

  /** The source returns a refused response and mismatching data beside the error; here they are in it. */
  datatype Error =
    | Timeout | ReadFault | BadEscape(b: byte)
    | ShortWrite | WriteFault
    | Refused(cmd: byte, code: byte, value: uint32, data: seq<byte>)
    | NeedsStub | NoGreeting
    | DigestMismatch(data: seq<byte>)

  function Data(bs: seq<byte>): (rx: seq<RxEvent>)
    ensures |rx| == |bs| && forall i :: 0 <= i < |bs| ==> rx[i] == Arrived(bs[i])
  {
    seq(|bs|, i requires 0 <= i < |bs| => Arrived(bs[i]))
  }

  lemma DataAppend(a: seq<byte>, b: seq<byte>)
    ensures Data(a + b) == Data(a) + Data(b)
  {
  }

  /** A source that has nothing more to give stays silent. */
  function ReadByte(rx: seq<RxEvent>): (r: (Result<byte, Error>, seq<RxEvent>))
    ensures |r.1| <= |rx| && (r.0.Ok? ==> |r.1| < |rx|)
  {
    if rx == [] then (Err(Timeout), rx) else
      match rx[0]
      case Arrived(b) => (Ok(b), rx[1..])
      case Silence => (Err(Timeout), rx[1..])
      case Fault => (Err(ReadFault), rx[1..])
  }

  // ---------------------------------------------------------------- writing

  /** The outcomes of successive writes: how many bytes went out, and whether that was an error. */
  datatype WriteEvent = Wrote(n: nat, failed: bool)

  /** One write of `len` bytes; a channel whose script has run out takes everything. */
  function WriteOnce(writes: seq<WriteEvent>, len: nat): (r: (nat, bool, seq<WriteEvent>))
    ensures r.0 <= len
  {
    if writes == [] then (len, false, writes)
    else (if writes[0].n <= len then writes[0].n else len, writes[0].failed, writes[1..])
  }

  /** `writeAll`: goes on after partial writes, gives up on an error or when nothing is taken. */
  function Send(writes: seq<WriteEvent>, len: nat): (r: (Option<Error>, nat, seq<WriteEvent>))
    ensures r.1 <= len && (r.0.None? ==> r.1 == len)
    ensures r.0.Some? ==> r.0.value.WriteFault? || r.0.value.ShortWrite?
    decreases len
  {
    if len == 0 then (None, 0, writes) else
      var (n, failed, rest) := WriteOnce(writes, len);
      if failed then (Some(WriteFault), n, rest)
      else if n == 0 then (Some(ShortWrite), 0, rest)
      else
        var (err, more, end) := Send(rest, len - n);
        (err, n + more, end)
  }

  /** A channel without write trouble takes everything. */
  lemma UndisturbedSend(len: nat)
    ensures Send([], len) == (None, len, [])
  {
  }

  /** Every write takes something. */
  predicate Flows(writes: seq<WriteEvent>) { forall e :: e in writes ==> e.n > 0 && !e.failed }

  /** What a script of writes takes altogether. */
  function Capacity(writes: seq<WriteEvent>): nat {
    if writes == [] then 0 else writes[0].n + Capacity(writes[1..])
  }

  /** The first `k` writes go on, and they take `len` bytes or are the whole script. */
  predicate TakenBy(writes: seq<WriteEvent>, len: nat, k: nat) {
    k <= |writes| && Flows(writes[..k]) && (k == |writes| || Capacity(writes[..k]) >= len)
  }

  lemma FirstOfMore(writes: seq<WriteEvent>, len: nat, k: nat)
    requires writes != [] && len > 0
    ensures !TakenBy(writes, len, 0)
    ensures TakenBy(writes, len, k + 1) <==>
              writes[0].n > 0 && !writes[0].failed
              && TakenBy(writes[1..], if writes[0].n <= len then len - writes[0].n else 0, k)
  {
    if k + 1 <= |writes| {
      var front, rest := writes[..k + 1], writes[1..][..k];
      assert front == [writes[0]] + rest && front[1..] == rest;
    }
  }

  /** All goes out exactly when no write fails or takes nothing before enough has been taken. */
  lemma {:induction false} SendExactly(writes: seq<WriteEvent>, len: nat)
    ensures Send(writes, len).0.None? <==> exists k: nat :: TakenBy(writes, len, k)
    decreases len
  {
    hide TakenBy;
    if len == 0 || writes == [] {
      NothingTaken(writes, len);
      assert TakenBy(writes, len, 0);
    } else {
      var n, rest := if writes[0].n <= len then writes[0].n else len, writes[1..];
      var left: nat := len - n;
      var goesOn := writes[0].n > 0 && !writes[0].failed;
      if goesOn {
        SendExactly(rest, left);
      }
      FirstOfMore(writes, len, 0);
      if exists k: nat :: TakenBy(writes, len, k) {
        var k: nat :| TakenBy(writes, len, k);
        FirstOfMore(writes, len, k - 1);
        assert TakenBy(rest, left, k - 1);
      }
      if goesOn && exists k: nat :: TakenBy(rest, left, k) {
        var k: nat :| TakenBy(rest, left, k);
        FirstOfMore(writes, len, k);
        assert TakenBy(writes, len, k + 1);
      }
    }
  }

  /** What is left of writes that go on are writes that go on. */
  lemma {:induction false} FlowsOn(writes: seq<WriteEvent>, len: nat)
    requires Flows(writes)
    ensures Flows(Send(writes, len).2)
    decreases len
  {
    if len > 0 && writes != [] {
      assert writes[0] in writes && forall e :: e in writes[1..] ==> e in writes;
      var (n, _, rest) := WriteOnce(writes, len);
      FlowsOn(rest, len - n);
    }
  }

  lemma NothingTaken(writes: seq<WriteEvent>, len: nat)
    requires len == 0 || writes == []
    ensures TakenBy(writes, len, 0)
  {
  }

  lemma FlowsOut(writes: seq<WriteEvent>, len: nat)
    requires Flows(writes)
    ensures Send(writes, len).0.None?
  {
    SendExactly(writes, len);
    assert writes[..|writes|] == writes;
    assert TakenBy(writes, len, |writes|);
  }

  class Transport {
    var rx: seq<RxEvent>
    var tx: seq<byte>
    var writes: seq<WriteEvent>

    method Read() returns (r: Result<byte, Error>)
      modifies this`rx
      ensures (r, rx) == ReadByte(old(rx))
    {
      if rx == [] {
        return Err(Timeout);
      }
      var event := rx[0];
      rx := rx[1..];
      match event {
        case Arrived(b) => return Ok(b);
        case Silence => return Err(Timeout);
        case Fault => return Err(ReadFault);
      }
    }

    /** Drops whatever has arrived so far. */
    method FlushInput()
      modifies this`rx
      ensures rx == []
    {
      rx := [];
    }

    method Write(b: seq<byte>) returns (n: nat, failed: bool)
      modifies this`tx, this`writes
      ensures (n, failed, writes) == WriteOnce(old(writes), |b|)
      ensures tx == old(tx) + b[..n]
    {
      n, failed := |b|, false;
      if writes != [] {
        n := if writes[0].n <= |b| then writes[0].n else |b|;
        failed := writes[0].failed;
        writes := writes[1..];
      }
      tx := tx + b[..n];
    }
  }
}
