/** The flashing model's exchanges are what `command` does on the wire: for each fate, whatever
    then happens to the bytes in either direction leads `command` to the same answer. */
module FlashLink {
  import opened Bytes
  import opened Link
  import opened Slip
  import opened Protocol
  import opened FlashDevice
  import L = Loader

  /** The success and failure trailers of a response. */
  function Trailer(ok: bool, code: byte, stub: bool): (t: seq<byte>)
    ensures |t| == TrailerSize(stub)
  {
    [if ok then 0 else 1, code] + (if stub then [] else [0, 0])
  }

  /** The response frame of a chip that carried a request out, or refused it. */
  function Reply(cmd: byte, answer: Option<seq<byte>>, code: byte, stub: bool): seq<byte> {
    match answer
    case Some(payload) => ResponseFrame(cmd, 0, payload, Trailer(true, 0, stub), [])
    case None => ResponseFrame(cmd, 0, [], Trailer(false, code, stub), [])
  }

  // ---------------------------------------------------------------- one exchange on the wire

  /** The particulars of one exchange: noise in front of the answer, the code of a refusal, how the
      request's bytes are taken, and what arrives instead of an answer that is lost. */
  datatype Air = Air(noise: seq<byte>, code: byte, writes: seq<WriteEvent>, lost: seq<RxEvent>)

  /** Remains of frames, noise, silence, faults, refusals: nothing that any command takes for success. */
  ghost predicate Unanswered(rx: seq<RxEvent>, stub: bool, ticks: nat) {
    forall cmd: byte :: Await(rx, cmd, stub, ticks).0.Err?
  }

  /** The particulars are such that the exchange has this fate. A request may be lost because the
      writes failed; in every other fate they may be partial, but go on. */
  ghost predicate Fits(air: Air, fate: Fate, stub: bool, ticks: nat) {
    && END !in air.noise
    && (fate.RequestLost? || Flows(air.writes))
    && (fate.RequestLost? || fate.ReplyLost? ==> Unanswered(air.lost, stub, ticks))
    && (fate.Stale? ==> |fate.payload| < 0xFFF0)
  }

  /** What reaches the host after a request with the given fate. */
  function Arrives(d: Device, r: Request, w: World, fate: Fate, air: Air): seq<RxEvent> {
    match fate
    case RequestLost => air.lost
    case ReplyLost => air.lost
    case Delivered => Data(air.noise + Frame(Reply(r.cmd, Exec(d, r, w).1, air.code, w.stub)))
    case Stale(payload) => Data(air.noise + Frame(Reply(r.cmd, Some(payload), air.code, w.stub)))
  }

  /** The payload `command` hands to its caller, if it reports success. */
  function Payload(r: Result<Response, Error>, stub: bool): Option<seq<byte>> {
    if r.Ok? then Some(r.value.Payload(stub)) else None
  }

  lemma ReplyAnswers(cmd: byte, answer: Option<seq<byte>>, code: byte, stub: bool, noise: seq<byte>, ticks: nat)
    requires END !in noise && ticks >= 1 && (answer.Some? ==> |answer.value| < 0xFFF0)
    ensures var (r, rest) := Await(Data(noise + Frame(Reply(cmd, answer, code, stub))), cmd, stub, ticks);
            Payload(r, stub) == answer && rest == []
  {
    hide Await, Frame, ResponseFrame;
    var frame := Reply(cmd, answer, code, stub);
    var payload := if answer.Some? then answer.value else [];
    var trailer := if answer.Some? then Trailer(true, 0, stub) else Trailer(false, code, stub);
    NotEmpty(cmd, payload, trailer);
    OneFrame(noise, frame);
    CommandRoundTrip([noise], [], cmd, 0, payload, trailer, [], stub, [], ticks);
    assert Data(noise + Frame(frame)) + [] == Data(noise + Frame(frame));
  }

  lemma OneFrame(noise: seq<byte>, frame: seq<byte>)
    ensures [] + [frame] == [frame]
    ensures Slip.Stream([noise], [frame]) == noise + Frame(frame)
  {
    var ns, ps := [noise], [frame];
    assert ns[1..] == [] && ps[1..] == [];
  }

  lemma NotEmpty(cmd: byte, payload: seq<byte>, trailer: seq<byte>)
    ensures ResponseFrame(cmd, 0, payload, trailer, []) != []
  {
  }

  /** Every answer of the chip fits into a response. */
  lemma AnswerFits(d: Device, r: Request, w: World)
    requires LawfulMd5(w)
    ensures Exec(d, r, w).1.Some? ==> |Exec(d, r, w).1.value| <= 32
  {
    hide ParseData, Word, Erase, Program;
  }

  /** `Ask` and `command` agree on every fate, in both trailer modes, and with every way the bytes
      may take: same payload, nothing of an answer left in the input, and a request that reached
      the chip went out whole. */
  lemma AskIsCommand(c: Chan, r: Request, w: World, air: Air, tx: seq<byte>, ticks: nat)
    requires c.fates != [] && Fits(air, c.fates[0], w.stub, ticks) && ticks >= 1 && LawfulMd5(w)
    ensures var (result, left, _, tx2) :=
              L.Exchange(Arrives(c.dev, r, w, c.fates[0], air), air.writes, tx, r, w.stub, ticks);
            && Payload(result, w.stub) == Ask(c, r, w).1
            && (result.Ok? ==> left == [])
            && (!c.fates[0].RequestLost? ==> tx2 == tx + Frame(Packet(r)))
  {
    hide Exec, Await, Frame, Packet, Send, Reply, LawfulMd5;
    match c.fates[0] {
      case RequestLost =>
        assert Await(air.lost, r.cmd, w.stub, ticks).0.Err?;
      case ReplyLost =>
        FlowsOut(air.writes, |Frame(Packet(r))|);
        assert Await(air.lost, r.cmd, w.stub, ticks).0.Err?;
      case Delivered =>
        FlowsOut(air.writes, |Frame(Packet(r))|);
        AnswerFits(c.dev, r, w);
        ReplyAnswers(r.cmd, Exec(c.dev, r, w).1, air.code, w.stub, air.noise, ticks);
      case Stale(payload) =>
        FlowsOut(air.writes, |Frame(Packet(r))|);
        ReplyAnswers(r.cmd, Some(payload), air.code, w.stub, air.noise, ticks);
    }
  }

  /** When nothing happens any more, `command` times out. */
  lemma SilenceTimesOut(writes: seq<WriteEvent>, tx: seq<byte>, r: Request, stub: bool, ticks: nat)
    ensures L.Exchange([], writes, tx, r, stub, ticks).0.Err?
  {
    hide Send, Packet, Frame;
  }
}
