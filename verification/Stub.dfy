/** Uploading the stub into RAM and switching to it. */
module Stub {
  import opened Bytes
  import opened Link
  import opened Slip
  import opened Protocol
  import L = Loader

  const RAM_BLOCK: uint32 := 0x1800

  // ---------------------------------------------------------------- the requests of an upload

  /** The block count, in 32-bit arithmetic: the rounding up may wrap. */
  function NumBlocks(n: uint32): (k: uint32)
    ensures k * RAM_BLOCK <= n + RAM_BLOCK - 1
  {
    ToUint32(n + RAM_BLOCK - 1) / RAM_BLOCK
  }

  function BlockEnd(n: uint32, i: nat): uint32
  {
    var end := ToUint32(ToUint32(i * RAM_BLOCK) + RAM_BLOCK);
    if end > n then n else end
  }

  function BeginRequest(data: seq<byte>, addr: uint32): Request {
    var n := ToUint32(|data|);
    Request(MEM_BEGIN, Le32(n) + Le32(NumBlocks(n)) + Le32(RAM_BLOCK) + Le32(addr), 0)
  }

  /** The offsets never leave the data: a wrapped count is zero, and no offset wraps below it. */
  lemma BlockInside(n: uint32, i: nat)
    requires i < NumBlocks(n)
    ensures n <= 0x1_0000_0000 - RAM_BLOCK
    ensures ToUint32(i * RAM_BLOCK) == i * RAM_BLOCK < n
    ensures BlockEnd(n, i) == if (i + 1) * RAM_BLOCK <= n then (i + 1) * RAM_BLOCK else n
  {
  }

  function Block(data: seq<byte>, i: nat): (b: seq<byte>)
    requires i < NumBlocks(ToUint32(|data|))
    ensures 0 < |b| <= RAM_BLOCK
  {
    var n := ToUint32(|data|);
    BlockInside(n, i);
    data[ToUint32(i * RAM_BLOCK)..BlockEnd(n, i)]
  }

  /** The blocks from `i` on. */
  function Blocks(data: seq<byte>, i: nat): (bs: seq<seq<byte>>)
    requires i <= NumBlocks(ToUint32(|data|))
    ensures |bs| == NumBlocks(ToUint32(|data|)) - i
    decreases NumBlocks(ToUint32(|data|)) - i
  {
    if i == NumBlocks(ToUint32(|data|)) then [] else [Block(data, i)] + Blocks(data, i + 1)
  }

  /** Block `i` and what stands behind it. */
  lemma BlockAndRest(data: seq<byte>, i: nat)
    requires |data| <= 0x1_0000_0000 - RAM_BLOCK && i < NumBlocks(|data|)
    ensures i * RAM_BLOCK <= |data|
    ensures i + 1 < NumBlocks(|data|) ==>
              (i + 1) * RAM_BLOCK <= |data| && Block(data, i) + data[(i + 1) * RAM_BLOCK..] == data[i * RAM_BLOCK..]
    ensures i + 1 == NumBlocks(|data|) ==> Block(data, i) == data[i * RAM_BLOCK..]
  {
    BlockInside(|data|, i);
    if i + 1 < NumBlocks(|data|) {
      BlockInside(|data|, i + 1);
    }
  }

  lemma {:induction false} BlocksJoin(data: seq<byte>, i: nat)
    requires |data| <= 0x1_0000_0000 - RAM_BLOCK && i < NumBlocks(|data|)
    ensures i * RAM_BLOCK <= |data| && Flat(Blocks(data, i)) == data[i * RAM_BLOCK..]
    decreases NumBlocks(|data|) - i
  {
    hide NumBlocks, Block;
    BlockAndRest(data, i);
    if i + 1 < NumBlocks(|data|) {
      BlocksJoin(data, i + 1);
    } else {
      assert Blocks(data, i + 1) == [];
    }
  }

  /** The blocks put together are the data exactly when the rounded-up length fits in 32 bits. */
  lemma UploadIsWhole(data: seq<byte>)
    ensures Flat(Blocks(data, 0)) == data <==> |data| <= 0x1_0000_0000 - 0x1800
  {
    if |data| <= 0x1_0000_0000 - RAM_BLOCK {
      WholeWhenSmall(data);
    } else {
      var n := ToUint32(|data|);
      if n > 0x1_0000_0000 - RAM_BLOCK {
        assert NumBlocks(n) == 0;
      } else {
        SamePrefix(data, n, 0);
        WholeWhenSmall(data[..n]);
      }
    }
  }

  lemma WholeWhenSmall(data: seq<byte>)
    requires |data| <= 0x1_0000_0000 - RAM_BLOCK
    ensures Flat(Blocks(data, 0)) == data
  {
    if data != [] {
      BlocksJoin(data, 0);
    }
  }

  /** A length beyond 32 bits uploads only the part its low bits count. */
  lemma {:induction false} SamePrefix(data: seq<byte>, n: uint32, i: nat)
    requires n == ToUint32(|data|) && |data| >= n && i <= NumBlocks(n)
    ensures Blocks(data, i) == Blocks(data[..n], i)
    decreases NumBlocks(n) - i
  {
    hide NumBlocks, Block;
    if i < NumBlocks(n) {
      SameBlock(data, n, i);
      SamePrefix(data, n, i + 1);
    }
  }

  lemma SameBlock(data: seq<byte>, n: uint32, i: nat)
    requires n == ToUint32(|data|) && |data| >= n && i < NumBlocks(n)
    ensures Block(data, i) == Block(data[..n], i)
  {
    hide NumBlocks;
    BlockInside(n, i);
  }

  // ---------------------------------------------------------------- the upload

  /** Commands one after the other, up to the first that fails. */
  datatype Progress = Progress(err: Option<Error>, rx: seq<RxEvent>, writes: seq<WriteEvent>, tx: seq<byte>)

  function Commands(p: Progress, reqs: seq<Request>, stub: bool, ticks: nat): Progress
    decreases |reqs|
  {
    if reqs == [] || p.err.Some? then p else
      Commands(OneCommand(p, reqs[0], stub, ticks), reqs[1..], stub, ticks)
  }

  function OneCommand(p: Progress, req: Request, stub: bool, ticks: nat): Progress {
    var (r, rx, writes, tx) := L.Exchange(p.rx, p.writes, p.tx, req, stub, ticks);
    Progress(if r.Ok? then None else Some(r.error), rx, writes, tx)
  }

  lemma {:induction false} CommandsSnoc(p: Progress, reqs: seq<Request>, req: Request, stub: bool, ticks: nat)
    requires Commands(p, reqs, stub, ticks).err.None?
    ensures Commands(p, reqs + [req], stub, ticks) == OneCommand(Commands(p, reqs, stub, ticks), req, stub, ticks)
    decreases |reqs|
  {
    hide OneCommand;
    if reqs == [] {
      assert ([req])[1..] == [];
    } else if p.err.None? {
      assert (reqs + [req])[1..] == reqs[1..] + [req];
      CommandsSnoc(OneCommand(p, reqs[0], stub, ticks), reqs[1..], req, stub, ticks);
    }
  }

  function UploadRequests(data: seq<byte>, addr: uint32): seq<Request> {
    [BeginRequest(data, addr)] + DataRequests(MEM_DATA, Blocks(data, 0), 0)
  }

  lemma {:induction false} BlockSizes(data: seq<byte>, i: nat)
    requires i <= NumBlocks(ToUint32(|data|))
    ensures forall b :: b in Blocks(data, i) ==> 0 < |b| <= RAM_BLOCK
    decreases NumBlocks(ToUint32(|data|)) - i
  {
    if i < NumBlocks(ToUint32(|data|)) {
      BlockSizes(data, i + 1);
    }
  }

  /** MEM_BEGIN announces the length, the number of blocks that follow, their size and the address. */
  lemma BeginAnnounces(data: seq<byte>, addr: uint32)
    requires |data| < 0x1_0000_0000
    ensures var d := BeginRequest(data, addr).data;
            && |d| == 16 && FromLe(d[0..4]) == |data| && FromLe(d[4..8]) == |Blocks(data, 0)|
            && FromLe(d[8..12]) == 0x1800 && FromLe(d[12..16]) == addr
  {
    hide Le, FromLe;
    var d := BeginRequest(data, addr).data;
    var n := ToUint32(|data|);
    assert d[0..4] == Le32(n) && d[4..8] == Le32(NumBlocks(n)) && d[8..12] == Le32(RAM_BLOCK) && d[12..16] == Le32(addr);
    Le32RoundTrip(n);
    Le32RoundTrip(NumBlocks(n));
    Le32RoundTrip(RAM_BLOCK);
    Le32RoundTrip(addr);
  }

  /** The device ends up with the data in RAM exactly when the host's rounding did not wrap. */
  lemma DeviceGetsUpload(data: seq<byte>, addr: uint32)
    ensures Assemble(UploadRequests(data, addr)[1..], MEM_DATA, 0) == Some(data)
       <==> |data| <= 0x1_0000_0000 - 0x1800
  {
    var blocks := Blocks(data, 0);
    assert UploadRequests(data, addr)[1..] == DataRequests(MEM_DATA, blocks, 0);
    BlockSizes(data, 0);
    Assembled(MEM_DATA, blocks, 0);
    UploadIsWhole(data);
  }

  // ---------------------------------------------------------------- the methods

  lemma {:induction false} BlockAt(data: seq<byte>, i: nat, k: nat)
    requires i + k < NumBlocks(ToUint32(|data|))
    ensures Blocks(data, i)[k] == Block(data, i + k)
    decreases k
  {
    if k > 0 {
      BlockAt(data, i + 1, k - 1);
    }
  }

  /** A failed command is the last one. */
  lemma {:induction false} CommandsStop(p: Progress, reqs: seq<Request>, k: nat, stub: bool, ticks: nat)
    requires k <= |reqs| && Commands(p, reqs[..k], stub, ticks).err.Some?
    ensures Commands(p, reqs, stub, ticks) == Commands(p, reqs[..k], stub, ticks)
    decreases k
  {
    hide OneCommand;
    if k > 0 && p.err.None? {
      assert reqs[..k][1..] == reqs[1..][..k - 1];
      CommandsStop(OneCommand(p, reqs[0], stub, ticks), reqs[1..], k - 1, stub, ticks);
    }
  }

  /** One more command of a list: either it fails and ends the list, or the list goes on. */
  lemma NextCommand(p: Progress, reqs: seq<Request>, k: nat, stub: bool, ticks: nat)
    requires k < |reqs| && Commands(p, reqs[..k], stub, ticks).err.None?
    ensures var q := OneCommand(Commands(p, reqs[..k], stub, ticks), reqs[k], stub, ticks);
            && Commands(p, reqs[..k + 1], stub, ticks) == q
            && (q.err.Some? ==> Commands(p, reqs, stub, ticks) == q)
  {
    assert reqs[..k + 1] == reqs[..k] + [reqs[k]];
    CommandsSnoc(p, reqs[..k], reqs[k], stub, ticks);
    if OneCommand(Commands(p, reqs[..k], stub, ticks), reqs[k], stub, ticks).err.Some? {
      CommandsStop(p, reqs, k + 1, stub, ticks);
    }
  }

  lemma NoCommands(p: Progress, stub: bool, ticks: nat)
    ensures Commands(p, [], stub, ticks) == p
  {
  }

  ghost function Now(l: L.Loader, err: Option<Error>): Progress
    reads l, l.t
  {
    Progress(err, l.t.rx, l.t.writes, l.t.tx)
  }

  /** The request of one round of the upload loop. */
  method BlockRequest(data: seq<byte>, i: nat, addr: uint32) returns (r: Request)
    requires i < NumBlocks(ToUint32(|data|))
    ensures r.cmd == MEM_DATA && r == UploadRequests(data, addr)[i + 1]
  {
    hide XorAll, Le, Blocks, NumBlocks, DataRequests, BeginRequest;
    var n := ToUint32(|data|);
    BlockInside(n, i);
    BlockAt(data, 0, i);
    DataRequestAt(MEM_DATA, Blocks(data, 0), 0, i);
    var start := ToUint32(i * RAM_BLOCK);
    var end := ToUint32(start + RAM_BLOCK);
    if end > n {
      end := n;
    }
    var block := data[start..end];
    var chk := Checksum(block);
    r := Request(MEM_DATA, Header(|block|, i) + block, chk);
  }

  method MemUpload(l: L.Loader, data: seq<byte>, addr: uint32, ticks: nat) returns (err: Option<Error>)
    modifies l.t
    ensures Now(l, err) == Commands(old(Now(l, None)), UploadRequests(data, addr), l.stub, ticks)
  {
    hide L.Exchange, XorAll, Le, Blocks, NumBlocks, BlockEnd, Commands, DataRequests;
    ghost var p, reqs := Now(l, None), UploadRequests(data, addr);
    var n := ToUint32(|data|);
    var numBlocks := NumBlocks(n);
    assert reqs[..0] == [];
    NoCommands(p, l.stub, ticks);
    NextCommand(p, reqs, 0, l.stub, ticks);
    var r := l.Command(MEM_BEGIN, Le32(n) + Le32(numBlocks) + Le32(RAM_BLOCK) + Le32(addr), 0, ticks);
    if r.Err? {
      return Some(r.error);
    }
    for i := 0 to numBlocks
      invariant Now(l, None) == Commands(p, reqs[..i + 1], l.stub, ticks)
    {
      var req := BlockRequest(data, i, addr);
      NextCommand(p, reqs, i + 1, l.stub, ticks);
      r := l.Command(MEM_DATA, req.data, req.chk, ticks);
      if r.Err? {
        return Some(r.error);
      }
    }
    assert reqs[..numBlocks + 1] == reqs;
    return None;
  }

  const OHAI: seq<byte> := [0x4F, 0x48, 0x41, 0x49]

  function EndRequest(entry: uint32): Request {
    Request(MEM_END, Le32(if entry == 0 then 1 else 0) + Le32(entry), 0)
  }

  /** `memFinish` sends MEM_END and does not care what comes of it. */
  function Finish(p: Progress, entry: uint32, stub: bool, ticks: nat): Progress {
    OneCommand(p, EndRequest(entry), stub, ticks).(err := None)
  }

  /** Looks for the greeting in up to `tries` frames. */
  function Greet(p: Progress, tries: nat): Progress
    decreases tries
  {
    if tries == 0 then p.(err := Some(NoGreeting)) else
      var (f, rest) := Slip.ReadFrame(p.rx);
      match f
      case Err(e) => p.(err := Some(e), rx := rest)
      case Ok(frame) => if frame == OHAI then p.(err := None, rx := rest) else Greet(p.(rx := rest), tries - 1)
  }

  /** The whole of `RunStub` after the image is decoded. */
  function StartStub(p: Progress, text: seq<byte>, textStart: uint32, data: seq<byte>, dataStart: uint32,
                     entry: uint32, stub: bool, ticks: nat): Progress
  {
    var p1 := Commands(p, UploadRequests(text, textStart), stub, ticks);
    if p1.err.Some? then p1 else
      var p2 := Commands(p1, UploadRequests(data, dataStart), stub, ticks);
      if p2.err.Some? then p2 else Greet(Finish(p2, entry, stub, ticks), 3)
  }

  method RunStub(l: L.Loader, text: seq<byte>, textStart: uint32, data: seq<byte>, dataStart: uint32,
                 entry: uint32, ticks: nat) returns (err: Option<Error>)
    modifies l, l.t
    ensures l.stub == (old(l.stub) || err.None?)
    ensures old(l.stub) ==> err.None? && Now(l, None) == old(Now(l, None))
    ensures !old(l.stub) ==>
              Now(l, err) == StartStub(old(Now(l, None)), text, textStart, data, dataStart, entry, false, ticks)
  {
    hide L.Exchange, UploadRequests, Commands, Slip.ReadFrame;
    if l.stub {
      return None;
    }
    err := MemUpload(l, text, textStart, ticks);
    if err.Some? {
      return;
    }
    err := MemUpload(l, data, dataStart, ticks);
    if err.Some? {
      return;
    }
    ghost var p := Now(l, None);
    var _ := l.Command(MEM_END, Le32(if entry == 0 then 1 else 0) + Le32(entry), 0, ticks);
    assert Now(l, None) == Finish(p, entry, false, ticks);
    ghost var q := Now(l, None);
    for i := 0 to 3
      invariant !l.stub && Greet(q, 3) == Greet(Now(l, None), 3 - i)
    {
      var frame := l.ReadFrame();
      if frame.Err? {
        return Some(frame.error);
      }
      if frame.value == OHAI {
        l.stub := true;
        return None;
      }
    }
    return Some(NoGreeting);
  }

  // ---------------------------------------------------------------- what the chip hears

  lemma {:induction false} CommandsSent(p: Progress, reqs: seq<Request>, stub: bool, ticks: nat)
    requires p.err.None? && Commands(p, reqs, stub, ticks).err.None?
    ensures Commands(p, reqs, stub, ticks).tx == p.tx + OnWire(reqs)
    ensures Flows(p.writes) ==> Flows(Commands(p, reqs, stub, ticks).writes)
    decreases |reqs|
  {
    hide Await, Frame, Packet, Send;
    if reqs == [] {
      assert p.tx + [] == p.tx;
    } else {
      var q := OneCommand(p, reqs[0], stub, ticks);
      if q.err.Some? {
        CommandsFail(q, reqs[1..], stub, ticks);
      } else {
        if Flows(p.writes) {
          FlowsOn(p.writes, |Frame(Packet(reqs[0]))|);
        }
        CommandsSent(q, reqs[1..], stub, ticks);
        assert p.tx + Frame(Packet(reqs[0])) + OnWire(reqs[1..]) == p.tx + OnWire(reqs);
      }
    }
  }

  lemma CommandsFail(p: Progress, reqs: seq<Request>, stub: bool, ticks: nat)
    requires p.err.Some?
    ensures Commands(p, reqs, stub, ticks) == p
  {
  }

  /** MEM_END goes out whole, or up to where the writes failed; the greeting adds nothing. */
  lemma FinishSent(p: Progress, entry: uint32, ticks: nat) returns (n: nat)
    ensures var wire := Frame(Packet(EndRequest(entry)));
            && n <= |wire| && (Flows(p.writes) ==> n == |wire|)
            && Greet(Finish(p, entry, false, ticks), 3).tx == p.tx + wire[..n]
  {
    hide Await, Frame, Packet, Send, EndRequest;
    var wire := Frame(Packet(EndRequest(entry)));
    n := Send(p.writes, |wire|).1;
    if Flows(p.writes) {
      FlowsOut(p.writes, |wire|);
    }
    assert wire[..|wire|] == wire;
    GreetSendsNothing(Finish(p, entry, false, ticks), 3);
  }

  lemma {:induction false} GreetSendsNothing(p: Progress, tries: nat)
    ensures Greet(p, tries).tx == p.tx
    decreases tries
  {
    hide Slip.ReadFrame, OHAI;
    if tries > 0 {
      GreetSendsNothing(p.(rx := Slip.ReadFrame(p.rx).1), tries - 1);
    }
  }

  lemma UploadFits(data: seq<byte>, addr: uint32)
    ensures AllFit(UploadRequests(data, addr))
  {
    hide Le, NumBlocks, XorAll;
    var blocks := Blocks(data, 0);
    BlockSizes(data, 0);
    forall r | r in UploadRequests(data, addr)
      ensures |r.data| < 0x1_0000
    {
      if r in DataRequests(MEM_DATA, blocks, 0) {
        var k :| 0 <= k < |blocks| && DataRequests(MEM_DATA, blocks, 0)[k] == r;
        DataRequestAt(MEM_DATA, blocks, 0, k);
        assert blocks[k] in blocks;
      }
    }
  }

  /** One image on its way into RAM, in numbers: MEM_BEGIN with the length, the count of the MEM_DATA
      requests behind it, their size and the address; and the blocks that they carry. */
  predicate Uploads(rs: seq<Request>, data: seq<byte>, addr: uint32) {
    && |rs| >= 1 && rs[0].cmd == 0x05 && rs[0].chk == 0 && |rs[0].data| == 16
    && Word(rs[0].data, 0) == |data| && Word(rs[0].data, 1) == |rs| - 1
    && Word(rs[0].data, 2) == 0x1800 && Word(rs[0].data, 3) == addr
    && Assemble(rs[1..], 0x07, 0) == Some(data)
  }

  /** Each MEM_DATA request, in numbers, and the size of its block: full but for the last. */
  lemma MemBlocksInNumbers(data: seq<byte>, addr: uint32, k: nat)
    requires |data| <= 0x1_0000_0000 - 0x1800 && k + 1 < |UploadRequests(data, addr)|
    ensures k < |Blocks(data, 0)| == |UploadRequests(data, addr)| - 1
    ensures IsBlock(UploadRequests(data, addr)[k + 1], 0x07, k, Blocks(data, 0)[k])
    ensures k + 1 < |Blocks(data, 0)| ==> |Blocks(data, 0)[k]| == 0x1800
  {
    hide IsBlock, DataRequest, DataRequests, BeginRequest, NumBlocks, Blocks, Block;
    DataRequestAt(MEM_DATA, Blocks(data, 0), 0, k);
    BlockAt(data, 0, k);
    BlockInNumbers(0x07, k, Blocks(data, 0)[k]);
    if k + 1 < |Blocks(data, 0)| {
      FullBlock(data, k);
    }
  }

  lemma FullBlock(data: seq<byte>, k: nat)
    requires |data| <= 0x1_0000_0000 - 0x1800 && k + 1 < NumBlocks(|data|)
    ensures |Block(data, k)| == 0x1800
  {
    hide NumBlocks;
    BlockInside(|data|, k);
    BlockInside(|data|, k + 1);
  }

  /** MEM_END, in numbers: the flag for no entry point, and the entry point. */
  predicate Ends(r: Request, entry: uint32) {
    && r.cmd == 0x06 && r.chk == 0 && |r.data| == 8
    && Word(r.data, 0) == (if entry == 0 then 1 else 0) && Word(r.data, 1) == entry
  }

  lemma UploadInNumbers(data: seq<byte>, addr: uint32)
    requires |data| <= 0x1_0000_0000 - 0x1800
    ensures Uploads(UploadRequests(data, addr), data, addr)
  {
    hide BeginRequest, Blocks, DataRequests, Assemble, Word;
    DeviceGetsUpload(data, addr);
    BeginAnnounces(data, addr);
    BeginWords(data, addr);
  }

  lemma BeginWords(data: seq<byte>, addr: uint32)
    ensures var r := BeginRequest(data, addr);
            && r.cmd == 0x05 && r.chk == 0 && |r.data| == 16
            && Word(r.data, 0) == FromLe(r.data[0..4]) && Word(r.data, 1) == FromLe(r.data[4..8])
            && Word(r.data, 2) == FromLe(r.data[8..12]) && Word(r.data, 3) == FromLe(r.data[12..16])
  {
    hide Le, FromLe, NumBlocks;
  }

  lemma EndInNumbers(entry: uint32)
    ensures Ends(EndRequest(entry), entry)
  {
    hide Le, FromLe;
    var flag, d := if entry == 0 then 1 else 0, EndRequest(entry).data;
    assert d[0..4] == Le32(flag) && d[4..8] == Le32(entry);
    Le32RoundTrip(flag);
    Le32RoundTrip(entry);
  }

  /** A start that succeeds, as the chip hears it: both images to their own addresses, the first one
      first, and then MEM_END, unless the writes broke off inside it. */
  lemma StubIsUploaded(p: Progress, text: seq<byte>, textStart: uint32, data: seq<byte>, dataStart: uint32,
                       entry: uint32, ticks: nat)
    returns (a: seq<Request>, b: seq<Request>, c: seq<Request>)
    requires p.err.None? && StartStub(p, text, textStart, data, dataStart, entry, false, ticks).err.None?
    requires |text| <= 0x1_0000_0000 - 0x1800 && |data| <= 0x1_0000_0000 - 0x1800
    ensures var q := StartStub(p, text, textStart, data, dataStart, entry, false, ticks);
            && p.tx <= q.tx && HearAll(Data(q.tx[|p.tx|..])) == a + b + c
    ensures Uploads(a, text, textStart) && Uploads(b, data, dataStart)
    ensures c == [] || (|c| == 1 && Ends(c[0], entry))
    ensures Flows(p.writes) ==> c != []
  {
    hide Commands, UploadRequests, Greet, Finish, EndRequest, Frame, Packet, Uploads, Ends, Flows, HearAll, OnWire;
    a, b := UploadRequests(text, textStart), UploadRequests(data, dataStart);
    var p1 := Commands(p, a, false, ticks);
    var p2 := Commands(p1, b, false, ticks);
    CommandsSent(p, a, false, ticks);
    CommandsSent(p1, b, false, ticks);
    var n := FinishSent(p2, entry, ticks);
    UploadInNumbers(text, textStart);
    UploadInNumbers(data, dataStart);
    EndInNumbers(entry);
    c := HeardAtEnd(p.tx, a, b, EndRequest(entry), n, text, textStart, data, dataStart, entry);
  }

  lemma HeardAtEnd(tx: seq<byte>, a: seq<Request>, b: seq<Request>, end: Request, n: nat, text: seq<byte>,
                   textStart: uint32, data: seq<byte>, dataStart: uint32, entry: uint32) returns (c: seq<Request>)
    requires a == UploadRequests(text, textStart) && b == UploadRequests(data, dataStart) && Ends(end, entry)
    requires n <= |Frame(Packet(end))|
    ensures var sent := tx + OnWire(a) + OnWire(b) + Frame(Packet(end))[..n];
            tx <= sent && HearAll(Data(sent[|tx|..])) == a + b + c
    ensures c == if n == |Frame(Packet(end))| then [end] else []
  {
    hide UploadRequests, Frame, Packet, HearAll, OnWire;
    var wire := Frame(Packet(end));
    var sent := tx + OnWire(a) + OnWire(b) + wire[..n];
    c := if n == |wire| then [end] else [];
    UploadFits(text, textStart);
    UploadFits(data, dataStart);
    assert sent[|tx|..] == OnWire(a) + (OnWire(b) + wire[..n]);
    DataAppend(OnWire(a), OnWire(b) + wire[..n]);
    DataAppend(OnWire(b), wire[..n]);
    HearsWire(a, Data(OnWire(b) + wire[..n]));
    HearsWire(b, Data(wire[..n]));
    if n == |wire| {
      assert wire[..n] == wire;
      HearsOne(end);
    } else {
      HearsNoPart(Packet(end), n);
    }
    assert a + (b + c) == a + b + c;
  }

  lemma HearsOne(r: Request)
    requires |r.data| < 0x1_0000
    ensures HearAll(Data(Frame(Packet(r)))) == [r]
  {
    hide Frame, Packet, Slip.ReadFrame, ParseRequest;
    assert [r][1..] == [];
    assert OnWire([r]) == Frame(Packet(r)) + [] == Frame(Packet(r));
    HearsWire([r], []);
    NothingToRead();
    assert Data(OnWire([r])) + [] == Data(OnWire([r])) && [r] + [] == [r];
  }

  // ---------------------------------------------------------------- when the switch is noticed

  predicate GreetedAt(rx: seq<RxEvent>, k: nat) {
    ReadFrames(rx, k).0.Ok? && Slip.ReadFrame(ReadFrames(rx, k).1).0 == Ok(OHAI)
  }

  lemma GreetedLater(rx: seq<RxEvent>, k: nat)
    ensures GreetedAt(rx, k + 1) <==> Slip.ReadFrame(rx).0.Ok? && GreetedAt(Slip.ReadFrame(rx).1, k)
    ensures GreetedAt(rx, 0) <==> Slip.ReadFrame(rx).0 == Ok(OHAI)
  {
    hide Slip.ReadFrame, OHAI;
  }

  /** The host goes over to stub mode exactly when the greeting is one of the next three frames
      left after the MEM_END command has read what it wanted. */
  lemma {:induction false} GreetingFound(p: Progress, tries: nat)
    ensures Greet(p, tries).err.None? <==> exists k :: 0 <= k < tries && GreetedAt(p.rx, k)
    decreases tries
  {
    hide Slip.ReadFrame, OHAI, GreetedAt;
    if tries > 0 {
      var (f, rest) := Slip.ReadFrame(p.rx);
      GreetedLater(p.rx, 0);
      if f.Ok? {
        GreetingFound(p.(rx := rest), tries - 1);
      }
      if k :| 0 <= k < tries && GreetedAt(p.rx, k) {
        if k > 0 {
          GreetedLater(p.rx, k - 1);
        }
      }
      if k :| f.Ok? && 0 <= k < tries - 1 && GreetedAt(rest, k) {
        GreetedLater(p.rx, k);
        assert GreetedAt(p.rx, k + 1);
      }
    }
  }

  lemma GreetingFrame()
    ensures Slip.ReadFrame(Data(Frame(OHAI))) == (Ok(OHAI), [])
    ensures !Answers(OHAI, MEM_END)
  {
    FrameRoundTrip([], OHAI, []);
    assert [] + Frame(OHAI) == Frame(OHAI) && Data(Frame(OHAI)) + [] == Data(Frame(OHAI));
  }

  /** How many frames the wait for a response to `cmd` takes: up to the first that answers it, and
      no more than the clock allows. */
  function Waited(fs: seq<seq<byte>>, cmd: byte, ticks: nat): (j: nat)
    ensures j <= |fs|
    decreases ticks
  {
    if ticks == 0 || fs == [] then 0
    else if Answers(fs[0], cmd) then 1
    else 1 + Waited(fs[1..], cmd, ticks - 1)
  }

  /** The first of the arriving frames, and what is left of the input behind it. */
  lemma FirstFrame(noise: seq<seq<byte>>, fs: seq<seq<byte>>)
    requires Readable(noise, fs)
    ensures Slip.ReadFrame(Data(Slip.Stream(noise, fs)))
         == if fs == [] then (Err(Timeout), []) else (Ok(fs[0]), Data(Slip.Stream(noise[1..], fs[1..])))
    ensures fs != [] ==> Readable(noise[1..], fs[1..])
  {
    hide Slip.ReadFrame, Frame;
    if fs == [] {
      NothingToRead();
    } else {
      var first, more := noise[0] + Frame(fs[0]), Slip.Stream(noise[1..], fs[1..]);
      DataAppend(first, more);
      FrameRoundTrip(noise[0], fs[0], Data(more));
    }
  }

  lemma {:induction false} WaitTakes(noise: seq<seq<byte>>, fs: seq<seq<byte>>, cmd: byte, stub: bool, ticks: nat)
    requires Readable(noise, fs)
    ensures var j := Waited(fs, cmd, ticks);
            && Await(Data(Slip.Stream(noise, fs)), cmd, stub, ticks).1 == Data(Slip.Stream(noise[j..], fs[j..]))
            && Readable(noise[j..], fs[j..])
    decreases ticks
  {
    hide Slip.ReadFrame, Slip.Stream, Answers, Verdict;
    FirstFrame(noise, fs);
    assert noise[0..] == noise && fs[0..] == fs;
    if ticks > 0 && fs == [] {
      assert Data(Slip.Stream(noise, fs)) == [] by {
        NoFrames(noise, fs);
      }
    } else if ticks > 0 && !Answers(fs[0], cmd) {
      WaitTakes(noise[1..], fs[1..], cmd, stub, ticks - 1);
      var i := Waited(fs[1..], cmd, ticks - 1);
      assert noise[1..][i..] == noise[1 + i..] && fs[1..][i..] == fs[1 + i..];
    }
  }

  lemma NoFrames(noise: seq<seq<byte>>, fs: seq<seq<byte>>)
    requires Readable(noise, fs) && fs == []
    ensures Slip.Stream(noise, fs) == []
  {
  }

  lemma {:induction false} GreetedAmong(p: Progress, noise: seq<seq<byte>>, fs: seq<seq<byte>>, tries: nat)
    requires Readable(noise, fs) && p.rx == Data(Slip.Stream(noise, fs))
    ensures Greet(p, tries).err.None? <==> exists k :: 0 <= k < tries && k < |fs| && fs[k] == OHAI
    decreases tries
  {
    hide Slip.ReadFrame, Slip.Stream, OHAI;
    FirstFrame(noise, fs);
    if tries > 0 && fs != [] {
      var rest := Data(Slip.Stream(noise[1..], fs[1..]));
      GreetedAmong(p.(rx := rest), noise[1..], fs[1..], tries - 1);
      if k :| 0 <= k < tries && k < |fs| && fs[k] == OHAI {
        assert k > 0 ==> fs[1..][k - 1] == OHAI;
      }
      if k :| 0 <= k < tries - 1 && k < |fs[1..]| && fs[1..][k] == OHAI {
        assert fs[k + 1] == OHAI;
      }
    }
  }

  /** Where among the arriving frames the greeting has to stand: MEM_END's own wait takes the first
      `j` of them, and the host goes over to stub mode exactly when one of the next three is the
      greeting. If MEM_END could not be written, `j` is 0. */
  lemma GreetingSeenExactly(p: Progress, noise: seq<seq<byte>>, fs: seq<seq<byte>>, entry: uint32, ticks: nat)
    requires Readable(noise, fs) && p.rx == Data(Slip.Stream(noise, fs))
    ensures var sent := Send(p.writes, |Frame(Packet(EndRequest(entry)))|).0.None?;
            var j := if sent then Waited(fs, MEM_END, ticks) else 0;
            Greet(Finish(p, entry, false, ticks), 3).err.None?
            <==> exists k :: j <= k < j + 3 && k < |fs| && fs[k] == [0x4F, 0x48, 0x41, 0x49]
  {
    hide Await, Slip.Stream, OHAI, Frame, Packet, EndRequest, Send, Greet, Waited;
    MatchingOpcode(entry);
    GreetingText();
    WaitTakes(noise, fs, MEM_END, false, ticks);
    var sent := Send(p.writes, |Frame(Packet(EndRequest(entry)))|).0.None?;
    var j := if sent then Waited(fs, MEM_END, ticks) else 0;
    var q := Finish(p, entry, false, ticks);
    assert noise[0..] == noise && fs[0..] == fs;
    GreetedAmong(q, noise[j..], fs[j..], 3);
    if k :| 0 <= k < 3 && k < |fs[j..]| && fs[j..][k] == OHAI {
      assert fs[j + k] == OHAI;
    }
    if k :| j <= k < j + 3 && k < |fs| && fs[k] == OHAI {
      assert fs[j..][k - j] == OHAI;
    }
  }

  /** The stub runs either way: a greeting that arrives in front of the MEM_END response is
      swallowed by the wait for it, and the host stays in ROM mode; behind it, it is seen. */
  lemma GreetingAndResponse(p: Progress, noise: seq<seq<byte>>, response: seq<byte>, entry: uint32, ticks: nat)
    requires Answers(response, MEM_END) && ticks >= 2 && p.writes == []
    requires |noise| == 2 && END !in noise[0] && END !in noise[1]
    ensures p.rx == Data(Slip.Stream(noise, [OHAI, response])) ==>
              Greet(Finish(p, entry, false, ticks), 3).err.Some?
    ensures p.rx == Data(Slip.Stream(noise, [response, OHAI])) ==>
              Greet(Finish(p, entry, false, ticks), 3).err.None?
  {
    hide Answers, OHAI, Finish, Greet, Slip.Stream, Send;
    GreetingFrame();
    GreetingText();
    UndisturbedSend(|Frame(Packet(EndRequest(entry)))|);
    var early, late := [OHAI, response], [response, OHAI];
    assert early[1..] == [response] && late[1] == OHAI;
    NotEmpty(response, MEM_END);
    if p.rx == Data(Slip.Stream(noise, early)) {
      GreetingSeenExactly(p, noise, early, entry, ticks);
    }
    if p.rx == Data(Slip.Stream(noise, late)) {
      GreetingSeenExactly(p, noise, late, entry, ticks);
    }
  }

  /** The same with timing instead of a response: a greeting during the wait is lost, the same
      greeting after the wait has run dry is seen. */
  lemma GreetingCanBeSwallowed(entry: uint32, ticks: nat)
    requires ticks >= 1
    ensures Greet(Finish(Progress(None, Data(Frame(OHAI)), [], []), entry, false, ticks), 3).err == Some(Timeout)
    ensures Greet(Finish(Progress(None, [Silence] + Data(Frame(OHAI)), [], []), entry, false, ticks), 3).err == None
  {
    hide Slip.ReadFrame, Answers, OHAI, Frame, Packet, EndRequest, Send, Verdict;
    GreetingFrame();
    NothingToRead();
    UndisturbedSend(|Frame(Packet(EndRequest(entry)))|);
    SilentFirst(Data(Frame(OHAI)));
    MatchingOpcode(entry);
  }

  lemma NotEmpty(frame: seq<byte>, cmd: byte)
    ensures OHAI != []
    ensures Answers(frame, cmd) ==> frame != []
  {
  }

  lemma GreetingText()
    ensures OHAI == [0x4F, 0x48, 0x41, 0x49]
  {
  }

  lemma MatchingOpcode(entry: uint32)
    ensures EndRequest(entry).cmd == MEM_END
  {
  }

  lemma SilentFirst(rx: seq<RxEvent>)
    ensures Slip.ReadFrame([Silence] + rx) == (Err(Timeout), rx)
  {
    assert ([Silence] + rx)[1..] == rx;
  }
}
