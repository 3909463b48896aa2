/** What whole flashing runs leave on the chip: raw blocks with retries, the compressed stream
    without, the digest check, and a list of images one after the other. */
module FlashRuns {
  import opened Bytes
  import opened Protocol
  import opened FlashDevice
  import opened FlashHost

  // ---------------------------------------------------------------- the erased region

  function Erased(flash: seq<byte>, offset: nat, size: nat): (r: seq<byte>)
    ensures |r| == |flash|
  {
    Erase(flash, Down(offset), Up(offset + size))
  }

  predicate Blank(flash: seq<byte>, offset: nat, size: nat) {
    offset + size <= |flash| && forall k :: offset <= k < offset + size ==> flash[k] == 0xFF
  }

  lemma ErasedIsBlank(flash: seq<byte>, offset: nat, size: nat)
    requires offset + size <= |flash|
    ensures Blank(Erased(flash, offset, size), offset, size)
  {
  }

  /** A flash in which one stretch is overwritten, read at the places where that shows. */
  lemma SpliceAt(e: seq<byte>, offset: nat, p: seq<byte>, k: nat)
    requires offset + |p| <= |e| && k < |e|
    ensures Splice(e, offset, p)[k] == if offset <= k < offset + |p| then p[k - offset] else e[k]
  {
  }

  lemma SpliceNext(e: seq<byte>, offset: nat, p: seq<byte>, q: seq<byte>)
    requires offset + |p| + |q| <= |e|
    ensures Splice(Splice(e, offset, p), offset + |p|, q) == Splice(e, offset, p + q)
    ensures Splice(Splice(e, offset, p + q), offset + |p|, q) == Splice(e, offset, p + q)
    ensures Splice(e, offset, p + q)[offset + |p|..offset + |p| + |q|] == q
  {
  }

  lemma SpliceLeavesBlank(e: seq<byte>, offset: nat, p: seq<byte>, n: nat)
    requires Blank(e, offset, |p| + n)
    ensures Splice(e, offset, p)[offset + |p|..offset + |p| + n] == Fill(n, 0xFF)
  {
  }

  // ---------------------------------------------------------------- one raw block

  function RawState(e: seq<byte>, offset: nat, bs: nat, p: seq<byte>): Device
    requires offset + |p| <= |e|
  {
    Device(Splice(e, offset, p), Raw(offset, bs))
  }

  /** Block `i` is stored whether it comes for the first time or once more. */
  lemma BlockStores(e: seq<byte>, offset: nat, bs: BlockLen, p: seq<byte>, i: nat, block: seq<byte>, w: World)
    requires |p| == i * bs && i < 0x1_0000_0000 && |block| <= bs && Blank(e, offset, |p| + |block|)
    ensures var r := DataRequest(FLASH_DATA, i, block);
            && Exec(RawState(e, offset, bs, p), r, w) == (RawState(e, offset, bs, p + block), Some([]))
            && Exec(RawState(e, offset, bs, p + block), r, w) == (RawState(e, offset, bs, p + block), Some([]))
  {
    hide DataRequest, ParseData, BlockNumber, Program, Splice;
    DataRequestParses(FLASH_DATA, i, block);
    SpliceNext(e, offset, p, block);
    SpliceLeavesBlank(e, offset, p, |block|);
    ProgramStores(Splice(e, offset, p), offset + |p|, block);
    ProgramStores(Splice(e, offset, p + block), offset + |p|, block);
    RequestKind(FLASH_DATA, i, block);
  }

  lemma RequestKind(cmd: byte, i: nat, block: seq<byte>)
    ensures DataRequest(cmd, i, block).cmd == cmd
  {
  }

  /** Retrying a request that the device may already have carried out is harmless: an answer means
      it is done, no answer means it is done or not begun. */
  lemma {:induction false} RetryIsIdempotent(c: Chan, r: Request, w: World, tries: nat, before: Device, after: Device)
    requires Honest(c) && (c.dev == before || c.dev == after)
    requires Exec(before, r, w) == (after, Some([])) && Exec(after, r, w) == (after, Some([]))
    ensures var (c1, ok) := Retry(c, r, w, tries);
            && Honest(c1)
            && (if ok then c1.dev == after else c1.dev == before || c1.dev == after)
    decreases tries
  {
    hide Exec;
    if tries > 0 {
      AskFlashLength(c, r, w);
      var (c1, answer) := Ask(c, r, w);
      if c.fates != [] {
        assert c.fates[0] in c.fates;
      }
      if answer.None? {
        RetryIsIdempotent(c1, r, w, tries - 1, before, after);
      }
    }
  }

  // ---------------------------------------------------------------- all raw blocks

  /** The chip with the first `k` blocks stored. */
  function Stored(e: seq<byte>, offset: nat, padded: seq<byte>, bs: BlockLen, k: nat): Device
    requires k * bs <= |padded| && offset + |padded| <= |e|
  {
    RawState(e, offset, bs, padded[..k * bs])
  }

  predicate RawSetting(e: seq<byte>, offset: nat, padded: seq<byte>, bs: BlockLen) {
    |padded| < 0x1_0000_0000 && |padded| % bs == 0 && Blank(e, offset, |padded|)
  }

  lemma BlockSent(c: Chan, w: World, e: seq<byte>, offset: nat, padded: seq<byte>, i: nat)
    requires RawSetting(e, offset, padded, BlockSize(w.stub)) && i < CountBlocks(|padded|, BlockSize(w.stub))
    requires i * BlockSize(w.stub) <= |padded|
    requires Honest(c) && c.dev == Stored(e, offset, padded, BlockSize(w.stub), i)
    ensures (i + 1) * BlockSize(w.stub) <= |padded|
    ensures var bs := BlockSize(w.stub);
            var (c1, ok) := Retry(c, RawRequests(padded, bs)[i], w, RETRIES);
            && Honest(c1)
            && (if ok then c1.dev == Stored(e, offset, padded, bs, i + 1)
                else c1.dev == Stored(e, offset, padded, bs, i) || c1.dev == Stored(e, offset, padded, bs, i + 1))
  {
    hide Retry, Exec, DataRequest, RawState, Honest;
    var bs := BlockSize(w.stub);
    BlocksLeft(|padded|, bs, i);
    ChunkAt(padded, bs, i);
    var block := Chunks(padded, bs)[i];
    DataRequestAt(FLASH_DATA, Chunks(padded, bs), 0, i);
    TakeNext(padded, i * bs, (i + 1) * bs);
    BlockStores(e, offset, bs, padded[..i * bs], i, block, w);
    RetryIsIdempotent(c, RawRequests(padded, bs)[i], w, RETRIES,
                      Stored(e, offset, padded, bs, i), Stored(e, offset, padded, bs, i + 1));
  }

  lemma TakeNext<T>(s: seq<T>, a: nat, b: nat)
    requires a <= b <= |s|
    ensures s[..a] + s[a..b] == s[..b]
  {
  }

  /** From block `i` on: all of them stored, or everything before the block that failed. */
  lemma {:induction false} BlocksStored(c: Chan, w: World, e: seq<byte>, offset: nat, padded: seq<byte>, i: nat)
    requires RawSetting(e, offset, padded, BlockSize(w.stub)) && i * BlockSize(w.stub) <= |padded|
    requires Honest(c) && c.dev == Stored(e, offset, padded, BlockSize(w.stub), i)
    ensures i <= CountBlocks(|padded|, BlockSize(w.stub))
    ensures var bs := BlockSize(w.stub);
            var (c1, failed) := SendFrom(c, RawRequests(padded, bs), i, w, RETRIES);
            && Honest(c1)
            && (failed.None? ==> c1.dev == RawState(e, offset, bs, padded))
            && (failed.Some? ==>
                  var k := failed.value;
                  && i <= k && k * bs <= (k + 1) * bs <= |padded|
                  && (c1.dev == Stored(e, offset, padded, bs, k) || c1.dev == Stored(e, offset, padded, bs, k + 1)))
    decreases CountBlocks(|padded|, BlockSize(w.stub)) - i
  {
    hide Retry, RawRequests, Honest, RawState, CountBlocks, Blank, BlockSize;
    var bs := BlockSize(w.stub);
    BlocksLeft(|padded|, bs, i);
    RawCount(padded, bs);
    if i < CountBlocks(|padded|, bs) {
      BlockSent(c, w, e, offset, padded, i);
      var (c1, ok) := Retry(c, RawRequests(padded, bs)[i], w, RETRIES);
      if ok {
        BlocksStored(c1, w, e, offset, padded, i + 1);
      } else {
        Times(i, bs);
      }
    } else {
      assert padded[..i * bs] == padded;
    }
  }

  lemma RawCount(padded: seq<byte>, bs: BlockLen)
    ensures |RawRequests(padded, bs)| == CountBlocks(|padded|, bs)
  {
  }

  lemma BlocksLeft(n: nat, bs: BlockLen, i: nat)
    requires n % bs == 0 && i * bs <= n && n < 0x1_0000_0000
    ensures i <= CountBlocks(n, bs) && i < 0x1_0000_0000
    ensures i < CountBlocks(n, bs) ==> (i + 1) * bs <= n
    ensures i == CountBlocks(n, bs) ==> i * bs == n
  {
  }

  // ---------------------------------------------------------------- a raw write

  lemma BeginParses(cmd: byte, size: uint32, blocks: uint32, bs: BlockLen, offset: uint32, fifth: bool)
    ensures var r := BeginRequest(cmd, size, blocks, bs, offset, fifth);
            && |r.data| == (if fifth then 20 else 16)
            && Word(r.data, 0) == size && Word(r.data, 1) == blocks && Word(r.data, 2) == bs && Word(r.data, 3) == offset
  {
    hide Le, FromLe;
    var d := BeginRequest(cmd, size, blocks, bs, offset, fifth).data;
    assert d[0..4] == Le32(size) && d[4..8] == Le32(blocks) && d[8..12] == Le32(bs) && d[12..16] == Le32(offset);
    Le32RoundTrip(size);
    Le32RoundTrip(blocks);
    Le32RoundTrip(bs);
    Le32RoundTrip(offset);
  }

  /** FLASH_BEGIN, in numbers: size, block size and offset, and the fifth word that only ROM wants. */
  lemma RawBeginInNumbers(size: uint32, offset: uint32, stub: bool)
    ensures var r := RawBegin(size, offset, stub);
            && r.cmd == 0x02 && r.chk == 0 && |r.data| == (if stub then 16 else 20)
            && Word(r.data, 0) == size && Word(r.data, 2) == (if stub then 0x4000 else 0x400) && Word(r.data, 3) == offset
            && (!stub ==> r.data[16..20] == [0, 0, 0, 0])
  {
    hide Word, Le;
    var bs := BlockSize(stub);
    BeginParses(FLASH_BEGIN, size, ToUint32(size + bs - 1) / bs, bs, offset, !stub);
    if !stub {
      assert RawBegin(size, offset, stub).data[16..20] == Fill(4, 0);
    }
  }

  /** FLASH_DEFL_BEGIN, in numbers: the size after inflating, exactly as many chunks as
      FLASH_DEFL_DATA requests follow, their size and the offset. */
  lemma StreamBeginInNumbers(comp: seq<byte>, size: uint32, offset: uint32, stub: bool)
    requires |comp| < 0x1_0000_0000
    ensures var r := StreamBegin(comp, size, offset, stub);
            && r.cmd == 0x10 && r.chk == 0 && |r.data| == 16
            && Word(r.data, 0) == size && Word(r.data, 1) == |StreamRequests(comp, if stub then 0x4000 else 0x400)|
            && Word(r.data, 2) == (if stub then 0x4000 else 0x400) && Word(r.data, 3) == offset
  {
    hide Word, Le, DataRequests;
    var bs := BlockSize(stub);
    CountFits(|comp|, bs);
    BeginParses(FLASH_DEFL_BEGIN, size, ToUint32(CountBlocks(|comp|, bs)), bs, offset, false);
  }

  lemma CountFits(n: uint32, bs: BlockLen)
    ensures ToUint32(CountBlocks(n, bs)) == CountBlocks(n, bs)
  {
  }

  /** SPI_FLASH_MD5, in numbers. */
  lemma DigestInNumbers(offset: uint32, size: uint32)
    ensures var r := DigestRequest(offset, size);
            && r.cmd == 0x13 && r.chk == 0 && |r.data| == 16
            && Word(r.data, 0) == offset && Word(r.data, 1) == size && r.data[8..16] == Fill(8, 0)
  {
    hide Le, FromLe;
    var d := DigestRequest(offset, size).data;
    assert d[0..4] == Le32(offset) && d[4..8] == Le32(size) && d[8..16] == Fill(8, 0);
    Le32RoundTrip(offset);
    Le32RoundTrip(size);
  }

  /** The requests that follow BEGIN in either mode. */
  lemma RawBlocksInNumbers(padded: seq<byte>, bs: BlockLen, k: nat)
    requires k < CountBlocks(|padded|, bs)
    ensures |RawRequests(padded, bs)| == CountBlocks(|padded|, bs)
    ensures IsBlock(RawRequests(padded, bs)[k], 0x03, k, Chunks(padded, bs)[k])
  {
    hide DataRequest, IsBlock, CountBlocks, DataRequests, Chunks;
    DataRequestAt(0x03, Chunks(padded, bs), 0, k);
    BlockInNumbers(0x03, k, Chunks(padded, bs)[k]);
  }

  lemma StreamBlocksInNumbers(comp: seq<byte>, bs: BlockLen, k: nat)
    requires k < CountBlocks(|comp|, bs)
    ensures |StreamRequests(comp, bs)| == CountBlocks(|comp|, bs)
    ensures IsBlock(StreamRequests(comp, bs)[k], 0x11, k, Chunks(comp, bs)[k])
  {
    hide DataRequest, IsBlock, CountBlocks, DataRequests, Chunks;
    DataRequestAt(0x11, Chunks(comp, bs), 0, k);
    BlockInNumbers(0x11, k, Chunks(comp, bs)[k]);
  }

  /** An answered BEGIN has erased the region and nothing else; an unanswered one has or has not. */
  lemma BeginErases(c: Chan, cmd: byte, size: uint32, blocks: uint32, bs: BlockLen, offset: uint32, fifth: bool, w: World)
    requires Honest(c) && (cmd == FLASH_BEGIN || cmd == FLASH_DEFL_BEGIN)
    ensures var (c1, answer) := Ask(c, BeginRequest(cmd, size, blocks, bs, offset, fifth), w);
            && Honest(c1)
            && (answer.Some? ==>
                  && offset + size <= |c.dev.flash|
                  && c1.dev == Device(Erased(c.dev.flash, offset, size),
                                      if cmd == FLASH_BEGIN then Raw(offset, bs) else Stream(offset, size, [])))
            && (answer.None? ==>
                  c1.dev.flash == c.dev.flash
                  || (offset + size <= |c.dev.flash| && c1.dev.flash == Erased(c.dev.flash, offset, size)))
  {
    hide BeginRequest, Erased;
    BeginParses(cmd, size, blocks, bs, offset, fifth);
    BeginKind(cmd, size, blocks, bs, offset, fifth);
    BeginRuns(c.dev, BeginRequest(cmd, size, blocks, bs, offset, fifth), w);
    AskFlashLength(c, BeginRequest(cmd, size, blocks, bs, offset, fifth), w);
    if c.fates != [] {
      assert c.fates[0] in c.fates;
    }
  }

  lemma BeginKind(cmd: byte, size: uint32, blocks: uint32, bs: BlockLen, offset: uint32, fifth: bool)
    ensures BeginRequest(cmd, size, blocks, bs, offset, fifth).cmd == cmd
  {
  }

  lemma BeginRuns(d: Device, r: Request, w: World)
    requires |r.data| >= 16 && (r.cmd == FLASH_BEGIN || r.cmd == FLASH_DEFL_BEGIN)
    ensures var size, bs, offset := Word(r.data, 0), Word(r.data, 2), Word(r.data, 3);
            Exec(d, r, w) ==
              if |r.data| != BeginLength(r.cmd, w.stub) || offset + size > |d.flash| then (d, None) else
                (Device(Erased(d.flash, offset, size), if r.cmd == FLASH_BEGIN then Raw(offset, bs) else Stream(offset, size, [])), Some([]))
  {
    hide Word;
  }

  /** BEGIN announces exactly as many blocks as DATA requests follow. */
  lemma BeginAnnouncesBlocks(padded: seq<byte>, offset: uint32, stub: bool)
    requires |padded| < 0x1_0000_0000 && |padded| % BlockSize(stub) == 0
    ensures Word(RawBegin(|padded|, offset, stub).data, 1) == |RawRequests(padded, BlockSize(stub))|
  {
    hide BeginRequest, Word;
    var bs := BlockSize(stub);
    BeginParses(FLASH_BEGIN, |padded|, ToUint32(|padded| + bs - 1) / bs, bs, offset, !stub);
    RawCount(padded, bs);
    CountIsExact(|padded|, bs);
  }

  lemma CountIsExact(size: uint32, bs: BlockLen)
    requires size % bs == 0
    ensures ToUint32(size + bs - 1) / bs == CountBlocks(size, bs)
  {
  }

  /** The digest command leaves the flash alone. */
  lemma VerifyReads(c: Chan, w: World, offset: uint32, size: uint32, want: seq<byte>)
    ensures Verify(c, w, offset, size, want).0.dev == c.dev
    ensures Honest(c) ==> Honest(Verify(c, w, offset, size, want).0)
  {
    AskFlashLength(c, DigestRequest(offset, size), w);
  }

  /** How far a write may have got: BEGIN unanswered, or one of two numbers of bytes stored. */
  datatype Reach = NotBegun | Either(a: nat, b: nat)

  /** The flash is as before or erased only, if BEGIN was not answered; else it is erased and holds
      one of the two first parts of the content. */
  predicate PartlyWritten(before: seq<byte>, after: seq<byte>, offset: nat, content: seq<byte>, reach: Reach) {
    var size := |content|;
    match reach
    case NotBegun => after == before || (offset + size <= |before| && after == Erased(before, offset, size))
    case Either(a, b) =>
      && offset + size <= |before| && a <= b <= size
      && after in {Splice(Erased(before, offset, size), offset, content[..a]),
                   Splice(Erased(before, offset, size), offset, content[..b])}
  }

  /** How far a raw write has got by its verdict: the block that failed is stored or not, all in
      front of it are; after the digest command every block is. */
  function RawReach(err: FlashError, bs: BlockLen, size: nat): Reach {
    match err
    case BeginFailed => NotBegun
    case DataFailed(k) => NotNegative(k, bs); NotNegative(k + 1, bs); Either(k * bs, (k + 1) * bs)
    case _ => Either(size, size)
  }

  /** Begin and blocks of a raw write. */
  lemma RawBlocksRun(c: Chan, w: World, offset: uint32, padded: seq<byte>)
    requires Honest(c) && |padded| < 0x1_0000_0000 && |padded| % BlockSize(w.stub) == 0
    ensures var (c1, err) := RawBlocks(c, w, offset, padded);
            && Honest(c1)
            && (err.None? ==>
                  && offset + |padded| <= |c.dev.flash|
                  && c1.dev.flash == Splice(Erased(c.dev.flash, offset, |padded|), offset, padded))
            && (err.Some? ==>
                  PartlyWritten(c.dev.flash, c1.dev.flash, offset, padded, RawReach(err.value, BlockSize(w.stub), |padded|)))
  {
    hide Ask, Honest, Retry, BeginRequest, SendFrom, RawRequests, Erased, Splice, Blank, PartlyWritten, RawReach;
    var bs := BlockSize(w.stub);
    var size: uint32 := |padded|;
    BeginErases(c, FLASH_BEGIN, size, ToUint32(size + bs - 1) / bs, bs, offset, !w.stub, w);
    var (c1, answer) := Ask(c, RawBegin(size, offset, w.stub), w);
    if answer.Some? {
      var e := Erased(c.dev.flash, offset, size);
      ErasedIsBlank(c.dev.flash, offset, size);
      SpliceNothing(e, offset);
      assert padded[..0] == [];
      BlocksStored(c1, w, e, offset, padded, 0);
      var (c2, failed) := SendFrom(c1, RawRequests(padded, bs), 0, w, RETRIES);
      if failed.Some? {
        RawReached(c.dev.flash, c2.dev, offset, padded, bs, failed.value);
      }
    } else {
      BeginUnanswered(c.dev.flash, c1.dev.flash, offset, padded, bs);
    }
  }

  lemma BeginUnanswered(before: seq<byte>, after: seq<byte>, offset: nat, content: seq<byte>, bs: BlockLen)
    requires after == before || (offset + |content| <= |before| && after == Erased(before, offset, |content|))
    ensures PartlyWritten(before, after, offset, content, RawReach(BeginFailed, bs, |content|))
  {
  }

  lemma RawReached(before: seq<byte>, d: Device, offset: nat, padded: seq<byte>, bs: BlockLen, k: nat)
    requires offset + |padded| <= |before| && k * bs <= (k + 1) * bs <= |padded|
    requires var e := Erased(before, offset, |padded|);
             d == Stored(e, offset, padded, bs, k) || d == Stored(e, offset, padded, bs, k + 1)
    ensures PartlyWritten(before, d.flash, offset, padded, RawReach(DataFailed(k), bs, |padded|))
  {
    hide Erased, Splice;
  }

  /** A raw write over a link that loses requests and answers: success means the region holds the
      padded data and every sector outside is as before; a failure at block `k` leaves all blocks
      before `k` stored and block `k` stored or not begun; a failure at the digest leaves all stored. */
  lemma RawWrite(c: Chan, w: World, offset: uint32, data: seq<byte>)
    requires Honest(c) && |Padded(data, BlockSize(w.stub))| < 0x1_0000_0000
    ensures var padded := Padded(data, BlockSize(w.stub));
            var (c1, err) := WriteRaw(c, w, offset, data);
            && Honest(c1)
            && (err.None? ==>
                  && offset + |padded| <= |c.dev.flash|
                  && c1.dev.flash == Splice(Erased(c.dev.flash, offset, |padded|), offset, padded))
            && (err.Some? ==>
                  PartlyWritten(c.dev.flash, c1.dev.flash, offset, padded, RawReach(err.value, BlockSize(w.stub), |padded|)))
  {
    hide RawBlocks, Honest, Verify, Erased, Splice, Padded;
    var padded := Padded(data, BlockSize(w.stub));
    RawBlocksRun(c, w, offset, padded);
    var (c1, err) := RawBlocks(c, w, offset, padded);
    if err.None? {
      VerifyReads(c1, w, offset, |padded|, w.md5(padded));
      VerifyErrors(c1, w, offset, |padded|, w.md5(padded));
      assert padded[..|padded|] == padded;
    }
  }

  lemma VerifyErrors(c: Chan, w: World, offset: uint32, size: uint32, want: seq<byte>)
    ensures var err := Verify(c, w, offset, size, want).1; err.Some? ==> !err.value.DataFailed? && !err.value.BeginFailed?
  {
    hide Ask;
  }

  lemma SpliceNothing(e: seq<byte>, offset: nat)
    requires offset <= |e|
    ensures Splice(e, offset, []) == e
  {
  }
}
