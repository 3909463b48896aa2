/** The compressed write: a stream that must arrive exactly once, and how often each request of
    either kind of write reaches the chip. */
module FlashStream {
  import opened Bytes
  import opened Protocol
  import opened FlashDevice
  import opened FlashHost
  import opened FlashRuns

  // ---------------------------------------------------------------- how often requests arrive

  function Copies(r: Request, n: nat): seq<Request> { seq(n, _ => r) }

  /** Each request as often as counted. */
  function Copied(rs: seq<Request>, counts: seq<nat>): seq<Request>
    requires |rs| == |counts|
  {
    if rs == [] then [] else Copies(rs[0], counts[0]) + Copied(rs[1..], counts[1..])
  }

  lemma {:induction false} RetrySeen(c: Chan, r: Request, w: World, tries: nat) returns (n: nat)
    requires Honest(c)
    ensures Retry(c, r, w, tries).0.seen == c.seen + Copies(r, n)
    ensures n <= tries && (Retry(c, r, w, tries).1 ==> n >= 1) && Honest(Retry(c, r, w, tries).0)
    decreases tries
  {
    hide Exec;
    n := 0;
    if tries > 0 {
      AskFlashLength(c, r, w);
      var (c1, answer) := Ask(c, r, w);
      if c.fates != [] {
        assert c.fates[0] in c.fates;
      }
      var first := if c1.seen == c.seen then 0 else 1;
      assert c1.seen == c.seen + Copies(r, first);
      var more := 0;
      if answer.None? {
        more := RetrySeen(c1, r, w, tries - 1);
      }
      n := first + more;
      assert Copies(r, first) + Copies(r, more) == Copies(r, n);
    }
  }

  /** The chip sees the requests in order, each at least once and at most `tries` times, up to and
      including the one that failed, which it may not have seen at all. */
  lemma {:induction false} RequestsSeen(c: Chan, rs: seq<Request>, i: nat, w: World, tries: nat)
    returns (counts: seq<nat>, last: nat)
    requires Honest(c) && i <= |rs|
    ensures var (c1, failed) := SendFrom(c, rs, i, w, tries);
            var end := if failed.Some? then failed.value else |rs|;
            && i <= end <= |rs| && |counts| == end - i && (failed.Some? ==> end < |rs|)
            && (forall k :: 0 <= k < |counts| ==> 1 <= counts[k] <= tries)
            && last <= (if failed.Some? then tries else 0)
            && c1.seen == c.seen + Copied(rs[i..end], counts) + (if failed.Some? then Copies(rs[end], last) else [])
            && Honest(c1)
    decreases |rs| - i
  {
    hide Retry, Honest;
    if i == |rs| {
      counts, last := [], 0;
    } else {
      var n := RetrySeen(c, rs[i], w, tries);
      var (c1, ok) := Retry(c, rs[i], w, tries);
      if !ok {
        counts, last := [], n;
      } else {
        var more;
        more, last := RequestsSeen(c1, rs, i + 1, w, tries);
        counts := [n] + more;
        var failed := SendFrom(c1, rs, i + 1, w, tries).1;
        var end := if failed.Some? then failed.value else |rs|;
        assert rs[i..end][1..] == rs[i + 1..end] && counts[1..] == more;
        assert Copied(rs[i..end], counts) == Copies(rs[i], n) + Copied(rs[i + 1..end], more);
        var tail := if failed.Some? then Copies(rs[end], last) else [];
        assert c1.seen + Copied(rs[i + 1..end], more) + tail == c.seen + (Copies(rs[i], n) + Copied(rs[i + 1..end], more)) + tail;
      }
    }
  }

  lemma {:induction false} CopiedOnce(rs: seq<Request>, counts: seq<nat>)
    requires |rs| == |counts| && forall k :: 0 <= k < |counts| ==> counts[k] == 1
    ensures Copied(rs, counts) == rs
    decreases |rs|
  {
    if rs != [] {
      CopiedOnce(rs[1..], counts[1..]);
      assert Copies(rs[0], 1) == [rs[0]];
    }
  }

  // ---------------------------------------------------------------- the stream on the chip

  /** The chip after it has consumed `part` of the stream: what that much inflates to is stored. */
  function StreamState(e: seq<byte>, offset: nat, size: nat, w: World, part: seq<byte>): Device
    requires offset + |w.inflate(part)| <= |e|
  {
    Device(Splice(e, offset, w.inflate(part)), Stream(offset, size, part))
  }

  lemma ProgramFresh(e: seq<byte>, offset: nat, p: seq<byte>, q: seq<byte>, size: nat)
    requires Blank(e, offset, size) && |p| + |q| <= size
    ensures Program(Splice(e, offset, p), offset + |p|, q) == Splice(e, offset, p + q)
  {
    hide Program, Splice;
    SpliceLeavesBlank(e, offset, p, |q|);
    ProgramStores(Splice(e, offset, p), offset + |p|, q);
    SpliceNext(e, offset, p, q);
  }

  /** One chunk that comes where the stream stands continues it. */
  lemma ChunkInflates(e: seq<byte>, offset: nat, data: seq<byte>, w: World, part: seq<byte>, i: nat, chunk: seq<byte>)
    requires LawfulZlib(w) && Blank(e, offset, |data|) && |chunk| < 0x1_0000_0000
    requires w.inflate(part + chunk) <= data
    ensures w.inflate(part) <= data
    ensures Exec(StreamState(e, offset, |data|, w, part), DataRequest(FLASH_DEFL_DATA, i, chunk), w)
         == (StreamState(e, offset, |data|, w, part + chunk), Some([]))
  {
    hide DataRequest, ParseData, BlockNumber, Program, Splice;
    DataRequestParses(FLASH_DEFL_DATA, i, chunk);
    RequestKind(FLASH_DEFL_DATA, i, chunk);
    var before, after := w.inflate(part), w.inflate(part + chunk);
    assert before <= after;
    assert before + after[|before|..] == after;
    ProgramFresh(e, offset, before, after[|before|..], |data|);
  }

  /** The first `i` chunks. */
  function Taken(comp: seq<byte>, bs: BlockLen, i: nat): seq<byte> {
    if i * bs <= |comp| then comp[..i * bs] else comp
  }

  lemma TakenNext(comp: seq<byte>, bs: BlockLen, i: nat)
    requires i < CountBlocks(|comp|, bs)
    ensures Taken(comp, bs, i) + Chunks(comp, bs)[i] == Taken(comp, bs, i + 1)
    ensures Taken(comp, bs, i + 1) <= comp
  {
    ChunkAt(comp, bs, i);
    Times(i, bs);
    TakeNext(comp, i * bs, ChunkEnd(|comp|, bs, i));
  }

  lemma TakenAll(comp: seq<byte>, bs: BlockLen)
    ensures Taken(comp, bs, CountBlocks(|comp|, bs)) == comp && Taken(comp, bs, 0) == []
  {
  }

  /** Any part of a deflate stream inflates to a prefix of the data. */
  lemma PartInflates(w: World, data: seq<byte>, part: seq<byte>)
    requires LawfulZlib(w) && part <= w.deflate(data)
    ensures w.inflate(part) <= data
  {
    var rest := w.deflate(data)[|part|..];
    assert part + rest == w.deflate(data);
  }

  lemma MoreInflates(w: World, part: seq<byte>, more: seq<byte>)
    requires LawfulZlib(w)
    ensures w.inflate(part) <= w.inflate(part + more)
  {
  }

  /** From chunk `i` on: the stream is consumed to its end, or up to the chunk that failed, with or
      without that chunk. */
  lemma {:induction false} StreamStored(c: Chan, w: World, e: seq<byte>, offset: nat, data: seq<byte>, i: nat)
    requires LawfulZlib(w) && Honest(c) && Blank(e, offset, |data|)
    requires i <= CountBlocks(|w.deflate(data)|, BlockSize(w.stub))
    requires Taken(w.deflate(data), BlockSize(w.stub), i) <= w.deflate(data)
    requires w.inflate(Taken(w.deflate(data), BlockSize(w.stub), i)) <= data
    requires c.dev == StreamState(e, offset, |data|, w, Taken(w.deflate(data), BlockSize(w.stub), i))
    ensures var comp, bs := w.deflate(data), BlockSize(w.stub);
            var (c1, failed) := SendFrom(c, StreamRequests(comp, bs), i, w, 1);
            && Honest(c1)
            && (failed.None? ==> c1.dev == StreamState(e, offset, |data|, w, comp))
            && (failed.Some? ==>
                  var k := failed.value;
                  && i <= k < CountBlocks(|comp|, bs)
                  && w.inflate(Taken(comp, bs, k)) <= w.inflate(Taken(comp, bs, k + 1)) <= data
                  && (c1.dev == StreamState(e, offset, |data|, w, Taken(comp, bs, k))
                      || c1.dev == StreamState(e, offset, |data|, w, Taken(comp, bs, k + 1))))
    decreases CountBlocks(|w.deflate(data)|, BlockSize(w.stub)) - i
  {
    hide Ask, Honest, Exec, DataRequest, StreamState, Taken, CountBlocks, LawfulZlib, Blank;
    var comp, bs := w.deflate(data), BlockSize(w.stub);
    TakenAll(comp, bs);
    BlankFits(e, offset, |data|);
    PartInflates(w, data, comp);
    StreamCount(comp, bs);
    if i < CountBlocks(|comp|, bs) {
      TakenNext(comp, bs, i);
      PartInflates(w, data, Taken(comp, bs, i + 1));
      ChunkSent(c, w, e, offset, data, i);
      OneTry(c, StreamRequests(comp, bs)[i], w);
      var (c1, answer) := Ask(c, StreamRequests(comp, bs)[i], w);
      if answer.Some? {
        StreamStored(c1, w, e, offset, data, i + 1);
      } else {
        MoreInflates(w, Taken(comp, bs, i), Chunks(comp, bs)[i]);
      }
    }
  }

  lemma BlankFits(e: seq<byte>, offset: nat, size: nat)
    requires Blank(e, offset, size)
    ensures offset + size <= |e|
  {
  }

  lemma StreamCount(comp: seq<byte>, bs: BlockLen)
    ensures |StreamRequests(comp, bs)| == CountBlocks(|comp|, bs)
  {
  }

  lemma ChunkSent(c: Chan, w: World, e: seq<byte>, offset: nat, data: seq<byte>, i: nat)
    requires LawfulZlib(w) && Honest(c) && Blank(e, offset, |data|)
    requires i < CountBlocks(|w.deflate(data)|, BlockSize(w.stub))
    requires w.inflate(Taken(w.deflate(data), BlockSize(w.stub), i)) <= data
    requires w.inflate(Taken(w.deflate(data), BlockSize(w.stub), i + 1)) <= data
    requires c.dev == StreamState(e, offset, |data|, w, Taken(w.deflate(data), BlockSize(w.stub), i))
    ensures var comp, bs := w.deflate(data), BlockSize(w.stub);
            var (c1, answer) := Ask(c, StreamRequests(comp, bs)[i], w);
            var next := StreamState(e, offset, |data|, w, Taken(comp, bs, i + 1));
            && Honest(c1) && (if answer.Some? then c1.dev == next else c1.dev == c.dev || c1.dev == next)
  {
    hide Exec, DataRequest, StreamState, Taken, LawfulZlib, Blank;
    var comp, bs := w.deflate(data), BlockSize(w.stub);
    TakenNext(comp, bs, i);
    var chunk := Chunks(comp, bs)[i];
    DataRequestAt(FLASH_DEFL_DATA, Chunks(comp, bs), 0, i);
    ChunkInflates(e, offset, data, w, Taken(comp, bs, i), i, chunk);
    AskFlashLength(c, StreamRequests(comp, bs)[i], w);
    if c.fates != [] {
      assert c.fates[0] in c.fates;
    }
  }

  // ---------------------------------------------------------------- a compressed write

  /** How far a compressed write has got by its verdict: all chunks in front of the one that failed
      are consumed, that one is or is not, and what they inflate to is stored. */
  function StreamReach(w: World, data: seq<byte>, err: FlashError): Reach {
    var comp, bs := w.deflate(data), BlockSize(w.stub);
    match err
    case BeginFailed => NotBegun
    case DataFailed(k) => Either(|w.inflate(Taken(comp, bs, k))|, |w.inflate(Taken(comp, bs, k + 1))|)
    case _ => Either(|data|, |data|)
  }

  /** Begin and chunks: on success the flash holds exactly the data; after an error at chunk `k` the
      chip has consumed exactly the first `k` or `k + 1` chunks and written what they inflate to. */
  lemma StreamBlocksRun(c: Chan, w: World, offset: uint32, data: seq<byte>)
    requires LawfulZlib(w) && Honest(c) && |data| < 0x1_0000_0000
    ensures var comp, bs := w.deflate(data), BlockSize(w.stub);
            var (c1, err) := StreamBlocks(c, w, offset, data);
            && Honest(c1)
            && (err.None? ==>
                  && offset + |data| <= |c.dev.flash|
                  && c1.dev == Device(Splice(Erased(c.dev.flash, offset, |data|), offset, data),
                                      Stream(offset, |data|, comp)))
            && (err.Some? && err.value.DataFailed? ==>
                  var k := err.value.block;
                  && k < CountBlocks(|comp|, bs) && c1.dev.session.Stream?
                  && c1.dev.session.consumed in {Taken(comp, bs, k), Taken(comp, bs, k + 1)}
                  && w.inflate(c1.dev.session.consumed) <= data && offset + |data| <= |c.dev.flash|
                  && c1.dev.flash == Splice(Erased(c.dev.flash, offset, |data|), offset, w.inflate(c1.dev.session.consumed)))
            && (err.Some? ==> PartlyWritten(c.dev.flash, c1.dev.flash, offset, data, StreamReach(w, data, err.value)))
  {
    hide Ask, Honest, Retry, BeginRequest, SendFrom, StreamRequests, Erased, Splice, Blank, LawfulZlib, Taken, CountBlocks;
    var comp, bs := w.deflate(data), BlockSize(w.stub);
    BeginErases(c, FLASH_DEFL_BEGIN, |data|, ToUint32(CountBlocks(|comp|, bs)), bs, offset, false, w);
    var (c1, answer) := Ask(c, StreamBegin(comp, |data|, offset, w.stub), w);
    if answer.Some? {
      var e := Erased(c.dev.flash, offset, |data|);
      ErasedIsBlank(c.dev.flash, offset, |data|);
      SpliceNothing(e, offset);
      TakenAll(comp, bs);
      ZlibEnds(w, data);
      StreamStored(c1, w, e, offset, data, 0);
      var (c2, failed) := SendFrom(c1, StreamRequests(comp, bs), 0, w, 1);
      if failed.Some? {
        PrefixOf(data, w.inflate(Taken(comp, bs, failed.value)));
        PrefixOf(data, w.inflate(Taken(comp, bs, failed.value + 1)));
      }
    }
  }

  lemma PrefixOf(s: seq<byte>, p: seq<byte>)
    requires p <= s
    ensures s[..|p|] == p
  {
  }

  lemma ZlibEnds(w: World, data: seq<byte>)
    requires LawfulZlib(w)
    ensures w.inflate([]) == [] && w.inflate(w.deflate(data)) == data
  {
  }

  /** A compressed write with its digest check; an error there means everything has been written. */
  lemma StreamWrite(c: Chan, w: World, offset: uint32, data: seq<byte>)
    requires LawfulZlib(w) && Honest(c) && |data| < 0x1_0000_0000
    ensures var (c1, err) := WriteCompressed(c, w, offset, data);
            && Honest(c1)
            && (err.None? ==>
                  && offset + |data| <= |c.dev.flash|
                  && c1.dev.flash == Splice(Erased(c.dev.flash, offset, |data|), offset, data))
            && (err.Some? ==> PartlyWritten(c.dev.flash, c1.dev.flash, offset, data, StreamReach(w, data, err.value)))
  {
    hide StreamBlocks, Honest, Verify, Erased, Splice, LawfulZlib, Taken;
    StreamBlocksRun(c, w, offset, data);
    var (c1, err) := StreamBlocks(c, w, offset, data);
    if err.None? {
      VerifyReads(c1, w, offset, |data|, w.md5(data));
      VerifyErrors(c1, w, offset, |data|, w.md5(data));
      assert data[..|data|] == data;
    }
  }

  /** The chunks of a compressed write: none is empty, together they are the stream, and when all
      are answered the chip has seen each exactly once, in order; otherwise each before the one
      that failed exactly once and that one at most once. */
  lemma ChunksExactlyOnce(c: Chan, w: World, comp: seq<byte>) returns (last: nat)
    requires Honest(c)
    ensures var bs := BlockSize(w.stub);
            var rs := StreamRequests(comp, bs);
            var (c1, failed) := SendFrom(c, rs, 0, w, 1);
            && |rs| == CountBlocks(|comp|, bs) && Flat(Chunks(comp, bs)) == comp
            && (forall k :: 0 <= k < |rs| ==> Chunks(comp, bs)[k] != [] && BlockNumber(rs[k]) == ToUint32(k))
            && (failed.None? ==> c1.seen == c.seen + rs)
            && (failed.Some? ==>
                  && failed.value < |rs| && last <= 1
                  && c1.seen == c.seen + rs[..failed.value] + Copies(rs[failed.value], last))
  {
    hide Honest, SendFrom, DataRequest, Copied, BlockNumber;
    var bs := BlockSize(w.stub);
    var rs := StreamRequests(comp, bs);
    ChunksJoin(comp, bs);
    forall k | 0 <= k < |rs|
      ensures BlockNumber(rs[k]) == ToUint32(k)
    {
      DataRequestAt(FLASH_DEFL_DATA, Chunks(comp, bs), 0, k);
      DataRequestParses(FLASH_DEFL_DATA, k, Chunks(comp, bs)[k]);
    }
    var counts;
    counts, last := RequestsSeen(c, rs, 0, w, 1);
    var failed := SendFrom(c, rs, 0, w, 1).1;
    var end := if failed.Some? then failed.value else |rs|;
    CopiedOnce(rs[0..end], counts);
    assert rs[0..end] == rs[..end];
    assert failed.None? ==> c.seen + rs[..end] + [] == c.seen + rs;
  }

  /** The blocks of a raw write reach the chip in order, each one to three times. */
  lemma BlocksOneToThreeTimes(c: Chan, w: World, padded: seq<byte>) returns (counts: seq<nat>, last: nat)
    requires Honest(c)
    ensures var rs := RawRequests(padded, BlockSize(w.stub));
            var (c1, failed) := SendFrom(c, rs, 0, w, RETRIES);
            var end := if failed.Some? then failed.value else |rs|;
            && end <= |rs| == CountBlocks(|padded|, BlockSize(w.stub)) && |counts| == end
            && (failed.Some? ==> end < |rs|)
            && (forall k :: 0 <= k < end ==> 1 <= counts[k] <= 3)
            && last <= (if failed.Some? then 3 else 0)
            && c1.seen == c.seen + Copied(rs[..end], counts) + (if failed.Some? then Copies(rs[end], last) else [])
  {
    hide Honest, SendFrom, DataRequest, Copied;
    counts, last := RequestsSeen(c, RawRequests(padded, BlockSize(w.stub)), 0, w, RETRIES);
  }
}
