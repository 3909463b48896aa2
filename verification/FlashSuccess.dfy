/** Exactly when a write succeeds, by what becomes of its exchanges: a raw block has three of them,
    everything else has one. */
module FlashSuccess {
  import opened Bytes
  import opened Protocol
  import opened FlashDevice
  import opened FlashHost
  import opened FlashRuns
  import opened FlashStream
  import opened FlashImages

  // ---------------------------------------------------------------- one request and its attempts

  /** One of the next `tries` exchanges is delivered. */
  predicate GetsThrough(fates: seq<Fate>, tries: nat) {
    exists k :: 0 <= k < tries && k < |fates| && fates[k].Delivered?
  }

  /** The fates left behind the first delivery within `tries` exchanges, if no stale answer is heard
      before it. */
  function AfterRetry(fates: seq<Fate>, tries: nat): Option<seq<Fate>>
    decreases tries
  {
    if tries == 0 || fates == [] || fates[0].Stale? then None
    else if fates[0].Delivered? then Some(fates[1..])
    else AfterRetry(fates[1..], tries - 1)
  }

  lemma {:induction false} AfterRetryWhen(fates: seq<Fate>, tries: nat)
    requires forall f :: f in fates ==> !f.Stale?
    ensures AfterRetry(fates, tries).Some? <==> GetsThrough(fates, tries)
    ensures AfterRetry(fates, tries).Some? ==> forall f :: f in AfterRetry(fates, tries).value ==> f in fates
    decreases tries
  {
    if tries > 0 && fates != [] {
      AfterRetryWhen(fates[1..], tries - 1);
      if k :| 0 <= k < tries && k < |fates| && fates[k].Delivered? {
        assert k > 0 ==> fates[1..][k - 1].Delivered?;
      }
      if k :| 0 <= k < tries - 1 && k < |fates[1..]| && fates[1..][k].Delivered? {
        assert fates[k + 1].Delivered?;
      }
    }
  }

  /** A request that takes the chip from `before` to `after`, and if there may be a second attempt
      leaves it there, is answered within its attempts exactly when one of them is delivered. */
  lemma {:induction false} RetrySucceeds(c: Chan, r: Request, w: World, tries: nat, before: Device, after: Device)
    requires c.dev == before || (c.dev == after && (tries > 0 ==> Exec(after, r, w) == (after, Some([]))))
    requires Exec(before, r, w) == (after, Some([]))
    requires tries > 1 ==> Exec(after, r, w) == (after, Some([]))
    ensures var (c1, ok) := Retry(c, r, w, tries);
            var left := AfterRetry(c.fates, tries);
            && (left.Some? ==> ok && c1.dev == after && c1.fates == left.value)
            && (Honest(c) ==> (ok <==> left.Some?) && (ok <==> GetsThrough(c.fates, tries)))
    decreases tries
  {
    hide Exec, GetsThrough;
    if Honest(c) {
      AfterRetryWhen(c.fates, tries);
    }
    if tries > 0 && c.fates != [] && !c.fates[0].Stale? {
      AskFlashLength(c, r, w);
      var (c1, answer) := Ask(c, r, w);
      if answer.None? {
        RetrySucceeds(c1, r, w, tries - 1, before, after);
      }
    } else {
      if c.fates != [] {
        assert c.fates[0] in c.fates;
      }
      if tries == 0 || c.fates == [] {
        NothingHeard(c, r, w, tries);
      }
    }
  }

  lemma {:induction false} NothingHeard(c: Chan, r: Request, w: World, tries: nat)
    requires tries == 0 || c.fates == []
    ensures !Retry(c, r, w, tries).1
    decreases tries
  {
    if tries > 0 {
      NothingHeard(c, r, w, tries - 1);
    }
  }

  // ---------------------------------------------------------------- a list of requests

  /** The fates left when `n` requests have got through, each within its own `tries` exchanges. */
  function AfterRequests(fates: seq<Fate>, n: nat, tries: nat): Option<seq<Fate>>
    decreases n
  {
    if n == 0 then Some(fates) else
      match AfterRetry(fates, tries)
      case None => None
      case Some(left) => AfterRequests(left, n - 1, tries)
  }

  /** Of `n` requests the first `k` get through, and the next one does not in its `tries` exchanges. */
  predicate FailsAt(fates: seq<Fate>, n: nat, tries: nat, k: nat) {
    k < n && var left := AfterRequests(fates, k, tries); left.Some? && AfterRetry(left.value, tries).None?
  }

  lemma FailsFirst(fates: seq<Fate>, n: nat, tries: nat)
    requires n > 0 && AfterRetry(fates, tries).None?
    ensures FailsAt(fates, n, tries, 0)
  {
    hide AfterRetry;
  }

  lemma FailsLater(fates: seq<Fate>, n: nat, tries: nat, k: nat)
    requires n > 0 && AfterRetry(fates, tries).Some? && FailsAt(AfterRetry(fates, tries).value, n - 1, tries, k)
    ensures FailsAt(fates, n, tries, k + 1)
  {
    hide AfterRetry;
  }

  /** Only one of them can be the first to fail, and none if all get through. */
  lemma {:induction false} FailsOnce(fates: seq<Fate>, n: nat, tries: nat, k: nat, j: nat)
    requires FailsAt(fates, n, tries, k)
    ensures AfterRequests(fates, n, tries).None?
    ensures FailsAt(fates, n, tries, j) ==> j == k
    decreases k
  {
    hide AfterRetry;
    if k > 0 && AfterRetry(fates, tries).Some? {
      FailsOnce(AfterRetry(fates, tries).value, n - 1, tries, k - 1, if j > 0 then j - 1 else 0);
    }
  }

  /** Request `k` takes the chip from one state to the next; a repeated one changes nothing. */
  ghost predicate Leads(rs: seq<Request>, w: World, tries: nat, states: int -> Device) {
    forall k :: 0 <= k < |rs| ==>
      && Exec(states(k), rs[k], w) == (states(k + 1), Some([]))
      && (tries > 1 ==> Exec(states(k + 1), rs[k], w) == (states(k + 1), Some([])))
  }

  /** The requests from `i` on are all answered exactly when each gets through in its turn. */
  lemma {:induction false} SendSucceeds(c: Chan, rs: seq<Request>, i: nat, w: World, tries: nat, states: int -> Device)
    requires i <= |rs| && Leads(rs, w, tries, states) && c.dev == states(i)
    ensures var (c1, failed) := SendFrom(c, rs, i, w, tries);
            var left := AfterRequests(c.fates, |rs| - i, tries);
            && (left.Some? ==> failed.None? && c1.dev == states(|rs|) && c1.fates == left.value)
            && (left.None? && Honest(c) ==>
                  failed.Some? && failed.value >= i && FailsAt(c.fates, |rs| - i, tries, failed.value - i))
    decreases |rs| - i
  {
    hide Exec, Retry, AfterRetry, Honest, FailsAt;
    if i < |rs| {
      RetrySucceeds(c, rs[i], w, tries, states(i), states(i + 1));
      var (c1, ok) := Retry(c, rs[i], w, tries);
      if AfterRetry(c.fates, tries).Some? {
        SendSucceeds(c1, rs, i + 1, w, tries, states);
        if Honest(c) {
          StaysHonest(c, rs[i], w, tries);
          var failed := SendFrom(c1, rs, i + 1, w, tries).1;
          if failed.Some? {
            FailsLater(c.fates, |rs| - i, tries, failed.value - (i + 1));
          }
        }
      } else {
        FailsFirst(c.fates, |rs| - i, tries);
      }
    }
  }

  lemma {:induction false} StaysHonest(c: Chan, r: Request, w: World, tries: nat)
    requires Honest(c)
    ensures Honest(Retry(c, r, w, tries).0)
    decreases tries
  {
    hide Exec;
    if tries > 0 {
      AskFlashLength(c, r, w);
      StaysHonest(Ask(c, r, w).0, r, w, tries - 1);
    }
  }

  // ---------------------------------------------------------------- a whole write

  /** BEGIN is delivered, each of `n` requests gets through in its turn, the digest is delivered. */
  predicate Carries(fates: seq<Fate>, n: nat, tries: nat) {
    && fates != [] && fates[0].Delivered?
    && var left := AfterRequests(fates[1..], n, tries);
       left.Some? && left.value != [] && left.value[0].Delivered?
  }

  /** How many requests follow BEGIN, and how many exchanges each has. */
  function Requests(w: World, data: seq<byte>): nat { CountBlocks(|if w.stub then w.deflate(data) else Content(w, data)|, BlockSize(w.stub)) }
  function Tries(w: World): nat { if w.stub then 1 else 3 }

  function RawStates(e: seq<byte>, offset: nat, padded: seq<byte>, bs: BlockLen): int -> Device {
    k => if 0 <= k && 0 <= k * bs <= |padded| && offset + |padded| <= |e| then Stored(e, offset, padded, bs, k)
         else Device(e, Idle)
  }

  lemma RawLeads(e: seq<byte>, offset: nat, padded: seq<byte>, w: World)
    requires RawSetting(e, offset, padded, BlockSize(w.stub))
    ensures Leads(RawRequests(padded, BlockSize(w.stub)), w, RETRIES, RawStates(e, offset, padded, BlockSize(w.stub)))
    ensures RawStates(e, offset, padded, BlockSize(w.stub))(0) == Device(e, Raw(offset, BlockSize(w.stub)))
    ensures RawStates(e, offset, padded, BlockSize(w.stub))(CountBlocks(|padded|, BlockSize(w.stub)))
         == RawState(e, offset, BlockSize(w.stub), padded)
  {
    hide Exec, DataRequest, RawState, CountBlocks, RawRequests, Chunks;
    var bs := BlockSize(w.stub);
    var states, rs := RawStates(e, offset, padded, bs), RawRequests(padded, bs);
    RawCount(padded, bs);
    forall k | 0 <= k < |rs|
      ensures Exec(states(k), rs[k], w) == (states(k + 1), Some([]))
      ensures Exec(states(k + 1), rs[k], w) == (states(k + 1), Some([]))
    {
      ChunkAt(padded, bs, k);
      BlocksLeft(|padded|, bs, k);
      NotNegative(k, bs);
      NotNegative(k + 1, bs);
      RawRequestAt(padded, bs, k);
      TakeNext(padded, k * bs, (k + 1) * bs);
      EndOfWhole(|padded|, bs, k);
      BlockStores(e, offset, bs, padded[..k * bs], k, Chunks(padded, bs)[k], w);
    }
    WholeCount(|padded|, bs);
    StartsRaw(e, offset, bs);
    assert padded[..0] == [] && padded[..|padded|] == padded;
  }

  lemma EndOfWhole(n: nat, bs: BlockLen, k: nat)
    requires (k + 1) * bs <= n
    ensures ChunkEnd(n, bs, k) == (k + 1) * bs
  {
  }

  lemma WholeCount(n: nat, bs: BlockLen)
    requires n % bs == 0
    ensures CountBlocks(n, bs) * bs == n
  {
  }

  lemma StartsRaw(e: seq<byte>, offset: nat, bs: BlockLen)
    requires offset <= |e|
    ensures RawState(e, offset, bs, []) == Device(e, Raw(offset, bs))
  {
    SpliceNothing(e, offset);
  }

  lemma RawRequestAt(padded: seq<byte>, bs: BlockLen, i: nat)
    requires i < CountBlocks(|padded|, bs)
    ensures i < |RawRequests(padded, bs)|
    ensures RawRequests(padded, bs)[i] == DataRequest(FLASH_DATA, i, Chunks(padded, bs)[i])
  {
    hide DataRequest, CountBlocks, Chunks, DataRequests;
    DataRequestAt(FLASH_DATA, Chunks(padded, bs), 0, i);
  }

  function StreamStates(e: seq<byte>, offset: nat, size: nat, w: World, comp: seq<byte>, bs: BlockLen): int -> Device {
    k => if 0 <= k && offset + |w.inflate(Taken(comp, bs, k))| <= |e| then StreamState(e, offset, size, w, Taken(comp, bs, k))
         else Device(e, Idle)
  }

  lemma StreamLeads(e: seq<byte>, offset: nat, data: seq<byte>, w: World)
    requires LawfulZlib(w) && Blank(e, offset, |data|)
    ensures var comp, bs := w.deflate(data), BlockSize(w.stub);
            var states := StreamStates(e, offset, |data|, w, comp, bs);
            && Leads(StreamRequests(comp, bs), w, 1, states)
            && states(0) == Device(e, Stream(offset, |data|, []))
            && offset + |data| <= |e|
            && states(CountBlocks(|comp|, bs)) == Device(Splice(e, offset, data), Stream(offset, |data|, comp))
  {
    hide Exec, DataRequest, CountBlocks, StreamRequests, Chunks, LawfulZlib, Blank, Taken, Splice;
    var comp, bs := w.deflate(data), BlockSize(w.stub);
    var states, rs := StreamStates(e, offset, |data|, w, comp, bs), StreamRequests(comp, bs);
    StreamCount(comp, bs);
    BlankFits(e, offset, |data|);
    forall k | 0 <= k < |rs|
      ensures Exec(states(k), rs[k], w) == (states(k + 1), Some([]))
    {
      TakenNext(comp, bs, k);
      PartInflates(w, data, Taken(comp, bs, k + 1));
      StreamRequestAt(comp, bs, k);
      ChunkInflates(e, offset, data, w, Taken(comp, bs, k), k, Chunks(comp, bs)[k]);
    }
    TakenAll(comp, bs);
    ZlibEnds(w, data);
    SpliceNothing(e, offset);
  }

  lemma StreamRequestAt(comp: seq<byte>, bs: BlockLen, i: nat)
    requires i < CountBlocks(|comp|, bs)
    ensures i < |StreamRequests(comp, bs)| && |Chunks(comp, bs)[i]| <= bs
    ensures StreamRequests(comp, bs)[i] == DataRequest(FLASH_DEFL_DATA, i, Chunks(comp, bs)[i])
  {
    hide DataRequest, CountBlocks, DataRequests;
    DataRequestAt(FLASH_DEFL_DATA, Chunks(comp, bs), 0, i);
  }

  /** BEGIN is answered exactly when it is delivered and the region lies within the flash. */
  lemma BeginAnswered(c: Chan, cmd: byte, size: uint32, blocks: uint32, bs: BlockLen, offset: uint32, w: World)
    requires cmd == FLASH_BEGIN || cmd == FLASH_DEFL_BEGIN
    ensures var r := BeginRequest(cmd, size, blocks, bs, offset, cmd == FLASH_BEGIN && !w.stub);
            var (c1, answer) := Ask(c, r, w);
            && (c.fates != [] && c.fates[0].Delivered? && offset + size <= |c.dev.flash| ==>
                  && answer.Some? && c1.fates == c.fates[1..]
                  && c1.dev == Device(Erased(c.dev.flash, offset, size),
                                      if cmd == FLASH_BEGIN then Raw(offset, bs) else Stream(offset, size, [])))
            && (Honest(c) ==>
                  Honest(c1) && (answer.Some? ==> c.fates != [] && c.fates[0].Delivered? && offset + size <= |c.dev.flash|))
  {
    hide BeginRequest, Erased, Word;
    var r := BeginRequest(cmd, size, blocks, bs, offset, cmd == FLASH_BEGIN && !w.stub);
    BeginParses(cmd, size, blocks, bs, offset, cmd == FLASH_BEGIN && !w.stub);
    BeginKind(cmd, size, blocks, bs, offset, cmd == FLASH_BEGIN && !w.stub);
    BeginRuns(c.dev, r, w);
    AskFlashLength(c, r, w);
    if c.fates != [] {
      assert c.fates[0] in c.fates;
    }
  }

  /** BEGIN and blocks succeed exactly when BEGIN is delivered and fits and all blocks get through,
      and then the content is in place. */
  ghost predicate BlocksDecided(c: Chan, w: World, offset: uint32, content: seq<byte>, n: nat, tries: nat,
                                c1: Chan, err: Option<FlashError>) {
    var begun := c.fates != [] && c.fates[0].Delivered? && offset + |content| <= |c.dev.flash|;
    && (begun && AfterRequests(c.fates[1..], n, tries).Some? ==>
          && err.None? && InPlace(c1.dev.flash, offset, content)
          && c1.fates == AfterRequests(c.fates[1..], n, tries).value)
    && (Honest(c) && !begun ==> err == Some(BeginFailed))
    && (Honest(c) && begun && AfterRequests(c.fates[1..], n, tries).None? ==>
          err.Some? && err.value.DataFailed? && FailsAt(c.fates[1..], n, tries, err.value.block))
  }

  lemma RawSucceeds(c: Chan, w: World, offset: uint32, padded: seq<byte>)
    requires |padded| < 0x1_0000_0000 && |padded| % BlockSize(w.stub) == 0
    ensures var (c1, err) := RawBlocks(c, w, offset, padded);
            BlocksDecided(c, w, offset, padded, CountBlocks(|padded|, BlockSize(w.stub)), RETRIES, c1, err)
  {
    hide Ask, SendFrom, RawRequests, Erased, Splice, Blank, BeginRequest, CountBlocks, Leads, RawStates, Honest, AfterRequests, FailsAt;
    var bs := BlockSize(w.stub);
    var size: uint32 := |padded|;
    BeginAnswered(c, FLASH_BEGIN, size, ToUint32(size + bs - 1) / bs, bs, offset, w);
    assert RawBlocks(c, w, offset, padded).1 == Some(BeginFailed) <==> Ask(c, RawBegin(size, offset, w.stub), w).1.None?;
    if offset + size <= |c.dev.flash| {
      var e := Erased(c.dev.flash, offset, size);
      ErasedIsBlank(c.dev.flash, offset, size);
      RawLeads(e, offset, padded, w);
      RawCount(padded, bs);
      SpliceHolds(e, offset, padded);
      var c1 := Ask(c, RawBegin(size, offset, w.stub), w).0;
      if c.fates != [] && c.fates[0].Delivered? {
        SendSucceeds(c1, RawRequests(padded, bs), 0, w, RETRIES, RawStates(e, offset, padded, bs));
      }
    }
  }

  lemma StreamSucceeds(c: Chan, w: World, offset: uint32, data: seq<byte>)
    requires LawfulZlib(w) && |data| < 0x1_0000_0000
    ensures var (c1, err) := StreamBlocks(c, w, offset, data);
            BlocksDecided(c, w, offset, data, CountBlocks(|w.deflate(data)|, BlockSize(w.stub)), 1, c1, err)
  {
    hide Ask, SendFrom, StreamRequests, Erased, Splice, Blank, BeginRequest, CountBlocks, Leads, StreamStates, Honest,
         AfterRequests, FailsAt, LawfulZlib;
    var comp, bs := w.deflate(data), BlockSize(w.stub);
    BeginAnswered(c, FLASH_DEFL_BEGIN, |data|, ToUint32(CountBlocks(|comp|, bs)), bs, offset, w);
    assert StreamBlocks(c, w, offset, data).1 == Some(BeginFailed) <==> Ask(c, StreamBegin(comp, |data|, offset, w.stub), w).1.None?;
    if offset + |data| <= |c.dev.flash| {
      var e := Erased(c.dev.flash, offset, |data|);
      ErasedIsBlank(c.dev.flash, offset, |data|);
      StreamLeads(e, offset, data, w);
      StreamCount(comp, bs);
      SpliceHolds(e, offset, data);
      var c1 := Ask(c, StreamBegin(comp, |data|, offset, w.stub), w).0;
      if c.fates != [] && c.fates[0].Delivered? {
        SendSucceeds(c1, StreamRequests(comp, bs), 0, w, 1, StreamStates(e, offset, |data|, w, comp, bs));
      }
    }
  }

  /** The digest command succeeds over content in place exactly when its exchange is delivered. */
  lemma DigestSucceeds(c: Chan, w: World, offset: uint32, content: seq<byte>)
    requires LawfulMd5(w) && |content| < 0x1_0000_0000 && InPlace(c.dev.flash, offset, content)
    ensures var err := Verify(c, w, offset, |content|, w.md5(content)).1;
            && (c.fates != [] && c.fates[0].Delivered? ==> err.None?)
            && (Honest(c) && err.None? ==> c.fates != [] && c.fates[0].Delivered?)
  {
    hide DigestRequest, Exec, DigestOf, Hex, LawfulMd5;
    if c.fates != [] {
      assert c.fates[0] in c.fates;
      if c.fates[0].Delivered? {
        DigestDecides(c, w, offset, |content|, content);
      }
    }
  }

  /** The main result: a write succeeds, in either mode, if and only if its region lies within the
      flash, BEGIN is delivered, every block gets through in its turn, a raw one within three
      exchanges, and the digest exchange is delivered. (The first half needs no honesty of what
      comes later on the link.) */
  lemma WriteSucceedsExactly(c: Chan, w: World, offset: uint32, data: seq<byte>)
    requires LawfulZlib(w) && LawfulMd5(w) && |Content(w, data)| < 0x1_0000_0000
    ensures var ok := WriteOne(c, w, offset, data).1.None?;
            var carried := offset + |Content(w, data)| <= |c.dev.flash|
                           && Carries(c.fates, Requests(w, data), if w.stub then 1 else 3);
            (carried ==> ok) && (Honest(c) ==> (ok <==> carried))
  {
    hide RawBlocks, StreamBlocks, Verify, LawfulZlib, LawfulMd5, Padded, Honest, AfterRequests, CountBlocks;
    var content := Content(w, data);
    if w.stub {
      StreamSucceeds(c, w, offset, data);
    } else {
      PaddedWhole(data);
      RawSucceeds(c, w, offset, content);
    }
    var (c1, err) := Blocks(c, w, offset, data);
    assert BlocksDecided(c, w, offset, content, Requests(w, data), Tries(w), c1, err);
    if Honest(c) {
      BlocksHonest(c, w, offset, data);
    }
    if err.None? && InPlace(c1.dev.flash, offset, content) {
      DigestSucceeds(c1, w, offset, content);
    }
  }

  /** Exactly when it fails before the digest, over an honest link, and where: at BEGIN if that is not
      delivered or does not fit, and at block `k` if the blocks in front of it get through and then
      three exchanges in a row are not delivered, or under the stub the one there is. */
  lemma WriteFailsExactly(c: Chan, w: World, offset: uint32, data: seq<byte>, k: nat)
    requires LawfulZlib(w) && |Content(w, data)| < 0x1_0000_0000 && Honest(c)
    ensures var err := WriteOne(c, w, offset, data).1;
            var begun := c.fates != [] && c.fates[0].Delivered? && offset + |Content(w, data)| <= |c.dev.flash|;
            var tries := if w.stub then 1 else 3;
            && (err == Some(BeginFailed) <==> !begun)
            && (err == Some(DataFailed(k)) <==>
                  && begun && k < Requests(w, data)
                  && var left := AfterRequests(c.fates[1..], k, tries);
                     left.Some? && forall j :: 0 <= j < tries && j < |left.value| ==> !left.value[j].Delivered?)
  {
    hide RawBlocks, StreamBlocks, Verify, LawfulZlib, Padded, Honest, AfterRequests, CountBlocks, FailsAt;
    var content := Content(w, data);
    var n, tries := Requests(w, data), Tries(w);
    if w.stub {
      StreamSucceeds(c, w, offset, data);
    } else {
      PaddedWhole(data);
      RawSucceeds(c, w, offset, content);
    }
    var (c1, err) := Blocks(c, w, offset, data);
    assert BlocksDecided(c, w, offset, content, n, tries, c1, err);
    VerifyErrors(c1, w, offset, |content|, w.md5(content));
    if c.fates != [] {
      StaysHonestAfter(c, k, tries);
      FailsAtMeans(c.fates[1..], n, tries, k);
      if FailsAt(c.fates[1..], n, tries, k) {
        FailsOnce(c.fates[1..], n, tries, k, k);
        if err.Some? && err.value.DataFailed? {
          FailsOnce(c.fates[1..], n, tries, k, err.value.block);
        }
      }
    }
  }

  lemma StaysHonestAfter(c: Chan, k: nat, tries: nat)
    requires Honest(c) && c.fates != []
    ensures var left := AfterRequests(c.fates[1..], k, tries);
            left.Some? ==> forall f :: f in left.value ==> !f.Stale?
  {
    LeftOver(c.fates[1..], k, tries);
  }

  lemma {:induction false} LeftOver(fates: seq<Fate>, k: nat, tries: nat)
    requires forall f :: f in fates ==> !f.Stale?
    ensures var left := AfterRequests(fates, k, tries);
            left.Some? ==> forall f :: f in left.value ==> !f.Stale?
    decreases k
  {
    hide AfterRetry;
    if k > 0 {
      AfterRetryWhen(fates, tries);
      if AfterRetry(fates, tries).Some? {
        LeftOver(AfterRetry(fates, tries).value, k - 1, tries);
      }
    }
  }

  lemma FailsAtMeans(fates: seq<Fate>, n: nat, tries: nat, k: nat)
    requires var left := AfterRequests(fates, k, tries); left.Some? ==> forall f :: f in left.value ==> !f.Stale?
    ensures FailsAt(fates, n, tries, k) <==>
              k < n && var left := AfterRequests(fates, k, tries);
                       left.Some? && forall j :: 0 <= j < tries && j < |left.value| ==> !left.value[j].Delivered?
  {
    var left := AfterRequests(fates, k, tries);
    if left.Some? {
      AfterRetryWhen(left.value, tries);
    }
  }

  lemma BlocksHonest(c: Chan, w: World, offset: uint32, data: seq<byte>)
    requires LawfulZlib(w) && |Content(w, data)| < 0x1_0000_0000 && Honest(c)
    ensures Honest(Blocks(c, w, offset, data).0)
  {
    hide RawBlocks, StreamBlocks, LawfulZlib, Padded, Honest, PartlyWritten, Taken, Splice, Erased;
    if w.stub {
      StreamBlocksRun(c, w, offset, data);
    } else {
      PaddedWhole(data);
      RawBlocksRun(c, w, offset, Content(w, data));
    }
  }

  lemma PaddedWhole(data: seq<byte>)
    ensures |Padded(data, BlockSize(false))| % BlockSize(false) == 0
  {
  }

  // ---------------------------------------------------------------- in particular

  /** The next `n` exchanges are delivered in both directions. */
  predicate Clear(c: Chan, n: nat) {
    n <= |c.fates| && forall i :: 0 <= i < n ==> c.fates[i].Delivered?
  }

  lemma {:induction false} ClearCarries(fates: seq<Fate>, n: nat, tries: nat)
    requires tries > 0 && n <= |fates| && forall i :: 0 <= i < n ==> fates[i].Delivered?
    ensures AfterRequests(fates, n, tries) == Some(fates[n..])
    decreases n
  {
    if n > 0 {
      ClearCarries(fates[1..], n - 1, tries);
    }
  }

  /** Over a link that works, a write within the flash succeeds, in either mode. */
  lemma WriteSucceeds(c: Chan, w: World, offset: uint32, data: seq<byte>)
    requires LawfulZlib(w) && LawfulMd5(w) && Clear(c, Requests(w, data) + 2)
    requires |Content(w, data)| < 0x1_0000_0000 && offset + |Content(w, data)| <= |c.dev.flash|
    ensures WriteOne(c, w, offset, data).1.None?
  {
    hide LawfulZlib, LawfulMd5, Requests, Content, WriteOne;
    ClearCarries(c.fates[1..], Requests(w, data), Tries(w));
    WriteSucceedsExactly(c, w, offset, data);
  }
}
