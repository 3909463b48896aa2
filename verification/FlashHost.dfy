/** The host's side of flashing: padding, block splitting, retries, the digest check at the end. */
module FlashHost {
  import opened Bytes
  import opened Protocol
  import opened FlashDevice
  import opened FlashLink
  import L = Loader
  import S = Slip

  datatype FlashError = BeginFailed | DataFailed(block: nat) | DigestFailed | ShortDigest | DigestMismatch

  const RETRIES := 3

  type BlockLen = n: nat | n == 0x400 || n == 0x4000 witness 0x400

  /** 16 KiB under the stub, 1 KiB on the ROM loader. */
  function BlockSize(stub: bool): BlockLen { if stub then 0x4000 else 0x400 }

  // ---------------------------------------------------------------- blocks

  /** The data, filled up with 0xFF to whole blocks. */
  function Padded(data: seq<byte>, bs: BlockLen): (r: seq<byte>)
    ensures data <= r && |r| % bs == 0 && |r| < |data| + bs
    ensures forall i :: |data| <= i < |r| ==> r[i] == 0xFF
  {
    var rem := |data| % bs;
    if rem == 0 then data else data + Fill(bs - rem, 0xFF)
  }

  function CountBlocks(n: nat, bs: BlockLen): nat { (n + bs - 1) / bs }

  /** Pieces of `bs` bytes, the last one possibly shorter. */
  function Chunks(s: seq<byte>, bs: BlockLen): (cs: seq<seq<byte>>)
    ensures |cs| == CountBlocks(|s|, bs)
    ensures forall i :: 0 <= i < |cs| ==> 0 < |cs[i]| <= bs
    decreases |s|
  {
    if s == [] then [] else if |s| <= bs then [s] else [s[..bs]] + Chunks(s[bs..], bs)
  }

  lemma {:induction false} ChunksJoin(s: seq<byte>, bs: BlockLen)
    ensures Flat(Chunks(s, bs)) == s
    decreases |s|
  {
    if 0 < |s| <= bs {
      FlatOne(s);
    } else if |s| > bs {
      ChunksJoin(s[bs..], bs);
    }
  }

  function ChunkEnd(n: nat, bs: BlockLen, i: nat): nat {
    if (i + 1) * bs <= n then (i + 1) * bs else n
  }

  /** Where chunk `i` stands, and what stands in front of it. */
  lemma {:induction false} ChunkAt(s: seq<byte>, bs: BlockLen, i: nat)
    requires i < CountBlocks(|s|, bs)
    ensures i * bs < |s|
    ensures Chunks(s, bs)[i] == s[i * bs..ChunkEnd(|s|, bs, i)]
    ensures Flat(Chunks(s, bs)[..i]) == s[..i * bs]
    decreases |s|
  {
    if i > 0 {
      ChunkAt(s[bs..], bs, i - 1);
      NotNegative(i - 1, bs);
      ChunkShift(s, bs, i);
      FrontShift(s, bs, i);
    }
  }

  lemma NotNegative(i: nat, bs: BlockLen)
    ensures i * bs >= 0
  {
  }

  lemma Times(i: int, bs: BlockLen)
    ensures (i + 1) * bs == i * bs + bs && i * bs == (i - 1) * bs + bs
  {
  }

  lemma ShiftedEnd(n: nat, bs: BlockLen, i: nat)
    requires 0 < i && (i - 1) * bs < n - bs
    ensures bs + ChunkEnd(n - bs, bs, i - 1) == ChunkEnd(n, bs, i)
  {
    Times(i, bs);
  }

  lemma ChunkShift(s: seq<byte>, bs: BlockLen, i: nat)
    requires 0 < i < CountBlocks(|s|, bs) && 0 <= (i - 1) * bs < |s| - bs
    ensures i * bs < |s| && i * bs == bs + (i - 1) * bs
    ensures Chunks(s, bs)[i] == Chunks(s[bs..], bs)[i - 1]
    ensures s[bs..][(i - 1) * bs..ChunkEnd(|s| - bs, bs, i - 1)] == s[i * bs..ChunkEnd(|s|, bs, i)]
  {
    hide ChunkEnd, CountBlocks, Chunks;
    Times(i, bs);
    ShiftedEnd(|s|, bs, i);
    EndInside(|s| - bs, bs, i - 1);
    SliceOfDrop(s, bs, (i - 1) * bs, ChunkEnd(|s| - bs, bs, i - 1));
    FirstChunk(s, bs);
  }

  lemma FirstChunk(s: seq<byte>, bs: BlockLen)
    requires |s| > bs
    ensures Chunks(s, bs) == [s[..bs]] + Chunks(s[bs..], bs)
  {
    hide CountBlocks;
  }

  lemma EndInside(n: nat, bs: BlockLen, i: nat)
    requires i * bs < n
    ensures i * bs <= ChunkEnd(n, bs, i) <= n
  {
    Times(i, bs);
  }

  lemma FrontShift(s: seq<byte>, bs: BlockLen, i: nat)
    requires 0 < i < CountBlocks(|s|, bs) && i * bs == bs + (i - 1) * bs < |s|
    requires Flat(Chunks(s[bs..], bs)[..i - 1]) == s[bs..][..(i - 1) * bs]
    ensures Flat(Chunks(s, bs)[..i]) == s[..i * bs]
  {
    hide Flat;
    FrontStep(s[..bs], Chunks(s[bs..], bs), i - 1);
    assert Chunks(s, bs)[..i] == ([s[..bs]] + Chunks(s[bs..], bs))[..i];
    TakeBehind(s, bs, (i - 1) * bs);
  }

  lemma FrontStep(a: seq<byte>, ds: seq<seq<byte>>, k: nat)
    requires k <= |ds|
    ensures Flat(([a] + ds)[..k + 1]) == a + Flat(ds[..k])
  {
    assert ([a] + ds)[..k + 1][1..] == ds[..k];
  }

  lemma TakeBehind(s: seq<byte>, n: nat, m: nat)
    requires n + m <= |s|
    ensures s[..n] + s[n..][..m] == s[..n + m]
  {
  }

  // ---------------------------------------------------------------- requests

  function BeginRequest(cmd: byte, size: uint32, blocks: uint32, bs: BlockLen, offset: uint32, fifth: bool): Request {
    Request(cmd, Le32(size) + Le32(blocks) + Le32(bs) + Le32(offset) + (if fifth then Fill(4, 0) else []), 0)
  }

  /** `flashBegin`: all in 32 bits; the ROM loader wants a fifth word. */
  function RawBegin(size: uint32, offset: uint32, stub: bool): Request {
    var bs := BlockSize(stub);
    BeginRequest(FLASH_BEGIN, size, ToUint32(size + bs - 1) / bs, bs, offset, !stub)
  }

  function DigestRequest(offset: uint32, size: uint32): Request {
    Request(SPI_FLASH_MD5, Le32(offset) + Le32(size) + Fill(8, 0), 0)
  }

  /** Rounding a whole number of blocks up does not wrap, and loses nothing. */
  lemma WholeBlocks(size: uint32, bs: BlockLen)
    requires size % bs == 0
    ensures ToUint32(size + bs - 1) / bs * bs == size
  {
  }

  // ---------------------------------------------------------------- the exchanges, as functions

  /** Up to `tries` attempts at one request, until one is answered. */
  function Retry(c: Chan, r: Request, w: World, tries: nat): (Chan, bool)
    decreases tries
  {
    if tries == 0 then (c, false) else
      var (c1, answer) := Ask(c, r, w);
      if answer.Some? then (c1, true) else Retry(c1, r, w, tries - 1)
  }

  /** Requests `i` and following, each with its retries; the index of the first that fails. */
  function SendFrom(c: Chan, rs: seq<Request>, i: nat, w: World, tries: nat): (Chan, Option<nat>)
    requires i <= |rs|
    decreases |rs| - i
  {
    if i == |rs| then (c, None) else
      var (c1, ok) := Retry(c, rs[i], w, tries);
      if ok then SendFrom(c1, rs, i + 1, w, tries) else (c1, Some(i))
  }

  /** `flashMD5`: the digest in hex, from either form of the answer. */
  function DigestOf(payload: seq<byte>): Option<seq<byte>> {
    if |payload| >= 32 then Some(ToLower(payload[..32]))
    else if |payload| >= 16 then Some(Hex(payload[..16], false))
    else None
  }

  function Verify(c: Chan, w: World, offset: uint32, size: uint32, want: seq<byte>): (Chan, Option<FlashError>) {
    var (c1, answer) := Ask(c, DigestRequest(offset, size), w);
    match answer
    case None => (c1, Some(DigestFailed))
    case Some(payload) =>
      match DigestOf(payload)
      case None => (c1, Some(ShortDigest))
      case Some(got) => (c1, if got == Hex(want, false) then None else Some(DigestMismatch))
  }

  function RawRequests(padded: seq<byte>, bs: BlockLen): seq<Request> {
    DataRequests(FLASH_DATA, Chunks(padded, bs), 0)
  }

  /** Begin and blocks of a raw write. */
  function RawBlocks(c: Chan, w: World, offset: uint32, padded: seq<byte>): (Chan, Option<FlashError>) {
    var (c1, answer) := Ask(c, RawBegin(ToUint32(|padded|), offset, w.stub), w);
    if answer.None? then (c1, Some(BeginFailed)) else
      var (c2, failed) := SendFrom(c1, RawRequests(padded, BlockSize(w.stub)), 0, w, RETRIES);
      (c2, if failed.Some? then Some(DataFailed(failed.value)) else None)
  }

  function WriteRaw(c: Chan, w: World, offset: uint32, data: seq<byte>): (Chan, Option<FlashError>) {
    var padded := Padded(data, BlockSize(w.stub));
    var (c1, err) := RawBlocks(c, w, offset, padded);
    if err.Some? then (c1, err) else Verify(c1, w, offset, ToUint32(|padded|), w.md5(padded))
  }

  function StreamBegin(comp: seq<byte>, size: uint32, offset: uint32, stub: bool): Request {
    var bs := BlockSize(stub);
    BeginRequest(FLASH_DEFL_BEGIN, size, ToUint32(CountBlocks(|comp|, bs)), bs, offset, false)
  }

  function StreamRequests(comp: seq<byte>, bs: BlockLen): seq<Request> {
    DataRequests(FLASH_DEFL_DATA, Chunks(comp, bs), 0)
  }

  /** Begin and chunks of a compressed write: nothing is sent twice. */
  function StreamBlocks(c: Chan, w: World, offset: uint32, data: seq<byte>): (Chan, Option<FlashError>) {
    var comp := w.deflate(data);
    var (c1, answer) := Ask(c, StreamBegin(comp, ToUint32(|data|), offset, w.stub), w);
    if answer.None? then (c1, Some(BeginFailed)) else
      var (c2, failed) := SendFrom(c1, StreamRequests(comp, BlockSize(w.stub)), 0, w, 1);
      (c2, if failed.Some? then Some(DataFailed(failed.value)) else None)
  }

  function WriteCompressed(c: Chan, w: World, offset: uint32, data: seq<byte>): (Chan, Option<FlashError>) {
    var (c1, err) := StreamBlocks(c, w, offset, data);
    if err.Some? then (c1, err) else Verify(c1, w, offset, ToUint32(|data|), w.md5(data))
  }

  function WriteOne(c: Chan, w: World, offset: uint32, data: seq<byte>): (Chan, Option<FlashError>) {
    if w.stub then WriteCompressed(c, w, offset, data) else WriteRaw(c, w, offset, data)
  }

  datatype Image = Image(offset: uint32, data: seq<byte>)

  /** The write loop of the flash command: stops at the first image that fails. */
  function WriteImages(c: Chan, w: World, images: seq<Image>): (Chan, Option<FlashError>)
    decreases |images|
  {
    if images == [] then (c, None) else
      var (c1, err) := WriteOne(c, w, images[0].offset, images[0].data);
      if err.Some? then (c1, err) else WriteImages(c1, w, images[1..])
  }

  // ---------------------------------------------------------------- the methods

  /** The host with its loader, and at the other end of the line the chip, the fates to come and
      their particulars. */
  class Flasher {
    const l: L.Loader
    const ticks: nat
    var chan: Chan
    var air: seq<Air>

    constructor (l: L.Loader, ticks: nat, chan: Chan, air: seq<Air>)
      ensures this.l == l && this.ticks == ticks && this.chan == chan && this.air == air
    {
      this.l, this.ticks, this.chan, this.air := l, ticks, chan, air;
    }

    /** Host and chip are in the same mode, and each fate has particulars that bring it about. */
    ghost predicate Linked(w: World)
      reads this, l
    {
      && l.stub == w.stub && ticks >= 1 && LawfulMd5(w)
      && |air| == |chan.fates| && forall i :: 0 <= i < |air| ==> Fits(air[i], chan.fates[i], w.stub, ticks)
    }

    /** And nothing is waiting in the input. */
    ghost predicate Ready(w: World)
      reads this, l, l.t
    {
      Linked(w) && l.t.rx == []
    }

    /** One command on the wire. What the channel will do is set up first; then the host's own
        `command` runs against it. */
    method Command(r: Request, w: World) returns (answer: Option<seq<byte>>)
      requires Ready(w) && |r.data| < 0x1_0000
      modifies this, l.t
      ensures Linked(w) && (answer.Some? ==> Ready(w))
      ensures (chan, answer) == Ask(old(chan), r, w)
      ensures |chan.seen| > |old(chan.seen)| ==>
                |l.t.tx| >= |old(l.t.tx)| && Heard(l.t.tx[|old(l.t.tx)|..]) == Some(r)
    {
      hide Exec, Fits, Packet, S.Frame, Heard, LawfulMd5;
      ghost var before, tx := chan, l.t.tx;
      if chan.fates == [] {
        SilenceTimesOut(l.t.writes, tx, r, w.stub, ticks);
      } else {
        AskIsCommand(chan, r, w, air[0], tx, ticks);
        l.t.rx := Arrives(chan.dev, r, w, chan.fates[0], air[0]);
        l.t.writes := air[0].writes;
        chan := Ask(chan, r, w).0;
        air := air[1..];
      }
      var result := l.Command(r.cmd, r.data, r.chk, ticks);
      answer := Payload(result, l.stub);
      HeardAsMeant(r);
      assert (tx + S.Frame(Packet(r)))[|tx|..] == S.Frame(Packet(r));
    }

    method FlashBegin(size: uint32, offset: uint32, w: World) returns (ok: bool)
      requires Ready(w)
      modifies this, l.t
      ensures Linked(w) && (ok ==> Ready(w))
      ensures (chan, ok) == (Ask(old(chan), RawBegin(size, offset, w.stub), w).0, Ask(old(chan), RawBegin(size, offset, w.stub), w).1.Some?)
    {
      hide Ask, Fits;
      var bs := BlockSize(w.stub);
      var numBlocks := ToUint32(size + bs - 1) / bs;
      var fifth := if w.stub then [] else Fill(4, 0);
      var answer := Command(Request(FLASH_BEGIN, Le32(size) + Le32(numBlocks) + Le32(bs) + Le32(offset) + fifth, 0), w);
      ok := answer.Some?;
    }

    method FlashBlock(cmd: byte, i: nat, block: seq<byte>, w: World) returns (ok: bool)
      requires Ready(w) && |block| <= 0x4000
      modifies this, l.t
      ensures Linked(w) && (ok ==> Ready(w))
      ensures (chan, ok) == (Ask(old(chan), DataRequest(cmd, i, block), w).0, Ask(old(chan), DataRequest(cmd, i, block), w).1.Some?)
    {
      hide Ask, Fits;
      var chk := Checksum(block);
      var answer := Command(Request(cmd, Header(|block|, i) + block, chk), w);
      ok := answer.Some?;
    }

    method FlashMd5(offset: uint32, size: uint32, want: seq<byte>, w: World) returns (err: Option<FlashError>)
      requires Ready(w)
      modifies this, l.t
      ensures Linked(w) && (err.None? ==> Ready(w))
      ensures (chan, err) == Verify(old(chan), w, offset, size, want)
    {
      hide Ask, Fits;
      var answer := Command(Request(SPI_FLASH_MD5, Le32(offset) + Le32(size) + Fill(8, 0), 0), w);
      if answer.None? {
        return Some(DigestFailed);
      }
      var p := answer.value;
      var got;
      if |p| >= 32 {
        got := ToLower(p[..32]);
      } else if |p| >= 16 {
        got := Hex(p[..16], false);
      } else {
        return Some(ShortDigest);
      }
      err := if got == Hex(want, false) then None else Some(DigestMismatch);
    }

    method WriteFlashRaw(offset: uint32, data: seq<byte>, w: World) returns (err: Option<FlashError>)
      requires Ready(w)
      modifies this, l.t
      ensures Linked(w) && (err.None? ==> Ready(w))
      ensures (chan, err) == WriteRaw(old(chan), w, offset, data)
    {
      hide Ask, DataRequest, XorAll, Le, Linked;
      var bs := BlockSize(w.stub);
      var padded := Pad(data, bs);
      var size := ToUint32(|padded|);
      var begun := FlashBegin(size, offset, w);
      if !begun {
        return Some(BeginFailed);
      }
      var total := |padded| / bs;
      ghost var rs, start := RawRequests(padded, bs), chan;
      for i := 0 to total
        invariant Ready(w)
        invariant SendFrom(start, rs, 0, w, RETRIES) == SendFrom(chan, rs, i, w, RETRIES)
      {
        ChunkAt(padded, bs, i);
        DataRequestAt(FLASH_DATA, Chunks(padded, bs), 0, i);
        BlockSlice(|padded|, bs, i);
        var block := padded[i * bs..(i + 1) * bs];
        ghost var before := chan;
        var ok := false;
        var attempt := 0;
        while attempt < 3 && !ok
          invariant 0 <= attempt <= 3 && Ready(w)
          invariant Retry(before, rs[i], w, RETRIES) == if ok then (chan, true) else Retry(chan, rs[i], w, 3 - attempt)
        {
          ok := FlashBlock(FLASH_DATA, i, block, w);
          if !ok {
            l.t.FlushInput();
          }
          attempt := attempt + 1;
        }
        if !ok {
          return Some(DataFailed(i));
        }
      }
      err := FlashMd5(offset, size, w.md5(padded), w);
    }

    method WriteFlashCompressed(offset: uint32, data: seq<byte>, w: World) returns (err: Option<FlashError>)
      requires Ready(w)
      modifies this, l.t
      ensures Linked(w) && (err.None? ==> Ready(w))
      ensures (chan, err) == WriteCompressed(old(chan), w, offset, data)
    {
      hide Ask, DataRequest, XorAll, Le, Linked;
      var comp := w.deflate(data);
      var bs := BlockSize(w.stub);
      var numBlocks := (|comp| + bs - 1) / bs;
      var answer := Command(StreamBegin(comp, ToUint32(|data|), offset, w.stub), w);
      if answer.None? {
        return Some(BeginFailed);
      }
      ghost var rs, start := StreamRequests(comp, bs), chan;
      for i := 0 to numBlocks
        invariant Ready(w)
        invariant SendFrom(start, rs, 0, w, 1) == SendFrom(chan, rs, i, w, 1)
      {
        ChunkAt(comp, bs, i);
        DataRequestAt(FLASH_DEFL_DATA, Chunks(comp, bs), 0, i);
        var first := i * bs;
        var end := (i + 1) * bs;
        if end > |comp| {
          end := |comp|;
        }
        ghost var before := chan;
        var ok := FlashBlock(FLASH_DEFL_DATA, i, comp[first..end], w);
        OneTry(before, rs[i], w);
        if !ok {
          return Some(DataFailed(i));
        }
      }
      err := FlashMd5(offset, ToUint32(|data|), w.md5(data), w);
    }

    method WriteFlash(offset: uint32, data: seq<byte>, w: World) returns (err: Option<FlashError>)
      requires Ready(w)
      modifies this, l.t
      ensures Linked(w) && (err.None? ==> Ready(w))
      ensures (chan, err) == WriteOne(old(chan), w, offset, data)
    {
      if w.stub {
        err := WriteFlashCompressed(offset, data, w);
      } else {
        err := WriteFlashRaw(offset, data, w);
      }
    }

    /** The loop over the images of a build. */
    method WriteAll(images: seq<Image>, w: World) returns (err: Option<FlashError>)
      requires Ready(w)
      modifies this, l.t
      ensures Linked(w) && (err.None? ==> Ready(w))
      ensures (chan, err) == WriteImages(old(chan), w, images)
    {
      hide WriteRaw, WriteCompressed, Linked;
      for i := 0 to |images|
        invariant Ready(w)
        invariant WriteImages(old(chan), w, images) == WriteImages(chan, w, images[i..])
      {
        assert images[i..][0] == images[i] && images[i..][1..] == images[i + 1..];
        err := WriteFlash(images[i].offset, images[i].data, w);
        if err.Some? {
          return;
        }
      }
      return None;
    }
  }

  lemma OneTry(c: Chan, r: Request, w: World)
    ensures Retry(c, r, w, 1) == (Ask(c, r, w).0, Ask(c, r, w).1.Some?)
  {
    hide Ask;
  }

  lemma BlockSlice(n: nat, bs: BlockLen, i: nat)
    requires n % bs == 0 && i < n / bs
    ensures (i + 1) * bs <= n
  {
  }

  method Pad(data: seq<byte>, bs: BlockLen) returns (padded: seq<byte>)
    ensures padded == Padded(data, bs)
  {
    padded := data;
    var rem := |data| % bs;
    if rem != 0 {
      var buf := new byte[|data| + bs - rem](_ => 0);
      CopyInto(buf, 0, data);
      for i := |data| to buf.Length
        invariant buf[..|data|] == data
        invariant forall k :: |data| <= k < i ==> buf[k] == 0xFF
      {
        buf[i] := 0xFF;
      }
      padded := buf[..];
    }
  }

  /** Every DATA request of a write fits the 16-bit length field, so the chip reads each one as it
      was meant. */
  lemma BlocksReachChip(cmd: byte, s: seq<byte>, bs: BlockLen, k: nat)
    requires k < CountBlocks(|s|, bs)
    ensures var r := DataRequests(cmd, Chunks(s, bs), 0)[k];
            Heard(S.Frame(Packet(r))) == Some(r) && ParseData(r, cmd, ToUint32(k)) == Some(Chunks(s, bs)[k])
  {
    hide Packet, Heard, ParseData, XorAll, Le;
    var block := Chunks(s, bs)[k];
    DataRequestAt(cmd, Chunks(s, bs), 0, k);
    DataRequestParses(cmd, k, block);
    HeardAsMeant(DataRequest(cmd, k, block));
  }
}
