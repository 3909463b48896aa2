/** The digest check over a link that may do anything to the blocks, and a whole flashing run:
    every image where it belongs, nothing else touched. */
module FlashImages {
  import opened Bytes
  import opened Protocol
  import opened FlashDevice
  import opened FlashHost
  import opened FlashRuns
  import opened FlashStream

  // ---------------------------------------------------------------- the digest

  /** Either form of the chip's answer, in either case of letters, is the digest in hex. */
  lemma DigestRead(w: World, data: seq<byte>)
    requires LawfulMd5(w)
    ensures DigestOf(DigestPayload(w, data)) == Some(Hex(w.md5(data), false))
  {
    var p := DigestPayload(w, data);
    if w.stub {
      assert p[..16] == p;
    } else {
      LowerHex(w.md5(data), w.upperCase);
      assert p[..32] == p;
    }
  }

  lemma DigestParses(offset: uint32, size: uint32)
    ensures var r := DigestRequest(offset, size);
            r.cmd == SPI_FLASH_MD5 && |r.data| >= 8 && Word(r.data, 0) == offset && Word(r.data, 1) == size
  {
    hide Le, FromLe;
    var d := DigestRequest(offset, size).data;
    assert d[0..4] == Le32(offset) && d[4..8] == Le32(size);
    Le32RoundTrip(offset);
    Le32RoundTrip(size);
  }

  lemma DigestRuns(d: Device, offset: uint32, size: uint32, w: World)
    ensures Exec(d, DigestRequest(offset, size), w)
         == (d, if offset + size > |d.flash| then None else Some(DigestPayload(w, d.flash[offset..offset + size])))
  {
    hide DigestRequest, Word, DigestPayload;
    DigestParses(offset, size);
  }

  /** If the digest exchange itself is delivered, the host is satisfied exactly when the digest of
      what is in the region is the digest it wanted. */
  lemma DigestDecides(c: Chan, w: World, offset: uint32, size: uint32, content: seq<byte>)
    requires LawfulMd5(w) && c.fates != [] && c.fates[0].Delivered?
    ensures Verify(c, w, offset, size, w.md5(content)).1.None?
       <==> offset + size <= |c.dev.flash| && w.md5(c.dev.flash[offset..offset + size]) == w.md5(content)
  {
    hide DigestRequest, Exec, DigestPayload, DigestOf, Hex;
    DigestRuns(c.dev, offset, size, w);
    if offset + size <= |c.dev.flash| {
      var region := c.dev.flash[offset..offset + size];
      DigestRead(w, region);
      if Hex(w.md5(region), false) == Hex(w.md5(content), false) {
        HexInjective(w.md5(region), w.md5(content));
      }
    }
  }

  /** What a write is meant to leave in its region: padded to whole blocks on the ROM loader. */
  function Content(w: World, data: seq<byte>): seq<byte> {
    if w.stub then data else Padded(data, BlockSize(false))
  }

  /** Begin and blocks in either mode. */
  function Blocks(c: Chan, w: World, offset: uint32, data: seq<byte>): (Chan, Option<FlashError>) {
    if w.stub then StreamBlocks(c, w, offset, data) else RawBlocks(c, w, offset, Content(w, data))
  }

  /** Whatever became of the blocks, stale answers included: once they count as sent, the write
      succeeds exactly when the region has the digest of the content. */
  lemma SuccessMeansDigest(c: Chan, w: World, offset: uint32, data: seq<byte>)
    requires LawfulMd5(w) && |Content(w, data)| < 0x1_0000_0000
    requires var (c1, err) := Blocks(c, w, offset, data);
             err.None? && c1.fates != [] && c1.fates[0].Delivered?
    ensures var flash, size := Blocks(c, w, offset, data).0.dev.flash, |Content(w, data)|;
            WriteOne(c, w, offset, data).1.None?
            <==> offset + size <= |flash| && w.md5(flash[offset..offset + size]) == w.md5(Content(w, data))
  {
    hide StreamBlocks, RawBlocks, Verify, Padded, LawfulMd5;
    var c1 := Blocks(c, w, offset, data).0;
    DigestDecides(c1, w, offset, |Content(w, data)|, Content(w, data));
  }

  /** What any answer to the digest command is worth, stale or wrong ones included: 32 characters or
      more count as hex digits in either case, 16 or more as the digest itself, fewer as an error. */
  lemma DigestAnswer(c: Chan, w: World, offset: uint32, data: seq<byte>)
    requires LawfulMd5(w) && |Content(w, data)| < 0x1_0000_0000 && Blocks(c, w, offset, data).1.None?
    ensures var content := Content(w, data);
            var (c2, answer) := Ask(Blocks(c, w, offset, data).0, DigestRequest(offset, |content|), w);
            WriteOne(c, w, offset, data) == (c2,
              match answer
              case None => Some(DigestFailed)
              case Some(p) =>
                if |p| < 16 then Some(ShortDigest)
                else if |p| < 32 then if p[..16] == w.md5(content) then None else Some(DigestMismatch)
                else if ToLower(p[..32]) == Hex(w.md5(content), false) then None else Some(DigestMismatch))
  {
    hide StreamBlocks, RawBlocks, Ask, Padded, LawfulMd5, Hex, DigestRequest;
    var content := Content(w, data);
    var answer := Ask(Blocks(c, w, offset, data).0, DigestRequest(offset, |content|), w).1;
    SixteenBytes(w, content);
    if answer.Some? && 16 <= |answer.value| < 32 && Hex(answer.value[..16], false) == Hex(w.md5(content), false) {
      HexInjective(answer.value[..16], w.md5(content));
    }
  }

  lemma SixteenBytes(w: World, content: seq<byte>)
    requires LawfulMd5(w)
    ensures |w.md5(content)| == 16
  {
  }

  // ---------------------------------------------------------------- one image

  datatype Extent = Extent(from: nat, to: nat)

  /** The sectors an image touches. */
  function Sectors(w: World, img: Image): Extent {
    Extent(Down(img.offset), Up(img.offset + |Content(w, img.data)|))
  }

  predicate Outside(k: int, e: Extent) { k < e.from || e.to <= k }

  predicate InPlace(flash: seq<byte>, offset: nat, content: seq<byte>) {
    offset + |content| <= |flash| && flash[offset..offset + |content|] == content
  }

  lemma InsideSectors(offset: nat, size: nat)
    ensures Down(offset) <= offset && offset + size <= Up(offset + size)
  {
  }

  lemma SpliceStays(before: seq<byte>, offset: nat, size: nat, part: seq<byte>)
    requires |part| <= size && offset + size <= |before|
    ensures forall k :: 0 <= k < |before| && Outside(k, Extent(Down(offset), Up(offset + size))) ==>
              Splice(Erased(before, offset, size), offset, part)[k] == before[k]
  {
    hide Splice, Down, Up;
    InsideSectors(offset, size);
    var after := Splice(Erased(before, offset, size), offset, part);
    forall k | 0 <= k < |before| && Outside(k, Extent(Down(offset), Up(offset + size)))
      ensures after[k] == before[k]
    {
      SpliceAt(Erased(before, offset, size), offset, part, k);
    }
  }

  /** One write, in either mode: its sectors are all it touches, and success puts the content in place. */
  lemma OneWritten(c: Chan, w: World, img: Image)
    requires LawfulZlib(w) && Honest(c) && |Content(w, img.data)| < 0x1_0000_0000
    ensures var (c1, err) := WriteOne(c, w, img.offset, img.data);
            && Honest(c1) && |c1.dev.flash| == |c.dev.flash|
            && (forall k :: 0 <= k < |c.dev.flash| && Outside(k, Sectors(w, img)) ==> c1.dev.flash[k] == c.dev.flash[k])
            && (err.None? ==> InPlace(c1.dev.flash, img.offset, Content(w, img.data)))
  {
    hide Honest, LawfulZlib, WriteRaw, WriteCompressed, Splice, Erased, Padded, PartlyWritten;
    var offset, content := img.offset, Content(w, img.data);
    var size := |content|;
    if w.stub {
      StreamWrite(c, w, offset, img.data);
    } else {
      RawWrite(c, w, offset, img.data);
    }
    var (c1, err) := WriteOne(c, w, offset, img.data);
    if err.None? {
      SpliceStays(c.dev.flash, offset, size, content);
      SpliceHolds(Erased(c.dev.flash, offset, size), offset, content);
    } else if err.Some? {
      var reach := if w.stub then StreamReach(w, img.data, err.value) else RawReach(err.value, BlockSize(false), size);
      PartlyStays(c.dev.flash, c1.dev.flash, offset, content, reach);
    }
  }

  lemma SpliceHolds(e: seq<byte>, offset: nat, content: seq<byte>)
    requires offset + |content| <= |e|
    ensures InPlace(Splice(e, offset, content), offset, content)
  {
  }

  lemma PartlyStays(before: seq<byte>, after: seq<byte>, offset: nat, content: seq<byte>, reach: Reach)
    requires PartlyWritten(before, after, offset, content, reach)
    ensures |after| == |before|
    ensures forall k :: 0 <= k < |before| && Outside(k, Extent(Down(offset), Up(offset + |content|))) ==> after[k] == before[k]
  {
    hide Splice, Erased, Down, Up;
    var size := |content|;
    match reach {
      case NotBegun =>
        if after != before {
          SpliceStays(before, offset, size, []);
          SpliceNothing(Erased(before, offset, size), offset);
        }
      case Either(a, b) =>
        SpliceStays(before, offset, size, content[..a]);
        SpliceStays(before, offset, size, content[..b]);
    }
  }

  // ---------------------------------------------------------------- a list of images

  predicate Apart(a: Extent, b: Extent) { a.to <= b.from || b.to <= a.from }

  predicate AllApart(w: World, images: seq<Image>) {
    forall i, j :: 0 <= i < j < |images| ==> Apart(Sectors(w, images[i]), Sectors(w, images[j]))
  }

  predicate AllSmall(w: World, images: seq<Image>) {
    forall i :: 0 <= i < |images| ==> |Content(w, images[i].data)| < 0x1_0000_0000
  }

  predicate OutsideAll(w: World, images: seq<Image>, k: int) {
    forall i :: 0 <= i < |images| ==> Outside(k, Sectors(w, images[i]))
  }

  /** The whole flashing run over a link that loses either direction, in either transfer mode: if
      it succeeds, every image stands at its offset; in any case no byte outside their sectors has
      changed. */
  lemma {:induction false} ImagesWritten(c: Chan, w: World, images: seq<Image>)
    requires LawfulZlib(w) && Honest(c) && AllSmall(w, images) && AllApart(w, images)
    ensures var (c1, err) := WriteImages(c, w, images);
            && |c1.dev.flash| == |c.dev.flash|
            && (err.None? ==> forall i :: 0 <= i < |images| ==>
                                && InPlace(c1.dev.flash, images[i].offset, images[i].data)
                                && InPlace(c1.dev.flash, images[i].offset, Content(w, images[i].data)))
            && (forall k :: 0 <= k < |c.dev.flash| && OutsideAll(w, images, k) ==> c1.dev.flash[k] == c.dev.flash[k])
    decreases |images|
  {
    hide Honest, LawfulZlib, WriteOne, Content, InPlace, Sectors, Outside, Apart;
    if images != [] {
      var first, rest := images[0], images[1..];
      OneWritten(c, w, first);
      var (c1, err) := WriteOne(c, w, first.offset, first.data);
      OutsideParts(w, images);
      if err.None? {
        RestApart(w, images);
        ImagesWritten(c1, w, rest);
        var flash := WriteImages(c1, w, rest).0.dev.flash;
        StaysInPlace(w, images, c1.dev.flash, flash);
        DataInPlace(w, flash, first);
      }
    }
  }

  /** Images go out in the order of the list: two lists in a row are their concatenation, the second
      one begun only if the first succeeded, and one image is one write. */
  lemma {:induction false} ImagesInOrder(c: Chan, w: World, a: seq<Image>, b: seq<Image>)
    ensures WriteImages(c, w, a + b) == (var (c1, err) := WriteImages(c, w, a);
                                         if err.Some? then (c1, err) else WriteImages(c1, w, b))
    ensures |b| == 1 ==> WriteImages(c, w, b) == WriteOne(c, w, b[0].offset, b[0].data)
    decreases |a|
  {
    hide WriteOne;
    if |b| == 1 {
      assert b[1..] == [];
    }
    if a == [] {
      assert a + b == b;
    } else {
      assert (a + b)[0] == a[0] && (a + b)[1..] == a[1..] + b;
      ImagesInOrder(WriteOne(c, w, a[0].offset, a[0].data).0, w, a[1..], b);
    }
  }

  /** A run that fails has written all images in front of some image `k`, and then nothing reaches the
      chip but what the failed write of image `k` sent: the images behind it are not begun. */
  lemma {:induction false} FailureIsLast(c: Chan, w: World, images: seq<Image>) returns (k: nat)
    requires WriteImages(c, w, images).1.Some?
    ensures k < |images| && WriteImages(c, w, images[..k]).1.None?
    ensures WriteImages(c, w, images)
         == WriteOne(WriteImages(c, w, images[..k]).0, w, images[k].offset, images[k].data)
    decreases |images|
  {
    hide WriteOne;
    var (c1, err) := WriteOne(c, w, images[0].offset, images[0].data);
    k := 0;
    if err.None? {
      var j := FailureIsLast(c1, w, images[1..]);
      k := j + 1;
      assert images[..k][0] == images[0] && images[..k][1..] == images[1..][..j];
    }
  }

  lemma OutsideParts(w: World, images: seq<Image>)
    requires images != []
    ensures forall k :: OutsideAll(w, images, k) ==> Outside(k, Sectors(w, images[0])) && OutsideAll(w, images[1..], k)
  {
    hide Outside, Sectors;
  }

  lemma RestApart(w: World, images: seq<Image>)
    requires images != [] && AllApart(w, images) && AllSmall(w, images)
    ensures AllApart(w, images[1..]) && AllSmall(w, images[1..])
  {
    hide Apart, Sectors, Content;
  }

  /** The first image is not disturbed by writes to the sectors of the others. */
  lemma StaysInPlace(w: World, images: seq<Image>, before: seq<byte>, after: seq<byte>)
    requires images != [] && AllApart(w, images) && |before| == |after|
    requires InPlace(before, images[0].offset, Content(w, images[0].data))
    requires forall k :: 0 <= k < |before| && OutsideAll(w, images[1..], k) ==> after[k] == before[k]
    ensures InPlace(after, images[0].offset, Content(w, images[0].data))
  {
    hide Content, Down, Up;
    var offset, content := images[0].offset, Content(w, images[0].data);
    InsideSectors(offset, |content|);
    forall k | offset <= k < offset + |content|
      ensures after[k] == before[k]
    {
      forall i | 0 <= i < |images[1..]|
        ensures Outside(k, Sectors(w, images[1..][i]))
      {
        assert Apart(Sectors(w, images[0]), Sectors(w, images[i + 1]));
      }
      assert OutsideAll(w, images[1..], k);
    }
    assert after[offset..offset + |content|] == before[offset..offset + |content|];
  }

  /** The image's own data is there, whatever was padded behind it. */
  lemma DataInPlace(w: World, flash: seq<byte>, img: Image)
    requires InPlace(flash, img.offset, Content(w, img.data))
    ensures InPlace(flash, img.offset, img.data)
  {
    var content := Content(w, img.data);
    assert flash[img.offset..img.offset + |img.data|] == flash[img.offset..img.offset + |content|][..|img.data|];
  }
}
