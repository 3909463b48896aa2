/** The builder itself: pages that are filled in place, and the partition that owns them. */
module NvsBuilder {
  import opened Bytes
  import opened Crc32
  import opened NvsFormat
  import opened NvsImage
  import P = NvsPartition

  class Page {
    const buf: array<byte>
    const num: uint32
    var n: int

    ghost var Contents: PageState

    ghost predicate Valid()
      reads this, buf
    {
      && Contents.Valid()
      && buf.Length == PAGE_SIZE && buf[..] == Layout(Contents)
      && n == |Contents.slots| && num == Contents.num
    }

    constructor (num: uint32)
      ensures Valid() && fresh(buf) && Contents == NewPage(num)
    {
      this.num := num;
      this.n := 0;
      buf := new byte[PAGE_SIZE](_ => 0xFF);
      Contents := NewPage(num);
      new;
      assert buf[..] == Fill(PAGE_SIZE, 0xFF) == Layout(Contents) by { EmptyLayout(num); }
    }

    function Free(): int
      requires Valid()
      reads this, buf
      ensures Free() == Contents.Free()
    {
      ENTRY_COUNT - n
    }

    method WriteEntry(e: seq<byte>)
      requires Valid() && Free() > 0 && |e| == ENTRY_SIZE
      modifies this`n, this`Contents, buf
      ensures Valid() && Contents == Append(old(Contents), e)
    {
      AppendLayout(Contents, e);
      var off := SlotAt(n);
      CopyInto(buf, off, e);
      var bit := n * 2;
      buf[32 + bit / 8] := ClearBit(buf[32 + bit / 8], bit % 8);
      n := n + 1;
      Contents := Append(Contents, e);
    }

    method Finalize(state: uint32)
      requires Valid()
      modifies this`Contents, buf
      ensures Valid() && Contents == NvsImage.Finalize(old(Contents), state)
    {
      CopyInto(buf, 0, Le32(state));
      CopyInto(buf, 4, Le32(num));
      buf[8] := VERSION_V2;
      CopyInto(buf, 28, CrcBytes(buf[4..28]));
      ghost var before := Contents;
      Contents := NvsImage.Finalize(Contents, state);
      FinalizeBytes(before, state);
    }
  }

  lemma EmptyLayout(num: uint32)
    ensures Layout(NewPage(num)) == Fill(PAGE_SIZE, 0xFF)
  {
    assert Bitmap(0) == Fill(32, 0xFF);
  }

  /** The header bytes `finalize` stores one after the other. */
  lemma FinalizeBytes(pg: PageState, state: uint32)
    requires pg.Valid()
    ensures var stored := Splice(Splice(Layout(pg), 0, Le32(state)), 4, Le32(pg.num))[8 := VERSION_V2];
            Layout(NvsImage.Finalize(pg, state)) == Splice(stored, 28, CrcBytes(stored[4..28]))
  {
    hide CrcBytes, Le, Splice;
    var body := Layout(pg)[32..];
    var header := Splice(Splice(pg.header, 0, Le32(state)), 4, Le32(pg.num))[8 := VERSION_V2];
    assert Layout(pg) == pg.header + body;
    SpliceFront(pg.header, body, 0, Le32(state));
    SpliceFront(Splice(pg.header, 0, Le32(state)), body, 4, Le32(pg.num));
    var unversioned: seq<byte> := Splice(Splice(pg.header, 0, Le32(state)), 4, Le32(pg.num));
    var both: seq<byte> := unversioned + body;
    assert both[8 := VERSION_V2] == header + body;
    assert (header + body)[4..28] == header[4..28];
    SpliceFront(header, body, 28, CrcBytes(header[4..28]));
    HeaderBytes(pg, state);
    assert Layout(NvsImage.Finalize(pg, state)) == FinalHeader(pg, state) + body;
  }

  lemma SpliceFront(a: seq<byte>, b: seq<byte>, at: nat, part: seq<byte>)
    requires at + |part| <= |a|
    ensures Splice(a + b, at, part) == Splice(a, at, part) + b
  {
  }

  lemma HeaderBytes(pg: PageState, state: uint32)
    ensures var stored := Splice(Splice(pg.header, 0, Le32(state)), 4, Le32(pg.num))[8 := VERSION_V2];
            Splice(stored, 28, CrcBytes(stored[4..28])) == FinalHeader(pg, state)
  {
    hide CrcBytes, Le;
    var covered := Le32(pg.num) + [VERSION_V2] + pg.header[9..28];
    var stored := Splice(Splice(pg.header, 0, Le32(state)), 4, Le32(pg.num))[8 := VERSION_V2];
    assert stored == Le32(state) + covered + pg.header[28..];
    assert stored[4..28] == covered;
  }

  class Partition {
    const size: nat
    var pages: seq<Page>
    var nss: map<seq<byte>, byte>
    var nsN: byte

    ghost function Repr(): set<object>
      reads this`pages
    {
      {this as object} + (set pg: Page | pg in pages :: pg as object) + (set pg: Page | pg in pages :: pg.buf as object)
    }

    ghost predicate Valid()
      reads this, pages, set pg: Page | pg in pages :: pg.buf
    {
      Separate() && State().Valid()
    }

    /** Every page is in order, and no two of them share memory. */
    ghost predicate Separate()
      reads this`pages, pages, set pg: Page | pg in pages :: pg.buf
    {
      && (forall i :: 0 <= i < |pages| ==> pages[i].Valid())
      && (forall i, j :: 0 <= i < j < |pages| ==> pages[i] != pages[j] && pages[i].buf != pages[j].buf)
    }

    ghost function State(): P.Part
      reads this, pages
    {
      P.Part(size, States(pages), nss, nsN)
    }

    constructor (size: nat)
      requires P.New(size).Ok?
      ensures Valid() && fresh(Repr()) && State() == P.New(size).value
    {
      var first := new Page(0);
      this.size := size;
      pages := [first];
      nss := map[];
      nsN := 0;
    }

    lemma LastPage()
      requires Separate() && pages != []
      ensures pages[|pages| - 1].Valid() && pages[|pages| - 1].Contents == State().Last()
      ensures pages[|pages| - 1] in Repr() && pages[|pages| - 1].buf in Repr()
    {
    }

    method OpenPage(num: uint32) returns (pg: Page)
      requires Separate()
      modifies this`pages
      ensures Separate() && fresh(pg) && fresh(pg.buf) && pages == old(pages) + [pg]
      ensures State() == old(State()).(pages := old(State()).pages + [NewPage(num)])
      ensures forall o :: o in Repr() ==> o in old(Repr()) || fresh(o)
    {
      hide Layout, PageState.Valid, NewPage;
      pg := new Page(num);
      pages := pages + [pg];
      assert States(pages) == old(States(pages)) + [pg.Contents];
    }

    method Fit(span: nat) returns (pg: Page?, err: Option<P.Error>)
      requires Valid()
      modifies this`pages
      ensures Valid() && forall o :: o in Repr() ==> o in old(Repr()) || fresh(o)
      ensures match P.Fit(old(State()), span)
              case Err(e) => err == Some(e) && State() == old(State())
              case Ok(q) => err == None && State() == q && pages != [] && pg == pages[|pages| - 1]
      ensures pg != null ==> (pg in old(Repr()) || fresh(pg)) && (pg.buf in old(Repr()) || fresh(pg.buf))
    {
      hide Layout, NewPage, P.Part.Valid, Separate, Repr;
      PagesExist(State());
      LastPage();
      if span > ENTRY_COUNT {
        return null, Some(P.ItemTooLarge);
      }
      ghost var before := State();
      pg, err := pages[|pages| - 1], None;
      if pg.Free() < span {
        pg := OpenPage(ToUint32(pg.num + 1));
        assert P.Fit(before, span) == Ok(State());
      }
    }

    /** `pg.writeEntry(e)` on the page being filled. */
    method WriteToLast(pg: Page, e: seq<byte>)
      requires Separate() && pages != [] && pg == pages[|pages| - 1] && pg.Free() > 0 && |e| == ENTRY_SIZE
      modifies pg, pg.buf
      ensures Separate() && pages == old(pages)
      ensures State() == old(State()).WithLast(Append(old(State()).Last(), e))
    {
      hide Layout, PageState.Valid;
      pg.WriteEntry(e);
      assert States(pages) == old(States(pages))[|pages| - 1 := pg.Contents];
    }

    method WritePrimitive(nsIdx: byte, key: seq<byte>, typ: byte, val: int, width: nat, ghost value: Value)
      returns (err: Option<P.Error>)
      requires Valid()
      requires value.Int? && typ == TypeByte(value) && val == ToUint64(value.v) && width == Width(value.typ)
      modifies this, Repr()
      ensures Valid() && forall o :: o in Repr() ==> o in old(Repr()) || fresh(o)
      ensures (State(), err) == P.Write(old(State()), nsIdx, key, value)
    {
      hide Layout, NewPage, P.Part.Valid, Head, Separate, Repr, P.Fit, P.WriteSlots, Filled, ItemSlots;
      var pg;
      pg, err := Fit(1);
      if err.Some? {
        return;
      }
      ghost var q := State();
      var e;
      e, err := PrimitiveEntry(nsIdx, key, typ, val, width, value);
      if err.None? {
        HasRoom(old(State()), q, nsIdx, key, value);
        WriteToLast(pg, e);
        ghost var slots := ItemSlots(nsIdx, key, value);
        FilledStep(q, slots, 0);
        assert slots[..1] == slots;
      }
    }

    method WriteVar(nsIdx: byte, key: seq<byte>, typ: byte, data: seq<byte>, ghost value: Value)
      returns (err: Option<P.Error>)
      requires Valid()
      requires !value.Int? && typ == TypeByte(value) && data == Payload(value)
      modifies this, Repr()
      ensures Valid() && forall o :: o in Repr() ==> o in old(Repr()) || fresh(o)
      ensures (State(), err) == P.Write(old(State()), nsIdx, key, value)
    {
      hide Layout, NewPage, P.Part.Valid, Head, Separate, Repr, P.Fit, P.WriteSlots, Filled, ItemSlots;
      var dataEntries := (|data| + ENTRY_SIZE - 1) / ENTRY_SIZE;
      var span := 1 + dataEntries;
      var pg;
      pg, err := Fit(span);
      if err.Some? {
        return;
      }
      ghost var q := State();
      var e;
      e, err := VarEntry(nsIdx, key, typ, span, data, value);
      if err.Some? {
        return;
      }
      ghost var slots := ItemSlots(nsIdx, key, value);
      ItemDataSlots(nsIdx, key, value);
      HasRoom(old(State()), q, nsIdx, key, value);
      WriteToLast(pg, e);
      FilledStep(q, slots, 0);
      WriteData(pg, data, q, slots);
    }

    /** The loop of `writeVar`: the payload, 32 bytes to a slot, the last one padded. */
    method WriteData(pg: Page, data: seq<byte>, ghost q: P.Part, ghost slots: seq<Slot>)
      requires Separate() && pages != [] && pg == pages[|pages| - 1]
      requires |q.pages| > 0 && |slots| == 1 + DataEntries(data) <= q.Last().Free()
      requires forall i :: 0 <= i < DataEntries(data) ==> slots[i + 1] == Chunk(data, i)
      requires State() == Filled(q, slots[..1])
      modifies pg, pg.buf
      ensures Separate() && pages == old(pages) && State() == Filled(q, slots)
    {
      hide Layout, Separate, Filled, Chunk, DataEntries;
      var dataEntries := DataEntries(data);
      for i := 0 to dataEntries
        invariant Separate() && pages == old(pages) && State() == Filled(q, slots[..i + 1])
      {
        FilledRoom(q, slots, i + 1);
        var de := PaddedSlot(data, i);
        WriteToLast(pg, de);
        FilledStep(q, slots, i + 1);
      }
      assert slots[..dataEntries + 1] == slots;
    }

    method Namespace(name: seq<byte>) returns (idx: byte, err: Option<P.Error>)
      requires Valid()
      modifies this, Repr()
      ensures Valid() && forall o :: o in Repr() ==> o in old(Repr()) || fresh(o)
      ensures State() == P.Namespace(old(State()), name).0
      ensures P.Namespace(old(State()), name).1 == if err.None? then Ok(idx) else Err(err.value)
    {
      hide Layout, P.Part.Valid, Repr, P.Write, Separate;
      if name in nss {
        return nss[name], None;
      }
      nsN := (nsN + 1) % 0x100;
      idx := nsN;
      CounterKeepsValid(old(State()), nsN);
      IndexIsByte(idx);
      err := WritePrimitive(0, name, 0x01, idx, 1, Int(U8, idx));
      if err.Some? {
        return 0, err;
      }
      TableKeepsValid(State(), nss[name := idx]);
      nss := nss[name := idx];
    }

    /** All eight integer setters: `setInt` with the type byte, the widened value and the width. */
    method SetInt(ns: seq<byte>, key: seq<byte>, t: IntType, v: int) returns (err: Option<P.Error>)
      requires Valid() && InRange(t, v)
      modifies this, Repr()
      ensures Valid() && forall o :: o in Repr() ==> o in old(Repr()) || fresh(o)
      ensures (State(), err) == P.Set(old(State()), ns, key, Int(t, v))
    {
      hide Layout, P.Part.Valid, Repr, P.Write, Separate, P.Namespace;
      var idx;
      idx, err := Namespace(ns);
      if err.None? {
        err := WritePrimitive(idx, key, TypeByte(Int(t, v)), ToUint64(v), Width(t), Int(t, v));
      }
    }

    method SetString(ns: seq<byte>, key: seq<byte>, val: seq<byte>) returns (err: Option<P.Error>)
      requires Valid()
      modifies this, Repr()
      ensures Valid() && forall o :: o in Repr() ==> o in old(Repr()) || fresh(o)
      ensures (State(), err) == P.Set(old(State()), ns, key, Str(val))
    {
      hide Layout, P.Part.Valid, Repr, P.Write, Separate, P.Namespace;
      var idx;
      idx, err := Namespace(ns);
      if err.None? {
        err := WriteVar(idx, key, TYPE_STR, val + [0], Str(val));
      }
    }

    method SetBlob(ns: seq<byte>, key: seq<byte>, data: seq<byte>) returns (err: Option<P.Error>)
      requires Valid()
      modifies this, Repr()
      ensures Valid() && forall o :: o in Repr() ==> o in old(Repr()) || fresh(o)
      ensures (State(), err) == P.Set(old(State()), ns, key, Blob(data))
    {
      hide Layout, P.Part.Valid, Repr, P.Write, Separate, P.Namespace;
      var idx;
      idx, err := Namespace(ns);
      if err.None? {
        err := WriteVar(idx, key, TYPE_BLOB, data, Blob(data));
      }
    }

    /** `pg.finalize(state)` on one of the pages. */
    method FinalizePage(i: nat, state: uint32)
      requires Separate() && i < |pages|
      modifies pages[i], pages[i].buf
      ensures Separate()
      ensures States(pages) == old(States(pages))[i := NvsImage.Finalize(old(pages[i].Contents), state)]
    {
      hide Layout, PageState.Valid, NvsImage.Finalize;
      pages[i].Finalize(state);
    }

    /** Renders the image. The page headers are written into the pages themselves. */
    method Bytes() returns (img: array?<byte>, err: Option<P.Error>)
      requires Valid()
      modifies Repr()
      ensures Valid() && pages == old(pages)
      ensures State() == P.Render(old(State())).0
      ensures err.None? ==> img != null && fresh(img) && P.Render(old(State())).1 == Ok(img[..])
      ensures err.Some? ==> P.Render(old(State())).1 == Err(err.value)
    {
      hide Layout, PageState.Valid, NvsImage.Finalize, Separate, P.Part.Valid, Partial, Mixed, P.Finals, P.Image;
      ghost var before := State();
      var usable := size / PAGE_SIZE - 1;
      if |pages| > usable {
        return null, Some(P.TooManyPages);
      }
      img, err := new byte[size](_ => 0xFF), None;
      StartOfImage(before, img[..]);
      MixedEnds(before);
      for i := 0 to |pages|
        invariant Separate() && pages == old(pages) && nss == old(nss) && nsN == old(nsN) && fresh(img)
        invariant States(pages) == Mixed(before, i)
        invariant img[..] == Partial(before, i)
      {
        PageBytes(i);
        RenderPage(i, img, before);
      }
      MixedEnds(before);
      EndOfImage(before);
    }

    /** The loop body of `Bytes`. */
    method RenderPage(i: nat, img: array<byte>, ghost before: P.Part)
      requires Separate() && i < |pages| && before.Valid() && P.Renders(before) && |before.pages| == |pages|
      requires |before.pages| * PAGE_SIZE <= before.size
      requires States(pages) == Mixed(before, i)
      requires img !in Repr() && img[..] == Partial(before, i)
      modifies pages[i], pages[i].buf, img
      ensures Separate() && States(pages) == Mixed(before, i + 1) && img[..] == Partial(before, i + 1)
    {
      hide Layout, PageState.Valid, NvsImage.Finalize, Separate, P.Part.Valid, Partial, P.Finals;
      var state := STATE_ACTIVE;
      if i < |pages| - 1 {
        state := STATE_FULL;
      }
      PageBytes(i);
      ImageStep(before, i);
      FinalAt(before, i);
      MixedStep(before, i);
      FinalizePage(i, state);
      PageBytes(i);
      CopyInto(img, i * PAGE_SIZE, pages[i].buf[..]);
    }

    lemma PageBytes(i: nat)
      requires Separate() && i < |pages|
      ensures pages[i].Contents.Valid() && pages[i].buf[..] == Layout(pages[i].Contents)
      ensures States(pages)[i] == pages[i].Contents
      ensures pages[i] in Repr() && pages[i].buf in Repr() && pages[i].buf.Length == PAGE_SIZE
    {
    }
  }

  /** The image while it is being put together: the first `i` pages are in. */
  ghost function Partial(p: P.Part, i: nat): seq<byte>
    requires p.Valid() && i <= |p.pages| && |p.pages| * PAGE_SIZE <= p.size
  {
    Flat(P.Layouts(P.Finals(p))[..i]) + Fill(p.size - i * PAGE_SIZE, 0xFF)
  }

  /** The pages meanwhile: the first `i` are finalized. */
  ghost function Mixed(p: P.Part, i: nat): (s: seq<PageState>)
    requires p.Valid() && i <= |p.pages|
    ensures |s| == |p.pages|
  {
    P.Finals(p)[..i] + p.pages[i..]
  }

  lemma MixedStep(p: P.Part, i: nat)
    requires p.Valid() && i < |p.pages|
    ensures Mixed(p, i)[i] == p.pages[i]
    ensures Mixed(p, i + 1) == Mixed(p, i)[i := P.Finals(p)[i]]
  {
    hide P.Finals;
  }

  lemma MixedEnds(p: P.Part)
    requires p.Valid()
    ensures Mixed(p, 0) == p.pages && Mixed(p, |p.pages|) == P.Finals(p)
  {
    hide P.Finals;
  }

  lemma StartOfImage(p: P.Part, img: seq<byte>)
    requires p.Valid() && P.Renders(p) && img == Fill(p.size, 0xFF)
    ensures |p.pages| * PAGE_SIZE <= p.size && img == Partial(p, 0)
  {
  }

  lemma ImageStep(p: P.Part, i: nat)
    requires p.Valid() && P.Renders(p) && i < |p.pages|
    ensures |p.pages| * PAGE_SIZE <= p.size
    ensures |Partial(p, i)| == p.size && P.Finals(p)[i].Valid()
    ensures Partial(p, i + 1) == Splice(Partial(p, i), i * PAGE_SIZE, Layout(P.Finals(p)[i]))
  {
    hide Layout, P.Finals, Flat, Splice, Fill, P.Part.Valid, PageState.Valid;
    var bufs := P.Layouts(P.Finals(p));
    var free := Fill(p.size - i * PAGE_SIZE, 0xFF);
    FlatLength(bufs[..i], PAGE_SIZE);
    assert bufs[..i + 1] == bufs[..i] + [bufs[i]];
    FlatSnoc(bufs[..i], bufs[i]);
    SpliceBehind(Flat(bufs[..i]), free, bufs[i]);
    assert free[PAGE_SIZE..] == Fill(p.size - (i + 1) * PAGE_SIZE, 0xFF);
  }

  lemma FinalAt(p: P.Part, i: nat)
    requires p.Valid() && i < |p.pages|
    ensures P.Finals(p)[i] == NvsImage.Finalize(p.pages[i], if i < |p.pages| - 1 then STATE_FULL else STATE_ACTIVE)
  {
  }

  lemma EndOfImage(p: P.Part)
    requires p.Valid() && P.Renders(p)
    ensures |p.pages| * PAGE_SIZE <= p.size && Partial(p, |p.pages|) == P.Image(p)
    ensures P.Render(p).0.Valid()
  {
    hide Layout, P.Finals;
    var bufs := P.Layouts(P.Finals(p));
    assert bufs[..|p.pages|] == bufs;
  }

  method PaddedSlot(data: seq<byte>, i: nat) returns (slot: seq<byte>)
    requires i < DataEntries(data)
    ensures slot == Chunk(data, i)
  {
    var de := new byte[ENTRY_SIZE](_ => 0xFF);
    var end := if (i + 1) * ENTRY_SIZE <= |data| then (i + 1) * ENTRY_SIZE else |data|;
    CopyInto(de, 0, data[i * ENTRY_SIZE..end]);
    slot := de[..];
  }

  /** The 32 bytes `writePrimitive` fills in, one field after the other. */
  method PrimitiveEntry(nsIdx: byte, key: seq<byte>, typ: byte, val: int, width: nat, ghost value: Value)
    returns (entry: seq<byte>, err: Option<P.Error>)
    requires value.Int? && typ == TypeByte(value) && val == ToUint64(value.v) && width == Width(value.typ)
    ensures err == if |key| > MAX_KEY then Some(P.KeyTooLong) else None
    ensures err.None? ==> entry == Head(nsIdx, key, value)
  {
    var e := new byte[ENTRY_SIZE](_ => 0xFF);
    e[0], e[1], e[2], e[3] := nsIdx, typ, 1, CHUNK_ANY;
    ghost var blank := e[..];
    err := PutKey(e, key);
    if err.None? {
      CopyInto(e, 24, Le(val, 8)[..width]);
      HeadBytes(blank, nsIdx, key, value, Le(val, 8)[..width]);
      SetEntryCrc(e);
    }
    entry := e[..];
  }

  /** The 32 bytes `writeVar` fills in for its head entry. */
  method VarEntry(nsIdx: byte, key: seq<byte>, typ: byte, span: nat, data: seq<byte>, ghost value: Value)
    returns (entry: seq<byte>, err: Option<P.Error>)
    requires !value.Int? && typ == TypeByte(value) && data == Payload(value) && span == Span(value)
    ensures err == if |key| > MAX_KEY then Some(P.KeyTooLong) else None
    ensures err.None? ==> entry == Head(nsIdx, key, value)
  {
    hide CrcBytes, Le, Head, Tail, TypeByte, Span, Payload, WithCrc, Splice;
    VarTail(value);
    var e := new byte[ENTRY_SIZE](_ => 0xFF);
    e[0], e[1], e[2], e[3] := nsIdx, typ, span % 0x100, CHUNK_ANY;
    ghost var blank := e[..];
    err := PutKey(e, key);
    if err.None? {
      ghost var keyed := e[..];
      CopyInto(e, 24, Le16(ToUint16(|data|)));
      CopyInto(e, 28, CrcBytes(data));
      KeyLeavesTail(blank, KeyField(key));
      TwoFields(keyed, Le16(ToUint16(|data|)), CrcBytes(data));
      HeadBytes(blank, nsIdx, key, value, Tail(value));
      SetEntryCrc(e);
    }
    entry := e[..];
  }

  lemma VarTail(value: Value)
    requires !value.Int?
    ensures Tail(value) == Le16(ToUint16(|Payload(value)|)) + [0xFF, 0xFF] + CrcBytes(Payload(value))
  {
  }

  lemma KeyLeavesTail(blank: seq<byte>, key: seq<byte>)
    requires |blank| == ENTRY_SIZE && |key| == 16
    ensures Splice(blank, 8, key)[24..] == blank[24..]
    ensures Splice(blank, 8, key)[26..28] == blank[26..28]
  {
  }

  lemma TwoFields(keyed: seq<byte>, size: seq<byte>, crc: seq<byte>)
    requires |keyed| == ENTRY_SIZE && |size| == 2 && |crc| == 4 && keyed[26..28] == [0xFF, 0xFF]
    ensures Splice(Splice(keyed, 24, size), 28, crc) == Splice(keyed, 24, size + [0xFF, 0xFF] + crc)
  {
    var r := Splice(Splice(keyed, 24, size), 28, crc);
    assert r == keyed[..24] + size + keyed[26..28] + crc;
  }

  /** A head filled with 0xFF, given its first four bytes, its key and its last fields. */
  lemma HeadBytes(blank: seq<byte>, ns: byte, key: seq<byte>, value: Value, tail: seq<byte>)
    requires |key| <= MAX_KEY && |tail| <= 8 && Tail(value) == tail + Fill(8 - |tail|, 0xFF)
    requires blank == [ns, TypeByte(value), Span(value) % 0x100, CHUNK_ANY] + Fill(28, 0xFF)
    ensures var e := Splice(Splice(blank, 8, KeyField(key)), 24, tail);
            WithCrc(e[..4], e[8..]) == Head(ns, key, value)
  {
    hide CrcBytes, Tail, TypeByte, Span;
    var lead := [ns, TypeByte(value), Span(value) % 0x100, CHUNK_ANY];
    var keyed := Splice(blank, 8, KeyField(key));
    assert keyed == lead + Fill(4, 0xFF) + KeyField(key) + Fill(8, 0xFF);
    var e := Splice(keyed, 24, tail);
    assert e == lead + Fill(4, 0xFF) + KeyField(key) + (tail + Fill(8 - |tail|, 0xFF));
    assert e[..4] == lead && e[8..] == KeyField(key) + Tail(value);
  }

  // ---------------------------------------------------------------- filling the last page

  lemma CounterKeepsValid(p: P.Part, n: byte)
    requires p.Valid()
    ensures p.(nsN := n).Valid()
  {
  }

  lemma TableKeepsValid(p: P.Part, nss: map<seq<byte>, byte>)
    requires p.Valid()
    ensures p.(nss := nss).Valid()
  {
  }

  lemma IndexIsByte(idx: byte)
    ensures ToUint64(idx) == idx && InRange(U8, idx)
  {
    Pow256Values();
  }

  lemma PagesExist(p: P.Part)
    requires p.Valid()
    ensures |p.pages| > 0
  {
  }

  function Filled(q: P.Part, slots: seq<Slot>): P.Part
    requires |q.pages| > 0
  {
    q.WithLast(P.AppendAll(q.Last(), slots))
  }

  lemma FilledStep(q: P.Part, slots: seq<Slot>, k: nat)
    requires |q.pages| > 0 && k < |slots|
    ensures var p := Filled(q, slots[..k]); Filled(q, slots[..k + 1]) == p.WithLast(Append(p.Last(), slots[k]))
    ensures k == 0 ==> Filled(q, slots[..1]) == q.WithLast(Append(q.Last(), slots[0]))
  {
    assert slots[..k + 1] == slots[..k] + [slots[k]];
    assert slots[..1] == [slots[0]];
    assert q.Last().slots + slots[..k + 1] == q.Last().slots + slots[..k] + [slots[k]];
  }

  /** After `fit` there is room for the whole item, and filling it in is what a write does. */
  lemma HasRoom(p: P.Part, q: P.Part, ns: byte, key: seq<byte>, value: Value)
    requires p.Valid() && P.Fit(p, Span(value)) == Ok(q) && |key| <= MAX_KEY
    ensures |q.pages| > 0 && q.Last().Free() >= Span(value)
    ensures P.Write(p, ns, key, value) == (Filled(q, ItemSlots(ns, key, value)), None)
    ensures Filled(q, ItemSlots(ns, key, value)).Valid()
    ensures ItemSlots(ns, key, value)[0] == Head(ns, key, value)
  {
  }

  lemma ItemDataSlots(ns: byte, key: seq<byte>, value: Value)
    requires |key| <= MAX_KEY
    ensures forall i :: 0 <= i < DataEntries(Payload(value)) ==>
              ItemSlots(ns, key, value)[i + 1] == Chunk(Payload(value), i)
  {
    hide Chunk;
    forall i | 0 <= i < DataEntries(Payload(value))
      ensures ItemSlots(ns, key, value)[i + 1] == Chunk(Payload(value), i)
    {
      DataSlotIsChunk(Payload(value), i);
    }
  }

  lemma FilledRoom(q: P.Part, slots: seq<Slot>, k: nat)
    requires |q.pages| > 0 && k < |slots| <= q.Last().Free()
    ensures Filled(q, slots[..k]).Last().Free() > 0
  {
  }


  /** `New`: a partition with one empty page, or an error and nothing. */
  method NewPartition(size: int) returns (p: Partition?, err: Option<P.Error>)
    ensures err.Some? ==> P.New(size) == Err(err.value) && p == null
    ensures err.None? ==> p != null && fresh(p) && p.Valid() && P.New(size) == Ok(p.State())
  {
    if size % PAGE_SIZE != 0 || size < 3 * PAGE_SIZE {
      return null, Some(P.BadSize);
    }
    p := new Partition(size);
    err := None;
  }

  /** `putKey`: the key, padded with NULs, or an error and nothing stored. */
  method PutKey(e: array<byte>, key: seq<byte>) returns (err: Option<P.Error>)
    requires e.Length == ENTRY_SIZE
    modifies e
    ensures err == if |key| > MAX_KEY then Some(P.KeyTooLong) else None
    ensures e[..] == if |key| > MAX_KEY then old(e[..]) else Splice(old(e[..]), 8, KeyField(key))
  {
    if |key| > MAX_KEY {
      return Some(P.KeyTooLong);
    }
    var k := new byte[16](_ => 0);
    CopyInto(k, 0, key);
    assert k[..] == KeyField(key);
    CopyInto(e, 8, k[..]);
    return None;
  }

  /** `setEntryCRC`: the checksum of everything but bytes 4 to 7 goes into those bytes. */
  method SetEntryCrc(e: array<byte>)
    requires e.Length == ENTRY_SIZE
    modifies e
    ensures e[..] == WithCrc(old(e[..4]), old(e[8..]))
  {
    CopyInto(e, 4, CrcBytes(e[..4] + e[8..]));
  }

  ghost function States(pages: seq<Page>): (s: seq<PageState>)
    reads pages
    ensures |s| == |pages|
  {
    seq(|pages|, i requires 0 <= i < |pages| reads pages => pages[i].Contents)
  }
}
