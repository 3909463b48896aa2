/** The reader gets the builder's log back out of the bytes: from slots to pages, from pages to images. */
module NvsReadBack {
  import opened Bytes
  import opened NvsFormat
  import opened NvsImage
  import opened NvsPartition

  // ---------------------------------------------------------------- one page

  lemma SeenAppend(a: seq<Item>, b: seq<Item>)
    ensures Seen(a + b) == Seen(a) + Seen(b)
  {
  }

  lemma SlotsInLayout(pg: PageState, slots: seq<Slot>, o: nat)
    requires pg.Valid() && o + |slots| <= |pg.slots| && |slots| > 0
    requires pg.slots[o..o + |slots|] == slots
    ensures Layout(pg)[SlotAt(o)..SlotAt(o + 1)] == slots[0]
    ensures Layout(pg)[SlotAt(o + 1)..SlotAt(o + |slots|)] == Flat(slots[1..])
  {
    hide Layout, Flat;
    LayoutSlots(pg, o, o + 1);
    LayoutSlots(pg, o + 1, o + |slots|);
    assert pg.slots[o..o + 1] == [slots[0]];
    FlatOne(slots[0]);
    assert pg.slots[o + 1..o + |slots|] == slots[1..];
  }

  lemma ItemSlotsReadBack(it: StoredItem)
    ensures var slots := ItemSlots(it.ns, it.key, it.value);
            && 1 <= |slots| <= ENTRY_COUNT && slots[0][2] == |slots|
            && DecodeEntry(slots[0], Flat(slots[1..])) == Some(it.Seen())
  {
    hide DecodeEntry, Head, DataSlots, CString, Flat, Tail, KeyField, TypeByte, HeadValid, Payload;
    var slots := ItemSlots(it.ns, it.key, it.value);
    assert slots[1..] == DataSlots(Payload(it.value));
    HeadFields(it.ns, it.key, it.value);
    ItemReadBack(it.ns, it.key, it.value);
  }

  /** The walk by spans meets exactly the items, whatever their data slots look like. */
  lemma {:induction false} PageReadBack(pg: PageState, items: seq<StoredItem>, o: nat)
    requires pg.Valid() && o <= |pg.slots|
    requires pg.slots[o..] == SlotsOf(items)
    ensures ReadSlots(Layout(pg), o) == Some(Seen(items))
    decreases |items|
  {
    hide Layout, PairAt, DecodeEntry, ItemSlots, Span, CString;
    if o < ENTRY_COUNT {
      LayoutPair(pg, o);
    }
    if items != [] {
      var it, rest := items[0], items[1..];
      var slots := ItemSlots(it.ns, it.key, it.value);
      var next := o + |slots|;
      TailSplit(pg.slots, o, slots, SlotsOf(rest));
      ItemSlotsReadBack(it);
      SlotsInLayout(pg, slots, o);
      PageReadBack(pg, rest, next);
      assert Seen(items) == [it.Seen()] + Seen(rest);
    }
  }

  lemma TailSplit<T>(s: seq<T>, o: nat, a: seq<T>, b: seq<T>)
    requires o <= |s| && s[o..] == a + b
    ensures o + |a| <= |s| && s[o..o + |a|] == a && s[o + |a|..] == b
  {
    assert s[o..][..|a|] == a && s[o..][|a|..] == b;
    assert s[o..o + |a|] == s[o..][..|a|];
    assert s[o + |a|..] == s[o..][|a|..];
  }

  // ---------------------------------------------------------------- the image

  /** Page `i` of the image is page `i` of the builder, finalized; the rest is erased. */
  lemma ImagePage(p: Part, i: nat)
    requires p.Valid() && |p.pages| * PAGE_SIZE <= p.size && (i + 1) * PAGE_SIZE <= p.size
    ensures |Image(p)| == p.size
    ensures PageAt(Image(p), i) == if i < |p.pages| then Layout(Finals(p)[i]) else Fill(PAGE_SIZE, 0xFF)
  {
    hide Layout, Finals, Flat;
    var bufs := Layouts(Finals(p));
    FlatLength(bufs, PAGE_SIZE);
    if i < |p.pages| {
      FlatSlice(bufs, PAGE_SIZE, i, i + 1);
      assert bufs[i..i + 1] == [bufs[i]];
      FlatOne(bufs[i]);
      assert PageAt(Image(p), i) == Flat(bufs)[i * PAGE_SIZE..(i + 1) * PAGE_SIZE];
    }
  }

  lemma ErasedIsUnused(page: seq<byte>)
    requires page == Fill(PAGE_SIZE, 0xFF)
    ensures !HeaderValid(page)
  {
    assert page[8] == 0xFF;
  }

  lemma FoundAt(p: Part, s: nat, i: nat)
    requires p.Valid() && |p.pages| * PAGE_SIZE <= p.size && |p.pages| <= 0x1_0000_0000
    requires s <= |p.pages| && i <= if s < |p.pages| then s else p.size / PAGE_SIZE
    ensures FindPage(Image(p), s, i) == if s < |p.pages| then Some(s) else None
    decreases p.size - i * PAGE_SIZE
  {
    hide HeaderValid, Layout, Image, Finals, FromLe, PageAt;
    ImagePage(p, 0);
    if (i + 1) * PAGE_SIZE <= p.size {
      ImagePage(p, i);
      if i < |p.pages| {
        FinalizedPage(p, i);
      } else {
        ErasedIsUnused(PageAt(Image(p), i));
      }
      if i != s || s == |p.pages| {
        FoundAt(p, s, i + 1);
      }
    }
  }

  /** Page `i` carries sequence number `i`; the last is ACTIVE, all before it FULL. */
  lemma FinalizedPage(p: Part, i: nat)
    requires p.Valid() && i < |p.pages|
    ensures HeaderValid(Layout(Finals(p)[i]))
    ensures FromLe(Layout(Finals(p)[i])[..4]) == if i == |p.pages| - 1 then STATE_ACTIVE else STATE_FULL
    ensures FromLe(Layout(Finals(p)[i])[4..8]) == ToUint32(i)
  {
    FinalizedHeader(p.pages[i], StateOf(i, |p.pages|));
  }

  lemma PageOfImage(p: Part, log: seq<seq<StoredItem>>, s: nat)
    requires Holds(p, log) && |p.pages| * PAGE_SIZE <= p.size && s < |p.pages|
    ensures (s + 1) * PAGE_SIZE <= |Image(p)| == p.size
    ensures ReadSlots(PageAt(Image(p), s), 0) == Some(Seen(log[s]))
  {
    hide ReadSlots, Layout, Image, PageAt, Finals;
    ImagePage(p, s);
    FinalizedSlots(p, s);
    PageReadBack(Finals(p)[s], log[s], 0);
  }

  lemma {:induction false} PagesReadBack(p: Part, log: seq<seq<StoredItem>>, s: nat)
    requires Holds(p, log) && |p.pages| * PAGE_SIZE <= p.size && |p.pages| <= 0x1_0000_0000
    requires s <= |p.pages|
    ensures ReadPages(Image(p), s) == Some(Seen(Flat<Item>(log[s..])))
    decreases |p.pages| - s
  {
    hide FindPage, ReadSlots, Image, PageAt, Seen, Holds;
    HoldsLength(p, log);
    PageOfImage(p, log, 0);
    FoundAt(p, s, 0);
    if s < |p.pages| {
      PageOfImage(p, log, s);
      PagesReadBack(p, log, s + 1);
      SeenAppend(log[s], Flat<Item>(log[s + 1..]));
      assert log[s..][1..] == log[s + 1..];
    } else {
      NothingSeen();
    }
  }

  lemma NothingSeen()
    ensures Seen([]) == []
  {
  }

  lemma FinalizedSlots(p: Part, i: nat)
    requires p.Valid() && i < |p.pages|
    ensures Finals(p)[i].slots[0..] == p.pages[i].slots
  {
  }

  function Settings(log: seq<seq<StoredItem>>): seq<Setting> { Resolve(Seen(Items(log)), map[]) }

  /** The reader gets the whole log out of the image. */
  lemma ImageReadBack(p: Part, log: seq<seq<StoredItem>>)
    requires Holds(p, log) && Renders(p) && |p.pages| <= 0x1_0000_0000
    ensures ReadImage(Image(p)) == Some(Settings(log))
  {
    PagesReadBack(p, log, 0);
    assert log[0..] == log;
  }
}
