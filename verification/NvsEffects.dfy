/** What calls of the NVS builder do not do: disturb earlier slots, leave half an item behind,
    or let rendering show in a later image. */
module NvsEffects {
  import opened Bytes
  import opened Crc32
  import opened NvsFormat
  import opened NvsImage
  import opened NvsPartition
  import opened NvsReadBack
  import opened NvsRuns

  // ---------------------------------------------------------------- append only

  /** Every page of `p` is still there in `q` with every slot it had, and only the last of them
      may have got more. */
  predicate Extends(p: Part, q: Part) {
    && p.Valid() && q.Valid()
    && |p.pages| <= |q.pages|
    && p.Last().slots <= q.pages[|p.pages| - 1].slots
    && forall i :: 0 <= i < |p.pages| - 1 ==> p.pages[i].slots == q.pages[i].slots
  }

  lemma WriteExtends(p: Part, ns: byte, key: seq<byte>, value: Value)
    requires p.Valid()
    ensures Extends(p, Write(p, ns, key, value).0)
    ensures |Write(p, ns, key, value).0.pages| <= |p.pages| + 1
  {
    hide ItemSlots;
  }

  lemma ExtendsTrans(p: Part, q: Part, r: Part)
    requires Extends(p, q) && Extends(q, r)
    ensures Extends(p, r)
  {
    var last := |p.pages| - 1;
    assert p.pages[last].slots <= q.pages[last].slots <= r.pages[last].slots;
  }

  lemma SetExtends(p: Part, ns: seq<byte>, key: seq<byte>, value: Value)
    requires p.Valid()
    ensures Extends(p, Set(p, ns, key, value).0)
    ensures |Set(p, ns, key, value).0.pages| <= |p.pages| + 2
  {
    hide Write, Extends;
    Reflexive(p);
    var (q, r) := Namespace(p, ns);
    if ns !in p.nss {
      var p1 := p.(nsN := NextNs(p));
      WriteExtends(p1, 0, ns, Int(U8, NextNs(p)));
      SamePages(p, p1, Write(p1, 0, ns, Int(U8, NextNs(p))).0, q);
    }
    if r.Ok? {
      WriteExtends(q, r.value, key, value);
      ExtendsTrans(p, q, Write(q, r.value, key, value).0);
    }
  }

  lemma Reflexive(p: Part)
    requires p.Valid()
    ensures Extends(p, p)
  {
  }

  lemma SamePages(p: Part, p1: Part, q1: Part, q: Part)
    requires p.Valid() && q.Valid() && Extends(p1, q1) && p.pages == p1.pages && q.pages == q1.pages
    ensures Extends(p, q)
  {
  }

  lemma RenderExtends(p: Part)
    requires p.Valid()
    ensures Extends(p, Render(p).0)
  {
    hide Image, Finalize;
    forall i | 0 <= i < |p.pages|
      ensures Finals(p)[i].slots == p.pages[i].slots
    {
      KeepsSlots(p.pages[i], StateOf(i, |p.pages|));
    }
  }

  lemma KeepsSlots(pg: PageState, state: uint32)
    requires pg.Valid()
    ensures Finalize(pg, state).slots == pg.slots
  {
  }

  /** Over any run, failed calls and renderings included, pages are only added and slots only
      appended, behind the last page there was. */
  lemma {:induction false} RunExtends(p: Part, calls: seq<Call>)
    requires p.Valid()
    ensures Extends(p, Run(p, calls))
    decreases |calls|
  {
    hide Extends, Set, Render;
    Reflexive(p);
    if calls != [] {
      match calls[0] {
        case Put(ns, key, value) => SetExtends(p, ns, key, value);
        case Bytes => RenderExtends(p);
      }
      RunExtends(Step(p, calls[0]).0, calls[1..]);
      ExtendsTrans(p, Step(p, calls[0]).0, Run(p, calls));
    }
  }

  /** The bytes of a slot and its state pair, once written, stay through any run. */
  lemma WrittenStays(p: Part, calls: seq<Call>, i: nat, k: nat)
    requires p.Valid() && i < |p.pages| && k < |p.pages[i].slots|
    ensures var q := Run(p, calls);
            && i < |q.pages|
            && Layout(q.pages[i])[SlotAt(k)..SlotAt(k + 1)] == Layout(p.pages[i])[SlotAt(k)..SlotAt(k + 1)]
            && PairAt(Layout(q.pages[i]), k) == PairAt(Layout(p.pages[i]), k) == PAIR_WRITTEN
  {
    hide Layout, Run, PairAt;
    var q := Run(p, calls);
    RunExtends(p, calls);
    assert p.pages[i].slots <= q.pages[i].slots;
    LayoutSlots(p.pages[i], k, k + 1);
    LayoutSlots(q.pages[i], k, k + 1);
    LayoutPair(p.pages[i], k);
    LayoutPair(q.pages[i], k);
    assert p.pages[i].slots[k..k + 1] == q.pages[i].slots[k..k + 1];
  }

  /** A call that fails writes no value. It may use up an index, make a namespace entry if the
      name itself was good, and open up to two pages. The reader sees no setting of it. */
  lemma FailedPut(p: Part, log: seq<seq<StoredItem>>, ns: seq<byte>, key: seq<byte>, value: Value)
    returns (log': seq<seq<StoredItem>>)
    requires Holds(p, log) && IsValue(value) && Set(p, ns, key, value).1.Some?
    ensures var q := Set(p, ns, key, value).0;
            && Holds(q, log') && Extends(p, q) && |q.pages| <= |p.pages| + 2
            && Items(log') == Items(log)
               + (if ns !in p.nss && |ns| <= MAX_KEY then [Item(0, ns, Int(U8, NextNs(p)))] else [])
            && q.nsN == (if ns in p.nss then p.nsN else NextNs(p))
            && q.nss == (if ns !in p.nss && |ns| <= MAX_KEY then p.nss[ns := NextNs(p)] else p.nss)
            && Settings(log') == Settings(log)
  {
    hide Holds, Extends, Write, Settings, Items, CString, Resolve, Seen;
    HoldsLength(p, log);
    log' := SetLog(p, log, ns, key, value);
    SetExtends(p, ns, key, value);
    if ns !in p.nss {
      NamespaceSucceeds(p, ns);
    }
    LogGrows(log, log', Traces(p, ns, key, value));
    TracesSeen(p, ns, key, value, NamesIn(log));
  }

  /** A call fails exactly for a new namespace of more than 15 bytes, an item that needs more than
      the 126 slots of one page, or a key of more than 15 bytes, and is told so in that order. */
  lemma PutFailsWhen(p: Part, ns: seq<byte>, key: seq<byte>, value: Value)
    requires p.Valid()
    ensures Set(p, ns, key, value).1 ==
            if ns !in p.nss && |ns| > 15 then Some(KeyTooLong)
            else if Span(value) > 126 then Some(ItemTooLarge)
            else if |key| > 15 then Some(KeyTooLong)
            else None
  {
    hide Write, Span;
    if ns !in p.nss {
      NamespaceSucceeds(p, ns);
      WriteOutcome(p.(nsN := NextNs(p)), 0, ns, Int(U8, NextNs(p)));
      OneSlot(NextNs(p));
    }
    if Namespace(p, ns).1.Ok? {
      WriteOutcome(Namespace(p, ns).0, Namespace(p, ns).1.value, key, value);
    }
  }

  lemma OneSlot(v: int)
    ensures Span(Int(U8, v)) == 1
  {
  }

  /** An accepted item's span and length survive the conversions to a byte and to 16 bits. */
  lemma NoNarrowing(p: Part, ns: seq<byte>, key: seq<byte>, value: Value)
    requires p.Valid() && Set(p, ns, key, value).1.None?
    ensures Span(value) % 0x100 == Span(value)
    ensures ToUint16(|Payload(value)|) == |Payload(value)| <= 4000
  {
    hide Set;
    PutFailsWhen(p, ns, key, value);
  }

  // ---------------------------------------------------------------- rendering does not show

  /** The same partition up to what `finalize` may have written into page headers. */
  predicate Alike(p: Part, q: Part) {
    && p.Valid() && q.Valid()
    && p.size == q.size && p.nss == q.nss && p.nsN == q.nsN
    && |p.pages| == |q.pages|
    && forall i :: 0 <= i < |p.pages| ==> p.pages[i].slots == q.pages[i].slots
  }

  lemma AlikeWrite(p: Part, q: Part, ns: byte, key: seq<byte>, value: Value)
    requires Alike(p, q)
    ensures Alike(Write(p, ns, key, value).0, Write(q, ns, key, value).0)
    ensures Write(p, ns, key, value).1 == Write(q, ns, key, value).1
  {
    hide ItemSlots, Span, NewPage;
  }

  lemma AlikeSet(p: Part, q: Part, ns: seq<byte>, key: seq<byte>, value: Value)
    requires Alike(p, q)
    ensures Alike(Set(p, ns, key, value).0, Set(q, ns, key, value).0)
    ensures Set(p, ns, key, value).1 == Set(q, ns, key, value).1
  {
    hide Write;
    if ns !in p.nss {
      AlikeWrite(p.(nsN := NextNs(p)), q.(nsN := NextNs(q)), 0, ns, Int(U8, NextNs(p)));
    }
    if Namespace(p, ns).1.Ok? {
      AlikeWrite(Namespace(p, ns).0, Namespace(q, ns).0, Namespace(p, ns).1.value, key, value);
    }
  }

  lemma AlikeRender(p: Part, q: Part)
    requires Alike(p, q)
    ensures Render(p).1 == Render(q).1
    ensures Alike(Render(p).0, q)
  {
    hide Layout, Finalize;
    forall i | 0 <= i < |p.pages|
      ensures Finals(p)[i] == Finals(q)[i] && Finals(p)[i].slots == p.pages[i].slots
    {
      AlikeFinal(p.pages[i], q.pages[i], StateOf(i, |p.pages|));
    }
    assert Finals(p) == Finals(q);
  }

  lemma AlikeFinal(a: PageState, b: PageState, state: uint32)
    requires a.Valid() && b.Valid() && a.num == b.num && a.slots == b.slots
    ensures Finalize(a, state) == Finalize(b, state) && Finalize(a, state).slots == a.slots
  {
  }

  function Puts(calls: seq<Call>): seq<Call>
    decreases |calls|
  {
    if calls == [] then [] else (if calls[0].Put? then [calls[0]] else []) + Puts(calls[1..])
  }

  /** Any number of renderings anywhere in a run changes neither a later image nor any verdict. */
  lemma {:induction false} RenderingIsInvisible(p: Part, q: Part, calls: seq<Call>)
    requires Alike(p, q)
    ensures Alike(Run(p, calls), Run(q, Puts(calls)))
    ensures Render(Run(p, calls)).1 == Render(Run(q, Puts(calls))).1
    ensures Accepted(p, calls) == Accepted(q, Puts(calls))
    decreases |calls|
  {
    hide Alike, Set, Render;
    if calls == [] {
      AlikeRender(p, q);
    } else {
      var rest := Puts(calls[1..]);
      match calls[0] {
        case Put(ns, key, value) =>
          AlikeSet(p, q, ns, key, value);
          assert Puts(calls)[0] == calls[0] && Puts(calls)[1..] == rest;
          AlikeIsValid(p, q);
          RenderingIsInvisible(Step(p, calls[0]).0, Step(q, calls[0]).0, calls[1..]);
        case Bytes =>
          AlikeRender(p, q);
          AlikeIsValid(p, q);
          assert Puts(calls) == rest;
          RenderingIsInvisible(Step(p, calls[0]).0, q, calls[1..]);
      }
    }
  }

  lemma AlikeIsValid(p: Part, q: Part)
    requires Alike(p, q)
    ensures p.Valid() && q.Valid()
  {
  }

  lemma HeaderFields(pg: PageState, state: uint32)
    requires pg.Valid()
    ensures var page := Layout(Finalize(pg, state));
            page[8] == 0xFE && page[9..28] == Fill(19, 0xFF) && FromLe(page[28..32]) == Crc(page[4..28]) as int
  {
    hide CrcBytes, Le;
    var page := Layout(Finalize(pg, state));
    var covered := Le32(pg.num) + [VERSION_V2] + pg.header[9..28];
    assert page[..32] == FinalHeader(pg, state);
    assert page[4..28] == covered && page[9..28] == covered[5..] && page[28..32] == CrcBytes(covered);
    CrcStored(covered);
  }

  /** A rendered image: as long as the partition, data pages numbered from 0 with the last one
      ACTIVE and the others FULL, and behind them at least one page left erased. */
  lemma ImageShape(p: Part, i: nat)
    requires p.Valid() && Renders(p) && i < p.size / PAGE_SIZE
    ensures |Image(p)| == p.size && (|p.pages| + 1) * 4096 <= p.size
    ensures var page := PageAt(Image(p), i);
            if i < |p.pages| then
              && HeaderValid(page)
              && FromLe(page[..4]) == (if i == |p.pages| - 1 then 0xFFFF_FFFE else 0xFFFF_FFFC)
              && FromLe(page[4..8]) == ToUint32(i)
              && page[8] == 0xFE && page[9..28] == Fill(19, 0xFF)
              && FromLe(page[28..32]) == Crc(page[4..28]) as int
            else
              page == Fill(4096, 0xFF)
  {
    hide Layout, HeaderValid, Image, PageAt, FromLe;
    ImagePage(p, i);
    if i < |p.pages| {
      FinalizedPage(p, i);
      HeaderFields(p.pages[i], StateOf(i, |p.pages|));
    }
  }
}
