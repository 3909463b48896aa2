/** The partition builder as functions on its state: which page an item goes to, which index a
    namespace gets, what a failed call leaves behind, and the rendered image. */
module NvsPartition {
  import opened Bytes
  import opened NvsFormat
  import opened NvsImage

  datatype Error = BadSize | ItemTooLarge | KeyTooLong | TooManyPages

  datatype Part = Part(size: nat, pages: seq<PageState>, nss: map<seq<byte>, byte>, nsN: byte) {
    predicate Valid() {
      && size % PAGE_SIZE == 0 && size >= 3 * PAGE_SIZE
      && |pages| > 0
      && (forall i :: 0 <= i < |pages| ==> pages[i].Valid())
      && (forall i :: 0 <= i < |pages| ==> pages[i].num == ToUint32(i))
    }

    function Last(): PageState
      requires |pages| > 0
    {
      pages[|pages| - 1]
    }

    function WithLast(pg: PageState): Part
      requires |pages| > 0
    {
      this.(pages := pages[|pages| - 1 := pg])
    }
  }

  function New(size: int): (r: Result<Part, Error>)
    ensures r.Ok? <==> size % 4096 == 0 && size >= 0x3000
    ensures r.Ok? ==> r.value.Valid() && |r.value.pages| == 1 && r.value.Last().Free() == 126
    ensures r.Ok? ==> r.value.size == size && r.value.nss == map[] && r.value.nsN == 0
  {
    if size % PAGE_SIZE != 0 || size < 3 * PAGE_SIZE then Err(BadSize)
    else Ok(Part(size, [NewPage(0)], map[], 0))
  }

  /** A partition whose last page has room for `span` slots; a page is opened if need be. */
  function Fit(p: Part, span: nat): (r: Result<Part, Error>)
    requires p.Valid()
    ensures r.Err? <==> span > ENTRY_COUNT
    ensures r.Ok? ==> r.value.Valid() && r.value.Last().Free() >= span
    ensures p.Last().Free() >= span ==> r == Ok(p)
    ensures r.Ok? && p.Last().Free() < span ==>
              p.pages <= r.value.pages && |r.value.pages| == |p.pages| + 1 && r.value.Last().slots == []
  {
    NextNumber(|p.pages|);
    if span > ENTRY_COUNT then Err(ItemTooLarge)
    else if p.Last().Free() < span then Ok(p.(pages := p.pages + [NewPage(ToUint32(p.Last().num + 1))]))
    else Ok(p)
  }

  lemma NextNumber(n: nat)
    requires n > 0
    ensures ToUint32(ToUint32(n - 1) + 1) == ToUint32(n)
  {
  }

  /** The last page with more slots written into it. */
  function WriteSlots(p: Part, slots: seq<Slot>): (q: Part)
    requires p.Valid() && |slots| <= p.Last().Free()
    ensures q.Valid() && q.size == p.size && q.nss == p.nss && q.nsN == p.nsN
  {
    p.WithLast(AppendAll(p.Last(), slots))
  }

  function AppendAll(pg: PageState, slots: seq<Slot>): PageState {
    pg.(slots := pg.slots + slots)
  }

  /** `writePrimitive` and `writeVar`: the page is found before the key is looked at. */
  function Write(p: Part, ns: byte, key: seq<byte>, value: Value): (r: (Part, Option<Error>))
    requires p.Valid()
    ensures r.0.Valid() && r.0.size == p.size && r.0.nss == p.nss && r.0.nsN == p.nsN
  {
    match Fit(p, Span(value))
    case Err(e) => (p, Some(e))
    case Ok(q) =>
      if |key| > MAX_KEY then (q, Some(KeyTooLong))
      else (WriteSlots(q, ItemSlots(ns, key, value)), None)
  }

  /** What a write comes to: it fails for an item over one page, or else for a key over 15 bytes;
      when it fails it has opened a page at most, and else its slots are the last ones written. */
  lemma WriteOutcome(p: Part, ns: byte, key: seq<byte>, value: Value)
    requires p.Valid()
    ensures var (q, err) := Write(p, ns, key, value);
            && err == (if Span(value) > 126 then Some(ItemTooLarge)
                       else if |key| > 15 then Some(KeyTooLong) else None)
            && |p.pages| <= |q.pages| <= |p.pages| + 1 && p.pages[..|p.pages| - 1] <= q.pages
            && (|q.pages| == |p.pages| + 1 <==> p.Last().Free() < Span(value) <= ENTRY_COUNT)
            && (err.Some? ==> p.pages <= q.pages && (|q.pages| > |p.pages| ==> q.Last().slots == []))
            && (err.None? ==>
                  q.Last().slots == (if |q.pages| == |p.pages| then p.Last().slots else []) + ItemSlots(ns, key, value))
  {
    hide ItemSlots;
  }

  /** The index the next new namespace is given: a byte, so it wraps. */
  function NextNs(p: Part): byte { (p.nsN + 1) % 0x100 }

  function Namespace(p: Part, name: seq<byte>): (r: (Part, Result<byte, Error>))
    requires p.Valid()
    ensures r.0.Valid() && r.0.size == p.size
  {
    if name in p.nss then (p, Ok(p.nss[name])) else
      var (q, e) := Write(p.(nsN := NextNs(p)), 0, name, Int(U8, NextNs(p)));
      match e
      case Some(error) => (q, Err(error))
      case None => (q.(nss := q.nss[name := NextNs(p)]), Ok(NextNs(p)))
  }

  function Set(p: Part, ns: seq<byte>, key: seq<byte>, value: Value): (r: (Part, Option<Error>))
    requires p.Valid()
    ensures r.0.Valid() && r.0.size == p.size
  {
    var (q, idx) := Namespace(p, ns);
    match idx
    case Err(e) => (q, Some(e))
    case Ok(i) => Write(q, i, key, value)
  }

  // ---------------------------------------------------------------- rendering

  function StateOf(i: int, count: int): uint32 { if i < count - 1 then STATE_FULL else STATE_ACTIVE }

  function Finals(p: Part): (pages: seq<PageState>)
    requires p.Valid()
    ensures |pages| == |p.pages| && forall i :: 0 <= i < |pages| ==> pages[i].Valid()
  {
    seq(|p.pages|, i requires 0 <= i < |p.pages| => Finalize(p.pages[i], StateOf(i, |p.pages|)))
  }

  function Layouts(pages: seq<PageState>): (bufs: seq<seq<byte>>)
    requires forall i :: 0 <= i < |pages| ==> pages[i].Valid()
    ensures |bufs| == |pages| && forall b :: b in bufs ==> |b| == PAGE_SIZE
  {
    seq(|pages|, i requires 0 <= i < |pages| => Layout(pages[i]))
  }

  function Image(p: Part): seq<byte>
    requires p.Valid() && |p.pages| * PAGE_SIZE <= p.size
  {
    Flat(Layouts(Finals(p))) + Fill(p.size - |p.pages| * PAGE_SIZE, 0xFF)
  }

  /** One page is always kept in reserve. */
  predicate Renders(p: Part) { |p.pages| <= p.size / PAGE_SIZE - 1 }

  /** `Bytes`: the image, and the partition with its page headers written. */
  function Render(p: Part): (r: (Part, Result<seq<byte>, Error>))
    requires p.Valid()
    ensures r.0.Valid() && r.0.size == p.size
    ensures r.1.Err? ==> r.0 == p
  {
    if !Renders(p) then (p, Err(TooManyPages)) else (p.(pages := Finals(p)), Ok(Image(p)))
  }

  /** It succeeds exactly when the pages and one more fit. */
  lemma RendersExactly(p: Part)
    requires p.Valid()
    ensures Render(p).1.Ok? <==> (|p.pages| + 1) * 4096 <= p.size
    ensures Render(p).1.Err? ==> Render(p) == (p, Err(TooManyPages))
  {
    hide Image, Finals;
  }

  // ---------------------------------------------------------------- runs of calls

  datatype Call = Put(ns: seq<byte>, key: seq<byte>, value: Value) | Bytes

  function Step(p: Part, c: Call): (r: (Part, Option<Error>))
    requires p.Valid()
    ensures r.0.Valid() && r.0.size == p.size
  {
    match c
    case Put(ns, key, value) => Set(p, ns, key, value)
    case Bytes => (Render(p).0, None)
  }

  function Run(p: Part, calls: seq<Call>): (q: Part)
    requires p.Valid()
    ensures q.Valid() && q.size == p.size
    decreases |calls|
  {
    if calls == [] then p else Run(Step(p, calls[0]).0, calls[1..])
  }

  // ---------------------------------------------------------------- the log behind the pages

  /** An item as it was handed to the builder, under the index it was given. */
  datatype Item = Item(ns: byte, key: seq<byte>, value: Value) {
    predicate Valid() { |key| <= MAX_KEY && IsValue(value) && Span(value) <= ENTRY_COUNT }

    /** What a reader is meant to find for it. */
    function Seen(): Entry { Entry(ns, CString(key), value) }
  }

  type StoredItem = it: Item | it.Valid() witness Item(0, [], Blob([]))

  function SlotsOf(items: seq<StoredItem>): seq<Slot>
    decreases |items|
  {
    if items == [] then [] else ItemSlots(items[0].ns, items[0].key, items[0].value) + SlotsOf(items[1..])
  }

  function Seen(items: seq<Item>): (es: seq<Entry>)
    ensures |es| == |items|
  {
    seq(|items|, i requires 0 <= i < |items| => items[i].Seen())
  }

  /** The whole log, page after page. */
  function Items(log: seq<seq<StoredItem>>): seq<Item> { Flat<Item>(log) }

  /** Every page is tiled by the items of its log: none is torn, none crosses into the next page. */
  predicate Holds(p: Part, log: seq<seq<StoredItem>>) {
    && p.Valid()
    && |log| == |p.pages|
    && forall i :: 0 <= i < |log| ==> p.pages[i].slots == SlotsOf(log[i])
  }

  lemma {:induction false} SlotsOfAppend(a: seq<StoredItem>, b: seq<StoredItem>)
    ensures SlotsOf(a + b) == SlotsOf(a) + SlotsOf(b)
    decreases |a|
  {
    hide ItemSlots;
    if a == [] {
      assert a + b == b;
    } else {
      assert (a + b)[1..] == a[1..] + b;
      SlotsOfAppend(a[1..], b);
    }
  }

  lemma SlotsOfOne(it: StoredItem)
    ensures SlotsOf([it]) == ItemSlots(it.ns, it.key, it.value)
  {
    assert SlotsOf([it][1..]) == [];
  }

  lemma FlatUpdateLast<T>(log: seq<seq<T>>, x: seq<T>)
    requires log != []
    ensures Flat(log[|log| - 1 := log[|log| - 1] + x]) == Flat(log) + x
  {
    var front, last := log[..|log| - 1], log[|log| - 1];
    assert log == front + [last];
    assert log[|log| - 1 := last + x] == front + [last + x];
    FlatSnoc(front, last);
    FlatSnoc(front, last + x);
  }

  function Extend(log: seq<seq<StoredItem>>, it: StoredItem): seq<seq<StoredItem>>
    requires log != []
  {
    log[|log| - 1 := log[|log| - 1] + [it]]
  }

  lemma AppendLog(p: Part, log: seq<seq<StoredItem>>, it: StoredItem)
    requires Holds(p, log) && p.Last().Free() >= Span(it.value)
    ensures Holds(WriteSlots(p, ItemSlots(it.ns, it.key, it.value)), Extend(log, it))
    ensures Items(Extend(log, it)) == Items(log) + [it]
  {
    hide ItemSlots, Flat;
    SlotsOfAppend(log[|log| - 1], [it]);
    SlotsOfOne(it);
    FlatUpdateLast<Item>(log, [it]);
  }

  lemma FitLog(p: Part, log: seq<seq<StoredItem>>, span: nat) returns (log': seq<seq<StoredItem>>)
    requires Holds(p, log) && Fit(p, span).Ok?
    ensures Holds(Fit(p, span).value, log') && Items(log') == Items(log)
  {
    hide Flat;
    log' := log;
    if p.Last().Free() < span {
      log' := log + [[]];
      FlatSnoc<Item>(log, []);
      NoSlots();
    }
  }

  lemma NoSlots()
    ensures SlotsOf([]) == []
  {
  }

  /** A write adds its item at the end of the log, or nothing at all. */
  lemma WriteLog(p: Part, log: seq<seq<StoredItem>>, ns: byte, key: seq<byte>, value: Value)
    returns (log': seq<seq<StoredItem>>)
    requires Holds(p, log) && IsValue(value)
    ensures Holds(Write(p, ns, key, value).0, log')
    ensures Write(p, ns, key, value).1.None? ==>
              Item(ns, key, value).Valid() && Items(log') == Items(log) + [Item(ns, key, value)]
    ensures Write(p, ns, key, value).1.Some? ==> Items(log') == Items(log)
  {
    hide Holds, ItemSlots, Items, WriteSlots;
    HoldsLength(p, log);
    if Fit(p, Span(value)).Err? {
      log' := log;
    } else {
      log' := FitLog(p, log, Span(value));
      if |key| <= MAX_KEY {
        var it: StoredItem := Item(ns, key, value);
        HoldsLength(Fit(p, Span(value)).value, log');
        AppendLog(Fit(p, Span(value)).value, log', it);
        log' := Extend(log', it);
      }
    }
  }

  lemma HoldsLength(p: Part, log: seq<seq<StoredItem>>)
    requires Holds(p, log)
    ensures p.Valid() && |log| == |p.pages| && log != []
  {
  }

  lemma NamespaceLog(p: Part, log: seq<seq<StoredItem>>, name: seq<byte>)
    returns (log': seq<seq<StoredItem>>)
    requires Holds(p, log)
    ensures var (q, r) := Namespace(p, name);
            var entry := Item(0, name, Int(U8, NextNs(p)));
            && Holds(q, log')
            && (name !in p.nss && r.Ok? ==> entry.Valid() && Items(log') == Items(log) + [entry])
            && (name in p.nss || r.Err? ==> Items(log') == Items(log))
  {
    if name in p.nss {
      log' := log;
    } else {
      Pow256Values();
      log' := WriteLog(p.(nsN := NextNs(p)), log, 0, name, Int(U8, NextNs(p)));
    }
  }

  /** What a call leaves in the log: a namespace entry if one was made, then the item if it went in. */
  function Traces(p: Part, ns: seq<byte>, key: seq<byte>, value: Value): seq<Item>
    requires p.Valid()
  {
    var (q, r) := Namespace(p, ns);
    (if ns !in p.nss && r.Ok? then [Item(0, ns, Int(U8, NextNs(p)))] else [])
    + (if r.Ok? && Write(q, r.value, key, value).1.None? then [Item(r.value, key, value)] else [])
  }

  lemma SetLog(p: Part, log: seq<seq<StoredItem>>, ns: seq<byte>, key: seq<byte>, value: Value)
    returns (log': seq<seq<StoredItem>>)
    requires Holds(p, log) && IsValue(value)
    ensures Holds(Set(p, ns, key, value).0, log')
    ensures Items(log') == Items(log) + Traces(p, ns, key, value)
  {
    hide Holds, Items, Write;
    HoldsLength(p, log);
    var log1 := NamespaceLog(p, log, ns);
    var (q, r) := Namespace(p, ns);
    log' := log1;
    if r.Ok? {
      log' := WriteLog(q, log1, r.value, key, value);
    }
  }

  /** Rendering rewrites headers only. */
  lemma RenderLog(p: Part, log: seq<seq<StoredItem>>)
    requires Holds(p, log)
    ensures Holds(Render(p).0, log)
  {
  }

  lemma StepLog(p: Part, log: seq<seq<StoredItem>>, c: Call) returns (log': seq<seq<StoredItem>>)
    requires Holds(p, log) && (c.Put? ==> IsValue(c.value))
    ensures Holds(Step(p, c).0, log')
    ensures Items(log') == Items(log) + StepTraces(p, c)
  {
    match c {
      case Put(ns, key, value) => log' := SetLog(p, log, ns, key, value);
      case Bytes =>
        RenderLog(p, log);
        log' := log;
        assert Items(log') == Items(log) + [];
    }
  }

  /** The integers of a run's calls are in the range of their types. */
  predicate GoodCalls(calls: seq<Call>) {
    forall c :: c in calls && c.Put? ==> IsValue(c.value)
  }

  function StepTraces(p: Part, c: Call): seq<Item>
    requires p.Valid()
  {
    match c
    case Put(ns, key, value) => Traces(p, ns, key, value)
    case Bytes => []
  }

  /** Everything a run leaves in the log, failed calls included. */
  function RunTraces(p: Part, calls: seq<Call>): seq<Item>
    requires p.Valid()
    decreases |calls|
  {
    if calls == [] then [] else StepTraces(p, calls[0]) + RunTraces(Step(p, calls[0]).0, calls[1..])
  }

  /** After any run, whatever failed and however often it was rendered in between, every page is
      tiled by whole items, and the log has grown by exactly what the calls left. */
  lemma {:induction false} RunLog(p: Part, log: seq<seq<StoredItem>>, calls: seq<Call>)
    returns (log': seq<seq<StoredItem>>)
    requires Holds(p, log) && GoodCalls(calls)
    ensures Holds(Run(p, calls), log')
    ensures Items(log') == Items(log) + RunTraces(p, calls)
    decreases |calls|
  {
    hide Holds, Items, Step, StepTraces;
    HoldsLength(p, log);
    log' := log;
    if calls != [] {
      assert calls[0] in calls;
      var log1 := StepLog(p, log, calls[0]);
      log' := RunLog(Step(p, calls[0]).0, log1, calls[1..]);
    }
  }
}
