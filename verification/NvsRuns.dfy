/** Whole runs of the NVS builder: exactly which sequences of calls are read back as what their
    successful calls set, given that the namespace counter is one byte. */
module NvsRuns {
  import opened Bytes
  import opened NvsFormat
  import opened NvsImage
  import opened NvsPartition
  import opened NvsReadBack

  // ---------------------------------------------------------------- namespaces and their indices

  /** The reader's names agree with the builder's table. */
  predicate NamesMatch(p: Part, names: Names) {
    forall n :: n in p.nss ==> p.nss[n] != 0 && p.nss[n] in names && names[p.nss[n]] == CString(n)
  }

  function NamesIn(log: seq<seq<StoredItem>>): Names { NamesAfter(Seen(Items(log)), map[]) }

  /** A new namespace is about to get index 0, or the index of a namespace with another name. */
  predicate Clash(p: Part, ns: seq<byte>) {
    && ns !in p.nss && |ns| <= MAX_KEY
    && (NextNs(p) == 0 || exists n :: n in p.nss && p.nss[n] == NextNs(p) && CString(n) != CString(ns))
  }

  lemma NamespaceSucceeds(p: Part, ns: seq<byte>)
    requires p.Valid() && ns !in p.nss
    ensures Namespace(p, ns).1.Ok? <==> |ns| <= MAX_KEY
    ensures Namespace(p, ns).1.Ok? ==> Namespace(p, ns).1.value == NextNs(p)
    ensures Namespace(p, ns).0.nss == if |ns| <= MAX_KEY then p.nss[ns := NextNs(p)] else p.nss
  {
  }

  /** The settings a call adds to what a reader sees. */
  function Added(p: Part, ns: seq<byte>, key: seq<byte>, value: Value, names: Names): seq<Setting>
    requires p.Valid()
  {
    Resolve(Seen(Traces(p, ns, key, value)), names)
  }

  function NamesThen(p: Part, ns: seq<byte>, key: seq<byte>, value: Value, names: Names): Names
    requires p.Valid()
  {
    NamesAfter(Seen(Traces(p, ns, key, value)), names)
  }

  /** What the caller of a successful call is owed. */
  function Owed(p: Part, ns: seq<byte>, key: seq<byte>, value: Value): seq<Setting>
    requires p.Valid()
  {
    if Set(p, ns, key, value).1.None? then [Setting(CString(ns), CString(key), value)] else []
  }

  lemma SetTable(p: Part, ns: seq<byte>, key: seq<byte>, value: Value)
    requires p.Valid()
    ensures Set(p, ns, key, value).0.nss == Namespace(p, ns).0.nss
  {
    hide Write, Namespace;
  }

  /** The namespace entry of a call, if it made one, and then its item, if it went in. */
  lemma TracesSeen(p: Part, ns: seq<byte>, key: seq<byte>, value: Value, names: Names)
    requires p.Valid()
    ensures var isNew := ns !in p.nss && |ns| <= MAX_KEY;
            var idx := if ns in p.nss then p.nss[ns] else NextNs(p);
            var names1 := if isNew then names[NextNs(p) := CString(ns)] else names;
            var item := Entry(idx, CString(key), value);
            && Added(p, ns, key, value, names)
               == (if Set(p, ns, key, value).1.None? then Resolved(item, names1) else [])
            && NamesThen(p, ns, key, value, names)
               == (if Set(p, ns, key, value).1.None? then Define(names1, item) else names1)
  {
    hide Write, CString;
    if ns !in p.nss {
      NamespaceSucceeds(p, ns);
    }
    var (q, r) := Namespace(p, ns);
    var ok := Set(p, ns, key, value).1.None?;
    var entry := Item(0, ns, Int(U8, NextNs(p)));
    var first: seq<Item> := if ns !in p.nss && r.Ok? then [entry] else [];
    var second: seq<Item> := if ok then [Item(r.value, key, value)] else [];
    assert Traces(p, ns, key, value) == first + second;
    SeenAppend(first, second);
    ResolveAppend(Seen(first), Seen(second), names);
    OneSeen(entry, names);
    if ok {
      OneSeen(Item(r.value, key, value), NamesAfter(Seen(first), names));
    }
  }

  lemma OneSeen(it: Item, names: Names)
    ensures Resolve(Seen([it]), names) == Resolved(it.Seen(), names)
    ensures NamesAfter(Seen([it]), names) == Define(names, it.Seen())
  {
    assert Seen([it]) == [it.Seen()];
    assert Seen([it])[1..] == [];
  }

  /** The table stays right through a call exactly when the call does not clash, and then the
      call adds to the reader's settings what it owes, and nothing else. */
  lemma SetReadBack(p: Part, ns: seq<byte>, key: seq<byte>, value: Value, names: Names)
    requires p.Valid() && NamesMatch(p, names)
    ensures NamesMatch(Set(p, ns, key, value).0, NamesThen(p, ns, key, value, names)) <==> !Clash(p, ns)
    ensures !Clash(p, ns) ==> Added(p, ns, key, value, names) == Owed(p, ns, key, value)
  {
    hide Write, CString, Set, Namespace, Added, NamesThen;
    TracesSeen(p, ns, key, value, names);
    SetTable(p, ns, key, value);
    var nss := Set(p, ns, key, value).0.nss;
    if ns in p.nss {
      KnownNamespace(p, ns);
    } else {
      NamespaceSucceeds(p, ns);
      if |ns| > MAX_KEY {
        SetNeedsNamespace(p, ns, key, value);
      }
      if |ns| <= MAX_KEY && Clash(p, ns) && NextNs(p) == 0 {
        assert ns in nss && nss[ns] == 0;
      } else if Clash(p, ns) {
        var n :| n in p.nss && p.nss[n] == NextNs(p) && CString(n) != CString(ns);
        assert n in nss && nss[n] == NextNs(p);
      }
    }
  }

  lemma KnownNamespace(p: Part, ns: seq<byte>)
    requires p.Valid() && ns in p.nss
    ensures Namespace(p, ns) == (p, Ok(p.nss[ns]))
  {
  }

  lemma SetNeedsNamespace(p: Part, ns: seq<byte>, key: seq<byte>, value: Value)
    requires p.Valid() && Namespace(p, ns).1.Err?
    ensures Set(p, ns, key, value).1.Some?
  {
  }

  // ---------------------------------------------------------------- what one call gets back

  /** The index that items under `ns` get. */
  function IndexOf(p: Part, ns: seq<byte>): byte { if ns in p.nss then p.nss[ns] else NextNs(p) }

  /** The name each index was last given, after a call under `ns`. */
  function Given(p: Part, ns: seq<byte>, names: Names): Names {
    if ns !in p.nss && |ns| <= MAX_KEY then names[NextNs(p) := CString(ns)] else names
  }

  /** If the call succeeds, its index is not 0 and was last given the name the call is for. */
  predicate Keeps(p: Part, ns: seq<byte>, key: seq<byte>, value: Value, names: Names)
    requires p.Valid()
  {
    Set(p, ns, key, value).1.None? ==>
      IndexOf(p, ns) != 0 && IndexOf(p, ns) in Given(p, ns, names) && Given(p, ns, names)[IndexOf(p, ns)] == CString(ns)
  }

  /** A call adds to the reader's settings what it owes exactly when its index is right; it never
      adds more than one setting, nor any when it failed. */
  lemma CallKept(p: Part, ns: seq<byte>, key: seq<byte>, value: Value, names: Names)
    requires p.Valid()
    ensures Added(p, ns, key, value, names) == Owed(p, ns, key, value) <==> Keeps(p, ns, key, value, names)
    ensures Keeps(p, ns, key, value, names) ==> NamesThen(p, ns, key, value, names) == Given(p, ns, names)
    ensures |Added(p, ns, key, value, names)| <= |Owed(p, ns, key, value)| <= 1
  {
    hide Set, CString, Added, NamesThen;
    TracesSeen(p, ns, key, value, names);
    if ns !in p.nss && |ns| > MAX_KEY {
      NamespaceSucceeds(p, ns);
      SetNeedsNamespace(p, ns, key, value);
    }
  }

  // ---------------------------------------------------------------- runs

  predicate NoClash(p: Part, calls: seq<Call>)
    requires p.Valid()
    decreases |calls|
  {
    calls == [] ||
    ((calls[0].Put? ==> !Clash(p, calls[0].ns)) && NoClash(Step(p, calls[0]).0, calls[1..]))
  }

  /** The settings of the calls that succeeded, in the order of the calls. */
  function Accepted(p: Part, calls: seq<Call>): seq<Setting>
    requires p.Valid()
    decreases |calls|
  {
    if calls == [] then [] else
      (match calls[0] case Put(ns, key, value) => Owed(p, ns, key, value) case Bytes => [])
      + Accepted(Step(p, calls[0]).0, calls[1..])
  }

  lemma LogGrows(log: seq<seq<StoredItem>>, log': seq<seq<StoredItem>>, more: seq<Item>)
    requires Items(log') == Items(log) + more
    ensures Settings(log') == Settings(log) + Resolve(Seen(more), NamesIn(log))
    ensures NamesIn(log') == NamesAfter(Seen(more), NamesIn(log))
  {
    SeenAppend(Items(log), more);
    ResolveAppend(Seen(Items(log)), Seen(more), map[]);
  }

  /** Every successful call of a run gets an index that is not 0 and whose last name is the one
      the call is for. */
  predicate Kept(p: Part, names: Names, calls: seq<Call>)
    requires p.Valid()
    decreases |calls|
  {
    calls == [] ||
    match calls[0]
    case Put(ns, key, value) =>
      Keeps(p, ns, key, value, names) && Kept(Step(p, calls[0]).0, Given(p, ns, names), calls[1..])
    case Bytes => Kept(Step(p, calls[0]).0, names, calls[1..])
  }

  /** What a reader with `names` makes of all that a run leaves in the log. */
  function Resolution(p: Part, names: Names, calls: seq<Call>): seq<Setting>
    requires p.Valid()
  {
    Resolve(Seen(RunTraces(p, calls)), names)
  }

  lemma ResolutionStep(p: Part, names: Names, calls: seq<Call>)
    requires p.Valid() && calls != []
    ensures Resolution(p, names, calls) ==
            match calls[0]
            case Put(ns, key, value) =>
              Added(p, ns, key, value, names)
              + Resolution(Step(p, calls[0]).0, NamesThen(p, ns, key, value, names), calls[1..])
            case Bytes => Resolution(Step(p, calls[0]).0, names, calls[1..])
  {
    hide Set, Traces, Render;
    var first, rest := StepTraces(p, calls[0]), RunTraces(Step(p, calls[0]).0, calls[1..]);
    SeenAppend(first, rest);
    ResolveAppend(Seen(first), Seen(rest), names);
  }

  /** Unequal parts of a sum of sequences show in the whole when the first is the shorter. */
  lemma PartsShow<T>(a: seq<T>, b: seq<T>, rest: seq<T>, more: seq<T>)
    requires |a| <= |b| && |rest| <= |more|
    ensures a + rest == b + more <==> a == b && rest == more
  {
    if a + rest == b + more {
      assert |a| == |b|;
      assert (a + rest)[..|a|] == a && (b + more)[..|a|] == b;
      assert (a + rest)[|a|..] == rest && (b + more)[|a|..] == more;
    }
  }

  /** The settings of a run come back exactly when every index was right when it was used. */
  lemma {:induction false} RunKept(p: Part, names: Names, calls: seq<Call>)
    requires p.Valid()
    ensures |Resolution(p, names, calls)| <= |Accepted(p, calls)|
    ensures Resolution(p, names, calls) == Accepted(p, calls) <==> Kept(p, names, calls)
    decreases |calls|
  {
    hide Resolution, Added, NamesThen, Owed, Step, Given, Keeps;
    if calls == [] {
      NothingLeft(p, names);
    } else {
      ResolutionStep(p, names, calls);
      var q := Step(p, calls[0]).0;
      match calls[0] {
        case Put(ns, key, value) =>
          CallKept(p, ns, key, value, names);
          RunKept(q, NamesThen(p, ns, key, value, names), calls[1..]);
          PartsShow(Added(p, ns, key, value, names), Owed(p, ns, key, value),
                    Resolution(q, NamesThen(p, ns, key, value, names), calls[1..]), Accepted(q, calls[1..]));
        case Bytes => RunKept(q, names, calls[1..]);
      }
    }
  }

  lemma NothingLeft(p: Part, names: Names)
    requires p.Valid()
    ensures Resolution(p, names, []) == []
  {
  }

  lemma EmptyLog(size: int)
    requires New(size).Ok?
    ensures Holds(New(size).value, [[]]) && Settings([[]]) == []
  {
    FlatOne<Item>([]);
    assert Seen([]) == [];
  }

  lemma EmptyTable(size: int)
    requires New(size).Ok?
    ensures NamesMatch(New(size).value, map[])
  {
  }

  /** What a rendered image of any run reads back as. */
  lemma ImageOfRun(size: int, calls: seq<Call>)
    requires New(size).Ok? && size <= 0x1_0000_0000 * PAGE_SIZE && GoodCalls(calls)
    requires Renders(Run(New(size).value, calls))
    ensures ReadImage(Render(Run(New(size).value, calls)).1.value) == Some(Resolution(New(size).value, map[], calls))
  {
    hide Run, Image, ReadImage, Seen, Resolve, RunTraces;
    var p := New(size).value;
    EmptyLog(size);
    var log := RunLog(p, [[]], calls);
    FlatOne<Item>([]);
    assert Items([[]]) + RunTraces(p, calls) == RunTraces(p, calls);
    ImageReadBack(Run(p, calls), log);
  }

  /** The main result: for every run that renders, the image reads back as the settings of the
      calls that succeeded, in order, names and keys taken up to their first NUL, if and only if
      every successful call got an index that is not 0 and was last given the name it is for. */
  lemma ReadBackExactly(size: int, calls: seq<Call>)
    requires New(size).Ok? && size <= 0x1_0000_0000 * PAGE_SIZE && GoodCalls(calls)
    requires Renders(Run(New(size).value, calls))
    ensures ReadImage(Render(Run(New(size).value, calls)).1.value) == Some(Accepted(New(size).value, calls))
       <==> Kept(New(size).value, map[], calls)
  {
    hide Kept, Accepted, Resolution, Run, Image, ReadImage;
    ImageOfRun(size, calls);
    RunKept(New(size).value, map[], calls);
  }

  /** A run without a clash is one of those. */
  lemma {:induction false} NoClashKept(p: Part, names: Names, calls: seq<Call>)
    requires p.Valid() && NamesMatch(p, names) && NoClash(p, calls)
    ensures Kept(p, names, calls)
    decreases |calls|
  {
    hide NamesMatch, Clash, Set, Render, Given, Keeps, NamesThen, Added, Owed;
    if calls != [] {
      match calls[0] {
        case Put(ns, key, value) =>
          SetReadBack(p, ns, key, value, names);
          CallKept(p, ns, key, value, names);
          NoClashKept(Step(p, calls[0]).0, Given(p, ns, names), calls[1..]);
        case Bytes =>
          BytesKeepsTable(p, names);
          NoClashKept(Step(p, calls[0]).0, names, calls[1..]);
      }
    }
  }

  lemma BytesKeepsTable(p: Part, names: Names)
    requires p.Valid() && NamesMatch(p, names)
    ensures NamesMatch(Step(p, Bytes).0, names)
  {
  }

  lemma ReadBack(size: int, calls: seq<Call>)
    requires New(size).Ok? && size <= 0x1_0000_0000 * PAGE_SIZE
    requires GoodCalls(calls) && NoClash(New(size).value, calls)
    requires Renders(Run(New(size).value, calls))
    ensures ReadImage(Render(Run(New(size).value, calls)).1.value) == Some(Accepted(New(size).value, calls))
  {
    hide NamesMatch, NoClash, Kept, Accepted, Run, Image, ReadImage;
    EmptyTable(size);
    NoClashKept(New(size).value, map[], calls);
    ReadBackExactly(size, calls);
  }

  // ---------------------------------------------------------------- the limit of the counter

  /** How often a run asks for an index: once for each call under a name not in the table. */
  function Attempts(p: Part, calls: seq<Call>): nat
    requires p.Valid()
    decreases |calls|
  {
    if calls == [] then 0 else
      (if calls[0].Put? && calls[0].ns !in p.nss then 1 else 0) + Attempts(Step(p, calls[0]).0, calls[1..])
  }

  predicate IndicesInUse(p: Part) { forall n :: n in p.nss ==> 1 <= p.nss[n] <= p.nsN }

  lemma StepCounter(p: Part, c: Call)
    requires p.Valid() && IndicesInUse(p)
    requires c.Put? && c.ns !in p.nss ==> p.nsN < 255
    ensures IndicesInUse(Step(p, c).0)
    ensures Step(p, c).0.nsN == p.nsN + if c.Put? && c.ns !in p.nss then 1 else 0
    ensures c.Put? ==> !Clash(p, c.ns)
  {
    hide Write;
  }

  /** A caller who asks for at most 255 indices never sees a clash. */
  lemma {:induction false} FewAttemptsNoClash(p: Part, calls: seq<Call>)
    requires p.Valid() && IndicesInUse(p) && p.nsN + Attempts(p, calls) <= 255
    ensures NoClash(p, calls)
    decreases |calls|
  {
    hide Step, IndicesInUse, Clash;
    if calls != [] {
      StepCounter(p, calls[0]);
      FewAttemptsNoClash(Step(p, calls[0]).0, calls[1..]);
    }
  }

  /** In particular: read-back under a condition the caller can count. */
  lemma ReadBackWithin255(size: int, calls: seq<Call>)
    requires New(size).Ok? && size <= 0x1_0000_0000 * PAGE_SIZE
    requires GoodCalls(calls) && Attempts(New(size).value, calls) <= 255
    requires Renders(Run(New(size).value, calls))
    ensures ReadImage(Render(Run(New(size).value, calls)).1.value) == Some(Accepted(New(size).value, calls))
  {
    FewAttemptsNoClash(New(size).value, calls);
    ReadBack(size, calls);
  }

  // The limit is real: a name too long for a namespace entry still uses up an index.

  const LONG_NAME := Fill(16, 0x41)

  function Burn(k: nat): seq<Call> {
    if k == 0 then [] else [Put(LONG_NAME, [0x6B], Int(U8, 1))] + Burn(k - 1)
  }

  lemma BurnOne(p: Part)
    requires p.Valid() && LONG_NAME !in p.nss && p.Last().Free() > 0
    ensures Set(p, LONG_NAME, [0x6B], Int(U8, 1)) == (p.(nsN := NextNs(p)), Some(KeyTooLong))
  {
  }

  lemma BurnStep(p: Part, calls: seq<Call>)
    requires p.Valid() && p.nss == map[] && p.Last().Free() > 0
    requires calls != [] && calls[0] == Put(LONG_NAME, [0x6B], Int(U8, 1))
    ensures Run(p, calls) == Run(p.(nsN := NextNs(p)), calls[1..])
    ensures Accepted(p, calls) == Accepted(p.(nsN := NextNs(p)), calls[1..])
  {
    hide Set, NextNs, CString;
    BurnOne(p);
  }

  lemma {:induction false} BurnRun(p: Part, k: nat, rest: seq<Call>)
    requires p.Valid() && p.nss == map[] && p.Last().Free() > 0 && p.nsN + k <= 255
    ensures Run(p, Burn(k) + rest) == Run(p.(nsN := p.nsN + k), rest)
    ensures Accepted(p, Burn(k) + rest) == Accepted(p.(nsN := p.nsN + k), rest)
    decreases k
  {
    hide Run, Accepted;
    if k == 0 {
      assert Burn(0) + rest == rest;
    } else {
      var calls := Burn(k) + rest;
      assert calls[1..] == Burn(k - 1) + rest;
      BurnStep(p, calls);
      BurnRun(p.(nsN := p.nsN + 1), k - 1, rest);
    }
  }

  const LOST := Put([0x61], [0x6B], Int(U8, 1))

  lemma LostSetting(p: Part)
    requires p.Valid() && p.nss == map[] && p.nsN == 255 && p.pages == [NewPage(0)]
    ensures Set(p, LOST.ns, LOST.key, LOST.value).1.None?
    ensures Traces(p, LOST.ns, LOST.key, LOST.value) == [Item(0, LOST.ns, Int(U8, 0)), Item(0, LOST.key, LOST.value)]
    ensures |Set(p, LOST.ns, LOST.key, LOST.value).0.pages| == 1
  {
    hide ItemSlots;
  }

  /** After 255 wasted indices the next namespace gets index 0. The call succeeds, the image
      renders, and the reader takes the setting for a namespace entry: it is gone. */
  lemma CounterWrapLosesSetting()
    ensures var p := New(0x3000).value; var calls := Burn(255) + [LOST];
            && Accepted(p, calls) == [Setting([0x61], [0x6B], Int(U8, 1))]
            && Renders(Run(p, calls))
            && ReadImage(Render(Run(p, calls)).1.value) == Some([])
  {
    hide Set, Traces, Holds, Render;
    var p := New(0x3000).value;
    var full := p.(nsN := 255);
    BurnRun(p, 255, [LOST]);
    LostSetting(full);
    WrappedRun(full);
  }

  lemma WrappedRun(p: Part)
    requires p.Valid() && p.nss == map[] && p.nsN == 255 && p.pages == [NewPage(0)] && p.size == 0x3000
    ensures Accepted(p, [LOST]) == [Setting([0x61], [0x6B], Int(U8, 1))]
    ensures Renders(Run(p, [LOST]))
    ensures ReadImage(Render(Run(p, [LOST])).1.value) == Some([])
  {
    hide Set, Traces, Image, ReadImage;
    var q := Set(p, LOST.ns, LOST.key, LOST.value).0;
    LostSetting(p);
    assert [LOST][1..] == [];
    CStringUnique([0x61], [0x61]);
    CStringUnique([0x6B], [0x6B]);
    EmptyLog(0x3000);
    assert Holds(p, [[]]);
    Pow256Values();
    var log := SetLog(p, [[]], LOST.ns, LOST.key, LOST.value);
    NothingResolved(log);
    ImageReadBack(q, log);
  }

  lemma NothingResolved(log: seq<seq<StoredItem>>)
    requires Items(log) == Items([[]]) + [Item(0, LOST.ns, Int(U8, 0)), Item(0, LOST.key, LOST.value)]
    ensures Settings(log) == []
  {
    FlatOne<Item>([]);
    var a, b := Item(0, LOST.ns, Int(U8, 0)), Item(0, LOST.key, LOST.value);
    assert Items(log) == [a] + [b];
    SeenAppend([a], [b]);
    OneSeen(a, map[]);
    OneSeen(b, NamesAfter(Seen([a]), map[]));
    ResolveAppend(Seen([a]), Seen([b]), map[]);
  }
}
