/** The partition table parser: exactly which images it accepts, and as what. */
module PartitionTable {
  import opened Bytes

  const ENTRY_SIZE := 32
  const ENTRY_MAGIC := 0x50AA
  const MD5_MAGIC := 0xEBEB
  const ERASED_MAGIC := 0xFFFF
  const MAX_TABLE_SIZE := 0xC00
  const MAX_RECORDS := 96

  datatype Entry = Entry(name: seq<byte>, typ: byte, subType: byte, offset: uint32, size: uint32, flags: uint32)

  datatype Error = BadRecord(off: nat) | BadMagic(magic: nat, off: nat) | NoEntries

  type Record = s: seq<byte> | |s| == ENTRY_SIZE witness Fill(ENTRY_SIZE, 0xFF)

  const ERASED: Record := Fill(ENTRY_SIZE, 0xFF)

  function Magic(rec: Record): nat { FromLe(rec[0..2]) }

  function Word(rec: Record, at: nat): uint32
    requires at + 4 <= ENTRY_SIZE
  {
    Pow256Values();
    FromLeBound(rec[at..at + 4]);
    FromLe(rec[at..at + 4])
  }

  /** The fields of a data record; the name ends at its first NUL, if it has one. */
  function EntryOf(rec: Record): Entry {
    Entry(CString(rec[12..28]), rec[2], rec[3], Word(rec, 4), Word(rec, 8), Word(rec, 28))
  }

  // ---------------------------------------------------------------- the parser

  function RecordAt(data: seq<byte>, off: nat): Record
    requires off + ENTRY_SIZE <= |data|
  {
    data[off..off + ENTRY_SIZE]
  }

  /** The records from `off` on, up to an erased one, the end of the data or the size limit. */
  function ParseFrom(data: seq<byte>, off: nat): Result<seq<Entry>, Error>
    decreases |data| - off
  {
    if off + ENTRY_SIZE > |data| || off >= MAX_TABLE_SIZE then Ok([]) else
      var rec := RecordAt(data, off);
      if Magic(rec) == ENTRY_MAGIC then
        match ParseFrom(data, off + ENTRY_SIZE)
        case Err(e) => Err(e)
        case Ok(es) => Ok([EntryOf(rec)] + es)
      else if Magic(rec) == MD5_MAGIC then ParseFrom(data, off + ENTRY_SIZE)
      else if Magic(rec) == ERASED_MAGIC then if rec == ERASED then Ok([]) else Err(BadRecord(off))
      else Err(BadMagic(Magic(rec), off))
  }

  function Parse(data: seq<byte>): Result<seq<Entry>, Error> {
    match ParseFrom(data, 0)
    case Err(e) => Err(e)
    case Ok(es) => if es == [] then Err(NoEntries) else Ok(es)
  }

  /** `bytes.IndexByte(name, 0)`, cut there if found. */
  method CutAtNul(field: seq<byte>) returns (name: seq<byte>)
    ensures name == CString(field)
  {
    for i := 0 to |field|
      invariant 0 !in field[..i]
    {
      if field[i] == 0 {
        CStringUnique(field, field[..i]);
        return field[..i];
      }
    }
    assert field[..|field|] == field;
    CStringUnique(field, field);
    return field;
  }

  /** `bytes.Count(rec, {0xFF})`. */
  method CountErased(rec: Record) returns (n: nat)
    ensures n <= ENTRY_SIZE && (n == ENTRY_SIZE <==> rec == ERASED)
  {
    n := 0;
    for i := 0 to ENTRY_SIZE
      invariant n <= i && (n == i <==> forall k :: 0 <= k < i ==> rec[k] == 0xFF)
    {
      if rec[i] == 0xFF {
        n := n + 1;
      }
    }
  }

  method ParseTable(data: seq<byte>) returns (r: Result<seq<Entry>, Error>)
    ensures r == Parse(data)
  {
    var out: seq<Entry> := [];
    var off := 0;
    ghost var ended := false;
    PrependLaws(ParseFrom(data, 0));
    while off + ENTRY_SIZE <= |data| && off < MAX_TABLE_SIZE
      invariant ParseFrom(data, 0) == Prepend(out, if ended then Ok([]) else ParseFrom(data, off))
      invariant ended ==> off >= MAX_TABLE_SIZE
      decreases |data| - off
    {
      var rec: Record := data[off..off + ENTRY_SIZE];
      var magic := FromLe(rec[0..2]);
      if magic == ENTRY_MAGIC {
        var name := CutAtNul(rec[12..28]);
        PrependMore(out, EntryOf(rec), ParseFrom(data, off + ENTRY_SIZE));
        out := out + [Entry(name, rec[2], rec[3], Word(rec, 4), Word(rec, 8), Word(rec, 28))];
      } else if magic == MD5_MAGIC {
        // checksum record
      } else if magic == ERASED_MAGIC {
        var n := CountErased(rec);
        if n != ENTRY_SIZE {
          return Err(BadRecord(off));
        }
        off := MAX_TABLE_SIZE; // the step below moves on past the limit
        ended := true;
      } else {
        return Err(BadMagic(magic, off));
      }
      off := off + ENTRY_SIZE;
    }
    assert out + [] == out;
    if out == [] {
      return Err(NoEntries);
    }
    return Ok(out);
  }

  function Prepend(out: seq<Entry>, r: Result<seq<Entry>, Error>): Result<seq<Entry>, Error> {
    match r
    case Err(e) => Err(e)
    case Ok(es) => Ok(out + es)
  }

  lemma PrependLaws(r: Result<seq<Entry>, Error>)
    ensures Prepend([], r) == r
  {
    if r.Ok? {
      assert [] + r.value == r.value;
    }
  }

  lemma PrependMore(out: seq<Entry>, e: Entry, r: Result<seq<Entry>, Error>)
    ensures Prepend(out + [e], r) == Prepend(out, match r case Err(x) => Err(x) case Ok(es) => Ok([e] + es))
  {
    if r.Ok? {
      assert out + [e] + r.value == out + ([e] + r.value);
    }
  }

  /** `FindEntry`: the first entry of that name. */
  method FindEntry(entries: seq<Entry>, name: seq<byte>) returns (found: Option<nat>)
    ensures found.None? ==> forall i :: 0 <= i < |entries| ==> entries[i].name != name
    ensures found.Some? ==> found.value < |entries| && entries[found.value].name == name
                            && forall i :: 0 <= i < found.value ==> entries[i].name != name
  {
    for i := 0 to |entries|
      invariant forall k :: 0 <= k < i ==> entries[k].name != name
    {
      if entries[i].name == name {
        return Some(i);
      }
    }
    return None;
  }

  // ---------------------------------------------------------------- exactly the tables it accepts

  /** A record by its first two bytes. */
  predicate IsEntry(rec: Record) { rec[0] == 0xAA && rec[1] == 0x50 }
  predicate IsMd5(rec: Record) { rec[0] == 0xEB && rec[1] == 0xEB }
  predicate Known(rec: Record) { IsEntry(rec) || IsMd5(rec) }

  lemma MagicBytes(rec: Record)
    ensures Magic(rec) == rec[0] as int + 0x100 * (rec[1] as int)
    ensures Magic(rec) == ENTRY_MAGIC <==> IsEntry(rec)
    ensures Magic(rec) == MD5_MAGIC <==> IsMd5(rec)
    ensures Magic(rec) == ERASED_MAGIC <==> rec[0] == 0xFF && rec[1] == 0xFF
  {
    assert rec[0..2] == [rec[0], rec[1]];
    TwoBytes(rec[0], rec[1]);
  }

  predicate AllKnown(recs: seq<Record>) { forall i :: 0 <= i < |recs| ==> Known(recs[i]) }

  /** The data records among `recs`, in order. */
  function Entries(recs: seq<Record>): seq<Entry> {
    if recs == [] then [] else
      (if IsEntry(recs[0]) then [EntryOf(recs[0])] else []) + Entries(recs[1..])
  }

  /** Nothing of `tail` belongs to a table of `n` records. */
  predicate Ends(n: nat, tail: seq<byte>) {
    n == 96 || |tail| < 32 || forall i :: 0 <= i < 32 ==> tail[i] == 0xFF
  }

  lemma ErasedMagic()
    ensures Magic(ERASED) == ERASED_MAGIC
  {
    MagicBytes(ERASED);
  }

  /** Records, then something that ends the table: the entries come out in order. */
  lemma {:induction false} ParsesRecords(front: seq<byte>, n: nat, recs: seq<Record>, tail: seq<byte>)
    requires |front| == n * ENTRY_SIZE && n + |recs| <= MAX_RECORDS
    requires AllKnown(recs) && Ends(n + |recs|, tail)
    ensures ParseFrom(front + Flat(recs) + tail, n * ENTRY_SIZE) == Ok(Entries(recs))
    decreases |recs|
  {
    hide Magic, EntryOf;
    var data := front + Flat(recs) + tail;
    if recs == [] {
      assert data == front + tail;
      if n < MAX_RECORDS && |tail| >= ENTRY_SIZE {
        assert RecordAt(data, n * ENTRY_SIZE) == tail[..ENTRY_SIZE] == ERASED;
        ErasedMagic();
      }
    } else {
      var front2 := front + recs[0];
      assert data == front2 + Flat(recs[1..]) + tail;
      assert RecordAt(data, n * ENTRY_SIZE) == recs[0];
      MagicBytes(recs[0]);
      ParsesRecords(front2, n + 1, recs[1..], tail);
      assert [] + Entries(recs[1..]) == Entries(recs[1..]);
    }
  }

  /** And the other way round: what was parsed were such records, ended in such a way. */
  lemma {:induction false} RecordsParsed(data: seq<byte>, n: nat) returns (recs: seq<Record>, tail: seq<byte>)
    requires n * ENTRY_SIZE <= |data| && n <= MAX_RECORDS && ParseFrom(data, n * ENTRY_SIZE).Ok?
    ensures data[n * ENTRY_SIZE..] == Flat(recs) + tail && n + |recs| <= MAX_RECORDS
    ensures AllKnown(recs) && Ends(n + |recs|, tail)
    ensures ParseFrom(data, n * ENTRY_SIZE).value == Entries(recs)
    decreases |data| - n * ENTRY_SIZE
  {
    hide Magic, EntryOf;
    var off := n * ENTRY_SIZE;
    recs, tail := [], data[off..];
    if off + ENTRY_SIZE <= |data| && off < MAX_TABLE_SIZE {
      var rec := RecordAt(data, off);
      MagicBytes(rec);
      if Known(rec) {
        var more;
        more, tail := RecordsParsed(data, n + 1);
        recs := [rec] + more;
        assert recs[1..] == more;
        assert data[off..] == rec + data[off + ENTRY_SIZE..];
        assert rec + (Flat(more) + tail) == Flat(recs) + tail;
      } else {
        assert tail[..ENTRY_SIZE] == rec == ERASED;
        assert forall i :: 0 <= i < 32 ==> tail[i] == tail[..ENTRY_SIZE][i];
      }
    }
  }

  /** The whole characterisation: a table parses to `es` exactly when it is at most 96 known
      records whose data records are `es`, at least one, and then the 97th record's place, an
      incomplete record, or an erased one. */
  lemma ParsesExactly(data: seq<byte>, es: seq<Entry>)
    ensures Parse(data) == Ok(es)
       <==> es != [] && exists recs: seq<Record>, tail :: data == Flat(recs) + tail && |recs| <= 96
                                            && AllKnown(recs) && Ends(|recs|, tail) && es == Entries(recs)
  {
    hide AllKnown, Ends, Entries, ParseFrom;
    if Parse(data) == Ok(es) {
      var recs, tail := RecordsParsed(data, 0);
      assert data[0..] == data;
    }
    forall recs: seq<Record>, tail | data == Flat(recs) + tail && |recs| <= 96
                                      && AllKnown(recs) && Ends(|recs|, tail) && es == Entries(recs) && es != []
      ensures Parse(data) == Ok(es)
    {
      ParsesRecords([], 0, recs, tail);
      assert [] + Flat(recs) + tail == data;
    }
  }

  /** And it is refused for having no entries exactly when it is such a table without data records. */
  lemma NoEntriesExactly(data: seq<byte>)
    ensures Parse(data) == Err(NoEntries)
       <==> exists recs: seq<Record>, tail :: data == Flat(recs) + tail && |recs| <= 96
                                            && AllKnown(recs) && Ends(|recs|, tail) && Entries(recs) == []
  {
    hide AllKnown, Ends, Entries, ParseFrom;
    NeverNoEntries(data, 0);
    if Parse(data) == Err(NoEntries) {
      var recs, tail := RecordsParsed(data, 0);
      assert data[0..] == data;
    }
    forall recs: seq<Record>, tail | data == Flat(recs) + tail && |recs| <= 96
                                      && AllKnown(recs) && Ends(|recs|, tail) && Entries(recs) == []
      ensures Parse(data) == Err(NoEntries)
    {
      ParsesRecords([], 0, recs, tail);
      assert [] + Flat(recs) + tail == data;
    }
  }

  lemma {:induction false} NeverNoEntries(data: seq<byte>, off: nat)
    ensures ParseFrom(data, off).Err? ==> !ParseFrom(data, off).error.NoEntries?
    decreases |data| - off
  {
    hide Magic, EntryOf;
    if off + ENTRY_SIZE <= |data| {
      NeverNoEntries(data, off + ENTRY_SIZE);
    }
  }

  /** How a record that is neither known nor erased is refused, with its offset. */
  function Refusal(rec: Record, off: nat): Error {
    if rec[0] == 0xFF && rec[1] == 0xFF then BadRecord(off)
    else BadMagic(rec[0] as int + 0x100 * (rec[1] as int), off)
  }

  /** One such record within the limit spoils the table, whatever stands behind it. */
  lemma {:induction false} RefusesRecord(front: seq<byte>, n: nat, recs: seq<Record>, bad: Record, tail: seq<byte>)
    requires |front| == n * ENTRY_SIZE && n + |recs| < MAX_RECORDS
    requires AllKnown(recs) && !Known(bad) && bad != ERASED
    ensures ParseFrom(front + Flat(recs) + bad + tail, n * ENTRY_SIZE) == Err(Refusal(bad, (n + |recs|) * ENTRY_SIZE))
    decreases |recs|
  {
    hide Magic, EntryOf;
    var data := front + Flat(recs) + bad + tail;
    if recs == [] {
      assert data == front + bad + tail;
      assert RecordAt(data, n * ENTRY_SIZE) == bad;
      MagicBytes(bad);
    } else {
      var front2 := front + recs[0];
      assert data == front2 + Flat(recs[1..]) + bad + tail;
      assert RecordAt(data, n * ENTRY_SIZE) == recs[0];
      MagicBytes(recs[0]);
      RefusesRecord(front2, n + 1, recs[1..], bad, tail);
    }
  }

  lemma RefusesTable(recs: seq<Record>, bad: Record, tail: seq<byte>)
    requires |recs| < 96 && AllKnown(recs) && !Known(bad) && bad != ERASED
    ensures Parse(Flat(recs) + bad + tail) == Err(Refusal(bad, |recs| * 32))
  {
    hide Refusal, ParseFrom, Known, AllKnown;
    RefusesRecord([], 0, recs, bad, tail);
    assert [] + Flat(recs) + bad + tail == Flat(recs) + bad + tail;
  }

  // ---------------------------------------------------------------- what it does not look at

  lemma {:induction false} SameUpToLimit(a: seq<byte>, b: seq<byte>, n: nat)
    requires |a| >= MAX_TABLE_SIZE && |b| >= MAX_TABLE_SIZE && a[..MAX_TABLE_SIZE] == b[..MAX_TABLE_SIZE]
    requires n <= MAX_RECORDS
    ensures ParseFrom(a, n * ENTRY_SIZE) == ParseFrom(b, n * ENTRY_SIZE)
    decreases MAX_RECORDS - n
  {
    hide Magic, EntryOf;
    if n < MAX_RECORDS {
      var off := n * ENTRY_SIZE;
      SliceOfTake(a, MAX_TABLE_SIZE, off, off + ENTRY_SIZE);
      SliceOfTake(b, MAX_TABLE_SIZE, off, off + ENTRY_SIZE);
      SameUpToLimit(a, b, n + 1);
    }
  }

  /** Bytes at or past 0xC00 do not matter, whether the table is good or not. */
  lemma NothingPastLimit(data: seq<byte>)
    requires |data| >= 0xC00
    ensures Parse(data) == Parse(data[..0xC00])
  {
    SameUpToLimit(data, data[..MAX_TABLE_SIZE], 0);
  }

  lemma {:induction false} SameUpToErased(front: seq<byte>, x: seq<byte>, y: seq<byte>, n: nat, m: nat)
    requires |front| == m * ENTRY_SIZE && n <= m
    ensures ParseFrom(front + ERASED + x, n * ENTRY_SIZE) == ParseFrom(front + ERASED + y, n * ENTRY_SIZE)
    decreases m - n
  {
    hide Magic, EntryOf, ERASED;
    var a, b := front + ERASED + x, front + ERASED + y;
    var off := n * ENTRY_SIZE;
    if off < MAX_TABLE_SIZE {
      if n == m {
        assert RecordAt(a, off) == ERASED == RecordAt(b, off);
        ErasedMagic();
      } else {
        assert RecordAt(a, off) == front[off..off + ENTRY_SIZE] == RecordAt(b, off);
        SameUpToErased(front, x, y, n + 1, m);
      }
    }
  }

  /** Nor do bytes behind an erased record. */
  lemma NothingPastErased(front: seq<byte>, x: seq<byte>, y: seq<byte>, m: nat)
    requires |front| == m * ENTRY_SIZE
    ensures Parse(front + ERASED + x) == Parse(front + ERASED + y)
  {
    SameUpToErased(front, x, y, 0, m);
  }

  // ---------------------------------------------------------------- a serialiser and its inverse

  datatype Item = Data(entry: Entry) | Md5(body: seq<byte>)

  predicate Plain(item: Item) {
    match item
    case Data(e) => |e.name| <= 16 && 0 !in e.name
    case Md5(body) => |body| == 30
  }

  function Serialize(item: Item): Record
    requires Plain(item)
  {
    match item
    case Data(e) =>
      [0xAA, 0x50, e.typ, e.subType] + Le32(e.offset) + Le32(e.size) + e.name + Fill(16 - |e.name|, 0) + Le32(e.flags)
    case Md5(body) => [0xEB, 0xEB] + body
  }

  type PlainItem = i: Item | Plain(i) witness Md5(Fill(30, 0))

  function SerializeAll(items: seq<PlainItem>): seq<Record> {
    if items == [] then [] else [Serialize(items[0])] + SerializeAll(items[1..])
  }

  function EntriesIn(items: seq<PlainItem>): seq<Entry> {
    if items == [] then [] else
      (match items[0] case Data(e) => [e] case Md5(_) => []) + EntriesIn(items[1..])
  }

  lemma SerializedParts(e: Entry)
    requires Plain(Data(e))
    ensures var rec := Serialize(Data(e));
            && rec[0..2] == [0xAA, 0x50] && rec[2] == e.typ && rec[3] == e.subType
            && rec[4..8] == Le32(e.offset) && rec[8..12] == Le32(e.size)
            && rec[12..28] == e.name + Fill(16 - |e.name|, 0) && rec[28..32] == Le32(e.flags)
  {
    hide Le;
  }

  lemma SerializedRecord(item: PlainItem)
    ensures Known(Serialize(item))
    ensures item.Data? ==> IsEntry(Serialize(item)) && EntryOf(Serialize(item)) == item.entry
    ensures item.Md5? ==> !IsEntry(Serialize(item))
  {
    match item {
      case Data(e) =>
        hide Serialize, Le;
        SerializedParts(e);
        assert Serialize(item)[0] == Serialize(item)[0..2][0] && Serialize(item)[1] == Serialize(item)[0..2][1];
        Le32RoundTrip(e.offset);
        Le32RoundTrip(e.size);
        Le32RoundTrip(e.flags);
        CStringPadded(e.name, 16 - |e.name|);
        CStringUnique(e.name, e.name);
      case Md5(body) =>
    }
  }

  lemma {:induction false} SerializedEntries(items: seq<PlainItem>)
    ensures |SerializeAll(items)| == |items|
    ensures AllKnown(SerializeAll(items)) && Entries(SerializeAll(items)) == EntriesIn(items)
    decreases |items|
  {
    hide Serialize, Magic, EntryOf;
    if items != [] {
      SerializedRecord(items[0]);
      SerializedEntries(items[1..]);
      var recs := SerializeAll(items);
      assert recs[0] == Serialize(items[0]) && recs[1..] == SerializeAll(items[1..]);
    }
  }

  /** Up to 96 records, at least one of them an entry, checksum records anywhere, then erased
      flash: exactly the entries come back. */
  lemma TableRoundTrip(items: seq<PlainItem>, tail: seq<byte>)
    requires |items| <= 96 && EntriesIn(items) != []
    requires |tail| >= 32 ==> forall i :: 0 <= i < 32 ==> tail[i] == 0xFF
    ensures Parse(Flat(SerializeAll(items)) + tail) == Ok(EntriesIn(items))
  {
    hide Serialize, AllKnown, Entries, EntriesIn, ParseFrom, SerializeAll;
    SerializedEntries(items);
    ParsesRecords([], 0, SerializeAll(items), tail);
    assert [] + Flat(SerializeAll(items)) + tail == Flat(SerializeAll(items)) + tail;
  }
}
