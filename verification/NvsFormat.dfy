/** The NVS partition format, read the way nvs/FORMAT.md describes it. Nothing here knows how
    the builder lays an image out: this is the reader the builder is measured against. */
module NvsFormat {
  import opened Bytes
  import opened Crc32

  const PAGE_SIZE := 4096
  const ENTRY_SIZE := 32
  const ENTRY_COUNT := 126
  const STATE_ACTIVE := 0xFFFF_FFFE
  const STATE_FULL := 0xFFFF_FFFC
  const VERSION_V2: byte := 0xFE
  const CHUNK_ANY: byte := 0xFF
  const TYPE_STR: byte := 0x21
  const TYPE_BLOB: byte := 0x41

  datatype IntType = U8 | I8 | U16 | I16 | U32 | I32 | U64 | I64

  datatype Value = Int(typ: IntType, v: int) | Str(text: seq<byte>) | Blob(data: seq<byte>)

  /** An entry as it stands in a page, and a setting after its namespace is resolved. */
  datatype Entry = Entry(ns: byte, key: seq<byte>, value: Value)
  datatype Setting = Setting(ns: seq<byte>, key: seq<byte>, value: Value)

  function Width(t: IntType): (w: nat)
    ensures 1 <= w <= 8
  {
    match t
    case U8 | I8 => 1
    case U16 | I16 => 2
    case U32 | I32 => 4
    case U64 | I64 => 8
  }

  predicate Signed(t: IntType) { t.I8? || t.I16? || t.I32? || t.I64? }

  /** The values a Go integer of this type can hold. */
  predicate InRange(t: IntType, v: int) {
    if Signed(t) then 0 - Pow256(Width(t)) <= 2 * v < Pow256(Width(t)) else 0 <= v < Pow256(Width(t))
  }

  predicate IsValue(value: Value) { value.Int? ==> InRange(value.typ, value.v) }

  /** Section 4: the type bytes. */
  function IntTypeOf(b: byte): Option<IntType> {
    if b == 0x01 then Some(U8) else if b == 0x11 then Some(I8)
    else if b == 0x02 then Some(U16) else if b == 0x12 then Some(I16)
    else if b == 0x04 then Some(U32) else if b == 0x14 then Some(I32)
    else if b == 0x08 then Some(U64) else if b == 0x18 then Some(I64)
    else None
  }

  /** Section 5: little-endian, two's complement for the signed types. */
  function DecodeInt(t: IntType, field: seq<byte>): int
    requires |field| == Width(t)
  {
    var u := FromLe(field);
    if Signed(t) && 2 * u >= Pow256(Width(t)) then u - Pow256(Width(t)) else u
  }

  /** Sections 5 and 6: the value from the head's last eight bytes and the data slots. */
  function DecodeValue(typ: byte, tail: seq<byte>, body: seq<byte>): Option<Value>
    requires |tail| == 8
  {
    match IntTypeOf(typ)
    case Some(t) => if body == [] then Some(Int(t, DecodeInt(t, tail[..Width(t)]))) else None
    case None =>
      var size := FromLe(tail[..2]);
      if size > |body| || |body| >= size + ENTRY_SIZE || CrcBytes(body[..size]) != tail[4..] then None
      else if typ == TYPE_BLOB then Some(Blob(body[..size]))
      else if typ == TYPE_STR && size > 0 && body[size - 1] == 0 then Some(Str(body[..size - 1]))
      else None
  }

  /** Section 4: the entry checksum covers everything but itself. */
  predicate HeadValid(head: seq<byte>)
    requires |head| == ENTRY_SIZE
  {
    head[4..8] == CrcBytes(head[..4] + head[8..])
  }

  function DecodeEntry(head: seq<byte>, body: seq<byte>): Option<Entry>
    requires |head| == ENTRY_SIZE
  {
    if !HeadValid(head) || head[3] != CHUNK_ANY then None else
      match DecodeValue(head[1], head[24..], body)
      case None => None
      case Some(value) => Some(Entry(head[0], CString(head[8..24]), value))
  }

  // ---------------------------------------------------------------- pages

  /** Section 1: where slot `i` starts. */
  function SlotAt(i: nat): nat { 64 + i * ENTRY_SIZE }

  function Pow4(k: nat): nat
    requires k < 4
  {
    if k == 0 then 1 else if k == 1 then 4 else if k == 2 then 16 else 64
  }

  /** Section 3: the state pair of slot `i`. */
  function PairAt(page: seq<byte>, i: nat): nat
    requires |page| == PAGE_SIZE && i < 128
  {
    page[32 + i / 4] / Pow4(i % 4) % 4
  }

  const PAIR_EMPTY := 3
  const PAIR_WRITTEN := 2

  /** Walks the slots from `i` on by the span of each head, up to the first EMPTY pair. */
  function ReadSlots(page: seq<byte>, i: nat): Option<seq<Entry>>
    requires |page| == PAGE_SIZE && i <= ENTRY_COUNT
    decreases ENTRY_COUNT - i
  {
    if i == ENTRY_COUNT || PairAt(page, i) == PAIR_EMPTY then Some([]) else
      var head := page[SlotAt(i)..SlotAt(i + 1)];
      var span := head[2];
      if PairAt(page, i) != PAIR_WRITTEN || span == 0 || i + span > ENTRY_COUNT then None else
        match DecodeEntry(head, page[SlotAt(i + 1)..SlotAt(i + span)])
        case None => None
        case Some(entry) =>
          match ReadSlots(page, i + span)
          case None => None
          case Some(rest) => Some([entry] + rest)
  }

  /** Section 2: a page that holds data names its state and carries a header checksum. */
  predicate HeaderValid(page: seq<byte>)
    requires |page| == PAGE_SIZE
  {
    && FromLe(page[..4]) in {STATE_ACTIVE, STATE_FULL}
    && page[8] == VERSION_V2
    && page[28..32] == CrcBytes(page[4..28])
  }

  function PageAt(img: seq<byte>, i: nat): (page: seq<byte>)
    requires (i + 1) * PAGE_SIZE <= |img|
    ensures |page| == PAGE_SIZE
  {
    img[i * PAGE_SIZE..(i + 1) * PAGE_SIZE]
  }

  /** The first page from `i` on that is in use and carries sequence number `s`. */
  function FindPage(img: seq<byte>, s: nat, i: nat): (r: Option<nat>)
    ensures r.Some? ==> (r.value + 1) * PAGE_SIZE <= |img|
    decreases |img| - i * PAGE_SIZE
  {
    if (i + 1) * PAGE_SIZE > |img| then None
    else if HeaderValid(PageAt(img, i)) && FromLe(PageAt(img, i)[4..8]) == s then Some(i)
    else FindPage(img, s, i + 1)
  }

  /** The entries of all pages in use, by sequence number from `s` on. */
  function ReadPages(img: seq<byte>, s: nat): Option<seq<Entry>>
    decreases |img| - s
  {
    if s >= |img| then Some([]) else
      match FindPage(img, s, 0)
      case None => Some([])
      case Some(i) =>
        match ReadSlots(PageAt(img, i), 0)
        case None => None
        case Some(entries) =>
          match ReadPages(img, s + 1)
          case None => None
          case Some(rest) => Some(entries + rest)
  }

  // ---------------------------------------------------------------- namespaces

  /** Section 7: a U8 entry under index 0 gives its key as the name of an index. */
  predicate Defines(e: Entry) { e.ns == 0 && e.value.Int? && e.value.typ == U8 && 0 <= e.value.v < 0x100 }

  type Names = map<byte, seq<byte>>

  function Define(names: Names, e: Entry): Names {
    if Defines(e) then names[e.value.v := e.key] else names
  }

  function NamesAfter(es: seq<Entry>, names: Names): Names
    decreases |es|
  {
    if es == [] then names else NamesAfter(es[1..], Define(names, es[0]))
  }

  function Resolved(e: Entry, names: Names): seq<Setting> {
    if e.ns != 0 && e.ns in names then [Setting(names[e.ns], e.key, e.value)] else []
  }

  /** The settings of an entry list, each under the name its index has at that point. */
  function Resolve(es: seq<Entry>, names: Names): seq<Setting>
    decreases |es|
  {
    if es == [] then [] else Resolved(es[0], names) + Resolve(es[1..], Define(names, es[0]))
  }

  function ReadImage(img: seq<byte>): Option<seq<Setting>> {
    match ReadPages(img, 0)
    case None => None
    case Some(es) => Some(Resolve(es, map[]))
  }

  lemma {:induction false} ResolveAppend(a: seq<Entry>, b: seq<Entry>, names: Names)
    ensures Resolve(a + b, names) == Resolve(a, names) + Resolve(b, NamesAfter(a, names))
    ensures NamesAfter(a + b, names) == NamesAfter(b, NamesAfter(a, names))
    decreases |a|
  {
    if a == [] {
      assert a + b == b;
    } else {
      assert (a + b)[0] == a[0] && (a + b)[1..] == a[1..] + b;
      ResolveAppend(a[1..], b, Define(names, a[0]));
    }
  }

  // ---------------------------------------------------------------- what the checksum protects

  /** Any one byte changed, covered or in the checksum field itself, is noticed. */
  lemma HeadDetects(head: seq<byte>, i: nat, x: byte)
    requires |head| == ENTRY_SIZE && HeadValid(head)
    requires i < ENTRY_SIZE && head[i] != x
    ensures !HeadValid(head[i := x])
  {
    var changed := head[i := x];
    var covered := head[..4] + head[8..];
    if i < 4 {
      CrcDetects(covered, i, x);
      assert changed[..4] + changed[8..] == covered[i := x];
      assert changed[4..8] == head[4..8];
    } else if i < 8 {
      assert changed[..4] + changed[8..] == covered;
      assert changed[4..8][i - 4] != head[4..8][i - 4];
    } else {
      CrcDetects(covered, i - 4, x);
      assert changed[..4] + changed[8..] == covered[i - 4 := x];
      assert changed[4..8] == head[4..8];
    }
  }

  /** The page header's checksum leaves out the state, which the device rewrites in place. */
  lemma HeaderDetects(page: seq<byte>, i: nat, x: byte)
    requires |page| == PAGE_SIZE && HeaderValid(page)
    requires 4 <= i < 32 && page[i] != x
    ensures !HeaderValid(page[i := x])
  {
    var changed := page[i := x];
    if i < 28 {
      CrcDetects(page[4..28], i - 4, x);
      assert changed[4..28] == page[4..28][i - 4 := x];
      assert changed[28..32] == page[28..32];
    } else {
      assert changed[4..28] == page[4..28];
      assert changed[28..32][i - 28] != page[28..32][i - 28];
    }
  }
}
