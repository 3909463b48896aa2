/** What the builder puts into a page: item images, and the 4096 bytes of a page that holds them. */
module NvsImage {
  import opened Bytes
  import opened Crc32
  import opened NvsFormat

  type Slot = s: seq<byte> | |s| == ENTRY_SIZE witness Fill(ENTRY_SIZE, 0xFF)

  const MAX_KEY := 15

  // ---------------------------------------------------------------- items

  function TypeByte(value: Value): byte {
    match value
    case Int(t, _) => (
      match t
      case U8 => 0x01 case I8 => 0x11 case U16 => 0x02 case I16 => 0x12
      case U32 => 0x04 case I32 => 0x14 case U64 => 0x08 case I64 => 0x18
    )
    case Str(_) => TYPE_STR
    case Blob(_) => TYPE_BLOB
  }

  /** The bytes that go into data slots; a string gets its NUL here. */
  function Payload(value: Value): seq<byte> {
    match value
    case Int(_, _) => []
    case Str(text) => text + [0]
    case Blob(data) => data
  }

  function DataEntries(data: seq<byte>): nat { (|data| + ENTRY_SIZE - 1) / ENTRY_SIZE }

  function Span(value: Value): nat { 1 + DataEntries(Payload(value)) }

  /** `uint64(int64(v))`: how every integer setter widens its argument. */
  function ToUint64(v: int): nat { v % 0x1_0000_0000_0000_0000 }

  /** The last eight bytes of a head entry. */
  function Tail(value: Value): (s: seq<byte>)
    ensures |s| == 8
  {
    match value
    case Int(t, v) => Le(ToUint64(v), 8)[..Width(t)] + Fill(8 - Width(t), 0xFF)
    case _ => Le16(ToUint16(|Payload(value)|)) + [0xFF, 0xFF] + CrcBytes(Payload(value))
  }

  function KeyField(key: seq<byte>): (s: seq<byte>)
    requires |key| <= MAX_KEY
    ensures |s| == 16
  {
    key + Fill(16 - |key|, 0)
  }

  function WithCrc(lead: seq<byte>, rest: seq<byte>): (s: Slot)
    requires |lead| == 4 && |rest| == 24
  {
    lead + CrcBytes(lead + rest) + rest
  }

  function Head(ns: byte, key: seq<byte>, value: Value): Slot
    requires |key| <= MAX_KEY
  {
    WithCrc([ns, TypeByte(value), Span(value) % 0x100, CHUNK_ANY], KeyField(key) + Tail(value))
  }

  function DataSlots(data: seq<byte>): (slots: seq<Slot>)
    ensures |slots| == DataEntries(data)
    decreases |data|
  {
    if data == [] then []
    else if |data| <= ENTRY_SIZE then [data + Fill(ENTRY_SIZE - |data|, 0xFF)]
    else [data[..ENTRY_SIZE]] + DataSlots(data[ENTRY_SIZE..])
  }

  function ItemSlots(ns: byte, key: seq<byte>, value: Value): (slots: seq<Slot>)
    requires |key| <= MAX_KEY
    ensures |slots| == Span(value)
  {
    [Head(ns, key, value)] + DataSlots(Payload(value))
  }

  /** Data slot `i` is the i-th 32 bytes of the payload, padded with 0xFF. */
  function Chunk(data: seq<byte>, i: nat): Slot
    requires i < DataEntries(data)
  {
    var end := if (i + 1) * ENTRY_SIZE <= |data| then (i + 1) * ENTRY_SIZE else |data|;
    data[i * ENTRY_SIZE..end] + Fill((i + 1) * ENTRY_SIZE - end, 0xFF)
  }

  lemma {:induction false} DataSlotIsChunk(data: seq<byte>, i: nat)
    requires i < DataEntries(data)
    ensures DataSlots(data)[i] == Chunk(data, i)
    decreases i
  {
    if |data| > ENTRY_SIZE {
      if i > 0 {
        DataSlotIsChunk(data[ENTRY_SIZE..], i - 1);
        ChunkOfRest(data, i);
      }
    }
  }

  lemma ChunkOfRest(data: seq<byte>, i: nat)
    requires 0 < i < DataEntries(data) && |data| > ENTRY_SIZE
    ensures Chunk(data, i) == Chunk(data[ENTRY_SIZE..], i - 1)
  {
    var end := if (i + 1) * ENTRY_SIZE <= |data| then (i + 1) * ENTRY_SIZE else |data|;
    SliceOfDrop(data, ENTRY_SIZE, (i - 1) * ENTRY_SIZE, end - ENTRY_SIZE);
  }

  lemma {:induction false} FlatDataSlots(data: seq<byte>)
    ensures |Flat(DataSlots(data))| == DataEntries(data) * ENTRY_SIZE
    ensures data <= Flat(DataSlots(data))
    decreases |data|
  {
    var slots := DataSlots(data);
    if data == [] {
    } else if |data| <= ENTRY_SIZE {
      assert Flat(slots) == slots[0] + Flat(slots[1..]) == slots[0];
    } else {
      var rest := data[ENTRY_SIZE..];
      FlatDataSlots(rest);
      assert slots[1..] == DataSlots(rest);
      assert data == data[..ENTRY_SIZE] + rest;
    }
  }

  // ---------------------------------------------------------------- an item read back

  lemma IntReadBack(t: IntType, v: int)
    requires InRange(t, v)
    ensures DecodeInt(t, Le(ToUint64(v), 8)[..Width(t)]) == v
  {
    hide FromLe, Le, Pow256;
    var w := Width(t);
    Pow256Values();
    LePrefix(ToUint64(v), w, 8);
    if v < 0 {
      assert ToUint64(v) == v + Pow256(8);
      LeWraps(v, 8, w);
      LeWraps(v, w, w);
      LeRoundTrip(v + Pow256(w), w);
    } else {
      assert ToUint64(v) == v;
      LeRoundTrip(v, w);
    }
  }

  lemma TypeReadBack(value: Value)
    ensures IntTypeOf(TypeByte(value)) == if value.Int? then Some(value.typ) else None
  {
  }

  lemma TypeValues(value: Value)
    ensures value.Str? ==> TypeByte(value) == TYPE_STR
    ensures value.Blob? ==> TypeByte(value) == TYPE_BLOB
  {
  }

  /** The size and checksum fields of a string or blob find its payload in the data slots. */
  lemma PayloadReadBack(value: Value)
    requires !value.Int? && Span(value) <= ENTRY_COUNT
    ensures var body := Flat(DataSlots(Payload(value)));
            var size := FromLe(Tail(value)[..2]);
            && size == |Payload(value)| <= |body| < size + ENTRY_SIZE
            && body[..size] == Payload(value)
            && CrcBytes(body[..size]) == Tail(value)[4..]
  {
    hide Le, FromLe, CrcBytes, Flat, DataSlots, Payload;
    var data := Payload(value);
    FlatDataSlots(data);
    ShortEnough(|data|);
    Le16RoundTrip(|data|);
    assert Tail(value)[..2] == Le16(|data|);
    assert Tail(value)[4..] == CrcBytes(data);
    assert Flat(DataSlots(data))[..|data|] == data;
  }

  lemma ShortEnough(n: nat)
    requires (n + ENTRY_SIZE - 1) / ENTRY_SIZE < ENTRY_COUNT
    ensures n < 0x1_0000 && ToUint16(n) == n
  {
  }

  lemma ValueReadBack(value: Value)
    requires IsValue(value) && Span(value) <= ENTRY_COUNT
    ensures DecodeValue(TypeByte(value), Tail(value), Flat(DataSlots(Payload(value)))) == Some(value)
  {
    hide CrcBytes, Le, FromLe, TypeByte, IntTypeOf;
    TypeReadBack(value);
    TypeValues(value);
    match value {
      case Int(t, v) =>
        hide DecodeInt;
        IntReadBack(t, v);
        assert Tail(value)[..Width(t)] == Le(ToUint64(v), 8)[..Width(t)];
        assert Flat(DataSlots(Payload(value))) == [];
      case Str(text) =>
        PayloadReadBack(value);
        var body := Flat(DataSlots(Payload(value)));
        assert body[..|text|] == body[..|text| + 1][..|text|] == text;
      case Blob(_) =>
        PayloadReadBack(value);
    }
  }

  lemma HeadParts(lead: seq<byte>, rest: seq<byte>)
    requires |lead| == 4 && |rest| == 24
    ensures var head := WithCrc(lead, rest); head[..4] == lead && head[8..] == rest && HeadValid(head)
  {
    var head := WithCrc(lead, rest);
    assert head[..4] == lead && head[8..] == rest && head[4..8] == CrcBytes(lead + rest);
  }

  lemma HeadFields(ns: byte, key: seq<byte>, value: Value)
    requires |key| <= MAX_KEY
    ensures var head := Head(ns, key, value);
            && HeadValid(head)
            && head[0] == ns && head[1] == TypeByte(value) && head[2] == Span(value) % 0x100 && head[3] == CHUNK_ANY
            && head[8..24] == KeyField(key)
            && head[24..] == Tail(value)
  {
    hide CrcBytes, TypeByte, Tail, HeadValid, WithCrc, KeyField, Span;
    var head := Head(ns, key, value);
    var lead := [ns, TypeByte(value), Span(value) % 0x100, CHUNK_ANY];
    var rest := KeyField(key) + Tail(value);
    HeadParts(lead, rest);
    assert head[0] == lead[0] && head[1] == lead[1] && head[2] == lead[2] && head[3] == lead[3];
    assert head[8..24] == rest[..16] == KeyField(key);
    assert head[24..] == rest[16..] == Tail(value);
  }

  /** In numbers: the chunk byte, the type bytes of strings and blobs, both checksums as 32-bit
      words, and the reserved bytes. */
  lemma HeadInNumbers(ns: byte, key: seq<byte>, value: Value)
    requires |key| <= MAX_KEY
    ensures var head := Head(ns, key, value);
            && head[3] == 0xFF && (value.Str? ==> head[1] == 0x21) && (value.Blob? ==> head[1] == 0x41)
            && FromLe(head[4..8]) == Crc(head[..4] + head[8..]) as int
            && (!value.Int? ==> FromLe(head[28..32]) == Crc(Payload(value)) as int && head[26..28] == [0xFF, 0xFF])
  {
    hide Head, Tail, TypeByte, HeadValid, Crc, FromLe;
    var head := Head(ns, key, value);
    HeadFields(ns, key, value);
    StoredCrc(head);
    TailFields(value);
    LastFields(head);
  }

  lemma LastFields(head: Slot)
    ensures head[24..][4..] == head[28..32] && head[24..][2..4] == head[26..28]
  {
  }

  lemma StoredCrc(head: Slot)
    requires HeadValid(head)
    ensures FromLe(head[4..8]) == Crc(head[..4] + head[8..]) as int
  {
    CrcStored(head[..4] + head[8..]);
  }

  lemma TailFields(value: Value)
    ensures value.Str? ==> TypeByte(value) == 0x21
    ensures value.Blob? ==> TypeByte(value) == 0x41
    ensures !value.Int? ==> FromLe(Tail(value)[4..]) == Crc(Payload(value)) as int && Tail(value)[2..4] == [0xFF, 0xFF]
  {
    hide CrcBytes, Le;
    CrcStored(Payload(value));
  }

  /** One item, head and data slots, reads back as what was stored: the key up to its first NUL. */
  lemma ItemReadBack(ns: byte, key: seq<byte>, value: Value)
    requires |key| <= MAX_KEY && IsValue(value) && Span(value) <= ENTRY_COUNT
    ensures DecodeEntry(Head(ns, key, value), Flat(DataSlots(Payload(value))))
         == Some(Entry(ns, CString(key), value))
  {
    hide DecodeValue, TypeByte, Tail, DataSlots, HeadValid, CString, Head;
    HeadFields(ns, key, value);
    CStringPadded(key, 16 - |key|);
    ValueReadBack(value);
  }

  // ---------------------------------------------------------------- pages

  /** A page: its header, its sequence number and the slots written so far. */
  datatype PageState = PageState(header: Slot, num: uint32, slots: seq<Slot>) {
    predicate Valid() {
      && |slots| <= ENTRY_COUNT
      && header[9..28] == Fill(19, 0xFF)
    }

    function Free(): int { ENTRY_COUNT - |slots| }
  }

  /** Four state pairs, of which the first `k` are WRITTEN. */
  function BitmapByte(k: int): byte {
    if k <= 0 then 0xFF else if k == 1 then 0xFE else if k == 2 then 0xFA else if k == 3 then 0xEA else 0xAA
  }

  function Bitmap(n: nat): (s: seq<byte>)
    ensures |s| == 32
  {
    seq(32, j => BitmapByte(n - 4 * j))
  }

  /** The 4096 bytes of a page. */
  function Layout(pg: PageState): (buf: seq<byte>)
    requires pg.Valid()
    ensures |buf| == PAGE_SIZE
  {
    FlatLength(pg.slots, ENTRY_SIZE);
    pg.header + Bitmap(|pg.slots|) + Flat(pg.slots) + Fill(pg.Free() * ENTRY_SIZE, 0xFF)
  }

  /** The slots written stand one after the other; every later slot is erased. */
  lemma LayoutSlots(pg: PageState, a: nat, b: nat)
    requires pg.Valid() && a <= b <= |pg.slots|
    ensures Layout(pg)[SlotAt(a)..SlotAt(b)] == Flat(pg.slots[a..b])
    ensures Layout(pg)[SlotAt(|pg.slots|)..] == Fill(pg.Free() * ENTRY_SIZE, 0xFF)
  {
    var flat := Flat(pg.slots);
    FlatLength(pg.slots, ENTRY_SIZE);
    FlatSlice(pg.slots, ENTRY_SIZE, a, b);
    assert Layout(pg)[64..64 + |flat|] == flat;
    assert Layout(pg)[SlotAt(a)..SlotAt(b)] == flat[a * ENTRY_SIZE..b * ENTRY_SIZE];
  }

  /** Pair `i` is WRITTEN exactly when slot `i` is in use, and EMPTY otherwise. */
  lemma LayoutPair(pg: PageState, i: nat)
    requires pg.Valid() && i < 128
    ensures PairAt(Layout(pg), i) == if i < |pg.slots| then PAIR_WRITTEN else PAIR_EMPTY
  {
    FlatLength(pg.slots, ENTRY_SIZE);
    var n := |pg.slots|;
    assert Layout(pg)[32 + i / 4] == Bitmap(n)[i / 4] == BitmapByte(n - 4 * (i / 4));
    PairOfBitmapByte(n - 4 * (i / 4), i % 4);
  }

  lemma PairOfBitmapByte(k: int, j: nat)
    requires j < 4
    ensures BitmapByte(k) / Pow4(j) % 4 == if j < k then PAIR_WRITTEN else PAIR_EMPTY
  {
  }

  // ---------------------------------------------------------------- writing one slot

  /** `b &^ (1 << bit)`. */
  function ClearBit(b: byte, bit: nat): byte
    requires bit < 8
  {
    if b / Pow2(bit) % 2 == 1 then b - Pow2(bit) else b
  }

  function Pow2(bit: nat): nat
    requires bit < 8
  {
    if bit == 0 then 1 else if bit == 1 then 2 else if bit == 2 then 4 else if bit == 3 then 8
    else if bit == 4 then 16 else if bit == 5 then 32 else if bit == 6 then 64 else 128
  }

  function Append(pg: PageState, slot: Slot): PageState {
    pg.(slots := pg.slots + [slot])
  }

  function BitByte(n: nat): nat { 32 + n * 2 / 8 }

  /** Writing a slot changes its own 32 bytes and clears one bit of the bitmap, nothing else. */
  lemma AppendLayout(pg: PageState, slot: Slot)
    requires pg.Valid() && pg.Free() > 0
    ensures Append(pg, slot).Valid()
    ensures BitByte(|pg.slots|) < 64
    ensures var n := |pg.slots|;
            var written := Splice(Layout(pg), SlotAt(n), slot);
            Layout(Append(pg, slot))
            == written[BitByte(n) := ClearBit(Layout(pg)[BitByte(n)], n * 2 % 8)]
  {
    hide Bitmap, Flat, ClearBit, Splice;
    var n := |pg.slots|;
    var next := Append(pg, slot);
    FlatSnoc(pg.slots, slot);
    FlatLength(pg.slots, ENTRY_SIZE);
    FlatLength(next.slots, ENTRY_SIZE);
    BitmapStep(n);
    var free := Fill(pg.Free() * ENTRY_SIZE, 0xFF);
    assert free[ENTRY_SIZE..] == Fill(next.Free() * ENTRY_SIZE, 0xFF);
    assert Layout(pg)[BitByte(n)] == Bitmap(n)[n * 2 / 8];
    WriteParts(pg.header, Bitmap(n), Flat(pg.slots), free, slot, n * 2 / 8, Bitmap(n + 1)[n * 2 / 8]);
  }

  lemma WriteParts(a: seq<byte>, b: seq<byte>, c: seq<byte>, free: seq<byte>, part: seq<byte>, i: nat, x: byte)
    requires i < |b| && |part| <= |free|
    ensures Splice(a + b + c + free, |a| + |b| + |c|, part)[|a| + i := x]
         == a + b[i := x] + (c + part) + free[|part|..]
  {
    SpliceBehind(a + b + c, free, part);
  }

  lemma BitmapStep(n: nat)
    requires n < ENTRY_COUNT
    ensures Bitmap(n + 1) == Bitmap(n)[n * 2 / 8 := ClearBit(Bitmap(n)[n * 2 / 8], n * 2 % 8)]
  {
    var at := n * 2 / 8;
    assert at == n / 4 && n * 2 % 8 == 2 * (n % 4);
    assert Bitmap(n)[at] == BitmapByte(n % 4);
    assert Bitmap(n + 1)[at] == BitmapByte(n % 4 + 1);
    BitmapByteStep(n % 4);
    forall j | 0 <= j < 32 && j != at
      ensures Bitmap(n + 1)[j] == Bitmap(n)[j]
    {
      if j < at {
        assert n - 4 * j >= 4;
      } else {
        assert n + 1 - 4 * j <= 0;
      }
    }
  }

  lemma BitmapByteStep(k: nat)
    requires k < 4
    ensures BitmapByte(k + 1) == ClearBit(BitmapByte(k), 2 * k)
  {
  }

  // ---------------------------------------------------------------- the header

  function NewPage(num: uint32): (pg: PageState)
    ensures pg.Valid()
  {
    assert Fill(32, 0xFF)[9..28] == Fill(19, 0xFF);
    PageState(Fill(ENTRY_SIZE, 0xFF), num, [])
  }

  /** The header after `finalize`; only the reserved bytes are kept from before. */
  function FinalHeader(pg: PageState, state: uint32): Slot {
    var covered := Le32(pg.num) + [VERSION_V2] + pg.header[9..28];
    Le32(state) + covered + CrcBytes(covered)
  }

  function Finalize(pg: PageState, state: uint32): (r: PageState)
    requires pg.Valid()
    ensures r.Valid()
  {
    var r := pg.(header := FinalHeader(pg, state));
    assert r.header[9..28] == pg.header[9..28];
    r
  }

  /** A finalized page is one the reader accepts, under its own sequence number. */
  lemma FinalizedHeader(pg: PageState, state: uint32)
    requires pg.Valid() && state in {STATE_ACTIVE, STATE_FULL}
    ensures HeaderValid(Layout(Finalize(pg, state)))
    ensures FromLe(Layout(Finalize(pg, state))[..4]) == state
    ensures FromLe(Layout(Finalize(pg, state))[4..8]) == pg.num
  {
    hide CrcBytes, Le, FromLe, Bitmap, Flat;
    var page := Layout(Finalize(pg, state));
    var covered := Le32(pg.num) + [VERSION_V2] + pg.header[9..28];
    var header := FinalHeader(pg, state);
    assert page[..32] == header;
    assert page[..4] == header[..4] == Le32(state);
    assert page[4..28] == header[4..28] == covered;
    assert page[4..8] == covered[..4] == Le32(pg.num);
    assert page[28..32] == header[28..32] == CrcBytes(covered);
    Le32RoundTrip(state);
    Le32RoundTrip(pg.num);
  }
}
