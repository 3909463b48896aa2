/** The chip behind the link, as the host's code takes it to be: NOR flash that is erased to 0xFF
    and programmed by clearing bits, raw blocks addressed by their number, a deflate stream that
    is consumed as it comes, and a digest command. And a link that may lose either direction. */
module FlashDevice {
  import opened Bytes
  import opened Protocol

  const SECTOR := 0x1000

  /** The libraries and the kind of loader running on the chip. `inflate` gives the bytes that a
      prefix of a deflate stream has produced so far. */
  datatype World = World(
    stub: bool, upperCase: bool,
    md5: seq<byte> -> seq<byte>, deflate: seq<byte> -> seq<byte>, inflate: seq<byte> -> seq<byte>)

  /** zlib undoes itself, and more input never takes output back. */
  ghost predicate LawfulZlib(w: World) {
    && (forall d :: w.inflate(w.deflate(d)) == d)
    && (forall a, b :: w.inflate(a) <= w.inflate(a + b))
    && w.inflate([]) == []
  }

  ghost predicate LawfulMd5(w: World) {
    forall d :: |w.md5(d)| == 16
  }

  datatype Session =
    | Idle
    | Raw(offset: nat, blockSize: nat)
    | Stream(offset: nat, size: nat, consumed: seq<byte>)

  datatype Device = Device(flash: seq<byte>, session: Session)

  // ---------------------------------------------------------------- NOR flash

  function Down(n: nat): nat { n / SECTOR * SECTOR }
  function Up(n: nat): nat { (n + SECTOR - 1) / SECTOR * SECTOR }

  /** Sets every byte in [from, to) to 0xFF. */
  function Erase(flash: seq<byte>, from: nat, to: nat): (r: seq<byte>)
    ensures |r| == |flash|
  {
    seq(|flash|, k requires 0 <= k < |flash| => if from <= k < to then 0xFF else flash[k])
  }

  function AndBits(a: bv8, b: bv8): bv8 { a & b }
  function And8(a: byte, b: byte): byte { OfBits(AndBits(Bits(a), Bits(b))) }

  /** Programming can only clear bits: each byte becomes the AND of what was there and what is written. */
  function Program(flash: seq<byte>, at: nat, block: seq<byte>): (r: seq<byte>)
    ensures |r| == |flash|
  {
    seq(|flash|, k requires 0 <= k < |flash| =>
      if at <= k < at + |block| then And8(flash[k], block[k - at]) else flash[k])
  }

  lemma AndErased(b: byte)
    ensures And8(0xFF, b) == b
  {
    hide OfBits, Bits;
    AllOnes();
    AndOnes(Bits(b));
    ByteOfBits(b);
  }

  lemma AllOnes()
    ensures Bits(0xFF) == 0xFF
  {
  }

  lemma AndOnes(v: bv8)
    ensures AndBits(0xFF, v) == v && AndBits(v, v) == v
  {
  }

  lemma AndSame(b: byte)
    ensures And8(b, b) == b
  {
    hide OfBits, Bits;
    AndOnes(Bits(b));
    ByteOfBits(b);
  }

  /** Programming erased flash stores the block; programming the same block again changes nothing. */
  lemma ProgramStores(flash: seq<byte>, at: nat, block: seq<byte>)
    requires at + |block| <= |flash|
    requires flash[at..at + |block|] == Fill(|block|, 0xFF) || flash[at..at + |block|] == block
    ensures Program(flash, at, block) == Splice(flash, at, block)
  {
    hide And8;
    forall k | 0 <= k < |flash|
      ensures Program(flash, at, block)[k] == Splice(flash, at, block)[k]
    {
      if at <= k < at + |block| {
        assert flash[at..at + |block|][k - at] == flash[k];
        AndErased(block[k - at]);
        AndSame(block[k - at]);
      }
    }
  }

  // ---------------------------------------------------------------- commands

  function Nibble(n: nat, upper: bool): byte
    requires n < 16
  {
    if n < 10 then 0x30 + n else if upper then 0x41 + n - 10 else 0x61 + n - 10
  }

  function Hex(s: seq<byte>, upper: bool): (r: seq<byte>)
    ensures |r| == 2 * |s|
  {
    if s == [] then [] else [Nibble(s[0] / 16, upper), Nibble(s[0] % 16, upper)] + Hex(s[1..], upper)
  }

  /** ROM answers with 32 hex digits, the stub with the 16 bytes themselves. */
  function DigestPayload(w: World, data: seq<byte>): seq<byte> {
    if w.stub then w.md5(data) else Hex(w.md5(data), w.upperCase)
  }

  /** One request carried out: the device afterwards, and the payload of its answer unless it refuses. */
  function Exec(d: Device, r: Request, w: World): (Device, Option<seq<byte>>) {
    if r.cmd == FLASH_BEGIN || r.cmd == FLASH_DEFL_BEGIN then ExecBegin(d, r, w)
    else if r.cmd == FLASH_DATA then ExecData(d, r)
    else if r.cmd == FLASH_DEFL_DATA then ExecStream(d, r, w)
    else if r.cmd == SPI_FLASH_MD5 then ExecDigest(d, r, w)
    else (d, None)
  }

  /** The chips that know encrypted flash want a fifth word with FLASH_BEGIN from the ROM loader. */
  function BeginLength(cmd: byte, stub: bool): nat { if cmd == FLASH_BEGIN && !stub then 20 else 16 }

  /** BEGIN: size, block count, block size and offset; erases every sector the region touches. */
  function ExecBegin(d: Device, r: Request, w: World): (Device, Option<seq<byte>>) {
    if |r.data| != BeginLength(r.cmd, w.stub) then (d, None) else
      var size, blockSize, offset := Word(r.data, 0), Word(r.data, 2), Word(r.data, 3);
      if offset + size > |d.flash| then (d, None) else
        var session := if r.cmd == FLASH_BEGIN then Raw(offset, blockSize) else Stream(offset, size, []);
        (Device(Erase(d.flash, Down(offset), Up(offset + size)), session), Some([]))
  }

  /** DATA: block `i` of the session goes to offset + i * blockSize. */
  function ExecData(d: Device, r: Request): (Device, Option<seq<byte>>) {
    var i := BlockNumber(r);
    match ParseData(r, FLASH_DATA, i)
    case None => (d, None)
    case Some(block) =>
      if !d.session.Raw? || d.session.offset + i * d.session.blockSize + |block| > |d.flash| then (d, None)
      else (d.(flash := Program(d.flash, d.session.offset + i * d.session.blockSize, block)), Some([]))
  }

  /** DEFL_DATA: the chunk goes on where the stream stands, whatever its number says. */
  function ExecStream(d: Device, r: Request, w: World): (Device, Option<seq<byte>>) {
    match ParseData(r, FLASH_DEFL_DATA, BlockNumber(r))
    case None => (d, None)
    case Some(chunk) =>
      if !d.session.Stream? then (d, None) else
        var before, after := w.inflate(d.session.consumed), w.inflate(d.session.consumed + chunk);
        if |before| > |after| || |after| > d.session.size then (d, None)
        else (Device(Program(d.flash, d.session.offset + |before|, after[|before|..]),
                     d.session.(consumed := d.session.consumed + chunk)), Some([]))
  }

  function ExecDigest(d: Device, r: Request, w: World): (Device, Option<seq<byte>>) {
    if |r.data| < 8 then (d, None) else
      var offset, size := Word(r.data, 0), Word(r.data, 1);
      if offset + size > |d.flash| then (d, None)
      else (d, Some(DigestPayload(w, d.flash[offset..offset + size])))
  }

  // ---------------------------------------------------------------- the link

  /** What becomes of one exchange. `Stale`: the request is lost and an answer to an earlier one is heard. */
  datatype Fate = RequestLost | ReplyLost | Delivered | Stale(payload: seq<byte>)

  /** The chip, the fates still to come, and every request that reached the chip so far. */
  datatype Chan = Chan(dev: Device, fates: seq<Fate>, seen: seq<Request>)

  function Ask(c: Chan, r: Request, w: World): (Chan, Option<seq<byte>>) {
    if c.fates == [] then (c, None) else
      var later := c.(fates := c.fates[1..]);
      match c.fates[0]
      case RequestLost => (later, None)
      case Stale(payload) => (later, Some(payload))
      case ReplyLost => (later.(dev := Exec(c.dev, r, w).0, seen := c.seen + [r]), None)
      case Delivered => (later.(dev := Exec(c.dev, r, w).0, seen := c.seen + [r]), Exec(c.dev, r, w).1)
  }

  /** No answer to an earlier request is ever taken for the answer to a later one. */
  predicate Honest(c: Chan) { forall f :: f in c.fates ==> !f.Stale? }

  lemma AskFlashLength(c: Chan, r: Request, w: World)
    ensures |Ask(c, r, w).0.dev.flash| == |c.dev.flash|
    ensures Honest(c) ==> Honest(Ask(c, r, w).0)
  {
  }

  // ---------------------------------------------------------------- hex digests

  function ToLower(s: seq<byte>): (r: seq<byte>)
    ensures |r| == |s|
  {
    seq(|s|, i requires 0 <= i < |s| => if 0x41 <= s[i] <= 0x5A then s[i] + 0x20 else s[i])
  }

  lemma {:induction false} LowerHex(s: seq<byte>, upper: bool)
    ensures ToLower(Hex(s, upper)) == Hex(s, false)
  {
    if s != [] {
      LowerHex(s[1..], upper);
      var head := [Nibble(s[0] / 16, upper), Nibble(s[0] % 16, upper)];
      assert ToLower(head + Hex(s[1..], upper)) == ToLower(head) + ToLower(Hex(s[1..], upper));
      assert ToLower(head) == [Nibble(s[0] / 16, false), Nibble(s[0] % 16, false)];
    }
  }

  lemma {:induction false} HexInjective(s: seq<byte>, t: seq<byte>)
    requires Hex(s, false) == Hex(t, false)
    ensures s == t
  {
    assert |s| == |t|;
    if s != [] {
      var a, b := Hex(s, false), Hex(t, false);
      assert a[0] == b[0] && a[1] == b[1];
      assert a[2..] == Hex(s[1..], false) && b[2..] == Hex(t[1..], false);
      HexInjective(s[1..], t[1..]);
    }
  }
}
