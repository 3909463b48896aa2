/** Bytes, little-endian fields and the few sequence operations the models share. */
module Bytes {

  type byte = x: int | 0 <= x < 0x100
  type uint32 = x: int | 0 <= x < 0x1_0000_0000

  datatype Option<+T> = None | Some(value: T)
  datatype Result<+T, +E> = Ok(value: T) | Err(error: E)

  /** Go's conversions to a narrower unsigned integer keep the low bits. */
  function ToUint16(n: int): int { n % 0x1_0000 }
  function ToUint32(n: int): uint32 { n % 0x1_0000_0000 }

  /** `n` copies of `b`. */
  function Fill(n: nat, b: byte): (s: seq<byte>)
    ensures |s| == n && forall i :: 0 <= i < n ==> s[i] == b
  {
    seq(n, _ => b)
  }

  /** `s` with the bytes from `at` on overwritten by `part`. */
  function Splice(s: seq<byte>, at: nat, part: seq<byte>): (r: seq<byte>)
    requires at + |part| <= |s|
    ensures |r| == |s|
  {
    s[..at] + part + s[at + |part|..]
  }

  // ---------------------------------------------------------------- concatenation

  function Flat<T>(ss: seq<seq<T>>): seq<T> {
    if ss == [] then [] else ss[0] + Flat(ss[1..])
  }

  lemma {:induction false} FlatAppend<T>(a: seq<seq<T>>, b: seq<seq<T>>)
    ensures Flat(a + b) == Flat(a) + Flat(b)
  {
    if a == [] {
      assert a + b == b;
    } else {
      assert (a + b)[1..] == a[1..] + b;
      FlatAppend(a[1..], b);
    }
  }

  lemma FlatOne<T>(x: seq<T>)
    ensures Flat([x]) == x
  {
    assert [x][1..] == [];
  }

  lemma FlatSnoc<T>(a: seq<seq<T>>, x: seq<T>)
    ensures Flat(a + [x]) == Flat(a) + x
  {
    FlatAppend(a, [x]);
    FlatOne(x);
  }

  /** Pieces of one width are found again at multiples of that width. */
  lemma {:induction false} FlatLength<T>(ss: seq<seq<T>>, w: nat)
    requires forall s :: s in ss ==> |s| == w
    ensures |Flat(ss)| == |ss| * w
  {
    if ss != [] {
      FlatLength(ss[1..], w);
      OneMore(|ss| - 1, w);
    }
  }

  lemma OneMore(n: int, w: int)
    ensures (n + 1) * w == n * w + w
  {
  }

  lemma FlatSlice<T>(ss: seq<seq<T>>, w: nat, a: nat, b: nat)
    requires a <= b <= |ss|
    requires forall s :: s in ss ==> |s| == w
    ensures 0 <= a * w <= b * w <= |Flat(ss)|
    ensures Flat(ss)[a * w..b * w] == Flat(ss[a..b])
  {
    hide Flat;
    FlatLength(ss[..a], w);
    FlatLength(ss[..b], w);
    assert ss[..b] == ss[..a] + ss[a..b];
    FlatAppend(ss[..a], ss[a..b]);
    assert ss == ss[..b] + ss[b..];
    FlatAppend(ss[..b], ss[b..]);
    Middle(Flat(ss[..a]), Flat(ss[a..b]), Flat(ss[b..]));
  }

  lemma Middle<T>(a: seq<T>, b: seq<T>, c: seq<T>)
    ensures |a| <= |a + b| <= |(a + b) + c|
    ensures ((a + b) + c)[|a|..|a + b|] == b
  {
  }

  lemma SliceOfDrop<T>(s: seq<T>, k: nat, a: nat, b: nat)
    requires k <= |s| && a <= b <= |s| - k
    ensures s[k..][a..b] == s[k + a..k + b]
  {
  }

  lemma SliceSplit<T>(s: seq<T>, a: nat, c: nat, p: seq<T>, q: seq<T>)
    requires a <= c <= |s| && s[a..c] == p + q
    ensures a + |p| <= c && s[a..a + |p|] == p && s[a + |p|..c] == q
  {
    var m := s[a..c];
    assert m[..|p|] == p && m[|p|..] == q;
    assert s[a..a + |p|] == m[..|p|];
    assert s[a + |p|..c] == m[|p|..];
  }

  lemma SliceOfTake<T>(s: seq<T>, n: nat, a: nat, b: nat)
    requires a <= b <= n <= |s|
    ensures s[..n][a..b] == s[a..b]
  {
  }

  /** Overwriting the bytes right behind `front`. */
  lemma SpliceBehind(front: seq<byte>, free: seq<byte>, part: seq<byte>)
    requires |part| <= |free|
    ensures Splice(front + free, |front|, part) == front + part + free[|part|..]
  {
  }

  // ---------------------------------------------------------------- little-endian fields

  /** The `width` low bytes of `v`, least significant first. */
  function Le(v: int, width: nat): (s: seq<byte>)
    ensures |s| == width
    decreases width
  {
    if width == 0 then [] else [v % 0x100] + Le(v / 0x100, width - 1)
  }

  function FromLe(s: seq<byte>): nat {
    if s == [] then 0 else s[0] + 0x100 * FromLe(s[1..])
  }

  function Pow256(n: nat): (p: nat)
    ensures p > 0
  {
    if n == 0 then 1 else 0x100 * Pow256(n - 1)
  }

  function Le16(v: int): seq<byte> { Le(v, 2) }
  function Le32(v: int): seq<byte> { Le(v, 4) }

  lemma {:induction false} LeRoundTrip(v: nat, width: nat)
    requires v < Pow256(width)
    ensures FromLe(Le(v, width)) == v
  {
    if width > 0 {
      LeRoundTrip(v / 0x100, width - 1);
    }
  }

  lemma Pow256Values()
    ensures Pow256(1) == 0x100 && Pow256(2) == 0x1_0000
    ensures Pow256(4) == 0x1_0000_0000 && Pow256(8) == 0x1_0000_0000_0000_0000
  {
    assert Pow256(3) == 0x100_0000;
    assert Pow256(5) == 0x100_0000_0000;
    assert Pow256(6) == 0x1_0000_0000_0000;
    assert Pow256(7) == 0x100_0000_0000_0000;
  }

  lemma Le16RoundTrip(v: nat)
    requires v < 0x1_0000
    ensures FromLe(Le16(v)) == v
  {
    Pow256Values();
    LeRoundTrip(v, 2);
  }

  lemma Le32RoundTrip(v: uint32)
    ensures FromLe(Le32(v)) == v
  {
    Pow256Values();
    LeRoundTrip(v, 4);
  }

  lemma {:induction false} FromLeBound(s: seq<byte>)
    ensures FromLe(s) < Pow256(|s|)
  {
    if s != [] {
      FromLeBound(s[1..]);
    }
  }

  lemma TwoBytes(a: byte, b: byte)
    ensures FromLe([a, b]) == a + 0x100 * b
  {
    assert [a, b][1..] == [b] && [b][1..] == [];
    assert FromLe([b]) == b + 0x100 * FromLe([]);
  }

  /** A narrower store keeps the first bytes of a wider one. */
  lemma {:induction false} LePrefix(v: int, narrow: nat, wide: nat)
    requires narrow <= wide
    ensures Le(v, wide)[..narrow] == Le(v, narrow)
    decreases narrow
  {
    if narrow > 0 {
      LePrefix(v / 0x100, narrow - 1, wide - 1);
      assert Le(v, wide)[..narrow] == [v % 0x100] + Le(v / 0x100, wide - 1)[..narrow - 1];
    }
  }

  /** Two's complement: adding a multiple of the modulus changes none of the bytes kept. */
  lemma {:induction false} LeWraps(v: int, modulus: nat, width: nat)
    requires width <= modulus
    ensures Le(v + Pow256(modulus), width) == Le(v, width)
    decreases width
  {
    if width > 0 {
      DivShift(v, Pow256(modulus - 1));
      LeWraps(v / 0x100, modulus - 1, width - 1);
    }
  }

  lemma DivShift(v: int, p: int)
    ensures (v + 0x100 * p) % 0x100 == v % 0x100 && (v + 0x100 * p) / 0x100 == v / 0x100 + p
  {
  }

  // ---------------------------------------------------------------- NUL-terminated names

  /** What is left of `s` before its first NUL: how a padded name field is read. */
  function CString(s: seq<byte>): (r: seq<byte>)
    ensures r <= s && 0 !in r
    ensures |r| < |s| ==> s[|r|] == 0
  {
    if s == [] || s[0] == 0 then [] else
      var t := CString(s[1..]);
      assert s[1..][..|t|] == t;
      assert s[..1 + |t|] == [s[0]] + t;
      [s[0]] + t
  }

  /** The result contract of `CString` leaves no choice. */
  lemma CStringUnique(s: seq<byte>, r: seq<byte>)
    requires r <= s && 0 !in r
    requires |r| < |s| ==> s[|r|] == 0
    ensures CString(s) == r
  {
    var t := CString(s);
    if |t| < |r| {
      assert false;
    } else if |r| < |t| {
      assert false;
    }
  }

  /** NUL padding is invisible to a reader of names. */
  lemma CStringPadded(s: seq<byte>, pad: nat)
    ensures CString(s + Fill(pad, 0)) == CString(s)
  {
    var r := CString(s);
    var padded := s + Fill(pad, 0);
    assert r <= padded;
    CStringUnique(padded, r);
  }

  // ---------------------------------------------------------------- copying and bits

  /** `copy(dst[at:], src)` where all of `src` fits. */
  method CopyInto(dst: array<byte>, at: nat, src: seq<byte>)
    requires at + |src| <= dst.Length
    modifies dst
    ensures dst[..] == Splice(old(dst[..]), at, src)
  {
    for i := 0 to |src|
      invariant dst[..at] == old(dst[..at]) && dst[at + |src|..] == old(dst[at + |src|..])
      invariant forall k :: 0 <= k < i ==> dst[at + k] == src[k]
    {
      dst[at + i] := src[i];
    }
    assert dst[at..at + |src|] == src;
    assert dst[..] == dst[..at] + dst[at..at + |src|] + dst[at + |src|..];
  }

  function Bits(b: byte): bv8 { b as bv8 }
  function OfBits(v: bv8): byte { v as int }

  lemma ByteOfBits(b: byte)
    ensures OfBits(Bits(b)) == b
  {
    ThereAndBack(b);
  }

  lemma ThereAndBack(b: byte)
    ensures (b as bv8) as int == b
  {
    // The conversion is decided sixteen values at a time.
    if b < 0x10 {} else if b < 0x20 {} else if b < 0x30 {} else if b < 0x40 {}
    else if b < 0x50 {} else if b < 0x60 {} else if b < 0x70 {} else if b < 0x80 {}
    else if b < 0x90 {} else if b < 0xA0 {} else if b < 0xB0 {} else if b < 0xC0 {}
    else if b < 0xD0 {} else if b < 0xE0 {} else if b < 0xF0 {} else {}
  }

  lemma BitsOfByte(v: bv8)
    ensures Bits(OfBits(v)) == v
  {
  }

  lemma OfBitsInjective(v: bv8, w: bv8)
    requires OfBits(v) == OfBits(w)
    ensures v == w
  {
    hide Bits, OfBits;
    BitsOfByte(v);
    BitsOfByte(w);
  }

  lemma BitsInjective(a: byte, b: byte)
    requires Bits(a) == Bits(b)
    ensures a == b
  {
    hide Bits, OfBits;
    ByteOfBits(a);
    ByteOfBits(b);
  }
}
