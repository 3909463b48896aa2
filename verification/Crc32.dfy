/** CRC-32 as `hash/crc32` computes it. The table in the sample code of RFC 1952, section 8,
    holds the effect of eight bit steps; here the eight steps are taken one at a time. */
module Crc32 {
  import opened Bytes

  function Xor(a: bv32, b: bv32): bv32 { a ^ b }

  // One bit of the reflected polynomial division.
  function BitStep(c: bv32): bv32 {
    if c & 1 == 1 then (c >> 1) ^ 0xEDB88320 else c >> 1
  }

  function TwoSteps(c: bv32): bv32 { BitStep(BitStep(c)) }
  function FourSteps(c: bv32): bv32 { TwoSteps(TwoSteps(c)) }
  function EightSteps(c: bv32): bv32 { FourSteps(FourSteps(c)) }

  function Widen(b: byte): (w: bv32)
    ensures w <= 0xFF
  {
    Bits(b) as bv32
  }

  function ByteStep(c: bv32, b: byte): bv32 { EightSteps(Xor(c, Widen(b))) }

  function Fold(c: bv32, data: seq<byte>): bv32
    decreases |data|
  {
    if data == [] then c else Fold(ByteStep(c, data[0]), data[1..])
  }

  /** `crc32.Update`: the register is complemented on the way in and on the way out. */
  function Update(crc: bv32, data: seq<byte>): bv32 { !Fold(!crc, data) }

  function Crc(data: seq<byte>): bv32 { Update(0xFFFF_FFFF, data) }

  function Narrow(w: bv32): bv8 { (w & 0xFF) as bv8 }

  function Stored(c: bv32): (s: seq<byte>)
    ensures |s| == 4
  {
    Le32(c as int)
  }

  /** The checksum as it is stored: four bytes, least significant first. */
  function CrcBytes(data: seq<byte>): (s: seq<byte>)
    ensures |s| == 4
  {
    Stored(Crc(data))
  }

  // ---------------------------------------------------------------- every step is invertible

  lemma BitStepInjective(a: bv32, b: bv32)
    requires BitStep(a) == BitStep(b)
    ensures a == b
  {
  }

  lemma EightStepsInjective(a: bv32, b: bv32)
    requires EightSteps(a) == EightSteps(b)
    ensures a == b
  {
    hide FourSteps;
    FourStepsInjective(FourSteps(a), FourSteps(b));
    FourStepsInjective(a, b);
  }

  lemma FourStepsInjective(a: bv32, b: bv32)
    requires FourSteps(a) == FourSteps(b)
    ensures a == b
  {
    hide BitStep;
    BitStepInjective(BitStep(TwoSteps(a)), BitStep(TwoSteps(b)));
    BitStepInjective(TwoSteps(a), TwoSteps(b));
    BitStepInjective(BitStep(a), BitStep(b));
    BitStepInjective(a, b);
  }

  lemma XorCancels(c: bv32, d: bv32, w: bv32)
    ensures Xor(c, w) == Xor(w, c)
    ensures Xor(c, w) == Xor(d, w) ==> c == d
  {
  }

  /** A register and a byte each determine the step, given the other. */
  lemma ByteStepInjective(c: bv32, d: bv32, b: byte)
    requires ByteStep(c, b) == ByteStep(d, b)
    ensures c == d
  {
    hide EightSteps, Xor, Widen;
    EightStepsInjective(Xor(c, Widen(b)), Xor(d, Widen(b)));
    XorCancels(c, d, Widen(b));
  }

  lemma ByteStepSeesByte(c: bv32, a: byte, b: byte)
    requires ByteStep(c, a) == ByteStep(c, b)
    ensures a == b
  {
    hide EightSteps, Xor, Widen;
    EightStepsInjective(Xor(c, Widen(a)), Xor(c, Widen(b)));
    XorCancels(Widen(a), Widen(b), c);
    XorCancels(c, c, Widen(b));
    WidenInjective(a, b);
  }

  lemma NarrowWide(v: bv8)
    ensures Narrow(v as bv32) == v
  {
  }

  lemma WidenInjective(a: byte, b: byte)
    requires Widen(a) == Widen(b)
    ensures a == b
  {
    hide Narrow, Bits;
    NarrowWide(Bits(a));
    NarrowWide(Bits(b));
    BitsInjective(a, b);
  }

  lemma {:induction false} FoldInjective(c: bv32, d: bv32, data: seq<byte>)
    requires Fold(c, data) == Fold(d, data)
    ensures c == d
    decreases |data|
  {
    hide ByteStep;
    if data != [] {
      FoldInjective(ByteStep(c, data[0]), ByteStep(d, data[0]), data[1..]);
      ByteStepInjective(c, d, data[0]);
    }
  }

  /** The registers after two inputs that differ in exactly one byte are different. */
  lemma {:induction false} FoldDetects(c: bv32, data: seq<byte>, i: nat, x: byte)
    requires i < |data| && data[i] != x
    ensures Fold(c, data[i := x]) != Fold(c, data)
    decreases i
  {
    hide ByteStep;
    var changed := data[i := x];
    if i == 0 {
      assert changed[1..] == data[1..];
      if Fold(c, changed) == Fold(c, data) {
        FoldInjective(ByteStep(c, x), ByteStep(c, data[0]), data[1..]);
        ByteStepSeesByte(c, x, data[0]);
      }
    } else {
      assert changed[1..] == data[1..][i - 1 := x];
      FoldDetects(ByteStep(c, data[0]), data[1..], i - 1, x);
    }
  }

  // ---------------------------------------------------------------- stored checksums

  lemma ThereAndBackWide(c: bv32)
    ensures (c as int) as bv32 == c
  {
  }

  lemma StoredWord(c: bv32)
    ensures FromLe(Stored(c)) == c as int
  {
    Le32RoundTrip(c as int);
  }

  /** What is stored is the checksum, least significant byte first. */
  lemma CrcStored(data: seq<byte>)
    ensures FromLe(CrcBytes(data)) == Crc(data) as int
  {
    hide Crc, Stored, FromLe;
    StoredWord(Crc(data));
  }

  /** A stored checksum stops matching when any one byte it covers changes. */
  lemma CrcDetects(data: seq<byte>, i: nat, x: byte)
    requires i < |data| && data[i] != x
    ensures CrcBytes(data[i := x]) != CrcBytes(data)
  {
    hide Fold, Stored, CrcBytes;
    FoldDetects(!0xFFFF_FFFF, data, i, x);
    if CrcBytes(data[i := x]) == CrcBytes(data) {
      CrcStored(data);
      CrcStored(data[i := x]);
      ThereAndBackWide(Crc(data));
      ThereAndBackWide(Crc(data[i := x]));
    }
  }

  /** The value the format document works out for the string "hi" and its NUL, and the bytes stored
      for it. */
  lemma CrcOfHi()
    ensures Crc([0x68, 0x69, 0x00]) == 0x0D04_B589
    ensures CrcBytes([0x68, 0x69, 0x00]) == [0x89, 0xB5, 0x04, 0x0D]
  {
    var c1 := ByteStep(0, 0x68);
    var c2 := ByteStep(c1, 0x69);
    assert [0x68, 0x69, 0x00][1..] == [0x69, 0x00];
    assert [0x69, 0x00][1..] == [0x00];
    FoldOne(c2, 0x00);
    FirstByte();
    SecondByte();
    ThirdByte();
    StoredHi();
  }

  lemma StoredHi()
    ensures Stored(0x0D04_B589) == [0x89, 0xB5, 0x04, 0x0D]
  {
    assert 0x0D04_B589 as bv32 as int == 0x0D04_B589;
  }

  lemma FoldOne(c: bv32, b: byte)
    ensures Fold(c, [b]) == ByteStep(c, b)
  {
    hide ByteStep;
    assert [b][1..] == [];
  }

  lemma FirstByte() ensures ByteStep(0, 0x68) == 0x4369_E96A {}
  lemma SecondByte() ensures ByteStep(0x4369_E96A, 0x69) == 0x994A_3853 {}
  lemma ThirdByte() ensures ByteStep(0x994A_3853, 0x00) == 0xF2FB_4A76 {}
}
