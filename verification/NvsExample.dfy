/** The worked example of section 9 of nvs/FORMAT.md, byte for byte: the checksums taken step by
    step, and the image of the two calls that make it. */
module NvsExample {
  import opened Bytes
  import opened Crc32
  import opened NvsFormat
  import opened NvsImage
  import opened NvsPartition
  import opened NvsReadBack

  // ---------------------------------------------------------------- the bytes of the example

  const STORAGE: seq<byte> := [0x73, 0x74, 0x6F, 0x72, 0x61, 0x67, 0x65]
  const X: seq<byte> := [0x78]
  const NAME: seq<byte> := [0x6E, 0x61, 0x6D, 0x65]
  const HI: seq<byte> := [0x68, 0x69]

  /** storage,namespace / x,data,u8,42 / name,data,string,hi: the calls that make these settings. */
  const EXAMPLE: seq<Call> := [Put(STORAGE, X, Int(U8, 42)), Put(STORAGE, NAME, Str(HI))]

  const HEADER: seq<byte> :=
    [0xFE, 0xFF, 0xFF, 0xFF] + [0x00, 0x00, 0x00, 0x00, 0xFE, 0xFF, 0xFF, 0xFF]
    + [0xFF, 0xFF, 0xFF, 0xFF, 0xFF, 0xFF, 0xFF, 0xFF] + [0xFF, 0xFF, 0xFF, 0xFF, 0xFF, 0xFF, 0xFF, 0xFF]
    + [0x84, 0x2D, 0xBA, 0xB9]

  const STORAGE_ENTRY: seq<byte> :=
    [0x00, 0x01, 0x01, 0xFF] + [0x09, 0xA9, 0x50, 0x07] + [0x73, 0x74, 0x6F, 0x72, 0x61, 0x67, 0x65, 0x00]
    + [0x00, 0x00, 0x00, 0x00, 0x00, 0x00, 0x00, 0x00] + [0x01, 0xFF, 0xFF, 0xFF, 0xFF, 0xFF, 0xFF, 0xFF]

  const X_ENTRY: seq<byte> :=
    [0x01, 0x01, 0x01, 0xFF] + [0x92, 0x2C, 0x49, 0x14] + [0x78, 0x00, 0x00, 0x00, 0x00, 0x00, 0x00, 0x00]
    + [0x00, 0x00, 0x00, 0x00, 0x00, 0x00, 0x00, 0x00] + [0x2A, 0xFF, 0xFF, 0xFF, 0xFF, 0xFF, 0xFF, 0xFF]

  const NAME_HEAD: seq<byte> :=
    [0x01, 0x21, 0x02, 0xFF] + [0x44, 0xA5, 0x41, 0xB4] + [0x6E, 0x61, 0x6D, 0x65, 0x00, 0x00, 0x00, 0x00]
    + [0x00, 0x00, 0x00, 0x00, 0x00, 0x00, 0x00, 0x00] + [0x03, 0x00, 0xFF, 0xFF, 0x89, 0xB5, 0x04, 0x0D]

  const NAME_DATA: seq<byte> := [0x68, 0x69, 0x00] + Fill(29, 0xFF)

  // ---------------------------------------------------------------- checksums step by step

  function StepOn(c: bv32, w: bv8): bv32 { EightSteps(Xor(c, w as bv32)) }

  lemma BitsOf(w: bv8, b: byte)
    requires w as int == b
    ensures Bits(b) == w
  {
  }

  lemma StepIs(c: bv32, w: bv8, b: byte)
    requires w as int == b
    ensures ByteStep(c, b) == StepOn(c, w)
  {
    hide EightSteps, Xor;
    BitsOf(w, b);
  }

  /** A register after some bytes, given the registers in between. */
  lemma {:induction false} Traced(data: seq<byte>, ws: seq<bv8>, regs: seq<bv32>)
    requires |ws| == |data| && |regs| == |data| + 1
    requires forall i :: 0 <= i < |data| ==> ws[i] as int == data[i] && StepOn(regs[i], ws[i]) == regs[i + 1]
    ensures Fold(regs[0], data) == regs[|data|]
    decreases |data|
  {
    hide ByteStep, StepOn;
    if data != [] {
      StepIs(regs[0], ws[0], data[0]);
      Traced(data[1..], ws[1..], regs[1..]);
    }
  }

  lemma {:induction false} FoldAppend(c: bv32, a: seq<byte>, b: seq<byte>)
    ensures Fold(c, a + b) == Fold(Fold(c, a), b)
    decreases |a|
  {
    hide ByteStep;
    if a == [] {
      assert a + b == b;
    } else {
      assert (a + b)[0] == a[0] && (a + b)[1..] == a[1..] + b;
      FoldAppend(ByteStep(c, a[0]), a[1..], b);
    }
  }

  // The registers for the page header.
  lemma HeaderSteps()
    ensures StepOn(0x0000_0000, 0x00) == 0x0000_0000 && StepOn(0x0000_0000, 0x00) == 0x0000_0000 && StepOn(0x0000_0000, 0x00) == 0x0000_0000 && StepOn(0x0000_0000, 0x00) == 0x0000_0000
    ensures StepOn(0x0000_0000, 0xFE) == 0x5A05_DF1B && StepOn(0x5A05_DF1B, 0xFF) == 0xA73D_23BE && StepOn(0xA73D_23BE, 0xFF) == 0x017C_4C25 && StepOn(0x017C_4C25, 0xFF) == 0x6607_4786
    ensures StepOn(0x6607_4786, 0xFF) == 0x29BF_CEDF && StepOn(0x29BF_CEDF, 0xFF) == 0x3B47_9F06 && StepOn(0x3B47_9F06, 0xFF) == 0xC45A_0D27 && StepOn(0xC45A_0D27, 0xFF) == 0x88CC_00EB
    ensures StepOn(0x88CC_00EB, 0xFF) == 0x1A52_187D && StepOn(0x1A52_187D, 0xFF) == 0x03AC_B014 && StepOn(0x03AC_B014, 0xFF) == 0x37DB_9740 && StepOn(0x37DB_9740, 0xFF) == 0x5BE9_758A
    ensures StepOn(0x5BE9_758A, 0xFF) == 0x2034_6CC6 && StepOn(0x2034_6CC6, 0xFF) == 0x5F25_BC64 && StepOn(0x5F25_BC64, 0xFF) == 0x6782_6F70 && StepOn(0x6782_6F70, 0xFF) == 0x7D60_1CDE
    ensures StepOn(0x7D60_1CDE, 0xFF) == 0x4C14_7042 && StepOn(0x4C14_7042, 0xFF) == 0xB59C_DB41 && StepOn(0xB59C_DB41, 0xFF) == 0x2C6C_0250 && StepOn(0x2C6C_0250, 0xFF) == 0x4645_D27B
  {
  }

  lemma Header0()
    ensures Fold(0x0000_0000, [0x00, 0x00, 0x00, 0x00, 0xFE, 0xFF, 0xFF, 0xFF]) == 0x6607_4786
  {
    hide StepOn, Fold;
    HeaderSteps();
    Traced([0x00, 0x00, 0x00, 0x00, 0xFE, 0xFF, 0xFF, 0xFF], [0x00, 0x00, 0x00, 0x00, 0xFE, 0xFF, 0xFF, 0xFF],
           [0x0000_0000, 0x0000_0000, 0x0000_0000, 0x0000_0000, 0x0000_0000, 0x5A05_DF1B, 0xA73D_23BE, 0x017C_4C25, 0x6607_4786]);
  }

  lemma Header1()
    ensures Fold(0x6607_4786, [0xFF, 0xFF, 0xFF, 0xFF, 0xFF, 0xFF, 0xFF, 0xFF]) == 0x5BE9_758A
  {
    hide StepOn, Fold;
    HeaderSteps();
    Traced([0xFF, 0xFF, 0xFF, 0xFF, 0xFF, 0xFF, 0xFF, 0xFF], [0xFF, 0xFF, 0xFF, 0xFF, 0xFF, 0xFF, 0xFF, 0xFF],
           [0x6607_4786, 0x29BF_CEDF, 0x3B47_9F06, 0xC45A_0D27, 0x88CC_00EB, 0x1A52_187D, 0x03AC_B014, 0x37DB_9740, 0x5BE9_758A]);
  }

  lemma Header2()
    ensures Fold(0x5BE9_758A, [0xFF, 0xFF, 0xFF, 0xFF, 0xFF, 0xFF, 0xFF, 0xFF]) == 0x4645_D27B
  {
    hide StepOn, Fold;
    HeaderSteps();
    Traced([0xFF, 0xFF, 0xFF, 0xFF, 0xFF, 0xFF, 0xFF, 0xFF], [0xFF, 0xFF, 0xFF, 0xFF, 0xFF, 0xFF, 0xFF, 0xFF],
           [0x5BE9_758A, 0x2034_6CC6, 0x5F25_BC64, 0x6782_6F70, 0x7D60_1CDE, 0x4C14_7042, 0xB59C_DB41, 0x2C6C_0250, 0x4645_D27B]);
  }

  lemma HeaderCrc()
    ensures CrcBytes([0x00, 0x00, 0x00, 0x00, 0xFE, 0xFF, 0xFF, 0xFF] + [0xFF, 0xFF, 0xFF, 0xFF, 0xFF, 0xFF, 0xFF, 0xFF] + [0xFF, 0xFF, 0xFF, 0xFF, 0xFF, 0xFF, 0xFF, 0xFF])
         == [0x84, 0x2D, 0xBA, 0xB9]
  {
    hide Fold, Stored;
    FoldAppend(0, [0x00, 0x00, 0x00, 0x00, 0xFE, 0xFF, 0xFF, 0xFF],
               [0xFF, 0xFF, 0xFF, 0xFF, 0xFF, 0xFF, 0xFF, 0xFF]);
    FoldAppend(0, [0x00, 0x00, 0x00, 0x00, 0xFE, 0xFF, 0xFF, 0xFF] + [0xFF, 0xFF, 0xFF, 0xFF, 0xFF, 0xFF, 0xFF, 0xFF],
               [0xFF, 0xFF, 0xFF, 0xFF, 0xFF, 0xFF, 0xFF, 0xFF]);
    Header0();
    Header1();
    Header2();
    HeaderStored();
  }

  lemma HeaderStored()
    ensures Stored(!0x4645_D27B) == [0x84, 0x2D, 0xBA, 0xB9]
  {
    assert !(0x4645_D27B as bv32) as int == 0xB9BA2D84;
  }

  // The registers for the namespace entry.
  lemma StorageSteps()
    ensures StepOn(0x0000_0000, 0x00) == 0x0000_0000 && StepOn(0x0000_0000, 0x01) == 0x7707_3096 && StepOn(0x7707_3096, 0x01) == 0x6E1C_01D7 && StepOn(0x6E1C_01D7, 0xFF) == 0x35DB_B4FB
    ensures StepOn(0x35DB_B4FB, 0x73) == 0xE356_D0A6 && StepOn(0xE356_D0A6, 0x74) == 0x683E_E528 && StepOn(0x683E_E528, 0x6F) == 0xE8D0_EAD6 && StepOn(0xE8D0_EAD6, 0x72) == 0xD153_B71B
    ensures StepOn(0xD153_B71B, 0x61) == 0xB001_CB95 && StepOn(0xB001_CB95, 0x67) == 0x5303_92FB && StepOn(0x5303_92FB, 0x65) == 0x17E4_BDD1 && StepOn(0x17E4_BDD1, 0x00) == 0xF1C3_06FF
    ensures StepOn(0xF1C3_06FF, 0x00) == 0x2DF3_2C8B && StepOn(0x2DF3_2C8B, 0x00) == 0x7A47_A984 && StepOn(0x7A47_A984, 0x00) == 0xEAAF_0090 && StepOn(0xEAAF_0090, 0x00) == 0xF0E5_3C44
    ensures StepOn(0xF0E5_3C44, 0x00) == 0x7141_60B5 && StepOn(0x7141_60B5, 0x00) == 0xBB7A_0663 && StepOn(0xBB7A_0663, 0x00) == 0xD400_4AE4 && StepOn(0xD400_4AE4, 0x00) == 0xA7B3_262B
    ensures StepOn(0xA7B3_262B, 0x01) == 0xDB1C_7AF0 && StepOn(0xDB1C_7AF0, 0xFF) == 0x9064_01EB && StepOn(0x9064_01EB, 0xFF) == 0x1A4A_B07C && StepOn(0x1A4A_B07C, 0xFF) == 0x74AB_982A
    ensures StepOn(0x74AB_982A, 0xFF) == 0xF6CD_8DC3 && StepOn(0xF6CD_8DC3, 0xFF) == 0x2F99_B10A && StepOn(0x2F99_B10A, 0xFF) == 0xCDF8_9F22 && StepOn(0xCDF8_9F22, 0xFF) == 0xF8AF_56F6
  {
  }

  lemma Storage0()
    ensures Fold(0x0000_0000, [0x00, 0x01, 0x01, 0xFF]) == 0x35DB_B4FB
  {
    hide StepOn, Fold;
    StorageSteps();
    Traced([0x00, 0x01, 0x01, 0xFF], [0x00, 0x01, 0x01, 0xFF],
           [0x0000_0000, 0x0000_0000, 0x7707_3096, 0x6E1C_01D7, 0x35DB_B4FB]);
  }

  lemma Storage1()
    ensures Fold(0x35DB_B4FB, [0x73, 0x74, 0x6F, 0x72, 0x61, 0x67, 0x65, 0x00]) == 0xF1C3_06FF
  {
    hide StepOn, Fold;
    StorageSteps();
    Traced([0x73, 0x74, 0x6F, 0x72, 0x61, 0x67, 0x65, 0x00], [0x73, 0x74, 0x6F, 0x72, 0x61, 0x67, 0x65, 0x00],
           [0x35DB_B4FB, 0xE356_D0A6, 0x683E_E528, 0xE8D0_EAD6, 0xD153_B71B, 0xB001_CB95, 0x5303_92FB, 0x17E4_BDD1, 0xF1C3_06FF]);
  }

  lemma Storage2()
    ensures Fold(0xF1C3_06FF, [0x00, 0x00, 0x00, 0x00, 0x00, 0x00, 0x00, 0x00]) == 0xA7B3_262B
  {
    hide StepOn, Fold;
    StorageSteps();
    Traced([0x00, 0x00, 0x00, 0x00, 0x00, 0x00, 0x00, 0x00], [0x00, 0x00, 0x00, 0x00, 0x00, 0x00, 0x00, 0x00],
           [0xF1C3_06FF, 0x2DF3_2C8B, 0x7A47_A984, 0xEAAF_0090, 0xF0E5_3C44, 0x7141_60B5, 0xBB7A_0663, 0xD400_4AE4, 0xA7B3_262B]);
  }

  lemma Storage3()
    ensures Fold(0xA7B3_262B, [0x01, 0xFF, 0xFF, 0xFF, 0xFF, 0xFF, 0xFF, 0xFF]) == 0xF8AF_56F6
  {
    hide StepOn, Fold;
    StorageSteps();
    Traced([0x01, 0xFF, 0xFF, 0xFF, 0xFF, 0xFF, 0xFF, 0xFF], [0x01, 0xFF, 0xFF, 0xFF, 0xFF, 0xFF, 0xFF, 0xFF],
           [0xA7B3_262B, 0xDB1C_7AF0, 0x9064_01EB, 0x1A4A_B07C, 0x74AB_982A, 0xF6CD_8DC3, 0x2F99_B10A, 0xCDF8_9F22, 0xF8AF_56F6]);
  }

  lemma StorageCrc()
    ensures CrcBytes([0x00, 0x01, 0x01, 0xFF] + [0x73, 0x74, 0x6F, 0x72, 0x61, 0x67, 0x65, 0x00] + [0x00, 0x00, 0x00, 0x00, 0x00, 0x00, 0x00, 0x00] + [0x01, 0xFF, 0xFF, 0xFF, 0xFF, 0xFF, 0xFF, 0xFF])
         == [0x09, 0xA9, 0x50, 0x07]
  {
    hide Fold, Stored;
    FoldAppend(0, [0x00, 0x01, 0x01, 0xFF],
               [0x73, 0x74, 0x6F, 0x72, 0x61, 0x67, 0x65, 0x00]);
    FoldAppend(0, [0x00, 0x01, 0x01, 0xFF] + [0x73, 0x74, 0x6F, 0x72, 0x61, 0x67, 0x65, 0x00],
               [0x00, 0x00, 0x00, 0x00, 0x00, 0x00, 0x00, 0x00]);
    FoldAppend(0, [0x00, 0x01, 0x01, 0xFF] + [0x73, 0x74, 0x6F, 0x72, 0x61, 0x67, 0x65, 0x00] + [0x00, 0x00, 0x00, 0x00, 0x00, 0x00, 0x00, 0x00],
               [0x01, 0xFF, 0xFF, 0xFF, 0xFF, 0xFF, 0xFF, 0xFF]);
    Storage0();
    Storage1();
    Storage2();
    Storage3();
    StorageStored();
  }

  lemma StorageStored()
    ensures Stored(!0xF8AF_56F6) == [0x09, 0xA9, 0x50, 0x07]
  {
    assert !(0xF8AF_56F6 as bv32) as int == 0x750A909;
  }

  // The registers for the integer.
  lemma XSteps()
    ensures StepOn(0x0000_0000, 0x01) == 0x7707_3096 && StepOn(0x7707_3096, 0x01) == 0x6E1C_01D7 && StepOn(0x6E1C_01D7, 0x01) == 0x6FDE_6BE0 && StepOn(0x6FDE_6BE0, 0xFF) == 0x8D67_D39E
    ensures StepOn(0x8D67_D39E, 0x78) == 0x49E4_209E && StepOn(0x49E4_209E, 0x00) == 0x17FE_5A63 && StepOn(0x17FE_5A63, 0x00) == 0xD4AC_CEB8 && StepOn(0xD4AC_CEB8, 0x00) == 0xC56E_9770
    ensures StepOn(0xC56E_9770, 0x00) == 0x50C0_1FAB && StepOn(0x50C0_1FAB, 0x00) == 0x4154_BA7F && StepOn(0x4154_BA7F, 0x00) == 0xC0FB_3817 && StepOn(0xC0FB_3817, 0x00) == 0x8313_7EFF
    ensures StepOn(0x8313_7EFF, 0x00) == 0x2D81_FCF3 && StepOn(0x2D81_FCF3, 0x00) == 0x2499_225A && StepOn(0x2499_225A, 0x00) == 0x8B9A_21C8 && StepOn(0x8B9A_21C8, 0x00) == 0x9534_D0A3
    ensures StepOn(0x9534_D0A3, 0x00) == 0x4F4A_C682 && StepOn(0x4F4A_C682, 0x00) == 0x03F9_A8CA && StepOn(0x03F9_A8CA, 0x00) == 0x7BB2_D206 && StepOn(0x7BB2_D206, 0x00) == 0xE918_17E7
    ensures StepOn(0xE918_17E7, 0x2A) == 0xE53C_A61A && StepOn(0xE53C_A61A, 0xFF) == 0xD085_2A51 && StepOn(0xD085_2A51, 0xFF) == 0x31BE_0BC5 && StepOn(0x31BE_0BC5, 0xFF) == 0xC63D_67B9
    ensures StepOn(0xC63D_67B9, 0xFF) == 0x9F79_D9C2 && StepOn(0x9F79_D9C2, 0xFF) == 0x58F7_35C8 && StepOn(0x58F7_35C8, 0xFF) == 0xB8E5_523A && StepOn(0xB8E5_523A, 0xFF) == 0xEBB6_D36D
  {
  }

  lemma X0()
    ensures Fold(0x0000_0000, [0x01, 0x01, 0x01, 0xFF]) == 0x8D67_D39E
  {
    hide StepOn, Fold;
    XSteps();
    Traced([0x01, 0x01, 0x01, 0xFF], [0x01, 0x01, 0x01, 0xFF],
           [0x0000_0000, 0x7707_3096, 0x6E1C_01D7, 0x6FDE_6BE0, 0x8D67_D39E]);
  }

  lemma X1()
    ensures Fold(0x8D67_D39E, [0x78, 0x00, 0x00, 0x00, 0x00, 0x00, 0x00, 0x00]) == 0x8313_7EFF
  {
    hide StepOn, Fold;
    XSteps();
    Traced([0x78, 0x00, 0x00, 0x00, 0x00, 0x00, 0x00, 0x00], [0x78, 0x00, 0x00, 0x00, 0x00, 0x00, 0x00, 0x00],
           [0x8D67_D39E, 0x49E4_209E, 0x17FE_5A63, 0xD4AC_CEB8, 0xC56E_9770, 0x50C0_1FAB, 0x4154_BA7F, 0xC0FB_3817, 0x8313_7EFF]);
  }

  lemma X2()
    ensures Fold(0x8313_7EFF, [0x00, 0x00, 0x00, 0x00, 0x00, 0x00, 0x00, 0x00]) == 0xE918_17E7
  {
    hide StepOn, Fold;
    XSteps();
    Traced([0x00, 0x00, 0x00, 0x00, 0x00, 0x00, 0x00, 0x00], [0x00, 0x00, 0x00, 0x00, 0x00, 0x00, 0x00, 0x00],
           [0x8313_7EFF, 0x2D81_FCF3, 0x2499_225A, 0x8B9A_21C8, 0x9534_D0A3, 0x4F4A_C682, 0x03F9_A8CA, 0x7BB2_D206, 0xE918_17E7]);
  }

  lemma X3()
    ensures Fold(0xE918_17E7, [0x2A, 0xFF, 0xFF, 0xFF, 0xFF, 0xFF, 0xFF, 0xFF]) == 0xEBB6_D36D
  {
    hide StepOn, Fold;
    XSteps();
    Traced([0x2A, 0xFF, 0xFF, 0xFF, 0xFF, 0xFF, 0xFF, 0xFF], [0x2A, 0xFF, 0xFF, 0xFF, 0xFF, 0xFF, 0xFF, 0xFF],
           [0xE918_17E7, 0xE53C_A61A, 0xD085_2A51, 0x31BE_0BC5, 0xC63D_67B9, 0x9F79_D9C2, 0x58F7_35C8, 0xB8E5_523A, 0xEBB6_D36D]);
  }

  lemma XCrc()
    ensures CrcBytes([0x01, 0x01, 0x01, 0xFF] + [0x78, 0x00, 0x00, 0x00, 0x00, 0x00, 0x00, 0x00] + [0x00, 0x00, 0x00, 0x00, 0x00, 0x00, 0x00, 0x00] + [0x2A, 0xFF, 0xFF, 0xFF, 0xFF, 0xFF, 0xFF, 0xFF])
         == [0x92, 0x2C, 0x49, 0x14]
  {
    hide Fold, Stored;
    FoldAppend(0, [0x01, 0x01, 0x01, 0xFF],
               [0x78, 0x00, 0x00, 0x00, 0x00, 0x00, 0x00, 0x00]);
    FoldAppend(0, [0x01, 0x01, 0x01, 0xFF] + [0x78, 0x00, 0x00, 0x00, 0x00, 0x00, 0x00, 0x00],
               [0x00, 0x00, 0x00, 0x00, 0x00, 0x00, 0x00, 0x00]);
    FoldAppend(0, [0x01, 0x01, 0x01, 0xFF] + [0x78, 0x00, 0x00, 0x00, 0x00, 0x00, 0x00, 0x00] + [0x00, 0x00, 0x00, 0x00, 0x00, 0x00, 0x00, 0x00],
               [0x2A, 0xFF, 0xFF, 0xFF, 0xFF, 0xFF, 0xFF, 0xFF]);
    X0();
    X1();
    X2();
    X3();
    XStored();
  }

  lemma XStored()
    ensures Stored(!0xEBB6_D36D) == [0x92, 0x2C, 0x49, 0x14]
  {
    assert !(0xEBB6_D36D as bv32) as int == 0x14492C92;
  }

  // The registers for the string's head.
  lemma NameSteps()
    ensures StepOn(0x0000_0000, 0x01) == 0x7707_3096 && StepOn(0x7707_3096, 0x21) == 0x5572_211F && StepOn(0x5572_211F, 0x02) == 0x6353_1EF8 && StepOn(0x6353_1EF8, 0xFF) == 0x9E07_C6BD
    ensures StepOn(0x9E07_C6BD, 0x6E) == 0x1F44_84A8 && StepOn(0x1F44_84A8, 0x61) == 0xE2A7_3E90 && StepOn(0xE2A7_3E90, 0x6D) == 0xC3EE_299F && StepOn(0xC3EE_299F, 0x65) == 0x5DAB_F52B
    ensures StepOn(0x5DAB_F52B, 0x00) == 0xACE1_52B5 && StepOn(0xACE1_52B5, 0x00) == 0xBBA7_A651 && StepOn(0xBBA7_A651, 0x00) == 0x1CD7_C6C4 && StepOn(0x1CD7_C6C4, 0x00) == 0x9C15_D16F
    ensures StepOn(0x9C15_D16F, 0x00) == 0xDD91_6918 && StepOn(0xDD91_6918, 0x00) == 0x13B1_093F && StepOn(0x13B1_093F, 0x00) == 0xB675_9C34 && StepOn(0xB675_9C34, 0x00) == 0x2102_8129
    ensures StepOn(0x2102_8129, 0x00) == 0x4293_9AED && StepOn(0x4293_9AED, 0x00) == 0xDEF9_0D5F && StepOn(0xDEF9_0D5F, 0x00) == 0xFB0A_B568 && StepOn(0xFB0A_B568, 0x00) == 0x4392_E3DF
    ensures StepOn(0x4392_E3DF, 0x03) == 0x8F26_0C1C && StepOn(0x8F26_0C1C, 0x00) == 0x148E_7A43 && StepOn(0x148E_7A43, 0xFF) == 0xC2C3_71DD && StepOn(0xC2C3_71DD, 0xFF) == 0xD5A2_8295
    ensures StepOn(0xD5A2_8295, 0x89) == 0x14D4_FECD && StepOn(0x14D4_FECD, 0xB5) == 0x5ECA_2DF0 && StepOn(0x5ECA_2DF0, 0x04) == 0xBA8E_FC28 && StepOn(0xBA8E_FC28, 0x0D) == 0x4BBE_5ABB
  {
  }

  lemma Name0()
    ensures Fold(0x0000_0000, [0x01, 0x21, 0x02, 0xFF]) == 0x9E07_C6BD
  {
    hide StepOn, Fold;
    NameSteps();
    Traced([0x01, 0x21, 0x02, 0xFF], [0x01, 0x21, 0x02, 0xFF],
           [0x0000_0000, 0x7707_3096, 0x5572_211F, 0x6353_1EF8, 0x9E07_C6BD]);
  }

  lemma Name1()
    ensures Fold(0x9E07_C6BD, [0x6E, 0x61, 0x6D, 0x65, 0x00, 0x00, 0x00, 0x00]) == 0x9C15_D16F
  {
    hide StepOn, Fold;
    NameSteps();
    Traced([0x6E, 0x61, 0x6D, 0x65, 0x00, 0x00, 0x00, 0x00], [0x6E, 0x61, 0x6D, 0x65, 0x00, 0x00, 0x00, 0x00],
           [0x9E07_C6BD, 0x1F44_84A8, 0xE2A7_3E90, 0xC3EE_299F, 0x5DAB_F52B, 0xACE1_52B5, 0xBBA7_A651, 0x1CD7_C6C4, 0x9C15_D16F]);
  }

  lemma Name2()
    ensures Fold(0x9C15_D16F, [0x00, 0x00, 0x00, 0x00, 0x00, 0x00, 0x00, 0x00]) == 0x4392_E3DF
  {
    hide StepOn, Fold;
    NameSteps();
    Traced([0x00, 0x00, 0x00, 0x00, 0x00, 0x00, 0x00, 0x00], [0x00, 0x00, 0x00, 0x00, 0x00, 0x00, 0x00, 0x00],
           [0x9C15_D16F, 0xDD91_6918, 0x13B1_093F, 0xB675_9C34, 0x2102_8129, 0x4293_9AED, 0xDEF9_0D5F, 0xFB0A_B568, 0x4392_E3DF]);
  }

  lemma Name3()
    ensures Fold(0x4392_E3DF, [0x03, 0x00, 0xFF, 0xFF, 0x89, 0xB5, 0x04, 0x0D]) == 0x4BBE_5ABB
  {
    hide StepOn, Fold;
    NameSteps();
    Traced([0x03, 0x00, 0xFF, 0xFF, 0x89, 0xB5, 0x04, 0x0D], [0x03, 0x00, 0xFF, 0xFF, 0x89, 0xB5, 0x04, 0x0D],
           [0x4392_E3DF, 0x8F26_0C1C, 0x148E_7A43, 0xC2C3_71DD, 0xD5A2_8295, 0x14D4_FECD, 0x5ECA_2DF0, 0xBA8E_FC28, 0x4BBE_5ABB]);
  }

  lemma NameCrc()
    ensures CrcBytes([0x01, 0x21, 0x02, 0xFF] + [0x6E, 0x61, 0x6D, 0x65, 0x00, 0x00, 0x00, 0x00] + [0x00, 0x00, 0x00, 0x00, 0x00, 0x00, 0x00, 0x00] + [0x03, 0x00, 0xFF, 0xFF, 0x89, 0xB5, 0x04, 0x0D])
         == [0x44, 0xA5, 0x41, 0xB4]
  {
    hide Fold, Stored;
    FoldAppend(0, [0x01, 0x21, 0x02, 0xFF],
               [0x6E, 0x61, 0x6D, 0x65, 0x00, 0x00, 0x00, 0x00]);
    FoldAppend(0, [0x01, 0x21, 0x02, 0xFF] + [0x6E, 0x61, 0x6D, 0x65, 0x00, 0x00, 0x00, 0x00],
               [0x00, 0x00, 0x00, 0x00, 0x00, 0x00, 0x00, 0x00]);
    FoldAppend(0, [0x01, 0x21, 0x02, 0xFF] + [0x6E, 0x61, 0x6D, 0x65, 0x00, 0x00, 0x00, 0x00] + [0x00, 0x00, 0x00, 0x00, 0x00, 0x00, 0x00, 0x00],
               [0x03, 0x00, 0xFF, 0xFF, 0x89, 0xB5, 0x04, 0x0D]);
    Name0();
    Name1();
    Name2();
    Name3();
    NameStored();
  }

  lemma NameStored()
    ensures Stored(!0x4BBE_5ABB) == [0x44, 0xA5, 0x41, 0xB4]
  {
    assert !(0x4BBE_5ABB as bv32) as int == 0xB441A544;
  }

  // ---------------------------------------------------------------- the entries

  lemma StorageHead()
    ensures Head(0, STORAGE, Int(U8, 1)) == STORAGE_ENTRY
  {
    hide CrcBytes, Le;
    var lead, key, pad, tail := [0x00, 0x01, 0x01, 0xFF],
      [0x73, 0x74, 0x6F, 0x72, 0x61, 0x67, 0x65, 0x00], [0x00, 0x00, 0x00, 0x00, 0x00, 0x00, 0x00, 0x00],
      [0x01, 0xFF, 0xFF, 0xFF, 0xFF, 0xFF, 0xFF, 0xFF];
    assert KeyField(STORAGE) == key + pad;
    SmallByte(1);
    assert Tail(Int(U8, 1)) == tail;
    assert lead + (key + pad + tail) == lead + key + pad + tail;
    StorageCrc();
  }

  lemma XHead()
    ensures Head(1, X, Int(U8, 42)) == X_ENTRY
  {
    hide CrcBytes, Le;
    var lead, key, pad, tail := [0x01, 0x01, 0x01, 0xFF],
      [0x78, 0x00, 0x00, 0x00, 0x00, 0x00, 0x00, 0x00], [0x00, 0x00, 0x00, 0x00, 0x00, 0x00, 0x00, 0x00],
      [0x2A, 0xFF, 0xFF, 0xFF, 0xFF, 0xFF, 0xFF, 0xFF];
    assert KeyField(X) == key + pad;
    SmallByte(42);
    assert Tail(Int(U8, 42)) == tail;
    assert lead + (key + pad + tail) == lead + key + pad + tail;
    XCrc();
  }

  lemma NameHead()
    ensures Head(1, NAME, Str(HI)) == NAME_HEAD
  {
    hide CrcBytes, Le;
    var lead, key, pad, tail := [0x01, 0x21, 0x02, 0xFF],
      [0x6E, 0x61, 0x6D, 0x65, 0x00, 0x00, 0x00, 0x00], [0x00, 0x00, 0x00, 0x00, 0x00, 0x00, 0x00, 0x00],
      [0x03, 0x00, 0xFF, 0xFF, 0x89, 0xB5, 0x04, 0x0D];
    assert KeyField(NAME) == key + pad;
    NameTail();
    assert lead + (key + pad + tail) == lead + key + pad + tail;
    NameCrc();
  }

  lemma SmallByte(v: byte)
    ensures Le(ToUint64(v), 8)[..1] == [v]
  {
    LePrefix(v, 1, 8);
    LeOne(v);
  }

  lemma LeOne(v: byte)
    ensures Le(v, 1) == [v]
  {
    assert Le(v, 1) == [v % 0x100] + Le(v / 0x100, 0);
  }

  lemma NameTail()
    ensures Span(Str(HI)) == 2
    ensures Tail(Str(HI)) == [0x03, 0x00, 0xFF, 0xFF, 0x89, 0xB5, 0x04, 0x0D]
    ensures DataSlots(Payload(Str(HI))) == [NAME_DATA]
  {
    hide CrcBytes, Le;
    CrcOfHi();
    LeThree();
    assert Payload(Str(HI)) == [0x68, 0x69, 0x00];
  }

  lemma LeThree()
    ensures Le16(3) == [3, 0]
  {
    assert Le(3, 2) == [3] + Le(0, 1) && Le(0, 1) == [0] + Le(0, 0);
  }

  lemma ActiveHeader()
    ensures FinalHeader(NewPage(0), 0xFFFF_FFFE) == HEADER
  {
    hide CrcBytes, Le;
    LeState();
    var a, b, c := [0x00, 0x00, 0x00, 0x00, 0xFE, 0xFF, 0xFF, 0xFF],
      [0xFF, 0xFF, 0xFF, 0xFF, 0xFF, 0xFF, 0xFF, 0xFF], [0xFF, 0xFF, 0xFF, 0xFF, 0xFF, 0xFF, 0xFF, 0xFF];
    assert Fill(ENTRY_SIZE, 0xFF)[9..28] == Fill(19, 0xFF);
    assert Le32(0) + [VERSION_V2] + Fill(19, 0xFF) == a + b + c;
    HeaderCrc();
  }

  lemma LeState()
    ensures Le32(0xFFFF_FFFE) == [0xFE, 0xFF, 0xFF, 0xFF] && Le32(0) == [0, 0, 0, 0]
  {
    assert Le(0xFFFF_FFFE, 4) == [0xFE] + Le(0xFF_FFFF, 3) && Le(0xFF_FFFF, 3) == [0xFF] + Le(0xFFFF, 2);
    assert Le(0xFFFF, 2) == [0xFF] + Le(0xFF, 1) && Le(0xFF, 1) == [0xFF] + Le(0, 0);
    assert Le(0, 4) == [0] + Le(0, 3) && Le(0, 3) == [0] + Le(0, 2) && Le(0, 2) == [0] + Le(0, 1) && Le(0, 1) == [0] + Le(0, 0);
  }

  // ---------------------------------------------------------------- the calls and the image

  /** A write into a page with room for it. */
  lemma WriteHere(p: Part, ns: byte, key: seq<byte>, value: Value)
    requires p.Valid() && |p.pages| == 1 && p.Last().Free() >= Span(value) && |key| <= 15
    ensures Write(p, ns, key, value)
         == (p.(pages := [p.pages[0].(slots := p.pages[0].slots + ItemSlots(ns, key, value))]), None)
  {
    hide ItemSlots, Span;
    var pg := AppendAll(p.Last(), ItemSlots(ns, key, value));
    assert p.WithLast(pg).pages == [pg];
  }

  lemma IntSlots(ns: byte, key: seq<byte>, v: int)
    requires |key| <= 15
    ensures Span(Int(U8, v)) == 1 && ItemSlots(ns, key, Int(U8, v)) == [Head(ns, key, Int(U8, v))]
  {
    hide Head;
  }

  lemma FreshPage()
    ensures NewPage(0).slots == [] && NewPage(0).num == 0 && NewPage(0).header == Fill(ENTRY_SIZE, 0xFF)
  {
  }

  lemma ExampleX()
    ensures Set(New(0x3000).value, STORAGE, X, Int(U8, 42)).0
         == Part(0x3000, [NewPage(0).(slots := [STORAGE_ENTRY, X_ENTRY])], map[STORAGE := 1], 1)
  {
    hide Head, ItemSlots, Span, Write, STORAGE_ENTRY, X_ENTRY, NewPage;
    StorageHead();
    XHead();
    IntSlots(0, STORAGE, 1);
    IntSlots(1, X, 42);
    var p := New(0x3000).value;
    assert p.pages == [NewPage(0)] && p.pages[0].slots == [] by {
      FreshPage();
    }
    WriteHere(p.(nsN := 1), 0, STORAGE, Int(U8, 1));
    var q := Namespace(p, STORAGE).0;
    assert [] + [STORAGE_ENTRY] == [STORAGE_ENTRY];
    assert q == Part(0x3000, [NewPage(0).(slots := [STORAGE_ENTRY])], map[STORAGE := 1], 1);
    WriteHere(q, 1, X, Int(U8, 42));
    assert [STORAGE_ENTRY] + [X_ENTRY] == [STORAGE_ENTRY, X_ENTRY];
  }

  lemma ExampleName(q: Part)
    requires q == Part(0x3000, [NewPage(0).(slots := [STORAGE_ENTRY, X_ENTRY])], map[STORAGE := 1], 1)
    ensures q.Valid()
    ensures Set(q, STORAGE, NAME, Str(HI)).0.pages
         == [NewPage(0).(slots := [STORAGE_ENTRY, X_ENTRY, NAME_HEAD, NAME_DATA])]
  {
    hide Head, Tail, Payload, Span, Write, ItemSlots, STORAGE_ENTRY, X_ENTRY, NAME_HEAD, NAME_DATA, NewPage;
    NameSlots();
    FreshPage();
    WriteHere(q, 1, NAME, Str(HI));
    assert [STORAGE_ENTRY, X_ENTRY] + [NAME_HEAD, NAME_DATA] == [STORAGE_ENTRY, X_ENTRY, NAME_HEAD, NAME_DATA];
  }

  lemma NameSlots()
    ensures Span(Str(HI)) == 2 && |NAME| <= 15 && ItemSlots(1, NAME, Str(HI)) == [NAME_HEAD, NAME_DATA]
  {
    hide Head, Tail, Payload, NAME_HEAD, NAME_DATA;
    NameTail();
    NameHead();
  }

  lemma ExampleRun()
    ensures Run(New(0x3000).value, EXAMPLE).pages
         == [NewPage(0).(slots := [STORAGE_ENTRY, X_ENTRY, NAME_HEAD, NAME_DATA])]
  {
    hide Set, STORAGE_ENTRY, X_ENTRY, NAME_HEAD, NAME_DATA, NewPage;
    ExampleX();
    var p := New(0x3000).value;
    var q := Set(p, STORAGE, X, Int(U8, 42)).0;
    ExampleName(q);
    assert EXAMPLE[0] == Put(STORAGE, X, Int(U8, 42)) && EXAMPLE[1..][0] == Put(STORAGE, NAME, Str(HI));
    assert EXAMPLE[1..][1..] == [];
    assert Run(p, EXAMPLE) == Run(q, EXAMPLE[1..]);
  }

  lemma BitmapOfFour()
    ensures Bitmap(4) == [0xAA] + Fill(31, 0xFF)
  {
  }

  lemma FlatFour(a: seq<byte>, b: seq<byte>, c: seq<byte>, d: seq<byte>)
    ensures Flat([a, b, c, d]) == a + b + c + d
  {
    FlatOne(a);
    FlatSnoc([a], b);
    FlatSnoc([a, b], c);
    FlatSnoc([a, b, c], d);
    assert [a] + [b] == [a, b] && [a, b] + [c] == [a, b, c] && [a, b, c] + [d] == [a, b, c, d];
  }

  lemma ExamplePage(pg: PageState)
    requires pg == NewPage(0).(slots := [STORAGE_ENTRY, X_ENTRY, NAME_HEAD, NAME_DATA]) && pg.Valid()
    ensures Layout(Finalize(pg, 0xFFFF_FFFE))
         == HEADER + ([0xAA] + Fill(31, 0xFF)) + (STORAGE_ENTRY + X_ENTRY + NAME_HEAD + NAME_DATA) + Fill(122 * 32, 0xFF)
  {
    hide FinalHeader, Bitmap, Flat, STORAGE_ENTRY, X_ENTRY, NAME_HEAD, NAME_DATA, HEADER;
    ActiveHeader();
    BitmapOfFour();
    FlatFour(STORAGE_ENTRY, X_ENTRY, NAME_HEAD, NAME_DATA);
    assert FinalHeader(pg, 0xFFFF_FFFE) == FinalHeader(NewPage(0), 0xFFFF_FFFE) by {
      SameHeader(pg);
    }
  }

  lemma SameHeader(pg: PageState)
    requires pg.header == NewPage(0).header && pg.num == 0
    ensures FinalHeader(pg, 0xFFFF_FFFE) == FinalHeader(NewPage(0), 0xFFFF_FFFE)
  {
    hide CrcBytes, Le;
  }

  /** The image is the one the format document gives as made by the official generator: header,
      bitmap, two entries, a head with its data slot, and nothing but erased bytes behind them. */
  lemma WorkedExample()
    ensures var img := Render(Run(New(0x3000).value, EXAMPLE)).1;
            && img.Ok? && |img.value| == 12288
            && img.value == HEADER + ([0xAA] + Fill(31, 0xFF)) + (STORAGE_ENTRY + X_ENTRY + NAME_HEAD + NAME_DATA)
                            + Fill(12288 - 192, 0xFF)
  {
    hide Run, Layout, Finalize, Flat, STORAGE_ENTRY, X_ENTRY, NAME_HEAD, NAME_DATA, HEADER, NewPage;
    ExampleRun();
    var p := Run(New(0x3000).value, EXAMPLE);
    FlatOne(Layout(Finals(p)[0]));
    assert Layouts(Finals(p)) == [Layout(Finals(p)[0])];
    ExamplePage(p.pages[0]);
  }
}
