/**
 Which CRC `crc32` of src/bin/radnet_tools.rs is: the one of section 8 of RFC
 1952, told apart from every other by its generator, its start value and its
 final complement.
 */
module CrcIdentity {
  import opened Crc32
  import opened LinearRegister

  /** The register after one more byte. */
  function Fed(register: bv32, byte: bv8): bv32 {
    Steps(Crc32Algebra(), Xor(register, Word(byte)), 8)
  }

  /** Eight bit steps, one after the other. */
  lemma Eight(c0: bv32, c1: bv32, c2: bv32, c3: bv32, c4: bv32, c5: bv32, c6: bv32, c7: bv32, c8: bv32)
    requires BitStep(c0) == c1 && BitStep(c1) == c2 && BitStep(c2) == c3 && BitStep(c3) == c4
    requires BitStep(c4) == c5 && BitStep(c5) == c6 && BitStep(c6) == c7 && BitStep(c7) == c8
    ensures Steps(Crc32Algebra(), c0, 8) == c8
  {
    assert Steps(Crc32Algebra(), c0, 2) == c2;
    assert Steps(Crc32Algebra(), c0, 4) == c4;
    assert Steps(Crc32Algebra(), c0, 6) == c6;
  }

  /** Feeding byte by byte. */
  function FedAll(register: bv32, bytes: seq<bv8>): bv32
    decreases |bytes|
  {
    if bytes == [] then register else FedAll(Fed(register, bytes[0]), bytes[1..])
  }

  lemma {:induction false} FedAllAppend(register: bv32, bytes: seq<bv8>, last: bv8)
    ensures FedAll(register, bytes + [last]) == Fed(FedAll(register, bytes), last)
    decreases |bytes|
  {
    if bytes == [] {
      assert [] + [last] == [last] && [last][1..] == [];
    } else {
      FedAllAppend(Fed(register, bytes[0]), bytes[1..], last);
      assert (bytes + [last])[1..] == bytes[1..] + [last];
    }
  }

  lemma {:induction false} FedAllIsRegister(register: bv32, bytes: seq<bv8>)
    ensures FedAll(register, bytes) == Register(Crc32Algebra(), register, Widen(bytes))
    decreases |bytes|
  {
    if bytes == [] {
      assert Widen(bytes) == [];
    } else {
      var init, last := bytes[..|bytes| - 1], bytes[|bytes| - 1];
      FedAllIsRegister(register, init);
      assert bytes == init + [last] && Widen(bytes) == Widen(init) + [Word(last)];
      FedAllAppend(register, init, last);
      RegisterAppend(Crc32Algebra(), register, Widen(init), Word(last));
    }
  }

  lemma FedFirst(register: bv32, bytes: seq<bv8>, next: bv32)
    requires bytes != [] && Fed(register, bytes[0]) == next
    ensures FedAll(register, bytes) == FedAll(next, bytes[1..])
  {
  }

  // ---- The generator --------------------------------------------------------

  lemma Generator0()
    ensures Fed(0x0000_0000, 0x41) == 0x01DB_7106
  {
    Eight(0x0000_0041, 0xEDB8_8300, 0x76DC_4180, 0x3B6E_20C0, 0x1DB7_1060,
          0x0EDB_8830, 0x076D_C418, 0x03B6_E20C, 0x01DB_7106);
  }

  lemma Generator1()
    ensures Fed(0x01DB_7106, 0x06) == 0x0001_DB71
  {
    Eight(0x01DB_7100, 0x00ED_B880, 0x0076_DC40, 0x003B_6E20, 0x001D_B710,
          0x000E_DB88, 0x0007_6DC4, 0x0003_B6E2, 0x0001_DB71);
  }

  lemma Generator2()
    ensures Fed(0x0001_DB71, 0x71) == 0x0000_01DB
  {
    Eight(0x0001_DB00, 0x0000_ED80, 0x0000_76C0, 0x0000_3B60, 0x0000_1DB0,
          0x0000_0ED8, 0x0000_076C, 0x0000_03B6, 0x0000_01DB);
  }

  lemma Generator3()
    ensures Fed(0x0000_01DB, 0xDB) == 0x0000_0001
  {
    Eight(0x0000_0100, 0x0000_0080, 0x0000_0040, 0x0000_0020, 0x0000_0010,
          0x0000_0008, 0x0000_0004, 0x0000_0002, 0x0000_0001);
  }

  lemma Generator4()
    ensures Fed(0x0000_0001, 0x01) == 0x0000_0000
  {
    Eight(0x0000_0000, 0x0000_0000, 0x0000_0000, 0x0000_0000, 0x0000_0000,
          0x0000_0000, 0x0000_0000, 0x0000_0000, 0x0000_0000);
  }

  /**
   The 33 bits of the generator, x^32 + x^26 + x^23 + x^22 + x^16 + x^12 + x^11 +
   x^10 + x^8 + x^7 + x^5 + x^4 + x^2 + x + 1 with its highest power first, are
   themselves an error the CRC cannot see.
   */
  lemma GeneratorInvisible(bytes: seq<bv8>)
    requires bytes == [0x41, 0x06, 0x71, 0xDB, 0x01]
    ensures Invisible(bytes)
  {
    Generator0();
    Generator1();
    Generator2();
    Generator3();
    Generator4();
    FedFirst(0x0000_0000, bytes[0..], 0x01DB_7106);
    FedFirst(0x01DB_7106, bytes[1..], 0x0001_DB71);
    FedFirst(0x0001_DB71, bytes[2..], 0x0000_01DB);
    FedFirst(0x0000_01DB, bytes[3..], 0x0000_0001);
    FedFirst(0x0000_0001, bytes[4..], 0x0000_0000);
    FedAllIsRegister(0, bytes);
  }

  // ---- The check value ------------------------------------------------------

  lemma Digit0()
    ensures Fed(0xFFFF_FFFF, 0x31) == 0x7C23_1048
  {
    Eight(0xFFFF_FFCE, 0x7FFF_FFE7, 0xD247_7CD3, 0x849B_3D49, 0xAFF5_1D84,
          0x57FA_8EC2, 0x2BFD_4761, 0xF846_2090, 0x7C23_1048);
  }

  lemma Digit1()
    ensures Fed(0x7C23_1048, 0x32) == 0xB0AC_BB32
  {
    Eight(0x7C23_107A, 0x3E11_883D, 0xF2B0_473E, 0x7958_239F, 0xD114_92EF,
          0x8532_CA57, 0xAF21_E60B, 0xBA28_7025, 0xB0AC_BB32);
  }

  lemma Digit2()
    ensures Fed(0xB0AC_BB32, 0x33) == 0x77B7_9C2D
  {
    Eight(0xB0AC_BB01, 0xB5EE_DEA0, 0x5AF7_6F50, 0x2D7B_B7A8, 0x16BD_DBD4,
          0x0B5E_EDEA, 0x05AF_76F5, 0xEF6F_385A, 0x77B7_9C2D);
  }

  lemma Digit3()
    ensures Fed(0x77B7_9C2D, 0x34) == 0x641C_1F5C
  {
    Eight(0x77B7_9C19, 0xD663_4D2C, 0x6B31_A696, 0x3598_D34B, 0xF774_EA85,
          0x9602_F662, 0x4B01_7B31, 0xC838_3EB8, 0x641C_1F5C);
  }

  lemma Digit4()
    ensures Fed(0x641C_1F5C, 0x35) == 0x340A_C5E3
  {
    Eight(0x641C_1F69, 0xDFB6_8C94, 0x6FDB_464A, 0x37ED_A325, 0xF64E_52B2,
          0x7B27_2959, 0xD02B_178C, 0x6815_8BC6, 0x340A_C5E3);
  }

  lemma Digit5()
    ensures Fed(0x340A_C5E3, 0x36) == 0xF68D_2C9E
  {
    Eight(0x340A_C5D5, 0xF7BD_E1CA, 0x7BDE_F0E5, 0xD057_FB52, 0x682B_FDA9,
          0xD9AD_7DF4, 0x6CD6_BEFA, 0x366B_5F7D, 0xF68D_2C9E);
  }

  lemma Digit6()
    ensures Fed(0xF68D_2C9E, 0x37) == 0xAFFC_9660
  {
    Eight(0xF68D_2CA9, 0x96FE_1574, 0x4B7F_0ABA, 0x25BF_855D, 0xFF67_418E,
          0x7FB3_A0C7, 0xD261_5343, 0x8488_2A81, 0xAFFC_9660);
  }

  lemma Digit7()
    ensures Fed(0xAFFC_9660, 0x38) == 0x651F_2550
  {
    Eight(0xAFFC_9658, 0x57FE_4B2C, 0x2BFF_2596, 0x15FF_92CB, 0xE747_4A45,
          0x9E1B_2602, 0x4F0D_9301, 0xCA3E_4AA0, 0x651F_2550);
  }

  lemma Digit8()
    ensures Fed(0x651F_2550, 0x39) == 0x340B_C6D9
  {
    Eight(0x651F_2569, 0xDF37_1194, 0x6F9B_88CA, 0x37CD_C465, 0xF65E_6112,
          0x7B2F_3089, 0xD02F_1B64, 0x6817_8DB2, 0x340B_C6D9);
  }

  /** The check value: the CRC of the text "123456789". */
  lemma CheckValue(bytes: seq<bv8>)
    requires bytes == [0x31, 0x32, 0x33, 0x34, 0x35, 0x36, 0x37, 0x38, 0x39]
    ensures Crc(bytes) == 0xCBF4_3926
  {
    Digit0();
    Digit1();
    Digit2();
    Digit3();
    Digit4();
    Digit5();
    Digit6();
    Digit7();
    Digit8();
    FedFirst(0xFFFF_FFFF, bytes[0..], 0x7C23_1048);
    FedFirst(0x7C23_1048, bytes[1..], 0xB0AC_BB32);
    FedFirst(0xB0AC_BB32, bytes[2..], 0x77B7_9C2D);
    FedFirst(0x77B7_9C2D, bytes[3..], 0x641C_1F5C);
    FedFirst(0x641C_1F5C, bytes[4..], 0x340A_C5E3);
    FedFirst(0x340A_C5E3, bytes[5..], 0xF68D_2C9E);
    FedFirst(0xF68D_2C9E, bytes[6..], 0xAFFC_9660);
    FedFirst(0xAFFC_9660, bytes[7..], 0x651F_2550);
    FedFirst(0x651F_2550, bytes[8..], 0x340B_C6D9);
    FedAllIsRegister(0xFFFF_FFFF, bytes);
  }

  /** The CRC of nothing. */
  lemma EmptyIsZero()
    ensures Crc([]) == 0
  {
    FedAllIsRegister(0xFFFF_FFFF, []);
  }
}
