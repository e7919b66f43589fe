/**
 * The CRC-32 of section 5.5 of the W3C PNG Specification (2nd edition,
 * ISO/IEC 15948): polynomial x^32+x^26+...+1, bits taken least significant
 * first (the reflected constant 0xEDB88320), register preset to all ones and
 * complemented at the end.  Computed here one bit at a time, which yields the
 * same values as the table-driven code in Annex D of that standard.
 *
 * `java.util.zip.CRC32` keeps the finished CRC of everything fed so far
 * (0 after `reset`); `CrcUpdate` is its `update`.
 */
module Crc32 {
  import opened ByteOrder

  const Poly: bv32 := 0xEDB8_8320

  /** One bit of the shift register. */
  function Step(c: bv32): bv32
  {
    if c & 1 == 1 then Poly ^ (c >> 1) else c >> 1
  }

  /** `n` shifts of the register. */
  function Steps(c: bv32, n: nat): bv32
    decreases n
  {
    if n == 0 then c else Steps(Step(c), n - 1)
  }

  /** Feeds one byte into the register: eight shifts, low bit first. */
  function StepByte(c: bv32, b: Byte): bv32
  {
    Steps(c ^ (b as bv32), 8)
  }

  /** Feeds bytes into the register, first byte first. */
  function Register(c: bv32, data: Bytes): bv32
    decreases |data|
  {
    if data == [] then c else Register(StepByte(c, data[0]), data[1..])
  }

  /** The CRC-32 of a byte string, as stored in a PNG chunk. */
  function Crc(data: Bytes): bv32
  {
    Register(0xFFFF_FFFF, data) ^ 0xFFFF_FFFF
  }

  /** `CRC32.update(b)` on an object whose `getValue()` is `crc`. */
  function CrcUpdate(crc: bv32, data: Bytes): bv32
  {
    Register(crc ^ 0xFFFF_FFFF, data) ^ 0xFFFF_FFFF
  }

  /** The CRC value as the `int` that `(int) crc32.getValue()` produces. */
  function CrcInt(crc: bv32): Int32
  {
    Wrap32(crc as int)
  }

  lemma {:induction false} RegisterAppend(c: bv32, a: Bytes, b: Bytes)
    ensures Register(c, a + b) == Register(Register(c, a), b)
    decreases |a|
  {
    if a != [] {
      assert (a + b)[1..] == a[1..] + b;
      RegisterAppend(StepByte(c, a[0]), a[1..], b);
    } else {
      assert a + b == b;
    }
  }

  /**
   * Incremental accumulation is exact: updating the CRC of `a` with `b`
   * gives the CRC of `a + b`, and a fresh accumulator (value 0) is the CRC
   * of nothing.
   */
  lemma {:induction false} CrcAppend(a: Bytes, b: Bytes)
    ensures CrcUpdate(Crc(a), b) == Crc(a + b)
  {
    var r := Register(0xFFFF_FFFF, a);
    UncomplementCrc(a);
    CrcUpdateFrom(Crc(a), r, b);
    RegisterAppend(0xFFFF_FFFF, a, b);
  }

  /** Two updates in a row are one update with both byte strings. */
  lemma CrcUpdateAppend(k: bv32, a: Bytes, b: Bytes)
    ensures CrcUpdate(CrcUpdate(k, a), b) == CrcUpdate(k, a + b)
  {
    UncomplementUpdate(k, a);
    CrcUpdateFrom(CrcUpdate(k, a), Register(k ^ 0xFFFF_FFFF, a), b);
    RegisterAppend(k ^ 0xFFFF_FFFF, a, b);
  }

  lemma UncomplementUpdate(k: bv32, a: Bytes)
    ensures CrcUpdate(k, a) ^ 0xFFFF_FFFF == Register(k ^ 0xFFFF_FFFF, a)
  {
    XorTwice(Register(k ^ 0xFFFF_FFFF, a));
  }

  lemma UncomplementCrc(a: Bytes)
    ensures Crc(a) ^ 0xFFFF_FFFF == Register(0xFFFF_FFFF, a)
  {
    XorTwice(Register(0xFFFF_FFFF, a));
  }

  lemma CrcUpdateFrom(k: bv32, r: bv32, b: Bytes)
    requires k ^ 0xFFFF_FFFF == r
    ensures CrcUpdate(k, b) == Register(r, b) ^ 0xFFFF_FFFF
  {
  }

  lemma XorTwice(x: bv32)
    ensures (x ^ 0xFFFF_FFFF) ^ 0xFFFF_FFFF == x
  {
  }

  /** A freshly created or reset accumulator holds the CRC of nothing. */
  lemma CrcOfEmpty()
    ensures Crc([]) == 0
  {
  }

  lemma RegisterCons(c: bv32, b: Byte, rest: Bytes)
    ensures Register(c, [b] + rest) == Register(StepByte(c, b), rest)
  {
    assert ([b] + rest)[1..] == rest;
  }

  lemma StepByteUnfolded(c: bv32, b: Byte, x: bv32)
    requires x == c ^ (b as bv32)
    ensures StepByte(c, b) == Step(Step(Step(Step(Step(Step(Step(Step(x))))))))
  {
  }

  /** The CRC field of the fixed IEND chunk is the CRC-32 of its type "IEND". */
  lemma CrcOfIendType()
    ensures Crc([0x49, 0x45, 0x4E, 0x44]) == 0xAE42_6082
  {
    IendByte0();
    IendByte1();
    IendByte2();
    IendByte3();
    RegisterCons(0xFFFF_FFFF, 0x49, [0x45, 0x4E, 0x44]);
    RegisterCons(0x22FD_E946, 0x45, [0x4E, 0x44]);
    RegisterCons(0x992B_AC53, 0x4E, [0x44]);
    RegisterCons(0x639F_4775, 0x44, []);
  }

  /** The CRC field of the fixed sRGB chunk is the CRC-32 of "sRGB" and its one data byte 0. */
  lemma CrcOfSrgbChunk()
    ensures Crc([0x73, 0x52, 0x47, 0x42, 0x00]) == 0xAECE_1CE9
  {
    SrgbByte0();
    SrgbByte1();
    SrgbByte2();
    SrgbByte3();
    SrgbByte4();
    RegisterCons(0xFFFF_FFFF, 0x73, [0x52, 0x47, 0x42, 0x00]);
    RegisterCons(0xE4F1_30F4, 0x52, [0x47, 0x42, 0x00]);
    RegisterCons(0x3F51_F7ED, 0x47, [0x42, 0x00]);
    RegisterCons(0x363C_1B01, 0x42, [0x00]);
    RegisterCons(0xEFE3_2C31, 0x00, []);
  }

  /** The CRC-32 of "IDAT" alone, the CRC a zero-length IDAT chunk should carry; it is not 0. */
  lemma CrcOfIdatType()
    ensures Crc([0x49, 0x44, 0x41, 0x54]) == 0x35AF_061E
  {
    IendByte0();
    IdatByte1();
    IdatByte2();
    IdatByte3();
    RegisterCons(0xFFFF_FFFF, 0x49, [0x44, 0x41, 0x54]);
    RegisterCons(0x22FD_E946, 0x44, [0x41, 0x54]);
    RegisterCons(0xEE2C_9CC5, 0x41, [0x54]);
    RegisterCons(0xEA3B_6BA5, 0x54, []);
  }

  // One register step per lemma keeps each bit-vector evaluation small.

  lemma IendByte0()
    ensures StepByte(0xFFFF_FFFF, 0x49) == 0x22FD_E946
  {
    var b: Byte := 0x49;
    assert b as bv32 == 0x49;
    StepByteUnfolded(0xFFFF_FFFF, b, 0xFFFF_FFB6);
  }

  lemma IendByte1()
    ensures StepByte(0x22FD_E946, 0x45) == 0x992B_AC53
  {
    var b: Byte := 0x45;
    assert b as bv32 == 0x45;
    StepByteUnfolded(0x22FD_E946, b, 0x22FD_E903);
  }

  lemma IendByte2()
    ensures StepByte(0x992B_AC53, 0x4E) == 0x639F_4775
  {
    var b: Byte := 0x4E;
    assert b as bv32 == 0x4E;
    StepByteUnfolded(0x992B_AC53, b, 0x992B_AC1D);
  }

  lemma IendByte3()
    ensures StepByte(0x639F_4775, 0x44) == 0x51BD_9F7D
  {
    var b: Byte := 0x44;
    assert b as bv32 == 0x44;
    StepByteUnfolded(0x639F_4775, b, 0x639F_4731);
  }

  lemma SrgbByte0()
    ensures StepByte(0xFFFF_FFFF, 0x73) == 0xE4F1_30F4
  {
    var b: Byte := 0x73;
    assert b as bv32 == 0x73;
    StepByteUnfolded(0xFFFF_FFFF, b, 0xFFFF_FF8C);
  }

  lemma SrgbByte1()
    ensures StepByte(0xE4F1_30F4, 0x52) == 0x3F51_F7ED
  {
    var b: Byte := 0x52;
    assert b as bv32 == 0x52;
    StepByteUnfolded(0xE4F1_30F4, b, 0xE4F1_30A6);
  }

  lemma SrgbByte2()
    ensures StepByte(0x3F51_F7ED, 0x47) == 0x363C_1B01
  {
    var b: Byte := 0x47;
    assert b as bv32 == 0x47;
    StepByteUnfolded(0x3F51_F7ED, b, 0x3F51_F7AA);
  }

  lemma SrgbByte3()
    ensures StepByte(0x363C_1B01, 0x42) == 0xEFE3_2C31
  {
    var b: Byte := 0x42;
    assert b as bv32 == 0x42;
    StepByteUnfolded(0x363C_1B01, b, 0x363C_1B43);
  }

  lemma SrgbByte4()
    ensures StepByte(0xEFE3_2C31, 0x00) == 0x5131_E316
  {
    var b: Byte := 0x00;
    assert b as bv32 == 0x00;
    StepByteUnfolded(0xEFE3_2C31, b, 0xEFE3_2C31);
  }

  lemma IdatByte1()
    ensures StepByte(0x22FD_E946, 0x44) == 0xEE2C_9CC5
  {
    var b: Byte := 0x44;
    assert b as bv32 == 0x44;
    StepByteUnfolded(0x22FD_E946, b, 0x22FD_E902);
  }

  lemma IdatByte2()
    ensures StepByte(0xEE2C_9CC5, 0x41) == 0xEA3B_6BA5
  {
    var b: Byte := 0x41;
    assert b as bv32 == 0x41;
    StepByteUnfolded(0xEE2C_9CC5, b, 0xEE2C_9C84);
  }

  lemma IdatByte3()
    ensures StepByte(0xEA3B_6BA5, 0x54) == 0xCA50_F9E1
  {
    var b: Byte := 0x54;
    assert b as bv32 == 0x54;
    StepByteUnfolded(0xEA3B_6BA5, b, 0xEA3B_6BF1);
  }

  /**
   * The register after the type and data of a tEXt chunk for a payload of
   * length 0: "tEXt", "N3RD", then four zero bytes.
   */
  lemma RegisterOfEmptyText()
    ensures Register(0xFFFF_FFFF, [0x74, 0x45, 0x58, 0x74, 0x4E, 0x33, 0x52, 0x44, 0x00, 0x00, 0x00, 0x00]) == 0x4A5C_5AB6
  {
    TextByte0();
    TextByte1();
    TextByte2();
    TextByte3();
    TextByte4();
    TextByte5();
    TextByte6();
    TextByte7();
    TextByte8();
    TextByte9();
    TextByte10();
    TextByte11();
    RegisterCons(0xFFFF_FFFF, 0x74, [0x45, 0x58, 0x74, 0x4E, 0x33, 0x52, 0x44, 0x00, 0x00, 0x00, 0x00]);
    RegisterCons(0x7A95_A557, 0x45, [0x58, 0x74, 0x4E, 0x33, 0x52, 0x44, 0x00, 0x00, 0x00, 0x00]);
    RegisterCons(0xF3C3_E4ED, 0x58, [0x74, 0x4E, 0x33, 0x52, 0x44, 0x00, 0x00, 0x00, 0x00]);
    RegisterCons(0xBBF8_84E7, 0x74, [0x4E, 0x33, 0x52, 0x44, 0x00, 0x00, 0x00, 0x00]);
    RegisterCons(0x69BD_3A7A, 0x4E, [0x33, 0x52, 0x44, 0x00, 0x00, 0x00, 0x00]);
    RegisterCons(0x21DD_498F, 0x33, [0x52, 0x44, 0x00, 0x00, 0x00, 0x00]);
    RegisterCons(0xC2F6_22EE, 0x52, [0x44, 0x00, 0x00, 0x00, 0x00]);
    RegisterCons(0xC215_0985, 0x44, [0x00, 0x00, 0x00, 0x00]);
    RegisterCons(0xECA1_E72F, 0x00, [0x00, 0x00, 0x00]);
    RegisterCons(0xAB3D_9CBE, 0x00, [0x00, 0x00]);
    RegisterCons(0x2C72_A317, 0x00, [0x00]);
    RegisterCons(0x83FF_F764, 0x00, []);
  }

  /** The CRC-32 of that tEXt type and data, without and with four more zero bytes. */
  lemma CrcOfEmptyText(a: Bytes, z: Bytes)
    requires a == [0x74, 0x45, 0x58, 0x74, 0x4E, 0x33, 0x52, 0x44, 0x00, 0x00, 0x00, 0x00]
    requires z == [0x00, 0x00, 0x00, 0x00]
    ensures Crc(a) == 0xB5A3_A549 && Crc(a + z) == 0x26CA_FF09
  {
    RegisterOfEmptyText();
    RegisterOfFourZeros();
    RegisterAppend(0xFFFF_FFFF, a, z);
  }

  /** Four more zero bytes, as when the zero CRC field is fed too. */
  lemma RegisterOfFourZeros()
    ensures Register(0x4A5C_5AB6, [0x00, 0x00, 0x00, 0x00]) == 0xD935_00F6
  {
    TextByte12();
    TextByte13();
    TextByte14();
    TextByte15();
    RegisterCons(0x4A5C_5AB6, 0x00, [0x00, 0x00, 0x00]);
    RegisterCons(0x2248_4AE3, 0x00, [0x00, 0x00]);
    RegisterCons(0x3921_FB88, 0x00, [0x00]);
    RegisterCons(0xE35A_2AE9, 0x00, []);
  }

  lemma TextByte0()
    ensures StepByte(0xFFFF_FFFF, 0x74) == 0x7A95_A557
  {
    var b: Byte := 0x74;
    assert b as bv32 == 0x74;
    StepByteUnfolded(0xFFFF_FFFF, b, 0xFFFF_FF8B);
  }

  lemma TextByte1()
    ensures StepByte(0x7A95_A557, 0x45) == 0xF3C3_E4ED
  {
    var b: Byte := 0x45;
    assert b as bv32 == 0x45;
    StepByteUnfolded(0x7A95_A557, b, 0x7A95_A512);
  }

  lemma TextByte2()
    ensures StepByte(0xF3C3_E4ED, 0x58) == 0xBBF8_84E7
  {
    var b: Byte := 0x58;
    assert b as bv32 == 0x58;
    StepByteUnfolded(0xF3C3_E4ED, b, 0xF3C3_E4B5);
  }

  lemma TextByte3()
    ensures StepByte(0xBBF8_84E7, 0x74) == 0x69BD_3A7A
  {
    var b: Byte := 0x74;
    assert b as bv32 == 0x74;
    StepByteUnfolded(0xBBF8_84E7, b, 0xBBF8_8493);
  }

  lemma TextByte4()
    ensures StepByte(0x69BD_3A7A, 0x4E) == 0x21DD_498F
  {
    var b: Byte := 0x4E;
    assert b as bv32 == 0x4E;
    StepByteUnfolded(0x69BD_3A7A, b, 0x69BD_3A34);
  }

  lemma TextByte5()
    ensures StepByte(0x21DD_498F, 0x33) == 0xC2F6_22EE
  {
    var b: Byte := 0x33;
    assert b as bv32 == 0x33;
    StepByteUnfolded(0x21DD_498F, b, 0x21DD_49BC);
  }

  lemma TextByte6()
    ensures StepByte(0xC2F6_22EE, 0x52) == 0xC215_0985
  {
    var b: Byte := 0x52;
    assert b as bv32 == 0x52;
    StepByteUnfolded(0xC2F6_22EE, b, 0xC2F6_22BC);
  }

  lemma TextByte7()
    ensures StepByte(0xC215_0985, 0x44) == 0xECA1_E72F
  {
    var b: Byte := 0x44;
    assert b as bv32 == 0x44;
    StepByteUnfolded(0xC215_0985, b, 0xC215_09C1);
  }

  lemma TextByte8()
    ensures StepByte(0xECA1_E72F, 0x00) == 0xAB3D_9CBE
  {
    var b: Byte := 0x00;
    assert b as bv32 == 0x00;
    StepByteUnfolded(0xECA1_E72F, b, 0xECA1_E72F);
  }

  lemma TextByte9()
    ensures StepByte(0xAB3D_9CBE, 0x00) == 0x2C72_A317
  {
    var b: Byte := 0x00;
    assert b as bv32 == 0x00;
    StepByteUnfolded(0xAB3D_9CBE, b, 0xAB3D_9CBE);
  }

  lemma TextByte10()
    ensures StepByte(0x2C72_A317, 0x00) == 0x83FF_F764
  {
    var b: Byte := 0x00;
    assert b as bv32 == 0x00;
    StepByteUnfolded(0x2C72_A317, b, 0x2C72_A317);
  }

  lemma TextByte11()
    ensures StepByte(0x83FF_F764, 0x00) == 0x4A5C_5AB6
  {
    var b: Byte := 0x00;
    assert b as bv32 == 0x00;
    StepByteUnfolded(0x83FF_F764, b, 0x83FF_F764);
  }

  lemma TextByte12()
    ensures StepByte(0x4A5C_5AB6, 0x00) == 0x2248_4AE3
  {
    var b: Byte := 0x00;
    assert b as bv32 == 0x00;
    StepByteUnfolded(0x4A5C_5AB6, b, 0x4A5C_5AB6);
  }

  lemma TextByte13()
    ensures StepByte(0x2248_4AE3, 0x00) == 0x3921_FB88
  {
    var b: Byte := 0x00;
    assert b as bv32 == 0x00;
    StepByteUnfolded(0x2248_4AE3, b, 0x2248_4AE3);
  }

  lemma TextByte14()
    ensures StepByte(0x3921_FB88, 0x00) == 0xE35A_2AE9
  {
    var b: Byte := 0x00;
    assert b as bv32 == 0x00;
    StepByteUnfolded(0x3921_FB88, b, 0x3921_FB88);
  }

  lemma TextByte15()
    ensures StepByte(0xE35A_2AE9, 0x00) == 0xD935_00F6
  {
    var b: Byte := 0x00;
    assert b as bv32 == 0x00;
    StepByteUnfolded(0xE35A_2AE9, b, 0xE35A_2AE9);
  }
}
