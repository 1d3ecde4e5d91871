/** The table-driven CRC-32 of SNapi.c:13-57 and SNapi.c:120-131, against the bit-at-a-time
    definition of section 8 of RFC 1952. */
module Crc32 {

  type Byte = bv8

  // ----- the code -----

  /** The constant `crc32_tab`, sixteen entries a row. */
  function Table(i: bv32): bv32
    requires i < 256
  {
    match i >> 4
    case 0 => Row0(i & 15)
    case 1 => Row1(i & 15)
    case 2 => Row2(i & 15)
    case 3 => Row3(i & 15)
    case 4 => Row4(i & 15)
    case 5 => Row5(i & 15)
    case 6 => Row6(i & 15)
    case 7 => Row7(i & 15)
    case 8 => Row8(i & 15)
    case 9 => Row9(i & 15)
    case 10 => Row10(i & 15)
    case 11 => Row11(i & 15)
    case 12 => Row12(i & 15)
    case 13 => Row13(i & 15)
    case 14 => Row14(i & 15)
    case _ => Row15(i & 15)
  }

  function Row0(k: bv32): bv32
  {
    match k
    case 0 => 0x0000_0000 case 1 => 0x7707_3096 case 2 => 0xEE0E_612C case 3 => 0x9909_51BA
    case 4 => 0x076D_C419 case 5 => 0x706A_F48F case 6 => 0xE963_A535 case 7 => 0x9E64_95A3
    case 8 => 0x0EDB_8832 case 9 => 0x79DC_B8A4 case 10 => 0xE0D5_E91E case 11 => 0x97D2_D988
    case 12 => 0x09B6_4C2B case 13 => 0x7EB1_7CBD case 14 => 0xE7B8_2D07 case _ => 0x90BF_1D91
  }

  function Row1(k: bv32): bv32
  {
    match k
    case 0 => 0x1DB7_1064 case 1 => 0x6AB0_20F2 case 2 => 0xF3B9_7148 case 3 => 0x84BE_41DE
    case 4 => 0x1ADA_D47D case 5 => 0x6DDD_E4EB case 6 => 0xF4D4_B551 case 7 => 0x83D3_85C7
    case 8 => 0x136C_9856 case 9 => 0x646B_A8C0 case 10 => 0xFD62_F97A case 11 => 0x8A65_C9EC
    case 12 => 0x1401_5C4F case 13 => 0x6306_6CD9 case 14 => 0xFA0F_3D63 case _ => 0x8D08_0DF5
  }

  function Row2(k: bv32): bv32
  {
    match k
    case 0 => 0x3B6E_20C8 case 1 => 0x4C69_105E case 2 => 0xD560_41E4 case 3 => 0xA267_7172
    case 4 => 0x3C03_E4D1 case 5 => 0x4B04_D447 case 6 => 0xD20D_85FD case 7 => 0xA50A_B56B
    case 8 => 0x35B5_A8FA case 9 => 0x42B2_986C case 10 => 0xDBBB_C9D6 case 11 => 0xACBC_F940
    case 12 => 0x32D8_6CE3 case 13 => 0x45DF_5C75 case 14 => 0xDCD6_0DCF case _ => 0xABD1_3D59
  }

  function Row3(k: bv32): bv32
  {
    match k
    case 0 => 0x26D9_30AC case 1 => 0x51DE_003A case 2 => 0xC8D7_5180 case 3 => 0xBFD0_6116
    case 4 => 0x21B4_F4B5 case 5 => 0x56B3_C423 case 6 => 0xCFBA_9599 case 7 => 0xB8BD_A50F
    case 8 => 0x2802_B89E case 9 => 0x5F05_8808 case 10 => 0xC60C_D9B2 case 11 => 0xB10B_E924
    case 12 => 0x2F6F_7C87 case 13 => 0x5868_4C11 case 14 => 0xC161_1DAB case _ => 0xB666_2D3D
  }

  function Row4(k: bv32): bv32
  {
    match k
    case 0 => 0x76DC_4190 case 1 => 0x01DB_7106 case 2 => 0x98D2_20BC case 3 => 0xEFD5_102A
    case 4 => 0x71B1_8589 case 5 => 0x06B6_B51F case 6 => 0x9FBF_E4A5 case 7 => 0xE8B8_D433
    case 8 => 0x7807_C9A2 case 9 => 0x0F00_F934 case 10 => 0x9609_A88E case 11 => 0xE10E_9818
    case 12 => 0x7F6A_0DBB case 13 => 0x086D_3D2D case 14 => 0x9164_6C97 case _ => 0xE663_5C01
  }

  function Row5(k: bv32): bv32
  {
    match k
    case 0 => 0x6B6B_51F4 case 1 => 0x1C6C_6162 case 2 => 0x8565_30D8 case 3 => 0xF262_004E
    case 4 => 0x6C06_95ED case 5 => 0x1B01_A57B case 6 => 0x8208_F4C1 case 7 => 0xF50F_C457
    case 8 => 0x65B0_D9C6 case 9 => 0x12B7_E950 case 10 => 0x8BBE_B8EA case 11 => 0xFCB9_887C
    case 12 => 0x62DD_1DDF case 13 => 0x15DA_2D49 case 14 => 0x8CD3_7CF3 case _ => 0xFBD4_4C65
  }

  function Row6(k: bv32): bv32
  {
    match k
    case 0 => 0x4DB2_6158 case 1 => 0x3AB5_51CE case 2 => 0xA3BC_0074 case 3 => 0xD4BB_30E2
    case 4 => 0x4ADF_A541 case 5 => 0x3DD8_95D7 case 6 => 0xA4D1_C46D case 7 => 0xD3D6_F4FB
    case 8 => 0x4369_E96A case 9 => 0x346E_D9FC case 10 => 0xAD67_8846 case 11 => 0xDA60_B8D0
    case 12 => 0x4404_2D73 case 13 => 0x3303_1DE5 case 14 => 0xAA0A_4C5F case _ => 0xDD0D_7CC9
  }

  function Row7(k: bv32): bv32
  {
    match k
    case 0 => 0x5005_713C case 1 => 0x2702_41AA case 2 => 0xBE0B_1010 case 3 => 0xC90C_2086
    case 4 => 0x5768_B525 case 5 => 0x206F_85B3 case 6 => 0xB966_D409 case 7 => 0xCE61_E49F
    case 8 => 0x5EDE_F90E case 9 => 0x29D9_C998 case 10 => 0xB0D0_9822 case 11 => 0xC7D7_A8B4
    case 12 => 0x59B3_3D17 case 13 => 0x2EB4_0D81 case 14 => 0xB7BD_5C3B case _ => 0xC0BA_6CAD
  }

  function Row8(k: bv32): bv32
  {
    match k
    case 0 => 0xEDB8_8320 case 1 => 0x9ABF_B3B6 case 2 => 0x03B6_E20C case 3 => 0x74B1_D29A
    case 4 => 0xEAD5_4739 case 5 => 0x9DD2_77AF case 6 => 0x04DB_2615 case 7 => 0x73DC_1683
    case 8 => 0xE363_0B12 case 9 => 0x9464_3B84 case 10 => 0x0D6D_6A3E case 11 => 0x7A6A_5AA8
    case 12 => 0xE40E_CF0B case 13 => 0x9309_FF9D case 14 => 0x0A00_AE27 case _ => 0x7D07_9EB1
  }

  function Row9(k: bv32): bv32
  {
    match k
    case 0 => 0xF00F_9344 case 1 => 0x8708_A3D2 case 2 => 0x1E01_F268 case 3 => 0x6906_C2FE
    case 4 => 0xF762_575D case 5 => 0x8065_67CB case 6 => 0x196C_3671 case 7 => 0x6E6B_06E7
    case 8 => 0xFED4_1B76 case 9 => 0x89D3_2BE0 case 10 => 0x10DA_7A5A case 11 => 0x67DD_4ACC
    case 12 => 0xF9B9_DF6F case 13 => 0x8EBE_EFF9 case 14 => 0x17B7_BE43 case _ => 0x60B0_8ED5
  }

  function Row10(k: bv32): bv32
  {
    match k
    case 0 => 0xD6D6_A3E8 case 1 => 0xA1D1_937E case 2 => 0x38D8_C2C4 case 3 => 0x4FDF_F252
    case 4 => 0xD1BB_67F1 case 5 => 0xA6BC_5767 case 6 => 0x3FB5_06DD case 7 => 0x48B2_364B
    case 8 => 0xD80D_2BDA case 9 => 0xAF0A_1B4C case 10 => 0x3603_4AF6 case 11 => 0x4104_7A60
    case 12 => 0xDF60_EFC3 case 13 => 0xA867_DF55 case 14 => 0x316E_8EEF case _ => 0x4669_BE79
  }

  function Row11(k: bv32): bv32
  {
    match k
    case 0 => 0xCB61_B38C case 1 => 0xBC66_831A case 2 => 0x256F_D2A0 case 3 => 0x5268_E236
    case 4 => 0xCC0C_7795 case 5 => 0xBB0B_4703 case 6 => 0x2202_16B9 case 7 => 0x5505_262F
    case 8 => 0xC5BA_3BBE case 9 => 0xB2BD_0B28 case 10 => 0x2BB4_5A92 case 11 => 0x5CB3_6A04
    case 12 => 0xC2D7_FFA7 case 13 => 0xB5D0_CF31 case 14 => 0x2CD9_9E8B case _ => 0x5BDE_AE1D
  }

  function Row12(k: bv32): bv32
  {
    match k
    case 0 => 0x9B64_C2B0 case 1 => 0xEC63_F226 case 2 => 0x756A_A39C case 3 => 0x026D_930A
    case 4 => 0x9C09_06A9 case 5 => 0xEB0E_363F case 6 => 0x7207_6785 case 7 => 0x0500_5713
    case 8 => 0x95BF_4A82 case 9 => 0xE2B8_7A14 case 10 => 0x7BB1_2BAE case 11 => 0x0CB6_1B38
    case 12 => 0x92D2_8E9B case 13 => 0xE5D5_BE0D case 14 => 0x7CDC_EFB7 case _ => 0x0BDB_DF21
  }

  function Row13(k: bv32): bv32
  {
    match k
    case 0 => 0x86D3_D2D4 case 1 => 0xF1D4_E242 case 2 => 0x68DD_B3F8 case 3 => 0x1FDA_836E
    case 4 => 0x81BE_16CD case 5 => 0xF6B9_265B case 6 => 0x6FB0_77E1 case 7 => 0x18B7_4777
    case 8 => 0x8808_5AE6 case 9 => 0xFF0F_6A70 case 10 => 0x6606_3BCA case 11 => 0x1101_0B5C
    case 12 => 0x8F65_9EFF case 13 => 0xF862_AE69 case 14 => 0x616B_FFD3 case _ => 0x166C_CF45
  }

  function Row14(k: bv32): bv32
  {
    match k
    case 0 => 0xA00A_E278 case 1 => 0xD70D_D2EE case 2 => 0x4E04_8354 case 3 => 0x3903_B3C2
    case 4 => 0xA767_2661 case 5 => 0xD060_16F7 case 6 => 0x4969_474D case 7 => 0x3E6E_77DB
    case 8 => 0xAED1_6A4A case 9 => 0xD9D6_5ADC case 10 => 0x40DF_0B66 case 11 => 0x37D8_3BF0
    case 12 => 0xA9BC_AE53 case 13 => 0xDEBB_9EC5 case 14 => 0x47B2_CF7F case _ => 0x30B5_FFE9
  }

  function Row15(k: bv32): bv32
  {
    match k
    case 0 => 0xBDBD_F21C case 1 => 0xCABA_C28A case 2 => 0x53B3_9330 case 3 => 0x24B4_A3A6
    case 4 => 0xBAD0_3605 case 5 => 0xCDD7_0693 case 6 => 0x54DE_5729 case 7 => 0x23D9_67BF
    case 8 => 0xB366_7A2E case 9 => 0xC461_4AB8 case 10 => 0x5D68_1B02 case 11 => 0x2A6F_2B94
    case 12 => 0xB40B_BE37 case 13 => 0xC30C_8EA1 case 14 => 0x5A05_DF1B case _ => 0x2D02_EF8D
  }

  function Mix(a: bv32, b: bv32): bv32
  {
    a ^ b
  }

  function Low(c: bv32): (r: bv32)
    ensures r < 256
  {
    c & 0xFF
  }

  function Up(c: bv32): bv32
  {
    c >> 8
  }

  function Invert(c: bv32): bv32
  {
    c ^ 0xFFFF_FFFF
  }

  /** The loop body: one byte, one table lookup. */
  function TableStep(c: bv32, b: Byte): bv32
  {
    Mix(Table(Low(Mix(c, b as bv32))), Up(c))
  }

  /** `_crc32`. */
  method Crc(crc: bv32, buf: seq<Byte>) returns (r: bv32)
    ensures r == BitwiseCrc(crc, buf)
  {
    hide TableStep, Absorb, Invert;
    r := Invert(crc);
    for i := 0 to |buf|
      invariant r == Register(Invert(crc), buf[..i])
    {
      TableStepIsAbsorb(r, buf[i]);
      assert buf[..i + 1][..i] == buf[..i];
      r := TableStep(r, buf[i]);
    }
    assert buf[..|buf|] == buf;
    r := Invert(r);
  }

  // ----- the definition, one bit at a time -----

  /** The register after one bit, least significant bit first. */
  function Bit(c: bv32): bv32
  {
    if c & 1 == 1 then 0xEDB8_8320 ^ (c >> 1) else c >> 1
  }

  function EightBits(c: bv32): bv32
  {
    Bit(Bit(Bit(Bit(Bit(Bit(Bit(Bit(c))))))))
  }

  /** One byte: it is added to the low end of the register, then eight bits are shifted out. */
  function Absorb(c: bv32, b: Byte): bv32
  {
    EightBits(Mix(c, b as bv32))
  }

  /** The register after the bytes of `buf`, started from c. */
  function Register(c: bv32, buf: seq<Byte>): bv32
  {
    if buf == [] then c else Absorb(Register(c, buf[..|buf| - 1]), buf[|buf| - 1])
  }

  function BitwiseCrc(crc: bv32, buf: seq<Byte>): bv32
  {
    Invert(Register(Invert(crc), buf))
  }

  // ----- the table holds the eight-bit steps -----

  lemma Row0IsEightBits(k: bv32)
    requires k < 16
    ensures Row0(k) == EightBits(0 | k)
  {
  }

  lemma Row1IsEightBits(k: bv32)
    requires k < 16
    ensures Row1(k) == EightBits(16 | k)
  {
  }

  lemma Row2IsEightBits(k: bv32)
    requires k < 16
    ensures Row2(k) == EightBits(32 | k)
  {
  }

  lemma Row3IsEightBits(k: bv32)
    requires k < 16
    ensures Row3(k) == EightBits(48 | k)
  {
  }

  lemma Row4IsEightBits(k: bv32)
    requires k < 16
    ensures Row4(k) == EightBits(64 | k)
  {
  }

  lemma Row5IsEightBits(k: bv32)
    requires k < 16
    ensures Row5(k) == EightBits(80 | k)
  {
  }

  lemma Row6IsEightBits(k: bv32)
    requires k < 16
    ensures Row6(k) == EightBits(96 | k)
  {
  }

  lemma Row7IsEightBits(k: bv32)
    requires k < 16
    ensures Row7(k) == EightBits(112 | k)
  {
  }

  lemma Row8IsEightBits(k: bv32)
    requires k < 16
    ensures Row8(k) == EightBits(128 | k)
  {
  }

  lemma Row9IsEightBits(k: bv32)
    requires k < 16
    ensures Row9(k) == EightBits(144 | k)
  {
  }

  lemma Row10IsEightBits(k: bv32)
    requires k < 16
    ensures Row10(k) == EightBits(160 | k)
  {
  }

  lemma Row11IsEightBits(k: bv32)
    requires k < 16
    ensures Row11(k) == EightBits(176 | k)
  {
  }

  lemma Row12IsEightBits(k: bv32)
    requires k < 16
    ensures Row12(k) == EightBits(192 | k)
  {
  }

  lemma Row13IsEightBits(k: bv32)
    requires k < 16
    ensures Row13(k) == EightBits(208 | k)
  {
  }

  lemma Row14IsEightBits(k: bv32)
    requires k < 16
    ensures Row14(k) == EightBits(224 | k)
  {
  }

  lemma Row15IsEightBits(k: bv32)
    requires k < 16
    ensures Row15(k) == EightBits(240 | k)
  {
  }

  lemma Nibbles(i: bv32)
    requires i < 256
    ensures i >> 4 < 16 && i & 15 < 16 && ((i >> 4) << 4) | (i & 15) == i
  {
  }

  /** Every entry of the table is what eight single-bit steps make of its index. */
  lemma TableIsEightBits(i: bv32)
    requires i < 256
    ensures Table(i) == EightBits(i)
  {
    hide EightBits;
    hide Row0, Row1, Row2, Row3, Row4, Row5, Row6, Row7, Row8, Row9, Row10, Row11, Row12, Row13, Row14, Row15;
    Nibbles(i);
    match i >> 4
    case 0 => Row0IsEightBits(i & 15);
    case 1 => Row1IsEightBits(i & 15);
    case 2 => Row2IsEightBits(i & 15);
    case 3 => Row3IsEightBits(i & 15);
    case 4 => Row4IsEightBits(i & 15);
    case 5 => Row5IsEightBits(i & 15);
    case 6 => Row6IsEightBits(i & 15);
    case 7 => Row7IsEightBits(i & 15);
    case 8 => Row8IsEightBits(i & 15);
    case 9 => Row9IsEightBits(i & 15);
    case 10 => Row10IsEightBits(i & 15);
    case 11 => Row11IsEightBits(i & 15);
    case 12 => Row12IsEightBits(i & 15);
    case 13 => Row13IsEightBits(i & 15);
    case 14 => Row14IsEightBits(i & 15);
    case _ => Row15IsEightBits(i & 15);
  }

  // ----- eight steps split into a table lookup and a shift -----

  const POLYNOMIAL: bv32 := 0xEDB8_8320

  function Half(c: bv32): bv32
  {
    c >> 1
  }

  predicate Odd(c: bv32)
  {
    c & 1 == 1
  }

  lemma BitByParity(c: bv32)
    ensures Bit(c) == if Odd(c) then Mix(POLYNOMIAL, Half(c)) else Half(c)
  {
  }

  lemma HalfIsLinear(a: bv32, b: bv32)
    ensures Half(Mix(a, b)) == Mix(Half(a), Half(b))
  {
  }

  lemma OddOfMix(a: bv32, b: bv32)
    ensures Odd(Mix(a, b)) <==> (Odd(a) != Odd(b))
  {
  }

  lemma MixRules(p: bv32, a: bv32, b: bv32)
    ensures Mix(Mix(p, a), b) == Mix(p, Mix(a, b)) && Mix(a, Mix(p, b)) == Mix(p, Mix(a, b))
    ensures Mix(Mix(p, a), Mix(p, b)) == Mix(a, b)
  {
    hide Mix;
    MixAssociates(p, a, b);
    MixAssociates(a, p, b);
    MixCommutes(a, p);
    MixAssociates(p, a, Mix(p, b));
    MixCancels(p, Mix(a, b));
  }

  lemma MixCommutes(a: bv32, b: bv32)
    ensures Mix(a, b) == Mix(b, a)
  {
  }

  lemma MixCancels(p: bv32, a: bv32)
    ensures Mix(p, Mix(p, a)) == a
  {
  }

  lemma BitIsLinear(a: bv32, b: bv32)
    ensures Bit(Mix(a, b)) == Mix(Bit(a), Bit(b))
  {
    hide Bit, Mix, Half, Odd;
    BitByParity(a);
    BitByParity(b);
    BitByParity(Mix(a, b));
    HalfIsLinear(a, b);
    OddOfMix(a, b);
    MixRules(POLYNOMIAL, Half(a), Half(b));
  }

  lemma EightBitsIsLinear(a: bv32, b: bv32)
    ensures EightBits(Mix(a, b)) == Mix(EightBits(a), EightBits(b))
  {
    hide Bit, Mix;
    var a1, b1 := Bit(a), Bit(b);
    var a2, b2 := Bit(a1), Bit(b1);
    var a3, b3 := Bit(a2), Bit(b2);
    var a4, b4 := Bit(a3), Bit(b3);
    var a5, b5 := Bit(a4), Bit(b4);
    var a6, b6 := Bit(a5), Bit(b5);
    var a7, b7 := Bit(a6), Bit(b6);
    BitIsLinear(a, b);
    BitIsLinear(a1, b1);
    BitIsLinear(a2, b2);
    BitIsLinear(a3, b3);
    BitIsLinear(a4, b4);
    BitIsLinear(a5, b5);
    BitIsLinear(a6, b6);
    BitIsLinear(a7, b7);
  }

  function High(c: bv32): bv32
  {
    c & 0xFFFF_FF00
  }

  /** Eight steps on a register whose low byte is clear only shift it. */
  lemma EightBitsOfHigh(c: bv32)
    ensures EightBits(High(c)) == Up(c)
  {
  }

  lemma SplitLowByte(c: bv32)
    ensures Mix(Low(c), High(c)) == c
  {
  }

  lemma ByteKeepsUp(c: bv32, b: Byte)
    ensures Up(Mix(c, b as bv32)) == Up(c)
  {
  }

  /** One turn of the loop is eight turns of the bitwise definition. */
  lemma TableStepIsAbsorb(c: bv32, b: Byte)
    ensures TableStep(c, b) == Absorb(c, b)
  {
    hide Table, EightBits, Mix, Low, High, Up;
    var d := Mix(c, b as bv32);
    SplitLowByte(d);
    TableIsEightBits(Low(d));
    EightBitsIsLinear(Low(d), High(d));
    EightBitsOfHigh(d);
    ByteKeepsUp(c, b);
  }

  // ----- chaining -----

  lemma {:induction false} RegisterConcat(c: bv32, a: seq<Byte>, b: seq<Byte>)
    ensures Register(c, a + b) == Register(Register(c, a), b)
  {
    hide Absorb;
    if b == [] {
      assert a + b == a;
    } else {
      assert (a + b)[..|a + b| - 1] == a + b[..|b| - 1];
      RegisterConcat(c, a, b[..|b| - 1]);
    }
  }

  /** Feeding the CRC of a first part into a second call continues the same checksum. */
  lemma CrcChains(crc: bv32, a: seq<Byte>, b: seq<Byte>)
    ensures BitwiseCrc(BitwiseCrc(crc, a), b) == BitwiseCrc(crc, a + b)
  {
    hide Register, Invert;
    RegisterConcat(Invert(crc), a, b);
    InvertTwice(Register(Invert(crc), a));
  }

  lemma InvertTwice(c: bv32)
    ensures Invert(Invert(c)) == c
  {
  }

  // ----- error detection -----

  /** The step can be undone: its top bit tells whether the polynomial was added. */
  function Unbit(c: bv32): bv32
  {
    if c & 0x8000_0000 != 0 then ((c ^ 0xEDB8_8320) << 1) | 1 else c << 1
  }

  lemma UnbitUndoes(c: bv32)
    ensures Unbit(Bit(c)) == c
  {
  }

  lemma BitIsInjective(a: bv32, b: bv32)
    requires Bit(a) == Bit(b)
    ensures a == b
  {
    hide Bit, Unbit;
    UnbitUndoes(a);
    UnbitUndoes(b);
  }

  lemma EightBitsIsInjective(a: bv32, b: bv32)
    requires EightBits(a) == EightBits(b)
    ensures a == b
  {
    hide Bit;
    var a2, b2 := Bit(Bit(a)), Bit(Bit(b));
    var a4, b4 := Bit(Bit(a2)), Bit(Bit(b2));
    var a6, b6 := Bit(Bit(a4)), Bit(Bit(b4));
    BitIsInjective(Bit(a6), Bit(b6));
    BitIsInjective(a6, b6);
    BitIsInjective(Bit(a4), Bit(b4));
    BitIsInjective(a4, b4);
    BitIsInjective(Bit(a2), Bit(b2));
    BitIsInjective(a2, b2);
    BitIsInjective(Bit(a), Bit(b));
    BitIsInjective(a, b);
  }

  lemma MixIsInjective(a: bv32, b: bv32, x: bv32)
    ensures Mix(a, x) == Mix(b, x) ==> a == b
    ensures Mix(x, a) == Mix(x, b) ==> a == b
  {
  }

  lemma AbsorbIsInjective(c: bv32, d: bv32, b: Byte)
    requires Absorb(c, b) == Absorb(d, b)
    ensures c == d
  {
    hide EightBits, Mix;
    EightBitsIsInjective(Mix(c, b as bv32), Mix(d, b as bv32));
    MixIsInjective(c, d, b as bv32);
  }

  /** Different registers stay different, whatever common bytes follow. */
  lemma {:induction false} RegisterIsInjective(c: bv32, d: bv32, buf: seq<Byte>)
    requires Register(c, buf) == Register(d, buf)
    ensures c == d
  {
    hide Absorb;
    if buf != [] {
      var init := buf[..|buf| - 1];
      AbsorbIsInjective(Register(c, init), Register(d, init), buf[|buf| - 1]);
      RegisterIsInjective(c, d, init);
    }
  }

  function Down(c: bv32): bv32
  {
    c << 8
  }

  function Join(b: Byte, rest: bv32): bv32
  {
    Mix(b as bv32, Down(rest))
  }

  /** Up to four bytes as one word, first byte lowest. */
  function Word(w: seq<Byte>): bv32
    requires |w| <= 4
  {
    if w == [] then 0 else Join(w[0], Word(w[1..]))
  }

  function Steps(n: nat, c: bv32): bv32
  {
    if n == 0 then c else Steps(n - 1, EightBits(c))
  }

  predicate Below(c: bv32, bytes: nat)
  {
    match bytes
    case 0 => c == 0
    case 1 => c < 0x100
    case 2 => c < 0x1_0000
    case 3 => c < 0x0100_0000
    case _ => true
  }

  lemma JoinBound(b: Byte, rest: bv32, bytes: nat)
    requires Below(rest, bytes)
    ensures Below(Join(b, rest), bytes + 1)
  {
  }

  lemma {:induction false} WordBound(w: seq<Byte>)
    requires |w| <= 4
    ensures Below(Word(w), |w|)
  {
    hide Join;
    if w != [] {
      WordBound(w[1..]);
      JoinBound(w[0], Word(w[1..]), |w| - 1);
    }
  }

  /** Bytes that are still to come can be added to the register early, in their place. */
  lemma AbsorbEarly(c: bv32, b: Byte, rest: bv32)
    requires rest < 0x0100_0000
    ensures Mix(Absorb(c, b), rest) == EightBits(Mix(c, Join(b, rest)))
  {
    hide EightBits, Mix, Down, High, Up;
    DownThenUp(rest);
    MixAssociates(c, b as bv32, Down(rest));
    EightBitsIsLinear(Mix(c, b as bv32), Down(rest));
    EightBitsOfHigh(Down(rest));
  }

  lemma DownThenUp(rest: bv32)
    requires rest < 0x0100_0000
    ensures Up(Down(rest)) == rest && High(Down(rest)) == Down(rest)
  {
  }

  lemma MixAssociates(a: bv32, b: bv32, c: bv32)
    ensures Mix(Mix(a, b), c) == Mix(a, Mix(b, c))
  {
  }

  /** Up to four bytes act on the register as if they were added to it all at once. */
  lemma {:induction false} RegisterOfWord(c: bv32, w: seq<Byte>)
    requires |w| <= 4
    ensures Register(c, w) == Steps(|w|, Mix(c, Word(w)))
    decreases |w|
  {
    hide EightBits, Absorb, Join, Mix;
    if w == [] {
      MixZero(c);
    } else {
      var b, rest := w[0], Word(w[1..]);
      WordBound(w[1..]);
      assert w == [b] + w[1..];
      RegisterConcat(c, [b], w[1..]);
      RegisterOfByte(c, b);
      RegisterOfWord(Absorb(c, b), w[1..]);
      BelowFour(rest, |w| - 1);
      AbsorbEarly(c, b, rest);
    }
  }

  lemma BelowFour(c: bv32, bytes: nat)
    requires Below(c, bytes) && bytes <= 3
    ensures c < 0x0100_0000
  {
  }

  lemma MixZero(c: bv32)
    ensures Mix(c, 0) == c
  {
  }

  lemma RegisterOfByte(c: bv32, b: Byte)
    ensures Register(c, [b]) == Absorb(c, b)
  {
    hide Absorb;
    assert [b][..0] == [];
  }

  lemma {:induction false} StepsIsInjective(n: nat, c: bv32, d: bv32)
    requires Steps(n, c) == Steps(n, d)
    ensures c == d
  {
    hide EightBits;
    if n > 0 {
      StepsIsInjective(n - 1, EightBits(c), EightBits(d));
      EightBitsIsInjective(c, d);
    }
  }

  lemma JoinIsInjective(b: Byte, r: bv32, b': Byte, r': bv32)
    requires r < 0x0100_0000 && r' < 0x0100_0000 && Join(b, r) == Join(b', r')
    ensures b == b' && r == r'
  {
  }

  lemma {:induction false} WordIsInjective(x: seq<Byte>, y: seq<Byte>)
    requires |x| == |y| <= 4 && Word(x) == Word(y)
    ensures x == y
  {
    hide Join;
    if x != [] {
      WordBound(x[1..]);
      WordBound(y[1..]);
      BelowFour(Word(x[1..]), |x| - 1);
      BelowFour(Word(y[1..]), |y| - 1);
      JoinIsInjective(x[0], Word(x[1..]), y[0], Word(y[1..]));
      WordIsInjective(x[1..], y[1..]);
      assert x == [x[0]] + x[1..] && y == [y[0]] + y[1..];
    }
  }

  /** Two inputs of the same length that differ only inside a window of at most four consecutive
      bytes never have the same CRC. */
  lemma BurstIsDetected(crc: bv32, before: seq<Byte>, x: seq<Byte>, y: seq<Byte>, after: seq<Byte>)
    requires |x| == |y| <= 4 && x != y
    ensures BitwiseCrc(crc, before + x + after) != BitwiseCrc(crc, before + y + after)
  {
    hide Register, Word, Steps, Mix, Invert;
    var c := Invert(crc);
    var d := Register(c, before);
    var rx, ry := Register(d, x), Register(d, y);
    RegisterConcat(c, before, x);
    RegisterConcat(c, before + x, after);
    RegisterConcat(c, before, y);
    RegisterConcat(c, before + y, after);
    if BitwiseCrc(crc, before + x + after) == BitwiseCrc(crc, before + y + after) {
      InvertTwice(Register(rx, after));
      InvertTwice(Register(ry, after));
      RegisterIsInjective(rx, ry, after);
      RegisterOfWord(d, x);
      RegisterOfWord(d, y);
      StepsIsInjective(|x|, Mix(d, Word(x)), Mix(d, Word(y)));
      MixIsInjective(Word(x), Word(y), d);
      WordIsInjective(x, y);
    }
  }

  // ----- bursts that do not start at a byte -----

  function Wide(b: Byte): bv32
  {
    b as bv32
  }

  /** The lowest k bits. */
  function LowBits(k: nat): bv32
    requires k < 8
  {
    match k
    case 0 => 0
    case 1 => 1
    case 2 => 3
    case 3 => 7
    case 4 => 15
    case 5 => 31
    case 6 => 63
    case _ => 127
  }

  function Keep(c: bv32, mask: bv32): bv32
  {
    c & mask
  }

  function ToTop(e: bv32): bv32
  {
    e << 24
  }

  lemma NoKernel0(w: bv32, e: bv32)
    requires w & 0 == 0 && e < 1 && EightBits(w) == e << 24
    ensures w == 0 && e == 0
  {
  }

  lemma NoKernel1(w: bv32, e: bv32)
    requires w & 1 == 0 && e < 2 && EightBits(w) == e << 24
    ensures w == 0 && e == 0
  {
  }

  lemma NoKernel2(w: bv32, e: bv32)
    requires w & 3 == 0 && e < 4 && EightBits(w) == e << 24
    ensures w == 0 && e == 0
  {
  }

  lemma NoKernel3(w: bv32, e: bv32)
    requires w & 7 == 0 && e < 8 && EightBits(w) == e << 24
    ensures w == 0 && e == 0
  {
  }

  lemma NoKernel4(w: bv32, e: bv32)
    requires w & 15 == 0 && e < 16 && EightBits(w) == e << 24
    ensures w == 0 && e == 0
  {
  }

  lemma NoKernel5(w: bv32, e: bv32)
    requires w & 31 == 0 && e < 32 && EightBits(w) == e << 24
    ensures w == 0 && e == 0
  {
  }

  lemma NoKernel6(w: bv32, e: bv32)
    requires w & 63 == 0 && e < 64 && EightBits(w) == e << 24
    ensures w == 0 && e == 0
  {
  }

  lemma NoKernel7(w: bv32, e: bv32)
    requires w & 127 == 0 && e < 128 && EightBits(w) == e << 24
    ensures w == 0 && e == 0
  {
  }

  /** Eight steps never turn a word with k low zeros into k bits at the top. */
  lemma NoKernel(w: bv32, e: bv32, k: nat)
    requires k < 8 && Keep(w, LowBits(k)) == 0 && e <= LowBits(k) && EightBits(w) == ToTop(e)
    ensures w == 0 && e == 0
  {
    hide EightBits;
    match k
    case 0 => NoKernel0(w, e);
    case 1 => NoKernel1(w, e);
    case 2 => NoKernel2(w, e);
    case 3 => NoKernel3(w, e);
    case 4 => NoKernel4(w, e);
    case 5 => NoKernel5(w, e);
    case 6 => NoKernel6(w, e);
    case _ => NoKernel7(w, e);
  }

  /** A byte that is added in the top place only moves down. */
  lemma FromTop(e: bv32)
    requires e < 256
    ensures Steps(3, ToTop(e)) == e
  {
    hide EightBits;
    assert EightBits(ToTop(e)) == e << 16 by { EightBitsOfHigh(ToTop(e)); TopShifts(e); }
    assert EightBits(e << 16) == e << 8 by { EightBitsOfHigh(e << 16); TopShifts(e); }
    assert EightBits(e << 8) == e by { EightBitsOfHigh(e << 8); TopShifts(e); }
    assert Steps(1, e << 8) == Steps(0, e);
    assert Steps(2, e << 16) == Steps(1, e << 8);
    assert Steps(3, ToTop(e)) == Steps(2, e << 16);
  }

  lemma TopShifts(e: bv32)
    requires e < 256
    ensures High(ToTop(e)) == ToTop(e) && Up(ToTop(e)) == e << 16
    ensures High(e << 16) == e << 16 && Up(e << 16) == e << 8
    ensures High(e << 8) == e << 8 && Up(e << 8) == e
  {
  }

  lemma {:induction false} StepsIsLinear(n: nat, a: bv32, b: bv32)
    ensures Steps(n, Mix(a, b)) == Mix(Steps(n, a), Steps(n, b))
  {
    hide EightBits, Mix;
    if n > 0 {
      EightBitsIsLinear(a, b);
      StepsIsLinear(n - 1, EightBits(a), EightBits(b));
    }
  }

  lemma MixOfMixes(a: bv32, b: bv32, d: bv32)
    ensures Mix(Mix(d, a), Mix(d, b)) == Mix(a, b)
  {
    hide Mix;
    MixRules(d, a, b);
  }

  /** From equal sums to an equal difference. */
  lemma MixMoves(p: bv32, q: bv32, u: bv32, v: bv32)
    requires Mix(p, u) == Mix(q, v)
    ensures Mix(p, q) == Mix(u, v)
  {
    hide Mix;
    MixAssociates(p, u, Mix(u, q));
    MixCancels(u, q);
    MixCommutes(q, v);
    MixAssociates(v, q, Mix(u, q));
    MixCommutes(u, q);
    MixCancels(q, u);
    MixCommutes(u, v);
  }

  lemma EqualIfNoMix(a: bv32, b: bv32)
    requires Mix(a, b) == 0
    ensures a == b
  {
  }

  lemma DownIsClear(r: bv32, k: nat)
    requires k < 8
    ensures Keep(Down(r), LowBits(k)) == 0
  {
    match k
    case 0 =>
    case 1 =>
    case 2 =>
    case 3 =>
    case 4 =>
    case 5 =>
    case 6 =>
    case _ =>
  }

  lemma KeepIsLinear(a: bv32, b: bv32, mask: bv32)
    ensures Keep(Mix(a, b), mask) == Mix(Keep(a, mask), Keep(b, mask))
  {
  }

  lemma LowOfWords(x: Byte, r: bv32, y: Byte, t: bv32, k: nat)
    requires k < 8 && Keep(Mix(Wide(x), Wide(y)), LowBits(k)) == 0
    ensures Keep(Mix(Join(x, r), Join(y, t)), LowBits(k)) == 0
  {
    hide Keep, Mix, Down, LowBits;
    var m := LowBits(k);
    DownIsClear(r, k);
    DownIsClear(t, k);
    KeepIsLinear(Wide(x), Down(r), m);
    KeepIsLinear(Wide(y), Down(t), m);
    MixZero(Keep(Wide(x), m));
    MixZero(Keep(Wide(y), m));
    KeepIsLinear(Wide(x), Wide(y), m);
    KeepIsLinear(Join(x, r), Join(y, t), m);
  }

  lemma BytesDiffer(x: Byte, y: Byte)
    ensures Mix(Wide(x), Wide(y)) < 256
    ensures Mix(Wide(x), Wide(y)) == 0 ==> x == y
  {
  }

  /** What equal registers mean for the difference of the first four bytes and of the last. */
  lemma DifferenceMoves(d: bv32, x: seq<Byte>, y: seq<Byte>)
    requires |x| == |y| == 5 && Register(d, x) == Register(d, y)
    ensures Steps(4, Mix(Word(x[..4]), Word(y[..4]))) == Mix(Wide(x[4]), Wide(y[4]))
  {
    hide EightBits, Mix, Word, Steps, Register, Wide;
    var a, b := x[..4], y[..4];
    var p, q := Mix(d, Word(a)), Mix(d, Word(b));
    LastByte(d, x);
    LastByte(d, y);
    RegisterOfWord(d, a);
    RegisterOfWord(d, b);
    EightBitsIsInjective(Mix(Steps(4, p), Wide(x[4])), Mix(Steps(4, q), Wide(y[4])));
    MixMoves(Steps(4, p), Steps(4, q), Wide(x[4]), Wide(y[4]));
    StepsIsLinear(4, p, q);
    MixOfMixes(Word(a), Word(b), d);
  }

  lemma WindowVanishes(w: bv32, e: bv32, k: nat)
    requires k < 8 && Keep(w, LowBits(k)) == 0 && e <= LowBits(k) && e < 256 && Steps(4, w) == e
    ensures w == 0 && e == 0
  {
    hide EightBits, Steps, Keep, LowBits, ToTop;
    FromTop(e);
    OneStepMore(w);
    StepsIsInjective(3, EightBits(w), ToTop(e));
    NoKernel(w, e, k);
  }

  lemma DifferenceVanishes(d: bv32, x: seq<Byte>, y: seq<Byte>, k: nat)
    requires |x| == |y| == 5 && k < 8
    requires Keep(Mix(Wide(x[0]), Wide(y[0])), LowBits(k)) == 0
    requires Mix(Wide(x[4]), Wide(y[4])) <= LowBits(k)
    requires Register(d, x) == Register(d, y)
    ensures Mix(Word(x[..4]), Word(y[..4])) == 0 && Mix(Wide(x[4]), Wide(y[4])) == 0
  {
    hide EightBits, Mix, Word, Steps, Keep, LowBits, Register, Wide;
    var w, e := Mix(Word(x[..4]), Word(y[..4])), Mix(Wide(x[4]), Wide(y[4]));
    DifferenceMoves(d, x, y);
    BytesDiffer(x[4], y[4]);
    LowOfWindow(x[..4], y[..4], k);
    WindowVanishes(w, e, k);
  }

  lemma SameFive(x: seq<Byte>, y: seq<Byte>)
    requires |x| == |y| == 5 && x[..4] == y[..4] && x[4] == y[4]
    ensures x == y
  {
    assert x == x[..4] + [x[4]] && y == y[..4] + [y[4]];
  }

  /** The register after five bytes tells them apart if they differ only from bit k of the first byte up to,
      and not including, bit k of the last one. */
  lemma FiveBytesDiffer(d: bv32, x: seq<Byte>, y: seq<Byte>, k: nat)
    requires |x| == |y| == 5 && k < 8
    requires Keep(Mix(Wide(x[0]), Wide(y[0])), LowBits(k)) == 0
    requires Mix(Wide(x[4]), Wide(y[4])) <= LowBits(k)
    requires Register(d, x) == Register(d, y)
    ensures x == y
  {
    hide Mix, Word, Keep, LowBits, Register, Wide;
    DifferenceVanishes(d, x, y, k);
    EqualIfNoMix(Word(x[..4]), Word(y[..4]));
    WordIsInjective(x[..4], y[..4]);
    BytesDiffer(x[4], y[4]);
    SameFive(x, y);
  }

  lemma LastByte(d: bv32, x: seq<Byte>)
    requires |x| == 5
    ensures Register(d, x) == EightBits(Mix(Register(d, x[..4]), Wide(x[4])))
  {
    hide EightBits, Mix;
  }

  lemma OneStepMore(w: bv32)
    ensures Steps(4, w) == Steps(3, EightBits(w))
  {
    hide EightBits;
  }

  lemma LowOfWindow(a: seq<Byte>, b: seq<Byte>, k: nat)
    requires |a| == |b| == 4 && k < 8 && Keep(Mix(Wide(a[0]), Wide(b[0])), LowBits(k)) == 0
    ensures Keep(Mix(Word(a), Word(b)), LowBits(k)) == 0
  {
    hide Join, Mix, Keep, LowBits, Wide;
    LowOfWords(a[0], Word(a[1..]), b[0], Word(b[1..]), k);
  }

  /** A burst of at most 32 bits that starts at any bit: with the lemma before it, every burst that is not
      longer than the checksum changes it. */
  lemma UnalignedBurstIsDetected(crc: bv32, before: seq<Byte>, x: seq<Byte>, y: seq<Byte>, after: seq<Byte>, k: nat)
    requires |x| == |y| == 5 && k < 8 && x != y
    requires Keep(Mix(Wide(x[0]), Wide(y[0])), LowBits(k)) == 0
    requires Mix(Wide(x[4]), Wide(y[4])) <= LowBits(k)
    ensures BitwiseCrc(crc, before + x + after) != BitwiseCrc(crc, before + y + after)
  {
    hide Register, Mix, Invert, Keep, LowBits, Wide;
    var c := Invert(crc);
    var d := Register(c, before);
    var rx, ry := Register(d, x), Register(d, y);
    RegisterConcat(c, before, x);
    RegisterConcat(c, before + x, after);
    RegisterConcat(c, before, y);
    RegisterConcat(c, before + y, after);
    if BitwiseCrc(crc, before + x + after) == BitwiseCrc(crc, before + y + after) {
      InvertTwice(Register(rx, after));
      InvertTwice(Register(ry, after));
      RegisterIsInjective(rx, ry, after);
      FiveBytesDiffer(d, x, y, k);
    }
  }

  // ----- the complements -----

  function LowByte(c: bv32): (b: Byte)
    ensures Wide(b) == Low(c)
  {
    Low(c) as Byte
  }

  /** The bytes of a word, lowest first. */
  function BytesOf(c: bv32): (w: seq<Byte>)
    ensures |w| == 4
  {
    [LowByte(c), LowByte(c >> 8), LowByte(c >> 16), LowByte(c >> 24)]
  }

  lemma WordOfBytes(c: bv32)
    ensures Word(BytesOf(c)) == c
  {
    hide Join;
    var w := BytesOf(c);
    var w1, w2, w3: seq<Byte> := w[1..], w[2..], w[3..];
    assert w1[1..] == w2 && w2[1..] == w3 && w3[1..] == [];
    assert Word(w3) == Join(w[3], 0);
    assert Word(w2) == Join(w[2], Word(w3));
    assert Word(w1) == Join(w[1], Word(w2));
    JoinedBytes(c, w[0], w[1], w[2], w[3]);
  }

  lemma JoinedBytes(c: bv32, b0: Byte, b1: Byte, b2: Byte, b3: Byte)
    requires Wide(b0) == Low(c) && Wide(b1) == Low(c >> 8) && Wide(b2) == Low(c >> 16) && Wide(b3) == Low(c >> 24)
    ensures Join(b0, Join(b1, Join(b2, Join(b3, 0)))) == c
  {
  }

  lemma StepsOfOnes()
    ensures Steps(4, 0xFFFF_FFFF) == 0xDEBB_20E3
  {
    hide EightBits;
    OnesStep();
    assert Steps(1, 0x00BE_26ED) == Steps(0, 0xDEBB_20E3);
    assert Steps(2, 0xBE26_ED00) == Steps(1, 0x00BE_26ED);
    assert Steps(3, 0x2DFD_1072) == Steps(2, 0xBE26_ED00);
  }

  lemma OnesStep()
    ensures EightBits(0xFFFF_FFFF) == 0x2DFD_1072 && EightBits(0x2DFD_1072) == 0xBE26_ED00
    ensures EightBits(0xBE26_ED00) == 0x00BE_26ED && EightBits(0x00BE_26ED) == 0xDEBB_20E3
  {
  }

  lemma Complements(c: bv32)
    ensures Mix(Invert(c), c) == 0xFFFF_FFFF && Invert(0xDEBB_20E3) == 0x2144_DF1C
  {
  }

  /** The residue: whatever the data, the checksum of the data followed by its own checksum, lowest byte
      first, is the same number. */
  lemma Residue(crc: bv32, buf: seq<Byte>)
    ensures BitwiseCrc(crc, buf + BytesOf(BitwiseCrc(crc, buf))) == 0x2144_DF1C
  {
    hide Register, Word, Steps, Mix, Invert, BytesOf;
    var r := Register(Invert(crc), buf);
    var c := BitwiseCrc(crc, buf);
    var w := BytesOf(c);
    InvertTwice(r);
    RegisterConcat(Invert(crc), buf, w);
    RegisterOfWord(r, w);
    WordOfBytes(c);
    Complements(c);
    StepsOfOnes();
  }

  /** The checksum of nothing, and of one zero byte. */
  lemma SmallChecksums()
    ensures BitwiseCrc(0, []) == 0 && BitwiseCrc(0, [0]) == 0xD202_EF8D
  {
    hide EightBits;
    var none: seq<Byte> := [];
    assert [0][..0] == none;
    ZeroByte();
  }

  lemma ZeroByte()
    ensures EightBits(Mix(0xFFFF_FFFF, 0 as bv32)) == 0x2DFD_1072
  {
  }
}
