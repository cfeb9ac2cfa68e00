/**
 A whole digest worked out: the alphabet, from the test suite in section A.5 of RFC 1321. Every
 table entry, shift and initial word takes part, so a change in any of them shows here.
 */
module Md5Vector {
  import opened Md5Spec

  /** The one padded block, as words. */
  const X: seq<Word> := [
    0x6463_6261, 0x6867_6665, 0x6c6b_6a69, 0x706f_6e6d,
    0x7473_7271, 0x7877_7675, 0x0080_7a79, 0x0000_0000,
    0x0000_0000, 0x0000_0000, 0x0000_0000, 0x0000_0000,
    0x0000_0000, 0x0000_0000, 0x0000_00d0, 0x0000_0000]

  function FunBits(i: nat, x: bv32, y: bv32, z: bv32): bv32
    requires i < 64
  {
    if i < 16 then FBits(x, y, z)
    else if i < 32 then GBits(x, y, z)
    else if i < 48 then HBits(x, y, z)
    else IBits(x, y, z)
  }

  function OfBits(a: bv32, b: bv32, c: bv32, d: bv32): Regs {
    Regs(Number(a), Number(b), Number(c), Number(d))
  }

  const START: Regs := Regs(0x6745_2301, 0xefcd_ab89, 0x98ba_dcfe, 0x1032_5476)

  /** After `n` steps the registers are these. */
  ghost predicate Reached(n: nat, a: bv32, b: bv32, c: bv32, d: bv32) {
    n <= 64 && Rounds(START, X, n) == OfBits(a, b, c, d)
  }

  lemma FunIs(i: nat, x: bv32, y: bv32, z: bv32)
    requires i < 64
    ensures Fun(i, Number(x), Number(y), Number(z)) == Number(FunBits(i, x, y, z))
  {
    hide Number, FBits, GBits, HBits, IBits, F, G, H, I;
    OnBits(x, y, z);
  }

  lemma MixIs(a: Word, b: Word, f: Word, x: Word, s: bv32, t: Word, sum: bv32)
    requires 0 < s < 32 && Number(sum) == (a + f + x + t) % 0x1_0000_0000
    ensures Mix(a, b, f, x, s, t) == (b + Number(RotateBits(sum, s))) % 0x1_0000_0000
  {
    hide Number, RotateBits, RotateLeft;
    OnBits(sum, sum, sum);
  }

  lemma RoundsNext(i: nat)
    requires i < 64
    ensures Rounds(START, X, i + 1) == StepAt(Rounds(START, X, i), X, i)
  {
    hide StepAt;
  }

  /** Step `i`, from registers `a` to `d`: `sum` is rotated, and `e` is the new register. */
  lemma Turn(i: nat, a: bv32, b: bv32, c: bv32, d: bv32, sum: bv32, e: bv32)
    requires i < 64 && Reached(i, a, b, c, d)
    requires Number(sum) == (Number(a) + Number(FunBits(i, b, c, d)) + X[Index(i)] + T(i)) % 0x1_0000_0000
    requires Number(e) == (Number(b) + Number(RotateBits(sum, Shift(i)))) % 0x1_0000_0000
    ensures Reached(i + 1, d, e, b, c)
  {
    hide Number, FunBits, RotateBits, Fun, Mix, Index, Shift, T, Rounds;
    RoundsNext(i);
    FunIs(i, b, c, d);
    MixIs(Number(a), Number(b), Number(FunBits(i, b, c, d)), X[Index(i)], Shift(i), T(i), sum);
  }

  lemma Begin()
    ensures Reached(0, 0x6745_2301, 0xefcd_ab89, 0x98ba_dcfe, 0x1032_5476)
  {
  }

  lemma Steps4()
    ensures Reached(4, 0xd6d1_17a6, 0x4503_b812, 0x227d_8cf1, 0xaab1_aaaa)
  {
    hide Reached;
    Begin();
    Turn(0, 0x6745_2301, 0xefcd_ab89, 0x98ba_dcfe, 0x1032_5476, 0x3bce_06d8, 0xd6d1_17a6);
    Turn(1, 0x1032_5476, 0xd6d1_17a6, 0xefcd_ab89, 0x98ba_dcfe, 0x304d_3e09, 0xaab1_aaaa);
    Turn(2, 0x98ba_dcfe, 0xaab1_aaaa, 0xd6d1_17a6, 0xefcd_ab89, 0xf123_bbe5, 0x227d_8cf1);
    Turn(3, 0xefcd_ab89, 0x227d_8cf1, 0xaab1_aaaa, 0xd6d1_17a6, 0x18ac_848a, 0x4503_b812);
  }

  lemma Steps8()
    ensures Reached(8, 0xfe15_f787, 0xda9b_bb0d, 0xb711_22fc, 0xa811_b278)
  {
    hide Reached;
    Steps4();
    Turn(4, 0xd6d1_17a6, 0x4503_b812, 0x227d_8cf1, 0xaab1_aaaa, 0xeb72_247e, 0xfe15_f787);
    Turn(5, 0xaab1_aaaa, 0xfe15_f787, 0x4503_b812, 0x227d_8cf1, 0xaf1a_9fbb, 0xa811_b278);
    Turn(6, 0x227d_8cf1, 0xa811_b278, 0xfe15_f787, 0x4503_b812, 0xb842_077f, 0xb711_22fc);
    Turn(7, 0x4503_b812, 0xb711_22fc, 0xa811_b278, 0xfe15_f787, 0x2a60_448e, 0xda9b_bb0d);
  }

  lemma Steps12()
    ensures Reached(12, 0xae75_2899, 0x56cf_a5cb, 0x7d4b_d80b, 0x2bbe_757f)
  {
    hide Reached;
    Steps8();
    Turn(8, 0xfe15_f787, 0xda9b_bb0d, 0xb711_22fc, 0xa811_b278, 0x19a7_b2db, 0xae75_2899);
    Turn(9, 0xa811_b278, 0xae75_2899, 0xda9b_bb0d, 0xb711_22fc, 0xce67_d494, 0x2bbe_757f);
    Turn(10, 0xb711_22fc, 0x2bbe_757f, 0xae75_2899, 0xda9b_bb0d, 0xb146_28c6, 0x7d4b_d80b);
    Turn(11, 0xda9b_bb0d, 0x7d4b_d80b, 0x2bbe_757f, 0xae75_2899, 0x0f37_0366, 0x56cf_a5cb);
  }

  lemma Steps16()
    ensures Reached(16, 0x1754_a316, 0x608d_6b7e, 0x00df_74d5, 0x8556_7d90)
  {
    hide Reached;
    Steps12();
    Turn(12, 0xae75_2899, 0x56cf_a5cb, 0x7d4b_d80b, 0x2bbe_757f, 0x9781_09fa, 0x1754_a316);
    Turn(13, 0x2bbe_757f, 0x1754_a316, 0x56cf_a5cb, 0x7d4b_d80b, 0xa7a6_e01d, 0x8556_7d90);
    Turn(14, 0x7d4b_d80b, 0x8556_7d90, 0x1754_a316, 0x56cf_a5cb, 0x7ba2_bdc4, 0x00df_74d5);
    Turn(15, 0x56cf_a5cb, 0x00df_74d5, 0x8556_7d90, 0x1754_a316, 0xb7da_a57e, 0x608d_6b7e);
  }

  lemma Steps20()
    ensures Reached(20, 0x2d80_71cc, 0x4c21_45b3, 0xedfe_7e4b, 0x5dce_e119)
  {
    hide Reached;
    Steps16();
    Turn(16, 0x1754_a316, 0x608d_6b7e, 0x00df_74d5, 0x8556_7d90, 0x7667_9832, 0x2d80_71cc);
    Turn(17, 0x8556_7d90, 0x2d80_71cc, 0x608d_6b7e, 0x00df_74d5, 0xa698_2737, 0x5dce_e119);
    Turn(18, 0x00df_74d5, 0x5dce_e119, 0x2d80_71cc, 0x608d_6b7e, 0x74ca_40be, 0xedfe_7e4b);
    Turn(19, 0x608d_6b7e, 0xedfe_7e4b, 0x5dce_e119, 0x2d80_71cc, 0x2c76_85e2, 0x4c21_45b3);
  }

  lemma Steps24()
    ensures Reached(24, 0x570c_43e0, 0xc9f1_62d4, 0xc28a_b49d, 0x977e_fd2a)
  {
    hide Reached;
    Steps20();
    Turn(20, 0x2d80_71cc, 0x4c21_45b3, 0xedfe_7e4b, 0x5dce_e119, 0x6857_57f1, 0x570c_43e0);
    Turn(21, 0x5dce_e119, 0x570c_43e0, 0x4c21_45b3, 0xedfe_7e4b, 0xa520_395c, 0x977e_fd2a);
    Turn(22, 0xedfe_7e4b, 0x977e_fd2a, 0x570c_43e0, 0x4c21_45b3, 0xddcc_ac2e, 0xc28a_b49d);
    Turn(23, 0x4c21_45b3, 0xc28a_b49d, 0x977e_fd2a, 0x570c_43e0, 0x6ae3_7076, 0xc9f1_62d4);
  }

  lemma Steps28()
    ensures Reached(28, 0x25bf_ae3b, 0xe6d3_b398, 0xf8c8_365f, 0x8998_0104)
  {
    hide Reached;
    Steps24();
    Turn(24, 0x570c_43e0, 0xc9f1_62d4, 0xc28a_b49d, 0x977e_fd2a, 0x3ade_725b, 0x25bf_ae3b);
    Turn(25, 0x977e_fd2a, 0x25bf_ae3b, 0xc9f1_62d4, 0xc28a_b49d, 0x64b1_ec29, 0x8998_0104);
    Turn(26, 0xc28a_b49d, 0x8998_0104, 0x25bf_ae3b, 0xc9f1_62d4, 0xd56d_bcc0, 0xf8c8_365f);
    Turn(27, 0xc9f1_62d4, 0xf8c8_365f, 0x8998_0104, 0x25bf_ae3b, 0xb7d3_9ee0, 0xe6d3_b398);
  }

  lemma Steps32()
    ensures Reached(32, 0xf54d_8710, 0xaeb3_5766, 0x2e69_afc7, 0x927b_72e2)
  {
    hide Reached;
    Steps28();
    Turn(28, 0x25bf_ae3b, 0xe6d3_b398, 0xf8c8_365f, 0x8998_0104, 0xc073_ce9b, 0xf54d_8710);
    Turn(29, 0x8998_0104, 0xf54d_8710, 0xe6d3_b398, 0xf8c8_365f, 0xe94e_96f5, 0x927b_72e2);
    Turn(30, 0xf8c8_365f, 0x927b_72e2, 0xf54d_8710, 0xe6d3_b398, 0xf396_6fb8, 0x2e69_afc7);
    Turn(31, 0xe6d3_b398, 0x2e69_afc7, 0x927b_72e2, 0xf54d_8710, 0x9a79_f804, 0xaeb3_5766);
  }

  lemma Steps36()
    ensures Reached(36, 0xb4bf_680e, 0x06a5_e211, 0x2361_ed0a, 0x4c8f_fa80)
  {
    hide Reached;
    Steps32();
    Turn(32, 0xf54d_8710, 0xaeb3_5766, 0x2e69_afc7, 0x927b_72e2, 0x8060_c10a, 0xb4bf_680e);
    Turn(33, 0x927b_72e2, 0xb4bf_680e, 0xaeb3_5766, 0x2e69_afc7, 0x4e52_fa12, 0x4c8f_fa80);
    Turn(34, 0x2e69_afc7, 0x4c8f_fa80, 0xb4bf_680e, 0xaeb3_5766, 0xf28a_d6d1, 0x2361_ed0a);
    Turn(35, 0xaeb3_5766, 0x2361_ed0a, 0x4c8f_fa80, 0xb4bf_680e, 0x87ea_0fc6, 0x06a5_e211);
  }

  lemma Steps40()
    ensures Reached(40, 0xb9c0_c733, 0x8d41_bf99, 0x23a9_451b, 0xf1e6_dc7a)
  {
    hide Reached;
    Steps36();
    Turn(36, 0xb4bf_680e, 0x06a5_e211, 0x2361_ed0a, 0x4c8f_fa80, 0x2b31_ae52, 0xb9c0_c733);
    Turn(37, 0x4c8f_fa80, 0xb9c0_c733, 0x06a5_e211, 0x2361_ed0a, 0xa8e7_04c2, 0xf1e6_dc7a);
    Turn(38, 0x2361_ed0a, 0xf1e6_dc7a, 0xb9c0_c733, 0x06a5_e211, 0x68a1_31c2, 0x23a9_451b);
    Turn(39, 0x06a5_e211, 0x23a9_451b, 0xf1e6_dc7a, 0xb9c0_c733, 0x30f4_fcd3, 0x8d41_bf99);
  }

  lemma Steps44()
    ensures Reached(44, 0xa3e8_8ead, 0x90a3_5af5, 0x66f6_468d, 0x02c0_b11c)
  {
    hide Reached;
    Steps40();
    Turn(40, 0xb9c0_c733, 0x8d41_bf99, 0x23a9_451b, 0xf1e6_dc7a, 0x416a_6cf1, 0xa3e8_8ead);
    Turn(41, 0xf1e6_dc7a, 0xa3e8_8ead, 0x8d41_bf99, 0x23a9_451b, 0x4deb_db04, 0x02c0_b11c);
    Turn(42, 0x23a9_451b, 0x02c0_b11c, 0xa3e8_8ead, 0x8d41_bf99, 0x9571_6435, 0x66f6_468d);
    Turn(43, 0x8d41_bf99, 0x66f6_468d, 0x02c0_b11c, 0xa3e8_8ead, 0x5a28_d053, 0x90a3_5af5);
  }

  lemma Steps48()
    ensures Reached(48, 0xb5d4_1f9c, 0x71d1_0367, 0x703d_54d8, 0xa04b_4904)
  {
    hide Reached;
    Steps44();
    Turn(44, 0xa3e8_8ead, 0x90a3_5af5, 0x66f6_468d, 0x02c0_b11c, 0x7253_0c4a, 0xb5d4_1f9c);
    Turn(45, 0x02c0_b11c, 0xb5d4_1f9c, 0x90a3_5af5, 0x66f6_468d, 0x2d1d_4ee5, 0xa04b_4904);
    Turn(46, 0x66f6_468d, 0xa04b_4904, 0xb5d4_1f9c, 0x90a3_5af5, 0x0bd4_cff2, 0x703d_54d8);
    Turn(47, 0x90a3_5af5, 0x703d_54d8, 0xa04b_4904, 0xb5d4_1f9c, 0x275d_1e03, 0x71d1_0367);
  }

  lemma Steps52()
    ensures Reached(52, 0xfc32_dd6e, 0x33ed_b197, 0xb356_02cb, 0x6545_6b34)
  {
    hide Reached;
    Steps48();
    Turn(48, 0xb5d4_1f9c, 0x71d1_0367, 0x703d_54d8, 0xa04b_4904, 0x1e29_8768, 0xfc32_dd6e);
    Turn(49, 0xa04b_4904, 0xfc32_dd6e, 0x71d1_0367, 0x703d_54d8, 0x719a_44a3, 0x6545_6b34);
    Turn(50, 0x703d_54d8, 0x6545_6b34, 0xfc32_dd6e, 0x71d1_0367, 0x2f2e_9c21, 0xb356_02cb);
    Turn(51, 0x71d1_0367, 0xb356_02cb, 0x6545_6b34, 0xfc32_dd6e, 0xbd76_6404, 0x33ed_b197);
  }

  lemma Steps56()
    ensures Reached(56, 0xc1e9_42f1, 0x8387_7d1b, 0x23a6_8048, 0xd9bb_987c)
  {
    hide Reached;
    Steps52();
    Turn(52, 0xfc32_dd6e, 0x33ed_b197, 0xb356_02cb, 0x6545_6b34, 0x6a37_ee45, 0xc1e9_42f1);
    Turn(53, 0x6545_6b34, 0xc1e9_42f1, 0x33ed_b197, 0xb356_02cb, 0x62c5_f495, 0xd9bb_987c);
    Turn(54, 0xb356_02cb, 0xd9bb_987c, 0xc1e9_42f1, 0x33ed_b197, 0xcf98_93d5, 0x23a6_8048);
    Turn(55, 0x33ed_b197, 0x23a6_8048, 0xd9bb_987c, 0xc1e9_42f1, 0x07e6_9aff, 0x8387_7d1b);
  }

  lemma Steps60()
    ensures Reached(60, 0x0077_c208, 0x5e6b_c930, 0xa3e2_247f, 0x847f_c2e7)
  {
    hide Reached;
    Steps56();
    Turn(56, 0xc1e9_42f1, 0x8387_7d1b, 0x23a6_8048, 0xd9bb_987c, 0xb5f3_c113, 0x0077_c208);
    Turn(57, 0xd9bb_987c, 0x0077_c208, 0x8387_7d1b, 0x23a6_8048, 0x37e1_0200, 0x847f_c2e7);
    Turn(58, 0x23a6_8048, 0x847f_c2e7, 0x0077_c208, 0x8387_7d1b, 0xc330_3ec4, 0xa3e2_247f);
    Turn(59, 0x8387_7d1b, 0xa3e2_247f, 0x847f_c2e7, 0x0077_c208, 0x4d25_8dd4, 0x5e6b_c930);
  }

  lemma Steps64()
    ensures Reached(64, 0x708e_d9c2, 0x1116_e6d8, 0xd38f_1e7f, 0x2baf_1354)
  {
    hide Reached;
    Steps60();
    Turn(60, 0x0077_c208, 0x5e6b_c930, 0xa3e2_247f, 0x847f_c2e7, 0x4848_8c42, 0x708e_d9c2);
    Turn(61, 0x847f_c2e7, 0x708e_d9c2, 0x5e6b_c930, 0xa3e2_247f, 0x64ae_c80e, 0x2baf_1354);
    Turn(62, 0xa3e2_247f, 0x2baf_1354, 0x708e_d9c2, 0x5e6b_c930, 0x1657_4fc0, 0xd38f_1e7f);
    Turn(63, 0x5e6b_c930, 0xd38f_1e7f, 0x2baf_1354, 0x708e_d9c2, 0x3e42_c9ec, 0x1116_e6d8);
  }

  // ----- the block and the digest

  const ALPHABET: seq<Byte> := [
    97, 98, 99, 100, 101, 102, 103, 104, 105, 106, 107, 108, 109,
    110, 111, 112, 113, 114, 115, 116, 117, 118, 119, 120, 121, 122]

  /** The alphabet, padded, in quarters. */
  const Q0: seq<Byte> := [97, 98, 99, 100, 101, 102, 103, 104, 105, 106, 107, 108, 109, 110, 111, 112]
  const Q1: seq<Byte> := [113, 114, 115, 116, 117, 118, 119, 120, 121, 122, 128, 0, 0, 0, 0, 0]
  const Q2: seq<Byte> := [0, 0, 0, 0, 0, 0, 0, 0, 0, 0, 0, 0, 0, 0, 0, 0]
  const Q3: seq<Byte> := [0, 0, 0, 0, 0, 0, 0, 0, 208, 0, 0, 0, 0, 0, 0, 0]
  const BLOCK: seq<Byte> := Q0 + Q1 + Q2 + Q3

  lemma Padded()
    ensures Pad(ALPHABET) == BLOCK
  {
    hide Zeros, LittleEndian, ZeroCount;
    PaddingParts();
    var z: seq<Byte> := Zeros(29);
    var p := ALPHABET + [0x80] + z + [208, 0, 0, 0, 0, 0, 0, 0];
    forall k | 0 <= k < 64 ensures p[k] == BLOCK[k] {
      if 27 <= k < 56 {
        assert p[k] == z[k - 27];
      }
    }
  }

  lemma PaddingParts()
    ensures ZeroCount(26) == 29 && forall k | 0 <= k < 29 :: Zeros(29)[k] == 0
    ensures LittleEndian(208, 8) == [208, 0, 0, 0, 0, 0, 0, 0]
  {
  }

  lemma Quarter0()
    ensures EncodeWords([0x6463_6261, 0x6867_6665, 0x6c6b_6a69, 0x706f_6e6d]) == Q0
  {
    hide LittleEndian, EncodeWords;
    EncodeFour(0x6463_6261, 0x6867_6665, 0x6c6b_6a69, 0x706f_6e6d);
    BytesOfWord([0x61, 0x62, 0x63, 0x64]);
    BytesOfWord([0x65, 0x66, 0x67, 0x68]);
    BytesOfWord([0x69, 0x6a, 0x6b, 0x6c]);
    BytesOfWord([0x6d, 0x6e, 0x6f, 0x70]);
  }

  lemma Quarter1()
    ensures EncodeWords([0x7473_7271, 0x7877_7675, 0x0080_7a79, 0x0000_0000]) == Q1
  {
    hide LittleEndian, EncodeWords;
    EncodeFour(0x7473_7271, 0x7877_7675, 0x0080_7a79, 0x0000_0000);
    BytesOfWord([0x71, 0x72, 0x73, 0x74]);
    BytesOfWord([0x75, 0x76, 0x77, 0x78]);
    BytesOfWord([0x79, 0x7a, 0x80, 0x00]);
    BytesOfWord([0x00, 0x00, 0x00, 0x00]);
  }

  lemma Quarter2()
    ensures EncodeWords([0x0000_0000, 0x0000_0000, 0x0000_0000, 0x0000_0000]) == Q2
  {
    hide LittleEndian, EncodeWords;
    EncodeFour(0x0000_0000, 0x0000_0000, 0x0000_0000, 0x0000_0000);
    BytesOfWord([0x00, 0x00, 0x00, 0x00]);
  }

  lemma Quarter3()
    ensures EncodeWords([0x0000_0000, 0x0000_0000, 0x0000_00d0, 0x0000_0000]) == Q3
  {
    hide LittleEndian, EncodeWords;
    EncodeFour(0x0000_0000, 0x0000_0000, 0x0000_00d0, 0x0000_0000);
    BytesOfWord([0x00, 0x00, 0x00, 0x00]);
    BytesOfWord([0xd0, 0x00, 0x00, 0x00]);
  }

  lemma BlockWords()
    ensures DecodeWords(BLOCK) == X
  {
    hide DecodeWords, EncodeWords;
    Quarter0();
    Quarter1();
    Quarter2();
    Quarter3();
    EncodeConcat(X[..4], X[4..8]);
    EncodeConcat(X[..4] + X[4..8], X[8..12]);
    EncodeConcat(X[..4] + X[4..8] + X[8..12], X[12..]);
    XQuarters();
    DecodeEncode(X);
  }

  lemma XQuarters()
    ensures X == X[..4] + X[4..8] + X[8..12] + X[12..]
    ensures X[0..4] == [0x6463_6261, 0x6867_6665, 0x6c6b_6a69, 0x706f_6e6d]
    ensures X[4..8] == [0x7473_7271, 0x7877_7675, 0x0080_7a79, 0x0000_0000]
    ensures X[8..12] == [0x0000_0000, 0x0000_0000, 0x0000_0000, 0x0000_0000]
    ensures X[12..16] == [0x0000_0000, 0x0000_0000, 0x0000_00d0, 0x0000_0000]
  {
  }

  const WORDS: seq<Word> := [0xd7d3_fcc3, 0x00e4_9261, 0x6c49_fb7d, 0x3be1_67ca]

  /** The registers are added to the initial words. */
  lemma Compressed()
    ensures Compress(INIT, BLOCK) == WORDS
  {
    hide Rounds, DecodeWords, Reached;
    BlockWords();
    Steps64();
    LastRegs();
  }

  lemma LastRegs()
    requires Reached(64, 0x708e_d9c2, 0x1116_e6d8, 0xd38f_1e7f, 0x2baf_1354)
    ensures Rounds(START, X, 64) == Regs(0x708e_d9c2, 0x1116_e6d8, 0xd38f_1e7f, 0x2baf_1354)
  {
    hide Rounds;
  }

  lemma FinalBytes()
    ensures EncodeWords(WORDS) == [
              0xc3, 0xfc, 0xd3, 0xd7, 0x61, 0x92, 0xe4, 0x00,
              0x7d, 0xfb, 0x49, 0x6c, 0xca, 0x67, 0xe1, 0x3b]
  {
    hide LittleEndian, EncodeWords;
    FinalLiterals();
    EncodeFour(WORDS[0], WORDS[1], WORDS[2], WORDS[3]);
  }

  lemma FinalLiterals()
    ensures LittleEndian(0xd7d3_fcc3, 4) == [0xc3, 0xfc, 0xd3, 0xd7]
    ensures LittleEndian(0x00e4_9261, 4) == [0x61, 0x92, 0xe4, 0x00]
    ensures LittleEndian(0x6c49_fb7d, 4) == [0x7d, 0xfb, 0x49, 0x6c]
    ensures LittleEndian(0x3be1_67ca, 4) == [0xca, 0x67, 0xe1, 0x3b]
  {
    hide LittleEndian;
    BytesOfWord([0xc3, 0xfc, 0xd3, 0xd7]);
    BytesOfWord([0x61, 0x92, 0xe4, 0x00]);
    BytesOfWord([0x7d, 0xfb, 0x49, 0x6c]);
    BytesOfWord([0xca, 0x67, 0xe1, 0x3b]);
  }

  /** MD5 ("abcdefghijklmnopqrstuvwxyz") = c3fcd3d76192e4007dfb496cca67e13b. */
  lemma AlphabetDigest()
    ensures MessageDigest(ALPHABET) == [
              0xc3, 0xfc, 0xd3, 0xd7, 0x61, 0x92, 0xe4, 0x00,
              0x7d, 0xfb, 0x49, 0x6c, 0xca, 0x67, 0xe1, 0x3b]
  {
    hide Compress, EncodeWords, Pad;
    Padded();
    OneBlock(INIT, BLOCK);
    Compressed();
    FinalBytes();
  }

  lemma OneBlock(state: seq<Word>, block: seq<Byte>)
    requires |state| == 4 && |block| == 64
    ensures Fold(state, block) == Compress(state, block)
  {
    hide Compress;
    assert block[..64] == block && block[64..] == [];
  }
}
