/**
 The three-letter message "abc" of the examples NIST publishes for SHA-1, computed step by step
 by the functions of the standard, and so by the class.
 */
module Sha1Example {
  import opened Bytes
  import opened Fips180
  import Sha1

  const ABC: seq<byte> := [0x61, 0x62, 0x63]

  const BLOCK: seq<byte> := [0x61, 0x62, 0x63, 0x80] + Zeros(56) + [0, 0, 0, 24]

  // ----- The message schedule -----

  lemma GivenWord(t: nat)
    requires t < 16
    ensures W(BLOCK, t) == BeWord(BLOCK[4 * t], BLOCK[4 * t + 1], BLOCK[4 * t + 2], BLOCK[4 * t + 3])
  {
  }

  lemma GivenWords()
    ensures W(BLOCK, 0) == 0x6162_6380 && W(BLOCK, 15) == 24
    ensures forall t :: 0 < t < 15 ==> W(BLOCK, t) == 0
  {
    GivenWord(0);
    GivenWord(15);
    assert BLOCK[0] == 0x61 && BLOCK[1] == 0x62 && BLOCK[2] == 0x63 && BLOCK[3] == 0x80;
    assert BLOCK[60] == 0 && BLOCK[61] == 0 && BLOCK[62] == 0 && BLOCK[63] == 24;
    forall t | 0 < t < 15 ensures W(BLOCK, t) == 0 {
      GivenWord(t);
      assert forall k :: 4 <= k < 63 ==> BLOCK[k] == 0;
    }
  }

  lemma LaterWords()
    ensures forall t {:trigger W(BLOCK, t)} :: 16 <= t ==>
              W(BLOCK, t) == NextWord(W(BLOCK, t - 3), W(BLOCK, t - 8), W(BLOCK, t - 14), W(BLOCK, t - 16))
  {
  }

  lemma Words16()
    ensures W(BLOCK, 16) == 0xc2c4_c700 && W(BLOCK, 17) == 0x0000_0000 && W(BLOCK, 18) == 0x0000_0030 && W(BLOCK, 19) == 0x8589_8e01
    ensures W(BLOCK, 20) == 0x0000_0000 && W(BLOCK, 21) == 0x0000_0060 && W(BLOCK, 22) == 0x0b13_1c03 && W(BLOCK, 23) == 0x0000_0030
    ensures W(BLOCK, 24) == 0x8589_8ec1 && W(BLOCK, 25) == 0x1626_3806 && W(BLOCK, 26) == 0x0000_0000 && W(BLOCK, 27) == 0x0000_0180
    ensures W(BLOCK, 28) == 0x2c4c_700c && W(BLOCK, 29) == 0x0000_00f0 && W(BLOCK, 30) == 0x93af_b507 && W(BLOCK, 31) == 0x5898_e048
  {
    hide W;
    GivenWords();
    LaterWords();
  }

  lemma Words32()
    ensures W(BLOCK, 32) == 0x8e9a_9202 && W(BLOCK, 33) == 0x0000_0600 && W(BLOCK, 34) == 0xb131_c0f0 && W(BLOCK, 35) == 0x1626_3bc6
    ensures W(BLOCK, 36) == 0x4ebe_d41e && W(BLOCK, 37) == 0x6263_80a1 && W(BLOCK, 38) == 0x1626_3806 && W(BLOCK, 39) == 0x0000_18c0
    ensures W(BLOCK, 40) == 0xd2e1_38c4 && W(BLOCK, 41) == 0x0000_0f00 && W(BLOCK, 42) == 0x3afb_5079 && W(BLOCK, 43) == 0x898e_04e5
    ensures W(BLOCK, 44) == 0xe2ba_3c2b && W(BLOCK, 45) == 0x0000_60c0 && W(BLOCK, 46) == 0x053a_37cd && W(BLOCK, 47) == 0x7445_8547
  {
    hide W;
    Words16();
    LaterWords();
  }

  lemma Words48()
    ensures W(BLOCK, 48) == 0xda94_15ed && W(BLOCK, 49) == 0x2638_0a16 && W(BLOCK, 50) == 0x6263_83a1 && W(BLOCK, 51) == 0x4ebf_54de
    ensures W(BLOCK, 52) == 0x3835_b44b && W(BLOCK, 53) == 0x0000_f600 && W(BLOCK, 54) == 0x1e84_c7a3 && W(BLOCK, 55) == 0x98e0_4d98
    ensures W(BLOCK, 56) == 0x651d_16a0 && W(BLOCK, 57) == 0x6265_8ca1 && W(BLOCK, 58) == 0x4585_44d6 && W(BLOCK, 59) == 0x4458_4cb7
    ensures W(BLOCK, 60) == 0x7ba0_6619 && W(BLOCK, 61) == 0x6380_aea2 && W(BLOCK, 62) == 0x0ae5_5269 && W(BLOCK, 63) == 0x627b_49a1
  {
    hide W;
    Words32();
    LaterWords();
  }

  lemma Words64()
    ensures W(BLOCK, 64) == 0x7cd4_5c9d && W(BLOCK, 65) == 0x000f_0000 && W(BLOCK, 66) == 0xfb50_753a && W(BLOCK, 67) == 0xec67_65e8
    ensures W(BLOCK, 68) == 0xba3c_2be2 && W(BLOCK, 69) == 0x0060_c000 && W(BLOCK, 70) == 0x3a37_cd05 && W(BLOCK, 71) == 0x4585_46f4
    ensures W(BLOCK, 72) == 0xb859_9dd6 && W(BLOCK, 73) == 0x380a_1a26 && W(BLOCK, 74) == 0x01e0_2203 && W(BLOCK, 75) == 0xe7cc_3456
    ensures W(BLOCK, 76) == 0xe6e6_0b69 && W(BLOCK, 77) == 0x00f6_0a00 && W(BLOCK, 78) == 0x5795_ef4f && W(BLOCK, 79) == 0x822e_0879
  {
    hide W;
    Words48();
    LaterWords();
  }

  // ----- The eighty steps -----

  lemma Steps8()
    ensures Rounds(IV, BLOCK, 8) == Regs(0x9e8c_07d4, 0x993e_30c1, 0x0ff1_f290, 0xb3f5_2677, 0xf376_3846)
  {
    hide W;
    GivenWords();
    assert Rounds(IV, BLOCK, 1) == Regs(0x0116_fc33, 0x6745_2301, 0x7bf3_6ae2, 0x98ba_dcfe, 0x1032_5476);
    assert Rounds(IV, BLOCK, 2) == Regs(0x8990_536d, 0x0116_fc33, 0x59d1_48c0, 0x7bf3_6ae2, 0x98ba_dcfe);
    assert Rounds(IV, BLOCK, 3) == Regs(0xa139_0f08, 0x8990_536d, 0xc045_bf0c, 0x59d1_48c0, 0x7bf3_6ae2);
    assert Rounds(IV, BLOCK, 4) == Regs(0xcdd8_e11b, 0xa139_0f08, 0x6264_14db, 0xc045_bf0c, 0x59d1_48c0);
    assert Rounds(IV, BLOCK, 5) == Regs(0xcfd4_99de, 0xcdd8_e11b, 0x284e_43c2, 0x6264_14db, 0xc045_bf0c);
    assert Rounds(IV, BLOCK, 6) == Regs(0x3fc7_ca40, 0xcfd4_99de, 0xf376_3846, 0x284e_43c2, 0x6264_14db);
    assert Rounds(IV, BLOCK, 7) == Regs(0x993e_30c1, 0x3fc7_ca40, 0xb3f5_2677, 0xf376_3846, 0x284e_43c2);
    assert Rounds(IV, BLOCK, 8) == Regs(0x9e8c_07d4, 0x993e_30c1, 0x0ff1_f290, 0xb3f5_2677, 0xf376_3846);
  }

  lemma Steps16()
    ensures Rounds(IV, BLOCK, 16) == Regs(0x20bd_d62f, 0x196b_ee77, 0x644a_3da5, 0x1181_ed99, 0x18c6_23f9)
  {
    hide W;
    GivenWords();
    Steps8();
    assert Rounds(IV, BLOCK, 9) == Regs(0x4b6a_e328, 0x9e8c_07d4, 0x664f_8c30, 0x0ff1_f290, 0xb3f5_2677);
    assert Rounds(IV, BLOCK, 10) == Regs(0x8351_f929, 0x4b6a_e328, 0x27a3_01f5, 0x664f_8c30, 0x0ff1_f290);
    assert Rounds(IV, BLOCK, 11) == Regs(0xfbda_9e89, 0x8351_f929, 0x12da_b8ca, 0x27a3_01f5, 0x664f_8c30);
    assert Rounds(IV, BLOCK, 12) == Regs(0x6318_8fe4, 0xfbda_9e89, 0x60d4_7e4a, 0x12da_b8ca, 0x27a3_01f5);
    assert Rounds(IV, BLOCK, 13) == Regs(0x4607_b664, 0x6318_8fe4, 0x7ef6_a7a2, 0x60d4_7e4a, 0x12da_b8ca);
    assert Rounds(IV, BLOCK, 14) == Regs(0x9128_f695, 0x4607_b664, 0x18c6_23f9, 0x7ef6_a7a2, 0x60d4_7e4a);
    assert Rounds(IV, BLOCK, 15) == Regs(0x196b_ee77, 0x9128_f695, 0x1181_ed99, 0x18c6_23f9, 0x7ef6_a7a2);
    assert Rounds(IV, BLOCK, 16) == Regs(0x20bd_d62f, 0x196b_ee77, 0x644a_3da5, 0x1181_ed99, 0x18c6_23f9);
  }

  lemma Steps24()
    ensures Rounds(IV, BLOCK, 24) == Regs(0xd541_f12d, 0x2128_3486, 0x0ce8_8eff, 0x868d_ec32, 0x7f67_875f)
  {
    hide W;
    Words16();
    Steps16();
    assert Rounds(IV, BLOCK, 17) == Regs(0x4e92_5823, 0x20bd_d62f, 0xc65a_fb9d, 0x644a_3da5, 0x1181_ed99);
    assert Rounds(IV, BLOCK, 18) == Regs(0x82aa_6728, 0x4e92_5823, 0xc82f_758b, 0xc65a_fb9d, 0x644a_3da5);
    assert Rounds(IV, BLOCK, 19) == Regs(0xdc64_901d, 0x82aa_6728, 0xd3a4_9608, 0xc82f_758b, 0xc65a_fb9d);
    assert Rounds(IV, BLOCK, 20) == Regs(0xfd9e_1d7d, 0xdc64_901d, 0x20aa_99ca, 0xd3a4_9608, 0xc82f_758b);
    assert Rounds(IV, BLOCK, 21) == Regs(0x1a37_b0ca, 0xfd9e_1d7d, 0x7719_2407, 0x20aa_99ca, 0xd3a4_9608);
    assert Rounds(IV, BLOCK, 22) == Regs(0x33a2_3bfc, 0x1a37_b0ca, 0x7f67_875f, 0x7719_2407, 0x20aa_99ca);
    assert Rounds(IV, BLOCK, 23) == Regs(0x2128_3486, 0x33a2_3bfc, 0x868d_ec32, 0x7f67_875f, 0x7719_2407);
    assert Rounds(IV, BLOCK, 24) == Regs(0xd541_f12d, 0x2128_3486, 0x0ce8_8eff, 0x868d_ec32, 0x7f67_875f);
  }

  lemma Steps32()
    ensures Rounds(IV, BLOCK, 32) == Regs(0x3b84_5d33, 0x1267_b407, 0x717e_ebd7, 0xa0dc_2d4b, 0xd2aa_1365)
  {
    hide W;
    Words16();
    Steps24();
    assert Rounds(IV, BLOCK, 25) == Regs(0xc756_7dc6, 0xd541_f12d, 0x884a_0d21, 0x0ce8_8eff, 0x868d_ec32);
    assert Rounds(IV, BLOCK, 26) == Regs(0x4841_3ba4, 0xc756_7dc6, 0x7550_7c4b, 0x884a_0d21, 0x0ce8_8eff);
    assert Rounds(IV, BLOCK, 27) == Regs(0xbe35_fbd5, 0x4841_3ba4, 0xb1d5_9f71, 0x7550_7c4b, 0x884a_0d21);
    assert Rounds(IV, BLOCK, 28) == Regs(0x4aa8_4d97, 0xbe35_fbd5, 0x1210_4ee9, 0xb1d5_9f71, 0x7550_7c4b);
    assert Rounds(IV, BLOCK, 29) == Regs(0x8370_b52e, 0x4aa8_4d97, 0x6f8d_7ef5, 0x1210_4ee9, 0xb1d5_9f71);
    assert Rounds(IV, BLOCK, 30) == Regs(0xc5fb_af5d, 0x8370_b52e, 0xd2aa_1365, 0x6f8d_7ef5, 0x1210_4ee9);
    assert Rounds(IV, BLOCK, 31) == Regs(0x1267_b407, 0xc5fb_af5d, 0xa0dc_2d4b, 0xd2aa_1365, 0x6f8d_7ef5);
    assert Rounds(IV, BLOCK, 32) == Regs(0x3b84_5d33, 0x1267_b407, 0x717e_ebd7, 0xa0dc_2d4b, 0xd2aa_1365);
  }

  lemma Steps40()
    ensures Rounds(IV, BLOCK, 40) == Regs(0x32de_1cba, 0x4c98_6405, 0xf718_e5cf, 0x03d4_47f6, 0xf72e_ec32)
  {
    hide W;
    Words32();
    Steps32();
    assert Rounds(IV, BLOCK, 33) == Regs(0x046f_aa0a, 0x3b84_5d33, 0xc499_ed01, 0x717e_ebd7, 0xa0dc_2d4b);
    assert Rounds(IV, BLOCK, 34) == Regs(0x2c0e_bc11, 0x046f_aa0a, 0xcee1_174c, 0xc499_ed01, 0x717e_ebd7);
    assert Rounds(IV, BLOCK, 35) == Regs(0x2179_6ad4, 0x2c0e_bc11, 0x811b_ea82, 0xcee1_174c, 0xc499_ed01);
    assert Rounds(IV, BLOCK, 36) == Regs(0xdcbb_b0cb, 0x2179_6ad4, 0x4b03_af04, 0x811b_ea82, 0xcee1_174c);
    assert Rounds(IV, BLOCK, 37) == Regs(0x0f51_1fd8, 0xdcbb_b0cb, 0x085e_5ab5, 0x4b03_af04, 0x811b_ea82);
    assert Rounds(IV, BLOCK, 38) == Regs(0xdc63_973f, 0x0f51_1fd8, 0xf72e_ec32, 0x085e_5ab5, 0x4b03_af04);
    assert Rounds(IV, BLOCK, 39) == Regs(0x4c98_6405, 0xdc63_973f, 0x03d4_47f6, 0xf72e_ec32, 0x085e_5ab5);
    assert Rounds(IV, BLOCK, 40) == Regs(0x32de_1cba, 0x4c98_6405, 0xf718_e5cf, 0x03d4_47f6, 0xf72e_ec32);
  }

  lemma Steps48()
    ensures Rounds(IV, BLOCK, 48) == Regs(0xbead_02ca, 0xa01b_846c, 0x8714_787c, 0x503c_a382, 0xfb86_c6ab)
  {
    hide W;
    Words32();
    Steps40();
    assert Rounds(IV, BLOCK, 41) == Regs(0xfc87_dedf, 0x32de_1cba, 0x5326_1901, 0xf718_e5cf, 0x03d4_47f6);
    assert Rounds(IV, BLOCK, 42) == Regs(0x970a_0d5c, 0xfc87_dedf, 0x8cb7_872e, 0x5326_1901, 0xf718_e5cf);
    assert Rounds(IV, BLOCK, 43) == Regs(0x7f19_3dc5, 0x970a_0d5c, 0xff21_f7b7, 0x8cb7_872e, 0x5326_1901);
    assert Rounds(IV, BLOCK, 44) == Regs(0xee1b_1aaf, 0x7f19_3dc5, 0x25c2_8357, 0xff21_f7b7, 0x8cb7_872e);
    assert Rounds(IV, BLOCK, 45) == Regs(0x40f2_8e09, 0xee1b_1aaf, 0x5fc6_4f71, 0x25c2_8357, 0xff21_f7b7);
    assert Rounds(IV, BLOCK, 46) == Regs(0x1c51_e1f2, 0x40f2_8e09, 0xfb86_c6ab, 0x5fc6_4f71, 0x25c2_8357);
    assert Rounds(IV, BLOCK, 47) == Regs(0xa01b_846c, 0x1c51_e1f2, 0x503c_a382, 0xfb86_c6ab, 0x5fc6_4f71);
    assert Rounds(IV, BLOCK, 48) == Regs(0xbead_02ca, 0xa01b_846c, 0x8714_787c, 0x503c_a382, 0xfb86_c6ab);
  }

  lemma Steps56()
    ensures Rounds(IV, BLOCK, 56) == Regs(0x5e64_56af, 0x7b71_f76d, 0x09fa_7c76, 0x7924_10db, 0x8e11_eb59)
  {
    hide W;
    Words48();
    Steps48();
    assert Rounds(IV, BLOCK, 49) == Regs(0xbaf3_9337, 0xbead_02ca, 0x2806_e11b, 0x8714_787c, 0x503c_a382);
    assert Rounds(IV, BLOCK, 50) == Regs(0x1207_31c5, 0xbaf3_9337, 0xafab_40b2, 0x2806_e11b, 0x8714_787c);
    assert Rounds(IV, BLOCK, 51) == Regs(0x641d_b2ce, 0x1207_31c5, 0xeebc_e4cd, 0xafab_40b2, 0x2806_e11b);
    assert Rounds(IV, BLOCK, 52) == Regs(0x3847_ad66, 0x641d_b2ce, 0x4481_cc71, 0xeebc_e4cd, 0xafab_40b2);
    assert Rounds(IV, BLOCK, 53) == Regs(0xe490_436d, 0x3847_ad66, 0x9907_6cb3, 0x4481_cc71, 0xeebc_e4cd);
    assert Rounds(IV, BLOCK, 54) == Regs(0x27e9_f1d8, 0xe490_436d, 0x8e11_eb59, 0x9907_6cb3, 0x4481_cc71);
    assert Rounds(IV, BLOCK, 55) == Regs(0x7b71_f76d, 0x27e9_f1d8, 0x7924_10db, 0x8e11_eb59, 0x9907_6cb3);
    assert Rounds(IV, BLOCK, 56) == Regs(0x5e64_56af, 0x7b71_f76d, 0x09fa_7c76, 0x7924_10db, 0x8e11_eb59);
  }

  lemma Steps64()
    ensures Rounds(IV, BLOCK, 64) == Regs(0x6b61_c9e1, 0xb66c_020b, 0x9523_272c, 0xf5d5_b051, 0x8fd4_b796)
  {
    hide W;
    Words48();
    Steps56();
    assert Rounds(IV, BLOCK, 57) == Regs(0xc846_093f, 0x5e64_56af, 0x5edc_7ddb, 0x09fa_7c76, 0x7924_10db);
    assert Rounds(IV, BLOCK, 58) == Regs(0xd262_ff50, 0xc846_093f, 0xd799_15ab, 0x5edc_7ddb, 0x09fa_7c76);
    assert Rounds(IV, BLOCK, 59) == Regs(0x09d7_85fd, 0xd262_ff50, 0xf211_824f, 0xd799_15ab, 0x5edc_7ddb);
    assert Rounds(IV, BLOCK, 60) == Regs(0x3f52_de5a, 0x09d7_85fd, 0x3498_bfd4, 0xf211_824f, 0xd799_15ab);
    assert Rounds(IV, BLOCK, 61) == Regs(0xd756_c147, 0x3f52_de5a, 0x4275_e17f, 0x3498_bfd4, 0xf211_824f);
    assert Rounds(IV, BLOCK, 62) == Regs(0x548c_9cb2, 0xd756_c147, 0x8fd4_b796, 0x4275_e17f, 0x3498_bfd4);
    assert Rounds(IV, BLOCK, 63) == Regs(0xb66c_020b, 0x548c_9cb2, 0xf5d5_b051, 0x8fd4_b796, 0x4275_e17f);
    assert Rounds(IV, BLOCK, 64) == Regs(0x6b61_c9e1, 0xb66c_020b, 0x9523_272c, 0xf5d5_b051, 0x8fd4_b796);
  }

  lemma Steps72()
    ensures Rounds(IV, BLOCK, 72) == Regs(0x3985_9de7, 0xc199_f8c7, 0x8fc9_6230, 0x125c_24f0, 0xde37_534a)
  {
    hide W;
    Words64();
    Steps64();
    assert Rounds(IV, BLOCK, 65) == Regs(0x19df_a7ac, 0x6b61_c9e1, 0xed9b_0082, 0x9523_272c, 0xf5d5_b051);
    assert Rounds(IV, BLOCK, 66) == Regs(0x1016_55f9, 0x19df_a7ac, 0x5ad8_7278, 0xed9b_0082, 0x9523_272c);
    assert Rounds(IV, BLOCK, 67) == Regs(0x0c3d_f2b4, 0x1016_55f9, 0x0677_e9eb, 0x5ad8_7278, 0xed9b_0082);
    assert Rounds(IV, BLOCK, 68) == Regs(0x78dd_4d2b, 0x0c3d_f2b4, 0x4405_957e, 0x0677_e9eb, 0x5ad8_7278);
    assert Rounds(IV, BLOCK, 69) == Regs(0x4970_93c0, 0x78dd_4d2b, 0x030f_7cad, 0x4405_957e, 0x0677_e9eb);
    assert Rounds(IV, BLOCK, 70) == Regs(0x3f25_88c2, 0x4970_93c0, 0xde37_534a, 0x030f_7cad, 0x4405_957e);
    assert Rounds(IV, BLOCK, 71) == Regs(0xc199_f8c7, 0x3f25_88c2, 0x125c_24f0, 0xde37_534a, 0x030f_7cad);
    assert Rounds(IV, BLOCK, 72) == Regs(0x3985_9de7, 0xc199_f8c7, 0x8fc9_6230, 0x125c_24f0, 0xde37_534a);
  }

  lemma Steps80()
    ensures Rounds(IV, BLOCK, 80) == Regs(0x4254_1b35, 0x5738_d5e1, 0x2183_4873, 0x681e_6df6, 0xd8fd_f6ad)
  {
    hide W;
    Words64();
    Steps72();
    assert Rounds(IV, BLOCK, 73) == Regs(0xedb4_2de4, 0x3985_9de7, 0xf066_7e31, 0x8fc9_6230, 0x125c_24f0);
    assert Rounds(IV, BLOCK, 74) == Regs(0x1179_3f6f, 0xedb4_2de4, 0xce61_6779, 0xf066_7e31, 0x8fc9_6230);
    assert Rounds(IV, BLOCK, 75) == Regs(0x5ee7_6897, 0x1179_3f6f, 0x3b6d_0b79, 0xce61_6779, 0xf066_7e31);
    assert Rounds(IV, BLOCK, 76) == Regs(0x63f7_dab7, 0x5ee7_6897, 0xc45e_4fdb, 0x3b6d_0b79, 0xce61_6779);
    assert Rounds(IV, BLOCK, 77) == Regs(0xa079_b7d9, 0x63f7_dab7, 0xd7b9_da25, 0xc45e_4fdb, 0x3b6d_0b79);
    assert Rounds(IV, BLOCK, 78) == Regs(0x860d_21cc, 0xa079_b7d9, 0xd8fd_f6ad, 0xd7b9_da25, 0xc45e_4fdb);
    assert Rounds(IV, BLOCK, 79) == Regs(0x5738_d5e1, 0x860d_21cc, 0x681e_6df6, 0xd8fd_f6ad, 0xd7b9_da25);
    assert Rounds(IV, BLOCK, 80) == Regs(0x4254_1b35, 0x5738_d5e1, 0x2183_4873, 0x681e_6df6, 0xd8fd_f6ad);
  }

  /** The published digest. */
  lemma ExampleDigest()
    ensures Digest(ABC) == [0xa9, 0x99, 0x3e, 0x36, 0x47, 0x06, 0x81, 0x6a, 0xba, 0x3e,
                            0x25, 0x71, 0x78, 0x50, 0xc2, 0x6c, 0x9c, 0xd0, 0xd8, 0x9d]
    ensures Sha1.Digest(ABC) == Digest(ABC)
  {
    hide W, Rounds, Fold, Compress;
    Padded();
    OneBlock(BLOCK);
    Steps80();
    Sha1.ShortMessages(ABC);
    assert Compress(IV, BLOCK) == Regs(0xa999_3e36, 0x4706_816a, 0xba3e_2571, 0x7850_c26c, 0x9cd0_d89d) by {
      SumOf(Rounds(IV, BLOCK, 80));
    }
  }

  lemma Padded()
    ensures Pad(ABC) == BLOCK
  {
    hide Be32;
    BitsOfABC();
    assert LengthField(3) == [0, 0, 0, 0] + [0, 0, 0, 24];
    assert Zeros(52) + [0, 0, 0, 0] == Zeros(56);
  }

  lemma BitsOfABC()
    ensures Be32(0) == [0, 0, 0, 0] && Be32(24) == [0, 0, 0, 24]
  {
    hide ToByte;
    SameByte(ToByte(0), 0);
    SameByte(ToByte(24), 24);
  }

  lemma OneBlock(block: seq<byte>)
    requires |block| == 64
    ensures Fold(IV, block) == Compress(IV, block)
  {
    hide Compress;
    assert block[..0] == [] && block[0..] == block;
  }

  lemma SumOf(r: Regs)
    requires r == Rounds(IV, BLOCK, 80)
    ensures Compress(IV, BLOCK) == Sum(IV, r)
  {
    hide Rounds;
  }
}
