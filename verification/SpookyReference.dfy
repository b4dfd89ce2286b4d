/** Reference values: the hashes of the bytes 128, 129, 130 and so on with seeds 0,
    for lengths that take every path. Each mixing is worked out a few lines at a time. */
module SpookyReference {
  import opened Pixels
  import opened SpookyMix
  import opened SpookyWords
  import opened SpookyStream

  // ----- No bytes -----

  lemma EndOfNothing()
    ensures ShortEnd(Short4(0x0000_0000_0000_0000, 0x0000_0000_0000_0000, 0xbd5b_7ddf_bd5b_7dde, 0xbd5b_7ddf_bd5b_7dde))
         == Short4(0x2327_06fc_6bf5_0919, 0x8b72_ee65_b4e8_51c7, 0x88d8_e962_8fb6_94ae, 0x015c_9966_0e76_6a98)
  {
  }

  lemma NoGroups(msg: seq<byte>, s: Short4)
    ensures ShortGroups(msg, 0, s) == s
  {
  }

  lemma NoTail()
    ensures ShortTail([], 0, Short4(0, 0, SC_CONST, SC_CONST))
         == Short4(0x0000_0000_0000_0000, 0x0000_0000_0000_0000, 0xbd5b_7ddf_bd5b_7dde, 0xbd5b_7ddf_bd5b_7dde)
  {
  }

  /** The low half of the first word is the first published value. */
  lemma EmptyReference(msg: seq<byte>)
    requires |msg| == 0
    ensures Hash128(msg, 0, 0) == (0x2327_06fc_6bf5_0919, 0x8b72_ee65_b4e8_51c7)
  {
    hide ShortEnd, ShortGroups, ShortTail, ShortMix;
    assert msg == [] && msg[0..] == [];
    NoGroups(msg, Short4(0, 0, SC_CONST, SC_CONST));
    NoTail();
    EndOfNothing();
  }

  // ----- 63 bytes: a group of 32, half a group and a tail -----

  const GROUP := Short4(0x0000_0000_0000_0000, 0x0000_0000_0000_0000, 0x6634_4474_6230_406f, 0x6e3c_4c7c_6a38_4877)
  const GROUP_MIXED := Short4(0x615a_a19d_5af1_4493, 0x36bb_6c13_0a2c_90b3, 0xe1c5_cb20_10be_3c1b, 0xf320_ece4_4f4b_bf1e)
  const GROUP_DONE := Short4(0xf8f1_3731_ee83_d623, 0xd65a_09af_a5c7_2a4b, 0xe1c5_cb20_10be_3c1b, 0xf320_ece4_4f4b_bf1e)
  const HALF := Short4(0xf8f1_3731_ee83_d623, 0xd65a_09af_a5c7_2a4b, 0x896c_70c4_b460_ddbb, 0xa2cf_9a90_faf6_68c6)
  const HALF_MIXED := Short4(0xdc86_adb1_4bbd_340f, 0xa322_29cb_1cef_806f, 0x79d1_3af7_fa1a_699c, 0x0a39_e6c5_f10a_31f2)
  const TAIL := Short4(0xdc86_adb1_4bbd_340f, 0xa322_29cb_1cef_806f, 0x3187_f0ac_adcd_1b4c, 0x49f8_a482_acc4_ebaa)
  const TAIL_ENDED := Short4(0x80b5_f478_09c1_afb4, 0xef2b_6c78_57ae_e941, 0x5186_6549_9d7c_88e2, 0xbbb7_bace_4f9d_713b)

  lemma Group1To12()
    ensures ShortMixLine(ShortMixLine(ShortMixLine(ShortMixLine(ShortMixLine(ShortMixLine(ShortMixLine(ShortMixLine(ShortMixLine(ShortMixLine(ShortMixLine(ShortMixLine(GROUP, 50), 52), 30), 41), 54), 48), 38), 37), 62), 34), 5), 36) == GROUP_MIXED
  {
  }

  lemma GroupMixed()
    ensures ShortMix(GROUP) == GROUP_MIXED
  {
    hide ShortMixLine;
    Group1To12();
  }

  lemma Half1To12()
    ensures ShortMixLine(ShortMixLine(ShortMixLine(ShortMixLine(ShortMixLine(ShortMixLine(ShortMixLine(ShortMixLine(ShortMixLine(ShortMixLine(ShortMixLine(ShortMixLine(HALF, 50), 52), 30), 41), 54), 48), 38), 37), 62), 34), 5), 36) == HALF_MIXED
  {
  }

  lemma HalfMixed()
    ensures ShortMix(HALF) == HALF_MIXED
  {
    hide ShortMixLine;
    Half1To12();
  }

  lemma TailEnded()
    ensures ShortEnd(TAIL) == TAIL_ENDED
  {
  }

  lemma OneGroup(msg: seq<byte>)
    requires |msg| >= 32
    requires Word(msg[0..8]) == 0x8786_8584_8382_8180 && Word(msg[8..16]) == 0x8f8e_8d8c_8b8a_8988
    requires Word(msg[16..24]) == 0x9796_9594_9392_9190 && Word(msg[24..32]) == 0x9f9e_9d9c_9b9a_9998
    ensures ShortGroups(msg, 1, Short4(0, 0, SC_CONST, SC_CONST)) == GROUP_DONE
  {
    hide ShortMix, Word;
    var g := msg[0..32];
    assert g[..8] == msg[0..8] && g[8..16] == msg[8..16] && g[16..24] == msg[16..24] && g[24..] == msg[24..32];
    NoGroups(msg, Short4(0, 0, SC_CONST, SC_CONST));
    GroupMixed();
  }

  lemma TailAdded(rest: seq<byte>)
    requires |rest| == 15 && Word(rest[..8]) == 0xb7b6_b5b4_b3b2_b1b0 && Word(rest[8..]) == 0x00be_bdbc_bbba_b9b8
    ensures ShortTail(rest, 63, HALF_MIXED) == TAIL
  {
    hide Word;
  }

  lemma ShortReference(msg: seq<byte>)
    requires |msg| == 63
    requires Word(msg[0..8]) == 0x8786_8584_8382_8180 && Word(msg[8..16]) == 0x8f8e_8d8c_8b8a_8988
    requires Word(msg[16..24]) == 0x9796_9594_9392_9190 && Word(msg[24..32]) == 0x9f9e_9d9c_9b9a_9998
    requires Word(msg[32..40]) == 0xa7a6_a5a4_a3a2_a1a0 && Word(msg[40..48]) == 0xafae_adac_abaa_a9a8
    requires Word(msg[48..56]) == 0xb7b6_b5b4_b3b2_b1b0 && Word(msg[56..63]) == 0x00be_bdbc_bbba_b9b8
    ensures Hash128(msg, 0, 0) == (0x80b5_f478_09c1_afb4, 0xef2b_6c78_57ae_e941)
  {
    hide ShortMix, ShortEnd, ShortGroups, ShortTail, Word;
    var rest := msg[32..];
    assert rest[..8] == msg[32..40] && rest[8..16] == msg[40..48];
    assert rest[16..][..8] == msg[48..56] && rest[16..][8..] == msg[56..63];
    OneGroup(msg);
    HalfMixed();
    TailAdded(rest[16..]);
    TailEnded();
  }

  // ----- 192 bytes: two blocks and an empty rest -----

  const BLOCK_0 := Vars(0x8786_8584_8382_8180, 0x8f8e_8d8c_8b8a_8988, 0x9796_9594_9392_9190, 0x9f9e_9d9c_9b9a_9998,
                        0xa7a6_a5a4_a3a2_a1a0, 0xafae_adac_abaa_a9a8, 0xb7b6_b5b4_b3b2_b1b0, 0xbfbe_bdbc_bbba_b9b8,
                        0xc7c6_c5c4_c3c2_c1c0, 0xcfce_cdcc_cbca_c9c8, 0xd7d6_d5d4_d3d2_d1d0, 0xdfde_dddc_dbda_d9d8)
  const BLOCK_1 := Vars(0xe7e6_e5e4_e3e2_e1e0, 0xefee_edec_ebea_e9e8, 0xf7f6_f5f4_f3f2_f1f0, 0xfffe_fdfc_fbfa_f9f8,
                        0x0706_0504_0302_0100, 0x0f0e_0d0c_0b0a_0908, 0x1716_1514_1312_1110, 0x1f1e_1d1c_1b1a_1918,
                        0x2726_2524_2322_2120, 0x2f2e_2d2c_2b2a_2928, 0x3736_3534_3332_3130, 0x3f3e_3d3c_3b3a_3938)
  const START := Vars(0x0000_0000_0000_0000, 0x0000_0000_0000_0000, 0xdead_beef_dead_beef, 0x0000_0000_0000_0000,
                      0x0000_0000_0000_0000, 0xdead_beef_dead_beef, 0x0000_0000_0000_0000, 0x0000_0000_0000_0000,
                      0xdead_beef_dead_beef, 0x0000_0000_0000_0000, 0x0000_0000_0000_0000, 0xdead_beef_dead_beef)
  const MIXED_1 := Vars(0x8af1_2cdf_7190_a350, 0x69ab_04c2_d0c3_1744, 0x949a_8b36_58a2_4738, 0x45eb_893e_6205_a64d,
                        0xb8e6_a320_4c1b_1613, 0x549a_2d76_c1da_43f9, 0x9621_50ac_c816_be7f, 0x78b4_e490_621d_2e75,
                        0x10a1_445f_0fa4_eff3, 0x3f51_1cba_8a3d_0a26, 0x2c09_749b_7a68_384b, 0x3abc_805f_af76_06c3)
  const MIXED_2 := Vars(0x2a96_4ab5_ec25_5679, 0x15fc_4af6_7400_ff45, 0x05ad_6e6b_02ae_3c05, 0x72c2_a9c4_9fe6_1dcf,
                        0x5017_a6fa_3600_edcb, 0xf927_58bc_a62b_bafa, 0x0d94_91c9_81e0_a374, 0x8a04_7323_eb0a_ba9d,
                        0x7b35_8504_af77_5454, 0x11f5_5818_83f1_3e03, 0x0117_d9c0_334f_c65d, 0x16b8_9dd2_886e_573f)
  const ENDED_1 := Vars(0x295b_d28c_5c9d_be1e, 0x2d02_f320_1369_eb88, 0x24c8_6e67_c4f1_3e4a, 0xb1f2_abaf_e890_6725,
                        0x9d48_307b_a13c_f31e, 0xcded_6f8f_c604_005b, 0x89ba_732e_e23f_c8db, 0xc95c_8c5f_3af5_0335,
                        0xe59c_c2cd_743c_bc43, 0x3ce5_e02b_9c1e_b85f, 0x1c63_3add_2ad9_affd, 0x4fab_1f24_a0a8_1621)
  const ENDED_2 := Vars(0x8b83_ddb3_54c4_aa51, 0xfec0_0039_ba15_b3c6, 0x91b3_101d_9570_1577, 0xf0a0_e423_1437_a92c,
                        0x6e99_46db_1e92_d621, 0x84cb_159b_3c07_b9a8, 0x4d68_9b45_3a70_3406, 0x88b7_8c00_45c2_def8,
                        0x8fbf_7fe4_cfd8_dd2f, 0x8eb4_83fc_df29_b82f, 0x3029_67e9_ee57_299c, 0x2b72_1bcc_45b6_81ef)
  const ENDED_3 := Vars(0x246e_d6ee_77e0_12bd, 0xd3ae_ed22_6839_e477, 0x0285_706d_c589_8981, 0x352b_eef5_d81e_67cb,
                        0xda3a_1ab6_5a9d_e2f4, 0xb619_a117_b2f8_b9ca, 0xfe83_868e_6da7_5046, 0xa691_ddf0_2f7f_19b3,
                        0x7297_29bd_cdc4_d763, 0xfc5f_5014_3fca_3f82, 0xc14e_90f6_c383_1997, 0x238b_5962_94d6_e0c8)

  const MIXED_1_6 := Vars(0x949a_8b36_58a2_4738, 0x45eb_893e_6205_a64d, 0xdead_beef_dead_beef, 0x0000_0000_0000_0000,
                          0x0000_0000_0000_0000, 0x592b_3b6b_5d2f_3f6f, 0x9a50_6880_7e34_4ca3, 0x56fa_1878_5afe_1d62,
                          0x949a_8b36_58a2_4738, 0x45eb_893e_6205_a64d, 0xb8e6_a320_4c1b_1613, 0x42ff_e4d3_5380_6544)

  lemma Block0Lines1To6()
    ensures MixLine(MixLine(MixLine(MixLine(MixLine(MixLine(START, 0x8786_8584_8382_8180, 11), 0x8f8e_8d8c_8b8a_8988, 32), 0x9796_9594_9392_9190, 43), 0x9f9e_9d9c_9b9a_9998, 31), 0xa7a6_a5a4_a3a2_a1a0, 17), 0xafae_adac_abaa_a9a8, 28) == MIXED_1_6
  {
  }

  lemma Block0Lines7To12()
    ensures MixLine(MixLine(MixLine(MixLine(MixLine(MixLine(MIXED_1_6, 0xb7b6_b5b4_b3b2_b1b0, 39), 0xbfbe_bdbc_bbba_b9b8, 57), 0xc7c6_c5c4_c3c2_c1c0, 55), 0xcfce_cdcc_cbca_c9c8, 54), 0xd7d6_d5d4_d3d2_d1d0, 22), 0xdfde_dddc_dbda_d9d8, 46) == MIXED_1
  {
  }

  lemma Block0Mixed()
    ensures Mix(BLOCK_0, START) == MIXED_1
  {
    hide MixLine;
    Block0Lines1To6();
    Block0Lines7To12();
  }

  const MIXED_2_6 := Vars(0x938c_3ec7_cab8_827a, 0x0a76_4d54_fdfb_33ba, 0x10a1_445f_0fa4_eff3, 0x3f51_1cba_8a3d_0a26,
                          0x2c09_749b_7a68_384b, 0xb20f_975e_cac8_9b37, 0x51a3_cfb1_4352_022d, 0x0409_12ee_f7f1_c146,
                          0x05ad_6e6b_02ae_3c05, 0x72c2_a9c4_9fe6_1dcf, 0x5017_a6fa_3600_edcb, 0x4413_58bc_75fa_14ca)

  lemma Block1Lines1To6()
    ensures MixLine(MixLine(MixLine(MixLine(MixLine(MixLine(MIXED_1, 0xe7e6_e5e4_e3e2_e1e0, 11), 0xefee_edec_ebea_e9e8, 32), 0xf7f6_f5f4_f3f2_f1f0, 43), 0xfffe_fdfc_fbfa_f9f8, 31), 0x0706_0504_0302_0100, 17), 0x0f0e_0d0c_0b0a_0908, 28) == MIXED_2_6
  {
  }

  lemma Block1Lines7To12()
    ensures MixLine(MixLine(MixLine(MixLine(MixLine(MixLine(MIXED_2_6, 0x1716_1514_1312_1110, 39), 0x1f1e_1d1c_1b1a_1918, 57), 0x2726_2524_2322_2120, 55), 0x2f2e_2d2c_2b2a_2928, 54), 0x3736_3534_3332_3130, 22), 0x3f3e_3d3c_3b3a_3938, 46) == MIXED_2
  {
  }

  lemma Block1Mixed()
    ensures Mix(BLOCK_1, MIXED_1) == MIXED_2
  {
    hide MixLine;
    Block1Lines1To6();
    Block1Lines7To12();
  }

  const ENDED_1_6 := Vars(0xd2e1_88a3_78cc_74cc, 0x174c_4358_4a36_4983, 0x7b35_8504_af77_5454, 0x11f5_5818_83f1_3e03,
                          0x0117_d9c0_334f_c65d, 0x2cb4_e8c8_fc6f_5684, 0x53af_d159_eae6_c0fa, 0x3161_c9fd_39b0_4475,
                          0x24c8_6e67_c4f1_3e4a, 0xb1f2_abaf_e890_6725, 0x9d48_307b_a13c_f31e, 0xb6a1_2c37_7bcd_b6d8)

  lemma Round1Lines1To6()
    ensures EndLine(EndLine(EndLine(EndLine(EndLine(EndLine(MIXED_2, 44), 15), 34), 21), 38), 33) == ENDED_1_6
  {
  }

  lemma Round1Lines7To12()
    ensures EndLine(EndLine(EndLine(EndLine(EndLine(EndLine(ENDED_1_6, 10), 13), 38), 53), 42), 54) == ENDED_1
  {
  }

  lemma Round1Ended()
    ensures EndPartial(MIXED_2) == ENDED_1
  {
    hide EndLine;
    Round1Lines1To6();
    Round1Lines7To12();
  }

  const ENDED_2_6 := Vars(0xec10_c3ee_f235_2e1b, 0xa7c5_ca84_2467_d514, 0xe59c_c2cd_743c_bc43, 0x3ce5_e02b_9c1e_b85f,
                          0x1c63_3add_2ad9_affd, 0x7cae_1244_b412_01a9, 0x81c2_4eaf_cd80_fe01, 0xcee9_67d0_5442_9a5a,
                          0x91b3_101d_9570_1577, 0xf0a0_e423_1437_a92c, 0x6e99_46db_1e92_d621, 0xdd05_4b17_179f_e494)

  lemma Round2Lines1To6()
    ensures EndLine(EndLine(EndLine(EndLine(EndLine(EndLine(ENDED_1, 44), 15), 34), 21), 38), 33) == ENDED_2_6
  {
  }

  lemma Round2Lines7To12()
    ensures EndLine(EndLine(EndLine(EndLine(EndLine(EndLine(ENDED_2_6, 10), 13), 38), 53), 42), 54) == ENDED_2
  {
  }

  lemma Round2Ended()
    ensures EndPartial(ENDED_1) == ENDED_2
  {
    hide EndLine;
    Round2Lines1To6();
    Round2Lines7To12();
  }

  const ENDED_3_6 := Vars(0xc4dc_a79a_f086_eb61, 0x528d_96b6_1f5f_3c0c, 0x8fbf_7fe4_cfd8_dd2f, 0x8eb4_83fc_df29_b82f,
                          0x3029_67e9_ee57_299c, 0x2a32_1c05_ffcc_35b5, 0x4704_e9cb_bf80_cb13, 0x12e0_7dd4_abba_fde0,
                          0x0285_706d_c589_8981, 0x352b_eef5_d81e_67cb, 0xda3a_1ab6_5a9d_e2f4, 0x638c_0a61_9399_7dbe)

  lemma Round3Lines1To6()
    ensures EndLine(EndLine(EndLine(EndLine(EndLine(EndLine(ENDED_2, 44), 15), 34), 21), 38), 33) == ENDED_3_6
  {
  }

  lemma Round3Lines7To12()
    ensures EndLine(EndLine(EndLine(EndLine(EndLine(EndLine(ENDED_3_6, 10), 13), 38), 53), 42), 54) == ENDED_3
  {
  }

  lemma Round3Ended()
    ensures EndPartial(ENDED_2) == ENDED_3
  {
    hide EndLine;
    Round3Lines1To6();
    Round3Lines7To12();
  }

  /** The empty rest adds nothing. */
  lemma NothingAdded(s: Vars)
    ensures AddBlock(Vars(0, 0, 0, 0, 0, 0, 0, 0, 0, 0, 0, 0), s) == s
  {
  }

  lemma LongReference(msg: seq<byte>)
    requires |msg| == 192 && Words(msg[0..96]) == BLOCK_0 && Words(msg[96..192]) == BLOCK_1
    ensures Hash128(msg, 0, 0) == (0x246e_d6ee_77e0_12bd, 0xd3ae_ed22_6839_e477)
  {
    hide Mix, EndPartial, AddBlock, Words, Padded;
    assert msg[192..] == [];
    EmptyRest();
    Block0Mixed();
    Block1Mixed();
    Round1Ended();
    Round2Ended();
    Round3Ended();
    NothingAdded(MIXED_2);
    assert MixBlocks(msg, 0, START) == START;
    assert MixBlocks(msg, 1, START) == MIXED_1;
    assert MixBlocks(msg, 2, START) == MIXED_2;
  }

  lemma EmptyRest()
    ensures Words(Padded([])) == Vars(0, 0, 0, 0, 0, 0, 0, 0, 0, 0, 0, 0)
  {
    hide Word;
    var b := Padded([]);
    assert forall i :: 0 <= i < 96 ==> b[i] == 0;
    ZeroWord(b[0..8]);
    ZeroWord(b[8..16]);
    ZeroWord(b[16..24]);
    ZeroWord(b[24..32]);
    ZeroWord(b[32..40]);
    ZeroWord(b[40..48]);
    ZeroWord(b[48..56]);
    ZeroWord(b[56..64]);
    ZeroWord(b[64..72]);
    ZeroWord(b[72..80]);
    ZeroWord(b[80..88]);
    ZeroWord(b[88..96]);
  }

  lemma ZeroWord(b: seq<byte>)
    requires |b| == 8 && forall i :: 0 <= i < 8 ==> b[i] == 0
    ensures Word(b) == 0
  {
  }
}
