/** Values of the generator, as literals: what its words and constants come to, apart from the formulas. */
module MersenneValues {
  import opened MersenneWords
  import opened MersenneTwister

  // ----- tempering -----

  /** Tempering is linear over exclusive or, so that it is determined by the 64 single bits. */
  lemma TemperLinear(a: bv64, b: bv64)
    ensures Temper(Xor(a, b)) == Xor(Temper(a), Temper(b))
  {
    hide Xor, L1, L2, L3, L4;
    var a1, b1 := Xor(a, L1(a)), Xor(b, L1(b));
    var a2, b2 := Xor(a1, L2(a1)), Xor(b1, L2(b1));
    var a3, b3 := Xor(a2, L3(a2)), Xor(b2, L3(b2));
    L1Linear(a, b);
    XorPairs(a, b, L1(a), L1(b));
    L2Linear(a1, b1);
    XorPairs(a1, b1, L2(a1), L2(b1));
    L3Linear(a2, b2);
    XorPairs(a2, b2, L3(a2), L3(b2));
    L4Linear(a3, b3);
    XorPairs(a3, b3, L4(a3), L4(b3));
  }

  lemma XorPairs(a: bv64, b: bv64, c: bv64, d: bv64)
    ensures Xor(Xor(a, b), Xor(c, d)) == Xor(Xor(a, c), Xor(b, d))
  {
    hide Xor;
    XorAssoc(a, b, Xor(c, d));
    XorAssoc(b, c, d);
    XorSwap(b, c);
    XorAssoc(c, b, d);
    XorAssoc(a, c, Xor(b, d));
  }

  lemma XorIs(a: bv64, b: bv64)
    ensures Xor(a, b) == a ^ b
  {
  }

  lemma XorAssocRaw(a: bv64, b: bv64, c: bv64)
    ensures Xor(a ^ b, c) == Xor(a, b ^ c)
  {
  }

  lemma XorAssoc(a: bv64, b: bv64, c: bv64)
    ensures Xor(Xor(a, b), c) == Xor(a, Xor(b, c))
  {
    hide Xor;
    XorIs(a, b);
    XorIs(b, c);
    XorAssocRaw(a, b, c);
  }

  lemma TemperBits0()
    ensures Temper(0x1) == 0x40_0020_0002_0801
    ensures Temper(0x2) == 0x80_0040_0004_1002
    ensures Temper(0x4) == 0x80_0000_0004
    ensures Temper(0x8) == 0x8
    ensures Temper(0x10) == 0x400_0200_0020_8010
    ensures Temper(0x20) == 0x400_0000_0020
    ensures Temper(0x40) == 0x1000_0800_0082_0041
    ensures Temper(0x80) == 0x2000_0000_0104_0080
    ensures Temper(0x100) == 0x2000_0000_0104
    ensures Temper(0x200) == 0x8000_4000_0410_0208
    ensures Temper(0x400) == 0x8000_0800_0410
    ensures Temper(0x800) == 0x1_0000_0000_0820
    ensures Temper(0x1000) == 0x2_0000_2000_1040
    ensures Temper(0x2000) == 0x4_0000_4000_2080
    ensures Temper(0x4000) == 0x8000_4000
    ensures Temper(0x8000) == 0x10_0001_0000_8200
  {
  }

  lemma TemperBits16()
    ensures Temper(0x1_0000) == 0x20_0002_0001_0400
    ensures Temper(0x2_0000) == 0x40_0004_0002_0800
    ensures Temper(0x4_0000) == 0x80_0008_0004_1000
    ensures Temper(0x8_0000) == 0x100_0010_0008_2000
    ensures Temper(0x10_0000) == 0x200_0020_0010_4000
    ensures Temper(0x20_0000) == 0x400_0040_0020_8000
    ensures Temper(0x40_0000) == 0x800_0080_0041_0000
    ensures Temper(0x80_0000) == 0x1000_0100_0082_0000
    ensures Temper(0x100_0000) == 0x2000_0200_0104_0000
    ensures Temper(0x200_0000) == 0x4000_0400_0208_0000
    ensures Temper(0x400_0000) == 0x8000_0800_0410_0001
    ensures Temper(0x800_0000) == 0x1000_0800_0002
    ensures Temper(0x1000_0000) == 0x2000_1000_0004
    ensures Temper(0x2000_0000) == 0x40_4020_2002_0809
    ensures Temper(0x4000_0000) == 0x4000_0000
    ensures Temper(0x8000_0000) == 0x80_8000_0004
  {
  }

  lemma TemperBits32()
    ensures Temper(0x1_0000_0000) == 0x2_0001_0000_0040
    ensures Temper(0x2_0000_0000) == 0x404_0202_0020_8090
    ensures Temper(0x4_0000_0000) == 0x4_0000_0000
    ensures Temper(0x8_0000_0000) == 0x1010_0808_0082_0241
    ensures Temper(0x10_0000_0000) == 0x10_0000_0000
    ensures Temper(0x20_0000_0000) == 0x40_2020_0000_0904
    ensures Temper(0x40_0000_0000) == 0x80_0040_0000_1000
    ensures Temper(0x80_0000_0000) == 0x100_8080_0800_2410
    ensures Temper(0x100_0000_0000) == 0x100_0000_0000
    ensures Temper(0x200_0000_0000) == 0x2_0200_2000_1040
    ensures Temper(0x400_0000_0000) == 0x400_0000_0000
    ensures Temper(0x800_0000_0000) == 0x1000_0800_8002_4001
    ensures Temper(0x1000_0000_0000) == 0x2000_1000_0004_0002
    ensures Temper(0x2000_0000_0000) == 0x4020_2002_0009_0404
    ensures Temper(0x4000_0000_0000) == 0x4000_0000_0008
    ensures Temper(0x8000_0000_0000) == 0x80_8008_0004_1010
  {
  }

  lemma TemperBits48()
    ensures Temper(0x1_0000_0000_0000) == 0x1_0000_0000_0020
    ensures Temper(0x2_0000_0000_0000) == 0x202_0020_0010_4040
    ensures Temper(0x4_0000_0000_0000) == 0x4_0000_0000_0080
    ensures Temper(0x8_0000_0000_0000) == 0x808_0080_0041_0100
    ensures Temper(0x10_0000_0000_0000) == 0x10_0000_0000_0200
    ensures Temper(0x20_0000_0000_0000) == 0x2020_0200_0104_0400
    ensures Temper(0x40_0000_0000_0000) == 0x40_0000_0000_0800
    ensures Temper(0x80_0000_0000_0000) == 0x8080_0800_0410_1001
    ensures Temper(0x100_0000_0000_0000) == 0x100_0000_0000_2000
    ensures Temper(0x200_0000_0000_0000) == 0x200_2000_1000_4004
    ensures Temper(0x400_0000_0000_0000) == 0x400_0000_0000_8000
    ensures Temper(0x800_0000_0000_0000) == 0x800_0000_4001_0000
    ensures Temper(0x1000_0000_0000_0000) == 0x1000_0000_0002_0000
    ensures Temper(0x2000_0000_0000_0000) == 0x2002_0001_0004_0040
    ensures Temper(0x4000_0000_0000_0000) == 0x4000_0000_0008_0000
    ensures Temper(0x8000_0000_0000_0000) == 0x8000_0004_0010_0000
  {
  }

  // ----- the recurrence -----

  /** The twist is linear; it halves an even word and gives 1 the constant. */
  lemma TwistLaws(x: bv64)
    ensures x & 1 == 0 ==> Twist(x) + Twist(x) == x && Twist(x) < 0x8000_0000_0000_0000
    ensures x & 1 == 1 ==> Twist(x) == Xor(Twist(x - 1), 0xB502_6F5A_A966_19E9)
  {
  }

  /** The upper 33 bits of one word and the lower 31 of another, by shifts. */
  lemma MixIs(a: bv64, b: bv64)
    ensures Mix(a, b) == (a >> 31 << 31) + (b << 33 >> 33)
  {
  }

  // ----- seeding -----

  /** Folding takes the two highest bits down to the two lowest. */
  lemma FoldValues()
    ensures Fold(0x3FFF_FFFF_FFFF_FFFF) == 0x3FFF_FFFF_FFFF_FFFF
    ensures Fold(0x4000_0000_0000_0000) == 0x4000_0000_0000_0001
    ensures Fold(0x8000_0000_0000_0000) == 0x8000_0000_0000_0002
    ensures Fold(0xC000_0000_0000_0003) == 0xC000_0000_0000_0000
  {
  }

  /** One step of every seeding loop on single words. */
  lemma StepValues()
    ensures SeedStep(1, 0) == 6364136223846793005 && SeedStep(0, 7) == 7
    ensures KeyWord(0, 1, 0, 0) == 3935559000370003845 && KeyWord(5, 0, 2, 3) == 10
    ensures MixWord(0, 1, 0) == 2862933555777941757 && MixWord(5, 0, 3) == 2
    ensures SeedStep(0x8000_0000_0000_0001, 7) == 9869036634685603214
    ensures KeyWord(0xFFFF_FFFF_FFFF_FFFF, 0x8000_0000_0000_0001, 10, 20) == 15863439109454315918
    ensures MixWord(0xFFFF_FFFF_FFFF_FFFF, 0x8000_0000_0000_0001, 20) == 634571369520950516
  {
  }

  lemma Seed(i: nat, prev: bv64, w: bv64)
    requires 1 <= i < NN && SeedWord(5489, i - 1) == prev && SeedStep(prev, Index(i)) == w
    ensures SeedWord(5489, i) == w
  {
  }

  lemma Seeds12()
    ensures SeedWord(5489, 0) == 0x1571
    ensures SeedWord(5489, 1) == 0xB534_7F47_116B_D3DE
    ensures SeedWord(5489, 2) == 0x9165_B576_2D1A_61AE
    ensures SeedWord(5489, 3) == 0xD139_B6BB_ED33_7F3F
    ensures SeedWord(5489, 12) == 0xFA4F_68BA_D184_4133
  {
    assert SeedWord(5489, 0) == 5489;
    Seed(1, 5489, 0xB534_7F47_116B_D3DE);
    Seed(2, 0xB534_7F47_116B_D3DE, 0x9165_B576_2D1A_61AE);
    Seed(3, 0x9165_B576_2D1A_61AE, 0xD139_B6BB_ED33_7F3F);
    Seed(4, 0xD139_B6BB_ED33_7F3F, 0x37E7_4000_1C18_2190);
    Seed(5, 0x37E7_4000_1C18_2190, 0xE398_F847_31B4_5655);
    Seed(6, 0xE398_F847_31B4_5655, 0x973_92E1_FB95_D724);
    Seed(7, 0x973_92E1_FB95_D724, 0x102F_F8F1_7705_AD5B);
    Seed(8, 0x102F_F8F1_7705_AD5B, 0xAFD3_B741_A6F6_9E07);
    Seed(9, 0xAFD3_B741_A6F6_9E07, 0x3673_B7B3_26A7_41EA);
    Seed(10, 0x3673_B7B3_26A7_41EA, 0x967B_EFB7_9A4B_AC2C);
    Seed(11, 0x967B_EFB7_9A4B_AC2C, 0x8157_9A10_887E_1621);
    Seed(12, 0x8157_9A10_887E_1621, 0xFA4F_68BA_D184_4133);
  }

  lemma Seeds24()
    requires SeedWord(5489, 12) == 0xFA4F_68BA_D184_4133
    ensures SeedWord(5489, 24) == 0xA47F_692D_8D65_996A
  {
    Seed(13, 0xFA4F_68BA_D184_4133, 0xD26A_818B_A186_457D);
    Seed(14, 0xD26A_818B_A186_457D, 0x58EA_399A_DB69_B934);
    Seed(15, 0x58EA_399A_DB69_B934, 0x7BE6_1CE7_8C4F_D960);
    Seed(16, 0x7BE6_1CE7_8C4F_D960, 0x6520_FC5E_9855_551D);
    Seed(17, 0x6520_FC5E_9855_551D, 0xC641_EF0D_F584_D9FD);
    Seed(18, 0xC641_EF0D_F584_D9FD, 0xE8B0_B2F1_5955_53B8);
    Seed(19, 0xE8B0_B2F1_5955_53B8, 0x2ACC_7722_4860_7CF2);
    Seed(20, 0x2ACC_7722_4860_7CF2, 0xE21A_56B9_27CC_049E);
    Seed(21, 0xE21A_56B9_27CC_049E, 0x222B_4800_8087_B2AE);
    Seed(22, 0x222B_4800_8087_B2AE, 0xCFFD_4076_90C4_BAAC);
    Seed(23, 0xCFFD_4076_90C4_BAAC, 0x185E_6D58_A70C_A1DA);
    Seed(24, 0x185E_6D58_A70C_A1DA, 0xA47F_692D_8D65_996A);
  }

  lemma Seeds36()
    requires SeedWord(5489, 24) == 0xA47F_692D_8D65_996A
    ensures SeedWord(5489, 36) == 0x395_59F1_08AA_B7DC
  {
    Seed(25, 0xA47F_692D_8D65_996A, 0xD80B_A31C_6B7E_8F61);
    Seed(26, 0xD80B_A31C_6B7E_8F61, 0xB355_84C7_3A6A_D254);
    Seed(27, 0xB355_84C7_3A6A_D254, 0x92AA_D4BC_372D_A339);
    Seed(28, 0x92AA_D4BC_372D_A339, 0x59C3_5BD9_DC56_F67B);
    Seed(29, 0x59C3_5BD9_DC56_F67B, 0x5FEE_E4D6_8C91_D98F);
    Seed(30, 0x5FEE_E4D6_8C91_D98F, 0xA20C_5CE2_D836_B014);
    Seed(31, 0xA20C_5CE2_D836_B014, 0x6EE0_DD1C_27C5_DDFD);
    Seed(32, 0x6EE0_DD1C_27C5_DDFD, 0x8A81_EF0B_2A94_096C);
    Seed(33, 0x8A81_EF0B_2A94_096C, 0xA161_CA62_11B9_3A77);
    Seed(34, 0xA161_CA62_11B9_3A77, 0x2A3A_52C2_C3A8_51B3);
    Seed(35, 0x2A3A_52C2_C3A8_51B3, 0x8CD8_FCFC_964D_299A);
    Seed(36, 0x8CD8_FCFC_964D_299A, 0x395_59F1_08AA_B7DC);
  }

  lemma Seeds48()
    requires SeedWord(5489, 36) == 0x395_59F1_08AA_B7DC
    ensures SeedWord(5489, 48) == 0x2F7_75D6_534B_CC86
  {
    Seed(37, 0x395_59F1_08AA_B7DC, 0xAA98_1E49_8A44_75D1);
    Seed(38, 0xAA98_1E49_8A44_75D1, 0x47B6_6D6F_7C4B_633D);
    Seed(39, 0x47B6_6D6F_7C4B_633D, 0x9FF6_E624_D167_35B3);
    Seed(40, 0x9FF6_E624_D167_35B3, 0x7F7D_617A_CECC_3F45);
    Seed(41, 0x7F7D_617A_CECC_3F45, 0x38FC_FDCA_AFDD_DB1D);
    Seed(42, 0x38FC_FDCA_AFDD_DB1D, 0x1492_8B26_1D93_E743);
    Seed(43, 0x1492_8B26_1D93_E743, 0xFE60_00E4_10B8_E3F2);
    Seed(44, 0xFE60_00E4_10B8_E3F2, 0xB208_B107_E0D9_A089);
    Seed(45, 0xB208_B107_E0D9_A089, 0x82F1_35B1_31CD_2D9C);
    Seed(46, 0x82F1_35B1_31CD_2D9C, 0x987D_DA96_FFA8_66F4);
    Seed(47, 0x987D_DA96_FFA8_66F4, 0xE1EB_B232_70DC_236D);
    Seed(48, 0xE1EB_B232_70DC_236D, 0x2F7_75D6_534B_CC86);
  }

  lemma Seeds60()
    requires SeedWord(5489, 48) == 0x2F7_75D6_534B_CC86
    ensures SeedWord(5489, 60) == 0x3E32_761E_6D7F_A19A
  {
    Seed(49, 0x2F7_75D6_534B_CC86, 0x2916_B163_10C7_6DBF);
    Seed(50, 0x2916_B163_10C7_6DBF, 0x8BB8_A2F7_76AB_0BC5);
    Seed(51, 0x8BB8_A2F7_76AB_0BC5, 0x7ED2_0066_A5BB_CB2E);
    Seed(52, 0x7ED2_0066_A5BB_CB2E, 0xBF99_B825_822A_0877);
    Seed(53, 0xBF99_B825_822A_0877, 0x1751_37B5_63AE_87C6);
    Seed(54, 0x1751_37B5_63AE_87C6, 0x8ED1_3207_E947_1804);
    Seed(55, 0x8ED1_3207_E947_1804, 0xC8BE_8AAF_09E8_3345);
    Seed(56, 0xC8BE_8AAF_09E8_3345, 0xD6F2_A55B_8EFE_BD86);
    Seed(57, 0xD6F2_A55B_8EFE_BD86, 0x33EC_6BF1_4D35_4B9A);
    Seed(58, 0x33EC_6BF1_4D35_4B9A, 0x1AA0_8340_BB81_B04C);
    Seed(59, 0x1AA0_8340_BB81_B04C, 0x658C_3F94_787D_B197);
    Seed(60, 0x658C_3F94_787D_B197, 0x3E32_761E_6D7F_A19A);
  }

  lemma Seeds72()
    requires SeedWord(5489, 60) == 0x3E32_761E_6D7F_A19A
    ensures SeedWord(5489, 72) == 0x6964_FFBB_3FAC_2348
  {
    Seed(61, 0x3E32_761E_6D7F_A19A, 0xB6DF_AB00_573C_CE4F);
    Seed(62, 0xB6DF_AB00_573C_CE4F, 0xC4ED_B582_6ED9_76C7);
    Seed(63, 0xC4ED_B582_6ED9_76C7, 0x9E18_6133_AE39_1CB3);
    Seed(64, 0x9E18_6133_AE39_1CB3, 0xC8B2_D463_344A_DA5D);
    Seed(65, 0xC8B2_D463_344A_DA5D, 0x118_2F4C_5433_04C7);
    Seed(66, 0x118_2F4C_5433_04C7, 0xB99F_D847_F829_903D);
    Seed(67, 0xB99F_D847_F829_903D, 0xB5AD_E6D9_E688_9C56);
    Seed(68, 0xB5AD_E6D9_E688_9C56, 0x53F2_F45B_3875_2708);
    Seed(69, 0x53F2_F45B_3875_2708, 0x9E6E_4966_6F32_53DA);
    Seed(70, 0x9E6E_4966_6F32_53DA, 0xFC88_FE52_7028_E53E);
    Seed(71, 0xFC88_FE52_7028_E53E, 0xB82_75B6_896A_8F00);
    Seed(72, 0xB82_75B6_896A_8F00, 0x6964_FFBB_3FAC_2348);
  }

  lemma Seeds84()
    requires SeedWord(5489, 72) == 0x6964_FFBB_3FAC_2348
    ensures SeedWord(5489, 84) == 0xCAC9_4920_3374_B6D9
  {
    Seed(73, 0x6964_FFBB_3FAC_2348, 0x957E_C9FF_CC40_6B1E);
    Seed(74, 0x957E_C9FF_CC40_6B1E, 0x8149_ED81_83C1_B836);
    Seed(75, 0x8149_ED81_83C1_B836, 0xB64_23B4_E9B3_2D6F);
    Seed(76, 0xB64_23B4_E9B3_2D6F, 0x8FEA_0606_5DA4_0DCF);
    Seed(77, 0x8FEA_0606_5DA4_0DCF, 0x737C_3D30_BD00_2056);
    Seed(78, 0x737C_3D30_BD00_2056, 0x800B_954B_EFB3_D899);
    Seed(79, 0x800B_954B_EFB3_D899, 0xF91_A17D_7148_F88E);
    Seed(80, 0xF91_A17D_7148_F88E, 0x2304_4078_EFC8_2346);
    Seed(81, 0x2304_4078_EFC8_2346, 0xD241_3979_BF6B_ED9F);
    Seed(82, 0xD241_3979_BF6B_ED9F, 0x3C78_6924_CCA5_28BE);
    Seed(83, 0x3C78_6924_CCA5_28BE, 0x147B_229D_06D4_6BB9);
    Seed(84, 0x147B_229D_06D4_6BB9, 0xCAC9_4920_3374_B6D9);
  }

  lemma Seeds96()
    requires SeedWord(5489, 84) == 0xCAC9_4920_3374_B6D9
    ensures SeedWord(5489, 96) == 0x19C0_9AAF_AEC3_6123
  {
    Seed(85, 0xCAC9_4920_3374_B6D9, 0xB473_59B9_171C_4AA7);
    Seed(86, 0xB473_59B9_171C_4AA7, 0x7AB3_D4A1_8709_FA57);
    Seed(87, 0x7AB3_D4A1_8709_FA57, 0x82C4_0AA0_EBFF_AB75);
    Seed(88, 0x82C4_0AA0_EBFF_AB75, 0x877A_85FE_7244_2D43);
    Seed(89, 0x877A_85FE_7244_2D43, 0xDAB6_6FF4_8B44_33C6);
    Seed(90, 0xDAB6_6FF4_8B44_33C6, 0x4BF3_2AC4_EE54_D4FB);
    Seed(91, 0x4BF3_2AC4_EE54_D4FB, 0x6A57_D566_2813_764D);
    Seed(92, 0x6A57_D566_2813_764D, 0xF2E1_86A5_1D57_7FB8);
    Seed(93, 0xF2E1_86A5_1D57_7FB8, 0x368B_524C_6C96_393C);
    Seed(94, 0x368B_524C_6C96_393C, 0x4BFA_6D46_BCB8_D3EA);
    Seed(95, 0x4BFA_6D46_BCB8_D3EA, 0x5D42_3FDA_F965_D5AE);
    Seed(96, 0x5D42_3FDA_F965_D5AE, 0x19C0_9AAF_AEC3_6123);
  }

  lemma Seeds108()
    requires SeedWord(5489, 96) == 0x19C0_9AAF_AEC3_6123
    ensures SeedWord(5489, 108) == 0x113C_84A0_F5AC_E65F
  {
    Seed(97, 0x19C0_9AAF_AEC3_6123, 0xF8BB_8049_92E7_7088);
    Seed(98, 0xF8BB_8049_92E7_7088, 0xDF7_875C_686A_BDD1);
    Seed(99, 0xDF7_875C_686A_BDD1, 0x7741_AB42_D593_0D20);
    Seed(100, 0x7741_AB42_D593_0D20, 0x429C_FBFC_EE91_AE31);
    Seed(101, 0x429C_FBFC_EE91_AE31, 0xBE76_3EC0_D6F5_6ED5);
    Seed(102, 0xBE76_3EC0_D6F5_6ED5, 0x9AC9_1415_E244_2531);
    Seed(103, 0x9AC9_1415_E244_2531, 0x2CCA_75C4_5F1D_D75E);
    Seed(104, 0x2CCA_75C4_5F1D_D75E, 0xC5CD_CA88_C7CC_7DEE);
    Seed(105, 0xC5CD_CA88_C7CC_7DEE, 0xB088_7B3A_385B_B612);
    Seed(106, 0xB088_7B3A_385B_B612, 0x2B73_D36F_1EC0_F13A);
    Seed(107, 0x2B73_D36F_1EC0_F13A, 0xB73E_27E5_BE58_2D9D);
    Seed(108, 0xB73E_27E5_BE58_2D9D, 0x113C_84A0_F5AC_E65F);
  }

  lemma Seeds120()
    requires SeedWord(5489, 108) == 0x113C_84A0_F5AC_E65F
    ensures SeedWord(5489, 120) == 0x8B1F_37B4_EDED_B9A3
  {
    Seed(109, 0x113C_84A0_F5AC_E65F, 0x8F13_86E5_3EF8_A020);
    Seed(110, 0x8F13_86E5_3EF8_A020, 0xCD90_74C2_B4EF_0468);
    Seed(111, 0xCD90_74C2_B4EF_0468, 0x5B70_2538_B77B_DC3E);
    Seed(112, 0x5B70_2538_B77B_DC3E, 0xDC4A_018B_97B3_F883);
    Seed(113, 0xDC4A_018B_97B3_F883, 0x9B0B_EDD1_956A_2EF1);
    Seed(114, 0x9B0B_EDD1_956A_2EF1, 0xAAB8_206B_6863_CE29);
    Seed(115, 0xAAB8_206B_6863_CE29, 0x999B_9885_9FD9_9302);
    Seed(116, 0x999B_9885_9FD9_9302, 0x9E99_9210_982B_D774);
    Seed(117, 0x9E99_9210_982B_D774, 0x46B1_D5A1_EF46_6A33);
    Seed(118, 0x46B1_D5A1_EF46_6A33, 0x6F1_6177_A529_7940);
    Seed(119, 0x6F1_6177_A529_7940, 0x248F_3E5A_2DB1_10B7);
    Seed(120, 0x248F_3E5A_2DB1_10B7, 0x8B1F_37B4_EDED_B9A3);
  }

  lemma Seeds132()
    requires SeedWord(5489, 120) == 0x8B1F_37B4_EDED_B9A3
    ensures SeedWord(5489, 132) == 0x9D78_E605_C21D_8C92
  {
    Seed(121, 0x8B1F_37B4_EDED_B9A3, 0x8FB8_B09C_9895_80C6);
    Seed(122, 0x8FB8_B09C_9895_80C6, 0x9A8C_5EEB_1F3C_DEEE);
    Seed(123, 0x9A8C_5EEB_1F3C_DEEE, 0x4BA_B3EB_7FA6_43F7);
    Seed(124, 0x4BA_B3EB_7FA6_43F7, 0x6832_7B16_CEB4_7BE7);
    Seed(125, 0x6832_7B16_CEB4_7BE7, 0x652A_D6D0_440E_E1EB);
    Seed(126, 0x652A_D6D0_440E_E1EB, 0xF57F_DA3C_4DE2_CCA0);
    Seed(127, 0xF57F_DA3C_4DE2_CCA0, 0x2472_45A5_B341_D626);
    Seed(128, 0x2472_45A5_B341_D626, 0xE801_2FA1_17ED_7F2E);
    Seed(129, 0xE801_2FA1_17ED_7F2E, 0x31E6_F815_6807_AE6A);
    Seed(130, 0x31E6_F815_6807_AE6A, 0x5524_BF41_1492_3F24);
    Seed(131, 0x5524_BF41_1492_3F24, 0x89EC_A903_E791_7504);
    Seed(132, 0x89EC_A903_E791_7504, 0x9D78_E605_C21D_8C92);
  }

  lemma Seeds144()
    requires SeedWord(5489, 132) == 0x9D78_E605_C21D_8C92
    ensures SeedWord(5489, 144) == 0xBE96_84A2_E7E5_2114
  {
    Seed(133, 0x9D78_E605_C21D_8C92, 0x8213_008D_57BD_25D5);
    Seed(134, 0x8213_008D_57BD_25D5, 0x2845_027D_1C28_5051);
    Seed(135, 0x2845_027D_1C28_5051, 0x88CF_2E81_BE13_4DC4);
    Seed(136, 0x88CF_2E81_BE13_4DC4, 0xE59A_4A3B_0937_E656);
    Seed(137, 0xE59A_4A3B_0937_E656, 0xA14C_CCCE_A590_A87A);
    Seed(138, 0xA14C_CCCE_A590_A87A, 0x8A7F_D0C3_8BD9_25A2);
    Seed(139, 0x8A7F_D0C3_8BD9_25A2, 0xC505_AE6E_B4F5_FDAB);
    Seed(140, 0xC505_AE6E_B4F5_FDAB, 0x1EDA_A63E_5ADB_EF14);
    Seed(141, 0x1EDA_A63E_5ADB_EF14, 0x4808_6B89_2AE7_F311);
    Seed(142, 0x4808_6B89_2AE7_F311, 0x2CE7_C25E_D4AA_AA5E);
    Seed(143, 0x2CE7_C25E_D4AA_AA5E, 0x6A9E_329B_1D3A_9515);
    Seed(144, 0x6A9E_329B_1D3A_9515, 0xBE96_84A2_E7E5_2114);
  }

  lemma Seeds156()
    requires SeedWord(5489, 144) == 0xBE96_84A2_E7E5_2114
    ensures SeedWord(5489, 156) == 0x245B_1C66_FA08_2BFF
  {
    Seed(145, 0xBE96_84A2_E7E5_2114, 0xEAB0_E8BA_387E_BB6F);
    Seed(146, 0xEAB0_E8BA_387E_BB6F, 0xE7CB_AE25_F31D_868E);
    Seed(147, 0xE7CB_AE25_F31D_868E, 0x5581_BF31_8E01_9A5C);
    Seed(148, 0x5581_BF31_8E01_9A5C, 0xB07E_1844_35FD_45ED);
    Seed(149, 0xB07E_1844_35FD_45ED, 0x20BA_CEF5_CB51_DC98);
    Seed(150, 0x20BA_CEF5_CB51_DC98, 0xAAAA_9BEC_DE4B_2F4E);
    Seed(151, 0xAAAA_9BEC_DE4B_2F4E, 0x898B_5F13_76EA_04F3);
    Seed(152, 0x898B_5F13_76EA_04F3, 0xCB65_A073_6BDB_6DF5);
    Seed(153, 0xCB65_A073_6BDB_6DF5, 0x47E0_2E65_D94D_5ED7);
    Seed(154, 0x47E0_2E65_D94D_5ED7, 0x99EA_C482_4F33_D638);
    Seed(155, 0x99EA_C482_4F33_D638, 0xA1C2_9D29_8B25_6ECD);
    Seed(156, 0xA1C2_9D29_8B25_6ECD, 0x245B_1C66_FA08_2BFF);
  }

  lemma Seeds158()
    requires SeedWord(5489, 156) == 0x245B_1C66_FA08_2BFF
    ensures SeedWord(5489, 157) == 0x252_CFC8_50AE_3D70
    ensures SeedWord(5489, 158) == 0x16CD_2293_A14B_5D4E
  {
    Seed(157, 0x245B_1C66_FA08_2BFF, 0x252_CFC8_50AE_3D70);
    Seed(158, 0x252_CFC8_50AE_3D70, 0x16CD_2293_A14B_5D4E);
  }

  /** The seeded words that the first three outputs are made of. */
  lemma SeedWords()
    ensures SeedWord(5489, 0) == 0x1571
    ensures SeedWord(5489, 1) == 0xB534_7F47_116B_D3DE
    ensures SeedWord(5489, 2) == 0x9165_B576_2D1A_61AE
    ensures SeedWord(5489, 3) == 0xD139_B6BB_ED33_7F3F
    ensures SeedWord(5489, 156) == 0x245B_1C66_FA08_2BFF
    ensures SeedWord(5489, 157) == 0x252_CFC8_50AE_3D70
    ensures SeedWord(5489, 158) == 0x16CD_2293_A14B_5D4E
  {
    hide SeedWord;
    Seeds12();
    Seeds24();
    Seeds36();
    Seeds48();
    Seeds60();
    Seeds72();
    Seeds84();
    Seeds96();
    Seeds108();
    Seeds120();
    Seeds132();
    Seeds144();
    Seeds156();
    Seeds158();
  }

  /** ... and the three words that follow the seeded ones. */
  lemma NextWords()
    ensures X(SeededState(5489), 312) == 0x245B_1C66_F2BD_C210
    ensures X(SeededState(5489), 313) == 0x58C8_F06B_C623_0DA7
    ensures X(SeededState(5489), 314) == 0xEB7D_9772_3EB4_FB38
  {
    hide X, SeedWord, SeededState, Xor, Twist, Mix;
    var s := SeededState(5489);
    SeedWords();
    MixedWords();
    forall k | k in [0, 1, 2, 3, 156, 157, 158]
      ensures X(s, k) == SeedWord(5489, k)
    {
      SeededX(5489, k);
    }
    Recur(s, 0, 0x1571, 0xB534_7F47_116B_D3DE, 0x245B_1C66_FA08_2BFF);
    Recur(s, 1, 0xB534_7F47_116B_D3DE, 0x9165_B576_2D1A_61AE, 0x252_CFC8_50AE_3D70);
    Recur(s, 2, 0x9165_B576_2D1A_61AE, 0xD139_B6BB_ED33_7F3F, 0x16CD_2293_A14B_5D4E);
  }

  lemma MixedWords()
    ensures Xor(0x245B_1C66_FA08_2BFF, Twist(Mix(0x1571, 0xB534_7F47_116B_D3DE)))
         == 0x245B_1C66_F2BD_C210
    ensures Xor(0x252_CFC8_50AE_3D70, Twist(Mix(0xB534_7F47_116B_D3DE, 0x9165_B576_2D1A_61AE)))
         == 0x58C8_F06B_C623_0DA7
    ensures Xor(0x16CD_2293_A14B_5D4E, Twist(Mix(0x9165_B576_2D1A_61AE, 0xD139_B6BB_ED33_7F3F)))
         == 0xEB7D_9772_3EB4_FB38
  {
  }

  lemma SeededX(seed: bv64, k: nat)
    requires k < NN
    ensures X(SeededState(seed), k) == SeedWord(seed, k)
  {
    hide SeedWord;
  }

  lemma Recur(s: seq<bv64>, j: nat, a: bv64, b: bv64, c: bv64)
    requires |s| == NN && X(s, j) == a && X(s, j + 1) == b && X(s, j + MM) == c
    ensures X(s, j + NN) == Xor(c, Twist(Mix(a, b)))
  {
    hide X;
    XStep(s, j);
  }

  /** The first three numbers of a generator that was never seeded. */
  method FirstNumbers() returns (a: bv64, b: bv64, c: bv64)
    ensures a == 14514284786278117030 && b == 4620546740167642908 && c == 13109570281517897720
  {
    hide X, SeededState;
    NextWords();
    assert Temper(0x245B_1C66_F2BD_C210) == 14514284786278117030;
    assert Temper(0x58C8_F06B_C623_0DA7) == 4620546740167642908;
    assert Temper(0xEB7D_9772_3EB4_FB38) == 13109570281517897720;
    hide Temper;
    var g := new Generator();
    a := g.Genrand64();
    b := g.Genrand64();
    c := g.Genrand64();
  }
}
