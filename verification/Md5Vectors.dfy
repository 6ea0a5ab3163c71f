/** The digests of section A.5 of RFC 1321 whose messages fit in one block, step by step. */
module Md5Vectors {
  import opened Md5Compress
  import opened Md5Spec
  import opened Md5Words

  /** One step with all its intermediate words given. */
  lemma StepBy(i: nat, st: State, x: seq<word>, f: word, xk: word, sum: word, turned: word)
    requires |x| == 16 && Aux(i, st.b, st.c, st.d) == f && x[WordIndex(i)] == xk
    requires Sum(st.a, f, xk, Sine(i)) == sum && CircularShift(sum, Shift(i)) == turned
    ensures Step(i, st, x) == State(st.d, Plus(st.b, turned), st.b, st.c)
  {
    hide Aux, Sum, Sine, CircularShift, Shift, Plus, WordIndex;
  }

  const EMPTY_WORDS: seq<word> := [0x00000080, 0, 0, 0, 0, 0, 0, 0, 0, 0, 0, 0, 0, 0, 0, 0]

  lemma Empty00()
    ensures Steps(0, 4, State(0x67452301, 0xEFCDAB89, 0x98BADCFE, 0x10325476), EMPTY_WORDS)
         == State(0xA5202774, 0x1B163203, 0xE7F06B23, 0xF59592DD)
  {
    hide Steps, Step;
    TableOne();
    hide WordIndex, Shift, Sine;
    StepBy(0, State(0x67452301, 0xEFCDAB89, 0x98BADCFE, 0x10325476), EMPTY_WORDS, 0x98BADCFE, 0x00000080,
           0xD76AA4F7, 0xB5527BEB);
    StepBy(1, State(0x10325476, 0xA5202774, 0xEFCDAB89, 0x98BADCFE), EMPTY_WORDS, 0xBD9AFB8A, 0, 0xB6950756, 0x50756B69);
    StepBy(2, State(0x98BADCFE, 0xF59592DD, 0xA5202774, 0xEFCDAB89), EMPTY_WORDS, 0xAF482B54, 0, 0x6C23792D, 0xF25AD846);
    StepBy(3, State(0xEFCDAB89, 0xE7F06B23, 0xF59592DD, 0xA5202774), EMPTY_WORDS, 0xE5900655, 0, 0x971B80CC, 0x3325C6E0);
    FourSteps(0, State(0x67452301, 0xEFCDAB89, 0x98BADCFE, 0x10325476), EMPTY_WORDS);
  }

  lemma Empty04()
    ensures Steps(4, 8, State(0xA5202774, 0x1B163203, 0xE7F06B23, 0xF59592DD), EMPTY_WORDS)
         == State(0x32033344, 0x9BC13CE9, 0xF5B158DB, 0x2F35D494)
  {
    hide Steps, Step;
    TableOne();
    hide WordIndex, Shift, Sine;
    StepBy(4, State(0xA5202774, 0x1B163203, 0xE7F06B23, 0xF59592DD), EMPTY_WORDS, 0xE791A2DF, 0, 0x822DDA02, 0x16ED0141);
    StepBy(5, State(0xF59592DD, 0x32033344, 0x1B163203, 0xE7F06B23), EMPTY_WORDS, 0xD7F27A23, 0, 0x150FD32A, 0xFD32A150);
    StepBy(6, State(0xE7F06B23, 0x2F35D494, 0x32033344, 0x1B163203), EMPTY_WORDS, 0x32033207, 0, 0xC223E33D, 0xC67B8447);
    StepBy(7, State(0x1B163203, 0xF5B158DB, 0x2F35D494, 0x32033344), EMPTY_WORDS, 0x27337394, 0, 0x3F903A98, 0xA60FE40E);
    FourSteps(4, State(0xA5202774, 0x1B163203, 0xE7F06B23, 0xF59592DD), EMPTY_WORDS);
  }

  lemma Empty08()
    ensures Steps(8, 12, State(0x32033344, 0x9BC13CE9, 0xF5B158DB, 0x2F35D494), EMPTY_WORDS)
         == State(0x3893B991, 0x70768A29, 0xE1EF0576, 0xFCE4A312)
  {
    hide Steps, Step;
    TableOne();
    hide WordIndex, Shift, Sine;
    StepBy(8, State(0x32033344, 0x9BC13CE9, 0xF5B158DB, 0x2F35D494), EMPTY_WORDS, 0xB5B5D8DD, 0, 0x5139A4F9, 0x9CD27CA8);
    StepBy(9, State(0x2F35D494, 0x3893B991, 0x9BC13CE9, 0xF5B158DB), EMPTY_WORDS, 0xDDA178CB, 0, 0x981C450E, 0xC450E981);
    StepBy(10, State(0xF5B158DB, 0xFCE4A312, 0x3893B991, 0x9BC13CE9), EMPTY_WORDS, 0x3B81BDF9, 0, 0x31327285, 0xE50A6264);
    StepBy(11, State(0x9BC13CE9, 0xE1EF0576, 0xFCE4A312, 0x3893B991), EMPTY_WORDS, 0xF8F4B993, 0, 0x1E12CE3A, 0x8E8784B3);
    FourSteps(8, State(0x32033344, 0x9BC13CE9, 0xF5B158DB, 0x2F35D494), EMPTY_WORDS);
  }

  lemma Empty12()
    ensures Steps(12, 16, State(0x3893B991, 0x70768A29, 0xE1EF0576, 0xFCE4A312), EMPTY_WORDS)
         == State(0xF56C7CF1, 0xD6819C6A, 0x5AA53F75, 0x374943A7)
  {
    hide Steps, Step;
    TableOne();
    hide WordIndex, Shift, Sine;
    StepBy(12, State(0x3893B991, 0x70768A29, 0xE1EF0576, 0xFCE4A312), EMPTY_WORDS, 0xECE62132, 0, 0x9109EBE5, 0x84F5F2C8);
    StepBy(13, State(0xFCE4A312, 0xF56C7CF1, 0x70768A29, 0xE1EF0576), EMPTY_WORDS, 0x70E70927, 0, 0x6B641DCC, 0x41DCC6B6);
    StepBy(14, State(0xE1EF0576, 0x374943A7, 0xF56C7CF1, 0x70768A29), EMPTY_WORDS, 0x757EC8A9, 0, 0xFDE711AD, 0x235BFBCE);
    StepBy(15, State(0x70768A29, 0x5AA53F75, 0x374943A7, 0xF56C7CF1), EMPTY_WORDS, 0xB74943A5, 0, 0x7173D5EF, 0x7BDC5CF5);
    FourSteps(12, State(0x3893B991, 0x70768A29, 0xE1EF0576, 0xFCE4A312), EMPTY_WORDS);
  }

  lemma Empty16()
    ensures Steps(16, 20, State(0xF56C7CF1, 0xD6819C6A, 0x5AA53F75, 0x374943A7), EMPTY_WORDS)
         == State(0x1C7D7513, 0xBD782E17, 0xC095F13A, 0x7BD57A3A)
  {
    hide Steps, Step;
    TableTwo();
    hide WordIndex, Shift, Sine;
    StepBy(16, State(0xF56C7CF1, 0xD6819C6A, 0x5AA53F75, 0x374943A7), EMPTY_WORDS, 0x5EA53C72, 0, 0x4A2FDEC5, 0x45FBD8A9);
    StepBy(17, State(0x374943A7, 0x1C7D7513, 0xD6819C6A, 0x5AA53F75), EMPTY_WORDS, 0x9C25B51B, 0, 0x93AFAC02, 0x5F580527);
    StepBy(18, State(0x5AA53F75, 0x7BD57A3A, 0x1C7D7513, 0xD6819C6A), EMPTY_WORDS, 0x5AFD793B, 0, 0xDC011301, 0x44C07700);
    StepBy(19, State(0xD6819C6A, 0xC095F13A, 0x7BD57A3A, 0x1C7D7513), EMPTY_WORDS, 0x63957B3A, 0x00000080,
           0x23CDDFCE, 0xFCE23CDD);
    FourSteps(16, State(0xF56C7CF1, 0xD6819C6A, 0x5AA53F75, 0x374943A7), EMPTY_WORDS);
  }

  lemma Empty20()
    ensures Steps(20, 24, State(0x1C7D7513, 0xBD782E17, 0xC095F13A, 0x7BD57A3A), EMPTY_WORDS)
         == State(0x3D1E3E6C, 0xE422531A, 0xEB41643E, 0x68B7B3E3)
  {
    hide Steps, Step;
    TableTwo();
    hide WordIndex, Shift, Sine;
    StepBy(20, State(0x1C7D7513, 0xBD782E17, 0xC095F13A, 0x7BD57A3A), EMPTY_WORDS, 0xB950AB12, 0, 0xABFD3082, 0x7FA61055);
    StepBy(21, State(0x7BD57A3A, 0x3D1E3E6C, 0xBD782E17, 0xC095F13A), EMPTY_WORDS, 0x3D7C3E2D, 0, 0xBB95CCBA, 0x2B997577);
    StepBy(22, State(0xC095F13A, 0x68B7B3E3, 0x3D1E3E6C, 0xBD782E17), EMPTY_WORDS, 0x2836326B, 0, 0xC16E0A26, 0x8289B05B);
    StepBy(23, State(0xBD782E17, 0xEB41643E, 0x68B7B3E3, 0x3D1E3E6C), EMPTY_WORDS, 0x69A1A5AF, 0, 0x0EEDCF8E, 0xF8E0EEDC);
    FourSteps(20, State(0x1C7D7513, 0xBD782E17, 0xC095F13A, 0x7BD57A3A), EMPTY_WORDS);
  }

  lemma Empty24()
    ensures Steps(24, 28, State(0x3D1E3E6C, 0xE422531A, 0xEB41643E, 0x68B7B3E3), EMPTY_WORDS)
         == State(0x306EC122, 0xA0572807, 0xA3C663DA, 0xD28C77C2)
  {
    hide Steps, Step;
    TableTwo();
    hide WordIndex, Shift, Sine;
    StepBy(24, State(0x3D1E3E6C, 0xE422531A, 0xEB41643E, 0x68B7B3E3), EMPTY_WORDS, 0xE362571E, 0, 0x42626370, 0x4C4C6E08);
    StepBy(25, State(0x68B7B3E3, 0x306EC122, 0xE422531A, 0xEB41643E), EMPTY_WORDS, 0x24625322, 0, 0x50510EDB, 0xA21DB6A0);
    StepBy(26, State(0xEB41643E, 0xD28C77C2, 0x306EC122, 0xE422531A), EMPTY_WORDS, 0xD04CD322, 0, 0xB06344E7, 0xD139EC18);
    StepBy(27, State(0xE422531A, 0xA3C663DA, 0xD28C77C2, 0x306EC122), EMPTY_WORDS, 0xE2C677C2, 0, 0x0C42DFC9, 0xFC90C42D);
    FourSteps(24, State(0x3D1E3E6C, 0xE422531A, 0xEB41643E, 0x68B7B3E3), EMPTY_WORDS);
  }

  lemma Empty28()
    ensures Steps(28, 32, State(0x306EC122, 0xA0572807, 0xA3C663DA, 0xD28C77C2), EMPTY_WORDS)
         == State(0x13707036, 0xA2205F1F, 0x1C31C384, 0xAE7813DB)
  {
    hide Steps, Step;
    TableTwo();
    hide WordIndex, Shift, Sine;
    StepBy(28, State(0x306EC122, 0xA0572807, 0xA3C663DA, 0xD28C77C2), EMPTY_WORDS, 0xA146201A, 0, 0x7B98CA41, 0x7319482F);
    StepBy(29, State(0xD28C77C2, 0x13707036, 0xA0572807, 0xA3C663DA), EMPTY_WORDS, 0x03516817, 0, 0xD2CD83D1, 0x9B07A3A5);
    StepBy(30, State(0xA3C663DA, 0xAE7813DB, 0x13707036, 0xA0572807), EMPTY_WORDS, 0xB3705033, 0, 0xBEA5B6E6, 0x6DB9AFA9);
    StepBy(31, State(0xA0572807, 0x1C31C384, 0xAE7813DB, 0x13707036), EMPTY_WORDS, 0xBC3843CD, 0, 0xE9B9B85E, 0x85EE9B9B);
    FourSteps(28, State(0x306EC122, 0xA0572807, 0xA3C663DA, 0xD28C77C2), EMPTY_WORDS);
  }

  lemma Empty32()
    ensures Steps(32, 36, State(0x13707036, 0xA2205F1F, 0x1C31C384, 0xAE7813DB), EMPTY_WORDS)
         == State(0xDF63EAA1, 0x004B6669, 0x12F3E755, 0xC3689F5B)
  {
    hide Steps, Step;
    TableThree();
    hide WordIndex, Shift, Sine;
    StepBy(32, State(0x13707036, 0xA2205F1F, 0x1C31C384, 0xAE7813DB), EMPTY_WORDS, 0x10698F40, 0, 0x23D438B8, 0x3D438B82);
    StepBy(33, State(0xAE7813DB, 0xDF63EAA1, 0xA2205F1F, 0x1C31C384), EMPTY_WORDS, 0x6172763A, 0, 0x975C8096, 0xE404B4BA);
    StepBy(34, State(0x1C31C384, 0xC3689F5B, 0xDF63EAA1, 0xA2205F1F), EMPTY_WORDS, 0xBE2B2AE5, 0, 0x47FA4F8B, 0x4F8B47FA);
    StepBy(35, State(0xA2205F1F, 0x12F3E755, 0xC3689F5B, 0xDF63EAA1), EMPTY_WORDS, 0x0EF892AF, 0, 0xAEFE29DA, 0xED577F14);
    FourSteps(32, State(0x13707036, 0xA2205F1F, 0x1C31C384, 0xAE7813DB), EMPTY_WORDS);
  }

  lemma Empty36()
    ensures Steps(36, 40, State(0xDF63EAA1, 0x004B6669, 0x12F3E755, 0xC3689F5B), EMPTY_WORDS)
         == State(0x5F7A9B2E, 0xC5DC8C15, 0x91CA4CB7, 0xABC34E16)
  {
    hide Steps, Step;
    TableThree();
    hide WordIndex, Shift, Sine;
    StepBy(36, State(0xDF63EAA1, 0x004B6669, 0x12F3E755, 0xC3689F5B), EMPTY_WORDS, 0xD1D01E67, 0, 0x55F2F34C, 0x5F2F34C5);
    StepBy(37, State(0xC3689F5B, 0x5F7A9B2E, 0x004B6669, 0x12F3E755), EMPTY_WORDS, 0x4DC21A12, 0, 0x5D098916, 0x4C48B2E8);
    StepBy(38, State(0x12F3E755, 0xABC34E16, 0x5F7A9B2E, 0x004B6669), EMPTY_WORDS, 0xF4F2B351, 0, 0xFEA1E606, 0xE606FEA1);
    StepBy(39, State(0x004B6669, 0x91CA4CB7, 0xABC34E16, 0x5F7A9B2E), EMPTY_WORDS, 0x6573998F, 0, 0x247EBC68, 0x34123F5E);
    FourSteps(36, State(0xDF63EAA1, 0x004B6669, 0x12F3E755, 0xC3689F5B), EMPTY_WORDS);
  }

  lemma Empty40()
    ensures Steps(40, 44, State(0x5F7A9B2E, 0xC5DC8C15, 0x91CA4CB7, 0xABC34E16), EMPTY_WORDS)
         == State(0x4497169D, 0x0FE32453, 0xFD95F243, 0x76FD93D4)
  {
    hide Steps, Step;
    TableThree();
    hide WordIndex, Shift, Sine;
    StepBy(40, State(0x5F7A9B2E, 0xC5DC8C15, 0x91CA4CB7, 0xABC34E16), EMPTY_WORDS, 0xFFD58EB4, 0, 0x87EBA8A8, 0x7EBA8A88);
    StepBy(41, State(0xABC34E16, 0x4497169D, 0xC5DC8C15, 0x91CA4CB7), EMPTY_WORDS, 0x1081D63F, 0x00000080,
           0xA6E64CCF, 0x32667D37);
    StepBy(42, State(0x91CA4CB7, 0x76FD93D4, 0x4497169D, 0xC5DC8C15), EMPTY_WORDS, 0xF7B6095C, 0, 0x5E6F8698, 0x86985E6F);
    StepBy(43, State(0xC5DC8C15, 0xFD95F243, 0x76FD93D4, 0x4497169D), EMPTY_WORDS, 0xCFFF770A, 0, 0x9A642024, 0x124D3210);
    FourSteps(40, State(0x5F7A9B2E, 0xC5DC8C15, 0x91CA4CB7, 0xABC34E16), EMPTY_WORDS);
  }

  lemma Empty44()
    ensures Steps(44, 48, State(0x4497169D, 0x0FE32453, 0xFD95F243, 0x76FD93D4), EMPTY_WORDS)
         == State(0x3F55EDFD, 0xCA7D2DBD, 0x68D84EA2, 0x22A31F54)
  {
    hide Steps, Step;
    TableThree();
    hide WordIndex, Shift, Sine;
    StepBy(44, State(0x4497169D, 0x0FE32453, 0xFD95F243, 0x76FD93D4), EMPTY_WORDS, 0x848B45C4, 0, 0xA2F72C9A, 0x2F72C9AA);
    StepBy(45, State(0x76FD93D4, 0x3F55EDFD, 0x0FE32453, 0xFD95F243), EMPTY_WORDS, 0xCD233BED, 0, 0x2AFC69A6, 0xE34D3157);
    StepBy(46, State(0xFD95F243, 0x22A31F54, 0x3F55EDFD, 0x0FE32453), EMPTY_WORDS, 0x1215D6FA, 0, 0x2F4E4635, 0x46352F4E);
    StepBy(47, State(0x0FE32453, 0x68D84EA2, 0x22A31F54, 0x3F55EDFD), EMPTY_WORDS, 0x752EBC0B, 0, 0x49BE36C3, 0x61A4DF1B);
    FourSteps(44, State(0x4497169D, 0x0FE32453, 0xFD95F243, 0x76FD93D4), EMPTY_WORDS);
  }

  lemma Empty48()
    ensures Steps(48, 52, State(0x3F55EDFD, 0xCA7D2DBD, 0x68D84EA2, 0x22A31F54), EMPTY_WORDS)
         == State(0x93AA2577, 0x561E0689, 0xCD85B8CB, 0x1688DC85)
  {
    hide Steps, Step;
    TableFour();
    hide WordIndex, Shift, Sine;
    StepBy(48, State(0x3F55EDFD, 0xCA7D2DBD, 0x68D84EA2, 0x22A31F54), EMPTY_WORDS, 0xB7A5A31D, 0x00000080,
           0xEB24B3DE, 0xC92CF7BA);
    StepBy(49, State(0x22A31F54, 0x93AA2577, 0xCA7D2DBD, 0x68D84EA2), EMPTY_WORDS, 0x5DD298C2, 0, 0xC3A0B7AD, 0x82DEB70E);
    StepBy(50, State(0x68D84EA2, 0x1688DC85, 0x93AA2577, 0xCA7D2DBD), EMPTY_WORDS, 0xA420FBB0, 0, 0xB88D6DF9, 0xB6FCDC46);
    StepBy(51, State(0xCA7D2DBD, 0xCD85B8CB, 0x1688DC85, 0x93AA2577), EMPTY_WORDS, 0xFB5D264E, 0, 0xC26DF444, 0x88984DBE);
    FourSteps(48, State(0x3F55EDFD, 0xCA7D2DBD, 0x68D84EA2, 0x22A31F54), EMPTY_WORDS);
  }

  lemma Empty52()
    ensures Steps(52, 56, State(0x93AA2577, 0x561E0689, 0xCD85B8CB, 0x1688DC85), EMPTY_WORDS)
         == State(0x5625A114, 0x1E77FA61, 0x392AD0D0, 0x3450F42B)
  {
    hide Steps, Step;
    TableFour();
    hide WordIndex, Shift, Sine;
    StepBy(52, State(0x93AA2577, 0x561E0689, 0xCD85B8CB, 0x1688DC85), EMPTY_WORDS, 0x32FA9F30, 0, 0x2C001E6A, 0x00079A8B);
    StepBy(53, State(0x1688DC85, 0x5625A114, 0x561E0689, 0xCD85B8CB), EMPTY_WORDS, 0x2061E1BD, 0, 0xC5F78AD4, 0xDE2B5317);
    StepBy(54, State(0xCD85B8CB, 0x3450F42B, 0x5625A114, 0x561E0689), EMPTY_WORDS, 0xEBD45C6B, 0, 0xB94A09B3, 0x04D9DCA5);
    StepBy(55, State(0x561E0689, 0x392AD0D0, 0x3450F42B, 0x5625A114), EMPTY_WORDS, 0x8DAA2AD0, 0, 0x694C8F2A, 0xE54D2991);
    FourSteps(52, State(0x93AA2577, 0x561E0689, 0xCD85B8CB, 0x1688DC85), EMPTY_WORDS);
  }

  lemma Empty56()
    ensures Steps(56, 60, State(0x5625A114, 0x1E77FA61, 0x392AD0D0, 0x3450F42B), EMPTY_WORDS)
         == State(0x474A9C8C, 0x30130182, 0x36594B14, 0xDFCE00BC)
  {
    hide Steps, Step;
    TableFour();
    hide WordIndex, Shift, Sine;
    StepBy(56, State(0x5625A114, 0x1E77FA61, 0x392AD0D0, 0x3450F42B), EMPTY_WORDS, 0xE6D52B25, 0, 0xACA34A88, 0x28D2A22B);
    StepBy(57, State(0x3450F42B, 0x474A9C8C, 0x1E77FA61, 0x392AD0D0), EMPTY_WORDS, 0xD9A845CE, 0, 0x0C2620D9, 0x98836430);
    StepBy(58, State(0x392AD0D0, 0xDFCE00BC, 0x474A9C8C, 0x1E77FA61), EMPTY_WORDS, 0xB8849932, 0, 0x94B0AD16, 0x568B4A58);
    StepBy(59, State(0x1E77FA61, 0x36594B14, 0xDFCE00BC, 0x474A9C8C), EMPTY_WORDS, 0x61336BCB, 0, 0xCDB377CD, 0xF9B9B66E);
    FourSteps(56, State(0x5625A114, 0x1E77FA61, 0x392AD0D0, 0x3450F42B), EMPTY_WORDS);
  }

  lemma Empty60()
    ensures Steps(60, 64, State(0x474A9C8C, 0x30130182, 0x36594B14, 0xDFCE00BC), EMPTY_WORDS)
         == State(0x7246FAD3, 0x14E45506, 0xFF4EA3EB, 0x6E10A476)
  {
    hide Steps, Step;
    TableFour();
    hide WordIndex, Shift, Sine;
    StepBy(60, State(0x474A9C8C, 0x30130182, 0x36594B14, 0xDFCE00BC), EMPTY_WORDS, 0x066AB4D7, 0, 0x4508CFE5, 0x4233F951);
    StepBy(61, State(0xDFCE00BC, 0x7246FAD3, 0x30130182, 0x36594B14), EMPTY_WORDS, 0xCBF5FF79, 0, 0x68FEF26A, 0xFBC9A9A3);
    StepBy(62, State(0x36594B14, 0x6E10A476, 0x7246FAD3, 0x30130182), EMPTY_WORDS, 0x9DBA04AC, 0, 0xFEEB227B, 0x913DFF75);
    StepBy(63, State(0x30130182, 0xFF4EA3EB, 0x6E10A476, 0x7246FAD3), EMPTY_WORDS, 0x91EF0399, 0, 0xAD88D8AC, 0x1595B11B);
    FourSteps(60, State(0x474A9C8C, 0x30130182, 0x36594B14, 0xDFCE00BC), EMPTY_WORDS);
  }

  const ABC_WORDS: seq<word> := [0x80636261, 0, 0, 0, 0, 0, 0, 0, 0, 0, 0, 0, 0, 0, 0x00000018, 0]

  lemma Abc00()
    ensures Steps(0, 4, State(0x67452301, 0xEFCDAB89, 0x98BADCFE, 0x10325476), ABC_WORDS)
         == State(0xD6D117B4, 0x7AD956F2, 0x2F6FBD72, 0x344A8432)
  {
    hide Steps, Step;
    TableOne();
    hide WordIndex, Shift, Sine;
    StepBy(0, State(0x67452301, 0xEFCDAB89, 0x98BADCFE, 0x10325476), ABC_WORDS, 0x98BADCFE, 0x80636261,
           0x57CE06D8, 0xE7036C2B);
    StepBy(1, State(0x10325476, 0xD6D117B4, 0xEFCDAB89, 0x98BADCFE), ABC_WORDS, 0xCEEBCBCA, 0, 0xC7E5D796, 0x5D796C7E);
    StepBy(2, State(0x98BADCFE, 0x344A8432, 0xD6D117B4, 0xEFCDAB89), ABC_WORDS, 0xDFC52FB9, 0, 0x9CA07D92, 0xFB253940);
    StepBy(3, State(0xEFCDAB89, 0x2F6FBD72, 0x344A8432, 0xD6D117B4), ABC_WORDS, 0xF4DA86B6, 0, 0xA666012D, 0x4B699980);
    FourSteps(0, State(0x67452301, 0xEFCDAB89, 0x98BADCFE, 0x10325476), ABC_WORDS);
  }

  lemma Abc04()
    ensures Steps(4, 8, State(0xD6D117B4, 0x7AD956F2, 0x2F6FBD72, 0x344A8432), ABC_WORDS)
         == State(0xC73741EF, 0x928D99F6, 0x207DC67B, 0x8BAC3051)
  {
    hide Steps, Step;
    TableOne();
    hide WordIndex, Shift, Sine;
    StepBy(4, State(0xD6D117B4, 0x7AD956F2, 0x2F6FBD72, 0x344A8432), ABC_WORDS, 0x2E4B9472, 0, 0xFA98BBD5, 0x4C5DEAFD);
    StepBy(5, State(0x344A8432, 0xC73741EF, 0x7AD956F2, 0x2F6FBD72), ABC_WORDS, 0x6A59FCF2, 0, 0xE62C474E, 0xC474EE62);
    StepBy(6, State(0x2F6FBD72, 0x8BAC3051, 0xC73741EF, 0x7AD956F2), ABC_WORDS, 0xF37546E3, 0, 0xCB154A68, 0x94D1962A);
    StepBy(7, State(0x7AD956F2, 0x207DC67B, 0x8BAC3051, 0xC73741EF), ABC_WORDS, 0xC72E01D5, 0, 0x3F4DEDC8, 0x720FD37B);
    FourSteps(4, State(0xD6D117B4, 0x7AD956F2, 0x2F6FBD72, 0x344A8432), ABC_WORDS);
  }

  lemma Abc08()
    ensures Steps(8, 12, State(0xC73741EF, 0x928D99F6, 0x207DC67B, 0x8BAC3051), ABC_WORDS)
         == State(0x854B3712, 0x5ED49596, 0x3020401C, 0x74E2F284)
  {
    hide Steps, Step;
    TableOne();
    hide WordIndex, Shift, Sine;
    StepBy(8, State(0xC73741EF, 0x928D99F6, 0x207DC67B, 0x8BAC3051), ABC_WORDS, 0x092DA073, 0, 0x39E57B3A, 0xF2BD9D1C);
    StepBy(9, State(0x8BAC3051, 0x854B3712, 0x928D99F6, 0x207DC67B), ABC_WORDS, 0xA03DD17B, 0, 0xB72EF97B, 0xEF97BB72);
    StepBy(10, State(0x207DC67B, 0x74E2F284, 0x854B3712, 0x928D99F6), ABC_WORDS, 0x864F3B72, 0, 0xA6CC5D9E, 0xBB3D4D98);
    StepBy(11, State(0x928D99F6, 0x3020401C, 0x74E2F284, 0x854B3712), ABC_WORDS, 0xB56B7706, 0, 0xD155E8BA, 0x2EB4557A);
    FourSteps(8, State(0xC73741EF, 0x928D99F6, 0x207DC67B, 0x8BAC3051), ABC_WORDS);
  }

  lemma Abc12()
    ensures Steps(12, 16, State(0x854B3712, 0x5ED49596, 0x3020401C, 0x74E2F284), ABC_WORDS)
         == State(0xDDA9B9A6, 0x72AFF2E0, 0xE396856B, 0xA1051895)
  {
    hide Steps, Step;
    TableOne();
    hide WordIndex, Shift, Sine;
    StepBy(12, State(0x854B3712, 0x5ED49596, 0x3020401C, 0x74E2F284), ABC_WORDS, 0x30226214, 0, 0x20FDAA48, 0x7ED52410);
    StepBy(13, State(0x74E2F284, 0xDDA9B9A6, 0x5ED49596, 0x3020401C), ABC_WORDS, 0x7C80D19E, 0, 0xEEFC35B5, 0xC35B5EEF);
    StepBy(14, State(0x3020401C, 0xA1051895, 0xDDA9B9A6, 0x5ED49596), ABC_WORDS, 0xDFD19D86, 0x00000018,
           0xB66B2148, 0x42916CD6);
    StepBy(15, State(0x5ED49596, 0xE396856B, 0xA1051895, 0xDDA9B9A6), ABC_WORDS, 0xBD2D3885, 0, 0x65B5D63C, 0x8F196D75);
    FourSteps(12, State(0x854B3712, 0x5ED49596, 0x3020401C, 0x74E2F284), ABC_WORDS);
  }

  lemma Abc16()
    ensures Steps(16, 20, State(0xDDA9B9A6, 0x72AFF2E0, 0xE396856B, 0xA1051895), ABC_WORDS)
         == State(0x3E9E9126, 0xB5B204E4, 0xE25E1652, 0x4A1D804E)
  {
    hide Steps, Step;
    TableTwo();
    hide WordIndex, Shift, Sine;
    StepBy(16, State(0xDDA9B9A6, 0x72AFF2E0, 0xE396856B, 0xA1051895), ABC_WORDS, 0x629795EA, 0, 0x365F74F2, 0xCBEE9E46);
    StepBy(17, State(0xA1051895, 0x3E9E9126, 0x72AFF2E0, 0xE396856B), ABC_WORDS, 0x32BFF3A2, 0, 0x9405BF77, 0x0B7EEF28);
    StepBy(18, State(0xE396856B, 0x4A1D804E, 0x3E9E9126, 0x72AFF2E0), ABC_WORDS, 0x4E1D8146, 0, 0x58126102, 0x98409604);
    StepBy(19, State(0x72AFF2E0, 0xE25E1652, 0x4A1D804E, 0x3E9E9126), ABC_WORDS, 0x621F104A, 0x80636261,
           0x3EE92D35, 0xD353EE92);
    FourSteps(16, State(0xDDA9B9A6, 0x72AFF2E0, 0xE396856B, 0xA1051895), ABC_WORDS);
  }

  lemma Abc20()
    ensures Steps(20, 24, State(0x3E9E9126, 0xB5B204E4, 0xE25E1652, 0x4A1D804E), ABC_WORDS)
         == State(0x59A8FFDA, 0x47092C07, 0xABFC7920, 0x6D002F1E)
  {
    hide Steps, Step;
    TableTwo();
    hide WordIndex, Shift, Sine;
    StepBy(20, State(0x3E9E9126, 0xB5B204E4, 0xE25E1652, 0x4A1D804E), ABC_WORDS, 0xA0521654, 0, 0xB51FB7D7, 0xA3F6FAF6);
    StepBy(21, State(0x4A1D804E, 0x59A8FFDA, 0xB5B204E4, 0xE25E1652), ABC_WORDS, 0x55A816F6, 0, 0xA209AB97, 0x13572F44);
    StepBy(22, State(0xE25E1652, 0x6D002F1E, 0x59A8FFDA, 0xB5B204E4), ABC_WORDS, 0x6D08FF1E, 0, 0x2808FBF1, 0x3EFC4A02);
    StepBy(23, State(0xB5B204E4, 0xABFC7920, 0x6D002F1E, 0x59A8FFDA), ABC_WORDS, 0x2DA87904, 0, 0xCB2E79B0, 0x9B0CB2E7);
    FourSteps(20, State(0x3E9E9126, 0xB5B204E4, 0xE25E1652, 0x4A1D804E), ABC_WORDS);
  }

  lemma Abc24()
    ensures Steps(24, 28, State(0x59A8FFDA, 0x47092C07, 0xABFC7920, 0x6D002F1E), ABC_WORDS)
         == State(0xB7F268CF, 0x786ACB8F, 0xFE1623B1, 0x09388EFF)
  {
    hide Steps, Step;
    TableTwo();
    hide WordIndex, Shift, Sine;
    StepBy(24, State(0x59A8FFDA, 0x47092C07, 0xABFC7920, 0x6D002F1E), ABC_WORDS, 0xC7FC7C26, 0, 0x438749E6, 0x70E93CC8);
    StepBy(25, State(0x6D002F1E, 0xB7F268CF, 0x47092C07, 0xABFC7920), ABC_WORDS, 0xE7F16C07, 0x00000018,
           0x1828A313, 0x51462630);
    StepBy(26, State(0xABFC7920, 0x09388EFF, 0xB7F268CF, 0x47092C07), ABC_WORDS, 0xB1FA4CCF, 0, 0x52CBD376, 0xF4DD94B2);
    StepBy(27, State(0x47092C07, 0xFE1623B1, 0x09388EFF, 0xB7F268CF), ABC_WORDS, 0xBE1AA6B1, 0, 0x4A7DE7A5, 0x7A54A7DE);
    FourSteps(24, State(0x59A8FFDA, 0x47092C07, 0xABFC7920, 0x6D002F1E), ABC_WORDS);
  }

  lemma Abc28()
    ensures Steps(28, 32, State(0xB7F268CF, 0x786ACB8F, 0xFE1623B1, 0x09388EFF), ABC_WORDS)
         == State(0x790A77FB, 0x726342D3, 0xA62884AA, 0x9F47E4F8)
  {
    hide Steps, Step;
    TableTwo();
    hide WordIndex, Shift, Sine;
    StepBy(28, State(0xB7F268CF, 0x786ACB8F, 0xFE1623B1, 0x09388EFF), ABC_WORDS, 0xFE2EAB8F, 0, 0x6004FD63, 0x009FAC6C);
    StepBy(29, State(0x09388EFF, 0x790A77FB, 0x786ACB8F, 0xFE1623B1), ABC_WORDS, 0x786AEBBF, 0, 0x7E931EB6, 0x263D6CFD);
    StepBy(30, State(0xFE1623B1, 0x9F47E4F8, 0x790A77FB, 0x786ACB8F), ABC_WORDS, 0x1942F4F8, 0, 0x7EC81B82, 0x06E09FB2);
    StepBy(31, State(0x786ACB8F, 0xA62884AA, 0x9F47E4F8, 0x790A77FB), ABC_WORDS, 0xA64D84AA, 0, 0xABE29CC3, 0xCC3ABE29);
    FourSteps(28, State(0xB7F268CF, 0x786ACB8F, 0xFE1623B1, 0x09388EFF), ABC_WORDS);
  }

  lemma Abc32()
    ensures Steps(32, 36, State(0x790A77FB, 0x726342D3, 0xA62884AA, 0x9F47E4F8), ABC_WORDS)
         == State(0xB3707EBF, 0x3B0875C7, 0x8D212FF5, 0x60127B2E)
  {
    hide Steps, Step;
    TableThree();
    hide WordIndex, Shift, Sine;
    StepBy(32, State(0x790A77FB, 0x726342D3, 0xA62884AA, 0x9F47E4F8), ABC_WORDS, 0x4B0C2281, 0, 0xC410D3BE, 0x410D3BEC);
    StepBy(33, State(0x9F47E4F8, 0xB3707EBF, 0x726342D3, 0xA62884AA), ABC_WORDS, 0x673BB8C6, 0, 0x8DF5943F, 0xACA1FC6F);
    StepBy(34, State(0xA62884AA, 0x60127B2E, 0xB3707EBF, 0x726342D3), ABC_WORDS, 0xA1014742, 0, 0xB4C72D0E, 0x2D0EB4C7);
    StepBy(35, State(0x726342D3, 0x8D212FF5, 0x60127B2E, 0xB3707EBF), ABC_WORDS, 0x5E432A64, 0x00000018,
           0xCE8BA55B, 0xADE745D2);
    FourSteps(32, State(0x790A77FB, 0x726342D3, 0xA62884AA, 0x9F47E4F8), ABC_WORDS);
  }

  lemma Abc36()
    ensures Steps(36, 40, State(0xB3707EBF, 0x3B0875C7, 0x8D212FF5, 0x60127B2E), ABC_WORDS)
         == State(0x21B117B9, 0x5A2F5EA5, 0x3575227E, 0x6E7429D5)
  {
    hide Steps, Step;
    TableThree();
    hide WordIndex, Shift, Sine;
    StepBy(36, State(0xB3707EBF, 0x3B0875C7, 0x8D212FF5, 0x60127B2E), ABC_WORDS, 0xD63B211C, 0, 0x2E6A8A1F, 0xE6A8A1F2);
    StepBy(37, State(0x60127B2E, 0x21B117B9, 0x3B0875C7, 0x8D212FF5), ABC_WORDS, 0x97984D8B, 0, 0x43899862, 0x4CC3121C);
    StepBy(38, State(0x8D212FF5, 0x6E7429D5, 0x21B117B9, 0x3B0875C7), ABC_WORDS, 0x74CD4BAB, 0, 0xF8A9C700, 0xC700F8A9);
    StepBy(39, State(0x3B0875C7, 0x3575227E, 0x6E7429D5, 0x21B117B9), ABC_WORDS, 0x7AB01C12, 0, 0x74784E49, 0x24BA3C27);
    FourSteps(36, State(0xB3707EBF, 0x3B0875C7, 0x8D212FF5, 0x60127B2E), ABC_WORDS);
  }

  lemma Abc40()
    ensures Steps(40, 44, State(0x21B117B9, 0x5A2F5EA5, 0x3575227E, 0x6E7429D5), ABC_WORDS)
         == State(0x11DE1779, 0x4C6124F4, 0x31C465CA, 0xFADCAA38)
  {
    hide Steps, Step;
    TableThree();
    hide WordIndex, Shift, Sine;
    StepBy(40, State(0x21B117B9, 0x5A2F5EA5, 0x3575227E, 0x6E7429D5), ABC_WORDS, 0x012E550E, 0, 0x4B7AEB8D, 0xB7AEB8D4);
    StepBy(41, State(0x6E7429D5, 0x11DE1779, 0x5A2F5EA5, 0x3575227E), ABC_WORDS, 0x7E846BA2, 0x80636261,
           0x57FD1FD2, 0xE8FE92BF);
    StepBy(42, State(0x3575227E, 0xFADCAA38, 0x11DE1779, 0x5A2F5EA5), ABC_WORDS, 0xB12DE3E4, 0, 0xBB9236E7, 0x36E7BB92);
    StepBy(43, State(0x5A2F5EA5, 0x31C465CA, 0xFADCAA38, 0x11DE1779), ABC_WORDS, 0xDAC6D88B, 0, 0x397E5435, 0x1A9CBF2A);
    FourSteps(40, State(0x21B117B9, 0x5A2F5EA5, 0x3575227E, 0x6E7429D5), ABC_WORDS);
  }

  lemma Abc44()
    ensures Steps(44, 48, State(0x11DE1779, 0x4C6124F4, 0x31C465CA, 0xFADCAA38), ABC_WORDS)
         == State(0x7F2E507B, 0x7BEB9700, 0x8FAE6399, 0x99D9679D)
  {
    hide Steps, Step;
    TableThree();
    hide WordIndex, Shift, Sine;
    StepBy(44, State(0x11DE1779, 0x4C6124F4, 0x31C465CA, 0xFADCAA38), ABC_WORDS, 0x8779EB06, 0, 0x732CD2B8, 0x32CD2B87);
    StepBy(45, State(0xFADCAA38, 0x7F2E507B, 0x4C6124F4, 0x31C465CA), ABC_WORDS, 0x028B1145, 0, 0xE4435562, 0x1AAB1722);
    StepBy(46, State(0x31C465CA, 0x99D9679D, 0x7F2E507B, 0x4C6124F4), ABC_WORDS, 0xAA961312, 0, 0xFBFCF5D4, 0xF5D4FBFC);
    StepBy(47, State(0x4C6124F4, 0x8FAE6399, 0x99D9679D, 0x7F2E507B), ABC_WORDS, 0x6959547F, 0, 0x7A66CFD8, 0xEC3D3367);
    FourSteps(44, State(0x11DE1779, 0x4C6124F4, 0x31C465CA, 0xFADCAA38), ABC_WORDS);
  }

  lemma Abc48()
    ensures Steps(48, 52, State(0x7F2E507B, 0x7BEB9700, 0x8FAE6399, 0x99D9679D), ABC_WORDS)
         == State(0x7B201DF8, 0x8BF025C4, 0xB298CEFD, 0xF4E8E96E)
  {
    hide Steps, Step;
    TableFour();
    hide WordIndex, Shift, Sine;
    StepBy(48, State(0x7F2E507B, 0x7BEB9700, 0x8FAE6399, 0x99D9679D), ABC_WORDS, 0xF041FCFB, 0x80636261,
           0xE3FCD21B, 0xFF3486F8);
    StepBy(49, State(0x99D9679D, 0x7B201DF8, 0x7BEB9700, 0x8FAE6399), ABC_WORDS, 0x009A0AFE, 0, 0xDD9E7232, 0x79C8CB76);
    StepBy(50, State(0x8FAE6399, 0xF4E8E96E, 0x7B201DF8, 0x7BEB9700), ABC_WORDS, 0x8FDCF407, 0x00000018,
           0xCB1F7B5F, 0xBDAFE58F);
    StepBy(51, State(0x7BEB9700, 0xB298CEFD, 0xF4E8E96E, 0x7B201DF8), ABC_WORDS, 0x42370791, 0, 0xBAB63ECA, 0xD95756C7);
    FourSteps(48, State(0x7F2E507B, 0x7BEB9700, 0x8FAE6399, 0x99D9679D), ABC_WORDS);
  }

  lemma Abc52()
    ensures Steps(52, 56, State(0x7B201DF8, 0x8BF025C4, 0xB298CEFD, 0xF4E8E96E), ABC_WORDS)
         == State(0x06CC5E8A, 0x3BFA2C27, 0x7D632DD0, 0x5B0D97AA)
  {
    hide Steps, Step;
    TableFour();
    hide WordIndex, Shift, Sine;
    StepBy(52, State(0x7B201DF8, 0x8BF025C4, 0xB298CEFD, 0xF4E8E96E), ABC_WORDS, 0x396FF928, 0, 0x19EB70E3, 0x7ADC38C6);
    StepBy(53, State(0xF4E8E96E, 0x06CC5E8A, 0x8BF025C4, 0xB298CEFD), ABC_WORDS, 0xC41F5A4E, 0, 0x4815104E, 0x54413920);
    StepBy(54, State(0xB298CEFD, 0x5B0D97AA, 0x06CC5E8A, 0x8BF025C4), ABC_WORDS, 0x79C38131, 0, 0x2C4C44AB, 0x22559626);
    StepBy(55, State(0x8BF025C4, 0x7D632DD0, 0x5B0D97AA, 0x06CC5E8A), ABC_WORDS, 0xA67E3A5F, 0, 0xB7F2BDF4, 0xBE96FE57);
    FourSteps(52, State(0x7B201DF8, 0x8BF025C4, 0xB298CEFD, 0xF4E8E96E), ABC_WORDS);
  }

  lemma Abc56()
    ensures Steps(56, 60, State(0x06CC5E8A, 0x3BFA2C27, 0x7D632DD0, 0x5B0D97AA), ABC_WORDS)
         == State(0x7F81CC35, 0x7327D604, 0x4F9DBE3F, 0x094454AB)
  {
    hide Steps, Step;
    TableFour();
    hide WordIndex, Shift, Sine;
    StepBy(56, State(0x06CC5E8A, 0x3BFA2C27, 0x7D632DD0, 0x5B0D97AA), ABC_WORDS, 0xC29941A7, 0, 0x390E1E80, 0x4387A00E);
    StepBy(57, State(0x5B0D97AA, 0x7F81CC35, 0x3BFA2C27, 0x7D632DD0), ABC_WORDS, 0xC467F218, 0, 0x1DA270A2, 0x89C28876);
    StepBy(58, State(0x7D632DD0, 0x094454AB, 0x7F81CC35, 0x3BFA2C27), ABC_WORDS, 0xB2C41BCE, 0, 0xD3288CB2, 0x46596994);
    StepBy(59, State(0x3BFA2C27, 0x4F9DBE3F, 0x094454AB, 0x7F81CC35), ABC_WORDS, 0xC6BBEB54, 0, 0x50BE291C, 0x238A17C5);
    FourSteps(56, State(0x06CC5E8A, 0x3BFA2C27, 0x7D632DD0, 0x5B0D97AA), ABC_WORDS);
  }

  lemma Abc60()
    ensures Steps(60, 64, State(0x7F81CC35, 0x7327D604, 0x4F9DBE3F, 0x094454AB), ABC_WORDS)
         == State(0x310ADE8F, 0xC08226B3, 0xE484B9D8, 0x624D8CB2)
  {
    hide Steps, Step;
    TableFour();
    hide WordIndex, Shift, Sine;
    StepBy(60, State(0x7F81CC35, 0x7327D604, 0x4F9DBE3F, 0x094454AB), ABC_WORDS, 0xB822416B, 0, 0x2EF78C22, 0xBDE3088B);
    StepBy(61, State(0x094454AB, 0x310ADE8F, 0x7327D604, 0x4F9DBE3F), ABC_WORDS, 0xC24D09CB, 0, 0x88CC50AB, 0x3142AE23);
    StepBy(62, State(0x4F9DBE3F, 0x624D8CB2, 0x310ADE8F, 0x7327D604), ABC_WORDS, 0xDFD77374, 0, 0x5A4D046E, 0x82372D26);
    StepBy(63, State(0x7327D604, 0xE484B9D8, 0x624D8CB2, 0x310ADE8F), ABC_WORDS, 0x8CB8354A, 0, 0xEB66DEDF, 0xDBFD6CDB);
    FourSteps(60, State(0x7F81CC35, 0x7327D604, 0x4F9DBE3F, 0x094454AB), ABC_WORDS);
  }

  // ---------- The padded blocks ----------

  function Word(b0: octet, b1: octet, b2: octet, b3: octet): word {
    (b0 as word) | (b1 as word << 8) | (b2 as word << 16) | (b3 as word << 24)
  }

  lemma GetIsWord(b: seq<octet>, i: nat)
    requires i + 4 <= |b|
    ensures GetWord(b, i) == Word(b[i], b[i + 1], b[i + 2], b[i + 3])
  {
  }

  lemma GetsWord(b: seq<octet>, i: nat, b0: octet, b1: octet, b2: octet, b3: octet, n: word)
    requires i + 4 <= |b| && b[i] == b0 && b[i + 1] == b1 && b[i + 2] == b2 && b[i + 3] == b3
    requires n == GetWord([b0, b1, b2, b3], 0)
    ensures GetWord(b, i) == n
  {
    hide Word, GetWord;
    GetIsWord(b, i);
    GetIsWord([b0, b1, b2, b3], 0);
  }

  lemma LiteralWords()
    ensures GetWord([0, 0, 0, 0], 0) == 0 && GetWord([0x80, 0, 0, 0], 0) == 0x80
    ensures GetWord([0x61, 0x62, 0x63, 0x80], 0) == 0x80636261 && GetWord([24, 0, 0, 0], 0) == 24
  {
  }

  lemma ShortLengths()
    ensures LengthBytes(0) == [0, 0, 0, 0, 0, 0, 0, 0] && LengthBytes(3) == [24, 0, 0, 0, 0, 0, 0, 0]
  {
    LiteralWords();
    PutUndoesGet([0, 0, 0, 0]);
    PutUndoesGet([24, 0, 0, 0]);
    hide PutWord, GetWord;
    assert AsWord(0) == 0 && AsWord(24) == 24;
  }

  const EMPTY: seq<octet> := []

  lemma EmptyPadded()
    ensures |EMPTY + Padding(0)| == 64 && Words(EMPTY + Padding(0)) == EMPTY_WORDS
  {
    hide LengthBytes, GetWord;
    LiteralWords();
    ShortLengths();
    var b := EMPTY + Padding(0);
    assert PadZeros(0) == 55;
    assert forall k :: 0 < k < 56 ==> b[k] == 0;
    GetsWord(b, 0, 0x80, 0, 0, 0, 0x00000080);
    GetsWord(b, 56, 0, 0, 0, 0, 0);
    forall k | 0 < k < 16 && k != 14
      ensures Words(b)[k] == 0
    {
      GetsWord(b, 4 * k, 0, 0, 0, 0, 0);
    }
  }

  lemma EmptySteps()
    ensures Steps(0, 64, INIT, EMPTY_WORDS)
         == State(0x7246FAD3, 0x14E45506, 0xFF4EA3EB, 0x6E10A476)
  {
    hide Steps;
    Empty00();
    Empty04();
    StepsSplit(0, 4, 8, INIT, EMPTY_WORDS);
    Empty08();
    StepsSplit(0, 8, 12, INIT, EMPTY_WORDS);
    Empty12();
    StepsSplit(0, 12, 16, INIT, EMPTY_WORDS);
    Empty16();
    StepsSplit(0, 16, 20, INIT, EMPTY_WORDS);
    Empty20();
    StepsSplit(0, 20, 24, INIT, EMPTY_WORDS);
    Empty24();
    StepsSplit(0, 24, 28, INIT, EMPTY_WORDS);
    Empty28();
    StepsSplit(0, 28, 32, INIT, EMPTY_WORDS);
    Empty32();
    StepsSplit(0, 32, 36, INIT, EMPTY_WORDS);
    Empty36();
    StepsSplit(0, 36, 40, INIT, EMPTY_WORDS);
    Empty40();
    StepsSplit(0, 40, 44, INIT, EMPTY_WORDS);
    Empty44();
    StepsSplit(0, 44, 48, INIT, EMPTY_WORDS);
    Empty48();
    StepsSplit(0, 48, 52, INIT, EMPTY_WORDS);
    Empty52();
    StepsSplit(0, 52, 56, INIT, EMPTY_WORDS);
    Empty56();
    StepsSplit(0, 56, 60, INIT, EMPTY_WORDS);
    Empty60();
    StepsSplit(0, 60, 64, INIT, EMPTY_WORDS);
  }

  /** MD5 ("") = d41d8cd98f00b204e9800998ecf8427e */
  lemma DigestOfEmpty()
    ensures Digest(EMPTY) == [0xD4, 0x1D, 0x8C, 0xD9, 0x8F, 0x00, 0xB2, 0x04,
                       0xE9, 0x80, 0x09, 0x98, 0xEC, 0xF8, 0x42, 0x7E]
  {
    hide Steps, Padding, Words, PutWord;
    EmptyPadded();
    EmptySteps();
    FoldOneBlock(INIT, EMPTY + Padding(0));
    assert Fold(INIT, EMPTY + Padding(0)) == State(0xD98C1DD4, 0x04B2008F, 0x980980E9, 0x7E42F8EC);
    Puts(0xD98C1DD4, 0xD4, 0x1D, 0x8C, 0xD9);
    Puts(0x04B2008F, 0x8F, 0x00, 0xB2, 0x04);
    Puts(0x980980E9, 0xE9, 0x80, 0x09, 0x98);
    Puts(0x7E42F8EC, 0xEC, 0xF8, 0x42, 0x7E);
  }

  const ABC: seq<octet> := [0x61, 0x62, 0x63]

  lemma AbcPadded()
    ensures |ABC + Padding(3)| == 64 && Words(ABC + Padding(3)) == ABC_WORDS
  {
    hide LengthBytes, GetWord;
    LiteralWords();
    ShortLengths();
    var b := ABC + Padding(3);
    assert PadZeros(3) == 52;
    assert forall k :: 3 < k < 56 ==> b[k] == 0;
    GetsWord(b, 0, 0x61, 0x62, 0x63, 0x80, 0x80636261);
    GetsWord(b, 56, 24, 0, 0, 0, 24);
    forall k | 0 < k < 16 && k != 14
      ensures Words(b)[k] == 0
    {
      GetsWord(b, 4 * k, 0, 0, 0, 0, 0);
    }
  }

  lemma AbcSteps()
    ensures Steps(0, 64, INIT, ABC_WORDS)
         == State(0x310ADE8F, 0xC08226B3, 0xE484B9D8, 0x624D8CB2)
  {
    hide Steps;
    Abc00();
    Abc04();
    StepsSplit(0, 4, 8, INIT, ABC_WORDS);
    Abc08();
    StepsSplit(0, 8, 12, INIT, ABC_WORDS);
    Abc12();
    StepsSplit(0, 12, 16, INIT, ABC_WORDS);
    Abc16();
    StepsSplit(0, 16, 20, INIT, ABC_WORDS);
    Abc20();
    StepsSplit(0, 20, 24, INIT, ABC_WORDS);
    Abc24();
    StepsSplit(0, 24, 28, INIT, ABC_WORDS);
    Abc28();
    StepsSplit(0, 28, 32, INIT, ABC_WORDS);
    Abc32();
    StepsSplit(0, 32, 36, INIT, ABC_WORDS);
    Abc36();
    StepsSplit(0, 36, 40, INIT, ABC_WORDS);
    Abc40();
    StepsSplit(0, 40, 44, INIT, ABC_WORDS);
    Abc44();
    StepsSplit(0, 44, 48, INIT, ABC_WORDS);
    Abc48();
    StepsSplit(0, 48, 52, INIT, ABC_WORDS);
    Abc52();
    StepsSplit(0, 52, 56, INIT, ABC_WORDS);
    Abc56();
    StepsSplit(0, 56, 60, INIT, ABC_WORDS);
    Abc60();
    StepsSplit(0, 60, 64, INIT, ABC_WORDS);
  }

  /** MD5 ("abc") = 900150983cd24fb0d6963f7d28e17f72 */
  lemma DigestOfAbc()
    ensures Digest(ABC) == [0x90, 0x01, 0x50, 0x98, 0x3C, 0xD2, 0x4F, 0xB0,
                       0xD6, 0x96, 0x3F, 0x7D, 0x28, 0xE1, 0x7F, 0x72]
  {
    hide Steps, Padding, Words, PutWord;
    AbcPadded();
    AbcSteps();
    FoldOneBlock(INIT, ABC + Padding(3));
    assert Fold(INIT, ABC + Padding(3)) == State(0x98500190, 0xB04FD23C, 0x7D3F96D6, 0x727FE128);
    Puts(0x98500190, 0x90, 0x01, 0x50, 0x98);
    Puts(0xB04FD23C, 0x3C, 0xD2, 0x4F, 0xB0);
    Puts(0x7D3F96D6, 0xD6, 0x96, 0x3F, 0x7D);
    Puts(0x727FE128, 0x28, 0xE1, 0x7F, 0x72);
  }

  /** Section 3.3: the initial registers are the bytes 01 23 45 67 89 ab cd ef fe dc ba 98 76 54 32 10. */
  lemma InitBytes()
    ensures Output(INIT) == [0x01, 0x23, 0x45, 0x67, 0x89, 0xAB, 0xCD, 0xEF, 0xFE, 0xDC, 0xBA, 0x98, 0x76,
                   0x54, 0x32, 0x10]
    ensures forall k :: 0 <= k < 16 ==> Output(INIT)[k] as int == if k < 8 then 0x01 + 0x22 * k else 0xFE - 0x22 * (k - 8)
  {
    Puts(0x67452301, 0x01, 0x23, 0x45, 0x67);
    Puts(0xEFCDAB89, 0x89, 0xAB, 0xCD, 0xEF);
    Puts(0x98BADCFE, 0xFE, 0xDC, 0xBA, 0x98);
    Puts(0x10325476, 0x76, 0x54, 0x32, 0x10);
    hide PutWord;
  }

  lemma Puts(n: word, b0: octet, b1: octet, b2: octet, b3: octet)
    requires n == GetWord([b0, b1, b2, b3], 0)
    ensures PutWord(n) == [b0, b1, b2, b3]
  {
    PutUndoesGet([b0, b1, b2, b3]);
  }
}
