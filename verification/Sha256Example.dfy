/** An example of the standard's: the message digest of the three letters abc. */
module Sha256Example {
  import opened Sha256Standard
  import opened Sha256Constants

  /** The padded message as words. */
  const ABC_BLOCK: seq<bv32> := [0x61626380, 0, 0, 0, 0, 0, 0, 0, 0, 0, 0, 0, 0, 0, 0, 24]

  const W_0: seq<bv32> := [
    0x61626380, 0x00000000, 0x00000000, 0x00000000, 0x00000000, 0x00000000, 0x00000000, 0x00000000,
    0x00000000, 0x00000000, 0x00000000, 0x00000000, 0x00000000, 0x00000000, 0x00000000, 0x00000018]
  const W_1: seq<bv32> := [
    0x61626380, 0x000f0000, 0x7da86405, 0x600003c6, 0x3e9d7b78, 0x0183fc00, 0x12dcbfdb, 0xe2e2c38e,
    0xc8215c1a, 0xb73679a2, 0xe5bc3909, 0x32663c5b, 0x9d209d67, 0xec8726cb, 0x702138a4, 0xd3b7973b]
  const W_2: seq<bv32> := [
    0x93f5997f, 0x3b68ba73, 0xaff4ffc1, 0xf10a5c62, 0x0a8b3996, 0x72af830a, 0x9409e33e, 0x24641522,
    0x9f47bf94, 0xf0a64f5a, 0x3e246a79, 0x27333ba3, 0x0c4763f2, 0x840abf27, 0x7a290d5d, 0x065c43da]
  const W_3: seq<bv32> := [
    0xfb3e89cb, 0xcc7617db, 0xb9e66c34, 0xa9993667, 0x84badedd, 0xc21462bc, 0x1487472c, 0xb20f7a99,
    0xef57b9cd, 0xebe6b238, 0x9fe3095e, 0x78bc8d4b, 0xa43fcf15, 0x668b2ff8, 0xeeaba2cc, 0x12b1edeb]

  /** The words of its schedule. */
  function W(t: nat): bv32
    requires t < 64
  {
    if t < 16 then W_0[t] else if t < 32 then W_1[t - 16] else if t < 48 then W_2[t - 32] else W_3[t - 48]
  }

  // The working variables after each round.

  const V_0 := Working(0x6a09e667, 0xbb67ae85, 0x3c6ef372, 0xa54ff53a, 0x510e527f, 0x9b05688c, 0x1f83d9ab, 0x5be0cd19)
  const V_1 := Working(0x5d6aebcd, 0x6a09e667, 0xbb67ae85, 0x3c6ef372, 0xfa2a4622, 0x510e527f, 0x9b05688c, 0x1f83d9ab)
  const V_2 := Working(0x5a6ad9ad, 0x5d6aebcd, 0x6a09e667, 0xbb67ae85, 0x78ce7989, 0xfa2a4622, 0x510e527f, 0x9b05688c)
  const V_3 := Working(0xc8c347a7, 0x5a6ad9ad, 0x5d6aebcd, 0x6a09e667, 0xf92939eb, 0x78ce7989, 0xfa2a4622, 0x510e527f)
  const V_4 := Working(0xd550f666, 0xc8c347a7, 0x5a6ad9ad, 0x5d6aebcd, 0x24e00850, 0xf92939eb, 0x78ce7989, 0xfa2a4622)
  const V_5 := Working(0x04409a6a, 0xd550f666, 0xc8c347a7, 0x5a6ad9ad, 0x43ada245, 0x24e00850, 0xf92939eb, 0x78ce7989)
  const V_6 := Working(0x2b4209f5, 0x04409a6a, 0xd550f666, 0xc8c347a7, 0x714260ad, 0x43ada245, 0x24e00850, 0xf92939eb)
  const V_7 := Working(0xe5030380, 0x2b4209f5, 0x04409a6a, 0xd550f666, 0x9b27a401, 0x714260ad, 0x43ada245, 0x24e00850)
  const V_8 := Working(0x85a07b5f, 0xe5030380, 0x2b4209f5, 0x04409a6a, 0x0c657a79, 0x9b27a401, 0x714260ad, 0x43ada245)
  const V_9 := Working(0x8e04ecb9, 0x85a07b5f, 0xe5030380, 0x2b4209f5, 0x32ca2d8c, 0x0c657a79, 0x9b27a401, 0x714260ad)
  const V_10 := Working(0x8c87346b, 0x8e04ecb9, 0x85a07b5f, 0xe5030380, 0x1cc92596, 0x32ca2d8c, 0x0c657a79, 0x9b27a401)
  const V_11 := Working(0x4798a3f4, 0x8c87346b, 0x8e04ecb9, 0x85a07b5f, 0x436b23e8, 0x1cc92596, 0x32ca2d8c, 0x0c657a79)
  const V_12 := Working(0xf71fc5a9, 0x4798a3f4, 0x8c87346b, 0x8e04ecb9, 0x816fd6e9, 0x436b23e8, 0x1cc92596, 0x32ca2d8c)
  const V_13 := Working(0x87912990, 0xf71fc5a9, 0x4798a3f4, 0x8c87346b, 0x1e578218, 0x816fd6e9, 0x436b23e8, 0x1cc92596)
  const V_14 := Working(0xd932eb16, 0x87912990, 0xf71fc5a9, 0x4798a3f4, 0x745a48de, 0x1e578218, 0x816fd6e9, 0x436b23e8)
  const V_15 := Working(0xc0645fde, 0xd932eb16, 0x87912990, 0xf71fc5a9, 0x0b92f20c, 0x745a48de, 0x1e578218, 0x816fd6e9)
  const V_16 := Working(0xb0fa238e, 0xc0645fde, 0xd932eb16, 0x87912990, 0x07590dcd, 0x0b92f20c, 0x745a48de, 0x1e578218)
  const V_17 := Working(0x21da9a9b, 0xb0fa238e, 0xc0645fde, 0xd932eb16, 0x8034229c, 0x07590dcd, 0x0b92f20c, 0x745a48de)
  const V_18 := Working(0xc2fbd9d1, 0x21da9a9b, 0xb0fa238e, 0xc0645fde, 0x846ee454, 0x8034229c, 0x07590dcd, 0x0b92f20c)
  const V_19 := Working(0xfe777bbf, 0xc2fbd9d1, 0x21da9a9b, 0xb0fa238e, 0xcc899961, 0x846ee454, 0x8034229c, 0x07590dcd)
  const V_20 := Working(0xe1f20c33, 0xfe777bbf, 0xc2fbd9d1, 0x21da9a9b, 0xb0638179, 0xcc899961, 0x846ee454, 0x8034229c)
  const V_21 := Working(0x9dc68b63, 0xe1f20c33, 0xfe777bbf, 0xc2fbd9d1, 0x8ada8930, 0xb0638179, 0xcc899961, 0x846ee454)
  const V_22 := Working(0xc2606d6d, 0x9dc68b63, 0xe1f20c33, 0xfe777bbf, 0xe1257970, 0x8ada8930, 0xb0638179, 0xcc899961)
  const V_23 := Working(0xa7a3623f, 0xc2606d6d, 0x9dc68b63, 0xe1f20c33, 0x49f5114a, 0xe1257970, 0x8ada8930, 0xb0638179)
  const V_24 := Working(0xc5d53d8d, 0xa7a3623f, 0xc2606d6d, 0x9dc68b63, 0xaa47c347, 0x49f5114a, 0xe1257970, 0x8ada8930)
  const V_25 := Working(0x1c2c2838, 0xc5d53d8d, 0xa7a3623f, 0xc2606d6d, 0x2823ef91, 0xaa47c347, 0x49f5114a, 0xe1257970)
  const V_26 := Working(0xcde8037d, 0x1c2c2838, 0xc5d53d8d, 0xa7a3623f, 0x14383d8e, 0x2823ef91, 0xaa47c347, 0x49f5114a)
  const V_27 := Working(0xb62ec4bc, 0xcde8037d, 0x1c2c2838, 0xc5d53d8d, 0xc74c6516, 0x14383d8e, 0x2823ef91, 0xaa47c347)
  const V_28 := Working(0x77d37528, 0xb62ec4bc, 0xcde8037d, 0x1c2c2838, 0xedffbff8, 0xc74c6516, 0x14383d8e, 0x2823ef91)
  const V_29 := Working(0x363482c9, 0x77d37528, 0xb62ec4bc, 0xcde8037d, 0x6112a3b7, 0xedffbff8, 0xc74c6516, 0x14383d8e)
  const V_30 := Working(0xa0060b30, 0x363482c9, 0x77d37528, 0xb62ec4bc, 0xade79437, 0x6112a3b7, 0xedffbff8, 0xc74c6516)
  const V_31 := Working(0xea992a22, 0xa0060b30, 0x363482c9, 0x77d37528, 0x0109ab3a, 0xade79437, 0x6112a3b7, 0xedffbff8)
  const V_32 := Working(0x73b33bf5, 0xea992a22, 0xa0060b30, 0x363482c9, 0xba591112, 0x0109ab3a, 0xade79437, 0x6112a3b7)
  const V_33 := Working(0x98e12507, 0x73b33bf5, 0xea992a22, 0xa0060b30, 0x9cd9f5f6, 0xba591112, 0x0109ab3a, 0xade79437)
  const V_34 := Working(0xfe604df5, 0x98e12507, 0x73b33bf5, 0xea992a22, 0x59249dd3, 0x9cd9f5f6, 0xba591112, 0x0109ab3a)
  const V_35 := Working(0xa9a7738c, 0xfe604df5, 0x98e12507, 0x73b33bf5, 0x085f3833, 0x59249dd3, 0x9cd9f5f6, 0xba591112)
  const V_36 := Working(0x65a0cfe4, 0xa9a7738c, 0xfe604df5, 0x98e12507, 0xf4b002d6, 0x085f3833, 0x59249dd3, 0x9cd9f5f6)
  const V_37 := Working(0x41a65cb1, 0x65a0cfe4, 0xa9a7738c, 0xfe604df5, 0x0772a26b, 0xf4b002d6, 0x085f3833, 0x59249dd3)
  const V_38 := Working(0x34df1604, 0x41a65cb1, 0x65a0cfe4, 0xa9a7738c, 0xa507a53d, 0x0772a26b, 0xf4b002d6, 0x085f3833)
  const V_39 := Working(0x6dc57a8a, 0x34df1604, 0x41a65cb1, 0x65a0cfe4, 0xf0781bc8, 0xa507a53d, 0x0772a26b, 0xf4b002d6)
  const V_40 := Working(0x79ea687a, 0x6dc57a8a, 0x34df1604, 0x41a65cb1, 0x1efbc0a0, 0xf0781bc8, 0xa507a53d, 0x0772a26b)
  const V_41 := Working(0xd6670766, 0x79ea687a, 0x6dc57a8a, 0x34df1604, 0x26352d63, 0x1efbc0a0, 0xf0781bc8, 0xa507a53d)
  const V_42 := Working(0xdf46652f, 0xd6670766, 0x79ea687a, 0x6dc57a8a, 0x838b2711, 0x26352d63, 0x1efbc0a0, 0xf0781bc8)
  const V_43 := Working(0x17aa0dfe, 0xdf46652f, 0xd6670766, 0x79ea687a, 0xdecd4715, 0x838b2711, 0x26352d63, 0x1efbc0a0)
  const V_44 := Working(0x9d4baf93, 0x17aa0dfe, 0xdf46652f, 0xd6670766, 0xfda24c2e, 0xdecd4715, 0x838b2711, 0x26352d63)
  const V_45 := Working(0x26628815, 0x9d4baf93, 0x17aa0dfe, 0xdf46652f, 0xa80f11f0, 0xfda24c2e, 0xdecd4715, 0x838b2711)
  const V_46 := Working(0x72ab4b91, 0x26628815, 0x9d4baf93, 0x17aa0dfe, 0xb7755da1, 0xa80f11f0, 0xfda24c2e, 0xdecd4715)
  const V_47 := Working(0xa14c14b0, 0x72ab4b91, 0x26628815, 0x9d4baf93, 0xd57b94a9, 0xb7755da1, 0xa80f11f0, 0xfda24c2e)
  const V_48 := Working(0x4172328d, 0xa14c14b0, 0x72ab4b91, 0x26628815, 0xfecf0bc6, 0xd57b94a9, 0xb7755da1, 0xa80f11f0)
  const V_49 := Working(0x05757ceb, 0x4172328d, 0xa14c14b0, 0x72ab4b91, 0xbd714038, 0xfecf0bc6, 0xd57b94a9, 0xb7755da1)
  const V_50 := Working(0xf11bfaa8, 0x05757ceb, 0x4172328d, 0xa14c14b0, 0x6e5c390c, 0xbd714038, 0xfecf0bc6, 0xd57b94a9)
  const V_51 := Working(0x7a0508a1, 0xf11bfaa8, 0x05757ceb, 0x4172328d, 0x52f1ccf7, 0x6e5c390c, 0xbd714038, 0xfecf0bc6)
  const V_52 := Working(0x886e7a22, 0x7a0508a1, 0xf11bfaa8, 0x05757ceb, 0x49231c1e, 0x52f1ccf7, 0x6e5c390c, 0xbd714038)
  const V_53 := Working(0x101fd28f, 0x886e7a22, 0x7a0508a1, 0xf11bfaa8, 0x529e7d00, 0x49231c1e, 0x52f1ccf7, 0x6e5c390c)
  const V_54 := Working(0xf5702fdb, 0x101fd28f, 0x886e7a22, 0x7a0508a1, 0x9f4787c3, 0x529e7d00, 0x49231c1e, 0x52f1ccf7)
  const V_55 := Working(0x3ec45cdb, 0xf5702fdb, 0x101fd28f, 0x886e7a22, 0xe50e1b4f, 0x9f4787c3, 0x529e7d00, 0x49231c1e)
  const V_56 := Working(0x38cc9913, 0x3ec45cdb, 0xf5702fdb, 0x101fd28f, 0x54cb266b, 0xe50e1b4f, 0x9f4787c3, 0x529e7d00)
  const V_57 := Working(0xfcd1887b, 0x38cc9913, 0x3ec45cdb, 0xf5702fdb, 0x9b5e906c, 0x54cb266b, 0xe50e1b4f, 0x9f4787c3)
  const V_58 := Working(0xc062d46f, 0xfcd1887b, 0x38cc9913, 0x3ec45cdb, 0x7e44008e, 0x9b5e906c, 0x54cb266b, 0xe50e1b4f)
  const V_59 := Working(0xffb70472, 0xc062d46f, 0xfcd1887b, 0x38cc9913, 0x6d83bfc6, 0x7e44008e, 0x9b5e906c, 0x54cb266b)
  const V_60 := Working(0xb6ae8fff, 0xffb70472, 0xc062d46f, 0xfcd1887b, 0xb21bad3d, 0x6d83bfc6, 0x7e44008e, 0x9b5e906c)
  const V_61 := Working(0xb85e2ce9, 0xb6ae8fff, 0xffb70472, 0xc062d46f, 0x961f4894, 0xb21bad3d, 0x6d83bfc6, 0x7e44008e)
  const V_62 := Working(0x04d24d6c, 0xb85e2ce9, 0xb6ae8fff, 0xffb70472, 0x948d25b6, 0x961f4894, 0xb21bad3d, 0x6d83bfc6)
  const V_63 := Working(0xd39a2165, 0x04d24d6c, 0xb85e2ce9, 0xb6ae8fff, 0xfb121210, 0x948d25b6, 0x961f4894, 0xb21bad3d)
  const V_64 := Working(0x506e3058, 0xd39a2165, 0x04d24d6c, 0xb85e2ce9, 0x5ef50f24, 0xfb121210, 0x948d25b6, 0x961f4894)

  function V0(t: nat): Working
    requires 0 <= t < 16
  {
    match t
    case 0 => V_0 case 1 => V_1 case 2 => V_2 case 3 => V_3 case 4 => V_4 case 5 => V_5 case 6 => V_6 case 7 =>
    V_7 case 8 => V_8 case 9 => V_9 case 10 => V_10 case 11 => V_11 case 12 => V_12 case 13 => V_13 case 14 =>
    V_14 case _ => V_15
  }

  function V1(t: nat): Working
    requires 16 <= t < 32
  {
    match t
    case 16 => V_16 case 17 => V_17 case 18 => V_18 case 19 => V_19 case 20 => V_20 case 21 => V_21 case 22 =>
    V_22 case 23 => V_23 case 24 => V_24 case 25 => V_25 case 26 => V_26 case 27 => V_27 case 28 => V_28 case 29
    => V_29 case 30 => V_30 case _ => V_31
  }

  function V2(t: nat): Working
    requires 32 <= t < 48
  {
    match t
    case 32 => V_32 case 33 => V_33 case 34 => V_34 case 35 => V_35 case 36 => V_36 case 37 => V_37 case 38 =>
    V_38 case 39 => V_39 case 40 => V_40 case 41 => V_41 case 42 => V_42 case 43 => V_43 case 44 => V_44 case 45
    => V_45 case 46 => V_46 case _ => V_47
  }

  function V3(t: nat): Working
    requires 48 <= t < 64
  {
    match t
    case 48 => V_48 case 49 => V_49 case 50 => V_50 case 51 => V_51 case 52 => V_52 case 53 => V_53 case 54 =>
    V_54 case 55 => V_55 case 56 => V_56 case 57 => V_57 case 58 => V_58 case 59 => V_59 case 60 => V_60 case 61
    => V_61 case 62 => V_62 case _ => V_63
  }

  function V(t: nat): Working
    requires t <= 64
  {
    if t < 16 then V0(t) else if t < 32 then V1(t) else if t < 48 then V2(t) else if t < 64 then V3(t) else V_64
  }

  /** Word t follows from those before it. */
  predicate NextWord(t: nat)
    requires 16 <= t < 64
  {
    Next(W(t - 2), W(t - 7), W(t - 15), W(t - 16)) == W(t)
  }

  function Next(w2: bv32, w7: bv32, w15: bv32, w16: bv32): bv32 {
    Add(Add(Add(SmallSigma1(w2), w7), SmallSigma0(w15)), w16)
  }

  predicate NextVariables(t: nat)
    requires t < 64
  {
    Round(V(t), K256(t), W(t)) == V(t + 1)
  }

  predicate Word(t: nat, w: bv32) {
    t < 64 && W(t) == w
  }

  predicate Turn(v: Working, k: bv32, w: bv32, u: Working) {
    Round(v, k, w) == u
  }

  lemma TurnIs(t: nat, v: Working, p: nat, k: bv32, w: bv32, u: Working)
    requires t < 64 && V(t) == v && Constant(t, p, k) && Word(t, w) && V(t + 1) == u && Turn(v, k, w, u)
    ensures NextVariables(t)
  {
    hide V, K256, W, Round;
  }

  lemma NextWordIs(t: nat, w2: bv32, w7: bv32, w15: bv32, w16: bv32, w: bv32)
    requires 16 <= t < 64 && Word(t - 2, w2) && Word(t - 7, w7) && Word(t - 15, w15) && Word(t - 16, w16)
    requires Word(t, w) && Next(w2, w7, w15, w16) == w
    ensures NextWord(t)
  {
    hide W, Next;
  }

  lemma Words0()
    ensures Word(0, 0x61626380) && Word(1, 0x00000000) && Word(2, 0x00000000) && Word(3, 0x00000000)
    ensures Word(4, 0x00000000) && Word(5, 0x00000000) && Word(6, 0x00000000) && Word(7, 0x00000000)
  {
  }

  lemma Words8()
    ensures Word(8, 0x00000000) && Word(9, 0x00000000) && Word(10, 0x00000000) && Word(11, 0x00000000)
    ensures Word(12, 0x00000000) && Word(13, 0x00000000) && Word(14, 0x00000000) && Word(15, 0x00000018)
  {
  }

  lemma Words16()
    ensures Word(16, 0x61626380) && Word(17, 0x000f0000) && Word(18, 0x7da86405) && Word(19, 0x600003c6)
    ensures Word(20, 0x3e9d7b78) && Word(21, 0x0183fc00) && Word(22, 0x12dcbfdb) && Word(23, 0xe2e2c38e)
  {
  }

  lemma Words24()
    ensures Word(24, 0xc8215c1a) && Word(25, 0xb73679a2) && Word(26, 0xe5bc3909) && Word(27, 0x32663c5b)
    ensures Word(28, 0x9d209d67) && Word(29, 0xec8726cb) && Word(30, 0x702138a4) && Word(31, 0xd3b7973b)
  {
  }

  lemma Words32()
    ensures Word(32, 0x93f5997f) && Word(33, 0x3b68ba73) && Word(34, 0xaff4ffc1) && Word(35, 0xf10a5c62)
    ensures Word(36, 0x0a8b3996) && Word(37, 0x72af830a) && Word(38, 0x9409e33e) && Word(39, 0x24641522)
  {
  }

  lemma Words40()
    ensures Word(40, 0x9f47bf94) && Word(41, 0xf0a64f5a) && Word(42, 0x3e246a79) && Word(43, 0x27333ba3)
    ensures Word(44, 0x0c4763f2) && Word(45, 0x840abf27) && Word(46, 0x7a290d5d) && Word(47, 0x065c43da)
  {
  }

  lemma Words48()
    ensures Word(48, 0xfb3e89cb) && Word(49, 0xcc7617db) && Word(50, 0xb9e66c34) && Word(51, 0xa9993667)
    ensures Word(52, 0x84badedd) && Word(53, 0xc21462bc) && Word(54, 0x1487472c) && Word(55, 0xb20f7a99)
  {
  }

  lemma Words56()
    ensures Word(56, 0xef57b9cd) && Word(57, 0xebe6b238) && Word(58, 0x9fe3095e) && Word(59, 0x78bc8d4b)
    ensures Word(60, 0xa43fcf15) && Word(61, 0x668b2ff8) && Word(62, 0xeeaba2cc) && Word(63, 0x12b1edeb)
  {
  }

  lemma Turns0()
    ensures Turn(V_0, 0x428a2f98, 0x61626380, V_1)
    ensures Turn(V_1, 0x71374491, 0x00000000, V_2)
    ensures Turn(V_2, 0xb5c0fbcf, 0x00000000, V_3)
    ensures Turn(V_3, 0xe9b5dba5, 0x00000000, V_4)
    ensures Turn(V_4, 0x3956c25b, 0x00000000, V_5)
    ensures Turn(V_5, 0x59f111f1, 0x00000000, V_6)
    ensures Turn(V_6, 0x923f82a4, 0x00000000, V_7)
    ensures Turn(V_7, 0xab1c5ed5, 0x00000000, V_8)
  {
  }

  lemma Variables0()
    ensures V(0) == V_0 && V(1) == V_1 && V(2) == V_2 && V(3) == V_3 && V(4) == V_4
    ensures V(5) == V_5 && V(6) == V_6 && V(7) == V_7 && V(8) == V_8
  {
  }

  lemma Rounds0(t: nat)
    requires 0 <= t < 8
    ensures NextVariables(t)
  {
    hide *;
    Variables0();
    RoundTable0();
    RoundTable4();
    Words0();
    Turns0();
    match t
    case 0 => TurnIs(0, V_0, 2, 0x428a2f98, 0x61626380, V_1);
    case 1 => TurnIs(1, V_1, 3, 0x71374491, 0x00000000, V_2);
    case 2 => TurnIs(2, V_2, 5, 0xb5c0fbcf, 0x00000000, V_3);
    case 3 => TurnIs(3, V_3, 7, 0xe9b5dba5, 0x00000000, V_4);
    case 4 => TurnIs(4, V_4, 11, 0x3956c25b, 0x00000000, V_5);
    case 5 => TurnIs(5, V_5, 13, 0x59f111f1, 0x00000000, V_6);
    case 6 => TurnIs(6, V_6, 17, 0x923f82a4, 0x00000000, V_7);
    case _ => TurnIs(7, V_7, 19, 0xab1c5ed5, 0x00000000, V_8);
  }

  lemma Turns8()
    ensures Turn(V_8, 0xd807aa98, 0x00000000, V_9)
    ensures Turn(V_9, 0x12835b01, 0x00000000, V_10)
    ensures Turn(V_10, 0x243185be, 0x00000000, V_11)
    ensures Turn(V_11, 0x550c7dc3, 0x00000000, V_12)
    ensures Turn(V_12, 0x72be5d74, 0x00000000, V_13)
    ensures Turn(V_13, 0x80deb1fe, 0x00000000, V_14)
    ensures Turn(V_14, 0x9bdc06a7, 0x00000000, V_15)
    ensures Turn(V_15, 0xc19bf174, 0x00000018, V_16)
  {
  }

  lemma Variables8()
    ensures V(8) == V_8 && V(9) == V_9 && V(10) == V_10 && V(11) == V_11 && V(12) == V_12
    ensures V(13) == V_13 && V(14) == V_14 && V(15) == V_15 && V(16) == V_16
  {
  }

  lemma Rounds8(t: nat)
    requires 8 <= t < 16
    ensures NextVariables(t)
  {
    hide *;
    Variables8();
    RoundTable8();
    RoundTable12();
    Words8();
    Turns8();
    match t
    case 8 => TurnIs(8, V_8, 23, 0xd807aa98, 0x00000000, V_9);
    case 9 => TurnIs(9, V_9, 29, 0x12835b01, 0x00000000, V_10);
    case 10 => TurnIs(10, V_10, 31, 0x243185be, 0x00000000, V_11);
    case 11 => TurnIs(11, V_11, 37, 0x550c7dc3, 0x00000000, V_12);
    case 12 => TurnIs(12, V_12, 41, 0x72be5d74, 0x00000000, V_13);
    case 13 => TurnIs(13, V_13, 43, 0x80deb1fe, 0x00000000, V_14);
    case 14 => TurnIs(14, V_14, 47, 0x9bdc06a7, 0x00000000, V_15);
    case _ => TurnIs(15, V_15, 53, 0xc19bf174, 0x00000018, V_16);
  }

  lemma Turns16()
    ensures Turn(V_16, 0xe49b69c1, 0x61626380, V_17)
    ensures Turn(V_17, 0xefbe4786, 0x000f0000, V_18)
    ensures Turn(V_18, 0x0fc19dc6, 0x7da86405, V_19)
    ensures Turn(V_19, 0x240ca1cc, 0x600003c6, V_20)
    ensures Turn(V_20, 0x2de92c6f, 0x3e9d7b78, V_21)
    ensures Turn(V_21, 0x4a7484aa, 0x0183fc00, V_22)
    ensures Turn(V_22, 0x5cb0a9dc, 0x12dcbfdb, V_23)
    ensures Turn(V_23, 0x76f988da, 0xe2e2c38e, V_24)
  {
  }

  lemma Variables16()
    ensures V(16) == V_16 && V(17) == V_17 && V(18) == V_18 && V(19) == V_19 && V(20) == V_20
    ensures V(21) == V_21 && V(22) == V_22 && V(23) == V_23 && V(24) == V_24
  {
  }

  lemma Rounds16(t: nat)
    requires 16 <= t < 24
    ensures NextVariables(t)
  {
    hide *;
    Variables16();
    RoundTable16();
    RoundTable20();
    Words16();
    Turns16();
    match t
    case 16 => TurnIs(16, V_16, 59, 0xe49b69c1, 0x61626380, V_17);
    case 17 => TurnIs(17, V_17, 61, 0xefbe4786, 0x000f0000, V_18);
    case 18 => TurnIs(18, V_18, 67, 0x0fc19dc6, 0x7da86405, V_19);
    case 19 => TurnIs(19, V_19, 71, 0x240ca1cc, 0x600003c6, V_20);
    case 20 => TurnIs(20, V_20, 73, 0x2de92c6f, 0x3e9d7b78, V_21);
    case 21 => TurnIs(21, V_21, 79, 0x4a7484aa, 0x0183fc00, V_22);
    case 22 => TurnIs(22, V_22, 83, 0x5cb0a9dc, 0x12dcbfdb, V_23);
    case _ => TurnIs(23, V_23, 89, 0x76f988da, 0xe2e2c38e, V_24);
  }

  lemma Turns24()
    ensures Turn(V_24, 0x983e5152, 0xc8215c1a, V_25)
    ensures Turn(V_25, 0xa831c66d, 0xb73679a2, V_26)
    ensures Turn(V_26, 0xb00327c8, 0xe5bc3909, V_27)
    ensures Turn(V_27, 0xbf597fc7, 0x32663c5b, V_28)
    ensures Turn(V_28, 0xc6e00bf3, 0x9d209d67, V_29)
    ensures Turn(V_29, 0xd5a79147, 0xec8726cb, V_30)
    ensures Turn(V_30, 0x06ca6351, 0x702138a4, V_31)
    ensures Turn(V_31, 0x14292967, 0xd3b7973b, V_32)
  {
  }

  lemma Variables24()
    ensures V(24) == V_24 && V(25) == V_25 && V(26) == V_26 && V(27) == V_27 && V(28) == V_28
    ensures V(29) == V_29 && V(30) == V_30 && V(31) == V_31 && V(32) == V_32
  {
  }

  lemma Rounds24(t: nat)
    requires 24 <= t < 32
    ensures NextVariables(t)
  {
    hide *;
    Variables24();
    RoundTable24();
    RoundTable28();
    Words24();
    Turns24();
    match t
    case 24 => TurnIs(24, V_24, 97, 0x983e5152, 0xc8215c1a, V_25);
    case 25 => TurnIs(25, V_25, 101, 0xa831c66d, 0xb73679a2, V_26);
    case 26 => TurnIs(26, V_26, 103, 0xb00327c8, 0xe5bc3909, V_27);
    case 27 => TurnIs(27, V_27, 107, 0xbf597fc7, 0x32663c5b, V_28);
    case 28 => TurnIs(28, V_28, 109, 0xc6e00bf3, 0x9d209d67, V_29);
    case 29 => TurnIs(29, V_29, 113, 0xd5a79147, 0xec8726cb, V_30);
    case 30 => TurnIs(30, V_30, 127, 0x06ca6351, 0x702138a4, V_31);
    case _ => TurnIs(31, V_31, 131, 0x14292967, 0xd3b7973b, V_32);
  }

  lemma Turns32()
    ensures Turn(V_32, 0x27b70a85, 0x93f5997f, V_33)
    ensures Turn(V_33, 0x2e1b2138, 0x3b68ba73, V_34)
    ensures Turn(V_34, 0x4d2c6dfc, 0xaff4ffc1, V_35)
    ensures Turn(V_35, 0x53380d13, 0xf10a5c62, V_36)
    ensures Turn(V_36, 0x650a7354, 0x0a8b3996, V_37)
    ensures Turn(V_37, 0x766a0abb, 0x72af830a, V_38)
    ensures Turn(V_38, 0x81c2c92e, 0x9409e33e, V_39)
    ensures Turn(V_39, 0x92722c85, 0x24641522, V_40)
  {
  }

  lemma Variables32()
    ensures V(32) == V_32 && V(33) == V_33 && V(34) == V_34 && V(35) == V_35 && V(36) == V_36
    ensures V(37) == V_37 && V(38) == V_38 && V(39) == V_39 && V(40) == V_40
  {
  }

  lemma Rounds32(t: nat)
    requires 32 <= t < 40
    ensures NextVariables(t)
  {
    hide *;
    Variables32();
    RoundTable32();
    RoundTable36();
    Words32();
    Turns32();
    match t
    case 32 => TurnIs(32, V_32, 137, 0x27b70a85, 0x93f5997f, V_33);
    case 33 => TurnIs(33, V_33, 139, 0x2e1b2138, 0x3b68ba73, V_34);
    case 34 => TurnIs(34, V_34, 149, 0x4d2c6dfc, 0xaff4ffc1, V_35);
    case 35 => TurnIs(35, V_35, 151, 0x53380d13, 0xf10a5c62, V_36);
    case 36 => TurnIs(36, V_36, 157, 0x650a7354, 0x0a8b3996, V_37);
    case 37 => TurnIs(37, V_37, 163, 0x766a0abb, 0x72af830a, V_38);
    case 38 => TurnIs(38, V_38, 167, 0x81c2c92e, 0x9409e33e, V_39);
    case _ => TurnIs(39, V_39, 173, 0x92722c85, 0x24641522, V_40);
  }

  lemma Turns40()
    ensures Turn(V_40, 0xa2bfe8a1, 0x9f47bf94, V_41)
    ensures Turn(V_41, 0xa81a664b, 0xf0a64f5a, V_42)
    ensures Turn(V_42, 0xc24b8b70, 0x3e246a79, V_43)
    ensures Turn(V_43, 0xc76c51a3, 0x27333ba3, V_44)
    ensures Turn(V_44, 0xd192e819, 0x0c4763f2, V_45)
    ensures Turn(V_45, 0xd6990624, 0x840abf27, V_46)
    ensures Turn(V_46, 0xf40e3585, 0x7a290d5d, V_47)
    ensures Turn(V_47, 0x106aa070, 0x065c43da, V_48)
  {
  }

  lemma Variables40()
    ensures V(40) == V_40 && V(41) == V_41 && V(42) == V_42 && V(43) == V_43 && V(44) == V_44
    ensures V(45) == V_45 && V(46) == V_46 && V(47) == V_47 && V(48) == V_48
  {
  }

  lemma Rounds40(t: nat)
    requires 40 <= t < 48
    ensures NextVariables(t)
  {
    hide *;
    Variables40();
    RoundTable40();
    RoundTable44();
    Words40();
    Turns40();
    match t
    case 40 => TurnIs(40, V_40, 179, 0xa2bfe8a1, 0x9f47bf94, V_41);
    case 41 => TurnIs(41, V_41, 181, 0xa81a664b, 0xf0a64f5a, V_42);
    case 42 => TurnIs(42, V_42, 191, 0xc24b8b70, 0x3e246a79, V_43);
    case 43 => TurnIs(43, V_43, 193, 0xc76c51a3, 0x27333ba3, V_44);
    case 44 => TurnIs(44, V_44, 197, 0xd192e819, 0x0c4763f2, V_45);
    case 45 => TurnIs(45, V_45, 199, 0xd6990624, 0x840abf27, V_46);
    case 46 => TurnIs(46, V_46, 211, 0xf40e3585, 0x7a290d5d, V_47);
    case _ => TurnIs(47, V_47, 223, 0x106aa070, 0x065c43da, V_48);
  }

  lemma Turns48()
    ensures Turn(V_48, 0x19a4c116, 0xfb3e89cb, V_49)
    ensures Turn(V_49, 0x1e376c08, 0xcc7617db, V_50)
    ensures Turn(V_50, 0x2748774c, 0xb9e66c34, V_51)
    ensures Turn(V_51, 0x34b0bcb5, 0xa9993667, V_52)
    ensures Turn(V_52, 0x391c0cb3, 0x84badedd, V_53)
    ensures Turn(V_53, 0x4ed8aa4a, 0xc21462bc, V_54)
    ensures Turn(V_54, 0x5b9cca4f, 0x1487472c, V_55)
    ensures Turn(V_55, 0x682e6ff3, 0xb20f7a99, V_56)
  {
  }

  lemma Variables48()
    ensures V(48) == V_48 && V(49) == V_49 && V(50) == V_50 && V(51) == V_51 && V(52) == V_52
    ensures V(53) == V_53 && V(54) == V_54 && V(55) == V_55 && V(56) == V_56
  {
  }

  lemma Rounds48(t: nat)
    requires 48 <= t < 56
    ensures NextVariables(t)
  {
    hide *;
    Variables48();
    RoundTable48();
    RoundTable52();
    Words48();
    Turns48();
    match t
    case 48 => TurnIs(48, V_48, 227, 0x19a4c116, 0xfb3e89cb, V_49);
    case 49 => TurnIs(49, V_49, 229, 0x1e376c08, 0xcc7617db, V_50);
    case 50 => TurnIs(50, V_50, 233, 0x2748774c, 0xb9e66c34, V_51);
    case 51 => TurnIs(51, V_51, 239, 0x34b0bcb5, 0xa9993667, V_52);
    case 52 => TurnIs(52, V_52, 241, 0x391c0cb3, 0x84badedd, V_53);
    case 53 => TurnIs(53, V_53, 251, 0x4ed8aa4a, 0xc21462bc, V_54);
    case 54 => TurnIs(54, V_54, 257, 0x5b9cca4f, 0x1487472c, V_55);
    case _ => TurnIs(55, V_55, 263, 0x682e6ff3, 0xb20f7a99, V_56);
  }

  lemma Turns56()
    ensures Turn(V_56, 0x748f82ee, 0xef57b9cd, V_57)
    ensures Turn(V_57, 0x78a5636f, 0xebe6b238, V_58)
    ensures Turn(V_58, 0x84c87814, 0x9fe3095e, V_59)
    ensures Turn(V_59, 0x8cc70208, 0x78bc8d4b, V_60)
    ensures Turn(V_60, 0x90befffa, 0xa43fcf15, V_61)
    ensures Turn(V_61, 0xa4506ceb, 0x668b2ff8, V_62)
    ensures Turn(V_62, 0xbef9a3f7, 0xeeaba2cc, V_63)
    ensures Turn(V_63, 0xc67178f2, 0x12b1edeb, V_64)
  {
  }

  lemma Variables56()
    ensures V(56) == V_56 && V(57) == V_57 && V(58) == V_58 && V(59) == V_59 && V(60) == V_60
    ensures V(61) == V_61 && V(62) == V_62 && V(63) == V_63 && V(64) == V_64
  {
  }

  lemma Rounds56(t: nat)
    requires 56 <= t < 64
    ensures NextVariables(t)
  {
    hide *;
    Variables56();
    RoundTable56();
    RoundTable60();
    Words56();
    Turns56();
    match t
    case 56 => TurnIs(56, V_56, 269, 0x748f82ee, 0xef57b9cd, V_57);
    case 57 => TurnIs(57, V_57, 271, 0x78a5636f, 0xebe6b238, V_58);
    case 58 => TurnIs(58, V_58, 277, 0x84c87814, 0x9fe3095e, V_59);
    case 59 => TurnIs(59, V_59, 281, 0x8cc70208, 0x78bc8d4b, V_60);
    case 60 => TurnIs(60, V_60, 283, 0x90befffa, 0xa43fcf15, V_61);
    case 61 => TurnIs(61, V_61, 293, 0xa4506ceb, 0x668b2ff8, V_62);
    case 62 => TurnIs(62, V_62, 307, 0xbef9a3f7, 0xeeaba2cc, V_63);
    case _ => TurnIs(63, V_63, 311, 0xc67178f2, 0x12b1edeb, V_64);
  }

  lemma Sums16()
    ensures Next(0x00000000, 0x00000000, 0x00000000, 0x61626380) == 0x61626380
    ensures Next(0x00000018, 0x00000000, 0x00000000, 0x00000000) == 0x000f0000
    ensures Next(0x61626380, 0x00000000, 0x00000000, 0x00000000) == 0x7da86405
    ensures Next(0x000f0000, 0x00000000, 0x00000000, 0x00000000) == 0x600003c6
    ensures Next(0x7da86405, 0x00000000, 0x00000000, 0x00000000) == 0x3e9d7b78
    ensures Next(0x600003c6, 0x00000000, 0x00000000, 0x00000000) == 0x0183fc00
    ensures Next(0x3e9d7b78, 0x00000018, 0x00000000, 0x00000000) == 0x12dcbfdb
    ensures Next(0x0183fc00, 0x61626380, 0x00000000, 0x00000000) == 0xe2e2c38e
  {
  }

  lemma Schedule16(t: nat)
    requires 16 <= t < 24
    ensures NextWord(t)
  {
    hide *;
    Sums16();
    Words0();
    Words8();
    Words16();
    match t
    case 16 => NextWordIs(16, 0x00000000, 0x00000000, 0x00000000, 0x61626380, 0x61626380);
    case 17 => NextWordIs(17, 0x00000018, 0x00000000, 0x00000000, 0x00000000, 0x000f0000);
    case 18 => NextWordIs(18, 0x61626380, 0x00000000, 0x00000000, 0x00000000, 0x7da86405);
    case 19 => NextWordIs(19, 0x000f0000, 0x00000000, 0x00000000, 0x00000000, 0x600003c6);
    case 20 => NextWordIs(20, 0x7da86405, 0x00000000, 0x00000000, 0x00000000, 0x3e9d7b78);
    case 21 => NextWordIs(21, 0x600003c6, 0x00000000, 0x00000000, 0x00000000, 0x0183fc00);
    case 22 => NextWordIs(22, 0x3e9d7b78, 0x00000018, 0x00000000, 0x00000000, 0x12dcbfdb);
    case _ => NextWordIs(23, 0x0183fc00, 0x61626380, 0x00000000, 0x00000000, 0xe2e2c38e);
  }

  lemma Sums24()
    ensures Next(0x12dcbfdb, 0x000f0000, 0x00000000, 0x00000000) == 0xc8215c1a
    ensures Next(0xe2e2c38e, 0x7da86405, 0x00000000, 0x00000000) == 0xb73679a2
    ensures Next(0xc8215c1a, 0x600003c6, 0x00000000, 0x00000000) == 0xe5bc3909
    ensures Next(0xb73679a2, 0x3e9d7b78, 0x00000000, 0x00000000) == 0x32663c5b
    ensures Next(0xe5bc3909, 0x0183fc00, 0x00000000, 0x00000000) == 0x9d209d67
    ensures Next(0x32663c5b, 0x12dcbfdb, 0x00000000, 0x00000000) == 0xec8726cb
    ensures Next(0x9d209d67, 0xe2e2c38e, 0x00000018, 0x00000000) == 0x702138a4
    ensures Next(0xec8726cb, 0xc8215c1a, 0x61626380, 0x00000018) == 0xd3b7973b
  {
  }

  lemma Schedule24(t: nat)
    requires 24 <= t < 32
    ensures NextWord(t)
  {
    hide *;
    Sums24();
    Words8();
    Words16();
    Words24();
    match t
    case 24 => NextWordIs(24, 0x12dcbfdb, 0x000f0000, 0x00000000, 0x00000000, 0xc8215c1a);
    case 25 => NextWordIs(25, 0xe2e2c38e, 0x7da86405, 0x00000000, 0x00000000, 0xb73679a2);
    case 26 => NextWordIs(26, 0xc8215c1a, 0x600003c6, 0x00000000, 0x00000000, 0xe5bc3909);
    case 27 => NextWordIs(27, 0xb73679a2, 0x3e9d7b78, 0x00000000, 0x00000000, 0x32663c5b);
    case 28 => NextWordIs(28, 0xe5bc3909, 0x0183fc00, 0x00000000, 0x00000000, 0x9d209d67);
    case 29 => NextWordIs(29, 0x32663c5b, 0x12dcbfdb, 0x00000000, 0x00000000, 0xec8726cb);
    case 30 => NextWordIs(30, 0x9d209d67, 0xe2e2c38e, 0x00000018, 0x00000000, 0x702138a4);
    case _ => NextWordIs(31, 0xec8726cb, 0xc8215c1a, 0x61626380, 0x00000018, 0xd3b7973b);
  }

  lemma Sums32()
    ensures Next(0x702138a4, 0xb73679a2, 0x000f0000, 0x61626380) == 0x93f5997f
    ensures Next(0xd3b7973b, 0xe5bc3909, 0x7da86405, 0x000f0000) == 0x3b68ba73
    ensures Next(0x93f5997f, 0x32663c5b, 0x600003c6, 0x7da86405) == 0xaff4ffc1
    ensures Next(0x3b68ba73, 0x9d209d67, 0x3e9d7b78, 0x600003c6) == 0xf10a5c62
    ensures Next(0xaff4ffc1, 0xec8726cb, 0x0183fc00, 0x3e9d7b78) == 0x0a8b3996
    ensures Next(0xf10a5c62, 0x702138a4, 0x12dcbfdb, 0x0183fc00) == 0x72af830a
    ensures Next(0x0a8b3996, 0xd3b7973b, 0xe2e2c38e, 0x12dcbfdb) == 0x9409e33e
    ensures Next(0x72af830a, 0x93f5997f, 0xc8215c1a, 0xe2e2c38e) == 0x24641522
  {
  }

  lemma Schedule32(t: nat)
    requires 32 <= t < 40
    ensures NextWord(t)
  {
    hide *;
    Sums32();
    Words16();
    Words24();
    Words32();
    match t
    case 32 => NextWordIs(32, 0x702138a4, 0xb73679a2, 0x000f0000, 0x61626380, 0x93f5997f);
    case 33 => NextWordIs(33, 0xd3b7973b, 0xe5bc3909, 0x7da86405, 0x000f0000, 0x3b68ba73);
    case 34 => NextWordIs(34, 0x93f5997f, 0x32663c5b, 0x600003c6, 0x7da86405, 0xaff4ffc1);
    case 35 => NextWordIs(35, 0x3b68ba73, 0x9d209d67, 0x3e9d7b78, 0x600003c6, 0xf10a5c62);
    case 36 => NextWordIs(36, 0xaff4ffc1, 0xec8726cb, 0x0183fc00, 0x3e9d7b78, 0x0a8b3996);
    case 37 => NextWordIs(37, 0xf10a5c62, 0x702138a4, 0x12dcbfdb, 0x0183fc00, 0x72af830a);
    case 38 => NextWordIs(38, 0x0a8b3996, 0xd3b7973b, 0xe2e2c38e, 0x12dcbfdb, 0x9409e33e);
    case _ => NextWordIs(39, 0x72af830a, 0x93f5997f, 0xc8215c1a, 0xe2e2c38e, 0x24641522);
  }

  lemma Sums40()
    ensures Next(0x9409e33e, 0x3b68ba73, 0xb73679a2, 0xc8215c1a) == 0x9f47bf94
    ensures Next(0x24641522, 0xaff4ffc1, 0xe5bc3909, 0xb73679a2) == 0xf0a64f5a
    ensures Next(0x9f47bf94, 0xf10a5c62, 0x32663c5b, 0xe5bc3909) == 0x3e246a79
    ensures Next(0xf0a64f5a, 0x0a8b3996, 0x9d209d67, 0x32663c5b) == 0x27333ba3
    ensures Next(0x3e246a79, 0x72af830a, 0xec8726cb, 0x9d209d67) == 0x0c4763f2
    ensures Next(0x27333ba3, 0x9409e33e, 0x702138a4, 0xec8726cb) == 0x840abf27
    ensures Next(0x0c4763f2, 0x24641522, 0xd3b7973b, 0x702138a4) == 0x7a290d5d
    ensures Next(0x840abf27, 0x9f47bf94, 0x93f5997f, 0xd3b7973b) == 0x065c43da
  {
  }

  lemma Schedule40(t: nat)
    requires 40 <= t < 48
    ensures NextWord(t)
  {
    hide *;
    Sums40();
    Words24();
    Words32();
    Words40();
    match t
    case 40 => NextWordIs(40, 0x9409e33e, 0x3b68ba73, 0xb73679a2, 0xc8215c1a, 0x9f47bf94);
    case 41 => NextWordIs(41, 0x24641522, 0xaff4ffc1, 0xe5bc3909, 0xb73679a2, 0xf0a64f5a);
    case 42 => NextWordIs(42, 0x9f47bf94, 0xf10a5c62, 0x32663c5b, 0xe5bc3909, 0x3e246a79);
    case 43 => NextWordIs(43, 0xf0a64f5a, 0x0a8b3996, 0x9d209d67, 0x32663c5b, 0x27333ba3);
    case 44 => NextWordIs(44, 0x3e246a79, 0x72af830a, 0xec8726cb, 0x9d209d67, 0x0c4763f2);
    case 45 => NextWordIs(45, 0x27333ba3, 0x9409e33e, 0x702138a4, 0xec8726cb, 0x840abf27);
    case 46 => NextWordIs(46, 0x0c4763f2, 0x24641522, 0xd3b7973b, 0x702138a4, 0x7a290d5d);
    case _ => NextWordIs(47, 0x840abf27, 0x9f47bf94, 0x93f5997f, 0xd3b7973b, 0x065c43da);
  }

  lemma Sums48()
    ensures Next(0x7a290d5d, 0xf0a64f5a, 0x3b68ba73, 0x93f5997f) == 0xfb3e89cb
    ensures Next(0x065c43da, 0x3e246a79, 0xaff4ffc1, 0x3b68ba73) == 0xcc7617db
    ensures Next(0xfb3e89cb, 0x27333ba3, 0xf10a5c62, 0xaff4ffc1) == 0xb9e66c34
    ensures Next(0xcc7617db, 0x0c4763f2, 0x0a8b3996, 0xf10a5c62) == 0xa9993667
    ensures Next(0xb9e66c34, 0x840abf27, 0x72af830a, 0x0a8b3996) == 0x84badedd
    ensures Next(0xa9993667, 0x7a290d5d, 0x9409e33e, 0x72af830a) == 0xc21462bc
    ensures Next(0x84badedd, 0x065c43da, 0x24641522, 0x9409e33e) == 0x1487472c
    ensures Next(0xc21462bc, 0xfb3e89cb, 0x9f47bf94, 0x24641522) == 0xb20f7a99
  {
  }

  lemma Schedule48(t: nat)
    requires 48 <= t < 56
    ensures NextWord(t)
  {
    hide *;
    Sums48();
    Words32();
    Words40();
    Words48();
    match t
    case 48 => NextWordIs(48, 0x7a290d5d, 0xf0a64f5a, 0x3b68ba73, 0x93f5997f, 0xfb3e89cb);
    case 49 => NextWordIs(49, 0x065c43da, 0x3e246a79, 0xaff4ffc1, 0x3b68ba73, 0xcc7617db);
    case 50 => NextWordIs(50, 0xfb3e89cb, 0x27333ba3, 0xf10a5c62, 0xaff4ffc1, 0xb9e66c34);
    case 51 => NextWordIs(51, 0xcc7617db, 0x0c4763f2, 0x0a8b3996, 0xf10a5c62, 0xa9993667);
    case 52 => NextWordIs(52, 0xb9e66c34, 0x840abf27, 0x72af830a, 0x0a8b3996, 0x84badedd);
    case 53 => NextWordIs(53, 0xa9993667, 0x7a290d5d, 0x9409e33e, 0x72af830a, 0xc21462bc);
    case 54 => NextWordIs(54, 0x84badedd, 0x065c43da, 0x24641522, 0x9409e33e, 0x1487472c);
    case _ => NextWordIs(55, 0xc21462bc, 0xfb3e89cb, 0x9f47bf94, 0x24641522, 0xb20f7a99);
  }

  lemma Sums56()
    ensures Next(0x1487472c, 0xcc7617db, 0xf0a64f5a, 0x9f47bf94) == 0xef57b9cd
    ensures Next(0xb20f7a99, 0xb9e66c34, 0x3e246a79, 0xf0a64f5a) == 0xebe6b238
    ensures Next(0xef57b9cd, 0xa9993667, 0x27333ba3, 0x3e246a79) == 0x9fe3095e
    ensures Next(0xebe6b238, 0x84badedd, 0x0c4763f2, 0x27333ba3) == 0x78bc8d4b
    ensures Next(0x9fe3095e, 0xc21462bc, 0x840abf27, 0x0c4763f2) == 0xa43fcf15
    ensures Next(0x78bc8d4b, 0x1487472c, 0x7a290d5d, 0x840abf27) == 0x668b2ff8
    ensures Next(0xa43fcf15, 0xb20f7a99, 0x065c43da, 0x7a290d5d) == 0xeeaba2cc
    ensures Next(0x668b2ff8, 0xef57b9cd, 0xfb3e89cb, 0x065c43da) == 0x12b1edeb
  {
  }

  lemma Schedule56(t: nat)
    requires 56 <= t < 64
    ensures NextWord(t)
  {
    hide *;
    Sums56();
    Words40();
    Words48();
    Words56();
    match t
    case 56 => NextWordIs(56, 0x1487472c, 0xcc7617db, 0xf0a64f5a, 0x9f47bf94, 0xef57b9cd);
    case 57 => NextWordIs(57, 0xb20f7a99, 0xb9e66c34, 0x3e246a79, 0xf0a64f5a, 0xebe6b238);
    case 58 => NextWordIs(58, 0xef57b9cd, 0xa9993667, 0x27333ba3, 0x3e246a79, 0x9fe3095e);
    case 59 => NextWordIs(59, 0xebe6b238, 0x84badedd, 0x0c4763f2, 0x27333ba3, 0x78bc8d4b);
    case 60 => NextWordIs(60, 0x9fe3095e, 0xc21462bc, 0x840abf27, 0x0c4763f2, 0xa43fcf15);
    case 61 => NextWordIs(61, 0x78bc8d4b, 0x1487472c, 0x7a290d5d, 0x840abf27, 0x668b2ff8);
    case 62 => NextWordIs(62, 0xa43fcf15, 0xb20f7a99, 0x065c43da, 0x7a290d5d, 0xeeaba2cc);
    case _ => NextWordIs(63, 0x668b2ff8, 0xef57b9cd, 0xfb3e89cb, 0x065c43da, 0x12b1edeb);
  }

  lemma FirstWords(t: nat)
    requires t < 16
    ensures W(t) == ABC_BLOCK[t]
  {
  }

  lemma {:induction false} ScheduleIs(t: nat)
    requires t < 64
    ensures Schedule(ABC_BLOCK, t) == W(t)
  {
    if t < 16 {
      FirstWords(t);
    } else {
      ScheduleIs(t - 2);
      ScheduleIs(t - 7);
      ScheduleIs(t - 15);
      ScheduleIs(t - 16);
      hide W, Add, SmallSigma0, SmallSigma1;
      if t < 24 { Schedule16(t); }
      else if t < 32 { Schedule24(t); }
      else if t < 40 { Schedule32(t); }
      else if t < 48 { Schedule40(t); }
      else if t < 56 { Schedule48(t); }
      else { Schedule56(t); }
    }
  }

  lemma StartOfAbc()
    ensures |INITIAL_HASH_VALUE| == 8 && Start(INITIAL_HASH_VALUE) == V(0)
  {
  }

  lemma {:induction false} RoundsAre(n: nat)
    requires n <= 64
    ensures |INITIAL_HASH_VALUE| == 8 && Rounds(Start(INITIAL_HASH_VALUE), ABC_BLOCK, n) == V(n)
  {
    StartOfAbc();
    hide V, W, K256, Start, Schedule, Round;
    if n > 0 {
      RoundsAre(n - 1);
      ScheduleIs(n - 1);
      LastRound(n - 1);
    }
  }

  lemma LastRound(t: nat)
    requires t < 64
    ensures NextVariables(t)
  {
    hide *;
    if t < 8 { Rounds0(t); }
    else if t < 16 { Rounds8(t); }
    else if t < 24 { Rounds16(t); }
    else if t < 32 { Rounds24(t); }
    else if t < 40 { Rounds32(t); }
    else if t < 48 { Rounds40(t); }
    else if t < 56 { Rounds48(t); }
    else { Rounds56(t); }
  }

  // The digest.

  const ABC: seq<bv8> := [0x61, 0x62, 0x63]

  const ABC_HASH: seq<bv32> := [
    0xba7816bf, 0x8f01cfea, 0x414140de, 0x5dae2223, 0xb00361a3, 0x96177a9c, 0xb410ff61, 0xf20015ad]

  lemma LastVariables()
    ensures V(64) == V_64
  {
  }

  lemma SumOfHashes()
    ensures |INITIAL_HASH_VALUE| == 8 && AddTo(INITIAL_HASH_VALUE, V_64) == ABC_HASH
  {
  }

  lemma HashOfAbc()
    ensures |INITIAL_HASH_VALUE| == 8 && Compress(INITIAL_HASH_VALUE, ABC_BLOCK) == ABC_HASH
  {
    LastVariables();
    RoundsAre(64);
    SumOfHashes();
    hide Rounds, Start, AddTo, V;
  }

  lemma PaddedAbc()
    ensures |Padded(ABC)| == 64 && Words(Padded(ABC)) == ABC_BLOCK
  {
    assert |ABC| < MESSAGE_LIMIT;
    hide *;
    BytesOfPadded();
    WordsOfPadded(Padded(ABC));
  }

  lemma BytesOfPadded()
    ensures var s := Padded(ABC);
      && |s| == 64 && s[0] == 0x61 && s[1] == 0x62 && s[2] == 0x63 && s[3] == 0x80 && s[63] == 24
      && forall i :: 4 <= i < 63 ==> s[i] == 0
  {
    LengthOfAbc();
    hide LengthField;
    var s, field := Padded(ABC), LengthField(24);
    assert |Zeros(52)| == 52 && s == ABC + [0x80] + Zeros(52) + field;
    hide Padded;
    assert forall i :: 4 <= i < 56 ==> s[i] == Zeros(52)[i - 4];
    assert forall i :: 0 <= i < 8 ==> s[56 + i] == field[i];
    assert forall i :: 56 <= i < 64 ==> s[i] == field[i - 56];
  }

  lemma WordsOfPadded(s: seq<bv8>)
    requires |s| == 64 && s[0] == 0x61 && s[1] == 0x62 && s[2] == 0x63 && s[3] == 0x80 && s[63] == 24
    requires forall i :: 4 <= i < 63 ==> s[i] == 0
    ensures Words(s) == ABC_BLOCK
  {
    FirstWord();
    hide BigWord;
    var ws := Words(s);
    forall i | 0 <= i < 16 ensures ws[i] == ABC_BLOCK[i] {
      assert ws[i] == BigWord(s[4 * i], s[4 * i + 1], s[4 * i + 2], s[4 * i + 3]);
    }
  }

  lemma FirstWord()
    ensures BigWord(0x61, 0x62, 0x63, 0x80) == 0x61626380 && BigWord(0, 0, 0, 0) == 0 && BigWord(0, 0, 0, 24) == 24
  {
  }

  lemma LengthOfAbc()
    ensures LengthField(24) == [0, 0, 0, 0, 0, 0, 0, 24]
  {
  }

  lemma LastBytes(hash: seq<bv32>)
    requires hash != []
    ensures HashBytes(hash) == HashBytes(hash[..|hash| - 1]) + BigBytes(hash[|hash| - 1])
  {
    hide BigBytes;
  }

  lemma {:induction false} BytesOfWord(hash: seq<bv32>, i: nat)
    requires i < |hash|
    ensures HashBytes(hash)[4 * i..4 * i + 4] == BigBytes(hash[i])
    decreases |hash|
  {
    hide *;
    LastBytes(hash);
    if i < |hash| - 1 {
      BytesOfWord(hash[..|hash| - 1], i);
    }
  }

  lemma WordsOfAbc()
    ensures BigBytes(0xba7816bf) == [0xba, 0x78, 0x16, 0xbf]
    ensures BigBytes(0x8f01cfea) == [0x8f, 0x01, 0xcf, 0xea]
    ensures BigBytes(0x414140de) == [0x41, 0x41, 0x40, 0xde]
    ensures BigBytes(0x5dae2223) == [0x5d, 0xae, 0x22, 0x23]
    ensures BigBytes(0xb00361a3) == [0xb0, 0x03, 0x61, 0xa3]
    ensures BigBytes(0x96177a9c) == [0x96, 0x17, 0x7a, 0x9c]
    ensures BigBytes(0xb410ff61) == [0xb4, 0x10, 0xff, 0x61]
    ensures BigBytes(0xf20015ad) == [0xf2, 0x00, 0x15, 0xad]
  {
  }

  lemma BytesOfAbc()
    ensures HashBytes(ABC_HASH) == [
      0xba, 0x78, 0x16, 0xbf, 0x8f, 0x01, 0xcf, 0xea, 0x41, 0x41, 0x40, 0xde, 0x5d, 0xae, 0x22, 0x23,
      0xb0, 0x03, 0x61, 0xa3, 0x96, 0x17, 0x7a, 0x9c, 0xb4, 0x10, 0xff, 0x61, 0xf2, 0x00, 0x15, 0xad]
  {
    hide BigBytes, HashBytes;
    BytesInWords(ABC_HASH);
    WordsOfAbc();
  }

  lemma BytesInWords(hash: seq<bv32>)
    requires |hash| == 8
    ensures HashBytes(hash) ==
      (BigBytes(hash[0]) + BigBytes(hash[1]) + BigBytes(hash[2]) + BigBytes(hash[3]))
      + (BigBytes(hash[4]) + BigBytes(hash[5]) + BigBytes(hash[6]) + BigBytes(hash[7]))
  {
    hide *;
    BytesOfWord(hash, 0);
    BytesOfWord(hash, 1);
    BytesOfWord(hash, 2);
    BytesOfWord(hash, 3);
    BytesOfWord(hash, 4);
    BytesOfWord(hash, 5);
    BytesOfWord(hash, 6);
    BytesOfWord(hash, 7);
    InFours(HashBytes(hash));
  }

  lemma InFours(s: seq<bv8>)
    requires |s| == 32
    ensures s == (s[0..4] + s[4..8] + s[8..12] + s[12..16]) + (s[16..20] + s[20..24] + s[24..28] + s[28..32])
  {
  }

  lemma DigestOfBlock(message: seq<bv8>)
    requires |message| < MESSAGE_LIMIT && |Padded(message)| == 64
    ensures |INITIAL_HASH_VALUE| == 8
    ensures Digest(message) == HashBytes(Compress(INITIAL_HASH_VALUE, Words(Padded(message))))
  {
    var s := Padded(message);
    assert s[..0] == [] && s[0..] == s;
    hide Padded, Words, Compress, HashBytes;
    assert HashBlocks(INITIAL_HASH_VALUE, []) == INITIAL_HASH_VALUE;
  }

  /** The digest of abc is the one in the standard's examples. */
  lemma DigestOfAbc()
    ensures |ABC| < MESSAGE_LIMIT && Digest(ABC) == [
      0xba, 0x78, 0x16, 0xbf, 0x8f, 0x01, 0xcf, 0xea, 0x41, 0x41, 0x40, 0xde, 0x5d, 0xae, 0x22, 0x23,
      0xb0, 0x03, 0x61, 0xa3, 0x96, 0x17, 0x7a, 0x9c, 0xb4, 0x10, 0xff, 0x61, 0xf2, 0x00, 0x15, 0xad]
  {
    assert |ABC| < MESSAGE_LIMIT;
    hide *;
    PaddedAbc();
    DigestOfBlock(ABC);
    HashOfAbc();
    BytesOfAbc();
  }
}
