/** The digest of "abc", word by word: what the definition says is the published example. */
module Sha256Example {
  import opened Sha256Spec

  const ABC: seq<bv8> := [0x61, 0x62, 0x63]

  /** The one block of the padded message. */
  const BLOCK: seq<bv8> := [0x61, 0x62, 0x63, 0x80] + Zeros(52) + [0, 0, 0, 0, 0, 0, 0, 0x18]

  lemma {:induction false} PaddedMessage()
    ensures Pad(ABC) == BLOCK
  {
    LengthBytes();
    hide BigEndian;
    assert ABC + [0x80] == [0x61, 0x62, 0x63, 0x80];
  }

  lemma {:induction false} LengthBytes()
    ensures BigEndian(24, 8) == [0, 0, 0, 0, 0, 0, 0, 0x18]
  {
    NoLength(3);
    NoLength(7);
  }

  lemma {:induction false} NoLength(width: nat)
    ensures BigEndian(0, width) == Zeros(width)
  {
    if width > 0 {
      NoLength(width - 1);
    }
  }

  // ---------- The message schedule ----------

  lemma {:induction false} NextWord(t: nat, w16: bv32, w15: bv32, w7: bv32, w2: bv32, w: bv32)
    requires t >= 16
    requires W(BLOCK, t - 16) == w16 && W(BLOCK, t - 15) == w15 && W(BLOCK, t - 7) == w7 && W(BLOCK, t - 2) == w2
    requires w == Add(Add(Add(w16, SmallSigma0(w15)), w7), SmallSigma1(w2))
    ensures W(BLOCK, t) == w
  {
    hide SmallSigma0, SmallSigma1, Add;
  }

  lemma {:induction false} Words0()
    ensures W(BLOCK, 0) == 0x61626380 && W(BLOCK, 1) == 0x00000000 && W(BLOCK, 2) == 0x00000000
    ensures W(BLOCK, 3) == 0x00000000 && W(BLOCK, 4) == 0x00000000 && W(BLOCK, 5) == 0x00000000
    ensures W(BLOCK, 6) == 0x00000000 && W(BLOCK, 7) == 0x00000000 && W(BLOCK, 8) == 0x00000000
    ensures W(BLOCK, 9) == 0x00000000 && W(BLOCK, 10) == 0x00000000 && W(BLOCK, 11) == 0x00000000
    ensures W(BLOCK, 12) == 0x00000000 && W(BLOCK, 13) == 0x00000000 && W(BLOCK, 14) == 0x00000000
    ensures W(BLOCK, 15) == 0x00000018
  {
  }

  lemma {:induction false} Words16()
    ensures W(BLOCK, 16) == 0x61626380 && W(BLOCK, 17) == 0x000f0000 && W(BLOCK, 18) == 0x7da86405
    ensures W(BLOCK, 19) == 0x600003c6 && W(BLOCK, 20) == 0x3e9d7b78 && W(BLOCK, 21) == 0x0183fc00
    ensures W(BLOCK, 22) == 0x12dcbfdb && W(BLOCK, 23) == 0xe2e2c38e
  {
    hide W;
    Words0();
    NextWord(16, 0x61626380, 0x00000000, 0x00000000, 0x00000000, 0x61626380);
    NextWord(17, 0x00000000, 0x00000000, 0x00000000, 0x00000018, 0x000f0000);
    NextWord(18, 0x00000000, 0x00000000, 0x00000000, 0x61626380, 0x7da86405);
    NextWord(19, 0x00000000, 0x00000000, 0x00000000, 0x000f0000, 0x600003c6);
    NextWord(20, 0x00000000, 0x00000000, 0x00000000, 0x7da86405, 0x3e9d7b78);
    NextWord(21, 0x00000000, 0x00000000, 0x00000000, 0x600003c6, 0x0183fc00);
    NextWord(22, 0x00000000, 0x00000000, 0x00000018, 0x3e9d7b78, 0x12dcbfdb);
    NextWord(23, 0x00000000, 0x00000000, 0x61626380, 0x0183fc00, 0xe2e2c38e);
  }

  lemma {:induction false} Words24()
    ensures W(BLOCK, 24) == 0xc8215c1a && W(BLOCK, 25) == 0xb73679a2 && W(BLOCK, 26) == 0xe5bc3909
    ensures W(BLOCK, 27) == 0x32663c5b && W(BLOCK, 28) == 0x9d209d67 && W(BLOCK, 29) == 0xec8726cb
    ensures W(BLOCK, 30) == 0x702138a4 && W(BLOCK, 31) == 0xd3b7973b
  {
    hide W;
    Words0();
    Words16();
    NextWord(24, 0x00000000, 0x00000000, 0x000f0000, 0x12dcbfdb, 0xc8215c1a);
    NextWord(25, 0x00000000, 0x00000000, 0x7da86405, 0xe2e2c38e, 0xb73679a2);
    NextWord(26, 0x00000000, 0x00000000, 0x600003c6, 0xc8215c1a, 0xe5bc3909);
    NextWord(27, 0x00000000, 0x00000000, 0x3e9d7b78, 0xb73679a2, 0x32663c5b);
    NextWord(28, 0x00000000, 0x00000000, 0x0183fc00, 0xe5bc3909, 0x9d209d67);
    NextWord(29, 0x00000000, 0x00000000, 0x12dcbfdb, 0x32663c5b, 0xec8726cb);
    NextWord(30, 0x00000000, 0x00000018, 0xe2e2c38e, 0x9d209d67, 0x702138a4);
    NextWord(31, 0x00000018, 0x61626380, 0xc8215c1a, 0xec8726cb, 0xd3b7973b);
  }

  lemma {:induction false} Words32()
    ensures W(BLOCK, 32) == 0x93f5997f && W(BLOCK, 33) == 0x3b68ba73 && W(BLOCK, 34) == 0xaff4ffc1
    ensures W(BLOCK, 35) == 0xf10a5c62 && W(BLOCK, 36) == 0x0a8b3996 && W(BLOCK, 37) == 0x72af830a
    ensures W(BLOCK, 38) == 0x9409e33e && W(BLOCK, 39) == 0x24641522
  {
    hide W;
    Words16();
    Words24();
    NextWord(32, 0x61626380, 0x000f0000, 0xb73679a2, 0x702138a4, 0x93f5997f);
    NextWord(33, 0x000f0000, 0x7da86405, 0xe5bc3909, 0xd3b7973b, 0x3b68ba73);
    NextWord(34, 0x7da86405, 0x600003c6, 0x32663c5b, 0x93f5997f, 0xaff4ffc1);
    NextWord(35, 0x600003c6, 0x3e9d7b78, 0x9d209d67, 0x3b68ba73, 0xf10a5c62);
    NextWord(36, 0x3e9d7b78, 0x0183fc00, 0xec8726cb, 0xaff4ffc1, 0x0a8b3996);
    NextWord(37, 0x0183fc00, 0x12dcbfdb, 0x702138a4, 0xf10a5c62, 0x72af830a);
    NextWord(38, 0x12dcbfdb, 0xe2e2c38e, 0xd3b7973b, 0x0a8b3996, 0x9409e33e);
    NextWord(39, 0xe2e2c38e, 0xc8215c1a, 0x93f5997f, 0x72af830a, 0x24641522);
  }

  lemma {:induction false} Words40()
    ensures W(BLOCK, 40) == 0x9f47bf94 && W(BLOCK, 41) == 0xf0a64f5a && W(BLOCK, 42) == 0x3e246a79
    ensures W(BLOCK, 43) == 0x27333ba3 && W(BLOCK, 44) == 0x0c4763f2 && W(BLOCK, 45) == 0x840abf27
    ensures W(BLOCK, 46) == 0x7a290d5d && W(BLOCK, 47) == 0x065c43da
  {
    hide W;
    Words24();
    Words32();
    NextWord(40, 0xc8215c1a, 0xb73679a2, 0x3b68ba73, 0x9409e33e, 0x9f47bf94);
    NextWord(41, 0xb73679a2, 0xe5bc3909, 0xaff4ffc1, 0x24641522, 0xf0a64f5a);
    NextWord(42, 0xe5bc3909, 0x32663c5b, 0xf10a5c62, 0x9f47bf94, 0x3e246a79);
    NextWord(43, 0x32663c5b, 0x9d209d67, 0x0a8b3996, 0xf0a64f5a, 0x27333ba3);
    NextWord(44, 0x9d209d67, 0xec8726cb, 0x72af830a, 0x3e246a79, 0x0c4763f2);
    NextWord(45, 0xec8726cb, 0x702138a4, 0x9409e33e, 0x27333ba3, 0x840abf27);
    NextWord(46, 0x702138a4, 0xd3b7973b, 0x24641522, 0x0c4763f2, 0x7a290d5d);
    NextWord(47, 0xd3b7973b, 0x93f5997f, 0x9f47bf94, 0x840abf27, 0x065c43da);
  }

  lemma {:induction false} Words48()
    ensures W(BLOCK, 48) == 0xfb3e89cb && W(BLOCK, 49) == 0xcc7617db && W(BLOCK, 50) == 0xb9e66c34
    ensures W(BLOCK, 51) == 0xa9993667 && W(BLOCK, 52) == 0x84badedd && W(BLOCK, 53) == 0xc21462bc
    ensures W(BLOCK, 54) == 0x1487472c && W(BLOCK, 55) == 0xb20f7a99
  {
    hide W;
    Words32();
    Words40();
    NextWord(48, 0x93f5997f, 0x3b68ba73, 0xf0a64f5a, 0x7a290d5d, 0xfb3e89cb);
    NextWord(49, 0x3b68ba73, 0xaff4ffc1, 0x3e246a79, 0x065c43da, 0xcc7617db);
    NextWord(50, 0xaff4ffc1, 0xf10a5c62, 0x27333ba3, 0xfb3e89cb, 0xb9e66c34);
    NextWord(51, 0xf10a5c62, 0x0a8b3996, 0x0c4763f2, 0xcc7617db, 0xa9993667);
    NextWord(52, 0x0a8b3996, 0x72af830a, 0x840abf27, 0xb9e66c34, 0x84badedd);
    NextWord(53, 0x72af830a, 0x9409e33e, 0x7a290d5d, 0xa9993667, 0xc21462bc);
    NextWord(54, 0x9409e33e, 0x24641522, 0x065c43da, 0x84badedd, 0x1487472c);
    NextWord(55, 0x24641522, 0x9f47bf94, 0xfb3e89cb, 0xc21462bc, 0xb20f7a99);
  }

  lemma {:induction false} Words56()
    ensures W(BLOCK, 56) == 0xef57b9cd && W(BLOCK, 57) == 0xebe6b238 && W(BLOCK, 58) == 0x9fe3095e
    ensures W(BLOCK, 59) == 0x78bc8d4b && W(BLOCK, 60) == 0xa43fcf15 && W(BLOCK, 61) == 0x668b2ff8
    ensures W(BLOCK, 62) == 0xeeaba2cc && W(BLOCK, 63) == 0x12b1edeb
  {
    hide W;
    Words40();
    Words48();
    NextWord(56, 0x9f47bf94, 0xf0a64f5a, 0xcc7617db, 0x1487472c, 0xef57b9cd);
    NextWord(57, 0xf0a64f5a, 0x3e246a79, 0xb9e66c34, 0xb20f7a99, 0xebe6b238);
    NextWord(58, 0x3e246a79, 0x27333ba3, 0xa9993667, 0xef57b9cd, 0x9fe3095e);
    NextWord(59, 0x27333ba3, 0x0c4763f2, 0x84badedd, 0xebe6b238, 0x78bc8d4b);
    NextWord(60, 0x0c4763f2, 0x840abf27, 0xc21462bc, 0x9fe3095e, 0xa43fcf15);
    NextWord(61, 0x840abf27, 0x7a290d5d, 0x1487472c, 0x78bc8d4b, 0x668b2ff8);
    NextWord(62, 0x7a290d5d, 0x065c43da, 0xb20f7a99, 0xa43fcf15, 0xeeaba2cc);
    NextWord(63, 0x065c43da, 0xfb3e89cb, 0xef57b9cd, 0x668b2ff8, 0x12b1edeb);
  }

  // ---------- The 64 rounds ----------

  /** One round from known working variables; `t1` and `t2` are its two temporary words. */
  lemma {:induction false} NextRound(t: nat, v: Vars, w: bv32, t1: bv32, t2: bv32, a: bv32, e: bv32)
    requires t < 64 && Rounds(INITIAL, BLOCK, t) == v && W(BLOCK, t) == w
    requires t1 == Add(Add(Add(Add(v.h, BigSigma1(v.e)), Ch(v.e, v.f, v.g)), RoundConstant(t)), w)
    requires t2 == Add(BigSigma0(v.a), Maj(v.a, v.b, v.c))
    requires a == Add(t1, t2) && e == Add(v.d, t1)
    ensures Rounds(INITIAL, BLOCK, t + 1) == Vars(a, v.a, v.b, v.c, e, v.e, v.f, v.g)
  {
    hide W, RoundConstant, Add, BigSigma0, BigSigma1, Ch, Maj;
  }

  lemma {:induction false} Keys0()
    ensures RoundConstant(0) == 0x428a2f98 && RoundConstant(1) == 0x71374491 && RoundConstant(2) == 0xb5c0fbcf
    ensures RoundConstant(3) == 0xe9b5dba5 && RoundConstant(4) == 0x3956c25b && RoundConstant(5) == 0x59f111f1
    ensures RoundConstant(6) == 0x923f82a4 && RoundConstant(7) == 0xab1c5ed5
  {
  }

  lemma {:induction false} Keys8()
    ensures RoundConstant(8) == 0xd807aa98 && RoundConstant(9) == 0x12835b01 && RoundConstant(10) == 0x243185be
    ensures RoundConstant(11) == 0x550c7dc3 && RoundConstant(12) == 0x72be5d74 && RoundConstant(13) == 0x80deb1fe
    ensures RoundConstant(14) == 0x9bdc06a7 && RoundConstant(15) == 0xc19bf174
  {
  }

  lemma {:induction false} Keys16()
    ensures RoundConstant(16) == 0xe49b69c1 && RoundConstant(17) == 0xefbe4786 && RoundConstant(18) == 0x0fc19dc6
    ensures RoundConstant(19) == 0x240ca1cc && RoundConstant(20) == 0x2de92c6f && RoundConstant(21) == 0x4a7484aa
    ensures RoundConstant(22) == 0x5cb0a9dc && RoundConstant(23) == 0x76f988da
  {
  }

  lemma {:induction false} Keys24()
    ensures RoundConstant(24) == 0x983e5152 && RoundConstant(25) == 0xa831c66d && RoundConstant(26) == 0xb00327c8
    ensures RoundConstant(27) == 0xbf597fc7 && RoundConstant(28) == 0xc6e00bf3 && RoundConstant(29) == 0xd5a79147
    ensures RoundConstant(30) == 0x06ca6351 && RoundConstant(31) == 0x14292967
  {
  }

  lemma {:induction false} Keys32()
    ensures RoundConstant(32) == 0x27b70a85 && RoundConstant(33) == 0x2e1b2138 && RoundConstant(34) == 0x4d2c6dfc
    ensures RoundConstant(35) == 0x53380d13 && RoundConstant(36) == 0x650a7354 && RoundConstant(37) == 0x766a0abb
    ensures RoundConstant(38) == 0x81c2c92e && RoundConstant(39) == 0x92722c85
  {
  }

  lemma {:induction false} Keys40()
    ensures RoundConstant(40) == 0xa2bfe8a1 && RoundConstant(41) == 0xa81a664b && RoundConstant(42) == 0xc24b8b70
    ensures RoundConstant(43) == 0xc76c51a3 && RoundConstant(44) == 0xd192e819 && RoundConstant(45) == 0xd6990624
    ensures RoundConstant(46) == 0xf40e3585 && RoundConstant(47) == 0x106aa070
  {
  }

  lemma {:induction false} Keys48()
    ensures RoundConstant(48) == 0x19a4c116 && RoundConstant(49) == 0x1e376c08 && RoundConstant(50) == 0x2748774c
    ensures RoundConstant(51) == 0x34b0bcb5 && RoundConstant(52) == 0x391c0cb3 && RoundConstant(53) == 0x4ed8aa4a
    ensures RoundConstant(54) == 0x5b9cca4f && RoundConstant(55) == 0x682e6ff3
  {
  }

  lemma {:induction false} Keys56()
    ensures RoundConstant(56) == 0x748f82ee && RoundConstant(57) == 0x78a5636f && RoundConstant(58) == 0x84c87814
    ensures RoundConstant(59) == 0x8cc70208 && RoundConstant(60) == 0x90befffa && RoundConstant(61) == 0xa4506ceb
    ensures RoundConstant(62) == 0xbef9a3f7 && RoundConstant(63) == 0xc67178f2
  {
  }

  lemma {:induction false} Rounds0()
    ensures Rounds(INITIAL, BLOCK, 8) ==
            Vars(0x85a07b5f, 0xe5030380, 0x2b4209f5, 0x04409a6a, 0x0c657a79, 0x9b27a401, 0x714260ad, 0x43ada245)
  {
    hide W, Rounds, RoundConstant;
    Words0();
    Keys0();
    NoRound();
    NextRound(0, Vars(0x6a09e667, 0xbb67ae85, 0x3c6ef372, 0xa54ff53a, 0x510e527f, 0x9b05688c, 0x1f83d9ab, 0x5be0cd19),
              0x61626380, 0x54da50e8, 0x08909ae5, 0x5d6aebcd, 0xfa2a4622);
    NextRound(1, Vars(0x5d6aebcd, 0x6a09e667, 0xbb67ae85, 0x3c6ef372, 0xfa2a4622, 0x510e527f, 0x9b05688c, 0x1f83d9ab),
              0x00000000, 0x3c5f8617, 0x1e0b5396, 0x5a6ad9ad, 0x78ce7989);
    NextRound(2, Vars(0x5a6ad9ad, 0x5d6aebcd, 0x6a09e667, 0xbb67ae85, 0x78ce7989, 0xfa2a4622, 0x510e527f, 0x9b05688c),
              0x00000000, 0x3dc18b66, 0x8b01bc41, 0xc8c347a7, 0xf92939eb);
    NextRound(3, Vars(0xc8c347a7, 0x5a6ad9ad, 0x5d6aebcd, 0x6a09e667, 0xf92939eb, 0x78ce7989, 0xfa2a4622, 0x510e527f),
              0x00000000, 0xbad621e9, 0x1a7ad47d, 0xd550f666, 0x24e00850);
    NextRound(4, Vars(0xd550f666, 0xc8c347a7, 0x5a6ad9ad, 0x5d6aebcd, 0x24e00850, 0xf92939eb, 0x78ce7989, 0xfa2a4622),
              0x00000000, 0xe642b678, 0x1dfde3f2, 0x04409a6a, 0x43ada245);
    NextRound(5, Vars(0x04409a6a, 0xd550f666, 0xc8c347a7, 0x5a6ad9ad, 0x43ada245, 0x24e00850, 0xf92939eb, 0x78ce7989),
              0x00000000, 0x16d78700, 0x146a82f5, 0x2b4209f5, 0x714260ad);
    NextRound(6, Vars(0x2b4209f5, 0x04409a6a, 0xd550f666, 0xc8c347a7, 0x714260ad, 0x43ada245, 0x24e00850, 0xf92939eb),
              0x00000000, 0xd2645c5a, 0x129ea726, 0xe5030380, 0x9b27a401);
    NextRound(7, Vars(0xe5030380, 0x2b4209f5, 0x04409a6a, 0xd550f666, 0x9b27a401, 0x714260ad, 0x43ada245, 0x24e00850),
              0x00000000, 0x37148413, 0x4e8bf74c, 0x85a07b5f, 0x0c657a79);
  }

  lemma {:induction false} Rounds8()
    ensures Rounds(INITIAL, BLOCK, 16) ==
            Vars(0xb0fa238e, 0xc0645fde, 0xd932eb16, 0x87912990, 0x07590dcd, 0x0b92f20c, 0x745a48de, 0x1e578218)
  {
    hide W, Rounds, RoundConstant;
    Words0();
    Keys8();
    Rounds0();
    NextRound(8, Vars(0x85a07b5f, 0xe5030380, 0x2b4209f5, 0x04409a6a, 0x0c657a79, 0x9b27a401, 0x714260ad, 0x43ada245),
              0x00000000, 0x2e899322, 0x5f7b5997, 0x8e04ecb9, 0x32ca2d8c);
    NextRound(9, Vars(0x8e04ecb9, 0x85a07b5f, 0xe5030380, 0x2b4209f5, 0x32ca2d8c, 0x0c657a79, 0x9b27a401, 0x714260ad),
              0x00000000, 0xf1871ba1, 0x9b0018ca, 0x8c87346b, 0x1cc92596);
    NextRound(10, Vars(0x8c87346b, 0x8e04ecb9, 0x85a07b5f, 0xe5030380, 0x1cc92596, 0x32ca2d8c, 0x0c657a79, 0x9b27a401),
              0x00000000, 0x5e682068, 0xe930838c, 0x4798a3f4, 0x436b23e8);
    NextRound(11, Vars(0x4798a3f4, 0x8c87346b, 0x8e04ecb9, 0x85a07b5f, 0x436b23e8, 0x1cc92596, 0x32ca2d8c, 0x0c657a79),
              0x00000000, 0xfbcf5b8a, 0xfb506a1f, 0xf71fc5a9, 0x816fd6e9);
    NextRound(12, Vars(0xf71fc5a9, 0x4798a3f4, 0x8c87346b, 0x8e04ecb9, 0x816fd6e9, 0x436b23e8, 0x1cc92596, 0x32ca2d8c),
              0x00000000, 0x9052955f, 0xf73e9431, 0x87912990, 0x1e578218);
    NextRound(13, Vars(0x87912990, 0xf71fc5a9, 0x4798a3f4, 0x8c87346b, 0x1e578218, 0x816fd6e9, 0x436b23e8, 0x1cc92596),
              0x00000000, 0xe7d31473, 0xf15fd6a3, 0xd932eb16, 0x745a48de);
    NextRound(14, Vars(0xd932eb16, 0x87912990, 0xf71fc5a9, 0x4798a3f4, 0x745a48de, 0x1e578218, 0x816fd6e9, 0x436b23e8),
              0x00000000, 0xc3fa4e18, 0xfc6a11c6, 0xc0645fde, 0x0b92f20c);
    NextRound(15, Vars(0xc0645fde, 0xd932eb16, 0x87912990, 0xf71fc5a9, 0x0b92f20c, 0x745a48de, 0x1e578218, 0x816fd6e9),
              0x00000018, 0x10394824, 0xa0c0db6a, 0xb0fa238e, 0x07590dcd);
  }

  lemma {:induction false} Rounds16()
    ensures Rounds(INITIAL, BLOCK, 24) ==
            Vars(0xc5d53d8d, 0xa7a3623f, 0xc2606d6d, 0x9dc68b63, 0xaa47c347, 0x49f5114a, 0xe1257970, 0x8ada8930)
  {
    hide W, Rounds, RoundConstant;
    Words16();
    Keys16();
    Rounds8();
    NextRound(16, Vars(0xb0fa238e, 0xc0645fde, 0xd932eb16, 0x87912990, 0x07590dcd, 0x0b92f20c, 0x745a48de, 0x1e578218),
              0x61626380, 0xf8a2f90c, 0x2937a18f, 0x21da9a9b, 0x8034229c);
    NextRound(17, Vars(0x21da9a9b, 0xb0fa238e, 0xc0645fde, 0xd932eb16, 0x8034229c, 0x07590dcd, 0x0b92f20c, 0x745a48de),
              0x000f0000, 0xab3bf93e, 0x17bfe093, 0xc2fbd9d1, 0x846ee454);
    NextRound(18, Vars(0xc2fbd9d1, 0x21da9a9b, 0xb0fa238e, 0xc0645fde, 0x846ee454, 0x8034229c, 0x07590dcd, 0x0b92f20c),
              0x7da86405, 0x0c253983, 0xf252423c, 0xfe777bbf, 0xcc899961);
    NextRound(19, Vars(0xfe777bbf, 0xc2fbd9d1, 0x21da9a9b, 0xb0fa238e, 0xcc899961, 0x846ee454, 0x8034229c, 0x07590dcd),
              0x600003c6, 0xff695deb, 0xe288ae48, 0xe1f20c33, 0xb0638179);
    NextRound(20, Vars(0xe1f20c33, 0xfe777bbf, 0xc2fbd9d1, 0x21da9a9b, 0xb0638179, 0xcc899961, 0x846ee454, 0x8034229c),
              0x3e9d7b78, 0x68ffee95, 0x34c69cce, 0x9dc68b63, 0x8ada8930);
    NextRound(21, Vars(0x9dc68b63, 0xe1f20c33, 0xfe777bbf, 0xc2fbd9d1, 0x8ada8930, 0xb0638179, 0xcc899961, 0x846ee454),
              0x0183fc00, 0x1e299f9f, 0xa436cdce, 0xc2606d6d, 0xe1257970);
    NextRound(22, Vars(0xc2606d6d, 0x9dc68b63, 0xe1f20c33, 0xfe777bbf, 0xe1257970, 0x8ada8930, 0xb0638179, 0xcc899961),
              0x12dcbfdb, 0x4b7d958b, 0x5c25ccb4, 0xa7a3623f, 0x49f5114a);
    NextRound(23, Vars(0xa7a3623f, 0xc2606d6d, 0x9dc68b63, 0xe1f20c33, 0x49f5114a, 0xe1257970, 0x8ada8930, 0xb0638179),
              0xe2e2c38e, 0xc855b714, 0xfd7f8679, 0xc5d53d8d, 0xaa47c347);
  }

  lemma {:induction false} Rounds24()
    ensures Rounds(INITIAL, BLOCK, 32) ==
            Vars(0x73b33bf5, 0xea992a22, 0xa0060b30, 0x363482c9, 0xba591112, 0x0109ab3a, 0xade79437, 0x6112a3b7)
  {
    hide W, Rounds, RoundConstant;
    Words24();
    Keys24();
    Rounds16();
    NextRound(24, Vars(0xc5d53d8d, 0xa7a3623f, 0xc2606d6d, 0x9dc68b63, 0xaa47c347, 0x49f5114a, 0xe1257970, 0x8ada8930),
              0xc8215c1a, 0x8a5d642e, 0x91cec40a, 0x1c2c2838, 0x2823ef91);
    NextRound(25, Vars(0x1c2c2838, 0xc5d53d8d, 0xa7a3623f, 0xc2606d6d, 0x2823ef91, 0xaa47c347, 0x49f5114a, 0xe1257970),
              0xb73679a2, 0x51d7d021, 0x7c10335c, 0xcde8037d, 0x14383d8e);
    NextRound(26, Vars(0xcde8037d, 0x1c2c2838, 0xc5d53d8d, 0xa7a3623f, 0x14383d8e, 0x2823ef91, 0xaa47c347, 0x49f5114a),
              0xe5bc3909, 0x1fa902d7, 0x9685c1e5, 0xb62ec4bc, 0xc74c6516);
    NextRound(27, Vars(0xb62ec4bc, 0xcde8037d, 0x1c2c2838, 0xc5d53d8d, 0xc74c6516, 0x14383d8e, 0x2823ef91, 0xaa47c347),
              0x32663c5b, 0x282a826b, 0x4fa8f2bd, 0x77d37528, 0xedffbff8);
    NextRound(28, Vars(0x77d37528, 0xb62ec4bc, 0xcde8037d, 0x1c2c2838, 0xedffbff8, 0xc74c6516, 0x14383d8e, 0x2823ef91),
              0x9d209d67, 0x44e67b7f, 0xf14e074a, 0x363482c9, 0x6112a3b7);
    NextRound(29, Vars(0x363482c9, 0x77d37528, 0xb62ec4bc, 0xcde8037d, 0x6112a3b7, 0xedffbff8, 0xc74c6516, 0x14383d8e),
              0xec8726cb, 0xdfff90ba, 0xc0067a76, 0xa0060b30, 0xade79437);
    NextRound(30, Vars(0xa0060b30, 0x363482c9, 0x77d37528, 0xb62ec4bc, 0xade79437, 0x6112a3b7, 0xedffbff8, 0xc74c6516),
              0x702138a4, 0x4adae67e, 0x9fbe43a4, 0xea992a22, 0x0109ab3a);
    NextRound(31, Vars(0xea992a22, 0xa0060b30, 0x363482c9, 0x77d37528, 0x0109ab3a, 0xade79437, 0x6112a3b7, 0xedffbff8),
              0xd3b7973b, 0x42859bea, 0x312da00b, 0x73b33bf5, 0xba591112);
  }

  lemma {:induction false} Rounds32()
    ensures Rounds(INITIAL, BLOCK, 40) ==
            Vars(0x79ea687a, 0x6dc57a8a, 0x34df1604, 0x41a65cb1, 0x1efbc0a0, 0xf0781bc8, 0xa507a53d, 0x0772a26b)
  {
    hide W, Rounds, RoundConstant;
    Words32();
    Keys32();
    Rounds24();
    NextRound(32, Vars(0x73b33bf5, 0xea992a22, 0xa0060b30, 0x363482c9, 0xba591112, 0x0109ab3a, 0xade79437, 0x6112a3b7),
              0x93f5997f, 0x66a5732d, 0x323bb1da, 0x98e12507, 0x9cd9f5f6);
    NextRound(33, Vars(0x98e12507, 0x73b33bf5, 0xea992a22, 0xa0060b30, 0x9cd9f5f6, 0xba591112, 0x0109ab3a, 0xade79437),
              0x3b68ba73, 0xb91e92a3, 0x4541bb52, 0xfe604df5, 0x59249dd3);
    NextRound(34, Vars(0xfe604df5, 0x98e12507, 0x73b33bf5, 0xea992a22, 0x59249dd3, 0x9cd9f5f6, 0xba591112, 0x0109ab3a),
              0xaff4ffc1, 0x1dc60e11, 0x8be1657b, 0xa9a7738c, 0x085f3833);
    NextRound(35, Vars(0xa9a7738c, 0xfe604df5, 0x98e12507, 0x73b33bf5, 0x085f3833, 0x59249dd3, 0x9cd9f5f6, 0xba591112),
              0xf10a5c62, 0x80fcc6e1, 0xe4a40903, 0x65a0cfe4, 0xf4b002d6);
    NextRound(36, Vars(0x65a0cfe4, 0xa9a7738c, 0xfe604df5, 0x98e12507, 0xf4b002d6, 0x085f3833, 0x59249dd3, 0x9cd9f5f6),
              0x0a8b3996, 0x6e917d64, 0xd314df4d, 0x41a65cb1, 0x0772a26b);
    NextRound(37, Vars(0x41a65cb1, 0x65a0cfe4, 0xa9a7738c, 0xfe604df5, 0x0772a26b, 0xf4b002d6, 0x085f3833, 0x59249dd3),
              0x72af830a, 0xa6a75748, 0x8e37bebc, 0x34df1604, 0xa507a53d);
    NextRound(38, Vars(0x34df1604, 0x41a65cb1, 0x65a0cfe4, 0xa9a7738c, 0xa507a53d, 0x0772a26b, 0xf4b002d6, 0x085f3833),
              0x9409e33e, 0x46d0a83c, 0x26f4d24e, 0x6dc57a8a, 0xf0781bc8);
    NextRound(39, Vars(0x6dc57a8a, 0x34df1604, 0x41a65cb1, 0x65a0cfe4, 0xf0781bc8, 0xa507a53d, 0x0772a26b, 0xf4b002d6),
              0x24641522, 0xb95af0bc, 0xc08f77be, 0x79ea687a, 0x1efbc0a0);
  }

  lemma {:induction false} Rounds40()
    ensures Rounds(INITIAL, BLOCK, 48) ==
            Vars(0x4172328d, 0xa14c14b0, 0x72ab4b91, 0x26628815, 0xfecf0bc6, 0xd57b94a9, 0xb7755da1, 0xa80f11f0)
  {
    hide W, Rounds, RoundConstant;
    Words40();
    Keys40();
    Rounds32();
    NextRound(40, Vars(0x79ea687a, 0x6dc57a8a, 0x34df1604, 0x41a65cb1, 0x1efbc0a0, 0xf0781bc8, 0xa507a53d, 0x0772a26b),
              0x9f47bf94, 0xe48ed0b2, 0xf1d836b4, 0xd6670766, 0x26352d63);
    NextRound(41, Vars(0xd6670766, 0x79ea687a, 0x6dc57a8a, 0x34df1604, 0x26352d63, 0x1efbc0a0, 0xf0781bc8, 0xa507a53d),
              0xf0a64f5a, 0x4eac110d, 0x909a5422, 0xdf46652f, 0x838b2711);
    NextRound(42, Vars(0xdf46652f, 0xd6670766, 0x79ea687a, 0x6dc57a8a, 0x838b2711, 0x26352d63, 0x1efbc0a0, 0xf0781bc8),
              0x3e246a79, 0x7107cc8b, 0xa6a24173, 0x17aa0dfe, 0xdecd4715);
    NextRound(43, Vars(0x17aa0dfe, 0xdf46652f, 0xd6670766, 0x79ea687a, 0xdecd4715, 0x838b2711, 0x26352d63, 0x1efbc0a0),
              0x27333ba3, 0x83b7e3b4, 0x1993cbdf, 0x9d4baf93, 0xfda24c2e);
    NextRound(44, Vars(0x9d4baf93, 0x17aa0dfe, 0xdf46652f, 0xd6670766, 0xfda24c2e, 0xdecd4715, 0x838b2711, 0x26352d63),
              0x0c4763f2, 0xd1a80a8a, 0x54ba7d8b, 0x26628815, 0xa80f11f0);
    NextRound(45, Vars(0x26628815, 0x9d4baf93, 0x17aa0dfe, 0xdf46652f, 0xa80f11f0, 0xfda24c2e, 0xdecd4715, 0x838b2711),
              0x840abf27, 0xd82ef872, 0x9a7c531f, 0x72ab4b91, 0xb7755da1);
    NextRound(46, Vars(0x72ab4b91, 0x26628815, 0x9d4baf93, 0x17aa0dfe, 0xb7755da1, 0xa80f11f0, 0xfda24c2e, 0xdecd4715),
              0x7a290d5d, 0xbdd186ab, 0xe37a8e05, 0xa14c14b0, 0xd57b94a9);
    NextRound(47, Vars(0xa14c14b0, 0x72ab4b91, 0x26628815, 0x9d4baf93, 0xd57b94a9, 0xb7755da1, 0xa80f11f0, 0xfda24c2e),
              0x065c43da, 0x61835c33, 0xdfeed65a, 0x4172328d, 0xfecf0bc6);
  }

  lemma {:induction false} Rounds48()
    ensures Rounds(INITIAL, BLOCK, 56) ==
            Vars(0x38cc9913, 0x3ec45cdb, 0xf5702fdb, 0x101fd28f, 0x54cb266b, 0xe50e1b4f, 0x9f4787c3, 0x529e7d00)
  {
    hide W, Rounds, RoundConstant;
    Words48();
    Keys48();
    Rounds40();
    NextRound(48, Vars(0x4172328d, 0xa14c14b0, 0x72ab4b91, 0x26628815, 0xfecf0bc6, 0xd57b94a9, 0xb7755da1, 0xa80f11f0),
              0xfb3e89cb, 0x970eb823, 0x6e66c4c8, 0x05757ceb, 0xbd714038);
    NextRound(49, Vars(0x05757ceb, 0x4172328d, 0xa14c14b0, 0x72ab4b91, 0xbd714038, 0xfecf0bc6, 0xd57b94a9, 0xb7755da1),
              0xcc7617db, 0xfbb0ed7b, 0xf56b0d2d, 0xf11bfaa8, 0x6e5c390c);
    NextRound(50, Vars(0xf11bfaa8, 0x05757ceb, 0x4172328d, 0xa14c14b0, 0x6e5c390c, 0xbd714038, 0xfecf0bc6, 0xd57b94a9),
              0xb9e66c34, 0xb1a5b847, 0xc85f505a, 0x7a0508a1, 0x52f1ccf7);
    NextRound(51, Vars(0x7a0508a1, 0xf11bfaa8, 0x05757ceb, 0x4172328d, 0x52f1ccf7, 0x6e5c390c, 0xbd714038, 0xfecf0bc6),
              0xa9993667, 0x07b0e991, 0x80bd9091, 0x886e7a22, 0x49231c1e);
    NextRound(52, Vars(0x886e7a22, 0x7a0508a1, 0xf11bfaa8, 0x05757ceb, 0x49231c1e, 0x52f1ccf7, 0x6e5c390c, 0xbd714038),
              0x84badedd, 0x4d290015, 0xc2f6d27a, 0x101fd28f, 0x529e7d00);
    NextRound(53, Vars(0x101fd28f, 0x886e7a22, 0x7a0508a1, 0xf11bfaa8, 0x529e7d00, 0x49231c1e, 0x52f1ccf7, 0x6e5c390c),
              0xc21462bc, 0xae2b8d1b, 0x4744a2c0, 0xf5702fdb, 0x9f4787c3);
    NextRound(54, Vars(0xf5702fdb, 0x101fd28f, 0x886e7a22, 0x7a0508a1, 0x9f4787c3, 0x529e7d00, 0x49231c1e, 0x52f1ccf7),
              0x1487472c, 0x6b0912ae, 0xd3bb4a2d, 0x3ec45cdb, 0xe50e1b4f);
    NextRound(55, Vars(0x3ec45cdb, 0xf5702fdb, 0x101fd28f, 0x886e7a22, 0xe50e1b4f, 0x9f4787c3, 0x529e7d00, 0x49231c1e),
              0xb20f7a99, 0xcc5cac49, 0x6c6fecca, 0x38cc9913, 0x54cb266b);
  }

  lemma {:induction false} Rounds56()
    ensures Rounds(INITIAL, BLOCK, 64) ==
            Vars(0x506e3058, 0xd39a2165, 0x04d24d6c, 0xb85e2ce9, 0x5ef50f24, 0xfb121210, 0x948d25b6, 0x961f4894)
  {
    hide W, Rounds, RoundConstant;
    Words56();
    Keys56();
    Rounds48();
    NextRound(56, Vars(0x38cc9913, 0x3ec45cdb, 0xf5702fdb, 0x101fd28f, 0x54cb266b, 0xe50e1b4f, 0x9f4787c3, 0x529e7d00),
              0xef57b9cd, 0x8b3ebddd, 0x7192ca9e, 0xfcd1887b, 0x9b5e906c);
    NextRound(57, Vars(0xfcd1887b, 0x38cc9913, 0x3ec45cdb, 0xf5702fdb, 0x9b5e906c, 0x54cb266b, 0xe50e1b4f, 0x9f4787c3),
              0xebe6b238, 0x88d3d0b3, 0x378f03bc, 0xc062d46f, 0x7e44008e);
    NextRound(58, Vars(0xc062d46f, 0xfcd1887b, 0x38cc9913, 0x3ec45cdb, 0x7e44008e, 0x9b5e906c, 0x54cb266b, 0xe50e1b4f),
              0x9fe3095e, 0x2ebf62eb, 0xd0f7a187, 0xffb70472, 0x6d83bfc6);
    NextRound(59, Vars(0xffb70472, 0xc062d46f, 0xfcd1887b, 0x38cc9913, 0x6d83bfc6, 0x7e44008e, 0x9b5e906c, 0x54cb266b),
              0x78bc8d4b, 0x794f142a, 0x3d5f7bd5, 0xb6ae8fff, 0xb21bad3d);
    NextRound(60, Vars(0xb6ae8fff, 0xffb70472, 0xc062d46f, 0xfcd1887b, 0xb21bad3d, 0x6d83bfc6, 0x7e44008e, 0x9b5e906c),
              0xa43fcf15, 0x994dc019, 0x1f106cd0, 0xb85e2ce9, 0x961f4894);
    NextRound(61, Vars(0xb85e2ce9, 0xb6ae8fff, 0xffb70472, 0xc062d46f, 0x961f4894, 0xb21bad3d, 0x6d83bfc6, 0x7e44008e),
              0x668b2ff8, 0xd42a5147, 0x30a7fc25, 0x04d24d6c, 0x948d25b6);
    NextRound(62, Vars(0x04d24d6c, 0xb85e2ce9, 0xb6ae8fff, 0xffb70472, 0x948d25b6, 0x961f4894, 0xb21bad3d, 0x6d83bfc6),
              0xeeaba2cc, 0xfb5b0d9e, 0xd83f13c7, 0xd39a2165, 0xfb121210);
    NextRound(63, Vars(0xd39a2165, 0x04d24d6c, 0xb85e2ce9, 0xb6ae8fff, 0xfb121210, 0x948d25b6, 0x961f4894, 0xb21bad3d),
              0x12b1edeb, 0xa8467f25, 0xa827b133, 0x506e3058, 0x5ef50f24);
  }

  lemma {:induction false} NoRound()
    ensures Rounds(INITIAL, BLOCK, 0) == INITIAL
  {
  }

  lemma {:induction false} OneBlock(m: seq<bv8>)
    requires |m| == 64
    ensures HashBlocks(INITIAL, m) == Compress(INITIAL, m)
  {
    hide Compress;
    assert m[..0] == [] && m[0..] == m;
  }

  /** The digest of "abc", as FIPS 180-4 is published with it. */
  lemma {:induction false} DigestOfAbc()
    ensures Digest(ABC) ==
            [0xba, 0x78, 0x16, 0xbf, 0x8f, 0x01, 0xcf, 0xea] +
            [0x41, 0x41, 0x40, 0xde, 0x5d, 0xae, 0x22, 0x23] +
            [0xb0, 0x03, 0x61, 0xa3, 0x96, 0x17, 0x7a, 0x9c] +
            [0xb4, 0x10, 0xff, 0x61, 0xf2, 0x00, 0x15, 0xad]
  {
    hide Rounds, HashBlocks, Pad, W;
    PaddedMessage();
    OneBlock(BLOCK);
    Rounds56();
  }
}
