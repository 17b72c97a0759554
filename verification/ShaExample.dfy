/** A known answer for Sha1: the digest of the three bytes "abc", computed round by round. It
    fixes padding, word order, schedule, rounds and constants together. */
module ShaExample {
  import opened Arith
  import opened Sha1
  import opened ShaEE

  /** Word t of the schedule. */
  predicate Word(block: seq<bv8>, t: nat, w: bv32) {
    |block| == 64 && W(block, t) == Value(w)
  }

  /** The sixteen words from t on. */
  predicate Sixteen(block: seq<bv8>, t: nat, w0: bv32, w1: bv32, w2: bv32, w3: bv32, w4: bv32, w5: bv32, w6: bv32,
                    w7: bv32, w8: bv32, w9: bv32, wA: bv32, wB: bv32, wC: bv32, wD: bv32, wE: bv32, wF: bv32)
  {
    && Word(block, t, w0) && Word(block, t + 1, w1) && Word(block, t + 2, w2) && Word(block, t + 3, w3)
    && Word(block, t + 4, w4) && Word(block, t + 5, w5) && Word(block, t + 6, w6) && Word(block, t + 7, w7)
    && Word(block, t + 8, w8) && Word(block, t + 9, w9) && Word(block, t + 10, wA) && Word(block, t + 11, wB)
    && Word(block, t + 12, wC) && Word(block, t + 13, wD) && Word(block, t + 14, wE) && Word(block, t + 15, wF)
  }

  /** The registers after t rounds. */
  predicate After(block: seq<bv8>, t: nat, a: bv32, b: bv32, c: bv32, d: bv32, e: bv32) {
    |block| == 64 && Rounds(START, block, t) == Regs(Value(a), Value(b), Value(c), Value(d), Value(e))
  }

  lemma BackAndForth(x: bv32)
    ensures Bits(Value(x)) == x
  {}

  /** One word of the schedule, from the four that it is made of. */
  lemma Expand(block: seq<bv8>, t: nat, w16: bv32, w14: bv32, w8: bv32, w3: bv32, w: bv32)
    requires t >= 16 && Word(block, t - 16, w16) && Word(block, t - 14, w14)
    requires Word(block, t - 8, w8) && Word(block, t - 3, w3) && w == Rotl1(Xor4(w3, w8, w14, w16))
    ensures Word(block, t, w)
  {
    hide Bits, Value, Rotl1, Xor4;
    BackAndForth(w16);
    BackAndForth(w14);
    BackAndForth(w8);
    BackAndForth(w3);
  }

  /** One round, with the word that comes in and the register that comes out. */
  lemma OneRound(block: seq<bv8>, t: nat, a: bv32, b: bv32, c: bv32, d: bv32, e: bv32, w: bv32, next: bv32)
    requires After(block, t, a, b, c, d, e) && Word(block, t, w)
    requires Value(next)
             == (Value(Rotl5(a)) + Value(F(t, b, c, d)) + Value(e) + K(t) + Value(w)) % 0x1_0000_0000
    ensures After(block, t + 1, next, a, Rotl30(b), c, d)
  {
    hide Bits, Value, Rotl5, Rotl30, F, K, W, Add;
    BackAndForth(a);
    BackAndForth(b);
    BackAndForth(c);
    BackAndForth(d);
    AddFive(Value(Rotl5(a)), Value(F(t, b, c, d)), Value(e), K(t), Value(w));
  }

  lemma AddFive(a: Word, b: Word, c: Word, d: Word, e: Word)
    ensures Add(Add(Add(Add(a, b), c), d), e) == (a + b + c + d + e) % 0x1_0000_0000
  {
    AddMod(a + b, c);
    AddMod(a + b + c, d);
    AddMod(a + b + c + d, e);
    hide Add;
  }

  lemma AddMod(x: nat, y: Word)
    ensures Add(x % 0x1_0000_0000, y) == (x + y) % 0x1_0000_0000
  {
    ModAdd(x, y, 0x1_0000_0000);
  }

  lemma Words0(block: seq<bv8>, t: nat)
    requires t == 0 && Sixteen(block, t,
              0x61626380, 0x00000000, 0x00000000, 0x00000000, 0x00000000, 0x00000000, 0x00000000, 0x00000000,
              0x00000000, 0x00000000, 0x00000000, 0x00000000, 0x00000000, 0x00000000, 0x00000000, 0x00000018)
    ensures Sixteen(block, t + 16,
              0xc2c4c700, 0x00000000, 0x00000030, 0x85898e01, 0x00000000, 0x00000060, 0x0b131c03, 0x00000030,
              0x85898ec1, 0x16263806, 0x00000000, 0x00000180, 0x2c4c700c, 0x000000f0, 0x93afb507, 0x5898e048)
  {
    hide Word;
    Expand(block, t + 16, 0x61626380, 0x00000000, 0x00000000, 0x00000000, 0xc2c4c700);
    Expand(block, t + 17, 0x00000000, 0x00000000, 0x00000000, 0x00000000, 0x00000000);
    Expand(block, t + 18, 0x00000000, 0x00000000, 0x00000000, 0x00000018, 0x00000030);
    Expand(block, t + 19, 0x00000000, 0x00000000, 0x00000000, 0xc2c4c700, 0x85898e01);
    Expand(block, t + 20, 0x00000000, 0x00000000, 0x00000000, 0x00000000, 0x00000000);
    Expand(block, t + 21, 0x00000000, 0x00000000, 0x00000000, 0x00000030, 0x00000060);
    Expand(block, t + 22, 0x00000000, 0x00000000, 0x00000000, 0x85898e01, 0x0b131c03);
    Expand(block, t + 23, 0x00000000, 0x00000000, 0x00000018, 0x00000000, 0x00000030);
    Expand(block, t + 24, 0x00000000, 0x00000000, 0xc2c4c700, 0x00000060, 0x85898ec1);
    Expand(block, t + 25, 0x00000000, 0x00000000, 0x00000000, 0x0b131c03, 0x16263806);
    Expand(block, t + 26, 0x00000000, 0x00000000, 0x00000030, 0x00000030, 0x00000000);
    Expand(block, t + 27, 0x00000000, 0x00000000, 0x85898e01, 0x85898ec1, 0x00000180);
    Expand(block, t + 28, 0x00000000, 0x00000000, 0x00000000, 0x16263806, 0x2c4c700c);
    Expand(block, t + 29, 0x00000000, 0x00000018, 0x00000060, 0x00000000, 0x000000f0);
    Expand(block, t + 30, 0x00000000, 0xc2c4c700, 0x0b131c03, 0x00000180, 0x93afb507);
    Expand(block, t + 31, 0x00000018, 0x00000000, 0x00000030, 0x2c4c700c, 0x5898e048);
  }

  lemma Stage0(block: seq<bv8>, t: nat)
    requires t == 0 && After(block, t, 0x67452301, 0xefcdab89, 0x98badcfe, 0x10325476, 0xc3d2e1f0)
    requires Sixteen(block, t,
              0x61626380, 0x00000000, 0x00000000, 0x00000000, 0x00000000, 0x00000000, 0x00000000, 0x00000000,
              0x00000000, 0x00000000, 0x00000000, 0x00000000, 0x00000000, 0x00000000, 0x00000000, 0x00000018)
    ensures After(block, t + 16, 0x20bdd62f, 0x196bee77, 0x644a3da5, 0x1181ed99, 0x18c623f9)
  {
    hide Word, After;
    OneRound(block, 0, 0x67452301, 0xefcdab89, 0x98badcfe, 0x10325476, 0xc3d2e1f0, 0x61626380, 0x0116fc33);
    OneRound(block, 1, 0x0116fc33, 0x67452301, 0x7bf36ae2, 0x98badcfe, 0x10325476, 0x00000000, 0x8990536d);
    OneRound(block, 2, 0x8990536d, 0x0116fc33, 0x59d148c0, 0x7bf36ae2, 0x98badcfe, 0x00000000, 0xa1390f08);
    OneRound(block, 3, 0xa1390f08, 0x8990536d, 0xc045bf0c, 0x59d148c0, 0x7bf36ae2, 0x00000000, 0xcdd8e11b);
    OneRound(block, 4, 0xcdd8e11b, 0xa1390f08, 0x626414db, 0xc045bf0c, 0x59d148c0, 0x00000000, 0xcfd499de);
    OneRound(block, 5, 0xcfd499de, 0xcdd8e11b, 0x284e43c2, 0x626414db, 0xc045bf0c, 0x00000000, 0x3fc7ca40);
    OneRound(block, 6, 0x3fc7ca40, 0xcfd499de, 0xf3763846, 0x284e43c2, 0x626414db, 0x00000000, 0x993e30c1);
    OneRound(block, 7, 0x993e30c1, 0x3fc7ca40, 0xb3f52677, 0xf3763846, 0x284e43c2, 0x00000000, 0x9e8c07d4);
    OneRound(block, 8, 0x9e8c07d4, 0x993e30c1, 0x0ff1f290, 0xb3f52677, 0xf3763846, 0x00000000, 0x4b6ae328);
    OneRound(block, 9, 0x4b6ae328, 0x9e8c07d4, 0x664f8c30, 0x0ff1f290, 0xb3f52677, 0x00000000, 0x8351f929);
    OneRound(block, 10, 0x8351f929, 0x4b6ae328, 0x27a301f5, 0x664f8c30, 0x0ff1f290, 0x00000000, 0xfbda9e89);
    OneRound(block, 11, 0xfbda9e89, 0x8351f929, 0x12dab8ca, 0x27a301f5, 0x664f8c30, 0x00000000, 0x63188fe4);
    OneRound(block, 12, 0x63188fe4, 0xfbda9e89, 0x60d47e4a, 0x12dab8ca, 0x27a301f5, 0x00000000, 0x4607b664);
    OneRound(block, 13, 0x4607b664, 0x63188fe4, 0x7ef6a7a2, 0x60d47e4a, 0x12dab8ca, 0x00000000, 0x9128f695);
    OneRound(block, 14, 0x9128f695, 0x4607b664, 0x18c623f9, 0x7ef6a7a2, 0x60d47e4a, 0x00000000, 0x196bee77);
    OneRound(block, 15, 0x196bee77, 0x9128f695, 0x1181ed99, 0x18c623f9, 0x7ef6a7a2, 0x00000018, 0x20bdd62f);
  }

  lemma Words1(block: seq<bv8>, t: nat)
    requires t == 16 && Sixteen(block, t,
              0xc2c4c700, 0x00000000, 0x00000030, 0x85898e01, 0x00000000, 0x00000060, 0x0b131c03, 0x00000030,
              0x85898ec1, 0x16263806, 0x00000000, 0x00000180, 0x2c4c700c, 0x000000f0, 0x93afb507, 0x5898e048)
    ensures Sixteen(block, t + 16,
              0x8e9a9202, 0x00000600, 0xb131c0f0, 0x16263bc6, 0x4ebed41e, 0x626380a1, 0x16263806, 0x000018c0,
              0xd2e138c4, 0x00000f00, 0x3afb5079, 0x898e04e5, 0xe2ba3c2b, 0x000060c0, 0x053a37cd, 0x74458547)
  {
    hide Word;
    Expand(block, t + 16, 0xc2c4c700, 0x00000030, 0x85898ec1, 0x000000f0, 0x8e9a9202);
    Expand(block, t + 17, 0x00000000, 0x85898e01, 0x16263806, 0x93afb507, 0x00000600);
    Expand(block, t + 18, 0x00000030, 0x00000000, 0x00000000, 0x5898e048, 0xb131c0f0);
    Expand(block, t + 19, 0x85898e01, 0x00000060, 0x00000180, 0x8e9a9202, 0x16263bc6);
    Expand(block, t + 20, 0x00000000, 0x0b131c03, 0x2c4c700c, 0x00000600, 0x4ebed41e);
    Expand(block, t + 21, 0x00000060, 0x00000030, 0x000000f0, 0xb131c0f0, 0x626380a1);
    Expand(block, t + 22, 0x0b131c03, 0x85898ec1, 0x93afb507, 0x16263bc6, 0x16263806);
    Expand(block, t + 23, 0x00000030, 0x16263806, 0x5898e048, 0x4ebed41e, 0x000018c0);
    Expand(block, t + 24, 0x85898ec1, 0x00000000, 0x8e9a9202, 0x626380a1, 0xd2e138c4);
    Expand(block, t + 25, 0x16263806, 0x00000180, 0x00000600, 0x16263806, 0x00000f00);
    Expand(block, t + 26, 0x00000000, 0x2c4c700c, 0xb131c0f0, 0x000018c0, 0x3afb5079);
    Expand(block, t + 27, 0x00000180, 0x000000f0, 0x16263bc6, 0xd2e138c4, 0x898e04e5);
    Expand(block, t + 28, 0x2c4c700c, 0x93afb507, 0x4ebed41e, 0x00000f00, 0xe2ba3c2b);
    Expand(block, t + 29, 0x000000f0, 0x5898e048, 0x626380a1, 0x3afb5079, 0x000060c0);
    Expand(block, t + 30, 0x93afb507, 0x8e9a9202, 0x16263806, 0x898e04e5, 0x053a37cd);
    Expand(block, t + 31, 0x5898e048, 0x00000600, 0x000018c0, 0xe2ba3c2b, 0x74458547);
  }

  lemma Stage1(block: seq<bv8>, t: nat)
    requires t == 16 && After(block, t, 0x20bdd62f, 0x196bee77, 0x644a3da5, 0x1181ed99, 0x18c623f9)
    requires Sixteen(block, t,
              0xc2c4c700, 0x00000000, 0x00000030, 0x85898e01, 0x00000000, 0x00000060, 0x0b131c03, 0x00000030,
              0x85898ec1, 0x16263806, 0x00000000, 0x00000180, 0x2c4c700c, 0x000000f0, 0x93afb507, 0x5898e048)
    ensures After(block, t + 16, 0x3b845d33, 0x1267b407, 0x717eebd7, 0xa0dc2d4b, 0xd2aa1365)
  {
    hide Word, After;
    OneRound(block, 16, 0x20bdd62f, 0x196bee77, 0x644a3da5, 0x1181ed99, 0x18c623f9, 0xc2c4c700, 0x4e925823);
    OneRound(block, 17, 0x4e925823, 0x20bdd62f, 0xc65afb9d, 0x644a3da5, 0x1181ed99, 0x00000000, 0x82aa6728);
    OneRound(block, 18, 0x82aa6728, 0x4e925823, 0xc82f758b, 0xc65afb9d, 0x644a3da5, 0x00000030, 0xdc64901d);
    OneRound(block, 19, 0xdc64901d, 0x82aa6728, 0xd3a49608, 0xc82f758b, 0xc65afb9d, 0x85898e01, 0xfd9e1d7d);
    OneRound(block, 20, 0xfd9e1d7d, 0xdc64901d, 0x20aa99ca, 0xd3a49608, 0xc82f758b, 0x00000000, 0x1a37b0ca);
    OneRound(block, 21, 0x1a37b0ca, 0xfd9e1d7d, 0x77192407, 0x20aa99ca, 0xd3a49608, 0x00000060, 0x33a23bfc);
    OneRound(block, 22, 0x33a23bfc, 0x1a37b0ca, 0x7f67875f, 0x77192407, 0x20aa99ca, 0x0b131c03, 0x21283486);
    OneRound(block, 23, 0x21283486, 0x33a23bfc, 0x868dec32, 0x7f67875f, 0x77192407, 0x00000030, 0xd541f12d);
    OneRound(block, 24, 0xd541f12d, 0x21283486, 0x0ce88eff, 0x868dec32, 0x7f67875f, 0x85898ec1, 0xc7567dc6);
    OneRound(block, 25, 0xc7567dc6, 0xd541f12d, 0x884a0d21, 0x0ce88eff, 0x868dec32, 0x16263806, 0x48413ba4);
    OneRound(block, 26, 0x48413ba4, 0xc7567dc6, 0x75507c4b, 0x884a0d21, 0x0ce88eff, 0x00000000, 0xbe35fbd5);
    OneRound(block, 27, 0xbe35fbd5, 0x48413ba4, 0xb1d59f71, 0x75507c4b, 0x884a0d21, 0x00000180, 0x4aa84d97);
    OneRound(block, 28, 0x4aa84d97, 0xbe35fbd5, 0x12104ee9, 0xb1d59f71, 0x75507c4b, 0x2c4c700c, 0x8370b52e);
    OneRound(block, 29, 0x8370b52e, 0x4aa84d97, 0x6f8d7ef5, 0x12104ee9, 0xb1d59f71, 0x000000f0, 0xc5fbaf5d);
    OneRound(block, 30, 0xc5fbaf5d, 0x8370b52e, 0xd2aa1365, 0x6f8d7ef5, 0x12104ee9, 0x93afb507, 0x1267b407);
    OneRound(block, 31, 0x1267b407, 0xc5fbaf5d, 0xa0dc2d4b, 0xd2aa1365, 0x6f8d7ef5, 0x5898e048, 0x3b845d33);
  }

  lemma Words2(block: seq<bv8>, t: nat)
    requires t == 32 && Sixteen(block, t,
              0x8e9a9202, 0x00000600, 0xb131c0f0, 0x16263bc6, 0x4ebed41e, 0x626380a1, 0x16263806, 0x000018c0,
              0xd2e138c4, 0x00000f00, 0x3afb5079, 0x898e04e5, 0xe2ba3c2b, 0x000060c0, 0x053a37cd, 0x74458547)
    ensures Sixteen(block, t + 16,
              0xda9415ed, 0x26380a16, 0x626383a1, 0x4ebf54de, 0x3835b44b, 0x0000f600, 0x1e84c7a3, 0x98e04d98,
              0x651d16a0, 0x62658ca1, 0x458544d6, 0x44584cb7, 0x7ba06619, 0x6380aea2, 0x0ae55269, 0x627b49a1)
  {
    hide Word;
    Expand(block, t + 16, 0x8e9a9202, 0xb131c0f0, 0xd2e138c4, 0x000060c0, 0xda9415ed);
    Expand(block, t + 17, 0x00000600, 0x16263bc6, 0x00000f00, 0x053a37cd, 0x26380a16);
    Expand(block, t + 18, 0xb131c0f0, 0x4ebed41e, 0x3afb5079, 0x74458547, 0x626383a1);
    Expand(block, t + 19, 0x16263bc6, 0x626380a1, 0x898e04e5, 0xda9415ed, 0x4ebf54de);
    Expand(block, t + 20, 0x4ebed41e, 0x16263806, 0xe2ba3c2b, 0x26380a16, 0x3835b44b);
    Expand(block, t + 21, 0x626380a1, 0x000018c0, 0x000060c0, 0x626383a1, 0x0000f600);
    Expand(block, t + 22, 0x16263806, 0xd2e138c4, 0x053a37cd, 0x4ebf54de, 0x1e84c7a3);
    Expand(block, t + 23, 0x000018c0, 0x00000f00, 0x74458547, 0x3835b44b, 0x98e04d98);
    Expand(block, t + 24, 0xd2e138c4, 0x3afb5079, 0xda9415ed, 0x0000f600, 0x651d16a0);
    Expand(block, t + 25, 0x00000f00, 0x898e04e5, 0x26380a16, 0x1e84c7a3, 0x62658ca1);
    Expand(block, t + 26, 0x3afb5079, 0xe2ba3c2b, 0x626383a1, 0x98e04d98, 0x458544d6);
    Expand(block, t + 27, 0x898e04e5, 0x000060c0, 0x4ebf54de, 0x651d16a0, 0x44584cb7);
    Expand(block, t + 28, 0xe2ba3c2b, 0x053a37cd, 0x3835b44b, 0x62658ca1, 0x7ba06619);
    Expand(block, t + 29, 0x000060c0, 0x74458547, 0x0000f600, 0x458544d6, 0x6380aea2);
    Expand(block, t + 30, 0x053a37cd, 0xda9415ed, 0x1e84c7a3, 0x44584cb7, 0x0ae55269);
    Expand(block, t + 31, 0x74458547, 0x26380a16, 0x98e04d98, 0x7ba06619, 0x627b49a1);
  }

  lemma Stage2(block: seq<bv8>, t: nat)
    requires t == 32 && After(block, t, 0x3b845d33, 0x1267b407, 0x717eebd7, 0xa0dc2d4b, 0xd2aa1365)
    requires Sixteen(block, t,
              0x8e9a9202, 0x00000600, 0xb131c0f0, 0x16263bc6, 0x4ebed41e, 0x626380a1, 0x16263806, 0x000018c0,
              0xd2e138c4, 0x00000f00, 0x3afb5079, 0x898e04e5, 0xe2ba3c2b, 0x000060c0, 0x053a37cd, 0x74458547)
    ensures After(block, t + 16, 0xbead02ca, 0xa01b846c, 0x8714787c, 0x503ca382, 0xfb86c6ab)
  {
    hide Word, After;
    OneRound(block, 32, 0x3b845d33, 0x1267b407, 0x717eebd7, 0xa0dc2d4b, 0xd2aa1365, 0x8e9a9202, 0x046faa0a);
    OneRound(block, 33, 0x046faa0a, 0x3b845d33, 0xc499ed01, 0x717eebd7, 0xa0dc2d4b, 0x00000600, 0x2c0ebc11);
    OneRound(block, 34, 0x2c0ebc11, 0x046faa0a, 0xcee1174c, 0xc499ed01, 0x717eebd7, 0xb131c0f0, 0x21796ad4);
    OneRound(block, 35, 0x21796ad4, 0x2c0ebc11, 0x811bea82, 0xcee1174c, 0xc499ed01, 0x16263bc6, 0xdcbbb0cb);
    OneRound(block, 36, 0xdcbbb0cb, 0x21796ad4, 0x4b03af04, 0x811bea82, 0xcee1174c, 0x4ebed41e, 0x0f511fd8);
    OneRound(block, 37, 0x0f511fd8, 0xdcbbb0cb, 0x085e5ab5, 0x4b03af04, 0x811bea82, 0x626380a1, 0xdc63973f);
    OneRound(block, 38, 0xdc63973f, 0x0f511fd8, 0xf72eec32, 0x085e5ab5, 0x4b03af04, 0x16263806, 0x4c986405);
    OneRound(block, 39, 0x4c986405, 0xdc63973f, 0x03d447f6, 0xf72eec32, 0x085e5ab5, 0x000018c0, 0x32de1cba);
    OneRound(block, 40, 0x32de1cba, 0x4c986405, 0xf718e5cf, 0x03d447f6, 0xf72eec32, 0xd2e138c4, 0xfc87dedf);
    OneRound(block, 41, 0xfc87dedf, 0x32de1cba, 0x53261901, 0xf718e5cf, 0x03d447f6, 0x00000f00, 0x970a0d5c);
    OneRound(block, 42, 0x970a0d5c, 0xfc87dedf, 0x8cb7872e, 0x53261901, 0xf718e5cf, 0x3afb5079, 0x7f193dc5);
    OneRound(block, 43, 0x7f193dc5, 0x970a0d5c, 0xff21f7b7, 0x8cb7872e, 0x53261901, 0x898e04e5, 0xee1b1aaf);
    OneRound(block, 44, 0xee1b1aaf, 0x7f193dc5, 0x25c28357, 0xff21f7b7, 0x8cb7872e, 0xe2ba3c2b, 0x40f28e09);
    OneRound(block, 45, 0x40f28e09, 0xee1b1aaf, 0x5fc64f71, 0x25c28357, 0xff21f7b7, 0x000060c0, 0x1c51e1f2);
    OneRound(block, 46, 0x1c51e1f2, 0x40f28e09, 0xfb86c6ab, 0x5fc64f71, 0x25c28357, 0x053a37cd, 0xa01b846c);
    OneRound(block, 47, 0xa01b846c, 0x1c51e1f2, 0x503ca382, 0xfb86c6ab, 0x5fc64f71, 0x74458547, 0xbead02ca);
  }

  lemma Words3(block: seq<bv8>, t: nat)
    requires t == 48 && Sixteen(block, t,
              0xda9415ed, 0x26380a16, 0x626383a1, 0x4ebf54de, 0x3835b44b, 0x0000f600, 0x1e84c7a3, 0x98e04d98,
              0x651d16a0, 0x62658ca1, 0x458544d6, 0x44584cb7, 0x7ba06619, 0x6380aea2, 0x0ae55269, 0x627b49a1)
    ensures Sixteen(block, t + 16,
              0x7cd45c9d, 0x000f0000, 0xfb50753a, 0xec6765e8, 0xba3c2be2, 0x0060c000, 0x3a37cd05, 0x458546f4,
              0xb8599dd6, 0x380a1a26, 0x01e02203, 0xe7cc3456, 0xe6e60b69, 0x00f60a00, 0x5795ef4f, 0x822e0879)
  {
    hide Word;
    Expand(block, t + 16, 0xda9415ed, 0x626383a1, 0x651d16a0, 0x6380aea2, 0x7cd45c9d);
    Expand(block, t + 17, 0x26380a16, 0x4ebf54de, 0x62658ca1, 0x0ae55269, 0x000f0000);
    Expand(block, t + 18, 0x626383a1, 0x3835b44b, 0x458544d6, 0x627b49a1, 0xfb50753a);
    Expand(block, t + 19, 0x4ebf54de, 0x0000f600, 0x44584cb7, 0x7cd45c9d, 0xec6765e8);
    Expand(block, t + 20, 0x3835b44b, 0x1e84c7a3, 0x7ba06619, 0x000f0000, 0xba3c2be2);
    Expand(block, t + 21, 0x0000f600, 0x98e04d98, 0x6380aea2, 0xfb50753a, 0x0060c000);
    Expand(block, t + 22, 0x1e84c7a3, 0x651d16a0, 0x0ae55269, 0xec6765e8, 0x3a37cd05);
    Expand(block, t + 23, 0x98e04d98, 0x62658ca1, 0x627b49a1, 0xba3c2be2, 0x458546f4);
    Expand(block, t + 24, 0x651d16a0, 0x458544d6, 0x7cd45c9d, 0x0060c000, 0xb8599dd6);
    Expand(block, t + 25, 0x62658ca1, 0x44584cb7, 0x000f0000, 0x3a37cd05, 0x380a1a26);
    Expand(block, t + 26, 0x458544d6, 0x7ba06619, 0xfb50753a, 0x458546f4, 0x01e02203);
    Expand(block, t + 27, 0x44584cb7, 0x6380aea2, 0xec6765e8, 0xb8599dd6, 0xe7cc3456);
    Expand(block, t + 28, 0x7ba06619, 0x0ae55269, 0xba3c2be2, 0x380a1a26, 0xe6e60b69);
    Expand(block, t + 29, 0x6380aea2, 0x627b49a1, 0x0060c000, 0x01e02203, 0x00f60a00);
    Expand(block, t + 30, 0x0ae55269, 0x7cd45c9d, 0x3a37cd05, 0xe7cc3456, 0x5795ef4f);
    Expand(block, t + 31, 0x627b49a1, 0x000f0000, 0x458546f4, 0xe6e60b69, 0x822e0879);
  }

  lemma Stage3(block: seq<bv8>, t: nat)
    requires t == 48 && After(block, t, 0xbead02ca, 0xa01b846c, 0x8714787c, 0x503ca382, 0xfb86c6ab)
    requires Sixteen(block, t,
              0xda9415ed, 0x26380a16, 0x626383a1, 0x4ebf54de, 0x3835b44b, 0x0000f600, 0x1e84c7a3, 0x98e04d98,
              0x651d16a0, 0x62658ca1, 0x458544d6, 0x44584cb7, 0x7ba06619, 0x6380aea2, 0x0ae55269, 0x627b49a1)
    ensures After(block, t + 16, 0x6b61c9e1, 0xb66c020b, 0x9523272c, 0xf5d5b051, 0x8fd4b796)
  {
    hide Word, After;
    OneRound(block, 48, 0xbead02ca, 0xa01b846c, 0x8714787c, 0x503ca382, 0xfb86c6ab, 0xda9415ed, 0xbaf39337);
    OneRound(block, 49, 0xbaf39337, 0xbead02ca, 0x2806e11b, 0x8714787c, 0x503ca382, 0x26380a16, 0x120731c5);
    OneRound(block, 50, 0x120731c5, 0xbaf39337, 0xafab40b2, 0x2806e11b, 0x8714787c, 0x626383a1, 0x641db2ce);
    OneRound(block, 51, 0x641db2ce, 0x120731c5, 0xeebce4cd, 0xafab40b2, 0x2806e11b, 0x4ebf54de, 0x3847ad66);
    OneRound(block, 52, 0x3847ad66, 0x641db2ce, 0x4481cc71, 0xeebce4cd, 0xafab40b2, 0x3835b44b, 0xe490436d);
    OneRound(block, 53, 0xe490436d, 0x3847ad66, 0x99076cb3, 0x4481cc71, 0xeebce4cd, 0x0000f600, 0x27e9f1d8);
    OneRound(block, 54, 0x27e9f1d8, 0xe490436d, 0x8e11eb59, 0x99076cb3, 0x4481cc71, 0x1e84c7a3, 0x7b71f76d);
    OneRound(block, 55, 0x7b71f76d, 0x27e9f1d8, 0x792410db, 0x8e11eb59, 0x99076cb3, 0x98e04d98, 0x5e6456af);
    OneRound(block, 56, 0x5e6456af, 0x7b71f76d, 0x09fa7c76, 0x792410db, 0x8e11eb59, 0x651d16a0, 0xc846093f);
    OneRound(block, 57, 0xc846093f, 0x5e6456af, 0x5edc7ddb, 0x09fa7c76, 0x792410db, 0x62658ca1, 0xd262ff50);
    OneRound(block, 58, 0xd262ff50, 0xc846093f, 0xd79915ab, 0x5edc7ddb, 0x09fa7c76, 0x458544d6, 0x09d785fd);
    OneRound(block, 59, 0x09d785fd, 0xd262ff50, 0xf211824f, 0xd79915ab, 0x5edc7ddb, 0x44584cb7, 0x3f52de5a);
    OneRound(block, 60, 0x3f52de5a, 0x09d785fd, 0x3498bfd4, 0xf211824f, 0xd79915ab, 0x7ba06619, 0xd756c147);
    OneRound(block, 61, 0xd756c147, 0x3f52de5a, 0x4275e17f, 0x3498bfd4, 0xf211824f, 0x6380aea2, 0x548c9cb2);
    OneRound(block, 62, 0x548c9cb2, 0xd756c147, 0x8fd4b796, 0x4275e17f, 0x3498bfd4, 0x0ae55269, 0xb66c020b);
    OneRound(block, 63, 0xb66c020b, 0x548c9cb2, 0xf5d5b051, 0x8fd4b796, 0x4275e17f, 0x627b49a1, 0x6b61c9e1);
  }

  lemma Stage4(block: seq<bv8>, t: nat)
    requires t == 64 && After(block, t, 0x6b61c9e1, 0xb66c020b, 0x9523272c, 0xf5d5b051, 0x8fd4b796)
    requires Sixteen(block, t,
              0x7cd45c9d, 0x000f0000, 0xfb50753a, 0xec6765e8, 0xba3c2be2, 0x0060c000, 0x3a37cd05, 0x458546f4,
              0xb8599dd6, 0x380a1a26, 0x01e02203, 0xe7cc3456, 0xe6e60b69, 0x00f60a00, 0x5795ef4f, 0x822e0879)
    ensures After(block, t + 16, 0x42541b35, 0x5738d5e1, 0x21834873, 0x681e6df6, 0xd8fdf6ad)
  {
    hide Word, After;
    OneRound(block, 64, 0x6b61c9e1, 0xb66c020b, 0x9523272c, 0xf5d5b051, 0x8fd4b796, 0x7cd45c9d, 0x19dfa7ac);
    OneRound(block, 65, 0x19dfa7ac, 0x6b61c9e1, 0xed9b0082, 0x9523272c, 0xf5d5b051, 0x000f0000, 0x101655f9);
    OneRound(block, 66, 0x101655f9, 0x19dfa7ac, 0x5ad87278, 0xed9b0082, 0x9523272c, 0xfb50753a, 0x0c3df2b4);
    OneRound(block, 67, 0x0c3df2b4, 0x101655f9, 0x0677e9eb, 0x5ad87278, 0xed9b0082, 0xec6765e8, 0x78dd4d2b);
    OneRound(block, 68, 0x78dd4d2b, 0x0c3df2b4, 0x4405957e, 0x0677e9eb, 0x5ad87278, 0xba3c2be2, 0x497093c0);
    OneRound(block, 69, 0x497093c0, 0x78dd4d2b, 0x030f7cad, 0x4405957e, 0x0677e9eb, 0x0060c000, 0x3f2588c2);
    OneRound(block, 70, 0x3f2588c2, 0x497093c0, 0xde37534a, 0x030f7cad, 0x4405957e, 0x3a37cd05, 0xc199f8c7);
    OneRound(block, 71, 0xc199f8c7, 0x3f2588c2, 0x125c24f0, 0xde37534a, 0x030f7cad, 0x458546f4, 0x39859de7);
    OneRound(block, 72, 0x39859de7, 0xc199f8c7, 0x8fc96230, 0x125c24f0, 0xde37534a, 0xb8599dd6, 0xedb42de4);
    OneRound(block, 73, 0xedb42de4, 0x39859de7, 0xf0667e31, 0x8fc96230, 0x125c24f0, 0x380a1a26, 0x11793f6f);
    OneRound(block, 74, 0x11793f6f, 0xedb42de4, 0xce616779, 0xf0667e31, 0x8fc96230, 0x01e02203, 0x5ee76897);
    OneRound(block, 75, 0x5ee76897, 0x11793f6f, 0x3b6d0b79, 0xce616779, 0xf0667e31, 0xe7cc3456, 0x63f7dab7);
    OneRound(block, 76, 0x63f7dab7, 0x5ee76897, 0xc45e4fdb, 0x3b6d0b79, 0xce616779, 0xe6e60b69, 0xa079b7d9);
    OneRound(block, 77, 0xa079b7d9, 0x63f7dab7, 0xd7b9da25, 0xc45e4fdb, 0x3b6d0b79, 0x00f60a00, 0x860d21cc);
    OneRound(block, 78, 0x860d21cc, 0xa079b7d9, 0xd8fdf6ad, 0xd7b9da25, 0xc45e4fdb, 0x5795ef4f, 0x5738d5e1);
    OneRound(block, 79, 0x5738d5e1, 0x860d21cc, 0x681e6df6, 0xd8fdf6ad, 0xd7b9da25, 0x822e0879, 0x42541b35);
  }

  const ABC: seq<bv8> := [0x61, 0x62, 0x63]

  /** The padded message is one block. */
  lemma PadAbc()
    ensures |Pad(ABC)| == 64
    ensures Sixteen(Pad(ABC), 0,
              0x61626380, 0x00000000, 0x00000000, 0x00000000, 0x00000000, 0x00000000, 0x00000000, 0x00000000,
              0x00000000, 0x00000000, 0x00000000, 0x00000000, 0x00000000, 0x00000000, 0x00000000, 0x00000018)
  {
    hide Pad, Word;
    BlockOfAbc();
    var block := Pad(ABC);
    WordOf(block, 0, 0x61, 0x62, 0x63, 0x80, 0x61626380);
    for i := 1 to 15
      invariant forall k :: 1 <= k < i ==> Word(block, k, 0)
    {
      WordOf(block, i, 0, 0, 0, 0, 0);
    }
    WordOf(block, 15, 0, 0, 0, 24, 0x18);
  }

  lemma WordOf(block: seq<bv8>, i: nat, a: bv8, b: bv8, c: bv8, d: bv8, w: bv32)
    requires |block| == 64 && i < 16 && BigEndian(a, b, c, d) == w
    requires block[4 * i] == a && block[4 * i + 1] == b && block[4 * i + 2] == c && block[4 * i + 3] == d
    ensures Word(block, i, w)
  {
    hide BigEndian, Value;
  }

  lemma BlockOfAbc()
    ensures |Pad(ABC)| == 64 && Pad(ABC)[..4] == [0x61, 0x62, 0x63, 0x80]
    ensures (forall j :: 4 <= j < 63 ==> Pad(ABC)[j] == 0) && Pad(ABC)[63] == 24
  {
    hide Length64;
    LengthOf24();
  }

  lemma LengthOf24()
    ensures Length64(24) == [0, 0, 0, 0, 0, 0, 0, 24]
  {
    ByteIs(24, 1, 24);
    ByteIs(24, 0x100, 0);
    ByteIs(24, 0x1_0000, 0);
    ByteIs(24, 0x100_0000, 0);
    ByteIs(24, 0x1_0000_0000, 0);
    ByteIs(24, 0x100_0000_0000, 0);
    ByteIs(24, 0x1_0000_0000_0000, 0);
    ByteIs(24, 0x100_0000_0000_0000, 0);
    hide Byte;
  }

  lemma Begin(block: seq<bv8>)
    requires |block| == 64
    ensures After(block, 0, 0x67452301, 0xefcdab89, 0x98badcfe, 0x10325476, 0xc3d2e1f0)
  {}

  lemma Finish(block: seq<bv8>)
    requires After(block, 80, 0x42541b35, 0x5738d5e1, 0x21834873, 0x681e6df6, 0xd8fdf6ad)
    ensures AddRegs(START, Rounds(START, block, 80)) == Regs(0xa9993e36, 0x4706816a, 0xba3e2571, 0x7850c26c, 0x9cd0d89d)
  {
    hide Rounds;
  }

  lemma AbcRounds(block: seq<bv8>)
    requires |block| == 64 && Sixteen(block, 0,
              0x61626380, 0x00000000, 0x00000000, 0x00000000, 0x00000000, 0x00000000, 0x00000000, 0x00000000,
              0x00000000, 0x00000000, 0x00000000, 0x00000000, 0x00000000, 0x00000000, 0x00000000, 0x00000018)
    ensures AddRegs(START, Rounds(START, block, 80)) == Regs(0xa9993e36, 0x4706816a, 0xba3e2571, 0x7850c26c, 0x9cd0d89d)
  {
    hide Rounds, AddRegs, Sixteen, After;
    Begin(block);
    Words0(block, 0);
    Words1(block, 16);
    Words2(block, 32);
    Words3(block, 48);
    Stage0(block, 0);
    Stage1(block, 16);
    Stage2(block, 32);
    Stage3(block, 48);
    Stage4(block, 64);
    Finish(block);
  }

  /** The digest of "abc". */
  lemma DigestOfAbc()
    ensures Digest(ABC) == Regs(0xa9993e36, 0x4706816a, 0xba3e2571, 0x7850c26c, 0x9cd0d89d)
  {
    hide Pad, Rounds, AddRegs, Digest, Sixteen;
    PadAbc();
    AbcRounds(Pad(ABC));
    AddingStartGivesDigest(ABC, Rounds(START, Pad(ABC), 80));
  }
}
