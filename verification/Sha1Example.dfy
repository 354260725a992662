/** The example of section 7.3 of RFC 3174: the digest of "abc".  It fixes every constant, rotation and
    place of the specification in `Sha1`. */
module Sha1Example {
  import opened Sha1

  /** The initial hash value, section 5.3.1 of FIPS 180-4. */
  const START := State(0x67452301, 0xefcdab89, 0x98badcfe, 0x10325476, 0xc3d2e1f0)

  /** "abc" with its padding and its length of 24 bits. */
  function Abc(): (data: seq<bv8>)
    ensures |data| == 64
  {
    [0x61, 0x62, 0x63, 0x80] + seq(59, _ => 0) + [0x18]
  }

  // ----- The words of its schedule -----

  lemma Words0(data: seq<bv8>)
    requires data == Abc()
    ensures W(data, 0) == 0x61626380 && W(data, 1) == 0 && W(data, 2) == 0 && W(data, 3) == 0
    ensures W(data, 4) == 0 && W(data, 5) == 0 && W(data, 6) == 0 && W(data, 7) == 0
    ensures W(data, 8) == 0 && W(data, 9) == 0 && W(data, 10) == 0 && W(data, 11) == 0
    ensures W(data, 12) == 0 && W(data, 13) == 0 && W(data, 14) == 0 && W(data, 15) == 0x18
  {
    assert data[0] == 0x61 && data[1] == 0x62 && data[2] == 0x63 && data[3] == 0x80;
    assert data[60] == 0 && data[61] == 0 && data[62] == 0 && data[63] == 0x18;
    forall t | 1 <= t < 15 ensures M(data, t) == 0 {
      assert data[4 * t] == 0 && data[4 * t + 1] == 0 && data[4 * t + 2] == 0 && data[4 * t + 3] == 0;
    }
  }

  lemma Mixed(data: seq<bv8>, t: nat)
    requires |data| == 64 && t >= 16
    ensures W(data, t) == Rol(Xor4(W(data, t - 3), W(data, t - 8), W(data, t - 14), W(data, t - 16)), 1)
  {
    hide Rol, Xor4;
  }

  lemma Words16(data: seq<bv8>)
    requires data == Abc()
    ensures W(data, 16) == 0xc2c4c700 && W(data, 17) == 0x00000000 && W(data, 18) == 0x00000030 && W(data, 19) == 0x85898e01
    ensures W(data, 20) == 0x00000000 && W(data, 21) == 0x00000060 && W(data, 22) == 0x0b131c03 && W(data, 23) == 0x00000030
    ensures W(data, 24) == 0x85898ec1 && W(data, 25) == 0x16263806 && W(data, 26) == 0x00000000 && W(data, 27) == 0x00000180
    ensures W(data, 28) == 0x2c4c700c && W(data, 29) == 0x000000f0 && W(data, 30) == 0x93afb507 && W(data, 31) == 0x5898e048
  {
    hide Abc, W, M;
    Words0(data);
    Mixed(data, 16); Mixed(data, 17); Mixed(data, 18); Mixed(data, 19); Mixed(data, 20); Mixed(data, 21); Mixed(data, 22); Mixed(data, 23);
    Mixed(data, 24); Mixed(data, 25); Mixed(data, 26); Mixed(data, 27); Mixed(data, 28); Mixed(data, 29); Mixed(data, 30); Mixed(data, 31);
  }

  lemma Words32(data: seq<bv8>)
    requires data == Abc()
    ensures W(data, 32) == 0x8e9a9202 && W(data, 33) == 0x00000600 && W(data, 34) == 0xb131c0f0 && W(data, 35) == 0x16263bc6
    ensures W(data, 36) == 0x4ebed41e && W(data, 37) == 0x626380a1 && W(data, 38) == 0x16263806 && W(data, 39) == 0x000018c0
    ensures W(data, 40) == 0xd2e138c4 && W(data, 41) == 0x00000f00 && W(data, 42) == 0x3afb5079 && W(data, 43) == 0x898e04e5
    ensures W(data, 44) == 0xe2ba3c2b && W(data, 45) == 0x000060c0 && W(data, 46) == 0x053a37cd && W(data, 47) == 0x74458547
  {
    hide Abc, W, M;
    Words16(data);
    Mixed(data, 32); Mixed(data, 33); Mixed(data, 34); Mixed(data, 35); Mixed(data, 36); Mixed(data, 37); Mixed(data, 38); Mixed(data, 39);
    Mixed(data, 40); Mixed(data, 41); Mixed(data, 42); Mixed(data, 43); Mixed(data, 44); Mixed(data, 45); Mixed(data, 46); Mixed(data, 47);
  }

  lemma Words48(data: seq<bv8>)
    requires data == Abc()
    ensures W(data, 48) == 0xda9415ed && W(data, 49) == 0x26380a16 && W(data, 50) == 0x626383a1 && W(data, 51) == 0x4ebf54de
    ensures W(data, 52) == 0x3835b44b && W(data, 53) == 0x0000f600 && W(data, 54) == 0x1e84c7a3 && W(data, 55) == 0x98e04d98
    ensures W(data, 56) == 0x651d16a0 && W(data, 57) == 0x62658ca1 && W(data, 58) == 0x458544d6 && W(data, 59) == 0x44584cb7
    ensures W(data, 60) == 0x7ba06619 && W(data, 61) == 0x6380aea2 && W(data, 62) == 0x0ae55269 && W(data, 63) == 0x627b49a1
  {
    hide Abc, W, M;
    Words32(data);
    Mixed(data, 48); Mixed(data, 49); Mixed(data, 50); Mixed(data, 51); Mixed(data, 52); Mixed(data, 53); Mixed(data, 54); Mixed(data, 55);
    Mixed(data, 56); Mixed(data, 57); Mixed(data, 58); Mixed(data, 59); Mixed(data, 60); Mixed(data, 61); Mixed(data, 62); Mixed(data, 63);
  }

  lemma Words64(data: seq<bv8>)
    requires data == Abc()
    ensures W(data, 64) == 0x7cd45c9d && W(data, 65) == 0x000f0000 && W(data, 66) == 0xfb50753a && W(data, 67) == 0xec6765e8
    ensures W(data, 68) == 0xba3c2be2 && W(data, 69) == 0x0060c000 && W(data, 70) == 0x3a37cd05 && W(data, 71) == 0x458546f4
    ensures W(data, 72) == 0xb8599dd6 && W(data, 73) == 0x380a1a26 && W(data, 74) == 0x01e02203 && W(data, 75) == 0xe7cc3456
    ensures W(data, 76) == 0xe6e60b69 && W(data, 77) == 0x00f60a00 && W(data, 78) == 0x5795ef4f && W(data, 79) == 0x822e0879
  {
    hide Abc, W, M;
    Words48(data);
    Mixed(data, 64); Mixed(data, 65); Mixed(data, 66); Mixed(data, 67); Mixed(data, 68); Mixed(data, 69); Mixed(data, 70); Mixed(data, 71);
    Mixed(data, 72); Mixed(data, 73); Mixed(data, 74); Mixed(data, 75); Mixed(data, 76); Mixed(data, 77); Mixed(data, 78); Mixed(data, 79);
  }

  // ----- The registers after every ten turns -----

  lemma Turns0(data: seq<bv8>)
    requires data == Abc()
    ensures Rounds(data, START, 0) == State(0x67452301, 0xefcdab89, 0x98badcfe, 0x10325476, 0xc3d2e1f0)
  {
    hide Abc;
  }

  lemma Turns10(data: seq<bv8>)
    requires data == Abc()
    ensures Rounds(data, START, 10) == State(0x8351f929, 0x4b6ae328, 0x27a301f5, 0x664f8c30, 0x0ff1f290)
  {
    hide Abc, W, M, Rounds;
    Turns0(data);
    Words0(data);
    RoundsStep(data, START, 0); assert Rounds(data, START, 1) == State(0x0116fc33, 0x67452301, 0x7bf36ae2, 0x98badcfe, 0x10325476);
    RoundsStep(data, START, 1); assert Rounds(data, START, 2) == State(0x8990536d, 0x0116fc33, 0x59d148c0, 0x7bf36ae2, 0x98badcfe);
    RoundsStep(data, START, 2); assert Rounds(data, START, 3) == State(0xa1390f08, 0x8990536d, 0xc045bf0c, 0x59d148c0, 0x7bf36ae2);
    RoundsStep(data, START, 3); assert Rounds(data, START, 4) == State(0xcdd8e11b, 0xa1390f08, 0x626414db, 0xc045bf0c, 0x59d148c0);
    RoundsStep(data, START, 4); assert Rounds(data, START, 5) == State(0xcfd499de, 0xcdd8e11b, 0x284e43c2, 0x626414db, 0xc045bf0c);
    RoundsStep(data, START, 5); assert Rounds(data, START, 6) == State(0x3fc7ca40, 0xcfd499de, 0xf3763846, 0x284e43c2, 0x626414db);
    RoundsStep(data, START, 6); assert Rounds(data, START, 7) == State(0x993e30c1, 0x3fc7ca40, 0xb3f52677, 0xf3763846, 0x284e43c2);
    RoundsStep(data, START, 7); assert Rounds(data, START, 8) == State(0x9e8c07d4, 0x993e30c1, 0x0ff1f290, 0xb3f52677, 0xf3763846);
    RoundsStep(data, START, 8); assert Rounds(data, START, 9) == State(0x4b6ae328, 0x9e8c07d4, 0x664f8c30, 0x0ff1f290, 0xb3f52677);
    RoundsStep(data, START, 9);
  }

  lemma Turns20(data: seq<bv8>)
    requires data == Abc()
    ensures Rounds(data, START, 20) == State(0xfd9e1d7d, 0xdc64901d, 0x20aa99ca, 0xd3a49608, 0xc82f758b)
  {
    hide Abc, W, M, Rounds;
    Turns10(data);
    Words0(data); Words16(data);
    RoundsStep(data, START, 10); assert Rounds(data, START, 11) == State(0xfbda9e89, 0x8351f929, 0x12dab8ca, 0x27a301f5, 0x664f8c30);
    RoundsStep(data, START, 11); assert Rounds(data, START, 12) == State(0x63188fe4, 0xfbda9e89, 0x60d47e4a, 0x12dab8ca, 0x27a301f5);
    RoundsStep(data, START, 12); assert Rounds(data, START, 13) == State(0x4607b664, 0x63188fe4, 0x7ef6a7a2, 0x60d47e4a, 0x12dab8ca);
    RoundsStep(data, START, 13); assert Rounds(data, START, 14) == State(0x9128f695, 0x4607b664, 0x18c623f9, 0x7ef6a7a2, 0x60d47e4a);
    RoundsStep(data, START, 14); assert Rounds(data, START, 15) == State(0x196bee77, 0x9128f695, 0x1181ed99, 0x18c623f9, 0x7ef6a7a2);
    RoundsStep(data, START, 15); assert Rounds(data, START, 16) == State(0x20bdd62f, 0x196bee77, 0x644a3da5, 0x1181ed99, 0x18c623f9);
    RoundsStep(data, START, 16); assert Rounds(data, START, 17) == State(0x4e925823, 0x20bdd62f, 0xc65afb9d, 0x644a3da5, 0x1181ed99);
    RoundsStep(data, START, 17); assert Rounds(data, START, 18) == State(0x82aa6728, 0x4e925823, 0xc82f758b, 0xc65afb9d, 0x644a3da5);
    RoundsStep(data, START, 18); assert Rounds(data, START, 19) == State(0xdc64901d, 0x82aa6728, 0xd3a49608, 0xc82f758b, 0xc65afb9d);
    RoundsStep(data, START, 19);
  }

  lemma Turns30(data: seq<bv8>)
    requires data == Abc()
    ensures Rounds(data, START, 30) == State(0xc5fbaf5d, 0x8370b52e, 0xd2aa1365, 0x6f8d7ef5, 0x12104ee9)
  {
    hide Abc, W, M, Rounds;
    Turns20(data);
    Words16(data);
    RoundsStep(data, START, 20); assert Rounds(data, START, 21) == State(0x1a37b0ca, 0xfd9e1d7d, 0x77192407, 0x20aa99ca, 0xd3a49608);
    RoundsStep(data, START, 21); assert Rounds(data, START, 22) == State(0x33a23bfc, 0x1a37b0ca, 0x7f67875f, 0x77192407, 0x20aa99ca);
    RoundsStep(data, START, 22); assert Rounds(data, START, 23) == State(0x21283486, 0x33a23bfc, 0x868dec32, 0x7f67875f, 0x77192407);
    RoundsStep(data, START, 23); assert Rounds(data, START, 24) == State(0xd541f12d, 0x21283486, 0x0ce88eff, 0x868dec32, 0x7f67875f);
    RoundsStep(data, START, 24); assert Rounds(data, START, 25) == State(0xc7567dc6, 0xd541f12d, 0x884a0d21, 0x0ce88eff, 0x868dec32);
    RoundsStep(data, START, 25); assert Rounds(data, START, 26) == State(0x48413ba4, 0xc7567dc6, 0x75507c4b, 0x884a0d21, 0x0ce88eff);
    RoundsStep(data, START, 26); assert Rounds(data, START, 27) == State(0xbe35fbd5, 0x48413ba4, 0xb1d59f71, 0x75507c4b, 0x884a0d21);
    RoundsStep(data, START, 27); assert Rounds(data, START, 28) == State(0x4aa84d97, 0xbe35fbd5, 0x12104ee9, 0xb1d59f71, 0x75507c4b);
    RoundsStep(data, START, 28); assert Rounds(data, START, 29) == State(0x8370b52e, 0x4aa84d97, 0x6f8d7ef5, 0x12104ee9, 0xb1d59f71);
    RoundsStep(data, START, 29);
  }

  lemma Turns40(data: seq<bv8>)
    requires data == Abc()
    ensures Rounds(data, START, 40) == State(0x32de1cba, 0x4c986405, 0xf718e5cf, 0x03d447f6, 0xf72eec32)
  {
    hide Abc, W, M, Rounds;
    Turns30(data);
    Words16(data); Words32(data);
    RoundsStep(data, START, 30); assert Rounds(data, START, 31) == State(0x1267b407, 0xc5fbaf5d, 0xa0dc2d4b, 0xd2aa1365, 0x6f8d7ef5);
    RoundsStep(data, START, 31); assert Rounds(data, START, 32) == State(0x3b845d33, 0x1267b407, 0x717eebd7, 0xa0dc2d4b, 0xd2aa1365);
    RoundsStep(data, START, 32); assert Rounds(data, START, 33) == State(0x046faa0a, 0x3b845d33, 0xc499ed01, 0x717eebd7, 0xa0dc2d4b);
    RoundsStep(data, START, 33); assert Rounds(data, START, 34) == State(0x2c0ebc11, 0x046faa0a, 0xcee1174c, 0xc499ed01, 0x717eebd7);
    RoundsStep(data, START, 34); assert Rounds(data, START, 35) == State(0x21796ad4, 0x2c0ebc11, 0x811bea82, 0xcee1174c, 0xc499ed01);
    RoundsStep(data, START, 35); assert Rounds(data, START, 36) == State(0xdcbbb0cb, 0x21796ad4, 0x4b03af04, 0x811bea82, 0xcee1174c);
    RoundsStep(data, START, 36); assert Rounds(data, START, 37) == State(0x0f511fd8, 0xdcbbb0cb, 0x085e5ab5, 0x4b03af04, 0x811bea82);
    RoundsStep(data, START, 37); assert Rounds(data, START, 38) == State(0xdc63973f, 0x0f511fd8, 0xf72eec32, 0x085e5ab5, 0x4b03af04);
    RoundsStep(data, START, 38); assert Rounds(data, START, 39) == State(0x4c986405, 0xdc63973f, 0x03d447f6, 0xf72eec32, 0x085e5ab5);
    RoundsStep(data, START, 39);
  }

  lemma Turns50(data: seq<bv8>)
    requires data == Abc()
    ensures Rounds(data, START, 50) == State(0x120731c5, 0xbaf39337, 0xafab40b2, 0x2806e11b, 0x8714787c)
  {
    hide Abc, W, M, Rounds;
    Turns40(data);
    Words32(data); Words48(data);
    RoundsStep(data, START, 40); assert Rounds(data, START, 41) == State(0xfc87dedf, 0x32de1cba, 0x53261901, 0xf718e5cf, 0x03d447f6);
    RoundsStep(data, START, 41); assert Rounds(data, START, 42) == State(0x970a0d5c, 0xfc87dedf, 0x8cb7872e, 0x53261901, 0xf718e5cf);
    RoundsStep(data, START, 42); assert Rounds(data, START, 43) == State(0x7f193dc5, 0x970a0d5c, 0xff21f7b7, 0x8cb7872e, 0x53261901);
    RoundsStep(data, START, 43); assert Rounds(data, START, 44) == State(0xee1b1aaf, 0x7f193dc5, 0x25c28357, 0xff21f7b7, 0x8cb7872e);
    RoundsStep(data, START, 44); assert Rounds(data, START, 45) == State(0x40f28e09, 0xee1b1aaf, 0x5fc64f71, 0x25c28357, 0xff21f7b7);
    RoundsStep(data, START, 45); assert Rounds(data, START, 46) == State(0x1c51e1f2, 0x40f28e09, 0xfb86c6ab, 0x5fc64f71, 0x25c28357);
    RoundsStep(data, START, 46); assert Rounds(data, START, 47) == State(0xa01b846c, 0x1c51e1f2, 0x503ca382, 0xfb86c6ab, 0x5fc64f71);
    RoundsStep(data, START, 47); assert Rounds(data, START, 48) == State(0xbead02ca, 0xa01b846c, 0x8714787c, 0x503ca382, 0xfb86c6ab);
    RoundsStep(data, START, 48); assert Rounds(data, START, 49) == State(0xbaf39337, 0xbead02ca, 0x2806e11b, 0x8714787c, 0x503ca382);
    RoundsStep(data, START, 49);
  }

  lemma Turns60(data: seq<bv8>)
    requires data == Abc()
    ensures Rounds(data, START, 60) == State(0x3f52de5a, 0x09d785fd, 0x3498bfd4, 0xf211824f, 0xd79915ab)
  {
    hide Abc, W, M, Rounds;
    Turns50(data);
    Words48(data);
    RoundsStep(data, START, 50); assert Rounds(data, START, 51) == State(0x641db2ce, 0x120731c5, 0xeebce4cd, 0xafab40b2, 0x2806e11b);
    RoundsStep(data, START, 51); assert Rounds(data, START, 52) == State(0x3847ad66, 0x641db2ce, 0x4481cc71, 0xeebce4cd, 0xafab40b2);
    RoundsStep(data, START, 52); assert Rounds(data, START, 53) == State(0xe490436d, 0x3847ad66, 0x99076cb3, 0x4481cc71, 0xeebce4cd);
    RoundsStep(data, START, 53); assert Rounds(data, START, 54) == State(0x27e9f1d8, 0xe490436d, 0x8e11eb59, 0x99076cb3, 0x4481cc71);
    RoundsStep(data, START, 54); assert Rounds(data, START, 55) == State(0x7b71f76d, 0x27e9f1d8, 0x792410db, 0x8e11eb59, 0x99076cb3);
    RoundsStep(data, START, 55); assert Rounds(data, START, 56) == State(0x5e6456af, 0x7b71f76d, 0x09fa7c76, 0x792410db, 0x8e11eb59);
    RoundsStep(data, START, 56); assert Rounds(data, START, 57) == State(0xc846093f, 0x5e6456af, 0x5edc7ddb, 0x09fa7c76, 0x792410db);
    RoundsStep(data, START, 57); assert Rounds(data, START, 58) == State(0xd262ff50, 0xc846093f, 0xd79915ab, 0x5edc7ddb, 0x09fa7c76);
    RoundsStep(data, START, 58); assert Rounds(data, START, 59) == State(0x09d785fd, 0xd262ff50, 0xf211824f, 0xd79915ab, 0x5edc7ddb);
    RoundsStep(data, START, 59);
  }

  lemma Turns70(data: seq<bv8>)
    requires data == Abc()
    ensures Rounds(data, START, 70) == State(0x3f2588c2, 0x497093c0, 0xde37534a, 0x030f7cad, 0x4405957e)
  {
    hide Abc, W, M, Rounds;
    Turns60(data);
    Words48(data); Words64(data);
    RoundsStep(data, START, 60); assert Rounds(data, START, 61) == State(0xd756c147, 0x3f52de5a, 0x4275e17f, 0x3498bfd4, 0xf211824f);
    RoundsStep(data, START, 61); assert Rounds(data, START, 62) == State(0x548c9cb2, 0xd756c147, 0x8fd4b796, 0x4275e17f, 0x3498bfd4);
    RoundsStep(data, START, 62); assert Rounds(data, START, 63) == State(0xb66c020b, 0x548c9cb2, 0xf5d5b051, 0x8fd4b796, 0x4275e17f);
    RoundsStep(data, START, 63); assert Rounds(data, START, 64) == State(0x6b61c9e1, 0xb66c020b, 0x9523272c, 0xf5d5b051, 0x8fd4b796);
    RoundsStep(data, START, 64); assert Rounds(data, START, 65) == State(0x19dfa7ac, 0x6b61c9e1, 0xed9b0082, 0x9523272c, 0xf5d5b051);
    RoundsStep(data, START, 65); assert Rounds(data, START, 66) == State(0x101655f9, 0x19dfa7ac, 0x5ad87278, 0xed9b0082, 0x9523272c);
    RoundsStep(data, START, 66); assert Rounds(data, START, 67) == State(0x0c3df2b4, 0x101655f9, 0x0677e9eb, 0x5ad87278, 0xed9b0082);
    RoundsStep(data, START, 67); assert Rounds(data, START, 68) == State(0x78dd4d2b, 0x0c3df2b4, 0x4405957e, 0x0677e9eb, 0x5ad87278);
    RoundsStep(data, START, 68); assert Rounds(data, START, 69) == State(0x497093c0, 0x78dd4d2b, 0x030f7cad, 0x4405957e, 0x0677e9eb);
    RoundsStep(data, START, 69);
  }

  lemma Turns80(data: seq<bv8>)
    requires data == Abc()
    ensures Rounds(data, START, 80) == State(0x42541b35, 0x5738d5e1, 0x21834873, 0x681e6df6, 0xd8fdf6ad)
  {
    hide Abc, W, M, Rounds;
    Turns70(data);
    Words64(data);
    RoundsStep(data, START, 70); assert Rounds(data, START, 71) == State(0xc199f8c7, 0x3f2588c2, 0x125c24f0, 0xde37534a, 0x030f7cad);
    RoundsStep(data, START, 71); assert Rounds(data, START, 72) == State(0x39859de7, 0xc199f8c7, 0x8fc96230, 0x125c24f0, 0xde37534a);
    RoundsStep(data, START, 72); assert Rounds(data, START, 73) == State(0xedb42de4, 0x39859de7, 0xf0667e31, 0x8fc96230, 0x125c24f0);
    RoundsStep(data, START, 73); assert Rounds(data, START, 74) == State(0x11793f6f, 0xedb42de4, 0xce616779, 0xf0667e31, 0x8fc96230);
    RoundsStep(data, START, 74); assert Rounds(data, START, 75) == State(0x5ee76897, 0x11793f6f, 0x3b6d0b79, 0xce616779, 0xf0667e31);
    RoundsStep(data, START, 75); assert Rounds(data, START, 76) == State(0x63f7dab7, 0x5ee76897, 0xc45e4fdb, 0x3b6d0b79, 0xce616779);
    RoundsStep(data, START, 76); assert Rounds(data, START, 77) == State(0xa079b7d9, 0x63f7dab7, 0xd7b9da25, 0xc45e4fdb, 0x3b6d0b79);
    RoundsStep(data, START, 77); assert Rounds(data, START, 78) == State(0x860d21cc, 0xa079b7d9, 0xd8fdf6ad, 0xd7b9da25, 0xc45e4fdb);
    RoundsStep(data, START, 78); assert Rounds(data, START, 79) == State(0x5738d5e1, 0x860d21cc, 0x681e6df6, 0xd8fdf6ad, 0xd7b9da25);
    RoundsStep(data, START, 79);
  }

  /** The compression of that block is the published digest. */
  lemma AbcDigest()
    ensures Compress(Abc(), START) == State(0xa9993e36, 0x4706816a, 0xba3e2571, 0x7850c26c, 0x9cd0d89d)
  {
    hide Abc, Rounds;
    Turns80(Abc());
  }
}
