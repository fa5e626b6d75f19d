/**
 SHA-256 of the text abc, the example of tests/crypto/test_crypto.cpp:33-34, worked out from the definitions: 64 words
 of the message schedule and 64 rounds.
 */
module Sha256Example {
  import opened Sha256Spec

  const ABC: Bytes := [0x61, 0x62, 0x63]

  // ---- The one block ----

  /** The text, 0x80, zeros, and the number of bits. */
  ghost predicate IsBlock(b: Block) {
    && b[0] == 0x61 && b[1] == 0x62 && b[2] == 0x63 && b[3] == 0x80 && b[63] == 24
    && forall i :: 4 <= i < 63 ==> b[i] == 0
  }

  lemma LengthOfAbc()
    ensures LengthField(ABC) == [0, 0, 0, 0, 0, 0, 0, 24]
  {
    hide BigEndian;
    assert 8 * |ABC| % TWO64 == 24;
    BigEndianOf24();
  }

  lemma BigEndianOf24()
    ensures BigEndian(24, 8) == [0, 0, 0, 0, 0, 0, 0, 24]
  {
    assert BigEndian(0, 3) == [0, 0, 0];
    assert BigEndian(0, 7) == [0, 0, 0, 0, 0, 0, 0];
  }

  lemma PaddedAbc()
    ensures |Pad(ABC)| == 64 && IsBlock(Pad(ABC))
  {
    LengthOfAbc();
    hide LengthField;
    assert ZeroBytes(3) == 52;
  }

  // ---- The message schedule ----

  ghost predicate EightWords(b: Block, t: nat, ws: seq<Word>) {
    && |ws| == 8
    && W(b, t) == ws[0] && W(b, t + 1) == ws[1] && W(b, t + 2) == ws[2] && W(b, t + 3) == ws[3]
    && W(b, t + 4) == ws[4] && W(b, t + 5) == ws[5] && W(b, t + 6) == ws[6] && W(b, t + 7) == ws[7]
  }

  lemma NextWordIs(b: Block, t: nat, w: Word)
    requires 16 <= t && NextWord(W(b, t - 16), W(b, t - 15), W(b, t - 7), W(b, t - 2)) == w
    ensures W(b, t) == w
  {
    hide NextWord;
  }

  const WORDS0: seq<Word> :=
    [0x61626380, 0x00000000, 0x00000000, 0x00000000, 0x00000000, 0x00000000, 0x00000000, 0x00000000]
  const WORDS8: seq<Word> :=
    [0x00000000, 0x00000000, 0x00000000, 0x00000000, 0x00000000, 0x00000000, 0x00000000, 0x00000018]
  const WORDS16: seq<Word> :=
    [0x61626380, 0x000f0000, 0x7da86405, 0x600003c6, 0x3e9d7b78, 0x0183fc00, 0x12dcbfdb, 0xe2e2c38e]
  const WORDS24: seq<Word> :=
    [0xc8215c1a, 0xb73679a2, 0xe5bc3909, 0x32663c5b, 0x9d209d67, 0xec8726cb, 0x702138a4, 0xd3b7973b]
  const WORDS32: seq<Word> :=
    [0x93f5997f, 0x3b68ba73, 0xaff4ffc1, 0xf10a5c62, 0x0a8b3996, 0x72af830a, 0x9409e33e, 0x24641522]
  const WORDS40: seq<Word> :=
    [0x9f47bf94, 0xf0a64f5a, 0x3e246a79, 0x27333ba3, 0x0c4763f2, 0x840abf27, 0x7a290d5d, 0x065c43da]
  const WORDS48: seq<Word> :=
    [0xfb3e89cb, 0xcc7617db, 0xb9e66c34, 0xa9993667, 0x84badedd, 0xc21462bc, 0x1487472c, 0xb20f7a99]
  const WORDS56: seq<Word> :=
    [0xef57b9cd, 0xebe6b238, 0x9fe3095e, 0x78bc8d4b, 0xa43fcf15, 0x668b2ff8, 0xeeaba2cc, 0x12b1edeb]

  lemma Words0(b: Block)
    requires IsBlock(b)
    ensures EightWords(b, 0, WORDS0)
  {
  }

  lemma Words8(b: Block)
    requires IsBlock(b)
    ensures EightWords(b, 8, WORDS8)
  {
  }

  lemma Words16(b: Block)
    requires EightWords(b, 0, WORDS0)
    requires EightWords(b, 8, WORDS8)
    ensures EightWords(b, 16, WORDS16)
  {
    hide W;
    NextWordIs(b, 16, 0x61626380);
    NextWordIs(b, 17, 0x000f0000);
    NextWordIs(b, 18, 0x7da86405);
    NextWordIs(b, 19, 0x600003c6);
    NextWordIs(b, 20, 0x3e9d7b78);
    NextWordIs(b, 21, 0x0183fc00);
    NextWordIs(b, 22, 0x12dcbfdb);
    NextWordIs(b, 23, 0xe2e2c38e);
  }

  lemma Words24(b: Block)
    requires EightWords(b, 8, WORDS8)
    requires EightWords(b, 16, WORDS16)
    ensures EightWords(b, 24, WORDS24)
  {
    hide W;
    NextWordIs(b, 24, 0xc8215c1a);
    NextWordIs(b, 25, 0xb73679a2);
    NextWordIs(b, 26, 0xe5bc3909);
    NextWordIs(b, 27, 0x32663c5b);
    NextWordIs(b, 28, 0x9d209d67);
    NextWordIs(b, 29, 0xec8726cb);
    NextWordIs(b, 30, 0x702138a4);
    NextWordIs(b, 31, 0xd3b7973b);
  }

  lemma Words32(b: Block)
    requires EightWords(b, 16, WORDS16)
    requires EightWords(b, 24, WORDS24)
    ensures EightWords(b, 32, WORDS32)
  {
    hide W;
    NextWordIs(b, 32, 0x93f5997f);
    NextWordIs(b, 33, 0x3b68ba73);
    NextWordIs(b, 34, 0xaff4ffc1);
    NextWordIs(b, 35, 0xf10a5c62);
    NextWordIs(b, 36, 0x0a8b3996);
    NextWordIs(b, 37, 0x72af830a);
    NextWordIs(b, 38, 0x9409e33e);
    NextWordIs(b, 39, 0x24641522);
  }

  lemma Words40(b: Block)
    requires EightWords(b, 24, WORDS24)
    requires EightWords(b, 32, WORDS32)
    ensures EightWords(b, 40, WORDS40)
  {
    hide W;
    NextWordIs(b, 40, 0x9f47bf94);
    NextWordIs(b, 41, 0xf0a64f5a);
    NextWordIs(b, 42, 0x3e246a79);
    NextWordIs(b, 43, 0x27333ba3);
    NextWordIs(b, 44, 0x0c4763f2);
    NextWordIs(b, 45, 0x840abf27);
    NextWordIs(b, 46, 0x7a290d5d);
    NextWordIs(b, 47, 0x065c43da);
  }

  lemma Words48(b: Block)
    requires EightWords(b, 32, WORDS32)
    requires EightWords(b, 40, WORDS40)
    ensures EightWords(b, 48, WORDS48)
  {
    hide W;
    NextWordIs(b, 48, 0xfb3e89cb);
    NextWordIs(b, 49, 0xcc7617db);
    NextWordIs(b, 50, 0xb9e66c34);
    NextWordIs(b, 51, 0xa9993667);
    NextWordIs(b, 52, 0x84badedd);
    NextWordIs(b, 53, 0xc21462bc);
    NextWordIs(b, 54, 0x1487472c);
    NextWordIs(b, 55, 0xb20f7a99);
  }

  lemma Words56(b: Block)
    requires EightWords(b, 40, WORDS40)
    requires EightWords(b, 48, WORDS48)
    ensures EightWords(b, 56, WORDS56)
  {
    hide W;
    NextWordIs(b, 56, 0xef57b9cd);
    NextWordIs(b, 57, 0xebe6b238);
    NextWordIs(b, 58, 0x9fe3095e);
    NextWordIs(b, 59, 0x78bc8d4b);
    NextWordIs(b, 60, 0xa43fcf15);
    NextWordIs(b, 61, 0x668b2ff8);
    NextWordIs(b, 62, 0xeeaba2cc);
    NextWordIs(b, 63, 0x12b1edeb);
  }

  // ---- The rounds ----

  ghost predicate AfterRound(b: Block, t: nat, v: Hash) {
    t <= 64 && Rounds(H0, b, t) == v
  }

  /** Round t with its constant and word computes a and e; the other six variables move up. */
  lemma NextRoundIs(b: Block, t: nat, v: Hash, k: Word, w: Word, a: Word, e: Word) returns (r: Hash)
    requires AfterRound(b, t, v) && t < 64 && |K| == 64 && K[t] == k && W(b, t) == w
    requires e == Plus(v[3], T1(v[4], v[5], v[6], v[7], k, w))
    requires a == Plus(T1(v[4], v[5], v[6], v[7], k, w), T2(v[0], v[1], v[2]))
    ensures r == [a, v[0], v[1], v[2], e, v[4], v[5], v[6]] && AfterRound(b, t + 1, r)
  {
    hide T1, T2, W, Plus;
    r := [a, v[0], v[1], v[2], e, v[4], v[5], v[6]];
  }

  const STATE8: Hash :=
    [0x85a07b5f, 0xe5030380, 0x2b4209f5, 0x04409a6a, 0x0c657a79, 0x9b27a401, 0x714260ad, 0x43ada245]
  const STATE16: Hash :=
    [0xb0fa238e, 0xc0645fde, 0xd932eb16, 0x87912990, 0x07590dcd, 0x0b92f20c, 0x745a48de, 0x1e578218]
  const STATE24: Hash :=
    [0xc5d53d8d, 0xa7a3623f, 0xc2606d6d, 0x9dc68b63, 0xaa47c347, 0x49f5114a, 0xe1257970, 0x8ada8930]
  const STATE32: Hash :=
    [0x73b33bf5, 0xea992a22, 0xa0060b30, 0x363482c9, 0xba591112, 0x0109ab3a, 0xade79437, 0x6112a3b7]
  const STATE40: Hash :=
    [0x79ea687a, 0x6dc57a8a, 0x34df1604, 0x41a65cb1, 0x1efbc0a0, 0xf0781bc8, 0xa507a53d, 0x0772a26b]
  const STATE48: Hash :=
    [0x4172328d, 0xa14c14b0, 0x72ab4b91, 0x26628815, 0xfecf0bc6, 0xd57b94a9, 0xb7755da1, 0xa80f11f0]
  const STATE56: Hash :=
    [0x38cc9913, 0x3ec45cdb, 0xf5702fdb, 0x101fd28f, 0x54cb266b, 0xe50e1b4f, 0x9f4787c3, 0x529e7d00]
  const STATE64: Hash :=
    [0x506e3058, 0xd39a2165, 0x04d24d6c, 0xb85e2ce9, 0x5ef50f24, 0xfb121210, 0x948d25b6, 0x961f4894]
  const DIGEST: Hash :=
    [0xba7816bf, 0x8f01cfea, 0x414140de, 0x5dae2223, 0xb00361a3, 0x96177a9c, 0xb410ff61, 0xf20015ad]

  lemma Constants0()
    ensures |K| == 64 && K[0] == 0x428a2f98 && K[1] == 0x71374491 && K[2] == 0xb5c0fbcf
    ensures K[3] == 0xe9b5dba5 && K[4] == 0x3956c25b && K[5] == 0x59f111f1
    ensures K[6] == 0x923f82a4 && K[7] == 0xab1c5ed5
  {
  }

  lemma Rounds0(b: Block)
    requires AfterRound(b, 0, H0)
    requires EightWords(b, 0, WORDS0)
    ensures AfterRound(b, 8, STATE8)
  {
    hide W, AfterRound;
    Constants0();
    var v: Hash := H0;
    v := NextRoundIs(b, 0, v, 0x428a2f98, 0x61626380, 0x5d6aebcd, 0xfa2a4622);
    v := NextRoundIs(b, 1, v, 0x71374491, 0x00000000, 0x5a6ad9ad, 0x78ce7989);
    v := NextRoundIs(b, 2, v, 0xb5c0fbcf, 0x00000000, 0xc8c347a7, 0xf92939eb);
    v := NextRoundIs(b, 3, v, 0xe9b5dba5, 0x00000000, 0xd550f666, 0x24e00850);
    v := NextRoundIs(b, 4, v, 0x3956c25b, 0x00000000, 0x04409a6a, 0x43ada245);
    v := NextRoundIs(b, 5, v, 0x59f111f1, 0x00000000, 0x2b4209f5, 0x714260ad);
    v := NextRoundIs(b, 6, v, 0x923f82a4, 0x00000000, 0xe5030380, 0x9b27a401);
    v := NextRoundIs(b, 7, v, 0xab1c5ed5, 0x00000000, 0x85a07b5f, 0x0c657a79);
  }

  lemma Constants8()
    ensures |K| == 64 && K[8] == 0xd807aa98 && K[9] == 0x12835b01 && K[10] == 0x243185be
    ensures K[11] == 0x550c7dc3 && K[12] == 0x72be5d74 && K[13] == 0x80deb1fe
    ensures K[14] == 0x9bdc06a7 && K[15] == 0xc19bf174
  {
  }

  lemma Rounds8(b: Block)
    requires AfterRound(b, 8, STATE8)
    requires EightWords(b, 8, WORDS8)
    ensures AfterRound(b, 16, STATE16)
  {
    hide W, AfterRound;
    Constants8();
    var v: Hash := STATE8;
    v := NextRoundIs(b, 8, v, 0xd807aa98, 0x00000000, 0x8e04ecb9, 0x32ca2d8c);
    v := NextRoundIs(b, 9, v, 0x12835b01, 0x00000000, 0x8c87346b, 0x1cc92596);
    v := NextRoundIs(b, 10, v, 0x243185be, 0x00000000, 0x4798a3f4, 0x436b23e8);
    v := NextRoundIs(b, 11, v, 0x550c7dc3, 0x00000000, 0xf71fc5a9, 0x816fd6e9);
    v := NextRoundIs(b, 12, v, 0x72be5d74, 0x00000000, 0x87912990, 0x1e578218);
    v := NextRoundIs(b, 13, v, 0x80deb1fe, 0x00000000, 0xd932eb16, 0x745a48de);
    v := NextRoundIs(b, 14, v, 0x9bdc06a7, 0x00000000, 0xc0645fde, 0x0b92f20c);
    v := NextRoundIs(b, 15, v, 0xc19bf174, 0x00000018, 0xb0fa238e, 0x07590dcd);
  }

  lemma Constants16()
    ensures |K| == 64 && K[16] == 0xe49b69c1 && K[17] == 0xefbe4786 && K[18] == 0x0fc19dc6
    ensures K[19] == 0x240ca1cc && K[20] == 0x2de92c6f && K[21] == 0x4a7484aa
    ensures K[22] == 0x5cb0a9dc && K[23] == 0x76f988da
  {
  }

  lemma Rounds16(b: Block)
    requires AfterRound(b, 16, STATE16)
    requires EightWords(b, 16, WORDS16)
    ensures AfterRound(b, 24, STATE24)
  {
    hide W, AfterRound;
    Constants16();
    var v: Hash := STATE16;
    v := NextRoundIs(b, 16, v, 0xe49b69c1, 0x61626380, 0x21da9a9b, 0x8034229c);
    v := NextRoundIs(b, 17, v, 0xefbe4786, 0x000f0000, 0xc2fbd9d1, 0x846ee454);
    v := NextRoundIs(b, 18, v, 0x0fc19dc6, 0x7da86405, 0xfe777bbf, 0xcc899961);
    v := NextRoundIs(b, 19, v, 0x240ca1cc, 0x600003c6, 0xe1f20c33, 0xb0638179);
    v := NextRoundIs(b, 20, v, 0x2de92c6f, 0x3e9d7b78, 0x9dc68b63, 0x8ada8930);
    v := NextRoundIs(b, 21, v, 0x4a7484aa, 0x0183fc00, 0xc2606d6d, 0xe1257970);
    v := NextRoundIs(b, 22, v, 0x5cb0a9dc, 0x12dcbfdb, 0xa7a3623f, 0x49f5114a);
    v := NextRoundIs(b, 23, v, 0x76f988da, 0xe2e2c38e, 0xc5d53d8d, 0xaa47c347);
  }

  lemma Constants24()
    ensures |K| == 64 && K[24] == 0x983e5152 && K[25] == 0xa831c66d && K[26] == 0xb00327c8
    ensures K[27] == 0xbf597fc7 && K[28] == 0xc6e00bf3 && K[29] == 0xd5a79147
    ensures K[30] == 0x06ca6351 && K[31] == 0x14292967
  {
  }

  lemma Rounds24(b: Block)
    requires AfterRound(b, 24, STATE24)
    requires EightWords(b, 24, WORDS24)
    ensures AfterRound(b, 32, STATE32)
  {
    hide W, AfterRound;
    Constants24();
    var v: Hash := STATE24;
    v := NextRoundIs(b, 24, v, 0x983e5152, 0xc8215c1a, 0x1c2c2838, 0x2823ef91);
    v := NextRoundIs(b, 25, v, 0xa831c66d, 0xb73679a2, 0xcde8037d, 0x14383d8e);
    v := NextRoundIs(b, 26, v, 0xb00327c8, 0xe5bc3909, 0xb62ec4bc, 0xc74c6516);
    v := NextRoundIs(b, 27, v, 0xbf597fc7, 0x32663c5b, 0x77d37528, 0xedffbff8);
    v := NextRoundIs(b, 28, v, 0xc6e00bf3, 0x9d209d67, 0x363482c9, 0x6112a3b7);
    v := NextRoundIs(b, 29, v, 0xd5a79147, 0xec8726cb, 0xa0060b30, 0xade79437);
    v := NextRoundIs(b, 30, v, 0x06ca6351, 0x702138a4, 0xea992a22, 0x0109ab3a);
    v := NextRoundIs(b, 31, v, 0x14292967, 0xd3b7973b, 0x73b33bf5, 0xba591112);
  }

  lemma Constants32()
    ensures |K| == 64 && K[32] == 0x27b70a85 && K[33] == 0x2e1b2138 && K[34] == 0x4d2c6dfc
    ensures K[35] == 0x53380d13 && K[36] == 0x650a7354 && K[37] == 0x766a0abb
    ensures K[38] == 0x81c2c92e && K[39] == 0x92722c85
  {
  }

  lemma Rounds32(b: Block)
    requires AfterRound(b, 32, STATE32)
    requires EightWords(b, 32, WORDS32)
    ensures AfterRound(b, 40, STATE40)
  {
    hide W, AfterRound;
    Constants32();
    var v: Hash := STATE32;
    v := NextRoundIs(b, 32, v, 0x27b70a85, 0x93f5997f, 0x98e12507, 0x9cd9f5f6);
    v := NextRoundIs(b, 33, v, 0x2e1b2138, 0x3b68ba73, 0xfe604df5, 0x59249dd3);
    v := NextRoundIs(b, 34, v, 0x4d2c6dfc, 0xaff4ffc1, 0xa9a7738c, 0x085f3833);
    v := NextRoundIs(b, 35, v, 0x53380d13, 0xf10a5c62, 0x65a0cfe4, 0xf4b002d6);
    v := NextRoundIs(b, 36, v, 0x650a7354, 0x0a8b3996, 0x41a65cb1, 0x0772a26b);
    v := NextRoundIs(b, 37, v, 0x766a0abb, 0x72af830a, 0x34df1604, 0xa507a53d);
    v := NextRoundIs(b, 38, v, 0x81c2c92e, 0x9409e33e, 0x6dc57a8a, 0xf0781bc8);
    v := NextRoundIs(b, 39, v, 0x92722c85, 0x24641522, 0x79ea687a, 0x1efbc0a0);
  }

  lemma Constants40()
    ensures |K| == 64 && K[40] == 0xa2bfe8a1 && K[41] == 0xa81a664b && K[42] == 0xc24b8b70
    ensures K[43] == 0xc76c51a3 && K[44] == 0xd192e819 && K[45] == 0xd6990624
    ensures K[46] == 0xf40e3585 && K[47] == 0x106aa070
  {
  }

  lemma Rounds40(b: Block)
    requires AfterRound(b, 40, STATE40)
    requires EightWords(b, 40, WORDS40)
    ensures AfterRound(b, 48, STATE48)
  {
    hide W, AfterRound;
    Constants40();
    var v: Hash := STATE40;
    v := NextRoundIs(b, 40, v, 0xa2bfe8a1, 0x9f47bf94, 0xd6670766, 0x26352d63);
    v := NextRoundIs(b, 41, v, 0xa81a664b, 0xf0a64f5a, 0xdf46652f, 0x838b2711);
    v := NextRoundIs(b, 42, v, 0xc24b8b70, 0x3e246a79, 0x17aa0dfe, 0xdecd4715);
    v := NextRoundIs(b, 43, v, 0xc76c51a3, 0x27333ba3, 0x9d4baf93, 0xfda24c2e);
    v := NextRoundIs(b, 44, v, 0xd192e819, 0x0c4763f2, 0x26628815, 0xa80f11f0);
    v := NextRoundIs(b, 45, v, 0xd6990624, 0x840abf27, 0x72ab4b91, 0xb7755da1);
    v := NextRoundIs(b, 46, v, 0xf40e3585, 0x7a290d5d, 0xa14c14b0, 0xd57b94a9);
    v := NextRoundIs(b, 47, v, 0x106aa070, 0x065c43da, 0x4172328d, 0xfecf0bc6);
  }

  lemma Constants48()
    ensures |K| == 64 && K[48] == 0x19a4c116 && K[49] == 0x1e376c08 && K[50] == 0x2748774c
    ensures K[51] == 0x34b0bcb5 && K[52] == 0x391c0cb3 && K[53] == 0x4ed8aa4a
    ensures K[54] == 0x5b9cca4f && K[55] == 0x682e6ff3
  {
  }

  lemma Rounds48(b: Block)
    requires AfterRound(b, 48, STATE48)
    requires EightWords(b, 48, WORDS48)
    ensures AfterRound(b, 56, STATE56)
  {
    hide W, AfterRound;
    Constants48();
    var v: Hash := STATE48;
    v := NextRoundIs(b, 48, v, 0x19a4c116, 0xfb3e89cb, 0x05757ceb, 0xbd714038);
    v := NextRoundIs(b, 49, v, 0x1e376c08, 0xcc7617db, 0xf11bfaa8, 0x6e5c390c);
    v := NextRoundIs(b, 50, v, 0x2748774c, 0xb9e66c34, 0x7a0508a1, 0x52f1ccf7);
    v := NextRoundIs(b, 51, v, 0x34b0bcb5, 0xa9993667, 0x886e7a22, 0x49231c1e);
    v := NextRoundIs(b, 52, v, 0x391c0cb3, 0x84badedd, 0x101fd28f, 0x529e7d00);
    v := NextRoundIs(b, 53, v, 0x4ed8aa4a, 0xc21462bc, 0xf5702fdb, 0x9f4787c3);
    v := NextRoundIs(b, 54, v, 0x5b9cca4f, 0x1487472c, 0x3ec45cdb, 0xe50e1b4f);
    v := NextRoundIs(b, 55, v, 0x682e6ff3, 0xb20f7a99, 0x38cc9913, 0x54cb266b);
  }

  lemma Constants56()
    ensures |K| == 64 && K[56] == 0x748f82ee && K[57] == 0x78a5636f && K[58] == 0x84c87814
    ensures K[59] == 0x8cc70208 && K[60] == 0x90befffa && K[61] == 0xa4506ceb
    ensures K[62] == 0xbef9a3f7 && K[63] == 0xc67178f2
  {
  }

  lemma Rounds56(b: Block)
    requires AfterRound(b, 56, STATE56)
    requires EightWords(b, 56, WORDS56)
    ensures AfterRound(b, 64, STATE64)
  {
    hide W, AfterRound;
    Constants56();
    var v: Hash := STATE56;
    v := NextRoundIs(b, 56, v, 0x748f82ee, 0xef57b9cd, 0xfcd1887b, 0x9b5e906c);
    v := NextRoundIs(b, 57, v, 0x78a5636f, 0xebe6b238, 0xc062d46f, 0x7e44008e);
    v := NextRoundIs(b, 58, v, 0x84c87814, 0x9fe3095e, 0xffb70472, 0x6d83bfc6);
    v := NextRoundIs(b, 59, v, 0x8cc70208, 0x78bc8d4b, 0xb6ae8fff, 0xb21bad3d);
    v := NextRoundIs(b, 60, v, 0x90befffa, 0xa43fcf15, 0xb85e2ce9, 0x961f4894);
    v := NextRoundIs(b, 61, v, 0xa4506ceb, 0x668b2ff8, 0x04d24d6c, 0x948d25b6);
    v := NextRoundIs(b, 62, v, 0xbef9a3f7, 0xeeaba2cc, 0xd39a2165, 0xfb121210);
    v := NextRoundIs(b, 63, v, 0xc67178f2, 0x12b1edeb, 0x506e3058, 0x5ef50f24);
  }

  lemma AllWords(b: Block)
    requires IsBlock(b)
    ensures EightWords(b, 0, WORDS0)
    ensures EightWords(b, 8, WORDS8)
    ensures EightWords(b, 16, WORDS16)
    ensures EightWords(b, 24, WORDS24)
    ensures EightWords(b, 32, WORDS32)
    ensures EightWords(b, 40, WORDS40)
    ensures EightWords(b, 48, WORDS48)
    ensures EightWords(b, 56, WORDS56)
  {
    hide *;
    Words0(b);
    Words8(b);
    Words16(b);
    Words24(b);
    Words32(b);
    Words40(b);
    Words48(b);
    Words56(b);
  }

  lemma AllRounds(b: Block)
    requires IsBlock(b)
    ensures Compress(H0, b) == DIGEST
  {
    hide EightWords, IsBlock;
    AllWords(b);
    assert AfterRound(b, 0, H0);
    hide AfterRound;
    Rounds0(b);
    Rounds8(b);
    Rounds16(b);
    Rounds24(b);
    Rounds32(b);
    Rounds40(b);
    Rounds48(b);
    Rounds56(b);
    Added(b);
  }

  lemma Added(b: Block)
    requires AfterRound(b, 64, STATE64)
    ensures Compress(H0, b) == DIGEST
  {
    hide Rounds;
  }

  // ---- The digest ----

  lemma FoldOne(b: Block)
    ensures Fold(H0, b) == Compress(H0, b)
  {
    hide Compress;
    assert b[..64] == b && |b[64..]| == 0;
  }

  lemma BytesOfWords()
    ensures WordBytes(0xba7816bf) == [0xba, 0x78, 0x16, 0xbf]
    ensures WordBytes(0x8f01cfea) == [0x8f, 0x01, 0xcf, 0xea]
    ensures WordBytes(0x414140de) == [0x41, 0x41, 0x40, 0xde]
    ensures WordBytes(0x5dae2223) == [0x5d, 0xae, 0x22, 0x23]
    ensures WordBytes(0xb00361a3) == [0xb0, 0x03, 0x61, 0xa3]
    ensures WordBytes(0x96177a9c) == [0x96, 0x17, 0x7a, 0x9c]
    ensures WordBytes(0xb410ff61) == [0xb4, 0x10, 0xff, 0x61]
    ensures WordBytes(0xf20015ad) == [0xf2, 0x00, 0x15, 0xad]
  {
  }

  lemma SerializeOne(h: Hash, n: nat)
    requires n < 8
    ensures Serialize(h, n + 1) == Serialize(h, n) + WordBytes(h[n])
  {
  }

  lemma SerializeEight(h: Hash)
    ensures Serialize(h, 8) == WordBytes(h[0]) + WordBytes(h[1]) + WordBytes(h[2]) + WordBytes(h[3])
                               + WordBytes(h[4]) + WordBytes(h[5]) + WordBytes(h[6]) + WordBytes(h[7])
  {
    hide WordBytes;
    assert Serialize(h, 0) == [] && [] + WordBytes(h[0]) == WordBytes(h[0]);
    hide Serialize;
    SerializeOne(h, 0);
    SerializeOne(h, 1);
    SerializeOne(h, 2);
    SerializeOne(h, 3);
    SerializeOne(h, 4);
    SerializeOne(h, 5);
    SerializeOne(h, 6);
    SerializeOne(h, 7);
  }

  /** ba7816bf 8f01cfea 414140de 5dae2223 b00361a3 96177a9c b410ff61 f20015ad. */
  lemma DigestOfAbc()
    ensures Digest(ABC) == [0xba, 0x78, 0x16, 0xbf] + [0x8f, 0x01, 0xcf, 0xea] + [0x41, 0x41, 0x40, 0xde]
                           + [0x5d, 0xae, 0x22, 0x23] + [0xb0, 0x03, 0x61, 0xa3] + [0x96, 0x17, 0x7a, 0x9c]
                           + [0xb4, 0x10, 0xff, 0x61] + [0xf2, 0x00, 0x15, 0xad]
  {
    hide Compress, Pad, WordBytes, Serialize;
    PaddedAbc();
    var b: Block := Pad(ABC);
    AllRounds(b);
    FoldOne(b);
    hide Fold;
    SerializeEight(DIGEST);
    BytesOfWords();
  }
}
