/** The example of appendix B.1 of FIPS 180-2: the digest of "abc", by its message schedule and its
    working variables after each of the 64 steps. */
module Sha256Example {
  import opened Bits
  import opened WordLogic
  import opened Sha256

  /** "abc" */
  const ABC: seq<byte> := [0x61, 0x62, 0x63]

  const DIGEST: seq<byte> := [
    0xba, 0x78, 0x16, 0xbf, 0x8f, 0x01, 0xcf, 0xea,
    0x41, 0x41, 0x40, 0xde, 0x5d, 0xae, 0x22, 0x23,
    0xb0, 0x03, 0x61, 0xa3, 0x96, 0x17, 0x7a, 0x9c,
    0xb4, 0x10, 0xff, 0x61, 0xf2, 0x00, 0x15, 0xad
  ]

  /** The block as words. */
  ghost predicate IsBlock(m: seq<Word>)
  {
    |m| == 16 && m[0] == 0x61626380 && m[15] == 0x18 && forall t :: 0 < t < 15 ==> m[t] == 0
  }

  // ---------- the schedule ----------

  lemma NextWord(m: seq<Word>, t: nat, a: Word, b: Word, c: Word, d: Word, w: Word)
    requires |m| == 16 && t >= 16
    requires Schedule(m, t - 2) == a && Schedule(m, t - 7) == b && Schedule(m, t - 15) == c && Schedule(m, t - 16) == d
    requires Sum4(LowerSigma1(a), b, LowerSigma0(c), d) == w
    ensures Schedule(m, t) == w
  {
    hide LowerSigma0, LowerSigma1, Sum4;
  }

  lemma Words0To15(m: seq<Word>)
    requires IsBlock(m)
    ensures Schedule(m, 0) == 0x61626380 && Schedule(m, 15) == 0x18 && forall t :: 0 < t < 15 ==> Schedule(m, t) == 0
  {}

  lemma Words16To23(m: seq<Word>)
    requires IsBlock(m)
    ensures Schedule(m, 16) == 0x61626380 && Schedule(m, 17) == 0x000f0000 && Schedule(m, 18) == 0x7da86405 && Schedule(m, 19) == 0x600003c6
    ensures Schedule(m, 20) == 0x3e9d7b78 && Schedule(m, 21) == 0x0183fc00 && Schedule(m, 22) == 0x12dcbfdb && Schedule(m, 23) == 0xe2e2c38e
  {
    hide Schedule;
    Words0To15(m);
    NextWord(m, 16, 0x00000000, 0x00000000, 0x00000000, 0x61626380, 0x61626380);
    NextWord(m, 17, 0x00000018, 0x00000000, 0x00000000, 0x00000000, 0x000f0000);
    NextWord(m, 18, 0x61626380, 0x00000000, 0x00000000, 0x00000000, 0x7da86405);
    NextWord(m, 19, 0x000f0000, 0x00000000, 0x00000000, 0x00000000, 0x600003c6);
    NextWord(m, 20, 0x7da86405, 0x00000000, 0x00000000, 0x00000000, 0x3e9d7b78);
    NextWord(m, 21, 0x600003c6, 0x00000000, 0x00000000, 0x00000000, 0x0183fc00);
    NextWord(m, 22, 0x3e9d7b78, 0x00000018, 0x00000000, 0x00000000, 0x12dcbfdb);
    NextWord(m, 23, 0x0183fc00, 0x61626380, 0x00000000, 0x00000000, 0xe2e2c38e);
  }

  lemma Words24To31(m: seq<Word>)
    requires IsBlock(m)
    ensures Schedule(m, 24) == 0xc8215c1a && Schedule(m, 25) == 0xb73679a2 && Schedule(m, 26) == 0xe5bc3909 && Schedule(m, 27) == 0x32663c5b
    ensures Schedule(m, 28) == 0x9d209d67 && Schedule(m, 29) == 0xec8726cb && Schedule(m, 30) == 0x702138a4 && Schedule(m, 31) == 0xd3b7973b
  {
    hide Schedule;
    Words0To15(m);
    Words16To23(m);
    NextWord(m, 24, 0x12dcbfdb, 0x000f0000, 0x00000000, 0x00000000, 0xc8215c1a);
    NextWord(m, 25, 0xe2e2c38e, 0x7da86405, 0x00000000, 0x00000000, 0xb73679a2);
    NextWord(m, 26, 0xc8215c1a, 0x600003c6, 0x00000000, 0x00000000, 0xe5bc3909);
    NextWord(m, 27, 0xb73679a2, 0x3e9d7b78, 0x00000000, 0x00000000, 0x32663c5b);
    NextWord(m, 28, 0xe5bc3909, 0x0183fc00, 0x00000000, 0x00000000, 0x9d209d67);
    NextWord(m, 29, 0x32663c5b, 0x12dcbfdb, 0x00000000, 0x00000000, 0xec8726cb);
    NextWord(m, 30, 0x9d209d67, 0xe2e2c38e, 0x00000018, 0x00000000, 0x702138a4);
    NextWord(m, 31, 0xec8726cb, 0xc8215c1a, 0x61626380, 0x00000018, 0xd3b7973b);
  }

  lemma Words32To39(m: seq<Word>)
    requires IsBlock(m)
    ensures Schedule(m, 32) == 0x93f5997f && Schedule(m, 33) == 0x3b68ba73 && Schedule(m, 34) == 0xaff4ffc1 && Schedule(m, 35) == 0xf10a5c62
    ensures Schedule(m, 36) == 0x0a8b3996 && Schedule(m, 37) == 0x72af830a && Schedule(m, 38) == 0x9409e33e && Schedule(m, 39) == 0x24641522
  {
    hide Schedule;
    Words16To23(m);
    Words24To31(m);
    NextWord(m, 32, 0x702138a4, 0xb73679a2, 0x000f0000, 0x61626380, 0x93f5997f);
    NextWord(m, 33, 0xd3b7973b, 0xe5bc3909, 0x7da86405, 0x000f0000, 0x3b68ba73);
    NextWord(m, 34, 0x93f5997f, 0x32663c5b, 0x600003c6, 0x7da86405, 0xaff4ffc1);
    NextWord(m, 35, 0x3b68ba73, 0x9d209d67, 0x3e9d7b78, 0x600003c6, 0xf10a5c62);
    NextWord(m, 36, 0xaff4ffc1, 0xec8726cb, 0x0183fc00, 0x3e9d7b78, 0x0a8b3996);
    NextWord(m, 37, 0xf10a5c62, 0x702138a4, 0x12dcbfdb, 0x0183fc00, 0x72af830a);
    NextWord(m, 38, 0x0a8b3996, 0xd3b7973b, 0xe2e2c38e, 0x12dcbfdb, 0x9409e33e);
    NextWord(m, 39, 0x72af830a, 0x93f5997f, 0xc8215c1a, 0xe2e2c38e, 0x24641522);
  }

  lemma Words40To47(m: seq<Word>)
    requires IsBlock(m)
    ensures Schedule(m, 40) == 0x9f47bf94 && Schedule(m, 41) == 0xf0a64f5a && Schedule(m, 42) == 0x3e246a79 && Schedule(m, 43) == 0x27333ba3
    ensures Schedule(m, 44) == 0x0c4763f2 && Schedule(m, 45) == 0x840abf27 && Schedule(m, 46) == 0x7a290d5d && Schedule(m, 47) == 0x065c43da
  {
    hide Schedule;
    Words24To31(m);
    Words32To39(m);
    NextWord(m, 40, 0x9409e33e, 0x3b68ba73, 0xb73679a2, 0xc8215c1a, 0x9f47bf94);
    NextWord(m, 41, 0x24641522, 0xaff4ffc1, 0xe5bc3909, 0xb73679a2, 0xf0a64f5a);
    NextWord(m, 42, 0x9f47bf94, 0xf10a5c62, 0x32663c5b, 0xe5bc3909, 0x3e246a79);
    NextWord(m, 43, 0xf0a64f5a, 0x0a8b3996, 0x9d209d67, 0x32663c5b, 0x27333ba3);
    NextWord(m, 44, 0x3e246a79, 0x72af830a, 0xec8726cb, 0x9d209d67, 0x0c4763f2);
    NextWord(m, 45, 0x27333ba3, 0x9409e33e, 0x702138a4, 0xec8726cb, 0x840abf27);
    NextWord(m, 46, 0x0c4763f2, 0x24641522, 0xd3b7973b, 0x702138a4, 0x7a290d5d);
    NextWord(m, 47, 0x840abf27, 0x9f47bf94, 0x93f5997f, 0xd3b7973b, 0x065c43da);
  }

  lemma Words48To55(m: seq<Word>)
    requires IsBlock(m)
    ensures Schedule(m, 48) == 0xfb3e89cb && Schedule(m, 49) == 0xcc7617db && Schedule(m, 50) == 0xb9e66c34 && Schedule(m, 51) == 0xa9993667
    ensures Schedule(m, 52) == 0x84badedd && Schedule(m, 53) == 0xc21462bc && Schedule(m, 54) == 0x1487472c && Schedule(m, 55) == 0xb20f7a99
  {
    hide Schedule;
    Words32To39(m);
    Words40To47(m);
    NextWord(m, 48, 0x7a290d5d, 0xf0a64f5a, 0x3b68ba73, 0x93f5997f, 0xfb3e89cb);
    NextWord(m, 49, 0x065c43da, 0x3e246a79, 0xaff4ffc1, 0x3b68ba73, 0xcc7617db);
    NextWord(m, 50, 0xfb3e89cb, 0x27333ba3, 0xf10a5c62, 0xaff4ffc1, 0xb9e66c34);
    NextWord(m, 51, 0xcc7617db, 0x0c4763f2, 0x0a8b3996, 0xf10a5c62, 0xa9993667);
    NextWord(m, 52, 0xb9e66c34, 0x840abf27, 0x72af830a, 0x0a8b3996, 0x84badedd);
    NextWord(m, 53, 0xa9993667, 0x7a290d5d, 0x9409e33e, 0x72af830a, 0xc21462bc);
    NextWord(m, 54, 0x84badedd, 0x065c43da, 0x24641522, 0x9409e33e, 0x1487472c);
    NextWord(m, 55, 0xc21462bc, 0xfb3e89cb, 0x9f47bf94, 0x24641522, 0xb20f7a99);
  }

  lemma Words56To63(m: seq<Word>)
    requires IsBlock(m)
    ensures Schedule(m, 56) == 0xef57b9cd && Schedule(m, 57) == 0xebe6b238 && Schedule(m, 58) == 0x9fe3095e && Schedule(m, 59) == 0x78bc8d4b
    ensures Schedule(m, 60) == 0xa43fcf15 && Schedule(m, 61) == 0x668b2ff8 && Schedule(m, 62) == 0xeeaba2cc && Schedule(m, 63) == 0x12b1edeb
  {
    hide Schedule;
    Words40To47(m);
    Words48To55(m);
    NextWord(m, 56, 0x1487472c, 0xcc7617db, 0xf0a64f5a, 0x9f47bf94, 0xef57b9cd);
    NextWord(m, 57, 0xb20f7a99, 0xb9e66c34, 0x3e246a79, 0xf0a64f5a, 0xebe6b238);
    NextWord(m, 58, 0xef57b9cd, 0xa9993667, 0x27333ba3, 0x3e246a79, 0x9fe3095e);
    NextWord(m, 59, 0xebe6b238, 0x84badedd, 0x0c4763f2, 0x27333ba3, 0x78bc8d4b);
    NextWord(m, 60, 0x9fe3095e, 0xc21462bc, 0x840abf27, 0x0c4763f2, 0xa43fcf15);
    NextWord(m, 61, 0x78bc8d4b, 0x1487472c, 0x7a290d5d, 0x840abf27, 0x668b2ff8);
    NextWord(m, 62, 0xa43fcf15, 0xb20f7a99, 0x065c43da, 0x7a290d5d, 0xeeaba2cc);
    NextWord(m, 63, 0x668b2ff8, 0xef57b9cd, 0xfb3e89cb, 0x065c43da, 0x12b1edeb);
  }

  // ---------- the steps ----------

  lemma NextStep(m: seq<Word>, t: nat, s: State, k: Word, w: Word, s': State)
    requires |m| == 16 && t < 64
    requires Steps(INITIAL, m, t) == s && Constant(t) == k && Schedule(m, t) == w && Step(s, k, w) == s'
    ensures Steps(INITIAL, m, t + 1) == s'
  {
    hide Step, Constant, Schedule;
  }

  lemma Steps0To7(m: seq<Word>)
    requires IsBlock(m)
    ensures Steps(INITIAL, m, 8) == State(0x85a07b5f, 0xe5030380, 0x2b4209f5, 0x04409a6a, 0x0c657a79, 0x9b27a401, 0x714260ad, 0x43ada245)
  {
    hide Steps, Schedule;
    Words0To15(m);
    Start(m);
    var s0 := State(0x6a09e667, 0xbb67ae85, 0x3c6ef372, 0xa54ff53a, 0x510e527f, 0x9b05688c, 0x1f83d9ab, 0x5be0cd19);
    var s1 := State(0x5d6aebcd, 0x6a09e667, 0xbb67ae85, 0x3c6ef372, 0xfa2a4622, 0x510e527f, 0x9b05688c, 0x1f83d9ab);
    var s2 := State(0x5a6ad9ad, 0x5d6aebcd, 0x6a09e667, 0xbb67ae85, 0x78ce7989, 0xfa2a4622, 0x510e527f, 0x9b05688c);
    var s3 := State(0xc8c347a7, 0x5a6ad9ad, 0x5d6aebcd, 0x6a09e667, 0xf92939eb, 0x78ce7989, 0xfa2a4622, 0x510e527f);
    var s4 := State(0xd550f666, 0xc8c347a7, 0x5a6ad9ad, 0x5d6aebcd, 0x24e00850, 0xf92939eb, 0x78ce7989, 0xfa2a4622);
    var s5 := State(0x04409a6a, 0xd550f666, 0xc8c347a7, 0x5a6ad9ad, 0x43ada245, 0x24e00850, 0xf92939eb, 0x78ce7989);
    var s6 := State(0x2b4209f5, 0x04409a6a, 0xd550f666, 0xc8c347a7, 0x714260ad, 0x43ada245, 0x24e00850, 0xf92939eb);
    var s7 := State(0xe5030380, 0x2b4209f5, 0x04409a6a, 0xd550f666, 0x9b27a401, 0x714260ad, 0x43ada245, 0x24e00850);
    var s8 := State(0x85a07b5f, 0xe5030380, 0x2b4209f5, 0x04409a6a, 0x0c657a79, 0x9b27a401, 0x714260ad, 0x43ada245);
    NextStep(m, 0, s0, 0x428a2f98, 0x61626380, s1);
    NextStep(m, 1, s1, 0x71374491, 0x00000000, s2);
    NextStep(m, 2, s2, 0xb5c0fbcf, 0x00000000, s3);
    NextStep(m, 3, s3, 0xe9b5dba5, 0x00000000, s4);
    NextStep(m, 4, s4, 0x3956c25b, 0x00000000, s5);
    NextStep(m, 5, s5, 0x59f111f1, 0x00000000, s6);
    NextStep(m, 6, s6, 0x923f82a4, 0x00000000, s7);
    NextStep(m, 7, s7, 0xab1c5ed5, 0x00000000, s8);
  }

  lemma Steps8To15(m: seq<Word>)
    requires IsBlock(m)
    ensures Steps(INITIAL, m, 16) == State(0xb0fa238e, 0xc0645fde, 0xd932eb16, 0x87912990, 0x07590dcd, 0x0b92f20c, 0x745a48de, 0x1e578218)
  {
    hide Steps, Schedule;
    Words0To15(m);
    Steps0To7(m);
    var s8 := State(0x85a07b5f, 0xe5030380, 0x2b4209f5, 0x04409a6a, 0x0c657a79, 0x9b27a401, 0x714260ad, 0x43ada245);
    var s9 := State(0x8e04ecb9, 0x85a07b5f, 0xe5030380, 0x2b4209f5, 0x32ca2d8c, 0x0c657a79, 0x9b27a401, 0x714260ad);
    var s10 := State(0x8c87346b, 0x8e04ecb9, 0x85a07b5f, 0xe5030380, 0x1cc92596, 0x32ca2d8c, 0x0c657a79, 0x9b27a401);
    var s11 := State(0x4798a3f4, 0x8c87346b, 0x8e04ecb9, 0x85a07b5f, 0x436b23e8, 0x1cc92596, 0x32ca2d8c, 0x0c657a79);
    var s12 := State(0xf71fc5a9, 0x4798a3f4, 0x8c87346b, 0x8e04ecb9, 0x816fd6e9, 0x436b23e8, 0x1cc92596, 0x32ca2d8c);
    var s13 := State(0x87912990, 0xf71fc5a9, 0x4798a3f4, 0x8c87346b, 0x1e578218, 0x816fd6e9, 0x436b23e8, 0x1cc92596);
    var s14 := State(0xd932eb16, 0x87912990, 0xf71fc5a9, 0x4798a3f4, 0x745a48de, 0x1e578218, 0x816fd6e9, 0x436b23e8);
    var s15 := State(0xc0645fde, 0xd932eb16, 0x87912990, 0xf71fc5a9, 0x0b92f20c, 0x745a48de, 0x1e578218, 0x816fd6e9);
    var s16 := State(0xb0fa238e, 0xc0645fde, 0xd932eb16, 0x87912990, 0x07590dcd, 0x0b92f20c, 0x745a48de, 0x1e578218);
    NextStep(m, 8, s8, 0xd807aa98, 0x00000000, s9);
    NextStep(m, 9, s9, 0x12835b01, 0x00000000, s10);
    NextStep(m, 10, s10, 0x243185be, 0x00000000, s11);
    NextStep(m, 11, s11, 0x550c7dc3, 0x00000000, s12);
    NextStep(m, 12, s12, 0x72be5d74, 0x00000000, s13);
    NextStep(m, 13, s13, 0x80deb1fe, 0x00000000, s14);
    NextStep(m, 14, s14, 0x9bdc06a7, 0x00000000, s15);
    NextStep(m, 15, s15, 0xc19bf174, 0x00000018, s16);
  }

  lemma Steps16To23(m: seq<Word>)
    requires IsBlock(m)
    ensures Steps(INITIAL, m, 24) == State(0xc5d53d8d, 0xa7a3623f, 0xc2606d6d, 0x9dc68b63, 0xaa47c347, 0x49f5114a, 0xe1257970, 0x8ada8930)
  {
    hide Steps, Schedule;
    Words16To23(m);
    Steps8To15(m);
    var s16 := State(0xb0fa238e, 0xc0645fde, 0xd932eb16, 0x87912990, 0x07590dcd, 0x0b92f20c, 0x745a48de, 0x1e578218);
    var s17 := State(0x21da9a9b, 0xb0fa238e, 0xc0645fde, 0xd932eb16, 0x8034229c, 0x07590dcd, 0x0b92f20c, 0x745a48de);
    var s18 := State(0xc2fbd9d1, 0x21da9a9b, 0xb0fa238e, 0xc0645fde, 0x846ee454, 0x8034229c, 0x07590dcd, 0x0b92f20c);
    var s19 := State(0xfe777bbf, 0xc2fbd9d1, 0x21da9a9b, 0xb0fa238e, 0xcc899961, 0x846ee454, 0x8034229c, 0x07590dcd);
    var s20 := State(0xe1f20c33, 0xfe777bbf, 0xc2fbd9d1, 0x21da9a9b, 0xb0638179, 0xcc899961, 0x846ee454, 0x8034229c);
    var s21 := State(0x9dc68b63, 0xe1f20c33, 0xfe777bbf, 0xc2fbd9d1, 0x8ada8930, 0xb0638179, 0xcc899961, 0x846ee454);
    var s22 := State(0xc2606d6d, 0x9dc68b63, 0xe1f20c33, 0xfe777bbf, 0xe1257970, 0x8ada8930, 0xb0638179, 0xcc899961);
    var s23 := State(0xa7a3623f, 0xc2606d6d, 0x9dc68b63, 0xe1f20c33, 0x49f5114a, 0xe1257970, 0x8ada8930, 0xb0638179);
    var s24 := State(0xc5d53d8d, 0xa7a3623f, 0xc2606d6d, 0x9dc68b63, 0xaa47c347, 0x49f5114a, 0xe1257970, 0x8ada8930);
    NextStep(m, 16, s16, 0xe49b69c1, 0x61626380, s17);
    NextStep(m, 17, s17, 0xefbe4786, 0x000f0000, s18);
    NextStep(m, 18, s18, 0x0fc19dc6, 0x7da86405, s19);
    NextStep(m, 19, s19, 0x240ca1cc, 0x600003c6, s20);
    NextStep(m, 20, s20, 0x2de92c6f, 0x3e9d7b78, s21);
    NextStep(m, 21, s21, 0x4a7484aa, 0x0183fc00, s22);
    NextStep(m, 22, s22, 0x5cb0a9dc, 0x12dcbfdb, s23);
    NextStep(m, 23, s23, 0x76f988da, 0xe2e2c38e, s24);
  }

  lemma Steps24To31(m: seq<Word>)
    requires IsBlock(m)
    ensures Steps(INITIAL, m, 32) == State(0x73b33bf5, 0xea992a22, 0xa0060b30, 0x363482c9, 0xba591112, 0x0109ab3a, 0xade79437, 0x6112a3b7)
  {
    hide Steps, Schedule;
    Words24To31(m);
    Steps16To23(m);
    var s24 := State(0xc5d53d8d, 0xa7a3623f, 0xc2606d6d, 0x9dc68b63, 0xaa47c347, 0x49f5114a, 0xe1257970, 0x8ada8930);
    var s25 := State(0x1c2c2838, 0xc5d53d8d, 0xa7a3623f, 0xc2606d6d, 0x2823ef91, 0xaa47c347, 0x49f5114a, 0xe1257970);
    var s26 := State(0xcde8037d, 0x1c2c2838, 0xc5d53d8d, 0xa7a3623f, 0x14383d8e, 0x2823ef91, 0xaa47c347, 0x49f5114a);
    var s27 := State(0xb62ec4bc, 0xcde8037d, 0x1c2c2838, 0xc5d53d8d, 0xc74c6516, 0x14383d8e, 0x2823ef91, 0xaa47c347);
    var s28 := State(0x77d37528, 0xb62ec4bc, 0xcde8037d, 0x1c2c2838, 0xedffbff8, 0xc74c6516, 0x14383d8e, 0x2823ef91);
    var s29 := State(0x363482c9, 0x77d37528, 0xb62ec4bc, 0xcde8037d, 0x6112a3b7, 0xedffbff8, 0xc74c6516, 0x14383d8e);
    var s30 := State(0xa0060b30, 0x363482c9, 0x77d37528, 0xb62ec4bc, 0xade79437, 0x6112a3b7, 0xedffbff8, 0xc74c6516);
    var s31 := State(0xea992a22, 0xa0060b30, 0x363482c9, 0x77d37528, 0x0109ab3a, 0xade79437, 0x6112a3b7, 0xedffbff8);
    var s32 := State(0x73b33bf5, 0xea992a22, 0xa0060b30, 0x363482c9, 0xba591112, 0x0109ab3a, 0xade79437, 0x6112a3b7);
    NextStep(m, 24, s24, 0x983e5152, 0xc8215c1a, s25);
    NextStep(m, 25, s25, 0xa831c66d, 0xb73679a2, s26);
    NextStep(m, 26, s26, 0xb00327c8, 0xe5bc3909, s27);
    NextStep(m, 27, s27, 0xbf597fc7, 0x32663c5b, s28);
    NextStep(m, 28, s28, 0xc6e00bf3, 0x9d209d67, s29);
    NextStep(m, 29, s29, 0xd5a79147, 0xec8726cb, s30);
    NextStep(m, 30, s30, 0x06ca6351, 0x702138a4, s31);
    NextStep(m, 31, s31, 0x14292967, 0xd3b7973b, s32);
  }

  lemma Steps32To39(m: seq<Word>)
    requires IsBlock(m)
    ensures Steps(INITIAL, m, 40) == State(0x79ea687a, 0x6dc57a8a, 0x34df1604, 0x41a65cb1, 0x1efbc0a0, 0xf0781bc8, 0xa507a53d, 0x0772a26b)
  {
    hide Steps, Schedule;
    Words32To39(m);
    Steps24To31(m);
    var s32 := State(0x73b33bf5, 0xea992a22, 0xa0060b30, 0x363482c9, 0xba591112, 0x0109ab3a, 0xade79437, 0x6112a3b7);
    var s33 := State(0x98e12507, 0x73b33bf5, 0xea992a22, 0xa0060b30, 0x9cd9f5f6, 0xba591112, 0x0109ab3a, 0xade79437);
    var s34 := State(0xfe604df5, 0x98e12507, 0x73b33bf5, 0xea992a22, 0x59249dd3, 0x9cd9f5f6, 0xba591112, 0x0109ab3a);
    var s35 := State(0xa9a7738c, 0xfe604df5, 0x98e12507, 0x73b33bf5, 0x085f3833, 0x59249dd3, 0x9cd9f5f6, 0xba591112);
    var s36 := State(0x65a0cfe4, 0xa9a7738c, 0xfe604df5, 0x98e12507, 0xf4b002d6, 0x085f3833, 0x59249dd3, 0x9cd9f5f6);
    var s37 := State(0x41a65cb1, 0x65a0cfe4, 0xa9a7738c, 0xfe604df5, 0x0772a26b, 0xf4b002d6, 0x085f3833, 0x59249dd3);
    var s38 := State(0x34df1604, 0x41a65cb1, 0x65a0cfe4, 0xa9a7738c, 0xa507a53d, 0x0772a26b, 0xf4b002d6, 0x085f3833);
    var s39 := State(0x6dc57a8a, 0x34df1604, 0x41a65cb1, 0x65a0cfe4, 0xf0781bc8, 0xa507a53d, 0x0772a26b, 0xf4b002d6);
    var s40 := State(0x79ea687a, 0x6dc57a8a, 0x34df1604, 0x41a65cb1, 0x1efbc0a0, 0xf0781bc8, 0xa507a53d, 0x0772a26b);
    NextStep(m, 32, s32, 0x27b70a85, 0x93f5997f, s33);
    NextStep(m, 33, s33, 0x2e1b2138, 0x3b68ba73, s34);
    NextStep(m, 34, s34, 0x4d2c6dfc, 0xaff4ffc1, s35);
    NextStep(m, 35, s35, 0x53380d13, 0xf10a5c62, s36);
    NextStep(m, 36, s36, 0x650a7354, 0x0a8b3996, s37);
    NextStep(m, 37, s37, 0x766a0abb, 0x72af830a, s38);
    NextStep(m, 38, s38, 0x81c2c92e, 0x9409e33e, s39);
    NextStep(m, 39, s39, 0x92722c85, 0x24641522, s40);
  }

  lemma Steps40To47(m: seq<Word>)
    requires IsBlock(m)
    ensures Steps(INITIAL, m, 48) == State(0x4172328d, 0xa14c14b0, 0x72ab4b91, 0x26628815, 0xfecf0bc6, 0xd57b94a9, 0xb7755da1, 0xa80f11f0)
  {
    hide Steps, Schedule;
    Words40To47(m);
    Steps32To39(m);
    var s40 := State(0x79ea687a, 0x6dc57a8a, 0x34df1604, 0x41a65cb1, 0x1efbc0a0, 0xf0781bc8, 0xa507a53d, 0x0772a26b);
    var s41 := State(0xd6670766, 0x79ea687a, 0x6dc57a8a, 0x34df1604, 0x26352d63, 0x1efbc0a0, 0xf0781bc8, 0xa507a53d);
    var s42 := State(0xdf46652f, 0xd6670766, 0x79ea687a, 0x6dc57a8a, 0x838b2711, 0x26352d63, 0x1efbc0a0, 0xf0781bc8);
    var s43 := State(0x17aa0dfe, 0xdf46652f, 0xd6670766, 0x79ea687a, 0xdecd4715, 0x838b2711, 0x26352d63, 0x1efbc0a0);
    var s44 := State(0x9d4baf93, 0x17aa0dfe, 0xdf46652f, 0xd6670766, 0xfda24c2e, 0xdecd4715, 0x838b2711, 0x26352d63);
    var s45 := State(0x26628815, 0x9d4baf93, 0x17aa0dfe, 0xdf46652f, 0xa80f11f0, 0xfda24c2e, 0xdecd4715, 0x838b2711);
    var s46 := State(0x72ab4b91, 0x26628815, 0x9d4baf93, 0x17aa0dfe, 0xb7755da1, 0xa80f11f0, 0xfda24c2e, 0xdecd4715);
    var s47 := State(0xa14c14b0, 0x72ab4b91, 0x26628815, 0x9d4baf93, 0xd57b94a9, 0xb7755da1, 0xa80f11f0, 0xfda24c2e);
    var s48 := State(0x4172328d, 0xa14c14b0, 0x72ab4b91, 0x26628815, 0xfecf0bc6, 0xd57b94a9, 0xb7755da1, 0xa80f11f0);
    NextStep(m, 40, s40, 0xa2bfe8a1, 0x9f47bf94, s41);
    NextStep(m, 41, s41, 0xa81a664b, 0xf0a64f5a, s42);
    NextStep(m, 42, s42, 0xc24b8b70, 0x3e246a79, s43);
    NextStep(m, 43, s43, 0xc76c51a3, 0x27333ba3, s44);
    NextStep(m, 44, s44, 0xd192e819, 0x0c4763f2, s45);
    NextStep(m, 45, s45, 0xd6990624, 0x840abf27, s46);
    NextStep(m, 46, s46, 0xf40e3585, 0x7a290d5d, s47);
    NextStep(m, 47, s47, 0x106aa070, 0x065c43da, s48);
  }

  lemma Steps48To55(m: seq<Word>)
    requires IsBlock(m)
    ensures Steps(INITIAL, m, 56) == State(0x38cc9913, 0x3ec45cdb, 0xf5702fdb, 0x101fd28f, 0x54cb266b, 0xe50e1b4f, 0x9f4787c3, 0x529e7d00)
  {
    hide Steps, Schedule;
    Words48To55(m);
    Steps40To47(m);
    var s48 := State(0x4172328d, 0xa14c14b0, 0x72ab4b91, 0x26628815, 0xfecf0bc6, 0xd57b94a9, 0xb7755da1, 0xa80f11f0);
    var s49 := State(0x05757ceb, 0x4172328d, 0xa14c14b0, 0x72ab4b91, 0xbd714038, 0xfecf0bc6, 0xd57b94a9, 0xb7755da1);
    var s50 := State(0xf11bfaa8, 0x05757ceb, 0x4172328d, 0xa14c14b0, 0x6e5c390c, 0xbd714038, 0xfecf0bc6, 0xd57b94a9);
    var s51 := State(0x7a0508a1, 0xf11bfaa8, 0x05757ceb, 0x4172328d, 0x52f1ccf7, 0x6e5c390c, 0xbd714038, 0xfecf0bc6);
    var s52 := State(0x886e7a22, 0x7a0508a1, 0xf11bfaa8, 0x05757ceb, 0x49231c1e, 0x52f1ccf7, 0x6e5c390c, 0xbd714038);
    var s53 := State(0x101fd28f, 0x886e7a22, 0x7a0508a1, 0xf11bfaa8, 0x529e7d00, 0x49231c1e, 0x52f1ccf7, 0x6e5c390c);
    var s54 := State(0xf5702fdb, 0x101fd28f, 0x886e7a22, 0x7a0508a1, 0x9f4787c3, 0x529e7d00, 0x49231c1e, 0x52f1ccf7);
    var s55 := State(0x3ec45cdb, 0xf5702fdb, 0x101fd28f, 0x886e7a22, 0xe50e1b4f, 0x9f4787c3, 0x529e7d00, 0x49231c1e);
    var s56 := State(0x38cc9913, 0x3ec45cdb, 0xf5702fdb, 0x101fd28f, 0x54cb266b, 0xe50e1b4f, 0x9f4787c3, 0x529e7d00);
    NextStep(m, 48, s48, 0x19a4c116, 0xfb3e89cb, s49);
    NextStep(m, 49, s49, 0x1e376c08, 0xcc7617db, s50);
    NextStep(m, 50, s50, 0x2748774c, 0xb9e66c34, s51);
    NextStep(m, 51, s51, 0x34b0bcb5, 0xa9993667, s52);
    NextStep(m, 52, s52, 0x391c0cb3, 0x84badedd, s53);
    NextStep(m, 53, s53, 0x4ed8aa4a, 0xc21462bc, s54);
    NextStep(m, 54, s54, 0x5b9cca4f, 0x1487472c, s55);
    NextStep(m, 55, s55, 0x682e6ff3, 0xb20f7a99, s56);
  }

  lemma Steps56To63(m: seq<Word>)
    requires IsBlock(m)
    ensures Steps(INITIAL, m, 64) == State(0x506e3058, 0xd39a2165, 0x04d24d6c, 0xb85e2ce9, 0x5ef50f24, 0xfb121210, 0x948d25b6, 0x961f4894)
  {
    hide Steps, Schedule;
    Words56To63(m);
    Steps48To55(m);
    var s56 := State(0x38cc9913, 0x3ec45cdb, 0xf5702fdb, 0x101fd28f, 0x54cb266b, 0xe50e1b4f, 0x9f4787c3, 0x529e7d00);
    var s57 := State(0xfcd1887b, 0x38cc9913, 0x3ec45cdb, 0xf5702fdb, 0x9b5e906c, 0x54cb266b, 0xe50e1b4f, 0x9f4787c3);
    var s58 := State(0xc062d46f, 0xfcd1887b, 0x38cc9913, 0x3ec45cdb, 0x7e44008e, 0x9b5e906c, 0x54cb266b, 0xe50e1b4f);
    var s59 := State(0xffb70472, 0xc062d46f, 0xfcd1887b, 0x38cc9913, 0x6d83bfc6, 0x7e44008e, 0x9b5e906c, 0x54cb266b);
    var s60 := State(0xb6ae8fff, 0xffb70472, 0xc062d46f, 0xfcd1887b, 0xb21bad3d, 0x6d83bfc6, 0x7e44008e, 0x9b5e906c);
    var s61 := State(0xb85e2ce9, 0xb6ae8fff, 0xffb70472, 0xc062d46f, 0x961f4894, 0xb21bad3d, 0x6d83bfc6, 0x7e44008e);
    var s62 := State(0x04d24d6c, 0xb85e2ce9, 0xb6ae8fff, 0xffb70472, 0x948d25b6, 0x961f4894, 0xb21bad3d, 0x6d83bfc6);
    var s63 := State(0xd39a2165, 0x04d24d6c, 0xb85e2ce9, 0xb6ae8fff, 0xfb121210, 0x948d25b6, 0x961f4894, 0xb21bad3d);
    var s64 := State(0x506e3058, 0xd39a2165, 0x04d24d6c, 0xb85e2ce9, 0x5ef50f24, 0xfb121210, 0x948d25b6, 0x961f4894);
    NextStep(m, 56, s56, 0x748f82ee, 0xef57b9cd, s57);
    NextStep(m, 57, s57, 0x78a5636f, 0xebe6b238, s58);
    NextStep(m, 58, s58, 0x84c87814, 0x9fe3095e, s59);
    NextStep(m, 59, s59, 0x8cc70208, 0x78bc8d4b, s60);
    NextStep(m, 60, s60, 0x90befffa, 0xa43fcf15, s61);
    NextStep(m, 61, s61, 0xa4506ceb, 0x668b2ff8, s62);
    NextStep(m, 62, s62, 0xbef9a3f7, 0xeeaba2cc, s63);
    NextStep(m, 63, s63, 0xc67178f2, 0x12b1edeb, s64);
  }

  lemma Start(m: seq<Word>)
    requires |m| == 16
    ensures Steps(INITIAL, m, 0) == State(0x6a09e667, 0xbb67ae85, 0x3c6ef372, 0xa54ff53a, 0x510e527f, 0x9b05688c, 0x1f83d9ab, 0x5be0cd19)
  {}

  // ---------- the padded message ----------

  lemma PaddedAbc(p: seq<byte>)
    requires p == Padded(ABC)
    ensures |p| == 64 && p[..4] == [0x61, 0x62, 0x63, 0x80] && p[63] == 24 && forall i :: 4 <= i < 63 ==> p[i] == 0
  {
    LengthField();
    assert ZeroCount(3) == 52;
    assert p == ABC + [0x80] + Zeros(52) + [0, 0, 0, 0, 0, 0, 0, 24];
  }

  lemma LengthField()
    ensures BytesOf(24, 8) == [0, 0, 0, 0, 0, 0, 0, 24]
  {
    var d: seq<nat> := [0, 0, 0, 0, 0, 0, 0, 24];
    assert d[..7] == [0, 0, 0, 0, 0, 0, 0];
    ZeroValue(d[..7]);
    DigitsOfValue(d, 256);
  }

  lemma {:induction false} ZeroValue(d: seq<nat>)
    requires forall i :: 0 <= i < |d| ==> d[i] == 0
    ensures Value(d, 256) == 0
  {
    if |d| > 0 { ZeroValue(d[..|d| - 1]); }
  }

  lemma WordsOfAbc(p: seq<byte>)
    requires p == Padded(ABC)
    ensures IsBlock(BlockWords(p))
  {
    hide Padded;
    PaddedAbc(p);
    var m := BlockWords(p);
    assert m[0] == BigEndian32(0x61, 0x62, 0x63, 0x80) == 0x61626380;
    assert m[15] == BigEndian32(0, 0, 0, 24) == 0x18;
    forall t | 0 < t < 15 ensures m[t] == 0 {
      assert m[t] == BigEndian32(0, 0, 0, 0) == 0;
    }
  }

  // ---------- the digest ----------

  lemma FourBytes(w: nat, b0: byte, b1: byte, b2: byte, b3: byte)
    requires w == 0x100_0000 * b0 + 0x1_0000 * b1 + 0x100 * b2 + b3
    ensures BytesOf(w, 4) == [b0, b1, b2, b3]
  {
    var d: seq<nat> := [b0, b1, b2, b3];
    hide Digits;
    FourDigits(b0, b1, b2, b3);
    DigitsOfValue(d, 256);
  }

  lemma FourDigits(b0: nat, b1: nat, b2: nat, b3: nat)
    ensures Value([b0, b1, b2, b3], 256) == 0x100_0000 * b0 + 0x1_0000 * b1 + 0x100 * b2 + b3
  {
    assert Value([], 256) == 0;
    hide Value;
    ValueSnoc([], b0, 256);
    ValueSnoc([b0], b1, 256);
    ValueSnoc([b0, b1], b2, 256);
    ValueSnoc([b0, b1, b2], b3, 256);
    assert [] + [b0] == [b0] && [b0] + [b1] == [b0, b1] && [b0, b1] + [b2] == [b0, b1, b2] && [b0, b1, b2] + [b3] == [b0, b1, b2, b3];
  }

  // ---------- the digest ----------

  lemma Finished(m: seq<Word>)
    requires IsBlock(m)
    ensures CompressWords(INITIAL, m) == State(0xba7816bf, 0x8f01cfea, 0x414140de, 0x5dae2223, 0xb00361a3, 0x96177a9c, 0xb410ff61, 0xf20015ad)
  {
    hide Steps;
    Steps56To63(m);
  }

  lemma FourWords(words: seq<Word>, a: Word, b: Word, c: Word, d: Word)
    ensures WordBytes(words + [a, b, c, d])
         == WordBytes(words) + BytesOf(a as nat, 4) + BytesOf(b as nat, 4) + BytesOf(c as nat, 4) + BytesOf(d as nat, 4)
  {
    hide WordBytes, BytesOf;
    WordBytesSnoc(words, a);
    WordBytesSnoc(words + [a], b);
    WordBytesSnoc(words + [a] + [b], c);
    WordBytesSnoc(words + [a] + [b] + [c], d);
    assert words + [a] + [b] + [c] + [d] == words + [a, b, c, d];
  }

  lemma EightWords(s: State)
    ensures StateBytes(s) == BytesOf(s.a as nat, 4) + BytesOf(s.b as nat, 4) + BytesOf(s.c as nat, 4) + BytesOf(s.d as nat, 4)
                             + BytesOf(s.e as nat, 4) + BytesOf(s.f as nat, 4) + BytesOf(s.g as nat, 4) + BytesOf(s.h as nat, 4)
  {
    hide BytesOf;
    assert WordBytes([]) == [];
    hide WordBytes;
    var first: seq<Word> := [s.a, s.b, s.c, s.d];
    FourWords([], s.a, s.b, s.c, s.d);
    FourWords(first, s.e, s.f, s.g, s.h);
    assert [] + BytesOf(s.a as nat, 4) == BytesOf(s.a as nat, 4);
    WordsApart(s);
  }

  lemma WordsApart(s: State)
    ensures [] + [s.a, s.b, s.c, s.d] == [s.a, s.b, s.c, s.d] && StateWords(s) == [s.a, s.b, s.c, s.d] + [s.e, s.f, s.g, s.h]
  {}

  lemma DigestBytes()
    ensures StateBytes(State(0xba7816bf, 0x8f01cfea, 0x414140de, 0x5dae2223, 0xb00361a3, 0x96177a9c, 0xb410ff61, 0xf20015ad)) == DIGEST
  {
    hide BytesOf, StateBytes;
    EightWords(State(0xba7816bf, 0x8f01cfea, 0x414140de, 0x5dae2223, 0xb00361a3, 0x96177a9c, 0xb410ff61, 0xf20015ad));
    FourBytes(0xba7816bf, 0xba, 0x78, 0x16, 0xbf);
    FourBytes(0x8f01cfea, 0x8f, 0x01, 0xcf, 0xea);
    FourBytes(0x414140de, 0x41, 0x41, 0x40, 0xde);
    FourBytes(0x5dae2223, 0x5d, 0xae, 0x22, 0x23);
    FourBytes(0xb00361a3, 0xb0, 0x03, 0x61, 0xa3);
    FourBytes(0x96177a9c, 0x96, 0x17, 0x7a, 0x9c);
    FourBytes(0xb410ff61, 0xb4, 0x10, 0xff, 0x61);
    FourBytes(0xf20015ad, 0xf2, 0x00, 0x15, 0xad);
  }

  /** The digest of "abc". */
  lemma AbcDigest()
    ensures Digest(ABC) == DIGEST
  {
    hide Compress, CompressAll, CompressWords, Padded, Steps, BlockWords, StateBytes;
    var p := Padded(ABC);
    PaddedAbc(p);
    CompressOne(INITIAL, [], p);
    NothingToCompress(INITIAL);
    assert [] + p == p;
    WordsOfAbc(p);
    Finished(BlockWords(p));
    CompressIs(INITIAL, p);
    DigestBytes();
    DigestIs(ABC);
  }

  lemma DigestIs(m: seq<byte>)
    ensures Digest(m) == StateBytes(CompressAll(INITIAL, Padded(m)))
  {}

  lemma CompressIs(s: State, p: seq<byte>)
    requires |p| == 64
    ensures Compress(s, p) == CompressWords(s, BlockWords(p))
  {}
}
