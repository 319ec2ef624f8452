/**
 A digest computed by hand (crates/rupi-core/src/hash.rs, its test of "abc"): the schedule and the rounds of
 one block, word by word, so that every function of section 4.1.2 of FIPS 180-4 and every constant is
 held to an answer from outside.
 */
module KnownDigest {
  import opened Text
  import opened Sha256

  const ABC: Bytes := [0x61, 0x62, 0x63]

  // ----- Words from numbers -----

  lemma SameWord(n: int, w: Word)
    requires n == w as int
    ensures n as Word == w
  {
  }

  // ----- The block -----

  /** A word of the schedule. */
  ghost predicate Takes(block: Bytes, t: nat, w: Word) {
    |block| == 64 && t < 64 && W(block, t) == w
  }

  lemma AbcIsOneBlock()
    ensures |Pad(ABC)| == 64
    ensures Pad(ABC)[0] == 0x61 && Pad(ABC)[1] == 0x62 && Pad(ABC)[2] == 0x63 && Pad(ABC)[3] == 0x80
    ensures Pad(ABC)[63] == 24 && forall i :: 4 <= i < 63 ==> Pad(ABC)[i] == 0
  {
    assert ZeroCount(3) == 52;
    AbcLength();
    assert Pad(ABC) == [0x61, 0x62, 0x63, 0x80] + Zeros(52) + [0, 0, 0, 0, 0, 0, 0, 24];
  }

  lemma AbcLength()
    ensures BitLength(ABC) == 24 && ToBytes(24, 8) == [0, 0, 0, 0, 0, 0, 0, 24]
  {
    assert ToBytes(0, 2) == [0, 0];
    assert ToBytes(0, 4) == [0, 0, 0, 0];
    assert ToBytes(0, 6) == [0, 0, 0, 0, 0, 0];
  }

  lemma FirstWord(block: Bytes, t: nat, w: Word)
    requires |block| == 64 && t < 16
    requires BigEndian(block[4 * t..4 * t + 4]) == w as int
    ensures Takes(block, t, w)
  {
    hide BigEndian, W;
    ScheduleStart(block, t);
    SameWord(BigEndian(block[4 * t..4 * t + 4]), w);
  }

  lemma ZeroWord(block: Bytes, t: nat)
    requires |block| == 64 && 0 < t < 15 && forall i :: 4 <= i < 63 ==> block[i] == 0
    ensures Takes(block, t, 0)
  {
    hide Takes;
    FirstWord(block, t, 0);
  }

  lemma Schedule0(block: Bytes)
    requires block == Pad(ABC)
    ensures Takes(block, 0, 0x61626380) && Takes(block, 1, 0) && Takes(block, 2, 0)
         && Takes(block, 3, 0) && Takes(block, 4, 0) && Takes(block, 5, 0)
         && Takes(block, 6, 0) && Takes(block, 7, 0) && Takes(block, 8, 0)
         && Takes(block, 9, 0) && Takes(block, 10, 0) && Takes(block, 11, 0)
         && Takes(block, 12, 0) && Takes(block, 13, 0) && Takes(block, 14, 0)
         && Takes(block, 15, 24)
  {
    hide Takes, Pad, W;
    AbcIsOneBlock();
    FirstWord(block, 0, 0x61626380);
    FirstWord(block, 15, 24);
    ZeroWord(block, 1); ZeroWord(block, 2); ZeroWord(block, 3); ZeroWord(block, 4); ZeroWord(block, 5);
    ZeroWord(block, 6); ZeroWord(block, 7); ZeroWord(block, 8); ZeroWord(block, 9); ZeroWord(block, 10);
    ZeroWord(block, 11); ZeroWord(block, 12); ZeroWord(block, 13); ZeroWord(block, 14);
  }

  lemma NextWord(block: Bytes, t: nat, w16: Word, w15: Word, w7: Word, w2: Word, w: Word)
    requires t >= 16 && Takes(block, t - 16, w16) && Takes(block, t - 15, w15)
    requires Takes(block, t - 7, w7) && Takes(block, t - 2, w2) && t < 64
    requires Add4(SmallSigma1(w2), w7, SmallSigma0(w15), w16) == w
    ensures Takes(block, t, w)
  {
    hide Add4, SmallSigma1, SmallSigma0, BigEndian;
  }

  lemma Schedule1(block: Bytes)
    requires block == Pad(ABC)
    ensures Takes(block, 16, 0x61626380) && Takes(block, 17, 0x000f0000) && Takes(block, 18, 0x7da86405)
         && Takes(block, 19, 0x600003c6) && Takes(block, 20, 0x3e9d7b78) && Takes(block, 21, 0x0183fc00)
         && Takes(block, 22, 0x12dcbfdb) && Takes(block, 23, 0xe2e2c38e) && Takes(block, 24, 0xc8215c1a)
         && Takes(block, 25, 0xb73679a2) && Takes(block, 26, 0xe5bc3909) && Takes(block, 27, 0x32663c5b)
         && Takes(block, 28, 0x9d209d67) && Takes(block, 29, 0xec8726cb) && Takes(block, 30, 0x702138a4)
         && Takes(block, 31, 0xd3b7973b)
  {
    hide Takes, Pad;
    Schedule0(block);
    NextWord(block, 16, 0x61626380, 0, 0, 0, 0x61626380);
    NextWord(block, 17, 0, 0, 0, 24, 0x000f0000);
    NextWord(block, 18, 0, 0, 0, 0x61626380, 0x7da86405);
    NextWord(block, 19, 0, 0, 0, 0x000f0000, 0x600003c6);
    NextWord(block, 20, 0, 0, 0, 0x7da86405, 0x3e9d7b78);
    NextWord(block, 21, 0, 0, 0, 0x600003c6, 0x0183fc00);
    NextWord(block, 22, 0, 0, 24, 0x3e9d7b78, 0x12dcbfdb);
    NextWord(block, 23, 0, 0, 0x61626380, 0x0183fc00, 0xe2e2c38e);
    NextWord(block, 24, 0, 0, 0x000f0000, 0x12dcbfdb, 0xc8215c1a);
    NextWord(block, 25, 0, 0, 0x7da86405, 0xe2e2c38e, 0xb73679a2);
    NextWord(block, 26, 0, 0, 0x600003c6, 0xc8215c1a, 0xe5bc3909);
    NextWord(block, 27, 0, 0, 0x3e9d7b78, 0xb73679a2, 0x32663c5b);
    NextWord(block, 28, 0, 0, 0x0183fc00, 0xe5bc3909, 0x9d209d67);
    NextWord(block, 29, 0, 0, 0x12dcbfdb, 0x32663c5b, 0xec8726cb);
    NextWord(block, 30, 0, 24, 0xe2e2c38e, 0x9d209d67, 0x702138a4);
    NextWord(block, 31, 24, 0x61626380, 0xc8215c1a, 0xec8726cb, 0xd3b7973b);
  }

  lemma Schedule2(block: Bytes)
    requires block == Pad(ABC)
    ensures Takes(block, 32, 0x93f5997f) && Takes(block, 33, 0x3b68ba73) && Takes(block, 34, 0xaff4ffc1)
         && Takes(block, 35, 0xf10a5c62) && Takes(block, 36, 0x0a8b3996) && Takes(block, 37, 0x72af830a)
         && Takes(block, 38, 0x9409e33e) && Takes(block, 39, 0x24641522) && Takes(block, 40, 0x9f47bf94)
         && Takes(block, 41, 0xf0a64f5a) && Takes(block, 42, 0x3e246a79) && Takes(block, 43, 0x27333ba3)
         && Takes(block, 44, 0x0c4763f2) && Takes(block, 45, 0x840abf27) && Takes(block, 46, 0x7a290d5d)
         && Takes(block, 47, 0x065c43da)
  {
    hide Takes, Pad;
    Schedule1(block);
    NextWord(block, 32, 0x61626380, 0x000f0000, 0xb73679a2, 0x702138a4, 0x93f5997f);
    NextWord(block, 33, 0x000f0000, 0x7da86405, 0xe5bc3909, 0xd3b7973b, 0x3b68ba73);
    NextWord(block, 34, 0x7da86405, 0x600003c6, 0x32663c5b, 0x93f5997f, 0xaff4ffc1);
    NextWord(block, 35, 0x600003c6, 0x3e9d7b78, 0x9d209d67, 0x3b68ba73, 0xf10a5c62);
    NextWord(block, 36, 0x3e9d7b78, 0x0183fc00, 0xec8726cb, 0xaff4ffc1, 0x0a8b3996);
    NextWord(block, 37, 0x0183fc00, 0x12dcbfdb, 0x702138a4, 0xf10a5c62, 0x72af830a);
    NextWord(block, 38, 0x12dcbfdb, 0xe2e2c38e, 0xd3b7973b, 0x0a8b3996, 0x9409e33e);
    NextWord(block, 39, 0xe2e2c38e, 0xc8215c1a, 0x93f5997f, 0x72af830a, 0x24641522);
    NextWord(block, 40, 0xc8215c1a, 0xb73679a2, 0x3b68ba73, 0x9409e33e, 0x9f47bf94);
    NextWord(block, 41, 0xb73679a2, 0xe5bc3909, 0xaff4ffc1, 0x24641522, 0xf0a64f5a);
    NextWord(block, 42, 0xe5bc3909, 0x32663c5b, 0xf10a5c62, 0x9f47bf94, 0x3e246a79);
    NextWord(block, 43, 0x32663c5b, 0x9d209d67, 0x0a8b3996, 0xf0a64f5a, 0x27333ba3);
    NextWord(block, 44, 0x9d209d67, 0xec8726cb, 0x72af830a, 0x3e246a79, 0x0c4763f2);
    NextWord(block, 45, 0xec8726cb, 0x702138a4, 0x9409e33e, 0x27333ba3, 0x840abf27);
    NextWord(block, 46, 0x702138a4, 0xd3b7973b, 0x24641522, 0x0c4763f2, 0x7a290d5d);
    NextWord(block, 47, 0xd3b7973b, 0x93f5997f, 0x9f47bf94, 0x840abf27, 0x065c43da);
  }

  lemma Schedule3(block: Bytes)
    requires block == Pad(ABC)
    ensures Takes(block, 48, 0xfb3e89cb) && Takes(block, 49, 0xcc7617db) && Takes(block, 50, 0xb9e66c34)
         && Takes(block, 51, 0xa9993667) && Takes(block, 52, 0x84badedd) && Takes(block, 53, 0xc21462bc)
         && Takes(block, 54, 0x1487472c) && Takes(block, 55, 0xb20f7a99) && Takes(block, 56, 0xef57b9cd)
         && Takes(block, 57, 0xebe6b238) && Takes(block, 58, 0x9fe3095e) && Takes(block, 59, 0x78bc8d4b)
         && Takes(block, 60, 0xa43fcf15) && Takes(block, 61, 0x668b2ff8) && Takes(block, 62, 0xeeaba2cc)
         && Takes(block, 63, 0x12b1edeb)
  {
    hide Takes, Pad;
    Schedule2(block);
    NextWord(block, 48, 0x93f5997f, 0x3b68ba73, 0xf0a64f5a, 0x7a290d5d, 0xfb3e89cb);
    NextWord(block, 49, 0x3b68ba73, 0xaff4ffc1, 0x3e246a79, 0x065c43da, 0xcc7617db);
    NextWord(block, 50, 0xaff4ffc1, 0xf10a5c62, 0x27333ba3, 0xfb3e89cb, 0xb9e66c34);
    NextWord(block, 51, 0xf10a5c62, 0x0a8b3996, 0x0c4763f2, 0xcc7617db, 0xa9993667);
    NextWord(block, 52, 0x0a8b3996, 0x72af830a, 0x840abf27, 0xb9e66c34, 0x84badedd);
    NextWord(block, 53, 0x72af830a, 0x9409e33e, 0x7a290d5d, 0xa9993667, 0xc21462bc);
    NextWord(block, 54, 0x9409e33e, 0x24641522, 0x065c43da, 0x84badedd, 0x1487472c);
    NextWord(block, 55, 0x24641522, 0x9f47bf94, 0xfb3e89cb, 0xc21462bc, 0xb20f7a99);
    NextWord(block, 56, 0x9f47bf94, 0xf0a64f5a, 0xcc7617db, 0x1487472c, 0xef57b9cd);
    NextWord(block, 57, 0xf0a64f5a, 0x3e246a79, 0xb9e66c34, 0xb20f7a99, 0xebe6b238);
    NextWord(block, 58, 0x3e246a79, 0x27333ba3, 0xa9993667, 0xef57b9cd, 0x9fe3095e);
    NextWord(block, 59, 0x27333ba3, 0x0c4763f2, 0x84badedd, 0xebe6b238, 0x78bc8d4b);
    NextWord(block, 60, 0x0c4763f2, 0x840abf27, 0xc21462bc, 0x9fe3095e, 0xa43fcf15);
    NextWord(block, 61, 0x840abf27, 0x7a290d5d, 0x1487472c, 0x78bc8d4b, 0x668b2ff8);
    NextWord(block, 62, 0x7a290d5d, 0x065c43da, 0xb20f7a99, 0xa43fcf15, 0xeeaba2cc);
    NextWord(block, 63, 0x065c43da, 0xfb3e89cb, 0xef57b9cd, 0x668b2ff8, 0x12b1edeb);
  }

  // ----- The rounds -----

  /** A constant of a round. */
  ghost predicate Adds(t: nat, k: Word) {
    t < 64 && K(t) == k
  }

  lemma Constant(t: nat, n: int, k: Word)
    requires t < 64 && KRoot(t).fraction == n && n == k as int
    ensures Adds(t, k)
  {
    hide KRoot;
    SameWord(n, k);
  }

  lemma Constants0()
    ensures Adds(0, 0x428a2f98) && Adds(1, 0x71374491) && Adds(2, 0xb5c0fbcf) && Adds(3, 0xe9b5dba5)
         && Adds(4, 0x3956c25b) && Adds(5, 0x59f111f1) && Adds(6, 0x923f82a4) && Adds(7, 0xab1c5ed5)
         && Adds(8, 0xd807aa98) && Adds(9, 0x12835b01) && Adds(10, 0x243185be) && Adds(11, 0x550c7dc3)
         && Adds(12, 0x72be5d74) && Adds(13, 0x80deb1fe) && Adds(14, 0x9bdc06a7) && Adds(15, 0xc19bf174)
  {
    hide Adds, K;
    Constant(0, 0x428a2f98, 0x428a2f98); Constant(1, 0x71374491, 0x71374491); Constant(2, 0xb5c0fbcf, 0xb5c0fbcf);
    Constant(3, 0xe9b5dba5, 0xe9b5dba5); Constant(4, 0x3956c25b, 0x3956c25b); Constant(5, 0x59f111f1, 0x59f111f1);
    Constant(6, 0x923f82a4, 0x923f82a4); Constant(7, 0xab1c5ed5, 0xab1c5ed5); Constant(8, 0xd807aa98, 0xd807aa98);
    Constant(9, 0x12835b01, 0x12835b01); Constant(10, 0x243185be, 0x243185be); Constant(11, 0x550c7dc3, 0x550c7dc3);
    Constant(12, 0x72be5d74, 0x72be5d74); Constant(13, 0x80deb1fe, 0x80deb1fe); Constant(14, 0x9bdc06a7, 0x9bdc06a7);
    Constant(15, 0xc19bf174, 0xc19bf174);
  }

  lemma Constants1()
    ensures Adds(16, 0xe49b69c1) && Adds(17, 0xefbe4786) && Adds(18, 0x0fc19dc6) && Adds(19, 0x240ca1cc)
         && Adds(20, 0x2de92c6f) && Adds(21, 0x4a7484aa) && Adds(22, 0x5cb0a9dc) && Adds(23, 0x76f988da)
         && Adds(24, 0x983e5152) && Adds(25, 0xa831c66d) && Adds(26, 0xb00327c8) && Adds(27, 0xbf597fc7)
         && Adds(28, 0xc6e00bf3) && Adds(29, 0xd5a79147) && Adds(30, 0x06ca6351) && Adds(31, 0x14292967)
  {
    hide Adds, K;
    Constant(16, 0xe49b69c1, 0xe49b69c1); Constant(17, 0xefbe4786, 0xefbe4786); Constant(18, 0x0fc19dc6, 0x0fc19dc6);
    Constant(19, 0x240ca1cc, 0x240ca1cc); Constant(20, 0x2de92c6f, 0x2de92c6f); Constant(21, 0x4a7484aa, 0x4a7484aa);
    Constant(22, 0x5cb0a9dc, 0x5cb0a9dc); Constant(23, 0x76f988da, 0x76f988da); Constant(24, 0x983e5152, 0x983e5152);
    Constant(25, 0xa831c66d, 0xa831c66d); Constant(26, 0xb00327c8, 0xb00327c8); Constant(27, 0xbf597fc7, 0xbf597fc7);
    Constant(28, 0xc6e00bf3, 0xc6e00bf3); Constant(29, 0xd5a79147, 0xd5a79147); Constant(30, 0x06ca6351, 0x06ca6351);
    Constant(31, 0x14292967, 0x14292967);
  }

  lemma Constants2()
    ensures Adds(32, 0x27b70a85) && Adds(33, 0x2e1b2138) && Adds(34, 0x4d2c6dfc) && Adds(35, 0x53380d13)
         && Adds(36, 0x650a7354) && Adds(37, 0x766a0abb) && Adds(38, 0x81c2c92e) && Adds(39, 0x92722c85)
         && Adds(40, 0xa2bfe8a1) && Adds(41, 0xa81a664b) && Adds(42, 0xc24b8b70) && Adds(43, 0xc76c51a3)
         && Adds(44, 0xd192e819) && Adds(45, 0xd6990624) && Adds(46, 0xf40e3585) && Adds(47, 0x106aa070)
  {
    hide Adds, K;
    Constant(32, 0x27b70a85, 0x27b70a85); Constant(33, 0x2e1b2138, 0x2e1b2138); Constant(34, 0x4d2c6dfc, 0x4d2c6dfc);
    Constant(35, 0x53380d13, 0x53380d13); Constant(36, 0x650a7354, 0x650a7354); Constant(37, 0x766a0abb, 0x766a0abb);
    Constant(38, 0x81c2c92e, 0x81c2c92e); Constant(39, 0x92722c85, 0x92722c85); Constant(40, 0xa2bfe8a1, 0xa2bfe8a1);
    Constant(41, 0xa81a664b, 0xa81a664b); Constant(42, 0xc24b8b70, 0xc24b8b70); Constant(43, 0xc76c51a3, 0xc76c51a3);
    Constant(44, 0xd192e819, 0xd192e819); Constant(45, 0xd6990624, 0xd6990624); Constant(46, 0xf40e3585, 0xf40e3585);
    Constant(47, 0x106aa070, 0x106aa070);
  }

  lemma Constants3()
    ensures Adds(48, 0x19a4c116) && Adds(49, 0x1e376c08) && Adds(50, 0x2748774c) && Adds(51, 0x34b0bcb5)
         && Adds(52, 0x391c0cb3) && Adds(53, 0x4ed8aa4a) && Adds(54, 0x5b9cca4f) && Adds(55, 0x682e6ff3)
         && Adds(56, 0x748f82ee) && Adds(57, 0x78a5636f) && Adds(58, 0x84c87814) && Adds(59, 0x8cc70208)
         && Adds(60, 0x90befffa) && Adds(61, 0xa4506ceb) && Adds(62, 0xbef9a3f7) && Adds(63, 0xc67178f2)
  {
    hide Adds, K;
    Constant(48, 0x19a4c116, 0x19a4c116); Constant(49, 0x1e376c08, 0x1e376c08); Constant(50, 0x2748774c, 0x2748774c);
    Constant(51, 0x34b0bcb5, 0x34b0bcb5); Constant(52, 0x391c0cb3, 0x391c0cb3); Constant(53, 0x4ed8aa4a, 0x4ed8aa4a);
    Constant(54, 0x5b9cca4f, 0x5b9cca4f); Constant(55, 0x682e6ff3, 0x682e6ff3); Constant(56, 0x748f82ee, 0x748f82ee);
    Constant(57, 0x78a5636f, 0x78a5636f); Constant(58, 0x84c87814, 0x84c87814); Constant(59, 0x8cc70208, 0x8cc70208);
    Constant(60, 0x90befffa, 0x90befffa); Constant(61, 0xa4506ceb, 0xa4506ceb); Constant(62, 0xbef9a3f7, 0xbef9a3f7);
    Constant(63, 0xc67178f2, 0xc67178f2);
  }

  ghost predicate IsAt(block: Bytes, t: nat, s: State) {
    |block| == 64 && t <= 64 && Rounds(Initial(), block, t) == s
  }

  lemma NextRound(block: Bytes, t: nat, k: Word, w: Word, s: State, next: State)
    requires IsAt(block, t, s) && Adds(t, k) && Takes(block, t, w) && Round(s, k, w) == next
    ensures IsAt(block, t + 1, next)
  {
    hide K, W, Round, Initial;
  }

  lemma Rounds0(block: Bytes)
    requires block == Pad(ABC)
    ensures IsAt(block, 16,
                 State(0xb0fa238e, 0xc0645fde, 0xd932eb16, 0x87912990, 0x07590dcd, 0x0b92f20c, 0x745a48de, 0x1e578218))
  {
    hide Takes, Adds, IsAt, Pad;
    Start(block);
    Schedule0(block);
    Constants0();
    var a0, a1, a2, a3 := 0xa54ff53a, 0x3c6ef372, 0xbb67ae85, 0x6a09e667;
    var e0, e1, e2, e3 := 0x5be0cd19, 0x1f83d9ab, 0x9b05688c, 0x510e527f;
    var a4, a5, a6, a7 := 0x5d6aebcd, 0x5a6ad9ad, 0xc8c347a7, 0xd550f666;
    var e4, e5, e6, e7 := 0xfa2a4622, 0x78ce7989, 0xf92939eb, 0x24e00850;
    var a8, a9, a10, a11 := 0x04409a6a, 0x2b4209f5, 0xe5030380, 0x85a07b5f;
    var e8, e9, e10, e11 := 0x43ada245, 0x714260ad, 0x9b27a401, 0x0c657a79;
    var a12, a13, a14, a15 := 0x8e04ecb9, 0x8c87346b, 0x4798a3f4, 0xf71fc5a9;
    var e12, e13, e14, e15 := 0x32ca2d8c, 0x1cc92596, 0x436b23e8, 0x816fd6e9;
    var a16, a17, a18, a19 := 0x87912990, 0xd932eb16, 0xc0645fde, 0xb0fa238e;
    var e16, e17, e18, e19 := 0x1e578218, 0x745a48de, 0x0b92f20c, 0x07590dcd;
    NextRound(block, 0, 0x428a2f98, 0x61626380,
              State(a3, a2, a1, a0, e3, e2, e1, e0), State(a4, a3, a2, a1, e4, e3, e2, e1));
    NextRound(block, 1, 0x71374491, 0,
              State(a4, a3, a2, a1, e4, e3, e2, e1), State(a5, a4, a3, a2, e5, e4, e3, e2));
    NextRound(block, 2, 0xb5c0fbcf, 0,
              State(a5, a4, a3, a2, e5, e4, e3, e2), State(a6, a5, a4, a3, e6, e5, e4, e3));
    NextRound(block, 3, 0xe9b5dba5, 0,
              State(a6, a5, a4, a3, e6, e5, e4, e3), State(a7, a6, a5, a4, e7, e6, e5, e4));
    NextRound(block, 4, 0x3956c25b, 0,
              State(a7, a6, a5, a4, e7, e6, e5, e4), State(a8, a7, a6, a5, e8, e7, e6, e5));
    NextRound(block, 5, 0x59f111f1, 0,
              State(a8, a7, a6, a5, e8, e7, e6, e5), State(a9, a8, a7, a6, e9, e8, e7, e6));
    NextRound(block, 6, 0x923f82a4, 0,
              State(a9, a8, a7, a6, e9, e8, e7, e6), State(a10, a9, a8, a7, e10, e9, e8, e7));
    NextRound(block, 7, 0xab1c5ed5, 0,
              State(a10, a9, a8, a7, e10, e9, e8, e7), State(a11, a10, a9, a8, e11, e10, e9, e8));
    NextRound(block, 8, 0xd807aa98, 0,
              State(a11, a10, a9, a8, e11, e10, e9, e8), State(a12, a11, a10, a9, e12, e11, e10, e9));
    NextRound(block, 9, 0x12835b01, 0,
              State(a12, a11, a10, a9, e12, e11, e10, e9), State(a13, a12, a11, a10, e13, e12, e11, e10));
    NextRound(block, 10, 0x243185be, 0,
              State(a13, a12, a11, a10, e13, e12, e11, e10), State(a14, a13, a12, a11, e14, e13, e12, e11));
    NextRound(block, 11, 0x550c7dc3, 0,
              State(a14, a13, a12, a11, e14, e13, e12, e11), State(a15, a14, a13, a12, e15, e14, e13, e12));
    NextRound(block, 12, 0x72be5d74, 0,
              State(a15, a14, a13, a12, e15, e14, e13, e12), State(a16, a15, a14, a13, e16, e15, e14, e13));
    NextRound(block, 13, 0x80deb1fe, 0,
              State(a16, a15, a14, a13, e16, e15, e14, e13), State(a17, a16, a15, a14, e17, e16, e15, e14));
    NextRound(block, 14, 0x9bdc06a7, 0,
              State(a17, a16, a15, a14, e17, e16, e15, e14), State(a18, a17, a16, a15, e18, e17, e16, e15));
    NextRound(block, 15, 0xc19bf174, 24,
              State(a18, a17, a16, a15, e18, e17, e16, e15), State(a19, a18, a17, a16, e19, e18, e17, e16));
  }

  lemma Rounds1(block: Bytes)
    requires block == Pad(ABC)
    ensures IsAt(block, 32,
                 State(0x73b33bf5, 0xea992a22, 0xa0060b30, 0x363482c9, 0xba591112, 0x0109ab3a, 0xade79437, 0x6112a3b7))
  {
    hide Takes, Adds, IsAt, Pad;
    Rounds0(block);
    Schedule1(block);
    Constants1();
    var a0, a1, a2, a3 := 0x87912990, 0xd932eb16, 0xc0645fde, 0xb0fa238e;
    var e0, e1, e2, e3 := 0x1e578218, 0x745a48de, 0x0b92f20c, 0x07590dcd;
    var a4, a5, a6, a7 := 0x21da9a9b, 0xc2fbd9d1, 0xfe777bbf, 0xe1f20c33;
    var e4, e5, e6, e7 := 0x8034229c, 0x846ee454, 0xcc899961, 0xb0638179;
    var a8, a9, a10, a11 := 0x9dc68b63, 0xc2606d6d, 0xa7a3623f, 0xc5d53d8d;
    var e8, e9, e10, e11 := 0x8ada8930, 0xe1257970, 0x49f5114a, 0xaa47c347;
    var a12, a13, a14, a15 := 0x1c2c2838, 0xcde8037d, 0xb62ec4bc, 0x77d37528;
    var e12, e13, e14, e15 := 0x2823ef91, 0x14383d8e, 0xc74c6516, 0xedffbff8;
    var a16, a17, a18, a19 := 0x363482c9, 0xa0060b30, 0xea992a22, 0x73b33bf5;
    var e16, e17, e18, e19 := 0x6112a3b7, 0xade79437, 0x0109ab3a, 0xba591112;
    NextRound(block, 16, 0xe49b69c1, 0x61626380,
              State(a3, a2, a1, a0, e3, e2, e1, e0), State(a4, a3, a2, a1, e4, e3, e2, e1));
    NextRound(block, 17, 0xefbe4786, 0x000f0000,
              State(a4, a3, a2, a1, e4, e3, e2, e1), State(a5, a4, a3, a2, e5, e4, e3, e2));
    NextRound(block, 18, 0x0fc19dc6, 0x7da86405,
              State(a5, a4, a3, a2, e5, e4, e3, e2), State(a6, a5, a4, a3, e6, e5, e4, e3));
    NextRound(block, 19, 0x240ca1cc, 0x600003c6,
              State(a6, a5, a4, a3, e6, e5, e4, e3), State(a7, a6, a5, a4, e7, e6, e5, e4));
    NextRound(block, 20, 0x2de92c6f, 0x3e9d7b78,
              State(a7, a6, a5, a4, e7, e6, e5, e4), State(a8, a7, a6, a5, e8, e7, e6, e5));
    NextRound(block, 21, 0x4a7484aa, 0x0183fc00,
              State(a8, a7, a6, a5, e8, e7, e6, e5), State(a9, a8, a7, a6, e9, e8, e7, e6));
    NextRound(block, 22, 0x5cb0a9dc, 0x12dcbfdb,
              State(a9, a8, a7, a6, e9, e8, e7, e6), State(a10, a9, a8, a7, e10, e9, e8, e7));
    NextRound(block, 23, 0x76f988da, 0xe2e2c38e,
              State(a10, a9, a8, a7, e10, e9, e8, e7), State(a11, a10, a9, a8, e11, e10, e9, e8));
    NextRound(block, 24, 0x983e5152, 0xc8215c1a,
              State(a11, a10, a9, a8, e11, e10, e9, e8), State(a12, a11, a10, a9, e12, e11, e10, e9));
    NextRound(block, 25, 0xa831c66d, 0xb73679a2,
              State(a12, a11, a10, a9, e12, e11, e10, e9), State(a13, a12, a11, a10, e13, e12, e11, e10));
    NextRound(block, 26, 0xb00327c8, 0xe5bc3909,
              State(a13, a12, a11, a10, e13, e12, e11, e10), State(a14, a13, a12, a11, e14, e13, e12, e11));
    NextRound(block, 27, 0xbf597fc7, 0x32663c5b,
              State(a14, a13, a12, a11, e14, e13, e12, e11), State(a15, a14, a13, a12, e15, e14, e13, e12));
    NextRound(block, 28, 0xc6e00bf3, 0x9d209d67,
              State(a15, a14, a13, a12, e15, e14, e13, e12), State(a16, a15, a14, a13, e16, e15, e14, e13));
    NextRound(block, 29, 0xd5a79147, 0xec8726cb,
              State(a16, a15, a14, a13, e16, e15, e14, e13), State(a17, a16, a15, a14, e17, e16, e15, e14));
    NextRound(block, 30, 0x06ca6351, 0x702138a4,
              State(a17, a16, a15, a14, e17, e16, e15, e14), State(a18, a17, a16, a15, e18, e17, e16, e15));
    NextRound(block, 31, 0x14292967, 0xd3b7973b,
              State(a18, a17, a16, a15, e18, e17, e16, e15), State(a19, a18, a17, a16, e19, e18, e17, e16));
  }

  lemma Rounds2(block: Bytes)
    requires block == Pad(ABC)
    ensures IsAt(block, 48,
                 State(0x4172328d, 0xa14c14b0, 0x72ab4b91, 0x26628815, 0xfecf0bc6, 0xd57b94a9, 0xb7755da1, 0xa80f11f0))
  {
    hide Takes, Adds, IsAt, Pad;
    Rounds1(block);
    Schedule2(block);
    Constants2();
    var a0, a1, a2, a3 := 0x363482c9, 0xa0060b30, 0xea992a22, 0x73b33bf5;
    var e0, e1, e2, e3 := 0x6112a3b7, 0xade79437, 0x0109ab3a, 0xba591112;
    var a4, a5, a6, a7 := 0x98e12507, 0xfe604df5, 0xa9a7738c, 0x65a0cfe4;
    var e4, e5, e6, e7 := 0x9cd9f5f6, 0x59249dd3, 0x085f3833, 0xf4b002d6;
    var a8, a9, a10, a11 := 0x41a65cb1, 0x34df1604, 0x6dc57a8a, 0x79ea687a;
    var e8, e9, e10, e11 := 0x0772a26b, 0xa507a53d, 0xf0781bc8, 0x1efbc0a0;
    var a12, a13, a14, a15 := 0xd6670766, 0xdf46652f, 0x17aa0dfe, 0x9d4baf93;
    var e12, e13, e14, e15 := 0x26352d63, 0x838b2711, 0xdecd4715, 0xfda24c2e;
    var a16, a17, a18, a19 := 0x26628815, 0x72ab4b91, 0xa14c14b0, 0x4172328d;
    var e16, e17, e18, e19 := 0xa80f11f0, 0xb7755da1, 0xd57b94a9, 0xfecf0bc6;
    NextRound(block, 32, 0x27b70a85, 0x93f5997f,
              State(a3, a2, a1, a0, e3, e2, e1, e0), State(a4, a3, a2, a1, e4, e3, e2, e1));
    NextRound(block, 33, 0x2e1b2138, 0x3b68ba73,
              State(a4, a3, a2, a1, e4, e3, e2, e1), State(a5, a4, a3, a2, e5, e4, e3, e2));
    NextRound(block, 34, 0x4d2c6dfc, 0xaff4ffc1,
              State(a5, a4, a3, a2, e5, e4, e3, e2), State(a6, a5, a4, a3, e6, e5, e4, e3));
    NextRound(block, 35, 0x53380d13, 0xf10a5c62,
              State(a6, a5, a4, a3, e6, e5, e4, e3), State(a7, a6, a5, a4, e7, e6, e5, e4));
    NextRound(block, 36, 0x650a7354, 0x0a8b3996,
              State(a7, a6, a5, a4, e7, e6, e5, e4), State(a8, a7, a6, a5, e8, e7, e6, e5));
    NextRound(block, 37, 0x766a0abb, 0x72af830a,
              State(a8, a7, a6, a5, e8, e7, e6, e5), State(a9, a8, a7, a6, e9, e8, e7, e6));
    NextRound(block, 38, 0x81c2c92e, 0x9409e33e,
              State(a9, a8, a7, a6, e9, e8, e7, e6), State(a10, a9, a8, a7, e10, e9, e8, e7));
    NextRound(block, 39, 0x92722c85, 0x24641522,
              State(a10, a9, a8, a7, e10, e9, e8, e7), State(a11, a10, a9, a8, e11, e10, e9, e8));
    NextRound(block, 40, 0xa2bfe8a1, 0x9f47bf94,
              State(a11, a10, a9, a8, e11, e10, e9, e8), State(a12, a11, a10, a9, e12, e11, e10, e9));
    NextRound(block, 41, 0xa81a664b, 0xf0a64f5a,
              State(a12, a11, a10, a9, e12, e11, e10, e9), State(a13, a12, a11, a10, e13, e12, e11, e10));
    NextRound(block, 42, 0xc24b8b70, 0x3e246a79,
              State(a13, a12, a11, a10, e13, e12, e11, e10), State(a14, a13, a12, a11, e14, e13, e12, e11));
    NextRound(block, 43, 0xc76c51a3, 0x27333ba3,
              State(a14, a13, a12, a11, e14, e13, e12, e11), State(a15, a14, a13, a12, e15, e14, e13, e12));
    NextRound(block, 44, 0xd192e819, 0x0c4763f2,
              State(a15, a14, a13, a12, e15, e14, e13, e12), State(a16, a15, a14, a13, e16, e15, e14, e13));
    NextRound(block, 45, 0xd6990624, 0x840abf27,
              State(a16, a15, a14, a13, e16, e15, e14, e13), State(a17, a16, a15, a14, e17, e16, e15, e14));
    NextRound(block, 46, 0xf40e3585, 0x7a290d5d,
              State(a17, a16, a15, a14, e17, e16, e15, e14), State(a18, a17, a16, a15, e18, e17, e16, e15));
    NextRound(block, 47, 0x106aa070, 0x065c43da,
              State(a18, a17, a16, a15, e18, e17, e16, e15), State(a19, a18, a17, a16, e19, e18, e17, e16));
  }

  lemma Rounds3(block: Bytes)
    requires block == Pad(ABC)
    ensures IsAt(block, 64,
                 State(0x506e3058, 0xd39a2165, 0x04d24d6c, 0xb85e2ce9, 0x5ef50f24, 0xfb121210, 0x948d25b6, 0x961f4894))
  {
    hide Takes, Adds, IsAt, Pad;
    Rounds2(block);
    Schedule3(block);
    Constants3();
    var a0, a1, a2, a3 := 0x26628815, 0x72ab4b91, 0xa14c14b0, 0x4172328d;
    var e0, e1, e2, e3 := 0xa80f11f0, 0xb7755da1, 0xd57b94a9, 0xfecf0bc6;
    var a4, a5, a6, a7 := 0x05757ceb, 0xf11bfaa8, 0x7a0508a1, 0x886e7a22;
    var e4, e5, e6, e7 := 0xbd714038, 0x6e5c390c, 0x52f1ccf7, 0x49231c1e;
    var a8, a9, a10, a11 := 0x101fd28f, 0xf5702fdb, 0x3ec45cdb, 0x38cc9913;
    var e8, e9, e10, e11 := 0x529e7d00, 0x9f4787c3, 0xe50e1b4f, 0x54cb266b;
    var a12, a13, a14, a15 := 0xfcd1887b, 0xc062d46f, 0xffb70472, 0xb6ae8fff;
    var e12, e13, e14, e15 := 0x9b5e906c, 0x7e44008e, 0x6d83bfc6, 0xb21bad3d;
    var a16, a17, a18, a19 := 0xb85e2ce9, 0x04d24d6c, 0xd39a2165, 0x506e3058;
    var e16, e17, e18, e19 := 0x961f4894, 0x948d25b6, 0xfb121210, 0x5ef50f24;
    NextRound(block, 48, 0x19a4c116, 0xfb3e89cb,
              State(a3, a2, a1, a0, e3, e2, e1, e0), State(a4, a3, a2, a1, e4, e3, e2, e1));
    NextRound(block, 49, 0x1e376c08, 0xcc7617db,
              State(a4, a3, a2, a1, e4, e3, e2, e1), State(a5, a4, a3, a2, e5, e4, e3, e2));
    NextRound(block, 50, 0x2748774c, 0xb9e66c34,
              State(a5, a4, a3, a2, e5, e4, e3, e2), State(a6, a5, a4, a3, e6, e5, e4, e3));
    NextRound(block, 51, 0x34b0bcb5, 0xa9993667,
              State(a6, a5, a4, a3, e6, e5, e4, e3), State(a7, a6, a5, a4, e7, e6, e5, e4));
    NextRound(block, 52, 0x391c0cb3, 0x84badedd,
              State(a7, a6, a5, a4, e7, e6, e5, e4), State(a8, a7, a6, a5, e8, e7, e6, e5));
    NextRound(block, 53, 0x4ed8aa4a, 0xc21462bc,
              State(a8, a7, a6, a5, e8, e7, e6, e5), State(a9, a8, a7, a6, e9, e8, e7, e6));
    NextRound(block, 54, 0x5b9cca4f, 0x1487472c,
              State(a9, a8, a7, a6, e9, e8, e7, e6), State(a10, a9, a8, a7, e10, e9, e8, e7));
    NextRound(block, 55, 0x682e6ff3, 0xb20f7a99,
              State(a10, a9, a8, a7, e10, e9, e8, e7), State(a11, a10, a9, a8, e11, e10, e9, e8));
    NextRound(block, 56, 0x748f82ee, 0xef57b9cd,
              State(a11, a10, a9, a8, e11, e10, e9, e8), State(a12, a11, a10, a9, e12, e11, e10, e9));
    NextRound(block, 57, 0x78a5636f, 0xebe6b238,
              State(a12, a11, a10, a9, e12, e11, e10, e9), State(a13, a12, a11, a10, e13, e12, e11, e10));
    NextRound(block, 58, 0x84c87814, 0x9fe3095e,
              State(a13, a12, a11, a10, e13, e12, e11, e10), State(a14, a13, a12, a11, e14, e13, e12, e11));
    NextRound(block, 59, 0x8cc70208, 0x78bc8d4b,
              State(a14, a13, a12, a11, e14, e13, e12, e11), State(a15, a14, a13, a12, e15, e14, e13, e12));
    NextRound(block, 60, 0x90befffa, 0xa43fcf15,
              State(a15, a14, a13, a12, e15, e14, e13, e12), State(a16, a15, a14, a13, e16, e15, e14, e13));
    NextRound(block, 61, 0xa4506ceb, 0x668b2ff8,
              State(a16, a15, a14, a13, e16, e15, e14, e13), State(a17, a16, a15, a14, e17, e16, e15, e14));
    NextRound(block, 62, 0xbef9a3f7, 0xeeaba2cc,
              State(a17, a16, a15, a14, e17, e16, e15, e14), State(a18, a17, a16, a15, e18, e17, e16, e15));
    NextRound(block, 63, 0xc67178f2, 0x12b1edeb,
              State(a18, a17, a16, a15, e18, e17, e16, e15), State(a19, a18, a17, a16, e19, e18, e17, e16));
  }

  lemma InitialIs()
    ensures Initial() ==
            State(0x6a09e667, 0xbb67ae85, 0x3c6ef372, 0xa54ff53a, 0x510e527f, 0x9b05688c, 0x1f83d9ab, 0x5be0cd19)
  {
    SameWord(HRoot(0).fraction, 0x6a09e667);
    SameWord(HRoot(1).fraction, 0xbb67ae85);
    SameWord(HRoot(2).fraction, 0x3c6ef372);
    SameWord(HRoot(3).fraction, 0xa54ff53a);
    SameWord(HRoot(4).fraction, 0x510e527f);
    SameWord(HRoot(5).fraction, 0x9b05688c);
    SameWord(HRoot(6).fraction, 0x1f83d9ab);
    SameWord(HRoot(7).fraction, 0x5be0cd19);
  }

  lemma Start(block: Bytes)
    requires block == Pad(ABC)
    ensures IsAt(block, 0,
                 State(0x6a09e667, 0xbb67ae85, 0x3c6ef372, 0xa54ff53a, 0x510e527f, 0x9b05688c, 0x1f83d9ab, 0x5be0cd19))
  {
    hide Pad, Initial;
    AbcIsOneBlock();
    InitialIs();
  }

  // ----- The digest -----

  lemma WordBytesAre(w: Word, a: Byte, b: Byte, c: Byte, d: Byte)
    requires w as int == BigEndian([a, b, c, d])
    ensures WordBytes(w) == [a, b, c, d]
  {
    BytesAre(w as nat, a, b, c, d);
  }

  lemma BytesAre(n: nat, a: Byte, b: Byte, c: Byte, d: Byte)
    requires n == BigEndian([a, b, c, d])
    ensures ToBytes(n, 4) == [a, b, c, d]
  {
    var n1, n2, n3 := n / 256, n / 256 / 256, n / 256 / 256 / 256;
    assert n3 == a as int && n2 == 256 * n3 + b as int && n1 == 256 * n2 + c as int && n == 256 * n1 + d as int;
    assert ToBytes(n3, 1) == [a];
    assert ToBytes(n2, 2) == [a, b];
    assert ToBytes(n1, 3) == [a, b, c];
  }

  lemma SumIs()
    ensures Sum(State(0x6a09e667, 0xbb67ae85, 0x3c6ef372, 0xa54ff53a, 0x510e527f, 0x9b05688c, 0x1f83d9ab, 0x5be0cd19),
                State(0x506e3058, 0xd39a2165, 0x04d24d6c, 0xb85e2ce9, 0x5ef50f24, 0xfb121210, 0x948d25b6, 0x961f4894))
         == State(0xba7816bf, 0x8f01cfea, 0x414140de, 0x5dae2223, 0xb00361a3, 0x96177a9c, 0xb410ff61, 0xf20015ad)
  {
  }

  lemma DigestOfOneBlock()
    ensures |Pad(ABC)| == 64 && Digest(ABC) == StateBytes(Sum(Initial(), Rounds(Initial(), Pad(ABC), 64)))
  {
    hide Pad, Rounds, Initial, StateBytes, Sum;
    AbcIsOneBlock();
    assert Hash(Pad(ABC), 0) == Initial();
    assert Pad(ABC)[0..64] == Pad(ABC);
  }

  function AbcDigest(): Bytes {
    [0xba, 0x78, 0x16, 0xbf] + [0x8f, 0x01, 0xcf, 0xea] + [0x41, 0x41, 0x40, 0xde] + [0x5d, 0xae, 0x22, 0x23]
    + [0xb0, 0x03, 0x61, 0xa3] + [0x96, 0x17, 0x7a, 0x9c] + [0xb4, 0x10, 0xff, 0x61] + [0xf2, 0x00, 0x15, 0xad]
  }

  /** The digest of "abc", the example of the standard and of the repository's test. */
  lemma DigestOfAbc()
    ensures Digest(ABC) == AbcDigest()
  {
    hide Digest, Pad, Rounds, Initial, Sum, WordBytes;
    DigestOfOneBlock();
    Rounds3(Pad(ABC));
    InitialIs();
    SumIs();
    WordBytesAre(0xba7816bf, 0xba, 0x78, 0x16, 0xbf);
    WordBytesAre(0x8f01cfea, 0x8f, 0x01, 0xcf, 0xea);
    WordBytesAre(0x414140de, 0x41, 0x41, 0x40, 0xde);
    WordBytesAre(0x5dae2223, 0x5d, 0xae, 0x22, 0x23);
    WordBytesAre(0xb00361a3, 0xb0, 0x03, 0x61, 0xa3);
    WordBytesAre(0x96177a9c, 0x96, 0x17, 0x7a, 0x9c);
    WordBytesAre(0xb410ff61, 0xb4, 0x10, 0xff, 0x61);
    WordBytesAre(0xf20015ad, 0xf2, 0x00, 0x15, 0xad);
  }

  /** The hash value goes on from block to block. */
  lemma HashOfConcat(front: Bytes, block: Bytes)
    requires |front| % 64 == 0 && |block| == 64
    ensures Hash(front + block, |front| / 64 + 1) == Compress(Hash(front, |front| / 64), block)
  {
    hide Compress, Initial;
    var n := |front| / 64;
    assert (front + block)[64 * n..64 * (n + 1)] == block;
    HashOfFront(front, block, n);
  }

  lemma {:induction false} HashOfFront(front: Bytes, behind: Bytes, n: nat)
    requires 64 * n <= |front|
    ensures Hash(front + behind, n) == Hash(front, n)
  {
    hide Compress, Initial;
    if n > 0 {
      HashOfFront(front, behind, n - 1);
      assert (front + behind)[64 * (n - 1)..64 * n] == front[64 * (n - 1)..64 * n];
    }
  }
}
