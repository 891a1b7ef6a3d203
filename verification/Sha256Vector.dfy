/**
  The one-block example of FIPS 180-4: the digest of "abc", round by round.
 */
module Sha256Vector {
  import opened Common
  import opened Sha256

  /** The three letters, the one bit, zeros, and their length of 24 bits. */
  function Block(): (b: seq<Octet>)
    ensures |b| == 64
  { [0x61, 0x62, 0x63, 0x80] + ZeroOctets(59) + [24] }

  /** Word `t` of the block's schedule. */
  predicate Word(b: seq<Octet>, t: nat, w: Sha256.Word) { |b| == 64 && Schedule(b, t) == w }

  /** The state after `t` rounds. */
  predicate After(b: seq<Octet>, t: nat, s: State) { |b| == 64 && t <= 64 && Rounds(Initial(), b, t) == s }

  /** A word of the schedule from the four it comes from. */
  lemma Scheduled(b: seq<Octet>, t: nat, w2: Sha256.Word, w7: Sha256.Word, w15: Sha256.Word, w16: Sha256.Word,
                  w: Sha256.Word)
    requires t >= 16 && Word(b, t - 2, w2) && Word(b, t - 7, w7) && Word(b, t - 15, w15) && Word(b, t - 16, w16)
    requires w == Sum(SmallSigma1(w2), w7, SmallSigma0(w15), w16)
    ensures Word(b, t, w)
  {
    hide Sum, SmallSigma0, SmallSigma1;
    ScheduleStep(b, t);
  }

  /** One round with the constant of row `r` and column `i`, by the two words it computes. */
  lemma Turned(b: seq<Octet>, r: nat, i: nat, s: State, k: Sha256.Word, w: Sha256.Word, a: Sha256.Word, e: Sha256.Word)
    returns (next: State)
    requires r < 8 && i < 8 && After(b, 8 * r + i, s) && KRow(r)[i] == k && Word(b, 8 * r + i, w)
    requires Round(s, k, w).a == a && Round(s, k, w).e == e
    ensures next == State(a, s.a, s.b, s.c, e, s.e, s.f, s.g) && After(b, 8 * r + i + 1, next)
  {
    hide Add, BigSigma0, BigSigma1, Ch, Maj, KRow;
    KAt(r, i);
    RoundStep(Initial(), b, 8 * r + i);
    next := Round(s, k, w);
  }

  lemma Starts(b: seq<Octet>)
    requires b == Block()
    ensures After(b, 0, State(0x6a09e667, 0xbb67ae85, 0x3c6ef372, 0xa54ff53a,
                              0x510e527f, 0x9b05688c, 0x1f83d9ab, 0x5be0cd19))
  {
    RoundStep(Initial(), b, 0);
  }

  lemma Words1(b: seq<Octet>)
    requires b == Block()
    ensures Word(b, 0, 0x61626380) && Word(b, 15, 24)
    ensures forall t :: 1 <= t <= 14 ==> Word(b, t, 0)
  {
    forall t | 0 <= t < 16 ensures Schedule(b, t) == WordAt(b, t) {
      ScheduleStep(b, t);
    }
  }

  lemma FirstWords(b: seq<Octet>)
    requires b == Block()
    ensures Word(b, 0, 0x61626380) && Word(b, 1, 0) && Word(b, 2, 0) && Word(b, 3, 0)
    ensures Word(b, 4, 0) && Word(b, 5, 0) && Word(b, 6, 0) && Word(b, 7, 0)
  {
    hide Word, Block;
    Words1(b);
  }

  lemma Words2(b: seq<Octet>)
    requires b == Block()
    ensures Word(b, 16, 0x61626380) && Word(b, 17, 0x000f0000) && Word(b, 18, 0x7da86405) && Word(b, 19, 0x600003c6)
    ensures Word(b, 20, 0x3e9d7b78) && Word(b, 21, 0x0183fc00) && Word(b, 22, 0x12dcbfdb) && Word(b, 23, 0xe2e2c38e)
  {
    hide Block, Word;
    Words1(b);
    Scheduled(b, 16, 0x00000000, 0x00000000, 0x00000000, 0x61626380, 0x61626380);
    Scheduled(b, 17, 0x00000018, 0x00000000, 0x00000000, 0x00000000, 0x000f0000);
    Scheduled(b, 18, 0x61626380, 0x00000000, 0x00000000, 0x00000000, 0x7da86405);
    Scheduled(b, 19, 0x000f0000, 0x00000000, 0x00000000, 0x00000000, 0x600003c6);
    Scheduled(b, 20, 0x7da86405, 0x00000000, 0x00000000, 0x00000000, 0x3e9d7b78);
    Scheduled(b, 21, 0x600003c6, 0x00000000, 0x00000000, 0x00000000, 0x0183fc00);
    Scheduled(b, 22, 0x3e9d7b78, 0x00000018, 0x00000000, 0x00000000, 0x12dcbfdb);
    Scheduled(b, 23, 0x0183fc00, 0x61626380, 0x00000000, 0x00000000, 0xe2e2c38e);
  }

  lemma Words3(b: seq<Octet>)
    requires b == Block()
    ensures Word(b, 24, 0xc8215c1a) && Word(b, 25, 0xb73679a2) && Word(b, 26, 0xe5bc3909) && Word(b, 27, 0x32663c5b)
    ensures Word(b, 28, 0x9d209d67) && Word(b, 29, 0xec8726cb) && Word(b, 30, 0x702138a4) && Word(b, 31, 0xd3b7973b)
  {
    hide Block, Word;
    Words1(b); Words2(b);
    Scheduled(b, 24, 0x12dcbfdb, 0x000f0000, 0x00000000, 0x00000000, 0xc8215c1a);
    Scheduled(b, 25, 0xe2e2c38e, 0x7da86405, 0x00000000, 0x00000000, 0xb73679a2);
    Scheduled(b, 26, 0xc8215c1a, 0x600003c6, 0x00000000, 0x00000000, 0xe5bc3909);
    Scheduled(b, 27, 0xb73679a2, 0x3e9d7b78, 0x00000000, 0x00000000, 0x32663c5b);
    Scheduled(b, 28, 0xe5bc3909, 0x0183fc00, 0x00000000, 0x00000000, 0x9d209d67);
    Scheduled(b, 29, 0x32663c5b, 0x12dcbfdb, 0x00000000, 0x00000000, 0xec8726cb);
    Scheduled(b, 30, 0x9d209d67, 0xe2e2c38e, 0x00000018, 0x00000000, 0x702138a4);
    Scheduled(b, 31, 0xec8726cb, 0xc8215c1a, 0x61626380, 0x00000018, 0xd3b7973b);
  }

  lemma Words4(b: seq<Octet>)
    requires b == Block()
    ensures Word(b, 32, 0x93f5997f) && Word(b, 33, 0x3b68ba73) && Word(b, 34, 0xaff4ffc1) && Word(b, 35, 0xf10a5c62)
    ensures Word(b, 36, 0x0a8b3996) && Word(b, 37, 0x72af830a) && Word(b, 38, 0x9409e33e) && Word(b, 39, 0x24641522)
  {
    hide Block, Word;
    Words2(b); Words3(b);
    Scheduled(b, 32, 0x702138a4, 0xb73679a2, 0x000f0000, 0x61626380, 0x93f5997f);
    Scheduled(b, 33, 0xd3b7973b, 0xe5bc3909, 0x7da86405, 0x000f0000, 0x3b68ba73);
    Scheduled(b, 34, 0x93f5997f, 0x32663c5b, 0x600003c6, 0x7da86405, 0xaff4ffc1);
    Scheduled(b, 35, 0x3b68ba73, 0x9d209d67, 0x3e9d7b78, 0x600003c6, 0xf10a5c62);
    Scheduled(b, 36, 0xaff4ffc1, 0xec8726cb, 0x0183fc00, 0x3e9d7b78, 0x0a8b3996);
    Scheduled(b, 37, 0xf10a5c62, 0x702138a4, 0x12dcbfdb, 0x0183fc00, 0x72af830a);
    Scheduled(b, 38, 0x0a8b3996, 0xd3b7973b, 0xe2e2c38e, 0x12dcbfdb, 0x9409e33e);
    Scheduled(b, 39, 0x72af830a, 0x93f5997f, 0xc8215c1a, 0xe2e2c38e, 0x24641522);
  }

  lemma Words5(b: seq<Octet>)
    requires b == Block()
    ensures Word(b, 40, 0x9f47bf94) && Word(b, 41, 0xf0a64f5a) && Word(b, 42, 0x3e246a79) && Word(b, 43, 0x27333ba3)
    ensures Word(b, 44, 0x0c4763f2) && Word(b, 45, 0x840abf27) && Word(b, 46, 0x7a290d5d) && Word(b, 47, 0x065c43da)
  {
    hide Block, Word;
    Words3(b); Words4(b);
    Scheduled(b, 40, 0x9409e33e, 0x3b68ba73, 0xb73679a2, 0xc8215c1a, 0x9f47bf94);
    Scheduled(b, 41, 0x24641522, 0xaff4ffc1, 0xe5bc3909, 0xb73679a2, 0xf0a64f5a);
    Scheduled(b, 42, 0x9f47bf94, 0xf10a5c62, 0x32663c5b, 0xe5bc3909, 0x3e246a79);
    Scheduled(b, 43, 0xf0a64f5a, 0x0a8b3996, 0x9d209d67, 0x32663c5b, 0x27333ba3);
    Scheduled(b, 44, 0x3e246a79, 0x72af830a, 0xec8726cb, 0x9d209d67, 0x0c4763f2);
    Scheduled(b, 45, 0x27333ba3, 0x9409e33e, 0x702138a4, 0xec8726cb, 0x840abf27);
    Scheduled(b, 46, 0x0c4763f2, 0x24641522, 0xd3b7973b, 0x702138a4, 0x7a290d5d);
    Scheduled(b, 47, 0x840abf27, 0x9f47bf94, 0x93f5997f, 0xd3b7973b, 0x065c43da);
  }

  lemma Words6(b: seq<Octet>)
    requires b == Block()
    ensures Word(b, 48, 0xfb3e89cb) && Word(b, 49, 0xcc7617db) && Word(b, 50, 0xb9e66c34) && Word(b, 51, 0xa9993667)
    ensures Word(b, 52, 0x84badedd) && Word(b, 53, 0xc21462bc) && Word(b, 54, 0x1487472c) && Word(b, 55, 0xb20f7a99)
  {
    hide Block, Word;
    Words4(b); Words5(b);
    Scheduled(b, 48, 0x7a290d5d, 0xf0a64f5a, 0x3b68ba73, 0x93f5997f, 0xfb3e89cb);
    Scheduled(b, 49, 0x065c43da, 0x3e246a79, 0xaff4ffc1, 0x3b68ba73, 0xcc7617db);
    Scheduled(b, 50, 0xfb3e89cb, 0x27333ba3, 0xf10a5c62, 0xaff4ffc1, 0xb9e66c34);
    Scheduled(b, 51, 0xcc7617db, 0x0c4763f2, 0x0a8b3996, 0xf10a5c62, 0xa9993667);
    Scheduled(b, 52, 0xb9e66c34, 0x840abf27, 0x72af830a, 0x0a8b3996, 0x84badedd);
    Scheduled(b, 53, 0xa9993667, 0x7a290d5d, 0x9409e33e, 0x72af830a, 0xc21462bc);
    Scheduled(b, 54, 0x84badedd, 0x065c43da, 0x24641522, 0x9409e33e, 0x1487472c);
    Scheduled(b, 55, 0xc21462bc, 0xfb3e89cb, 0x9f47bf94, 0x24641522, 0xb20f7a99);
  }

  lemma Words7(b: seq<Octet>)
    requires b == Block()
    ensures Word(b, 56, 0xef57b9cd) && Word(b, 57, 0xebe6b238) && Word(b, 58, 0x9fe3095e) && Word(b, 59, 0x78bc8d4b)
    ensures Word(b, 60, 0xa43fcf15) && Word(b, 61, 0x668b2ff8) && Word(b, 62, 0xeeaba2cc) && Word(b, 63, 0x12b1edeb)
  {
    hide Block, Word;
    Words5(b); Words6(b);
    Scheduled(b, 56, 0x1487472c, 0xcc7617db, 0xf0a64f5a, 0x9f47bf94, 0xef57b9cd);
    Scheduled(b, 57, 0xb20f7a99, 0xb9e66c34, 0x3e246a79, 0xf0a64f5a, 0xebe6b238);
    Scheduled(b, 58, 0xef57b9cd, 0xa9993667, 0x27333ba3, 0x3e246a79, 0x9fe3095e);
    Scheduled(b, 59, 0xebe6b238, 0x84badedd, 0x0c4763f2, 0x27333ba3, 0x78bc8d4b);
    Scheduled(b, 60, 0x9fe3095e, 0xc21462bc, 0x840abf27, 0x0c4763f2, 0xa43fcf15);
    Scheduled(b, 61, 0x78bc8d4b, 0x1487472c, 0x7a290d5d, 0x840abf27, 0x668b2ff8);
    Scheduled(b, 62, 0xa43fcf15, 0xb20f7a99, 0x065c43da, 0x7a290d5d, 0xeeaba2cc);
    Scheduled(b, 63, 0x668b2ff8, 0xef57b9cd, 0xfb3e89cb, 0x065c43da, 0x12b1edeb);
  }

  lemma Turns1(b: seq<Octet>)
    requires b == Block()
    ensures After(b, 8, State(0x85a07b5f, 0xe5030380, 0x2b4209f5, 0x04409a6a,
                              0x0c657a79, 0x9b27a401, 0x714260ad, 0x43ada245))
  {
    hide Block, Initial, Word, After;
    FirstWords(b);
    Starts(b);
    var s := State(0x6a09e667, 0xbb67ae85, 0x3c6ef372, 0xa54ff53a, 0x510e527f, 0x9b05688c, 0x1f83d9ab, 0x5be0cd19);
    s := Turned(b, 0, 0, s, 0x428a2f98, 0x61626380, 0x5d6aebcd, 0xfa2a4622);
    s := Turned(b, 0, 1, s, 0x71374491, 0x00000000, 0x5a6ad9ad, 0x78ce7989);
    s := Turned(b, 0, 2, s, 0xb5c0fbcf, 0x00000000, 0xc8c347a7, 0xf92939eb);
    s := Turned(b, 0, 3, s, 0xe9b5dba5, 0x00000000, 0xd550f666, 0x24e00850);
    s := Turned(b, 0, 4, s, 0x3956c25b, 0x00000000, 0x04409a6a, 0x43ada245);
    s := Turned(b, 0, 5, s, 0x59f111f1, 0x00000000, 0x2b4209f5, 0x714260ad);
    s := Turned(b, 0, 6, s, 0x923f82a4, 0x00000000, 0xe5030380, 0x9b27a401);
    s := Turned(b, 0, 7, s, 0xab1c5ed5, 0x00000000, 0x85a07b5f, 0x0c657a79);
  }

  lemma Turns2(b: seq<Octet>)
    requires b == Block()
    ensures After(b, 16, State(0xb0fa238e, 0xc0645fde, 0xd932eb16, 0x87912990,
                               0x07590dcd, 0x0b92f20c, 0x745a48de, 0x1e578218))
  {
    hide Block, Initial, Word, After;
    Words1(b);
    Turns1(b);
    var s := State(0x85a07b5f, 0xe5030380, 0x2b4209f5, 0x04409a6a, 0x0c657a79, 0x9b27a401, 0x714260ad, 0x43ada245);
    s := Turned(b, 1, 0, s, 0xd807aa98, 0x00000000, 0x8e04ecb9, 0x32ca2d8c);
    s := Turned(b, 1, 1, s, 0x12835b01, 0x00000000, 0x8c87346b, 0x1cc92596);
    s := Turned(b, 1, 2, s, 0x243185be, 0x00000000, 0x4798a3f4, 0x436b23e8);
    s := Turned(b, 1, 3, s, 0x550c7dc3, 0x00000000, 0xf71fc5a9, 0x816fd6e9);
    s := Turned(b, 1, 4, s, 0x72be5d74, 0x00000000, 0x87912990, 0x1e578218);
    s := Turned(b, 1, 5, s, 0x80deb1fe, 0x00000000, 0xd932eb16, 0x745a48de);
    s := Turned(b, 1, 6, s, 0x9bdc06a7, 0x00000000, 0xc0645fde, 0x0b92f20c);
    s := Turned(b, 1, 7, s, 0xc19bf174, 0x00000018, 0xb0fa238e, 0x07590dcd);
  }

  lemma Turns3(b: seq<Octet>)
    requires b == Block()
    ensures After(b, 24, State(0xc5d53d8d, 0xa7a3623f, 0xc2606d6d, 0x9dc68b63,
                               0xaa47c347, 0x49f5114a, 0xe1257970, 0x8ada8930))
  {
    hide Block, Initial, Word, After;
    Words2(b);
    Turns2(b);
    var s := State(0xb0fa238e, 0xc0645fde, 0xd932eb16, 0x87912990, 0x07590dcd, 0x0b92f20c, 0x745a48de, 0x1e578218);
    s := Turned(b, 2, 0, s, 0xe49b69c1, 0x61626380, 0x21da9a9b, 0x8034229c);
    s := Turned(b, 2, 1, s, 0xefbe4786, 0x000f0000, 0xc2fbd9d1, 0x846ee454);
    s := Turned(b, 2, 2, s, 0x0fc19dc6, 0x7da86405, 0xfe777bbf, 0xcc899961);
    s := Turned(b, 2, 3, s, 0x240ca1cc, 0x600003c6, 0xe1f20c33, 0xb0638179);
    s := Turned(b, 2, 4, s, 0x2de92c6f, 0x3e9d7b78, 0x9dc68b63, 0x8ada8930);
    s := Turned(b, 2, 5, s, 0x4a7484aa, 0x0183fc00, 0xc2606d6d, 0xe1257970);
    s := Turned(b, 2, 6, s, 0x5cb0a9dc, 0x12dcbfdb, 0xa7a3623f, 0x49f5114a);
    s := Turned(b, 2, 7, s, 0x76f988da, 0xe2e2c38e, 0xc5d53d8d, 0xaa47c347);
  }

  lemma Turns4(b: seq<Octet>)
    requires b == Block()
    ensures After(b, 32, State(0x73b33bf5, 0xea992a22, 0xa0060b30, 0x363482c9,
                               0xba591112, 0x0109ab3a, 0xade79437, 0x6112a3b7))
  {
    hide Block, Initial, Word, After;
    Words3(b);
    Turns3(b);
    var s := State(0xc5d53d8d, 0xa7a3623f, 0xc2606d6d, 0x9dc68b63, 0xaa47c347, 0x49f5114a, 0xe1257970, 0x8ada8930);
    s := Turned(b, 3, 0, s, 0x983e5152, 0xc8215c1a, 0x1c2c2838, 0x2823ef91);
    s := Turned(b, 3, 1, s, 0xa831c66d, 0xb73679a2, 0xcde8037d, 0x14383d8e);
    s := Turned(b, 3, 2, s, 0xb00327c8, 0xe5bc3909, 0xb62ec4bc, 0xc74c6516);
    s := Turned(b, 3, 3, s, 0xbf597fc7, 0x32663c5b, 0x77d37528, 0xedffbff8);
    s := Turned(b, 3, 4, s, 0xc6e00bf3, 0x9d209d67, 0x363482c9, 0x6112a3b7);
    s := Turned(b, 3, 5, s, 0xd5a79147, 0xec8726cb, 0xa0060b30, 0xade79437);
    s := Turned(b, 3, 6, s, 0x06ca6351, 0x702138a4, 0xea992a22, 0x0109ab3a);
    s := Turned(b, 3, 7, s, 0x14292967, 0xd3b7973b, 0x73b33bf5, 0xba591112);
  }

  lemma Turns5(b: seq<Octet>)
    requires b == Block()
    ensures After(b, 40, State(0x79ea687a, 0x6dc57a8a, 0x34df1604, 0x41a65cb1,
                               0x1efbc0a0, 0xf0781bc8, 0xa507a53d, 0x0772a26b))
  {
    hide Block, Initial, Word, After;
    Words4(b);
    Turns4(b);
    var s := State(0x73b33bf5, 0xea992a22, 0xa0060b30, 0x363482c9, 0xba591112, 0x0109ab3a, 0xade79437, 0x6112a3b7);
    s := Turned(b, 4, 0, s, 0x27b70a85, 0x93f5997f, 0x98e12507, 0x9cd9f5f6);
    s := Turned(b, 4, 1, s, 0x2e1b2138, 0x3b68ba73, 0xfe604df5, 0x59249dd3);
    s := Turned(b, 4, 2, s, 0x4d2c6dfc, 0xaff4ffc1, 0xa9a7738c, 0x085f3833);
    s := Turned(b, 4, 3, s, 0x53380d13, 0xf10a5c62, 0x65a0cfe4, 0xf4b002d6);
    s := Turned(b, 4, 4, s, 0x650a7354, 0x0a8b3996, 0x41a65cb1, 0x0772a26b);
    s := Turned(b, 4, 5, s, 0x766a0abb, 0x72af830a, 0x34df1604, 0xa507a53d);
    s := Turned(b, 4, 6, s, 0x81c2c92e, 0x9409e33e, 0x6dc57a8a, 0xf0781bc8);
    s := Turned(b, 4, 7, s, 0x92722c85, 0x24641522, 0x79ea687a, 0x1efbc0a0);
  }

  lemma Turns6(b: seq<Octet>)
    requires b == Block()
    ensures After(b, 48, State(0x4172328d, 0xa14c14b0, 0x72ab4b91, 0x26628815,
                               0xfecf0bc6, 0xd57b94a9, 0xb7755da1, 0xa80f11f0))
  {
    hide Block, Initial, Word, After;
    Words5(b);
    Turns5(b);
    var s := State(0x79ea687a, 0x6dc57a8a, 0x34df1604, 0x41a65cb1, 0x1efbc0a0, 0xf0781bc8, 0xa507a53d, 0x0772a26b);
    s := Turned(b, 5, 0, s, 0xa2bfe8a1, 0x9f47bf94, 0xd6670766, 0x26352d63);
    s := Turned(b, 5, 1, s, 0xa81a664b, 0xf0a64f5a, 0xdf46652f, 0x838b2711);
    s := Turned(b, 5, 2, s, 0xc24b8b70, 0x3e246a79, 0x17aa0dfe, 0xdecd4715);
    s := Turned(b, 5, 3, s, 0xc76c51a3, 0x27333ba3, 0x9d4baf93, 0xfda24c2e);
    s := Turned(b, 5, 4, s, 0xd192e819, 0x0c4763f2, 0x26628815, 0xa80f11f0);
    s := Turned(b, 5, 5, s, 0xd6990624, 0x840abf27, 0x72ab4b91, 0xb7755da1);
    s := Turned(b, 5, 6, s, 0xf40e3585, 0x7a290d5d, 0xa14c14b0, 0xd57b94a9);
    s := Turned(b, 5, 7, s, 0x106aa070, 0x065c43da, 0x4172328d, 0xfecf0bc6);
  }

  lemma Turns7(b: seq<Octet>)
    requires b == Block()
    ensures After(b, 56, State(0x38cc9913, 0x3ec45cdb, 0xf5702fdb, 0x101fd28f,
                               0x54cb266b, 0xe50e1b4f, 0x9f4787c3, 0x529e7d00))
  {
    hide Block, Initial, Word, After;
    Words6(b);
    Turns6(b);
    var s := State(0x4172328d, 0xa14c14b0, 0x72ab4b91, 0x26628815, 0xfecf0bc6, 0xd57b94a9, 0xb7755da1, 0xa80f11f0);
    s := Turned(b, 6, 0, s, 0x19a4c116, 0xfb3e89cb, 0x05757ceb, 0xbd714038);
    s := Turned(b, 6, 1, s, 0x1e376c08, 0xcc7617db, 0xf11bfaa8, 0x6e5c390c);
    s := Turned(b, 6, 2, s, 0x2748774c, 0xb9e66c34, 0x7a0508a1, 0x52f1ccf7);
    s := Turned(b, 6, 3, s, 0x34b0bcb5, 0xa9993667, 0x886e7a22, 0x49231c1e);
    s := Turned(b, 6, 4, s, 0x391c0cb3, 0x84badedd, 0x101fd28f, 0x529e7d00);
    s := Turned(b, 6, 5, s, 0x4ed8aa4a, 0xc21462bc, 0xf5702fdb, 0x9f4787c3);
    s := Turned(b, 6, 6, s, 0x5b9cca4f, 0x1487472c, 0x3ec45cdb, 0xe50e1b4f);
    s := Turned(b, 6, 7, s, 0x682e6ff3, 0xb20f7a99, 0x38cc9913, 0x54cb266b);
  }

  lemma Turns8(b: seq<Octet>)
    requires b == Block()
    ensures After(b, 64, State(0x506e3058, 0xd39a2165, 0x04d24d6c, 0xb85e2ce9,
                               0x5ef50f24, 0xfb121210, 0x948d25b6, 0x961f4894))
  {
    hide Block, Initial, Word, After;
    Words7(b);
    Turns7(b);
    var s := State(0x38cc9913, 0x3ec45cdb, 0xf5702fdb, 0x101fd28f, 0x54cb266b, 0xe50e1b4f, 0x9f4787c3, 0x529e7d00);
    s := Turned(b, 7, 0, s, 0x748f82ee, 0xef57b9cd, 0xfcd1887b, 0x9b5e906c);
    s := Turned(b, 7, 1, s, 0x78a5636f, 0xebe6b238, 0xc062d46f, 0x7e44008e);
    s := Turned(b, 7, 2, s, 0x84c87814, 0x9fe3095e, 0xffb70472, 0x6d83bfc6);
    s := Turned(b, 7, 3, s, 0x8cc70208, 0x78bc8d4b, 0xb6ae8fff, 0xb21bad3d);
    s := Turned(b, 7, 4, s, 0x90befffa, 0xa43fcf15, 0xb85e2ce9, 0x961f4894);
    s := Turned(b, 7, 5, s, 0xa4506ceb, 0x668b2ff8, 0x04d24d6c, 0x948d25b6);
    s := Turned(b, 7, 6, s, 0xbef9a3f7, 0xeeaba2cc, 0xd39a2165, 0xfb121210);
    s := Turned(b, 7, 7, s, 0xc67178f2, 0x12b1edeb, 0x506e3058, 0x5ef50f24);
  }

  // ---- the digest ----

  const ABC: seq<Octet> := [0x61, 0x62, 0x63]

  lemma BigOf24()
    ensures Big(24) == ZeroOctets(7) + [24]
  {
  }

  lemma BitsOf3()
    ensures BitLength(3) == 24
  {
    var bits: int := 24;
    assert 3 * 8 % TWO64 == bits;
    assert bits as bv64 == 24;
  }

  lemma PaddedAbc()
    ensures Padded(ABC) == Block()
  {
    BigOf24();
    BitsOf3();
    hide Big, BitLength;
    assert Tail(3) == [0x80] + ZeroOctets(52) + (ZeroOctets(7) + [24]);
  }

  lemma DigestedAbc()
    ensures Digested(ABC).Words() == [0xba7816bf, 0x8f01cfea, 0x414140de, 0x5dae2223,
                                      0xb00361a3, 0x96177a9c, 0xb410ff61, 0xf20015ad]
  {
    hide Fold, Padded, Rounds, Schedule;
    PaddedAbc();
    FoldOne(Initial(), Block());
    Turns8(Block());
  }

  lemma OneWord(a: Octet, b: Octet, c: Octet, d: Octet, e: Octet, f: Octet, g: Octet, h: Octet)
    requires BigEndian(a, b, c, d) == BigEndian(e, f, g, h)
    ensures a == e && b == f && c == g && d == h
  {
  }

  /** The octets of word `i` of a digest, from those that spell it. */
  lemma Spelled(out: seq<Octet>, i: nat, o: seq<Octet>)
    requires 4 * i + 4 <= |out| && |o| == 4 && WordAt(out, i) == BigEndian(o[0], o[1], o[2], o[3])
    ensures out[4 * i..4 * i + 4] == o
  {
    hide BigEndian;
    OneWord(out[4 * i], out[4 * i + 1], out[4 * i + 2], out[4 * i + 3], o[0], o[1], o[2], o[3]);
  }

  lemma LowHalf(out: seq<Octet>)
    requires IsDigest(out, ABC)
    ensures out[0..16] == [0xba, 0x78, 0x16, 0xbf, 0x8f, 0x01, 0xcf, 0xea,
                          0x41, 0x41, 0x40, 0xde, 0x5d, 0xae, 0x22, 0x23]
  {
    hide Digested, WordAt;
    DigestedAbc();
    Spelled(out, 0, [0xba, 0x78, 0x16, 0xbf]);
    Spelled(out, 1, [0x8f, 0x01, 0xcf, 0xea]);
    Spelled(out, 2, [0x41, 0x41, 0x40, 0xde]);
    Spelled(out, 3, [0x5d, 0xae, 0x22, 0x23]);
    assert out[0..16] == out[0..4] + out[4..8] + out[8..12] + out[12..16];
  }

  lemma HighHalf(out: seq<Octet>)
    requires IsDigest(out, ABC)
    ensures out[16..32] == [0xb0, 0x03, 0x61, 0xa3, 0x96, 0x17, 0x7a, 0x9c,
                          0xb4, 0x10, 0xff, 0x61, 0xf2, 0x00, 0x15, 0xad]
  {
    hide Digested, WordAt;
    DigestedAbc();
    Spelled(out, 4, [0xb0, 0x03, 0x61, 0xa3]);
    Spelled(out, 5, [0x96, 0x17, 0x7a, 0x9c]);
    Spelled(out, 6, [0xb4, 0x10, 0xff, 0x61]);
    Spelled(out, 7, [0xf2, 0x00, 0x15, 0xad]);
    assert out[16..32] == out[16..20] + out[20..24] + out[24..28] + out[28..32];
  }

  /** The digest of "abc" is the one the standard gives. */
  lemma DigestOfAbc(out: seq<Octet>)
    requires IsDigest(out, ABC)
    ensures out == [0xba, 0x78, 0x16, 0xbf, 0x8f, 0x01, 0xcf, 0xea,
                    0x41, 0x41, 0x40, 0xde, 0x5d, 0xae, 0x22, 0x23,
                    0xb0, 0x03, 0x61, 0xa3, 0x96, 0x17, 0x7a, 0x9c,
                    0xb4, 0x10, 0xff, 0x61, 0xf2, 0x00, 0x15, 0xad]
  {
    hide Spells;
    LowHalf(out);
    HighHalf(out);
    assert out == out[0..16] + out[16..32];
  }
}
