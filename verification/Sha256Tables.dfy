/**
  That the tables of SHA-256 are the standard's: the constants of section 4.2.2 of FIPS
  180-4 are fractions of the cube roots of the first 64 primes, those of section 5.3.3 of
  the square roots of the first eight, and `Ch` and `Maj` are what their names say.
 */
module Sha256Tables {
  import opened Common
  import opened Sha256

  // ---- the first 64 primes ----

  const BEYOND := 312

  predicate Prime(n: nat) { n >= 2 && forall d :: 2 <= d < n ==> n % d != 0 }

  predicate Ascending(p: seq<nat>) { forall i, j :: 0 <= i < j < |p| ==> p[i] < p[j] }

  function PrimeRow(r: nat): (p: seq<nat>)
    requires r < 8
    ensures |p| == 8
  {
    if r == 0 then [2, 3, 5, 7, 11, 13, 17, 19]
    else if r == 1 then [23, 29, 31, 37, 41, 43, 47, 53]
    else if r == 2 then [59, 61, 67, 71, 73, 79, 83, 89]
    else if r == 3 then [97, 101, 103, 107, 109, 113, 127, 131]
    else if r == 4 then [137, 139, 149, 151, 157, 163, 167, 173]
    else if r == 5 then [179, 181, 191, 193, 197, 199, 211, 223]
    else if r == 6 then [227, 229, 233, 239, 241, 251, 257, 263]
    else [269, 271, 277, 281, 283, 293, 307, 311]
  }

  function Primes(): (p: seq<nat>)
    ensures |p| == 64
  {
    PrimeRow(0) + PrimeRow(1) + PrimeRow(2) + PrimeRow(3) + PrimeRow(4) + PrimeRow(5) + PrimeRow(6) + PrimeRow(7)
  }

  /** Told by the primes whose squares are below 361. */
  predicate Sifted(n: nat) {
    (n == 2 || n % 2 != 0) && (n == 3 || n % 3 != 0) && (n == 5 || n % 5 != 0) && (n == 7 || n % 7 != 0)
    && (n == 11 || n % 11 != 0) && (n == 13 || n % 13 != 0) && (n == 17 || n % 17 != 0)
  }

  lemma DividesThrough(n: nat, d: nat, a: nat)
    requires d > 0 && a > 0 && n % d == 0 && d % a == 0
    ensures n % a == 0
  {
    assert n == (n / d) * ((d / a) * a) == ((n / d) * (d / a)) * a;
    Quotient(n, a, (n / d) * (d / a), 0);
  }

  lemma SmallDivides(n: nat, d: nat)
    requires 2 <= d <= 18 && d < n && n % d == 0
    ensures !Sifted(n)
  {
    var a := if d % 2 == 0 then 2 else if d % 3 == 0 then 3 else d;
    DividesThrough(n, d, a);
    assert a in [2, 3, 5, 7, 11, 13, 17];
  }

  lemma Cofactor(n: nat, d: nat)
    requires 19 <= d < n < 361 && n % d == 0
    ensures 2 <= n / d <= 18 && n % (n / d) == 0
  {
    var q := n / d;
    assert n == q * d;
    if q >= 19 {
      Times(19, q, 19);
      Times(19, d, q);
    }
    assert q != 0 && q != 1;
    Quotient(n, q, d, 0);
  }

  lemma SiftedIff(n: nat)
    requires 2 <= n < 361
    ensures Prime(n) <==> Sifted(n)
  {
    if Sifted(n) {
      forall d | 2 <= d < n ensures n % d != 0 {
        if n % d == 0 {
          if d >= 19 { Cofactor(n, d); }
          SmallDivides(n, if d >= 19 then n / d else d);
        }
      }
    }
  }

  /** All that sifting leaves below a bound, in order. */
  ghost predicate AllSifted(p: seq<nat>, hi: nat) {
    Ascending(p) && forall n: nat :: n in p <==> 2 <= n < hi && Sifted(n)
  }

  predicate NoneSifted(lo: nat, hi: nat)
    decreases hi - lo
  {
    lo >= hi || (!Sifted(lo) && NoneSifted(lo + 1, hi))
  }

  lemma {:induction false} NoneBetween(lo: nat, hi: nat)
    requires NoneSifted(lo, hi)
    ensures forall n :: lo <= n < hi ==> !Sifted(n)
    decreases hi - lo
  {
    hide Sifted;
    if lo < hi { NoneBetween(lo + 1, hi); }
  }

  /** Nothing but `q` is left by sifting what lies past `p`, up to `q`. */
  predicate Gap(p: nat, q: nat) { p < q && Sifted(q) && NoneSifted(p + 1, q) }

  lemma GapGrows(p: nat, q: nat)
    requires Gap(p, q)
    ensures p < q
  {
  }

  lemma OneMore(p: seq<nat>, last: nat, q: nat)
    requires AllSifted(p, last + 1) && 1 <= last && Gap(last, q)
    ensures AllSifted(p + [q], q + 1)
  {
    hide Sifted, NoneSifted;
    NoneBetween(last + 1, q);
    var r := p + [q];
    assert forall i :: 0 <= i < |p| ==> p[i] in p;
    forall n: nat ensures n in r <==> 2 <= n < q + 1 && Sifted(n) {
      assert n in r <==> n in p || n == q;
    }
  }

  /** From one number to the next in a list, only they are left by sifting. */
  predicate Steps(last: nat, p: seq<nat>) { forall t :: 0 <= t < |p| ==> Gap(Before(last, p, t), p[t]) }

  function Before(last: nat, p: seq<nat>, t: nat): nat
    requires t <= |p|
  { if t == 0 then last else p[t - 1] }

  lemma StepsMore(last: nat, p: seq<nat>, q: seq<nat>)
    requires p != [] && Steps(last, p) && Steps(p[|p| - 1], q)
    ensures Steps(last, p + q)
  {
    hide Gap;
    var r := p + q;
    forall t | 0 <= t < |r| ensures Gap(Before(last, r, t), r[t]) {
      if t >= |p| {
        assert Before(last, r, t) == Before(p[|p| - 1], q, t - |p|);
      } else {
        assert Before(last, r, t) == Before(last, p, t);
      }
    }
  }

  lemma NothingYet()
    ensures AllSifted([], 2)
  {
  }

  lemma {:induction false} StepsSift(p: seq<nat>)
    requires Steps(1, p) && p != []
    ensures p[|p| - 1] >= 2 && AllSifted(p, p[|p| - 1] + 1)
  {
    hide Gap, AllSifted;
    var t := |p| - 1;
    var front := p[..t];
    assert Gap(Before(1, p, t), p[t]);
    GapGrows(Before(1, p, t), p[t]);
    assert p == front + [p[t]];
    if t == 0 {
      NothingYet();
      OneMore([], 1, p[0]);
      assert p == [] + [p[0]];
    } else {
      assert forall k :: 0 <= k < t ==> Before(1, front, k) == Before(1, p, k) && front[k] == p[k];
      StepsSift(front);
      OneMore(front, p[t - 1], p[t]);
    }
  }

  lemma Gaps1()
    ensures Gap(1, 2) && Gap(2, 3) && Gap(3, 5) && Gap(5, 7)
    ensures Gap(7, 11) && Gap(11, 13) && Gap(13, 17) && Gap(17, 19)
  {
  }

  lemma Steps1()
    ensures Steps(1, PrimeRow(0)) && PrimeRow(0)[7] == 19
  {
    hide Gap;
    Gaps1();
  }

  lemma Gaps2()
    ensures Gap(19, 23) && Gap(23, 29) && Gap(29, 31) && Gap(31, 37)
    ensures Gap(37, 41) && Gap(41, 43) && Gap(43, 47) && Gap(47, 53)
  {
  }

  lemma Steps2()
    ensures Steps(19, PrimeRow(1)) && PrimeRow(1)[7] == 53
  {
    hide Gap;
    Gaps2();
  }

  lemma Gaps3()
    ensures Gap(53, 59) && Gap(59, 61) && Gap(61, 67) && Gap(67, 71)
    ensures Gap(71, 73) && Gap(73, 79) && Gap(79, 83) && Gap(83, 89)
  {
  }

  lemma Steps3()
    ensures Steps(53, PrimeRow(2)) && PrimeRow(2)[7] == 89
  {
    hide Gap;
    Gaps3();
  }

  lemma Gaps4()
    ensures Gap(89, 97) && Gap(97, 101) && Gap(101, 103) && Gap(103, 107)
    ensures Gap(107, 109) && Gap(109, 113) && Gap(113, 127) && Gap(127, 131)
  {
  }

  lemma Steps4()
    ensures Steps(89, PrimeRow(3)) && PrimeRow(3)[7] == 131
  {
    hide Gap;
    Gaps4();
  }

  lemma Gaps5()
    ensures Gap(131, 137) && Gap(137, 139) && Gap(139, 149) && Gap(149, 151)
    ensures Gap(151, 157) && Gap(157, 163) && Gap(163, 167) && Gap(167, 173)
  {
  }

  lemma Steps5()
    ensures Steps(131, PrimeRow(4)) && PrimeRow(4)[7] == 173
  {
    hide Gap;
    Gaps5();
  }

  lemma Gaps6()
    ensures Gap(173, 179) && Gap(179, 181) && Gap(181, 191) && Gap(191, 193)
    ensures Gap(193, 197) && Gap(197, 199) && Gap(199, 211) && Gap(211, 223)
  {
  }

  lemma Steps6()
    ensures Steps(173, PrimeRow(5)) && PrimeRow(5)[7] == 223
  {
    hide Gap;
    Gaps6();
  }

  lemma Gaps7()
    ensures Gap(223, 227) && Gap(227, 229) && Gap(229, 233) && Gap(233, 239)
    ensures Gap(239, 241) && Gap(241, 251) && Gap(251, 257) && Gap(257, 263)
  {
  }

  lemma Steps7()
    ensures Steps(223, PrimeRow(6)) && PrimeRow(6)[7] == 263
  {
    hide Gap;
    Gaps7();
  }

  lemma Gaps8()
    ensures Gap(263, 269) && Gap(269, 271) && Gap(271, 277) && Gap(277, 281)
    ensures Gap(281, 283) && Gap(283, 293) && Gap(293, 307) && Gap(307, 311)
  {
  }

  lemma Steps8()
    ensures Steps(263, PrimeRow(7)) && PrimeRow(7)[7] == 311
  {
    hide Gap;
    Gaps8();
  }

  lemma PrimesStep()
    ensures Steps(1, Primes()) && Primes()[63] == 311
  {
    hide Steps, PrimeRow;
    var p := PrimeRow(0);
    Steps1();
    Steps2(); StepsMore(1, p, PrimeRow(1)); p := p + PrimeRow(1);
    Steps3(); StepsMore(1, p, PrimeRow(2)); p := p + PrimeRow(2);
    Steps4(); StepsMore(1, p, PrimeRow(3)); p := p + PrimeRow(3);
    Steps5(); StepsMore(1, p, PrimeRow(4)); p := p + PrimeRow(4);
    Steps6(); StepsMore(1, p, PrimeRow(5)); p := p + PrimeRow(5);
    Steps7(); StepsMore(1, p, PrimeRow(6)); p := p + PrimeRow(6);
    Steps8(); StepsMore(1, p, PrimeRow(7)); p := p + PrimeRow(7);
  }

  /** The table is all primes below 312, in order. */
  lemma PrimesAreFirst()
    ensures Ascending(Primes())
    ensures forall n: nat :: n in Primes() <==> n < BEYOND && Prime(n)
  {
    hide Primes, Prime, Sifted, Steps;
    PrimesStep();
    StepsSift(Primes());
    forall n: nat | n < BEYOND ensures n in Primes() <==> Prime(n) {
      if n >= 2 { SiftedIff(n); } else { NoPrime(n); }
    }
  }

  lemma NoPrime(n: nat)
    requires n < 2
    ensures !Prime(n)
  {
  }

  // ---- the constants ----

  function Number(w: Word): nat { w as nat }

  /** `k` is the first 32 bits of the fraction of the cube root of `p`, whose integer part is `c`. */
  predicate CubeFraction(p: nat, c: nat, k: nat) {
    var x := c * 0x1_0000_0000 + k;
    x * x * x <= p * 0x1_0000_0000_0000_0000_0000_0000 < (x + 1) * (x + 1) * (x + 1)
  }

  /** The same of the square root. */
  predicate SquareFraction(p: nat, c: nat, k: nat) {
    var x := c * 0x1_0000_0000 + k;
    x * x <= p * 0x1_0000_0000_0000_0000 < (x + 1) * (x + 1)
  }

  ghost predicate OfCubeRoot(p: nat, w: Word) { exists c :: CubeFraction(p, c, Number(w)) }

  ghost predicate OfSquareRoot(p: nat, w: Word) { exists c :: SquareFraction(p, c, Number(w)) }

  ghost predicate OfCubeRoots(p: seq<nat>, k: seq<Word>) {
    |p| == |k| && forall t :: 0 <= t < |p| ==> OfCubeRoot(p[t], k[t])
  }

  ghost predicate OfSquareRoots(p: seq<nat>, k: seq<Word>) {
    |p| == |k| && forall t :: 0 <= t < |p| ==> OfSquareRoot(p[t], k[t])
  }

  lemma Cubed(p: nat, c: nat, w: Word, k: nat)
    requires Number(w) == k && CubeFraction(p, c, k)
    ensures OfCubeRoot(p, w)
  {
  }

  lemma Squared(p: nat, c: nat, w: Word, k: nat)
    requires Number(w) == k && SquareFraction(p, c, k)
    ensures OfSquareRoot(p, w)
  {
  }

  lemma Cubes1()
    ensures OfCubeRoots(PrimeRow(0), KRow(0))
  {
    hide OfCubeRoot;
    Cubed(2, 1, 0x428a2f98, 0x428a2f98);
    Cubed(3, 1, 0x71374491, 0x71374491);
    Cubed(5, 1, 0xb5c0fbcf, 0xb5c0fbcf);
    Cubed(7, 1, 0xe9b5dba5, 0xe9b5dba5);
    Cubed(11, 2, 0x3956c25b, 0x3956c25b);
    Cubed(13, 2, 0x59f111f1, 0x59f111f1);
    Cubed(17, 2, 0x923f82a4, 0x923f82a4);
    Cubed(19, 2, 0xab1c5ed5, 0xab1c5ed5);
  }

  lemma Cubes2()
    ensures OfCubeRoots(PrimeRow(1), KRow(1))
  {
    hide OfCubeRoot;
    Cubed(23, 2, 0xd807aa98, 0xd807aa98);
    Cubed(29, 3, 0x12835b01, 0x12835b01);
    Cubed(31, 3, 0x243185be, 0x243185be);
    Cubed(37, 3, 0x550c7dc3, 0x550c7dc3);
    Cubed(41, 3, 0x72be5d74, 0x72be5d74);
    Cubed(43, 3, 0x80deb1fe, 0x80deb1fe);
    Cubed(47, 3, 0x9bdc06a7, 0x9bdc06a7);
    Cubed(53, 3, 0xc19bf174, 0xc19bf174);
  }

  lemma Cubes3()
    ensures OfCubeRoots(PrimeRow(2), KRow(2))
  {
    hide OfCubeRoot;
    Cubed(59, 3, 0xe49b69c1, 0xe49b69c1);
    Cubed(61, 3, 0xefbe4786, 0xefbe4786);
    Cubed(67, 4, 0x0fc19dc6, 0x0fc19dc6);
    Cubed(71, 4, 0x240ca1cc, 0x240ca1cc);
    Cubed(73, 4, 0x2de92c6f, 0x2de92c6f);
    Cubed(79, 4, 0x4a7484aa, 0x4a7484aa);
    Cubed(83, 4, 0x5cb0a9dc, 0x5cb0a9dc);
    Cubed(89, 4, 0x76f988da, 0x76f988da);
  }

  lemma Cubes4()
    ensures OfCubeRoots(PrimeRow(3), KRow(3))
  {
    hide OfCubeRoot;
    Cubed(97, 4, 0x983e5152, 0x983e5152);
    Cubed(101, 4, 0xa831c66d, 0xa831c66d);
    Cubed(103, 4, 0xb00327c8, 0xb00327c8);
    Cubed(107, 4, 0xbf597fc7, 0xbf597fc7);
    Cubed(109, 4, 0xc6e00bf3, 0xc6e00bf3);
    Cubed(113, 4, 0xd5a79147, 0xd5a79147);
    Cubed(127, 5, 0x06ca6351, 0x06ca6351);
    Cubed(131, 5, 0x14292967, 0x14292967);
  }

  lemma Cubes5()
    ensures OfCubeRoots(PrimeRow(4), KRow(4))
  {
    hide OfCubeRoot;
    Cubed(137, 5, 0x27b70a85, 0x27b70a85);
    Cubed(139, 5, 0x2e1b2138, 0x2e1b2138);
    Cubed(149, 5, 0x4d2c6dfc, 0x4d2c6dfc);
    Cubed(151, 5, 0x53380d13, 0x53380d13);
    Cubed(157, 5, 0x650a7354, 0x650a7354);
    Cubed(163, 5, 0x766a0abb, 0x766a0abb);
    Cubed(167, 5, 0x81c2c92e, 0x81c2c92e);
    Cubed(173, 5, 0x92722c85, 0x92722c85);
  }

  lemma Cubes6()
    ensures OfCubeRoots(PrimeRow(5), KRow(5))
  {
    hide OfCubeRoot;
    Cubed(179, 5, 0xa2bfe8a1, 0xa2bfe8a1);
    Cubed(181, 5, 0xa81a664b, 0xa81a664b);
    Cubed(191, 5, 0xc24b8b70, 0xc24b8b70);
    Cubed(193, 5, 0xc76c51a3, 0xc76c51a3);
    Cubed(197, 5, 0xd192e819, 0xd192e819);
    Cubed(199, 5, 0xd6990624, 0xd6990624);
    Cubed(211, 5, 0xf40e3585, 0xf40e3585);
    Cubed(223, 6, 0x106aa070, 0x106aa070);
  }

  lemma Cubes7()
    ensures OfCubeRoots(PrimeRow(6), KRow(6))
  {
    hide OfCubeRoot;
    Cubed(227, 6, 0x19a4c116, 0x19a4c116);
    Cubed(229, 6, 0x1e376c08, 0x1e376c08);
    Cubed(233, 6, 0x2748774c, 0x2748774c);
    Cubed(239, 6, 0x34b0bcb5, 0x34b0bcb5);
    Cubed(241, 6, 0x391c0cb3, 0x391c0cb3);
    Cubed(251, 6, 0x4ed8aa4a, 0x4ed8aa4a);
    Cubed(257, 6, 0x5b9cca4f, 0x5b9cca4f);
    Cubed(263, 6, 0x682e6ff3, 0x682e6ff3);
  }

  lemma Cubes8()
    ensures OfCubeRoots(PrimeRow(7), KRow(7))
  {
    hide OfCubeRoot;
    Cubed(269, 6, 0x748f82ee, 0x748f82ee);
    Cubed(271, 6, 0x78a5636f, 0x78a5636f);
    Cubed(277, 6, 0x84c87814, 0x84c87814);
    Cubed(281, 6, 0x8cc70208, 0x8cc70208);
    Cubed(283, 6, 0x90befffa, 0x90befffa);
    Cubed(293, 6, 0xa4506ceb, 0xa4506ceb);
    Cubed(307, 6, 0xbef9a3f7, 0xbef9a3f7);
    Cubed(311, 6, 0xc67178f2, 0xc67178f2);
  }

  lemma CubesMore(p: seq<nat>, k: seq<Word>, q: seq<nat>, l: seq<Word>)
    requires OfCubeRoots(p, k) && OfCubeRoots(q, l)
    ensures OfCubeRoots(p + q, k + l)
  {
    hide OfCubeRoot;
  }

  /** The constants of section 4.2.2 are of the cube roots of the first 64 primes. */
  lemma ConstantsAreCubeRoots()
    ensures OfCubeRoots(Primes(), K())
  {
    hide OfCubeRoots, PrimeRow, KRow;
    var p, k := PrimeRow(0), KRow(0);
    Cubes1();
    Cubes2(); CubesMore(p, k, PrimeRow(1), KRow(1)); p, k := p + PrimeRow(1), k + KRow(1);
    Cubes3(); CubesMore(p, k, PrimeRow(2), KRow(2)); p, k := p + PrimeRow(2), k + KRow(2);
    Cubes4(); CubesMore(p, k, PrimeRow(3), KRow(3)); p, k := p + PrimeRow(3), k + KRow(3);
    Cubes5(); CubesMore(p, k, PrimeRow(4), KRow(4)); p, k := p + PrimeRow(4), k + KRow(4);
    Cubes6(); CubesMore(p, k, PrimeRow(5), KRow(5)); p, k := p + PrimeRow(5), k + KRow(5);
    Cubes7(); CubesMore(p, k, PrimeRow(6), KRow(6)); p, k := p + PrimeRow(6), k + KRow(6);
    Cubes8(); CubesMore(p, k, PrimeRow(7), KRow(7)); p, k := p + PrimeRow(7), k + KRow(7);
  }

  /** The words of section 5.3.3 are of the square roots of the first eight. */
  lemma StartsAreSquareRoots()
    ensures OfSquareRoots(Primes()[..8], Initial().Words())
  {
    hide OfSquareRoot;
    Squared(2, 1, 0x6a09e667, 0x6a09e667);
    Squared(3, 1, 0xbb67ae85, 0xbb67ae85);
    Squared(5, 2, 0x3c6ef372, 0x3c6ef372);
    Squared(7, 2, 0xa54ff53a, 0xa54ff53a);
    Squared(11, 3, 0x510e527f, 0x510e527f);
    Squared(13, 3, 0x9b05688c, 0x9b05688c);
    Squared(17, 4, 0x1f83d9ab, 0x1f83d9ab);
    Squared(19, 4, 0x5be0cd19, 0x5be0cd19);
    assert Primes()[..8] == PrimeRow(0) by { hide PrimeRow; }
  }

  // ---- bit by bit ----

  /** `Ch` is a choice: at all bits that the first word has it is the second, and at any it has not the third. */
  lemma ChChooses(x: Word, y: Word, z: Word, bits: Word)
    ensures x & bits == bits ==> Ch(x, y, z) & bits == y & bits
    ensures x & bits == 0 ==> Ch(x, y, z) & bits == z & bits
  {
  }

  /** `Maj` is a vote: at all bits where two of the words agree it is what they are. */
  lemma MajAgrees(x: Word, y: Word, z: Word, bits: Word)
    ensures x & bits == y & bits ==> Maj(x, y, z) & bits == x & bits
    ensures x & bits == z & bits || y & bits == z & bits ==> Maj(x, y, z) & bits == z & bits
  {
  }
}
