/**
  A `u64` as the set of its bits: what the shifts and masks of
  crates/zu-query/src/recursive.rs come to, bit by bit.
 */
module Bits {

  const WORD := 64

  /** A bit's place in a word. */
  type Place = bv6

  function PlaceOf(i: nat): (k: Place)
    requires i < WORD
    ensures Index(k) == i
  { i as bv6 }

  function Index(k: Place): (i: nat)
    ensures i < WORD
  { k as nat }

  lemma PlaceOfIndex(k: Place)
    ensures PlaceOf(Index(k)) == k
  {
  }

  function Bit(k: Place): bv64 { 1 << k }

  predicate Meets(a: bv64, b: bv64) { a & b != 0 }

  predicate Has(m: bv64, k: Place) { Meets(m, Bit(k)) }

  lemma OneBit(k: Place, j: Place)
    ensures Has(Bit(k), j) <==> k == j
  {
  }

  lemma NoBits(k: Place)
    ensures !Has(0, k)
  {
  }

  lemma MeetsLeft(a: bv64, b: bv64, m: bv64)
    requires Meets(a, m)
    ensures Meets(a | b, m)
  {
  }

  lemma MeetsRight(a: bv64, b: bv64, m: bv64)
    requires Meets(b, m)
    ensures Meets(a | b, m)
  {
  }

  lemma MeetsNeither(a: bv64, b: bv64, m: bv64)
    requires !Meets(a, m) && !Meets(b, m)
    ensures !Meets(a | b, m)
  {
  }

  lemma OrBits(a: bv64, b: bv64, k: Place)
    ensures Has(a | b, k) <==> Has(a, k) || Has(b, k)
  {
    hide Bit, Meets;
    if Has(a, k) {
      MeetsLeft(a, b, Bit(k));
    } else if Has(b, k) {
      MeetsRight(a, b, Bit(k));
    } else {
      MeetsNeither(a, b, Bit(k));
    }
  }

  lemma Whole(m: bv64, k: Place)
    requires Has(m, k)
    ensures m & Bit(k) == Bit(k)
  {
  }

  lemma CutOut(a: bv64, b: bv64, m: bv64)
    requires b & m == m
    ensures !Meets(a & !b, m)
  {
  }

  lemma LeftIn(a: bv64, b: bv64, m: bv64)
    requires Meets(a, m) && !Meets(b, m)
    ensures Meets(a & !b, m)
  {
  }

  lemma NotThere(a: bv64, b: bv64, m: bv64)
    requires !Meets(a, m)
    ensures !Meets(a & !b, m)
  {
  }

  lemma AndNotBits(a: bv64, b: bv64, k: Place)
    ensures Has(a & !b, k) <==> Has(a, k) && !Has(b, k)
  {
    hide Bit, Meets;
    if Has(b, k) {
      Whole(b, k);
      CutOut(a, b, Bit(k));
    } else if Has(a, k) {
      LeftIn(a, b, Bit(k));
    } else {
      NotThere(a, b, Bit(k));
    }
  }

  /** A word with one bit more. */
  function With(m: bv64, k: Place): bv64 { m | Bit(k) }

  lemma WithBit(m: bv64, k: Place, j: Place)
    ensures Has(With(m, k), j) <==> Has(m, j) || j == k
  {
    hide Bit, Has;
    OrBits(m, Bit(k), j);
    OneBit(k, j);
  }

  function Union(a: bv64, b: bv64): bv64 { a | b }

  function Minus(a: bv64, b: bv64): bv64 { a & !b }

  lemma UnionBit(a: bv64, b: bv64, k: Place)
    ensures Has(Union(a, b), k) <==> Has(a, k) || Has(b, k)
  {
    hide Has;
    OrBits(a, b, k);
  }

  lemma MinusBit(a: bv64, b: bv64, k: Place)
    ensures Has(Minus(a, b), k) <==> Has(a, k) && !Has(b, k)
  {
    hide Has;
    AndNotBits(a, b, k);
  }

  // ---- the lowest bit ----

  /** No bit below `k`. */
  predicate Low(m: bv64, k: Place) { !Meets(m, Bit(k) - 1) }

  lemma LowStart(m: bv64)
    ensures Low(m, 0)
  {
  }

  lemma LowStep(m: bv64, k: Place)
    requires k < 63 && Low(m, k) && !Has(m, k)
    ensures Low(m, k + 1)
  {
  }

  lemma LowTop(m: bv64)
    requires Low(m, 63) && !Has(m, 63)
    ensures m == 0
  {
  }

  /** `m & (m - 1)` is `m` without its lowest bit. */
  lemma DropLowest(m: bv64, k: Place)
    requires Low(m, k) && Has(m, k)
    ensures m & (m - 1) == m & !Bit(k)
  {
  }

  /** `trailing_zeros`, from bit `k` on. */
  function LowestFrom(m: bv64, k: Place): (r: Place)
    requires Low(m, k) && m != 0
    ensures Low(m, r) && Has(m, r)
    decreases WORD - Index(k)
  {
    if Has(m, k) then k
    else if k == 63 then
      LowTop(m);
      k
    else
      LowStep(m, k);
      LowestFrom(m, k + 1)
  }

  function TrailingZeros(m: bv64): (r: Place)
    requires m != 0
    ensures Low(m, r) && Has(m, r)
  {
    LowStart(m);
    LowestFrom(m, 0)
  }

  /** A mask without its lowest bit. */
  function Rest(m: bv64): bv64
    requires m != 0
  { m & (m - 1) }

  lemma ClearsLowest(m: bv64, k: Place)
    requires m != 0
    ensures Has(Rest(m), k) <==> Has(m, k) && k != TrailingZeros(m)
  {
    hide Bit, Has, Low, TrailingZeros;
    var low := TrailingZeros(m);
    DropLowest(m, low);
    AndNotBits(m, Bit(low), k);
    OneBit(low, k);
  }

  lemma Beneath(j: Place, k: Place)
    requires j < k
    ensures Bit(j) & (Bit(k) - 1) == Bit(j)
  {
  }

  lemma MeetsMore(m: bv64, a: bv64, b: bv64)
    requires a & b == a && Meets(m, a)
    ensures Meets(m, b)
  {
  }

  lemma LowBound(m: bv64, k: Place, j: Place)
    requires Low(m, k) && Has(m, j)
    ensures Index(k) <= Index(j)
  {
    hide Bit, Meets;
    if j < k {
      Beneath(j, k);
      MeetsMore(m, Bit(j), Bit(k) - 1);
    }
  }

  /** How many places a mask's bits can still be at. */
  function Room(m: bv64): nat { if m == 0 then 0 else WORD - Index(TrailingZeros(m)) }

  lemma RestShrinks(m: bv64)
    requires m != 0
    ensures Room(Rest(m)) < Room(m)
  {
    hide Has, Low, TrailingZeros, Rest;
    var rest := Rest(m);
    if rest != 0 {
      var next := TrailingZeros(rest);
      ClearsLowest(m, next);
      LowBound(m, TrailingZeros(m), next);
      PlaceOfIndex(next);
      PlaceOfIndex(TrailingZeros(m));
    }
  }

  lemma SomeBit(m: bv64)
    ensures m != 0 <==> exists k :: Has(m, k)
  {
    hide Has, Low, TrailingZeros;
    if m != 0 {
      assert Has(m, TrailingZeros(m));
    } else {
      forall k: Place
        ensures !Has(m, k)
      {
        NoBits(k);
      }
    }
  }

  // ---- a bitmap ----

  /** Where a node's bit is in its word. */
  function PlaceIn(node: nat): Place { PlaceOf(node % WORD) }

  /** Whether a node's bit is set in the words of a bitmap. */
  predicate Marked(words: seq<bv64>, node: nat) {
    node / WORD < |words| && Has(words[node / WORD], PlaceIn(node))
  }

  lemma OneWord(u: nat, v: nat)
    ensures u == v <==> u / WORD == v / WORD && PlaceIn(u) == PlaceIn(v)
  {
    hide PlaceOf;
  }

  /** Setting one node's bit. */
  lemma MarkOne(words: seq<bv64>, node: nat, u: nat)
    requires node / WORD < |words|
    ensures Marked(words[node / WORD := With(words[node / WORD], PlaceIn(node))], u) <==> Marked(words, u) || u == node
  {
    hide Has, With, PlaceIn;
    WithBit(words[node / WORD], PlaceIn(node), PlaceIn(u));
    OneWord(u, node);
  }
}
