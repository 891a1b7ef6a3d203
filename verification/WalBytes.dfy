/**
  A log on disk, byte by byte: numbers with their lowest byte first, a frame about its
  body, and a body of every kind.
 */
module WalBytes {
  import opened Common
  import opened WalRecord
  import opened WalFrames

  /** Byte `i` of a number counts its 256 to the power `i`. */
  lemma {:induction false} LePlaces(n: nat, w: nat, i: nat)
    requires i < w
    ensures Le(n, w)[i] == n / Pow256(i) % 256
  {
    if i > 0 {
      LePlaces(n / 256, w - 1, i - 1);
      assert Le(n, w)[i] == Le(n / 256, w - 1)[i - 1];
      DivideTwice(n, 256, Pow256(i - 1));
    }
  }

  lemma DivideTwice(n: nat, a: nat, b: nat)
    requires a > 0 && b > 0
    ensures n / a / b == n / (a * b)
  {
    var q, r, s := n / a / b, n / a % b, n % a;
    assert n == (n / a) * a + s && n / a == q * b + r;
    assert n == q * (a * b) + (r * a + s) by {
      assert (q * b + r) * a == q * (a * b) + r * a;
    }
    assert r * a + s < a * b by {
      assert r <= b - 1;
      Times(r, b - 1, a);
      assert (b - 1) * a == a * b - a;
    }
    assert 0 <= r * a;
    Quotient(n, a * b, q, r * a + s);
  }

  // ---- masks ----

  predicate BitSet(n: nat, k: nat) { n / Pow2(k) % 2 == 1 }

  function Pow2(k: nat): (p: nat)
    ensures p > 0
  { if k == 0 then 1 else 2 * Pow2(k - 1) }

  lemma NextBit(n: nat, k: nat)
    ensures BitSet(n, k + 1) <==> BitSet(n / 2, k)
  {
    DivideTwice(n, 2, Pow2(k));
  }

  lemma NoBits(k: nat)
    ensures !BitSet(0, k)
  {
    Quotient(0, Pow2(k), 0, 0);
  }

  /** Two masks share when some bit is set in both. */
  lemma {:induction false} ShareIff(a: nat, b: nat)
    ensures Share(a, b) <==> exists k :: BitSet(a, k) && BitSet(b, k)
    decreases a
  {
    hide BitSet;
    if a == 0 || b == 0 {
      forall k: nat ensures !(BitSet(a, k) && BitSet(b, k)) { NoBits(k); }
    } else {
      LowBit(a); LowBit(b);
      ShareIff(a / 2, b / 2);
      if Share(a / 2, b / 2) {
        var k: nat :| BitSet(a / 2, k) && BitSet(b / 2, k);
        NextBit(a, k); NextBit(b, k);
      }
      if k: nat :| BitSet(a, k) && BitSet(b, k) {
        if k > 0 { NextBit(a, k - 1); NextBit(b, k - 1); }
      }
    }
  }

  lemma LowBit(n: nat)
    ensures BitSet(n, 0) <==> n % 2 == 1
  {
    Quotient(n, 1, n, 0);
  }

  // ---- bodies ----

  function Four(b: Byte): Bytes { [b, 0, 0, 0] }

  function Eight(b: Byte): Bytes { [b, 0, 0, 0, 0, 0, 0, 0] }

  lemma {:induction false} ZeroLe(w: nat)
    ensures Le(0, w) == Zeros(w)
  {
    if w > 0 { ZeroLe(w - 1); }
  }

  lemma SmallLe(b: Byte)
    ensures Le(b, 4) == Four(b) && Le(b, 8) == Eight(b)
  {
    ZeroLe(3);
    ZeroLe(7);
    assert b / 256 == 0;
  }

  lemma OneNum(b: Byte)
    ensures Nums([b]) == Eight(b) && Nums([]) == []
  {
    SmallLe(b);
    assert [b][1..] == [];
  }

  lemma OneRun(s: Bytes)
    requires |s| < 256
    ensures Runs([s]) == Four(|s|) + s
  {
    SmallLe(|s|);
    assert [s][1..] == [];
  }

  lemma OneColumn(c: Column)
    ensures ColumnsText([c]) == c.Text()
  {
    hide Column.Text;
    assert [c][1..] == [] && ColumnsText([]) == [];
  }

  /** A transaction's ends and a checkpoint's note are an epoch and a kind. */
  lemma Marks(e: Byte)
    ensures BodyOf(Entry(e, TxnBegin)) == Eight(e) + [1]
    ensures BodyOf(Entry(e, TxnCommit)) == Eight(e) + [7]
    ensures BodyOf(Entry(e, CheckpointNote)) == Eight(e) + [9]
  {
    SmallLe(e);
    hide Le;
  }

  /** Rows of a table: inserted with a column of one integer and one of one string, deleted, and referred to. */
  lemma Rows(e: Byte, t: Byte, c: Byte, n: Byte, d: Byte, s: Bytes)
    requires |s| < 256
    ensures BodyOf(Entry(e, NodeInsert(t, [Column(c, Ints([n]))])))
         == Eight(e) + [2] + (Four(t) + (Four(1) + (Four(c) + ([0] + (Four(1) + Eight(n))))))
    ensures BodyOf(Entry(e, NodeInsert(t, [Column(d, Strs([s]))])))
         == Eight(e) + [2] + (Four(t) + (Four(1) + (Four(d) + ([1] + (Four(1) + (Four(|s|) + s))))))
    ensures BodyOf(Entry(e, NodeInsert(t, [Column(c, Nulls(n))])))
         == Eight(e) + [2] + (Four(t) + (Four(1) + (Four(c) + ([2] + (Four(n) + [])))))
    ensures BodyOf(Entry(e, Delete(t, [n]))) == Eight(e) + [5] + (Four(t) + (Four(1) + Eight(n)))
    ensures BodyOf(Entry(e, IngestRef(t, [n]))) == Eight(e) + [8] + (Four(t) + (Four(1) + Eight(n)))
  {
    SmallLe(e); SmallLe(t); SmallLe(1); SmallLe(c); SmallLe(d); SmallLe(n);
    OneNum(n); OneRun(s);
    OneColumn(Column(c, Ints([n]))); OneColumn(Column(d, Strs([s]))); OneColumn(Column(c, Nulls(n)));
    hide Le, Nums, Runs, ColumnsText, Four, Eight;
  }

  /** Edges are named by both their ends, all the sources before all the targets. */
  lemma Edges(e: Byte, r: Byte, a: Byte, b: Byte, c: Byte, n: Byte)
    ensures BodyOf(Entry(e, RelInsert(r, [a], [b], [Column(c, Ints([n]))])))
         == Eight(e) + [3] + (Four(r) + ((Four(1) + (Eight(a) + Eight(b)))
                                       + (Four(1) + (Four(c) + ([0] + (Four(1) + Eight(n)))))))
    ensures BodyOf(Entry(e, RelDelete(r, [a], [b]))) == Eight(e) + [10] + (Four(r) + (Four(1) + (Eight(a) + Eight(b))))
    ensures BodyOf(Entry(e, RelUpdate(r, c, [a], [b], Ints([n]))))
         == Eight(e) + [11] + (Four(r) + (Four(c) + ((Four(1) + (Eight(a) + Eight(b))) + ([0] + (Four(1) + Eight(n))))))
  {
    SmallLe(e); SmallLe(r); SmallLe(1); SmallLe(c);
    OneNum(a); OneNum(b); OneNum(n);
    OneColumn(Column(c, Ints([n])));
    hide Le, Nums, ColumnsText, Four, Eight;
  }

  /** Cells by their group, column and offsets; labels by the two masks; a catalogue by its bytes. */
  lemma Changes(e: Byte, t: Byte, g: Byte, c: Byte, o: Byte, n: Byte, delta: Bytes)
    ensures BodyOf(Entry(e, Update(t, g, c, [o], Ints([n]))))
         == Eight(e) + [4] + (Four(t) + (Eight(g) + (Four(c) + ((Four(1) + Eight(o)) + ([0] + (Four(1) + Eight(n)))))))
    ensures BodyOf(Entry(e, LabelUpdate(t, [o], n, g)))
         == Eight(e) + [12] + (Four(t) + (Eight(n) + (Eight(g) + (Four(1) + Eight(o)))))
    ensures BodyOf(Entry(e, DdlCatalog(delta))) == Eight(e) + [6] + delta
  {
    SmallLe(e); SmallLe(t); SmallLe(g); SmallLe(c); SmallLe(1); SmallLe(n);
    OneNum(o); OneNum(n);
    hide Le, Nums, Four, Eight;
  }

  /** A frame is the length of its body, then the checksum of it, then the body. */
  lemma Framed(body: Bytes, crc: Crc)
    requires |body| < 256 && crc(body) < 256
    ensures Frame(body, crc) == Four(|body|) + Four(crc(body)) + body
  {
    SmallLe(|body|);
    SmallLe(crc(body));
  }
}
