/**
  The adjacency of crates/zu-query/src/csr.rs: edges sorted once, parallel ones
  dropped, and the offsets laid out in one pass; and its reversal.
 */
module Csr {

  type Edge = (nat, nat)

  predicate Before(a: Edge, b: Edge) { a.0 < b.0 || (a.0 == b.0 && a.1 < b.1) }

  predicate InRange(n: nat, edges: seq<Edge>) {
    forall i :: 0 <= i < |edges| ==> edges[i].0 < n && edges[i].1 < n
  }

  predicate Ascending(s: seq<nat>) { forall i, j :: 0 <= i < j < |s| ==> s[i] < s[j] }

  predicate AllBelow(s: seq<nat>, n: nat) { forall i :: 0 <= i < |s| ==> s[i] < n }

  datatype Csr = Csr(offsets: seq<nat>, neighbors: seq<nat>) {
    predicate Valid() {
      |offsets| > 0 && offsets[0] == 0 && offsets[|offsets| - 1] == |neighbors| &&
      (forall i, j :: 0 <= i <= j < |offsets| ==> offsets[i] <= offsets[j]) &&
      (forall k :: 0 <= k < |neighbors| ==> neighbors[k] < |offsets| - 1)
    }

    function Nodes(): nat
      requires Valid()
    { |offsets| - 1 }

    function Neighbors(v: nat): (r: seq<nat>)
      requires Valid() && v < Nodes()
      ensures AllBelow(r, Nodes())
    { neighbors[offsets[v]..offsets[v + 1]] }

    predicate Joins(v: nat, w: nat)
      requires Valid()
    { v < Nodes() && w in Neighbors(v) }

    /** Every list in order and without repeats. */
    predicate Ordered()
      requires Valid()
    { forall v :: 0 <= v < Nodes() ==> Ascending(Neighbors(v)) }
  }

  // ---- sorting and dropping repeats ----

  predicate Sorted(edges: seq<Edge>) {
    forall i, j :: 0 <= i < j < |edges| ==> Before(edges[i], edges[j]) || edges[i] == edges[j]
  }

  predicate Strict(edges: seq<Edge>) {
    forall i, j :: 0 <= i < j < |edges| ==> Before(edges[i], edges[j])
  }

  function Insert(e: Edge, edges: seq<Edge>): seq<Edge> {
    if edges == [] || !Before(edges[0], e) then [e] + edges else [edges[0]] + Insert(e, edges[1..])
  }

  /** `sort_unstable`. */
  function Sort(edges: seq<Edge>): seq<Edge> {
    if edges == [] then [] else Insert(edges[0], Sort(edges[1..]))
  }

  lemma {:induction false} InsertSorts(e: Edge, edges: seq<Edge>)
    requires Sorted(edges)
    ensures Sorted(Insert(e, edges))
    ensures forall x :: x in Insert(e, edges) <==> x == e || x in edges
  {
    if edges != [] && Before(edges[0], e) {
      var rest := Insert(e, edges[1..]);
      InsertSorts(e, edges[1..]);
      assert edges == [edges[0]] + edges[1..];
      forall k | 0 <= k < |rest|
        ensures Before(edges[0], rest[k]) || edges[0] == rest[k]
      {
        assert rest[k] in rest;
      }
    }
  }

  lemma {:induction false} SortSorts(edges: seq<Edge>)
    ensures Sorted(Sort(edges))
    ensures forall x :: x in Sort(edges) <==> x in edges
  {
    if edges != [] {
      SortSorts(edges[1..]);
      InsertSorts(edges[0], Sort(edges[1..]));
    }
  }

  /** `dedup`: of neighbours that are equal, the first stays. */
  method Dedup(edges: seq<Edge>) returns (kept: seq<Edge>)
    requires Sorted(edges)
    ensures Strict(kept) && forall e :: e in kept <==> e in edges
  {
    kept := [];
    for i := 0 to |edges|
      invariant Strict(kept) && forall e :: e in kept <==> e in edges[..i]
      invariant i > 0 ==> kept != [] && kept[|kept| - 1] == edges[i - 1]
    {
      assert forall e :: e in edges[..i + 1] <==> e in edges[..i] || e == edges[i];
      if kept == [] || kept[|kept| - 1] != edges[i] {
        forall k | 0 <= k < |kept|
          ensures Before(kept[k], edges[i])
        {
          assert kept[k] in kept;
          assert i > 0 && (k == |kept| - 1 || Before(kept[k], kept[|kept| - 1]));
          assert kept[|kept| - 1] == edges[i - 1] && Before(edges[i - 1], edges[i]);
        }
        kept := kept + [edges[i]];
      }
    }
  }

  // ---- laying out ----

  /** The edges that leave `v`. */
  function Leaving(edges: seq<Edge>, v: nat): nat {
    if edges == [] then 0
    else Leaving(edges[..|edges| - 1], v) + if edges[|edges| - 1].0 == v then 1 else 0
  }

  /** The edges that leave a node before `v`. */
  function Below(edges: seq<Edge>, v: nat): (c: nat)
    ensures c <= |edges|
  {
    if edges == [] then 0
    else Below(edges[..|edges| - 1], v) + if edges[|edges| - 1].0 < v then 1 else 0
  }

  lemma {:induction false} BelowNext(edges: seq<Edge>, v: nat)
    ensures Below(edges, v + 1) == Below(edges, v) + Leaving(edges, v)
  {
    if edges != [] { BelowNext(edges[..|edges| - 1], v); }
  }

  lemma {:induction false} BelowEnds(edges: seq<Edge>, n: nat)
    requires InRange(n, edges)
    ensures Below(edges, 0) == 0 && Below(edges, n) == |edges|
  {
    if edges != [] { BelowEnds(edges[..|edges| - 1], n); }
  }

  lemma {:induction false} BelowGrows(edges: seq<Edge>, v: nat, w: nat)
    requires v <= w
    ensures Below(edges, v) <= Below(edges, w)
  {
    if edges != [] { BelowGrows(edges[..|edges| - 1], v, w); }
  }

  /** In a sorted list the edges before `v` are the first ones. */
  lemma {:induction false} BelowCuts(edges: seq<Edge>, v: nat, i: nat)
    requires Strict(edges) && i < |edges|
    ensures i < Below(edges, v) <==> edges[i].0 < v
  {
    var last := |edges| - 1;
    var front := edges[..last];
    if i < last {
      BelowCuts(front, v, i);
    } else if last > 0 {
      BelowCuts(front, v, last - 1);
    }
    if last > 0 && edges[last].0 < v {
      BelowCuts(front, v, last - 1);
      assert Before(edges[last - 1], edges[last]);
    }
  }

  /** The offsets and the targets of a list without repeats. */
  ghost function Laid(n: nat, edges: seq<Edge>): Csr {
    Csr(seq(n + 1, v requires 0 <= v < n + 1 => Below(edges, v)),
        seq(|edges|, i requires 0 <= i < |edges| => edges[i].1))
  }

  lemma LaidValid(n: nat, edges: seq<Edge>)
    requires InRange(n, edges)
    ensures Laid(n, edges).Valid() && Laid(n, edges).Nodes() == n
  {
    BelowEnds(edges, n);
    forall v, w | 0 <= v <= w < n + 1
      ensures Below(edges, v) <= Below(edges, w)
    {
      BelowGrows(edges, v, w);
    }
  }

  lemma LaidJoins(n: nat, edges: seq<Edge>)
    requires InRange(n, edges) && Strict(edges) && Laid(n, edges).Valid()
    ensures Laid(n, edges).Ordered()
    ensures forall v: nat, w: nat :: Laid(n, edges).Joins(v, w) <==> (v, w) in edges
  {
    hide Below;
    var g := Laid(n, edges);
    forall v | 0 <= v < n
      ensures Ascending(g.Neighbors(v)) && forall w: nat :: w in g.Neighbors(v) <==> (v, w) in edges
    {
      LaidList(n, edges, v);
    }
    forall v: nat, w: nat
      ensures g.Joins(v, w) <==> (v, w) in edges
    {
      if (v, w) in edges {
        var i :| 0 <= i < |edges| && edges[i] == (v, w);
        assert v < n;
      }
    }
  }

  lemma LaidList(n: nat, edges: seq<Edge>, v: nat)
    requires InRange(n, edges) && Strict(edges) && Laid(n, edges).Valid() && v < n
    ensures Ascending(Laid(n, edges).Neighbors(v))
    ensures forall w: nat :: w in Laid(n, edges).Neighbors(v) <==> (v, w) in edges
  {
    hide Below;
    var g := Laid(n, edges);
    var lo, hi := Below(edges, v), Below(edges, v + 1);
    var list := g.Neighbors(v);
    assert g.offsets[v] == lo && g.offsets[v + 1] == hi;
    forall i | 0 <= i < |edges|
      ensures lo <= i < hi <==> edges[i].0 == v
    {
      BelowCuts(edges, v, i);
      BelowCuts(edges, v + 1, i);
    }
    assert forall k :: 0 <= k < |list| ==> list[k] == edges[lo + k].1 && edges[lo + k].0 == v;
    forall w: nat
      ensures w in list <==> (v, w) in edges
    {
      if (v, w) in edges {
        var i :| 0 <= i < |edges| && edges[i] == (v, w);
        assert list[i - lo] == w;
      }
      if w in list {
        var k :| 0 <= k < |list| && list[k] == w;
        assert edges[lo + k] == (v, w);
      }
    }
    forall i, j | 0 <= i < j < |list|
      ensures list[i] < list[j]
    {
      assert Before(edges[lo + i], edges[lo + j]);
    }
  }

  /** The edges of each node counted, and the counts summed in place. */
  method Offsets(n: nat, edges: seq<Edge>) returns (offsets: array<nat>)
    requires InRange(n, edges)
    ensures fresh(offsets) && offsets.Length == n + 1
    ensures forall v :: 0 <= v <= n ==> offsets[v] == Below(edges, v)
  {
    offsets := new nat[n + 1](i => 0);
    for i := 0 to |edges|
      invariant offsets[0] == 0
      invariant forall v :: 0 <= v < n ==> offsets[v + 1] == Leaving(edges[..i], v)
    {
      assert edges[..i + 1][..i] == edges[..i];
      offsets[edges[i].0 + 1] := offsets[edges[i].0 + 1] + 1;
    }
    assert edges[..|edges|] == edges;
    BelowEnds(edges, n);
    hide Leaving, Below;
    var total := 0;
    for k := 1 to n + 1
      invariant total == Below(edges, k - 1)
      invariant forall v :: 0 <= v < k ==> offsets[v] == Below(edges, v)
      invariant forall v :: k <= v <= n ==> offsets[v] == Leaving(edges, v - 1)
    {
      BelowNext(edges, k - 1);
      total := total + offsets[k];
      offsets[k] := total;
    }
  }

  /** `CsrBuilder::build`. */
  method Build(n: nat, edges: seq<Edge>) returns (g: Csr)
    requires InRange(n, edges)
    ensures g.Valid() && g.Nodes() == n && g.Ordered()
    ensures forall v: nat, w: nat :: g.Joins(v, w) <==> (v, w) in edges
  {
    hide Below, Sorted, Sort, Csr.Joins, Csr.Ordered;
    SortSorts(edges);
    var kept := Dedup(Sort(edges));
    forall i | 0 <= i < |kept|
      ensures kept[i].0 < n && kept[i].1 < n
    {
      assert kept[i] in kept;
    }
    var offsets := Offsets(n, kept);
    g := Csr(offsets[..], seq(|kept|, i requires 0 <= i < |kept| => kept[i].1));
    assert g == Laid(n, kept);
    LaidValid(n, kept);
    LaidJoins(n, kept);
  }

  // ---- the reversal ----

  ghost predicate Reverses(rev: Csr, g: Csr)
    requires rev.Valid() && g.Valid()
  {
    rev.Nodes() == g.Nodes() && forall v: nat, w: nat :: rev.Joins(w, v) <==> g.Joins(v, w)
  }

  /** `reversed`. */
  method Reversed(g: Csr) returns (rev: Csr)
    requires g.Valid()
    ensures rev.Valid() && rev.Ordered() && Reverses(rev, g)
  {
    var edges: seq<Edge> := [];
    for v := 0 to g.Nodes()
      invariant InRange(g.Nodes(), edges)
      invariant forall a: nat, b: nat :: (b, a) in edges <==> a < v && g.Joins(a, b)
    {
      var list := g.Neighbors(v);
      for k := 0 to |list|
        invariant InRange(g.Nodes(), edges)
        invariant forall a: nat, b: nat :: (b, a) in edges <==> (a < v && g.Joins(a, b)) || (a == v && b in list[..k])
      {
        assert list[k] in list;
        assert forall x :: x in list[..k + 1] <==> x in list[..k] || x == list[k];
        edges := edges + [(list[k], v)];
      }
      assert list[..|list|] == list;
    }
    rev := Build(g.Nodes(), edges);
  }

  // ---- one adjacency for one set of edges ----

  lemma {:induction false} SameList(a: seq<nat>, b: seq<nat>)
    requires Ascending(a) && Ascending(b) && forall x :: x in a <==> x in b
    ensures a == b
  {
    assert a != [] ==> a[0] in b;
    assert b != [] ==> b[0] in a;
    if a != [] && b != [] {
      var x, y := a[|a| - 1], b[|b| - 1];
      assert x in b && y in a;
      var front, less := a[..|a| - 1], b[..|b| - 1];
      assert x == y;
      forall z
        ensures z in front <==> z in less
      {
        assert z in front <==> z in a && z != x;
        assert z in less <==> z in b && z != y;
      }
      SameList(front, less);
      assert a == front + [x] && b == less + [y];
    }
  }

  lemma {:induction false} SameFront(a: Csr, b: Csr, v: nat)
    requires a.Valid() && b.Valid() && a.Nodes() == b.Nodes() && v <= a.Nodes()
    requires forall u :: 0 <= u < v ==> a.Neighbors(u) == b.Neighbors(u)
    ensures a.offsets[..v + 1] == b.offsets[..v + 1]
    ensures a.neighbors[..a.offsets[v]] == b.neighbors[..b.offsets[v]]
  {
    if v > 0 {
      SameFront(a, b, v - 1);
      assert a.Neighbors(v - 1) == b.Neighbors(v - 1);
      assert |a.Neighbors(v - 1)| == a.offsets[v] - a.offsets[v - 1];
      assert |b.Neighbors(v - 1)| == b.offsets[v] - b.offsets[v - 1];
      assert a.offsets[v - 1] == a.offsets[..v][v - 1] && b.offsets[v - 1] == b.offsets[..v][v - 1];
      assert a.neighbors[..a.offsets[v]] == a.neighbors[..a.offsets[v - 1]] + a.Neighbors(v - 1);
      assert b.neighbors[..b.offsets[v]] == b.neighbors[..b.offsets[v - 1]] + b.Neighbors(v - 1);
      assert a.offsets[..v + 1] == a.offsets[..v] + [a.offsets[v]];
      assert b.offsets[..v + 1] == b.offsets[..v] + [b.offsets[v]];
    }
  }

  /** An adjacency is its edges: two in order that join the same nodes are one. */
  lemma SameEdges(a: Csr, b: Csr)
    requires a.Valid() && b.Valid() && a.Ordered() && b.Ordered() && a.Nodes() == b.Nodes()
    requires forall v: nat, w: nat :: a.Joins(v, w) <==> b.Joins(v, w)
    ensures a == b
  {
    forall v | 0 <= v < a.Nodes()
      ensures a.Neighbors(v) == b.Neighbors(v)
    {
      forall w
        ensures w in a.Neighbors(v) <==> w in b.Neighbors(v)
      {
        assert a.Joins(v, w) <==> b.Joins(v, w);
      }
      SameList(a.Neighbors(v), b.Neighbors(v));
    }
    SameFront(a, b, a.Nodes());
    assert a.offsets[..a.Nodes() + 1] == a.offsets && b.offsets[..b.Nodes() + 1] == b.offsets;
    assert a.neighbors[..|a.neighbors|] == a.neighbors && b.neighbors[..|b.neighbors|] == b.neighbors;
  }

  /** Reversing twice gives back an adjacency in order, whatever the reversal does in between. */
  lemma ReversedTwice(g: Csr, rev: Csr, back: Csr)
    requires g.Valid() && rev.Valid() && back.Valid() && g.Ordered() && back.Ordered()
    requires Reverses(rev, g) && Reverses(back, rev)
    ensures back == g
  {
    forall v: nat, w: nat
      ensures back.Joins(v, w) <==> g.Joins(v, w)
    {
      assert rev.Joins(w, v) <==> g.Joins(v, w);
    }
    SameEdges(back, g);
  }
}
