/**
  What `recursive_bfs` of crates/zu-query/src/recursive.rs finds, round by round,
  with rounds that may leave nodes out; and when that is every node's hop count.
 */
module Waves {
  import opened Common
  import opened Csr
  import opened Walks
  import opened Morsels

  /** What has been visited, and what the last round visited. */
  datatype Wave = Wave(seen: set<nat>, front: set<nat>)

  /** The nodes a round may visit: bottom-up, from a frontier that is large, only those that are scanned. */
  function Reach(n: nat, back: bool, threads: nat, front: nat): seq<nat> {
    if back && front > n / DENSE_FRACTION then Scanned(n, threads) else Range(0, n)
  }

  ghost function NextWave(g: Csr, back: bool, threads: nat, w: Wave): Wave
    requires g.Valid()
  {
    var reach := Reach(g.Nodes(), back, threads, |w.front|);
    var front := set v | v in reach && v !in w.seen && exists u :: u in w.front && g.Joins(u, v);
    Wave(w.seen + front, front)
  }

  ghost function WaveAt(g: Csr, from: set<nat>, back: bool, threads: nat, d: nat): Wave
    requires g.Valid()
  { if d == 0 then Wave(from, from) else NextWave(g, back, threads, WaveAt(g, from, back, threads, d - 1)) }

  /** The round a node is visited in, among the first `bound`. */
  ghost function WaveLevel(g: Csr, from: set<nat>, back: bool, threads: nat, v: nat, bound: nat): nat
    requires g.Valid()
  {
    if v in WaveAt(g, from, back, threads, bound).front then bound
    else if bound == 0 then UNREACHED
    else WaveLevel(g, from, back, threads, v, bound - 1)
  }

  /** Once a round visits nothing, no later one does. */
  lemma {:induction false} WaveStops(g: Csr, from: set<nat>, back: bool, threads: nat, v: nat, d: nat, e: nat)
    requires g.Valid() && d <= e && WaveAt(g, from, back, threads, d).front == {}
    ensures WaveAt(g, from, back, threads, e).front == {}
    ensures WaveLevel(g, from, back, threads, v, e) == WaveLevel(g, from, back, threads, v, d)
    decreases e
  {
    hide NextWave, Csr.Valid;
    if d < e {
      WaveStops(g, from, back, threads, v, d, e - 1);
      NoWave(g, back, threads, WaveAt(g, from, back, threads, e - 1));
    }
  }

  lemma NoWave(g: Csr, back: bool, threads: nat, w: Wave)
    requires g.Valid() && w.front == {}
    ensures NextWave(g, back, threads, w).front == {}
  {
    hide Csr.Joins, Reach;
  }

  /** What has been visited is what is within `d` hops, and the last round's is what is that far. */
  ghost predicate AreHops(g: Csr, from: set<nat>, d: nat, w: Wave)
    requires g.Valid()
  {
    (forall v: nat :: v in w.seen <==> Within(g, from, v, d)) &&
    (forall v: nat :: v in w.front <==> Hops(g, from, v, d))
  }

  /** Where no round leaves a node out, the rounds are the hops. */
  lemma {:induction false} WavesAreHops(g: Csr, from: set<nat>, back: bool, threads: nat, d: nat)
    requires g.Valid() && Inside(g, from) && g.Nodes() <= UNREACHED && (back ==> EndsInTime(g.Nodes(), threads))
    ensures AreHops(g, from, d, WaveAt(g, from, back, threads, d))
  {
    hide Csr.Valid, AreHops, WaveAt, Reach, NextWave, EndsInTime;
    if d == 0 {
      WaveStart(g, from, back, threads);
    } else {
      WavesAreHops(g, from, back, threads, d - 1);
      WaveNext(g, from, back, threads, d - 1);
      var w := WaveAt(g, from, back, threads, d - 1);
      ReachIsAll(g.Nodes(), back, threads, |w.front|);
      NextAreHops(g, from, back, threads, d - 1, w);
    }
  }

  lemma WaveStart(g: Csr, from: set<nat>, back: bool, threads: nat)
    requires g.Valid()
    ensures AreHops(g, from, 0, WaveAt(g, from, back, threads, 0))
  {
  }

  lemma NextAreHops(g: Csr, from: set<nat>, back: bool, threads: nat, d: nat, w: Wave)
    requires g.Valid() && Inside(g, from) && AreHops(g, from, d, w)
    requires forall u :: 0 <= u < g.Nodes() ==> u in Reach(g.Nodes(), back, threads, |w.front|)
    ensures AreHops(g, from, d + 1, NextWave(g, back, threads, w))
  {
    hide Csr.Joins, Csr.Valid, Reach, Within, Hops, NextWave;
    forall v: nat
      ensures v in NextWave(g, back, threads, w).front <==> Hops(g, from, v, d + 1)
      ensures v in NextWave(g, back, threads, w).seen <==> Within(g, from, v, d + 1)
    {
      WaveHop(g, from, back, threads, d, w, v);
    }
  }

  lemma WaveHop(g: Csr, from: set<nat>, back: bool, threads: nat, d: nat, w: Wave, v: nat)
    requires g.Valid() && Inside(g, from) && AreHops(g, from, d, w)
    requires forall u :: 0 <= u < g.Nodes() ==> u in Reach(g.Nodes(), back, threads, |w.front|)
    ensures v in NextWave(g, back, threads, w).front <==> Hops(g, from, v, d + 1)
    ensures v in NextWave(g, back, threads, w).seen <==> Within(g, from, v, d + 1)
  {
    hide Csr.Joins, Csr.Valid, Reach, Within, Hops;
    HopsNext(g, from, v, d);
    if Hops(g, from, v, d + 1) { HopsInside(g, from, v, d + 1); }
  }

  lemma WaveNext(g: Csr, from: set<nat>, back: bool, threads: nat, d: nat)
    requires g.Valid()
    ensures WaveAt(g, from, back, threads, d + 1) == NextWave(g, back, threads, WaveAt(g, from, back, threads, d))
  {
  }

  lemma HopsInside(g: Csr, from: set<nat>, v: nat, d: nat)
    requires g.Valid() && Inside(g, from) && Hops(g, from, v, d)
    ensures v < g.Nodes()
  {
    WithinInside(g, from, v, d);
  }

  lemma ReachIsAll(n: nat, back: bool, threads: nat, front: nat)
    requires n < TWO32 && (back ==> EndsInTime(n, threads))
    ensures forall w :: 0 <= w < n ==> w in Reach(n, back, threads, front)
  {
    hide Range, Scanned, EndsInTime;
    ScansAllIff(n, threads);
    forall w | 0 <= w < n
      ensures w in Reach(n, back, threads, front)
    {
      RangeHas(0, n, w);
    }
  }

  lemma {:induction false} WaveLevelIsLevel(g: Csr, from: set<nat>, back: bool, threads: nat, v: nat, bound: nat)
    requires g.Valid() && Inside(g, from) && g.Nodes() <= UNREACHED && (back ==> EndsInTime(g.Nodes(), threads))
    ensures WaveLevel(g, from, back, threads, v, bound) == Level(g, from, v, bound)
  {
    hide Csr.Joins, Csr.Valid, WaveAt, Within, Hops;
    WavesAreHops(g, from, back, threads, bound);
    if bound > 0 {
      WaveLevelIsLevel(g, from, back, threads, v, bound - 1);
      LevelNext(g, from, v, bound - 1);
    } else {
      LevelAtNone(g, from, v);
    }
  }

  lemma LevelNext(g: Csr, from: set<nat>, v: nat, d: nat)
    requires g.Valid()
    ensures Level(g, from, v, d + 1) == if Hops(g, from, v, d + 1) then d + 1 else Level(g, from, v, d)
  {
    hide Csr.Joins, Csr.Valid;
    HopsNext(g, from, v, d);
  }

  lemma LevelAtNone(g: Csr, from: set<nat>, v: nat)
    requires g.Valid()
    ensures Level(g, from, v, 0) == if Hops(g, from, v, 0) then 0 else UNREACHED
  {
  }

  // ---- a search that comes out wrong ----

  /** Node 0 joins to the `m` after it, the first of those to `w`, and no other to anything. */
  ghost function Fan(n: nat, m: nat, w: nat): Csr
  {
    Csr(seq(n + 1, v requires 0 <= v < n + 1 => if v == 0 then 0 else if v == 1 then m else m + 1),
        Range(1, m + 1) + [w])
  }

  lemma FanIs(n: nat, m: nat, w: nat)
    requires 0 < m < w < n
    ensures Fan(n, m, w).Valid() && Fan(n, m, w).Nodes() == n && Fan(n, m, w).Ordered()
    ensures forall u: nat, v: nat ::
      Fan(n, m, w).Joins(u, v) <==> (u == 0 && 1 <= v <= m) || (u == 1 && v == w)
  {
    var g := Fan(n, m, w);
    FanValid(n, m, w);
    FanLists(n, m, w);
    hide Range, Fan, Csr.Valid, Csr.Neighbors;
    forall u: nat, v: nat
      ensures g.Joins(u, v) <==> (u == 0 && 1 <= v <= m) || (u == 1 && v == w)
    {
      RangeHas(1, m + 1, v);
    }
    RangeGoesUp(1, m + 1);
  }

  lemma FanValid(n: nat, m: nat, w: nat)
    requires 0 < m < w < n
    ensures Fan(n, m, w).Valid() && Fan(n, m, w).Nodes() == n
  {
    var g := Fan(n, m, w);
    assert |g.neighbors| == m + 1 && g.offsets[n] == m + 1;
    assert forall k :: 0 <= k < m ==> g.neighbors[k] == 1 + k;
  }

  lemma FanLists(n: nat, m: nat, w: nat)
    requires 0 < m < w < n && Fan(n, m, w).Valid()
    ensures Fan(n, m, w).Neighbors(0) == Range(1, m + 1) && Fan(n, m, w).Neighbors(1) == [w]
    ensures forall u :: 2 <= u < n ==> Fan(n, m, w).Neighbors(u) == []
  {
    var g := Fan(n, m, w);
    assert g.offsets[0] == 0 && g.offsets[1] == m && g.offsets[2] == m + 1;
    assert g.neighbors[..m] == Range(1, m + 1) && g.neighbors[m..m + 1] == [w];
  }

  lemma RangeGoesUp(lo: nat, hi: nat)
    ensures Ascending(Range(lo, hi))
  {
  }

  lemma RangeSet(lo: nat, hi: nat, s: set<nat>)
    requires lo <= hi && forall v: nat :: v in s <==> lo <= v < hi
    ensures |s| == hi - lo
    decreases hi - lo
  {
    if lo < hi {
      RangeSet(lo + 1, hi, s - {lo});
    } else {
      assert s == {};
    }
  }

  /**
    Where the last range does not end in time, a search from one node is wrong: two
    hops away there is a node that no thread scans in the round that should reach it.
   */
  lemma WrongSearch(n: nat, threads: nat) returns (g: Csr, w: nat)
    requires n <= UNREACHED && !EndsInTime(n, threads)
    ensures g.Valid() && g.Ordered() && g.Nodes() == n && w < n
    ensures WaveLevel(g, {0}, true, threads, w, 2) == UNREACHED && Level(g, {0}, w, 2) == 2
  {
    var per := PerThread(n, threads);
    w := (n - 1) / per * per;
    LastIsMissed(n, threads);
    LastIsFar(n, threads);
    var m := n / DENSE_FRACTION + 1;
    g := Fan(n, m, w);
    FanIs(n, m, w);
    FanLevel(g, n, m, w);
    hide Scanned, Range, EndsInTime, PerThread, Csr.Joins, Csr.Valid;
    FanWaves(g, n, m, w, threads);
  }

  lemma LastIsFar(n: nat, threads: nat)
    requires n <= UNREACHED && !EndsInTime(n, threads)
    ensures (n - 1) / PerThread(n, threads) * PerThread(n, threads) > n / DENSE_FRACTION + 1
  {
    hide PerThread;
    var per := PerThread(n, threads);
    PerThreadIs(n, threads);
    Floor(n - 1, per);
  }

  lemma FanLevel(g: Csr, n: nat, m: nat, w: nat)
    requires 0 < m < w < n && g == Fan(n, m, w) && g.Valid()
    requires forall u: nat, v: nat :: g.Joins(u, v) <==> (u == 0 && 1 <= v <= m) || (u == 1 && v == w)
    ensures Level(g, {0}, w, 2) == 2
  {
    hide Csr.Joins, Csr.Valid, Fan;
    assert Within(g, {0}, 0, 0) && g.Joins(0, 1);
    assert Within(g, {0}, 1, 1) && g.Joins(1, w);
    assert !Within(g, {0}, w, 1);
    assert Within(g, {0}, w, 2);
  }

  lemma FanWaves(g: Csr, n: nat, m: nat, w: nat, threads: nat)
    requires 0 < m < w < n && m == n / DENSE_FRACTION + 1 && n >= MIN_PARALLEL_FRONTIER
    requires g.Valid() && g.Nodes() == n && w !in Scanned(n, threads)
    requires forall u: nat, v: nat :: g.Joins(u, v) <==> (u == 0 && 1 <= v <= m) || (u == 1 && v == w)
    ensures WaveLevel(g, {0}, true, threads, w, 2) == UNREACHED
  {
    hide Scanned, Range, Csr.Joins, Csr.Valid;
    var one := WaveAt(g, {0}, true, threads, 1);
    assert WaveAt(g, {0}, true, threads, 0) == Wave({0}, {0});
    assert |{0}| == 1;
    assert Reach(n, true, threads, 1) == Range(0, n);
    forall v: nat
      ensures v in one.front <==> 1 <= v < m + 1
    {
      RangeHas(0, n, v);
      if 1 <= v < m + 1 { assert 0 in {0} && g.Joins(0, v); }
    }
    RangeSet(1, m + 1, one.front);
    assert Reach(n, true, threads, |one.front|) == Scanned(n, threads);
    assert w !in WaveAt(g, {0}, true, threads, 2).front;
    assert w !in one.front && w !in WaveAt(g, {0}, true, threads, 0).front;
    hide WaveAt;
    assert WaveLevel(g, {0}, true, threads, w, 0) == UNREACHED;
    assert WaveLevel(g, {0}, true, threads, w, 1) == UNREACHED;
  }

  /** With a reversal the search is right on all graphs of a size exactly when the last range ends in time. */
  lemma SearchRightIff(n: nat, threads: nat)
    requires n <= UNREACHED
    ensures EndsInTime(n, threads) <==>
      forall g: Csr, from: set<nat>, v: nat, bound: nat ::
        g.Valid() && g.Nodes() == n && Inside(g, from) ==>
          WaveLevel(g, from, true, threads, v, bound) == Level(g, from, v, bound)
  {
    hide EndsInTime, WaveLevel, Level, Csr.Valid;
    if EndsInTime(n, threads) {
      forall g: Csr, from: set<nat>, v: nat, bound: nat | g.Valid() && g.Nodes() == n && Inside(g, from)
        ensures WaveLevel(g, from, true, threads, v, bound) == Level(g, from, v, bound)
      {
        WaveLevelIsLevel(g, from, true, threads, v, bound);
      }
    } else {
      var g, w := WrongSearch(n, threads);
      assert Inside(g, {0});
    }
  }
}
