/**
  Hop counts: how far a walk has to go from a set of nodes, which is what every
  search of crates/zu-query/src/recursive.rs is to find.
 */
module Walks {
  import opened Common
  import opened Csr

  ghost predicate Inside(g: Csr, from: set<nat>)
    requires g.Valid()
  { forall s :: s in from ==> s < g.Nodes() }

  /** Each node joined to the next. */
  ghost predicate IsWalk(g: Csr, walk: seq<nat>)
    requires g.Valid()
  { walk != [] && forall i :: 0 <= i < |walk| - 1 ==> g.Joins(walk[i], walk[i + 1]) }

  /** A walk from one of `from` to `v` in at most `d` hops. */
  ghost predicate Leads(g: Csr, from: set<nat>, v: nat, d: nat, walk: seq<nat>)
    requires g.Valid()
  { IsWalk(g, walk) && |walk| <= d + 1 && walk[0] in from && walk[|walk| - 1] == v }

  /** `v` is within `d` hops of `from`. */
  ghost predicate Within(g: Csr, from: set<nat>, v: nat, d: nat)
    requires g.Valid()
    decreases d
  {
    if d == 0 then v in from
    else Within(g, from, v, d - 1) || exists u :: Within(g, from, u, d - 1) && g.Joins(u, v)
  }

  /** `v` is `d` hops from `from` and no fewer. */
  ghost predicate Hops(g: Csr, from: set<nat>, v: nat, d: nat)
    requires g.Valid()
  { Within(g, from, v, d) && (d > 0 ==> !Within(g, from, v, d - 1)) }

  /** Being within `d` hops is there being a walk of at most `d` hops. */
  lemma {:induction false} WithinIffWalk(g: Csr, from: set<nat>, v: nat, d: nat)
    requires g.Valid()
    ensures Within(g, from, v, d) <==> exists walk :: Leads(g, from, v, d, walk)
  {
    if Within(g, from, v, d) {
      var walk := WalkTo(g, from, v, d);
    }
    if walk :| Leads(g, from, v, d, walk) {
      WalkReaches(g, from, v, d, walk);
    }
  }

  lemma {:induction false} WalkTo(g: Csr, from: set<nat>, v: nat, d: nat) returns (walk: seq<nat>)
    requires g.Valid() && Within(g, from, v, d)
    ensures Leads(g, from, v, d, walk)
    decreases d
  {
    hide Csr.Joins, Csr.Valid;
    if d == 0 {
      walk := [v];
    } else if Within(g, from, v, d - 1) {
      walk := WalkTo(g, from, v, d - 1);
    } else {
      var u :| Within(g, from, u, d - 1) && g.Joins(u, v);
      var front := WalkTo(g, from, u, d - 1);
      walk := front + [v];
    }
  }

  lemma {:induction false} WalkReaches(g: Csr, from: set<nat>, v: nat, d: nat, walk: seq<nat>)
    requires g.Valid() && Leads(g, from, v, d, walk)
    ensures Within(g, from, v, d)
    decreases d
  {
    if d > 0 {
      if |walk| <= d {
        WalkReaches(g, from, v, d - 1, walk);
      } else {
        var front := walk[..|walk| - 1];
        var u := front[|front| - 1];
        assert g.Joins(walk[|walk| - 2], walk[|walk| - 1]);
        WalkReaches(g, from, u, d - 1, front);
      }
    }
  }

  lemma {:induction false} WithinInside(g: Csr, from: set<nat>, v: nat, d: nat)
    requires g.Valid() && Inside(g, from) && Within(g, from, v, d)
    ensures v < g.Nodes()
  {
    if d > 0 && !Within(g, from, v, d - 1) {
      var u :| Within(g, from, u, d - 1) && g.Joins(u, v);
      assert v in g.Neighbors(u);
    } else if d > 0 {
      WithinInside(g, from, v, d - 1);
    }
  }

  lemma {:induction false} WithinGrows(g: Csr, from: set<nat>, v: nat, d: nat, e: nat)
    requires g.Valid() && d <= e && Within(g, from, v, d)
    ensures Within(g, from, v, e)
  {
    if d < e { WithinGrows(g, from, v, d, e - 1); }
  }

  /** A node has one hop count. */
  lemma HopsOnce(g: Csr, from: set<nat>, v: nat, d: nat, e: nat)
    requires g.Valid() && Hops(g, from, v, d) && Hops(g, from, v, e)
    ensures d == e
  {
    if d < e { WithinGrows(g, from, v, d, e - 1); }
    if e < d { WithinGrows(g, from, v, e, d - 1); }
  }

  /** One round: what is first reached at the next depth is what this depth's nodes join to and is new. */
  lemma HopsNext(g: Csr, from: set<nat>, v: nat, d: nat)
    requires g.Valid()
    ensures Hops(g, from, v, d + 1) <==>
      !Within(g, from, v, d) && exists u :: Hops(g, from, u, d) && g.Joins(u, v)
    ensures Within(g, from, v, d + 1) <==> Within(g, from, v, d) || Hops(g, from, v, d + 1)
  {
    if Hops(g, from, v, d + 1) {
      var u :| Within(g, from, u, d) && g.Joins(u, v);
      assert Hops(g, from, u, d);
    }
  }

  /** Once a depth has no node of its own, nothing more is reached. */
  lemma {:induction false} HopsStop(g: Csr, from: set<nat>, v: nat, d: nat, e: nat)
    requires g.Valid() && d <= e && forall u :: !Hops(g, from, u, d)
    ensures Within(g, from, v, e) ==> Within(g, from, v, d)
    decreases e
  {
    if d < e {
      HopsStop(g, from, v, d, e - 1);
      if Within(g, from, v, e) && !Within(g, from, v, e - 1) {
        var u :| Within(g, from, u, e - 1) && g.Joins(u, v);
        HopsStop(g, from, u, d, e - 1);
        assert !Hops(g, from, u, d);
        assert Within(g, from, v, d);
      }
    }
  }

  // ---- how far at most ----

  /** The nodes within `d` hops, of those there are. */
  ghost function Ball(g: Csr, from: set<nat>, d: nat): set<nat>
    requires g.Valid()
  { set v | 0 <= v < g.Nodes() && Within(g, from, v, d) }

  /** Every depth up to a node's own has added a node. */
  lemma {:induction false} BallGrows(g: Csr, from: set<nat>, v: nat, d: nat)
    requires g.Valid() && Inside(g, from) && Hops(g, from, v, d)
    ensures |Ball(g, from, d)| > d
    decreases d
  {
    hide Csr.Joins, Csr.Valid, Within, Ball;
    BallHas(g, from, v, d);
    if d > 0 {
      HopsNext(g, from, v, d - 1);
      var u :| Hops(g, from, u, d - 1) && g.Joins(u, v);
      BallGrows(g, from, u, d - 1);
      BallMore(g, from, v, d);
    }
  }

  lemma BallHas(g: Csr, from: set<nat>, v: nat, d: nat)
    requires g.Valid() && Inside(g, from) && Within(g, from, v, d)
    ensures v in Ball(g, from, d) && |Ball(g, from, d)| > 0
  {
    WithinInside(g, from, v, d);
    assert v in Ball(g, from, d);
  }

  lemma BallMore(g: Csr, from: set<nat>, v: nat, d: nat)
    requires g.Valid() && d > 0 && v in Ball(g, from, d) && !Within(g, from, v, d - 1)
    ensures |Ball(g, from, d - 1)| < |Ball(g, from, d)|
  {
    var less := Ball(g, from, d - 1);
    assert less + {v} <= Ball(g, from, d);
    Smaller(less + {v}, Ball(g, from, d));
  }

  lemma {:induction false} Smaller(a: set<nat>, b: set<nat>)
    requires a <= b
    ensures |a| <= |b|
  {
    if a != {} {
      var x :| x in a;
      Smaller(a - {x}, b - {x});
    }
  }

  lemma {:induction false} UpTo(s: set<nat>, n: nat)
    requires forall v :: v in s ==> v < n
    ensures |s| <= n
  {
    if n > 0 {
      UpTo(s - {n - 1}, n - 1);
    } else {
      assert s == {};
    }
  }

  /** No node is as many hops away as there are nodes, so no hop count is the mark of the unreached. */
  lemma HopsBelowNodes(g: Csr, from: set<nat>, v: nat, d: nat)
    requires g.Valid() && Inside(g, from) && Hops(g, from, v, d)
    ensures d < g.Nodes()
  {
    BallGrows(g, from, v, d);
    UpTo(Ball(g, from, d), g.Nodes());
  }

  // ---- the answer ----

  const UNREACHED := 0xFFFF_FFFF

  /** The hop count of a node that is within `d` hops. */
  ghost function HopCount(g: Csr, from: set<nat>, v: nat, d: nat): (h: nat)
    requires g.Valid() && Within(g, from, v, d)
    ensures h <= d && Hops(g, from, v, h)
  { if d > 0 && Within(g, from, v, d - 1) then HopCount(g, from, v, d - 1) else d }

  /** The hop count of every node within `bound` hops, and the mark of the unreached for the others. */
  ghost function Level(g: Csr, from: set<nat>, v: nat, bound: nat): nat
    requires g.Valid()
  { if Within(g, from, v, bound) then HopCount(g, from, v, bound) else UNREACHED }

  /** A level is the length of a shortest walk, where one is within the bound. */
  lemma LevelIsShortest(g: Csr, from: set<nat>, v: nat, bound: nat)
    requires g.Valid() && Inside(g, from) && g.Nodes() <= UNREACHED
    ensures var level := Level(g, from, v, bound);
            if level == UNREACHED then !exists walk :: Leads(g, from, v, bound, walk)
            else
              level <= bound && (exists walk :: Leads(g, from, v, level, walk)) &&
              forall d, walk :: 0 <= d < level ==> !Leads(g, from, v, d, walk)
  {
    var level := Level(g, from, v, bound);
    WithinIffWalk(g, from, v, bound);
    if Within(g, from, v, bound) {
      HopsBelowNodes(g, from, v, level);
      WithinIffWalk(g, from, v, level);
      forall d, walk | 0 <= d < level
        ensures !Leads(g, from, v, d, walk)
      {
        if Leads(g, from, v, d, walk) {
          WithinIffWalk(g, from, v, d);
          WithinGrows(g, from, v, d, level - 1);
        }
      }
    }
  }

  lemma LevelOfHops(g: Csr, from: set<nat>, v: nat, d: nat, bound: nat)
    requires g.Valid() && Hops(g, from, v, d) && d <= bound
    ensures Level(g, from, v, bound) == d
  {
    WithinGrows(g, from, v, d, bound);
    HopsOnce(g, from, v, d, HopCount(g, from, v, bound));
  }
}
