/**
  `recursive_bfs` of crates/zu-query/src/recursive.rs: rounds that go top-down or
  bottom-up by the size of the frontier, each cut into morsels that threads work
  through in any order, over one shared bitmap.
 */
module Bfs {
  import opened Common
  import opened Bits
  import opened Csr
  import opened Walks
  import opened Morsels
  import opened Waves

  /** The words of a bitmap of `n` nodes. */
  function WordsFor(n: nat): nat { CeilDiv(n, WORD) }

  lemma WordOf(n: nat, node: nat)
    requires node < n
    ensures node / WORD < WordsFor(n)
  {
  }

  // ---- claiming ----

  /** Sets a node's bit and says whether it was clear: one atomic `fetch_or`. */
  method FetchOr(visited: array<bv64>, node: nat) returns (clear: bool)
    requires node / WORD < visited.Length
    modifies visited
    ensures clear == !Marked(old(visited[..]), node)
    ensures forall u :: Marked(visited[..], u) <==> Marked(old(visited[..]), u) || u == node
  {
    hide With, Has, PlaceIn;
    ghost var before := visited[..];
    var word, place := node / WORD, PlaceIn(node);
    var was := visited[word];
    visited[word] := With(was, place);
    clear := !Has(was, place);
    assert visited[..] == before[word := With(before[word], place)];
    hide Marked;
    forall u: nat
      ensures Marked(visited[..], u) <==> Marked(before, u) || u == node
    {
      MarkOne(before, node, u);
    }
  }

  /** Which way a round goes: along the edges out, or along the edges in from nodes not yet visited. */
  datatype Way = TopDown | BottomUp(rev: Csr, frontier: seq<bv64>) {
    ghost predicate Fits(n: nat) {
      BottomUp? ==> rev.Valid() && rev.Nodes() == n && |frontier| == WordsFor(n)
    }

    /** Whether a node that is looked at is to be visited: bottom-up it has to have a neighbour in the frontier. */
    ghost predicate Wants(w: nat)
      requires BottomUp? ==> rev.Valid()
    { BottomUp? ==> exists u :: rev.Joins(w, u) && Marked(frontier, u) }

    ghost function WantedOf(s: seq<nat>): set<nat>
      requires BottomUp? ==> rev.Valid()
    { set w | w in s && Wants(w) }
  }

  /**
    Each node of `seen` that was clear before is claimed once, and nothing else
    is; the bitmap now holds what it held and all of them.
   */
  ghost predicate Claimed(seen: set<nat>, before: seq<bv64>, now: seq<bv64>, claimed: multiset<nat>) {
    |now| == |before| &&
    (forall w :: claimed[w] == if w in seen && !Marked(before, w) then 1 else 0) &&
    (forall w :: Marked(now, w) <==> Marked(before, w) || w in seen)
  }

  lemma ClaimOne(seen: set<nat>, before: seq<bv64>, now: seq<bv64>, claimed: multiset<nat>, w: nat, after: seq<bv64>)
    requires Claimed(seen, before, now, claimed) && |after| == |now|
    requires forall u :: Marked(after, u) <==> Marked(now, u) || u == w
    ensures Claimed(seen + {w}, before, after, if Marked(now, w) then claimed else claimed + multiset{w})
  {
    hide Marked;
  }

  /** A node already marked is claimed by nobody. */
  lemma ClaimNone(seen: set<nat>, before: seq<bv64>, now: seq<bv64>, claimed: multiset<nat>, w: nat)
    requires Claimed(seen, before, now, claimed) && Marked(now, w)
    ensures Claimed(seen + {w}, before, now, claimed)
  {
    hide Marked;
  }

  /** Whether a node has a neighbour in the frontier, looked for until one is found. */
  method FindMarked(rev: Csr, frontier: seq<bv64>, w: nat) returns (found: bool)
    requires rev.Valid() && w < rev.Nodes() && |frontier| == WordsFor(rev.Nodes())
    ensures found == BottomUp(rev, frontier).Wants(w)
  {
    hide Marked;
    var list := rev.Neighbors(w);
    for k := 0 to |list|
      invariant forall i :: 0 <= i < k ==> !Marked(frontier, list[i])
    {
      if Marked(frontier, list[k]) {
        assert rev.Joins(w, list[k]);
        return true;
      }
    }
    found := false;
  }

  /** One node looked at: claimed when it is wanted and clear. */
  method Look(way: Way, w: nat, n: nat, visited: array<bv64>, ghost seen: set<nat>, ghost before: seq<bv64>,
              ghost claimed: multiset<nat>) returns (clear: bool)
    requires way.Fits(n) && w < n && visited.Length == WordsFor(n) && Claimed(seen, before, visited[..], claimed)
    modifies visited
    ensures Claimed(seen + way.WantedOf([w]), before, visited[..], if clear then claimed + multiset{w} else claimed)
  {
    hide Marked, Claimed, WordsFor, Csr.Valid, Has, Way.Wants;
    WordOf(n, w);
    WantedOne(way, w);
    ghost var now := visited[..];
    var marked := MarkedNow(visited, w);
    if way.BottomUp? {
      if marked {
        ClaimNone(seen, before, now, claimed, w);
        assert seen + {} == seen;
        return false;
      }
      var wanted := FindMarked(way.rev, way.frontier, w);
      if !wanted {
        assert seen + {} == seen;
        return false;
      }
    }
    clear := FetchOr(visited, w);
    ClaimOne(seen, before, now, claimed, w, visited[..]);
  }

  method MarkedNow(visited: array<bv64>, w: nat) returns (marked: bool)
    requires w / WORD < visited.Length
    ensures marked == Marked(visited[..], w)
  {
    hide Has;
    marked := Has(visited[w / WORD], PlaceIn(w));
  }

  lemma WantedOne(way: Way, w: nat)
    requires way.BottomUp? ==> way.rev.Valid()
    ensures way.WantedOf([w]) == if way.Wants(w) then {w} else {}
    ensures way.TopDown? ==> way.Wants(w)
  {
    hide Marked, Csr.Joins;
  }

  lemma WantedConcat(way: Way, a: seq<nat>, b: seq<nat>)
    requires way.BottomUp? ==> way.rev.Valid()
    ensures way.WantedOf(a + b) == way.WantedOf(a) + way.WantedOf(b)
  {
    hide Way.Wants;
  }

  /** A run of nodes looked at in turn. */
  method LookEach(way: Way, list: seq<nat>, n: nat, visited: array<bv64>, ghost seen: set<nat>, ghost before: seq<bv64>,
                  had: seq<nat>) returns (next: seq<nat>)
    requires way.Fits(n) && AllBelow(list, n) && visited.Length == WordsFor(n)
    requires Claimed(seen, before, visited[..], multiset(had))
    modifies visited
    ensures Claimed(seen + way.WantedOf(list), before, visited[..], multiset(next))
  {
    hide Claimed, WordsFor, Way.WantedOf, Csr.Valid;
    next := had;
    WantedNone(way, list[..0]);
    assert seen + way.WantedOf(list[..0]) == seen;
    for k := 0 to |list|
      invariant Claimed(seen + way.WantedOf(list[..k]), before, visited[..], multiset(next))
    {
      var w := list[k];
      ghost var now := seen + way.WantedOf(list[..k]);
      var clear := Look(way, w, n, visited, now, before, multiset(next));
      assert list[..k + 1] == list[..k] + [w];
      WantedConcat(way, list[..k], [w]);
      assert now + way.WantedOf([w]) == seen + way.WantedOf(list[..k + 1]);
      assert multiset(next + [w]) == multiset(next) + multiset{w};
      if clear { next := next + [w]; }
    }
    assert list[..|list|] == list;
  }

  lemma WantedNone(way: Way, s: seq<nat>)
    requires way.BottomUp? ==> way.rev.Valid()
    requires s == []
    ensures way.WantedOf(s) == {}
  {
  }

  // ---- work shared out ----

  /** Threads that go top-down take their targets in their own order, in any order between them. */
  method Race(work: seq<seq<nat>>, n: nat, visited: array<bv64>) returns (next: seq<nat>)
    requires visited.Length == WordsFor(n) && AllBelow(Joined(work), n)
    modifies visited
    ensures Claimed(TopDown.WantedOf(Joined(work)), old(visited[..]), visited[..], multiset(next))
  {
    ghost var before := visited[..];
    ghost var done: seq<nat> := [];
    var todo, found := work, seq(|work|, i => []);
    JoinedEmpty(found);
    WantedNone(TopDown, done);
    assert Claimed(TopDown.WantedOf(done), before, visited[..], multiset(Joined(found)));
    hide Claimed, Joined, WordsFor, Way.WantedOf, Csr.Valid;
    while exists t :: 0 <= t < |todo| && todo[t] != []
      invariant |found| == |todo|
      invariant multiset(done) + multiset(Joined(todo)) == multiset(Joined(work))
      invariant Claimed(TopDown.WantedOf(done), before, visited[..], multiset(Joined(found)))
      decreases |Joined(todo)|
    {
      var t :| 0 <= t < |todo| && todo[t] != [];
      var w := todo[t][0];
      TakeFirst(todo, t);
      assert w in multiset(Joined(todo)) && w in multiset(Joined(work));
      assert w in Joined(work);
      var clear := Look(TopDown, w, n, visited, TopDown.WantedOf(done), before, multiset(Joined(found)));
      WantedConcat(TopDown, done, [w]);
      if clear {
        AddLast(found, t, w);
        found := found[t := found[t] + [w]];
      }
      done, todo := done + [w], todo[t := todo[t][1..]];
    }
    JoinedEmpty(todo);
    WantedSame(TopDown, done, Joined(work));
    next := Joined(found);
  }

  /** What threads that go bottom-up hold: nodes to be claimed that were clear when they were looked at. */
  ghost predicate Held(way: Way, held: seq<seq<nat>>, before: seq<bv64>)
    requires way.BottomUp? ==> way.rev.Valid()
  {
    (forall t :: 0 <= t < |held| ==> |held[t]| <= 1) &&
    forall t :: 0 <= t < |held| && held[t] != [] ==> way.Wants(held[t][0]) && !Marked(before, held[t][0])
  }

  /** Threads going bottom-up: what each has still to look at, what it holds, and what it has claimed. */
  datatype Team = Team(todo: seq<seq<nat>>, held: seq<seq<nat>>, found: seq<seq<nat>>) {
    function Left(): nat { 2 * |Joined(todo)| + |Joined(held)| }

    predicate Busy(t: nat) { t < |todo| == |held| && (todo[t] != [] || held[t] != []) }
  }

  /** A race under way: every node is done with, held or still to be looked at, and what is done is claimed. */
  ghost predicate Racing(way: Way, work: seq<nat>, n: nat, before: seq<bv64>, now: seq<bv64>, done: seq<nat>,
                         team: Team)
    requires way.BottomUp? ==> way.rev.Valid()
  {
    |team.found| == |team.held| == |team.todo| && Held(way, team.held, before) && AllBelow(work, n) &&
    (forall w :: multiset(work)[w] <= 1) &&
    multiset(done) + multiset(Joined(team.held)) + multiset(Joined(team.todo)) == multiset(work) &&
    Claimed(way.WantedOf(done), before, now, multiset(Joined(team.found)))
  }

  /** A thread sets the bit of the node it holds, and pushes it without asking again. */
  method SetStep(way: Way, n: nat, visited: array<bv64>, team: Team, t: nat, ghost work: seq<nat>,
                 ghost before: seq<bv64>, ghost done: seq<nat>) returns (more: Team, ghost now: seq<nat>)
    requires way.BottomUp? && way.Fits(n) && visited.Length == WordsFor(n)
    requires Racing(way, work, n, before, visited[..], done, team) && t < |team.held| && team.held[t] != []
    modifies visited
    ensures Racing(way, work, n, before, visited[..], now, more) && more.Left() < team.Left()
  {
    hide Claimed, Joined, WordsFor, Held, Way.WantedOf, Way.Wants, Csr.Valid, Marked;
    var w := team.held[t][0];
    HeldLess(way, team.held, before, t);
    TakeFirst(team.held, t);
    AddLast(team.found, t, w);
    Once(done, Joined(team.held), Joined(team.todo), work, w);
    SetHeld(way, w, n, visited, done, before, multiset(Joined(team.found)));
    now := done + [w];
    more := Team(team.todo, team.held[t := team.held[t][1..]], team.found[t := team.found[t] + [w]]);
    assert multiset(now) == multiset(done) + multiset{w};
  }

  /** A thread that holds nothing loads the bit of its next node, and holds the node if it is to be claimed. */
  method LoadStep(way: Way, n: nat, visited: array<bv64>, team: Team, t: nat, ghost work: seq<nat>,
                  ghost before: seq<bv64>, ghost done: seq<nat>) returns (more: Team, ghost now: seq<nat>)
    requires way.BottomUp? && way.Fits(n) && visited.Length == WordsFor(n)
    requires Racing(way, work, n, before, visited[..], done, team) && t < |team.todo|
    requires team.todo[t] != [] && team.held[t] == []
    ensures Racing(way, work, n, before, visited[..], now, more) && more.Left() < team.Left()
  {
    hide Claimed, Joined, WordsFor, Held, Way.WantedOf, Way.Wants, Csr.Valid, Marked;
    var w := team.todo[t][0];
    TakeFirst(team.todo, t);
    Swapped(done, Joined(team.held), Joined(team.todo));
    Once(done, Joined(team.todo), Joined(team.held), work, w);
    var take := Load(way, w, n, visited, done, before, multiset(Joined(team.found)));
    var todo := team.todo[t := team.todo[t][1..]];
    if take {
      AddLast(team.held, t, w);
      HeldMore(way, team.held, before, t, w);
      SizeOfBag(Joined(team.held[t := team.held[t] + [w]]), Joined(team.held), w);
      more := Team(todo, team.held[t := team.held[t] + [w]], team.found);
      now := done;
    } else {
      more := Team(todo, team.held, team.found);
      now := done + [w];
      assert multiset(now) == multiset(done) + multiset{w};
    }
  }

  lemma Swapped(a: seq<nat>, b: seq<nat>, c: seq<nat>)
    ensures multiset(a) + multiset(b) + multiset(c) == multiset(a) + multiset(c) + multiset(b)
  {
  }

  lemma SizeOfBag(a: seq<nat>, b: seq<nat>, w: nat)
    requires multiset(a) == multiset(b) + multiset{w}
    ensures |a| == |b| + 1
  {
    assert |multiset(a)| == |a| && |multiset(b)| == |b|;
  }

  /**
    Threads that go bottom-up, each through nodes of its own, in any order between
    them: to load a node's bit and look for a neighbour is one step, and to set the
    bit is another, with whatever the other threads do in between.
   */
  method RaceBack(way: Way, work: seq<seq<nat>>, n: nat, visited: array<bv64>) returns (next: seq<nat>)
    requires way.BottomUp? && way.Fits(n) && visited.Length == WordsFor(n) && AllBelow(Joined(work), n)
    requires forall w :: multiset(Joined(work))[w] <= 1
    modifies visited
    ensures Claimed(way.WantedOf(Joined(work)), old(visited[..]), visited[..], multiset(next))
  {
    ghost var before := visited[..];
    ghost var done: seq<nat> := [];
    var none: seq<seq<nat>> := seq(|work|, i => []);
    var team := Team(work, none, none);
    JoinedEmpty(none);
    WantedNone(way, done);
    assert Claimed(way.WantedOf(done), before, visited[..], multiset(Joined(none)));
    assert Held(way, none, before);
    hide Claimed, Joined, WordsFor, Held, Way.Fits, Way.WantedOf, Csr.Valid;
    assert Racing(way, Joined(work), n, before, visited[..], done, team);
    hide Racing, Team.Left;
    while exists t :: 0 <= t < |team.todo| && team.Busy(t)
      invariant Racing(way, Joined(work), n, before, visited[..], done, team)
      decreases team.Left()
    {
      var t :| 0 <= t < |team.todo| && team.Busy(t);
      if team.held[t] != [] {
        team, done := SetStep(way, n, visited, team, t, Joined(work), before, done);
      } else {
        team, done := LoadStep(way, n, visited, team, t, Joined(work), before, done);
      }
    }
    AllDone(way, Joined(work), n, before, visited[..], done, team);
    next := Joined(team.found);
  }

  lemma AllDone(way: Way, work: seq<nat>, n: nat, before: seq<bv64>, now: seq<bv64>, done: seq<nat>, team: Team)
    requires way.BottomUp? ==> way.rev.Valid()
    requires Racing(way, work, n, before, now, done, team)
    requires forall t :: 0 <= t < |team.todo| ==> !team.Busy(t)
    ensures Claimed(way.WantedOf(work), before, now, multiset(Joined(team.found)))
  {
    hide Claimed, Joined, Held, Way.WantedOf, Csr.Valid;
    forall t | 0 <= t < |team.todo|
      ensures team.todo[t] == [] && team.held[t] == []
    {
      assert !team.Busy(t);
    }
    JoinedEmpty(team.todo);
    JoinedEmpty(team.held);
    WantedSame(way, done, work);
  }

  lemma HeldLess(way: Way, held: seq<seq<nat>>, before: seq<bv64>, t: nat)
    requires way.BottomUp? ==> way.rev.Valid()
    requires Held(way, held, before) && t < |held| && held[t] != []
    ensures way.Wants(held[t][0]) && !Marked(before, held[t][0])
    ensures Held(way, held[t := held[t][1..]], before)
  {
    hide Way.Wants, Marked;
  }

  lemma HeldMore(way: Way, held: seq<seq<nat>>, before: seq<bv64>, t: nat, w: nat)
    requires way.BottomUp? ==> way.rev.Valid()
    requires Held(way, held, before) && t < |held| && held[t] == [] && way.Wants(w) && !Marked(before, w)
    ensures Held(way, held[t := held[t] + [w]], before)
  {
    hide Way.Wants, Marked;
  }

  lemma Once(done: seq<nat>, a: seq<nat>, b: seq<nat>, work: seq<nat>, w: nat)
    requires multiset(done) + multiset(a) + multiset(b) == multiset(work) && multiset(work)[w] <= 1 && w in a
    ensures w in work && w !in done
  {
    assert w in multiset(a) && w in multiset(work);
    assert w in done <==> w in multiset(done);
  }

  /** A node's bit loaded and its neighbours looked at: whether it is to be claimed. */
  method Load(way: Way, w: nat, n: nat, visited: array<bv64>, ghost done: seq<nat>, ghost before: seq<bv64>,
              ghost claimed: multiset<nat>) returns (take: bool)
    requires way.BottomUp? && way.Fits(n) && w < n && visited.Length == WordsFor(n)
    requires Claimed(way.WantedOf(done), before, visited[..], claimed)
    ensures take ==> way.Wants(w) && !Marked(before, w)
    ensures !take ==> Claimed(way.WantedOf(done + [w]), before, visited[..], claimed)
  {
    hide Marked, WordsFor, Csr.Valid, Has, Way.Wants, Way.WantedOf;
    WordOf(n, w);
    WantedOne(way, w);
    WantedConcat(way, done, [w]);
    var marked := MarkedNow(visited, w);
    if marked {
      ClaimNone(way.WantedOf(done), before, visited[..], claimed, w);
      assert way.WantedOf(done) + {} == way.WantedOf(done);
      return false;
    }
    take := FindMarked(way.rev, way.frontier, w);
    assert way.WantedOf(done) + {} == way.WantedOf(done);
  }

  /** A node's bit set, by the one thread that has the node: nobody has set it in the meantime. */
  method SetHeld(way: Way, w: nat, n: nat, visited: array<bv64>, ghost done: seq<nat>, ghost before: seq<bv64>,
                 ghost claimed: multiset<nat>)
    requires way.BottomUp? && way.Fits(n) && w < n && visited.Length == WordsFor(n)
    requires Claimed(way.WantedOf(done), before, visited[..], claimed)
    requires way.Wants(w) && !Marked(before, w) && w !in done
    modifies visited
    ensures Claimed(way.WantedOf(done + [w]), before, visited[..], claimed + multiset{w})
  {
    hide Marked, WordsFor, Csr.Valid, Has, Way.Wants;
    WordOf(n, w);
    WantedOne(way, w);
    WantedConcat(way, done, [w]);
    ghost var now := visited[..];
    var clear := FetchOr(visited, w);
    assert !Marked(now, w);
    ClaimOne(way.WantedOf(done), before, now, claimed, w, visited[..]);
  }

  lemma WantedSame(way: Way, a: seq<nat>, b: seq<nat>)
    requires way.BottomUp? ==> way.rev.Valid()
    requires multiset(a) == multiset(b)
    ensures way.WantedOf(a) == way.WantedOf(b)
  {
    hide Way.Wants;
    assert forall w :: w in a <==> w in multiset(a);
    assert forall w :: w in b <==> w in multiset(b);
  }

  // ---- a round top-down ----

  /** What the targets of a frontier are, node by node. */
  function Targets(g: Csr, part: seq<nat>): (r: seq<nat>)
    requires g.Valid() && AllBelow(part, g.Nodes())
    ensures AllBelow(r, g.Nodes())
  { if part == [] then [] else g.Neighbors(part[0]) + Targets(g, part[1..]) }

  lemma {:induction false} TargetsHas(g: Csr, part: seq<nat>, w: nat)
    requires g.Valid() && AllBelow(part, g.Nodes())
    ensures w in Targets(g, part) <==> exists v :: v in part && g.Joins(v, w)
  {
    if part != [] {
      TargetsHas(g, part[1..], w);
      assert part == [part[0]] + part[1..];
      assert w in g.Neighbors(part[0]) <==> g.Joins(part[0], w);
    }
  }

  lemma {:induction false} TargetsConcat(g: Csr, a: seq<nat>, b: seq<nat>)
    requires g.Valid() && AllBelow(a, g.Nodes()) && AllBelow(b, g.Nodes())
    ensures Targets(g, a + b) == Targets(g, a) + Targets(g, b)
  {
    hide Csr.Valid, Csr.Neighbors;
    if a == [] {
      assert a + b == b;
    } else {
      TargetsConcat(g, a[1..], b);
      assert (a + b)[1..] == a[1..] + b;
    }
  }

  lemma TargetsOne(g: Csr, v: nat)
    requires g.Valid() && v < g.Nodes()
    ensures Targets(g, [v]) == g.Neighbors(v)
  {
    assert Targets(g, [v][1..]) == [];
  }

  /** The frontier in one thread: every target in turn. */
  method Expand(g: Csr, frontier: seq<nat>, visited: array<bv64>) returns (next: seq<nat>)
    requires g.Valid() && visited.Length == WordsFor(g.Nodes()) && AllBelow(frontier, g.Nodes())
    modifies visited
    ensures Claimed(TopDown.WantedOf(Targets(g, frontier)), old(visited[..]), visited[..], multiset(next))
  {
    ghost var before := visited[..];
    next := [];
    TargetsNone(g, frontier[..0]);
    WantedNone(TopDown, []);
    assert Claimed(TopDown.WantedOf(Targets(g, frontier[..0])), before, visited[..], multiset(next));
    hide Claimed, Targets, Csr.Valid, Csr.Neighbors, WordsFor, Way.WantedOf;
    for i := 0 to |frontier|
      invariant Claimed(TopDown.WantedOf(Targets(g, frontier[..i])), before, visited[..], multiset(next))
    {
      var v := frontier[i];
      ghost var seen := Targets(g, frontier[..i]);
      next := LookEach(TopDown, g.Neighbors(v), g.Nodes(), visited, TopDown.WantedOf(seen), before, next);
      assert frontier[..i + 1] == frontier[..i] + [v];
      TargetsConcat(g, frontier[..i], [v]);
      TargetsOne(g, v);
      WantedConcat(TopDown, seen, g.Neighbors(v));
    }
    assert frontier[..|frontier|] == frontier;
  }

  lemma TargetsNone(g: Csr, part: seq<nat>)
    requires g.Valid() && part == []
    ensures Targets(g, part) == []
  {
  }

  /** Nodes not visited before that a frontier joins to, of those in `reach`. */
  ghost predicate Fresh(g: Csr, frontier: seq<nat>, before: seq<bv64>, w: nat)
    requires g.Valid()
  { !Marked(before, w) && exists v :: v in frontier && g.Joins(v, w) }

  /** A round over `reach`: each fresh node of it is in the next frontier once, and is marked, and nothing else. */
  ghost predicate Advanced(g: Csr, frontier: seq<nat>, reach: seq<nat>, before: seq<bv64>, now: seq<bv64>,
                           next: seq<nat>)
    requires g.Valid()
  {
    |now| == |before| && AllBelow(next, g.Nodes()) &&
    (forall w :: multiset(next)[w] == if w in reach && Fresh(g, frontier, before, w) then 1 else 0) &&
    (forall w :: Marked(now, w) <==> Marked(before, w) || (w in reach && Fresh(g, frontier, before, w)))
  }

  function ShareOut(g: Csr, parts: seq<seq<nat>>): (r: seq<seq<nat>>)
    requires g.Valid() && forall t :: 0 <= t < |parts| ==> AllBelow(parts[t], g.Nodes())
    ensures |r| == |parts| && forall t :: 0 <= t < |r| ==> r[t] == Targets(g, parts[t])
  { seq(|parts|, t requires 0 <= t < |parts| => Targets(g, parts[t])) }

  /** The parts' targets are the frontier's targets. */
  lemma {:induction false} ShareOutIsAll(g: Csr, s: seq<nat>, n: nat)
    requires g.Valid() && n > 0 && AllBelow(s, g.Nodes())
    requires forall t :: 0 <= t < |Chunks(s, n)| ==> AllBelow(Chunks(s, n)[t], g.Nodes())
    ensures Joined(ShareOut(g, Chunks(s, n))) == Targets(g, s)
    decreases |s|
  {
    hide Csr.Valid, Csr.Neighbors, Targets;
    var parts := Chunks(s, n);
    var work := ShareOut(g, parts);
    if s == [] {
      TargetsNone(g, s);
    } else if |s| <= n {
      assert work == [Targets(g, s)] && work[1..] == [];
    } else {
      ChunksBelow(s[n..], n, g.Nodes());
      ShareOutIsAll(g, s[n..], n);
      assert work[1..] == ShareOut(g, Chunks(s[n..], n));
      TargetsConcat(g, s[..n], s[n..]);
      assert s[..n] + s[n..] == s;
    }
  }

  lemma TargetsAdvance(g: Csr, frontier: seq<nat>, before: seq<bv64>, now: seq<bv64>, next: seq<nat>)
    requires g.Valid() && AllBelow(frontier, g.Nodes())
    requires Claimed(TopDown.WantedOf(Targets(g, frontier)), before, now, multiset(next))
    ensures Advanced(g, frontier, Range(0, g.Nodes()), before, now, next)
  {
    hide Marked, Csr.Joins, Targets, Range;
    forall w: nat
      ensures w in TopDown.WantedOf(Targets(g, frontier)) <==> exists v :: v in frontier && g.Joins(v, w)
      ensures w in TopDown.WantedOf(Targets(g, frontier)) ==> w < g.Nodes()
    {
      TargetsHas(g, frontier, w);
    }
    forall w: nat
      ensures w in Range(0, g.Nodes()) <==> w < g.Nodes()
    {
      RangeHas(0, g.Nodes(), w);
    }
    forall i | 0 <= i < |next|
      ensures next[i] < g.Nodes()
    {
      assert next[i] in multiset(next);
    }
  }

  /** `top_down_level`. */
  method TopDownLevel(g: Csr, frontier: seq<nat>, visited: array<bv64>, threads: nat) returns (next: seq<nat>)
    requires g.Valid() && visited.Length == WordsFor(g.Nodes()) && AllBelow(frontier, g.Nodes())
    modifies visited
    ensures Advanced(g, frontier, Range(0, g.Nodes()), old(visited[..]), visited[..], next)
  {
    hide Claimed, Advanced, Targets, Csr.Valid, WordsFor, Chunks, Way.WantedOf;
    if threads <= 1 || |frontier| < MIN_PARALLEL_FRONTIER {
      next := Expand(g, frontier, visited);
    } else {
      var chunk := CeilDiv(|frontier|, threads);
      ChunkIsSome(|frontier|, threads);
      ChunksBelow(frontier, chunk, g.Nodes());
      ShareOutIsAll(g, frontier, chunk);
      next := Race(ShareOut(g, Chunks(frontier, chunk)), g.Nodes(), visited);
    }
    TargetsAdvance(g, frontier, old(visited[..]), visited[..], next);
  }

  // ---- a round bottom-up ----

  /** The frontier as a bitmap, in a buffer that is cleared first. */
  method MarkFrontier(frontier: seq<nat>, n: nat, bits: array<bv64>)
    requires AllBelow(frontier, n) && bits.Length == WordsFor(n)
    modifies bits
    ensures forall u :: Marked(bits[..], u) <==> u in frontier
  {
    for i := 0 to bits.Length
      invariant forall k :: 0 <= k < i ==> bits[k] == 0
    {
      bits[i] := 0;
    }
    NoneMarked(bits[..]);
    hide Marked, WordsFor;
    for i := 0 to |frontier|
      invariant forall u :: Marked(bits[..], u) <==> u in frontier[..i]
    {
      WordOf(n, frontier[i]);
      assert forall u :: u in frontier[..i + 1] <==> u in frontier[..i] || u == frontier[i];
      var clear := FetchOr(bits, frontier[i]);
    }
    assert frontier[..|frontier|] == frontier;
  }

  lemma NoneMarked(words: seq<bv64>)
    requires forall i :: 0 <= i < |words| ==> words[i] == 0
    ensures forall u :: !Marked(words, u)
  {
    hide Has;
    forall u: nat
      ensures !Marked(words, u)
    {
      NoBits(PlaceIn(u));
    }
  }

  /** `bottom_up_level`. */
  method BottomUpLevel(g: Csr, rev: Csr, frontier: seq<nat>, bits: seq<bv64>, visited: array<bv64>, threads: nat)
    returns (next: seq<nat>)
    requires g.Valid() && rev.Valid() && Reverses(rev, g) && AllBelow(frontier, g.Nodes())
    requires |bits| == visited.Length == WordsFor(g.Nodes()) && forall u :: Marked(bits, u) <==> u in frontier
    modifies visited
    ensures Advanced(g, frontier, Scanned(g.Nodes(), threads), old(visited[..]), visited[..], next)
  {
    hide Advanced, Csr.Valid, Csr.Joins, WordsFor, Way.WantedOf, Range, Ranges, Joined, Marked, Reverses;
    var n := rev.Nodes();
    var way := BottomUp(rev, bits);
    ghost var before := visited[..];
    assert n == g.Nodes() by { ReversesNodes(rev, g); }
    ScannedInside(n, threads);
    if threads <= 1 || n < MIN_PARALLEL_FRONTIER {
      ClaimNothing(way, before);
      next := LookEach(way, Range(0, n), n, visited, {}, before, []);
      assert {} + way.WantedOf(Range(0, n)) == way.WantedOf(Range(0, n));
    } else {
      RangesOnce(n, threads);
      next := RaceBack(way, Ranges(n, threads), n, visited);
    }
    ScanAdvances(g, rev, frontier, bits, Scanned(n, threads), before, visited[..], next);
  }

  lemma ReversesNodes(rev: Csr, g: Csr)
    requires rev.Valid() && g.Valid() && Reverses(rev, g)
    ensures rev.Nodes() == g.Nodes()
  {
  }

  lemma ClaimNothing(way: Way, words: seq<bv64>)
    ensures Claimed({}, words, words, multiset([]))
  {
    hide Marked;
  }

  lemma ScanAdvances(g: Csr, rev: Csr, frontier: seq<nat>, bits: seq<bv64>, reach: seq<nat>, before: seq<bv64>,
                     now: seq<bv64>, next: seq<nat>)
    requires g.Valid() && rev.Valid() && Reverses(rev, g) && AllBelow(reach, g.Nodes())
    requires forall u :: Marked(bits, u) <==> u in frontier
    requires Claimed(BottomUp(rev, bits).WantedOf(reach), before, now, multiset(next))
    ensures Advanced(g, frontier, reach, before, now, next)
  {
    hide Marked, Csr.Joins;
    var way := BottomUp(rev, bits);
    forall w: nat
      ensures w in way.WantedOf(reach) <==> w in reach && exists v :: v in frontier && g.Joins(v, w)
    {
      if u :| rev.Joins(w, u) && Marked(bits, u) {
        assert u in frontier && g.Joins(u, w);
      }
      if v :| v in frontier && g.Joins(v, w) {
        assert rev.Joins(w, v) && Marked(bits, v);
      }
    }
    forall i | 0 <= i < |next|
      ensures next[i] < g.Nodes()
    {
      assert next[i] in multiset(next);
      assert next[i] in reach;
    }
  }

  // ---- the whole search ----

  /** What a search has to have after `d` rounds. */
  ghost predicate Tracks(g: Csr, from: set<nat>, back: bool, threads: nat, d: nat, visited: seq<bv64>,
                         frontier: seq<nat>, levels: seq<nat>)
    requires g.Valid()
  {
    var w := WaveAt(g, from, back, threads, d);
    |levels| == g.Nodes() && Distinct(frontier) &&
    (forall v: nat :: Marked(visited, v) <==> v in w.seen) &&
    (forall v: nat :: v in frontier <==> v in w.front) &&
    (forall v :: 0 <= v < g.Nodes() ==> levels[v] == WaveLevel(g, from, back, threads, v, d))
  }

  function SetOf(s: seq<nat>): set<nat> { set v | v in s }

  /** The sources, each once, at level zero. */
  method Start(g: Csr, sources: seq<nat>, ghost back: bool, ghost threads: nat)
    returns (visited: array<bv64>, levels: array<nat>, frontier: seq<nat>)
    requires g.Valid() && AllBelow(sources, g.Nodes())
    ensures fresh(visited) && fresh(levels) && (visited as object) != levels
    ensures visited.Length == WordsFor(g.Nodes()) && AllBelow(frontier, g.Nodes())
    ensures Tracks(g, SetOf(sources), back, threads, 0, visited[..], frontier, levels[..])
  {
    levels := new nat[g.Nodes()](i => UNREACHED);
    visited := new bv64[WordsFor(g.Nodes())](i => 0);
    frontier := [];
    NoneMarked(visited[..]);
    hide Marked, Csr.Valid, WordsFor;
    for i := 0 to |sources|
      invariant AllBelow(frontier, g.Nodes()) && Distinct(frontier)
      invariant forall u :: Marked(visited[..], u) <==> u in sources[..i]
      invariant forall u :: u in frontier <==> u in sources[..i]
      invariant forall v :: 0 <= v < levels.Length ==> levels[v] == if v in sources[..i] then 0 else UNREACHED
    {
      var s := sources[i];
      WordOf(g.Nodes(), s);
      assert forall u :: u in sources[..i + 1] <==> u in sources[..i] || u == s;
      var clear := FetchOr(visited, s);
      if clear {
        levels[s] := 0;
        frontier := frontier + [s];
      }
    }
    assert sources[..|sources|] == sources;
  }

  /** A round over what it may visit takes the search to the next wave. */
  lemma RoundTracks(g: Csr, from: set<nat>, back: bool, threads: nat, d: nat, frontier: seq<nat>, reach: seq<nat>,
                    before: seq<bv64>, now: seq<bv64>, next: seq<nat>, levels: seq<nat>, after: seq<nat>)
    requires g.Valid() && Tracks(g, from, back, threads, d, before, frontier, levels)
    requires reach == Reach(g.Nodes(), back, threads, |frontier|)
    requires Advanced(g, frontier, reach, before, now, next) && |after| == |levels|
    requires forall v :: 0 <= v < |after| ==> after[v] == if v in next then d + 1 else levels[v]
    ensures Tracks(g, from, back, threads, d + 1, now, next, after)
  {
    hide Csr.Joins, Csr.Valid, Marked, WaveAt, Reach, Distinct;
    var w := WaveAt(g, from, back, threads, d);
    SizeOfDistinct(frontier, w.front);
    WaveNext(g, from, back, threads, d);
    forall v: nat
      ensures v in next <==> v in NextWave(g, back, threads, w).front
    {
      assert v in next <==> v in multiset(next);
    }
    DistinctOnce(next);
  }

  lemma {:induction false} SizeOfDistinct(s: seq<nat>, all: set<nat>)
    requires Distinct(s) && forall v: nat :: v in s <==> v in all
    ensures |all| == |s|
  {
    if s == [] {
      assert all == {};
    } else {
      var last := |s| - 1;
      SizeOfDistinct(s[..last], all - {s[last]});
    }
  }

  lemma {:induction false} DistinctOnce(s: seq<nat>)
    requires forall w :: multiset(s)[w] <= 1
    ensures Distinct(s)
  {
    if s != [] {
      var last := |s| - 1;
      assert s == s[..last] + [s[last]];
      assert multiset(s) == multiset(s[..last]) + multiset{s[last]};
      assert multiset(s)[s[last]] == multiset(s[..last])[s[last]] + 1;
      forall w
        ensures multiset(s[..last])[w] <= 1
      {
        assert multiset(s[..last])[w] <= multiset(s)[w];
      }
      DistinctOnce(s[..last]);
      assert s[last] !in multiset(s[..last]);
    }
  }

  /** A search that is out of frontier, or at its bound, has its answer. */
  lemma TracksAll(g: Csr, from: set<nat>, back: bool, threads: nat, d: nat, bound: nat, visited: seq<bv64>,
                  frontier: seq<nat>, levels: seq<nat>)
    requires g.Valid() && d <= bound && Tracks(g, from, back, threads, d, visited, frontier, levels)
    requires frontier == [] || d == bound
    ensures |levels| == g.Nodes()
    ensures forall v :: 0 <= v < g.Nodes() ==> levels[v] == WaveLevel(g, from, back, threads, v, bound)
  {
    hide Csr.Joins, Csr.Valid, Marked, WaveAt, WaveLevel, Distinct;
    if d < bound {
      assert WaveAt(g, from, back, threads, d).front == {};
      forall v: nat
        ensures WaveLevel(g, from, back, threads, v, bound) == WaveLevel(g, from, back, threads, v, d)
      {
        WaveStops(g, from, back, threads, v, d, bound);
      }
    }
  }

  /** Whether a search can be trusted to miss nothing. */
  predicate Exact(rev: Option<Csr>, n: nat, threads: nat) { rev.None? || EndsInTime(n, threads) }

  /** `recursive_bfs`. */
  method RecursiveBfs(g: Csr, rev: Option<Csr>, sources: seq<nat>, maxHops: nat, threads: nat)
    returns (found: seq<nat>)
    requires g.Valid() && AllBelow(sources, g.Nodes()) && g.Nodes() <= UNREACHED
    requires rev.Some? ==> rev.value.Valid() && Reverses(rev.value, g)
    ensures |found| == g.Nodes()
    ensures forall v :: 0 <= v < g.Nodes() ==>
      found[v] == WaveLevel(g, SetOf(sources), rev.Some?, threads, v, maxHops)
    ensures Exact(rev, g.Nodes(), threads) ==>
      forall v :: 0 <= v < g.Nodes() ==> found[v] == Level(g, SetOf(sources), v, maxHops)
  {
    hide Csr.Valid, Marked, WordsFor, Advanced, Tracks, Scanned, EndsInTime, Reverses, Range, Level, WaveLevel;
    var n := g.Nodes();
    ghost var from, back := SetOf(sources), rev.Some?;
    var visited, levels, frontier := Start(g, sources, back, threads);
    TracksLength(g, from, back, threads, 0, visited[..], frontier, levels[..]);
    var bits := new bv64[WordsFor(n)](i => 0);
    var depth := 0;
    while frontier != [] && depth < maxHops
      invariant depth <= maxHops && AllBelow(frontier, n)
      invariant Tracks(g, from, back, threads, depth, visited[..], frontier, levels[..])
      decreases maxHops - depth
    {
      ghost var before, had := visited[..], levels[..];
      var next;
      if rev.Some? && |frontier| > n / DENSE_FRACTION {
        MarkFrontier(frontier, n, bits);
        next := BottomUpLevel(g, rev.value, frontier, bits[..], visited, threads);
      } else {
        next := TopDownLevel(g, frontier, visited, threads);
      }
      ghost var now, reach := visited[..], Reach(n, back, threads, |frontier|);
      NextBelow(g, frontier, reach, before, now, next);
      depth := depth + 1;
      for i := 0 to |next|
        invariant visited[..] == now
        invariant forall v :: 0 <= v < n ==> levels[v] == if v in next[..i] then depth else had[v]
      {
        assert forall v :: v in next[..i + 1] <==> v in next[..i] || v == next[i];
        levels[next[i]] := depth;
      }
      assert next[..|next|] == next;
      RoundTracks(g, from, back, threads, depth - 1, frontier, reach, before, now, next, had, levels[..]);
      frontier := next;
    }
    TracksAll(g, from, back, threads, depth, maxHops, visited[..], frontier, levels[..]);
    found := levels[..];
    if Exact(rev, n, threads) {
      forall v | 0 <= v < n
        ensures found[v] == Level(g, from, v, maxHops)
      {
        WaveLevelIsLevel(g, from, back, threads, v, maxHops);
      }
    }
  }

  lemma TracksLength(g: Csr, from: set<nat>, back: bool, threads: nat, d: nat, visited: seq<bv64>,
                     frontier: seq<nat>, levels: seq<nat>)
    requires g.Valid() && Tracks(g, from, back, threads, d, visited, frontier, levels)
    ensures |levels| == g.Nodes()
  {
  }

  lemma NextBelow(g: Csr, frontier: seq<nat>, reach: seq<nat>, before: seq<bv64>, now: seq<bv64>, next: seq<nat>)
    requires g.Valid() && Advanced(g, frontier, reach, before, now, next)
    ensures AllBelow(next, g.Nodes())
  {
  }
}
