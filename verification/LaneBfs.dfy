/**
  `multi_source_bfs` and `hybrid_bfs` of crates/zu-query/src/recursive.rs: up to 64
  searches in one pass over the adjacency, a bit of a mask for each, and the choice
  between that and one search at a time.
 */
module LaneBfs {
  import opened Common
  import opened Bits
  import opened Csr
  import opened Walks
  import opened Morsels
  import opened Waves
  import opened Bfs

  const MSBFS_LANES := 64
  const MSBFS_MIN_SOURCES := MSBFS_LANES

  /** A source's place in the list, a node, and how many hops there are between them. */
  type Event = (nat, nat, nat)

  /** Every pair of a source and a node within `bound` hops of it is told once with its hop count, and nothing else. */
  ghost predicate Tells(g: Csr, sources: seq<nat>, bound: nat, events: multiset<Event>)
    requires g.Valid()
  {
    forall l: nat, v: nat, d: nat ::
      events[(l, v, d)] == if l < |sources| && d <= bound && Hops(g, {sources[l]}, v, d) then 1 else 0
  }

  /** So a pair is told at one level exactly when the node can be reached within the bound. */
  lemma EachPairOnce(g: Csr, sources: seq<nat>, bound: nat, events: multiset<Event>, l: nat, v: nat, d: nat)
    requires g.Valid() && Tells(g, sources, bound, events) && l < |sources|
    ensures events[(l, v, d)] == if Within(g, {sources[l]}, v, bound) && d == HopCount(g, {sources[l]}, v, bound)
                                 then 1 else 0
  {
    hide Hops, Within;
    var from := {sources[l]};
    if d <= bound && Hops(g, from, v, d) {
      HopsIsWithin(g, from, v, d, bound);
      HopsOnce(g, from, v, d, HopCount(g, from, v, bound));
    }
  }

  lemma HopsIsWithin(g: Csr, from: set<nat>, v: nat, d: nat, bound: nat)
    requires g.Valid() && d <= bound && Hops(g, from, v, d)
    ensures Within(g, from, v, bound)
  {
    WithinGrows(g, from, v, d, bound);
  }

  // ---- one lane batch ----

  ghost predicate LaneWithin(g: Csr, sources: seq<nat>, k: Place, v: nat, d: nat)
    requires g.Valid()
  { Index(k) < |sources| && Within(g, {sources[Index(k)]}, v, d) }

  ghost predicate LaneHops(g: Csr, sources: seq<nat>, k: Place, v: nat, d: nat)
    requires g.Valid()
  { Index(k) < |sources| && Hops(g, {sources[Index(k)]}, v, d) }

  /** A list of the nodes whose mask is not empty, each once. */
  ghost predicate Lists(active: seq<nat>, masks: seq<bv64>) {
    AllBelow(active, |masks|) && Distinct(active) && forall v :: 0 <= v < |masks| ==> (v in active <==> masks[v] != 0)
  }

  predicate AllZero(masks: seq<bv64>) { forall v :: 0 <= v < |masks| ==> masks[v] == 0 }

  /** The arrays between two rounds: who was seen so far, and who at this depth. */
  ghost predicate Ready(g: Csr, sources: seq<nat>, d: nat, seen: seq<bv64>, masks: seq<bv64>, next: seq<bv64>,
                        active: seq<nat>)
    requires g.Valid()
  {
    |seen| == |masks| == |next| == g.Nodes() && AllZero(next) && Lists(active, masks) &&
    (forall v, k :: 0 <= v < |seen| ==> (Has(seen[v], k) <==> LaneWithin(g, sources, k, v, d))) &&
    (forall v, k :: 0 <= v < |masks| ==> (Has(masks[v], k) <==> LaneHops(g, sources, k, v, d)))
  }

  /** The first `i` sources, each in its own lane. */
  ghost predicate Marks(sources: seq<nat>, i: nat, words: seq<bv64>)
    requires i <= |sources|
  {
    forall v, k :: 0 <= v < |words| ==> (Has(words[v], k) <==> Index(k) < i && sources[Index(k)] == v)
  }

  lemma MarksMore(sources: seq<nat>, i: nat, words: seq<bv64>)
    requires i < |sources| && i < MSBFS_LANES && sources[i] < |words| && Marks(sources, i, words)
    ensures Marks(sources, i + 1, words[sources[i] := With(words[sources[i]], PlaceOf(i))])
  {
    hide Has, With;
    var s := sources[i];
    WithAll(words[s], PlaceOf(i));
    forall k: Place
      ensures Index(k) < i + 1 <==> Index(k) < i || k == PlaceOf(i)
    {
      PlaceOfIndex(k);
    }
  }

  /** A node whose mask gains a bit is on the list. */
  lemma ListsMore(active: seq<nat>, masks: seq<bv64>, s: nat, m: bv64)
    requires Lists(active, masks) && s < |masks| && m != 0
    ensures Lists(if masks[s] == 0 then active + [s] else active, masks[s := m])
  {
  }

  /** The first `i` sources told at level zero. */
  ghost predicate TellsFirst(sources: seq<nat>, i: nat, events: multiset<Event>)
    requires i <= |sources|
  {
    forall l: nat, v: nat, d: nat :: events[(l, v, d)] == if l < i && d == 0 && v == sources[l] then 1 else 0
  }

  /** The sources, each in its own lane, at level zero. */
  method Start(g: Csr, sources: seq<nat>, seen: array<bv64>, masks: array<bv64>)
    returns (active: seq<nat>, events: seq<Event>)
    requires g.Valid() && AllBelow(sources, g.Nodes()) && |sources| <= MSBFS_LANES
    requires seen != masks && seen.Length == masks.Length == g.Nodes() && AllZero(seen[..]) && AllZero(masks[..])
    modifies seen, masks
    ensures Lists(active, masks[..]) && TellsFirst(sources, |sources|, multiset(events))
    ensures Marks(sources, |sources|, seen[..]) && Marks(sources, |sources|, masks[..])
  {
    hide Has, With, Csr.Valid, Marks, Lists, TellsFirst;
    active, events := [], [];
    MarksNone(sources, seen[..]);
    MarksNone(sources, masks[..]);
    ListsNone(masks[..]);
    TellsNone(sources);
    for i := 0 to |sources|
      invariant Lists(active, masks[..]) && TellsFirst(sources, i, multiset(events))
      invariant Marks(sources, i, seen[..]) && Marks(sources, i, masks[..])
    {
      var s, lane := sources[i], PlaceOf(i);
      MarksMore(sources, i, seen[..]);
      MarksMore(sources, i, masks[..]);
      WithAll(masks[s], lane);
      ListsMore(active, masks[..], s, With(masks[s], lane));
      if masks[s] == 0 {
        active := active + [s];
      }
      ghost var wasSeen, was := seen[..], masks[..];
      seen[s] := With(seen[s], lane);
      masks[s] := With(masks[s], lane);
      assert seen[..] == wasSeen[s := With(wasSeen[s], lane)] && masks[..] == was[s := With(was[s], lane)];
      TellsMore(sources, i, events);
      events := events + [(i, s, 0)];
    }
  }

  lemma MarksNone(sources: seq<nat>, words: seq<bv64>)
    requires AllZero(words)
    ensures Marks(sources, 0, words)
  {
    hide Has;
    ZeroHas();
  }

  lemma TellsNone(sources: seq<nat>)
    ensures TellsFirst(sources, 0, multiset([]))
  {
  }

  lemma TellsMore(sources: seq<nat>, i: nat, events: seq<Event>)
    requires i < |sources| && TellsFirst(sources, i, multiset(events))
    ensures TellsFirst(sources, i + 1, multiset(events + [(i, sources[i], 0)]))
  {
  }

  lemma ListsNone(masks: seq<bv64>)
    requires AllZero(masks)
    ensures Lists([], masks)
  {
  }

  lemma ZeroHas()
    ensures forall k :: !Has(0, k)
  {
    hide Has;
    forall k: Place
      ensures !Has(0, k)
    {
      NoBits(k);
    }
  }

  lemma WithAll(m: bv64, lane: Place)
    ensures With(m, lane) != 0
    ensures forall k :: Has(With(m, lane), k) <==> Has(m, k) || k == lane
  {
    hide Has, With;
    forall k: Place
      ensures Has(With(m, lane), k) <==> Has(m, k) || k == lane
    {
      WithBit(m, lane, k);
    }
    SomeBit(With(m, lane));
    assert Has(With(m, lane), lane);
  }

  // ---- a round for every lane at once ----

  /** What a node's mask adds to the nodes it joins to: the lanes that had not seen them. */
  ghost predicate Spreads(list: seq<nat>, m: bv64, seen: seq<bv64>, before: seq<bv64>, now: seq<bv64>) {
    |seen| == |before| == |now| &&
    forall w, k :: 0 <= w < |now| ==>
      (Has(now[w], k) <==> Has(before[w], k) || (w in list && Has(m, k) && !Has(seen[w], k)))
  }

  lemma SpreadsNone(m: bv64, seen: seq<bv64>, now: seq<bv64>)
    requires |seen| == |now|
    ensures Spreads([], m, seen, now, now)
  {
    hide Has;
  }

  lemma SpreadsMore(list: seq<nat>, w: nat, m: bv64, seen: seq<bv64>, before: seq<bv64>, now: seq<bv64>,
                    after: seq<bv64>)
    requires Spreads(list, m, seen, before, now) && w < |now|
    requires after == if Minus(m, seen[w]) == 0 then now else now[w := Union(now[w], Minus(m, seen[w]))]
    ensures Spreads(list + [w], m, seen, before, after)
  {
    hide Has, Minus, Union;
    forall u, k | 0 <= u < |after|
      ensures Has(after[u], k) <==> Has(before[u], k) || (u in list + [w] && Has(m, k) && !Has(seen[u], k))
    {
      SpreadsAt(list, w, m, seen, before, now, after, u, k);
    }
  }

  /** One lane of one node. */
  lemma SpreadsAt(list: seq<nat>, w: nat, m: bv64, seen: seq<bv64>, before: seq<bv64>, now: seq<bv64>,
                  after: seq<bv64>, u: nat, k: Place)
    requires Spreads(list, m, seen, before, now) && w < |now| && u < |now|
    requires after == if Minus(m, seen[w]) == 0 then now else now[w := Union(now[w], Minus(m, seen[w]))]
    ensures Has(after[u], k) <==> Has(before[u], k) || (u in list + [w] && Has(m, k) && !Has(seen[u], k))
  {
    hide Has, Minus, Union;
    var come := Minus(m, seen[w]);
    assert u in list + [w] <==> u in list || u == w;
    MinusBit(m, seen[w], k);
    UnionBit(now[w], come, k);
    NoBits(k);
  }

  lemma UnionAll(a: bv64, b: bv64)
    ensures forall k :: Has(Union(a, b), k) <==> Has(a, k) || Has(b, k)
    ensures b != 0 ==> Union(a, b) != 0
  {
    hide Has, Union;
    forall k: Place
      ensures Has(Union(a, b), k) <==> Has(a, k) || Has(b, k)
    {
      UnionBit(a, b, k);
    }
    SomeBit(b);
    SomeBit(Union(a, b));
  }

  method SpreadOne(list: seq<nat>, m: bv64, seen: array<bv64>, next: array<bv64>, had: seq<nat>)
    returns (active: seq<nat>)
    requires seen != next && seen.Length == next.Length && AllBelow(list, next.Length) && Lists(had, next[..])
    modifies next
    ensures Lists(active, next[..]) && Spreads(list, m, seen[..], old(next[..]), next[..])
  {
    hide Has, Minus, Union, Spreads, Lists;
    ghost var before := next[..];
    active := had;
    SpreadsNone(m, seen[..], before);
    for j := 0 to |list|
      invariant Lists(active, next[..]) && Spreads(list[..j], m, seen[..], before, next[..])
    {
      var w := list[j];
      var come := Minus(m, seen[w]);
      ghost var now := next[..];
      assert list[..j + 1] == list[..j] + [w];
      if come == 0 {
        SpreadsMore(list[..j], w, m, seen[..], before, now, now);
      } else {
        SpreadsMore(list[..j], w, m, seen[..], before, now, now[w := Union(now[w], come)]);
        UnionAll(now[w], come);
        ListsMore(active, now, w, Union(now[w], come));
        if next[w] == 0 {
          active := active + [w];
        }
        next[w] := Union(next[w], come);
        assert next[..] == now[w := Union(now[w], come)];
      }
    }
    assert list[..|list|] == list;
  }

  /** What a part of the frontier gives each node: the lanes that come to it and had not seen it. */
  ghost predicate Comes(g: Csr, part: seq<nat>, masks: seq<bv64>, seen: seq<bv64>, now: seq<bv64>)
    requires g.Valid()
  {
    |masks| == |seen| == |now| == g.Nodes() && AllBelow(part, g.Nodes()) &&
    forall w, k :: 0 <= w < |now| ==>
      (Has(now[w], k) <==>
         !Has(seen[w], k) && exists v :: v in part && v < |masks| && g.Joins(v, w) && Has(masks[v], k))
  }

  lemma ComesNone(g: Csr, masks: seq<bv64>, seen: seq<bv64>, now: seq<bv64>)
    requires g.Valid() && |masks| == |seen| == |now| == g.Nodes() && AllZero(now)
    ensures Comes(g, [], masks, seen, now)
  {
    hide Has;
    ZeroHas();
  }

  lemma ComesMore(g: Csr, part: seq<nat>, v: nat, masks: seq<bv64>, seen: seq<bv64>, before: seq<bv64>, now: seq<bv64>)
    requires g.Valid() && v < g.Nodes() && Comes(g, part, masks, seen, before)
    requires Spreads(g.Neighbors(v), masks[v], seen, before, now)
    ensures Comes(g, part + [v], masks, seen, now)
  {
    hide Has, Csr.Valid;
    assert forall u :: u in part + [v] <==> u in part || u == v;
    forall w, k | 0 <= w < |now|
      ensures Has(now[w], k) <==>
        !Has(seen[w], k) && exists u :: u in part + [v] && u < |masks| && g.Joins(u, w) && Has(masks[u], k)
    {
      assert w in g.Neighbors(v) <==> g.Joins(v, w);
      if w in g.Neighbors(v) && Has(masks[v], k) {
        assert v in part + [v];
      }
    }
  }

  /** The first pass of a round: every active node's mask to all it joins to. */
  method SpreadAll(g: Csr, active: seq<nat>, seen: array<bv64>, masks: array<bv64>, next: array<bv64>)
    returns (more: seq<nat>)
    requires g.Valid() && seen != next && masks != next && AllBelow(active, g.Nodes())
    requires seen.Length == masks.Length == next.Length == g.Nodes() && AllZero(next[..])
    modifies next
    ensures Lists(more, next[..]) && Comes(g, active, masks[..], seen[..], next[..])
  {
    hide Has, Spreads, Lists, Comes, Csr.Valid;
    more := [];
    ListsNone(next[..]);
    ComesNone(g, masks[..], seen[..], next[..]);
    for i := 0 to |active|
      invariant Lists(more, next[..]) && Comes(g, active[..i], masks[..], seen[..], next[..])
    {
      var v := active[i];
      ghost var before := next[..];
      more := SpreadOne(g.Neighbors(v), masks[v], seen, next, more);
      assert active[..i + 1] == active[..i] + [v];
      ComesMore(g, active[..i], v, masks[..], seen[..], before, next[..]);
    }
    assert active[..|active|] == active;
  }

  /** The second pass: the masks of this round taken off. */
  method ClearMasks(active: seq<nat>, masks: array<bv64>)
    requires Lists(active, masks[..])
    modifies masks
    ensures AllZero(masks[..])
  {
    ghost var before := masks[..];
    for i := 0 to |active|
      invariant forall v :: 0 <= v < masks.Length ==> masks[v] == if v in active[..i] then 0 else before[v]
    {
      assert forall v :: v in active[..i + 1] <==> v in active[..i] || v == active[i];
      masks[active[i]] := 0;
    }
    assert active[..|active|] == active;
  }

  /** The events of some nodes, one for each lane of their masks. */
  ghost predicate Adds(nodes: seq<nat>, masks: seq<bv64>, depth: nat, before: multiset<Event>, now: multiset<Event>) {
    AllBelow(nodes, |masks|) &&
    forall l: nat, v: nat, d: nat ::
      now[(l, v, d)] == before[(l, v, d)] +
        if d == depth && v in nodes && l < MSBFS_LANES && Has(masks[v], PlaceOf(l)) then 1 else 0
  }

  /** The lanes of a mask still to be told. */
  ghost predicate Telling(w: nat, m: bv64, left: bv64, depth: nat, before: multiset<Event>, now: multiset<Event>) {
    (forall k :: Has(left, k) ==> Has(m, k)) &&
    forall l: nat, v: nat, d: nat ::
      now[(l, v, d)] == before[(l, v, d)] +
        if d == depth && v == w && l < MSBFS_LANES && Has(m, PlaceOf(l)) && !Has(left, PlaceOf(l)) then 1 else 0
  }

  lemma TellingStep(w: nat, m: bv64, left: bv64, depth: nat, before: multiset<Event>, now: multiset<Event>)
    requires left != 0 && Telling(w, m, left, depth, before, now)
    ensures Telling(w, m, Rest(left), depth, before, now + multiset{(Index(TrailingZeros(left)), w, depth)})
  {
    hide Has, Rest, TrailingZeros, Low;
    var low := TrailingZeros(left);
    forall k: Place
      ensures Has(Rest(left), k) <==> Has(left, k) && k != low
    {
      ClearsLowest(left, k);
    }
    PlaceOfIndex(low);
    assert Has(left, low);
    forall l: nat | l < MSBFS_LANES
      ensures PlaceOf(l) == low <==> l == Index(low)
    {
    }
  }

  /** Tells each lane of a mask, lowest first. */
  method TellLanes(m: bv64, w: nat, depth: nat, had: seq<Event>) returns (events: seq<Event>)
    ensures Telling(w, m, 0, depth, multiset(had), multiset(events))
  {
    hide Has, Rest, TrailingZeros, Telling, Low, Room;
    events := had;
    var left := m;
    TellingStart(w, m, depth, multiset(had));
    while left != 0
      invariant Telling(w, m, left, depth, multiset(had), multiset(events))
      decreases Room(left)
    {
      TellingStep(w, m, left, depth, multiset(had), multiset(events));
      RestShrinks(left);
      var e := (Index(TrailingZeros(left)), w, depth);
      assert multiset(events + [e]) == multiset(events) + multiset{e};
      events := events + [e];
      left := Rest(left);
    }
  }

  lemma TellingStart(w: nat, m: bv64, depth: nat, had: multiset<Event>)
    ensures Telling(w, m, m, depth, had, had)
  {
    hide Has;
  }

  lemma AddsMore(nodes: seq<nat>, w: nat, masks: seq<bv64>, depth: nat, before: multiset<Event>, now: multiset<Event>,
                 after: multiset<Event>)
    requires w < |masks| && w !in nodes && Adds(nodes, masks, depth, before, now)
    requires Telling(w, masks[w], 0, depth, now, after)
    ensures Adds(nodes + [w], masks, depth, before, after)
  {
    hide Has;
    ZeroHas();
    assert forall v :: v in nodes + [w] <==> v in nodes || v == w;
  }

  /** The arrays while the next masks are taken over, as far as `nodes`. */
  ghost predicate TakenOver(nodes: seq<nat>, come: seq<bv64>, before: seq<bv64>, seen: seq<bv64>, masks: seq<bv64>,
                            next: seq<bv64>)
  {
    |come| == |before| == |seen| == |masks| == |next| &&
    forall v :: 0 <= v < |seen| ==>
      if v in nodes then seen[v] == Union(before[v], come[v]) && masks[v] == come[v] && next[v] == 0
      else seen[v] == before[v] && masks[v] == 0 && next[v] == come[v]
  }

  /** The third pass: what came is seen, told, and the next frontier. */
  method TakeOver(active: seq<nat>, depth: nat, seen: array<bv64>, masks: array<bv64>, next: array<bv64>,
                  had: seq<Event>) returns (events: seq<Event>)
    requires seen != masks && seen != next && masks != next && seen.Length == masks.Length == next.Length
    requires AllZero(masks[..]) && Lists(active, next[..])
    modifies seen, masks, next
    ensures TakenOver(active, old(next[..]), old(seen[..]), seen[..], masks[..], next[..])
    ensures Adds(active, old(next[..]), depth, multiset(had), multiset(events))
  {
    hide Has, Union, Adds, Telling;
    ghost var come, before := next[..], seen[..];
    events := had;
    AddsNone(come, depth, multiset(had));
    for i := 0 to |active|
      invariant TakenOver(active[..i], come, before, seen[..], masks[..], next[..])
      invariant Adds(active[..i], come, depth, multiset(had), multiset(events))
    {
      var w := active[i];
      assert w !in active[..i];
      assert active[..i + 1] == active[..i] + [w];
      assert forall v :: v in active[..i + 1] <==> v in active[..i] || v == w;
      var m := next[w];
      next[w] := 0;
      seen[w] := Union(seen[w], m);
      masks[w] := m;
      ghost var now := multiset(events);
      events := TellLanes(m, w, depth, events);
      AddsMore(active[..i], w, come, depth, multiset(had), now, multiset(events));
    }
    assert active[..|active|] == active;
  }

  lemma AddsNone(masks: seq<bv64>, depth: nat, had: multiset<Event>)
    ensures Adds([], masks, depth, had, had)
  {
    hide Has;
  }

  // ---- rounds ----

  /** What comes in a round is what each lane first reaches at the next depth. */
  lemma ComesIsHops(g: Csr, sources: seq<nat>, d: nat, seen: seq<bv64>, masks: seq<bv64>, next: seq<bv64>,
                    active: seq<nat>, come: seq<bv64>, w: nat, k: Place)
    requires g.Valid() && AllBelow(sources, g.Nodes()) && Ready(g, sources, d, seen, masks, next, active)
    requires Comes(g, active, masks, seen, come) && w < g.Nodes()
    ensures Has(come[w], k) <==> LaneHops(g, sources, k, w, d + 1)
  {
    hide Has, Hops, Within, Csr.Valid, Csr.Joins;
    if Index(k) < |sources| {
      var from := {sources[Index(k)]};
      HopsNext(g, from, w, d);
      if u: nat :| Hops(g, from, u, d) && g.Joins(u, w) {
        HopsInside(g, from, u, d);
        assert Has(masks[u], k);
        SomeBit(masks[u]);
        assert u in active;
      }
    }
  }

  /** Sources as they were marked are ready for the first round. */
  lemma StartReady(g: Csr, sources: seq<nat>, seen: seq<bv64>, masks: seq<bv64>, next: seq<bv64>, active: seq<nat>,
                   events: multiset<Event>)
    requires g.Valid() && |seen| == |masks| == |next| == g.Nodes() && AllZero(next) && Lists(active, masks)
    requires Marks(sources, |sources|, seen) && Marks(sources, |sources|, masks)
    requires TellsFirst(sources, |sources|, events)
    ensures Ready(g, sources, 0, seen, masks, next, active) && Tells(g, sources, 0, events)
  {
    hide Has, Csr.Valid, Csr.Joins;
  }

  /** What a lane has seen after a round is what is within one hop more. */
  lemma LaneNext(g: Csr, sources: seq<nat>, k: Place, v: nat, d: nat)
    requires g.Valid()
    ensures LaneWithin(g, sources, k, v, d + 1) <==>
      LaneWithin(g, sources, k, v, d) || LaneHops(g, sources, k, v, d + 1)
  {
    hide Within, Hops, Csr.Valid;
    if Index(k) < |sources| { HopsNext(g, {sources[Index(k)]}, v, d); }
  }

  /** A round done for all lanes: the arrays are ready for the next one. */
  lemma RoundReady(g: Csr, sources: seq<nat>, d: nat, seen: seq<bv64>, masks: seq<bv64>, next: seq<bv64>,
                   active: seq<nat>, more: seq<nat>, come: seq<bv64>,
                   seen1: seq<bv64>, masks1: seq<bv64>, next1: seq<bv64>)
    requires g.Valid() && AllBelow(sources, g.Nodes()) && Ready(g, sources, d, seen, masks, next, active)
    requires Comes(g, active, masks, seen, come) && Lists(more, come)
    requires TakenOver(more, come, seen, seen1, masks1, next1)
    ensures Ready(g, sources, d + 1, seen1, masks1, next1, more)
  {
    hide Has, Union, LaneHops, LaneWithin, Csr.Valid, Comes;
    ZeroHas();
    assert |seen1| == g.Nodes();
    forall v, k | 0 <= v < |seen1|
      ensures Has(seen1[v], k) <==> LaneWithin(g, sources, k, v, d + 1)
      ensures Has(masks1[v], k) <==> LaneHops(g, sources, k, v, d + 1)
    {
      ComesIsHops(g, sources, d, seen, masks, next, active, come, v, k);
      LaneNext(g, sources, k, v, d);
      UnionAll(seen[v], come[v]);
      assert v in more <==> come[v] != 0;
    }
    assert forall v :: 0 <= v < |masks1| ==> masks1[v] == come[v];
  }

  /** And what it told is what the next depth holds. */
  lemma RoundTells(g: Csr, sources: seq<nat>, d: nat, seen: seq<bv64>, masks: seq<bv64>, next: seq<bv64>,
                   active: seq<nat>, more: seq<nat>, come: seq<bv64>, before: multiset<Event>, now: multiset<Event>)
    requires g.Valid() && AllBelow(sources, g.Nodes()) && |sources| <= MSBFS_LANES
    requires Ready(g, sources, d, seen, masks, next, active)
    requires Comes(g, active, masks, seen, come) && Lists(more, come)
    requires Tells(g, sources, d, before) && Adds(more, come, d + 1, before, now)
    ensures Tells(g, sources, d + 1, now)
  {
    hide Has, Hops, Within, Csr.Valid, Comes, Ready;
    assert |come| == g.Nodes() by { ComesLength(g, active, masks, seen, come); }
    forall l: nat, v: nat, e: nat
      ensures now[(l, v, e)] == if l < |sources| && e <= d + 1 && Hops(g, {sources[l]}, v, e) then 1 else 0
    {
      if e == d + 1 && l < |sources| {
        if v < g.Nodes() {
          ComesIsHops(g, sources, d, seen, masks, next, active, come, v, PlaceOf(l));
          SomeBit(come[v]);
          assert v in more <==> come[v] != 0;
        } else if Hops(g, {sources[l]}, v, e) {
          HopsInside(g, {sources[l]}, v, e);
        }
      } else if e == d + 1 && l < MSBFS_LANES && v in more {
        ComesIsHops(g, sources, d, seen, masks, next, active, come, v, PlaceOf(l));
      }
    }
  }

  lemma ComesLength(g: Csr, part: seq<nat>, masks: seq<bv64>, seen: seq<bv64>, now: seq<bv64>)
    requires g.Valid() && Comes(g, part, masks, seen, now)
    ensures |now| == g.Nodes()
  {
  }

  /** With no node active, nothing is left to tell. */
  lemma TellsAll(g: Csr, sources: seq<nat>, d: nat, bound: nat, seen: seq<bv64>, masks: seq<bv64>, next: seq<bv64>,
                 active: seq<nat>, events: multiset<Event>)
    requires g.Valid() && AllBelow(sources, g.Nodes()) && |sources| <= MSBFS_LANES && d <= bound
    requires Ready(g, sources, d, seen, masks, next, active) && Tells(g, sources, d, events)
    requires active == [] || d == bound
    ensures Tells(g, sources, bound, events)
  {
    hide Has, Hops, Within, Csr.Valid;
    forall l: nat, v: nat, e: nat
      ensures events[(l, v, e)] == if l < |sources| && e <= bound && Hops(g, {sources[l]}, v, e) then 1 else 0
    {
      if d < e <= bound && l < |sources| && Hops(g, {sources[l]}, v, e) {
        NoLater(g, sources, d, seen, masks, next, l, v, e);
      }
    }
  }

  lemma NoLater(g: Csr, sources: seq<nat>, d: nat, seen: seq<bv64>, masks: seq<bv64>, next: seq<bv64>, l: nat, v: nat,
                e: nat)
    requires g.Valid() && AllBelow(sources, g.Nodes()) && |sources| <= MSBFS_LANES && l < |sources| && d < e
    requires Ready(g, sources, d, seen, masks, next, [])
    ensures !Hops(g, {sources[l]}, v, e)
  {
    hide Has, Within, Csr.Valid, Hops;
    var from := {sources[l]};
    ZeroHas();
    forall u: nat
      ensures !Hops(g, from, u, d)
    {
      if u < g.Nodes() {
        assert masks[u] == 0;
        assert !LaneHops(g, sources, PlaceOf(l), u, d);
      } else if Hops(g, from, u, d) {
        HopsInside(g, from, u, d);
      }
    }
    LateIsNever(g, from, v, d, e);
  }

  lemma LateIsNever(g: Csr, from: set<nat>, v: nat, d: nat, e: nat)
    requires g.Valid() && d < e && forall u: nat :: !Hops(g, from, u, d)
    ensures !Hops(g, from, v, e)
  {
    hide Csr.Joins, Csr.Valid;
    HopsStop(g, from, v, d, e);
    if Within(g, from, v, d) { WithinGrows(g, from, v, d, e - 1); }
  }

  /** One round for every lane: spread, clear, take over. */
  method OneRound(g: Csr, ghost sources: seq<nat>, depth: nat, seen: array<bv64>, masks: array<bv64>,
                  next: array<bv64>, active: seq<nat>, had: seq<Event>) returns (more: seq<nat>, events: seq<Event>)
    requires g.Valid() && AllBelow(sources, g.Nodes()) && |sources| <= MSBFS_LANES && depth > 0
    requires seen != masks && seen != next && masks != next
    requires Ready(g, sources, depth - 1, seen[..], masks[..], next[..], active)
    requires Tells(g, sources, depth - 1, multiset(had))
    modifies seen, masks, next
    ensures Ready(g, sources, depth, seen[..], masks[..], next[..], more)
    ensures Tells(g, sources, depth, multiset(events))
  {
    hide Csr.Valid, Lists, Ready, Tells, Comes, TakenOver, Adds, AllZero, AllBelow;
    ghost var seen0, masks0, next0 := seen[..], masks[..], next[..];
    ReadyParts(g, sources, depth - 1, seen0, masks0, next0, active);
    more := SpreadAll(g, active, seen, masks, next);
    ghost var come := next[..];
    ClearMasks(active, masks);
    assert seen[..] == seen0 && next[..] == come;
    events := TakeOver(more, depth, seen, masks, next, had);
    RoundReady(g, sources, depth - 1, seen0, masks0, next0, active, more, come, seen[..], masks[..], next[..]);
    RoundTells(g, sources, depth - 1, seen0, masks0, next0, active, more, come, multiset(had), multiset(events));
  }

  /** `multi_source_bfs`. */
  method MultiSourceBfs(g: Csr, sources: seq<nat>, maxHops: nat) returns (events: seq<Event>)
    requires g.Valid() && AllBelow(sources, g.Nodes()) && |sources| <= MSBFS_LANES
    ensures Tells(g, sources, maxHops, multiset(events))
  {
    var n := g.Nodes();
    var seen, masks, next := new bv64[n](i => 0), new bv64[n](i => 0), new bv64[n](i => 0);
    hide Csr.Valid, Lists, Ready, Tells, TellsFirst, Marks;
    var active;
    active, events := Start(g, sources, seen, masks);
    StartReady(g, sources, seen[..], masks[..], next[..], active, multiset(events));
    var depth := 0;
    while active != [] && depth < maxHops
      invariant depth <= maxHops && Ready(g, sources, depth, seen[..], masks[..], next[..], active)
      invariant Tells(g, sources, depth, multiset(events))
      decreases maxHops - depth
    {
      depth := depth + 1;
      active, events := OneRound(g, sources, depth, seen, masks, next, active, events);
    }
    TellsAll(g, sources, depth, maxHops, seen[..], masks[..], next[..], active, multiset(events));
  }

  lemma ReadyParts(g: Csr, sources: seq<nat>, d: nat, seen: seq<bv64>, masks: seq<bv64>, next: seq<bv64>,
                   active: seq<nat>)
    requires g.Valid() && Ready(g, sources, d, seen, masks, next, active)
    ensures |seen| == |masks| == |next| == g.Nodes() && AllZero(next) && Lists(active, masks)
    ensures AllBelow(active, g.Nodes())
  {
    hide Has;
  }

  // ---- the hybrid policy ----

  /** The levels of one source's search as events. */
  method TellLevels(g: Csr, sources: seq<nat>, si: nat, maxHops: nat, levels: seq<nat>, had: seq<Event>)
    returns (events: seq<Event>)
    requires g.Valid() && |levels| == g.Nodes()
    ensures forall l: nat, v: nat, d: nat ::
      multiset(events)[(l, v, d)] == multiset(had)[(l, v, d)] +
        if l == si && v < g.Nodes() && d == levels[v] && d != UNREACHED then 1 else 0
  {
    hide Csr.Valid;
    events := had;
    for w := 0 to |levels|
      invariant forall l: nat, v: nat, d: nat ::
        multiset(events)[(l, v, d)] == multiset(had)[(l, v, d)] +
          if l == si && v < w && d == levels[v] && d != UNREACHED then 1 else 0
    {
      if levels[w] != UNREACHED {
        events := events + [(si, w, levels[w])];
      }
    }
  }

  lemma LevelIff(g: Csr, from: set<nat>, v: nat, d: nat, bound: nat)
    requires g.Valid() && Inside(g, from) && g.Nodes() <= UNREACHED
    ensures d <= bound && Hops(g, from, v, d) <==> v < g.Nodes() && d == Level(g, from, v, bound) && d != UNREACHED
  {
    hide Csr.Joins, Csr.Valid, Within;
    if d <= bound && Hops(g, from, v, d) {
      HopsInside(g, from, v, d);
      HopsBelowNodes(g, from, v, d);
      LevelOfHops(g, from, v, d, bound);
    }
  }

  /** The sources before `i`, told at the rounds their searches come to, which may leave nodes out. */
  ghost predicate TellsWaves(g: Csr, sources: seq<nat>, i: nat, back: bool, threads: nat, bound: nat,
                             events: multiset<Event>)
    requires g.Valid() && i <= |sources|
  {
    forall l: nat, v: nat, d: nat ::
      events[(l, v, d)] ==
        if l < i && v < g.Nodes() && d == WaveLevel(g, {sources[l]}, back, threads, v, bound) && d != UNREACHED
        then 1 else 0
  }

  /** Where no node is left out those are the hop counts. */
  lemma WavesTell(g: Csr, sources: seq<nat>, back: bool, threads: nat, bound: nat, events: multiset<Event>)
    requires g.Valid() && AllBelow(sources, g.Nodes()) && g.Nodes() <= UNREACHED
    requires back ==> EndsInTime(g.Nodes(), threads)
    requires TellsWaves(g, sources, |sources|, back, threads, bound, events)
    ensures Tells(g, sources, bound, events)
  {
    hide Csr.Valid, Hops, Within, WaveLevel, Level, EndsInTime;
    forall l: nat, v: nat, d: nat
      ensures events[(l, v, d)] == if l < |sources| && d <= bound && Hops(g, {sources[l]}, v, d) then 1 else 0
    {
      if l < |sources| {
        WaveLevelIsLevel(g, {sources[l]}, back, threads, v, bound);
        LevelIff(g, {sources[l]}, v, d, bound);
      }
    }
  }

  /** `one_bfs_per_source`. */
  method OneBfsPerSource(g: Csr, rev: Option<Csr>, sources: seq<nat>, maxHops: nat, threads: nat)
    returns (events: seq<Event>)
    requires g.Valid() && AllBelow(sources, g.Nodes()) && g.Nodes() <= UNREACHED
    requires rev.Some? ==> rev.value.Valid() && Reverses(rev.value, g)
    ensures TellsWaves(g, sources, |sources|, rev.Some?, threads, maxHops, multiset(events))
    ensures Exact(rev, g.Nodes(), threads) ==> Tells(g, sources, maxHops, multiset(events))
  {
    hide Csr.Valid, Hops, Level, WaveLevel, EndsInTime, Reverses, Tells;
    events := [];
    for i := 0 to |sources|
      invariant TellsWaves(g, sources, i, rev.Some?, threads, maxHops, multiset(events))
    {
      var levels := RecursiveBfs(g, rev, [sources[i]], maxHops, threads);
      assert SetOf([sources[i]]) == {sources[i]};
      events := TellLevels(g, sources, i, maxHops, levels, events);
    }
    if Exact(rev, g.Nodes(), threads) {
      WavesTell(g, sources, rev.Some?, threads, maxHops, multiset(events));
    }
  }

  /** Where a part from `lo` ends. */
  function PartEnd(length: nat, lo: nat, n: nat): nat { if lo + n < length then lo + n else length }

  /** The `b`-th batch of the sources. */
  lemma {:induction false} ChunkIs(s: seq<nat>, n: nat, b: nat)
    requires n > 0 && b < |Chunks(s, n)|
    ensures b * n < |s| && Chunks(s, n)[b] == s[b * n..PartEnd(|s|, b * n, n)]
    ensures |Chunks(s, n)[b]| <= n
    decreases b
  {
    NextMultiple(b, n);
    if b > 0 {
      ChunkIs(s[n..], n, b - 1);
      var lo := (b - 1) * n;
      PartOfRest(s, n, lo);
    }
  }

  lemma NextMultiple(b: nat, n: nat)
    ensures b > 0 ==> (b - 1) * n + n == b * n
    ensures b == 0 ==> b * n == 0
  {
  }

  lemma PartOfRest(s: seq<nat>, n: nat, lo: nat)
    requires n + lo <= |s|
    ensures s[n..][lo..PartEnd(|s| - n, lo, n)] == s[n + lo..PartEnd(|s|, n + lo, n)]
  {
    var end := PartEnd(|s| - n, lo, n);
    assert n + end == PartEnd(|s|, n + lo, n) && lo <= end <= |s| - n;
    SliceOfRest(s, n, lo, end);
  }

  lemma SliceOfRest(s: seq<nat>, n: nat, lo: nat, hi: nat)
    requires lo <= hi && n + hi <= |s|
    ensures s[n..][lo..hi] == s[n + lo..n + hi]
  {
  }

  lemma {:induction false} ChunkCount(s: seq<nat>, n: nat)
    requires n > 0
    ensures |s| <= |Chunks(s, n)| * n
    decreases |s|
  {
    if |s| > n { ChunkCount(s[n..], n); }
  }

  /** A batch's lanes numbered by their sources. */
  function Shifted(events: seq<Event>, base: nat): seq<Event> {
    seq(|events|, i requires 0 <= i < |events| => (base + events[i].0, events[i].1, events[i].2))
  }

  lemma {:induction false} ShiftedCounts(events: seq<Event>, base: nat, l: nat, v: nat, d: nat)
    ensures multiset(Shifted(events, base))[(l, v, d)] == if l < base then 0 else multiset(events)[(l - base, v, d)]
  {
    if events == [] {
      assert Shifted(events, base) == [];
    } else {
      var last := |events| - 1;
      var e := events[last];
      ShiftedCounts(events[..last], base, l, v, d);
      assert events == events[..last] + [e];
      assert Shifted(events, base) == Shifted(events[..last], base) + [(base + e.0, e.1, e.2)];
      hide Shifted;
      CountMore(Shifted(events[..last], base), (base + e.0, e.1, e.2), (l, v, d));
      if l >= base { CountMore(events[..last], e, (l - base, v, d)); }
    }
  }

  lemma CountMore(s: seq<Event>, e: Event, x: Event)
    ensures multiset(s + [e])[x] == multiset(s)[x] + if e == x then 1 else 0
  {
  }

  /** The batches in `done`, told to the bound. */
  ghost predicate TellsBatches(g: Csr, sources: seq<nat>, done: set<nat>, bound: nat, events: multiset<Event>)
    requires g.Valid()
  {
    forall l: nat, v: nat, d: nat ::
      events[(l, v, d)] ==
        if l < |sources| && l / MSBFS_LANES in done && d <= bound && Hops(g, {sources[l]}, v, d) then 1 else 0
  }

  lemma TellsBatch(g: Csr, sources: seq<nat>, done: set<nat>, b: nat, bound: nat, batch: seq<nat>,
                   events: seq<Event>, had: seq<Event>)
    requires g.Valid() && b !in done && TellsBatches(g, sources, done, bound, multiset(had))
    requires b * MSBFS_LANES < |sources|
    requires batch == sources[b * MSBFS_LANES..PartEnd(|sources|, b * MSBFS_LANES, MSBFS_LANES)]
    requires Tells(g, batch, bound, multiset(events))
    ensures TellsBatches(g, sources, done + {b}, bound, multiset(had + Shifted(events, b * MSBFS_LANES)))
  {
    hide Csr.Valid, Hops, Shifted;
    var base := b * MSBFS_LANES;
    var now := had + Shifted(events, base);
    assert multiset(now) == multiset(had) + multiset(Shifted(events, base));
    forall l: nat, v: nat, d: nat
      ensures multiset(now)[(l, v, d)] ==
        if l < |sources| && l / MSBFS_LANES in done + {b} && d <= bound && Hops(g, {sources[l]}, v, d) then 1 else 0
    {
      ShiftedCounts(events, base, l, v, d);
      if base <= l < base + |batch| {
        assert batch[l - base] == sources[l] && l / MSBFS_LANES == b;
      } else if l < |sources| {
        assert l / MSBFS_LANES != b;
      }
    }
  }

  /** `multi_source_morsels`: batches that threads take and finish in any order. */
  method MultiSourceMorsels(g: Csr, sources: seq<nat>, maxHops: nat) returns (events: seq<Event>)
    requires g.Valid() && AllBelow(sources, g.Nodes())
    ensures Tells(g, sources, maxHops, multiset(events))
  {
    hide Csr.Valid, Hops, Tells, Chunks, Shifted, Range;
    var batches := Chunks(sources, MSBFS_LANES);
    var todo: set<nat> := SetOf(Range(0, |batches|));
    forall b: nat
      ensures b in todo <==> b < |batches|
    {
      RangeHas(0, |batches|, b);
    }
    ghost var done: set<nat> := {};
    events := [];
    while todo != {}
      invariant todo !! done && forall b: nat :: b in todo || b in done <==> b < |batches|
      invariant TellsBatches(g, sources, done, maxHops, multiset(events))
      decreases |todo|
    {
      var b :| b in todo;
      var batch := batches[b];
      ChunkIs(sources, MSBFS_LANES, b);
      var told := MultiSourceBfs(g, batch, maxHops);
      TellsBatch(g, sources, done, b, maxHops, batch, told, events);
      events := events + Shifted(told, b * MSBFS_LANES);
      todo := todo - {b};
      done := done + {b};
    }
    BatchesAreAll(g, sources, done, maxHops, multiset(events));
  }

  lemma BatchesAreAll(g: Csr, sources: seq<nat>, done: set<nat>, bound: nat, events: multiset<Event>)
    requires g.Valid() && TellsBatches(g, sources, done, bound, events)
    requires forall b: nat :: b < |Chunks(sources, MSBFS_LANES)| ==> b in done
    ensures Tells(g, sources, bound, events)
  {
    hide Csr.Valid, Hops, Chunks;
    ChunkCount(sources, MSBFS_LANES);
    assert forall l :: 0 <= l < |sources| ==> l / MSBFS_LANES in done;
  }

  /** `hybrid_bfs`: whichever side of the policy runs, the pairs told are the same. */
  method HybridBfs(g: Csr, rev: Option<Csr>, sources: seq<nat>, maxHops: nat, threads: nat)
    returns (events: seq<Event>)
    requires g.Valid() && AllBelow(sources, g.Nodes()) && g.Nodes() <= UNREACHED
    requires rev.Some? ==> rev.value.Valid() && Reverses(rev.value, g)
    ensures |sources| >= MSBFS_MIN_SOURCES || Exact(rev, g.Nodes(), threads) ==>
      Tells(g, sources, maxHops, multiset(events))
    ensures |sources| < MSBFS_MIN_SOURCES ==>
      TellsWaves(g, sources, |sources|, rev.Some?, threads, maxHops, multiset(events))
  {
    if |sources| >= MSBFS_MIN_SOURCES {
      events := MultiSourceMorsels(g, sources, maxHops);
    } else {
      events := OneBfsPerSource(g, rev, sources, maxHops, threads);
    }
  }
}
