/**
  The API map of crates/xtask/src/apimap.rs: a surface of `::` paths classified
  by sorted groups of prefixes and sorted exceptions to them. A binary search
  for each of a path's own prefixes has to agree with a scan of every group, and
  one pass that marks what it used has to find what is missing and what is dead.
 */
module ApiMap {
  import opened Common

  // ---- the order the file is kept in ----

  predicate Less(a: string, b: string)
    decreases |b|
  {
    b != [] && (a == [] || a[0] < b[0] || (a[0] == b[0] && Less(a[1..], b[1..])))
  }

  lemma {:induction false} LessChain(a: string, b: string, c: string)
    requires Less(a, b) && Less(b, c)
    ensures Less(a, c)
    decreases |c|
  {
    if a != [] && a[0] == b[0] && b[0] == c[0] {
      LessChain(a[1..], b[1..], c[1..]);
    }
  }

  lemma {:induction false} LessTotal(a: string, b: string)
    ensures a == b || Less(a, b) || Less(b, a)
    ensures !(Less(a, b) && Less(b, a)) && !Less(a, a)
    decreases |a| + |b|
  {
    if a != [] && b != [] {
      LessTotal(a[1..], b[1..]);
      assert a == [a[0]] + a[1..] && b == [b[0]] + b[1..];
    }
    LessIrreflexive(a);
  }

  lemma {:induction false} LessIrreflexive(a: string)
    ensures !Less(a, a)
  {
    if a != [] {
      LessIrreflexive(a[1..]);
    }
  }

  /** Sorted with nothing twice. */
  ghost predicate Sorted(items: seq<string>) {
    forall i, j :: 0 <= i < j < |items| ==> Less(items[i], items[j])
  }

  datatype Order = InOrder | Twice(at: nat) | Before(at: nat)

  /** `sorted_and_unique`: a comparison of neighbours decides the order of the whole list. */
  method SortedAndUnique(items: seq<string>) returns (r: Order)
    ensures r == InOrder <==> Sorted(items)
    ensures r.Twice? ==> 0 < r.at < |items| && items[r.at] == items[r.at - 1] && Sorted(items[..r.at])
    ensures r.Before? ==> 0 < r.at < |items| && Less(items[r.at], items[r.at - 1]) && Sorted(items[..r.at])
  {
    hide Less;
    var previous := None;
    for i := 0 to |items|
      invariant previous == if i == 0 then None else Some(items[i - 1])
      invariant Sorted(items[..i])
    {
      if previous.Some? {
        LessTotal(previous.value, items[i]);
        if previous.value == items[i] {
          return Twice(i);
        }
        if Less(items[i], previous.value) {
          return Before(i);
        }
        forall k | 0 <= k < i
          ensures Less(items[k], items[i])
        {
          if k < i - 1 {
            assert items[..i][k] == items[k] && items[..i][i - 1] == items[i - 1];
            LessChain(items[k], items[i - 1], items[i]);
          }
        }
      }
      assert forall k :: 0 <= k < i ==> items[..i + 1][k] == items[..i][k];
      previous := Some(items[i]);
    }
    assert items[..|items|] == items;
    return InOrder;
  }

  /** `binary_search_by` over a list kept in order. */
  method Search(items: seq<string>, key: string) returns (r: Option<nat>)
    requires Sorted(items)
    ensures r.Some? ==> r.value < |items| && items[r.value] == key
    ensures r.None? ==> key !in items
  {
    hide Less;
    var low, high := 0, |items|;
    while low < high
      invariant 0 <= low <= high <= |items|
      invariant forall k :: 0 <= k < low || high <= k < |items| ==> items[k] != key
    {
      var mid := (low + high) / 2;
      LessTotal(items[mid], key);
      if items[mid] == key {
        return Some(mid);
      } else if Less(items[mid], key) {
        NotBelow(items, key, mid);
        low := mid + 1;
      } else {
        NotAbove(items, key, mid);
        high := mid;
      }
    }
    return None;
  }

  lemma NotBelow(items: seq<string>, key: string, mid: nat)
    requires Sorted(items) && mid < |items| && Less(items[mid], key)
    ensures forall k :: 0 <= k <= mid ==> items[k] != key
  {
    hide Less;
    LessTotal(items[mid], key);
  }

  lemma NotAbove(items: seq<string>, key: string, mid: nat)
    requires Sorted(items) && mid < |items| && Less(key, items[mid])
    ensures forall k :: mid <= k < |items| ==> items[k] != key
  {
    hide Less;
    LessTotal(items[mid], key);
  }

  // ---- a path and its prefixes ----

  /** There is a `::` at an offset. */
  predicate SepAt(s: string, k: int) { 0 <= k && k + 2 <= |s| && s[k] == ':' && s[k + 1] == ':' }

  /** The offset of the last `::`, as `rsplit_once` finds it. */
  function LastSep(s: string): (k: Option<nat>)
    ensures k.Some? ==> SepAt(s, k.value) && forall j :: SepAt(s, j) ==> j <= k.value
    ensures k.None? ==> forall j :: !SepAt(s, j)
  {
    if |s| < 2 then None
    else if SepAt(s, |s| - 2) then Some(|s| - 2)
    else
      var shorter := LastSep(s[..|s| - 1]);
      assert forall j :: SepAt(s, j) ==> j != |s| - 2 && SepAt(s[..|s| - 1], j);
      shorter
  }

  /** `prefixes`: the path and what is left of it as its segments go, one at a time from the end. */
  function Prefixes(id: string): (r: seq<string>)
    decreases |id|
  {
    match LastSep(id)
    case None => [id]
    case Some(k) => [id] + Prefixes(id[..k])
  }

  /** A prefix covers itself and everything under `prefix::`. */
  predicate Covers(p: string, id: string) { id == p || p + "::" <= id }

  /** Three colons in a row, which no Rust path has. */
  ghost predicate Triple(s: string) {
    exists k :: SepAt(s, k) && SepAt(s, k + 1)
  }

  lemma CoversAt(p: string, id: string)
    ensures Covers(p, id) <==> (id == p || (SepAt(id, |p|) && id[..|p|] == p))
  {
    if SepAt(id, |p|) && id[..|p|] == p {
      assert id[..|p| + 2] == p + "::";
    }
    if p + "::" <= id {
      assert id[|p|] == (p + "::")[|p|] && id[|p| + 1] == (p + "::")[|p| + 1];
      assert id[..|p|] == (p + "::")[..|p|];
    }
  }

  /** A prefix of a path cut at one of its separators covers the path. */
  lemma CoversMore(p: string, id: string, k: nat)
    requires SepAt(id, k) && Covers(p, id[..k])
    ensures Covers(p, id) && p != id
  {
    hide Covers;
    CoversAt(p, id[..k]);
    CoversAt(p, id);
    if p != id[..k] {
      assert id[..k][..|p|] == id[..|p|];
    }
  }

  lemma {:induction false} PrefixesCover(id: string, p: string)
    requires p in Prefixes(id)
    ensures Covers(p, id)
    ensures p == id || |p| + 2 <= |id|
    decreases |id|
  {
    var k := LastSep(id);
    if k.Some? && p != id {
      PrefixesCover(id[..k.value], p);
      CoversMore(p, id, k.value);
    }
  }

  lemma TripleBelow(id: string, k: nat)
    requires k <= |id|
    ensures Triple(id[..k]) ==> Triple(id)
  {
    if Triple(id[..k]) {
      var j :| SepAt(id[..k], j) && SepAt(id[..k], j + 1);
      assert SepAt(id, j) && SepAt(id, j + 1);
    }
  }

  lemma {:induction false} CoversArePrefixes(id: string, p: string)
    requires Covers(p, id) && !Triple(id)
    ensures p in Prefixes(id)
    decreases |id|
  {
    CoversAt(p, id);
    if p != id {
      var k := LastSep(id).value;
      TripleBelow(id, k);
      if |p| < k {
        assert |p| + 1 != k;
        assert SepAt(id[..k], |p|) && id[..k][..|p|] == p;
        CoversAt(p, id[..k]);
        CoversArePrefixes(id[..k], p);
      } else {
        assert p == id[..k];
      }
    }
  }

  /** With three colons in a row, a prefix that covers the path is never tried. */
  lemma {:induction false} Missed(id: string) returns (p: string)
    requires Triple(id)
    ensures Covers(p, id) && p !in Prefixes(id)
    decreases |id|
  {
    var k := LastSep(id).value;
    if k > 0 && id[k - 1] == ':' {
      p := id[..k - 1];
      CoversAt(p, id);
      if p in Prefixes(id[..k]) {
        PrefixesCover(id[..k], p);
      }
    } else {
      var j :| SepAt(id, j) && SepAt(id, j + 1);
      assert j + 1 < k;
      assert SepAt(id[..k], j) && SepAt(id[..k], j + 1);
      p := Missed(id[..k]);
      CoversMore(p, id, k);
    }
  }

  // ---- the group a path falls under ----

  ghost predicate Longest(groups: seq<string>, id: string, n: nat) {
    forall i :: 0 <= i < |groups| && Covers(groups[i], id) ==> |groups[i]| <= n
  }

  /** The longest of the groups that cover a path, or none when none does. */
  ghost predicate Picks(groups: seq<string>, id: string, r: Option<nat>) {
    match r
    case None => forall i :: 0 <= i < |groups| ==> !Covers(groups[i], id)
    case Some(g) => g < |groups| && Covers(groups[g], id) && Longest(groups, id, |groups[g]|)
  }

  /** A full scan, keeping the longest cover so far. */
  function Scan(groups: seq<string>, id: string): (r: Option<nat>)
    ensures Picks(groups, id, r)
  {
    if groups == [] then None
    else
      var n := |groups| - 1;
      var before := Scan(groups[..n], id);
      if Covers(groups[n], id) && (before.None? || |groups[n]| > |groups[before.value]|) then Some(n) else before
  }

  function Position(items: seq<string>, key: string): (r: Option<nat>)
    ensures r.Some? <==> key in items
    ensures r.Some? ==> r.value < |items| && items[r.value] == key
  {
    if items == [] then None
    else if items[|items| - 1] == key then Some(|items| - 1)
    else Position(items[..|items| - 1], key)
  }

  /** The first of the prefixes that is a group. */
  function FirstOf(groups: seq<string>, prefixes: seq<string>): (r: Option<nat>)
    ensures r.Some? ==> r.value < |groups| && groups[r.value] in prefixes
    ensures r.None? <==> forall p :: p in prefixes ==> p !in groups
  {
    if prefixes == [] then None
    else
      var r := Position(groups, prefixes[0]);
      if r.Some? then r else FirstOf(groups, prefixes[1..])
  }

  function GroupOf(groups: seq<string>, id: string): (r: Option<nat>)
    ensures r.Some? ==> r.value < |groups|
  { FirstOf(groups, Prefixes(id)) }

  /** In an ordered list an item has one place. */
  lemma OnePlace(items: seq<string>, i: nat, j: nat)
    requires Sorted(items) && i < |items| && j < |items| && items[i] == items[j]
    ensures i == j
  {
    hide Less;
    LessIrreflexive(items[i]);
  }

  /** `group_of`: the prefixes longest first, a binary search for each. */
  method FindGroup(groups: seq<string>, id: string) returns (r: Option<nat>)
    requires Sorted(groups)
    ensures r == GroupOf(groups, id)
  {
    hide Sorted;
    var prefix := id;
    while true
      invariant FirstOf(groups, Prefixes(prefix)) == GroupOf(groups, id)
      decreases |prefix|
    {
      ghost var rest := Prefixes(prefix);
      assert rest[0] == prefix;
      r := Search(groups, prefix);
      if r.Some? {
        OnePlace(groups, r.value, Position(groups, prefix).value);
        return;
      }
      var cut := RsplitOnce(prefix);
      if cut.None? {
        assert rest[1..] == [];
        return;
      }
      assert rest[1..] == Prefixes(prefix[..cut.value]);
      prefix := prefix[..cut.value];
    }
  }

  /** `rsplit_once("::")`, from the end. */
  method RsplitOnce(s: string) returns (k: Option<nat>)
    ensures k == LastSep(s)
  {
    var i := |s|;
    while i >= 2
      invariant 0 <= i <= |s|
      invariant forall j :: SepAt(s, j) ==> j + 2 <= i
      decreases i
    {
      if s[i - 2] == ':' && s[i - 1] == ':' {
        assert SepAt(s, i - 2);
        return Some(i - 2);
      }
      i := i - 1;
    }
    return None;
  }

  /** Every prefix is at least as long as those after it, so the first group found is the longest. */
  lemma {:induction false} FirstIsLongest(groups: seq<string>, id: string)
    requires FirstOf(groups, Prefixes(id)).Some?
    ensures forall p :: p in Prefixes(id) && p in groups ==> |p| <= |groups[FirstOf(groups, Prefixes(id)).value]|
    decreases |id|
  {
    var k := LastSep(id);
    if id in groups {
      forall p | p in Prefixes(id)
        ensures |p| <= |id|
      {
        PrefixesCover(id, p);
      }
    } else if k.Some? {
      assert Prefixes(id)[1..] == Prefixes(id[..k.value]);
      FirstIsLongest(groups, id[..k.value]);
    }
  }

  /** The search agrees with the scan on every path without three colons in a row. */
  lemma GroupIsLongest(groups: seq<string>, id: string)
    requires !Triple(id)
    ensures Picks(groups, id, GroupOf(groups, id))
  {
    hide Covers, Triple, FirstOf, Prefixes;
    var r := GroupOf(groups, id);
    forall i | 0 <= i < |groups| && Covers(groups[i], id)
      ensures r.Some? && |groups[i]| <= |groups[r.value]|
    {
      CoversArePrefixes(id, groups[i]);
      FirstIsLongest(groups, id);
    }
    if r.Some? {
      PrefixesCover(id, groups[r.value]);
    }
  }

  /** In an ordered list two picks are the same pick. */
  lemma PickIsUnique(groups: seq<string>, id: string, r: Option<nat>, s: Option<nat>)
    requires Sorted(groups) && Picks(groups, id, r) && Picks(groups, id, s)
    ensures r == s
  {
    hide Sorted;
    if r.Some? && s.Some? {
      CoversAt(groups[r.value], id);
      CoversAt(groups[s.value], id);
      assert groups[r.value] == id[..|groups[r.value]|];
      OnePlace(groups, r.value, s.value);
    }
  }

  /** The search equals the scan for every ordered file exactly when the path has no three colons in a row. */
  lemma SearchEqualsScan(id: string)
    ensures (forall groups | Sorted(groups) :: GroupOf(groups, id) == Scan(groups, id)) <==> !Triple(id)
  {
    if Triple(id) {
      var p := Missed(id);
      var groups := [p];
      assert Sorted(groups);
      assert Picks(groups, id, Scan(groups, id));
      assert Covers(groups[0], id);
      assert GroupOf(groups, id).None?;
    } else {
      forall groups | Sorted(groups)
        ensures GroupOf(groups, id) == Scan(groups, id)
      {
        GroupIsLongest(groups, id);
        PickIsUnique(groups, id, GroupOf(groups, id), Scan(groups, id));
      }
    }
  }

  // ---- the map against the surface ----

  /** What a binding owes an entity. */
  datatype Tier = Bound | Optional | Internal

  datatype Group = Group(prefix: string, tier: Tier)

  /** An exception to the groups; a binding's map names things and gives no tier. */
  datatype Entry = Entry(id: string, tier: Option<Tier>)

  datatype Map = Map(groups: seq<Group>, entries: seq<Entry>) {
    function Prefixed(): (r: seq<string>)
      ensures |r| == |groups| && forall i :: 0 <= i < |r| ==> r[i] == groups[i].prefix
    { seq(|groups|, i requires 0 <= i < |groups| => groups[i].prefix) }

    function Ids(): (r: seq<string>)
      ensures |r| == |entries| && forall i :: 0 <= i < |r| ==> r[i] == entries[i].id
    { seq(|entries|, i requires 0 <= i < |entries| => entries[i].id) }

    /** What parsing refuses a file for not being. */
    ghost predicate Valid() { Sorted(Prefixed()) && Sorted(Ids()) }

    function Group(id: string): (r: Option<nat>)
      ensures r.Some? ==> r.value < |groups|
    { GroupOf(Prefixed(), id) }

    predicate Maps(id: string) { id in Ids() || Group(id).Some? }

    /** Its own entry's tier, and otherwise its group's. */
    function Tier(id: string): Option<Tier> {
      if id in Ids() then entries[Position(Ids(), id).value].tier
      else
        match Group(id)
        case None => None
        case Some(g) => Some(groups[g].tier)
    }

    /** Some public path falls under the group, one with an entry of its own included. */
    ghost predicate GroupLives(ids: seq<string>, g: nat) {
      exists k :: 0 <= k < |ids| && Group(ids[k]) == Some(g)
    }

    method TierOf(id: string) returns (r: Option<Tier>)
      requires Valid()
      ensures r == Tier(id)
    {
      var e := Search(Ids(), id);
      if e.Some? {
        OnePlace(Ids(), e.value, Position(Ids(), id).value);
        return entries[e.value].tier;
      }
      var g := FindGroup(Prefixed(), id);
      r := if g.Some? then Some(groups[g.value].tier) else None;
    }
  }

  /** A path's own entry decides its tier, whatever group covers it, and otherwise the longest group that covers it. */
  lemma TierIs(m: Map, id: string)
    requires m.Valid()
    ensures forall e :: e in m.entries && e.id == id ==> m.Tier(id) == e.tier
    ensures !Triple(id) && (forall e :: e in m.entries ==> e.id != id) ==>
      if exists g :: g in m.groups && Covers(g.prefix, id)
      then exists g :: g in m.groups && Covers(g.prefix, id) && m.Tier(id) == Some(g.tier)
                    && forall h :: h in m.groups && Covers(h.prefix, id) ==> |h.prefix| <= |g.prefix|
      else m.Tier(id) == None
  {
    hide Sorted, Covers, Triple, GroupOf, Less;
    var ids, prefixes := m.Ids(), m.Prefixed();
    forall e | e in m.entries && e.id == id
      ensures m.Tier(id) == e.tier
    {
      var i :| 0 <= i < |m.entries| && m.entries[i] == e;
      assert ids[i] == id;
      OnePlace(ids, Position(ids, id).value, i);
    }
    if !Triple(id) && forall e :: e in m.entries ==> e.id != id {
      assert id !in ids;
      GroupIsLongest(prefixes, id);
      var r := m.Group(id);
      if r.Some? {
        var g := m.groups[r.value];
        assert Covers(prefixes[r.value], id);
        forall h | h in m.groups && Covers(h.prefix, id)
          ensures |h.prefix| <= |g.prefix|
        {
          var j :| 0 <= j < |m.groups| && m.groups[j] == h;
          assert Covers(prefixes[j], id);
        }
      } else {
        forall h | h in m.groups
          ensures !Covers(h.prefix, id)
        {
          var j :| 0 <= j < |m.groups| && m.groups[j] == h;
          assert !Covers(prefixes[j], id);
        }
      }
    }
  }

  datatype Problem =
    | Unmapped(id: string) | DeadGroup(at: nat) | DeadEntry(at: nat)
    | Unnamed(id: string) | NotInModel(at: nat) | NotBindable(at: nat)

  /** Where the map has a group or an entry, and what a problem says. */
  datatype Page = Page(groupLine: nat -> nat, entryLine: nat -> nat, message: Problem -> string) {
    function Line(p: Problem): Option<nat> {
      match p
      case Unmapped(_) => None
      case Unnamed(_) => None
      case DeadGroup(at) => Some(groupLine(at))
      case DeadEntry(at) => Some(entryLine(at))
      case NotInModel(at) => Some(entryLine(at))
      case NotBindable(at) => Some(entryLine(at))
    }

    /** Problems that point at a line come first, by their lines, and then by what they say. */
    predicate Ahead(a: Problem, b: Problem) {
      var x, y := Line(a), Line(b);
      if x == y then Less(message(a), message(b))
      else x.Some? && (y.None? || x.value < y.value)
    }

    function Insert(p: Problem, sorted: seq<Problem>): (r: seq<Problem>)
      ensures multiset(r) == multiset(sorted) + multiset{p} && |r| == |sorted| + 1
    {
      if sorted == [] then [p]
      else if Ahead(sorted[0], p) then
        assert sorted == [sorted[0]] + sorted[1..];
        [sorted[0]] + Insert(p, sorted[1..])
      else [p] + sorted
    }

    /** `sort`. */
    function Sort(problems: seq<Problem>): (r: seq<Problem>)
      ensures multiset(r) == multiset(problems) && |r| == |problems|
    {
      if problems == [] then []
      else
        assert problems == [problems[0]] + problems[1..];
        Insert(problems[0], Sort(problems[1..]))
    }

    ghost predicate InLine(problems: seq<Problem>) {
      forall i, j :: 0 <= i < j < |problems| ==> !Ahead(problems[j], problems[i])
    }

    lemma AheadChain(a: Problem, b: Problem, c: Problem)
      requires !Ahead(b, a) && !Ahead(c, b)
      ensures !Ahead(c, a)
    {
      var x, y, z := message(a), message(b), message(c);
      if Line(a) == Line(b) == Line(c) && Less(z, x) {
        LessTotal(x, y);
        LessTotal(y, z);
        if Less(x, y) { LessChain(z, x, y); }
      }
    }

    lemma AheadOneWay(a: Problem, b: Problem)
      requires Ahead(a, b)
      ensures !Ahead(b, a)
    {
      if Line(a) == Line(b) && Less(message(b), message(a)) {
        LessChain(message(a), message(b), message(a));
        LessIrreflexive(message(a));
      }
    }

    lemma {:induction false} InsertInLine(p: Problem, sorted: seq<Problem>)
      requires InLine(sorted)
      ensures InLine(Insert(p, sorted))
    {
      hide Ahead;
      if sorted != [] && Ahead(sorted[0], p) {
        InsertInLine(p, sorted[1..]);
        AheadOneWay(sorted[0], p);
        var rest := Insert(p, sorted[1..]);
        forall k | 0 <= k < |rest|
          ensures !Ahead(rest[k], sorted[0])
        {
          assert rest[k] in multiset(rest);
          assert rest[k] in sorted[1..] || rest[k] == p;
        }
      } else if sorted != [] {
        forall k | 0 <= k < |sorted|
          ensures !Ahead(sorted[k], p)
        {
          if k > 0 { AheadChain(p, sorted[0], sorted[k]); }
        }
      }
    }

    /** A report in the order of its lines and messages, with what was in it and nothing else. */
    lemma {:induction false} SortSorts(problems: seq<Problem>)
      ensures InLine(Sort(problems)) && multiset(Sort(problems)) == multiset(problems)
    {
      hide Ahead;
      if problems != [] {
        SortSorts(problems[1..]);
        InsertInLine(problems[0], Sort(problems[1..]));
      }
    }

    /** So no problem without a line is above one with a line, and lines go down the page. */
    lemma LinesFirst(problems: seq<Problem>, i: nat, j: nat)
      requires i < j < |problems|
      ensures var r := Sort(problems);
              Line(r[j]).Some? ==> Line(r[i]).Some? && Line(r[i]).value <= Line(r[j]).value
    {
      SortSorts(problems);
      assert !Ahead(Sort(problems)[j], Sort(problems)[i]);
    }
  }

  ghost function UnmappedIds(m: Map, ids: seq<string>): seq<Problem> {
    if ids == [] then []
    else
      var n := |ids| - 1;
      UnmappedIds(m, ids[..n]) + if m.Maps(ids[n]) then [] else [Unmapped(ids[n])]
  }

  ghost function DeadGroups(m: Map, ids: seq<string>, n: nat): seq<Problem>
    requires n <= |m.groups|
  {
    if n == 0 then []
    else DeadGroups(m, ids, n - 1) + if m.GroupLives(ids, n - 1) then [] else [DeadGroup(n - 1)]
  }

  ghost function DeadEntries(m: Map, ids: seq<string>, n: nat): seq<Problem>
    requires n <= |m.entries|
  {
    if n == 0 then []
    else DeadEntries(m, ids, n - 1) + if m.entries[n - 1].id in ids then [] else [DeadEntry(n - 1)]
  }

  /** What is missing, then the groups and the entries about code that is gone. */
  ghost function SurfaceReport(m: Map, ids: seq<string>): seq<Problem> {
    UnmappedIds(m, ids) + DeadGroups(m, ids, |m.groups|) + DeadEntries(m, ids, |m.entries|)
  }

  /** A path without an entry fell under the group, in the part of the surface walked so far. */
  ghost predicate Marked(m: Map, ids: seq<string>, g: nat) {
    exists k :: 0 <= k < |ids| && ids[k] !in m.Ids() && m.Group(ids[k]) == Some(g)
  }

  /** A live entry falls under the group, among the first `n`. */
  ghost predicate Excepted(m: Map, ids: seq<string>, n: nat, g: nat)
    requires n <= |m.entries|
  {
    exists e :: 0 <= e < n && m.entries[e].id in ids && m.Group(m.entries[e].id) == Some(g)
  }

  lemma MarkedOrExcepted(m: Map, ids: seq<string>, g: nat)
    ensures m.GroupLives(ids, g) <==> Marked(m, ids, g) || Excepted(m, ids, |m.entries|, g)
  {
    if m.GroupLives(ids, g) {
      var k :| 0 <= k < |ids| && m.Group(ids[k]) == Some(g);
      if ids[k] in m.Ids() {
        var e := Position(m.Ids(), ids[k]).value;
        assert m.entries[e].id in ids && m.Group(m.entries[e].id) == Some(g);
      } else {
        assert Marked(m, ids, g);
      }
    }
    if Excepted(m, ids, |m.entries|, g) {
      var e :| 0 <= e < |m.entries| && m.entries[e].id in ids && m.Group(m.entries[e].id) == Some(g);
      var k :| 0 <= k < |ids| && ids[k] == m.entries[e].id;
      assert m.Group(ids[k]) == Some(g);
    }
  }

  lemma MarkedStep(m: Map, ids: seq<string>, i: nat, g: nat)
    requires i < |ids|
    ensures Marked(m, ids[..i + 1], g) <==>
      Marked(m, ids[..i], g) || (ids[i] !in m.Ids() && m.Group(ids[i]) == Some(g))
  {
    var before, after := ids[..i], ids[..i + 1];
    assert forall k :: 0 <= k < i ==> before[k] == after[k];
    if Marked(m, before, g) {
      var k :| 0 <= k < |before| && before[k] !in m.Ids() && m.Group(before[k]) == Some(g);
      assert after[k] !in m.Ids() && m.Group(after[k]) == Some(g);
    }
    if ids[i] !in m.Ids() && m.Group(ids[i]) == Some(g) {
      assert after[i] !in m.Ids() && m.Group(after[i]) == Some(g);
    }
  }

  /** The first pass of `check_surface`: every path marks its entry, or its group, or is reported. */
  method MarkSurface(m: Map, ids: seq<string>, groupUsed: array<bool>, entryUsed: array<bool>)
    returns (problems: seq<Problem>)
    requires m.Valid() && groupUsed != entryUsed
    requires groupUsed.Length == |m.groups| && entryUsed.Length == |m.entries|
    requires forall g :: 0 <= g < groupUsed.Length ==> !groupUsed[g]
    requires forall e :: 0 <= e < entryUsed.Length ==> !entryUsed[e]
    modifies groupUsed, entryUsed
    ensures problems == UnmappedIds(m, ids)
    ensures forall g :: 0 <= g < groupUsed.Length ==> groupUsed[g] == Marked(m, ids, g)
    ensures forall e :: 0 <= e < entryUsed.Length ==> entryUsed[e] == (m.entries[e].id in ids)
  {
    hide GroupOf, Sorted, Marked;
    problems := [];
    forall g | 0 <= g < groupUsed.Length
      ensures !Marked(m, ids[..0], g)
    {
      NoneMarked(m, ids[..0], g);
    }
    for i := 0 to |ids|
      invariant problems == UnmappedIds(m, ids[..i])
      invariant forall g :: 0 <= g < groupUsed.Length ==> groupUsed[g] == Marked(m, ids[..i], g)
      invariant forall e :: 0 <= e < entryUsed.Length ==> entryUsed[e] == (m.entries[e].id in ids[..i])
    {
      ghost var before, after := ids[..i], ids[..i + 1];
      assert after == before + [ids[i]] && after[..i] == before;
      forall g | 0 <= g < groupUsed.Length
        ensures Marked(m, after, g) <==> Marked(m, before, g) || (ids[i] !in m.Ids() && m.Group(ids[i]) == Some(g))
      {
        MarkedStep(m, ids, i, g);
      }
      var at := Search(m.Ids(), ids[i]);
      if at.Some? {
        MarkEntry(m, entryUsed, before, ids[i], at.value);
        continue;
      }
      assert forall e :: 0 <= e < entryUsed.Length ==> m.entries[e].id == m.Ids()[e];
      var g := FindGroup(m.Prefixed(), ids[i]);
      if g.Some? {
        groupUsed[g.value] := true;
        continue;
      }
      problems := problems + [Unmapped(ids[i])];
    }
    assert ids[..|ids|] == ids;
  }

  method MarkEntry(m: Map, entryUsed: array<bool>, ghost before: seq<string>, ghost id: string, at: nat)
    requires m.Valid() && entryUsed.Length == |m.entries| && at < |m.entries| && m.entries[at].id == id
    requires forall e :: 0 <= e < entryUsed.Length ==> entryUsed[e] == (m.entries[e].id in before)
    modifies entryUsed
    ensures forall e :: 0 <= e < entryUsed.Length ==> entryUsed[e] == (m.entries[e].id in before + [id])
  {
    hide Less;
    entryUsed[at] := true;
    forall e | 0 <= e < entryUsed.Length
      ensures entryUsed[e] == (m.entries[e].id in before + [id])
    {
      if m.entries[e].id == id {
        OnePlace(m.Ids(), e, at);
      }
    }
  }

  lemma NoneMarked(m: Map, ids: seq<string>, g: nat)
    requires |ids| == 0
    ensures !Marked(m, ids, g)
  {
  }

  /** The second pass: each entry that was met marks the group it would have fallen under. */
  method MarkExceptions(m: Map, ghost ids: seq<string>, groupUsed: array<bool>, entryUsed: array<bool>)
    requires m.Valid() && groupUsed != entryUsed
    requires groupUsed.Length == |m.groups| && entryUsed.Length == |m.entries|
    requires forall g :: 0 <= g < groupUsed.Length ==> groupUsed[g] == Marked(m, ids, g)
    requires forall e :: 0 <= e < entryUsed.Length ==> entryUsed[e] == (m.entries[e].id in ids)
    modifies groupUsed
    ensures forall g :: 0 <= g < groupUsed.Length ==> groupUsed[g] == m.GroupLives(ids, g)
  {
    hide GroupOf, Sorted, Marked;
    for i := 0 to |m.entries|
      invariant forall g :: 0 <= g < groupUsed.Length ==> groupUsed[g] == (Marked(m, ids, g) || Excepted(m, ids, i, g))
      invariant forall e :: 0 <= e < entryUsed.Length ==> entryUsed[e] == (m.entries[e].id in ids)
    {
      forall g | 0 <= g < groupUsed.Length
        ensures Excepted(m, ids, i + 1, g) <==>
          Excepted(m, ids, i, g) || (m.entries[i].id in ids && m.Group(m.entries[i].id) == Some(g))
      {
        ExceptedStep(m, ids, i, g);
      }
      if entryUsed[i] {
        var g := FindGroup(m.Prefixed(), m.entries[i].id);
        if g.Some? {
          groupUsed[g.value] := true;
        }
      }
    }
    forall g | 0 <= g < groupUsed.Length
      ensures groupUsed[g] == m.GroupLives(ids, g)
    {
      MarkedOrExcepted(m, ids, g);
    }
  }

  lemma ExceptedStep(m: Map, ids: seq<string>, i: nat, g: nat)
    requires i < |m.entries|
    ensures Excepted(m, ids, i + 1, g) <==>
      Excepted(m, ids, i, g) || (m.entries[i].id in ids && m.Group(m.entries[i].id) == Some(g))
  {
  }

  /** `check_surface`: both directions out of one walk over the surface. */
  method CheckSurface(m: Map, ids: seq<string>, page: Page) returns (problems: seq<Problem>)
    requires m.Valid()
    ensures problems == page.Sort(SurfaceReport(m, ids))
  {
    hide UnmappedIds, Marked, Sorted, GroupOf, Page.Sort, Map.GroupLives, Map.Maps;
    var groupUsed := new bool[|m.groups|](_ => false);
    var entryUsed := new bool[|m.entries|](_ => false);
    problems := MarkSurface(m, ids, groupUsed, entryUsed);
    MarkExceptions(m, ids, groupUsed, entryUsed);
    ghost var unmapped := problems;
    for g := 0 to |m.groups|
      invariant problems == unmapped + DeadGroups(m, ids, g)
      invariant forall g :: 0 <= g < groupUsed.Length ==> groupUsed[g] == m.GroupLives(ids, g)
      invariant forall e :: 0 <= e < entryUsed.Length ==> entryUsed[e] == (m.entries[e].id in ids)
    {
      if !groupUsed[g] {
        problems := problems + [DeadGroup(g)];
      }
    }
    ghost var dead := problems;
    for e := 0 to |m.entries|
      invariant problems == dead + DeadEntries(m, ids, e)
      invariant forall e :: 0 <= e < entryUsed.Length ==> entryUsed[e] == (m.entries[e].id in ids)
    {
      if !entryUsed[e] {
        problems := problems + [DeadEntry(e)];
      }
    }
    problems := page.Sort(problems);
  }

  lemma CountAppend(s: seq<Problem>, q: Problem, p: Problem)
    ensures s + [] == s
    ensures multiset(s + [q])[p] == multiset(s)[p] + if p == q then 1 else 0
  {
  }

  lemma {:induction false} CountUnmapped(m: Map, ids: seq<string>, p: Problem)
    ensures multiset(UnmappedIds(m, ids))[p] ==
      if p.Unmapped? && !m.Maps(p.id) then multiset(ids)[p.id] else 0
  {
    hide Map.Maps;
    if ids != [] {
      var n := |ids| - 1;
      assert ids == ids[..n] + [ids[n]];
      CountUnmapped(m, ids[..n], p);
      CountAppend(UnmappedIds(m, ids[..n]), Unmapped(ids[n]), p);
    }
  }

  lemma {:induction false} CountDeadGroups(m: Map, ids: seq<string>, n: nat, p: Problem)
    requires n <= |m.groups|
    ensures multiset(DeadGroups(m, ids, n))[p] == if p.DeadGroup? && p.at < n && !m.GroupLives(ids, p.at) then 1 else 0
  {
    hide Map.GroupLives, DeadGroups;
    DeadGroupsStep(m, ids, n);
    if n > 0 {
      CountDeadGroups(m, ids, n - 1, p);
      CountAppend(DeadGroups(m, ids, n - 1), DeadGroup(n - 1), p);
    }
  }

  lemma DeadGroupsStep(m: Map, ids: seq<string>, n: nat)
    requires n <= |m.groups|
    ensures DeadGroups(m, ids, n) ==
      if n == 0 then []
      else if m.GroupLives(ids, n - 1) then DeadGroups(m, ids, n - 1)
      else DeadGroups(m, ids, n - 1) + [DeadGroup(n - 1)]
  {
    hide Map.GroupLives;
    if n > 0 { assert DeadGroups(m, ids, n - 1) + [] == DeadGroups(m, ids, n - 1); }
  }

  lemma {:induction false} CountDeadEntries(m: Map, ids: seq<string>, n: nat, p: Problem)
    requires n <= |m.entries|
    ensures multiset(DeadEntries(m, ids, n))[p] ==
      if p.DeadEntry? && p.at < n && m.entries[p.at].id !in ids then 1 else 0
  {
    hide DeadEntries;
    DeadEntriesStep(m, ids, n);
    if n > 0 {
      CountDeadEntries(m, ids, n - 1, p);
      CountAppend(DeadEntries(m, ids, n - 1), DeadEntry(n - 1), p);
    }
  }

  lemma DeadEntriesStep(m: Map, ids: seq<string>, n: nat)
    requires n <= |m.entries|
    ensures DeadEntries(m, ids, n) ==
      if n == 0 then []
      else if m.entries[n - 1].id in ids then DeadEntries(m, ids, n - 1)
      else DeadEntries(m, ids, n - 1) + [DeadEntry(n - 1)]
  {
    if n > 0 { assert DeadEntries(m, ids, n - 1) + [] == DeadEntries(m, ids, n - 1); }
  }

  /** One problem for every offender and none for anything else. */
  lemma OneProblemEach(m: Map, ids: seq<string>, p: Problem)
    ensures multiset(SurfaceReport(m, ids))[p] ==
      match p
      case Unmapped(id) => if m.Maps(id) then 0 else multiset(ids)[id]
      case DeadGroup(g) => if g < |m.groups| && !m.GroupLives(ids, g) then 1 else 0
      case DeadEntry(e) => if e < |m.entries| && m.entries[e].id !in ids then 1 else 0
      case _ => 0
  {
    CountUnmapped(m, ids, p);
    CountDeadGroups(m, ids, |m.groups|, p);
    CountDeadEntries(m, ids, |m.entries|, p);
  }

  /** The group is the longest cover of some public path. */
  ghost predicate CoversSome(m: Map, ids: seq<string>, g: nat) {
    exists k :: 0 <= k < |ids| && Picks(m.Prefixed(), ids[k], Some(g))
  }

  /** Every path classified, every entry public, and every group some path's longest cover. */
  ghost predicate Honest(m: Map, ids: seq<string>) {
    (forall id :: id in ids ==> id in m.Ids() || exists g :: Picks(m.Prefixed(), id, Some(g))) &&
    (forall e :: 0 <= e < |m.entries| ==> m.entries[e].id in ids) &&
    forall g :: 0 <= g < |m.groups| ==> CoversSome(m, ids, g)
  }

  /** Nothing is reported exactly when the map is honest about the surface. */
  lemma {:induction false} CleanIffHonest(m: Map, ids: seq<string>)
    requires m.Valid() && forall id :: id in ids ==> !Triple(id)
    ensures SurfaceReport(m, ids) == [] <==> Honest(m, ids)
  {
    hide Covers, Triple, Sorted, GroupOf, Picks, SurfaceReport, CoversSome, Map.GroupLives;
    forall id | id in ids
      ensures m.Maps(id) <==> id in m.Ids() || exists g :: Picks(m.Prefixed(), id, Some(g))
    {
      PicksAreGroups(m, id);
    }
    forall g | 0 <= g < |m.groups|
      ensures m.GroupLives(ids, g) <==> CoversSome(m, ids, g)
    {
      LivesIfCovers(m, ids, g);
    }
    CleanIffNoOffender(m, ids);
  }

  lemma LivesIfCovers(m: Map, ids: seq<string>, g: nat)
    requires m.Valid() && forall id :: id in ids ==> !Triple(id)
    ensures m.GroupLives(ids, g) <==> CoversSome(m, ids, g)
  {
    hide Triple, Sorted, GroupOf, Picks;
    forall k | 0 <= k < |ids|
      ensures m.Group(ids[k]) == Some(g) <==> Picks(m.Prefixed(), ids[k], Some(g))
    {
      PicksAreGroups(m, ids[k]);
    }
  }

  lemma PicksAreGroups(m: Map, id: string)
    requires m.Valid() && !Triple(id)
    ensures forall g: nat :: m.Group(id) == Some(g) <==> Picks(m.Prefixed(), id, Some(g))
    ensures m.Group(id).Some? <==> exists g :: Picks(m.Prefixed(), id, Some(g))
  {
    hide Covers, Triple, Sorted, GroupOf, Longest;
    GroupIsLongest(m.Prefixed(), id);
    forall g: nat | Picks(m.Prefixed(), id, Some(g))
      ensures m.Group(id) == Some(g)
    {
      PickIsUnique(m.Prefixed(), id, m.Group(id), Some(g));
    }
  }

  lemma CleanIffNoOffender(m: Map, ids: seq<string>)
    ensures SurfaceReport(m, ids) == [] <==>
      (forall id :: id in ids ==> m.Maps(id)) && (forall e :: 0 <= e < |m.entries| ==> m.entries[e].id in ids) &&
      forall g :: 0 <= g < |m.groups| ==> m.GroupLives(ids, g)
  {
    var report := SurfaceReport(m, ids);
    forall id | id in ids && !m.Maps(id)
      ensures report != []
    {
      OneProblemEach(m, ids, Unmapped(id));
    }
    forall e | 0 <= e < |m.entries| && m.entries[e].id !in ids
      ensures report != []
    {
      OneProblemEach(m, ids, DeadEntry(e));
    }
    forall g | 0 <= g < |m.groups| && !m.GroupLives(ids, g)
      ensures report != []
    {
      OneProblemEach(m, ids, DeadGroup(g));
    }
    if report != [] {
      OneProblemEach(m, ids, report[0]);
      assert report[0] in multiset(report);
    }
  }

  // ---- a binding's map against the ledger ----

  ghost function UnnamedIds(binding: Map, ledger: Map, ids: seq<string>): seq<Problem> {
    if ids == [] then []
    else
      var n := |ids| - 1;
      UnnamedIds(binding, ledger, ids[..n]) +
      if ledger.Tier(ids[n]) == Some(Bound) && ids[n] !in binding.Ids() then [Unnamed(ids[n])] else []
  }

  ghost function BadNames(binding: Map, ledger: Map, ids: seq<string>, n: nat): seq<Problem>
    requires n <= |binding.entries|
  {
    if n == 0 then []
    else
      var id := binding.entries[n - 1].id;
      BadNames(binding, ledger, ids, n - 1) + (
        if id !in ids then [NotInModel(n - 1)]
        else if ledger.Tier(id) == Some(Internal) then [NotBindable(n - 1)]
        else [])
  }

  /** `check_binding`: what is bound and unnamed, then the names of what is gone or is nobody's to bind. */
  method CheckBinding(binding: Map, ledger: Map, ids: seq<string>, page: Page) returns (problems: seq<Problem>)
    requires binding.Valid() && ledger.Valid()
    ensures problems ==
      page.Sort(UnnamedIds(binding, ledger, ids) + BadNames(binding, ledger, ids, |binding.entries|))
  {
    hide Sorted, Map.Tier, Page.Sort;
    problems := [];
    for i := 0 to |ids|
      invariant problems == UnnamedIds(binding, ledger, ids[..i])
    {
      assert ids[..i + 1][..i] == ids[..i];
      var tier := ledger.TierOf(ids[i]);
      if tier == Some(Bound) {
        var at := Search(binding.Ids(), ids[i]);
        if at.None? {
          problems := problems + [Unnamed(ids[i])];
        }
      }
    }
    assert ids[..|ids|] == ids;
    ghost var unnamed := problems;
    for e := 0 to |binding.entries|
      invariant problems == unnamed + BadNames(binding, ledger, ids, e)
    {
      var entry := binding.entries[e];
      if entry.id !in ids {
        problems := problems + [NotInModel(e)];
        continue;
      }
      var tier := ledger.TierOf(entry.id);
      if tier == Some(Internal) {
        problems := problems + [NotBindable(e)];
      }
    }
    problems := page.Sort(problems);
  }

  lemma {:induction false} NoneUnnamed(binding: Map, ledger: Map, ids: seq<string>)
    ensures UnnamedIds(binding, ledger, ids) == [] <==>
      forall id :: id in ids && ledger.Tier(id) == Some(Bound) ==> id in binding.Ids()
  {
    hide Map.Tier;
    if ids != [] {
      var n := |ids| - 1;
      NoneUnnamed(binding, ledger, ids[..n]);
      assert ids == ids[..n] + [ids[n]];
    }
  }

  lemma {:induction false} NoneBad(binding: Map, ledger: Map, ids: seq<string>, n: nat)
    requires n <= |binding.entries|
    ensures BadNames(binding, ledger, ids, n) == [] <==>
      forall e :: 0 <= e < n ==> binding.entries[e].id in ids && ledger.Tier(binding.entries[e].id) != Some(Internal)
  {
    hide Map.Tier;
    if n > 0 {
      NoneBad(binding, ledger, ids, n - 1);
    }
  }

  /** A ledger nothing is wrong with gives every public path a tier. */
  lemma CleanClassifies(ledger: Map, ids: seq<string>)
    requires forall e :: e in ledger.entries ==> e.tier.Some?
    requires SurfaceReport(ledger, ids) == []
    ensures forall id :: id in ids ==> ledger.Tier(id).Some?
  {
    hide GroupOf;
    CleanIffNoOffender(ledger, ids);
    forall id | id in ids
      ensures ledger.Tier(id).Some?
    {
      assert ledger.Maps(id);
      if id in ledger.Ids() {
        assert ledger.entries[Position(ledger.Ids(), id).value] in ledger.entries;
      }
    }
  }

  /** A release both checks pass: a binding names all it owes, and nothing that is gone or nobody's to bind. */
  lemma CleanRelease(binding: Map, ledger: Map, ids: seq<string>)
    requires forall e :: e in ledger.entries ==> e.tier.Some?
    requires SurfaceReport(ledger, ids) == []
    requires UnnamedIds(binding, ledger, ids) + BadNames(binding, ledger, ids, |binding.entries|) == []
    ensures forall id :: id in ids && ledger.Tier(id) == Some(Bound) ==> id in binding.Ids()
    ensures forall id :: id in binding.Ids() ==>
      id in ids && (ledger.Tier(id) == Some(Bound) || ledger.Tier(id) == Some(Optional))
  {
    hide SurfaceReport, UnnamedIds, BadNames, Map.Tier;
    CleanClassifies(ledger, ids);
    NoneUnnamed(binding, ledger, ids);
    NoneBad(binding, ledger, ids, |binding.entries|);
    forall id | id in binding.Ids()
      ensures id in ids && (ledger.Tier(id) == Some(Bound) || ledger.Tier(id) == Some(Optional))
    {
      var e := Position(binding.Ids(), id).value;
      assert binding.entries[e].id == id;
      var tier := ledger.Tier(id).value;
      assert tier == Bound || tier == Optional || tier == Internal;
    }
  }
}
