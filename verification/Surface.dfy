/**
  The public-surface walk of crates/xtask/src/model.rs over an abstract item
  graph: crates that re-export from each other, cycles included. The walk is
  depth first with a set of what it has seen and a bound on depth; what it
  files is proved to be the least fixpoint of the rules without that set.
 */
module Surface {
  import opened Common

  const MAX_DEPTH := 32

  /** What an item is, as far as the walk looks. */
  datatype Body =
    | Module(members: seq<string>)
    | TypeLike(kind: string, children: seq<string>, impls: seq<string>)
    | Impl(items: seq<string>, inherent: bool, synthetic: bool, blanket: bool)
    | Use(name: string, glob: bool, target: Option<string>)
    | Function | TypeAlias | Constant | Macro
    | Field | Variant | AssocConst | AssocType
    | Other

  datatype Item = Item(name: string, isPublic: bool, body: Body)

  /** One crate: its items by id, and the paths and owners of every id it can name. */
  datatype Reader = Reader(
    name: string,
    index: map<string, Item>,
    paths: map<string, string>,
    owners: map<string, string>,
    byPath: map<string, string>)

  type Graph = seq<Reader>

  /** What is filed under one id: its kind, its name, what it is of and where it was declared. */
  datatype Entity = Entity(kind: string, name: string, of: Option<string>, source: Option<string>)

  /** An item reached under a public path, walked as a module or as a type. */
  datatype Visit = Visit(home: nat, id: string, path: seq<string>, asModule: bool)

  function IdOf(path: seq<string>): string { Join(path, "::") }

  function Last(path: seq<string>): string { if path == [] then "" else path[|path| - 1] }

  function Lookup(g: Graph, home: nat, id: string): Option<Item> {
    if home < |g| && id in g[home].index then Some(g[home].index[id]) else None
  }

  // ---- the rules ----

  /** What one member of a module, or one re-export, comes to. */
  datatype Act =
    | Nothing
    | File(id: string, entity: Entity)
    | Go(visit: Visit, source: Option<string>)

  function LeafKind(b: Body): Option<string> {
    match b
    case Function => Some("function")
    case TypeAlias => Some("type-alias")
    case Constant => Some("constant")
    case Macro => Some("macro")
    case _ => None
  }

  /** An item under the path it is to be filed by: walked if it has members, filed if it has none. */
  function Dispatched(g: Graph, home: nat, id: string, path: seq<string>, source: Option<string>): Act {
    match Lookup(g, home, id)
    case None => Nothing
    case Some(item) =>
      if item.body.Module? || item.body.TypeLike? then Go(Visit(home, id, path, item.body.Module?), source)
      else match LeafKind(item.body)
           case Some(kind) => File(IdOf(path), Entity(kind, Last(path), None, source))
           case None => Nothing
  }

  /** A glob splices the members of its target in at this level. */
  function Target(home: nat, id: string, path: seq<string>, glob: bool, source: Option<string>, g: Graph): Act {
    if glob then Go(Visit(home, id, path, true), source) else Dispatched(g, home, id, path, source)
  }

  /** The first crate of this name, or `|g|`. */
  function Position(g: Graph, name: string): (i: nat)
    ensures i <= |g|
    ensures i < |g| ==> g[i].name == name
    ensures forall k :: 0 <= k < i ==> g[k].name != name
  {
    if g == [] || g[0].name == name then 0 else Position(g[1..], name) + 1
  }

  function Find<V>(m: map<string, V>, key: string): Option<V> { if key in m then Some(m[key]) else None }

  /** What `pub use` makes of its target, in this crate or in the crate that owns it. */
  function Reexported(g: Graph, home: nat, u: Body, parent: seq<string>): Act
    requires home < |g| && u.Use?
  {
    match u.target
    case None => Nothing
    case Some(target) =>
      var r := g[home];
      var path := if u.glob then parent else parent + [u.name];
      var source := Find(r.paths, target);
      if target in r.index then Target(home, target, path, u.glob, source, g)
      else if target !in r.owners then Nothing
      else
        var there := Position(g, r.owners[target]);
        if there == |g| then
          if source.Some? then File(IdOf(path), Entity("unresolved", u.name, None, source)) else Nothing
        else if source == None || source.value !in g[there].byPath then Nothing
        else Target(there, g[there].byPath[source.value], path, u.glob, source, g)
  }

  /** What a member of a module comes to: a `use` is followed, anything else has to be public. */
  function Resolved(g: Graph, home: nat, id: string, parent: seq<string>): Act {
    match Lookup(g, home, id)
    case None => Nothing
    case Some(item) =>
      if item.body.Use? then Reexported(g, home, item.body, parent)
      else if item.isPublic then Dispatched(g, home, id, parent + [item.name], None)
      else Nothing
  }

  /** The kind a child of a type is filed as, methods of an impl included. */
  function MemberKind(b: Body, inImpl: bool): Option<string> {
    match b
    case Field => if inImpl then None else Some("field")
    case Variant => if inImpl then None else Some("variant")
    case Function => Some("method")
    case AssocConst => Some("assoc-const")
    case AssocType => Some("assoc-type")
    case _ => None
  }

  /** Whether a child of a type is filed under it. */
  predicate IsChild(g: Graph, home: nat, id: string, inImpl: bool) {
    var item := Lookup(g, home, id);
    item.Some? && MemberKind(item.value.body, inImpl).Some? && (inImpl ==> item.value.isPublic)
  }

  /** Only an inherent impl that is neither synthetic nor blanket is API. */
  predicate IsApi(g: Graph, home: nat, id: string) {
    var item := Lookup(g, home, id);
    item.Some? && item.value.body.Impl? && item.value.body.inherent
    && !item.value.body.synthetic && !item.value.body.blanket
  }

  /** `w` is reached from `v` by one rule, however deep. */
  ghost predicate Step(g: Graph, v: Visit, w: Visit) {
    v.asModule
    && var item := Lookup(g, v.home, v.id);
       item.Some? && item.value.body.Module?
       && exists m :: m in item.value.body.members && StepsTo(g, v, m, w)
  }

  predicate StepsTo(g: Graph, v: Visit, m: string, w: Visit) {
    var act := Resolved(g, v.home, m, v.path);
    act.Go? && act.visit == w
  }

  predicate ActFiles(g: Graph, v: Visit, m: string, id: string) {
    var act := Resolved(g, v.home, m, v.path);
    act.File? && act.id == id
  }

  predicate ChildFiles(g: Graph, v: Visit, c: string, inImpl: bool, id: string) {
    IsChild(g, v.home, c, inImpl) && id == IdOf(v.path + [Lookup(g, v.home, c).value.name])
  }

  predicate ImplFiles(g: Graph, v: Visit, i: string, id: string) {
    IsApi(g, v.home, i)
    && exists c :: c in Lookup(g, v.home, i).value.body.items && ChildFiles(g, v, c, true, id)
  }

  /** `id` is filed when `v` is visited: the visit's own path, or a member's that is a leaf. */
  ghost predicate Files(g: Graph, v: Visit, id: string) {
    match Lookup(g, v.home, v.id)
    case None => false
    case Some(item) =>
      if v.asModule then
        (|v.path| > 1 && id == IdOf(v.path))
        || (item.body.Module? && exists m :: m in item.body.members && ActFiles(g, v, m, id))
      else
        item.body.TypeLike?
        && (id == IdOf(v.path)
            || (exists c :: c in item.body.children && ChildFiles(g, v, c, false, id))
            || (exists i :: i in item.body.impls && ImplFiles(g, v, i, id)))
  }

  /** Closed under the rules, which know nothing of what was seen before. */
  ghost predicate Closed(g: Graph, s: iset<Visit>) {
    forall v, w :: v in s && Step(g, v, w) ==> w in s
  }

  /** The least set that holds `root` and is closed under the rules. */
  ghost function Reachable(g: Graph, root: Visit): iset<Visit> {
    iset v: Visit | InEvery(g, root, v)
  }

  ghost predicate InEvery(g: Graph, root: Visit, v: Visit) {
    forall s: iset<Visit> :: root in s && Closed(g, s) ==> v in s
  }

  lemma ReachableClosed(g: Graph, root: Visit)
    ensures root in Reachable(g, root) && Closed(g, Reachable(g, root))
  {
    var r := Reachable(g, root);
    forall v, w | v in r && Step(g, v, w) ensures w in r {
      forall s: iset<Visit> | root in s && Closed(g, s) ensures w in s {
        assert InEvery(g, root, v);
      }
    }
  }

  lemma ReachableLeast(g: Graph, root: Visit, s: iset<Visit>)
    requires root in s && Closed(g, s)
    ensures Reachable(g, root) <= s
  {
  }

  /** How `v` is come by: it is the root, or a member of a reachable module leads to it with this source. */
  ghost predicate Led(g: Graph, root: Visit, v: Visit, source: Option<string>) {
    (v == root && source == None) || exists u, m :: u in Reachable(g, root) && LeadsTo(g, u, m, v, source)
  }

  predicate LeadsTo(g: Graph, u: Visit, m: string, v: Visit, source: Option<string>) {
    InModule(g, u, m) && Resolved(g, u.home, m, u.path) == Go(v, source)
  }

  /** A visit whose item is a module with this member. */
  predicate InModule(g: Graph, v: Visit, m: string) {
    v.asModule
    && var item := Lookup(g, v.home, v.id); item.Some? && item.value.body.Module? && m in item.value.body.members
  }

  predicate InImpls(g: Graph, v: Visit, i: string) {
    !v.asModule
    && var item := Lookup(g, v.home, v.id); item.Some? && item.value.body.TypeLike? && i in item.value.body.impls
  }

  /** A visit whose item is a type with this child, its own or an API impl's. */
  ghost predicate InType(g: Graph, v: Visit, c: string, inImpl: bool) {
    if inImpl then exists i :: InImpls(g, v, i) && ImplHolds(g, v.home, i, c)
    else
      !v.asModule
      && var item := Lookup(g, v.home, v.id); item.Some? && item.value.body.TypeLike? && c in item.value.body.children
  }

  predicate ImplHolds(g: Graph, home: nat, i: string, c: string) {
    IsApi(g, home, i) && c in Lookup(g, home, i).value.body.items
  }

  /** The entity a visit files under its own path. */
  ghost predicate OwnEntity(g: Graph, root: Visit, v: Visit, id: string, e: Entity) {
    var item := Lookup(g, v.home, v.id);
    item.Some? && id == IdOf(v.path) && Led(g, root, v, e.source)
    && if v.asModule then |v.path| > 1 && e == Entity("module", Last(v.path), None, e.source)
       else item.value.body.TypeLike? && e == Entity(item.value.body.kind, Last(v.path), None, e.source)
  }

  predicate LeafEntity(g: Graph, v: Visit, m: string, id: string, e: Entity) {
    InModule(g, v, m) && Resolved(g, v.home, m, v.path) == File(id, e)
  }

  /** The entity of a child: its kind and its name, hung off the type it is a child of. */
  ghost predicate ChildEntity(g: Graph, v: Visit, c: string, inImpl: bool, id: string, e: Entity) {
    InType(g, v, c, inImpl) && ChildFiles(g, v, c, inImpl, id)
    && var item := Lookup(g, v.home, c).value;
       e == Entity(MemberKind(item.body, inImpl).value, item.name, Some(IdOf(v.path)), None)
  }

  /** `v` files under `id` an entity of just this kind, name, owner and source. */
  ghost predicate FilesAs(g: Graph, root: Visit, v: Visit, id: string, e: Entity) {
    OwnEntity(g, root, v, id, e)
    || (exists m :: LeafEntity(g, v, m, id, e))
    || (exists c, inImpl :: ChildEntity(g, v, c, inImpl, id, e))
  }

  lemma FilesAsFiles(g: Graph, root: Visit, v: Visit, id: string, e: Entity)
    requires FilesAs(g, root, v, id, e)
    ensures Files(g, v, id)
  {
    hide Led, Resolved, IsChild, MemberKind, IsApi;
    if m :| LeafEntity(g, v, m, id, e) {
      assert ActFiles(g, v, m, id);
    } else if c, inImpl :| ChildEntity(g, v, c, inImpl, id, e) {
      if inImpl {
        var i :| InImpls(g, v, i) && ImplHolds(g, v.home, i, c);
        assert ImplFiles(g, v, i, id);
      }
    }
  }

  // ---- names and paths ----

  predicate Plain(name: string) { ':' !in name }

  predicate PlainPath(path: seq<string>) { path != [] && forall n :: n in path ==> Plain(n) }

  /** Every name of the graph is one a path can hold: no colon in it. */
  predicate PlainGraph(g: Graph) {
    forall r :: r in g ==> forall id :: id in r.index ==> PlainItem(r.index[id])
  }

  predicate PlainItem(item: Item) { Plain(item.name) && (item.body.Use? ==> Plain(item.body.name)) }

  /** Two paths of plain names are one only when they are written the same. */
  lemma {:induction false} IdInjective(a: seq<string>, b: seq<string>)
    requires PlainPath(a) && PlainPath(b) && IdOf(a) == IdOf(b)
    ensures a == b
    decreases |a|
  {
    var s := IdOf(a);
    IdFront(a);
    IdFront(b);
    assert a[0] == b[0];
    assert a == [a[0]] + a[1..] && b == [b[0]] + b[1..];
    if |a| > 1 {
      assert s[|a[0]| + 2..] == IdOf(a[1..]);
      IdInjective(a[1..], b[1..]);
    }
  }

  /** The first name of a path is its id up to the first colon. */
  lemma IdFront(a: seq<string>)
    requires PlainPath(a)
    ensures IdOf(a)[..IndexOf(IdOf(a), ':')] == a[0]
    ensures IndexOf(IdOf(a), ':') == |IdOf(a)| <==> |a| == 1
    ensures |a| > 1 ==> IdOf(a)[|a[0]| + 2..] == IdOf(a[1..])
  {
    assert Plain(a[0]);
    if |a| == 1 {
      IndexOfAbsent(a[0], ':');
      assert a[0][..|a[0]|] == a[0];
    } else {
      var rest := ":" + IdOf(a[1..]);
      assert IdOf(a) == a[0] + [':'] + rest;
      IndexOfConcat(a[0], ':', rest);
      assert IdOf(a)[..|a[0]|] == a[0];
    }
  }

  type Key = (nat, string, string)

  /** What the walk remembers a visit by. */
  function KeyOf(v: Visit): Key { (v.home, v.id, IdOf(v.path)) }

  /** No two visits are remembered as one. */
  ghost predicate NoClash(s: iset<Visit>) {
    forall v, w :: v in s && w in s && KeyOf(v) == KeyOf(w) ==> v == w
  }

  /** A glob's target, where there is one, is a module. */
  ghost predicate GlobsNameModules(g: Graph) {
    forall home: nat, id, parent :: VisitFits(g, Resolved(g, home, id, parent))
  }

  /** An act walks modules as modules and everything else as a type. */
  predicate VisitFits(g: Graph, act: Act) { act.Go? ==> WalkedAsIs(g, act.visit) }

  predicate WalkedAsIs(g: Graph, v: Visit) {
    var item := Lookup(g, v.home, v.id);
    v.asModule == (item == None || item.value.body.Module?)
  }

  /** Where globs name modules and names hold no colon, a visit's key says what it is of and how. */
  lemma ModulesNeverClash(g: Graph, root: Visit)
    requires GlobsNameModules(g) && WalkedAsIs(g, root)
    requires PlainGraph(g) && PlainPath(root.path)
    ensures NoClash(Reachable(g, root)) && NoClash(Shallow(g, root))
  {
    var s := iset v: Visit | WalkedAsIs(g, v);
    forall v, w | v in s && Step(g, v, w) ensures w in s {
      var m :| m in Lookup(g, v.home, v.id).value.body.members && StepsTo(g, v, m, w);
      assert VisitFits(g, Resolved(g, v.home, m, v.path));
    }
    ReachableLeast(g, root, s);
    ReachablePlain(g, root);
    forall v, w | v in Reachable(g, root) && w in Reachable(g, root) && KeyOf(v) == KeyOf(w) ensures v == w {
      IdInjective(v.path, w.path);
    }
  }

  /** The paths of reachable visits are made of the graph's own names. */
  lemma ReachablePlain(g: Graph, root: Visit)
    requires PlainGraph(g) && PlainPath(root.path)
    ensures forall v :: v in Reachable(g, root) ==> PlainPath(v.path)
  {
    var s := iset v: Visit | PlainPath(v.path);
    forall v, w | v in s && Step(g, v, w) ensures w in s {
      var m :| m in Lookup(g, v.home, v.id).value.body.members && StepsTo(g, v, m, w);
      ResolvedPlain(g, v.home, m, v.path);
    }
    ReachableLeast(g, root, s);
  }

  lemma ResolvedPlain(g: Graph, home: nat, id: string, parent: seq<string>)
    requires PlainGraph(g) && PlainPath(parent)
    ensures Resolved(g, home, id, parent).Go? ==> PlainPath(Resolved(g, home, id, parent).visit.path)
  {
    var item := Lookup(g, home, id);
    if item.Some? {
      assert g[home] in g && PlainItem(item.value);
    }
  }

  // ---- the walk ----

  predicate InDepth(v: Visit) { |v.path| <= MAX_DEPTH }

  /** The reachable visits no deeper than the walk goes. */
  ghost function Shallow(g: Graph, root: Visit): iset<Visit> {
    iset v: Visit | v in Reachable(g, root) && InDepth(v)
  }

  /** No rule makes a path shorter, so a shallow visit is led to by shallow ones. */
  lemma StepsDeepen(g: Graph, v: Visit, w: Visit)
    requires Step(g, v, w)
    ensures |v.path| <= |w.path|
  {
  }

  /** Nothing filed before is lost or replaced. */
  predicate Keeps(before: map<string, Entity>, now: map<string, Entity>) {
    before.Keys <= now.Keys && forall id :: id in before ==> before[id] == now[id]
  }

  /** A visit remembered as this one was made. */
  ghost predicate Met(visited: set<Visit>, w: Visit) {
    exists u :: u in visited && KeyOf(u) == KeyOf(w)
  }

  lemma MetGrows(a: set<Visit>, b: set<Visit>, w: Visit)
    requires Met(a, w) && a <= b
    ensures Met(b, w)
  {
    var u :| u in a && KeyOf(u) == KeyOf(w);
    assert u in b;
  }

  /** Everything one step of the rules asks of a visit has been done. */
  ghost predicate MemberDone(g: Graph, visited: set<Visit>, ids: set<string>, v: Visit, m: string) {
    match Resolved(g, v.home, m, v.path)
    case Nothing => true
    case File(id, _) => id in ids
    case Go(w, _) => InDepth(w) ==> Met(visited, w)
  }

  ghost predicate Complete(g: Graph, visited: set<Visit>, ids: set<string>, v: Visit) {
    (forall w :: Step(g, v, w) && InDepth(w) ==> Met(visited, w)) && (forall id :: Files(g, v, id) ==> id in ids)
  }

  /** All that was added since `before` is complete. */
  ghost predicate Settled(g: Graph, before: set<Visit>, visited: set<Visit>, ids: set<string>) {
    forall v :: v in visited && v !in before ==> Complete(g, visited, ids, v)
  }

  /** Every entity is one that some visit files, kind, name, owner and source. */
  ghost predicate Accounted(g: Graph, root: Visit, visited: set<Visit>, out: map<string, Entity>) {
    forall id :: id in out ==> exists v :: v in visited && FilesAs(g, root, v, id, out[id])
  }

  lemma CompleteGrows(g: Graph, a: set<Visit>, b: set<Visit>, ids: set<string>, more: set<string>, v: Visit)
    requires Complete(g, a, ids, v) && a <= b && ids <= more
    ensures Complete(g, b, more, v)
  {
    hide Files, Met;
    forall w | Step(g, v, w) && InDepth(w) ensures Met(b, w) {
      MetGrows(a, b, w);
    }
  }

  lemma SettledGrows(g: Graph, before: set<Visit>, a: set<Visit>, b: set<Visit>, ids: set<string>, more: set<string>)
    requires Settled(g, before, a, ids) && Settled(g, a, b, more) && before <= a <= b && ids <= more
    ensures Settled(g, before, b, more)
  {
    hide Complete;
    forall v | v in b && v !in before ensures Complete(g, b, more, v) {
      if v in a { CompleteGrows(g, a, b, ids, more, v); }
    }
  }

  lemma ModuleComplete(g: Graph, visited: set<Visit>, ids: set<string>, v: Visit, members: seq<string>)
    requires v.asModule && Lookup(g, v.home, v.id).Some? && Lookup(g, v.home, v.id).value.body == Module(members)
    requires |v.path| > 1 ==> IdOf(v.path) in ids
    requires forall m :: m in members ==> MemberDone(g, visited, ids, v, m)
    ensures Complete(g, visited, ids, v)
  {
    forall w | Step(g, v, w) && InDepth(w) ensures Met(visited, w) {
      var m :| m in members && StepsTo(g, v, m, w);
      assert MemberDone(g, visited, ids, v, m);
    }
    forall id | Files(g, v, id) ensures id in ids {
      if !(|v.path| > 1 && id == IdOf(v.path)) {
        var m :| m in members && ActFiles(g, v, m, id);
        assert MemberDone(g, visited, ids, v, m);
      }
    }
  }

  /** The items every visit that can recurse is one of. */
  function Pairs(g: Graph): set<(nat, string)> {
    set home: nat, id | 0 <= home < |g| && id in g[home].index.Keys :: (home, id)
  }

  class Walk {
    const g: Graph
    ghost const root: Visit
    var out: map<string, Entity>
    var seen: set<Key>
    /** The visits whose keys are in `seen`. */
    ghost var visited: set<Visit>

    constructor (g: Graph, ghost root: Visit)
      ensures this.g == g && this.root == root && visited == {} && out == map[]
      ensures Valid()
    {
      this.g := g;
      this.root := root;
      out := map[];
      seen := {};
      visited := {};
      new;
      ReachableClosed(g, root);
    }

    ghost predicate Valid()
      reads this
    {
      Closed(g, Reachable(g, root))
      && (forall v :: v in visited ==> v in Reachable(g, root) && InDepth(v))
      && seen == (set v | v in visited :: KeyOf(v))
      && Accounted(g, root, visited, out)
      && (forall id :: id in out && out[id].of.Some? ==> out[id].of.value in out)
    }

    /** The items not yet seen under this path. */
    ghost function Unseen(path: seq<string>): set<(nat, string)>
      reads this
    {
      set p | p in Pairs(g) && forall v :: v in visited ==> KeyOf(v) != (p.0, p.1, IdOf(path))
    }

    /** `push`: the first entity under an id stays. */
    method Push(id: string, e: Entity, ghost at: Visit)
      requires Valid() && at in visited && FilesAs(g, root, at, id, e) && (e.of.Some? ==> e.of.value in out)
      modifies this`out
      ensures Valid() && out == if id in old(out) then old(out) else old(out)[id := e]
    {
      hide FilesAs, Reachable;
      if id !in out { out := out[id := e]; }
    }

    /** Marks a visit: false when it is too deep or its key was seen. */
    method Enter(home: nat, id: string, path: seq<string>, ghost v: Visit) returns (entered: bool)
      requires Valid() && v in Reachable(g, root) && v.home == home && v.id == id && v.path == path
      modifies this`seen, this`visited
      ensures Valid()
      ensures entered <==> InDepth(v) && !Met(old(visited), v)
      ensures InDepth(v) ==> Met(visited, v)
      ensures visited == if entered then old(visited) + {v} else old(visited)
      ensures entered && Lookup(g, home, id).Some? ==> Unseen(path) < old(Unseen(path))
    {
      hide Reachable, Files;
      if |path| > MAX_DEPTH { return false; }
      if (home, id, IdOf(path)) in seen { return false; }
      seen := seen + {(home, id, IdOf(path))};
      visited := visited + {v};
      entered := true;
      if Lookup(g, home, id).Some? {
        assert (home, id) in old(Unseen(path)) && (home, id) !in Unseen(path);
      }
    }

    /** `module`: the module itself, then each of its members. */
    method WalkModule(home: nat, id: string, path: seq<string>, source: Option<string>, ghost v: Visit)
      requires Valid() && v == Visit(home, id, path, true) && v in Reachable(g, root)
      requires Led(g, root, v, source)
      modifies this`out, this`seen, this`visited
      ensures Valid() && (InDepth(v) ==> Met(visited, v))
      ensures old(visited) <= visited && Keeps(old(out), out)
      ensures Settled(g, old(visited), visited, out.Keys)
      decreases MAX_DEPTH + 1 - |path|, Unseen(path), 0
    {
      hide Valid, Reachable, Files, FilesAs, Led, Complete, Settled, MemberDone;
      ghost var before := visited;
      var entered := Enter(home, id, path, v);
      NothingNew(out.Keys, before);
      if !entered { return; }
      ghost var after := visited;
      NothingNew(out.Keys, after);
      var item := Lookup(g, home, id);
      if item == None {
        Unknown(out.Keys, v);
        OneMore(before, after, visited, out.Keys, v);
        return;
      }
      if |path| > 1 {
        OwnPath(v, Entity("module", Last(path), None, source));
        Push(IdOf(path), Entity("module", Last(path), None, source), v);
        NothingNew(out.Keys, after);
      }
      var members := if item.value.body.Module? then item.value.body.members else [];
      for i := 0 to |members|
        invariant Valid() && after <= visited && Keeps(old(out), out) && (|path| > 1 ==> IdOf(path) in out)
        invariant Settled(g, after, visited, out.Keys)
        invariant forall k :: 0 <= k < i ==> MemberDone(g, visited, out.Keys, v, members[k])
        invariant Unseen(path) < old(Unseen(path))
      {
        ghost var mid, ids := visited, out.Keys;
        ghost var unseen := Unseen(path);
        WalkMember(home, members[i], path, v);
        SettledGrows(g, after, mid, visited, ids, out.Keys);
        forall k | 0 <= k < i ensures MemberDone(g, visited, out.Keys, v, members[k]) {
          DoneGrows(g, mid, visited, ids, out.Keys, v, members[k]);
        }
        UnseenShrinks(path, mid, unseen);
      }
      if item.value.body.Module? {
        ModuleComplete(g, visited, out.Keys, v, members);
      } else {
        NoMembers(g, visited, out.Keys, v);
      }
      OneMore(before, after, visited, out.Keys, v);
    }

    /** One item inside a module, by what it is. */
    method WalkMember(home: nat, id: string, parent: seq<string>, ghost v: Visit)
      requires Valid() && v in visited && InModule(g, v, id) && v.home == home && v.path == parent
      modifies this`out, this`seen, this`visited
      ensures Valid() && MemberDone(g, visited, out.Keys, v, id)
      ensures old(visited) <= visited && Keeps(old(out), out)
      ensures Settled(g, old(visited), visited, out.Keys)
      decreases MAX_DEPTH + 1 - |parent|, Unseen(parent), 3
    {
      hide Valid, Reachable, Files, FilesAs, Led, Complete, Settled, Reexported, Dispatched;
      InReach(v);
      NothingNew(out.Keys, visited);
      var item := Lookup(g, home, id);
      if item == None { return; }
      if item.value.body.Use? {
        WalkUse(home, item.value.body, parent, v, id);
        return;
      }
      if !item.value.isPublic { return; }
      Dispatch(home, id, parent + [item.value.name], None, v, id);
    }

    /** `pub use`: filed under the public path, whatever crate the item lives in. */
    method WalkUse(home: nat, u: Body, parent: seq<string>, ghost v: Visit, ghost m: string)
      requires Valid() && v in visited && InModule(g, v, m) && v.home == home && v.path == parent
      requires home < |g| && u.Use? && Resolved(g, home, m, parent) == Reexported(g, home, u, parent)
      modifies this`out, this`seen, this`visited
      ensures Valid() && MemberDone(g, visited, out.Keys, v, m)
      ensures old(visited) <= visited && Keeps(old(out), out)
      ensures Settled(g, old(visited), visited, out.Keys)
      decreases MAX_DEPTH + 1 - |parent|, Unseen(parent), 2
    {
      hide Valid, Reachable, Files, FilesAs, Led, Complete, Settled, Dispatched, Resolved;
      InReach(v);
      NothingNew(out.Keys, visited);
      if u.target == None { return; }
      var target := u.target.value;
      var path := if u.glob then parent else parent + [u.name];
      var r := g[home];
      var source := Find(r.paths, target);
      if target in r.index {
        WalkTarget(home, target, path, u.glob, source, v, m);
        return;
      }
      if target !in r.owners { return; }
      var there := Position(g, r.owners[target]);
      if there == |g| {
        if source.Some? {
          LeafFiles(g, root, v, m);
          Push(IdOf(path), Entity("unresolved", u.name, None, source), v);
          NothingNew(out.Keys, visited);
        }
        return;
      }
      if source == None || source.value !in g[there].byPath { return; }
      WalkTarget(there, g[there].byPath[source.value], path, u.glob, source, v, m);
    }

    /** A re-export's target: spliced in by a glob, dispatched on otherwise. */
    method WalkTarget(home: nat, id: string, path: seq<string>, glob: bool, source: Option<string>,
                      ghost v: Visit, ghost m: string)
      requires Valid() && v in visited && InModule(g, v, m)
      requires path == if glob then v.path else v.path + [Last(path)]
      requires Resolved(g, v.home, m, v.path) == Target(home, id, path, glob, source, g)
      modifies this`out, this`seen, this`visited
      ensures Valid() && MemberDone(g, visited, out.Keys, v, m)
      ensures old(visited) <= visited && Keeps(old(out), out)
      ensures Settled(g, old(visited), visited, out.Keys)
      decreases MAX_DEPTH + 1 - |v.path|, Unseen(v.path), 1
    {
      hide Valid, Reachable, Files, FilesAs, Led, Complete, Settled, Dispatched, Resolved;
      if glob {
        ReachedFrom(v, m, source);
        WalkModule(home, id, path, source, Visit(home, id, path, true));
      } else {
        Dispatch(home, id, path, source, v, m);
      }
    }

    /** Walks or files a target by its kind. */
    method Dispatch(home: nat, id: string, path: seq<string>, source: Option<string>, ghost v: Visit, ghost m: string)
      requires Valid() && v in visited && InModule(g, v, m) && path == v.path + [Last(path)]
      requires Resolved(g, v.home, m, v.path) == Dispatched(g, home, id, path, source)
      modifies this`out, this`seen, this`visited
      ensures Valid() && MemberDone(g, visited, out.Keys, v, m)
      ensures old(visited) <= visited && Keeps(old(out), out)
      ensures Settled(g, old(visited), visited, out.Keys)
      decreases MAX_DEPTH + 1 - |v.path|, Unseen(v.path), 0
    {
      hide Valid, Reachable, Files, FilesAs, Led, Complete, Settled, Resolved;
      InReach(v);
      NothingNew(out.Keys, visited);
      var item := Lookup(g, home, id);
      if item == None { return; }
      if item.value.body.Module? {
        ReachedFrom(v, m, source);
        WalkModule(home, id, path, source, Visit(home, id, path, true));
      } else if item.value.body.TypeLike? {
        ReachedFrom(v, m, source);
        WalkType(home, id, path, source, Visit(home, id, path, false));
      } else {
        var kind := LeafKind(item.value.body);
        if kind == None { return; }
        LeafFiles(g, root, v, m);
        Push(IdOf(path), Entity(kind.value, Last(path), None, source), v);
        NothingNew(out.Keys, visited);
      }
    }

    /** `type_like`: a struct, enum or trait, and the members that hang off it. */
    method WalkType(home: nat, id: string, path: seq<string>, source: Option<string>, ghost v: Visit)
      requires Valid() && v == Visit(home, id, path, false) && v in Reachable(g, root)
      requires Led(g, root, v, source)
      modifies this`out, this`seen, this`visited
      ensures Valid() && (InDepth(v) ==> Met(visited, v))
      ensures old(visited) <= visited && Keeps(old(out), out)
      ensures Settled(g, old(visited), visited, out.Keys)
    {
      hide Valid, Reachable, Files, FilesAs, Led, Complete, Settled, ChildFiles, ImplFiles, IsApi;
      ghost var before := visited;
      var entered := Enter(home, id, path, v);
      NothingNew(out.Keys, before);
      if !entered { return; }
      ghost var after := visited;
      var item := Lookup(g, home, id);
      if item == None || !item.value.body.TypeLike? {
        NotAType(out.Keys, v);
        NothingNew(out.Keys, after);
        OneMore(before, after, visited, out.Keys, v);
        return;
      }
      var TypeLike(kind, children, impls) := item.value.body;
      OwnPath(v, Entity(kind, Last(path), None, source));
      Push(IdOf(path), Entity(kind, Last(path), None, source), v);
      for i := 0 to |children|
        invariant Valid() && visited == after && Keeps(old(out), out) && IdOf(path) in out
        invariant forall k, n :: 0 <= k < i && ChildFiles(g, v, children[k], false, n) ==> n in out.Keys
      {
        FileChild(home, children[i], path, false, v);
      }
      for i := 0 to |impls|
        invariant Valid() && visited == after && Keeps(old(out), out) && IdOf(path) in out
        invariant forall k, n :: 0 <= k < |children| && ChildFiles(g, v, children[k], false, n) ==> n in out.Keys
        invariant forall k, n :: 0 <= k < i && ImplFiles(g, v, impls[k], n) ==> n in out.Keys
      {
        WalkImpl(home, impls[i], path, v);
      }
      TypeComplete(g, visited, out.Keys, v, kind, children, impls);
      NothingNew(out.Keys, after);
      OneMore(before, after, visited, out.Keys, v);
    }

    /** One impl block of a type: its public items, when it is API. */
    method WalkImpl(home: nat, id: string, path: seq<string>, ghost v: Visit)
      requires Valid() && v in visited && v.home == home && v.path == path && IdOf(path) in out
      requires InImpls(g, v, id)
      modifies this`out
      ensures Valid() && Keeps(old(out), out)
      ensures forall n :: ImplFiles(g, v, id, n) ==> n in out.Keys
    {
      hide Valid, Reachable, Files, FilesAs, Led, ChildFiles;
      if !IsApi(g, home, id) { return; }
      var items := Lookup(g, home, id).value.body.items;
      for i := 0 to |items|
        invariant Valid() && Keeps(old(out), out)
        invariant forall k, n :: 0 <= k < i && ChildFiles(g, v, items[k], true, n) ==> n in out.Keys
      {
        assert ImplHolds(g, home, id, items[i]);
        FileChild(home, items[i], path, true, v);
      }
    }

    /** One child of a type, filed under it if it is of a kind that is. */
    method FileChild(home: nat, id: string, path: seq<string>, inImpl: bool, ghost v: Visit)
      requires Valid() && v in visited && v.home == home && v.path == path && IdOf(path) in out
      requires InType(g, v, id, inImpl)
      modifies this`out
      ensures Valid() && Keeps(old(out), out)
      ensures forall n :: ChildFiles(g, v, id, inImpl, n) ==> n in out.Keys
    {
      hide Valid, Reachable, Files;
      var item := Lookup(g, home, id);
      if item == None { return; }
      if inImpl && !item.value.isPublic { return; }
      var kind := MemberKind(item.value.body, inImpl);
      if kind == None { return; }
      var name := item.value.name;
      var e := Entity(kind.value, name, Some(IdOf(path)), None);
      assert ChildEntity(g, v, id, inImpl, IdOf(path + [name]), e);
      FiledChild(v, id, inImpl, IdOf(path + [name]), e);
      Push(IdOf(path + [name]), e, v);
    }

    // The facts about the walk's own state that its methods call on.

    lemma NothingNew(ids: set<string>, s: set<Visit>)
      ensures Settled(g, s, s, ids)
    {
    }

    lemma InReach(v: Visit)
      requires Valid() && v in visited
      ensures v in Reachable(g, root) && Closed(g, Reachable(g, root)) && InDepth(v)
    {
    }

    /** Where a reachable module's member leads is reachable, unless it is too deep. */
    lemma ReachedFrom(v: Visit, m: string, source: Option<string>)
      requires Valid() && v in visited && InModule(g, v, m)
      requires Resolved(g, v.home, m, v.path).Go? && Resolved(g, v.home, m, v.path).source == source
      ensures var w := Resolved(g, v.home, m, v.path).visit;
              w in Reachable(g, root) && Led(g, root, w, source)
    {
      hide Reachable, Resolved, Accounted;
      var w := Resolved(g, v.home, m, v.path).visit;
      assert LeadsTo(g, v, m, w, source);
      assert StepsTo(g, v, m, w);
      assert Step(g, v, w);
    }

    lemma Unknown(ids: set<string>, v: Visit)
      requires Lookup(g, v.home, v.id) == None
      ensures Complete(g, visited, ids, v)
    {
    }

    lemma NotAType(ids: set<string>, v: Visit)
      requires !v.asModule && (Lookup(g, v.home, v.id) == None || !Lookup(g, v.home, v.id).value.body.TypeLike?)
      ensures Complete(g, visited, ids, v)
    {
    }

    lemma OwnPath(v: Visit, e: Entity)
      requires OwnEntity(g, root, v, IdOf(v.path), e)
      ensures FilesAs(g, root, v, IdOf(v.path), e)
    {
    }

    lemma FiledChild(v: Visit, c: string, inImpl: bool, id: string, e: Entity)
      requires ChildEntity(g, v, c, inImpl, id, e)
      ensures FilesAs(g, root, v, id, e)
    {
    }

    /** A visit complete on top of what was settled after it was entered. */
    lemma OneMore(before: set<Visit>, after: set<Visit>, now: set<Visit>, ids: set<string>, v: Visit)
      requires after == before + {v} && Settled(g, after, now, ids) && Complete(g, now, ids, v)
      ensures Settled(g, before, now, ids)
    {
      hide Complete;
    }

    lemma UnseenShrinks(path: seq<string>, earlier: set<Visit>, unseen: set<(nat, string)>)
      requires earlier <= visited
      requires unseen == set p | p in Pairs(g) && forall v :: v in earlier ==> KeyOf(v) != (p.0, p.1, IdOf(path))
      ensures Unseen(path) <= unseen
    {
    }
  }

  lemma LeafFiles(g: Graph, root: Visit, v: Visit, m: string)
    requires InModule(g, v, m) && Resolved(g, v.home, m, v.path).File?
    ensures var act := Resolved(g, v.home, m, v.path); FilesAs(g, root, v, act.id, act.entity)
  {
    hide Resolved;
    var act := Resolved(g, v.home, m, v.path);
    assert LeafEntity(g, v, m, act.id, act.entity);
  }

  lemma TypeComplete(g: Graph, visited: set<Visit>, ids: set<string>, v: Visit, kind: string, children: seq<string>,
                     impls: seq<string>)
    requires !v.asModule && Lookup(g, v.home, v.id).Some?
    requires Lookup(g, v.home, v.id).value.body == TypeLike(kind, children, impls)
    requires IdOf(v.path) in ids
    requires forall k, n :: 0 <= k < |children| && ChildFiles(g, v, children[k], false, n) ==> n in ids
    requires forall k, n :: 0 <= k < |impls| && ImplFiles(g, v, impls[k], n) ==> n in ids
    ensures Complete(g, visited, ids, v)
  {
    hide ChildFiles, ImplFiles;
  }

  lemma NoMembers(g: Graph, visited: set<Visit>, ids: set<string>, v: Visit)
    requires v.asModule && Lookup(g, v.home, v.id).Some? && !Lookup(g, v.home, v.id).value.body.Module?
    requires |v.path| > 1 ==> IdOf(v.path) in ids
    ensures Complete(g, visited, ids, v)
  {
  }

  lemma DoneGrows(g: Graph, a: set<Visit>, b: set<Visit>, ids: set<string>, more: set<string>, v: Visit, m: string)
    requires MemberDone(g, a, ids, v, m) && a <= b && ids <= more
    ensures MemberDone(g, b, more, v, m)
  {
    hide Resolved, Met;
    var act := Resolved(g, v.home, m, v.path);
    if act.Go? && InDepth(act.visit) {
      MetGrows(a, b, act.visit);
    }
  }

  // ---- the whole model ----

  /** `id` is filed by some reachable visit, by the rules alone. */
  ghost predicate Filed(g: Graph, root: Visit, id: string) {
    exists v :: v in Reachable(g, root) && Files(g, v, id)
  }

  /** `id` is filed by some reachable visit no deeper than the walk goes. */
  ghost predicate FiledShallow(g: Graph, root: Visit, id: string) {
    exists v :: v in Shallow(g, root) && Files(g, v, id)
  }

  /** Some visit the walk is deep enough for files just this entity under `id`. */
  ghost predicate FiledAs(g: Graph, root: Visit, id: string, e: Entity) {
    exists v :: v in Shallow(g, root) && FilesAs(g, root, v, id, e)
  }

  ghost predicate NothingDeep(g: Graph, root: Visit) {
    forall v :: v in Reachable(g, root) ==> InDepth(v)
  }

  /**
    `build`, from a crate's root module. On every graph it returns, each cycle cut
    by the set of seen keys or by the depth bound, files only what the rules file,
    as they file it, and hangs everything off something filed. Where no two visits
    within the depth are remembered as one, the ids are exactly those filed from
    the least set closed under the rules by visits no deeper than the bound; and
    all that are filed from it, where none of its visits is deeper.
   */
  method Build(g: Graph, home: nat, rootId: string) returns (out: map<string, Entity>)
    requires home < |g|
    ensures var root := Visit(home, rootId, [g[home].name], true);
            forall id :: id in out ==> FiledAs(g, root, id, out[id])
    ensures var root := Visit(home, rootId, [g[home].name], true);
            NoClash(Shallow(g, root)) ==> forall id :: id in out <==> FiledShallow(g, root, id)
    ensures var root := Visit(home, rootId, [g[home].name], true);
            NoClash(Shallow(g, root)) && NothingDeep(g, root) ==> forall id :: id in out <==> Filed(g, root, id)
    ensures forall id :: id in out && out[id].of.Some? ==> out[id].of.value in out
  {
    hide Filed, FiledAs, FiledShallow, Accounted, FilesAs, Files, Reachable, NothingDeep;
    var path := [g[home].name];
    ghost var root := Visit(home, rootId, path, true);
    ReachableClosed(g, root);
    var walk := new Walk(g, root);
    walk.WalkModule(home, rootId, path, None, root);
    out := walk.out;
    forall id | id in out ensures FiledAs(g, root, id, out[id]) && FiledShallow(g, root, id) {
      AllFiled(g, root, walk.visited, out, id);
    }
    if NoClash(Shallow(g, root)) {
      VisitedIsShallow(g, root, walk.visited, out.Keys);
      forall id | FiledShallow(g, root, id) ensures id in out {
        IdsAreFiled(g, root, walk.visited, out.Keys, id);
      }
      if NothingDeep(g, root) { NothingLost(g, root); }
    }
  }

  lemma NothingLost(g: Graph, root: Visit)
    requires NothingDeep(g, root)
    ensures forall id :: FiledShallow(g, root, id) <==> Filed(g, root, id)
  {
    hide Reachable, Files;
    assert Shallow(g, root) == Reachable(g, root);
  }

  lemma AllFiled(g: Graph, root: Visit, visited: set<Visit>, out: map<string, Entity>, id: string)
    requires Accounted(g, root, visited, out) && id in out && forall v :: v in visited ==> v in Shallow(g, root)
    ensures FiledAs(g, root, id, out[id]) && FiledShallow(g, root, id)
  {
    hide Shallow, Files, FilesAs;
    var v :| v in visited && FilesAs(g, root, v, id, out[id]);
    FilesAsFiles(g, root, v, id, out[id]);
  }

  /** The walk makes every reachable visit within the depth, and no other. */
  lemma VisitedIsShallow(g: Graph, root: Visit, visited: set<Visit>, ids: set<string>)
    requires InDepth(root) && Met(visited, root) && Settled(g, {}, visited, ids) && NoClash(Shallow(g, root))
    requires forall v :: v in visited ==> v in Shallow(g, root)
    ensures forall v :: v in visited <==> v in Shallow(g, root)
  {
    hide Files, Reachable;
    ReachableClosed(g, root);
    var s := iset v | v in Reachable(g, root) && (InDepth(v) ==> v in visited);
    var u :| u in visited && KeyOf(u) == KeyOf(root);
    assert root in Shallow(g, root) && u == root;
    forall v, w | v in s && Step(g, v, w) ensures w in s {
      StepsDeepen(g, v, w);
      if InDepth(w) {
        assert Complete(g, visited, ids, v);
        var x :| x in visited && KeyOf(x) == KeyOf(w);
        assert x in Shallow(g, root) && w in Shallow(g, root);
      }
    }
    ReachableLeast(g, root, s);
  }

  lemma IdsAreFiled(g: Graph, root: Visit, visited: set<Visit>, ids: set<string>, id: string)
    requires Settled(g, {}, visited, ids) && FiledShallow(g, root, id)
    requires forall v :: v in visited <==> v in Shallow(g, root)
    ensures id in ids
  {
    hide Shallow, Files;
    var v :| v in Shallow(g, root) && Files(g, v, id);
    assert Complete(g, visited, ids, v);
  }

  // ---- what the depth bound drops ----

  /** A path as long as a visit's, or one name longer, that spells an id. */
  ghost predicate Spells(v: Visit, p: seq<string>, id: string) {
    PlainPath(p) && IdOf(p) == id && |v.path| <= |p| <= |v.path| + 1
  }

  lemma FilesSpells(g: Graph, v: Visit, id: string) returns (p: seq<string>)
    requires PlainGraph(g) && PlainPath(v.path) && Files(g, v, id)
    ensures Spells(v, p, id)
  {
    hide Resolved, IsChild;
    var item := Lookup(g, v.home, v.id).value;
    if id == IdOf(v.path) {
      p := v.path;
    } else if v.asModule {
      var m :| m in item.body.members && ActFiles(g, v, m, id);
      p := ActSpells(g, v, m, id);
    } else if c :| c in item.body.children && ChildFiles(g, v, c, false, id) {
      p := ChildSpells(g, v, c, false, id);
    } else {
      var i :| i in item.body.impls && ImplFiles(g, v, i, id);
      var c :| c in Lookup(g, v.home, i).value.body.items && ChildFiles(g, v, c, true, id);
      p := ChildSpells(g, v, c, true, id);
    }
  }

  lemma ActSpells(g: Graph, v: Visit, m: string, id: string) returns (p: seq<string>)
    requires PlainGraph(g) && PlainPath(v.path) && ActFiles(g, v, m, id)
    ensures Spells(v, p, id)
  {
    var item := Lookup(g, v.home, m).value;
    assert g[v.home] in g && PlainItem(item);
    p := if item.body.Use? && item.body.glob then v.path
         else v.path + [if item.body.Use? then item.body.name else item.name];
  }

  lemma ChildSpells(g: Graph, v: Visit, c: string, inImpl: bool, id: string) returns (p: seq<string>)
    requires PlainGraph(g) && PlainPath(v.path) && ChildFiles(g, v, c, inImpl, id)
    ensures Spells(v, p, id)
  {
    var item := Lookup(g, v.home, c).value;
    assert g[v.home] in g && PlainItem(item);
    p := v.path + [item.name];
  }

  /** A visit that is just deep enough files this id. */
  ghost predicate FiledAtBound(g: Graph, root: Visit, id: string) {
    exists v :: v in Reachable(g, root) && |v.path| == 32 && Files(g, v, id)
  }

  /**
    Of all that the rules file, the depth bound loses just the names longer than it,
    but for those one longer that a visit at the bound files for a member of its own.
   */
  lemma LostIff(g: Graph, root: Visit, p: seq<string>)
    requires PlainGraph(g) && PlainPath(root.path) && PlainPath(p) && Filed(g, root, IdOf(p))
    ensures FiledShallow(g, root, IdOf(p)) <==> |p| <= 32 || (|p| == 33 && FiledAtBound(g, root, IdOf(p)))
  {
    hide Files, Reachable, PlainGraph, PlainPath;
    ReachablePlain(g, root);
    var id := IdOf(p);
    forall v | v in Reachable(g, root) && Files(g, v, id)
      ensures |v.path| <= |p| <= |v.path| + 1
    {
      var q := FilesSpells(g, v, id);
      IdInjective(p, q);
    }
  }

  /** A crate whose root module re-exports itself under its own name. */
  function Looped(): Graph {
    [Reader("a", map["0" := Item("a", true, Module(["1"])), "1" := Item("", false, Use("a", false, Some("0")))],
            map[], map[], map[])]
  }

  function Again(n: nat): (path: seq<string>)
    ensures |path| == n + 1 && forall k :: 0 <= k < |path| ==> path[k] == "a"
  { if n == 0 then ["a"] else Again(n - 1) + ["a"] }

  /** The root met again after `n` turns of the loop. */
  function Turn(n: nat): Visit { Visit(0, "0", Again(n), true) }

  predicate IsTurn(v: Visit, n: nat) { v == Turn(n) }

  ghost predicate SomeTurn(v: Visit) { exists n: nat :: IsTurn(v, n) }

  lemma TurnSteps(n: nat, w: Visit)
    ensures Step(Looped(), Turn(n), w) <==> w == Turn(n + 1)
  {
    var g, v := Looped(), Turn(n);
    assert Resolved(g, 0, "1", v.path) == Go(Turn(n + 1), None);
    if Step(g, v, w) {
      var m :| m in ["1"] && StepsTo(g, v, m, w);
    } else {
      assert w == Turn(n + 1) ==> StepsTo(g, v, "1", w);
    }
  }

  lemma {:induction false} TurnReachable(n: nat)
    ensures Turn(n) in Reachable(Looped(), Turn(0))
  {
    ReachableClosed(Looped(), Turn(0));
    if n > 0 {
      TurnReachable(n - 1);
      TurnSteps(n - 1, Turn(n));
    }
  }

  lemma OnlyTurns(v: Visit) returns (n: nat)
    requires v in Reachable(Looped(), Turn(0))
    ensures IsTurn(v, n)
  {
    var s := iset u: Visit | SomeTurn(u);
    assert IsTurn(Turn(0), 0);
    forall u, w | u in s && Step(Looped(), u, w) ensures w in s {
      var k: nat :| IsTurn(u, k);
      TurnSteps(k, w);
      assert IsTurn(w, k + 1);
    }
    ReachableLeast(Looped(), Turn(0), s);
    n :| IsTurn(v, n);
  }

  lemma TurnFiles(n: nat, id: string)
    ensures Files(Looped(), Turn(n), id) <==> n > 0 && id == IdOf(Again(n))
  {
    var g, v := Looped(), Turn(n);
    assert Resolved(g, 0, "1", v.path) == Go(Turn(n + 1), None);
    assert !ActFiles(g, v, "1", id);
  }

  /** Every turn of the loop past the bound is a name the rules file and the walk does not. */
  lemma DepthDrops(n: nat)
    requires n >= 32
    ensures Filed(Looped(), Turn(0), IdOf(Again(n))) && !FiledShallow(Looped(), Turn(0), IdOf(Again(n)))
  {
    hide Files, Reachable, Looped;
    var id := IdOf(Again(n));
    TurnReachable(n);
    TurnFiles(n, id);
    forall v | v in Shallow(Looped(), Turn(0)) ensures !Files(Looped(), v, id) {
      var k := OnlyTurns(v);
      TurnFiles(k, id);
      if id == IdOf(Again(k)) { IdInjective(Again(k), Again(n)); }
    }
  }
}
