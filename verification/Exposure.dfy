/**
  What a crate shows: which items are public, under which paths and as what, told item by
  item and without the walk of crates/xtask/src/model.rs. What the walk's rules file is
  proved to be exactly what is shown.
 */
module Exposure {
  import opened Common
  import opened Surface

  /** An item, a path it is public under, the type it hangs off, and where a `use` found it. */
  datatype Place = Place(home: nat, id: string, path: seq<string>, of: Option<string>, source: Option<string>)

  function ItemAt(g: Graph, p: Place): Option<Item> { Lookup(g, p.home, p.id) }

  /** The item is one that a module can hold. */
  predicate ModulesHold(b: Body) {
    b.Module? || b.TypeLike? || b.Use? || b.Function? || b.TypeAlias? || b.Constant? || b.Macro?
  }

  /** The item is one that an impl can hold, or that a type can. */
  predicate ImplsHold(b: Body) { b.Function? || b.AssocConst? || b.AssocType? }

  predicate TypesHold(b: Body) { b.Field? || b.Variant? || ImplsHold(b) }

  /** The crate that an item of another crate is looked for in: the first of that name. */
  predicate Owner(g: Graph, r: Reader, target: string, there: nat) {
    target in r.owners && there < |g| && g[there].name == r.owners[target]
    && forall k :: 0 <= k < there ==> g[k].name != r.owners[target]
  }

  /** A `use` in crate `home` names this item: one of its own crate, or of another by the path it is known by. */
  predicate Names(g: Graph, home: nat, target: string, q: Place) {
    home < |g|
    && var r := g[home];
       q.source == (if target in r.paths then Some(r.paths[target]) else None)
       && if target in r.index then q.home == home && q.id == target
          else Owner(g, r, target, q.home) && q.source.Some? && q.source.value in g[q.home].byPath
               && q.id == g[q.home].byPath[q.source.value]
  }

  /** The crate a `use` names is not one of those given, though the path there is known. */
  predicate Lost(g: Graph, home: nat, target: string) {
    home < |g|
    && var r := g[home];
       target !in r.index && target in r.paths && target in r.owners
       && forall k :: 0 <= k < |g| ==> g[k].name != r.owners[target]
  }

  /** A module shows its public members under their own names, and every `use` under the name it gives. */
  predicate ModuleShows(g: Graph, p: Place, members: seq<string>, q: Place) {
    var m := ItemAt(g, q);
    q.home == p.home && q.id in members && q.of == None && q.source == None && m.Some? && ModulesHold(m.value.body)
    && if m.value.body.Use? then q.path == if m.value.body.glob then p.path else p.path + [m.value.body.name]
       else m.value.isPublic && q.path == p.path + [m.value.name]
  }

  /** A `use` shows what it names where it is itself; a glob shows only a module, whose members are then there. */
  predicate UseShows(g: Graph, p: Place, u: Body, q: Place)
    requires u.Use?
  {
    var item := ItemAt(g, q);
    u.target.Some? && Names(g, p.home, u.target.value, q) && q.path == p.path && q.of == None
    && item.Some? && if u.glob then item.value.body.Module? else ModulesHold(item.value.body) && !item.value.body.Use?
  }

  /** A type shows all its own members, and of the impls that are API the public ones. */
  ghost predicate TypeShows(g: Graph, p: Place, children: seq<string>, impls: seq<string>, q: Place) {
    var m := ItemAt(g, q);
    q.home == p.home && m.Some? && q.path == p.path + [m.value.name] && q.of == Some(IdOf(p.path)) && q.source == None
    && ((q.id in children && TypesHold(m.value.body))
        || (m.value.isPublic && ImplsHold(m.value.body) && exists i :: i in impls && ApiImplHas(g, p.home, i, q.id)))
  }

  /** An impl of the type alone, written by hand, with this item in it. */
  predicate ApiImplHas(g: Graph, home: nat, i: string, c: string) {
    var block := Lookup(g, home, i);
    block.Some? && block.value.body.Impl? && c in block.value.body.items
    && block.value.body.inherent && !block.value.body.synthetic && !block.value.body.blanket
  }

  ghost predicate Shows(g: Graph, p: Place, q: Place) {
    var item := ItemAt(g, p);
    item.Some?
    && match item.value.body
       case Module(members) => ModuleShows(g, p, members, q)
       case Use(_, _, _) => UseShows(g, p, item.value.body, q)
       case TypeLike(_, children, impls) => TypeShows(g, p, children, impls, q)
       case _ => false
  }

  // ---- all that is shown ----

  /** The root has to be a module to show anything. */
  predicate IsRoot(g: Graph, root: Visit, p: Place) {
    p == Place(root.home, root.id, root.path, None, None)
    && var item := ItemAt(g, p); item.Some? && item.value.body.Module?
  }

  /** Holds the root and whatever is shown by what it holds. */
  ghost predicate Whole(g: Graph, root: Visit, s: iset<Place>) {
    (forall p :: IsRoot(g, root, p) ==> p in s) && (forall p, q :: p in s && Shows(g, p, q) ==> q in s)
  }

  ghost predicate InEveryWhole(g: Graph, root: Visit, p: Place) {
    forall s: iset<Place> :: Whole(g, root, s) ==> p in s
  }

  ghost function Shown(g: Graph, root: Visit): iset<Place> { iset p: Place | InEveryWhole(g, root, p) }

  lemma ShownIsWhole(g: Graph, root: Visit)
    ensures Whole(g, root, Shown(g, root))
  {
    hide Shows;
    forall p, q | p in Shown(g, root) && Shows(g, p, q) ensures q in Shown(g, root) {
      forall s: iset<Place> | Whole(g, root, s) ensures q in s {
        assert InEveryWhole(g, root, p);
      }
    }
  }

  lemma ShownIsLeast(g: Graph, root: Visit, s: iset<Place>)
    requires Whole(g, root, s)
    ensures Shown(g, root) <= s
  {
    hide Shows;
  }

  /** What kind of entity an item is. */
  predicate IsKind(kind: string, b: Body, owned: bool) {
    match b
    case Module(_) => kind == "module"
    case TypeLike(k, _, _) => kind == k
    case Use(_, _, _) => kind == "unresolved"
    case Function => kind == if owned then "method" else "function"
    case TypeAlias => kind == "type-alias"
    case Constant => kind == "constant"
    case Macro => kind == "macro"
    case Field => kind == "field"
    case Variant => kind == "variant"
    case AssocConst => kind == "assoc-const"
    case AssocType => kind == "assoc-type"
    case _ => false
  }

  /**
    What is in this place is an entity of this id: any but the root module, by the last name
    of its path, and a `use` only where its crate is not there.
   */
  predicate IsEntity(g: Graph, p: Place, id: string, e: Entity) {
    var item := ItemAt(g, p);
    item.Some? && id == IdOf(p.path) && e.of == p.of && IsKind(e.kind, item.value.body, p.of.Some?)
    && match item.value.body
       case Module(_) => |p.path| > 1 && e.name == Last(p.path) && e.source == p.source
       case Use(name, _, target) =>
         target.Some? && Lost(g, p.home, target.value) && e.name == name
         && e.source == Some(g[p.home].paths[target.value])
       case _ => e.name == Last(p.path) && e.source == p.source
  }

  ghost predicate ShownAs(g: Graph, root: Visit, id: string, e: Entity) {
    exists p :: p in Shown(g, root) && IsEntity(g, p, id, e)
  }

  /** Some reachable visit files the entity under this id. */
  ghost predicate RuledAs(g: Graph, root: Visit, id: string, e: Entity) {
    exists v :: v in Reachable(g, root) && FilesAs(g, root, v, id, e)
  }

  // ---- what is shown is filed ----

  lemma PositionIsOwner(g: Graph, r: Reader, target: string, there: nat)
    requires target in r.owners
    ensures there < |g| ==> (Owner(g, r, target, there) <==> there == Position(g, r.owners[target]))
    ensures Position(g, r.owners[target]) == |g| <==> forall k :: 0 <= k < |g| ==> g[k].name != r.owners[target]
  {
  }

  lemma NamesAct(g: Graph, home: nat, u: Body, parent: seq<string>, q: Place)
    requires home < |g| && u.Use? && u.target.Some? && Names(g, home, u.target.value, q)
    requires q.path == if u.glob then parent else parent + [u.name]
    ensures Reexported(g, home, u, parent) == Target(q.home, q.id, q.path, u.glob, q.source, g)
  {
    var r, target := g[home], u.target.value;
    if target !in r.index { PositionIsOwner(g, r, target, q.home); }
  }

  lemma LostAct(g: Graph, home: nat, u: Body, parent: seq<string>)
    requires home < |g| && u.Use? && u.target.Some? && Lost(g, home, u.target.value)
    ensures var path := if u.glob then parent else parent + [u.name];
            Reexported(g, home, u, parent)
              == File(IdOf(path), Entity("unresolved", u.name, None, Some(g[home].paths[u.target.value])))
  {
    PositionIsOwner(g, g[home], u.target.value, |g|);
  }

  /** The visit walks a module that holds this `use`, and its name there is the place's path. */
  ghost predicate UsedBy(g: Graph, root: Visit, v: Visit, p: Place) {
    v in Reachable(g, root) && InModule(g, v, p.id) && v.home == p.home
    && var item := ItemAt(g, p);
       item.Some? && item.value.body.Use?
       && p.path == if item.value.body.glob then v.path else v.path + [item.value.body.name]
  }

  /** What is in this place is walked there, or filed there. */
  ghost predicate Covered(g: Graph, root: Visit, p: Place) {
    var item := ItemAt(g, p);
    item.Some?
    && var b := item.value.body;
       if b.Module? || b.TypeLike? then
         p.of == None && Visit(p.home, p.id, p.path, b.Module?) in Reachable(g, root)
         && Led(g, root, Visit(p.home, p.id, p.path, b.Module?), p.source)
       else if b.Use? then p.of == None && exists v :: UsedBy(g, root, v, p)
       else forall id, e :: IsEntity(g, p, id, e) ==> RuledAs(g, root, id, e)
  }

  /** What a visit's member leads to, or is filed as, covers a place. */
  lemma ActCovers(g: Graph, root: Visit, v: Visit, m: string, q: Place)
    requires v in Reachable(g, root) && InModule(g, v, m) && q.of == None && q.path != []
    requires Resolved(g, v.home, m, v.path) == Dispatched(g, q.home, q.id, q.path, q.source)
    requires ItemAt(g, q).Some? && ModulesHold(ItemAt(g, q).value.body) && !ItemAt(g, q).value.body.Use?
    ensures Covered(g, root, q)
  {
    hide Reachable, Resolved;
    ReachableClosed(g, root);
    var b := ItemAt(g, q).value.body;
    if b.Module? || b.TypeLike? {
      var w := Visit(q.home, q.id, q.path, b.Module?);
      assert StepsTo(g, v, m, w);
      assert Step(g, v, w);
      assert LeadsTo(g, v, m, w, q.source);
    } else {
      forall id, e | IsEntity(g, q, id, e) ensures RuledAs(g, root, id, e) {
        assert LeafEntity(g, v, m, id, e);
        assert FilesAs(g, root, v, id, e);
      }
    }
  }

  lemma UseCovers(g: Graph, root: Visit, p: Place, u: Body, q: Place)
    requires Covered(g, root, p) && ItemAt(g, p).Some? && ItemAt(g, p).value.body == u && u.Use?
    requires UseShows(g, p, u, q)
    ensures Covered(g, root, q)
  {
    hide Reachable, Reexported, Names, Dispatched;
    var v :| UsedBy(g, root, v, p);
    NamesAct(g, v.home, u, v.path, q);
    if u.glob {
      ReachableClosed(g, root);
      var w := Visit(q.home, q.id, q.path, true);
      assert StepsTo(g, v, p.id, w);
      assert Step(g, v, w);
      assert LeadsTo(g, v, p.id, w, q.source);
    } else {
      ActCovers(g, root, v, p.id, q);
    }
  }

  lemma ModuleCovers(g: Graph, root: Visit, p: Place, members: seq<string>, q: Place)
    requires Covered(g, root, p) && ItemAt(g, p).Some? && ItemAt(g, p).value.body == Module(members)
    requires ModuleShows(g, p, members, q)
    ensures Covered(g, root, q)
  {
    hide Reachable, Reexported, Dispatched;
    var v := Visit(p.home, p.id, p.path, true);
    if ItemAt(g, q).value.body.Use? {
      assert UsedBy(g, root, v, q);
    } else {
      ActCovers(g, root, v, q.id, q);
    }
  }

  lemma TypeCovers(g: Graph, root: Visit, p: Place, q: Place)
    requires Covered(g, root, p) && ItemAt(g, p).Some? && ItemAt(g, p).value.body.TypeLike? && Shows(g, p, q)
    ensures Covered(g, root, q)
  {
    hide Reachable, Led;
    var v := Visit(p.home, p.id, p.path, false);
    var TypeLike(_, children, impls) := ItemAt(g, p).value.body;
    var b := ItemAt(g, q).value.body;
    var inImpl := !(q.id in children && TypesHold(b));
    if inImpl {
      var i :| i in impls && ApiImplHas(g, p.home, i, q.id);
      assert InImpls(g, v, i) && ImplHolds(g, v.home, i, q.id);
    }
    assert InType(g, v, q.id, inImpl);
    forall id, e | IsEntity(g, q, id, e) ensures RuledAs(g, root, id, e) {
      assert ChildEntity(g, v, q.id, inImpl, id, e);
      assert FilesAs(g, root, v, id, e);
    }
  }

  lemma ShownCovered(g: Graph, root: Visit, p: Place)
    requires root.asModule && p in Shown(g, root)
    ensures Covered(g, root, p)
  {
    hide Reachable, Shown, ModuleShows, UseShows, TypeShows, FilesAs;
    var s := iset q: Place | Covered(g, root, q);
    ReachableClosed(g, root);
    forall a, b | a in s && Shows(g, a, b) ensures b in s {
      match ItemAt(g, a).value.body
      case Module(members) => ModuleCovers(g, root, a, members, b);
      case Use(_, _, _) => UseCovers(g, root, a, ItemAt(g, a).value.body, b);
      case TypeLike(_, _, _) => TypeCovers(g, root, a, b);
    }
    ShownIsLeast(g, root, s);
  }

  /** Whatever is shown is filed: that entity under that id. */
  lemma ShownIsFiled(g: Graph, root: Visit, id: string, e: Entity)
    requires root.asModule && ShownAs(g, root, id, e)
    ensures RuledAs(g, root, id, e)
  {
    hide Reachable, Shown, Reexported, Lost, Led;
    var p :| p in Shown(g, root) && IsEntity(g, p, id, e);
    ShownCovered(g, root, p);
    var b := ItemAt(g, p).value.body;
    if b.Use? {
      var v :| UsedBy(g, root, v, p);
      LostAct(g, v.home, b, v.path);
      assert LeafEntity(g, v, p.id, id, e);
      assert FilesAs(g, root, v, id, e);
    } else if b.Module? || b.TypeLike? {
      var v := Visit(p.home, p.id, p.path, b.Module?);
      assert OwnEntity(g, root, v, id, e);
      assert FilesAs(g, root, v, id, e);
    }
  }

  // ---- what is filed is shown ----

  predicate IsAt(p: Place, v: Visit, source: Option<string>) {
    p == Place(v.home, v.id, v.path, None, source)
  }

  ghost predicate ModuleAt(g: Graph, s: iset<Place>, p: Place, path: seq<string>) {
    p in s && p.path == path && p.of == None && ItemAt(g, p).Some? && ItemAt(g, p).value.body.Module?
  }

  /** The visit's item is shown there, with this source; what a glob of no module splices in is nothing. */
  ghost predicate Backed(g: Graph, s: iset<Place>, v: Visit, source: Option<string>) {
    var item := Lookup(g, v.home, v.id);
    item.Some? ==>
      if item.value.body.Module? || !v.asModule then Place(v.home, v.id, v.path, None, source) in s
      else |v.path| > 1 ==> exists p :: ModuleAt(g, s, p, v.path)
  }

  ghost predicate Described(g: Graph, s: iset<Place>, id: string, e: Entity) {
    exists p :: p in s && IsEntity(g, p, id, e)
  }

  /** The place that a `use` finds, and what the walk makes of it. */
  lemma ReexportNames(g: Graph, home: nat, u: Body, parent: seq<string>) returns (q: Place)
    requires home < |g| && u.Use? && !Reexported(g, home, u, parent).Nothing?
    ensures u.target.Some? && q.path == (if u.glob then parent else parent + [u.name]) && q.of == None
    ensures Names(g, home, u.target.value, q) || Lost(g, home, u.target.value)
    ensures Names(g, home, u.target.value, q) ==>
      Reexported(g, home, u, parent) == Target(q.home, q.id, q.path, u.glob, q.source, g)
    ensures Lost(g, home, u.target.value) ==>
      Reexported(g, home, u, parent)
        == File(IdOf(q.path), Entity("unresolved", u.name, None, Some(g[home].paths[u.target.value])))
  {
    var r, target := g[home], u.target.value;
    var path := if u.glob then parent else parent + [u.name];
    var source := Find(r.paths, target);
    if target in r.index {
      q := Place(home, target, path, None, source);
    } else {
      var there := Position(g, r.owners[target]);
      PositionIsOwner(g, r, target, there);
      q := if there < |g| then Place(there, g[there].byPath[source.value], path, None, source)
           else Place(home, target, path, None, source);
    }
  }

  lemma DispatchedShown(g: Graph, s: iset<Place>, q: Place)
    requires q.of == None && q.path != []
    requires var item := ItemAt(g, q);
             item.Some? && !item.value.body.Use? && ModulesHold(item.value.body) ==> q in s
    ensures match Dispatched(g, q.home, q.id, q.path, q.source)
            case Go(w, source) => Backed(g, s, w, source)
            case File(id, e) => Described(g, s, id, e)
            case Nothing => true
  {
    var act := Dispatched(g, q.home, q.id, q.path, q.source);
    if act.File? { assert IsEntity(g, q, act.id, act.entity); }
  }

  /** What a member of a module comes to is shown. */
  lemma MemberShown(g: Graph, root: Visit, s: iset<Place>, v: Visit, p: Place, m: string)
    requires Whole(g, root, s) && InModule(g, v, m) && p in s && IsAt(p, v, p.source)
    ensures match Resolved(g, v.home, m, v.path)
            case Go(w, source) => Backed(g, s, w, source)
            case File(id, e) => Described(g, s, id, e)
            case Nothing => true
  {
    hide Names, Lost, Reexported, Dispatched, TypeShows;
    var item := Lookup(g, v.home, m);
    if item.Some? && (item.value.body.Use? || item.value.isPublic) {
      if item.value.body.Use? {
        UseShown(g, root, s, v, p, m, item.value.body);
      } else {
        var q := Place(v.home, m, v.path + [item.value.name], None, None);
        assert ModulesHold(item.value.body) ==> Shows(g, p, q);
        DispatchedShown(g, s, q);
      }
    }
  }

  lemma UseShown(g: Graph, root: Visit, s: iset<Place>, v: Visit, p: Place, m: string, u: Body)
    requires Whole(g, root, s) && InModule(g, v, m) && p in s && IsAt(p, v, p.source)
    requires Lookup(g, v.home, m).Some? && Lookup(g, v.home, m).value.body == u && u.Use?
    ensures match Reexported(g, v.home, u, v.path)
            case Go(w, source) => Backed(g, s, w, source)
            case File(id, e) => Described(g, s, id, e)
            case Nothing => true
  {
    hide Names, Lost, Reexported, Dispatched, TypeShows;
    var act := Reexported(g, v.home, u, v.path);
    if act.Nothing? { return; }
    var q := ReexportNames(g, v.home, u, v.path);
    var here := Place(v.home, m, q.path, None, None);
    assert Shows(g, p, here);
    if Names(g, v.home, u.target.value, q) {
      if u.glob {
        if ItemAt(g, q).Some? {
          if ItemAt(g, q).value.body.Module? {
            assert Shows(g, here, q);
          } else {
            assert ModuleAt(g, s, p, v.path);
          }
        }
      } else {
        assert ItemAt(g, q).Some? && !ItemAt(g, q).value.body.Use? && ModulesHold(ItemAt(g, q).value.body) ==>
          Shows(g, here, q);
        DispatchedShown(g, s, q);
      }
    } else {
      assert IsEntity(g, here, act.id, act.entity);
    }
  }

  ghost predicate BackedSomehow(g: Graph, s: iset<Place>, v: Visit) {
    exists source :: Backed(g, s, v, source)
  }

  lemma ReachableBacked(g: Graph, root: Visit, v: Visit)
    requires root.asModule && |root.path| == 1 && v in Reachable(g, root)
    ensures BackedSomehow(g, Shown(g, root), v)
  {
    hide Reachable, Shows, Shown, Resolved;
    var all := Shown(g, root);
    RootBacked(g, root);
    ShownIsWhole(g, root);
    var s := iset u: Visit | BackedSomehow(g, all, u);
    forall u, w | u in s && Step(g, u, w) ensures w in s {
      var m :| m in Lookup(g, u.home, u.id).value.body.members && StepsTo(g, u, m, w);
      var source :| Backed(g, all, u, source);
      MemberShown(g, root, all, u, Place(u.home, u.id, u.path, None, source), m);
    }
    ReachableLeast(g, root, s);
  }

  lemma RootBacked(g: Graph, root: Visit)
    requires root.asModule && |root.path| == 1
    ensures Backed(g, Shown(g, root), root, None)
  {
    hide Shows, Shown;
    ShownIsWhole(g, root);
    assert Lookup(g, root.home, root.id).Some? && Lookup(g, root.home, root.id).value.body.Module? ==>
      IsRoot(g, root, Place(root.home, root.id, root.path, None, None));
  }

  lemma LedBacked(g: Graph, root: Visit, v: Visit, source: Option<string>)
    requires root.asModule && |root.path| == 1 && Led(g, root, v, source)
    ensures Backed(g, Shown(g, root), v, source)
  {
    hide Reachable, Shown, Resolved;
    RootBacked(g, root);
    if !(v == root && source == None) {
      var u, m :| u in Reachable(g, root) && LeadsTo(g, u, m, v, source);
      ReachableBacked(g, root, u);
      var from :| Backed(g, Shown(g, root), u, from);
      ShownIsWhole(g, root);
      MemberShown(g, root, Shown(g, root), u, Place(u.home, u.id, u.path, None, from), m);
    }
  }

  /** The entity is as described, or stands for a module of that path once more, which a glob of no module files. */
  ghost predicate ShownOrAgain(g: Graph, root: Visit, id: string, e: Entity) {
    ShownAs(g, root, id, e) || exists p :: Again(g, Shown(g, root), p, id, e)
  }

  ghost predicate Again(g: Graph, s: iset<Place>, p: Place, id: string, e: Entity) {
    ModuleAt(g, s, p, p.path) && IsEntity(g, p, id, e.(source := p.source))
  }

  lemma OwnShown(g: Graph, root: Visit, v: Visit, id: string, e: Entity)
    requires root.asModule && |root.path| == 1 && OwnEntity(g, root, v, id, e)
    ensures ShownOrAgain(g, root, id, e)
    ensures WalkedAsIs(g, v) ==> ShownAs(g, root, id, e)
  {
    hide Reachable, Shown, Led;
    LedBacked(g, root, v, e.source);
    var item := Lookup(g, v.home, v.id).value;
    if v.asModule && !item.body.Module? {
      var p :| ModuleAt(g, Shown(g, root), p, v.path);
      assert Again(g, Shown(g, root), p, id, e);
    } else {
      assert IsEntity(g, Place(v.home, v.id, v.path, None, e.source), id, e);
    }
  }

  lemma ChildShown(g: Graph, root: Visit, v: Visit, c: string, inImpl: bool, id: string, e: Entity)
    requires root.asModule && |root.path| == 1 && v in Reachable(g, root) && ChildEntity(g, v, c, inImpl, id, e)
    ensures ShownAs(g, root, id, e)
  {
    hide Reachable, Shown;
    ReachableBacked(g, root, v);
    ShownIsWhole(g, root);
    var source :| Backed(g, Shown(g, root), v, source);
    var p := Place(v.home, v.id, v.path, None, source);
    var q := Place(v.home, c, v.path + [Lookup(g, v.home, c).value.name], Some(IdOf(v.path)), None);
    if inImpl {
      var i :| InImpls(g, v, i) && ImplHolds(g, v.home, i, c);
      assert ApiImplHas(g, v.home, i, c);
    }
    assert Shows(g, p, q);
    assert IsEntity(g, q, id, e);
  }

  lemma LeafShown(g: Graph, root: Visit, v: Visit, m: string, id: string, e: Entity)
    requires root.asModule && |root.path| == 1 && v in Reachable(g, root) && LeafEntity(g, v, m, id, e)
    ensures ShownAs(g, root, id, e)
  {
    hide Reachable, Shown, Resolved;
    ReachableBacked(g, root, v);
    ShownIsWhole(g, root);
    var source :| Backed(g, Shown(g, root), v, source);
    MemberShown(g, root, Shown(g, root), v, Place(v.home, v.id, v.path, None, source), m);
  }

  /** Whatever is filed is shown: as that entity, under that id. */
  lemma FiledIsShown(g: Graph, root: Visit, id: string, e: Entity)
    requires root.asModule && |root.path| == 1 && RuledAs(g, root, id, e)
    ensures ShownOrAgain(g, root, id, e)
  {
    hide Reachable, Shown, OwnEntity, LeafEntity, ChildEntity, ShownOrAgain;
    var v :| v in Reachable(g, root) && FilesAs(g, root, v, id, e);
    if OwnEntity(g, root, v, id, e) {
      OwnShown(g, root, v, id, e);
    } else if m :| LeafEntity(g, v, m, id, e) {
      LeafShown(g, root, v, m, id, e);
      assert ShownOrAgain(g, root, id, e) by { ShownEither(g, root, id, e); }
    } else {
      var c, inImpl :| ChildEntity(g, v, c, inImpl, id, e);
      ChildShown(g, root, v, c, inImpl, id, e);
      assert ShownOrAgain(g, root, id, e) by { ShownEither(g, root, id, e); }
    }
  }

  lemma ShownEither(g: Graph, root: Visit, id: string, e: Entity)
    requires ShownAs(g, root, id, e)
    ensures ShownOrAgain(g, root, id, e)
  {
  }

  // ---- the theorems ----

  /** What `Build` files, on every graph: each entity is of something shown, as which and where it is shown. */
  lemma BuiltIsShown(g: Graph, root: Visit, id: string, e: Entity)
    requires root.asModule && |root.path| == 1 && FiledAs(g, root, id, e)
    ensures ShownOrAgain(g, root, id, e)
  {
    hide Reachable, Shown, FilesAs, ShownOrAgain;
    FiledIsShown(g, root, id, e);
  }

  lemma ReachableWalkedAsIs(g: Graph, root: Visit, v: Visit)
    requires GlobsNameModules(g) && WalkedAsIs(g, root) && v in Reachable(g, root)
    ensures WalkedAsIs(g, v)
  {
    hide Resolved, Reachable;
    var s := iset u: Visit | WalkedAsIs(g, u);
    forall u, w | u in s && Step(g, u, w) ensures w in s {
      var m :| m in Lookup(g, u.home, u.id).value.body.members && StepsTo(g, u, m, w);
      assert VisitFits(g, Resolved(g, u.home, m, u.path));
    }
    ReachableLeast(g, root, s);
  }

  /** Where globs name modules, the rules file just the entities that are shown. */
  lemma RulesFileTheShown(g: Graph, root: Visit, id: string, e: Entity)
    requires root.asModule && |root.path| == 1 && GlobsNameModules(g) && WalkedAsIs(g, root)
    ensures RuledAs(g, root, id, e) <==> ShownAs(g, root, id, e)
  {
    hide Reachable, Shown, OwnEntity, LeafEntity, ChildEntity, WalkedAsIs, GlobsNameModules;
    if RuledAs(g, root, id, e) {
      var v :| v in Reachable(g, root) && FilesAs(g, root, v, id, e);
      ReachableWalkedAsIs(g, root, v);
      if OwnEntity(g, root, v, id, e) {
        OwnShown(g, root, v, id, e);
      } else if m :| LeafEntity(g, v, m, id, e) {
        LeafShown(g, root, v, m, id, e);
      } else {
        var c, inImpl :| ChildEntity(g, v, c, inImpl, id, e);
        ChildShown(g, root, v, c, inImpl, id, e);
      }
    }
    if ShownAs(g, root, id, e) { ShownIsFiled(g, root, id, e); }
  }

  ghost predicate SomeLed(g: Graph, root: Visit, v: Visit) { exists source :: Led(g, root, v, source) }

  lemma ReachableLed(g: Graph, root: Visit, v: Visit)
    requires v in Reachable(g, root)
    ensures SomeLed(g, root, v)
  {
    hide Reachable, Resolved;
    var s := iset u: Visit | u in Reachable(g, root) && SomeLed(g, root, u);
    ReachableClosed(g, root);
    assert Led(g, root, root, None);
    forall u, w | u in s && Step(g, u, w) ensures w in s {
      var m :| m in Lookup(g, u.home, u.id).value.body.members && StepsTo(g, u, m, w);
      var source := Resolved(g, u.home, m, u.path).source;
      assert LeadsTo(g, u, m, w, source);
      assert Led(g, root, w, source);
    }
    ReachableLeast(g, root, s);
  }

  /** Whatever a reachable visit files, it files as some entity. */
  lemma FilesSomething(g: Graph, root: Visit, v: Visit, id: string) returns (e: Entity)
    requires v in Reachable(g, root) && Files(g, v, id)
    ensures FilesAs(g, root, v, id, e)
  {
    hide Reachable, Led, Resolved, ChildFiles;
    ReachableLed(g, root, v);
    var source :| Led(g, root, v, source);
    var item := Lookup(g, v.home, v.id).value;
    if id == IdOf(v.path) && (v.asModule ==> |v.path| > 1) {
      e := Entity(if v.asModule then "module" else item.body.kind, Last(v.path), None, source);
      assert OwnEntity(g, root, v, id, e);
    } else if v.asModule {
      var m :| m in item.body.members && ActFiles(g, v, m, id);
      e := Resolved(g, v.home, m, v.path).entity;
      assert LeafEntity(g, v, m, id, e);
    } else if c :| c in item.body.children && ChildFiles(g, v, c, false, id) {
      e := ChildIs(g, root, v, c, false, id);
    } else {
      var i :| i in item.body.impls && ImplFiles(g, v, i, id);
      var c :| c in Lookup(g, v.home, i).value.body.items && ChildFiles(g, v, c, true, id);
      assert InImpls(g, v, i) && ImplHolds(g, v.home, i, c);
      e := ChildIs(g, root, v, c, true, id);
    }
  }

  lemma ChildIs(g: Graph, root: Visit, v: Visit, c: string, inImpl: bool, id: string) returns (e: Entity)
    requires InType(g, v, c, inImpl) && ChildFiles(g, v, c, inImpl, id)
    ensures FilesAs(g, root, v, id, e)
  {
    hide InType;
    var item := Lookup(g, v.home, c).value;
    e := Entity(MemberKind(item.body, inImpl).value, item.name, Some(IdOf(v.path)), None);
    assert ChildEntity(g, v, c, inImpl, id, e);
  }

  /** On every graph, the ids the rules file are those that something is shown under. */
  lemma FiledIffShown(g: Graph, root: Visit, id: string)
    requires root.asModule && |root.path| == 1
    ensures Filed(g, root, id) <==> exists e :: ShownAs(g, root, id, e)
  {
    hide Reachable, Shown, Files, FilesAs, IsEntity;
    if e :| ShownAs(g, root, id, e) {
      ShownIsFiled(g, root, id, e);
      var v :| v in Reachable(g, root) && FilesAs(g, root, v, id, e);
      FilesAsFiles(g, root, v, id, e);
    }
    if Filed(g, root, id) {
      var v :| v in Reachable(g, root) && Files(g, v, id);
      var e := FilesSomething(g, root, v, id);
      FiledIsShown(g, root, id, e);
      if p :| Again(g, Shown(g, root), p, id, e) {
        assert ShownAs(g, root, id, e.(source := p.source));
      }
    }
  }

  // ---- what stays out ----

  /** Nothing gives the item a place: no module or `use`, no type and no API impl. */
  ghost predicate Hidden(g: Graph, home: nat, id: string) {
    forall p: Place, q: Place :: q.home == home && q.id == id ==> !Shows(g, p, q)
  }

  lemma HiddenIsNotShown(g: Graph, root: Visit, home: nat, id: string)
    requires Hidden(g, home, id) && (root.home, root.id) != (home, id)
    ensures forall p :: p in Shown(g, root) ==> (p.home, p.id) != (home, id)
  {
    hide Shows;
    ShownIsLeast(g, root, iset p: Place | (p.home, p.id) != (home, id));
  }

  predicate IsUseOf(g: Graph, home: nat, u: string, q: Place) {
    var item := Lookup(g, home, u);
    item.Some? && item.value.body.Use? && item.value.body.target.Some?
    && Names(g, home, item.value.body.target.value, q)
  }

  predicate IsTypeOf(g: Graph, home: nat, t: string, c: string) {
    var item := Lookup(g, home, t);
    item.Some? && item.value.body.TypeLike? && c in item.value.body.children
  }

  /** Not public, no `use` and not the root; no type lists it as its own, and no `use` of any crate names it. */
  ghost predicate Private(g: Graph, root: Visit, home: nat, id: string) {
    var item := Lookup(g, home, id);
    item.Some? && !item.value.isPublic && !item.value.body.Use? && (root.home, root.id) != (home, id)
    && (forall t :: !IsTypeOf(g, home, t, id))
    && forall from, u, q: Place :: q.home == home && q.id == id ==> !IsUseOf(g, from, u, q)
  }

  /** What is shown is public or a `use`, or a type lists it, or a `use` names it. */
  lemma ShownForAReason(g: Graph, p: Place, q: Place)
    requires Shows(g, p, q)
    ensures ItemAt(g, q).Some?
    ensures var item := ItemAt(g, q).value;
            item.isPublic || item.body.Use? || IsTypeOf(g, q.home, p.id, q.id) || IsUseOf(g, p.home, p.id, q)
  {
  }

  lemma PrivateIsHidden(g: Graph, root: Visit, home: nat, id: string)
    requires Private(g, root, home, id)
    ensures Hidden(g, home, id)
  {
    hide Names, Shows;
    forall p: Place, q: Place | q.home == home && q.id == id ensures !Shows(g, p, q) {
      if Shows(g, p, q) { ShownForAReason(g, p, q); }
    }
  }

  ghost predicate SomeUseOf(g: Graph, home: nat, id: string) {
    exists from, u, q: Place :: q.home == home && q.id == id && IsUseOf(g, from, u, q)
  }

  /** What is walked is public, or a `use` names it. */
  lemma WalkedForAReason(g: Graph, v: Visit, w: Visit)
    requires Step(g, v, w)
    ensures (Lookup(g, w.home, w.id).Some? && Lookup(g, w.home, w.id).value.isPublic) || SomeUseOf(g, w.home, w.id)
  {
    hide Names, Lost, Reexported;
    var m :| m in Lookup(g, v.home, v.id).value.body.members && StepsTo(g, v, m, w);
    var item := Lookup(g, v.home, m).value;
    if item.body.Use? {
      var q := ReexportNames(g, v.home, item.body, v.path);
      assert IsUseOf(g, v.home, m, q);
    }
  }

  /** A private item is shown nowhere, in a module or an impl, and is never walked. */
  lemma PrivateStaysOut(g: Graph, root: Visit, home: nat, id: string)
    requires Private(g, root, home, id)
    ensures forall p :: p in Shown(g, root) ==> (p.home, p.id) != (home, id)
    ensures forall v :: v in Reachable(g, root) ==> (v.home, v.id) != (home, id)
  {
    hide Shown, Reachable, Private, Step;
    PrivateIsHidden(g, root, home, id);
    assert (root.home, root.id) != (home, id) by { PrivateIsNotRoot(g, root, home, id); }
    HiddenIsNotShown(g, root, home, id);
    var s := iset v: Visit | (v.home, v.id) != (home, id);
    forall v, w | v in s && Step(g, v, w) ensures w in s {
      WalkedForAReason(g, v, w);
      PrivateIsUnnamed(g, root, home, id);
    }
    ReachableLeast(g, root, s);
  }

  lemma PrivateIsNotRoot(g: Graph, root: Visit, home: nat, id: string)
    requires Private(g, root, home, id)
    ensures (root.home, root.id) != (home, id)
  {
  }

  lemma PrivateIsUnnamed(g: Graph, root: Visit, home: nat, id: string)
    requires Private(g, root, home, id)
    ensures !SomeUseOf(g, home, id) && Lookup(g, home, id).Some? && !Lookup(g, home, id).value.isPublic
  {
  }
}
