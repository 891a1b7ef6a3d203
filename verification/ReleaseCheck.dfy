/**
  `Table::verify` of crates/xtask/src/artifacts.rs: what a directory lacks of the
  table, what it has beyond it, and where its digest list is wrong; and what is
  found when the directory has just been assembled.
 */
module ReleaseCheck {
  import opened Common
  import opened ApiMap
  import opened DigestList
  import opened Release
  import Sha256

  datatype Fault =
    | Missing(name: string) | Empty(name: string) | Stranger(name: string)
    | Unsummed(name: string) | Mismatch(name: string)

  type Sizes = map<string, nat>

  function SizesOf(files: Files): Sizes { map name | name in files :: |files[name]| }

  // ---- the expected names ----

  /** The expected names taken out of what was found, one by one. */
  datatype Taken = Taken(shipped: seq<Shipped>, faults: seq<Fault>, left: Sizes)

  function Take(names: seq<string>, found: Sizes): Taken {
    if names == [] then Taken([], [], found)
    else
      var name := names[0];
      if name !in found then
        var t := Take(names[1..], found);
        t.(faults := [Missing(name)] + t.faults)
      else
        var t := Take(names[1..], found - {name});
        if found[name] == 0 then t.(faults := [Empty(name)] + t.faults)
        else t.(shipped := [Shipped(name, found[name], "published")] + t.shipped)
  }

  method TakeNames(names: seq<string>, found: Sizes) returns (t: Taken)
    ensures t == Take(names, found)
  {
    var left := found;
    var shipped, faults := [], [];
    for i := 0 to |names|
      invariant Take(names, found) ==
        Taken(shipped + Take(names[i..], left).shipped, faults + Take(names[i..], left).faults,
              Take(names[i..], left).left)
    {
      TakeStep(names[i..], left, shipped, faults);
      assert names[i..][1..] == names[i + 1..];
      var name := names[i];
      if name !in left {
        faults := faults + [Missing(name)];
      } else {
        if left[name] == 0 {
          faults := faults + [Empty(name)];
        } else {
          shipped := shipped + [Shipped(name, left[name], "published")];
        }
        left := left - {name};
      }
    }
    return Taken(shipped, faults, left);
  }

  lemma TakeStep(names: seq<string>, found: Sizes, shipped: seq<Shipped>, faults: seq<Fault>)
    requires names != []
    ensures
      var name, t := names[0], Take(names, found);
      var more := Take(names[1..], if name in found then found - {name} else found);
      t.left == more.left &&
      shipped + t.shipped == (
        if name in found && found[name] != 0 then shipped + [Shipped(name, found[name], "published")] else shipped)
        + more.shipped &&
      faults + t.faults == (
        if name !in found then faults + [Missing(name)]
        else if found[name] == 0 then faults + [Empty(name)]
        else faults) + more.faults
  {
  }

  /** Each expected name lands in one place; only a name expected twice can be found and missing both. */
  lemma {:induction false} TakePartitions(names: seq<string>, found: Sizes, name: string)
    ensures Missing(name) in Take(names, found).faults <==>
      name in names && (name !in found || multiset(names)[name] >= 2)
    ensures Empty(name) in Take(names, found).faults <==> name in names && name in found && found[name] == 0
    ensures forall size, kind :: Shipped(name, size, kind) in Take(names, found).shipped <==>
      name in names && name in found && found[name] == size && size > 0 && kind == "published"
    ensures name in Take(names, found).left <==> name in found && name !in names
    ensures name in Take(names, found).left ==> Take(names, found).left[name] == found[name]
    ensures forall f :: f in Take(names, found).faults ==> f.Missing? || f.Empty?
  {
    if names != [] {
      assert names == [names[0]] + names[1..];
      TakePartitions(names[1..], if names[0] in found then found - {names[0]} else found, name);
    }
  }

  /** Every name there once and nothing empty: the names ship in order. */
  lemma {:induction false} TakeWhole(names: seq<string>, found: Sizes)
    requires Distinct(names)
    requires forall name :: name in names ==> name in found && found[name] > 0
    ensures |Take(names, found).shipped| == |names| && Take(names, found).faults == []
    ensures forall i :: 0 <= i < |names| ==>
      Take(names, found).shipped[i] == Shipped(names[i], found[names[i]], "published")
  {
    if names != [] {
      var rest, left := names[1..], found - {names[0]};
      assert forall i :: 0 <= i < |rest| ==> rest[i] == names[i + 1];
      TakeWhole(rest, left);
    }
  }

  // ---- what no name accounts for ----

  lemma {:induction false} LeastExists(keys: set<string>) returns (least: string)
    requires keys != {}
    ensures least in keys && forall k :: k in keys && k != least ==> Less(least, k)
  {
    var one :| one in keys;
    if keys == {one} {
      least := one;
    } else {
      least := LeastExists(keys - {one});
      LessTotal(one, least);
      if Less(one, least) {
        forall k | k in keys && k != one
          ensures Less(one, k)
        {
          if k != least {
            LessChain(one, least, k);
          }
        }
        least := one;
      }
    }
  }

  ghost predicate Least(keys: set<string>, f: string) {
    f in keys && forall k :: k in keys && k != f ==> Less(f, k)
  }

  lemma OneLeast(keys: set<string>, f: string, g: string)
    requires Least(keys, f) && Least(keys, g)
    ensures f == g
  {
    LessTotal(f, g);
  }

  ghost function LeastOf(keys: set<string>): (f: string)
    requires keys != {}
    ensures Least(keys, f)
  {
    assert exists f :: Least(keys, f) by {
      var f := LeastExists(keys);
      assert Least(keys, f);
    }
    var f :| Least(keys, f);
    f
  }

  /** The names nobody expected, in order. */
  ghost function Strangers(keys: set<string>): seq<Fault> {
    if keys == {} then []
    else
      var first := LeastOf(keys);
      [Stranger(first)] + Strangers(keys - {first})
  }

  lemma {:induction false} StrangersAre(keys: set<string>, f: Fault)
    ensures f in Strangers(keys) <==> f.Stranger? && f.name in keys
  {
    if keys != {} {
      StrangersAre(keys - {LeastOf(keys)}, f);
    }
  }

  method ListStrangers(left: Sizes) returns (faults: seq<Fault>)
    ensures faults == Strangers(left.Keys)
  {
    hide Less;
    var keys := left.Keys;
    faults := [];
    while keys != {}
      invariant faults + Strangers(keys) == Strangers(left.Keys)
      decreases |keys|
    {
      ghost var least := LeastOf(keys);
      var f :| f in keys && forall k :: k in keys && k != f ==> Less(f, k);
      OneLeast(keys, f, least);
      faults := faults + [Stranger(f)];
      keys := keys - {f};
    }
  }

  // ---- the digests ----

  /** What one shipped file is at fault for. */
  function SumFault(name: string, list: string, recorded: map<string, string>, files: Files, hash: string -> string)
    : seq<Fault>
  {
    if name == list then []
    else if name !in recorded then [Unsummed(name)]
    else if recorded[name] != hash(Content(files, name)) then [Mismatch(name)]
    else []
  }

  function SumFaults(shipped: seq<Shipped>, list: string, recorded: map<string, string>, files: Files,
                     hash: string -> string): seq<Fault>
  {
    if shipped == [] then []
    else
      SumFault(shipped[0].name, list, recorded, files, hash) + SumFaults(shipped[1..], list, recorded, files, hash)
  }

  lemma SumStep(shipped: seq<Shipped>, i: nat, list: string, recorded: map<string, string>, files: Files,
                hash: string -> string, faults: seq<Fault>)
    requires i < |shipped|
    ensures faults + SumFaults(shipped[i..], list, recorded, files, hash) ==
      (faults + SumFault(shipped[i].name, list, recorded, files, hash))
        + SumFaults(shipped[i + 1..], list, recorded, files, hash)
  {
    hide SumFault;
    assert shipped[i..][1..] == shipped[i + 1..];
  }

  lemma NoSums(list: string, recorded: map<string, string>, files: Files, hash: string -> string)
    ensures SumFaults([], list, recorded, files, hash) == []
  {
  }

  method CheckSums(shipped: seq<Shipped>, list: string, recorded: map<string, string>, files: Files,
                   hash: string -> string) returns (faults: seq<Fault>)
    ensures faults == SumFaults(shipped, list, recorded, files, hash)
  {
    hide SumFaults;
    faults := [];
    NoSums(list, recorded, files, hash);
    assert shipped[0..] == shipped;
    for i := 0 to |shipped|
      invariant faults + SumFaults(shipped[i..], list, recorded, files, hash) ==
        SumFaults(shipped, list, recorded, files, hash)
    {
      SumStep(shipped, i, list, recorded, files, hash, faults);
      var name := shipped[i].name;
      if name != list {
        if name !in recorded {
          faults := faults + [Unsummed(name)];
        } else if recorded[name] != hash(Content(files, name)) {
          faults := faults + [Mismatch(name)];
        }
      }
    }
    assert shipped[|shipped|..] == [];
  }

  lemma {:induction false} SumFaultsAre(shipped: seq<Shipped>, list: string, recorded: map<string, string>,
                                        files: Files, hash: string -> string, f: Fault)
    ensures f in SumFaults(shipped, list, recorded, files, hash) <==>
      f.name != list && (exists s :: s in shipped && s.name == f.name) &&
      ((f.Unsummed? && f.name !in recorded) ||
       (f.Mismatch? && f.name in recorded && recorded[f.name] != hash(Content(files, f.name))))
  {
    if shipped != [] {
      SumFaultsAre(shipped[1..], list, recorded, files, hash, f);
      assert shipped == [shipped[0]] + shipped[1..];
    }
  }

  // ---- the whole directory ----

  datatype Report = Report(shipped: seq<Shipped>, faults: seq<Fault>)

  /** The name of the digest list, if the table has one. */
  function ListName(table: Table, version: string): Option<string> {
    match SumsRow(table)
    case None => None
    case Some(row) => Some(row.Expand(version, ""))
  }

  ghost function Verified(table: Table, files: Files, version: string, targets: seq<string>,
                          hash: string -> string): Report
  {
    var t := Take(Names(table, version, targets), SizesOf(files));
    var faults := t.faults + Strangers(t.left.Keys);
    match ListName(table, version)
    case None => Report(t.shipped, faults)
    case Some(list) =>
      var recorded := Recorded(Lines(Content(files, list)));
      Report(t.shipped, faults + SumFaults(t.shipped, list, recorded, files, hash))
  }

  /** `Table::verify`: a directory inside the release refuses the whole of it. */
  method Verify(table: Table, files: Files, folders: set<string>, version: string, targets: seq<string>,
                hash: string -> string) returns (r: Option<Report>)
    ensures r == if folders == {} then Some(Verified(table, files, version, targets, hash)) else None
  {
    hide Names, Take, Lines, Recorded, SumFaults, Artifact.Expand, SumsRow;
    if folders != {} {
      return None;
    }
    var names := ListNames(table, version, targets);
    var t := TakeNames(names, SizesOf(files));
    var strangers := ListStrangers(t.left);
    var faults := t.faults + strangers;
    var row := SumsRow(table);
    if row.Some? {
      var list := row.value.Expand(version, "");
      var recorded := Recorded(Lines(Content(files, list)));
      var sums := CheckSums(t.shipped, list, recorded, files, hash);
      faults := faults + sums;
    }
    return Some(Report(t.shipped, faults));
  }

  /** The list a directory carries, read. */
  function RecordedIn(files: Files, list: string): map<string, string> { Recorded(Lines(Content(files, list))) }

  predicate Whole(files: Files, name: string) { name in files && files[name] != "" }

  /** What each fault means, for every table and every directory. */
  ghost predicate Deserved(table: Table, files: Files, version: string, targets: seq<string>, hash: string -> string,
                           f: Fault)
  {
    var names, list := Names(table, version, targets), ListName(table, version);
    match f
    case Missing(n) => n in names && (n !in files || multiset(names)[n] >= 2)
    case Empty(n) => n in names && n in files && files[n] == ""
    case Stranger(n) => n in files && n !in names
    case Unsummed(n) =>
      n in names && Whole(files, n) && list.Some? && n != list.value && n !in RecordedIn(files, list.value)
    case Mismatch(n) =>
      n in names && Whole(files, n) && list.Some? && n != list.value && n in RecordedIn(files, list.value) &&
      RecordedIn(files, list.value)[n] != hash(files[n])
  }

  lemma FaultsAreDeserved(table: Table, files: Files, version: string, targets: seq<string>, hash: string -> string,
                          f: Fault)
    ensures f in Verified(table, files, version, targets, hash).faults <==>
      Deserved(table, files, version, targets, hash, f)
  {
    hide Names, Take, Lines, Recorded, SumFaults, Strangers, ListName;
    var names, list := Names(table, version, targets), ListName(table, version);
    var t := Take(names, SizesOf(files));
    TakePartitions(names, SizesOf(files), f.name);
    StrangersAre(t.left.Keys, f);
    if list.Some? {
      SumFaultsAre(t.shipped, list.value, RecordedIn(files, list.value), files, hash, f);
      ShippedIff(names, files, f.name);
    }
  }

  lemma ShippedIff(names: seq<string>, files: Files, name: string)
    ensures (exists s :: s in Take(names, SizesOf(files)).shipped && s.name == name) <==>
      name in names && Whole(files, name)
  {
    hide Take;
    var t := Take(names, SizesOf(files));
    TakePartitions(names, SizesOf(files), name);
    if name in names && Whole(files, name) {
      assert Shipped(name, |files[name]|, "published") in t.shipped;
    }
    if s :| s in t.shipped && s.name == name {
      assert s == Shipped(name, s.bytes, s.kind);
    }
  }

  /** What SHA-256 prints is a digest the list can hold. */
  lemma HexIsGoodDigest(text: string, octets: seq<Sha256.Octet>)
    requires Sha256.HexOf(text, octets)
    ensures GoodDigest(text)
  {
    hide Sha256.Value;
    forall k | 0 <= k < |text|
      ensures text[k] != ' ' && text[k] != '\n'
    {
      var i := k / 2;
      assert Sha256.Nibble(text[2 * i]) >= 0 && Sha256.Nibble(text[2 * i + 1]) >= 0;
      assert k == 2 * i || k == 2 * i + 1;
    }
  }

  // ---- assembled and then verified ----

  function ProductNames(products: seq<Product>): (r: seq<string>)
    ensures |r| == |products| && forall i :: 0 <= i < |r| ==> r[i] == products[i].name
  { seq(|products|, i requires 0 <= i < |products| => products[i].name) }

  lemma DistinctCons(x: string, s: seq<string>)
    ensures Distinct([x] + s) <==> x !in s && Distinct(s)
  {
    var more := [x] + s;
    assert more[0] == x && more[1..] == s;
    assert forall i :: 0 <= i < |s| ==> more[i + 1] == s[i];
    assert forall i :: 0 < i < |more| ==> more[i] == s[i - 1];
    if Distinct(more) {
      forall i, j | 0 <= i < j < |s|
        ensures s[i] != s[j]
      {
        assert more[i + 1] != more[j + 1];
      }
    }
  }

  /** Names are distinct when each is counted once. */
  lemma {:induction false} DistinctCounts(s: seq<string>)
    ensures Distinct(s) <==> forall x :: x in s ==> multiset(s)[x] == 1
  {
    hide Distinct;
    if s == [] {
      NoNames();
    } else {
      var x, rest := s[0], s[1..];
      assert s == [x] + rest;
      DistinctCons(x, rest);
      DistinctCounts(rest);
      assert multiset(s) == multiset{x} + multiset(rest);
      assert forall y :: y in rest <==> y in multiset(rest);
      assert x in s && forall y :: y in rest ==> y in s;
    }
  }

  lemma NoNames()
    ensures Distinct<string>([])
  {
  }

  /** A row other than the digest list makes a product for each of its names. */
  lemma RowNamesMade(a: Artifact, tree: Tree, version: string, targets: seq<string>)
    requires !a.made.Sums? && RowMakes(a, tree, version, targets).Some?
    ensures RowNames(a, version, targets) == ProductNames(RowMakes(a, tree, version, targets).value)
  {
    hide Artifact.Expand;
    if a.made.Platform? {
      BuildsNamed(a, tree, version, targets);
    }
  }

  lemma {:induction false} BuildsNamed(a: Artifact, tree: Tree, version: string, targets: seq<string>)
    requires Builds(a, tree, version, targets).Some?
    ensures |Builds(a, tree, version, targets).value| == |targets|
    ensures forall i :: 0 <= i < |targets| ==>
      Builds(a, tree, version, targets).value[i].name == a.Expand(version, targets[i])
  {
    hide Artifact.Expand;
    if targets != [] {
      BuildsNamed(a, tree, version, targets[1..]);
    }
  }

  function ListOnly(table: Table, version: string): seq<string> {
    match ListName(table, version)
    case None => []
    case Some(list) => [list]
  }

  lemma FirstRow(table: Table, tree: Tree, version: string, targets: seq<string>)
    requires table != [] && Makes(table, tree, version, targets).Some?
    ensures Names(table, version, targets) == RowNames(table[0], version, targets) + Names(table[1..], version, targets)
    ensures RowMakes(table[0], tree, version, targets).Some? && Makes(table[1..], tree, version, targets).Some?
    ensures Makes(table, tree, version, targets).value ==
      RowMakes(table[0], tree, version, targets).value + Makes(table[1..], tree, version, targets).value
    ensures ListOnly(table, version) ==
      if table[0].made.Sums? then [table[0].Expand(version, "")] else ListOnly(table[1..], version)
  {
    hide Artifact.Expand, RowMakes, RowNames;
  }

  lemma OneSumsRest(table: Table, version: string)
    requires table != [] && OneSums(table)
    ensures OneSums(table[1..])
    ensures table[0].made.Sums? ==> ListOnly(table[1..], version) == []
  {
    var rest := table[1..];
    assert forall i :: 0 <= i < |rest| ==> rest[i] == table[i + 1];
    if table[0].made.Sums? {
      forall b | b in rest
        ensures !b.made.Sums?
      {
        var j :| 0 <= j < |rest| && rest[j] == b;
        assert table[j + 1] == b;
      }
    }
  }

  lemma ProductNamesJoin(a: seq<Product>, b: seq<Product>)
    ensures ProductNames(a + b) == ProductNames(a) + ProductNames(b)
  {
  }

  /** The names are the products' and the digest list's. */
  lemma {:induction false} NamesMade(table: Table, tree: Tree, version: string, targets: seq<string>)
    requires OneSums(table) && Makes(table, tree, version, targets).Some?
    ensures multiset(Names(table, version, targets)) ==
      multiset(ProductNames(Makes(table, tree, version, targets).value)) + multiset(ListOnly(table, version))
  {
    if table != [] {
      hide Artifact.Expand, RowMakes, RowNames, Makes, Names, OneSums, ListOnly;
      var a, rest := table[0], table[1..];
      FirstRow(table, tree, version, targets);
      OneSumsRest(table, version);
      NamesMade(rest, tree, version, targets);
      var first, more := RowMakes(a, tree, version, targets).value, Makes(rest, tree, version, targets).value;
      ProductNamesJoin(first, more);
      if a.made.Sums? {
        SumsRowAlone(a, tree, version, targets);
      } else {
        RowNamesMade(a, tree, version, targets);
      }
    }
  }

  lemma SumsRowAlone(a: Artifact, tree: Tree, version: string, targets: seq<string>)
    requires a.made.Sums?
    ensures RowMakes(a, tree, version, targets) == Some([])
    ensures RowNames(a, version, targets) == [a.Expand(version, "")]
  {
  }

  lemma {:induction false} WrittenKeeps(files: Files, products: seq<Product>, name: string)
    requires name !in ProductNames(products)
    ensures name in Written(files, products) <==> name in files
    ensures name in files ==> Written(files, products)[name] == files[name]
    decreases |products|
  {
    if products != [] {
      assert ProductNames(products) == [products[0].name] + ProductNames(products[1..]);
      WrittenKeeps(files[products[0].name := products[0].bytes], products[1..], name);
    }
  }

  lemma {:induction false} WrittenGives(files: Files, products: seq<Product>, p: Product)
    requires p in products && Distinct(ProductNames(products))
    ensures p.name in Written(files, products) && Written(files, products)[p.name] == p.bytes
    decreases |products|
  {
    var rest := products[1..];
    var now := files[products[0].name := products[0].bytes];
    assert ProductNames(products) == [products[0].name] + ProductNames(rest);
    DistinctCons(products[0].name, ProductNames(rest));
    if p == products[0] {
      WrittenKeeps(now, rest, p.name);
    } else {
      WrittenGives(now, rest, p);
    }
  }

  /** What the list of an assembled release holds: one sum for each product. */
  ghost predicate SumsEach(sums: seq<Sum>, products: seq<Product>, hash: string -> string) {
    (forall j, k :: 0 <= j < k < |sums| ==> sums[j].name != sums[k].name) &&
    (forall s :: s in sums ==> exists p :: p in products && s == Sum(p.name, hash(p.bytes))) &&
    (forall p :: p in products ==> Sum(p.name, hash(p.bytes)) in sums)
  }

  lemma {:induction false} ByNameKeeps(made: seq<Shipped>, s: Shipped)
    ensures s in ByName(made) <==> s in made
  {
    assert s in ByName(made) <==> s in multiset(ByName(made));
    assert s in made <==> s in multiset(made);
  }

  function NamesIn(made: seq<Shipped>): (r: seq<string>)
    ensures |r| == |made| && forall i :: 0 <= i < |r| ==> r[i] == made[i].name
  { seq(|made|, i requires 0 <= i < |made| => made[i].name) }

  lemma NamesCons(s: Shipped, rest: seq<Shipped>)
    ensures NamesIn([s] + rest) == [s.name] + NamesIn(rest)
    ensures multiset(NamesIn([s] + rest)) == multiset{s.name} + multiset(NamesIn(rest))
  {
    assert NamesIn([s] + rest) == [s.name] + NamesIn(rest);
  }

  lemma {:induction false} InsertNames(s: Shipped, sorted: seq<Shipped>)
    ensures multiset(NamesIn(Insert(s, sorted))) == multiset(NamesIn(sorted)) + multiset{s.name}
  {
    hide NamesIn, Less;
    if sorted == [] || !Less(sorted[0].name, s.name) {
      NamesCons(s, sorted);
      assert [s] + sorted == Insert(s, sorted);
    } else {
      var rest := sorted[1..];
      assert sorted == [sorted[0]] + rest;
      NamesCons(sorted[0], rest);
      InsertNames(s, rest);
      NamesCons(sorted[0], Insert(s, rest));
      assert Insert(s, sorted) == [sorted[0]] + Insert(s, rest);
    }
  }

  lemma {:induction false} ByNameNames(made: seq<Shipped>)
    ensures multiset(NamesIn(ByName(made))) == multiset(NamesIn(made))
  {
    if made != [] {
      assert NamesIn(made) == [made[0].name] + NamesIn(made[1..]);
      ByNameNames(made[1..]);
      InsertNames(made[0], ByName(made[1..]));
    }
  }

  lemma ByNameApart(made: seq<Shipped>)
    requires Distinct(NamesIn(made))
    ensures Distinct(NamesIn(ByName(made)))
  {
    hide ByName, NamesIn, Distinct;
    var names, sorted := NamesIn(made), NamesIn(ByName(made));
    ByNameNames(made);
    DistinctCounts(names);
    DistinctCounts(sorted);
    assert forall x :: x in sorted <==> x in multiset(sorted);
    assert forall x :: x in names <==> x in multiset(names);
  }

  lemma SumsOfProducts(products: seq<Product>, before: Files, hash: string -> string)
    requires Distinct(ProductNames(products))
    ensures SumsEach(SumsOf(ByName(Weighs(products)), Written(before, products), hash), products, hash)
  {
    hide Written, ByName, Less;
    var files, made := Written(before, products), Weighs(products);
    var sorted := ByName(made);
    var sums := SumsOf(sorted, files, hash);
    assert NamesIn(made) == ProductNames(products);
    ByNameApart(made);
    forall s | s in sums
      ensures exists p :: p in products && s == Sum(p.name, hash(p.bytes))
    {
      var i :| 0 <= i < |sums| && sums[i] == s;
      ByNameKeeps(made, sorted[i]);
      var j :| 0 <= j < |made| && made[j] == sorted[i];
      WrittenGives(before, products, products[j]);
      assert products[j] in products && s == Sum(products[j].name, hash(products[j].bytes));
    }
    forall p | p in products
      ensures Sum(p.name, hash(p.bytes)) in sums
    {
      var j :| 0 <= j < |products| && products[j] == p;
      assert made[j] in made;
      ByNameKeeps(made, made[j]);
      var i :| 0 <= i < |sorted| && sorted[i] == made[j];
      WrittenGives(before, products, p);
      assert sums[i] == Sum(p.name, hash(p.bytes));
    }
  }

  /** The names of a release, when none is published twice. */
  lemma NamesSplit(table: Table, tree: Tree, version: string, targets: seq<string>, n: string)
    requires OneSums(table) && Makes(table, tree, version, targets).Some? && Distinct(Names(table, version, targets))
    ensures var made := ProductNames(Makes(table, tree, version, targets).value);
            Distinct(made)
            && (n in Names(table, version, targets) <==> n in made || ListName(table, version) == Some(n))
            && (ListName(table, version) == Some(n) ==> n !in made)
  {
    hide Artifact.Expand, Makes, Names, OneSums, ListName;
    var names, made := Names(table, version, targets), ProductNames(Makes(table, tree, version, targets).value);
    NamesMade(table, tree, version, targets);
    DistinctCounts(names);
    DistinctCounts(made);
    forall x
      ensures x in names <==> multiset(names)[x] > 0
      ensures x in made <==> multiset(made)[x] > 0
      ensures multiset(ListOnly(table, version))[x] == if ListName(table, version) == Some(x) then 1 else 0
      ensures multiset(names)[x] == multiset(made)[x] + multiset(ListOnly(table, version))[x]
    {
    }
  }

  /** The directory of an assembled release. */
  ghost predicate Holds(names: seq<string>, list: Option<string>, products: seq<Product>, sums: seq<Sum>,
                        before: Files, after: Files, hash: string -> string)
  {
    (forall n :: n in names <==> n in ProductNames(products) || list == Some(n)) &&
    (forall n :: n in after <==> n in before || n in names) &&
    (forall p :: p in products ==> after[p.name] == p.bytes && list != Some(p.name)) &&
    (list.Some? ==> after[list.value] == ListText(sums) && SumsEach(sums, products, hash))
  }

  lemma AssembledHolds(table: Table, tree: Tree, version: string, targets: seq<string>, hash: string -> string,
                       before: Files) returns (sums: seq<Sum>)
    requires OneSums(table) && Distinct(Names(table, version, targets))
    requires Assembled(table, tree, version, targets, hash, before).Some?
    ensures Holds(Names(table, version, targets), ListName(table, version),
                  Makes(table, tree, version, targets).value, sums, before,
                  Assembled(table, tree, version, targets, hash, before).value.files, hash)
  {
    hide Artifact.Expand, Makes, Names, OneSums, SumsRow, Written, ByName, Distinct, ListText, SumsEach, RowMakes, Less;
    var products := Makes(table, tree, version, targets).value;
    var after := Assembled(table, tree, version, targets, hash, before).value.files;
    var list := ListName(table, version);
    var written := Written(before, products);
    sums := SumsOf(ByName(Weighs(products)), written, hash);
    forall n
      ensures n in Names(table, version, targets) <==> n in ProductNames(products) || list == Some(n)
      ensures list == Some(n) ==> n !in ProductNames(products)
      ensures n in written <==> n in before || n in ProductNames(products)
      ensures Distinct(ProductNames(products))
    {
      NamesSplit(table, tree, version, targets, n);
      WrittenHas(before, products, n);
      NamedIff(products, n);
    }
    assert Distinct(ProductNames(products)) by {
      NamesSplit(table, tree, version, targets, "");
    }
    SumsOfProducts(products, before, hash);
    forall p | p in products
      ensures after[p.name] == p.bytes && list != Some(p.name)
    {
      WrittenGives(before, products, p);
      NamedIff(products, p.name);
    }
  }

  lemma NamedIff(products: seq<Product>, n: string)
    ensures n in ProductNames(products) <==> exists p :: p in products && p.name == n
  {
    if p :| p in products && p.name == n {
      var i :| 0 <= i < |products| && products[i] == p;
      assert ProductNames(products)[i] == n;
    }
    if n in ProductNames(products) {
      var i :| 0 <= i < |products| && products[i].name == n;
      assert products[i] in products;
    }
  }

  /** Nothing stale, nothing empty, and a digest list that can be read back. */
  ghost predicate Sound(names: seq<string>, list: Option<string>, products: seq<Product>, before: Files) {
    (forall n :: n in before ==> n in names) &&
    (forall p :: p in products ==> p.bytes != "") &&
    (list.Some? ==> products != [] && forall p :: p in products ==> Readable(p.name))
  }

  /** The list of an assembled release gives every product its digest exactly when every name is readable. */
  lemma SumsReadIff(products: seq<Product>, sums: seq<Sum>, hash: string -> string)
    requires SumsEach(sums, products, hash) && forall b :: GoodDigest(hash(b))
    ensures var recorded := Recorded(Lines(ListText(sums)));
            (forall p :: p in products ==> p.name in recorded && recorded[p.name] == hash(p.bytes)) <==>
            (forall p :: p in products ==> Readable(p.name))
  {
    hide Recorded, Lines, ListText, Readable, GoodDigest;
    var recorded := Recorded(Lines(ListText(sums)));
    assert forall s :: s in sums ==> GoodDigest(s.digest);
    ListReadIff(sums);
    forall p | p in products
      ensures Sum(p.name, hash(p.bytes)) in sums
    {
    }
  }

  /**
    An assembled release verifies clean exactly when no two of its files have one
    name and it is sound.
   */
  lemma AssembleThenVerify(table: Table, tree: Tree, version: string, targets: seq<string>, hash: string -> string,
                           before: Files)
    requires OneSums(table) && forall b :: GoodDigest(hash(b))
    requires Assembled(table, tree, version, targets, hash, before).Some?
    ensures
      var names := Names(table, version, targets);
      var after := Assembled(table, tree, version, targets, hash, before).value.files;
      Verified(table, after, version, targets, hash).faults == [] <==>
      Distinct(names) && Sound(names, ListName(table, version), Makes(table, tree, version, targets).value, before)
  {
    hide Names, Makes, OneSums, Assembled, Verified, ListName, Holds, Sound, Distinct;
    var names := Names(table, version, targets);
    var products := Makes(table, tree, version, targets).value;
    var after := Assembled(table, tree, version, targets, hash, before).value.files;
    var faults := Verified(table, after, version, targets, hash).faults;
    DistinctCounts(names);
    if Distinct(names) {
      var sums := AssembledHolds(table, tree, version, targets, hash, before);
      SoundIff(table, version, targets, hash, products, sums, before, after);
      CleanIff(table, version, targets, hash, after);
    } else {
      var n :| n in names && multiset(names)[n] != 1;
      assert n in multiset(names);
      FaultsAreDeserved(table, after, version, targets, hash, Missing(n));
    }
  }

  lemma CleanIff(table: Table, version: string, targets: seq<string>, hash: string -> string, files: Files)
    ensures Verified(table, files, version, targets, hash).faults == [] <==>
      forall f :: !Deserved(table, files, version, targets, hash, f)
  {
    hide Verified, Deserved;
    var faults := Verified(table, files, version, targets, hash).faults;
    forall f
      ensures f in faults <==> Deserved(table, files, version, targets, hash, f)
    {
      FaultsAreDeserved(table, files, version, targets, hash, f);
    }
    if faults != [] {
      assert faults[0] in faults;
    }
  }

  lemma SoundIff(table: Table, version: string, targets: seq<string>, hash: string -> string, products: seq<Product>,
                 sums: seq<Sum>, before: Files, after: Files)
    requires Distinct(Names(table, version, targets)) && forall b :: GoodDigest(hash(b))
    requires Holds(Names(table, version, targets), ListName(table, version), products, sums, before, after, hash)
    ensures (forall f :: !Deserved(table, after, version, targets, hash, f)) <==>
      Sound(Names(table, version, targets), ListName(table, version), products, before)
  {
    hide Names, ListName, Deserved, Sound, Holds;
    if Sound(Names(table, version, targets), ListName(table, version), products, before) {
      forall f
        ensures !Deserved(table, after, version, targets, hash, f)
      {
        SoundIsClean(table, version, targets, hash, products, sums, before, after, f);
      }
    } else {
      var f := UnsoundFault(table, version, targets, hash, products, sums, before, after);
    }
  }

  lemma SoundIsClean(table: Table, version: string, targets: seq<string>, hash: string -> string,
                     products: seq<Product>, sums: seq<Sum>, before: Files, after: Files, f: Fault)
    requires Distinct(Names(table, version, targets)) && forall b :: GoodDigest(hash(b))
    requires Holds(Names(table, version, targets), ListName(table, version), products, sums, before, after, hash)
    requires Sound(Names(table, version, targets), ListName(table, version), products, before)
    ensures !Deserved(table, after, version, targets, hash, f)
  {
    hide Names, ListName, Recorded, Lines, ListText, Readable, GoodDigest, SumsEach, Distinct;
    var names, list := Names(table, version, targets), ListName(table, version);
    NamedIff(products, f.name);
    DistinctCounts(names);
    if list.Some? {
      SumsReadIff(products, sums, hash);
      ListIsEmpty(sums, products, hash);
    }
  }

  lemma ListIsEmpty(sums: seq<Sum>, products: seq<Product>, hash: string -> string)
    requires SumsEach(sums, products, hash)
    ensures ListText(sums) == "" <==> products == []
  {
    if products != [] {
      assert Sum(products[0].name, hash(products[0].bytes)) in sums;
    }
    if sums != [] {
      assert sums[0] in sums;
      assert |ListText(sums)| > 0;
    }
  }

  /** Some fault of a release that is not sound. */
  lemma UnsoundFault(table: Table, version: string, targets: seq<string>, hash: string -> string,
                     products: seq<Product>, sums: seq<Sum>, before: Files, after: Files) returns (f: Fault)
    requires Distinct(Names(table, version, targets)) && forall b :: GoodDigest(hash(b))
    requires Holds(Names(table, version, targets), ListName(table, version), products, sums, before, after, hash)
    requires !Sound(Names(table, version, targets), ListName(table, version), products, before)
    ensures Deserved(table, after, version, targets, hash, f)
  {
    hide Names, ListName, Recorded, ListText, Readable, GoodDigest, SumsEach, Lines, Distinct;
    var names, list := Names(table, version, targets), ListName(table, version);
    if n :| n in before && n !in names {
      f := Stranger(n);
    } else if p :| p in products && p.bytes == "" {
      NamedIff(products, p.name);
      f := Empty(p.name);
    } else {
      ListIsEmpty(sums, products, hash);
      if products == [] {
        f := Empty(list.value);
      } else {
        var p := UnreadProduct(products, sums, hash);
        var recorded := RecordedIn(after, list.value);
        assert recorded == Recorded(Lines(ListText(sums)));
        NamedIff(products, p.name);
        f := if p.name in recorded then Mismatch(p.name) else Unsummed(p.name);
      }
    }
  }

  /** A product whose digest an unreadable list does not give back. */
  lemma UnreadProduct(products: seq<Product>, sums: seq<Sum>, hash: string -> string) returns (p: Product)
    requires SumsEach(sums, products, hash) && forall b :: GoodDigest(hash(b))
    requires exists q :: q in products && !Readable(q.name)
    ensures p in products
    ensures var recorded := Recorded(Lines(ListText(sums)));
            p.name !in recorded || recorded[p.name] != hash(p.bytes)
  {
    hide Recorded, Lines, ListText, Readable, GoodDigest, SumsEach;
    SumsReadIff(products, sums, hash);
    var recorded := Recorded(Lines(ListText(sums)));
    p :| p in products && (p.name !in recorded || recorded[p.name] != hash(p.bytes));
  }

  /** A release with no fault ships its names, each once, in table order. */
  lemma CleanShipsNames(table: Table, files: Files, version: string, targets: seq<string>, hash: string -> string)
    requires Verified(table, files, version, targets, hash).faults == []
    ensures var names := Names(table, version, targets);
            var shipped := Verified(table, files, version, targets, hash).shipped;
            |shipped| == |names| &&
            forall i :: 0 <= i < |names| ==>
              names[i] in files && shipped[i] == Shipped(names[i], |files[names[i]]|, "published")
  {
    hide Names, Take, Verified, ListName;
    var names := Names(table, version, targets);
    forall n | n in names
      ensures n in files && files[n] != "" && multiset(names)[n] == 1
    {
      FaultsAreDeserved(table, files, version, targets, hash, Missing(n));
      FaultsAreDeserved(table, files, version, targets, hash, Empty(n));
      assert n in multiset(names);
    }
    DistinctCounts(names);
    TakeWhole(names, SizesOf(files));
    VerifiedTakes(table, files, version, targets, hash);
  }

  lemma VerifiedTakes(table: Table, files: Files, version: string, targets: seq<string>, hash: string -> string)
    ensures Verified(table, files, version, targets, hash).shipped ==
      Take(Names(table, version, targets), SizesOf(files)).shipped
  {
    hide Names, Take, ListName;
  }
}
