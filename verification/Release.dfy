/**
  The release of crates/xtask/src/artifacts.rs: a table of what is published,
  the step that assembles a directory from it and the step that verifies a
  directory against it. The digest is a parameter, and what the packers give
  is part of the tree the release is assembled from.
 */
module Release {
  import opened Common
  import opened ApiMap
  import opened DigestList

  // ---- names ----

  /** `str::replace`, left to right and never over what it put in. */
  function Replace(s: string, pattern: string, text: string): string
    requires pattern != ""
  {
    if |s| < |pattern| then s
    else if pattern <= s then text + Replace(s[|pattern|..], pattern, text)
    else [s[0]] + Replace(s[1..], pattern, text)
  }

  const VERSION := "<version>"
  const TARGET := "<target>"

  datatype Made =
    | File(from: string) | Corpus | Platform | Sums | Later(milestone: string)

  datatype Artifact = Artifact(name: string, made: Made) {
    predicate Published() { !made.Later? }

    function Expand(version: string, target: string): string {
      Replace(Replace(name, VERSION, version), TARGET, target)
    }
  }

  /** A longer replacement gives a text no shorter, and a longer one where the pattern occurs. */
  lemma {:induction false} ReplaceLonger(s: string, pattern: string, a: string, b: string)
    requires pattern != "" && |a| < |b|
    ensures |Replace(s, pattern, a)| <= |Replace(s, pattern, b)|
    ensures Contains(s, pattern) ==> |Replace(s, pattern, a)| < |Replace(s, pattern, b)|
  {
    if |s| >= |pattern| {
      if pattern <= s {
        ReplaceLonger(s[|pattern|..], pattern, a, b);
      } else {
        ReplaceLonger(s[1..], pattern, a, b);
      }
    } else if Contains(s, pattern) {
      ContainsFits(s, pattern);
    }
  }

  lemma {:induction false} ReplaceSame(s: string, pattern: string, a: string, b: string)
    requires pattern != "" && |a| == |b| && Contains(s, pattern)
    requires Replace(s, pattern, a) == Replace(s, pattern, b)
    ensures a == b
  {
    if pattern <= s {
      var x, y := Replace(s[|pattern|..], pattern, a), Replace(s[|pattern|..], pattern, b);
      assert a == (a + x)[..|a|] && b == (b + y)[..|b|];
    } else {
      var x, y := Replace(s[1..], pattern, a), Replace(s[1..], pattern, b);
      assert x == ([s[0]] + x)[1..] && y == ([s[0]] + y)[1..];
      ReplaceSame(s[1..], pattern, a, b);
    }
  }

  /** Filling in the version leaves the place of the target where it was. */
  lemma {:induction false} TargetStays(name: string, version: string)
    requires Contains(name, TARGET)
    ensures Contains(Replace(name, VERSION, version), TARGET)
  {
    if |name| >= |VERSION| {
      if VERSION <= name {
        NoOverlap(name);
        TargetStays(name[|VERSION|..], version);
        ContainsAfter(version, Replace(name[|VERSION|..], VERSION, version), TARGET);
      } else if TARGET <= name {
        KeepsFront(name, version);
      } else {
        TargetStays(name[1..], version);
        ContainsAfter([name[0]], Replace(name[1..], VERSION, version), TARGET);
      }
    }
  }

  lemma {:induction false} ContainsAfter(front: string, s: string, pattern: string)
    requires Contains(s, pattern)
    ensures Contains(front + s, pattern)
  {
    if front == "" {
      assert front + s == s;
    } else {
      ContainsAfter(front[1..], s, pattern);
      assert (front + s)[1..] == front[1..] + s;
    }
  }

  /** Neither placeholder begins inside the other. */
  lemma NoOverlap(name: string)
    requires VERSION <= name && Contains(name, TARGET)
    ensures Contains(name[|VERSION|..], TARGET)
  {
    forall k | 0 <= k < |VERSION|
      ensures !(TARGET <= name[k..])
    {
      assert name[k] == VERSION[k] && name[1] == VERSION[1];
      assert TARGET[0] == '<' && TARGET[1] == 't';
    }
    Skip(name, |VERSION|);
  }

  lemma {:induction false} Skip(name: string, n: nat)
    requires n <= |name| && Contains(name, TARGET)
    requires forall k :: 0 <= k < n ==> !(TARGET <= name[k..])
    ensures Contains(name[n..], TARGET)
  {
    if n > 0 {
      assert name[0..] == name;
      forall k | 0 <= k < n - 1
        ensures !(TARGET <= name[1..][k..])
      {
        assert name[1..][k..] == name[k + 1..];
      }
      Skip(name[1..], n - 1);
      assert name[1..][n - 1..] == name[n..];
    }
  }

  /** Where no version begins, the text is kept. */
  lemma {:induction false} Keeps(name: string, version: string, n: nat)
    requires n <= |name| && forall k :: 0 <= k < n ==> !(VERSION <= name[k..])
    ensures name[..n] <= Replace(name, VERSION, version)
  {
    if n > 0 && |name| >= |VERSION| {
      assert name[0..] == name;
      forall k | 0 <= k < n - 1
        ensures !(VERSION <= name[1..][k..])
      {
        assert name[1..][k..] == name[k + 1..];
      }
      Keeps(name[1..], version, n - 1);
      assert name[..n] == [name[0]] + name[1..][..n - 1];
    }
  }

  lemma KeepsFront(name: string, version: string)
    requires TARGET <= name
    ensures TARGET <= Replace(name, VERSION, version)
  {
    hide Replace;
    forall k | 0 <= k < |TARGET|
      ensures !(VERSION <= name[k..])
    {
      assert name[k] == TARGET[k] && name[1] == TARGET[1];
      assert VERSION[0] == '<' && VERSION[1] == 'v';
    }
    Keeps(name, version, |TARGET|);
    assert name[..|TARGET|] == TARGET;
  }

  /** Two targets never share a file: the row's name differs wherever the targets do. */
  lemma TargetsApart(name: string, version: string, a: string, b: string)
    requires Contains(name, TARGET)
    requires Artifact(name, Platform).Expand(version, a) == Artifact(name, Platform).Expand(version, b)
    ensures a == b
  {
    hide Replace, Contains;
    TargetStays(name, version);
    var s := Replace(name, VERSION, version);
    if |a| < |b| {
      ReplaceLonger(s, TARGET, a, b);
    } else if |b| < |a| {
      ReplaceLonger(s, TARGET, b, a);
    } else {
      ReplaceSame(s, TARGET, a, b);
    }
  }

  /** Text with no placeholder in it is kept, and one placeholder is filled where it stands. */
  lemma {:induction false} ReplaceOne(a: string, pattern: string, rest: string, text: string)
    requires pattern != "" && pattern[0] !in a
    ensures Replace(a + pattern + rest, pattern, text) == a + text + Replace(rest, pattern, text)
  {
    hide Replace;
    var s := a + pattern + rest;
    if a == "" {
      assert s == pattern + rest;
      Here(pattern, rest, text);
      Joined("", text, Replace(rest, pattern, text));
    } else {
      assert s[1..] == a[1..] + pattern + rest && s[0] == a[0];
      ReplaceOne(a[1..], pattern, rest, text);
      NotHere(s, pattern);
      Joined(a, text, Replace(rest, pattern, text));
    }
  }

  lemma Joined(a: string, text: string, r: string)
    ensures a == "" ==> a + text + r == text + r
    ensures a != "" ==> a + text + r == [a[0]] + (a[1..] + text + r)
  {
  }

  lemma Here(pattern: string, rest: string, text: string)
    requires pattern != ""
    ensures Replace(pattern + rest, pattern, text) == text + Replace(rest, pattern, text)
  {
    var s := pattern + rest;
    assert pattern <= s && s[|pattern|..] == rest;
  }

  lemma NotHere(s: string, pattern: string)
    requires pattern != "" && |s| >= |pattern| && s[0] != pattern[0]
    ensures forall text :: Replace(s, pattern, text) == [s[0]] + Replace(s[1..], pattern, text)
  {
  }

  lemma {:induction false} ReplaceNone(a: string, pattern: string, text: string)
    requires pattern != "" && pattern[0] !in a
    ensures Replace(a, pattern, text) == a
  {
    if |a| >= |pattern| {
      ReplaceNone(a[1..], pattern, text);
      assert a == [a[0]] + a[1..];
    }
  }

  /** Both places of a name are filled, the version's with the version and the target's with the target. */
  lemma ExpandFills(a: string, b: string, c: string, made: Made, version: string, target: string)
    requires '<' !in a && '<' !in b && '<' !in c && '<' !in version
    ensures Artifact(a + "<version>" + (b + "<target>" + c), made).Expand(version, target)
         == a + version + b + target + c
    ensures Artifact(a + "<target>" + (b + "<version>" + c), made).Expand(version, target)
         == a + target + b + version + c
  {
    ExpandEither(a, b, c, version, target);
  }

  lemma ExpandEither(a: string, b: string, c: string, version: string, target: string)
    requires '<' !in a && '<' !in b && '<' !in c && '<' !in version
    ensures Replace(Replace(a + VERSION + (b + TARGET + c), VERSION, version), TARGET, target)
         == a + version + b + target + c
    ensures Replace(Replace(a + TARGET + (b + VERSION + c), VERSION, version), TARGET, target)
         == a + target + b + version + c
  {
    hide Replace;
    ReplaceOne(a, VERSION, b + TARGET + c, version);
    OtherStays(b, c, version);
    var first := a + version + b;
    assert a + version + (b + TARGET + c) == first + TARGET + c;
    ReplaceOne(first, TARGET, c, target);
    ReplaceNone(c, TARGET, target);
    OtherFirst(a, b, c, version);
    var rest := b + version + c;
    ReplaceOne(a, TARGET, rest, target);
    ReplaceNone(rest, TARGET, target);
  }

  lemma OtherStays(b: string, c: string, version: string)
    requires '<' !in b && '<' !in c
    ensures Replace(b + TARGET + c, VERSION, version) == b + TARGET + c
  {
    var s := b + TARGET + c;
    NoVersionIn(s, |b|);
    ReplaceMissing(s, VERSION, version);
  }

  lemma OtherFirst(a: string, b: string, c: string, version: string)
    requires '<' !in a && '<' !in b && '<' !in c
    ensures Replace(a + TARGET + (b + VERSION + c), VERSION, version) == a + TARGET + (b + version + c)
  {
    hide Replace;
    var front, rest := a + TARGET + b, VERSION + c;
    assert a + TARGET + (b + VERSION + c) == front + rest;
    forall k | 0 <= k < |front| ensures !(VERSION <= (front + rest)[k..]) {
      VersionNotAt(a, b, rest, k);
    }
    ReplaceBehind(front, rest, VERSION, version);
    var empty := "";
    ReplaceOne(empty, VERSION, c, version);
    ReplaceNone(c, VERSION, version);
    assert empty + VERSION + c == rest;
    assert front + (empty + version + c) == a + TARGET + (b + version + c);
  }

  /** The version's place opens with two bytes the target's does not. */
  lemma OpensAt(s: string, k: nat)
    requires k <= |s|
    ensures VERSION <= s[k..] ==> k + 1 < |s| && s[k] == '<' && s[k + 1] == 'v'
    ensures TARGET <= s[k..] ==> k + 1 < |s| && s[k] == '<' && s[k + 1] == 't'
  {
    assert VERSION[0] == '<' && VERSION[1] == 'v' && TARGET[0] == '<' && TARGET[1] == 't';
    if VERSION <= s[k..] { assert s[k..][0] == VERSION[0] && s[k..][1] == VERSION[1]; }
    if TARGET <= s[k..] { assert s[k..][0] == TARGET[0] && s[k..][1] == TARGET[1]; }
  }

  /** The version's place begins nowhere in front of it. */
  lemma VersionNotAt(a: string, b: string, rest: string, k: nat)
    requires '<' !in a && '<' !in b && k < |a + TARGET + b|
    ensures !(VERSION <= (a + TARGET + b + rest)[k..])
  {
    var s := a + TARGET + b + rest;
    assert s[|a|..] == TARGET + (b + rest);
    OpensAt(s, k);
    OpensAt(s, |a|);
    assert '<' !in TARGET[1..];
    assert k < |a| ==> s[k] == a[k];
    assert |a| < k < |a| + |TARGET| ==> s[k] == TARGET[1..][k - |a| - 1];
    assert k >= |a| + |TARGET| ==> s[k] == b[k - |a| - |TARGET|];
  }

  lemma NoVersionIn(s: string, n: nat)
    requires n + |TARGET| <= |s| && s[n..n + |TARGET|] == TARGET
    requires forall k :: 0 <= k < |s| && s[k] == '<' ==> k == n
    ensures forall k :: 0 <= k <= |s| ==> !(VERSION <= s[k..])
  {
    assert s[n..][..|TARGET|] == TARGET;
    OpensAt(s, n);
    forall k | 0 <= k <= |s| ensures !(VERSION <= s[k..]) {
      OpensAt(s, k);
    }
  }

  lemma {:induction false} ReplaceMissing(s: string, pattern: string, text: string)
    requires pattern != "" && forall k :: 0 <= k <= |s| ==> !(pattern <= s[k..])
    ensures Replace(s, pattern, text) == s
  {
    if |s| >= |pattern| {
      assert s[0..] == s;
      forall k | 0 <= k <= |s[1..]| ensures !(pattern <= s[1..][k..]) {
        assert s[1..][k..] == s[k + 1..];
      }
      ReplaceMissing(s[1..], pattern, text);
      assert s == [s[0]] + s[1..];
    }
  }

  lemma {:induction false} ReplaceBehind(front: string, rest: string, pattern: string, text: string)
    requires |rest| >= |pattern| > 0 && forall k :: 0 <= k < |front| ==> !(pattern <= (front + rest)[k..])
    ensures Replace(front + rest, pattern, text) == front + Replace(rest, pattern, text)
  {
    var s := front + rest;
    if front == "" {
      assert s == rest;
    } else {
      assert s[0..] == s && s[1..] == front[1..] + rest;
      forall k | 0 <= k < |front[1..]| ensures !(pattern <= (front[1..] + rest)[k..]) {
        assert (front[1..] + rest)[k..] == s[k + 1..];
      }
      ReplaceBehind(front[1..], rest, pattern, text);
      assert [front[0]] + (front[1..] + Replace(rest, pattern, text)) == front + Replace(rest, pattern, text);
    }
  }

  // ---- what a release publishes ----

  type Table = seq<Artifact>

  /** The names of one row. */
  function RowNames(a: Artifact, version: string, targets: seq<string>): seq<string> {
    if !a.Published() then []
    else if a.made.Platform? then seq(|targets|, i requires 0 <= i < |targets| => a.Expand(version, targets[i]))
    else [a.Expand(version, "")]
  }

  /** Every name, in table order. */
  function Names(table: Table, version: string, targets: seq<string>): seq<string> {
    if table == [] then [] else RowNames(table[0], version, targets) + Names(table[1..], version, targets)
  }

  lemma NamesStep(table: Table, i: nat, version: string, targets: seq<string>, out: seq<string>)
    requires i < |table|
    ensures out + Names(table[i..], version, targets) ==
      (out + RowNames(table[i], version, targets)) + Names(table[i + 1..], version, targets)
  {
    hide RowNames;
    assert table[i..][1..] == table[i + 1..];
  }

  /** One row of `Table::names`. */
  method ListRow(a: Artifact, version: string, targets: seq<string>) returns (out: seq<string>)
    ensures out == RowNames(a, version, targets)
  {
    hide Artifact.Expand;
    out := [];
    if a.Published() {
      if a.made.Platform? {
        for j := 0 to |targets|
          invariant out == RowNames(a, version, targets)[..j]
        {
          out := out + [a.Expand(version, targets[j])];
        }
      } else {
        out := [a.Expand(version, "")];
      }
    }
  }

  /** `Table::names`. */
  method ListNames(table: Table, version: string, targets: seq<string>) returns (out: seq<string>)
    ensures out == Names(table, version, targets)
  {
    hide RowNames;
    out := [];
    for i := 0 to |table|
      invariant out + Names(table[i..], version, targets) == Names(table, version, targets)
    {
      NamesStep(table, i, version, targets, out);
      var row := ListRow(table[i], version, targets);
      out := out + row;
    }
  }

  /** The row that writes the digests, if there is one. */
  function SumsRow(table: Table): (r: Option<Artifact>)
    ensures r.Some? ==> r.value in table && r.value.made.Sums?
    ensures r.None? ==> forall a :: a in table ==> !a.made.Sums?
  {
    if table == [] then None
    else if table[0].made.Sums? then Some(table[0])
    else SumsRow(table[1..])
  }

  /** What parsing allows: one row that writes the digests at most. */
  ghost predicate OneSums(table: Table) {
    forall i, j :: 0 <= i < j < |table| ==> !(table[i].made.Sums? && table[j].made.Sums?)
  }

  // ---- assembling ----

  type Files = map<string, string>

  /** The tree, with what packing the corpus and each platform's build gives. */
  datatype Tree = Tree(files: Files, corpus: Option<string>, builds: map<string, string>)

  datatype Product = Product(name: string, bytes: string, kind: string)

  datatype Shipped = Shipped(name: string, bytes: nat, kind: string)

  function Weighed(p: Product): Shipped { Shipped(p.name, |p.bytes|, p.kind) }

  function Builds(a: Artifact, tree: Tree, version: string, targets: seq<string>): Option<seq<Product>> {
    if targets == [] then Some([])
    else if targets[0] !in tree.builds then None
    else
      match Builds(a, tree, version, targets[1..])
      case None => None
      case Some(rest) => Some([Product(a.Expand(version, targets[0]), tree.builds[targets[0]], "platform")] + rest)
  }

  /** What one row makes, or nothing when its source is not there. */
  function RowMakes(a: Artifact, tree: Tree, version: string, targets: seq<string>): Option<seq<Product>> {
    match a.made
    case File(from) =>
      if from in tree.files then Some([Product(a.Expand(version, ""), tree.files[from], "file")]) else None
    case Corpus =>
      if tree.corpus.Some? then Some([Product(a.Expand(version, ""), tree.corpus.value, "corpus")]) else None
    case Platform => Builds(a, tree, version, targets)
    case Sums => Some([])
    case Later(_) => Some([])
  }

  function Makes(table: Table, tree: Tree, version: string, targets: seq<string>): Option<seq<Product>> {
    if table == [] then Some([])
    else
      match RowMakes(table[0], tree, version, targets)
      case None => None
      case Some(first) =>
        match Makes(table[1..], tree, version, targets)
        case None => None
        case Some(rest) => Some(first + rest)
  }

  /** The files after every product is written, a later one over an earlier. */
  function Written(files: Files, products: seq<Product>): Files
    decreases |products|
  {
    if products == [] then files else Written(files[products[0].name := products[0].bytes], products[1..])
  }

  function Content(files: Files, name: string): string { if name in files then files[name] else "" }

  function SumsOf(made: seq<Shipped>, files: Files, hash: string -> string): (r: seq<Sum>)
    ensures |r| == |made|
    ensures forall i :: 0 <= i < |r| ==> r[i] == Sum(made[i].name, hash(Content(files, made[i].name)))
  {
    seq(|made|, i requires 0 <= i < |made| => Sum(made[i].name, hash(Content(files, made[i].name))))
  }

  /** `sort_by` on the names, which keeps equal ones in order. */
  function Insert(s: Shipped, sorted: seq<Shipped>): (r: seq<Shipped>)
    ensures multiset(r) == multiset(sorted) + multiset{s}
  {
    if sorted == [] then [s]
    else if Less(sorted[0].name, s.name) then
      assert sorted == [sorted[0]] + sorted[1..];
      [sorted[0]] + Insert(s, sorted[1..])
    else [s] + sorted
  }

  function ByName(made: seq<Shipped>): (r: seq<Shipped>)
    ensures multiset(r) == multiset(made)
  {
    if made == [] then []
    else
      assert made == [made[0]] + made[1..];
      Insert(made[0], ByName(made[1..]))
  }

  ghost predicate SortedByName(made: seq<Shipped>) {
    forall i, j :: 0 <= i < j < |made| ==> !Less(made[j].name, made[i].name)
  }

  lemma {:induction false} InsertSorted(s: Shipped, sorted: seq<Shipped>)
    requires SortedByName(sorted)
    ensures SortedByName(Insert(s, sorted))
  {
    hide Less;
    if sorted != [] && Less(sorted[0].name, s.name) {
      var rest := Insert(s, sorted[1..]);
      InsertSorted(s, sorted[1..]);
      forall j | 0 <= j < |rest|
        ensures !Less(rest[j].name, sorted[0].name)
      {
        assert rest[j] in multiset(rest);
        LessTotal(sorted[0].name, s.name);
        if rest[j] != s {
          var k :| 0 <= k < |sorted[1..]| && sorted[1..][k] == rest[j];
          assert sorted[k + 1] == rest[j];
        }
      }
    } else if sorted != [] {
      forall j | 0 <= j < |sorted|
        ensures !Less(sorted[j].name, s.name)
      {
        LessTotal(sorted[0].name, sorted[j].name);
        if Less(sorted[j].name, s.name) && sorted[0].name != sorted[j].name {
          LessChain(sorted[0].name, sorted[j].name, s.name);
        }
      }
    }
  }

  /** The digest list is in the order of its names, and holds what was made and no more. */
  lemma {:induction false} ByNameSorts(made: seq<Shipped>)
    ensures SortedByName(ByName(made)) && multiset(ByName(made)) == multiset(made)
  {
    if made != [] {
      ByNameSorts(made[1..]);
      InsertSorted(made[0], ByName(made[1..]));
    }
  }

  function Weighs(products: seq<Product>): (r: seq<Shipped>)
    ensures |r| == |products| && forall i :: 0 <= i < |r| ==> r[i] == Weighed(products[i])
  { seq(|products|, i requires 0 <= i < |products| => Weighed(products[i])) }

  predicate GoodVersion(version: string) {
    version != "" && '/' !in version && '\\' !in version && ' ' !in version
  }

  datatype Assembly = Assembly(files: Files, made: seq<Shipped>)

  /** The release: every product, and over what they left in the directory the digest list. */
  function Assembled(table: Table, tree: Tree, version: string, targets: seq<string>, hash: string -> string,
                     before: Files): (r: Option<Assembly>)
    ensures r.Some? ==> Makes(table, tree, version, targets).Some?
  {
    if !GoodVersion(version) then None
    else
      match Makes(table, tree, version, targets)
      case None => None
      case Some(products) =>
        var files, made := Written(before, products), Weighs(products);
        match SumsRow(table)
        case None => Some(Assembly(files, made))
        case Some(row) =>
          var name, sorted := row.Expand(version, ""), ByName(made);
          var text := ListText(SumsOf(sorted, files, hash));
          Some(Assembly(files[name := text], sorted + [Shipped(name, |text|, "sums")]))
  }

  lemma {:induction false} WrittenMore(files: Files, products: seq<Product>, p: Product)
    ensures Written(files, products + [p]) == Written(files, products)[p.name := p.bytes]
    decreases |products|
  {
    if products == [] {
      assert products + [p] == [p];
      assert Written(files, [p]) == Written(files[p.name := p.bytes], []);
    } else {
      assert (products + [p])[1..] == products[1..] + [p];
      WrittenMore(files[products[0].name := products[0].bytes], products[1..], p);
    }
  }

  lemma WeighsMore(products: seq<Product>, p: Product)
    ensures Weighs(products + [p]) == Weighs(products) + [Weighed(p)]
  {
  }

  /** What the rows done have made, before what the rest make. */
  function Then(done: seq<Product>, rest: Option<seq<Product>>): Option<seq<Product>> {
    match rest
    case None => None
    case Some(more) => Some(done + more)
  }

  lemma MakesStep(table: Table, i: nat, tree: Tree, version: string, targets: seq<string>, done: seq<Product>)
    requires i < |table|
    ensures RowMakes(table[i], tree, version, targets).None? ==> Makes(table[i..], tree, version, targets).None?
    ensures RowMakes(table[i], tree, version, targets).Some? ==>
      Then(done, Makes(table[i..], tree, version, targets)) ==
      Then(done + RowMakes(table[i], tree, version, targets).value, Makes(table[i + 1..], tree, version, targets))
  {
    hide RowMakes;
    assert table[i..][1..] == table[i + 1..];
    var row, rest := RowMakes(table[i], tree, version, targets), Makes(table[i + 1..], tree, version, targets);
    if row.Some? && rest.Some? {
      assert done + (row.value + rest.value) == (done + row.value) + rest.value;
    }
  }

  lemma BuildsStep(a: Artifact, i: nat, tree: Tree, version: string, targets: seq<string>, done: seq<Product>)
    requires i < |targets|
    ensures targets[i] !in tree.builds ==> Builds(a, tree, version, targets[i..]).None?
    ensures targets[i] in tree.builds ==>
      Then(done, Builds(a, tree, version, targets[i..])) ==
      Then(done + [Product(a.Expand(version, targets[i]), tree.builds[targets[i]], "platform")],
           Builds(a, tree, version, targets[i + 1..]))
  {
    hide Artifact.Expand;
    assert targets[i..][1..] == targets[i + 1..];
    var rest := Builds(a, tree, version, targets[i + 1..]);
    if targets[i] in tree.builds && rest.Some? {
      var p := Product(a.Expand(version, targets[i]), tree.builds[targets[i]], "platform");
      assert done + ([p] + rest.value) == (done + [p]) + rest.value;
    }
  }

  /** A release being gathered: the directory's files, and what has been written so far. */
  class Gathering {
    var files: Files
    var made: seq<Shipped>
    ghost const before: Files
    ghost var done: seq<Product>

    ghost predicate Valid()
      reads this
    { files == Written(before, done) && made == Weighs(done) }

    constructor (start: Files)
      ensures Valid() && before == start && done == []
    {
      files, made, before, done := start, [], start, [];
    }

    /** `write`. */
    method Write(name: string, bytes: string, kind: string)
      requires Valid()
      modifies this
      ensures Valid() && done == old(done) + [Product(name, bytes, kind)]
    {
      ghost var p := Product(name, bytes, kind);
      WrittenMore(before, done, p);
      WeighsMore(done, p);
      files := files[name := bytes];
      made := made + [Shipped(name, |bytes|, kind)];
      done := done + [p];
    }

    method WriteBuilds(a: Artifact, tree: Tree, version: string, targets: seq<string>) returns (ok: bool)
      requires Valid()
      modifies this
      ensures Valid() && ok == Builds(a, tree, version, targets).Some?
      ensures ok ==> done == old(done) + Builds(a, tree, version, targets).value
    {
      hide Artifact.Expand, Written;
      for i := 0 to |targets|
        invariant Valid()
        invariant Then(done, Builds(a, tree, version, targets[i..])) ==
          Then(old(done), Builds(a, tree, version, targets))
      {
        BuildsStep(a, i, tree, version, targets, done);
        if targets[i] !in tree.builds {
          return false;
        }
        Write(a.Expand(version, targets[i]), tree.builds[targets[i]], "platform");
      }
      return true;
    }

    method WriteRow(a: Artifact, tree: Tree, version: string, targets: seq<string>) returns (ok: bool)
      requires Valid()
      modifies this
      ensures Valid() && ok == RowMakes(a, tree, version, targets).Some?
      ensures ok ==> done == old(done) + RowMakes(a, tree, version, targets).value
    {
      hide Artifact.Expand, Written, Builds;
      ok := true;
      match a.made
      case File(from) =>
        if from !in tree.files {
          return false;
        }
        Write(a.Expand(version, ""), tree.files[from], "file");
      case Corpus =>
        if tree.corpus.None? {
          return false;
        }
        Write(a.Expand(version, ""), tree.corpus.value, "corpus");
      case Platform =>
        ok := WriteBuilds(a, tree, version, targets);
      case Sums =>
      case Later(_) =>
    }

    method WriteTable(table: Table, tree: Tree, version: string, targets: seq<string>) returns (ok: bool)
      requires Valid()
      modifies this
      ensures Valid() && ok == Makes(table, tree, version, targets).Some?
      ensures ok ==> done == old(done) + Makes(table, tree, version, targets).value
    {
      hide RowMakes, Written;
      for i := 0 to |table|
        invariant Valid()
        invariant Then(done, Makes(table[i..], tree, version, targets)) ==
          Then(old(done), Makes(table, tree, version, targets))
      {
        MakesStep(table, i, tree, version, targets, done);
        if table[i].Published() {
          var more := WriteRow(table[i], tree, version, targets);
          if !more {
            return false;
          }
        } else {
          LaterMakes(table[i], tree, version, targets);
          assert done + [] == done;
        }
      }
      return true;
    }
  }

  lemma LaterMakes(a: Artifact, tree: Tree, version: string, targets: seq<string>)
    requires !a.Published()
    ensures RowMakes(a, tree, version, targets) == Some([])
  {
  }

  lemma {:induction false} WrittenHas(files: Files, products: seq<Product>, name: string)
    ensures name in Written(files, products) <==> name in files || exists p :: p in products && p.name == name
    decreases |products|
  {
    if products != [] {
      var p := products[0];
      WrittenHas(files[p.name := p.bytes], products[1..], name);
      assert forall q :: q in products <==> q == p || q in products[1..];
    }
  }

  method DigestLines(made: seq<Shipped>, files: Files, hash: string -> string) returns (lines: string)
    ensures lines == ListText(SumsOf(made, files, hash))
  {
    ghost var sums := SumsOf(made, files, hash);
    lines := "";
    assert sums[0..] == sums;
    for i := 0 to |made|
      invariant lines + ListText(sums[i..]) == ListText(sums)
    {
      ListStep(sums, i, lines);
      lines := lines + hash(Content(files, made[i].name)) + "  " + made[i].name + "\n";
    }
    assert sums[|made|..] == [];
  }

  /** `Table::assemble`: the table and nothing else, then the digests over what was written. */
  method Assemble(table: Table, tree: Tree, version: string, targets: seq<string>, hash: string -> string,
                  out: Files) returns (r: Option<Assembly>)
    ensures r == Assembled(table, tree, version, targets, hash, out)
  {
    hide Written, Makes, Weighs, Artifact.Expand, ByName, SumsRow, Weighed;
    if version == "" || '/' in version || '\\' in version || ' ' in version {
      return None;
    }
    var g := new Gathering(out);
    var ok := g.WriteTable(table, tree, version, targets);
    if !ok {
      return None;
    }
    ghost var products := Makes(table, tree, version, targets).value;
    assert g.done == products && g.files == Written(out, products);
    var sums := SumsRow(table);
    if sums.None? {
      return Some(Assembly(g.files, g.made));
    }
    var files, made := g.files, ByName(g.made);
    var lines := DigestLines(made, files, hash);
    var name := sums.value.Expand(version, "");
    return Some(Assembly(files[name := lines], made + [Shipped(name, |lines|, "sums")]));
  }

  lemma ListStep(sums: seq<Sum>, i: nat, lines: string)
    requires i < |sums|
    ensures lines + ListText(sums[i..]) ==
      lines + sums[i].digest + "  " + sums[i].name + "\n" + ListText(sums[i + 1..])
  {
    assert sums[i..][1..] == sums[i + 1..];
  }
}
