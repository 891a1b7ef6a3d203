/**
  What an assembled release is made of: which releases can be assembled, and where
  the bytes of each of their files come from.
 */
module ReleaseFiles {
  import opened Common
  import opened Release
  import opened ReleaseCheck

  /** What a row is made from is there. */
  predicate SourceThere(a: Artifact, tree: Tree, targets: seq<string>) {
    match a.made
    case File(from) => from in tree.files
    case Corpus => tree.corpus.Some?
    case Platform => forall t :: t in targets ==> t in tree.builds
    case _ => true
  }

  /** The files of a row are its sources, byte for byte, under the names it gives them. */
  predicate HoldsRow(a: Artifact, tree: Tree, version: string, targets: seq<string>, after: Files) {
    match a.made
    case File(from) =>
      from in tree.files && a.Expand(version, "") in after && after[a.Expand(version, "")] == tree.files[from]
    case Corpus =>
      tree.corpus.Some? && a.Expand(version, "") in after && after[a.Expand(version, "")] == tree.corpus.value
    case Platform =>
      forall t :: t in targets ==>
        t in tree.builds && a.Expand(version, t) in after && after[a.Expand(version, t)] == tree.builds[t]
    case _ => true
  }

  ghost predicate Gives(products: seq<Product>, after: Files) {
    forall p :: p in products ==> p.name in after && after[p.name] == p.bytes
  }

  lemma {:induction false} BuildsIff(a: Artifact, tree: Tree, version: string, targets: seq<string>)
    ensures Builds(a, tree, version, targets).Some? <==> forall t :: t in targets ==> t in tree.builds
  {
    hide Artifact.Expand;
    if targets != [] { BuildsIff(a, tree, version, targets[1..]); }
  }

  lemma RowMakesIff(a: Artifact, tree: Tree, version: string, targets: seq<string>)
    ensures RowMakes(a, tree, version, targets).Some? <==> SourceThere(a, tree, targets)
  {
    hide Artifact.Expand, Builds;
    BuildsIff(a, tree, version, targets);
  }

  lemma {:induction false} MakesIff(table: Table, tree: Tree, version: string, targets: seq<string>)
    ensures Makes(table, tree, version, targets).Some? <==> forall a :: a in table ==> SourceThere(a, tree, targets)
  {
    hide RowMakes, SourceThere;
    if table != [] {
      RowMakesIff(table[0], tree, version, targets);
      MakesIff(table[1..], tree, version, targets);
      assert forall a :: a in table <==> a == table[0] || a in table[1..];
    }
  }

  /** A release can be assembled exactly when its version can name files and every source is there. */
  lemma AssembledIff(table: Table, tree: Tree, version: string, targets: seq<string>, hash: string -> string,
                     before: Files)
    ensures Assembled(table, tree, version, targets, hash, before).Some? <==>
      version != "" && (forall c :: c in version ==> c != '/' && c != '\\' && c != ' ') &&
      forall a :: a in table ==> SourceThere(a, tree, targets)
  {
    hide Makes, Written, SumsRow;
    MakesIff(table, tree, version, targets);
  }

  lemma {:induction false} BuildsGive(a: Artifact, tree: Tree, version: string, targets: seq<string>, t: string)
    requires Builds(a, tree, version, targets).Some? && t in targets
    ensures t in tree.builds
         && exists p :: p in Builds(a, tree, version, targets).value
                     && p.name == a.Expand(version, t) && p.bytes == tree.builds[t]
  {
    hide Artifact.Expand;
    var made := Builds(a, tree, version, targets).value;
    assert made[0] in made;
    if t != targets[0] {
      BuildsGive(a, tree, version, targets[1..], t);
      var rest := Builds(a, tree, version, targets[1..]).value;
      var p :| p in rest && p.name == a.Expand(version, t) && p.bytes == tree.builds[t];
      assert made == [made[0]] + rest;
      assert p in made;
    }
  }

  lemma RowGives(a: Artifact, tree: Tree, version: string, targets: seq<string>, after: Files)
    requires RowMakes(a, tree, version, targets).Some? && Gives(RowMakes(a, tree, version, targets).value, after)
    ensures HoldsRow(a, tree, version, targets, after)
  {
    hide Artifact.Expand, Builds;
    var made := RowMakes(a, tree, version, targets).value;
    if a.made.Platform? {
      forall t | t in targets
        ensures t in tree.builds && a.Expand(version, t) in after && after[a.Expand(version, t)] == tree.builds[t]
      {
        BuildsGive(a, tree, version, targets, t);
      }
    } else if made != [] {
      assert made[0] in made;
    }
  }

  lemma {:induction false} RowsGive(table: Table, tree: Tree, version: string, targets: seq<string>, after: Files)
    requires Makes(table, tree, version, targets).Some? && Gives(Makes(table, tree, version, targets).value, after)
    ensures forall a :: a in table ==> HoldsRow(a, tree, version, targets, after)
  {
    hide RowMakes, HoldsRow;
    if table != [] {
      var first := RowMakes(table[0], tree, version, targets).value;
      var rest := Makes(table[1..], tree, version, targets).value;
      assert Makes(table, tree, version, targets).value == first + rest;
      RowGives(table[0], tree, version, targets, after);
      RowsGive(table[1..], tree, version, targets, after);
      assert forall a :: a in table <==> a == table[0] || a in table[1..];
    }
  }

  /**
    In an assembled release whose names are all different, every published file is its
    source, and what was in the directory under other names is still there.
   */
  lemma FilesAreSources(table: Table, tree: Tree, version: string, targets: seq<string>, hash: string -> string,
                        before: Files)
    requires OneSums(table) && Distinct(Names(table, version, targets))
    requires Assembled(table, tree, version, targets, hash, before).Some?
    ensures var after := Assembled(table, tree, version, targets, hash, before).value.files;
            (forall a :: a in table ==> HoldsRow(a, tree, version, targets, after)) &&
            forall n :: n in before && n !in Names(table, version, targets) ==> n in after && after[n] == before[n]
  {
    hide Assembled, Makes, Names, OneSums, Distinct, HoldsRow, SumsEach;
    var sums := AssembledHolds(table, tree, version, targets, hash, before);
    var after := Assembled(table, tree, version, targets, hash, before).value.files;
    var products := Makes(table, tree, version, targets).value;
    forall p | p in products ensures p.name in after && after[p.name] == p.bytes {
      NamedIff(products, p.name);
    }
    RowsGive(table, tree, version, targets, after);
    forall n | n in before && n !in Names(table, version, targets) ensures n in after && after[n] == before[n] {
      OthersStay(table, tree, version, targets, hash, before, n);
    }
  }

  lemma OthersStay(table: Table, tree: Tree, version: string, targets: seq<string>, hash: string -> string,
                   before: Files, n: string)
    requires OneSums(table) && Distinct(Names(table, version, targets))
    requires Assembled(table, tree, version, targets, hash, before).Some?
    requires n in before && n !in Names(table, version, targets)
    ensures var after := Assembled(table, tree, version, targets, hash, before).value.files;
            n in after && after[n] == before[n]
  {
    hide Makes, Names, OneSums, Distinct, Written, SumsRow, Artifact.Expand;
    NamesSplit(table, tree, version, targets, n);
    WrittenElsewhere(before, Makes(table, tree, version, targets).value, n);
  }

  lemma {:induction false} WrittenElsewhere(files: Files, products: seq<Product>, n: string)
    requires n in files && n !in ProductNames(products)
    ensures n in Written(files, products) && Written(files, products)[n] == files[n]
    decreases |products|
  {
    if products != [] {
      var p, rest := products[0], products[1..];
      assert ProductNames(products)[0] == p.name;
      assert forall i :: 0 <= i < |rest| ==> ProductNames(rest)[i] == ProductNames(products)[i + 1];
      WrittenElsewhere(files[p.name := p.bytes], rest, n);
    }
  }
}
