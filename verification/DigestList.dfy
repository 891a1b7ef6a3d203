/**
  The digest list of a release (crates/xtask/src/artifacts.rs): one line a
  file, the digest, two spaces and the name, as `sha256sum -c` reads it.
 */
module DigestList {
  import opened Common

  datatype Sum = Sum(name: string, digest: string)

  /** What the list needs of a digest: one line, and no gap of two spaces before the one that ends it. */
  predicate GoodDigest(d: string) { '\n' !in d && ' ' !in d }

  function ListText(sums: seq<Sum>): string {
    if sums == [] then "" else sums[0].digest + "  " + sums[0].name + "\n" + ListText(sums[1..])
  }

  /** The offset of the first two spaces, or the length. */
  function Gap(line: string): (i: nat)
    ensures i <= |line|
    ensures i < |line| ==> i + 2 <= |line| && line[i] == ' ' && line[i + 1] == ' '
  {
    if |line| < 2 then |line|
    else if line[0] == ' ' && line[1] == ' ' then 0
    else Gap(line[1..]) + 1
  }

  lemma {:induction false} GapAfter(digest: string, name: string)
    requires ' ' !in digest
    ensures Gap(digest + "  " + name) == |digest|
  {
    if digest != "" {
      GapAfter(digest[1..], name);
      assert (digest + "  " + name)[1..] == digest[1..] + "  " + name;
    }
  }

  /** `split_once` at two spaces, as an entry of the list. */
  function Entry(line: string): (e: map<string, string>)
    ensures '\n' !in line ==> forall n :: n in e ==> '\n' !in n
  {
    var i := Gap(line);
    if i == |line| then map[] else map[line[i + 2..] := line[..i]]
  }

  /** The lines collected into a map, a later one over an earlier. */
  function Recorded(lines: seq<string>): (r: map<string, string>)
    ensures (forall l :: l in lines ==> '\n' !in l) ==> forall n :: n in r ==> '\n' !in n
  {
    if lines == [] then map[] else Entry(lines[0]) + Recorded(lines[1..])
  }

  /** A list read back: every name, less a final carriage return, to its digest. */
  function Kept(sums: seq<Sum>): map<string, string> {
    if sums == [] then map[] else map[Chop(sums[0].name) := sums[0].digest] + Kept(sums[1..])
  }

  lemma LineRead(s: Sum)
    requires GoodDigest(s.digest)
    ensures Entry(Chop(s.digest + "  " + s.name)) == map[Chop(s.name) := s.digest]
  {
    var line := s.digest + "  " + s.name;
    GapAfter(s.digest, Chop(s.name));
    assert line[|line| - 1] == if s.name == "" then ' ' else s.name[|s.name| - 1];
    var chopped := s.digest + "  " + Chop(s.name);
    assert Chop(line) == chopped;
    assert chopped[..|s.digest|] == s.digest && chopped[|s.digest| + 2..] == Chop(s.name);
  }

  lemma {:induction false} ListRead(sums: seq<Sum>)
    requires forall s :: s in sums ==> GoodDigest(s.digest) && '\n' !in s.name
    ensures Recorded(Lines(ListText(sums))) == Kept(sums)
  {
    hide Chop, Entry, GoodDigest;
    if sums != [] {
      var s, rest := sums[0], ListText(sums[1..]);
      var line := s.digest + "  " + s.name;
      assert GoodDigest(s.digest);
      OneLine(s);
      assert ListText(sums) == line + ['\n'] + rest;
      FirstLine(line, rest);
      ListRead(sums[1..]);
      LineRead(s);
      var lines := Lines(ListText(sums));
      assert lines[0] == Chop(line) && lines[1..] == Lines(rest);
    }
  }

  lemma OneLine(s: Sum)
    requires GoodDigest(s.digest) && '\n' !in s.name
    ensures '\n' !in s.digest + "  " + s.name
  {
  }

  /** A name the list can carry: no line feed in it and no carriage return at its end. */
  predicate Readable(name: string) { '\n' !in name && Chop(name) == name }

  lemma {:induction false} KeptHas(sums: seq<Sum>, i: nat)
    requires i < |sums| && forall s :: s in sums ==> Readable(s.name)
    requires forall j, k :: 0 <= j < k < |sums| ==> sums[j].name != sums[k].name
    ensures sums[i].name in Kept(sums) && Kept(sums)[sums[i].name] == sums[i].digest
  {
    hide Chop;
    var rest := sums[1..];
    assert Readable(sums[0].name);
    if i > 0 {
      KeptHas(rest, i - 1);
      assert rest[i - 1] == sums[i];
    } else {
      KeptOnly(rest, sums[0].name);
      forall j | 0 <= j < |rest|
        ensures Chop(rest[j].name) != sums[0].name
      {
        assert rest[j] == sums[j + 1] && Readable(rest[j].name);
      }
    }
  }

  lemma {:induction false} KeptOnly(sums: seq<Sum>, name: string)
    ensures name in Kept(sums) <==> exists i :: 0 <= i < |sums| && Chop(sums[i].name) == name
  {
    hide Chop;
    if sums != [] {
      var rest := sums[1..];
      KeptOnly(rest, name);
      if name in Kept(rest) {
        var i :| 0 <= i < |rest| && Chop(rest[i].name) == name;
        assert Chop(sums[i + 1].name) == name;
      }
      if i :| 0 < i < |sums| && Chop(sums[i].name) == name {
        assert Chop(rest[i - 1].name) == name;
      }
    }
  }

  function Widest(sums: seq<Sum>): (w: nat)
    ensures forall s :: s in sums ==> |s.name| <= w
  {
    if sums == [] then 0
    else
      var rest := Widest(sums[1..]);
      if |sums[0].name| > rest then |sums[0].name| else rest
  }

  /** Of the names that end in a carriage return, the longest is not read back. */
  lemma {:induction false} LongestLost(sums: seq<Sum>, n: nat) returns (lost: nat)
    requires n < |sums| && Chop(sums[n].name) != sums[n].name
    ensures lost < |sums| && sums[lost].name !in Kept(sums)
    decreases Widest(sums) - |sums[n].name|
  {
    var name := sums[n].name;
    KeptOnly(sums, name);
    if name in Kept(sums) {
      var i :| 0 <= i < |sums| && Chop(sums[i].name) == name;
      assert sums[i] in sums;
      lost := LongestLost(sums, i);
    } else {
      lost := n;
    }
  }

  /** The list reads back every name to its digest exactly when every name is readable. */
  lemma ListReadIff(sums: seq<Sum>)
    requires forall s :: s in sums ==> GoodDigest(s.digest)
    requires forall j, k :: 0 <= j < k < |sums| ==> sums[j].name != sums[k].name
    ensures (forall s :: s in sums ==>
        s.name in Recorded(Lines(ListText(sums))) && Recorded(Lines(ListText(sums)))[s.name] == s.digest)
      <==> (forall s :: s in sums ==> Readable(s.name))
  {
    hide Chop, Lines, Recorded, ListText, Kept, GoodDigest;
    var recorded := Recorded(Lines(ListText(sums)));
    if s :| s in sums && '\n' in s.name {
      assert s.name !in recorded;
    } else {
      ListRead(sums);
      if n :| 0 <= n < |sums| && Chop(sums[n].name) != sums[n].name {
        var lost := LongestLost(sums, n);
        assert sums[lost] in sums && !Readable(sums[n].name);
      } else {
        forall s | s in sums
          ensures s.name in recorded && recorded[s.name] == s.digest && Readable(s.name)
        {
          var i :| 0 <= i < |sums| && sums[i] == s;
          KeptHas(sums, i);
        }
      }
    }
  }

  /** The list line by line: a digest, two spaces and a name, in the order of the entries and nothing else. */
  lemma {:induction false} ListLines(sums: seq<Sum>)
    requires forall s :: s in sums ==> GoodDigest(s.digest) && Readable(s.name) && s.name != ""
    ensures |Lines(ListText(sums))| == |sums|
    ensures forall i :: 0 <= i < |sums| ==>
      Lines(ListText(sums))[i] == sums[i].digest + [0x20 as char, 0x20 as char] + sums[i].name
  {
    hide Chop, GoodDigest;
    if sums != [] {
      var s, rest := sums[0], ListText(sums[1..]);
      var line := s.digest + "  " + s.name;
      assert s in sums;
      OneLine(s);
      assert ListText(sums) == line + ['\n'] + rest;
      FirstLine(line, rest);
      ListLines(sums[1..]);
      KeepsName(s);
      assert line == s.digest + [0x20 as char, 0x20 as char] + s.name;
    }
  }

  lemma KeepsName(s: Sum)
    requires Readable(s.name) && s.name != ""
    ensures Chop(s.digest + "  " + s.name) == s.digest + "  " + s.name
  {
    var line := s.digest + "  " + s.name;
    assert line[|line| - 1] == s.name[|s.name| - 1];
  }
}
