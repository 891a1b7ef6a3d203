/**
  The parser of conformance/c/yaml.c. `Build` is the tree a run of lines
  stands for, by plain recursion; `Parser` is the source's descent, which
  builds every level on one shared stack, and is proved to give the same tree.
 */
module YamlParse {
  import opened Common
  import opened YamlScan
  import opened YamlLex

  datatype Node =
    | Scalar(text: string, quoted: bool, line: nat)
    | Seq(items: seq<Node>, line: nat)
    | Map(keys: seq<string>, items: seq<Node>, line: nat)
    | Empty(line: nat)

  datatype Built<T> = Built(value: T, next: nat)

  /** A mapping's keys and the value of each, in file order. */
  datatype Entries = Entries(keys: seq<string>, items: seq<Node>) {
    function Cons(key: string, item: Node): Entries { Entries([key] + keys, [item] + items) }
  }

  function ScalarNode(text: string, line: nat): Option<Node> {
    var s :- ScalarOf(text);
    Some(Scalar(s.text, s.quoted, line))
  }

  // ---- the tree, by recursion ----

  /** Whether line `i` opens the entry of a mapping at this indent. */
  predicate IsEntry(ls: seq<Line>, i: nat, indent: nat) {
    i < |ls| && !ls[i].dash && ls[i].indent == indent && KeyOf(ls[i].text).Some?
  }

  predicate IsItem(ls: seq<Line>, i: nat, indent: nat) {
    i < |ls| && ls[i].dash && ls[i].indent == indent
  }

  predicate Under(ls: seq<Line>, i: nat, indent: nat) { i < |ls| && ls[i].indent == indent }

  predicate Deeper(ls: seq<Line>, i: nat, indent: nat) { i < |ls| && ls[i].indent > indent }

  /** The node whose first line is `i`, and where the lines it takes up end. */
  function Build(ls: seq<Line>, i: nat, indent: nat): (r: Option<Built<Node>>)
    requires i < |ls| && ls[i].indent == indent
    ensures r.Some? ==> i < r.value.next <= |ls|
    decreases |ls| - i, 2
  {
    if ls[i].dash then
      var b :- BuildItems(ls, i, indent);
      Some(Built(Seq(b.value, ls[i].no), b.next))
    else if KeyOf(ls[i].text).Some? then
      var b :- BuildEntries(ls, i, indent);
      if Distinct(b.value.keys) then Some(Built(Map(b.value.keys, b.value.items, ls[i].no), b.next)) else None
    else
      var n :- ScalarNode(ls[i].text, ls[i].no);
      Some(Built(n, i + 1))
  }

  /** The items of the sequence at this indent, from line `i` on. */
  function BuildItems(ls: seq<Line>, i: nat, indent: nat): (r: Option<Built<seq<Node>>>)
    requires i <= |ls|
    ensures r.Some? ==> i <= r.value.next <= |ls| && (IsItem(ls, i, indent) ==> i < r.value.next)
    decreases |ls| - i, 1
  {
    if !IsItem(ls, i, indent) then Some(Built([], i))
    else if !Under(ls, i + 1, indent + 2) then None
    else
      var item :- Build(ls, i + 1, indent + 2);
      var rest :- BuildItems(ls, item.next, indent);
      Some(Built([item.value] + rest.value, rest.next))
  }

  /** What the key on line `i` holds: the rest of the line, the node under it, or nothing. */
  function BuildValue(ls: seq<Line>, i: nat, indent: nat, rest: string): (r: Option<Built<Node>>)
    requires i < |ls|
    ensures r.Some? ==> i < r.value.next <= |ls|
    decreases |ls| - i, 0
  {
    if rest != "" then
      var n :- ScalarNode(rest, ls[i].no);
      Some(Built(n, i + 1))
    else if Under(ls, i + 1, indent + 2) then Build(ls, i + 1, indent + 2)
    else if Deeper(ls, i + 1, indent) then None
    else Some(Built(Empty(ls[i].no), i + 1))
  }

  /** The entries of the mapping at this indent, from line `i` on, repeated keys included. */
  function BuildEntries(ls: seq<Line>, i: nat, indent: nat): (r: Option<Built<Entries>>)
    requires i <= |ls|
    ensures r.Some? ==> i <= r.value.next <= |ls| && (IsEntry(ls, i, indent) ==> i < r.value.next)
    ensures r.Some? ==> |r.value.value.keys| == |r.value.value.items|
    decreases |ls| - i, 1
  {
    if !IsEntry(ls, i, indent) then Some(Built(Entries([], []), i))
    else
      var pair := KeyOf(ls[i].text).value;
      var v :- BuildValue(ls, i, indent, pair.rest);
      var rest :- BuildEntries(ls, v.next, indent);
      Some(Built(rest.value.Cons(pair.key, v.value), rest.next))
  }

  // ---- what every tree that is built keeps ----

  /** No empty level, bare keys each set once, and nothing missing but under a key. */
  predicate WellFormedTree(n: Node) {
    match n
    case Scalar(_, _, _) => true
    case Empty(_) => false
    case Seq(items, _) => items != [] && forall i :: 0 <= i < |items| ==> WellFormedTree(items[i])
    case Map(keys, items, _) =>
      |keys| == |items| > 0 && Distinct(keys) && (forall i :: 0 <= i < |keys| ==> BareKey(keys[i]))
      && forall i :: 0 <= i < |items| ==> items[i].Empty? || WellFormedTree(items[i])
  }

  lemma {:induction false} BuildWellFormed(ls: seq<Line>, i: nat, indent: nat)
    requires i < |ls| && ls[i].indent == indent && Build(ls, i, indent).Some?
    ensures WellFormedTree(Build(ls, i, indent).value.value)
    decreases |ls| - i, 2
  {
    if ls[i].dash {
      ItemsWellFormed(ls, i, indent);
    } else if KeyOf(ls[i].text).Some? {
      EntriesWellFormed(ls, i, indent);
    }
  }

  lemma {:induction false} ItemsWellFormed(ls: seq<Line>, i: nat, indent: nat)
    requires i <= |ls| && BuildItems(ls, i, indent).Some?
    ensures var items := BuildItems(ls, i, indent).value.value;
            (IsItem(ls, i, indent) ==> items != []) && forall k :: 0 <= k < |items| ==> WellFormedTree(items[k])
    decreases |ls| - i, 1
  {
    if IsItem(ls, i, indent) {
      BuildWellFormed(ls, i + 1, indent + 2);
      ItemsWellFormed(ls, Build(ls, i + 1, indent + 2).value.next, indent);
    }
  }

  lemma EntryWellFormed(ls: seq<Line>, i: nat, indent: nat, rest: string)
    requires i < |ls| && BuildValue(ls, i, indent, rest).Some?
    ensures var v := BuildValue(ls, i, indent, rest).value.value; v.Empty? || WellFormedTree(v)
    decreases |ls| - i, 0
  {
    if rest == "" && Under(ls, i + 1, indent + 2) { BuildWellFormed(ls, i + 1, indent + 2); }
  }

  predicate WellFormedEntries(e: Entries) {
    (forall k :: 0 <= k < |e.keys| ==> BareKey(e.keys[k])) &&
    forall k :: 0 <= k < |e.items| ==> e.items[k].Empty? || WellFormedTree(e.items[k])
  }

  lemma ConsWellFormed(e: Entries, key: string, v: Node)
    requires WellFormedEntries(e) && BareKey(key) && (v.Empty? || WellFormedTree(v))
    ensures WellFormedEntries(e.Cons(key, v)) && e.Cons(key, v).keys != []
  {
    hide WellFormedTree, BareKey;
  }

  lemma {:induction false} EntriesWellFormed(ls: seq<Line>, i: nat, indent: nat)
    requires i <= |ls| && BuildEntries(ls, i, indent).Some?
    ensures var e := BuildEntries(ls, i, indent).value.value;
            (IsEntry(ls, i, indent) ==> e.keys != []) && WellFormedEntries(e)
    decreases |ls| - i, 1
  {
    if IsEntry(ls, i, indent) {
      hide WellFormedTree, BareKey, WellFormedEntries, BuildValue;
      var pair := KeyOf(ls[i].text).value;
      var v := BuildValue(ls, i, indent, pair.rest).value;
      EntryWellFormed(ls, i, indent, pair.rest);
      EntriesWellFormed(ls, v.next, indent);
      ConsWellFormed(BuildEntries(ls, v.next, indent).value.value, pair.key, v.value);
    }
  }

  // ---- the descent over one shared stack ----

  /** `Some(before + more)`: what a loop that has `before` in hand will end with. */
  function WithItems(before: seq<Node>, r: Option<Built<seq<Node>>>): Option<Built<seq<Node>>> {
    if r.Some? then Some(Built(before + r.value.value, r.value.next)) else None
  }

  function WithEntries(before: Entries, r: Option<Built<Entries>>): Option<Built<Entries>> {
    if r.Some?
    then Some(Built(Entries(before.keys + r.value.value.keys, before.items + r.value.value.items), r.value.next))
    else None
  }

  /** The entries of a mapping once its keys are known to be distinct. */
  function Checked(r: Option<Built<Entries>>): Option<Built<Entries>> {
    if r.Some? && Distinct(r.value.value.keys) then r else None
  }

  class Parser {
    const lines: seq<Line>
    var i: nat
    /** The shared stack the nodes of every open level are built on, and its keys. */
    var stack: seq<Node>
    var keys: seq<string>

    constructor (lines: seq<Line>)
      ensures this.lines == lines && i == 0 && stack == [] && keys == []
    {
      this.lines := lines;
      i := 0;
      stack := [];
      keys := [];
    }

    /** The children of a level come off the stack, which is left as the level found it. */
    method Harvest(sbase: nat, kbase: nat) returns (items: seq<Node>, owned: seq<string>)
      requires sbase <= |stack| && kbase <= |keys|
      modifies this`stack, this`keys
      ensures items == old(stack[sbase..]) && owned == old(keys[kbase..])
      ensures stack == old(stack[..sbase]) && keys == old(keys[..kbase])
    {
      items, owned := stack[sbase..], keys[kbase..];
      stack, keys := stack[..sbase], keys[..kbase];
    }

    /**
      The node at line `i`. Success is exactly `Build`: its tree, its next line,
      and both stacks at the heights and contents they had.
     */
    method ParseNode(indent: nat) returns (r: Option<Node>)
      requires i < |lines| && lines[i].indent == indent
      modifies this`i, this`stack, this`keys
      ensures r == match Build(lines, old(i), indent) case None => None case Some(b) => Some(b.value)
      ensures r.Some? ==> i == Build(lines, old(i), indent).value.next > old(i)
      ensures r.Some? ==> stack == old(stack) && keys == old(keys)
      decreases |lines| - i, 3
    {
      var line := lines[i];
      if line.dash {
        r := ParseSeq(indent);
        return;
      }
      var pair := SplitKey(line.text);
      if pair.Some? {
        r := ParseMap(indent);
        return;
      }
      i := i + 1;
      var s := ReadScalar(line.text);
      if s == None { return None; }
      r := Some(Scalar(s.value.text, s.value.quoted, line.no));
    }

    /** The item whose dash is on line `i`, pushed. */
    method PushItem(indent: nat) returns (ok: bool)
      requires IsItem(lines, i, indent)
      modifies this`i, this`stack, this`keys
      ensures var b := if Under(lines, old(i) + 1, indent + 2) then Build(lines, old(i) + 1, indent + 2) else None;
              ok == b.Some? &&
              (ok ==> i == b.value.next && stack == old(stack) + [b.value.value] && keys == old(keys))
      decreases |lines| - i, 0
    {
      hide Build, KeyOf;
      i := i + 1;
      if !(i < |lines| && lines[i].indent == indent + 2) { return false; }
      var item := ParseNode(indent + 2);
      if item == None { return false; }
      stack := stack + [item.value];
      ok := true;
    }

    /** The items of a sequence pushed, to the line that opens none. */
    method PushItems(indent: nat) returns (ok: bool)
      requires IsItem(lines, i, indent)
      modifies this`i, this`stack, this`keys
      ensures var b := BuildItems(lines, old(i), indent);
              ok == b.Some? &&
              (ok ==> i == b.value.next && stack == old(stack) + b.value.value && keys == old(keys))
      decreases |lines| - i, 1
    {
      hide Build, BuildItems, WithItems;
      ghost var start, below, pushed := i, stack, [];
      ghost var goal := BuildItems(lines, i, indent);
      WithNoItems(goal);
      while i < |lines| && lines[i].dash && lines[i].indent == indent
        invariant start <= i <= |lines|
        invariant stack == below + pushed && keys == old(keys)
        invariant goal == WithItems(pushed, BuildItems(lines, i, indent))
        decreases |lines| - i
      {
        ItemsUnfold(lines, i, indent, pushed);
        ok := PushItem(indent);
        if !ok { return; }
        pushed := pushed + [stack[|stack| - 1]];
      }
      ItemsStop(lines, i, indent, pushed);
      ok := true;
    }

    method ParseSeq(indent: nat) returns (r: Option<Node>)
      requires IsItem(lines, i, indent)
      modifies this`i, this`stack, this`keys
      ensures r == match Build(lines, old(i), indent) case None => None case Some(b) => Some(b.value)
      ensures r.Some? ==> i == Build(lines, old(i), indent).value.next > old(i)
      ensures r.Some? ==> stack == old(stack) && keys == old(keys)
      decreases |lines| - i, 2
    {
      SeqResult(lines, i, indent);
      hide Build, BuildItems;
      ghost var below := stack;
      var sbase, kbase, first := |stack|, |keys|, lines[i].no;
      var ok := PushItems(indent);
      if !ok { return None; }
      assert stack[..sbase] == below && keys[..kbase] == keys;
      var items, owned := Harvest(sbase, kbase);
      r := Some(Seq(items, first));
    }

    method ParseMap(indent: nat) returns (r: Option<Node>)
      requires IsEntry(lines, i, indent)
      modifies this`i, this`stack, this`keys
      ensures r == match Build(lines, old(i), indent) case None => None case Some(b) => Some(b.value)
      ensures r.Some? ==> i == Build(lines, old(i), indent).value.next > old(i)
      ensures r.Some? ==> stack == old(stack) && keys == old(keys)
      decreases |lines| - i, 1
    {
      hide Build, BuildValue, BuildEntries, WithEntries, KeyOf, Distinct;
      ghost var start, below, belowKeys := i, stack, keys;
      ghost var goal := BuildEntries(lines, i, indent);
      MapResult(lines, i, indent);
      WithNoEntries(goal);
      NoKeys();
      var sbase, kbase := |stack|, |keys|;
      var first := lines[i].no;
      assert stack[sbase..] == [] && keys[kbase..] == [];
      var pair := SplitKey(lines[i].text);
      while pair.Some?
        invariant start <= i <= |lines|
        invariant |stack| >= sbase && stack[..sbase] == below
        invariant |keys| >= kbase && keys[..kbase] == belowKeys && |keys| - kbase == |stack| - sbase
        invariant Distinct(keys[kbase..])
        invariant pair.Some? <==> IsEntry(lines, i, indent)
        invariant pair.Some? ==> pair == KeyOf(lines[i].text)
        invariant goal == WithEntries(Entries(keys[kbase..], stack[sbase..]), BuildEntries(lines, i, indent))
        invariant i == start ==> pair.Some?
        decreases |lines| - i
      {
        ghost var done := Entries(keys[kbase..], stack[sbase..]);
        EntryStep(lines, i, indent, done);
        var value := ParseValue(indent, pair.value.rest);
        if value == None { return None; }
        var key := pair.value.key;
        var repeated := false;
        for k := kbase to |keys|
          invariant repeated <==> key in keys[kbase..k]
        {
          if keys[k] == key { repeated := true; }
        }
        assert keys[kbase..|keys|] == done.keys;
        if repeated {
          RepeatedKey(done, key, value.value, BuildEntries(lines, i, indent));
          return None;
        }
        OneMoreKey(done.keys, key);
        keys := keys + [key];
        stack := stack + [value.value];
        assert keys[kbase..] == done.keys + [key] && stack[sbase..] == done.items + [value.value];
        pair := None;
        if i < |lines| && !lines[i].dash && lines[i].indent == indent {
          pair := SplitKey(lines[i].text);
        }
      }
      var items, owned := Harvest(sbase, kbase);
      assert stack == below && keys == belowKeys;
      EntriesEnd(lines, i, indent, Entries(owned, items));
      r := Some(Map(owned, items, first));
    }

    /** The value of the key on line `i`. */
    method ParseValue(indent: nat, rest: string) returns (r: Option<Node>)
      requires i < |lines|
      modifies this`i, this`stack, this`keys
      ensures r == match BuildValue(lines, old(i), indent, rest) case None => None case Some(b) => Some(b.value)
      ensures r.Some? ==> i == BuildValue(lines, old(i), indent, rest).value.next > old(i)
      ensures r.Some? ==> stack == old(stack) && keys == old(keys)
      decreases |lines| - i, 0
    {
      var at := lines[i].no;
      i := i + 1;
      if |rest| > 0 {
        var s := ReadScalar(rest);
        if s == None { return None; }
        r := Some(Scalar(s.value.text, s.value.quoted, at));
      } else if i < |lines| && lines[i].indent == indent + 2 {
        r := ParseNode(indent + 2);
      } else if i < |lines| && lines[i].indent > indent {
        r := None;
      } else {
        r := Some(Empty(at));
      }
    }
  }

  lemma WithNoItems(r: Option<Built<seq<Node>>>)
    ensures WithItems([], r) == r
  {
    if r.Some? { assert [] + r.value.value == r.value.value; }
  }

  lemma WithNoEntries(r: Option<Built<Entries>>)
    ensures WithEntries(Entries([], []), r) == r
  {
    if r.Some? {
      assert [] + r.value.value.keys == r.value.value.keys && [] + r.value.value.items == r.value.value.items;
    }
  }

  lemma WithItemsStep(done: seq<Node>, item: Node, rest: Option<Built<seq<Node>>>)
    ensures WithItems(done + [item], rest)
         == WithItems(done, if rest.Some? then Some(Built([item] + rest.value.value, rest.value.next)) else None)
  {
    if rest.Some? { assert done + [item] + rest.value.value == done + ([item] + rest.value.value); }
  }

  /** One item off the front of those to come. */
  lemma ItemsUnfold(ls: seq<Line>, i: nat, indent: nat, done: seq<Node>)
    requires IsItem(ls, i, indent)
    ensures WithItems(done, BuildItems(ls, i, indent)) ==
      if !Under(ls, i + 1, indent + 2) then None
      else
        match Build(ls, i + 1, indent + 2)
        case None => None
        case Some(item) => WithItems(done + [item.value], BuildItems(ls, item.next, indent))
  {
    hide Build;
    if Under(ls, i + 1, indent + 2) && Build(ls, i + 1, indent + 2).Some? {
      var item := Build(ls, i + 1, indent + 2).value;
      WithItemsStep(done, item.value, BuildItems(ls, item.next, indent));
    }
  }

  lemma ItemsStop(ls: seq<Line>, i: nat, indent: nat, done: seq<Node>)
    requires i <= |ls| && !IsItem(ls, i, indent)
    ensures WithItems(done, BuildItems(ls, i, indent)) == Some(Built(done, i))
  {
    WithItemsEnd(done, i);
  }

  lemma WithItemsEnd(items: seq<Node>, i: nat)
    ensures WithItems(items, Some(Built([], i))) == Some(Built(items, i))
  {
    assert items + [] == items;
  }

  lemma NoKeys()
    ensures Distinct<string>([])
  {
  }

  lemma OneMoreKey(keys: seq<string>, key: string)
    requires Distinct(keys) && key !in keys
    ensures Distinct(keys + [key])
  {
  }

  /** What a sequence's items make of the node they are the children of. */
  lemma SeqResult(ls: seq<Line>, i: nat, indent: nat)
    requires IsItem(ls, i, indent)
    ensures Build(ls, i, indent)
         == match BuildItems(ls, i, indent)
            case None => None
            case Some(b) => Some(Built(Seq(b.value, ls[i].no), b.next))
    ensures BuildItems(ls, i, indent).Some? ==> BuildItems(ls, i, indent).value.next > i
  {
    hide BuildItems;
  }

  /** What a mapping's entries make of the node they are the children of. */
  lemma MapResult(ls: seq<Line>, i: nat, indent: nat)
    requires IsEntry(ls, i, indent)
    ensures Build(ls, i, indent)
         == match Checked(BuildEntries(ls, i, indent))
            case None => None
            case Some(b) => Some(Built(Map(b.value.keys, b.value.items, ls[i].no), b.next))
    ensures BuildEntries(ls, i, indent).Some? ==> BuildEntries(ls, i, indent).value.next > i
  {
    hide BuildEntries, KeyOf;
  }

  /** One entry more in hand, and the rest still to come. */
  lemma EntryStep(ls: seq<Line>, i: nat, indent: nat, done: Entries)
    requires IsEntry(ls, i, indent)
    ensures var pair := KeyOf(ls[i].text).value;
            var v := BuildValue(ls, i, indent, pair.rest);
            WithEntries(done, BuildEntries(ls, i, indent))
              == if v == None then None
                 else WithEntries(Entries(done.keys + [pair.key], done.items + [v.value.value]),
                                  BuildEntries(ls, v.value.next, indent))
  {
    hide BuildValue, KeyOf;
    var pair := KeyOf(ls[i].text).value;
    var v := BuildValue(ls, i, indent, pair.rest);
    if v.Some? {
      var rest := BuildEntries(ls, v.value.next, indent);
      if rest.Some? {
        assert done.keys + [pair.key] + rest.value.value.keys == done.keys + ([pair.key] + rest.value.value.keys);
        assert done.items + [v.value.value] + rest.value.value.items
            == done.items + ([v.value.value] + rest.value.value.items);
      }
    }
  }

  lemma EntriesEnd(ls: seq<Line>, i: nat, indent: nat, done: Entries)
    requires i <= |ls| && !IsEntry(ls, i, indent)
    ensures WithEntries(done, BuildEntries(ls, i, indent)) == Some(Built(done, i))
  {
    assert done.keys + [] == done.keys && done.items + [] == done.items;
  }

  /** A key met again makes the finished list of keys indistinct, whatever follows. */
  lemma RepeatedKey(done: Entries, key: string, item: Node, rest: Option<Built<Entries>>)
    requires key in done.keys
    ensures Checked(WithEntries(Entries(done.keys + [key], done.items + [item]), rest)) == None
  {
    if rest.Some? {
      var all := done.keys + [key] + rest.value.value.keys;
      var k :| 0 <= k < |done.keys| && done.keys[k] == key;
      assert all[k] == key && all[|done.keys|] == key;
    }
  }

  /** `zy_parse` past the lexer: the tree of all the lines, each of them used. */
  function Document(ls: seq<Line>): Option<Node> {
    if ls == [] || ls[0].indent != 0 then None
    else
      var b :- Build(ls, 0, 0);
      if b.next == |ls| then Some(b.value) else None
  }

  ghost function ParseText(src: string): Option<Node> {
    var ls :- LexText(src, 1);
    Document(ls)
  }

  method Parse(src: string) returns (r: Option<Node>)
    ensures r == ParseText(src)
    ensures r.Some? ==> WellFormedTree(r.value)
  {
    var lexed := Lex(src);
    if lexed == None { return None; }
    var ls := lexed.value;
    if |ls| == 0 { return None; }
    if ls[0].indent != 0 { return None; }
    var p := new Parser(ls);
    var root := p.ParseNode(0);
    if root == None { return None; }
    if p.i != |ls| { return None; }
    BuildWellFormed(ls, 0, 0);
    r := root;
  }
}
