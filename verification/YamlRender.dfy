/**
  A writer for the YAML subset that conformance/c/yaml.c reads, and the proof
  that the reader undoes it: lexer, comment stripper, quoting and descent, with
  any comments, blank lines and line endings a hand might add.
 */
module YamlRender {
  import opened Common
  import opened Utf8
  import opened YamlScan
  import opened YamlLex
  import opened YamlParse

  /** A logical line without its number: bare text, then perhaps a quoted run. */
  datatype Row = Row(indent: nat, dash: bool, head: string, leaf: Option<string>) {
    function Text(): string {
      head + if leaf.Some? then "\"" + Escape(leaf.value) + "\"" else ""
    }
  }

  predicate BareWord(s: string) { BareKey(s) && s[0] != '-' }

  /** The trees this reader has a spelling for, quoted text being any UTF-8 text at all. */
  ghost predicate Renderable(n: Node) {
    match n
    case Scalar(text, quoted, _) => if quoted then WellFormed(text) else BareWord(text)
    case Empty(_) => false
    case Seq(items, _) => items != [] && forall i :: 0 <= i < |items| ==> Renderable(items[i])
    case Map(keys, items, _) =>
      |keys| == |items| > 0 && Distinct(keys) && (forall i :: 0 <= i < |keys| ==> BareKey(keys[i]))
      && forall i :: 0 <= i < |items| ==> items[i].Empty? || Renderable(items[i])
  }

  function ScalarRow(indent: nat, head: string, text: string, quoted: bool): Row {
    if quoted then Row(indent, false, head, Some(text)) else Row(indent, false, head + text, None)
  }

  function Rows(n: Node, indent: nat): seq<Row>
    decreases n, 1
  {
    match n
    case Scalar(text, quoted, _) => [ScalarRow(indent, "", text, quoted)]
    case Empty(_) => []
    case Seq(items, _) => ItemRows(items, indent)
    case Map(keys, items, _) => if |keys| == |items| then EntryRows(keys, items, indent) else []
  }

  function ItemRows(items: seq<Node>, indent: nat): seq<Row>
    decreases items, 0
  {
    if items == [] then []
    else [Row(indent, true, "", None)] + Rows(items[0], indent + 2) + ItemRows(items[1..], indent)
  }

  function KeyRow(key: string, item: Node, indent: nat): Row {
    if item.Scalar? then ScalarRow(indent, key + ": ", item.text, item.quoted)
    else Row(indent, false, key + ":", None)
  }

  function EntryRows(keys: seq<string>, items: seq<Node>, indent: nat): seq<Row>
    requires |keys| == |items|
    decreases items, 0
  {
    if items == [] then []
    else
      [KeyRow(keys[0], items[0], indent)]
        + ChildRows(items[0], indent + 2)
        + EntryRows(keys[1..], items[1..], indent)
  }

  /** The rows under a key: none when its value is on the key's own line, or is nothing. */
  function ChildRows(item: Node, indent: nat): (rows: seq<Row>)
    ensures item.Scalar? || item.Empty? ==> rows == []
    decreases item, 2
  {
    if item.Scalar? || item.Empty? then [] else Rows(item, indent)
  }

  /** Two trees that differ at most in the lines they were written on. */
  predicate SameTree(a: Node, b: Node) {
    match (a, b)
    case (Scalar(t, q, _), Scalar(u, p, _)) => t == u && q == p
    case (Empty(_), Empty(_)) => true
    case (Seq(xs, _), Seq(ys, _)) => |xs| == |ys| && forall i :: 0 <= i < |xs| ==> SameTree(xs[i], ys[i])
    case (Map(ks, xs, _), Map(ls, ys, _)) =>
      ks == ls && |xs| == |ys| && forall i :: 0 <= i < |xs| ==> SameTree(xs[i], ys[i])
    case _ => false
  }

  // ---- the descent undoes the rows ----

  predicate IsRow(l: Line, r: Row) { l.indent == r.indent && l.dash == r.dash && l.text == r.Text() }

  /** The lines from `i` on are these rows. */
  predicate Holds(ls: seq<Line>, i: nat, rows: seq<Row>) {
    i + |rows| <= |ls| && forall k :: 0 <= k < |rows| ==> IsRow(ls[i + k], rows[k])
  }

  lemma HoldsParts(ls: seq<Line>, i: nat, a: seq<Row>, b: seq<Row>)
    requires Holds(ls, i, a + b)
    ensures Holds(ls, i, a) && Holds(ls, i + |a|, b)
  {
    hide IsRow;
    forall k | 0 <= k < |a| ensures IsRow(ls[i + k], a[k]) { assert (a + b)[k] == a[k]; }
    forall k | 0 <= k < |b| ensures IsRow(ls[i + |a| + k], b[k]) { assert (a + b)[|a| + k] == b[k]; }
  }

  /** What comes after a level: the end, or a line further left. */
  predicate Ends(ls: seq<Line>, j: nat, indent: nat) { j == |ls| || (j < |ls| && ls[j].indent < indent) }

  lemma NoKeyBreak(text: string)
    requires forall k :: 0 <= k < |text| ==> text[k] != ':'
    ensures KeyBreak(text) == |text|
  {
  }

  /** No scalar of this writer can be taken for a key. */
  lemma ScalarIsNoKey(text: string, quoted: bool)
    requires quoted || BareWord(text)
    ensures KeyOf(ScalarRow(0, "", text, quoted).Text()) == None
  {
    var t := ScalarRow(0, "", text, quoted).Text();
    if quoted {
      assert t[0] == '"' && t[|t| - 1] == '"';
    } else {
      assert t == text;
      NoKeyBreak(t);
      assert IsKeyChar(t[|t| - 1]);
    }
  }

  lemma KeyReads(key: string, value: string)
    requires BareKey(key) && (value == "" || !IsSpace(value[0]))
    ensures KeyOf(key + ":") == Some(Pair(key, ""))
    ensures value != "" ==> KeyOf(key + ": " + value) == Some(Pair(key, value))
  {
    hide TrimStart;
    var bare, full := key + ":", key + ": " + value;
    assert forall k :: 0 <= k < |key| ==> bare[k] == key[k] && full[k] == key[k] && key[k] != ':' by {
      assert forall k :: 0 <= k < |key| ==> IsKeyChar(key[k]);
    }
    KeyBreakUnique(bare, |bare|);
    assert bare[..|key|] == key;
    KeyBreakUnique(full, |key|);
    assert full[..|key|] == key && full[|key| + 2..] == value;
    TrimNothing(value);
  }

  lemma TrimNothing(s: string)
    requires s == "" || !IsSpace(s[0])
    ensures TrimStart(s) == s
  {
  }

  lemma ScalarReads(text: string, quoted: bool)
    requires quoted || BareWord(text)
    ensures ScalarOf(ScalarRow(0, "", text, quoted).Text()) == Some(Spelled(text, quoted))
    ensures ScalarRow(0, "", text, quoted).Text() != "" && !IsSpace(ScalarRow(0, "", text, quoted).Text()[0])
  {
    hide Escape, ScalarOf, BareWord;
    var t := ScalarRow(0, "", text, quoted).Text();
    if quoted {
      QuotedReads(text);
      assert t == "\"" + Escape(text) + "\"";
    } else {
      BareReads(text);
      assert t == text;
    }
  }

  lemma BareReads(text: string)
    requires BareWord(text)
    ensures ScalarOf(text) == Some(Spelled(text, false)) && text != "" && !IsSpace(text[0])
  {
    hide FindClose, Unescape;
    assert IsKeyChar(text[0]);
  }

  lemma RowsOpen(n: Node, indent: nat)
    requires Renderable(n)
    ensures Rows(n, indent) != [] && Rows(n, indent)[0].indent == indent
    ensures Rows(n, indent)[0].dash <==> n.Seq?
    ensures n.Scalar? ==> |Rows(n, indent)| == 1
  {
    match n
    case Scalar(_, _, _) =>
    case Empty(_) =>
    case Seq(items, _) =>
    case Map(keys, items, _) =>
  }

  /** The tree comes back from its own rows, wherever they stand and whatever their numbers. */
  lemma {:induction false} BuildRows(n: Node, indent: nat, ls: seq<Line>, i: nat)
    requires Renderable(n) && Holds(ls, i, Rows(n, indent)) && Ends(ls, i + |Rows(n, indent)|, indent)
    ensures i < |ls| && ls[i].indent == indent
    ensures var b := Build(ls, i, indent);
            b.Some? && b.value.next == i + |Rows(n, indent)| && SameTree(b.value.value, n)
    decreases n, 1
  {
    RowsOpen(n, indent);
    assert IsRow(ls[i], Rows(n, indent)[0]);
    match n {
      case Scalar(text, quoted, _) =>
        SameText(indent, text, quoted);
        ScalarIsNoKey(text, quoted);
        ScalarReads(text, quoted);
      case Seq(items, _) =>
        BuildItemRows(items, indent, ls, i);
      case Map(keys, items, _) =>
        BuildEntryRows(keys, items, indent, ls, i);
        KeyRowReads(keys[0], items[0], indent);
    }
  }

  lemma SameText(indent: nat, text: string, quoted: bool)
    ensures ScalarRow(indent, "", text, quoted).Text() == ScalarRow(0, "", text, quoted).Text()
  {
  }

  lemma {:induction false} BuildItemRows(items: seq<Node>, indent: nat, ls: seq<Line>, i: nat)
    requires forall k :: 0 <= k < |items| ==> Renderable(items[k])
    requires Holds(ls, i, ItemRows(items, indent)) && Ends(ls, i + |ItemRows(items, indent)|, indent)
    ensures i <= |ls|
    ensures var b := BuildItems(ls, i, indent);
            b.Some? && b.value.next == i + |ItemRows(items, indent)| && |b.value.value| == |items|
            && forall k :: 0 <= k < |items| ==> SameTree(b.value.value[k], items[k])
    decreases items, 0
  {
    hide Rows, IsRow, Build;
    if items != [] {
      var open, first, rest := [Row(indent, true, "", None)], Rows(items[0], indent + 2), ItemRows(items[1..], indent);
      HoldsParts(ls, i, open + first, rest);
      HoldsParts(ls, i, open, first);
      RowIsLine(ls, i, open);
      RowsOpen(items[0], indent + 2);
      NextItem(items[1..], indent, ls, i + 1 + |first|);
      BuildRows(items[0], indent + 2, ls, i + 1);
      BuildItemRows(items[1..], indent, ls, i + 1 + |first|);
    }
  }

  lemma RowIsLine(ls: seq<Line>, i: nat, rows: seq<Row>)
    requires Holds(ls, i, rows) && rows != []
    ensures i < |ls| && ls[i].indent == rows[0].indent && ls[i].dash == rows[0].dash && ls[i].text == rows[0].Text()
  {
    assert IsRow(ls[i + 0], rows[0]);
  }

  /** What follows an item is the next one or the end of the level, further left either way. */
  lemma NextItem(items: seq<Node>, indent: nat, ls: seq<Line>, j: nat)
    requires Holds(ls, j, ItemRows(items, indent)) && Ends(ls, j + |ItemRows(items, indent)|, indent)
    ensures Ends(ls, j, indent + 2)
  {
    hide IsRow;
    if items != [] { RowIsLine(ls, j, ItemRows(items, indent)); }
  }

  lemma NextEntry(keys: seq<string>, items: seq<Node>, indent: nat, ls: seq<Line>, j: nat)
    requires |keys| == |items|
    requires Holds(ls, j, EntryRows(keys, items, indent)) && Ends(ls, j + |EntryRows(keys, items, indent)|, indent)
    ensures Ends(ls, j, indent + 2) && !Deeper(ls, j, indent)
  {
    hide IsRow;
    if items != [] { RowIsLine(ls, j, EntryRows(keys, items, indent)); }
  }

  /** What the text after the colon of a key's row reads as. */
  lemma KeyRowReads(key: string, item: Node, indent: nat)
    requires BareKey(key) && (item.Empty? || Renderable(item))
    ensures var r := KeyRow(key, item, indent);
            r.indent == indent && !r.dash
            && KeyOf(r.Text()) ==
               Some(Pair(key, if item.Scalar? then ScalarRow(0, "", item.text, item.quoted).Text() else ""))
  {
    hide KeyOf, Escape, ScalarOf, TrimStart;
    KeyReads(key, "");
    if item.Scalar? {
      var value := ScalarRow(0, "", item.text, item.quoted).Text();
      ScalarReads(item.text, item.quoted);
      KeyReads(key, value);
      assert KeyRow(key, item, indent).Text() == key + ": " + value;
    } else {
      assert KeyRow(key, item, indent).Text() == key + ":";
    }
  }

  lemma {:induction false} BuildEntryRows(keys: seq<string>, items: seq<Node>, indent: nat, ls: seq<Line>, i: nat)
    requires |keys| == |items| && forall k :: 0 <= k < |keys| ==> BareKey(keys[k])
    requires forall k :: 0 <= k < |items| ==> items[k].Empty? || Renderable(items[k])
    requires Holds(ls, i, EntryRows(keys, items, indent)) && Ends(ls, i + |EntryRows(keys, items, indent)|, indent)
    ensures i <= |ls|
    ensures var b := BuildEntries(ls, i, indent);
            b.Some? && b.value.next == i + |EntryRows(keys, items, indent)| && b.value.value.keys == keys
            && forall k :: 0 <= k < |items| ==> SameTree(b.value.value.items[k], items[k])
    decreases items, 0
  {
    hide Rows, IsRow, Build, KeyOf, KeyRow, Renderable, ChildRows, ScalarRow, BuildValue, SameTree, BareKey, Deeper;
    if items != [] {
      var key, item := keys[0], items[0];
      var open := [KeyRow(key, item, indent)];
      var first := ChildRows(item, indent + 2);
      var rest := EntryRows(keys[1..], items[1..], indent);
      HoldsParts(ls, i, open + first, rest);
      HoldsParts(ls, i, open, first);
      RowIsLine(ls, i, open);
      KeyRowReads(key, item, indent);
      NextEntry(keys[1..], items[1..], indent, ls, i + 1 + |first|);
      ValueRows(item, indent, ls, i);
      BuildEntryRows(keys[1..], items[1..], indent, ls, i + 1 + |first|);
      assert keys == [key] + keys[1..];
    }
  }

  lemma ValueRows(item: Node, indent: nat, ls: seq<Line>, i: nat)
    requires item.Empty? || Renderable(item)
    requires var rows := ChildRows(item, indent + 2);
             i < |ls| && Holds(ls, i + 1, rows) && Ends(ls, i + 1 + |rows|, indent + 2)
    requires item.Empty? ==> !Deeper(ls, i + 1, indent)
    ensures var text := if item.Scalar? then ScalarRow(0, "", item.text, item.quoted).Text() else "";
            var v := BuildValue(ls, i, indent, text);
            v.Some? && v.value.next == i + 1 + |ChildRows(item, indent + 2)| && SameTree(v.value.value, item)
    decreases item, 2
  {
    hide IsRow, Build;
    match item {
      case Scalar(text, quoted, _) => ScalarReads(text, quoted);
      case Empty(_) =>
      case _ =>
        RowsOpen(item, indent + 2);
        BuildRows(item, indent + 2, ls, i + 1);
    }
  }
}
