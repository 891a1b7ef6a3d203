/**
  Rows as text, and the lexer's side of the round trip: a rendered file lexes
  to the rows it was rendered from, whatever comments, blank lines and carriage
  returns stand between them.
 */
module YamlText {
  import opened Common
  import opened Utf8
  import opened YamlScan
  import opened YamlLex
  import opened YamlParse
  import opened YamlRender

  function Spaces(n: nat): (s: string)
    ensures |s| == n && forall k :: 0 <= k < n ==> s[k] == ' '
  {
    if n == 0 then "" else Spaces(n - 1) + " "
  }

  /** What a hand may add to a rendered line: trailing space, a comment, and blank lines after it. */
  datatype Decor = Decor(trail: string, blanks: seq<string>)

  /** Spaces, then nothing or a comment. */
  predicate Remark(t: string) {
    t == "" || t[0] == '#' || (IsSpace(t[0]) && Remark(t[1..]))
  }

  ghost predicate OneLine(t: string) { WellFormed(t) && '\t' !in t && '\n' !in t }

  /** A remark that does not run into the line it follows. */
  ghost predicate IsTrail(t: string) { OneLine(t) && Remark(t) && (t != "" ==> IsSpace(t[0])) }

  ghost predicate IsDecor(d: Decor) {
    IsTrail(d.trail) && forall b :: b in d.blanks ==> OneLine(b) && Remark(b)
  }

  // ---- rows as lines of a file ----

  /** A line of the file: the rows it lexes to, one or two, and its own text. */
  datatype Physical = Physical(rows: seq<Row>, text: string)

  /** Whether the row after a `-` is written on the `-`'s own line. */
  predicate Joins(rows: seq<Row>) {
    |rows| > 1 && rows[0].dash && !rows[1].dash && rows[1].indent == rows[0].indent + 2
  }

  function FirstPhysical(rows: seq<Row>): (p: Physical)
    requires rows != []
    ensures 1 <= |p.rows| <= |rows| && p.rows <= rows
  {
    var pad := Spaces(rows[0].indent);
    if Joins(rows) then Physical(rows[..2], pad + "- " + rows[1].Text())
    else Physical(rows[..1], pad + if rows[0].dash then "-" else rows[0].Text())
  }

  function Blanks(blanks: seq<string>): string {
    if blanks == [] then "" else blanks[0] + "\n" + Blanks(blanks[1..])
  }

  /** The file, each of its lines followed by what `decor` adds to it. */
  function FileText(rows: seq<Row>, decor: seq<Decor>): string
    requires |decor| >= |rows|
    decreases |rows|
  {
    if rows == [] then ""
    else
      var p := FirstPhysical(rows);
      p.text + decor[0].trail + "\n" + Blanks(decor[0].blanks) + FileText(rows[|p.rows|..], decor[1..])
  }

  // ---- what a row's text is made of ----

  predicate HeadChar(c: char) { IsKeyChar(c) || c == ':' || c == ' ' }

  ghost predicate RowOk(r: Row) {
    r.indent % 2 == 0
    && if r.dash then r.head == "" && r.leaf == None
       else
         (forall k :: 0 <= k < |r.head| ==> HeadChar(r.head[k]))
         && (r.head != "" ==> r.head[0] != ' ' && !OpensItem(r.head) && !IsMarker(r.head))
         && match r.leaf
            case Some(t) => WellFormed(t) && (r.head == "" || r.head[|r.head| - 1] == ' ')
            case None => r.head != "" && r.head[|r.head| - 1] != ' '
  }

  ghost predicate RowsOk(rows: seq<Row>) { forall k :: 0 <= k < |rows| ==> RowOk(rows[k]) }

  /** A bare key, its colon and what follows on the row. */
  lemma KeyHeadOk(key: string, more: string)
    requires BareKey(key) && more != "" && more[0] == ':' && forall k :: 0 <= k < |more| ==> HeadChar(more[k])
    ensures var head := key + more;
            (forall k :: 0 <= k < |head| ==> HeadChar(head[k]))
            && head[0] != ' ' && !OpensItem(head) && !IsMarker(head) && head[|head| - 1] == more[|more| - 1]
  {
    var head := key + more;
    assert forall k :: 0 <= k < |key| ==> IsKeyChar(key[k]);
    assert head[..|key|] == key && head[|key|] == ':' && head[0] == key[0];
    assert |key| > 1 ==> head[1] == key[1];
    assert ':' in head;
  }

  lemma KeyRowOk(key: string, item: Node, indent: nat)
    requires BareKey(key) && (item.Empty? || Renderable(item)) && indent % 2 == 0
    ensures RowOk(KeyRow(key, item, indent))
  {
    var more := if !item.Scalar? then ":" else if item.quoted then ": " else ": " + item.text;
    assert item.Scalar? && !item.quoted ==> forall k :: 0 <= k < |item.text| ==> IsKeyChar(item.text[k]);
    assert item.Scalar? && item.quoted ==> WellFormed(item.text);
    KeyHeadOk(key, more);
    assert item.Scalar? && !item.quoted ==> key + more == key + ": " + item.text;
    hide Renderable, WellFormed, OpensItem, IsMarker, IsKeyChar;
  }

  lemma ScalarRowOk(text: string, quoted: bool, indent: nat)
    requires indent % 2 == 0 && if quoted then WellFormed(text) else BareWord(text)
    ensures RowOk(ScalarRow(indent, "", text, quoted))
  {
    if !quoted {
      assert "" + text == text;
      assert forall k :: 0 <= k < |text| ==> IsKeyChar(text[k]);
      assert !IsMarker(text) by { assert "..."[0] == '.'; }
    }
  }

  lemma {:induction false} AllRowsOk(n: Node, indent: nat)
    requires Renderable(n) && indent % 2 == 0
    ensures RowsOk(Rows(n, indent))
    decreases n, 1
  {
    match n {
      case Scalar(text, quoted, _) => ScalarRowOk(text, quoted, indent);
      case Empty(_) =>
      case Seq(items, _) => ItemRowsOk(items, indent);
      case Map(keys, items, _) => EntryRowsOk(keys, items, indent);
    }
  }

  lemma {:induction false} ItemRowsOk(items: seq<Node>, indent: nat)
    requires indent % 2 == 0 && forall k :: 0 <= k < |items| ==> Renderable(items[k])
    ensures RowsOk(ItemRows(items, indent))
    decreases items, 0
  {
    hide RowOk, Rows;
    if items != [] {
      var open := Row(indent, true, "", None);
      DashOk(indent);
      AllRowsOk(items[0], indent + 2);
      ItemRowsOk(items[1..], indent);
      RowsOkConcat([open], Rows(items[0], indent + 2));
      RowsOkConcat([open] + Rows(items[0], indent + 2), ItemRows(items[1..], indent));
    }
  }

  lemma DashOk(indent: nat)
    requires indent % 2 == 0
    ensures RowOk(Row(indent, true, "", None))
  {
  }

  lemma RowsOkConcat(a: seq<Row>, b: seq<Row>)
    requires RowsOk(a) && RowsOk(b)
    ensures RowsOk(a + b)
  {
    hide RowOk;
  }

  lemma {:induction false} EntryRowsOk(keys: seq<string>, items: seq<Node>, indent: nat)
    requires |keys| == |items| && indent % 2 == 0 && forall k :: 0 <= k < |keys| ==> BareKey(keys[k])
    requires forall k :: 0 <= k < |items| ==> items[k].Empty? || Renderable(items[k])
    ensures RowsOk(EntryRows(keys, items, indent))
    decreases items, 0
  {
    hide RowOk, Rows, KeyRow, BareKey;
    if items != [] {
      var open := KeyRow(keys[0], items[0], indent);
      KeyRowOk(keys[0], items[0], indent);
      if !items[0].Scalar? && !items[0].Empty? { AllRowsOk(items[0], indent + 2); }
      EntryRowsOk(keys[1..], items[1..], indent);
      var child := ChildRows(items[0], indent + 2);
      RowsOkConcat([open], child);
      RowsOkConcat([open] + child, EntryRows(keys[1..], items[1..], indent));
    }
  }

  // ---- one line ----

  lemma EscapeFirst(s: string)
    requires s != ""
    ensures Escape(s) == EscapeChar(s[0]) + Escape(s[1..])
  {
    hide EscapeChar;
  }

  lemma EscapeNone()
    ensures Escape("") == ""
  {
  }

  lemma {:induction false} EscapeConcat(a: string, b: string)
    ensures Escape(a + b) == Escape(a) + Escape(b)
  {
    hide Escape, EscapeChar;
    if a == "" {
      EscapeNone();
      assert a + b == b;
    } else {
      EscapeFirst(a);
      EscapeFirst(a + b);
      EscapeConcat(a[1..], b);
      assert (a + b)[1..] == a[1..] + b && (a + b)[0] == a[0];
      var first, more, rest := EscapeChar(a[0]), Escape(a[1..]), Escape(b);
      assert first + (more + rest) == first + more + rest;
    }
  }

  lemma {:induction false} EscapeHigh(s: string)
    requires forall k :: 0 <= k < |s| ==> s[k] as int >= 0x80
    ensures Escape(s) == s
  {
    if s != "" { EscapeHigh(s[1..]); }
  }

  lemma EncodeHigh(v: nat)
    requires ScalarValue(v) && v >= 0x80
    ensures forall k :: 0 <= k < |Encode(v)| ==> Encode(v)[k] as int >= 0x80
  {
  }

  lemma {:induction false} EscapeAllWellFormed(vs: seq<nat>)
    requires ScalarValues(vs)
    ensures WellFormed(Escape(EncodeAll(vs)))
  {
    if vs == [] {
      AsciiWellFormed("");
    } else {
      var first, rest := Encode(vs[0]), EncodeAll(vs[1..]);
      EscapeAllWellFormed(vs[1..]);
      EscapeConcat(first, rest);
      EscapeOneWellFormed(vs[0]);
      WellFormedConcat(Escape(first), Escape(rest));
    }
  }

  lemma EscapeOneWellFormed(v: nat)
    requires ScalarValue(v)
    ensures WellFormed(Escape(Encode(v)))
  {
    if v >= 0x80 {
      EncodeHigh(v);
      EscapeHigh(Encode(v));
      WellFormedScalar(v);
    } else {
      var s := Encode(v);
      assert Escape(s) == EscapeChar(s[0]) + Escape(s[1..]);
      assert Escape(s[1..]) == "";
      AsciiWellFormed(Escape(s));
    }
  }

  /** Escaping keeps a text valid UTF-8. */
  lemma EscapeWellFormed(text: string)
    requires WellFormed(text)
    ensures WellFormed(Escape(text))
  {
    var vs :| ScalarValues(vs) && text == EncodeAll(vs);
    EscapeAllWellFormed(vs);
  }

  lemma HeadWellFormed(s: string)
    requires forall k :: 0 <= k < |s| ==> HeadChar(s[k]) || s[k] == '"'
    ensures WellFormed(s) && '\t' !in s && '\n' !in s
  {
    AsciiWellFormed(s);
  }

  lemma RowTextOneLine(r: Row)
    requires RowOk(r)
    ensures OneLine(r.Text())
  {
    hide WellFormed, Escape;
    HeadWellFormed(r.head);
    if r.leaf.Some? {
      var inside := Escape(r.leaf.value);
      EscapeWellFormed(r.leaf.value);
      EscapeReads(r.leaf.value);
      HeadWellFormed("\"");
      WellFormedConcat("\"", inside);
      WellFormedConcat("\"" + inside, "\"");
      WellFormedConcat(r.head, "\"" + inside + "\"");
      assert r.Text() == r.head + ("\"" + inside + "\"");
    } else {
      assert r.Text() == r.head;
    }
  }

  lemma OneLineConcat(a: string, b: string)
    requires OneLine(a) && OneLine(b)
    ensures OneLine(a + b)
  {
    hide WellFormed;
    WellFormedConcat(a, b);
  }

  /** Past the content of a line, a trail is cut at its comment and the rest of it is space. */
  lemma {:induction false} RemarkEnds(line: string, i: nat)
    requires i <= |line| && Remark(line[i..]) && (i == |line| || IsSpace(line[i]) || Opens(line, i))
    ensures forall k :: i <= k < ContentEnd(line, i) ==> IsSpace(line[k])
    decreases |line| - i
  {
    if i < |line| && IsSpace(line[i]) {
      assert line[i..][0] == line[i] && line[i..][1..] == line[i + 1..];
      RemarkEnds(line, i + 1);
    }
  }

  /** A row's text is all content: the comment stripper walks through it to its end. */
  lemma RowTextIsContent(before: string, r: Row, trail: string)
    requires RowOk(r) && !r.dash && IsTrail(trail)
    requires (forall k :: 0 <= k < |before| ==> HeadChar(before[k])) && (before != "" ==> before[|before| - 1] == ' ')
    ensures var line := before + r.Text() + trail;
            ContentEnd(line, 0) == ContentEnd(line, |before + r.Text()|)
  {
    hide WellFormed, Escape, ContentEnd, Remark, OneLine;
    var open := before + r.head;
    assert forall k :: 0 <= k < |open| ==> HeadChar(open[k]);
    if r.leaf.Some? {
      EscapeReads(r.leaf.value);
      assert open != "" ==> open[|open| - 1] == ' ';
      QuotedContent(before, r.head, Escape(r.leaf.value), trail);
    } else {
      assert before + r.Text() == open;
      HeadContent(open, trail);
    }
  }

  lemma HeadContent(open: string, trail: string)
    requires forall k :: 0 <= k < |open| ==> HeadChar(open[k])
    ensures ContentEnd(open + trail, 0) == ContentEnd(open + trail, |open|)
  {
    hide ContentEnd;
    HeadsAreUnmarked();
    var line := open + trail;
    assert forall k :: 0 <= k < |open| ==> line[k] == open[k];
    SkipUnmarked(line, 0, |open|);
  }

  lemma QuotedContent(before: string, head: string, body: string, trail: string)
    requires QuotedBody(body, '"') && (trail == "" || IsSpace(trail[0]))
    requires var open := before + head;
             (forall k :: 0 <= k < |open| ==> HeadChar(open[k])) && (open != "" ==> open[|open| - 1] == ' ')
    ensures var text := head + ("\"" + body + "\"");
            ContentEnd(before + text + trail, 0) == ContentEnd(before + text + trail, |before + text|)
  {
    hide ContentEnd, QuotedBody;
    var open := before + head;
    var line := before + (head + ("\"" + body + "\"")) + trail;
    QuotedParts(before, head, body, trail);
    HeadContent(open, line[|open|..]);
    assert line == open + line[|open|..];
    SkipQuoted(line, |open|, body, trail);
  }

  lemma HeadsAreUnmarked()
    ensures forall c :: HeadChar(c) ==> Unmarked(c)
  {
  }

  lemma QuotedParts(before: string, head: string, body: string, trail: string)
    ensures var open := before + head;
            var line := before + (head + ("\"" + body + "\"")) + trail;
            |line| == |open| + 1 + |body| + 1 + |trail| && line[..|open|] == open
            && line[|open|] == '"' && line[|open| + 1..] == body + ['"'] + trail
  {
  }

  /** A quoted run that opens after a space is passed over whole, whatever it holds. */
  lemma SkipQuoted(line: string, i: nat, body: string, trail: string)
    requires i < |line| && line[i] == '"' && line[i + 1..] == body + ['"'] + trail
    requires Opens(line, i) && QuotedBody(body, '"') && (trail == "" || IsSpace(trail[0]))
    ensures i + 1 + |body| + 1 <= |line| && ContentEnd(line, i) == ContentEnd(line, i + 1 + |body| + 1)
  {
    hide FindClose;
    CloseAfterBody(body, '"', trail);
    assert |line[i + 1..]| == |body| + 1 + |trail|;
    assert Skip(line, i) == i + 1 + |body| + 1;
  }

  lemma RowTextEdges(r: Row)
    requires RowOk(r) && !r.dash
    ensures r.Text() != "" && !IsSpace(r.Text()[0]) && !IsSpace(r.Text()[|r.Text()| - 1])
    ensures !OpensItem(r.Text()) && !IsMarker(r.Text())
  {
    hide WellFormed, Escape;
    var t := r.Text();
    if r.head != "" {
      assert t[0] == r.head[0] && HeadChar(r.head[0]);
      assert |r.head| > 1 ==> t[1] == r.head[1];
    } else {
      assert t[0] == '"';
    }
    if r.leaf.Some? {
      assert t[|t| - 1] == '"';
    } else {
      assert t == r.head && HeadChar(r.head[|r.head| - 1]);
    }
  }

  /** What is left of a line once its comment and its trailing space are gone. */
  lemma ContentOf(content: string, trail: string)
    requires content != "" && !IsSpace(content[|content| - 1]) && Remark(trail) && (trail != "" ==> IsSpace(trail[0]))
    requires ContentEnd(content + trail, 0) == ContentEnd(content + trail, |content|)
    ensures var line := content + trail; TrimEnd(line[..ContentEnd(line, 0)]) == content
  {
    hide ContentEnd;
    var line := content + trail;
    assert line[|content|..] == trail;
    assert |content| < |line| ==> line[|content|] == trail[0];
    RemarkEnds(line, |content|);
    var kept := line[..ContentEnd(line, 0)];
    assert kept[..|content|] == content;
    TrimEndAt(kept, |content|);
  }

  predicate AreRows(ls: seq<Line>, rows: seq<Row>) {
    |ls| == |rows| && forall k :: 0 <= k < |rows| ==> IsRow(ls[k], rows[k])
  }

  ghost predicate LexesTo(r: Option<seq<Line>>, rows: seq<Row>) { r.Some? && AreRows(r.value, rows) }

  /** A line that is spaces, then content, then a trail. */
  lemma LexIndented(indent: nat, content: string, trail: string, no: nat)
    requires OneLine(content) && IsTrail(trail)
    requires content != "" && !IsSpace(content[0]) && !IsSpace(content[|content| - 1])
    requires var line := Spaces(indent) + content + trail;
             ContentEnd(line, 0) == ContentEnd(line, indent + |content|)
    ensures LexLine(Spaces(indent) + content + trail, no) == LexContent(indent, content, no)
  {
    hide WellFormed, ContentEnd, LexContent;
    var pad := Spaces(indent);
    HeadWellFormed(pad);
    OneLineConcat(pad, content);
    OneLineConcat(pad + content, trail);
    ContentOf(pad + content, trail);
    IndentUnique(pad + content, indent);
    assert (pad + content)[indent..] == content;
  }

  lemma LexTextRow(r: Row, trail: string, no: nat)
    requires RowOk(r) && !r.dash && IsTrail(trail)
    ensures LexesTo(LexLine(Spaces(r.indent) + r.Text() + trail, no), [r])
  {
    hide WellFormed, ContentEnd, Escape, Remark, LexLine;
    RowTextEdges(r);
    RowTextOneLine(r);
    RowTextIsContent(Spaces(r.indent), r, trail);
    LexIndented(r.indent, r.Text(), trail, no);
  }

  lemma LexDashRow(r: Row, trail: string, no: nat)
    requires RowOk(r) && r.dash && IsTrail(trail)
    ensures LexesTo(LexLine(Spaces(r.indent) + "-" + trail, no), [r])
  {
    hide WellFormed, ContentEnd, Remark, LexLine;
    var pad := Spaces(r.indent);
    var line := pad + "-" + trail;
    assert forall k :: 0 <= k < r.indent ==> line[k] == pad[k];
    SkipUnmarked(line, 0, r.indent + 1);
    HeadWellFormed("-");
    LexIndented(r.indent, "-", trail, no);
    assert TrimStart("-"[1..]) == "";
  }

  lemma LexJoinedRows(r: Row, item: Row, trail: string, no: nat)
    requires RowOk(r) && r.dash && RowOk(item) && !item.dash && item.indent == r.indent + 2 && IsTrail(trail)
    ensures LexesTo(LexLine(Spaces(r.indent) + "- " + item.Text() + trail, no), [r, item])
  {
    hide WellFormed, ContentEnd, Escape, Remark, LexLine, RowOk, Row.Text, LexContent, OneLine;
    RowOkParts(r);
    var pad := Spaces(r.indent);
    var content := "- " + item.Text();
    RowTextEdges(item);
    RowTextOneLine(item);
    HeadWellFormed("- ");
    OneLineOf("- ");
    OneLineConcat("- ", item.Text());
    JoinedParts(pad, item.Text(), trail);
    HeadsOf(pad);
    RowTextIsContent(pad + "- ", item, trail);
    LexIndented(r.indent, content, trail, no);
    ItemText(item.Text());
    LexItem(r.indent, item.Text(), no);
  }

  lemma OneLineOf(s: string)
    requires WellFormed(s) && '\t' !in s && '\n' !in s
    ensures OneLine(s)
  {
  }

  lemma HeadsOf(pad: string)
    requires forall k :: 0 <= k < |pad| ==> pad[k] == ' '
    ensures forall k :: 0 <= k < |pad + "- "| ==> HeadChar((pad + "- ")[k])
  {
  }

  lemma JoinedParts(pad: string, text: string, trail: string)
    ensures pad + "- " + text + trail == pad + ("- " + text) + trail
    ensures |pad + "- " + text| == |pad| + |"- " + text|
    ensures (pad + "- ")[|pad + "- "| - 1] == ' '
    ensures text != "" ==> ("- " + text)[|"- " + text| - 1] == text[|text| - 1]
  {
  }

  lemma LexItem(indent: nat, text: string, no: nat)
    requires indent % 2 == 0 && text != "" && !IsSpace(text[0])
    requires var content := "- " + text; OpensItem(content) && !IsMarker(content) && content[2] != ' '
    requires !(|text| >= 2 && text[0] == '-' && text[1] == ' ')
    ensures LexContent(indent, "- " + text, no) == Some([Line(indent, true, "", no), Line(indent + 2, false, text, no)])
  {
    var content := "- " + text;
    var after := content[1..];
    assert after[0] == ' ' && after[1..] == text;
    TrimNothing(text);
    assert TrimStart(after) == text;
  }

  lemma RowOkParts(r: Row)
    requires RowOk(r) && r.dash
    ensures r.indent % 2 == 0 && r.Text() == ""
  {
  }

  lemma ItemText(t: string)
    requires t != "" && !IsSpace(t[0]) && !OpensItem(t)
    ensures var content := "- " + t; OpensItem(content) && !IsMarker(content) && |content| >= 3 && content[2] != ' '
    ensures !(|t| >= 2 && t[0] == '-' && t[1] == ' ')
  {
  }

  lemma LexPhysical(rows: seq<Row>, trail: string, no: nat)
    requires rows != [] && RowsOk(rows) && IsTrail(trail)
    ensures LexesTo(LexLine(FirstPhysical(rows).text + trail, no), FirstPhysical(rows).rows)
    ensures '\n' !in FirstPhysical(rows).text + trail
  {
    hide RowOk, LexLine, LexesTo, WellFormed, Remark;
    var r := rows[0];
    HeadWellFormed(Spaces(r.indent));
    if Joins(rows) {
      LexJoinedRows(r, rows[1], trail, no);
      RowTextOneLine(rows[1]);
      assert rows[..2] == [r, rows[1]];
    } else {
      assert rows[..1] == [r];
      if r.dash {
        LexDashRow(r, trail, no);
      } else {
        LexTextRow(r, trail, no);
        RowTextOneLine(r);
      }
    }
  }

  /** A blank line, or a line that is all comment, is nothing. */
  lemma LexBlank(b: string, no: nat)
    requires OneLine(b) && Remark(b)
    ensures LexLine(b, no) == Some([])
  {
    hide WellFormed, ContentEnd;
    assert b[0..] == b;
    RemarkEnds(b, 0);
    var kept := b[..ContentEnd(b, 0)];
    TrimEndAt(kept, 0);
    assert TrimEnd(kept) == "";
  }

  // ---- the file ----

  lemma LexFirstLine(line: string, rest: string, no: nat)
    requires '\n' !in line
    ensures var first, others := LexLine(line, no), LexText(rest, no + 1);
            LexText(line + "\n" + rest, no)
              == if first.Some? && others.Some? then Some(first.value + others.value) else None
  {
    hide LexLine, LexText;
    var src := line + ['\n'] + rest;
    IndexOfConcat(line, '\n', rest);
    LexTextUnfold(src, no);
    assert src[..|line|] == line && src[|line| + 1..] == rest;
  }

  lemma {:induction false} LexBlanks(blanks: seq<string>, rest: string, no: nat)
    requires forall b :: b in blanks ==> OneLine(b) && Remark(b)
    ensures LexText(Blanks(blanks) + rest, no) == LexText(rest, no + |blanks|)
  {
    hide LexLine, LexText, WellFormed, Remark;
    if blanks == [] {
      assert Blanks(blanks) + rest == rest;
    } else {
      var more := Blanks(blanks[1..]) + rest;
      LexBlank(blanks[0], no);
      LexFirstLine(blanks[0], more, no);
      LexBlanks(blanks[1..], rest, no + 1);
      assert Blanks(blanks) + rest == blanks[0] + "\n" + more;
      WithNothing(LexText(more, no + 1));
    }
  }

  lemma AreRowsConcat(a: seq<Line>, b: seq<Line>, ra: seq<Row>, rb: seq<Row>)
    requires AreRows(a, ra) && AreRows(b, rb)
    ensures AreRows(a + b, ra + rb)
  {
    hide IsRow;
  }

  lemma {:induction false} LexFile(rows: seq<Row>, decor: seq<Decor>, no: nat)
    requires |decor| >= |rows| && RowsOk(rows) && forall d :: d in decor ==> IsDecor(d)
    ensures LexesTo(LexText(FileText(rows, decor), no), rows)
    decreases |rows|
  {
    hide LexLine, LexText, RowOk, AreRows, FirstPhysical, OneLine, Remark, IsTrail, FileText, Blanks;
    if rows == [] {
      NoLines(no, decor);
    } else {
      var p, d := FirstPhysical(rows), decor[0];
      var line := p.text + d.trail;
      var rest := FileText(rows[|p.rows|..], decor[1..]);
      assert IsDecor(d);
      LexPhysical(rows, d.trail, no);
      LexFirstLine(line, Blanks(d.blanks) + rest, no);
      LexBlanks(d.blanks, rest, no + 1);
      LexFile(rows[|p.rows|..], decor[1..], no + 1 + |d.blanks|);
      FileTextUnfold(rows, decor);
      AreRowsConcat(LexLine(line, no).value, LexText(rest, no + 1 + |d.blanks|).value, p.rows, rows[|p.rows|..]);
      assert p.rows + rows[|p.rows|..] == rows;
    }
  }

  lemma FileTextUnfold(rows: seq<Row>, decor: seq<Decor>)
    requires rows != [] && |decor| >= |rows|
    ensures var p, d := FirstPhysical(rows), decor[0];
            FileText(rows, decor)
              == p.text + d.trail + "\n" + (Blanks(d.blanks) + FileText(rows[|p.rows|..], decor[1..]))
  {
    hide FirstPhysical, Blanks;
  }

  lemma NoLines(no: nat, decor: seq<Decor>)
    ensures FileText([], decor) == "" && LexText("", no) == Some([]) && AreRows([], [])
  {
  }


  /** The canonical file of a tree, with whatever `decor` adds. */
  function Render(n: Node, decor: seq<Decor>): string
    requires |decor| >= |Rows(n, 0)|
  {
    FileText(Rows(n, 0), decor)
  }

  /**
    Every renderable tree is read back from its file, whatever comments, blank
    lines and trailing space are added to it: the lexer, the comment stripper,
    the quoting and the descent agree on where everything ends.
   */
  lemma RenderRoundTrip(n: Node, decor: seq<Decor>)
    requires Renderable(n) && |decor| >= |Rows(n, 0)| && forall d :: d in decor ==> IsDecor(d)
    ensures var r := ParseText(Render(n, decor)); r.Some? && SameTree(r.value, n)
  {
    hide Rows, LexText, FileText, RowsOk, Build, IsRow, IsDecor, SameTree, Renderable;
    var rows := Rows(n, 0);
    AllRowsOk(n, 0);
    LexFile(rows, decor, 1);
    var ls := LexText(Render(n, decor), 1).value;
    RowsOpen(n, 0);
    BuildRows(n, 0, ls, 0);
  }
}
