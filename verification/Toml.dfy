/**
  `Doc::parse` of crates/xtask/src/toml.rs: the pairs that open a document, and a
  table of pairs for each `[[name]]` after them, a line at a time. A document written
  out, with whatever comments and space around its lines, is read as itself.
 */
module Toml {
  import opened Common
  import opened Decimal
  import YamlScan
  import opened TomlScan

  // ---- one line ----

  datatype Entry = Blank | Header(name: string) | Pair(key: string, value: TomlScan.Value)

  /** What the content of a line is, its comment and space gone. */
  function ReadContent(content: string): Option<Entry> {
    if content == "" then Some(Blank)
    else if "[[" <= content then
      var rest := content[2..];
      if |rest| < 2 || rest[|rest| - 2..] != "]]" then None
      else
        var name := Trim(rest[..|rest| - 2]);
        if YamlScan.BareKey(name) then Some(Header(name)) else None
    else if content[0] == '[' then None
    else
      var i := IndexOf(content, '=');
      if i == |content| then None
      else
        var key := Trim(content[..i]);
        if !YamlScan.BareKey(key) then None
        else
          match ReadValue(Trim(content[i + 1..]))
          case None => None
          case Some(value) => Some(Pair(key, value))
  }

  function ReadLine(raw: string): Option<Entry> { ReadContent(Trim(raw[..Cut(raw, false)])) }

  // ---- a document ----

  datatype Table = Table(line: nat, pairs: seq<(string, TomlScan.Value)>)

  datatype Doc = Doc(root: Table, arrays: map<string, seq<Table>>)

  /** What is read so far, and the array whose last table pairs go to. */
  datatype State = State(doc: Doc, open: Option<string>) {
    predicate Valid() { open.Some? ==> open.value in doc.arrays && doc.arrays[open.value] != [] }
  }

  const START := State(Doc(Table(0, []), map[]), None)

  predicate HasKey(t: Table, key: string) { exists i :: 0 <= i < |t.pairs| && t.pairs[i].0 == key }

  function Tables(arrays: map<string, seq<Table>>, name: string): seq<Table> {
    if name in arrays then arrays[name] else []
  }

  function Apply(st: State, e: Entry, line: nat): (r: Option<State>)
    requires st.Valid()
    ensures r.Some? ==> r.value.Valid()
  {
    match e
    case Blank => Some(st)
    case Header(name) =>
      var arrays := st.doc.arrays[name := Tables(st.doc.arrays, name) + [Table(line, [])]];
      Some(State(Doc(st.doc.root, arrays), Some(name)))
    case Pair(key, value) =>
      if st.open.None? then
        var t := st.doc.root;
        if HasKey(t, key) then None
        else Some(State(Doc(t.(pairs := t.pairs + [(key, value)]), st.doc.arrays), None))
      else
        var tables := st.doc.arrays[st.open.value];
        var n := |tables| - 1;
        var t := tables[n];
        if HasKey(t, key) then None
        else
          var more := tables[..n] + [t.(pairs := t.pairs + [(key, value)])];
          Some(State(Doc(st.doc.root, st.doc.arrays[st.open.value := more]), st.open))
  }

  /** The lines from number `n` on. */
  function ReadLines(st: State, raws: seq<string>, n: nat): (r: Option<State>)
    requires st.Valid()
    decreases |raws|
  {
    if raws == [] then Some(st)
    else
      match ReadLine(raws[0])
      case None => None
      case Some(e) =>
        match Apply(st, e, n)
        case None => None
        case Some(next) => ReadLines(next, raws[1..], n + 1)
  }

  function ReadDoc(text: string): Option<Doc> {
    match ReadLines(START, Lines(text), 1)
    case None => None
    case Some(st) => Some(st.doc)
  }

  /** The body of the loop up to the table a pair goes to. */
  method ParseLine(raw: string) returns (r: Option<Entry>)
    ensures r == ReadLine(raw)
  {
    hide Cut, Trim, ReadValue;
    var n := StripComment(raw);
    var content := Trim(raw[..n]);
    if content == "" {
      return Some(Blank);
    }
    if "[[" <= content {
      var rest := content[2..];
      if |rest| < 2 || rest[|rest| - 2..] != "]]" {
        return None;
      }
      var name := Trim(rest[..|rest| - 2]);
      return if YamlScan.BareKey(name) then Some(Header(name)) else None;
    }
    if content[0] == '[' {
      return None;
    }
    var i := IndexOf(content, '=');
    if i == |content| {
      return None;
    }
    var key := Trim(content[..i]);
    if !YamlScan.BareKey(key) {
      return None;
    }
    var value := ParseValue(Trim(content[i + 1..]));
    return if value.Some? then Some(Pair(key, value.value)) else None;
  }

  /** `Doc::parse`, the document and the open array updated line by line. */
  method Parse(text: string) returns (r: Option<Doc>)
    ensures r == ReadDoc(text)
  {
    hide ReadLine, Lines, ReadLines, HasKey;
    var root, arrays := Table(0, []), map[];
    var open: Option<string> := None;
    var raws := Lines(text);
    assert raws[0..] == raws;
    for i := 0 to |raws|
      invariant State(Doc(root, arrays), open).Valid()
      invariant ReadLines(State(Doc(root, arrays), open), raws[i..], i + 1) == ReadLines(START, raws, 1)
    {
      LinesStep(State(Doc(root, arrays), open), raws, i);
      var entry := ParseLine(raws[i]);
      if entry.None? {
        return None;
      }
      var e := entry.value;
      if e.Header? {
        arrays := arrays[e.name := Tables(arrays, e.name) + [Table(i + 1, [])]];
        open := Some(e.name);
      } else if e.Pair? {
        if open.None? {
          if HasKey(root, e.key) {
            return None;
          }
          root := Table(root.line, root.pairs + [(e.key, e.value)]);
        } else {
          var tables := arrays[open.value];
          var last := tables[|tables| - 1];
          if HasKey(last, e.key) {
            return None;
          }
          last := Table(last.line, last.pairs + [(e.key, e.value)]);
          arrays := arrays[open.value := tables[..|tables| - 1] + [last]];
        }
      }
    }
    LinesEnd(State(Doc(root, arrays), open), raws[|raws|..], |raws| + 1);
    return Some(Doc(root, arrays));
  }

  lemma LinesEnd(st: State, raws: seq<string>, n: nat)
    requires st.Valid() && raws == []
    ensures ReadLines(st, raws, n) == Some(st)
  {
  }

  lemma LinesStep(st: State, raws: seq<string>, i: nat)
    requires i < |raws| && st.Valid()
    ensures ReadLines(st, raws[i..], i + 1) ==
      (if ReadLine(raws[i]).None? then None
       else
         match Apply(st, ReadLine(raws[i]).value, i + 1)
         case None => None
         case Some(next) => ReadLines(next, raws[i + 1..], i + 2))
  {
    hide ReadLine, Apply;
    assert raws[i..][1..] == raws[i + 1..];
  }

  // ---- writing a line ----

  /** What may stand around the content of a line. */
  datatype Layout = Layout(indent: string, gap: string, comment: string) {
    predicate Good() {
      AllWhite(indent) && AllWhite(gap) && '\n' !in indent && '\n' !in gap && '\n' !in comment &&
      (comment == "" || comment[0] == '#')
    }

    function Around(content: string): string { indent + content + gap + comment }
  }

  function EntryText(e: Entry): string
    requires Good(e)
  {
    match e
    case Blank => ""
    case Header(name) => "[[" + name + "]]"
    case Pair(key, value) => key + " = " + ValueText(value)
  }

  predicate Good(e: Entry) {
    match e
    case Blank => true
    case Header(name) => YamlScan.BareKey(name)
    case Pair(key, value) => YamlScan.BareKey(key) && Writable(value)
  }

  lemma WhitePlain(s: string)
    requires AllWhite(s)
    ensures Plain(s)
  {
  }

  lemma {:induction false} ListScans(items: seq<string>)
    ensures Scan(ListBody(items), false) == Some(false)
    ensures '\n' !in ListBody(items)
  {
    hide Scan, Encoded;
    if items == [] {
      ScanPlain("", false);
    } else {
      StringScans(items[0]);
      if |items| > 1 {
        ListScans(items[1..]);
        ScanPlain(", ", false);
        ScanAfter(Quoted(items[0]), ", ", false);
        ScanAfter(Quoted(items[0]) + ", ", ListBody(items[1..]), false);
      }
    }
  }

  lemma StringScans(s: string)
    ensures Scan(Quoted(s), false) == Some(false)
    ensures '\n' !in Quoted(s)
  {
    hide Encoded;
    EncodedReads(s);
    EncodedOneLine(s);
    QuoteTurns();
    ScanAfter("\"", Encoded(s), false);
    ScanAfter("\"" + Encoded(s), "\"", false);
  }

  lemma QuoteTurns()
    ensures Scan("\"", false) == Some(true) && Scan("\"", true) == Some(false)
  {
    assert Scan("", true) == Some(true) && Scan("", false) == Some(false);
    assert "\""[1..] == "";
  }

  lemma ValueScans(v: TomlScan.Value)
    requires v.Int? ==> v.i >= 0
    ensures Scan(ValueText(v), false) == Some(false) && Visible(ValueText(v)) && '\n' !in ValueText(v)
  {
    hide Scan, Encoded, ListBody, Dec;
    match v
    case Str(s) =>
      StringScans(s);
      StringReads(s);
    case Int(i) =>
      assert AllDigits(Dec(i));
      ScanPlain(Dec(i), false);
    case Bool(b) =>
      ScanPlain(ValueText(v), false);
    case List(items) =>
      ListScans(items);
      ScanPlain("[", false);
      ScanPlain("]", false);
      ScanAfter("[", ListBody(items), false);
      ScanAfter("[" + ListBody(items), "]", false);
  }

  /** A line's content ends outside every string, has no comment in it, and is seen from both sides. */
  lemma EntryScans(e: Entry)
    requires Good(e)
    ensures Scan(EntryText(e), false) == Some(false) && '\n' !in EntryText(e)
    ensures EntryText(e) == "" || Visible(EntryText(e))
  {
    hide Scan, ValueText;
    match e
    case Blank => ScanPlain("", false);
    case Header(name) => ScanPlain(EntryText(e), false);
    case Pair(key, value) =>
      ValueScans(value);
      ScanPlain(key + " = ", false);
      ScanAfter(key + " = ", ValueText(value), false);
  }

  /** The comment and the space go, and the content is left. */
  lemma ContentFound(l: Layout, content: string)
    requires l.Good() && Scan(content, false) == Some(false) && (content == "" || Visible(content))
    ensures Trim(l.Around(content)[..Cut(l.Around(content), false)]) == content
  {
    hide Scan, Cut, Trim, White;
    var front := l.indent + content + l.gap;
    WhitePlain(l.indent);
    WhitePlain(l.gap);
    ScanPlain(l.indent, false);
    ScanPlain(l.gap, false);
    ScanAfter(l.indent, content, false);
    ScanAfter(l.indent + content, l.gap, false);
    CutAfter(front, l.comment, false);
    NoMoreContent(l.comment);
    assert l.Around(content)[..|front|] == front;
    if content == "" {
      TrimNothing(front);
    } else {
      TrimOver(l.indent, content, l.gap);
    }
  }

  lemma NoMoreContent(comment: string)
    requires comment == "" || comment[0] == '#'
    ensures Cut(comment, false) == 0
  {
  }

  lemma BareSeen(key: string)
    requires YamlScan.BareKey(key)
    ensures Visible(key) && '=' !in key && key[0] != '['
  {
  }

  lemma BareTrims(key: string)
    requires YamlScan.BareKey(key)
    ensures Trim(key) == key && Trim(key + " ") == key && key != "" && '=' !in key && key[0] != '['
  {
    hide Trim, White, YamlScan.BareKey;
    BareSeen(key);
    SpaceIsWhite();
    TrimOver("", key, "");
    TrimOver("", key, " ");
    assert "" + key + "" == key && "" + key + " " == key + " ";
  }

  lemma HeaderReads(name: string)
    requires YamlScan.BareKey(name)
    ensures ReadContent("[[" + name + "]]") == Some(Header(name))
  {
    hide Trim, ReadValue, YamlScan.BareKey;
    BareTrims(name);
    var text := "[[" + name + "]]";
    var rest := text[2..];
    assert rest == name + "]]";
    assert rest[|rest| - 2..] == "]]" && rest[..|rest| - 2] == name;
  }

  lemma PairReads(key: string, value: string, v: TomlScan.Value)
    requires YamlScan.BareKey(key) && Visible(value) && ReadValue(value) == Some(v)
    ensures ReadContent(key + " = " + value) == Some(Pair(key, v))
  {
    hide Trim, ReadValue, White, YamlScan.BareKey;
    BareTrims(key);
    var text, front, back := key + " = " + value, key + " ", " " + value;
    assert text == front + ['='] + back;
    IndexOfConcat(front, '=', back);
    assert text[..|front|] == front && text[|front| + 1..] == back;
    SpaceIsWhite();
    TrimOver(" ", value, "");
    assert " " + value + "" == back;
    assert text[0] == key[0];
  }

  lemma ContentReads(e: Entry)
    requires Good(e)
    ensures ReadContent(EntryText(e)) == Some(e)
  {
    hide Trim, ReadValue, ValueText, White, YamlScan.BareKey;
    match e
    case Blank =>
    case Header(name) => HeaderReads(name);
    case Pair(key, value) =>
      ValueScans(value);
      ValueReads(value);
      PairReads(key, ValueText(value), value);
  }

  lemma LineReads(l: Layout, e: Entry)
    requires l.Good() && Good(e)
    ensures ReadLine(l.Around(EntryText(e))) == Some(e)
  {
    hide Scan, Cut, Trim, EntryText, ReadContent;
    EntryScans(e);
    ContentReads(e);
    ContentFound(l, EntryText(e));
  }

  function ChopLast(s: string): string
    requires s != ""
  { s[..|s| - 1] }

  /** A carriage return at the end of a line was part of what stands around its content. */
  lemma ChopAround(l: Layout, content: string) returns (k: Layout)
    requires l.Good() && (content == "" || Visible(content))
    ensures k.Good() && Chop(l.Around(content)) == k.Around(content)
  {
    var raw := l.Around(content);
    k := l;
    if raw != "" && raw[|raw| - 1] == '\r' {
      if l.comment != "" {
        assert l.comment[|l.comment| - 1] == '\r';
        k := Layout(l.indent, l.gap, ChopLast(l.comment));
      } else if l.gap != "" {
        k := Layout(l.indent, ChopLast(l.gap), "");
      } else if content == "" {
        k := Layout(ChopLast(l.indent), "", "");
      }
    }
  }

  // ---- writing a document ----

  function TextOf(layouts: seq<Layout>, entries: seq<Entry>): string
    requires |layouts| == |entries| && forall e :: e in entries ==> Good(e)
  {
    if entries == [] then ""
    else layouts[0].Around(EntryText(entries[0])) + ['\n'] + TextOf(layouts[1..], entries[1..])
  }

  /** The entries done one after another. */
  function ApplyAll(st: State, entries: seq<Entry>, n: nat): (r: Option<State>)
    requires st.Valid()
    ensures r.Some? ==> r.value.Valid()
    decreases |entries|
  {
    if entries == [] then Some(st)
    else
      match Apply(st, entries[0], n)
      case None => None
      case Some(next) => ApplyAll(next, entries[1..], n + 1)
  }

  /** Reading the lines written is doing the entries they were written for. */
  lemma {:induction false} LinesRead(layouts: seq<Layout>, entries: seq<Entry>, st: State, n: nat)
    requires |layouts| == |entries| && st.Valid()
    requires forall e :: e in entries ==> Good(e)
    requires forall l :: l in layouts ==> l.Good()
    ensures ReadLines(st, Lines(TextOf(layouts, entries)), n) == ApplyAll(st, entries, n)
    decreases |entries|
  {
    hide ReadLine, Apply, EntryText, Lines, Layout.Around, Layout.Good, Chop, Good;
    if entries == [] {
      NoText();
    } else {
      var l, e := layouts[0], entries[0];
      assert l in layouts && e in entries;
      EntryScans(e);
      var raw, rest := l.Around(EntryText(e)), TextOf(layouts[1..], entries[1..]);
      AroundOneLine(l, EntryText(e));
      FirstLine(raw, rest);
      var k := ChopAround(l, EntryText(e));
      LineReads(k, e);
      var next := Apply(st, e, n);
      if next.Some? {
        LinesRead(layouts[1..], entries[1..], next.value, n + 1);
      }
      FirstRead(st, Chop(raw), Lines(rest), n);
    }
  }

  lemma NoText()
    ensures Lines("") == []
  {
  }

  lemma AroundOneLine(l: Layout, content: string)
    requires l.Good() && '\n' !in content
    ensures '\n' !in l.Around(content)
  {
  }

  lemma FirstRead(st: State, raw: string, rest: seq<string>, n: nat)
    requires st.Valid()
    ensures ReadLines(st, [raw] + rest, n) ==
      (if ReadLine(raw).None? then None
       else
         match Apply(st, ReadLine(raw).value, n)
         case None => None
         case Some(next) => ReadLines(next, rest, n + 1))
  {
    hide ReadLine, Apply;
    assert ([raw] + rest)[1..] == rest;
  }

  // ---- the tables a document comes to ----

  /** A table as written: its pairs, with empty lines among them. */
  datatype Block = Block(name: string, lines: seq<Entry>)

  datatype Source = Source(root: seq<Entry>, blocks: seq<Block>)

  predicate Body(lines: seq<Entry>) { forall e :: e in lines ==> Good(e) && !e.Header? }

  function PairsOf(lines: seq<Entry>): seq<(string, TomlScan.Value)> {
    if lines == [] then []
    else (if lines[0].Pair? then [(lines[0].key, lines[0].value)] else []) + PairsOf(lines[1..])
  }

  ghost predicate KeysApart(pairs: seq<(string, TomlScan.Value)>) {
    forall i, j :: 0 <= i < j < |pairs| ==> pairs[i].0 != pairs[j].0
  }

  ghost predicate Writeable(s: Source) {
    Body(s.root) && KeysApart(PairsOf(s.root)) &&
    forall b :: b in s.blocks ==> YamlScan.BareKey(b.name) && Body(b.lines) && KeysApart(PairsOf(b.lines))
  }

  function BlockEntries(blocks: seq<Block>): (r: seq<Entry>)
    ensures (forall b :: b in blocks ==> YamlScan.BareKey(b.name) && Body(b.lines)) ==> forall e :: e in r ==> Good(e)
  {
    if blocks == [] then [] else [Header(blocks[0].name)] + blocks[0].lines + BlockEntries(blocks[1..])
  }

  /** The document line by line. */
  function Entries(s: Source): (r: seq<Entry>)
    ensures Writeable(s) ==> forall e :: e in r ==> Good(e)
  { s.root + BlockEntries(s.blocks) }

  /** Every block a table under its name, in order, at the line of its header. */
  function Filed(arrays: map<string, seq<Table>>, blocks: seq<Block>, n: nat): map<string, seq<Table>>
    decreases |blocks|
  {
    if blocks == [] then arrays
    else
      var b := blocks[0];
      Filed(arrays[b.name := Tables(arrays, b.name) + [Table(n, PairsOf(b.lines))]], blocks[1..], n + 1 + |b.lines|)
  }

  function Meant(s: Source): Doc { Doc(Table(0, PairsOf(s.root)), Filed(map[], s.blocks, 1 + |s.root|)) }

  lemma {:induction false} ApplyMore(st: State, a: seq<Entry>, b: seq<Entry>, n: nat)
    requires st.Valid() && ApplyAll(st, a, n).Some?
    ensures ApplyAll(st, a + b, n) == ApplyAll(ApplyAll(st, a, n).value, b, n + |a|)
    decreases |a|
  {
    hide Apply;
    if a == [] {
      assert a + b == b;
    } else {
      assert (a + b)[1..] == a[1..] + b;
      ApplyMore(Apply(st, a[0], n).value, a[1..], b, n + 1);
    }
  }

  /** The table pairs go to. */
  function Current(st: State): Table
    requires st.Valid()
  {
    if st.open.None? then st.doc.root
    else
      var tables := st.doc.arrays[st.open.value];
      tables[|tables| - 1]
  }

  function WithCurrent(st: State, t: Table): (r: State)
    requires st.Valid()
    ensures r.Valid() && Current(r) == t && r.open == st.open
  {
    if st.open.None? then State(Doc(t, st.doc.arrays), None)
    else
      var tables := st.doc.arrays[st.open.value];
      State(Doc(st.doc.root, st.doc.arrays[st.open.value := tables[..|tables| - 1] + [t]]), st.open)
  }

  lemma WithTwice(st: State, t: Table, u: Table)
    requires st.Valid()
    ensures WithCurrent(WithCurrent(st, t), u) == WithCurrent(st, u) && WithCurrent(st, Current(st)) == st
  {
    if st.open.Some? {
      var name := st.open.value;
      var tables := st.doc.arrays[name];
      var n := |tables| - 1;
      assert (tables[..n] + [t])[..n] == tables[..n];
      assert tables[..n] + [tables[n]] == tables;
      assert st.doc.arrays[name := tables] == st.doc.arrays;
      assert st.doc.arrays[name := tables[..n] + [t]][name := tables[..n] + [u]]
        == st.doc.arrays[name := tables[..n] + [u]];
    }
  }

  lemma ApplyPair(st: State, e: Entry, n: nat)
    requires st.Valid() && e.Pair? && !HasKey(Current(st), e.key)
    ensures Apply(st, e, n) ==
      Some(WithCurrent(st, Table(Current(st).line, Current(st).pairs + [(e.key, e.value)])))
  {
    hide HasKey;
  }

  /** Pairs with keys of their own all go to the table that is open. */
  lemma {:induction false} BodyApplies(st: State, lines: seq<Entry>, n: nat)
    requires st.Valid() && Body(lines) && KeysApart(Current(st).pairs + PairsOf(lines))
    ensures ApplyAll(st, lines, n) ==
      Some(WithCurrent(st, Table(Current(st).line, Current(st).pairs + PairsOf(lines))))
    decreases |lines|
  {
    hide Current, WithCurrent, Good, Apply, HasKey;
    var t := Current(st);
    if lines == [] {
      assert t.pairs + [] == t.pairs;
      WithTwice(st, t, t);
    } else {
      var e, rest := lines[0], lines[1..];
      assert lines == [e] + rest && e in lines;
      if e.Pair? {
        var now := t.pairs + [(e.key, e.value)];
        assert t.pairs + PairsOf(lines) == now + PairsOf(rest);
        FreshKey(t, e.key, e.value, PairsOf(rest));
        ApplyPair(st, e, n);
        BodyApplies(WithCurrent(st, Table(t.line, now)), rest, n + 1);
        WithTwice(st, Table(t.line, now), Table(t.line, now + PairsOf(rest)));
      } else {
        assert e == Blank;
        BlankApplies(st, n);
        assert PairsOf(lines) == PairsOf(rest);
        BodyApplies(st, rest, n + 1);
      }
    }
  }

  lemma BlankApplies(st: State, n: nat)
    requires st.Valid()
    ensures Apply(st, Blank, n) == Some(st)
  {
  }

  lemma FreshKey(t: Table, key: string, value: TomlScan.Value, rest: seq<(string, TomlScan.Value)>)
    requires KeysApart(t.pairs + [(key, value)] + rest)
    ensures !HasKey(t, key)
  {
    var all := t.pairs + [(key, value)] + rest;
    forall i | 0 <= i < |t.pairs|
      ensures t.pairs[i].0 != key
    {
      assert all[i] == t.pairs[i] && all[|t.pairs|] == (key, value);
    }
  }

  /** The state with a table at the end of an array, and that array open. */
  function Opened(st: State, name: string, t: Table): State {
    State(Doc(st.doc.root, st.doc.arrays[name := Tables(st.doc.arrays, name) + [t]]), Some(name))
  }

  lemma OpenedCurrent(st: State, name: string, t: Table, u: Table)
    ensures Opened(st, name, t).Valid() && Current(Opened(st, name, t)) == t
    ensures WithCurrent(Opened(st, name, t), u) == Opened(st, name, u)
  {
    var before := Tables(st.doc.arrays, name);
    assert (before + [t])[..|before|] == before;
    assert st.doc.arrays[name := before + [t]][name := before + [u]] == st.doc.arrays[name := before + [u]];
  }

  lemma HeaderFirst(st: State, name: string, lines: seq<Entry>, n: nat)
    requires st.Valid()
    ensures Opened(st, name, Table(n, [])).Valid()
    ensures ApplyAll(st, [Header(name)] + lines, n) == ApplyAll(Opened(st, name, Table(n, [])), lines, n + 1)
  {
    assert ([Header(name)] + lines)[1..] == lines;
    assert Apply(st, Header(name), n) == Some(Opened(st, name, Table(n, [])));
  }

  /** A header opens a table and its pairs fill it. */
  lemma BlockApplies(st: State, b: Block, n: nat)
    requires st.Valid() && Body(b.lines) && KeysApart(PairsOf(b.lines))
    ensures ApplyAll(st, [Header(b.name)] + b.lines, n) == Some(Opened(st, b.name, Table(n, PairsOf(b.lines))))
  {
    hide Body, KeysApart, PairsOf, Opened, ApplyAll, Current, WithCurrent;
    HeaderFirst(st, b.name, b.lines, n);
    OpenedCurrent(st, b.name, Table(n, []), Table(n, PairsOf(b.lines)));
    assert [] + PairsOf(b.lines) == PairsOf(b.lines);
    BodyApplies(Opened(st, b.name, Table(n, [])), b.lines, n + 1);
  }

  lemma {:induction false} BlocksApply(st: State, blocks: seq<Block>, n: nat)
    requires st.Valid()
    requires forall b :: b in blocks ==> YamlScan.BareKey(b.name) && Body(b.lines) && KeysApart(PairsOf(b.lines))
    ensures ApplyAll(st, BlockEntries(blocks), n).Some?
    ensures ApplyAll(st, BlockEntries(blocks), n).value.doc ==
      Doc(st.doc.root, Filed(st.doc.arrays, blocks, n))
    decreases |blocks|
  {
    hide Body, KeysApart, PairsOf, Apply, Tables;
    if blocks != [] {
      var b, rest := blocks[0], blocks[1..];
      BlockApplies(st, b, n);
      var first := [Header(b.name)] + b.lines;
      ApplyMore(st, first, BlockEntries(rest), n);
      BlocksApply(ApplyAll(st, first, n).value, rest, n + |first|);
    }
  }

  /** A document written with any space and comments around its lines is read as the tables it was written from. */
  lemma {:induction false} DocRoundTrip(s: Source, layouts: seq<Layout>)
    requires Writeable(s) && |layouts| == |Entries(s)| && forall l :: l in layouts ==> l.Good()
    ensures ReadDoc(TextOf(layouts, Entries(s))) == Some(Meant(s))
  {
    hide Good, Layout.Good, ReadLines, ApplyAll, TextOf, Lines, Filed, KeysApart, Body, BlockEntries;
    LinesRead(layouts, Entries(s), START, 1);
    assert Current(START) == Table(0, []);
    assert [] + PairsOf(s.root) == PairsOf(s.root);
    BodyApplies(START, s.root, 1);
    ApplyMore(START, s.root, BlockEntries(s.blocks), 1);
    BlocksApply(ApplyAll(START, s.root, 1).value, s.blocks, 1 + |s.root|);
  }

  /** The pairs of the blocks of one name, block by block. */
  function Named(blocks: seq<Block>, name: string): seq<seq<(string, TomlScan.Value)>> {
    if blocks == [] then []
    else (if blocks[0].name == name then [PairsOf(blocks[0].lines)] else []) + Named(blocks[1..], name)
  }

  function PairsIn(tables: seq<Table>): (r: seq<seq<(string, TomlScan.Value)>>)
    ensures |r| == |tables| && forall i :: 0 <= i < |r| ==> r[i] == tables[i].pairs
  { seq(|tables|, i requires 0 <= i < |tables| => tables[i].pairs) }

  lemma PairsInMore(tables: seq<Table>, t: Table, rest: seq<seq<(string, TomlScan.Value)>>)
    ensures PairsIn(tables + [t]) + rest == PairsIn(tables) + ([t.pairs] + rest)
    ensures PairsIn(tables) + ([] + rest) == PairsIn(tables) + rest
  {
    assert PairsIn(tables + [t]) == PairsIn(tables) + [t.pairs];
  }

  /** What is under a name is the blocks of that name in the order written. */
  lemma {:induction false} FiledInOrder(arrays: map<string, seq<Table>>, blocks: seq<Block>, n: nat, name: string)
    ensures PairsIn(Tables(Filed(arrays, blocks, n), name)) == PairsIn(Tables(arrays, name)) + Named(blocks, name)
    decreases |blocks|
  {
    hide PairsOf, PairsIn;
    if blocks == [] {
      assert PairsIn(Tables(arrays, name)) + [] == PairsIn(Tables(arrays, name));
    } else {
      var b, rest := blocks[0], blocks[1..];
      var t := Table(n, PairsOf(b.lines));
      var more := arrays[b.name := Tables(arrays, b.name) + [t]];
      FiledInOrder(more, rest, n + 1 + |b.lines|, name);
      PairsInMore(Tables(arrays, name), t, Named(rest, name));
    }
  }
}
