/**
  What the block-YAML reader promises of files no renderer writes: carriage returns,
  quotes and hashes inside words, every escape, and what makes it refuse a file.
 */
module YamlRules {
  import opened Common
  import opened Utf8
  import opened YamlScan
  import opened YamlLex
  import opened YamlParse
  import opened YamlText

  // ---- carriage returns ----

  lemma {:induction false} ReturnCloses(x: string, quote: char)
    requires IsQuote(quote)
    ensures FindClose(x + "\r", quote) == FindClose(x, quote)
    decreases |x|
  {
    var s := x + "\r";
    if x == "" {
      assert s[1..] == "";
    } else {
      ReturnInUnit(x, quote);
      hide UnitLength;
      var n := UnitLength(x, quote);
      if 0 < n <= |x| {
        ReturnCloses(x[n..], quote);
        assert s[n..] == x[n..] + "\r";
      } else if n > |x| {
        assert s[n..] == "";
      }
    }
  }

  lemma ReturnInUnit(x: string, quote: char)
    requires IsQuote(quote) && x != ""
    ensures UnitLength(x + "\r", quote) == UnitLength(x, quote)
  {
    var s := x + "\r";
    assert s[0] == x[0] && if |x| > 1 then s[1] == x[1] else s[1] == '\r';
  }

  lemma {:induction false} ReturnIsContent(x: string, i: nat)
    requires i <= |x|
    ensures ContentEnd(x + "\r", i) == if ContentEnd(x, i) == |x| then |x| + 1 else ContentEnd(x, i)
    decreases |x| - i
  {
    hide FindClose;
    var s := x + "\r";
    assert forall k :: 0 <= k < |x| ==> s[k] == x[k];
    if i == |x| {
      assert ContentEnd(s, |s|) == |s|;
    } else if !(x[i] == '#' && Opens(x, i)) {
      assert Opens(s, i) == Opens(x, i);
      assert s[i + 1..] == x[i + 1..] + "\r";
      if IsQuote(x[i]) { ReturnCloses(x[i + 1..], x[i]); }
      assert Skip(s, i) == Skip(x, i);
      ReturnIsContent(x, Skip(x, i));
    }
  }

  lemma LastOctet(v: nat)
    requires ScalarValue(v)
    ensures Encode(v)[|Encode(v)| - 1] == '\r' ==> Encode(v) == "\r"
  {
  }

  lemma {:induction false} EncodeAllLast(vs: seq<nat>)
    requires ScalarValues(vs) && vs != []
    ensures var n := |vs| - 1; EncodeAll(vs) == EncodeAll(vs[..n]) + Encode(vs[n])
  {
    var n := |vs| - 1;
    EncodeAllConcat(vs[..n], [vs[n]]);
    assert vs == vs[..n] + [vs[n]];
    assert EncodeAll([vs[n]]) == Encode(vs[n]) + EncodeAll([vs[n]][1..]);
  }

  /** A carriage return is a character of its own. */
  lemma ReturnStandsAlone(x: string)
    ensures WellFormed(x + "\r") <==> WellFormed(x)
  {
    if WellFormed(x) {
      AsciiWellFormed("\r");
      WellFormedConcat(x, "\r");
    }
    if WellFormed(x + "\r") {
      var vs :| ScalarValues(vs) && x + "\r" == EncodeAll(vs);
      var s, n := x + "\r", |vs| - 1;
      assert s[|s| - 1] == '\r' && vs != [];
      EncodeAllLast(vs);
      LastOctet(vs[n]);
      hide Encode;
      assert EncodeAll(vs)[..|s| - 1] == EncodeAll(vs[..n]);
      assert s[..|s| - 1] == x;
    }
  }

  /** A line read with its carriage return is the line without. */
  lemma ReturnIsSpace(x: string, no: nat)
    ensures LexLine(x + "\r", no) == LexLine(x, no)
  {
    hide WellFormed, LexContent, IndentOf;
    ReturnStandsAlone(x);
    ReturnIsContent(x, 0);
    var s, end := x + "\r", ContentEnd(x, 0);
    assert '\t' in s <==> '\t' in x;
    if end == |x| {
      assert s[..|x| + 1] == s && s[..|s| - 1] == x && x[..end] == x;
    } else {
      assert s[..end] == x[..end];
    }
  }

  /** The same text with every line feed behind a carriage return. */
  function Crlf(src: string): string
    decreases |src|
  {
    var k := IndexOf(src, '\n');
    if k == |src| then src else src[..k] + "\r\n" + Crlf(src[k + 1..])
  }

  /** A file reads the same whichever of the two line ends it was saved with. */
  lemma {:induction false} CrlfReads(src: string, no: nat)
    ensures LexText(Crlf(src), no) == LexText(src, no)
    decreases |src|
  {
    hide LexLine, LexText, IndexOf;
    var k := IndexOf(src, '\n');
    if k < |src| {
      var line, rest := src[..k], src[k + 1..];
      assert Crlf(src) == line + "\r\n" + Crlf(rest);
      var raw := line + "\r";
      assert line + "\r\n" + Crlf(rest) == raw + ['\n'] + Crlf(rest);
      IndexOfConcat(raw, '\n', Crlf(rest));
      var all := raw + ['\n'] + Crlf(rest);
      assert all[..|raw|] == raw && all[|raw| + 1..] == Crlf(rest);
      LexTextUnfold(src, no);
      LexTextUnfold(all, no);
      ReturnIsSpace(line, no);
      CrlfReads(rest, no + 1);
    }
  }

  lemma CrlfParses(src: string)
    ensures ParseText(Crlf(src)) == ParseText(src)
  {
    CrlfReads(src, 1);
  }

  // ---- comments ----

  /** No quote that a run could open with opens one that closes. */
  predicate NoRuns(line: string) {
    forall k :: 0 <= k < |line| && IsQuote(line[k]) && Opens(line, k) ==> FindClose(line[k + 1..], line[k]) == None
  }

  predicate IsComment(line: string, k: nat)
    requires k < |line|
  { line[k] == '#' && Opens(line, k) }

  /**
    Where no quoted run closes, a comment is at the first hash at the start or after a
    space; a hash or a quote in a word is part of the word, and so is a quote that opens nothing.
   */
  lemma {:induction false} CommentIff(line: string, i: nat, n: nat)
    requires NoRuns(line) && i <= n <= |line|
    ensures ContentEnd(line, i) == n
       <==> (n < |line| ==> IsComment(line, n)) && forall k :: i <= k < n ==> !IsComment(line, k)
    decreases |line| - i
  {
    hide FindClose;
    if i < |line| && !IsComment(line, i) {
      assert Skip(line, i) == i + 1;
      if i < n {
        CommentIff(line, i + 1, n);
      } else {
        assert ContentEnd(line, i + 1) >= i + 1;
      }
    }
  }

  // ---- escapes ----

  /** The codes the eight escapes stand for. */
  function CodeOf(c: char): Option<nat> {
    if c == '"' then Some(34) else if c == '\\' then Some(92)
    else if c == 'n' then Some(10) else if c == 'r' then Some(13)
    else if c == 't' then Some(9) else if c == 'b' then Some(8)
    else if c == 'f' then Some(12) else if c == '0' then Some(0)
    else None
  }

  /** A backslash between double quotes, and any byte after it. */
  lemma EscapesSpell(c: char)
    ensures ScalarOf(['"', '\\', c, '"'])
         == if CodeOf(c).Some? then Some(Spelled([CodeOf(c).value as char], true)) else None
  {
    var body := ['\\', c];
    assert body[2..] == "";
    assert QuotedBody("", '"') && Unescape("", '"') == YamlScan.Text("");
    assert QuotedBody(body, '"');
    if CodeOf(c).Some? {
      var spelled := CodeOf(c).value as char;
      assert EscapeOf(c) == Some(spelled) && [spelled] + "" == [spelled];
      assert Unescape(body, '"') == Prepend(spelled, YamlScan.Text(""));
    }
    BodyIsRead(body, '"');
    assert ['"'] + body + ['"'] == ['"', '\\', c, '"'];
  }

  /** Between single quotes it is a backslash. */
  lemma NoEscapesInSingleQuotes(c: char)
    requires c != '\''
    ensures ScalarOf(['\'', '\\', c, '\'']) == Some(Spelled(['\\', c], true))
  {
    var body := ['\\', c];
    assert body[1..] == [c] && [c][1..] == "";
    assert QuotedBody("", '\'') && Unescape("", '\'') == YamlScan.Text("");
    assert QuotedBody([c], '\'') && Unescape([c], '\'') == YamlScan.Text([c]);
    assert QuotedBody(body, '\'') && Unescape(body, '\'') == YamlScan.Text(['\\'] + [c]);
    BodyIsRead(body, '\'');
    assert ['\''] + body + ['\''] == ['\'', '\\', c, '\''] && ['\\'] + [c] == ['\\', c];
  }

  /** A bare scalar opens with none of twelve bytes, by their codes: `[ ] { } & * ! | > % @` and the backtick. */
  lemma ConstructsRefused(text: string)
    requires text != "" && !IsQuote(text[0])
    ensures var bad := text[0] as int in {0x5B, 0x5D, 0x7B, 0x7D, 0x26, 0x2A, 0x21, 0x7C, 0x3E, 0x25, 0x40, 0x60};
            ScalarOf(text) == if bad then None else Some(Spelled(text, false))
  {
    var c := text[0];
    assert c in CONSTRUCTS <==> c == '[' || c == ']' || c == '{' || c == '}' || c == '&' || c == '*' || c == '!'
                                || c == '|' || c == '>' || c == '%' || c == '@' || c == '`';
  }

  // ---- keys ----

  /** A bare key, its colon and a space: the key and what follows, less the space in front of it. */
  lemma KeySplits(key: string, rest: string)
    requires BareKey(key)
    ensures KeyOf(key + ": " + rest) == Some(Pair(key, TrimStart(rest)))
    ensures KeyOf(key + ":") == Some(Pair(key, ""))
  {
    hide TrimStart;
    var text, end := key + ": " + rest, key + ":";
    assert forall k :: 0 <= k < |key| ==> IsKeyChar(key[k]) && text[k] == key[k] && end[k] == key[k];
    assert text[|key|] == ':' && text[|key| + 1] == ' ';
    KeyBreakUnique(text, |key|);
    KeyBreakUnique(end, |end|);
    assert text[..|key|] == key && text[|key| + 2..] == rest && end[..|end| - 1] == key;
  }

  /** With no colon before a space or at the end there is no key; a colon inside a word is part of the word. */
  lemma NoKey(text: string)
    requires text == "" || text[|text| - 1] != ':'
    requires forall k :: 0 <= k < |text| - 1 ==> !(text[k] == ':' && text[k + 1] == ' ')
    ensures KeyOf(text) == None
  {
    KeyBreakUnique(text, |text|);
  }

  // ---- what is refused ----

  /** The lines of a file, as its line feeds divide it. */
  ghost predicate LinesRead(src: string, no: nat) {
    forall k :: 0 <= k < |Split(src, '\n')| ==> LexLine(Split(src, '\n')[k], no).Some?
  }

  lemma LineNumbersDoNotRefuse(raw: string, a: nat, b: nat)
    ensures LexLine(raw, a).Some? <==> LexLine(raw, b).Some?
  {
  }

  /** A file is lexed exactly when every line of it is. */
  lemma {:induction false} LexesIff(src: string, no: nat, any: nat)
    ensures LexText(src, no).Some? <==> LinesRead(src, any)
    decreases |src|
  {
    hide LexLine, LexText, Split, IndexOf;
    SplitOne(src);
    if src == "" {
      LexNothing(src, no);
      BlankLine("", any);
      LinesOfOne(src, any);
    } else {
      var k := IndexOf(src, '\n');
      LexTextUnfold(src, no);
      LineNumbersDoNotRefuse(src[..k], no, any);
      if k < |src| {
        LexesIff(src[k + 1..], no + 1, any);
        LinesOfTwo(src, any, src[..k], src[k + 1..]);
      } else {
        LexNothing("", no + 1);
        assert src[..k] == src;
        LinesOfOne(src, any);
      }
    }
  }

  lemma LinesOfOne(src: string, no: nat)
    requires Split(src, '\n') == [src]
    ensures LinesRead(src, no) <==> LexLine(src, no).Some?
  {
    hide LexLine;
    if LinesRead(src, no) { assert LexLine(Split(src, '\n')[0], no).Some?; }
  }

  lemma LinesOfTwo(src: string, no: nat, line: string, rest: string)
    requires Split(src, '\n') == [line] + Split(rest, '\n')
    ensures LinesRead(src, no) <==> LexLine(line, no).Some? && LinesRead(rest, no)
  {
    hide LexLine;
    var all, others := Split(src, '\n'), Split(rest, '\n');
    assert all[0] == line && forall j :: 0 <= j < |others| ==> others[j] == all[j + 1];
    if LinesRead(src, no) { assert LexLine(all[0], no).Some?; }
  }

  lemma SplitOne(src: string)
    ensures var k := IndexOf(src, '\n');
            Split(src, '\n') == if k == |src| then [src] else [src[..k]] + Split(src[k + 1..], '\n')
  {
    hide IndexOf;
  }

  lemma BlankLine(raw: string, no: nat)
    requires raw == ""
    ensures LexLine(raw, no) == Some([])
  {
    AsciiWellFormed("");
  }

  lemma TabRefused(raw: string, no: nat)
    requires '\t' in raw
    ensures LexLine(raw, no) == None
  {
  }

  /** Content of plain characters, with no space about it. */
  predicate PlainContent(rest: string) {
    rest != "" && !IsSpace(rest[0]) && !IsSpace(rest[|rest| - 1])
    && forall k :: 0 <= k < |rest| ==> rest[k] != '#' && !IsQuote(rest[k]) && rest[k] != '\t' && rest[k] as int < 0x80
  }

  lemma PlainLine(n: nat, rest: string, no: nat)
    requires PlainContent(rest)
    ensures LexLine(Spaces(n) + rest, no) == LexContent(n, rest, no)
  {
    hide LexContent, FindClose, WellFormed;
    var raw := Spaces(n) + rest;
    assert forall k :: 0 <= k < n ==> raw[k] == ' ';
    assert forall k :: n <= k < |raw| ==> raw[k] == rest[k - n];
    AsciiWellFormed(raw);
    SkipUnmarked(raw, 0, |raw|);
    assert raw[..|raw|] == raw;
    TrimEndAt(raw, |raw|);
    IndentUnique(raw, n);
    assert raw[n..] == rest;
  }

  /** Two spaces a level, and no more than one behind a dash; no document marks and no dash right behind a dash. */
  lemma LinesRefused(n: nat, rest: string, no: nat)
    requires PlainContent(rest)
    ensures n % 2 == 1 ==> LexLine(Spaces(n) + rest, no) == None
    ensures rest == "---" || rest == "..." ==> LexLine(Spaces(n) + rest, no) == None
    ensures "-  " <= rest ==> LexLine(Spaces(n) + rest, no) == None
    ensures "- - " <= rest ==> LexLine(Spaces(n) + rest, no) == None
  {
    PlainLine(n, rest, no);
    hide LexLine;
    if "- - " <= rest {
      assert rest[0] == '-' && rest[1] == ' ' && rest[2] == '-' && rest[3] == ' ';
      ItemOf(rest);
    }
  }

  lemma ItemOf(rest: string)
    requires |rest| >= 3 && rest[1] == ' ' && !IsSpace(rest[2])
    ensures TrimStart(rest[1..]) == rest[2..]
  {
    assert rest[1..][1..] == rest[2..];
    assert TrimStart(rest[2..]) == rest[2..];
  }

  /** An item is its dash, and what follows the dash, two columns in. */
  lemma ItemLines(n: nat, item: string, no: nat)
    requires n % 2 == 0 && PlainContent(item) && !("- " <= item)
    ensures LexLine(Spaces(n) + ("- " + item), no) == Some([Line(n, true, "", no), Line(n + 2, false, item, no)])
  {
    var rest := "- " + item;
    assert |rest| == 2 + |item| && rest[0] == '-' && rest[1] == ' ' && rest[2..] == item;
    assert forall k :: 0 <= k < |item| ==> rest[2 + k] == item[k];
    hide LexLine, LexContent;
    PlainLine(n, rest, no);
    ItemContent(n, rest, item, no);
  }

  lemma ItemContent(n: nat, rest: string, item: string, no: nat)
    requires n % 2 == 0 && item != "" && !IsSpace(item[0]) && !("- " <= item)
    requires |rest| == 2 + |item| && rest[0] == '-' && rest[1] == ' ' && rest[2..] == item
    ensures LexContent(n, rest, no) == Some([Line(n, true, "", no), Line(n + 2, false, item, no)])
  {
    assert rest[2] == item[0] && rest[1..][0] == ' ' && rest[1..][1] == item[0];
    ItemOf(rest);
    assert |item| >= 2 ==> (item[..2] == "- " <==> item[0] == '-' && item[1] == ' ');
  }

  // ---- what a level may hold ----

  /** What a key holds on the lines below it stands two columns further in, and nowhere else deeper. */
  lemma ValuesStandTwoIn(ls: seq<Line>, i: nat, indent: nat)
    requires IsEntry(ls, i, indent) && KeyOf(ls[i].text).value.rest == ""
    requires Deeper(ls, i + 1, indent) && ls[i + 1].indent != indent + 2
    ensures Build(ls, i, indent) == None
  {
    hide KeyOf;
    assert BuildValue(ls, i, indent, "") == None;
    assert BuildEntries(ls, i, indent) == None;
  }

  /** A dash holds something, two columns further in. */
  lemma ItemsStandTwoIn(ls: seq<Line>, i: nat, indent: nat)
    requires IsItem(ls, i, indent) && !Under(ls, i + 1, indent + 2)
    ensures Build(ls, i, indent) == None
  {
  }

  /** A value on its key's own line has nothing under it, and a plain scalar nothing behind it. */
  lemma NothingUnderAScalar(ls: seq<Line>, i: nat, indent: nat)
    requires i < |ls| && ls[i].indent == indent && !ls[i].dash
    requires match KeyOf(ls[i].text)
             case None => i + 1 < |ls|
             case Some(pair) => pair.rest != "" && Deeper(ls, i + 1, indent)
    ensures Build(ls, i, indent).Some? ==> Build(ls, i, indent).value.next == i + 1 < |ls|
  {
    hide KeyOf, ScalarNode;
    if KeyOf(ls[i].text).Some? && Build(ls, i, indent).Some? {
      var rest := KeyOf(ls[i].text).value.rest;
      var v, more := BuildValue(ls, i, indent, rest), BuildEntries(ls, i + 1, indent);
      assert v.Some? ==> v.value.next == i + 1;
      assert more.Some? && more.value.next == i + 1;
    }
  }

  /** And then the file is refused, for lines are left over. */
  lemma LeftOverRefused(ls: seq<Line>)
    requires ls != [] && Build(ls, 0, ls[0].indent).Some? && Build(ls, 0, ls[0].indent).value.next < |ls|
    ensures Document(ls) == None
  {
  }
}
