/**
  The lexer of conformance/c/yaml.c: from text to logical lines. What is
  blank or a comment leaves none, and a line with dashes leaves one for each dash
  and one for what comes after them.
 */
module YamlLex {
  import opened Common
  import opened Utf8
  import opened YamlScan

  /** One meaningful line: its indent, whether it is a `-`, its text and its number. */
  datatype Line = Line(indent: nat, dash: bool, text: string, no: nat)

  /** Spaces at the front. */
  function IndentOf(s: string): (n: nat)
    ensures n <= |s|
    ensures n < |s| ==> !IsSpace(s[n])
    ensures forall k :: 0 <= k < n ==> IsSpace(s[k])
  {
    if s != "" && IsSpace(s[0]) then IndentOf(s[1..]) + 1 else 0
  }

  function TrimEnd(s: string): (t: string)
    ensures t <= s
    ensures t == "" || !IsSpace(t[|t| - 1])
  {
    if s != "" && IsSpace(s[|s| - 1]) then TrimEnd(s[..|s| - 1]) else s
  }

  /** A content line opens an item when it is a `-` alone or a `- `. */
  predicate OpensItem(rest: string) {
    |rest| >= 1 && rest[0] == '-' && (|rest| == 1 || rest[1] == ' ')
  }

  predicate IsMarker(rest: string) { rest == "---" || rest == "..." }

  /** What the content of a line, past its indent, lexes to. */
  function LexContent(indent: nat, rest: string, no: nat): Option<seq<Line>> {
    if rest == "" then Some([])
    else if IsMarker(rest) || indent % 2 != 0 then None
    else if !OpensItem(rest) then Some([Line(indent, false, rest, no)])
    else if |rest| >= 3 && rest[1] == ' ' && rest[2] == ' ' then None
    else
      var item := TrimStart(rest[1..]);
      if |item| >= 2 && item[0] == '-' && item[1] == ' ' then None
      else
        var opening := Line(indent, true, "", no);
        Some(if item == "" then [opening] else [opening, Line(indent + 2, false, item, no)])
  }

  /** What one line of the file lexes to. */
  ghost function LexLine(raw: string, no: nat): Option<seq<Line>> {
    if !WellFormed(raw) || '\t' in raw then None
    else
      var content := TrimEnd(raw[..ContentEnd(raw, 0)]);
      var indent := IndentOf(content);
      LexContent(indent, content[indent..], no)
  }

  /** The first line of a text and what is left after its newline. */
  function FirstLine(src: string): (string, string) {
    var k := IndexOf(src, '\n');
    (src[..k], if k < |src| then src[k + 1..] else "")
  }

  /** What a text lexes to, its first line being number `no`. */
  ghost function LexText(src: string, no: nat): Option<seq<Line>>
    decreases |src|
  {
    if src == "" then Some([])
    else
      var (raw, rest) := FirstLine(src);
      var first :- LexLine(raw, no);
      var others :- LexText(rest, no + 1);
      Some(first + others)
  }

  /** The source's checks on one content line, in the source's order. */
  method SplitContent(indent: nat, content: string, no: nat) returns (r: Option<seq<Line>>)
    ensures r == LexContent(indent, content, no)
  {
    var rest := content;
    if |rest| == 0 { return Some([]); }
    if |rest| == 3 && (rest == "---" || rest == "...") { return None; }
    if indent % 2 != 0 { return None; }
    var dash := (|rest| == 1 && rest[0] == '-') || (|rest| >= 2 && rest[0] == '-' && rest[1] == ' ');
    if !dash { return Some([Line(indent, false, rest, no)]); }
    rest := rest[1..];
    if |rest| >= 2 && rest[0] == ' ' && rest[1] == ' ' { return None; }
    while |rest| > 0 && IsSpace(rest[0])
      invariant TrimStart(rest) == TrimStart(content[1..])
      decreases |rest|
    {
      rest := rest[1..];
    }
    assert rest == TrimStart(content[1..]);
    if |rest| >= 2 && rest[0] == '-' && rest[1] == ' ' { return None; }
    var opening := Line(indent, true, "", no);
    if |rest| > 0 { return Some([opening, Line(indent + 2, false, rest, no)]); }
    r := Some([opening]);
  }

  lemma {:induction false} TrimEndAt(s: string, n: nat)
    requires n <= |s| && (forall k :: n <= k < |s| ==> IsSpace(s[k])) && (n > 0 ==> !IsSpace(s[n - 1]))
    ensures TrimEnd(s) == s[..n]
  {
    if n < |s| {
      TrimEndAt(s[..|s| - 1], n);
      assert s[..|s| - 1][..n] == s[..n];
    } else {
      assert s[..n] == s;
    }
  }

  lemma IndentUnique(s: string, n: nat)
    requires n <= |s| && (n < |s| ==> !IsSpace(s[n])) && forall k :: 0 <= k < n ==> IsSpace(s[k])
    ensures IndentOf(s) == n
  {
  }

  method ScanLine(raw: string, no: nat) returns (r: Option<seq<Line>>)
    ensures r == LexLine(raw, no)
  {
    hide LexContent, TrimEnd, WellFormed;
    var ok, bad := ValidUtf8(raw);
    if !ok { return None; }
    var tab := IndexOf(raw, '\t');
    if tab < |raw| { return None; }
    var end := StripComment(raw);
    ghost var stripped := raw[..end];
    var len := end;
    while len > 0 && IsSpace(raw[len - 1])
      invariant len <= end
      invariant forall k :: len <= k < end ==> IsSpace(raw[k])
    {
      len := len - 1;
    }
    TrimEndAt(stripped, len);
    assert stripped[..len] == raw[..len];
    var indent := 0;
    while indent < len && IsSpace(raw[indent])
      invariant indent <= len
      invariant forall k :: 0 <= k < indent ==> IsSpace(raw[k])
    {
      indent := indent + 1;
    }
    IndentUnique(raw[..len], indent);
    assert raw[..len][indent..] == raw[indent..len];
    r := SplitContent(indent, raw[indent..len], no);
  }

  function WithLines(before: seq<Line>, r: Option<seq<Line>>): Option<seq<Line>> {
    if r.Some? then Some(before + r.value) else None
  }

  lemma WithNothing(r: Option<seq<Line>>)
    ensures WithLines([], r) == r
  {
    if r.Some? { assert [] + r.value == r.value; }
  }

  lemma RestSlices(src: string, pos: nat, k: nat)
    requires pos + k <= |src|
    ensures src[pos..][..k] == src[pos..pos + k]
    ensures pos + k < |src| ==> src[pos..][k + 1..] == src[pos + k + 1..]
    ensures pos + k == |src| ==> src[pos + k..] == ""
  {
  }

  /** One line off the front of what is left at `pos`. */
  lemma LexTextStep(src: string, pos: nat, no: nat, before: seq<Line>)
    requires pos < |src|
    ensures var k := IndexOf(src[pos..], '\n');
            var next := if pos + k < |src| then pos + k + 1 else pos + k;
            var first := LexLine(src[pos..pos + k], no);
            next <= |src|
            && WithLines(before, LexText(src[pos..], no))
               == if first.Some? then WithLines(before + first.value, LexText(src[next..], no + 1)) else None
  {
    hide LexLine, LexText, IndexOf, WithLines;
    var rest := src[pos..];
    var k := IndexOf(rest, '\n');
    LexTextUnfold(rest, no);
    RestSlices(src, pos, k);
    var first := LexLine(src[pos..pos + k], no);
    var others := LexText(if k < |rest| then rest[k + 1..] else "", no + 1);
    WithLinesMore(before, first, others);
  }

  lemma WithLinesMore(before: seq<Line>, first: Option<seq<Line>>, others: Option<seq<Line>>)
    ensures WithLines(before, if first.Some? && others.Some? then Some(first.value + others.value) else None)
         == if first.Some? then WithLines(before + first.value, others) else None
  {
    if first.Some? && others.Some? {
      assert before + (first.value + others.value) == before + first.value + others.value;
    }
  }

  lemma LexTextUnfold(src: string, no: nat)
    requires src != ""
    ensures var k := IndexOf(src, '\n');
            var first := LexLine(src[..k], no);
            var others := LexText(if k < |src| then src[k + 1..] else "", no + 1);
            LexText(src, no)
              == if first.Some? && others.Some? then Some(first.value + others.value) else None
  {
    hide LexLine, IndexOf;
  }

  lemma LexNothing(s: string, no: nat)
    requires s == ""
    ensures LexText(s, no) == Some([])
  {
  }

  method Lex(src: string) returns (r: Option<seq<Line>>)
    ensures r == LexText(src, 1)
  {
    hide LexLine, LexText, WithLines;
    var pos, no := 0, 0;
    var lines: seq<Line> := [];
    assert src[0..] == src;
    WithNothing(LexText(src, 1));
    while pos < |src|
      invariant 0 <= pos <= |src|
      invariant LexText(src, 1) == WithLines(lines, LexText(src[pos..], no + 1))
    {
      LexTextStep(src, pos, no + 1, lines);
      var len := IndexOf(src[pos..], '\n');
      var raw := src[pos..pos + len];
      pos := if pos + len < |src| then pos + len + 1 else pos + len;
      no := no + 1;
      var found := ScanLine(raw, no);
      if found == None { return None; }
      lines := lines + found.value;
    }
    LexNothing(src[pos..], no + 1);
    WithLinesEnd(lines);
    r := Some(lines);
  }

  lemma WithLinesEnd(lines: seq<Line>)
    ensures WithLines(lines, Some([])) == Some(lines)
  {
    assert lines + [] == lines;
  }
}
