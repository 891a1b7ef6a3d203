/**
  The scanners of conformance/c/yaml.c that work inside one line: where a
  quoted run ends, where a comment starts, what a key is, and what a scalar
  spells. Each scanner is a loop proved against a function of the text.
 */
module YamlScan {
  import opened Common

  const NUL := 0 as char
  const BACKSPACE := 8 as char
  const VTAB := 11 as char
  const FORMFEED := 12 as char

  predicate IsSpace(c: char) {
    c == ' ' || c == '\t' || c == '\n' || c == '\r' || c == FORMFEED || c == VTAB
  }

  predicate IsKeyChar(c: char) {
    'a' <= c <= 'z' || 'A' <= c <= 'Z' || '0' <= c <= '9' || c == '_' || c == '-'
  }

  predicate IsQuote(c: char) { c == '"' || c == '\'' }

  // ---- quoted runs ----

  /**
    The bytes the front of a quoted run takes as one: two for an escape, one
    otherwise, and 0 where the run ends. Between double quotes a backslash
    escapes; between single ones the quote is doubled.
   */
  function UnitLength(s: string, quote: char): (n: nat)
    requires s != ""
    ensures n <= 2
  {
    if s[0] == '\\' && quote == '"' then 2
    else if s[0] == quote then if quote == '\'' && |s| > 1 && s[1] == '\'' then 2 else 0
    else 1
  }

  /** The offset of the quote that closes the run, or `None` when the line ends first. */
  function FindClose(s: string, quote: char): (r: Option<nat>)
    ensures r.Some? ==> r.value < |s| && s[r.value] == quote
    decreases |s|
  {
    if s == "" then None
    else
      var n := UnitLength(s, quote);
      if n == 0 then Some(0)
      else if n > |s| then None
      else
        var rest :- FindClose(s[n..], quote);
        Some(n + rest)
  }

  /** A text made of whole units, none of which ends the run. */
  predicate QuotedBody(s: string, quote: char)
    decreases |s|
  {
    s == "" || var n := UnitLength(s, quote); 0 < n <= |s| && QuotedBody(s[n..], quote)
  }

  /** `FindClose` of the whole, in terms of what is left after `i` bytes. */
  function Shift(i: nat, r: Option<nat>): Option<nat> {
    if r.Some? then Some(i + r.value) else None
  }

  lemma FindCloseStep(rest: string, i: nat, quote: char)
    requires i < |rest|
    ensures var n := UnitLength(rest[i..], quote);
            FindClose(rest[i..], quote)
              == if n == 0 then Some(0)
                 else if i + n > |rest| then None
                 else Shift(n, FindClose(rest[i + n..], quote))
  {
    var n := UnitLength(rest[i..], quote);
    if i + n <= |rest| { assert rest[i..][n..] == rest[i + n..]; }
  }

  method ClosingQuote(rest: string, quote: char) returns (r: Option<nat>)
    ensures r == FindClose(rest, quote)
  {
    hide FindClose;
    var i := 0;
    assert rest[0..] == rest;
    while i < |rest|
      invariant 0 <= i <= |rest|
      invariant FindClose(rest, quote) == Shift(i, FindClose(rest[i..], quote))
    {
      FindCloseStep(rest, i, quote);
      if rest[i] == '\\' && quote == '"' {
        i := i + 2;
        if i > |rest| { return None; }
        continue;
      }
      if rest[i] == quote {
        if quote == '\'' && i + 1 < |rest| && rest[i + 1] == '\'' {
          i := i + 2;
          continue;
        }
        return Some(i);
      }
      i := i + 1;
    }
    NothingCloses(rest[i..], quote);
    r := None;
  }

  lemma NothingCloses(s: string, quote: char)
    requires s == ""
    ensures FindClose(s, quote) == None
  {
  }

  /** The closing quote follows a body of whole units and nothing else does. */
  lemma {:induction false} FindCloseIff(s: string, quote: char, e: nat)
    requires IsQuote(quote)
    ensures FindClose(s, quote) == Some(e)
       <==> e < |s| && s[e] == quote && QuotedBody(s[..e], quote)
            && !(quote == '\'' && e + 1 < |s| && s[e + 1] == '\'')
    decreases |s|
  {
    if s != "" {
      var n := UnitLength(s, quote);
      if n == 0 {
        if e > 0 && e < |s| { assert s[..e][0] == s[0]; UnitStable(s, e, quote); }
      } else if n <= |s| {
        if n <= e {
          FindCloseIff(s[n..], quote, e - n);
          if e <= |s| { assert s[..e][n..] == s[n..][..e - n]; UnitStable(s, e, quote); }
        } else if 0 < e < |s| {
          UnitStable(s, e, quote);
        }
      } else if 0 < e <= |s| {
        UnitStable(s, e, quote);
      }
    }
  }

  /** A unit of the front part is a unit of the whole, unless it is cut in two. */
  lemma UnitStable(s: string, e: nat, quote: char)
    requires 0 < e <= |s| && IsQuote(quote)
    ensures UnitLength(s[..e], quote) == UnitLength(s, quote)
         || (e == 1 && UnitLength(s[..e], quote) == 0 && UnitLength(s, quote) == 2)
  {
    assert s[..e][0] == s[0];
    if e > 1 { assert s[..e][1] == s[1]; }
  }

  lemma {:induction false} CloseAfterBody(body: string, quote: char, more: string)
    requires IsQuote(quote) && QuotedBody(body, quote)
    requires more == "" || more[0] != quote
    ensures FindClose(body + [quote] + more, quote) == Some(|body|)
  {
    var s := body + [quote] + more;
    assert s[..|body|] == body;
    FindCloseIff(s, quote, |body|);
  }

  // ---- comments ----

  /** Whether a run or a comment may open at `i`: at the start or after a space. */
  predicate Opens(line: string, i: nat)
    requires i <= |line|
  { i == 0 || IsSpace(line[i - 1]) }

  /** The offset past what starts at `i`: one byte, or a quoted run that closes. */
  function Skip(line: string, i: nat): (j: nat)
    requires i < |line|
    ensures i < j <= |line|
  {
    if IsQuote(line[i]) && Opens(line, i) then
      match FindClose(line[i + 1..], line[i])
      case Some(e) => i + 1 + e + 1
      case None => i + 1
    else i + 1
  }

  /** How much of the line from `i` on is content, which an unquoted `#` ends. */
  function ContentEnd(line: string, i: nat): (n: nat)
    requires i <= |line|
    ensures i <= n <= |line|
    ensures n < |line| ==> line[n] == '#' && Opens(line, n)
    decreases |line| - i
  {
    if i == |line| then i
    else if line[i] == '#' && Opens(line, i) then i
    else ContentEnd(line, Skip(line, i))
  }

  method StripComment(line: string) returns (n: nat)
    ensures n == ContentEnd(line, 0)
  {
    hide FindClose;
    var i := 0;
    while i < |line|
      invariant 0 <= i <= |line|
      invariant ContentEnd(line, i) == ContentEnd(line, 0)
    {
      var opens := i == 0 || IsSpace(line[i - 1]);
      var c := line[i];
      if c == '#' && opens { return i; }
      ghost var at := i;
      if (c == '"' || c == '\'') && opens {
        var end := ClosingQuote(line[i + 1..], c);
        if end.Some? { i := i + 1 + end.value; }
      }
      i := i + 1;
      assert i == Skip(line, at);
    }
    n := |line|;
  }

  predicate Unmarked(c: char) { !IsQuote(c) && c != '#' }

  lemma {:induction false} SkipUnmarked(line: string, i: nat, j: nat)
    requires i <= j <= |line| && forall k :: i <= k < j ==> Unmarked(line[k])
    ensures ContentEnd(line, i) == ContentEnd(line, j)
    decreases j - i
  {
    if i < j { SkipUnmarked(line, i + 1, j); }
  }

  // ---- keys ----

  datatype Pair = Pair(key: string, rest: string)

  /** The offset of the first `: `, or `|text|`. */
  function KeyBreak(text: string): (i: nat)
    ensures i <= |text|
    ensures i < |text| ==> i + 1 < |text| && text[i] == ':' && text[i + 1] == ' '
    ensures forall k :: 0 <= k < i && k + 1 < |text| ==> !(text[k] == ':' && text[k + 1] == ' ')
  {
    if |text| < 2 then |text|
    else if text[0] == ':' && text[1] == ' ' then 0
    else KeyBreak(text[1..]) + 1
  }

  lemma KeyBreakUnique(text: string, i: nat)
    requires i <= |text| && (i < |text| ==> i + 1 < |text| && text[i] == ':' && text[i + 1] == ' ')
    requires forall k :: 0 <= k < i && k + 1 < |text| ==> !(text[k] == ':' && text[k + 1] == ' ')
    ensures KeyBreak(text) == i
  {
  }

  function TrimStart(s: string): (t: string)
    ensures t == "" || !IsSpace(t[0])
  {
    if s != "" && IsSpace(s[0]) then TrimStart(s[1..]) else s
  }

  predicate BareKey(key: string) { key != "" && forall i :: 0 <= i < |key| ==> IsKeyChar(key[i]) }

  /** The bare key a line opens with and what follows its colon. */
  function KeyOf(text: string): Option<Pair> {
    var i := KeyBreak(text);
    var key := if i < |text| then text[..i]
               else if text != "" && text[|text| - 1] == ':' then text[..|text| - 1] else "";
    var rest := if i < |text| then TrimStart(text[i + 2..]) else "";
    if BareKey(key) then Some(Pair(key, rest)) else None
  }

  method FindBreak(text: string) returns (i: nat)
    ensures i == KeyBreak(text)
  {
    hide KeyBreak;
    var len := |text|;
    i := 0;
    while i + 1 < len
      invariant i <= len
      invariant forall k :: 0 <= k < i && k + 1 < len ==> !(text[k] == ':' && text[k + 1] == ' ')
    {
      if text[i] == ':' && text[i + 1] == ' ' {
        KeyBreakUnique(text, i);
        return;
      }
      i := i + 1;
    }
    i := len;
    KeyBreakUnique(text, len);
  }

  method SkipSpaces(text: string) returns (rest: string)
    ensures rest == TrimStart(text)
  {
    rest := text;
    while |rest| > 0 && IsSpace(rest[0])
      invariant TrimStart(rest) == TrimStart(text)
      decreases |rest|
    {
      rest := rest[1..];
    }
  }

  method SplitKey(text: string) returns (r: Option<Pair>)
    ensures r == KeyOf(text)
  {
    hide KeyBreak, TrimStart;
    var len := |text|;
    var i := FindBreak(text);
    var klen, rest := 0, "";
    if i < len {
      klen := i;
      rest := SkipSpaces(text[i + 2..]);
    } else if len > 0 && text[len - 1] == ':' {
      klen := len - 1;
    } else {
      return None;
    }
    if klen == 0 { return None; }
    var k := 0;
    while k < klen
      invariant 0 <= k <= klen
      invariant forall j :: 0 <= j < k ==> IsKeyChar(text[j])
    {
      if !IsKeyChar(text[k]) { return None; }
      k := k + 1;
    }
    r := Some(Pair(text[..klen], rest));
  }

  // ---- scalars ----

  datatype Escaped = Text(text: string) | NotAnEscape | TrailingBackslash

  function Prepend(c: char, r: Escaped): Escaped {
    if r.Text? then Text([c] + r.text) else r
  }

  /** What an escape after a backslash stands for. */
  function EscapeOf(c: char): Option<char> {
    match c
    case '"' => Some('"') case '\\' => Some('\\') case 'n' => Some('\n') case 'r' => Some('\r')
    case 't' => Some('\t') case 'b' => Some(BACKSPACE) case 'f' => Some(FORMFEED) case '0' => Some(NUL)
    case _ => None
  }

  /** What the front of a quoted body spells, and the bytes it takes. */
  datatype Piece = Piece(c: char, n: nat) | BadEscape | LoneBackslash

  function FirstPiece(body: string, quote: char): (p: Piece)
    requires body != ""
    ensures p.Piece? ==> 1 <= p.n <= |body|
  {
    if quote == '\'' then
      Piece(body[0], if |body| > 1 && body[0] == '\'' && body[1] == '\'' then 2 else 1)
    else if body[0] != '\\' then Piece(body[0], 1)
    else if |body| == 1 then LoneBackslash
    else
      match EscapeOf(body[1])
      case None => BadEscape
      case Some(c) => Piece(c, 2)
  }

  /** The text a quoted body spells. */
  function Unescape(body: string, quote: char): (r: Escaped)
    ensures r.Text? ==> |r.text| <= |body|
    decreases |body|
  {
    if body == "" then Text("")
    else
      match FirstPiece(body, quote)
      case Piece(c, n) => Prepend(c, Unescape(body[n..], quote))
      case BadEscape => NotAnEscape
      case LoneBackslash => TrailingBackslash
  }

  /**
    The unescape loop, into a buffer of the body's length: that room is enough
    for what is written, which the bounds of `dst` prove.
   */
  method UnescapeInto(body: string, quote: char) returns (r: Escaped)
    ensures r == Unescape(body, quote)
  {
    hide Unescape;
    var dst := new char[|body| + 1];
    var i, n := 0, 0;
    assert body[0..] == body;
    AppendNothing(Unescape(body, quote));
    while i < |body|
      invariant 0 <= n <= i <= |body|
      invariant Unescape(body, quote) == Append(dst[..n], Unescape(body[i..], quote))
    {
      ghost var before := dst[..n];
      UnescapeStep(body, i, quote);
      var c := body[i];
      if quote == '\'' {
        if body[i] == '\'' && i + 1 < |body| && body[i + 1] == '\'' { i := i + 1; }
      } else if body[i] == '\\' {
        if i + 1 >= |body| { return TrailingBackslash; }
        i := i + 1;
        var escape := EscapeOf(body[i]);
        if escape == None { return NotAnEscape; }
        c := escape.value;
      }
      i := i + 1;
      AppendPrepend(before, c, Unescape(body[i..], quote));
      dst[n] := c;
      n := n + 1;
      assert dst[..n] == before + [c];
    }
    UnescapeEnd(body[i..], quote);
    dst[n] := NUL;
    r := Text(dst[..n]);
  }

  lemma UnescapeStep(body: string, i: nat, quote: char)
    requires i < |body|
    ensures var p := FirstPiece(body[i..], quote);
            Unescape(body[i..], quote)
              == match p
                 case Piece(c, n) => Prepend(c, Unescape(body[i + n..], quote))
                 case BadEscape => NotAnEscape
                 case LoneBackslash => TrailingBackslash
  {
    var p := FirstPiece(body[i..], quote);
    if p.Piece? { assert body[i..][p.n..] == body[i + p.n..]; }
  }

  lemma UnescapeEnd(body: string, quote: char)
    requires body == ""
    ensures Unescape(body, quote) == Text("")
  {
  }

  ghost function Append(s: string, r: Escaped): Escaped {
    if r.Text? then Text(s + r.text) else r
  }

  lemma AppendNothing(r: Escaped)
    ensures Append("", r) == r
  {
    if r.Text? { assert "" + r.text == r.text; }
  }

  lemma AppendPrepend(s: string, c: char, r: Escaped)
    ensures Append(s, Prepend(c, r)) == Append(s + [c], r)
  {
    if r.Text? { assert s + ([c] + r.text) == s + [c] + r.text; }
  }

  /** Between its quotes a run never ends in a lone backslash. */
  lemma {:induction false} NoTrailingBackslash(body: string, quote: char)
    requires QuotedBody(body, quote) && IsQuote(quote)
    ensures Unescape(body, quote) != TrailingBackslash
    decreases |body|
  {
    if body != "" {
      var n := UnitLength(body, quote);
      NoTrailingBackslash(body[n..], quote);
    }
  }

  /** A scalar as read: its text and whether it was quoted. */
  datatype Spelled = Spelled(text: string, quoted: bool)

  const CONSTRUCTS := "[]{}&*!|>%@`"

  /** What the text of a scalar spells, if it is one this reader reads. */
  function ScalarOf(text: string): Option<Spelled> {
    if text != "" && IsQuote(text[0]) then
      var e :- FindClose(text[1..], text[0]);
      if e + 2 != |text| then None
      else
        match Unescape(text[1..e + 1], text[0])
        case Text(t) => Some(Spelled(t, true))
        case _ => None
    else if text != "" && text[0] in CONSTRUCTS then None
    else Some(Spelled(text, false))
  }

  method ReadScalar(text: string) returns (r: Option<Spelled>)
    ensures r == ScalarOf(text)
  {
    for q := 0 to 2
      invariant q >= 1 ==> text == "" || text[0] != '"'
      invariant q >= 2 ==> text == "" || text[0] != '\''
    {
      var quote := if q == 0 then '"' else '\'';
      if |text| == 0 || text[0] != quote { continue; }
      var body := text[1..];
      var end := ClosingQuote(body, quote);
      if end == None { return None; }
      if end.value + 1 != |body| { return None; }
      FindCloseIff(body, quote, end.value);
      NoTrailingBackslash(body[..end.value], quote);
      assert text[1..end.value + 1] == body[..end.value];
      var inside := UnescapeInto(body[..end.value], quote);
      match inside {
        case Text(t) => return Some(Spelled(t, true));
        case NotAnEscape => return None;
        case TrailingBackslash => assert false;
      }
    }
    if |text| > 0 && text[0] != NUL && text[0] in CONSTRUCTS { return None; }
    r := Some(Spelled(text, false));
  }

  // ---- writing a scalar ----

  /** The escape a double quoted run needs for a byte, or the byte itself. */
  function EscapeChar(c: char): string {
    if c == '"' then "\\\"" else if c == '\\' then "\\\\" else if c == '\n' then "\\n"
    else if c == '\r' then "\\r" else if c == '\t' then "\\t" else [c]
  }

  function Escape(text: string): string {
    if text == "" then "" else EscapeChar(text[0]) + Escape(text[1..])
  }

  /** One more unit in front, spelling one more byte. */
  lemma ReadsOneMore(front: string, c: char, rest: string, text: string, quote: char)
    requires front != "" && UnitLength(front + rest, quote) == |front|
    requires FirstPiece(front + rest, quote) == Piece(c, |front|)
    requires QuotedBody(rest, quote) && Unescape(rest, quote) == Text(text)
    ensures QuotedBody(front + rest, quote) && Unescape(front + rest, quote) == Text([c] + text)
  {
    assert (front + rest)[|front|..] == rest;
  }

  lemma EscapeCharIsOnePiece(c: char, rest: string)
    ensures var front := EscapeChar(c);
            UnitLength(front + rest, '"') == |front| && FirstPiece(front + rest, '"') == Piece(c, |front|)
    ensures forall x :: x in EscapeChar(c) ==> x != '\n' && x != '\t'
  {
    var s := EscapeChar(c) + rest;
    assert s[0] == EscapeChar(c)[0];
    if |EscapeChar(c)| == 2 { assert s[1] == EscapeChar(c)[1]; }
  }

  lemma {:induction false} EscapeReads(text: string)
    ensures QuotedBody(Escape(text), '"') && Unescape(Escape(text), '"') == Text(text)
    ensures forall c :: c in Escape(text) ==> c != '\n' && c != '\t'
  {
    if text == "" {
      assert Unescape("", '"') == Text("");
    } else {
      hide Unescape, QuotedBody;
      EscapeReads(text[1..]);
      EscapeCharIsOnePiece(text[0], Escape(text[1..]));
      ReadsOneMore(EscapeChar(text[0]), text[0], Escape(text[1..]), text[1..], '"');
      assert text == [text[0]] + text[1..];
    }
  }

  /** A single quoted run doubles its quote and escapes nothing else. */
  function Double(text: string): string {
    if text == "" then "" else (if text[0] == '\'' then "\'\'" else [text[0]]) + Double(text[1..])
  }

  lemma {:induction false} DoubleReads(text: string)
    ensures QuotedBody(Double(text), '\'') && Unescape(Double(text), '\'') == Text(text)
  {
    if text != "" {
      DoubleReads(text[1..]);
      ReadsOneMore(if text[0] == '\'' then "\'\'" else [text[0]], text[0], Double(text[1..]), text[1..], '\'');
      assert text == [text[0]] + text[1..];
    }
  }

  /** Any text at all comes back from either quoting style, quoted. */
  lemma {:induction false} QuotedReads(text: string)
    ensures ScalarOf("\"" + Escape(text) + "\"") == Some(Spelled(text, true))
    ensures ScalarOf("'" + Double(text) + "'") == Some(Spelled(text, true))
  {
    EscapeReads(text);
    DoubleReads(text);
    BodyReads(Escape(text), '"', text);
    BodyReads(Double(text), '\'', text);
  }

  lemma BodyReads(body: string, quote: char, text: string)
    requires IsQuote(quote) && QuotedBody(body, quote) && Unescape(body, quote) == Text(text)
    ensures ScalarOf([quote] + body + [quote]) == Some(Spelled(text, true))
  {
    hide ScalarOf, Unescape, QuotedBody;
    BodyIsRead(body, quote);
  }

  /** A closed run between its quotes is read as what it spells. */
  lemma BodyIsRead(body: string, quote: char)
    requires IsQuote(quote) && QuotedBody(body, quote)
    ensures ScalarOf([quote] + body + [quote]) ==
      match Unescape(body, quote) case Text(t) => Some(Spelled(t, true)) case _ => None
  {
    hide Unescape, QuotedBody, FindClose;
    var s := [quote] + body + [quote];
    CloseAfterBody(body, quote, "");
    assert s[1..] == body + [quote] + "";
    assert s[1..|body| + 1] == body;
  }
}
