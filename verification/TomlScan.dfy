/**
  Inside one line of the TOML subset of crates/xtask/src/toml.rs: where a comment
  starts, what a trimmed text is, and what a value spells.
 */
module TomlScan {
  import opened Common
  import opened Decimal
  import opened YamlScan

  // ---- space ----

  /** `char::is_whitespace`. */
  predicate White(c: char) {
    var u := c as int;
    9 <= u <= 13 || u == 32 || u == 0x85 || u == 0xA0 || u == 0x1680 || 0x2000 <= u <= 0x200A ||
    u == 0x2028 || u == 0x2029 || u == 0x202F || u == 0x205F || u == 0x3000
  }

  predicate AllWhite(s: string) { forall i :: 0 <= i < |s| ==> White(s[i]) }

  function TrimFront(s: string): (t: string)
    ensures t == "" || !White(t[0])
    ensures |t| <= |s|
  { if s != "" && White(s[0]) then TrimFront(s[1..]) else s }

  function TrimBack(s: string): (t: string)
    ensures t == "" || !White(t[|t| - 1])
    ensures t <= s
  { if s != "" && White(s[|s| - 1]) then TrimBack(s[..|s| - 1]) else s }

  function Trim(s: string): (t: string)
    ensures |t| <= |s|
  { TrimBack(TrimFront(s)) }

  /** A text that begins and ends with something to see. */
  predicate Visible(s: string) { s != "" && !White(s[0]) && !White(s[|s| - 1]) }

  lemma {:induction false} TrimFrontOver(a: string, s: string)
    requires AllWhite(a) && (s == "" || !White(s[0]))
    ensures TrimFront(a + s) == s
  {
    if a == "" {
      assert a + s == s;
    } else {
      TrimFrontOver(a[1..], s);
      assert (a + s)[1..] == a[1..] + s;
    }
  }

  lemma {:induction false} TrimBackOver(s: string, b: string)
    requires AllWhite(b) && (s == "" || !White(s[|s| - 1]))
    ensures TrimBack(s + b) == s
  {
    if b == "" {
      assert s + b == s;
    } else {
      TrimBackOver(s, b[..|b| - 1]);
      assert (s + b)[..|s + b| - 1] == s + b[..|b| - 1];
    }
  }

  /** Trimming takes the space on both sides and nothing of what is seen. */
  lemma TrimOver(a: string, s: string, b: string)
    requires AllWhite(a) && AllWhite(b) && Visible(s)
    ensures Trim(a + s + b) == s
  {
    assert a + s + b == a + (s + b);
    TrimFrontOver(a, s + b);
    TrimBackOver(s, b);
  }

  lemma {:induction false} TrimNothing(s: string)
    requires AllWhite(s)
    ensures Trim(s) == ""
  {
    TrimFrontOver(s, "");
    assert s + "" == s;
  }

  // ---- comments ----

  /** How much of the rest of a line comes before its comment. */
  function Cut(s: string, quoted: bool): (n: nat)
    ensures n <= |s|
    decreases |s|
  {
    if s == "" then 0
    else if s[0] == '"' then 1 + Cut(s[1..], !quoted)
    else if s[0] == '\\' && quoted then if |s| == 1 then 1 else 2 + Cut(s[2..], quoted)
    else if s[0] == '#' && !quoted then 0
    else 1 + Cut(s[1..], quoted)
  }

  method StripComment(line: string) returns (n: nat)
    ensures n == Cut(line, false)
  {
    hide Cut;
    var i, quoted := 0, false;
    assert line[0..] == line;
    while i < |line|
      invariant 0 <= i <= |line|
      invariant Cut(line, false) == i + Cut(line[i..], quoted)
    {
      CutStep(line, i, quoted);
      if line[i] == '"' {
        quoted := !quoted;
      } else if line[i] == '\\' && quoted {
        if i + 1 == |line| {
          return |line|;
        }
        i := i + 1;
      } else if line[i] == '#' && !quoted {
        return i;
      }
      i := i + 1;
    }
    CutEnd(line[i..], quoted);
    return |line|;
  }

  lemma CutEnd(s: string, quoted: bool)
    requires s == ""
    ensures Cut(s, quoted) == 0
  {
  }

  lemma CutStep(line: string, i: nat, quoted: bool)
    requires i < |line|
    ensures Cut(line[i..], quoted) ==
      if line[i] == '"' then 1 + Cut(line[i + 1..], !quoted)
      else if line[i] == '\\' && quoted then if i + 1 == |line| then 1 else 2 + Cut(line[i + 2..], quoted)
      else if line[i] == '#' && !quoted then 0
      else 1 + Cut(line[i + 1..], quoted)
  {
    assert line[i..][1..] == line[i + 1..];
    if i + 1 < |line| {
      assert line[i..][2..] == line[i + 2..];
    }
  }

  /** Whether a text with no comment in it ends inside a string, begun inside one or not. */
  function Scan(s: string, quoted: bool): Option<bool>
    decreases |s|
  {
    if s == "" then Some(quoted)
    else if s[0] == '"' then Scan(s[1..], !quoted)
    else if s[0] == '\\' && quoted then if |s| == 1 then None else Scan(s[2..], quoted)
    else if s[0] == '#' && !quoted then None
    else Scan(s[1..], quoted)
  }

  lemma {:induction false} CutAfter(a: string, b: string, quoted: bool)
    requires Scan(a, quoted).Some?
    ensures Cut(a + b, quoted) == |a| + Cut(b, Scan(a, quoted).value)
    decreases |a|
  {
    if a == "" {
      assert a + b == b;
    } else {
      var n := if a[0] == '\\' && quoted then 2 else 1;
      assert (a + b)[n..] == a[n..] + b;
      CutAfter(a[n..], b, if a[0] == '"' then !quoted else quoted);
    }
  }

  lemma {:induction false} ScanAfter(a: string, b: string, quoted: bool)
    requires Scan(a, quoted).Some?
    ensures Scan(a + b, quoted) == Scan(b, Scan(a, quoted).value)
    decreases |a|
  {
    if a == "" {
      assert a + b == b;
    } else {
      var n := if a[0] == '\\' && quoted then 2 else 1;
      assert (a + b)[n..] == a[n..] + b;
      ScanAfter(a[n..], b, if a[0] == '"' then !quoted else quoted);
    }
  }

  predicate Plain(s: string) { forall i :: 0 <= i < |s| ==> s[i] != '"' && s[i] != '#' && s[i] != '\\' }

  lemma {:induction false} ScanPlain(s: string, quoted: bool)
    requires Plain(s)
    ensures Scan(s, quoted) == Some(quoted)
  {
    if s != "" {
      ScanPlain(s[1..], quoted);
    }
  }

  // ---- strings ----

  function EscapeFor(c: char): Option<char> {
    match c
    case '"' => Some('"') case '\\' => Some('\\') case 'n' => Some('\n') case 't' => Some('\t')
    case _ => None
  }

  /** What the body of a string spells. */
  function Decoded(body: string): Option<string>
    decreases |body|
  {
    if body == "" then Some("")
    else if body[0] != '\\' then Before(body[0], Decoded(body[1..]))
    else if |body| == 1 then None
    else
      match EscapeFor(body[1])
      case None => None
      case Some(c) => Before(c, Decoded(body[2..]))
  }

  function Before(c: char, r: Option<string>): Option<string> {
    match r
    case None => None
    case Some(rest) => Some([c] + rest)
  }

  function Onto(out: string, r: Option<string>): Option<string> {
    match r
    case None => None
    case Some(rest) => Some(out + rest)
  }

  lemma OntoBefore(out: string, c: char, r: Option<string>)
    ensures Onto(out, Before(c, r)) == Onto(out + [c], r)
    ensures Onto("", r) == r
  {
    if r.Some? {
      assert out + ([c] + r.value) == out + [c] + r.value;
      assert "" + r.value == r.value;
    }
  }

  lemma DecodedStep(body: string, i: nat)
    requires i < |body|
    ensures Decoded(body[i..]) ==
      if body[i] != '\\' then Before(body[i], Decoded(body[i + 1..]))
      else if i + 1 == |body| || EscapeFor(body[i + 1]).None? then None
      else Before(EscapeFor(body[i + 1]).value, Decoded(body[i + 2..]))
  {
    assert body[i..][1..] == body[i + 1..];
    if i + 1 < |body| {
      assert body[i..][2..] == body[i + 2..];
    }
  }

  /** `unescape`. */
  method Unescaped(body: string) returns (r: Option<string>)
    ensures r == Decoded(body)
  {
    hide Decoded;
    var i, out := 0, "";
    assert body[0..] == body;
    OntoBefore("", ' ', Decoded(body));
    while i < |body|
      invariant 0 <= i <= |body|
      invariant Onto(out, Decoded(body[i..])) == Decoded(body)
    {
      DecodedStep(body, i);
      var c := body[i];
      i := i + 1;
      if c == '\\' {
        if i == |body| {
          return None;
        }
        var e := EscapeFor(body[i]);
        if e.None? {
          return None;
        }
        c := e.value;
        i := i + 1;
      }
      OntoBefore(out, c, Decoded(body[i..]));
      out := out + [c];
    }
    DecodedEnd(body[i..]);
    assert out + "" == out;
    return Some(out);
  }

  lemma DecodedEnd(s: string)
    requires s == ""
    ensures Decoded(s) == Some("")
  {
  }

  /** The escape a string needs for a character, or the character itself. */
  function Escaping(c: char): string {
    if c == '"' then "\\\"" else if c == '\\' then "\\\\" else if c == '\n' then "\\n"
    else if c == '\t' then "\\t" else [c]
  }

  function Encoded(s: string): string { if s == "" then "" else Escaping(s[0]) + Encoded(s[1..]) }

  /** A character's spelling in front of a body is one piece to every scanner of the body. */
  lemma OnePiece(c: char, rest: string)
    ensures var s := Escaping(c) + rest;
            Decoded(s) == Before(c, Decoded(rest)) && Scan(s, true) == Scan(rest, true)
            && (QuotedBody(s, '"') <==> QuotedBody(rest, '"'))
  {
    var s := Escaping(c) + rest;
    assert s[|Escaping(c)|..] == rest;
    assert s[0] == Escaping(c)[0];
    if |Escaping(c)| == 2 {
      assert s[1] == Escaping(c)[1];
    }
  }

  /** What is encoded is decoded, and no scanner sees its end too soon. */
  lemma {:induction false} EncodedReads(s: string)
    ensures Decoded(Encoded(s)) == Some(s) && Scan(Encoded(s), true) == Some(true) && QuotedBody(Encoded(s), '"')
  {
    if s == "" {
      assert Decoded("") == Some("");
    } else {
      hide Decoded, Scan, QuotedBody, Escaping;
      EncodedReads(s[1..]);
      OnePiece(s[0], Encoded(s[1..]));
      assert s == [s[0]] + s[1..];
    }
  }

  lemma {:induction false} EncodedOneLine(s: string)
    ensures '\n' !in Encoded(s)
  {
    if s != "" {
      EncodedOneLine(s[1..]);
    }
  }

  function Quoted(s: string): string { "\"" + Encoded(s) + "\"" }

  // ---- values ----

  datatype Value = Str(s: string) | Int(i: int) | Bool(b: bool) | List(items: seq<string>)

  /** A value that is not a list. */
  function ReadSimple(text: string): Option<Value> {
    if text == "true" then Some(Bool(true))
    else if text == "false" then Some(Bool(false))
    else if text == "" then None
    else if text[0] == '"' then
      match FindClose(text[1..], '"')
      case None => None
      case Some(e) =>
        if e + 2 != |text| then None
        else
          match Decoded(text[1..e + 1])
          case None => None
          case Some(s) => Some(Str(s))
    else if AllDigits(text) && Decimal.Value(text) <= INT64_MAX then Some(Int(Decimal.Value(text)))
    else None
  }

  /** The items of a list, an empty one passed over when some are read and a comma ends the list. */
  function ReadItems(parts: seq<string>, items: seq<string>, trailing: bool): Option<seq<string>> {
    if parts == [] then Some(items)
    else
      var item := Trim(parts[0]);
      if item == "" then
        if items == [] || !trailing then None else ReadItems(parts[1..], items, trailing)
      else
        match ReadSimple(item)
        case Some(Str(s)) => ReadItems(parts[1..], items + [s], trailing)
        case _ => None
  }

  predicate EndsInComma(s: string) { var t := TrimBack(s); t != "" && t[|t| - 1] == ',' }

  function ReadValue(text: string): Option<Value> {
    if text == "" || text[0] != '[' then ReadSimple(text)
    else if |text| < 2 || text[|text| - 1] != ']' then None
    else
      var body := text[1..|text| - 1];
      if Trim(body) == "" then Some(List([]))
      else
        match ReadItems(Split(body, ','), [], EndsInComma(body))
        case None => None
        case Some(items) => Some(List(items))
  }

  lemma ItemsStep(parts: seq<string>, i: nat, items: seq<string>, trailing: bool)
    requires i < |parts|
    ensures var item := Trim(parts[i]);
            ReadItems(parts[i..], items, trailing) ==
            if item == "" then
              if items == [] || !trailing then None else ReadItems(parts[i + 1..], items, trailing)
            else if ReadSimple(item).Some? && ReadSimple(item).value.Str? then
              ReadItems(parts[i + 1..], items + [ReadSimple(item).value.s], trailing)
            else None
  {
    hide ReadSimple, Trim;
    assert parts[i..][1..] == parts[i + 1..];
  }

  /** A value in a list is a string or nothing: a list in a list is refused as a number would be. */
  lemma SimpleInList(item: string)
    ensures ReadSimple(item).Some? && ReadSimple(item).value.Str? <==>
      ReadValue(item).Some? && ReadValue(item).value.Str?
    ensures ReadValue(item).Some? && ReadValue(item).value.Str? ==> ReadValue(item) == ReadSimple(item)
  {
  }

  /** `parse_value`, calling itself on the items of a list. */
  method ParseValue(text: string) returns (r: Option<Value>)
    ensures r == ReadValue(text)
    decreases |text|
  {
    hide FindClose, Decoded, ReadItems, Trim;
    if text == "true" {
      return Some(Bool(true));
    } else if text == "false" {
      return Some(Bool(false));
    } else if text == "" {
      return None;
    }
    if text[0] == '"' {
      var rest := text[1..];
      var end := ClosingQuote(rest, '"');
      if end.None? || end.value + 1 != |rest| {
        return None;
      }
      assert text[1..end.value + 1] == rest[..end.value];
      var s := Unescaped(rest[..end.value]);
      return if s.Some? then Some(Str(s.value)) else None;
    }
    if text[0] == '[' {
      if |text| < 2 || text[|text| - 1] != ']' {
        return None;
      }
      var items := ParseList(text[1..|text| - 1]);
      return if items.Some? then Some(List(items.value)) else None;
    }
    if AllDigits(text) && Decimal.Value(text) <= INT64_MAX {
      return Some(Int(Decimal.Value(text)));
    }
    return None;
  }

  /** The list branch of `parse_value`. */
  method ParseList(body: string) returns (r: Option<seq<string>>)
    ensures r == if Trim(body) == "" then Some([]) else ReadItems(Split(body, ','), [], EndsInComma(body))
    decreases |body| + 1
  {
    hide ReadSimple, ReadValue, ReadItems, Trim, Split, EndsInComma;
    if Trim(body) == "" {
      return Some([]);
    }
    var parts, items := Split(body, ','), [];
    SplitShorter(body, ',');
    assert parts[0..] == parts;
    for i := 0 to |parts|
      invariant ReadItems(parts[i..], items, EndsInComma(body)) == ReadItems(parts, [], EndsInComma(body))
    {
      ItemsStep(parts, i, items, EndsInComma(body));
      assert parts[i] in parts;
      var item := Trim(parts[i]);
      if item == "" {
        if items == [] || !EndsInComma(body) {
          return None;
        }
        continue;
      }
      SimpleInList(item);
      var value := ParseValue(item);
      if value.None? || !value.value.Str? {
        return None;
      }
      items := items + [value.value.s];
    }
    NoItems(parts[|parts|..], items, EndsInComma(body));
    return Some(items);
  }

  lemma NoItems(parts: seq<string>, items: seq<string>, trailing: bool)
    requires parts == []
    ensures ReadItems(parts, items, trailing) == Some(items)
  {
  }

  lemma {:induction false} SplitShorter(s: string, c: char)
    ensures forall p :: p in Split(s, c) ==> |p| <= |s|
    decreases |s|
  {
    var i := IndexOf(s, c);
    if i < |s| {
      SplitShorter(s[i + 1..], c);
    }
  }

  // ---- writing a value ----

  function ListBody(items: seq<string>): string {
    if items == [] then ""
    else if |items| == 1 then Quoted(items[0])
    else Quoted(items[0]) + ", " + ListBody(items[1..])
  }

  function ValueText(v: Value): string
    requires v.Int? ==> v.i >= 0
  {
    match v
    case Str(s) => Quoted(s)
    case Int(i) => Dec(i)
    case Bool(b) => if b then "true" else "false"
    case List(items) => "[" + ListBody(items) + "]"
  }

  lemma StringReads(s: string)
    ensures ReadSimple(Quoted(s)) == Some(Str(s)) && Visible(Quoted(s))
  {
    hide FindClose, Decoded, Scan, QuotedBody, Encoded;
    EncodedReads(s);
    var text := Quoted(s);
    CloseAfterBody(Encoded(s), '"', "");
    assert text[1..] == Encoded(s) + ['"'] + "";
    assert text[1..|Encoded(s)| + 1] == Encoded(s);
  }

  /** Nothing of a body closes it. */
  lemma {:induction false} PrefixStaysOpen(b: string, e: string)
    requires QuotedBody(b, '"') && e <= b
    ensures FindClose(e, '"') == None
    decreases |b|
  {
    if e != "" {
      var n := UnitLength(b, '"');
      assert UnitLength(e, '"') == n;
      if n <= |e| {
        PrefixStaysOpen(b[n..], e[n..]);
      }
    }
  }

  /** A string cut short anywhere before its closing quote is no value. */
  lemma CutString(s: string, lead: string, k: nat)
    requires AllWhite(lead) && k <= |Encoded(s)|
    ensures Trim(lead + "\"" + Encoded(s)[..k]) != ""
    ensures ReadSimple(Trim(lead + "\"" + Encoded(s)[..k])) == None
  {
    hide FindClose, Decoded, Scan, QuotedBody, Encoded, ReadSimple, White;
    EncodedReads(s);
    QuoteSeen();
    var open := "\"" + Encoded(s)[..k];
    assert lead + "\"" + Encoded(s)[..k] == lead + open;
    TrimFrontOver(lead, open);
    var t := TrimBack(open);
    TrimBackKeeps(open);
    assert open[1..] == Encoded(s)[..k];
    assert t[1..] <= Encoded(s);
    OpenIsNoValue(Encoded(s), t);
  }

  lemma QuoteSeen()
    ensures !White('"')
  {
  }

  lemma OpenIsNoValue(b: string, t: string)
    requires QuotedBody(b, '"') && t != "" && t[0] == '"' && t[1..] <= b
    ensures ReadSimple(t) == None
  {
    hide FindClose, Decoded, QuotedBody;
    PrefixStaysOpen(b, t[1..]);
    assert t != "true" && t != "false";
  }

  lemma {:induction false} TrimBackKeeps(s: string)
    requires s != "" && !White(s[0])
    ensures TrimBack(s) != "" && TrimBack(s)[0] == s[0]
  {
    if |s| > 1 && White(s[|s| - 1]) {
      TrimBackKeeps(s[..|s| - 1]);
    }
  }

  lemma {:induction false} CommaEncoded(s: string)
    ensures ',' in Encoded(s) <==> ',' in s
  {
    if s != "" {
      CommaEncoded(s[1..]);
      assert s == [s[0]] + s[1..];
      assert ',' in Escaping(s[0]) <==> s[0] == ',';
    }
  }

  /** One comma-free item read off the front of what is left of a list. */
  lemma ItemFirst(s: string, lead: string, rest: string, got: seq<string>, trailing: bool)
    requires AllWhite(lead) && ',' !in lead && ',' !in s
    ensures ReadItems(Split(lead + Quoted(s) + [','] + rest, ','), got, trailing) ==
      ReadItems(Split(rest, ','), got + [s], trailing)
    ensures ReadItems(Split(lead + Quoted(s), ','), got, trailing) == Some(got + [s])
  {
    hide Encoded, Trim, ReadSimple, Split, White;
    CommaEncoded(s);
    StringReads(s);
    TrimOver(lead, Quoted(s), "");
    var part := lead + Quoted(s);
    assert part + "" == part;
    SplitConcat(part, ',', rest);
    SplitNone(part, ',');
    var parts := Split(part + [','] + rest, ',');
    assert parts[1..] == Split(rest, ',');
    ItemsStep(parts, 0, got, trailing);
    assert parts[0..] == parts;
    ItemsStep([part], 0, got, trailing);
    assert [part][0..] == [part];
    NoItems([part][1..], got + [s], trailing);
  }

  lemma SpaceIsWhite()
    ensures AllWhite(" ") && AllWhite("")
  {
  }

  lemma CutAtComma(e: string, k: nat, lead: string, more: string)
    requires k < |e| && e[k] == ','
    ensures lead + ("\"" + e + "\"") + more == lead + "\"" + e[..k] + [','] + (e[k + 1..] + "\"" + more)
  {
  }

  /** An item with a comma in it is cut there, and refused. */
  lemma CommaRefused(s: string, lead: string, more: string, got: seq<string>, trailing: bool)
    requires AllWhite(lead) && ',' !in lead && ',' in s
    ensures ReadItems(Split(lead + Quoted(s) + more, ','), got, trailing) == None
  {
    hide Trim, ReadSimple, Split, White, Encoded, ReadItems;
    CommaEncoded(s);
    var e := Encoded(s);
    var k := IndexOf(e, ',');
    var part, rest := lead + "\"" + e[..k], e[k + 1..] + "\"" + more;
    CutAtComma(e, k, lead, more);
    SplitConcat(part, ',', rest);
    CutString(s, lead, k);
    var parts := Split(part + [','] + rest, ',');
    ItemsStep(parts, 0, got, trailing);
    assert parts[0..] == parts;
  }

  /** The items of a written list come back exactly when none of them holds a comma. */
  lemma {:induction false} ItemsRead(items: seq<string>, lead: string, got: seq<string>, trailing: bool)
    requires items != [] && AllWhite(lead) && ',' !in lead
    ensures ReadItems(Split(lead + ListBody(items), ','), got, trailing) ==
      if forall s :: s in items ==> ',' !in s then Some(got + items) else None
  {
    hide Quoted, ReadItems, Split, White;
    var s, rest := items[0], items[1..];
    if |items| == 1 {
      assert items == [s];
      assert lead + ListBody(items) == lead + Quoted(s) && lead + Quoted(s) + "" == lead + Quoted(s);
      if ',' in s {
        CommaRefused(s, lead, "", got, trailing);
      } else {
        ItemFirst(s, lead, "", got, trailing);
      }
    } else {
      assert items == [s] + rest;
      var more := " " + ListBody(rest);
      assert lead + ListBody(items) == lead + Quoted(s) + [','] + more;
      assert lead + Quoted(s) + ([','] + more) == lead + Quoted(s) + [','] + more;
      if ',' in s {
        CommaRefused(s, lead, [','] + more, got, trailing);
      } else {
        ItemFirst(s, lead, more, got, trailing);
        SpaceIsWhite();
        ItemsRead(rest, " ", got + [s], trailing);
        assert got + [s] + rest == got + items;
        assert forall x :: x in items <==> x == s || x in rest;
      }
    }
  }

  lemma ListBodySeen(items: seq<string>)
    requires items != []
    ensures Visible(ListBody(items))
  {
    hide Encoded;
    if |items| > 1 {
      ListBodySeen(items[1..]);
    }
  }

  lemma TrimSeen(s: string)
    requires Visible(s)
    ensures Trim(s) == s
  {
    SpaceIsWhite();
    TrimOver("", s, "");
    assert "" + s + "" == s;
  }

  /** A written list is read back exactly when no item has a comma, which splits an item wherever it stands. */
  lemma ListReadsIff(items: seq<string>)
    ensures ReadValue("[" + ListBody(items) + "]") ==
      if forall s :: s in items ==> ',' !in s then Some(List(items)) else None
  {
    hide Encoded, ListBody, Split, ReadItems, Trim, ReadSimple, White;
    var text := "[" + ListBody(items) + "]";
    var body := text[1..|text| - 1];
    assert body == ListBody(items);
    if items == [] {
      NothingToTrim();
    } else {
      ListBodySeen(items);
      TrimSeen(body);
      SpaceIsWhite();
      ItemsRead(items, "", [], EndsInComma(body));
      assert "" + body == body && [] + items == items;
    }
  }

  lemma NothingToTrim()
    ensures Trim("") == "" && ListBody([]) == ""
  {
  }

  predicate Writable(v: Value) {
    match v
    case Int(i) => 0 <= i <= INT64_MAX
    case List(items) => forall s :: s in items ==> ',' !in s
    case _ => true
  }

  /** Every value of the subset comes back from its own text. */
  lemma ValueReads(v: Value)
    requires v.Int? ==> v.i >= 0
    ensures ReadValue(ValueText(v)) == (if Writable(v) then Some(v) else None)
  {
    hide ReadSimple, ListBody;
    match v
    case Str(s) => StringReads(s);
    case Int(i) => IntReads(i);
    case Bool(b) => BoolReads(b);
    case List(items) => ListReadsIff(items);
  }

  lemma IntReads(i: nat)
    ensures ReadValue(Dec(i)) == if i <= INT64_MAX then Some(Int(i)) else None
  {
    hide Dec;
    assert IsDigit(Dec(i)[0]);
  }

  lemma BoolReads(b: bool)
    ensures ReadValue(ValueText(Bool(b))) == Some(Bool(b))
  {
  }

  // ---- every list text ----

  predicate Blank(part: string) { Trim(part) == "" }

  /** The string a part of a list spells. */
  function ItemOf(part: string): Option<string> {
    match ReadSimple(Trim(part))
    case Some(Str(s)) => Some(s)
    case _ => None
  }

  /** Every part is a string or nothing at all. */
  predicate Readable(parts: seq<string>) {
    forall i :: 0 <= i < |parts| ==> Blank(parts[i]) || ItemOf(parts[i]).Some?
  }

  /** No part is missing. */
  predicate Full(parts: seq<string>) { forall i :: 0 <= i < |parts| ==> !Blank(parts[i]) }

  /** The strings among the parts, in order. */
  function Strings(parts: seq<string>): seq<string> {
    if parts == [] then []
    else (if Blank(parts[0]) || ItemOf(parts[0]).None? then [] else [ItemOf(parts[0]).value]) + Strings(parts[1..])
  }

  /** What the reader makes of any parts at all, with any items in hand. */
  lemma {:induction false} PartsRead(parts: seq<string>, got: seq<string>, trailing: bool)
    ensures ReadItems(parts, got, trailing) ==
      if Readable(parts) && (Full(parts) || (trailing && (got != [] || !Blank(parts[0]))))
      then Some(got + Strings(parts)) else None
  {
    hide Trim, ReadSimple;
    if parts != [] {
      var first, rest := parts[0], parts[1..];
      assert parts == [first] + rest;
      assert Readable(parts) <==> (Blank(first) || ItemOf(first).Some?) && Readable(rest);
      assert Full(parts) <==> !Blank(first) && Full(rest);
      var more := if Blank(first) || ItemOf(first).None? then got else got + [ItemOf(first).value];
      PartsRead(rest, more, trailing);
      assert more + Strings(rest) == got + Strings(parts);
    } else {
      assert got + [] == got;
    }
  }

  /** A list of any text: its parts are strings, or missing where a comma ends the list and the first is there. */
  lemma ListReads(body: string)
    ensures var parts := Split(body, ',');
            ReadValue("[" + body + "]") ==
            if Blank(body) then Some(List([]))
            else if Readable(parts) && (Full(parts) || (EndsInComma(body) && !Blank(parts[0])))
            then Some(List(Strings(parts))) else None
  {
    hide Trim, ReadSimple, ReadItems, Split, Readable, Full, Strings, EndsInComma;
    var text := "[" + body + "]";
    assert text[0] == '[' && text[|text| - 1] == ']' && text[1..|text| - 1] == body;
    var parts := Split(body, ',');
    assert ReadValue(text) == if Blank(body) then Some(List([])) else
      match ReadItems(parts, [], EndsInComma(body)) case None => None case Some(items) => Some(List(items));
    PartsRead(parts, [], EndsInComma(body));
    var whole := Readable(parts) && (Full(parts) || (EndsInComma(body) && !Blank(parts[0])));
    assert ReadItems(parts, [], EndsInComma(body)) == if whole then Some([] + Strings(parts)) else None;
    assert [] + Strings(parts) == Strings(parts);
  }

  lemma {:induction false} TrimBackRest(s: string)
    ensures AllWhite(s[|TrimBack(s)|..])
  {
    if s != "" && White(s[|s| - 1]) {
      var shorter := s[..|s| - 1];
      TrimBackRest(shorter);
      var n := |TrimBack(s)|;
      assert s[n..] == shorter[n..] + [s[|s| - 1]];
    }
  }

  lemma BlankIsWhite(s: string)
    ensures Blank(s) <==> AllWhite(s)
  {
    hide White;
    if AllWhite(s) {
      TrimNothing(s);
    } else {
      SeenFront(s);
      TrimBackKeeps(TrimFront(s));
    }
  }

  lemma {:induction false} SeenFront(s: string)
    requires !AllWhite(s)
    ensures TrimFront(s) != "" && !White(TrimFront(s)[0])
  {
    if White(s[0]) {
      assert s == [s[0]] + s[1..];
      SeenFront(s[1..]);
    }
  }

  /** The last part of a split is what follows the last separator. */
  lemma {:induction false} LastPart(s: string, c: char) returns (front: string)
    ensures var parts := Split(s, c);
            c !in parts[|parts| - 1] &&
            if |parts| == 1 then parts[0] == s else s == front + [c] + parts[|parts| - 1]
    decreases |s|
  {
    hide Split;
    var i := IndexOf(s, c);
    front := "";
    if i == |s| {
      SplitNone(s, c);
    } else {
      var rest := s[i + 1..];
      assert s == s[..i] + [c] + rest;
      SplitConcat(s[..i], c, rest);
      var more := LastPart(rest, c);
      front := if |Split(rest, c)| == 1 then s[..i] else s[..i] + [c] + more;
      var last := Split(rest, c)[|Split(rest, c)| - 1];
      assert |Split(rest, c)| > 1 ==> s[..i] + [c] + (more + [c] + last) == s[..i] + [c] + more + [c] + last;
    }
  }

  /** A list ends in a comma when its last part is blank and not its only one. */
  lemma EndsInCommaIff(body: string)
    ensures var parts := Split(body, ',');
            EndsInComma(body) <==> |parts| > 1 && Blank(parts[|parts| - 1])
  {
    hide White, Split, Trim;
    var parts := Split(body, ',');
    var front := LastPart(body, ',');
    var last := parts[|parts| - 1];
    BlankIsWhite(last);
    TrimBackRest(body);
    var n := |TrimBack(body)|;
    if |parts| > 1 {
      CommaSeen();
      if AllWhite(last) {
        TrimBackOver(front + [','], last);
      } else if EndsInComma(body) {
        assert body[n - 1] == ',';
        assert n - 1 <= |front|;
        forall k | 0 <= k < |last| ensures White(last[k]) {
          assert body[n..][|front| + 1 + k - n] == last[k];
        }
      }
    }
  }

  lemma CommaSeen()
    ensures !White(',')
  {
  }

  /** A list as it is meant: a comma may end it, and a part missing anywhere else is an error. */
  function MeantList(body: string): Option<seq<string>> {
    var parts := Split(body, ',');
    var n := |parts| - 1;
    var items := if n > 0 && Blank(parts[n]) then parts[..n] else parts;
    if Blank(body) then Some([])
    else if Readable(items) && Full(items) then Some(Strings(items)) else None
  }

  /** A comma ends the list, a part is missing before it, and the first part is not the missing one. */
  predicate HidesHole(body: string) {
    var parts := Split(body, ',');
    var n := |parts| - 1;
    n > 0 && Blank(parts[n]) && Readable(parts) && !Blank(parts[0]) && !Full(parts[..n])
  }

  lemma {:induction false} StringsAfter(parts: seq<string>, last: string)
    requires Blank(last)
    ensures Strings(parts + [last]) == Strings(parts)
  {
    hide Trim, ReadSimple;
    if parts == [] {
      assert [last][1..] == [];
    } else {
      StringsAfter(parts[1..], last);
      assert (parts + [last])[1..] == parts[1..] + [last];
    }
  }

  /**
    A list is read as it is meant unless it hides a hole, and then the missing
    parts, which are meant to be refused, are passed over.
   */
  lemma HolesReadIff(body: string)
    ensures ReadValue("[" + body + "]") == (if MeantList(body).Some? then Some(List(MeantList(body).value)) else None)
       <==> !HidesHole(body)
    ensures HidesHole(body) ==>
      MeantList(body) == None && ReadValue("[" + body + "]") == Some(List(Strings(Split(body, ','))))
  {
    hide ReadValue, EndsInComma, ItemOf, Strings, Split, Trim;
    var parts := Split(body, ',');
    var n := |parts| - 1;
    ListReads(body);
    EndsInCommaIff(body);
    if n > 0 && Blank(parts[n]) {
      StringsAfter(parts[..n], parts[n]);
      assert parts == parts[..n] + [parts[n]];
      assert Readable(parts) <==> Readable(parts[..n]);
    }
    if Blank(body) { BlankParts(body); }
  }

  /** An item, a hole and a final comma. */
  lemma HoleAtTheEnd(s: string)
    requires ',' !in s
    ensures HidesHole(Quoted(s) + ",,")
    ensures ReadValue("[" + (Quoted(s) + ",,") + "]") == Some(List([s]))
  {
    hide Encoded, ReadValue, ReadSimple, Trim, Split;
    var body := Quoted(s) + ",,";
    CommaEncoded(s);
    StringReads(s);
    TrimSeen(Quoted(s));
    NothingToTrim();
    SplitNone("", ',');
    SplitConcat("", ',', "");
    SplitConcat(Quoted(s), ',', ",");
    assert "" + [','] + "" == "," && Quoted(s) + [','] + "," == body;
    var parts := Split(body, ',');
    assert parts == [Quoted(s), "", ""];
    assert !Blank(parts[0]) && ItemOf(parts[0]) == Some(s) && Blank("");
    assert parts[..2][1] == "";
    assert Readable(parts) && !Full(parts[..2]);
    HolesReadIff(body);
    OneString(s);
  }

  lemma OneString(s: string)
    requires !Blank(Quoted(s)) && ItemOf(Quoted(s)) == Some(s) && Blank("")
    ensures Strings([Quoted(s), "", ""]) == [s]
  {
    hide Quoted, ItemOf, Blank;
    var parts := [Quoted(s), "", ""];
    assert parts[1..] == ["", ""] && ["", ""][1..] == [""] && [""][1..] == [];
    assert Strings([""]) == [] && Strings(["", ""]) == [];
  }

  /** Nothing but space is one part. */
  lemma BlankParts(body: string)
    requires Blank(body)
    ensures !HidesHole(body)
  {
    hide Trim;
    BlankIsWhite(body);
    CommaSeen();
    SplitNone(body, ',');
  }
}
