/**
  What the TOML reader promises of documents no one laid out: keys set once in every
  table, which texts are which values, what a line may look like and what is refused.
 */
module TomlRules {
  import opened Common
  import opened Decimal
  import YamlScan
  import opened TomlScan
  import opened Toml

  // ---- every document that is read ----

  ghost predicate KeysOnce(t: Table) {
    KeysApart(t.pairs) && forall i :: 0 <= i < |t.pairs| ==> YamlScan.BareKey(t.pairs[i].0)
  }

  ghost predicate AllOnce(tables: seq<Table>) { forall k :: 0 <= k < |tables| ==> KeysOnce(tables[k]) }

  ghost predicate Sound(doc: Doc) {
    KeysOnce(doc.root)
    && forall name :: name in doc.arrays ==>
      YamlScan.BareKey(name) && doc.arrays[name] != [] && AllOnce(doc.arrays[name])
  }

  lemma OneKeyMore(t: Table, key: string, value: TomlScan.Value)
    requires KeysOnce(t) && !HasKey(t, key) && YamlScan.BareKey(key)
    ensures KeysOnce(t.(pairs := t.pairs + [(key, value)]))
  {
    hide YamlScan.BareKey;
  }

  predicate BareEntry(e: Entry) {
    match e
    case Blank => true
    case Header(name) => YamlScan.BareKey(name)
    case Pair(key, _) => YamlScan.BareKey(key)
  }

  lemma LinesAreBare(raw: string)
    ensures ReadLine(raw).Some? ==> BareEntry(ReadLine(raw).value)
  {
    hide YamlScan.BareKey, ReadValue, Cut, Trim;
  }

  lemma ApplySound(st: State, e: Entry, n: nat)
    requires st.Valid() && Sound(st.doc) && BareEntry(e)
    ensures Apply(st, e, n).Some? ==> Sound(Apply(st, e, n).value.doc)
  {
    hide KeysOnce, HasKey, YamlScan.BareKey;
    var r := Apply(st, e, n);
    if r.Some? && e.Pair? {
      var t := Current(st);
      OneKeyMore(t, e.key, e.value) by { if st.open.Some? { assert AllOnce(st.doc.arrays[st.open.value]); } }
    } else if e.Header? {
      NothingTwice(n);
    }
  }

  lemma NothingTwice(n: nat)
    ensures KeysOnce(Table(n, []))
  {
  }

  lemma {:induction false} ReadSound(st: State, raws: seq<string>, n: nat)
    requires st.Valid() && Sound(st.doc)
    ensures ReadLines(st, raws, n).Some? ==> Sound(ReadLines(st, raws, n).value.doc)
    decreases |raws|
  {
    hide Sound, Apply, ReadLine;
    if raws != [] && ReadLine(raws[0]).Some? {
      LinesAreBare(raws[0]);
      ApplySound(st, ReadLine(raws[0]).value, n);
      if Apply(st, ReadLine(raws[0]).value, n).Some? {
        ReadSound(Apply(st, ReadLine(raws[0]).value, n).value, raws[1..], n + 1);
      }
    }
  }

  /** Whatever text it comes from, a document sets no key twice in a table, and all its names are bare. */
  lemma DocsAreSound(text: string)
    ensures ReadDoc(text).Some? ==> Sound(ReadDoc(text).value)
  {
    NothingTwice(0);
    assert Sound(START.doc);
    hide Sound;
    ReadSound(START, Lines(text), 1);
  }

  // ---- which texts are which values ----

  /** An integer is digits and nothing else, as large as an int64 holds. */
  lemma IntegersIff(text: string, n: int)
    ensures ReadValue(text) == Some(Int(n))
       <==> text != "" && AllDigits(text) && Decimal.Value(text) == n && n <= INT64_MAX
  {
    hide YamlScan.FindClose, Decoded, ReadItems, Trim, EndsInComma;
    Words();
  }

  lemma Words()
    ensures !AllDigits("true") && !AllDigits("false")
  {
    assert !IsDigit("true"[0]) && !IsDigit("false"[0]);
  }

  /** A boolean is one of two words. */
  lemma BooleansIff(text: string, b: bool)
    ensures ReadValue(text) == Some(Bool(b)) <==> text == if b then "true" else "false"
  {
    hide YamlScan.FindClose, Decoded, ReadItems, Trim, EndsInComma;
  }

  /** A string is a quote, whole units none of which is a quote, what they spell, and a quote at the very end. */
  lemma StringsIff(text: string, s: string)
    ensures ReadValue(text) == Some(Str(s))
       <==> |text| >= 2 && text[0] == '"' && text[|text| - 1] == '"'
            && YamlScan.QuotedBody(text[1..|text| - 1], '"') && Decoded(text[1..|text| - 1]) == Some(s)
  {
    hide Decoded, ReadItems, Trim, EndsInComma, YamlScan.QuotedBody, YamlScan.FindClose;
    if |text| >= 2 {
      var e := |text| - 2;
      YamlScan.FindCloseIff(text[1..], '"', e);
      assert text[1..][..e] == text[1..|text| - 1] && text[1..][e] == text[|text| - 1];
    }
  }

  /** A list is between brackets. */
  lemma ListsAreBracketed(text: string)
    ensures ReadValue(text).Some? && ReadValue(text).value.List? ==>
      |text| >= 2 && text[0] == '[' && text[|text| - 1] == ']'
  {
    hide YamlScan.FindClose, Decoded, ReadItems, Trim, EndsInComma;
  }

  /** The codes the four escapes stand for. */
  function CodeOf(c: char): Option<nat> {
    if c == '"' then Some(34) else if c == '\\' then Some(92)
    else if c == 'n' then Some(10) else if c == 't' then Some(9)
    else None
  }

  lemma EscapesDecode(c: char)
    ensures Decoded(['\\', c]) == if CodeOf(c).Some? then Some([CodeOf(c).value as char]) else None
  {
    assert ['\\', c][2..] == "" && Decoded("") == Some("");
    if CodeOf(c).Some? {
      var spelled := CodeOf(c).value as char;
      assert EscapeFor(c) == Some(spelled) && [spelled] + "" == [spelled];
    }
  }

  // ---- which lines are which entries ----

  /** Any space, or none, stands about a key, its `=` and the value. */
  lemma PairIsRead(key: string, a: string, b: string, value: string)
    requires YamlScan.BareKey(key) && AllWhite(a) && AllWhite(b) && Visible(value)
    ensures ReadContent(key + a + "=" + b + value)
         == if ReadValue(value).Some? then Some(Pair(key, ReadValue(value).value)) else None
  {
    hide Trim, ReadValue, White, YamlScan.BareKey;
    BareSeen(key);
    var text, front, back := key + a + "=" + b + value, key + a, b + value;
    assert text == front + ['='] + back;
    NoEquals(a);
    IndexOfConcat(front, '=', back);
    assert text[..|front|] == front && text[|front| + 1..] == back;
    TrimOver("", key, a);
    TrimOver(b, value, "");
    assert "" + key + a == front && b + value + "" == back;
    assert text[0] == key[0];
  }

  lemma NoEquals(a: string)
    requires AllWhite(a)
    ensures '=' !in a
  {
  }

  /** A header names an array of tables, with any space inside its brackets. */
  lemma HeaderIsRead(a: string, name: string, b: string)
    requires AllWhite(a) && AllWhite(b) && Visible(name)
    ensures ReadContent("[[" + a + name + b + "]]") == if YamlScan.BareKey(name) then Some(Header(name)) else None
  {
    hide Trim, ReadValue, White, YamlScan.BareKey;
    var text, inside := "[[" + a + name + b + "]]", a + name + b;
    TrimOver(a, name, b);
    var rest := text[2..];
    assert rest == inside + "]]";
    assert rest[|rest| - 2..] == "]]" && rest[..|rest| - 2] == inside;
    assert "[[" <= text by { assert text[..2] == "[["; }
  }

  /** No other table can be opened, no line is without a `=`, and no key is without a name. */
  lemma LinesRefused(content: string)
    requires content != ""
    ensures content[0] == '[' && !("[[" <= content) ==> ReadContent(content) == None
    ensures content[0] != '[' && '=' !in content ==> ReadContent(content) == None
    ensures content[0] == '=' ==> ReadContent(content) == None
  {
    hide ReadValue, YamlScan.BareKey;
    if content[0] == '=' {
      assert content[..0] == "";
      TrimNothing("");
      assert !YamlScan.BareKey("") by { EmptyIsNoKey(); }
    }
  }

  lemma EmptyIsNoKey()
    ensures !YamlScan.BareKey("")
  {
  }
}
