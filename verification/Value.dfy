/**
  The `{type, value}` encoding of conformance/c/value.c over the trees that the
  YAML reader builds: what a case's values decode to, when two values are the
  same, and a writer whose files decode to the values written.
 */
module Value {
  import opened Common
  import opened Decimal
  import opened Temporal
  import opened Utf8
  import opened YamlScan
  import opened YamlParse
  import opened YamlRender
  import opened YamlText

  datatype Value =
    | Null
    | Bool(boolean: int)
    | Int(integer: int)
    | Float(bits: nat)
    | Str(str: string)
    | Bytes(octets: string)
    | Moment(temporal: Temporal)
    | List(items: seq<Value>)
    | Path(items: seq<Value>)
    | Vertex(table: string, offset: nat)
    | Edge(table: string, src: nat, dst: nat)

  // ---- when two values are the same ----

  const NAN_BITS := 0x7FF8_0000_0000_0000

  /** The exponent all ones and a fraction that is not zero, whatever the sign. */
  predicate IsNaN(bits: nat) { bits % 0x8000_0000_0000_0000 > 0x7FF0_0000_0000_0000 }

  /** One representative of everything a value is the same as. */
  function Canon(v: Value): Value {
    match v
    case Bool(b) => Bool(if b != 0 then 1 else 0)
    case Float(bits) => Float(if IsNaN(bits) then NAN_BITS else bits)
    case List(items) => List(seq(|items|, i requires 0 <= i < |items| => Canon(items[i])))
    case Path(items) => Path(seq(|items|, i requires 0 <= i < |items| => Canon(items[i])))
    case _ => v
  }

  predicate Same(a: Value, b: Value) { Canon(a) == Canon(b) }

  /** `cv_same`: equal kinds and parts, every NaN one NaN, a zero's sign counting. */
  method SameValue(a: Value, b: Value) returns (r: bool)
    ensures r <==> Same(a, b)
    decreases a
  {
    match (a, b) {
      case (Null, Null) => r := true;
      case (Bool(x), Bool(y)) => r := (x != 0) == (y != 0);
      case (Int(x), Int(y)) => r := x == y;
      case (Float(x), Float(y)) =>
        if IsNaN(x) && IsNaN(y) { return true; }
        assert IsNaN(NAN_BITS);
        r := x == y;
      case (Str(x), Str(y)) => r := x == y;
      case (Bytes(x), Bytes(y)) => r := x == y;
      case (Moment(x), Moment(y)) => r := x.unit == y.unit && x.count == y.count && x.offset == y.offset;
      case (Vertex(s, m), Vertex(t, n)) => r := m == n && s == t;
      case (Edge(s, k, m), Edge(t, l, n)) => r := k == l && m == n && s == t;
      case (List(xs), List(ys)) =>
        r := SameItems(xs, ys);
        ListsThatAreSame(xs, ys);
      case (Path(xs), Path(ys)) =>
        r := SameItems(xs, ys);
        ListsThatAreSame(xs, ys);
      case _ => r := false;
    }
  }

  method SameItems(xs: seq<Value>, ys: seq<Value>) returns (r: bool)
    ensures r <==> |xs| == |ys| && forall i :: 0 <= i < |xs| ==> Same(xs[i], ys[i])
    decreases xs
  {
    if |xs| != |ys| { return false; }
    for i := 0 to |xs|
      invariant forall k :: 0 <= k < i ==> Same(xs[k], ys[k])
    {
      var same := SameValue(xs[i], ys[i]);
      if !same { return false; }
    }
    r := true;
  }

  /** Sameness of floats is not equality: all NaNs are one, and the two zeros are two. */
  lemma FloatsThatAreSame(x: nat, y: nat)
    ensures Same(Float(x), Float(y)) <==> x == y || (IsNaN(x) && IsNaN(y))
    ensures !Same(Float(0), Float(0x8000_0000_0000_0000))
  {
    assert IsNaN(NAN_BITS);
  }

  /** The exponent of a NaN is all ones and its fraction is not zero. */
  lemma NaNsAre(bits: nat)
    requires bits < TWO64
    ensures IsNaN(bits) <==> bits / 0x10_0000_0000_0000 % 2048 == 2047 && bits % 0x10_0000_0000_0000 != 0
  {
  }

  /** Booleans are the same by their truth, and all values but those, floats and lists by equality. */
  lemma ScalarsThatAreSame(a: Value, b: Value)
    ensures a.Bool? && b.Bool? ==> (Same(a, b) <==> (a.boolean == 0 <==> b.boolean == 0))
    ensures !(a.Bool? || a.Float? || a.List? || a.Path?) ==> (Same(a, b) <==> a == b)
    ensures Same(a, b) ==> Same(b, a) && (a.Bool? <==> b.Bool?) && (a.Float? <==> b.Float?)
  {
  }

  /** Lists are the same item by item, and never the same as the path of the same items. */
  lemma ListsThatAreSame(xs: seq<Value>, ys: seq<Value>)
    ensures Same(List(xs), List(ys)) <==> |xs| == |ys| && forall i :: 0 <= i < |xs| ==> Same(xs[i], ys[i])
    ensures Same(Path(xs), Path(ys)) <==> Same(List(xs), List(ys))
    ensures !Same(List(xs), Path(ys))
  {
    var cx, cy := Canon(List(xs)).items, Canon(List(ys)).items;
    assert Canon(Path(xs)).items == cx && Canon(Path(ys)).items == cy;
    if cx == cy {
      forall i | 0 <= i < |xs| ensures Same(xs[i], ys[i]) { assert cx[i] == cy[i]; }
    }
  }

  // ---- octets ----

  function Nibble(c: char): Option<nat> {
    if '0' <= c <= '9' then Some(c as int - '0' as int)
    else if 'a' <= c <= 'f' then Some(c as int - 'a' as int + 10)
    else if 'A' <= c <= 'F' then Some(c as int - 'A' as int + 10)
    else None
  }

  /** The text without the blanks that are allowed anywhere in it. */
  function Squeeze(t: string): string {
    if t == "" then "" else (if t[0] == ' ' || t[0] == '\t' then "" else [t[0]]) + Squeeze(t[1..])
  }

  /** Two hexits to an octet. */
  function Octets(t: string): Option<string> {
    if t == "" then Some("")
    else if |t| == 1 then None
    else
      var hi :- Nibble(t[0]);
      var lo :- Nibble(t[1]);
      var rest :- Octets(t[2..]);
      Some([ByteChar(hi * 16 + lo)] + rest)
  }

  function ReadHexits(t: string): Option<string> { Octets(Squeeze(t)) }

  /** What the loop still owes: the octets so far, and perhaps half of the next. */
  ghost function Owed(done: string, hi: Option<char>, rest: string): Option<string> {
    var more :- Octets((if hi.Some? then [hi.value] else "") + Squeeze(rest));
    Some(done + more)
  }

  lemma OwedHalf(done: string, c: char, rest: string)
    requires rest != "" && rest[0] != ' ' && rest[0] != '\t' && Nibble(c).Some?
    ensures Owed(done, Some(c), rest)
         == if Nibble(rest[0]) == None then None
            else Owed(done + [ByteChar(Nibble(c).value * 16 + Nibble(rest[0]).value)], None, rest[1..])
  {
    var t := [c] + Squeeze(rest);
    assert t == [c, rest[0]] + Squeeze(rest[1..]);
    assert t[0] == c && t[1] == rest[0] && t[2..] == Squeeze(rest[1..]);
    assert "" + Squeeze(rest[1..]) == Squeeze(rest[1..]);
    if Nibble(rest[0]).Some? && Octets(t[2..]).Some? {
      var b := ByteChar(Nibble(c).value * 16 + Nibble(rest[0]).value);
      assert done + ([b] + Octets(t[2..]).value) == done + [b] + Octets(t[2..]).value;
    }
  }

  lemma OwedBlank(done: string, hi: Option<char>, rest: string)
    requires rest != "" && (rest[0] == ' ' || rest[0] == '\t')
    ensures Owed(done, hi, rest) == Owed(done, hi, rest[1..])
  {
    assert Squeeze(rest) == Squeeze(rest[1..]);
  }

  lemma OwedFirst(done: string, rest: string)
    requires rest != "" && rest[0] != ' ' && rest[0] != '\t'
    ensures Owed(done, None, rest) == if Nibble(rest[0]) == None then None else Owed(done, Some(rest[0]), rest[1..])
  {
    var t := Squeeze(rest);
    assert "" + t == t;
    assert t == [rest[0]] + Squeeze(rest[1..]);
  }

  /** `parse_hexits`: the octets never outnumber half the text, which the bounds of `p` prove. */
  method ParseHexits(text: string) returns (r: Option<string>)
    ensures r == ReadHexits(text)
  {
    hide Octets, Squeeze, Nibble, Owed;
    var p := new char[|text| / 2 + 1];
    var n, hi := 0, None;
    ghost var half: Option<char> := None;
    OwedStart(text);
    assert text[0..] == text && p[..0] == "";
    for i := 0 to |text|
      invariant 0 <= n && 2 * n + (if hi.Some? then 1 else 0) <= i
      invariant hi.Some? <==> half.Some?
      invariant hi.Some? ==> Nibble(half.value) == hi && hi.value < 16
      invariant Owed(p[..n], half, text[i..]) == ReadHexits(text)
    {
      var c := text[i];
      ghost var rest, done := text[i..], p[..n];
      assert rest[0] == c && rest[1..] == text[i + 1..];
      if c == ' ' || c == '\t' {
        OwedBlank(done, half, rest);
        continue;
      }
      var v := Nibble(c);
      NibbleRange(c);
      if hi == None {
        OwedFirst(done, rest);
        if v == None { return None; }
        hi, half := v, Some(c);
      } else {
        OwedHalf(done, half.value, rest);
        if v == None { return None; }
        p[n] := ByteChar(hi.value * 16 + v.value);
        n := n + 1;
        hi, half := None, None;
        assert p[..n] == done + [p[n - 1]];
      }
    }
    assert text[|text|..] == "";
    OwedEnd(p[..n], half);
    if hi.Some? { return None; }
    r := Some(p[..n]);
  }

  lemma NibbleRange(c: char)
    ensures Nibble(c).Some? ==> Nibble(c).value < 16
  {
  }

  lemma OwedStart(text: string)
    ensures Owed("", None, text) == ReadHexits(text)
  {
    assert "" + Squeeze(text) == Squeeze(text);
    if ReadHexits(text).Some? { assert "" + ReadHexits(text).value == ReadHexits(text).value; }
  }

  lemma OwedEnd(done: string, hi: Option<char>)
    ensures Owed(done, hi, "") == if hi.Some? then None else Some(done)
  {
    assert Squeeze("") == "" && done + "" == done;
    if hi.Some? { assert [hi.value] + "" == [hi.value]; } else { assert Octets("" + "") == Some(""); }
  }

  function Hexit(n: nat): (c: char)
    requires n < 16
    ensures Nibble(c) == Some(n) && c != ' ' && c != '\t'
  {
    if n < 10 then ('0' as int + n) as char else ('A' as int + n - 10) as char
  }

  predicate AllBytes(s: string) { forall k :: 0 <= k < |s| ==> s[k] as int < 256 }

  /** `%02X` of every octet. */
  function HexText(octets: string): string
    requires AllBytes(octets)
  {
    if octets == "" then ""
    else [Hexit(octets[0] as int / 16), Hexit(octets[0] as int % 16)] + HexText(octets[1..])
  }

  /** Two hexits in front are one octet in front. */
  lemma HexStep(hi: nat, lo: nat, rest: string)
    requires hi < 16 && lo < 16 && Squeeze(rest) == rest && Octets(rest).Some?
    ensures var t := [Hexit(hi), Hexit(lo)] + rest;
            Squeeze(t) == t && Octets(t) == Some([ByteChar(hi * 16 + lo)] + Octets(rest).value)
  {
    hide Nibble;
    var a, b := Hexit(hi), Hexit(lo);
    var t := [a, b] + rest;
    assert t[1..] == [b] + rest && t[2..] == rest && ([b] + rest)[1..] == rest;
    assert Squeeze(t[1..]) == [b] + rest;
    assert Squeeze(t) == [a] + ([b] + rest);
  }

  lemma {:induction false} HexRoundTrip(octets: string)
    requires AllBytes(octets)
    ensures Squeeze(HexText(octets)) == HexText(octets)
    ensures ReadHexits(HexText(octets)) == Some(octets)
  {
    if octets != "" {
      hide Octets, Squeeze, Hexit;
      HexRoundTrip(octets[1..]);
      var hi, lo := octets[0] as int / 16, octets[0] as int % 16;
      HexStep(hi, lo, HexText(octets[1..]));
      assert octets == [octets[0]] + octets[1..];
    }
  }

  lemma {:induction false} HexIsAscii(octets: string)
    requires AllBytes(octets)
    ensures forall k :: 0 <= k < |HexText(octets)| ==> HexText(octets)[k] as int < 0x80
  {
    if octets != "" {
      hide Hexit;
      HexIsAscii(octets[1..]);
      HexitsAreAscii(octets[0] as int / 16);
      HexitsAreAscii(octets[0] as int % 16);
    }
  }

  lemma HexitsAreAscii(n: nat)
    requires n < 16
    ensures Hexit(n) as int < 0x80
  {
  }

  // ---- nodes and edges ----

  /** The offset of the last `c`, if there is one. */
  function LastIndex(t: string, c: char): (r: Option<nat>)
    ensures r.Some? ==> r.value < |t| && t[r.value] == c && forall k :: r.value < k < |t| ==> t[k] != c
    ensures r == None ==> forall k :: 0 <= k < |t| ==> t[k] != c
  {
    if t == "" then None
    else if t[|t| - 1] == c then Some(|t| - 1)
    else LastIndex(t[..|t| - 1], c)
  }

  lemma LastIndexUnique(t: string, c: char, i: nat)
    requires i < |t| && t[i] == c && c !in t[i + 1..]
    ensures LastIndex(t, c) == Some(i)
  {
    forall k | i < k < |t| ensures t[k] != c {
      assert t[k] == t[i + 1..][k - i - 1];
    }
  }

  lemma LastIndexConcat(a: string, c: char, b: string)
    requires c !in b
    ensures LastIndex(a + [c] + b, c) == Some(|a|)
  {
    hide LastIndex;
    var t := a + [c] + b;
    assert t[|a| + 1..] == b;
    LastIndexUnique(t, c, |a|);
  }

  method LastByte(t: string, c: char) returns (r: Option<nat>)
    ensures r == LastIndex(t, c)
  {
    var i := |t|;
    assert t[..|t|] == t;
    while i > 0
      invariant 0 <= i <= |t|
      invariant LastIndex(t[..i], c) == LastIndex(t, c)
    {
      i := i - 1;
      assert t[..i + 1][..i] == t[..i];
      if t[i] == c { return Some(i); }
    }
    r := None;
  }

  /** The offset of the first `->`, if there is one. */
  function ArrowIndex(t: string): (r: Option<nat>)
    ensures r.Some? ==> r.value + 1 < |t| && t[r.value] == '-' && t[r.value + 1] == '>'
  {
    if |t| < 2 then None
    else if t[0] == '-' && t[1] == '>' then Some(0)
    else
      var k :- ArrowIndex(t[1..]);
      Some(k + 1)
  }

  lemma {:induction false} ArrowConcat(a: string, b: string)
    requires '-' !in a
    ensures ArrowIndex(a + "->" + b) == Some(|a|)
  {
    var t := a + "->" + b;
    if a != "" {
      ArrowConcat(a[1..], b);
      assert t[1..] == a[1..] + "->" + b;
      assert t[0] == a[0];
    }
  }

  method Arrow(t: string) returns (r: Option<nat>)
    ensures r == ArrowIndex(t)
  {
    var i := 0;
    assert t[0..] == t;
    while i + 1 < |t|
      invariant 0 <= i <= |t|
      invariant ArrowIndex(t) == match ArrowIndex(t[i..]) case None => None case Some(k) => Some(i + k)
    {
      assert t[i..][1..] == t[i + 1..];
      if t[i] == '-' && t[i + 1] == '>' { return Some(i); }
      i := i + 1;
    }
    r := None;
  }

  /** A table and a row: `person#1`, split at the last `#`. */
  function ReadVertex(t: string): Option<Value> {
    var hash :- LastIndex(t, '#');
    var offset :- ReadDigits(t[hash + 1..]);
    if hash == 0 || offset < 0 then None else Some(Vertex(t[..hash], offset))
  }

  /** A table and the two rows it runs between: `knows#0->1`. */
  function ReadEdge(t: string): Option<Value> {
    var hash :- LastIndex(t, '#');
    var ends := t[hash + 1..];
    var at :- ArrowIndex(ends);
    var src :- ReadDigits(ends[..at]);
    var dst :- ReadDigits(ends[at + 2..]);
    if hash == 0 || src < 0 || dst < 0 then None else Some(Edge(t[..hash], src, dst))
  }

  method VertexAt(t: string) returns (r: Option<Value>)
    ensures r == ReadVertex(t)
  {
    hide ReadDigits;
    var hash := LastByte(t, '#');
    if hash == None { return None; }
    var table, rest := t[..hash.value], t[hash.value + 1..];
    if |table| == 0 { return None; }
    var offset := Digits(rest);
    if offset == None { return None; }
    DigitsAreCounts(rest);
    r := Some(Vertex(table, offset.value as nat));
  }

  method EdgeAt(t: string) returns (r: Option<Value>)
    ensures r == ReadEdge(t)
  {
    hide ReadDigits;
    var hash := LastByte(t, '#');
    if hash == None { return None; }
    var table, ends := t[..hash.value], t[hash.value + 1..];
    var at := Arrow(ends);
    if |table| == 0 || at == None { return None; }
    var src := Digits(ends[..at.value]);
    if src == None { return None; }
    var dst := Digits(ends[at.value + 2..]);
    if dst == None { return None; }
    DigitsAreCounts(ends[..at.value]);
    DigitsAreCounts(ends[at.value + 2..]);
    r := Some(Edge(table, src.value as nat, dst.value as nat));
  }

  lemma DigitsAreCounts(t: string)
    ensures ReadDigits(t).Some? ==> 0 <= ReadDigits(t).value <= INT64_MAX
  {
  }

  function VertexText(table: string, offset: nat): string { table + "#" + Dec(offset) }

  function EdgeText(table: string, src: nat, dst: nat): string { table + "#" + (Dec(src) + "->" + Dec(dst)) }

  lemma DigitsHoldNoMarks(s: string)
    requires AllDigits(s)
    ensures '-' !in s && '#' !in s && forall k :: 0 <= k < |s| ==> s[k] as int < 0x80
  {
  }

  /** A node reads back under any table name, one that holds `#` or `->` included. */
  lemma VertexRoundTrip(table: string, offset: nat)
    requires table != "" && offset <= INT64_MAX
    ensures ReadVertex(VertexText(table, offset)) == Some(Vertex(table, offset))
  {
    hide Dec, ReadDigits;
    var t := VertexText(table, offset);
    DigitsHoldNoMarks(Dec(offset));
    LastIndexConcat(table, '#', Dec(offset));
    assert t[..|table|] == table && t[|table| + 1..] == Dec(offset);
    ReadDec(offset);
  }

  lemma EndsRoundTrip(src: nat, dst: nat)
    requires src <= INT64_MAX && dst <= INT64_MAX
    ensures var ends := Dec(src) + "->" + Dec(dst);
            var at := ArrowIndex(ends);
            at.Some? && ReadDigits(ends[..at.value]) == Some(src) && ReadDigits(ends[at.value + 2..]) == Some(dst)
            && '#' !in ends && forall k :: 0 <= k < |ends| ==> ends[k] as int < 0x80
  {
    hide Dec, ReadDigits, ArrowIndex, AllDigits;
    var a, b := Dec(src), Dec(dst);
    DigitsHoldNoMarks(a);
    DigitsHoldNoMarks(b);
    ArrowConcat(a, b);
    ArrowParts(a, b);
    ReadDec(src);
    ReadDec(dst);
  }

  lemma ArrowParts(a: string, b: string)
    requires '#' !in a && forall k :: 0 <= k < |a| ==> a[k] as int < 0x80
    requires '#' !in b && forall k :: 0 <= k < |b| ==> b[k] as int < 0x80
    ensures var ends := a + "->" + b;
            ends[..|a|] == a && ends[|a| + 2..] == b
            && '#' !in ends && forall k :: 0 <= k < |ends| ==> ends[k] as int < 0x80
  {
  }

  lemma EdgeRoundTrip(table: string, src: nat, dst: nat)
    requires table != "" && src <= INT64_MAX && dst <= INT64_MAX
    ensures ReadEdge(EdgeText(table, src, dst)) == Some(Edge(table, src, dst))
  {
    hide Dec, ReadDigits, ArrowIndex, LastIndex;
    var ends := Dec(src) + "->" + Dec(dst);
    var t := EdgeText(table, src, dst);
    EndsRoundTrip(src, dst);
    LastIndexConcat(table, '#', ends);
    assert t[..|table|] == table && t[|table| + 1..] == ends;
  }
}
