/**
  `cv_show` of conformance/c/value.c: a buffer whose count goes on when its
  room has run out, the `emit_*` functions that write to it, and when the text
  they write can be read again.
 */
module Show {
  import opened Common
  import opened Decimal
  import opened Calendar
  import opened Clock
  import opened Duration
  import opened Temporal
  import opened YamlScan
  import opened Value
  import opened Encoding

  // ---- what is shown ----

  /** `%x` of a byte. */
  function HexDigits(n: nat): string
    requires n < 256
  {
    (if n >= 16 then [LowerHexit(n / 16)] else "") + [LowerHexit(n % 16)]
  }

  function LowerHexit(n: nat): (c: char)
    requires n < 16
    ensures c != '"' && c != '\\'
  {
    if n < 10 then ('0' as int + n) as char else ('a' as int + n - 10) as char
  }

  /** A byte with no short escape and no shape of its own. */
  predicate IsControl(c: char) { (c < ' ' && c != '\n' && c != '\r' && c != '\t') || c as int == 0x7F }

  function ShownChar(c: char): string {
    if IsControl(c) then "\\u{" + HexDigits(c as int) + "}" else EscapeChar(c)
  }

  function ShownChars(s: string): string {
    if s == "" then "" else ShownChar(s[0]) + ShownChars(s[1..])
  }

  function Quoted(t: string): string { "\"" + t + "\"" }

  /** A value in a failure report. A name is shown up to its first NUL, as `%s` does. */
  function ShowText(fl: Floats, v: Value): string
    decreases v, 1
  {
    match v
    case Null => "NULL"
    case Bool(b) => "BOOL " + if b != 0 then "true" else "false"
    case Str(s) => "STRING " + Quoted(ShownChars(s))
    case List(items) => "LIST [" + ShowItems(fl, items) + "]"
    case Path(items) => "PATH [" + ShowItems(fl, items) + "]"
    case Vertex(table, offset) => "NODE " + Quoted(VertexText(CString(table), offset))
    case Edge(table, src, dst) => "EDGE " + Quoted(EdgeText(CString(table), src, dst))
    case _ => TypeName(v) + " " + Quoted(ScalarText(fl, v))
  }

  function ShowItems(fl: Floats, vs: seq<Value>): string
    decreases vs, 0
  {
    if vs == [] then ""
    else if |vs| == 1 then ShowText(fl, vs[0])
    else ShowText(fl, vs[0]) + ", " + ShowItems(fl, vs[1..])
  }

  // ---- when it can be pasted back ----

  lemma {:induction false} PlainBody(t: string)
    requires '"' !in t && '\\' !in t
    ensures QuotedBody(t, '"') && Unescape(t, '"') == YamlScan.Text(t)
  {
    if t != "" {
      PlainBody(t[1..]);
      assert t == [t[0]] + t[1..];
    }
  }

  lemma {:induction false} EscapesShrink(t: string)
    requires '\\' in t && Unescape(t, '"').Text?
    ensures |Unescape(t, '"').text| < |t|
    decreases |t|
  {
    var p := FirstPiece(t, '"');
    if p.Piece? && t[0] != '\\' {
      assert t == [t[0]] + t[1..];
      EscapesShrink(t[1..]);
    }
  }

  /** Text between bare quotes reads back as itself exactly when it holds neither a quote nor a backslash. */
  lemma PasteIff(t: string)
    ensures ScalarOf(Quoted(t)) == Some(Spelled(t, true)) <==> '"' !in t && '\\' !in t
  {
    var s := Quoted(t);
    assert s[1..] == t + ['"'] && s[0] == '"';
    if '"' !in t && '\\' !in t {
      PlainBody(t);
      BodyReads(t, '"', t);
    } else if ScalarOf(s) == Some(Spelled(t, true)) {
      var e := FindClose(s[1..], '"').value;
      assert s[1..e + 1] == t;
      FindCloseIff(s[1..], '"', e);
      assert s[1..][..e] == t;
      if '\\' in t { EscapesShrink(t); } else { QuoteEndsBody(t); }
    }
  }

  lemma {:induction false} QuoteEndsBody(t: string)
    requires '"' in t && '\\' !in t
    ensures !QuotedBody(t, '"')
  {
    if t[0] != '"' {
      assert t == [t[0]] + t[1..];
      QuoteEndsBody(t[1..]);
    }
  }

  lemma EscapeCharNeverControl(c: char, rest: string)
    requires !IsControl(c)
    ensures var front := ShownChar(c);
            UnitLength(front + rest, '"') == |front| && FirstPiece(front + rest, '"') == Piece(c, |front|)
  {
    EscapeCharIsOnePiece(c, rest);
  }

  lemma ControlIsNoEscape(c: char, rest: string)
    requires IsControl(c) && QuotedBody(rest, '"')
    ensures QuotedBody(ShownChar(c) + rest, '"')
    ensures FirstPiece(ShownChar(c) + rest, '"') == BadEscape
  {
    hide HexDigits;
    var digits := HexDigits(c as int);
    var s := ShownChar(c) + rest;
    var front := "{" + digits + "}";
    assert s == "\\u" + (front + rest);
    assert s[0] == '\\' && s[1] == 'u' && s[2..] == front + rest;
    HexDigitsPlain(c as int);
    PlainFront(front, rest);
  }

  lemma HexDigitsPlain(n: nat)
    requires n < 256
    ensures '"' !in HexDigits(n) && '\\' !in HexDigits(n)
  {
  }

  lemma {:induction false} PlainFront(front: string, rest: string)
    requires '"' !in front && '\\' !in front && QuotedBody(rest, '"')
    ensures QuotedBody(front + rest, '"')
  {
    if front == "" {
      assert front + rest == rest;
    } else {
      PlainFront(front[1..], rest);
      assert (front + rest)[1..] == front[1..] + rest;
    }
  }

  predicate HasControl(s: string) { exists k :: 0 <= k < |s| && IsControl(s[k]) }

  lemma {:induction false} ShownCharsRead(s: string)
    ensures QuotedBody(ShownChars(s), '"')
    ensures Unescape(ShownChars(s), '"') == if HasControl(s) then NotAnEscape else YamlScan.Text(s)
  {
    if s == "" {
      assert Unescape("", '"') == YamlScan.Text("");
    } else {
      hide Unescape, QuotedBody, ShownChar;
      var c, rest := s[0], ShownChars(s[1..]);
      ShownCharsRead(s[1..]);
      assert s == [c] + s[1..];
      assert HasControl(s) <==> IsControl(c) || HasControl(s[1..]) by {
        if HasControl(s[1..]) { var k :| 0 <= k < |s[1..]| && IsControl(s[1..][k]); assert IsControl(s[k + 1]); }
        if HasControl(s) && !IsControl(c) { var k :| 0 <= k < |s| && IsControl(s[k]); assert IsControl(s[1..][k - 1]); }
      }
      if IsControl(c) {
        ControlIsNoEscape(c, rest);
        UnescapeFirst(ShownChar(c) + rest);
      } else {
        EscapeCharNeverControl(c, rest);
        PieceInFront(ShownChar(c), c, rest, s[1..]);
      }
    }
  }

  lemma UnescapeFirst(body: string)
    requires body != "" && FirstPiece(body, '"') == BadEscape
    ensures Unescape(body, '"') == NotAnEscape
  {
  }

  lemma PieceInFront(front: string, c: char, rest: string, text: string)
    requires front != "" && UnitLength(front + rest, '"') == |front|
    requires FirstPiece(front + rest, '"') == Piece(c, |front|)
    requires QuotedBody(rest, '"')
    requires Unescape(rest, '"') == NotAnEscape || Unescape(rest, '"') == YamlScan.Text(text)
    ensures QuotedBody(front + rest, '"')
    ensures Unescape(front + rest, '"')
         == if Unescape(rest, '"') == NotAnEscape then NotAnEscape else YamlScan.Text([c] + text)
  {
    assert (front + rest)[|front|..] == rest;
  }

  /**
    A shown string reads back, as a case would write it, exactly when it holds
    no control byte: what `\u{..}` is shown as is not an escape of the reader's.
   */
  lemma {:induction false} ShownStringIff(s: string)
    ensures ScalarOf(Quoted(ShownChars(s))) == Some(Spelled(s, true)) <==> !HasControl(s)
    ensures HasControl(s) ==> ScalarOf(Quoted(ShownChars(s))) == None
  {
    hide ScalarOf, Unescape, QuotedBody, ShownChars, HasControl;
    var body := ShownChars(s);
    ShownCharsRead(s);
    BodyIsRead(body, '"');
    assert Quoted(body) == ['"'] + body + ['"'];
  }

  /** What is shown for a scalar that is no string reads back under the type it is shown with, a boolean bare. */
  lemma ShownScalarReads(fl: Floats, v: Value)
    requires Encodable(fl, v) && !v.Null? && !v.Str? && !v.List? && !v.Path?
    requires v.Vertex? || v.Edge? ==> NUL !in v.table
    ensures ShowText(fl, v) == TypeName(v) + " " + if v.Bool? then ScalarText(fl, v) else Quoted(ScalarText(fl, v))
    ensures TypeOf(TypeName(v)) == Some(TypeOfValue(v)) && TypeOfValue(v).Quoted() == !v.Bool?
    ensures var r := ReadPayload(fl, TypeOfValue(v), ScalarText(fl, v)); r.Some? && Same(r.value, v)
  {
    hide ReadPayload, Encodable, TypeOf, VertexText, EdgeText, MomentText, PrintInt, HexText;
    NamesDecode(v);
    ScalarTextReads(fl, v);
    if v.Vertex? || v.Edge? {
      IndexOfAbsent(v.table, NUL);
      assert v.table[..|v.table|] == v.table;
    }
    if v.Bool? { assert ShowText(fl, v) == "BOOL" + " " + ScalarText(fl, v); }
  }

  function Shown(fl: Floats, vs: seq<Value>): (r: seq<string>)
    ensures |r| == |vs|
  { seq(|vs|, i requires 0 <= i < |vs| => ShowText(fl, vs[i])) }

  /** A list and a path are their items between brackets, a comma and a space between two. */
  lemma {:induction false} ItemsJoined(fl: Floats, vs: seq<Value>)
    ensures ShowItems(fl, vs) == Join(Shown(fl, vs), ", ")
    ensures ShowText(fl, List(vs)) == "LIST [" + Join(Shown(fl, vs), ", ") + "]"
    ensures ShowText(fl, Path(vs)) == "PATH [" + Join(Shown(fl, vs), ", ") + "]"
    decreases |vs|
  {
    if |vs| > 1 {
      ItemsJoined(fl, vs[1..]);
      assert Shown(fl, vs)[1..] == Shown(fl, vs[1..]);
    }
  }

  /** The digits a control byte is shown by are its code in base sixteen, with no zero in front. */
  lemma HexDigitsSpell(n: nat)
    requires n < 256
    ensures var d := HexDigits(n);
            if n < 16 then |d| == 1 && Nibble(d[0]) == Some(n)
            else |d| == 2 && Nibble(d[0]) == Some(n / 16) && Nibble(d[1]) == Some(n % 16)
    ensures forall c :: c in HexDigits(n) ==> '0' <= c <= '9' || 'a' <= c <= 'f'
  {
  }

  // ---- the buffer ----

  lemma Longer(shown: string, s: string)
    ensures forall m :: 0 <= m <= |shown| ==> (shown + s)[..m] == shown[..m]
    ensures forall n :: 0 <= n <= |s| ==> (shown + s)[..|shown| + n] == shown + s[..n]
  {
  }

  class CvOut {
    const buf: array<char>
    var used: nat
    /** Everything emitted, whether or not there was room for it. */
    ghost var shown: string

    /** The count is of everything emitted, and the buffer holds what fits of it, NUL terminated. */
    ghost predicate Valid()
      reads this, buf
    {
      used == |shown|
      && (buf.Length > 0 ==>
            var m := Min(used, buf.Length - 1); buf[..m] == shown[..m] && buf[m] == NUL)
    }

    constructor (buf: array<char>)
      modifies buf
      ensures this.buf == buf && shown == "" && Valid()
    {
      this.buf := buf;
      used := 0;
      shown := "";
      new;
      if buf.Length > 0 { buf[0] := NUL; }
    }

    /** What `vsnprintf` does with the room there is: as much as fits, and a NUL. */
    method Write(s: string) returns (n: nat)
      requires used < buf.Length
      modifies buf
      ensures n == Min(|s|, buf.Length - used - 1)
      ensures buf[..used + n] == old(buf[..used]) + s[..n] && buf[used + n] == NUL
    {
      n := Min(|s|, buf.Length - used - 1);
      ghost var before := buf[..used];
      for k := 0 to n
        invariant forall j :: 0 <= j < used ==> buf[j] == before[j]
        invariant forall j :: 0 <= j < k ==> buf[used + j] == s[j]
        modifies buf
      {
        buf[used + k] := s[k];
      }
      buf[used + n] := NUL;
    }

    /** `emit`: what fits is written, and all of it is counted. */
    method Emit(s: string)
      requires Valid()
      modifies this, buf
      ensures Valid() && shown == old(shown) + s
    {
      Longer(shown, s);
      if used < buf.Length {
        var n := Write(s);
        assert buf[..used + n] == (shown + s)[..used + n];
      }
      used := used + |s|;
      shown := shown + s;
    }

    method EmitTime(nanos: int)
      requires Valid()
      modifies this, buf
      ensures Valid() && shown == old(shown) + TimeText(nanos)
    {
      hide Valid, Padded;
      FloorDivIsFloor(nanos, NANOS_PER_DAY);
      var n := FloorMod(nanos, NANOS_PER_DAY);
      var frac := n % NANOS_PER_SEC;
      Emit(Padded(n / NANOS_PER_HOUR, 2) + ":" + Padded(n / NANOS_PER_MINUTE % 60, 2) + ":"
             + Padded(n / NANOS_PER_SEC % 60, 2));
      if frac != 0 { Emit("." + Padded(frac, 9)); }
    }

    method EmitDate(days: int)
      requires Valid()
      modifies this, buf
      ensures Valid() && shown == old(shown) + DateText(days)
    {
      hide Valid, DateText;
      Emit(DateText(days));
    }

    method EmitDatetime(nanos: int)
      requires Valid()
      modifies this, buf
      ensures Valid() && shown == old(shown) + DatetimeText(nanos)
    {
      hide Valid, DateText, TimeText;
      EmitDate(FloorDiv(nanos, NANOS_PER_DAY));
      Emit("T");
      EmitTime(FloorMod(nanos, NANOS_PER_DAY));
    }

    method EmitOffset(offset: int)
      requires Valid()
      modifies this, buf
      ensures Valid() && shown == old(shown) + OffsetText(offset)
    {
      hide Valid, Padded;
      var magnitude := if offset < 0 then -offset else offset;
      if offset == 0 {
        Emit("Z");
        return;
      }
      Emit((if offset < 0 then "-" else "+") + Padded(magnitude / 60, 2) + ":" + Padded(magnitude % 60, 2));
    }

    /** A number and its unit, unless the number is zero. */
    method EmitField(n: nat, unit: char)
      requires Valid()
      modifies this, buf
      ensures Valid() && shown == old(shown) + FieldsText(WholeField(n, unit))
    {
      hide Valid, Dec;
      WholeText(n, unit);
      if n != 0 { Emit(Dec(n) + [unit]); }
    }

    method EmitMonths(magnitude: nat)
      requires Valid()
      modifies this, buf
      ensures Valid() && shown == old(shown) + FieldsText(MonthFields(magnitude))
    {
      hide Valid, Dec;
      var years, months := magnitude / 12, magnitude % 12;
      MonthsText(magnitude);
      EmitField(years, 'Y');
      if months != 0 || years == 0 { Emit(Dec(months) + "M"); }
    }

    /** The time part after its `T`. */
    method EmitClock(c: Hands)
      requires Valid()
      modifies this, buf
      ensures Valid() && shown == old(shown) + FieldsText(ClockFields(c))
    {
      hide Valid, Dec, Padded, FieldsText, WholeField, ClockFields;
      var h, m, s, frac := c.hour, c.minute, c.sec, c.frac;
      ClockText(c);
      EmitField(h, 'H');
      EmitField(m, 'M');
      if s != 0 || frac != 0 || (h == 0 && m == 0) {
        Emit(Dec(s));
        if frac != 0 { Emit("." + Padded(frac, 9)); }
        Emit("S");
      }
    }

    method EmitDuration(span: Span)
      requires Valid()
      modifies this, buf
      ensures Valid() && shown == old(shown) + DurationText(span)
    {
      hide Valid, FieldsText, MonthFields, NanosText;
      if span.count < 0 { Emit("-"); }
      var magnitude := if span.count < 0 then -(span.count + 1) + 1 else span.count;
      Emit("P");
      if span.Months? {
        EmitMonths(magnitude);
        return;
      }
      EmitNanos(magnitude / NANOS_PER_DAY, magnitude % NANOS_PER_DAY);
    }

    method EmitNanos(days: nat, rest: nat)
      requires Valid() && rest < NANOS_PER_DAY
      modifies this, buf
      ensures Valid() && shown == old(shown) + NanosText(days, rest)
    {
      hide Valid, FieldsText, WholeField, ClockFields, HandsAt;
      EmitField(days, 'D');
      if rest == 0 && days != 0 { return; }
      Emit("T");
      EmitClock(HandsAt(rest));
    }

    /** A string in double quotes, byte by byte. */
    method EmitQuoted(s: string)
      requires Valid()
      modifies this, buf
      ensures Valid() && shown == old(shown) + Quoted(ShownChars(s))
    {
      hide Valid, ShownChars, ShownChar;
      ghost var start := shown;
      Emit("\"");
      assert s[0..] == s;
      NoChars();
      for i := 0 to |s|
        invariant Valid()
        invariant shown + ShownChars(s[i..]) == start + "\"" + ShownChars(s)
        modifies this, buf
      {
        OneMoreChar(s, i);
        Emit(ShownChar(s[i]));
      }
      assert s[|s|..] == "";
      Emit("\"");
      assert start + "\"" + ShownChars(s) + "\"" == start + Quoted(ShownChars(s));
    }

    method EmitMoment(t: Temporal)
      requires Valid()
      modifies this, buf
      ensures Valid() && shown == old(shown) + MomentText(t)
    {
      hide Valid, DateText, TimeText, DatetimeText, OffsetText, DurationText;
      match t.unit {
        case DATE => EmitDate(t.count);
        case LOCALTIME => EmitTime(t.count);
        case ZONEDTIME => EmitTime(t.count); EmitOffset(t.offset);
        case LOCALDATETIME => EmitDatetime(t.count);
        case ZONEDDATETIME => EmitDatetime(t.count + t.offset * NANOS_PER_MINUTE); EmitOffset(t.offset);
        case _ => EmitDuration(ToSpan(t));
      }
    }

    method EmitVertex(table: string, offset: nat)
      requires Valid()
      modifies this, buf
      ensures Valid() && shown == old(shown) + ("NODE " + Quoted(VertexText(CString(table), offset)))
    {
      hide Valid, CString, Dec;
      Emit("NODE \"");
      Emit(CString(table));
      Emit("#" + Dec(offset) + "\"");
    }

    method EmitEdge(table: string, src: nat, dst: nat)
      requires Valid()
      modifies this, buf
      ensures Valid() && shown == old(shown) + ("EDGE " + Quoted(EdgeText(CString(table), src, dst)))
    {
      hide Valid, CString, Dec;
      Emit("EDGE \"");
      Emit(CString(table));
      Emit("#" + (Dec(src) + "->" + Dec(dst)) + "\"");
    }

    /** A payload between quotes, after the name of its type. */
    method EmitTyped(name: string, text: string)
      requires Valid()
      modifies this, buf
      ensures Valid() && shown == old(shown) + (name + " " + Quoted(text))
    {
      hide Valid;
      Emit(name + " \"");
      Emit(text);
      Emit("\"");
    }

    method EmitMomentValue(fl: Floats, v: Value)
      requires Valid() && v.Moment?
      modifies this, buf
      ensures Valid() && shown == old(shown) + ShowText(fl, v)
    {
      hide Valid, MomentText, UnitName;
      Emit(UnitName(v.temporal.unit) + " \"");
      EmitMoment(v.temporal);
      Emit("\"");
    }

    method EmitScalar(fl: Floats, v: Value)
      requires Valid() && !v.List? && !v.Path?
      modifies this, buf
      ensures Valid() && shown == old(shown) + ShowText(fl, v)
    {
      hide Valid, MomentText, CString, HexText, PrintInt, ShownChars, Dec, VertexText, EdgeText, UnitName;
      match v {
        case Null => Emit("NULL");
        case Bool(b) => Emit("BOOL " + if b != 0 then "true" else "false");
        case Int(n) => EmitTyped("INT64", PrintInt(n));
        case Float(bits) => EmitTyped("FLOAT64", fl.write(bits));
        case Str(s) => Emit("STRING "); EmitQuoted(s);
        case Bytes(octets) => EmitTyped("BYTES", ScalarText(fl, v));
        case Moment(_) => EmitMomentValue(fl, v);
        case Vertex(table, offset) => EmitVertex(table, offset);
        case Edge(table, src, dst) => EmitEdge(table, src, dst);
      }
    }

    method EmitValue(fl: Floats, v: Value)
      requires Valid()
      modifies this, buf
      ensures Valid() && shown == old(shown) + ShowText(fl, v)
      decreases v, 1
    {
      hide Valid, ShowItems;
      match v {
        case List(items) => Emit("LIST ["); EmitItems(fl, items); Emit("]");
        case Path(items) => Emit("PATH ["); EmitItems(fl, items); Emit("]");
        case _ => EmitScalar(fl, v);
      }
    }

    method EmitItems(fl: Floats, vs: seq<Value>)
      requires Valid()
      modifies this, buf
      ensures Valid() && shown == old(shown) + ShowItems(fl, vs)
      decreases vs, 0
    {
      hide Valid, ShowText;
      ghost var start := shown;
      assert vs[0..] == vs;
      for i := 0 to |vs|
        invariant Valid()
        invariant shown + Separator(i, |vs|) + ShowItems(fl, vs[i..]) == start + ShowItems(fl, vs)
        modifies this, buf
      {
        if i > 0 { Emit(", "); }
        ghost var before := shown;
        ItemsStep(fl, vs, i);
        EmitValue(fl, vs[i]);
        Regroup(before, ShowText(fl, vs[i]), Separator(i + 1, |vs|), ShowItems(fl, vs[i + 1..]));
      }
      assert vs[|vs|..] == [];
    }
  }

  /** What stands between the items shown and the items to come. */
  function Separator(i: nat, n: nat): string { if 0 < i < n then ", " else "" }

  lemma ItemsStep(fl: Floats, vs: seq<Value>, i: nat)
    requires i < |vs|
    ensures ShowItems(fl, vs[i..])
         == ShowText(fl, vs[i]) + (Separator(i + 1, |vs|) + ShowItems(fl, vs[i + 1..]))
  {
    hide ShowText;
    assert vs[i..][1..] == vs[i + 1..];
    if i + 1 == |vs| { assert ShowItems(fl, vs[i + 1..]) == ""; }
  }

  lemma Regroup(a: string, b: string, c: string, d: string)
    ensures a + b + c + d == a + (b + (c + d))
  {
  }

  lemma NoChars()
    ensures ShownChars("") == ""
  {
  }

  lemma OneMoreChar(s: string, i: nat)
    requires i < |s|
    ensures ShownChars(s[i..]) == ShownChar(s[i]) + ShownChars(s[i + 1..])
  {
    assert s[i..][1..] == s[i + 1..];
  }

  lemma WholeText(n: nat, unit: char)
    ensures FieldsText(WholeField(n, unit)) == if n != 0 then Dec(n) + [unit] else ""
  {
    hide Dec;
    if n != 0 {
      OneFieldText(Field(Dec(n), unit));
    }
  }

  lemma OneFieldText(f: Field)
    ensures FieldsText([f]) == f.number + [f.unit]
  {
    assert [f][1..] == [];
    assert f.number + [f.unit] + "" == f.number + [f.unit];
  }

  lemma {:induction false} FieldsTextConcat(a: seq<Field>, b: seq<Field>)
    ensures FieldsText(a + b) == FieldsText(a) + FieldsText(b)
  {
    if a == [] {
      assert a + b == b;
    } else {
      FieldsTextConcat(a[1..], b);
      assert (a + b)[1..] == a[1..] + b && (a + b)[0] == a[0];
      assert FieldsText(a + b) == a[0].number + [a[0].unit] + FieldsText(a[1..] + b);
    }
  }

  lemma MonthsText(n: nat)
    ensures FieldsText(MonthFields(n))
         == FieldsText(WholeField(n / 12, 'Y')) + if n % 12 != 0 || n / 12 == 0 then Dec(n % 12) + "M" else ""
  {
    hide Dec, FieldsText, WholeField;
    var f := Field(Dec(n % 12), 'M');
    OneFieldText(f);
    FieldsTextConcat(WholeField(n / 12, 'Y'), [f]);
    assert WholeField(n / 12, 'Y') + [] == WholeField(n / 12, 'Y');
  }

  lemma ClockText(c: Hands)
    ensures FieldsText(ClockFields(c))
         == FieldsText(WholeField(c.hour, 'H')) + FieldsText(WholeField(c.minute, 'M'))
            + if c.sec != 0 || c.frac != 0 || (c.hour == 0 && c.minute == 0)
              then SecondsNumber(c.sec, c.frac) + "S" else ""
  {
    hide Dec, Padded, FieldsText, WholeField, SecondsNumber;
    var h, m := WholeField(c.hour, 'H'), WholeField(c.minute, 'M');
    var s := Field(SecondsNumber(c.sec, c.frac), 'S');
    OneFieldText(s);
    FieldsTextConcat(h, m);
    FieldsTextConcat(h + m, [s]);
    assert h + m + [] == h + m;
  }

  /** `cv_show`: the length the text would have, and in `buf` as much of it as fits, NUL terminated. */
  method CvShow(fl: Floats, v: Value, buf: array<char>) returns (n: nat)
    modifies buf
    ensures n == |ShowText(fl, v)|
    ensures buf.Length > 0 ==> var m := Min(n, buf.Length - 1); buf[..m] == ShowText(fl, v)[..m] && buf[m] == NUL
  {
    var o := new CvOut(buf);
    o.EmitValue(fl, v);
    assert o.shown == "" + ShowText(fl, v) == ShowText(fl, v);
    n := o.used;
  }
}
