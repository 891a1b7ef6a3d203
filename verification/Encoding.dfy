/**
  `cv_decode` and `cv_payload` of conformance/c/value.c, and a writer for them:
  what a tree of `type` and `value` means, the rule of which payloads are
  quoted, and the round trip from a value through a file and back.
 */
module Encoding {
  import opened Common
  import opened Decimal
  import opened Calendar
  import opened Clock
  import opened Duration
  import opened Temporal
  import opened Utf8
  import opened YamlScan
  import opened YamlParse
  import opened YamlRender
  import opened YamlText
  import opened Value

  /** The types a name may stand for. An integer type knows its range and whether it is quoted. */
  datatype Type =
    | NullType | BoolType
    | IntType(min: int, max: int, text: bool)
    | FloatType(narrow: bool)
    | StringType | BytesType
    | MomentType(unit: Unit)
    | ListType | PathType | VertexType | EdgeType
  {
    /** Whether the payload is written in quotes: what a bare scalar does not carry exactly. */
    predicate Quoted() {
      (IntType? && text) || FloatType? || BytesType? || MomentType? || VertexType? || EdgeType?
    }
  }

  function TypeOf(name: string): Option<Type> {
    if name == "NULL" then Some(NullType)
    else if name == "BOOL" then Some(BoolType)
    else if name == "INT8" then Some(IntType(-0x80, 0x7F, false))
    else if name == "INT16" then Some(IntType(-0x8000, 0x7FFF, false))
    else if name == "INT32" then Some(IntType(-0x8000_0000, 0x7FFF_FFFF, false))
    else if name == "INT64" then Some(IntType(INT64_MIN, INT64_MAX, true))
    else if name == "UINT8" then Some(IntType(0, 0xFF, false))
    else if name == "UINT16" then Some(IntType(0, 0xFFFF, false))
    else if name == "UINT32" then Some(IntType(0, 0xFFFF_FFFF, false))
    else if name == "UINT64" then Some(IntType(0, INT64_MAX, true))
    else if name == "FLOAT32" then Some(FloatType(true))
    else if name == "FLOAT64" then Some(FloatType(false))
    else if name == "STRING" then Some(StringType)
    else if name == "BYTES" then Some(BytesType)
    else if name == "DATE" then Some(MomentType(DATE))
    else if name == "LOCALTIME" then Some(MomentType(LOCALTIME))
    else if name == "ZONEDTIME" then Some(MomentType(ZONEDTIME))
    else if name == "LOCALDATETIME" then Some(MomentType(LOCALDATETIME))
    else if name == "ZONEDDATETIME" then Some(MomentType(ZONEDDATETIME))
    else if name == "DURATION" then Some(MomentType(DAYTIME))
    else if name == "LIST" then Some(ListType)
    else if name == "NODE" then Some(VertexType)
    else if name == "EDGE" then Some(EdgeType)
    else if name == "PATH" then Some(PathType)
    else None
  }

  /** A string up to its first NUL, which is how the source compares a type's name. */
  function CString(s: string): string { s[..IndexOf(s, NUL)] }

  /** Every integer type is one the range check of `parse_int` is exact on. */
  lemma TypesAreExact(name: string)
    ensures var t := TypeOf(name);
            t.Some? && t.value.IntType? ==>
              Int64Range(t.value.min, t.value.max) && HoldsEveryDigit(t.value.min, t.value.max)
  {
  }

  /** The parts of the C library this encoding leans on: how a float's text is read and written. */
  datatype Floats = Floats(read: (bool, string) -> Option<nat>, write: nat -> string)

  /** What a scalar payload spells. */
  function ReadPayload(fl: Floats, ty: Type, text: string): Option<Value> {
    match ty
    case BoolType =>
      if text == "true" then Some(Bool(1)) else if text == "false" then Some(Bool(0)) else None
    case IntType(min, max, _) =>
      var n :- ReadInt(text, min, max);
      Some(Int(n))
    case FloatType(narrow) =>
      var bits :- fl.read(narrow, text);
      Some(Float(bits))
    case StringType => Some(Str(text))
    case BytesType =>
      var octets :- ReadHexits(text);
      Some(Bytes(octets))
    case MomentType(unit) =>
      var t :- ReadTemporal(unit, text);
      Some(Moment(t))
    case VertexType => ReadVertex(text)
    case EdgeType => ReadEdge(text)
    case _ => None
  }

  /** Nodes at the even places of a walk and edges at the odd ones, with a node at each end. */
  predicate IsWalk(items: seq<Value>) {
    |items| % 2 == 1 && forall i :: 0 <= i < |items| ==> if i % 2 == 0 then items[i].Vertex? else items[i].Edge?
  }

  method Walk(items: seq<Value>) returns (ok: bool)
    ensures ok <==> IsWalk(items)
  {
    if |items| % 2 == 0 { return false; }
    for i := 0 to |items|
      invariant forall k :: 0 <= k < i ==> if k % 2 == 0 then items[k].Vertex? else items[k].Edge?
    {
      var wantNode := i % 2 == 0;
      if !(if wantNode then items[i].Vertex? else items[i].Edge?) { return false; }
    }
    ok := true;
  }

  /** What is under the first key of that name, if there is one. */
  function Get(keys: seq<string>, items: seq<Node>, key: string): (r: Option<Node>)
    requires |keys| == |items|
    ensures r.Some? ==> r.value in items
    ensures r.Some? <==> key in keys
    decreases |keys|
  {
    if keys == [] then None
    else if keys[0] == key then Some(items[0])
    else Get(keys[1..], items[1..], key)
  }

  /** What a value mapping means: `cv_decode`, a key that is neither `type` nor `value` refused. */
  function Decode(fl: Floats, n: Node): Option<Value>
    decreases n, 1
  {
    if !n.Map? || |n.keys| != |n.items| || (exists k :: k in n.keys && k != "type" && k != "value") then None
    else
      var named :- Get(n.keys, n.items, "type");
      var ty :- if named.Scalar? then TypeOf(CString(named.text)) else None;
      var value := Get(n.keys, n.items, "value");
      if ty.NullType? then if value.Some? then None else Some(Null)
      else if value == None then None
      else Payload(fl, ty, value.value)
  }

  /** What a payload means under a type: `cv_payload`, its rule of quotes first. */
  function Payload(fl: Floats, ty: Type, n: Node): Option<Value>
    decreases n, 0
  {
    if ty.ListType? || ty.PathType? then
      if !n.Empty? && !n.Seq? then None
      else
        var items :- if n.Seq? then DecodeAll(fl, n.items) else Some([]);
        if ty.ListType? then Some(List(items)) else if IsWalk(items) then Some(Path(items)) else None
    else if !n.Scalar? then None
    else if ty.Quoted() && !n.quoted then None
    else if !ty.Quoted() && n.quoted && !ty.StringType? then None
    else ReadPayload(fl, ty, n.text)
  }

  function DecodeAll(fl: Floats, ns: seq<Node>): (r: Option<seq<Value>>)
    ensures r.Some? ==> |r.value| == |ns|
    decreases ns
  {
    if ns == [] then Some([])
    else
      var first :- Decode(fl, ns[0]);
      var rest :- DecodeAll(fl, ns[1..]);
      Some([first] + rest)
  }

  /** `zy_get`. */
  method GetItem(keys: seq<string>, items: seq<Node>, key: string) returns (r: Option<Node>)
    requires |keys| == |items|
    ensures r == Get(keys, items, key)
  {
    for i := 0 to |keys|
      invariant Get(keys, items, key) == Get(keys[i..], items[i..], key)
    {
      if keys[i] == key { return Some(items[i]); }
    }
    r := None;
  }

  /** `zy_unknown`, over the two keys a value has. */
  method HasUnknown(keys: seq<string>) returns (found: bool)
    ensures found <==> exists k :: k in keys && k != "type" && k != "value"
  {
    for i := 0 to |keys|
      invariant forall j :: 0 <= j < i ==> keys[j] == "type" || keys[j] == "value"
    {
      var seen := keys[i] == "type" || keys[i] == "value";
      if !seen {
        assert keys[i] in keys;
        return true;
      }
    }
    found := false;
  }

  method DecodeNode(fl: Floats, n: Node) returns (r: Option<Value>)
    ensures r == Decode(fl, n)
    decreases n, 1
  {
    hide Payload, TypeOf, CString, Get;
    if !n.Map? || |n.keys| != |n.items| { return None; }
    var unknown := HasUnknown(n.keys);
    if unknown { return None; }
    var named := GetItem(n.keys, n.items, "type");
    if named == None || !named.value.Scalar? { return None; }
    var ty := TypeOf(CString(named.value.text));
    if ty == None { return None; }
    var value := GetItem(n.keys, n.items, "value");
    if ty.value.NullType? { return if value.Some? then None else Some(Null); }
    if value == None { return None; }
    r := DecodePayload(fl, ty.value, value.value);
  }

  method DecodePayload(fl: Floats, ty: Type, n: Node) returns (r: Option<Value>)
    ensures r == Payload(fl, ty, n)
    decreases n, 0
  {
    hide ReadPayload, IsWalk, DecodeAll;
    if ty.ListType? || ty.PathType? {
      if !n.Empty? && !n.Seq? { return None; }
      var cells := Some([]);
      if n.Seq? { cells := DecodeItems(fl, n.items); }
      if cells == None { return None; }
      if ty.PathType? {
        var ok := Walk(cells.value);
        if !ok { return None; }
        return Some(Path(cells.value));
      }
      return Some(List(cells.value));
    }
    if !n.Scalar? { return None; }
    if ty.Quoted() && !n.quoted { return None; }
    if !ty.Quoted() && n.quoted && !ty.StringType? { return None; }
    r := ReadPayload(fl, ty, n.text);
  }

  method DecodeItems(fl: Floats, nodes: seq<Node>) returns (r: Option<seq<Value>>)
    ensures r == DecodeAll(fl, nodes)
    decreases nodes
  {
    hide Decode;
    var cells: seq<Value> := [];
    assert nodes[0..] == nodes;
    WithNoCells(DecodeAll(fl, nodes));
    for i := 0 to |nodes|
      invariant WithCells(cells, DecodeAll(fl, nodes[i..])) == DecodeAll(fl, nodes)
    {
      assert nodes[i..][0] == nodes[i] && nodes[i..][1..] == nodes[i + 1..];
      var cell := DecodeNode(fl, nodes[i]);
      if cell == None { return None; }
      WithOneCell(cells, cell.value, DecodeAll(fl, nodes[i + 1..]));
      cells := cells + [cell.value];
    }
    assert nodes[|nodes|..] == [] && cells + [] == cells;
    r := Some(cells);
  }

  lemma WithNoCells(r: Option<seq<Value>>)
    ensures WithCells([], r) == r
  {
    if r.Some? { assert [] + r.value == r.value; }
  }

  function WithCells(cells: seq<Value>, r: Option<seq<Value>>): Option<seq<Value>> {
    if r.Some? then Some(cells + r.value) else None
  }

  lemma WithOneCell(cells: seq<Value>, cell: Value, r: Option<seq<Value>>)
    ensures WithCells(cells + [cell], r) == WithCells(cells, if r.Some? then Some([cell] + r.value) else None)
  {
    if r.Some? { assert cells + [cell] + r.value == cells + ([cell] + r.value); }
  }

  // ---- writing a value ----

  function TypeName(v: Value): string {
    match v
    case Null => "NULL"
    case Bool(_) => "BOOL"
    case Int(_) => "INT64"
    case Float(_) => "FLOAT64"
    case Str(_) => "STRING"
    case Bytes(_) => "BYTES"
    case Moment(t) => UnitName(t.unit)
    case List(_) => "LIST"
    case Path(_) => "PATH"
    case Vertex(_, _) => "NODE"
    case Edge(_, _, _) => "EDGE"
  }

  function UnitName(unit: Unit): string {
    match unit
    case DATE => "DATE"
    case LOCALTIME => "LOCALTIME"
    case ZONEDTIME => "ZONEDTIME"
    case LOCALDATETIME => "LOCALDATETIME"
    case ZONEDDATETIME => "ZONEDDATETIME"
    case _ => "DURATION"
  }

  function TypeOfValue(v: Value): Type {
    match v
    case Null => NullType
    case Bool(_) => BoolType
    case Int(_) => IntType(INT64_MIN, INT64_MAX, true)
    case Float(_) => FloatType(false)
    case Str(_) => StringType
    case Bytes(_) => BytesType
    case Moment(t) => MomentType(if t.unit.IsDuration() then DAYTIME else t.unit)
    case List(_) => ListType
    case Path(_) => PathType
    case Vertex(_, _) => VertexType
    case Edge(_, _, _) => EdgeType
  }

  /** The values a case file can hold, the text of a float being the C library's affair. */
  ghost predicate Encodable(fl: Floats, v: Value) {
    match v
    case Int(n) => INT64_MIN <= n <= INT64_MAX
    case Float(bits) =>
      var text := fl.write(bits);
      WellFormed(text) && fl.read(false, text).Some? && Same(Float(fl.read(false, text).value), v)
    case Str(s) => WellFormed(s)
    case Bytes(octets) => AllBytes(octets)
    case Moment(t) => Representable(t)
    case List(items) => forall i :: 0 <= i < |items| ==> Encodable(fl, items[i])
    case Path(items) => IsWalk(items) && forall i :: 0 <= i < |items| ==> Encodable(fl, items[i])
    case Vertex(table, offset) => table != "" && WellFormed(table) && offset <= INT64_MAX
    case Edge(table, src, dst) => table != "" && WellFormed(table) && src <= INT64_MAX && dst <= INT64_MAX
    case _ => true
  }

  /** The text of a scalar payload, as `cv_show` writes it between its quotes. */
  function ScalarText(fl: Floats, v: Value): string {
    match v
    case Bool(b) => if b != 0 then "true" else "false"
    case Int(n) => PrintInt(n)
    case Float(bits) => fl.write(bits)
    case Str(s) => s
    case Bytes(octets) => if AllBytes(octets) then HexText(octets) else ""
    case Moment(t) => MomentText(t)
    case Vertex(table, offset) => VertexText(table, offset)
    case Edge(table, src, dst) => EdgeText(table, src, dst)
    case _ => ""
  }

  function Encode(fl: Floats, v: Value): Node
    decreases v, 1
  {
    var name := Scalar(TypeName(v), false, 0);
    if v.Null? then Map(["type"], [name], 0) else Map(["type", "value"], [name, EncodePayload(fl, v)], 0)
  }

  function EncodePayload(fl: Floats, v: Value): Node
    decreases v, 0
  {
    match v
    case List(items) => if items == [] then Empty(0) else Seq(EncodeAll(fl, items), 0)
    case Path(items) => Seq(EncodeAll(fl, items), 0)
    case _ => Scalar(ScalarText(fl, v), !v.Bool?, 0)
  }

  function EncodeAll(fl: Floats, vs: seq<Value>): (ns: seq<Node>)
    ensures |ns| == |vs|
    decreases vs
  {
    if vs == [] then [] else [Encode(fl, vs[0])] + EncodeAll(fl, vs[1..])
  }

  lemma NamesAreBare(v: Value)
    ensures BareWord(TypeName(v)) && NUL !in TypeName(v)
    ensures CString(TypeName(v)) == TypeName(v)
  {
    var s := TypeName(v);
    NameIsUpper(v);
    UpperIsBare(s);
    IndexOfAbsent(s, NUL);
    assert s[..|s|] == s;
  }

  predicate Upper(c: char) { 'A' <= c <= 'Z' || '0' <= c <= '9' }

  lemma NameIsUpper(v: Value)
    ensures TypeName(v) != "" && forall k :: 0 <= k < |TypeName(v)| ==> Upper(TypeName(v)[k])
  {
  }

  lemma UpperIsBare(s: string)
    requires s != "" && forall k :: 0 <= k < |s| ==> Upper(s[k])
    ensures BareWord(s) && NUL !in s
  {
  }

  lemma NamesDecode(v: Value)
    ensures TypeOf(TypeName(v)) == Some(TypeOfValue(v))
  {
  }

  /** The payload's own text reads back to the value. */
  lemma ScalarTextReads(fl: Floats, v: Value)
    requires Encodable(fl, v) && !v.Null? && !v.List? && !v.Path?
    ensures var r := ReadPayload(fl, TypeOfValue(v), ScalarText(fl, v)); r.Some? && Same(r.value, v)
  {
    hide ReadTemporal, Representable, MomentText, ReadInt, PrintInt, ReadHexits, HexText, ReadVertex, ReadEdge;
    hide VertexText, EdgeText, WellFormed;
    match v {
      case Int(n) => IntRoundTrip(n);
      case Bytes(octets) => HexRoundTrip(octets);
      case Moment(t) => TemporalRoundTrip(if t.unit.IsDuration() then DAYTIME else t.unit, t);
      case Vertex(table, offset) => VertexRoundTrip(table, offset);
      case Edge(table, src, dst) => EdgeRoundTrip(table, src, dst);
      case _ =>
    }
  }

  // ---- plain text ----

  predicate Ascii(s: string) { forall k :: 0 <= k < |s| ==> s[k] as int < 0x80 }

  lemma DigitsAscii(s: string)
    requires AllDigits(s)
    ensures Ascii(s)
  {
  }

  lemma PrintIntAscii(n: int)
    ensures Ascii(PrintInt(n))
  {
    hide Dec;
    DigitsAscii(Dec(if n < 0 then -n else n));
  }

  lemma DateAscii(days: int)
    requires WrittenYear(CivilFromDays(days))
    ensures Ascii(DateText(days))
  {
    hide DateText, ReadDate;
    DateTextShape(days);
  }

  lemma TimeAscii(n: int)
    ensures Ascii(TimeText(n))
  {
    hide Padded, FloorMod, HandsAt;
    FloorDivIsFloor(n, NANOS_PER_DAY);
    HandsAscii(HandsAt(FloorMod(n, NANOS_PER_DAY)));
  }

  lemma HandsAscii(c: Hands)
    ensures Ascii(c.Text())
  {
    hide Padded;
    DigitsAscii(Padded(c.hour, 2));
    DigitsAscii(Padded(c.minute, 2));
    DigitsAscii(Padded(c.sec, 2));
    DigitsAscii(Padded(c.frac, 9));
  }

  lemma OffsetAscii(offset: int)
    ensures Ascii(OffsetText(offset))
  {
    hide Padded;
    var size := if offset < 0 then -offset else offset;
    DigitsAscii(Padded(size / 60, 2));
    DigitsAscii(Padded(size % 60, 2));
  }

  lemma DatetimeAscii(n: int)
    requires LocalInstant(n)
    ensures Ascii(DatetimeText(n))
  {
    hide DateText, TimeText, FloorDiv, FloorMod, CivilFromDays;
    LocalDays(n);
    NearYears(FloorDiv(n, NANOS_PER_DAY));
    DateAscii(FloorDiv(n, NANOS_PER_DAY));
    TimeAscii(FloorMod(n, NANOS_PER_DAY));
  }

  predicate AsciiFields(fields: seq<Field>) {
    forall f :: f in fields ==> Ascii(f.number) && f.unit as int < 0x80
  }

  lemma {:induction false} FieldsAscii(fields: seq<Field>)
    requires AsciiFields(fields)
    ensures Ascii(FieldsText(fields))
  {
    if fields != [] {
      FieldsAscii(fields[1..]);
      assert fields[0] in fields;
    }
  }

  lemma WholeFieldAscii(n: nat, unit: char)
    requires unit as int < 0x80
    ensures AsciiFields(WholeField(n, unit))
  {
    hide Dec;
    DigitsAscii(Dec(n));
  }

  lemma BodyAscii(magnitude: nat, months: bool)
    ensures Ascii(BodyText(magnitude, months))
  {
    hide Dec, Padded, WholeField, HandsAt, FieldsText, ClockFields, AsciiFields, MonthFields;
    if months {
      MonthFieldsAscii(magnitude);
      FieldsAscii(MonthFields(magnitude));
    } else {
      var days, rest := magnitude / NANOS_PER_DAY, magnitude % NANOS_PER_DAY;
      WholeFieldAscii(days, 'D');
      FieldsAscii(WholeField(days, 'D'));
      ClockFieldsAscii(HandsAt(rest));
      FieldsAscii(ClockFields(HandsAt(rest)));
    }
  }

  lemma MonthFieldsAscii(n: nat)
    ensures AsciiFields(MonthFields(n))
  {
    hide Dec, WholeField;
    WholeFieldAscii(n / 12, 'Y');
    DigitsAscii(Dec(n % 12));
  }

  lemma ClockFieldsAscii(c: Hands)
    ensures AsciiFields(ClockFields(c))
  {
    hide Dec, Padded, WholeField;
    WholeFieldAscii(c.hour, 'H');
    WholeFieldAscii(c.minute, 'M');
    DigitsAscii(Dec(c.sec));
    DigitsAscii(Padded(c.frac, 9));
  }

  lemma MomentAscii(t: Temporal)
    requires Representable(t)
    ensures Ascii(MomentText(t))
  {
    hide DateText, TimeText, OffsetText, DatetimeText, BodyText, CivilFromDays, LocalInstant;
    match t.unit {
      case DATE => DateAscii(t.count);
      case LOCALTIME => TimeAscii(t.count);
      case ZONEDTIME => TimeAscii(t.count); OffsetAscii(t.offset);
      case LOCALDATETIME => DatetimeAscii(t.count);
      case ZONEDDATETIME => DatetimeAscii(t.count + t.offset * NANOS_PER_MINUTE); OffsetAscii(t.offset);
      case _ => BodyAscii(if t.count < 0 then -t.count else t.count, t.unit.YEARMONTH?);
    }
  }

  /** A scalar payload is text any file can hold. */
  lemma ScalarTextWellFormed(fl: Floats, v: Value)
    requires Encodable(fl, v) && !v.Null? && !v.List? && !v.Path?
    ensures WellFormed(ScalarText(fl, v))
    ensures v.Bool? ==> BareWord(ScalarText(fl, v))
  {
    hide WellFormed, PrintInt, HexText, MomentText, Dec, Representable;
    match v {
      case Bool(_) => AsciiWellFormed(ScalarText(fl, v));
      case Int(n) => PrintIntAscii(n); AsciiWellFormed(PrintInt(n));
      case Bytes(octets) => HexIsAscii(octets); AsciiWellFormed(HexText(octets));
      case Moment(t) => MomentAscii(t); AsciiWellFormed(MomentText(t));
      case Vertex(table, offset) =>
        DigitsAscii(Dec(offset));
        AsciiWellFormed("#");
        AsciiWellFormed(Dec(offset));
        WellFormedConcat(table, "#");
        WellFormedConcat(table + "#", Dec(offset));
      case Edge(table, src, dst) =>
        EndsRoundTrip(src, dst);
        AsciiWellFormed("#");
        AsciiWellFormed(Dec(src) + "->" + Dec(dst));
        WellFormedConcat(table, "#");
        WellFormedConcat(table + "#", Dec(src) + "->" + Dec(dst));
      case _ =>
    }
  }

  // ---- both directions ----

  lemma {:induction false} EncodeRenderable(fl: Floats, v: Value)
    requires Encodable(fl, v)
    ensures Renderable(Encode(fl, v))
    decreases v, 1
  {
    hide EncodePayload, BareWord, WellFormed;
    NamesAreBare(v);
    if !v.Null? { PayloadRenderable(fl, v); }
  }

  lemma {:induction false} PayloadRenderable(fl: Floats, v: Value)
    requires Encodable(fl, v) && !v.Null?
    ensures EncodePayload(fl, v).Empty? || Renderable(EncodePayload(fl, v))
    decreases v, 0
  {
    hide Encode, BareWord, WellFormed, ScalarText;
    match v {
      case List(items) => AllRenderable(fl, items);
      case Path(items) => AllRenderable(fl, items);
      case _ => ScalarTextWellFormed(fl, v);
    }
  }

  lemma {:induction false} AllRenderable(fl: Floats, vs: seq<Value>)
    requires forall i :: 0 <= i < |vs| ==> Encodable(fl, vs[i])
    ensures forall i :: 0 <= i < |vs| ==> Renderable(EncodeAll(fl, vs)[i])
    decreases vs
  {
    hide Encode, Renderable;
    if vs != [] {
      EncodeRenderable(fl, vs[0]);
      AllRenderable(fl, vs[1..]);
    }
  }

  /** Decoding the tree of a value gives the same value. */
  lemma {:induction false} DecodeEncode(fl: Floats, v: Value)
    requires Encodable(fl, v)
    ensures var r := Decode(fl, Encode(fl, v)); r.Some? && Same(r.value, v)
    decreases v, 1
  {
    hide EncodePayload, Payload, TypeOf, Encodable, TypeName, CString;
    NamesAreBare(v);
    NamesDecode(v);
    if !v.Null? {
      PayloadDecodes(fl, v);
      assert ["type", "value"][1..] == ["value"];
    }
  }

  lemma {:induction false} PayloadDecodes(fl: Floats, v: Value)
    requires Encodable(fl, v) && !v.Null?
    ensures var r := Payload(fl, TypeOfValue(v), EncodePayload(fl, v)); r.Some? && Same(r.value, v)
    decreases v, 0
  {
    hide Encode, Decode, ScalarText, ReadPayload;
    match v {
      case List(items) =>
        AllDecode(fl, items);
        ListsThatAreSame(DecodeAll(fl, EncodeAll(fl, items)).value, items);
      case Path(items) =>
        AllDecode(fl, items);
        PathDecodes(fl, v);
      case _ => ScalarTextReads(fl, v);
    }
  }

  lemma PathDecodes(fl: Floats, v: Value)
    requires v.Path? && Encodable(fl, v)
    requires var r := DecodeAll(fl, EncodeAll(fl, v.items));
             r.Some? && |r.value| == |v.items| && forall i :: 0 <= i < |v.items| ==> Same(r.value[i], v.items[i])
    ensures var r := Payload(fl, TypeOfValue(v), EncodePayload(fl, v)); r.Some? && Same(r.value, v)
  {
    hide Encode, Decode, ScalarText, ReadPayload, Encodable;
    PathIsWalk(fl, v);
    var back := DecodeAll(fl, EncodeAll(fl, v.items)).value;
    ListsThatAreSame(back, v.items);
    SameWalk(back, v.items);
  }

  lemma PathIsWalk(fl: Floats, v: Value)
    requires v.Path? && Encodable(fl, v)
    ensures IsWalk(v.items)
  {
  }

  lemma SameWalk(xs: seq<Value>, ys: seq<Value>)
    requires |xs| == |ys| && (forall i :: 0 <= i < |xs| ==> Same(xs[i], ys[i])) && IsWalk(ys)
    ensures IsWalk(xs)
  {
    forall i | 0 <= i < |xs| ensures if i % 2 == 0 then xs[i].Vertex? else xs[i].Edge? {
      assert Same(xs[i], ys[i]);
    }
  }

  lemma {:induction false} AllDecode(fl: Floats, vs: seq<Value>)
    requires forall i :: 0 <= i < |vs| ==> Encodable(fl, vs[i])
    ensures var r := DecodeAll(fl, EncodeAll(fl, vs));
            r.Some? && forall i :: 0 <= i < |vs| ==> Same(r.value[i], vs[i])
    decreases vs
  {
    hide Encode, Decode, Same, Encodable;
    if vs != [] {
      DecodeEncode(fl, vs[0]);
      AllDecode(fl, vs[1..]);
      var ns := EncodeAll(fl, vs);
      assert ns[0] == Encode(fl, vs[0]) && ns[1..] == EncodeAll(fl, vs[1..]);
    }
  }

  /** Line numbers do not reach a value. */
  lemma {:induction false} DecodeSame(fl: Floats, a: Node, b: Node)
    requires SameTree(a, b)
    ensures Decode(fl, a) == Decode(fl, b)
    decreases a, 1
  {
    hide Payload, TypeOf, CString, Get;
    if a.Map? && |a.keys| == |a.items| {
      GetSame(a.keys, a.items, b.items, "type");
      GetSame(a.keys, a.items, b.items, "value");
      var named, value := Get(a.keys, a.items, "type"), Get(a.keys, a.items, "value");
      if named.Some? && named.value.Scalar? && value.Some? {
        var ty := TypeOf(CString(named.value.text));
        if ty.Some? { PayloadSame(fl, ty.value, value.value, Get(b.keys, b.items, "value").value); }
      }
    }
  }

  lemma {:induction false} GetSame(keys: seq<string>, xs: seq<Node>, ys: seq<Node>, key: string)
    requires |keys| == |xs| == |ys| && forall i :: 0 <= i < |xs| ==> SameTree(xs[i], ys[i])
    ensures var x, y := Get(keys, xs, key), Get(keys, ys, key);
            (x.Some? <==> y.Some?) && (x.Some? ==> SameTree(x.value, y.value))
    decreases |keys|
  {
    if keys != [] && keys[0] != key { GetSame(keys[1..], xs[1..], ys[1..], key); }
  }

  lemma {:induction false} PayloadSame(fl: Floats, ty: Type, a: Node, b: Node)
    requires SameTree(a, b)
    ensures Payload(fl, ty, a) == Payload(fl, ty, b)
    decreases a, 0
  {
    hide ReadPayload, IsWalk, Decode;
    if a.Seq? { AllSame(fl, a.items, b.items); }
  }

  lemma {:induction false} AllSame(fl: Floats, xs: seq<Node>, ys: seq<Node>)
    requires |xs| == |ys| && forall i :: 0 <= i < |xs| ==> SameTree(xs[i], ys[i])
    ensures DecodeAll(fl, xs) == DecodeAll(fl, ys)
    decreases xs
  {
    hide Decode, SameTree;
    if xs != [] {
      DecodeSame(fl, xs[0], ys[0]);
      AllSame(fl, xs[1..], ys[1..]);
    }
  }

  /**
    Every value of the encoding, written to a file with any comments and blank
    lines and read back through lexer, parser and decoder, is the same value.
   */
  lemma ValueRoundTrip(fl: Floats, v: Value, decor: seq<Decor>)
    requires Encodable(fl, v) && |decor| >= |Rows(Encode(fl, v), 0)| && forall d :: d in decor ==> IsDecor(d)
    ensures var tree := ParseText(Render(Encode(fl, v), decor));
            tree.Some? && Decode(fl, tree.value).Some? && Same(Decode(fl, tree.value).value, v)
  {
    hide Decode, Encode, ParseText, Render, Rows, Renderable, IsDecor, Same, Encodable, SameTree;
    EncodeRenderable(fl, v);
    RenderRoundTrip(Encode(fl, v), decor);
    DecodeSame(fl, ParseText(Render(Encode(fl, v), decor)).value, Encode(fl, v));
    DecodeEncode(fl, v);
  }
}
