/**
  The types of the conformance encoding as a case file meets them: which payloads a
  mapping of `type` and `value` may hold under each name, and which it may not.
 */
module EncodingTypes {
  import opened Common
  import opened Decimal
  import opened Temporal
  import opened YamlScan
  import opened YamlParse
  import opened Value
  import opened Encoding

  /** A mapping of a type and what is under its value. */
  function Under(name: string, n: Node): Node { Map(["type", "value"], [Scalar(name, false, 0), n], 0) }

  /** One of a scalar, in quotes or bare. */
  function Cell(name: string, text: string, quoted: bool): Node { Under(name, Scalar(text, quoted, 0)) }

  /** What is read of an integer's own text, whatever the range: the integer if it is in it, and never another. */
  lemma PrintedReads(n: int, min: int, max: int)
    requires min <= 0 <= max
    ensures ReadInt(PrintInt(n), min, max) == if min <= n <= max then Some(n) else None
  {
    var text := PrintInt(n);
    if n < 0 {
      assert Unsigned(text) == Dec(-n);
    } else {
      assert IsDigit(Dec(n)[0]);
    }
  }

  lemma UnderReads(fl: Floats, name: string, n: Node, ty: Type)
    requires NUL !in name && TypeOf(name) == Some(ty) && !ty.NullType?
    ensures Decode(fl, Under(name, n)) == Payload(fl, ty, n)
  {
    hide TypeOf, Payload, CString;
    PlainName(name);
    var m := Under(name, n);
    assert m.keys[1..] == ["value"];
    assert forall k :: k in m.keys ==> k == "type" || k == "value";
  }

  lemma CellReads(fl: Floats, name: string, text: string, quoted: bool, ty: Type)
    requires NUL !in name && TypeOf(name) == Some(ty) && !ty.NullType?
    ensures Decode(fl, Cell(name, text, quoted)) == Payload(fl, ty, Scalar(text, quoted, 0))
  {
    hide TypeOf, Payload, Decode;
    UnderReads(fl, name, Scalar(text, quoted, 0), ty);
  }

  lemma PlainName(name: string)
    requires NUL !in name
    ensures CString(name) == name
  {
    IndexOfAbsent(name, NUL);
    assert name[..|name|] == name;
  }

  /** Under this name the integers of this range are read, quoted or bare as it asks, and nothing else. */
  ghost predicate Holds(fl: Floats, name: string, min: int, max: int, quoted: bool) {
    forall n: int :: HoldsAt(fl, name, n, min, max, quoted)
  }

  predicate HoldsAt(fl: Floats, name: string, n: int, min: int, max: int, quoted: bool) {
    Decode(fl, Cell(name, PrintInt(n), quoted)) == (if min <= n <= max then Some(Int(n)) else None)
    && Decode(fl, Cell(name, PrintInt(n), !quoted)) == None
  }

  lemma IntegerCells(fl: Floats, name: string, min: int, max: int, quoted: bool)
    requires NUL !in name && TypeOf(name) == Some(IntType(min, max, quoted)) && min <= 0 <= max
    ensures Holds(fl, name, min, max, quoted)
  {
    hide PrintInt, ReadInt, TypeOf, Decode;
    forall n: int ensures HoldsAt(fl, name, n, min, max, quoted) {
      PrintedReads(n, min, max);
      CellReads(fl, name, PrintInt(n), quoted, IntType(min, max, quoted));
      CellReads(fl, name, PrintInt(n), !quoted, IntType(min, max, quoted));
    }
  }

  /** Each integer type holds exactly the integers of its width, and those of 64 bits are quoted. */
  lemma IntegersByWidth(fl: Floats)
    ensures Holds(fl, "INT8", -128, 127, false)
    ensures Holds(fl, "INT16", -32768, 32767, false)
    ensures Holds(fl, "INT32", -2147483648, 2147483647, false)
    ensures Holds(fl, "INT64", -9223372036854775808, 9223372036854775807, true)
    ensures Holds(fl, "UINT8", 0, 255, false)
    ensures Holds(fl, "UINT16", 0, 65535, false)
    ensures Holds(fl, "UINT32", 0, 4294967295, false)
    ensures Holds(fl, "UINT64", 0, 9223372036854775807, true)
  {
    hide Holds;
    IntegerCells(fl, "INT8", -128, 127, false);
    IntegerCells(fl, "INT16", -32768, 32767, false);
    IntegerCells(fl, "INT32", -2147483648, 2147483647, false);
    IntegerCells(fl, "INT64", -9223372036854775808, 9223372036854775807, true);
    IntegerCells(fl, "UINT8", 0, 255, false);
    IntegerCells(fl, "UINT16", 0, 65535, false);
    IntegerCells(fl, "UINT32", 0, 4294967295, false);
    IntegerCells(fl, "UINT64", 0, 9223372036854775807, true);
  }

  /** The two floats are in quotes, and each is read as wide as it is. */
  lemma FloatsByWidth(fl: Floats, text: string)
    ensures var bits := fl.read(true, text);
            Decode(fl, Cell("FLOAT32", text, true)) == if bits.Some? then Some(Float(bits.value)) else None
    ensures var bits := fl.read(false, text);
            Decode(fl, Cell("FLOAT64", text, true)) == if bits.Some? then Some(Float(bits.value)) else None
    ensures Decode(fl, Cell("FLOAT32", text, false)) == None && Decode(fl, Cell("FLOAT64", text, false)) == None
  {
    hide Decode;
    CellReads(fl, "FLOAT32", text, true, FloatType(true));
    CellReads(fl, "FLOAT32", text, false, FloatType(true));
    CellReads(fl, "FLOAT64", text, true, FloatType(false));
    CellReads(fl, "FLOAT64", text, false, FloatType(false));
  }

  /** A string is any text, in quotes or bare; a boolean is one of two words, bare. */
  lemma StringsAndBooleans(fl: Floats, text: string, quoted: bool)
    ensures Decode(fl, Cell("STRING", text, quoted)) == Some(Str(text))
    ensures Decode(fl, Cell("BOOL", text, quoted))
         == if quoted then None
            else if text == "true" then Some(Bool(1)) else if text == "false" then Some(Bool(0)) else None
  {
    hide Decode;
    CellReads(fl, "STRING", text, quoted, StringType);
    CellReads(fl, "BOOL", text, quoted, BoolType);
  }

  /** A moment is in quotes, and read as its type reads it. */
  lemma Moments(fl: Floats, unit: Unit, text: string)
    ensures var t := ReadTemporal(unit, text);
            Decode(fl, Cell(UnitName(unit), text, true)) == if t.Some? then Some(Moment(t.value)) else None
    ensures Decode(fl, Cell(UnitName(unit), text, false)) == None
  {
    hide Decode, ReadTemporal;
    var ty := TypeOf(UnitName(unit)).value;
    MomentName(unit);
    CellReads(fl, UnitName(unit), text, true, ty);
    CellReads(fl, UnitName(unit), text, false, ty);
    EitherDuration(text);
  }

  lemma MomentName(unit: Unit)
    ensures NUL !in UnitName(unit)
    ensures TypeOf(UnitName(unit)) == Some(MomentType(if unit.IsDuration() then DAYTIME else unit))
  {
  }

  lemma EitherDuration(text: string)
    ensures ReadTemporal(YEARMONTH, text) == ReadTemporal(DAYTIME, text)
  {
  }

  /** Octets, nodes and edges are in quotes too. */
  lemma TextsInQuotes(fl: Floats, text: string)
    ensures var octets := ReadHexits(text);
            Decode(fl, Cell("BYTES", text, true)) == if octets.Some? then Some(Bytes(octets.value)) else None
    ensures Decode(fl, Cell("NODE", text, true)) == ReadVertex(text)
    ensures Decode(fl, Cell("EDGE", text, true)) == ReadEdge(text)
    ensures forall name :: name in {"BYTES", "NODE", "EDGE"} ==> Decode(fl, Cell(name, text, false)) == None
  {
    TypeNames();
    hide Decode, TypeOf, ReadHexits, ReadVertex, ReadEdge, Cell;
    OnlyInQuotes(fl, "BYTES", text, BytesType);
    OnlyInQuotes(fl, "NODE", text, VertexType);
    OnlyInQuotes(fl, "EDGE", text, EdgeType);
  }

  lemma TypeNames()
    ensures TypeOf("BYTES") == Some(BytesType) && TypeOf("NODE") == Some(VertexType) && TypeOf("EDGE") == Some(EdgeType)
    ensures TypeOf("LIST") == Some(ListType) && TypeOf("PATH") == Some(PathType)
  {
  }

  lemma OnlyInQuotes(fl: Floats, name: string, text: string, ty: Type)
    requires NUL !in name && TypeOf(name) == Some(ty) && ty.Quoted()
    ensures Decode(fl, Cell(name, text, true)) == ReadPayload(fl, ty, text)
    ensures Decode(fl, Cell(name, text, false)) == None
  {
    hide Decode, TypeOf, ReadPayload, Cell;
    CellReads(fl, name, text, true, ty);
    CellReads(fl, name, text, false, ty);
  }

  /** A node is named by a table, and so is an edge. */
  lemma TablesHaveNames(text: string)
    ensures var r := ReadVertex(text); r.Some? ==> r.value.Vertex? && r.value.table != "" && r.value.offset <= INT64_MAX
    ensures var r := ReadEdge(text);
            r.Some? ==> r.value.Edge? && r.value.table != "" && r.value.src <= INT64_MAX && r.value.dst <= INT64_MAX
  {
    hide ReadDigits;
    var hash := LastIndex(text, '#');
    if hash.Some? {
      var ends := text[hash.value + 1..];
      DigitsAreCounts(ends);
      var at := ArrowIndex(ends);
      if at.Some? {
        DigitsAreCounts(ends[..at.value]);
        DigitsAreCounts(ends[at.value + 2..]);
      }
    }
  }

  /** A node, or a node, an edge and a walk. */
  predicate Alternates(items: seq<Value>) {
    items != [] && items[0].Vertex? && (|items| == 1 || (|items| > 1 && items[1].Edge? && Alternates(items[2..])))
  }

  lemma {:induction false} WalksAlternate(items: seq<Value>)
    ensures IsWalk(items) <==> Alternates(items)
  {
    if |items| > 1 {
      WalksAlternate(items[2..]);
      var rest := items[2..];
      assert forall i :: 0 <= i < |rest| ==> rest[i] == items[i + 2];
      assert forall i :: 2 <= i < |items| ==> items[i] == rest[i - 2] && i % 2 == (i - 2) % 2;
    }
  }

  /** Nothing under a list's key is the list of nothing, and no path; and no scalar is either. */
  lemma ListsOfItems(fl: Floats, n: Node)
    ensures n.Empty? ==> Decode(fl, Under("LIST", n)) == Some(List([])) && Decode(fl, Under("PATH", n)) == None
    ensures n.Scalar? || n.Map? ==> Decode(fl, Under("LIST", n)) == None && Decode(fl, Under("PATH", n)) == None
    ensures n.Seq? ==>
      var items := DecodeAll(fl, n.items);
      Decode(fl, Under("LIST", n)) == (if items.Some? then Some(List(items.value)) else None) &&
      Decode(fl, Under("PATH", n)) == if items.Some? && Alternates(items.value) then Some(Path(items.value)) else None
  {
    TypeNames();
    hide Decode, TypeOf, DecodeAll, Alternates, IsWalk;
    UnderReads(fl, "LIST", n, ListType);
    UnderReads(fl, "PATH", n, PathType);
    var items := if n.Seq? then DecodeAll(fl, n.items) else Some([]);
    if items.Some? { WalksAlternate(items.value); }
    NoWalk();
  }

  lemma NoWalk()
    ensures !Alternates([])
  {
  }

  /**
    What decodes at all: a mapping with a `type` whose name is one of the encoding's, with a
    `value` exactly when it is not null, and with no other key.
   */
  lemma OnlyThisShape(fl: Floats, n: Node)
    requires Decode(fl, n).Some?
    ensures n.Map? && |n.keys| == |n.items| && forall k :: k in n.keys ==> k == "type" || k == "value"
    ensures "type" in n.keys && ("value" in n.keys <==> !Decode(fl, n).value.Null?)
  {
    hide Payload, TypeOf, CString;
    var named := Get(n.keys, n.items, "type").value;
    var ty := TypeOf(CString(named.text)).value;
    if !ty.NullType? { NeverNull(fl, ty, Get(n.keys, n.items, "value").value); }
  }

  lemma NeverNull(fl: Floats, ty: Type, n: Node)
    requires !ty.NullType? && Payload(fl, ty, n).Some?
    ensures !Payload(fl, ty, n).value.Null?
  {
    hide DecodeAll, IsWalk;
  }
}
