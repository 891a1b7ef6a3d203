/**
  ISO 8601 durations as conformance/c/value.c reads and writes them: a list of
  number and unit pairs, summed exactly into months or into nanoseconds.
 */
module Duration {
  import opened Common
  import opened Decimal
  import opened Calendar
  import opened Clock

  // ---- one number ----

  predicate IsPoint(c: char) { c == '.' || c == ',' }

  predicate IsNumberChar(c: char) { IsDigit(c) || IsPoint(c) }

  /** The offset of the first decimal point or comma, or `|t|`. */
  function PointIndex(t: string): (i: nat)
    ensures i <= |t|
    ensures i < |t| ==> IsPoint(t[i])
    ensures forall k :: 0 <= k < i ==> !IsPoint(t[k])
  {
    if t == "" || IsPoint(t[0]) then 0 else PointIndex(t[1..]) + 1
  }

  lemma PointIndexUnique(t: string, i: nat)
    requires i <= |t| && (i < |t| ==> IsPoint(t[i]))
    requires forall k :: 0 <= k < i ==> !IsPoint(t[k])
    ensures PointIndex(t) == i
  {
  }

  /** The digits after the point, in units of `unit`, cut off below one nanosecond. */
  function ReadFraction(f: string, unit: int): Option<int> {
    if |f| == 0 || |f| > 9 then None
    else
      var frac :- ReadDigits(f);
      if unit * frac > INT64_MAX then None else Some(unit * frac / Pow10(|f|))
  }

  /** A number of units: a whole part that may be missing, and a fraction that may be. */
  function ReadScaled(t: string, unit: int): Option<int> {
    var k := PointIndex(t);
    var whole :- if k == 0 then Some(0) else ReadDigits(t[..k]);
    var part :- if k == |t| then Some(0) else ReadFraction(t[k + 1..], unit);
    if whole * unit + part > INT64_MAX then None else Some(whole * unit + part)
  }

  /** The overflow tests divide where the product would not fit. */
  lemma ProductFits(a: int, b: int, max: int)
    requires 0 <= a && 0 < b && 0 <= max
    ensures a > max / b <==> a * b > max
  {
    assert max == (max / b) * b + max % b;
    if a > max / b {
      assert a * b >= (max / b + 1) * b;
    } else {
      assert a * b <= (max / b) * b;
    }
  }

  lemma ReadDigitsRange(t: string)
    ensures ReadDigits(t).Some? ==> 0 <= ReadDigits(t).value <= INT64_MAX
  {
  }

  lemma QuotientRange(a: int, b: int)
    requires 0 <= a && 0 < b
    ensures 0 <= a / b <= a
  {
    QuotientBounds(a, b, a / b, a % b);
  }

  lemma QuotientBounds(a: int, b: int, q: int, r: int)
    requires 0 <= a && 0 <= r < b && a == q * b + r
    ensures 0 <= q <= a
  {
    if q <= -1 { Times(q, -1, b); }
    if q >= 0 { Times(1, b, q); }
  }

  method Fraction(f: string, unit: Int64) returns (r: Option<Int64>)
    requires 0 < unit
    ensures Wide(r) == ReadFraction(f, unit as int)
    ensures r.Some? ==> r.value >= 0
  {
    hide ReadDigits;
    var len := |f|;
    if len == 0 || len > 9 { return None; }
    var frac := Digits(f);
    if frac == None { return None; }
    var scale: Int64 := 1;
    for i := 0 to len
      invariant scale as int == Pow10(i)
    {
      SmallPower(i);
      scale := scale * 10;
    }
    if frac.value != 0 {
      ProductFits(unit as int, frac.value as int, INT64_MAX);
    }
    if frac.value != 0 && unit > MAX64 / frac.value { return None; }
    assert 0 <= unit as int * frac.value as int;
    var product := unit * frac.value;
    QuotientRange(product as int, scale as int);
    r := Some(product / scale);
  }

  lemma SmallPower(k: nat)
    requires k <= 9
    ensures Pow10(k) <= NANOS_PER_SEC
  {
    Pow10Add(k, 9 - k);
    Pow10Nine();
    assert Pow10(k) * 1 <= Pow10(k) * Pow10(9 - k);
  }

  method Scaled(t: string, unit: Int64) returns (r: Option<Int64>)
    requires 0 < unit
    ensures Wide(r) == ReadScaled(t, unit as int)
    ensures r.Some? ==> r.value >= 0
  {
    hide ReadDigits, ReadFraction;
    var wholeLen := |t|;
    for i := 0 to |t|
      invariant wholeLen == |t|
      invariant forall k :: 0 <= k < i ==> !IsPoint(t[k])
    {
      if t[i] == '.' || t[i] == ',' { wholeLen := i; break; }
    }
    PointIndexUnique(t, wholeLen);
    var whole: Option<Int64> := Some(0);
    if wholeLen > 0 {
      whole := Digits(t[..wholeLen]);
    }
    if whole == None { return None; }
    var part: Option<Int64> := Some(0);
    if wholeLen < |t| {
      part := Fraction(t[wholeLen + 1..], unit);
    }
    if part == None { return None; }
    ProductFits(whole.value as int, unit as int, INT64_MAX);
    if whole.value != 0 && whole.value > MAX64 / unit { return None; }
    assert 0 <= whole.value as int * unit as int;
    var n := whole.value * unit;
    if n > MAX64 - part.value { return None; }
    r := Some(n + part.value);
  }

  lemma FractionRange(f: string, unit: int)
    requires 0 < unit
    ensures ReadFraction(f, unit).Some? ==> 0 <= ReadFraction(f, unit).value <= INT64_MAX
  {
    hide ReadDigits;
    if ReadFraction(f, unit).Some? {
      ReadDigitsRange(f);
      assert 0 <= unit * ReadDigits(f).value;
      QuotientRange(unit * ReadDigits(f).value, Pow10(|f|));
    }
  }

  lemma ScaledRange(t: string, unit: int)
    requires 0 < unit
    ensures ReadScaled(t, unit).Some? ==> 0 <= ReadScaled(t, unit).value <= INT64_MAX
  {
    hide ReadDigits, ReadFraction;
    var k := PointIndex(t);
    if ReadScaled(t, unit).Some? {
      if k > 0 { ReadDigitsRange(t[..k]); }
      if k < |t| { FractionRange(t[k + 1..], unit); }
    }
  }

  /** The whole part of a number, which may be missing. */
  function ReadWhole(whole: string): Option<int> { if whole == "" then Some(0) else ReadDigits(whole) }

  /**
    A well-formed number, with a point or a comma, its whole part missing or not,
    is refused exactly when it does not fit, or when the unit times the digits
    after the point does not, whatever the quotient.
   */
  lemma {:induction false} ScaledExact(whole: string, point: char, frac: string, unit: int)
    requires 0 < unit && IsPoint(point)
    requires ReadWhole(whole).Some? && ReadDigits(frac).Some? && 1 <= |frac| <= 9
    ensures var w, f := ReadWhole(whole).value, ReadDigits(frac).value;
            var exact := w * unit + unit * f / Pow10(|frac|);
            ReadScaled(whole + [point] + frac, unit)
              == if exact <= INT64_MAX && unit * f <= INT64_MAX then Some(exact) else None
  {
    PointFree(whole);
    hide ReadDigits, ReadFraction, PointIndex;
    var t := whole + [point] + frac;
    PointIndexUnique(t, |whole|);
    assert t[..|whole|] == whole && t[|whole| + 1..] == frac;
    FractionExact(frac, unit);
    ReadDigitsRange(whole);
    var w := ReadWhole(whole).value;
    assert 0 <= w * unit;
  }

  /** No point is among digits. */
  lemma PointFree(whole: string)
    requires ReadWhole(whole).Some?
    ensures forall k :: 0 <= k < |whole| ==> !IsPoint(whole[k])
  {
    if k :| 0 <= k < |whole| && IsPoint(whole[k]) {
      NotDigits(whole, whole[k]);
    }
  }

  lemma FractionExact(frac: string, unit: int)
    requires 0 < unit && ReadDigits(frac).Some? && 1 <= |frac| <= 9
    ensures var f := ReadDigits(frac).value;
            ReadFraction(frac, unit) == if unit * f > INT64_MAX then None else Some(unit * f / Pow10(|frac|))
  {
  }

  // ---- the list of fields ----

  datatype Field = Field(number: string, unit: char) {
    predicate WellFormed() {
      number != "" && (forall k :: 0 <= k < |number| ==> IsNumberChar(number[k])) && !IsNumberChar(unit)
    }
  }

  /** The offset of the first byte that no number holds, or `|t|`. */
  function RunEnd(t: string): (i: nat)
    ensures i <= |t|
    ensures i < |t| ==> !IsNumberChar(t[i])
    ensures forall k :: 0 <= k < i ==> IsNumberChar(t[k])
  {
    if t == "" || !IsNumberChar(t[0]) then 0 else RunEnd(t[1..]) + 1
  }

  lemma RunEndUnique(t: string, i: nat)
    requires i <= |t| && (i < |t| ==> !IsNumberChar(t[i]))
    requires forall k :: 0 <= k < i ==> IsNumberChar(t[k])
    ensures RunEnd(t) == i
  {
  }

  /** The number and unit pairs of one part, each with both halves. */
  function ReadFields(t: string): Option<seq<Field>>
    decreases |t|
  {
    var k := RunEnd(t);
    if t == "" then Some([])
    else if k == 0 || k == |t| then None
    else
      var rest :- ReadFields(t[k + 1..]);
      Some([Field(t[..k], t[k])] + rest)
  }

  function FieldsText(fields: seq<Field>): string {
    if fields == [] then "" else fields[0].number + [fields[0].unit] + FieldsText(fields[1..])
  }

  /** Reading a list of fields is the inverse of writing it, in both directions. */
  lemma {:induction false} FieldsRoundTrip(fields: seq<Field>)
    requires forall f :: f in fields ==> f.WellFormed()
    ensures ReadFields(FieldsText(fields)) == Some(fields)
  {
    if fields != [] {
      var f := fields[0];
      var rest := FieldsText(fields[1..]);
      FieldsRoundTrip(fields[1..]);
      var t := FieldsText(fields);
      assert t == f.number + [f.unit] + rest;
      assert f.WellFormed();
      RunEndUnique(t, |f.number|);
      assert t[..|f.number|] == f.number && t[|f.number| + 1..] == rest && t[|f.number|] == f.unit;
      assert fields == [f] + fields[1..];
    }
  }

  lemma FirstFieldWellFormed(t: string)
    requires 0 < RunEnd(t) < |t|
    ensures Field(t[..RunEnd(t)], t[RunEnd(t)]).WellFormed()
  {
  }

  /** One field off the front of a text that reads as fields. */
  lemma ReadFieldsStep(t: string)
    requires ReadFields(t).Some? && t != ""
    ensures var k := RunEnd(t);
            0 < k < |t| && ReadFields(t[k + 1..]).Some? &&
            ReadFields(t).value == [Field(t[..k], t[k])] + ReadFields(t[k + 1..]).value
  {
    hide RunEnd;
  }

  lemma FieldsTextCons(f: Field, rest: seq<Field>)
    ensures FieldsText([f] + rest) == f.number + [f.unit] + FieldsText(rest)
  {
    assert ([f] + rest)[1..] == rest;
  }

  lemma {:induction false} ReadFieldsExact(t: string)
    requires ReadFields(t).Some?
    ensures FieldsText(ReadFields(t).value) == t
    ensures forall f :: f in ReadFields(t).value ==> f.WellFormed()
    decreases |t|
  {
    hide Field.WellFormed, RunEnd, FieldsText, ReadFields;
    if t == "" {
      NoText();
      NoFields();
    } else {
      ReadFieldsStep(t);
      FirstFieldWellFormed(t);
      var k := RunEnd(t);
      var first, rest := Field(t[..k], t[k]), ReadFields(t[k + 1..]).value;
      ReadFieldsExact(t[k + 1..]);
      FieldsTextCons(first, rest);
      assert t == t[..k] + [t[k]] + t[k + 1..];
      assert forall f :: f in [first] + rest ==> f == first || f in rest;
    }
  }

  lemma NoText()
    ensures ReadFields("") == Some([])
  {
  }

  lemma NoFields()
    ensures FieldsText([]) == ""
  {
  }

  /** Months and nanoseconds, the two things a duration can be made of. */
  datatype Amount = Amount(months: int, nanos: int) {
    function Plus(that: Amount): Amount { Amount(months + that.months, nanos + that.nanos) }

    predicate Fits() { 0 <= months <= INT64_MAX && 0 <= nanos <= INT64_MAX }
  }

  const NOTHING := Amount(0, 0)

  /** The nanoseconds in a unit, when it is one a time part or a date part counts in. */
  function UnitSize(c: char, timePart: bool): Option<int> {
    if timePart then
      match c
      case 'H' => Some(NANOS_PER_HOUR) case 'h' => Some(NANOS_PER_HOUR)
      case 'M' => Some(NANOS_PER_MINUTE) case 'm' => Some(NANOS_PER_MINUTE)
      case 'S' => Some(NANOS_PER_SEC) case 's' => Some(NANOS_PER_SEC)
      case _ => None
    else
      match c
      case 'W' => Some(7 * NANOS_PER_DAY) case 'w' => Some(7 * NANOS_PER_DAY)
      case 'D' => Some(NANOS_PER_DAY) case 'd' => Some(NANOS_PER_DAY)
      case _ => None
  }

  /** The months in a unit of whole months. */
  function MonthSize(c: char, timePart: bool): Option<int> {
    if timePart then None
    else if c == 'Y' || c == 'y' then Some(12)
    else if c == 'M' || c == 'm' then Some(1)
    else None
  }

  /** What one field is worth: months take no fraction, the other units do. */
  function Worth(f: Field, timePart: bool): Option<Amount> {
    match MonthSize(f.unit, timePart)
    case Some(size) =>
      var n :- ReadDigits(f.number);
      if n * size > INT64_MAX then None else Some(Amount(n * size, 0))
    case None =>
      var size :- UnitSize(f.unit, timePart);
      var n :- ReadScaled(f.number, size);
      Some(Amount(0, n))
  }

  /** The exact sum of the fields, with no width. */
  function Sum(fields: seq<Field>, timePart: bool): Option<Amount> {
    if fields == [] then Some(NOTHING)
    else
      var first :- Worth(fields[0], timePart);
      var rest :- Sum(fields[1..], timePart);
      Some(first.Plus(rest))
  }

  /** `start` and the exact sum of a part, when the total fits. */
  function AddPart(t: string, timePart: bool, start: Amount): Option<Amount> {
    var fields :- ReadFields(t);
    var sum :- Sum(fields, timePart);
    var total := start.Plus(sum);
    if total.Fits() then Some(total) else None
  }

  lemma WorthRange(f: Field, timePart: bool)
    ensures Worth(f, timePart).Some? ==> Worth(f, timePart).value.Fits()
  {
    hide ReadDigits, ReadScaled;
    ReadDigitsRange(f.number);
    var size := UnitSize(f.unit, timePart);
    if size.Some? { ScaledRange(f.number, size.value); }
  }

  lemma {:induction false} SumRange(fields: seq<Field>, timePart: bool)
    ensures Sum(fields, timePart).Some?
         ==> 0 <= Sum(fields, timePart).value.months && 0 <= Sum(fields, timePart).value.nanos
  {
    hide Worth;
    if fields != [] {
      WorthRange(fields[0], timePart);
      SumRange(fields[1..], timePart);
    }
  }

  /** One field off the front: the running check refuses exactly what the total check does. */
  lemma AddPartStep(t: string, timePart: bool, start: Amount)
    requires start.Fits() && 0 < RunEnd(t) < |t|
    ensures var k := RunEnd(t);
            var worth := Worth(Field(t[..k], t[k]), timePart);
            AddPart(t, timePart, start)
              == if worth.Some? && start.Plus(worth.value).Fits()
                 then AddPart(t[k + 1..], timePart, start.Plus(worth.value)) else None
  {
    hide Worth, Sum;
    var k := RunEnd(t);
    var f := Field(t[..k], t[k]);
    WorthRange(f, timePart);
    var rest := ReadFields(t[k + 1..]);
    if rest.Some? {
      SumFirst(f, rest.value, timePart);
      SumRange(rest.value, timePart);
    }
  }

  lemma SumFirst(f: Field, rest: seq<Field>, timePart: bool)
    ensures Sum([f] + rest, timePart)
         == if Worth(f, timePart).Some? && Sum(rest, timePart).Some?
            then Some(Worth(f, timePart).value.Plus(Sum(rest, timePart).value)) else None
  {
    hide Worth;
    assert ([f] + rest)[1..] == rest;
  }

  method Worthy(f: Field, timePart: bool) returns (r: Option<Amount>)
    ensures r == Worth(f, timePart)
    ensures r.Some? ==> r.value.Fits()
  {
    hide ReadDigits, ReadScaled;
    var c := f.unit;
    if !timePart && (c == 'Y' || c == 'y' || c == 'M' || c == 'm') {
      var n := Digits(f.number);
      if n == None { return None; }
      var months := n.value;
      if c == 'Y' || c == 'y' {
        if months > MAX64 / 12 { return None; }
        months := months * 12;
      }
      return Some(Amount(months as int, 0));
    }
    var size := UnitSize(c, timePart);
    if size == None { return None; }
    var n := Scaled(f.number, size.value as Int64);
    if n == None { return None; }
    r := Some(Amount(0, n.value as int));
  }

  /** `fields`: one part, added byte by byte to what came before. */
  method Fields(t: string, timePart: bool, start: Amount) returns (r: Option<Amount>)
    requires start.Fits()
    ensures r == AddPart(t, timePart, start)
  {
    hide Worth, AddPart;
    var months, nanos := start.months as Int64, start.nanos as Int64;
    ghost var acc := start;
    var from := 0;
    var i := 0;
    while i < |t|
      invariant 0 <= from <= i <= |t|
      invariant acc.Fits() && acc == Amount(months as int, nanos as int)
      invariant forall k :: from <= k < i ==> IsNumberChar(t[k])
      invariant AddPart(t[from..], timePart, acc) == AddPart(t, timePart, start)
    {
      var c := t[i];
      if IsDigit(c) || c == '.' || c == ',' {
        i := i + 1;
        continue;
      }
      ghost var rest := t[from..];
      RunEndUnique(rest, i - from);
      if i == from {
        assert AddPart(rest, timePart, acc) == None by { NoNumber(rest, timePart, acc); }
        return None;
      }
      AddPartStep(rest, timePart, acc);
      RunParts(t, from, i);
      var worth := Worthy(Field(t[from..i], c), timePart);
      if worth == None { return None; }
      if months > MAX64 - worth.value.months as Int64 || nanos > MAX64 - worth.value.nanos as Int64 {
        return None;
      }
      months, nanos := months + worth.value.months as Int64, nanos + worth.value.nanos as Int64;
      acc := acc.Plus(worth.value);
      from := i + 1;
      i := i + 1;
    }
    RunEndUnique(t[from..], |t| - from);
    LastRun(t[from..], timePart, acc);
    if from == |t| { return Some(Amount(months as int, nanos as int)); }
    r := None;
  }

  lemma RunParts(t: string, from: nat, i: nat)
    requires from <= i < |t|
    ensures t[from..][..i - from] == t[from..i] && t[from..][i - from] == t[i]
    ensures t[from..][i - from + 1..] == t[i + 1..]
  {
  }

  lemma NoNumber(t: string, timePart: bool, acc: Amount)
    requires t != "" && RunEnd(t) == 0
    ensures AddPart(t, timePart, acc) == None
  {
  }

  lemma LastRun(t: string, timePart: bool, acc: Amount)
    requires RunEnd(t) == |t| && acc.Fits()
    ensures AddPart(t, timePart, acc) == if t == "" then Some(acc) else None
  {
  }

  // ---- the whole literal ----

  datatype Span = Months(count: int) | Nanos(count: int)

  /** The offset of the first `T` or `t`, or `|t|`. */
  function TimeMark(t: string): (i: nat)
    ensures i <= |t|
    ensures i < |t| ==> t[i] == 'T' || t[i] == 't'
    ensures forall k :: 0 <= k < i ==> t[k] != 'T' && t[k] != 't'
  {
    if t == "" || t[0] == 'T' || t[0] == 't' then 0 else TimeMark(t[1..]) + 1
  }

  lemma TimeMarkUnique(t: string, i: nat)
    requires i <= |t| && (i < |t| ==> t[i] == 'T' || t[i] == 't')
    requires forall k :: 0 <= k < i ==> t[k] != 'T' && t[k] != 't'
    ensures TimeMark(t) == i
  {
  }

  /** The exact sum of the date fields and the time fields after the `P`. */
  function ReadBody(t: string): Option<Amount> {
    var k := TimeMark(t);
    var time := if k < |t| then t[k + 1..] else "";
    if t[..k] == "" && time == "" then None
    else
      var date :- AddPart(t[..k], false, NOTHING);
      AddPart(time, true, date)
  }

  /** A sum is one kind or the other; zero counts as a span of nanoseconds. */
  function SpanOf(a: Amount, negative: bool): Option<Span> {
    if a.months != 0 && a.nanos != 0 then None
    else if a.months == 0 then Some(Nanos(if negative then -a.nanos else a.nanos))
    else Some(Months(if negative then -a.months else a.months))
  }

  function ReadDuration(t: string): Option<Span> {
    var body := Unsigned(t);
    if body == "" || (body[0] != 'P' && body[0] != 'p') then None
    else
      var a :- ReadBody(body[1..]);
      SpanOf(a, IsNegative(t))
  }

  /** The text after the `P`, split at its time mark and summed. */
  method ParseBody(t: string) returns (r: Option<Amount>)
    ensures r == ReadBody(t)
    ensures r.Some? ==> r.value.Fits()
  {
    hide AddPart;
    var datePart, timePart := t, "";
    for i := 0 to |t|
      invariant datePart == t && timePart == ""
      invariant forall k :: 0 <= k < i ==> t[k] != 'T' && t[k] != 't'
    {
      if t[i] == 'T' || t[i] == 't' {
        datePart, timePart := t[..i], t[i + 1..];
        break;
      }
    }
    TimeMarkUnique(t, |datePart|);
    assert t[..|datePart|] == datePart;
    if |datePart| == 0 && |timePart| == 0 { return None; }
    var date := Fields(datePart, false, NOTHING);
    if date == None { return None; }
    AddPartFits(datePart, false, NOTHING);
    r := Fields(timePart, true, date.value);
    AddPartFits(timePart, true, date.value);
  }

  method ParseDuration(text: string) returns (r: Option<Span>)
    ensures r == ReadDuration(text)
  {
    hide ReadBody;
    var t := text;
    var negative := false;
    if |t| > 0 && (t[0] == '-' || t[0] == '+') {
      negative := t[0] == '-';
      t := t[1..];
    }
    if |t| == 0 || (t[0] != 'P' && t[0] != 'p') { return None; }
    t := t[1..];
    var sum := ParseBody(t);
    if sum == None { return None; }
    var months, nanos := sum.value.months as Int64, sum.value.nanos as Int64;
    if months != 0 && nanos != 0 { return None; }
    if nanos != 0 || months == 0 {
      var count := if negative then -nanos else nanos;
      r := Some(Nanos(count as int));
    } else {
      var count := if negative then -months else months;
      r := Some(Months(count as int));
    }
  }

  lemma AddPartFits(t: string, timePart: bool, start: Amount)
    ensures AddPart(t, timePart, start).Some? ==> AddPart(t, timePart, start).value.Fits()
  {
  }

  /** What a duration can be: no month count of zero, and no INT64_MIN. */
  predicate ValidSpan(s: Span) { -INT64_MAX <= s.count <= INT64_MAX && (s.Months? ==> s.count != 0) }

  lemma ReadDurationRange(t: string)
    ensures ReadDuration(t).Some? ==> ValidSpan(ReadDuration(t).value)
  {
    hide AddPart;
    var body := Unsigned(t);
    if ReadDuration(t).Some? {
      var text := body[1..];
      var k := TimeMark(text);
      var date := AddPart(text[..k], false, NOTHING).value;
      AddPartFits(if k < |text| then text[k + 1..] else "", true, date);
    }
  }

  // ---- writing ----

  function WholeField(n: nat, unit: char): seq<Field> {
    if n != 0 then [Field(Dec(n), unit)] else []
  }

  function SecondsNumber(s: nat, frac: nat): string {
    Dec(s) + if frac != 0 then "." + Padded(frac, 9) else ""
  }

  function MonthFields(n: nat): seq<Field> {
    WholeField(n / 12, 'Y') + if n % 12 != 0 || n / 12 == 0 then [Field(Dec(n % 12), 'M')] else []
  }

  function ClockFields(c: Hands): seq<Field> {
    WholeField(c.hour, 'H') + WholeField(c.minute, 'M')
      + if c.sec != 0 || c.frac != 0 || (c.hour == 0 && c.minute == 0)
        then [Field(SecondsNumber(c.sec, c.frac), 'S')] else []
  }

  /** The text after `P`. */
  function BodyText(magnitude: nat, months: bool): string {
    if months then FieldsText(MonthFields(magnitude))
    else
      NanosText(magnitude / NANOS_PER_DAY, magnitude % NANOS_PER_DAY)
  }

  function NanosText(days: nat, rest: nat): string {
    FieldsText(WholeField(days, 'D'))
      + if rest == 0 && days != 0 then "" else "T" + FieldsText(ClockFields(HandsAt(rest)))
  }

  function DurationText(s: Span): string {
    var magnitude := if s.count < 0 then -s.count else s.count;
    (if s.count < 0 then "-" else "") + "P" + BodyText(magnitude, s.Months?)
  }

  lemma DigitsAreNumbers(s: string)
    requires AllDigits(s)
    ensures forall k :: 0 <= k < |s| ==> IsNumberChar(s[k]) && !IsPoint(s[k])
  {
  }

  lemma AtLeastItself(n: nat, unit: int)
    requires 0 < unit
    ensures n <= n * unit
  {
  }

  lemma ScaledDec(n: nat, unit: int)
    requires 0 < unit && n * unit <= INT64_MAX
    ensures ReadScaled(Dec(n), unit) == Some(n * unit)
  {
    hide Dec, ReadDigits;
    DigitsAreNumbers(Dec(n));
    PointIndexUnique(Dec(n), |Dec(n)|);
    assert Dec(n)[..|Dec(n)|] == Dec(n);
    AtLeastItself(n, unit);
    ReadDec(n);
  }

  lemma ScaledSeconds(s: nat, frac: nat)
    requires s < 60 && frac < NANOS_PER_SEC
    ensures ReadScaled(SecondsNumber(s, frac), NANOS_PER_SEC) == Some(s * NANOS_PER_SEC + frac)
    ensures forall k :: 0 <= k < |SecondsNumber(s, frac)| ==> IsNumberChar(SecondsNumber(s, frac)[k])
  {
    hide Dec, Padded, ReadDigits, ReadScaled;
    DigitsAreNumbers(Dec(s));
    DigitsAreNumbers(Padded(frac, 9));
    if frac == 0 {
      assert SecondsNumber(s, frac) == Dec(s);
      ScaledDec(s, NANOS_PER_SEC);
    } else {
      Pow10Nine();
      PaddedWidth(frac, 9);
      ReadPadded(frac, 9);
      ReadDec(s);
      ScaledExact(Dec(s), '.', Padded(frac, 9), NANOS_PER_SEC);
      assert SecondsNumber(s, frac) == Dec(s) + "." + Padded(frac, 9);
      Quotient(NANOS_PER_SEC * frac, NANOS_PER_SEC, frac, 0);
    }
  }

  lemma {:induction false} SumConcat(a: seq<Field>, b: seq<Field>, timePart: bool)
    requires Sum(a, timePart).Some? && Sum(b, timePart).Some?
    ensures Sum(a + b, timePart) == Some(Sum(a, timePart).value.Plus(Sum(b, timePart).value))
  {
    hide Worth;
    if a == [] {
      assert a + b == b;
    } else {
      SumConcat(a[1..], b, timePart);
      assert (a + b)[1..] == a[1..] + b;
    }
  }

  lemma SumOne(f: Field, timePart: bool)
    ensures Sum([f], timePart) == Worth(f, timePart)
  {
    hide Worth;
    assert [f][1..] == [];
  }

  lemma WholeFieldWorth(n: nat, unit: char, timePart: bool)
    requires !IsNumberChar(unit) && MonthSize(unit, timePart) == None && UnitSize(unit, timePart).Some?
    requires n * UnitSize(unit, timePart).value <= INT64_MAX
    ensures Sum(WholeField(n, unit), timePart) == Some(Amount(0, n * UnitSize(unit, timePart).value))
    ensures forall f :: f in WholeField(n, unit) ==> f.WellFormed()
  {
    hide Dec, ReadScaled, Worth;
    DigitsAreNumbers(Dec(n));
    if n != 0 {
      ScaledDec(n, UnitSize(unit, timePart).value);
      WorthNanos(Field(Dec(n), unit), timePart);
      SumOne(Field(Dec(n), unit), timePart);
    }
  }

  lemma WorthNanos(f: Field, timePart: bool)
    requires MonthSize(f.unit, timePart) == None && UnitSize(f.unit, timePart).Some?
    requires ReadScaled(f.number, UnitSize(f.unit, timePart).value).Some?
    ensures Worth(f, timePart) == Some(Amount(0, ReadScaled(f.number, UnitSize(f.unit, timePart).value).value))
  {
  }

  lemma ClockFieldsWorth(c: Hands)
    requires c.Valid()
    ensures Sum(ClockFields(c), true) == Some(Amount(0, c.Nanos()))
    ensures forall f :: f in ClockFields(c) ==> f.WellFormed()
    ensures ClockFields(c) != []
  {
    hide Dec, ReadScaled, Worth, SecondsNumber, Sum, WholeField;
    var h, m := WholeField(c.hour, 'H'), WholeField(c.minute, 'M');
    WholeFieldWorth(c.hour, 'H', true);
    WholeFieldWorth(c.minute, 'M', true);
    SumConcat(h, m, true);
    if c.sec != 0 || c.frac != 0 || (c.hour == 0 && c.minute == 0) {
      var s := Field(SecondsNumber(c.sec, c.frac), 'S');
      ScaledSeconds(c.sec, c.frac);
      SecondsNumberShape(c.sec, c.frac);
      WorthNanos(s, true);
      SumOne(s, true);
      SumConcat(h + m, [s], true);
    } else {
      assert ClockFields(c) == h + m;
      HoldsField(c.hour, 'H');
      HoldsField(c.minute, 'M');
    }
  }

  lemma HoldsField(n: nat, unit: char)
    ensures WholeField(n, unit) == [] <==> n == 0
  {
  }

  lemma SecondsNumberShape(s: nat, frac: nat)
    ensures SecondsNumber(s, frac) != ""
  {
  }

  lemma AddPartText(fields: seq<Field>, timePart: bool, start: Amount)
    requires forall f :: f in fields ==> f.WellFormed()
    requires Sum(fields, timePart).Some? && start.Plus(Sum(fields, timePart).value).Fits()
    ensures AddPart(FieldsText(fields), timePart, start) == Some(start.Plus(Sum(fields, timePart).value))
  {
    hide Worth, Sum;
    FieldsRoundTrip(fields);
  }

  /** No byte of a field is the mark that opens the time part. */
  lemma {:induction false} FieldsTextUnmarked(fields: seq<Field>)
    requires forall f :: f in fields ==> f.WellFormed() && f.unit != 'T' && f.unit != 't'
    ensures forall k :: 0 <= k < |FieldsText(fields)| ==> FieldsText(fields)[k] != 'T' && FieldsText(fields)[k] != 't'
    ensures fields != [] ==> FieldsText(fields) != ""
  {
    if fields != [] {
      FieldsTextUnmarked(fields[1..]);
      assert fields[0].WellFormed();
    }
  }

  lemma ReadBodyText(date: seq<Field>, time: seq<Field>, a: Amount, b: Amount)
    requires forall f :: f in date ==> f.WellFormed() && f.unit != 'T' && f.unit != 't'
    requires forall f :: f in time ==> f.WellFormed()
    requires Sum(date, false) == Some(a) && Sum(time, true) == Some(b)
    requires a.Fits() && a.Plus(b).Fits()
    requires date != [] || FieldsText(time) != ""
    ensures ReadBody(FieldsText(date) + "T" + FieldsText(time)) == Some(a.Plus(b))
  {
    hide Worth, Sum, AddPart, FieldsText, ReadFields, Amount.Fits;
    var d, t := FieldsText(date), FieldsText(time);
    FieldsTextUnmarked(date);
    ZeroIsNothing(a);
    AddPartText(date, false, NOTHING);
    AddPartText(time, true, a);
    var both := d + "T" + t;
    TimeMarkUnique(both, |d|);
    assert both[..|d|] == d && both[|d| + 1..] == t;
  }

  lemma ReadDateText(date: seq<Field>, a: Amount)
    requires forall f :: f in date ==> f.WellFormed() && f.unit != 'T' && f.unit != 't'
    requires Sum(date, false) == Some(a) && a.Fits() && date != []
    ensures ReadBody(FieldsText(date)) == Some(a)
  {
    hide Worth, Sum, AddPart, FieldsText, ReadFields, Amount.Fits;
    var d := FieldsText(date);
    FieldsTextUnmarked(date);
    ZeroIsNothing(a);
    AddPartText(date, false, NOTHING);
    TimeMarkUnique(d, |d|);
    assert d[..|d|] == d;
    LastRun("", true, a);
  }

  lemma ZeroIsNothing(a: Amount)
    ensures NOTHING.Plus(a) == a
  {
  }

  lemma MonthFieldsWorth(n: nat)
    requires n <= INT64_MAX
    ensures Sum(MonthFields(n), false) == Some(Amount(n, 0))
    ensures forall f :: f in MonthFields(n) ==> f.WellFormed() && f.unit != 'T' && f.unit != 't'
    ensures MonthFields(n) != []
  {
    hide Dec, ReadDigits, Worth, Sum;
    var years, months := n / 12, n % 12;
    DigitsAreNumbers(Dec(years));
    DigitsAreNumbers(Dec(months));
    var y, m := Field(Dec(years), 'Y'), Field(Dec(months), 'M');
    ReadDec(years); ReadDec(months);
    WorthMonths(y, 12); WorthMonths(m, 1);
    SumOne(y, false); SumOne(m, false);
    if years != 0 && months != 0 {
      SumConcat([y], [m], false);
    } else if years != 0 {
      assert MonthFields(n) == [y];
    } else {
      assert MonthFields(n) == [m];
    }
  }

  lemma WorthMonths(f: Field, size: int)
    requires MonthSize(f.unit, false) == Some(size)
    requires ReadDigits(f.number).Some? && ReadDigits(f.number).value * size <= INT64_MAX
    ensures Worth(f, false) == Some(Amount(ReadDigits(f.number).value * size, 0))
  {
  }

  lemma ReadMonthsText(n: nat)
    requires n <= INT64_MAX
    ensures ReadBody(FieldsText(MonthFields(n))) == Some(Amount(n, 0))
  {
    hide Worth, Sum, AddPart, FieldsText, ReadFields, ReadBody, MonthFields;
    MonthFieldsWorth(n);
    ReadDateText(MonthFields(n), Amount(n, 0));
  }

  lemma DayFieldsWorth(days: nat)
    requires days * NANOS_PER_DAY <= INT64_MAX
    ensures Sum(WholeField(days, 'D'), false) == Some(Amount(0, days * NANOS_PER_DAY))
    ensures forall f :: f in WholeField(days, 'D') ==> f.WellFormed() && f.unit != 'T' && f.unit != 't'
    ensures WholeField(days, 'D') == [] <==> days == 0
  {
    hide Sum, Worth, WholeField;
    WholeFieldWorth(days, 'D', false);
    WholeFieldUnit(days, 'D');
    HoldsField(days, 'D');
  }

  lemma TimeFieldsWorth(rest: nat)
    requires rest < NANOS_PER_DAY
    ensures Sum(ClockFields(HandsAt(rest)), true) == Some(Amount(0, rest))
    ensures forall f :: f in ClockFields(HandsAt(rest)) ==> f.WellFormed()
    ensures FieldsText(ClockFields(HandsAt(rest))) != ""
  {
    hide Sum, Worth, ClockFields, HandsAt, Hands.Nanos, Hands.Valid, FieldsText;
    HandsOfDay(rest);
    ClockFieldsWorth(HandsAt(rest));
    WrittenFields(ClockFields(HandsAt(rest)));
  }

  lemma ReadDaysText(days: nat)
    requires days != 0 && days * NANOS_PER_DAY <= INT64_MAX
    ensures ReadBody(NanosText(days, 0)) == Some(Amount(0, days * NANOS_PER_DAY))
  {
    hide Worth, Sum, AddPart, FieldsText, ReadFields, ReadBody, HandsAt, ClockFields, WholeField;
    var date := WholeField(days, 'D');
    DayFieldsWorth(days);
    ReadDateText(date, Amount(0, days * NANOS_PER_DAY));
    assert FieldsText(date) + "" == FieldsText(date);
  }

  lemma ReadNanosText(days: nat, rest: nat)
    requires rest < NANOS_PER_DAY && days * NANOS_PER_DAY + rest <= INT64_MAX
    ensures ReadBody(NanosText(days, rest)) == Some(Amount(0, days * NANOS_PER_DAY + rest))
  {
    hide Worth, Sum, AddPart, FieldsText, ReadFields, ReadBody, HandsAt, ClockFields, WholeField, NanosText;
    if rest == 0 && days != 0 {
      ReadDaysText(days);
    } else {
      NanosTextWithTime(days, rest);
      DayFieldsWorth(days);
      TimeFieldsWorth(rest);
      ReadBodyText(WholeField(days, 'D'), ClockFields(HandsAt(rest)),
                   Amount(0, days * NANOS_PER_DAY), Amount(0, rest));
    }
  }

  lemma NanosTextWithTime(days: nat, rest: nat)
    requires rest != 0 || days == 0
    ensures NanosText(days, rest)
         == FieldsText(WholeField(days, 'D')) + "T" + FieldsText(ClockFields(HandsAt(rest)))
  {
    hide FieldsText, WholeField, ClockFields, HandsAt;
    var a, b := FieldsText(WholeField(days, 'D')), FieldsText(ClockFields(HandsAt(rest)));
    assert a + ("T" + b) == a + "T" + b;
  }

  lemma ReadBodyOfText(magnitude: nat, months: bool)
    requires magnitude <= INT64_MAX
    ensures ReadBody(BodyText(magnitude, months))
         == Some(if months then Amount(magnitude, 0) else Amount(0, magnitude))
  {
    hide ReadBody, NanosText, FieldsText, MonthFields;
    if months {
      ReadMonthsText(magnitude);
    } else {
      ReadNanosText(magnitude / NANOS_PER_DAY, magnitude % NANOS_PER_DAY);
    }
  }

  lemma WrittenFields(fields: seq<Field>)
    requires fields != []
    ensures FieldsText(fields) != ""
  {
  }

  lemma WholeFieldUnit(n: nat, unit: char)
    ensures forall f :: f in WholeField(n, unit) ==> f.unit == unit
  {
  }

  /** Every duration that can be read, negative ones included, is printed as text that reads back. */
  lemma DurationRoundTrip(s: Span)
    requires ValidSpan(s)
    ensures ReadDuration(DurationText(s)) == Some(s)
  {
    hide BodyText, ReadBody;
    var magnitude := if s.count < 0 then -s.count else s.count;
    ReadBodyOfText(magnitude, s.Months?);
    var t := DurationText(s);
    var body := BodyText(magnitude, s.Months?);
    assert Unsigned(t) == "P" + body;
    assert Unsigned(t)[1..] == body;
  }

  /** The value of a run of digits with one digit more. */
  lemma ValueMore(s: string, c: char, t: string)
    requires AllDigits(s) && IsDigit(c) && t == s + [c]
    ensures AllDigits(t) && Value(t) == Value(s) * 10 + DigitOf(c)
  {
    assert t[..|s|] == s;
  }

  lemma HourFraction()
    ensures ReadDigits("002562048") == Some(2562048) && ReadDigits("0") == Some(0)
  {
    hide Value;
    FrontOfFraction();
    hide AllDigits;
    ValueMore("00256", '2', "002562");
    ValueMore("002562", '0', "0025620");
    ValueMore("0025620", '4', "00256204");
    ValueMore("00256204", '8', "002562048");
  }

  lemma ZeroDigit()
    ensures AllDigits("0") && Value("0") == 0
  {
    assert Value("0") == Value("0"[..0]) * 10;
  }

  lemma FrontOfFraction()
    ensures AllDigits("0") && Value("0") == 0
    ensures AllDigits("00256") && Value("00256") == 256
  {
    hide Value;
    ZeroDigit();
    hide AllDigits;
    ValueMore("0", '0', "00");
    ValueMore("00", '2', "002");
    ValueMore("002", '5', "0025");
    ValueMore("0025", '6', "00256");
  }

  /** The test on `unit * frac` comes before the division, so it refuses an hour that would fit. */
  lemma FractionRefused()
    ensures ReadDuration("PT0.002562048H") == None
    ensures ReadDigits("002562048") == Some(2562048)
    ensures NANOS_PER_HOUR * 2562048 / Pow10(9) <= INT64_MAX
  {
    hide Value, ReadDigits, ReadScaled, ReadDuration;
    Pow10Nine();
    HourFraction();
    ScaledExact("0", '.', "002562048", NANOS_PER_HOUR);
    var number := "0" + ['.'] + "002562048";
    assert Worth(Field(number, 'H'), true) == None;
    LoneTimeField(Field(number, 'H'));
    assert "PT" + number + ['H'] == "PT0.002562048H";
  }

  /** A literal of one time field that is refused. */
  lemma LoneTimeField(f: Field)
    requires f.WellFormed() && Worth(f, true) == None
    ensures ReadDuration("PT" + f.number + [f.unit]) == None
  {
    hide Worth, AddPart, Field.WellFormed;
    var time := f.number + [f.unit];
    var t := "T" + time;
    LoneFieldRefused(f);
    LastRun("", false, NOTHING);
    TimeMarkUnique(t, 0);
    assert t[..0] == "" && t[1..] == time && time != "";
    assert ReadBody(t) == None;
    hide ReadBody;
    var text := "PT" + f.number + [f.unit];
    assert text == "P" + t && !HasSign(text);
    assert text[1..] == t;
  }

  lemma LoneFieldRefused(f: Field)
    requires f.WellFormed() && Worth(f, true) == None
    ensures AddPart(f.number + [f.unit], true, NOTHING) == None
  {
    hide Worth, Field.WellFormed;
    FieldsRoundTrip([f]);
    FieldsTextCons(f, []);
    hide ReadFields, FieldsText;
    assert [f] + [] == [f] && f.number + [f.unit] + FieldsText([]) == f.number + [f.unit] by { NoFields(); }
    assert Sum([f], true) == None;
  }
}
