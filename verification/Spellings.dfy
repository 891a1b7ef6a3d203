/**
  The spellings that no printer writes: weeks, lower case, a leading plus, fractions of
  any length, a missing second, a space for the `T`, blanks between hexits. Each is tied
  to a spelling that is printed.
 */
module Spellings {
  import opened Common
  import opened Decimal
  import opened Calendar
  import opened Clock
  import opened Duration
  import opened Temporal
  import V = Value

  // ---- integers ----

  /** A plus says nothing, a minus the other way, and no integer is signed twice. */
  lemma SignedIntegers(s: string, min: int, max: int)
    requires s != "" && AllDigits(s)
    ensures ReadInt(s, min, max) == if min <= Value(s) <= max then Some(Value(s)) else None
    ensures ReadInt("+" + s, min, max) == ReadInt(s, min, max)
    ensures var v := -(Value(s) as int);
            ReadInt("-" + s, min, max) == if min != 0 && min <= v <= max then Some(v) else None
  {
    hide Value;
    assert IsDigit(s[0]);
    assert ("+" + s)[1..] == s && ("-" + s)[1..] == s;
  }

  lemma TwoSigns(a: char, b: char, s: string, min: int, max: int)
    requires (a == '+' || a == '-') && (b == '+' || b == '-')
    ensures ReadInt([a, b] + s, min, max) == None
  {
    hide Value;
    var text := [a, b] + s;
    assert text[1..] == [b] + s && ([b] + s)[0] == b;
    assert !AllDigits([b] + s);
  }

  /** Nothing and a sign alone are no integers, and no byte of one but a sign in front is no digit. */
  lemma OnlyDigits(s: string, min: int, max: int)
    ensures ReadInt("", min, max) == None && ReadInt("+", min, max) == None && ReadInt("-", min, max) == None
    ensures (exists k :: 1 <= k < |s| && !IsDigit(s[k])) ==> ReadInt(s, min, max) == None
    ensures s != "" && !IsDigit(s[0]) && s[0] != '+' && s[0] != '-' ==> ReadInt(s, min, max) == None
  {
    hide Value;
    if k :| 1 <= k < |s| && !IsDigit(s[k]) {
      assert Unsigned(s)[if HasSign(s) then k - 1 else k] == s[k];
    }
  }

  /** Zeros in front say nothing. */
  lemma ZeroInFront(s: string, min: int, max: int)
    requires s != "" && AllDigits(s)
    ensures AllDigits("0" + s) && ReadInt("0" + s, min, max) == ReadInt(s, min, max)
  {
    hide Value;
    LeadingZero();
    ValueZeros(1, s);
    assert IsDigit(s[0]) && ("0" + s)[0] == '0';
  }

  lemma LeadingZero()
    ensures Decimal.Zeros(1) == "0"
  {
    assert Decimal.Zeros(0) == "";
  }

  // ---- one field ----

  /** A number too large for an int64 is no number. */
  lemma ReadDecAny(n: nat)
    ensures ReadDigits(Dec(n)) == if n <= INT64_MAX then Some(n) else None
  {
    var s := Dec(n);
    assert IsDigit(s[0]) && !HasSign(s);
  }

  lemma ScaledDecAny(n: nat, unit: int)
    requires 0 < unit
    ensures ReadScaled(Dec(n), unit) == if n * unit <= INT64_MAX then Some(n * unit) else None
  {
    hide Dec, ReadDigits;
    DigitsAreNumbers(Dec(n));
    PointIndexUnique(Dec(n), |Dec(n)|);
    assert Dec(n)[..|Dec(n)|] == Dec(n);
    AtLeastItself(n, unit);
    ReadDecAny(n);
  }

  /** A literal of one field, before or after the `T`. */
  function Lone(n: nat, unit: char, timePart: bool): string {
    "P" + (if timePart then "T" else "") + Dec(n) + [unit]
  }

  function LoneWorth(n: nat, unit: char, timePart: bool): Option<Amount> { Worth(Field(Dec(n), unit), timePart) }

  lemma LoneReads(n: nat, unit: char, timePart: bool)
    requires !IsNumberChar(unit) && unit != 'T' && unit != 't'
    ensures ReadDuration(Lone(n, unit, timePart))
         == if LoneWorth(n, unit, timePart).Some? then SpanOf(LoneWorth(n, unit, timePart).value, false) else None
  {
    var f := Field(Dec(n), unit);
    DigitsAreNumbers(Dec(n));
    hide Dec, Worth, ReadBody, SpanOf, ReadDuration, IsNumberChar, Value;
    LoneBody(f, timePart);
    LoneText(n, unit, timePart);
    PlainDuration(if timePart then "T" + (Dec(n) + [unit]) else Dec(n) + [unit]);
  }

  lemma LoneText(n: nat, unit: char, timePart: bool)
    ensures Lone(n, unit, timePart) == "P" + if timePart then "T" + (Dec(n) + [unit]) else Dec(n) + [unit]
  {
    hide Dec;
  }

  lemma PlainDuration(body: string)
    ensures ReadDuration("P" + body) == if ReadBody(body).Some? then SpanOf(ReadBody(body).value, false) else None
  {
    hide ReadBody, SpanOf;
    var text := "P" + body;
    assert !HasSign(text) && text[1..] == body;
  }

  lemma LonePart(f: Field, timePart: bool)
    requires f.WellFormed()
    ensures var worth := Worth(f, timePart);
            AddPart(f.number + [f.unit], timePart, NOTHING) == worth && (worth.Some? ==> worth.value.Fits())
  {
    hide Worth, Field.WellFormed;
    FieldsRoundTrip([f]);
    FieldsTextCons(f, []);
    NoFields();
    SumOne(f, timePart);
    WorthRange(f, timePart);
    hide ReadFields, FieldsText, Sum;
    assert [f] + [] == [f] && f.number + [f.unit] + FieldsText([]) == f.number + [f.unit];
    if Worth(f, timePart).Some? { ZeroIsNothing(Worth(f, timePart).value); }
  }

  lemma LoneBody(f: Field, timePart: bool)
    requires f.WellFormed() && f.unit != 'T' && f.unit != 't'
    ensures var field := f.number + [f.unit];
            ReadBody(if timePart then "T" + field else field) == Worth(f, timePart)
  {
    hide Worth, AddPart;
    LonePart(f, timePart);
    var field := f.number + [f.unit];
    if timePart {
      var t := "T" + field;
      TimeMarkUnique(t, 0);
      assert t[..0] == "" && t[1..] == field && field != "";
      LastRun("", false, NOTHING);
    } else {
      TimeMarkUnique(field, |field|);
      assert field[..|field|] == field;
      if Worth(f, false).Some? { LastRun("", true, Worth(f, false).value); }
    }
  }

  lemma LoneUnit(n: nat, unit: char, timePart: bool)
    requires MonthSize(unit, timePart) == None && UnitSize(unit, timePart).Some?
    ensures var nanos := n * UnitSize(unit, timePart).value;
            LoneWorth(n, unit, timePart) == if nanos <= INT64_MAX then Some(Amount(0, nanos)) else None
  {
    hide Dec, ReadScaled;
    ScaledDecAny(n, UnitSize(unit, timePart).value);
  }

  lemma LoneMonths(n: nat, unit: char)
    requires MonthSize(unit, false).Some?
    ensures var months := n * MonthSize(unit, false).value;
            LoneWorth(n, unit, false) == if months <= INT64_MAX then Some(Amount(months, 0)) else None
  {
    hide Dec, ReadDigits;
    ReadDecAny(n);
    AtLeastItself(n, MonthSize(unit, false).value);
  }

  /**
    A week is seven days, a day 24 hours, an hour 60 minutes, a minute 60 seconds and a year
    twelve months: however many there are, and whether or not they fit.
   */
  lemma UnitsInUnits(n: nat)
    ensures ReadDuration(Lone(n, 'W', false)) == ReadDuration(Lone(7 * n, 'D', false))
    ensures ReadDuration(Lone(n, 'D', false)) == ReadDuration(Lone(24 * n, 'H', true))
    ensures ReadDuration(Lone(n, 'H', true)) == ReadDuration(Lone(60 * n, 'M', true))
    ensures ReadDuration(Lone(n, 'M', true)) == ReadDuration(Lone(60 * n, 'S', true))
    ensures ReadDuration(Lone(n, 'Y', false)) == ReadDuration(Lone(12 * n, 'M', false))
  {
    Sizes();
    hide ReadDuration, Lone, UnitSize, MonthSize;
    LoneNanos(n, 'W', false, 7 * NANOS_PER_DAY); LoneNanos(7 * n, 'D', false, NANOS_PER_DAY);
    LoneNanos(n, 'D', false, NANOS_PER_DAY); LoneNanos(24 * n, 'H', true, NANOS_PER_HOUR);
    LoneNanos(n, 'H', true, NANOS_PER_HOUR); LoneNanos(60 * n, 'M', true, NANOS_PER_MINUTE);
    LoneNanos(n, 'M', true, NANOS_PER_MINUTE); LoneNanos(60 * n, 'S', true, NANOS_PER_SEC);
    LoneSpan(n, 'Y', 12); LoneSpan(12 * n, 'M', 1);
  }

  lemma Sizes()
    ensures UnitSize('W', false) == Some(7 * NANOS_PER_DAY) && UnitSize('D', false) == Some(NANOS_PER_DAY)
    ensures UnitSize('H', true) == Some(NANOS_PER_HOUR) && UnitSize('M', true) == Some(NANOS_PER_MINUTE)
    ensures UnitSize('S', true) == Some(NANOS_PER_SEC)
    ensures MonthSize('W', false) == None && MonthSize('D', false) == None
    ensures MonthSize('H', true) == None && MonthSize('M', true) == None && MonthSize('S', true) == None
    ensures MonthSize('Y', false) == Some(12) && MonthSize('M', false) == Some(1)
  {
  }

  function WholeNanos(n: int): Option<Span> { if n <= INT64_MAX then Some(Nanos(n)) else None }

  function WholeMonths(n: int): Option<Span> {
    if n > INT64_MAX then None else if n == 0 then Some(Nanos(0)) else Some(Months(n))
  }

  lemma LoneNanos(n: nat, unit: char, timePart: bool, size: int)
    requires !IsNumberChar(unit) && unit != 'T' && unit != 't'
    requires MonthSize(unit, timePart) == None && UnitSize(unit, timePart) == Some(size)
    ensures ReadDuration(Lone(n, unit, timePart)) == WholeNanos(n * size)
  {
    hide ReadDuration, Lone, LoneWorth, UnitSize, MonthSize;
    LoneReads(n, unit, timePart);
    LoneUnit(n, unit, timePart);
  }

  lemma LoneSpan(n: nat, unit: char, size: int)
    requires !IsNumberChar(unit) && unit != 'T' && unit != 't' && MonthSize(unit, false) == Some(size)
    ensures ReadDuration(Lone(n, unit, false)) == WholeMonths(n * size)
  {
    hide ReadDuration, Lone, LoneWorth, MonthSize;
    LoneReads(n, unit, false);
    LoneMonths(n, unit);
  }

  /** And so they come down to seconds of a thousand million nanoseconds, and to months. */
  lemma LeastUnits(n: nat)
    ensures ReadDuration(Lone(n, 'S', true)) == WholeNanos(n * 1_000_000_000)
    ensures ReadDuration(Lone(n, 'M', false)) == WholeMonths(n)
  {
    hide ReadDuration, Lone;
    LoneNanos(n, 'S', true, NANOS_PER_SEC);
    LoneSpan(n, 'M', 1);
  }

  // ---- lower case ----

  function Lower(c: char): char { if 'A' <= c <= 'Z' then c - 'A' + 'a' else c }

  function LowerCase(t: string): (r: string)
    ensures |r| == |t| && forall k :: 0 <= k < |t| ==> r[k] == Lower(t[k])
  { seq(|t|, k requires 0 <= k < |t| => Lower(t[k])) }

  lemma LowerParts(t: string, k: nat)
    requires k <= |t|
    ensures LowerCase(t)[..k] == LowerCase(t[..k]) && LowerCase(t)[k..] == LowerCase(t[k..])
  {
  }

  // ---- one duration in several spellings ----

  /** The letter, whatever its case, and the point, whichever of the two it is. */
  function Plain(c: char): char { if c == ',' then '.' else Lower(c) }

  predicate Alike(s: string, t: string) { |s| == |t| && forall k :: 0 <= k < |s| ==> Plain(s[k]) == Plain(t[k]) }

  lemma AlikeParts(s: string, t: string, k: nat)
    requires Alike(s, t) && k <= |t|
    ensures Alike(s[..k], t[..k]) && Alike(s[k..], t[k..])
  {
  }

  lemma AlikeKinds(c: char, d: char)
    requires Plain(c) == Plain(d)
    ensures IsPoint(c) == IsPoint(d) && IsNumberChar(c) == IsNumberChar(d)
    ensures (IsDigit(c) || IsSign(c)) ==> c == d
    ensures (c == 'T' || c == 't') == (d == 'T' || d == 't')
    ensures (c == 'P' || c == 'p') == (d == 'P' || d == 'p')
  {
  }

  lemma AlikeDigits(s: string, t: string)
    requires Alike(s, t)
    ensures ReadDigits(s) == ReadDigits(t)
  {
    if s != t {
      var k :| 0 <= k < |s| && s[k] != t[k];
      forall j | 0 <= j < |s|
        ensures (IsDigit(s[j]) || IsSign(s[j]) || IsDigit(t[j]) || IsSign(t[j])) ==> s[j] == t[j]
      {
        AlikeKinds(s[j], t[j]);
        AlikeKinds(t[j], s[j]);
      }
      NotANumber(s, k);
      NotANumber(t, k);
    }
  }

  lemma NotANumber(t: string, k: nat)
    requires k < |t| && !IsDigit(t[k]) && !IsSign(t[k])
    ensures ReadDigits(t) == None
  {
    if HasSign(t) { assert t[1..][k - 1] == t[k]; }
  }

  lemma AlikeScaled(s: string, t: string, unit: int)
    requires Alike(s, t)
    ensures ReadScaled(s, unit) == ReadScaled(t, unit)
  {
    hide ReadDigits;
    var k := PointIndex(t);
    forall j | 0 <= j < |s| ensures IsPoint(s[j]) == IsPoint(t[j]) { AlikeKinds(s[j], t[j]); }
    PointIndexUnique(s, k);
    AlikeParts(s, t, k);
    AlikeDigits(s[..k], t[..k]);
    if k < |t| {
      AlikeParts(s, t, k + 1);
      AlikeDigits(s[k + 1..], t[k + 1..]);
    }
  }

  lemma AlikeField(f: Field, g: Field, timePart: bool)
    requires Alike(f.number, g.number) && Plain(f.unit) == Plain(g.unit)
    ensures Worth(f, timePart) == Worth(g, timePart)
  {
    hide ReadDigits, ReadScaled;
    AlikeDigits(f.number, g.number);
    AlikeUnits(f.unit, g.unit, timePart);
    var size := UnitSize(g.unit, timePart);
    if size.Some? { AlikeScaled(f.number, g.number, size.value); }
  }

  lemma AlikeUnits(c: char, d: char, timePart: bool)
    requires Plain(c) == Plain(d)
    ensures MonthSize(c, timePart) == MonthSize(d, timePart) && UnitSize(c, timePart) == UnitSize(d, timePart)
  {
  }

  lemma AlikeRuns(s: string, t: string)
    requires Alike(s, t)
    ensures RunEnd(s) == RunEnd(t)
  {
    forall j | 0 <= j < |s| ensures IsNumberChar(s[j]) == IsNumberChar(t[j]) { AlikeKinds(s[j], t[j]); }
    RunEndUnique(s, RunEnd(t));
  }

  /** The running sum of a part, in either spelling. */
  lemma {:induction false} AlikeSums(s: string, t: string, timePart: bool, start: Amount)
    requires Alike(s, t) && start.Fits()
    ensures AddPart(s, timePart, start) == AddPart(t, timePart, start)
    decreases |t|
  {
    hide Worth, AddPart, Amount.Fits, Amount.Plus, Plain;
    var k := RunEnd(t);
    AlikeRuns(s, t);
    if t == "" {
      assert s == t;
    } else if k == 0 {
      NoNumber(t, timePart, start);
      NoNumber(s, timePart, start);
    } else if k == |t| {
      LastRun(t, timePart, start);
      LastRun(s, timePart, start);
    } else {
      AddPartStep(t, timePart, start);
      AddPartStep(s, timePart, start);
      AlikeParts(s, t, k);
      AlikeParts(s, t, k + 1);
      AlikeField(Field(s[..k], s[k]), Field(t[..k], t[k]), timePart);
      var worth := Worth(Field(t[..k], t[k]), timePart);
      if worth.Some? && start.Plus(worth.value).Fits() {
        AlikeSums(s[k + 1..], t[k + 1..], timePart, start.Plus(worth.value));
      }
    }
  }

  lemma AlikeBodies(s: string, t: string)
    requires Alike(s, t)
    ensures ReadBody(s) == ReadBody(t)
  {
    hide AddPart, Plain;
    var k := TimeMark(t);
    forall j | 0 <= j < |s| ensures (s[j] == 'T' || s[j] == 't') == (t[j] == 'T' || t[j] == 't') {
      AlikeKinds(s[j], t[j]);
    }
    TimeMarkUnique(s, k);
    AlikeParts(s, t, k);
    if k < |t| { AlikeParts(s, t, k + 1); }
    AlikeSums(s[..k], t[..k], false, NOTHING);
    var date := AddPart(t[..k], false, NOTHING);
    if date.Some? {
      AddPartFits(t[..k], false, NOTHING);
      AlikeSums(if k < |t| then s[k + 1..] else "", if k < |t| then t[k + 1..] else "", true, date.value);
    }
  }

  /** A duration is the same in either case, letter by letter, and with a comma for any point. */
  lemma AlikeDurations(s: string, t: string)
    requires Alike(s, t)
    ensures ReadDuration(s) == ReadDuration(t)
  {
    hide ReadBody, Plain;
    forall k | 0 <= k < |s| ensures (IsSign(s[k]) || IsSign(t[k])) ==> s[k] == t[k] {
      AlikeKinds(s[k], t[k]);
      AlikeKinds(t[k], s[k]);
    }
    if s != "" { AlikeParts(s, t, 1); }
    var a, b := Unsigned(s), Unsigned(t);
    assert Alike(a, b) && IsNegative(s) == IsNegative(t);
    if a != "" {
      AlikeKinds(a[0], b[0]);
      AlikeParts(a, b, 1);
      AlikeBodies(a[1..], b[1..]);
    }
  }

  lemma LowerDuration(t: string)
    ensures ReadDuration(LowerCase(t)) == ReadDuration(t)
  {
    hide ReadDuration;
    AlikeDurations(LowerCase(t), t);
  }

  // ---- what is no duration ----

  /** Nothing, a `P` and a `PT` are no durations. */
  lemma NothingIsNoDuration()
    ensures ReadDuration("") == None && ReadDuration("P") == None && ReadDuration("PT") == None
  {
    hide AddPart;
    var nothing, mark := "", "T";
    PlainDuration(nothing);
    PlainDuration(mark);
    TimeMarkUnique(nothing, 0);
    TimeMarkUnique(mark, 0);
    assert "P" + nothing == "P" && "P" + mark == "PT" && mark[..0] == "" && mark[1..] == "";
  }

  /** A unit counts on its own side of the `T` only, months and minutes apart, and no other letter counts anything. */
  lemma UnitsOnTheirSide(n: nat, unit: char, timePart: bool)
    requires !IsNumberChar(unit) && unit != 'T' && unit != 't'
    requires Lower(unit) !in if timePart then "hms" else "ymwd"
    ensures ReadDuration(Lone(n, unit, timePart)) == None
  {
    hide ReadDuration, Lone, Dec, ReadDigits, ReadScaled;
    LoneReads(n, unit, timePart);
  }

  /** Months and nanoseconds are never in one duration, and a field worth nothing is of either kind. */
  lemma KindsDoNotMix(n: nat, m: nat)
    requires n <= INT64_MAX && m * NANOS_PER_DAY <= INT64_MAX
    ensures ReadDuration("P" + (Dec(n) + "M" + (Dec(m) + "D")))
         == if n != 0 && m != 0 then None else if n != 0 then Some(Months(n)) else Some(Nanos(m * NANOS_PER_DAY))
  {
    hide ReadBody, ReadDuration, Dec;
    MonthsAndDays(n, m);
    PlainDuration(Dec(n) + "M" + (Dec(m) + "D"));
  }

  lemma MonthsAndDays(n: nat, m: nat)
    requires n <= INT64_MAX && m * NANOS_PER_DAY <= INT64_MAX
    ensures ReadBody(Dec(n) + "M" + (Dec(m) + "D")) == Some(Amount(n, m * NANOS_PER_DAY))
  {
    hide Dec, ReadBody, Worth, Field.WellFormed;
    MonthsAlone(n);
    DaysAlone(m);
    CountedUnit(n, 'M');
    CountedUnit(m, 'D');
    MonthsThenDays(Dec(n), Dec(m), n, m * NANOS_PER_DAY);
  }

  lemma MonthsThenDays(a: string, b: string, months: nat, nanos: nat)
    requires Field(a, 'M').WellFormed() && Field(b, 'D').WellFormed() && months <= INT64_MAX && nanos <= INT64_MAX
    requires Worth(Field(a, 'M'), false) == Some(Amount(months, 0))
    requires Worth(Field(b, 'D'), false) == Some(Amount(0, nanos))
    ensures ReadBody(a + "M" + (b + "D")) == Some(Amount(months, nanos))
  {
    hide ReadBody, Worth, Field.WellFormed;
    TwoFields(Field(a, 'M'), Field(b, 'D'));
  }

  lemma MonthsAlone(n: nat)
    requires n <= INT64_MAX
    ensures Worth(Field(Dec(n), 'M'), false) == Some(Amount(n, 0))
  {
    hide Worth, Dec;
    LoneMonths(n, 'M');
  }

  lemma DaysAlone(n: nat)
    requires n * NANOS_PER_DAY <= INT64_MAX
    ensures Worth(Field(Dec(n), 'D'), false) == Some(Amount(0, n * NANOS_PER_DAY))
  {
    hide Worth, Dec;
    LoneUnit(n, 'D', false);
  }

  lemma CountedUnit(n: nat, unit: char)
    requires !IsNumberChar(unit)
    ensures Field(Dec(n), unit).WellFormed()
  {
    DigitsAreNumbers(Dec(n));
  }

  /** Two fields of the date part. */
  lemma TwoFields(f: Field, g: Field)
    requires f.WellFormed() && g.WellFormed() && f.unit != 'T' && f.unit != 't' && g.unit != 'T' && g.unit != 't'
    requires Worth(f, false).Some? && Worth(g, false).Some? && Worth(f, false).value.Plus(Worth(g, false).value).Fits()
    ensures ReadBody(f.number + [f.unit] + (g.number + [g.unit]))
         == Some(Worth(f, false).value.Plus(Worth(g, false).value))
  {
    var t := f.number + [f.unit] + (g.number + [g.unit]);
    FieldsUnmarked(f, g);
    assert t[..|t|] == t;
    hide Worth, TimeMark, AddPart, Field.WellFormed, Amount.Fits, Amount.Plus;
    TwoFieldPart(f, g);
    LastRun("", true, Worth(f, false).value.Plus(Worth(g, false).value));
  }

  lemma FieldsUnmarked(f: Field, g: Field)
    requires f.WellFormed() && g.WellFormed() && f.unit != 'T' && f.unit != 't' && g.unit != 'T' && g.unit != 't'
    ensures var t := f.number + [f.unit] + (g.number + [g.unit]); TimeMark(t) == |t|
  {
    var a, b := f.number + [f.unit], g.number + [g.unit];
    assert forall k :: 0 <= k < |a| ==> a[k] != 'T' && a[k] != 't';
    assert forall k :: 0 <= k < |b| ==> b[k] != 'T' && b[k] != 't';
    TimeMarkUnique(a + b, |a + b|);
  }

  lemma TwoFieldPart(f: Field, g: Field)
    requires f.WellFormed() && g.WellFormed()
    requires Worth(f, false).Some? && Worth(g, false).Some? && Worth(f, false).value.Plus(Worth(g, false).value).Fits()
    ensures AddPart(f.number + [f.unit] + (g.number + [g.unit]), false, NOTHING)
         == Some(Worth(f, false).value.Plus(Worth(g, false).value))
  {
    hide Worth, Field.WellFormed;
    var fields := [f, g];
    FieldsRoundTrip(fields);
    TwoFieldsText(f, g);
    WorthRange(f, false);
    WorthRange(g, false);
    SumFirst(f, [g], false);
    SumOne(g, false);
    hide ReadFields, FieldsText, Sum;
    assert [f] + [g] == fields;
    ZeroIsNothing(Worth(f, false).value.Plus(Worth(g, false).value));
  }

  lemma TwoFieldsText(f: Field, g: Field)
    ensures FieldsText([f, g]) == f.number + [f.unit] + (g.number + [g.unit])
  {
    FieldsTextCons(f, [g]);
    FieldsTextCons(g, []);
    NoFields();
    hide FieldsText;
    assert [f] + [g] == [f, g] && [g] + [] == [g];
  }

  /** A plus in front says nothing, and a minus counts the other way. */
  lemma SignedDuration(t: string)
    requires !HasSign(t)
    ensures ReadDuration("+" + t) == ReadDuration(t)
    ensures var r := ReadDuration(t);
            ReadDuration("-" + t) == match r
                                     case None => None
                                     case Some(Months(n)) => Some(Months(-n))
                                     case Some(Nanos(n)) => Some(Nanos(-n))
  {
    hide ReadBody;
    assert ("+" + t)[1..] == t && ("-" + t)[1..] == t;
  }

  // ---- the time of day ----

  /** A fraction is of a second, however many of its nine digits are written. */
  lemma FractionOfASecond(s: string, f: string)
    requires '.' !in s && AllDigits(f) && 1 <= |f| < 9
    ensures ReadSeconds(s + ['.'] + (f + "0")) == ReadSeconds(s + ['.'] + f)
  {
    hide ReadDigits, ReadSeconds;
    PointSeconds(s, f);
    PointSeconds(s, f + "0");
    ZeroBehind(f);
    SameFraction(ReadDigits(f).value, 9 - |f|);
  }

  lemma PointSeconds(s: string, f: string)
    requires '.' !in s && AllDigits(f) && 1 <= |f| <= 9
    ensures ReadSeconds(s + ['.'] + f)
         == if ReadDigits(s).Some? && ReadDigits(f).Some?
            then Some((ReadDigits(s).value, ReadDigits(f).value * Pow10(9 - |f|)))
            else None
  {
    hide ReadDigits, Split, Pow10;
    NoColon(f);
    SplitConcat(s, '.', f);
    SplitNone(f, '.');
  }

  lemma SameFraction(n: int, k: nat)
    requires k > 0
    ensures (10 * n) * Pow10(k - 1) == n * Pow10(k)
  {
    PowerOfTen(k);
    var p := Pow10(k - 1);
    assert (10 * n) * p == n * (10 * p);
  }

  lemma PowerOfTen(k: nat)
    requires k > 0
    ensures Pow10(k) == 10 * Pow10(k - 1)
  {
  }

  lemma ZeroBehind(f: string)
    requires AllDigits(f) && 1 <= |f| < 9
    ensures ReadDigits(f).Some? && ReadDigits(f + "0") == Some(10 * ReadDigits(f).value)
  {
    var g := f + "0";
    assert g[..|f|] == f;
    hide Value;
    ValueMore(f, '0', g);
    ValueBound(f);
    PowersGrow(|f|, 9);
    Pow10Nine();
    assert IsDigit(f[0]) && !HasSign(f) && IsDigit(g[0]) && !HasSign(g);
  }

  /** A time without seconds is at second zero. */
  lemma NoSeconds(h: string, m: string)
    requires ':' !in h && ':' !in m
    ensures ReadClock(h + ":" + m) == ReadClock(h + ":" + m + ":00")
  {
    hide ReadDigits, ReadSeconds, Split;
    SecondZero();
    var rest := m + [':'] + "00";
    SplitConcat(h, ':', m); SplitNone(m, ':');
    SplitConcat(h, ':', rest);
    SplitConcat(m, ':', "00"); SplitNone("00", ':');
    assert h + ":" + m == h + [':'] + m && h + ":" + m + ":00" == h + [':'] + rest;
  }

  lemma SecondZero()
    ensures ReadSeconds("00") == Some((0, 0))
  {
    hide ReadDigits;
    TwoZeros();
    SplitNone("00", '.');
  }

  lemma TwoZeros()
    ensures Padded(0, 2) == "00" && ReadDigits("00") == Some(0)
  {
    ReadPadded(0, 2);
  }

  // ---- the zone ----

  /** `Z`, `z` and an offset of nothing on either side are one zone. */
  lemma ZuluSpellings(body: string, sign: char)
    requires Signless(body) && IsSign(sign)
    ensures ReadZone(body + "Z") == Some(Zoned(body, Some(0))) && ReadZone(body + "z") == Some(Zoned(body, Some(0)))
    ensures ReadZone(body + [sign] + "00:00") == Some(Zoned(body, Some(0)))
  {
    hide ReadOffset;
    NoOffset();
    SignedZone(body, sign, "00:00");
    hide ReadZone;
    ZuluReads(body, 'Z');
    ZuluReads(body, 'z');
  }

  lemma ZuluReads(body: string, z: char)
    requires z == 'Z' || z == 'z'
    ensures ReadZone(body + [z]) == Some(Zoned(body, Some(0)))
  {
    hide ReadOffset, SignIndex;
    assert (body + [z])[..|body|] == body;
  }

  lemma NoOffset()
    ensures ReadOffset("00:00") == Some(0)
  {
    hide ReadOffset;
    TwoZeros();
    OffsetSpellings(0, 0);
    assert "00" + ":" + "00" == "00:00";
  }

  lemma SignedZone(body: string, sign: char, zone: string)
    requires Signless(body) && IsSign(sign) && zone != "" && IsDigit(zone[|zone| - 1]) && ReadOffset(zone).Some?
    ensures ReadZone(body + [sign] + zone)
         == Some(Zoned(body, Some(if sign == '-' then -ReadOffset(zone).value else ReadOffset(zone).value)))
  {
    hide ReadOffset;
    var t := body + [sign] + zone;
    SignIndexUnique(t, |body|);
    assert t[..|body|] == body && t[|body| + 1..] == zone && t[|t| - 1] == zone[|zone| - 1];
  }

  // ---- a date and a time ----

  predicate Unmarked(t: string) { 'T' !in t && 't' !in t && ' ' !in t }

  /** `T`, `t` and a space are one mark between a date and a time. */
  lemma MarkSpellings(date: string, time: string)
    requires Unmarked(date) && 'T' !in time && 't' !in time
    ensures ReadDatetime(date + "t" + time) == ReadDatetime(date + "T" + time)
    ensures ReadDatetime(date + " " + time) == ReadDatetime(date + "T" + time)
  {
    hide ReadDate, ReadTime, IndexOf;
    Broken(date, 'T', time);
    Broken(date, 't', time);
    Broken(date, ' ', time);
  }

  lemma Broken(date: string, mark: char, time: string)
    requires Unmarked(date) && 'T' !in time && 't' !in time && (mark == 'T' || mark == 't' || mark == ' ')
    ensures var t := date + [mark] + time;
            DateBreak(t) == |date| && t[..|date|] == date && t[|date| + 1..] == time && |t| == |date| + 1 + |time|
  {
    hide IndexOf;
    IndexOfConcat(date, mark, time);
    var t := date + [mark] + time;
    assert t[|date|] == mark;
    assert forall c: char :: c in t <==> c in date || c == mark || c in time;
  }

  lemma MidnightReads()
    ensures ReadTime("00:00") == Some(Time(0, None))
  {
    hide ReadClock;
    ClockAtMidnight();
    SignIndexUnique("00:00", 5);
  }

  /** A date alone is its midnight. */
  lemma MidnightOf(date: string)
    requires Unmarked(date)
    ensures ReadDatetime(date) == ReadDatetime(date + "T00:00")
  {
    hide ReadDate, ReadTime, IndexOf;
    Broken(date, 'T', "00:00");
    MidnightReads();
    IndexOfAbsent(date, ' ');
    assert date[..|date|] == date;
    assert date + ['T'] + "00:00" == date + "T00:00";
  }

  /** Neither a sign nor a `Z`. */
  predicate NoZone(time: string) { Signless(time) && !EndsInZulu(time) }

  lemma ZoneWritten(time: string)
    ensures NoZone(time) ==> ReadZone(time) == Some(Zoned(time, None))
    ensures !NoZone(time) && ReadZone(time).Some? ==> ReadZone(time).value.zone.Some?
  {
    hide ReadOffset;
    if NoZone(time) { SignIndexUnique(time, |time|); }
  }

  /** A local time is one with no zone at all, and a zoned one takes no zone for UTC. */
  lemma TimesAndZones(t: string)
    ensures !NoZone(t) ==> ReadTemporal(LOCALTIME, t) == None
    ensures var (here, there) := (ReadTemporal(LOCALTIME, t), ReadTemporal(ZONEDTIME, t));
            NoZone(t) ==> there == if here.Some? then Some(Temporal(ZONEDTIME, here.value.count, 0)) else None
    ensures NoZone(t) ==> ReadTemporal(ZONEDTIME, t) == ReadTemporal(ZONEDTIME, t + "Z")
  {
    hide ReadZone, ReadClock;
    ZoneWritten(t);
    ZuluReads(t, 'Z');
  }

  /** And so for a time with its date. */
  lemma DatetimesAndZones(date: string, time: string)
    requires Unmarked(date) && 'T' !in time && 't' !in time
    ensures var t := date + "T" + time;
            !NoZone(time) ==> ReadTemporal(LOCALDATETIME, t) == None
    ensures var t := date + "T" + time;
            var (here, there) := (ReadTemporal(LOCALDATETIME, t), ReadTemporal(ZONEDDATETIME, t));
            NoZone(time) ==> there == if here.Some? then Some(Temporal(ZONEDDATETIME, here.value.count, 0)) else None
    ensures NoZone(time) ==>
      ReadTemporal(ZONEDDATETIME, date + "T" + time) == ReadTemporal(ZONEDDATETIME, date + "T" + (time + "Z"))
  {
    hide ReadZone, ReadClock, ReadDate, DateBreak;
    Broken(date, 'T', time);
    Broken(date, 'T', time + "Z");
    ZoneWritten(time);
    ZuluReads(time, 'Z');
    InstantFits(date + "T" + time);
  }

  lemma InstantFits(t: string)
    ensures ReadDatetime(t).Some? ==> FitsInt64(ReadDatetime(t).value.nanos)
  {
    hide ReadDatetime;
    ReadDatetimeRange(t);
  }

  lemma ZonedInstant(date: string, clock: string, sign: char, zone: string)
    requires ReadDate(date).Some? && Unmarked(date) && -MAX_DAYS <= ReadDate(date).value < MAX_DAYS
    requires ReadClock(clock).Some? && Signless(clock) && Unmarked(clock) && Unmarked(zone) && IsSign(sign)
    requires ReadOffset(zone).Some? && zone != "" && IsDigit(zone[|zone| - 1])
    ensures var offset := if sign == '-' then -ReadOffset(zone).value else ReadOffset(zone).value;
            var instant := ReadDate(date).value * NANOS_PER_DAY + ReadClock(clock).value - offset * NANOS_PER_MINUTE;
            FitsInt64(instant) ==>
              ReadTemporal(ZONEDDATETIME, date + "T" + clock + [sign] + zone)
                == Some(Temporal(ZONEDDATETIME, instant, offset))
  {
    hide ReadDate, ReadZone, ReadClock, IndexOf, ReadOffset, DateBreak;
    var time := clock + [sign] + zone;
    SignedZone(clock, sign, zone);
    ReadClockRange(clock);
    Broken(date, 'T', time);
    assert date + "T" + clock + [sign] + zone == date + ['T'] + time;
  }

  predicate IsZone(zone: string, size: int) {
    zone != "" && IsDigit(zone[|zone| - 1]) && Unmarked(zone) && Signless(zone) && 0 <= size < 24 * 60
    && ReadClock(zone) == Some(size * NANOS_PER_MINUTE) && ReadOffset(zone) == Some(size)
  }

  /** East of Greenwich is ahead: what its clock shows at midnight UTC is the offset it writes with a plus. */
  lemma EastIsAhead(date: string, zone: string, size: int)
    requires ReadDate(date).Some? && Unmarked(date) && -MAX_DAYS <= ReadDate(date).value < MAX_DAYS
    requires IsZone(zone, size)
    ensures ReadTemporal(ZONEDDATETIME, date + "T" + zone + ['+'] + zone)
         == Some(Temporal(ZONEDDATETIME, ReadDate(date).value * NANOS_PER_DAY, size))
  {
    hide ReadDate, ReadClock, ReadOffset, ReadTemporal;
    ZonedInstant(date, zone, '+', zone);
  }

  /** West of it is behind: at its midnight UTC is ahead by the offset it writes with a minus. */
  lemma WestIsBehind(date: string, zone: string, size: int)
    requires ReadDate(date).Some? && Unmarked(date) && -MAX_DAYS <= ReadDate(date).value < MAX_DAYS
    requires IsZone(zone, size)
    ensures ReadTemporal(ZONEDDATETIME, date + "T" + "00:00" + ['-'] + zone)
         == Some(Temporal(ZONEDDATETIME, ReadDate(date).value * NANOS_PER_DAY + size * NANOS_PER_MINUTE, -size))
  {
    hide ReadDate, ReadClock, ReadOffset, ReadTemporal;
    ClockAtMidnight();
    assert Signless("00:00") && Unmarked("00:00");
    ZonedInstant(date, "00:00", '-', zone);
  }

  /** Hours and minutes are such a zone, up to 18:59. */
  lemma HoursAreZones(h: nat, m: nat)
    requires h <= 18 && m <= 59
    ensures IsZone(Padded(h, 2) + ":" + Padded(m, 2), h * 60 + m)
  {
    hide Padded, ReadClock, ReadOffset;
    ZoneText(h, m);
    OffsetSpellings(h, m);
    ClockReads(h, m);
  }

  lemma ZoneText(h: nat, m: nat)
    ensures var zone := Padded(h, 2) + ":" + Padded(m, 2);
            zone != "" && IsDigit(zone[|zone| - 1]) && Unmarked(zone) && Signless(zone)
  {
    hide Padded;
    NoColon(Padded(h, 2)); NoColon(Padded(m, 2));
    var zone := Padded(h, 2) + ":" + Padded(m, 2);
    assert zone[|zone| - 1] == Padded(m, 2)[|Padded(m, 2)| - 1];
  }

  lemma ClockAtMidnight()
    ensures ReadClock("00:00") == Some(0)
  {
    hide ReadClock;
    TwoZeros();
    ClockReads(0, 0);
    assert "00" + ":" + "00" == "00:00";
  }

  lemma TwoDigits(n: nat)
    requires n < 100
    ensures |Padded(n, 2)| == 2 && ReadDigits(Padded(n, 2)) == Some(n) && AllDigits(Padded(n, 2))
    ensures ':' !in Padded(n, 2) && '.' !in Padded(n, 2) && Signless(Padded(n, 2))
  {
    assert Pow10(2) == 100;
    PaddedWidth(n, 2);
    ReadPadded(n, 2);
    NoColon(Padded(n, 2));
  }

  lemma SecondReads(n: nat)
    requires n < 100
    ensures ReadSeconds(Padded(n, 2)) == Some((n, 0))
  {
    hide ReadDigits, Padded;
    TwoDigits(n);
    SplitNone(Padded(n, 2), '.');
  }

  /** Of all that two digits can say, a clock shows 24 hours of 60 minutes of 60 seconds. */
  lemma WrittenClock(h: nat, m: nat, s: nat)
    requires h < 100 && m < 100 && s < 100
    ensures ReadClock(Padded(h, 2) + ":" + Padded(m, 2) + ":" + Padded(s, 2))
         == if h < 24 && m < 60 && s < 60 then Some(((h * 60 + m) * 60 + s) * NANOS_PER_SEC) else None
  {
    hide ReadDigits, Padded, Split, ReadSeconds;
    var hh, mm, ss := Padded(h, 2), Padded(m, 2), Padded(s, 2);
    TwoDigits(h); TwoDigits(m); TwoDigits(s);
    SecondReads(s);
    var rest := mm + [':'] + ss;
    SplitConcat(hh, ':', rest);
    SplitConcat(mm, ':', ss);
    SplitNone(ss, ':');
    assert hh + ":" + mm + ":" + ss == hh + [':'] + rest;
  }

  lemma ClockReads(h: nat, m: nat)
    requires h <= 23 && m <= 59
    ensures ReadClock(Padded(h, 2) + ":" + Padded(m, 2)) == Some(h * NANOS_PER_HOUR + m * NANOS_PER_MINUTE)
  {
    hide ReadDigits, Padded, Split;
    var hh, mm := Padded(h, 2), Padded(m, 2);
    TwoDigits(h); TwoDigits(m);
    SplitConcat(hh, ':', mm); SplitNone(mm, ':');
    assert hh + ":" + mm == hh + [':'] + mm;
  }

  /** An offset is up to 18 hours and any minutes of an hour. */
  lemma WrittenOffset(h: nat, m: nat)
    requires h < 100 && m < 100
    ensures ReadOffset(Padded(h, 2) + ":" + Padded(m, 2)) == if h <= 18 && m < 60 then Some(h * 60 + m) else None
  {
    hide ReadDigits, Padded;
    var hh, mm := Padded(h, 2), Padded(m, 2);
    TwoDigits(h); TwoDigits(m);
    IndexOfConcat(hh, ':', mm);
    var zone := hh + ":" + mm;
    assert zone == hh + [':'] + mm && zone[..2] == hh && zone[3..] == mm;
  }

  /** A date is a day of the calendar in a year from 1 on, and no other three numbers are. */
  lemma WrittenDate(y: nat, m: nat, d: nat)
    requires y < 10000 && m < 100 && d < 100
    ensures ReadDate(Padded(y, 4) + "-" + Padded(m, 2) + "-" + Padded(d, 2))
         == if y >= 1 && 1 <= m <= 12 && 1 <= d <= DaysIn(y, m) then Some(DaysFromCivil(Date(y, m, d))) else None
  {
    hide ReadDigits, Padded, DaysFromCivil, DaysIn;
    assert Pow10(4) == 10000;
    PaddedWidth(y, 4);
    ReadPadded(y, 4);
    TwoDigits(m); TwoDigits(d);
    var yyyy, mm, dd := Padded(y, 4), Padded(m, 2), Padded(d, 2);
    var t := yyyy + "-" + mm + "-" + dd;
    assert t[..4] == yyyy && t[5..7] == mm && t[8..] == dd && t[4] == '-' && t[7] == '-';
  }

  // ---- hexits ----

  lemma NibbleOfEitherCase(c: char)
    ensures V.Nibble(Lower(c)) == V.Nibble(c)
  {
  }

  lemma {:induction false} SqueezeConcat(a: string, b: string)
    ensures V.Squeeze(a + b) == V.Squeeze(a) + V.Squeeze(b)
  {
    if a == "" {
      assert a + b == b;
      assert V.Squeeze(a) + V.Squeeze(b) == V.Squeeze(b);
    } else {
      hide V.Squeeze;
      SqueezeConcat(a[1..], b);
      assert (a + b)[1..] == a[1..] + b && (a + b)[0] == a[0];
      SqueezeStep(a);
      SqueezeStep(a + b);
      Regroup(if a[0] == ' ' || a[0] == '\t' then "" else [a[0]], V.Squeeze(a[1..]), V.Squeeze(b));
    }
  }

  lemma SqueezeStep(t: string)
    requires t != ""
    ensures V.Squeeze(t) == (if t[0] == ' ' || t[0] == '\t' then "" else [t[0]]) + V.Squeeze(t[1..])
  {
  }

  lemma Regroup(a: string, b: string, c: string)
    ensures a + (b + c) == a + b + c
  {
  }

  lemma {:induction false} LowerSqueezed(t: string)
    ensures V.Squeeze(LowerCase(t)) == LowerCase(V.Squeeze(t))
  {
    if t != "" {
      LowerParts(t, 1);
      LowerSqueezed(t[1..]);
    }
  }

  lemma {:induction false} LowerOctets(t: string)
    ensures V.Octets(LowerCase(t)) == V.Octets(t)
    decreases |t|
  {
    hide V.Nibble, Lower;
    if |t| >= 2 {
      LowerParts(t, 2);
      NibbleOfEitherCase(t[0]);
      NibbleOfEitherCase(t[1]);
      LowerOctets(t[2..]);
    }
  }

  /** Hexits spell the same octets in either case, and with a blank anywhere among them. */
  lemma HexSpellings(a: string, b: string, blank: char)
    requires blank == ' ' || blank == '\t'
    ensures V.ReadHexits(LowerCase(a)) == V.ReadHexits(a)
    ensures V.ReadHexits(a + [blank] + b) == V.ReadHexits(a + b)
  {
    LowerSqueezed(a);
    LowerOctets(V.Squeeze(a));
    SqueezeConcat(a + [blank], b);
    SqueezeConcat(a, [blank]);
    SqueezeConcat(a, b);
    assert [blank][1..] == "" && V.Squeeze([blank]) == "" && V.Squeeze(a) + "" == V.Squeeze(a);
  }

  /** Nothing but hexits and blanks is read, and an even number of hexits. */
  lemma OnlyHexits(t: string)
    requires V.ReadHexits(t).Some?
    ensures |V.Squeeze(t)| % 2 == 0 && forall c :: c in t ==> V.Nibble(c).Some? || c == ' ' || c == '\t'
  {
    PairsOfHexits(V.Squeeze(t));
    forall c | c in t ensures V.Nibble(c).Some? || c == ' ' || c == '\t' {
      KeptOrBlank(t, c);
    }
  }

  lemma {:induction false} PairsOfHexits(t: string)
    requires V.Octets(t).Some?
    ensures |t| % 2 == 0 && forall c :: c in t ==> V.Nibble(c).Some?
    decreases |t|
  {
    hide V.Nibble;
    if t != "" {
      PairsOfHexits(t[2..]);
      assert t == [t[0], t[1]] + t[2..];
    }
  }

  lemma {:induction false} KeptOrBlank(t: string, c: char)
    requires c in t
    ensures c in V.Squeeze(t) || c == ' ' || c == '\t'
  {
    if t[0] != c {
      assert t == [t[0]] + t[1..];
      KeptOrBlank(t[1..], c);
    }
  }
}
