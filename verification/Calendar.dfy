/**
  The proleptic Gregorian calendar of conformance/c/value.c: a day count from
  1970-01-01 and back, through years that start in March.
 */
module Calendar {
  import opened Common


  /** C's `/`, which truncates toward zero. */
  function TruncDiv(a: int, b: int): int
    requires b != 0
  {
    if a >= 0 then a / b else -((-a) / b)
  }

  function TruncMod(a: int, b: int): int
    requires b != 0
  { a - TruncDiv(a, b) * b }

  function FloorDiv(a: int, b: int): int
    requires b != 0
  {
    var q := TruncDiv(a, b);
    if TruncMod(a, b) != 0 && ((a < 0) != (b < 0)) then q - 1 else q
  }

  function FloorMod(a: int, b: int): int
    requires b != 0
  { a - FloorDiv(a, b) * b }

  /** Truncation corrected by one is the floor: the remainder takes the divisor's sign. */
  lemma FloorDivIsFloor(a: int, b: int)
    requires b > 0
    ensures FloorDiv(a, b) == a / b && FloorMod(a, b) == a % b
    ensures 0 <= FloorMod(a, b) < b
  {
    var n := if a >= 0 then a else -a;
    var q, r := n / b, n % b;
    assert n == q * b + r;
    if a < 0 {
      if r == 0 {
        assert a == (-q) * b;
        Quotient(a, b, -q, 0);
      } else {
        assert a == (-q - 1) * b + (b - r);
        Quotient(a, b, -q - 1, b - r);
        assert (-q) * b == -(q * b);
        assert TruncMod(a, b) == -r;
      }
    }
  }

  datatype Date = Date(year: int, month: int, day: int)

  predicate Leap(year: int) { year % 4 == 0 && (year % 100 != 0 || year % 400 == 0) }

  function DaysIn(year: int, month: int): (n: int)
    ensures 28 <= n <= 31
  {
    match month
    case 1 => 31 case 3 => 31 case 5 => 31 case 7 => 31 case 8 => 31 case 10 => 31 case 12 => 31
    case 4 => 30 case 6 => 30 case 9 => 30 case 11 => 30
    case _ => if Leap(year) then 29 else 28
  }

  predicate ValidDate(d: Date) {
    1 <= d.month <= 12 && 1 <= d.day <= DaysIn(d.year, d.month)
  }

  /** The day after, by the month table and the leap rule alone. */
  function Next(d: Date): Date {
    if d.day < DaysIn(d.year, d.month) then d.(day := d.day + 1)
    else if d.month < 12 then Date(d.year, d.month + 1, 1)
    else Date(d.year + 1, 1, 1)
  }

  /** Days before month `mp` of a year that starts in March. */
  function MonthStart(mp: int): int { (153 * mp + 2) / 5 }

  /** Days before year `yoe` of an era of 400 years. */
  function YearStart(yoe: int): int { yoe * 365 + yoe / 4 - yoe / 100 }

  function DaysFromCivil(d: Date): int
    requires 1 <= d.month <= 12
  {
    var y := if d.month <= 2 then d.year - 1 else d.year;
    var era := FloorDiv(y, 400);
    var yoe := y - era * 400;
    var doy := MonthStart(if d.month > 2 then d.month - 3 else d.month + 9) + d.day - 1;
    var doe := YearStart(yoe) + doy;
    era * 146097 + doe - 719468
  }

  function YearOfEra(doe: int): int { (doe - doe / 1460 + doe / 36524 - doe / 146096) / 365 }

  function MonthOfYear(doy: int): int { (5 * doy + 2) / 153 }

  function CivilFromDays(days: int): Date {
    var z := days + 719468;
    var era := FloorDiv(z, 146097);
    var doe := z - era * 146097;
    var yoe := YearOfEra(doe);
    var y := yoe + era * 400;
    var doy := doe - YearStart(yoe);
    var mp := MonthOfYear(doy);
    var day := doy - MonthStart(mp) + 1;
    var month := if mp < 10 then mp + 3 else mp - 9;
    Date(if month <= 2 then y + 1 else y, month, day)
  }

  // ---- years ----

  /** Days in the March-based year `yoe`: the leap day is its last. */
  function YearLength(yoe: int): int { if Leap(yoe + 1) then 366 else 365 }

  /** Centuries, four-year runs and years place every day of an era once. */
  lemma YearDigits(c: int, q: int, r: int, d: int)
    requires 0 <= c <= 3 && 0 <= q <= 24 && 0 <= r <= 3 && 0 <= d
    requires d <= 364 || (d == 365 && r == 3 && (q != 24 || c == 3))
    ensures var doe := 36524 * c + 1461 * q + 365 * r + d;
            0 <= doe < 146097 && YearOfEra(doe) == 100 * c + 4 * q + r
  {
    var doe := 36524 * c + 1461 * q + 365 * r + d;
    var e := 24 * c + q + 365 * r + d;
    assert doe == 1460 * (25 * c + q) + e && 0 <= e < 2920;
    var over := if e >= 1460 then 1 else 0;
    Quotient(doe, 1460, 25 * c + q + over, e - 1460 * over);
    CenturyDigit(c, 1461 * q + 365 * r + d);
    Quotient(365 * (100 * c + 4 * q + r) + d - over, 365, 100 * c + 4 * q + r, d - over);
  }

  lemma CenturyDigit(c: int, rest: int)
    requires 0 <= c <= 3 && 0 <= rest && (rest < 36524 || (rest == 36524 && c == 3))
    ensures var doe := 36524 * c + rest; doe / 36524 - doe / 146096 == c
  {
    if rest < 36524 { Quotient(36524 * c + rest, 36524, c, rest); }
  }

  lemma YearDigitsOf(yoe: int)
    requires 0 <= yoe < 400
    ensures var c, q, r := yoe / 100, yoe % 100 / 4, yoe % 4;
            yoe == 100 * c + 4 * q + r && 0 <= c <= 3 && 0 <= q <= 24 && 0 <= r <= 3
            && YearStart(yoe) == 36524 * c + 1461 * q + 365 * r
            && (Leap(yoe + 1) <==> r == 3 && (q != 24 || c == 3))
  {
    var c, k := yoe / 100, yoe % 100;
    assert yoe == 100 * c + k && 0 <= c <= 3;
    assert k % 4 == yoe % 4 && yoe / 4 == 25 * c + k / 4;
    assert (yoe + 1) % 100 == (k + 1) % 100;
    assert (yoe + 1) % 4 == (k + 1) % 4;
  }

  /** The era's day count gives back the year it was made from. */
  lemma YearOfEraInverts(yoe: int, doy: int)
    requires 0 <= yoe < 400 && 0 <= doy < YearLength(yoe)
    ensures 0 <= YearStart(yoe) + doy < 146097
    ensures YearOfEra(YearStart(yoe) + doy) == yoe
  {
    YearDigitsOf(yoe);
    YearDigits(yoe / 100, yoe % 100 / 4, yoe % 4, doy);
  }

  /** Every day of an era falls in the year the formula names. */
  lemma YearOfEraTotal(doe: int)
    requires 0 <= doe < 146097
    ensures var yoe := YearOfEra(doe);
            0 <= yoe < 400 && 0 <= doe - YearStart(yoe) < YearLength(yoe)
  {
    var c := if doe / 36524 > 3 then 3 else doe / 36524;
    var inCentury := doe - 36524 * c;
    var q := inCentury / 1461;
    var inRun := inCentury - 1461 * q;
    var r := if inRun / 365 > 3 then 3 else inRun / 365;
    var d := inRun - 365 * r;
    YearDigits(c, q, r, d);
    YearFromDigits(c, q, r);
  }

  lemma YearFromDigits(c: int, q: int, r: int)
    requires 0 <= c <= 3 && 0 <= q <= 24 && 0 <= r <= 3
    ensures var yoe := 100 * c + 4 * q + r;
            YearStart(yoe) == 36524 * c + 1461 * q + 365 * r
            && (Leap(yoe + 1) <==> r == 3 && (q != 24 || c == 3))
  {
    var yoe := 100 * c + 4 * q + r;
    Quotient(yoe, 100, c, 4 * q + r);
    Quotient(4 * q + r, 4, q, r);
    Quotient(yoe, 4, 25 * c + q, r);
    YearDigitsOf(yoe);
  }

  // ---- months ----

  /** Length of month `mp` of the March-based year, February apart. */
  lemma MonthLengths(mp: int, year: int)
    requires 0 <= mp <= 10
    ensures MonthStart(mp + 1) - MonthStart(mp) == DaysIn(year, if mp < 10 then mp + 3 else mp - 9)
  {
    assert mp == 0 || mp == 1 || mp == 2 || mp == 3 || mp == 4 || mp == 5 || mp == 6 || mp == 7
        || mp == 8 || mp == 9 || mp == 10;
  }

  lemma MonthOfYearInverts(mp: int, day: int)
    requires 0 <= mp <= 11 && 1 <= day <= if mp == 11 then 29 else MonthStart(mp + 1) - MonthStart(mp)
    ensures MonthOfYear(MonthStart(mp) + day - 1) == mp
  {
    assert mp == 0 || mp == 1 || mp == 2 || mp == 3 || mp == 4 || mp == 5 || mp == 6 || mp == 7
        || mp == 8 || mp == 9 || mp == 10 || mp == 11;
  }

  lemma MonthOfYearTotal(doy: int)
    requires 0 <= doy < 366
    ensures var mp := MonthOfYear(doy);
            0 <= mp <= 11 && MonthStart(mp) <= doy && (mp < 11 ==> doy < MonthStart(mp + 1))
  {
    var mp := MonthOfYear(doy);
    assert mp == 0 || mp == 1 || mp == 2 || mp == 3 || mp == 4 || mp == 5 || mp == 6 || mp == 7
        || mp == 8 || mp == 9 || mp == 10 || mp == 11;
  }

  // ---- both directions ----

  lemma LeapShift(era: int, y: int)
    ensures Leap(y + era * 400) == Leap(y)
  {
    assert (y + era * 400) % 400 == y % 400 by { Quotient(y + era * 400, 400, y / 400 + era, y % 400); }
    assert (y + era * 400) % 100 == y % 100 by { Quotient(y + era * 400, 100, y / 100 + 4 * era, y % 100); }
    assert (y + era * 400) % 4 == y % 4 by { Quotient(y + era * 400, 4, y / 4 + 100 * era, y % 4); }
  }

  /** A day in era, year-of-era, month and day coordinates. */
  predicate March(era: int, yoe: int, mp: int, day: int) {
    0 <= yoe < 400 && 0 <= mp <= 11 && 1 <= day
    && day <= if mp == 11 then YearLength(yoe) - 337 else MonthStart(mp + 1) - MonthStart(mp)
  }

  function FromMarch(era: int, yoe: int, mp: int, day: int): Date {
    Date(if mp >= 10 then yoe + era * 400 + 1 else yoe + era * 400,
         if mp < 10 then mp + 3 else mp - 9, day)
  }

  function MarchDay(era: int, yoe: int, mp: int, day: int): int {
    era * 146097 + YearStart(yoe) + MonthStart(mp) + day - 1 - 719468
  }

  lemma MarchFits(era: int, yoe: int, mp: int, day: int)
    requires March(era, yoe, mp, day)
    ensures 0 <= MonthStart(mp) + day - 1 < YearLength(yoe)
    ensures MonthOfYear(MonthStart(mp) + day - 1) == mp
  {
    assert mp <= 10 ==> MonthStart(mp + 1) <= 337;
    assert MonthStart(11) == 337;
    MonthOfYearInverts(mp, day);
  }

  lemma MarchValid(era: int, yoe: int, mp: int, day: int)
    requires March(era, yoe, mp, day)
    ensures ValidDate(FromMarch(era, yoe, mp, day))
    ensures var last := if mp == 11 then YearLength(yoe) - 337 else MonthStart(mp + 1) - MonthStart(mp);
            var d := FromMarch(era, yoe, mp, day);
            last == DaysIn(d.year, d.month)
  {
    if mp < 11 {
      MonthLengths(mp, FromMarch(era, yoe, mp, day).year);
    } else {
      LeapShift(era, yoe + 1);
    }
  }

  lemma MarchToDays(era: int, yoe: int, mp: int, day: int)
    requires March(era, yoe, mp, day)
    ensures DaysFromCivil(FromMarch(era, yoe, mp, day)) == MarchDay(era, yoe, mp, day)
  {
    var y := yoe + era * 400;
    Quotient(y, 400, era, yoe);
    FloorDivIsFloor(y, 400);
  }

  lemma MarchFromDays(era: int, yoe: int, mp: int, day: int)
    requires March(era, yoe, mp, day)
    ensures CivilFromDays(MarchDay(era, yoe, mp, day)) == FromMarch(era, yoe, mp, day)
  {
    hide YearOfEra, MonthOfYear, MonthStart, YearStart, YearLength, FloorDiv;
    MarchFits(era, yoe, mp, day);
    var doy := MonthStart(mp) + day - 1;
    var doe := YearStart(yoe) + doy;
    YearOfEraInverts(yoe, doy);
    Quotient(doe + era * 146097, 146097, era, doe);
    FloorDivIsFloor(doe + era * 146097, 146097);
  }

  /** Both functions agree on the day that March coordinates name. */
  lemma MarchRoundTrip(era: int, yoe: int, mp: int, day: int)
    requires March(era, yoe, mp, day)
    ensures var d, n := FromMarch(era, yoe, mp, day), MarchDay(era, yoe, mp, day);
            ValidDate(d) && DaysFromCivil(d) == n && CivilFromDays(n) == d
  {
    MarchValid(era, yoe, mp, day);
    MarchToDays(era, yoe, mp, day);
    MarchFromDays(era, yoe, mp, day);
  }

  /** Every date has March coordinates. */
  lemma ToMarch(d: Date) returns (era: int, yoe: int, mp: int)
    requires ValidDate(d)
    ensures March(era, yoe, mp, d.day) && FromMarch(era, yoe, mp, d.day) == d
  {
    var y := if d.month <= 2 then d.year - 1 else d.year;
    era, yoe := y / 400, y % 400;
    mp := if d.month > 2 then d.month - 3 else d.month + 9;
    if mp < 11 {
      MonthLengths(mp, d.year);
    } else {
      LeapShift(era, yoe + 1);
    }
  }

  /** Every integer day count has March coordinates. */
  lemma DayToMarch(days: int) returns (era: int, yoe: int, mp: int, day: int)
    ensures March(era, yoe, mp, day) && MarchDay(era, yoe, mp, day) == days
  {
    var z := days + 719468;
    era := z / 146097;
    var doe := z % 146097;
    YearOfEraTotal(doe);
    yoe := YearOfEra(doe);
    var doy := doe - YearStart(yoe);
    MonthOfYearTotal(doy);
    mp := MonthOfYear(doy);
    day := doy - MonthStart(mp) + 1;
    assert MonthStart(11) == 337;
  }

  /** Every integer day count is a valid date, and that date is the day count. */
  lemma DaysRoundTrip(days: int)
    ensures ValidDate(CivilFromDays(days))
    ensures DaysFromCivil(CivilFromDays(days)) == days
  {
    var era, yoe, mp, day := DayToMarch(days);
    MarchRoundTrip(era, yoe, mp, day);
  }

  /** Every valid date of any year comes back from its day count. */
  lemma DateRoundTrip(d: Date)
    requires ValidDate(d)
    ensures CivilFromDays(DaysFromCivil(d)) == d
  {
    var era, yoe, mp := ToMarch(d);
    MarchRoundTrip(era, yoe, mp, d.day);
  }

  lemma YearStep(yoe: int)
    requires 0 <= yoe < 400
    ensures yoe < 399 ==> YearStart(yoe + 1) == YearStart(yoe) + YearLength(yoe)
    ensures yoe == 399 ==> YearStart(yoe) + YearLength(yoe) == 146097 && YearStart(0) == 0
  {
    YearDigitsOf(yoe);
    if yoe < 399 { YearDigitsOf(yoe + 1); }
  }

  /** The day after in March coordinates: the next day, month, year or era. */
  lemma NextMarch(era: int, yoe: int, mp: int, day: int) returns (era': int, yoe': int, mp': int, day': int)
    requires March(era, yoe, mp, day)
    ensures March(era', yoe', mp', day')
    ensures Next(FromMarch(era, yoe, mp, day)) == FromMarch(era', yoe', mp', day')
    ensures MarchDay(era', yoe', mp', day') == MarchDay(era, yoe, mp, day) + 1
  {
    hide YearStart, YearLength, DaysIn, MonthStart;
    MarchValid(era, yoe, mp, day);
    if March(era, yoe, mp, day + 1) {
      era', yoe', mp', day' := era, yoe, mp, day + 1;
    } else if mp < 11 {
      MonthsAreLong(mp + 1);
      LongYears(yoe);
      era', yoe', mp', day' := era, yoe, mp + 1, 1;
    } else {
      YearStep(yoe);
      MonthsAreLong(0);
      mp', day' := 0, 1;
      if yoe < 399 { era', yoe' := era, yoe + 1; } else { era', yoe' := era + 1, 0; }
    }
  }

  lemma LongYears(yoe: int)
    ensures YearLength(yoe) >= 365
  {
  }

  lemma MonthsAreLong(mp: int)
    requires 0 <= mp <= 11
    ensures mp < 11 ==> MonthStart(mp + 1) - MonthStart(mp) >= 28
    ensures MonthStart(0) == 0 && MonthStart(11) == 337
  {
    if mp < 11 { MonthLengths(mp, 0); }
  }

  /** The calendar's own successor is one day more, across months, years and eras. */
  lemma NextDay(d: Date)
    requires ValidDate(d)
    ensures ValidDate(Next(d)) && DaysFromCivil(Next(d)) == DaysFromCivil(d) + 1
  {
    var era, yoe, mp := ToMarch(d);
    MarchToDays(era, yoe, mp, d.day);
    var era', yoe', mp', day' := NextMarch(era, yoe, mp, d.day);
    MarchRoundTrip(era', yoe', mp', day');
  }

  /** Day zero is the epoch; with `NextDay` that fixes every other day. */
  lemma Epoch()
    ensures DaysFromCivil(Date(1970, 1, 1)) == 0
  {
    FloorDivIsFloor(1969, 400);
  }
}
