/**
  The seven temporal units of conformance/c/value.h: `parse_temporal`, the text
  each value is shown as, and the proof that the one undoes the other.
 */
module Temporal {
  import opened Common
  import opened Decimal
  import opened Calendar
  import opened Clock
  import opened Duration

  datatype Unit = DATE | LOCALTIME | ZONEDTIME | LOCALDATETIME | ZONEDDATETIME | YEARMONTH | DAYTIME {
    predicate IsDuration() { YEARMONTH? || DAYTIME? }

    /** One type name stands for the two kinds of duration. */
    predicate SameType(that: Unit) { this == that || (IsDuration() && that.IsDuration()) }
  }

  datatype Temporal = Temporal(unit: Unit, count: int, offset: int)

  function OfSpan(s: Span): Temporal {
    match s
    case Months(n) => Temporal(YEARMONTH, n, 0)
    case Nanos(n) => Temporal(DAYTIME, n, 0)
  }

  function ToSpan(v: Temporal): Span
    requires v.unit.IsDuration()
  {
    if v.unit.YEARMONTH? then Months(v.count) else Nanos(v.count)
  }

  predicate FitsInt64(n: int) { INT64_MIN <= n <= INT64_MAX }

  /** What a text means as a value of the type `want` names. */
  function ReadTemporal(want: Unit, t: string): Option<Temporal> {
    match want
    case DATE =>
      var days :- ReadDate(t);
      Some(Temporal(DATE, days, 0))
    case LOCALTIME =>
      var time :- ReadTime(t);
      if time.zone.Some? then None else Some(Temporal(LOCALTIME, time.nanos, 0))
    case ZONEDTIME =>
      var time :- ReadTime(t);
      Some(Temporal(ZONEDTIME, time.nanos, Minutes(time.zone)))
    case LOCALDATETIME =>
      var time :- ReadDatetime(t);
      if time.zone.Some? then None else Some(Temporal(LOCALDATETIME, time.nanos, 0))
    case ZONEDDATETIME =>
      var time :- ReadDatetime(t);
      var instant := time.nanos - Minutes(time.zone) * NANOS_PER_MINUTE;
      if FitsInt64(instant) then Some(Temporal(ZONEDDATETIME, instant, Minutes(time.zone))) else None
    case _ =>
      var span :- ReadDuration(t);
      Some(OfSpan(span))
  }

  /** A zoned type reads a text with no zone as UTC. */
  function Minutes(zone: Option<int>): int { if zone.Some? then zone.value else 0 }

  method ParseTemporal(want: Unit, t: string) returns (r: Option<Temporal>)
    ensures r == ReadTemporal(want, t)
  {
    hide ReadDate, ReadTime, ReadDatetime, ReadDuration;
    match want {
      case DATE =>
        var days := ParseDate(t);
        if days == None { return None; }
        r := Some(Temporal(DATE, days.value, 0));
      case LOCALTIME =>
        var time := ParseTime(t);
        if time == None || time.value.zone.Some? { return None; }
        r := Some(Temporal(LOCALTIME, time.value.nanos, 0));
      case ZONEDTIME =>
        var time := ParseTime(t);
        if time == None { return None; }
        r := Some(Temporal(ZONEDTIME, time.value.nanos, Minutes(time.value.zone)));
      case LOCALDATETIME =>
        var time := ParseDatetime(t);
        if time == None || time.value.zone.Some? { return None; }
        r := Some(Temporal(LOCALDATETIME, time.value.nanos, 0));
      case ZONEDDATETIME =>
        var time := ParseDatetime(t);
        if time == None { return None; }
        ReadDatetimeRange(t);
        var n, offset := time.value.nanos as Int64, Minutes(time.value.zone);
        var shift := offset as Int64 * NANOS_PER_MINUTE as Int64;
        if (shift > 0 && n < MIN64 + shift) || (shift < 0 && n > MAX64 + shift) { return None; }
        var instant := n - shift;
        r := Some(Temporal(ZONEDDATETIME, instant as int, offset));
      case _ =>
        var span := ParseDuration(t);
        if span == None { return None; }
        r := Some(OfSpan(span.value));
    }
  }

  // ---- text ----

  function MomentText(v: Temporal): string {
    match v.unit
    case DATE => DateText(v.count)
    case LOCALTIME => TimeText(v.count)
    case ZONEDTIME => TimeText(v.count) + OffsetText(v.offset)
    case LOCALDATETIME => DatetimeText(v.count)
    case ZONEDDATETIME => DatetimeText(v.count + v.offset * NANOS_PER_MINUTE) + OffsetText(v.offset)
    case _ => DurationText(ToSpan(v))
  }

  /** The values some text spells, in the terms of value.h. */
  predicate Representable(v: Temporal) {
    match v.unit
    case DATE => WrittenYear(CivilFromDays(v.count)) && v.offset == 0
    case LOCALTIME => 0 <= v.count < NANOS_PER_DAY && v.offset == 0
    case ZONEDTIME => 0 <= v.count < NANOS_PER_DAY && ValidOffset(v.offset)
    case LOCALDATETIME => LocalInstant(v.count) && v.offset == 0
    case ZONEDDATETIME =>
      FitsInt64(v.count) && ValidOffset(v.offset) && LocalInstant(v.count + v.offset * NANOS_PER_MINUTE)
    case _ => ValidSpan(ToSpan(v)) && v.offset == 0
  }

  lemma ReadBareTime(n: int)
    requires 0 <= n < NANOS_PER_DAY
    ensures ReadZone(TimeText(n)) == Some(Zoned(TimeText(n), None))
    ensures ReadTime(TimeText(n)) == Some(Time(n, None))
  {
    hide ReadClock, TimeText;
    ReadTimeText(n);
    SignIndexUnique(TimeText(n), |TimeText(n)|);
  }

  lemma ReadZonedTime(n: int, offset: int)
    requires 0 <= n < NANOS_PER_DAY && ValidOffset(offset)
    ensures ReadZone(TimeText(n) + OffsetText(offset)) == Some(Zoned(TimeText(n), Some(offset)))
    ensures ReadTime(TimeText(n) + OffsetText(offset)) == Some(Time(n, Some(offset)))
  {
    hide ReadClock, ReadZone, TimeText, OffsetText;
    ReadTimeText(n);
    ReadZoneText(TimeText(n), offset);
  }

  lemma ReadBareDatetime(n: int)
    requires LocalInstant(n)
    ensures ReadDatetime(DatetimeText(n)) == Some(Time(n, None))
  {
    hide ReadZone, ReadTime, TimeText, DatetimeText, ReadDatetime;
    var tod := n % NANOS_PER_DAY;
    ReadBareTime(tod);
    assert TimeText(tod) + "" == TimeText(tod);
    ReadDatetimeText(n, "", None);
    assert DatetimeText(n) + "" == DatetimeText(n);
  }

  lemma ReadZonedDatetime(n: int, offset: int)
    requires LocalInstant(n) && ValidOffset(offset)
    ensures ReadDatetime(DatetimeText(n) + OffsetText(offset)) == Some(Time(n, Some(offset)))
  {
    hide ReadZone, ReadTime, TimeText, DatetimeText, ReadDatetime;
    var tod := n % NANOS_PER_DAY;
    ReadZonedTime(tod, offset);
    ReadDatetimeText(n, OffsetText(offset), Some(offset));
  }

  /** Every value that some text spells is shown as text that reads back to it, unit, count and offset. */
  lemma TemporalRoundTrip(want: Unit, v: Temporal)
    requires Representable(v) && want.SameType(v.unit)
    ensures ReadTemporal(want, MomentText(v)) == Some(v)
  {
    hide ReadDate, ReadTime, ReadDatetime, ReadDuration, CivilFromDays;
    hide DateText, TimeText, OffsetText, DatetimeText, DurationText;
    match v.unit {
      case DATE => DateTextShape(v.count);
      case LOCALTIME => ReadBareTime(v.count);
      case ZONEDTIME => ReadZonedTime(v.count, v.offset);
      case LOCALDATETIME => ReadBareDatetime(v.count);
      case ZONEDDATETIME => ReadZonedDatetime(v.count + v.offset * NANOS_PER_MINUTE, v.offset);
      case _ => DurationRoundTrip(ToSpan(v));
    }
  }

  lemma ReadDateRange(t: string)
    ensures ReadDate(t).Some? ==> WrittenYear(CivilFromDays(ReadDate(t).value))
  {
    hide CivilFromDays, DaysFromCivil;
    if ReadDate(t).Some? {
      var d :| ValidDate(d) && WrittenYear(d) && ReadDate(t).value == DaysFromCivil(d);
      DateRoundTrip(d);
    }
  }

  lemma ReadTimeRange(t: string)
    ensures ReadTime(t).Some? ==> 0 <= ReadTime(t).value.nanos < NANOS_PER_DAY
    ensures ReadTime(t).Some? ==> ValidOffset(Minutes(ReadTime(t).value.zone))
  {
    hide ReadClock, ReadZone;
    if ReadTime(t).Some? {
      var z := ReadZone(t).value;
      ReadClockRange(z.body);
      if z.zone.Some? { OffsetRange(t); }
    }
  }

  /** Everything that can be read is representable and of the type asked for. */
  lemma ReadTemporalRange(want: Unit, t: string)
    ensures var r := ReadTemporal(want, t); r.Some? ==> Representable(r.value) && want.SameType(r.value.unit)
  {
    hide ReadDate, ReadTime, ReadDatetime, ReadDuration, CivilFromDays;
    match want {
      case DATE => ReadDateRange(t);
      case LOCALTIME => ReadTimeRange(t);
      case ZONEDTIME => ReadTimeRange(t);
      case LOCALDATETIME => ReadDatetimeRange(t);
      case ZONEDDATETIME => ReadDatetimeRange(t);
      case _ => ReadDurationRange(t);
    }
  }

  /** A value is spelled by some text exactly when it is in its unit's range. */
  lemma SpelledIffRepresentable(want: Unit, v: Temporal)
    ensures (exists t :: ReadTemporal(want, t) == Some(v)) <==> Representable(v) && want.SameType(v.unit)
  {
    hide ReadTemporal, Representable, MomentText;
    if Representable(v) && want.SameType(v.unit) {
      TemporalRoundTrip(want, v);
    } else {
      forall t ensures ReadTemporal(want, t) != Some(v) {
        ReadTemporalRange(want, t);
      }
    }
  }

  /** Whatever was read is shown as text that reads back to the same value, however it was spelled. */
  lemma ShowThenRead(want: Unit, t: string)
    requires ReadTemporal(want, t).Some?
    ensures ReadTemporal(want, MomentText(ReadTemporal(want, t).value)) == ReadTemporal(want, t)
  {
    hide ReadTemporal, Representable, MomentText;
    ReadTemporalRange(want, t);
    TemporalRoundTrip(want, ReadTemporal(want, t).value);
  }

  /** One instant written in two zones is one count, so the two values differ in offset alone. */
  lemma OneInstantTwoZones(n: int, a: int, b: int)
    requires FitsInt64(n) && ValidOffset(a) && ValidOffset(b)
    requires LocalInstant(n + a * NANOS_PER_MINUTE) && LocalInstant(n + b * NANOS_PER_MINUTE)
    ensures var first := ReadTemporal(ZONEDDATETIME, DatetimeText(n + a * NANOS_PER_MINUTE) + OffsetText(a));
            var second := ReadTemporal(ZONEDDATETIME, DatetimeText(n + b * NANOS_PER_MINUTE) + OffsetText(b));
            first.Some? && second.Some? && first.value.count == n == second.value.count
  {
    hide ReadTemporal, DatetimeText, OffsetText, LocalInstant;
    InstantInZone(n, a);
    InstantInZone(n, b);
  }

  lemma InstantInZone(n: int, offset: int)
    requires FitsInt64(n) && ValidOffset(offset) && LocalInstant(n + offset * NANOS_PER_MINUTE)
    ensures ReadTemporal(ZONEDDATETIME, DatetimeText(n + offset * NANOS_PER_MINUTE) + OffsetText(offset))
         == Some(Temporal(ZONEDDATETIME, n, offset))
  {
    hide ReadTemporal, DatetimeText, OffsetText, LocalInstant;
    TemporalRoundTrip(ZONEDDATETIME, Temporal(ZONEDDATETIME, n, offset));
  }

  /** No text spells a duration of INT64_MIN: one past what the digits may reach. */
  lemma NoTextForTheLeast(want: Unit, t: string)
    ensures ReadTemporal(want, t) != Some(Temporal(DAYTIME, INT64_MIN, 0))
    ensures ReadTemporal(want, t) != Some(Temporal(YEARMONTH, INT64_MIN, 0))
  {
    hide ReadTemporal;
    ReadTemporalRange(want, t);
  }
}
