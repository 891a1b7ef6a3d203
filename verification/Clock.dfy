/**
  Dates, times of day, zone offsets and datetimes as text, after
  conformance/c/value.c. The `Read` functions say what a text means; the
  `Parse` methods are the source's scanners, proved to compute them.
 */
module Clock {
  import opened Common
  import opened Decimal
  import opened Calendar

  const NANOS_PER_SEC := 1_000_000_000
  const NANOS_PER_MINUTE := 60 * NANOS_PER_SEC
  const NANOS_PER_HOUR := 60 * NANOS_PER_MINUTE
  const NANOS_PER_DAY := 24 * NANOS_PER_HOUR
  const MAX_DAYS := INT64_MAX / NANOS_PER_DAY

  // ---- dates ----

  predicate WrittenYear(d: Date) { 1 <= d.year <= 9999 }

  /** The day a ten-byte date names. */
  function ReadDate(t: string): (r: Option<int>)
    ensures r.Some? ==> exists d :: ValidDate(d) && WrittenYear(d) && r.value == DaysFromCivil(d)
  {
    if |t| != 10 || t[4] != '-' || t[7] != '-' then None
    else
      var year :- ReadDigits(t[..4]);
      var month :- ReadDigits(t[5..7]);
      var day :- ReadDigits(t[8..]);
      var d := Date(year, month, day);
      if WrittenYear(d) && ValidDate(d) then Some(DaysFromCivil(d)) else None
  }

  method ParseDate(t: string) returns (r: Option<int>)
    ensures r == ReadDate(t)
  {
    if |t| != 10 || t[4] != '-' || t[7] != '-' { return None; }
    var year := Digits(t[..4]);
    if year == None { return None; }
    var month := Digits(t[5..7]);
    if month == None { return None; }
    var day := Digits(t[8..]);
    if day == None { return None; }
    var y, m, d := year.value as int, month.value as int, day.value as int;
    if y < 1 || y > 9999 || m < 1 || m > 12 || d < 1 || d > DaysIn(y, m) { return None; }
    r := Some(DaysFromCivil(Date(y, m, d)));
  }

  /** `%04d-%02d-%02d`; a year below zero keeps its minus in front. */
  function DateText(days: int): string {
    var d := CivilFromDays(days);
    DaysRoundTrip(days);
    (if d.year < 0 then "-" + Padded(-d.year, 3) else Padded(d.year, 4))
      + "-" + Padded(d.month, 2) + "-" + Padded(d.day, 2)
  }

  lemma DateTextShape(days: int)
    requires WrittenYear(CivilFromDays(days))
    ensures |DateText(days)| == 10
    ensures forall i :: 0 <= i < 10 ==> IsDigit(DateText(days)[i]) || DateText(days)[i] == '-'
    ensures ReadDate(DateText(days)) == Some(days)
  {
    hide Padded, CivilFromDays, DaysFromCivil, ReadDigits;
    var d := CivilFromDays(days);
    DaysRoundTrip(days);
    assert Pow10(2) == 100 && Pow10(4) == 10000;
    var y, m, dd := Padded(d.year, 4), Padded(d.month, 2), Padded(d.day, 2);
    PaddedWidth(d.year, 4); PaddedWidth(d.month, 2); PaddedWidth(d.day, 2);
    var t := DateText(days);
    assert t == y + "-" + m + "-" + dd;
    assert t[..4] == y && t[5..7] == m && t[8..] == dd;
    ReadPadded(d.year, 4); ReadPadded(d.month, 2); ReadPadded(d.day, 2);
  }

  // ---- the zone ----

  predicate IsSign(c: char) { c == '+' || c == '-' }

  predicate EndsInZulu(t: string) { |t| > 0 && (t[|t| - 1] == 'Z' || t[|t| - 1] == 'z') }

  /** The offset of the first sign in `t`, or `|t|`. */
  function SignIndex(t: string): (i: nat)
    ensures i <= |t|
    ensures i < |t| ==> IsSign(t[i])
    ensures forall k :: 0 <= k < i ==> !IsSign(t[k])
  {
    if t == "" || IsSign(t[0]) then 0 else SignIndex(t[1..]) + 1
  }

  lemma SignIndexUnique(t: string, i: nat)
    requires i <= |t| && (i < |t| ==> IsSign(t[i]))
    requires forall k :: 0 <= k < i ==> !IsSign(t[k])
    ensures SignIndex(t) == i
  {
  }

  /** The hours and the minutes of an offset: `hh:mm`, `hhmm` or `hh`. */
  function OffsetParts(zone: string): (string, string) {
    var k := IndexOf(zone, ':');
    if k < |zone| then (zone[..k], zone[k + 1..])
    else if |zone| == 4 then (zone[..2], zone[2..])
    else (zone, "0")
  }

  /** The size of an offset in minutes. */
  function ReadOffset(zone: string): Option<int> {
    var (h, m) := OffsetParts(zone);
    var hours :- ReadDigits(h);
    var minutes :- ReadDigits(m);
    if hours > 18 || minutes > 59 then None else Some(hours * 60 + minutes)
  }

  /** A time's text before its zone, and the zone in minutes when one is written. */
  datatype Zoned = Zoned(body: string, zone: Option<int>)

  function ReadZone(t: string): Option<Zoned> {
    var k := SignIndex(t);
    if EndsInZulu(t) then Some(Zoned(t[..|t| - 1], Some(0)))
    else if k == |t| then Some(Zoned(t, None))
    else
      var size :- ReadOffset(t[k + 1..]);
      Some(Zoned(t[..k], Some(if t[k] == '-' then -size else size)))
  }

  /** The second half of `split_offset`: hours and minutes, checked. */
  method ParseOffset(zone: string) returns (r: Option<int>)
    ensures r == ReadOffset(zone)
  {
    hide ReadDigits;
    var colon := IndexOf(zone, ':');
    var hours, minutes;
    if colon < |zone| {
      hours := Digits(zone[..colon]);
      minutes := Digits(zone[colon + 1..]);
    } else if |zone| == 4 {
      hours := Digits(zone[..2]);
      minutes := Digits(zone[2..]);
    } else {
      hours := Digits(zone);
      minutes := Some(0);
      ReadZeroMinutes();
    }
    if hours == None || minutes == None { return None; }
    if hours.value > 18 || minutes.value > 59 { return None; }
    var offset := hours.value * 60 + minutes.value;
    r := Some(offset as int);
  }

  method SplitOffset(t: string) returns (r: Option<Zoned>)
    ensures r == ReadZone(t)
  {
    hide ReadOffset;
    if |t| > 0 && (t[|t| - 1] == 'Z' || t[|t| - 1] == 'z') {
      return Some(Zoned(t[..|t| - 1], Some(0)));
    }
    var sign := 0;
    while sign < |t|
      invariant sign <= |t|
      invariant forall k :: 0 <= k < sign ==> !IsSign(t[k])
    {
      if t[sign] == '+' || t[sign] == '-' { break; }
      sign := sign + 1;
    }
    SignIndexUnique(t, sign);
    if sign == |t| { return Some(Zoned(t, None)); }
    var negative := t[sign] == '-';
    var zone := t[sign + 1..];
    var size := ParseOffset(zone);
    if size == None { return None; }
    r := Some(Zoned(t[..sign], Some(if negative then -size.value else size.value)));
  }

  /** `Z` at zero, and otherwise a sign, two digits, a colon and two digits. */
  function OffsetText(offset: int): string {
    var size := if offset < 0 then -offset else offset;
    if offset == 0 then "Z"
    else (if offset < 0 then "-" else "+") + Padded(size / 60, 2) + ":" + Padded(size % 60, 2)
  }

  predicate ValidOffset(offset: int) { -(18 * 60 + 59) <= offset <= 18 * 60 + 59 }

  lemma OffsetRange(t: string)
    requires ReadZone(t).Some? && ReadZone(t).value.zone.Some?
    ensures ValidOffset(ReadZone(t).value.zone.value)
  {
  }

  /** The three spellings of an offset are one number of minutes. */
  lemma OffsetSpellings(h: nat, m: nat)
    requires h <= 18 && m <= 59
    ensures ReadOffset(Padded(h, 2) + ":" + Padded(m, 2)) == Some(h * 60 + m)
    ensures ReadOffset(Padded(h, 2) + Padded(m, 2)) == Some(h * 60 + m)
    ensures ReadOffset(Padded(h, 2)) == Some(h * 60)
  {
    hide Padded, ReadDigits;
    assert Pow10(2) == 100;
    PaddedWidth(h, 2); PaddedWidth(m, 2); ReadPadded(h, 2); ReadPadded(m, 2);
    var hh, mm := Padded(h, 2), Padded(m, 2);
    NoColon(hh); NoColon(mm);
    IndexOfConcat(hh, ':', mm);
    var full, packed := hh + ":" + mm, hh + mm;
    assert full[..2] == hh && full[3..] == mm;
    assert packed[..2] == hh && packed[2..] == mm;
    IndexOfAbsent(packed, ':'); IndexOfAbsent(hh, ':');
    ReadZeroMinutes();
  }

  lemma ReadZeroMinutes()
    ensures ReadDigits("0") == Some(0)
  {
    ReadDigitsPlain("0");
  }

  lemma NoColon(s: string)
    requires AllDigits(s)
    ensures ':' !in s && '.' !in s && forall k :: 0 <= k < |s| ==> !IsSign(s[k])
  {
  }

  predicate Signless(s: string) { forall k :: 0 <= k < |s| ==> !IsSign(s[k]) }

  /** A written zone comes off the end of any body that holds no sign. */
  lemma ReadZoneText(body: string, offset: int)
    requires Signless(body) && ValidOffset(offset)
    ensures ReadZone(body + OffsetText(offset)) == Some(Zoned(body, Some(offset)))
  {
    hide Padded, ReadOffset;
    var text := OffsetText(offset);
    var t := body + text;
    if offset == 0 {
      assert t[..|t| - 1] == body;
    } else {
      var size := if offset < 0 then -offset else offset;
      assert size == (size / 60) * 60 + size % 60;
      OffsetSpellings(size / 60, size % 60);
      var zone := Padded(size / 60, 2) + ":" + Padded(size % 60, 2);
      assert text == [text[0]] + zone;
      SignIndexUnique(t, |body|);
      assert t[..|body|] == body && t[|body| + 1..] == zone;
      assert IsDigit(Padded(size % 60, 2)[|Padded(size % 60, 2)| - 1]);
      assert t[|t| - 1] == Padded(size % 60, 2)[|Padded(size % 60, 2)| - 1];
    }
  }

  // ---- the time of day ----

  /** `ss` or `ss.fff`: whole seconds, and nanoseconds. */
  function ReadSeconds(t: string): Option<(int, int)> {
    var parts := Split(t, '.');
    if |parts| == 1 then
      var s :- ReadDigits(t);
      Some((s, 0))
    else if |parts| == 2 && 1 <= |parts[1]| <= 9 then
      var s :- ReadDigits(parts[0]);
      var frac :- ReadDigits(parts[1]);
      Some((s, frac * Pow10(9 - |parts[1]|)))
    else None
  }

  /** A byte no integer literal holds. */
  lemma NotDigits(t: string, c: char)
    requires c in t && !IsDigit(c) && !IsSign(c)
    ensures ReadDigits(t) == None
  {
    var k :| 0 <= k < |t| && t[k] == c;
    if HasSign(t) {
      assert Unsigned(t)[k - 1] == c;
    }
  }

  lemma SplitTwo(t: string, c: char)
    ensures var i := IndexOf(t, c);
            var parts := Split(t, c);
            (|parts| == 1 <==> i == |t|)
            && (i == |t| ==> parts == [t])
            && (i < |t| ==> parts == [t[..i]] + Split(t[i + 1..], c)
                            && (|parts| == 2 <==> c !in t[i + 1..])
                            && (|parts| == 2 ==> parts[1] == t[i + 1..]))
  {
    hide Split, IndexOf;
    SplitOnce(t, c);
    var i := IndexOf(t, c);
    if i < |t| { SplitOnce(t[i + 1..], c); }
  }

  lemma SplitOnce(t: string, c: char)
    ensures var i := IndexOf(t, c);
            Split(t, c) == if i == |t| then [t] else [t[..i]] + Split(t[i + 1..], c)
  {
    hide IndexOf;
  }

  method ParseSeconds(t: string) returns (r: Option<(int, int)>)
    ensures r == ReadSeconds(t)
  {
    hide ReadDigits, Split;
    SplitTwo(t, '.');
    var dot := IndexOf(t, '.');
    var nanos: Int64 := 0;
    if dot < |t| {
      var part := t[dot + 1..];
      if '.' in part { NotDigits(part, '.'); }
      var len := |part|;
      if len == 0 || len > 9 { return None; }
      var frac := Digits(part);
      if frac == None { return None; }
      ReadDigitsBound(part);
      var scale: Int64 := 1;
      for i := len to 9
        invariant scale as int == Pow10(i - len)
      {
        ScaledFraction(0, 9);
        PowersGrow(i - len, 8);
        scale := scale * 10;
      }
      ScaledFraction(frac.value as int, len);
      nanos := frac.value * scale;
    }
    var second := Digits(t[..dot]);
    assert dot == |t| ==> t[..dot] == t;
    if second == None { return None; }
    r := Some((second.value as int, nanos as int));
  }

  /** `hh:mm` or `hh:mm:ss[.fffffffff]`, as nanoseconds since midnight. */
  function ReadClock(body: string): Option<int> {
    var parts := Split(body, ':');
    if |parts| != 2 && |parts| != 3 then None
    else
      var hour :- ReadDigits(parts[0]);
      var minute :- ReadDigits(parts[1]);
      var (sec, nanos) :- if |parts| == 3 then ReadSeconds(parts[2]) else Some((0, 0));
      if hour > 23 || minute > 59 || sec > 59 then None
      else Some(hour * NANOS_PER_HOUR + minute * NANOS_PER_MINUTE + sec * NANOS_PER_SEC + nanos)
  }

  datatype Time = Time(nanos: int, zone: Option<int>)

  function ReadTime(t: string): Option<Time> {
    var z :- ReadZone(t);
    var nanos :- ReadClock(z.body);
    Some(Time(nanos, z.zone))
  }

  /** The nanoseconds of the day, every product and sum of them an `int64_t`. */
  function OfDay(hour: Int64, minute: Int64, sec: Int64, nanos: Int64): (r: Int64)
    requires 0 <= hour <= 23 && 0 <= minute <= 59 && 0 <= sec <= 59 && 0 <= nanos < NANOS_PER_SEC as Int64
    ensures r as int == hour as int * NANOS_PER_HOUR + minute as int * NANOS_PER_MINUTE
                        + sec as int * NANOS_PER_SEC + nanos as int
    ensures 0 <= r < NANOS_PER_DAY as Int64
  {
    hour * NANOS_PER_HOUR as Int64 + minute * NANOS_PER_MINUTE as Int64
    + sec * NANOS_PER_SEC as Int64 + nanos
  }

  /** A text by where its colons are, as the scan for them finds it. */
  lemma Colons(body: string)
    ensures var first := IndexOf(body, ':');
            var parts := Split(body, ':');
            (first == |body| <==> |parts| == 1)
            && (first < |body| ==>
                  var rest := body[first + 1..];
                  var second := IndexOf(rest, ':');
                  parts[0] == body[..first]
                  && parts[1] == rest[..second]
                  && (second == |rest| <==> |parts| == 2)
                  && (second < |rest| ==>
                        (|parts| == 3 <==> ':' !in rest[second + 1..])
                        && (|parts| == 3 ==> parts[2] == rest[second + 1..])))
  {
    hide Split, IndexOf;
    SplitTwo(body, ':');
    var first := IndexOf(body, ':');
    if first < |body| {
      var rest := body[first + 1..];
      SplitTwo(rest, ':');
      var tail := Split(rest, ':');
      assert Split(body, ':') == [body[..first]] + tail;
      assert |Split(body, ':')| == 1 + |tail| && Split(body, ':')[1] == tail[0];
    }
  }

  method ParseClock(body: string) returns (r: Option<int>)
    ensures r == ReadClock(body)
  {
    hide ReadDigits, ReadSeconds, Split, IndexOf;
    Colons(body);
    var first := IndexOf(body, ':');
    if first == |body| { return None; }
    var hour := Digits(body[..first]);
    if hour == None { return None; }
    var rest := body[first + 1..];
    var second := IndexOf(rest, ':');
    var minute := Digits(rest[..second]);
    if minute == None { return None; }
    var seconds: Option<(int, int)> := Some((0, 0));
    if second < |rest| {
      var part := rest[second + 1..];
      if IndexOf(part, ':') < |part| { return None; }
      seconds := ParseSeconds(part);
      if seconds == None { return None; }
      ReadSecondsRange(part);
    }
    var (sec, nanos) := (seconds.value.0 as Int64, seconds.value.1 as Int64);
    if hour.value > 23 || minute.value > 59 || sec > 59 { return None; }
    r := Some(OfDay(hour.value, minute.value, sec, nanos) as int);
  }

  method ParseTime(t: string) returns (r: Option<Time>)
    ensures r == ReadTime(t)
  {
    var z := SplitOffset(t);
    if z == None { return None; }
    var nanos := ParseClock(z.value.body);
    if nanos == None { return None; }
    r := Some(Time(nanos.value, z.value.zone));
  }

  function SecondsText(sec: nat, frac: nat): string {
    Padded(sec, 2) + if frac != 0 then "." + Padded(frac, 9) else ""
  }

  /** A time of day in its written parts. */
  datatype Hands = Hands(hour: nat, minute: nat, sec: nat, frac: nat) {
    predicate Valid() { hour <= 23 && minute <= 59 && sec <= 59 && frac < NANOS_PER_SEC }

    function Nanos(): int {
      hour * NANOS_PER_HOUR + minute * NANOS_PER_MINUTE + sec * NANOS_PER_SEC + frac
    }

    function Text(): string { Padded(hour, 2) + ":" + Padded(minute, 2) + ":" + SecondsText(sec, frac) }
  }

  function HandsAt(n: nat): Hands {
    Hands(n / NANOS_PER_HOUR, n / NANOS_PER_MINUTE % 60, n / NANOS_PER_SEC % 60, n % NANOS_PER_SEC)
  }

  function TimeText(nanos: int): string {
    FloorDivIsFloor(nanos, NANOS_PER_DAY);
    HandsAt(FloorMod(nanos, NANOS_PER_DAY)).Text()
  }

  lemma ReadDigitsBound(t: string)
    ensures ReadDigits(t).Some? ==> 0 <= ReadDigits(t).value <= INT64_MAX
    ensures ReadDigits(t).Some? ==> ReadDigits(t).value < Pow10(|t|)
  {
    if ReadDigits(t).Some? {
      ValueBound(Unsigned(t));
      if HasSign(t) { assert Pow10(|t|) == 10 * Pow10(|t| - 1); }
    }
  }

  lemma {:induction false} Pow10Add(a: nat, b: nat)
    ensures Pow10(a) * Pow10(b) == Pow10(a + b)
  {
    if a > 0 {
      Pow10Add(a - 1, b);
      assert Pow10(a) * Pow10(b) == 10 * (Pow10(a - 1) * Pow10(b));
    }
  }

  lemma Pow10Nine()
    ensures Pow10(9) == NANOS_PER_SEC
  {
    Pow10Add(4, 4);
    assert Pow10(4) == 10000;
  }

  lemma ScaledFraction(frac: nat, k: nat)
    requires k <= 9 && frac < Pow10(k)
    ensures 0 <= frac * Pow10(9 - k) < NANOS_PER_SEC
  {
    Pow10Add(k, 9 - k);
    Pow10Nine();
    assert frac * Pow10(9 - k) < Pow10(k) * Pow10(9 - k);
  }

  /** What is read is a time within one day. */
  lemma ReadClockRange(body: string)
    ensures ReadClock(body).Some? ==> 0 <= ReadClock(body).value < NANOS_PER_DAY
  {
    hide ReadDigits, ReadSeconds;
    if ReadClock(body).Some? {
      var parts := Split(body, ':');
      ReadDigitsBound(parts[0]);
      ReadDigitsBound(parts[1]);
      if |parts| == 3 { ReadSecondsRange(parts[2]); }
    }
  }

  lemma TimeInDay(t: string)
    ensures ReadTime(t).Some? ==> 0 <= ReadTime(t).value.nanos < NANOS_PER_DAY
  {
    hide ReadClock, ReadZone;
    if ReadTime(t).Some? { ReadClockRange(ReadZone(t).value.body); }
  }

  lemma {:induction false} PowersGrow(k: nat, n: nat)
    requires k <= n
    ensures Pow10(k) <= Pow10(n)
  {
    if k < n { PowersGrow(k, n - 1); }
  }

  lemma ReadSecondsRange(t: string)
    ensures ReadSeconds(t).Some? ==> 0 <= ReadSeconds(t).value.0 <= INT64_MAX
    ensures ReadSeconds(t).Some? ==> 0 <= ReadSeconds(t).value.1 < NANOS_PER_SEC
  {
    hide ReadDigits;
    if ReadSeconds(t).Some? {
      ReadDigitsBound(t);
      var parts := Split(t, '.');
      ReadDigitsBound(parts[0]);
      if |parts| == 2 {
        ReadDigitsBound(parts[1]);
        ScaledFraction(ReadDigits(parts[1]).value, |parts[1]|);
      }
    }
  }

  lemma ReadSecondsText(sec: nat, frac: nat)
    requires sec < 60 && frac < NANOS_PER_SEC
    ensures ReadSeconds(SecondsText(sec, frac)) == Some((sec, frac))
    ensures ':' !in SecondsText(sec, frac) && Signless(SecondsText(sec, frac))
    ensures |SecondsText(sec, frac)| > 0
    ensures IsDigit(SecondsText(sec, frac)[|SecondsText(sec, frac)| - 1])
  {
    hide Padded, ReadDigits;
    var s, f := Padded(sec, 2), Padded(frac, 9);
    var t := SecondsText(sec, frac);
    NoColon(s); NoColon(f);
    ReadPadded(sec, 2);
    if frac == 0 {
      assert t == s;
      SplitNone(s, '.');
    } else {
      assert t == s + ['.'] + f;
      SplitConcat(s, '.', f);
      SplitNone(f, '.');
      ScaledFraction(0, 9);
      Pow10Nine();
      PaddedWidth(frac, 9);
      ReadPadded(frac, 9);
      assert Pow10(0) == 1;
    }
  }

  lemma HandsOfDay(n: nat)
    requires n < NANOS_PER_DAY
    ensures HandsAt(n).Valid() && HandsAt(n).Nanos() == n
  {
    var s := n / NANOS_PER_SEC;
    var m := s / 60;
    assert n / NANOS_PER_MINUTE == m;
    assert n / NANOS_PER_HOUR == m / 60;
  }

  lemma HandsTextParts(c: Hands)
    requires c.Valid()
    ensures Split(c.Text(), ':') == [Padded(c.hour, 2), Padded(c.minute, 2), SecondsText(c.sec, c.frac)]
    ensures Signless(c.Text()) && |c.Text()| > 0 && IsDigit(c.Text()[|c.Text()| - 1])
  {
    hide Padded, ReadDigits, ReadSeconds, SecondsText, Split;
    var h, m, s := Padded(c.hour, 2), Padded(c.minute, 2), SecondsText(c.sec, c.frac);
    ReadSecondsText(c.sec, c.frac);
    NoColon(h); NoColon(m);
    var rest := m + [':'] + s;
    assert c.Text() == h + [':'] + rest;
    SplitConcat(h, ':', rest);
    SplitConcat(m, ':', s);
    SplitNone(s, ':');
  }

  lemma ReadHandsText(c: Hands)
    requires c.Valid()
    ensures ReadClock(c.Text()) == Some(c.Nanos())
  {
    hide Padded, ReadDigits, ReadSeconds, SecondsText, Split;
    ReadSecondsText(c.sec, c.frac);
    ReadPadded(c.hour, 2); ReadPadded(c.minute, 2);
    HandsTextParts(c);
  }

  lemma WithinDay(n: int)
    requires 0 <= n < NANOS_PER_DAY
    ensures FloorMod(n, NANOS_PER_DAY) == n
  {
    FloorDivIsFloor(n, NANOS_PER_DAY);
    Quotient(n, NANOS_PER_DAY, 0, n);
  }

  /** Every time of day is printed as text that reads back to it. */
  lemma ReadTimeText(n: int)
    requires 0 <= n < NANOS_PER_DAY
    ensures ReadClock(TimeText(n)) == Some(n)
    ensures Signless(TimeText(n)) && |TimeText(n)| > 0 && IsDigit(TimeText(n)[|TimeText(n)| - 1])
  {
    hide ReadClock, HandsAt, Hands.Nanos, Hands.Valid, Hands.Text, FloorMod;
    WithinDay(n);
    HandsOfDay(n);
    ReadHandsText(HandsAt(n));
    HandsTextParts(HandsAt(n));
  }

  // ---- both ----

  /** Where the date ends: the first `T`, else the first `t`, else the first space. */
  function DateBreak(t: string): (i: nat)
    ensures i <= |t|
  {
    if 'T' in t then IndexOf(t, 'T') else if 't' in t then IndexOf(t, 't') else IndexOf(t, ' ')
  }

  /** A datetime in its own zone: nanoseconds since the epoch; a bare date is midnight. */
  function ReadDatetime(t: string): Option<Time> {
    var i := DateBreak(t);
    var days :- ReadDate(t[..i]);
    var time :- if i < |t| then ReadTime(t[i + 1..]) else Some(Time(0, None));
    var n := days * NANOS_PER_DAY + time.nanos;
    if -MAX_DAYS <= days <= MAX_DAYS && n <= INT64_MAX then Some(Time(n, time.zone)) else None
  }

  method ParseDatetime(t: string) returns (r: Option<Time>)
    ensures r == ReadDatetime(t)
  {
    hide ReadDate, ReadTime, IndexOf;
    var split := IndexOf(t, 'T');
    if split == |t| { split := IndexOf(t, 't'); }
    if split == |t| { split := IndexOf(t, ' '); }
    assert split == DateBreak(t);
    var days := ParseDate(t[..split]);
    if days == None || days.value > MAX_DAYS || days.value < -MAX_DAYS { return None; }
    var time := Time(0, None);
    if split < |t| {
      var tod := ParseTime(t[split + 1..]);
      if tod == None { return None; }
      time := tod.value;
      TimeInDay(t[split + 1..]);
    }
    var midnight, nanos := days.value as Int64 * NANOS_PER_DAY as Int64, time.nanos as Int64;
    if midnight > MAX64 - nanos { return None; }
    var instant := midnight + nanos;
    r := Some(Time(instant as int, time.zone));
  }

  function DatetimeText(nanos: int): string {
    DateText(FloorDiv(nanos, NANOS_PER_DAY)) + "T" + TimeText(FloorMod(nanos, NANOS_PER_DAY))
  }

  /** The local instants a text can spell: whole days either side of 1970, up to INT64_MAX. */
  predicate LocalInstant(n: int) { -MAX_DAYS * NANOS_PER_DAY <= n <= INT64_MAX }

  /** Every day within reach of an int64 of nanoseconds has a four-digit year. */
  lemma NearYears(days: int)
    requires -MAX_DAYS <= days <= MAX_DAYS
    ensures WrittenYear(CivilFromDays(days))
  {
    hide FloorDiv, MonthOfYear, YearOfEra, YearStart, MonthStart, YearLength;
    var z := days + 719468;
    var era := z / 146097;
    FloorDivIsFloor(z, 146097);
    YearOfEraTotal(z % 146097);
    assert 4 <= era <= 5;
    assert z - era * 146097 == z % 146097;
  }

  lemma ReadDatetimeRange(t: string)
    ensures ReadDatetime(t).Some? ==> LocalInstant(ReadDatetime(t).value.nanos)
    ensures ReadDatetime(t).Some? && ReadDatetime(t).value.zone.Some? ==> ValidOffset(ReadDatetime(t).value.zone.value)
  {
    hide ReadDate, ReadClock, ReadZone;
    var i := DateBreak(t);
    if ReadDatetime(t).Some? && i < |t| {
      var z := ReadZone(t[i + 1..]).value;
      ReadClockRange(z.body);
      if z.zone.Some? { OffsetRange(t[i + 1..]); }
    }
  }

  /** A printed instant, followed by any time zone text, splits where it was joined. */
  lemma ReadDatetimeText(n: int, zone: string, z: Option<int>)
    requires LocalInstant(n)
    requires var tod := n % NANOS_PER_DAY; ReadZone(TimeText(tod) + zone) == Some(Zoned(TimeText(tod), z))
    ensures ReadDatetime(DatetimeText(n) + zone) == Some(Time(n, z))
  {
    hide ReadZone, ReadClock, ReadDate, DateText, TimeText, FloorDiv, FloorMod, CivilFromDays, IndexOf;
    LocalDays(n);
    var days, tod := FloorDiv(n, NANOS_PER_DAY), FloorMod(n, NANOS_PER_DAY);
    NearYears(days);
    DateTextShape(days);
    ReadTimeText(tod);
    var date, time := DateText(days), TimeText(tod) + zone;
    var t := DatetimeText(n) + zone;
    assert t == date + ['T'] + time;
    assert 'T' !in date;
    IndexOfConcat(date, 'T', time);
    assert t[|date|] == 'T';
    assert t[..|date|] == date && t[|date| + 1..] == time;
  }

  lemma LocalDays(n: int)
    requires LocalInstant(n)
    ensures -MAX_DAYS <= FloorDiv(n, NANOS_PER_DAY) <= MAX_DAYS
    ensures 0 <= FloorMod(n, NANOS_PER_DAY) < NANOS_PER_DAY
    ensures FloorMod(n, NANOS_PER_DAY) == n % NANOS_PER_DAY
    ensures n == FloorDiv(n, NANOS_PER_DAY) * NANOS_PER_DAY + FloorMod(n, NANOS_PER_DAY)
  {
    FloorDivIsFloor(n, NANOS_PER_DAY);
  }
}
