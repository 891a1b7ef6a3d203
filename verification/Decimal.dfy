/**
  Integers as text: the checked 64-bit parser of conformance/c/value.c and the
  printf conversions that undo it.
 */
module Decimal {
  import opened Common

  predicate IsDigit(c: char) { '0' <= c <= '9' }

  predicate AllDigits(s: string) {
    forall i :: 0 <= i < |s| ==> IsDigit(s[i])
  }

  function DigitOf(c: char): (d: nat)
    requires IsDigit(c)
    ensures d < 10
  { c as int - '0' as int }

  function DigitChar(d: nat): (c: char)
    requires d < 10
    ensures IsDigit(c) && DigitOf(c) == d
  { ('0' as int + d) as char }

  /** The number a run of digits spells, the empty run spelling zero. */
  function Value(s: string): nat
    requires AllDigits(s)
  {
    if s == "" then 0 else Value(s[..|s| - 1]) * 10 + DigitOf(s[|s| - 1])
  }

  function Pow10(k: nat): (p: nat)
    ensures p > 0
  { if k == 0 then 1 else 10 * Pow10(k - 1) }

  lemma {:induction false} ValueMonotone(s: string, k: nat)
    requires AllDigits(s) && k <= |s|
    ensures Value(s[..k]) <= Value(s)
  {
    if k == |s| {
      assert s[..k] == s;
    } else {
      ValueMonotone(s[..|s| - 1], k);
      assert s[..|s| - 1][..k] == s[..k];
    }
  }

  lemma {:induction false} ValueBound(s: string)
    requires AllDigits(s)
    ensures Value(s) < Pow10(|s|)
  {
    if s != "" { ValueBound(s[..|s| - 1]); }
  }

  lemma ValueStep(s: string, k: nat)
    requires k < |s| && AllDigits(s[..k + 1])
    ensures AllDigits(s[..k]) && Value(s[..k + 1]) == Value(s[..k]) * 10 + DigitOf(s[k])
  {
    assert s[..k + 1][..k] == s[..k];
    assert s[..k + 1][k] == s[k];
    forall i | 0 <= i < k ensures IsDigit(s[..k][i]) { assert s[..k][i] == s[..k + 1][i]; }
  }

  // ---- reading ----

  /** Whether the text opens with a sign. */
  predicate HasSign(text: string) { |text| > 0 && (text[0] == '+' || text[0] == '-') }

  function Unsigned(text: string): string { if HasSign(text) then text[1..] else text }

  predicate IsNegative(text: string) { |text| > 0 && text[0] == '-' }

  /**
    What an integer literal means: an optional sign and at least one digit,
    whose value lies between `min` and `max`; no minus at all when `min` is 0.
   */
  function ReadInt(text: string, min: int, max: int): Option<int>
  {
    var body := Unsigned(text);
    if body == "" || !AllDigits(body) || (IsNegative(text) && min == 0) then None
    else
      var v := if IsNegative(text) then -(Value(body) as int) else Value(body);
      if min <= v <= max then Some(v) else None
  }

  /** One of the numbers a literal is made of: anything an int64 holds that is not negative. */
  function ReadDigits(text: string): Option<int> { ReadInt(text, 0, INT64_MAX) }

  function Wrap64(n: int): (u: nat)
    ensures u < TWO64
    ensures 0 <= n < TWO64 ==> u == n
  { n % TWO64 }

  /** A uint64_t read as an int64_t. */
  function ToInt64(u: nat): int
    requires u < TWO64
  { if u > INT64_MAX then u - TWO64 else u }

  /** The largest magnitude `ParseInt` means to admit, in uint64_t arithmetic. */
  function Limit(negative: bool, min: int, max: int): (limit: nat)
    ensures limit < TWO64
  {
    if negative then Wrap64(Wrap64(-(min + 1)) + 1) else Wrap64(max)
  }

  /** The digit loop of `parse_int` from byte `i` on, wrap-around included. */
  function Accumulate(s: string, i: nat, mag: nat, limit: nat): Option<nat>
    requires i <= |s|
    decreases |s| - i
  {
    if i == |s| then Some(mag)
    else if !IsDigit(s[i]) then None
    else if mag > Wrap64(limit - DigitOf(s[i])) / 10 then None
    else Accumulate(s, i + 1, Wrap64(mag * 10 + DigitOf(s[i])), limit)
  }

  lemma {:induction false} AccumulateBound(s: string, i: nat, mag: nat, limit: nat)
    requires i <= |s| && mag < TWO64
    ensures Accumulate(s, i, mag, limit).Some? ==> Accumulate(s, i, mag, limit).value < TWO64
    decreases |s| - i
  {
    if i < |s| && IsDigit(s[i]) {
      AccumulateBound(s, i + 1, Wrap64(mag * 10 + DigitOf(s[i])), limit);
    }
  }

  /** Exactly what `parse_int` computes, `limit - digit` below zero included. */
  function MachineInt(text: string, min: int, max: int): Option<int>
  {
    var body := Unsigned(text);
    var negative := IsNegative(text);
    if body == "" || (negative && min == 0) then None
    else
      match Accumulate(body, 0, 0, Limit(negative, min, max))
      case None => None
      case Some(mag) =>
        AccumulateBound(body, 0, 0, Limit(negative, min, max));
        Some(if negative then -ToInt64(Wrap64(mag - 1)) - 1 else ToInt64(mag))
  }

  /** With room for any digit below the limit the loop never wraps and is exact. */
  lemma {:induction false} AccumulateExact(s: string, i: nat, limit: nat)
    requires i <= |s| && 9 <= limit < TWO64
    requires AllDigits(s[..i]) && Value(s[..i]) <= limit
    ensures Accumulate(s, i, Value(s[..i]), limit)
         == if AllDigits(s) && Value(s) <= limit then Some(Value(s)) else None
    decreases |s| - i
  {
    if i == |s| {
      assert s[..i] == s;
    } else if IsDigit(s[i]) {
      var longer := s[..i + 1];
      forall k | 0 <= k < |longer| ensures IsDigit(longer[k]) {
        if k < i { assert s[..i][k] == s[k]; }
      }
      ValueStep(s, i);
      if Value(s[..i + 1]) <= limit {
        AccumulateExact(s, i + 1, limit);
      } else if AllDigits(s) {
        ValueMonotone(s, i + 1);
      }
    }
  }

  predicate Int64Range(min: int, max: int) { INT64_MIN <= min <= 0 <= max <= INT64_MAX }

  /** A range in which every single digit, on either side of zero, is in range. */
  predicate HoldsEveryDigit(min: int, max: int) { 9 <= max && (min == 0 || min <= -9) }

  lemma MachineIntExact(text: string, min: int, max: int)
    requires Int64Range(min, max) && HoldsEveryDigit(min, max)
    ensures MachineInt(text, min, max) == ReadInt(text, min, max)
  {
    var body := Unsigned(text);
    var negative := IsNegative(text);
    if body != "" && !(negative && min == 0) {
      var limit := Limit(negative, min, max);
      assert limit == if negative then -min else max;
      assert body[..0] == "";
      AccumulateExact(body, 0, limit);
    }
  }

  /**
    The range check is right for every text exactly when the range holds every
    single digit: below that `limit - digit` wraps and lets a digit through.
   */
  lemma MachineIntExactIff(min: int, max: int)
    requires Int64Range(min, max)
    ensures (forall text :: MachineInt(text, min, max) == ReadInt(text, min, max))
       <==> HoldsEveryDigit(min, max)
  {
    if HoldsEveryDigit(min, max) {
      forall text ensures MachineInt(text, min, max) == ReadInt(text, min, max) {
        MachineIntExact(text, min, max);
      }
    } else if max < 9 {
      OneDigitOver(max + 1, false, min, max);
    } else {
      OneDigitOver(1 - min, true, min, max);
    }
  }

  /** The digit one past a narrow range is accepted. */
  lemma OneDigitOver(d: nat, negative: bool, min: int, max: int)
    requires Int64Range(min, max) && d <= 9
    requires if negative then min != 0 && d == 1 - min else d == max + 1
    ensures exists text :: MachineInt(text, min, max) != ReadInt(text, min, max)
  {
    var body := [DigitChar(d)];
    var text := if negative then "-" + body else body;
    assert Unsigned(text) == body;
    var limit := Limit(negative, min, max);
    assert limit == d - 1;
    assert Wrap64(limit - d) == TWO64 - 1;
    assert Accumulate(body, 1, d, limit) == Some(d);
    assert Accumulate(body, 0, 0, limit) == Some(d);
    assert body[..0] == "";
    assert Value(body) == d;
    assert MachineInt(text, min, max).Some?;
    assert ReadInt(text, min, max) == None;
  }

  /** The digit loop of `parse_int`, its magnitude held in a uint64_t. */
  method DigitLoop(text: string, start: nat, limit: nat) returns (r: Option<nat>)
    requires start <= |text| && limit < TWO64
    ensures r == Accumulate(text[start..], 0, 0, limit)
    ensures r.Some? ==> r.value < TWO64
  {
    ghost var body := text[start..];
    var i, mag: nat := start, 0;
    while i < |text|
      invariant start <= i <= |text|
      invariant mag < TWO64
      invariant Accumulate(body, i - start, mag, limit) == Accumulate(body, 0, 0, limit)
    {
      assert body[i - start] == text[i];
      if text[i] < '0' || text[i] > '9' { return None; }
      var digit := DigitOf(text[i]);
      if mag > Wrap64(limit - digit) / 10 { return None; }
      mag := Wrap64(mag * 10 + digit);
      i := i + 1;
    }
    r := Some(mag);
  }

  /** `parse_int`. */
  method ParseInt(text: string, min: int, max: int) returns (r: Option<int>)
    ensures r == MachineInt(text, min, max)
    ensures Int64Range(min, max) && HoldsEveryDigit(min, max) ==> r == ReadInt(text, min, max)
  {
    if Int64Range(min, max) && HoldsEveryDigit(min, max) {
      MachineIntExact(text, min, max);
    }
    if |text| == 0 { return None; }
    var i: nat := 0;
    var negative := false;
    if text[0] == '+' || text[0] == '-' {
      negative := text[0] == '-';
      if negative && min == 0 { return None; }
      i := 1;
    }
    if i == |text| { return None; }
    assert text[i..] == Unsigned(text);
    var limit := if negative then Wrap64(Wrap64(-(min + 1)) + 1) else Wrap64(max);
    var mag := DigitLoop(text, i, limit);
    if mag == None { return None; }
    r := Some(if negative then -ToInt64(Wrap64(mag.value - 1)) - 1 else ToInt64(mag.value));
  }

  /** `digits`: a run inside a larger literal. */
  method Digits(text: string) returns (r: Option<Int64>)
    ensures Wide(r) == ReadDigits(text)
    ensures r.Some? ==> r.value >= 0
  {
    var n := ParseInt(text, 0, INT64_MAX);
    r := if n.Some? then Some(n.value as Int64) else None;
  }

  lemma ReadDigitsPlain(s: string)
    requires s != "" && AllDigits(s) && Value(s) <= INT64_MAX
    ensures ReadDigits(s) == Some(Value(s))
  {
    assert IsDigit(s[0]);
  }

  // ---- writing ----

  /** `%d` of a natural number. */
  function Dec(n: nat): (s: string)
    ensures s != "" && AllDigits(s) && Value(s) == n
  {
    if n < 10 then
      var s := [DigitChar(n)];
      assert s[..0] == "";
      s
    else
      var front := Dec(n / 10);
      var s := front + [DigitChar(n % 10)];
      assert s[..|s| - 1] == front;
      s
  }

  lemma {:induction false} DecLength(n: nat, w: nat)
    requires w > 0 && n < Pow10(w)
    ensures |Dec(n)| <= w
  {
    if n >= 10 {
      assert Pow10(w) == 10 * Pow10(w - 1);
      DecLength(n / 10, w - 1);
    }
  }

  function Zeros(k: nat): (s: string)
    ensures |s| == k && AllDigits(s) && Value(s) == 0
  {
    if k == 0 then ""
    else
      var s := Zeros(k - 1) + "0";
      assert s[..|s| - 1] == Zeros(k - 1);
      s
  }

  lemma {:induction false} ValueZeros(k: nat, s: string)
    requires AllDigits(s)
    ensures AllDigits(Zeros(k) + s) && Value(Zeros(k) + s) == Value(s)
  {
    var t := Zeros(k) + s;
    if s == "" {
      assert t == Zeros(k);
    } else {
      ValueZeros(k, s[..|s| - 1]);
      assert t[..|t| - 1] == Zeros(k) + s[..|s| - 1];
    }
  }

  /** `%0*d`: zeros in front up to the width, and never a digit lost. */
  function Padded(n: nat, w: nat): (s: string)
    ensures s != "" && AllDigits(s) && Value(s) == n && |s| >= w
  {
    var s := Dec(n);
    if |s| < w then ValueZeros(w - |s|, s); Zeros(w - |s|) + s else s
  }

  lemma PaddedWidth(n: nat, w: nat)
    requires w > 0 && n < Pow10(w)
    ensures |Padded(n, w)| == w
  {
    DecLength(n, w);
  }

  lemma ReadPadded(n: nat, w: nat)
    requires n <= INT64_MAX
    ensures ReadDigits(Padded(n, w)) == Some(n)
  {
    ReadDigitsPlain(Padded(n, w));
  }

  lemma ReadDec(n: nat)
    requires n <= INT64_MAX
    ensures ReadDigits(Dec(n)) == Some(n)
  {
    ReadDigitsPlain(Dec(n));
  }

  /** `PRId64`. */
  function PrintInt(v: int): string { if v < 0 then "-" + Dec(-v) else Dec(v) }

  /** Every int64, INT64_MIN included, reads back from what is printed. */
  lemma IntRoundTrip(v: int)
    requires INT64_MIN <= v <= INT64_MAX
    ensures ReadInt(PrintInt(v), INT64_MIN, INT64_MAX) == Some(v)
  {
    if v < 0 {
      assert Unsigned(PrintInt(v)) == Dec(-v);
    } else {
      assert IsDigit(Dec(v)[0]);
    }
  }
}
