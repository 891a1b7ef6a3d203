/**
  What the other modules share: an optional value, and the searches over
  text that the C library's `memchr` and the index loops of the sources do.
  A `string` stands for a run of bytes, one `char` to a byte.
 */
module Common {

  datatype Option<+T> = None | Some(value: T) {
    predicate IsFailure() { None? }

    function PropagateFailure<U>(): Option<U>
      requires None?
    { None }

    function Extract(): T
      requires Some?
    { value }
  }

  type Byte = b: int | 0 <= b < 256

  type Bytes = seq<Byte>

  function Fill(b: Byte, n: nat): (r: Bytes)
    ensures |r| == n && forall k :: 0 <= k < n ==> r[k] == b
  {
    seq(n, _ => b)
  }

  function Zeros(n: nat): (r: Bytes)
    ensures |r| == n && forall k :: 0 <= k < n ==> r[k] == 0
  { Fill(0, n) }

  const INT64_MAX := 0x7FFF_FFFF_FFFF_FFFF
  const INT64_MIN := -0x8000_0000_0000_0000
  const TWO64 := 0x1_0000_0000_0000_0000

  /** An `int64_t`: arithmetic on it is proved not to overflow wherever it is done. */
  newtype Int64 = n: int | INT64_MIN <= n <= INT64_MAX

  const MAX64: Int64 := 0x7FFF_FFFF_FFFF_FFFF
  const MIN64: Int64 := -0x8000_0000_0000_0000

  /** The number an `int64_t` holds. */
  function Wide(r: Option<Int64>): Option<int> { if r.Some? then Some(r.value as int) else None }

  function Min(a: int, b: int): int { if a < b then a else b }

  function Max(a: int, b: int): int { if a < b then b else a }

  /** The offset of the first `c` in `s`, or `|s|`. */
  function IndexOf(s: string, c: char): (i: nat)
    ensures i <= |s|
    ensures i < |s| ==> s[i] == c
    ensures c !in s[..i]
    ensures i == |s| <==> c !in s
  {
    if s == "" then 0
    else if s[0] == c then 0
    else
      var k := IndexOf(s[1..], c);
      assert s[..k + 1] == [s[0]] + s[1..][..k];
      k + 1
  }

  /** The first occurrence is where a text without the byte gives way to it. */
  lemma {:induction false} IndexOfConcat(a: string, c: char, b: string)
    requires c !in a
    ensures IndexOf(a + [c] + b, c) == |a|
  {
    var s := a + [c] + b;
    var i := IndexOf(s, c);
    assert s[|a|] == c;
    assert forall k :: 0 <= k < |a| ==> s[k] == a[k];
    assert forall k :: 0 <= k < i ==> s[k] == s[..i][k];
  }

  lemma IndexOfAbsent(s: string, c: char)
    requires c !in s
    ensures IndexOf(s, c) == |s|
  {
  }

  /** The text between occurrences of `c`, which is never an empty list. */
  function Split(s: string, c: char): (parts: seq<string>)
    ensures |parts| > 0
    decreases |s|
  {
    var i := IndexOf(s, c);
    if i == |s| then [s] else [s[..i]] + Split(s[i + 1..], c)
  }

  function Join(parts: seq<string>, sep: string): string
  {
    if |parts| == 0 then ""
    else if |parts| == 1 then parts[0]
    else parts[0] + sep + Join(parts[1..], sep)
  }

  lemma JoinOne(s: string, sep: string)
    ensures Join([s], sep) == s
  {
  }

  lemma JoinCons(first: string, rest: seq<string>, sep: string)
    requires rest != []
    ensures Join([first] + rest, sep) == first + sep + Join(rest, sep)
  {
    assert ([first] + rest)[1..] == rest;
  }

  /** Splitting loses nothing: the parts hold no separator and rejoin to the text. */
  lemma {:induction false} SplitJoins(s: string, c: char)
    ensures Join(Split(s, c), [c]) == s
    ensures forall p :: p in Split(s, c) ==> c !in p
    decreases |s|
  {
    hide Join;
    var i := IndexOf(s, c);
    if i == |s| {
      JoinOne(s, [c]);
    } else {
      var rest := Split(s[i + 1..], c);
      SplitJoins(s[i + 1..], c);
      assert s == s[..i] + [c] + s[i + 1..];
      JoinCons(s[..i], rest, [c]);
    }
  }

  lemma SplitNone(s: string, c: char)
    requires c !in s
    ensures Split(s, c) == [s]
  {
    IndexOfAbsent(s, c);
  }

  lemma {:induction false} SplitConcat(a: string, c: char, b: string)
    requires c !in a
    ensures Split(a + [c] + b, c) == [a] + Split(b, c)
  {
    IndexOfConcat(a, c, b);
    var s := a + [c] + b;
    assert s[..|a|] == a && s[|a| + 1..] == b;
  }

  /** Whether one sequence is a slice of another. */
  predicate Contains<T(==)>(s: seq<T>, pattern: seq<T>) {
    pattern <= s || (s != [] && Contains(s[1..], pattern))
  }

  lemma {:induction false} ContainsFits<T>(s: seq<T>, pattern: seq<T>)
    requires Contains(s, pattern)
    ensures |pattern| <= |s|
  {
    if !(pattern <= s) { ContainsFits(s[1..], pattern); }
  }

  predicate Distinct<T(==)>(s: seq<T>) { forall i, j :: 0 <= i < j < |s| ==> s[i] != s[j] }

  /** Division with remainder has one answer. */
  lemma Quotient(a: int, b: int, q: int, r: int)
    requires b > 0 && 0 <= r < b && a == q * b + r
    ensures a / b == q && a % b == r
  {
    var d := a / b - q;
    assert d * b == r - a % b;
    assert d >= 1 ==> d * b >= b;
    assert d <= -1 ==> d * b <= -b;
  }

  lemma Times(a: int, b: int, c: int)
    requires a <= b && c >= 0
    ensures a * c <= b * c
  {
    assert b * c == a * c + (b - a) * c;
  }

  /** A line without the carriage return that ends it. */
  function Chop(line: string): string {
    if line != "" && line[|line| - 1] == '\r' then line[..|line| - 1] else line
  }

  /** `str::lines`: what lies between line feeds, and nothing after the last. */
  function Lines(text: string): (r: seq<string>)
    ensures forall l :: l in r ==> '\n' !in l
    decreases |text|
  {
    var i := IndexOf(text, '\n');
    if i == |text| then if text == "" then [] else [text]
    else [Chop(text[..i])] + Lines(text[i + 1..])
  }

  lemma FirstLine(line: string, rest: string)
    requires '\n' !in line
    ensures Lines(line + ['\n'] + rest) == [Chop(line)] + Lines(rest)
  {
    hide Chop;
    var text := line + ['\n'] + rest;
    IndexOfConcat(line, '\n', rest);
    assert text[..|line|] == line && text[|line| + 1..] == rest;
  }
}
