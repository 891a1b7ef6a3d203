/**
  What crates/xtask/src/terms.rs takes out of a line before its words are read:
  code spans, the destinations of links and autolinks.
 */
module Strip {
  import opened Common

  // ---- runs of backticks ----

  /** The length of the run of backticks at an offset. */
  function Run(s: string, i: nat): (n: nat)
    requires i <= |s|
    ensures i + n <= |s| && (i + n < |s| ==> s[i + n] != '`')
    ensures forall k :: i <= k < i + n ==> s[k] == '`'
    decreases |s| - i
  { if i < |s| && s[i] == '`' then 1 + Run(s, i + 1) else 0 }

  /** A run of exactly `n` begins here. */
  predicate RunAt(s: string, i: int, n: nat) {
    0 <= i < |s| && s[i] == '`' && (i > 0 ==> s[i - 1] != '`') && Run(s, i) == n
  }

  function FindFrom(s: string, i: nat, n: nat): (r: Option<nat>)
    requires i <= |s|
    ensures r.Some? ==> i <= r.value && r.value + n <= |s|
    decreases |s| - i
  {
    if i == |s| then None
    else if s[i] != '`' then FindFrom(s, i + 1, n)
    else if Run(s, i) == n then Some(i)
    else FindFrom(s, i + Run(s, i), n)
  }

  /** The search finds the first run of exactly the length, and none only when there is none. */
  lemma {:induction false} FindFromIff(s: string, i: nat, n: nat)
    requires i <= |s| && (0 < i < |s| && s[i] == '`' ==> s[i - 1] != '`')
    ensures var r := FindFrom(s, i, n);
            match r
            case None => forall k :: i <= k ==> !RunAt(s, k, n)
            case Some(at) => RunAt(s, at, n) && forall k :: i <= k < at ==> !RunAt(s, k, n)
    decreases |s| - i
  {
    if i < |s| {
      if s[i] != '`' {
        FindFromIff(s, i + 1, n);
      } else if Run(s, i) != n {
        var j := i + Run(s, i);
        FindFromIff(s, j, n);
        forall k | i <= k < j
          ensures !RunAt(s, k, n)
        {
          if k > i {
            assert s[k - 1] == '`';
          }
        }
      }
    }
  }

  /** `find_run`. */
  method FindRun(s: string, n: nat) returns (r: Option<nat>)
    ensures r == FindFrom(s, 0, n)
    ensures r.Some? ==> RunAt(s, r.value, n) && forall k :: 0 <= k < r.value ==> !RunAt(s, k, n)
    ensures r.None? ==> forall k :: !RunAt(s, k, n)
  {
    FindFromIff(s, 0, n);
    var i := 0;
    while i < |s|
      invariant 0 <= i <= |s|
      invariant FindFrom(s, i, n) == FindFrom(s, 0, n)
    {
      if s[i] != '`' {
        i := i + 1;
        continue;
      }
      var run := CountRun(s, i);
      if run == n {
        return Some(i);
      }
      i := i + run;
    }
    return None;
  }

  method CountRun(s: string, i: nat) returns (n: nat)
    requires i <= |s|
    ensures n == Run(s, i)
  {
    n := 0;
    while i + n < |s| && s[i + n] == '`'
      invariant i + n <= |s|
      invariant n + Run(s, i + n) == Run(s, i)
    {
      n := n + 1;
    }
  }

  // ---- stripping ----

  /** How many bytes from `i` go, and what stands for them. */
  datatype Part = Part(n: nat, text: string)

  function PartAt(line: string, i: nat): (p: Part)
    requires i < |line|
    ensures 0 < p.n && i + p.n <= |line|
  {
    var c := line[i];
    if c == '`' then
      var ticks := Run(line, i);
      match FindFrom(line[i + ticks..], 0, ticks)
      case None => Part(1, "`")
      case Some(end) => Part(ticks + end + ticks, " ")
    else if c == '(' then
      var end := IndexOf(line[i..], ')');
      if i + end < |line| && i > 0 && line[i - 1] == ']' then Part(end + 1, " ") else Part(1, "(")
    else if c == '<' then
      var end := IndexOf(line[i..], '>');
      if i + end < |line| && Contains(line[i..i + end], "://") then Part(end + 1, " ") else Part(1, "<")
    else Part(1, [c])
  }

  function Stripped(line: string, i: nat): string
    requires i <= |line|
    decreases |line| - i
  {
    if i == |line| then "" else PartAt(line, i).text + Stripped(line, i + PartAt(line, i).n)
  }

  predicate Marks(c: char) { c == '`' || c == '(' || c == '<' }

  lemma OrdinaryPart(line: string, i: nat)
    requires i < |line| && !Marks(line[i])
    ensures PartAt(line, i) == Part(1, [line[i]])
  {
  }

  lemma SliceCons(line: string, i: nat, j: nat, rest: string)
    requires i < j <= |line|
    ensures [line[i]] + (line[i + 1..j] + rest) == line[i..j] + rest
  {
  }

  /** A run of ordinary bytes is kept as it is. */
  lemma {:induction false} StrippedRun(line: string, i: nat, j: nat)
    requires i <= j <= |line| && forall k :: i <= k < j ==> !Marks(line[k])
    ensures Stripped(line, i) == line[i..j] + Stripped(line, j)
    decreases j - i
  {
    if i == j {
      assert line[i..j] + Stripped(line, j) == Stripped(line, j);
    } else {
      hide PartAt;
      OrdinaryPart(line, i);
      StrippedRun(line, i + 1, j);
      SliceCons(line, i, j, Stripped(line, j));
    }
  }

  /** A code span, a link's destination or an autolink, or the one byte that looked like one. */
  method TakeMark(line: string, i: nat) returns (p: Part)
    requires i < |line| && Marks(line[i])
    ensures p == PartAt(line, i)
  {
    hide FindFrom, Contains;
    var c := line[i];
    if c == '`' {
      var ticks := CountRun(line, i);
      var end := FindRun(line[i + ticks..], ticks);
      return if end.None? then Part(1, "`") else Part(ticks + end.value + ticks, " ");
    }
    if c == '(' {
      var end := IndexOf(line[i..], ')');
      return if i + end < |line| && i > 0 && line[i - 1] == ']' then Part(end + 1, " ") else Part(1, "(");
    }
    var end := IndexOf(line[i..], '>');
    return if i + end < |line| && Contains(line[i..i + end], "://") then Part(end + 1, " ") else Part(1, "<");
  }

  /** `strip`. */
  method StripLine(line: string) returns (out: string)
    ensures out == Stripped(line, 0)
  {
    hide Stripped, PartAt;
    out := "";
    var i := 0;
    while i < |line|
      invariant 0 <= i <= |line|
      invariant out + Stripped(line, i) == Stripped(line, 0)
    {
      StripStep(line, i, out);
      if Marks(line[i]) {
        var p := TakeMark(line, i);
        out := out + p.text;
        i := i + p.n;
      } else {
        var start := i;
        i := i + 1;
        while i < |line| && !Marks(line[i])
          invariant start < i <= |line|
          invariant forall k :: start <= k < i ==> !Marks(line[k])
        {
          i := i + 1;
        }
        StrippedRun(line, start, i);
        Regroup(out, line[start..i], Stripped(line, i));
        out := out + line[start..i];
      }
    }
    StripEnd(line, i);
    assert out + "" == out;
  }

  lemma Regroup(a: string, b: string, c: string)
    ensures a + (b + c) == a + b + c
  {
  }

  lemma StripEnd(line: string, i: nat)
    requires i == |line|
    ensures Stripped(line, i) == ""
  {
  }

  lemma StripStep(line: string, i: nat, out: string)
    requires i < |line|
    ensures var p := PartAt(line, i); out + Stripped(line, i) == out + p.text + Stripped(line, i + p.n)
  {
    hide PartAt;
    var p := PartAt(line, i);
    assert out + (p.text + Stripped(line, i + p.n)) == out + p.text + Stripped(line, i + p.n);
  }

  // ---- prose with code in it ----

  /** Prose, and a code span in backticks. */
  datatype Piece = Prose(text: string) | Code(ticks: nat, body: string)

  function Ticks(n: nat): (s: string)
    ensures |s| == n && forall k :: 0 <= k < n ==> s[k] == '`'
  { seq(n, _ => '`') }

  function Written(p: Piece): string {
    match p
    case Prose(text) => text
    case Code(ticks, body) => Ticks(ticks) + body + Ticks(ticks)
  }

  function Line(pieces: seq<Piece>): string {
    if pieces == [] then "" else Written(pieces[0]) + Line(pieces[1..])
  }

  /** The line with a space for every span. */
  function ProseOf(pieces: seq<Piece>): string {
    if pieces == [] then ""
    else (if pieces[0].Prose? then pieces[0].text else " ") + ProseOf(pieces[1..])
  }

  /** A span begins and ends with something other than a backtick and holds no run that would close it. */
  ghost predicate Good(p: Piece) {
    match p
    case Prose(text) => text != "" && forall k :: 0 <= k < |text| ==> !Marks(text[k])
    case Code(ticks, body) =>
      ticks > 0 && body != "" && body[0] != '`' && body[|body| - 1] != '`' &&
      forall k :: !RunAt(body, k, ticks)
  }

  /** Two spans in a row would run together. */
  ghost predicate GoodLine(pieces: seq<Piece>) {
    (forall i :: 0 <= i < |pieces| ==> Good(pieces[i])) &&
    forall i :: 0 < i < |pieces| ==> pieces[i - 1].Prose? || pieces[i].Prose?
  }

  lemma {:induction false} RunIs(s: string, i: nat, n: nat)
    requires i + n <= |s| && (forall k :: i <= k < i + n ==> s[k] == '`') && (i + n < |s| ==> s[i + n] != '`')
    ensures Run(s, i) == n
    decreases n
  {
    if n > 0 {
      RunIs(s, i + 1, n - 1);
    }
  }

  lemma {:induction false} RunWithin(a: string, b: string, i: nat)
    requires i < |a| && a[|a| - 1] != '`'
    ensures Run(a + b, i) == Run(a, i) && i + Run(a, i) < |a|
    decreases |a| - i
  {
    var s := a + b;
    assert s[i] == a[i];
    if a[i] == '`' {
      assert i < |a| - 1;
      RunWithin(a, b, i + 1);
    }
  }

  lemma ClosingRun(body: string, ticks: nat, rest: string)
    requires Good(Code(ticks, body)) && (rest != "" ==> rest[0] != '`')
    ensures RunAt(body + Ticks(ticks) + rest, |body|, ticks)
  {
    var s := body + Ticks(ticks) + rest;
    assert forall k :: |body| <= k < |body| + ticks ==> s[k] == '`';
    assert s[|body| - 1] == body[|body| - 1];
    assert |body| + ticks < |s| ==> s[|body| + ticks] == rest[0];
    RunIs(s, |body|, ticks);
  }

  lemma NoRunInside(body: string, ticks: nat, more: string, k: nat)
    requires Good(Code(ticks, body)) && k < |body|
    ensures !RunAt(body + more, k, ticks)
  {
    var s := body + more;
    RunWithin(body, more, k);
    assert !RunAt(body, k, ticks);
    assert s[k] == body[k];
    if k > 0 {
      assert s[k - 1] == body[k - 1];
    }
  }

  /** The span is closed by its own run and by no other. */
  lemma SpanCloses(body: string, ticks: nat, rest: string)
    requires Good(Code(ticks, body)) && (rest != "" ==> rest[0] != '`')
    ensures FindFrom(body + Ticks(ticks) + rest, 0, ticks) == Some(|body|)
  {
    hide RunAt, FindFrom, Good;
    var s, more := body + Ticks(ticks) + rest, Ticks(ticks) + rest;
    assert s == body + more;
    ClosingRun(body, ticks, rest);
    forall k | 0 <= k < |body|
      ensures !RunAt(s, k, ticks)
    {
      NoRunInside(body, ticks, more, k);
    }
    FirstIs(s, ticks, |body|);
  }

  lemma FirstIs(s: string, n: nat, at: nat)
    requires RunAt(s, at, n) && forall k :: 0 <= k < at ==> !RunAt(s, k, n)
    ensures FindFrom(s, 0, n) == Some(at)
  {
    hide RunAt, FindFrom;
    FindFromIff(s, 0, n);
  }

  /** Every code span of a line is one space of what is left, and the prose around it is all there. */
  lemma {:induction false} SpansGo(front: string, pieces: seq<Piece>)
    requires GoodLine(pieces)
    ensures Stripped(front + Line(pieces), |front|) == ProseOf(pieces)
    decreases |pieces|
  {
    hide Stripped, FindFrom, Run, RunAt;
    var line := front + Line(pieces);
    if pieces == [] {
      StripEnd(line, |front|);
    } else {
      var p, rest := pieces[0], pieces[1..];
      assert GoodLine(rest) by {
        assert forall i :: 0 <= i < |rest| ==> rest[i] == pieces[i + 1];
      }
      assert line == front + Written(p) + Line(rest);
      SpansGo(front + Written(p), rest);
      FirstGoes(front, p, Line(rest), rest);
    }
  }

  lemma LineOpens(rest: seq<Piece>)
    requires GoodLine(rest) && (rest != [] ==> rest[0].Prose?)
    ensures Line(rest) != "" ==> Line(rest)[0] != '`'
  {
  }

  lemma ProseGoes(front: string, text: string, more: string)
    requires Good(Prose(text))
    ensures Stripped(front + text + more, |front|) == text + Stripped(front + text + more, |front + text|)
  {
    hide Stripped;
    var line := front + text + more;
    assert line[|front|..|front + text|] == text;
    forall k | |front| <= k < |front + text|
      ensures !Marks(line[k])
    {
      assert line[k] == text[k - |front|];
    }
    StrippedRun(line, |front|, |front + text|);
  }

  lemma CodeGoes(front: string, ticks: nat, body: string, more: string)
    requires Good(Code(ticks, body)) && (more != "" ==> more[0] != '`')
    ensures var span := Ticks(ticks) + body + Ticks(ticks);
            Stripped(front + span + more, |front|) == " " + Stripped(front + span + more, |front + span|)
  {
    hide PartAt, Good;
    SpanPart(front, body, ticks, more);
  }

  lemma FirstGoes(front: string, p: Piece, more: string, rest: seq<Piece>)
    requires Good(p) && GoodLine(rest) && more == Line(rest) && (p.Code? && rest != [] ==> rest[0].Prose?)
    ensures Stripped(front + Written(p) + more, |front|) ==
      (if p.Prose? then p.text else " ") + Stripped(front + Written(p) + more, |front + Written(p)|)
  {
    hide Stripped, Good, GoodLine, Line;
    if p.Prose? {
      ProseGoes(front, p.text, more);
    } else {
      LineOpens(rest);
      CodeGoes(front, p.ticks, p.body, more);
    }
  }

  lemma SpanPart(front: string, body: string, ticks: nat, more: string)
    requires Good(Code(ticks, body)) && (more != "" ==> more[0] != '`')
    ensures var line := front + (Ticks(ticks) + body + Ticks(ticks)) + more;
            PartAt(line, |front|) == Part(ticks + |body| + ticks, " ")
  {
    hide FindFrom, RunAt, Stripped;
    var line := front + (Ticks(ticks) + body + Ticks(ticks)) + more;
    assert forall k :: |front| <= k < |front| + ticks ==> line[k] == '`';
    assert line[|front| + ticks] == body[0];
    RunIs(line, |front|, ticks);
    assert line[|front| + ticks..] == body + Ticks(ticks) + more;
    SpanCloses(body, ticks, more);
  }

  // ---- links ----

  /** The first `c` at or after an offset is at `j`, or there is none and `j` is the end. */
  predicate FirstAfter(line: string, c: char, i: nat, j: nat) {
    i <= j <= |line| && (forall k :: i <= k < j ==> line[k] != c) && (j < |line| ==> line[j] == c)
  }

  lemma FirstIndex(line: string, c: char, i: nat, j: nat)
    requires FirstAfter(line, c, i, j)
    ensures IndexOf(line[i..], c) == j - i
  {
    var rest, front := line[i..], line[i..j];
    if j < |line| {
      assert rest == front + [c] + line[j + 1..];
      IndexOfConcat(front, c, line[j + 1..]);
    } else {
      IndexOfAbsent(rest, c);
    }
  }

  lemma StripAs(line: string, i: nat, n: nat, text: string)
    requires i < |line| && PartAt(line, i) == Part(n, text)
    ensures i + n <= |line| && Stripped(line, i) == text + Stripped(line, i + n)
  {
    hide PartAt;
  }

  lemma ParenPart(line: string, i: nat, j: nat)
    requires i < |line| && line[i] == '(' && FirstAfter(line, ')', i, j)
    ensures PartAt(line, i) == if j < |line| && i > 0 && line[i - 1] == ']' then Part(j + 1 - i, " ") else Part(1, "(")
  {
    hide IndexOf, FindFrom, Contains, FirstAfter;
    FirstIndex(line, ')', i, j);
  }

  lemma AnglePart(line: string, i: nat, j: nat)
    requires i < |line| && line[i] == '<' && FirstAfter(line, '>', i, j)
    ensures PartAt(line, i) == if j < |line| && Contains(line[i..j], "://") then Part(j + 1 - i, " ") else Part(1, "<")
  {
    hide IndexOf, FindFrom, Contains;
    FirstIndex(line, '>', i, j);
  }

  /** A link's destination goes with its parentheses; any other parenthesis is itself. */
  lemma DestinationGoes(line: string, i: nat, j: nat)
    requires i < |line| && line[i] == '(' && FirstAfter(line, ')', i, j)
    ensures Stripped(line, i) == if j < |line| && i > 0 && line[i - 1] == ']' then " " + Stripped(line, j + 1)
                                 else "(" + Stripped(line, i + 1)
  {
    hide PartAt, Stripped;
    ParenPart(line, i, j);
    if j < |line| && i > 0 && line[i - 1] == ']' {
      StripAs(line, i, j + 1 - i, " ");
    } else {
      StripAs(line, i, 1, "(");
    }
  }

  /** What stands between angle brackets goes with them when it has a scheme; any other bracket is itself. */
  lemma AutolinkGoes(line: string, i: nat, j: nat)
    requires i < |line| && line[i] == '<' && FirstAfter(line, '>', i, j)
    ensures Stripped(line, i) == if j < |line| && Contains(line[i..j], "://") then " " + Stripped(line, j + 1)
                                 else "<" + Stripped(line, i + 1)
  {
    hide PartAt, Stripped, Contains;
    AnglePart(line, i, j);
    if j < |line| && Contains(line[i..j], "://") {
      StripAs(line, i, j + 1 - i, " ");
    } else {
      StripAs(line, i, 1, "<");
    }
  }

  /** Backticks that nothing closes: the first is itself, and the rest is looked at again. */
  lemma TicksStay(line: string, i: nat)
    requires i < |line| && line[i] == '`'
    requires forall k :: i + Run(line, i) <= k ==> !RunAt(line, k, Run(line, i))
    ensures Stripped(line, i) == "`" + Stripped(line, i + 1)
  {
    hide Contains;
    var n := Run(line, i);
    var rest := line[i + n..];
    forall k ensures !RunAt(rest, k, n) {
      if RunAt(rest, k, n) { RunBehind(line, i + n, k, n); }
    }
    FindFromIff(rest, 0, n);
  }

  /** A run in what is left of a line is a run of the line, where no run is cut. */
  lemma RunBehind(line: string, from: nat, k: nat, n: nat)
    requires from <= |line| && (from < |line| ==> line[from] != '`') && RunAt(line[from..], k, n)
    ensures RunAt(line, from + k, n)
  {
    assert k > 0;
    RunShifts(line, from, k);
  }

  lemma {:induction false} RunShifts(line: string, from: nat, k: nat)
    requires from + k <= |line|
    ensures Run(line[from..], k) == Run(line, from + k)
    decreases |line| - k
  {
    if from + k < |line| && line[from + k] == '`' { RunShifts(line, from, k + 1); }
  }
}
