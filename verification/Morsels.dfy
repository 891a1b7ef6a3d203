/**
  How crates/zu-query/src/recursive.rs shares a round out: the frontier in chunks
  top-down, and ranges of nodes bottom-up, whose ends are added up in 32 bits.
 */
module Morsels {
  import opened Common
  import opened Bits
  import opened Csr

  const DENSE_FRACTION := 16
  const MIN_PARALLEL_FRONTIER := 4096
  const TWO32 := 0x1_0000_0000

  function CeilDiv(a: nat, b: nat): nat
    requires b > 0
  { (a + b - 1) / b }

  // ---- parts ----

  /** Parts of `n`, the last perhaps smaller. */
  function Chunks<T>(s: seq<T>, n: nat): seq<seq<T>>
    requires n > 0
  { if s == [] then [] else if |s| <= n then [s] else [s[..n]] + Chunks(s[n..], n) }

  function Joined(parts: seq<seq<nat>>): seq<nat> { if parts == [] then [] else parts[0] + Joined(parts[1..]) }

  lemma {:induction false} JoinedSplit(parts: seq<seq<nat>>, t: nat)
    requires t < |parts|
    ensures Joined(parts) == Joined(parts[..t]) + parts[t] + Joined(parts[t + 1..])
  {
    if t == 0 {
      assert parts[..0] == [];
    } else {
      JoinedSplit(parts[1..], t - 1);
      assert parts[1..][..t - 1] == parts[..t][1..] && parts[1..][t..] == parts[t + 1..];
    }
  }

  /** One part given to a thread loses its first item. */
  lemma TakeFirst(parts: seq<seq<nat>>, t: nat)
    requires t < |parts| && parts[t] != []
    ensures multiset(Joined(parts)) == multiset(Joined(parts[t := parts[t][1..]])) + multiset{parts[t][0]}
    ensures |Joined(parts)| == |Joined(parts[t := parts[t][1..]])| + 1
    ensures parts[t][0] in Joined(parts)
  {
    hide Joined;
    var now := parts[t := parts[t][1..]];
    JoinedSplit(parts, t);
    JoinedSplit(now, t);
    assert now[..t] == parts[..t] && now[t + 1..] == parts[t + 1..];
    assert parts[t] == [parts[t][0]] + now[t];
  }

  /** One part gains an item at its end. */
  lemma AddLast(parts: seq<seq<nat>>, t: nat, w: nat)
    requires t < |parts|
    ensures multiset(Joined(parts[t := parts[t] + [w]])) == multiset(Joined(parts)) + multiset{w}
  {
    hide Joined;
    var now := parts[t := parts[t] + [w]];
    JoinedSplit(parts, t);
    JoinedSplit(now, t);
    assert now[..t] == parts[..t] && now[t + 1..] == parts[t + 1..];
  }

  lemma {:induction false} JoinedEmpty(parts: seq<seq<nat>>)
    requires forall t :: 0 <= t < |parts| ==> parts[t] == []
    ensures Joined(parts) == []
  {
    if parts != [] { JoinedEmpty(parts[1..]); }
  }

  function Range(lo: nat, hi: nat): seq<nat> { if lo < hi then seq(hi - lo, i => lo + i) else [] }

  lemma RangeHas(lo: nat, hi: nat, w: nat)
    ensures w in Range(lo, hi) <==> lo <= w < hi
  {
    if lo <= w < hi { assert Range(lo, hi)[w - lo] == w; }
  }

  lemma {:induction false} ChunksBelow(s: seq<nat>, n: nat, bound: nat)
    requires n > 0 && AllBelow(s, bound)
    ensures forall t :: 0 <= t < |Chunks(s, n)| ==> AllBelow(Chunks(s, n)[t], bound)
    decreases |s|
  {
    if |s| > n { ChunksBelow(s[n..], n, bound); }
  }

  lemma ChunkIsSome(n: nat, threads: nat)
    requires n > 0 && threads > 0
    ensures CeilDiv(n, threads) > 0
  {
    Quotient(n + threads - 1, threads, (n + threads - 1) / threads, (n + threads - 1) % threads);
  }

  // ---- ranges ----

  /** The nodes a thread scans: a multiple of the word size, so that no two threads share a word. */
  function PerThread(n: nat, threads: nat): (per: nat)
    requires threads > 0
  { CeilDiv(CeilDiv(n, threads), WORD) * WORD }

  /** A thread's range, its end added up in 32 bits. */
  function RangeOf(n: nat, per: nat, t: nat): seq<nat> {
    var lo := t * per;
    if lo >= TWO32 || lo >= n then [] else
      var end := (lo + per) % TWO32;
      Range(lo, if end < n then end else n)
  }

  function Ranges(n: nat, threads: nat): (r: seq<seq<nat>>)
    requires threads > 0
    ensures |r| == threads
  { seq(threads, t requires 0 <= t < threads => RangeOf(n, PerThread(n, threads), t)) }

  /** The nodes a bottom-up round scans. */
  function Scanned(n: nat, threads: nat): seq<nat>
  { if threads <= 1 || n < MIN_PARALLEL_FRONTIER then Range(0, n) else Joined(Ranges(n, threads)) }

  /** Whether the last range ends within 32 bits. */
  predicate EndsInTime(n: nat, threads: nat) {
    threads <= 1 || n < MIN_PARALLEL_FRONTIER ||
    ((n - 1) / PerThread(n, threads) + 1) * PerThread(n, threads) < TWO32
  }

  lemma {:induction false} JoinedHas(parts: seq<seq<nat>>, w: nat)
    ensures w in Joined(parts) <==> exists t :: 0 <= t < |parts| && w in parts[t]
  {
    if parts != [] {
      JoinedHas(parts[1..], w);
      if t :| 0 <= t < |parts| && w in parts[t] {
        assert t == 0 || parts[1..][t - 1] == parts[t];
      }
      if t :| 0 <= t < |parts| - 1 && w in parts[1..][t] {
        assert w in parts[t + 1];
      }
    }
  }

  lemma ScannedInside(n: nat, threads: nat)
    ensures AllBelow(Scanned(n, threads), n)
  {
    hide Joined, PerThread, Range;
    var s := Scanned(n, threads);
    forall i | 0 <= i < |s|
      ensures s[i] < n
    {
      assert s[i] in s;
      RangeHas(0, n, s[i]);
      if threads > 1 && n >= MIN_PARALLEL_FRONTIER {
        var parts := Ranges(n, threads);
        JoinedHas(parts, s[i]);
        var t :| 0 <= t < |parts| && s[i] in parts[t];
        RangeOfInside(n, PerThread(n, threads), t, s[i]);
      }
    }
  }

  lemma RangeOfInside(n: nat, per: nat, t: nat, w: nat)
    requires w in RangeOf(n, per, t)
    ensures w < n
  {
    hide Range;
    var lo := t * per;
    var end := (lo + per) % TWO32;
    RangeHas(lo, if end < n then end else n, w);
  }

  // ---- what the ranges cover ----

  lemma CeilDivIs(a: nat, b: nat)
    requires b > 0
    ensures a <= CeilDiv(a, b) * b <= a + b - 1
  {
    var s := a + b - 1;
    assert s == s / b * b + s % b;
  }

  /** The threads' ranges are together long enough, and one fits 32 bits. */
  lemma PerThreadIs(n: nat, threads: nat)
    requires 0 < n < TWO32 && threads > 1
    ensures var per := PerThread(n, threads); 0 < per <= 0x8000_0000 && n <= threads * per
  {
    var share := CeilDiv(n, threads);
    CeilDivIs(n, threads);
    CeilDivIs(share, WORD);
    Times(2, threads, share - 1);
    assert (share - 1) * threads == share * threads - threads;
    Times(share, PerThread(n, threads), threads);
  }

  /** A bottom-up round scans every node exactly when the last range ends within 32 bits. */
  lemma ScansAllIff(n: nat, threads: nat)
    requires n < TWO32
    ensures (forall w :: 0 <= w < n ==> w in Scanned(n, threads)) <==> EndsInTime(n, threads)
  {
    hide Scanned, EndsInTime, Ranges, Joined, PerThread, Range;
    if threads <= 1 || n < MIN_PARALLEL_FRONTIER {
      OneScansAll(n, threads);
    } else if EndsInTime(n, threads) {
      forall w | 0 <= w < n
        ensures w in Scanned(n, threads)
      {
        InItsRange(n, threads, w);
      }
    } else {
      LastIsMissed(n, threads);
    }
  }

  lemma OneScansAll(n: nat, threads: nat)
    requires threads <= 1 || n < MIN_PARALLEL_FRONTIER
    ensures EndsInTime(n, threads) && forall w :: 0 <= w < n ==> w in Scanned(n, threads)
  {
    hide Range;
    forall w | 0 <= w < n
      ensures w in Scanned(n, threads)
    {
      RangeHas(0, n, w);
    }
  }

  lemma Floor(a: nat, b: nat)
    requires b > 0
    ensures a / b * b <= a < a / b * b + b && (a / b + 1) * b == a / b * b + b
  {
    assert a == a / b * b + a % b;
  }

  lemma InRangeOf(n: nat, per: nat, t: nat, w: nat)
    requires t * per <= w < n < TWO32 && w < t * per + per < TWO32
    ensures w in RangeOf(n, per, t)
  {
    hide Range;
    var end := t * per + per;
    assert end % TWO32 == end;
    RangeHas(t * per, if end < n then end else n, w);
  }

  lemma InItsRange(n: nat, threads: nat, w: nat)
    requires MIN_PARALLEL_FRONTIER <= n < TWO32 && threads > 1 && w < n && EndsInTime(n, threads)
    ensures w in Scanned(n, threads)
  {
    hide Joined, PerThread, RangeOf;
    var per := PerThread(n, threads);
    PerThreadIs(n, threads);
    var t, last := w / per, (n - 1) / per;
    Floor(w, per);
    Floor(n - 1, per);
    if t >= threads { Times(threads, t, per); }
    if t > last { Times(last + 1, t, per); }
    Times(t + 1, last + 1, per);
    InRangeOf(n, per, t, w);
    assert Ranges(n, threads)[t] == RangeOf(n, per, t);
    JoinedHas(Ranges(n, threads), w);
  }

  /** Short of its end a range does not reach `w`, and neither does one whose end wraps. */
  lemma NotInRangeOf(n: nat, per: nat, t: nat, w: nat)
    requires 0 < per < TWO32 && w < n < TWO32
    requires t * per + per <= w || (w == t * per && w + per >= TWO32) || t * per >= TWO32
    ensures w !in RangeOf(n, per, t)
  {
    hide Range;
    var lo := t * per;
    var end := lo + per;
    if lo < TWO32 {
      assert end % TWO32 == if end < TWO32 then end else end - TWO32;
      RangeHas(lo, if end % TWO32 < n then end % TWO32 else n, w);
    }
  }

  /** Where the end wraps, the first node of the last range is scanned by no thread. */
  lemma LastIsMissed(n: nat, threads: nat)
    requires MIN_PARALLEL_FRONTIER <= n < TWO32 && threads > 1 && !EndsInTime(n, threads)
    ensures var w := (n - 1) / PerThread(n, threads) * PerThread(n, threads);
            w < n && w !in Scanned(n, threads)
  {
    hide Joined, PerThread, RangeOf;
    var per := PerThread(n, threads);
    PerThreadIs(n, threads);
    var last := (n - 1) / per;
    var w := last * per;
    Floor(n - 1, per);
    JoinedHas(Ranges(n, threads), w);
    forall t | 0 <= t < threads
      ensures w !in RangeOf(n, per, t)
    {
      if t < last {
        Times(t + 1, last, per);
        assert t * per + per == (t + 1) * per;
      } else if t > last {
        Times(last + 1, t, per);
      }
      NotInRangeOf(n, per, t, w);
    }
  }

  /** Half of the 32-bit numbers are few enough nodes for any number of threads. */
  lemma SmallEndsInTime(n: nat, threads: nat)
    requires n <= 0x8000_0000
    ensures EndsInTime(n, threads)
  {
    hide PerThread;
    if threads > 1 && n >= MIN_PARALLEL_FRONTIER {
      var per := PerThread(n, threads);
      PerThreadIs(n, threads);
      Floor(n - 1, per);
    }
  }

  /** Of the largest graph two threads scan the lower half, and nothing else. */
  lemma LargestIsHalved()
    ensures !EndsInTime(0xFFFF_FFFF, 2)
    ensures forall w: nat :: w in Scanned(0xFFFF_FFFF, 2) <==> w < 0x8000_0000
  {
    hide Joined, Range;
    var n, per := 0xFFFF_FFFF, 0x8000_0000;
    assert PerThread(n, 2) == per;
    hide PerThread;
    var parts := Ranges(n, 2);
    assert parts[0] == Range(0, per) && parts[1] == Range(per, 0);
    forall w: nat
      ensures w in Scanned(n, 2) <==> w < per
    {
      JoinedHas(parts, w);
      RangeHas(0, per, w);
      RangeHas(per, 0, w);
      assert w in parts[0] <==> w < per;
    }
  }

  // ---- ranges apart ----

  /** What two threads scan lies in different words of a bitmap, the earlier thread's in earlier ones. */
  lemma WordsApart(n: nat, threads: nat, t: nat, u: nat, x: nat, y: nat)
    requires threads > 0 && t < u
    requires x in RangeOf(n, PerThread(n, threads), t) && y in RangeOf(n, PerThread(n, threads), u)
    ensures x / WORD < y / WORD
  {
    hide RangeOf;
    var per := PerThread(n, threads);
    var words := CeilDiv(CeilDiv(n, threads), WORD);
    RangeWithin(n, per, t, x);
    RangeWithin(n, per, u, y);
    Times(t + 1, u, words);
    InWords(x, (t + 1) * words);
    InWords(y, u * words);
    assert t * per + per == (t + 1) * words * WORD && u * per == u * words * WORD;
  }

  lemma RangeWithin(n: nat, per: nat, t: nat, w: nat)
    requires w in RangeOf(n, per, t)
    ensures t * per <= w < t * per + per
  {
    hide Range;
    var lo := t * per;
    var end := (lo + per) % TWO32;
    assert end <= lo + per;
    RangeHas(lo, if end < n then end else n, w);
  }

  lemma InWords(x: nat, k: nat)
    ensures x < k * WORD <==> x / WORD < k
  {
  }

  /** No node is in two ranges, or twice in one. */
  lemma RangesOnce(n: nat, threads: nat)
    requires threads > 0
    ensures forall w :: multiset(Joined(Ranges(n, threads)))[w] <= 1
  {
    hide RangeOf, PerThread, Joined;
    var parts := Ranges(n, threads);
    forall t | 0 <= t < |parts|
      ensures Ascending(parts[t])
    {
      RangeAscends(n, PerThread(n, threads), t);
    }
    forall t, u, x, y | 0 <= t < u < |parts| && x in parts[t] && y in parts[u]
      ensures x < y
    {
      WordsApart(n, threads, t, u, x, y);
    }
    JoinedAscends(parts);
    AscendingOnce(Joined(parts));
  }

  lemma RangeAscends(n: nat, per: nat, t: nat)
    ensures Ascending(RangeOf(n, per, t))
  {
  }

  lemma {:induction false} JoinedAscends(parts: seq<seq<nat>>)
    requires forall t :: 0 <= t < |parts| ==> Ascending(parts[t])
    requires forall t, u, x, y :: 0 <= t < u < |parts| && x in parts[t] && y in parts[u] ==> x < y
    ensures Ascending(Joined(parts))
  {
    if parts != [] {
      var rest := parts[1..];
      assert forall t :: 0 <= t < |rest| ==> rest[t] == parts[t + 1];
      JoinedAscends(rest);
      var a, b := parts[0], Joined(rest);
      forall i, j | 0 <= i < |a| && 0 <= j < |b|
        ensures a[i] < b[j]
      {
        JoinedHas(rest, b[j]);
        var t :| 0 <= t < |rest| && b[j] in rest[t];
        assert b[j] in parts[t + 1] && a[i] in parts[0];
      }
    }
  }

  lemma {:induction false} AscendingOnce(s: seq<nat>)
    requires Ascending(s)
    ensures forall w :: multiset(s)[w] <= 1
  {
    if s != [] {
      var last := |s| - 1;
      AscendingOnce(s[..last]);
      assert s == s[..last] + [s[last]];
      assert s[last] !in s[..last];
    }
  }
}
