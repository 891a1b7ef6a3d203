/**
  The UTF-8 check of conformance/c/yaml.c, against sections 3 and 4 of RFC 3629.
  The masks and shifts of the source are written as ranges and remainders.
 */
module Utf8 {
  import opened Common

  predicate ScalarValue(v: nat) { v <= 0x10FFFF && !(0xD800 <= v <= 0xDFFF) }

  function ByteChar(b: nat): (c: char)
    requires b < 256
    ensures c as int == b
  { b as char }

  /** The octets of one scalar value. */
  function Encode(v: nat): (s: string)
    requires ScalarValue(v)
    ensures 1 <= |s| <= 4
  {
    if v < 0x80 then [ByteChar(v)]
    else if v < 0x800 then [ByteChar(0xC0 + v / 64), ByteChar(0x80 + v % 64)]
    else if v < 0x10000 then [ByteChar(0xE0 + v / 4096), ByteChar(0x80 + v / 64 % 64), ByteChar(0x80 + v % 64)]
    else
      [ByteChar(0xF0 + v / 262144), ByteChar(0x80 + v / 4096 % 64), ByteChar(0x80 + v / 64 % 64),
       ByteChar(0x80 + v % 64)]
  }

  predicate ScalarValues(vs: seq<nat>) { forall v :: v in vs ==> ScalarValue(v) }

  function EncodeAll(vs: seq<nat>): string
    requires ScalarValues(vs)
  {
    if vs == [] then "" else Encode(vs[0]) + EncodeAll(vs[1..])
  }

  /** A concatenation of encodings of scalar values. */
  ghost predicate WellFormed(s: string) {
    exists vs :: ScalarValues(vs) && s == EncodeAll(vs)
  }

  /** No scalar value's encoding starts here. */
  ghost predicate IllFormedAt(s: string) {
    forall v :: ScalarValue(v) ==> !(Encode(v) <= s)
  }

  /** The continuation bytes a lead byte asks for and the bits it carries. */
  function Lead(c: char): Option<(nat, nat)> {
    var b := c as int;
    if 0xC0 <= b < 0xE0 then Some((1, b % 32))
    else if 0xE0 <= b < 0xF0 then Some((2, b % 16))
    else if 0xF0 <= b < 0xF8 then Some((3, b % 8))
    else None
  }

  predicate Continuation(c: char) { 0x80 <= c as int < 0xC0 }

  /** Six more bits from each of the `n` bytes after the first, all of them continuations. */
  function Gather(s: string, cp: nat, n: nat): Option<nat>
    requires n < |s|
  {
    if n == 0 then Some(cp)
    else
      var before :- Gather(s, cp, n - 1);
      if Continuation(s[n]) then Some(before * 64 + s[n] as int % 64) else None
  }

  predicate Rejected(extra: nat, cp: nat) {
    (extra == 1 && cp < 0x80) || (extra == 2 && cp < 0x800) || (extra == 3 && cp < 0x10000)
      || 0xD800 <= cp <= 0xDFFF || cp > 0x10FFFF
  }

  /** The scalar value one round of the source's loop takes off the front. */
  function Step(s: string): Option<nat>
    requires s != ""
  {
    if s[0] as int < 0x80 then Some(s[0] as int)
    else
      var (extra, bits) :- Lead(s[0]);
      if extra >= |s| then None
      else
        var cp :- Gather(s, bits, extra);
        if Rejected(extra, cp) then None else Some(cp)
  }

  /** The value that `extra` continuation bytes after the lead gather into. */
  lemma Gathered(s: string, cp: nat, extra: nat)
    requires 1 <= extra <= 3 && extra < |s|
    ensures Gather(s, cp, extra).Some? <==> forall k :: 1 <= k <= extra ==> Continuation(s[k])
    ensures Gather(s, cp, extra).Some? && extra == 1 ==>
      Gather(s, cp, extra).value == cp * 64 + (s[1] as int - 128)
    ensures Gather(s, cp, extra).Some? && extra == 2 ==>
      Gather(s, cp, extra).value == cp * 4096 + (s[1] as int - 128) * 64 + (s[2] as int - 128)
    ensures Gather(s, cp, extra).Some? && extra == 3 ==>
      Gather(s, cp, extra).value
        == cp * 262144 + (s[1] as int - 128) * 4096 + (s[2] as int - 128) * 64 + (s[3] as int - 128)
  {
    assert Gather(s, cp, 0) == Some(cp);
    if extra > 1 { Gathered(s, cp, extra - 1); }
  }

  lemma TwoBytes(v: int, a: int, b: int)
    requires 0 <= a && 0 <= b < 64
    ensures v == a * 64 + b <==> a == v / 64 && b == v % 64
  {
  }

  lemma ThreeBytes(v: int, a: int, b: int, c: int)
    requires 0 <= a && 0 <= b < 64 && 0 <= c < 64
    ensures v == a * 4096 + b * 64 + c <==> a == v / 4096 && b == v / 64 % 64 && c == v % 64
  {
    TwoBytes(v, a * 64 + b, c);
    TwoBytes(v / 64, a, b);
  }

  lemma FourBytes(v: int, a: int, b: int, c: int, d: int)
    requires 0 <= a && 0 <= b < 64 && 0 <= c < 64 && 0 <= d < 64
    ensures v == a * 262144 + b * 4096 + c * 64 + d
       <==> a == v / 262144 && b == v / 4096 % 64 && c == v / 64 % 64 && d == v % 64
  {
    TwoBytes(v, a * 4096 + b * 64 + c, d);
    ThreeBytes(v / 64, a, b, c);
  }

  lemma LeadBits(c: char)
    ensures Lead(c).Some? ==> 1 <= Lead(c).value.0 <= 3
    ensures Lead(c).Some? && Lead(c).value.0 == 1 ==> Lead(c).value.1 == c as int - 0xC0 < 32
    ensures Lead(c).Some? && Lead(c).value.0 == 2 ==> Lead(c).value.1 == c as int - 0xE0 < 16
    ensures Lead(c).Some? && Lead(c).value.0 == 3 ==> Lead(c).value.1 == c as int - 0xF0 < 8
  {
  }

  lemma StepSound(s: string, v: nat)
    requires s != "" && Step(s) == Some(v)
    ensures ScalarValue(v) && Encode(v) <= s
    ensures |Encode(v)| == if s[0] as int < 0x80 then 1 else Lead(s[0]).value.0 + 1
  {
    hide Gather, Lead;
    if s[0] as int >= 0x80 {
      LeadBits(s[0]);
      var (extra, bits) := Lead(s[0]).value;
      Gathered(s, bits, extra);
      assert Continuation(s[1]);
      if extra == 1 {
        TwoBytes(v, bits, s[1] as int - 128);
        assert Encode(v) == s[..2];
      } else if extra == 2 {
        assert Continuation(s[2]);
        ThreeBytes(v, bits, s[1] as int - 128, s[2] as int - 128);
        assert Encode(v) == s[..3];
      } else {
        assert Continuation(s[2]) && Continuation(s[3]);
        FourBytes(v, bits, s[1] as int - 128, s[2] as int - 128, s[3] as int - 128);
        assert Encode(v) == s[..4];
      }
    }
  }

  lemma StepComplete(s: string, v: nat)
    requires s != "" && ScalarValue(v) && Encode(v) <= s
    ensures Step(s) == Some(v)
  {
    hide Gather;
    var e := Encode(v);
    assert forall k :: 0 <= k < |e| ==> s[k] == e[k];
    if v < 0x80 {
    } else if v < 0x800 {
      LeadBits(s[0]);
      Gathered(s, Lead(s[0]).value.1, 1);
      TwoBytes(v, v / 64, v % 64);
    } else if v < 0x10000 {
      LeadBits(s[0]);
      Gathered(s, Lead(s[0]).value.1, 2);
      ThreeBytes(v, v / 4096, v / 64 % 64, v % 64);
    } else {
      LeadBits(s[0]);
      Gathered(s, Lead(s[0]).value.1, 3);
      FourBytes(v, v / 262144, v / 4096 % 64, v / 64 % 64, v % 64);
    }
  }

  /** A round succeeds exactly on an encoding, and on the value it encodes. */
  lemma StepDecodes(s: string, v: nat)
    requires s != ""
    ensures Step(s) == Some(v) <==> ScalarValue(v) && Encode(v) <= s
  {
    hide Step, Encode;
    if Step(s) == Some(v) { StepSound(s, v); }
    if ScalarValue(v) && Encode(v) <= s { StepComplete(s, v); }
  }

  /** No encoding is the beginning of another. */
  lemma EncodePrefixFree(s: string, v: nat, w: nat)
    requires ScalarValue(v) && ScalarValue(w) && Encode(v) <= s && Encode(w) <= s
    ensures v == w
  {
    StepDecodes(s, v);
    StepDecodes(s, w);
  }

  lemma {:induction false} EncodeAllConcat(a: seq<nat>, b: seq<nat>)
    requires ScalarValues(a) && ScalarValues(b)
    ensures ScalarValues(a + b) && EncodeAll(a + b) == EncodeAll(a) + EncodeAll(b)
  {
    if a == [] {
      assert a + b == b;
    } else {
      hide Encode;
      EncodeAllConcat(a[1..], b);
      assert (a + b)[1..] == a[1..] + b;
      assert (a + b)[0] == a[0];
      assert EncodeAll(a) == Encode(a[0]) + EncodeAll(a[1..]);
    }
  }

  lemma WellFormedConcat(a: string, b: string)
    requires WellFormed(a) && WellFormed(b)
    ensures WellFormed(a + b)
  {
    var va :| ScalarValues(va) && a == EncodeAll(va);
    var vb :| ScalarValues(vb) && b == EncodeAll(vb);
    EncodeAllConcat(va, vb);
  }

  lemma WellFormedScalar(v: nat)
    requires ScalarValue(v)
    ensures WellFormed(Encode(v))
  {
    assert EncodeAll([v]) == Encode(v) + EncodeAll([v][1..]);
    assert EncodeAll([v]) == Encode(v);
  }

  /** What follows a well-formed beginning decides whether the whole is well formed. */
  lemma {:induction false} TailDecides(vs: seq<nat>, ws: seq<nat>, rest: string)
    requires ScalarValues(vs) && ScalarValues(ws) && EncodeAll(vs) + rest == EncodeAll(ws)
    ensures |vs| <= |ws| && rest == EncodeAll(ws[|vs|..])
  {
    if vs == [] {
      assert rest == EncodeAll(vs) + rest;
      assert ws[0..] == ws;
    } else {
      var s := EncodeAll(ws);
      assert s == Encode(vs[0]) + (EncodeAll(vs[1..]) + rest);
      assert ws != [];
      EncodePrefixFree(s, vs[0], ws[0]);
      assert EncodeAll(vs[1..]) + rest == s[|Encode(vs[0])|..];
      TailDecides(vs[1..], ws[1..], rest);
      assert ws[1..][|vs| - 1..] == ws[|vs|..];
    }
  }

  lemma StuckMeansIllFormed(vs: seq<nat>, rest: string)
    requires ScalarValues(vs) && rest != "" && IllFormedAt(rest)
    ensures !WellFormed(EncodeAll(vs) + rest)
  {
    if WellFormed(EncodeAll(vs) + rest) {
      var ws :| ScalarValues(ws) && EncodeAll(vs) + rest == EncodeAll(ws);
      TailDecides(vs, ws, rest);
      OpensWithAnEncoding(ws[|vs|..]);
    }
  }

  lemma OpensWithAnEncoding(vs: seq<nat>)
    requires ScalarValues(vs)
    ensures EncodeAll(vs) != "" ==> !IllFormedAt(EncodeAll(vs))
  {
    if vs != [] { assert Encode(vs[0]) <= EncodeAll(vs); }
  }

  lemma StepOrIllFormed(s: string)
    requires s != "" && Step(s) == None
    ensures IllFormedAt(s)
  {
    forall v | ScalarValue(v) ensures !(Encode(v) <= s) {
      StepDecodes(s, v);
    }
  }

  /** One round: the length of the sequence at the front, or 0 when there is none. */
  method Advance(s: string, i: nat) returns (n: nat)
    requires i < |s|
    ensures n == 0 <==> Step(s[i..]) == None
    ensures n > 0 ==> i + n <= |s| && s[i..i + n] == Encode(Step(s[i..]).value)
  {
    hide Rejected, Lead;
    ghost var front := s[i..];
    if Step(front).Some? {
      StepDecodes(front, Step(front).value);
      StepSound(front, Step(front).value);
    }
    assert front[0] == s[i];
    if s[i] as int < 0x80 { return 1; }
    var lead := Lead(s[i]);
    if lead == None { return 0; }
    var (extra, cp) := lead.value;
    if i + extra >= |s| { return 0; }
    ghost var bits := cp;
    for k := 1 to extra + 1
      invariant Gather(front, bits, k - 1) == Some(cp)
    {
      assert front[k] == s[i + k];
      if !Continuation(s[i + k]) {
        assert Gather(front, bits, k) == None;
        GatherStops(front, bits, k, extra);
        return 0;
      }
      cp := cp * 64 + s[i + k] as int % 64;
    }
    if Rejected(extra, cp) { return 0; }
    n := extra + 1;
    assert front[..n] == s[i..i + n];
  }

  lemma {:induction false} GatherStops(s: string, cp: nat, k: nat, n: nat)
    requires k <= n < |s| && Gather(s, cp, k) == None
    ensures Gather(s, cp, n) == None
  {
    if k < n { GatherStops(s, cp, k, n - 1); }
  }

  /**
    `valid_utf8`: accepts exactly the well-formed strings, and otherwise names
    the start of the first ill-formed sequence, with all before it well formed.
   */
  method ValidUtf8(s: string) returns (ok: bool, bad: nat)
    ensures ok <==> WellFormed(s)
    ensures !ok ==> bad < |s| && WellFormed(s[..bad]) && IllFormedAt(s[bad..])
  {
    var i := 0;
    ghost var vs: seq<nat> := [];
    while i < |s|
      invariant 0 <= i <= |s|
      invariant ScalarValues(vs) && s[..i] == EncodeAll(vs)
    {
      assert s == EncodeAll(vs) + s[i..];
      var n := Advance(s, i);
      if n == 0 {
        StepOrIllFormed(s[i..]);
        StuckMeansIllFormed(vs, s[i..]);
        return false, i;
      }
      var v := Step(s[i..]).value;
      StepDecodes(s[i..], v);
      EncodeAllConcat(vs, [v]);
      assert EncodeAll([v]) == Encode(v) + EncodeAll([v][1..]);
      assert s[..i + n] == s[..i] + s[i..i + n];
      vs := vs + [v];
      i := i + n;
    }
    assert s == s[..i];
    return true, 0;
  }

  lemma {:induction false} AsciiWellFormed(s: string)
    requires forall k :: 0 <= k < |s| ==> s[k] as int < 0x80
    ensures WellFormed(s)
  {
    if s == "" {
      assert EncodeAll([]) == s;
    } else {
      AsciiWellFormed(s[1..]);
      WellFormedScalar(s[0] as int);
      assert Encode(s[0] as int) == [s[0]];
      WellFormedConcat([s[0]], s[1..]);
      assert s == [s[0]] + s[1..];
    }
  }
}
