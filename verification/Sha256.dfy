/**
  SHA-256 of crates/xtask/src/sha256.rs against FIPS 180-4: padding and parsing
  as in sections 5.1.1 and 5.2.1, the compression function as in section 6.2.
 */
module Sha256 {
  import opened Common

  type Word = bv32
  type Octet = bv8

  // ---- the standard ----

  /** Addition modulo 2^32, which `wrapping_add` is. */
  function Add(x: Word, y: Word): Word { x + y }

  function Ch(x: Word, y: Word, z: Word): Word { (x & y) ^ (!x & z) }

  function Maj(x: Word, y: Word, z: Word): Word { (x & y) ^ (x & z) ^ (y & z) }

  /** The sigmas of section 4.1.2, `ROTR` written out as in section 3.2. */
  function BigSigma0(x: Word): Word {
    ((x >> 2) | (x << 30)) ^ ((x >> 13) | (x << 19)) ^ ((x >> 22) | (x << 10))
  }

  function BigSigma1(x: Word): Word {
    ((x >> 6) | (x << 26)) ^ ((x >> 11) | (x << 21)) ^ ((x >> 25) | (x << 7))
  }

  function SmallSigma0(x: Word): Word {
    ((x >> 7) | (x << 25)) ^ ((x >> 18) | (x << 14)) ^ (x >> 3)
  }

  function SmallSigma1(x: Word): Word {
    ((x >> 17) | (x << 15)) ^ ((x >> 19) | (x << 13)) ^ (x >> 10)
  }

  /** Four terms of the schedule added in the standard's order. */
  function Sum(a: Word, b: Word, c: Word, d: Word): Word { a + b + c + d }

  /** The constants of section 4.2.2, eight to a row. */
  function KRow(r: nat): (k: seq<Word>)
    requires r < 8
    ensures |k| == 8
  {
    if r == 0 then [0x428a2f98, 0x71374491, 0xb5c0fbcf, 0xe9b5dba5, 0x3956c25b, 0x59f111f1, 0x923f82a4, 0xab1c5ed5]
    else if r == 1 then [0xd807aa98, 0x12835b01, 0x243185be, 0x550c7dc3, 0x72be5d74, 0x80deb1fe, 0x9bdc06a7, 0xc19bf174]
    else if r == 2 then [0xe49b69c1, 0xefbe4786, 0x0fc19dc6, 0x240ca1cc, 0x2de92c6f, 0x4a7484aa, 0x5cb0a9dc, 0x76f988da]
    else if r == 3 then [0x983e5152, 0xa831c66d, 0xb00327c8, 0xbf597fc7, 0xc6e00bf3, 0xd5a79147, 0x06ca6351, 0x14292967]
    else if r == 4 then [0x27b70a85, 0x2e1b2138, 0x4d2c6dfc, 0x53380d13, 0x650a7354, 0x766a0abb, 0x81c2c92e, 0x92722c85]
    else if r == 5 then [0xa2bfe8a1, 0xa81a664b, 0xc24b8b70, 0xc76c51a3, 0xd192e819, 0xd6990624, 0xf40e3585, 0x106aa070]
    else if r == 6 then [0x19a4c116, 0x1e376c08, 0x2748774c, 0x34b0bcb5, 0x391c0cb3, 0x4ed8aa4a, 0x5b9cca4f, 0x682e6ff3]
    else [0x748f82ee, 0x78a5636f, 0x84c87814, 0x8cc70208, 0x90befffa, 0xa4506ceb, 0xbef9a3f7, 0xc67178f2]
  }

  function K(): (k: seq<Word>)
    ensures |k| == 64
  { KRow(0) + KRow(1) + KRow(2) + KRow(3) + KRow(4) + KRow(5) + KRow(6) + KRow(7) }

  lemma KAt(r: nat, i: nat)
    requires r < 8 && i < 8
    ensures K()[8 * r + i] == KRow(r)[i]
  {
    hide KRow;
  }

  /** The eight working variables, and the hash value they start from. */
  datatype State = State(a: Word, b: Word, c: Word, d: Word, e: Word, f: Word, g: Word, h: Word) {
    function Plus(s: State): State {
      State(Add(a, s.a), Add(b, s.b), Add(c, s.c), Add(d, s.d), Add(e, s.e), Add(f, s.f), Add(g, s.g), Add(h, s.h))
    }

    function Words(): (w: seq<Word>)
      ensures |w| == 8
    { [a, b, c, d, e, f, g, h] }
  }

  function StateOf(s: seq<Word>): State
    requires |s| == 8
  { State(s[0], s[1], s[2], s[3], s[4], s[5], s[6], s[7]) }

  /** The initial hash value of section 5.3.3. */
  function Initial(): State {
    State(0x6a09e667, 0xbb67ae85, 0x3c6ef372, 0xa54ff53a, 0x510e527f, 0x9b05688c, 0x1f83d9ab, 0x5be0cd19)
  }

  /** Four octets as a word, the first one highest. */
  function BigEndian(a: Octet, b: Octet, c: Octet, d: Octet): Word {
    ((a as Word) << 24) | ((b as Word) << 16) | ((c as Word) << 8) | (d as Word)
  }

  function WordAt(bytes: seq<Octet>, i: nat): Word
    requires 4 * i + 4 <= |bytes|
  {
    BigEndian(bytes[4 * i], bytes[4 * i + 1], bytes[4 * i + 2], bytes[4 * i + 3])
  }

  /** The message schedule of section 6.2.2, step 1. */
  function Schedule(block: seq<Octet>, t: nat): Word
    requires |block| == 64
  {
    if t < 16 then WordAt(block, t)
    else Sum(SmallSigma1(Schedule(block, t - 2)), Schedule(block, t - 7),
             SmallSigma0(Schedule(block, t - 15)), Schedule(block, t - 16))
  }

  /** One iteration of step 3. */
  function Round(s: State, k: Word, w: Word): State {
    var t1 := Add(Add(Add(Add(s.h, BigSigma1(s.e)), Ch(s.e, s.f, s.g)), k), w);
    var t2 := Add(BigSigma0(s.a), Maj(s.a, s.b, s.c));
    State(Add(t1, t2), s.a, s.b, s.c, Add(s.d, t1), s.e, s.f, s.g)
  }

  function Rounds(s: State, block: seq<Octet>, t: nat): State
    requires |block| == 64 && t <= 64
  {
    if t == 0 then s else Round(Rounds(s, block, t - 1), K()[t - 1], Schedule(block, t - 1))
  }

  /** Steps 2 to 4. */
  function Compressed(s: State, block: seq<Octet>): State
    requires |block| == 64
  { s.Plus(Rounds(s, block, 64)) }

  /** The hash value after every whole block of a padded message. */
  function Fold(s: State, bytes: seq<Octet>): State
    decreases |bytes|
  {
    if |bytes| < 64 then s else Fold(Compressed(s, bytes[..64]), bytes[64..])
  }

  function ZeroOctets(n: nat): (r: seq<Octet>)
    ensures |r| == n && forall i :: 0 <= i < n ==> r[i] == 0
  { seq(n, _ => 0) }

  /** The zeros between the one bit and the length: the fewest that fill a block. */
  function Zeros(n: nat): (z: nat)
    ensures z < 64 && (n + 1 + z + 8) % 64 == 0
  {
    if n % 64 < 56 then 55 - n % 64 else 119 - n % 64
  }

  /** A 64-bit number as eight octets, the highest first. */
  function Big(n: bv64): (r: seq<Octet>)
    ensures |r| == 8
  {
    [((n >> 56) & 0xff) as Octet, ((n >> 48) & 0xff) as Octet, ((n >> 40) & 0xff) as Octet,
     ((n >> 32) & 0xff) as Octet, ((n >> 24) & 0xff) as Octet, ((n >> 16) & 0xff) as Octet,
     ((n >> 8) & 0xff) as Octet, (n & 0xff) as Octet]
  }

  function ReadBig(r: seq<Octet>): bv64
    requires |r| == 8
  {
    ((r[0] as bv64) << 56) | ((r[1] as bv64) << 48) | ((r[2] as bv64) << 40) | ((r[3] as bv64) << 32)
      | ((r[4] as bv64) << 24) | ((r[5] as bv64) << 16) | ((r[6] as bv64) << 8) | (r[7] as bv64)
  }

  lemma BigReads(n: bv64)
    ensures ReadBig(Big(n)) == n
  {
  }

  /** The length in bits as the 64-bit word it is kept in, which holds it below 2^61 bytes. */
  function BitLength(n: nat): bv64 { ((n * 8) % TWO64) as bv64 }

  function Tail(n: nat): seq<Octet> {
    [0x80] + ZeroOctets(Zeros(n)) + Big(BitLength(n))
  }

  /** The message, a one bit, zeros, and the message's length in bits. */
  function Padded(m: seq<Octet>): seq<Octet> { m + Tail(|m|) }

  lemma PaddedLength(m: seq<Octet>)
    ensures |Padded(m)| % 64 == 0
  {
  }

  /** The digest of a message, as section 6.2.2 defines it. */
  function Digested(m: seq<Octet>): State { Fold(Initial(), Padded(m)) }

  // ---- the source's own spellings ----

  method RotateBig0(x: Word) returns (r: Word)
    ensures r == BigSigma0(x)
  {
    r := x.RotateRight(2) ^ x.RotateRight(13) ^ x.RotateRight(22);
  }

  method RotateBig1(x: Word) returns (r: Word)
    ensures r == BigSigma1(x)
  {
    r := x.RotateRight(6) ^ x.RotateRight(11) ^ x.RotateRight(25);
  }

  method RotateSmall0(x: Word) returns (r: Word)
    ensures r == SmallSigma0(x)
  {
    r := x.RotateRight(7) ^ x.RotateRight(18) ^ (x >> 3);
  }

  method RotateSmall1(x: Word) returns (r: Word)
    ensures r == SmallSigma1(x)
  {
    r := x.RotateRight(17) ^ x.RotateRight(19) ^ (x >> 10);
  }

  /** The source adds the four terms of the schedule in the other order. */
  method SumBackwards(a: Word, b: Word, c: Word, d: Word) returns (r: Word)
    ensures r == Sum(a, b, c, d)
  {
    r := d + c + b + a;
  }

  lemma ScheduleStep(block: seq<Octet>, t: nat)
    requires |block| == 64
    ensures t < 16 ==> Schedule(block, t) == WordAt(block, t)
    ensures t >= 16 ==> (
      Schedule(block, t) == Sum(SmallSigma1(Schedule(block, t - 2)), Schedule(block, t - 7),
                                SmallSigma0(Schedule(block, t - 15)), Schedule(block, t - 16)))
  {
    hide SmallSigma0, SmallSigma1, Sum, WordAt;
  }

  /** The schedule, filled in place: the block's words and then each from the ones before it. */
  method FillSchedule(block: array<Octet>) returns (w: array<Word>)
    requires block.Length == 64
    ensures fresh(w) && w.Length == 64
    ensures forall j :: 0 <= j < 64 ==> w[j] == Schedule(block[..], j)
  {
    hide SmallSigma0, SmallSigma1, Sum, BigEndian, Schedule;
    w := new Word[64](_ => 0);
    for i := 0 to 16
      invariant forall j :: 0 <= j < i ==> w[j] == Schedule(block[..], j)
    {
      ScheduleStep(block[..], i);
      w[i] := BigEndian(block[i * 4], block[i * 4 + 1], block[i * 4 + 2], block[i * 4 + 3]);
    }
    for i := 16 to 64
      invariant forall j :: 0 <= j < i ==> w[j] == Schedule(block[..], j)
    {
      ScheduleStep(block[..], i);
      var s0 := RotateSmall0(w[i - 15]);
      var s1 := RotateSmall1(w[i - 2]);
      w[i] := SumBackwards(s1, w[i - 7], s0, w[i - 16]);
    }
  }

  lemma RoundStep(s: State, block: seq<Octet>, t: nat)
    requires |block| == 64 && t < 64
    ensures Rounds(s, block, 0) == s
    ensures Rounds(s, block, t + 1) == Round(Rounds(s, block, t), K()[t], Schedule(block, t))
  {
    hide Round, K, Schedule;
  }

  /** The eight variables after one turn of the loop, assigned one after another. */
  method Turn(s: State, k: Word, w: Word) returns (r: State)
    ensures r == Round(s, k, w)
  {
    hide BigSigma0, BigSigma1, Ch, Maj, Add;
    var a, b, c, d, e, f, g, h := s.a, s.b, s.c, s.d, s.e, s.f, s.g, s.h;
    var s1 := RotateBig1(e);
    var ch := Ch(e, f, g);
    var t1 := Add(Add(Add(Add(h, s1), ch), k), w);
    var s0 := RotateBig0(a);
    var maj := Maj(a, b, c);
    var t2 := Add(s0, maj);
    h := g;
    g := f;
    f := e;
    e := Add(d, t1);
    d := c;
    c := b;
    b := a;
    a := Add(t1, t2);
    r := State(a, b, c, d, e, f, g, h);
  }

  /** `compress`: one block into the state, eight variables rotated sixty-four times. */
  method Compress(state: array<Word>, block: array<Octet>)
    requires state.Length == 8 && block.Length == 64
    modifies state
    ensures StateOf(state[..]) == Compressed(StateOf(old(state[..])), block[..])
  {
    hide Round, Schedule, K, Rounds, Add;
    var w := FillSchedule(block);
    ghost var bytes := block[..];
    var start := StateOf(state[..]);
    var s := start;
    RoundStep(start, bytes, 0);
    for i := 0 to 64
      invariant state[..] == old(state[..]) && block[..] == bytes
      invariant forall j :: 0 <= j < 64 ==> w[j] == Schedule(bytes, j)
      invariant s == Rounds(start, bytes, i)
    {
      RoundStep(start, bytes, i);
      s := Turn(s, K()[i], w[i]);
    }
    AddInto(state, s);
  }

  /** The last step: every word of the state gains its variable. */
  method AddInto(state: array<Word>, s: State)
    requires state.Length == 8
    modifies state
    ensures StateOf(state[..]) == StateOf(old(state[..])).Plus(s)
  {
    hide Add;
    var add := s.Words();
    for i := 0 to 8
      invariant forall j :: 0 <= j < i ==> state[j] == Add(old(state[j]), add[j])
      invariant forall j :: i <= j < 8 ==> state[j] == old(state[j])
    {
      state[i] := Add(state[i], add[i]);
    }
  }

  // ---- a whole message ----

  lemma FoldBlock(s: State, block: seq<Octet>, rest: seq<Octet>)
    requires |block| == 64
    ensures Fold(s, block + rest) == Fold(Compressed(s, block), rest)
  {
    hide Compressed;
    assert (block + rest)[..64] == block && (block + rest)[64..] == rest;
  }

  lemma FoldOne(s: State, block: seq<Octet>)
    requires |block| == 64
    ensures Fold(s, block) == Compressed(s, block)
  {
    hide Compressed;
    assert block[..64] == block;
  }

  /** `copy_from_slice` into part of a block. */
  method CopyInto(block: array<Octet>, at: nat, bytes: seq<Octet>)
    requires at + |bytes| <= block.Length
    modifies block
    ensures block[..] == old(block[..at]) + bytes + old(block[at + |bytes|..])
  {
    for i := 0 to |bytes|
      invariant forall j :: 0 <= j < i ==> block[at + j] == bytes[j]
      invariant forall j :: 0 <= j < at || at + i <= j < block.Length ==> block[j] == old(block[j])
    {
      block[at + i] := bytes[i];
    }
  }

  /** What the last one or two blocks hold: the remainder and its padding. */
  lemma TailSplits(n: nat, rest: seq<Octet>)
    requires |rest| == n % 64
    ensures |rest| < 56 ==> rest + Tail(n) == rest + [0x80] + ZeroOctets(55 - |rest|) + Big(BitLength(n))
    ensures |rest| >= 56 ==>
      rest + Tail(n) == (rest + [0x80] + ZeroOctets(63 - |rest|)) + (ZeroOctets(56) + Big(BitLength(n)))
  {
  }

  /** A block of the remainder, the mark and zeros. */
  lemma MarkedBlock(block: seq<Octet>, rest: seq<Octet>)
    requires |block| == 64 && |rest| < 64
    requires block == (rest + ZeroOctets(64 - |rest|))[|rest| := 0x80]
    ensures block == rest + [0x80] + ZeroOctets(63 - |rest|)
    ensures |rest| < 56 ==> block[..56] == rest + [0x80] + ZeroOctets(55 - |rest|)
  {
  }

  /** The remainder, the padding, and the one or two blocks they take. */
  method Finish(state: array<Word>, n: nat, rest: seq<Octet>)
    requires state.Length == 8 && |rest| == n % 64
    modifies state
    ensures StateOf(state[..]) == Fold(StateOf(old(state[..])), rest + Tail(n))
  {
    hide Compressed, Fold, Big, Tail, StateOf;
    ghost var start := StateOf(state[..]);
    var block := new Octet[64](_ => 0);
    assert block[|rest|..] == ZeroOctets(64 - |rest|);
    CopyInto(block, 0, rest);
    block[|rest|] := 0x80;
    MarkedBlock(block[..], rest);
    TailSplits(n, rest);
    ghost var last := ZeroOctets(56) + Big(BitLength(n));
    if |rest| >= 56 {
      FoldBlock(start, block[..], last);
      Compress(state, block);
      block := new Octet[64](_ => 0);
      assert block[..56] == ZeroOctets(56);
    }
    ghost var front := block[..56];
    ghost var middle := StateOf(state[..]);
    CopyInto(block, 56, Big(BitLength(n)));
    assert block[..] == front + Big(BitLength(n));
    FoldOne(middle, block[..]);
    Compress(state, block);
  }

  lemma Halve(bytes: seq<Octet>, i: nat, tail: seq<Octet>)
    requires 64 * i + 64 <= |bytes|
    ensures bytes[64 * i..] + tail == bytes[64 * i..64 * i + 64] + (bytes[64 * (i + 1)..] + tail)
  {
  }

  /** The hash value as 32 octets. */
  ghost predicate Spells(out: seq<Octet>, s: State) {
    |out| == 32 && forall i :: 0 <= i < 8 ==> WordAt(out, i) == s.Words()[i]
  }

  /** The standard's digest; it covers messages of less than 2^61 bytes. */
  ghost predicate IsDigest(out: seq<Octet>, m: seq<Octet>) {
    |out| == 32 && Spells(out, Digested(m))
  }

  /** `digest`: every whole block, then the remainder and its padding. */
  method Digest(bytes: seq<Octet>) returns (out: seq<Octet>)
    ensures IsDigest(out, bytes)
  {
    hide Compressed, Fold, Tail, StateOf, Spells, Digested;
    var state := new Word[8](i requires 0 <= i < 8 => Initial().Words()[i]);
    var block := new Octet[64](_ => 0);
    var whole := |bytes| / 64;
    ghost var tail := Tail(|bytes|);
    Starts(bytes, state[..]);
    for i := 0 to whole
      invariant Fold(StateOf(state[..]), bytes[64 * i..] + tail) == Digested(bytes)
    {
      CopyInto(block, 0, bytes[i * 64..i * 64 + 64]);
      assert block[..] == bytes[64 * i..64 * i + 64];
      Halve(bytes, i, tail);
      FoldBlock(StateOf(state[..]), block[..], bytes[64 * (i + 1)..] + tail);
      Compress(state, block);
    }
    Finish(state, |bytes|, bytes[whole * 64..]);
    out := Spell(state[..]);
  }

  lemma Starts(bytes: seq<Octet>, state: seq<Word>)
    requires |state| == 8 && state == Initial().Words()
    ensures Fold(StateOf(state), bytes[64 * 0..] + Tail(|bytes|)) == Digested(bytes)
  {
    hide Fold, Tail;
    assert bytes[64 * 0..] == bytes;
  }

  lemma OctetsOfWord(w: Word)
    ensures BigEndian(((w >> 24) & 0xff) as Octet, ((w >> 16) & 0xff) as Octet, ((w >> 8) & 0xff) as Octet,
                      (w & 0xff) as Octet) == w
  {
  }

  lemma WordsMore(out: seq<Octet>, i: nat, a: Octet, b: Octet, c: Octet, d: Octet)
    requires |out| == 4 * i
    ensures var more := out + [a, b, c, d];
            WordAt(more, i) == BigEndian(a, b, c, d) && forall j :: 0 <= j < i ==> WordAt(more, j) == WordAt(out, j)
  {
    hide BigEndian;
  }

  /** `u32::to_be_bytes`, word by word. */
  method Spell(words: seq<Word>) returns (out: seq<Octet>)
    requires |words| == 8
    ensures |out| == 32 && Spells(out, StateOf(words))
  {
    hide BigEndian, WordAt;
    out := [];
    for i := 0 to 8
      invariant |out| == 4 * i
      invariant forall j :: 0 <= j < i ==> WordAt(out, j) == words[j]
    {
      var w := words[i];
      OctetsOfWord(w);
      var a, b, c, d := ((w >> 24) & 0xff) as Octet, ((w >> 16) & 0xff) as Octet, ((w >> 8) & 0xff) as Octet,
                        (w & 0xff) as Octet;
      WordsMore(out, i, a, b, c, d);
      out := out + [a, b, c, d];
    }
  }

  // ---- sixty-four characters ----

  /** The value of a lower-case hex digit. */
  function Nibble(c: char): int {
    if '0' <= c <= '9' then c as int - '0' as int
    else if 'a' <= c <= 'f' then c as int - 'a' as int + 10
    else -1
  }

  function Value(b: Octet): nat { b as nat }

  ghost predicate HexOf(text: string, bytes: seq<Octet>) {
    |text| == 2 * |bytes| &&
    forall i :: 0 <= i < |bytes| ==>
      Nibble(text[2 * i]) >= 0 && Nibble(text[2 * i + 1]) >= 0 &&
      16 * Nibble(text[2 * i]) + Nibble(text[2 * i + 1]) == Value(bytes[i])
  }

  lemma NibblesOf(b: Octet)
    ensures b >> 4 < 16 && b & 0xf < 16
    ensures 16 * ((b >> 4) as int) + (b & 0xf) as int == b as int
  {
  }

  /** `char::from_digit` in base sixteen. */
  function FromDigit(n: nat): (c: char)
    requires n < 16
    ensures Nibble(c) == n
  {
    if n < 10 then '0' + n as char else 'a' + (n - 10) as char
  }

  /** High half first. */
  method Pair(b: Octet) returns (pair: string)
    ensures HexOf(pair, [b])
  {
    hide FromDigit;
    NibblesOf(b);
    var high, low := (b >> 4) as nat, (b & 0xf) as nat;
    pair := [FromDigit(high), FromDigit(low)];
  }

  lemma HexOfNothing(text: string, bytes: seq<Octet>)
    requires |text| == 0 && |bytes| == 0
    ensures HexOf(text, bytes)
  {
    hide Nibble, Value;
  }

  lemma HexOfMore(text: string, bytes: seq<Octet>, pair: string, b: Octet)
    requires HexOf(text, bytes) && HexOf(pair, [b])
    ensures HexOf(text + pair, bytes + [b])
  {
    hide Nibble, Value;
    var all, octets := text + pair, bytes + [b];
    assert [b][0] == b && pair[2 * 0] == pair[0];
    forall i | 0 <= i < |octets|
      ensures Nibble(all[2 * i]) >= 0 && Nibble(all[2 * i + 1]) >= 0
      ensures 16 * Nibble(all[2 * i]) + Nibble(all[2 * i + 1]) == Value(octets[i])
    {
      if i < |bytes| {
        assert all[2 * i] == text[2 * i] && all[2 * i + 1] == text[2 * i + 1] && octets[i] == bytes[i];
      } else {
        assert all[2 * i] == pair[0] && all[2 * i + 1] == pair[1] && octets[i] == b;
      }
    }
  }

  /** `hex`: two lower-case digits for every octet of the digest. */
  method Hex(bytes: seq<Octet>) returns (text: string)
    ensures exists d :: IsDigest(d, bytes) && HexOf(text, d)
  {
    hide Spells, Digested, HexOf;
    var digest := Digest(bytes);
    text := "";
    HexOfNothing(text, digest[..0]);
    for i := 0 to 32
      invariant HexOf(text, digest[..i])
    {
      var octet := digest[i];
      var pair := Pair(octet);
      HexOfMore(text, digest[..i], pair, octet);
      assert digest[..i + 1] == digest[..i] + [octet];
      text := text + pair;
    }
    assert digest[..32] == digest;
  }
}
