/**
  The ustar writer and reader of crates/xtask/src/tarball.rs, with the header
  laid out as the "ustar Interchange Format" of the pax utility in IEEE Std
  1003.1 lays it out.
 */
module Tar {
  import opened Common

  datatype File = File(name: Bytes, body: Bytes)

  function Octets(s: string): (r: Bytes)
    requires forall k :: 0 <= k < |s| ==> s[k] as int < 256
    ensures |r| == |s|
  {
    seq(|s|, i requires 0 <= i < |s| => s[i] as int)
  }

  lemma ZerosSplit(a: nat, b: nat)
    ensures Zeros(a + b) == Zeros(a) + Zeros(b)
  {
  }

  // ---- numbers ----

  function Pow8(k: nat): (p: nat)
    ensures p > 0
  { if k == 0 then 1 else 8 * Pow8(k - 1) }

  /** The low `k` octal digits of a number, leading zeros and all. */
  function Octal(v: nat, k: nat): (r: Bytes)
    ensures |r| == k && forall i :: 0 <= i < k ==> 48 <= r[i] < 56
  {
    if k == 0 then [] else Octal(v / 8, k - 1) + [48 + v % 8]
  }

  /** A numeric field: octal digits and a NUL. */
  function Number(v: nat, width: nat): (r: Bytes)
    requires width > 0
    ensures |r| == width
  { Octal(v, width - 1) + [0] }

  /** `{:o}`: the digits of a number and no more. */
  function OctalText(v: nat): (r: Bytes)
    ensures r != []
  {
    if v < 8 then [48 + v] else OctalText(v / 8) + [48 + v % 8]
  }

  /** `{:0k$o}`: zeros in front up to `k` digits. */
  function PaddedOctal(v: nat, k: nat): (r: Bytes)
    ensures |r| >= k
  {
    var text := OctalText(v);
    if |text| < k then Fill(48, k - |text|) + text else text
  }

  lemma {:induction false} OctalZero(k: nat)
    ensures Octal(0, k) == Fill(48, k)
  {
    if k > 0 { OctalZero(k - 1); }
  }

  lemma PaddedStep(v: nat, k: nat)
    requires k > 0
    ensures v >= 8 ==> PaddedOctal(v, k) == PaddedOctal(v / 8, k - 1) + [48 + v % 8]
    ensures v < 8 ==> PaddedOctal(v, k) == Fill(48, k - 1) + [48 + v]
  {
    if v >= 8 {
      var front := OctalText(v / 8);
      if |front| + 1 < k {
        assert Fill(48, k - 1 - |front|) + (front + [48 + v % 8]) == Fill(48, k - 1 - |front|) + front + [48 + v % 8];
      }
    }
  }

  /** The last `k` of a run. */
  function Tail(s: Bytes, k: nat): Bytes
    requires k <= |s|
  { s[|s| - k..] }

  lemma OctalStep(v: nat, k: nat)
    requires k > 0
    ensures Octal(v, k) == Octal(v / 8, k - 1) + [48 + v % 8]
  {
  }

  lemma TailOf(front: Bytes, last: Byte, k: nat)
    requires 0 < k <= |front| + 1
    ensures Tail(front + [last], k) == Tail(front, k - 1) + [last]
  {
  }

  lemma TailAll(s: Bytes)
    ensures Tail(s, |s|) == s
  {
  }

  lemma OneDigitTail(v: nat, k: nat)
    requires k > 0 && v < 8
    ensures Tail(PaddedOctal(v, k), k) == Octal(v, k)
  {
    hide PaddedOctal, Fill, Octal, Tail;
    PaddedStep(v, k);
    OctalStep(v, k);
    OctalZero(k - 1);
    TailOf(Fill(48, k - 1), 48 + v, k);
    TailAll(Fill(48, k - 1));
  }

  /** The last digits of what is printed are the low digits of the number. */
  lemma {:induction false} OctalTail(v: nat, k: nat)
    ensures Tail(PaddedOctal(v, k), k) == Octal(v, k)
  {
    hide PaddedOctal, Fill, Octal, Tail;
    if k == 0 {
      EmptyTail(PaddedOctal(v, k), v);
    } else if v < 8 {
      OneDigitTail(v, k);
    } else {
      PaddedStep(v, k);
      OctalStep(v, k);
      OctalTail(v / 8, k - 1);
      TailOf(PaddedOctal(v / 8, k - 1), 48 + v % 8, k);
    }
  }

  lemma EmptyTail(s: Bytes, v: nat)
    ensures Tail(s, 0) == Octal(v, 0)
  {
  }

  // ---- the header ----

  predicate EndsWith(s: Bytes, t: Bytes) { |t| <= |s| && s[|s| - |t|..] == t }

  /** 755 for what a user has to run, 644 for the rest, by name. */
  function Mode(name: Bytes): nat {
    if Contains(name, Octets("bin/")) || EndsWith(name, Octets(".dll")) || EndsWith(name, Octets(".dylib"))
       || Contains(name, Octets(".so"))
    then 0x1ED else 0x1A4
  }

  /** name, mode, uid, gid, size and mtime: the fields before the checksum. */
  function Front(name: Bytes, size: nat): (r: Bytes)
    requires |name| <= 99
    ensures |r| == 148
  {
    name + Zeros(100 - |name|) + Number(Mode(name), 8) + Number(0, 8) + Number(0, 8) + Number(size, 12) + Number(0, 12)
  }

  /** typeflag, linkname, magic, version, and the fields that stay zero. */
  function Back(): (r: Bytes)
    ensures |r| == 356
  {
    [48] + Zeros(100) + Octets("ustar") + [0] + Octets("00") + Zeros(247)
  }

  function Sum(s: Bytes): nat { if s == [] then 0 else Sum(s[..|s| - 1]) + s[|s| - 1] }

  /** The header: its checksum counts every other byte, and eight spaces for the checksum. */
  function Header(name: Bytes, size: nat): (r: Bytes)
    requires |name| <= 99
    ensures |r| == 512
  {
    var front := Front(name, size);
    front + Number(Sum(front + Fill(32, 8) + Back()), 7) + [32] + Back()
  }

  function Padding(n: nat): (p: nat)
    ensures p < 512 && (n + p) % 512 == 0
  { (512 - n % 512) % 512 }

  function Entry(f: File): (r: Bytes)
    requires |f.name| <= 99
    ensures |r| == 512 + |f.body| + Padding(|f.body|)
  {
    Header(f.name, |f.body|) + f.body + Zeros(Padding(|f.body|))
  }

  predicate NamesFit(files: seq<File>) { forall f :: f in files ==> |f.name| <= 99 }

  /** The entries in order and two zero blocks. */
  function Archive(files: seq<File>): Bytes
    requires NamesFit(files)
  {
    if files == [] then Zeros(1024) else Entry(files[0]) + Archive(files[1..])
  }

  // ---- writing it ----

  /** Overwrites `header` from `at` on. */
  method Put(header: array<Byte>, at: nat, s: Bytes)
    requires at + |s| <= header.Length
    modifies header
    ensures header[..] == old(header[..at]) + s + old(header[at + |s|..])
  {
    for k := 0 to |s|
      invariant header[..at] == old(header[..at]) && header[at..at + k] == s[..k]
      invariant header[at + |s|..] == old(header[at + |s|..])
    {
      header[at + k] := s[k];
    }
    assert header[..] == header[..at] + header[at..at + |s|] + header[at + |s|..];
  }

  /** `write_octal` into the field from `lo` to `hi`. */
  method WriteOctal(header: array<Byte>, lo: nat, hi: nat, v: nat)
    requires lo < hi <= header.Length
    modifies header
    ensures header[..] == old(header[..lo]) + Number(v, hi - lo) + old(header[hi..])
  {
    hide Octal, PaddedOctal, Tail;
    ghost var before, after := header[..lo], header[hi..];
    var digits := hi - lo - 1;
    var text := PaddedOctal(v, digits);
    OctalTail(v, digits);
    Put(header, lo, Tail(text, digits));
    ghost var put := header[..];
    header[lo + digits] := 0;
    assert header[..] == put[lo + digits := 0];
    Terminated(before, Octal(v, digits), after, put);
  }

  /** The byte after a field's digits, made a NUL. */
  lemma Terminated(before: Bytes, digits: Bytes, after: Bytes, put: Bytes)
    requires |put| == |before| + |digits| + 1 + |after|
    requires put[..|before| + |digits|] == before + digits && put[|before| + |digits| + 1..] == after
    ensures put[|before| + |digits| := 0] == before + (digits + [0]) + after
  {
  }

  /** The next field, into a buffer that is still zero past `done`. */
  lemma NextField(done: Bytes, s: Bytes, left: nat)
    requires |s| <= left
    ensures var buf := done + Zeros(left);
            buf[..|done|] + s + buf[|done| + |s|..] == done + s + Zeros(left - |s|)
  {
    ZerosSplit(|s|, left - |s|);
  }

  lemma Gap(done: Bytes, gap: nat, left: nat)
    ensures done + Zeros(gap + left) == done + Zeros(gap) + Zeros(left)
  {
    ZerosSplit(gap, left);
  }

  method PutNext(header: array<Byte>, ghost done: Bytes, at: nat, s: Bytes)
    requires at == |done| && at + |s| <= header.Length && header[..] == done + Zeros(header.Length - at)
    modifies header
    ensures header[..] == done + s + Zeros(header.Length - at - |s|)
  {
    hide Zeros;
    NextField(done, s, header.Length - at);
    Put(header, at, s);
  }

  method WriteNext(header: array<Byte>, ghost done: Bytes, at: nat, width: nat, v: nat)
    requires 0 < width && at == |done| && at + width <= header.Length
    requires header[..] == done + Zeros(header.Length - at)
    modifies header
    ensures header[..] == done + Number(v, width) + Zeros(header.Length - at - width)
  {
    hide Zeros, Number;
    NextField(done, Number(v, width), header.Length - at);
    WriteOctal(header, at, at + width, v);
  }

  method WriteName(header: array<Byte>, name: Bytes)
    requires |name| <= 99 && header.Length == 512 && header[..] == Zeros(512)
    modifies header
    ensures header[..] == name + Zeros(100 - |name|) + Zeros(412)
  {
    hide Zeros;
    ghost var empty: Bytes := [];
    assert empty + Zeros(512) == Zeros(512) && empty + name == name;
    PutNext(header, empty, 0, name);
    Gap(name, 100 - |name|, 412);
  }

  /** The part of the header written before its checksum is taken. */
  method WriteFront(header: array<Byte>, name: Bytes, size: nat)
    requires |name| <= 99 && header.Length == 512 && header[..] == Zeros(512)
    modifies header
    ensures header[..] == Front(name, size) + Zeros(364)
  {
    hide Number, Mode, Fill, Zeros;
    WriteName(header, name);
    ghost var done := name + Zeros(100 - |name|);
    WriteNext(header, done, 100, 8, Mode(name));
    done := done + Number(Mode(name), 8);
    WriteNext(header, done, 108, 8, 0);
    done := done + Number(0, 8);
    WriteNext(header, done, 116, 8, 0);
    done := done + Number(0, 8);
    WriteNext(header, done, 124, 12, size);
    done := done + Number(size, 12);
    WriteNext(header, done, 136, 12, 0);
  }

  method WriteBack(header: array<Byte>, ghost front: Bytes)
    requires |front| == 148 && header.Length == 512 && header[..] == front + Zeros(364)
    modifies header
    ensures header[..] == front + Fill(32, 8) + Back()
  {
    hide Fill, Zeros, Octets, Back;
    PutNext(header, front, 148, Fill(32, 8));
    ghost var done := front + Fill(32, 8);
    PutNext(header, done, 156, [48]);
    done := done + [48];
    Gap(done, 100, 255);
    done := done + Zeros(100);
    PutNext(header, done, 257, Octets("ustar") + [0]);
    done := done + (Octets("ustar") + [0]);
    PutNext(header, done, 263, Octets("00"));
    BackParts(front + Fill(32, 8));
  }

  lemma BackParts(front: Bytes)
    ensures front + [48] + Zeros(100) + (Octets("ustar") + [0]) + Octets("00") + Zeros(247) == front + Back()
  {
    hide Zeros, Octets;
    var z, u, v, rest := Zeros(100), Octets("ustar") + [0], Octets("00"), Zeros(247);
    assert front + [48] + z == front + ([48] + z);
    assert front + ([48] + z) + u == front + ([48] + z + u);
    assert front + ([48] + z + u) + v == front + ([48] + z + u + v);
    assert [48] + z + u + v == [48] + z + Octets("ustar") + [0] + v;
  }

  /** `append`: an entry put behind the others, or refused for its name. */
  method Append(out: Bytes, f: File) returns (r: Option<Bytes>)
    ensures r == if |f.name| <= 99 then Some(out + Entry(f)) else None
  {
    hide Front, Back, Fill, Number;
    if |f.name| > 99 { return None; }
    var header := new Byte[512](_ => 0);
    assert header[..] == Zeros(512) by { AllZero(header[..]); }
    WriteFront(header, f.name, |f.body|);
    ghost var front := Front(f.name, |f.body|);
    WriteBack(header, front);
    var sum := Sum(header[..]);
    ghost var spaced := front + Fill(32, 8) + Back();
    WriteOctal(header, 148, 155, sum);
    header[155] := 32;
    HeaderParts(front, spaced, sum);
    assert header[..] == Header(f.name, |f.body|);
    var padding := (512 - |f.body| % 512) % 512;
    var entry := header[..] + f.body + Zeros(padding);
    r := Some(out + entry);
  }

  lemma AllZero(s: Bytes)
    requires |s| == 512 && forall k :: 0 <= k < 512 ==> s[k] == 0
    ensures s == Zeros(512)
  {
  }

  lemma HeaderParts(front: Bytes, spaced: Bytes, sum: nat)
    requires |front| == 148 && spaced == front + Fill(32, 8) + Back()
    ensures spaced[..148] == front && spaced[156..] == Back()
    ensures spaced[..148] + Number(sum, 7) + spaced[155..] == front + Number(sum, 7) + spaced[155..]
  {
    hide Back, Number, Fill;
  }

  lemma ArchiveStep(out: Bytes, files: seq<File>, i: nat)
    requires i < |files| && NamesFit(files)
    ensures NamesFit(files[i..]) && NamesFit(files[i + 1..])
    ensures out + Archive(files[i..]) == out + Entry(files[i]) + Archive(files[i + 1..])
  {
    hide Entry;
    assert files[i..][0] == files[i] && files[i..][1..] == files[i + 1..];
    assert out + (Entry(files[i]) + Archive(files[i + 1..])) == out + Entry(files[i]) + Archive(files[i + 1..]);
  }

  /** `tar`: every file in order and two zero blocks, or an error when a name does not fit. */
  method WriteTar(files: seq<File>) returns (r: Option<Bytes>)
    ensures r == if NamesFit(files) then Some(Archive(files)) else None
  {
    hide Entry, Archive;
    var out: Bytes := [];
    assert files[0..] == files;
    assert NamesFit(files) ==> out + Archive(files) == Archive(files);
    for i := 0 to |files|
      invariant forall k :: 0 <= k < i ==> |files[k].name| <= 99
      invariant NamesFit(files) ==> NamesFit(files[i..]) && out + Archive(files[i..]) == Archive(files)
    {
      if NamesFit(files) { ArchiveStep(out, files, i); }
      assert files[i] in files;
      var next := Append(out, files[i]);
      if next == None { return None; }
      out := next.value;
    }
    ArchiveEnd(files[|files|..]);
    out := out + Zeros(1024);
    r := Some(out);
  }

  lemma ArchiveEnd(files: seq<File>)
    requires files == []
    ensures Archive(files) == Zeros(1024)
  {
  }

  // ---- reading it ----

  predicate IsBlank(b: Byte) { b == 32 || 9 <= b <= 13 }

  function TrimNul(s: Bytes): Bytes { if s != [] && s[|s| - 1] == 0 then TrimNul(s[..|s| - 1]) else s }

  function TrimBlank(s: Bytes): Bytes {
    if s != [] && IsBlank(s[|s| - 1]) then TrimBlank(s[..|s| - 1])
    else if s != [] && IsBlank(s[0]) then TrimBlank(s[1..])
    else s
  }

  predicate AllOctal(s: Bytes) { forall k :: 0 <= k < |s| ==> 48 <= s[k] < 56 }

  function OctalValue(s: Bytes): nat
    requires AllOctal(s)
  {
    if s == [] then 0 else OctalValue(s[..|s| - 1]) * 8 + (s[|s| - 1] - 48)
  }

  /** A numeric field read leniently: what is not an octal number reads as zero. */
  function ReadOctal(field: Bytes): nat {
    var t := TrimBlank(TrimNul(field));
    var digits := if t != [] && t[0] == 43 then t[1..] else t;
    if digits != [] && AllOctal(digits) then OctalValue(digits) else 0
  }

  /** A name ends at its first NUL. */
  function NameEnd(s: Bytes): (n: nat)
    ensures n <= |s| && (n < |s| ==> s[n] == 0) && forall k :: 0 <= k < n ==> s[k] != 0
  {
    if s == [] || s[0] == 0 then 0 else NameEnd(s[1..]) + 1
  }

  function Blocks(size: nat): nat { (size + 511) / 512 * 512 }

  /** The files from byte `i` on, or `None` where a body would run past the end. */
  function Entries(tar: Bytes, i: nat): Option<seq<File>>
    decreases |tar| - i
  {
    if i + 512 > |tar| then Some([])
    else
      var header := tar[i..i + 512];
      if header == Zeros(512) then Some([])
      else
        var size := ReadOctal(header[124..135]);
        if i + 512 + size > |tar| then None
        else
          var name := header[..NameEnd(header[..100])];
          var rest :- Entries(tar, i + 512 + Blocks(size));
          Some([File(name, tar[i + 512..i + 512 + size])] + rest)
  }

  function WithFiles(before: seq<File>, r: Option<seq<File>>): Option<seq<File>> {
    if r.Some? then Some(before + r.value) else None
  }

  lemma EntriesStep(tar: Bytes, i: nat, before: seq<File>)
    requires i + 512 <= |tar| && tar[i..i + 512] != Zeros(512)
    ensures var header := tar[i..i + 512];
            var size := ReadOctal(header[124..135]);
            WithFiles(before, Entries(tar, i))
              == if i + 512 + size > |tar| then None
                 else WithFiles(before + [File(header[..NameEnd(header[..100])], tar[i + 512..i + 512 + size])],
                                Entries(tar, i + 512 + Blocks(size)))
  {
    hide ReadOctal, NameEnd, Blocks;
    var size := ReadOctal(tar[i..i + 512][124..135]);
    if i + 512 + size <= |tar| {
      var f := File(tar[i..i + 512][..NameEnd(tar[i..i + 512][..100])], tar[i + 512..i + 512 + size]);
      var rest := Entries(tar, i + 512 + Blocks(size));
      if rest.Some? { assert before + ([f] + rest.value) == before + [f] + rest.value; }
    }
  }

  /** `entries`, a header at a time until a zero block or the end. */
  method ReadEntries(tar: Bytes) returns (r: Option<seq<File>>)
    ensures r == Entries(tar, 0)
  {
    hide Entries, ReadOctal, Zeros;
    var out: seq<File> := [];
    var i := 0;
    assert WithFiles(out, Entries(tar, 0)) == Entries(tar, 0) by {
      if Entries(tar, 0).Some? { assert out + Entries(tar, 0).value == Entries(tar, 0).value; }
    }
    while i + 512 <= |tar|
      invariant WithFiles(out, Entries(tar, i)) == Entries(tar, 0)
      decreases |tar| - i
    {
      var header := tar[i..i + 512];
      if header == Zeros(512) { break; }
      EntriesStep(tar, i, out);
      var end := NameEnd(header[..100]);
      var name := header[..end];
      var size := ReadOctal(header[124..135]);
      i := i + 512;
      if i + size > |tar| { return None; }
      out := out + [File(name, tar[i..i + size])];
      i := i + (size + 511) / 512 * 512;
    }
    NoMoreEntries(tar, i);
    assert out + [] == out;
    r := Some(out);
  }

  lemma NoMoreEntries(tar: Bytes, i: nat)
    requires i + 512 > |tar| || tar[i..i + 512] == Zeros(512)
    ensures Entries(tar, i) == Some([])
  {
  }

  // ---- the round trip ----

  /** A name the header can hold and end, and a body whose length its size field can hold. */
  predicate Fits(f: File) { 0 !in f.name && |f.body| < Pow8(11) }

  lemma {:induction false} OctalReads(v: nat, k: nat)
    ensures AllOctal(Octal(v, k)) && OctalValue(Octal(v, k)) == v % Pow8(k)
  {
    if k > 0 {
      var s := Octal(v, k);
      OctalReads(v / 8, k - 1);
      assert s[..k - 1] == Octal(v / 8, k - 1);
      LowDigits(v, Pow8(k - 1));
    }
  }

  lemma LowDigits(v: nat, p: nat)
    requires p > 0
    ensures v % (8 * p) == (v / 8) % p * 8 + v % 8
  {
    var q, r := (v / 8) / p, (v / 8) % p;
    assert v / 8 == q * p + r;
    assert v == q * (8 * p) + (r * 8 + v % 8) by {
      assert v == 8 * (v / 8) + v % 8;
      assert 8 * (q * p) == q * (8 * p);
    }
    Quotient(v, 8 * p, q, r * 8 + v % 8);
  }

  /** A field of octal digits reads as the low digits of the number it was written from. */
  lemma NumberReads(v: nat, k: nat)
    requires k > 0
    ensures ReadOctal(Octal(v, k)) == v % Pow8(k)
  {
    OctalReads(v, k);
  }

  lemma {:induction false} NameEndAt(s: Bytes, n: nat)
    requires n < |s| && s[n] == 0 && forall k :: 0 <= k < n ==> s[k] != 0
    ensures NameEnd(s) == n
  {
  }

  lemma HeaderFields(name: Bytes, size: nat)
    requires |name| <= 99
    ensures var h := Header(name, size);
            h[..100] == name + Zeros(100 - |name|) && h[124..135] == Octal(size, 11) && h != Zeros(512)
  {
    hide Mode, Sum, Back, Fill;
    var h := Header(name, size);
    FrontFields(name, size);
    assert h[..148] == Front(name, size);
    assert h[..100] == h[..148][..100] && h[124..135] == h[..148][124..135];
    assert h[100] == h[..148][100];
  }

  lemma FrontFields(name: Bytes, size: nat)
    requires |name| <= 99
    ensures var f := Front(name, size);
            f[..100] == name + Zeros(100 - |name|) && f[124..135] == Octal(size, 11) && f[100] >= 48
  {
    hide Mode, Octal;
    var field := name + Zeros(100 - |name|);
    var before := field + Number(Mode(name), 8) + Number(0, 8) + Number(0, 8);
    var f := Front(name, size);
    assert f == before + Number(size, 12) + Number(0, 12);
    assert f[124..136] == Number(size, 12);
    assert f[124..135] == f[124..136][..11];
    assert f[100] == Number(Mode(name), 8)[0] == Octal(Mode(name), 7)[0];
  }

  /** What is stored is the sum of the header with spaces where the sum is stored. */
  lemma ChecksumHolds(name: Bytes, size: nat)
    requires |name| <= 99
    ensures var h := Header(name, size);
            ReadOctal(h[148..154]) == Sum(h[..148] + Fill(32, 8) + h[156..]) && h[154] == 0 && h[155] == 32
  {
    hide Front, Back, Fill, Octal, Sum, ReadOctal;
    var front, back := Front(name, size), Back();
    var sum := Sum(front + Fill(32, 8) + back);
    var h := Header(name, size);
    assert h[..148] == front && h[156..] == back;
    assert h[148..154] == Octal(sum, 6);
    NumberReads(sum, 6);
    SumBound(front + Fill(32, 8) + back);
    assert Pow8(6) == 262144;
    assert sum % 262144 == sum;
  }

  lemma {:induction false} SumBound(s: Bytes)
    ensures Sum(s) <= 255 * |s|
  {
    if s != [] { SumBound(s[..|s| - 1]); }
  }

  /** What one entry reads as, with whatever stands before and after it. */
  lemma EntryReads(before: Bytes, f: File, after: Bytes)
    requires |f.name| <= 99
    ensures var tar, i, size := before + Entry(f) + after, |before|, |f.body| % Pow8(11);
            i + 512 + |f.body| <= |tar| && tar[i..i + 512] != Zeros(512)
            && ReadOctal(tar[i..i + 512][124..135]) == size <= |f.body|
            && tar[i..i + 512][..100] == f.name + Zeros(100 - |f.name|)
            && (forall n :: 0 <= n <= |f.body| ==> tar[i + 512..i + 512 + n] == f.body[..n])
  {
    hide Header, Zeros, Octal, ReadOctal, Padding;
    var tar, i := before + Entry(f) + after, |before|;
    var header := Header(f.name, |f.body|);
    EntryParts(before, header, f.body, Zeros(Padding(|f.body|)), after);
    HeaderFields(f.name, |f.body|);
    NumberReads(|f.body|, 11);
    ModLessOrEqual(|f.body|, Pow8(11));
    BodyFront(tar, i + 512, f.body);
  }

  lemma BodyFront(tar: Bytes, at: nat, body: Bytes)
    requires at + |body| <= |tar| && tar[at..at + |body|] == body
    ensures forall n :: 0 <= n <= |body| ==> tar[at..at + n] == body[..n]
  {
    forall n | 0 <= n <= |body|
      ensures tar[at..at + n] == body[..n]
    {
      assert tar[at..at + n] == tar[at..at + |body|][..n];
    }
  }

  lemma EntryParts(before: Bytes, header: Bytes, body: Bytes, padding: Bytes, after: Bytes)
    requires |header| == 512
    ensures var tar, i := before + (header + body + padding) + after, |before|;
            i + 512 + |body| <= |tar| && tar[i..i + 512] == header && tar[i + 512..i + 512 + |body|] == body
  {
  }

  lemma ModLessOrEqual(a: nat, b: nat)
    requires b > 0
    ensures a % b <= a && (a % b == a <==> a < b)
  {
    assert a == (a / b) * b + a % b;
    assert a / b >= 0;
    assert (a / b) * b >= 0;
    if a < b { Quotient(a, b, 0, a); }
  }

  lemma BlocksArePadded(n: nat)
    ensures Blocks(n) == n + Padding(n)
  {
    var q, r := n / 512, n % 512;
    assert n == 512 * q + r;
    if r == 0 { assert (n + 511) / 512 == q; } else { assert (n + 511) / 512 == q + 1; }
  }

  lemma NameReads(name: Bytes, header: Bytes)
    requires |name| <= 99 && |header| == 512 && header[..100] == name + Zeros(100 - |name|)
    ensures header[..NameEnd(header[..100])] == name <==> 0 !in name
  {
    var field := header[..100];
    var end := NameEnd(field);
    assert header[..end] == field[..end];
    if 0 !in name {
      assert field[|name|] == 0;
      assert forall k :: 0 <= k < |name| ==> field[k] == name[k] && name[k] in name;
      NameEndAt(field, |name|);
      assert field[..|name|] == name;
    } else {
      var k :| 0 <= k < |name| && name[k] == 0;
      assert field[k] == 0 && end <= k;
    }
  }

  predicate AllFit(files: seq<File>) { forall f :: f in files ==> Fits(f) }

  /**
    Reading an archive gives back the files it was made of, whatever follows it, exactly
    when every name is free of NULs and every body is below 8^11 bytes; from the first file
    that is not, what is read differs.
   */
  lemma {:induction false} EntriesIff(before: Bytes, files: seq<File>, after: Bytes)
    requires NamesFit(files)
    ensures Entries(before + Archive(files) + after, |before|) == Some(files) <==> AllFit(files)
    decreases |files|
  {
    hide Entry, ReadOctal, Zeros, Pow8, Fits, Entries;
    if files == [] {
      NoFiles(before, after);
    } else {
      hide Archive;
      var f, rest := files[0], Archive(files[1..]);
      ArchiveFirst(files);
      assert before + (Entry(f) + rest) + after == before + Entry(f) + (rest + after);
      assert before + Entry(f) + rest + after == before + Entry(f) + (rest + after);
      FirstEntry(before, f, rest + after, files);
      EntriesIff(before + Entry(f), files[1..], after);
      assert AllFit(files) <==> Fits(f) && AllFit(files[1..]) by {
        assert files == [f] + files[1..];
      }
    }
  }

  lemma NoFiles(before: Bytes, after: Bytes)
    ensures Entries(before + Archive([]) + after, |before|) == Some([])
  {
    var tar := before + Archive([]) + after;
    assert tar[|before|..|before| + 512] == Zeros(512);
    NoMoreEntries(tar, |before|);
  }

  /** The first file of an archive comes back exactly when it fits, and then the reader stands after it. */
  lemma FirstEntry(before: Bytes, f: File, after: Bytes, files: seq<File>)
    requires files != [] && files[0] == f && |f.name| <= 99
    ensures var tar := before + Entry(f) + after;
            var rest := Entries(tar, |before + Entry(f)|);
            Entries(tar, |before|) == Some(files) <==> Fits(f) && rest == Some(files[1..])
  {
    hide Entry, ReadOctal, Zeros, Pow8, NameEnd, Header, Entries, Blocks, Padding;
    var tar := before + Entry(f) + after;
    var size := |f.body| % Pow8(11);
    EntryReads(before, f, after);
    FitsParts(f, size);
    NameReads(f.name, tar[|before|..|before| + 512]);
    EntriesUnfold(tar, |before|, size);
    EntryLength(f);
    var got := File(tar[|before|..|before| + 512][..NameEnd(tar[|before|..|before| + 512][..100])], f.body[..size]);
    assert got == f <==> Fits(f) by {
      if size == |f.body| { assert f.body[..size] == f.body; }
    }
    var rest := Entries(tar, |before| + 512 + Blocks(size));
    if rest.Some? { ConsIs(got, rest.value, files); }
  }

  lemma ConsIs(f: File, rest: seq<File>, files: seq<File>)
    requires files != []
    ensures [f] + rest == files <==> f == files[0] && rest == files[1..]
  {
    if [f] + rest == files { assert ([f] + rest)[1..] == rest; }
    if f == files[0] && rest == files[1..] { assert files == [files[0]] + files[1..]; }
  }

  lemma FitsParts(f: File, size: nat)
    requires size == |f.body| % Pow8(11)
    ensures Fits(f) <==> 0 !in f.name && size == |f.body|
  {
    ModLessOrEqual(|f.body|, Pow8(11));
  }

  lemma EntriesUnfold(tar: Bytes, i: nat, size: nat)
    requires i + 512 <= |tar| && tar[i..i + 512] != Zeros(512) && i + 512 + size <= |tar|
    requires ReadOctal(tar[i..i + 512][124..135]) == size
    ensures var f := File(tar[i..i + 512][..NameEnd(tar[i..i + 512][..100])], tar[i + 512..i + 512 + size]);
            var rest := Entries(tar, i + 512 + Blocks(size));
            Entries(tar, i) == if rest.Some? then Some([f] + rest.value) else None
  {
    hide ReadOctal, NameEnd, Blocks, Zeros;
  }

  /** Writing and reading back, for a whole archive, with anything at all behind its two zero blocks. */
  lemma TarRoundTrip(files: seq<File>, after: Bytes)
    requires NamesFit(files)
    ensures Entries(Archive(files) + after, 0) == Some(files) <==> AllFit(files)
  {
    var empty: Bytes := [];
    assert empty + Archive(files) + after == Archive(files) + after;
    EntriesIff(empty, files, after);
  }

  /** Where an entry starts: the sizes of those before it, each a whole number of blocks. */
  function Offset(files: seq<File>, k: nat): nat
    requires k <= |files|
  {
    if k == 0 then 0 else Offset(files, k - 1) + 512 + Blocks(|files[k - 1].body|)
  }

  lemma {:induction false} OffsetsAligned(files: seq<File>, k: nat)
    requires k <= |files|
    ensures Offset(files, k) % 512 == 0
  {
    if k > 0 {
      OffsetsAligned(files, k - 1);
      BlocksAligned(Offset(files, k - 1), |files[k - 1].body|);
    }
  }

  lemma BlocksAligned(o: nat, size: nat)
    requires o % 512 == 0
    ensures (o + 512 + Blocks(size)) % 512 == 0
  {
    Quotient(o + 512 + Blocks(size), 512, o / 512 + 1 + (size + 511) / 512, 0);
  }

  lemma {:induction false} EntryOffsets(files: seq<File>, k: nat)
    requires NamesFit(files) && k < |files|
    ensures Offset(files, k) % 512 == 0
    ensures files[k] in files && Offset(files, k) + |Entry(files[k])| <= |Archive(files)|
    ensures Archive(files)[Offset(files, k)..Offset(files, k) + |Entry(files[k])|] == Entry(files[k])
  {
    hide Entry, Blocks, Archive;
    OffsetsAligned(files, k);
    var first, rest := Entry(files[0]), Archive(files[1..]);
    ArchiveFirst(files);
    if k == 0 {
      assert Offset(files, 0) == 0;
      assert (first + rest)[0..|first|] == first;
    } else {
      EntryOffsets(files[1..], k - 1);
      OffsetFirst(files, k);
      EntryLength(files[0]);
      hide Offset;
      SliceAfter(first, rest, Offset(files[1..], k - 1), |Entry(files[k])|);
    }
  }

  lemma ArchiveFirst(files: seq<File>)
    requires NamesFit(files) && files != []
    ensures Archive(files) == Entry(files[0]) + Archive(files[1..])
  {
    hide Entry;
  }

  lemma SliceAfter(a: Bytes, b: Bytes, o: nat, n: nat)
    requires o + n <= |b|
    ensures (a + b)[|a| + o..|a| + o + n] == b[o..o + n]
  {
  }

  lemma EntryLength(f: File)
    requires |f.name| <= 99
    ensures |Entry(f)| == 512 + Blocks(|f.body|) && |Entry(f)| % 512 == 0
  {
    hide Header, Zeros, Padding;
    BlocksArePadded(|f.body|);
    Quotient(|Entry(f)|, 512, 1 + (|f.body| + 511) / 512, 0);
  }

  lemma {:induction false} OffsetFirst(files: seq<File>, k: nat)
    requires 0 < k <= |files|
    ensures Offset(files, k) == 512 + Blocks(|files[0].body|) + Offset(files[1..], k - 1)
  {
    if k > 1 { OffsetFirst(files, k - 1); }
  }
}
