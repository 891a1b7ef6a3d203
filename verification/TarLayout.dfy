/**
  The archive byte by byte, as the "ustar Interchange Format" of the pax utility in IEEE
  Std 1003.1 places its fields, and what a reader makes of fields written otherwise.
 */
module TarLayout {
  import opened Common
  import opened Tar

  predicate HasAt(h: Bytes, at: nat, field: Bytes) { at + |field| <= |h| && h[at..at + |field|] == field }

  predicate ZeroIn(h: Bytes, lo: nat, hi: nat) { forall k :: lo <= k < hi && k < |h| ==> h[k] == 0 }

  /** These characters stand somewhere in the name. */
  ghost predicate Holds(name: Bytes, part: Bytes) { exists i: nat :: HasAt(name, i, part) }

  lemma {:induction false} HoldsIff(name: Bytes, part: Bytes)
    requires part != []
    ensures Contains(name, part) <==> Holds(name, part)
    decreases |name|
  {
    assert part <= name <==> HasAt(name, 0, part);
    if part <= name {
    } else if name != [] {
      HoldsIff(name[1..], part);
      if Contains(name[1..], part) {
        var i: nat :| HasAt(name[1..], i, part);
        assert name[1..][i..i + |part|] == name[i + 1..i + 1 + |part|];
        assert HasAt(name, i + 1, part);
      }
      if Holds(name, part) {
        var i: nat :| HasAt(name, i, part);
        assert name[1..][i - 1..i - 1 + |part|] == name[i..i + |part|];
        assert HasAt(name[1..], i - 1, part);
      }
    }
  }

  /** `bin/`, `.so`, `.dll` and `.dylib` in the bytes of a name: the first two anywhere, the others at its end. */
  ghost predicate Runs(name: Bytes) {
    Holds(name, [0x62, 0x69, 0x6E, 0x2F]) || Holds(name, [0x2E, 0x73, 0x6F])
    || (|name| >= 4 && HasAt(name, |name| - 4, [0x2E, 0x64, 0x6C, 0x6C]))
    || (|name| >= 6 && HasAt(name, |name| - 6, [0x2E, 0x64, 0x79, 0x6C, 0x69, 0x62]))
  }

  /** A file is unpacked as 755 exactly when it is one to run, and otherwise as 644. */
  lemma ModeIff(name: Bytes)
    ensures Number(Mode(name), 8) ==
      if Runs(name) then [0x30, 0x30, 0x30, 0x30, 0x37, 0x35, 0x35, 0]
      else [0x30, 0x30, 0x30, 0x30, 0x36, 0x34, 0x34, 0]
  {
    RunsIff(name);
    SevenDigits(0x1ED, 7, 5, 5);
    SevenDigits(0x1A4, 6, 4, 4);
  }

  lemma RunsIff(name: Bytes)
    ensures Mode(name) == if Runs(name) then 0x1ED else 0x1A4
  {
    Words();
    hide Holds, Contains, Octets;
    HoldsIff(name, Octets("bin/"));
    HoldsIff(name, Octets(".so"));
    EndsIff(name, Octets(".dll"));
    EndsIff(name, Octets(".dylib"));
  }

  lemma EndsIff(name: Bytes, part: Bytes)
    ensures EndsWith(name, part) <==> |name| >= |part| && HasAt(name, |name| - |part|, part)
  {
  }

  lemma Words()
    ensures Octets("bin/") == [0x62, 0x69, 0x6E, 0x2F] && Octets(".so") == [0x2E, 0x73, 0x6F]
    ensures Octets(".dll") == [0x2E, 0x64, 0x6C, 0x6C] && Octets(".dylib") == [0x2E, 0x64, 0x79, 0x6C, 0x69, 0x62]
  {
  }

  lemma SevenDigits(v: nat, a: nat, b: nat, c: nat)
    requires a < 8 && b < 8 && c < 8 && v == 64 * a + 8 * b + c
    ensures Octal(v, 7) == [48, 48, 48, 48, 48 + a, 48 + b, 48 + c]
  {
    OctalStep(v, 7); OctalStep(v / 8, 6); OctalStep(v / 64, 5);
    assert v / 8 == 8 * a + b && v / 8 / 8 == a && v / 8 / 8 / 8 == 0;
    OctalZero(4);
  }

  /** Every byte of a header, by where the format has it; the checksum is `ChecksumHolds`. */
  lemma HeaderLayout(name: Bytes, size: nat)
    requires |name| <= 99
    ensures var h := Header(name, size);
            HasAt(h, 0, name) && ZeroIn(h, |name|, 100)
            && HasAt(h, 100, Number(Mode(name), 8))
            && HasAt(h, 108, Fill(0x30, 7) + [0]) && HasAt(h, 116, Fill(0x30, 7) + [0])
            && HasAt(h, 124, Octal(size, 11) + [0]) && HasAt(h, 136, Fill(0x30, 11) + [0])
            && h[156] == 0x30 && ZeroIn(h, 157, 257)
            && HasAt(h, 257, [0x75, 0x73, 0x74, 0x61, 0x72, 0]) && HasAt(h, 263, [0x30, 0x30]) && ZeroIn(h, 265, 512)
  {
    hide Mode, Sum, Octal;
    FrontLayout(name, size);
    BackLayout();
    var h := Header(name, size);
    hide Front, Back, Number, Fill;
    Apart(h, Front(name, size), Back());
  }

  lemma Apart(h: Bytes, front: Bytes, back: Bytes)
    requires |front| == 148 && |back| == 356 && |h| == 512 && h[..148] == front && h[156..] == back
    ensures forall k :: 0 <= k < 148 ==> h[k] == front[k]
    ensures forall k :: 156 <= k < 512 ==> h[k] == back[k - 156]
    ensures forall at: nat, field: Bytes :: at + |field| <= 148 && HasAt(front, at, field) ==> HasAt(h, at, field)
    ensures forall at: nat, field: Bytes :: at >= 156 && HasAt(back, at - 156, field) ==> HasAt(h, at, field)
  {
    forall at: nat, field: Bytes | at + |field| <= 148 && HasAt(front, at, field) ensures HasAt(h, at, field) {
      assert h[at..at + |field|] == front[at..at + |field|];
    }
    forall at: nat, field: Bytes | at >= 156 && HasAt(back, at - 156, field) ensures HasAt(h, at, field) {
      assert h[at..at + |field|] == back[at - 156..at - 156 + |field|];
    }
  }

  lemma FrontLayout(name: Bytes, size: nat)
    requires |name| <= 99
    ensures var f := Front(name, size);
            HasAt(f, 0, name) && ZeroIn(f, |name|, 100)
            && HasAt(f, 100, Number(Mode(name), 8))
            && HasAt(f, 108, Fill(0x30, 7) + [0]) && HasAt(f, 116, Fill(0x30, 7) + [0])
            && HasAt(f, 124, Octal(size, 11) + [0]) && HasAt(f, 136, Fill(0x30, 11) + [0])
  {
    hide Mode, Octal;
    OctalZero(7);
    OctalZero(11);
  }

  lemma BackLayout()
    ensures var b := Back();
            b[0] == 0x30 && ZeroIn(b, 1, 101)
            && HasAt(b, 101, [0x75, 0x73, 0x74, 0x61, 0x72, 0]) && HasAt(b, 107, [0x30, 0x30]) && ZeroIn(b, 109, 356)
  {
  }

  /** A body stands right behind its header, zeros fill its last block, and two blocks of zeros end the archive. */
  lemma ArchiveLayout(files: seq<File>, k: nat)
    requires NamesFit(files) && k < |files|
    ensures files[k] in files
    ensures var f, at := files[k], Offset(files, k);
            HasAt(Archive(files), at, Header(f.name, |f.body|)) && HasAt(Archive(files), at + 512, f.body)
            && ZeroIn(Archive(files), at + 512 + |f.body|, at + 512 + Blocks(|f.body|))
    ensures HasAt(Archive(files), Offset(files, |files|), Zeros(1024))
    ensures |Archive(files)| == Offset(files, |files|) + 1024
  {
    hide Header, Archive, Blocks, Offset, HasAt, ZeroIn;
    var f := files[k];
    EntryOffsets(files, k);
    BlocksArePadded(|f.body|);
    PartsAt(Archive(files), Offset(files, k), Header(f.name, |f.body|), f.body, Padding(|f.body|));
    ArchiveEnds(files);
  }

  lemma PartsAt(all: Bytes, at: nat, head: Bytes, body: Bytes, pad: nat)
    requires at + |head| + |body| + pad <= |all|
    requires all[at..at + |head| + |body| + pad] == head + body + Zeros(pad)
    ensures HasAt(all, at, head) && HasAt(all, at + |head|, body)
    ensures ZeroIn(all, at + |head| + |body|, at + |head| + |body| + pad)
  {
    var e, from := head + body + Zeros(pad), at + |head|;
    assert forall i :: 0 <= i < |e| ==> all[at + i] == e[i];
    assert all[at..from] == e[..|head|] && all[from..from + |body|] == e[|head|..|head| + |body|];
    forall k | from + |body| <= k < from + |body| + pad ensures all[k] == 0 {
      assert all[at + (k - at)] == e[k - at];
    }
  }

  lemma {:induction false} ArchiveEnds(files: seq<File>)
    requires NamesFit(files)
    ensures |Archive(files)| == Offset(files, |files|) + 1024
    ensures HasAt(Archive(files), Offset(files, |files|), Zeros(1024))
  {
    hide Entry, Blocks, Zeros;
    if files == [] {
      ArchiveEnd(files);
      assert Zeros(1024)[0..1024] == Zeros(1024);
    } else {
      ArchiveEnds(files[1..]);
      ArchiveFirst(files);
      EntryLength(files[0]);
      OffsetFirst(files, |files|);
      SliceAfter(Entry(files[0]), Archive(files[1..]), Offset(files[1..], |files| - 1), 1024);
    }
  }

  // ---- fields written otherwise ----

  lemma {:induction false} TrimNuls(s: Bytes, n: nat)
    requires s == [] || s[|s| - 1] != 0
    ensures TrimNul(s + Zeros(n)) == s
  {
    var t := s + Zeros(n);
    if n > 0 {
      TrimNuls(s, n - 1);
      assert t[..|t| - 1] == s + Zeros(n - 1);
    } else {
      assert t == s;
    }
  }

  lemma {:induction false} TrimBlanks(a: nat, s: Bytes, b: nat)
    requires s != [] && !IsBlank(s[0]) && !IsBlank(s[|s| - 1])
    ensures TrimBlank(Fill(32, a) + s + Fill(32, b)) == s
    decreases a + b
  {
    var t := Fill(32, a) + s + Fill(32, b);
    if b > 0 {
      TrimBlanks(a, s, b - 1);
      assert t[..|t| - 1] == Fill(32, a) + s + Fill(32, b - 1);
    } else if a > 0 {
      TrimBlanks(a - 1, s, b);
      assert t[|t| - 1] == s[|s| - 1];
      assert t[1..] == Fill(32, a - 1) + s + Fill(32, b);
    } else {
      assert t == s;
    }
  }

  /** Spaces about the digits of a size, a plus in front and NULs behind are passed over. */
  lemma LenientSize(a: nat, plus: bool, v: nat, k: nat, b: nat, n: nat)
    requires k > 0
    ensures ReadOctal(Fill(32, a) + ((if plus then [43] else []) + Octal(v, k)) + Fill(32, b) + Zeros(n)) == v % Pow8(k)
  {
    hide Octal, TrimNul, TrimBlank;
    var digits := Octal(v, k);
    var s := (if plus then [43] else []) + digits;
    var t := Fill(32, a) + s + Fill(32, b);
    assert digits[0] == s[if plus then 1 else 0] && digits[k - 1] == s[|s| - 1];
    assert t[|t| - 1] == if b > 0 then 32 else s[|s| - 1];
    hide Fill;
    TrimNuls(t, n);
    TrimBlanks(a, s, b);
    OctalReads(v, k);
    hide OctalValue, Pow8;
    SignedOctal(t + Zeros(n), s, digits, plus);
  }

  lemma SignedOctal(field: Bytes, s: Bytes, digits: Bytes, plus: bool)
    requires TrimBlank(TrimNul(field)) == s && s == (if plus then [43] else []) + digits
    requires digits != [] && AllOctal(digits)
    ensures ReadOctal(field) == OctalValue(digits)
  {
    hide TrimBlank, TrimNul, OctalValue;
    if plus { assert s[1..] == digits; } else { assert s == digits && s[0] == digits[0]; }
  }

  /** Anything else among the digits makes the size nothing. */
  lemma NotASize(s: Bytes, k: nat)
    requires k < |s| && !(48 <= s[k] < 56) && !IsBlank(s[0]) && !IsBlank(s[|s| - 1]) && s[|s| - 1] != 0
    requires k > 0 || s[0] != 43
    ensures ReadOctal(s) == 0
  {
    assert TrimNul(s) == s && TrimBlank(s) == s;
    if s[0] == 43 { assert s[1..][k - 1] == s[k]; }
  }
}
