/**
  What the terminology matcher finds, told for every form of one word and of two over
  every prose of as many: case, plurals and what may stand between two words.
 */
module TermRules {
  import opened Common
  import opened Terms

  const SMALL := "abcdefghijklmnopqrstuvwxyz"
  const LARGE := "ABCDEFGHIJKLMNOPQRSTUVWXYZ"
  const DIGITS := "0123456789"

  predicate AllWord(w: string) { w != "" && forall k :: 0 <= k < |w| ==> IsWord(w[k]) }

  /** Letters, digits, the underscore and every byte that is not ASCII are word bytes. */
  lemma WordBytes(c: char)
    ensures IsWord(c)
       <==> c in SMALL || c in LARGE || c in DIGITS
            || c == '_' || c as int >= 0x80
  {
    LetterIn(c);
  }

  lemma LetterIn(c: char)
    ensures 'a' <= c <= 'z' <==> c in SMALL
    ensures 'A' <= c <= 'Z' <==> c in LARGE
    ensures '0' <= c <= '9' <==> c in DIGITS
  {
    Counted(SMALL, 'a', 26, c) by { forall i: nat | i < 26 ensures SMALL[i] as int == 'a' as int + i { SmallAt(i); } }
    Counted(LARGE, 'A', 26, c) by { forall i: nat | i < 26 ensures LARGE[i] as int == 'A' as int + i { LargeAt(i); } }
    Counted(DIGITS, '0', 10, c);
  }

  /** A list of characters from one on, each the next. */
  lemma Counted(s: string, first: char, n: nat, c: char)
    requires |s| == n && forall i: nat :: i < n ==> s[i] as int == first as int + i
    ensures c in s <==> first as int <= c as int < first as int + n
  {
    if first as int <= c as int < first as int + n {
      assert s[c as int - first as int] as int == c as int;
    }
  }

  lemma SmallAt(i: nat)
    requires i < 26
    ensures SMALL[i] as int == 'a' as int + i
  {
  }

  lemma LargeAt(i: nat)
    requires i < 26
    ensures LARGE[i] as int == 'A' as int + i
  {
  }

  /** Folding takes each capital to its small letter and leaves the rest. */
  lemma Folding(c: char, i: nat)
    ensures i < 26 ==> LowerChar(LARGE[i]) == SMALL[i]
    ensures c !in LARGE ==> LowerChar(c) == c
  {
    LetterIn(c);
    if i < 26 {
      SmallAt(i);
      LargeAt(i);
    }
  }

  // ---- a form of one word ----

  /** A form is met in its own case when it is its term in another case, and otherwise in any. */
  predicate Meets(term: string, form: string, part: string, word: string) {
    if Lower(form) == Lower(term) then word == part else Lower(word) == Lower(part)
  }

  /** Of prose of one word, a form of one word finds just the words it is met in, and no plural. */
  lemma OneWordIff(term: string, w: string, prose: string)
    requires AllWord(w) && AllWord(prose)
    ensures NaiveHits([Term(term, [w])], prose) == if Meets(term, w, w, prose) then [Hit(prose, w, term)] else []
  {
    var terms := [Term(term, [w])];
    var f := FormOf(terms, 0, w);
    OneWord(w);
    OneWord(prose);
    LoneTable(term, w);
    var ws := Words(prose);
    SameFold(w, prose);
    LowerPlural(w);
    hide Lower, Words, NaiveHits, Fits, Candidate, AllForms, FormOf;
    LoneHits(terms, f, prose);
    LoneForm(f, prose, ws);
    ExactOf(term, w);
  }

  lemma SameFold(w: string, prose: string)
    ensures w == prose ==> Lower(w) == Lower(prose)
    ensures Lower(prose) == Lower(w) ==> |prose| == |w|
    ensures Lower(w + "s") != Lower(w)
  {
  }

  lemma ExactOf(term: string, w: string)
    ensures FormOf([Term(term, [w])], 0, w).exact <==> Lower(w) == Lower(term)
  {
    hide Words, Lower;
  }

  // ---- a form of two words ----

  predicate NoWordIn(gap: string) { gap != "" && forall k :: 0 <= k < |gap| ==> !IsWord(gap[k]) }

  predicate PhraseGap(gap: string) { forall k :: 0 <= k < |gap| ==> gap[k] == ' ' || gap[k] == '\t' || gap[k] == '-' }

  /** What two words with something between them are, as words. */
  lemma TwoWords(a: string, gap: string, b: string)
    requires AllWord(a) && NoWordIn(gap) && AllWord(b)
    ensures Words(a + gap + b) == [Word(0, a), Word(|a| + |gap|, b)]
  {
    hide IsWord, Words;
    var line := a + gap + b;
    assert forall k :: 0 <= k < |a| ==> line[k] == a[k];
    assert forall k :: 0 <= k < |gap| ==> line[|a| + k] == gap[k];
    assert forall k :: 0 <= k < |b| ==> line[|a| + |gap| + k] == b[k];
    assert line[..|a|] == a && line[|a| + |gap|..] == b;
    TwoRuns(line, |a|, |a| + |gap|);
  }

  lemma TwoRuns(line: string, i: nat, j: nat)
    requires 0 < i <= j < |line| && forall k :: 0 <= k < i ==> IsWord(line[k])
    requires i < j && (forall k :: i <= k < j ==> !IsWord(line[k])) && forall k :: j <= k < |line| ==> IsWord(line[k])
    ensures Words(line) == [Word(0, line[..i]), Word(j, line[j..])]
  {
    hide IsWord;
    RunEnds(line, 0, i);
    Skips(line, i, j);
    RunEnds(line, j, |line|);
    assert line[0..i] == line[..i] && line[j..|line|] == line[j..];
    assert WordsFrom(line, |line|) == [];
    assert WordsFrom(line, j) == [Word(j, line[j..])] + [];
    assert WordsFrom(line, 0) == [Word(0, line[..i])] + WordsFrom(line, i);
  }

  lemma {:induction false} RunEnds(line: string, i: nat, j: nat)
    requires i <= j <= |line| && (forall k :: i <= k < j ==> IsWord(line[k])) && (j < |line| ==> !IsWord(line[j]))
    ensures RunEnd(line, i) == j
    decreases j - i
  {
    hide IsWord;
    if i < j { RunEnds(line, i + 1, j); }
  }

  lemma {:induction false} Skips(line: string, i: nat, j: nat)
    requires i <= j <= |line| && forall k :: i <= k < j ==> !IsWord(line[k])
    ensures WordsFrom(line, i) == WordsFrom(line, j)
    decreases j - i
  {
    hide IsWord;
    if i < j { Skips(line, i + 1, j); }
  }

  /** The form of two words a table of it has. */
  lemma PairTable(term: string, a: string, gap: string, b: string)
    requires AllWord(a) && NoWordIn(gap) && AllWord(b)
    ensures var form := a + gap + b;
            var terms := [Term(term, [form])];
            var f := FormOf(terms, 0, form);
            AllForms(terms) == [f] && f == Form([Lower(a), Lower(b)], [a, b], form, 0, Lower(form) == Lower(term))
  {
    hide Lower, Words, IsWord;
    var form := a + gap + b;
    var terms := [Term(term, [form])];
    TwoWords(a, gap, b);
    var f := FormOf(terms, 0, form);
    assert f.raw == [a, b] && f.words == [Lower(a), Lower(b)];
    hide FormOf;
    assert TermForms(terms, 0, 0) == [];
    assert TermForms(terms, 0, 1) == [f];
    assert FormsUpTo(terms, 0) == [];
  }

  /** A table of one form of two words over prose of two words. */
  lemma PairForm(f: Form, prose: string, ws: seq<Word>)
    requires InOrder(prose, ws) && |ws| == 2 && |f.words| == |f.raw| == 2
    ensures Fits(f, prose, ws, 0) <==>
      OnePhrase(prose, ws[0], ws[1]) && WordFits(f, 0, ws[0].text) && WordFits(f, 1, ws[1].text)
    ensures Spans([f], prose, ws, 0) == if Candidate(f, prose, ws, 0) then [Span(0, f)] else []
  {
    hide WordFits, Lower, OnePhrase;
    assert ws[0..2] == ws;
    assert Longest([], prose, ws, 0) == None && Longest([], prose, ws, 1) == None && [f][..0] == [];
    assert Longest([f], prose, ws, 0) == if Candidate(f, prose, ws, 0) then Some(f) else None;
    assert Longest([f], prose, ws, 1) == None;
    assert Spans([f], prose, ws, 2) == [];
    assert Spans([f], prose, ws, 1) == [];
  }

  lemma PairHits(terms: seq<Term>, f: Form, prose: string)
    requires AllForms(terms) == [f] && |f.words| == |f.raw| == 2 && f.term < |terms|
    requires |Words(prose)| == 2 && Words(prose)[0].at == 0 && Words(prose)[1].at + |Words(prose)[1].text| == |prose|
    ensures InOrder(prose, Words(prose))
    ensures NaiveHits(terms, prose) ==
      if Candidate(f, prose, Words(prose), 0) then [Hit(prose, f.text, terms[f.term].term)] else []
  {
    hide Lower, Words, AllForms, Candidate, InOrder, Longest, Spans;
    WordsAreRuns(prose);
    FormsShapedAll(terms);
    var ws := Words(prose);
    SpansPlaced(terms, AllForms(terms), prose, ws, 0);
    PairForm(f, prose, ws);
    var spans := Spans([f], prose, ws, 0);
    assert NaiveHits(terms, prose) == HitsOf(terms, prose, ws, spans);
    hide NaiveHits;
    if spans != [] {
      assert spans == [Span(0, f)] && prose[0..|prose|] == prose;
      LoneHit(terms, prose, ws, spans);
    }
  }

  /**
    Of prose of two words, a form of two words is found exactly when spaces, tabs and
    hyphens are all that stands between them, the first is met as written and the second
    as written or in the plural.
   */
  lemma TwoWordsIff(term: string, a: string, gap: string, b: string, u: string, between: string, v: string)
    requires AllWord(a) && NoWordIn(gap) && AllWord(b) && AllWord(u) && NoWordIn(between) && AllWord(v)
    ensures var form, prose := a + gap + b, u + between + v;
            NaiveHits([Term(term, [form])], prose)
              == if PhraseGap(between) && Meets(term, form, a, u)
                    && (Meets(term, form, b, v) || Meets(term, form, b + "s", v))
                 then [Hit(prose, form, term)] else []
  {
    var form, prose := a + gap + b, u + between + v;
    var terms := [Term(term, [form])];
    var f := FormOf(terms, 0, form);
    hide Lower, Words, NaiveHits, AllForms, FormOf, IsWord, Candidate, PhraseGap, Meets;
    PairTable(term, a, gap, b);
    TwoWords(u, between, v);
    assert u + between + v == prose && between != "";
    hide NoWordIn, AllWord;
    PairFound(terms, f, a, b, prose, u, between, v);
  }

  lemma PairFound(terms: seq<Term>, f: Form, a: string, b: string, prose: string, u: string, between: string, v: string)
    requires AllForms(terms) == [f] && f.term == 0 && |terms| == 1
    requires f == Form([Lower(a), Lower(b)], [a, b], f.text, 0, Lower(f.text) == Lower(terms[0].term))
    requires prose == u + between + v && between != "" && Words(prose) == [Word(0, u), Word(|u| + |between|, v)]
    ensures var term := terms[0].term;
            NaiveHits(terms, prose)
              == if PhraseGap(between) && Meets(term, f.text, a, u)
                    && (Meets(term, f.text, b, v) || Meets(term, f.text, b + "s", v))
                 then [Hit(prose, f.text, term)] else []
  {
    hide Lower, Words, NaiveHits, AllForms, Candidate, PhraseGap, Meets;
    PairHits(terms, f, prose);
    PairFits(f, terms[0].term, a, b, prose, u, between, v);
  }

  lemma PairFits(f: Form, term: string, a: string, b: string, prose: string, u: string, between: string, v: string)
    requires f == Form([Lower(a), Lower(b)], [a, b], f.text, 0, Lower(f.text) == Lower(term))
    requires prose == u + between + v && between != "" && InOrder(prose, Words(prose))
    requires Words(prose) == [Word(0, u), Word(|u| + |between|, v)]
    ensures Candidate(f, prose, Words(prose), 0) <==>
      PhraseGap(between) && Meets(term, f.text, a, u) && (Meets(term, f.text, b, v) || Meets(term, f.text, b + "s", v))
  {
    LowerPlural(b);
    SameFold(a, u);
    hide Lower, Words, Spans;
    var ws := Words(prose);
    PairForm(f, prose, ws);
    hide Fits;
    assert OnePhrase(prose, ws[0], ws[1]) <==> PhraseGap(between) by {
      assert forall k :: 0 <= k < |between| ==> prose[|u| + k] == between[k];
    }
  }
}
