/**
  The terminology matcher of crates/xtask/src/terms.rs: forms indexed by their
  first word, and one pass over the words of a line of prose. The prose is ASCII,
  which is what the case folding here folds.
 */
module Terms {
  import opened Common

  // ---- words ----

  predicate IsWord(c: char) {
    'a' <= c <= 'z' || 'A' <= c <= 'Z' || '0' <= c <= '9' || c == '_' || c as int >= 0x80
  }

  datatype Word = Word(at: nat, text: string)

  /** The end of the run of word bytes from `i`. */
  function RunEnd(line: string, i: nat): (j: nat)
    requires i <= |line|
    ensures i <= j <= |line| && (j < |line| ==> !IsWord(line[j]))
    ensures forall k :: i <= k < j ==> IsWord(line[k])
    decreases |line| - i
  { if i < |line| && IsWord(line[i]) then RunEnd(line, i + 1) else i }

  /** The words from `i` on, `i` not being inside one. */
  function WordsFrom(line: string, i: nat): seq<Word>
    requires i <= |line|
    decreases |line| - i
  {
    if i == |line| then []
    else if !IsWord(line[i]) then WordsFrom(line, i + 1)
    else
      var j := RunEnd(line, i);
      [Word(i, line[i..j])] + WordsFrom(line, j)
  }

  function Words(line: string): seq<Word> { WordsFrom(line, 0) }

  /** A maximal run of word bytes. */
  ghost predicate WholeWord(line: string, w: Word) {
    w.text != "" && w.at + |w.text| <= |line| && line[w.at..w.at + |w.text|] == w.text &&
    (forall k :: 0 <= k < |w.text| ==> IsWord(w.text[k])) &&
    (w.at > 0 ==> !IsWord(line[w.at - 1])) && (w.at + |w.text| < |line| ==> !IsWord(line[w.at + |w.text|]))
  }

  /** In order in the line, with at least a byte between any two. */
  ghost predicate InOrder(line: string, ws: seq<Word>) {
    (forall i :: 0 <= i < |ws| ==> ws[i].at + |ws[i].text| <= |line|) &&
    (forall i, j :: 0 <= i < j < |ws| ==> ws[i].at + |ws[i].text| < ws[j].at)
  }

  /** No word is cut by starting at `i`. */
  predicate Between(line: string, i: nat) {
    i <= |line| && (0 < i < |line| && IsWord(line[i]) ==> !IsWord(line[i - 1]))
  }

  lemma {:induction false} WordsWhole(line: string, i: nat, w: Word)
    requires Between(line, i) && w in WordsFrom(line, i)
    ensures WholeWord(line, w) && w.at >= i
    decreases |line| - i
  {
    if !IsWord(line[i]) {
      WordsWhole(line, i + 1, w);
    } else {
      var j := RunEnd(line, i);
      if w != Word(i, line[i..j]) {
        WordsWhole(line, j, w);
      }
    }
  }

  lemma {:induction false} WordsOrdered(line: string, i: nat)
    requires Between(line, i)
    ensures InOrder(line, WordsFrom(line, i))
    decreases |line| - i
  {
    if i < |line| {
      if !IsWord(line[i]) {
        WordsOrdered(line, i + 1);
      } else {
        var j := RunEnd(line, i);
        var rest := WordsFrom(line, j);
        WordsOrdered(line, j);
        forall m | 0 <= m < |rest|
          ensures rest[m].at > j
        {
          assert rest[m] in rest;
          WordsWhole(line, j, rest[m]);
          assert rest[m].text[0] == line[rest[m].at];
        }
      }
    }
  }

  /** No word byte is outside the words. */
  lemma {:induction false} WordsCover(line: string, i: nat, k: nat)
    requires i <= k < |line| && IsWord(line[k])
    ensures exists w :: w in WordsFrom(line, i) && w.at <= k < w.at + |w.text|
    decreases |line| - i
  {
    if !IsWord(line[i]) {
      WordsCover(line, i + 1, k);
    } else {
      var j := RunEnd(line, i);
      var first := Word(i, line[i..j]);
      assert first in WordsFrom(line, i);
      if k >= j {
        WordsCover(line, j, k);
        var w :| w in WordsFrom(line, j) && w.at <= k < w.at + |w.text|;
        assert w in WordsFrom(line, i);
      }
    }
  }

  /** The words are the maximal runs of word bytes, in order and all of them. */
  lemma WordsAreRuns(line: string)
    ensures forall w :: w in Words(line) ==> WholeWord(line, w)
    ensures InOrder(line, Words(line))
    ensures forall k :: 0 <= k < |line| && IsWord(line[k]) ==>
      exists w :: w in Words(line) && w.at <= k < w.at + |w.text|
  {
    hide IsWord;
    forall w | w in Words(line)
      ensures WholeWord(line, w)
    {
      WordsWhole(line, 0, w);
    }
    WordsOrdered(line, 0);
    forall k | 0 <= k < |line| && IsWord(line[k])
      ensures exists w :: w in Words(line) && w.at <= k < w.at + |w.text|
    {
      WordsCover(line, 0, k);
    }
  }

  /** `words`. */
  method ListWords(line: string) returns (ws: seq<Word>)
    ensures ws == Words(line)
  {
    ws := [];
    var i := 0;
    while i < |line|
      invariant 0 <= i <= |line|
      invariant ws + WordsFrom(line, i) == Words(line)
    {
      if !IsWord(line[i]) {
        i := i + 1;
      } else {
        var start := i;
        while i < |line| && IsWord(line[i])
          invariant start <= i <= |line|
          invariant RunEnd(line, i) == RunEnd(line, start)
        {
          i := i + 1;
        }
        ws := ws + [Word(start, line[start..i])];
      }
    }
  }

  // ---- forms ----

  function LowerChar(c: char): char { if 'A' <= c <= 'Z' then c + 32 as char else c }

  function Lower(s: string): (r: string)
    ensures |r| == |s| && forall i :: 0 <= i < |r| ==> r[i] == LowerChar(s[i])
  { seq(|s|, i requires 0 <= i < |s| => LowerChar(s[i])) }

  datatype Term = Term(term: string, instead: seq<string>)

  datatype Form = Form(words: seq<string>, raw: seq<string>, text: string, term: nat, exact: bool)

  function Texts(ws: seq<Word>): (r: seq<string>)
    ensures |r| == |ws| && forall i :: 0 <= i < |r| ==> r[i] == ws[i].text
  { seq(|ws|, i requires 0 <= i < |ws| => ws[i].text) }

  function Lowered(raw: seq<string>): (r: seq<string>)
    ensures |r| == |raw| && forall i :: 0 <= i < |r| ==> r[i] == Lower(raw[i])
  { seq(|raw|, i requires 0 <= i < |raw| => Lower(raw[i])) }

  /** A form prepared for matching; case is its point when it is its own term in another case. */
  function FormOf(terms: seq<Term>, at: nat, form: string): Form
    requires at < |terms|
  {
    var raw := Texts(Words(form));
    Form(Lowered(raw), raw, form, at, Lower(form) == Lower(terms[at].term))
  }

  /** The first `k` forms of a term. */
  function TermForms(terms: seq<Term>, at: nat, k: nat): seq<Form>
    requires at < |terms| && k <= |terms[at].instead|
  {
    if k == 0 then [] else TermForms(terms, at, k - 1) + [FormOf(terms, at, terms[at].instead[k - 1])]
  }

  /** The forms of the first `n` terms, in the order the table writes them. */
  function FormsUpTo(terms: seq<Term>, n: nat): seq<Form>
    requires n <= |terms|
  {
    if n == 0 then [] else FormsUpTo(terms, n - 1) + TermForms(terms, n - 1, |terms[n - 1].instead|)
  }

  function AllForms(terms: seq<Term>): seq<Form> { FormsUpTo(terms, |terms|) }

  predicate Same(a: Form, b: Form) { a.exact == b.exact && if a.exact then a.raw == b.raw else a.words == b.words }

  /** A form that can be found and is nobody's term, its own in another case apart. */
  ghost predicate FormGood(terms: seq<Term>, f: Form) {
    f.words != [] && (f.exact || forall i :: 0 <= i < |terms| ==> Lower(f.text) != Lower(terms[i].term))
  }

  ghost predicate TermsApart(terms: seq<Term>) {
    forall i, j :: 0 <= i < j < |terms| ==> Lower(terms[i].term) != Lower(terms[j].term)
  }

  ghost predicate FormsApart(forms: seq<Form>) {
    forall i, j :: 0 <= i < j < |forms| ==> !Same(forms[i], forms[j])
  }

  ghost predicate FormsGood(terms: seq<Term>, forms: seq<Form>) {
    forall i :: 0 <= i < |forms| ==> FormGood(terms, forms[i])
  }

  /** No word both right and wrong, and none wrong twice. */
  ghost predicate Acceptable(terms: seq<Term>) {
    TermsApart(terms) && FormsGood(terms, AllForms(terms)) && FormsApart(AllForms(terms))
  }

  /** The forms that begin with a word, in table order. */
  function Bucket(forms: seq<Form>, key: string): seq<Form> {
    if forms == [] then []
    else
      var n := |forms| - 1;
      Bucket(forms[..n], key) + if forms[n].words != [] && forms[n].words[0] == key then [forms[n]] else []
  }

  type Index = map<string, seq<Form>>

  function BucketIn(index: Index, key: string): seq<Form> { if key in index then index[key] else [] }

  /** Every lookup gives the forms that begin with the word, all of them and in order. */
  ghost predicate Indexes(index: Index, forms: seq<Form>) {
    forall key :: BucketIn(index, key) == Bucket(forms, key)
  }

  lemma {:induction false} BucketHas(forms: seq<Form>, key: string, f: Form)
    ensures f in Bucket(forms, key) <==> f in forms && f.words != [] && f.words[0] == key
  {
    if forms != [] {
      var n := |forms| - 1;
      BucketHas(forms[..n], key, f);
      assert forms == forms[..n] + [forms[n]];
    }
  }

  lemma BucketMore(index: Index, forms: seq<Form>, f: Form)
    requires Indexes(index, forms) && f.words != []
    ensures Indexes(index[f.words[0] := BucketIn(index, f.words[0]) + [f]], forms + [f])
  {
    var more := index[f.words[0] := BucketIn(index, f.words[0]) + [f]];
    forall key
      ensures BucketIn(more, key) == Bucket(forms + [f], key)
    {
      assert (forms + [f])[..|forms|] == forms;
      assert BucketIn(index, key) == Bucket(forms, key);
    }
  }

  /** Whether a new form repeats one there is, which only its own bucket can hold. */
  method Repeats(bucket: seq<Form>, f: Form, ghost forms: seq<Form>) returns (r: bool)
    requires f.words != [] && bucket == Bucket(forms, f.words[0])
    requires f.words == Lowered(f.raw) && forall g :: g in forms ==> g.words == Lowered(g.raw)
    ensures r <==> exists g :: g in forms && Same(g, f)
  {
    forall g | g in forms && Same(g, f)
      ensures g in bucket
    {
      BucketHas(forms, f.words[0], g);
    }
    for i := 0 to |bucket|
      invariant forall j :: 0 <= j < i ==> !Same(bucket[j], f)
    {
      if Same(bucket[i], f) {
        BucketHas(forms, f.words[0], bucket[i]);
        return true;
      }
    }
    return false;
  }

  /** What the forms done so far have to be for the rest to be worth reading. */
  ghost predicate Settled(terms: seq<Term>, forms: seq<Form>, index: Index) {
    FormsGood(terms, forms) && FormsApart(forms) && Indexes(index, forms) &&
    forall i :: 0 <= i < |forms| ==> forms[i].words == Lowered(forms[i].raw)
  }

  /** One more form: refused when it is somebody's term, has no word, or repeats another. */
  method AddForm(terms: seq<Term>, seen: map<string, nat>, at: nat, form: string, index: Index, ghost forms: seq<Form>)
    returns (r: Option<Index>)
    requires at < |terms| && Settled(terms, forms, index)
    requires forall key :: key in seen <==> exists i :: 0 <= i < |terms| && Lower(terms[i].term) == key
    ensures r.Some? ==> Settled(terms, forms + [FormOf(terms, at, form)], r.value)
    ensures r.None? ==> !(FormsGood(terms, forms + [FormOf(terms, at, form)]) &&
                          FormsApart(forms + [FormOf(terms, at, form)]))
  {
    hide Words, Lower, Bucket, BucketIn, Indexes, Same;
    var f := FormOf(terms, at, form);
    ghost var more := forms + [f];
    assert more[|forms|] == f;
    var lower := Lower(form);
    if !f.exact && lower in seen {
      return None;
    }
    if f.words == [] {
      return None;
    }
    var key := f.words[0];
    var bucket := BucketIn(index, key);
    assert bucket == Bucket(forms, key) by { BucketOf(index, forms, key); }
    assert forall g :: g in forms ==> g.words == Lowered(g.raw);
    var repeats := Repeats(bucket, f, forms);
    if repeats {
      ghost var g :| g in forms && Same(g, f);
      ghost var i :| 0 <= i < |forms| && forms[i] == g;
      assert more[i] == g;
      return None;
    }
    BucketMore(index, forms, f);
    return Some(index[key := bucket + [f]]);
  }

  lemma BucketOf(index: Index, forms: seq<Form>, key: string)
    requires Indexes(index, forms)
    ensures BucketIn(index, key) == Bucket(forms, key)
  {
  }

  lemma {:induction false} TermFormsPrefix(terms: seq<Term>, at: nat, k: nat, n: nat)
    requires at < |terms| && k <= n <= |terms[at].instead|
    ensures TermForms(terms, at, k) <= TermForms(terms, at, n)
  {
    if k < n {
      TermFormsPrefix(terms, at, k, n - 1);
    }
  }

  lemma {:induction false} FormsPrefix(terms: seq<Term>, n: nat, m: nat)
    requires n <= m <= |terms|
    ensures FormsUpTo(terms, n) <= FormsUpTo(terms, m)
  {
    hide TermForms;
    if n < m {
      FormsPrefix(terms, n, m - 1);
    }
  }

  /** The forms done after `k` of a term's begin the forms of the table. */
  lemma DonePrefix(terms: seq<Term>, at: nat, k: nat)
    requires at < |terms| && k <= |terms[at].instead|
    ensures FormsUpTo(terms, at) + TermForms(terms, at, k) <= AllForms(terms)
  {
    TermFormsPrefix(terms, at, k, |terms[at].instead|);
    FormsPrefix(terms, at + 1, |terms|);
    assert FormsUpTo(terms, at) + TermForms(terms, at, k) <= FormsUpTo(terms, at + 1);
  }

  lemma BadPrefix(terms: seq<Term>, part: seq<Form>, forms: seq<Form>)
    requires part <= forms && !(FormsGood(terms, part) && FormsApart(part))
    ensures !(FormsGood(terms, forms) && FormsApart(forms))
  {
    hide Same, FormGood;
    assert forall i :: 0 <= i < |part| ==> part[i] == forms[i];
  }

  /** The terms by their lower case, which no two share. */
  method SeeTerms(terms: seq<Term>) returns (r: Option<map<string, nat>>)
    ensures r.Some? <==> TermsApart(terms)
    ensures r.Some? ==> forall key :: key in r.value <==> exists i :: 0 <= i < |terms| && Lower(terms[i].term) == key
  {
    hide Lower;
    var seen: map<string, nat> := map[];
    for at := 0 to |terms|
      invariant forall key :: key in seen <==> exists i :: 0 <= i < at && Lower(terms[i].term) == key
      invariant forall i, j :: 0 <= i < j < at ==> Lower(terms[i].term) != Lower(terms[j].term)
    {
      var key := Lower(terms[at].term);
      if key in seen {
        return None;
      }
      seen := seen[key := at];
    }
    return Some(seen);
  }

  /** The forms of one term into the index. */
  method AddForms(terms: seq<Term>, seen: map<string, nat>, at: nat, start: Index) returns (r: Option<Index>)
    requires at < |terms| && Settled(terms, FormsUpTo(terms, at), start)
    requires forall key :: key in seen <==> exists i :: 0 <= i < |terms| && Lower(terms[i].term) == key
    ensures r.Some? ==> Settled(terms, FormsUpTo(terms, at + 1), r.value)
    ensures r.None? ==> !(FormsGood(terms, AllForms(terms)) && FormsApart(AllForms(terms)))
  {
    hide Settled, FormOf, FormsGood, FormsApart, Lower;
    var index := start;
    ghost var before := FormsUpTo(terms, at);
    assert before + TermForms(terms, at, 0) == before;
    for k := 0 to |terms[at].instead|
      invariant Settled(terms, before + TermForms(terms, at, k), index)
    {
      ghost var forms := before + TermForms(terms, at, k);
      var next := AddForm(terms, seen, at, terms[at].instead[k], index, forms);
      assert forms + [FormOf(terms, at, terms[at].instead[k])] == before + TermForms(terms, at, k + 1);
      if next.None? {
        DonePrefix(terms, at, k + 1);
        BadPrefix(terms, before + TermForms(terms, at, k + 1), AllForms(terms));
        return None;
      }
      index := next.value;
    }
    return Some(index);
  }

  /** `Table::parse` from the terms on: a table that calls no word both right and wrong, and its index. */
  method BuildIndex(terms: seq<Term>) returns (r: Option<Index>)
    ensures r.Some? <==> Acceptable(terms)
    ensures r.Some? ==> Indexes(r.value, AllForms(terms))
  {
    hide Lower, FormsUpTo, Same, FormGood, BucketIn, Bucket, TermsApart;
    var seen := SeeTerms(terms);
    if seen.None? {
      return None;
    }
    var index: Index := map[];
    NothingSettled(terms);
    for at := 0 to |terms|
      invariant Settled(terms, FormsUpTo(terms, at), index)
    {
      var next := AddForms(terms, seen.value, at, index);
      if next.None? {
        return None;
      }
      index := next.value;
    }
    return Some(index);
  }

  lemma NothingSettled(terms: seq<Term>)
    ensures Settled(terms, FormsUpTo(terms, 0), map[])
  {
  }

  // ---- matching ----

  predicate Gap(c: char) { c == ' ' || c == '\t' || c == '-' }

  /** What lies between two words of one phrase. */
  predicate OnePhrase(prose: string, a: Word, b: Word)
    requires a.at + |a.text| <= b.at <= |prose|
  {
    a.at + |a.text| < b.at && forall k :: a.at + |a.text| <= k < b.at ==> Gap(prose[k])
  }

  /** A word for a word of the form, the last of which may be plural. */
  predicate WordFits(f: Form, i: nat, word: string)
    requires i < |f.words| == |f.raw|
  {
    var want := if f.exact then f.raw[i] else f.words[i];
    var have := if f.exact then word else Lower(word);
    have == want || (i + 1 == |f.words| && have == want + "s")
  }

  ghost predicate Phrase(prose: string, ws: seq<Word>)
    requires InOrder(prose, ws)
  { forall i :: 0 <= i < |ws| - 1 ==> OnePhrase(prose, ws[i], ws[i + 1]) }

  ghost predicate WordsFit(f: Form, ws: seq<Word>)
    requires |ws| == |f.words| == |f.raw|
  { forall i :: 0 <= i < |ws| ==> WordFits(f, i, ws[i].text) }

  ghost predicate Matches(f: Form, prose: string, ws: seq<Word>)
    requires InOrder(prose, ws) && |ws| == |f.words| == |f.raw|
  { Phrase(prose, ws) && WordsFit(f, ws) }

  method IsPhrase(prose: string, ws: seq<Word>) returns (r: bool)
    requires InOrder(prose, ws)
    ensures r == Phrase(prose, ws)
  {
    var i := 0;
    while i + 1 < |ws|
      invariant 0 <= i && (i < |ws| || i == 0)
      invariant forall j :: 0 <= j < i ==> OnePhrase(prose, ws[j], ws[j + 1])
    {
      var gap := prose[ws[i].at + |ws[i].text|..ws[i + 1].at];
      if gap == "" {
        return false;
      }
      for k := 0 to |gap|
        invariant forall j :: 0 <= j < k ==> Gap(gap[j])
      {
        if !Gap(gap[k]) {
          assert prose[ws[i].at + |ws[i].text| + k] == gap[k];
          return false;
        }
      }
      assert forall k :: ws[i].at + |ws[i].text| <= k < ws[i + 1].at ==>
        prose[k] == gap[k - (ws[i].at + |ws[i].text|)];
      i := i + 1;
    }
    return true;
  }

  lemma PluralIs(have: string, want: string)
    ensures have == want + "s" <==> |have| == |want| + 1 && have[|have| - 1] == 's' && have[..|want|] == want
  {
    if |have| == |want| + 1 {
      assert have == have[..|want|] + [have[|want|]];
    }
  }

  /** `Form::matches`. */
  method FormMatches(f: Form, prose: string, ws: seq<Word>) returns (r: bool)
    requires InOrder(prose, ws) && |ws| == |f.words| == |f.raw|
    ensures r == Matches(f, prose, ws)
  {
    hide Lower, OnePhrase, Phrase;
    var phrase := IsPhrase(prose, ws);
    if !phrase {
      return false;
    }
    for at := 0 to |ws|
      invariant forall j :: 0 <= j < at ==> WordFits(f, j, ws[j].text)
    {
      var last := at + 1 == |f.words|;
      var want := if f.exact then f.raw[at] else f.words[at];
      var have := if f.exact then ws[at].text else Lower(ws[at].text);
      PluralIs(have, want);
      var ok := have == want ||
        (last && |have| == |want| + 1 && have[|have| - 1] == 's' && have[..|want|] == want);
      if !ok {
        return false;
      }
    }
    return true;
  }

  // ---- hits ----

  /** A form of the table tried at a word: it begins with the word, and its words are there. */
  ghost predicate Candidate(f: Form, prose: string, ws: seq<Word>, at: nat)
    requires InOrder(prose, ws) && at < |ws|
  {
    f.words != [] && f.words[0] == Lower(ws[at].text) && Fits(f, prose, ws, at)
  }

  ghost predicate Fits(f: Form, prose: string, ws: seq<Word>, at: nat)
    requires InOrder(prose, ws) && at < |ws|
  {
    |f.words| == |f.raw| && at + |f.words| <= |ws| && Matches(f, prose, ws[at..at + |f.words|])
  }

  /** Every form of the table tried in turn, a longer one displacing what is held. */
  ghost function Longest(forms: seq<Form>, prose: string, ws: seq<Word>, at: nat): Option<Form>
    requires InOrder(prose, ws) && at < |ws|
  {
    if forms == [] then None
    else
      var n := |forms| - 1;
      var held := Longest(forms[..n], prose, ws, at);
      if Candidate(forms[n], prose, ws, at) && (held.None? || |forms[n].words| > |held.value.words|)
      then Some(forms[n]) else held
  }

  /** No candidate is longer than the one held, and none that is as long comes before it. */
  lemma {:induction false} LongestIsLongest(forms: seq<Form>, prose: string, ws: seq<Word>, at: nat)
    requires InOrder(prose, ws) && at < |ws|
    ensures var r := Longest(forms, prose, ws, at);
            match r
            case None => forall i :: 0 <= i < |forms| ==> !Candidate(forms[i], prose, ws, at)
            case Some(f) => exists b :: 0 <= b < |forms| && forms[b] == f && FirstLongest(forms, prose, ws, at, b)
  {
    hide Candidate;
    if forms != [] {
      var n := |forms| - 1;
      var before := forms[..n];
      LongestIsLongest(before, prose, ws, at);
      var held, r := Longest(before, prose, ws, at), Longest(forms, prose, ws, at);
      if held.Some? {
        var b :| 0 <= b < |before| && before[b] == held.value && FirstLongest(before, prose, ws, at, b);
        assert forms[b] == held.value;
        assert forall i :: 0 <= i < n ==> forms[i] == before[i];
        if r == held {
          assert FirstLongest(forms, prose, ws, at, b);
        } else {
          assert FirstLongest(forms, prose, ws, at, n);
        }
      } else if r.Some? {
        assert forall i :: 0 <= i < n ==> forms[i] == before[i];
        assert FirstLongest(forms, prose, ws, at, n);
      } else {
        assert forall i :: 0 <= i < n ==> forms[i] == before[i];
      }
    }
  }

  ghost predicate FirstLongest(forms: seq<Form>, prose: string, ws: seq<Word>, at: nat, b: nat)
    requires InOrder(prose, ws) && at < |ws| && b < |forms|
  {
    Candidate(forms[b], prose, ws, at) &&
    forall i :: 0 <= i < |forms| && Candidate(forms[i], prose, ws, at) ==>
      |forms[i].words| < |forms[b].words| || (|forms[i].words| == |forms[b].words| && i >= b)
  }

  /** What the index gives at a word is enough: trying its bucket is trying the table. */
  lemma {:induction false} BucketIsEnough(forms: seq<Form>, prose: string, ws: seq<Word>, at: nat)
    requires InOrder(prose, ws) && at < |ws|
    ensures Longest(Bucket(forms, Lower(ws[at].text)), prose, ws, at) == Longest(forms, prose, ws, at)
  {
    hide Fits;
    if forms != [] {
      var n, key := |forms| - 1, Lower(ws[at].text);
      BucketIsEnough(forms[..n], prose, ws, at);
      var before := Bucket(forms[..n], key);
      assert (before + [forms[n]])[..|before|] == before && before + [] == before;
    }
  }

  /** A match: the words it took and the form they matched. */
  datatype Span = Span(at: nat, form: Form)

  ghost function Spans(forms: seq<Form>, prose: string, ws: seq<Word>, at: nat): seq<Span>
    requires InOrder(prose, ws) && at <= |ws|
    decreases |ws| - at
  {
    if at == |ws| then []
    else
      match Longest(forms, prose, ws, at)
      case None => Spans(forms, prose, ws, at + 1)
      case Some(f) =>
        LongestFits(forms, prose, ws, at);
        [Span(at, f)] + Spans(forms, prose, ws, at + |f.words|)
  }

  lemma {:induction false} LongestFits(forms: seq<Form>, prose: string, ws: seq<Word>, at: nat)
    requires InOrder(prose, ws) && at < |ws|
    ensures var r := Longest(forms, prose, ws, at);
            r.Some? ==> r.value in forms && Candidate(r.value, prose, ws, at)
  {
    hide Candidate;
    if forms != [] {
      LongestFits(forms[..|forms| - 1], prose, ws, at);
    }
  }

  datatype Hit = Hit(found: string, form: string, term: string)

  ghost predicate Placed(terms: seq<Term>, prose: string, ws: seq<Word>, s: Span) {
    s.form.words != [] && s.at + |s.form.words| <= |ws| && s.form.term < |terms| && InOrder(prose, ws)
  }

  ghost predicate AllPlaced(terms: seq<Term>, prose: string, ws: seq<Word>, spans: seq<Span>) {
    forall i :: 0 <= i < |spans| ==> Placed(terms, prose, ws, spans[i])
  }

  /** The prose a span takes, from its first word to its last. */
  ghost function HitOf(terms: seq<Term>, prose: string, ws: seq<Word>, s: Span): Hit
    requires Placed(terms, prose, ws, s)
  {
    var last := ws[s.at + |s.form.words| - 1];
    Hit(prose[ws[s.at].at..last.at + |last.text|], s.form.text, terms[s.form.term].term)
  }

  ghost function HitsOf(terms: seq<Term>, prose: string, ws: seq<Word>, spans: seq<Span>): seq<Hit>
    requires AllPlaced(terms, prose, ws, spans)
  {
    if spans == [] then [] else [HitOf(terms, prose, ws, spans[0])] + HitsOf(terms, prose, ws, spans[1..])
  }

  ghost predicate Shaped(terms: seq<Term>, forms: seq<Form>) {
    forall f :: f in forms ==> f.words == Lowered(f.raw) && f.term < |terms|
  }

  lemma {:induction false} FormsShaped(terms: seq<Term>, n: nat)
    requires n <= |terms|
    ensures Shaped(terms, FormsUpTo(terms, n))
  {
    if n > 0 {
      FormsShaped(terms, n - 1);
      TermFormsShaped(terms, n - 1, |terms[n - 1].instead|);
    }
  }

  lemma {:induction false} TermFormsShaped(terms: seq<Term>, at: nat, k: nat)
    requires at < |terms| && k <= |terms[at].instead|
    ensures Shaped(terms, TermForms(terms, at, k))
  {
    hide Words, Lower;
    if k > 0 {
      TermFormsShaped(terms, at, k - 1);
    }
  }

  lemma {:induction false} SpansPlaced(terms: seq<Term>, forms: seq<Form>, prose: string, ws: seq<Word>, at: nat)
    requires InOrder(prose, ws) && at <= |ws| && Shaped(terms, forms)
    ensures AllPlaced(terms, prose, ws, Spans(forms, prose, ws, at))
    decreases |ws| - at
  {
    hide Matches, Longest;
    if at < |ws| {
      LongestFits(forms, prose, ws, at);
      var r := Longest(forms, prose, ws, at);
      SpansPlaced(terms, forms, prose, ws, if r.None? then at + 1 else at + |r.value.words|);
    }
  }

  /** A scan of every form of the table at every word, left to right. */
  ghost function NaiveHits(terms: seq<Term>, prose: string): seq<Hit> {
    var ws := Words(prose);
    WordsAreRuns(prose);
    FormsShaped(terms, |terms|);
    SpansPlaced(terms, AllForms(terms), prose, ws, 0);
    HitsOf(terms, prose, ws, Spans(AllForms(terms), prose, ws, 0))
  }

  /** `candidates`, and the longest of them that matches. */
  method BestAt(bucket: seq<Form>, ghost terms: seq<Term>, prose: string, ws: seq<Word>, at: nat)
    returns (best: Option<Form>)
    requires InOrder(prose, ws) && at < |ws| && Shaped(terms, bucket)
    requires forall f :: f in bucket ==> f.words != [] && f.words[0] == Lower(ws[at].text)
    ensures best == Longest(bucket, prose, ws, at)
  {
    hide Matches, Lower;
    best := None;
    for i := 0 to |bucket|
      invariant best == Longest(bucket[..i], prose, ws, at)
    {
      var form := bucket[i];
      assert bucket[..i + 1][..i] == bucket[..i] && form in bucket;
      if |form.words| > |ws| - at || (best.Some? && |best.value.words| >= |form.words|) {
        continue;
      }
      SliceInOrder(prose, ws, at, |form.words|);
      var matches := FormMatches(form, prose, ws[at..at + |form.words|]);
      if matches {
        best := Some(form);
      }
    }
    assert bucket[..|bucket|] == bucket;
  }

  lemma SliceInOrder(prose: string, ws: seq<Word>, at: nat, n: nat)
    requires InOrder(prose, ws) && at + n <= |ws|
    ensures InOrder(prose, ws[at..at + n])
  {
  }

  /** The longest form at a word, out of the bucket of the word. */
  method LongestAt(terms: seq<Term>, index: Index, prose: string, ws: seq<Word>, at: nat) returns (best: Option<Form>)
    requires InOrder(prose, ws) && at < |ws| && Indexes(index, AllForms(terms))
    ensures best == Longest(AllForms(terms), prose, ws, at)
  {
    hide Lower, Longest, Bucket, Indexes, AllForms, InOrder;
    ghost var forms := AllForms(terms);
    var key := Lower(ws[at].text);
    var bucket := BucketIn(index, key);
    BucketOf(index, forms, key);
    FormsShapedAll(terms);
    BucketShaped(terms, forms, key);
    BucketIsEnough(forms, prose, ws, at);
    best := BestAt(bucket, terms, prose, ws, at);
  }

  /** `Table::hits`: the index and one pass come to what trying every form everywhere comes to. */
  method Hits(terms: seq<Term>, index: Index, prose: string) returns (found: seq<Hit>)
    requires Indexes(index, AllForms(terms))
    ensures found == NaiveHits(terms, prose)
  {
    hide Words, Lower, Longest, Bucket, Indexes, AllForms, InOrder, HitOf;
    var ws := ListWords(prose);
    WordsAreRuns(prose);
    ghost var forms := AllForms(terms);
    FormsShapedAll(terms);
    SpansPlaced(terms, forms, prose, ws, 0);
    found := [];
    var at := 0;
    while at < |ws|
      invariant 0 <= at <= |ws|
      invariant AllPlaced(terms, prose, ws, Spans(forms, prose, ws, at))
      invariant found + HitsOf(terms, prose, ws, Spans(forms, prose, ws, at)) == NaiveHits(terms, prose)
      decreases |ws| - at
    {
      var best := LongestAt(terms, index, prose, ws, at);
      LongestFits(forms, prose, ws, at);
      SpansStep(terms, forms, prose, ws, at, found);
      if best.Some? {
        var f := best.value;
        var last := ws[at + |f.words| - 1];
        InOrderAt(prose, ws, at, at + |f.words| - 1);
        var text := prose[ws[at].at..last.at + |last.text|];
        HitIs(terms, prose, ws, Span(at, f), text);
        found := found + [Hit(text, f.text, terms[f.term].term)];
        at := at + |f.words|;
      } else {
        at := at + 1;
      }
    }
  }

  lemma FormsShapedAll(terms: seq<Term>)
    ensures Shaped(terms, AllForms(terms))
  {
    FormsShaped(terms, |terms|);
  }

  lemma BucketShaped(terms: seq<Term>, forms: seq<Form>, key: string)
    requires Shaped(terms, forms)
    ensures Shaped(terms, Bucket(forms, key))
    ensures forall f :: f in Bucket(forms, key) ==> f.words != [] && f.words[0] == key
  {
    forall f | f in Bucket(forms, key)
      ensures f in forms && f.words != [] && f.words[0] == key
    {
      BucketHas(forms, key, f);
    }
  }

  lemma InOrderAt(prose: string, ws: seq<Word>, i: nat, j: nat)
    requires InOrder(prose, ws) && i <= j < |ws|
    ensures ws[i].at <= ws[j].at + |ws[j].text| <= |prose|
  {
  }

  lemma HitIs(terms: seq<Term>, prose: string, ws: seq<Word>, s: Span, text: string)
    requires Placed(terms, prose, ws, s)
    requires ws[s.at].at <= ws[s.at + |s.form.words| - 1].at + |ws[s.at + |s.form.words| - 1].text| <= |prose|
    requires text == prose[ws[s.at].at..ws[s.at + |s.form.words| - 1].at + |ws[s.at + |s.form.words| - 1].text|]
    ensures HitOf(terms, prose, ws, s) == Hit(text, s.form.text, terms[s.form.term].term)
  {
  }

  lemma SpansStep(terms: seq<Term>, forms: seq<Form>, prose: string, ws: seq<Word>, at: nat, found: seq<Hit>)
    requires InOrder(prose, ws) && at < |ws| && Shaped(terms, forms)
    requires AllPlaced(terms, prose, ws, Spans(forms, prose, ws, at))
    ensures var r := Longest(forms, prose, ws, at);
            match r
            case None => Spans(forms, prose, ws, at) == Spans(forms, prose, ws, at + 1)
            case Some(f) =>
              f.words != [] && at + |f.words| <= |ws| && Placed(terms, prose, ws, Span(at, f)) &&
              Spans(forms, prose, ws, at) == [Span(at, f)] + Spans(forms, prose, ws, at + |f.words|) &&
              AllPlaced(terms, prose, ws, Spans(forms, prose, ws, at + |f.words|)) &&
              found + HitsOf(terms, prose, ws, Spans(forms, prose, ws, at)) ==
              found + [HitOf(terms, prose, ws, Span(at, f))]
                + HitsOf(terms, prose, ws, Spans(forms, prose, ws, at + |f.words|))
  {
    hide Longest, Matches, HitOf;
    LongestFits(forms, prose, ws, at);
    var r := Longest(forms, prose, ws, at);
    if r.Some? {
      SpansPlaced(terms, forms, prose, ws, at + |r.value.words|);
      var all := Spans(forms, prose, ws, at);
      assert all[0] == Span(at, r.value) && all[1..] == Spans(forms, prose, ws, at + |r.value.words|);
    }
  }

  /** Spans from `at` on: each what is longest at its place, each past the end of the one before. */
  ghost predicate Proper(forms: seq<Form>, prose: string, ws: seq<Word>, at: nat, spans: seq<Span>)
    requires InOrder(prose, ws)
  {
    (forall i :: 0 <= i < |spans| ==>
      at <= spans[i].at < |ws| && Longest(forms, prose, ws, spans[i].at) == Some(spans[i].form)) &&
    (forall i, j :: 0 <= i < j < |spans| ==> spans[i].at + |spans[i].form.words| <= spans[j].at)
  }

  /** A word is in one of the spans. */
  ghost predicate Taken(spans: seq<Span>, k: nat) {
    exists i :: 0 <= i < |spans| && spans[i].at <= k < spans[i].at + |spans[i].form.words|
  }

  lemma ProperMore(forms: seq<Form>, prose: string, ws: seq<Word>, at: nat, f: Form, rest: seq<Span>)
    requires InOrder(prose, ws) && at < |ws| && Longest(forms, prose, ws, at) == Some(f)
    requires Proper(forms, prose, ws, at + |f.words|, rest)
    ensures Proper(forms, prose, ws, at, [Span(at, f)] + rest)
  {
    hide Longest, InOrder;
    var spans := [Span(at, f)] + rest;
    assert forall i :: 0 < i < |spans| ==> spans[i] == rest[i - 1];
  }

  lemma TakenMore(s: Span, rest: seq<Span>, k: nat)
    ensures Taken([s] + rest, k) <==> s.at <= k < s.at + |s.form.words| || Taken(rest, k)
  {
    var spans := [s] + rest;
    assert forall i :: 0 < i < |spans| ==> spans[i] == rest[i - 1];
    assert spans[0] == s;
    if i :| 0 <= i < |rest| && rest[i].at <= k < rest[i].at + |rest[i].form.words| {
      assert spans[i + 1] == rest[i];
    }
  }

  lemma SpansNext(forms: seq<Form>, prose: string, ws: seq<Word>, at: nat)
    requires InOrder(prose, ws) && at < |ws|
    ensures match Longest(forms, prose, ws, at)
            case None => Spans(forms, prose, ws, at) == Spans(forms, prose, ws, at + 1)
            case Some(f) =>
              f.words != [] && at + |f.words| <= |ws| &&
              Spans(forms, prose, ws, at) == [Span(at, f)] + Spans(forms, prose, ws, at + |f.words|)
  {
    hide Longest, Matches, InOrder;
    LongestFits(forms, prose, ws, at);
  }

  /** The matches are in order and share no word. */
  lemma {:induction false} SpansProper(forms: seq<Form>, prose: string, ws: seq<Word>, at: nat)
    requires InOrder(prose, ws) && at <= |ws|
    ensures Proper(forms, prose, ws, at, Spans(forms, prose, ws, at))
    decreases |ws| - at
  {
    hide Longest, InOrder;
    if at < |ws| {
      SpansNext(forms, prose, ws, at);
      hide Spans;
      var r := Longest(forms, prose, ws, at);
      if r.Some? {
        SpansProper(forms, prose, ws, at + |r.value.words|);
        ProperMore(forms, prose, ws, at, r.value, Spans(forms, prose, ws, at + |r.value.words|));
      } else {
        SpansProper(forms, prose, ws, at + 1);
      }
    }
  }

  /** A word in no match begins no match. */
  lemma {:induction false} SpansMiss(forms: seq<Form>, prose: string, ws: seq<Word>, at: nat, k: nat)
    requires InOrder(prose, ws) && at <= k < |ws| && !Taken(Spans(forms, prose, ws, at), k)
    ensures Longest(forms, prose, ws, k) == None
    decreases |ws| - at
  {
    hide Longest, InOrder, Spans, Taken;
    SpansNext(forms, prose, ws, at);
    var r := Longest(forms, prose, ws, at);
    if r.Some? {
      var next := at + |r.value.words|;
      TakenMore(Span(at, r.value), Spans(forms, prose, ws, next), k);
      SpansMiss(forms, prose, ws, next, k);
    } else if k > at {
      SpansMiss(forms, prose, ws, at + 1, k);
    }
  }

  predicate Plural(f: Form, word: string)
    requires |f.words| == |f.raw| > 0
  { if f.exact then word == f.raw[0] + "s" else Lower(word) == f.words[0] + "s" }

  /**
    Any form whose words are there is tried, except a form of one word met in the
    plural: the index knows the singular only.
   */
  lemma IndexLosesOnlyPlurals(f: Form, prose: string, ws: seq<Word>, at: nat)
    requires InOrder(prose, ws) && at < |ws| && f.words != [] && f.words == Lowered(f.raw) && Fits(f, prose, ws, at)
    ensures Candidate(f, prose, ws, at) <==> !(|f.words| == 1 && Plural(f, ws[at].text))
  {
    var taken := ws[at..at + |f.words|];
    assert taken[0] == ws[at];
    assert WordFits(f, 0, taken[0].text);
  }

  lemma OneWord(w: string)
    requires w != "" && forall k :: 0 <= k < |w| ==> IsWord(w[k])
    ensures Words(w) == [Word(0, w)]
  {
    assert IsWord(w[0]);
    assert RunEnd(w, 0) == |w|;
    assert w[0..|w|] == w;
    assert WordsFrom(w, |w|) == [];
  }

  lemma LowerPlural(w: string)
    ensures Lower(w + "s") == Lower(w) + "s"
  {
  }

  /** A table of one form of one word: its singular is found, and its plural fits and is not. */
  lemma PluralPassedOver(term: string, w: string)
    requires w != "" && forall k :: 0 <= k < |w| ==> IsWord(w[k])
    ensures var terms := [Term(term, [w])];
            var f := FormOf(terms, 0, w);
            AllForms(terms) == [f]
            && NaiveHits(terms, w) == [Hit(w, w, term)]
            && InOrder(w + "s", Words(w + "s")) && |Words(w + "s")| == 1
            && Fits(f, w + "s", Words(w + "s"), 0) && !Candidate(f, w + "s", Words(w + "s"), 0)
            && NaiveHits(terms, w + "s") == []
  {
    var terms, prose := [Term(term, [w])], w + "s";
    var f := FormOf(terms, 0, w);
    OneWord(w);
    OneWord(prose);
    LowerPlural(w);
    LoneTable(term, w);
    hide Lower, Words, NaiveHits, Fits, Candidate, AllForms, FormOf;
    LoneHits(terms, f, w);
    LoneHits(terms, f, prose);
    LoneForm(f, prose, Words(prose));
    LoneForm(f, w, Words(w));
  }

  /** The forms of a table of one form of one word. */
  lemma LoneTable(term: string, w: string)
    requires Words(w) == [Word(0, w)]
    ensures var terms := [Term(term, [w])];
            var f := FormOf(terms, 0, w);
            AllForms(terms) == [f] && f == Form([Lower(w)], [w], w, 0, f.exact)
  {
    hide Lower, Words;
    var terms := [Term(term, [w])];
    var f := FormOf(terms, 0, w);
    assert f.raw == [w] && f.words == [Lower(w)];
    hide FormOf;
    assert TermForms(terms, 0, 0) == [];
    assert TermForms(terms, 0, 1) == [f];
    assert FormsUpTo(terms, 0) == [];
  }

  /** What a table of one form of one word finds in prose of one word. */
  lemma LoneHits(terms: seq<Term>, f: Form, prose: string)
    requires AllForms(terms) == [f] && |f.words| == |f.raw| == 1 && f.term < |terms|
    requires Words(prose) == [Word(0, prose)]
    ensures InOrder(prose, Words(prose))
    ensures NaiveHits(terms, prose) ==
      if Candidate(f, prose, Words(prose), 0) then [Hit(prose, f.text, terms[f.term].term)] else []
  {
    hide Lower, Words, AllForms, Candidate, InOrder, Longest, Spans;
    WordsAreRuns(prose);
    FormsShapedAll(terms);
    var ws := Words(prose);
    SpansPlaced(terms, AllForms(terms), prose, ws, 0);
    LoneForm(f, prose, ws);
    var spans := Spans([f], prose, ws, 0);
    assert NaiveHits(terms, prose) == HitsOf(terms, prose, ws, spans);
    hide NaiveHits;
    if spans != [] {
      assert spans == [Span(0, f)] && prose[0..|prose|] == prose;
      LoneHit(terms, prose, ws, spans);
    }
  }

  lemma LoneHit(terms: seq<Term>, prose: string, ws: seq<Word>, spans: seq<Span>)
    requires AllPlaced(terms, prose, ws, spans) && |spans| == 1
    ensures Placed(terms, prose, ws, spans[0])
    ensures HitsOf(terms, prose, ws, spans) == [HitOf(terms, prose, ws, spans[0])]
  {
    assert spans[1..] == [];
  }

  /** A table of one form of one word over prose of one word. */
  lemma LoneForm(f: Form, prose: string, ws: seq<Word>)
    requires InOrder(prose, ws) && |ws| == 1 && |f.words| == |f.raw| == 1
    ensures Fits(f, prose, ws, 0) <==> WordFits(f, 0, ws[0].text)
    ensures Candidate(f, prose, ws, 0) <==> f.words[0] == Lower(ws[0].text) && WordFits(f, 0, ws[0].text)
    ensures Spans([f], prose, ws, 0) == if Candidate(f, prose, ws, 0) then [Span(0, f)] else []
  {
    hide WordFits, Lower;
    assert ws[0..1] == ws;
    assert Longest([], prose, ws, 0) == None && [f][..0] == [];
    assert Longest([f], prose, ws, 0) == if Candidate(f, prose, ws, 0) then Some(f) else None;
    assert Spans([f], prose, ws, 1) == [];
  }

  /** A word that a table forbids, met in the plural, goes unreported. */
  lemma VertexsIsMissed()
    ensures NaiveHits([Term("node", ["vertex"])], "vertex") == [Hit("vertex", "vertex", "node")]
    ensures NaiveHits([Term("node", ["vertex"])], "vertexs") == []
  {
    hide NaiveHits, Words, FormOf, Fits, Candidate;
    PluralPassedOver("node", "vertex");
    assert "vertex" + "s" == "vertexs";
  }
}
