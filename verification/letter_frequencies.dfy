/** The letter-frequency histogram of the file-content analyzer: a map from the 26
    lower-case ASCII letters to counts, seeded at zero, bumped once per matching
    character of each lower-cased text, and finally ranked by count. */
module LetterFrequencies {
  import opened Text
  import opened Sequences

  /** Letter -> count; the model of the analyzer's concurrent dictionary. */
  type Frequencies = map<char, nat>

  /** One (letter, count) entry of the ranked result. */
  type Tally = (char, nat)

  predicate IsLetter(c: char)
  {
    'a' <= c <= 'z'
  }

  /** The 26 keys in alphabetical order. */
  const Alphabet: seq<char> := "abcdefghijklmnopqrstuvwxyz"

  /** Every key of `m` is a letter and every letter is a key. */
  predicate HasLetterKeys(m: Frequencies)
  {
    forall c :: c in m <==> IsLetter(c)
  }

  lemma AlphabetIsTheLetters()
    ensures |Alphabet| == 26
    ensures forall i :: 0 <= i < |Alphabet| ==> Alphabet[i] as int == 'a' as int + i
    ensures forall c :: IsLetter(c) <==> c in Alphabet
    ensures forall i, j :: 0 <= i < j < |Alphabet| ==> Alphabet[i] < Alphabet[j]
  {
    forall c | IsLetter(c)
      ensures c in Alphabet
    {
      assert Alphabet[c as int - 'a' as int] == c;
    }
  }

  lemma {:induction false} StrictlyIncreasingCardinality(s: seq<char>)
    requires forall i, j :: 0 <= i < j < |s| ==> s[i] < s[j]
    ensures |set c | c in s| == |s|
  {
    if |s| > 0 {
      var t := s[..|s| - 1];
      StrictlyIncreasingCardinality(t);
      assert (set c | c in s) == (set c | c in t) + {s[|s| - 1]};
      assert s[|s| - 1] !in (set c | c in t);
    }
  }

  /** The seed of every histogram (the dictionary built from `Enumerable.Range('a', 26)`). */
  function Initialize(): Frequencies
  {
    map c | c in Alphabet :: 0
  }

  /** The seed holds exactly the 26 letters, each with count zero, however often it is
      built. */
  lemma InitializeSeedsAlphabet()
    ensures HasLetterKeys(Initialize())
    ensures forall c :: c in Initialize() ==> Initialize()[c] == 0
    ensures |Initialize()| == 26
  {
    AlphabetIsTheLetters();
    StrictlyIncreasingCardinality(Alphabet);
    assert Initialize().Keys == set c | c in Alphabet;
  }

  /** One step of the inner loop: `c` is counted only when it already is a key. */
  function Bump(m: Frequencies, c: char): Frequencies
  {
    if c in m then m[c := m[c] + 1] else m
  }

  /** The per-file loop body (the analyzer's update of the shared dictionary with one
      text): every character of the lower-cased text that is a key adds one to it. */
  function Update(m: Frequencies, text: string): (r: Frequencies)
    ensures r.Keys == m.Keys
    ensures forall k :: k in m ==> r[k] == m[k] + Occurrences(Lower(text), k)
  {
    if |text| == 0 then m
    else
      var n := |text| - 1;
      assert Lower(text)[..n] == Lower(text[..n]);
      Bump(Update(m, text[..n]), ToLower(text[n]))
  }

  /** Counting one more character of `text` is one more bump. */
  lemma UpdateOneMore(m: Frequencies, text: string, j: int)
    requires 0 <= j < |text|
    ensures Update(m, text[..j + 1]) == Bump(Update(m, text[..j]), ToLower(text[j]))
  {
    assert text[..j + 1][..j] == text[..j];
  }

  /** Number of occurrences of `c` over all lower-cased texts. */
  function TotalOccurrences(texts: seq<string>, c: char): nat
  {
    if |texts| == 0 then 0
    else TotalOccurrences(texts[..|texts| - 1], c) + Occurrences(Lower(texts[|texts| - 1]), c)
  }

  /** The analyzer's fold over a list of texts. */
  function UpdateAll(m: Frequencies, texts: seq<string>): (r: Frequencies)
    ensures r.Keys == m.Keys
    ensures forall k :: k in m ==> r[k] == m[k] + TotalOccurrences(texts, k)
  {
    if |texts| == 0 then m
    else Update(UpdateAll(m, texts[..|texts| - 1]), texts[|texts| - 1])
  }

  /** The histogram of a list of texts, before ranking. */
  function Histogram(texts: seq<string>): (m: Frequencies)
    ensures HasLetterKeys(m)
    ensures forall c :: IsLetter(c) ==> m[c] == TotalOccurrences(texts, c)
  {
    InitializeSeedsAlphabet();
    UpdateAll(Initialize(), texts)
  }

  // ---------------------------------------------------------------------------
  // What the counts mean
  // ---------------------------------------------------------------------------

  /** 'A' and 'a' both count toward 'a': the histogram's count for a letter is the number
      of its lower-case plus its upper-case occurrences across the texts. */
  lemma {:induction false} HistogramIgnoresCase(texts: seq<string>, c: char)
    requires IsLetter(c)
    ensures Histogram(texts)[c] == TotalOccurrences(texts, c)
    ensures TotalOccurrences(texts, c) == RawOccurrences(texts, c) + RawOccurrences(texts, ToUpper(c))
  {
    if |texts| > 0 {
      HistogramIgnoresCase(texts[..|texts| - 1], c);
      LowerMergesCases(texts[|texts| - 1], c);
    }
  }

  /** Occurrences of `c` across the texts as written, without lower-casing. */
  function RawOccurrences(texts: seq<string>, c: char): nat
  {
    if |texts| == 0 then 0
    else RawOccurrences(texts[..|texts| - 1], c) + Occurrences(texts[|texts| - 1], c)
  }

  /** A text none of whose lower-cased characters is a key (digits, punctuation,
      whitespace, ...) leaves the map unchanged; in particular the empty text does. */
  lemma {:induction false} UpdateIgnoresNonKeys(m: Frequencies, text: string)
    requires forall i :: 0 <= i < |text| ==> ToLower(text[i]) !in m
    ensures Update(m, text) == m
  {
    if |text| > 0 {
      UpdateIgnoresNonKeys(m, text[..|text| - 1]);
    }
  }

  /** With the letter keys, a text without ASCII letters changes nothing. */
  lemma NonLettersChangeNothing(m: Frequencies, text: string)
    requires HasLetterKeys(m)
    requires forall i :: 0 <= i < |text| ==> !IsLetter(text[i]) && !('A' <= text[i] <= 'Z')
    ensures Update(m, text) == m
  {
    UpdateIgnoresNonKeys(m, text);
  }

  /** No texts, or only empty ones, give 26 zeros. */
  lemma {:induction false} EmptyTextsGiveZeros(texts: seq<string>)
    requires forall i :: 0 <= i < |texts| ==> texts[i] == ""
    ensures Histogram(texts) == Initialize()
  {
    if |texts| > 0 {
      EmptyTextsGiveZeros(texts[..|texts| - 1]);
      assert Lower(texts[|texts| - 1]) == "";
    }
  }

  // ---------------------------------------------------------------------------
  // Order independence
  // ---------------------------------------------------------------------------

  lemma {:induction false} TotalOccurrencesAppend(a: seq<string>, b: seq<string>, c: char)
    ensures TotalOccurrences(a + b, c) == TotalOccurrences(a, c) + TotalOccurrences(b, c)
  {
    if |b| > 0 {
      var b' := b[..|b| - 1];
      TotalOccurrencesAppend(a, b', c);
      assert (a + b)[..|a + b| - 1] == a + b';
      assert (a + b)[|a + b| - 1] == b[|b| - 1];
    } else {
      assert a + b == a;
    }
  }

  /** Removing the text at position `j` removes exactly its occurrences. */
  lemma TotalOccurrencesRemove(b: seq<string>, j: int, c: char)
    requires 0 <= j < |b|
    ensures TotalOccurrences(b, c) == TotalOccurrences(b[..j] + b[j + 1..], c) + Occurrences(Lower(b[j]), c)
  {
    assert b == (b[..j] + [b[j]]) + b[j + 1..];
    TotalOccurrencesAppend(b[..j] + [b[j]], b[j + 1..], c);
    TotalOccurrencesAppend(b[..j], [b[j]], c);
    TotalOccurrencesAppend(b[..j], b[j + 1..], c);
    assert [b[j]][..0] == [];
  }

  lemma {:induction false} TotalOccurrencesPermutation(a: seq<string>, b: seq<string>, c: char)
    requires multiset(a) == multiset(b)
    ensures TotalOccurrences(a, c) == TotalOccurrences(b, c)
    decreases |a|
  {
    if |a| == 0 {
      assert |b| == |multiset(b)| == 0;
    } else {
      var j := MatchLast(a, b);
      TotalOccurrencesPermutation(a[..|a| - 1], b[..j] + b[j + 1..], c);
      TotalOccurrencesRemove(b, j, c);
    }
  }

  /** Counting is commutative: processing the same texts in any order (any permutation of
      the list, hence any interleaving of the parallel loop) gives the same map. */
  lemma UpdateAllOrderIndependent(m: Frequencies, a: seq<string>, b: seq<string>)
    requires multiset(a) == multiset(b)
    ensures UpdateAll(m, a) == UpdateAll(m, b)
  {
    forall k | k in m
      ensures UpdateAll(m, a)[k] == UpdateAll(m, b)[k]
    {
      TotalOccurrencesPermutation(a, b, k);
    }
  }

  // ---------------------------------------------------------------------------
  // Sum of the counts
  // ---------------------------------------------------------------------------

  /** Sum of the counts of the keys listed in `ks`. */
  function Sum(m: Frequencies, ks: seq<char>): nat
    requires forall i :: 0 <= i < |ks| ==> ks[i] in m
  {
    if |ks| == 0 then 0 else Sum(m, ks[..|ks| - 1]) + m[ks[|ks| - 1]]
  }

  /** Number of letters 'a'..'z' in `s`. */
  function LetterCount(s: string): nat
  {
    if |s| == 0 then 0 else LetterCount(s[..|s| - 1]) + (if IsLetter(s[|s| - 1]) then 1 else 0)
  }

  /** Number of letters across the lower-cased texts. */
  function TotalLetters(texts: seq<string>): nat
  {
    if |texts| == 0 then 0 else TotalLetters(texts[..|texts| - 1]) + LetterCount(Lower(texts[|texts| - 1]))
  }

  lemma {:induction false} SumBump(m: Frequencies, ks: seq<char>, c: char)
    requires forall i :: 0 <= i < |ks| ==> ks[i] in m
    requires forall i, j :: 0 <= i < j < |ks| ==> ks[i] < ks[j]
    ensures Sum(Bump(m, c), ks) == Sum(m, ks) + (if c in m && c in ks then 1 else 0)
  {
    if |ks| > 0 {
      var ks' := ks[..|ks| - 1];
      SumBump(m, ks', c);
      if c == ks[|ks| - 1] {
        assert c !in ks';
      }
    }
  }

  lemma LetterCountSnoc(text: string)
    requires |text| > 0
    ensures LetterCount(Lower(text))
         == LetterCount(Lower(text[..|text| - 1])) + (if IsLetter(ToLower(text[|text| - 1])) then 1 else 0)
  {
    assert Lower(text)[..|text| - 1] == Lower(text[..|text| - 1]);
  }

  /** Counting one more text adds its letters to the sum over `ks`, a sorted list of
      exactly the letters. */
  lemma {:induction false} SumUpdate(m: Frequencies, ks: seq<char>, text: string)
    requires HasLetterKeys(m)
    requires forall c :: IsLetter(c) <==> c in ks
    requires forall i, j :: 0 <= i < j < |ks| ==> ks[i] < ks[j]
    ensures Sum(Update(m, text), ks) == Sum(m, ks) + LetterCount(Lower(text))
  {
    if |text| > 0 {
      var n := |text| - 1;
      var before := Update(m, text[..n]);
      var c := ToLower(text[n]);
      SumUpdate(m, ks, text[..n]);
      SumBump(before, ks, c);
      assert Update(m, text) == Bump(before, c);
      LetterCountSnoc(text);
    }
  }

  /** The counts add up to the number of letters in the lower-cased texts. */
  lemma {:induction false} HistogramSum(texts: seq<string>)
    ensures Sum(Histogram(texts), Alphabet) == TotalLetters(texts)
  {
    AlphabetIsTheLetters();
    if |texts| == 0 {
      ZeroSum(Initialize(), Alphabet);
    } else {
      HistogramSum(texts[..|texts| - 1]);
      SumUpdate(Histogram(texts[..|texts| - 1]), Alphabet, texts[|texts| - 1]);
    }
  }

  lemma {:induction false} ZeroSum(m: Frequencies, ks: seq<char>)
    requires forall i :: 0 <= i < |ks| ==> ks[i] in m && m[ks[i]] == 0
    ensures Sum(m, ks) == 0
  {
    if |ks| > 0 {
      ZeroSum(m, ks[..|ks| - 1]);
    }
  }

  // ---------------------------------------------------------------------------
  // Ranking (`OrderByDescending(kv => kv.Value)`)
  // ---------------------------------------------------------------------------

  /** `p` comes before `q`: a larger count first; equal counts in alphabetical order. */
  predicate Before(p: Tally, q: Tally)
  {
    p.1 > q.1 || (p.1 == q.1 && p.0 < q.0)
  }

  predicate Ranked(s: seq<Tally>)
  {
    forall i, j :: 0 <= i < j < |s| ==> Before(s[i], s[j])
  }

  predicate DistinctLetters(s: seq<Tally>)
  {
    forall i, j :: 0 <= i < j < |s| ==> s[i].0 != s[j].0
  }

  /** The histogram's entries in alphabetical order. */
  function Entries(m: Frequencies): (s: seq<Tally>)
    requires HasLetterKeys(m)
  {
    seq(26, i requires 0 <= i < 26 => (Alphabet[i], m[Alphabet[i]]))
  }

  function Insert(x: Tally, s: seq<Tally>): (r: seq<Tally>)
    ensures multiset(r) == multiset(s) + multiset{x}
  {
    if |s| == 0 || Before(x, s[0]) then
      [x] + s
    else
      assert s == [s[0]] + s[1..];
      [s[0]] + Insert(x, s[1..])
  }

  lemma BeforeTransitive(p: Tally, q: Tally, t: Tally)
    requires Before(p, q) && Before(q, t)
    ensures Before(p, t)
  {
  }

  /** Inserting an entry whose letter is new keeps a ranked list ranked. */
  lemma {:induction false} InsertKeepsRanked(x: Tally, s: seq<Tally>)
    requires Ranked(s)
    requires forall i :: 0 <= i < |s| ==> s[i].0 != x.0
    ensures Ranked(Insert(x, s))
  {
    if |s| == 0 || Before(x, s[0]) {
      forall j | 0 <= j < |s|
        ensures Before(x, s[j])
      {
        if j > 0 {
          BeforeTransitive(x, s[0], s[j]);
        }
      }
    } else {
      var t := Insert(x, s[1..]);
      InsertKeepsRanked(x, s[1..]);
      assert Before(s[0], x);
      forall j | 0 <= j < |t|
        ensures Before(s[0], t[j])
      {
        assert t[j] in multiset(t);
        assert t[j] == x || t[j] in multiset(s[1..]);
        if t[j] != x {
          var k :| 0 <= k < |s[1..]| && s[1..][k] == t[j];
          assert s[k + 1] == t[j];
        }
      }
      assert Insert(x, s) == [s[0]] + t;
    }
  }

  /** Insertion sort by `Before`. */
  function Sort(s: seq<Tally>): (r: seq<Tally>)
    ensures multiset(r) == multiset(s)
  {
    if |s| == 0 then []
    else
      assert s == [s[0]] + s[1..];
      Insert(s[0], Sort(s[1..]))
  }

  /** Sorting entries with distinct letters yields a ranked list. */
  lemma {:induction false} SortRanks(s: seq<Tally>)
    requires DistinctLetters(s)
    ensures Ranked(Sort(s))
  {
    if |s| > 0 {
      var t := Sort(s[1..]);
      SortRanks(s[1..]);
      forall i | 0 <= i < |t|
        ensures t[i].0 != s[0].0
      {
        assert t[i] in multiset(s[1..]);
        var k :| 0 <= k < |s[1..]| && s[1..][k] == t[i];
        assert s[k + 1] == t[i];
      }
      InsertKeepsRanked(s[0], t);
    }
  }

  /** The ranking applied to a finished histogram. */
  function Finalize(m: Frequencies): (r: seq<Tally>)
    requires HasLetterKeys(m)
    ensures Ranked(r)
    ensures multiset(r) == multiset(Entries(m))
  {
    AlphabetIsTheLetters();
    SortRanks(Entries(m));
    Sort(Entries(m))
  }

  /** The ranked result lists every letter exactly once with its count, counts
      non-increasing. */
  lemma FinalizeListsEveryLetter(m: Frequencies)
    requires HasLetterKeys(m)
    ensures |Finalize(m)| == 26
    ensures forall i :: 0 <= i < 26 ==> IsLetter(Finalize(m)[i].0) && Finalize(m)[i].1 == m[Finalize(m)[i].0]
    ensures forall c :: IsLetter(c) ==> exists i :: 0 <= i < 26 && Finalize(m)[i].0 == c
    ensures DistinctLetters(Finalize(m))
    ensures forall i, j :: 0 <= i < j < 26 ==> Finalize(m)[i].1 >= Finalize(m)[j].1
  {
    var r := Finalize(m);
    var e := Entries(m);
    AlphabetIsTheLetters();
    assert |r| == |multiset(r)| == |multiset(e)| == 26;
    forall i | 0 <= i < 26
      ensures IsLetter(r[i].0) && r[i].1 == m[r[i].0]
    {
      assert r[i] in multiset(e);
    }
    forall c | IsLetter(c)
      ensures exists i :: 0 <= i < 26 && r[i].0 == c
    {
      var k :| 0 <= k < 26 && Alphabet[k] == c;
      assert e[k] in multiset(r);
    }
  }

  /** `r` reports the histogram of `texts`: each letter once, with its number of
      occurrences across the lower-cased texts. */
  predicate ReportsHistogram(r: seq<Tally>, texts: seq<string>)
  {
    && |r| == 26
    && DistinctLetters(r)
    && (forall i :: 0 <= i < |r| ==> IsLetter(r[i].0) && r[i].1 == TotalOccurrences(texts, r[i].0))
    && (forall c :: IsLetter(c) ==> exists i :: 0 <= i < |r| && r[i].0 == c)
  }

  /** A reported histogram carries every letter together with its count. */
  lemma ReportedCount(r: seq<Tally>, texts: seq<string>, c: char)
    requires ReportsHistogram(r, texts)
    requires IsLetter(c)
    ensures (c, TotalOccurrences(texts, c)) in r
  {
    var i :| 0 <= i < |r| && r[i].0 == c;
    assert r[i] == (c, TotalOccurrences(texts, c));
  }

  /** Ranking a map that holds the letter counts of `texts` reports those counts. */
  lemma RankingReportsCounts(m: Frequencies, texts: seq<string>)
    requires HasLetterKeys(m)
    requires forall c :: c in m ==> m[c] == TotalOccurrences(texts, c)
    ensures ReportsHistogram(Finalize(m), texts)
  {
    FinalizeListsEveryLetter(m);
  }

  /** The inner loop of the analyzer over one text, updating the map in place. */
  method CountText(m0: Frequencies, text: string) returns (m: Frequencies)
    ensures m.Keys == m0.Keys
    ensures forall k :: k in m0 ==> m[k] == m0[k] + Occurrences(Lower(text), k)
  {
    m := m0;
    var j := 0;
    while j < |text|
      invariant 0 <= j <= |text|
      invariant m == Update(m0, text[..j])
    {
      var c := ToLower(text[j]);
      if c in m {
        m := m[c := m[c] + 1];
      }
      UpdateOneMore(m0, text, j);
      j := j + 1;
    }
    assert text[..j] == text;
  }

  /** The analyzer's whole operation: seed, count every text, rank. The outer loop runs
      the parallel loop's bodies one after another. */
  method CalculateLetterFrequencies(files: seq<string>) returns (r: seq<Tally>)
    ensures Ranked(r)
    ensures ReportsHistogram(r, files)
  {
    var m := Initialize();
    InitializeSeedsAlphabet();
    var i := 0;
    while i < |files|
      invariant 0 <= i <= |files|
      invariant HasLetterKeys(m)
      invariant forall c :: c in m ==> m[c] == TotalOccurrences(files[..i], c)
    {
      m := CountText(m, files[i]);
      assert files[..i + 1][..i] == files[..i];
      i := i + 1;
    }
    assert files[..|files|] == files;
    r := Finalize(m);
    RankingReportsCounts(m, files);
  }
}
