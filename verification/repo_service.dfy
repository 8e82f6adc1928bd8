/** The repository service: list "/", walk the tree with the caller's extension list
    through the factory's retry policy, feed every non-empty fetched file to the letter
    counter, and rank the counts. */
module RepoService {
  import opened Wrappers
  import opened Sequences
  import opened Text
  import opened LetterFrequencies
  import opened Resilience
  import opened FileNames
  import opened ContentTree
  import opened Traversal

  /** `_maxDegreeOfParallelism`: half the processor count (C# integer division, which
      truncates toward zero), but at least one. */
  function MaxDegreeOfParallelism(processorCount: int): (d: int)
    ensures d >= 1
    ensures processorCount >= 2 ==> 2 * d <= processorCount < 2 * d + 2
    ensures processorCount < 2 ==> d == 1
    ensures processorCount >= 1 ==> d <= processorCount
  {
    var half := if processorCount >= 0 then processorCount / 2 else -((-processorCount) / 2);
    if half > 1 then half else 1
  }

  /** The decoded text of every fetched file with at least one byte, in order. */
  function NonEmptyTexts(raws: seq<seq<Byte>>, decode: seq<Byte> -> string): seq<string>
  {
    if |raws| == 0 then []
    else
      var n := |raws| - 1;
      NonEmptyTexts(raws[..n], decode) + (if |raws[n]| > 0 then [decode(raws[n])] else [])
  }

  /** The per-file step of the traversal, applied to the fetched files in turn: content of
      length zero is skipped, anything else is decoded and counted. */
  function CountContents(m: Frequencies, raws: seq<seq<Byte>>, decode: seq<Byte> -> string): (r: Frequencies)
    ensures r == UpdateAll(m, NonEmptyTexts(raws, decode))
  {
    if |raws| == 0 then m
    else
      var n := |raws| - 1;
      var before := CountContents(m, raws[..n], decode);
      if |raws[n]| > 0 then
        var texts := NonEmptyTexts(raws[..n], decode);
        var all := NonEmptyTexts(raws, decode);
        assert all == texts + [decode(raws[n])];
        assert all[..|all| - 1] == texts;
        assert UpdateAll(m, all) == Update(UpdateAll(m, texts), decode(raws[n]));
        Update(before, decode(raws[n]))
      else
        assert NonEmptyTexts(raws, decode) == NonEmptyTexts(raws[..n], decode) + [];
        assert NonEmptyTexts(raws[..n], decode) + [] == NonEmptyTexts(raws[..n], decode);
        before
  }

  /** The texts the service counts: the non-empty contents of the accepted files. */
  function CountedTexts(repo: seq<Entry>, exts: seq<string>, decode: seq<Byte> -> string): seq<string>
  {
    NonEmptyTexts(RawContents(Matching(repo, AllowedExtensions(exts))), decode)
  }

  /** `GetLetterFrequenciesFromFilesWithExtensions`: the ranked histogram of every accepted
      file's content when every remote call succeeds, or the first exception otherwise. */
  function GetLetterFrequenciesFromFilesWithExtensions(repo: seq<Entry>, exts: seq<string>, env: Env,
                                                       decode: seq<Byte> -> string): (r: Response<seq<Tally>>)
    ensures r.outcome.Success? ==> Ranked(r.outcome.value)
    ensures r.outcome.Success? ==> ReportsHistogram(r.outcome.value, CountedTexts(repo, exts, decode))
    ensures Reliable(RateLimitExceededPolicy, env) ==> r.outcome.Success?
    ensures r.outcome.Success? <==> Visit(RateLimitExceededPolicy, env, Root(repo), AllowedExtensions(exts)).outcome.Success?
    ensures r.requests == Visit(RateLimitExceededPolicy, env, Root(repo), AllowedExtensions(exts)).requests
    ensures r.outcome.Success? <==> AllPass(RateLimitExceededPolicy, env, TreeCalls(repo, AllowedExtensions(exts)))
    ensures r.outcome.Success? ==> forall c :: c in TreeCalls(repo, AllowedExtensions(exts)) ==> c in r.requests
    ensures forall c :: c in r.requests ==> c in TreeCalls(repo, AllowedExtensions(exts))
    ensures r.outcome.Failure? ==>
      exists c :: c in TreeCalls(repo, AllowedExtensions(exts))
               && Remote(RateLimitExceededPolicy, env, c).outcome == Fail(r.outcome.error)
  {
    TraversalOfTree(RateLimitExceededPolicy, env, repo, AllowedExtensions(exts));
    var t := Visit(RateLimitExceededPolicy, env, Root(repo), AllowedExtensions(exts));
    match t.outcome
    case Failure(e) => Response(Failure(e), t.requests)
    case Success(files) =>
      var m := CountContents(Initialize(), RawContents(files), decode);
      assert m == Histogram(NonEmptyTexts(RawContents(files), decode));
      RankingReportsCounts(m, NonEmptyTexts(RawContents(files), decode));
      Response(Success(Finalize(m)), t.requests)
  }

  // ---------------------------------------------------------------------------
  // Counting the fetched files
  // ---------------------------------------------------------------------------

  lemma {:induction false} NonEmptyTextsAppend(a: seq<seq<Byte>>, b: seq<seq<Byte>>, decode: seq<Byte> -> string)
    ensures NonEmptyTexts(a + b, decode) == NonEmptyTexts(a, decode) + NonEmptyTexts(b, decode)
  {
    if |b| == 0 {
      assert a + b == a;
    } else {
      var n := |b| - 1;
      var ab := a + b;
      var tail := if |b[n]| > 0 then [decode(b[n])] else [];
      NonEmptyTextsAppend(a, b[..n], decode);
      assert ab[..|ab| - 1] == a + b[..n];
      assert ab[|ab| - 1] == b[n];
      assert NonEmptyTexts(ab, decode) == NonEmptyTexts(a + b[..n], decode) + tail;
      assert NonEmptyTexts(b, decode) == NonEmptyTexts(b[..n], decode) + tail;
    }
  }

  lemma NonEmptyTextsRemove(b: seq<seq<Byte>>, j: int, decode: seq<Byte> -> string)
    requires 0 <= j < |b|
    ensures multiset(NonEmptyTexts(b, decode))
         == multiset(NonEmptyTexts(b[..j] + b[j + 1..], decode)) + multiset(NonEmptyTexts([b[j]], decode))
  {
    var pre, mid, post := b[..j], [b[j]], b[j + 1..];
    SplitAt(b, j);
    NonEmptyTextsAppend(pre + mid, post, decode);
    NonEmptyTextsAppend(pre, mid, decode);
    NonEmptyTextsAppend(pre, post, decode);
    var tp, tm, tq := NonEmptyTexts(pre, decode), NonEmptyTexts(mid, decode), NonEmptyTexts(post, decode);
    assert NonEmptyTexts(b, decode) == (tp + tm) + tq;
    assert multiset((tp + tm) + tq) == multiset(tp) + multiset(tm) + multiset(tq);
    assert multiset(tp + tq) == multiset(tp) + multiset(tq);
  }

  lemma {:induction false} NonEmptyTextsPermutation(a: seq<seq<Byte>>, b: seq<seq<Byte>>, decode: seq<Byte> -> string)
    requires multiset(a) == multiset(b)
    ensures multiset(NonEmptyTexts(a, decode)) == multiset(NonEmptyTexts(b, decode))
    decreases |a|
  {
    if |a| == 0 {
      assert |b| == |multiset(b)| == 0;
    } else {
      var n := |a| - 1;
      var j := MatchLast(a, b);
      NonEmptyTextsPermutation(a[..n], b[..j] + b[j + 1..], decode);
      NonEmptyTextsRemove(b, j, decode);
      NonEmptyTextsRemove(a, n, decode);
      assert a[..n] + a[n + 1..] == a[..n];
    }
  }

  /** The order in which the parallel loop happens to count the files does not matter:
      any permutation of the fetched files gives the same counts. */
  lemma CountingIsOrderIndependent(m: Frequencies, a: seq<seq<Byte>>, b: seq<seq<Byte>>, decode: seq<Byte> -> string)
    requires multiset(a) == multiset(b)
    ensures CountContents(m, a, decode) == CountContents(m, b, decode)
  {
    NonEmptyTextsPermutation(a, b, decode);
    var ta := NonEmptyTexts(a, decode);
    var tb := NonEmptyTexts(b, decode);
    UpdateAllOrderIndependent(m, ta, tb);
  }

  /** Because decoding no bytes gives the empty text, skipping empty files changes no
      count: the result is the histogram of all fetched files' texts. */
  lemma {:induction false} SkippingEmptyFilesIsUnobservable(raws: seq<seq<Byte>>, decode: seq<Byte> -> string, c: char)
    requires decode([]) == ""
    ensures TotalOccurrences(NonEmptyTexts(raws, decode), c) == TotalOccurrences(Decoded(raws, decode), c)
  {
    if |raws| > 0 {
      var n := |raws| - 1;
      SkippingEmptyFilesIsUnobservable(raws[..n], decode, c);
      var texts := NonEmptyTexts(raws[..n], decode);
      assert Decoded(raws, decode)[..n] == Decoded(raws[..n], decode);
      if |raws[n]| > 0 {
        assert (texts + [decode(raws[n])])[..|texts|] == texts;
      } else {
        assert NonEmptyTexts(raws, decode) == texts + [];
        assert texts + [] == texts;
        var d := Decoded(raws, decode);
        assert raws[n] == [];
        assert d[n] == "";
        assert Occurrences(Lower(d[n]), c) == 0 by {
          assert |Lower(d[n])| == 0;
        }
        assert TotalOccurrences(d, c) == TotalOccurrences(d[..n], c) + Occurrences(Lower(d[n]), c);
      }
    }
  }
}
