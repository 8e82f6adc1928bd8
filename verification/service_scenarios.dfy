/** The repository's own test scenarios for the repository service, stated as lemmas
    about the model: retry on 503, failure once the retry is spent, and cancellation. */
module ServiceScenarios {
  import opened Wrappers
  import opened Text
  import opened LetterFrequencies
  import opened Resilience
  import opened FileNames
  import opened ContentTree
  import opened Traversal
  import opened RepoService

  /** A request whose token is already cancelled ends with a cancellation error and
      makes no remote call. */
  lemma CancelledRequestFails(repo: seq<Entry>, exts: seq<string>, env: Env, decode: seq<Byte> -> string)
    requires env.cancelled
    ensures GetLetterFrequenciesFromFilesWithExtensions(repo, exts, env, decode) == Response(Failure(Canceled), [])
  {
    CancelledBeforeStart(RateLimitExceededPolicy, env, "/", repo, AllowedExtensions(exts));
  }

  /** When listing "/" answers 503 on every invocation, the request fails with that same
      exception after exactly two attempts and fetches nothing. */
  lemma PersistentUnavailabilityFails(repo: seq<Entry>, exts: seq<string>, env: Env, decode: seq<Byte> -> string)
    requires !env.cancelled
    requires forall k :: env.script(ListDirectory("/"))(k) == Threw(ApiError(ServiceUnavailable))
    ensures GetLetterFrequenciesFromFilesWithExtensions(repo, exts, env, decode)
         == Response(Failure(ApiError(ServiceUnavailable)), [ListDirectory("/"), ListDirectory("/")])
  {
    UnavailableTwiceFails(RateLimitExceededPolicy, env.script(ListDirectory("/")), env.clock(ListDirectory("/")));
    assert Repeat(ListDirectory("/"), 2) == [ListDirectory("/"), ListDirectory("/")];
  }

  lemma SampleTextIsLowerCase()
    ensures Lower("console.log('test');") == "console.log('test');"
  {
  }

  lemma SampleHalvesCounted()
    ensures Occurrences("conso", 'o') == 2 && Occurrences("le.lo", 'o') == 1
  {
    OccurrencesIsMultiplicity("conso", 'o');
    OccurrencesIsMultiplicity("le.lo", 'o');
  }

  lemma SampleTailCounted()
    ensures Occurrences("g('te", 'o') == 0 && Occurrences("st');", 'o') == 0
  {
    OccurrencesIsMultiplicity("g('te", 'o');
    OccurrencesIsMultiplicity("st');", 'o');
  }

  lemma SampleTextHasThreeOs()
    ensures Occurrences("console.log('test');", 'o') == 3
  {
    var a, b, c, d := "conso", "le.lo", "g('te", "st');";
    SampleHalvesCounted();
    SampleTailCounted();
    OccurrencesAppend(a, b, 'o');
    OccurrencesAppend(c, d, 'o');
    OccurrencesAppend(a + b, c + d, 'o');
    assert "console.log('test');" == (a + b) + (c + d);
  }

  lemma SampleTotal()
    ensures TotalOccurrences(["console.log('test');"], 'o') == 3
  {
    SampleTextIsLowerCase();
    SampleTextHasThreeOs();
    assert ["console.log('test');"][..0] == [];
  }

  lemma SampleFileIsCounted(decode: seq<Byte> -> string, raw: seq<Byte>)
    requires |raw| > 0
    ensures HasAllowedFileExtension("test.js", DefaultExtensions)
    ensures CountedTexts([File("test.js", "path/to/test.js", raw)], DefaultExtensions, decode) == [decode(raw)]
  {
    var file := File("test.js", "path/to/test.js", raw);
    assert EndsWith("test.js", ".js") by {
      assert "test.js"[4..] == ".js";
    }
    JsOrTsIsAllowedByDefault("test.js");
    assert Matching([file], AllowedExtensions(DefaultExtensions)) == [file];
    assert RawContents([file]) == [raw];
    assert [raw][..0] == [];
    assert NonEmptyTexts([raw], decode) == [] + [decode(raw)];
  }

  lemma SampleTraversalSucceeds(env: Env, raw: seq<Byte>)
    requires !env.cancelled
    requires env.script(ListDirectory("/"))(0) == Threw(ApiError(ServiceUnavailable))
    requires env.script(ListDirectory("/"))(1) == Returned
    requires env.script(FetchRaw("path/to/test.js"))(0) == Returned
    requires HasAllowedFileExtension("test.js", DefaultExtensions)
    ensures Visit(RateLimitExceededPolicy, env, Root([File("test.js", "path/to/test.js", raw)]),
                  AllowedExtensions(DefaultExtensions)).outcome.Success?
  {
    var file := File("test.js", "path/to/test.js", raw);
    var f := AllowedExtensions(DefaultExtensions);
    UnavailableThenSuccess(RateLimitExceededPolicy, env.script(ListDirectory("/")), env.clock(ListDirectory("/")));
    ExecuteSingleRetry(RateLimitExceededPolicy, false, env.script(FetchRaw("path/to/test.js")), env.clock(FetchRaw("path/to/test.js")));
    assert [file][1..] == [];
    assert Visit(RateLimitExceededPolicy, env, file, f).outcome.Success?;
    assert Walk(RateLimitExceededPolicy, env, [file], f).outcome.Success?;
  }

  /** A single "test.js" whose listing first answers 503: the retry succeeds and the
      ranking reports three o's for the text "console.log('test');". */
  lemma RetriedListingStillCounts(env: Env, decode: seq<Byte> -> string, raw: seq<Byte>)
    requires !env.cancelled
    requires env.script(ListDirectory("/"))(0) == Threw(ApiError(ServiceUnavailable))
    requires env.script(ListDirectory("/"))(1) == Returned
    requires env.script(FetchRaw("path/to/test.js"))(0) == Returned
    requires |raw| > 0 && decode(raw) == "console.log('test');"
    ensures var r := GetLetterFrequenciesFromFilesWithExtensions([File("test.js", "path/to/test.js", raw)],
                                                                 DefaultExtensions, env, decode);
            r.outcome.Success? && ('o', 3) in r.outcome.value
  {
    var file := File("test.js", "path/to/test.js", raw);
    SampleFileIsCounted(decode, raw);
    SampleTraversalSucceeds(env, raw);
    SampleTotal();
    var r := GetLetterFrequenciesFromFilesWithExtensions([file], DefaultExtensions, env, decode);
    ReportedCount(r.outcome.value, [decode(raw)], 'o');
  }
}
