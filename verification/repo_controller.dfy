/** The repository controller: the POST endpoint that falls back to ".js" and ".ts" when
    the caller sends no extension list, and hands the list to the repository service. */
module RepoController {
  import opened Wrappers
  import opened Text
  import opened LetterFrequencies
  import opened Resilience
  import opened FileNames
  import opened ContentTree
  import opened Traversal
  import opened RepoService
  import opened FilesService

  /** The extension list the service receives: the caller's own when it has at least one
      entry, the defaults when the body was missing (`None`) or empty. */
  function NormalizeExtensions(exts: Option<seq<string>>): (r: seq<string>)
    ensures |r| > 0
    ensures exts.Some? && |exts.value| > 0 ==> r == exts.value
    ensures exts.None? || |exts.value| == 0 ==> r == DefaultExtensions
  {
    if exts.Some? && |exts.value| > 0 then exts.value else DefaultExtensions
  }

  /** `GetLetterFrequenciesFromFilesWithExtensions` of the controller: the service's answer
      for the normalized list. */
  function GetLetterFrequencies(exts: Option<seq<string>>, repo: seq<Entry>, env: Env,
                                decode: seq<Byte> -> string): (r: Response<seq<Tally>>)
    ensures r.outcome.Success? ==> ReportsHistogram(r.outcome.value, CountedTexts(repo, NormalizeExtensions(exts), decode))
    ensures r.outcome.Success? ==> Ranked(r.outcome.value)
    ensures Reliable(RateLimitExceededPolicy, env) ==> r.outcome.Success?
    ensures r.outcome.Success? <==> AllPass(RateLimitExceededPolicy, env, TreeCalls(repo, AllowedExtensions(NormalizeExtensions(exts))))
    ensures r.outcome.Failure? ==>
      exists c :: c in TreeCalls(repo, AllowedExtensions(NormalizeExtensions(exts)))
               && Remote(RateLimitExceededPolicy, env, c).outcome == Fail(r.outcome.error)
  {
    GetLetterFrequenciesFromFilesWithExtensions(repo, NormalizeExtensions(exts), env, decode)
  }

  /** Normalizing twice changes nothing, and a normalized list is never replaced. */
  lemma NormalizeIsIdempotent(exts: Option<seq<string>>)
    ensures NormalizeExtensions(Some(NormalizeExtensions(exts))) == NormalizeExtensions(exts)
  {
  }

  /** An omitted body, an empty list and an explicit [".js", ".ts"] are the same request. */
  lemma MissingAndEmptyMeanDefaults(repo: seq<Entry>, env: Env, decode: seq<Byte> -> string)
    ensures GetLetterFrequencies(None, repo, env, decode) == GetLetterFrequencies(Some([]), repo, env, decode)
    ensures GetLetterFrequencies(None, repo, env, decode) == GetLetterFrequencies(Some(DefaultExtensions), repo, env, decode)
  {
  }

  /** Every file name in the tree is free of capitals. */
  predicate LowerCaseNames(repo: seq<Entry>)
  {
    forall e :: e in Nodes(repo) && e.File? ==> Lower(e.name) == e.name
  }

  /** On a tree without capitals in its file names, and with a decoder that maps no bytes
      to the empty text, the controller's default request counts exactly the letters of the
      texts the files service returns. */
  lemma DefaultRequestCountsTheFilesServiceTexts(repo: seq<Entry>, env: Env, decode: seq<Byte> -> string, c: char)
    requires LowerCaseNames(repo)
    requires decode([]) == ""
    requires GetContentOfTSAndJSFiles(repo, env, decode).outcome.Success?
    ensures TotalOccurrences(CountedTexts(repo, NormalizeExtensions(None), decode), c)
         == TotalOccurrences(GetContentOfTSAndJSFiles(repo, env, decode).outcome.value, c)
  {
    forall e | e in Nodes(repo) && e.File?
      ensures Accepts(AllowedExtensions(DefaultExtensions), e.name) <==> Accepts(JsOrTs, e.name)
    {
      FiltersAgreeOnLowerCaseNames(e.name);
    }
    MatchingAgree(repo, AllowedExtensions(DefaultExtensions), JsOrTs);
    var raws := RawContents(Matching(repo, JsOrTs));
    SkippingEmptyFilesIsUnobservable(raws, decode, c);
    TotalOccurrencesPermutation(Decoded(raws, decode), GetContentOfTSAndJSFiles(repo, env, decode).outcome.value, c);
  }
}
