/** The files service: list "/" and walk the tree through the service's own retry policy,
    collecting the decoded content of every file whose name ends in ".js" or ".ts"
    (case-sensitive), empty files included. */
module FilesService {
  import opened Wrappers
  import opened Resilience
  import opened FileNames
  import opened ContentTree
  import opened Traversal

  /** `GetContentOfTSAndJSFiles`: the texts of all JavaScript and TypeScript files when
      every remote call succeeds, or the first exception otherwise. The texts are
      gathered in a concurrent bag, so only their multiset is promised. */
  function GetContentOfTSAndJSFiles(repo: seq<Entry>, env: Env, decode: seq<Byte> -> string): (r: Response<seq<string>>)
    ensures r.outcome.Success? ==>
      multiset(r.outcome.value) == multiset(Decoded(RawContents(Matching(repo, JsOrTs)), decode))
    ensures r.outcome.Success? ==> |r.outcome.value| == |Matching(repo, JsOrTs)|
    ensures Reliable(ServiceRetryPolicy, env) ==> r.outcome.Success?
    ensures r.outcome.Success? <==> AllPass(ServiceRetryPolicy, env, TreeCalls(repo, JsOrTs))
    ensures r.outcome.Success? ==> forall c :: c in TreeCalls(repo, JsOrTs) ==> c in r.requests
    ensures forall c :: c in r.requests ==> c in TreeCalls(repo, JsOrTs)
    ensures r.outcome.Failure? ==>
      exists c :: c in TreeCalls(repo, JsOrTs) && Remote(ServiceRetryPolicy, env, c).outcome == Fail(r.outcome.error)
  {
    TraversalOfTree(ServiceRetryPolicy, env, repo, JsOrTs);
    var t := Visit(ServiceRetryPolicy, env, Root(repo), JsOrTs);
    match t.outcome
    case Failure(e) => Response(Failure(e), t.requests)
    case Success(files) => Response(Success(Decoded(RawContents(files), decode)), t.requests)
  }

  /** A text is delivered exactly when it is the decoded content of some ".js" or ".ts"
      file anywhere in the tree. */
  lemma ContentsAreTheJsAndTsFiles(repo: seq<Entry>, env: Env, decode: seq<Byte> -> string, s: string)
    requires GetContentOfTSAndJSFiles(repo, env, decode).outcome.Success?
    ensures s in GetContentOfTSAndJSFiles(repo, env, decode).outcome.value
        <==> exists e :: e in Nodes(repo) && IsAcceptedFile(e, JsOrTs) && decode(e.raw) == s
  {
    var files := Matching(repo, JsOrTs);
    var texts := Decoded(RawContents(files), decode);
    assert multiset(GetContentOfTSAndJSFiles(repo, env, decode).outcome.value) == multiset(texts);
    if s in texts {
      var i :| 0 <= i < |texts| && texts[i] == s;
      MatchingMembership(repo, JsOrTs, files[i]);
    }
    if e :| e in Nodes(repo) && IsAcceptedFile(e, JsOrTs) && decode(e.raw) == s {
      MatchingMembership(repo, JsOrTs, e);
      var i :| 0 <= i < |files| && files[i] == e;
      assert texts[i] == s;
    }
  }

  /** Unlike the repository service, an empty ".js" file still contributes a text: the
      decoding of no bytes. */
  lemma EmptyFilesAreDelivered(repo: seq<Entry>, env: Env, decode: seq<Byte> -> string, e: Entry)
    requires GetContentOfTSAndJSFiles(repo, env, decode).outcome.Success?
    requires e in Nodes(repo) && IsAcceptedFile(e, JsOrTs) && e.raw == []
    ensures decode([]) in GetContentOfTSAndJSFiles(repo, env, decode).outcome.value
  {
    ContentsAreTheJsAndTsFiles(repo, env, decode, decode([]));
  }

  /** An already-cancelled request fails with a cancellation error and calls nothing. */
  lemma CancelledContentRequestFails(repo: seq<Entry>, env: Env, decode: seq<Byte> -> string)
    requires env.cancelled
    ensures GetContentOfTSAndJSFiles(repo, env, decode) == Response(Failure(Canceled), [])
  {
    CancelledBeforeStart(ServiceRetryPolicy, env, "/", repo, JsOrTs);
  }
}
