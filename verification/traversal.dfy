/** The recursive traversal shared by both services, with every remote call made through
    the retry policy. The parallel fan-out is modelled as a sequential walk in listing
    order that stops at the first call that fails after its retry. */
module Traversal {
  import opened Wrappers
  import opened Resilience
  import opened FileNames
  import opened ContentTree

  /** The two kinds of remote call: list a directory, fetch a file's raw bytes. */
  datatype Call = ListDirectory(path: string) | FetchRaw(path: string)

  /** The remote side of one request: whether its cancellation token was already
      cancelled, what each invocation of each call does, and the instants at which retry
      delays are computed. */
  datatype Env = Env(cancelled: bool, script: Call -> nat -> Attempt, clock: Call -> nat -> int)

  /** What a traversal returned or threw, and the remote calls it invoked, once per
      invocation (a retried call appears twice). */
  datatype Response<T> = Response(outcome: Result<T, Error>, requests: seq<Call>)

  /** One remote call through the policy. */
  function Remote(p: Policy, env: Env, c: Call): Run
  {
    Execute(p, env.cancelled, env.script(c), env.clock(c))
  }

  /** Every call eventually succeeds within its retry budget and nothing is cancelled. */
  ghost predicate Reliable(p: Policy, env: Env)
  {
    !env.cancelled && forall c :: Remote(p, env, c).outcome.Pass?
  }

  function Repeat(c: Call, n: nat): seq<Call>
  {
    seq(n, _ => c)
  }

  /** Process one listing: each entry in turn, stopping at the first failure. */
  function Walk(p: Policy, env: Env, es: seq<Entry>, f: Filter): (t: Response<seq<Entry>>)
    ensures t.outcome.Success? ==> t.outcome.value == Matching(es, f)
    ensures Reliable(p, env) ==> t.outcome == Success(Matching(es, f))
    decreases es
  {
    if |es| == 0 then Response(Success([]), [])
    else
      var first := Visit(p, env, es[0], f);
      match first.outcome
      case Failure(e) => Response(Failure(e), first.requests)
      case Success(files) =>
        var rest := Walk(p, env, es[1..], f);
        Response(if rest.outcome.Success? then Success(files + rest.outcome.value) else rest.outcome,
                 first.requests + rest.requests)
  }

  /** Process one entry: a directory is listed and its listing walked; a file whose name
      the filter accepts is fetched; anything else is skipped without a remote call. */
  function Visit(p: Policy, env: Env, e: Entry, f: Filter): (t: Response<seq<Entry>>)
    ensures t.outcome.Success? ==> t.outcome.value == MatchingIn(e, f)
    ensures Reliable(p, env) ==> t.outcome == Success(MatchingIn(e, f))
    decreases e
  {
    match e
    case Dir(_, path, cs) =>
      var run := Remote(p, env, ListDirectory(path));
      var sent := Repeat(ListDirectory(path), run.invocations);
      if run.outcome.Fail? then Response(Failure(run.outcome.error), sent)
      else
        var sub := Walk(p, env, cs, f);
        Response(sub.outcome, sent + sub.requests)
    case File(name, path, _) =>
      if Accepts(f, name) then
        var run := Remote(p, env, FetchRaw(path));
        Response(if run.outcome.Fail? then Failure(run.outcome.error) else Success([e]),
                 Repeat(FetchRaw(path), run.invocations))
      else Response(Success([]), [])
    case Other(_, _) => Response(Success([]), [])
  }

  /** The calls a traversal of `nodes` may make: list each directory, fetch each accepted
      file. */
  function Permitted(nodes: seq<Entry>, f: Filter): seq<Call>
  {
    if |nodes| == 0 then []
    else
      (match nodes[0]
       case Dir(_, path, _) => [ListDirectory(path)]
       case File(name, path, _) => if Accepts(f, name) then [FetchRaw(path)] else []
       case Other(_, _) => [])
      + Permitted(nodes[1..], f)
  }

  lemma {:induction false} PermittedAppend(a: seq<Entry>, b: seq<Entry>, f: Filter)
    ensures Permitted(a + b, f) == Permitted(a, f) + Permitted(b, f)
  {
    if |a| > 0 {
      assert (a + b)[1..] == a[1..] + b;
      PermittedAppend(a[1..], b, f);
    } else {
      assert a + b == b;
    }
  }

  /** Only directories of the tree are listed and only accepted files are fetched:
      a file the filter rejects and an entry that is neither are never requested. */
  lemma {:induction false} WalkRequestsArePermitted(p: Policy, env: Env, es: seq<Entry>, f: Filter)
    ensures forall c :: c in Walk(p, env, es, f).requests ==> c in Permitted(Nodes(es), f)
    decreases es
  {
    if |es| > 0 {
      VisitRequestsArePermitted(p, env, es[0], f);
      WalkRequestsArePermitted(p, env, es[1..], f);
      PermittedAppend(NodesOf(es[0]), Nodes(es[1..]), f);
    }
  }

  lemma {:induction false} VisitRequestsArePermitted(p: Policy, env: Env, e: Entry, f: Filter)
    ensures forall c :: c in Visit(p, env, e, f).requests ==> c in Permitted(NodesOf(e), f)
    decreases e
  {
    match e
    case Dir(_, path, cs) =>
      WalkRequestsArePermitted(p, env, cs, f);
      PermittedAppend([e], Nodes(cs), f);
      assert Permitted([e], f) == [ListDirectory(path)] by {
        assert [e][1..] == [];
      }
    case File(name, path, _) =>
      assert Permitted([e], f) == (if Accepts(f, name) then [FetchRaw(path)] else []) by {
        assert [e][1..] == [];
      }
    case Other(_, _) =>
  }

  /** Every call of `calls` passes through the policy, after its retry if it needed one. */
  ghost predicate AllPass(p: Policy, env: Env, calls: seq<Call>)
  {
    forall c :: c in calls ==> Remote(p, env, c).outcome.Pass?
  }

  lemma AllPassAppend(p: Policy, env: Env, a: seq<Call>, b: seq<Call>)
    ensures AllPass(p, env, a + b) <==> AllPass(p, env, a) && AllPass(p, env, b)
  {
    assert forall c :: c in a + b <==> c in a || c in b;
  }

  lemma RepeatHolds(c: Call, n: nat)
    ensures n > 0 ==> c in Repeat(c, n)
    ensures forall d :: d in Repeat(c, n) ==> d == c
  {
    if n > 0 {
      assert Repeat(c, n)[0] == c;
    }
  }

  lemma {:induction false} PermittedOfDir(e: Entry, f: Filter)
    requires e.Dir?
    ensures Permitted(NodesOf(e), f) == [ListDirectory(e.path)] + Permitted(Nodes(e.children), f)
  {
    PermittedAppend([e], Nodes(e.children), f);
    assert [e][1..] == [];
  }

  lemma {:induction false} PermittedOfFile(e: Entry, f: Filter)
    requires e.File?
    ensures Permitted(NodesOf(e), f) == if Accepts(f, e.name) then [FetchRaw(e.path)] else []
  {
    assert [e][1..] == [];
  }

  /** A walk succeeds exactly when every directory of the listing and every accepted file
      beneath it can be obtained: one call failing after its retry fails the whole walk,
      and no partial result is ever returned. */
  lemma {:induction false} WalkSucceedsIffCallsPass(p: Policy, env: Env, es: seq<Entry>, f: Filter)
    ensures Walk(p, env, es, f).outcome.Success? <==> AllPass(p, env, Permitted(Nodes(es), f))
    decreases es
  {
    if |es| > 0 {
      VisitSucceedsIffCallsPass(p, env, es[0], f);
      WalkSucceedsIffCallsPass(p, env, es[1..], f);
      PermittedAppend(NodesOf(es[0]), Nodes(es[1..]), f);
      AllPassAppend(p, env, Permitted(NodesOf(es[0]), f), Permitted(Nodes(es[1..]), f));
    }
  }

  lemma {:induction false} VisitSucceedsIffCallsPass(p: Policy, env: Env, e: Entry, f: Filter)
    ensures Visit(p, env, e, f).outcome.Success? <==> AllPass(p, env, Permitted(NodesOf(e), f))
    decreases e
  {
    match e
    case Dir(_, path, cs) =>
      WalkSucceedsIffCallsPass(p, env, cs, f);
      PermittedOfDir(e, f);
      AllPassAppend(p, env, [ListDirectory(path)], Permitted(Nodes(cs), f));
    case File(_, _, _) =>
      PermittedOfFile(e, f);
    case Other(_, _) =>
  }

  /** A successful walk has listed every directory and fetched every accepted file
      beneath the listing: nothing is left out. */
  lemma {:induction false} WalkMakesEveryCall(p: Policy, env: Env, es: seq<Entry>, f: Filter)
    ensures Walk(p, env, es, f).outcome.Success? ==>
      forall c :: c in Permitted(Nodes(es), f) ==> c in Walk(p, env, es, f).requests
    decreases es
  {
    if |es| > 0 {
      VisitMakesEveryCall(p, env, es[0], f);
      WalkMakesEveryCall(p, env, es[1..], f);
      PermittedAppend(NodesOf(es[0]), Nodes(es[1..]), f);
    }
  }

  lemma {:induction false} VisitMakesEveryCall(p: Policy, env: Env, e: Entry, f: Filter)
    ensures Visit(p, env, e, f).outcome.Success? ==>
      forall c :: c in Permitted(NodesOf(e), f) ==> c in Visit(p, env, e, f).requests
    decreases e
  {
    match e
    case Dir(_, path, cs) =>
      WalkMakesEveryCall(p, env, cs, f);
      PermittedOfDir(e, f);
      RepeatHolds(ListDirectory(path), Remote(p, env, ListDirectory(path)).invocations);
    case File(name, path, _) =>
      PermittedOfFile(e, f);
      RepeatHolds(FetchRaw(path), Remote(p, env, FetchRaw(path)).invocations);
    case Other(_, _) =>
  }

  /** A failed walk reports the exception of one of its calls: the call that still failed
      after its retry, or the cancellation when the token was already cancelled. */
  lemma {:induction false} WalkFailureComesFromACall(p: Policy, env: Env, es: seq<Entry>, f: Filter)
    ensures var t := Walk(p, env, es, f);
      t.outcome.Failure? ==>
        exists c :: c in Permitted(Nodes(es), f) && Remote(p, env, c).outcome == Fail(t.outcome.error)
    decreases es
  {
    if |es| > 0 {
      VisitFailureComesFromACall(p, env, es[0], f);
      WalkFailureComesFromACall(p, env, es[1..], f);
      PermittedAppend(NodesOf(es[0]), Nodes(es[1..]), f);
    }
  }

  lemma {:induction false} VisitFailureComesFromACall(p: Policy, env: Env, e: Entry, f: Filter)
    ensures var t := Visit(p, env, e, f);
      t.outcome.Failure? ==>
        exists c :: c in Permitted(NodesOf(e), f) && Remote(p, env, c).outcome == Fail(t.outcome.error)
    decreases e
  {
    match e
    case Dir(_, path, cs) =>
      WalkFailureComesFromACall(p, env, cs, f);
      PermittedOfDir(e, f);
      if Remote(p, env, ListDirectory(path)).outcome.Fail? {
        assert ListDirectory(path) in Permitted(NodesOf(e), f);
      }
    case File(name, path, _) =>
      PermittedOfFile(e, f);
      if Accepts(f, name) && Remote(p, env, FetchRaw(path)).outcome.Fail? {
        assert FetchRaw(path) in Permitted(NodesOf(e), f);
      }
    case Other(_, _) =>
  }

  /** The calls a traversal of the whole repository makes when none fails: list "/" and
      every directory beneath it, fetch every file the filter accepts. */
  function TreeCalls(repo: seq<Entry>, f: Filter): seq<Call>
  {
    Permitted(NodesOf(Root(repo)), f)
  }

  /** Listing "/" and walking it, as both services do: it succeeds exactly when every
      call of the tree passes, it then has made every one of them, it never makes any
      other, and a failure carries the exception of one of them. */
  lemma TraversalOfTree(p: Policy, env: Env, repo: seq<Entry>, f: Filter)
    ensures var t := Visit(p, env, Root(repo), f);
      && (t.outcome.Success? <==> AllPass(p, env, TreeCalls(repo, f)))
      && (t.outcome.Success? ==> forall c :: c in TreeCalls(repo, f) ==> c in t.requests)
      && (forall c :: c in t.requests ==> c in TreeCalls(repo, f))
      && (t.outcome.Failure? ==>
            exists c :: c in TreeCalls(repo, f) && Remote(p, env, c).outcome == Fail(t.outcome.error))
  {
    VisitSucceedsIffCallsPass(p, env, Root(repo), f);
    VisitMakesEveryCall(p, env, Root(repo), f);
    VisitRequestsArePermitted(p, env, Root(repo), f);
    VisitFailureComesFromACall(p, env, Root(repo), f);
  }

  /** With the token already cancelled, the traversal of a directory ends in a
      cancellation error without a single remote call. */
  lemma CancelledBeforeStart(p: Policy, env: Env, path: string, cs: seq<Entry>, f: Filter)
    requires env.cancelled
    ensures Visit(p, env, Dir("", path, cs), f) == Response(Failure(Canceled), [])
  {
  }
}
