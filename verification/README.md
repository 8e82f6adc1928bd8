# GitHubStatApi core, modelled in Dafny

GitHubStatApi is a small ASP.NET service that walks a GitHub repository and answers one of
two questions:

- how often each letter `a`..`z` occurs in the repository's files whose names end in a
  caller-chosen extension (the repository service, behind `GitHubRepoController`);
- what the contents of its `.js` and `.ts` files are (the files service).

This project models the logic behind those answers as pure Dafny functions over immutable
data, and proves what that logic promises. The remote repository is a tree of listing
entries. Each remote call (list a directory, fetch a file) goes through a single-retry
policy whose behaviour on every invocation is a parameter.

| module | file | models |
|---|---|---|
| `Wrappers` | `wrappers.dfy` | `Option`, `Result` and `Outcome` |
| `Sequences` | `sequences.dfy` | multiset facts shared by the permutation proofs |
| `Text` | `text.dfy` | ASCII lower-casing, character counts, ordinal and case-insensitive suffix tests |
| `LetterFrequencies` | `letter_frequencies.dfy` | `FileContentAnalyzerService`: the 26-letter seed, the per-text count, the ranking, and `CalculateLetterFrequencies` as a method with loops |
| `FileNames` | `file_names.dfy` | `HasAllowedFileExtension`, the files service's `.js`/`.ts` test, and the default extensions |
| `ContentTree` | `content_tree.dfy` | directory listings as a tree; the reference set of files a traversal must deliver |
| `Resilience` | `resilience.dfy` | `CreateRateLimitExceededPolicy`, `ExecuteWithPolicyWrap`, and the files service's own retry policy and `ExecuteWithRetry` |
| `Traversal` | `traversal.dfy` | `ProcessRepositoryContents` / `Process`: the recursive walk, every call through the retry policy |
| `RepoService` | `repo_service.dfy` | `GitHubRepoService`: parallelism degree, skipping empty files, counting and ranking |
| `FilesService` | `files_service.dfy` | `GitHubService.GetContentOfTSAndJSFiles` |
| `RepoController` | `repo_controller.dfy` | `GitHubRepoController`: falling back to the default extension list |
| `ServiceScenarios` | `service_scenarios.dfy` | the repository's unit-test scenarios, stated as lemmas |

Modelling choices:

- **Time.** Instants and delays are integer milliseconds, so one second is `1000`.
- **Retry context.** The Polly context is an `Option<int>` that holds the recorded reset
  instant, if any.
- **Remote side.** `Env.script(call)(k)` says what the k-th invocation of a remote call
  returns or throws. `Env.clock(call)(k)` gives the instant at which the k-th retry delay
  is computed. `Env.cancelled` says whether the request's cancellation token was already
  cancelled.
- **Concurrency.** The parallel fan-out is modelled as a walk in listing order that stops
  at the first call that still fails after its retry. `RepoService.CountingIsOrderIndependent`
  and `LetterFrequencies.UpdateAllOrderIndependent` prove that the order in which files are
  counted does not affect the result. When several calls fail, which exception escapes
  depends on the schedule, so the contracts promise only that a failure carries the
  exception of one call of the tree that still failed after its retry. The files service
  gathers its texts in a concurrent bag, so its contract promises only their multiset.
- **Text.** UTF-8 decoding is the parameter `decode`. Lower-casing and case-insensitive
  comparison fold ASCII letters only.

**The two services differ.** `GitHubRepoService` skips empty files and matches
extensions case-insensitively (GitHubStatApi/Services/GitHubRepoService.cs:89, :100).
`GitHubService` does neither: its filter is a case-sensitive `EndsWith(".js") ||
EndsWith(".ts")`, and it decodes and returns every fetched file, empty ones included
(GitHubService.cs:80-83). `FilesService.EmptyFilesAreDelivered` and
`FileNames.FiltersDifferOnCapitals` state the difference.

`GitHubRepoService` calls `InitializeLetterFrequencyDictionary` and
`UpdateLetterFrequencyDictionary` (GitHubRepoService.cs:49, :92). Neither method is defined in
FileContentAnalyzerService.cs or declared in IFileContentAnalyzerService.cs. They are modelled as
`LetterFrequencies.Initialize` and `LetterFrequencies.Update`, taken from the seed
(FileContentAnalyzerService.cs:10-12) and the per-file loop body
(FileContentAnalyzerService.cs:16-22) of `CalculateLetterFrequencies`.

## Model

| member | source | states |
|---|---|---|
| Text.LowerMergesCases | GitHubStatApi/Services/FileContentAnalyzerService.cs:16-20 | after lower-casing, a letter's count is its lower-case plus its upper-case occurrences in the original text |
| Text.LowerHasNoCapitals | GitHubStatApi/Services/FileContentAnalyzerService.cs:16 | a lower-cased text contains no capital A-Z |
| Text.EndsWithIsConcatenation | GitHubStatApi/Services/GitHubService.cs:80 | the ordinal suffix test holds exactly when the name is some prefix followed by the suffix |
| Text.EndsWithIgnoreCaseIsConcatenation | GitHubStatApi/Services/GitHubRepoService.cs:100 | the case-insensitive suffix test holds exactly when the lower-cased name is some prefix followed by the lower-cased suffix |
| Text.OccurrencesIsMultiplicity | GitHubStatApi/Services/FileContentAnalyzerService.cs:16-20 | counting a character's occurrences gives its multiplicity in the text's multiset |
| LetterFrequencies.InitializeSeedsAlphabet | GitHubStatApi/Services/FileContentAnalyzerService.cs:10-12 | the seed has exactly the 26 keys 'a'..'z', each with count 0 |
| LetterFrequencies.Update | GitHubStatApi/Services/FileContentAnalyzerService.cs:16-22 | counting one text adds no key and raises each key by its occurrences in the lower-cased text |
| LetterFrequencies.UpdateIgnoresNonKeys | GitHubStatApi/Services/FileContentAnalyzerService.cs:18-20 | a text none of whose lower-cased characters is a key leaves the map unchanged |
| LetterFrequencies.NonLettersChangeNothing | GitHubStatApi/Services/FileContentAnalyzerService.cs:14-23 | digits, punctuation and whitespace leave every count of a letter-keyed map unchanged |
| LetterFrequencies.UpdateAll | GitHubStatApi/Services/FileContentAnalyzerService.cs:14-23 | counting a list of texts keeps the keys and adds each letter's total occurrences across the lower-cased texts |
| LetterFrequencies.Histogram | GitHubStatApi/Services/FileContentAnalyzerService.cs:10-23 | the counts of a list of texts have the 26 letter keys, and each count is that letter's total occurrences across the lower-cased texts |
| LetterFrequencies.HistogramIgnoresCase | GitHubStatApi/Services/FileContentAnalyzerService.cs:16-20 | the count for a letter is its lower-case plus its upper-case occurrences in the original texts |
| LetterFrequencies.EmptyTextsGiveZeros | GitHubStatApi/Services/FileContentAnalyzerService.cs:14-23 | no texts, or only empty texts, give the seed of 26 zeros |
| LetterFrequencies.TotalOccurrencesPermutation | GitHubStatApi/Services/FileContentAnalyzerService.cs:14-23 | any permutation of the texts has the same total occurrences of every character |
| LetterFrequencies.UpdateAllOrderIndependent | GitHubStatApi/Services/FileContentAnalyzerService.cs:14-23 | counting any permutation of the texts gives the same map |
| LetterFrequencies.HistogramSum | GitHubStatApi/Services/FileContentAnalyzerService.cs:16-20 | the 26 counts add up to the number of letters in the lower-cased texts |
| LetterFrequencies.Finalize | GitHubStatApi/Services/FileContentAnalyzerService.cs:25-26 | the ranking is a permutation of the map's (letter, count) entries, ordered by count descending, with equal counts in alphabetical order |
| LetterFrequencies.FinalizeListsEveryLetter | GitHubStatApi/Services/FileContentAnalyzerService.cs:25-26 | the ranking lists each of the 26 letters exactly once with its count, and the counts never increase along it |
| LetterFrequencies.RankingReportsCounts | GitHubStatApi/Services/FileContentAnalyzerService.cs:25-26 | ranking a map that holds the counts of some texts reports each letter once with its total occurrences |
| LetterFrequencies.ReportedCount | GitHubStatApi/Services/FileContentAnalyzerService.cs:25-26 | a reported ranking contains the pair (letter, its total occurrences) for every letter |
| LetterFrequencies.CountText | GitHubStatApi/Services/FileContentAnalyzerService.cs:16-22 | the inner loop keeps the keys and raises each key by its occurrences in the lower-cased text |
| LetterFrequencies.CalculateLetterFrequencies | GitHubStatApi/Services/FileContentAnalyzerService.cs:8-27 | the result is ranked, and it lists every letter exactly once with its total occurrences across the lower-cased files |
| FileNames.HasAllowedFileExtension | GitHubStatApi/Services/GitHubRepoService.cs:98-101 | true exactly when some listed extension is a case-insensitive suffix of the name; false for an empty list |
| FileNames.EmptyExtensionMatchesEverything | GitHubStatApi/Services/GitHubRepoService.cs:100 | an empty-string extension admits every file name |
| FileNames.OnlyTheExtensionSetMatters | GitHubStatApi/Services/GitHubRepoService.cs:100 | two extension lists with the same members accept the same names |
| FileNames.JsOrTsIsAllowedByDefault | GitHubStatApi/Services/GitHubService.cs:80 | every name the files service accepts is accepted under the default extensions |
| FileNames.FiltersAgreeOnLowerCaseNames | GitHubStatApi/Services/GitHubService.cs:80 | on a name without capitals, the `.js`/`.ts` test and the default-extension filter agree in both directions |
| FileNames.FiltersDifferOnCapitals | GitHubStatApi/Services/GitHubRepoService.cs:100 | "APP.JS" passes the case-insensitive default filter but not the case-sensitive `.js`/`.ts` test |
| Resilience.RecordReset | GitHubStatApi/Utils/PolicyFactory.cs:27-32 | a rate-limit exception records its reset instant, and no other exception changes the context |
| Resilience.SleepDuration | GitHubStatApi/Utils/PolicyFactory.cs:41-46 | the delay is never below one second: exactly one second without a recorded reset, otherwise the time left until the reset when that is longer |
| Resilience.RateLimitDelay | GitHubStatApi/Utils/PolicyFactory.cs:44-46 | a reset no later than one second from now gives exactly one second; a later reset is waited for exactly |
| Resilience.RetryLoop | GitHubStatApi/Utils/PolicyFactory.cs:38-39 | the action runs at most retries+1 times with one sleep of at least a second between runs; the outcome is the last run's; a cancelled token runs nothing and fails with cancellation |
| Resilience.Execute | GitHubStatApi/Utils/PolicyFactory.cs:19-34 | one call through the policy runs the action at most twice and sleeps at least one second before a retry |
| Resilience.ExecuteSingleRetry | GitHubStatApi/Utils/PolicyFactory.cs:36-52 | success on the first run ends at once; an unhandled exception propagates after one run; a handled one is retried once after the computed delay, and the second run's result or exception is final |
| Resilience.FirstDelayComesFromFirstException | GitHubStatApi/Utils/PolicyFactory.cs:33 | the context is fresh per call, so the only delay depends on the first exception alone |
| Resilience.ServicePolicyIsNarrower | GitHubStatApi/Services/GitHubService.cs:31 | the files service retries only rate limits and 503; the factory's policy also retries every other `ApiException`, such as 404 |
| Resilience.UnavailableThenSuccess | GitHubStatApiTests/GitHubServiceTests.cs:36-61 | a 503 followed by success ends like a call that never failed, after a one-second sleep |
| Resilience.UnavailableTwiceFails | GitHubStatApiTests/GitHubServiceTests.cs:64-76 | a 503 on every run propagates that exception after exactly two runs |
| ContentTree.MatchingSelectsFromNodes | GitHubStatApi/Services/GitHubRepoService.cs:81-94 | the files a traversal must deliver are exactly the accepted files among all entries of the tree, in preorder |
| ContentTree.MatchingMembership | GitHubStatApi/Services/GitHubRepoService.cs:81-94 | a file is delivered exactly when it is an entry of the tree, is a file, and passes the filter |
| ContentTree.MatchingAgree | GitHubStatApi/Services/GitHubService.cs:80 | two filters that agree on every file name of the tree deliver the same files |
| Traversal.Walk | GitHubStatApi/Services/GitHubRepoService.cs:79-95 | a successful walk of a listing delivers exactly the accepted files beneath it, and a walk where every call succeeds does succeed; its failure and call behaviour are stated by the lemmas below |
| Traversal.Visit | GitHubStatApi/Services/GitHubRepoService.cs:81-94 | a successful visit of an entry delivers exactly the accepted files beneath it, and a visit where every call succeeds does succeed; its failure and call behaviour are stated by the lemmas below |
| Traversal.WalkRequestsArePermitted | GitHubStatApi/Services/GitHubRepoService.cs:81-94 | the only remote calls are listings of the tree's directories and fetches of accepted files |
| Traversal.VisitRequestsArePermitted | GitHubStatApi/Services/GitHubService.cs:75-84 | the only remote calls are listings of the tree's directories and fetches of accepted files |
| Traversal.WalkSucceedsIffCallsPass | GitHubStatApi/Services/GitHubRepoService.cs:79-95 | a walk succeeds exactly when every listing of a directory and every fetch of an accepted file beneath it passes; one failure fails the whole walk |
| Traversal.VisitSucceedsIffCallsPass | GitHubStatApi/Services/GitHubRepoService.cs:81-94 | an entry is processed successfully exactly when its own listing or fetch and every call beneath it pass |
| Traversal.WalkMakesEveryCall | GitHubStatApi/Services/GitHubRepoService.cs:79-95 | a successful walk has listed every directory and fetched every accepted file beneath the listing |
| Traversal.VisitMakesEveryCall | GitHubStatApi/Services/GitHubService.cs:75-84 | a successful visit has listed the directory through the retry wrapper, every directory beneath it, and fetched every accepted file |
| Traversal.WalkFailureComesFromACall | GitHubStatApi/Services/GitHubRepoService.cs:79-95 | a failed walk reports the exception of a listing or fetch beneath it that still failed after its retry |
| Traversal.VisitFailureComesFromACall | GitHubStatApi/Services/GitHubService.cs:73-85 | a failed visit reports the exception of its own call or of one beneath it |
| Traversal.TraversalOfTree | GitHubStatApi/Services/GitHubRepoService.cs:47-51 | listing "/" and walking it succeeds exactly when every call of the tree passes, then has made all of them, never makes another, and fails with one of their exceptions |
| Traversal.CancelledBeforeStart | GitHubStatApiTests/GitHubServiceTests.cs:79-89 | with the token already cancelled, a traversal makes no call and fails with cancellation |
| RepoService.MaxDegreeOfParallelism | GitHubStatApi/Services/GitHubRepoService.cs:23 | the degree is at least 1 and never above the processor count; from two processors it is half the count, rounded down |
| RepoService.CountContents | GitHubStatApi/Services/GitHubRepoService.cs:88-93 | feeding the fetched files in turn counts exactly the decoded texts of the files with at least one byte |
| RepoService.GetLetterFrequenciesFromFilesWithExtensions | GitHubStatApi/Services/GitHubRepoService.cs:43-55 | on success, the ranking lists each letter once, ordered by count, with its occurrences across the non-empty accepted files; it succeeds exactly when every listing of a directory of the tree and every fetch of an accepted file passes, and then it has made each of those calls; it makes no other call; a failure carries the exception of one of those calls |
| RepoService.NonEmptyTextsPermutation | GitHubStatApi/Services/GitHubRepoService.cs:89-93 | a permutation of the fetched files gives a permutation of the counted texts |
| RepoService.CountingIsOrderIndependent | GitHubStatApi/Services/GitHubRepoService.cs:79-95 | counting the fetched files in any order gives the same map |
| RepoService.SkippingEmptyFilesIsUnobservable | GitHubStatApi/Services/GitHubRepoService.cs:89-93 | when decoding no bytes gives the empty text, skipping empty files changes no letter total |
| FilesService.GetContentOfTSAndJSFiles | GitHubStatApi/Services/GitHubService.cs:48-56 | on success, the texts are, as a multiset, the decoded contents of all `.js` and `.ts` files of the tree, one per file; it succeeds exactly when every listing and every fetch of a `.js`/`.ts` file passes, and then it has made each of those calls; it makes no other call; a failure carries the exception of one of those calls |
| FilesService.ContentsAreTheJsAndTsFiles | GitHubStatApi/Services/GitHubService.cs:73-85 | a text is returned exactly when it is the decoded content of some `.js` or `.ts` file in the tree |
| FilesService.EmptyFilesAreDelivered | GitHubStatApi/Services/GitHubService.cs:82-83 | an empty `.js`/`.ts` file still contributes the decoding of no bytes |
| FilesService.CancelledContentRequestFails | GitHubStatApi/Services/GitHubService.cs:88-103 | with the token already cancelled, the request makes no call and fails with cancellation |
| RepoController.NormalizeExtensions | GitHubStatApi/Controllers/GitHubRepoController.cs:20-23 | the list handed on is never empty: a non-empty list passes unchanged; a missing or empty one becomes [".js", ".ts"] |
| RepoController.GetLetterFrequencies | GitHubStatApi/Controllers/GitHubRepoController.cs:18-27 | on success, the answer is ranked by count and reports the histogram of the files accepted by the normalized list; it succeeds exactly when every call for that list passes, and a failure carries the exception of one of them |
| RepoController.NormalizeIsIdempotent | GitHubStatApi/Controllers/GitHubRepoController.cs:20-23 | normalizing an already normalized list changes nothing |
| RepoController.MissingAndEmptyMeanDefaults | GitHubStatApi/Controllers/GitHubRepoController.cs:20-25 | a missing body, an empty list and an explicit [".js", ".ts"] give the same response |
| RepoController.DefaultRequestCountsTheFilesServiceTexts | GitHubStatApi/Controllers/GitHubRepoController.cs:22 | on a tree without capitals in file names, the default request counts exactly the letters of the texts the files service returns |
| ServiceScenarios.CancelledRequestFails | GitHubStatApiTests/GitHubServiceTests.cs:79-89 | an already-cancelled request fails with cancellation and makes no call |
| ServiceScenarios.PersistentUnavailabilityFails | GitHubStatApiTests/GitHubServiceTests.cs:64-76 | when listing "/" always answers 503, the request fails with that exception after exactly two listings |
| ServiceScenarios.RetriedListingStillCounts | GitHubStatApiTests/GitHubServiceTests.cs:36-61 | after a 503 on the first listing, the request succeeds, and the ranking for a single `test.js` holding "console.log('test');" contains ('o', 3) |

## Left out

- Octokit and the network (`GetAllContents`, `GetRawContent`, `GitHubClientFactory`, options, credentials): the remote tree is the parameter `repo`, and each call's behaviour is the parameter `env`.
- Parallelism (`Parallel.ForEach`, `Parallel.ForEachAsync`) and the atomicity of `ConcurrentDictionary` and `ConcurrentBag`: the walk is sequential. Calls that may still be in flight in sibling branches after a failure are not modelled.
- The circuit breaker (GitHubStatApi/Utils/PolicyFactory.cs:54-66, wrapped at GitHubRepoService.cs:33-34): its state machine lives in Polly, so the model treats it as always closed.
- Polly's timed waits and cancellation that arrives during a call: cancellation is a flag fixed for the whole request.
- Floating-point `TimeSpan.TotalSeconds`: delays are integer milliseconds.
- UTF-8 decoding is the parameter `decode`. The model has no null strings or null byte arrays.
- Culture-sensitive `ToLower` and `EndsWith`, and the non-ASCII folding of `OrdinalIgnoreCase`: only ASCII letters change case.
- The 32-bit `int` counts of the analyzer: counts are unbounded `nat`, so overflow after 2^31 - 1 occurrences is not modelled.
- LetterFrequencies.Finalize: breaks ties between equal counts alphabetically. The source keeps the dictionary's enumeration order, which the stable `OrderByDescending` preserves. That order is not specified, and the model fixes one choice of it.
- `CalculateLetterFrequenciesAsync` (IFileContentAnalyzerService.cs:7), and `StreamRepositoryContent` and the parametrised `GetContentOfTSAndJSFiles` (IGitHubService.cs:7-11): they are declared but have no implementation.
- Program.cs (dependency injection and the mapping from exceptions to status codes), FilesStatController.cs (pure composition), and all logging and console output.
