# Branch statistics: a Dafny model of the sequential core of main.go

The tool lists an account's repositories on the hosting service. It starts
one goroutine per repository to fetch that repository's branch list, and
collects the results from a shared channel. Results that carry an error are
dropped. It then builds a histogram from branch name to the number of times
the name occurs, and prints each name's percentage of the successful
repositories.

This model keeps the sequential logic around the concurrency:

- `Types.dfy`: the records (`GithubRepo`, `GithubBranch`, `GithubError`,
  `Repository`), Go's `error` as an `Option<Error>`, and abstract stand-ins
  for the outcome of `http.Get` and of JSON decoding.
- `Github.dfy`: `strings.Index` for one character (`IndexOf`), the
  URI-template truncation `PrepareBranchURL`, and the status check of
  `handleGithubError`. `FetchList` is the control flow that
  `fetchBranchesFromGithub` and `getRepositories` share once the request is
  made. `GetBranches` is a method with the loop that builds one
  repository's result.
- `Collect.dfy`: the collector `ReadRepositoriesFromChannel`. It is a loop
  over the messages in arrival order, proved against the filter `Successful`.
- `Histogram.dfy`: `GetBranchCount`, the nested loops that increment a map.
  It is proved against `BranchCounts`, the histogram of the flattened branch
  lists. Lemmas cover the meaning of the keys and counts, the sum of the
  counts, emptiness, order independence and the bound on percentages.
- `Pipeline.dfy`: how collection and counting fit together. The result does
  not depend on arrival order, and a failed fetch contributes nothing. Two
  end-to-end scenarios are included.

Behaviour of the code worth noting:

- `getBranches` copies the fetched branch names even when the fetch returned
  an error (main.go:95-101). A failed repository's `branches` is therefore
  empty unless the decoder failed part-way through the list and left a
  partial one.
- `getBranchCount` counts every occurrence (main.go:82-83). A name listed
  twice by one repository counts twice, and its printed percentage can then
  exceed 100 (`DuplicateBranchCountedTwice`). The bound of 100 holds only
  when no list has duplicates (`BranchCountsAtMostRepositories`).
- `prepareBranchURL` panics on a URL without `{`, because the slice bound
  is -1. `PrepareBranchURL` therefore requires a `{`.
- The collector's receive blocks until a message arrives. The model reads
  from a sequence of messages, and `ReadRepositoriesFromChannel` requires
  at least `length` of them. A negative `length` receives nothing, as Go's
  `for` loop does.

## Model

| member | source | states |
|---|---|---|
| Github.IndexOf | main.go:129 | the result is -1 exactly when the character is absent; otherwise it is the position of its first occurrence |
| Github.IndexOfAfterPrefix | main.go:129 | in `p + "{" + rest`, where `p` has no `{`, the first `{` is at `|p|` |
| Github.PrepareBranchURL | main.go:128-130 | for a URL containing `{`, the result is a prefix of the URL, contains no `{`, and is followed in the URL by `{` |
| Github.PrepareBranchURLOfTemplate | main.go:128-130 | truncating `p{rest}` gives back `p` whenever `p` has no `{` |
| Github.PrepareBranchURLIdempotent | main.go:128-130 | adding a `{` back after a truncated URL and truncating again returns the same URL |
| Github.PrepareBranchURLExample | main.go:128-130 | `.../branches{/branch}` becomes `.../branches` |
| Github.HandleGithubError | main.go:155-167 | no error exactly for status 200; otherwise the payload's message as the error text, or the decoder's error if the payload does not decode |
| Github.FetchList | main.go:106-126 | no error exactly when the request went through, the status was 200 and the list decoded; a transport or status failure gives an empty list with that error; after a 200 the list and error are the decoder's |
| Github.GetBranches | main.go:89-104 | the result has the repository's name and the fetch error exactly when there was one; its branches are the fetched branches' names in order, also when an error occurred |
| Collect.Successful | main.go:69-71 | the kept messages carry no error, come from the input, and are no more than the input |
| Collect.ReadRepositoriesFromChannel | main.go:65-77 | the result is the filter of exactly the first `length` messages, at most `length` long, with no element carrying an error |
| Collect.SuccessfulAppend | main.go:67-71 | filtering distributes over concatenation, so arrival order is kept |
| Collect.FailedMessageIgnored | main.go:69-73 | a message with an error leaves the collected result as if it had not been received |
| Collect.SuccessfulMultiset | main.go:67-74 | up to order, the result holds each error-free message as often as it arrived and no failed message |
| Histogram.Count | main.go:83 | the count is positive exactly when the name occurs, and is at most the list's length |
| Histogram.Flatten | main.go:81-82 | the flattened list's length is the total length of all branch lists |
| Histogram.GetBranchCount | main.go:79-87 | the map is the histogram of all branch lists: its keys are exactly the names that occur, each maps to its number of occurrences, and the counts add up to the total number of listed branches |
| Histogram.CountAppend | main.go:82-83 | counts over concatenated lists add up |
| Histogram.FlattenCount | main.go:81-83 | counting in the flattened lists equals summing the per-repository counts |
| Histogram.TallySnoc | main.go:83 | one more occurrence of a name increments its entry, starting from 0, and leaves the other entries unchanged |
| Histogram.BranchCountsMeaning | main.go:80-85 | a name is a key exactly when it occurs in some branch list; its value is its number of occurrences, at least 1 |
| Histogram.OccurrencesPositive | main.go:81-84 | a name has a positive number of occurrences exactly when some repository lists it |
| Histogram.TallySum | main.go:80-86 | the counts of a list's histogram add up to the list's length |
| Histogram.BranchCountsSum | main.go:80-86 | the counts add up to the total length of all branch lists |
| Histogram.BranchCountsEmpty | main.go:80-86 | the histogram is empty exactly when no repository lists a branch, so an empty input gives an empty map |
| Histogram.NonEmptyHistogramHasRepositories | main.go:59-60 | a non-empty histogram implies a non-empty repository list, so the percentage division never divides by zero |
| Histogram.OccurrencesPermutation | main.go:81-84 | reordering the repositories leaves every name's number of occurrences unchanged |
| Histogram.BranchCountsPermutation | main.go:79-87 | reordering the repositories leaves the histogram unchanged |
| Histogram.BranchCountsAtMostRepositories | main.go:60 | when no branch list has a duplicate name, every count is at most the number of repositories, so each percentage is at most 100 |
| Histogram.DuplicateBranchCountedTwice | main.go:82-83 | one repository listing `main` twice gives `main` the count 2 |
| Pipeline.HistogramIndependentOfArrivalOrder | main.go:45-51 | for any two arrival orders of the same messages, the kept repositories agree up to order, as do their number and the histogram |
| Pipeline.FailedFetchNotCounted | main.go:50-51 | a failed repository contributes neither to any count nor to the number of successful repositories |
| Pipeline.OneFailureScenario | main.go:65-87 | with `a` listing `main`, `dev` and `b` failing, in either arrival order only `a` is kept and both names count 1 |
| Pipeline.TwoSuccessesScenario | main.go:65-87 | two successful repositories listing `main` and `main`, `feature` give `main` 2 and `feature` 1 |

## Left out

- Goroutines and channels (main.go:45-50, 103). The fan-out is not modelled. The channel is a sequence of messages in arrival order, and `GetBranches` returns its result instead of sending it.
- Network calls: `http.Get` and the closing of response bodies. Their outcome is an input (`HttpOutcome`). For `GetBranches`, the input is a function from URL to outcome.
- JSON decoding. What the decoder leaves in its target, and the error it returns, are inputs (`Decoding`).
- Of `main`, only the collect-then-count flow is modelled (in `Pipeline.dfy`). Left out are the call `getRepositories("RicardoLinck")` with `log.Fatal` on its error, the goroutine launch and the printing. The URL formatting with `fmt.Sprintf` in `getRepositories` is left out too; only its response handling is modelled, in `FetchList`.
- The percentage computation (main.go:60), because it is floating point. Only its denominator and its divide-by-zero guard are modelled.
- All printing and logging (`fmt.Printf`, `log.Printf`), and the order of Go's map iteration when printing.
- Strings are sequences of characters, while Go indexes bytes. `IndexOf` returns a character offset where `strings.Index` returns a byte offset, so the two differ when a multi-byte character precedes the `{` (for `"é{"`, 1 against 2). Because `{` is a single byte in UTF-8, the prefix that `prepareBranchURL` returns is the same text in both views.
- Go's `int` is 64 bits wide; `length` (main.go:65) and the counts (main.go:83) are unbounded integers in the model, so an overflow of a count is not modelled. It would need more than 2^63 listed branches.
- `Error` records where an error came from. Go sees only a non-nil value with a text, and the model relies only on nil versus non-nil and on the text.
