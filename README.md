# github-profilegen-go, modelled in Dafny

`github-profilegen-go` builds a GitHub profile README. It reads three list files
(names to exclude, names to put first, contact lines), fetches every public
repository of a user page by page from the GitHub API, drops the excluded
repositories, orders the rest and renders them through a text template.

This project models the part of `main.go` between the inputs and the renderer:

- `Text` — what the program uses from Go's `strings` package: `TrimSpace` (with
  `unicode.IsSpace`'s exact set of white-space characters) and `EqualFold`
  (ASCII case folding).
- `Lines` — `loadTextFile`: trim each line, drop blank lines and `#` comments,
  keep the order. The file reader is a parameter giving the scanned lines or an error.
- `GitHub` — the `Repository` record and `fetchRepositories`: request pages 1, 2, …
  of 100 records, append each, stop after the first short page, fail the whole fetch
  on a request error, a non-200 status or an undecodable body. One page's HTTP
  exchange is a parameter: a function from page number to what came back.
- `Selection` — `shouldExcludeRepo`, `getPriorityIndex` and the exclusion loop of `main`.
- `Ordering` — the comparator closure given to `sort.Slice` and an in-place insertion
  sort of the repository array by that comparator.
- `Profile` — `main` from the username check to the list handed to `generateReadme`,
  with each fatal exit as a `Failure`.
- `Positions`, `Wrappers` — index embeddings for "is a subsequence" and `Result`/`Option`.

## Model

| member | source | states |
|---|---|---|
| `Text.IsSpace` | main.go:65 | The white space `strings.TrimSpace` removes (Go's `unicode.IsSpace` set); no visible ASCII character, such as `#` or a letter, is white space. |
| `Text.TrimSpace` | main.go:65 | `strings.TrimSpace`: the result is no longer than the input and, when non-empty, neither starts nor ends with white space. |
| `Text.TrimLeadingSpaceSpec` | main.go:65 | The left trim is the suffix starting at the first non-space character; everything cut off is white space. |
| `Text.TrimTrailingSpaceSpec` | main.go:65 | The right trim is the prefix ending at the last non-space character; everything cut off is white space. |
| `Text.TrimSpaceIsTrim` | main.go:65 | `TrimSpace(s)` is a contiguous slice of `s` with only white space before and after it, and it neither starts nor ends with white space. |
| `Text.TrimAllSpace` | main.go:65 | A line of white space only trims to the empty string, which the loader then drops. |
| `Text.TrimSpaceAt` | main.go:65 | Cutting a slice that starts and ends with non-space out of surrounding white space is exactly trimming. |
| `Text.TrimSpaceUnique` | main.go:65 | Any string with those properties equals `TrimSpace(s)`: the properties define trimming. |
| `Text.TrimSpaceIdempotent` | main.go:65 | Trimming an already trimmed line changes nothing. |
| `Text.EqualFold` | main.go:127 | `strings.EqualFold` with ASCII folding: two names match exactly when they are equal once both are folded to lower case. |
| `Text.EqualFoldIsEquivalence` | main.go:127 | Case-insensitive equality is reflexive, symmetric and transitive. |
| `Lines.LoadTextFile` | main.go:51-76 | An empty file name gives an empty list and no error; an unreadable file gives its error; otherwise the result is the trimmed, meaningful lines of the file. |
| `Lines.KeptLinesClean` | main.go:64-69 | Every returned line is trimmed, non-empty and does not start with `#`. |
| `Lines.KeptLinesAppend` | main.go:64-69 | The filter splits over concatenation of the input lines, so each raw line is judged on its own. |
| `Lines.KeptPositionsShape` | main.go:64-69 | The kept raw lines sit at strictly increasing positions, one per returned line. |
| `Lines.KeptPositionsText` | main.go:64-69 | The k-th returned line is the trimmed text of the k-th kept raw line, so the original order is kept. |
| `Lines.KeptPositionsMembers` | main.go:64-69 | A raw line is kept exactly when its trimmed text is non-empty and not a comment. |
| `GitHub.FirstStop` | main.go:111-118 | The page on which the loop stops is the first page that is not a full 200 reply; every page before it is. |
| `GitHub.FetchRepositories` | main.go:79-122 | Pages 1, 2, … up to the first stopping page are requested in order and no further page; the result is the fetch outcome for that page sequence. |
| `GitHub.FetchAllSuccess` | main.go:101-121 | The fetch succeeds exactly when the stopping page is a decodable 200 reply; then it returned fewer than 100 records and the result is all pages' records in page order. |
| `GitHub.FetchAllBadStatus` | main.go:101-104 | A non-200 status on any page the loop reaches makes the whole fetch fail with that status and body; earlier pages are discarded. |
| `GitHub.FetchAllBoundIrrelevant` | main.go:84-119 | The stopping page and the result do not depend on which stopping page bounds the loop. |
| `GitHub.AccumulatedMembers` | main.go:111 | A record is accumulated exactly when one of the pages before holds it. |
| `GitHub.AccumulatedLength` | main.go:111-118 | Each full page contributes at least 100 records. |
| `Selection.ShouldExcludeRepo` | main.go:125-132 | True exactly when some entry equals the name ignoring case; so false for an empty list. |
| `Selection.GetPriorityIndex` | main.go:135-142 | The result is at least -1 and below the list length; a non-negative result is the first entry equal to the name ignoring case; -1 means no entry is. |
| `Selection.ListedIffIndexed` | main.go:125-142 | A name is in a list for `shouldExcludeRepo` exactly when `getPriorityIndex` finds it. |
| `Selection.PriorityIgnoresCase` | main.go:135-142 | Names differing only in case get the same priority index. |
| `Selection.FilterRepos` | main.go:270-275 | The exclusion loop returns the surviving repositories, in order. |
| `Selection.SurvivorsMembers` | main.go:270-275 | A repository survives exactly when it was fetched and no exclusion entry names it. |
| `Selection.SurvivorPositionsShape` | main.go:270-275 | The surviving repositories sit at strictly increasing positions of the input, one per survivor. |
| `Selection.SurvivorPositionsPick` | main.go:270-275 | The k-th survivor is the repository at the k-th surviving position, so the filtered list is a subsequence of the input in its original order. |
| `Selection.SurvivorPositionsMembers` | main.go:270-275 | A position survives exactly when the repository there is not excluded. |
| `Selection.SurvivorsAppend` | main.go:270-275 | Filtering splits over concatenation. |
| `Selection.SurvivorsNoExclusions` | main.go:270-275 | An empty exclusion list keeps every repository. |
| `Selection.SurvivorsIdempotent` | main.go:270-275 | Filtering the filtered list again removes nothing. |
| `Selection.ExclusionIgnoresCaseScenario` | main.go:270-275 | With exclusion entry `X`, the list `[x, y]` filters to `[y]`. |
| `Ordering.Less` | main.go:279-298 | The comparator closure: it holds exactly when the first repository's rank comes before the second's, ranks ordered lexicographically (listed first by list position, unlisted after by newest update). |
| `Ordering.LessIrreflexive` | main.go:279-298 | No repository goes before itself. |
| `Ordering.LessAsymmetric` | main.go:279-298 | Two repositories never each go before the other. |
| `Ordering.LessTransitive` | main.go:279-298 | The comparator is transitive. |
| `Ordering.NotLessTransitive` | main.go:279-298 | Not-going-before is transitive, so ties form an equivalence: a strict weak ordering, as `sort.Slice` needs. |
| `Ordering.SortedOrder` | main.go:279-298 | In a sorted list every listed repository precedes every unlisted one, listed ones have non-decreasing list position, and unlisted ones non-increasing update time. |
| `Ordering.SortRepos` | main.go:279-298 | After sorting, the array is a permutation of its old contents and no element goes before an earlier one under the comparator. |
| `Ordering.InsertLast` | main.go:279-298 | Inserting the next element into a sorted prefix by the comparator keeps a permutation, extends the sorted prefix by one and leaves the elements after it unchanged. |
| `Ordering.InsertDone` | main.go:279-298 | Once the element being inserted does not go before its left neighbour, the whole prefix is sorted; this needs the comparator to be a strict weak ordering. |
| `Ordering.ListedBeforeNewerScenario` | main.go:279-298 | With priority list `[a]`, any sorted arrangement of `[b, a]` is `[a, b]` even when `b` was updated later. |
| `Profile.GenerateProfile` | main.go:232-309 | The run fails with the first failing input in reading order (username, exclusion file, priority file, fetch, contact file) and succeeds exactly when all can be read; then the list is a permutation of the non-excluded fetched repositories, sorted by the comparator, with the contact lines. |

## Ordering

Unlisted repositories are ordered by `UpdatedAt` (main.go:297). `sort.Slice` is not
stable, so the model promises no order among repositories the comparator ranks equal,
and does not promise that sorting twice gives the same list.

## Left out

- HTTP request construction, the User-Agent header, `http.DefaultClient`, closing and reading response bodies and JSON decoding (main.go:85-109): one page's exchange is the `GitHub.Exchange` a page source returns.
- GitHub.FetchRepositories: a listing that never returns a short page makes the Go loop run forever; the model requires a known stopping page (the ghost `bound`) so that the loop terminates, and does not model that case.
- Opening and scanning files (main.go:56-63, 71-73): line splitting, carriage-return stripping and the scanner's token-size limit are inside the `Lines.FileReader` parameter, which yields the lines or the error.
- Text.EqualFold: folds ASCII letters only; Go's `strings.EqualFold` also applies Unicode simple folding to non-ASCII letters, which the model does not.
- Go strings are byte sequences; the model uses sequences of Unicode scalar values and does not model invalid UTF-8.
- `generateReadme`, its template and the output file (main.go:145-221, 311-316): rendering through a library the model cannot see; the `-output` flag goes with it.
- Flag parsing, console output and `os.Exit` (main.go:224-244, 261, 267, 276, 308, 318): exits are the `Profile.Fatal` failures.
- `time.Time`: timestamps are integers, later being larger.
- Ordering.SortRepos: the model sorts by insertion sort where `sort.Slice` uses pattern-defeating quicksort; both are specified only by permutation and sortedness under the same comparator, so the order among equally ranked repositories is not modelled.
