# checkcors in Dafny

checkcors is a command-line tool. It reads a list of URLs, sends one GET
request per URL and checks that each response advertises permissive CORS
headers: `Access-Control-Allow-Methods: GET` and
`Access-Control-Allow-Origin: *`. The run fails if the URL list could not be
read or if any check failed.

This project models the tool's logic and proves properties about it:

- `text.dfy` (module `Text`): Go's `strings.TrimSpace`, including the exact
  white-space set of `unicode.IsSpace`.
- `urls.dfy` (module `Urls`): the URL source `loadURLs`.
  - `IsSkipped` is its blank/comment line test.
  - `UrlLines` is the list of URLs it is meant to produce.
  - `YieldUrls` is its scanning loop. The consumer may stop it early.
  - `LoadURLs` adds the open error and the trailing scanner error. It
    writes them through its `rerr *error` argument, which is modelled as the
    class `ErrorSlot`.
- `headers.dfy` (module `Headers`): the response header map and
  `Header.Get`.
  - A name is looked up under its canonical key, as net/textproto's
    `CanonicalMIMEHeaderKey` computes it.
  - The lookup returns the first value under that key, or `""`.
  - The Go standard library source is not part of this model. This
    module follows the library's documented behaviour.
- `checker.dfy` (module `Checker`): `checkHeaders` and `Checker.Check`.
  - The expectation map is walked in an order the model leaves open, as Go
    map iteration does.
  - Each mismatch becomes one log entry.
  - The outcome of the HTTP exchange is an input of type `Exchange`.
- `orchestrator.dfy` (module `Orchestrator`): the aggregation in `run`.
  - The concurrent checks become a loop over the URLs.
  - The loop folds the results into a failure flag that only moves from
    false to true.
  - A lemma shows that the verdict does not depend on the order in which
    the checks finish.
- `errors.dfy` (module `Errors`): `Option` (Go's nilable `error`) and
  opaque I/O errors.

After a URL-source error, `run` returns the "load URLs" error before
`wg.Wait()` (checkcors.go:145-147) and `main` then exits, so the checks
already dispatched are not waited for. The model returns `LoadUrlsFailed`
whatever the checks return.

## Model

| member | source | states |
|---|---|---|
| `Text.TrimSpace` | checkcors.go:91 | `strings.TrimSpace`: the line without its leading and trailing white space; what it returns is stated by `TrimSpaceTrims` below |
| `Text.LeadingSpacesSpec` | checkcors.go:91 | the leading run that trimming removes is all white space, and it ends at a non-space character or at the end of the line |
| `Text.TrailingSpacesSpec` | checkcors.go:91 | the trailing run that trimming removes is all white space, and it starts after a non-space character or at the start of the line |
| `Text.TrimSpaceTrims` | checkcors.go:91 | the trimmed line is the slice of the line that starts at its first non-space character; everything after the slice is white space; the slice has no white space at either end; it is empty exactly when the line is all white space |
| `Urls.IsSkipped` | checkcors.go:91-93 | the skip test on one line, trimmed then empty or starting with `#`; `SkippedIffBlankOrComment` states it in terms of the untrimmed line |
| `Urls.SkippedIffBlankOrComment` | checkcors.go:91-93 | a line is skipped exactly when it is all white space or its first non-space character is `#` |
| `Urls.UrlLinesSound` | checkcors.go:91-96 | no produced URL is blank or a comment once trimmed |
| `Urls.UrlLinesAppend` | checkcors.go:89-98 | the line filter distributes over concatenating line lists, so it handles each line on its own |
| `Urls.UrlLinesStep` | checkcors.go:89-98 | reading one more line adds that line, untrimmed, unless the line is skipped |
| `Urls.UrlLinesPrefix` | checkcors.go:89-98 | the URLs of the first lines of a list are a prefix of the list's URLs |
| `Urls.UrlLinesSubsequence` | checkcors.go:89-98 | the URLs are a subsequence of the lines: the original lines, in input order |
| `Urls.UrlLinesCount` | checkcors.go:92-98 | no deduplication and nothing lost: each URL occurs as often as it does in the list; a skipped line never occurs |
| `Urls.UrlLinesComplete` | checkcors.go:92-98 | every line that is not blank and not a comment is produced |
| `Urls.UrlLinesKeepsUrls` | checkcors.go:89-98 | a list without skipped lines is returned unchanged |
| `Urls.UrlListExample` | checkcors.go:89-98 | a URL, a blank line, an indented comment and a second URL give exactly the two URLs, in order |
| `Urls.ErrorSlot.constructor` | checkcors.go:130 | the error variable starts out nil |
| `Urls.YieldUrls` | checkcors.go:88-99 | the lines passed to yield are a prefix of the URL list; every call before the last returned true; the walk stops exactly when yield returns false; if yield never returns false, every URL is passed |
| `Urls.LoadURLs` | checkcors.go:79-101 | a file that cannot be opened yields nothing and stores the open error; after an early stop the error variable is untouched; otherwise all URLs are yielded and then the scanner's error, nil included, is stored |
| `Headers.Get` | checkcors.go:60 | `Header.Get`: the first value stored under the name's canonical key, or `""`; `GetIgnoresCase` and `Checker.AbsentHeaderIsMismatch` state its properties |
| `Headers.CapitalizeAt` | checkcors.go:60 | the canonicalising loop upper-cases a character at the start of the name and after each `-`, and lower-cases every other character |
| `Headers.CanonicalKeySpec` | checkcors.go:60 | canonicalising changes only letter case; a name of token characters gets the canonical spelling; any other name is left as it is |
| `Headers.CanonicalUnique` | checkcors.go:60 | two canonical names that differ only in letter case are equal |
| `Headers.CanonicalKeyIdempotent` | checkcors.go:60 | canonicalising a canonical key changes nothing |
| `Headers.GetIgnoresCase` | checkcors.go:60 | header lookup ignores the case of the name: two token names that differ only in case find the same value |
| `Checker.CheckHeaders` | checkcors.go:57-68 | the result is true iff every expected header's looked-up value equals the expected value exactly; the log reports exactly the mismatched headers, each once, with expected and actual value; the log is empty iff the result is true |
| `Checker.MatchIffNoneMismatched` | checkcors.go:58-67 | the headers match exactly when no expected entry mismatches |
| `Checker.NoRepeatsCount` | checkcors.go:59-65 | a log without repeated headers has exactly as many entries as headers it reports |
| `Checker.AbsentHeaderIsMismatch` | checkcors.go:60-61 | a header the response lacks is looked up as `""`, so it is a mismatch whenever its expected value is not empty |
| `Checker.ExpectedValuesNonEmpty` | checkcors.go:50-53 | neither fixed expected value of `ExpectedHeaders` (`"GET"`, `"*"`) is empty |
| `Checker.AbsentCorsHeaderFails` | checkcors.go:50-61 | a received response that has no header whose name equals either CORS header name up to letter case fails its check |
| `Checker.Check` | checkcors.go:27-55 | each failure (request creation, transport, body read) returns false with its own wrapped error; ok with no error holds exactly when a response arrived and its headers match; the log reports the mismatched headers of a received response, and is empty on the error paths |
| `Orchestrator.FoldFailed` | checkcors.go:140-142 | the failure flag after a sequence of checks, each failing check storing true; `FoldFailedMonotone`, `FoldFailedSnoc`, `FoldFailedExists` and `FoldFailedOrderFree` state its properties |
| `Orchestrator.FoldFailedMonotone` | checkcors.go:140-142 | once the failure flag is set, no later check clears it |
| `Orchestrator.FoldFailedSnoc` | checkcors.go:140-142 | after one more check, the flag is set iff it was set before or that check failed |
| `Orchestrator.FoldFailedExists` | checkcors.go:140-150 | the flag ends up set exactly when it started set or some check failed |
| `Orchestrator.FoldFailedOrderFree` | checkcors.go:128-149 | any reordering of the same check outcomes gives the same flag, so the order in which the concurrent checks finish does not matter |
| `Orchestrator.Run` | checkcors.go:128-153 | a URL-source error (open or scan) is returned as the "load URLs" error, ahead of failed checks; otherwise the run succeeds iff every URL's check got a response with matching headers, and returns "unsuccessful" if not |

## Left out

- HTTP request construction, `Client.Do`, draining the body and the 30-second client timeout are library and network calls. Each URL's exchange is an input (`Exchange`), given by the `network` parameter of `Run` for each dispatch.
- The request header set (`-reqheaders`, `loadJSON`) and the `Client` and `ReqHeader` fields of `Checker` only shape the request that is sent, and that request is not modelled. The context argument of `Check` is not modelled either. The client timeout and cancellation of the context show up as a transport failure or a body read failure.
- Goroutines, `sync.WaitGroup`, `atomic.Bool` and the signal-bound context are concurrency. The model runs the checks one after another, after the URL source has finished. `FoldFailedOrderFree` shows that the verdict does not depend on the order.
- `bufio.Scanner` line splitting and its buffer limit, and `os.Open`, are file I/O. The file is an input: either an open error, or its lines with an optional trailing scanner error (`UrlFile`).
- Strings are sequences of Unicode code points. UTF-8 decoding, and how `TrimSpace` treats invalid UTF-8, are not modelled.
- Response header names are assumed to be stored under canonical keys, as Go's HTTP client stores them when it parses a response.
- Flag parsing, the usage text, exit codes 1 and 2, and `main` are command-line plumbing.
- `slog` formatting is not modelled. A mismatch log line is a `Mismatch` value carrying the URL, header, expected value and actual value.
- `Run` does not return the "check URL" error log lines or the mismatch entries of the checks, because their order across concurrent checks is unspecified. It returns only the verdict.
- Headers.GetIgnoresCase: requires the queried name to be made of token characters. For other names, Go returns the name unchanged as its key, so lookup is then case-sensitive. Both fixed header names are token names.
