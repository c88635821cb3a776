# springaisoc-scrape, modelled in Dafny

A model of the decision logic of a small Go scraper (`main.go`) that walks the
pages of a Springer Link search listing, picks out the PDF links and titles of
each page, and saves every PDF under a file name derived from its title. The
HTTP client, the HTML parser and the file system are abstracted away; what is
left is pure and deterministic, and is stated and proved here:

- `gotext.dfy` (module `GoText`): the Go library behaviour the scraper leans
  on: `strings.Contains`, `strings.TrimSpace` with `unicode.IsSpace`, and the
  `%d` verb for an `int`.
- `pageurl.dfy` (module `PageUrl`): `generateURL`, the listing URL of a page.
- `filename.dfy` (module `FileName`): `sanitizeFileName`, which deletes the
  nine characters `\ / : * ? " < > |` and trims white space at both ends.
- `listing.dfy` (module `Listing`): the item filter of
  `findPDFLinksAndTitles`. A page is a sequence of `li` items, each with an
  optional `a.title` text and an optional `a.pdf-link` href; an item is kept
  when the href exists and contains ".pdf" anywhere (a substring test, not a
  suffix test), and yields the link `https://link.springer.com` + href and the
  sanitised title, in two parallel lists.
- `redirect.dfy` (module `Redirect`): the client's `CheckRedirect` hook and
  the chain of requests it caps.
- `harvest.dfy` (module `Harvest`): the page and item loops of `main`, as a
  function from the page range, the listing pages the network returns and the
  outcome of every download attempt to the sequence of events `main` reports.
- `pageloop.dfy` (module `PageLoop`): the page counter with Go's 64-bit
  wrap-around, where the loop as written misbehaves (see Findings).

A few consequences of the code that are easy to miss:

- The code has no fallback file name. An item whose title is missing, empty,
  or made only of illegal characters and white space is saved as `.pdf` in
  the output directory (`Harvest.UntitledItemIsNamedDotPdf`).
- At most 10 requests are sent per `Get`. The redirect hook receives the
  requests already made in the chain and stops following once that list
  holds 10, so 9 redirect hops are followed; a chain whose 10th reply is
  still a redirect returns that reply, without an error, and a chain of
  exactly 10 hops does not reach its final reply.
- `generateURL` is total over `int`: zero and negative page numbers get a
  `/search/page/<n>` URL like any page other than 1, and the page loop runs
  over whatever range it is given.

## Model

| member | source | states |
|---|---|---|
| GoText.Contains | main.go:62 | the substring test is true exactly when the pattern occurs at some position of the string |
| GoText.TrimSpace | main.go:42 | the result has no white space at either end and is a slice of the input with only white space around it |
| GoText.TrimSpaceUnique | main.go:42 | for any white-space prefix and suffix around a trimmed middle, trimming returns exactly that middle, so the two properties above determine the result |
| GoText.TrimSpaceEmpty | main.go:42 | trimming leaves nothing exactly when the string is all white space |
| GoText.DigitsRoundTrip | main.go:36 | reading back the decimal digits printed for a number gives the number |
| GoText.DecimalInjective | main.go:36 | the `%d` rendering of two different integers differs |
| PageUrl.FirstPageUrlParts | main.go:33-34 | page 1's URL is the bare search path, with no page segment, followed by the fixed query |
| PageUrl.PagedUrlParts | main.go:36 | any other page's URL has the search path, `/page/` and the page number as its path, and the same query as page 1 |
| PageUrl.GenerateURLInjective | main.go:32-37 | different page numbers get different URLs |
| FileName.StripIllegal | main.go:40-41 | the result holds none of the nine illegal characters and is no longer than the input |
| FileName.StripIllegalChar | main.go:40-41 | a single character is deleted exactly when it is one of the nine illegal ones; with the next row this determines the deletion |
| FileName.StripIllegalAppend | main.go:40-41 | deletion works piecewise over a concatenation, so the kept characters stay in their order |
| FileName.StripIllegalCounts | main.go:40-41 | every legal character keeps all its occurrences and no illegal character survives |
| FileName.StripIllegalFixes | main.go:40-41 | a string without illegal characters is unchanged |
| FileName.SanitizeFileName | main.go:39-43 | the sanitised name holds no illegal character and has no white space at either end |
| FileName.SanitizeRemovesOnlyIllegalAndEdgeSpace | main.go:39-43 | the sanitised name is the stripped name minus a white-space prefix and suffix: only illegal characters and edge white space are removed |
| FileName.SanitizeIdempotent | main.go:39-43 | sanitising twice gives the same result as sanitising once |
| FileName.SanitizeFixesClean | main.go:39-43 | a name with no illegal character and no edge white space is kept as it is |
| FileName.SanitizeExample | main.go:39-43 | the name "My: Paper?" sanitises to "My Paper" |
| Listing.FilterItems | main.go:57-67 | the two lists returned always have the same length, at most the number of items, and every title is free of illegal characters and edge white space |
| Listing.FindPDFLinksAndTitles | main.go:45-69 | a failed fetch or parse is returned as that error and nothing else; a parsed page succeeds with the filter's two lists |
| Listing.ParsedPageYieldsKeptItems | main.go:57-69 | for a parsed page, element j of both returned lists is the origin-prefixed href and the sanitised title of the j-th qualifying item, with no other entries |
| Listing.KeptIndices | main.go:59-62 | the listed positions are increasing and each holds a qualifying item |
| Listing.KeptIndicesComplete | main.go:59-62 | every position holding a qualifying item is listed |
| Listing.FilterMatchesKept | main.go:59-66 | element j of both lists comes from the j-th qualifying item, with the origin prefixed to its href and its title sanitised |
| Listing.FilterAppend | main.go:59-66 | the lists for a concatenation of items are the lists of the parts concatenated: document order is kept |
| Listing.FilterOne | main.go:60-65 | a qualifying item yields one link and title, any other item yields nothing and no error |
| Listing.FilterCount | main.go:59-66 | the number of results equals the number of qualifying items |
| Redirect.FollowFrom | main.go:22-27 | following a chain sends at most 10 requests, each to the previous redirect's location, and returns the last reply, which is a redirect only when the cap was reached |
| Redirect.Get | main.go:22-27 | a request returns the reply to its last request, never an error; every earlier reply was a redirect that was followed |
| Redirect.ShortChainCompletes | main.go:22-27 | a chain of up to 9 redirect hops ends with its final reply |
| Redirect.LongChainStopsAtCap | main.go:22-27 | when the first 10 replies are redirects, exactly 10 requests are sent and the 10th reply is returned |
| Harvest.DownloadLinks | main.go:111-122 | one download attempt per link, in order, each to the destination built from the title at the same position, whatever earlier attempts returned |
| Harvest.ProcessPage | main.go:102-122 | a page's events start with its processing report for its URL and all belong to that page |
| Harvest.Run | main.go:102-123 | an empty range reports nothing; the events stay within the range and their pages never decrease |
| Harvest.RunProcessesRange | main.go:102-109 | the pages reported as processed are exactly the range, in increasing order, whatever each page's fetch returns |
| Harvest.RunSplit | main.go:102 | splitting the range at any page splits the events there |
| Harvest.PageInRun | main.go:102-123 | the events of a page inside the range are exactly that page's own events |
| Harvest.FailedPageDownloadsNothing | main.go:105-109 | a page whose listing cannot be fetched or parsed reports the failure and attempts no download |
| Harvest.ReadablePageDownloadsItsLinks | main.go:111-122 | a readable page attempts exactly the filter's links, in order, each to the output directory joined with the title plus ".pdf" |
| Harvest.RequestsIgnoreOutcomes | main.go:116-120 | which downloads are attempted does not depend on how any download ends |
| Harvest.RunDependsOnlyOnRange | main.go:102-105 | the run only depends on the listings of the pages in its range |
| Harvest.PageFailureIsolated | main.go:105-109 | changing one page's listing, failure included, leaves the events of every other page unchanged |
| Harvest.DestinationsStayInOutputDir | main.go:114-115 | every destination is the output directory, a slash and a file name with no path separator |
| Harvest.CleanTitleGivesPlainName | main.go:114-115 | a title without illegal characters gives a file name without path separators, joined to the output directory with one slash |
| Harvest.UntitledItemIsNamedDotPdf | main.go:112-115 | an item is saved as `.pdf` in the output directory exactly when its title, with the illegal characters deleted, is all white space (missing and empty titles included) |
| Harvest.MainFlow | main.go:97-123 | the run stops before any page exactly when the output directory cannot be created; otherwise its events are those of the page and download loops over the range, so every page of the range is processed in order |
| Harvest.FailedThenReadablePage | main.go:102-122 | a failing first page and a second page with one qualifying item give one page failure and one download attempt |
| PageLoop.Inc64 | main.go:102 | `i++` on a 64-bit int gives a 64-bit value congruent to `i + 1` modulo 2^64 (two's-complement arithmetic) |
| PageLoop.Inc64Unique | main.go:102 | that congruence determines the result: no other 64-bit value agrees with `i + 1` modulo 2^64 |
| PageLoop.AsWrittenNeverExits | main.go:102 | with the largest int as end page, the loop as written runs every iteration it is given |
| PageLoop.AsWrittenLeavesRange | main.go:102 | from the largest int the loop as written visits it, then the smallest int |
| PageLoop.AsWrittenBelowMax | main.go:102 | for any end page below the largest int, the loop as written visits exactly the range |
| PageLoop.PagesCorrected | main.go:102 | the corrected loop only visits 64-bit values |
| PageLoop.CorrectedIsRange | main.go:102 | the corrected loop visits exactly the range, in order, for all 64-bit bounds |
| PageLoop.CorrectedVisitsRange | main.go:102-123 | the pages the harvest run reports are exactly those the corrected loop visits |

## Left out

- The HTTP client beyond the redirect hook: the cookie jar and its
  public-suffix scoping, transport errors and timeouts. A listing fetch is a
  parameter `fetch` from URL to page-or-error; since page URLs are distinct,
  a run fetches each URL once.
- The loop inside Go's HTTP client that calls the redirect hook belongs to
  the `net/http` library, which is not part of this model. `Redirect.Get`
  models it from that library's documented behaviour: the hook sees the
  requests already made, and `ErrUseLastResponse` hands back the most recent
  reply.
- goquery: HTML parsing, selector matching (nested `li` elements, `Text()`
  joining several `a.title` texts, the first match's `href`). A parsed page
  is an abstract sequence of items; a parse failure is the `ParseError` case.
- Downloads: `os.Create`, `io.Copy` and closing the files. A download
  attempt's outcome is a parameter `download` of the page and the attempt, so
  any pattern of successes and failures can be expressed; the bytes written
  are not modelled.
- HTTP status codes: the code checks none, so an error page is parsed as a
  listing or saved as a PDF. The model inherits this by treating any response
  as the page or the download outcome that `fetch` or `download` says.
- `os.MkdirAll` itself (only whether it succeeded is a parameter), flag parsing and defaults, and the text of the progress
  messages. The events record which report `main` makes and when, not its
  wording.
- `filepath.Join` path clean-up (for instance `./x.pdf` becoming `x.pdf`): a
  destination is the directory, a slash and the file name.
- Invalid UTF-8: strings are sequences of runes, so how the regular
  expression and `TrimSpace` treat malformed bytes is not modelled.
- Platforms where Go's `int` has 32 bits: `PageLoop` models the 64-bit `int`.
- Harvest.Run: page numbers are unbounded integers, so `Run` and `MainFlow`
  follow the corrected loop and stop after `endPage` even when it is the
  largest `int`; the wrap-around of the loop as written is modelled only in
  `PageLoop` (see Findings).
- PageUrl.FirstPageUrlParts: states that page 1 has no page segment as "its path is
  exactly the search path", not as the absence of the substring `/page/`
  anywhere in the URL.

## Findings

| source | as written | input that shows it | evidently intended | confidence | as-written member | corrected member |
|---|---|---|---|---|---|---|
| main.go:102 | `for i := *startPage; i <= *endPage; i++` on a 64-bit `int`; at the largest `int`, `i++` wraps to the smallest, which is again `<= *endPage` | `-endPage 9223372036854775807` (any start page): the loop never exits and requests pages with negative numbers after the wrap | visit `startPage..endPage` once each and stop | not executed; high, follows from Go's defined wrap-around of signed integers | PageLoop.AsWrittenNeverExits | PageLoop.CorrectedVisitsRange |
