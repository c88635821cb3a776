/**
 The page and item loops of `main`. Pages `startPage..endPage` are processed
 in increasing order; a page whose listing cannot be fetched or parsed is
 reported and skipped; every link of a readable page is downloaded to
 `<outputDir>/<title>.pdf`, and a failed download is reported and skipped.

 The network and the disk are parameters: `fetch` says what the client and
 the parser make of a listing URL, and `download` says how one download
 attempt ends. The run is recorded as the sequence of things `main` reports.
 */
module Harvest {
  import opened Listing
  import opened PageUrl
  import opened FileName

  /** Why a download failed: the request, or creating or writing the file. */
  datatype DownloadError = DownloadTransportError | StorageError

  datatype DownloadResult = Saved | DownloadFailed(err: DownloadError)

  /** One download attempt: the `index`-th link of its page, and where it is
      written. */
  datatype Download = Download(index: nat, link: string, path: string)

  /** What the run reports, in order. */
  datatype Event =
    | Processing(page: int, url: string)
    | PageFailed(page: int, err: FetchError)
    | Attempted(page: int, download: Download, result: DownloadResult)

  const PdfExtension: string := ".pdf"

  /** `filepath.Join(dir, name)`, without the path clean-up. */
  function JoinPath(dir: string, name: string): string {
    dir + "/" + name
  }

  /** The destination of a document with the given (sanitised) title. */
  function Destination(outputDir: string, title: string): string {
    JoinPath(outputDir, title + PdfExtension)
  }

  /** The inner loop, from link `from` on. */
  function DownloadLinks(outputDir: string, page: int, links: seq<string>, titles: seq<string>, from: nat,
                         download: (int, Download) -> DownloadResult): (events: seq<Event>)
    requires |links| == |titles| && from <= |links|
    ensures |events| == |links| - from
    ensures forall k :: 0 <= k < |events| ==>
      var d := Download(from + k, links[from + k], Destination(outputDir, titles[from + k]));
      events[k] == Attempted(page, d, download(page, d))
    decreases |links| - from
  {
    if from == |links| then []
    else
      var d := Download(from, links[from], Destination(outputDir, titles[from]));
      [Attempted(page, d, download(page, d))] + DownloadLinks(outputDir, page, links, titles, from + 1, download)
  }

  /** One iteration of the page loop. */
  function ProcessPage(outputDir: string, page: int, fetch: string -> FetchedPage,
                       download: (int, Download) -> DownloadResult): (events: seq<Event>)
    ensures |events| >= 1 && events[0] == Processing(page, GenerateURL(page))
    ensures forall k :: 0 <= k < |events| ==> events[k].page == page
  {
    var url := GenerateURL(page);
    match FindPDFLinksAndTitles(fetch(url))
    case Err(e) => [Processing(page, url), PageFailed(page, e)]
    case Ok(listing) => [Processing(page, url)] + DownloadLinks(outputDir, page, listing.links, listing.titles, 0, download)
  }

  /** The page loop over `startPage..endPage`. */
  function Run(outputDir: string, startPage: int, endPage: int, fetch: string -> FetchedPage,
               download: (int, Download) -> DownloadResult): (events: seq<Event>)
    ensures startPage > endPage <==> events == []
    ensures forall k :: 0 <= k < |events| ==> startPage <= events[k].page <= endPage
    ensures forall j, k :: 0 <= j < k < |events| ==> events[j].page <= events[k].page
    decreases endPage - startPage
  {
    if startPage > endPage then []
    else ProcessPage(outputDir, startPage, fetch, download) + Run(outputDir, startPage + 1, endPage, fetch, download)
  }

  /** The page range `lo..hi`, in increasing order. */
  function PageRange(lo: int, hi: int): (pages: seq<int>)
    ensures |pages| == if lo > hi then 0 else hi - lo + 1
    ensures forall k :: 0 <= k < |pages| ==> pages[k] == lo + k
    decreases hi - lo
  {
    if lo > hi then [] else [lo] + PageRange(lo + 1, hi)
  }

  /** The pages the run reports as processed, in order. */
  function ProcessedPages(events: seq<Event>): seq<int> {
    if |events| == 0 then []
    else (if events[0].Processing? then [events[0].page] else []) + ProcessedPages(events[1..])
  }

  /** The download attempts of the run, in order, without their outcomes. */
  function Requests(events: seq<Event>): seq<(int, Download)> {
    if |events| == 0 then []
    else (if events[0].Attempted? then [(events[0].page, events[0].download)] else []) + Requests(events[1..])
  }

  lemma {:induction false} ProcessedPagesAppend(a: seq<Event>, b: seq<Event>)
    ensures ProcessedPages(a + b) == ProcessedPages(a) + ProcessedPages(b)
  {
    if |a| > 0 {
      assert (a + b)[1..] == a[1..] + b;
      ProcessedPagesAppend(a[1..], b);
    } else {
      assert a + b == b;
    }
  }

  lemma {:induction false} RequestsAppend(a: seq<Event>, b: seq<Event>)
    ensures Requests(a + b) == Requests(a) + Requests(b)
  {
    if |a| > 0 {
      assert (a + b)[1..] == a[1..] + b;
      RequestsAppend(a[1..], b);
    } else {
      assert a + b == b;
    }
  }

  /** Each page reports itself as processed exactly once. */
  lemma {:induction false} ProcessPageProcessedOnce(outputDir: string, page: int, fetch: string -> FetchedPage,
                                                    download: (int, Download) -> DownloadResult)
    ensures ProcessedPages(ProcessPage(outputDir, page, fetch, download)) == [page]
  {
    var events := ProcessPage(outputDir, page, fetch, download);
    NoneProcessedAfterHead(events[1..]);
    assert events == [events[0]] + events[1..];
    ProcessedPagesAppend([events[0]], events[1..]);
  }

  lemma {:induction false} NoneProcessedAfterHead(events: seq<Event>)
    requires forall k :: 0 <= k < |events| ==> !events[k].Processing?
    ensures ProcessedPages(events) == []
  {
    if |events| > 0 {
      NoneProcessedAfterHead(events[1..]);
    }
  }

  /** The loop attempts every page of the range once, in increasing order,
      whatever happens to the pages: a failed page does not stop the later
      ones, and an empty range attempts nothing. */
  lemma {:induction false} RunProcessesRange(outputDir: string, startPage: int, endPage: int,
                                             fetch: string -> FetchedPage, download: (int, Download) -> DownloadResult)
    ensures ProcessedPages(Run(outputDir, startPage, endPage, fetch, download)) == PageRange(startPage, endPage)
    decreases endPage - startPage
  {
    if startPage <= endPage {
      var head := ProcessPage(outputDir, startPage, fetch, download);
      var tail := Run(outputDir, startPage + 1, endPage, fetch, download);
      ProcessedPagesAppend(head, tail);
      ProcessPageProcessedOnce(outputDir, startPage, fetch, download);
      RunProcessesRange(outputDir, startPage + 1, endPage, fetch, download);
    }
  }

  /** The run is the concatenation of its pages' runs: splitting the range
      at any page splits the events there. */
  lemma {:induction false} RunSplit(outputDir: string, startPage: int, mid: int, endPage: int,
                                    fetch: string -> FetchedPage, download: (int, Download) -> DownloadResult)
    requires startPage <= mid <= endPage + 1
    ensures Run(outputDir, startPage, endPage, fetch, download)
         == Run(outputDir, startPage, mid - 1, fetch, download) + Run(outputDir, mid, endPage, fetch, download)
    decreases mid - startPage
  {
    if startPage < mid {
      RunSplit(outputDir, startPage + 1, mid, endPage, fetch, download);
      var head := ProcessPage(outputDir, startPage, fetch, download);
      var left := Run(outputDir, startPage + 1, mid - 1, fetch, download);
      var right := Run(outputDir, mid, endPage, fetch, download);
      assert Run(outputDir, startPage, endPage, fetch, download) == head + (left + right);
      assert Run(outputDir, startPage, mid - 1, fetch, download) == head + left;
      Regroup(head, left, right);
    } else {
      assert Run(outputDir, startPage, mid - 1, fetch, download) == [];
    }
  }

  /** Regrouping a concatenation, kept apart so that the solver meets it
      without the run's definitions in scope. */
  lemma Regroup(a: seq<Event>, b: seq<Event>, c: seq<Event>)
    ensures a + (b + c) == (a + b) + c
  {
  }

  /** The events of page `p` within the run are exactly that page's own
      events, wherever it sits in the range. */
  lemma PageInRun(outputDir: string, startPage: int, p: int, endPage: int,
                  fetch: string -> FetchedPage, download: (int, Download) -> DownloadResult)
    requires startPage <= p <= endPage
    ensures Run(outputDir, startPage, endPage, fetch, download)
         == Run(outputDir, startPage, p - 1, fetch, download)
          + ProcessPage(outputDir, p, fetch, download)
          + Run(outputDir, p + 1, endPage, fetch, download)
  {
    RunSplit(outputDir, startPage, p, endPage, fetch, download);
    var left := Run(outputDir, startPage, p - 1, fetch, download);
    var page := ProcessPage(outputDir, p, fetch, download);
    var right := Run(outputDir, p + 1, endPage, fetch, download);
    assert Run(outputDir, p, endPage, fetch, download) == page + right;
    Regroup(left, page, right);
  }

  /** A page whose listing cannot be read is reported and contributes no
      download. */
  lemma FailedPageDownloadsNothing(outputDir: string, page: int, fetch: string -> FetchedPage,
                                   download: (int, Download) -> DownloadResult)
    requires fetch(GenerateURL(page)).FetchFailed?
    ensures ProcessPage(outputDir, page, fetch, download)
         == [Processing(page, GenerateURL(page)), PageFailed(page, fetch(GenerateURL(page)).err)]
    ensures Requests(ProcessPage(outputDir, page, fetch, download)) == []
  {
    var events := ProcessPage(outputDir, page, fetch, download);
    assert events[1..][1..] == [];
    assert Requests(events[1..]) == [];
  }

  /** A readable page downloads exactly the filter's links, in order, each
      to `<outputDir>/<title>.pdf`, and every link is attempted whatever
      became of the earlier ones. */
  lemma ReadablePageDownloadsItsLinks(outputDir: string, page: int, fetch: string -> FetchedPage,
                                      download: (int, Download) -> DownloadResult)
    requires fetch(GenerateURL(page)).Parsed?
    ensures var listing := FilterItems(fetch(GenerateURL(page)).items);
            var events := ProcessPage(outputDir, page, fetch, download);
      && |events| == |listing.links| + 1
      && forall j :: 0 <= j < |listing.links| ==>
           var d := Download(j, listing.links[j], Destination(outputDir, listing.titles[j]));
           events[j + 1] == Attempted(page, d, download(page, d))
  {
    var url := GenerateURL(page);
    var listing := FilterItems(fetch(url).items);
    var rest := DownloadLinks(outputDir, page, listing.links, listing.titles, 0, download);
    ReadablePageEvents(outputDir, page, fetch, download);
    var events := ProcessPage(outputDir, page, fetch, download);
    forall j | 0 <= j < |listing.links|
      ensures var d := Download(j, listing.links[j], Destination(outputDir, listing.titles[j]));
        events[j + 1] == Attempted(page, d, download(page, d))
    {
      assert events[j + 1] == rest[j];
    }
  }

  /** A readable page's events: its processing report, then the inner loop
      over the filter's lists. */
  lemma ReadablePageEvents(outputDir: string, page: int, fetch: string -> FetchedPage,
                           download: (int, Download) -> DownloadResult)
    requires fetch(GenerateURL(page)).Parsed?
    ensures var listing := FilterItems(fetch(GenerateURL(page)).items);
      ProcessPage(outputDir, page, fetch, download)
      == [Processing(page, GenerateURL(page))] + DownloadLinks(outputDir, page, listing.links, listing.titles, 0, download)
  {
  }

  /** Download outcomes never change which downloads are attempted. */
  lemma {:induction false} RequestsIgnoreOutcomes(outputDir: string, startPage: int, endPage: int,
                                                  fetch: string -> FetchedPage,
                                                  download1: (int, Download) -> DownloadResult,
                                                  download2: (int, Download) -> DownloadResult)
    ensures Requests(Run(outputDir, startPage, endPage, fetch, download1))
         == Requests(Run(outputDir, startPage, endPage, fetch, download2))
    decreases endPage - startPage
  {
    if startPage <= endPage {
      var h1 := ProcessPage(outputDir, startPage, fetch, download1);
      var h2 := ProcessPage(outputDir, startPage, fetch, download2);
      RequestsAppend(h1, Run(outputDir, startPage + 1, endPage, fetch, download1));
      RequestsAppend(h2, Run(outputDir, startPage + 1, endPage, fetch, download2));
      RequestsIgnoreOutcomes(outputDir, startPage + 1, endPage, fetch, download1, download2);
      PageRequestsIgnoreOutcomes(h1, h2);
    }
  }

  lemma {:induction false} PageRequestsIgnoreOutcomes(a: seq<Event>, b: seq<Event>)
    requires |a| == |b|
    requires forall k :: 0 <= k < |a| ==> a[k].Attempted? == b[k].Attempted? && a[k].page == b[k].page
    requires forall k :: 0 <= k < |a| && a[k].Attempted? ==> a[k].download == b[k].download
    ensures Requests(a) == Requests(b)
  {
    if |a| > 0 {
      PageRequestsIgnoreOutcomes(a[1..], b[1..]);
    }
  }

  /** The run looks at the listing of a page only when that page is in the
      range, and every page has its own URL: two network behaviours that
      agree on the URLs of the pages in the range give the same run. */
  lemma {:induction false} RunDependsOnlyOnRange(outputDir: string, startPage: int, endPage: int,
                                                 fetch1: string -> FetchedPage, fetch2: string -> FetchedPage,
                                                 download: (int, Download) -> DownloadResult)
    requires forall p :: startPage <= p <= endPage ==> fetch1(GenerateURL(p)) == fetch2(GenerateURL(p))
    ensures Run(outputDir, startPage, endPage, fetch1, download) == Run(outputDir, startPage, endPage, fetch2, download)
    decreases endPage - startPage
  {
    if startPage <= endPage {
      RunDependsOnlyOnRange(outputDir, startPage + 1, endPage, fetch1, fetch2, download);
    }
  }

  /** A page's failure is contained: changing what one page's listing
      returns, failure included, leaves the events of every other page as
      they were. */
  lemma PageFailureIsolated(outputDir: string, startPage: int, q: int, endPage: int,
                            fetch1: string -> FetchedPage, fetch2: string -> FetchedPage,
                            download: (int, Download) -> DownloadResult)
    requires startPage <= q <= endPage
    requires forall u :: u != GenerateURL(q) ==> fetch1(u) == fetch2(u)
    ensures Run(outputDir, startPage, q - 1, fetch1, download) == Run(outputDir, startPage, q - 1, fetch2, download)
    ensures Run(outputDir, q + 1, endPage, fetch1, download) == Run(outputDir, q + 1, endPage, fetch2, download)
  {
    forall p | p != q
      ensures fetch1(GenerateURL(p)) == fetch2(GenerateURL(p))
    {
      if GenerateURL(p) == GenerateURL(q) {
        GenerateURLInjective(p, q);
      }
    }
    RunDependsOnlyOnRange(outputDir, startPage, q - 1, fetch1, fetch2, download);
    RunDependsOnlyOnRange(outputDir, q + 1, endPage, fetch1, fetch2, download);
  }

  /** Every destination sits directly in the output directory: the file name
      holds no path separator, since the sanitiser removed them from the
      title. */
  lemma DestinationsStayInOutputDir(outputDir: string, items: seq<ListItem>, j: int)
    requires 0 <= j < |FilterItems(items).titles|
    ensures var name := FilterItems(items).titles[j] + PdfExtension;
      && Destination(outputDir, FilterItems(items).titles[j]) == outputDir + "/" + name
      && '/' !in name && '\\' !in name
  {
    var title := FilterItems(items).titles[j];
    assert NoIllegal(title);
    CleanTitleGivesPlainName(outputDir, title);
  }

  lemma CleanTitleGivesPlainName(outputDir: string, title: string)
    requires NoIllegal(title)
    ensures Destination(outputDir, title) == outputDir + "/" + (title + PdfExtension)
    ensures '/' !in title + PdfExtension && '\\' !in title + PdfExtension
  {
    var name := title + PdfExtension;
    assert forall k :: 0 <= k < |title| ==> name[k] == title[k];
    assert forall k :: |title| <= k < |name| ==> name[k] == PdfExtension[k - |title|];
  }

  /** There is no fallback name: an item is saved as `<outputDir>/.pdf`
      exactly when its title is missing, empty, or made only of illegal
      characters and white space. */
  lemma UntitledItemIsNamedDotPdf(outputDir: string, item: ListItem)
    ensures Destination(outputDir, TitleOf(item)) == outputDir + "/.pdf"
        <==> GoText.AllSpace(StripIllegal(TitleText(item)))
  {
    var title := TitleOf(item);
    GoText.TrimSpaceEmpty(StripIllegal(TitleText(item)));
    if Destination(outputDir, title) == outputDir + "/.pdf" {
      assert |title| == 0;
    }
  }

  /** How `main` ends: it gives up before the first page when the output
      directory cannot be created, and otherwise runs the whole range. */
  datatype MainOutcome = OutputDirFailed | Completed(events: seq<Event>)

  /** `main` after flag parsing; `outputDirCreated` is whether `os.MkdirAll`
      succeeded. */
  function MainFlow(outputDir: string, startPage: int, endPage: int, outputDirCreated: bool,
                fetch: string -> FetchedPage, download: (int, Download) -> DownloadResult): (r: MainOutcome)
    ensures r.OutputDirFailed? <==> !outputDirCreated
    ensures r.Completed? ==> ProcessedPages(r.events) == PageRange(startPage, endPage)
    ensures r.Completed? ==> r.events == Run(outputDir, startPage, endPage, fetch, download)
  {
    RunProcessesRange(outputDir, startPage, endPage, fetch, download);
    if outputDirCreated then Completed(Run(outputDir, startPage, endPage, fetch, download))
    else OutputDirFailed
  }

  /** Two pages, the first unreadable and the second holding one qualifying
      item: the run reports one page failure, then makes exactly one
      download attempt, and carries on to the end of the range. */
  lemma FailedThenReadablePage(outputDir: string, fetch: string -> FetchedPage,
                               download: (int, Download) -> DownloadResult, item: ListItem)
    requires fetch(GenerateURL(1)).FetchFailed?
    requires fetch(GenerateURL(2)) == Parsed([item]) && Keeps(item)
    ensures var d := Download(0, LinkOf(item), Destination(outputDir, TitleOf(item)));
      Run(outputDir, 1, 2, fetch, download)
      == [ Processing(1, GenerateURL(1)), PageFailed(1, fetch(GenerateURL(1)).err),
           Processing(2, GenerateURL(2)), Attempted(2, d, download(2, d)) ]
  {
    FailedPageDownloadsNothing(outputDir, 1, fetch, download);
    FilterOne(item);
    ReadablePageDownloadsItsLinks(outputDir, 2, fetch, download);
    assert Run(outputDir, 3, 2, fetch, download) == [];
  }
}
