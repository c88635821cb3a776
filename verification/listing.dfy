/**
 The item filter of `findPDFLinksAndTitles`. The fetched page is seen as the
 sequence of its `li` items in document order; each item may hold the text of
 an `a.title` element and the `href` of an `a.pdf-link` element. An item is
 kept when that href exists and contains ".pdf" anywhere; a kept item gives
 the absolute link (origin + href) and the sanitised title, appended to two
 parallel lists.
 */
module Listing {
  import opened GoText
  import opened FileName
  import PageUrl

  datatype Option<T> = None | Some(value: T)

  /** One `li` of the listing. */
  datatype ListItem = ListItem(title: Option<string>, pdfHref: Option<string>)

  /** Why a listing could not be read. */
  datatype FetchError = TransportError | ParseError

  /** A listing page as the HTTP client and the HTML parser deliver it. */
  datatype FetchedPage = FetchFailed(err: FetchError) | Parsed(items: seq<ListItem>)

  /** The two parallel lists the filter returns. */
  datatype Links = Links(links: seq<string>, titles: seq<string>)

  datatype Result<T> = Ok(value: T) | Err(err: FetchError)

  const PdfMarker: string := ".pdf"

  /** The text of the item's `a.title`; an item without one reads as "". */
  function TitleText(item: ListItem): string {
    match item.title
    case Some(t) => t
    case None => ""
  }

  /** The filter's test: an `a.pdf-link` href that contains ".pdf". */
  predicate Keeps(item: ListItem) {
    item.pdfHref.Some? && Contains(item.pdfHref.value, PdfMarker)
  }

  /** The absolute link of a kept item. */
  function LinkOf(item: ListItem): string
    requires item.pdfHref.Some?
  {
    PageUrl.Origin + item.pdfHref.value
  }

  /** The title recorded for a kept item. */
  function TitleOf(item: ListItem): string {
    SanitizeFileName(TitleText(item))
  }

  /** The filter itself: walks the items in order and appends the link and
      title of every kept one. */
  function FilterItems(items: seq<ListItem>): (r: Links)
    ensures |r.links| == |r.titles| <= |items|
    ensures forall j :: 0 <= j < |r.titles| ==> NoIllegal(r.titles[j]) && Trimmed(r.titles[j])
  {
    if |items| == 0 then Links([], [])
    else
      var last := items[|items| - 1];
      var acc := FilterItems(items[..|items| - 1]);
      if Keeps(last) then Links(acc.links + [LinkOf(last)], acc.titles + [TitleOf(last)])
      else acc
  }

  /** `findPDFLinksAndTitles` once the page has been fetched: a failed fetch
      or parse is passed on, otherwise the filter's lists are returned. */
  function FindPDFLinksAndTitles(page: FetchedPage): (r: Result<Links>)
    ensures page.FetchFailed? <==> r.Err?
    ensures page.FetchFailed? ==> r.err == page.err
    ensures r.Ok? ==> |r.value.links| == |r.value.titles|
    ensures page.Parsed? ==> r == Ok(FilterItems(page.items))
  {
    match page
    case FetchFailed(e) => Err(e)
    case Parsed(items) => Ok(FilterItems(items))
  }

  /** What a parsed page yields: element `j` of both lists comes from the
      `j`-th qualifying item, and there are no other entries. */
  lemma ParsedPageYieldsKeptItems(items: seq<ListItem>)
    ensures var r, idx := FindPDFLinksAndTitles(Parsed(items)), KeptIndices(items);
      && r.Ok?
      && |r.value.links| == |r.value.titles| == |idx|
      && forall j :: 0 <= j < |idx| ==>
           r.value.links[j] == LinkOf(items[idx[j]]) && r.value.titles[j] == TitleOf(items[idx[j]])
  {
    FilterMatchesKept(items);
  }

  /** The positions of the kept items, in increasing order. */
  function KeptIndices(items: seq<ListItem>): (idx: seq<nat>)
    ensures forall j :: 0 <= j < |idx| ==> idx[j] < |items| && Keeps(items[idx[j]])
    ensures forall j, k :: 0 <= j < k < |idx| ==> idx[j] < idx[k]
  {
    if |items| == 0 then []
    else
      var n := |items| - 1;
      var acc := KeptIndices(items[..n]);
      assert forall j :: 0 <= j < |acc| ==> items[acc[j]] == items[..n][acc[j]];
      if Keeps(items[n]) then acc + [n] else acc
  }

  /** Every qualifying position is listed. */
  lemma {:induction false} KeptIndicesComplete(items: seq<ListItem>, i: int)
    requires 0 <= i < |items| && Keeps(items[i])
    ensures i in KeptIndices(items)
  {
    var n := |items| - 1;
    if i < n {
      KeptIndicesComplete(items[..n], i);
    }
  }

  /** Element `j` of both lists comes from the same item, the `j`-th kept
      one: the filter keeps exactly the qualifying items, in document order,
      with their links made absolute and their titles sanitised. */
  lemma {:induction false} FilterMatchesKept(items: seq<ListItem>)
    ensures var r, idx := FilterItems(items), KeptIndices(items);
      && |r.links| == |idx|
      && forall j :: 0 <= j < |idx| ==>
           r.links[j] == LinkOf(items[idx[j]]) && r.titles[j] == TitleOf(items[idx[j]])
  {
    if |items| > 0 {
      var n := |items| - 1;
      var prefix := items[..n];
      FilterMatchesKept(prefix);
      var acc, accIdx := FilterItems(prefix), KeptIndices(prefix);
      var r, idx := FilterItems(items), KeptIndices(items);
      if Keeps(items[n]) {
        assert idx == accIdx + [n];
        assert r == Links(acc.links + [LinkOf(items[n])], acc.titles + [TitleOf(items[n])]);
      } else {
        assert idx == accIdx && r == acc;
      }
      forall j | 0 <= j < |idx|
        ensures r.links[j] == LinkOf(items[idx[j]]) && r.titles[j] == TitleOf(items[idx[j]])
      {
        if j < |accIdx| {
          var i := accIdx[j];
          assert idx[j] == i && i < n;
          assert r.links[j] == acc.links[j] && r.titles[j] == acc.titles[j];
          assert acc.links[j] == LinkOf(prefix[i]) && acc.titles[j] == TitleOf(prefix[i]);
          assert items[i] == prefix[i];
        } else {
          assert idx[j] == n;
        }
      }
    }
  }

  /** The filter works item by item: the lists for a concatenation are the
      lists for each part, concatenated. */
  lemma {:induction false} FilterAppend(a: seq<ListItem>, b: seq<ListItem>)
    ensures FilterItems(a + b).links == FilterItems(a).links + FilterItems(b).links
    ensures FilterItems(a + b).titles == FilterItems(a).titles + FilterItems(b).titles
    decreases |b|
  {
    if |b| == 0 {
      assert a + b == a;
    } else {
      var b', last := b[..|b| - 1], b[|b| - 1];
      assert (a + b)[..|a + b| - 1] == a + b';
      assert (a + b)[|a + b| - 1] == last;
      FilterAppend(a, b');
      var fa, fb, fab := FilterItems(a), FilterItems(b'), FilterItems(a + b');
      if Keeps(last) {
        assert FilterItems(a + b).links == fab.links + [LinkOf(last)];
        assert FilterItems(b).links == fb.links + [LinkOf(last)];
        assert fa.links + (fb.links + [LinkOf(last)]) == (fa.links + fb.links) + [LinkOf(last)];
        assert fa.titles + (fb.titles + [TitleOf(last)]) == (fa.titles + fb.titles) + [TitleOf(last)];
      }
    }
  }

  /** A single item yields one link and title when it qualifies and nothing,
      and no error, when it does not. */
  lemma FilterOne(item: ListItem)
    ensures Keeps(item) ==> FilterItems([item]) == Links([LinkOf(item)], [TitleOf(item)])
    ensures !Keeps(item) ==> FilterItems([item]) == Links([], [])
  {
    assert [item][..0] == [];
  }

  /** The number of results is the number of qualifying items. */
  lemma {:induction false} FilterCount(items: seq<ListItem>)
    ensures |FilterItems(items).links| == |set i | 0 <= i < |items| && Keeps(items[i])|
  {
    FilterMatchesKept(items);
    var idx := KeptIndices(items);
    var kept := set i | 0 <= i < |items| && Keeps(items[i]);
    forall i | i in kept
      ensures i in idx
    {
      KeptIndicesComplete(items, i);
    }
    assert kept == set j | 0 <= j < |idx| :: idx[j];
    DistinctCount(idx);
  }

  /** A strictly increasing sequence has as many elements as its range. */
  lemma {:induction false} DistinctCount(idx: seq<nat>)
    requires forall j, k :: 0 <= j < k < |idx| ==> idx[j] < idx[k]
    ensures |set j | 0 <= j < |idx| :: idx[j]| == |idx|
  {
    if |idx| > 0 {
      var p := idx[..|idx| - 1];
      DistinctCount(p);
      var sp := set j | 0 <= j < |p| :: p[j];
      var s := set j | 0 <= j < |idx| :: idx[j];
      assert s == sp + {idx[|idx| - 1]};
      assert idx[|idx| - 1] !in sp;
    }
  }
}
