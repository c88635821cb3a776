/**
 The listing URL for one page of the search results (`generateURL`).
 Page 1 is the canonical search URL; every other page number, including
 zero and negative ones, gets a `/search/page/<n>` URL carrying the same
 query string.
 */
module PageUrl {
  import opened GoText

  /** The site origin shared by listing and download URLs. */
  const Origin: string := "https://link.springer.com"

  /** The search path under the origin. */
  const SearchPath: string := Origin + "/search"

  /** The fixed query: open-access articles of journal 146. */
  const Query: string := "?query=&search-within=Journal" + "&package=openaccessarticles" + "&facet-journal-id=146"

  /** What a later page's URL puts between the search path and the query. */
  const PageSegment: string := "/page/"

  /** Where the query of `url` starts: at its first '?', or at its end. */
  function QueryStart(url: string): (k: nat)
    ensures k <= |url|
    ensures '?' !in url[..k]
    ensures k < |url| ==> url[k] == '?'
  {
    if |url| == 0 || url[0] == '?' then 0
    else
      var k := QueryStart(url[1..]) + 1;
      assert url[..k] == [url[0]] + url[1..][..k - 1];
      k
  }

  /** The part of a URL in front of its query. */
  function PathOf(url: string): string {
    url[..QueryStart(url)]
  }

  /** The query of a URL, '?' included. */
  function QueryOf(url: string): string {
    url[QueryStart(url)..]
  }

  /** The URL of listing page `page`. */
  function GenerateURL(page: int): (url: string) {
    if page == 1 then
      SearchPath + Query
    else
      SearchPath + PageSegment + Decimal(page) + Query
  }

  /** If the path holds no '?' and the query starts with one, the split at
      the first '?' gives them back. */
  lemma {:induction false} SplitAtQuery(path: string, query: string)
    requires '?' !in path
    requires |query| > 0 && query[0] == '?'
    ensures PathOf(path + query) == path
    ensures QueryOf(path + query) == query
  {
    if |path| > 0 {
      assert (path + query)[1..] == path[1..] + query;
      assert '?' !in path[1..] by {
        assert forall c :: c in path[1..] ==> c in path;
      }
      SplitAtQuery(path[1..], query);
    } else {
      assert path + query == query;
    }
  }

  lemma DecimalHasNoQuestionMark(n: int)
    ensures '?' !in Decimal(n)
  {
    var d := Digits(if n < 0 then -n else n);
    assert forall k :: 0 <= k < |d| ==> d[k] != '?';
  }

  /** Page 1's URL splits into the bare search path, with no page segment,
      and the fixed query. */
  lemma FirstPageUrlParts()
    ensures PathOf(GenerateURL(1)) == SearchPath
    ensures QueryOf(GenerateURL(1)) == Query
  {
    assert Query[0] == '?';
    SplitAtQuery(SearchPath, Query);
  }

  /** Any other page's URL carries the same query as page 1, and its path is
      the search path followed by `/page/` and the page number. */
  lemma PagedUrlParts(page: int)
    requires page != 1
    ensures PathOf(GenerateURL(page)) == SearchPath + PageSegment + Decimal(page)
    ensures QueryOf(GenerateURL(page)) == Query
  {
    assert Query[0] == '?';
    DecimalHasNoQuestionMark(page);
    var path := SearchPath + PageSegment + Decimal(page);
    assert '?' !in path by {
      assert forall c :: c in path ==> c in SearchPath || c in PageSegment || c in Decimal(page);
    }
    SplitAtQuery(path, Query);
  }

  /** Different page numbers are given different URLs, so a run over a range
      never fetches the same listing page twice. */
  lemma GenerateURLInjective(a: int, b: int)
    requires GenerateURL(a) == GenerateURL(b)
    ensures a == b
  {
    if a == 1 || b == 1 {
      FirstPageUrlParts();
    }
    if a != 1 {
      PagedUrlParts(a);
    }
    if b != 1 {
      PagedUrlParts(b);
    }
    if a != 1 && b != 1 {
      var p := PathOf(GenerateURL(a));
      var n := |SearchPath + PageSegment|;
      assert Decimal(a) == p[n..];
      assert Decimal(b) == p[n..];
      DecimalInjective(a, b);
    }
  }
}
