/** HttpURL: a request-target split into its path and its query parameters. */
module HttpUrl {
  import opened Wrappers
  import opened JavaString

  /** The query-parameter collection. Building the name/value pairs is not
      part of this model: a non-empty query is kept as the segment handed
      to the query-pair parser. */
  datatype QueryParameters = Empty | FromQuery(segment: string)

  datatype HttpURL = HttpURL(fullUrl: string, path: string, queryParameters: QueryParameters)

  const PathQueryDelimiter: char := '?'
  const PathIndex: nat := 0
  const QueryIndex: nat := 1
  const PathQueryLength: nat := 2

  /** Some non-empty run of '?' and nothing else. */
  predicate OnlyDelimiters(url: string) {
    url != "" && AllChar(url, PathQueryDelimiter)
  }

  /** `url.split("\\?")[0]`: the text before the first '?'. Fails when the
      split is the empty array, i.e. when `url` is nothing but '?'. */
  function ParsePath(url: string): (r: Result<string, Exception>)
    ensures r.Failure? <==> OnlyDelimiters(url)
    ensures r.Failure? ==> r.error == IndexOutOfBounds
    ensures r.Success? ==> PathQueryDelimiter !in r.value
    ensures r.Success? ==> |r.value| <= |url| && url[..|r.value|] == r.value
    ensures r.Success? ==> |r.value| == |url| || url[|r.value|] == PathQueryDelimiter
  {
    var parts := Split(url, PathQueryDelimiter);
    SplitEmptyIff(url, PathQueryDelimiter);
    SplitFields(url, PathQueryDelimiter);
    if PathIndex < |parts| then Success(parts[PathIndex]) else Failure(IndexOutOfBounds)
  }

  /** True when there is NO usable query part: the limit-2 split did not
      find a '?', or nothing follows it. */
  predicate IsQueryPartExist(pathAndQuery: seq<string>) {
    |pathAndQuery| != PathQueryLength || pathAndQuery[QueryIndex] == ""
  }

  /** The query parameters: empty when there is no '?' or nothing after the
      first one; otherwise built from everything after the first '?'. */
  function ParseQueryParameters(url: string): (q: QueryParameters)
    ensures PathQueryDelimiter !in url ==> q == Empty
    ensures PathQueryDelimiter in url ==>
              (q == Empty <==> AfterFirst(url, PathQueryDelimiter) == "")
    ensures q.FromQuery? ==>
              PathQueryDelimiter in url && q.segment == AfterFirst(url, PathQueryDelimiter)
  {
    var pathAndQuery := SplitLimit2(url, PathQueryDelimiter);
    if IsQueryPartExist(pathAndQuery) then Empty
    else FromQuery(pathAndQuery[QueryIndex])
  }

  /** isQueryPartExist on the limit-2 split of a target holds exactly when
      the target has no '?' or nothing follows its first '?'. */
  lemma QueryPartExistIff(url: string)
    ensures IsQueryPartExist(SplitLimit2(url, PathQueryDelimiter)) <==>
              PathQueryDelimiter !in url || AfterFirst(url, PathQueryDelimiter) == ""
  {
  }

  /** HttpURL.from: the path is computed first, so a target made only of
      '?' fails before the query is looked at. */
  function From(fullUrl: string): (r: Result<HttpURL, Exception>)
    ensures r.Failure? <==> OnlyDelimiters(fullUrl)
    ensures r.Success? ==> r.value.fullUrl == fullUrl
    ensures r.Success? ==> PathQueryDelimiter !in r.value.path
    ensures r.Success? && PathQueryDelimiter !in fullUrl ==>
              r.value.path == fullUrl && r.value.queryParameters == Empty
  {
    var path := ParsePath(fullUrl);
    if path.Failure? then Failure(path.error)
    else Success(HttpURL(fullUrl, path.value, ParseQueryParameters(fullUrl)))
  }

  /** The query segment the parser received, or "" for no query. */
  function QuerySegment(q: QueryParameters): string {
    match q
    case Empty => ""
    case FromQuery(segment) => segment
  }

  /** With a '?' present, path, '?' and the query segment put back together
      are the full target, and the path ends at the first '?'. */
  lemma {:induction false} FromReconstructs(fullUrl: string)
    requires PathQueryDelimiter in fullUrl
    requires From(fullUrl).Success?
    ensures From(fullUrl).value.path + [PathQueryDelimiter]
              + QuerySegment(From(fullUrl).value.queryParameters) == fullUrl
  {
    var u := From(fullUrl).value;
    var i := IndexOf(fullUrl, PathQueryDelimiter);
    assert u.path == fullUrl[..|u.path|];
    assert |u.path| == i;
    assert fullUrl == FirstField(fullUrl, PathQueryDelimiter) + [PathQueryDelimiter]
                      + AfterFirst(fullUrl, PathQueryDelimiter);
  }

  /** When the path is defined it is the text before the first '?'. */
  lemma PathIsFirstField(url: string)
    requires !OnlyDelimiters(url)
    ensures ParsePath(url) == Success(FirstField(url, PathQueryDelimiter))
  {
    SplitEmptyIff(url, PathQueryDelimiter);
    SplitFields(url, PathQueryDelimiter);
  }

  /** A target read as `path ? query`, with no '?' in `path`: the path is
      `path`, and the query parser receives all of `query`, later '?'
      included, unless `query` is empty. */
  lemma FromSplitsAtFirstDelimiter(path: string, query: string)
    requires PathQueryDelimiter !in path
    requires !OnlyDelimiters(path + [PathQueryDelimiter] + query)
    ensures From(path + [PathQueryDelimiter] + query)
              == Success(HttpURL(path + [PathQueryDelimiter] + query, path,
                                 if query == "" then Empty else FromQuery(query)))
  {
    var url := path + [PathQueryDelimiter] + query;
    IndexOfAfterPrefix(path, query, PathQueryDelimiter);
    assert url[..|path|] == path;
    assert url[|path| + 1..] == query;
    PathIsFirstField(url);
  }

  /** The query segment may itself contain '?': only the first one separates. */
  lemma FromKeepsLaterDelimiters()
    ensures From("/a?b?c") == Success(HttpURL("/a?b?c", "/a", FromQuery("b?c")))
  {
    assert "/a" + ['?'] + "b?c" == "/a?b?c";
    assert "/a?b?c"[0] == '/';
    FromSplitsAtFirstDelimiter("/a", "b?c");
  }

  /** Boundary cases: an empty target has an empty path and no query, and
      a target made only of '?' fails. */
  lemma FromBoundaryCases()
    ensures From("") == Success(HttpURL("", "", Empty))
    ensures From("??") == Failure(IndexOutOfBounds)
  {
    assert OnlyDelimiters("??");
  }

  /** A target that is only a query has an empty path. */
  lemma FromQueryOnly()
    ensures From("?a=1") == Success(HttpURL("?a=1", "", FromQuery("a=1")))
  {
    assert "" + ['?'] + "a=1" == "?a=1";
    assert "?a=1"[1] == 'a';
    FromSplitsAtFirstDelimiter("", "a=1");
  }

  /** A trailing '?' with nothing after it gives no query. */
  lemma FromTrailingDelimiter()
    ensures From("/a?") == Success(HttpURL("/a?", "/a", Empty))
  {
    assert "/a" + ['?'] + "" == "/a?";
    assert "/a?"[0] == '/';
    FromSplitsAtFirstDelimiter("/a", "");
  }
}
