/** The search client (`getSearchResultsFromQuery`): parses the tool
    arguments, builds the domain-restricted DuckDuckGo url, fetches it and
    extracts at most five results. A failed fetch becomes the empty list; a
    failed argument parse is raised to the caller. */
module SearchClient {
  import opened Wrappers
  import opened Text
  import opened Types
  import opened UriEncoding
  import opened Extractor

  const SearchEndpoint: string := "https://html.duckduckgo.com/html/?q="
  const SiteClause: string := " site:skcet.ac.in"
  const ResultLimit: int := 5

  /** The page fetched for a query: the endpoint followed by the encoded
      query with the site clause appended. */
  function SearchUrl(query: string): (url: string)
    ensures StartsWith(url, SearchEndpoint)
    ensures IsEncodedForm(url[|SearchEndpoint|..])
    ensures DecodeUriComponent(url[|SearchEndpoint|..]) == Some(query + SiteClause)
  {
    var url := SearchEndpoint + EncodeUriComponent(query + SiteClause);
    assert url[|SearchEndpoint|..] == EncodeUriComponent(query + SiteClause);
    EncodeForm(query + SiteClause);
    EncodeRoundTrip(query + SiteClause);
    url
  }

  /** Different queries are sent to different urls. */
  lemma SearchUrlInjective(q1: string, q2: string)
    requires SearchUrl(q1) == SearchUrl(q2)
    ensures q1 == q2
  {
    var n := |SearchEndpoint|;
    assert SearchUrl(q1)[n..] == SearchUrl(q2)[n..];
    assert q1 + SiteClause == q2 + SiteClause;
    assert q1 == (q1 + SiteClause)[..|q1|];
    assert q2 == (q2 + SiteClause)[..|q2|];
  }

  /** What the HTTP GET gave: a thrown error (network, body read), or a
      status with the page's result containers. */
  datatype FetchOutcome = FetchFailed | Fetched(status: int, page: seq<Container>)

  /** `response.ok`: a 2xx status. */
  predicate IsOk(status: int) {
    200 <= status <= 299
  }

  /** Raised out of `getSearchResultsFromQuery`: `JSON.parse(arguments).query`
      threw (a SyntaxError for malformed JSON, a TypeError for `null`). */
  datatype SearchError = MalformedArguments

  /** The outcome of `getSearchResultsFromQuery` for the tool call's argument
      text. `parseArgs` stands for `JSON.parse(arguments).query` rendered as
      text: `None` when it throws. That throw happens before the `try`, so it
      escapes as an error; a thrown fetch or a non-2xx status is caught there
      and gives the empty list. */
  function QueryResults(arguments: string, parseArgs: string -> Option<string>,
                        fetch: string -> FetchOutcome): Result<seq<SearchResult>, SearchError>
  {
    match parseArgs(arguments)
    case None => Err(MalformedArguments)
    case Some(query) =>
      match fetch(SearchUrl(query))
      case FetchFailed => Ok([])
      case Fetched(status, page) => Ok(if IsOk(status) then Extract(page, ResultLimit) else [])
  }

  /** `getSearchResultsFromQuery`. Unparseable arguments raise; past the
      parse, a thrown fetch or a non-2xx status gives the empty list, and a
      2xx page gives at most five admissible results. */
  method GetSearchResultsFromQuery(arguments: string, parseArgs: string -> Option<string>,
                                   fetch: string -> FetchOutcome)
    returns (r: Result<seq<SearchResult>, SearchError>)
    ensures r == QueryResults(arguments, parseArgs, fetch)
    ensures r.Err? <==> parseArgs(arguments).None?
    ensures r.Ok? ==>
      match fetch(SearchUrl(parseArgs(arguments).value))
      case FetchFailed => r.value == []
      case Fetched(status, page) => r.value == if IsOk(status) then Extract(page, ResultLimit) else []
    ensures r.Ok? ==> |r.value| <= ResultLimit
    ensures r.Ok? ==> forall k :: 0 <= k < |r.value| ==> Admissible(r.value[k])
  {
    var query := parseArgs(arguments);
    if query.None? {
      return Err(MalformedArguments);
    }
    var url := SearchUrl(query.value);
    var response := fetch(url);
    if response.FetchFailed? || !IsOk(response.status) {
      return Ok([]);
    }
    var results := ParseSearchResults(response.page, ResultLimit);
    r := Ok(results);
  }
}
