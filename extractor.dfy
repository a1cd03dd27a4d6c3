/** The HTML result extractor (`parseSearchResults`). The DOM parse and the CSS
    selectors are not modelled: a page arrives as its sequence of result
    containers, each with the raw text of its url, title and snippet elements,
    `None` where the selector found no element. */
module Extractor {
  import opened Wrappers
  import opened Text
  import opened Types

  /** The allowed-domain literal a result url must contain. */
  const Domain: string := "skcet.ac.in"

  /** A `.result__body` element: text of `.result__url`, `.result__title a`
      and `.result__snippet`. */
  datatype Container = Container(url: Option<string>, title: Option<string>, snippet: Option<string>)

  /** What every extracted result satisfies. */
  predicate Admissible(r: SearchResult) {
    && Contains(r.url, Domain)
    && StartsWith(r.url, "http")
    && r.title != [] && Trimmed(r.title)
    && r.snippet != [] && Trimmed(r.snippet)
  }

  /** The url normalisation: a literal prefix test on "http", not a scheme check. */
  function NormalizeUrl(u: string): (r: string)
    ensures StartsWith(r, "http")
    ensures Contains(u, Domain) ==> Contains(r, Domain)
  {
    if StartsWith(u, "http") then u
    else
      var r := "https://" + u;
      assert r[..4] == "http";
      assert Contains(u, Domain) ==> Contains(r, Domain) by {
        if Contains(u, Domain) { ContainsAfterPrefix("https://", u, Domain); }
      }
      r
  }

  /** Text that starts with "http" is kept as it is; anything else gets
      "https://" in front, even when it has a scheme of its own. */
  lemma NormalizeUrlCases(u: string)
    ensures StartsWith(u, "http") ==> NormalizeUrl(u) == u
    ensures !StartsWith(u, "http") ==> NormalizeUrl(u) == "https://" + u
    ensures StartsWith(NormalizeUrl(u), "https://") || NormalizeUrl(u) == u
  {
  }

  /** The body of the per-container step: the result the container adds, if any. */
  function Admit(c: Container): (r: Option<SearchResult>)
    ensures c.url.None? || c.title.None? || c.snippet.None? ==> r.None?
    ensures r.Some? ==> Admissible(r.value)
    ensures r.Some? ==> r.value.title == Trim(c.title.value) && r.value.snippet == Trim(c.snippet.value)
    ensures r.Some? ==> Contains(Trim(c.url.value), Domain) && r.value.url == NormalizeUrl(Trim(c.url.value))
  {
    if c.title.None? || c.snippet.None? then None
    else if c.url.None? then None
    else
      var url := Trim(c.url.value);
      var title := Trim(c.title.value);
      var snippet := Trim(c.snippet.value);
      if url != [] && title != [] && snippet != [] && Contains(url, Domain)
      then Some(SearchResult(NormalizeUrl(url), title, snippet))
      else None
  }

  /** A container is admitted exactly when all three elements exist, their
      trimmed texts are non-empty and the trimmed url contains the domain. */
  lemma AdmitExactly(c: Container)
    ensures Admit(c).Some? <==>
      && c.url.Some? && c.title.Some? && c.snippet.Some?
      && Trim(c.url.value) != [] && Trim(c.title.value) != [] && Trim(c.snippet.value) != []
      && Contains(Trim(c.url.value), Domain)
  {
  }

  /** The results the loop has pushed after visiting `page`, in document order. */
  function Kept(page: seq<Container>): (rs: seq<SearchResult>)
    ensures |rs| <= |page|
    ensures forall k :: 0 <= k < |rs| ==> Admissible(rs[k])
  {
    if page == [] then []
    else
      var last := Admit(page[|page| - 1]);
      Kept(page[..|page| - 1]) + (if last.Some? then [last.value] else [])
  }

  /** Keeping distributes over concatenation: each container contributes on its
      own, and the contributions stay in document order. */
  lemma {:induction false} KeptAppend(a: seq<Container>, b: seq<Container>)
    ensures Kept(a + b) == Kept(a) + Kept(b)
  {
    if b == [] {
      assert a + b == a;
    } else {
      var last := Admit(b[|b| - 1]);
      assert (a + b)[..|a + b| - 1] == a + b[..|b| - 1];
      KeptAppend(a, b[..|b| - 1]);
    }
  }

  /** A container that is not admitted, in particular one with no title or
      no snippet element, adds nothing. */
  lemma SkippedContributesNothing(a: seq<Container>, c: Container, b: seq<Container>)
    requires Admit(c).None?
    ensures Kept(a + [c] + b) == Kept(a + b)
  {
    KeptAppend(a + [c], b);
    KeptAppend(a, [c]);
    KeptAppend(a, b);
    assert [c][..0] == [];
  }

  /** Every kept result is the result of some container of the page. */
  lemma {:induction false} KeptFromPage(page: seq<Container>, k: nat)
    requires k < |Kept(page)|
    ensures exists i :: 0 <= i < |page| && Admit(page[i]) == Some(Kept(page)[k])
  {
    var init := page[..|page| - 1];
    var last := Admit(page[|page| - 1]);
    var tail := if last.Some? then [last.value] else [];
    assert Kept(page) == Kept(init) + tail;
    if k < |Kept(init)| {
      KeptFromPage(init, k);
      var i :| 0 <= i < |init| && Admit(init[i]) == Some(Kept(init)[k]);
      assert page[i] == init[i];
      assert Kept(page)[k] == Kept(init)[k];
    } else {
      assert Kept(page)[k] == last.value;
      assert Admit(page[|page| - 1]) == Some(Kept(page)[k]);
    }
  }

  /** `results.slice(0, n)`: a negative `n` counts back from the end. */
  function SliceTo(s: seq<SearchResult>, n: int): (r: seq<SearchResult>)
    ensures |r| <= |s| && r == s[..|r|]
    ensures n >= 0 ==> |r| == if n < |s| then n else |s|
    ensures n < 0 ==> |r| == if |s| + n > 0 then |s| + n else 0
  {
    var end := if n < 0 then (if |s| + n > 0 then |s| + n else 0)
               else if n < |s| then n else |s|;
    s[..end]
  }

  /** What `parseSearchResults(html, n)` returns for a page. */
  function Extract(page: seq<Container>, n: int): seq<SearchResult> {
    SliceTo(Kept(page), n)
  }

  /** At most `n` results, all admissible, a prefix of the kept results in
      document order. */
  lemma ExtractBounds(page: seq<Container>, n: int)
    ensures n >= 0 ==> |Extract(page, n)| <= n
    ensures |Extract(page, n)| <= |page|
    ensures forall k :: 0 <= k < |Extract(page, n)| ==> Admissible(Extract(page, n)[k])
    ensures Extract(page, n) == Kept(page)[..|Extract(page, n)|]
  {
  }

  /** A page with no containers, or none that pass, yields no results. */
  lemma ExtractNothing(page: seq<Container>, n: int)
    requires forall i :: 0 <= i < |page| ==> Admit(page[i]).None?
    ensures Extract(page, n) == []
  {
    if |Kept(page)| > 0 {
      KeptFromPage(page, 0);
    }
  }

  /** `parseSearchResults`: visits the containers in order, pushes each
      admitted one, then keeps the first `n`. */
  method ParseSearchResults(page: seq<Container>, n: int) returns (results: seq<SearchResult>)
    ensures results == Extract(page, n)
    ensures n >= 0 ==> |results| <= n
    ensures forall k :: 0 <= k < |results| ==> Admissible(results[k])
  {
    var kept: seq<SearchResult> := [];
    for i := 0 to |page|
      invariant kept == Kept(page[..i])
    {
      assert page[..i + 1][..i] == page[..i];
      var c := page[i];
      if c.title.Some? && c.snippet.Some? {
        var url := if c.url.Some? then Some(Trim(c.url.value)) else None;
        var title := Trim(c.title.value);
        var snippet := Trim(c.snippet.value);
        if url.Some? && url.value != [] && title != [] && snippet != [] && Contains(url.value, Domain) {
          kept := kept + [SearchResult(NormalizeUrl(url.value), title, snippet)];
        }
      }
    }
    assert page[..|page|] == page;
    results := SliceTo(kept, n);
  }
}
