/**
 * The `google_scholar_citations` Liquid tag: renders the citation count of
 * one article, memoised by article id in a cache shared by every instance
 * of the tag for the lifetime of the build process.
 *
 * The page fetch (network, HTML parsing) is an input value, and the number
 * formatter `number_to_human` is a function parameter `format`.
 */
module ScholarCitations {
  import opened Wrappers
  import CitedBy
  import Params

  /** The sentinel rendered when the count is unavailable. */
  const NotAvailable: string := "N/A"

  /**
   * What one fetch attempt produced: an `OpenURI::HTTPError`, any other
   * `StandardError`, or a parsed page with the text of its `<body>`
   * (nil when the page has no `<body>`).
   */
  datatype FetchOutcome = HttpError | OtherError | Page(body: Option<string>)

  /** Resolution of a variable name in the Liquid context: its value, or nil when unbound. */
  function Resolve(context: map<string, string>, name: string): (v: Option<string>)
    ensures v.Some? <==> name in context
    ensures v.Some? ==> v.value == context[name]
  {
    if name in context then Some(context[name]) else None
  }

  /**
   * The count a fetched page yields: `body&.text&.match(...)` is nil both for
   * a page without `<body>` and for a body where the pattern does not match,
   * and nil leaves the count at 0.
   */
  function PageCount(body: Option<string>): (n: nat)
    ensures body.None? ==> n == 0
    ensures body.Some? && (forall i :: !CitedBy.MatchesAt(body.value, i)) ==> n == 0
    ensures body.Some? ==> forall i :: CitedBy.LeftmostMatch(body.value, i) ==>
      n == CitedBy.DigitsValue(CitedBy.Group(body.value, i))
  {
    match body
    case None => 0
    case Some(text) => CitedBy.CitedByCount(text)
  }

  /** The string one fetch attempt renders: the formatted count, or "N/A" on any error. */
  function FetchResult(fetch: FetchOutcome, format: nat -> string): (r: string)
    ensures fetch.HttpError? || fetch.OtherError? ==> r == NotAvailable
    ensures fetch.Page? ==> r == format(PageCount(fetch.body))
  {
    match fetch
    case HttpError => NotAvailable
    case OtherError => NotAvailable
    case Page(body) => format(PageCount(body))
  }

  /** The rendered string, the cache afterwards, and whether a fetch was made. */
  datatype Outcome = Outcome(result: string, citations: map<string, string>, fetched: bool)

  /**
   * One render on resolved ids against cache `citations`. Only nil ids are
   * rejected, without touching the cache; a cached article is answered from
   * the cache; otherwise the fetch result, failures included, is stored
   * under the article id.
   */
  function Step(citations: map<string, string>, scholarId: Option<string>, articleId: Option<string>,
                fetch: FetchOutcome, format: nat -> string): (o: Outcome)
    ensures scholarId.None? || articleId.None? ==> o == Outcome(NotAvailable, citations, false)
    ensures scholarId.Some? && articleId.Some? ==>
      o.citations == citations[articleId.value := o.result] &&
      o.fetched == (articleId.value !in citations) &&
      o.result == (if o.fetched then FetchResult(fetch, format) else citations[articleId.value])
  {
    if scholarId.None? || articleId.None? then
      Outcome(NotAvailable, citations, false)
    else if articleId.value in citations then
      Outcome(citations[articleId.value], citations, false)
    else
      var value := FetchResult(fetch, format);
      Outcome(value, citations[articleId.value := value], true)
  }

  /**
   * Lines 50-57 of `render`: the count starts at 0 and is replaced by the
   * captured digits' value when the body exists and the pattern matches.
   */
  method ExtractCount(body: Option<string>) returns (count: nat)
    ensures count == PageCount(body)
  {
    count := 0;
    var citedByMatch := if body.Some? then CitedBy.Capture(body.value) else None;
    if citedByMatch.Some? {
      count := CitedBy.DigitsValue(citedByMatch.value);
    }
  }

  /** The class-level hash `Citations`, shared by all instances of the tag. */
  class CitationCache {
    var citations: map<string, string>

    constructor ()
      ensures citations == map[]
    {
      citations := map[];
    }
  }

  class GoogleScholarCitationsTag {
    /** Name of the context variable holding the scholar id (`@scholar_id`). */
    const scholarVar: Option<string>
    /** Name of the context variable holding the article id (`@article_id`). */
    const articleVar: Option<string>

    /** `initialize`: splits the tag parameters into the two variable names. */
    constructor (params: string)
      ensures Params.TagParams(scholarVar, articleVar) == Params.ParseParams(params)
    {
      var p := Params.ParseParams(params);
      scholarVar := p.scholarVar;
      articleVar := p.articleVar;
    }

    /**
     * `render`: resolves both ids in `context`, then answers from `cache`
     * or from the one fetch attempt `fetch`, storing its result. `fetched`
     * reports whether the fetch was made.
     */
    method Render(context: map<string, string>, cache: CitationCache, fetch: FetchOutcome, format: nat -> string)
      returns (r: string, fetched: bool)
      requires scholarVar.Some? && articleVar.Some?
      modifies cache
      ensures Outcome(r, cache.citations, fetched)
           == Step(old(cache.citations), Resolve(context, Params.Strip(scholarVar.value)),
                   Resolve(context, Params.Strip(articleVar.value)), fetch, format)
    {
      var scholarId := Resolve(context, Params.Strip(scholarVar.value));
      var articleId := Resolve(context, Params.Strip(articleVar.value));
      if scholarId.None? || articleId.None? {
        return NotAvailable, false;
      }
      var key := articleId.value;
      if key in cache.citations {
        return cache.citations[key], false;
      }
      fetched := true;
      var citationCount: string;
      match fetch {
        case HttpError =>
          citationCount := NotAvailable;
        case OtherError =>
          citationCount := NotAvailable;
        case Page(body) =>
          var count := ExtractCount(body);
          citationCount := format(count);
      }
      assert citationCount == FetchResult(fetch, format);
      cache.citations := cache.citations[key := citationCount];
      r := citationCount;
    }
  }

  /** A nil id renders "N/A", makes no fetch and leaves the cache as it was. */
  lemma MissingIdRendersNotAvailable(citations: map<string, string>, scholarId: Option<string>,
                                     articleId: Option<string>, fetch: FetchOutcome, format: nat -> string)
    requires scholarId.None? || articleId.None?
    ensures Step(citations, scholarId, articleId, fetch, format) == Outcome(NotAvailable, citations, false)
  {
  }

  /** Only nil is rejected: empty ids go on to the cache and the fetch. */
  lemma EmptyIdsAreNotMissing(citations: map<string, string>, fetch: FetchOutcome, format: nat -> string)
    requires "" !in citations
    ensures Step(citations, Some(""), Some(""), fetch, format).fetched
  {
  }

  /** A cached article is answered with the stored string, with no fetch and no change. */
  lemma CacheHitReturnsStored(citations: map<string, string>, scholarId: string, articleId: string,
                              fetch: FetchOutcome, format: nat -> string)
    requires articleId in citations
    ensures Step(citations, Some(scholarId), Some(articleId), fetch, format)
         == Outcome(citations[articleId], citations, false)
  {
  }

  /**
   * After a render with both ids present, the cache maps the article id to the
   * rendered string and no other entry differs; the fetch happens exactly on a miss.
   */
  lemma RenderStoresResult(citations: map<string, string>, scholarId: string, articleId: string,
                           fetch: FetchOutcome, format: nat -> string)
    ensures var o := Step(citations, Some(scholarId), Some(articleId), fetch, format);
      o.citations == citations[articleId := o.result] && o.fetched == (articleId !in citations)
  {
    if articleId in citations {
      assert citations[articleId := citations[articleId]] == citations;
    }
  }

  /**
   * A miss on a page fetch renders the formatted count of the page; a page
   * without `<body>` or without the pattern renders the formatted 0.
   */
  lemma MissRendersFormattedCount(citations: map<string, string>, scholarId: string, articleId: string,
                                  body: Option<string>, format: nat -> string)
    requires articleId !in citations
    ensures var o := Step(citations, Some(scholarId), Some(articleId), Page(body), format);
      o.result == format(PageCount(body))
    ensures body.None? || (forall i :: !CitedBy.MatchesAt(body.value, i)) ==>
      Step(citations, Some(scholarId), Some(articleId), Page(body), format).result == format(0)
  {
  }

  /**
   * A failed fetch renders "N/A" and caches it, so the next render of the same
   * article, under any scholar id, is "N/A" again without a fetch.
   */
  lemma FailureIsCached(citations: map<string, string>, scholarId: string, articleId: string,
                        fetch: FetchOutcome, format: nat -> string,
                        laterScholarId: string, laterFetch: FetchOutcome)
    requires articleId !in citations
    requires fetch.HttpError? || fetch.OtherError?
    ensures var o := Step(citations, Some(scholarId), Some(articleId), fetch, format);
      o.result == NotAvailable && o.fetched && o.citations[articleId] == NotAvailable &&
      Step(o.citations, Some(laterScholarId), Some(articleId), laterFetch, format)
        == Outcome(NotAvailable, o.citations, false)
  {
  }

  /**
   * Once a render with both ids present has run, every later render of that
   * article id returns the same string, whatever the scholar id and fetch
   * outcome, without a fetch and without changing the cache.
   */
  lemma RenderAgainIsCached(citations: map<string, string>, scholarId: string, articleId: string,
                            fetch: FetchOutcome, format: nat -> string,
                            laterScholarId: string, laterFetch: FetchOutcome)
    ensures var o := Step(citations, Some(scholarId), Some(articleId), fetch, format);
      Step(o.citations, Some(laterScholarId), Some(articleId), laterFetch, format)
        == Outcome(o.result, o.citations, false)
  {
  }

  /** One render request of a build: the resolved ids and what its fetch would produce. */
  datatype Request = Request(scholarId: Option<string>, articleId: Option<string>, fetch: FetchOutcome)

  /** The renders of a build in order: the cache at the end and the article ids fetched, in order. */
  function Run(citations: map<string, string>, requests: seq<Request>, format: nat -> string)
    : (map<string, string>, seq<string>)
    decreases |requests|
  {
    if requests == [] then (citations, [])
    else
      var q := requests[0];
      var o := Step(citations, q.scholarId, q.articleId, q.fetch, format);
      var (final, fetchedIds) := Run(o.citations, requests[1..], format);
      (final, (if o.fetched then [q.articleId.value] else []) + fetchedIds)
  }

  /** A cached entry is never replaced or removed: cached is terminal for the process. */
  lemma {:induction false} CachedEntryIsFinal(citations: map<string, string>, requests: seq<Request>,
                                               format: nat -> string, articleId: string)
    requires articleId in citations
    ensures var (final, _) := Run(citations, requests, format);
      articleId in final && final[articleId] == citations[articleId]
    decreases |requests|
  {
    if requests != [] {
      var q := requests[0];
      var o := Step(citations, q.scholarId, q.articleId, q.fetch, format);
      CachedEntryIsFinal(o.citations, requests[1..], format, articleId);
    }
  }

  /** No article id occurs twice. */
  predicate Distinct(ids: seq<string>) {
    forall i, j :: 0 <= i < j < |ids| ==> ids[i] != ids[j]
  }

  lemma DistinctCons(a: string, ids: seq<string>)
    requires Distinct(ids) && a !in ids
    ensures Distinct([a] + ids)
  {
    var s := [a] + ids;
    forall i, j | 0 <= i < j < |s| ensures s[i] != s[j] {
      assert s[j] == ids[j - 1];
      if i > 0 { assert s[i] == ids[i - 1]; }
    }
  }

  /**
   * Over any sequence of renders, each article id is fetched at most once, only
   * if it was not cached at the start, and is cached at the end.
   */
  lemma {:induction false} AtMostOneFetchPerArticle(citations: map<string, string>, requests: seq<Request>,
                                                     format: nat -> string)
    ensures Distinct(Run(citations, requests, format).1)
    ensures forall a :: a in Run(citations, requests, format).1 ==>
      a !in citations && a in Run(citations, requests, format).0
    decreases |requests|
  {
    if requests != [] {
      var q := requests[0];
      var o := Step(citations, q.scholarId, q.articleId, q.fetch, format);
      AtMostOneFetchPerArticle(o.citations, requests[1..], format);
      var (final, rest) := Run(o.citations, requests[1..], format);
      assert citations.Keys <= o.citations.Keys;
      if o.fetched {
        var a := q.articleId.value;
        CachedEntryIsFinal(o.citations, requests[1..], format, a);
        assert a !in citations && a in o.citations && a !in rest;
        DistinctCons(a, rest);
        assert Run(citations, requests, format) == (final, [a] + rest);
      } else {
        assert [] + rest == rest;
        assert Run(citations, requests, format) == (final, rest);
      }
    }
  }
}
