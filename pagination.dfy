/**
 * Cursor pagination over the subscribed-pulses listing (`fetch_pulses`). The
 * remote feed is a pure function from a request to a response; each page
 * names the URL of the next one, the query parameters travel only with the
 * first request, and any status other than 200 ends the extraction with an
 * error.
 */
module Pagination {
  import opened JsonValue

  const OtxBase: string := "https://otx.alienvault.com"
  const PulsesSubscribed: string := "/api/v1/pulses/subscribed"

  /** `urljoin` of a bare origin and an absolute path is their concatenation. */
  const FirstUrl: string := OtxBase + PulsesSubscribed

  const StatusOk: int := 200

  /** The query parameters `limit` and, when set, `modified_since`. */
  datatype Params = Params(limit: int, modifiedSince: Option<string>)

  datatype Request = Request(url: string, params: Option<Params>)

  /** One page of the listing: its `results` and its `next` link. */
  datatype Page = Page(results: seq<seq<Field>>, next: Option<string>)

  datatype Response = Response(status: int, page: Page)

  /** `{"limit": limit}`, with `modified_since` added only when it is a non-empty string. */
  function FirstParams(limit: int, modifiedSince: Option<string>): (p: Params)
    ensures p.limit == limit
    ensures modifiedSince.Some? && modifiedSince.value != "" ==> p.modifiedSince == modifiedSince
    ensures modifiedSince.None? || modifiedSince.value == "" ==> p.modifiedSince.None?
  {
    if modifiedSince.Some? && modifiedSince.value != "" then Params(limit, modifiedSince)
    else Params(limit, None)
  }

  /** `while url`: the page links to a further page. */
  predicate HasNext(p: Page)
  {
    p.next.Some? && p.next.value != ""
  }

  function NextUrl(p: Page): string
  {
    if p.next.Some? then p.next.value else ""
  }

  /**
   * The request that fetches page `i` after `pages[..i]` were received: the
   * first goes to the listing endpoint with the parameters, every later one to
   * the previous page's `next` link without parameters.
   */
  function RequestAt(p0: Params, pages: seq<Page>, i: nat): Request
    requires i <= |pages|
  {
    if i == 0 then Request(FirstUrl, Some(p0)) else Request(NextUrl(pages[i - 1]), None)
  }

  /**
   * Each page is the successful answer to the request built from the page
   * before it, and every page but the last links to a further one.
   */
  ghost predicate Linked(server: Request -> Response, p0: Params, pages: seq<Page>)
    decreases |pages|
  {
    pages == [] ||
    var n := |pages| - 1;
    Linked(server, p0, pages[..n]) && (n == 0 || HasNext(pages[n - 1]))
    && server(RequestAt(p0, pages, n)) == Response(StatusOk, pages[n])
  }

  /** The last page has no further link. */
  predicate Finished(pages: seq<Page>)
  {
    |pages| > 0 && !HasNext(pages[|pages| - 1])
  }

  /** Another page was due, and the request for it was answered with an error status. */
  ghost predicate FailsNext(server: Request -> Response, p0: Params, pages: seq<Page>)
  {
    !Finished(pages) && server(RequestAt(p0, pages, |pages|)).status != StatusOk
  }

  /** A complete extraction: linked pages that end either at the last page or at an error. */
  ghost predicate Stops(server: Request -> Response, p0: Params, pages: seq<Page>)
  {
    Linked(server, p0, pages) && (Finished(pages) || FailsNext(server, p0, pages))
  }

  /** Every prefix of a linked sequence of pages is linked. */
  lemma {:induction false} LinkedTruncate(server: Request -> Response, p0: Params, pages: seq<Page>, m: nat)
    requires Linked(server, p0, pages) && m <= |pages|
    ensures Linked(server, p0, pages[..m])
    decreases |pages|
  {
    if m < |pages| {
      var n := |pages| - 1;
      assert pages[..n][..m] == pages[..m];
      LinkedTruncate(server, p0, pages[..n], m);
    } else {
      assert pages[..m] == pages;
    }
  }

  /** Two linked sequences of the same length are equal: the server is deterministic. */
  lemma {:induction false} LinkedSameLength(server: Request -> Response, p0: Params, a: seq<Page>, b: seq<Page>)
    requires Linked(server, p0, a) && Linked(server, p0, b) && |a| == |b|
    ensures a == b
    decreases |a|
  {
    if a != [] {
      var n := |a| - 1;
      LinkedSameLength(server, p0, a[..n], b[..n]);
      assert a[..n] == b[..n];
      if n > 0 {
        assert a[n - 1] == a[..n][n - 1] && b[n - 1] == b[..n][n - 1];
      }
      assert RequestAt(p0, a, n) == RequestAt(p0, b, n);
      assert a == a[..n] + [a[n]] && b == b[..n] + [b[n]];
    }
  }

  /** Two linked sequences agree as far as both go. */
  lemma LinkedPrefix(server: Request -> Response, p0: Params, a: seq<Page>, b: seq<Page>)
    requires Linked(server, p0, a) && Linked(server, p0, b) && |a| <= |b|
    ensures a == b[..|a|]
  {
    LinkedTruncate(server, p0, b, |a|);
    LinkedSameLength(server, p0, a, b[..|a|]);
  }

  /** No linked sequence of pages goes past a complete extraction. */
  lemma StopsMaximal(server: Request -> Response, p0: Params, a: seq<Page>, b: seq<Page>)
    requires Stops(server, p0, a) && Linked(server, p0, b)
    ensures |b| <= |a|
  {
    if |a| < |b| {
      LinkedPrefix(server, p0, a, b);
      LinkedTruncate(server, p0, b, |a| + 1);
      LinkedNext(server, p0, a, b[..|a| + 1]);
    }
  }

  /** A linked sequence one page longer than `a` and starting with `a` holds the successful answer to the request after `a`. */
  lemma LinkedNext(server: Request -> Response, p0: Params, a: seq<Page>, c: seq<Page>)
    requires Linked(server, p0, c) && |c| == |a| + 1 && c[..|a|] == a
    ensures a == [] || HasNext(a[|a| - 1])
    ensures server(RequestAt(p0, a, |a|)) == Response(StatusOk, c[|a|])
  {
    if a != [] {
      assert a[|a| - 1] == c[|a| - 1];
    }
    assert RequestAt(p0, a, |a|) == RequestAt(p0, c, |a|);
  }

  /** There is only one complete extraction: the chain is followed to its end and nowhere else. */
  lemma StopsUnique(server: Request -> Response, p0: Params, a: seq<Page>, b: seq<Page>)
    requires Stops(server, p0, a) && Stops(server, p0, b)
    ensures a == b
  {
    StopsMaximal(server, p0, a, b);
    StopsMaximal(server, p0, b, a);
    LinkedSameLength(server, p0, a, b);
  }

  /** No query string in the listing endpoint, so the first request carries the parameters. */
  lemma FirstUrlHasNoQuery()
    ensures '?' !in FirstUrl
  {
    assert '?' !in OtxBase;
    assert '?' !in PulsesSubscribed;
  }

  /** A page answering the request that follows a linked sequence extends it. */
  lemma LinkedSnoc(server: Request -> Response, p0: Params, pages: seq<Page>, page: Page)
    requires Linked(server, p0, pages)
    requires pages == [] || HasNext(pages[|pages| - 1])
    requires server(RequestAt(p0, pages, |pages|)) == Response(StatusOk, page)
    ensures Linked(server, p0, pages + [page])
  {
    var next := pages + [page];
    assert next[..|pages|] == pages;
    assert RequestAt(p0, next, |pages|) == RequestAt(p0, pages, |pages|);
  }

  /**
   * One more successful page along a chain that stops: the page is the next one
   * of the chain.
   */
  lemma ChainStep(server: Request -> Response, p0: Params, chain: seq<Page>, pages: seq<Page>, page: Page)
    requires Stops(server, p0, chain)
    requires Linked(server, p0, pages + [page])
    ensures |pages| < |chain| && pages + [page] == chain[..|pages| + 1]
  {
    StopsMaximal(server, p0, chain, pages + [page]);
    LinkedPrefix(server, p0, pages + [page], chain);
  }

  /** The request log stays in step with the pages as one more page arrives. */
  lemma RequestLogStep(p0: Params, pages: seq<Page>, page: Page, requests: seq<Request>)
    requires |requests| == |pages| + 1
    requires forall i :: 0 <= i < |requests| ==> requests[i] == RequestAt(p0, pages, i)
    ensures forall i :: 0 <= i < |requests| ==> requests[i] == RequestAt(p0, pages + [page], i)
  {
    forall i | 0 <= i < |requests| ensures requests[i] == RequestAt(p0, pages + [page], i) {
      if i > 0 {
        assert (pages + [page])[i - 1] == pages[i - 1];
      }
    }
  }

  /**
   * `fetch_pulses`: follows the `next` links from the listing endpoint and
   * returns the pages received, the requests sent, and the status of the
   * response that aborted the extraction, if one did. The parameters go with
   * the first request only. The extraction must stop (the chain of links is
   * finite and acyclic, or ends at an error).
   */
  method FetchPulses(server: Request -> Response, limit: int, modifiedSince: Option<string>)
    returns (pages: seq<Page>, requests: seq<Request>, failure: Option<int>)
    requires exists chain :: Stops(server, FirstParams(limit, modifiedSince), chain)
    ensures Linked(server, FirstParams(limit, modifiedSince), pages)
    ensures failure.None? ==> Finished(pages)
    ensures failure.Some? ==> FailsNext(server, FirstParams(limit, modifiedSince), pages)
    ensures failure.Some? ==> failure.value == server(RequestAt(FirstParams(limit, modifiedSince), pages, |pages|)).status
    ensures |requests| == |pages| + (if failure.Some? then 1 else 0)
    ensures forall i :: 0 <= i < |requests| ==> requests[i] == RequestAt(FirstParams(limit, modifiedSince), pages, i)
    ensures requests[0] == Request(FirstUrl, Some(FirstParams(limit, modifiedSince)))
    ensures forall i :: 0 < i < |requests| ==> requests[i].params.None?
  {
    var p0 := FirstParams(limit, modifiedSince);
    ghost var chain :| Stops(server, p0, chain);
    FirstUrlHasNoQuery();
    var params: Option<Params> := Some(p0);
    var url := FirstUrl;
    pages, requests, failure := [], [], None;
    while url != ""
      invariant Linked(server, p0, pages)
      invariant |pages| <= |chain| && pages == chain[..|pages|]
      invariant url == (if pages == [] then FirstUrl else NextUrl(pages[|pages| - 1]))
      invariant params == (if pages == [] then Some(p0) else None)
      invariant |requests| == |pages|
      invariant forall i :: 0 <= i < |requests| ==> requests[i] == RequestAt(p0, pages, i)
      decreases |chain| - |pages|
    {
      var req := Request(url, if '?' in url then None else params);
      assert req == RequestAt(p0, pages, |pages|);
      var resp := server(req);
      requests := requests + [req];
      if resp.status != StatusOk {
        failure := Some(resp.status);
        return;
      }
      LinkedSnoc(server, p0, pages, resp.page);
      ChainStep(server, p0, chain, pages, resp.page);
      RequestLogStep(p0, pages, resp.page, requests);
      pages := pages + [resp.page];
      url := NextUrl(resp.page);
      params := None;
    }
  }

  /**
   * A chain of pages whose last `next` is absent or empty is extracted exactly:
   * those pages, in order, and no error.
   */
  lemma FetchYieldsChain(server: Request -> Response, p0: Params, chain: seq<Page>, pages: seq<Page>, failure: Option<int>)
    requires Linked(server, p0, chain) && Finished(chain)
    requires Linked(server, p0, pages)
    requires failure.None? ==> Finished(pages)
    requires failure.Some? ==> FailsNext(server, p0, pages)
    ensures pages == chain && failure.None? && |pages| == |chain|
  {
    StopsUnique(server, p0, chain, pages);
  }

  /**
   * When the request for page `|good|` is answered with a non-200 status, the
   * extraction reports that status and yields only the pages before it.
   */
  lemma FetchStopsAtError(server: Request -> Response, p0: Params, good: seq<Page>, pages: seq<Page>, failure: Option<int>)
    requires Linked(server, p0, good) && !Finished(good)
    requires server(RequestAt(p0, good, |good|)).status != StatusOk
    requires Linked(server, p0, pages)
    requires failure.None? ==> Finished(pages)
    requires failure.Some? ==> FailsNext(server, p0, pages)
    requires failure.Some? ==> failure.value == server(RequestAt(p0, pages, |pages|)).status
    ensures pages == good
    ensures failure == Some(server(RequestAt(p0, good, |good|)).status)
  {
    StopsUnique(server, p0, good, pages);
  }
}
