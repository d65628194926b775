/**
 * The hop loop of `http_get`: the first request follows HTTP redirects by
 * itself; after it, a redirect written into the page (meta refresh, script,
 * canonical link) is followed by hand, at most twice, so a page costs at most
 * three requests. The network and the page-level redirect lookup are inputs.
 */
module Fetcher {
  import opened Text

  /** What one request returns once HTTP redirects are followed: body, headers and the URL it ended at. */
  datatype Response = Response(text: string, headers: map<string, string>, url: string)

  /** What `http_get` returns: the last body and headers, and the final URL. */
  datatype Fetched = Fetched(text: string, headers: map<string, string>, finalUrl: string)

  /** The number of requests the loop may make: `range(1, 4)`. */
  const MaxHops: nat := 3

  /**
   * The page-level redirect the loop follows after a response, if any: a
   * target that is present, non-empty and different from where the response
   * ended.
   */
  function NextTarget(r: Response, redirect: (string, string) -> Option<string>): (t: Option<string>)
    ensures t.Some? ==> t.value != "" && t.value != r.url
  {
    var target := redirect(r.url, r.text);
    if target.Some? && target.value != "" && target.value != r.url then target else None
  }

  /**
   * The loop from hop `hop` on, as a recursive definition. `fetch` answers
   * None when the request raises (connection error or an HTTP error status);
   * the failure propagates. After the last hop a further target still
   * becomes the final URL, though it is not requested.
   */
  function HttpGetFrom(url: string, hop: nat, fetch: string -> Option<Response>,
                       redirect: (string, string) -> Option<string>): Option<Fetched>
    requires 1 <= hop <= MaxHops
    decreases MaxHops - hop
  {
    match fetch(url)
    case None => None
    case Some(r) =>
      match NextTarget(r, redirect)
      case None => Some(Fetched(r.text, r.headers, r.url))
      case Some(t) =>
        if hop == MaxHops then Some(Fetched(r.text, r.headers, t))
        else HttpGetFrom(t, hop + 1, fetch, redirect)
  }

  /** The URLs the loop requests from hop `hop` on, in order. */
  function RequestsFrom(url: string, hop: nat, fetch: string -> Option<Response>,
                        redirect: (string, string) -> Option<string>): (urls: seq<string>)
    requires 1 <= hop <= MaxHops
    ensures 1 <= |urls| <= MaxHops - hop + 1
    ensures urls[0] == url
    decreases MaxHops - hop
  {
    match fetch(url)
    case None => [url]
    case Some(r) =>
      match NextTarget(r, redirect)
      case None => [url]
      case Some(t) =>
        if hop == MaxHops then [url]
        else [url] + RequestsFrom(t, hop + 1, fetch, redirect)
  }

  /**
   * `http_get`: returns the body of the last page requested, or None when a
   * request fails; `requests` lists the URLs requested, in order.
   */
  method HttpGet(url: string, fetch: string -> Option<Response>, redirect: (string, string) -> Option<string>)
    returns (result: Option<Fetched>, requests: seq<string>)
    ensures result == HttpGetFrom(url, 1, fetch, redirect)
    ensures requests == RequestsFrom(url, 1, fetch, redirect)
    ensures 1 <= |requests| <= MaxHops && requests[0] == url
  {
    var finalUrl := url;
    requests := [];
    result := None;
    var hop := 1;
    while hop <= MaxHops
      invariant 1 <= hop <= MaxHops + 1
      invariant hop <= MaxHops ==>
        && HttpGetFrom(url, 1, fetch, redirect) == HttpGetFrom(finalUrl, hop, fetch, redirect)
        && RequestsFrom(url, 1, fetch, redirect) == requests + RequestsFrom(finalUrl, hop, fetch, redirect)
      invariant hop > MaxHops ==>
        result == HttpGetFrom(url, 1, fetch, redirect) && requests == RequestsFrom(url, 1, fetch, redirect)
      decreases MaxHops + 1 - hop
    {
      requests := requests + [finalUrl];
      var r := fetch(finalUrl);
      if r.None? {
        // The request raised: the error leaves http_get.
        return None, requests;
      }
      var text, lastHeaders := r.value.text, r.value.headers;
      ghost var requested := finalUrl;
      finalUrl := r.value.url;
      var target := NextTarget(r.value, redirect);
      if target.Some? {
        finalUrl := target.value;
        if hop == MaxHops {
          result := Some(Fetched(text, lastHeaders, finalUrl));
        } else {
          assert RequestsFrom(requested, hop, fetch, redirect) == [requested] + RequestsFrom(finalUrl, hop + 1, fetch, redirect);
        }
        hop := hop + 1;
        continue;
      }
      return Some(Fetched(text, lastHeaders, finalUrl)), requests;
    }
  }

  /** Request k went to the page-level redirect target of the response to request k - 1. */
  predicate FollowsRedirect(urls: seq<string>, k: int, fetch: string -> Option<Response>,
                            redirect: (string, string) -> Option<string>)
    requires 1 <= k < |urls|
  {
    fetch(urls[k - 1]).Some? && NextTarget(fetch(urls[k - 1]).value, redirect) == Some(urls[k])
  }

  /** Every request after the first goes to the page-level redirect target of the response before it. */
  lemma {:induction false} RequestsFollowRedirects(url: string, hop: nat, fetch: string -> Option<Response>,
                                                   redirect: (string, string) -> Option<string>)
    requires 1 <= hop <= MaxHops
    ensures var urls := RequestsFrom(url, hop, fetch, redirect);
      forall k | 1 <= k < |urls| :: FollowsRedirect(urls, k, fetch, redirect)
    decreases MaxHops - hop
  {
    var urls := RequestsFrom(url, hop, fetch, redirect);
    if |urls| > 1 {
      var t := NextTarget(fetch(url).value, redirect).value;
      RequestsFollowRedirects(t, hop + 1, fetch, redirect);
      var rest := RequestsFrom(t, hop + 1, fetch, redirect);
      assert urls == [url] + rest;
      forall k | 1 <= k < |urls|
        ensures FollowsRedirect(urls, k, fetch, redirect)
      {
        if k > 1 {
          assert urls[k - 1] == rest[k - 2] && urls[k] == rest[k - 1];
          assert FollowsRedirect(rest, k - 1, fetch, redirect);
        }
      }
    }
  }

  /**
   * The result is read from the last URL requested: it fails exactly when
   * that request fails, otherwise it carries that response's body and
   * headers, and its final URL is where the response ended unless a further
   * target was found after the last allowed hop.
   */
  lemma {:induction false} ResultIsLastResponse(url: string, hop: nat, fetch: string -> Option<Response>,
                                                redirect: (string, string) -> Option<string>)
    requires 1 <= hop <= MaxHops
    ensures var urls := RequestsFrom(url, hop, fetch, redirect);
      var last := fetch(urls[|urls| - 1]);
      var result := HttpGetFrom(url, hop, fetch, redirect);
      && (result.None? <==> last.None?)
      && (result.Some? ==> result.value.text == last.value.text && result.value.headers == last.value.headers)
      && (result.Some? && NextTarget(last.value, redirect).None? ==> result.value.finalUrl == last.value.url)
      && (result.Some? && NextTarget(last.value, redirect).Some? ==>
            hop + |urls| - 1 == MaxHops && result.value.finalUrl == NextTarget(last.value, redirect).value)
    decreases MaxHops - hop
  {
    var urls := RequestsFrom(url, hop, fetch, redirect);
    if |urls| > 1 {
      var t := NextTarget(fetch(url).value, redirect).value;
      ResultIsLastResponse(t, hop + 1, fetch, redirect);
      var rest := RequestsFrom(t, hop + 1, fetch, redirect);
      assert urls == [url] + rest;
      assert urls[|urls| - 1] == rest[|rest| - 1];
    }
  }
}
