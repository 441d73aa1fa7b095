/**
 * The two URI-contents caches. Each GET is an attempt against the network,
 * given as an oracle `net(uri, n)`: the outcome of the `n`-th attempt (from
 * 0) to fetch `uri` during one call. A cached body is served from memory
 * without touching the network; every attempt is appended to `requests`.
 *
 * `HttpContents` follows the httplib transport of the repository-level
 * base class, `RequestsContents` the requests-based one of the older base.
 */
module Transport {
  import opened Basics
  import opened Text
  import opened Listing

  /** What one GET yields. */
  datatype Attempt =
    | Reply(status: int, body: Page)
    | DnsFailure          // name resolution failed
    | TimedOut            // no answer within the timeout
    | Refused             // any other connection failure

  type Network = (string, nat) -> Attempt

  /**
   * The pages as the discovery code reads them once fetched: the body the
   * contents cache holds for each URI.
   */
  type Web = string -> Page

  /** `_uri_contents(uri)` of the repository-level base: the page cached under the slash-terminated URI. */
  function Contents(web: Web, uri: string): (p: Page)
    ensures p == web(WithSlash(uri))
    ensures EndsWith(uri, "/") ==> p == web(uri)
  {
    web(WithSlash(uri))
  }

  /** The exception a fetch ends with. */
  datatype FetchError = HostUnreachable | Timeout | ConnectionFailed

  /**
   * The outcome of a call: what it returns (or raises), how many attempts
   * it made, and whether it stores the returned body in the cache.
   */
  datatype Fetched = Fetched(result: Result<Page, FetchError>, attempts: nat, stored: bool)

  /**
   * The httplib retry loop from attempt `n` on: a 200 ends it with the
   * body; any other status tries again; a resolution failure or timeout
   * tries again unless it was the last attempt, which re-raises; any other
   * connection error propagates at once. Running out of attempts without
   * a 200 yields, and caches, the empty body.
   */
  function HttpFetch(net: Network, uri: string, retries: nat, n: nat): (f: Fetched)
    requires n <= retries
    ensures n <= f.attempts <= retries
    ensures f.stored <==> f.result.Ok?
    decreases retries - n
  {
    if n == retries then Fetched(Ok(EmptyPage), n, true)
    else match net(uri, n)
      case Reply(status, body) =>
        if status == 200 then Fetched(Ok(body), n + 1, true)
        else HttpFetch(net, uri, retries, n + 1)
      case DnsFailure =>
        if n >= retries - 1 then Fetched(Err(HostUnreachable), n + 1, false)
        else HttpFetch(net, uri, retries, n + 1)
      case TimedOut =>
        if n >= retries - 1 then Fetched(Err(Timeout), n + 1, false)
        else HttpFetch(net, uri, retries, n + 1)
      case Refused => Fetched(Err(ConnectionFailed), n + 1, false)
  }

  /**
   * The requests retry loop from attempt `n` on: any reply ends it,
   * returning the body of a 200 (the only thing cached) and the empty
   * body otherwise; a connection error tries again unless it was the last
   * attempt, which re-raises; a timeout is swallowed and tries again.
   */
  function RequestsFetch(net: Network, uri: string, retries: nat, n: nat): (f: Fetched)
    requires n <= retries
    ensures n <= f.attempts <= retries
    ensures f.stored ==> f.result.Ok?
    decreases retries - n
  {
    if n == retries then Fetched(Ok(EmptyPage), n, false)
    else match net(uri, n)
      case Reply(status, body) =>
        if status == 200 then Fetched(Ok(body), n + 1, true)
        else Fetched(Ok(EmptyPage), n + 1, false)
      case DnsFailure =>
        if n >= retries - 1 then Fetched(Err(ConnectionFailed), n + 1, false)
        else RequestsFetch(net, uri, retries, n + 1)
      case Refused =>
        if n >= retries - 1 then Fetched(Err(ConnectionFailed), n + 1, false)
        else RequestsFetch(net, uri, retries, n + 1)
      case TimedOut => RequestsFetch(net, uri, retries, n + 1)
  }

  /** `k` copies of `uri`: the requests log of `k` attempts. */
  function Repeat(uri: string, k: nat): (r: seq<string>)
    ensures |r| == k && forall i :: 0 <= i < k ==> r[i] == uri
  {
    seq(k, _ => uri)
  }

  /** The httplib cache, keyed by the URI with a trailing slash. */
  class HttpContents {
    var cache: map<string, Page>
    ghost var requests: seq<string>

    constructor ()
      ensures cache == map[] && requests == []
    {
      cache := map[];
      requests := [];
    }

    /** `_uri_contents(uri, retries)`. */
    method UriContents(net: Network, uri: string, retries: nat) returns (r: Result<Page, FetchError>)
      modifies this
      ensures var key := WithSlash(uri);
              if key in old(cache) then
                r == Ok(old(cache)[key]) && cache == old(cache) && requests == old(requests)
              else
                var f := HttpFetch(net, key, retries, 0);
                && r == f.result
                && cache == (if f.stored then old(cache)[key := r.value] else old(cache))
                && requests == old(requests) + Repeat(key, f.attempts)
    {
      var key := WithSlash(uri);
      if key in cache {
        return Ok(cache[key]);
      }
      var n := 0;
      while n < retries
        invariant n <= retries
        invariant HttpFetch(net, key, retries, n) == HttpFetch(net, key, retries, 0)
        invariant cache == old(cache)
        invariant requests == old(requests) + Repeat(key, n)
        decreases retries - n
      {
        var outcome := net(key, n);
        requests := requests + [key];
        match outcome {
          case Reply(status, body) =>
            if status == 200 {
              cache := cache[key := body];
              return Ok(body);
            }
          case DnsFailure =>
            if n >= retries - 1 {
              return Err(HostUnreachable);
            }
          case TimedOut =>
            if n >= retries - 1 {
              return Err(Timeout);
            }
          case Refused =>
            return Err(ConnectionFailed);
        }
        n := n + 1;
      }
      cache := cache[key := EmptyPage];
      r := Ok(EmptyPage);
    }
  }

  /** The requests cache, keyed by the URI exactly as given. */
  class RequestsContents {
    var cache: map<string, Page>
    ghost var requests: seq<string>

    constructor ()
      ensures cache == map[] && requests == []
    {
      cache := map[];
      requests := [];
    }

    /** `_uri_contents(uri, retries)`. */
    method UriContents(net: Network, uri: string, retries: nat) returns (r: Result<Page, FetchError>)
      modifies this
      ensures if uri in old(cache) then
                r == Ok(old(cache)[uri]) && cache == old(cache) && requests == old(requests)
              else
                var f := RequestsFetch(net, uri, retries, 0);
                && r == f.result
                && cache == (if f.stored then old(cache)[uri := r.value] else old(cache))
                && requests == old(requests) + Repeat(uri, f.attempts)
    {
      if uri in cache {
        return Ok(cache[uri]);
      }
      var n := 0;
      while n < retries
        invariant n <= retries
        invariant RequestsFetch(net, uri, retries, n) == RequestsFetch(net, uri, retries, 0)
        invariant cache == old(cache)
        invariant requests == old(requests) + Repeat(uri, n)
        decreases retries - n
      {
        var outcome := net(uri, n);
        requests := requests + [uri];
        match outcome {
          case Reply(status, body) =>
            if status == 200 {
              cache := cache[uri := body];
              return Ok(body);
            }
            return Ok(EmptyPage);
          case DnsFailure =>
            if n >= retries - 1 {
              return Err(ConnectionFailed);
            }
          case Refused =>
            if n >= retries - 1 {
              return Err(ConnectionFailed);
            }
          case TimedOut =>
        }
        n := n + 1;
      }
      r := Ok(EmptyPage);
    }
  }

  /** Did some attempt of the first `k` answer 200 with `body`? */
  predicate Answered(net: Network, uri: string, k: nat, body: Page)
  {
    exists i :: 0 <= i < k && net(uri, i) == Reply(200, body)
  }

  /**
   * A body the httplib loop returns is the empty body or the body of a
   * 200 reply, and it errs only with the exception of its last attempt.
   */
  lemma {:induction false} HttpFetchSound(net: Network, uri: string, retries: nat, n: nat)
    requires n <= retries
    ensures var f := HttpFetch(net, uri, retries, n);
            && (f.result.Ok? ==> f.result.value == EmptyPage || Answered(net, uri, f.attempts, f.result.value))
            && (f.result == Err(HostUnreachable) ==> f.attempts == retries && net(uri, retries - 1) == DnsFailure)
            && (f.result == Err(Timeout) ==> f.attempts == retries && net(uri, retries - 1) == TimedOut)
            && (f.result == Err(ConnectionFailed) ==> net(uri, f.attempts - 1) == Refused)
    decreases retries - n
  {
    if n < retries {
      var f := HttpFetch(net, uri, retries, n);
      match net(uri, n)
      case Reply(status, body) =>
        if status == 200 {
          assert net(uri, n) == Reply(200, f.result.value);
        } else {
          HttpFetchSound(net, uri, retries, n + 1);
        }
      case DnsFailure =>
        if n < retries - 1 { HttpFetchSound(net, uri, retries, n + 1); }
      case TimedOut =>
        if n < retries - 1 { HttpFetchSound(net, uri, retries, n + 1); }
      case Refused =>
    }
  }

  /** The same for the requests loop; only a 200 body is ever stored. */
  lemma {:induction false} RequestsFetchSound(net: Network, uri: string, retries: nat, n: nat)
    requires n <= retries
    ensures var f := RequestsFetch(net, uri, retries, n);
            && (f.result.Ok? ==> f.result.value == EmptyPage || Answered(net, uri, f.attempts, f.result.value))
            && (f.stored ==> Answered(net, uri, f.attempts, f.result.value))
            && (f.result.Err? ==> f.attempts == retries && net(uri, retries - 1) in {DnsFailure, Refused})
    decreases retries - n
  {
    if n < retries {
      var f := RequestsFetch(net, uri, retries, n);
      match net(uri, n)
      case Reply(status, body) =>
        if status == 200 {
          assert net(uri, n) == Reply(200, f.result.value);
        }
      case DnsFailure =>
        if n < retries - 1 { RequestsFetchSound(net, uri, retries, n + 1); }
      case Refused =>
        if n < retries - 1 { RequestsFetchSound(net, uri, retries, n + 1); }
      case TimedOut =>
        RequestsFetchSound(net, uri, retries, n + 1);
    }
  }

  /** With no retries nothing is requested: httplib caches the empty body, requests does not. */
  lemma NoRetries(net: Network, uri: string)
    ensures HttpFetch(net, uri, 0, 0) == Fetched(Ok(EmptyPage), 0, true)
    ensures RequestsFetch(net, uri, 0, 0) == Fetched(Ok(EmptyPage), 0, false)
  {
  }

  /** A host that always times out: three attempts, then the timeout propagates. */
  lemma {:induction false} HttpAlwaysTimesOut(net: Network, uri: string, retries: nat, n: nat)
    requires 0 < retries && n < retries
    requires forall i :: n <= i < retries ==> net(uri, i) == TimedOut
    ensures HttpFetch(net, uri, retries, n) == Fetched(Err(Timeout), retries, false)
    decreases retries - n
  {
    if n < retries - 1 {
      HttpAlwaysTimesOut(net, uri, retries, n + 1);
    }
  }

  /** A server that only ever answers non-200: every attempt is used and the empty body is cached. */
  lemma {:induction false} HttpNeverOk(net: Network, uri: string, retries: nat, n: nat)
    requires n <= retries
    requires forall i :: n <= i < retries ==> net(uri, i).Reply? && net(uri, i).status != 200
    ensures HttpFetch(net, uri, retries, n) == Fetched(Ok(EmptyPage), retries, true)
    decreases retries - n
  {
    if n < retries {
      HttpNeverOk(net, uri, retries, n + 1);
    }
  }

  /** With requests, every attempt timing out returns the empty body uncached and raises nothing. */
  lemma {:induction false} RequestsAlwaysTimesOut(net: Network, uri: string, retries: nat, n: nat)
    requires n <= retries
    requires forall i :: n <= i < retries ==> net(uri, i) == TimedOut
    ensures RequestsFetch(net, uri, retries, n) == Fetched(Ok(EmptyPage), retries, false)
    decreases retries - n
  {
    if n < retries {
      RequestsAlwaysTimesOut(net, uri, retries, n + 1);
    }
  }

  /** With requests, the first reply ends the loop; a non-200 one gives the empty body, uncached. */
  lemma RequestsStopsOnReply(net: Network, uri: string, retries: nat, status: int, body: Page)
    requires 0 < retries && net(uri, 0) == Reply(status, body)
    ensures RequestsFetch(net, uri, retries, 0).attempts == 1
    ensures status != 200 ==> RequestsFetch(net, uri, retries, 0) == Fetched(Ok(EmptyPage), 1, false)
  {
  }

  /** One timeout and then a 200: the body, after two attempts, on either transport. */
  lemma TimeoutThenSuccess(net: Network, uri: string, body: Page)
    requires net(uri, 0) == TimedOut && net(uri, 1) == Reply(200, body)
    ensures HttpFetch(net, uri, 3, 0) == Fetched(Ok(body), 2, true)
    ensures RequestsFetch(net, uri, 3, 0) == Fetched(Ok(body), 2, true)
  {
    assert HttpFetch(net, uri, 3, 1) == Fetched(Ok(body), 2, true);
    assert RequestsFetch(net, uri, 3, 1) == Fetched(Ok(body), 2, true);
  }

  /**
   * Asking twice for the same page: once the first call has a body, the
   * second returns it without a request of its own.
   */
  method FetchTwice(c: HttpContents, net: Network, uri: string) returns (first: Result<Page, FetchError>, second: Result<Page, FetchError>)
    modifies c
    ensures first.Ok? ==> second == first
    ensures first.Ok? ==>
              var key := WithSlash(uri);
              c.requests == old(c.requests)
                + (if key in old(c.cache) then [] else Repeat(key, HttpFetch(net, key, 3, 0).attempts))
  {
    first := c.UriContents(net, uri, 3);
    second := c.UriContents(net, uri, 3);
  }
}
