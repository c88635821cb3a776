/**
 The redirect cap of the HTTP client (`CheckRedirect` in
 `createHTTPClient`), and the chain of requests it governs.

 Go's HTTP client calls the hook before following each redirect, passing the
 requests already made in the chain, oldest first. Returning
 `http.ErrUseLastResponse` makes the client hand back the most recent
 response as the result of the call, without an error.
 */
module Redirect {

  /** Requests in a chain at which the hook stops following. */
  const MaxVia: nat := 10

  datatype Decision = Follow | UseLastResponse

  /** The hook: `via` holds the requests (here, their URLs) made so far. */
  function CheckRedirect(via: seq<string>): Decision {
    if |via| >= MaxVia then UseLastResponse else Follow
  }

  /** What the server answers: a redirect to follow, or anything else. */
  datatype Response = Response(redirects: bool, location: string)

  /** The outcome of one `Get`: the response handed back and the URLs of the
      requests sent, in order. There is no error case: the cap does not fail
      the call. */
  datatype Chain = Chain(response: Response, requests: seq<string>)

  /** Follows the chain after `via` has been sent: `answer(k)` is the
      server's reply to the chain's request number `k` (from 0). */
  function FollowFrom(answer: nat -> Response, via: seq<string>): (c: Chain)
    requires 1 <= |via| <= MaxVia
    ensures via <= c.requests && 1 <= |c.requests| <= MaxVia
    ensures c.response == answer(|c.requests| - 1)
    ensures forall k :: |via| - 1 <= k < |c.requests| - 1 ==>
              answer(k).redirects && c.requests[k + 1] == answer(k).location
    ensures c.response.redirects ==> |c.requests| == MaxVia
    decreases MaxVia - |via|
  {
    var last := answer(|via| - 1);
    if !last.redirects then Chain(last, via)
    else
      match CheckRedirect(via)
      case UseLastResponse => Chain(last, via)
      case Follow => FollowFrom(answer, via + [last.location])
  }

  /** `client.Get(url)` as far as redirects go. */
  function Get(answer: nat -> Response, url: string): (c: Chain)
    ensures 1 <= |c.requests| <= MaxVia && c.requests[0] == url
    ensures c.response == answer(|c.requests| - 1)
    ensures forall k :: 0 <= k < |c.requests| - 1 ==>
              answer(k).redirects && c.requests[k + 1] == answer(k).location
    ensures !c.response.redirects || |c.requests| == MaxVia
  {
    FollowFrom(answer, [url])
  }

  /** A chain of `hops` redirects ending in a final answer completes normally
      when it needs no more than `MaxVia` requests, that is up to 9 hops:
      the final answer is returned. */
  lemma ShortChainCompletes(answer: nat -> Response, url: string, hops: nat)
    requires hops < MaxVia
    requires forall k :: 0 <= k < hops ==> answer(k).redirects
    requires !answer(hops).redirects
    ensures Get(answer, url).response == answer(hops)
    ensures |Get(answer, url).requests| == hops + 1
  {
  }

  /** When every one of the first `MaxVia` answers is a redirect, the client
      sends exactly `MaxVia` requests and returns the last reply, itself a
      redirect, instead of failing. */
  lemma LongChainStopsAtCap(answer: nat -> Response, url: string)
    requires forall k :: 0 <= k < MaxVia ==> answer(k).redirects
    ensures |Get(answer, url).requests| == MaxVia
    ensures Get(answer, url).response == answer(MaxVia - 1)
    ensures Get(answer, url).response.redirects
  {
  }
}
