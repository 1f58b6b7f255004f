/** Authenticated calls to the account API and the batched metadata lookup
    (src/utils.rs). The network is a parameter: a request is answered by a
    sequence of replies, one per attempt, and a batch lookup by a function
    from endpoint to the final outcome of its request. */
module Requests {
  import opened Prelude
  import opened Entities

  const ApiBase: string := "https://api.guildwars2.com/v2/"
  const BearerPrefix: string := "Bearer "

  /** What is sent: the full URL and the `Authorization` header value. */
  datatype HttpRequest = HttpRequest(url: string, authorization: string)

  function MakeRequest(apiKey: string, endpoint: string): (q: HttpRequest)
    ensures |q.url| == |ApiBase| + |endpoint| && |q.authorization| == |BearerPrefix| + |apiKey|
    ensures q.url[..|ApiBase|] == ApiBase && q.url[|ApiBase|..] == endpoint
    ensures q.authorization[..|BearerPrefix|] == BearerPrefix && q.authorization[|BearerPrefix|..] == apiKey
  {
    HttpRequest(ApiBase + endpoint, BearerPrefix + apiKey)
  }

  /** The reply to one attempt: a decoded body, a body that does not decode,
      an HTTP error status, or a transport failure. */
  datatype Reply<T> = Body(value: T) | Malformed | Status(code: nat) | Transport

  const TooManyRequests: nat := 429

  /** The result of `request`: a value, the reply that ended it in an error,
      or, when every reply so far was 429, a call still retrying. */
  datatype Outcome<T> = Done(value: T) | Failed(reply: Reply<T>) | Retrying

  predicate IsThrottled<T>(r: Reply<T>) {
    r.Status? && r.code == TooManyRequests
  }

  /** `request`: a 429 reply repeats the identical request after a pause,
      without limit; the first other reply decides the outcome. */
  function Perform<T>(replies: seq<Reply<T>>): (o: Outcome<T>)
    ensures o.Retrying? <==> forall k :: 0 <= k < |replies| ==> IsThrottled(replies[k])
    ensures o.Failed? ==> !o.reply.Body? && !IsThrottled(o.reply)
    decreases |replies|
  {
    if |replies| == 0 then Retrying
    else match replies[0]
      case Body(v) => Done(v)
      case Status(code) =>
        if code == TooManyRequests then
          var o := Perform(replies[1..]);
          assert forall k :: 1 <= k < |replies| ==> replies[k] == replies[1..][k - 1];
          o
        else Failed(replies[0])
      case _ => Failed(replies[0])
  }

  /** The number of attempts made: one more than the run of 429 replies. */
  function Attempts<T>(replies: seq<Reply<T>>): (n: nat)
    ensures n <= |replies|
    decreases |replies|
  {
    if |replies| == 0 then 0
    else if IsThrottled(replies[0]) then 1 + Attempts(replies[1..])
    else 1
  }

  function Throttled<T>(n: nat): (s: seq<Reply<T>>)
    ensures |s| == n && forall k :: 0 <= k < n ==> IsThrottled(s[k])
  {
    seq(n, k => Status(TooManyRequests))
  }

  /** There is no retry cap: after any number of 429 replies, the first
      other reply is still reached and decides the outcome. */
  lemma {:induction false} RetryUnbounded<T>(n: nat, last: Reply<T>, later: seq<Reply<T>>)
    requires !IsThrottled(last)
    ensures Perform(Throttled<T>(n) + [last] + later) == (if last.Body? then Done(last.value) else Failed(last))
    ensures Attempts(Throttled<T>(n) + [last] + later) == n + 1
    decreases n
  {
    var s := Throttled<T>(n) + [last] + later;
    if n > 0 {
      assert s[1..] == Throttled<T>(n - 1) + [last] + later;
      RetryUnbounded(n - 1, last, later);
    } else {
      assert s[0] == last;
    }
  }

  /** Any reply other than 429 on the first attempt ends the call at once. */
  lemma ErrorsAreNotRetried<T>(replies: seq<Reply<T>>)
    requires |replies| > 0 && !IsThrottled(replies[0]) && !replies[0].Body?
    ensures Perform(replies) == Failed(replies[0]) && Attempts(replies) == 1
  {
  }

  /* ---------------- batched metadata lookup ---------------- */

  /** The API's limit on ids per `items` call. */
  const ChunkSize: nat := 200

  /** `slice::chunks(200)`: consecutive pieces of at most 200 elements, all
      full except possibly the last. */
  function Chunks<T>(xs: seq<T>): (cs: seq<seq<T>>)
    ensures forall k :: 0 <= k < |cs| ==> 0 < |cs[k]| <= ChunkSize
    ensures forall k :: 0 <= k < |cs| - 1 ==> |cs[k]| == ChunkSize
    ensures |cs| == (|xs| + ChunkSize - 1) / ChunkSize
    decreases |xs|
  {
    if |xs| == 0 then []
    else if |xs| <= ChunkSize then [xs]
    else [xs[..ChunkSize]] + Chunks(xs[ChunkSize..])
  }

  function Concat<T>(css: seq<seq<T>>): seq<T> {
    if |css| == 0 then [] else css[0] + Concat(css[1..])
  }

  /** Chunking loses and reorders nothing. */
  lemma {:induction false} ChunksConcat<T>(xs: seq<T>)
    ensures Concat(Chunks(xs)) == xs
    decreases |xs|
  {
    if |xs| > ChunkSize {
      ChunksConcat(xs[ChunkSize..]);
      assert xs[..ChunkSize] + xs[ChunkSize..] == xs;
    } else if |xs| > 0 {
      assert Concat(Chunks(xs)) == xs + Concat<T>([]);
    }
  }

  const ItemsEndpointPrefix: string := "items?lang=en&ids="

  /** The ids in decimal. */
  function IdList(ids: seq<nat>): seq<string> {
    MapSeq(ids, NatToString)
  }

  /** The endpoint for one chunk: the ids in decimal, comma separated. */
  function ItemsEndpoint(ids: seq<nat>): (e: string)
    ensures |e| >= |ItemsEndpointPrefix| && e[..|ItemsEndpointPrefix|] == ItemsEndpointPrefix
  {
    ItemsEndpointPrefix + Join(IdList(ids), ',')
  }

  /** A comma-joined id list reads back as the ids it was built from. */
  lemma IdListParses(ids: seq<nat>)
    requires |ids| > 0
    ensures var parts := Split(Join(IdList(ids), ','), ',');
      |parts| == |ids| &&
      forall k :: 0 <= k < |ids| ==> (forall i :: 0 <= i < |parts[k]| ==> IsDigit(parts[k][i])) && ParseNat(parts[k]) == ids[k]
  {
    var names := IdList(ids);
    SplitJoin(names, ',');
    forall k | 0 <= k < |ids| ensures ParseNat(names[k]) == ids[k] {
      ParseNatToString(ids[k]);
    }
  }

  /** The ids of a chunk can be read back from its endpoint, so every chunk
      asks for exactly its own ids, in order. */
  lemma ItemsEndpointIds(ids: seq<nat>)
    requires |ids| > 0
    ensures var parts := Split(ItemsEndpoint(ids)[|ItemsEndpointPrefix|..], ',');
      |parts| == |ids| &&
      forall k :: 0 <= k < |ids| ==> (forall i :: 0 <= i < |parts[k]| ==> IsDigit(parts[k][i])) && ParseNat(parts[k]) == ids[k]
  {
    assert ItemsEndpoint(ids)[|ItemsEndpointPrefix|..] == Join(IdList(ids), ',');
    IdListParses(ids);
  }

  /** `fetch_items`: one call per chunk; a chunk whose call fails is dropped
      without a trace, the others' items are concatenated in chunk order. */
  function FetchItems(ids: seq<nat>, api: string -> Option<seq<Gw2Item>>): seq<Gw2Item> {
    FetchChunks(Chunks(ids), api)
  }

  function FetchChunks(chunks: seq<seq<nat>>, api: string -> Option<seq<Gw2Item>>): (items: seq<Gw2Item>)
    ensures (forall k :: 0 <= k < |chunks| ==> api(ItemsEndpoint(chunks[k])).None?) ==> items == []
  {
    if |chunks| == 0 then []
    else api(ItemsEndpoint(chunks[0])).GetOr([]) + FetchChunks(chunks[1..], api)
  }

  /** The endpoints called: one per chunk, in chunk order; none for no ids. */
  function Endpoints(ids: seq<nat>): (es: seq<string>)
    ensures |ids| == 0 ==> es == []
    ensures |es| == (|ids| + ChunkSize - 1) / ChunkSize
  {
    MapSeq(Chunks(ids), ItemsEndpoint)
  }

  /** The items each call returns, nothing for a call that failed. */
  function Replies(es: seq<string>, api: string -> Option<seq<Gw2Item>>): (rs: seq<seq<Gw2Item>>)
    ensures |rs| == |es|
    ensures forall k :: 0 <= k < |es| ==> (api(es[k]).Some? ==> rs[k] == api(es[k]).value) && (api(es[k]).None? ==> rs[k] == [])
  {
    seq(|es|, k requires 0 <= k < |es| => api(es[k]).GetOr([]))
  }

  /** The items fetched are exactly what the calls to `Endpoints(ids)`
      return, concatenated in the order of the calls. */
  lemma FetchItemsCallsEndpoints(ids: seq<nat>, api: string -> Option<seq<Gw2Item>>)
    ensures FetchItems(ids, api) == Concat(Replies(Endpoints(ids), api))
  {
    FetchChunksReplies(Chunks(ids), api);
  }

  lemma {:induction false} FetchChunksReplies(chunks: seq<seq<nat>>, api: string -> Option<seq<Gw2Item>>)
    ensures FetchChunks(chunks, api) == Concat(Replies(MapSeq(chunks, ItemsEndpoint), api))
    decreases |chunks|
  {
    if |chunks| > 0 {
      var rest := chunks[1..];
      FetchChunksReplies(rest, api);
      var es := MapSeq(chunks, ItemsEndpoint);
      var esRest := MapSeq(rest, ItemsEndpoint);
      assert es[1..] == esRest;
      assert Replies(es, api)[1..] == Replies(esRest, api);
    }
  }

  /** Results are concatenated in chunk order: the result of a run of
      chunks followed by another is the two results one after the other. */
  lemma {:induction false} FetchChunksAppend(a: seq<seq<nat>>, b: seq<seq<nat>>, api: string -> Option<seq<Gw2Item>>)
    ensures FetchChunks(a + b, api) == FetchChunks(a, api) + FetchChunks(b, api)
    decreases |a|
  {
    if |a| > 0 {
      assert (a + b)[1..] == a[1..] + b;
      FetchChunksAppend(a[1..], b, api);
    } else {
      assert a + b == b;
    }
  }

  /** A single chunk contributes its reply's items, or nothing if its call failed. */
  lemma FetchOneChunk(c: seq<nat>, api: string -> Option<seq<Gw2Item>>)
    ensures FetchChunks([c], api) == (match api(ItemsEndpoint(c)) case Some(items) => items case None => [])
  {
    assert FetchChunks([c], api) == api(ItemsEndpoint(c)).GetOr([]) + FetchChunks([], api);
  }
}
