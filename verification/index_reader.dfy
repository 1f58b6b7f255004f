/** Searching the local index and publishing a page of results
    (src/index/index_reader.rs). The full-text engine is a parameter: it
    maps the lower-cased query to the ranked hit list, or to `None` when the
    query does not parse. Each hit is the payload its document stores, or
    `None` when the document has no payload. */
module IndexReader {
  import opened Prelude
  import opened Entities
  import opened PlayerItems
  import Requests

  type Hits = seq<Option<ItemRecord>>

  function Min(a: int, b: int): int { if a <= b then a else b }
  function Max(a: int, b: int): int { if a >= b then a else b }

  /** The hits the engine is asked for: `count` of them from offset
      `start`, fewer when the ranking runs out. */
  function Window(hits: Hits, start: nat, count: nat): (w: Hits)
    ensures |w| == Min(count, Max(0, |hits| - start))
    ensures forall k :: 0 <= k < |w| ==> w[k] == hits[start + k]
    ensures forall h :: h in w ==> h in hits
  {
    if start >= |hits| then [] else hits[start..Min(|hits|, start + count)]
  }

  /** The items of the hits that carry a payload, in rank order. */
  function Payloads(w: Hits): (r: seq<PlayerItem>)
    ensures |r| <= |w|
    ensures forall x :: x in r ==> Some(Payload(x)) in w && x == Restore(Payload(x))
    ensures (forall k :: 0 <= k < |w| ==> w[k].Some?) ==>
      |r| == |w| && forall k :: 0 <= k < |w| ==> r[k] == Restore(w[k].value)
    decreases |w|
  {
    if |w| == 0 then []
    else
      var rest := Payloads(w[1..]);
      assert forall x :: x in w[1..] ==> x in w;
      assert forall k :: 1 <= k < |w| ==> w[1..][k - 1] == w[k];
      match w[0]
      case Some(r) =>
        PayloadRoundTrip(Restore(r), r);
        [Restore(r)] + rest
      case None => rest
  }

  /** One page of results and whether a further page exists. */
  datatype SearchPage = SearchPage(found: seq<PlayerItem>, hasMore: bool)

  /** `search_for`: asks for `limit + 1` hits from offset `limit * page`;
      `has_more` says whether the extra hit came back, and the list is cut
      to `limit`. */
  function SearchFor(hits: Hits, limit: nat, page: nat): (p: SearchPage)
    ensures |p.found| <= limit
    ensures p.hasMore ==> |p.found| == limit
    ensures forall x :: x in p.found ==> x.tpInfo.None? && x.wikiable.None? && Some(Payload(x)) in hits
  {
    var start: nat := Offset(limit, page);
    SearchFrom(hits, limit, start)
  }

  /** Where page `page` of `limit` results starts. */
  function Offset(limit: nat, page: nat): (start: nat)
    ensures start == limit * page
  {
    limit * page
  }

  /** The page of `limit` results at offset `start`. */
  function SearchFrom(hits: Hits, limit: nat, start: nat): (p: SearchPage)
    ensures |p.found| <= limit
    ensures p.hasMore ==> |p.found| == limit
    ensures forall x :: x in p.found ==> x.tpInfo.None? && x.wikiable.None? && Some(Payload(x)) in hits
  {
    var found := Payloads(Window(hits, start, limit + 1));
    assert forall x :: x in found[..Min(|found|, limit)] ==> x in found;
    SearchPage(found[..Min(|found|, limit)], |found| > limit)
  }

  /** When every hit carries a payload, the page at `start` is the slice
      of the ranking there, and a further page exists exactly when the
      ranking reaches past this one. */
  lemma SearchFromSlice(hits: Hits, limit: nat, start: nat)
    requires forall k :: 0 <= k < |hits| ==> hits[k].Some?
    ensures var p := SearchFrom(hits, limit, start);
      |p.found| == Min(limit, Max(0, |hits| - start)) &&
      (forall k :: 0 <= k < |p.found| ==> p.found[k] == Restore(hits[start + k].value)) &&
      (p.hasMore <==> |hits| > start + limit)
  {
    var w := Window(hits, start, limit + 1);
    assert forall k :: 0 <= k < |w| ==> w[k].Some?;
  }

  /** Page `page` is the slice of the ranking at `limit * page`. */
  lemma SearchForPages(hits: Hits, limit: nat, page: nat)
    requires forall k :: 0 <= k < |hits| ==> hits[k].Some?
    ensures var p := SearchFor(hits, limit, page);
      var start := Offset(limit, page);
      |p.found| == Min(limit, Max(0, |hits| - start)) &&
      (forall k :: 0 <= k < |p.found| ==> p.found[k] == Restore(hits[start + k].value)) &&
      (p.hasMore <==> |hits| > start + limit)
  {
    SearchFromSlice(hits, limit, Offset(limit, page));
  }

  /** Fifteen matching items with pages of ten: a full first page with
      more to come, then the remaining five and no further page. */
  lemma FifteenHits(hits: Hits)
    requires |hits| == 15 && forall k :: 0 <= k < |hits| ==> hits[k].Some?
    ensures |SearchFor(hits, 10, 0).found| == 10 && SearchFor(hits, 10, 0).hasMore
    ensures |SearchFor(hits, 10, 1).found| == 5 && !SearchFor(hits, 10, 1).hasMore
  {
    SearchForPages(hits, 10, 0);
    SearchForPages(hits, 10, 1);
  }

  /** Consecutive pages do not overlap: the last item of the page at
      `start` ranks just before the first item of the page after it. */
  lemma NextPageFollows(hits: Hits, limit: nat, start: nat)
    requires forall k :: 0 <= k < |hits| ==> hits[k].Some?
    requires limit > 0 && SearchFrom(hits, limit, start).hasMore
    ensures var a := SearchFrom(hits, limit, start).found;
      var b := SearchFrom(hits, limit, start + limit).found;
      start + limit < |hits| && |a| == limit && |b| > 0 &&
      a[limit - 1] == Restore(hits[start + limit - 1].value) &&
      b[0] == Restore(hits[start + limit].value)
  {
    SearchFromSlice(hits, limit, start);
    SearchFromSlice(hits, limit, start + limit);
  }

  /** The page after page `page` starts where page `page` ends: it is
      the page at offset `start + limit` when page `page` is at `start`. */
  lemma PagesAreConsecutive(hits: Hits, limit: nat, page: nat, start: nat)
    requires start == limit * page
    ensures SearchFor(hits, limit, page + 1) == SearchFrom(hits, limit, start + limit)
  {
    NextOffset(limit, page);
  }

  lemma NextOffset(limit: nat, page: nat)
    ensures limit * (page + 1) == limit * page + limit
  {
  }

  /* ---------------- publication ---------------- */

  /** The reader's shared state: the last published page, the `has_more`
      flag and the `loading` flag. */
  datatype ReaderState = ReaderState(lastResult: seq<PlayerItem>, hasMore: bool, loading: bool)

  /** `search`: runs the lower-cased query; a page that comes back replaces
      the published one, a query that fails leaves result and flag as they
      were. Loading is over either way. */
  function Search(s: ReaderState, text: string, page: nat, limit: nat, engine: string -> Option<Hits>): (s': ReaderState)
    ensures !s'.loading
    ensures engine(Lower(text)).None? ==> s'.lastResult == s.lastResult && s'.hasMore == s.hasMore
    ensures engine(Lower(text)).Some? ==> |s'.lastResult| <= limit && (s'.hasMore ==> |s'.lastResult| == limit)
    ensures engine(Lower(text)).Some? ==>
      var p := SearchFor(engine(Lower(text)).value, limit, page);
      s'.lastResult == p.found && s'.hasMore == p.hasMore
    ensures forall x :: x in s'.lastResult && x !in s.lastResult ==> x.tpInfo.None?
  {
    match engine(Lower(text))
    case None => s.(loading := false)
    case Some(hits) =>
      var p := SearchFor(hits, limit, page);
      ReaderState(p.found, p.hasMore, false)
  }

  /** What a search publishes when every hit carries a payload: the items
      ranked from `limit * page` on, at most `limit` of them, with
      `has_more` raised exactly when the ranking reaches past them. */
  lemma SearchPublishes(s: ReaderState, text: string, page: nat, limit: nat, engine: string -> Option<Hits>, start: nat)
    requires start == limit * page
    requires engine(Lower(text)).Some?
    requires var hits := engine(Lower(text)).value; forall k :: 0 <= k < |hits| ==> hits[k].Some?
    ensures var hits := engine(Lower(text)).value;
      var s' := Search(s, text, page, limit, engine);
      |s'.lastResult| == Min(limit, Max(0, |hits| - start)) &&
      (forall k :: 0 <= k < |s'.lastResult| ==> s'.lastResult[k] == Restore(hits[start + k].value)) &&
      (s'.hasMore <==> |hits| > start + limit)
  {
    var hits := engine(Lower(text)).value;
    assert SearchFor(hits, limit, page) == SearchFrom(hits, limit, start);
    SearchFromSlice(hits, limit, start);
  }

  /** The query is case-insensitive: texts that differ only in letter case
      publish the same state. */
  lemma SearchIgnoresCase(s: ReaderState, t1: string, t2: string, page: nat, limit: nat, engine: string -> Option<Hits>)
    requires |t1| == |t2| && forall i :: 0 <= i < |t1| ==> LowerChar(t1[i]) == LowerChar(t2[i])
    ensures Search(s, t1, page, limit, engine) == Search(s, t2, page, limit, engine)
  {
    assert Lower(t1) == Lower(t2);
  }

  /* ---------------- price patch ---------------- */

  const PricesEndpointPrefix: string := "commerce/prices?ids="

  /** The prices request for a page: its ids, comma separated, in page order. */
  function PricesEndpoint(results: seq<PlayerItem>): (e: string)
    ensures |e| >= |PricesEndpointPrefix| && e[..|PricesEndpointPrefix|] == PricesEndpointPrefix
  {
    PricesEndpointPrefix + Join(Requests.IdList(ResultIds(results)), ',')
  }

  function ItemId(p: PlayerItem): nat { p.id }

  /** The ids of a page, in page order. */
  function ResultIds(results: seq<PlayerItem>): seq<nat> {
    MapSeq(results, ItemId)
  }

  /** The prices request asks for exactly the page's ids. */
  lemma PricesEndpointIds(results: seq<PlayerItem>)
    requires |results| > 0
    ensures var parts := Split(PricesEndpoint(results)[|PricesEndpointPrefix|..], ',');
      |parts| == |results| && forall k :: 0 <= k < |results| ==>
        (forall i :: 0 <= i < |parts[k]| ==> IsDigit(parts[k][i])) && ParseNat(parts[k]) == results[k].id
  {
    assert PricesEndpoint(results)[|PricesEndpointPrefix|..] == Join(Requests.IdList(ResultIds(results)), ',');
    Requests.IdListParses(ResultIds(results));
  }

  function PriceId(p: Price): nat { p.id }

  /** The price of each result's id, or `None` where the reply has none. */
  function Patch(results: seq<PlayerItem>, tp: map<nat, Price>): (r: seq<PlayerItem>)
    ensures |r| == |results|
    ensures forall k :: 0 <= k < |r| ==> Payload(r[k]) == Payload(results[k]) && r[k].wikiable == results[k].wikiable
    ensures forall k :: 0 <= k < |r| ==> r[k].tpInfo == (if results[k].id in tp then Some(tp[results[k].id]) else None)
  {
    seq(|results|, k requires 0 <= k < |results| =>
      SetTp(results[k], if results[k].id in tp then Some(tp[results[k].id]) else None))
  }

  /** The price patch after a search: a failed request or an empty price
      list leaves the results alone; otherwise every result's price is set
      from the reply, keyed by id, the later of two prices for one id
      counting. */
  function PatchPrices(results: seq<PlayerItem>, reply: Option<seq<Price>>): (r: seq<PlayerItem>)
    ensures |r| == |results|
    ensures forall k :: 0 <= k < |r| ==> Payload(r[k]) == Payload(results[k]) && r[k].wikiable == results[k].wikiable
    ensures reply.None? || reply == Some([]) ==> r == results
    ensures reply.Some? && |reply.value| > 0 ==> forall k :: 0 <= k < |r| ==>
      (r[k].tpInfo.Some? <==> exists j :: 0 <= j < |reply.value| && reply.value[j].id == results[k].id)
    ensures forall k :: 0 <= k < |r| && r[k].tpInfo.Some? ==>
      r[k].tpInfo == results[k].tpInfo || (reply.Some? && r[k].tpInfo.value in reply.value && r[k].tpInfo.value.id == r[k].id)
    ensures reply.Some? && |reply.value| > 0 ==> forall k :: 0 <= k < |r| && r[k].tpInfo.Some? ==>
      r[k].tpInfo.value in reply.value && r[k].tpInfo.value.id == results[k].id
    ensures reply.Some? && |reply.value| > 0 ==> forall k :: 0 <= k < |r| ==> LastPriceFor(r[k], reply.value, results[k].id)
  {
    match reply
    case None => results
    case Some(prices) =>
      var tp := KeyBy(prices, PriceId);
      PatchLastPrice(results, prices);
      if |tp| == 0 then results else Patch(results, tp)
  }

  /** `x` carries the last price for `id` in `prices`, if any: a later
      entry of the reply replaces an earlier one for the same id. */
  predicate LastPriceFor(x: PlayerItem, prices: seq<Price>, id: nat) {
    forall j :: 0 <= j < |prices| && prices[j].id == id && LatestOfId(prices, j) ==> x.tpInfo == Some(prices[j])
  }

  /** No later entry of the reply has the id of entry `j`. */
  predicate LatestOfId(prices: seq<Price>, j: nat)
    requires j < |prices|
  {
    forall i :: j < i < |prices| ==> prices[i].id != prices[j].id
  }

  /** Patching by the keyed reply gives every result the last price the
      reply lists for its id. */
  lemma PatchLastPrice(results: seq<PlayerItem>, prices: seq<Price>)
    ensures var r := Patch(results, KeyBy(prices, PriceId));
      forall k :: 0 <= k < |r| ==> LastPriceFor(r[k], prices, results[k].id)
  {
    KeyByLastPrice(prices);
  }

  /** Keying the reply by id keeps the last price of every id. */
  lemma KeyByLastPrice(prices: seq<Price>)
    ensures forall j :: 0 <= j < |prices| && LatestOfId(prices, j) ==> KeyBy(prices, PriceId)[prices[j].id] == prices[j]
  {
    forall j | 0 <= j < |prices| && LatestOfId(prices, j)
      ensures KeyBy(prices, PriceId)[prices[j].id] == prices[j]
    {
      KeyByLastWins(prices, PriceId, j);
    }
  }

  /** Patching twice with the same reply is patching once. */
  lemma PatchPricesIdempotent(results: seq<PlayerItem>, reply: Option<seq<Price>>)
    ensures PatchPrices(PatchPrices(results, reply), reply) == PatchPrices(results, reply)
  {
    var once := PatchPrices(results, reply);
    var twice := PatchPrices(once, reply);
    assert |twice| == |once|;
    forall k | 0 <= k < |once| ensures twice[k] == once[k] {
      assert once[k].id == results[k].id;
    }
  }

  /** The patch only decorates: dropping the prices gives back the
      results as they were stored. */
  lemma PatchKeepsPayloads(results: seq<PlayerItem>, reply: Option<seq<Price>>)
    ensures var r := PatchPrices(results, reply);
      forall k :: 0 <= k < |r| ==> Restore(Payload(r[k])) == Restore(Payload(results[k]))
  {
  }

  /** The state after a search whose prices request also completed. */
  function SearchThenPatch(s: ReaderState, text: string, page: nat, limit: nat,
                           engine: string -> Option<Hits>, prices: Option<seq<Price>>): (s': ReaderState)
    ensures var s1 := Search(s, text, page, limit, engine);
      s'.hasMore == s1.hasMore && !s'.loading && |s'.lastResult| == |s1.lastResult|
    ensures engine(Lower(text)).None? ==> s' == Search(s, text, page, limit, engine)
    ensures engine(Lower(text)).Some? ==>
      s'.lastResult == PatchPrices(Search(s, text, page, limit, engine).lastResult, prices)
  {
    var s1 := Search(s, text, page, limit, engine);
    match engine(Lower(text))
    case None => s1
    case Some(_) => s1.(lastResult := PatchPrices(s1.lastResult, prices))
  }

  /** The page shown after a search and its price patch: when the engine
      answers and every hit carries a payload, the k-th result is the
      stored item at rank `start + k`, priced with the last price the
      reply holds for its id, or unpriced when the reply holds none. */
  lemma SearchThenPatchPage(s: ReaderState, text: string, page: nat, limit: nat,
                            engine: string -> Option<Hits>, prices: seq<Price>, start: nat)
    requires start == limit * page
    requires engine(Lower(text)).Some? && |prices| > 0
    requires var hits := engine(Lower(text)).value; forall k :: 0 <= k < |hits| ==> hits[k].Some?
    ensures var hits := engine(Lower(text)).value;
      var r := SearchThenPatch(s, text, page, limit, engine, Some(prices)).lastResult;
      |r| == Min(limit, Max(0, |hits| - start)) &&
      forall k :: 0 <= k < |r| ==>
        Payload(r[k]) == hits[start + k].value &&
        (r[k].tpInfo.Some? <==> exists j :: 0 <= j < |prices| && prices[j].id == r[k].id) &&
        LastPriceFor(r[k], prices, r[k].id)
  {
    var hits := engine(Lower(text)).value;
    SearchPublishes(s, text, page, limit, engine, start);
    var p := Search(s, text, page, limit, engine).lastResult;
    forall k | 0 <= k < |p| ensures Payload(p[k]) == hits[start + k].value {
      PayloadRoundTrip(p[k], hits[start + k].value);
    }
  }
}
