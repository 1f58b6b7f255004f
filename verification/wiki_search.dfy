/** Searching the wiki and publishing the hits (src/index/wiki_search.rs).
    The HTTP call is a parameter: it maps the request URL to the decoded
    reply, or to `None` when the call or the decoding fails. */
module WikiSearch {
  import opened Prelude
  import opened WikiItems

  /** The decoded reply: the continuation offset, if the wiki has more
      hits, and this page of hits. */
  datatype WikiResult = WikiResult(more: Option<nat>, search: seq<WikiItem>)

  /** The reader's shared state; its three getters return these fields. */
  datatype WikiState = WikiState(lastResult: seq<WikiItem>, hasMore: bool, loading: bool)

  const Space: string := " "
  const EncodedSpace: string := "%20"

  /** The query as sent: lower-cased, every space written as `%20`. */
  function EncodeQuery(text: string): (q: string)
  {
    EncodeSpaces(Lower(text))
  }

  function EncodeSpaces(s: string): string {
    ReplaceAll(s, Space, EncodedSpace)
  }

  /** The encoded text has no space left, and decoding `%20` gives the
      text back when it held no `%` of its own. */
  lemma {:induction false} EncodeSpacesRoundTrip(s: string)
    requires forall i :: 0 <= i < |s| ==> s[i] != '%'
    ensures forall i :: 0 <= i < |EncodeSpaces(s)| ==> EncodeSpaces(s)[i] != ' '
    ensures ReplaceAll(EncodeSpaces(s), EncodedSpace, Space) == s
    decreases |s|
  {
    if |s| > 0 {
      var rest := EncodeSpaces(s[1..]);
      EncodeSpacesRoundTrip(s[1..]);
      if s[0] == ' ' {
        assert s[..1] == Space;
        assert EncodeSpaces(s) == EncodedSpace + rest;
        assert (EncodedSpace + rest)[..3] == EncodedSpace;
        assert (EncodedSpace + rest)[3..] == rest;
      } else {
        assert s[..1] != Space;
        assert EncodeSpaces(s) == [s[0]] + rest;
        ReplaceKeepsPrefix([s[0]], rest, EncodedSpace, Space);
      }
    }
  }

  const SearchUrlPrefix: string := "https://wiki.guildwars2.com/api.php?action=query&list=search&srsearch="
  const FormatPart: string := "&utf8=&format=json&srlimit="
  const OffsetPart: string := "&sroffset="

  /** The request URL: the encoded query, the page size as `srlimit` and
      the page number itself, not `limit * page`, as `sroffset`. */
  function SearchUrl(text: string, page: nat, limit: nat): (url: string)
    ensures |url| > |SearchUrlPrefix| && url[..|SearchUrlPrefix|] == SearchUrlPrefix
  {
    SearchUrlPrefix + EncodeQuery(text) + FormatPart + NatToString(limit) + OffsetPart + NatToString(page)
  }

  /** The URL can be read back: after the prefix comes the encoded
      query, then the page size after `srlimit=`, then the page number
      after `sroffset=`, which ends the URL. */
  lemma SearchUrlFields(text: string, page: nat, limit: nat)
    ensures var url := SearchUrl(text, page, limit);
      var q := |SearchUrlPrefix| + |EncodeQuery(text)|;
      var l := q + |FormatPart|;
      var o := l + |NatToString(limit)| + |OffsetPart|;
      o <= |url| &&
      url[|SearchUrlPrefix|..q] == EncodeQuery(text) &&
      url[q..l] == FormatPart &&
      ParseNat(url[l..l + |NatToString(limit)|]) == limit &&
      url[o - |OffsetPart|..o] == OffsetPart &&
      ParseNat(url[o..]) == page
  {
    Slices(SearchUrlPrefix, EncodeQuery(text), FormatPart, NatToString(limit), OffsetPart, NatToString(page));
    ParseNatToString(limit);
    ParseNatToString(page);
  }

  /** Where each part of a six-part concatenation lies. */
  lemma Slices(a: string, b: string, c: string, d: string, e: string, f: string)
    ensures var s := a + b + c + d + e + f;
      var i := |a| + |b|;
      var j := i + |c|;
      var k := j + |d| + |e|;
      k <= |s| && s[|a|..i] == b && s[i..j] == c && s[j..j + |d|] == d && s[k - |e|..k] == e && s[k..] == f
  {
    var s := a + b + c + d + e + f;
    assert s == a + (b + (c + (d + (e + f))));
  }

  /** Texts differing only in letter case send the same request. */
  lemma SearchUrlIgnoresCase(t1: string, t2: string, page: nat, limit: nat)
    requires |t1| == |t2| && forall i :: 0 <= i < |t1| ==> LowerChar(t1[i]) == LowerChar(t2[i])
    ensures SearchUrl(t1, page, limit) == SearchUrl(t2, page, limit)
  {
    assert Lower(t1) == Lower(t2);
  }

  /** The request is under way: `loading` is raised first. */
  function Begin(s: WikiState): (s': WikiState)
    ensures s'.loading && s'.lastResult == s.lastResult && s'.hasMore == s.hasMore
  {
    s.(loading := true)
  }

  /** The end of a search: a reply with a continuation raises `has_more`,
      which nothing here lowers; the hits of a reply are published, and a
      failed request publishes an empty list. */
  function Finish(s: WikiState, reply: Option<WikiResult>): (s': WikiState)
    ensures !s'.loading
    ensures s'.hasMore <==> s.hasMore || (reply.Some? && reply.value.more.Some?)
    ensures reply.None? ==> s'.lastResult == []
    ensures reply.Some? ==> s'.lastResult == reply.value.search
  {
    var more := match reply case Some(r) => r.more.Some? case None => false;
    WikiState(match reply case Some(r) => r.search case None => [], s.hasMore || more, false)
  }

  /** `search`: raise `loading`, call the wiki with the page's URL,
      publish. */
  function Search(s: WikiState, text: string, page: nat, limit: nat, fetch: string -> Option<WikiResult>): (s': WikiState)
    ensures var reply := fetch(SearchUrl(text, page, limit));
      !s'.loading &&
      (s'.hasMore <==> s.hasMore || (reply.Some? && reply.value.more.Some?)) &&
      s'.lastResult == (match reply case Some(r) => r.search case None => [])
  {
    Finish(Begin(s), fetch(SearchUrl(text, page, limit)))
  }

  /** A sequence of searches, each with the reply it received. */
  function Run(s: WikiState, replies: seq<Option<WikiResult>>): WikiState
    decreases |replies|
  {
    if |replies| == 0 then s else Run(Finish(Begin(s), replies[0]), replies[1..])
  }

  /** Once raised, `has_more` stays raised over any later searches,
      whatever they return; and it is raised at the end exactly when it
      was at the start or some reply had a continuation. */
  lemma {:induction false} HasMoreIsSticky(s: WikiState, replies: seq<Option<WikiResult>>)
    ensures Run(s, replies).hasMore <==>
      s.hasMore || exists k :: 0 <= k < |replies| && replies[k].Some? && replies[k].value.more.Some?
    decreases |replies|
  {
    if |replies| > 0 {
      HasMoreIsSticky(Finish(Begin(s), replies[0]), replies[1..]);
      assert forall k :: 1 <= k < |replies| ==> replies[1..][k - 1] == replies[k];
    }
  }
}
