/** The search window's input box and paging buttons
    (src/index/find_my_sht.rs). Time is the frame's clock reading in
    milliseconds; a query the box sends to the index reader is returned as
    a `Query` rather than run. */
module SearchBox {
  import opened Prelude
  import opened PlayerItems

  /** The box: the text typed, the text last sent, the page shown and the
      time of the last edit. */
  datatype SearchBox = SearchBox(search: string, oldSearch: string, page: nat, lastInputUpdate: nat)

  /** A search sent to the index reader. */
  datatype Query = Query(text: string, page: nat)

  /** How long the text must rest before it is sent. */
  const Debounce: nat := 500

  /** A fresh box: empty text, page 0. */
  function Init(now: nat): (b: SearchBox)
    ensures b.search == b.oldSearch && b.page == 0
  {
    SearchBox("", "", 0, now)
  }

  /** The time since `since`, zero when the clock reads earlier (a
      monotonic clock never does). */
  function Elapsed(since: nat, now: nat): (d: nat)
    ensures since <= now ==> d + since == now
  {
    if now >= since then now - since else 0
  }

  /** An edit of the input field: the text changes and the debounce timer
      restarts; nothing else changes. */
  function Edit(b: SearchBox, text: string, now: nat): (b': SearchBox)
    ensures b'.search == text && b'.lastInputUpdate == now
    ensures b'.oldSearch == b.oldSearch && b'.page == b.page
  {
    b.(search := text, lastInputUpdate := now)
  }

  /** The check made on every frame: text that differs from the last text
      sent, and has rested strictly longer than the debounce delay, is sent
      for page 0 and becomes the last text sent. */
  function Frame(b: SearchBox, now: nat): (r: (SearchBox, Option<Query>))
    ensures r.1.Some? <==> b.search != b.oldSearch && Elapsed(b.lastInputUpdate, now) > Debounce
    ensures r.1.Some? ==> r.1.value == Query(b.search, 0) && r.0 == b.(page := 0, oldSearch := b.search)
    ensures r.1.None? ==> r.0 == b
    ensures r.0.oldSearch == r.0.search
      || (r.0.oldSearch == b.oldSearch && Elapsed(b.lastInputUpdate, now) <= Debounce)
  {
    if b.oldSearch != b.search && Elapsed(b.lastInputUpdate, now) > Debounce then
      (b.(page := 0, oldSearch := b.search), Some(Query(b.search, 0)))
    else (b, None)
  }

  /** The Prev button, drawn only over a non-empty page and enabled only
      past page 0: it steps back one page and sends the current text. */
  function Prev(b: SearchBox, shown: nat): (r: (SearchBox, Option<Query>))
    ensures r.1.Some? <==> shown > 0 && b.page > 0
    ensures r.1.Some? ==> r.0.page + 1 == b.page && r.1.value == Query(b.search, r.0.page)
    ensures r.1.None? ==> r.0 == b
    ensures r.0.search == b.search && r.0.oldSearch == b.oldSearch && r.0.lastInputUpdate == b.lastInputUpdate
  {
    if shown > 0 && b.page > 0 then
      var b' := b.(page := b.page - 1);
      (b', Some(Query(b.search, b'.page)))
    else (b, None)
  }

  /** The More button, drawn only over a non-empty page and enabled only
      when the reader reported a further page. */
  function More(b: SearchBox, shown: nat, hasMore: bool): (r: (SearchBox, Option<Query>))
    ensures r.1.Some? <==> shown > 0 && hasMore
    ensures r.1.Some? ==> r.0.page == b.page + 1 && r.1.value == Query(b.search, r.0.page)
    ensures r.1.None? ==> r.0 == b
    ensures r.0.search == b.search && r.0.oldSearch == b.oldSearch && r.0.lastInputUpdate == b.lastInputUpdate
  {
    if shown > 0 && hasMore then
      var b' := b.(page := b.page + 1);
      (b', Some(Query(b.search, b'.page)))
    else (b, None)
  }

  /** Going forward a page and back again returns to the page and asks for
      it once more. */
  lemma MoreThenPrev(b: SearchBox, shown: nat, shownNext: nat)
    requires shown > 0 && shownNext > 0
    ensures var (b1, q1) := More(b, shown, true);
      var (b2, q2) := Prev(b1, shownNext);
      q1.Some? && q2 == Some(Query(b.search, b.page)) && b2 == b
  {
  }

  /** Frames with no edit in between: the box after all of them and the
      queries they sent, in order. */
  function Frames(b: SearchBox, times: seq<nat>): (r: (SearchBox, seq<Query>))
    decreases |times|
  {
    if |times| == 0 then (b, [])
    else
      var (b1, q) := Frame(b, times[0]);
      var (b2, qs) := Frames(b1, times[1..]);
      (b2, (if q.Some? then [q.value] else []) + qs)
  }

  /** The debounce sends a text at most once: however many frames pass
      without an edit, at most one query leaves, for page 0; one leaves
      exactly when the text was unsent and some frame came after the
      delay. */
  lemma {:induction false} FramesSendOnce(b: SearchBox, times: seq<nat>)
    ensures var (b', qs) := Frames(b, times);
      |qs| <= 1 &&
      (|qs| == 1 <==>
        (b.search != b.oldSearch &&
         exists k :: 0 <= k < |times| && Elapsed(b.lastInputUpdate, times[k]) > Debounce)) &&
      (|qs| == 1 ==> qs[0] == Query(b.search, 0)) &&
      b'.search == b.search && b'.lastInputUpdate == b.lastInputUpdate
    decreases |times|
  {
    if |times| > 0 {
      var (b1, q) := Frame(b, times[0]);
      FramesSendOnce(b1, times[1..]);
      assert forall k :: 1 <= k < |times| ==> times[1..][k - 1] == times[k];
      if q.Some? {
        FramesSendNothing(b1, times[1..]);
      }
    }
  }

  /** Once the text is sent, later frames send nothing until it is edited. */
  lemma {:induction false} FramesSendNothing(b: SearchBox, times: seq<nat>)
    requires b.search == b.oldSearch
    ensures Frames(b, times) == (b, [])
    decreases |times|
  {
    if |times| > 0 {
      assert Frame(b, times[0]) == (b, None);
      FramesSendNothing(b, times[1..]);
      var none: seq<Query> := [];
      assert none + none == none;
    }
  }

  /** A burst of edits followed by frames sends only the last text: the
      frames that come within the delay of the last edit send nothing. */
  lemma TypingIsDebounced(b: SearchBox, text: string, now: nat, later: nat)
    requires now <= later <= now + Debounce
    ensures Frame(Edit(b, text, now), later).1.None?
  {
  }

  /** Frames that all come within the delay of the last edit send nothing
      and leave the box as it is. */
  lemma {:induction false} FramesWithinDelay(b: SearchBox, times: seq<nat>)
    requires forall k :: 0 <= k < |times| ==> times[k] <= b.lastInputUpdate + Debounce
    ensures Frames(b, times) == (b, [])
    decreases |times|
  {
    if |times| > 0 {
      assert Frame(b, times[0]) == (b, None);
      FramesWithinDelay(b, times[1..]);
      var none: seq<Query> := [];
      assert none + none == none;
    }
  }

  /** One edit of the input field at time `at`, then the frames drawn
      before the next edit. */
  datatype Keystroke = Keystroke(text: string, at: nat, frames: seq<nat>)

  /** A run of keystrokes: the box after all of them and the queries sent,
      in order. */
  function Typing(b: SearchBox, strokes: seq<Keystroke>): (r: (SearchBox, seq<Query>))
    decreases |strokes|
  {
    if |strokes| == 0 then (b, [])
    else
      var s := strokes[0];
      var (b1, q1) := Frames(Edit(b, s.text, s.at), s.frames);
      var (b2, q2) := Typing(b1, strokes[1..]);
      (b2, q1 + q2)
  }

  /** Each edit comes within the delay of the one before it, and no frame
      comes after the next edit. */
  predicate Burst(strokes: seq<Keystroke>) {
    forall k :: 0 <= k < |strokes| - 1 ==>
      strokes[k + 1].at <= strokes[k].at + Debounce &&
      forall j :: 0 <= j < |strokes[k].frames| ==> strokes[k].frames[j] <= strokes[k + 1].at
  }

  /** The debounce over a burst of typing: however many edits, at most one
      query leaves, for the last text and page 0; it leaves exactly when
      that text was not the last one sent and some frame after the last
      edit came later than the delay. */
  lemma {:induction false} BurstSendsOnce(b: SearchBox, strokes: seq<Keystroke>)
    requires |strokes| > 0 && Burst(strokes)
    ensures var (b', qs) := Typing(b, strokes);
      var last := strokes[|strokes| - 1];
      |qs| <= 1 &&
      (|qs| == 1 <==>
        (last.text != b.oldSearch &&
         exists j :: 0 <= j < |last.frames| && Elapsed(last.at, last.frames[j]) > Debounce)) &&
      (|qs| == 1 ==> qs[0] == Query(last.text, 0))
    decreases |strokes|
  {
    var s := strokes[0];
    var e := Edit(b, s.text, s.at);
    if |strokes| == 1 {
      FramesSendOnce(e, s.frames);
      var (b1, q1) := Frames(e, s.frames);
      var none: seq<Query> := [];
      assert q1 + none == q1;
    } else {
      assert forall j :: 0 <= j < |s.frames| ==> s.frames[j] <= e.lastInputUpdate + Debounce by {
        var k := 0;
        assert k < |strokes| - 1;
        assert strokes[k + 1].at <= strokes[k].at + Debounce &&
          forall j :: 0 <= j < |strokes[k].frames| ==> strokes[k].frames[j] <= strokes[k + 1].at;
      }
      FramesWithinDelay(e, s.frames);
      assert Burst(strokes[1..]) by {
        forall k | 0 <= k < |strokes[1..]| - 1
          ensures strokes[1..][k + 1].at <= strokes[1..][k].at + Debounce
          ensures forall j :: 0 <= j < |strokes[1..][k].frames| ==> strokes[1..][k].frames[j] <= strokes[1..][k + 1].at
        {
          assert strokes[1..][k] == strokes[k + 1] && strokes[1..][k + 1] == strokes[k + 2];
        }
      }
      BurstSendsOnce(e, strokes[1..]);
      var none: seq<Query> := [];
      var (b2, q2) := Typing(e, strokes[1..]);
      assert Typing(b, strokes) == (b2, none + q2);
      assert none + q2 == q2;
    }
  }

  /** The character tooltips: once the bank, material storage and shared
      inventory entries are taken out of a copy of the locations, only
      characters' entries are left, each as it was. */
  lemma CharacterTooltips(locs: LocationMap)
    ensures var (m1, _) := Take(locs, Bank);
      var (m2, _) := Take(m1, MaterialStorage);
      var (m3, _) := Take(m2, SharedInventory);
      m3 == SplitLocations(locs).characters &&
      (forall l :: l in m3 <==> l in locs && l.Character?) &&
      (forall l :: l in m3 ==> m3[l] == locs[l])
  {
  }
}
