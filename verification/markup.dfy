/** Text helpers of the item tooltips (src/ui_utils.rs): the colour-tag
    segmenter for item descriptions, the choice of coin units for a price,
    and the location icon that consumes a location's entry. Drawing is
    modelled as the list of things drawn. */
module Markup {
  import opened Prelude
  import opened Entities
  import opened PlayerItems

  /* ---------------- description markup ---------------- */

  /** The colours a tag can select; `abilitytype` and unknown tags draw
      in the default white. */
  datatype TagColor = Flavor | Reminder | Warning | White

  /** A drawn piece of a description. */
  datatype Segment = Plain(text: string) | Colored(color: TagColor, text: string)

  /** What the segmenter does with a text: it draws a list of segments and
      ends, or draws some segments and then loops forever without drawing
      more. */
  datatype Rendering = Done(segments: seq<Segment>) | Hangs(segments: seq<Segment>)

  const TagOpen: string := "<c=@"
  const TagClose: string := "</c>"

  function ColorOf(tag: string): (c: TagColor)
    ensures c == Flavor <==> tag == "flavor"
    ensures c == Reminder <==> tag == "reminder"
    ensures c == Warning <==> tag == "warning"
  {
    if tag == "flavor" then Flavor
    else if tag == "reminder" then Reminder
    else if tag == "warning" then Warning
    else White
  }

  function Prepend(pre: seq<Segment>, r: Rendering): (r': Rendering)
    ensures r'.Hangs? == r.Hangs? && r'.segments == pre + r.segments
  {
    match r
    case Done(s) => Done(pre + s)
    case Hangs(s) => Hangs(pre + s)
  }

  /** The total length of the drawn texts. */
  function DrawnLength(segs: seq<Segment>): nat {
    if |segs| == 0 then 0 else |segs[0].text| + DrawnLength(segs[1..])
  }

  lemma {:induction false} DrawnLengthAppend(a: seq<Segment>, b: seq<Segment>)
    ensures DrawnLength(a + b) == DrawnLength(a) + DrawnLength(b)
    decreases |a|
  {
    if |a| > 0 {
      assert (a + b)[1..] == a[1..] + b;
      DrawnLengthAppend(a[1..], b);
    } else {
      assert a + b == b;
    }
  }

  /** `render_description`: text before an opener is drawn plain when not
      empty; the tag name runs from after `<c=@` to the next `>`; the text
      up to the next `</c>` is drawn in the tag's colour and scanning goes
      on after it. A tag with a `>` but no `</c>` is dropped and scanning
      goes on after the `>`; an opener with no `>` after it is never passed,
      so the loop spins. Text after the last opener is drawn plain. */
  function Render(input: string): (r: Rendering)
    ensures forall k :: 0 <= k < |r.segments| && r.segments[k].Plain? ==> |r.segments[k].text| > 0
    ensures DrawnLength(r.segments) <= |input|
    decreases |input|, 2
  {
    if |input| == 0 then Done([])
    else match Find(input, TagOpen)
      case None => Done([Plain(input)])
      case Some(st) =>
        var pre := Before(input, st);
        var r := AfterOpen(input[st + |TagOpen|..]);
        DrawnLengthAppend(pre, r.segments);
        Prepend(pre, r)
  }

  /** Text without an opener is drawn as it is, and the loop ends. */
  lemma RenderNoOpener(input: string)
    requires !Contains(input, TagOpen)
    ensures Render(input) == (if |input| == 0 then Done([]) else Done([Plain(input)]))
  {
  }

  /** Only an opener can make the loop spin. */
  lemma RenderHangsNeedsOpener(input: string)
    requires Render(input).Hangs?
    ensures Contains(input, TagOpen)
  {
    if !Contains(input, TagOpen) {
      RenderNoOpener(input);
    }
  }

  /** The text before an opener, drawn plain unless it is empty. */
  function Before(input: string, st: nat): (pre: seq<Segment>)
    requires st <= |input|
    ensures DrawnLength(pre) == st
    ensures forall k :: 0 <= k < |pre| ==> pre[k].Plain? && |pre[k].text| > 0
  {
    if st > 0 then [Plain(input[..st])] else []
  }

  /** The loop body from just after an opener: look for the `>` ending
      the tag name. The source searches from the opener itself, which
      holds no `>`, so it finds the same `>`. */
  function AfterOpen(after: string): (r: Rendering)
    ensures forall k :: 0 <= k < |r.segments| && r.segments[k].Plain? ==> |r.segments[k].text| > 0
    ensures DrawnLength(r.segments) <= |after|
    decreases |after|, 1
  {
    match CharIndex(after, '>')
    case None => Hangs([])
    case Some(e) => TagBody(after[..e], after[e + 1..])
  }

  /** The loop body after the tag name: draw up to the next `</c>` in the
      tag's colour, or drop the tag when none follows. */
  function TagBody(tag: string, rest: string): (r: Rendering)
    ensures forall k :: 0 <= k < |r.segments| && r.segments[k].Plain? ==> |r.segments[k].text| > 0
    ensures DrawnLength(r.segments) <= |rest|
    decreases |rest| + 1, 0
  {
    match Find(rest, TagClose)
    case None => Render(rest)
    case Some(c) =>
      var r := Render(rest[c + |TagClose|..]);
      var seg := [Colored(ColorOf(tag), rest[..c])];
      DrawnLengthAppend(seg, r.segments);
      assert DrawnLength(seg) == c + DrawnLength(seg[1..]);
      Prepend(seg, r)
  }

  lemma PrependPrepend(a: seq<Segment>, b: seq<Segment>, r: Rendering)
    ensures Prepend(a, Prepend(b, r)) == Prepend(a + b, r)
  {
    assert a + (b + r.segments) == a + b + r.segments;
  }

  /* ---- well-formed markup renders back into its pieces ---- */

  /** A piece of markup: plain text, or text wrapped in a colour tag. */
  datatype Piece = Text(text: string) | Tagged(tag: string, text: string)

  function PrintPiece(p: Piece): string {
    match p
    case Text(t) => t
    case Tagged(tag, t) => TagOpen + tag + ">" + t + TagClose
  }

  function Print(ps: seq<Piece>): string {
    if |ps| == 0 then "" else PrintPiece(ps[0]) + Print(ps[1..])
  }

  /** The segments a piece should draw as. */
  function Expected(ps: seq<Piece>): seq<Segment> {
    if |ps| == 0 then []
    else [SegmentOf(ps[0])] + Expected(ps[1..])
  }

  function SegmentOf(p: Piece): Segment {
    match p
    case Text(t) => Plain(t)
    case Tagged(tag, t) => Colored(ColorOf(tag), t)
  }

  predicate NoChar(s: string, c: char) {
    forall i :: 0 <= i < |s| ==> s[i] != c
  }

  /** Markup the segmenter reads back: texts hold no `<`, tag names no
      `>`, plain texts are not empty and never follow one another. */
  predicate WellFormed(ps: seq<Piece>) {
    (forall k :: 0 <= k < |ps| ==> NoChar(ps[k].text, '<')) &&
    (forall k :: 0 <= k < |ps| && ps[k].Tagged? ==> NoChar(ps[k].tag, '>')) &&
    (forall k :: 0 <= k < |ps| && ps[k].Text? ==> |ps[k].text| > 0) &&
    (forall k :: 0 <= k < |ps| - 1 ==> !(ps[k].Text? && ps[k + 1].Text?))
  }

  lemma OpenerHasNoBorder()
    ensures NoBorder(TagOpen) && NoBorder(TagClose)
    ensures TagOpen[0] == '<' && TagClose[0] == '<'
  {
    assert forall k :: 0 < k < |TagOpen| ==> TagOpen[k..][0] != '<';
    assert forall k :: 0 < k < |TagClose| ==> TagClose[k..][0] != '<';
  }

  /** The first `>` after an opener closes the tag name when the name
      holds none. */
  lemma GtAfterTag(tag: string, y: string)
    requires NoChar(tag, '>')
    ensures CharIndex(tag + ">" + y, '>') == Some(|tag|)
  {
    var s := tag + ">" + y;
    assert s[|tag|] == '>';
    assert forall j :: 0 <= j < |tag| ==> s[j] == tag[j];
    CharIndexFirst(s, '>', |tag|);
  }

  lemma CharIndexFirst(s: string, c: char, n: nat)
    requires n < |s| && s[n] == c && forall j :: 0 <= j < n ==> s[j] != c
    ensures CharIndex(s, c) == Some(n)
  {
  }

  lemma FindFirstTag(t: string, y: string)
    requires !Contains(t, TagOpen)
    ensures Find(t + TagOpen + y, TagOpen) == Some(|t|)
  {
    OpenerHasNoBorder();
    FindAfterPrefix(t, TagOpen, y);
  }

  lemma FindFirstClose(u: string, y: string)
    requires !Contains(u, TagClose)
    ensures Find(u + TagClose + y, TagClose) == Some(|u|)
  {
    OpenerHasNoBorder();
    FindAfterPrefix(u, TagClose, y);
  }

  /** Text without `<` holds neither marker. */
  lemma NoMarkers(s: string)
    requires NoChar(s, '<')
    ensures !Contains(s, TagOpen) && !Contains(s, TagClose)
  {
    OpenerHasNoBorder();
    NotContainsWithoutHead(s, TagOpen);
    NotContainsWithoutHead(s, TagClose);
  }

  /** The first turn of the loop body, read off the opener found. */
  lemma RenderStep(input: string, st: nat)
    requires Find(input, TagOpen) == Some(st)
    ensures st + |TagOpen| <= |input|
    ensures Render(input) == Prepend(Before(input, st), AfterOpen(input[st + |TagOpen|..]))
  {
    assert OccursAt(input, TagOpen, st);
    assert |input| > 0;
  }

  /** The first turn over `t<c=@after` when `t` holds no opener. */
  lemma RenderOpener(t: string, after: string)
    requires !Contains(t, TagOpen)
    ensures Render(t + TagOpen + after) == Prepend(if |t| > 0 then [Plain(t)] else [], AfterOpen(after))
  {
    var input := t + TagOpen + after;
    FindFirstTag(t, after);
    RenderStep(input, |t|);
    assert input[..|t|] == t;
    assert input[|t| + |TagOpen|..] == after;
  }

  /** The tag name runs to the first `>` when it holds none. */
  lemma AfterOpenTag(tag: string, y: string)
    requires NoChar(tag, '>')
    ensures AfterOpen(tag + ">" + y) == TagBody(tag, y)
  {
    var after := tag + ">" + y;
    GtAfterTag(tag, y);
    assert after[..|tag|] == tag && after[|tag| + 1..] == y;
  }

  /** The coloured text runs to the first `</c>`. */
  lemma TagBodyClosed(tag: string, u: string, rest: string)
    requires !Contains(u, TagClose)
    ensures TagBody(tag, u + TagClose + rest) == Prepend([Colored(ColorOf(tag), u)], Render(rest))
  {
    var body := u + TagClose + rest;
    FindFirstClose(u, rest);
    assert body[..|u|] == u && body[|u| + |TagClose|..] == rest;
  }

  /** A tag name with no `</c>` after it is dropped. */
  lemma TagBodyUnclosed(tag: string, rest: string)
    requires !Contains(rest, TagClose)
    ensures TagBody(tag, rest) == Render(rest)
  {
  }

  /** One turn of the loop over `t<c=@tag>u</c>rest`. */
  lemma RenderTagged(t: string, tag: string, u: string, rest: string)
    requires !Contains(t, TagOpen) && !Contains(u, TagClose) && NoChar(tag, '>')
    ensures Render(t + (TagOpen + tag + ">" + (u + TagClose + rest))) ==
      Prepend((if |t| > 0 then [Plain(t)] else []) + [Colored(ColorOf(tag), u)], Render(rest))
  {
    var body := u + TagClose + rest;
    var after := tag + ">" + body;
    var pre: seq<Segment> := if |t| > 0 then [Plain(t)] else [];
    var seg := [Colored(ColorOf(tag), u)];
    var r := Render(rest);
    assert Render(t + (TagOpen + tag + ">" + body)) == Prepend(pre, AfterOpen(after)) by {
      assert t + (TagOpen + tag + ">" + body) == t + TagOpen + after;
      RenderOpener(t, after);
    }
    assert AfterOpen(after) == Prepend(seg, r) by {
      AfterOpenTag(tag, body);
      TagBodyClosed(tag, u, rest);
    }
    PrependPrepend(pre, seg, r);
  }

  /** Well-formed markup is drawn as exactly its pieces, and the loop
      ends. */
  lemma {:induction false} RenderPrint(ps: seq<Piece>)
    requires WellFormed(ps)
    ensures Render(Print(ps)) == Done(Expected(ps))
    decreases |ps|
  {
    if |ps| == 0 {
    } else if ps[0].Tagged? {
      assert WellFormed(ps[1..]) by {
        forall k | 0 <= k < |ps| - 1 ensures ps[1..][k] == ps[k + 1] { }
      }
      RenderPrint(ps[1..]);
      RenderPrintTagged(ps);
    } else if |ps| == 1 {
      RenderPrintText(ps[0].text);
    } else {
      assert WellFormed(ps[2..]) by {
        forall k | 0 <= k < |ps| - 2 ensures ps[2..][k] == ps[k + 2] { }
      }
      RenderPrint(ps[2..]);
      RenderPrintTextTagged(ps);
    }
  }

  /** A lone plain text is drawn as it is. */
  lemma RenderPrintText(t: string)
    requires NoChar(t, '<') && |t| > 0
    ensures Render(Print([Text(t)])) == Done(Expected([Text(t)]))
  {
    assert Print([Text(t)]) == t by { assert Print([Text(t)]) == t + ""; }
    assert Expected([Text(t)]) == [Plain(t)];
    NoMarkers(t);
    RenderNoOpener(t);
  }

  /** A tagged piece in front of markup drawn as its pieces. */
  lemma RenderPrintTagged(ps: seq<Piece>)
    requires |ps| > 0 && ps[0].Tagged? && NoChar(ps[0].text, '<') && NoChar(ps[0].tag, '>')
    requires Render(Print(ps[1..])) == Done(Expected(ps[1..]))
    ensures Render(Print(ps)) == Done(Expected(ps))
  {
    var p := ps[0];
    var rest := Print(ps[1..]);
    var seg := [Colored(ColorOf(p.tag), p.text)];
    var input := "" + (TagOpen + p.tag + ">" + (p.text + TagClose + rest));
    assert Print(ps) == input by {
      assert Print(ps) == PrintPiece(p) + rest;
    }
    assert Render(input) == Prepend([] + seg, Render(rest)) by {
      NoMarkers("");
      NoMarkers(p.text);
      RenderTagged("", p.tag, p.text, rest);
    }
    assert [] + seg == seg;
    assert Expected(ps) == seg + Expected(ps[1..]);
  }

  /** A plain text and a tagged piece in front of markup drawn as its
      pieces. */
  lemma RenderPrintTextTagged(ps: seq<Piece>)
    requires |ps| > 1 && ps[0].Text? && |ps[0].text| > 0 && ps[1].Tagged?
    requires NoChar(ps[0].text, '<') && NoChar(ps[1].text, '<') && NoChar(ps[1].tag, '>')
    requires Render(Print(ps[2..])) == Done(Expected(ps[2..]))
    ensures Render(Print(ps)) == Done(Expected(ps))
  {
    var p := ps[1];
    PrintTextTagged(ps);
    ExpectedTextTagged(ps);
    NoMarkers(ps[0].text);
    NoMarkers(p.text);
    RenderTagged(ps[0].text, p.tag, p.text, Print(ps[2..]));
  }

  lemma PrintTextTagged(ps: seq<Piece>)
    requires |ps| > 1 && ps[0].Text? && ps[1].Tagged?
    ensures Print(ps) == ps[0].text + (TagOpen + ps[1].tag + ">" + (ps[1].text + TagClose + Print(ps[2..])))
  {
    var t, tag, text, rest := ps[0].text, ps[1].tag, ps[1].text, Print(ps[2..]);
    assert Print(ps[1..]) == PrintPiece(ps[1]) + rest by {
      assert ps[1..][1..] == ps[2..];
    }
    assert PrintPiece(ps[1]) == TagOpen + tag + ">" + text + TagClose;
    Regroup(TagOpen, tag, ">", text, TagClose, rest);
  }

  lemma Regroup(a: string, b: string, c: string, d: string, e: string, f: string)
    ensures a + b + c + d + e + f == a + b + c + (d + e + f)
  {
  }

  lemma ExpectedTextTagged(ps: seq<Piece>)
    requires |ps| > 1 && ps[0].Text? && ps[1].Tagged?
    ensures Expected(ps) == [Plain(ps[0].text)] + [Colored(ColorOf(ps[1].tag), ps[1].text)] + Expected(ps[2..])
  {
    assert ps[1..][1..] == ps[2..];
  }

  /** An opener with no `>` after it: what precedes it is drawn, then the
      loop spins. */
  lemma RenderHangs(t: string, y: string)
    requires !Contains(t, TagOpen) && NoChar(y, '>')
    ensures Render(t + TagOpen + y) == Hangs(if |t| > 0 then [Plain(t)] else [])
  {
    var input := t + TagOpen + y;
    var pre: seq<Segment> := if |t| > 0 then [Plain(t)] else [];
    RenderOpener(t, y);
    assert AfterOpen(y) == Hangs([]);
    assert pre + [] == pre;
  }

  /** A tag that is never closed is dropped and scanning resumes after its
      `>`. */
  lemma RenderUnclosed(t: string, tag: string, rest: string)
    requires !Contains(t, TagOpen) && !Contains(rest, TagClose) && NoChar(tag, '>')
    ensures Render(t + (TagOpen + tag + ">" + rest)) ==
      Prepend(if |t| > 0 then [Plain(t)] else [], Render(rest))
  {
    var after := tag + ">" + rest;
    OpenerThen(t, tag, rest);
    RenderOpener(t, after);
    UnclosedAfterOpen(tag, rest);
  }

  lemma OpenerThen(t: string, tag: string, rest: string)
    ensures t + (TagOpen + tag + ">" + rest) == t + TagOpen + (tag + ">" + rest)
  {
  }

  /** After the opener, a tag name with no `</c>` behind it is skipped. */
  lemma UnclosedAfterOpen(tag: string, rest: string)
    requires !Contains(rest, TagClose) && NoChar(tag, '>')
    ensures AfterOpen(tag + ">" + rest) == Render(rest)
  {
    AfterOpenTag(tag, rest);
    TagBodyUnclosed(tag, rest);
  }

  /* ---------------- coin units ---------------- */

  datatype CoinUnit = Gold | Silver | Copper

  /** One coin drawn: the amount and the icon of its unit. */
  datatype CoinDraw = CoinDraw(unit: CoinUnit, amount: nat)

  /** `build_tp`: gold and silver are drawn only when not zero, copper
      always, in the order gold, silver, copper. */
  function BuildTp(c: Coins): (ds: seq<CoinDraw>)
    ensures |ds| > 0 && ds[|ds| - 1] == CoinDraw(Copper, c.copper)
    ensures (exists k :: 0 <= k < |ds| && ds[k].unit == Gold) <==> c.gold > 0
    ensures (exists k :: 0 <= k < |ds| && ds[k].unit == Silver) <==> c.silver > 0
    ensures forall k :: 0 <= k < |ds| - 1 ==> UnitRank(ds[k].unit) < UnitRank(ds[k + 1].unit)
    ensures forall k :: 0 <= k < |ds| && ds[k].unit == Gold ==> ds[k].amount == c.gold
    ensures forall k :: 0 <= k < |ds| && ds[k].unit == Silver ==> ds[k].amount == c.silver
    ensures c.gold > 0 ==> ds[0] == CoinDraw(Gold, c.gold)
    ensures c.silver > 0 ==> |ds| >= 2 && ds[|ds| - 2] == CoinDraw(Silver, c.silver)
  {
    var g := if c.gold > 0 then [CoinDraw(Gold, c.gold)] else [];
    var s := if c.silver > 0 then [CoinDraw(Silver, c.silver)] else [];
    var ds := g + s + [CoinDraw(Copper, c.copper)];
    assert forall k :: 0 <= k < |ds| ==>
      (k < |g| && ds[k] == g[k]) || (|g| <= k < |g| + |s| && ds[k] == s[k - |g|]) || (k == |g| + |s| && ds[k].unit == Copper);
    assert c.gold > 0 ==> ds[0].unit == Gold;
    assert c.silver > 0 ==> ds[|g|].unit == Silver;
    ds
  }

  function UnitRank(u: CoinUnit): nat {
    match u case Gold => 0 case Silver => 1 case Copper => 2
  }

  function UnitValue(u: CoinUnit): nat {
    match u case Gold => 10000 case Silver => 100 case Copper => 1
  }

  function DrawnValue(ds: seq<CoinDraw>): nat {
    if |ds| == 0 then 0 else UnitValue(ds[0].unit) * ds[0].amount + DrawnValue(ds[1..])
  }

  /** Leaving out zero units loses no value: the drawn coins are worth
      the price. */
  lemma BuildTpValue(c: Coins)
    ensures DrawnValue(BuildTp(c)) == 10000 * c.gold + 100 * c.silver + c.copper
  {
    var g: seq<CoinDraw> := if c.gold > 0 then [CoinDraw(Gold, c.gold)] else [];
    var s: seq<CoinDraw> := if c.silver > 0 then [CoinDraw(Silver, c.silver)] else [];
    var cu := [CoinDraw(Copper, c.copper)];
    DrawnValueAppend(g + s, cu);
    DrawnValueAppend(g, s);
  }

  lemma {:induction false} DrawnValueAppend(a: seq<CoinDraw>, b: seq<CoinDraw>)
    ensures DrawnValue(a + b) == DrawnValue(a) + DrawnValue(b)
    decreases |a|
  {
    if |a| > 0 {
      assert (a + b)[1..] == a[1..] + b;
      DrawnValueAppend(a[1..], b);
    } else {
      assert a + b == b;
    }
  }

  /* ---------------- location icons ---------------- */

  /** `render_location`: takes the location's entry out of the map; the
      count is shown only when there was one. */
  lemma RenderLocationRemoves(m: LocationMap, l: Location)
    ensures var (m', shown) := Take(m, l);
      m'.Keys == m.Keys - {l} &&
      (forall l' :: l' in m' ==> m'[l'] == m[l']) &&
      (shown.Some? <==> l in m) &&
      (shown.Some? ==> shown.value == m[l].count)
  {
  }
}
