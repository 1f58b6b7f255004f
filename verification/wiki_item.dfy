/** A hit of the wiki's full-text search (src/fms_entities/wiki_item.rs):
    its tooltip text and its browser link. */
module WikiItems {
  import opened Prelude

  datatype WikiItem = WikiItem(title: string, pageid: nat, snippet: string)

  /** The markup the wiki puts around matched words. */
  const MatchOpen: string := "<span class=\"searchmatch\">"
  const MatchClose: string := "</span>"
  const Ellipsis: string := "..."

  /** The tooltip text: the snippet between two ellipses, with every
      highlight opener removed and then every closing tag. */
  function CleanSnippet(snippet: string): (r: string)
  {
    ReplaceAll(ReplaceAll(Ellipsis + snippet + Ellipsis, MatchOpen, ""), MatchClose, "")
  }

  /** No character of an ellipsis can take part in the markup. */
  lemma EllipsisIsNotMarkup()
    ensures forall i, j :: 0 <= i < |Ellipsis| && 0 <= j < |MatchOpen| ==> Ellipsis[i] != MatchOpen[j]
    ensures forall i, j :: 0 <= i < |Ellipsis| && 0 <= j < |MatchClose| ==> Ellipsis[i] != MatchClose[j]
    ensures forall i :: 0 <= i < |Ellipsis| ==> Ellipsis[i] != '<'
  {
    assert forall i :: 0 <= i < |Ellipsis| ==> Ellipsis[i] == '.';
    assert forall j :: 0 <= j < |MatchOpen| ==> MatchOpen[j] != '.';
    assert forall j :: 0 <= j < |MatchClose| ==> MatchClose[j] != '.';
  }

  /** The ellipses survive the clean-up whatever the snippet holds: only
      its inside is rewritten. */
  lemma CleanSnippetFrame(snippet: string)
    ensures CleanSnippet(snippet) ==
      Ellipsis + ReplaceAll(ReplaceAll(snippet, MatchOpen, ""), MatchClose, "") + Ellipsis
  {
    EllipsisIsNotMarkup();
    Framed(snippet, MatchOpen);
    Framed(ReplaceAll(snippet, MatchOpen, ""), MatchClose);
  }

  /** Removing one marker from a framed text leaves the frame. */
  lemma Framed(x: string, pat: string)
    requires |pat| > 0
    requires forall i, j :: 0 <= i < |Ellipsis| && 0 <= j < |pat| ==> Ellipsis[i] != pat[j]
    ensures ReplaceAll(Ellipsis + x + Ellipsis, pat, "") == Ellipsis + ReplaceAll(x, pat, "") + Ellipsis
  {
    assert Ellipsis + x + Ellipsis == Ellipsis + (x + Ellipsis);
    ReplaceKeepsPrefix(Ellipsis, x + Ellipsis, pat, "");
    ReplaceKeepsSuffix(x, Ellipsis, pat, "");
  }

  /** A snippet without highlight markup is shown verbatim between the
      ellipses. */
  lemma CleanSnippetPlain(snippet: string)
    requires !Contains(snippet, MatchOpen) && !Contains(snippet, MatchClose)
    ensures CleanSnippet(snippet) == Ellipsis + snippet + Ellipsis
  {
    CleanSnippetFrame(snippet);
    ReplaceAllAbsent(snippet, MatchOpen, "");
    ReplaceAllAbsent(snippet, MatchClose, "");
  }

  const CuridPrefix: string := "https://wiki.guildwars2.com/index.php?curid="

  /** The browser link: the page addressed by its numeric id. */
  function CuridUrl(item: WikiItem): (url: string)
    ensures |url| > |CuridPrefix| && url[..|CuridPrefix|] == CuridPrefix
    ensures forall i :: |CuridPrefix| <= i < |url| ==> IsDigit(url[i])
  {
    CuridPrefix + NatToString(item.pageid)
  }

  /** The link names exactly the item's page. */
  lemma CuridUrlPage(item: WikiItem)
    ensures ParseNat(CuridUrl(item)[|CuridPrefix|..]) == item.pageid
  {
    assert CuridUrl(item)[|CuridPrefix|..] == NatToString(item.pageid);
    ParseNatToString(item.pageid);
  }
}
