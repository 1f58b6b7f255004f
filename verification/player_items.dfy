/** The plugin's own item type (src/fms_entities/player_item.rs): one record
    per item id, with the quantity and modifiers it has at each storage
    location, plus two pieces of display state that are never stored. */
module PlayerItems {
  import opened Prelude
  import opened Entities

  /** Where an item lies on the account. Equality is by variant and, for a
      character, by the character's name. */
  datatype Location = Character(characterName: string) | Bank | SharedInventory | MaterialStorage

  /** Quantity and modifiers of one item at one location. */
  datatype Specifics = Specifics(count: nat, charges: nat, upgrades: seq<nat>, infusions: seq<nat>)

  type LocationMap = map<Location, Specifics>

  /** The serialised fields of an item. This is the payload an index
      document stores, and also the whole of the older item type that the
      ingestion pipeline of src/index/item_loader.rs builds. */
  datatype ItemRecord = ItemRecord(
    id: nat,
    name: string,
    description: Option<string>,
    icon: Option<string>,
    itemType: Gw2ItemType,
    rarity: Gw2Rarity,
    locations: LocationMap)

  /** An item as searched and displayed: the record plus the trading-post
      price attached after a search and the tri-state "has a wiki page"
      flag, both skipped by serialisation. */
  datatype PlayerItem = PlayerItem(
    id: nat,
    name: string,
    description: Option<string>,
    icon: Option<string>,
    itemType: Gw2ItemType,
    rarity: Gw2Rarity,
    locations: LocationMap,
    tpInfo: Option<Price>,
    wikiable: Option<bool>)

  /* ---------------- serialisation ---------------- */

  /** What serialisation keeps of an item. */
  function Payload(p: PlayerItem): (r: ItemRecord)
    ensures r.id == p.id && r.name == p.name && r.locations == p.locations
  {
    ItemRecord(p.id, p.name, p.description, p.icon, p.itemType, p.rarity, p.locations)
  }

  /** Deserialisation: the skipped fields take their defaults. */
  function Restore(r: ItemRecord): (p: PlayerItem)
    ensures p.tpInfo.None? && p.wikiable.None?
  {
    PlayerItem(r.id, r.name, r.description, r.icon, r.itemType, r.rarity, r.locations, None, None)
  }

  /** Storing and reading back loses exactly the price and the wiki flag. */
  lemma PayloadRoundTrip(p: PlayerItem, r: ItemRecord)
    ensures Payload(Restore(r)) == r
    ensures Restore(Payload(p)) == p.(tpInfo := None, wikiable := None)
    ensures Restore(Payload(p)) == p <==> p.tpInfo.None? && p.wikiable.None?
  {
  }

  /** A field of the search index. */
  datatype IndexDoc = IndexDoc(id: nat, name: string, description: string, payload: ItemRecord)

  /** The document an item is indexed as: lower-cased name and description
      (a missing description indexes as empty text) and the record itself. */
  function RecordDoc(r: ItemRecord): (d: IndexDoc)
    ensures d.id == r.id && d.payload == r
    ensures d.name == Lower(r.name) && d.description == Lower(r.description.GetOr(""))
    ensures |d.name| == |r.name| && forall i :: 0 <= i < |d.name| ==> !('A' <= d.name[i] <= 'Z')
    ensures r.description.None? ==> d.description == ""
    ensures Lower(d.name) == d.name && Lower(d.description) == d.description
  {
    LowerIsLower(r.name);
    LowerIsLower(r.description.GetOr(""));
    IndexDoc(r.id, Lower(r.name), Lower(r.description.GetOr("")), r)
  }

  /** `PlayerItem::doc`: the document of the serialised part. */
  function Doc(p: PlayerItem): (d: IndexDoc)
    ensures d.payload == Payload(p)
    ensures Restore(d.payload) == p.(tpInfo := None, wikiable := None)
  {
    RecordDoc(Payload(p))
  }

  /* ---------------- construction ---------------- */

  /** Per-location data of a raw slot; absent charges count as zero and
      absent modifier lists as empty. */
  function SpecificsOf(slot: Gw2PlayerItem): (s: Specifics)
    ensures s.count == slot.count
    ensures slot.charges.None? ==> s.charges == 0
    ensures slot.charges.Some? ==> s.charges == slot.charges.value
    ensures slot.upgrades.None? ==> s.upgrades == []
    ensures slot.upgrades.Some? ==> s.upgrades == slot.upgrades.value
    ensures slot.infusions.None? ==> s.infusions == []
    ensures slot.infusions.Some? ==> s.infusions == slot.infusions.value
  {
    Specifics(slot.count, slot.charges.GetOr(0), slot.upgrades.GetOr([]), slot.infusions.GetOr([]))
  }

  /** `PlayerItem::from`: the id comes from the slot, the descriptive fields
      from the metadata, and the item sits at exactly one location. */
  function From(location: Location, slot: Gw2PlayerItem, meta: Gw2Item): (p: PlayerItem)
    ensures p.locations.Keys == {location} && p.locations[location] == SpecificsOf(slot)
    ensures p.id == slot.id
    ensures p.name == meta.name && p.description == meta.description && p.icon == meta.icon
    ensures p.itemType == meta.itemType && p.rarity == meta.rarity
    ensures p.tpInfo.None? && p.wikiable.None?
  {
    PlayerItem(slot.id, meta.name, meta.description, meta.icon, meta.itemType, meta.rarity,
               map[location := SpecificsOf(slot)], None, None)
  }

  function SetTp(p: PlayerItem, tp: Option<Price>): (q: PlayerItem)
    ensures q.tpInfo == tp && Payload(q) == Payload(p) && q.wikiable == p.wikiable
  {
    p.(tpInfo := tp)
  }

  /* ---------------- accumulation ---------------- */

  /** Two stacks of one item at one location: quantities add up, modifier
      lists are concatenated without removing duplicates. */
  function Combine(a: Specifics, b: Specifics): (c: Specifics)
    ensures c.count == a.count + b.count && c.charges == a.charges + b.charges
    ensures |c.upgrades| == |a.upgrades| + |b.upgrades| && |c.infusions| == |a.infusions| + |b.infusions|
    ensures c.upgrades[..|a.upgrades|] == a.upgrades && c.upgrades[|a.upgrades|..] == b.upgrades
    ensures c.infusions[..|a.infusions|] == a.infusions && c.infusions[|a.infusions|..] == b.infusions
  {
    Specifics(a.count + b.count, a.charges + b.charges, a.upgrades + b.upgrades, a.infusions + b.infusions)
  }

  /** What `PlayerItem::add` makes of the location maps, stated per location. */
  function Accumulate(a: LocationMap, b: LocationMap): (r: LocationMap)
    ensures r.Keys == a.Keys + b.Keys
  {
    map l | l in a.Keys + b.Keys ::
      if l in a && l in b then Combine(a[l], b[l]) else if l in a then a[l] else b[l]
  }

  /** `PlayerItem::add`: walks the other item's locations one by one, adding
      into an existing entry or inserting a new one. Everything but the
      location map is left as it was. */
  method Add(self: PlayerItem, item: PlayerItem) returns (r: PlayerItem)
    ensures r == self.(locations := r.locations)
    ensures r.locations.Keys == self.locations.Keys + item.locations.Keys
    ensures forall l :: l in self.locations && l in item.locations ==>
      r.locations[l] == Combine(self.locations[l], item.locations[l])
    ensures forall l :: l in self.locations && l !in item.locations ==> r.locations[l] == self.locations[l]
    ensures forall l :: l !in self.locations && l in item.locations ==> r.locations[l] == item.locations[l]
  {
    var locs := self.locations;
    var rest := item.locations.Keys;
    while rest != {}
      invariant rest <= item.locations.Keys
      invariant locs.Keys == self.locations.Keys + (item.locations.Keys - rest)
      invariant forall l :: l in locs && l in rest ==> locs[l] == self.locations[l]
      invariant forall l :: l in locs && l !in rest ==> locs[l] == Accumulate(self.locations, item.locations)[l]
      decreases rest
    {
      var l :| l in rest;
      if l in locs {
        locs := locs[l := Combine(locs[l], item.locations[l])];
      } else {
        locs := locs[l := item.locations[l]];
      }
      rest := rest - {l};
    }
    r := self.(locations := locs);
  }

  /** The loop of `Add` computes `Accumulate`. */
  lemma AddIsAccumulate(self: PlayerItem, item: PlayerItem, r: PlayerItem)
    requires r == self.(locations := r.locations)
    requires r.locations.Keys == self.locations.Keys + item.locations.Keys
    requires forall l :: l in self.locations && l in item.locations ==>
      r.locations[l] == Combine(self.locations[l], item.locations[l])
    requires forall l :: l in self.locations && l !in item.locations ==> r.locations[l] == self.locations[l]
    requires forall l :: l !in self.locations && l in item.locations ==> r.locations[l] == item.locations[l]
    ensures r.locations == Accumulate(self.locations, item.locations)
  {
  }

  /** Merging in an item whose locations are all new is a disjoint union. */
  lemma AccumulateDisjoint(a: LocationMap, b: LocationMap)
    requires a.Keys !! b.Keys
    ensures Accumulate(a, b) == a + b
  {
  }

  /** Repeating a merge does not leave quantities alone: merging the same
      entry twice doubles its count and its modifier lists. */
  lemma AccumulateTwiceDoubles(a: LocationMap, b: LocationMap, l: Location)
    requires l in b && l !in a
    ensures Accumulate(Accumulate(a, b), b)[l].count == 2 * b[l].count
    ensures Accumulate(Accumulate(a, b), b)[l].upgrades == b[l].upgrades + b[l].upgrades
  {
  }

  /** The worked example: five and three of an item in the bank make eight. */
  lemma AccumulateBankExample()
    ensures Accumulate(map[Bank := Specifics(5, 0, [], [])], map[Bank := Specifics(3, 0, [], [])])
         == map[Bank := Specifics(8, 0, [], [])]
  {
    var a := map[Bank := Specifics(5, 0, [], [])];
    var b := map[Bank := Specifics(3, 0, [], [])];
    var r := Accumulate(a, b);
    assert r.Keys == {Bank} by {
      assert a.Keys == {Bank} && b.Keys == {Bank};
    }
    assert r[Bank] == Specifics(8, 0, [], []) by {
      assert Bank in a && Bank in b;
      var c := Combine(a[Bank], b[Bank]);
      assert c.count == 8 && c.charges == 0;
      assert |c.upgrades| == 0 && |c.infusions| == 0;
    }
    SingletonMap(r, Bank, Specifics(8, 0, [], []));
  }

  lemma SingletonMap(m: LocationMap, l: Location, v: Specifics)
    requires m.Keys == {l} && m[l] == v
    ensures m == map[l := v]
  {
  }

  /* ---------------- display ---------------- */

  const WikiBase: string := "https://wiki.guildwars2.com/wiki/"

  /** The wiki page link: the item name with every space turned into `_`. */
  function WikiUrl(name: string): (url: string)
    ensures |url| == |WikiBase| + |name| && url[..|WikiBase|] == WikiBase
    ensures forall i :: 0 <= i < |name| ==>
      url[|WikiBase| + i] == (if name[i] == ' ' then '_' else name[i])
  {
    ReplaceCharSpec(name, ' ', '_');
    WikiBase + ReplaceAll(name, " ", "_")
  }

  /** Replacing one character by another is a character-wise map. */
  lemma {:induction false} ReplaceCharSpec(s: string, c: char, d: char)
    ensures |ReplaceAll(s, [c], [d])| == |s|
    ensures forall i :: 0 <= i < |s| ==> ReplaceAll(s, [c], [d])[i] == (if s[i] == c then d else s[i])
    decreases |s|
  {
    if |s| > 0 {
      ReplaceCharSpec(s[1..], c, d);
      if s[..1] == [c] {
        assert s[1..] == s[|[c]|..];
      }
    }
  }

  /** One frame of the wiki link: whether a reachability probe is started and
      whether the link icon is drawn, with the flag's new value. */
  datatype WikiFrame = WikiFrame(wikiable: Option<bool>, startProbe: bool, showLink: bool)

  function RenderWiki(wikiable: Option<bool>): (f: WikiFrame)
    ensures f.startProbe <==> wikiable.None?
    ensures f.showLink <==> wikiable == Some(true)
    ensures f.wikiable.Some?
    ensures wikiable.Some? ==> f.wikiable == wikiable
  {
    match wikiable
    case None => WikiFrame(Some(false), true, false)
    case Some(false) => WikiFrame(wikiable, false, false)
    case Some(true) => WikiFrame(wikiable, false, true)
  }

  /** The probe's completion: a reachable page marks the item wikiable, a
      failed probe leaves the flag as it is. */
  function ProbeDone(wikiable: Option<bool>, reachable: bool): (w: Option<bool>)
    ensures reachable ==> w == Some(true)
    ensures !reachable ==> w == wikiable
  {
    if reachable then Some(true) else wikiable
  }

  /** Number of probes started over a run of frames; between frames a probe
      may or may not complete, as `outcomes[k]` says. */
  function ProbesStarted(wikiable: Option<bool>, outcomes: seq<Option<bool>>): nat
    decreases |outcomes|
  {
    if |outcomes| == 0 then 0
    else
      var f := RenderWiki(wikiable);
      var next := match outcomes[0] case None => f.wikiable case Some(ok) => ProbeDone(f.wikiable, ok);
      (if f.startProbe then 1 else 0) + ProbesStarted(next, outcomes[1..])
  }

  /** However many frames are drawn, an item is probed at most once, and
      never once its flag is set. */
  lemma {:induction false} AtMostOneProbe(wikiable: Option<bool>, outcomes: seq<Option<bool>>)
    ensures ProbesStarted(wikiable, outcomes) <= 1
    ensures wikiable.Some? ==> ProbesStarted(wikiable, outcomes) == 0
    decreases |outcomes|
  {
    if |outcomes| > 0 {
      var f := RenderWiki(wikiable);
      var next := match outcomes[0] case None => f.wikiable case Some(ok) => ProbeDone(f.wikiable, ok);
      AtMostOneProbe(next, outcomes[1..]);
    }
  }

  /** The location icons of `render_self`: the bank, material storage and
      shared inventory entries are taken out in that order, each with its
      count if present; what is left is shown as character inventories. */
  datatype LocationSplit = LocationSplit(
    bank: Option<nat>, materials: Option<nat>, shared: Option<nat>, characters: LocationMap)

  function Take(m: LocationMap, l: Location): (r: (LocationMap, Option<nat>))
    ensures r.0 == m - {l}
    ensures r.1.Some? <==> l in m
    ensures l in m ==> r.1 == Some(m[l].count)
  {
    if l in m then (m - {l}, Some(m[l].count)) else (m, None)
  }

  function SplitLocations(locs: LocationMap): (s: LocationSplit)
    ensures s.characters.Keys == set l | l in locs && l.Character?
    ensures forall l :: l in s.characters ==> s.characters[l] == locs[l]
    ensures Bank in locs <==> s.bank.Some?
    ensures MaterialStorage in locs <==> s.materials.Some?
    ensures SharedInventory in locs <==> s.shared.Some?
    ensures Bank in locs ==> s.bank == Some(locs[Bank].count)
    ensures MaterialStorage in locs ==> s.materials == Some(locs[MaterialStorage].count)
    ensures SharedInventory in locs ==> s.shared == Some(locs[SharedInventory].count)
  {
    var (m1, bank) := Take(locs, Bank);
    var (m2, mats) := Take(m1, MaterialStorage);
    var (m3, shared) := Take(m2, SharedInventory);
    LocationSplit(bank, mats, shared, m3)
  }
}
