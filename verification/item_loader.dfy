/** The ingestion pipeline (src/index/item_loader.rs): fetch every location's
    slots, resolve item metadata, build one record per slot and merge the
    records by item id. Replies of the account API are parameters; a failed
    fetch is `None`. The records are this file's own item type, which has
    exactly the fields of `ItemRecord`. */
module ItemLoader {
  import opened Prelude
  import opened Entities
  import opened PlayerItems
  import Requests

  /* ---------------- the older item type ---------------- */

  /** `PlayerItem::from` of this file: same fields as the newer version. */
  function FromSlot(location: Location, slot: Gw2PlayerItem, meta: Gw2Item): (r: ItemRecord)
    ensures r.locations.Keys == {location} && r.locations[location] == SpecificsOf(slot)
    ensures r.id == slot.id && r.name == meta.name && r.description == meta.description
    ensures r.icon == meta.icon && r.itemType == meta.itemType && r.rarity == meta.rarity
  {
    ItemRecord(slot.id, meta.name, meta.description, meta.icon, meta.itemType, meta.rarity,
               map[location := SpecificsOf(slot)])
  }

  /** Both versions of `from` build the same stored record. */
  lemma FromVersionsAgree(location: Location, slot: Gw2PlayerItem, meta: Gw2Item)
    ensures Payload(PlayerItems.From(location, slot, meta)) == FromSlot(location, slot, meta)
  {
  }

  /** What this file's `add` makes of the location maps: every location of
      the argument replaces the receiver's entry. */
  function Overwrite(a: LocationMap, b: LocationMap): (r: LocationMap)
    ensures r.Keys == a.Keys + b.Keys
  {
    a + b
  }

  /** `add` of this file: inserts each of the argument's locations, dropping
      whatever the receiver had there. */
  method AddOverwriting(self: ItemRecord, item: ItemRecord) returns (r: ItemRecord)
    ensures r == self.(locations := r.locations)
    ensures r.locations.Keys == self.locations.Keys + item.locations.Keys
    ensures forall l :: l in item.locations ==> r.locations[l] == item.locations[l]
    ensures forall l :: l in self.locations && l !in item.locations ==> r.locations[l] == self.locations[l]
  {
    var locs := self.locations;
    var rest := item.locations.Keys;
    while rest != {}
      invariant rest <= item.locations.Keys
      invariant locs.Keys == self.locations.Keys + (item.locations.Keys - rest)
      invariant forall l :: l in locs && l in rest ==> locs[l] == self.locations[l]
      invariant forall l :: l in item.locations && l !in rest ==> locs[l] == item.locations[l]
      invariant forall l :: l in locs && l !in item.locations ==> locs[l] == self.locations[l]
      decreases rest
    {
      var l :| l in rest;
      locs := locs[l := item.locations[l]];
      rest := rest - {l};
    }
    r := self.(locations := locs);
  }

  /** The loop of `AddOverwriting` computes `Overwrite`. */
  lemma AddOverwritingIsOverwrite(self: ItemRecord, item: ItemRecord, r: ItemRecord)
    requires r.locations.Keys == self.locations.Keys + item.locations.Keys
    requires forall l :: l in item.locations ==> r.locations[l] == item.locations[l]
    requires forall l :: l in self.locations && l !in item.locations ==> r.locations[l] == self.locations[l]
    ensures r.locations == Overwrite(self.locations, item.locations)
  {
  }

  /* ---------------- slot extraction ---------------- */

  /** The occupied slots, in order. */
  function Occupied(slots: seq<Option<Gw2PlayerItem>>): (r: seq<Gw2PlayerItem>)
    ensures |r| <= |slots|
    ensures forall x :: x in r <==> Some(x) in slots
    ensures |r| == |slots| <==> forall k :: 0 <= k < |slots| ==> slots[k].Some?
  {
    if |slots| == 0 then []
    else
      var rest := Occupied(slots[1..]);
      assert forall x :: Some(x) in slots <==> Some(x) == slots[0] || Some(x) in slots[1..];
      match slots[0]
      case Some(x) => [x] + rest
      case None => rest
  }

  /** Flattening works slot by slot: the occupied slots of two runs of
      slots are those of the first run followed by those of the second. */
  lemma {:induction false} OccupiedAppend(a: seq<Option<Gw2PlayerItem>>, b: seq<Option<Gw2PlayerItem>>)
    ensures Occupied(a + b) == Occupied(a) + Occupied(b)
    decreases |a|
  {
    if |a| == 0 {
      assert a + b == b;
    } else {
      assert (a + b)[1..] == a[1..] + b;
      OccupiedAppend(a[1..], b);
    }
  }

  /** Every occupied slot is kept as often as it occurs. */
  lemma {:induction false} OccupiedCounts(slots: seq<Option<Gw2PlayerItem>>)
    ensures forall x :: multiset(Occupied(slots))[x] == multiset(slots)[Some(x)]
    decreases |slots|
  {
    if |slots| > 0 {
      OccupiedCounts(slots[1..]);
      var head: seq<Gw2PlayerItem> := if slots[0].Some? then [slots[0].value] else [];
      assert Occupied(slots) == head + Occupied(slots[1..]);
      assert slots == [slots[0]] + slots[1..];
      OccupiedCountsStep(head, Occupied(slots[1..]), slots[0], slots[1..]);
    }
  }

  /** One slot in front of the rest adds its item, if any, once. */
  lemma OccupiedCountsStep(head: seq<Gw2PlayerItem>, rest: seq<Gw2PlayerItem>, slot: Option<Gw2PlayerItem>, tail: seq<Option<Gw2PlayerItem>>)
    requires head == if slot.Some? then [slot.value] else []
    requires forall x :: multiset(rest)[x] == multiset(tail)[Some(x)]
    ensures forall x :: multiset(head + rest)[x] == multiset([slot] + tail)[Some(x)]
  {
    assert multiset([slot] + tail) == multiset{slot} + multiset(tail);
    assert multiset(head + rest) == multiset(head) + multiset(rest);
    forall x ensures multiset(head + rest)[x] == multiset([slot] + tail)[Some(x)] {
      assert multiset(head)[x] == multiset{slot}[Some(x)];
    }
  }

  function BagSlots(bags: seq<Gw2Bag>): seq<Option<Gw2PlayerItem>> {
    if |bags| == 0 then [] else bags[0].inventory + BagSlots(bags[1..])
  }

  /** A character's occupied slots, across all bags in order. */
  function CharacterSlots(inv: Gw2Inventory): (r: seq<Gw2PlayerItem>)
    ensures forall b, k :: 0 <= b < |inv.bags| && 0 <= k < |inv.bags[b].inventory| && inv.bags[b].inventory[k].Some? ==>
      inv.bags[b].inventory[k].value in r
    ensures forall x :: x in r ==> exists b :: 0 <= b < |inv.bags| && Some(x) in inv.bags[b].inventory
  {
    BagSlotsContents(inv.bags);
    Occupied(BagSlots(inv.bags))
  }

  /** The slots are taken bag by bag: the first bag's occupied slots, in
      order, then those of the remaining bags. */
  lemma CharacterSlotsPerBag(bags: seq<Gw2Bag>)
    ensures CharacterSlots(Gw2Inventory(bags)) ==
      if |bags| == 0 then [] else Occupied(bags[0].inventory) + CharacterSlots(Gw2Inventory(bags[1..]))
  {
    if |bags| > 0 {
      OccupiedAppend(bags[0].inventory, BagSlots(bags[1..]));
    }
  }

  lemma {:induction false} BagSlotsContents(bags: seq<Gw2Bag>)
    ensures forall o :: o in BagSlots(bags) <==> exists b :: 0 <= b < |bags| && o in bags[b].inventory
    decreases |bags|
  {
    if |bags| > 0 {
      var all := BagSlots(bags);
      var later := BagSlots(bags[1..]);
      assert all == bags[0].inventory + later;
      BagSlotsContents(bags[1..]);
      forall o | o in all
        ensures exists b :: 0 <= b < |bags| && o in bags[b].inventory
      {
        if o in bags[0].inventory {
          assert 0 < |bags| && o in bags[0].inventory;
        } else {
          assert o in later;
          var b :| 0 <= b < |bags[1..]| && o in bags[1..][b].inventory;
          assert bags[b + 1] == bags[1..][b];
        }
      }
      forall o, b | 0 <= b < |bags| && o in bags[b].inventory
        ensures o in all
      {
        if b > 0 {
          assert bags[1..][b - 1] == bags[b];
          assert o in later;
        }
      }
    }
  }

  /* ---------------- metadata and conversion ---------------- */

  function SlotId(slot: Gw2PlayerItem): nat { slot.id }

  function MetaId(m: Gw2Item): nat { m.id }

  /** The id-keyed lookup built from the metadata list; of two entries with
      the same id the later one is kept (see `KeyByLastWins`). */
  function MetaMap(metas: seq<Gw2Item>): (m: map<nat, Gw2Item>)
    ensures forall k :: 0 <= k < |metas| ==> metas[k].id in m
    ensures forall id :: id in m ==> m[id].id == id && m[id] in metas
  {
    KeyBy(metas, MetaId)
  }

  /** The records for the slots whose id has metadata, in slot order. */
  function ConvertWith(location: Location, slots: seq<Gw2PlayerItem>, meta: map<nat, Gw2Item>): (r: seq<ItemRecord>)
    ensures |r| <= |slots|
    ensures forall k :: 0 <= k < |r| ==> r[k].id in meta && r[k].locations.Keys == {location}
    ensures forall k :: 0 <= k < |r| ==> r[k].name == meta[r[k].id].name && r[k].rarity == meta[r[k].id].rarity
    ensures |r| == |slots| <==> forall k :: 0 <= k < |slots| ==> slots[k].id in meta
    decreases |slots|
  {
    if |slots| == 0 then []
    else
      var rest := ConvertWith(location, slots[1..], meta);
      assert forall k :: 1 <= k < |slots| ==> slots[1..][k - 1] == slots[k];
      if slots[0].id in meta then [FromSlot(location, slots[0], meta[slots[0].id])] + rest
      else rest
  }

  /** The slots whose id has metadata, in slot order: a reference
      definition of the filter `convert` applies. */
  function Resolved(slots: seq<Gw2PlayerItem>, meta: map<nat, Gw2Item>): seq<Gw2PlayerItem>
    decreases |slots|
  {
    if |slots| == 0 then []
    else (if slots[0].id in meta then [slots[0]] else []) + Resolved(slots[1..], meta)
  }

  /** The filter keeps every slot that has metadata and no other, and keeps
      all slots exactly when all have metadata. */
  lemma {:induction false} ResolvedContents(slots: seq<Gw2PlayerItem>, meta: map<nat, Gw2Item>)
    ensures |Resolved(slots, meta)| <= |slots|
    ensures forall x :: x in Resolved(slots, meta) <==> x in slots && x.id in meta
    ensures |Resolved(slots, meta)| == |slots| <==> forall k :: 0 <= k < |slots| ==> slots[k].id in meta
    decreases |slots|
  {
    if |slots| > 0 {
      ResolvedContents(slots[1..], meta);
      assert forall x :: x in slots <==> x == slots[0] || x in slots[1..];
      assert forall k :: 1 <= k < |slots| ==> slots[1..][k - 1] == slots[k];
    }
  }

  /** `records` are what `from` builds for the slots whose id has metadata:
      one record per such slot, in slot order, from that slot and its
      metadata. */
  predicate BuiltFrom(records: seq<ItemRecord>, location: Location, slots: seq<Gw2PlayerItem>, meta: map<nat, Gw2Item>) {
    var rs := Resolved(slots, meta);
    |records| == |rs| &&
    forall k :: 0 <= k < |rs| ==> rs[k].id in meta && records[k] == FromSlot(location, rs[k], meta[rs[k].id])
  }

  /** The conversion builds one record per slot that has metadata, in slot
      order, each from its own slot and metadata. */
  lemma {:induction false} ConvertWithResolved(location: Location, slots: seq<Gw2PlayerItem>, meta: map<nat, Gw2Item>)
    ensures BuiltFrom(ConvertWith(location, slots, meta), location, slots, meta)
    decreases |slots|
  {
    if |slots| > 0 {
      ConvertWithResolved(location, slots[1..], meta);
      var rest := ConvertWith(location, slots[1..], meta);
      if slots[0].id in meta {
        assert ConvertWith(location, slots, meta) == [FromSlot(location, slots[0], meta[slots[0].id])] + rest;
        BuiltFromCons(rest, location, slots, meta);
      } else {
        assert ConvertWith(location, slots, meta) == rest;
        BuiltFromSkip(rest, location, slots, meta);
      }
    }
  }

  /** A first slot without metadata adds no record. */
  lemma BuiltFromSkip(rest: seq<ItemRecord>, location: Location, slots: seq<Gw2PlayerItem>, meta: map<nat, Gw2Item>)
    requires |slots| > 0 && slots[0].id !in meta
    requires BuiltFrom(rest, location, slots[1..], meta)
    ensures BuiltFrom(rest, location, slots, meta)
  {
    ResolvedSkip(slots, meta);
    BuiltFromSameResolved(rest, location, slots[1..], slots, meta);
  }

  lemma ResolvedSkip(slots: seq<Gw2PlayerItem>, meta: map<nat, Gw2Item>)
    requires |slots| > 0 && slots[0].id !in meta
    ensures Resolved(slots, meta) == Resolved(slots[1..], meta)
  {
    assert Resolved(slots, meta) == [] + Resolved(slots[1..], meta);
  }

  /** `BuiltFrom` sees the slots only through the ones that resolve. */
  lemma BuiltFromSameResolved(records: seq<ItemRecord>, location: Location, a: seq<Gw2PlayerItem>, b: seq<Gw2PlayerItem>, meta: map<nat, Gw2Item>)
    requires Resolved(a, meta) == Resolved(b, meta)
    requires BuiltFrom(records, location, a, meta)
    ensures BuiltFrom(records, location, b, meta)
  {
  }

  /** A resolvable first slot puts its record in front. */
  lemma BuiltFromCons(rest: seq<ItemRecord>, location: Location, slots: seq<Gw2PlayerItem>, meta: map<nat, Gw2Item>)
    requires |slots| > 0 && slots[0].id in meta
    requires BuiltFrom(rest, location, slots[1..], meta)
    ensures BuiltFrom([FromSlot(location, slots[0], meta[slots[0].id])] + rest, location, slots, meta)
  {
    var records := [FromSlot(location, slots[0], meta[slots[0].id])] + rest;
    var rrs := Resolved(slots[1..], meta);
    var rs := Resolved(slots, meta);
    assert rs == [slots[0]] + rrs;
    forall k | 0 < k < |rs|
      ensures rs[k].id in meta && records[k] == FromSlot(location, rs[k], meta[rs[k].id])
    {
      assert rs[k] == rrs[k - 1] && records[k] == rest[k - 1];
    }
  }

  function RecordId(r: ItemRecord): nat { r.id }

  /** The conversion keeps the ids of the slots that have metadata, in
      slot order, and only those. */
  lemma ConvertWithIds(location: Location, slots: seq<Gw2PlayerItem>, meta: map<nat, Gw2Item>)
    ensures MapSeq(ConvertWith(location, slots, meta), RecordId) == MapSeq(Resolved(slots, meta), SlotId)
  {
    ConvertWithResolved(location, slots, meta);
  }

  /** The metadata lookup of `convert`: the items endpoint's replies for
      the slots' ids, keyed by id. */
  function Lookup(slots: seq<Gw2PlayerItem>, api: string -> Option<seq<Gw2Item>>): map<nat, Gw2Item> {
    MetaMap(Requests.FetchItems(MapSeq(slots, SlotId), api))
  }

  /** `convert`: looks up the slots' ids in batches and keeps the slots
      whose id came back, tagged with the location. */
  function Convert(location: Location, slots: seq<Gw2PlayerItem>, api: string -> Option<seq<Gw2Item>>): (r: seq<ItemRecord>)
    ensures |r| <= |slots|
    ensures forall k :: 0 <= k < |r| ==> r[k].locations.Keys == {location}
    ensures BuiltFrom(r, location, slots, Lookup(slots, api))
  {
    ConvertWithResolved(location, slots, Lookup(slots, api));
    ConvertWith(location, slots, Lookup(slots, api))
  }

  /** `fetch_from_character`: all occupied slots of all bags; nothing when
      the inventory request failed. */
  function FetchFromCharacter(name: string, reply: Option<Gw2Inventory>, api: string -> Option<seq<Gw2Item>>): (r: seq<ItemRecord>)
    ensures reply.None? ==> r == []
    ensures forall k :: 0 <= k < |r| ==> r[k].locations.Keys == {Character(name)}
    ensures reply.Some? ==>
      var slots := CharacterSlots(reply.value);
      BuiltFrom(r, Character(name), slots, Lookup(slots, api))
  {
    match reply
    case None => []
    case Some(inv) => Convert(Character(name), CharacterSlots(inv), api)
  }

  /** `fetch_from`: the occupied slots of a flat slot list (shared inventory,
      bank); nothing when the request failed. */
  function FetchFrom(reply: Option<seq<Option<Gw2PlayerItem>>>, location: Location, api: string -> Option<seq<Gw2Item>>): (r: seq<ItemRecord>)
    ensures reply.None? ==> r == []
    ensures reply.Some? ==> |r| <= |Occupied(reply.value)|
    ensures forall k :: 0 <= k < |r| ==> r[k].locations.Keys == {location}
    ensures reply.Some? ==>
      var slots := Occupied(reply.value);
      BuiltFrom(r, location, slots, Lookup(slots, api))
  {
    match reply
    case None => []
    case Some(slots) => Convert(location, Occupied(slots), api)
  }

  /** The materials in stock, in storage order. */
  function Stocked(materials: seq<Gw2PlayerItem>): (r: seq<Gw2PlayerItem>)
    ensures |r| <= |materials|
    ensures forall k :: 0 <= k < |r| ==> r[k].count > 0 && r[k] in materials
    ensures forall x :: x in materials && x.count > 0 ==> x in r
  {
    if |materials| == 0 then []
    else if materials[0].count > 0 then [materials[0]] + Stocked(materials[1..])
    else Stocked(materials[1..])
  }

  /** The filter works entry by entry: the stock of two runs of entries is
      the first run's stock followed by the second's. */
  lemma {:induction false} StockedAppend(a: seq<Gw2PlayerItem>, b: seq<Gw2PlayerItem>)
    ensures Stocked(a + b) == Stocked(a) + Stocked(b)
    decreases |a|
  {
    if |a| == 0 {
      assert a + b == b;
    } else {
      assert (a + b)[1..] == a[1..] + b;
      StockedAppend(a[1..], b);
    }
  }

  /** Every entry in stock is kept as often as it occurs, and no other. */
  lemma {:induction false} StockedCounts(materials: seq<Gw2PlayerItem>)
    ensures forall x :: multiset(Stocked(materials))[x] == if x.count > 0 then multiset(materials)[x] else 0
    decreases |materials|
  {
    if |materials| > 0 {
      StockedCounts(materials[1..]);
      var head: seq<Gw2PlayerItem> := if materials[0].count > 0 then [materials[0]] else [];
      assert Stocked(materials) == head + Stocked(materials[1..]);
      assert materials == [materials[0]] + materials[1..];
      StockedCountsStep(head, Stocked(materials[1..]), materials[0], materials[1..]);
    }
  }

  /** One entry in front of the rest adds itself once when in stock. */
  lemma StockedCountsStep(head: seq<Gw2PlayerItem>, rest: seq<Gw2PlayerItem>, entry: Gw2PlayerItem, tail: seq<Gw2PlayerItem>)
    requires head == if entry.count > 0 then [entry] else []
    requires forall x :: multiset(rest)[x] == if x.count > 0 then multiset(tail)[x] else 0
    ensures forall x :: multiset(head + rest)[x] == if x.count > 0 then multiset([entry] + tail)[x] else 0
  {
    assert multiset([entry] + tail) == multiset{entry} + multiset(tail);
    assert multiset(head + rest) == multiset(head) + multiset(rest);
    forall x ensures multiset(head + rest)[x] == if x.count > 0 then multiset([entry] + tail)[x] else 0 {
      assert multiset(head)[x] == if x.count > 0 then multiset{entry}[x] else 0;
    }
  }

  /** `fetch_materials`: material storage lists every material, even with
      none in stock; entries with count zero are dropped first. */
  function FetchMaterials(reply: Option<seq<Gw2PlayerItem>>, api: string -> Option<seq<Gw2Item>>): (r: seq<ItemRecord>)
    ensures reply.None? ==> r == []
    ensures forall k :: 0 <= k < |r| ==>
      r[k].locations.Keys == {MaterialStorage} && r[k].locations[MaterialStorage].count > 0
    ensures reply.Some? ==>
      var slots := Stocked(reply.value);
      BuiltFrom(r, MaterialStorage, slots, Lookup(slots, api))
  {
    match reply
    case None => []
    case Some(mats) =>
      var stocked := Stocked(mats);
      ConvertStocked(stocked, Lookup(stocked, api));
      Convert(MaterialStorage, stocked, api)
  }

  lemma {:induction false} ConvertStocked(slots: seq<Gw2PlayerItem>, meta: map<nat, Gw2Item>)
    requires forall k :: 0 <= k < |slots| ==> slots[k].count > 0
    ensures forall k :: 0 <= k < |ConvertWith(MaterialStorage, slots, meta)| ==>
      ConvertWith(MaterialStorage, slots, meta)[k].locations[MaterialStorage].count > 0
    decreases |slots|
  {
    if |slots| > 0 {
      ConvertStocked(slots[1..], meta);
    }
  }

  /* ---------------- merging by id ---------------- */

  /** Which `add` the merge loop uses: this file's overwriting one, or the
      accumulating one of src/fms_entities/player_item.rs. */
  datatype MergeMode = Overwriting | Accumulating

  function CombineLocations(mode: MergeMode, a: LocationMap, b: LocationMap): LocationMap {
    match mode
    case Overwriting => Overwrite(a, b)
    case Accumulating => Accumulate(a, b)
  }

  /** One turn of the merge loop: a new id is inserted as is, a known id
      gets the item merged into its entry. */
  function MergeOne(m: map<nat, ItemRecord>, item: ItemRecord, mode: MergeMode): (m': map<nat, ItemRecord>)
    ensures m'.Keys == m.Keys + {item.id}
    ensures forall id :: id in m && id != item.id ==> m'[id] == m[id]
  {
    if item.id in m then
      m[item.id := m[item.id].(locations := CombineLocations(mode, m[item.id].locations, item.locations))]
    else m[item.id := item]
  }

  function MergeInto(m: map<nat, ItemRecord>, items: seq<ItemRecord>, mode: MergeMode): map<nat, ItemRecord>
    decreases |items|
  {
    if |items| == 0 then m else MergeInto(MergeOne(m, items[0], mode), items[1..], mode)
  }

  function Flatten(lists: seq<seq<ItemRecord>>): seq<ItemRecord> {
    if |lists| == 0 then [] else lists[0] + Flatten(lists[1..])
  }

  /** The merge loop of `fetch_all_items`: every list in turn, every item
      of a list in turn. */
  function MergeAll(lists: seq<seq<ItemRecord>>, mode: MergeMode): map<nat, ItemRecord> {
    MergeInto(map[], Flatten(lists), mode)
  }

  function IdSet(items: seq<ItemRecord>): set<nat> {
    set k | 0 <= k < |items| :: items[k].id
  }

  /** The merged map has exactly one entry per id that occurs. */
  lemma {:induction false} MergeKeys(m: map<nat, ItemRecord>, items: seq<ItemRecord>, mode: MergeMode)
    ensures MergeInto(m, items, mode).Keys == m.Keys + IdSet(items)
    decreases |items|
  {
    if |items| > 0 {
      MergeKeys(MergeOne(m, items[0], mode), items[1..], mode);
      assert IdSet(items) == {items[0].id} + IdSet(items[1..]) by {
        assert forall k :: 1 <= k < |items| ==> items[k] == items[1..][k - 1];
        assert forall k :: 0 <= k < |items[1..]| ==> items[1..][k] == items[k + 1];
      }
    }
  }

  /** The fields other than locations, which the merge never changes. */
  function Base(r: ItemRecord): ItemRecord {
    r.(locations := map[])
  }

  function FirstWith(items: seq<ItemRecord>, id: nat): (r: Option<ItemRecord>)
    ensures r.Some? ==> r.value in items && r.value.id == id
    ensures r.None? <==> id !in IdSet(items)
    decreases |items|
  {
    if |items| == 0 then None
    else if items[0].id == id then Some(items[0])
    else
      var r := FirstWith(items[1..], id);
      assert forall k :: 1 <= k < |items| ==> items[k] == items[1..][k - 1];
      assert r.Some? ==> items[1..][0] in items[1..];
      r
  }

  /** The first record seen for an id supplies its name, description,
      icon, type and rarity; later records only contribute locations. */
  lemma {:induction false} MergeKeepsFirstBase(m: map<nat, ItemRecord>, items: seq<ItemRecord>, mode: MergeMode, id: nat)
    requires id in m || id in IdSet(items)
    ensures id in MergeInto(m, items, mode)
    ensures Base(MergeInto(m, items, mode)[id]) == (if id in m then Base(m[id]) else Base(FirstWith(items, id).value))
    decreases |items|
  {
    MergeKeys(m, items, mode);
    if |items| > 0 {
      var m1 := MergeOne(m, items[0], mode);
      assert id in m1 || id in IdSet(items[1..]) by {
        if id !in m1 {
          var k :| 0 <= k < |items| && items[k].id == id;
          assert k > 0 && items[1..][k - 1] == items[k];
        }
      }
      MergeKeepsFirstBase(m1, items[1..], mode, id);
    }
  }

  /* ---- the overwriting merge: the last stack at a location wins ---- */

  function SpecAt(m: map<nat, ItemRecord>, id: nat, l: Location): Option<Specifics> {
    if id in m && l in m[id].locations then Some(m[id].locations[l]) else None
  }

  /** The entry of the last record for `id` that has location `l`. */
  function LastAt(items: seq<ItemRecord>, id: nat, l: Location): Option<Specifics>
    decreases |items|
  {
    if |items| == 0 then None
    else match LastAt(items[1..], id, l)
      case Some(s) => Some(s)
      case None =>
        if items[0].id == id && l in items[0].locations then Some(items[0].locations[l]) else None
  }

  lemma {:induction false} OverwriteMergeTakesLast(m: map<nat, ItemRecord>, items: seq<ItemRecord>, id: nat, l: Location)
    ensures SpecAt(MergeInto(m, items, Overwriting), id, l) ==
      (match LastAt(items, id, l) case Some(s) => Some(s) case None => SpecAt(m, id, l))
    decreases |items|
  {
    if |items| > 0 {
      OverwriteMergeTakesLast(MergeOne(m, items[0], Overwriting), items[1..], id, l);
    }
  }

  /* ---- the accumulating merge: stacks at a location add up ---- */

  function CountAt(m: map<nat, ItemRecord>, id: nat, l: Location): nat {
    if id in m && l in m[id].locations then m[id].locations[l].count else 0
  }

  /** What one record adds to the count of `id` at `l`. */
  function Share(item: ItemRecord, id: nat, l: Location): nat {
    if item.id == id && l in item.locations then item.locations[l].count else 0
  }

  function ShareOf(id: nat, l: Location): ItemRecord -> nat {
    item => Share(item, id, l)
  }

  function TotalAt(items: seq<ItemRecord>, id: nat, l: Location): nat {
    SumOf(items, ShareOf(id, l))
  }

  function ListTotal(id: nat, l: Location): seq<ItemRecord> -> nat {
    ls => TotalAt(ls, id, l)
  }

  /** With the accumulating `add`, the merged count of an item at a
      location is the sum over every record of it there. */
  lemma {:induction false} AccumulateMergeSums(m: map<nat, ItemRecord>, items: seq<ItemRecord>, id: nat, l: Location)
    ensures CountAt(MergeInto(m, items, Accumulating), id, l) == CountAt(m, id, l) + TotalAt(items, id, l)
    decreases |items|
  {
    if |items| > 0 {
      var m1 := MergeOne(m, items[0], Accumulating);
      assert CountAt(m1, id, l) == CountAt(m, id, l) + Share(items[0], id, l);
      AccumulateMergeSums(m1, items[1..], id, l);
    }
  }

  /** The two merges part ways on two stacks of one item at one location:
      five and three in the bank merge to three when overwriting and to
      eight when accumulating. */
  lemma OverwriteDropsStack(r: ItemRecord)
    ensures var five := r.(locations := map[Bank := Specifics(5, 0, [], [])]);
      var three := r.(locations := map[Bank := Specifics(3, 0, [], [])]);
      CountAt(MergeInto(map[], [five, three], Overwriting), r.id, Bank) == 3 &&
      CountAt(MergeInto(map[], [five, three], Accumulating), r.id, Bank) == 8
  {
    var five := r.(locations := map[Bank := Specifics(5, 0, [], [])]);
    var three := r.(locations := map[Bank := Specifics(3, 0, [], [])]);
    var m1 := MergeOne(map[], five, Overwriting);
    assert MergeInto(map[], [five, three], Overwriting) == MergeInto(m1, [three], Overwriting);
    assert MergeInto(m1, [three], Overwriting) == MergeOne(m1, three, Overwriting);
    var a1 := MergeOne(map[], five, Accumulating);
    assert MergeInto(map[], [five, three], Accumulating) == MergeInto(a1, [three], Accumulating);
    assert MergeInto(a1, [three], Accumulating) == MergeOne(a1, three, Accumulating);
    assert Accumulate(five.locations, three.locations)[Bank] == Combine(five.locations[Bank], three.locations[Bank]);
  }

  /* ---------------- the refresh ---------------- */

  /** Everything the account API answers during one refresh. */
  datatype AccountApi = AccountApi(
    characters: Option<seq<string>>,
    inventoryOf: string -> Option<Gw2Inventory>,
    sharedInventory: Option<seq<Option<Gw2PlayerItem>>>,
    bank: Option<seq<Option<Gw2PlayerItem>>>,
    materials: Option<seq<Gw2PlayerItem>>,
    items: string -> Option<seq<Gw2Item>>)

  /** A failed character list means no character is fetched. */
  function CharacterNames(api: AccountApi): seq<string> {
    api.characters.GetOr([])
  }

  /** What one character's thread pushes. */
  function CharacterFetch(api: AccountApi, name: string): seq<ItemRecord> {
    FetchFromCharacter(name, api.inventoryOf(name), api.items)
  }

  /** The per-character lists, in the order the character threads finished. */
  function CharacterLists(api: AccountApi, arrival: seq<string>): (lists: seq<seq<ItemRecord>>)
    ensures |lists| == |arrival|
    ensures forall k :: 0 <= k < |arrival| ==> lists[k] == CharacterFetch(api, arrival[k])
    decreases |arrival|
  {
    if |arrival| == 0 then []
    else
      var rest := CharacterLists(api, arrival[1..]);
      assert forall k :: 1 <= k < |arrival| ==> arrival[1..][k - 1] == arrival[k];
      [CharacterFetch(api, arrival[0])] + rest
  }

  /** All lists in the order they are pushed: the characters (in finishing
      order), then shared inventory, bank and material storage. */
  function CollectLists(api: AccountApi, arrival: seq<string>): (lists: seq<seq<ItemRecord>>)
    ensures |lists| == |arrival| + 3
    ensures forall k :: 0 <= k < |arrival| ==> lists[k] == CharacterFetch(api, arrival[k])
    ensures lists[|arrival|] == FetchFrom(api.sharedInventory, SharedInventory, api.items)
    ensures lists[|arrival| + 1] == FetchFrom(api.bank, Bank, api.items)
    ensures lists[|arrival| + 2] == FetchMaterials(api.materials, api.items)
  {
    CharacterLists(api, arrival) + LocationLists(api)
  }

  /** The lists of shared inventory, bank and material storage, in that order. */
  function LocationLists(api: AccountApi): (lists: seq<seq<ItemRecord>>)
    ensures |lists| == 3
    ensures forall j :: 0 <= j < |lists[0]| ==> lists[0][j].locations.Keys == {SharedInventory}
    ensures forall j :: 0 <= j < |lists[1]| ==> lists[1][j].locations.Keys == {Bank}
  {
    var shared := FetchFrom(api.sharedInventory, SharedInventory, api.items);
    var bank := FetchFrom(api.bank, Bank, api.items);
    [shared, bank, FetchMaterials(api.materials, api.items)]
  }

  /** `store`: indexes every record; it reports success unconditionally. */
  function Store(records: set<ItemRecord>): (r: Option<set<IndexDoc>>)
    ensures r.Some?
    ensures forall d :: d in r.value <==> exists x :: x in records && d == RecordDoc(x)
  {
    Some(set x | x in records :: RecordDoc(x))
  }

  datatype RefreshResult = RefreshResult(
    items: map<nat, ItemRecord>, index: Option<set<IndexDoc>>, lastUpdate: Option<nat>)

  /** `fetch_all_items`: merges with the given `add` (the source uses this
      file's overwriting one), stores the merged records and, since storing
      always succeeds, stamps the time. */
  function Refresh(api: AccountApi, arrival: seq<string>, now: nat, lastUpdate: Option<nat>, mode: MergeMode): (r: RefreshResult)
    requires multiset(arrival) == multiset(CharacterNames(api))
    ensures r.lastUpdate == Some(now)
    ensures r.items.Keys == IdSet(Flatten(CollectLists(api, arrival)))
    ensures forall id :: id in r.items ==> r.items[id].id == id
    ensures r.index.Some?
    ensures forall d :: d in r.index.value <==> exists id :: id in r.items && d == RecordDoc(r.items[id])
  {
    var all := Flatten(CollectLists(api, arrival));
    var items := MergeInto(map[], all, mode);
    MergedMap(all, mode);
    var stored := Store(Records(items));
    StoreRecords(items);
    RefreshResult(items, stored, if stored.Some? then Some(now) else lastUpdate)
  }

  /** Merging into an empty map files every fetched record under its own id. */
  lemma MergedMap(all: seq<ItemRecord>, mode: MergeMode)
    ensures MergeInto(map[], all, mode).Keys == IdSet(all)
    ensures forall id :: id in MergeInto(map[], all, mode) ==> MergeInto(map[], all, mode)[id].id == id
  {
    MergeKeys(map[], all, mode);
    MergeIdsMatch(map[], all, mode);
  }

  /** The merged records, as `items_map.iter().map(|e| e.1)` hands them over. */
  function Records(items: map<nat, ItemRecord>): (rs: set<ItemRecord>)
    ensures forall x :: x in rs <==> exists id :: id in items && x == items[id]
  {
    set id | id in items :: items[id]
  }

  /** Storing the merged records indexes one document per merged entry. */
  lemma StoreRecords(items: map<nat, ItemRecord>)
    ensures Store(Records(items)).Some?
    ensures forall d :: d in Store(Records(items)).value <==> exists id :: id in items && d == RecordDoc(items[id])
  {
    var rs := Records(items);
    forall d | d in Store(rs).value
      ensures exists id :: id in items && d == RecordDoc(items[id])
    {
      var x :| x in rs && d == RecordDoc(x);
      var id :| id in items && x == items[id];
    }
    forall d | exists id :: id in items && d == RecordDoc(items[id])
      ensures d in Store(rs).value
    {
      var id :| id in items && d == RecordDoc(items[id]);
      assert items[id] in rs;
    }
  }

  lemma {:induction false} MergeIdsMatch(m: map<nat, ItemRecord>, items: seq<ItemRecord>, mode: MergeMode)
    requires forall id :: id in m ==> m[id].id == id
    ensures forall id :: id in MergeInto(m, items, mode) ==> MergeInto(m, items, mode)[id].id == id
    decreases |items|
  {
    if |items| > 0 {
      MergeIdsMatch(MergeOne(m, items[0], mode), items[1..], mode);
    }
  }

  /* ---- the order in which character threads finish ---- */

  /** What the lists pushed for one character add to the count of `id` at `l`. */
  function CharacterTotal(api: AccountApi, id: nat, l: Location): string -> nat {
    name => TotalAt(CharacterFetch(api, name), id, l)
  }

  lemma {:induction false} TotalAtFlatten(lists: seq<seq<ItemRecord>>, id: nat, l: Location)
    ensures TotalAt(Flatten(lists), id, l) == SumOf(lists, ListTotal(id, l))
    decreases |lists|
  {
    if |lists| > 0 {
      SumOfAppend(lists[0], Flatten(lists[1..]), ShareOf(id, l));
      TotalAtFlatten(lists[1..], id, l);
    }
  }

  lemma {:induction false} CharacterListsTotal(api: AccountApi, arrival: seq<string>, id: nat, l: Location)
    ensures SumOf(CharacterLists(api, arrival), ListTotal(id, l)) == SumOf(arrival, CharacterTotal(api, id, l))
    decreases |arrival|
  {
    if |arrival| > 0 {
      var lists := CharacterLists(api, arrival);
      assert lists[1..] == CharacterLists(api, arrival[1..]);
      CharacterListsTotal(api, arrival[1..], id, l);
    }
  }

  /** The accumulated count of an item at a location after a refresh: the
      characters' share plus the other locations' share. */
  lemma RefreshTotal(api: AccountApi, arrival: seq<string>, id: nat, l: Location)
    ensures TotalAt(Flatten(CollectLists(api, arrival)), id, l) ==
      SumOf(arrival, CharacterTotal(api, id, l)) + SumOf(LocationLists(api), ListTotal(id, l))
  {
    TotalAtFlatten(CollectLists(api, arrival), id, l);
    SumOfAppend(CharacterLists(api, arrival), LocationLists(api), ListTotal(id, l));
    CharacterListsTotal(api, arrival, id, l);
  }

  /** With the accumulating `add`, the counts a refresh produces do not
      depend on the order in which the character threads finish. */
  lemma ArrivalOrderIrrelevant(api: AccountApi, a1: seq<string>, a2: seq<string>, now: nat, last: Option<nat>, id: nat, l: Location)
    requires multiset(a1) == multiset(CharacterNames(api)) && multiset(a2) == multiset(CharacterNames(api))
    ensures CountAt(Refresh(api, a1, now, last, Accumulating).items, id, l) ==
            CountAt(Refresh(api, a2, now, last, Accumulating).items, id, l)
  {
    AccumulateMergeSums(map[], Flatten(CollectLists(api, a1)), id, l);
    AccumulateMergeSums(map[], Flatten(CollectLists(api, a2)), id, l);
    RefreshTotal(api, a1, id, l);
    RefreshTotal(api, a2, id, l);
    SumOfPermutation(a1, a2, CharacterTotal(api, id, l));
  }

  /* ---- the overwriting merge and the finishing order ---- */

  lemma {:induction false} FlattenAppend(a: seq<seq<ItemRecord>>, b: seq<seq<ItemRecord>>)
    ensures Flatten(a + b) == Flatten(a) + Flatten(b)
    decreases |a|
  {
    if |a| == 0 {
      assert a + b == b;
    } else {
      assert (a + b)[1..] == a[1..] + b;
      FlattenAppend(a[1..], b);
    }
  }

  /** The later of two entries when there is one, else the earlier. */
  function Prefer(later: Option<Specifics>, earlier: Option<Specifics>): Option<Specifics> {
    if later.Some? then later else earlier
  }

  /** In `x + y` a record of `y` comes after every record of `x`. */
  lemma {:induction false} LastAtAppend(x: seq<ItemRecord>, y: seq<ItemRecord>, id: nat, l: Location)
    ensures LastAt(x + y, id, l) == Prefer(LastAt(y, id, l), LastAt(x, id, l))
    decreases |x|
  {
    if |x| == 0 {
      assert x + y == y;
    } else {
      assert (x + y)[1..] == x[1..] + y;
      LastAtAppend(x[1..], y, id, l);
    }
  }

  /** Records that are not at `l` leave nothing there. */
  lemma {:induction false} LastAtAbsent(x: seq<ItemRecord>, id: nat, l: Location)
    requires forall k :: 0 <= k < |x| ==> l !in x[k].locations
    ensures LastAt(x, id, l) == None
    decreases |x|
  {
    if |x| > 0 {
      LastAtAbsent(x[1..], id, l);
    }
  }

  /** Over the character lists, a character's location is filled only by
      that character's own list, which is the same whichever thread
      delivered it; no other location is filled at all. */
  lemma CharacterListsLast(api: AccountApi, arrival: seq<string>, id: nat, l: Location)
    ensures LastAt(Flatten(CharacterLists(api, arrival)), id, l) ==
      if l.Character? && l.characterName in arrival then LastAt(CharacterFetch(api, l.characterName), id, l) else None
  {
    var fetch := (n: string) => CharacterFetch(api, n);
    NamedListsLast(CharacterLists(api, arrival), arrival, fetch, id, l);
  }

  /** The same for any lists fetched one per name, each of whose records
      sits only at its own name's character location. */
  lemma {:induction false} NamedListsLast(lists: seq<seq<ItemRecord>>, names: seq<string>, fetch: string -> seq<ItemRecord>, id: nat, l: Location)
    requires |lists| == |names|
    requires forall k :: 0 <= k < |names| ==> lists[k] == fetch(names[k])
    requires forall n, j :: 0 <= j < |fetch(n)| ==> fetch(n)[j].locations.Keys == {Character(n)}
    ensures LastAt(Flatten(lists), id, l) ==
      if l.Character? && l.characterName in names then LastAt(fetch(l.characterName), id, l) else None
    decreases |names|
  {
    if |names| > 0 {
      var name := names[0];
      var first := lists[0];
      var later := Flatten(lists[1..]);
      var a := LastAt(first, id, l);
      var b := LastAt(later, id, l);
      assert Flatten(lists) == first + later;
      LastAtAppend(first, later, id, l);
      NamedListsLast(lists[1..], names[1..], fetch, id, l);
      if l == Character(name) {
        assert b == a || b == None;
        assert l.characterName in names;
      } else {
        LastAtAbsent(first, id, l);
        assert l.Character? ==> (l.characterName in names <==> l.characterName in names[1..]) by {
          assert names == [name] + names[1..];
        }
      }
    }
  }

  /** With the overwriting `add`, the entry a refresh keeps for an item at
      a location: the last one from the account-wide lists if they have
      one, otherwise, at a character's location, the last one from that
      character's own list. */
  lemma RefreshLast(api: AccountApi, arrival: seq<string>, id: nat, l: Location)
    ensures SpecAt(MergeAll(CollectLists(api, arrival), Overwriting), id, l) ==
      match LastAt(Flatten(LocationLists(api)), id, l)
      case Some(s) => Some(s)
      case None =>
        if l.Character? && l.characterName in arrival then LastAt(CharacterFetch(api, l.characterName), id, l) else None
  {
    FlattenAppend(CharacterLists(api, arrival), LocationLists(api));
    LastAtAppend(Flatten(CharacterLists(api, arrival)), Flatten(LocationLists(api)), id, l);
    CharacterListsLast(api, arrival, id, l);
    OverwriteMergeTakesLast(map[], Flatten(CollectLists(api, arrival)), id, l);
  }

  /** With the overwriting `add` too, the entry a refresh keeps for an item
      at a location does not depend on the order in which the character
      threads finish. */
  lemma ArrivalOrderIrrelevantOverwriting(api: AccountApi, a1: seq<string>, a2: seq<string>, now: nat, last: Option<nat>, id: nat, l: Location)
    requires multiset(a1) == multiset(CharacterNames(api)) && multiset(a2) == multiset(CharacterNames(api))
    ensures SpecAt(Refresh(api, a1, now, last, Overwriting).items, id, l) ==
            SpecAt(Refresh(api, a2, now, last, Overwriting).items, id, l)
  {
    RefreshLast(api, a1, id, l);
    RefreshLast(api, a2, id, l);
    if l.Character? {
      var n := l.characterName;
      assert n in a1 <==> n in multiset(a1);
      assert n in a2 <==> n in multiset(a2);
    }
  }
}
