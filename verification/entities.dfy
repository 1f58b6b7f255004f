/** Raw records of the game's account API, as the plugin decodes them
    (src/entities.rs). Identifiers and counts are unbounded naturals. */
module Entities {
  import opened Prelude

  /** Progress of a background check; `Error` carries a fixed message. */
  datatype LoadingState<+T> = Init | Loading | Success(value: T) | Error(message: string)

  datatype Gw2Permission =
    | Account | Builds | Characters | Guilds | Inventories
    | Progression | Pvp | TradingPost | Unlocks | Wallet

  /** The reply of the `tokeninfo` endpoint. */
  datatype Gw2ApiKey = Gw2ApiKey(id: string, name: string, permissions: seq<Gw2Permission>)

  /** One occupied inventory slot. */
  datatype Gw2PlayerItem = Gw2PlayerItem(
    id: nat,
    count: nat,
    charges: Option<nat>,
    skin: Option<nat>,
    upgrades: Option<seq<nat>>,
    infusions: Option<seq<nat>>,
    binding: Option<string>)

  /** A bag: its slots, `None` for an empty one. */
  datatype Gw2Bag = Gw2Bag(id: nat, size: nat, inventory: seq<Option<Gw2PlayerItem>>)

  datatype Gw2Inventory = Gw2Inventory(bags: seq<Gw2Bag>)

  datatype Gw2ItemType =
    | Armor | Back | Bag | Consumable | Container | CraftingMaterial | Gathering
    | Gizmo | JadeTechModule | Key | MiniPet | PowerCore | Relic | Tool | Trait
    | Trinket | Trophy | UpgradeComponent | Weapon | Unknown

  datatype Gw2Rarity = Junk | Basic | Fine | Masterwork | Rare | Exotic | Ascended | Legendary

  /** Item metadata from the `items` endpoint. */
  datatype Gw2Item = Gw2Item(
    id: nat,
    name: string,
    description: Option<string>,
    rarity: Gw2Rarity,
    itemType: Gw2ItemType,
    icon: Option<string>)

  /** A price split into gold, silver and copper units. */
  datatype Coins = Coins(gold: nat, silver: nat, copper: nat)

  /** A trading-post price: the highest buy order and lowest sell offer. */
  datatype Price = Price(id: nat, buys: Coins, sells: Coins)
}
