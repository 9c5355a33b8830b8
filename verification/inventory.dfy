/**
 * The player's inventory (src/systems/inventory.rs): one stack per item kind, kept
 * in a map from the kind to its stack, plus the equipped item and the mission
 * progress counter. Counts are unsigned 32-bit, durabilities signed 32-bit and the
 * mission progress an unsigned byte, as in the game.
 */
module Inventory {
  import opened Wrappers

  newtype u8 = x: int | 0 <= x < 0x100
  newtype u32 = x: int | 0 <= x < 0x1_0000_0000
  newtype i32 = x: int | -0x8000_0000 <= x < 0x8000_0000

  datatype ItemType = Torch | Shovel | Hoe | Dirt | Food

  datatype ItemStack = ItemStack(item: ItemType, count: u32, durability: Option<i32>)

  datatype Inventory = Inventory(slots: map<ItemType, ItemStack>, equipped: Option<ItemType>, missionProgress: u8)

  /** Every slot holds a stack of the kind it is filed under. */
  predicate KeysMatchItems(slots: map<ItemType, ItemStack>) {
    forall k :: k in slots ==> slots[k].item == k
  }

  // ---------------------------------------------------------------------------
  // Starter kit (`give_starter_items`)
  // ---------------------------------------------------------------------------

  /**
   * On entering the first mission an empty inventory receives a torch (durability
   * 100), a shovel and a hoe (durability 40 each), one of each; an inventory that
   * already holds something is left alone. Nothing but the slots changes.
   */
  function GiveStarterItems(inv: Inventory): (r: Inventory)
    ensures r.equipped == inv.equipped && r.missionProgress == inv.missionProgress
    ensures |inv.slots| != 0 ==> r == inv
    ensures |inv.slots| == 0 ==>
      && r.slots.Keys == {Torch, Shovel, Hoe}
      && r.slots[Torch] == ItemStack(Torch, 1, Some(100))
      && r.slots[Shovel] == ItemStack(Shovel, 1, Some(40))
      && r.slots[Hoe] == ItemStack(Hoe, 1, Some(40))
    ensures KeysMatchItems(inv.slots) ==> KeysMatchItems(r.slots)
  {
    if |inv.slots| == 0 then
      var slots := inv.slots[Torch := ItemStack(Torch, 1, Some(100))];
      var slots := slots[Shovel := ItemStack(Shovel, 1, Some(40))];
      var slots := slots[Hoe := ItemStack(Hoe, 1, Some(40))];
      inv.(slots := slots)
    else inv
  }

  /** Handing out the starter kit a second time changes nothing. */
  lemma GiveStarterItemsIdempotent(inv: Inventory)
    ensures GiveStarterItems(GiveStarterItems(inv)) == GiveStarterItems(inv)
  {
    if |inv.slots| == 0 {
      assert Torch in GiveStarterItems(inv).slots;
    }
  }

  // ---------------------------------------------------------------------------
  // Food pickups (the slot update of `pickup_food_system`)
  // ---------------------------------------------------------------------------

  /** `count + 1` on an unsigned 32-bit count, wrapping at 2^32 as a release build does. */
  function IncrementCount(c: u32): (r: u32)
    ensures c as int + 1 < 0x1_0000_0000 ==> r as int == c as int + 1
    ensures c as int + 1 == 0x1_0000_0000 ==> r == 0
  {
    ((c as int + 1) % 0x1_0000_0000) as u32
  }

  /**
   * One food item picked up: an existing food stack grows by one and keeps its
   * durability; without one, a food stack of one with no durability is added. No
   * other slot, the equipped item and the mission progress are untouched.
   */
  function PickupFood(inv: Inventory): (r: Inventory)
    ensures r.equipped == inv.equipped && r.missionProgress == inv.missionProgress
    ensures r.slots.Keys == inv.slots.Keys + {Food}
    ensures forall k :: k in inv.slots && k != Food ==> r.slots[k] == inv.slots[k]
    ensures Food in inv.slots ==>
      && r.slots[Food].count == IncrementCount(inv.slots[Food].count)
      && r.slots[Food].durability == inv.slots[Food].durability
      && r.slots[Food].item == inv.slots[Food].item
    ensures Food !in inv.slots ==> r.slots[Food] == ItemStack(Food, 1, None)
    ensures KeysMatchItems(inv.slots) ==> KeysMatchItems(r.slots)
  {
    if Food in inv.slots then
      var s := inv.slots[Food];
      inv.(slots := inv.slots[Food := s.(count := IncrementCount(s.count))])
    else
      inv.(slots := inv.slots[Food := ItemStack(Food, 1, None)])
  }

  /** `n` pickups in a row. */
  function PickupFoodTimes(inv: Inventory, n: nat): Inventory
    decreases n
  {
    if n == 0 then inv else PickupFood(PickupFoodTimes(inv, n - 1))
  }

  /**
   * `n > 0` pickups leave a food stack holding the old count plus `n` (or `n` when
   * there was none), as long as the count stays below 2^32, and touch nothing else.
   */
  lemma {:induction false} PickupsAccumulate(inv: Inventory, n: nat)
    requires n > 0
    requires (if Food in inv.slots then inv.slots[Food].count as int else 0) + n < 0x1_0000_0000
    ensures var r := PickupFoodTimes(inv, n);
      && Food in r.slots
      && r.slots[Food].count as int == (if Food in inv.slots then inv.slots[Food].count as int else 0) + n
      && r.slots.Keys == inv.slots.Keys + {Food}
      && (forall k :: k in inv.slots && k != Food ==> r.slots[k] == inv.slots[k])
      && r.equipped == inv.equipped && r.missionProgress == inv.missionProgress
    decreases n
  {
    if n > 1 {
      PickupsAccumulate(inv, n - 1);
    }
  }
}
