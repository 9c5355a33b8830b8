/**
 * Saving and loading (src/systems/savegame.rs): the rule that turns a save name
 * into a file name in the save directory, the snapshot of the inventory slots as a
 * list of (item, count, durability) entries, and the restore that rebuilds the
 * slots from such a list.
 */
module SaveGame {
  import opened Wrappers
  import opened Text
  import opened Inventory

  /** The save directory, the autosave file and the save-file extension (src/config.rs). */
  const SaveDir: string := "Save game"
  const AutosaveFile: string := "autosave.saved_escape"
  const DefaultSaveExt: string := ".saved_escape"

  // ---------------------------------------------------------------------------
  // File naming (`save_path`)
  // ---------------------------------------------------------------------------

  /**
   * The file name for a save name: the name itself when it already ends with the
   * extension, otherwise the name with the extension appended. Either way it ends
   * with the extension and starts with the name.
   */
  function SaveFileName(name: string): (f: string)
    ensures EndsWith(f, DefaultSaveExt)
    ensures |name| <= |f| && f[..|name|] == name
    ensures EndsWith(name, DefaultSaveExt) ==> f == name
    ensures !EndsWith(name, DefaultSaveExt) ==> |f| == |name| + |DefaultSaveExt|
  {
    if EndsWith(name, DefaultSaveExt) then name
    else
      var f := name + DefaultSaveExt;
      assert f[|f| - |DefaultSaveExt|..] == DefaultSaveExt;
      assert f[..|name|] == name;
      f
  }

  /** The path of a save: the save directory, then the file name. */
  function SavePath(name: string): (p: seq<string>)
    ensures |p| == 2 && p[0] == SaveDir && EndsWith(p[1], DefaultSaveExt)
  {
    [SaveDir, SaveFileName(name)]
  }

  /** Naming a file that is already named changes nothing. */
  lemma SaveFileNameIdempotent(name: string)
    ensures SaveFileName(SaveFileName(name)) == SaveFileName(name)
  {
  }

  /** The autosave file already carries the extension, so it is used as it is. */
  lemma AutosaveNameKept()
    ensures EndsWith(AutosaveFile, DefaultSaveExt)
    ensures SaveFileName(AutosaveFile) == AutosaveFile
  {
    assert AutosaveFile[|AutosaveFile| - |DefaultSaveExt|..] == DefaultSaveExt;
  }

  // ---------------------------------------------------------------------------
  // Snapshot and restore of the slots
  // ---------------------------------------------------------------------------

  /** One saved slot: the key it was filed under, its count and its durability. */
  datatype SaveEntry = SaveEntry(item: ItemType, count: u32, durability: Option<i32>)

  /** The part of the save data that belongs to the inventory (position, health and hunger are floats). */
  datatype SaveData = SaveData(inventory: seq<SaveEntry>, missionProgress: u8)

  /**
   * `entries` lists every slot of `slots` exactly once, each with the slot's key,
   * count and durability, in some order.
   */
  predicate IsSnapshotOf(entries: seq<SaveEntry>, slots: map<ItemType, ItemStack>) {
    && (forall i :: 0 <= i < |entries| ==>
          entries[i].item in slots
          && entries[i].count == slots[entries[i].item].count
          && entries[i].durability == slots[entries[i].item].durability)
    && (forall i, j :: 0 <= i < j < |entries| ==> entries[i].item != entries[j].item)
    && (forall k :: k in slots ==> exists i :: 0 <= i < |entries| && entries[i].item == k)
  }

  /**
   * The slots as a list of entries, one per slot. The map's iteration order is not
   * fixed, so the order is any order: the method takes the keys in an arbitrary one.
   */
  method Snapshot(slots: map<ItemType, ItemStack>) returns (entries: seq<SaveEntry>)
    ensures IsSnapshotOf(entries, slots)
    ensures |entries| == |slots|
  {
    entries := [];
    var left := slots.Keys;
    while left != {}
      invariant left <= slots.Keys
      invariant |entries| + |left| == |slots|
      invariant forall i :: 0 <= i < |entries| ==>
        entries[i].item in slots && entries[i].item !in left
        && entries[i].count == slots[entries[i].item].count
        && entries[i].durability == slots[entries[i].item].durability
      invariant forall i, j :: 0 <= i < j < |entries| ==> entries[i].item != entries[j].item
      invariant forall k :: k in slots && k !in left ==> exists i :: 0 <= i < |entries| && entries[i].item == k
      decreases left
    {
      var k :| k in left;
      ghost var before := entries;
      entries := entries + [SaveEntry(k, slots[k].count, slots[k].durability)];
      left := left - {k};
      forall k' | k' in slots && k' !in left
        ensures exists i :: 0 <= i < |entries| && entries[i].item == k'
      {
        if k' == k {
          assert entries[|before|].item == k';
        } else {
          var i :| 0 <= i < |before| && before[i].item == k';
          assert entries[i] == before[i];
        }
      }
    }
  }

  /** The slot a saved entry becomes: a stack of its item, filed under that item. */
  function StackOf(e: SaveEntry): ItemStack {
    ItemStack(e.item, e.count, e.durability)
  }

  /** The items a list of entries names. */
  function Items(entries: seq<SaveEntry>): set<ItemType> {
    set i | 0 <= i < |entries| :: entries[i].item
  }

  /** Entry `i` is the last one for its item. */
  predicate LastFor(entries: seq<SaveEntry>, i: int)
    requires 0 <= i < |entries|
  {
    forall j :: i < j < |entries| ==> entries[j].item != entries[i].item
  }

  /**
   * The slots rebuilt from `entries`, starting from no slots at all and inserting
   * each entry in turn, so that a later entry for the same item replaces an earlier
   * one. Every slot holds a stack of its own kind.
   */
  function RestoreSlots(entries: seq<SaveEntry>): (slots: map<ItemType, ItemStack>)
    ensures KeysMatchItems(slots)
    decreases |entries|
  {
    if |entries| == 0 then map[]
    else
      var n := |entries| - 1;
      RestoreSlots(entries[..n])[entries[n].item := StackOf(entries[n])]
  }

  /** The restored slots are filed under exactly the items the entries name. */
  lemma {:induction false} RestoreKeys(entries: seq<SaveEntry>)
    ensures RestoreSlots(entries).Keys == Items(entries)
    decreases |entries|
  {
    if |entries| > 0 {
      var n := |entries| - 1;
      RestoreKeys(entries[..n]);
      assert Items(entries) == Items(entries[..n]) + {entries[n].item} by {
        forall k | k in Items(entries) ensures k in Items(entries[..n]) + {entries[n].item} {
          var i :| 0 <= i < |entries| && entries[i].item == k;
          if i < n { assert entries[..n][i] == entries[i]; }
        }
        forall k | k in Items(entries[..n]) ensures k in Items(entries) {
          var i :| 0 <= i < n && entries[..n][i].item == k;
          assert entries[i] == entries[..n][i];
        }
      }
    }
  }

  /** Each item's slot is the stack of the last entry for that item. */
  lemma {:induction false} RestoreLast(entries: seq<SaveEntry>, i: int)
    requires 0 <= i < |entries| && LastFor(entries, i)
    ensures entries[i].item in RestoreSlots(entries)
    ensures RestoreSlots(entries)[entries[i].item] == StackOf(entries[i])
    decreases |entries|
  {
    var n := |entries| - 1;
    if i < n {
      assert entries[..n][i] == entries[i];
      assert LastFor(entries[..n], i) by {
        forall j | i < j < n ensures entries[..n][j].item != entries[..n][i].item {
          assert entries[..n][j] == entries[j];
        }
      }
      RestoreLast(entries[..n], i);
    }
  }

  /** Every item's slot holds the stack of the last entry for that item. */
  lemma RestoreEveryLast(entries: seq<SaveEntry>)
    ensures forall i :: 0 <= i < |entries| && LastFor(entries, i) ==>
      entries[i].item in RestoreSlots(entries) && RestoreSlots(entries)[entries[i].item] == StackOf(entries[i])
  {
    forall i | 0 <= i < |entries| && LastFor(entries, i)
      ensures entries[i].item in RestoreSlots(entries) && RestoreSlots(entries)[entries[i].item] == StackOf(entries[i])
    {
      RestoreLast(entries, i);
    }
  }

  /**
   * Restoring a snapshot gives back the slots it was taken from, whatever order the
   * snapshot listed them in, for slots that are filed under their own kind.
   */
  lemma SnapshotRestoreRoundTrip(slots: map<ItemType, ItemStack>, entries: seq<SaveEntry>)
    requires KeysMatchItems(slots)
    requires IsSnapshotOf(entries, slots)
    ensures RestoreSlots(entries) == slots
  {
    var r := RestoreSlots(entries);
    RestoreKeys(entries);
    forall k | k in slots
      ensures k in r && r[k] == slots[k]
    {
      var i :| 0 <= i < |entries| && entries[i].item == k;
      RestoreLast(entries, i);
    }
    assert r.Keys == slots.Keys;
  }

  /** What F5 writes for the inventory: a snapshot of the slots and the mission progress. */
  method Save(inv: Inventory) returns (data: SaveData)
    ensures IsSnapshotOf(data.inventory, inv.slots)
    ensures data.missionProgress == inv.missionProgress
  {
    var entries := Snapshot(inv.slots);
    data := SaveData(entries, inv.missionProgress);
  }

  /**
   * What F9 does to the inventory with the data read back: the slots are replaced
   * entirely by the restored ones and the mission progress by the saved one; the
   * equipped item is left as it was.
   */
  function Load(inv: Inventory, data: SaveData): (r: Inventory)
    ensures r.slots == RestoreSlots(data.inventory)
    ensures r.slots.Keys == Items(data.inventory)
    ensures forall i :: 0 <= i < |data.inventory| && LastFor(data.inventory, i) ==>
      data.inventory[i].item in r.slots && r.slots[data.inventory[i].item] == StackOf(data.inventory[i])
    ensures r.missionProgress == data.missionProgress
    ensures r.equipped == inv.equipped
  {
    RestoreKeys(data.inventory);
    RestoreEveryLast(data.inventory);
    Inventory(RestoreSlots(data.inventory), inv.equipped, data.missionProgress)
  }

  /**
   * Saving and then loading into the same inventory gives that inventory back, when
   * its slots are filed under their own kinds; loading into another inventory keeps
   * that one's equipped item.
   */
  method SaveThenLoad(inv: Inventory, other: Inventory) returns (same: Inventory, into: Inventory)
    requires KeysMatchItems(inv.slots)
    ensures same == inv
    ensures into.slots == inv.slots && into.missionProgress == inv.missionProgress
    ensures into.equipped == other.equipped
  {
    var data := Save(inv);
    SnapshotRestoreRoundTrip(inv.slots, data.inventory);
    same := Load(inv, data);
    into := Load(other, data);
  }
}
