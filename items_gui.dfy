/**
 * The withdrawal GUI of one tombstone: its stored items in the first five
 * rows (GUI slot `i` shows the `i`-th stored item), an experience button
 * at slot 49 and a close button at slot 53. Right-clicking an item moves
 * it into the player's inventory when it fits, deleting its row by the
 * item's original inventory slot; the experience button hands out the
 * stored experience; an emptied tombstone is removed.
 *
 * The player's inventory is the parameter `contents` (its 36 storage
 * slots), `maxStack` is the item's maximum stack size, and `leftover` says
 * whether Bukkit's `addItem` returned anything it could not place.
 */
module ItemsGui {
  import opened Common
  import opened Tombstones
  import opened Store
  import opened TombstoneManagement
  import opened Gui

  const ITEM_ROWS_END := 45
  const EXPERIENCE_SLOT := 49
  const CLOSE_SLOT := 53
  const STORAGE_SLOTS := 36

  /** `isItemSlot`: the first five rows. */
  predicate IsItemSlot(slot: int)
  {
    0 <= slot < ITEM_ROWS_END
  }

  /** What GUI slot `slot` shows: the item at that list position, or nothing past the list or for air. */
  function ShownAt(items: seq<TombstoneItemData>, slot: int): (r: Option<ItemStack>)
    requires 0 <= slot
    ensures r.Some? <==> slot < |items| && items[slot].item.material != Air
    ensures r.Some? ==> r.value == items[slot].item
  {
    if slot < |items| && items[slot].item.material != Air then Some(items[slot].item) else None
  }

  function ExperienceButton(experience: int): ItemStack
  {
    ItemStack(OtherBlock(if experience > 0 then "EXPERIENCE_BOTTLE" else "GLASS_BOTTLE"), 1, None)
  }

  function CloseButton(): ItemStack
  {
    ItemStack(OtherBlock("BARRIER"), 1, None)
  }

  /**
   * What `loadTombstoneItems` leaves listed: the stored items; an empty
   * list when the statement throws `SQLException`, which it catches; and
   * `None` when a row fails to deserialize, an exception it does not
   * catch, so that the load ends with no list assigned.
   */
  function LoadListing(connected: bool, rows: seq<ItemRow>, tid: int, backend: Backend, queryFails: bool)
    : Option<seq<TombstoneItemData>>
  {
    if !connected || queryFails then Some([])
    else
      var r := LoadedItems(rows, tid, backend);
      if r.Ok? then Some(r.value) else None
  }

  /**
   * A load lists nothing exactly when a SQLite row of the tombstone is
   * corrupt and the statement ran; a failing statement lists an empty
   * list; otherwise the listed items are the tombstone's readable rows.
   */
  lemma LoadListingSpec(connected: bool, rows: seq<ItemRow>, tid: int, backend: Backend, queryFails: bool)
    ensures LoadListing(connected, rows, tid, backend, queryFails).None? <==>
      connected && !queryFails && backend == SQLite && HasCorrupt(rows, tid)
    ensures !connected || queryFails ==> LoadListing(connected, rows, tid, backend, queryFails) == Some([])
    ensures LoadListing(connected, rows, tid, backend, queryFails).Some? && connected && !queryFails ==>
      LoadListing(connected, rows, tid, backend, queryFails) == Some(Decoded(rows, tid))
  {
  }

  /** The item area and both buttons as `initializeGUI` lays them out. */
  ghost predicate ShowsContent(inv: seq<Option<ItemStack>>, items: seq<TombstoneItemData>, experience: int)
  {
    |inv| == MAX_SIZE
    && (forall s :: 0 <= s < ITEM_ROWS_END ==> inv[s] == ShownAt(items, s))
    && inv[EXPERIENCE_SLOT] == Some(ExperienceButton(experience))
    && inv[CLOSE_SLOT] == Some(CloseButton())
  }

  // ---------------------------------------------------------------------
  // Inventory capacity

  /** Room a single storage slot offers: what tops up a similar, not yet full stack. */
  function SlotRoom(slot: Option<ItemStack>, item: ItemStack, maxStack: int): nat
  {
    if slot.Some? && Similar(slot.value, item) && maxStack - slot.value.amount > 0 then maxStack - slot.value.amount else 0
  }

  /** Room in the similar stacks of the given slots. */
  function TopUpRoom(contents: seq<Option<ItemStack>>, item: ItemStack, maxStack: int): nat
  {
    if |contents| == 0 then 0
    else TopUpRoom(contents[..|contents| - 1], item, maxStack) + SlotRoom(contents[|contents| - 1], item, maxStack)
  }

  /** Room in the empty slots: a full stack each. */
  function EmptyRoom(contents: seq<Option<ItemStack>>, maxStack: int): int
  {
    if |contents| == 0 then 0
    else EmptyRoom(contents[..|contents| - 1], maxStack) + (if contents[|contents| - 1].None? then maxStack else 0)
  }

  /** The whole stack fits: air and empty stacks always, otherwise within the top-up room plus full empty slots. */
  predicate Fits(contents: seq<Option<ItemStack>>, item: ItemStack, maxStack: int)
  {
    item.material == Air || item.amount <= 0
    || item.amount <= TopUpRoom(contents, item, maxStack) + EmptyRoom(contents, maxStack)
  }

  lemma {:induction false} TopUpRoomPrefix(contents: seq<Option<ItemStack>>, item: ItemStack, maxStack: int, k: int)
    requires 0 <= k <= |contents|
    ensures TopUpRoom(contents[..k], item, maxStack) <= TopUpRoom(contents, item, maxStack)
    decreases |contents|
  {
    if k < |contents| {
      var n := |contents| - 1;
      assert contents[..n][..k] == contents[..k];
      TopUpRoomPrefix(contents[..n], item, maxStack, k);
    } else {
      assert contents[..k] == contents;
    }
  }

  lemma {:induction false} EmptyRoomPrefix(contents: seq<Option<ItemStack>>, maxStack: int, k: int)
    requires 0 <= k <= |contents| && maxStack >= 0
    ensures EmptyRoom(contents[..k], maxStack) <= EmptyRoom(contents, maxStack)
    decreases |contents|
  {
    if k < |contents| {
      var n := |contents| - 1;
      assert contents[..n][..k] == contents[..k];
      EmptyRoomPrefix(contents[..n], maxStack, k);
    } else {
      assert contents[..k] == contents;
    }
  }

  /**
   * `canAddItemToInventory`: a dry run of adding the item to the 36
   * storage slots, topping up similar stacks first and then filling empty
   * slots; it holds exactly when the whole stack fits.
   */
  method CanAddItemToInventory(contents: seq<Option<ItemStack>>, item: ItemStack, maxStack: int) returns (ok: bool)
    requires |contents| == STORAGE_SLOTS && maxStack >= 1
    ensures ok <==> Fits(contents, item, maxStack)
  {
    if item.material == Air || item.amount <= 0 {
      return true;
    }
    var remaining := StackOntoSimilar(contents, item, maxStack);
    if remaining <= 0 {
      EmptyRoomPrefix(contents, maxStack, 0);
      return true;
    }
    remaining := FillEmptySlots(contents, maxStack, remaining);
    return remaining <= 0;
  }

  /** The first pass: top up similar stacks; stops as soon as nothing remains. */
  method StackOntoSimilar(contents: seq<Option<ItemStack>>, item: ItemStack, maxStack: int) returns (remaining: int)
    requires |contents| == STORAGE_SLOTS && item.amount > 0
    ensures remaining <= 0 <==> item.amount <= TopUpRoom(contents, item, maxStack)
    ensures remaining > 0 ==> remaining == item.amount - TopUpRoom(contents, item, maxStack)
  {
    remaining := item.amount;
    var slot := 0;
    while slot < STORAGE_SLOTS
      invariant 0 <= slot <= STORAGE_SLOTS
      invariant remaining == item.amount - TopUpRoom(contents[..slot], item, maxStack) > 0
    {
      assert contents[..slot + 1][..slot] == contents[..slot];
      var s := contents[slot];
      if s.Some? && Similar(s.value, item) {
        var canAdd := maxStack - s.value.amount;
        if canAdd > 0 {
          remaining := remaining - Min(canAdd, remaining);
          if remaining <= 0 {
            TopUpRoomPrefix(contents, item, maxStack, slot + 1);
            return;
          }
        }
      }
      slot := slot + 1;
    }
    assert contents[..STORAGE_SLOTS] == contents;
  }

  /** The second pass: whole stacks into empty slots; stops as soon as nothing remains. */
  method FillEmptySlots(contents: seq<Option<ItemStack>>, maxStack: int, needed: int) returns (remaining: int)
    requires |contents| == STORAGE_SLOTS && maxStack >= 1 && needed > 0
    ensures remaining <= 0 <==> needed <= EmptyRoom(contents, maxStack)
  {
    remaining := needed;
    var slot := 0;
    while slot < STORAGE_SLOTS
      invariant 0 <= slot <= STORAGE_SLOTS
      invariant remaining == needed - EmptyRoom(contents[..slot], maxStack) > 0
    {
      assert contents[..slot + 1][..slot] == contents[..slot];
      if contents[slot].None? {
        remaining := remaining - Min(maxStack, remaining);
        if remaining <= 0 {
          EmptyRoomPrefix(contents, maxStack, slot + 1);
          return;
        }
      }
      slot := slot + 1;
    }
    assert contents[..STORAGE_SLOTS] == contents;
  }

  /** With every storage slot empty, a stack fits exactly when it needs at most 36 full stacks. */
  lemma {:induction false} EmptyInventoryFits(contents: seq<Option<ItemStack>>, item: ItemStack, maxStack: int)
    requires forall k :: 0 <= k < |contents| ==> contents[k].None?
    requires item.material != Air && item.amount > 0
    ensures Fits(contents, item, maxStack) <==> item.amount <= |contents| * maxStack
  {
    AllEmpty(contents, item, maxStack);
  }

  lemma {:induction false} AllEmpty(contents: seq<Option<ItemStack>>, item: ItemStack, maxStack: int)
    requires forall k :: 0 <= k < |contents| ==> contents[k].None?
    ensures TopUpRoom(contents, item, maxStack) == 0 && EmptyRoom(contents, maxStack) == |contents| * maxStack
  {
    if |contents| > 0 {
      var n := |contents| - 1;
      AllEmpty(contents[..n], item, maxStack);
      assert n * maxStack + maxStack == (n + 1) * maxStack;
    }
  }

  /** With no empty slot and no similar stack below the maximum, nothing fits. */
  lemma {:induction false} FullInventoryRejects(contents: seq<Option<ItemStack>>, item: ItemStack, maxStack: int)
    requires forall k :: 0 <= k < |contents| ==> SlotRoom(contents[k], item, maxStack) == 0 && contents[k].Some?
    requires item.material != Air && item.amount > 0
    ensures !Fits(contents, item, maxStack)
  {
    NoRoom(contents, item, maxStack);
  }

  lemma {:induction false} NoRoom(contents: seq<Option<ItemStack>>, item: ItemStack, maxStack: int)
    requires forall k :: 0 <= k < |contents| ==> SlotRoom(contents[k], item, maxStack) == 0 && contents[k].Some?
    ensures TopUpRoom(contents, item, maxStack) == 0 && EmptyRoom(contents, maxStack) == 0
  {
    if |contents| > 0 {
      NoRoom(contents[..|contents| - 1], item, maxStack);
    }
  }

  // ---------------------------------------------------------------------
  // Click routing

  /** Where a click goes. */
  datatype ItemsRoute = Nothing | ExperienceButtonRoute | CloseButtonRoute | ItemRoute | RightClickOnly

  /**
   * Both `handleClick` overloads: nothing for an empty slot, the buttons
   * at 49 and 53, an item slot takes an item (with a click type, only a
   * right click does; a left click earns a notice).
   * `rightClick` is `None` for the overload without a click type.
   */
  function ItemsClickRoute(slot: int, clickedPresent: bool, rightClick: Option<bool>): (r: ItemsRoute)
    ensures !clickedPresent ==> r == Nothing
    ensures clickedPresent && slot == EXPERIENCE_SLOT ==> r == ExperienceButtonRoute
    ensures clickedPresent && slot == CLOSE_SLOT ==> r == CloseButtonRoute
    ensures r == ItemRoute ==> IsItemSlot(slot) && rightClick != Some(false)
    ensures r == RightClickOnly <==> clickedPresent && IsItemSlot(slot) && rightClick == Some(false)
    ensures clickedPresent && !IsItemSlot(slot) && slot != EXPERIENCE_SLOT && slot != CLOSE_SLOT ==> r == Nothing
  {
    if !clickedPresent then Nothing
    else if slot == EXPERIENCE_SLOT then ExperienceButtonRoute
    else if slot == CLOSE_SLOT then CloseButtonRoute
    else if IsItemSlot(slot) then (if rightClick == Some(false) then RightClickOnly else ItemRoute)
    else Nothing
  }

  /** A right click routes exactly like the overload without a click type. */
  lemma RightClickRoutesLikeUntyped(slot: int, clickedPresent: bool)
    ensures ItemsClickRoute(slot, clickedPresent, Some(true)) == ItemsClickRoute(slot, clickedPresent, None)
  {
  }

  /** `ItemRefreshThrew`: the row was deleted, then the refresh's load threw out of `takeItem`. */
  datatype TakeOutcome = InventoryFull | AddFailed | ItemDatabaseError | ItemRefreshThrew | Taken(emptied: bool)
  /** `ExperienceRefreshThrew`: the experience was zeroed, then the refresh's load threw. */
  datatype ExperienceOutcome = NoExperience | ExperienceDatabaseError | ExperienceRefreshThrew | ExperienceTaken(emptied: bool)

  /** `TombstoneItemsGUI`. */
  class TombstoneItemsGui {
    const base: GuiBase
    const mgr: TombstoneManager
    const tombstone: PlayerTombstone
    /** `tombstoneItems`: the listed items, GUI slot order. */
    var items: seq<TombstoneItemData>

    ghost predicate Valid()
      reads this, base, mgr, mgr.world, mgr.store, mgr.holograms, mgr.particles
    {
      base.Valid() && base.size == MAX_SIZE && mgr.Valid()
    }

    ghost function Repr(): set<object>
      reads this, base, mgr
    {
      {this, base.inventory, tombstone, mgr, mgr.world, mgr.store, mgr.holograms, mgr.particles}
      + (if base.manager.Some? then {base.manager.value} else {})
    }

    constructor (owner: Player, title: string, mgr: TombstoneManager, tombstone: PlayerTombstone)
      requires mgr.Valid()
      ensures Valid()
      ensures base.owner == owner && base.size == MAX_SIZE && base.manager.None? && fresh(base) && fresh(base.inventory)
      ensures this.mgr == mgr && this.tombstone == tombstone && items == []
    {
      base := new GuiBase(owner, title, MAX_SIZE);
      this.mgr := mgr;
      this.tombstone := tombstone;
      items := [];
    }

    /**
     * `loadTombstoneItems`: a failing statement lists nothing; a row that
     * does not deserialize throws past the method (`thrown`), and the list
     * stays as it was.
     */
    method LoadTombstoneItems(queryFails: bool) returns (thrown: bool)
      requires Valid()
      modifies this
      ensures Valid()
      ensures thrown <==> LoadListing(mgr.store.connected, mgr.store.rows, tombstone.id, mgr.store.backend, queryFails).None?
      ensures !thrown ==> Some(items) == LoadListing(mgr.store.connected, mgr.store.rows, tombstone.id, mgr.store.backend, queryFails)
      ensures thrown ==> items == old(items)
    {
      var r := mgr.store.LoadTombstoneItems(tombstone.id, queryFails);
      match r {
        case Ok(loaded) =>
          items := loaded;
          thrown := false;
        case Err(f) =>
          thrown := f != SqlFault;
          if !thrown {
            items := [];
          }
      }
    }

    /** `addTombstoneItems`: GUI slot `i` of the first five rows shows list item `i`. */
    method AddTombstoneItems()
      requires Valid()
      modifies base.inventory
      ensures forall s :: 0 <= s < ITEM_ROWS_END ==> base.inventory[s] == ShownAt(items, s)
      ensures forall s :: ITEM_ROWS_END <= s < MAX_SIZE ==> base.inventory[s] == old(base.inventory[s])
    {
      var slot := 0;
      while slot < ITEM_ROWS_END
        invariant 0 <= slot <= ITEM_ROWS_END
        invariant forall s :: 0 <= s < slot ==> base.inventory[s] == ShownAt(items, s)
        invariant forall s :: slot <= s < MAX_SIZE ==> base.inventory[s] == old(base.inventory[s])
      {
        base.SetItem(slot, ShownAt(items, slot));
        slot := slot + 1;
      }
    }

    /** `addFunctionButtons`. */
    method AddFunctionButtons()
      requires Valid()
      modifies base.inventory
      ensures base.inventory[..] == old(base.inventory[..])[EXPERIENCE_SLOT := Some(ExperienceButton(tombstone.currentExperience))][CLOSE_SLOT := Some(CloseButton())]
    {
      base.SetItem(EXPERIENCE_SLOT, Some(ExperienceButton(tombstone.Experience())));
      base.SetItem(CLOSE_SLOT, Some(CloseButton()));
    }

    /**
     * `initializeGUI`: load, lay out the items, add the buttons. A load
     * that throws ends it before anything is laid out.
     */
    method InitializeGui(queryFails: bool) returns (thrown: bool)
      requires Valid()
      modifies this, base.inventory
      ensures Valid()
      ensures thrown <==> LoadListing(mgr.store.connected, mgr.store.rows, tombstone.id, mgr.store.backend, queryFails).None?
      ensures thrown ==> items == old(items) && base.inventory[..] == old(base.inventory[..])
      ensures !thrown ==> Some(items) == LoadListing(mgr.store.connected, mgr.store.rows, tombstone.id, mgr.store.backend, queryFails)
      ensures !thrown ==> ShowsContent(base.inventory[..], items, tombstone.currentExperience)
      ensures forall s :: ITEM_ROWS_END <= s < MAX_SIZE && s != EXPERIENCE_SLOT && s != CLOSE_SLOT ==>
        base.inventory[s] == old(base.inventory[s])
    {
      thrown := LoadTombstoneItems(queryFails);
      if thrown {
        return;
      }
      AddTombstoneItems();
      AddFunctionButtons();
    }

    /**
     * `refreshGUI`: clear, then lay everything out again from a fresh
     * load; a load that throws leaves the GUI cleared.
     */
    method RefreshGui(queryFails: bool) returns (thrown: bool)
      requires Valid()
      modifies this, base.inventory
      ensures Valid()
      ensures thrown <==> LoadListing(mgr.store.connected, mgr.store.rows, tombstone.id, mgr.store.backend, queryFails).None?
      ensures thrown ==> items == old(items) && forall s :: 0 <= s < MAX_SIZE ==> base.inventory[s].None?
      ensures !thrown ==> Some(items) == LoadListing(mgr.store.connected, mgr.store.rows, tombstone.id, mgr.store.backend, queryFails)
      ensures !thrown ==> ShowsContent(base.inventory[..], items, tombstone.currentExperience)
      ensures forall s :: ITEM_ROWS_END <= s < MAX_SIZE && s != EXPERIENCE_SLOT && s != CLOSE_SLOT ==> base.inventory[s].None?
    {
      base.ClearInventory();
      thrown := InitializeGui(queryFails);
    }

    /**
     * `openGUI`: lay out, then register as the owner's open GUI. A load
     * that throws ends it before the registration.
     */
    method OpenGui(queryFails: bool) returns (thrown: bool)
      requires Valid()
      modifies this, base.inventory, if base.manager.Some? then {base.manager.value} else {}
      ensures Valid()
      ensures thrown <==> LoadListing(mgr.store.connected, mgr.store.rows, tombstone.id, mgr.store.backend, queryFails).None?
      ensures thrown && base.manager.Some? ==> base.manager.value.active == old(base.manager.value.active)
      ensures !thrown ==> Some(items) == LoadListing(mgr.store.connected, mgr.store.rows, tombstone.id, mgr.store.backend, queryFails)
      ensures !thrown ==> ShowsContent(base.inventory[..], items, tombstone.currentExperience)
      ensures !thrown && base.manager.Some? ==> base.manager.value.active == old(base.manager.value.active)[base.owner.id := base]
    {
      thrown := InitializeGui(queryFails);
      if thrown {
        return;
      }
      base.RegisterOpen();
    }

    /**
     * `checkAndRemoveEmptyTombstone`: with no listed item and no
     * experience, the tombstone is removed (whatever that removal returns)
     * and the GUI closes.
     */
    method CheckAndRemoveEmptyTombstone(deleteFails: bool) returns (emptied: bool)
      requires Valid()
      modifies Repr()
      ensures Valid()
      ensures emptied <==> |items| == 0 && tombstone.currentExperience <= 0
      ensures items == old(items) && tombstone.currentExperience == old(tombstone.currentExperience)
      ensures base.inventory[..] == old(base.inventory[..])
      ensures !emptied ==> mgr.active == old(mgr.active) && mgr.store.records == old(mgr.store.records)
                           && mgr.store.rows == old(mgr.store.rows)
      ensures emptied ==> BlockPos(tombstone.info) !in old(mgr.active) || !old(DeleteSucceeds(mgr.store, deleteFails))
                          || mgr.active == old(mgr.active) - {BlockPos(tombstone.info)}
      ensures emptied && base.manager.Some? ==> base.manager.value.active == old(base.manager.value.active) - {base.owner.id}
    {
      emptied := |items| == 0 && tombstone.Experience() <= 0;
      if emptied {
        var _ := mgr.RemoveTombstone(tombstone, deleteFails);
        base.CloseGui();
      }
    }

    /**
     * `takeItem`: when the item fits and was fully added, its row is
     * deleted by original slot, the list entry at the GUI slot goes, the
     * GUI is refreshed from the store and the empty check runs. When it
     * does not fit, or the delete fails, nothing stored changes. A refresh
     * whose load throws ends it with the row deleted, the entry gone and
     * the GUI cleared; a refresh whose statement fails lists nothing, so
     * the empty check then sees no items.
     */
    method TakeItem(originalSlotIndex: int, item: ItemStack, guiSlot: int,
                    contents: seq<Option<ItemStack>>, maxStack: int, leftover: bool,
                    removeFails: bool, reloadFails: bool, deleteFails: bool)
      returns (r: TakeOutcome)
      requires Valid()
      requires 0 <= guiSlot < |items|
      requires |contents| == STORAGE_SLOTS && maxStack >= 1
      modifies Repr()
      ensures Valid()
      ensures r == InventoryFull <==> !Fits(contents, item, maxStack)
      ensures r == AddFailed <==> Fits(contents, item, maxStack) && leftover
      ensures r == InventoryFull || r == AddFailed || r == ItemDatabaseError ==>
        items == old(items) && mgr.store.rows == old(mgr.store.rows) && mgr.store.records == old(mgr.store.records)
        && mgr.active == old(mgr.active)
      ensures r == ItemDatabaseError <==> Fits(contents, item, maxStack) && !leftover && !(old(mgr.store.connected) && !removeFails)
      ensures r == ItemRefreshThrew <==>
        && Fits(contents, item, maxStack) && !leftover && old(mgr.store.connected) && !removeFails
        && LoadListing(true, RowsWithoutSlot(old(mgr.store.rows), tombstone.id, originalSlotIndex), tombstone.id,
                       mgr.store.backend, reloadFails).None?
      ensures r == ItemRefreshThrew ==>
        mgr.store.rows == RowsWithoutSlot(old(mgr.store.rows), tombstone.id, originalSlotIndex)
        && mgr.store.records == old(mgr.store.records) && mgr.active == old(mgr.active)
        && items == old(items)[..guiSlot] + old(items)[guiSlot + 1..]
        && forall s :: 0 <= s < MAX_SIZE ==> base.inventory[s].None?
      ensures r == Taken(false) ==>
        mgr.store.rows == RowsWithoutSlot(old(mgr.store.rows), tombstone.id, originalSlotIndex)
        && mgr.store.records == old(mgr.store.records)
        && Some(items) == LoadListing(true, mgr.store.rows, tombstone.id, mgr.store.backend, reloadFails)
        && ShowsContent(base.inventory[..], items, tombstone.currentExperience)
      ensures r.Taken? ==> (r.emptied <==> |items| == 0 && tombstone.currentExperience <= 0)
    {
      var fits := CanAddItemToInventory(contents, item, maxStack);
      if !fits {
        return InventoryFull;
      }
      if leftover {
        return AddFailed;
      }
      var ok := mgr.store.RemoveTombstoneItem(tombstone.id, originalSlotIndex, removeFails);
      if !ok {
        return ItemDatabaseError;
      }
      items := items[..guiSlot] + items[guiSlot + 1..];
      var thrown := RefreshGui(reloadFails);
      if thrown {
        return ItemRefreshThrew;
      }
      var emptied := CheckAndRemoveEmptyTombstone(deleteFails);
      r := Taken(emptied);
    }

    /** `handleItemClick`: slots past the list and air items do nothing; otherwise the item is taken. */
    method HandleItemClick(slot: int, contents: seq<Option<ItemStack>>, maxStack: int, leftover: bool,
                           removeFails: bool, reloadFails: bool, deleteFails: bool)
      returns (r: Option<TakeOutcome>)
      requires Valid()
      requires |contents| == STORAGE_SLOTS && maxStack >= 1
      modifies Repr()
      ensures Valid()
      ensures r.None? <==> !(0 <= slot < |old(items)|) || old(items)[slot].item.material == Air
      ensures r.None? ==> items == old(items) && mgr.store.rows == old(mgr.store.rows) && mgr.active == old(mgr.active)
      ensures r == Some(Taken(false)) ==>
        mgr.store.rows == RowsWithoutSlot(old(mgr.store.rows), tombstone.id, old(items)[slot].originalSlotIndex)
    {
      if slot < 0 || slot >= |items| {
        return None;
      }
      var data := items[slot];
      if data.item.material == Air {
        return None;
      }
      var t := TakeItem(data.originalSlotIndex, data.item, slot, contents, maxStack, leftover, removeFails, reloadFails, deleteFails);
      r := Some(t);
    }

    /**
     * `handleExperienceClick`: nothing without experience; otherwise the
     * stored experience is zeroed, then the tombstone's, the GUI refreshed
     * and the empty check run. A failing store update changes nothing; a
     * refresh whose load throws ends it with the GUI cleared.
     */
    method HandleExperienceClick(removeFails: bool, reloadFails: bool, deleteFails: bool) returns (r: ExperienceOutcome)
      requires Valid()
      modifies Repr()
      ensures Valid()
      ensures r == NoExperience <==> old(tombstone.currentExperience) <= 0
      ensures r == ExperienceDatabaseError <==> old(tombstone.currentExperience) > 0 && !(old(mgr.store.connected) && !removeFails)
      ensures r == NoExperience || r == ExperienceDatabaseError ==>
        tombstone.currentExperience == old(tombstone.currentExperience) && mgr.store.records == old(mgr.store.records)
        && mgr.active == old(mgr.active)
      ensures r == ExperienceRefreshThrew <==>
        && old(tombstone.currentExperience) > 0 && old(mgr.store.connected) && !removeFails
        && LoadListing(true, old(mgr.store.rows), tombstone.id, mgr.store.backend, reloadFails).None?
      ensures r == ExperienceRefreshThrew ==>
        tombstone.currentExperience == 0 && mgr.store.records == ZeroExperience(old(mgr.store.records), tombstone.id)
        && items == old(items) && forall s :: 0 <= s < MAX_SIZE ==> base.inventory[s].None?
      ensures r.ExperienceTaken? ==> tombstone.currentExperience == 0
      ensures r == ExperienceTaken(false) ==> mgr.store.records == ZeroExperience(old(mgr.store.records), tombstone.id)
      ensures r.ExperienceTaken? ==> (r.emptied <==> |items| == 0)
    {
      if tombstone.Experience() <= 0 {
        return NoExperience;
      }
      var ok := mgr.store.RemoveTombstoneExperience(tombstone.id, removeFails);
      if !ok {
        return ExperienceDatabaseError;
      }
      tombstone.SetExperience(0);
      var thrown := RefreshGui(reloadFails);
      if thrown {
        return ExperienceRefreshThrew;
      }
      var emptied := CheckAndRemoveEmptyTombstone(deleteFails);
      r := ExperienceTaken(emptied);
    }

    /**
     * Both `handleClick` overloads (`rightClick` is `None` for the one
     * without a click type): the click is always cancelled and goes where
     * `ItemsClickRoute` sends it.
     */
    method HandleClick(slot: int, clicked: Option<ItemStack>, rightClick: Option<bool>,
                       contents: seq<Option<ItemStack>>, maxStack: int, leftover: bool,
                       removeFails: bool, reloadFails: bool, deleteFails: bool)
      returns (route: ItemsRoute)
      requires Valid()
      requires |contents| == STORAGE_SLOTS && maxStack >= 1
      modifies Repr()
      ensures Valid()
      ensures route == ItemsClickRoute(slot, clicked.Some?, rightClick)
      ensures route == Nothing || route == RightClickOnly ==>
        items == old(items) && mgr.store.rows == old(mgr.store.rows) && mgr.store.records == old(mgr.store.records)
        && mgr.active == old(mgr.active) && tombstone.currentExperience == old(tombstone.currentExperience)
      ensures route == CloseButtonRoute && base.manager.Some? ==>
        base.manager.value.active == old(base.manager.value.active) - {base.owner.id}
    {
      route := ItemsClickRoute(slot, clicked.Some?, rightClick);
      match route {
        case ExperienceButtonRoute =>
          var _ := HandleExperienceClick(removeFails, reloadFails, deleteFails);
        case CloseButtonRoute =>
          base.CloseGui();
        case ItemRoute =>
          var _ := HandleItemClick(slot, contents, maxStack, leftover, removeFails, reloadFails, deleteFails);
        case _ =>
      }
    }
  }
}
