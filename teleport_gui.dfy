/**
 * The teleport GUI: a six-row chest framed by a border, the player's
 * tombstones (latest death first) on the 4 x 7 interior grid, a refresh
 * button at slot 49 and a close button at slot 53. Clicking a tombstone
 * teleports the player just above it.
 */
module TeleportMenu {
  import opened Common
  import opened Worlds
  import opened Store
  import opened Gui

  const TELEPORT_PERMISSION := "playerdeadmanager.teleport"
  const GRID_COLUMNS := 7
  const GRID_CAPACITY := 28
  const REFRESH_SLOT := 49
  const CLOSE_SLOT := 53

  /** `addBorder`: the top and bottom rows and the outer columns of the four middle rows. */
  predicate IsBorder(slot: int)
  {
    0 <= slot < MAX_SIZE && (slot < ROW || slot >= 45 || slot % ROW == 0 || slot % ROW == 8)
  }

  /** `isTombstoneSlot`: Java row in 1..4 and column in 1..7. */
  predicate IsTombstoneSlot(slot: int)
  {
    1 <= JDiv(slot, ROW) <= 4 && 1 <= JRem(slot, ROW) <= 7
  }

  /** `calculateTombstoneIndex`: row-major position inside the grid. */
  function CalculateTombstoneIndex(slot: int): int
  {
    (JDiv(slot, ROW) - 1) * GRID_COLUMNS + (JRem(slot, ROW) - 1)
  }

  /** The slot the placement walk of `addTombstoneItems` gives the `i`-th tombstone. */
  function SlotOf(i: nat): int
  {
    10 + (i / GRID_COLUMNS) * ROW + i % GRID_COLUMNS
  }

  /** One step of the walk: next slot, jumping two on reaching the right border. */
  function NextSlot(slot: int): int
  {
    var s := slot + 1;
    if (s + 1) % ROW == 0 then s + 2 else s
  }

  lemma SlotOfStep(i: nat)
    ensures NextSlot(SlotOf(i)) == SlotOf(i + 1)
  {
    if i % GRID_COLUMNS == 6 {
      assert (i + 1) / GRID_COLUMNS == i / GRID_COLUMNS + 1;
      assert (i + 1) % GRID_COLUMNS == 0;
    } else {
      assert (i + 1) / GRID_COLUMNS == i / GRID_COLUMNS;
      assert (i + 1) % GRID_COLUMNS == i % GRID_COLUMNS + 1;
    }
  }

  /** Every walk slot is a grid slot, lies above the bottom row, and maps back to its index. */
  lemma SlotOfInverse(i: nat)
    requires i < GRID_CAPACITY
    ensures IsTombstoneSlot(SlotOf(i)) && SlotOf(i) < 45
    ensures CalculateTombstoneIndex(SlotOf(i)) == i
  {
    var q, r := i / GRID_COLUMNS, i % GRID_COLUMNS;
    assert i == q * GRID_COLUMNS + r;
    var s := SlotOf(i);
    assert s == (q + 1) * ROW + (r + 1);
    assert s / ROW == q + 1 && s % ROW == r + 1;
  }

  /** Every grid slot is the walk slot of its computed index. */
  lemma TombstoneSlotInverse(slot: int)
    requires IsTombstoneSlot(slot)
    ensures 0 <= CalculateTombstoneIndex(slot) < GRID_CAPACITY
    ensures SlotOf(CalculateTombstoneIndex(slot)) == slot
  {
    var row, col := JDiv(slot, ROW), JRem(slot, ROW);
    assert slot == row * ROW + col;
    var i := CalculateTombstoneIndex(slot);
    assert i / GRID_COLUMNS == row - 1 && i % GRID_COLUMNS == col - 1;
  }

  /** Inside the chest, a slot is either border or grid, never both. */
  lemma BorderOrGrid(slot: int)
    requires 0 <= slot < MAX_SIZE
    ensures IsBorder(slot) <==> !IsTombstoneSlot(slot)
  {
  }

  /** The walk slot after the 28th is past the grid: the loop stops there. */
  lemma WalkLeavesGrid()
    ensures SlotOf(GRID_CAPACITY) >= 45
    ensures forall i: nat :: i < GRID_CAPACITY ==> SlotOf(i) < 45
  {
    forall i: nat | i < GRID_CAPACITY
      ensures SlotOf(i) < 45
    {
      SlotOfInverse(i);
    }
  }

  function RefreshButton(): ItemStack
  {
    ItemStack(OtherBlock("EMERALD"), 1, None)
  }

  function CloseButton(): ItemStack
  {
    ItemStack(OtherBlock("BARRIER"), 1, None)
  }

  /** `createTombstoneItem`: one item of the configured icon material per listed tombstone. */
  function TombstoneIcon(iconMaterial: Material): ItemStack
  {
    ItemStack(iconMaterial, 1, None)
  }

  /** The number of tombstones `addTombstoneItems` places. */
  function Shown(tombstones: seq<TombstoneData>): int
  {
    Min(|tombstones|, GRID_CAPACITY)
  }

  /** What `initializeGUI` leaves in each slot. */
  function LayoutAt(slot: int, tombstones: seq<TombstoneData>, border: ItemStack, iconMaterial: Material): Option<ItemStack>
  {
    if slot == REFRESH_SLOT then Some(RefreshButton())
    else if slot == CLOSE_SLOT then Some(CloseButton())
    else if IsBorder(slot) then Some(border)
    else if IsTombstoneSlot(slot) && CalculateTombstoneIndex(slot) < Shown(tombstones) then Some(TombstoneIcon(iconMaterial))
    else None
  }

  /** `teleportToTombstone`'s target: the block centre, one block up. */
  function TeleportTarget(d: TombstoneData): (l: Location)
    ensures l.world == d.world
    ensures BlockOf(l) == Pos(d.world, d.x, d.y + 1, d.z)
  {
    Location(d.world, d.x as real + 0.5, (d.y + 1) as real, d.z as real + 0.5, 0.0, 0.0)
  }

  /** Where a click goes: nothing on an empty slot, the two buttons, a grid slot. */
  datatype TeleportRoute = Nothing | RefreshRoute | CloseRoute | TombstoneRoute

  function TeleportClickRoute(slot: int, clickedPresent: bool): (r: TeleportRoute)
    ensures r == RefreshRoute <==> clickedPresent && slot == REFRESH_SLOT
    ensures r == CloseRoute <==> clickedPresent && slot == CLOSE_SLOT
    ensures r == TombstoneRoute <==> clickedPresent && IsTombstoneSlot(slot)
  {
    if !clickedPresent then Nothing
    else if slot == REFRESH_SLOT then RefreshRoute
    else if slot == CLOSE_SLOT then CloseRoute
    else if IsTombstoneSlot(slot) then TombstoneRoute
    else Nothing
  }

  datatype TeleportOutcome = NoTombstone | NoTeleportPermission | WorldNotFound(world: string) | Teleported(target: Location)

  /**
   * What `handleRefreshClick` leaves as the list, as written: the list
   * from a failed construction-time query is Java's immutable empty list,
   * whose `clear` throws, so the refresh never happens (`None`).
   */
  function RefreshedListAsWritten(fixedList: bool, requeried: seq<TombstoneData>): Option<seq<TombstoneData>>
  {
    if fixedList then None else Some(requeried)
  }

  /** A player whose menu opened during a failed query never sees a tombstone after a refresh. */
  lemma RefreshAfterFailedQueryThrows(d: TombstoneData)
    ensures RefreshedListAsWritten(true, [d]) == None
    ensures RefreshedListAsWritten(false, [d]) == Some([d])
  {
  }

  /** `TeleportGUI`. */
  class TeleportGui {
    const base: GuiBase
    const store: Store
    const world: World
    const border: ItemStack
    const iconMaterial: Material
    /** `tombstones`: the owner's records, latest death first. */
    var tombstones: seq<TombstoneData>
    /** The list is the immutable empty list of a failed query. */
    var fixedList: bool

    ghost predicate Valid()
      reads this, base
    {
      base.Valid() && base.size == MAX_SIZE
    }

    /** Queries the owner's tombstones; a failed query lists none. */
    constructor (owner: Player, title: string, store: Store, world: World, border: ItemStack, iconMaterial: Material, queryFails: bool)
      ensures Valid()
      ensures base.owner == owner && base.manager.None? && fresh(base) && fresh(base.inventory)
      ensures this.store == store && this.world == world && this.border == border && this.iconMaterial == iconMaterial
      ensures tombstones == (if queryFails then [] else store.PlayerTombstones(owner.id))
      ensures fixedList == queryFails
    {
      base := new GuiBase(owner, title, MAX_SIZE);
      this.store := store;
      this.world := world;
      this.border := border;
      this.iconMaterial := iconMaterial;
      tombstones := if queryFails then [] else store.PlayerTombstones(owner.id);
      fixedList := queryFails;
    }

    /** `addBorder`. */
    method AddBorder()
      requires Valid()
      modifies base.inventory
      ensures forall s :: 0 <= s < MAX_SIZE && IsBorder(s) ==> base.inventory[s] == Some(border)
      ensures forall s :: 0 <= s < MAX_SIZE && !IsBorder(s) ==> base.inventory[s] == old(base.inventory[s])
    {
      var i := 0;
      while i < ROW
        invariant 0 <= i <= ROW
        invariant forall s :: 0 <= s < MAX_SIZE && (s < i || 45 <= s < 45 + i) ==> base.inventory[s] == Some(border)
        invariant forall s :: 0 <= s < MAX_SIZE && !(s < i || 45 <= s < 45 + i) ==> base.inventory[s] == old(base.inventory[s])
      {
        base.SetItem(i, Some(border));
        base.SetItem(45 + i, Some(border));
        i := i + 1;
      }
      i := 1;
      while i < 5
        invariant 1 <= i <= 5
        invariant forall s :: 0 <= s < MAX_SIZE && (s < ROW || s >= 45 || (s < i * ROW && (s % ROW == 0 || s % ROW == 8))) ==>
          base.inventory[s] == Some(border)
        invariant forall s :: 0 <= s < MAX_SIZE && !IsBorder(s) ==> base.inventory[s] == old(base.inventory[s])
      {
        base.SetItem(i * ROW, Some(border));
        base.SetItem(i * ROW + 8, Some(border));
        i := i + 1;
      }
    }

    /** `addTombstoneItems`: the walk places the first `min(size, 28)` tombstones on the grid, row by row. */
    method AddTombstoneItems()
      requires Valid()
      modifies base.inventory
      ensures forall s :: 0 <= s < MAX_SIZE && IsTombstoneSlot(s) && CalculateTombstoneIndex(s) < Shown(tombstones) ==>
        base.inventory[s] == Some(TombstoneIcon(iconMaterial))
      ensures forall s :: 0 <= s < MAX_SIZE && !(IsTombstoneSlot(s) && CalculateTombstoneIndex(s) < Shown(tombstones)) ==>
        base.inventory[s] == old(base.inventory[s])
    {
      var n := Min(|tombstones|, GRID_CAPACITY);
      var slot := 10;
      var i := 0;
      var stopped := false;
      while i < n && !stopped
        invariant 0 <= i <= n
        invariant slot == SlotOf(i)
        invariant stopped ==> i == n
        invariant forall s :: 0 <= s < MAX_SIZE && IsTombstoneSlot(s) && CalculateTombstoneIndex(s) < i ==>
          base.inventory[s] == Some(TombstoneIcon(iconMaterial))
        invariant forall s :: 0 <= s < MAX_SIZE && !(IsTombstoneSlot(s) && CalculateTombstoneIndex(s) < i) ==>
          base.inventory[s] == old(base.inventory[s])
      {
        SlotOfInverse(i);
        forall s | 0 <= s < MAX_SIZE && IsTombstoneSlot(s)
          ensures CalculateTombstoneIndex(s) == i <==> s == slot
        {
          TombstoneSlotInverse(s);
        }
        base.SetItem(slot, Some(TombstoneIcon(iconMaterial)));
        SlotOfStep(i);
        slot := NextSlot(slot);
        i := i + 1;
        if slot >= 45 {
          WalkLeavesGrid();
          stopped := true;
        }
      }
    }

    /** `addFunctionButtons`. */
    method AddFunctionButtons()
      requires Valid()
      modifies base.inventory
      ensures base.inventory[..] == old(base.inventory[..])[REFRESH_SLOT := Some(RefreshButton())][CLOSE_SLOT := Some(CloseButton())]
    {
      base.SetItem(REFRESH_SLOT, Some(RefreshButton()));
      base.SetItem(CLOSE_SLOT, Some(CloseButton()));
    }

    /** `initializeGUI`: clear, border, tombstones, buttons; every slot ends as `LayoutAt` says. */
    method InitializeGui()
      requires Valid()
      modifies base.inventory
      ensures forall s :: 0 <= s < MAX_SIZE ==> base.inventory[s] == LayoutAt(s, tombstones, border, iconMaterial)
    {
      base.ClearInventory();
      AddBorder();
      AddTombstoneItems();
      AddFunctionButtons();
      forall s | 0 <= s < MAX_SIZE
        ensures base.inventory[s] == LayoutAt(s, tombstones, border, iconMaterial)
      {
        BorderOrGrid(s);
      }
    }

    /** `refreshGUI`. */
    method RefreshGui()
      requires Valid()
      modifies base.inventory
      ensures forall s :: 0 <= s < MAX_SIZE ==> base.inventory[s] == LayoutAt(s, tombstones, border, iconMaterial)
    {
      base.ClearInventory();
      InitializeGui();
    }

    /** `handleRefreshClick`: the list becomes a fresh query's result and the layout follows it. */
    method HandleRefreshClick(queryFails: bool)
      requires Valid()
      modifies this, base.inventory
      ensures tombstones == (if queryFails then [] else store.PlayerTombstones(base.owner.id))
      ensures !fixedList
      ensures forall s :: 0 <= s < MAX_SIZE ==> base.inventory[s] == LayoutAt(s, tombstones, border, iconMaterial)
    {
      tombstones := if queryFails then [] else store.PlayerTombstones(base.owner.id);
      fixedList := false;
      RefreshGui();
    }

    /** `handleRefreshClick` as written: on the immutable list it throws before changing anything. */
    method HandleRefreshClickAsWritten(queryFails: bool) returns (thrown: bool)
      requires Valid()
      modifies this, base.inventory
      ensures thrown <==> old(fixedList)
      ensures thrown ==> tombstones == old(tombstones) && base.inventory[..] == old(base.inventory[..])
      ensures !thrown ==> Some(tombstones) == RefreshedListAsWritten(old(fixedList), if queryFails then [] else store.PlayerTombstones(base.owner.id))
    {
      if fixedList {
        return true;
      }
      thrown := false;
      tombstones := if queryFails then [] else store.PlayerTombstones(base.owner.id);
      RefreshGui();
    }

    /** `handleClick`: the click is always cancelled and goes where `TeleportClickRoute` sends it. */
    method HandleClick(slot: int, clicked: Option<ItemStack>, queryFails: bool) returns (route: TeleportRoute, outcome: Option<TeleportOutcome>)
      requires Valid()
      modifies this, base.inventory, if base.manager.Some? then {base.manager.value} else {}
      ensures route == TeleportClickRoute(slot, clicked.Some?)
      ensures outcome.Some? <==> route == TombstoneRoute
      ensures outcome.Some? && outcome.value.Teleported? ==>
        0 <= CalculateTombstoneIndex(slot) < |old(tombstones)|
        && outcome.value.target == TeleportTarget(old(tombstones)[CalculateTombstoneIndex(slot)])
      ensures route == RefreshRoute ==> tombstones == (if queryFails then [] else store.PlayerTombstones(base.owner.id))
      ensures route != RefreshRoute ==> tombstones == old(tombstones) && base.inventory[..] == old(base.inventory[..])
      ensures route == CloseRoute && base.manager.Some? ==> base.manager.value.active == old(base.manager.value.active) - {base.owner.id}
      ensures (route == Nothing || route == RefreshRoute) && base.manager.Some? ==>
        base.manager.value.active == old(base.manager.value.active)
    {
      route := TeleportClickRoute(slot, clicked.Some?);
      outcome := None;
      match route {
        case RefreshRoute =>
          HandleRefreshClick(queryFails);
        case CloseRoute =>
          base.CloseGui();
        case TombstoneRoute =>
          var r := HandleTombstoneClick(slot);
          outcome := Some(r);
        case Nothing =>
      }
    }

    /**
     * `handleTombstoneClick` and `teleportToTombstone`: a grid index past
     * the list does nothing; then the teleport permission and the world
     * are checked; a teleport closes the GUI.
     */
    method HandleTombstoneClick(slot: int) returns (r: TeleportOutcome)
      requires Valid()
      modifies if base.manager.Some? then {base.manager.value} else {}
      ensures var i := CalculateTombstoneIndex(slot);
        && (r == NoTombstone <==> !(0 <= i < |tombstones|))
        && (r == NoTeleportPermission <==> 0 <= i < |tombstones| && !HasPermission(base.owner, TELEPORT_PERMISSION))
        && (r.WorldNotFound? <==> 0 <= i < |tombstones| && HasPermission(base.owner, TELEPORT_PERMISSION)
                                  && tombstones[i].world !in world.worlds)
        && (r.Teleported? ==> 0 <= i < |tombstones| && r.target == TeleportTarget(tombstones[i]))
      ensures r.Teleported? && base.manager.Some? ==> base.manager.value.active == old(base.manager.value.active) - {base.owner.id}
      ensures !r.Teleported? && base.manager.Some? ==> base.manager.value.active == old(base.manager.value.active)
    {
      var i := CalculateTombstoneIndex(slot);
      if i < 0 || i >= |tombstones| {
        return NoTombstone;
      }
      var d := tombstones[i];
      if !HasPermission(base.owner, TELEPORT_PERMISSION) {
        return NoTeleportPermission;
      }
      if d.world !in world.worlds {
        return WorldNotFound(d.world);
      }
      r := Teleported(TeleportTarget(d));
      base.CloseGui();
    }
  }

  /** A click on the `i`-th placed icon selects the `i`-th listed tombstone. */
  lemma ClickSelectsPlacedTombstone(tombstones: seq<TombstoneData>, i: nat)
    requires i < Shown(tombstones)
    ensures TeleportClickRoute(SlotOf(i), true) == TombstoneRoute
    ensures 0 <= CalculateTombstoneIndex(SlotOf(i)) < |tombstones|
    ensures CalculateTombstoneIndex(SlotOf(i)) == i
  {
    SlotOfInverse(i);
  }
}
