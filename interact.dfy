/**
 * The interaction listener: a main-hand right click on a tombstone block
 * is cancelled and, given the use permission, a live tombstone behind the
 * block's id tag, access to it and the GUI permission, opens that
 * tombstone's withdrawal GUI.
 */
module Interact {
  import opened Common
  import opened Worlds
  import opened Tombstones
  import opened TombstoneManagement
  import opened Gui
  import opened ItemsGui

  const USE_PERMISSION := "playerdeadmanager.use"
  const GUI_PERMISSION := "playerdeadmanager.gui"

  datatype Hand = MainHand | OffHand

  /** The parts of a `PlayerInteractEvent` the listener reads. */
  datatype InteractEvent = InteractEvent(rightClickBlock: bool, block: Option<Pos>, hand: Option<Hand>)

  /** Only a right click on a block, from the main hand or with no hand reported. */
  predicate Processed(e: InteractEvent)
  {
    e.rightClickBlock && e.block.Some? && (e.hand.None? || e.hand == Some(MainHand))
  }

  /** `isTombstoneBlock`: the configured material (an unknown name means a chest) carrying an id tag. */
  predicate IsTombstoneBlock(w: World, p: Pos, blockType: string, materials: map<string, Material>)
    reads w
  {
    w.BlockAt(p) == TombstoneMaterial(blockType, materials) && w.TagAt(p).Some?
  }

  datatype InteractOutcome =
    | Ignored
    | NoUsePermission
    | UnknownTombstone(id: int)
    | NoAccess
    | NoGuiPermission
    | GuiLoadThrew
    | OpenedGui(gui: TombstoneItemsGui)

  /**
   * `onPlayerInteract` with `handleTombstoneInteraction`,
   * `canAccessTombstone` and `handleTombstoneItemsGUI`. The event is
   * cancelled exactly when the click is processed and hits a tombstone
   * block; the GUI opens only after every check passed, and only when
   * loading its items does not throw (`queryFails` is the load's
   * statement failing, which lists nothing).
   */
  method OnPlayerInteract(mgr: TombstoneManager, registry: GuiManager, e: InteractEvent, player: Player, now: int,
                          blockType: string, materials: map<string, Material>, title: string, queryFails: bool)
    returns (cancelled: bool, outcome: InteractOutcome)
    requires mgr.Valid()
    modifies registry
    ensures cancelled <==> Processed(e) && IsTombstoneBlock(mgr.world, e.block.value, blockType, materials)
    ensures !cancelled ==> outcome == Ignored
    ensures cancelled && !HasPermission(player, USE_PERMISSION) ==> outcome == NoUsePermission
    ensures outcome.UnknownTombstone? ==>
      cancelled && HasPermission(player, USE_PERMISSION)
      && outcome.id == mgr.world.tags[e.block.value]
      && forall p :: p in mgr.active ==> mgr.active[p].id != outcome.id
    ensures outcome == NoAccess || outcome == NoGuiPermission || outcome == GuiLoadThrew || outcome.OpenedGui? ==>
      cancelled && HasPermission(player, USE_PERMISSION)
      && exists p :: p in mgr.active && mgr.active[p].id == mgr.world.tags[e.block.value]
    ensures outcome == NoAccess ==>
      exists p :: p in mgr.active && mgr.active[p].id == mgr.world.tags[e.block.value] && !CanAccess(mgr.active[p].info, player, now)
    ensures outcome.OpenedGui? ==>
      && HasPermission(player, GUI_PERMISSION)
      && outcome.gui.tombstone.id == mgr.world.tags[e.block.value]
      && CanAccess(outcome.gui.tombstone.info, player, now)
      && Some(outcome.gui.items) == LoadListing(mgr.store.connected, mgr.store.rows, outcome.gui.tombstone.id, mgr.store.backend, queryFails)
      && registry.active == old(registry.active)[player.id := outcome.gui.base]
    ensures outcome == GuiLoadThrew ==>
      && HasPermission(player, GUI_PERMISSION)
      && exists p :: (p in mgr.active && mgr.active[p].id == mgr.world.tags[e.block.value]
        && CanAccess(mgr.active[p].info, player, now)
        && LoadListing(mgr.store.connected, mgr.store.rows, mgr.active[p].id, mgr.store.backend, queryFails).None?)
    ensures !outcome.OpenedGui? ==> registry.active == old(registry.active)
  {
    cancelled := Processed(e) && IsTombstoneBlock(mgr.world, e.block.value, blockType, materials);
    if !cancelled {
      return cancelled, Ignored;
    }
    if !HasPermission(player, USE_PERMISSION) {
      return cancelled, NoUsePermission;
    }
    var id := mgr.world.tags[e.block.value];
    var found := mgr.GetTombstoneById(id);
    if found.None? {
      return cancelled, UnknownTombstone(id);
    }
    var t := found.value;
    if !CanAccess(t.info, player, now) {
      return cancelled, NoAccess;
    }
    if !HasPermission(player, GUI_PERMISSION) {
      return cancelled, NoGuiPermission;
    }
    var gui, thrown := OpenItemsGui(mgr, registry, player, t, title, queryFails);
    outcome := if thrown then GuiLoadThrew else OpenedGui(gui);
  }

  /**
   * `handleTombstoneItemsGUI` once every check passed: a new items GUI,
   * registered and opened, unless loading its items throws.
   */
  method OpenItemsGui(mgr: TombstoneManager, registry: GuiManager, player: Player, t: PlayerTombstone, title: string,
                      queryFails: bool)
    returns (gui: TombstoneItemsGui, thrown: bool)
    requires mgr.Valid()
    modifies registry
    ensures gui.tombstone == t
    ensures thrown <==> LoadListing(mgr.store.connected, mgr.store.rows, t.id, mgr.store.backend, queryFails).None?
    ensures thrown ==> registry.active == old(registry.active)
    ensures !thrown ==> Some(gui.items) == LoadListing(mgr.store.connected, mgr.store.rows, t.id, mgr.store.backend, queryFails)
    ensures !thrown ==> registry.active == old(registry.active)[player.id := gui.base]
  {
    gui := new TombstoneItemsGui(player, title, mgr, t);
    gui.base.SetGuiManager(Some(registry));
    thrown := gui.OpenGui(queryFails);
  }
}
