/**
 * The inventory listener: recognises the plugin's two GUIs by view size
 * and title, cancels every click in them, blocks the actions that would
 * move items into the withdrawal GUI, checks the GUI permission and hands
 * the click to the player's registered GUI; closing an inventory drops the
 * player's registry entry.
 *
 * The configured titles arrive already colour-translated.
 */
module InventoryClick {
  import opened Common
  import opened Gui
  import ItemsGui
  import TeleportMenu

  const GUI_PERMISSION := "playerdeadmanager.gui"

  /** Bukkit's `InventoryAction`s the listener distinguishes; the rest are `OtherAction`. */
  datatype InventoryAction =
    | PlaceAll | PlaceSome | PlaceOne | SwapWithCursor | HotbarMoveAndReadd | HotbarSwap
    | MoveToOtherInventory | PickupAll | PickupHalf | OtherAction(name: string)

  /**
   * A click: whether a player clicked, the top inventory's size, the view
   * title, the raw slot (over the whole view), the slot inside the clicked
   * inventory, the action, whether it was a right click and the clicked item.
   */
  datatype ClickEvent = ClickEvent(
    byPlayer: bool, topSize: int, viewTitle: Option<string>, rawSlot: int, slot: int,
    action: InventoryAction, rightClick: bool, current: Option<ItemStack>)

  datatype GuiTitles = GuiTitles(teleport: string, items: string)

  /** Which GUI class the registry holds for the clicking player. */
  datatype GuiKind = TeleportKind | ItemsKind

  /** `isTeleportGUIByInventory`. */
  predicate IsTeleportView(e: ClickEvent, titles: GuiTitles)
  {
    e.topSize == MAX_SIZE && e.viewTitle == Some(titles.teleport)
  }

  /** `isTombstoneItemsGUIByInventory`. */
  predicate IsItemsView(e: ClickEvent, titles: GuiTitles)
  {
    e.topSize == MAX_SIZE && e.viewTitle == Some(titles.items)
  }

  /** `isPlayerInPluginGUI`. */
  predicate IsPluginView(e: ClickEvent, titles: GuiTitles)
  {
    IsTeleportView(e, titles) || IsItemsView(e, titles)
  }

  predicate PlacesIntoGui(a: InventoryAction)
  {
    a == PlaceAll || a == PlaceSome || a == PlaceOne || a == SwapWithCursor || a == HotbarMoveAndReadd || a == HotbarSwap
  }

  /**
   * `isProhibitedAction`: only in the withdrawal GUI; in its own slots
   * the placing actions, below it a shift-move into it.
   */
  predicate IsProhibitedAction(e: ClickEvent, titles: GuiTitles)
  {
    if !IsItemsView(e, titles) then false
    else if e.rawSlot < e.topSize then PlacesIntoGui(e.action)
    else e.action == MoveToOtherInventory
  }

  lemma ProhibitedActions(e: ClickEvent, titles: GuiTitles)
    ensures !IsItemsView(e, titles) ==> !IsProhibitedAction(e, titles)
    ensures IsItemsView(e, titles) && e.rawSlot < e.topSize ==> (IsProhibitedAction(e, titles) <==> PlacesIntoGui(e.action))
    ensures IsItemsView(e, titles) && e.rawSlot >= e.topSize ==> (IsProhibitedAction(e, titles) <==> e.action == MoveToOtherInventory)
  {
  }

  /** What the listener does with a click. */
  datatype ClickDispatch =
    | NotHandled
    | CancelledProhibited
    | CancelledNoPermission
    | CancelledNoInstance
    | CancelledOutsideGui
    | ToTeleportGui(slot: int, clickedPresent: bool)
    | ToItemsGui(slot: int, clickedPresent: bool, rightClick: bool)

  /**
   * `onInventoryClick` as written: the GUI receives `getSlot()`, the slot
   * inside whichever inventory was clicked, so a click in the player's own
   * inventory below the GUI reaches the GUI under the player's slot number.
   */
  function DispatchAsWritten(e: ClickEvent, player: Player, titles: GuiTitles, active: Option<GuiKind>): ClickDispatch
  {
    if !e.byPlayer || !IsPluginView(e, titles) then NotHandled
    else if IsProhibitedAction(e, titles) then CancelledProhibited
    else if !HasPermission(player, GUI_PERMISSION) then CancelledNoPermission
    else if IsTeleportView(e, titles) then
      (if active == Some(TeleportKind) then ToTeleportGui(e.slot, e.current.Some?) else CancelledNoInstance)
    else
      (if active == Some(ItemsKind) then ToItemsGui(e.slot, e.current.Some?, e.rightClick) else CancelledNoInstance)
  }

  /** Dispatch with GUI actions confined to the GUI's own slots: a click below the GUI is cancelled and goes nowhere. */
  function Dispatch(e: ClickEvent, player: Player, titles: GuiTitles, active: Option<GuiKind>): (d: ClickDispatch)
    ensures d.ToTeleportGui? || d.ToItemsGui? ==> 0 <= d.slot < e.topSize && d.slot == e.rawSlot
  {
    var d := DispatchAsWritten(e, player, titles, active);
    if (d.ToTeleportGui? || d.ToItemsGui?) && !(0 <= e.rawSlot < e.topSize) then CancelledOutsideGui
    else if d.ToTeleportGui? then ToTeleportGui(e.rawSlot, d.clickedPresent)
    else if d.ToItemsGui? then ToItemsGui(e.rawSlot, d.clickedPresent, d.rightClick)
    else d
  }

  /** `handlePluginGUIClick` cancels every click in a plugin GUI and no other. */
  predicate Cancelled(d: ClickDispatch)
  {
    d != NotHandled
  }

  lemma DispatchRules(e: ClickEvent, player: Player, titles: GuiTitles, active: Option<GuiKind>)
    ensures Cancelled(Dispatch(e, player, titles, active)) <==> e.byPlayer && IsPluginView(e, titles)
    ensures var d := Dispatch(e, player, titles, active);
      (d.ToTeleportGui? || d.ToItemsGui?) ==>
        HasPermission(player, GUI_PERMISSION) && !IsProhibitedAction(e, titles)
        && (d.ToTeleportGui? ==> IsTeleportView(e, titles) && active == Some(TeleportKind))
        && (d.ToItemsGui? ==> IsItemsView(e, titles) && active == Some(ItemsKind))
    ensures e.byPlayer && IsPluginView(e, titles) && 0 <= e.rawSlot < e.topSize && e.slot == e.rawSlot ==>
      Dispatch(e, player, titles, active) == DispatchAsWritten(e, player, titles, active)
  {
  }

  /**
   * As written, a right click on slot 14 of the player's own inventory
   * (raw slot 59 under a six-row GUI) takes the tombstone's 15th item.
   */
  lemma BottomClickTakesTombstoneItem(player: Player, titles: GuiTitles, item: ItemStack)
    requires HasPermission(player, GUI_PERMISSION)
    requires titles.teleport != titles.items
    ensures var e := ClickEvent(true, MAX_SIZE, Some(titles.items), 59, 14, PickupHalf, true, Some(item));
      && DispatchAsWritten(e, player, titles, Some(ItemsKind)) == ToItemsGui(14, true, true)
      && ItemsGui.ItemsClickRoute(14, true, Some(true)) == ItemsGui.ItemRoute
      && Dispatch(e, player, titles, Some(ItemsKind)) == CancelledOutsideGui
  {
  }

  /** `onInventoryClose`: the player's registry entry goes, if there was one. */
  method OnInventoryClose(registry: GuiManager, player: Player)
    modifies registry
    ensures registry.active == old(registry.active) - {player.id}
    ensures !registry.HasActiveGui(player)
  {
    if registry.GetActiveGui(player).Some? {
      registry.UnregisterGui(player);
    }
  }
}
