/**
 * The common GUI machinery: a chest inventory of fixed size whose slot
 * writes and reads are bounds-checked, and the registry of the GUI each
 * player has open, keyed by the player's UUID.
 */
module Gui {
  import opened Common

  /** A GUI inventory holds at most six rows of nine slots. */
  const ROW := 9
  const MAX_SIZE := 54

  /** `GUIManager`: the open GUI of each player. */
  class GuiManager {
    var active: map<Uuid, GuiBase>

    constructor ()
      ensures active == map[]
    {
      active := map[];
    }

    /** `registerGUI`: the player's entry becomes `gui`, replacing any earlier one. */
    method RegisterGui(player: Player, gui: GuiBase)
      modifies this
      ensures active == old(active)[player.id := gui]
      ensures GetActiveGui(player) == Some(gui)
      ensures forall u :: u != player.id ==> (u in active <==> u in old(active)) && (u in active ==> active[u] == old(active)[u])
    {
      active := active[player.id := gui];
    }

    /** `unregisterGUI`: only the player's own entry goes. */
    method UnregisterGui(player: Player)
      modifies this
      ensures active == old(active) - {player.id}
      ensures !HasActiveGui(player)
    {
      active := active - {player.id};
    }

    /** `getActiveGUI`: the player's GUI, or none. */
    function GetActiveGui(player: Player): (r: Option<GuiBase>)
      reads this
      ensures r.Some? <==> player.id in active
      ensures r.Some? ==> r.value == active[player.id]
    {
      if player.id in active then Some(active[player.id]) else None
    }

    predicate HasActiveGui(player: Player)
      reads this
    {
      player.id in active
    }

    /** `hasActiveGUI` agrees with `getActiveGUI`. */
    lemma HasIffGet(player: Player)
      ensures HasActiveGui(player) <==> GetActiveGui(player).Some?
    {
    }

    /** `findGUIByInventory`: some registered GUI showing that inventory, or none when no registered GUI shows it. */
    method FindGuiByInventory(inv: array<Option<ItemStack>>) returns (r: Option<GuiBase>)
      ensures r.Some? ==> r.value in active.Values && r.value.inventory == inv
      ensures r.None? ==> forall u :: u in active ==> active[u].inventory != inv
    {
      var rest := active.Keys;
      while rest != {}
        invariant rest <= active.Keys
        invariant forall u :: u in active && u !in rest ==> active[u].inventory != inv
        decreases rest
      {
        var u :| u in rest;
        if active[u].inventory == inv {
          return Some(active[u]);
        }
        rest := rest - {u};
      }
      return None;
    }

    /** `clearAllGUIs`. */
    method ClearAllGuis()
      modifies this
      ensures active == map[] && ActiveGuiCount() == 0
    {
      active := map[];
    }

    function ActiveGuiCount(): nat
      reads this
    {
      |active|
    }
  }

  /** `AbstractGUI`: the owner, the title, the fixed size and the slots. */
  class GuiBase {
    const owner: Player
    const title: string
    const size: int
    const inventory: array<Option<ItemStack>>
    var manager: Option<GuiManager>

    ghost predicate Valid()
      reads this
    {
      inventory.Length == size
    }

    /** A new GUI has empty slots and no registry; the size is a whole number of rows, at most six. */
    constructor (owner: Player, title: string, size: int)
      requires 0 < size <= MAX_SIZE && size % ROW == 0
      ensures Valid()
      ensures this.owner == owner && this.title == title && this.size == size
      ensures fresh(inventory) && forall i :: 0 <= i < size ==> inventory[i].None?
      ensures manager.None?
    {
      this.owner := owner;
      this.title := title;
      this.size := size;
      inventory := new Option<ItemStack>[size](_ => None);
      manager := None;
    }

    method SetGuiManager(m: Option<GuiManager>)
      modifies this
      ensures manager == m
    {
      manager := m;
    }

    /** `isValidSlot`. */
    predicate IsValidSlot(slot: int)
    {
      0 <= slot < size
    }

    /** `setItem`: writes a valid slot; an invalid slot changes nothing. */
    method SetItem(slot: int, item: Option<ItemStack>)
      requires Valid()
      modifies inventory
      ensures IsValidSlot(slot) ==> inventory[..] == old(inventory[..])[slot := item]
      ensures !IsValidSlot(slot) ==> inventory[..] == old(inventory[..])
      ensures IsValidSlot(slot) ==> GetItem(slot) == item
    {
      if 0 <= slot < size {
        inventory[slot] := item;
      }
    }

    /** `getItem`: the slot's content, and nothing outside the inventory. */
    function GetItem(slot: int): (r: Option<ItemStack>)
      requires Valid()
      reads this, inventory
      ensures !IsValidSlot(slot) ==> r.None?
      ensures IsValidSlot(slot) ==> r == inventory[slot]
    {
      if 0 <= slot < size then inventory[slot] else None
    }

    /** `Inventory.clear`. */
    method ClearInventory()
      requires Valid()
      modifies inventory
      ensures forall i :: 0 <= i < inventory.Length ==> inventory[i].None?
    {
      forall i | 0 <= i < inventory.Length {
        inventory[i] := None;
      }
    }

    /** The registration part of `openGUI`: with a registry, the GUI becomes the owner's open GUI. */
    method RegisterOpen()
      modifies if manager.Some? then {manager.value} else {}
      ensures manager.Some? ==> manager.value.active == old(manager.value.active)[owner.id := this]
    {
      if manager.Some? {
        manager.value.RegisterGui(owner, this);
      }
    }

    /** `closeGUI`: with a registry, the owner's entry goes. */
    method CloseGui()
      modifies if manager.Some? then {manager.value} else {}
      ensures manager.Some? ==> manager.value.active == old(manager.value.active) - {owner.id}
    {
      if manager.Some? {
        manager.value.UnregisterGui(owner);
      }
    }
  }
}
