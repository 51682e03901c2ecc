/**
 * The death listener: in a world where the player may have tombstones
 * (and, in a pvp-only world, only for a death by another player), a
 * totem, then a VIP exemption, then paid insurance may each keep the
 * inventory; otherwise the drops are suppressed and a tombstone takes
 * the inventory and the experience.
 *
 * A totem is consumed one item at a time; see the totem finding at the
 * end of this module for the consumption as written.
 */
module Death {
  import opened Common
  import opened Tombstones
  import opened TombstoneManagement
  import opened WorldConfig
  import opened VipExemption

  /** The `totem` section and `experience.keep-level`. */
  datatype TotemConfig = TotemConfig(
    enabled: bool,                   // totem.enabled, default true
    itemType: string,                // totem.item-type, default "TOTEM_OF_UNDYING"
    customModelData: int,            // totem.custom-model-data, default 0
    displayName: Option<string>,     // totem.display-name, default none
    keepLevel: bool)                 // experience.keep-level, default false

  /** The economy insurance as the listener sees it: the cost itself is out of this model. */
  datatype Insurance = Insurance(enabled: bool, costPositive: bool, paymentSucceeds: bool)

  /** The store faults that can hit one death: the exemption read and upsert, and the three tombstone writes. */
  datatype DeathFaults = DeathFaults(
    exemptionRead: bool, exemptionWrite: bool, limitQuery: bool, evict: bool, save: bool)

  /** The parts of a `PlayerDeathEvent` the listener sets. */
  class DeathEvent {
    var keepInventory: bool
    var keepLevel: bool
    var drops: seq<ItemStack>
    var droppedExp: int

    constructor (drops: seq<ItemStack>, droppedExp: int)
      ensures !keepInventory && !keepLevel && this.drops == drops && this.droppedExp == droppedExp
    {
      keepInventory := false;
      keepLevel := false;
      this.drops := drops;
      this.droppedExp := droppedExp;
    }

    /** The inventory and the level are kept; nothing drops. */
    predicate KeepsEverything()
      reads this
    {
      keepInventory && keepLevel && drops == [] && droppedExp == 0
    }

    /** Nothing is kept and nothing drops: the tombstone takes it all. */
    predicate DropsToTombstone()
      reads this
    {
      !keepInventory && !keepLevel && drops == [] && droppedExp == 0
    }
  }

  /** A player's inventory: `getContents()`, every slot including armour and off hand. */
  class PlayerInventory {
    var contents: seq<Option<ItemStack>>

    constructor (contents: seq<Option<ItemStack>>)
      ensures this.contents == contents
    {
      this.contents := contents;
    }
  }

  // ---------------------------------------------------------------------
  // Totems

  /** `Material.valueOf`: an exact name, or nothing for a name Bukkit does not know. */
  function TotemMaterial(name: string, materials: map<string, Material>): (r: Option<Material>)
    ensures r.Some? <==> name in materials
    ensures r.Some? ==> r.value == materials[name]
  {
    if name in materials then Some(materials[name]) else None
  }

  /**
   * `isValidTotem`: the right type; then, for an item with meta, the
   * custom model data when one is configured, else the display name when
   * one is configured. An item without meta passes on its type alone.
   */
  predicate IsValidTotem(item: Option<ItemStack>, totem: Material, cfg: TotemConfig)
  {
    && item.Some? && item.value.material == totem
    && if cfg.customModelData > 0 && item.value.meta.Some? then
         item.value.meta.value.customModelData == Some(cfg.customModelData)
       else if cfg.displayName.Some? && |cfg.displayName.value| > 0 && item.value.meta.Some? then
         item.value.meta.value.displayName == cfg.displayName
       else true
  }

  /**
   * `findTotemInInventory`: the first valid slot. The second scan of the
   * source, over the storage slots, looks at slots the first scan has
   * already looked at, and is not repeated here.
   */
  method FindTotemInInventory(contents: seq<Option<ItemStack>>, totem: Material, cfg: TotemConfig) returns (r: Option<nat>)
    ensures r.Some? ==> (r.value < |contents| && IsValidTotem(contents[r.value], totem, cfg)
      && forall k :: 0 <= k < r.value ==> !IsValidTotem(contents[k], totem, cfg))
    ensures r.None? ==> forall k :: 0 <= k < |contents| ==> !IsValidTotem(contents[k], totem, cfg)
  {
    var i := 0;
    while i < |contents|
      invariant 0 <= i <= |contents|
      invariant forall k :: 0 <= k < i ==> !IsValidTotem(contents[k], totem, cfg)
    {
      if IsValidTotem(contents[i], totem, cfg) {
        return Some(i);
      }
      i := i + 1;
    }
    return None;
  }

  /** Whether the death is saved by a totem: the feature is on, the type is known and some slot holds a valid totem. */
  predicate HasTotem(cfg: TotemConfig, materials: map<string, Material>, contents: seq<Option<ItemStack>>)
  {
    && cfg.enabled && TotemMaterial(cfg.itemType, materials).Some?
    && exists k :: 0 <= k < |contents| && IsValidTotem(contents[k], TotemMaterial(cfg.itemType, materials).value, cfg)
  }

  /** The number of valid totems held: the amounts of the valid slots. */
  function TotemCount(contents: seq<Option<ItemStack>>, totem: Material, cfg: TotemConfig): int
  {
    if |contents| == 0 then 0
    else
      var last := contents[|contents| - 1];
      TotemCount(contents[..|contents| - 1], totem, cfg) + (if IsValidTotem(last, totem, cfg) then last.value.amount else 0)
  }

  /** One totem used from slot `i`: a larger stack shrinks by one, a single item leaves the slot. */
  function Consumed(contents: seq<Option<ItemStack>>, i: nat): (r: seq<Option<ItemStack>>)
    requires i < |contents| && contents[i].Some?
    ensures |r| == |contents|
    ensures forall k :: 0 <= k < |contents| && k != i ==> r[k] == contents[k]
  {
    var item := contents[i].value;
    if item.amount > 1 then contents[i := Some(item.(amount := item.amount - 1))] else contents[i := None]
  }

  /** Changing one slot changes the count by what that slot held. */
  lemma {:induction false} TotemCountUpdate(contents: seq<Option<ItemStack>>, i: nat, x: Option<ItemStack>, totem: Material, cfg: TotemConfig)
    requires i < |contents|
    ensures TotemCount(contents[i := x], totem, cfg)
      == TotemCount(contents, totem, cfg)
         - (if IsValidTotem(contents[i], totem, cfg) then contents[i].value.amount else 0)
         + (if IsValidTotem(x, totem, cfg) then x.value.amount else 0)
  {
    var n := |contents|;
    var updated := contents[i := x];
    assert updated[..n - 1] == if i < n - 1 then contents[..n - 1][i := x] else contents[..n - 1];
    if i < n - 1 {
      TotemCountUpdate(contents[..n - 1], i, x, totem, cfg);
    }
  }

  /** Using a totem takes exactly one: the count of valid totems drops by one and no other slot changes. */
  lemma ConsumeTakesOne(contents: seq<Option<ItemStack>>, i: nat, totem: Material, cfg: TotemConfig)
    requires i < |contents| && IsValidTotem(contents[i], totem, cfg) && contents[i].value.amount >= 1
    ensures TotemCount(Consumed(contents, i), totem, cfg) == TotemCount(contents, totem, cfg) - 1
  {
    var item := contents[i].value;
    if item.amount > 1 {
      assert IsValidTotem(Some(item.(amount := item.amount - 1)), totem, cfg);
      TotemCountUpdate(contents, i, Some(item.(amount := item.amount - 1)), totem, cfg);
    } else {
      TotemCountUpdate(contents, i, None, totem, cfg);
    }
  }

  /**
   * `checkAndConsumeTotem` with the corrected consumption: on a valid
   * totem the inventory and, as configured, the level are kept, and
   * nothing drops.
   */
  method CheckAndConsumeTotem(cfg: TotemConfig, materials: map<string, Material>, inventory: PlayerInventory, event: DeathEvent)
    returns (used: bool)
    modifies inventory, event
    ensures used <==> HasTotem(cfg, materials, old(inventory.contents))
    ensures !used ==> (inventory.contents == old(inventory.contents)
      && event.keepInventory == old(event.keepInventory) && event.keepLevel == old(event.keepLevel)
      && event.drops == old(event.drops) && event.droppedExp == old(event.droppedExp))
    ensures used ==> exists i :: (0 <= i < |old(inventory.contents)| && old(inventory.contents)[i].Some?
      && IsValidTotem(old(inventory.contents)[i], TotemMaterial(cfg.itemType, materials).value, cfg)
      && inventory.contents == Consumed(old(inventory.contents), i))
    ensures used ==> event.keepInventory && event.keepLevel == cfg.keepLevel && event.drops == [] && event.droppedExp == 0
  {
    if !cfg.enabled {
      return false;
    }
    var totem := TotemMaterial(cfg.itemType, materials);
    if totem.None? {
      return false;
    }
    var found := FindTotemInInventory(inventory.contents, totem.value, cfg);
    if found.None? {
      return false;
    }
    var i := found.value;
    inventory.contents := Consumed(inventory.contents, i);
    event.keepInventory := true;
    event.keepLevel := cfg.keepLevel;
    event.drops := [];
    event.droppedExp := 0;
    used := true;
  }

  // ---------------------------------------------------------------------
  // The other savers and the drops

  /** `handleVipExemption`: a usable exemption that is recorded keeps everything. */
  method HandleVipExemption(vip: ExemptionManager, player: Player, today: int, faults: DeathFaults, event: DeathEvent)
    returns (saved: bool)
    modifies vip, event
    ensures saved <==> Permits(vip.enabled, MaxGrant(player.perms),
                               Seen(old(vip.cache), old(vip.table), (player.id, today), faults.exemptionRead))
                       && !faults.exemptionWrite
    ensures saved ==> (event.KeepsEverything()
      && vip.table == old(vip.table)[(player.id, today) := Stored(old(vip.table), (player.id, today)) + 1])
    ensures !saved ==> (vip.table == old(vip.table)
      && event.keepInventory == old(event.keepInventory) && event.keepLevel == old(event.keepLevel)
      && event.drops == old(event.drops) && event.droppedExp == old(event.droppedExp))
  {
    var can := vip.CanUseExemption(player, today, faults.exemptionRead);
    if !can {
      return false;
    }
    saved := vip.UseExemption(player, today, faults.exemptionRead, faults.exemptionWrite);
    if saved {
      event.keepInventory := true;
      event.keepLevel := true;
      event.drops := [];
      event.droppedExp := 0;
    }
  }

  /** `handleEconomyInsurance`: a positive cost that is paid keeps everything. */
  method HandleEconomyInsurance(insurance: Insurance, event: DeathEvent) returns (saved: bool)
    modifies event
    ensures saved <==> insurance.enabled && insurance.costPositive && insurance.paymentSucceeds
    ensures saved ==> event.KeepsEverything()
    ensures !saved ==> (event.keepInventory == old(event.keepInventory) && event.keepLevel == old(event.keepLevel)
      && event.drops == old(event.drops) && event.droppedExp == old(event.droppedExp))
  {
    if !insurance.enabled || !insurance.costPositive || !insurance.paymentSucceeds {
      return false;
    }
    event.keepInventory := true;
    event.keepLevel := true;
    event.drops := [];
    event.droppedExp := 0;
    saved := true;
  }

  /** `handleDeathDrops`. */
  method HandleDeathDrops(event: DeathEvent)
    modifies event
    ensures event.DropsToTombstone()
  {
    event.drops := [];
    event.keepInventory := false;
    event.keepLevel := false;
    event.droppedExp := 0;
  }

  /** The scan of `createTombstone`: whether any slot holds a non-air item. */
  method HasItems(contents: seq<Option<ItemStack>>) returns (found: bool)
    ensures found <==> exists k :: 0 <= k < |contents| && Present(contents[k])
  {
    found := false;
    var i := 0;
    while i < |contents| && !found
      invariant 0 <= i <= |contents|
      invariant found <==> exists k :: 0 <= k < i && Present(contents[k])
    {
      if Present(contents[i]) {
        found := true;
      }
      i := i + 1;
    }
  }

  // ---------------------------------------------------------------------
  // The pipeline

  datatype DeathOutcome =
    | WorldNotAllowed
    | NonPvpDeath          // "tombstone.non-pvp-death"
    | NoPvpPermission
    | TotemUsed            // "totem.used"
    | ExemptionUsed
    | InsurancePaid        // "economy.payment-success"
    | NothingToSave
    | TombstoneAttempted(r: CreateOutcome)

  /** The world and pvp gates that every later step is behind. */
  predicate PassesGates(wc: Config, player: Player, killedByPlayer: bool)
  {
    && CanUseTombstoneInWorld(wc, player, player.world)
    && (IsPvpOnlyEnabled(wc, player.world) ==> killedByPlayer && CanUsePvpTombstoneInWorld(wc, player, player.world))
  }

  /** The gates as the pipeline reads them: a pvp-only world drops a death that no player caused. */
  lemma GatesRules(wc: Config, player: Player, killedByPlayer: bool)
    ensures IsPvpOnlyEnabled(wc, player.world) && !killedByPlayer ==> !PassesGates(wc, player, killedByPlayer)
    ensures !IsPvpOnlyEnabled(wc, player.world) ==> (PassesGates(wc, player, killedByPlayer) <==> CanUseTombstoneInWorld(wc, player, player.world))
    ensures PassesGates(wc, player, killedByPlayer) ==> HasBasicPermission(wc, player)
  {
  }

  /** Whether a VIP exemption saves this death, on the exemption state before the death. */
  ghost predicate ExemptionSaves(enabled: bool, cache: map<(Uuid, int), int>, table: map<(Uuid, int), int>,
                           player: Player, today: int, faults: DeathFaults)
  {
    Permits(enabled, MaxGrant(player.perms), Seen(cache, table, (player.id, today), faults.exemptionRead))
    && !faults.exemptionWrite
  }

  /** Whether the economy insurance saves this death. */
  predicate InsuranceSaves(wc: Config, player: Player, insurance: Insurance)
  {
    CanUseEconomyInWorld(wc, player, player.world) && insurance.enabled && insurance.costPositive && insurance.paymentSucceeds
  }

  /** The gates of `onPlayerDeath` in their order: the world, then pvp-only worlds. */
  function GateStop(wc: Config, player: Player, killedByPlayer: bool): (r: Option<DeathOutcome>)
    ensures r.None? <==> PassesGates(wc, player, killedByPlayer)
    ensures r == Some(WorldNotAllowed) <==> !CanUseTombstoneInWorld(wc, player, player.world)
    ensures r == Some(NonPvpDeath) <==>
      CanUseTombstoneInWorld(wc, player, player.world) && IsPvpOnlyEnabled(wc, player.world) && !killedByPlayer
    ensures r == Some(NoPvpPermission) <==>
      CanUseTombstoneInWorld(wc, player, player.world) && IsPvpOnlyEnabled(wc, player.world) && killedByPlayer
      && !CanUsePvpTombstoneInWorld(wc, player, player.world)
  {
    if !CanUseTombstoneInWorld(wc, player, player.world) then Some(WorldNotAllowed)
    else if IsPvpOnlyEnabled(wc, player.world) && !killedByPlayer then Some(NonPvpDeath)
    else if IsPvpOnlyEnabled(wc, player.world) && !CanUsePvpTombstoneInWorld(wc, player, player.world) then Some(NoPvpPermission)
    else None
  }

  /**
   * The three ways to keep the inventory, once the gates let the death
   * through: a totem, a VIP exemption, the economy insurance.
   */
  method RunSavers(player: Player, inventory: PlayerInventory, event: DeathEvent,
                   wc: Config, totem: TotemConfig, insurance: Insurance, materials: map<string, Material>,
                   vip: ExemptionManager, today: int, faults: DeathFaults)
    returns (stop: Option<DeathOutcome>)
    modifies inventory, event, vip
    ensures stop.None? || stop.value in {TotemUsed, ExemptionUsed, InsurancePaid}
    ensures stop == Some(TotemUsed) <==> HasTotem(totem, materials, old(inventory.contents))
    ensures stop == Some(ExemptionUsed) <==>
      !HasTotem(totem, materials, old(inventory.contents))
      && ExemptionSaves(vip.enabled, old(vip.cache), old(vip.table), player, today, faults)
    ensures stop == Some(InsurancePaid) <==>
      !HasTotem(totem, materials, old(inventory.contents))
      && !ExemptionSaves(vip.enabled, old(vip.cache), old(vip.table), player, today, faults)
      && InsuranceSaves(wc, player, insurance)
    ensures stop == Some(TotemUsed) ==> (event.keepInventory && event.keepLevel == totem.keepLevel && event.drops == [] && event.droppedExp == 0)
    ensures stop == Some(TotemUsed) ==> exists i :: (0 <= i < |old(inventory.contents)| && old(inventory.contents)[i].Some?
      && IsValidTotem(old(inventory.contents)[i], TotemMaterial(totem.itemType, materials).value, totem)
      && inventory.contents == Consumed(old(inventory.contents), i))
    ensures stop != Some(TotemUsed) ==> inventory.contents == old(inventory.contents)
    ensures stop == Some(ExemptionUsed) ==> (event.KeepsEverything()
      && vip.table == old(vip.table)[(player.id, today) := Stored(old(vip.table), (player.id, today)) + 1])
    ensures stop != Some(ExemptionUsed) ==> vip.table == old(vip.table)
    ensures stop == Some(InsurancePaid) ==> event.KeepsEverything()
  {
    var totemUsed := CheckAndConsumeTotem(totem, materials, inventory, event);
    if totemUsed {
      return Some(TotemUsed);
    }
    var exempted := HandleVipExemption(vip, player, today, faults, event);
    if exempted {
      return Some(ExemptionUsed);
    }
    if CanUseEconomyInWorld(wc, player, player.world) {
      var paid := HandleEconomyInsurance(insurance, event);
      if paid {
        return Some(InsurancePaid);
      }
    }
    return None;
  }

  /**
   * The first half of `onPlayerDeath`: the gates, then the three ways to
   * keep the inventory, in their order. `None` means the death goes on to
   * a tombstone.
   */
  method SaveFromDeath(player: Player, killedByPlayer: bool, inventory: PlayerInventory, event: DeathEvent,
                       wc: Config, totem: TotemConfig, insurance: Insurance, materials: map<string, Material>,
                       vip: ExemptionManager, today: int, faults: DeathFaults)
    returns (stop: Option<DeathOutcome>)
    modifies inventory, event, vip
    ensures stop == Some(WorldNotAllowed) <==> !CanUseTombstoneInWorld(wc, player, player.world)
    ensures stop == Some(NonPvpDeath) <==>
      CanUseTombstoneInWorld(wc, player, player.world) && IsPvpOnlyEnabled(wc, player.world) && !killedByPlayer
    ensures stop == Some(NoPvpPermission) <==>
      CanUseTombstoneInWorld(wc, player, player.world) && IsPvpOnlyEnabled(wc, player.world) && killedByPlayer
      && !CanUsePvpTombstoneInWorld(wc, player, player.world)
    ensures stop == Some(TotemUsed) <==> PassesGates(wc, player, killedByPlayer) && HasTotem(totem, materials, old(inventory.contents))
    ensures stop == Some(ExemptionUsed) <==>
      PassesGates(wc, player, killedByPlayer) && !HasTotem(totem, materials, old(inventory.contents))
      && ExemptionSaves(vip.enabled, old(vip.cache), old(vip.table), player, today, faults)
    ensures stop == Some(InsurancePaid) <==>
      PassesGates(wc, player, killedByPlayer) && !HasTotem(totem, materials, old(inventory.contents))
      && !ExemptionSaves(vip.enabled, old(vip.cache), old(vip.table), player, today, faults)
      && InsuranceSaves(wc, player, insurance)
    ensures stop.None? || stop.value in {WorldNotAllowed, NonPvpDeath, NoPvpPermission, TotemUsed, ExemptionUsed, InsurancePaid}
    ensures stop == Some(TotemUsed) ==> (event.keepInventory && event.keepLevel == totem.keepLevel && event.drops == [] && event.droppedExp == 0)
    ensures stop == Some(TotemUsed) ==> exists i :: (0 <= i < |old(inventory.contents)| && old(inventory.contents)[i].Some?
      && IsValidTotem(old(inventory.contents)[i], TotemMaterial(totem.itemType, materials).value, totem)
      && inventory.contents == Consumed(old(inventory.contents), i))
    ensures stop != Some(TotemUsed) ==> inventory.contents == old(inventory.contents)
    ensures stop == Some(ExemptionUsed) ==> (event.KeepsEverything()
      && vip.table == old(vip.table)[(player.id, today) := Stored(old(vip.table), (player.id, today)) + 1])
    ensures stop != Some(ExemptionUsed) ==> vip.table == old(vip.table)
    ensures stop == Some(InsurancePaid) ==> event.KeepsEverything()
    ensures stop.Some? && stop.value in {WorldNotAllowed, NonPvpDeath, NoPvpPermission} ==>
      unchanged(event) && unchanged(inventory) && unchanged(vip)
  {
    stop := GateStop(wc, player, killedByPlayer);
    if stop.Some? {
      return;
    }
    stop := RunSavers(player, inventory, event, wc, totem, insurance, materials, vip, today, faults);
  }

  /**
   * The second half of `onPlayerDeath`: nothing drops, and an inventory
   * with an item or a positive experience goes into a new tombstone at
   * the player's location.
   */
  method DropIntoTombstone(player: Player, location: Location, experience: int, contents: seq<Option<ItemStack>>,
                           event: DeathEvent, mgr: TombstoneManager, mcfg: ManagerConfig, materials: map<string, Material>,
                           holoLines: seq<string>, now: int, faults: DeathFaults)
    returns (outcome: DeathOutcome)
    requires mgr.Valid() && location.world in mgr.world.worlds
    modifies event, mgr, mgr.world, mgr.store, mgr.holograms, mgr.particles
    ensures mgr.Valid() && event.DropsToTombstone()
    ensures outcome == NothingToSave || outcome.TombstoneAttempted?
    ensures outcome == NothingToSave <==>
      (forall k :: 0 <= k < |contents| ==> !Present(contents[k])) && experience <= 0
    ensures outcome.TombstoneAttempted? && outcome.r.Created? ==>
      && outcome.r.t.info.owner == player.id && outcome.r.t.info.experience == experience && outcome.r.t.info.deathTime == now
      && BlockPos(outcome.r.t.info) in mgr.active && mgr.active[BlockPos(outcome.r.t.info)] == outcome.r.t
    ensures outcome == NothingToSave ==> unchanged(mgr, mgr.world, mgr.store, mgr.holograms, mgr.particles)
  {
    HandleDeathDrops(event);
    var hasItems := HasItems(contents);
    if !hasItems && experience <= 0 {
      return NothingToSave;
    }
    var r := mgr.CreateTombstone(player, location, contents, experience, now, mcfg, materials, holoLines,
                                 faults.limitQuery, faults.evict, faults.save);
    outcome := TombstoneAttempted(r);
  }

  /**
   * `onPlayerDeath`. `killedByPlayer` is whether the killer is a player;
   * `today` the day number; `location` and `experience` the player's
   * location and total experience.
   */
  method OnPlayerDeath(player: Player, killedByPlayer: bool, location: Location, experience: int,
                       inventory: PlayerInventory, event: DeathEvent,
                       wc: Config, totem: TotemConfig, insurance: Insurance, materials: map<string, Material>,
                       vip: ExemptionManager, today: int,
                       mgr: TombstoneManager, mcfg: ManagerConfig, holoLines: seq<string>, now: int, faults: DeathFaults)
    returns (outcome: DeathOutcome)
    requires mgr.Valid()
    requires location.world == player.world && location.world in mgr.world.worlds
    modifies inventory, event, vip, mgr, mgr.world, mgr.store, mgr.holograms, mgr.particles
    ensures mgr.Valid()
    ensures outcome in {WorldNotAllowed, NonPvpDeath, NoPvpPermission, TotemUsed, ExemptionUsed, InsurancePaid, NothingToSave}
      || outcome.TombstoneAttempted?
    ensures outcome == WorldNotAllowed <==> !CanUseTombstoneInWorld(wc, player, player.world)
    ensures outcome == NonPvpDeath <==>
      CanUseTombstoneInWorld(wc, player, player.world) && IsPvpOnlyEnabled(wc, player.world) && !killedByPlayer
    ensures outcome == NoPvpPermission <==>
      CanUseTombstoneInWorld(wc, player, player.world) && IsPvpOnlyEnabled(wc, player.world) && killedByPlayer
      && !CanUsePvpTombstoneInWorld(wc, player, player.world)
    ensures outcome in {WorldNotAllowed, NonPvpDeath, NoPvpPermission} ==>
      unchanged(event) && unchanged(inventory) && unchanged(vip)
    ensures outcome == TotemUsed <==> PassesGates(wc, player, killedByPlayer) && HasTotem(totem, materials, old(inventory.contents))
    ensures outcome == ExemptionUsed <==>
      PassesGates(wc, player, killedByPlayer) && !HasTotem(totem, materials, old(inventory.contents))
      && ExemptionSaves(vip.enabled, old(vip.cache), old(vip.table), player, today, faults)
    ensures outcome == InsurancePaid <==>
      PassesGates(wc, player, killedByPlayer) && !HasTotem(totem, materials, old(inventory.contents))
      && !ExemptionSaves(vip.enabled, old(vip.cache), old(vip.table), player, today, faults)
      && InsuranceSaves(wc, player, insurance)
    ensures outcome == NothingToSave || outcome.TombstoneAttempted? <==>
      PassesGates(wc, player, killedByPlayer) && !HasTotem(totem, materials, old(inventory.contents))
      && !ExemptionSaves(vip.enabled, old(vip.cache), old(vip.table), player, today, faults)
      && !InsuranceSaves(wc, player, insurance)
    ensures outcome == NothingToSave || outcome.TombstoneAttempted? ==> (event.DropsToTombstone()
      && inventory.contents == old(inventory.contents) && vip.table == old(vip.table))
    ensures outcome.TombstoneAttempted? ==> (exists k :: 0 <= k < |inventory.contents| && Present(inventory.contents[k])) || experience > 0
    ensures outcome.TombstoneAttempted? && outcome.r.Created? ==>
      && outcome.r.t.info.owner == player.id && outcome.r.t.info.experience == experience && outcome.r.t.info.deathTime == now
      && BlockPos(outcome.r.t.info) in mgr.active && mgr.active[BlockPos(outcome.r.t.info)] == outcome.r.t
    ensures !outcome.TombstoneAttempted? ==> unchanged(mgr, mgr.world, mgr.store, mgr.holograms, mgr.particles)
  {
    var stop := SaveFromDeath(player, killedByPlayer, inventory, event, wc, totem, insurance, materials, vip, today, faults);
    if stop.Some? {
      return stop.value;
    }
    outcome := DropIntoTombstone(player, location, experience, inventory.contents, event, mgr, mcfg, materials,
                                 holoLines, now, faults);
  }

  // ---------------------------------------------------------------------
  // Finding: a used totem takes every equal stack

  /**
   * The player inventory's `getContents` order: the 36 storage slots
   * (main inventory and hotbar), then four armour slots and the off hand.
   * `Inventory.remove(ItemStack)` works on the storage slots only.
   */
  const STORAGE_SLOTS := 36
  const OFF_HAND_SLOT := 40

  /**
   * The consumption as written: a larger stack shrinks by one in place,
   * while a single totem is removed with `Inventory.remove(ItemStack)`,
   * which empties every storage slot holding an equal stack, not only the
   * slot the totem was found in, and never an armour or off-hand slot.
   */
  function ConsumedAsWritten(contents: seq<Option<ItemStack>>, i: nat): (r: seq<Option<ItemStack>>)
    requires i < |contents| && contents[i].Some?
    ensures |r| == |contents|
    ensures contents[i].value.amount > 1 ==> r == Consumed(contents, i)
    ensures contents[i].value.amount <= 1 ==> forall k :: 0 <= k < |contents| ==>
      (r[k] == if k < STORAGE_SLOTS && contents[k] == contents[i] then None else contents[k])
  {
    var item := contents[i].value;
    if item.amount > 1 then contents[i := Some(item.(amount := item.amount - 1))]
    else seq(|contents|, k requires 0 <= k < |contents| => if k < STORAGE_SLOTS && contents[k] == Some(item) then None else contents[k])
  }

  /**
   * As written, a lone single totem in the off hand (the first valid slot,
   * so the one `findTotemInInventory` returns) is never used up: the
   * inventory is unchanged, so the same totem saves every death.
   * Corrected, it leaves the slot.
   */
  lemma OffHandTotemNeverUsed(contents: seq<Option<ItemStack>>, t: ItemStack, cfg: TotemConfig)
    requires |contents| == OFF_HAND_SLOT + 1 && contents[OFF_HAND_SLOT] == Some(t)
    requires t.amount == 1 && IsValidTotem(Some(t), t.material, cfg)
    requires forall k :: 0 <= k < OFF_HAND_SLOT ==> !IsValidTotem(contents[k], t.material, cfg)
    ensures ConsumedAsWritten(contents, OFF_HAND_SLOT) == contents
    ensures TotemCount(ConsumedAsWritten(contents, OFF_HAND_SLOT), t.material, cfg) == TotemCount(contents, t.material, cfg)
    ensures TotemCount(Consumed(contents, OFF_HAND_SLOT), t.material, cfg) == TotemCount(contents, t.material, cfg) - 1
  {
    var r := ConsumedAsWritten(contents, OFF_HAND_SLOT);
    forall k | 0 <= k < |contents|
      ensures r[k] == contents[k]
    {
      assert contents[k] == Some(t) ==> IsValidTotem(contents[k], t.material, cfg);
    }
    ConsumeTakesOne(contents, OFF_HAND_SLOT, t.material, cfg);
  }

  /** Two single totems in two slots: as written both go for one death; corrected, one stays. */
  lemma TwoTotemsBothLost(t: ItemStack, cfg: TotemConfig)
    requires t.amount == 1 && IsValidTotem(Some(t), t.material, cfg)
    ensures ConsumedAsWritten([Some(t), Some(t)], 0) == [None, None]
    ensures TotemCount(ConsumedAsWritten([Some(t), Some(t)], 0), t.material, cfg) == 0
    ensures Consumed([Some(t), Some(t)], 0) == [None, Some(t)]
    ensures TotemCount(Consumed([Some(t), Some(t)], 0), t.material, cfg) == 1
    ensures TotemCount([Some(t), Some(t)], t.material, cfg) == 2
  {
    var s: seq<Option<ItemStack>> := [Some(t), Some(t)];
    assert s[..1] == [Some(t)];
    var none: Option<ItemStack> := None;
    assert ConsumedAsWritten(s, 0) == [none, none];
    assert [none, none][..1] == [none];
    assert [none, Some(t)][..1] == [none];
    assert [Some(t)][..0] == [];
    assert [none][..0] == [];
    assert TotemCount([none], t.material, cfg) == 0;
    assert TotemCount([none, none], t.material, cfg) == 0;
  }
}
