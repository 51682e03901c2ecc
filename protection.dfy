/**
 * The protection listener: guards every active tombstone's block against
 * breaking, placing over, explosions, fire, fading, pistons, entities,
 * physics, fluids, growth, forming and spreading, and cleans up the whole
 * tombstone when its block was broken after all.
 *
 * A block is a tombstone's when the manager has an active entry for it;
 * breaking first reads the block's id tag.
 */
module Protection {
  import opened Common
  import opened Worlds
  import opened Tombstones
  import opened TombstoneManagement
  import opened WorldConfig

  // ---------------------------------------------------------------------
  // Breaking

  /** What the breaking player is told. */
  datatype BreakNotice =
    | NoNotice
    | SkullProtectedNotice(adminHint: bool)  // "tombstone.skull-protected", plus "tombstone.admin-use-command" for an admin
    | ProtectionNotice                       // the protection message
    | UseRightClickNotice                    // "tombstone.use-right-click"

  /**
   * Whether breaking the block of tombstone `t` is cancelled: always where
   * the breaking player's world has skull protection, otherwise exactly
   * when the player may not access the tombstone.
   */
  predicate BreakCancelled(cfg: Config, t: TombstoneInfo, player: Player, now: int)
  {
    IsSkullProtectionEnabled(cfg, player.world) || !CanAccess(t, player, now)
  }

  /** What the player is told when the break goes through: the owner is pointed at the right click. */
  function BreakNoticeFor(cfg: Config, t: TombstoneInfo, player: Player, now: int): BreakNotice
  {
    if IsSkullProtectionEnabled(cfg, player.world) then SkullProtectedNotice(HasAdminPermission(cfg, player))
    else if !CanAccess(t, player, now) then ProtectionNotice
    else if t.owner == player.id then UseRightClickNotice
    else ProtectionNotice
  }

  /** With skull protection nobody breaks a tombstone, neither its owner nor an admin. */
  lemma SkullProtectionStopsEveryone(cfg: Config, t: TombstoneInfo, player: Player, now: int)
    requires IsSkullProtectionEnabled(cfg, player.world)
    ensures BreakCancelled(cfg, t, player, now)
    ensures BreakNoticeFor(cfg, t, player, now) == SkullProtectedNotice(HasAdminPermission(cfg, player))
  {
  }

  /**
   * Without skull protection the owner, an admin, or anyone after the
   * protection time may break the block; the owner alone is told to use a
   * right click.
   */
  lemma WithoutSkullProtectionAccessDecides(cfg: Config, t: TombstoneInfo, player: Player, now: int)
    requires !IsSkullProtectionEnabled(cfg, player.world)
    ensures !BreakCancelled(cfg, t, player, now) <==>
      player.id == t.owner || HasPermission(player, ADMIN_PERMISSION) || IsProtectionExpired(t, now)
    ensures BreakNoticeFor(cfg, t, player, now) == UseRightClickNotice <==> player.id == t.owner
  {
  }

  /**
   * `onBlockBreak`: a block without an id tag, or whose id no active
   * tombstone carries, is left alone. `target` is the tombstone found for
   * the tag.
   */
  method OnBlockBreak(mgr: TombstoneManager, p: Pos, player: Player, now: int, cfg: Config)
    returns (cancelled: bool, notice: BreakNotice, target: Option<PlayerTombstone>)
    ensures target.None? <==>
      mgr.world.TagAt(p).None? || forall q :: q in mgr.active ==> mgr.active[q].id != mgr.world.tags[p]
    ensures target.Some? ==>
      target.value.id == mgr.world.tags[p] && exists q :: q in mgr.active && mgr.active[q] == target.value
    ensures cancelled <==> target.Some? && BreakCancelled(cfg, target.value.info, player, now)
    ensures notice == if target.None? then NoNotice else BreakNoticeFor(cfg, target.value.info, player, now)
  {
    var tag := mgr.world.TagAt(p);
    if tag.None? {
      return false, NoNotice, None;
    }
    target := mgr.GetTombstoneById(tag.value);
    if target.None? {
      return false, NoNotice, None;
    }
    var t := target.value;
    cancelled := IsSkullProtectionEnabled(cfg, player.world) || !CanAccess(t.info, player, now);
    notice := BreakNoticeFor(cfg, t.info, player, now);
  }

  /**
   * `onBlockBreakMonitor`: a break that went through on a tagged block of
   * a live tombstone removes that tombstone through the manager. `fails`
   * says whether the store delete throws.
   */
  method OnBlockBreakMonitor(mgr: TombstoneManager, p: Pos, cancelled: bool, fails: bool) returns (removed: bool)
    requires mgr.Valid()
    modifies mgr, mgr.world, mgr.store, mgr.holograms, mgr.particles
    ensures mgr.Valid()
    ensures removed <==>
      && !cancelled && old(mgr.world.TagAt(p)).Some?
      && (exists q :: q in old(mgr.active) && old(mgr.active)[q].id == old(mgr.world.tags)[p])
      && p in old(mgr.active) && old(DeleteSucceeds(mgr.store, fails))
    ensures removed ==> mgr.active == old(mgr.active) - {p} && mgr.world.BlockAt(p) == Air && mgr.world.TagAt(p).None?
    ensures !removed ==> mgr.active == old(mgr.active)
  {
    if cancelled {
      return false;
    }
    var tag := mgr.world.TagAt(p);
    if tag.None? {
      return false;
    }
    var t := mgr.GetTombstoneById(tag.value);
    if t.None? {
      return false;
    }
    removed := mgr.RemoveTombstoneAt(p, fails);
  }

  // ---------------------------------------------------------------------
  // Placing

  /** `onBlockPlace`: placing into an active tombstone's block is cancelled unless the player is an admin. */
  predicate PlaceCancelled(active: map<Pos, PlayerTombstone>, p: Pos, player: Player, cfg: Config)
  {
    p in active && !HasAdminPermission(cfg, player)
  }

  lemma PlaceRules(active: map<Pos, PlayerTombstone>, p: Pos, player: Player, cfg: Config)
    ensures p !in active ==> !PlaceCancelled(active, p, player, cfg)
    ensures HasAdminPermission(cfg, player) ==> !PlaceCancelled(active, p, player, cfg)
    ensures p in active && !HasPermission(player, cfg.adminPermission) ==> PlaceCancelled(active, p, player, cfg)
  {
  }

  // ---------------------------------------------------------------------
  // Single-block guards

  /**
   * Burning, fading, an entity changing the block, physics, a TNT prime,
   * a fluid flowing into it, forming and spreading: each is cancelled
   * exactly when the block is an active tombstone's.
   */
  predicate GuardCancels(active: map<Pos, PlayerTombstone>, p: Pos)
  {
    p in active
  }

  /** `onBlockBreakBlock`: the drops of a tombstone block broken by another block are cleared. */
  function DropsAfterBreakBlock(active: map<Pos, PlayerTombstone>, p: Pos, drops: seq<ItemStack>): (r: seq<ItemStack>)
    ensures p in active ==> r == []
    ensures p !in active ==> r == drops
  {
    if p in active then [] else drops
  }

  // ---------------------------------------------------------------------
  // Lists of blocks

  /** `removeIf` on a list of blocks: those in `banned` go, the rest keep their order. */
  function Outside(ps: seq<Pos>, banned: set<Pos>): seq<Pos>
  {
    if |ps| == 0 then []
    else if ps[|ps| - 1] in banned then Outside(ps[..|ps| - 1], banned)
    else Outside(ps[..|ps| - 1], banned) + [ps[|ps| - 1]]
  }

  /** The blocks an explosion may not destroy: active tombstones in a world with skull protection. */
  function ExplosionProof(active: map<Pos, PlayerTombstone>, cfg: Config): set<Pos>
  {
    set p | p in active && IsSkullProtectionEnabled(cfg, p.world)
  }

  lemma {:induction false} OutsideSpec(ps: seq<Pos>, banned: set<Pos>)
    ensures forall x :: x in Outside(ps, banned) <==> x in ps && x !in banned
    ensures |Outside(ps, banned)| <= |ps|
    ensures (forall i :: 0 <= i < |ps| ==> ps[i] !in banned) ==> Outside(ps, banned) == ps
  {
    if |ps| > 0 {
      var init := ps[..|ps| - 1];
      OutsideSpec(init, banned);
      assert ps == init + [ps[|ps| - 1]];
      assert forall x :: x in ps <==> x in init || x == ps[|ps| - 1];
    }
  }

  /** The `removeIf` loop itself, over a list the event owns. */
  method RemoveIfIn(ps: seq<Pos>, banned: set<Pos>) returns (kept: seq<Pos>)
    ensures kept == Outside(ps, banned)
  {
    kept := [];
    var i := 0;
    while i < |ps|
      invariant 0 <= i <= |ps|
      invariant kept == Outside(ps[..i], banned)
    {
      assert ps[..i + 1][..i] == ps[..i];
      if ps[i] !in banned {
        kept := kept + [ps[i]];
      }
      i := i + 1;
    }
    assert ps[..|ps|] == ps;
  }

  /** `onEntityExplode` and `onBlockExplode`: the protected tombstone blocks leave the blast list. */
  method FilterExplosion(mgr: TombstoneManager, blocks: seq<Pos>, cfg: Config) returns (kept: seq<Pos>)
    ensures kept == Outside(blocks, ExplosionProof(mgr.active, cfg))
  {
    kept := RemoveIfIn(blocks, ExplosionProof(mgr.active, cfg));
  }

  /** `onStructureGrow`: the grown block states on a tombstone's block are dropped. */
  method FilterStructureGrow(mgr: TombstoneManager, states: seq<Pos>) returns (kept: seq<Pos>)
    ensures kept == Outside(states, mgr.active.Keys)
  {
    kept := RemoveIfIn(states, mgr.active.Keys);
  }

  /**
   * After the explosion filter the blast reaches a tombstone only in a
   * world without skull protection, and every other block of the list
   * stays in it.
   */
  lemma ExplosionSparesProtected(active: map<Pos, PlayerTombstone>, blocks: seq<Pos>, cfg: Config)
    ensures forall p :: p in Outside(blocks, ExplosionProof(active, cfg)) && p in active ==>
      !IsSkullProtectionEnabled(cfg, p.world)
    ensures forall p :: p in blocks && p !in active ==> p in Outside(blocks, ExplosionProof(active, cfg))
  {
    OutsideSpec(blocks, ExplosionProof(active, cfg));
  }

  /** A grown structure never overwrites a tombstone and keeps every other block state. */
  lemma GrowthSparesTombstones(active: map<Pos, PlayerTombstone>, states: seq<Pos>)
    ensures forall p :: p in Outside(states, active.Keys) ==> p !in active
    ensures forall p :: p in states && p !in active ==> p in Outside(states, active.Keys)
  {
    OutsideSpec(states, active.Keys);
  }

  /**
   * `onPistonExtend`, `onPistonRetract` and `onBlockMultiPlace`: the
   * event is cancelled as soon as one of the moved or replaced blocks is
   * an active tombstone's.
   */
  method AnyTombstoneAmong(mgr: TombstoneManager, ps: seq<Pos>) returns (cancelled: bool)
    ensures cancelled <==> exists i :: 0 <= i < |ps| && ps[i] in mgr.active
  {
    var i := 0;
    while i < |ps|
      invariant 0 <= i <= |ps|
      invariant forall k :: 0 <= k < i ==> ps[k] !in mgr.active
    {
      if mgr.GetTombstone(ps[i]).Some? {
        return true;
      }
      i := i + 1;
    }
    return false;
  }

  /**
   * `onEntityExplodeMonitor`: the tombstones still in the blast list of an
   * explosion that went through, each of which gets its block back one
   * tick later.
   */
  function ScheduledRestores(active: map<Pos, PlayerTombstone>, blocks: seq<Pos>): (r: seq<PlayerTombstone>)
    ensures |r| <= |blocks|
    ensures forall t :: t in r ==> exists p :: p in blocks && p in active && active[p] == t
    ensures forall p :: p in blocks && p in active ==> active[p] in r
  {
    if |blocks| == 0 then []
    else
      var rest := ScheduledRestores(active, blocks[1..]);
      assert forall p :: p in blocks[1..] ==> p in blocks;
      if blocks[0] in active then [active[blocks[0]]] + rest else rest
  }
}
