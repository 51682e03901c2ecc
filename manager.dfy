/**
 * The tombstone lifecycle manager: the map of active tombstones by block,
 * creation (limit check with eviction of the oldest, placement search,
 * store write, block, registration, presenters), the three removals, the
 * lookups, startup restoration and the periodic despawn sweep.
 *
 * The active map is keyed by the tombstone's block; see the keying finding
 * at the end of this module for how the map is keyed as written.
 */
module TombstoneManagement {
  import opened Common
  import opened Worlds
  import opened Tombstones
  import opened Store
  import opened HologramUtil
  import opened ParticleUtil
  import EntityCleanup
  import TimeUtil
  import LocationUtil

  /** The configuration values the manager reads. */
  datatype ManagerConfig = ManagerConfig(
    maxTombstones: int,        // tombstone.max-tombstones, default 3
    protectionMinutes: int,    // tombstone.protection-time, default 60
    searchRadius: int,         // tombstone.search-radius, default 5
    blockType: string,         // tombstone.block-type, default "CHEST"
    despawnHours: int,         // tombstone.despawn-time, default 24
    hologramEnabled: bool,     // hologram.enabled, default true
    particlesEnabled: bool)    // particles.enabled, default true

  /** The outcome of `createTombstone`, with the message the player is sent. */
  datatype CreateOutcome =
    | Created(t: PlayerTombstone)  // "tombstone.created"
    | LimitReached                 // "tombstone.limit-reached"
    | NoSpace                      // "tombstone.no-space"
    | CreationFailed               // "tombstone.creation-failed"

  /** `canPlaceTombstone`: any kind of air, the two fluids and the small plants. */
  predicate CanPlaceTombstone(m: Material)
  {
    IsAir(m) || m == Water || m == Lava || m == TallGrass || m == Grass || m == Fern || m == DeadBush
  }

  /**
   * The two replaceable-block rules differ: cave and void air are only
   * placeable, snow is only replaceable; on every other material they agree.
   */
  lemma PlaceableVersusReplaceable(m: Material)
    ensures m == CaveAir || m == VoidAir ==> CanPlaceTombstone(m) && !LocationUtil.IsReplaceable(m)
    ensures m == Snow ==> !CanPlaceTombstone(m) && LocationUtil.IsReplaceable(m)
    ensures m != CaveAir && m != VoidAir && m != Snow ==> (CanPlaceTombstone(m) <==> LocationUtil.IsReplaceable(m))
  {
  }

  /** `Material.valueOf(name.toUpperCase())` over the known material names, with `CHEST` as fallback. */
  function TombstoneMaterial(name: string, materials: map<string, Material>): (m: Material)
    ensures Upper(name) in materials ==> m == materials[Upper(name)]
    ensures Upper(name) !in materials ==> m == Chest
  {
    if Upper(name) in materials then materials[Upper(name)] else Chest
  }

  /** The block of a stored record. */
  function RecordPos(d: TombstoneData): Pos
  {
    Pos(d.world, d.x, d.y, d.z)
  }

  // ---------------------------------------------------------------------
  // The placement search

  /** A cell of the placement search: height offset first, then `x`, then `z`. */
  datatype Cell = Cell(dy: int, dx: int, dz: int)

  /** The cells the search visits: heights 0..r (never below), `x` and `z` in -r..r. */
  predicate InCube(radius: int, c: Cell)
  {
    0 <= c.dy <= radius && -radius <= c.dx <= radius && -radius <= c.dz <= radius
  }

  /** The search order: height, then `x`, then `z`, each ascending. */
  predicate Earlier(a: Cell, b: Cell)
  {
    a.dy < b.dy || (a.dy == b.dy && (a.dx < b.dx || (a.dx == b.dx && a.dz < b.dz)))
  }

  /** `originalLocation.clone().add(x, y, z)`: the exact location moved by whole blocks. */
  function Shifted(l: Location, c: Cell): Location
  {
    Location(l.world, l.x + c.dx as real, l.y + c.dy as real, l.z + c.dz as real, l.yaw, l.pitch)
  }

  /** Moving by whole blocks moves the block by the same amount. */
  lemma BlockOfShifted(l: Location, c: Cell)
    ensures BlockOf(Shifted(l, c)) == Offset(BlockOf(l), c.dx, c.dy, c.dz)
  {
  }

  predicate PlaceableAt(w: World, l: Location, c: Cell)
    reads w
  {
    CanPlaceTombstone(w.BlockAt(BlockOf(Shifted(l, c))))
  }

  /** No cell visited before `b` is placeable. */
  ghost predicate NonePlaceableBefore(w: World, l: Location, radius: int, b: Cell)
    reads w
  {
    forall c :: InCube(radius, c) && Earlier(c, b) ==> !PlaceableAt(w, l, c)
  }

  /** `findNearbyLocation`: the first placeable cell in search order, moved to from the original location. */
  method FindNearbyLocation(w: World, l: Location, radius: int) returns (r: Option<Location>)
    ensures r.Some? ==> exists c :: InCube(radius, c) && r.value == Shifted(l, c)
                                    && PlaceableAt(w, l, c) && NonePlaceableBefore(w, l, radius, c)
    ensures r.None? ==> forall c :: InCube(radius, c) ==> !PlaceableAt(w, l, c)
  {
    var dy := 0;
    while dy <= radius
      invariant 0 <= dy
      invariant radius >= 0 ==> dy <= radius + 1
      invariant forall c :: InCube(radius, c) && c.dy < dy ==> !PlaceableAt(w, l, c)
    {
      var found := SearchLayer(w, l, radius, dy);
      if found.Some? {
        return Some(Shifted(l, found.value));
      }
      dy := dy + 1;
    }
    return None;
  }

  /** One height: the rows in `x` order. */
  method SearchLayer(w: World, l: Location, radius: int, dy: int) returns (found: Option<Cell>)
    requires 0 <= dy <= radius
    requires forall c :: InCube(radius, c) && c.dy < dy ==> !PlaceableAt(w, l, c)
    ensures found.Some? ==> InCube(radius, found.value) && PlaceableAt(w, l, found.value)
                            && NonePlaceableBefore(w, l, radius, found.value)
    ensures found.None? ==> forall c :: InCube(radius, c) && c.dy == dy ==> !PlaceableAt(w, l, c)
  {
    var dx := -radius;
    while dx <= radius
      invariant -radius <= dx <= radius + 1
      invariant forall c :: InCube(radius, c) && c.dy == dy && c.dx < dx ==> !PlaceableAt(w, l, c)
    {
      var hit := SearchRow(w, l, radius, dy, dx);
      if hit.Some? {
        return hit;
      }
      dx := dx + 1;
    }
    return None;
  }

  /** One row: the cells in `z` order. */
  method SearchRow(w: World, l: Location, radius: int, dy: int, dx: int) returns (found: Option<Cell>)
    requires 0 <= dy <= radius && -radius <= dx <= radius
    requires forall c :: InCube(radius, c) && (c.dy < dy || (c.dy == dy && c.dx < dx)) ==> !PlaceableAt(w, l, c)
    ensures found.Some? ==> InCube(radius, found.value) && PlaceableAt(w, l, found.value)
                            && NonePlaceableBefore(w, l, radius, found.value)
    ensures found.None? ==> forall c :: InCube(radius, c) && c.dy == dy && c.dx == dx ==> !PlaceableAt(w, l, c)
  {
    var dz := -radius;
    while dz <= radius
      invariant -radius <= dz <= radius + 1
      invariant forall c :: InCube(radius, c) && c.dy == dy && c.dx == dx && c.dz < dz ==> !PlaceableAt(w, l, c)
    {
      if PlaceableAt(w, l, Cell(dy, dx, dz)) {
        return Some(Cell(dy, dx, dz));
      }
      dz := dz + 1;
    }
    return None;
  }

  // ---------------------------------------------------------------------
  // Choosing the tombstone to evict

  /** The first record with the smallest death time, as `stream().min` by death time picks it. */
  function FirstOldest(list: seq<TombstoneData>): (i: nat)
    requires |list| > 0
    ensures i < |list|
  {
    if |list| == 1 then 0
    else
      var j := FirstOldest(list[..|list| - 1]);
      if list[|list| - 1].deathTime < list[j].deathTime then |list| - 1 else j
  }

  /** The chosen record has the smallest death time, and every record before it dies later. */
  lemma {:induction false} FirstOldestSpec(list: seq<TombstoneData>)
    requires |list| > 0
    ensures forall k :: 0 <= k < |list| ==> list[FirstOldest(list)].deathTime <= list[k].deathTime
    ensures forall k :: 0 <= k < FirstOldest(list) ==> list[k].deathTime > list[FirstOldest(list)].deathTime
  {
    if |list| > 1 {
      var init := list[..|list| - 1];
      FirstOldestSpec(init);
      assert forall k :: 0 <= k < |init| ==> init[k] == list[k];
    }
  }

  /** On a list ordered latest death first (as the store returns it) the chosen record dies no later than the last one. */
  lemma FirstOldestOfOrderedList(records: seq<TombstoneData>, owner: Uuid)
    requires |ByDeathDesc(OwnedBy(records, owner))| > 0
    ensures var list := ByDeathDesc(OwnedBy(records, owner));
      list[FirstOldest(list)].deathTime == list[|list| - 1].deathTime
  {
    var list := ByDeathDesc(OwnedBy(records, owner));
    FirstOldestSpec(list);
    ByDeathDescSorted(OwnedBy(records, owner));
  }

  /** The scan `stream().min` performs. */
  method OldestIndex(list: seq<TombstoneData>) returns (i: nat)
    requires |list| > 0
    ensures i == FirstOldest(list)
  {
    i := 0;
    var k := 1;
    while k < |list|
      invariant 1 <= k <= |list|
      invariant i == FirstOldest(list[..k])
    {
      assert list[..k + 1][..k] == list[..k];
      if list[k].deathTime < list[i].deathTime {
        i := k;
      }
      k := k + 1;
    }
    assert list[..k] == list;
  }

  /** Whether a store delete issued by the manager succeeds (a reconnect is attempted and succeeds). */
  predicate DeleteSucceeds(s: Store, fails: bool)
    reads s
  {
    !fails && (s.backend == SQLite || s.connected)
  }

  // ---------------------------------------------------------------------
  // Restoration

  /** Restoration drops records whose protection has ended. */
  predicate RestoreExpired(d: TombstoneData, now: int)
  {
    now > d.protectionExpire
  }

  /** The index at which restoration stops: the first expired record whose delete throws, or the end. */
  function RestoreStop(all: seq<TombstoneData>, now: int, failing: set<int>): (n: nat)
    ensures n <= |all|
  {
    if |all| == 0 then 0
    else if RestoreExpired(all[0], now) && all[0].id in failing then 0
    else 1 + RestoreStop(all[1..], now, failing)
  }

  /** Restoration handles every record before the stop without a failing delete. */
  lemma {:induction false} RestoreStopSpec(all: seq<TombstoneData>, now: int, failing: set<int>)
    ensures forall k :: 0 <= k < RestoreStop(all, now, failing) ==> !(RestoreExpired(all[k], now) && all[k].id in failing)
    ensures RestoreStop(all, now, failing) < |all| ==>
      RestoreExpired(all[RestoreStop(all, now, failing)], now) && all[RestoreStop(all, now, failing)].id in failing
  {
    if |all| > 0 && !(RestoreExpired(all[0], now) && all[0].id in failing) {
      RestoreStopSpec(all[1..], now, failing);
      forall k | 1 <= k < RestoreStop(all, now, failing)
        ensures !(RestoreExpired(all[k], now) && all[k].id in failing)
      {
        assert all[k] == all[1..][k - 1];
      }
    }
  }

  /** The ids restoration deletes among the handled records. */
  function ExpiredIds(handled: seq<TombstoneData>, now: int): set<int>
  {
    set k | 0 <= k < |handled| && RestoreExpired(handled[k], now) :: handled[k].id
  }

  /** The records restoration brings back, by block; a later record at the same block wins. */
  function Restored(handled: seq<TombstoneData>, worlds: set<string>, now: int): map<Pos, TombstoneData>
  {
    if |handled| == 0 then map[]
    else
      var prev := Restored(handled[..|handled| - 1], worlds, now);
      var d := handled[|handled| - 1];
      if RestoreExpired(d, now) || d.world !in worlds then prev else prev[RecordPos(d) := d]
  }

  /** Every restored record is still protected, lies in a loaded world and sits at its own block. */
  lemma {:induction false} RestoredSpec(handled: seq<TombstoneData>, worlds: set<string>, now: int)
    ensures forall p :: p in Restored(handled, worlds, now) ==>
      var d := Restored(handled, worlds, now)[p];
      d in handled && !RestoreExpired(d, now) && d.world in worlds && RecordPos(d) == p
  {
    if |handled| > 0 {
      RestoredSpec(handled[..|handled| - 1], worlds, now);
    }
  }

  /** The live tombstone restored from a record: its location is the block corner, looking straight ahead. */
  function RestoredInfo(d: TombstoneData): TombstoneInfo
  {
    TombstoneInfo(d.owner, BlockLocation(RecordPos(d)), d.deathTime, d.protectionExpire, d.experience)
  }

  /**
   * Restoration and the periodic sweep disagree: a record whose protection
   * ended is dropped at startup even though the sweep would keep it for
   * the rest of its despawn time.
   */
  lemma RestoreDropsWhatSweepKeeps()
    ensures var d := TombstoneData(1, "owner", "world", 0, 64, 0, 0, 3_600_000, 0);
      var now := 2 * 3_600_000;
      RestoreExpired(d, now) && !ShouldDespawnAfter(d.deathTime, now, 24)
  {
  }

  // ---------------------------------------------------------------------
  // The manager

  class TombstoneManager {
    const world: World
    const store: Store
    const holograms: Holograms
    const particles: Particles
    /** `activeTombstones`: the live tombstones by block. */
    var active: map<Pos, PlayerTombstone>

    ghost predicate Valid()
      reads this, world, store, holograms, particles
    {
      world.Valid() && store.Valid() && holograms.Valid() && particles.Valid()
      && KeyedByBlock(active)
    }

    constructor (world: World, store: Store, holograms: Holograms, particles: Particles)
      requires world.Valid() && store.Valid() && holograms.Valid() && particles.Valid()
      ensures Valid()
      ensures this.world == world && this.store == store
      ensures this.holograms == holograms && this.particles == particles
      ensures active == map[]
    {
      this.world := world;
      this.store := store;
      this.holograms := holograms;
      this.particles := particles;
      active := map[];
    }

    /** `getTombstone`: the tombstone whose block is the given one, if any. */
    function GetTombstone(p: Pos): (r: Option<PlayerTombstone>)
      reads this
      ensures r.Some? <==> p in active
      ensures r.Some? ==> r.value == active[p]
    {
      if p in active then Some(active[p]) else None
    }

    function ActiveTombstonesCount(): nat
      reads this
    {
      |active|
    }

    /** `getTombstoneById`: some active tombstone with the id, or none when no active tombstone has it. */
    method GetTombstoneById(id: int) returns (r: Option<PlayerTombstone>)
      ensures r.Some? ==> r.value.id == id && exists p :: p in active && active[p] == r.value
      ensures r.None? ==> forall p :: p in active ==> active[p].id != id
    {
      var rest := active.Keys;
      while rest != {}
        invariant rest <= active.Keys
        invariant forall p :: p in active && p !in rest ==> active[p].id != id
        decreases rest
      {
        var p :| p in rest;
        if active[p].id == id {
          return Some(active[p]);
        }
        rest := rest - {p};
      }
      return None;
    }

    /** The entry scan of `removeTombstoneById`: a block whose tombstone has the id. */
    method LocationOfId(id: int) returns (r: Option<Pos>)
      ensures r.Some? ==> r.value in active && active[r.value].id == id
      ensures r.None? ==> forall p :: p in active ==> active[p].id != id
    {
      var rest := active.Keys;
      while rest != {}
        invariant rest <= active.Keys
        invariant forall p :: p in active && p !in rest ==> active[p].id != id
        decreases rest
      {
        var p :| p in rest;
        if active[p].id == id {
          return Some(p);
        }
        rest := rest - {p};
      }
      return None;
    }

    /**
     * `placeTombstoneBlock`: sets the configured material, and writes the
     * id into the block's tile state when the material has one.
     */
    method PlaceTombstoneBlock(p: Pos, id: int, m: Material)
      requires world.Valid()
      modifies world
      ensures world.Valid()
      ensures world.blocks == old(world.blocks)[p := m]
      ensures IsTileMaterial(m) ==> world.tags == old(world.tags)[p := id]
      ensures !IsTileMaterial(m) ==> world.tags == old(world.tags) - {p}
      ensures world.entities == old(world.entities) && world.nextEntity == old(world.nextEntity) && world.worlds == old(world.worlds)
    {
      world.SetType(p, m);
      if IsTileMaterial(m) {
        world.SetTag(p, id);
      }
    }

    /**
     * `removeOldestTombstone`: deletes the first record with the smallest
     * death time from the store, and, when its world is loaded, drops its
     * entry and clears its block. Holograms and particles stay.
     */
    method RemoveOldestTombstone(list: seq<TombstoneData>, fails: bool) returns (ok: bool)
      requires Valid()
      modifies store, this, world
      ensures Valid()
      ensures ok <==> |list| > 0 && old(DeleteSucceeds(store, fails))
      ensures !ok ==> store.records == old(store.records) && store.rows == old(store.rows)
                      && active == old(active) && world.blocks == old(world.blocks) && world.tags == old(world.tags)
      ensures ok ==> var o := list[FirstOldest(list)];
        store.records == WithoutIds(old(store.records), {o.id}) && store.rows == RowsWithoutIds(old(store.rows), {o.id})
      ensures ok && list[FirstOldest(list)].world in world.worlds ==> var p := RecordPos(list[FirstOldest(list)]);
        active == old(active) - {p} && world.blocks == old(world.blocks)[p := Air] && world.tags == old(world.tags) - {p}
      ensures ok && list[FirstOldest(list)].world !in world.worlds ==>
        active == old(active) && world.blocks == old(world.blocks) && world.tags == old(world.tags)
      ensures world.entities == old(world.entities) && world.nextEntity == old(world.nextEntity) && world.worlds == old(world.worlds)
      ensures active.Keys <= old(active).Keys && forall p :: p in active ==> active[p] == old(active)[p]
      ensures old(store.connected) ==> store.connected
      ensures store.nextId == old(store.nextId)
    {
      if |list| == 0 {
        return false;
      }
      var i := OldestIndex(list);
      var oldest := list[i];
      ok := store.DeleteTombstone(oldest.id, true, fails);
      if !ok {
        return false;
      }
      var p := RecordPos(oldest);
      if oldest.world in world.worlds {
        active := active - {p};
        world.SetType(p, Air);
      }
    }

    /**
     * `checkTombstoneLimit`: with at least the maximum number of records
     * (an unreadable list counts as none), the oldest is evicted, and the
     * check fails when there is none or the eviction fails.
     */
    method CheckTombstoneLimit(player: Player, cfg: ManagerConfig, queryFails: bool, evictFails: bool)
      returns (ok: bool)
      requires Valid()
      modifies store, this, world
      ensures Valid()
      ensures var list := if queryFails then [] else old(store.PlayerTombstones(player.id));
        ok <==> |list| < cfg.maxTombstones || (|list| > 0 && old(DeleteSucceeds(store, evictFails)))
      ensures var list := if queryFails then [] else old(store.PlayerTombstones(player.id));
        |list| < cfg.maxTombstones ==> store.records == old(store.records) && store.rows == old(store.rows)
                                       && active == old(active) && world.blocks == old(world.blocks)
      ensures !ok ==> store.records == old(store.records) && store.rows == old(store.rows)
                      && active == old(active) && world.blocks == old(world.blocks) && world.tags == old(world.tags)
      ensures var list := if queryFails then [] else old(store.PlayerTombstones(player.id));
        |list| >= cfg.maxTombstones && ok ==>
        store.records == WithoutIds(old(store.records), {list[FirstOldest(list)].id})
      ensures world.entities == old(world.entities) && world.nextEntity == old(world.nextEntity) && world.worlds == old(world.worlds)
      ensures active.Keys <= old(active).Keys && forall p :: p in active ==> active[p] == old(active)[p]
      ensures store.nextId == old(store.nextId)
    {
      var list := if queryFails then [] else store.PlayerTombstones(player.id);
      if |list| >= cfg.maxTombstones {
        ok := RemoveOldestTombstone(list, evictFails);
      } else {
        ok := true;
      }
    }

    /**
     * `createTombstone`: limit check, placement (the death block when
     * placeable, else the first placeable cell of the search), then the
     * store write and everything that follows it.
     */
    method CreateTombstone(player: Player, location: Location, items: seq<Option<ItemStack>>, experience: int,
                           now: int, cfg: ManagerConfig, materials: map<string, Material>, holoLines: seq<string>,
                           queryFails: bool, evictFails: bool, saveFails: bool)
      returns (r: CreateOutcome)
      requires Valid()
      requires location.world in world.worlds
      modifies this, world, store, holograms, particles
      ensures Valid()
      ensures r == LimitReached ==>
        store.records == old(store.records) && store.rows == old(store.rows) && active == old(active)
        && world.blocks == old(world.blocks) && world.tags == old(world.tags) && world.entities == old(world.entities)
        && holograms.holograms == old(holograms.holograms) && particles.tasks == old(particles.tasks)
      ensures r == NoSpace ==> forall c :: InCube(cfg.searchRadius, c) ==> !PlaceableAt(world, location, c)
      ensures r == NoSpace || r == CreationFailed ==>
        active.Keys <= old(active).Keys && (forall p :: p in active ==> active[p] == old(active)[p])
        && holograms.holograms == old(holograms.holograms) && particles.tasks == old(particles.tasks)
      ensures r.Created? ==> fresh(r.t) && !r.t.removed && r.t.currentExperience == experience
      ensures r.Created? ==> r.t.info.owner == player.id && r.t.info.deathTime == now && r.t.info.experience == experience
      ensures r.Created? ==> r.t.info.protectionExpire == now + TimeUtil.MinutesToMillis(cfg.protectionMinutes)
      ensures r.Created? ==> r.t.info.location == location
                             || exists c :: InCube(cfg.searchRadius, c) && r.t.info.location == Shifted(location, c)
      ensures r.Created? ==> BlockPos(r.t.info) in active && active[BlockPos(r.t.info)] == r.t
      ensures r.Created? ==> forall p :: p in active && p != BlockPos(r.t.info) ==> p in old(active) && active[p] == old(active)[p]
      ensures r.Created? ==> r.t.id > 0 && r.t.id !in Ids(old(store.records)) && r.t.id in Ids(store.records)
      ensures r.Created? ==> world.BlockAt(BlockPos(r.t.info)) == TombstoneMaterial(cfg.blockType, materials)
      ensures r.Created? && IsTileMaterial(TombstoneMaterial(cfg.blockType, materials)) ==>
        world.TagAt(BlockPos(r.t.info)) == Some(r.t.id)
      ensures r.Created? && cfg.particlesEnabled ==> particles.HasParticleEffect(BlockPos(r.t.info))
      ensures r.Created? && cfg.hologramEnabled ==> holograms.HasHologram(BlockPos(r.t.info))
    {
      ghost var active0, records0 := active, store.records;
      var ok := CheckTombstoneLimit(player, cfg, queryFails, evictFails);
      if !ok {
        return LimitReached;
      }
      ghost var active1 := active;
      r := PlaceAndRegister(player, location, items, experience, now, cfg, materials, holoLines, saveFails);
      if r.Created? {
        IdsBelow(records0, r.t.id);
        KeepsOthers(active0, active1, BlockPos(r.t.info), r.t);
      }
    }

    /** `createTombstone` once the limit check has passed: the placement search, then the store write. */
    method PlaceAndRegister(player: Player, location: Location, items: seq<Option<ItemStack>>, experience: int,
                            now: int, cfg: ManagerConfig, materials: map<string, Material>, holoLines: seq<string>,
                            saveFails: bool)
      returns (r: CreateOutcome)
      requires Valid()
      modifies this, world, store, holograms, particles
      ensures Valid()
      ensures r != LimitReached
      ensures r == NoSpace ==> forall c :: InCube(cfg.searchRadius, c) ==> !PlaceableAt(world, location, c)
      ensures r == NoSpace || r == CreationFailed ==>
        active == old(active) && holograms.holograms == old(holograms.holograms) && particles.tasks == old(particles.tasks)
      ensures r.Created? ==> fresh(r.t) && !r.t.removed && r.t.currentExperience == experience
      ensures r.Created? ==> r.t.info.owner == player.id && r.t.info.deathTime == now && r.t.info.experience == experience
      ensures r.Created? ==> r.t.info.protectionExpire == now + TimeUtil.MinutesToMillis(cfg.protectionMinutes)
      ensures r.Created? ==> r.t.info.location == location
                             || exists c :: InCube(cfg.searchRadius, c) && r.t.info.location == Shifted(location, c)
      ensures r.Created? ==> active == old(active)[BlockPos(r.t.info) := r.t]
      ensures r.Created? ==> r.t.id == old(store.nextId) && r.t.id > 0 && r.t.id in Ids(store.records)
      ensures r.Created? ==> world.BlockAt(BlockPos(r.t.info)) == TombstoneMaterial(cfg.blockType, materials)
      ensures r.Created? && IsTileMaterial(TombstoneMaterial(cfg.blockType, materials)) ==>
        world.TagAt(BlockPos(r.t.info)) == Some(r.t.id)
      ensures r.Created? && cfg.particlesEnabled ==> particles.HasParticleEffect(BlockPos(r.t.info))
      ensures r.Created? && cfg.hologramEnabled ==> holograms.HasHologram(BlockPos(r.t.info))
    {
      var place := location;
      if !CanPlaceTombstone(world.BlockAt(BlockOf(location))) {
        var found := FindNearbyLocation(world, location, cfg.searchRadius);
        if found.None? {
          return NoSpace;
        }
        place := found.value;
      }
      var expire := now + TimeUtil.MinutesToMillis(cfg.protectionMinutes);
      r := SaveAndRegister(player.id, place, items, experience, now, expire,
                           TombstoneMaterial(cfg.blockType, materials), cfg, holoLines, saveFails);
    }

    /**
     * The part of `createTombstone` after the placement is chosen: the store
     * write, the live tombstone, its block, its entry, hologram and particles.
     * A failing store write leaves everything as it was.
     */
    method SaveAndRegister(owner: Uuid, place: Location, items: seq<Option<ItemStack>>, experience: int,
                           now: int, expire: int, m: Material, cfg: ManagerConfig, holoLines: seq<string>,
                           saveFails: bool)
      returns (r: CreateOutcome)
      requires Valid()
      modifies this, world, store, holograms, particles
      ensures Valid()
      ensures r.Created? || r == CreationFailed
      ensures r == CreationFailed <==> saveFails
      ensures r == CreationFailed ==>
        active == old(active) && store.records == old(store.records) && world.blocks == old(world.blocks)
        && holograms.holograms == old(holograms.holograms) && particles.tasks == old(particles.tasks)
      ensures r.Created? ==> fresh(r.t) && !r.t.removed && r.t.currentExperience == experience
      ensures r.Created? ==> r.t.info == TombstoneInfo(owner, place, now, expire, experience)
      ensures r.Created? ==> r.t.id == old(store.nextId) && r.t.id > 0 && r.t.id in Ids(store.records)
      ensures r.Created? ==> active == old(active)[BlockOf(place) := r.t]
      ensures r.Created? ==> world.BlockAt(BlockOf(place)) == m
      ensures r.Created? && IsTileMaterial(m) ==> world.TagAt(BlockOf(place)) == Some(r.t.id)
      ensures r.Created? && cfg.particlesEnabled ==> particles.HasParticleEffect(BlockOf(place))
      ensures r.Created? && cfg.hologramEnabled ==> holograms.HasHologram(BlockOf(place))
    {
      var b := BlockOf(place);
      var saved := store.SaveTombstone(owner, place.world, b.x, b.y, b.z, now, expire, experience, items, true, saveFails);
      if saved.Err? {
        return CreationFailed;
      }
      var t := new PlayerTombstone(TombstoneInfo(owner, place, now, expire, experience), saved.value);
      AppendedIdPresent(old(store.records), store.records, saved.value);
      Register(t, m, cfg, holoLines);
      r := Created(t);
    }

    /** A new live tombstone takes its block, its entry, its hologram and its particles. */
    method Register(t: PlayerTombstone, m: Material, cfg: ManagerConfig, holoLines: seq<string>)
      requires Valid()
      modifies this, world, holograms, particles
      ensures Valid()
      ensures active == old(active)[BlockPos(t.info) := t]
      ensures world.blocks == old(world.blocks)[BlockPos(t.info) := m] && world.worlds == old(world.worlds)
      ensures world.BlockAt(BlockPos(t.info)) == m
      ensures IsTileMaterial(m) ==> world.TagAt(BlockPos(t.info)) == Some(t.id)
      ensures cfg.particlesEnabled ==> particles.HasParticleEffect(BlockPos(t.info))
      ensures cfg.hologramEnabled ==> holograms.HasHologram(BlockPos(t.info))
    {
      var b := BlockPos(t.info);
      PlaceTombstoneBlock(b, t.id, m);
      active := active[b := t];
      holograms.CreateHologram(world, cfg.hologramEnabled, t, holoLines);
      particles.CreateParticleEffect(cfg.particlesEnabled, t);
    }
    /**
     * `removeTombstone(Location)`: nothing for a block without a tombstone.
     * Otherwise hologram and particles go first, then the store delete; only
     * when that succeeds is the block cleared and the entry dropped.
     */
    method RemoveTombstoneAt(p: Pos, fails: bool) returns (ok: bool)
      requires Valid()
      modifies this, world, store, holograms, particles
      ensures Valid()
      ensures ok <==> p in old(active) && old(DeleteSucceeds(store, fails))
      ensures p !in old(active) ==>
        active == old(active) && world.blocks == old(world.blocks) && world.entities == old(world.entities)
        && store.records == old(store.records) && store.rows == old(store.rows)
        && holograms.holograms == old(holograms.holograms) && particles.tasks == old(particles.tasks)
      ensures p in old(active) ==> !holograms.HasHologram(p) && !particles.HasParticleEffect(p)
      ensures p in old(active) && !ok ==>
        active == old(active) && world.blocks == old(world.blocks) && world.tags == old(world.tags)
        && store.records == old(store.records) && store.rows == old(store.rows)
      ensures ok ==>
        active == old(active) - {p} && world.blocks == old(world.blocks)[p := Air] && world.tags == old(world.tags) - {p}
        && store.records == WithoutIds(old(store.records), {old(active)[p].id})
        && store.rows == RowsWithoutIds(old(store.rows), {old(active)[p].id})
    {
      if p !in active {
        return false;
      }
      var t := active[p];
      holograms.RemoveHologram(world, p);
      particles.RemoveParticleEffect(p);
      ok := store.DeleteTombstone(t.id, true, fails);
      if !ok {
        return false;
      }
      world.SetType(p, Air);
      active := active - {p};
    }

    /** `removeTombstone(PlayerTombstone)`: removal at the tombstone's own block. */
    method RemoveTombstone(t: PlayerTombstone, fails: bool) returns (ok: bool)
      requires Valid()
      modifies this, world, store, holograms, particles
      ensures Valid()
      ensures ok <==> BlockPos(t.info) in old(active) && old(DeleteSucceeds(store, fails))
      ensures ok ==> active == old(active) - {BlockPos(t.info)}
      ensures !ok ==> active == old(active)
    {
      ok := RemoveTombstoneAt(BlockPos(t.info), fails);
    }

    /** `removeTombstoneById`: fails for an id no active tombstone has, else removal at its block. */
    method RemoveTombstoneById(id: int, fails: bool) returns (ok: bool)
      requires Valid()
      modifies this, world, store, holograms, particles
      ensures Valid()
      ensures (forall p :: p in old(active) ==> old(active)[p].id != id) ==>
        !ok && active == old(active) && store.records == old(store.records) && world.blocks == old(world.blocks)
      ensures ok ==> exists p :: p in old(active) && old(active)[p].id == id && active == old(active) - {p}
      ensures !ok ==> active == old(active)
    {
      var t := GetTombstoneById(id);
      if t.None? {
        return false;
      }
      var p := LocationOfId(id);
      if p.None? {
        return false;
      }
      ok := RemoveTombstoneAt(p.value, fails);
    }

    /**
     * `restoreTombstonesFromDatabase`: walks every record, latest death
     * first. A record whose protection has ended is deleted; one whose
     * world is not loaded is skipped; the others get their block, an entry
     * and their presenters back. A delete that throws ends the walk.
     * `failing` are the ids whose delete throws. The store is open: this
     * runs right after the database is initialised.
     */
    method RestoreTombstonesFromDatabase(now: int, cfg: ManagerConfig, materials: map<string, Material>,
                                         holoLines: seq<string>, queryFails: bool, failing: set<int>)
      returns (restoredCount: nat, expiredCount: nat)
      requires Valid() && store.connected
      modifies this, world, store, holograms, particles
      ensures Valid()
      ensures queryFails ==> active == old(active) && store.records == old(store.records)
                             && world.blocks == old(world.blocks)
      ensures !queryFails ==>
        var all := ByDeathDesc(old(store.records));
        var handled := all[..RestoreStop(all, now, failing)];
        store.records == WithoutIds(old(store.records), ExpiredIds(handled, now))
      ensures !queryFails ==>
        var all := ByDeathDesc(old(store.records));
        var back := Restored(all[..RestoreStop(all, now, failing)], old(world.worlds).Keys, now);
        RestoreState(old(active), active, back, world.blocks, TombstoneMaterial(cfg.blockType, materials))
    {
      restoredCount, expiredCount := 0, 0;
      if queryFails {
        return;
      }
      var all := store.AllTombstones();
      ghost var stop := RestoreStop(all, now, failing);
      ghost var loaded := world.worlds.Keys;
      RestoreStopSpec(all, now, failing);
      var m := TombstoneMaterial(cfg.blockType, materials);
      var i := 0;
      WithoutIdsEmpty(old(store.records));
      var stopped := false;
      assert ExpiredIds(all[..0], now) == {};
      while i < |all| && !stopped
        invariant 0 <= i <= stop
        invariant stopped ==> i == stop
        invariant Valid() && store.connected
        invariant world.worlds.Keys == loaded
        invariant store.records == WithoutIds(old(store.records), ExpiredIds(all[..i], now))
        invariant RestoreState(old(active), active, Restored(all[..i], loaded, now), world.blocks, m)
        decreases |all| - i, !stopped
      {
        var expired := RestoreExpired(all[i], now);
        var inLoadedWorld := all[i].world in world.worlds;
        stopped := RestoreStep(all, i, now, m, cfg, holoLines, failing, old(store.records), old(active), loaded);
        if !stopped {
          if expired {
            expiredCount := expiredCount + 1;
          } else if inLoadedWorld {
            restoredCount := restoredCount + 1;
          }
          i := i + 1;
        }
      }
    }

    /** One turn of the restoration walk, with the walk's bookkeeping: the ids deleted and the records restored so far. */
    method RestoreStep(all: seq<TombstoneData>, i: nat, now: int, m: Material, cfg: ManagerConfig, holoLines: seq<string>,
                       failing: set<int>, ghost records0: seq<TombstoneData>, ghost active0: map<Pos, PlayerTombstone>,
                       ghost loaded: set<string>)
      returns (stopped: bool)
      requires i < |all| && Valid() && store.connected && world.worlds.Keys == loaded
      requires store.records == WithoutIds(records0, ExpiredIds(all[..i], now))
      requires RestoreState(active0, active, Restored(all[..i], loaded, now), world.blocks, m)
      modifies this, world, store, holograms, particles
      ensures Valid() && store.connected && world.worlds.Keys == loaded
      ensures stopped <==> RestoreExpired(all[i], now) && all[i].id in failing
      ensures var j := if stopped then i else i + 1;
        store.records == WithoutIds(records0, ExpiredIds(all[..j], now))
        && RestoreState(active0, active, Restored(all[..j], loaded, now), world.blocks, m)
    {
      var d := all[i];
      ExpiredIdsSnoc(all, i, now);
      RestoredSnoc(all, i, loaded, now);
      ghost var gone := ExpiredIds(all[..i], now);
      ghost var back := Restored(all[..i], loaded, now);
      ghost var prev, prevBlocks := active, world.blocks;
      stopped := RestoreOne(d, now, m, cfg, holoLines, d.id in failing);
      if !stopped {
        if RestoreExpired(d, now) {
          WithoutIdsTwice(records0, gone, {d.id});
          assert ExpiredIds(all[..i + 1], now) == gone + {d.id};
        } else {
          assert ExpiredIds(all[..i + 1], now) == gone;
          if d.world in world.worlds {
            RestoreStateStep(active0, prev, active, back, prevBlocks, world.blocks, m, d);
          }
        }
      }
    }

    /**
     * One record of the restoration walk: an expired record is deleted (a
     * throwing delete stops the walk), a record of a loaded world is
     * restored, any other record is skipped.
     */
    method RestoreOne(d: TombstoneData, now: int, m: Material, cfg: ManagerConfig, holoLines: seq<string>, fails: bool)
      returns (stopped: bool)
      requires Valid() && store.connected
      modifies this, world, store, holograms, particles
      ensures Valid() && store.connected
      ensures world.worlds == old(world.worlds)
      ensures stopped <==> RestoreExpired(d, now) && fails
      ensures stopped ==> store.records == old(store.records)
      ensures RestoreExpired(d, now) && !fails ==> store.records == WithoutIds(old(store.records), {d.id})
      ensures !RestoreExpired(d, now) ==> store.records == old(store.records)
      ensures RestoreExpired(d, now) || d.world !in world.worlds ==>
        active == old(active) && world.blocks == old(world.blocks)
      ensures !RestoreExpired(d, now) && d.world in world.worlds ==>
        active.Keys == old(active).Keys + {RecordPos(d)}
        && active[RecordPos(d)].id == d.id && active[RecordPos(d)].info == RestoredInfo(d)
        && (forall p :: p in old(active) && p != RecordPos(d) ==> active[p] == old(active)[p])
        && world.blocks == old(world.blocks)[RecordPos(d) := m]
    {
      stopped := false;
      if RestoreExpired(d, now) {
        var deleted := store.DeleteTombstone(d.id, true, fails);
        stopped := !deleted;
      } else if d.world in world.worlds {
        RestoreRecord(d, m, cfg, holoLines);
      }
    }

    /** One restored record: a live tombstone at the record's block, with its block and presenters. */
    method RestoreRecord(d: TombstoneData, m: Material, cfg: ManagerConfig, holoLines: seq<string>)
      requires Valid()
      modifies this, world, holograms, particles
      ensures Valid()
      ensures active.Keys == old(active).Keys + {RecordPos(d)}
      ensures active[RecordPos(d)].id == d.id && active[RecordPos(d)].info == RestoredInfo(d)
      ensures forall p :: p in old(active) && p != RecordPos(d) ==> active[p] == old(active)[p]
      ensures world.blocks == old(world.blocks)[RecordPos(d) := m]
      ensures world.worlds == old(world.worlds)
    {
      var t := new PlayerTombstone(RestoredInfo(d), d.id);
      Register(t, m, cfg, holoLines);
    }

    /**
     * `updateActiveTombstones`: every active tombstone older than the
     * despawn time loses its block, hologram, particles and entry; the
     * others stay as they are.
     */
    method UpdateActiveTombstones(now: int, despawnHours: int)
      requires Valid()
      modifies this, world, holograms, particles
      ensures Valid()
      ensures Swept(old(active), old(world.blocks), old(world.tags), old(holograms.holograms), old(particles.tasks),
                    DueKeys(old(active), now, despawnHours))
    {
      ghost var active0, blocks0, tags0, holograms0, tasks0 := active, world.blocks, world.tags, holograms.holograms, particles.tasks;
      var rest := active.Keys;
      ghost var due: set<Pos> := {};
      while rest != {}
        invariant Valid()
        invariant rest <= active0.Keys
        invariant due == DueKeys(active0, now, despawnHours) - rest
        invariant Swept(active0, blocks0, tags0, holograms0, tasks0, due)
        decreases rest
      {
        var p :| p in rest;
        DueStep(active0, now, despawnHours, rest, p, due);
        due := SweepOne(p, now, despawnHours, active0, blocks0, tags0, holograms0, tasks0, due);
        rest := rest - {p};
      }
      assert due == DueKeys(active0, now, despawnHours);
    }

    /**
     * The state after despawning exactly the entries `due`: they leave the
     * map, their blocks turn to air without tag, their holograms and
     * particle tasks are gone; everything else is as it was.
     */
    ghost predicate Swept(active0: map<Pos, PlayerTombstone>, blocks0: map<Pos, Material>, tags0: map<Pos, int>,
                          holograms0: map<Pos, seq<nat>>, tasks0: map<Pos, nat>, due: set<Pos>)
      reads this, world, holograms, particles
    {
      && active == active0 - due
      && world.blocks == EntityCleanup.AirAt(blocks0, due)
      && world.tags == tags0 - due
      && holograms.holograms == holograms0 - due
      && particles.tasks == tasks0 - due
    }

    /** One entry of the sweep: despawned when it is due, left alone otherwise. */
    method SweepOne(p: Pos, now: int, despawnHours: int, ghost active0: map<Pos, PlayerTombstone>,
                    ghost blocks0: map<Pos, Material>, ghost tags0: map<Pos, int>,
                    ghost holograms0: map<Pos, seq<nat>>, ghost tasks0: map<Pos, nat>, ghost due: set<Pos>)
      returns (ghost due': set<Pos>)
      requires Valid() && p in active0 && p !in due
      requires Swept(active0, blocks0, tags0, holograms0, tasks0, due)
      modifies this, world, holograms, particles
      ensures Valid()
      ensures due' == due + (if ShouldDespawnAfter(active0[p].info.deathTime, now, despawnHours) then {p} else {})
      ensures Swept(active0, blocks0, tags0, holograms0, tasks0, due')
    {
      due' := due;
      var t := active[p];
      if ShouldDespawnAfter(t.info.deathTime, now, despawnHours) {
        DespawnAt(p);
        EntityCleanup.AirAtStep(blocks0, due, p);
        MinusStep(active0, due, p);
        MinusStep(tags0, due, p);
        MinusStep(holograms0, due, p);
        MinusStep(tasks0, due, p);
        due' := due + {p};
      }
    }

    /** One despawn: air at the block, hologram and particles gone, entry dropped. */
    method DespawnAt(p: Pos)
      requires Valid()
      modifies this, world, holograms, particles
      ensures Valid()
      ensures active == old(active) - {p}
      ensures world.blocks == old(world.blocks)[p := Air] && world.tags == old(world.tags) - {p}
      ensures holograms.holograms == old(holograms.holograms) - {p}
      ensures particles.tasks == old(particles.tasks) - {p}
    {
      world.SetType(p, Air);
      holograms.RemoveHologram(world, p);
      particles.RemoveParticleEffect(p);
      active := active - {p};
    }

    /** `shutdown`: presenters shut down, the database closes and the map is cleared. */
    method Shutdown()
      requires Valid()
      modifies this, world, holograms, particles, store
      ensures Valid()
      ensures active == map[] && holograms.HologramCount() == 0 && particles.ActiveEffectCount() == 0
      ensures !store.connected
      ensures store.records == old(store.records) && store.rows == old(store.rows)
    {
      holograms.Shutdown(world);
      particles.Shutdown();
      store.CloseDatabase();
      active := map[];
    }
  }

  /** Every entry sits under the block of its own tombstone. */
  predicate KeyedByBlock(active: map<Pos, PlayerTombstone>)
  {
    forall p :: p in active ==> BlockPos(active[p].info) == p
  }

  lemma AppendedIdPresent(before: seq<TombstoneData>, after: seq<TombstoneData>, id: int)
    requires exists d :: after == before + [d] && d.id == id
    ensures id in Ids(after)
  {
    var d :| after == before + [d] && d.id == id;
    assert after[|before|] == d;
  }

  /** The active entries that are due for despawn. */
  function DueKeys(active: map<Pos, PlayerTombstone>, now: int, hours: int): set<Pos>
  {
    set p | p in active && ShouldDespawnAfter(active[p].info.deathTime, now, hours)
  }

  /** Handling one more entry of the sweep adds it to the due entries handled exactly when it is due. */
  lemma DueStep(active: map<Pos, PlayerTombstone>, now: int, hours: int, rest: set<Pos>, p: Pos, due: set<Pos>)
    requires p in rest && rest <= active.Keys && due == DueKeys(active, now, hours) - rest
    ensures due + (if ShouldDespawnAfter(active[p].info.deathTime, now, hours) then {p} else {})
      == DueKeys(active, now, hours) - (rest - {p})
  {
  }

  lemma MinusStep<V>(m: map<Pos, V>, done: set<Pos>, p: Pos)
    ensures (m - done) - {p} == m - (done + {p})
  {
  }

  /** The active map during restoration: the old entries, overridden by the restored records. */
  ghost predicate RestoredEntries(before: map<Pos, PlayerTombstone>, active: map<Pos, PlayerTombstone>,
                                  back: map<Pos, TombstoneData>)
  {
    (forall p :: p in active <==> p in before || p in back)
    && (forall p :: p in back ==> active[p].id == back[p].id && active[p].info == RestoredInfo(back[p]))
    && (forall p :: p in before && p !in back ==> active[p] == before[p])
  }

  /** The restored entries, and the configured block at each of them. */
  ghost predicate RestoreState(before: map<Pos, PlayerTombstone>, active: map<Pos, PlayerTombstone>,
                               back: map<Pos, TombstoneData>, blocks: map<Pos, Material>, m: Material)
  {
    RestoredEntries(before, active, back) && forall p :: p in back ==> p in blocks && blocks[p] == m
  }

  lemma RestoreStateStep(before: map<Pos, PlayerTombstone>, prev: map<Pos, PlayerTombstone>,
                         next: map<Pos, PlayerTombstone>, back: map<Pos, TombstoneData>,
                         prevBlocks: map<Pos, Material>, nextBlocks: map<Pos, Material>, m: Material, d: TombstoneData)
    requires RestoreState(before, prev, back, prevBlocks, m)
    requires next.Keys == prev.Keys + {RecordPos(d)}
    requires next[RecordPos(d)].id == d.id && next[RecordPos(d)].info == RestoredInfo(d)
    requires forall p :: p in prev && p != RecordPos(d) ==> next[p] == prev[p]
    requires nextBlocks == prevBlocks[RecordPos(d) := m]
    ensures RestoreState(before, next, back[RecordPos(d) := d], nextBlocks, m)
  {
    RestoredEntriesStep(before, prev, next, back, d);
  }

  lemma RestoredEntriesStep(before: map<Pos, PlayerTombstone>, prev: map<Pos, PlayerTombstone>,
                            next: map<Pos, PlayerTombstone>, back: map<Pos, TombstoneData>, d: TombstoneData)
    requires RestoredEntries(before, prev, back)
    requires next.Keys == prev.Keys + {RecordPos(d)}
    requires next[RecordPos(d)].id == d.id && next[RecordPos(d)].info == RestoredInfo(d)
    requires forall p :: p in prev && p != RecordPos(d) ==> next[p] == prev[p]
    ensures RestoredEntries(before, next, back[RecordPos(d) := d])
  {
  }

  lemma RestoredSnoc(all: seq<TombstoneData>, i: int, worlds: set<string>, now: int)
    requires 0 <= i < |all|
    ensures Restored(all[..i + 1], worlds, now) ==
      if RestoreExpired(all[i], now) || all[i].world !in worlds then Restored(all[..i], worlds, now)
      else Restored(all[..i], worlds, now)[RecordPos(all[i]) := all[i]]
  {
    assert all[..i + 1][..i] == all[..i];
  }

  lemma ExpiredIdsSnoc(all: seq<TombstoneData>, i: int, now: int)
    requires 0 <= i < |all|
    ensures ExpiredIds(all[..i + 1], now) == ExpiredIds(all[..i], now) + (if RestoreExpired(all[i], now) then {all[i].id} else {})
  {
    var a, b := all[..i + 1], all[..i];
    assert forall k :: 0 <= k < i ==> a[k] == b[k];
    assert a[i] == all[i];
  }

  /** An eviction, then a new entry: every other entry is one that was there before. */
  lemma KeepsOthers(active0: map<Pos, PlayerTombstone>, active1: map<Pos, PlayerTombstone>, b: Pos, t: PlayerTombstone)
    requires active1.Keys <= active0.Keys && forall p :: p in active1 ==> active1[p] == active0[p]
    ensures forall p :: p in active1[b := t] && p != b ==> p in active0 && active1[b := t][p] == active0[p]
  {
  }

  lemma IdsBelow(records: seq<TombstoneData>, bound: int)
    requires forall i :: 0 <= i < |records| ==> records[i].id < bound
    ensures bound !in Ids(records)
  {
    if bound in Ids(records) {
    }
  }

  // ---------------------------------------------------------------------
  // Keying of the active map

  /** As written, a tombstone is entered under the exact location it was created at (the death location). */
  function ActiveKeyAsWritten(l: Location): Location
  {
    l
  }

  /** As written, block events look the tombstone up under `block.getLocation()`. */
  function LookupKeyAsWritten(p: Pos): Location
  {
    BlockLocation(p)
  }

  /** A location that is its own block's location: whole coordinates, zero yaw and pitch. */
  predicate OnBlockCorner(l: Location)
  {
    l.x == l.x.Floor as real && l.y == l.y.Floor as real && l.z == l.z.Floor as real && l.yaw == 0.0 && l.pitch == 0.0
  }

  /**
   * As written, the block's own location finds a tombstone exactly when
   * the player died on a block corner looking straight ahead; any
   * fractional coordinate or any turn of the head (a death at
   * (10.5, 64.0, -5.5) looking east, say) leaves it unfindable.
   */
  lemma KeyingMissesFractionalLocation(l: Location)
    ensures LookupKeyAsWritten(BlockOf(l)) == ActiveKeyAsWritten(l) <==> OnBlockCorner(l)
    ensures !OnBlockCorner(l) ==> forall t: PlayerTombstone :: LookupKeyAsWritten(BlockOf(l)) !in map[ActiveKeyAsWritten(l) := t]
  {
  }

  /**
   * Keyed by block, a tombstone is found from any location inside its
   * block, in particular from the block's own location.
   */
  lemma LookupByBlockFindsTombstone(active: map<Pos, PlayerTombstone>, t: PlayerTombstone, l: Location)
    requires KeyedByBlock(active)
    requires exists p :: p in active && active[p] == t
    requires BlockOf(l) == BlockPos(t.info)
    ensures BlockOf(l) in active && active[BlockOf(l)] == t
    ensures BlockOf(BlockLocation(BlockOf(l))) in active && active[BlockOf(BlockLocation(BlockOf(l)))] == t
  {
  }
}
