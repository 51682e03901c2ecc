/**
 * Tombstone state: the immutable record every tombstone shares (owner,
 * location, death time, protection deadline, experience), the live
 * tombstone with its removed flag and mutable experience, and the
 * tombstone instance that tracks which of its presentation parts exist.
 * The wall clock is the parameter `now`, in milliseconds.
 */
module Tombstones {
  import opened Common
  import opened Worlds

  const ADMIN_PERMISSION := "playerdeadmanager.admin"
  const MILLIS_PER_HOUR := 3_600_000
  /** The fixed 24-hour despawn delay of the shared record. */
  const DEFAULT_DESPAWN_MILLIS := 24 * 60 * 60 * 1000

  /** The final fields every tombstone carries. */
  datatype TombstoneInfo = TombstoneInfo(
    owner: Uuid,
    location: Location,
    deathTime: int,
    protectionExpire: int,
    experience: int)

  /** The block the tombstone occupies. */
  function BlockPos(t: TombstoneInfo): Pos
  {
    BlockOf(t.location)
  }

  /** Protection ends strictly after the deadline. */
  predicate IsProtectionExpired(t: TombstoneInfo, now: int)
  {
    now > t.protectionExpire
  }

  /** Whole seconds of protection left, rounded toward zero and never negative. */
  function RemainingProtectionSeconds(t: TombstoneInfo, now: int): (s: int)
    ensures s >= 0
    ensures IsProtectionExpired(t, now) ==> s == 0
    ensures !IsProtectionExpired(t, now) ==> s * 1000 <= t.protectionExpire - now < (s + 1) * 1000
  {
    Max(0, JDiv(t.protectionExpire - now, 1000))
  }

  /** The record's own despawn rule: more than a day after death. */
  predicate ShouldDespawn(t: TombstoneInfo, now: int)
  {
    now > t.deathTime + DEFAULT_DESPAWN_MILLIS
  }

  /** The instance-level despawn rule for a delay given in hours. */
  predicate ShouldDespawnAfter(deathTime: int, now: int, hours: int)
  {
    now - deathTime > hours * MILLIS_PER_HOUR
  }

  /** The record's rule is the instance rule at 24 hours. */
  lemma ShouldDespawnIsTwentyFourHours(t: TombstoneInfo, now: int)
    ensures ShouldDespawn(t, now) <==> ShouldDespawnAfter(t.deathTime, now, 24)
  {
  }

  /** The despawn rule is monotone in time: once due, a tombstone stays due. */
  lemma ShouldDespawnAfterMonotone(deathTime: int, now: int, later: int, hours: int)
    requires now <= later
    requires ShouldDespawnAfter(deathTime, now, hours)
    ensures ShouldDespawnAfter(deathTime, later, hours)
  {
  }

  /** Access rule: the owner, an administrator, or anyone once protection has ended. */
  predicate CanAccess(t: TombstoneInfo, player: Player, now: int)
  {
    player.id == t.owner || HasPermission(player, ADMIN_PERMISSION) || IsProtectionExpired(t, now)
  }

  /** During protection only the owner and administrators get in. */
  lemma ProtectedExcludesStrangers(t: TombstoneInfo, player: Player, now: int)
    requires now <= t.protectionExpire
    requires player.id != t.owner && !HasPermission(player, ADMIN_PERMISSION)
    ensures !CanAccess(t, player, now)
  {
  }

  /** Access only widens as time passes. */
  lemma CanAccessMonotone(t: TombstoneInfo, player: Player, now: int, later: int)
    requires now <= later
    requires CanAccess(t, player, now)
    ensures CanAccess(t, player, later)
  {
  }

  /** Milliseconds of protection left as the live tombstone reports them. */
  function RemainingProtectionMillis(t: TombstoneInfo, now: int): (ms: int)
    ensures ms >= 0
    ensures ms > 0 ==> !IsProtectionExpired(t, now) && ms == t.protectionExpire - now
    ensures IsProtectionExpired(t, now) ==> ms == 0
  {
    if IsProtectionExpired(t, now) then 0 else t.protectionExpire - now
  }

  /** The seconds of the shared record are the live tombstone's milliseconds in whole seconds. */
  lemma SecondsAgreeWithMillis(t: TombstoneInfo, now: int)
    ensures RemainingProtectionSeconds(t, now) == RemainingProtectionMillis(t, now) / 1000
  {
  }

  function ExistenceTime(t: TombstoneInfo, now: int): int
  {
    now - t.deathTime
  }

  /** Auto-clean is due once the tombstone has existed longer than the limit. */
  predicate ShouldAutoClean(t: TombstoneInfo, now: int, maxExistence: int)
  {
    ExistenceTime(t, now) > maxExistence
  }

  lemma AutoCleanIsDespawnRule(t: TombstoneInfo, now: int, hours: int)
    ensures ShouldAutoClean(t, now, hours * MILLIS_PER_HOUR) <==> ShouldDespawnAfter(t.deathTime, now, hours)
  {
  }

  /** A live tombstone: the shared record, the database id and its mutable state. */
  class PlayerTombstone {
    const info: TombstoneInfo
    const id: int
    var removed: bool
    var currentExperience: int

    constructor (info: TombstoneInfo, id: int)
      ensures this.info == info && this.id == id
      ensures !removed && currentExperience == info.experience
    {
      this.info := info;
      this.id := id;
      removed := false;
      currentExperience := info.experience;
    }

    function Experience(): int
      reads this
    {
      currentExperience
    }

    /** Negative experience is stored as zero. */
    method SetExperience(e: int)
      modifies this
      ensures currentExperience == Max(0, e)
      ensures currentExperience >= 0 && (e >= 0 ==> currentExperience == e)
      ensures removed == old(removed)
    {
      currentExperience := Max(0, e);
    }

    /** Places the default chest block, unless this tombstone was removed. */
    method CreateTombstone(world: World)
      requires world.Valid()
      modifies world
      ensures world.Valid()
      ensures old(removed) ==> world.blocks == old(world.blocks) && world.tags == old(world.tags)
      ensures !old(removed) ==> world.blocks == old(world.blocks)[BlockPos(info) := Chest]
      ensures !old(removed) ==> world.tags == old(world.tags) - {BlockPos(info)}
      ensures world.entities == old(world.entities) && world.nextEntity == old(world.nextEntity) && world.worlds == old(world.worlds)
    {
      if removed {
        return;
      }
      world.SetType(BlockPos(info), Chest);
    }

    /** Clears the block to air once; later calls change nothing. */
    method RemoveTombstone(world: World)
      requires world.Valid()
      modifies this, world
      ensures world.Valid()
      ensures removed
      ensures currentExperience == old(currentExperience)
      ensures old(removed) ==> world.blocks == old(world.blocks) && world.tags == old(world.tags)
      ensures !old(removed) ==> world.blocks == old(world.blocks)[BlockPos(info) := Air]
      ensures !old(removed) ==> world.tags == old(world.tags) - {BlockPos(info)}
      ensures world.entities == old(world.entities) && world.nextEntity == old(world.nextEntity) && world.worlds == old(world.worlds)
    {
      if removed {
        return;
      }
      world.SetType(BlockPos(info), Air);
      removed := true;
    }

    function StatusDescription(now: int): (s: string)
      reads this
      ensures removed ==> s == "已移除"
      ensures !removed && IsProtectionExpired(info, now) ==> s == "保护已过期"
      ensures !removed && !IsProtectionExpired(info, now) ==> s == "受保护中"
    {
      if removed then "已移除"
      else if IsProtectionExpired(info, now) then "保护已过期"
      else "受保护中"
    }
  }

  /** The calls a complete instance makes into its concrete presentation hooks. */
  datatype Hook = CreateSkull | CreateHologram | CreateParticles | RemoveSkull | RemoveHologram | RemoveParticles

  /**
   * A tombstone instance with presence flags for its skull, hologram and
   * particles. The presentation hooks are abstract; `hooks` records the
   * order in which they are called.
   */
  class TombstoneInstance {
    const owner: Uuid
    const location: Location
    const deathTime: int
    const tombstoneId: int
    var isRemoved: bool
    var hasSkull: bool
    var hasHologram: bool
    var hasParticles: bool
    var hooks: seq<Hook>

    constructor (owner: Uuid, location: Location, deathTime: int, tombstoneId: int)
      ensures this.owner == owner && this.location == location
      ensures this.deathTime == deathTime && this.tombstoneId == tombstoneId
      ensures !isRemoved && !hasSkull && !hasHologram && !hasParticles
      ensures !IsComplete()
      ensures hooks == []
    {
      this.owner := owner;
      this.location := location;
      this.deathTime := deathTime;
      this.tombstoneId := tombstoneId;
      isRemoved := false;
      hasSkull := false;
      hasHologram := false;
      hasParticles := false;
      hooks := [];
    }

    /** Complete means the skull exists and the instance was not removed. */
    predicate IsComplete()
      reads this
    {
      hasSkull && !isRemoved
    }

    method SetHasSkull(b: bool)
      modifies this
      ensures hasSkull == b
      ensures isRemoved == old(isRemoved) && hasHologram == old(hasHologram)
      ensures hasParticles == old(hasParticles) && hooks == old(hooks)
    {
      hasSkull := b;
    }

    method MarkAsRemoved()
      modifies this
      ensures isRemoved && !hasSkull && !hasHologram && !hasParticles
      ensures !IsComplete()
      ensures hooks == old(hooks)
    {
      isRemoved := true;
      hasSkull := false;
      hasHologram := false;
      hasParticles := false;
    }

    /**
     * Builds skull, hologram and particles in that order, unless removed.
     * The three hooks are abstract: what they do to the presence flags is
     * up to a subclass, so only a removed instance's flags are stated.
     */
    method CreateCompleteInstance()
      modifies this
      ensures old(isRemoved) ==> hooks == old(hooks)
      ensures !old(isRemoved) ==> hooks == old(hooks) + [CreateSkull, CreateHologram, CreateParticles]
      ensures old(isRemoved) ==> (isRemoved && hasSkull == old(hasSkull)
        && hasHologram == old(hasHologram) && hasParticles == old(hasParticles))
    {
      if isRemoved {
        return;
      }
      hooks := hooks + [CreateSkull, CreateHologram, CreateParticles];
    }

    /** Tears every part down and ends up removed and incomplete. */
    method RemoveCompleteInstance()
      modifies this
      ensures hooks == old(hooks) + [RemoveSkull, RemoveHologram, RemoveParticles]
      ensures isRemoved && !hasSkull && !hasHologram && !hasParticles
      ensures !IsComplete()
    {
      hooks := hooks + [RemoveSkull, RemoveHologram, RemoveParticles];
      MarkAsRemoved();
    }

    predicate ShouldDespawn(now: int, hours: int)
    {
      ShouldDespawnAfter(deathTime, now, hours)
    }
  }
}
