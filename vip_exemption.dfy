/**
 * VIP death exemptions: a player holding `playerdeadmanager.vip.save.N`
 * (or `.unlimited`) may keep their inventory on up to N deaths a day. The
 * uses of each day are kept in the `player_exemptions` table and cached.
 *
 * Days are numbered; the day of a call is a parameter. The cache is keyed
 * by player and day; see the stale-cache finding at the end of this module
 * for the cache as written.
 */
module VipExemption {
  import opened Common

  const SAVE_PREFIX := "playerdeadmanager.vip.save."
  const UNLIMITED := "unlimited"

  /** How many days of rows `cleanupExpiredExemptions` keeps before today. */
  const KEPT_DAYS := 7

  /**
   * What a permission grants: `playerdeadmanager.vip.save.` followed by
   * ASCII digits (an `int`; a longer number grants nothing) or by
   * `unlimited` (the largest `int`).
   */
  function SaveGrant(perm: string): (r: Option<int>)
    ensures r.Some? ==> 0 <= r.value <= INT_MAX
  {
    if |perm| <= |SAVE_PREFIX| || perm[..|SAVE_PREFIX|] != SAVE_PREFIX then None
    else
      var value := perm[|SAVE_PREFIX|..];
      if value == UNLIMITED then Some(INT_MAX)
      else if AllDigits(value) then ParseInteger(value, 0, INT_MAX)
      else None
  }

  function GrantOrZero(perm: string): int
  {
    if SaveGrant(perm).Some? then SaveGrant(perm).value else 0
  }

  /** Some element of a non-empty set. */
  ghost function Pick(perms: set<string>): string
    requires perms != {}
  {
    var p :| p in perms; p
  }

  /** The greatest grant among the permissions, 0 when none grants anything. */
  ghost function MaxGrant(perms: set<string>): int
    decreases perms
  {
    if perms == {} then 0
    else Max(GrantOrZero(Pick(perms)), MaxGrant(perms - {Pick(perms)}))
  }

  lemma {:induction false} MaxGrantSpec(perms: set<string>)
    ensures 0 <= MaxGrant(perms) <= INT_MAX
    ensures forall p :: p in perms ==> GrantOrZero(p) <= MaxGrant(perms)
    ensures MaxGrant(perms) == 0 || exists p :: p in perms && GrantOrZero(p) == MaxGrant(perms)
    decreases perms
  {
    if perms != {} {
      var p := Pick(perms);
      MaxGrantSpec(perms - {p});
    }
  }

  /** A bound that every grant stays under and that some grant (or 0) reaches is the greatest grant. */
  lemma MaxGrantUnique(perms: set<string>, m: int)
    requires forall p :: p in perms ==> GrantOrZero(p) <= m
    requires m == 0 || exists p :: p in perms && GrantOrZero(p) == m
    ensures m == MaxGrant(perms)
  {
    MaxGrantSpec(perms);
    if m != 0 {
      var p :| p in perms && GrantOrZero(p) == m;
    }
    if MaxGrant(perms) != 0 {
      var q :| q in perms && GrantOrZero(q) == MaxGrant(perms);
    }
  }

  /** Holding `unlimited` grants the largest `int`. */
  lemma UnlimitedWins(perms: set<string>)
    requires SAVE_PREFIX + UNLIMITED in perms
    ensures MaxGrant(perms) == INT_MAX
  {
    MaxGrantSpec(perms);
    var u := SAVE_PREFIX + UNLIMITED;
    assert u[..|SAVE_PREFIX|] == SAVE_PREFIX && u[|SAVE_PREFIX|..] == UNLIMITED;
  }

  /** `getPlayerMaxExemptions`: 0 while exemptions are off; a held `unlimited` ends the scan. */
  method GetPlayerMaxExemptions(enabled: bool, player: Player) returns (max: int)
    ensures !enabled ==> max == 0
    ensures enabled ==> max == MaxGrant(player.perms)
  {
    if !enabled {
      return 0;
    }
    max := 0;
    var left := player.perms;
    while left != {}
      invariant left <= player.perms
      invariant 0 <= max
      invariant forall p :: p in player.perms - left ==> GrantOrZero(p) <= max
      invariant max == 0 || exists p :: p in player.perms - left && GrantOrZero(p) == max
      decreases left
    {
      var permission :| permission in left;
      var grant := SaveGrant(permission);
      if grant == Some(INT_MAX) && permission[|SAVE_PREFIX|..] == UNLIMITED {
        forall p | p in player.perms
          ensures GrantOrZero(p) <= INT_MAX
        {
        }
        MaxGrantUnique(player.perms, INT_MAX);
        return INT_MAX;
      }
      assert permission in player.perms - (left - {permission});
      if grant.Some? && grant.value > max {
        max := grant.value;
      }
      left := left - {permission};
    }
    MaxGrantUnique(player.perms, max);
  }

  /** `canUseExemption` on its inputs: enabled, some grant, and unlimited or uses left. */
  predicate Permits(enabled: bool, max: int, used: int)
  {
    enabled && max > 0 && (max == INT_MAX || used < max)
  }

  /** The stored count of a (player, day) row; no row counts 0. */
  function Stored(table: map<(Uuid, int), int>, key: (Uuid, int)): int
  {
    if key in table then table[key] else 0
  }

  /** What `getPlayerUsedExemptions` answers: the cached count, else the stored one, else 0 when the read fails. */
  function Seen(cache: map<(Uuid, int), int>, table: map<(Uuid, int), int>, key: (Uuid, int), readFails: bool): int
  {
    if key in cache then cache[key] else if readFails then 0 else Stored(table, key)
  }

  /** The cache after that read: a successful read from the table is remembered. */
  function CacheAfterRead(cache: map<(Uuid, int), int>, table: map<(Uuid, int), int>, key: (Uuid, int), readFails: bool): map<(Uuid, int), int>
  {
    if key in cache || readFails then cache else cache[key := Stored(table, key)]
  }

  /** The cache after `canUseExemption`: read only for a finite, positive grant. */
  function CacheAfterCheck(enabled: bool, max: int, cache: map<(Uuid, int), int>, table: map<(Uuid, int), int>,
                           key: (Uuid, int), readFails: bool): map<(Uuid, int), int>
  {
    if enabled && max > 0 && max != INT_MAX then CacheAfterRead(cache, table, key, readFails) else cache
  }

  /** `getOrDefault(key, 0)`. */
  function CachedOrZero(cache: map<(Uuid, int), int>, key: (Uuid, int)): int
  {
    if key in cache then cache[key] else 0
  }

  /** What `getExemptionStatusInfo` reports. */
  datatype ExemptionStatus =
    | ExemptionsDisabled                                           // "vip-exemption.disabled"
    | NoExemptionPermission                                        // "vip-exemption.no-permission"
    | Status(used: int, max: Option<int>, remaining: Option<int>)  // "vip-exemption.status"; None is unlimited

  class ExemptionManager {
    /** `vip-exemption.enabled`, default true. */
    const enabled: bool
    /** `dailyExemptionUsage`. */
    var cache: map<(Uuid, int), int>
    /** The `player_exemptions` table: used count per player and day. */
    var table: map<(Uuid, int), int>
    /** Days before this one have been swept from the table. */
    ghost var sweptBefore: int

    /** Every cached count of a day the sweep has not reached is the stored one. */
    ghost predicate Valid()
      reads this
    {
      forall key :: key in cache && key.1 >= sweptBefore ==> cache[key] == Stored(table, key)
    }

    constructor (enabled: bool, table: map<(Uuid, int), int>)
      ensures Valid()
      ensures this.enabled == enabled && this.table == table && cache == map[]
    {
      this.enabled := enabled;
      this.table := table;
      cache := map[];
      sweptBefore := 0;
    }

    /** `getPlayerUsedExemptions` for `today`; `readFails` is a failing query. */
    method GetPlayerUsedExemptions(player: Player, today: int, readFails: bool) returns (used: int)
      modifies this
      ensures old(Valid()) ==> Valid()
      ensures used == Seen(old(cache), table, (player.id, today), readFails)
      ensures cache == CacheAfterRead(old(cache), table, (player.id, today), readFails)
      ensures table == old(table) && sweptBefore == old(sweptBefore)
      ensures old(Valid()) && today >= sweptBefore && ((player.id, today) in old(cache) || !readFails) ==>
        used == Stored(table, (player.id, today))
    {
      var key := (player.id, today);
      if key in cache {
        return cache[key];
      }
      if readFails {
        return 0;
      }
      used := Stored(table, key);
      cache := cache[key := used];
    }

    /** `canUseExemption`: the cache is read only when the grant is finite and positive. */
    method CanUseExemption(player: Player, today: int, readFails: bool) returns (ok: bool)
      modifies this
      ensures old(Valid()) ==> Valid()
      ensures var key := (player.id, today);
        ok <==> Permits(enabled, MaxGrant(player.perms), Seen(old(cache), table, key, readFails))
      ensures cache == CacheAfterCheck(enabled, MaxGrant(player.perms), old(cache), table, (player.id, today), readFails)
      ensures table == old(table) && sweptBefore == old(sweptBefore)
    {
      var max := GetPlayerMaxExemptions(enabled, player);
      if !enabled || max <= 0 {
        return false;
      }
      if max == INT_MAX {
        return true;
      }
      var used := GetPlayerUsedExemptions(player, today, readFails);
      ok := used < max;
    }

    /**
     * `useExemption`: nothing happens unless an exemption is available;
     * then the day's row is incremented (`writeFails` is a failing
     * upsert) and so is the cached count, starting from 0 when nothing
     * was cached.
     */
    method UseExemption(player: Player, today: int, readFails: bool, writeFails: bool) returns (ok: bool)
      modifies this
      ensures var key := (player.id, today);
        ok <==> Permits(enabled, MaxGrant(player.perms), Seen(old(cache), old(table), key, readFails)) && !writeFails
      ensures !ok ==> table == old(table)
      ensures var key := (player.id, today);
        var checked := CacheAfterCheck(enabled, MaxGrant(player.perms), old(cache), old(table), key, readFails);
        && (!ok ==> cache == checked)
        && (ok ==> table == old(table)[key := Stored(old(table), key) + 1]
                   && cache == checked[key := CachedOrZero(checked, key) + 1])
      ensures sweptBefore == old(sweptBefore)
      ensures old(Valid()) && (!ok || (MaxGrant(player.perms) != INT_MAX && ((player.id, today) in old(cache) || !readFails))) ==> Valid()
    {
      var can := CanUseExemption(player, today, readFails);
      if !can || writeFails {
        return false;
      }
      var key := (player.id, today);
      var current := Stored(table, key);
      table := table[key := current + 1];
      var cached := CachedOrZero(cache, key);
      cache := cache[key := cached + 1];
      ok := true;
    }

    /** `resetPlayerCache`: that player's cached counts go, no one else's. */
    method ResetPlayerCache(id: Uuid)
      modifies this
      ensures old(Valid()) ==> Valid()
      ensures forall key :: key in cache <==> key in old(cache) && key.0 != id
      ensures forall key :: key in cache ==> cache[key] == old(cache)[key]
      ensures table == old(table)
    {
      cache := map key | key in cache && key.0 != id :: cache[key];
    }

    /** `clearAllCache`. */
    method ClearAllCache()
      modifies this
      ensures Valid()
      ensures cache == map[] && table == old(table)
      ensures sweptBefore == old(sweptBefore)
    {
      cache := map[];
    }

    /** `cleanupExpiredExemptions`: rows of days before `today - 7` are deleted; `fails` is a failing delete. */
    method CleanupExpiredExemptions(today: int, fails: bool)
      modifies this
      ensures old(Valid()) ==> Valid()
      ensures cache == old(cache)
      ensures fails ==> table == old(table)
      ensures !fails ==> forall key :: key in table <==> key in old(table) && key.1 >= today - KEPT_DAYS
      ensures forall key :: key in table ==> table[key] == old(table)[key]
    {
      if !fails {
        table := map key | key in table && key.1 >= today - KEPT_DAYS :: table[key];
        sweptBefore := Max(sweptBefore, today - KEPT_DAYS);
      }
    }

    /** `getExemptionStatusInfo`: remaining is the grant less the day's uses. */
    method GetExemptionStatusInfo(player: Player, today: int, readFails: bool) returns (s: ExemptionStatus)
      modifies this
      ensures old(Valid()) ==> Valid()
      ensures !enabled ==> s == ExemptionsDisabled
      ensures enabled && MaxGrant(player.perms) <= 0 ==> s == NoExemptionPermission
      ensures s.Status? ==>
        var max := MaxGrant(player.perms);
        && enabled && max > 0
        && s.used == Seen(old(cache), table, (player.id, today), readFails)
        && (max == INT_MAX ==> s.max.None? && s.remaining.None?)
        && (max != INT_MAX ==> s.max == Some(max) && s.remaining == Some(max - s.used))
      ensures table == old(table)
    {
      if !enabled {
        return ExemptionsDisabled;
      }
      var max := GetPlayerMaxExemptions(enabled, player);
      if max <= 0 {
        return NoExemptionPermission;
      }
      var used := GetPlayerUsedExemptions(player, today, readFails);
      if max == INT_MAX {
        s := Status(used, None, None);
      } else {
        s := Status(used, Some(max), Some(max - used));
      }
    }
  }

  /** With a single-use grant the first exemption of a day is granted and the second refused. */
  lemma OneUseADay(max: int, cache: map<(Uuid, int), int>, table: map<(Uuid, int), int>, key: (Uuid, int))
    requires max == 1 && key !in cache && key !in table
    ensures Permits(true, max, Seen(cache, table, key, false))
    ensures !Permits(true, max, Seen(cache[key := 1], table[key := 1], key, false))
  {
  }

  /**
   * An unlimited grant never reads the day's row, so its use caches 1
   * over a stored count of 3 that the upsert raises to 4. When the grant
   * later becomes a finite 3, the cached 1 still permits two more uses.
   */
  lemma UnlimitedUseLeavesStaleCount(cache: map<(Uuid, int), int>, table: map<(Uuid, int), int>, key: (Uuid, int))
    requires key !in cache && Stored(table, key) == 3
    ensures var checked := CacheAfterCheck(true, INT_MAX, cache, table, key, false);
      var cache' := checked[key := CachedOrZero(checked, key) + 1];
      var table' := table[key := Stored(table, key) + 1];
      && cache'[key] == 1 && Stored(table', key) == 4
      && Permits(true, 3, Seen(cache', table', key, false))
      && !Permits(true, 3, Seen(map[], table', key, false))
  {
  }

  // ---------------------------------------------------------------------
  // Finding: the cache as written outlives the day

  /**
   * `getPlayerUsedExemptions` as written: `dailyExemptionUsage` is keyed
   * by the player alone and nothing clears it when the day changes, so a
   * count cached on one day answers for every later day.
   */
  function SeenAsWritten(cache: map<Uuid, int>, table: map<(Uuid, int), int>, id: Uuid, today: int, readFails: bool): int
  {
    if id in cache then cache[id] else if readFails then 0 else Stored(table, (id, today))
  }

  /**
   * A player with one exemption a day who used it on day `d` is refused
   * on day `d + 1` as written, although that day's row is empty; keyed by
   * day, the cache grants it.
   */
  lemma CacheOutlivesTheDay(id: Uuid, d: int)
    ensures var table := map[(id, d) := 1];
      && !Permits(true, 1, SeenAsWritten(map[id := 1], table, id, d + 1, false))
      && Stored(table, (id, d + 1)) == 0
      && Permits(true, 1, Seen(map[(id, d) := 1], table, (id, d + 1), false))
  {
  }
}
