/**
 * Tombstone holograms: one invisible armour stand per configured text line,
 * tagged with the tombstone id, and the presenter's own map from tombstone
 * block to the ids of the stands it spawned there.
 */
module HologramUtil {
  import opened Common
  import opened Worlds
  import opened Tombstones
  import opened Messages
  import opened TimeUtil
  import opened EntityCleanup

  /** The radius of the extra search for left-over stands on removal. */
  const REMOVE_SEARCH_RADIUS := 2
  const UNKNOWN_PLAYER_FALLBACK := "未知玩家"

  predicate Increasing(ids: seq<nat>)
  {
    forall i, j :: 0 <= i < j < |ids| ==> ids[i] < ids[j]
  }

  /**
   * The entities after the first `n` stands were renamed to the first `n`
   * lines; a stand that is dead (absent) is skipped.
   */
  function Relabel(ents: map<nat, Entity>, ids: seq<nat>, lines: seq<string>, n: nat): map<nat, Entity>
    requires n <= |ids| && n <= |lines|
  {
    if n == 0 then ents
    else
      var prev := Relabel(ents, ids, lines, n - 1);
      if ids[n - 1] in prev then prev[ids[n - 1] := prev[ids[n - 1]].(name := lines[n - 1])] else prev
  }

  /**
   * What relabelling does to each entity: stand `k < n` that is alive gets
   * line `k` as its name and keeps everything else; every other entity is
   * unchanged, and no entity appears or disappears.
   */
  lemma {:induction false} RelabelSpec(ents: map<nat, Entity>, ids: seq<nat>, lines: seq<string>, n: nat)
    requires n <= |ids| && n <= |lines|
    requires Increasing(ids)
    ensures Relabel(ents, ids, lines, n).Keys == ents.Keys
    ensures forall k :: 0 <= k < n && ids[k] in ents ==>
      Relabel(ents, ids, lines, n)[ids[k]] == ents[ids[k]].(name := lines[k])
    ensures forall id :: id in ents && id !in ids[..n] ==> Relabel(ents, ids, lines, n)[id] == ents[id]
  {
    if n > 0 {
      RelabelSpec(ents, ids, lines, n - 1);
      var r := Relabel(ents, ids, lines, n);
      assert forall k :: 0 <= k < n - 1 ==> ids[k] != ids[n - 1];
      forall id | id in ents && id !in ids[..n]
        ensures r[id] == ents[id]
      {
        assert ids[..n] == ids[..n - 1] + [ids[n - 1]];
      }
    }
  }

  /** Relabelling only renames: kinds, positions and tags stay. */
  lemma {:induction false} RelabelOnlyRenames(ents: map<nat, Entity>, ids: seq<nat>, lines: seq<string>, n: nat)
    requires n <= |ids| && n <= |lines|
    ensures Relabel(ents, ids, lines, n).Keys == ents.Keys
    ensures forall id :: id in ents ==> Relabel(ents, ids, lines, n)[id] == ents[id].(name := Relabel(ents, ids, lines, n)[id].name)
  {
    if n > 0 {
      RelabelOnlyRenames(ents, ids, lines, n - 1);
    }
  }

  /**
   * The entities after `updateHologram` ran for each target in order; a
   * target updates only when it has a non-empty entry.
   */
  function UpdateAll(ents: map<nat, Entity>, holograms: map<Pos, seq<nat>>, targets: seq<(Pos, seq<string>)>): map<nat, Entity>
  {
    if |targets| == 0 then ents
    else
      var prev := UpdateAll(ents, holograms, targets[..|targets| - 1]);
      var (p, lines) := targets[|targets| - 1];
      if p in holograms && |holograms[p]| > 0 then
        Relabel(prev, holograms[p], lines, Min(|lines|, |holograms[p]|))
      else prev
  }

  /** The periodic update never spawns or removes an entity, and only ever changes names. */
  lemma {:induction false} UpdateAllOnlyRenames(ents: map<nat, Entity>, holograms: map<Pos, seq<nat>>, targets: seq<(Pos, seq<string>)>)
    ensures UpdateAll(ents, holograms, targets).Keys == ents.Keys
    ensures forall id :: id in ents ==>
      UpdateAll(ents, holograms, targets)[id] == ents[id].(name := UpdateAll(ents, holograms, targets)[id].name)
  {
    if |targets| > 0 {
      var prev := UpdateAll(ents, holograms, targets[..|targets| - 1]);
      UpdateAllOnlyRenames(ents, holograms, targets[..|targets| - 1]);
      var (p, lines) := targets[|targets| - 1];
      if p in holograms && |holograms[p]| > 0 {
        RelabelOnlyRenames(prev, holograms[p], lines, Min(|lines|, |holograms[p]|));
      }
    }
  }

  /** Targets without an entry change nothing. */
  lemma {:induction false} UpdateAllWithoutEntries(ents: map<nat, Entity>, holograms: map<Pos, seq<nat>>, targets: seq<(Pos, seq<string>)>)
    requires forall k :: 0 <= k < |targets| ==> targets[k].0 !in holograms
    ensures UpdateAll(ents, holograms, targets) == ents
  {
    if |targets| > 0 {
      UpdateAllWithoutEntries(ents, holograms, targets[..|targets| - 1]);
    }
  }

  /** Every stand id in the listed entries. */
  function StandsAt(holograms: map<Pos, seq<nat>>, keys: set<Pos>): set<nat>
  {
    set p, i | p in keys && p in holograms && 0 <= i < |holograms[p]| :: holograms[p][i]
  }

  /** The entities a removal at `p` takes away: the entry's stands and the tagged stands nearby. */
  function RemovedAt(ents: map<nat, Entity>, holograms: map<Pos, seq<nat>>, p: Pos, loaded: bool): set<nat>
  {
    StandsAt(holograms, {p})
    + (if loaded then set id | id in ents && IsPdmHologram(ents[id]) && Near(ents[id].at, p, REMOVE_SEARCH_RADIUS) else {})
  }

  /**
   * The placeholders of a hologram: the owner's name (or the unknown-player
   * text), the death time text and the remaining protection time.
   */
  function HologramPlaceholders(ownerName: Option<string>, cfg: MessageConfig, deathTimeText: string,
                                t: TombstoneInfo, now: int): (ph: map<string, string>)
    ensures ph.Keys == {"player", "time", "protection"}
    ensures ownerName.Some? ==> ph["player"] == ownerName.value
    ensures ownerName.None? && GetMessage(cfg, "time.unknown-player", None).Some? ==>
      ph["player"] == GetMessage(cfg, "time.unknown-player", None).value
    ensures ownerName.None? && "time.unknown-player" !in cfg.messages ==> ph["player"] == UNKNOWN_PLAYER_FALLBACK
    ensures ph["time"] == deathTimeText
    ensures ph["protection"] == FormatRemainingTime(GetRemainingTime(t.protectionExpire, now), Some(cfg))
  {
    var unknown := GetMessage(cfg, "time.unknown-player", None);
    var player := if ownerName.Some? then ownerName.value
                  else if unknown.Some? then unknown.value else UNKNOWN_PLAYER_FALLBACK;
    map["player" := player, "time" := deathTimeText,
        "protection" := FormatRemainingTime(GetRemainingTime(t.protectionExpire, now), Some(cfg))]
  }

  /** `getHologramLines`: one line per configured line, each with its placeholders filled in. */
  function HologramLines(format: seq<string>, ph: map<string, string>): (r: seq<string>)
    ensures |r| == |format|
    ensures forall i :: 0 <= i < |format| ==> r[i] == Substitute(format[i], ph)
  {
    if |format| == 0 then [] else HologramLines(format[..|format| - 1], ph) + [Substitute(format[|format| - 1], ph)]
  }

  /** A configured line that is exactly `{player}` shows the owner's name. */
  lemma PlayerLineShowsOwner(format: seq<string>, i: int, ownerName: string, cfg: MessageConfig,
                             deathTimeText: string, t: TombstoneInfo, now: int)
    requires 0 <= i < |format| && format[i] == "{player}"
    ensures HologramLines(format, HologramPlaceholders(Some(ownerName), cfg, deathTimeText, t, now))[i] == ownerName
  {
    var ph := HologramPlaceholders(Some(ownerName), cfg, deathTimeText, t, now);
    assert "{player}" == "{" + "player" + "}";
    SubstituteSingle("player", ph);
    assert HologramLines(format, ph)[i] == Substitute(format[i], ph);
  }

  class Holograms {
    /** The stand ids spawned for each tombstone block, in line order. */
    var holograms: map<Pos, seq<nat>>

    ghost predicate Valid()
      reads this
    {
      forall p :: p in holograms ==> Increasing(holograms[p])
    }

    constructor ()
      ensures Valid() && holograms == map[]
    {
      holograms := map[];
    }

    predicate HasHologram(p: Pos)
      reads this
    {
      p in holograms
    }

    function HologramCount(): nat
      reads this
    {
      |holograms|
    }

    /**
     * `createHologram`: nothing when disabled. Otherwise one tagged stand
     * per line when the tombstone's world is loaded, none when it is not,
     * and the spawned stands replace any earlier entry for the block.
     */
    method CreateHologram(w: World, enabled: bool, t: PlayerTombstone, lines: seq<string>)
      requires Valid() && w.Valid()
      modifies this, w
      ensures Valid() && w.Valid()
      ensures !enabled ==> holograms == old(holograms) && w.entities == old(w.entities) && w.nextEntity == old(w.nextEntity)
      ensures enabled ==> BlockPos(t.info) in holograms
                          && holograms == old(holograms)[BlockPos(t.info) := holograms[BlockPos(t.info)]]
      ensures enabled && BlockPos(t.info).world !in w.worlds ==>
        holograms[BlockPos(t.info)] == [] && w.entities == old(w.entities)
      ensures enabled && BlockPos(t.info).world in w.worlds ==>
        var stands := holograms[BlockPos(t.info)];
        |stands| == |lines|
        && (forall i :: 0 <= i < |lines| ==>
              stands[i] !in old(w.entities) && stands[i] in w.entities
              && w.entities[stands[i]] == Entity(ArmorStand, BlockPos(t.info), Some(IntToString(t.id)), lines[i]))
        && (forall id :: id in w.entities <==> id in old(w.entities) || id in stands)
        && (forall id :: id in old(w.entities) ==> w.entities[id] == old(w.entities)[id])
      ensures w.blocks == old(w.blocks) && w.tags == old(w.tags) && w.worlds == old(w.worlds)
    {
      if !enabled {
        return;
      }
      var p := BlockPos(t.info);
      var stands: seq<nat> := [];
      var i := 0;
      while i < |lines|
        invariant 0 <= i <= |lines|
        invariant w.Valid() && holograms == old(holograms)
        invariant forall k :: 0 <= k < |stands| ==> stands[k] >= old(w.nextEntity)
        invariant p.world !in w.worlds ==> stands == [] && w.entities == old(w.entities) && w.nextEntity == old(w.nextEntity)
        invariant p.world in w.worlds ==> |stands| == i && w.nextEntity == old(w.nextEntity) + i
        invariant p.world in w.worlds ==> forall k :: 0 <= k < i ==> stands[k] == old(w.nextEntity) + k
        invariant p.world in w.worlds ==> forall k :: 0 <= k < i ==>
          stands[k] in w.entities && w.entities[stands[k]] == Entity(ArmorStand, p, Some(IntToString(t.id)), lines[k])
        invariant forall id :: id in w.entities <==> id in old(w.entities) || id in stands
        invariant forall id :: id in old(w.entities) ==> w.entities[id] == old(w.entities)[id]
        invariant w.blocks == old(w.blocks) && w.tags == old(w.tags) && w.worlds == old(w.worlds)
      {
        if p.world in w.worlds {
          var id := w.Spawn(Entity(ArmorStand, p, Some(IntToString(t.id)), lines[i]));
          stands := stands + [id];
        }
        i := i + 1;
      }
      assert Increasing(stands) by {
        if p.world in w.worlds {
          assert forall k :: 0 <= k < |stands| ==> stands[k] == old(w.nextEntity) + k;
        }
      }
      holograms := holograms[p := stands];
    }

    /**
     * `removeHologram`: drops the entry and removes its live stands, then,
     * when the world is loaded, every tagged stand near the block.
     */
    method RemoveHologram(w: World, p: Pos)
      requires Valid() && w.Valid()
      modifies this, w
      ensures Valid() && w.Valid()
      ensures holograms == old(holograms) - {p}
      ensures !HasHologram(p)
      ensures w.entities == old(w.entities) - RemovedAt(old(w.entities), old(holograms), p, p.world in w.worlds)
      ensures p.world in w.worlds ==>
        forall id :: id in w.entities ==> !(IsPdmHologram(w.entities[id]) && Near(w.entities[id].at, p, REMOVE_SEARCH_RADIUS))
      ensures w.blocks == old(w.blocks) && w.tags == old(w.tags)
      ensures w.nextEntity == old(w.nextEntity) && w.worlds == old(w.worlds)
    {
      ghost var before := w.entities;
      var listed: set<nat> := {};
      if p in holograms {
        listed := set i | 0 <= i < |holograms[p]| :: holograms[p][i];
        assert listed == StandsAt(holograms, {p});
        holograms := holograms - {p};
        w.RemoveEntities(listed);
      } else {
        assert StandsAt(holograms, {p}) == {};
      }
      if p.world in w.worlds {
        var nearby := set id | id in w.entities && IsPdmHologram(w.entities[id]) && Near(w.entities[id].at, p, REMOVE_SEARCH_RADIUS);
        w.RemoveEntities(nearby);
      }
    }

    /**
     * `updateHologram`: nothing without a non-empty entry; otherwise the
     * first min(lines, stands) live stands get the new lines as names.
     */
    method UpdateHologram(w: World, p: Pos, lines: seq<string>)
      requires Valid() && w.Valid()
      modifies w
      ensures w.Valid()
      ensures p !in holograms || holograms[p] == [] ==> w.entities == old(w.entities)
      ensures p in holograms && holograms[p] != [] ==>
        w.entities == Relabel(old(w.entities), holograms[p], lines, Min(|lines|, |holograms[p]|))
      ensures w.blocks == old(w.blocks) && w.tags == old(w.tags)
      ensures w.nextEntity == old(w.nextEntity) && w.worlds == old(w.worlds)
    {
      if p !in holograms || holograms[p] == [] {
        return;
      }
      var stands := holograms[p];
      var n := Min(|lines|, |stands|);
      var i := 0;
      while i < n
        invariant 0 <= i <= n
        invariant w.Valid()
        invariant w.entities == Relabel(old(w.entities), stands, lines, i)
        invariant w.blocks == old(w.blocks) && w.tags == old(w.tags)
        invariant w.nextEntity == old(w.nextEntity) && w.worlds == old(w.worlds)
      {
        if stands[i] in w.entities {
          w.Rename(stands[i], lines[i]);
        }
        i := i + 1;
      }
    }

    /**
     * `updateAllHolograms`: nothing when disabled or when no manager is
     * set; otherwise each active tombstone (with its fresh lines) that has
     * an entry is updated, in the order given.
     */
    method UpdateAllHolograms(w: World, enabled: bool, managerSet: bool, targets: seq<(Pos, seq<string>)>)
      requires Valid() && w.Valid()
      modifies w
      ensures w.Valid()
      ensures !enabled || !managerSet ==> w.entities == old(w.entities)
      ensures enabled && managerSet ==> w.entities == UpdateAll(old(w.entities), holograms, targets)
      ensures w.blocks == old(w.blocks) && w.tags == old(w.tags)
      ensures w.nextEntity == old(w.nextEntity) && w.worlds == old(w.worlds)
    {
      if !enabled || !managerSet {
        return;
      }
      var i := 0;
      while i < |targets|
        invariant 0 <= i <= |targets|
        invariant w.Valid()
        invariant w.entities == UpdateAll(old(w.entities), holograms, targets[..i])
        invariant w.blocks == old(w.blocks) && w.tags == old(w.tags)
        invariant w.nextEntity == old(w.nextEntity) && w.worlds == old(w.worlds)
      {
        assert targets[..i + 1][..i] == targets[..i];
        var (p, lines) := targets[i];
        if p in holograms {
          UpdateHologram(w, p, lines);
        }
        i := i + 1;
      }
      assert targets[..i] == targets;
    }

    /** `shutdown`: removes the live stands of every entry and clears the map. */
    method Shutdown(w: World)
      requires Valid() && w.Valid()
      modifies this, w
      ensures Valid() && w.Valid()
      ensures holograms == map[] && HologramCount() == 0
      ensures w.entities == old(w.entities) - StandsAt(old(holograms), old(holograms).Keys)
      ensures w.blocks == old(w.blocks) && w.tags == old(w.tags)
      ensures w.nextEntity == old(w.nextEntity) && w.worlds == old(w.worlds)
    {
      var rest := holograms.Keys;
      while rest != {}
        invariant rest <= holograms.Keys
        invariant w.Valid() && holograms == old(holograms)
        invariant w.entities == old(w.entities) - StandsAt(holograms, holograms.Keys - rest)
        invariant w.blocks == old(w.blocks) && w.tags == old(w.tags)
        invariant w.nextEntity == old(w.nextEntity) && w.worlds == old(w.worlds)
        decreases rest
      {
        var p :| p in rest;
        var listed := set i | 0 <= i < |holograms[p]| :: holograms[p][i];
        StandsAtStep(holograms, holograms.Keys - rest, p);
        MinusTwice(old(w.entities), StandsAt(holograms, holograms.Keys - rest), listed);
        w.RemoveEntities(listed);
        assert holograms.Keys - (rest - {p}) == (holograms.Keys - rest) + {p};
        rest := rest - {p};
      }
      assert holograms.Keys - rest == holograms.Keys;
      holograms := map[];
    }
  }

  /** Adding one entry to the handled keys adds exactly its stands. */
  lemma StandsAtStep(holograms: map<Pos, seq<nat>>, done: set<Pos>, p: Pos)
    requires p in holograms
    ensures StandsAt(holograms, done + {p}) == StandsAt(holograms, done) + (set i | 0 <= i < |holograms[p]| :: holograms[p][i])
  {
  }

  lemma MinusTwice(ents: map<nat, Entity>, a: set<nat>, b: set<nat>)
    ensures (ents - a) - b == ents - (a + b)
  {
  }
}
