/**
 * The entity sweeper: finds what earlier runs of the plugin left in the
 * world (tagged tombstone blocks, tagged hologram armour stands) and removes
 * it, collecting first and removing afterwards.
 */
module EntityCleanup {
  import opened Common
  import opened Worlds

  /** `isPDMHologram`: an armour stand carrying the hologram tag; other entity kinds never are. */
  predicate IsPdmHologram(e: Entity)
  {
    e.kind == ArmorStand && e.holoTag.Some?
  }

  /** `isTombstoneBlock`: the block's tile state carries the tombstone-id tag. */
  predicate IsTombstoneBlock(w: World, p: Pos)
    reads w
  {
    w.TagAt(p).Some?
  }

  /** `getTombstoneId` of the sweeper: the tag of the block, if any. */
  function GetTombstoneId(w: World, p: Pos): (r: Option<int>)
    reads w
    ensures r.Some? <==> IsTombstoneBlock(w, p)
    ensures r.Some? ==> r.value == w.tags[p]
  {
    w.TagAt(p)
  }

  /** `getHologramTombstoneId`: the tag text parsed as a `long`; absent or non-numeric text gives nothing. */
  function GetHologramTombstoneId(e: Entity): (r: Option<int>)
    ensures e.holoTag.None? ==> r.None?
    ensures r.Some? ==> LONG_MIN <= r.value <= LONG_MAX
    ensures e.holoTag.Some? ==> r == ParseInteger(e.holoTag.value, LONG_MIN, LONG_MAX)
  {
    if e.holoTag.None? then None else ParseInteger(e.holoTag.value, LONG_MIN, LONG_MAX)
  }

  /** A stand tagged with a tombstone id gives that id back. */
  lemma HologramIdRoundTrip(e: Entity, id: int)
    requires LONG_MIN <= id <= LONG_MAX
    requires e.holoTag == Some(IntToString(id))
    ensures GetHologramTombstoneId(e) == Some(id)
  {
    ParseIntToString(id, LONG_MIN, LONG_MAX);
  }

  /** A tag that is not a number yields nothing. */
  lemma NonNumericHologramTag(e: Entity)
    requires e.holoTag.Some? && |e.holoTag.value| > 0
    requires forall i :: 0 <= i < |e.holoTag.value| ==> !IsDigit(e.holoTag.value[i])
    ensures GetHologramTombstoneId(e).None?
  {
    var s := e.holoTag.value;
    if s[0] == '-' || s[0] == '+' {
      if |s| > 1 {
        assert !IsDigit(s[1..][0]);
      }
    } else {
      assert !IsDigit(s[0]);
    }
  }

  /** The block-level box of `getNearbyEntities(location, r, r, r)` around `p`. */
  predicate Near(at: Pos, p: Pos, r: int)
  {
    at.world == p.world
    && p.x - r <= at.x <= p.x + r && p.y - r <= at.y <= p.y + r && p.z - r <= at.z <= p.z + r
  }

  /** A chunk column: 16 by 16 blocks of one world. */
  datatype Chunk = Chunk(world: string, x: int, z: int)

  /** The chunk holding a block: `x >> 4` and `z >> 4`, the floor of the division by 16. */
  function ChunkOf(p: Pos): Chunk
  {
    Chunk(p.world, p.x / 16, p.z / 16)
  }

  /** The tagged tombstone blocks of the named worlds that lie in loaded chunks. */
  function TaggedIn(tags: map<Pos, int>, worlds: set<string>, loaded: set<Chunk>): set<Pos>
  {
    set p | p in tags && p.world in worlds && ChunkOf(p) in loaded
  }

  /** The hologram stands of the named worlds that lie in loaded chunks. */
  function HologramsIn(ents: map<nat, Entity>, worlds: set<string>, loaded: set<Chunk>): set<nat>
  {
    set id | id in ents && IsPdmHologram(ents[id]) && ents[id].at.world in worlds && ChunkOf(ents[id].at) in loaded
  }

  /** The block map after every listed position was set to air. */
  function AirAt(blocks: map<Pos, Material>, ps: set<Pos>): map<Pos, Material>
  {
    map p | p in blocks.Keys + ps :: if p in ps then Air else blocks[p]
  }

  /**
   * `cleanupTombstoneBlocks`: collects the tagged blocks of the world's
   * loaded chunks (`loaded` is the set of chunks the server holds), then
   * sets each to air; returns how many were collected.
   */
  method CleanupTombstoneBlocks(w: World, world: string, loaded: set<Chunk>) returns (count: nat)
    requires w.Valid()
    modifies w
    ensures w.Valid()
    ensures count == |TaggedIn(old(w.tags), {world}, loaded)|
    ensures w.tags == old(w.tags) - TaggedIn(old(w.tags), {world}, loaded)
    ensures w.blocks == AirAt(old(w.blocks), TaggedIn(old(w.tags), {world}, loaded))
    ensures w.entities == old(w.entities) && w.nextEntity == old(w.nextEntity) && w.worlds == old(w.worlds)
  {
    var collected := TaggedIn(w.tags, {world}, loaded);
    ghost var tags0, blocks0 := w.tags, w.blocks;
    ghost var done: set<Pos> := {};
    var rest := collected;
    count := 0;
    while rest != {}
      invariant w.Valid()
      invariant rest <= collected && done == collected - rest
      invariant count == |done|
      invariant w.tags == tags0 - done && w.blocks == AirAt(blocks0, done)
      invariant w.entities == old(w.entities) && w.nextEntity == old(w.nextEntity) && w.worlds == old(w.worlds)
      decreases rest
    {
      var p :| p in rest;
      MoveOne(collected, rest, p);
      AirAtStep(blocks0, done, p);
      TagsStep(tags0, done, p);
      w.SetType(p, Air);
      rest, done := rest - {p}, done + {p};
      count := count + 1;
    }
    assert done == collected;
  }

  /**
   * `cleanupHologramEntities`: collects the hologram stands `getEntities`
   * sees, those in the world's loaded chunks, then removes each; returns
   * how many were collected.
   */
  method CleanupHologramEntities(w: World, world: string, loaded: set<Chunk>) returns (count: nat)
    requires w.Valid()
    modifies w
    ensures w.Valid()
    ensures count == |HologramsIn(old(w.entities), {world}, loaded)|
    ensures w.entities == old(w.entities) - HologramsIn(old(w.entities), {world}, loaded)
    ensures w.blocks == old(w.blocks) && w.tags == old(w.tags)
    ensures w.nextEntity == old(w.nextEntity) && w.worlds == old(w.worlds)
  {
    var collected := HologramsIn(w.entities, {world}, loaded);
    var rest := collected;
    count := 0;
    while rest != {}
      invariant w.Valid()
      invariant rest <= collected
      invariant count == |collected - rest|
      invariant w.entities == old(w.entities) - (collected - rest)
      invariant w.blocks == old(w.blocks) && w.tags == old(w.tags)
      invariant w.nextEntity == old(w.nextEntity) && w.worlds == old(w.worlds)
      decreases rest
    {
      var id :| id in rest;
      MoveOne(collected, rest, id);
      EntitiesStep(old(w.entities), collected - rest, id);
      w.RemoveEntity(id);
      rest := rest - {id};
      count := count + 1;
    }
    assert collected - rest == collected;
  }

  /**
   * `cleanupAllTombstoneEntities`: both sweeps over every loaded world; the
   * totals are the numbers of tagged blocks and hologram stands in the
   * loaded chunks of all of them. Blocks and stands of unloaded chunks stay.
   */
  method CleanupAllTombstoneEntities(w: World, loaded: set<Chunk>) returns (blocks: nat, holograms: nat)
    requires w.Valid()
    modifies w
    ensures w.Valid()
    ensures blocks == |TaggedIn(old(w.tags), old(w.worlds).Keys, loaded)|
    ensures holograms == |HologramsIn(old(w.entities), old(w.worlds).Keys, loaded)|
    ensures w.tags == old(w.tags) - TaggedIn(old(w.tags), old(w.worlds).Keys, loaded)
    ensures w.blocks == AirAt(old(w.blocks), TaggedIn(old(w.tags), old(w.worlds).Keys, loaded))
    ensures w.entities == old(w.entities) - HologramsIn(old(w.entities), old(w.worlds).Keys, loaded)
    ensures forall p :: p in old(w.tags) && ChunkOf(p) !in loaded ==> p in w.tags && w.tags[p] == old(w.tags)[p]
    ensures forall id :: id in old(w.entities) && ChunkOf(old(w.entities)[id].at) !in loaded ==> id in w.entities
    ensures w.nextEntity == old(w.nextEntity) && w.worlds == old(w.worlds)
  {
    var rest := w.worlds.Keys;
    ghost var worlds0, tags0, blocks0, ents0 := w.worlds.Keys, w.tags, w.blocks, w.entities;
    blocks, holograms := 0, 0;
    while rest != {}
      invariant w.Valid()
      invariant rest <= worlds0
      invariant SweptWorlds(w, loaded, tags0, blocks0, ents0, worlds0 - rest, blocks, holograms)
      invariant w.nextEntity == old(w.nextEntity) && w.worlds == old(w.worlds)
      decreases rest
    {
      var name :| name in rest;
      ghost var done := worlds0 - rest;
      var b, h := SweepWorld(w, name, loaded, tags0, blocks0, ents0, done, blocks, holograms);
      blocks, holograms := b, h;
      assert worlds0 - (rest - {name}) == done + {name};
      rest := rest - {name};
    }
    assert worlds0 - rest == worlds0;
  }

  /** The world after the sweeps of the worlds `done`, with the totals counted so far. */
  ghost predicate SweptWorlds(w: World, loaded: set<Chunk>, tags0: map<Pos, int>, blocks0: map<Pos, Material>, ents0: map<nat, Entity>,
                              done: set<string>, blocks: nat, holograms: nat)
    reads w
  {
    && blocks == |TaggedIn(tags0, done, loaded)|
    && holograms == |HologramsIn(ents0, done, loaded)|
    && w.tags == tags0 - TaggedIn(tags0, done, loaded)
    && w.blocks == AirAt(blocks0, TaggedIn(tags0, done, loaded))
    && w.entities == ents0 - HologramsIn(ents0, done, loaded)
  }

  /** One round of `cleanupAllTombstoneEntities`: both sweeps over one more world. */
  method SweepWorld(w: World, name: string, loaded: set<Chunk>, ghost tags0: map<Pos, int>, ghost blocks0: map<Pos, Material>,
                    ghost ents0: map<nat, Entity>, ghost done: set<string>, blocks: nat, holograms: nat)
    returns (blocks': nat, holograms': nat)
    requires w.Valid() && name !in done
    requires SweptWorlds(w, loaded, tags0, blocks0, ents0, done, blocks, holograms)
    modifies w
    ensures w.Valid()
    ensures SweptWorlds(w, loaded, tags0, blocks0, ents0, done + {name}, blocks', holograms')
    ensures w.nextEntity == old(w.nextEntity) && w.worlds == old(w.worlds)
  {
    SweepWorldTags(tags0, done, name, loaded);
    SweepWorldHolograms(ents0, done, name, loaded);
    AirAtTwice(blocks0, TaggedIn(tags0, done, loaded), TaggedIn(tags0, {name}, loaded));
    var b := CleanupTombstoneBlocks(w, name, loaded);
    var h := CleanupHologramEntities(w, name, loaded);
    blocks', holograms' := blocks + b, holograms + h;
  }

  /** Moving one element from the pending set to the handled set grows the handled set by one. */
  lemma MoveOne<T>(collected: set<T>, rest: set<T>, x: T)
    requires rest <= collected && x in rest
    ensures collected - (rest - {x}) == (collected - rest) + {x}
    ensures |collected - (rest - {x})| == |collected - rest| + 1
  {
    assert x !in collected - rest;
  }

  lemma AirAtStep(blocks: map<Pos, Material>, done: set<Pos>, p: Pos)
    ensures AirAt(blocks, done)[p := Air] == AirAt(blocks, done + {p})
  {
  }

  lemma AirAtTwice(blocks: map<Pos, Material>, a: set<Pos>, b: set<Pos>)
    ensures AirAt(AirAt(blocks, a), b) == AirAt(blocks, a + b)
  {
  }

  lemma TagsStep(tags: map<Pos, int>, done: set<Pos>, p: Pos)
    ensures (tags - done) - {p} == tags - (done + {p})
  {
  }

  lemma EntitiesStep(ents: map<nat, Entity>, done: set<nat>, id: nat)
    ensures (ents - done) - {id} == ents - (done + {id})
  {
  }

  /** Sweeping one more world's blocks: what remains of it is what it had, and the totals add up. */
  lemma SweepWorldTags(tags: map<Pos, int>, done: set<string>, name: string, loaded: set<Chunk>)
    requires name !in done
    ensures TaggedIn(tags - TaggedIn(tags, done, loaded), {name}, loaded) == TaggedIn(tags, {name}, loaded)
    ensures TaggedIn(tags, done + {name}, loaded) == TaggedIn(tags, done, loaded) + TaggedIn(tags, {name}, loaded)
    ensures |TaggedIn(tags, done + {name}, loaded)| == |TaggedIn(tags, done, loaded)| + |TaggedIn(tags, {name}, loaded)|
    ensures (tags - TaggedIn(tags, done, loaded)) - TaggedIn(tags, {name}, loaded) == tags - TaggedIn(tags, done + {name}, loaded)
  {
    assert TaggedIn(tags, done, loaded) * TaggedIn(tags, {name}, loaded) == {};
  }

  /** Sweeping one more world's hologram stands: the same for the entities. */
  lemma SweepWorldHolograms(ents: map<nat, Entity>, done: set<string>, name: string, loaded: set<Chunk>)
    requires name !in done
    ensures HologramsIn(ents - HologramsIn(ents, done, loaded), {name}, loaded) == HologramsIn(ents, {name}, loaded)
    ensures HologramsIn(ents, done + {name}, loaded) == HologramsIn(ents, done, loaded) + HologramsIn(ents, {name}, loaded)
    ensures |HologramsIn(ents, done + {name}, loaded)| == |HologramsIn(ents, done, loaded)| + |HologramsIn(ents, {name}, loaded)|
    ensures (ents - HologramsIn(ents, done, loaded)) - HologramsIn(ents, {name}, loaded) == ents - HologramsIn(ents, done + {name}, loaded)
  {
    assert HologramsIn(ents, done, loaded) * HologramsIn(ents, {name}, loaded) == {};
  }

  /**
   * `cleanupTombstoneEntitiesAt`: clears the block only when it carries the
   * tag, then, when the world is loaded, removes the hologram stands within
   * five blocks.
   */
  method CleanupTombstoneEntitiesAt(w: World, l: Location)
    requires w.Valid()
    modifies w
    ensures w.Valid()
    ensures old(IsTombstoneBlock(w, BlockOf(l))) ==> w.blocks == old(w.blocks)[BlockOf(l) := Air] && w.tags == old(w.tags) - {BlockOf(l)}
    ensures !old(IsTombstoneBlock(w, BlockOf(l))) ==> w.blocks == old(w.blocks) && w.tags == old(w.tags)
    ensures l.world in w.worlds ==>
      w.entities == old(w.entities) - (set id | id in old(w.entities) && IsPdmHologram(old(w.entities)[id]) && Near(old(w.entities)[id].at, BlockOf(l), 5))
    ensures l.world !in w.worlds ==> w.entities == old(w.entities)
    ensures w.nextEntity == old(w.nextEntity) && w.worlds == old(w.worlds)
  {
    var b := BlockOf(l);
    if IsTombstoneBlock(w, b) {
      w.SetType(b, Air);
    }
    if l.world in w.worlds {
      var nearby := set id | id in w.entities && IsPdmHologram(w.entities[id]) && Near(w.entities[id].at, b, 5);
      w.RemoveEntities(nearby);
    }
  }
}
