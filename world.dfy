/**
 * The part of the game world the plugin touches: block materials, the
 * tombstone-id tag that tile-state blocks carry in their persistent data
 * container, the entities (hologram armour stands) and the loaded worlds
 * with their build heights.
 */
module Worlds {
  import opened Common

  /** `World.getMinHeight()` and `World.getMaxHeight()`. */
  datatype Dims = Dims(minHeight: int, maxHeight: int)

  datatype EntityKind = ArmorStand | OtherEntity

  /**
   * A spawned entity: its kind, the block it was spawned at, the hologram
   * tag it carries (the tombstone id as text) and its custom name.
   */
  datatype Entity = Entity(kind: EntityKind, at: Pos, holoTag: Option<string>, name: string)

  class World {
    /** Block materials; a position that is absent holds air. */
    var blocks: map<Pos, Material>
    /** The tombstone-id tag of tile-state blocks. */
    var tags: map<Pos, int>
    /** Live entities by entity id; a removed (dead) entity is absent. */
    var entities: map<nat, Entity>
    var nextEntity: nat
    /** The worlds `Bukkit.getWorld` finds, by name. */
    var worlds: map<string, Dims>

    /** Only tile-state blocks carry tags, and entity ids are never reused. */
    ghost predicate Valid()
      reads this
    {
      (forall p :: p in tags ==> p in blocks && IsTileMaterial(blocks[p]))
      && (forall id :: id in entities ==> id < nextEntity)
    }

    constructor (dims: map<string, Dims>)
      ensures Valid()
      ensures blocks == map[] && tags == map[] && entities == map[] && worlds == dims
    {
      blocks := map[];
      tags := map[];
      entities := map[];
      nextEntity := 0;
      worlds := dims;
    }

    function BlockAt(p: Pos): (m: Material)
      reads this
      ensures p !in blocks ==> m == Air
      ensures p in blocks ==> m == blocks[p]
    {
      if p in blocks then blocks[p] else Air
    }

    /** The tombstone id stored on the block's tile state, if any. */
    function TagAt(p: Pos): (r: Option<int>)
      reads this
      ensures r.Some? <==> p in tags
      ensures r.Some? ==> r.value == tags[p]
    {
      if p in tags then Some(tags[p]) else None
    }

    /** `Block.setType`: the new block gets a fresh tile state, so any tag is lost. */
    method SetType(p: Pos, m: Material)
      requires Valid()
      modifies this
      ensures Valid()
      ensures blocks == old(blocks)[p := m]
      ensures tags == old(tags) - {p}
      ensures entities == old(entities) && nextEntity == old(nextEntity) && worlds == old(worlds)
    {
      blocks := blocks[p := m];
      tags := tags - {p};
    }

    /** Writes the tombstone id into the persistent data of a tile-state block. */
    method SetTag(p: Pos, id: int)
      requires Valid()
      requires IsTileMaterial(BlockAt(p))
      modifies this
      ensures Valid()
      ensures tags == old(tags)[p := id]
      ensures blocks == old(blocks) && entities == old(entities)
      ensures nextEntity == old(nextEntity) && worlds == old(worlds)
    {
      tags := tags[p := id];
    }

    method Spawn(e: Entity) returns (id: nat)
      requires Valid()
      modifies this
      ensures Valid()
      ensures id !in old(entities) && id == old(nextEntity)
      ensures entities == old(entities)[id := e] && nextEntity == old(nextEntity) + 1
      ensures blocks == old(blocks) && tags == old(tags) && worlds == old(worlds)
    {
      id := nextEntity;
      entities := entities[id := e];
      nextEntity := nextEntity + 1;
    }

    /** `Entity.remove()`; removing an entity that is already dead changes nothing. */
    method RemoveEntity(id: nat)
      requires Valid()
      modifies this
      ensures Valid()
      ensures entities == old(entities) - {id}
      ensures blocks == old(blocks) && tags == old(tags)
      ensures nextEntity == old(nextEntity) && worlds == old(worlds)
    {
      entities := entities - {id};
    }

    /** Removes every listed entity, one at a time. */
    method RemoveEntities(ids: set<nat>)
      requires Valid()
      modifies this
      ensures Valid()
      ensures entities == old(entities) - ids
      ensures blocks == old(blocks) && tags == old(tags)
      ensures nextEntity == old(nextEntity) && worlds == old(worlds)
    {
      var rest := ids;
      while rest != {}
        invariant Valid()
        invariant rest <= ids
        invariant entities == old(entities) - (ids - rest)
        invariant blocks == old(blocks) && tags == old(tags)
        invariant nextEntity == old(nextEntity) && worlds == old(worlds)
        decreases rest
      {
        var id :| id in rest;
        RemoveEntity(id);
        rest := rest - {id};
      }
    }

    /** `ArmorStand.setCustomName`. */
    method Rename(id: nat, name: string)
      requires Valid()
      requires id in entities
      modifies this
      ensures Valid()
      ensures entities == old(entities)[id := old(entities)[id].(name := name)]
      ensures blocks == old(blocks) && tags == old(tags)
      ensures nextEntity == old(nextEntity) && worlds == old(worlds)
    {
      entities := entities[id := entities[id].(name := name)];
    }
  }
}
