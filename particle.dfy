/**
 * Tombstone particle effects: one repeating task per tombstone block. The
 * scheduler is abstract: a task is a number, starting one takes the next
 * number and cancelling one adds it to the cancelled set.
 */
module ParticleUtil {
  import opened Common
  import opened Tombstones

  const DEFAULT_PARTICLE := "SOUL"

  /**
   * `getParticleType`: the configured name in upper case when it names a
   * particle, otherwise `SOUL`. `particles` are the names of the particle
   * constants.
   */
  function ParticleType(name: string, particles: set<string>): (r: string)
    ensures Upper(name) in particles ==> r == Upper(name)
    ensures Upper(name) !in particles ==> r == DEFAULT_PARTICLE
  {
    if Upper(name) in particles then Upper(name) else DEFAULT_PARTICLE
  }

  /** The chosen particle is always a particle constant, given that `SOUL` is one. */
  lemma ParticleTypeIsParticle(name: string, particles: set<string>)
    requires DEFAULT_PARTICLE in particles
    ensures ParticleType(name, particles) in particles
  {
  }

  /** The lookup ignores the case of ASCII letters. */
  lemma ParticleTypeIgnoresCase(a: string, b: string, particles: set<string>)
    requires Upper(a) == Upper(b)
    ensures ParticleType(a, particles) == ParticleType(b, particles)
  {
  }

  class Particles {
    /** The running task of each tombstone block. */
    var tasks: map<Pos, nat>
    var nextTask: nat
    var cancelled: set<nat>

    /**
     * Every running task was started here, belongs to one block only and
     * has not been cancelled; only started tasks are ever cancelled.
     */
    ghost predicate Valid()
      reads this
    {
      (forall p :: p in tasks ==> tasks[p] < nextTask && tasks[p] !in cancelled)
      && (forall p, q :: p in tasks && q in tasks && p != q ==> tasks[p] != tasks[q])
      && (forall c :: c in cancelled ==> c < nextTask)
    }

    constructor ()
      ensures Valid()
      ensures tasks == map[] && cancelled == {}
    {
      tasks := map[];
      nextTask := 0;
      cancelled := {};
    }

    predicate HasParticleEffect(p: Pos)
      reads this
    {
      p in tasks
    }

    function ActiveEffectCount(): nat
      reads this
    {
      |tasks|
    }

    /** `removeParticleEffect`: cancels and forgets the task of the block, if there is one. */
    method RemoveParticleEffect(p: Pos)
      requires Valid()
      modifies this
      ensures Valid()
      ensures tasks == old(tasks) - {p} && !HasParticleEffect(p)
      ensures cancelled == old(cancelled) + (if p in old(tasks) then {old(tasks)[p]} else {})
      ensures nextTask == old(nextTask)
    {
      if p in tasks {
        var task := tasks[p];
        tasks := tasks - {p};
        cancelled := cancelled + {task};
      }
    }

    /**
     * `createParticleEffect`: nothing when disabled; otherwise any running
     * task of the block is cancelled first and a new one takes its place.
     */
    method CreateParticleEffect(enabled: bool, t: PlayerTombstone)
      requires Valid()
      modifies this
      ensures Valid()
      ensures !enabled ==> tasks == old(tasks) && cancelled == old(cancelled) && nextTask == old(nextTask)
      ensures enabled ==> tasks == old(tasks)[BlockPos(t.info) := old(nextTask)] && nextTask == old(nextTask) + 1
      ensures enabled ==>
        cancelled == old(cancelled) + (if BlockPos(t.info) in old(tasks) then {old(tasks)[BlockPos(t.info)]} else {})
      ensures enabled ==> HasParticleEffect(BlockPos(t.info)) && old(nextTask) !in cancelled
    {
      if !enabled {
        return;
      }
      var p := BlockPos(t.info);
      RemoveParticleEffect(p);
      tasks := tasks[p := nextTask];
      nextTask := nextTask + 1;
    }

    /** `shutdown`: cancels every task and clears the map. */
    method Shutdown()
      requires Valid()
      modifies this
      ensures Valid()
      ensures tasks == map[] && ActiveEffectCount() == 0
      ensures cancelled == old(cancelled) + old(tasks).Values
      ensures nextTask == old(nextTask)
    {
      var rest := tasks.Keys;
      while rest != {}
        invariant rest <= tasks.Keys
        invariant tasks == old(tasks) && nextTask == old(nextTask)
        invariant cancelled == old(cancelled) + (set p | p in tasks.Keys - rest :: tasks[p])
        decreases rest
      {
        var p :| p in rest;
        cancelled := cancelled + {tasks[p]};
        assert tasks.Keys - (rest - {p}) == (tasks.Keys - rest) + {p};
        rest := rest - {p};
      }
      assert tasks.Keys - rest == tasks.Keys;
      assert (set p | p in tasks.Keys :: tasks[p]) == tasks.Values;
      tasks := map[];
    }
  }
}
