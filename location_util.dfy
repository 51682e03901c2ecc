/**
 * Location helpers: the replaceable-block set, the vertical bounds of a
 * world, the safe-spot test and the ring-ordered search around a centre,
 * block-level location comparison and the location text.
 */
module LocationUtil {
  import opened Common
  import opened Worlds

  /** `isReplaceable`: plain air (not cave or void air), fluids, the small plants and snow. */
  predicate IsReplaceable(m: Material)
  {
    m == Air || m == Water || m == Lava || m == TallGrass || m == Grass || m == Fern || m == DeadBush || m == Snow
  }

  /** `isWithinWorldBounds`: the world exists and the block is at least two below the build limit. */
  predicate IsWithinWorldBounds(w: World, l: Location)
    reads w
  {
    l.world in w.worlds && w.worlds[l.world].minHeight <= BlockOf(l).y <= w.worlds[l.world].maxHeight - 2
  }

  /** `isSafeLocation`: the block and the one above it are replaceable, inside the bounds. */
  predicate IsSafeLocation(w: World, l: Location)
    reads w
  {
    l.world in w.worlds
    && IsReplaceable(w.BlockAt(BlockOf(l)))
    && IsReplaceable(w.BlockAt(Offset(BlockOf(l), 0, 1, 0)))
    && IsWithinWorldBounds(w, l)
  }

  /** A safe spot is never at the top two layers, so there is room for the block above. */
  lemma SafeIsBelowTop(w: World, l: Location)
    requires IsSafeLocation(w, l)
    ensures BlockOf(l).y + 1 < w.worlds[l.world].maxHeight
  {
  }

  // ---------------------------------------------------------------------
  // Ring search

  /** A probe of the ring search: ring `r`, column offset `dx`, `dz`, then height offset `dy`. */
  datatype Probe = Probe(r: int, dx: int, dz: int, dy: int)

  function Abs(a: int): int
  {
    if a < 0 then -a else a
  }

  /** The probes the search makes: only cells on the border of each square ring, five heights each. */
  predicate OnRing(radius: int, c: Probe)
  {
    0 <= c.r <= radius && -c.r <= c.dx <= c.r && -c.r <= c.dz <= c.r
    && (Abs(c.dx) == c.r || Abs(c.dz) == c.r) && -2 <= c.dy <= 2
  }

  /** The search order: ring, then `dx`, then `dz`, then `dy`, each ascending. */
  predicate Before(a: Probe, b: Probe)
  {
    a.r < b.r
    || (a.r == b.r && (a.dx < b.dx
    || (a.dx == b.dx && (a.dz < b.dz
    || (a.dz == b.dz && a.dy < b.dy)))))
  }

  /** The block a probe tests: the centre block shifted by the offsets. */
  function ProbePos(center: Location, c: Probe): Pos
  {
    var b := BlockOf(center);
    Pos(center.world, b.x + c.dx, b.y + c.dy, b.z + c.dz)
  }

  /** The location of that block, as the search returns it. */
  function ProbeLocation(center: Location, c: Probe): Location
  {
    BlockLocation(ProbePos(center, c))
  }

  /** `isSafeLocation` stated on a block. */
  predicate SafeAt(w: World, p: Pos)
    reads w
  {
    p.world in w.worlds
    && IsReplaceable(w.BlockAt(p))
    && IsReplaceable(w.BlockAt(Offset(p, 0, 1, 0)))
    && w.worlds[p.world].minHeight <= p.y <= w.worlds[p.world].maxHeight - 2
  }

  predicate SafeProbe(w: World, center: Location, c: Probe)
    reads w
  {
    SafeAt(w, ProbePos(center, c))
  }

  /** A probe is safe exactly when `isSafeLocation` accepts the location the search would return for it. */
  lemma SafeProbeMeans(w: World, center: Location, c: Probe)
    ensures SafeProbe(w, center, c) <==> IsSafeLocation(w, ProbeLocation(center, c))
  {
    assert BlockOf(ProbeLocation(center, c)) == ProbePos(center, c);
  }

  /** No probe the search makes before `b` finds a safe cell. */
  ghost predicate NoneSafeBefore(w: World, center: Location, radius: int, b: Probe)
    reads w
  {
    forall c :: OnRing(radius, c) && Before(c, b) ==> !SafeProbe(w, center, c)
  }

  /**
   * `findSafeNearbyLocation`: the first safe probe in search order, or
   * `None` when the world is missing or no probe is safe.
   */
  method FindSafeNearbyLocation(w: World, center: Location, radius: int) returns (r: Option<Location>)
    ensures center.world !in w.worlds ==> r.None?
    ensures r.Some? ==> exists c :: OnRing(radius, c) && r.value == ProbeLocation(center, c)
                                    && SafeProbe(w, center, c) && NoneSafeBefore(w, center, radius, c)
    ensures r.None? ==> forall c :: OnRing(radius, c) ==> !SafeProbe(w, center, c)
    ensures r.Some? ==> IsSafeLocation(w, r.value)
  {
    if center.world !in w.worlds {
      return None;
    }
    var ring := 0;
    while ring <= radius
      invariant 0 <= ring
      invariant radius >= 0 ==> ring <= radius + 1
      invariant forall c :: OnRing(radius, c) && c.r < ring ==> !SafeProbe(w, center, c)
    {
      var found := ScanRing(w, center, radius, ring);
      if found.Some? {
        SafeProbeMeans(w, center, found.value);
        return Some(ProbeLocation(center, found.value));
      }
      ring := ring + 1;
    }
    return None;
  }

  /** One ring: the rows in `dx` order. */
  method ScanRing(w: World, center: Location, radius: int, ring: int) returns (found: Option<Probe>)
    requires 0 <= ring <= radius
    requires forall c :: OnRing(radius, c) && c.r < ring ==> !SafeProbe(w, center, c)
    ensures found.Some? ==> OnRing(radius, found.value) && SafeProbe(w, center, found.value)
                            && NoneSafeBefore(w, center, radius, found.value)
    ensures found.None? ==> forall c :: OnRing(radius, c) && c.r == ring ==> !SafeProbe(w, center, c)
  {
    var dx := -ring;
    while dx <= ring
      invariant -ring <= dx <= ring + 1
      invariant forall c :: OnRing(radius, c) && c.r == ring && c.dx < dx ==> !SafeProbe(w, center, c)
    {
      var hit := ScanRow(w, center, radius, ring, dx);
      if hit.Some? {
        return hit;
      }
      dx := dx + 1;
    }
    return None;
  }

  /** One row of a ring: the columns in `dz` order; columns strictly inside the ring are skipped. */
  method ScanRow(w: World, center: Location, radius: int, ring: int, dx: int) returns (found: Option<Probe>)
    requires 0 <= ring <= radius && -ring <= dx <= ring
    requires forall c :: OnRing(radius, c) && (c.r < ring || (c.r == ring && c.dx < dx)) ==> !SafeProbe(w, center, c)
    ensures found.Some? ==> OnRing(radius, found.value) && SafeProbe(w, center, found.value)
                            && NoneSafeBefore(w, center, radius, found.value)
    ensures found.None? ==> forall c :: OnRing(radius, c) && c.r == ring && c.dx == dx ==> !SafeProbe(w, center, c)
  {
    var dz := -ring;
    while dz <= ring
      invariant -ring <= dz <= ring + 1
      invariant forall c :: OnRing(radius, c) && c.r == ring && c.dx == dx && c.dz < dz ==> !SafeProbe(w, center, c)
    {
      if Abs(dx) != ring && Abs(dz) != ring && ring > 0 {
        dz := dz + 1;
        continue;
      }
      var hit := ScanColumn(w, center, ring, dx, dz);
      if hit.Some? {
        var c := Probe(ring, dx, dz, hit.value);
        assert OnRing(radius, c);
        FirstSafeProbe(w, center, radius, c);
        return Some(c);
      }
      dz := dz + 1;
    }
    return None;
  }

  /** A safe probe with nothing safe earlier in its ring, row or column is the first in search order. */
  lemma FirstSafeProbe(w: World, center: Location, radius: int, c: Probe)
    requires forall b :: OnRing(radius, b) && (b.r < c.r || (b.r == c.r && b.dx < c.dx)) ==> !SafeProbe(w, center, b)
    requires forall b :: OnRing(radius, b) && b.r == c.r && b.dx == c.dx && b.dz < c.dz ==> !SafeProbe(w, center, b)
    requires forall dy :: -2 <= dy < c.dy ==> !SafeProbe(w, center, Probe(c.r, c.dx, c.dz, dy))
    ensures NoneSafeBefore(w, center, radius, c)
  {
    forall b | OnRing(radius, b) && Before(b, c)
      ensures !SafeProbe(w, center, b)
    {
      if b.r == c.r && b.dx == c.dx && b.dz == c.dz {
        assert b == Probe(c.r, c.dx, c.dz, b.dy);
      }
    }
  }

  /** One column: heights `dy` from -2 to 2; the first safe height, if any. */
  method ScanColumn(w: World, center: Location, ring: int, dx: int, dz: int) returns (hit: Option<int>)
    ensures hit.Some? ==> -2 <= hit.value <= 2 && SafeProbe(w, center, Probe(ring, dx, dz, hit.value))
    ensures hit.Some? ==> forall dy :: -2 <= dy < hit.value ==> !SafeProbe(w, center, Probe(ring, dx, dz, dy))
    ensures hit.None? ==> forall dy :: -2 <= dy <= 2 ==> !SafeProbe(w, center, Probe(ring, dx, dz, dy))
  {
    var dy := -2;
    while dy <= 2
      invariant -2 <= dy <= 3
      invariant forall d :: -2 <= d < dy ==> !SafeProbe(w, center, Probe(ring, dx, dz, d))
    {
      if SafeProbe(w, center, Probe(ring, dx, dz, dy)) {
        return Some(dy);
      }
      dy := dy + 1;
    }
    return None;
  }

  // ---------------------------------------------------------------------
  // Comparison and text

  /** `isSameBlockLocation`: same world and same block coordinates. */
  predicate IsSameBlockLocation(a: Location, b: Location)
  {
    a.world == b.world && a.x.Floor == b.x.Floor && a.y.Floor == b.y.Floor && a.z.Floor == b.z.Floor
  }

  /** Two locations are the same block location exactly when they lie in the same block. */
  lemma SameBlockIffSameBlockOf(a: Location, b: Location)
    ensures IsSameBlockLocation(a, b) <==> BlockOf(a) == BlockOf(b)
  {
  }

  /** Comparing at block level ignores the view direction and the position inside the block. */
  lemma SameBlockOfBlockLocation(l: Location)
    ensures IsSameBlockLocation(l, BlockLocation(BlockOf(l)))
  {
  }

  /** `formatLocation`: "world: x, y, z" with block coordinates. */
  function FormatLocation(l: Location): (s: string)
    ensures s == l.world + ": " + IntToString(l.x.Floor) + ", " + IntToString(l.y.Floor) + ", " + IntToString(l.z.Floor)
    ensures StartsWith(s, l.world + ": ")
  {
    var b := BlockOf(l);
    l.world + ": " + IntToString(b.x) + ", " + IntToString(b.y) + ", " + IntToString(b.z)
  }
}
