// Mass properties computed by the RigidBody constructor: total mass, centre
// of mass, recentred block positions, rotational inertia and the pinning test.

module MassProperties {
  import opened Vectors
  import opened Blocks

  // ---------------------------------------------------------------------
  // Specification functions (sums taken in list order)
  // ---------------------------------------------------------------------

  /** Sum of the blocks' colour masses. */
  function Mass(bs: seq<Block>): real
  {
    if bs == [] then 0.0 else Mass(bs[..|bs| - 1]) + bs[|bs| - 1].colourMass
  }

  /** Sum of mass times grid coordinates (column, row, layer). */
  function FirstMoment(bs: seq<Block>): Vec3
  {
    if bs == [] then Zero
    else Add(FirstMoment(bs[..|bs| - 1]), Scale(bs[|bs| - 1].colourMass, Grid(bs[|bs| - 1])))
  }

  function TotalMass(blocks: seq<Block>, boundaryBlocks: seq<Block>): real
  {
    Mass(blocks) + Mass(boundaryBlocks)
  }

  /** The centre of mass x0: the x and y moments are summed over both lists,
      the z moment over the interior blocks only, and all three are scaled by
      the reciprocal of the total mass of both lists. */
  function CentreOfMass(blocks: seq<Block>, boundaryBlocks: seq<Block>): Vec3
    requires |blocks| + |boundaryBlocks| > 0
  {
    TotalMassPositive(blocks, boundaryBlocks);
    var inner, outer := FirstMoment(blocks), FirstMoment(boundaryBlocks);
    Scale(1.0 / TotalMass(blocks, boundaryBlocks), Vec3(inner.x + outer.x, inner.y + outer.y, inner.z))
  }

  /** Sum of mass times squared distance from the centre. */
  function InertiaSum(bs: seq<Block>, centre: Vec3): real
  {
    if bs == [] then 0.0
    else InertiaSum(bs[..|bs| - 1], centre) + bs[|bs| - 1].colourMass * NormSq(Sub(Grid(bs[|bs| - 1]), centre))
  }

  /** The inertia rule about a given centre: the inertia sum over both lists,
      replaced by mass * 3 / 12 of the single block when the interior list has
      exactly one element, whatever the boundary blocks are. */
  function InertiaAbout(blocks: seq<Block>, boundaryBlocks: seq<Block>, centre: Vec3): real
  {
    if |blocks| == 1 then blocks[0].colourMass * 3.0 / 12.0
    else InertiaSum(blocks, centre) + InertiaSum(boundaryBlocks, centre)
  }

  /** massAngular: the inertia rule about the centre of mass. */
  function MomentOfInertia(blocks: seq<Block>, boundaryBlocks: seq<Block>): real
    requires |blocks| + |boundaryBlocks| > 0
  {
    InertiaAbout(blocks, boundaryBlocks, CentreOfMass(blocks, boundaryBlocks))
  }

  /** Every block's body-local position is its grid position minus the centre. */
  ghost predicate Recentred(bs: seq<Block>, centre: Vec3)
    reads bs
  {
    forall n :: 0 <= n < |bs| ==> bs[n].pB == Sub(Grid(bs[n]), centre)
  }

  /** Sum of mass times body-local position. */
  ghost function BodyMoment(bs: seq<Block>): Vec3
    reads bs
  {
    if bs == [] then Zero
    else Add(BodyMoment(bs[..|bs| - 1]), Scale(bs[|bs| - 1].colourMass, bs[|bs| - 1].pB))
  }

  // ---------------------------------------------------------------------
  // The constructor's loops
  // ---------------------------------------------------------------------

  /** The first two loops of the constructor: total mass and centre of mass. */
  method ComputeMassAndCentre(blocks: seq<Block>, boundaryBlocks: seq<Block>) returns (massLinear: real, x0: Vec3)
    requires |blocks| + |boundaryBlocks| > 0
    ensures massLinear == TotalMass(blocks, boundaryBlocks)
    ensures x0 == CentreOfMass(blocks, boundaryBlocks)
  {
    massLinear := 0.0;
    var sum := Zero;
    for n := 0 to |blocks|
      invariant massLinear == Mass(blocks[..n])
      invariant sum == FirstMoment(blocks[..n])
    {
      var b := blocks[n];
      var mass := b.colourMass;
      massLinear := massLinear + mass;
      sum := Vec3(sum.x + b.j as real * mass, sum.y + b.i as real * mass, sum.z + b.k as real * mass);
      assert blocks[..n + 1][..n] == blocks[..n];
    }
    assert blocks[..|blocks|] == blocks;
    ghost var inner := sum;
    for n := 0 to |boundaryBlocks|
      invariant massLinear == Mass(blocks) + Mass(boundaryBlocks[..n])
      invariant sum.x == inner.x + FirstMoment(boundaryBlocks[..n]).x
      invariant sum.y == inner.y + FirstMoment(boundaryBlocks[..n]).y
      invariant sum.z == inner.z
    {
      var b := boundaryBlocks[n];
      var mass := b.colourMass;
      massLinear := massLinear + mass;
      sum := Vec3(sum.x + b.j as real * mass, sum.y + b.i as real * mass, sum.z);
      assert boundaryBlocks[..n + 1][..n] == boundaryBlocks[..n];
    }
    assert boundaryBlocks[..|boundaryBlocks|] == boundaryBlocks;
    TotalMassPositive(blocks, boundaryBlocks);
    x0 := Scale(1.0 / massLinear, sum);
  }

  /** The recentring loops: pB := (j, i, k) - x0 for every block, in place. */
  method Recentre(bs: seq<Block>, centre: Vec3)
    modifies bs
    ensures Recentred(bs, centre)
    ensures forall b :: b in bs ==> b.pB == Sub(Grid(b), centre)
  {
    for n := 0 to |bs|
      invariant forall p :: 0 <= p < n ==> bs[p].pB == Sub(Grid(bs[p]), centre)
    {
      var b := bs[n];
      b.pB := Vec3(b.j as real - centre.x, b.i as real - centre.y, b.k as real - centre.z);
    }
  }

  /** Recentring moves every block by the same offset, so blocks in distinct
      grid cells keep distinct body-local positions. */
  lemma RecentredDistinct(bs: seq<Block>, centre: Vec3)
    requires Recentred(bs, centre) && DistinctGrid(bs)
    ensures DistinctPositions(bs)
  {
    forall p, q | 0 <= p < q < |bs|
      ensures bs[p].pB != bs[q].pB
    {
      var gp, gq := Grid(bs[p]), Grid(bs[q]);
      assert gp.x != gq.x || gp.y != gq.y || gp.z != gq.z;
    }
  }

  /** The inertia loops over the recentred positions, then the single-block
      fallback. */
  method ComputeInertia(blocks: seq<Block>, boundaryBlocks: seq<Block>, ghost centre: Vec3) returns (massAngular: real)
    requires Recentred(blocks, centre) && Recentred(boundaryBlocks, centre)
    ensures massAngular == InertiaAbout(blocks, boundaryBlocks, centre)
  {
    massAngular := AccumulateInertia(0.0, blocks, centre);
    massAngular := AccumulateInertia(massAngular, boundaryBlocks, centre);
    if |blocks| == 1 {
      massAngular := blocks[0].colourMass * 3.0 / 12.0;
    }
  }

  /** One inertia loop: adds mass times |pB|^2 of every block to a running total. */
  method AccumulateInertia(start: real, bs: seq<Block>, ghost centre: Vec3) returns (total: real)
    requires Recentred(bs, centre)
    ensures total == start + InertiaSum(bs, centre)
  {
    total := start;
    for n := 0 to |bs|
      invariant total == start + InertiaSum(bs[..n], centre)
    {
      var b := bs[n];
      assert b.pB == Sub(Grid(b), centre);
      total := total + b.colourMass * NormSq(b.pB);
      InertiaSumStep(bs, n, centre);
    }
    assert bs[..|bs|] == bs;
  }

  lemma InertiaSumStep(bs: seq<Block>, n: int, centre: Vec3)
    requires 0 <= n < |bs|
    ensures InertiaSum(bs[..n + 1], centre) == InertiaSum(bs[..n], centre) + bs[n].colourMass * NormSq(Sub(Grid(bs[n]), centre))
  {
    assert bs[..n + 1][..n] == bs[..n];
  }

  /** isAllBlueBlocks: a search that stops at the first block that is not blue. */
  method IsAllBlueBlocks(blocks: seq<Block>) returns (allBlue: bool)
    ensures allBlue == AllBlue(blocks)
  {
    for n := 0 to |blocks|
      invariant AllBlue(blocks[..n])
    {
      if !IsBlue(blocks[n].c) {
        assert !AllBlue(blocks);
        return false;
      }
    }
    assert blocks[..|blocks|] == blocks;
    return true;
  }

  // ---------------------------------------------------------------------
  // Properties
  // ---------------------------------------------------------------------

  lemma {:induction false} MassPositive(bs: seq<Block>)
    requires |bs| > 0
    ensures Mass(bs) > 0.0
  {
    if |bs| > 1 {
      MassPositive(bs[..|bs| - 1]);
    }
  }

  lemma TotalMassPositive(blocks: seq<Block>, boundaryBlocks: seq<Block>)
    requires |blocks| + |boundaryBlocks| > 0
    ensures TotalMass(blocks, boundaryBlocks) > 0.0
  {
    if |blocks| > 0 { MassPositive(blocks); }
    if |boundaryBlocks| > 0 { MassPositive(boundaryBlocks); }
  }

  // The arithmetic behind the properties below, stated over plain values so
  // that the solver never meets it next to the recursive sums.

  /** Multiplying a centroid back by its total gives the moments. */
  lemma CentroidTimesTotal(total: real, moment: Vec3)
    requires total != 0.0
    ensures total * Scale(1.0 / total, moment).x == moment.x
    ensures total * Scale(1.0 / total, moment).y == moment.y
    ensures total * Scale(1.0 / total, moment).z == moment.z
  {
    assert total * (1.0 / total) == 1.0;
    assert total * ((1.0 / total) * moment.x) == (total * (1.0 / total)) * moment.x;
    assert total * ((1.0 / total) * moment.y) == (total * (1.0 / total)) * moment.y;
    assert total * ((1.0 / total) * moment.z) == (total * (1.0 / total)) * moment.z;
  }

  lemma SpanOfCentroid(mi: real, mo: real, fi: Vec3, fo: Vec3, a: Axis, lo: real, hi: real)
    requires mi + mo > 0.0 && a != Z
    requires MomentWithin(Coord(fi, a), mi, lo, hi) && MomentWithin(Coord(fo, a), mo, lo, hi)
    ensures lo <= Coord(Scale(1.0 / (mi + mo), Vec3(fi.x + fo.x, fi.y + fo.y, fi.z)), a) <= hi
  {
    assert lo * (mi + mo) == lo * mi + lo * mo;
    assert hi * (mi + mo) == hi * mi + hi * mo;
    CentroidBounds(mi + mo, Coord(fi, a) + Coord(fo, a), lo, hi);
  }

  /** Recentring both lists about their centre of mass leaves their moments
      summing to zero, except the z moment the centre leaves out. */
  lemma Balance(mi: real, mo: real, fi: Vec3, fo: Vec3, c: Vec3)
    requires mi + mo > 0.0
    requires c == Scale(1.0 / (mi + mo), Vec3(fi.x + fo.x, fi.y + fo.y, fi.z))
    ensures Add(Sub(fi, Scale(mi, c)), Sub(fo, Scale(mo, c))) == Vec3(0.0, 0.0, fo.z)
  {
    CentroidTimesTotal(mi + mo, Vec3(fi.x + fo.x, fi.y + fo.y, fi.z));
    assert mi * c.x + mo * c.x == (mi + mo) * c.x;
    assert mi * c.y + mo * c.y == (mi + mo) * c.y;
    assert mi * c.z + mo * c.z == (mi + mo) * c.z;
  }

  lemma MomentStep(body: Vec3, first: Vec3, mass: real, m: real, g: Vec3, c: Vec3)
    requires body == Sub(first, Scale(mass, c))
    ensures Add(body, Scale(m, Sub(g, c))) == Sub(Add(first, Scale(m, g)), Scale(mass + m, c))
  {
    MomentComponent(body.x, first.x, mass, m, g.x, c.x);
    MomentComponent(body.y, first.y, mass, m, g.y, c.y);
    MomentComponent(body.z, first.z, mass, m, g.z, c.z);
  }

  lemma MomentComponent(body: real, first: real, mass: real, m: real, g: real, c: real)
    requires body == first - mass * c
    ensures body + m * (g - c) == (first + m * g) - (mass + m) * c
  {
    assert m * (g - c) == m * g - m * c;
    assert (mass + m) * c == mass * c + m * c;
  }

  /** A moment that a mass spread over [lo, hi] can have. */
  predicate MomentWithin(moment: real, mass: real, lo: real, hi: real)
  {
    lo * mass <= moment <= hi * mass
  }

  lemma BoundsStep(first: Vec3, mass: real, m: real, g: Vec3, a: Axis, lo: real, hi: real)
    requires MomentWithin(Coord(first, a), mass, lo, hi)
    requires m > 0.0 && lo <= Coord(g, a) <= hi
    ensures MomentWithin(Coord(Add(first, Scale(m, g)), a), mass + m, lo, hi)
  {
    var q := Coord(g, a);
    assert Coord(Add(first, Scale(m, g)), a) == Coord(first, a) + m * q;
    assert m * (q - lo) >= 0.0 && m * (hi - q) >= 0.0;
    assert lo * (mass + m) == lo * mass + m * lo;
    assert hi * (mass + m) == hi * mass + m * hi;
  }

  lemma CentroidBounds(total: real, moment: real, lo: real, hi: real)
    requires total > 0.0 && MomentWithin(moment, total, lo, hi)
    ensures lo <= (1.0 / total) * moment <= hi
  {
    var c := (1.0 / total) * moment;
    assert total * c == moment by {
      assert total * (1.0 / total) == 1.0;
      assert total * ((1.0 / total) * moment) == (total * (1.0 / total)) * moment;
    }
  }

  /** The body moment of recentred blocks is their grid moment minus their
      mass times the centre. */
  lemma {:induction false} RecentredMoment(bs: seq<Block>, centre: Vec3)
    requires Recentred(bs, centre)
    ensures BodyMoment(bs) == Sub(FirstMoment(bs), Scale(Mass(bs), centre))
  {
    if bs != [] {
      var front, b := bs[..|bs| - 1], bs[|bs| - 1];
      assert Recentred(front, centre) by {
        forall n | 0 <= n < |front| ensures front[n].pB == Sub(Grid(front[n]), centre) {
          assert front[n] == bs[n];
        }
      }
      RecentredMoment(front, centre);
      MomentStep(BodyMoment(front), FirstMoment(front), Mass(front), b.colourMass, Grid(b), centre);
    } else {
      assert Scale(0.0, centre) == Zero;
    }
  }

  /** After construction the mass-weighted body-local positions of both lists
      sum to zero in x and y; in z they sum to the boundary blocks' layer
      moment, because x0.z leaves the boundary blocks out of the numerator
      but not out of the total mass. */
  lemma RecentredMomentsVanish(blocks: seq<Block>, boundaryBlocks: seq<Block>)
    requires |blocks| + |boundaryBlocks| > 0
    requires Recentred(blocks, CentreOfMass(blocks, boundaryBlocks))
    requires Recentred(boundaryBlocks, CentreOfMass(blocks, boundaryBlocks))
    ensures Add(BodyMoment(blocks), BodyMoment(boundaryBlocks)) == Vec3(0.0, 0.0, FirstMoment(boundaryBlocks).z)
  {
    var c := CentreOfMass(blocks, boundaryBlocks);
    RecentredMoment(blocks, c);
    RecentredMoment(boundaryBlocks, c);
    TotalMassPositive(blocks, boundaryBlocks);
    Balance(Mass(blocks), Mass(boundaryBlocks), FirstMoment(blocks), FirstMoment(boundaryBlocks), c);
  }

  /** When every block lies in [lo, hi] along an axis, the mass-weighted
      moment along it lies between lo and hi times the mass. */
  lemma {:induction false} MomentBounds(bs: seq<Block>, a: Axis, lo: real, hi: real)
    requires forall n :: 0 <= n < |bs| ==> lo <= Coord(Grid(bs[n]), a) <= hi
    ensures MomentWithin(Coord(FirstMoment(bs), a), Mass(bs), lo, hi)
  {
    if bs != [] {
      var front, b := bs[..|bs| - 1], bs[|bs| - 1];
      assert forall n :: 0 <= n < |front| ==> front[n] == bs[n];
      MomentBounds(front, a, lo, hi);
      BoundsStep(FirstMoment(front), Mass(front), b.colourMass, Grid(b), a, lo, hi);
    }
  }

  /** Along x and y the centre of mass lies within any span that holds the
      grid coordinates of the blocks of both lists. */
  lemma CentreWithinSpan(blocks: seq<Block>, boundaryBlocks: seq<Block>, a: Axis, lo: real, hi: real)
    requires |blocks| + |boundaryBlocks| > 0
    requires a != Z
    requires forall n :: 0 <= n < |blocks| ==> lo <= Coord(Grid(blocks[n]), a) <= hi
    requires forall n :: 0 <= n < |boundaryBlocks| ==> lo <= Coord(Grid(boundaryBlocks[n]), a) <= hi
    ensures lo <= Coord(CentreOfMass(blocks, boundaryBlocks), a) <= hi
  {
    MomentBounds(blocks, a, lo, hi);
    MomentBounds(boundaryBlocks, a, lo, hi);
    TotalMassPositive(blocks, boundaryBlocks);
    SpanOfCentroid(Mass(blocks), Mass(boundaryBlocks), FirstMoment(blocks), FirstMoment(boundaryBlocks), a, lo, hi);
  }

  lemma ProductNonNegative(p: real, q: real)
    requires p >= 0.0 && q >= 0.0
    ensures p * q >= 0.0
  {
  }

  lemma {:induction false} InertiaSumNonNegative(bs: seq<Block>, centre: Vec3)
    ensures InertiaSum(bs, centre) >= 0.0
  {
    if bs != [] {
      var b := bs[|bs| - 1];
      InertiaSumNonNegative(bs[..|bs| - 1], centre);
      NormSqNonNegative(Sub(Grid(b), centre));
      ProductNonNegative(b.colourMass, NormSq(Sub(Grid(b), centre)));
    }
  }

  /** massAngular is never negative, and is positive for a single interior block. */
  lemma MomentOfInertiaNonNegative(blocks: seq<Block>, boundaryBlocks: seq<Block>)
    requires |blocks| + |boundaryBlocks| > 0
    ensures MomentOfInertia(blocks, boundaryBlocks) >= 0.0
    ensures |blocks| == 1 ==> MomentOfInertia(blocks, boundaryBlocks) > 0.0
  {
    if |blocks| != 1 {
      var centre := CentreOfMass(blocks, boundaryBlocks);
      InertiaSumNonNegative(blocks, centre);
      InertiaSumNonNegative(boundaryBlocks, centre);
    }
  }
}
