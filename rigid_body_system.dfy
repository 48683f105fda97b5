// RigidBodySystem: the list of bodies, the time step that applies gravity,
// advances every body and enters it into the broad-phase spatial hash, the
// first-match pick, and reset and clear.

module RigidBodySystems {
  import opened Vectors
  import opened Blocks
  import opened Dynamics
  import opened BodyIndex
  import opened RigidBodies
  import opened SpatialHash

  datatype Option<T> = None | Some(value: T)

  /** Cells per row of the grid SHinit sets up. */
  const NumPerRow := 3
  /** Length of the visit array SHinit allocates: numPerRow squared times 100. */
  const VisitSlots := NumPerRow * NumPerRow * 100

  /** No body occurs twice, and no two bodies share an angle or
      angular-velocity object, so advancing one body leaves the others as
      they were. */
  ghost predicate Separate(bs: seq<RigidBody>)
  {
    forall p, q :: 0 <= p < |bs| && 0 <= q < |bs| && p != q ==>
      bs[p] != bs[q] && bs[p].theta != bs[q].theta &&
      bs[p].omega != bs[q].omega && bs[p].theta != bs[q].omega
  }

  /** The angle and angular-velocity objects of the bodies. */
  ghost function Angles(bs: seq<RigidBody>): set<VecRef>
  {
    (set b | b in bs :: b.theta) + (set b | b in bs :: b.omega)
  }

  /** The cells a body at position x is entered into: one per boundary
      block for a pinned body, otherwise the one key the source computes
      from x, with the row scaled by the cells per row before it is floored
      (so not always the cell that contains x; see `UnpinnedKey`). */
  function Cells(b: RigidBody, x: Vec3, width: int, perRow: int): seq<int>
    requires width != 0
  {
    if b.pinned then PinnedKeys(b.boundaryBlocks, width, perRow) else [UnpinnedKeyAsWritten(x, width, perRow)]
  }

  /** The part of a body that a system step changes. */
  datatype Snapshot = Snapshot(state: Motion, force: Vec3, torque: Vec3, bucketKey: seq<int>)

  ghost function Snap(b: RigidBody): Snapshot
    reads b`x, b`v, b`force, b`torque, b`bucketKey, b.theta, b.omega
  {
    Snapshot(b.State(), b.force, b.torque, b.bucketKey)
  }

  /** The snapshots of a list of bodies, in order. */
  ghost function Snaps(bs: seq<RigidBody>): (r: seq<Snapshot>)
    reads bs, Angles(bs)
    ensures |r| == |bs| && forall k :: 0 <= k < |bs| ==> r[k] == Snap(bs[k])
  {
    seq(|bs|, k requires 0 <= k < |bs| reads bs, Angles(bs) => Snap(bs[k]))
  }

  /** The gravity setting of a step: whether it is on, its magnitude and
      the cosine and sine of its angle. */
  datatype Gravity = Gravity(on: bool, amount: real, cosA: real, sinA: real)

  /** The force after the gravity loop: gravity is added to every body,
      pinned or not, when it is enabled. */
  function Pushed(b: RigidBody, force: Vec3, g: Gravity): Vec3
  {
    if g.on then Add(force, GravityForce(b.massLinear, g.amount, g.cosA, g.sinA)) else force
  }

  /** The state a body's own step produces from `before`: unchanged when
      pinned, one symplectic-Euler step otherwise. */
  function Advanced(b: RigidBody, before: Motion, force: Vec3, torque: Vec3, dt: real): Motion
    requires b.massLinear > 0.0
  {
    if b.pinned then before else EulerStep(before, force, torque, b.massLinear, b.jinv, dt)
  }

  /** The position of the first occurrence of x. */
  function IndexOf<T(==)>(s: seq<T>, x: T): (n: nat)
    requires x in s
    ensures n < |s| && s[n] == x && x !in s[..n]
  {
    if s[0] == x then 0 else 1 + IndexOf(s[1..], x)
  }

  /** The cells a body's own step from s under the given force enters it
      into: those of the position the step produces, when the spatial hash
      is on. */
  function StepCells(b: RigidBody, s: Snapshot, force: Vec3, dt: real, spatialHash: bool, width: int, perRow: int): seq<int>
    requires b.massLinear > 0.0 && (spatialHash ==> width != 0)
  {
    if spatialHash then Cells(b, Advanced(b, s.state, force, s.torque, dt).x, width, perRow) else []
  }

  /** One body's part of a system step, from s under the given force: the
      state its own step produces, cleared accumulators, and, with the
      spatial hash on, the cells of its new position added to its bucket
      list. */
  function BodyStep(b: RigidBody, s: Snapshot, force: Vec3, dt: real, spatialHash: bool, width: int, perRow: int): Snapshot
    requires b.massLinear > 0.0 && (spatialHash ==> width != 0)
  {
    var m := Advanced(b, s.state, force, s.torque, dt);
    Snapshot(m, Zero, Zero, if spatialHash then AddAllAbsent(s.bucketKey, StepCells(b, s, force, dt, spatialHash, width, perRow)) else s.bucketKey)
  }

  /** The states and the cells of every body after its step, each from
      its own snapshot. */
  lemma Steps(bs: seq<RigidBody>, before: seq<Snapshot>, dt: real, spatialHash: bool, width: int, perRow: int)
    returns (after: seq<Snapshot>, cells: seq<seq<int>>)
    requires |before| == |bs| && (spatialHash ==> width != 0)
    requires forall k :: 0 <= k < |bs| ==> bs[k].massLinear > 0.0
    ensures |after| == |cells| == |bs|
    ensures forall k {:trigger BodyStep(bs[k], before[k], before[k].force, dt, spatialHash, width, perRow)} ::
      0 <= k < |bs| ==> after[k] == BodyStep(bs[k], before[k], before[k].force, dt, spatialHash, width, perRow)
    ensures forall k {:trigger StepCells(bs[k], before[k], before[k].force, dt, spatialHash, width, perRow)} ::
      0 <= k < |bs| ==> cells[k] == StepCells(bs[k], before[k], before[k].force, dt, spatialHash, width, perRow)
  {
    after := seq(|bs|, k requires 0 <= k < |bs| => BodyStep(bs[k], before[k], before[k].force, dt, spatialHash, width, perRow));
    cells := seq(|bs|, k requires 0 <= k < |bs| => StepCells(bs[k], before[k], before[k].force, dt, spatialHash, width, perRow));
  }

  /** A pinned body does not move, so its next step enters it into the same
      cells again, and its bucket list, which already holds them, stays as
      it is. */
  lemma PinnedStepRepeats(b: RigidBody, s: Snapshot, force: Vec3, force': Vec3, dt: real, width: int, perRow: int)
    requires b.massLinear > 0.0 && b.pinned && width != 0
    ensures var s' := BodyStep(b, s, force, dt, true, width, perRow);
      StepCells(b, s', force', dt, true, width, perRow) == StepCells(b, s, force, dt, true, width, perRow) &&
      BodyStep(b, s', force', dt, true, width, perRow).bucketKey == s'.bucketKey
  {
    var s' := BodyStep(b, s, force, dt, true, width, perRow);
    AddAllAbsentHeld(s'.bucketKey, StepCells(b, s, force, dt, true, width, perRow));
  }

  /** Java's `list.remove(x)`: drops the first occurrence of x, if any. */
  function RemoveFirst<T(==)>(s: seq<T>, x: T): (r: seq<T>)
    ensures multiset(r) == multiset(s) - multiset{x}
  {
    if x in s then
      var n := IndexOf(s, x);
      assert s == s[..n] + [x] + s[n + 1..];
      s[..n] + s[n + 1..]
    else s
  }

  /** Dropping one body keeps the others separate. */
  lemma SeparateWithout(bs: seq<RigidBody>, n: int)
    requires Separate(bs) && 0 <= n < |bs|
    ensures Separate(bs[..n] + bs[n + 1..])
  {
    var r := bs[..n] + bs[n + 1..];
    forall p, q | 0 <= p < |r| && 0 <= q < |r| && p != q
      ensures r[p] != r[q] && r[p].theta != r[q].theta &&
              r[p].omega != r[q].omega && r[p].theta != r[q].omega
    {
      var p', q' := if p < n then p else p + 1, if q < n then q else q + 1;
      assert r[p] == bs[p'] && r[q] == bs[q'];
    }
  }

  class RigidBodySystem {
    var imageWidth: real
    var imageHeight: real
    /** Broad phase: cell key to the bodies entered into that cell. */
    var spHash: Hash<RigidBody>
    var numPerRow: int
    /** Side of a cell. */
    var width: int
    var shVisitId: array<int>
    var simulationTime: real
    var bodies: seq<RigidBody>
    /** The shared body counter (the static `RigidBody.nextIndex`). */
    const counter: IndexCounter

    /** Every body keeps its own invariant, and the bodies are separate. */
    ghost predicate Valid()
      reads this`bodies, bodies`torqhat
    {
      (forall k :: 0 <= k < |bodies| ==> bodies[k].Valid()) && Separate(bodies)
    }

    /** An empty system: no bodies, an empty hash, no grid yet. */
    constructor (counter: IndexCounter)
      ensures bodies == [] && spHash == map[] && this.counter == counter
      ensures imageWidth == 0.0 && imageHeight == 0.0 && numPerRow == 0 && width == 0
      ensures fresh(shVisitId) && shVisitId.Length == 1
      ensures simulationTime == 0.0
    {
      imageWidth, imageHeight := 0.0, 0.0;
      spHash := map[];
      numPerRow, width := 0, 0;
      shVisitId := new int[1](_ => 0);
      simulationTime := 0.0;
      bodies := [];
      this.counter := counter;
    }

    /** Appends a body. */
    method Add(body: RigidBody)
      requires Valid() && body.Valid() && Separate(bodies + [body])
      modifies this`bodies
      ensures bodies == old(bodies) + [body]
      ensures Valid()
    {
      bodies := bodies + [body];
    }

    /** Removes the first occurrence of a body; the others keep their order. */
    method Remove(body: RigidBody)
      requires Valid()
      modifies this`bodies
      ensures bodies == RemoveFirst(old(bodies), body)
      ensures body !in bodies
      ensures Valid()
    {
      var before := bodies;
      bodies := RemoveFirst(bodies, body);
      if body in before {
        var n := IndexOf(before, body);
        SeparateWithout(before, n);
        forall k | 0 <= k < |bodies|
          ensures bodies[k] != body && bodies[k].Valid()
        {
          var k' := if k < n then k else k + 1;
          assert bodies[k] == before[k'];
        }
      }
    }

    /** Sets up the grid for an image w wide and h high: three cells to a
        row, cells just wide enough that a row spans the image, and a visit
        array of 900 zeros. */
    method SHinit(w: real, h: real)
      modifies this`imageWidth, this`imageHeight, this`numPerRow, this`width, this`shVisitId
      ensures imageWidth == w && imageHeight == h && numPerRow == NumPerRow
      ensures w <= (numPerRow * width) as real < w + numPerRow as real
      ensures fresh(shVisitId) && shVisitId.Length == VisitSlots
      ensures forall n :: 0 <= n < shVisitId.Length ==> shVisitId[n] == 0
    {
      imageWidth := w;
      imageHeight := h;
      numPerRow := 3;
      width := Ceil(imageWidth / numPerRow as real);
      shVisitId := new int[numPerRow * numPerRow * 100](_ => 0);
    }

    /** Enters b into cell key, and key into b's bucket list, each only when
        absent. */
    method Enter(key: int, b: RigidBody)
      modifies this`spHash, b`bucketKey
      ensures spHash == Insert(old(spHash), key, b)
      ensures b.bucketKey == AddAbsent(old(b.bucketKey), key)
    {
      if key in spHash {
        if b !in spHash[key] {
          spHash := spHash[key := spHash[key] + [b]];
        }
      } else {
        spHash := spHash[key := [b]];
      }
      if key !in b.bucketKey {
        b.bucketKey := b.bucketKey + [key];
      }
    }

    /** Enters a body into each of its cells, in order. */
    method HashBody(b: RigidBody)
      requires width != 0
      modifies this`spHash, b`bucketKey
      ensures spHash == InsertAll(old(spHash), Cells(b, b.x, width, numPerRow), b)
      ensures b.bucketKey == AddAllAbsent(old(b.bucketKey), Cells(b, b.x, width, numPerRow))
    {
      if b.pinned {
        for n := 0 to |b.boundaryBlocks|
          invariant spHash == InsertAll(old(spHash), PinnedKeys(b.boundaryBlocks[..n], width, numPerRow), b)
          invariant b.bucketKey == AddAllAbsent(old(b.bucketKey), PinnedKeys(b.boundaryBlocks[..n], width, numPerRow))
        {
          var bl := b.boundaryBlocks[n];
          var key := PinnedKey(bl.j, bl.i, width, numPerRow);
          Enter(key, b);
          assert b.boundaryBlocks[..n + 1][..n] == b.boundaryBlocks[..n];
        }
        assert b.boundaryBlocks[..|b.boundaryBlocks|] == b.boundaryBlocks;
      } else {
        var key := UnpinnedKeyAsWritten(b.x, width, numPerRow);
        Enter(key, b);
      }
    }

    /** The gravity loop, run when gravity is on: every body's force gains
        its weight. */
    method ApplyGravity(g: Gravity)
      requires Separate(bodies)
      modifies bodies`force
      ensures forall k :: 0 <= k < |bodies| ==>
        Snap(bodies[k]) == old(Snap(bodies[k])).(force := Pushed(bodies[k], old(bodies[k].force), g))
    {
      if g.on {
        var bs := bodies;
        for n := 0 to |bs|
          invariant forall k :: 0 <= k < |bs| ==>
            Snap(bs[k]) == if k < n then old(Snap(bs[k])).(force := Pushed(bs[k], old(bs[k].force), g)) else old(Snap(bs[k]))
        {
          var b := bs[n];
          b.force := Vectors.Add(b.force, GravityForce(b.massLinear, g.amount, g.cosA, g.sinA));
        }
      }
    }

    /** One pass of the advance-and-hash loop, for b at position n of bs:
        b advances and, when the spatial hash is on, is entered into keys,
        the cells of its new position, after the bodies before it were
        entered into keyss. The other bodies are left as they were. */
    method StepBody(b: RigidBody, ghost bs: seq<RigidBody>, ghost n: int, ghost s: Snapshot, ghost hash: Hash<RigidBody>,
                    ghost keyss: seq<seq<int>>, dt: real, spatialHash: bool) returns (ghost keys: seq<int>)
      requires 0 <= n < |bs| && bs[n] == b && Separate(bs) && b.Valid() && Snap(b) == s
      requires spatialHash ==> width != 0
      requires |keyss| == n
      requires spatialHash ==> spHash == InsertEach(hash, bs[..n], keyss)
      modifies b`x, b`v, b`force, b`torque, b.theta, b.omega, b`bucketKey, this`spHash
      ensures Snap(b) == BodyStep(b, s, s.force, dt, spatialHash, width, numPerRow)
      ensures keys == StepCells(b, s, s.force, dt, spatialHash, width, numPerRow)
      ensures spHash == if spatialHash then InsertEach(hash, bs[..n + 1], keyss + [keys]) else old(spHash)
      ensures forall k :: 0 <= k < |bs| && k != n ==> Snap(bs[k]) == old(Snap(bs[k]))
    {
      keys := StepCells(b, Snap(b), b.force, dt, spatialHash, width, numPerRow);
      b.AdvanceTime(dt);
      if spatialHash {
        HashBody(b);
        InsertEachNext(hash, bs, n, keyss, keys);
      }
    }

    /** One pass of the loop with its bookkeeping: if the bodies before n
        are in their states `after`, the others still in `before`, and the
        hash holds the first n bodies under `cells`, then after body n's
        pass the same holds up to n + 1. */
    method AdvanceOne(b: RigidBody, ghost bs: seq<RigidBody>, ghost n: int, ghost before: seq<Snapshot>,
                      ghost after: seq<Snapshot>, ghost cells: seq<seq<int>>, ghost hash: Hash<RigidBody>,
                      dt: real, spatialHash: bool)
      requires 0 <= n < |bs| == |before| == |after| == |cells| && bs[n] == b && Separate(bs) && b.Valid()
      requires spatialHash ==> width != 0
      requires after[n] == BodyStep(b, before[n], before[n].force, dt, spatialHash, width, numPerRow)
      requires cells[n] == StepCells(b, before[n], before[n].force, dt, spatialHash, width, numPerRow)
      requires forall k :: 0 <= k < |bs| ==> Snap(bs[k]) == if k < n then after[k] else before[k]
      requires spHash == if spatialHash then InsertEach(hash, bs[..n], cells[..n]) else hash
      modifies b`x, b`v, b`force, b`torque, b.theta, b.omega, b`bucketKey, this`spHash
      ensures forall k :: 0 <= k < |bs| ==> Snap(bs[k]) == if k < n + 1 then after[k] else before[k]
      ensures spHash == if spatialHash then InsertEach(hash, bs[..n + 1], cells[..n + 1]) else hash
    {
      ghost var keys := StepBody(b, bs, n, before[n], hash, cells[..n], dt, spatialHash);
      assert cells[..n] + [keys] == cells[..n + 1];
    }

    /** The advance-and-hash loop over the bodies, in list order, taking
        each body from its snapshot in `before` to the one in `after` and
        entering it into its cells in `cells`. */
    method AdvanceFrom(ghost before: seq<Snapshot>, ghost after: seq<Snapshot>, ghost cells: seq<seq<int>>,
                       dt: real, spatialHash: bool)
      requires Valid()
      requires spatialHash ==> width != 0
      requires |before| == |after| == |cells| == |bodies|
      requires forall k :: 0 <= k < |bodies| ==> before[k] == Snap(bodies[k])
      requires forall k {:trigger BodyStep(bodies[k], before[k], before[k].force, dt, spatialHash, width, numPerRow)} ::
        0 <= k < |bodies| ==> after[k] == BodyStep(bodies[k], before[k], before[k].force, dt, spatialHash, width, numPerRow)
      requires forall k {:trigger StepCells(bodies[k], before[k], before[k].force, dt, spatialHash, width, numPerRow)} ::
        0 <= k < |bodies| ==> cells[k] == StepCells(bodies[k], before[k], before[k].force, dt, spatialHash, width, numPerRow)
      modifies this`spHash, bodies`force, bodies`torque, bodies`x, bodies`v, bodies`bucketKey, Angles(bodies)
      ensures forall k :: 0 <= k < |bodies| ==> Snap(bodies[k]) == after[k]
      ensures spHash == if spatialHash then InsertEach(old(spHash), bodies, cells) else old(spHash)
    {
      var bs := bodies;
      for n := 0 to |bs|
        invariant forall k :: 0 <= k < |bs| ==> Snap(bs[k]) == if k < n then after[k] else before[k]
        invariant spHash == if spatialHash then InsertEach(old(spHash), bs[..n], cells[..n]) else old(spHash)
      {
        AdvanceOne(bs[n], bs, n, before, after, cells, old(spHash), dt, spatialHash);
      }
      if spatialHash {
        assert bs[..|bs|] == bs && cells[..|bs|] == cells;
      }
    }

    /** The advance-and-hash loop over the bodies, in list order; keyss[k]
        are the cells body k is entered into. */
    method AdvanceBodies(dt: real, spatialHash: bool) returns (ghost keyss: seq<seq<int>>)
      requires Valid()
      requires spatialHash ==> width != 0
      modifies this`spHash, bodies`force, bodies`torque, bodies`x, bodies`v, bodies`bucketKey, Angles(bodies)
      ensures Valid()
      ensures forall k :: 0 <= k < |bodies| ==>
        Snap(bodies[k]) == BodyStep(bodies[k], old(Snap(bodies[k])), old(bodies[k].force), dt, spatialHash, width, numPerRow)
      ensures |keyss| == |bodies|
      ensures forall k :: 0 <= k < |bodies| ==>
        keyss[k] == StepCells(bodies[k], old(Snap(bodies[k])), old(bodies[k].force), dt, spatialHash, width, numPerRow)
      ensures spHash == if spatialHash then InsertEach(old(spHash), bodies, keyss) else old(spHash)
    {
      ghost var before := Snaps(bodies);
      ghost var after;
      after, keyss := Steps(bodies, before, dt, spatialHash, width, numPerRow);
      AdvanceFrom(before, after, keyss, dt, spatialHash);
    }

    /** One step of the system: gravity when enabled, then each body in
        turn advances and, when the spatial hash is on, is entered into the
        cells of its new position, keyss[k] being those of body k. The
        simulation clock gains dt. */
    method AdvanceTime(dt: real, useGravity: bool, amount: real, cosA: real, sinA: real, spatialHash: bool)
      returns (ghost keyss: seq<seq<int>>)
      requires Valid()
      requires spatialHash ==> width != 0
      modifies this`spHash, this`simulationTime
      modifies bodies`force, bodies`torque, bodies`x, bodies`v, bodies`bucketKey, Angles(bodies)
      ensures Valid()
      ensures simulationTime == old(simulationTime) + dt
      ensures forall k :: 0 <= k < |bodies| ==>
        Snap(bodies[k]) == BodyStep(bodies[k], old(Snap(bodies[k])),
                                    Pushed(bodies[k], old(bodies[k].force), Gravity(useGravity, amount, cosA, sinA)),
                                    dt, spatialHash, width, numPerRow)
      ensures |keyss| == |bodies|
      ensures forall k :: 0 <= k < |bodies| ==>
        keyss[k] == StepCells(bodies[k], old(Snap(bodies[k])),
                              Pushed(bodies[k], old(bodies[k].force), Gravity(useGravity, amount, cosA, sinA)),
                              dt, spatialHash, width, numPerRow)
      ensures spatialHash ==> spHash == InsertEach(old(spHash), bodies, keyss)
      ensures !spatialHash ==> spHash == old(spHash)
    {
      // The clock does not depend on the bodies; it is advanced first.
      simulationTime := simulationTime + dt;
      ApplyGravity(Gravity(useGravity, amount, cosA, sinA));
      keyss := AdvanceBodies(dt, spatialHash);
    }

    /** Does some body hit p? */
    ghost predicate HitBy(k: int, p: Vec3, inDisc: RigidBody -> Vec3 -> bool,
                          worldToBody: RigidBody -> Vec3 -> Vec3, radius: real)
      requires 0 <= k < |bodies|
      reads this, bodies[k], bodies[k].blocks
    {
      bodies[k].Hits(p, inDisc(bodies[k]), worldToBody(bodies[k]), radius)
    }

    /** The first body, in list order, whose blocks contain p; None exactly
        when no body does. Each body's bounding disc and world-to-body
        transform are supplied as functions of the body. */
    method PickBody(p: Vec3, inDisc: RigidBody -> Vec3 -> bool,
                    worldToBody: RigidBody -> Vec3 -> Vec3, radius: real) returns (picked: Option<RigidBody>)
      ensures picked.None? <==> forall k :: 0 <= k < |bodies| ==> !HitBy(k, p, inDisc, worldToBody, radius)
      ensures picked.Some? ==>
        exists k :: (0 <= k < |bodies| && bodies[k] == picked.value &&
                     HitBy(k, p, inDisc, worldToBody, radius) &&
                     forall j :: 0 <= j < k ==> !HitBy(j, p, inDisc, worldToBody, radius))
    {
      for n := 0 to |bodies|
        invariant forall j :: 0 <= j < n ==> !HitBy(j, p, inDisc, worldToBody, radius)
      {
        var body := bodies[n];
        var hit := body.Intersect(p, inDisc(body), worldToBody(body), radius);
        if hit {
          assert HitBy(n, p, inDisc, worldToBody, radius);
          return Some(body);
        }
      }
      return None;
    }

    /** Every body back to its initial position at rest; the clock to zero. */
    method Reset()
      requires Valid()
      modifies bodies`x, bodies`v, Angles(bodies), this`simulationTime
      ensures Valid()
      ensures simulationTime == 0.0
      ensures forall k :: 0 <= k < |bodies| ==> bodies[k].State() == Motion(bodies[k].x0, Zero, Zero, Zero)
    {
      for n := 0 to |bodies|
        invariant forall k :: 0 <= k < |bodies| ==> bodies[k].Valid()
        invariant forall k :: 0 <= k < n ==> bodies[k].State() == Motion(bodies[k].x0, Zero, Zero, Zero)
      {
        bodies[n].Reset();
      }
      simulationTime := 0.0;
    }

    /** Removes every body and restarts the body counter. */
    method Clear()
      modifies this`bodies, this`simulationTime, counter
      ensures bodies == [] && counter.nextIndex == 0 && simulationTime == 0.0
      ensures Valid()
    {
      bodies := [];
      counter.Restart();
      Reset();
    }
  }
}
