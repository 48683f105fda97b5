// RigidBody: a body assembled from grid blocks, with its mass properties,
// its force and torque accumulators and its symplectic-Euler step.

module RigidBodies {
  import opened Vectors
  import opened Blocks
  import opened MassProperties
  import opened BoundingVolumes
  import opened Dynamics
  import opened BodyIndex

  /** Positive linear mass; a pinned body has zero inverse masses, any
      other has the reciprocals of nonzero masses. */
  predicate InverseMasses(pinned: bool, massLinear: real, massAngular: real, minv: real, jinv: real)
  {
    massLinear > 0.0 && massAngular >= 0.0 &&
    (pinned ==> minv == 0.0 && jinv == 0.0) &&
    (!pinned ==> massAngular != 0.0 && minv == Inverse(massLinear) && jinv == Inverse(massAngular))
  }

  /** The blocks paired with their grid positions measured from a centre:
      the items the tree is built over once the blocks are recentred. */
  function LocalItems(bs: seq<Block>, centre: Vec3): (items: seq<Item>)
    ensures |items| == |bs|
    ensures forall n :: 0 <= n < |bs| ==> items[n] == Item(bs[n], Sub(Grid(bs[n]), centre))
  {
    if bs == [] then [] else LocalItems(bs[..|bs| - 1], centre) + [Item(bs[|bs| - 1], Sub(Grid(bs[|bs| - 1]), centre))]
  }

  /** Once recentred, the located blocks are the local items. */
  lemma LocatedWhenRecentred(bs: seq<Block>, centre: Vec3)
    requires Recentred(bs, centre)
    ensures Located(bs) == LocalItems(bs, centre)
  {
    LocatedFacts(bs);
  }

  /** Distinct grid cells give distinct local items. */
  lemma LocalItemsDistinct(bs: seq<Block>, centre: Vec3)
    requires DistinctGrid(bs)
    ensures DistinctItems(LocalItems(bs, centre))
  {
    var items := LocalItems(bs, centre);
    forall p, q | 0 <= p < q < |items| ensures items[p].pB != items[q].pB {
      var gp, gq := Grid(bs[p]), Grid(bs[q]);
      assert gp.x != gq.x || gp.y != gq.y || gp.z != gq.z;
    }
  }

  /** What the block processing yields: the total mass, the centre of mass,
      the rotational inertia about it, the tree over the boundary blocks at
      their local positions, and whether every block is blue. */
  predicate Assembled(blocks: seq<Block>, boundaryBlocks: seq<Block>,
                      massLinear: real, centre: Vec3, massAngular: real, root: BVNode, allBlue: bool)
  {
    massLinear == TotalMass(blocks, boundaryBlocks) && massLinear > 0.0 &&
    centre == CentreOfMass(blocks, boundaryBlocks) &&
    massAngular == MomentOfInertia(blocks, boundaryBlocks) && massAngular >= 0.0 &&
    |boundaryBlocks| >= 1 && DistinctItems(LocalItems(boundaryBlocks, centre)) &&
    root == Tree(LocalItems(boundaryBlocks, centre)) &&
    allBlue == AllBlue(blocks)
  }

  /** The block processing of the constructor: mass and centre of mass,
      body-local positions, rotational inertia, the tree over the boundary
      blocks and the all-blue test. */
  method Assemble(blocks: seq<Block>, boundaryBlocks: seq<Block>)
      returns (massLinear: real, centre: Vec3, massAngular: real, root: BVNode, allBlue: bool)
    requires |boundaryBlocks| >= 1
    requires DistinctGrid(boundaryBlocks)
    modifies blocks, boundaryBlocks
    ensures Assembled(blocks, boundaryBlocks, massLinear, centre, massAngular, root, allBlue)
    ensures Recentred(blocks, centre) && Recentred(boundaryBlocks, centre)
  {
    massLinear, centre := ComputeMassAndCentre(blocks, boundaryBlocks);
    TotalMassPositive(blocks, boundaryBlocks);
    Recentre(blocks, centre);
    Recentre(boundaryBlocks, centre);
    assert Recentred(blocks, centre);
    massAngular := ComputeInertia(blocks, boundaryBlocks, centre);
    MomentOfInertiaNonNegative(blocks, boundaryBlocks);
    LocalItemsDistinct(boundaryBlocks, centre);
    LocatedWhenRecentred(boundaryBlocks, centre);
    root := Build(boundaryBlocks, Located(boundaryBlocks));
    allBlue := IsAllBlueBlocks(blocks);
  }

  class RigidBody {
    /** Identifier taken from the shared counter. */
    const index: int
    /** Interior and boundary blocks; copies share both lists. */
    const blocks: seq<Block>
    const boundaryBlocks: seq<Block>
    /** Per-contact caches kept for the contact solver. */
    var cHash: map<Vec3, seq<real>>
    var nHash: map<Vec3, seq<real>>
    var tHash1: map<Vec3, seq<real>>
    var tHash2: map<Vec3, seq<real>>
    /** Bounding-volume tree over the boundary blocks. */
    const root: BVNode
    /** Force and torque accumulators and the hat matrix built from the
        torque direction. */
    var force: Vec3
    var torque: Vec3
    var torqhat: Mat3
    /** Image size the body was loaded from. */
    const imw: int
    const imh: int
    const massAngular: real
    const massLinear: real
    /** A pinned body never moves. */
    const pinned: bool
    /** Spatial-hash cells this body has been entered into. */
    var bucketKey: seq<int>
    var sleep: bool
    var v: Vec3
    var x: Vec3
    /** The lever arm of the last contact force. */
    var r: Vec3
    /** Initial centre of mass. */
    const x0: Vec3
    /** Orientation angles and angular velocity: objects, because copies of
        a body share them. */
    const theta: VecRef
    const omega: VecRef
    /** Extent of a block list, written by setMeas. */
    var width: real
    var height: real
    var depth: real
    /** Inverse masses; zero for a pinned body. */
    const minv: real
    const jinv: real

    /** What every operation keeps: the angle and angular velocity are two
        objects, the masses are those the constructor computed, and the
        torque hat matrix is skew-symmetric. */
    ghost predicate Valid()
      reads this`torqhat
    {
      theta != omega &&
      |boundaryBlocks| >= 1 &&
      InverseMasses(pinned, massLinear, massAngular, minv, jinv) &&
      IsSkewSymmetric(torqhat)
    }

    /** The kinematic state advanceTime integrates. */
    ghost function State(): Motion
      reads this`x, this`v, theta, omega
    {
      Motion(x, v, theta.val, omega.val)
    }

    /** Builds a body from its blocks: total mass and centre of mass (the
        boundary blocks count in x and y only), body-local block positions,
        rotational inertia with the single-block fallback, the tree over the
        boundary blocks, the all-blue pinning rule, inverse masses and a
        fresh index. */
    constructor (blocks: seq<Block>, boundaryBlocks: seq<Block>, imw: int, imh: int, counter: IndexCounter)
      requires |boundaryBlocks| >= 1
      requires DistinctGrid(boundaryBlocks)
      requires !AllBlue(blocks) ==> MomentOfInertia(blocks, boundaryBlocks) != 0.0
      modifies blocks, boundaryBlocks, counter
      ensures theta != omega && |boundaryBlocks| >= 1
      ensures InverseMasses(pinned, massLinear, massAngular, minv, jinv)
      ensures IsSkewSymmetric(torqhat)
      ensures this.blocks == blocks && this.boundaryBlocks == boundaryBlocks
      ensures this.imw == imw && this.imh == imh
      ensures Assembled(blocks, boundaryBlocks, massLinear, x0, massAngular, root, pinned)
      ensures Recentred(blocks, x0) && Recentred(boundaryBlocks, x0) && x == x0
      ensures index == old(counter.nextIndex) && counter.nextIndex == old(counter.nextIndex) + 1
      ensures fresh(theta) && fresh(omega)
      ensures v == Zero && theta.val == Zero && omega.val == Zero
      ensures force == Zero && torque == Zero && torqhat == ZeroMat && r == Zero
      ensures bucketKey == [] && !sleep
      ensures cHash == map[] && nHash == map[] && tHash1 == map[] && tHash2 == map[]
      ensures width == 0.0 && height == 0.0 && depth == 0.0
    {
      var id := counter.Take();
      theta := new VecRef(Zero);
      omega := new VecRef(Zero);
      var ml, centre, ma, tree, allBlue := Assemble(blocks, boundaryBlocks);

      this.imw, this.imh := imw, imh;
      this.blocks, this.boundaryBlocks := blocks, boundaryBlocks;
      massLinear, x0, massAngular := ml, centre, ma;
      x := centre;
      v, r, force, torque := Zero, Zero, Zero, Zero;
      torqhat := ZeroMat;
      root := tree;
      pinned := allBlue;
      if allBlue {
        minv, jinv := 0.0, 0.0;
      } else {
        minv, jinv := Inverse(ml), Inverse(ma);
      }
      index := id;
      cHash, nHash, tHash1, tHash2 := map[], map[], map[], map[];
      bucketKey, sleep := [], false;
      width, height, depth := 0.0, 0.0, 0.0;
    }

    /** The copy constructor: shares the block lists and the very angle and
        angular-velocity objects of the original, copies the positions,
        masses, pinning, sleep flag and inverse masses, builds its own tree,
        takes a fresh index and starts with zero velocity and accumulators
        and the default image size. */
    constructor Copy(body: RigidBody, counter: IndexCounter)
      requires body.Valid()
      requires DistinctItems(Located(body.boundaryBlocks))
      modifies counter
      ensures theta != omega && |boundaryBlocks| >= 1
      ensures InverseMasses(pinned, massLinear, massAngular, minv, jinv)
      ensures IsSkewSymmetric(torqhat)
      ensures blocks == body.blocks && boundaryBlocks == body.boundaryBlocks
      ensures theta == body.theta && omega == body.omega
      ensures massLinear == body.massLinear && massAngular == body.massAngular
      ensures x0 == body.x0 && x == body.x
      ensures root == Tree(Located(boundaryBlocks))
      ensures pinned == body.pinned && sleep == body.sleep
      ensures minv == body.minv && jinv == body.jinv
      ensures index == old(counter.nextIndex) && counter.nextIndex == old(counter.nextIndex) + 1
      ensures imw == 1000 && imh == 1000
      ensures v == Zero && force == Zero && torque == Zero && torqhat == ZeroMat && r == Zero
      ensures bucketKey == []
      ensures cHash == map[] && nHash == map[] && tHash1 == map[] && tHash2 == map[]
      ensures width == 0.0 && height == 0.0 && depth == 0.0
    {
      var id := counter.Take();
      var tree := Build(body.boundaryBlocks, Located(body.boundaryBlocks));
      blocks, boundaryBlocks := body.blocks, body.boundaryBlocks;
      massLinear, massAngular := body.massLinear, body.massAngular;
      x0, x := body.x0, body.x;
      theta, omega := body.theta, body.omega;
      root := tree;
      pinned, sleep := body.pinned, body.sleep;
      minv, jinv := body.minv, body.jinv;
      index := id;
      imw, imh := 1000, 1000;
      v, r, force, torque, torqhat := Zero, Zero, Zero, Zero, ZeroMat;
      cHash, nHash, tHash1, tHash2 := map[], map[], map[], map[];
      bucketKey := [];
      width, height, depth := 0.0, 0.0, 0.0;
    }

    /** Adds a contact force at a world point. The torque is overwritten
        with the lever arm crossed with the whole accumulated force, and the
        hat matrix is set from the torque's direction; `length` stands for
        the vector length `normalize` divides by, and is that length for the
        torque it is given. */
    method ApplyContactForceW(contactPointW: Vec3, contactForceW: Vec3, length: Vec3 -> real)
      requires Valid()
      requires var t := Cross(Sub(contactPointW, x), Add(force, contactForceW));
        length(t) > 0.0 && length(t) * length(t) == NormSq(t)
      modifies this`force, this`r, this`torque, this`torqhat
      ensures Valid()
      ensures force == Add(old(force), contactForceW)
      ensures r == Sub(contactPointW, x)
      ensures torque == Cross(r, force)
      ensures length(torque) > 0.0 && length(torque) * length(torque) == NormSq(torque)
      ensures torqhat == Skew(Normalised(torque, length(torque)))
      ensures NormSq(Normalised(torque, length(torque))) == 1.0
      ensures Scale(length(torque), Normalised(torque, length(torque))) == torque
    {
      force := Add(force, contactForceW);
      r := Vec3(contactPointW.x - x.x, contactPointW.y - x.y, contactPointW.z - x.z);
      torque := Cross(r, force);
      var tq := Normalised(torque, length(torque));
      torqhat := torqhat.(m01 := -tq.z, m02 := tq.y, m10 := tq.z, m12 := -tq.x, m20 := -tq.y, m21 := tq.x);
    }

    /** One symplectic-Euler step; a pinned body keeps its state. Force and
        torque are cleared either way. */
    method AdvanceTime(dt: real)
      requires Valid()
      modifies this`x, this`v, this`force, this`torque, theta, omega
      ensures Valid()
      ensures pinned ==> State() == old(State())
      ensures !pinned ==> State() == EulerStep(old(State()), old(force), old(torque), massLinear, jinv, dt)
      ensures force == Zero && torque == Zero
    {
      if !pinned {
        var next := EulerStep(Motion(x, v, theta.val, omega.val), force, torque, massLinear, jinv, dt);
        omega.val := next.omega;
        theta.val := next.theta;
        v := next.v;
        x := next.x;
      }
      force := Zero;
      torque := Zero;
    }

    /** Back to the initial position, at rest and unrotated. The result does
        not depend on the state before, so a second reset changes nothing. */
    method Reset()
      requires Valid()
      modifies this`x, this`v, theta, omega
      ensures Valid()
      ensures State() == Motion(x0, Zero, Zero, Zero)
    {
      x := x0;
      theta.val := Zero;
      v := Zero;
      omega.val := Zero;
    }

    method ClearHashes()
      modifies this`cHash, this`nHash, this`tHash1, this`tHash2
      ensures cHash == map[] && nHash == map[] && tHash1 == map[] && tHash2 == map[]
    {
      cHash, nHash, tHash1, tHash2 := map[], map[], map[], map[];
    }

    /** getKineticEnergy, never negative. */
    function GetKineticEnergy(): (e: real)
      requires Valid()
      reads this, omega
      ensures e >= 0.0
      ensures v == Zero && omega.val == Zero ==> e == 0.0
    {
      KineticEnergyNonNegative(massLinear, massAngular, v, omega.val);
      KineticEnergyAtRest(massLinear, massAngular);
      KineticEnergy(massLinear, massAngular, v, omega.val)
    }

    /** The velocity of the body's material point at p, with which a force
        applied at p does work at the rate of its linear part plus its
        torque about the centre of mass. */
    function GetSpatialVelocity(p: Vec3): (u: Vec3)
      reads this, omega
      ensures forall f :: Dot(f, u) == Dot(f, v) + Dot(Cross(Sub(p, x), f), omega.val)
    {
      var u := PointVelocity(x, v, omega.val, p);
      forall f
        ensures Dot(f, u) == Dot(f, v) + Dot(Cross(Sub(p, x), f), omega.val)
      {
        PointVelocityPower(x, v, omega.val, p, f);
      }
      u
    }

    /** Some block lies within `radius` of the body-frame image of pW, and
        pW passes the bounding-disc test. */
    ghost predicate Hits(pW: Vec3, inDisc: Vec3 -> bool, worldToBody: Vec3 -> Vec3, radius: real)
      reads this, blocks
    {
      inDisc(pW) &&
      exists n :: 0 <= n < |blocks| && NormSq(Sub(blocks[n].pB, worldToBody(pW))) < radius * radius
    }

    /** intersect: the bounding-disc test and the world-to-body transform
        are supplied by the caller, as is the block radius. */
    method Intersect(pW: Vec3, inDisc: Vec3 -> bool, worldToBody: Vec3 -> Vec3, radius: real) returns (hit: bool)
      ensures hit <==> Hits(pW, inDisc, worldToBody, radius)
    {
      if inDisc(pW) {
        var pB := worldToBody(pW);
        for n := 0 to |blocks|
          invariant forall k :: 0 <= k < n ==> NormSq(Sub(blocks[k].pB, pB)) >= radius * radius
        {
          if NormSq(Sub(blocks[n].pB, pB)) < radius * radius {
            return true;
          }
        }
      }
      return false;
    }

    /** setMeas: width, height and depth of the grid extent of bs, from the
        sentinel bounds when bs is empty. */
    method SetMeas(bs: seq<Block>)
      modifies this`width, this`height, this`depth
      ensures width == (GridExtent(bs).xmax - GridExtent(bs).xmin) as real
      ensures height == (GridExtent(bs).ymax - GridExtent(bs).ymin) as real
      ensures depth == (GridExtent(bs).zmax - GridExtent(bs).zmin) as real
      ensures bs != [] ==> width >= 0.0 && height >= 0.0 && depth >= 0.0
    {
      var e := ComputeExtent(bs);
      width := (e.xmax - e.xmin) as real;
      height := (e.ymax - e.ymin) as real;
      depth := (e.zmax - e.zmin) as real;
    }

    /** getVertex: the eight corners of the grid extent of bs; every block of
        bs lies between the first corner and the last. */
    method GetVertex(bs: seq<Block>) returns (vert: seq<Vec3>)
      ensures vert == Corners(GridExtent(bs))
      ensures |vert| == 8
      ensures forall n :: 0 <= n < |bs| ==>
        vert[0].x <= Grid(bs[n]).x <= vert[7].x &&
        vert[0].y <= Grid(bs[n]).y <= vert[7].y &&
        vert[0].z <= Grid(bs[n]).z <= vert[7].z
    {
      var e := ComputeExtent(bs);
      vert := Corners(e);
    }
  }
}
