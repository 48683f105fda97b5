// The earlier RigidBody: the same block processing and symplectic-Euler
// step, three contact caches, no image size or extent fields, and a torque
// hat matrix built from the torque itself rather than its direction.

module LegacyRigidBodies {
  import opened Vectors
  import opened Blocks
  import opened MassProperties
  import opened BoundingVolumes
  import opened Dynamics
  import opened BodyIndex
  import opened RigidBodies

  class RigidBody {
    const index: int
    const blocks: seq<Block>
    const boundaryBlocks: seq<Block>
    /** Per-contact caches kept for the contact solver. */
    var cHash: map<Vec3, seq<real>>
    var nHash: map<Vec3, seq<real>>
    var tHash: map<Vec3, seq<real>>
    const root: BVNode
    var force: Vec3
    var torque: Vec3
    /** The hat matrix of the torque. */
    var torqhat: Mat3
    const massAngular: real
    const massLinear: real
    const pinned: bool
    var bucketKey: seq<int>
    var sleep: bool
    var v: Vec3
    var x: Vec3
    /** The lever arm of the last contact force. */
    var r: Vec3
    const x0: Vec3
    /** Shared with copies of the body. */
    const theta: VecRef
    const omega: VecRef
    const minv: real
    const jinv: real

    /** What every operation keeps: two distinct angle objects, the inverse
        masses of the constructor, and a skew-symmetric hat matrix. */
    ghost predicate Valid()
      reads this`torqhat
    {
      theta != omega &&
      |boundaryBlocks| >= 1 &&
      InverseMasses(pinned, massLinear, massAngular, minv, jinv) &&
      IsSkewSymmetric(torqhat)
    }

    ghost function State(): Motion
      reads this`x, this`v, theta, omega
    {
      Motion(x, v, theta.val, omega.val)
    }

    /** Builds a body from its blocks exactly as the later version does;
        the hat matrix is that of the (still zero) torque. */
    constructor (blocks: seq<Block>, boundaryBlocks: seq<Block>, counter: IndexCounter)
      requires |boundaryBlocks| >= 1
      requires DistinctGrid(boundaryBlocks)
      requires !AllBlue(blocks) ==> MomentOfInertia(blocks, boundaryBlocks) != 0.0
      modifies blocks, boundaryBlocks, counter
      ensures theta != omega && |boundaryBlocks| >= 1
      ensures InverseMasses(pinned, massLinear, massAngular, minv, jinv)
      ensures IsSkewSymmetric(torqhat)
      ensures this.blocks == blocks && this.boundaryBlocks == boundaryBlocks
      ensures Assembled(blocks, boundaryBlocks, massLinear, x0, massAngular, root, pinned)
      ensures Recentred(blocks, x0) && Recentred(boundaryBlocks, x0) && x == x0
      ensures index == old(counter.nextIndex) && counter.nextIndex == old(counter.nextIndex) + 1
      ensures fresh(theta) && fresh(omega)
      ensures v == Zero && theta.val == Zero && omega.val == Zero
      ensures force == Zero && torque == Zero && torqhat == ZeroMat && r == Zero
      ensures bucketKey == [] && !sleep
      ensures cHash == map[] && nHash == map[] && tHash == map[]
    {
      var id := counter.Take();
      theta := new VecRef(Zero);
      omega := new VecRef(Zero);
      var ml, centre, ma, tree, allBlue := Assemble(blocks, boundaryBlocks);

      this.blocks, this.boundaryBlocks := blocks, boundaryBlocks;
      massLinear, x0, massAngular := ml, centre, ma;
      x := centre;
      v, r, force, torque := Zero, Zero, Zero, Zero;
      torqhat := ZeroMat;
      root := tree;
      pinned := allBlue;
      if allBlue {
        minv, jinv := 0.0, 0.0;
      } else {
        minv, jinv := Inverse(ml), Inverse(ma);
      }
      index := id;
      cHash, nHash, tHash := map[], map[], map[];
      bucketKey, sleep := [], false;
    }

    /** The copy constructor: shares the block lists and the angle objects,
        copies positions, masses, pinning, sleep flag and inverse masses,
        builds its own tree and takes a fresh index. */
    constructor Copy(body: RigidBody, counter: IndexCounter)
      requires body.Valid()
      requires DistinctItems(Located(body.boundaryBlocks))
      modifies counter
      ensures theta != omega && |boundaryBlocks| >= 1
      ensures InverseMasses(pinned, massLinear, massAngular, minv, jinv)
      ensures IsSkewSymmetric(torqhat)
      ensures blocks == body.blocks && boundaryBlocks == body.boundaryBlocks
      ensures theta == body.theta && omega == body.omega
      ensures massLinear == body.massLinear && massAngular == body.massAngular
      ensures x0 == body.x0 && x == body.x
      ensures root == Tree(Located(boundaryBlocks))
      ensures pinned == body.pinned && sleep == body.sleep
      ensures minv == body.minv && jinv == body.jinv
      ensures index == old(counter.nextIndex) && counter.nextIndex == old(counter.nextIndex) + 1
      ensures v == Zero && force == Zero && torque == Zero && torqhat == ZeroMat && r == Zero
      ensures bucketKey == []
      ensures cHash == map[] && nHash == map[] && tHash == map[]
    {
      var id := counter.Take();
      var tree := Build(body.boundaryBlocks, Located(body.boundaryBlocks));
      blocks, boundaryBlocks := body.blocks, body.boundaryBlocks;
      massLinear, massAngular := body.massLinear, body.massAngular;
      x0, x := body.x0, body.x;
      theta, omega := body.theta, body.omega;
      root := tree;
      pinned, sleep := body.pinned, body.sleep;
      minv, jinv := body.minv, body.jinv;
      index := id;
      v, r, force, torque, torqhat := Zero, Zero, Zero, Zero, ZeroMat;
      cHash, nHash, tHash := map[], map[], map[];
      bucketKey := [];
    }

    /** Adds a contact force at a world point: the torque becomes the lever
        arm crossed with the whole accumulated force, and the off-diagonal
        entries of the hat matrix are set from it, so the matrix maps every
        u to torque x u. */
    method ApplyContactForceW(contactPointW: Vec3, contactForceW: Vec3)
      requires Valid()
      modifies this`force, this`r, this`torque, this`torqhat
      ensures Valid()
      ensures force == Add(old(force), contactForceW)
      ensures r == Sub(contactPointW, x)
      ensures torque == Cross(r, force)
      ensures torqhat == Skew(torque)
      ensures Dot(torque, r) == 0.0 && Dot(torque, force) == 0.0
    {
      force := Add(force, contactForceW);
      r := Vec3(contactPointW.x - x.x, contactPointW.y - x.y, contactPointW.z - x.z);
      torque := Vec3(force.z * r.y - force.y * r.z,
                     -force.z * r.x + force.x * r.z,
                     force.y * r.x - force.x * r.y);
      torqhat := torqhat.(m01 := -torque.z, m02 := torque.y, m10 := torque.z,
                          m12 := -torque.x, m20 := -torque.y, m21 := torque.x);
      CrossOrthogonal(r, force);
    }

    /** One symplectic-Euler step; a pinned body keeps its state. Force and
        torque are cleared either way. */
    method AdvanceTime(dt: real)
      requires Valid()
      modifies this`x, this`v, this`force, this`torque, theta, omega
      ensures Valid()
      ensures pinned ==> State() == old(State())
      ensures !pinned ==> State() == EulerStep(old(State()), old(force), old(torque), massLinear, jinv, dt)
      ensures force == Zero && torque == Zero
    {
      if !pinned {
        var next := EulerStep(Motion(x, v, theta.val, omega.val), force, torque, massLinear, jinv, dt);
        omega.val := next.omega;
        theta.val := next.theta;
        v := next.v;
        x := next.x;
      }
      force := Zero;
      torque := Zero;
    }

    /** Back to the initial position, at rest and unrotated. */
    method Reset()
      requires Valid()
      modifies this`x, this`v, theta, omega
      ensures Valid()
      ensures State() == Motion(x0, Zero, Zero, Zero)
    {
      x := x0;
      theta.val := Zero;
      v := Zero;
      omega.val := Zero;
    }

    method ClearHashes()
      modifies this`cHash, this`nHash, this`tHash
      ensures cHash == map[] && nHash == map[] && tHash == map[]
    {
      cHash, nHash, tHash := map[], map[], map[];
    }
  }
}
