// Blocks: the grid samples a rigid body is built from.

module Blocks {
  import opened Vectors

  /** A colour as the source's Color3f: red, green and blue components. */
  datatype Colour = Colour(r: real, g: real, b: real)

  /** The weight `getColourMass` derives from a block's colour. Its formula is
      not part of this model; it is positive. */
  type Mass = m: real | m > 0.0 witness 1.0

  /** A grid cell: row i, column j, layer k, its colour and weight, and its
      position pB relative to the owning body's centre of mass, which the body
      constructor writes in place. */
  class Block {
    const i: int
    const j: int
    const k: int
    const c: Colour
    const colourMass: Mass
    var pB: Vec3

    constructor (i: int, j: int, k: int, c: Colour, colourMass: Mass)
      ensures this.i == i && this.j == j && this.k == k
      ensures this.c == c && this.colourMass == colourMass
      ensures pB == Zero
    {
      this.i, this.j, this.k := i, j, k;
      this.c, this.colourMass := c, colourMass;
      pB := Zero;
    }
  }

  /** The grid coordinates as a point: x is the column, y the row, z the layer. */
  function Grid(b: Block): Vec3
  {
    Vec3(b.j as real, b.i as real, b.k as real)
  }

  /** The "shade of blue" test of isAllBlueBlocks. */
  predicate IsBlue(c: Colour)
  {
    c.r == c.g && c.r < c.b
  }

  predicate AllBlue(bs: seq<Block>)
  {
    forall n :: 0 <= n < |bs| ==> IsBlue(bs[n].c)
  }

  /** No two entries share a grid cell. */
  predicate DistinctGrid(bs: seq<Block>)
  {
    forall p, q :: 0 <= p < q < |bs| ==> Grid(bs[p]) != Grid(bs[q])
  }

  /** No two entries share a body-local position. */
  ghost predicate DistinctPositions(bs: seq<Block>)
    reads bs
  {
    forall p, q :: 0 <= p < q < |bs| ==> bs[p].pB != bs[q].pB
  }

  // ---------------------------------------------------------------------
  // Integer bounding box of grid coordinates (setMeas / getVertex)
  // ---------------------------------------------------------------------

  datatype Extent = Extent(xmin: int, xmax: int, ymin: int, ymax: int, zmin: int, zmax: int)

  /** The sentinels the scan starts from. */
  const InitialExtent := Extent(1000000, -100000, 1000000, -100000, 1000000, -100000)

  /** One step of the scan: each bound moves only when the block lies beyond it. */
  function Widen(e: Extent, b: Block): Extent
  {
    Extent(if b.j < e.xmin then b.j else e.xmin, if b.j > e.xmax then b.j else e.xmax,
           if b.i < e.ymin then b.i else e.ymin, if b.i > e.ymax then b.i else e.ymax,
           if b.k < e.zmin then b.k else e.zmin, if b.k > e.zmax then b.k else e.zmax)
  }

  function GridExtent(bs: seq<Block>): Extent
  {
    if bs == [] then InitialExtent else Widen(GridExtent(bs[..|bs| - 1]), bs[|bs| - 1])
  }

  /** Every block lies inside the extent, and each bound is either its
      sentinel or attained by some block: the bounds are the minimum and
      maximum of the sentinel and the blocks' coordinates. */
  ghost predicate ExtentOf(e: Extent, bs: seq<Block>)
  {
    (forall n :: 0 <= n < |bs| ==>
       e.xmin <= bs[n].j <= e.xmax && e.ymin <= bs[n].i <= e.ymax && e.zmin <= bs[n].k <= e.zmax) &&
    e.xmin <= 1000000 && e.ymin <= 1000000 && e.zmin <= 1000000 &&
    e.xmax >= -100000 && e.ymax >= -100000 && e.zmax >= -100000 &&
    (e.xmin == 1000000 || exists n :: 0 <= n < |bs| && bs[n].j == e.xmin) &&
    (e.xmax == -100000 || exists n :: 0 <= n < |bs| && bs[n].j == e.xmax) &&
    (e.ymin == 1000000 || exists n :: 0 <= n < |bs| && bs[n].i == e.ymin) &&
    (e.ymax == -100000 || exists n :: 0 <= n < |bs| && bs[n].i == e.ymax) &&
    (e.zmin == 1000000 || exists n :: 0 <= n < |bs| && bs[n].k == e.zmin) &&
    (e.zmax == -100000 || exists n :: 0 <= n < |bs| && bs[n].k == e.zmax)
  }

  lemma {:induction false} GridExtentIsExtent(bs: seq<Block>)
    ensures ExtentOf(GridExtent(bs), bs)
  {
    if bs != [] {
      var front := bs[..|bs| - 1];
      GridExtentIsExtent(front);
      assert forall n :: 0 <= n < |front| ==> bs[n] == front[n];
    }
  }

  /** The min/max scan shared by setMeas and getVertex. */
  method ComputeExtent(bs: seq<Block>) returns (e: Extent)
    ensures e == GridExtent(bs)
    ensures ExtentOf(e, bs)
  {
    e := InitialExtent;
    for n := 0 to |bs|
      invariant e == GridExtent(bs[..n])
    {
      var b := bs[n];
      if b.j > e.xmax { e := e.(xmax := b.j); }
      if b.j < e.xmin { e := e.(xmin := b.j); }
      if b.i > e.ymax { e := e.(ymax := b.i); }
      if b.i < e.ymin { e := e.(ymin := b.i); }
      if b.k > e.zmax { e := e.(zmax := b.k); }
      if b.k < e.zmin { e := e.(zmin := b.k); }
      assert bs[..n + 1][..n] == bs[..n];
    }
    assert bs[..|bs|] == bs;
    GridExtentIsExtent(bs);
  }

  /** The corner of an extent that takes the upper bound on each axis
      whose flag is set and the lower bound on the others. */
  function Corner(e: Extent, hiX: bool, hiY: bool, hiZ: bool): Vec3
  {
    Vec3(if hiX then e.xmax as real else e.xmin as real,
         if hiY then e.ymax as real else e.ymin as real,
         if hiZ then e.zmax as real else e.zmin as real)
  }

  /** The eight corners of an extent, in the order getVertex lists them:
      the layer (z) changes slowest, then the column (x), then the row (y).
      Every corner of the box occurs. */
  function Corners(e: Extent): (r: seq<Vec3>)
    ensures |r| == 8
    ensures forall n :: 0 <= n < 8 ==> r[n] == Corner(e, (n / 2) % 2 == 1, n % 2 == 1, n >= 4)
    ensures forall hiX: bool, hiY: bool, hiZ: bool :: Corner(e, hiX, hiY, hiZ) in r
    ensures r[0] == Vec3(e.xmin as real, e.ymin as real, e.zmin as real)
    ensures r[7] == Vec3(e.xmax as real, e.ymax as real, e.zmax as real)
  {
    var x0, x1 := e.xmin as real, e.xmax as real;
    var y0, y1 := e.ymin as real, e.ymax as real;
    var z0, z1 := e.zmin as real, e.zmax as real;
    var r := [Vec3(x0, y0, z0), Vec3(x0, y1, z0), Vec3(x1, y0, z0), Vec3(x1, y1, z0),
              Vec3(x0, y0, z1), Vec3(x0, y1, z1), Vec3(x1, y0, z1), Vec3(x1, y1, z1)];
    assert forall hiX: bool, hiY: bool, hiZ: bool ::
             Corner(e, hiX, hiY, hiZ) == r[(if hiZ then 4 else 0) + (if hiX then 2 else 0) + (if hiY then 1 else 0)];
    r
  }
}
