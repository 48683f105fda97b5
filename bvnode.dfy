// The bounding-volume tree over a body's boundary blocks: each node splits
// its blocks at the midpoint of their bounding box along one axis until a
// single block is left.

module BoundingVolumes {
  import opened Vectors
  import opened Blocks

  /** A node of the tree. A leaf holds exactly one block; every other node
      has exactly two children. The visit stamp is written by the collision
      detection, which is not part of this model; a new node carries 0. */
  datatype BVNode =
    | Leaf(leafBlock: Block, visitID: int)
    | Interior(child1: BVNode, child2: BVNode, visitID: int)
  {
    /** isLeaf: true exactly for the nodes holding a block. */
    predicate IsLeaf()
    {
      Leaf?
    }
  }

  /** The blocks at the leaves, left to right. */
  function Leaves(node: BVNode): seq<Block>
  {
    match node
    case Leaf(b, _) => [b]
    case Interior(c1, c2, _) => Leaves(c1) + Leaves(c2)
  }

  // ---------------------------------------------------------------------
  // Blocks with the positions the construction reads
  // ---------------------------------------------------------------------

  /** A block together with its body-local position pB. Construction only
      reads the positions, so the tree is a function of these pairs. */
  datatype Item = Item(block: Block, pB: Vec3)

  /** The blocks of a list paired with their current positions. */
  function Located(bs: seq<Block>): seq<Item>
    reads bs
  {
    if bs == [] then [] else Located(bs[..|bs| - 1]) + [Item(bs[|bs| - 1], bs[|bs| - 1].pB)]
  }

  /** The blocks of the items, counted with multiplicity. */
  function BlockBag(items: seq<Item>): multiset<Block>
  {
    if items == [] then multiset{} else BlockBag(items[..|items| - 1]) + multiset{items[|items| - 1].block}
  }

  /** No two items share a position. */
  predicate DistinctItems(items: seq<Item>)
  {
    forall p, q :: 0 <= p < q < |items| ==> items[p].pB != items[q].pB
  }

  // ---------------------------------------------------------------------
  // Bounding box, axis choice and partition
  // ---------------------------------------------------------------------

  datatype Box = Box(lo: Vec3, hi: Vec3)

  function Min(a: real, b: real): real { if a <= b then a else b }
  function Max(a: real, b: real): real { if a >= b then a else b }

  /** One step of the min/max scan. */
  function Grow(box: Box, p: Vec3): Box
  {
    Box(Vec3(Min(box.lo.x, p.x), Min(box.lo.y, p.y), Min(box.lo.z, p.z)),
        Vec3(Max(box.hi.x, p.x), Max(box.hi.y, p.y), Max(box.hi.z, p.z)))
  }

  /** The scan over the positions, from a given starting box. */
  function BoxOver(start: Box, items: seq<Item>): Box
  {
    if items == [] then start else Grow(BoxOver(start, items[..|items| - 1]), items[|items| - 1].pB)
  }

  /** The bounding box of a non-empty list: the scan starts at the first
      position. */
  function BoxOf(items: seq<Item>): Box
    requires |items| >= 1
  {
    BoxOver(Box(items[0].pB, items[0].pB), items)
  }

  /** interpolate(max, min, 0.5). */
  function Midpoint(box: Box): Vec3
  {
    Vec3(0.5 * box.hi.x + 0.5 * box.lo.x, 0.5 * box.hi.y + 0.5 * box.lo.y, 0.5 * box.hi.z + 0.5 * box.lo.z)
  }

  /** The axis to split along, by the nested comparisons of the source. */
  function ChooseAxis(diff: Vec3): Axis
  {
    if diff.y > diff.x then
      if diff.z > diff.y then Z else Y
    else
      if diff.z > diff.y then Z else X
  }

  /** Whether an item belongs to the first half (L1). */
  predicate GoesFirst(it: Item, a: Axis, centre: Vec3)
  {
    Coord(it.pB, a) < Coord(centre, a)
  }

  /** L1: the items strictly below the centre on the axis, in list order. */
  function Below(items: seq<Item>, a: Axis, centre: Vec3): seq<Item>
  {
    if items == [] then []
    else if GoesFirst(items[|items| - 1], a, centre) then Below(items[..|items| - 1], a, centre) + [items[|items| - 1]]
    else Below(items[..|items| - 1], a, centre)
  }

  /** L2: the other items, in list order. */
  function Above(items: seq<Item>, a: Axis, centre: Vec3): seq<Item>
  {
    if items == [] then []
    else if GoesFirst(items[|items| - 1], a, centre) then Above(items[..|items| - 1], a, centre)
    else Above(items[..|items| - 1], a, centre) + [items[|items| - 1]]
  }

  /** The axis a node with these items splits along. */
  function SplitAxis(items: seq<Item>): Axis
    requires |items| >= 1
  {
    var box := BoxOf(items);
    ChooseAxis(Sub(box.hi, box.lo))
  }

  /** The point a node with these items splits at. */
  function SplitCentre(items: seq<Item>): Vec3
    requires |items| >= 1
  {
    Midpoint(BoxOf(items))
  }

  /** The tree the constructor builds. It is defined for non-empty lists of
      distinct positions. On an empty list the constructor fails reading
      the first block; when every item sits at one position, every item goes
      to the second half, so the first half is empty and its construction
      fails in the same way, and a list holding two items at one position
      reaches such a sublist. */
  function Tree(items: seq<Item>): BVNode
    requires |items| >= 1 && DistinctItems(items)
    decreases |items|
  {
    if |items| == 1 then Leaf(items[0].block, 0)
    else
      SplitShrinks(items);
      var a, centre := SplitAxis(items), SplitCentre(items);
      Interior(Tree(Below(items, a, centre)), Tree(Above(items, a, centre)), 0)
  }

  // ---------------------------------------------------------------------
  // The constructor
  // ---------------------------------------------------------------------

  /** new BVNode(blocks, body): the min/max scan, the partition loop and the
      two recursive constructions. `items` names the blocks with the
      positions they have on entry. */
  method Build(bs: seq<Block>, ghost items: seq<Item>) returns (node: BVNode)
    requires items == Located(bs)
    requires |bs| >= 1 && DistinctItems(items)
    ensures node == Tree(items)
    ensures multiset(Leaves(node)) == multiset(bs)
    ensures node.IsLeaf() <==> |bs| == 1
    decreases |bs|
  {
    LocatedFacts(bs);
    assert multiset(Leaves(Tree(items))) == multiset(bs) && (Tree(items).IsLeaf() <==> |bs| == 1) by {
      TreeLeaves(items);
      BagOfLocated(bs);
    }
    if |bs| == 1 {
      return Leaf(bs[0], 0);
    }
    var min, max := ScanBox(bs, items);
    var diff := Sub(max, min);
    var centre := Midpoint(Box(min, max));
    assert SplitAxis(items) == ChooseAxis(diff) && SplitCentre(items) == centre;
    SplitShrinks(items);
    var first, second := Partition(bs, items, diff, centre);
    LocatedFacts(first);
    LocatedFacts(second);
    var child1 := Build(first, Located(first));
    var child2 := Build(second, Located(second));
    node := Interior(child1, child2, 0);
  }

  /** The min/max loop, starting from the first block's position. */
  method ScanBox(bs: seq<Block>, ghost items: seq<Item>) returns (min: Vec3, max: Vec3)
    requires items == Located(bs)
    requires |bs| >= 1
    ensures Box(min, max) == BoxOf(items)
  {
    LocatedFacts(bs);
    var b0 := bs[0];
    max, min := b0.pB, b0.pB;
    for n := 0 to |bs|
      invariant Box(min, max) == BoxOver(Box(b0.pB, b0.pB), items[..n])
    {
      var b := bs[n];
      max := Vec3(Max(max.x, b.pB.x), Max(max.y, b.pB.y), Max(max.z, b.pB.z));
      min := Vec3(Min(min.x, b.pB.x), Min(min.y, b.pB.y), Min(min.z, b.pB.z));
      assert items[..n + 1][..n] == items[..n];
    }
    assert items[..|bs|] == items;
  }

  /** The partition loop, with the axis test written as in the source. */
  method Partition(bs: seq<Block>, ghost items: seq<Item>, diff: Vec3, centre: Vec3)
    returns (first: seq<Block>, second: seq<Block>)
    requires items == Located(bs)
    ensures Located(first) == Below(items, ChooseAxis(diff), centre)
    ensures Located(second) == Above(items, ChooseAxis(diff), centre)
  {
    LocatedFacts(bs);
    ghost var a := ChooseAxis(diff);
    first, second := [], [];
    for n := 0 to |bs|
      invariant Located(first) == Below(items[..n], a, centre)
      invariant Located(second) == Above(items[..n], a, centre)
    {
      var b := bs[n];
      assert items[..n + 1] == items[..n] + [Item(b, b.pB)];
      LocatedAppend(first, b);
      LocatedAppend(second, b);
      if diff.y > diff.x {
        if diff.z > diff.y {
          if b.pB.z < centre.z { first := first + [b]; } else { second := second + [b]; }
        } else {
          if b.pB.y < centre.y { first := first + [b]; } else { second := second + [b]; }
        }
      } else {
        if diff.z > diff.y {
          if b.pB.z < centre.z { first := first + [b]; } else { second := second + [b]; }
        } else {
          if b.pB.x < centre.x { first := first + [b]; } else { second := second + [b]; }
        }
      }
    }
    assert items[..|bs|] == items;
  }

  // ---------------------------------------------------------------------
  // The traversal of displayVisitBoundary
  // ---------------------------------------------------------------------

  /** The nodes whose discs displayVisitBoundary draws: a leaf, or a node
      whose first child was not stamped with this visit, stops the descent;
      otherwise both children are visited in turn. */
  function Frontier(node: BVNode, visit: int): seq<BVNode>
  {
    if node.IsLeaf() || node.child1.visitID != visit then [node]
    else Frontier(node.child1, visit) + Frontier(node.child2, visit)
  }

  /** The blocks under a list of nodes, in order. */
  function LeavesOfAll(nodes: seq<BVNode>): seq<Block>
  {
    if nodes == [] then [] else LeavesOfAll(nodes[..|nodes| - 1]) + Leaves(nodes[|nodes| - 1])
  }

  // ---------------------------------------------------------------------
  // Properties
  // ---------------------------------------------------------------------

  lemma {:induction false} LocatedFacts(bs: seq<Block>)
    ensures |Located(bs)| == |bs|
    ensures forall n :: 0 <= n < |bs| ==> Located(bs)[n] == Item(bs[n], bs[n].pB)
  {
    if bs != [] {
      LocatedFacts(bs[..|bs| - 1]);
    }
  }

  lemma LocatedAppend(bs: seq<Block>, b: Block)
    ensures Located(bs + [b]) == Located(bs) + [Item(b, b.pB)]
  {
    assert (bs + [b])[..|bs|] == bs;
  }

  lemma {:induction false} BagOfLocated(bs: seq<Block>)
    ensures BlockBag(Located(bs)) == multiset(bs)
  {
    if bs != [] {
      var front := bs[..|bs| - 1];
      BagOfLocated(front);
      LocatedFacts(bs);
      assert Located(bs)[..|Located(bs)| - 1] == Located(front);
      assert bs == front + [bs[|bs| - 1]];
    }
  }

  lemma BlockBagAppend(items: seq<Item>, it: Item)
    ensures BlockBag(items + [it]) == BlockBag(items) + multiset{it.block}
  {
    assert (items + [it])[..|items|] == items;
  }

  /** Blocks with distinct positions give a located list with distinct
      positions. */
  lemma LocatedDistinct(bs: seq<Block>)
    requires DistinctPositions(bs)
    ensures DistinctItems(Located(bs))
  {
    LocatedFacts(bs);
  }

  /** The axis rule in words: z exactly when diff.z > diff.y; y when that
      fails and diff.y > diff.x; x otherwise. */
  lemma ChooseAxisRule(diff: Vec3)
    ensures ChooseAxis(diff) == Z <==> diff.z > diff.y
    ensures ChooseAxis(diff) == Y <==> diff.z <= diff.y && diff.y > diff.x
    ensures ChooseAxis(diff) == X <==> diff.z <= diff.y && diff.y <= diff.x
  {
  }

  /** z is compared with y only: a box far widest in x is still cut in z. */
  lemma ChooseAxisIgnoresWidestX()
    ensures ChooseAxis(Vec3(10.0, 0.0, 1.0)) == Z
  {
  }

  /** On a box with no negative side, the chosen side is empty only when
      every side is. */
  lemma ChosenSideEmptyOnlyIfPoint(diff: Vec3)
    requires diff.x >= 0.0 && diff.y >= 0.0 && diff.z >= 0.0
    ensures Coord(diff, ChooseAxis(diff)) == 0.0 ==> diff == Zero
  {
  }

  /** One scan step along an axis: the low side takes the minimum and the
      high side the maximum. */
  lemma GrowCoord(box: Box, p: Vec3, a: Axis)
    ensures Coord(Grow(box, p).lo, a) == Min(Coord(box.lo, a), Coord(p, a))
    ensures Coord(Grow(box, p).hi, a) == Max(Coord(box.hi, a), Coord(p, a))
  {
  }

  /** Along each axis the scan contains every position, never shrinks its
      start, and each side is either its start or attained by some item. */
  lemma {:induction false} BoxOverAxis(start: Box, items: seq<Item>, a: Axis)
    ensures forall n :: 0 <= n < |items| ==>
      Coord(BoxOver(start, items).lo, a) <= Coord(items[n].pB, a) <= Coord(BoxOver(start, items).hi, a)
    ensures Coord(BoxOver(start, items).lo, a) <= Coord(start.lo, a)
    ensures Coord(BoxOver(start, items).hi, a) >= Coord(start.hi, a)
    ensures Coord(BoxOver(start, items).lo, a) == Coord(start.lo, a) ||
      exists n :: 0 <= n < |items| && Coord(items[n].pB, a) == Coord(BoxOver(start, items).lo, a)
    ensures Coord(BoxOver(start, items).hi, a) == Coord(start.hi, a) ||
      exists n :: 0 <= n < |items| && Coord(items[n].pB, a) == Coord(BoxOver(start, items).hi, a)
  {
    if items != [] {
      var front, last := items[..|items| - 1], items[|items| - 1];
      var prev, box := BoxOver(start, front), BoxOver(start, items);
      BoxOverAxis(start, front, a);
      assert box == Grow(prev, last.pB);
      GrowCoord(prev, last.pB, a);
      assert forall n :: 0 <= n < |front| ==> front[n] == items[n];
      if Coord(box.lo, a) != Coord(start.lo, a) {
        if Coord(box.lo, a) == Coord(prev.lo, a) {
          var n :| 0 <= n < |front| && Coord(front[n].pB, a) == Coord(prev.lo, a);
          assert Coord(items[n].pB, a) == Coord(box.lo, a);
        } else {
          assert Coord(items[|items| - 1].pB, a) == Coord(box.lo, a);
        }
      }
      if Coord(box.hi, a) != Coord(start.hi, a) {
        if Coord(box.hi, a) == Coord(prev.hi, a) {
          var n :| 0 <= n < |front| && Coord(front[n].pB, a) == Coord(prev.hi, a);
          assert Coord(items[n].pB, a) == Coord(box.hi, a);
        } else {
          assert Coord(items[|items| - 1].pB, a) == Coord(box.hi, a);
        }
      }
    }
  }

  /** The bounding box of a list contains every position and each of its
      sides is attained by an item. */
  lemma BoxOfBounds(items: seq<Item>)
    requires |items| >= 1
    ensures forall a: Axis, n :: 0 <= n < |items| ==>
      Coord(BoxOf(items).lo, a) <= Coord(items[n].pB, a) <= Coord(BoxOf(items).hi, a)
    ensures forall a: Axis :: exists n :: 0 <= n < |items| && Coord(items[n].pB, a) == Coord(BoxOf(items).lo, a)
    ensures forall a: Axis :: exists n :: 0 <= n < |items| && Coord(items[n].pB, a) == Coord(BoxOf(items).hi, a)
  {
    var start := Box(items[0].pB, items[0].pB);
    var box := BoxOf(items);
    assert box == BoxOver(start, items);
    forall a: Axis, n | 0 <= n < |items|
      ensures Coord(box.lo, a) <= Coord(items[n].pB, a) <= Coord(box.hi, a)
    {
      BoxOverAxis(start, items, a);
    }
    forall a: Axis
      ensures exists n :: 0 <= n < |items| && Coord(items[n].pB, a) == Coord(box.lo, a)
      ensures exists n :: 0 <= n < |items| && Coord(items[n].pB, a) == Coord(box.hi, a)
    {
      BoxOverAxis(start, items, a);
      if Coord(box.lo, a) == Coord(start.lo, a) {
        assert Coord(items[0].pB, a) == Coord(box.lo, a);
      }
      if Coord(box.hi, a) == Coord(start.hi, a) {
        assert Coord(items[0].pB, a) == Coord(box.hi, a);
      }
    }
  }

  /** The split is a partition: L1 and L2 together hold each item (and each
      block) exactly as often as the input, L1 holds exactly the items below
      the centre on the axis and L2 exactly the others. */
  lemma SplitIsPartition(items: seq<Item>, a: Axis, centre: Vec3)
    ensures multiset(Below(items, a, centre)) + multiset(Above(items, a, centre)) == multiset(items)
    ensures BlockBag(Below(items, a, centre)) + BlockBag(Above(items, a, centre)) == BlockBag(items)
    ensures |Below(items, a, centre)| + |Above(items, a, centre)| == |items|
    ensures forall it :: it in Below(items, a, centre) ==> it in items && GoesFirst(it, a, centre)
    ensures forall it :: it in Above(items, a, centre) ==> it in items && !GoesFirst(it, a, centre)
    ensures forall it :: it in items ==>
      if GoesFirst(it, a, centre) then it in Below(items, a, centre) else it in Above(items, a, centre)
  {
    SplitCounts(items, a, centre);
    SplitLengths(items, a, centre);
    SplitBlocks(items, a, centre);
    SplitMembers(items, a, centre);
  }

  lemma {:induction false} SplitMembers(items: seq<Item>, a: Axis, centre: Vec3)
    ensures forall it :: it in Below(items, a, centre) ==> it in items && GoesFirst(it, a, centre)
    ensures forall it :: it in Above(items, a, centre) ==> it in items && !GoesFirst(it, a, centre)
    ensures forall it :: it in items ==>
      if GoesFirst(it, a, centre) then it in Below(items, a, centre) else it in Above(items, a, centre)
  {
    if items != [] {
      var front, last := items[..|items| - 1], items[|items| - 1];
      SplitMembers(front, a, centre);
      assert items == front + [last];
      if GoesFirst(last, a, centre) {
        assert Below(items, a, centre) == Below(front, a, centre) + [last];
        assert Above(items, a, centre) == Above(front, a, centre);
      } else {
        assert Below(items, a, centre) == Below(front, a, centre);
        assert Above(items, a, centre) == Above(front, a, centre) + [last];
      }
    }
  }

  lemma {:induction false} SplitCounts(items: seq<Item>, a: Axis, centre: Vec3)
    ensures multiset(Below(items, a, centre)) + multiset(Above(items, a, centre)) == multiset(items)
  {
    if items != [] {
      var front, last := items[..|items| - 1], items[|items| - 1];
      var below, above := Below(front, a, centre), Above(front, a, centre);
      SplitCounts(front, a, centre);
      assert multiset(items) == multiset(front) + multiset{last} by {
        assert items == front + [last];
      }
      if GoesFirst(last, a, centre) {
        assert Below(items, a, centre) == below + [last] && Above(items, a, centre) == above;
        assert multiset(below + [last]) == multiset(below) + multiset{last};
      } else {
        assert Below(items, a, centre) == below && Above(items, a, centre) == above + [last];
        assert multiset(above + [last]) == multiset(above) + multiset{last};
      }
    }
  }

  /** The two halves together are as long as the input. */
  lemma SplitLengths(items: seq<Item>, a: Axis, centre: Vec3)
    ensures |Below(items, a, centre)| + |Above(items, a, centre)| == |items|
  {
    SplitCounts(items, a, centre);
    assert |multiset(Below(items, a, centre)) + multiset(Above(items, a, centre))| == |multiset(items)|;
  }

  lemma {:induction false} SplitBlocks(items: seq<Item>, a: Axis, centre: Vec3)
    ensures BlockBag(Below(items, a, centre)) + BlockBag(Above(items, a, centre)) == BlockBag(items)
  {
    if items != [] {
      var front, last := items[..|items| - 1], items[|items| - 1];
      var below, above := Below(front, a, centre), Above(front, a, centre);
      SplitBlocks(front, a, centre);
      if GoesFirst(last, a, centre) {
        assert Below(items, a, centre) == below + [last];
        BlockBagAppend(below, last);
      } else {
        assert Above(items, a, centre) == above + [last];
        BlockBagAppend(above, last);
      }
    }
  }

  lemma DistinctAppend(xs: seq<Item>, it: Item)
    requires DistinctItems(xs)
    requires forall x :: x in xs ==> x.pB != it.pB
    ensures DistinctItems(xs + [it])
  {
    var ys := xs + [it];
    forall p, q | 0 <= p < q < |ys| ensures ys[p].pB != ys[q].pB {
      if q < |xs| {
        assert ys[p] == xs[p] && ys[q] == xs[q];
      } else {
        assert ys[p] in xs;
      }
    }
  }

  /** Both halves keep their items in order, so they inherit distinct
      positions. */
  lemma {:induction false} BelowAboveDistinct(items: seq<Item>, a: Axis, centre: Vec3)
    requires DistinctItems(items)
    ensures DistinctItems(Below(items, a, centre))
    ensures DistinctItems(Above(items, a, centre))
  {
    if items != [] {
      var front, last := items[..|items| - 1], items[|items| - 1];
      assert DistinctItems(front) by {
        forall p, q | 0 <= p < q < |front| ensures front[p].pB != front[q].pB {
          assert front[p] == items[p] && front[q] == items[q];
        }
      }
      BelowAboveDistinct(front, a, centre);
      SplitIsPartition(front, a, centre);
      forall x | x in front ensures x.pB != last.pB {
        var p :| 0 <= p < |front| && front[p] == x;
        assert items[p] == x;
      }
      if GoesFirst(last, a, centre) {
        DistinctAppend(Below(front, a, centre), last);
      } else {
        DistinctAppend(Above(front, a, centre), last);
      }
    }
  }

  /** For two or more distinct positions the chosen side of the box is not
      empty, so the lowest item on that axis lies below the midpoint and
      the highest does not. */
  lemma SplitStraddles(items: seq<Item>)
    requires |items| >= 2 && DistinctItems(items)
    ensures exists low :: 0 <= low < |items| && GoesFirst(items[low], SplitAxis(items), SplitCentre(items))
    ensures exists high :: 0 <= high < |items| && !GoesFirst(items[high], SplitAxis(items), SplitCentre(items))
  {
    var box := BoxOf(items);
    var diff := Sub(box.hi, box.lo);
    var a, centre := SplitAxis(items), SplitCentre(items);
    BoxOfBounds(items);
    assert Coord(box.lo, X) <= Coord(items[0].pB, X) <= Coord(box.hi, X);
    assert Coord(box.lo, Y) <= Coord(items[0].pB, Y) <= Coord(box.hi, Y);
    assert Coord(box.lo, Z) <= Coord(items[0].pB, Z) <= Coord(box.hi, Z);
    ChosenSideEmptyOnlyIfPoint(diff);
    if Coord(diff, a) == 0.0 {
      assert false;
    }
    assert Coord(diff, a) == Coord(box.hi, a) - Coord(box.lo, a);
    assert Coord(centre, a) == 0.5 * Coord(box.hi, a) + 0.5 * Coord(box.lo, a);
    var low :| 0 <= low < |items| && Coord(items[low].pB, a) == Coord(box.lo, a);
    var high :| 0 <= high < |items| && Coord(items[high].pB, a) == Coord(box.hi, a);
    assert GoesFirst(items[low], a, centre);
    assert !GoesFirst(items[high], a, centre);
  }

  /** Both halves are non-empty, both are strictly shorter than the input
      and both inherit distinct positions: the recursion terminates. */
  lemma SplitShrinks(items: seq<Item>)
    requires |items| >= 2 && DistinctItems(items)
    ensures 1 <= |Below(items, SplitAxis(items), SplitCentre(items))| < |items|
    ensures 1 <= |Above(items, SplitAxis(items), SplitCentre(items))| < |items|
    ensures DistinctItems(Below(items, SplitAxis(items), SplitCentre(items)))
    ensures DistinctItems(Above(items, SplitAxis(items), SplitCentre(items)))
  {
    var a, centre := SplitAxis(items), SplitCentre(items);
    SplitStraddles(items);
    var low :| 0 <= low < |items| && GoesFirst(items[low], a, centre);
    var high :| 0 <= high < |items| && !GoesFirst(items[high], a, centre);
    SplitMembers(items, a, centre);
    SplitLengths(items, a, centre);
    assert items[low] in Below(items, a, centre);
    assert items[high] in Above(items, a, centre);
    BelowAboveDistinct(items, a, centre);
  }

  /** The leaves of the tree are exactly the input blocks, and the root is a
      leaf exactly when there is one block. */
  lemma {:induction false} TreeLeaves(items: seq<Item>)
    requires |items| >= 1 && DistinctItems(items)
    ensures multiset(Leaves(Tree(items))) == BlockBag(items)
    ensures Tree(items).IsLeaf() <==> |items| == 1
    decreases |items|
  {
    if |items| > 1 {
      var a, centre := SplitAxis(items), SplitCentre(items);
      SplitShrinks(items);
      TreeLeaves(Below(items, a, centre));
      TreeLeaves(Above(items, a, centre));
      SplitIsPartition(items, a, centre);
    } else {
      assert items[..0] == [];
    }
  }

  lemma {:induction false} LeavesOfAllAppend(xs: seq<BVNode>, ys: seq<BVNode>)
    ensures LeavesOfAll(xs + ys) == LeavesOfAll(xs) + LeavesOfAll(ys)
    decreases |ys|
  {
    if ys != [] {
      var init, last := ys[..|ys| - 1], ys[|ys| - 1];
      assert (xs + ys)[..|xs + ys| - 1] == xs + init;
      assert (xs + ys)[|xs + ys| - 1] == last;
      LeavesOfAllAppend(xs, init);
      calc {
        LeavesOfAll(xs + ys);
        LeavesOfAll(xs + init) + Leaves(last);
        LeavesOfAll(xs) + LeavesOfAll(init) + Leaves(last);
        LeavesOfAll(xs) + (LeavesOfAll(init) + Leaves(last));
      }
    } else {
      assert xs + ys == xs;
    }
  }

  /** The frontier covers the tree: its nodes' leaves, in order, are the
      tree's leaves; and each frontier node is where the descent stops. */
  lemma {:induction false} FrontierCoversLeaves(node: BVNode, visit: int)
    ensures LeavesOfAll(Frontier(node, visit)) == Leaves(node)
    ensures forall m :: m in Frontier(node, visit) ==> m.IsLeaf() || m.child1.visitID != visit
  {
    if !(node.IsLeaf() || node.child1.visitID != visit) {
      FrontierCoversLeaves(node.child1, visit);
      FrontierCoversLeaves(node.child2, visit);
      LeavesOfAllAppend(Frontier(node.child1, visit), Frontier(node.child2, visit));
    } else {
      assert [node][..0] == [];
    }
  }
}
