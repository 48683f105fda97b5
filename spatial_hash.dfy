// The broad-phase spatial hash of RigidBodySystem: square cells of side
// `width`, numbered row by row with `numPerRow` cells to a row, and a map
// from cell key to the bodies entered into that cell. Entries are appended
// only when absent and are never removed.

module SpatialHash {
  import opened Vectors
  import opened Blocks

  function Abs(a: int): nat
  {
    if a < 0 then -a else a
  }

  // ---------------------------------------------------------------------
  // Java arithmetic
  // ---------------------------------------------------------------------

  /** Java's `/` on int: the quotient truncated toward zero. Its magnitude
      is the largest whose multiple of b does not exceed a in magnitude, and
      it is negative exactly when a and b have opposite signs and a is at
      least b in magnitude. */
  function TruncDiv(a: int, b: int): (q: int)
    requires b != 0
    ensures Abs(q * b) <= Abs(a) < Abs((Abs(q) + 1) * b)
    ensures q < 0 <==> (a < 0) != (b < 0) && Abs(a) >= Abs(b)
  {
    var m := Abs(a) / Abs(b);
    NaturalDivBounds(Abs(a), Abs(b));
    AbsProduct(m + 1, b);
    if (a < 0) == (b < 0) then
      AbsProduct(m, b);
      m
    else
      AbsProduct(-m, b);
      -m
  }

  /** Euclidean division of naturals: the quotient's multiple lies within
      one divisor below the dividend, and it is positive once the dividend
      reaches the divisor. */
  lemma NaturalDivBounds(a: nat, b: nat)
    requires b > 0
    ensures (a / b) * b <= a < (a / b + 1) * b
    ensures a / b >= 0 && (a >= b <==> a / b >= 1)
  {
    var m, r := a / b, a % b;
    assert a == m * b + r && 0 <= r < b;
    assert (m + 1) * b == m * b + b;
    if m >= 1 {
      assert m * b >= b;
    }
  }

  lemma AbsProduct(p: int, b: int)
    ensures Abs(p * b) == Abs(p) * Abs(b)
  {
    if p < 0 && b < 0 {
      assert p * b == (-p) * (-b);
    } else if p < 0 {
      assert -(p * b) == (-p) * b;
    } else if b < 0 {
      assert -(p * b) == p * (-b);
    }
  }

  /** On a non-negative dividend and a positive divisor, truncation and
      Dafny's Euclidean division agree. */
  lemma {:induction false} TruncDivNatural(a: int, b: int)
    requires a >= 0 && b > 0
    ensures TruncDiv(a, b) == a / b
  {
    var q := TruncDiv(a, b);
    assert q >= 0;
    assert q * b <= a < (q + 1) * b by {
      AbsProduct(q, b);
      AbsProduct(q + 1, b);
    }
    DivUnique(a, b, q);
  }

  lemma DivUnique(a: int, b: int, q: int)
    requires b > 0 && q * b <= a < (q + 1) * b
    ensures a / b == q
  {
    var r := a / b;
    assert a == r * b + a % b && 0 <= a % b < b;
    assert (q + 1) * b == q * b + b && (r + 1) * b == r * b + b;
    if r < q {
      AtLeastOnce(q - r, b);
    } else if r > q {
      AtLeastOnce(r - q, b);
    }
  }

  lemma AtLeastOnce(k: int, b: int)
    requires k >= 1 && b > 0
    ensures k * b >= b
  {
    assert k * b == (k - 1) * b + b;
    assert (k - 1) * b >= 0;
  }

  /** Truncation differs from flooring just below zero: -1 / w is 0 in Java
      for every w > 1. */
  lemma TruncDivOfMinusOne(w: int)
    requires w > 1
    ensures TruncDiv(-1, w) == 0
    ensures -1 / w == -1
  {
  }

  /** Math.ceil of a real, as an integer: the least integer not below r. */
  function Ceil(r: real): (c: int)
    ensures r <= c as real < r + 1.0
  {
    -((-r).Floor)
  }

  // ---------------------------------------------------------------------
  // Cell keys
  // ---------------------------------------------------------------------

  /** The key of the cell in column col and row row. */
  function CellKey(col: int, row: int, perRow: int): int
  {
    col + row * perRow
  }

  /** Within a row of perRow columns, a key determines its cell. */
  lemma CellKeyDecode(col: int, row: int, perRow: int)
    requires perRow > 0 && 0 <= col < perRow
    ensures CellKey(col, row, perRow) / perRow == row
    ensures CellKey(col, row, perRow) % perRow == col
  {
    var key := CellKey(col, row, perRow);
    DivUnique(key, perRow, row);
  }

  /** The key of a pinned body's block at grid row i, column j: integer
      divisions truncating toward zero. */
  function PinnedKey(j: int, i: int, width: int, perRow: int): int
    requires width != 0
  {
    TruncDiv(j, width) + TruncDiv(i - 1, width) * perRow
  }

  /** The keys of all boundary blocks of a pinned body, in list order. */
  function PinnedKeys(bs: seq<Block>, width: int, perRow: int): (keys: seq<int>)
    requires width != 0
    ensures |keys| == |bs|
    ensures forall n :: 0 <= n < |bs| ==> keys[n] == PinnedKey(bs[n].j, bs[n].i, width, perRow)
  {
    if bs == [] then []
    else PinnedKeys(bs[..|bs| - 1], width, perRow) + [PinnedKey(bs[|bs| - 1].j, bs[|bs| - 1].i, width, perRow)]
  }

  /** A block in a cell of the grid, with a row of at least 1 so that i - 1
      is not negative, gets that cell's key. */
  lemma PinnedKeyCell(j: int, i: int, width: int, perRow: int, col: int, row: int)
    requires width > 0
    requires col * width <= j < (col + 1) * width && col >= 0
    requires row * width <= i - 1 < (row + 1) * width && row >= 0
    ensures PinnedKey(j, i, width, perRow) == CellKey(col, row, perRow)
  {
    assert j >= 0 && i - 1 >= 0;
    TruncDivNatural(j, width);
    TruncDivNatural(i - 1, width);
    DivUnique(j, width, col);
    DivUnique(i - 1, width, row);
  }

  /** The unpinned key as the source computes it: the row is multiplied by
      numPerRow before it is floored. */
  function UnpinnedKeyAsWritten(x: Vec3, width: int, perRow: int): int
    requires width != 0
  {
    (x.x / width as real).Floor + ((x.y - 1.0) / width as real * perRow as real).Floor
  }

  /** The unpinned key with the row floored first, as for pinned blocks. */
  function UnpinnedKey(x: Vec3, width: int, perRow: int): int
    requires width != 0
  {
    CellKey((x.x / width as real).Floor, ((x.y - 1.0) / width as real).Floor, perRow)
  }

  lemma FloorUnique(r: real, n: int)
    requires n as real <= r < n as real + 1.0
    ensures r.Floor == n
  {
  }

  lemma QuotientBetween(p: real, w: real, n: int)
    requires w > 0.0 && n as real * w <= p < (n as real + 1.0) * w
    ensures n as real <= p / w < n as real + 1.0
  {
    var t := p / w;
    assert t * w == p;
    if t >= n as real + 1.0 {
      var d := t - (n as real + 1.0);
      NonNegativeProduct(d, w);
    }
  }

  lemma NonNegativeProduct(d: real, w: real)
    requires d >= 0.0 && w >= 0.0
    ensures d * w >= 0.0
  {
  }

  /** A centre of mass inside a cell gets that cell's key. */
  lemma UnpinnedKeyCell(x: Vec3, width: int, perRow: int, col: int, row: int)
    requires width > 0
    requires col as real * width as real <= x.x < (col as real + 1.0) * width as real
    requires row as real * width as real <= x.y - 1.0 < (row as real + 1.0) * width as real
    ensures UnpinnedKey(x, width, perRow) == CellKey(col, row, perRow)
  {
    QuotientBetween(x.x, width as real, col);
    QuotientBetween(x.y - 1.0, width as real, row);
    FloorUnique(x.x / width as real, col);
    FloorUnique((x.y - 1.0) / width as real, row);
  }

  /** A pinned block and an unpinned body at the same grid point, in a row
      of at least 1, fall into the same cell. */
  lemma {:induction false} PinnedAgreesWithUnpinned(j: int, i: int, z: real, width: int, perRow: int)
    requires width > 0 && j >= 0 && i >= 1
    ensures PinnedKey(j, i, width, perRow) == UnpinnedKey(Vec3(j as real, i as real, z), width, perRow)
  {
    var col, row := j / width, (i - 1) / width;
    NaturalDivBounds(j, width);
    NaturalDivBounds(i - 1, width);
    PinnedKeyCell(j, i, width, perRow, col, row);
    BandAsReal(j, width, col);
    BandAsReal(i - 1, width, row);
    assert (i - 1) as real == i as real - 1.0;
    UnpinnedKeyCell(Vec3(j as real, i as real, z), width, perRow, col, row);
  }

  lemma BandAsReal(p: int, w: int, n: int)
    requires n * w <= p < (n + 1) * w
    ensures n as real * w as real <= p as real < (n as real + 1.0) * w as real
  {
    assert (n * w) as real == n as real * w as real;
    assert ((n + 1) * w) as real == (n as real + 1.0) * w as real;
  }

  /** The agreement needs a row of at least 1: for a block in the top
      image row, i = 0, the truncating division of the pinned key gives row
      0 while the floored row of the unpinned key is -1. */
  lemma PinnedTopRowDiffers()
    ensures PinnedKey(0, 0, 10, 3) == 0
    ensures UnpinnedKey(Vec3(0.0, 0.0, 0.0), 10, 3) == -3
  {
    TruncDivNatural(0, 10);
    TruncDivOfMinusOne(10);
    UnpinnedKeyCell(Vec3(0.0, 0.0, 0.0), 10, 3, 0, -1);
  }

  /** The key as written puts a body in the wrong cell: with cells 10 wide
      and 3 to a row, the point (0, 6) lies in column 0 of row 0, cell 0,
      yet the formula gives 1, the key of column 1. */
  lemma UnpinnedKeyAsWrittenMisplaces()
    ensures UnpinnedKey(Vec3(0.0, 6.0, 0.0), 10, 3) == CellKey(0, 0, 3) == 0
    ensures UnpinnedKeyAsWritten(Vec3(0.0, 6.0, 0.0), 10, 3) == 1
  {
    UnpinnedKeyCell(Vec3(0.0, 6.0, 0.0), 10, 3, 0, 0);
    FloorUnique(0.0 / 10.0, 0);
    FloorUnique(5.0 / 10.0 * 3.0, 1);
  }

  // ---------------------------------------------------------------------
  // Duplicate-free insertion
  // ---------------------------------------------------------------------

  predicate NoDuplicates<T(==)>(s: seq<T>)
  {
    forall p, q :: 0 <= p < q < |s| ==> s[p] != s[q]
  }

  /** `if (!list.contains(x)) list.add(x)`. */
  function AddAbsent<T(==)>(s: seq<T>, x: T): seq<T>
  {
    if x in s then s else s + [x]
  }

  /** The list grows by at most x at its end, ends up holding x, keeps no
      duplicates, and a second insertion of x changes nothing. */
  lemma AddAbsentFacts<T>(s: seq<T>, x: T)
    ensures s <= AddAbsent(s, x)
    ensures forall y :: y in AddAbsent(s, x) <==> y in s || y == x
    ensures NoDuplicates(s) ==> NoDuplicates(AddAbsent(s, x))
    ensures AddAbsent(AddAbsent(s, x), x) == AddAbsent(s, x)
  {
  }

  /** Each key of keys added in turn when absent. */
  function AddAllAbsent(s: seq<int>, keys: seq<int>): (r: seq<int>)
    ensures s <= r
    ensures forall y :: y in r <==> y in s || y in keys
    ensures NoDuplicates(s) ==> NoDuplicates(r)
  {
    if keys == [] then s
    else
      var r := AddAllAbsent(s, keys[..|keys| - 1]);
      AddAbsentFacts(r, keys[|keys| - 1]);
      assert forall y :: y in keys <==> y in keys[..|keys| - 1] || y == keys[|keys| - 1] by {
        assert keys == keys[..|keys| - 1] + [keys[|keys| - 1]];
      }
      AddAbsent(r, keys[|keys| - 1])
  }

  /** A list that already holds every key is left as it is. */
  lemma {:induction false} AddAllAbsentHeld(s: seq<int>, keys: seq<int>)
    requires forall y :: y in keys ==> y in s
    ensures AddAllAbsent(s, keys) == s
  {
    if keys != [] {
      var front, last := keys[..|keys| - 1], keys[|keys| - 1];
      assert keys == front + [last];
      AddAllAbsentHeld(s, front);
      assert last in s;
    }
  }

  /** The hash as a map from key to the bodies in that cell. */
  type Hash<T> = map<int, seq<T>>

  /** No list of the hash holds an entry twice. */
  predicate DuplicateFree<T(==)>(hash: Hash<T>)
  {
    forall key :: key in hash ==> NoDuplicates(hash[key])
  }

  /** Enters b into the cell key: appended to the existing list when
      absent, or as a new one-element list. */
  function Insert<T(==)>(hash: Hash<T>, key: int, b: T): Hash<T>
  {
    if key in hash then hash[key := AddAbsent(hash[key], b)] else hash[key := [b]]
  }

  /** After insertion, key is present and holds b; every other entry is as
      before; no list lost an element; duplicate freedom is kept; and a
      second identical insertion changes nothing. */
  lemma InsertFacts<T>(hash: Hash<T>, key: int, b: T)
    ensures Insert(hash, key, b).Keys == hash.Keys + {key}
    ensures b in Insert(hash, key, b)[key]
    ensures forall k :: k in hash ==> hash[k] <= Insert(hash, key, b)[k]
    ensures forall k :: k in hash && k != key ==> Insert(hash, key, b)[k] == hash[k]
    ensures DuplicateFree(hash) ==> DuplicateFree(Insert(hash, key, b))
    ensures Insert(Insert(hash, key, b), key, b) == Insert(hash, key, b)
  {
    if key in hash {
      AddAbsentFacts(hash[key], b);
    }
  }

  /** Enters b into every cell of keys, in order. */
  function InsertAll<T(==)>(hash: Hash<T>, keys: seq<int>, b: T): Hash<T>
  {
    if keys == [] then hash else Insert(InsertAll(hash, keys[..|keys| - 1], b), keys[|keys| - 1], b)
  }

  /** The cells of keys are present and hold b; cells outside keys are
      untouched; nothing is lost; duplicate freedom is kept. */
  lemma {:induction false} InsertAllFacts<T>(hash: Hash<T>, keys: seq<int>, b: T)
    ensures InsertAll(hash, keys, b).Keys == hash.Keys + set k | k in keys
    ensures forall k :: k in keys ==> b in InsertAll(hash, keys, b)[k]
    ensures forall k :: k in hash ==> hash[k] <= InsertAll(hash, keys, b)[k]
    ensures forall k :: k in hash && k !in keys ==> InsertAll(hash, keys, b)[k] == hash[k]
    ensures DuplicateFree(hash) ==> DuplicateFree(InsertAll(hash, keys, b))
  {
    if keys != [] {
      var front, last := keys[..|keys| - 1], keys[|keys| - 1];
      assert keys == front + [last];
      InsertAllFacts(hash, front, b);
      var mid := InsertAll(hash, front, b);
      InsertFacts(mid, last, b);
      forall k | k in keys
        ensures b in InsertAll(hash, keys, b)[k]
      {
        if k != last {
          assert k in front;
          assert b in mid[k];
          assert mid[k] <= InsertAll(hash, keys, b)[k];
        }
      }
    }
  }

  /** Entering b into cells that already hold it changes nothing. */
  lemma {:induction false} InsertAllHeld<T>(hash: Hash<T>, keys: seq<int>, b: T)
    requires forall k :: k in keys ==> k in hash && b in hash[k]
    ensures InsertAll(hash, keys, b) == hash
  {
    if keys != [] {
      InsertAllHeld(hash, keys[..|keys| - 1], b);
      var last := keys[|keys| - 1];
      assert hash[last := AddAbsent(hash[last], b)] == hash;
    }
  }

  /** Repeating the insertion of the same keys for the same body changes
      nothing: the hashing step is idempotent. */
  lemma InsertAllIdempotent<T>(hash: Hash<T>, keys: seq<int>, b: T)
    ensures InsertAll(InsertAll(hash, keys, b), keys, b) == InsertAll(hash, keys, b)
  {
    InsertAllFacts(hash, keys, b);
    InsertAllHeld(InsertAll(hash, keys, b), keys, b);
  }

  /** Enters items[n] into the cells keyss[n], for each n in order. */
  function InsertEach<T(==)>(hash: Hash<T>, items: seq<T>, keyss: seq<seq<int>>): Hash<T>
    requires |items| == |keyss|
  {
    if items == [] then hash
    else InsertAll(InsertEach(hash, items[..|items| - 1], keyss[..|keyss| - 1]), keyss[|keyss| - 1], items[|items| - 1])
  }

  /** Entering the item at position n after those before it is InsertAll
      on the result. */
  lemma InsertEachNext<T>(hash: Hash<T>, items: seq<T>, n: int, keyss: seq<seq<int>>, keys: seq<int>)
    requires 0 <= n < |items| && |keyss| == n
    ensures InsertEach(hash, items[..n + 1], keyss + [keys]) == InsertAll(InsertEach(hash, items[..n], keyss), keys, items[n])
  {
    assert items[..n + 1][..n] == items[..n];
    assert (keyss + [keys])[..n] == keyss;
  }

  /** Every item is in every one of its cells afterwards, and nothing that
      was in the hash is lost. */
  lemma {:induction false} InsertEachFacts<T>(hash: Hash<T>, items: seq<T>, keyss: seq<seq<int>>)
    requires |items| == |keyss|
    ensures forall n, k :: 0 <= n < |items| && k in keyss[n] ==>
      k in InsertEach(hash, items, keyss) && items[n] in InsertEach(hash, items, keyss)[k]
    ensures forall k :: k in hash ==> k in InsertEach(hash, items, keyss) && hash[k] <= InsertEach(hash, items, keyss)[k]
    ensures DuplicateFree(hash) ==> DuplicateFree(InsertEach(hash, items, keyss))
  {
    if items != [] {
      var m := |items| - 1;
      var mid := InsertEach(hash, items[..m], keyss[..m]);
      var after := InsertEach(hash, items, keyss);
      InsertEachFacts(hash, items[..m], keyss[..m]);
      InsertAllFacts(mid, keyss[m], items[m]);
      forall n, k | 0 <= n < |items| && k in keyss[n]
        ensures k in after && items[n] in after[k]
      {
        if n < m {
          assert keyss[..m][n] == keyss[n] && items[..m][n] == items[n];
          assert items[n] in mid[k];
          assert mid[k] <= after[k];
        }
      }
    }
  }

  /** Every cell of the list keys is in the hash and holds b: the hash
      agrees with the cell list a body keeps of itself. */
  predicate Recorded<T(==)>(hash: Hash<T>, b: T, keys: seq<int>)
  {
    forall k :: k in keys ==> k in hash && b in hash[k]
  }

  /** When every item's own cell list agrees with the hash, entering each
      item into its new cells, and adding those cells to its list, keeps
      the two in agreement. */
  lemma {:induction false} InsertEachKeepsRecords<T>(hash: Hash<T>, items: seq<T>, lists: seq<seq<int>>, keyss: seq<seq<int>>)
    requires |items| == |lists| == |keyss|
    requires forall n :: 0 <= n < |items| ==> Recorded(hash, items[n], lists[n])
    ensures forall n :: 0 <= n < |items| ==>
      Recorded(InsertEach(hash, items, keyss), items[n], AddAllAbsent(lists[n], keyss[n]))
  {
    var after := InsertEach(hash, items, keyss);
    InsertEachFacts(hash, items, keyss);
    forall n | 0 <= n < |items|
      ensures Recorded(after, items[n], AddAllAbsent(lists[n], keyss[n]))
    {
      forall k | k in AddAllAbsent(lists[n], keyss[n])
        ensures k in after && items[n] in after[k]
      {
        if k in lists[n] {
          assert k in hash && items[n] in hash[k];
          assert hash[k] <= after[k];
        }
      }
    }
  }
}
