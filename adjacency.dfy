/** Face adjacency of coarse blocks (`store_primal_adj`): the scan of the 27
    offsets in {-1, 0, 1}^3 that keeps the in-range 6-neighbours. */
module PrimalAdjacency {
  import opened StructuredGrid

  /** Lines 297-298: the key lies between (0, 0, 0) and the per-axis maximum
      coarse ids, both inclusive. */
  predicate InBox(p: Point, maxIds: Point)
  {
    0 <= p.0 <= maxIds.0 && 0 <= p.1 <= maxIds.1 && 0 <= p.2 <= maxIds.2
  }

  function Abs(x: int): nat
  {
    if x < 0 then -x else x
  }

  /** p and q differ by exactly 1 in exactly one coordinate. */
  predicate FaceAdjacent(p: Point, q: Point)
  {
    Abs(p.0 - q.0) + Abs(p.1 - q.1) + Abs(p.2 - q.2) == 1
  }

  /** `sum(coord_inc == [0, 0, 0])`: how many coordinates of the offset are 0. */
  function ZeroCount(inc: Point): (zeros: int)
    ensures 0 <= zeros <= 3
    ensures zeros == 3 <==> inc == (0, 0, 0)
  {
    (if inc.0 == 0 then 1 else 0) + (if inc.1 == 0 then 1 else 0) + (if inc.2 == 0 then 1 else 0)
  }

  /** The test of lines 295-298 for one offset, as written. */
  predicate Selected(primalId: Point, inc: Point, maxIds: Point)
  {
    var adj := (primalId.0 + inc.0, primalId.1 + inc.1, primalId.2 + inc.2);
    && adj != primalId
    && ZeroCount(inc) == 2
    && adj.0 >= 0 && adj.1 >= 0 && adj.2 >= 0
    && adj.0 <= maxIds.0 && adj.1 <= maxIds.1 && adj.2 <= maxIds.2
  }

  function KeepInBox(q: Point, maxIds: Point): (s: seq<Point>)
    ensures |s| <= 1 && forall x :: x in s <==> x == q && InBox(q, maxIds)
  {
    if InBox(q, maxIds) then [q] else []
  }

  /** The neighbour list of block p: the in-range keys one step away along
      one axis, in the order (-1,0,0), (0,-1,0), (0,0,-1), (0,0,1), (0,1,0),
      (1,0,0). It has at most 6 entries, never p itself, and holds exactly
      the in-range face-adjacent keys. */
  function FaceNeighbours(p: Point, maxIds: Point): (adj: seq<Point>)
    ensures |adj| <= 6
    ensures p !in adj
  {
    KeepInBox((p.0 - 1, p.1, p.2), maxIds) + KeepInBox((p.0, p.1 - 1, p.2), maxIds) +
    KeepInBox((p.0, p.1, p.2 - 1), maxIds) + KeepInBox((p.0, p.1, p.2 + 1), maxIds) +
    KeepInBox((p.0, p.1 + 1, p.2), maxIds) + KeepInBox((p.0 + 1, p.1, p.2), maxIds)
  }

  /** q is listed as a neighbour of p exactly when q is in range and one
      step away from p along one axis. */
  lemma FaceNeighboursExact(p: Point, maxIds: Point, q: Point)
    ensures q in FaceNeighbours(p, maxIds) <==> InBox(q, maxIds) && FaceAdjacent(p, q)
  {
    var a, b, c := KeepInBox((p.0 - 1, p.1, p.2), maxIds), KeepInBox((p.0, p.1 - 1, p.2), maxIds),
      KeepInBox((p.0, p.1, p.2 - 1), maxIds);
    var d, e, f := KeepInBox((p.0, p.1, p.2 + 1), maxIds), KeepInBox((p.0, p.1 + 1, p.2), maxIds),
      KeepInBox((p.0 + 1, p.1, p.2), maxIds);
    assert FaceNeighbours(p, maxIds) == a + b + c + d + e + f;
    assert q in a + b + c + d + e + f <==>
      q in a || q in b || q in c || q in d || q in e || q in f;
    AdjacentIsShift(p, q);
  }

  /** The face-adjacent keys of p are its six one-axis shifts. */
  lemma AdjacentIsShift(p: Point, q: Point)
    ensures FaceAdjacent(p, q) <==>
      (q == (p.0 - 1, p.1, p.2) || q == (p.0, p.1 - 1, p.2) || q == (p.0, p.1, p.2 - 1) ||
       q == (p.0, p.1, p.2 + 1) || q == (p.0, p.1 + 1, p.2) || q == (p.0 + 1, p.1, p.2))
  {
    if FaceAdjacent(p, q) {
      if p.0 != q.0 {
        assert p.1 == q.1 && p.2 == q.2;
      } else if p.1 != q.1 {
        assert p.2 == q.2;
      }
    }
  }

  /** The neighbours found among the first t offsets of the scan (i
      outermost, k innermost, each from -1 to 1): the six face offsets sit at
      scan positions 4, 10, 12, 14, 16 and 22. */
  function ScannedUpTo(p: Point, maxIds: Point, t: int): seq<Point>
  {
    (if 4 < t then KeepInBox((p.0 - 1, p.1, p.2), maxIds) else []) +
    (if 10 < t then KeepInBox((p.0, p.1 - 1, p.2), maxIds) else []) +
    (if 12 < t then KeepInBox((p.0, p.1, p.2 - 1), maxIds) else []) +
    (if 14 < t then KeepInBox((p.0, p.1, p.2 + 1), maxIds) else []) +
    (if 16 < t then KeepInBox((p.0, p.1 + 1, p.2), maxIds) else []) +
    (if 22 < t then KeepInBox((p.0 + 1, p.1, p.2), maxIds) else [])
  }

  /** Scanning offset (i, j, k), at position 9(i+1) + 3(j+1) + (k+1), adds
      the shifted key exactly when the test of lines 295-298 holds. */
  lemma ScanStep(p: Point, maxIds: Point, i: int, j: int, k: int)
    requires -1 <= i <= 1 && -1 <= j <= 1 && -1 <= k <= 1
    ensures var t := 9 * i + 3 * j + k + 13;
      ScannedUpTo(p, maxIds, t + 1) ==
        ScannedUpTo(p, maxIds, t) +
        (if Selected(p, (i, j, k), maxIds) then [(p.0 + i, p.1 + j, p.2 + k)] else [])
  {
    var t := 9 * i + 3 * j + k + 13;
    var q := (p.0 + i, p.1 + j, p.2 + k);
    if t == 4 || t == 10 || t == 12 || t == 14 || t == 16 || t == 22 {
      assert ZeroCount((i, j, k)) == 2 && q != p;
      assert Selected(p, (i, j, k), maxIds) <==> InBox(q, maxIds);
      ScanAdds(p, maxIds, t, q);
    } else {
      assert !Selected(p, (i, j, k), maxIds);
      ScanSkips(p, maxIds, t);
    }
  }

  /** A face offset adds its neighbour when it is in range. */
  lemma ScanAdds(p: Point, maxIds: Point, t: int, q: Point)
    requires || (t == 4 && q == (p.0 - 1, p.1, p.2)) || (t == 10 && q == (p.0, p.1 - 1, p.2))
             || (t == 12 && q == (p.0, p.1, p.2 - 1)) || (t == 14 && q == (p.0, p.1, p.2 + 1))
             || (t == 16 && q == (p.0, p.1 + 1, p.2)) || (t == 22 && q == (p.0 + 1, p.1, p.2))
    ensures ScannedUpTo(p, maxIds, t + 1) == ScannedUpTo(p, maxIds, t) + KeepInBox(q, maxIds)
  {
  }

  /** An offset that is not a face offset adds nothing to the scan. */
  lemma ScanSkips(p: Point, maxIds: Point, t: int)
    requires t != 4 && t != 10 && t != 12 && t != 14 && t != 16 && t != 22
    ensures ScannedUpTo(p, maxIds, t + 1) == ScannedUpTo(p, maxIds, t)
  {
  }

  /** `store_primal_adj` for one block: the loops over the 27 offsets and the
      test of lines 295-298, appending each selected key to `adj_ids`. */
  method PrimalNeighbours(primalId: Point, maxCoarseIds: Point) returns (adjIds: seq<Point>)
    ensures adjIds == FaceNeighbours(primalId, maxCoarseIds)
  {
    adjIds := [];
    var i := -1;
    while i < 2
      invariant -1 <= i <= 2
      invariant adjIds == ScannedUpTo(primalId, maxCoarseIds, 9 * i + 9)
    {
      var j := -1;
      while j < 2
        invariant -1 <= j <= 2
        invariant adjIds == ScannedUpTo(primalId, maxCoarseIds, 9 * i + 3 * j + 12)
      {
        var k := -1;
        while k < 2
          invariant -1 <= k <= 2
          invariant adjIds == ScannedUpTo(primalId, maxCoarseIds, 9 * i + 3 * j + k + 13)
        {
          var coordInc := (i, j, k);
          var adjId := (primalId.0 + i, primalId.1 + j, primalId.2 + k);
          ScanStep(primalId, maxCoarseIds, i, j, k);
          if adjId != primalId && ZeroCount(coordInc) == 2 &&
             adjId.0 >= 0 && adjId.1 >= 0 && adjId.2 >= 0 &&
             adjId.0 <= maxCoarseIds.0 && adjId.1 <= maxCoarseIds.1 && adjId.2 <= maxCoarseIds.2
          {
            adjIds := adjIds + [adjId];
          }
          k := k + 1;
        }
        j := j + 1;
      }
      i := i + 1;
    }
  }

  /** The relation is symmetric: an in-range block is a neighbour of each of
      its neighbours. */
  lemma NeighbourSymmetric(p: Point, q: Point, maxIds: Point)
    requires InBox(p, maxIds) && q in FaceNeighbours(p, maxIds)
    ensures p in FaceNeighbours(q, maxIds)
  {
    FaceNeighboursExact(p, maxIds, q);
    FaceNeighboursExact(q, maxIds, p);
    assert Abs(q.0 - p.0) == Abs(p.0 - q.0);
    assert Abs(q.1 - p.1) == Abs(p.1 - q.1);
    assert Abs(q.2 - p.2) == Abs(p.2 - q.2);
    assert FaceAdjacent(q, p);
  }
}
