/** Index arithmetic of the structured hexahedral grid: the linear cell index,
    the order in which vertices and cells are created, the eight-vertex
    hexahedron lookup, the coarse extent and the coarse-block centroid.
    Coordinates (multiples of the cell size) are not modelled: a vertex is
    identified by its integer lattice point. */
module StructuredGrid {
  import opened IndexArithmetic

  /** An (i, j, k) triple: a lattice point, a fine cell or a coarse-block key. */
  type Point = (int, int, int)

  /** `(i, j, k)[dim]` */
  function Coord(p: Point, dim: int): int
    requires 0 <= dim < 3
  {
    if dim == 0 then p.0 else if dim == 1 then p.1 else p.2
  }

  /** A (cells or vertices) extent: three non-negative counts. */
  predicate IsExtent(n: seq<int>)
  {
    |n| == 3 && n[0] >= 0 && n[1] >= 0 && n[2] >= 0
  }

  predicate InGrid(n: seq<int>, i: int, j: int, k: int)
    requires |n| == 3
  {
    0 <= i < n[0] && 0 <= j < n[1] && 0 <= k < n[2]
  }

  lemma InnerIndexBound(n0: int, n1: int, i: int, j: int)
    requires 0 <= i < n0 && 0 <= j < n1
    ensures 0 <= i + j * n0 < n0 * n1
  {
    MulLeq(j, n1 - 1, n0);
    MulLeq(0, j, n0);
  }

  /** `_get_block_by_ijk`: the linear index of cell (i, j, k), i varying
      fastest, then j, then k. */
  function BlockByIjk(n: seq<int>, i: int, j: int, k: int): (b: int)
    requires IsExtent(n)
    ensures InGrid(n, i, j, k) ==> 0 <= b < n[0] * n[1] * n[2]
  {
    LinearIndexInRange(n, i, j, k);
    k * n[0] * n[1] + (i + j * n[0])
  }

  /** The linear index of an in-grid cell is below the cell count. */
  lemma LinearIndexInRange(n: seq<int>, i: int, j: int, k: int)
    requires IsExtent(n)
    ensures InGrid(n, i, j, k) ==> 0 <= k * n[0] * n[1] + (i + j * n[0]) < n[0] * n[1] * n[2]
  {
    if InGrid(n, i, j, k) {
      InnerIndexBound(n[0], n[1], i, j);
      MulLeq(k, n[2] - 1, n[0] * n[1]);
      MulLeq(0, k, n[0] * n[1]);
      assert k * n[0] * n[1] == k * (n[0] * n[1]);
    }
  }

  /** The linear index of the start of row j + 1 follows the n0 cells of
      row j. */
  lemma NextRow(n: seq<int>, j: int, k: int)
    requires IsExtent(n)
    ensures BlockByIjk(n, 0, j, k) + n[0] == BlockByIjk(n, 0, j + 1, k)
  {
    assert (j + 1) * n[0] == j * n[0] + n[0];
  }

  /** The linear index after the last row of layer k is the start of layer
      k + 1, and the one after the last layer is the cell count. */
  lemma NextLayer(n: seq<int>, k: int)
    requires IsExtent(n)
    ensures BlockByIjk(n, 0, n[1], k) == BlockByIjk(n, 0, 0, k + 1)
    ensures BlockByIjk(n, 0, 0, n[2]) == n[0] * n[1] * n[2]
  {
    MulAssoc(k, n[0], n[1]);
    MulAssoc(k + 1, n[0], n[1]);
    MulAssoc(n[2], n[0], n[1]);
    assert (k + 1) * (n[0] * n[1]) == k * (n[0] * n[1]) + n[0] * n[1];
    assert n[1] * n[0] == n[0] * n[1];
  }

  /** The inverse of BlockByIjk: the cell whose linear index is b. */
  function IjkOfBlock(n: seq<int>, b: int): (p: Point)
    requires IsExtent(n) && n[0] > 0 && n[1] > 0
  {
    var q := b / n[0];
    (b % n[0], q % n[1], q / n[1])
  }

  /** Decoding a linear index recovers the cell it was computed from. */
  lemma IjkOfBlockOfIjk(n: seq<int>, i: int, j: int, k: int)
    requires IsExtent(n) && InGrid(n, i, j, k)
    ensures IjkOfBlock(n, BlockByIjk(n, i, j, k)) == (i, j, k)
  {
    var b := BlockByIjk(n, i, j, k);
    assert b == (k * n[1] + j) * n[0] + i;
    DivModUnique(b, n[0], k * n[1] + j, i);
    DivModUnique(k * n[1] + j, n[1], k, j);
  }

  /** Every linear index below the cell count is the index of exactly one
      in-grid cell: with IjkOfBlockOfIjk, BlockByIjk is a bijection from the
      grid onto [0, n0*n1*n2). */
  lemma BlockOfIjkOfBlock(n: seq<int>, b: int)
    requires IsExtent(n) && 0 <= b < n[0] * n[1] * n[2]
    ensures n[0] > 0 && n[1] > 0
    ensures var p := IjkOfBlock(n, b);
      InGrid(n, p.0, p.1, p.2) && BlockByIjk(n, p.0, p.1, p.2) == b
  {
    var n0, n1, n2 := n[0], n[1], n[2];
    FactorsPositive(n0, n1, n2);
    MulAssoc(n0, n1, n2);
    assert b < (n1 * n2) * n0;
    QuotientBelow(b, n0, n1 * n2);
    QuotientBelow(b / n0, n1, n2);
    Recompose(b, n0, n1);
  }

  lemma BlockByIjkInjective(n: seq<int>, i: int, j: int, k: int, i': int, j': int, k': int)
    requires IsExtent(n) && InGrid(n, i, j, k) && InGrid(n, i', j', k')
    requires BlockByIjk(n, i, j, k) == BlockByIjk(n, i', j', k')
    ensures (i, j, k) == (i', j', k')
  {
    IjkOfBlockOfIjk(n, i, j, k);
    IjkOfBlockOfIjk(n, i', j', k');
  }

  /** One row of a lattice comprehension: i = 0 .. n0-1 at fixed j, k. */
  function Row(n0: nat, j: int, k: int): seq<Point>
  {
    seq(n0, i => (i, j, k))
  }

  /** Rows j = 0 .. rows-1 of layer k, j outer, i inner. */
  function Layer(n0: nat, rows: nat, k: int): (s: seq<Point>)
    ensures |s| == n0 * rows
  {
    if rows == 0 then [] else Layer(n0, rows - 1, k) + Row(n0, rows - 1, k)
  }

  /** The order of the comprehension in `create_fine_vertices` (and of the
      cell loop of `create_fine_blocks_and_primal`): k outermost, then j,
      then i innermost. */
  function Lattice(n0: nat, n1: nat, n2: nat): (s: seq<Point>)
    ensures |s| == n0 * n1 * n2
  {
    if n2 == 0 then [] else
      assert n0 * n1 * n2 == n0 * n1 * (n2 - 1) + n0 * n1;
      Lattice(n0, n1, n2 - 1) + Layer(n0, n1, n2 - 1)
  }

  lemma {:induction false} LayerAt(n0: nat, rows: nat, k: int, i: int, j: int)
    requires 0 <= i < n0 && 0 <= j < rows
    ensures 0 <= i + j * n0 < |Layer(n0, rows, k)|
    ensures Layer(n0, rows, k)[i + j * n0] == (i, j, k)
  {
    InnerIndexBound(n0, rows, i, j);
    if j < rows - 1 {
      LayerAt(n0, rows - 1, k, i, j);
    } else {
      assert |Layer(n0, rows - 1, k)| == j * n0;
    }
  }

  /** Position BlockByIjk(i, j, k) of the lattice order holds (i, j, k): the
      linear index agrees with the creation order. */
  lemma {:induction false} LatticeAt(n0: nat, n1: nat, n2: nat, i: int, j: int, k: int)
    requires 0 <= i < n0 && 0 <= j < n1 && 0 <= k < n2
    ensures 0 <= BlockByIjk([n0, n1, n2], i, j, k) < |Lattice(n0, n1, n2)|
    ensures Lattice(n0, n1, n2)[BlockByIjk([n0, n1, n2], i, j, k)] == (i, j, k)
  {
    var plane := n0 * n1;
    var inner := i + j * n0;
    InnerIndexBound(n0, n1, i, j);
    var b := BlockByIjk([n0, n1, n2], i, j, k);
    MulAssoc(k, n0, n1);
    assert b == k * plane + inner;
    MulAssoc(n2 - 1, n0, n1);
    MulAssoc(n2, n0, n1);
    var prefix := Lattice(n0, n1, n2 - 1);
    assert |prefix| == (n2 - 1) * plane by {
      assert n0 * n1 * (n2 - 1) == (n2 - 1) * n0 * n1;
    }
    assert |Lattice(n0, n1, n2)| == n2 * plane by {
      assert n0 * n1 * n2 == n2 * n0 * n1;
    }
    assert Lattice(n0, n1, n2) == prefix + Layer(n0, n1, n2 - 1);
    if k < n2 - 1 {
      LatticeAt(n0, n1, n2 - 1, i, j, k);
      assert BlockByIjk([n0, n1, n2 - 1], i, j, k) == b;
      MulLeq(k + 1, n2 - 1, plane);
    } else {
      LayerAt(n0, n1, k, i, j);
    }
  }

  /** Every position of the lattice order is the decoded linear index. */
  lemma LatticeIsDecoding(n0: nat, n1: nat, n2: nat, b: int)
    requires 0 <= b < n0 * n1 * n2
    ensures n0 > 0 && n1 > 0
    ensures Lattice(n0, n1, n2)[b] == IjkOfBlock([n0, n1, n2], b)
  {
    BlockOfIjkOfBlock([n0, n1, n2], b);
    var p := IjkOfBlock([n0, n1, n2], b);
    LatticeAt(n0, n1, n2, p.0, p.1, p.2);
  }

  /** Every point of the lattice order lies in the grid. */
  lemma LatticeInGrid(n0: nat, n1: nat, n2: nat, t: int)
    requires 0 <= t < n0 * n1 * n2
    ensures 0 <= t < |Lattice(n0, n1, n2)|
    ensures var p := Lattice(n0, n1, n2)[t];
      0 <= p.0 < n0 && 0 <= p.1 < n1 && 0 <= p.2 < n2
  {
    LatticeIsDecoding(n0, n1, n2, t);
    BlockOfIjkOfBlock([n0, n1, n2], t);
  }

  /** The eight vertex indices computed by `_create_hexa`, as written there:
      bottom face (k) counter-clockwise, then the top face (k+1). */
  function HexaIndices(i: int, j: int, k: int, mesh: seq<int>): seq<int>
    requires |mesh| == 3
  {
    var plane := (mesh[0] + 1) * (mesh[1] + 1);
    [ i + (j * (mesh[0] + 1)) + (k * plane),
      (i + 1) + (j * (mesh[0] + 1)) + (k * plane),
      (i + 1) + (j + 1) * (mesh[0]) + (j + 1) + (k * plane),
      i + (j + 1) * (mesh[0]) + (j + 1) + (k * plane),
      i + (j * (mesh[0] + 1)) + ((k + 1) * plane),
      (i + 1) + (j * (mesh[0] + 1)) + ((k + 1) * plane),
      (i + 1) + (j + 1) * (mesh[0]) + (j + 1) + ((k + 1) * plane),
      i + (j + 1) * (mesh[0]) + (j + 1) + ((k + 1) * plane) ]
  }

  /** The extent of the vertex lattice of a grid of `mesh` cells. */
  function VertexExtent(mesh: seq<int>): (v: seq<int>)
    requires IsExtent(mesh)
    ensures IsExtent(v) && forall d :: 0 <= d < 3 ==> v[d] == mesh[d] + 1
  {
    [mesh[0] + 1, mesh[1] + 1, mesh[2] + 1]
  }

  /** The vertices of `create_fine_vertices`: (m0+1)(m1+1)(m2+1) lattice
      points, each coordinate d between 0 and m_d, so each cell's far
      corner (i+1, j+1, k+1) is among them. */
  lemma VertexLattice(mesh: seq<int>, t: int)
    requires IsExtent(mesh)
    requires 0 <= t < (mesh[0] + 1) * (mesh[1] + 1) * (mesh[2] + 1)
    ensures |Lattice(mesh[0] + 1, mesh[1] + 1, mesh[2] + 1)| == (mesh[0] + 1) * (mesh[1] + 1) * (mesh[2] + 1)
    ensures var p := Lattice(mesh[0] + 1, mesh[1] + 1, mesh[2] + 1)[t];
      0 <= p.0 <= mesh[0] && 0 <= p.1 <= mesh[1] && 0 <= p.2 <= mesh[2]
  {
    LatticeInGrid(mesh[0] + 1, mesh[1] + 1, mesh[2] + 1, t);
  }

  /** Each index of `_create_hexa` is the lattice index of one corner. */
  lemma HexaIndicesAreCorners(i: int, j: int, k: int, mesh: seq<int>)
    requires IsExtent(mesh) && InGrid(mesh, i, j, k)
    ensures var v := VertexExtent(mesh);
      HexaIndices(i, j, k, mesh) ==
        [ BlockByIjk(v, i, j, k), BlockByIjk(v, i + 1, j, k),
          BlockByIjk(v, i + 1, j + 1, k), BlockByIjk(v, i, j + 1, k),
          BlockByIjk(v, i, j, k + 1), BlockByIjk(v, i + 1, j, k + 1),
          BlockByIjk(v, i + 1, j + 1, k + 1), BlockByIjk(v, i, j + 1, k + 1) ]
  {
    var m0, m1 := mesh[0], mesh[1];
    assert (j + 1) * m0 + (j + 1) == (j + 1) * (m0 + 1);
    assert k * ((m0 + 1) * (m1 + 1)) == k * (m0 + 1) * (m1 + 1);
    assert (k + 1) * ((m0 + 1) * (m1 + 1)) == (k + 1) * (m0 + 1) * (m1 + 1);
  }

  /** The eight corners of cell (i, j, k). */
  function Corners(p: Point): seq<Point>
  {
    var (i, j, k) := p;
    [ (i, j, k), (i + 1, j, k), (i + 1, j + 1, k), (i, j + 1, k),
      (i, j, k + 1), (i + 1, j, k + 1), (i + 1, j + 1, k + 1), (i, j + 1, k + 1) ]
  }

  lemma CornersDistinct(p: Point)
    ensures forall s, t :: 0 <= s < t < 8 ==> Corners(p)[s] != Corners(p)[t]
  {
  }

  /** `_create_hexa`: the eight entries of `verts` that are the corners of
      cell (i, j, k), when `verts` lists one vertex per lattice point. */
  function CreateHexa<V>(i: int, j: int, k: int, verts: seq<V>, mesh: seq<int>): (hexa: seq<V>)
    requires IsExtent(mesh) && InGrid(mesh, i, j, k)
    requires |verts| == (mesh[0] + 1) * (mesh[1] + 1) * (mesh[2] + 1)
    ensures |hexa| == 8 && forall t :: 0 <= t < 8 ==> hexa[t] in verts
  {
    HexaIndicesAreCorners(i, j, k, mesh);
    var ix := HexaIndices(i, j, k, mesh);
    [ verts[ix[0]], verts[ix[1]], verts[ix[2]], verts[ix[3]],
      verts[ix[4]], verts[ix[5]], verts[ix[6]], verts[ix[7]] ]
  }

  /** On the vertices of `create_fine_vertices` (one per lattice point, k
      outermost), `_create_hexa` picks exactly the eight corners of the cell,
      bottom face counter-clockwise and then the top face. The same holds on
      the coarse grid, whose vertices follow the same order. */
  lemma HexaCorners(i: int, j: int, k: int, mesh: seq<int>)
    requires IsExtent(mesh) && InGrid(mesh, i, j, k)
    ensures CreateHexa(i, j, k, Lattice(mesh[0] + 1, mesh[1] + 1, mesh[2] + 1), mesh)
            == Corners((i, j, k))
  {
    var lattice := Lattice(mesh[0] + 1, mesh[1] + 1, mesh[2] + 1);
    var hexa := CreateHexa(i, j, k, lattice, mesh);
    var corners := Corners((i, j, k));
    forall t | 0 <= t < 8
      ensures hexa[t] == corners[t]
    {
      HexaIndexAt(i, j, k, mesh, t);
    }
  }

  /** The t-th vertex index `_create_hexa` uses is the position of the t-th
      corner in the vertex order. */
  lemma HexaIndexAt(i: int, j: int, k: int, mesh: seq<int>, t: int)
    requires IsExtent(mesh) && InGrid(mesh, i, j, k) && 0 <= t < 8
    ensures var lattice := Lattice(mesh[0] + 1, mesh[1] + 1, mesh[2] + 1);
      var ix := HexaIndices(i, j, k, mesh);
      0 <= ix[t] < |lattice| && lattice[ix[t]] == Corners((i, j, k))[t]
  {
    var m0, m1, m2 := mesh[0] + 1, mesh[1] + 1, mesh[2] + 1;
    var c := Corners((i, j, k))[t];
    HexaIndexIsCorner(i, j, k, mesh, t);
    LatticeAt(m0, m1, m2, c.0, c.1, c.2);
    var b := BlockByIjk([m0, m1, m2], c.0, c.1, c.2);
    assert HexaIndices(i, j, k, mesh)[t] == b;
    assert Lattice(m0, m1, m2)[b] == c;
  }

  /** Index t of `_create_hexa` is the vertex-lattice index of corner t,
      which lies on the vertex lattice. */
  lemma HexaIndexIsCorner(i: int, j: int, k: int, mesh: seq<int>, t: int)
    requires IsExtent(mesh) && InGrid(mesh, i, j, k) && 0 <= t < 8
    ensures var c := Corners((i, j, k))[t];
      && 0 <= c.0 < mesh[0] + 1 && 0 <= c.1 < mesh[1] + 1 && 0 <= c.2 < mesh[2] + 1
      && |HexaIndices(i, j, k, mesh)| == 8
      && HexaIndices(i, j, k, mesh)[t] == BlockByIjk([mesh[0] + 1, mesh[1] + 1, mesh[2] + 1], c.0, c.1, c.2)
  {
    HexaIndicesAreCorners(i, j, k, mesh);
    assert [mesh[0] + 1, mesh[1] + 1, mesh[2] + 1] == VertexExtent(mesh);
  }

  /** The eight vertex indices of an in-range cell are distinct and lie
      below the vertex count (m0+1)(m1+1)(m2+1). */
  lemma HexaIndicesDistinct(i: int, j: int, k: int, mesh: seq<int>)
    requires IsExtent(mesh) && InGrid(mesh, i, j, k)
    ensures var ix := HexaIndices(i, j, k, mesh);
      |ix| == 8 &&
      (forall t :: 0 <= t < 8 ==> 0 <= ix[t] < (mesh[0] + 1) * (mesh[1] + 1) * (mesh[2] + 1)) &&
      (forall s, t :: 0 <= s < t < 8 ==> ix[s] != ix[t])
  {
    var ix := HexaIndices(i, j, k, mesh);
    var lattice := Lattice(mesh[0] + 1, mesh[1] + 1, mesh[2] + 1);
    var corners := Corners((i, j, k));
    CornersDistinct((i, j, k));
    forall t | 0 <= t < 8
      ensures 0 <= ix[t] < |lattice| && lattice[ix[t]] == corners[t]
    {
      HexaIndexAt(i, j, k, mesh, t);
    }
    forall s, t | 0 <= s < t < 8
      ensures ix[s] != ix[t]
    {
      assert lattice[ix[s]] == corners[s] != corners[t] == lattice[ix[t]];
    }
  }

  /** `_coarse_dims`: the coarse extent, mesh size floor-divided by the ratio
      on each axis. */
  function CoarseDims(meshSize: seq<int>, ratio: seq<int>): (c: seq<int>)
    requires IsExtent(meshSize) && |ratio| == 3
    requires ratio[0] > 0 && ratio[1] > 0 && ratio[2] > 0
    ensures IsExtent(c)
    ensures forall d :: 0 <= d < 3 ==>
      ratio[d] * c[d] <= meshSize[d] < ratio[d] * c[d] + ratio[d]
  {
    var c := [meshSize[0] / ratio[0], meshSize[1] / ratio[1], meshSize[2] / ratio[2]];
    forall d | 0 <= d < 3
      ensures ratio[d] * c[d] <= meshSize[d] < ratio[d] * c[d] + ratio[d]
    {
      DivWindow(meshSize[d], ratio[d], c[d]);
    }
    c
  }

  /** The corner offsets `coarse_sums` of `_primal_centroid`. */
  const CoarseSums: seq<Point> :=
    [(0, 0, 0), (0, 0, 1), (0, 1, 0), (0, 1, 1), (1, 0, 0), (1, 0, 1), (1, 1, 0), (1, 1, 1)]

  /** `_primal_centroid` along axis dim: the eight corner terms
      `(setid + coarse_sums[t]) * ratio`, summed and floor-divided by 8. */
  function CentroidAlong(s: int, r: int, dim: int): int
    requires 0 <= dim < 3
  {
    ((s + Coord(CoarseSums[0], dim)) * r + (s + Coord(CoarseSums[1], dim)) * r +
     (s + Coord(CoarseSums[2], dim)) * r + (s + Coord(CoarseSums[3], dim)) * r +
     (s + Coord(CoarseSums[4], dim)) * r + (s + Coord(CoarseSums[5], dim)) * r +
     (s + Coord(CoarseSums[6], dim)) * r + (s + Coord(CoarseSums[7], dim)) * r) / 8
  }

  /** `_primal_centroid`: the sum of the eight scaled corners of the coarse
      block, floor-divided by 8, on each axis. */
  function PrimalCentroid(setid: Point, ratio: seq<int>): Point
    requires |ratio| == 3
  {
    (CentroidAlong(setid.0, ratio[0], 0),
     CentroidAlong(setid.1, ratio[1], 1),
     CentroidAlong(setid.2, ratio[2], 2))
  }

  lemma CentroidAlongIsMiddle(s: int, r: int, dim: int)
    requires 0 <= dim < 3
    ensures CentroidAlong(s, r, dim) == s * r + r / 2
  {
    assert (s + 1) * r == s * r + r;
    assert (s + 0) * r == s * r;
    var total := 8 * (s * r) + 4 * r;
    assert (s + Coord(CoarseSums[0], dim)) * r + (s + Coord(CoarseSums[1], dim)) * r +
           (s + Coord(CoarseSums[2], dim)) * r + (s + Coord(CoarseSums[3], dim)) * r +
           (s + Coord(CoarseSums[4], dim)) * r + (s + Coord(CoarseSums[5], dim)) * r +
           (s + Coord(CoarseSums[6], dim)) * r + (s + Coord(CoarseSums[7], dim)) * r == total;
    assert r == (r / 2) * 2 + r % 2;
    DivModUnique(total, 8, s * r + r / 2, 4 * (r % 2));
  }

  /** The centroid of coarse block `setid` is, on each axis, the fine index
      `setid * r + r // 2`: the middle of a full-ratio block. */
  lemma PrimalCentroidIsBlockMiddle(setid: Point, ratio: seq<int>)
    requires |ratio| == 3
    ensures PrimalCentroid(setid, ratio) ==
      (setid.0 * ratio[0] + ratio[0] / 2,
       setid.1 * ratio[1] + ratio[1] / 2,
       setid.2 * ratio[2] + ratio[2] / 2)
  {
    CentroidAlongIsMiddle(setid.0, ratio[0], 0);
    CentroidAlongIsMiddle(setid.1, ratio[1], 1);
    CentroidAlongIsMiddle(setid.2, ratio[2], 2);
  }
}
