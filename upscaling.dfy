/** The mutable part of the structured upscaling preprocessor: the object that
    holds the per-axis coarse ids, the fine cells with their tags, the coarse
    blocks (primals) keyed by their (idx, idy, idz) triple, the PRIMAL_ID
    numbering and the local-problem boundary tags.

    MOAB entities are modelled by handles: a fine cell is its position in
    `elems` (MOAB hands out element handles in creation order), a vertex is
    its lattice point, a coarse block is its key in `primals`, and a block's
    meshset is the sequence of the cell handles added to it. */
module StructuredUpscaling {
  import opened IndexArithmetic
  import opened StructuredGrid
  import opened CoarsePartition
  import opened PrimalAdjacency

  datatype Option<T> = None | Some(value: T)

  /** A fine hexahedron and the tags `create_fine_blocks_and_primal` sets on
      it: its eight vertices, GLOBAL_ID, PHI, the 3x3 PERM tensor (row-major,
      diagonal only) and FINE_TO_PRIMAL, the key of its coarse block. */
  datatype FineCell = FineCell(
    ijk: Point,
    hexa: seq<Point>,
    globalId: int,
    phi: real,
    perm: seq<real>,
    primal: Point)

  /** Lines 262-272: add cell el to the block of key, creating the block
      when the lookup raises KeyError. */
  function AddToBlock(blocks: map<Point, seq<int>>, key: Point, el: int): (blocks': map<Point, seq<int>>)
  {
    if key in blocks then blocks[key := blocks[key] + [el]] else blocks[key := [el]]
  }

  /** `tag` numbers the keys listed in `order` by their position: a
      bijection between its keys and 0 .. |order| - 1. */
  ghost predicate NumberedBy(tag: map<Point, int>, order: seq<Point>)
  {
    && |tag| == |order|
    && (forall v :: 0 <= v < |order| ==> order[v] in tag && tag[order[v]] == v)
    && (forall key :: key in tag ==> 0 <= tag[key] < |order| && order[tag[key]] == key)
  }

  /** Giving a key not yet numbered the next PRIMAL_ID keeps the numbering
      a bijection. */
  lemma NumberNext(tag: map<Point, int>, order: seq<Point>, key: Point)
    requires NumberedBy(tag, order) && key !in tag
    ensures NumberedBy(tag[key := |order|], order + [key])
  {
    var tag', order' := tag[key := |order|], order + [key];
    forall v | 0 <= v < |order'|
      ensures order'[v] in tag' && tag'[order'[v]] == v
    {
      if v < |order| {
        assert order'[v] == order[v] != key;
      }
    }
  }

  /** A numbering by position gives distinct values, and every value below
      the number of keys is taken. */
  lemma NumberedIsBijection(tag: map<Point, int>, order: seq<Point>)
    requires NumberedBy(tag, order)
    ensures forall key :: key in tag ==> 0 <= tag[key] < |tag|
    ensures forall key, key' :: key in tag && key' in tag && key != key' ==> tag[key] != tag[key']
    ensures forall v :: 0 <= v < |tag| ==> v in tag.Values
  {
    forall v | 0 <= v < |tag|
      ensures v in tag.Values
    {
      assert tag[order[v]] == v;
    }
  }

  /** The enumeration of lines 273-276 over a dictionary with keys
      `keys`: each key gets the count of keys enumerated before it. The order
      of enumeration is the dictionary's own and is left open here. */
  method NumberKeys(keys: set<Point>) returns (tag: map<Point, int>)
    ensures tag.Keys == keys
    ensures forall key :: key in tag ==> 0 <= tag[key] < |keys|
    ensures forall key, key' :: key in tag && key' in tag && key != key' ==> tag[key] != tag[key']
    ensures forall v :: 0 <= v < |keys| ==> v in tag.Values
  {
    tag := map[];
    var primalId := 0;
    var remaining := keys;
    ghost var order: seq<Point> := [];
    while remaining != {}
      invariant tag.Keys <= keys && remaining == keys - tag.Keys
      invariant primalId == |order| && NumberedBy(tag, order)
      decreases remaining
    {
      var key :| key in remaining;
      NumberNext(tag, order, key);
      tag := tag[key := primalId];
      order := order + [key];
      primalId := primalId + 1;
      remaining := remaining - {key};
    }
    assert tag.Keys == keys;
    NumberedIsBijection(tag, order);
  }

  /** The loop of `store_primal_adj` over the blocks of a dictionary with
      keys `keys`: each block's neighbour list, in the order of the scan of
      lines 290-302, replaces its entry in `lists`. */
  method NeighbourLists(keys: set<Point>, maxIds: Point, lists: map<Point, seq<Point>>)
    returns (lists': map<Point, seq<Point>>)
    ensures lists'.Keys == lists.Keys + keys
    ensures forall key :: key in keys ==> lists'[key] == FaceNeighbours(key, maxIds)
    ensures forall key :: key in lists && key !in keys ==> lists'[key] == lists[key]
  {
    lists' := lists;
    var remaining := keys;
    while remaining != {}
      invariant remaining <= keys
      invariant lists'.Keys == lists.Keys + (keys - remaining)
      invariant forall key :: key in keys && key !in remaining ==> lists'[key] == FaceNeighbours(key, maxIds)
      invariant forall key :: key in lists && key !in keys ==> lists'[key] == lists[key]
      decreases remaining
    {
      var primalId :| primalId in remaining;
      var adjIds := PrimalNeighbours(primalId, maxIds);
      lists' := lists'[primalId := adjIds];
      remaining := remaining - {primalId};
    }
  }

  ghost predicate Increasing(s: seq<int>)
  {
    forall a, b :: 0 <= a < b < |s| ==> s[a] < s[b]
  }

  class StructuredUpscalingMethods {
    const coarseRatio: seq<int>
    const meshSize: seq<int>
    /** The porosity and permeability columns `read_phi` and `read_perm`
        would load from their data files. */
    const phiValues: seq<real>
    const permValues: seq<real>

    var primalIds: seq<seq<int>>
    var elems: seq<FineCell>
    var primals: map<Point, seq<int>>
    var primalIdTag: map<Point, int>
    /** The LOCAL BOUNDARY CONDITIONS tag of each axis, by cell handle. */
    var boundaryTags: seq<map<int, real>>
    /** `boundary_meshset`: the cells tagged on each axis so far. */
    var boundaryMeshsets: seq<set<int>>
    /** PRIMAL_ADJ: the meshset of each block's neighbours, as the list of
        the blocks added to it. */
    var adjMeshsets: map<Point, seq<Point>>

    /** Three positive coarsening ratios and three cell counts. */
    predicate Configured()
    {
      IsExtent(meshSize) && |coarseRatio| == 3 &&
      coarseRatio[0] > 0 && coarseRatio[1] > 0 && coarseRatio[2] > 0
    }

    function CellCount(): nat
      requires Configured()
    {
      meshSize[0] * meshSize[1] * meshSize[2]
    }

    /** `primal_ids` holds the closed-form coarse ids of every axis. */
    predicate IdsComputed()
      reads this
    {
      Configured() && |primalIds| == 3 &&
      primalIds[0] == AxisIds(meshSize[0], coarseRatio[0]) &&
      primalIds[1] == AxisIds(meshSize[1], coarseRatio[1]) &&
      primalIds[2] == AxisIds(meshSize[2], coarseRatio[2])
    }

    constructor (coarseRatio: seq<int>, meshSize: seq<int>, phiValues: seq<real>, permValues: seq<real>)
      requires IsExtent(meshSize) && |coarseRatio| == 3
      requires coarseRatio[0] > 0 && coarseRatio[1] > 0 && coarseRatio[2] > 0
      ensures Configured()
      ensures this.coarseRatio == coarseRatio && this.meshSize == meshSize
      ensures this.phiValues == phiValues && this.permValues == permValues
      ensures primalIds == [] && elems == [] && primals == map[] && primalIdTag == map[]
      ensures boundaryTags == [map[], map[], map[]] && boundaryMeshsets == [] && adjMeshsets == map[]
    {
      this.coarseRatio := coarseRatio;
      this.meshSize := meshSize;
      this.phiValues := phiValues;
      this.permValues := permValues;
      primalIds := [];
      elems := [];
      primals := map[];
      primalIdTag := map[];
      boundaryTags := [map[], map[], map[]];
      boundaryMeshsets := [];
      adjMeshsets := map[];
    }

    /** `calculate_primal_ids` on a fresh object: the quotient lists of every
        axis, then the fold of a short remainder into the last full block.
        The result is the closed form AxisIds on every axis. */
    method CalculatePrimalIds()
      requires Configured() && primalIds == []
      modifies this
      ensures IdsComputed()
      ensures elems == old(elems) && primals == old(primals) && primalIdTag == old(primalIdTag)
      ensures boundaryTags == old(boundaryTags) && boundaryMeshsets == old(boundaryMeshsets)
      ensures adjMeshsets == old(adjMeshsets)
    {
      // `ids` stands for `self.primal_ids` while it is built
      var ids: seq<seq<int>> := [];
      var dim := 0;
      while dim < 3
        invariant 0 <= dim <= 3 && |ids| == dim
        invariant forall d :: 0 <= d < dim ==> ids[d] == Quotients(meshSize[d], coarseRatio[d])
      {
        ids := ids + [Quotients(meshSize[dim], coarseRatio[dim])];
        dim := dim + 1;
      }
      var newPrimal: seq<seq<int>> := [];
      dim := 0;
      while dim < 3
        modifies {}
        invariant 0 <= dim <= 3 && |newPrimal| == dim && |ids| == 3
        invariant forall d :: 0 <= d < dim ==> ids[d] == AxisIds(meshSize[d], coarseRatio[d])
        invariant forall d :: dim <= d < 3 ==> ids[d] == Quotients(meshSize[d], coarseRatio[d])
      {
        var folded, tail := FoldAxis(meshSize[dim], coarseRatio[dim], ids[dim]);
        newPrimal := newPrimal + [tail];
        ids := ids[dim := folded];
        dim := dim + 1;
      }
      primalIds := ids;
    }

    /** Lines 161-172 for one axis: the tail after the last full group and,
        when it is shorter than n // 2, the list with that tail overwritten
        by `max(ids) - 1`. */
    static method FoldAxis(n: nat, r: int, raw: seq<int>) returns (ids: seq<int>, tail: seq<int>)
      requires r > 0 && raw == Quotients(n, r)
      ensures ids == AxisIds(n, r)
    {
      FoldAsWritten(n, r);
      var cut := (n / r) * r;
      tail := raw[cut..];
      ids := raw;
      if |tail| < n / 2 {
        tail := Repeat(SeqMax(raw) - 1, |tail|);
        ids := raw[..cut] + tail;
      }
    }

    /** The cells in creation order (k outermost, i innermost): the t-th
        cell created is CellOrder()[t]. */
    function CellOrder(): (order: seq<Point>)
      requires Configured()
      ensures |order| == CellCount()
    {
      Lattice(meshSize[0], meshSize[1], meshSize[2])
    }

    /** The key (idx, idy, idz) of the coarse block of the t-th cell: the
        coarse ids of its coordinates, as the zips of lines 229-236 pair
        them. */
    function KeyOfCell(t: int): Point
      requires Configured() && 0 <= t < CellCount()
    {
      LatticeInGrid(meshSize[0], meshSize[1], meshSize[2], t);
      var p := CellOrder()[t];
      (AxisIds(meshSize[0], coarseRatio[0])[p.0],
       AxisIds(meshSize[1], coarseRatio[1])[p.1],
       AxisIds(meshSize[2], coarseRatio[2])[p.2])
    }

    /** Both data columns are long enough for every read of lines 248-258:
        the counter is incremented before the reads, so the last cell reads
        position #cells of PHI and position 3 * #cells of PERM. */
    predicate ColumnsLongEnough()
      requires Configured()
    {
      CellCount() == 0 || (CellCount() < |phiValues| && 3 * CellCount() < |permValues|)
    }

    /** The reads of PHI and PERM made for the cells before c were in range. */
    predicate ReadsFit(c: int)
      requires Configured()
    {
      c == 0 || (c < |phiValues| && c + 2 * CellCount() < |permValues|)
    }

    /** The t-th cell created: its corners, GLOBAL_ID t + 1, and PHI and
        PERM read at position t + 1. */
    function ExpectedCell(t: int): FineCell
      requires Configured() && 0 <= t < CellCount()
      requires t + 1 < |phiValues| && t + 1 + 2 * CellCount() < |permValues|
    {
      var p := CellOrder()[t];
      var n := CellCount();
      FineCell(p, Corners(p), t + 1, phiValues[t + 1],
               [permValues[t + 1], 0.0, 0.0,
                0.0, permValues[t + 1 + n], 0.0,
                0.0, 0.0, permValues[t + 1 + 2 * n]],
               KeyOfCell(t))
    }

    /** The cell created at the linear index of (i, j, k) is the one the
        loops of lines 229-259 build there: its hexahedron is the eight
        corners of (i, j, k) and FINE_TO_PRIMAL pairs the coarse ids of i, j
        and k. */
    lemma ExpectedCellAt(i: int, j: int, k: int)
      requires Configured() && InGrid(meshSize, i, j, k)
      requires BlockByIjk(meshSize, i, j, k) + 1 < |phiValues|
      requires BlockByIjk(meshSize, i, j, k) + 1 + 2 * CellCount() < |permValues|
      ensures 0 <= BlockByIjk(meshSize, i, j, k) < CellCount()
      ensures KeyOfCell(BlockByIjk(meshSize, i, j, k)) ==
        (AxisIds(meshSize[0], coarseRatio[0])[i],
         AxisIds(meshSize[1], coarseRatio[1])[j],
         AxisIds(meshSize[2], coarseRatio[2])[k])
      ensures var t := BlockByIjk(meshSize, i, j, k);
        var n := CellCount();
        ExpectedCell(t) ==
          FineCell((i, j, k), Corners((i, j, k)), t + 1, phiValues[t + 1],
                   [permValues[t + 1], 0.0, 0.0,
                    0.0, permValues[t + 1 + n], 0.0,
                    0.0, 0.0, permValues[t + 1 + 2 * n]],
                   (AxisIds(meshSize[0], coarseRatio[0])[i],
                    AxisIds(meshSize[1], coarseRatio[1])[j],
                    AxisIds(meshSize[2], coarseRatio[2])[k]))
    {
      LatticeAt(meshSize[0], meshSize[1], meshSize[2], i, j, k);
      assert [meshSize[0], meshSize[1], meshSize[2]] == meshSize;
    }

    /** `_create_hexa` on the vertices `create_fine_vertices` made picks the
        eight corners of cell (i, j, k). */
    lemma FineHexa(i: int, j: int, k: int, fineVertices: seq<Point>)
      requires Configured() && InGrid(meshSize, i, j, k)
      requires fineVertices == Lattice(meshSize[0] + 1, meshSize[1] + 1, meshSize[2] + 1)
      ensures CreateHexa(i, j, k, fineVertices, meshSize) == Corners((i, j, k))
    {
      HexaCorners(i, j, k, meshSize);
    }

    /** `blocks` holds exactly the cells below c: each block is a non-empty,
        increasing list of cells whose key is the block's own, and every cell
        below c is in the block of its key. */
    ghost predicate BlocksHold(blocks: map<Point, seq<int>>, c: int)
      requires Configured() && 0 <= c <= CellCount()
    {
      && (forall key :: key in blocks ==>
            |blocks[key]| > 0 && Increasing(blocks[key]) &&
            forall x :: x in blocks[key] ==> 0 <= x < c && KeyOfCell(x) == key)
      && (forall t :: 0 <= t < c ==> KeyOfCell(t) in blocks && t in blocks[KeyOfCell(t)])
    }

    /** Adding cell c to the block of its key (lines 262-272) extends the
        blocks from the cells below c to the cells below c + 1. */
    lemma AddCellToBlock(blocks: map<Point, seq<int>>, c: int)
      requires Configured() && 0 <= c < CellCount() && BlocksHold(blocks, c)
      ensures BlocksHold(AddToBlock(blocks, KeyOfCell(c), c), c + 1)
    {
      var key := KeyOfCell(c);
      var blocks' := AddToBlock(blocks, key, c);
      forall key' | key' in blocks'
        ensures |blocks'[key']| > 0 && Increasing(blocks'[key'])
        ensures forall x :: x in blocks'[key'] ==> 0 <= x < c + 1 && KeyOfCell(x) == key'
      {
        if key' == key && key in blocks {
          var s := blocks[key];
          assert blocks'[key'] == s + [c];
          forall a, b | 0 <= a < b < |s| + 1
            ensures (s + [c])[a] < (s + [c])[b]
          {
            if b == |s| {
              assert s[a] in s;
            }
          }
        }
      }
      forall t | 0 <= t < c + 1
        ensures KeyOfCell(t) in blocks' && t in blocks'[KeyOfCell(t)]
      {
        if t < c && KeyOfCell(t) == key {
          assert blocks'[key] == blocks[key] + [c];
        }
      }
    }

    /** The cells the loops of lines 229-259 have created once c of them
        exist, in creation order. */
    function CreatedCells(c: int): (cells: seq<FineCell>)
      requires Configured() && 0 <= c <= CellCount() && ReadsFit(c)
      ensures |cells| == c
      decreases c
    {
      if c == 0 then [] else CreatedCells(c - 1) + [ExpectedCell(c - 1)]
    }

    /** The blocks (lines 262-272) once cells 0 .. c - 1 have been added. */
    function CreatedBlocks(c: int): map<Point, seq<int>>
      requires Configured() && 0 <= c <= CellCount()
      decreases c
    {
      if c == 0 then map[] else AddToBlock(CreatedBlocks(c - 1), KeyOfCell(c - 1), c - 1)
    }

    /** The t-th cell created is the one ExpectedCell describes. */
    lemma {:induction false} CreatedCellsAt(c: int, t: int)
      requires Configured() && 0 <= c <= CellCount() && ReadsFit(c) && 0 <= t < c
      ensures CreatedCells(c)[t] == ExpectedCell(t)
      decreases c
    {
      if t < c - 1 {
        CreatedCellsAt(c - 1, t);
      }
    }

    /** The blocks partition the cells created so far by their key. */
    lemma {:induction false} CreatedBlocksHold(c: int)
      requires Configured() && 0 <= c <= CellCount()
      ensures BlocksHold(CreatedBlocks(c), c)
      decreases c
    {
      if c > 0 {
        CreatedBlocksHold(c - 1);
        AddCellToBlock(CreatedBlocks(c - 1), c - 1);
      }
    }

    /** `cells` and `blocks` are the state after creating c cells, whose
        reads of PHI and PERM were all in range. */
    predicate Built(cells: seq<FineCell>, blocks: map<Point, seq<int>>, c: int)
      requires Configured()
    {
      0 <= c <= CellCount() && ReadsFit(c) && cells == CreatedCells(c) && blocks == CreatedBlocks(c)
    }

    /** One pass of the innermost loop body: creating cell c and adding it
        to the block of its key extends the state from c cells to c + 1. */
    lemma AppendCell(cells: seq<FineCell>, blocks: map<Point, seq<int>>, c: int, cell: FineCell, key: Point)
      requires Configured() && 0 <= c < CellCount() && ReadsFit(c + 1)
      requires Built(cells, blocks, c) && cell == ExpectedCell(c) && key == KeyOfCell(c)
      ensures Built(cells + [cell], AddToBlock(blocks, key, c), c + 1)
    {
    }

    /** PRIMAL_ID: every block has one, the values are distinct and they are
        exactly 0 .. #blocks - 1. */
    ghost predicate PrimalsNumbered()
      reads this
    {
      && primalIdTag.Keys == primals.Keys
      && (forall key :: key in primalIdTag ==> 0 <= primalIdTag[key] < |primals|)
      && (forall key, key' :: key in primalIdTag && key' in primalIdTag && key != key' ==>
            primalIdTag[key] != primalIdTag[key'])
      && (forall v :: 0 <= v < |primals| ==> v in primalIdTag.Values)
    }

    /** The state after a successful `create_fine_blocks_and_primal`. */
    ghost predicate FineGridBuilt()
      reads this
    {
      && IdsComputed()
      && ColumnsLongEnough()
      && elems == CreatedCells(CellCount())
      && primals == CreatedBlocks(CellCount())
      && PrimalsNumbered()
    }

    /** Lines 273-276: give the blocks PRIMAL_IDs 0, 1, 2, ... in the order
        the dictionary yields them. */
    method NumberPrimals()
      requires primalIdTag == map[]
      modifies this
      ensures primalIds == old(primalIds) && elems == old(elems) && primals == old(primals)
      ensures boundaryTags == old(boundaryTags) && boundaryMeshsets == old(boundaryMeshsets)
      ensures adjMeshsets == old(adjMeshsets)
      ensures PrimalsNumbered()
    {
      primalIdTag := NumberKeys(primals.Keys);
    }

    /** Lines 237-259 for cell (i, j, k), the curId-th cell: its hexahedron
        and its tags, with PHI and PERM read at the incremented counter. It
        yields None at a read past the end of a column (the IndexError),
        which happens only when a column is too short for the whole grid:
        with a short column, only the cells whose reads pass its end fail. */
    method CreateCell(i: int, j: int, k: int, fineVertices: seq<Point>, curId: int)
      returns (cell: Option<FineCell>, curId': int)
      requires IdsComputed() && InGrid(meshSize, i, j, k)
      requires fineVertices == Lattice(meshSize[0] + 1, meshSize[1] + 1, meshSize[2] + 1)
      requires curId == BlockByIjk(meshSize, i, j, k)
      ensures 0 <= curId < CellCount() && curId' == curId + 1
      ensures cell.Some? <==> ReadsFit(curId')
      ensures cell.Some? ==> cell.value == ExpectedCell(curId) && cell.value.primal == KeyOfCell(curId)
      ensures cell.None? ==> !ColumnsLongEnough()
    {
      var cells := CellCount();
      var idx, idy, idz := primalIds[0][i], primalIds[1][j], primalIds[2][k];
      var hexa := CreateHexa(i, j, k, fineVertices, meshSize);
      // GLOBAL_ID is set to the counter, which is then incremented and set
      // again: the incremented value is the one that stays
      var globalId := curId;
      curId' := curId + 1;
      globalId := curId';
      if curId' >= |phiValues| || curId' + 2 * cells >= |permValues| {
        return None, curId';
      }
      var perm := [permValues[curId'], 0.0, 0.0,
                   0.0, permValues[curId' + cells], 0.0,
                   0.0, 0.0, permValues[curId' + 2 * cells]];
      ExpectedCellAt(i, j, k);
      FineHexa(i, j, k, fineVertices);
      cell := Some(FineCell((i, j, k), hexa, globalId, phiValues[curId'], perm, (idx, idy, idz)));
    }

    /** The innermost loop of lines 235-272 for row j of layer k: the row's
        cells in order, each appended to the cells and to its block (lines
        260-272), stopping at the first failed read. */
    method CreateRow(j: int, k: int, fineVertices: seq<Point>, created: seq<FineCell>,
                     blocks: map<Point, seq<int>>, curId: int)
      returns (created': seq<FineCell>, blocks': map<Point, seq<int>>, curId': int, ok: bool)
      requires IdsComputed() && 0 <= j < meshSize[1] && 0 <= k < meshSize[2]
      requires fineVertices == Lattice(meshSize[0] + 1, meshSize[1] + 1, meshSize[2] + 1)
      requires curId == BlockByIjk(meshSize, 0, j, k) && Built(created, blocks, curId)
      ensures ok ==> curId' == BlockByIjk(meshSize, 0, j + 1, k) && Built(created', blocks', curId')
      ensures !ok ==> !ColumnsLongEnough()
    {
      created', blocks', curId' := created, blocks, curId;
      ok := true;
      var i := 0;
      while i < meshSize[0] && ok
        invariant 0 <= i <= meshSize[0]
        invariant ok ==> curId' == BlockByIjk(meshSize, i, j, k) && Built(created', blocks', curId')
        invariant !ok ==> !ColumnsLongEnough()
      {
        var cell, next := CreateCell(i, j, k, fineVertices, curId');
        if cell.Some? {
          var el := |created'|;
          AppendCell(created', blocks', curId', cell.value, cell.value.primal);
          created' := created' + [cell.value];
          blocks' := AddToBlock(blocks', cell.value.primal, el);
          curId' := next;
        } else {
          ok := false;
        }
        i := i + 1;
      }
      NextRow(meshSize, j, k);
    }

    /** The middle loop of lines 233-272 for layer k: its rows in order. */
    method CreateLayer(k: int, fineVertices: seq<Point>, created: seq<FineCell>,
                       blocks: map<Point, seq<int>>, curId: int)
      returns (created': seq<FineCell>, blocks': map<Point, seq<int>>, curId': int, ok: bool)
      requires IdsComputed() && 0 <= k < meshSize[2]
      requires fineVertices == Lattice(meshSize[0] + 1, meshSize[1] + 1, meshSize[2] + 1)
      requires curId == BlockByIjk(meshSize, 0, 0, k) && Built(created, blocks, curId)
      ensures ok ==> curId' == BlockByIjk(meshSize, 0, 0, k + 1) && Built(created', blocks', curId')
      ensures !ok ==> !ColumnsLongEnough()
    {
      created', blocks', curId' := created, blocks, curId;
      ok := true;
      var j := 0;
      while j < meshSize[1] && ok
        invariant 0 <= j <= meshSize[1]
        invariant ok ==> curId' == BlockByIjk(meshSize, 0, j, k) && Built(created', blocks', curId')
        invariant !ok ==> !ColumnsLongEnough()
      {
        created', blocks', curId', ok := CreateRow(j, k, fineVertices, created', blocks', curId');
        j := j + 1;
      }
      NextLayer(meshSize, k);
    }

    /** `create_fine_blocks_and_primal` on an object whose ids are computed
        and that has no cells yet. It fails (the IndexError of lines 248-258)
        exactly when PHI or PERM is read past the end of its column; the
        cells created before the failing read stay. */
    method CreateFineBlocksAndPrimal() returns (ok: bool)
      requires IdsComputed() && elems == [] && primals == map[] && primalIdTag == map[]
      modifies this
      ensures primalIds == old(primalIds)
      ensures boundaryTags == old(boundaryTags) && boundaryMeshsets == old(boundaryMeshsets)
      ensures adjMeshsets == old(adjMeshsets)
      ensures !ok ==> primalIdTag == old(primalIdTag)
      ensures ok <==> ColumnsLongEnough()
      ensures ok ==> FineGridBuilt()
    {
      var fineVertices := Lattice(meshSize[0] + 1, meshSize[1] + 1, meshSize[2] + 1);
      // the cells and blocks built so far, written back to `elems` and
      // `primals` when the loops end or fail
      var created: seq<FineCell> := [];
      var blocks: map<Point, seq<int>> := map[];
      var curId := 0;
      var k := 0;
      ok := true;
      while k < meshSize[2] && ok
        modifies {}
        invariant 0 <= k <= meshSize[2]
        invariant ok ==> curId == BlockByIjk(meshSize, 0, 0, k) && Built(created, blocks, curId)
        invariant !ok ==> !ColumnsLongEnough()
      {
        created, blocks, curId, ok := CreateLayer(k, fineVertices, created, blocks, curId);
        k := k + 1;
      }
      NextLayer(meshSize, k);
      elems, primals := created, blocks;
      if ok {
        NumberPrimals();
      }
    }

    /** The cell at linear index BlockByIjk(i, j, k) of the creation order
        is (i, j, k), and its block key pairs the coarse ids of i, j and k. */
    lemma CellAt(i: int, j: int, k: int)
      requires Configured() && InGrid(meshSize, i, j, k)
      ensures 0 <= BlockByIjk(meshSize, i, j, k) < CellCount()
      ensures CellOrder()[BlockByIjk(meshSize, i, j, k)] == (i, j, k)
      ensures KeyOfCell(BlockByIjk(meshSize, i, j, k)) ==
        (AxisIds(meshSize[0], coarseRatio[0])[i],
         AxisIds(meshSize[1], coarseRatio[1])[j],
         AxisIds(meshSize[2], coarseRatio[2])[k])
    {
      LatticeAt(meshSize[0], meshSize[1], meshSize[2], i, j, k);
      assert [meshSize[0], meshSize[1], meshSize[2]] == meshSize;
    }

    /** On the finished fine grid, the entry of `elems` at the linear index
        of (i, j, k) is the cell built at (i, j, k): its eight corners, its
        GLOBAL_ID and the key of its block. */
    lemma ElemAt(ijk: Point)
      requires Configured() && InGrid(meshSize, ijk.0, ijk.1, ijk.2)
      ensures FineGridBuilt() ==>
        var el := BlockByIjk(meshSize, ijk.0, ijk.1, ijk.2);
        && 0 <= el < |elems|
        && elems[el].ijk == ijk
        && elems[el].hexa == Corners(ijk)
        && elems[el].globalId == el + 1
        && elems[el].primal ==
             (AxisIds(meshSize[0], coarseRatio[0])[ijk.0],
              AxisIds(meshSize[1], coarseRatio[1])[ijk.1],
              AxisIds(meshSize[2], coarseRatio[2])[ijk.2])
    {
      if FineGridBuilt() {
        var el := BlockByIjk(meshSize, ijk.0, ijk.1, ijk.2);
        CellAt(ijk.0, ijk.1, ijk.2);
        CreatedCellsAt(CellCount(), el);
        ExpectedCellAt(ijk.0, ijk.1, ijk.2);
      }
    }

    /** `_get_elem_by_ijk`: the handle of cell (i, j, k) is its linear index
        into `elems`. On the finished fine grid it is the cell built at
        (i, j, k). */
    function GetElemByIjk(ijk: Point): (el: int)
      reads this
      requires Configured() && InGrid(meshSize, ijk.0, ijk.1, ijk.2)
      requires BlockByIjk(meshSize, ijk.0, ijk.1, ijk.2) < |elems|
      ensures 0 <= el < |elems|
      ensures FineGridBuilt() ==> elems[el].ijk == ijk && elems[el].hexa == Corners(ijk)
    {
      ElemAt(ijk);
      BlockByIjk(meshSize, ijk.0, ijk.1, ijk.2)
    }

    /** The coordinate along axis dim of the t-th cell created. */
    function CellCoord(dim: int, t: int): (x: int)
      requires Configured() && 0 <= dim < 3 && 0 <= t < CellCount()
      ensures 0 <= x < meshSize[dim]
    {
      LatticeInGrid(meshSize[0], meshSize[1], meshSize[2], t);
      Coord(CellOrder()[t], dim)
    }

    /** The test of line 480 for the t-th cell along axis dim. */
    predicate LowFaceCell(dim: int, t: int)
      requires Configured() && 0 <= dim < 3 && 0 <= t < CellCount()
    {
      IsLowFace(AxisIds(meshSize[dim], coarseRatio[dim]), coarseRatio[dim], CellCoord(dim, t))
    }

    /** The test of lines 489-494 for the t-th cell along axis dim. */
    predicate HighFaceCell(dim: int, t: int)
      requires Configured() && 0 <= dim < 3 && 0 <= t < CellCount()
    {
      IsHighFace(AxisIds(meshSize[dim], coarseRatio[dim]), coarseRatio[dim], CellCoord(dim, t))
    }

    /** Lines 478-497 for the t-th cell along axis dim: 1.0 on a low face,
        then 0.0 on a high face, so the later write wins when both hold. */
    function TagCell(tags: map<int, real>, dim: int, t: int): map<int, real>
      requires Configured() && 0 <= dim < 3 && 0 <= t < CellCount()
    {
      Mark(tags, t, LowFaceCell(dim, t), HighFaceCell(dim, t))
    }

    /** The boundary tag of axis dim, starting from `start`, once the first
        c cells of the creation order have been visited. */
    function FaceTags(start: map<int, real>, dim: int, c: int): map<int, real>
      requires Configured() && 0 <= dim < 3 && 0 <= c <= CellCount()
      decreases c
    {
      if c == 0 then start else TagCell(FaceTags(start, dim, c - 1), dim, c - 1)
    }

    /** The boundary meshset of axis dim once the first c cells have been
        visited: the cells added at lines 484-486 or 496-497. */
    function FaceCells(dim: int, c: int): set<int>
      requires Configured() && 0 <= dim < 3 && 0 <= c <= CellCount()
      decreases c
    {
      if c == 0 then {}
      else FaceCells(dim, c - 1) + (if LowFaceCell(dim, c - 1) || HighFaceCell(dim, c - 1) then {c - 1} else {})
    }

    /** After visiting c cells, cell t carries a tag of axis dim exactly when
        it had one before or it is one of the visited face cells. */
    lemma {:induction false} FaceTagsKeys(start: map<int, real>, dim: int, c: int, t: int)
      requires Configured() && 0 <= dim < 3 && 0 <= c <= CellCount() && 0 <= t < CellCount()
      ensures t in FaceTags(start, dim, c) <==>
        t in start || (t < c && (LowFaceCell(dim, t) || HighFaceCell(dim, t)))
      decreases c
    {
      if c > 0 {
        FaceTagsKeys(start, dim, c - 1, t);
      }
    }

    /** After visiting c cells, a visited high face holds 0.0, a visited low
        face that is not a high face holds 1.0, and every other cell keeps
        its old tag. */
    lemma {:induction false} FaceTagsValue(start: map<int, real>, dim: int, c: int, t: int)
      requires Configured() && 0 <= dim < 3 && 0 <= c <= CellCount() && 0 <= t < CellCount()
      requires t in FaceTags(start, dim, c)
      ensures t < c && HighFaceCell(dim, t) ==> FaceTags(start, dim, c)[t] == 0.0
      ensures t < c && LowFaceCell(dim, t) && !HighFaceCell(dim, t) ==> FaceTags(start, dim, c)[t] == 1.0
      ensures (t >= c || (!LowFaceCell(dim, t) && !HighFaceCell(dim, t))) ==>
        t in start && FaceTags(start, dim, c)[t] == start[t]
      decreases c
    {
      if c > 0 {
        var before := FaceTags(start, dim, c - 1);
        if t != c - 1 || (!LowFaceCell(dim, t) && !HighFaceCell(dim, t)) {
          assert t in before;
          FaceTagsValue(start, dim, c - 1, t);
        }
      }
    }

    /** The boundary meshset after c cells holds exactly the visited face cells. */
    lemma {:induction false} FaceCellsAt(dim: int, c: int, t: int)
      requires Configured() && 0 <= dim < 3 && 0 <= c <= CellCount()
      ensures t in FaceCells(dim, c) <==> 0 <= t < c && (LowFaceCell(dim, t) || HighFaceCell(dim, t))
      decreases c
    {
      if c > 0 {
        FaceCellsAt(dim, c - 1, t);
      }
    }

    /** `tags` and `meshset` are the boundary tag and meshset of axis dim
        once the first c cells have been visited, starting from `start`. */
    predicate Tagged(tags: map<int, real>, meshset: set<int>, start: map<int, real>, dim: int, c: int)
      requires Configured() && 0 <= dim < 3
    {
      0 <= c <= CellCount() && tags == FaceTags(start, dim, c) && meshset == FaceCells(dim, c)
    }

    /** The tests of lines 480 and 489-494 for cell (i, j, k), at coordinate
        x along axis dim: the first passes exactly when x starts its block,
        the second exactly when x ends it, and both exactly when the block is
        one cell thick. */
    lemma FaceTestsAt(dim: int, i: int, j: int, k: int)
      requires Configured() && 0 <= dim < 3 && InGrid(meshSize, i, j, k)
      ensures var t := BlockByIjk(meshSize, i, j, k);
        var n := meshSize[dim];
        var x := Coord((i, j, k), dim);
        var ids := AxisIds(n, coarseRatio[dim]);
        && 0 <= t < CellCount() && 0 <= x < n
        && (LowFaceCell(dim, t) <==> x == 0 || ids[x - 1] != ids[x])
        && (HighFaceCell(dim, t) <==> x == n - 1 || ids[x + 1] != ids[x])
        && (LowFaceCell(dim, t) && HighFaceCell(dim, t) <==> BlockLen(n, coarseRatio[dim], ids[x]) == 1)
    {
      var n, r := meshSize[dim], coarseRatio[dim];
      var x := Coord((i, j, k), dim);
      CellAt(i, j, k);
      assert CellCoord(dim, BlockByIjk(meshSize, i, j, k)) == x;
      LowFaceIsBlockStart(n, r, x);
      HighFaceIsBlockEnd(n, r, x);
      OneCellBlockIsBoth(n, r, x);
    }

    /** After `set_local_problem` on a fresh object, cell (i, j, k), at
        coordinate x along axis dim, is tagged and in the boundary meshset
        exactly when x starts or ends its block, and its tag is 0.0 exactly
        when x ends its block (so a block one cell thick ends at 0.0), 1.0
        otherwise. */
    lemma BoundaryConditionAt(dim: int, i: int, j: int, k: int)
      requires Configured() && 0 <= dim < 3 && InGrid(meshSize, i, j, k)
      ensures var t := BlockByIjk(meshSize, i, j, k);
        var n := meshSize[dim];
        var x := Coord((i, j, k), dim);
        var ids := AxisIds(n, coarseRatio[dim]);
        var starts := x == 0 || ids[x - 1] != ids[x];
        var ends := x == n - 1 || ids[x + 1] != ids[x];
        var tags := FaceTags(map[], dim, CellCount());
        && 0 <= t < CellCount()
        && (t in FaceCells(dim, CellCount()) <==> starts || ends)
        && (t in tags <==> starts || ends)
        && (t in tags ==> (tags[t] == 0.0 <==> ends) && (tags[t] == 1.0 <==> !ends))
    {
      var t := BlockByIjk(meshSize, i, j, k);
      FaceTestsAt(dim, i, j, k);
      FaceTagsKeys(map[], dim, CellCount(), t);
      FaceCellsAt(dim, CellCount(), t);
      if t in FaceTags(map[], dim, CellCount()) {
        FaceTagsValue(map[], dim, CellCount(), t);
      }
    }

    /** The two writes of lines 478-497 to cell t: 1.0 when `low`, then 0.0
        when `high`. */
    static function Mark(tags: map<int, real>, t: int, low: bool, high: bool): (tags': map<int, real>)
      ensures t in tags' <==> t in tags || low || high
      ensures high ==> tags'[t] == 0.0
      ensures low && !high ==> tags'[t] == 1.0
      ensures forall u :: u != t ==> (u in tags' <==> u in tags)
      ensures forall u :: u != t && u in tags ==> tags'[u] == tags[u]
    {
      var written := if low then tags[t := 1.0] else tags;
      if high then written[t := 0.0] else written
    }

    /** The two tests of lines 478-497 as written, for cell (i, j, k) along
        axis dim, are LowFaceCell and HighFaceCell of its linear index. */
    lemma FaceTestsAsWritten(dim: int, i: int, j: int, k: int)
      requires Configured() && 0 <= dim < 3 && InGrid(meshSize, i, j, k)
      ensures var t := BlockByIjk(meshSize, i, j, k);
        var r := coarseRatio[dim];
        var ids := AxisIds(meshSize[dim], r);
        var x := Coord((i, j, k), dim);
        && 0 <= t < CellCount() && 0 <= x < |ids|
        && (LowFaceCell(dim, t) <==> x == r * ids[x])
        && (HighFaceCell(dim, t) <==> x == r * ids[x] + CoarseningRatio(ids, ids[x]) - 1)
    {
      CellAt(i, j, k);
      assert CellCoord(dim, BlockByIjk(meshSize, i, j, k)) == Coord((i, j, k), dim);
    }

    /** The writes of lines 478-497 to cell t extend the tags and the
        meshset from the cells before t to the cells up to t. */
    lemma TagStep(tags: map<int, real>, meshset: set<int>, tags': map<int, real>, meshset': set<int>,
                  start: map<int, real>, dim: int, t: int)
      requires Configured() && 0 <= dim < 3 && 0 <= t < CellCount()
      requires Tagged(tags, meshset, start, dim, t)
      requires tags' == Mark(tags, t, LowFaceCell(dim, t), HighFaceCell(dim, t))
      requires meshset' == if LowFaceCell(dim, t) || HighFaceCell(dim, t) then meshset + {t} else meshset
      ensures Tagged(tags', meshset', start, dim, t + 1)
    {
    }

    /** The innermost loop of lines 478-497: the cells of row j of layer k
        along axis dim. */
    method TagRow(dim: int, j: int, k: int, start: map<int, real>, tags: map<int, real>, meshset: set<int>)
      returns (tags': map<int, real>, meshset': set<int>)
      requires IdsComputed() && |elems| == CellCount() && 0 <= dim < 3
      requires 0 <= j < meshSize[1] && 0 <= k < meshSize[2]
      requires Tagged(tags, meshset, start, dim, BlockByIjk(meshSize, 0, j, k))
      ensures Tagged(tags', meshset', start, dim, BlockByIjk(meshSize, 0, j + 1, k))
    {
      var ids, r := primalIds[dim], coarseRatio[dim];
      assert ids == AxisIds(meshSize[dim], r);
      tags', meshset' := tags, meshset;
      var i := 0;
      // the linear index of cell (i, j, k)
      ghost var c := BlockByIjk(meshSize, 0, j, k);
      while i < meshSize[0]
        invariant 0 <= i <= meshSize[0] && c == BlockByIjk(meshSize, i, j, k)
        invariant Tagged(tags', meshset', start, dim, c)
      {
        var el := GetElemByIjk((i, j, k));
        var x := Coord((i, j, k), dim);
        var low := x == r * ids[x];
        var high := x == r * ids[x] + CoarseningRatio(ids, ids[x]) - 1;
        FaceTestsAsWritten(dim, i, j, k);
        ghost var before, beforeSet := tags', meshset';
        if low {
          tags' := tags'[el := 1.0];
          meshset' := meshset' + {el};
        }
        if high {
          tags' := tags'[el := 0.0];
          meshset' := meshset' + {el};
        }
        TagStep(before, beforeSet, tags', meshset', start, dim, c);
        i, c := i + 1, c + 1;
      }
      NextRow(meshSize, j, k);
      assert c == BlockByIjk(meshSize, 0, j + 1, k);
    }

    /** The loops over k and j of lines 478-497 for axis dim: every cell
        visited, starting from the tag `start` and a new meshset. */
    method TagAxis(dim: int, start: map<int, real>) returns (tags: map<int, real>, meshset: set<int>)
      requires IdsComputed() && |elems| == CellCount() && 0 <= dim < 3
      ensures tags == FaceTags(start, dim, CellCount()) && meshset == FaceCells(dim, CellCount())
    {
      tags, meshset := start, {};
      var k := 0;
      while k < meshSize[2]
        invariant 0 <= k <= meshSize[2]
        invariant Tagged(tags, meshset, start, dim, BlockByIjk(meshSize, 0, 0, k))
      {
        var j := 0;
        while j < meshSize[1]
          invariant 0 <= j <= meshSize[1]
          invariant Tagged(tags, meshset, start, dim, BlockByIjk(meshSize, 0, j, k))
        {
          tags, meshset := TagRow(dim, j, k, start, tags, meshset);
          j := j + 1;
        }
        NextLayer(meshSize, k);
        k := k + 1;
      }
      NextLayer(meshSize, k);
    }

    /** `set_local_problem` on the finished fine grid: for each axis, a new
        boundary meshset, and the cells visited k outermost, i innermost,
        each tagged 1.0 when it is the first cell of its block along the
        axis and 0.0 when it is the last. */
    method SetLocalProblem()
      requires IdsComputed() && |elems| == CellCount() && |boundaryTags| == 3
      modifies this
      ensures primalIds == old(primalIds) && elems == old(elems) && primals == old(primals)
      ensures primalIdTag == old(primalIdTag) && adjMeshsets == old(adjMeshsets)
      ensures |boundaryTags| == 3 && |boundaryMeshsets| == 3
      ensures forall dim :: 0 <= dim < 3 ==>
        boundaryTags[dim] == FaceTags(old(boundaryTags)[dim], dim, CellCount()) &&
        boundaryMeshsets[dim] == FaceCells(dim, CellCount())
    {
      var tagsByDim := boundaryTags;
      var meshsets: seq<set<int>> := [];
      var dim := 0;
      while dim < 3
        modifies {}
        invariant 0 <= dim <= 3 && |tagsByDim| == 3 && |meshsets| == dim
        invariant forall d :: 0 <= d < dim ==>
          tagsByDim[d] == FaceTags(boundaryTags[d], d, CellCount()) &&
          meshsets[d] == FaceCells(d, CellCount())
        invariant forall d :: dim <= d < 3 ==> tagsByDim[d] == boundaryTags[d]
      {
        var tags, meshset := TagAxis(dim, tagsByDim[dim]);
        tagsByDim := tagsByDim[dim := tags];
        meshsets := meshsets + [meshset];
        dim := dim + 1;
      }
      boundaryTags, boundaryMeshsets := tagsByDim, meshsets;
    }

    /** A key in the coarse range: each coordinate is a coarse id of its axis. */
    predicate InCoarseRange(key: Point)
      requires Configured()
    {
      && 0 <= key.0 < BlockCount(meshSize[0], coarseRatio[0])
      && 0 <= key.1 < BlockCount(meshSize[1], coarseRatio[1])
      && 0 <= key.2 < BlockCount(meshSize[2], coarseRatio[2])
    }

    /** The blocks of the finished fine grid are keyed by exactly the
        triples of coarse ids: one block per key of the coarse range. */
    lemma PrimalKeysAreCoarseRange(key: Point)
      requires Configured()
      ensures key in CreatedBlocks(CellCount()) <==> InCoarseRange(key)
    {
      var blocks := CreatedBlocks(CellCount());
      CreatedBlocksHold(CellCount());
      if key in blocks {
        var t := blocks[key][0];
        assert t in blocks[key];
        LatticeInGrid(meshSize[0], meshSize[1], meshSize[2], t);
        var p := CellOrder()[t];
        IdWindow(meshSize[0], coarseRatio[0], p.0);
        IdWindow(meshSize[1], coarseRatio[1], p.1);
        IdWindow(meshSize[2], coarseRatio[2], p.2);
      }
      if InCoarseRange(key) {
        EveryBlockOccurs(meshSize[0], coarseRatio[0], key.0);
        EveryBlockOccurs(meshSize[1], coarseRatio[1], key.1);
        EveryBlockOccurs(meshSize[2], coarseRatio[2], key.2);
        CellAt(coarseRatio[0] * key.0, coarseRatio[1] * key.1, coarseRatio[2] * key.2);
      }
    }

    /** `coarse_grid` (lines 647-663) looks up the block of every key below
        `_coarse_dims`; each of them is a block of the finished fine grid. */
    lemma CoarseGridKeysAreBlocks(i: int, j: int, k: int)
      requires Configured() && InGrid(CoarseDims(meshSize, coarseRatio), i, j, k)
      ensures (i, j, k) in CreatedBlocks(CellCount())
    {
      PrimalKeysAreCoarseRange((i, j, k));
    }

    /** The largest coarse id of each axis: the id of its last block. */
    function CoarseMax(): Point
      requires Configured()
    {
      (BlockCount(meshSize[0], coarseRatio[0]) - 1,
       BlockCount(meshSize[1], coarseRatio[1]) - 1,
       BlockCount(meshSize[2], coarseRatio[2]) - 1)
    }

    /** `max_coarse_ids` of lines 282-284, the maxima of the three id lists,
        is the id of the last block of each axis. */
    function MaxCoarseIds(): (m: Point)
      reads this
      requires IdsComputed() && meshSize[0] > 0 && meshSize[1] > 0 && meshSize[2] > 0
      ensures m == CoarseMax()
    {
      AxisIdsMax(meshSize[0], coarseRatio[0]);
      AxisIdsMax(meshSize[1], coarseRatio[1]);
      AxisIdsMax(meshSize[2], coarseRatio[2]);
      (SeqMax(primalIds[0]), SeqMax(primalIds[1]), SeqMax(primalIds[2]))
    }

    /** The lookup of line 301 never raises KeyError: every neighbour
        selected for a key is a block of the finished fine grid. */
    lemma NeighboursAreBlocks(p: Point, q: Point)
      requires Configured() && q in FaceNeighbours(p, CoarseMax())
      ensures q in CreatedBlocks(CellCount())
    {
      FaceNeighboursExact(p, CoarseMax(), q);
      PrimalKeysAreCoarseRange(q);
    }

    /** `store_primal_adj` up to line 304: for every block, the neighbours
        found by the scan of lines 290-302, added to the block's PRIMAL_ADJ
        meshset. Each of them is itself a block, so the lookup of line 301
        succeeds. */
    method StorePrimalAdj()
      requires IdsComputed() && primals == CreatedBlocks(CellCount())
      requires meshSize[0] > 0 && meshSize[1] > 0 && meshSize[2] > 0
      modifies this
      ensures primalIds == old(primalIds) && elems == old(elems) && primals == old(primals)
      ensures primalIdTag == old(primalIdTag)
      ensures boundaryTags == old(boundaryTags) && boundaryMeshsets == old(boundaryMeshsets)
      ensures adjMeshsets.Keys == old(adjMeshsets).Keys + primals.Keys
      ensures forall key :: key in primals ==> adjMeshsets[key] == FaceNeighbours(key, CoarseMax())
      ensures forall key :: key in old(adjMeshsets) && key !in primals ==> adjMeshsets[key] == old(adjMeshsets)[key]
      ensures forall key, q :: key in primals && q in adjMeshsets[key] ==> q in primals
    {
      var maxCoarseIds := (SeqMax(primalIds[0]), SeqMax(primalIds[1]), SeqMax(primalIds[2]));
      assert maxCoarseIds == MaxCoarseIds();
      var lists := NeighbourLists(primals.Keys, maxCoarseIds, adjMeshsets);
      forall key, q | key in primals && q in lists[key]
        ensures q in primals
      {
        NeighboursAreBlocks(key, q);
      }
      adjMeshsets := lists;
    }
  }
}
