# Structured upscaling preprocessor: the coarse-partition index engine

This project models the integer core of `StructuredUpscalingMethods`. That class is the
preprocessor of a structured hexahedral mesh. It splits an `n0 x n1 x n2` grid of fine
cells into coarse blocks (the "primals"), `coarse_ratio[d]` cells per block along each axis.
It then creates the fine cells with their tags, groups them by block, numbers the blocks,
finds each block's face neighbours, and tags the first and last cell of every block along
each axis for the local boundary problems.

MOAB entities become values:

- a fine cell's handle is its position in `elems`, because MOAB hands handles out in
  creation order;
- a vertex is its integer lattice point;
- a coarse block is its `(idx, idy, idz)` key;
- a meshset is the sequence or set of the handles added to it.

The PHI and PERM columns are constructor parameters.

The modules are:

- `IndexArithmetic` (`arithmetic.dfy`): small facts about `*`, `/` and `%` that the other
  proofs use.
- `StructuredGrid` (`grid.dfy`):
  - the linear cell index and its inverse;
  - the vertex and cell creation order;
  - the eight-vertex hexahedron lookup;
  - the coarse extent and the coarse-block centroid.
- `CoarsePartition` (`partition.dfy`):
  - the per-axis coarse ids `calculate_primal_ids` produces, with the fold of a short
    remainder as written;
  - block windows, block sizes (`_coarsening_ratio`), and the first-cell and last-cell
    tests.
- `PrimalAdjacency` (`adjacency.dfy`): the 27-offset neighbour scan of `store_primal_adj`
  and its closed form.
- `StructuredUpscaling` (`upscaling.dfy`): the class `StructuredUpscalingMethods`.
  - Its fields are the ones the source updates: `primalIds`, `elems`, `primals`,
    `primalIdTag`, `boundaryTags`, `boundaryMeshsets` and `adjMeshsets`.
  - Its methods perform the source's loops.

Each method is proved against a specification function of the count of cells handled so
far: `CreatedCells`, `CreatedBlocks`, `FaceTags` and `FaceCells`. Lemmas state what those
functions mean for the grid.

Two behaviours of the code are kept as written:

- The fold test compares the remainder length with `mesh_size[dim] // 2`, not with the
  ratio (line 166).
- GLOBAL_ID, PHI and PERM use the counter after it is incremented (lines 243-258). The
  t-th cell gets GLOBAL_ID `t + 1` and reads position `t + 1` of each column, and a read
  past the end fails.

## Model

| member | source | states |
|---|---|---|
| CoarsePartition.Quotients | presto/Preprocessors/Upscale/Structured/StructuredUpscalingMethods.py:155-157 | the raw list of an axis has one entry per fine index |
| CoarsePartition.FoldsRemainder | presto/Preprocessors/Upscale/Structured/StructuredUpscalingMethods.py:166 | the fold test as written: the remainder is folded when its length is below `n//2`, the mesh size halved, not the ratio |
| CoarsePartition.PrimalIdOf | presto/Preprocessors/Upscale/Structured/StructuredUpscalingMethods.py:152-172 | the id the two loops leave at fine index i: `i//r`, except `n//r - 1` inside a folded remainder; FoldAsWritten proves this is what the loops produce |
| CoarsePartition.BlockCount | presto/Preprocessors/Upscale/Structured/StructuredUpscalingMethods.py:152-172 | the number of distinct ids on an axis: `n//r`, plus one for a remainder that is not folded; AxisIdsShape and EveryBlockOccurs prove that exactly these ids occur |
| CoarsePartition.BlockLen | presto/Preprocessors/Upscale/Structured/StructuredUpscalingMethods.py:220-222 | the cell count of block c: r, or up to the end of the axis for the last block; BlockInterval and BlockSize prove it is the block's real length |
| CoarsePartition.AxisIds | presto/Preprocessors/Upscale/Structured/StructuredUpscalingMethods.py:152-172 | the closed-form id list of an axis has one entry per fine index |
| CoarsePartition.SeqMax | presto/Preprocessors/Upscale/Structured/StructuredUpscalingMethods.py:168 | `max` of a non-empty list is an element of the list and bounds every element |
| CoarsePartition.Repeat | presto/Preprocessors/Upscale/Structured/StructuredUpscalingMethods.py:167-169 | `np.repeat(v, len)` has length `len` and holds only `v` |
| CoarsePartition.FoldAsWritten | presto/Preprocessors/Upscale/Structured/StructuredUpscalingMethods.py:159-172 | cutting at `(n//r)*r`, then overwriting a tail shorter than `n//2` with `max(ids)-1`, gives exactly the closed form: `i//r`, except `n//r-1` in a folded remainder |
| CoarsePartition.BlockBounds | presto/Preprocessors/Upscale/Structured/StructuredUpscalingMethods.py:152-172 | block c starts at `r*c`, is non-empty and ends inside the axis; only the last block ends at n |
| CoarsePartition.IdWindow | presto/Preprocessors/Upscale/Structured/StructuredUpscalingMethods.py:152-172 | the id of every fine index is a block below BlockCount whose window holds that index |
| CoarsePartition.BlockInterval | presto/Preprocessors/Upscale/Structured/StructuredUpscalingMethods.py:152-172 | fine index i carries id c if and only if i lies in `[r*c, r*c + BlockLen(c))` |
| CoarsePartition.AxisIdsShape | presto/Preprocessors/Upscale/Structured/StructuredUpscalingMethods.py:152-172 | the id list starts at 0, ends at BlockCount-1, and each step adds 0 or 1 |
| CoarsePartition.IdStep | presto/Preprocessors/Upscale/Structured/StructuredUpscalingMethods.py:152-172 | consecutive fine indices have equal or consecutive ids |
| CoarsePartition.EveryBlockOccurs | presto/Preprocessors/Upscale/Structured/StructuredUpscalingMethods.py:144-172 | every id below BlockCount occurs, first at `r*c`; the `_coarse_dims` extent `n//r` is at most BlockCount |
| CoarsePartition.AxisIdsMax | presto/Preprocessors/Upscale/Structured/StructuredUpscalingMethods.py:282-284 | `max(primal_ids[dim])` is BlockCount-1 |
| CoarsePartition.CoarseningRatio | presto/Preprocessors/Upscale/Structured/StructuredUpscalingMethods.py:220-222 | the per-id cell count is the multiplicity of the id in the list |
| CoarsePartition.CountInterval | presto/Preprocessors/Upscale/Structured/StructuredUpscalingMethods.py:220-222 | a value occupying exactly positions `[lo, hi)` is counted `hi - lo` times |
| CoarsePartition.BlockSize | presto/Preprocessors/Upscale/Structured/StructuredUpscalingMethods.py:220-222 | `_coarsening_ratio(dim)[c]` is the length of block c |
| CoarsePartition.LowFaceIsBlockStart | presto/Preprocessors/Upscale/Structured/StructuredUpscalingMethods.py:480-481 | the 1.0 test holds if and only if the index starts the axis or its predecessor has another id |
| CoarsePartition.HighFaceIsBlockEnd | presto/Preprocessors/Upscale/Structured/StructuredUpscalingMethods.py:489-494 | the 0.0 test holds if and only if the index ends the axis or its successor has another id |
| CoarsePartition.IsLowFace | presto/Preprocessors/Upscale/Structured/StructuredUpscalingMethods.py:480 | the line-480 test `x == r*ids[x]` on the id list; LowFaceIsBlockStart gives its meaning |
| CoarsePartition.IsHighFace | presto/Preprocessors/Upscale/Structured/StructuredUpscalingMethods.py:489-494 | the lines 489-494 test `x == r*ids[x] + ratio(ids[x]) - 1`; HighFaceIsBlockEnd gives its meaning |
| CoarsePartition.OneCellBlockIsBoth | presto/Preprocessors/Upscale/Structured/StructuredUpscalingMethods.py:480-494 | both tests hold if and only if the block is one cell thick |
| StructuredGrid.BlockByIjk | presto/Preprocessors/Upscale/Structured/StructuredUpscalingMethods.py:308-317 | the linear index of an in-grid cell lies in `[0, n0*n1*n2)` |
| StructuredGrid.IjkOfBlockOfIjk | presto/Preprocessors/Upscale/Structured/StructuredUpscalingMethods.py:308-317 | decoding the linear index of an in-grid cell gives the cell back |
| StructuredGrid.BlockOfIjkOfBlock | presto/Preprocessors/Upscale/Structured/StructuredUpscalingMethods.py:308-317 | every index in `[0, n0*n1*n2)` is the linear index of an in-grid cell, so the map is onto |
| StructuredGrid.BlockByIjkInjective | presto/Preprocessors/Upscale/Structured/StructuredUpscalingMethods.py:308-317 | distinct in-grid cells have distinct linear indices |
| StructuredGrid.NextRow | presto/Preprocessors/Upscale/Structured/StructuredUpscalingMethods.py:233-236 | the linear index advances by n0 from one row to the next |
| StructuredGrid.NextLayer | presto/Preprocessors/Upscale/Structured/StructuredUpscalingMethods.py:229-236 | after the last row of a layer comes the next layer; after the last layer comes the cell count |
| StructuredGrid.Layer | presto/Preprocessors/Upscale/Structured/StructuredUpscalingMethods.py:177-187 | one layer of the creation order has `n0 * rows` points |
| StructuredGrid.Lattice | presto/Preprocessors/Upscale/Structured/StructuredUpscalingMethods.py:177-187 | the creation order, k outermost and i innermost, has `n0*n1*n2` points |
| StructuredGrid.LayerAt | presto/Preprocessors/Upscale/Structured/StructuredUpscalingMethods.py:177-187 | within a layer, position `i + j*n0` holds `(i, j, k)` |
| StructuredGrid.LatticeAt | presto/Preprocessors/Upscale/Structured/StructuredUpscalingMethods.py:177-187 | position `_get_block_by_ijk(i, j, k)` of the creation order holds `(i, j, k)` |
| StructuredGrid.LatticeIsDecoding | presto/Preprocessors/Upscale/Structured/StructuredUpscalingMethods.py:177-187 | every position of the creation order holds the decoded linear index |
| StructuredGrid.LatticeInGrid | presto/Preprocessors/Upscale/Structured/StructuredUpscalingMethods.py:177-187 | every point of the creation order lies in the grid |
| StructuredGrid.VertexLattice | presto/Preprocessors/Upscale/Structured/StructuredUpscalingMethods.py:174-188 | `create_fine_vertices` makes `(m0+1)(m1+1)(m2+1)` vertices, and coordinate d of each lies in `[0, m_d]`, so every corner of every cell is among them |
| StructuredGrid.HexaIndicesAreCorners | presto/Preprocessors/Upscale/Structured/StructuredUpscalingMethods.py:190-218 | the eight indices `_create_hexa` computes are the vertex-lattice linear indices of the eight corners, in its order |
| StructuredGrid.CornersDistinct | presto/Preprocessors/Upscale/Structured/StructuredUpscalingMethods.py:190-218 | the eight corners of a cell are pairwise distinct |
| StructuredGrid.CreateHexa | presto/Preprocessors/Upscale/Structured/StructuredUpscalingMethods.py:190-218 | `_create_hexa` returns eight vertices taken from the vertex list |
| StructuredGrid.HexaCorners | presto/Preprocessors/Upscale/Structured/StructuredUpscalingMethods.py:174-218 | on the vertices `create_fine_vertices` makes, `_create_hexa` returns the eight corners of the cell |
| StructuredGrid.HexaIndexAt | presto/Preprocessors/Upscale/Structured/StructuredUpscalingMethods.py:190-218 | each of the eight indices lies in the vertex list and points at the matching corner |
| StructuredGrid.HexaIndices | presto/Preprocessors/Upscale/Structured/StructuredUpscalingMethods.py:190-218 | the eight index expressions of `_create_hexa`, as written; HexaIndicesAreCorners proves they are the corner indices |
| StructuredGrid.HexaIndexIsCorner | presto/Preprocessors/Upscale/Structured/StructuredUpscalingMethods.py:190-218 | index t of `_create_hexa` is the vertex-lattice index of corner t, and that corner lies on the vertex lattice |
| StructuredGrid.HexaIndicesDistinct | presto/Preprocessors/Upscale/Structured/StructuredUpscalingMethods.py:190-218 | the eight indices are distinct and below `(m0+1)(m1+1)(m2+1)` |
| StructuredGrid.CoarseDims | presto/Preprocessors/Upscale/Structured/StructuredUpscalingMethods.py:144-150 | each coarse extent c satisfies `r*c <= n < r*c + r`, which makes it the floor quotient |
| StructuredGrid.CentroidAlongIsMiddle | presto/Preprocessors/Upscale/Structured/StructuredUpscalingMethods.py:419-465 | on one axis, the eight scaled corner terms summed and floor-divided by 8 equal `s*r + r//2` |
| StructuredGrid.PrimalCentroidIsBlockMiddle | presto/Preprocessors/Upscale/Structured/StructuredUpscalingMethods.py:419-465 | `_primal_centroid(setid)` is `setid*r + r//2` on each axis |
| StructuredGrid.CentroidAlong | presto/Preprocessors/Upscale/Structured/StructuredUpscalingMethods.py:419-465 | one axis of `_primal_centroid`: the eight terms `(setid + coarse_sums[t]) * ratio`, summed and floor-divided by 8; CentroidAlongIsMiddle gives its value |
| StructuredGrid.PrimalCentroid | presto/Preprocessors/Upscale/Structured/StructuredUpscalingMethods.py:419-465 | `_primal_centroid` on all three axes; PrimalCentroidIsBlockMiddle gives its value |
| PrimalAdjacency.KeepInBox | presto/Preprocessors/Upscale/Structured/StructuredUpscalingMethods.py:297-298 | a shifted key is kept if and only if it lies in `[0, max_coarse_ids]` |
| PrimalAdjacency.ZeroCount | presto/Preprocessors/Upscale/Structured/StructuredUpscalingMethods.py:295-296 | `sum(coord_inc == [0, 0, 0])` counts the zero coordinates of an offset: between 0 and 3, and 3 only for the zero offset |
| PrimalAdjacency.Selected | presto/Preprocessors/Upscale/Structured/StructuredUpscalingMethods.py:295-298 | the test of lines 295-298 for one offset, as written; ScanStep proves which offsets pass it |
| PrimalAdjacency.FaceNeighbours | presto/Preprocessors/Upscale/Structured/StructuredUpscalingMethods.py:286-304 | a neighbour list has at most 6 entries and never contains the block itself |
| PrimalAdjacency.FaceNeighboursExact | presto/Preprocessors/Upscale/Structured/StructuredUpscalingMethods.py:290-302 | q is listed for p if and only if q is in range and differs from p by 1 in exactly one coordinate |
| PrimalAdjacency.AdjacentIsShift | presto/Preprocessors/Upscale/Structured/StructuredUpscalingMethods.py:295-296 | "differs by 1 in one coordinate" means "is one of the six one-axis shifts" |
| PrimalAdjacency.ScanStep | presto/Preprocessors/Upscale/Structured/StructuredUpscalingMethods.py:290-302 | each of the 27 offsets passes the test as written exactly when it is one of the six face offsets and in range |
| PrimalAdjacency.PrimalNeighbours | presto/Preprocessors/Upscale/Structured/StructuredUpscalingMethods.py:289-302 | the triple loop over offsets yields exactly the in-range face neighbours, in the order (-1,0,0), (0,-1,0), (0,0,-1), (0,0,1), (0,1,0), (1,0,0) |
| PrimalAdjacency.NeighbourSymmetric | presto/Preprocessors/Upscale/Structured/StructuredUpscalingMethods.py:290-302 | an in-range block is listed as a neighbour of each of its neighbours |
| StructuredUpscaling.NumberNext | presto/Preprocessors/Upscale/Structured/StructuredUpscalingMethods.py:273-276 | giving the next PRIMAL_ID to a block not yet numbered keeps the numbering a bijection |
| StructuredUpscaling.AddToBlock | presto/Preprocessors/Upscale/Structured/StructuredUpscalingMethods.py:262-272 | the try/except-KeyError insert: append the cell to its block, or create the block with the cell; AddCellToBlock proves the partition it keeps |
| StructuredUpscaling.NumberedIsBijection | presto/Preprocessors/Upscale/Structured/StructuredUpscalingMethods.py:273-276 | numbering by enumeration position gives distinct values that are exactly `0 .. #blocks-1` |
| StructuredUpscaling.NumberKeys | presto/Preprocessors/Upscale/Structured/StructuredUpscalingMethods.py:273-276 | the enumeration numbers every key, with distinct values covering `0 .. #keys-1` |
| StructuredUpscaling.NeighbourLists | presto/Preprocessors/Upscale/Structured/StructuredUpscalingMethods.py:286-304 | the loop over the blocks stores each block's neighbour list and leaves other entries alone |
| StructuredUpscaling.StructuredUpscalingMethods.constructor | presto/Preprocessors/Upscale/Structured/StructuredUpscalingMethods.py:22-40 | a fresh object has no ids, cells, blocks or tags |
| StructuredUpscaling.StructuredUpscalingMethods.CalculatePrimalIds | presto/Preprocessors/Upscale/Structured/StructuredUpscalingMethods.py:152-172 | the two loops leave the closed-form id list on every axis; every other field is unchanged |
| StructuredUpscaling.StructuredUpscalingMethods.FoldAxis | presto/Preprocessors/Upscale/Structured/StructuredUpscalingMethods.py:159-172 | cutting one axis at `(n//r)*r` and overwriting a short tail with `max(ids) - 1` leaves the closed-form id list |
| StructuredUpscaling.StructuredUpscalingMethods.CellOrder | presto/Preprocessors/Upscale/Structured/StructuredUpscalingMethods.py:229-236 | the cell creation order lists one cell per linear index |
| StructuredUpscaling.StructuredUpscalingMethods.CellAt | presto/Preprocessors/Upscale/Structured/StructuredUpscalingMethods.py:229-236 | the cell created at linear index `_get_block_by_ijk(i, j, k)` is `(i, j, k)`, keyed by the ids of i, j and k as the zips pair them |
| StructuredUpscaling.StructuredUpscalingMethods.KeyOfCell | presto/Preprocessors/Upscale/Structured/StructuredUpscalingMethods.py:229-236 | the block key of the t-th cell: the ids of its three coordinates, paired as the zips of lines 229-236 pair them |
| StructuredUpscaling.StructuredUpscalingMethods.ExpectedCell | presto/Preprocessors/Upscale/Structured/StructuredUpscalingMethods.py:237-259 | the t-th cell as lines 237-259 build it; ExpectedCellAt states its contents for cell (i, j, k) |
| StructuredUpscaling.StructuredUpscalingMethods.ExpectedCellAt | presto/Preprocessors/Upscale/Structured/StructuredUpscalingMethods.py:237-259 | cell (i, j, k) has its eight corners, GLOBAL_ID index+1, PHI and PERM read at index+1 with the diagonal at offsets 0, N and 2N, and FINE_TO_PRIMAL `(ids0[i], ids1[j], ids2[k])` |
| StructuredUpscaling.StructuredUpscalingMethods.FineHexa | presto/Preprocessors/Upscale/Structured/StructuredUpscalingMethods.py:237-240 | the hexahedron of cell (i, j, k) is its eight corners |
| StructuredUpscaling.StructuredUpscalingMethods.AddCellToBlock | presto/Preprocessors/Upscale/Structured/StructuredUpscalingMethods.py:261-272 | adding a cell to the block of its key keeps the blocks a partition of the cells added so far, each block in increasing order |
| StructuredUpscaling.StructuredUpscalingMethods.CreatedCells | presto/Preprocessors/Upscale/Structured/StructuredUpscalingMethods.py:229-259 | after c cells, `elems` holds c cells |
| StructuredUpscaling.StructuredUpscalingMethods.CreatedCellsAt | presto/Preprocessors/Upscale/Structured/StructuredUpscalingMethods.py:229-259 | the t-th entry of `elems` is the t-th cell built |
| StructuredUpscaling.StructuredUpscalingMethods.CreatedBlocks | presto/Preprocessors/Upscale/Structured/StructuredUpscalingMethods.py:261-272 | the blocks after the first c cells are added; CreatedBlocksHold and PrimalKeysAreCoarseRange give their contents |
| StructuredUpscaling.StructuredUpscalingMethods.CreatedBlocksHold | presto/Preprocessors/Upscale/Structured/StructuredUpscalingMethods.py:261-272 | every cell lies in the block of its key and only there; blocks are non-empty and increasing |
| StructuredUpscaling.StructuredUpscalingMethods.AppendCell | presto/Preprocessors/Upscale/Structured/StructuredUpscalingMethods.py:259-272 | appending a cell and adding it to its block moves the state from c cells to c+1 |
| StructuredUpscaling.StructuredUpscalingMethods.NumberPrimals | presto/Preprocessors/Upscale/Structured/StructuredUpscalingMethods.py:273-276 | every block gets a PRIMAL_ID; the values are distinct and are exactly `0 .. #blocks-1` |
| StructuredUpscaling.StructuredUpscalingMethods.CreateCell | presto/Preprocessors/Upscale/Structured/StructuredUpscalingMethods.py:237-259 | a cell is built with the increment-then-read counter; it fails if and only if a column is read past its end, which happens only when a column is too short for the grid |
| StructuredUpscaling.StructuredUpscalingMethods.CreateRow | presto/Preprocessors/Upscale/Structured/StructuredUpscalingMethods.py:235-272 | a row extends the cells and blocks to the start of the next row, or fails only on a short column |
| StructuredUpscaling.StructuredUpscalingMethods.CreateLayer | presto/Preprocessors/Upscale/Structured/StructuredUpscalingMethods.py:233-272 | a layer extends the cells and blocks to the start of the next layer, or fails only on a short column |
| StructuredUpscaling.StructuredUpscalingMethods.CreateFineBlocksAndPrimal | presto/Preprocessors/Upscale/Structured/StructuredUpscalingMethods.py:224-276 | it succeeds if and only if both columns are long enough; on success, `elems` and `primals` are the whole grid and its blocks, numbered by a bijection |
| StructuredUpscaling.StructuredUpscalingMethods.ElemAt | presto/Preprocessors/Upscale/Structured/StructuredUpscalingMethods.py:319-325 | on the finished grid, `elems[_get_block_by_ijk(i, j, k)]` is cell (i, j, k), with its corners, GLOBAL_ID and key |
| StructuredUpscaling.StructuredUpscalingMethods.GetElemByIjk | presto/Preprocessors/Upscale/Structured/StructuredUpscalingMethods.py:319-325 | the handle is in range, and on the finished grid it is the cell at (i, j, k) |
| StructuredUpscaling.StructuredUpscalingMethods.FaceTagsKeys | presto/Preprocessors/Upscale/Structured/StructuredUpscalingMethods.py:478-498 | after visiting c cells, a cell is tagged if and only if it was tagged before or is a visited first or last cell |
| StructuredUpscaling.StructuredUpscalingMethods.FaceTagsValue | presto/Preprocessors/Upscale/Structured/StructuredUpscalingMethods.py:478-498 | a visited last cell holds 0.0; a visited first cell that is not last holds 1.0; other cells keep their old tag |
| StructuredUpscaling.StructuredUpscalingMethods.FaceCellsAt | presto/Preprocessors/Upscale/Structured/StructuredUpscalingMethods.py:484-498 | the boundary meshset holds exactly the visited first and last cells |
| StructuredUpscaling.StructuredUpscalingMethods.Mark | presto/Preprocessors/Upscale/Structured/StructuredUpscalingMethods.py:478-497 | the two writes to one cell: the cell is tagged if and only if it was tagged or a test holds; 0.0 when the high test holds (the later write wins), 1.0 when only the low test holds; other cells keep their tags |
| StructuredUpscaling.StructuredUpscalingMethods.TagCell | presto/Preprocessors/Upscale/Structured/StructuredUpscalingMethods.py:478-497 | the two tests and writes of lines 478-497 for the t-th cell of the creation order |
| StructuredUpscaling.StructuredUpscalingMethods.FaceTags | presto/Preprocessors/Upscale/Structured/StructuredUpscalingMethods.py:476-498 | the tags of one axis after the first c cells are visited; FaceTagsKeys and FaceTagsValue state its contents |
| StructuredUpscaling.StructuredUpscalingMethods.FaceCells | presto/Preprocessors/Upscale/Structured/StructuredUpscalingMethods.py:484-498 | the boundary meshset of one axis after the first c cells are visited; FaceCellsAt states its contents |
| StructuredUpscaling.StructuredUpscalingMethods.FaceTestsAt | presto/Preprocessors/Upscale/Structured/StructuredUpscalingMethods.py:480-494 | for cell (i, j, k), the 1.0 test holds if and only if its coordinate starts its block, the 0.0 test if and only if it ends it, and both if and only if the block is one cell thick |
| StructuredUpscaling.StructuredUpscalingMethods.BoundaryConditionAt | presto/Preprocessors/Upscale/Structured/StructuredUpscalingMethods.py:467-498 | after `set_local_problem`, a cell is tagged and in the meshset if and only if it starts or ends its block; the tag is 0.0 exactly when it ends its block (so a one-cell block ends at 0.0), else 1.0 |
| StructuredUpscaling.StructuredUpscalingMethods.FaceTestsAsWritten | presto/Preprocessors/Upscale/Structured/StructuredUpscalingMethods.py:478-494 | the tests as written on `(i, j, k)[dim]` are the first-cell and last-cell tests of the cell's linear index |
| StructuredUpscaling.StructuredUpscalingMethods.TagRow | presto/Preprocessors/Upscale/Structured/StructuredUpscalingMethods.py:478-498 | one row of cells extends the tags and meshset to the start of the next row |
| StructuredUpscaling.StructuredUpscalingMethods.TagAxis | presto/Preprocessors/Upscale/Structured/StructuredUpscalingMethods.py:476-498 | one axis visits every cell; the tags and meshset are those of the whole grid |
| StructuredUpscaling.StructuredUpscalingMethods.SetLocalProblem | presto/Preprocessors/Upscale/Structured/StructuredUpscalingMethods.py:467-498 | each axis gets a new boundary meshset and the tags of the whole grid; all other state is unchanged |
| StructuredUpscaling.StructuredUpscalingMethods.PrimalKeysAreCoarseRange | presto/Preprocessors/Upscale/Structured/StructuredUpscalingMethods.py:261-272 | the finished grid has a block for a key if and only if each coordinate of the key is a coarse id of its axis |
| StructuredUpscaling.StructuredUpscalingMethods.CoarseGridKeysAreBlocks | presto/Preprocessors/Upscale/Structured/StructuredUpscalingMethods.py:645-667 | every `self.primals[(i, j, k)]` lookup that `coarse_grid` makes below `_coarse_dims` finds a block |
| StructuredUpscaling.StructuredUpscalingMethods.MaxCoarseIds | presto/Preprocessors/Upscale/Structured/StructuredUpscalingMethods.py:282-284 | `max_coarse_ids` is the id of the last block on each axis |
| StructuredUpscaling.StructuredUpscalingMethods.NeighboursAreBlocks | presto/Preprocessors/Upscale/Structured/StructuredUpscalingMethods.py:300-301 | the lookup at line 301 never raises KeyError: every selected neighbour is a block |
| StructuredUpscaling.StructuredUpscalingMethods.StorePrimalAdj | presto/Preprocessors/Upscale/Structured/StructuredUpscalingMethods.py:278-304 | every block's PRIMAL_ADJ meshset holds its in-range face neighbours, in scan order, and each of them is a block |

## Left out

- `upscale_perm_flow_based`, `flow_based_coarse_perm`, `upscale_perm_mean` and
  `upscale_phi` are left out. They are floating-point averaging and a linear solve through
  PyTrilinos, plus file output.
- `read_phi` and `read_perm` read files. The columns they produce are the constructor
  parameters `phiValues` and `permValues`.
- MOAB and Trilinos set-up, `create_tags`, `export` and `export_data` are not modelled. Nor
  are the entity creation, deletion and tag copying in `coarse_grid`. Of `coarse_grid`,
  only its block lookups are modelled (CoarseGridKeysAreBlocks).
- Float coordinates are not modelled: those of `create_fine_vertices`, and all of
  `get_block_size_coarse` and `create_coarse_vertices`. A vertex is its integer lattice
  point, in the order `create_fine_vertices` creates them.
- The `int32` casts of `_coarse_dims` (lines 147-149) are not modelled. They apply to each
  axis's `mesh_size` and `coarse_ratio`, so an axis size or ratio of 2^31 or more is out of
  scope. Integers are unbounded here.
- StructuredUpscaling.StructuredUpscalingMethods.constructor and `Configured` require three
  positive coarsening ratios and three non-negative mesh sizes. In the source a ratio of 0
  divides by zero, and what happens then depends on the element type. At line 148 the
  `int32` arrays give 0 with a RuntimeWarning. At line 156, and at line 163 (which divides
  even when the axis is empty), plain Python ints raise ZeroDivisionError, while NumPy
  integers do not raise. A negative ratio runs on with Python's floor division, and a
  negative mesh size gives an empty `xrange`. None of these cases is modelled.
- CoarsePartition.CoarseningRatio: the source reads `Counter.values()` by position. The
  model counts the occurrences of the id instead. The two agree when the dictionary lists
  small integer keys in increasing order, as Python 2 does for these keys.
- NumberKeys and NeighbourLists enumerate the dictionary in some order, as
  `dict.values()` and `dict.iteritems()` do. The model leaves that order open.
- StructuredUpscaling.StructuredUpscalingMethods.CalculatePrimalIds is modelled on a fresh
  object (`primal_ids` empty). A second call would append three more lists.
- StructuredUpscaling.StructuredUpscalingMethods.CreateFineBlocksAndPrimal is modelled on
  a fresh object (no cells or blocks yet). On the failing read, its contract states that
  the failure happened and that `primalIds`, `primalIdTag`, the boundary fields and
  `adjMeshsets` are unchanged. It does not describe the partial `elems` and `primals` left
  behind.
- The progress `print`s in `create_fine_blocks_and_primal` and `coarse_grid` are left out.
- StructuredUpscaling.StructuredUpscalingMethods.StorePrimalAdj models lines 278-304. It
  requires the ids to be computed, `primals` to hold every block of the grid (the state
  after `create_fine_blocks_and_primal`), and every axis to be non-empty.
  - With only part of the blocks in `primals`, the lookup of line 301 can raise KeyError.
    That case is not modelled.
  - On an empty axis, `max` of an empty list raises.
  - Line 306 assigns to `self.primal_adj`, an attribute the constructor never creates (it
    creates `primals_adj`), so as written the first block raises AttributeError. The model
    leaves that line out.
  - The PRIMAL_ADJ meshset is modelled as the list of neighbour keys added to it. The
    neighbour blocks are identified by their keys, not by meshset handles.
- StructuredUpscaling.StructuredUpscalingMethods.SetLocalProblem requires `elems` to hold
  every cell, which is the state after `create_fine_blocks_and_primal`. The grouping of
  the tag handles that `create_tags` made into `boundary_dir` is not modelled.
- StructuredUpscaling.StructuredUpscalingMethods.GetElemByIjk requires an in-grid triple
  whose linear index lies inside `elems`. Its only caller, `set_local_problem` (line 479),
  passes only in-grid triples. The model does not cover a triple outside the grid, whose
  index can be negative and wrap around in Python, nor an index past the end of `elems`.
