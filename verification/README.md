# RMatrix matrix representations in Dafny

RMatrix implements one set of dense-matrix operations several times, each
with a different storage layout or loop strategy, so that the strategies can
be benchmarked against each other. The operations are:

- construction from nested rows;
- zeroes and identity;
- addition, subtraction and scaling;
- the matrix product.

This project models the five hand-written representations:

- the naive matrix of row vectors, `BasicMatrix`;
- the flat row-major buffer, `OneDVecMatrix`;
- the cache-blocked matrix, `BlockedMatrix`;
- the chunked multithreaded matrix, `MultithreadMatrix`;
- the transposed-view matrix, `TransposedViewMatrix`.

It proves that each one computes what its loops promise. It also proves that,
from the same non-empty rectangular rows, every product and every naive,
flat, blocked and transposed-view sum, difference and scaling reads back the
same rows as the naive matrix. The multithreaded sum, difference and scaling
as written are the exception: they read back those rows only when their
chunk size divides the element count, and fail otherwise (see "## Findings").
With the loop bound corrected (`Multithread.ChunkedMapFixed`), they always
agree.

Elements are mathematical integers standing in for the original `f64`. A
panic is an `Err` value of `Outcome.Result`, with a `MatrixError` saying
which kind of panic it was, so contracts can say exactly when an operation
fails.

Modules:

- `Outcome`: the error kinds and the `Result` type.
- `Reference`: matrices as grids (`seq<seq<int>>`). It defines the pointwise
  operations, the zero and identity grids and the transpose. It defines the
  product through `Dot`, a left fold over the contraction index that adds one
  term at a time in increasing order.
- `RowMajor`: the layout shared by the three flat representations.
  - Index arithmetic `i * cols + j` and cell read/update (`At`, `SetCell`).
  - Flattening and `chunks`.
  - The `FlatMatrix` value with `Get` and `View` (the grid a buffer stands
    for).
  - Construction from rows and reading back (`FromRows`, `ToRows`).
  - `Zeroes`, `Identity`, and the flat triple-loop product.
- `Basic`, `OneDVec`, `Blocked`, `Multithread`, `TransposedView`: one module
  per representation.
- `Equivalence`: the representations side by side.

The flat representations' results are stated as an equality between `View`
of the result and a `Reference` grid. The contracts therefore say what the
buffer means, not how it was filled.

Only `BasicMatrix` checks shapes. Every other representation does whatever
its loops do on mismatched operands, and the model follows the code:

- Zip-based sums truncate to the shorter buffer.
- The blocked sums read the right operand as `other.data[i * other.cols + j]`.
  They fail only when that runs past the end of its buffer.
- The flat products fail exactly when the result is not empty (the left
  operand has rows and the right one has columns) and the left operand has
  more columns than the right one has rows. An empty result never reads an
  operand, so it never fails.
- The transposed-view product checks the right operand's flag before
  anything else: when the flag is unset it fails, whatever the shapes.
- When the left operand has fewer columns than the right one has rows, the
  flat products quietly contract over the left operand's columns only.

Only the multithreaded sum, difference and scaling use threads. The
multithreaded product (`src/matrices/multithread_matrix.rs:118-134`) is a
sequential triple loop.

## Model

| member | source | states |
|---|---|---|
| Reference.DotSplit | src/matrices/blocked_matrix.rs:134-140 | splitting the contraction range at any point splits the sum, so a product accumulated one k-tile after another equals the untiled sum |
| Reference.ProductRightIdentity | tests/test_functions.rs:47-56 | an r by c grid times the c by c identity is the grid itself |
| Reference.ProductLeftIdentity | src/matrices/basic_matrix.rs:90-114 | the r by r identity times an r by c grid is the grid itself |
| Reference.SubUndoesAdd | src/matrices/basic_matrix.rs:42-88 | subtracting b after adding it gives back a |
| Reference.TransposeTwice | src/matrices/basic_matrix.rs:131-144 | transposing an r by c grid and then the c by r result gives back the grid |
| RowMajor.IdxInRange | src/matrices/one_d_vec_matrix.rs:90-91 | the flat index i * cols + j of a cell inside an r by c matrix is below r * cols, so every in-shape access is in bounds |
| RowMajor.IdxDivMod | src/matrices/one_d_vec_matrix.rs:35-40 | the row and column of flat index i * c + j are recovered by division and remainder by c |
| RowMajor.IdxCover | src/matrices/one_d_vec_matrix.rs:35-40 | every index below r * c is the flat index of exactly the cell (p / c, p % c) |
| RowMajor.SegmentContains | src/matrices/multithread_matrix.rs:79-81 | the arithmetic of cutting 0..n into width-bs pieces with the last one clamped: index i lies in the piece starting at t * bs iff t == i / bs; `Multithread.ChunkPartition` applies it to the pieces of `chunks` |
| RowMajor.SetCell | src/matrices/one_d_vec_matrix.rs:90-91 | writing cell (i, j) changes that cell only; every other cell, and everything past the r by c matrix, keeps its value |
| RowMajor.FlattenRect | src/matrices/one_d_vec_matrix.rs:16-21 | flattening rectangular rows gives r * c elements with row i, column j at index i * c + j |
| RowMajor.FlattenChunks | src/matrices/one_d_vec_matrix.rs:35-40 | cutting a buffer into chunks and concatenating the chunks gives the buffer back |
| RowMajor.ChunksFlatten | src/matrices/one_d_vec_matrix.rs:35-40 | cutting the flattening of rectangular rows into chunks of the row length gives the rows back |
| RowMajor.FromRows | src/matrices/one_d_vec_matrix.rs:16-21 | fails iff there are no rows (the `data[0]` panic); for rectangular rows the shape is (rows, cols) and `get(i, j)` is the input entry |
| RowMajor.ToRows | src/matrices/one_d_vec_matrix.rs:35-40 | fails iff cols is 0 (`chunks(0)`); for a valid buffer the rows are rectangular and hold `get(i, j)` |
| RowMajor.RowsRoundTrip | src/matrices/one_d_vec_matrix.rs:16-40 | building from non-empty rectangular rows and reading back gives the rows unchanged |
| RowMajor.FlatRoundTrip | src/matrices/blocked_matrix.rs:46-70 | reading a valid matrix back as rows and rebuilding from them gives the same buffer and shape |
| RowMajor.ViewFromRows | src/matrices/multithread_matrix.rs:33-38 | the matrix built from rectangular rows stands for exactly those rows |
| RowMajor.ViewInjective | src/matrices/one_d_vec_matrix.rs:31-33 | two valid matrices of one shape that stand for the same grid have the same buffer |
| RowMajor.Zip | src/matrices/one_d_vec_matrix.rs:64-72 | `izip!(...).map(...)` stops at the shorter buffer: the result has the shorter length, and entry idx is a[idx] op b[idx] |
| RowMajor.ZipView | src/matrices/one_d_vec_matrix.rs:64-82 | zipping two valid buffers of one shape combines the grids they stand for entry by entry |
| RowMajor.Zeroes | src/matrices/one_d_vec_matrix.rs:46-52 | a valid r by c matrix standing for the all-zero grid |
| RowMajor.Identity | src/matrices/one_d_vec_matrix.rs:54-62 | a valid n by n matrix standing for the identity: 1 exactly at i * n + i and 0 elsewhere |
| RowMajor.OverrunWitness | src/matrices/one_d_vec_matrix.rs:89-91 | when self has more columns than other has rows, the read `other[(self_cols - 1) * other_cols + other_cols - 1]` is past other's buffer |
| RowMajor.NaiveProduct | src/matrices/one_d_vec_matrix.rs:84-97 | the flat triple loop yields a valid rows1 by cols2 matrix standing for the product of the operands' grids, contracted over self's columns |
| Basic.GetCols | src/matrices/basic_matrix.rs:18-20 | fails iff there are no rows; otherwise every row has the returned length |
| Basic.Zeroes | src/matrices/basic_matrix.rs:28-32 | r rows of length c, every entry 0 |
| Basic.Identity | src/matrices/basic_matrix.rs:34-40 | n rows of length n, 1 where i == j and 0 elsewhere |
| Basic.Add | src/matrices/basic_matrix.rs:42-64 | fails iff an operand has no rows or the row or column counts differ; otherwise the same shape with a[i][j] + b[i][j] |
| Basic.Sub | src/matrices/basic_matrix.rs:66-88 | fails iff an operand has no rows or the row or column counts differ; otherwise the same shape with a[i][j] - b[i][j] |
| Basic.Multiply | src/matrices/basic_matrix.rs:90-114 | fails iff an operand has no rows or self_cols != other_rows; otherwise rows1 by cols2 with the sum over k of a[i][k] * b[k][j] |
| Basic.Scale | src/matrices/basic_matrix.rs:116-129 | fails iff there are no rows; otherwise the same shape with every entry times the scalar |
| Basic.Transpose | src/matrices/basic_matrix.rs:131-144 | fails iff there are no rows; otherwise the row and column counts swap and new[j][i] == old[i][j] |
| Basic.MultiplyRightIdentity | tests/basic_matrix.rs:52-61 | a non-empty matrix times the identity of its column count is the matrix |
| Basic.MultiplyLeftIdentity | src/matrices/basic_matrix.rs:90-114 | the identity of the row count times a non-empty matrix is the matrix |
| Basic.SubUndoesAdd | src/matrices/basic_matrix.rs:42-88 | whenever a + b succeeds, (a + b) - b succeeds and is a |
| Basic.TransposeTwice | src/matrices/basic_matrix.rs:131-144 | transposing a non-empty matrix twice restores it |
| Basic.MismatchExamples | src/matrices/basic_matrix.rs:42-114 | a 2 by 2 and a 2 by 3 matrix cannot be added or subtracted, and a 2 by 2 matrix cannot multiply a 3 by 2 one: each fails with a shape mismatch |
| Basic.MultiplyExample | tests/basic_matrix.rs:86-101 | [[1, 2, 3], [4, 5, 6]] times [[7, 8], [9, 10], [11, 12]] is [[58, 64], [139, 154]] |
| OneDVec.Add | src/matrices/one_d_vec_matrix.rs:64-72 | self's shape, the shorter buffer's length, res[idx] = a[idx] + b[idx]; for operands of one shape, the pointwise sum of their grids |
| OneDVec.Sub | src/matrices/one_d_vec_matrix.rs:74-82 | self's shape, the shorter buffer's length, res[idx] = a[idx] - b[idx]; for operands of one shape, the pointwise difference of their grids |
| OneDVec.Scale | src/matrices/one_d_vec_matrix.rs:99-102 | the same shape and length with res[idx] = data[idx] * s; a valid operand's grid scaled |
| OneDVec.Multiply | src/matrices/one_d_vec_matrix.rs:84-97 | fails iff a non-empty result would read past other's buffer (self_cols > other_rows); otherwise a valid rows1 by cols2 matrix standing for the product |
| Blocked.TileOrderAscending | src/matrices/blocked_matrix.rs:134-137 | walking the k-tiles and then each tile's range meets 0..n once each in increasing order, the order of the naive loop |
| Blocked.AccumulateCell | src/matrices/blocked_matrix.rs:37-39 | the innermost k loop adds to cell (i, j) the sum of a(i, k) * b(k, j) for k from lo up to hi, leaves every other cell unchanged, and its ghost trace of k is lo, lo + 1, ..., hi - 1 |
| Blocked.MultiplyBlock | src/matrices/blocked_matrix.rs:30-42 | each result cell of the (bi, bj) tile gains the sum of a(i, k) * b(k, j) over the k-tile from bk, clamped at the edges, and every other cell is unchanged; the ghost trace of each tile cell grows by bk, bk + 1, ... up to the clamped tile end, and every other cell's trace is unchanged |
| Blocked.MultiplyTile | src/matrices/blocked_matrix.rs:136-138 | the bk loop for one result tile: each tile cell gains the whole contraction sum, its trace grows by exactly `TileOrder(n, bs, 0)`, and other cells and traces are unchanged |
| Blocked.MultiplyTiled | src/matrices/blocked_matrix.rs:127-143 | for every tile side bs >= 1 the tiled loop nest yields a valid rows1 by cols2 matrix standing for the naive product, and every result cell's trace is `TileOrder(n, bs, 0)`, which is 0..n in increasing order |
| Blocked.Multiply | src/matrices/blocked_matrix.rs:127-143 | fails iff self_cols > other_rows with a non-empty result; otherwise the product, of shape (self_rows, other_cols) |
| Blocked.StridedReads | src/matrices/blocked_matrix.rs:99 | when the last cell's read of other is in bounds, so is every `other.get(i, j)` of the loop |
| Blocked.SameShapeFits | src/matrices/blocked_matrix.rs:89-106 | an operand of self's shape is always read in bounds, and `other.get(i, j)` is then other's own cell |
| Blocked.TiledMap | src/matrices/blocked_matrix.rs:89-106 | fails iff some `other.get(i, j)` is out of bounds; otherwise a valid matrix of self's shape whose every cell (i, j) is self.get(i, j) op other.get(i, j) |
| Blocked.TiledMapView | src/matrices/blocked_matrix.rs:89-125 | for operands of one shape, the tiled result stands for the pointwise combination of their grids |
| Blocked.Add | src/matrices/blocked_matrix.rs:89-106 | self's shape with self.get(i, j) + other.get(i, j); for operands of one shape always succeeds with the pointwise sum |
| Blocked.Sub | src/matrices/blocked_matrix.rs:108-125 | self's shape with self.get(i, j) - other.get(i, j); for operands of one shape always succeeds with the pointwise difference |
| Blocked.Scale | src/matrices/blocked_matrix.rs:145-162 | a valid matrix of self's shape standing for its grid scaled |
| Multithread.NumChunksBounds | src/matrices/multithread_matrix.rs:79-81 | a non-empty slice is cut into at least one piece, all pieces before the last are full, and the last one reaches the end |
| Multithread.NumChunksMonotone | src/matrices/multithread_matrix.rs:79-84 | a longer slice is never cut into fewer pieces, so `izip!` pairs as many pieces as the shorter slice has |
| Multithread.NumChunksStep | src/matrices/multithread_matrix.rs:79-81 | a slice of at most cs elements is one piece, and a longer one is one full piece more than what follows that piece |
| Multithread.ChunksLength | src/matrices/multithread_matrix.rs:79-81 | `chunks(cs)` of a slice of length len yields (len + cs - 1) / cs pieces |
| Multithread.ChunksPiece | src/matrices/multithread_matrix.rs:79-81 | piece t of `chunks(cs)` starts inside the slice and holds the elements from t * cs up to the next multiple of cs or the end |
| Multithread.ChunksCount | src/matrices/multithread_matrix.rs:79-81 | both of the above for every piece: the number of pieces and each piece's contents |
| Multithread.ChunkSizeBound | src/matrices/multithread_matrix.rs:78-79 | for len >= 1 the chunk size is positive and cuts the buffer into at most NUM_THREADS pieces |
| Multithread.ChunkCount | src/matrices/multithread_matrix.rs:78-85 | for a non-empty buffer, `chunks(chunk_size)` yields at most NUM_THREADS pieces, each non-empty and at most chunk_size long, which concatenate back to the buffer |
| Multithread.ChunkPartition | src/matrices/multithread_matrix.rs:79-81 | element idx lies in chunk idx / chunk_size, which exists, and in no other chunk |
| Multithread.LastChunkFull | src/matrices/multithread_matrix.rs:86-88 | the last chunk is a full chunk_size long iff chunk_size divides the length |
| Multithread.PieceLength | src/matrices/multithread_matrix.rs:86-88 | piece t is shorter than cs exactly when the slice ends before (t + 1) * cs |
| Multithread.LastPieceShort | src/matrices/multithread_matrix.rs:86-88 | when cs does not divide m, the last of the pieces cutting m elements is shorter than cs |
| Multithread.ShortPieceWitness | src/matrices/multithread_matrix.rs:84-88 | when cs does not divide the shorter length, the last pair of pieces `izip!` forms has a short piece |
| Multithread.ShortPieceIff | src/matrices/multithread_matrix.rs:84-88 | some pair of pieces that `izip!` forms has a piece shorter than cs exactly when cs does not divide the shorter slice's length |
| Multithread.Straddle | src/matrices/multithread_matrix.rs:86-88 | a chunk that starts below m and ends past it means chunk_size does not divide m |
| Multithread.ChunkedMap | src/matrices/multithread_matrix.rs:76-95 | as written: fails iff the buffer is empty or some pair of pieces that `izip!` forms has a piece shorter than chunk_size, which is iff chunk_size does not divide the paired length min(len, other len); otherwise res[idx] = a[idx] op b[idx] where other reaches and 0 past it |
| Multithread.ChunkedMapFixed | src/matrices/multithread_matrix.rs:84-91 | with each chunk filled to its own length: fails iff the buffer is empty, and otherwise is the elementwise combination of the two buffers |
| Multithread.Add | src/matrices/multithread_matrix.rs:76-95 | as written: fails iff len is 0 or chunk_size does not divide min(len, other len); when it succeeds on operands of one shape, the pointwise sum |
| Multithread.Sub | src/matrices/multithread_matrix.rs:97-116 | as written: fails iff len is 0 or chunk_size does not divide min(len, other len); when it succeeds on operands of one shape, the pointwise difference |
| Multithread.Scale | src/matrices/multithread_matrix.rs:136-154 | as written: fails iff len is 0 or chunk_size does not divide len; otherwise the grid scaled |
| Multithread.Multiply | src/matrices/multithread_matrix.rs:118-134 | the sequential triple loop: fails iff self_cols > other_rows with a non-empty result; otherwise the product |
| Multithread.FiveByFiveAdd | src/matrices/multithread_matrix.rs:86-88 | adding two 5 by 5 matrices (25 elements, chunks of 3) panics with an out-of-bounds index |
| Multithread.ChunkExamples | src/matrices/multithread_matrix.rs:78-81 | 11 elements get chunks of 2, six of them, and 25 elements get chunks of 3, nine of them; in both the last chunk is short |
| Multithread.FiveByFiveAddFixed | src/matrices/multithread_matrix.rs:84-91 | with the loop bound corrected, the same addition yields the zero matrix |
| TransposedView.NewFromVec | src/matrices/transposed_view_matrix.rs:13-33 | fails iff eager and data holds fewer than rows * cols elements; otherwise keeps data and shape, sets the flag iff eager, and when eager transposed_data[j * rows + i] == data[i * cols + j] |
| TransposedView.GetTransposedAgrees | src/matrices/transposed_view_matrix.rs:44-51 | with the flag set, get_transposed(c, r) == get(r, c) for every cell, both reads in bounds; `get` is `RowMajor.Get` of the primary buffer |
| TransposedView.New | src/matrices/transposed_view_matrix.rs:55-60 | fails iff there are no rows or the flattened rows are too short; for rectangular rows a well-formed, transposed matrix standing for the rows |
| TransposedView.Zeroes | src/matrices/transposed_view_matrix.rs:81-88 | flag set and all-zero buffers, which satisfies the transpose invariant; stands for the zero grid |
| TransposedView.ZeroTranspose | src/matrices/transposed_view_matrix.rs:84-85 | an all-zero buffer is the transpose of an all-zero buffer |
| TransposedView.Identity | src/matrices/transposed_view_matrix.rs:90-98 | well-formed with the flag set, standing for the identity grid, so it is a valid right operand |
| TransposedView.Add | src/matrices/transposed_view_matrix.rs:100-108 | flag unset, zero second buffer, res[idx] = a[idx] + b[idx] over the shorter buffer; for operands of one shape, well-formed and the pointwise sum |
| TransposedView.Sub | src/matrices/transposed_view_matrix.rs:110-118 | flag unset, zero second buffer, res[idx] = a[idx] - b[idx] over the shorter buffer; for operands of one shape, well-formed and the pointwise difference |
| TransposedView.Scale | src/matrices/transposed_view_matrix.rs:143-146 | flag unset, zero second buffer, res[idx] = data[idx] * s; for a well-formed operand, the grid scaled |
| TransposedView.TransposedOverrun | src/matrices/transposed_view_matrix.rs:135 | when self_cols > other_rows, the last `get_transposed(j, k)` is past other's second buffer |
| TransposedView.Multiply | src/matrices/transposed_view_matrix.rs:120-141 | fails iff other's flag is unset (first) or self_cols > other_rows with a non-empty result; otherwise a well-formed, unflagged matrix standing for the product |
| TransposedView.MultiplyRightIdentity | tests/test_functions.rs:47-56 | any matrix times the identity of its column count succeeds and returns its primary buffer |
| TransposedView.MultiplyLeftIdentity | src/matrices/transposed_view_matrix.rs:120-123 | the identity times m fails iff m has no transpose, and otherwise returns m's primary buffer |
| TransposedView.ProductAsRightOperand | src/matrices/transposed_view_matrix.rs:140 | a * (b * c) always fails, and with NotTransposed whenever b * c itself succeeds |
| Equivalence.ReadBack | src/matrices/blocked_matrix.rs:65-70 | a valid matrix with columns reads back as the grid it stands for |
| Equivalence.MultiplyAgree | tests/test_functions.rs:78-93 | from the same rectangular rows, the naive, flat, blocked, multithreaded and transposed-view products all read back the mathematical product |
| Equivalence.AddAgree | tests/test_functions.rs:58-66 | the naive, flat, blocked and transposed-view sums and the corrected multithreaded one (`threadedFixed`) read back the pointwise sum; the multithreaded loop as written (`asWritten`) succeeds, with the same rows, iff chunk_size divides r * c |
| Equivalence.SubAgree | tests/test_functions.rs:68-76 | the naive, flat, blocked and transposed-view differences and the corrected multithreaded one (`threadedFixed`) read back the pointwise difference; the multithreaded loop as written (`asWritten`) succeeds, with the same rows, iff chunk_size divides r * c |
| Equivalence.ScaleAgree | tests/test_functions.rs:95-103 | the naive, flat, blocked and transposed-view scalings and the corrected multithreaded one (`threadedFixed`) read back the scaled grid; the multithreaded loop as written (`asWritten`) succeeds, with the same rows, iff chunk_size divides r * c |

## Left out

- The BLAS-backed and ndarray-backed matrices: their kernels are calls into foreign libraries.
- Thread scheduling in `MultithreadMatrix`: the chunks are processed one after another. They write disjoint parts of the result, so the order does not change the result. A panic in any chunk is the failure of the whole call.
- Floating-point rounding: elements are integers, so a sum does not depend on the order of its terms. `Dot` still fixes the order, adding terms in increasing k. For the blocked product, a ghost trace grid records, for each result cell, the k of every term added to it, in order. `Blocked.MultiplyTiled` proves that every cell's trace is `TileOrder`, that is, increasing k. The flat triple loops run k upward, but no contract records their order.
- Benchmarks, JSON fixtures, command-line handling, `build.rs` and the printing example: these are I/O and benchmark tooling.
- Trait dispatch: some files do not match the `Matrix` trait in `src/lib.rs`. The naive scaling takes `&f64`, and the flat matrix declares an extra associated type. The model follows the function bodies.
- `shape`, `num_rows`, `num_cols`, `get_rows`, `get_data_vec`: these are field reads, so they have no contract of their own.
- `new_from_vec` of `src/matrices/one_d_vec_matrix.rs:12-14`, `src/matrices/blocked_matrix.rs:14-19` and `src/matrices/multithread_matrix.rs:15-20`: a plain record construction, the `FlatMatrix` constructor. The transposed view's `new_from_vec`, which also builds the transpose, is `TransposedView.NewFromVec`.
- RowMajor.Get, RowMajor.Flatten, RowMajor.Chunks, Blocked.StridedGet, Blocked.TileOrder, Blocked.TraceShape, Multithread.ChunkSize, Multithread.NumChunks, Multithread.PairedPieceShort, TransposedView.GetTransposed: these are definitions that other members' contracts are stated in (`get`, `flatten`, `chunks`, `other.get`, the `step_by` tile walk, the shape of the trace grid, the chunk size formula, the piece count of `chunks`, `get_transposed`), so they have no contract of their own. The lemmas above state their properties.
- RowMajor.Zeroes, RowMajor.Identity, Basic.Zeroes, Basic.Identity, TransposedView.Zeroes, TransposedView.Identity, Multithread.ChunkSize: `usize` arithmetic is unbounded in the model. In the original, `rows * cols`, `size * size` and `len + NUM_THREADS - 1` can overflow for huge sizes. That is a panic in a debug build and a wrap-around in a release build. The model's constructors always return a valid matrix, and no index or chunk-size computation wraps.
- Ragged input rows: no constructor rejects them. The flat representations flatten them unchecked, which can leave a buffer whose length is not rows * cols. The naive operations assume rectangular rows.
- OneDVec.Multiply, TransposedView.Multiply: their contracts require a left operand whose buffer holds exactly rows * cols elements (`Valid`, `WellFormed`). Such buffers do not come only from ragged rows. The zip-based add and subtract of these two representations keep self's shape but truncate to the shorter buffer, so on operands of different shapes they yield a matrix with a short buffer (2 by 2 plus 1 by 1 gives a 2 by 2 matrix holding 1 element). In the original, such a matrix can be the left operand of `matrix_multiplication`. Its reads `self.data[i * self.cols + k]` (`src/matrices/one_d_vec_matrix.rs:91`) and `self.get(i, k)` (`src/matrices/transposed_view_matrix.rs:135`) then run past the buffer. The product contracts do not cover such operands.
- Leaving operands unchanged: the model's values are immutable, so add, subtract, multiply and scale cannot change their operands.
- Blocked.MultiplyTiled: it is proved for every tile side, while the original fixes `BLOCK_SIZE = 8`. `Blocked.Multiply` uses 8.
- Multithread.ChunkedMapFixed: it keeps the original's panic on an empty buffer (`chunks(0)`), because the fix concerns only the loop bound.
- The naive matrix's in-place `transpose`: it is modelled as the new value that the matrix holds afterwards.

## Findings

| source | as written | input that shows it | evidently intended | confidence | as-written member | corrected member |
|---|---|---|---|---|---|---|
| src/matrices/multithread_matrix.rs:86-88 (also 107-108, 145-146) | each chunk is filled with `for i in 0..chunk_size`, but the last chunk is shorter whenever chunk_size does not divide the length, so `data_chunk[i]` indexes past it and the final `unwrap` panics | two 5 by 5 matrices added: 25 elements, chunk_size 3, last chunk of 1 element | loop to the chunk's own length, so every length succeeds | not executed | Multithread.ChunkedMap, Multithread.FiveByFiveAdd | Multithread.ChunkedMapFixed, Multithread.FiveByFiveAddFixed |
