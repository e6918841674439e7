/** The blocked matrix (`BlockedMatrix`): the one-dimensional layout, with
    every operation walking the matrix in square tiles of `BLOCK_SIZE` rows
    and columns, clamped at the right and bottom edges. The kernels take
    the tile size as a parameter so that their contracts hold for every
    tile size; the public operations use `BLOCK_SIZE`. */
module Blocked {
  import opened Outcome
  import opened Reference
  import opened RowMajor

  /** The tile side used by the public operations. */
  const BLOCK_SIZE: nat := 8

  /** The integers lo, lo + 1, ..., hi - 1, in increasing order. */
  function Range(lo: nat, hi: nat): (s: seq<nat>)
    ensures |s| == if lo <= hi then hi - lo else 0
    ensures forall t :: 0 <= t < |s| ==> s[t] == lo + t
  {
    if lo < hi then seq(hi - lo, t requires 0 <= t < hi - lo => lo + t) else []
  }

  /** The indices visited by `(start..n).step_by(bs)` followed, for each
      tile start x, by `x..min(x + bs, n)`: the order in which a tiled loop
      meets the indices below `n`. */
  function TileOrder(n: nat, bs: nat, start: nat): seq<nat>
    requires bs >= 1
    decreases n - start
  {
    if start >= n then [] else Range(start, Min(start + bs, n)) + TileOrder(n, bs, start + bs)
  }

  /** Walking the tiles from `start` meets every index from `start` to `n`
      exactly once, in increasing order. For the product this is the order
      in which the contributions a[i][k] * b[k][j] reach a result cell. */
  lemma {:induction false} TileOrderAscending(n: nat, bs: nat, start: nat)
    requires bs >= 1 && start <= n
    ensures TileOrder(n, bs, start) == Range(start, n)
    decreases n - start
  {
    if start < n {
      var mid := Min(start + bs, n);
      TileOrderAscending(n, bs, mid);
      if mid < n {
        assert mid == start + bs;
      } else {
        assert TileOrder(n, bs, start + bs) == [];
      }
      assert Range(start, mid) + Range(mid, n) == Range(start, n);
    }
  }

  /** The innermost loop of `multiply_block`: adds to result cell (i, j)
      the terms a[i][k] * b[k][j] for k from lo up to hi, one at a time in
      increasing order, and leaves every other cell alone. The ghost `ks`
      records the k of each term in the order it is added. */
  method AccumulateCell(a: FlatMatrix, b: FlatMatrix, i: nat, j: nat, lo: nat, hi: nat, res: seq<int>)
    returns (res': seq<int>, ghost ks: seq<nat>)
    requires Valid(a) && Valid(b) && ContractionFits(a, b)
    requires |res| == a.rows * b.cols && i < a.rows && j < b.cols && lo <= hi <= a.cols
    ensures |res'| == |res|
    ensures At(res', a.rows, b.cols, i, j) ==
              At(res, a.rows, b.cols, i, j) + Dot(View(a), View(b), i, j, lo, hi)
    ensures forall p: nat, q: nat :: p < a.rows && q < b.cols && (p != i || q != j) ==>
              At(res', a.rows, b.cols, p, q) == At(res, a.rows, b.cols, p, q)
    ensures ks == Range(lo, hi)
  {
    res' := res;
    ks := [];
    var k := lo;
    while k < hi
      invariant lo <= k <= hi && |res'| == |res|
      invariant At(res', a.rows, b.cols, i, j) ==
                  At(res, a.rows, b.cols, i, j) + Dot(View(a), View(b), i, j, lo, k)
      invariant forall p: nat, q: nat :: p < a.rows && q < b.cols && (p != i || q != j) ==>
                  At(res', a.rows, b.cols, p, q) == At(res, a.rows, b.cols, p, q)
      invariant ks == Range(lo, k)
    {
      var v := At(res', a.rows, b.cols, i, j) + Get(a, i, k) * Get(b, k, j);
      res' := SetCell(res', a.rows, b.cols, i, j, v);
      ks := ks + [k];
      k := k + 1;
    }
  }

  /** A ghost trace grid: for every result cell of an r by c product, the
      contraction indices k of the terms added to it so far, in order. */
  predicate TraceShape(tr: seq<seq<seq<nat>>>, r: nat, c: nat) {
    |tr| == r && forall p :: 0 <= p < r ==> |tr[p]| == c
  }

  /** `multiply_block`: adds to every result cell of the tile at (bi, bj)
      the terms a[i][k] * b[k][j] for k in the tile starting at bk, one k at
      a time in increasing order; every other cell is left alone. The trace
      of every cell of the tile grows by bk, bk + 1, ... up to the clamped
      end of the k-tile; every other cell's trace is unchanged. */
  method MultiplyBlock(a: FlatMatrix, b: FlatMatrix, bi: nat, bj: nat, bk: nat, bs: nat,
                       res: seq<int>, ghost tr: seq<seq<seq<nat>>>)
    returns (res': seq<int>, ghost tr': seq<seq<seq<nat>>>)
    requires Valid(a) && Valid(b) && ContractionFits(a, b)
    requires |res| == a.rows * b.cols && TraceShape(tr, a.rows, b.cols)
    ensures |res'| == |res| && TraceShape(tr', a.rows, b.cols)
    ensures forall p: nat, q: nat :: p < a.rows && q < b.cols ==>
              At(res', a.rows, b.cols, p, q) ==
                At(res, a.rows, b.cols, p, q) +
                  if bi <= p < bi + bs && bj <= q < bj + bs
                  then Dot(View(a), View(b), p, q, bk, Min(bk + bs, a.cols))
                  else 0
    ensures forall p: nat, q: nat :: p < a.rows && q < b.cols ==>
              tr'[p][q] ==
                tr[p][q] + if bi <= p < bi + bs && bj <= q < bj + bs then Range(bk, Min(bk + bs, a.cols)) else []
  {
    ghost var A := View(a);
    ghost var B := View(b);
    var biEnd := Min(bi + bs, a.rows);
    var bjEnd := Min(bj + bs, b.cols);
    var bkEnd := Min(bk + bs, a.cols);
    var kStart := Min(bk, bkEnd);  // bk..bkEnd is empty when bk is past a.cols
    res' := res;
    tr' := tr;
    var i := bi;
    while i < biEnd
      invariant i == bi || bi <= i <= biEnd
      invariant |res'| == |res| && TraceShape(tr', a.rows, b.cols)
      invariant forall p: nat, q: nat :: p < a.rows && q < b.cols ==>
                  At(res', a.rows, b.cols, p, q) ==
                    At(res, a.rows, b.cols, p, q) +
                      if bi <= p < i && bj <= q < bjEnd then Dot(A, B, p, q, bk, bkEnd) else 0
      invariant forall p: nat, q: nat :: p < a.rows && q < b.cols ==>
                  tr'[p][q] == tr[p][q] + if bi <= p < i && bj <= q < bjEnd then Range(bk, bkEnd) else []
    {
      var j := bj;
      while j < bjEnd
        invariant j == bj || bj <= j <= bjEnd
        invariant |res'| == |res| && TraceShape(tr', a.rows, b.cols)
        invariant forall p: nat, q: nat :: p < a.rows && q < b.cols ==>
                    At(res', a.rows, b.cols, p, q) ==
                      At(res, a.rows, b.cols, p, q) +
                        if (bi <= p < i && bj <= q < bjEnd) || (p == i && bj <= q < j)
                        then Dot(A, B, p, q, bk, bkEnd) else 0
        invariant forall p: nat, q: nat :: p < a.rows && q < b.cols ==>
                    tr'[p][q] ==
                      tr[p][q] + if (bi <= p < i && bj <= q < bjEnd) || (p == i && bj <= q < j)
                                 then Range(bk, bkEnd) else []
      {
        ghost var ks;
        res', ks := AccumulateCell(a, b, i, j, kStart, bkEnd, res');
        tr' := tr'[i := tr'[i][j := tr'[i][j] + ks]];
        j := j + 1;
      }
      i := i + 1;
    }
  }

  /** The bk loop of `matrix_multiplication` for the result tile at
      (bi, bj): `multiply_block` for bk = 0, bs, 2 * bs, ... The tile's
      cells gain the whole contraction, and their traces grow by exactly
      the walk `TileOrder` describes; other cells and traces are unchanged. */
  method MultiplyTile(a: FlatMatrix, b: FlatMatrix, bi: nat, bj: nat, bs: nat,
                      res: seq<int>, ghost tr: seq<seq<seq<nat>>>)
    returns (res': seq<int>, ghost tr': seq<seq<seq<nat>>>)
    requires Valid(a) && Valid(b) && ContractionFits(a, b) && bs >= 1
    requires |res| == a.rows * b.cols && TraceShape(tr, a.rows, b.cols)
    ensures |res'| == |res| && TraceShape(tr', a.rows, b.cols)
    ensures forall p: nat, q: nat :: p < a.rows && q < b.cols ==>
              At(res', a.rows, b.cols, p, q) ==
                At(res, a.rows, b.cols, p, q) +
                  if bi <= p < bi + bs && bj <= q < bj + bs then Dot(View(a), View(b), p, q, 0, a.cols) else 0
    ensures forall p: nat, q: nat :: p < a.rows && q < b.cols ==>
              tr'[p][q] ==
                tr[p][q] + if bi <= p < bi + bs && bj <= q < bj + bs then TileOrder(a.cols, bs, 0) else []
  {
    ghost var A := View(a);
    ghost var B := View(b);
    res' := res;
    tr' := tr;
    ghost var walked: seq<nat> := [];
    var bk := 0;
    while bk < a.cols
      invariant |res'| == |res| && TraceShape(tr', a.rows, b.cols)
      invariant walked + TileOrder(a.cols, bs, bk) == TileOrder(a.cols, bs, 0)
      invariant forall p: nat, q: nat :: p < a.rows && q < b.cols ==>
                  At(res', a.rows, b.cols, p, q) ==
                    At(res, a.rows, b.cols, p, q) +
                      if bi <= p < bi + bs && bj <= q < bj + bs then Dot(A, B, p, q, 0, Min(bk, a.cols)) else 0
      invariant forall p: nat, q: nat :: p < a.rows && q < b.cols ==>
                  tr'[p][q] == tr[p][q] + if bi <= p < bi + bs && bj <= q < bj + bs then walked else []
    {
      res', tr' := MultiplyBlock(a, b, bi, bj, bk, bs, res', tr');
      walked := walked + Range(bk, Min(bk + bs, a.cols));
      forall p: nat, q: nat | p < a.rows && q < b.cols
        ensures Dot(A, B, p, q, 0, bk) + Dot(A, B, p, q, bk, Min(bk + bs, a.cols)) ==
                Dot(A, B, p, q, 0, Min(bk + bs, a.cols))
      {
        DotSplit(A, B, p, q, 0, bk, Min(bk + bs, a.cols));
      }
      bk := bk + bs;
    }
  }

  /** The tiled product for any tile side: the four-level loop nest of
      `matrix_multiplication` with tiles of side `bs`. It equals the naive
      product, whatever the tile side, and every result cell receives its
      terms in the order `TileOrder`: each k below a.cols once, in
      increasing order. */
  method MultiplyTiled(a: FlatMatrix, b: FlatMatrix, bs: nat)
    returns (m: FlatMatrix, ghost order: seq<seq<seq<nat>>>)
    requires Valid(a) && Valid(b) && ContractionFits(a, b) && bs >= 1
    ensures Valid(m) && m.rows == a.rows && m.cols == b.cols
    ensures View(m) == Product(View(a), View(b), a.rows, a.cols, b.cols)
    ensures TraceShape(order, a.rows, b.cols)
    ensures forall p: nat, q: nat :: p < a.rows && q < b.cols ==>
              order[p][q] == TileOrder(a.cols, bs, 0) && order[p][q] == Range(0, a.cols)
  {
    TileOrderAscending(a.cols, bs, 0);
    ghost var A := View(a);
    ghost var B := View(b);
    ghost var walk := TileOrder(a.cols, bs, 0);
    var res := ZeroBuffer(a.rows * b.cols);
    AtZeroBuffer(a.rows, b.cols);
    order := seq(a.rows, _ => seq(b.cols, _ => []));
    var bi := 0;
    while bi < a.rows
      invariant |res| == a.rows * b.cols && TraceShape(order, a.rows, b.cols)
      invariant forall p: nat, q: nat :: p < a.rows && q < b.cols ==>
                  At(res, a.rows, b.cols, p, q) == if p < bi then Dot(A, B, p, q, 0, a.cols) else 0
      invariant forall p: nat, q: nat :: p < a.rows && q < b.cols ==>
                  order[p][q] == if p < bi then walk else []
    {
      var bj := 0;
      while bj < b.cols
        invariant |res| == a.rows * b.cols && TraceShape(order, a.rows, b.cols)
        invariant forall p: nat, q: nat :: p < a.rows && q < b.cols ==>
                    At(res, a.rows, b.cols, p, q) ==
                      if p < bi || (p < bi + bs && q < bj) then Dot(A, B, p, q, 0, a.cols) else 0
        invariant forall p: nat, q: nat :: p < a.rows && q < b.cols ==>
                    order[p][q] == if p < bi || (p < bi + bs && q < bj) then walk else []
      {
        res, order := MultiplyTile(a, b, bi, bj, bs, res, order);
        bj := bj + bs;
      }
      bi := bi + bs;
    }
    m := FlatMatrix(res, a.rows, b.cols);
    forall p | 0 <= p < a.rows
      ensures View(m)[p] == Product(A, B, a.rows, a.cols, b.cols)[p]
    {
    }
  }

  /** `matrix_multiplication`: no shape check; the reads `other.get(k, j)`
      run past other's buffer exactly when self has more columns than other
      has rows (and the result is not empty). */
  method Multiply(a: FlatMatrix, b: FlatMatrix) returns (r: Result<FlatMatrix>)
    requires Valid(a) && Valid(b)
    ensures r.Err? <==> !ContractionFits(a, b)
    ensures r.Err? ==> r.error == IndexOutOfBounds
    ensures r.Ok? ==>
              Valid(r.value) && r.value.rows == a.rows && r.value.cols == b.cols &&
              View(r.value) == Product(View(a), View(b), a.rows, a.cols, b.cols)
  {
    if !ContractionFits(a, b) {
      OverrunWitness(a, b);
      return Err(IndexOutOfBounds);
    }
    var m, _ := MultiplyTiled(a, b, BLOCK_SIZE);
    return Ok(m);
  }

  /** Other's buffer holds every cell that `other.get(i, j)` is asked for:
      the elementwise loops read other with self's indices and other's
      column count, and the largest index read is that of the last cell. */
  predicate StridedFits(a: FlatMatrix, b: FlatMatrix) {
    a.rows == 0 || a.cols == 0 || Idx(b.cols, a.rows - 1, a.cols - 1) < |b.data|
  }

  lemma StridedReads(a: FlatMatrix, b: FlatMatrix, i: nat, j: nat)
    requires StridedFits(a, b) && i < a.rows && j < a.cols
    ensures Idx(b.cols, i, j) < |b.data|
  {
    MulLe(i, a.rows - 1, b.cols);
  }

  /** `other.get(i, j)` for a cell (i, j) of self. */
  function StridedGet(a: FlatMatrix, b: FlatMatrix, i: nat, j: nat): int
    requires StridedFits(a, b) && i < a.rows && j < a.cols
  {
    StridedReads(a, b, i, j);
    b.data[Idx(b.cols, i, j)]
  }

  /** Operands of one shape always fit, and then `other.get` reads other's own cells. */
  lemma SameShapeFits(a: FlatMatrix, b: FlatMatrix)
    requires Valid(b) && a.rows == b.rows && a.cols == b.cols
    ensures StridedFits(a, b)
    ensures forall i: nat, j: nat :: i < a.rows && j < a.cols ==> StridedGet(a, b, i, j) == Get(b, i, j)
  {
    if a.rows > 0 && a.cols > 0 {
      IdxInRange(a.rows, a.cols, a.rows - 1, a.cols - 1);
    }
  }

  /** The elementwise loop shared by `matrix_addition`,
      `matrix_subtraction` and `scalar_multiplication`: tiles of side `bs`,
      clamped at the edges, each cell of each tile set once to
      `self.get(i, j) op other.get(i, j)`. A cell not yet reached is 0. */
  method TiledMap(op: Op, a: FlatMatrix, b: FlatMatrix, bs: nat) returns (r: Result<FlatMatrix>)
    requires Valid(a) && bs >= 1
    ensures r.Err? <==> !StridedFits(a, b)
    ensures r.Err? ==> r.error == IndexOutOfBounds
    ensures r.Ok? ==>
              Valid(r.value) && r.value.rows == a.rows && r.value.cols == a.cols &&
              forall i: nat, j: nat :: i < a.rows && j < a.cols ==>
                Get(r.value, i, j) == Apply(op, Get(a, i, j), StridedGet(a, b, i, j))
  {
    if !StridedFits(a, b) {
      return Err(IndexOutOfBounds);
    }
    var data := ZeroBuffer(a.rows * a.cols);
    AtZeroBuffer(a.rows, a.cols);
    var tileRow := 0;
    while tileRow < a.rows
      invariant |data| == a.rows * a.cols
      invariant forall p: nat, q: nat :: p < a.rows && q < a.cols ==>
                  At(data, a.rows, a.cols, p, q) ==
                    if p < tileRow then Apply(op, Get(a, p, q), StridedGet(a, b, p, q)) else 0
    {
      var tileCol := 0;
      while tileCol < a.cols
        invariant |data| == a.rows * a.cols
        invariant forall p: nat, q: nat :: p < a.rows && q < a.cols ==>
                    At(data, a.rows, a.cols, p, q) ==
                      if p < tileRow || (p < tileRow + bs && q < tileCol)
                      then Apply(op, Get(a, p, q), StridedGet(a, b, p, q)) else 0
      {
        var rowsLeft: nat := a.rows - tileRow;
        var colsLeft: nat := a.cols - tileCol;
        var numRows := Min(bs, rowsLeft);
        var numCols := Min(bs, colsLeft);
        var i := tileRow;
        while i < tileRow + numRows
          invariant tileRow <= i <= tileRow + numRows
          invariant |data| == a.rows * a.cols
          invariant forall p: nat, q: nat :: p < a.rows && q < a.cols ==>
                      At(data, a.rows, a.cols, p, q) ==
                        if p < tileRow || (p < tileRow + bs && q < tileCol) || (tileRow <= p < i && tileCol <= q < tileCol + numCols)
                        then Apply(op, Get(a, p, q), StridedGet(a, b, p, q)) else 0
        {
          var j := tileCol;
          while j < tileCol + numCols
            invariant tileCol <= j <= tileCol + numCols
            invariant |data| == a.rows * a.cols
            invariant forall p: nat, q: nat :: p < a.rows && q < a.cols ==>
                        At(data, a.rows, a.cols, p, q) ==
                          if p < tileRow || (p < tileRow + bs && q < tileCol) || (tileRow <= p < i && tileCol <= q < tileCol + numCols) ||
                             (p == i && tileCol <= q < j)
                          then Apply(op, Get(a, p, q), StridedGet(a, b, p, q)) else 0
          {
            StridedReads(a, b, i, j);
            var v := Apply(op, Get(a, i, j), b.data[Idx(b.cols, i, j)]);
            data := SetCell(data, a.rows, a.cols, i, j, v);
            j := j + 1;
          }
          i := i + 1;
        }
        tileCol := tileCol + bs;
      }
      tileRow := tileRow + bs;
    }
    return Ok(FlatMatrix(data, a.rows, a.cols));
  }

  /** The view of a tiled elementwise result over operands of one shape. */
  lemma TiledMapView(op: Op, a: FlatMatrix, b: FlatMatrix, m: FlatMatrix)
    requires Valid(a) && Valid(b) && a.rows == b.rows && a.cols == b.cols
    requires Valid(m) && m.rows == a.rows && m.cols == a.cols && StridedFits(a, b)
    requires forall i: nat, j: nat :: i < a.rows && j < a.cols ==>
               Get(m, i, j) == Apply(op, Get(a, i, j), StridedGet(a, b, i, j))
    ensures View(m) == Pointwise(op, View(a), View(b), a.rows, a.cols)
  {
    SameShapeFits(a, b);
    forall p | 0 <= p < a.rows
      ensures View(m)[p] == Pointwise(op, View(a), View(b), a.rows, a.cols)[p]
    {
    }
  }

  /** `matrix_addition`: no shape check; other is read with self's indices. */
  method Add(a: FlatMatrix, b: FlatMatrix) returns (r: Result<FlatMatrix>)
    requires Valid(a) && Valid(b)
    ensures r.Err? <==> !StridedFits(a, b)
    ensures r.Err? ==> r.error == IndexOutOfBounds
    ensures r.Ok? ==>
              Valid(r.value) && r.value.rows == a.rows && r.value.cols == a.cols &&
              forall i: nat, j: nat :: i < a.rows && j < a.cols ==>
                Get(r.value, i, j) == Get(a, i, j) + StridedGet(a, b, i, j)
    ensures a.rows == b.rows && a.cols == b.cols ==>
              r.Ok? && View(r.value) == Pointwise(Plus, View(a), View(b), a.rows, a.cols)
  {
    r := TiledMap(Plus, a, b, BLOCK_SIZE);
    if a.rows == b.rows && a.cols == b.cols {
      SameShapeFits(a, b);
      TiledMapView(Plus, a, b, r.value);
    }
  }

  /** `matrix_subtraction`: as addition, with entries subtracted. */
  method Sub(a: FlatMatrix, b: FlatMatrix) returns (r: Result<FlatMatrix>)
    requires Valid(a) && Valid(b)
    ensures r.Err? <==> !StridedFits(a, b)
    ensures r.Err? ==> r.error == IndexOutOfBounds
    ensures r.Ok? ==>
              Valid(r.value) && r.value.rows == a.rows && r.value.cols == a.cols &&
              forall i: nat, j: nat :: i < a.rows && j < a.cols ==>
                Get(r.value, i, j) == Get(a, i, j) - StridedGet(a, b, i, j)
    ensures a.rows == b.rows && a.cols == b.cols ==>
              r.Ok? && View(r.value) == Pointwise(Minus, View(a), View(b), a.rows, a.cols)
  {
    r := TiledMap(Minus, a, b, BLOCK_SIZE);
    if a.rows == b.rows && a.cols == b.cols {
      SameShapeFits(a, b);
      TiledMapView(Minus, a, b, r.value);
    }
  }

  /** `scalar_multiplication`: every cell of every tile times the scalar. */
  method Scale(a: FlatMatrix, s: int) returns (m: FlatMatrix)
    requires Valid(a)
    ensures Valid(m) && m.rows == a.rows && m.cols == a.cols
    ensures View(m) == Pointwise(Times(s), View(a), View(a), a.rows, a.cols)
  {
    SameShapeFits(a, a);
    var r := TiledMap(Times(s), a, a, BLOCK_SIZE);
    m := r.value;
    TiledMapView(Times(s), a, a, m);
  }
}
