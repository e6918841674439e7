/** The transposed-view matrix (`TransposedViewMatrix`): the
    one-dimensional layout plus a second buffer meant to hold the
    transpose, and a flag saying whether it does. The product reads the
    right operand through that second buffer, so that its inner loop walks
    both operands along contiguous memory; it refuses a right operand
    whose flag is unset. Sums, differences, scalings and products are built
    without the transpose, so none of them can be a right operand. */
module TransposedView {
  import opened Outcome
  import opened Reference
  import opened RowMajor

  datatype TvMatrix = TvMatrix(data: seq<int>, tdata: seq<int>, transposed: bool, rows: nat, cols: nat)

  /** The row-major matrix held in the primary buffer. */
  function Primary(m: TvMatrix): FlatMatrix {
    FlatMatrix(m.data, m.rows, m.cols)
  }

  /** `t` holds, at its front, the c by r transpose of the r by c matrix at
      the front of `s`: `t[j * r + i] == s[i * c + j]`. */
  predicate IsTransposeOf(t: seq<int>, s: seq<int>, r: nat, c: nat)
    requires |s| >= r * c && |t| >= r * c
  {
    forall i: nat, j: nat :: i < r && j < c ==> At(t, c, r, j, i) == At(s, r, c, i, j)
  }

  /** The representation invariant: the primary buffer holds rows * cols
      elements, the second buffer is as long, and when the flag is set the
      second buffer holds the transpose. */
  predicate WellFormed(m: TvMatrix) {
    |m.data| == m.rows * m.cols && |m.tdata| == |m.data| &&
    (m.transposed ==> IsTransposeOf(m.tdata, m.data, m.rows, m.cols))
  }

  /** `new_from_vec(data, rows, cols, eager)`: a zero second buffer as long
      as `data`; when `eager`, the loop `transposed_data[j * rows + i] =
      data[i * cols + j]` fills it and the flag is set. That loop reads past
      `data` when `data` holds fewer than rows * cols elements. */
  method NewFromVec(data: seq<int>, rows: nat, cols: nat, eager: bool) returns (r: Result<TvMatrix>)
    ensures r.Err? <==> eager && |data| < rows * cols
    ensures r.Err? ==> r.error == IndexOutOfBounds
    ensures r.Ok? ==>
              r.value.data == data && r.value.rows == rows && r.value.cols == cols &&
              r.value.transposed == eager && |r.value.tdata| == |data|
    ensures r.Ok? && !eager ==> r.value.tdata == ZeroBuffer(|data|)
    ensures r.Ok? && eager ==> IsTransposeOf(r.value.tdata, data, rows, cols)
    ensures r.Ok? && |data| == rows * cols ==> WellFormed(r.value)
  {
    var t := ZeroBuffer(|data|);
    if eager {
      if |data| < rows * cols {
        return Err(IndexOutOfBounds);
      }
      var i := 0;
      while i < rows
        invariant i <= rows && |t| == |data|
        invariant forall p: nat, q: nat :: p < i && q < cols ==>
                    At(t, cols, rows, q, p) == At(data, rows, cols, p, q)
      {
        var j := 0;
        while j < cols
          invariant j <= cols && |t| == |data|
          invariant forall p: nat, q: nat :: (p < i && q < cols) || (p == i && q < j) ==>
                      At(t, cols, rows, q, p) == At(data, rows, cols, p, q)
        {
          t := SetCell(t, cols, rows, j, i, At(data, rows, cols, i, j));
          j := j + 1;
        }
        i := i + 1;
      }
    }
    return Ok(TvMatrix(data, t, eager, rows, cols));
  }

  // `get(row, col)` reads `data[row * cols + col]`: `Get` of `Primary(m)`.

  /** `get_transposed(row, col)`: `transposed_data[row * rows + col]`. */
  function GetTransposed(m: TvMatrix, row: nat, col: nat): int
    requires Idx(m.rows, row, col) < |m.tdata|
  {
    m.tdata[Idx(m.rows, row, col)]
  }

  /** With the flag set, entry (j, i) of the transposed buffer is entry
      (i, j) of the matrix. */
  lemma GetTransposedAgrees(m: TvMatrix, i: nat, j: nat)
    requires WellFormed(m) && m.transposed && i < m.rows && j < m.cols
    ensures Idx(m.cols, i, j) < |m.data| && Idx(m.rows, j, i) < |m.tdata|
    ensures GetTransposed(m, j, i) == Get(Primary(m), i, j)
  {
    IdxInRange(m.rows, m.cols, i, j);
    IdxInRange(m.cols, m.rows, j, i);
    assert At(m.tdata, m.cols, m.rows, j, i) == At(m.data, m.rows, m.cols, i, j);
  }

  /** `new(data)`: the rows flattened and transposed eagerly. `data[0]`
      panics on an empty input; ragged rows are not checked, and rows
      holding fewer than rows * cols elements in all make the eager loop
      read past the buffer. */
  method New(g: Grid) returns (r: Result<TvMatrix>)
    ensures r.Err? <==> |g| == 0 || |Flatten(g)| < |g| * |g[0]|
    ensures |g| == 0 ==> r == Err(EmptyInput)
    ensures |g| > 0 && IsRect(g, |g|, |g[0]|) ==>
              r.Ok? && WellFormed(r.value) && r.value.transposed &&
              r.value.rows == |g| && r.value.cols == |g[0]| && View(Primary(r.value)) == g
  {
    if |g| == 0 {
      return Err(EmptyInput);
    }
    r := NewFromVec(Flatten(g), |g|, |g[0]|, true);
    if IsRect(g, |g|, |g[0]|) {
      FlattenRect(g, |g|, |g[0]|);
      ViewFromRows(g, |g|, |g[0]|);
    }
  }

  /** `zeroes(rows, cols)`: both buffers zero and the flag set, which is
      consistent because the transpose of a zero matrix is zero. */
  function Zeroes(r: nat, c: nat): (m: TvMatrix)
    ensures WellFormed(m) && m.transposed && m.rows == r && m.cols == c
    ensures View(Primary(m)) == ZeroGrid(r, c)
  {
    ZeroTranspose(r, c);
    var f := RowMajor.Zeroes(r, c);
    TvMatrix(f.data, f.data, true, r, c)
  }

  lemma ZeroTranspose(r: nat, c: nat)
    ensures IsTransposeOf(ZeroBuffer(r * c), ZeroBuffer(r * c), r, c)
  {
    forall i: nat, j: nat | i < r && j < c
      ensures At(ZeroBuffer(r * c), c, r, j, i) == At(ZeroBuffer(r * c), r, c, i, j)
    {
      IdxInRange(r, c, i, j);
      IdxInRange(c, r, j, i);
    }
  }

  /** `identity(size)`: ones on the diagonal, transposed eagerly. */
  method Identity(n: nat) returns (m: TvMatrix)
    ensures WellFormed(m) && m.transposed && m.rows == n && m.cols == n
    ensures View(Primary(m)) == IdentityGrid(n)
  {
    var f := RowMajor.Identity(n);
    var r := NewFromVec(f.data, n, n, true);
    m := r.value;
  }

  /** `matrix_addition`: the zipped primary buffers added, built lazily. */
  method Add(a: TvMatrix, b: TvMatrix) returns (m: TvMatrix)
    ensures !m.transposed && m.rows == a.rows && m.cols == a.cols
    ensures |m.data| == Min(|a.data|, |b.data|) && m.tdata == ZeroBuffer(|m.data|)
    ensures forall p :: 0 <= p < |m.data| ==> m.data[p] == a.data[p] + b.data[p]
    ensures WellFormed(a) && WellFormed(b) && a.rows == b.rows && a.cols == b.cols ==>
              WellFormed(m) && View(Primary(m)) == Pointwise(Plus, View(Primary(a)), View(Primary(b)), a.rows, a.cols)
  {
    var r := NewFromVec(Zip(Plus, a.data, b.data), a.rows, a.cols, false);
    m := r.value;
    if WellFormed(a) && WellFormed(b) && a.rows == b.rows && a.cols == b.cols {
      ZipView(Plus, Primary(a), Primary(b));
    }
  }

  /** `matrix_subtraction`: the zipped primary buffers subtracted, built lazily. */
  method Sub(a: TvMatrix, b: TvMatrix) returns (m: TvMatrix)
    ensures !m.transposed && m.rows == a.rows && m.cols == a.cols
    ensures |m.data| == Min(|a.data|, |b.data|) && m.tdata == ZeroBuffer(|m.data|)
    ensures forall p :: 0 <= p < |m.data| ==> m.data[p] == a.data[p] - b.data[p]
    ensures WellFormed(a) && WellFormed(b) && a.rows == b.rows && a.cols == b.cols ==>
              WellFormed(m) && View(Primary(m)) == Pointwise(Minus, View(Primary(a)), View(Primary(b)), a.rows, a.cols)
  {
    var r := NewFromVec(Zip(Minus, a.data, b.data), a.rows, a.cols, false);
    m := r.value;
    if WellFormed(a) && WellFormed(b) && a.rows == b.rows && a.cols == b.cols {
      ZipView(Minus, Primary(a), Primary(b));
    }
  }

  /** `scalar_multiplication`: the primary buffer scaled, built lazily. */
  method Scale(a: TvMatrix, s: int) returns (m: TvMatrix)
    ensures !m.transposed && m.rows == a.rows && m.cols == a.cols
    ensures |m.data| == |a.data| && m.tdata == ZeroBuffer(|m.data|)
    ensures forall p :: 0 <= p < |m.data| ==> m.data[p] == a.data[p] * s
    ensures WellFormed(a) ==>
              WellFormed(m) && View(Primary(m)) == Pointwise(Times(s), View(Primary(a)), View(Primary(a)), a.rows, a.cols)
  {
    var r := NewFromVec(Zip(Times(s), a.data, a.data), a.rows, a.cols, false);
    m := r.value;
    if WellFormed(a) {
      ZipView(Times(s), Primary(a), Primary(a));
    }
  }

  /** When self has more columns than other has rows, the last read of the
      product, `get_transposed(other_cols - 1, self_cols - 1)`, is past the
      end of other's second buffer. */
  lemma TransposedOverrun(a: TvMatrix, b: TvMatrix)
    requires WellFormed(b) && !ContractionFits(Primary(a), Primary(b))
    ensures Idx(b.rows, b.cols - 1, a.cols - 1) >= |b.tdata|
  {
    assert (b.cols - 1) * b.rows + b.rows == b.cols * b.rows;
  }

  /** `matrix_multiplication`: panics unless other's flag is set; then the
      triple loop with `other.get_transposed(j, k)` in place of
      `other.get(k, j)`, which reads past the second buffer exactly when
      the flat loop would read past the first. The result is built lazily. */
  method Multiply(a: TvMatrix, b: TvMatrix) returns (r: Result<TvMatrix>)
    requires WellFormed(a) && WellFormed(b)
    ensures r.Err? <==> !b.transposed || !ContractionFits(Primary(a), Primary(b))
    ensures r.Err? ==> r.error == if !b.transposed then NotTransposed else IndexOutOfBounds
    ensures r.Ok? ==>
              WellFormed(r.value) && !r.value.transposed && r.value.rows == a.rows && r.value.cols == b.cols &&
              View(Primary(r.value)) == Product(View(Primary(a)), View(Primary(b)), a.rows, a.cols, b.cols)
  {
    if !b.transposed {
      return Err(NotTransposed);
    }
    if !ContractionFits(Primary(a), Primary(b)) {
      TransposedOverrun(a, b);
      return Err(IndexOutOfBounds);
    }
    ghost var A := View(Primary(a));
    ghost var B := View(Primary(b));
    var res := ZeroBuffer(a.rows * b.cols);
    AtZeroBuffer(a.rows, b.cols);
    var i := 0;
    while i < a.rows
      invariant i <= a.rows && |res| == a.rows * b.cols
      invariant forall p, q :: 0 <= p < a.rows && 0 <= q < b.cols ==>
                  At(res, a.rows, b.cols, p, q) == if p < i then Dot(A, B, p, q, 0, a.cols) else 0
    {
      var j := 0;
      while j < b.cols
        invariant j <= b.cols && |res| == a.rows * b.cols
        invariant forall p, q :: 0 <= p < a.rows && 0 <= q < b.cols ==>
                    At(res, a.rows, b.cols, p, q) ==
                      if p < i || (p == i && q < j) then Dot(A, B, p, q, 0, a.cols) else 0
      {
        var k := 0;
        while k < a.cols
          invariant k <= a.cols && |res| == a.rows * b.cols
          invariant forall p, q :: 0 <= p < a.rows && 0 <= q < b.cols ==>
                      At(res, a.rows, b.cols, p, q) ==
                        if p < i || (p == i && q < j) then Dot(A, B, p, q, 0, a.cols)
                        else if p == i && q == j then Dot(A, B, p, q, 0, k)
                        else 0
        {
          GetTransposedAgrees(b, k, j);
          var v := At(res, a.rows, b.cols, i, j) + Get(Primary(a), i, k) * GetTransposed(b, j, k);
          res := SetCell(res, a.rows, b.cols, i, j, v);
          k := k + 1;
        }
        j := j + 1;
      }
      i := i + 1;
    }
    var m := NewFromVec(res, a.rows, b.cols, false);
    forall p | 0 <= p < a.rows
      ensures View(Primary(m.value))[p] == Product(A, B, a.rows, a.cols, b.cols)[p]
    {
    }
    return m;
  }

  /** Multiplying on the right by the identity of the column count returns
      the same primary buffer, whatever the flag. */
  method MultiplyRightIdentity(m: TvMatrix) returns (r: Result<TvMatrix>)
    requires WellFormed(m)
    ensures r.Ok? && r.value.data == m.data && r.value.rows == m.rows && r.value.cols == m.cols
  {
    var id := Identity(m.cols);
    r := Multiply(m, id);
    ProductRightIdentity(View(Primary(m)), m.rows, m.cols);
    ViewInjective(Primary(r.value), Primary(m));
  }

  /** Multiplying the identity of the row count by `m` returns `m`'s
      primary buffer when `m` carries its transpose, and panics otherwise. */
  method MultiplyLeftIdentity(m: TvMatrix) returns (r: Result<TvMatrix>)
    requires WellFormed(m)
    ensures r.Err? <==> !m.transposed
    ensures r.Ok? ==> r.value.data == m.data && r.value.rows == m.rows && r.value.cols == m.cols
  {
    var id := Identity(m.rows);
    r := Multiply(id, m);
    if r.Ok? {
      ProductLeftIdentity(View(Primary(m)), m.rows, m.cols);
      ViewInjective(Primary(r.value), Primary(m));
    }
  }

  /** A product is never a right operand: `a * (b * c)` panics, either in
      forming `b * c` or, once it is formed, because it has no transpose. */
  method ProductAsRightOperand(a: TvMatrix, b: TvMatrix, c: TvMatrix) returns (r: Result<TvMatrix>)
    requires WellFormed(a) && WellFormed(b) && WellFormed(c)
    ensures r.Err?
    ensures r.error == NotTransposed || !c.transposed || !ContractionFits(Primary(b), Primary(c))
  {
    var bc := Multiply(b, c);
    if bc.Err? {
      return bc;
    }
    r := Multiply(a, bc.value);
  }
}
