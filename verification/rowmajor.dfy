/** The row-major flat buffer shared by the one-dimensional, blocked,
    multithreaded and transposed-view representations: cell (i, j) of a
    matrix with `cols` columns lives at `i * cols + j`.

    This module holds the index arithmetic, the conversions between nested
    rows and a flat buffer (`into_iter().flatten()` and `chunks(cols)`), the
    flat matrix value with its constructors, and the plain triple-loop
    product that the one-dimensional and multithreaded matrices both run. */
module RowMajor {
  import opened Outcome
  import opened Reference

  function Min(x: int, y: int): int {
    if x <= y then x else y
  }

  /** Position of cell (i, j) in a row-major buffer with `c` columns. */
  function Idx(c: nat, i: nat, j: nat): nat {
    i * c + j
  }

  lemma MulLe(x: nat, y: nat, c: nat)
    requires x <= y
    ensures x * c <= y * c
  {
    var d := y - x;
    assert y * c == x * c + d * c;
  }

  lemma IdxInRange(r: nat, c: nat, i: nat, j: nat)
    requires i < r && j < c
    ensures Idx(c, i, j) < r * c
  {
    MulLe(i + 1, r, c);
  }

  /** Division by the row length recovers the cell from its position. */
  lemma IdxDivMod(c: nat, i: nat, j: nat)
    requires j < c
    ensures Idx(c, i, j) / c == i && Idx(c, i, j) % c == j
  {
    var x := Idx(c, i, j);
    var q := x / c;
    var m := x % c;
    assert x == q * c + m;
    if q > i {
      MulLe(i + 1, q, c);
      assert false;
    } else if q < i {
      MulLe(q + 1, i, c);
      assert false;
    }
  }

  /** Every position of an `r` by `c` buffer is some cell's. */
  lemma IdxCover(r: nat, c: nat, p: nat)
    requires p < r * c
    ensures c > 0 && p / c < r && p == Idx(c, p / c, p % c)
  {
    if p / c >= r {
      MulLe(r, p / c, c);
    }
  }

  /** Cutting 0..n into consecutive pieces of width `bs` (the last one
      clamped at `n`), index `i` lies in the piece starting at `t * bs`
      exactly when `t` is `i / bs`: the pieces cover every index once.
      `chunks(bs)` cuts a slice this way. */
  lemma SegmentContains(n: nat, bs: nat, t: nat, i: nat)
    requires bs >= 1 && i < n
    ensures (t * bs <= i < t * bs + Min(bs, n - t * bs)) <==> t == i / bs
  {
    if t == i / bs {
      assert i == t * bs + i % bs;
    }
    if t * bs <= i < t * bs + bs {
      IdxDivMod(bs, t, i - t * bs);
    }
  }

  /** Cell (i, j) of the `r` by `c` matrix stored at the front of `s`. */
  function At(s: seq<int>, r: nat, c: nat, i: nat, j: nat): int
    requires |s| >= r * c && i < r && j < c
  {
    IdxInRange(r, c, i, j);
    s[Idx(c, i, j)]
  }

  /** `s` with cell (i, j) set to `v`: `res[i * cols + j] = v`. Positions
      past the r by c matrix are left alone. */
  function SetCell(s: seq<int>, r: nat, c: nat, i: nat, j: nat, v: int): (s': seq<int>)
    requires |s| >= r * c && i < r && j < c
    ensures |s'| == |s|
    ensures forall p: nat, q: nat :: p < r && q < c ==>
              At(s', r, c, p, q) == if p == i && q == j then v else At(s, r, c, p, q)
    ensures forall p :: r * c <= p < |s| ==> s'[p] == s[p]
  {
    IdxInRange(r, c, i, j);
    SetCellOthers(s, r, c, i, j, v);
    s[Idx(c, i, j) := v]
  }

  lemma SetCellOthers(s: seq<int>, r: nat, c: nat, i: nat, j: nat, v: int)
    requires |s| >= r * c && i < r && j < c
    ensures Idx(c, i, j) < |s|
    ensures forall p: nat, q: nat :: p < r && q < c ==>
              At(s[Idx(c, i, j) := v], r, c, p, q) == if p == i && q == j then v else At(s, r, c, p, q)
  {
    IdxInRange(r, c, i, j);
    var s' := s[Idx(c, i, j) := v];
    forall p: nat, q: nat | p < r && q < c
      ensures At(s', r, c, p, q) == if p == i && q == j then v else At(s, r, c, p, q)
    {
      IdxInRange(r, c, p, q);
      if Idx(c, p, q) == Idx(c, i, j) {
        IdxDivMod(c, p, q);
        IdxDivMod(c, i, j);
      }
    }
  }

  /** Two `r` by `c` buffers that agree on every cell are equal. */
  lemma CellwiseEqual(s: seq<int>, t: seq<int>, r: nat, c: nat)
    requires |s| == r * c && |t| == r * c
    requires forall i, j :: 0 <= i < r && 0 <= j < c ==> At(s, r, c, i, j) == At(t, r, c, i, j)
    ensures s == t
  {
    forall p | 0 <= p < |s|
      ensures s[p] == t[p]
    {
      IdxCover(r, c, p);
      assert At(s, r, c, p / c, p % c) == At(t, r, c, p / c, p % c);
    }
  }

  /** `vec![0.0; n]` */
  function ZeroBuffer(n: nat): seq<int> {
    seq(n, _ => 0)
  }

  lemma AtZeroBuffer(r: nat, c: nat)
    ensures forall i, j :: 0 <= i < r && 0 <= j < c ==> At(ZeroBuffer(r * c), r, c, i, j) == 0
  {
    forall i, j | 0 <= i < r && 0 <= j < c
      ensures At(ZeroBuffer(r * c), r, c, i, j) == 0
    {
      IdxInRange(r, c, i, j);
    }
  }

  /** `a.iter().zip(b.iter()).map(op).collect()`: as long as the shorter
      operand (`map` over one buffer when `op` is a scaling). */
  function Zip(op: Op, a: seq<int>, b: seq<int>): (s: seq<int>)
    ensures |s| == Min(|a|, |b|)
    ensures forall p :: 0 <= p < |s| ==> s[p] == Apply(op, a[p], b[p])
  {
    seq(Min(|a|, |b|), p requires 0 <= p < Min(|a|, |b|) => Apply(op, a[p], b[p]))
  }

  /** `into_iter().flatten().collect()`: the rows laid end to end. */
  function Flatten(g: Grid): seq<int> {
    if |g| == 0 then [] else g[0] + Flatten(g[1..])
  }

  /** Flattening an `r` by `c` grid puts entry (i, j) at `i * c + j`. */
  lemma {:induction false} FlattenRect(g: Grid, r: nat, c: nat)
    requires IsRect(g, r, c)
    ensures |Flatten(g)| == r * c
    ensures forall i, j :: 0 <= i < r && 0 <= j < c ==> At(Flatten(g), r, c, i, j) == g[i][j]
  {
    if r > 0 {
      FlattenRect(g[1..], r - 1, c);
      assert r * c == c + (r - 1) * c;
      forall i, j | 0 <= i < r && 0 <= j < c
        ensures At(Flatten(g), r, c, i, j) == g[i][j]
      {
        if i > 0 {
          assert Idx(c, i, j) == c + Idx(c, i - 1, j);
          assert At(Flatten(g), r, c, i, j) == At(Flatten(g[1..]), r - 1, c, i - 1, j);
        }
      }
    }
  }

  /** `chunks(c)`: consecutive pieces of length `c`, the last one shorter
      when `c` does not divide the length. Rust refuses `c == 0`. */
  function Chunks(s: seq<int>, c: nat): Grid
    requires c > 0
    decreases |s|
  {
    if |s| == 0 then []
    else if |s| <= c then [s]
    else [s[..c]] + Chunks(s[c..], c)
  }

  /** Laying the chunks of any buffer end to end gives the buffer back. */
  lemma {:induction false} FlattenChunks(s: seq<int>, c: nat)
    requires c > 0
    ensures Flatten(Chunks(s, c)) == s
    decreases |s|
  {
    if |s| > c {
      FlattenChunks(s[c..], c);
      assert Chunks(s, c)[1..] == Chunks(s[c..], c);
      assert s == s[..c] + s[c..];
    }
  }

  /** Chunking a flattened `r` by `c` grid gives back its rows. */
  lemma {:induction false} ChunksFlatten(g: Grid, r: nat, c: nat)
    requires IsRect(g, r, c) && c > 0
    ensures Chunks(Flatten(g), c) == g
  {
    if r > 0 {
      ChunksFlatten(g[1..], r - 1, c);
      FlattenRect(g[1..], r - 1, c);
      assert Flatten(g)[..c] == g[0];
      assert Flatten(g)[c..] == Flatten(g[1..]);
      if r == 1 {
        assert Flatten(g) == g[0];
      }
    }
  }

  /** A matrix stored row-major in one buffer with its shape beside it. */
  datatype FlatMatrix = FlatMatrix(data: seq<int>, rows: nat, cols: nat)

  /** The representation invariant: the buffer holds exactly rows * cols elements. */
  predicate Valid(m: FlatMatrix) {
    |m.data| == m.rows * m.cols
  }

  /** `get(row, col)`: `data[row * cols + col]`. */
  function Get(m: FlatMatrix, i: nat, j: nat): int
    requires Valid(m) && i < m.rows && j < m.cols
  {
    At(m.data, m.rows, m.cols, i, j)
  }

  /** The matrix a flat value stands for. */
  function View(m: FlatMatrix): Grid
    requires Valid(m)
  {
    seq(m.rows, i requires 0 <= i < m.rows => seq(m.cols, j requires 0 <= j < m.cols => Get(m, i, j)))
  }

  /** `new(data)` / `new_from_vec_vec(data)`: the shape is taken from the row
      count and the first row, the rows are flattened. `data[0]` panics on
      an empty input; ragged rows are not checked. */
  function FromRows(g: Grid): (r: Result<FlatMatrix>)
    ensures r.Err? <==> |g| == 0
    ensures r.Ok? && IsRect(g, |g|, |g[0]|) ==>
              r.value.rows == |g| && r.value.cols == |g[0]| && Valid(r.value) &&
              forall i, j :: 0 <= i < |g| && 0 <= j < |g[0]| ==> Get(r.value, i, j) == g[i][j]
  {
    if |g| == 0 then Err(EmptyInput)
    else
      var m := FlatMatrix(Flatten(g), |g|, |g[0]|);
      if IsRect(g, |g|, |g[0]|) then FlattenRect(g, |g|, |g[0]|); Ok(m) else Ok(m)
  }

  /** `get_data()`: the buffer cut into rows with `chunks(cols)`, which
      panics when there are no columns. */
  function ToRows(m: FlatMatrix): (r: Result<Grid>)
    ensures r.Err? <==> m.cols == 0
    ensures r.Ok? && Valid(m) ==>
              IsRect(r.value, m.rows, m.cols) &&
              forall i, j :: 0 <= i < m.rows && 0 <= j < m.cols ==> r.value[i][j] == Get(m, i, j)
  {
    if m.cols == 0 then Err(ZeroChunkSize)
    else if Valid(m) then ChunksOfValid(m); Ok(Chunks(m.data, m.cols))
    else Ok(Chunks(m.data, m.cols))
  }

  lemma ChunksOfValid(m: FlatMatrix)
    requires Valid(m) && m.cols > 0
    ensures Chunks(m.data, m.cols) == View(m)
  {
    FlattenRect(View(m), m.rows, m.cols);
    CellwiseEqual(Flatten(View(m)), m.data, m.rows, m.cols);
    ChunksFlatten(View(m), m.rows, m.cols);
  }

  /** Building from rectangular rows and reading the rows back is the identity. */
  lemma RowsRoundTrip(g: Grid, r: nat, c: nat)
    requires IsRect(g, r, c) && r > 0 && c > 0
    ensures FromRows(g).Ok? && ToRows(FromRows(g).value) == Ok(g)
  {
    ChunksFlatten(g, r, c);
  }

  /** Reading the rows of a valid matrix and building from them gives it back. */
  lemma FlatRoundTrip(m: FlatMatrix)
    requires Valid(m) && m.rows > 0 && m.cols > 0
    ensures ToRows(m).Ok? && FromRows(ToRows(m).value) == Ok(m)
  {
    ChunksOfValid(m);
    FlattenRect(View(m), m.rows, m.cols);
    CellwiseEqual(Flatten(View(m)), m.data, m.rows, m.cols);
  }

  /** The view of a matrix built from rectangular rows is those rows. */
  lemma ViewFromRows(g: Grid, r: nat, c: nat)
    requires IsRect(g, r, c) && r > 0
    ensures FromRows(g).Ok? && Valid(FromRows(g).value) && View(FromRows(g).value) == g
  {
    FlattenRect(g, r, c);
    var m := FromRows(g).value;
    forall i | 0 <= i < r
      ensures View(m)[i] == g[i]
    {
    }
  }

  /** `zeroes(rows, cols)`: a buffer of rows * cols zeros. */
  function Zeroes(r: nat, c: nat): (m: FlatMatrix)
    ensures Valid(m) && m.rows == r && m.cols == c && View(m) == ZeroGrid(r, c)
  {
    ZeroesView(r, c);
    FlatMatrix(ZeroBuffer(r * c), r, c)
  }

  lemma ZeroesView(r: nat, c: nat)
    ensures View(FlatMatrix(ZeroBuffer(r * c), r, c)) == ZeroGrid(r, c)
  {
    var m := FlatMatrix(ZeroBuffer(r * c), r, c);
    AtZeroBuffer(r, c);
    forall i | 0 <= i < r
      ensures View(m)[i] == ZeroGrid(r, c)[i]
    {
    }
  }

  /** `identity(size)`: zeros, then `data[i * size + i] = 1` for every i. */
  method Identity(n: nat) returns (m: FlatMatrix)
    ensures Valid(m) && m.rows == n && m.cols == n
    ensures View(m) == IdentityGrid(n)
  {
    var data := ZeroBuffer(n * n);
    AtZeroBuffer(n, n);
    var i := 0;
    while i < n
      invariant i <= n && |data| == n * n
      invariant forall p, q :: 0 <= p < n && 0 <= q < n ==>
                  At(data, n, n, p, q) == if p == q && p < i then 1 else 0
    {
      data := SetCell(data, n, n, i, i, 1);
      i := i + 1;
    }
    m := FlatMatrix(data, n, n);
    forall p | 0 <= p < n
      ensures View(m)[p] == IdentityGrid(n)[p]
    {
    }
  }

  /** A product whose reads of the right operand all stay in its buffer:
      there is nothing to loop over, or the left operand has no more columns
      than the right one has rows. */
  predicate ContractionFits(a: FlatMatrix, b: FlatMatrix) {
    a.rows == 0 || b.cols == 0 || a.cols <= b.rows
  }

  /** When the contraction does not fit, the triple loop's read of
      `other[k * other_cols + j]` at i = 0, k = cols - 1, j = other_cols - 1
      is past the end of the right operand's buffer (a panic in the original). */
  lemma OverrunWitness(a: FlatMatrix, b: FlatMatrix)
    requires Valid(b) && !ContractionFits(a, b)
    ensures Idx(b.cols, a.cols - 1, b.cols - 1) >= |b.data|
  {
    MulLe(b.rows + 1, a.cols, b.cols);
  }

  /** The sequential triple loop
        for i, for j, for k: res[i * oc + j] += a[i * cols + k] * b[k * oc + j]
      over a zero buffer. Every cell ends as the product sum over k, which it
      receives in increasing k. */
  method NaiveProduct(a: FlatMatrix, b: FlatMatrix) returns (m: FlatMatrix)
    requires Valid(a) && Valid(b) && ContractionFits(a, b)
    ensures Valid(m) && m.rows == a.rows && m.cols == b.cols
    ensures View(m) == Product(View(a), View(b), a.rows, a.cols, b.cols)
  {
    ghost var A := View(a);
    ghost var B := View(b);
    var res := ZeroBuffer(a.rows * b.cols);
    AtZeroBuffer(a.rows, b.cols);
    var i := 0;
    while i < a.rows
      invariant i <= a.rows && |res| == a.rows * b.cols
      invariant forall p, q :: 0 <= p < a.rows && 0 <= q < b.cols ==>
                  At(res, a.rows, b.cols, p, q) == if p < i then Dot(A, B, p, q, 0, a.cols) else 0
    {
      var j := 0;
      while j < b.cols
        invariant j <= b.cols && |res| == a.rows * b.cols
        invariant forall p, q :: 0 <= p < a.rows && 0 <= q < b.cols ==>
                    At(res, a.rows, b.cols, p, q) ==
                      if p < i || (p == i && q < j) then Dot(A, B, p, q, 0, a.cols) else 0
      {
        var k := 0;
        while k < a.cols
          invariant k <= a.cols && |res| == a.rows * b.cols
          invariant forall p, q :: 0 <= p < a.rows && 0 <= q < b.cols ==>
                      At(res, a.rows, b.cols, p, q) ==
                        if p < i || (p == i && q < j) then Dot(A, B, p, q, 0, a.cols)
                        else if p == i && q == j then Dot(A, B, p, q, 0, k)
                        else 0
        {
          var v := At(res, a.rows, b.cols, i, j) + Get(a, i, k) * Get(b, k, j);
          res := SetCell(res, a.rows, b.cols, i, j, v);
          k := k + 1;
        }
        j := j + 1;
      }
      i := i + 1;
    }
    m := FlatMatrix(res, a.rows, b.cols);
    forall p | 0 <= p < a.rows
      ensures View(m)[p] == Product(A, B, a.rows, a.cols, b.cols)[p]
    {
    }
  }

  /** Two valid matrices of one shape with the same view hold the same buffer. */
  lemma ViewInjective(x: FlatMatrix, y: FlatMatrix)
    requires Valid(x) && Valid(y) && x.rows == y.rows && x.cols == y.cols && View(x) == View(y)
    ensures x == y
  {
    forall i, j | 0 <= i < x.rows && 0 <= j < x.cols
      ensures At(x.data, x.rows, x.cols, i, j) == At(y.data, y.rows, y.cols, i, j)
    {
      assert View(x)[i][j] == View(y)[i][j];
    }
    CellwiseEqual(x.data, y.data, x.rows, x.cols);
  }

  /** Zipping two valid matrices of one shape combines their views entry by entry. */
  lemma ZipView(op: Op, a: FlatMatrix, b: FlatMatrix)
    requires Valid(a) && Valid(b) && a.rows == b.rows && a.cols == b.cols
    ensures Valid(FlatMatrix(Zip(op, a.data, b.data), a.rows, a.cols))
    ensures View(FlatMatrix(Zip(op, a.data, b.data), a.rows, a.cols)) ==
            Pointwise(op, View(a), View(b), a.rows, a.cols)
  {
    var m := FlatMatrix(Zip(op, a.data, b.data), a.rows, a.cols);
    forall i | 0 <= i < a.rows
      ensures View(m)[i] == Pointwise(op, View(a), View(b), a.rows, a.cols)[i]
    {
      forall j | 0 <= j < a.cols
        ensures View(m)[i][j] == Pointwise(op, View(a), View(b), a.rows, a.cols)[i][j]
      {
        IdxInRange(a.rows, a.cols, i, j);
      }
    }
  }
}
