/** The naive matrix (`BasicMatrix`): a vector of row vectors, the
    correctness baseline every other representation is compared with. It is
    the only representation that checks shapes, and the only one with a
    mutating operation (`transpose`, modelled as the new value it leaves
    behind). */
module Basic {
  import opened Outcome
  import opened Reference

  datatype BasicMatrix = BasicMatrix(data: Grid)

  /** The representation invariant: every row is as long as the first. */
  predicate Rectangular(m: BasicMatrix) {
    |m.data| == 0 || IsRect(m.data, |m.data|, |m.data[0]|)
  }

  /** `get_rows`: the number of row vectors. */
  function GetRows(m: BasicMatrix): nat {
    |m.data|
  }

  /** `get_cols`: the length of the first row; `data[0]` panics when there
      are no rows. */
  function GetCols(m: BasicMatrix): (r: Result<nat>)
    ensures r.Err? <==> |m.data| == 0
    ensures r.Ok? && Rectangular(m) ==> IsRect(m.data, GetRows(m), r.value)
  {
    if |m.data| == 0 then Err(EmptyInput) else Ok(|m.data[0]|)
  }

  /** `zeroes(rows, cols)`: `rows` vectors of `cols` zeros. */
  function Zeroes(r: nat, c: nat): (m: BasicMatrix)
    ensures IsRect(m.data, r, c)
    ensures forall i, j :: 0 <= i < r && 0 <= j < c ==> m.data[i][j] == 0
  {
    BasicMatrix(ZeroGrid(r, c))
  }

  /** `identity(size)`: zeros with `data[i][i] = 1`. */
  function Identity(n: nat): (m: BasicMatrix)
    ensures IsRect(m.data, n, n)
    ensures forall i, j :: 0 <= i < n && 0 <= j < n ==> m.data[i][j] == if i == j then 1 else 0
  {
    BasicMatrix(IdentityGrid(n))
  }

  /** `matrix_addition`: both shapes are read (each read of `data[0]` can
      panic), a shape difference panics, otherwise entries are added. */
  function Add(a: BasicMatrix, b: BasicMatrix): (r: Result<BasicMatrix>)
    requires Rectangular(a) && Rectangular(b)
    ensures r.Err? <==>
              |a.data| == 0 || |b.data| == 0 || |a.data| != |b.data| || |a.data[0]| != |b.data[0]|
    ensures r.Err? ==> r.error == if |a.data| == 0 || |b.data| == 0 then EmptyInput else DimensionMismatch
    ensures r.Ok? ==>
              IsRect(r.value.data, |a.data|, |a.data[0]|) &&
              forall i, j :: 0 <= i < |a.data| && 0 <= j < |a.data[0]| ==>
                r.value.data[i][j] == a.data[i][j] + b.data[i][j]
  {
    var ra := GetRows(a);
    var ca :- GetCols(a);
    var rb := GetRows(b);
    var cb :- GetCols(b);
    if ra != rb || ca != cb then Err(DimensionMismatch)
    else Ok(BasicMatrix(Pointwise(Plus, a.data, b.data, ra, ca)))
  }

  /** `matrix_subtraction`: as addition, with entries subtracted. */
  function Sub(a: BasicMatrix, b: BasicMatrix): (r: Result<BasicMatrix>)
    requires Rectangular(a) && Rectangular(b)
    ensures r.Err? <==>
              |a.data| == 0 || |b.data| == 0 || |a.data| != |b.data| || |a.data[0]| != |b.data[0]|
    ensures r.Err? ==> r.error == if |a.data| == 0 || |b.data| == 0 then EmptyInput else DimensionMismatch
    ensures r.Ok? ==>
              IsRect(r.value.data, |a.data|, |a.data[0]|) &&
              forall i, j :: 0 <= i < |a.data| && 0 <= j < |a.data[0]| ==>
                r.value.data[i][j] == a.data[i][j] - b.data[i][j]
  {
    var ra := GetRows(a);
    var ca :- GetCols(a);
    var rb := GetRows(b);
    var cb :- GetCols(b);
    if ra != rb || ca != cb then Err(DimensionMismatch)
    else Ok(BasicMatrix(Pointwise(Minus, a.data, b.data, ra, ca)))
  }

  /** `matrix_multiplication`: panics unless the left operand has as many
      columns as the right one has rows; otherwise the rows1 by cols2 matrix
      of sums of a[i][k] * b[k][j] over k. */
  function Multiply(a: BasicMatrix, b: BasicMatrix): (r: Result<BasicMatrix>)
    requires Rectangular(a) && Rectangular(b)
    ensures r.Err? <==> |a.data| == 0 || |b.data| == 0 || |a.data[0]| != |b.data|
    ensures r.Err? ==> r.error == if |a.data| == 0 || |b.data| == 0 then EmptyInput else DimensionMismatch
    ensures r.Ok? ==>
              IsRect(r.value.data, |a.data|, |b.data[0]|) &&
              forall i, j :: 0 <= i < |a.data| && 0 <= j < |b.data[0]| ==>
                r.value.data[i][j] == Dot(a.data, b.data, i, j, 0, |b.data|)
  {
    var ra := GetRows(a);
    var ca :- GetCols(a);
    var rb := GetRows(b);
    var cb :- GetCols(b);
    if ca != rb then Err(DimensionMismatch)
    else Ok(BasicMatrix(Product(a.data, b.data, ra, ca, cb)))
  }

  /** `scalar_multiplication`: every entry times the scalar; reading the
      column count panics when there are no rows. */
  function Scale(a: BasicMatrix, s: int): (r: Result<BasicMatrix>)
    requires Rectangular(a)
    ensures r.Err? <==> |a.data| == 0
    ensures r.Ok? ==>
              IsRect(r.value.data, |a.data|, |a.data[0]|) &&
              forall i, j :: 0 <= i < |a.data| && 0 <= j < |a.data[0]| ==>
                r.value.data[i][j] == a.data[i][j] * s
  {
    var ra := GetRows(a);
    var ca :- GetCols(a);
    Ok(BasicMatrix(Pointwise(Times(s), a.data, a.data, ra, ca)))
  }

  /** `transpose(&mut self)`: the value the matrix holds afterwards, a
      cols by rows matrix with new[j][i] = old[i][j]. */
  function Transpose(m: BasicMatrix): (r: Result<BasicMatrix>)
    requires Rectangular(m)
    ensures r.Err? <==> |m.data| == 0
    ensures r.Ok? ==>
              IsRect(r.value.data, |m.data[0]|, |m.data|) &&
              forall i, j :: 0 <= i < |m.data| && 0 <= j < |m.data[0]| ==> r.value.data[j][i] == m.data[i][j]
  {
    var rows := GetRows(m);
    var cols :- GetCols(m);
    Ok(BasicMatrix(Reference.Transpose(m.data, rows, cols)))
  }

  /** Multiplying by the identity of the column count returns the matrix. */
  lemma MultiplyRightIdentity(m: BasicMatrix)
    requires Rectangular(m) && |m.data| > 0 && |m.data[0]| > 0
    ensures Multiply(m, Identity(|m.data[0]|)) == Ok(m)
  {
    ProductRightIdentity(m.data, |m.data|, |m.data[0]|);
  }

  /** Multiplying the identity of the row count by the matrix returns it. */
  lemma MultiplyLeftIdentity(m: BasicMatrix)
    requires Rectangular(m) && |m.data| > 0 && |m.data[0]| > 0
    ensures Multiply(Identity(|m.data|), m) == Ok(m)
  {
    ProductLeftIdentity(m.data, |m.data|, |m.data[0]|);
  }

  /** Subtracting `b` from `a + b` gives `a` back. */
  lemma SubUndoesAdd(a: BasicMatrix, b: BasicMatrix)
    requires Rectangular(a) && Rectangular(b) && Add(a, b).Ok?
    ensures Rectangular(Add(a, b).value) && Sub(Add(a, b).value, b) == Ok(a)
  {
    Reference.SubUndoesAdd(a.data, b.data, |a.data|, |a.data[0]|);
  }

  /** Transposing twice restores a matrix with at least one row and column. */
  lemma TransposeTwice(m: BasicMatrix)
    requires Rectangular(m) && |m.data| > 0 && |m.data[0]| > 0
    ensures Rectangular(Transpose(m).value) && Transpose(Transpose(m).value) == Ok(m)
  {
    Reference.TransposeTwice(m.data, |m.data|, |m.data[0]|);
  }

  /** Operand shapes (2, 2) and (2, 3) cannot be added or subtracted, and
      (2, 2) times (3, 2) cannot be multiplied. */
  lemma MismatchExamples()
    ensures Add(Zeroes(2, 2), Zeroes(2, 3)) == Err(DimensionMismatch)
    ensures Sub(Zeroes(2, 2), Zeroes(2, 3)) == Err(DimensionMismatch)
    ensures Multiply(Zeroes(2, 2), Zeroes(3, 2)) == Err(DimensionMismatch)
  {
  }

  /** [[1, 2, 3], [4, 5, 6]] times [[7, 8], [9, 10], [11, 12]]. */
  lemma MultiplyExample()
    ensures Multiply(BasicMatrix([[1, 2, 3], [4, 5, 6]]), BasicMatrix([[7, 8], [9, 10], [11, 12]]))
            == Ok(BasicMatrix([[58, 64], [139, 154]]))
  {
    var p := Multiply(BasicMatrix([[1, 2, 3], [4, 5, 6]]), BasicMatrix([[7, 8], [9, 10], [11, 12]])).value.data;
    assert p[0] == [58, 64];
    assert p[1] == [139, 154];
    assert p == [[58, 64], [139, 154]];
  }
}
