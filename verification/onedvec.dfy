/** The one-dimensional matrix (`OneDVecMatrix`): the naive algorithms over
    a single row-major buffer. Addition, subtraction and scaling are
    iterator pipelines over the buffers and check nothing; the product is
    the flat triple loop. */
module OneDVec {
  import opened Outcome
  import opened Reference
  import opened RowMajor

  /** `matrix_addition`: the zipped buffers added, self's shape kept. */
  function Add(a: FlatMatrix, b: FlatMatrix): (r: FlatMatrix)
    ensures r.rows == a.rows && r.cols == a.cols && |r.data| == Min(|a.data|, |b.data|)
    ensures forall p :: 0 <= p < |r.data| ==> r.data[p] == a.data[p] + b.data[p]
    ensures Valid(a) && Valid(b) && a.rows == b.rows && a.cols == b.cols ==>
              Valid(r) && View(r) == Pointwise(Plus, View(a), View(b), a.rows, a.cols)
  {
    if Valid(a) && Valid(b) && a.rows == b.rows && a.cols == b.cols then
      ZipView(Plus, a, b);
      FlatMatrix(Zip(Plus, a.data, b.data), a.rows, a.cols)
    else FlatMatrix(Zip(Plus, a.data, b.data), a.rows, a.cols)
  }

  /** `matrix_subtraction`: the zipped buffers subtracted, self's shape kept. */
  function Sub(a: FlatMatrix, b: FlatMatrix): (r: FlatMatrix)
    ensures r.rows == a.rows && r.cols == a.cols && |r.data| == Min(|a.data|, |b.data|)
    ensures forall p :: 0 <= p < |r.data| ==> r.data[p] == a.data[p] - b.data[p]
    ensures Valid(a) && Valid(b) && a.rows == b.rows && a.cols == b.cols ==>
              Valid(r) && View(r) == Pointwise(Minus, View(a), View(b), a.rows, a.cols)
  {
    if Valid(a) && Valid(b) && a.rows == b.rows && a.cols == b.cols then
      ZipView(Minus, a, b);
      FlatMatrix(Zip(Minus, a.data, b.data), a.rows, a.cols)
    else FlatMatrix(Zip(Minus, a.data, b.data), a.rows, a.cols)
  }

  /** `scalar_multiplication`: every buffer element times the scalar. */
  function Scale(a: FlatMatrix, s: int): (r: FlatMatrix)
    ensures r.rows == a.rows && r.cols == a.cols && |r.data| == |a.data|
    ensures forall p :: 0 <= p < |r.data| ==> r.data[p] == a.data[p] * s
    ensures Valid(a) ==> Valid(r) && View(r) == Pointwise(Times(s), View(a), View(a), a.rows, a.cols)
  {
    if Valid(a) then
      ZipView(Times(s), a, a);
      FlatMatrix(Zip(Times(s), a.data, a.data), a.rows, a.cols)
    else FlatMatrix(Zip(Times(s), a.data, a.data), a.rows, a.cols)
  }

  /** `matrix_multiplication`: the flat triple loop, with no shape check.
      It reads `other[k * other_cols + j]` for every k below self's column
      count, so it panics when self has more columns than other has rows,
      and silently uses only the first rows of other when it has fewer. */
  method Multiply(a: FlatMatrix, b: FlatMatrix) returns (r: Result<FlatMatrix>)
    requires Valid(a) && Valid(b)
    ensures r.Err? <==> !ContractionFits(a, b)
    ensures r.Err? ==> r.error == IndexOutOfBounds
    ensures r.Ok? ==>
              Valid(r.value) && r.value.rows == a.rows && r.value.cols == b.cols &&
              View(r.value) == Product(View(a), View(b), a.rows, a.cols, b.cols)
  {
    if !ContractionFits(a, b) {
      OverrunWitness(a, b);
      return Err(IndexOutOfBounds);
    }
    var m := NaiveProduct(a, b);
    return Ok(m);
  }
}
