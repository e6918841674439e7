/** The representations side by side. Built from the same rows, every
    representation's sum, difference, scaling and product reads back
    (`get_data`) the rows the naive matrix computes, which are the
    mathematical results. The one exception is the multithreaded
    elementwise loop as written, which agrees only when its chunk size
    divides the element count. */
module Equivalence {
  import opened Outcome
  import opened Reference
  import opened RowMajor
  import Basic
  import OneDVec
  import Blocked
  import Multithread
  import TransposedView

  /** The rows a flat result reads back as. */
  lemma ReadBack(m: FlatMatrix)
    requires Valid(m) && m.cols > 0
    ensures ToRows(m) == Ok(View(m))
  {
    ChunksOfValid(m);
  }

  /** The product of an r by n and an n by c matrix, in every representation. */
  method MultiplyAgree(a: Grid, b: Grid, r: nat, n: nat, c: nat)
    returns (basic: Grid, flat: Grid, blocked: Grid, threaded: Grid, viewed: Grid)
    requires IsRect(a, r, n) && IsRect(b, n, c) && r > 0 && n > 0 && c > 0
    ensures basic == Product(a, b, r, n, c)
    ensures flat == basic && blocked == basic && threaded == basic && viewed == basic
  {
    var bp := Basic.Multiply(Basic.BasicMatrix(a), Basic.BasicMatrix(b));
    basic := bp.value.data;
    forall i | 0 <= i < r
      ensures basic[i] == Product(a, b, r, n, c)[i]
    {
    }
    ViewFromRows(a, r, n);
    ViewFromRows(b, n, c);
    var fa := FromRows(a).value;
    var fb := FromRows(b).value;

    var p1 := OneDVec.Multiply(fa, fb);
    ReadBack(p1.value);
    flat := ToRows(p1.value).value;

    var p2 := Blocked.Multiply(fa, fb);
    ReadBack(p2.value);
    blocked := ToRows(p2.value).value;

    var p3 := Multithread.Multiply(fa, fb);
    ReadBack(p3.value);
    threaded := ToRows(p3.value).value;

    var ta := TransposedView.New(a);
    var tb := TransposedView.New(b);
    var p4 := TransposedView.Multiply(ta.value, tb.value);
    ReadBack(TransposedView.Primary(p4.value));
    viewed := ToRows(TransposedView.Primary(p4.value)).value;
  }

  /** The sum of two r by c matrices, in every representation. The
      multithreaded loop as written succeeds, with the same rows, exactly
      when its chunk size divides r * c; with its loop bound corrected it
      always does. */
  method AddAgree(a: Grid, b: Grid, r: nat, c: nat)
    returns (basic: Grid, flat: Grid, blocked: Grid, threadedFixed: Grid, viewed: Grid, asWritten: Result<Grid>)
    requires IsRect(a, r, c) && IsRect(b, r, c) && r > 0 && c > 0
    ensures basic == Pointwise(Plus, a, b, r, c)
    ensures flat == basic && blocked == basic && threadedFixed == basic && viewed == basic
    ensures asWritten.Ok? <==> (r * c) % Multithread.ChunkSize(r * c) == 0
    ensures asWritten.Ok? ==> asWritten.value == basic
  {
    basic := Basic.Add(Basic.BasicMatrix(a), Basic.BasicMatrix(b)).value.data;
    forall i | 0 <= i < r
      ensures basic[i] == Pointwise(Plus, a, b, r, c)[i]
    {
    }
    ViewFromRows(a, r, c);
    ViewFromRows(b, r, c);
    var fa := FromRows(a).value;
    var fb := FromRows(b).value;

    var s1 := OneDVec.Add(fa, fb);
    ReadBack(s1);
    flat := ToRows(s1).value;

    var s2 := Blocked.Add(fa, fb);
    ReadBack(s2.value);
    blocked := ToRows(s2.value).value;

    var s3 := Multithread.ChunkedMapFixed(Plus, fa, fb);
    ZipView(Plus, fa, fb);
    ReadBack(s3.value);
    threadedFixed := ToRows(s3.value).value;

    var ta := TransposedView.New(a);
    var tb := TransposedView.New(b);
    var s4 := TransposedView.Add(ta.value, tb.value);
    ReadBack(TransposedView.Primary(s4));
    viewed := ToRows(TransposedView.Primary(s4)).value;

    var s5 := Multithread.Add(fa, fb);
    if s5.Ok? {
      ReadBack(s5.value);
      asWritten := ToRows(s5.value);
    } else {
      asWritten := Err(s5.error);
    }
  }

  /** The difference of two r by c matrices, in every representation. */
  method SubAgree(a: Grid, b: Grid, r: nat, c: nat)
    returns (basic: Grid, flat: Grid, blocked: Grid, threadedFixed: Grid, viewed: Grid, asWritten: Result<Grid>)
    requires IsRect(a, r, c) && IsRect(b, r, c) && r > 0 && c > 0
    ensures basic == Pointwise(Minus, a, b, r, c)
    ensures flat == basic && blocked == basic && threadedFixed == basic && viewed == basic
    ensures asWritten.Ok? <==> (r * c) % Multithread.ChunkSize(r * c) == 0
    ensures asWritten.Ok? ==> asWritten.value == basic
  {
    basic := Basic.Sub(Basic.BasicMatrix(a), Basic.BasicMatrix(b)).value.data;
    forall i | 0 <= i < r
      ensures basic[i] == Pointwise(Minus, a, b, r, c)[i]
    {
    }
    ViewFromRows(a, r, c);
    ViewFromRows(b, r, c);
    var fa := FromRows(a).value;
    var fb := FromRows(b).value;

    var s1 := OneDVec.Sub(fa, fb);
    ReadBack(s1);
    flat := ToRows(s1).value;

    var s2 := Blocked.Sub(fa, fb);
    ReadBack(s2.value);
    blocked := ToRows(s2.value).value;

    var s3 := Multithread.ChunkedMapFixed(Minus, fa, fb);
    ZipView(Minus, fa, fb);
    ReadBack(s3.value);
    threadedFixed := ToRows(s3.value).value;

    var ta := TransposedView.New(a);
    var tb := TransposedView.New(b);
    var s4 := TransposedView.Sub(ta.value, tb.value);
    ReadBack(TransposedView.Primary(s4));
    viewed := ToRows(TransposedView.Primary(s4)).value;

    var s5 := Multithread.Sub(fa, fb);
    if s5.Ok? {
      ReadBack(s5.value);
      asWritten := ToRows(s5.value);
    } else {
      asWritten := Err(s5.error);
    }
  }

  /** An r by c matrix times a scalar, in every representation. */
  method ScaleAgree(a: Grid, r: nat, c: nat, s: int)
    returns (basic: Grid, flat: Grid, blocked: Grid, threadedFixed: Grid, viewed: Grid, asWritten: Result<Grid>)
    requires IsRect(a, r, c) && r > 0 && c > 0
    ensures basic == Pointwise(Times(s), a, a, r, c)
    ensures flat == basic && blocked == basic && threadedFixed == basic && viewed == basic
    ensures asWritten.Ok? <==> (r * c) % Multithread.ChunkSize(r * c) == 0
    ensures asWritten.Ok? ==> asWritten.value == basic
  {
    basic := Basic.Scale(Basic.BasicMatrix(a), s).value.data;
    forall i | 0 <= i < r
      ensures basic[i] == Pointwise(Times(s), a, a, r, c)[i]
    {
    }
    ViewFromRows(a, r, c);
    var fa := FromRows(a).value;

    var s1 := OneDVec.Scale(fa, s);
    ReadBack(s1);
    flat := ToRows(s1).value;

    var s2 := Blocked.Scale(fa, s);
    ReadBack(s2);
    blocked := ToRows(s2).value;

    var s3 := Multithread.ChunkedMapFixed(Times(s), fa, fa);
    ZipView(Times(s), fa, fa);
    ReadBack(s3.value);
    threadedFixed := ToRows(s3.value).value;

    var ta := TransposedView.New(a);
    var s4 := TransposedView.Scale(ta.value, s);
    ReadBack(TransposedView.Primary(s4));
    viewed := ToRows(TransposedView.Primary(s4)).value;

    var s5 := Multithread.Scale(fa, s);
    if s5.Ok? {
      ReadBack(s5.value);
      asWritten := ToRows(s5.value);
    } else {
      asWritten := Err(s5.error);
    }
  }
}
