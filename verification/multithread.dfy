/** The multithreaded matrix (`MultithreadMatrix`): the one-dimensional
    layout, with addition, subtraction and scaling split into
    `NUM_THREADS` chunks that separate threads fill. The threads write
    disjoint chunks, so the model runs them one after the other; the
    result does not depend on their order. The product is the flat triple
    loop, run on one thread. */
module Multithread {
  import opened Outcome
  import opened Reference
  import opened RowMajor

  /** The number of chunks the elementwise operations aim for. */
  const NUM_THREADS: nat := 10

  /** `(len + NUM_THREADS - 1) / NUM_THREADS`: the ceiling of len / 10. */
  function ChunkSize(len: nat): nat {
    (len + NUM_THREADS - 1) / NUM_THREADS
  }

  /** The number of pieces `chunks(cs)` cuts a slice of length `len` into. */
  function NumChunks(len: nat, cs: nat): nat
    requires cs >= 1
  {
    (len + cs - 1) / cs
  }

  /** A non-empty slice is cut into at least one piece, the pieces
      before the last are full, and the last one ends the slice. */
  lemma NumChunksBounds(len: nat, cs: nat)
    requires len >= 1 && cs >= 1
    ensures NumChunks(len, cs) >= 1
    ensures (NumChunks(len, cs) - 1) * cs < len <= NumChunks(len, cs) * cs
  {
    var n := NumChunks(len, cs);
    assert len + cs - 1 == n * cs + (len + cs - 1) % cs;
    assert (n - 1) * cs == n * cs - cs;
  }

  /** A longer slice is never cut into fewer pieces. */
  lemma NumChunksMonotone(x: nat, y: nat, cs: nat)
    requires x <= y && cs >= 1
    ensures NumChunks(x, cs) <= NumChunks(y, cs)
  {
    var nx := NumChunks(x, cs);
    var ny := NumChunks(y, cs);
    assert x + cs - 1 == nx * cs + (x + cs - 1) % cs;
    assert y + cs - 1 == ny * cs + (y + cs - 1) % cs;
    if nx > ny {
      MulLe(ny + 1, nx, cs);
      assert false;
    }
  }

  /** Taking one full piece off a slice longer than `cs` leaves one piece
      fewer; a slice of at most `cs` elements is one piece. */
  lemma NumChunksStep(len: nat, cs: nat)
    requires cs >= 1 && len >= 1
    ensures len <= cs ==> NumChunks(len, cs) == 1
    ensures len > cs ==> NumChunks(len, cs) == NumChunks(len - cs, cs) + 1
  {
    var q := (len - 1) / cs;
    var m := (len - 1) % cs;
    assert len - 1 == q * cs + m;
    assert len + cs - 1 == Idx(cs, q + 1, m);
    IdxDivMod(cs, q + 1, m);
    if len > cs {
      assert len - cs + cs - 1 == Idx(cs, q, m);
      IdxDivMod(cs, q, m);
    } else {
      IdxDivMod(cs, 1, len - 1);
    }
  }

  /** `chunks(cs)` yields `NumChunks` pieces. */
  lemma {:induction false} ChunksLength(s: seq<int>, cs: nat)
    requires cs >= 1
    ensures |Chunks(s, cs)| == NumChunks(|s|, cs)
    decreases |s|
  {
    if |s| > 0 {
      NumChunksStep(|s|, cs);
      if |s| > cs {
        ChunksLength(s[cs..], cs);
      }
    }
  }

  /** Piece t of `chunks(cs)` holds the elements from t * cs up to the next
      multiple of `cs` or the end of the slice, and starts inside it. */
  lemma {:induction false} ChunksPiece(s: seq<int>, cs: nat, t: nat)
    requires cs >= 1 && t < |Chunks(s, cs)|
    ensures t * cs < |s|
    ensures Chunks(s, cs)[t] == s[t * cs .. Min(t * cs + cs, |s|)]
    decreases t
  {
    if t > 0 {
      assert |s| > cs;
      var rest := s[cs..];
      assert Chunks(s, cs)[t] == Chunks(rest, cs)[t - 1];
      ChunksPiece(rest, cs, t - 1);
      assert (t - 1) * cs == t * cs - cs;
    }
  }

  /** What `chunks(cs)` yields: `NumChunks` pieces, piece t being the
      elements from t * cs up to the next multiple of `cs` or the end. */
  lemma ChunksCount(s: seq<int>, cs: nat)
    requires cs >= 1
    ensures |Chunks(s, cs)| == NumChunks(|s|, cs)
    ensures forall t :: 0 <= t < |Chunks(s, cs)| ==>
              t * cs < |s| && Chunks(s, cs)[t] == s[t * cs .. Min(t * cs + cs, |s|)]
  {
    ChunksLength(s, cs);
    forall t | 0 <= t < |Chunks(s, cs)|
      ensures t * cs < |s| && Chunks(s, cs)[t] == s[t * cs .. Min(t * cs + cs, |s|)]
    {
      ChunksPiece(s, cs, t);
    }
  }

  /** The chunk size of a non-empty buffer is positive and yields at most
      NUM_THREADS pieces. */
  lemma ChunkSizeBound(len: nat)
    requires len >= 1
    ensures ChunkSize(len) >= 1
    ensures NumChunks(len, ChunkSize(len)) <= NUM_THREADS
  {
    var cs := ChunkSize(len);
    var q := NumChunks(len, cs);
    assert len + 9 == 10 * cs + (len + 9) % 10;
    assert len + cs - 1 == q * cs + (len + cs - 1) % cs;
    if q > NUM_THREADS {
      MulLe(NUM_THREADS + 1, q, cs);
      assert false;
    }
  }

  /** For a non-empty buffer, `chunks(ChunkSize(len))` yields at most
      NUM_THREADS pieces, so at most that many threads are spawned; the
      pieces are non-empty, none longer than the chunk size, and together
      they are the buffer. */
  lemma ChunkCount(s: seq<int>)
    requires |s| >= 1
    ensures ChunkSize(|s|) >= 1
    ensures |Chunks(s, ChunkSize(|s|))| <= NUM_THREADS
    ensures forall t :: 0 <= t < |Chunks(s, ChunkSize(|s|))| ==>
              1 <= |Chunks(s, ChunkSize(|s|))[t]| <= ChunkSize(|s|)
    ensures Flatten(Chunks(s, ChunkSize(|s|))) == s
  {
    var cs := ChunkSize(|s|);
    ChunkSizeBound(|s|);
    ChunksCount(s, cs);
    FlattenChunks(s, cs);
  }

  /** Element `idx` lies in chunk `idx / cs`, which exists, and in no other. */
  lemma ChunkPartition(len: nat, cs: nat, c: nat, idx: nat)
    requires cs >= 1 && idx < len
    ensures idx / cs < NumChunks(len, cs)
    ensures (c * cs <= idx < c * cs + Min(cs, len - c * cs)) <==> c == idx / cs
  {
    SegmentContains(len, cs, c, idx);
    var q := idx / cs;
    var n := NumChunks(len, cs);
    assert idx == q * cs + idx % cs;
    assert len + cs - 1 == n * cs + (len + cs - 1) % cs;
    if n <= q {
      MulLe(n, q, cs);
      assert false;
    }
  }

  /** Every chunk is a full `cs` long exactly when `cs` divides the length:
      otherwise the last one is shorter. */
  lemma {:induction false} LastChunkFull(len: nat, cs: nat)
    requires len >= 1 && cs >= 1
    ensures NumChunks(len, cs) >= 1
    ensures (len - (NumChunks(len, cs) - 1) * cs == cs) <==> len % cs == 0
  {
    var q := len / cs;
    var m := len % cs;
    assert len == q * cs + m;
    if m == 0 {
      assert q >= 1;
      IdxDivMod(cs, q - 1, cs - 1);
      assert len + cs - 1 == Idx(cs, q, cs - 1);
      IdxDivMod(cs, q, cs - 1);
      assert (q - 1) * cs == q * cs - cs;
    } else {
      assert len + cs - 1 == Idx(cs, q + 1, m - 1);
      IdxDivMod(cs, q + 1, m - 1);
    }
  }

  /** A chunk straddling `m` (starting below it, ending past it) means
      `cs` does not divide `m`. */
  lemma Straddle(t: nat, cs: nat, m: nat)
    requires t * cs < m < t * cs + cs
    ensures m % cs != 0
  {
    IdxDivMod(cs, t, m - t * cs);
  }

  /** Some pair of pieces that `izip!` lines up from `chunks(cs)` of `x` and
      of `y` has a piece shorter than `cs`. */
  predicate PairedPieceShort(x: seq<int>, y: seq<int>, cs: nat) {
    cs >= 1 &&
    exists t :: 0 <= t < |Chunks(x, cs)| && t < |Chunks(y, cs)| &&
      (|Chunks(x, cs)[t]| < cs || |Chunks(y, cs)[t]| < cs)
  }

  /** Piece t of `chunks(cs)` is `cs` long unless the slice ends first. */
  lemma PieceLength(s: seq<int>, cs: nat, t: nat)
    requires cs >= 1 && t < |Chunks(s, cs)|
    ensures t * cs < |s|
    ensures |Chunks(s, cs)[t]| < cs <==> |s| < t * cs + cs
  {
    ChunksPiece(s, cs, t);
  }

  /** When `cs` does not divide `m`, the last piece of `m` elements is
      short. */
  lemma LastPieceShort(m: nat, cs: nat)
    requires cs >= 1 && m % cs != 0
    ensures NumChunks(m, cs) >= 1
    ensures m < (NumChunks(m, cs) - 1) * cs + cs
  {
    var n := NumChunks(m, cs);
    NumChunksBounds(m, cs);
    LastChunkFull(m, cs);
    assert (n - 1) * cs + cs == n * cs;
  }

  /** When `cs` does not divide the shorter length, the last paired piece
      is short. */
  lemma ShortPieceWitness(x: seq<int>, y: seq<int>, cs: nat)
    requires cs >= 1 && Min(|x|, |y|) % cs != 0
    ensures PairedPieceShort(x, y, cs)
  {
    var m := Min(|x|, |y|);
    LastPieceShort(m, cs);
    var t := NumChunks(m, cs) - 1;
    ChunksLength(x, cs);
    ChunksLength(y, cs);
    NumChunksMonotone(m, |x|, cs);
    NumChunksMonotone(m, |y|, cs);
    PieceLength(x, cs, t);
    PieceLength(y, cs, t);
    if |x| <= |y| {
      assert |Chunks(x, cs)[t]| < cs;
    } else {
      assert |Chunks(y, cs)[t]| < cs;
    }
  }

  /** A paired piece is short exactly when `cs` does not divide the shorter
      length: the pieces before the last paired one are full in both
      slices, and the last paired one is the last piece of the shorter. */
  lemma ShortPieceIff(x: seq<int>, y: seq<int>, cs: nat)
    requires cs >= 1
    ensures PairedPieceShort(x, y, cs) <==> Min(|x|, |y|) % cs != 0
  {
    if Min(|x|, |y|) % cs != 0 {
      ShortPieceWitness(x, y, cs);
    }
    if PairedPieceShort(x, y, cs) {
      var t :| 0 <= t < |Chunks(x, cs)| && t < |Chunks(y, cs)| &&
               (|Chunks(x, cs)[t]| < cs || |Chunks(y, cs)[t]| < cs);
      PieceLength(x, cs, t);
      PieceLength(y, cs, t);
      Straddle(t, cs, Min(|x|, |y|));
    }
  }

  /** The elementwise loop of `matrix_addition`, `matrix_subtraction` and
      `scalar_multiplication` as written: the result, self's buffer and
      other's buffer are each cut with `chunks(chunk_size)`, `izip!` pairs
      the pieces and stops at the shortest list, and every piece is filled
      with `for i in 0..chunk_size`. A piece shorter than `chunk_size`
      makes that loop index past its end, and a panic in any thread makes
      the final `unwrap` panic. */
  method ChunkedMap(op: Op, a: FlatMatrix, b: FlatMatrix) returns (r: Result<FlatMatrix>)
    requires Valid(a)
    ensures r.Err? <==> |a.data| == 0 || PairedPieceShort(a.data, b.data, ChunkSize(|a.data|))
    ensures r.Err? <==> |a.data| == 0 || Min(|a.data|, |b.data|) % ChunkSize(|a.data|) != 0
    ensures r.Err? ==> r.error == if |a.data| == 0 then ZeroChunkSize else IndexOutOfBounds
    ensures r.Ok? ==> r.value.rows == a.rows && r.value.cols == a.cols && |r.value.data| == |a.data|
    ensures r.Ok? ==> forall p :: 0 <= p < |a.data| ==>
              r.value.data[p] == if p < |b.data| then Apply(op, a.data[p], b.data[p]) else 0
  {
    var len := |a.data|;
    var cs := ChunkSize(len);
    if cs == 0 {
      return Err(ZeroChunkSize);
    }
    ShortPieceIff(a.data, b.data, cs);
    var paired := Min(len, |b.data|);
    var data := ZeroBuffer(len);
    var start := 0;
    ghost var t: nat := 0;
    while start < paired
      invariant start == t * cs && start <= paired
      invariant t <= NumChunks(paired, cs)
      invariant |data| == len
      invariant forall p :: 0 <= p < len ==>
                  data[p] == if p < start then Apply(op, a.data[p], b.data[p]) else 0
    {
      var i := 0;
      while i < cs
        invariant i <= cs && start + i <= paired
        invariant |data| == len
        invariant forall p :: 0 <= p < len ==>
                    data[p] == if p < start + i then Apply(op, a.data[p], b.data[p]) else 0
      {
        if start + i >= paired {
          Straddle(t, cs, paired);
          return Err(IndexOutOfBounds);
        }
        data := data[start + i := Apply(op, a.data[start + i], b.data[start + i])];
        i := i + 1;
      }
      ChunkPartition(paired, cs, t, start);
      IdxDivMod(cs, t, 0);
      start := start + cs;
      t := t + 1;
    }
    IdxDivMod(cs, t, 0);
    return Ok(FlatMatrix(data, a.rows, a.cols));
  }

  /** The loop as evidently intended: each piece is filled up to its own
      length (`for i in 0..data_chunk.len()`), over operands of one length.
      Only an empty buffer still fails, on `chunks(0)`. */
  method ChunkedMapFixed(op: Op, a: FlatMatrix, b: FlatMatrix) returns (r: Result<FlatMatrix>)
    requires Valid(a) && |b.data| == |a.data|
    ensures r.Err? <==> |a.data| == 0
    ensures r.Err? ==> r.error == ZeroChunkSize
    ensures r.Ok? ==>
              r.value == FlatMatrix(Zip(op, a.data, b.data), a.rows, a.cols) && Valid(r.value)
  {
    var len := |a.data|;
    var cs := ChunkSize(len);
    if cs == 0 {
      return Err(ZeroChunkSize);
    }
    var data := ZeroBuffer(len);
    var start := 0;
    while start < len
      invariant |data| == len
      invariant forall p :: 0 <= p < len ==>
                  data[p] == if p < start then Apply(op, a.data[p], b.data[p]) else 0
    {
      var pieceLen := Min(cs, len - start);
      var i := 0;
      while i < pieceLen
        invariant i <= pieceLen
        invariant |data| == len
        invariant forall p :: 0 <= p < len ==>
                    data[p] == if p < start + i then Apply(op, a.data[p], b.data[p]) else 0
      {
        data := data[start + i := Apply(op, a.data[start + i], b.data[start + i])];
        i := i + 1;
      }
      start := start + cs;
    }
    return Ok(FlatMatrix(data, a.rows, a.cols));
  }

  /** `matrix_addition`, as written. */
  method Add(a: FlatMatrix, b: FlatMatrix) returns (r: Result<FlatMatrix>)
    requires Valid(a)
    ensures r.Err? <==> |a.data| == 0 || Min(|a.data|, |b.data|) % ChunkSize(|a.data|) != 0
    ensures r.Err? ==> r.error == if |a.data| == 0 then ZeroChunkSize else IndexOutOfBounds
    ensures r.Ok? ==> r.value.rows == a.rows && r.value.cols == a.cols && |r.value.data| == |a.data|
    ensures r.Ok? ==> forall p :: 0 <= p < |a.data| ==>
              r.value.data[p] == if p < |b.data| then a.data[p] + b.data[p] else 0
    ensures r.Ok? && Valid(b) && b.rows == a.rows && b.cols == a.cols ==>
              Valid(r.value) && View(r.value) == Pointwise(Plus, View(a), View(b), a.rows, a.cols)
  {
    r := ChunkedMap(Plus, a, b);
    if r.Ok? && Valid(b) && b.rows == a.rows && b.cols == a.cols {
      assert r.value.data == Zip(Plus, a.data, b.data);
      ZipView(Plus, a, b);
    }
  }

  /** `matrix_subtraction`, as written. */
  method Sub(a: FlatMatrix, b: FlatMatrix) returns (r: Result<FlatMatrix>)
    requires Valid(a)
    ensures r.Err? <==> |a.data| == 0 || Min(|a.data|, |b.data|) % ChunkSize(|a.data|) != 0
    ensures r.Err? ==> r.error == if |a.data| == 0 then ZeroChunkSize else IndexOutOfBounds
    ensures r.Ok? ==> r.value.rows == a.rows && r.value.cols == a.cols && |r.value.data| == |a.data|
    ensures r.Ok? ==> forall p :: 0 <= p < |a.data| ==>
              r.value.data[p] == if p < |b.data| then a.data[p] - b.data[p] else 0
    ensures r.Ok? && Valid(b) && b.rows == a.rows && b.cols == a.cols ==>
              Valid(r.value) && View(r.value) == Pointwise(Minus, View(a), View(b), a.rows, a.cols)
  {
    r := ChunkedMap(Minus, a, b);
    if r.Ok? && Valid(b) && b.rows == a.rows && b.cols == a.cols {
      assert r.value.data == Zip(Minus, a.data, b.data);
      ZipView(Minus, a, b);
    }
  }

  /** `scalar_multiplication`, as written: self is paired with itself. */
  method Scale(a: FlatMatrix, s: int) returns (r: Result<FlatMatrix>)
    requires Valid(a)
    ensures r.Err? <==> |a.data| == 0 || |a.data| % ChunkSize(|a.data|) != 0
    ensures r.Err? ==> r.error == if |a.data| == 0 then ZeroChunkSize else IndexOutOfBounds
    ensures r.Ok? ==> Valid(r.value) && r.value.rows == a.rows && r.value.cols == a.cols
    ensures r.Ok? ==> View(r.value) == Pointwise(Times(s), View(a), View(a), a.rows, a.cols)
  {
    r := ChunkedMap(Times(s), a, a);
    if r.Ok? {
      assert r.value.data == Zip(Times(s), a.data, a.data);
      ZipView(Times(s), a, a);
    }
  }

  /** `matrix_multiplication`: the flat triple loop, as in the
      one-dimensional matrix. */
  method Multiply(a: FlatMatrix, b: FlatMatrix) returns (r: Result<FlatMatrix>)
    requires Valid(a) && Valid(b)
    ensures r.Err? <==> !ContractionFits(a, b)
    ensures r.Err? ==> r.error == IndexOutOfBounds
    ensures r.Ok? ==>
              Valid(r.value) && r.value.rows == a.rows && r.value.cols == b.cols &&
              View(r.value) == Product(View(a), View(b), a.rows, a.cols, b.cols)
  {
    if !ContractionFits(a, b) {
      OverrunWitness(a, b);
      return Err(IndexOutOfBounds);
    }
    var m := NaiveProduct(a, b);
    return Ok(m);
  }

  /** Eleven elements get chunks of two, six of them, the last one short;
      twenty-five get chunks of three, nine of them, the last one short. */
  lemma ChunkExamples()
    ensures ChunkSize(11) == 2 && NumChunks(11, 2) == 6 && 11 % 2 != 0
    ensures ChunkSize(25) == 3 && NumChunks(25, 3) == 9 && 25 % 3 != 0
  {
  }

  /** Adding two 5 by 5 zero matrices panics as written: 25 elements, chunks
      of 3, and the ninth chunk holds only one element. */
  method FiveByFiveAdd() returns (r: Result<FlatMatrix>)
    ensures r == Err(IndexOutOfBounds)
  {
    var z := Zeroes(5, 5);
    assert |z.data| == 25 && ChunkSize(25) == 3;
    r := Add(z, z);
  }

  /** With the loop bound corrected, the same addition succeeds with the
      zero matrix. */
  method FiveByFiveAddFixed() returns (r: Result<FlatMatrix>)
    ensures r.Ok? && Valid(r.value) && View(r.value) == ZeroGrid(5, 5)
  {
    var z := Zeroes(5, 5);
    r := ChunkedMapFixed(Plus, z, z);
    ZipView(Plus, z, z);
    forall i | 0 <= i < 5
      ensures Pointwise(Plus, View(z), View(z), 5, 5)[i] == ZeroGrid(5, 5)[i]
    {
    }
  }
}
