/** Matrices as mathematics: rectangular grids of integers (standing in for
    the f64 elements of the original) and the results every representation
    has to reproduce. Nothing here fails or mentions storage; the
    representations add their own layouts and failure behaviour on top. */
module Reference {

  /** A matrix as a sequence of rows. */
  type Grid = seq<seq<int>>

  /** `g` has `r` rows of `c` entries each. */
  predicate IsRect(g: Grid, r: nat, c: nat) {
    |g| == r && forall i :: 0 <= i < |g| ==> |g[i]| == c
  }

  /** Entry (i, j) of `g`; 0 outside the grid. Every use below stays inside. */
  function Entry(g: Grid, i: nat, j: nat): int {
    if i < |g| && j < |g[i]| then g[i][j] else 0
  }

  /** The element operations of addition, subtraction and scaling. */
  datatype Op = Plus | Minus | Times(scalar: int)

  function Apply(op: Op, x: int, y: int): int {
    match op
    case Plus => x + y
    case Minus => x - y
    case Times(s) => x * s
  }

  /** The `r` by `c` grid combining `a` and `b` entry by entry
      (`Times` reads only `a`). */
  function Pointwise(op: Op, a: Grid, b: Grid, r: nat, c: nat): Grid {
    seq(r, i requires 0 <= i < r =>
      seq(c, j requires 0 <= j < c => Apply(op, Entry(a, i, j), Entry(b, i, j))))
  }

  function ZeroGrid(r: nat, c: nat): Grid {
    seq(r, i => seq(c, j => 0))
  }

  function IdentityGrid(n: nat): Grid {
    seq(n, i => seq(n, j => if i == j then 1 else 0))
  }

  /** The sum of a[i][k] * b[k][j] over lo <= k < hi, accumulated one k at a
      time in increasing order (the order of every loop in the original). */
  function Dot(a: Grid, b: Grid, i: nat, j: nat, lo: nat, hi: nat): int
    decreases hi
  {
    if hi <= lo then 0
    else Dot(a, b, i, j, lo, hi - 1) + Entry(a, i, hi - 1) * Entry(b, hi - 1, j)
  }

  /** The `r` by `c` product of `a` and `b`, contracting over the first `n`
      columns of `a` and rows of `b`. */
  function Product(a: Grid, b: Grid, r: nat, n: nat, c: nat): Grid {
    seq(r, i requires 0 <= i < r => seq(c, j requires 0 <= j < c => Dot(a, b, i, j, 0, n)))
  }

  /** The `c` by `r` transpose of the `r` by `c` grid `a`. */
  function Transpose(a: Grid, r: nat, c: nat): Grid {
    seq(c, j requires 0 <= j < c => seq(r, i requires 0 <= i < r => Entry(a, i, j)))
  }

  /** Splitting the contraction range at `mid` splits the sum: a product
      accumulated tile by tile over k equals the untiled sum. */
  lemma {:induction false} DotSplit(a: Grid, b: Grid, i: nat, j: nat, lo: nat, mid: nat, hi: nat)
    requires lo <= mid <= hi
    ensures Dot(a, b, i, j, lo, hi) == Dot(a, b, i, j, lo, mid) + Dot(a, b, i, j, mid, hi)
    decreases hi
  {
    if hi > mid {
      DotSplit(a, b, i, j, lo, mid, hi - 1);
    }
  }

  /** Against column j of the n by n identity, the first m terms of row i
      pick out a[i][j] if j < m, and nothing otherwise. */
  lemma {:induction false} DotRightIdentity(a: Grid, n: nat, i: nat, j: nat, m: nat)
    requires j < n && m <= n
    ensures Dot(a, IdentityGrid(n), i, j, 0, m) == if j < m then Entry(a, i, j) else 0
  {
    if m > 0 {
      DotRightIdentity(a, n, i, j, m - 1);
    }
  }

  /** Row i of the n by n identity, against b, picks out b[i][j]. */
  lemma {:induction false} DotLeftIdentity(b: Grid, n: nat, i: nat, j: nat, m: nat)
    requires i < n && m <= n
    ensures Dot(IdentityGrid(n), b, i, j, 0, m) == if i < m then Entry(b, i, j) else 0
  {
    if m > 0 {
      DotLeftIdentity(b, n, i, j, m - 1);
    }
  }

  /** Multiplying an r by c grid on the right by the c by c identity gives it back. */
  lemma ProductRightIdentity(a: Grid, r: nat, c: nat)
    requires IsRect(a, r, c)
    ensures Product(a, IdentityGrid(c), r, c, c) == a
  {
    forall i | 0 <= i < r
      ensures Product(a, IdentityGrid(c), r, c, c)[i] == a[i]
    {
      forall j | 0 <= j < c
        ensures Product(a, IdentityGrid(c), r, c, c)[i][j] == a[i][j]
      {
        DotRightIdentity(a, c, i, j, c);
      }
    }
  }

  /** Multiplying an r by c grid on the left by the r by r identity gives it back. */
  lemma ProductLeftIdentity(b: Grid, r: nat, c: nat)
    requires IsRect(b, r, c)
    ensures Product(IdentityGrid(r), b, r, r, c) == b
  {
    forall i | 0 <= i < r
      ensures Product(IdentityGrid(r), b, r, r, c)[i] == b[i]
    {
      forall j | 0 <= j < c
        ensures Product(IdentityGrid(r), b, r, r, c)[i][j] == b[i][j]
      {
        DotLeftIdentity(b, r, i, j, r);
      }
    }
  }

  /** Subtracting `b` undoes adding it. */
  lemma SubUndoesAdd(a: Grid, b: Grid, r: nat, c: nat)
    requires IsRect(a, r, c) && IsRect(b, r, c)
    ensures Pointwise(Minus, Pointwise(Plus, a, b, r, c), b, r, c) == a
  {
    forall i | 0 <= i < r
      ensures Pointwise(Minus, Pointwise(Plus, a, b, r, c), b, r, c)[i] == a[i]
    {
    }
  }

  /** Transposing twice gives the grid back. */
  lemma TransposeTwice(a: Grid, r: nat, c: nat)
    requires IsRect(a, r, c)
    ensures Transpose(Transpose(a, r, c), c, r) == a
  {
    forall i | 0 <= i < r
      ensures Transpose(Transpose(a, r, c), c, r)[i] == a[i]
    {
    }
  }
}
