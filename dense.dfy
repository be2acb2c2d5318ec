/**
 * Dense real matrices and vectors standing for the scipy sparse matrices of
 * the assembled system, with the block operations the reducer uses.
 */
module Dense {
  import opened Indices

  type Matrix = seq<seq<real>>

  predicate IsShape(A: Matrix, rows: nat, cols: nat)
  {
    |A| == rows && forall i :: 0 <= i < rows ==> |A[i]| == cols
  }

  /** A square system matrix of size |b| with its right-hand side b. */
  predicate IsSystem(A: Matrix, b: seq<real>)
  {
    IsShape(A, |b|, |b|)
  }

  function Zeros(k: nat): (z: seq<real>)
    ensures |z| == k && forall i :: 0 <= i < k ==> z[i] == 0.0
  {
    seq(k, _ => 0.0)
  }

  /** `v * np.ones(len)`. */
  function Fill(v: real, len: nat): (s: seq<real>)
    ensures |s| == len && forall i :: 0 <= i < len ==> s[i] == v
  {
    seq(len, _ => v)
  }

  function AddVec(a: seq<real>, b: seq<real>): (r: seq<real>)
    requires |a| == |b|
    ensures |r| == |a| && forall i :: 0 <= i < |a| ==> r[i] == a[i] + b[i]
  {
    seq(|a|, i requires 0 <= i < |a| => a[i] + b[i])
  }

  function AddMat(A: Matrix, B: Matrix, rows: nat, cols: nat): (r: Matrix)
    requires IsShape(A, rows, cols) && IsShape(B, rows, cols)
    ensures IsShape(r, rows, cols)
    ensures forall i, j :: 0 <= i < rows && 0 <= j < cols ==> r[i][j] == A[i][j] + B[i][j]
  {
    seq(rows, i requires 0 <= i < rows => AddVec(A[i], B[i]))
  }

  /**
   * The saddle-point layout `[[A, B^T], [B, 0]]` of an n-by-n matrix A and an
   * m-by-n constraint matrix B.
   */
  function Augment(A: Matrix, B: Matrix, n: nat, m: nat): (r: Matrix)
    requires IsShape(A, n, n) && IsShape(B, m, n)
    ensures IsShape(r, n + m, n + m)
    ensures forall i, j :: 0 <= i < n && 0 <= j < n ==> r[i][j] == A[i][j]
    ensures forall i, j :: 0 <= i < n && n <= j < n + m ==> r[i][j] == B[j - n][i]
    ensures forall i, j :: n <= i < n + m && 0 <= j < n ==> r[i][j] == B[i - n][j]
    ensures forall i, j :: n <= i < n + m && n <= j < n + m ==> r[i][j] == 0.0
  {
    seq(n + m, i requires 0 <= i < n + m =>
      seq(n + m, j requires 0 <= j < n + m =>
        if i < n then (if j < n then A[i][j] else B[j - n][i])
        else (if j < n then B[i - n][j] else 0.0)))
  }

  /**
   * `(M, rhs)` is the system `[[A, B^T], [B, 0]]`, `[b; 0]` built from the
   * system `(A, b)` and the constraint rows `B`, one per Lagrange multiplier.
   */
  predicate Saddle(M: Matrix, rhs: seq<real>, A: Matrix, b: seq<real>, B: Matrix)
  {
    var n := |b|;
    IsSystem(A, b) && IsShape(B, |B|, n) && IsSystem(M, rhs) && |rhs| == n + |B| &&
    rhs[..n] == b && (forall i :: n <= i < |rhs| ==> rhs[i] == 0.0) &&
    (forall i, j :: 0 <= i < n && 0 <= j < n ==> M[i][j] == A[i][j]) &&
    (forall i, j :: 0 <= i < |B| && 0 <= j < n ==> M[n + i][j] == B[i][j] && M[j][n + i] == B[i][j]) &&
    (forall i, j :: n <= i < |rhs| && n <= j < |rhs| ==> M[i][j] == 0.0)
  }

  lemma AugmentSaddle(A: Matrix, b: seq<real>, B: Matrix)
    requires IsSystem(A, b) && IsShape(B, |B|, |b|)
    ensures Saddle(Augment(A, B, |b|, |B|), b + Zeros(|B|), A, b, B)
  {
    var n, m := |b|, |B|;
    var M := Augment(A, B, n, m);
    forall i, j | 0 <= i < m && 0 <= j < n ensures M[n + i][j] == B[i][j] && M[j][n + i] == B[i][j] {
      assert M[n + i][j] == B[n + i - n][j];
      assert M[j][n + i] == B[n + i - n][j];
    }
    assert (b + Zeros(m))[..n] == b;
  }

  /** Entry `(i, col)` of the constraint rows sits at `(n + i, col)` and `(col, n + i)` of the saddle system. */
  lemma SaddleEntry(M: Matrix, rhs: seq<real>, A: Matrix, b: seq<real>, B: Matrix, i: nat, col: nat)
    requires Saddle(M, rhs, A, b, B) && i < |B| && col < |b|
    ensures |b| + i < |rhs| && rhs[|b| + i] == 0.0
    ensures M[|b| + i][col] == B[i][col] && M[col][|b| + i] == B[i][col]
  {
  }

  /** `A[np.ix_(rows, cols)]`. */
  function SubMatrix(A: Matrix, rows: seq<nat>, cols: seq<nat>, n: nat): (r: Matrix)
    requires IsShape(A, n, n) && AllBelow(rows, n) && AllBelow(cols, n)
    ensures IsShape(r, |rows|, |cols|)
    ensures forall i, j :: 0 <= i < |rows| && 0 <= j < |cols| ==> r[i][j] == A[rows[i]][cols[j]]
  {
    seq(|rows|, i requires 0 <= i < |rows| => Gather(A[rows[i]], cols))
  }

  lemma SubMatrixRow(A: Matrix, rows: seq<nat>, cols: seq<nat>, n: nat, i: nat)
    requires IsShape(A, n, n) && AllBelow(rows, n) && AllBelow(cols, n) && i < |rows|
    ensures SubMatrix(A, rows, cols, n)[i] == Gather(A[rows[i]], cols)
  {
  }

  /** The sum of the entries of `w`. */
  function Sum(w: seq<real>): real
  {
    if w == [] then 0.0 else Sum(w[..|w| - 1]) + w[|w| - 1]
  }

  /** The entry-wise products of `u` and `v`. */
  function Products(u: seq<real>, v: seq<real>): (w: seq<real>)
    requires |u| == |v|
    ensures |w| == |u| && forall c :: 0 <= c < |u| ==> w[c] == u[c] * v[c]
  {
    seq(|u|, c requires 0 <= c < |u| => u[c] * v[c])
  }

  function Dot(u: seq<real>, v: seq<real>): real
    requires |u| == |v|
  {
    Sum(Products(u, v))
  }

  /** `A @ x`. */
  function MatVec(A: Matrix, x: seq<real>): (r: seq<real>)
    requires IsShape(A, |A|, |x|)
    ensures |r| == |A| && forall i :: 0 <= i < |A| ==> r[i] == Dot(A[i], x)
  {
    seq(|A|, i requires 0 <= i < |A| => Dot(A[i], x))
  }

  /** The sum of `w[c]` for the `c` in `idx` below `n`. */
  function SumAtBelow(w: seq<real>, idx: seq<nat>, n: nat): real
    requires n <= |w|
  {
    if idx == [] then 0.0
    else
      var k := |idx| - 1;
      SumAtBelow(w, idx[..k], n) + (if idx[k] < n then w[idx[k]] else 0.0)
  }

  lemma {:induction false} SumAtBelowStep(w: seq<real>, idx: seq<nat>, n: nat)
    requires Distinct(idx) && 0 < n <= |w|
    ensures SumAtBelow(w, idx, n) == SumAtBelow(w, idx, n - 1) + (if n - 1 in idx then w[n - 1] else 0.0)
  {
    if idx != [] {
      var k := |idx| - 1;
      assert Distinct(idx[..k]);
      SumAtBelowStep(w, idx[..k], n);
      assert idx == idx[..k] + [idx[k]];
      assert n - 1 in idx <==> n - 1 in idx[..k] || idx[k] == n - 1;
      if idx[k] == n - 1 {
        assert n - 1 !in idx[..k];
      }
    }
  }

  lemma {:induction false} SumAtBelowZero(w: seq<real>, idx: seq<nat>)
    ensures SumAtBelow(w, idx, 0) == 0.0
  {
    if idx != [] {
      SumAtBelowZero(w, idx[..|idx| - 1]);
    }
  }

  /** Below a bound above every index, the restricted sum is the sum of the gathered entries. */
  lemma {:induction false} SumAtBelowAll(w: seq<real>, idx: seq<nat>, n: nat)
    requires AllBelow(idx, n) && n <= |w|
    ensures SumAtBelow(w, idx, n) == Sum(Gather(w, idx))
  {
    if idx != [] {
      var k := |idx| - 1;
      SumAtBelowAll(w, idx[..k], n);
      assert Gather(w, idx)[..k] == Gather(w, idx[..k]);
    }
  }

  lemma ComplementBelow(fixed: seq<nat>, n: nat)
    ensures AllBelow(Complement(fixed, n), n)
  {
    var c := Complement(fixed, n);
    assert forall i :: 0 <= i < |c| ==> c[i] in c;
  }

  lemma {:induction false} SumSplit(w: seq<real>, fixed: seq<nat>, n: nat)
    requires Distinct(fixed) && n <= |w|
    ensures AllBelow(Complement(fixed, n), |w|)
    ensures Sum(w[..n]) == Sum(Gather(w, Complement(fixed, n))) + SumAtBelow(w, fixed, n)
  {
    if n == 0 {
      SumAtBelowZero(w, fixed);
      ComplementBelow(fixed, n);
    } else {
      SumSplit(w, fixed, n - 1);
      SumSplitStep(w, fixed, n);
    }
  }

  lemma SumSplitStep(w: seq<real>, fixed: seq<nat>, n: nat)
    requires Distinct(fixed)
    requires 0 < n <= |w|
    requires AllBelow(Complement(fixed, n - 1), |w|)
    requires Sum(w[..n - 1]) == Sum(Gather(w, Complement(fixed, n - 1))) + SumAtBelow(w, fixed, n - 1)
    ensures AllBelow(Complement(fixed, n), |w|)
    ensures Sum(w[..n]) == Sum(Gather(w, Complement(fixed, n))) + SumAtBelow(w, fixed, n)
  {
    SumAtBelowStep(w, fixed, n);
    PrefixSumStep(w, n);
    ComplementSumStep(w, fixed, n);
  }

  lemma PrefixSumStep(w: seq<real>, n: nat)
    requires 0 < n <= |w|
    ensures Sum(w[..n]) == Sum(w[..n - 1]) + w[n - 1]
  {
    assert w[..n][..n - 1] == w[..n - 1];
  }

  lemma ComplementSumStep(w: seq<real>, fixed: seq<nat>, n: nat)
    requires 0 < n <= |w|
    ensures AllBelow(Complement(fixed, n), |w|) && AllBelow(Complement(fixed, n - 1), |w|)
    ensures Sum(Gather(w, Complement(fixed, n)))
         == Sum(Gather(w, Complement(fixed, n - 1))) + (if n - 1 in fixed then 0.0 else w[n - 1])
  {
    var prev, cur := Complement(fixed, n - 1), Complement(fixed, n);
    ComplementBelow(fixed, n);
    ComplementBelow(fixed, n - 1);
    AllBelowWider(cur, n, |w|);
    AllBelowWider(prev, n - 1, |w|);
    ComplementStep(fixed, n);
    GatherSumStep(w, prev, cur, n - 1, n - 1 !in fixed);
  }

  lemma AllBelowWider(s: seq<nat>, a: nat, b: nat)
    requires AllBelow(s, a) && a <= b
    ensures AllBelow(s, b)
  {
  }

  lemma ComplementStep(fixed: seq<nat>, n: nat)
    requires n > 0
    ensures Complement(fixed, n) == Complement(fixed, n - 1) + (if n - 1 in fixed then [] else [n - 1])
  {
  }

  /** Adding one index to a gathered sum adds its entry. */
  lemma GatherSumStep(w: seq<real>, prev: seq<nat>, cur: seq<nat>, q: nat, add: bool)
    requires AllBelow(prev, |w|) && AllBelow(cur, |w|) && q < |w|
    requires cur == prev + (if add then [q] else [])
    ensures Sum(Gather(w, cur)) == Sum(Gather(w, prev)) + (if add then w[q] else 0.0)
  {
    if add {
      var g := Gather(w, cur);
      assert g[..|prev|] == Gather(w, prev);
    } else {
      assert cur == prev;
    }
  }

  lemma GatherProducts(u: seq<real>, v: seq<real>, idx: seq<nat>)
    requires |u| == |v| && AllBelow(idx, |u|)
    ensures Products(Gather(u, idx), Gather(v, idx)) == Gather(Products(u, v), idx)
  {
    var l := Products(Gather(u, idx), Gather(v, idx));
    var r := Gather(Products(u, v), idx);
    assert forall j :: 0 <= j < |idx| ==> l[j] == r[j];
  }

  /**
   * Splitting a dot product over a partition of the indices into a
   * duplicate-free set `fixed` and its ascending complement.
   */
  lemma DotSplit(u: seq<real>, v: seq<real>, fixed: seq<nat>)
    requires |u| == |v| && Distinct(fixed) && AllBelow(fixed, |u|)
    ensures AllBelow(Complement(fixed, |u|), |u|)
    ensures Dot(u, v)
         == Dot(Gather(u, Complement(fixed, |u|)), Gather(v, Complement(fixed, |u|)))
          + Dot(Gather(u, fixed), Gather(v, fixed))
  {
    var n := |u|;
    var w := Products(u, v);
    var free := Complement(fixed, n);
    SumSplit(w, fixed, n);
    assert w[..n] == w;
    SumAtBelowAll(w, fixed, n);
    GatherProducts(u, v, free);
    GatherProducts(u, v, fixed);
  }

  lemma {:induction false} SumAdd(u: seq<real>, w: seq<real>)
    requires |u| == |w|
    ensures Sum(AddVec(u, w)) == Sum(u) + Sum(w)
  {
    if u != [] {
      var k := |u| - 1;
      SumAdd(u[..k], w[..k]);
      assert AddVec(u, w)[..k] == AddVec(u[..k], w[..k]);
    }
  }

  /** The dot product is linear in its first argument. */
  lemma DotAdd(u: seq<real>, w: seq<real>, x: seq<real>)
    requires |u| == |w| == |x|
    ensures Dot(AddVec(u, w), x) == Dot(u, x) + Dot(w, x)
  {
    var l, r := Products(AddVec(u, w), x), AddVec(Products(u, x), Products(w, x));
    assert forall c :: 0 <= c < |x| ==> l[c] == r[c];
    assert l == r;
    SumAdd(Products(u, x), Products(w, x));
  }
}
