/**
 * Floating conditions: the nodes of a floating conductor share one unknown
 * potential. Every node but the last of the condition's sorted node list is
 * tied to the last one by the constraint `u[s[t]] - u[s[last]] = 0`, enforced
 * by one Lagrange multiplier.
 */
module FloatingConditions {
  import opened Base
  import opened Indices
  import opened Dense
  import opened Conditions

  /** The node list of floating condition `key`. */
  function FloatingNodes(p: Problem, key: int): (r: Result<seq<nat>>)
    requires p.mesh.Valid()
    ensures r.Ok? ==> Increasing(r.value) && AllBelow(r.value, NodeBound(p.mesh))
  {
    var regs :- RegionsOf(p, key);
    ConditionNodes(p.mesh, p.regionDim, ForFloating, regs)
  }

  /** The node lists of the floating conditions `keys[i..]`, or the first failure. */
  function FloatingNodeSets(p: Problem, keys: seq<int>, i: nat): (r: Result<seq<seq<nat>>>)
    requires p.mesh.Valid() && i <= |keys|
    ensures r.Ok? <==> forall j :: i <= j < |keys| ==> FloatingNodes(p, keys[j]).Ok?
    ensures r.Ok? ==> |r.value| == |keys| - i
    ensures r.Ok? ==> forall j :: i <= j < |keys| ==> r.value[j - i] == FloatingNodes(p, keys[j]).value
    decreases |keys| - i
  {
    if i == |keys| then Ok([])
    else
      var nodes :- FloatingNodes(p, keys[i]);
      var rest :- FloatingNodeSets(p, keys, i + 1);
      Ok([nodes] + rest)
  }

  /** `_calc_values_for_floating`: one node list per condition, built in a loop. */
  method CalcValuesForFloating(p: Problem, keys: seq<int>) returns (r: Result<seq<seq<nat>>>)
    requires p.mesh.Valid()
    ensures r == FloatingNodeSets(p, keys, 0)
  {
    var all: seq<seq<nat>> := [];
    var i := 0;
    while i < |keys|
      invariant 0 <= i <= |keys| && |all| == i
      invariant forall j :: 0 <= j < i ==> FloatingNodes(p, keys[j]) == Ok(all[j])
    {
      var nodes := FloatingNodes(p, keys[i]);
      if nodes.Err? {
        FirstFailure(p, keys, i, 0);
        return Err(nodes.error);
      }
      all := all + [nodes.value];
      i := i + 1;
    }
    AllSucceed(p, keys, all, 0);
    return Ok(all);
  }

  /** When every condition before `i` resolves and condition `i` fails, the whole resolution fails with its error. */
  lemma {:induction false} FirstFailure(p: Problem, keys: seq<int>, i: nat, j: nat)
    requires p.mesh.Valid() && j <= i < |keys| && FloatingNodes(p, keys[i]).Err?
    requires forall l :: j <= l < i ==> FloatingNodes(p, keys[l]).Ok?
    ensures FloatingNodeSets(p, keys, j) == Err(FloatingNodes(p, keys[i]).error)
    decreases i - j
  {
    if j < i {
      FirstFailure(p, keys, i, j + 1);
    }
  }

  lemma {:induction false} AllSucceed(p: Problem, keys: seq<int>, all: seq<seq<nat>>, j: nat)
    requires p.mesh.Valid() && |all| == |keys| && j <= |keys|
    requires forall l :: 0 <= l < |keys| ==> FloatingNodes(p, keys[l]) == Ok(all[l])
    ensures FloatingNodeSets(p, keys, j) == Ok(all[j..])
    decreases |keys| - j
  {
    if j < |keys| {
      AllSucceed(p, keys, all, j + 1);
      NodeSetsStep(p, keys, j, all[j], all[j + 1..]);
      SliceCons(all, j);
    } else {
      assert all[j..] == [];
    }
  }

  /** One step of `FloatingNodeSets`: condition `j`'s node list in front of the rest. */
  lemma NodeSetsStep(p: Problem, keys: seq<int>, j: nat, nodes: seq<nat>, rest: seq<seq<nat>>)
    requires p.mesh.Valid() && j < |keys|
    requires FloatingNodes(p, keys[j]) == Ok(nodes) && FloatingNodeSets(p, keys, j + 1) == Ok(rest)
    ensures FloatingNodeSets(p, keys, j) == Ok([nodes] + rest)
  {
  }

  lemma SliceCons<T>(s: seq<T>, j: nat)
    requires j < |s|
    ensures s[j..] == [s[j]] + s[j + 1..]
  {
  }

  /**
   * Row `t` of the constraint block of one condition: `+1` at the node `s[t]`
   * and `-1` at the last node `s[|s| - 1]`.
   */
  function SlaveRow(s: seq<nat>, t: nat, n: nat): (row: seq<real>)
    requires t < |s|
    ensures |row| == n
  {
    seq(n, c => TieValue(s, t, c))
  }

  /** Column `col` of that row. */
  function TieValue(s: seq<nat>, t: nat, col: int): real
    requires t < |s|
  {
    (if col == s[t] then 1.0 else 0.0) - (if col == s[|s| - 1] then 1.0 else 0.0)
  }

  /** On a sorted node list the row reads `+1` at `s[t]`, `-1` at the last node and 0 elsewhere. */
  lemma TieValueCases(s: seq<nat>, t: nat, col: int)
    requires Increasing(s) && t + 1 < |s|
    ensures TieValue(s, t, col) == (if col == s[t] then 1.0 else if col == s[|s| - 1] then -1.0 else 0.0)
  {
    assert s[t] < s[|s| - 1];
  }

  /**
   * The constraint block of one condition, `matrix_slave - matrix_master`:
   * `|s| - 1` rows of width `n`. Without any node the row count is negative;
   * with two nodes or more every node must be a column of the system.
   */
  function FloatingBlock(s: seq<nat>, n: nat): (r: Result<Matrix>)
    ensures r.Ok? <==> |s| > 0 && (|s| >= 2 ==> AllBelow(s, n))
    ensures r.Ok? ==> IsShape(r.value, |s| - 1, n)
    ensures r.Ok? ==> forall t :: 0 <= t < |s| - 1 ==> r.value[t] == SlaveRow(s, t, n)
    ensures r.Err? ==> r.error == (if |s| == 0 then NegativeDimension else IndexOutOfRange)
  {
    if |s| == 0 then Err(NegativeDimension)
    else if |s| >= 2 && !AllBelow(s, n) then Err(IndexOutOfRange)
    else Ok(seq(|s| - 1, t requires 0 <= t < |s| - 1 => SlaveRow(s, t, n)))
  }

  /** The number of constraint rows of the conditions before `k`: `sum(nodes.size - 1 ...)`. */
  function RowsBefore(sets: seq<seq<nat>>, k: nat): int
    requires k <= |sets|
  {
    if k == 0 then 0 else RowsBefore(sets, k - 1) + |sets[k - 1]| - 1
  }

  /**
   * The constraint blocks of `sets[i..]`, stacked (`vstack`), or the first
   * failure. The empty stack is only the end of the recursion: `ShrinkFloating`
   * refuses to stack no blocks at all.
   */
  function FloatingMatrix(sets: seq<seq<nat>>, n: nat, i: nat): (r: Result<Matrix>)
    requires i <= |sets|
    ensures r.Ok? <==> forall j :: i <= j < |sets| ==> FloatingBlock(sets[j], n).Ok?
    ensures r.Ok? ==> IsShape(r.value, |r.value|, n) && |r.value| == RowsBefore(sets, |sets|) - RowsBefore(sets, i)
    decreases |sets| - i
  {
    if i == |sets| then Ok([])
    else
      var block :- FloatingBlock(sets[i], n);
      var rest :- FloatingMatrix(sets, n, i + 1);
      RowsBeforeStep(sets, i);
      Ok(block + rest)
  }

  lemma RowsBeforeStep(sets: seq<seq<nat>>, i: nat)
    requires i < |sets|
    ensures RowsBefore(sets, i + 1) == RowsBefore(sets, i) + |sets[i]| - 1
  {
  }

  /**
   * `shrink_floating`: the stacked constraint blocks B of all floating
   * conditions join the system as `[[A, B^T], [B, 0]]` with zeros appended to
   * the right-hand side; one multiplier per node but the last of each
   * condition. Stacking the blocks of no condition at all fails.
   */
  function ShrinkFloating(A: Matrix, b: seq<real>, p: Problem, keys: seq<int>)
    : (r: Result<(Matrix, seq<real>, nat)>)
    requires IsSystem(A, b) && p.mesh.Valid()
    ensures r.Ok? <==> keys != [] && FloatingNodeSets(p, keys, 0).Ok? &&
                       FloatingMatrix(FloatingNodeSets(p, keys, 0).value, |b|, 0).Ok?
    ensures keys == [] ==> r == Err(NothingToConcatenate)
    ensures r.Ok? ==> var sets := FloatingNodeSets(p, keys, 0).value;
      r.value.2 == RowsBefore(sets, |sets|) &&
      Saddle(r.value.0, r.value.1, A, b, FloatingMatrix(sets, |b|, 0).value)
  {
    var sets :- FloatingNodeSets(p, keys, 0);
    var B :- if sets == [] then Err(NothingToConcatenate) else FloatingMatrix(sets, |b|, 0);
    AugmentSaddle(A, b, B);
    Ok((Augment(A, B, |b|, |B|), b + Zeros(|B|), |B|))
  }

  /** Row `RowsBefore(k) - RowsBefore(i) + t` of the blocks of `sets[i..]` is row `t` of condition `k`. */
  lemma {:induction false} FloatingMatrixRow(sets: seq<seq<nat>>, n: nat, i: nat, k: nat, t: nat)
    requires i <= k < |sets| && FloatingMatrix(sets, n, i).Ok? && t < |sets[k]| - 1
    ensures var B := FloatingMatrix(sets, n, i).value; var row := RowsBefore(sets, k) - RowsBefore(sets, i) + t;
      0 <= row < |B| && B[row] == SlaveRow(sets[k], t, n)
    decreases k - i
  {
    var block := FloatingBlock(sets[i], n).value;
    var rest := FloatingMatrix(sets, n, i + 1).value;
    RowsBeforeStep(sets, i);
    var B := FloatingMatrix(sets, n, i).value;
    assert B == block + rest;
    if i < k {
      FloatingMatrixRow(sets, n, i + 1, k, t);
      RowsBeforeMonotone(sets, i + 1, k);
      var row := RowsBefore(sets, k) - RowsBefore(sets, i + 1) + t;
      StackedRow(B, block, rest, |block| + row, SlaveRow(sets[k], t, n));
    } else {
      StackedRow(B, block, rest, t, SlaveRow(sets[k], t, n));
    }
  }

  /** Row `row` of the stack `block + rest`: a row of `block`, or the row `row - |block|` of `rest`. */
  lemma StackedRow<T>(B: seq<T>, block: seq<T>, rest: seq<T>, row: nat, v: T)
    requires B == block + rest && row < |B|
    requires if row < |block| then block[row] == v else rest[row - |block|] == v
    ensures B[row] == v
  {
  }

  /** Every condition of a successful stacking has at least one node, so the row counts grow. */
  lemma {:induction false} RowsBeforeMonotone(sets: seq<seq<nat>>, i: nat, k: nat)
    requires i <= k <= |sets| && forall j :: i <= j < k ==> |sets[j]| > 0
    ensures RowsBefore(sets, i) <= RowsBefore(sets, k)
    decreases k - i
  {
    if i < k {
      RowsBeforeMonotone(sets, i, k - 1);
    }
  }

  /**
   * The layout of the floating constraints: the multiplier of node `t` of
   * condition `k` has the row (and, transposed, the column) reading
   * `u[s[t]] - u[s[last]] = 0`, with a zero right-hand side, and there are
   * `sum(|s| - 1)` of them.
   */
  lemma FloatingConstraintRow(A: Matrix, b: seq<real>, p: Problem, keys: seq<int>, k: nat, t: nat, col: nat)
    requires IsSystem(A, b) && p.mesh.Valid() && ShrinkFloating(A, b, p, keys).Ok?
    requires k < |keys| && t + 1 < |FloatingNodeSets(p, keys, 0).value[k]| && col < |b|
    ensures var r := ShrinkFloating(A, b, p, keys).value;
      var s := FloatingNodeSets(p, keys, 0).value[k];
      var row := |b| + RowsBefore(FloatingNodeSets(p, keys, 0).value, k) + t;
      s == FloatingNodes(p, keys[k]).value &&
      |b| <= row < |r.1| && r.1[row] == 0.0 &&
      r.0[row][col] == (if col == s[t] then 1.0 else if col == s[|s| - 1] then -1.0 else 0.0) &&
      r.0[col][row] == r.0[row][col]
  {
    var sets := FloatingNodeSets(p, keys, 0).value;
    var r := ShrinkFloating(A, b, p, keys).value;
    assert sets[k] == FloatingNodes(p, keys[k]).value;
    SaddleFloatingRow(r.0, r.1, A, b, sets, k, t, col);
    TieValueCases(sets[k], t, col);
  }

  lemma SaddleFloatingRow(M: Matrix, rhs: seq<real>, A: Matrix, b: seq<real>, sets: seq<seq<nat>>, k: nat, t: nat, col: nat)
    requires k < |sets| && FloatingMatrix(sets, |b|, 0).Ok? && t + 1 < |sets[k]| && col < |b|
    requires Saddle(M, rhs, A, b, FloatingMatrix(sets, |b|, 0).value)
    ensures var s := sets[k]; var row := |b| + RowsBefore(sets, k) + t;
      |b| <= row < |rhs| && rhs[row] == 0.0 &&
      M[row][col] == TieValue(s, t, col) &&
      M[col][row] == M[row][col]
  {
    FloatingEntry(sets, |b|, k, t, col);
    SaddleEntry(M, rhs, A, b, FloatingMatrix(sets, |b|, 0).value, RowsBefore(sets, k) + t, col);
  }

  lemma FloatingEntry(sets: seq<seq<nat>>, n: nat, k: nat, t: nat, col: nat)
    requires k < |sets| && FloatingMatrix(sets, n, 0).Ok? && t + 1 < |sets[k]| && col < n
    ensures var B := FloatingMatrix(sets, n, 0).value; var s := sets[k]; var row := RowsBefore(sets, k) + t;
      0 <= row < |B| && B[row][col] == TieValue(s, t, col)
  {
    FloatingMatrixRow(sets, n, 0, k, t);
  }
}
