/**
 * The reducer `shrink`: the Neumann and Robin contributions are added, the
 * binary and floating conditions append Lagrange multipliers, and the
 * Dirichlet conditions eliminate their unknowns. The stages run in this
 * order, each only when the problem lists conditions of its kind.
 */
module Reducer {
  import opened Base
  import opened Indices
  import opened Dense
  import opened Conditions
  import opened BinaryConditions
  import opened FloatingConditions
  import opened DirichletConditions

  /**
   * What the shape function's integrators contribute: the Neumann load
   * vector (`neumann_term`) and the Robin matrix and vector (`robin_terms`).
   */
  datatype Terms = Terms(neumann: seq<real>, robinMatrix: Matrix, robinRhs: seq<real>)

  /** `shrink_neumann`: the Neumann load vector is added to the right-hand side. */
  function ShrinkNeumann(b: seq<real>, term: seq<real>): (r: Result<seq<real>>)
    ensures r.Ok? <==> |term| == |b|
    ensures r.Err? ==> r.error == ShapeMismatch
    ensures r.Ok? ==> |r.value| == |b| && forall i :: 0 <= i < |b| ==> r.value[i] == b[i] + term[i]
  {
    if |term| != |b| then Err(ShapeMismatch) else Ok(AddVec(b, term))
  }

  /** `shrink_robin`: the Robin matrix and vector are added to the system. */
  function ShrinkRobin(A: Matrix, b: seq<real>, M: Matrix, v: seq<real>): (r: Result<(Matrix, seq<real>)>)
    requires IsSystem(A, b)
    ensures r.Ok? <==> IsSystem(M, b) && |v| == |b|
    ensures r.Err? ==> r.error == ShapeMismatch
    ensures r.Ok? ==> IsSystem(r.value.0, r.value.1) && |r.value.1| == |b|
    ensures r.Ok? ==> forall i, j :: 0 <= i < |b| && 0 <= j < |b| ==> r.value.0[i][j] == A[i][j] + M[i][j]
    ensures r.Ok? ==> forall i :: 0 <= i < |b| ==> r.value.1[i] == b[i] + v[i]
  {
    if !IsSystem(M, b) || |v| != |b| then Err(ShapeMismatch)
    else Ok((AddMat(A, M, |b|, |b|), AddVec(b, v)))
  }

  /**
   * At every vector, each equation of the Robin-shrunk system has the
   * residual of the original equation plus that of the Robin term.
   */
  lemma ShrinkRobinResidual(A: Matrix, b: seq<real>, M: Matrix, v: seq<real>, x: seq<real>)
    requires IsSystem(A, b) && ShrinkRobin(A, b, M, v).Ok? && |x| == |b|
    ensures var s := ShrinkRobin(A, b, M, v).value;
      forall i :: 0 <= i < |b| ==> Dot(s.0[i], x) - s.1[i] == (Dot(A[i], x) - b[i]) + (Dot(M[i], x) - v[i])
  {
    var s := ShrinkRobin(A, b, M, v).value;
    forall i | 0 <= i < |b|
      ensures Dot(s.0[i], x) - s.1[i] == (Dot(A[i], x) - b[i]) + (Dot(M[i], x) - v[i])
    {
      assert s.0[i] == AddVec(A[i], M[i]);
      DotAdd(A[i], M[i], x);
    }
  }

  /** The system after the Neumann, Robin, binary and floating stages, with the two multiplier counts. */
  datatype Constrained = Constrained(matrix: Matrix, rhs: seq<real>, numBinary: nat, numFloating: nat)

  /** The Neumann and Robin stages, each only when the problem lists conditions of its kind. */
  function Load(A: Matrix, b: seq<real>, k: Kinds, t: Terms): (r: Result<(Matrix, seq<real>)>)
    requires IsSystem(A, b)
    ensures r.Ok? ==> IsSystem(r.value.0, r.value.1) && |r.value.1| == |b|
    ensures k.neumann == [] && k.robin == [] ==> r == Ok((A, b))
  {
    var b1 :- if k.neumann != [] then ShrinkNeumann(b, t.neumann) else Ok(b);
    if k.robin != [] then ShrinkRobin(A, b1, t.robinMatrix, t.robinRhs) else Ok((A, b1))
  }

  /** The binary stage: the system grows by the binary multipliers. */
  function BinaryStage(A: Matrix, b: seq<real>, p: Problem): (r: Result<(Matrix, seq<real>, nat)>)
    requires IsSystem(A, b)
    ensures r.Ok? ==> IsSystem(r.value.0, r.value.1) && |r.value.1| == |b| + r.value.2
    ensures p.kinds.binary == [] ==> r == Ok((A, b, 0))
  {
    if p.kinds.binary == [] then Ok((A, b, 0))
    else ShrinkBinary(A, b, p.conditions, p.kinds.binary)
  }

  /** The floating stage: the system grows by the floating multipliers. */
  function FloatingStage(A: Matrix, b: seq<real>, p: Problem): (r: Result<(Matrix, seq<real>, nat)>)
    requires IsSystem(A, b) && p.mesh.Valid()
    ensures r.Ok? ==> IsSystem(r.value.0, r.value.1) && |r.value.1| == |b| + r.value.2
    ensures p.kinds.floating == [] ==> r == Ok((A, b, 0))
  {
    if p.kinds.floating == [] then Ok((A, b, 0))
    else ShrinkFloating(A, b, p, p.kinds.floating)
  }

  /**
   * The first four stages of `shrink`. Every stage keeps the system square,
   * and the binary and floating stages grow it by their multipliers.
   */
  function Constrain(A: Matrix, b: seq<real>, p: Problem, t: Terms): (r: Result<Constrained>)
    requires IsSystem(A, b) && p.mesh.Valid()
    ensures r.Ok? ==> IsSystem(r.value.matrix, r.value.rhs)
    ensures r.Ok? ==> |r.value.rhs| == |b| + r.value.numBinary + r.value.numFloating
    ensures r.Ok? && p.kinds.binary == [] ==> r.value.numBinary == 0
    ensures r.Ok? && p.kinds.floating == [] ==> r.value.numFloating == 0
  {
    var s1 :- Load(A, b, p.kinds, t);
    var s2 :- BinaryStage(s1.0, s1.1, p);
    var s3 :- FloatingStage(s2.0, s2.1, p);
    Ok(Constrained(s3.0, s3.1, s2.2, s3.2))
  }

  /** The Dirichlet entries of the support data: fixed indices, free indices and fixed values. */
  datatype DirichletSupport = DirichletSupport(fixed: seq<nat>, free: seq<nat>, values: seq<real>)

  /**
   * The support data `shrink` returns for `inflate`. The floating count is
   * an integer because `compute_support_data` sums `size - 1` over node
   * lists that may be empty.
   */
  datatype SupportData = SupportData(numBinary: nat, numFloating: int, dirichlet: Option<DirichletSupport>)

  /** What `shrink` returns: the reduced system, the eliminated indices, the multiplier count and the support data. */
  datatype Reduced = Reduced(matrix: Matrix, rhs: seq<real>, notDof: seq<nat>, numMultipliers: nat, support: SupportData)

  /**
   * The last stage of `shrink`: the Dirichlet elimination of the constrained
   * system, when there are Dirichlet conditions.
   */
  function Reduce(c: Constrained, p: Problem): (r: Result<Reduced>)
    requires IsSystem(c.matrix, c.rhs) && p.mesh.Valid()
    ensures r.Ok? <==> (p.kinds.dirichlet != [] ==> ShrinkDirichlet(c.matrix, c.rhs, p, p.kinds.dirichlet).Ok?)
    ensures r.Ok? ==> IsSystem(r.value.matrix, r.value.rhs)
    ensures r.Ok? ==> r.value.support.numBinary == c.numBinary && r.value.support.numFloating == c.numFloating &&
                      r.value.numMultipliers == c.numBinary + c.numFloating
    ensures r.Ok? ==> (r.value.support.dirichlet.Some? <==> p.kinds.dirichlet != [])
    ensures r.Ok? ==> r.value.notDof == (if p.kinds.dirichlet == [] then [] else r.value.support.dirichlet.value.fixed)
  {
    var m := c.numBinary + c.numFloating;
    if p.kinds.dirichlet == [] then
      Ok(Reduced(c.matrix, c.rhs, [], m, SupportData(c.numBinary, c.numFloating, None)))
    else
      var e :- ShrinkDirichlet(c.matrix, c.rhs, p, p.kinds.dirichlet);
      Ok(Reduced(e.matrix, e.rhs, e.fixed, m,
                 SupportData(c.numBinary, c.numFloating, Some(DirichletSupport(e.fixed, e.free, e.values)))))
  }

  /** `shrink`: the four constraining stages followed by the Dirichlet elimination. */
  function Shrink(A: Matrix, b: seq<real>, p: Problem, t: Terms): (r: Result<Reduced>)
    requires IsSystem(A, b) && p.mesh.Valid()
    ensures var c := Constrain(A, b, p, t);
      r.Ok? <==> c.Ok? && (p.kinds.dirichlet != [] ==> ShrinkDirichlet(c.value.matrix, c.value.rhs, p, p.kinds.dirichlet).Ok?)
    ensures r.Ok? ==> IsSystem(r.value.matrix, r.value.rhs)
    ensures r.Ok? ==> r.value.numMultipliers == r.value.support.numBinary + r.value.support.numFloating
    ensures r.Ok? ==> (r.value.support.dirichlet.Some? <==> p.kinds.dirichlet != [])
    ensures r.Ok? ==> r.value.notDof == (if p.kinds.dirichlet == [] then [] else r.value.support.dirichlet.value.fixed)
  {
    var c :- Constrain(A, b, p, t);
    Reduce(c, p)
  }

  predicate NoConditions(k: Kinds)
  {
    k.dirichlet == [] && k.neumann == [] && k.robin == [] && k.binary == [] && k.floating == []
  }

  /** A problem without boundary conditions leaves the system as it is. */
  lemma ShrinkWithoutConditions(A: Matrix, b: seq<real>, p: Problem, t: Terms)
    requires IsSystem(A, b) && p.mesh.Valid() && NoConditions(p.kinds)
    ensures Shrink(A, b, p, t) == Ok(Reduced(A, b, [], 0, SupportData(0, 0, None)))
  {
  }

  /**
   * What inflating relies on in the support data of a system of `size`
   * unknowns (the original ones followed by the multipliers): Dirichlet
   * entries exactly when there are Dirichlet conditions, duplicate-free fixed
   * indices inside the system with one value each, the free indices their
   * complement, and no multipliers for a kind without conditions.
   */
  predicate Consistent(sd: SupportData, k: Kinds, size: nat)
  {
    (sd.dirichlet.Some? <==> k.dirichlet != []) &&
    sd.numFloating >= 0 &&
    (k.binary == [] ==> sd.numBinary == 0) && (k.floating == [] ==> sd.numFloating == 0) &&
    (sd.dirichlet.Some? ==> Splits(sd.dirichlet.value, size))
  }

  /**
   * The Dirichlet entries split `size` unknowns: duplicate-free fixed indices
   * with one value each, and the free indices their complement.
   */
  predicate Splits(d: DirichletSupport, size: nat)
  {
    var n := |d.fixed| + |d.free|;
    n == size && Distinct(d.fixed) && |d.values| == |d.fixed| &&
    d.free == Complement(d.fixed, n) && AllBelow(d.fixed, n) && AllBelow(d.free, n)
  }

  /** The Dirichlet elimination splits the unknowns of the system it is given. */
  lemma EliminationSplits(M: Matrix, rhs: seq<real>, p: Problem)
    requires IsSystem(M, rhs) && p.mesh.Valid() && ShrinkDirichlet(M, rhs, p, p.kinds.dirichlet).Ok?
    ensures var e := ShrinkDirichlet(M, rhs, p, p.kinds.dirichlet).value;
      Splits(DirichletSupport(e.fixed, e.free, e.values), |rhs|) && |e.rhs| == |e.free|
  {
    ShrinkDirichletPartition(M, rhs, p, p.kinds.dirichlet);
    var e := ShrinkDirichlet(M, rhs, p, p.kinds.dirichlet).value;
    SplitsOf(e.fixed, e.free, e.values, |rhs|);
  }

  /** Duplicate-free fixed indices below `n` and their complement split `0..n-1`. */
  lemma SplitsOf(fixed: seq<nat>, free: seq<nat>, values: seq<real>, n: nat)
    requires Distinct(fixed) && AllBelow(fixed, n) && free == Complement(fixed, n) && |values| == |fixed|
    ensures Splits(DirichletSupport(fixed, free, values), n)
  {
    ComplementSize(fixed, n);
    ComplementBelow(fixed, n);
  }

  /**
   * The support data of the Dirichlet stage is consistent with the
   * constrained system; the unknowns of the reduced system and the
   * eliminated ones together are those of the constrained system, and the
   * eliminated ones are duplicate-free.
   */
  lemma ReduceConsistent(c: Constrained, p: Problem)
    requires IsSystem(c.matrix, c.rhs) && p.mesh.Valid() && Reduce(c, p).Ok?
    requires p.kinds.binary == [] ==> c.numBinary == 0
    requires p.kinds.floating == [] ==> c.numFloating == 0
    ensures var r := Reduce(c, p).value;
      Consistent(r.support, p.kinds, |c.rhs|) && Distinct(r.notDof) && |r.rhs| + |r.notDof| == |c.rhs| &&
      (r.support.dirichlet.Some? ==> |r.rhs| == |r.support.dirichlet.value.free|)
  {
    if p.kinds.dirichlet != [] {
      EliminationSplits(c.matrix, c.rhs, p);
    }
  }

  /**
   * The support data of `shrink` is consistent with the constrained system
   * of `|b|` unknowns and the multipliers; the unknowns of the reduced system
   * and the eliminated ones together are the original unknowns plus one per
   * multiplier, and the eliminated ones are duplicate-free.
   */
  lemma ShrinkConsistent(A: Matrix, b: seq<real>, p: Problem, t: Terms)
    requires IsSystem(A, b) && p.mesh.Valid() && Shrink(A, b, p, t).Ok?
    ensures var r := Shrink(A, b, p, t).value; var n := |b| + r.numMultipliers;
      Consistent(r.support, p.kinds, n) && Distinct(r.notDof) && |r.rhs| + |r.notDof| == n &&
      (r.support.dirichlet.Some? ==> |r.rhs| == |r.support.dirichlet.value.free|)
  {
    var c := Constrain(A, b, p, t).value;
    ReduceConsistent(c, p);
  }

  /**
   * A vector of the constrained system that takes the Dirichlet values at
   * the fixed indices satisfies the constrained equations of the free
   * unknowns exactly where its free part satisfies the reduced system.
   */
  lemma ShrinkKeepsEquations(A: Matrix, b: seq<real>, p: Problem, t: Terms, x: seq<real>)
    requires IsSystem(A, b) && p.mesh.Valid() && Shrink(A, b, p, t).Ok?
    requires Shrink(A, b, p, t).value.support.dirichlet.Some?
    requires var r := Shrink(A, b, p, t).value; var d := r.support.dirichlet.value;
      |x| == |b| + r.numMultipliers && AllBelow(d.fixed, |x|) && Gather(x, d.fixed) == d.values
    ensures var c := Constrain(A, b, p, t).value; var r := Shrink(A, b, p, t).value; var d := r.support.dirichlet.value;
      AllBelow(d.free, |x|) && |c.rhs| == |x| &&
      forall i :: 0 <= i < |d.free| ==>
        Dot(r.matrix[i], Gather(x, d.free)) - r.rhs[i] == Dot(c.matrix[d.free[i]], x) - c.rhs[d.free[i]]
  {
    var c := Constrain(A, b, p, t).value;
    ShrinkDirichletKeepsEquations(c.matrix, c.rhs, p, p.kinds.dirichlet, x);
  }
}
