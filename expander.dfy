/**
 * The expander `inflate`: the solution of the reduced system is scattered
 * back to the free unknowns, the Dirichlet values fill the fixed ones, and
 * the trailing floating and binary multipliers are dropped. Missing support
 * data is recomputed from the problem and the size of the solution.
 */
module Expander {
  import opened Base
  import opened Indices
  import opened Dense
  import opened Conditions
  import opened BinaryConditions
  import opened FloatingConditions
  import opened DirichletConditions
  import opened Reducer

  function Min(a: int, b: int): int
  {
    if a < b then a else b
  }

  /**
   * Python's `s[:stop]`: a negative stop counts from the end, and a stop
   * outside the sequence is clamped to it.
   */
  function SlicePrefix<T>(s: seq<T>, stop: int): (r: seq<T>)
    ensures |r| == (if 0 <= stop then Min(stop, |s|) else if 0 <= stop + |s| then stop + |s| else 0)
    ensures r == s[..|r|]
  {
    if 0 <= stop then s[..Min(stop, |s|)]
    else if 0 <= stop + |s| then s[..stop + |s|]
    else []
  }

  /**
   * `inflate_floating` and `inflate_binary`: `solution[:len(solution) - m]`,
   * the solution without its last `m` entries.
   */
  function DropMultipliers(s: seq<real>, m: int): (r: seq<real>)
    ensures 0 <= m <= |s| ==> |r| == |s| - m && r + s[|s| - m..] == s
    ensures m < 0 ==> r == s
  {
    SlicePrefix(s, |s| - m)
  }

  /** Dropping as many entries as were appended gives back the original. */
  lemma DropAppended(x: seq<real>, y: seq<real>)
    ensures DropMultipliers(x + y, |y|) == x
  {
    assert (x + y)[..|x|] == x;
  }

  /** numpy's broadcasting rule for `out[idx] = vals`: one value per index, or one value for all of them. */
  predicate Broadcasts(vals: seq<real>, count: nat)
  {
    |vals| == count || |vals| == 1
  }

  /** The value written at the `j`-th index. */
  function ValueAt(vals: seq<real>, count: nat, j: nat): real
    requires Broadcasts(vals, count) && j < count
  {
    if |vals| == 1 then vals[0] else vals[j]
  }

  /** `out[idx[..j]] = vals`, index by index, so that a repeated index keeps its last value. */
  function Assign(out: seq<real>, idx: seq<nat>, vals: seq<real>, j: nat): (r: seq<real>)
    requires j <= |idx| && AllBelow(idx, |out|) && Broadcasts(vals, |idx|)
    ensures |r| == |out|
  {
    if j == 0 then out else Assign(out, idx, vals, j - 1)[idx[j - 1] := ValueAt(vals, |idx|, j - 1)]
  }

  /** An index outside `idx[..j]` keeps its value. */
  lemma {:induction false} AssignElsewhere(out: seq<real>, idx: seq<nat>, vals: seq<real>, j: nat, q: nat)
    requires j <= |idx| && AllBelow(idx, |out|) && Broadcasts(vals, |idx|) && q < |out|
    requires forall i :: 0 <= i < j ==> idx[i] != q
    ensures Assign(out, idx, vals, j)[q] == out[q]
  {
    if j > 0 {
      AssignElsewhere(out, idx, vals, j - 1, q);
    }
  }

  /** Without repeated indices, each index holds its own value. */
  lemma {:induction false} AssignAt(out: seq<real>, idx: seq<nat>, vals: seq<real>, j: nat, i: nat)
    requires j <= |idx| && AllBelow(idx, |out|) && Broadcasts(vals, |idx|) && Distinct(idx) && i < j
    ensures Assign(out, idx, vals, j)[idx[i]] == ValueAt(vals, |idx|, i)
  {
    if i < j - 1 {
      AssignAt(out, idx, vals, j - 1, i);
    }
  }

  /** `out[idx] = vals` on an array. */
  method Scatter(a: array<real>, idx: seq<nat>, vals: seq<real>)
    requires AllBelow(idx, a.Length) && Broadcasts(vals, |idx|)
    modifies a
    ensures a[..] == Assign(old(a[..]), idx, vals, |idx|)
  {
    for j := 0 to |idx|
      invariant a[..] == Assign(old(a[..]), idx, vals, j)
    {
      a[idx[j]] := ValueAt(vals, |idx|, j);
    }
  }

  /** The checks `inflate_dirichlet` passes: the values broadcast to their indices and the indices lie inside the array. */
  predicate Scatterable(sol: seq<real>, fixed: seq<nat>, values: seq<real>, free: seq<nat>)
  {
    var n := |fixed| + |free|;
    Broadcasts(sol, |free|) && AllBelow(free, n) && Broadcasts(values, |fixed|) && AllBelow(fixed, n)
  }

  /** The vector `inflate_dirichlet` builds once its checks pass. */
  function Scattered(sol: seq<real>, fixed: seq<nat>, values: seq<real>, free: seq<nat>): (y: seq<real>)
    requires Scatterable(sol, fixed, values, free)
    ensures |y| == |fixed| + |free|
  {
    Assign(Assign(Zeros(|fixed| + |free|), free, sol, |free|), fixed, values, |fixed|)
  }

  /**
   * `inflate_dirichlet`: an array of `|fixed| + |free|` entries receives the
   * reduced solution at the free indices and then the Dirichlet values at
   * the fixed ones. Each assignment first checks that its values broadcast
   * to its indices, then that the indices lie inside the array. The entries
   * that neither assignment reaches are left at zero here, where `np.empty`
   * leaves them unspecified.
   */
  function InflateDirichletSpec(sol: seq<real>, fixed: seq<nat>, values: seq<real>, free: seq<nat>): (r: Result<seq<real>>)
    ensures r.Ok? <==> Scatterable(sol, fixed, values, free)
    ensures var n := |fixed| + |free|;
      r.Err? ==> r.error == (if !Broadcasts(sol, |free|) then ShapeMismatch
                            else if !AllBelow(free, n) then IndexOutOfRange
                            else if !Broadcasts(values, |fixed|) then ShapeMismatch
                            else IndexOutOfRange)
    ensures r.Ok? ==> r.value == Scattered(sol, fixed, values, free)
  {
    var n := |fixed| + |free|;
    if !Broadcasts(sol, |free|) then Err(ShapeMismatch)
    else if !AllBelow(free, n) then Err(IndexOutOfRange)
    else if !Broadcasts(values, |fixed|) then Err(ShapeMismatch)
    else if !AllBelow(fixed, n) then Err(IndexOutOfRange)
    else Ok(Scattered(sol, fixed, values, free))
  }

  method InflateDirichlet(sol: seq<real>, fixed: seq<nat>, values: seq<real>, free: seq<nat>) returns (r: Result<seq<real>>)
    ensures r == InflateDirichletSpec(sol, fixed, values, free)
  {
    var n := |fixed| + |free|;
    var out := new real[n](_ => 0.0);
    assert out[..] == Zeros(n);
    if !Broadcasts(sol, |free|) {
      return Err(ShapeMismatch);
    }
    if !AllBelow(free, n) {
      return Err(IndexOutOfRange);
    }
    Scatter(out, free, sol);
    if !Broadcasts(values, |fixed|) {
      return Err(ShapeMismatch);
    }
    if !AllBelow(fixed, n) {
      return Err(IndexOutOfRange);
    }
    Scatter(out, fixed, values);
    return Ok(out[..]);
  }

  /**
   * With duplicate-free index lists, a fixed index holds its Dirichlet value
   * and a free index that is not also fixed holds its entry of the solution.
   */
  lemma ScatteredAt(sol: seq<real>, fixed: seq<nat>, values: seq<real>, free: seq<nat>, q: nat)
    requires Scatterable(sol, fixed, values, free) && Distinct(fixed) && Distinct(free) && q < |fixed| + |free|
    ensures q in fixed ==> Scattered(sol, fixed, values, free)[q] == ValueAt(values, |fixed|, IndexOf(fixed, q))
    ensures q !in fixed && q in free ==> Scattered(sol, fixed, values, free)[q] == ValueAt(sol, |free|, IndexOf(free, q))
  {
    var mid := Assign(Zeros(|fixed| + |free|), free, sol, |free|);
    if q in fixed {
      AssignAt(mid, fixed, values, |fixed|, IndexOf(fixed, q));
    } else if q in free {
      AssignElsewhere(mid, fixed, values, |fixed|, q);
      AssignAt(Zeros(|fixed| + |free|), free, sol, |free|, IndexOf(free, q));
    }
  }

  /**
   * A vector taking the Dirichlet values at duplicate-free fixed indices is
   * recovered from its free part: restricting to the free indices and
   * inflating is the identity.
   */
  lemma InflateDirichletRoundTrip(x: seq<real>, fixed: seq<nat>, values: seq<real>, free: seq<nat>)
    requires Distinct(fixed) && AllBelow(fixed, |x|) && Gather(x, fixed) == values
    requires free == Complement(fixed, |x|) && AllBelow(free, |x|)
    ensures InflateDirichletSpec(Gather(x, free), fixed, values, free) == Ok(x)
  {
    var sol := Gather(x, free);
    ComplementSize(fixed, |x|);
    IncreasingIsDistinct(free);
    var y := Scattered(sol, fixed, values, free);
    forall q | 0 <= q < |x| ensures y[q] == x[q] {
      ScatteredAt(sol, fixed, values, free, q);
      if q in fixed {
        var i := IndexOf(fixed, q);
        assert y[q] == values[i] == x[fixed[i]];
      } else {
        assert q in free;
        var i := IndexOf(free, q);
        assert y[q] == sol[i] == x[free[i]];
      }
    }
    assert y == x;
  }

  /**
   * Conversely, the inflated vector holds the reduced solution at the free
   * indices and the Dirichlet values at the fixed ones.
   */
  lemma InflateDirichletRestores(sol: seq<real>, fixed: seq<nat>, values: seq<real>, free: seq<nat>, n: nat)
    requires Distinct(fixed) && AllBelow(fixed, n) && |values| == |fixed|
    requires free == Complement(fixed, n) && |sol| == |free|
    ensures var r := InflateDirichletSpec(sol, fixed, values, free);
      r.Ok? && |r.value| == n && AllBelow(free, n) && Gather(r.value, free) == sol && Gather(r.value, fixed) == values
  {
    ComplementSize(fixed, n);
    ComplementBelow(fixed, n);
    IncreasingIsDistinct(free);
    ScatteredRestores(sol, fixed, values, free);
  }

  /** With disjoint duplicate-free index lists, both assignments can be read back. */
  lemma ScatteredRestores(sol: seq<real>, fixed: seq<nat>, values: seq<real>, free: seq<nat>)
    requires Scatterable(sol, fixed, values, free) && Distinct(fixed) && Distinct(free)
    requires |values| == |fixed| && |sol| == |free|
    requires forall q :: q in free ==> q !in fixed
    ensures var y := Scattered(sol, fixed, values, free);
      AllBelow(free, |y|) && AllBelow(fixed, |y|) && Gather(y, free) == sol && Gather(y, fixed) == values
  {
    var y := Scattered(sol, fixed, values, free);
    forall i | 0 <= i < |free| ensures y[free[i]] == sol[i] {
      assert free[i] in free;
      ScatteredAt(sol, fixed, values, free, free[i]);
    }
    forall i | 0 <= i < |fixed| ensures y[fixed[i]] == values[i] {
      assert fixed[i] in fixed;
      ScatteredAt(sol, fixed, values, free, fixed[i]);
    }
  }

  /** The binary multiplier count of `compute_support_data`, with the intended count. */
  function BinarySupport(p: Problem): (r: Result<nat>)
    ensures p.kinds.binary == [] ==> r == Ok(0)
    ensures p.kinds.binary != [] ==>
      (r.Ok? <==> BinaryFrom(p.conditions, p.kinds.binary, 0) && Flatten(BinaryBlocks(p.conditions, p.kinds.binary).value.lines) != [])
    ensures r.Ok? && p.kinds.binary != [] ==> var rows := Flatten(BinaryBlocks(p.conditions, p.kinds.binary).value.lines);
      AllBelow(rows, r.value) && r.value - 1 in rows
  {
    if p.kinds.binary == [] then Ok(0)
    else
      var bl :- BinaryBlocks(p.conditions, p.kinds.binary);
      BinaryCount(bl)
  }

  /** The floating multiplier count of `compute_support_data`: `sum(nodes.size - 1 ...)`. */
  function FloatingSupport(p: Problem): (r: Result<int>)
    requires p.mesh.Valid()
    ensures p.kinds.floating == [] ==> r == Ok(0)
    ensures r.Ok? <==> p.kinds.floating == [] || FloatingNodeSets(p, p.kinds.floating, 0).Ok?
  {
    if p.kinds.floating == [] then Ok(0)
    else
      var sets :- FloatingNodeSets(p, p.kinds.floating, 0);
      Ok(RowsBefore(sets, |sets|))
  }

  /**
   * The Dirichlet support data of `compute_support_data`: the concatenated
   * node lists and values, and as free indices the complement of the fixed
   * ones within `0..size + |fixed| - 1`.
   */
  function DirichletSupportFor(p: Problem, size: nat): (r: Result<Option<DirichletSupport>>)
    requires p.mesh.Valid()
    ensures r.Ok? ==> (r.value.Some? <==> p.kinds.dirichlet != [])
    ensures r.Ok? && r.value.Some? ==> var d := r.value.value;
      Distinct(d.fixed) && |d.values| == |d.fixed|
  {
    if p.kinds.dirichlet == [] then Ok(None)
    else
      var d :- DirichletData(p, p.kinds.dirichlet);
      var fixed := Flatten(d.nodes);
      DirichletFixedDistinct(p, p.kinds.dirichlet);
      FlattenSameShape(d.nodes, d.values);
      Ok(Some(DirichletSupport(fixed, Complement(fixed, size + |fixed|), Flatten(d.values))))
  }

  /** `compute_support_data` as a value. */
  function SupportDataFor(p: Problem, size: nat): (r: Result<SupportData>)
    requires p.mesh.Valid()
  {
    var nb :- BinarySupport(p);
    var nf :- FloatingSupport(p);
    var d :- DirichletSupportFor(p, size);
    Ok(SupportData(nb, nf, d))
  }

  /** `compute_support_data`, with the binary count as intended. */
  method ComputeSupportData(p: Problem, size: nat) returns (r: Result<SupportData>)
    requires p.mesh.Valid()
    ensures r == SupportDataFor(p, size)
  {
    var nb :- ComputeBinaryCount(p);
    var nf :- ComputeFloatingCount(p);
    var dir :- ComputeDirichletSupport(p, size);
    return Ok(SupportData(nb, nf, dir));
  }

  method ComputeBinaryCount(p: Problem) returns (r: Result<nat>)
    ensures r == BinarySupport(p)
  {
    if p.kinds.binary == [] {
      return Ok(0);
    }
    var bl :- CalcValuesForBinary(p.conditions, p.kinds.binary);
    r := BinaryCount(bl);
  }

  method ComputeFloatingCount(p: Problem) returns (r: Result<int>)
    requires p.mesh.Valid()
    ensures r == FloatingSupport(p)
  {
    if p.kinds.floating == [] {
      return Ok(0);
    }
    var sets :- CalcValuesForFloating(p, p.kinds.floating);
    var sum := 0;
    for j := 0 to |sets|
      invariant sum == RowsBefore(sets, j)
    {
      sum := sum + |sets[j]| - 1;
    }
    return Ok(sum);
  }

  method ComputeDirichletSupport(p: Problem, size: nat) returns (r: Result<Option<DirichletSupport>>)
    requires p.mesh.Valid()
    ensures r == DirichletSupportFor(p, size)
  {
    if p.kinds.dirichlet == [] {
      return Ok(None);
    }
    var d :- CalcValuesForDirichlet(p, p.kinds.dirichlet);
    var fixed := Flatten(d.nodes);
    return Ok(Some(DirichletSupport(fixed, Complement(fixed, size + |fixed|), Flatten(d.values))));
  }

  /**
   * The support data `compute_support_data` derives from the size of the
   * reduced solution is the support data `shrink` returned.
   */
  lemma SupportDataMatchesShrink(A: Matrix, b: seq<real>, p: Problem, t: Terms)
    requires IsSystem(A, b) && p.mesh.Valid() && Shrink(A, b, p, t).Ok?
    ensures SupportDataFor(p, |Shrink(A, b, p, t).value.rhs|) == Ok(Shrink(A, b, p, t).value.support)
  {
    var r := Shrink(A, b, p, t).value;
    var s1 := Load(A, b, p.kinds, t).value;
    var s2 := BinaryStage(s1.0, s1.1, p).value;
    var s3 := FloatingStage(s2.0, s2.1, p).value;
    assert r.support.numBinary == s2.2 && r.support.numFloating == s3.2;
    BinaryStageMatches(s1.0, s1.1, p);
    FloatingStageMatches(s2.0, s2.1, p);
    DirichletStageMatches(A, b, p, t);
    assert SupportDataFor(p, |r.rhs|) == Ok(SupportData(r.support.numBinary, r.support.numFloating, r.support.dirichlet));
  }

  lemma DirichletStageMatches(A: Matrix, b: seq<real>, p: Problem, t: Terms)
    requires IsSystem(A, b) && p.mesh.Valid() && Shrink(A, b, p, t).Ok?
    ensures DirichletSupportFor(p, |Shrink(A, b, p, t).value.rhs|) == Ok(Shrink(A, b, p, t).value.support.dirichlet)
  {
    if p.kinds.dirichlet != [] {
      var c := Constrain(A, b, p, t).value;
      EliminationSupport(c.matrix, c.rhs, p);
    }
  }

  lemma EliminationSupport(M: Matrix, rhs: seq<real>, p: Problem)
    requires IsSystem(M, rhs) && p.mesh.Valid() && p.kinds.dirichlet != []
    requires ShrinkDirichlet(M, rhs, p, p.kinds.dirichlet).Ok?
    ensures var e := ShrinkDirichlet(M, rhs, p, p.kinds.dirichlet).value;
      DirichletSupportFor(p, |e.rhs|) == Ok(Some(DirichletSupport(e.fixed, e.free, e.values)))
  {
    var e := ShrinkDirichlet(M, rhs, p, p.kinds.dirichlet).value;
    ShrinkDirichletPartition(M, rhs, p, p.kinds.dirichlet);
    assert |e.rhs| + |e.fixed| == |rhs|;
  }

  lemma BinaryStageMatches(A: Matrix, b: seq<real>, p: Problem)
    requires IsSystem(A, b) && BinaryStage(A, b, p).Ok?
    ensures BinarySupport(p) == Ok(BinaryStage(A, b, p).value.2)
  {
    if p.kinds.binary != [] {
      BinaryCountMatchesShrink(A, b, p.conditions, p.kinds.binary);
    }
  }

  lemma FloatingStageMatches(A: Matrix, b: seq<real>, p: Problem)
    requires IsSystem(A, b) && p.mesh.Valid() && FloatingStage(A, b, p).Ok?
    ensures FloatingSupport(p) == Ok(FloatingStage(A, b, p).value.2)
  {
  }

  /** The Dirichlet stage of `inflate`; a Dirichlet entry that is None fails. */
  function ExpandDirichlet(sol: seq<real>, p: Problem, sd: SupportData): (r: Result<seq<real>>)
  {
    if p.kinds.dirichlet == [] then Ok(sol)
    else if sd.dirichlet.None? then Err(MissingSupportData)
    else InflateDirichletSpec(sol, sd.dirichlet.value.fixed, sd.dirichlet.value.values, sd.dirichlet.value.free)
  }

  /** The floating and then the binary stage of `inflate`. */
  function DropStages(x: seq<real>, p: Problem, sd: SupportData): seq<real>
  {
    var y := if p.kinds.floating != [] then DropMultipliers(x, sd.numFloating) else x;
    if p.kinds.binary != [] then DropMultipliers(y, sd.numBinary) else y
  }

  /**
   * `inflate` as a value. Absent support data is computed from the problem
   * and the size of the solution.
   */
  function InflateSpec(sol: seq<real>, p: Problem, support: Option<SupportData>): (r: Result<seq<real>>)
    requires p.mesh.Valid()
  {
    var sd :- if support.Some? then Ok(support.value) else SupportDataFor(p, |sol|);
    var x :- ExpandDirichlet(sol, p, sd);
    Ok(DropStages(x, p, sd))
  }

  /** `inflate`. */
  method Inflate(sol: seq<real>, p: Problem, support: Option<SupportData>) returns (r: Result<seq<real>>)
    requires p.mesh.Valid()
    ensures r == InflateSpec(sol, p, support)
  {
    var sd: SupportData;
    if support.Some? {
      sd := support.value;
    } else {
      sd :- ComputeSupportData(p, |sol|);
    }
    var x := sol;
    if p.kinds.dirichlet != [] {
      if sd.dirichlet.None? {
        return Err(MissingSupportData);
      }
      var d := sd.dirichlet.value;
      x :- InflateDirichlet(sol, d.fixed, d.values, d.free);
    }
    if p.kinds.floating != [] {
      x := DropMultipliers(x, sd.numFloating);
    }
    if p.kinds.binary != [] {
      x := DropMultipliers(x, sd.numBinary);
    }
    return Ok(x);
  }

  /** Without boundary conditions, inflating returns the solution as it is. */
  lemma InflateWithoutConditions(sol: seq<real>, p: Problem, support: Option<SupportData>)
    requires p.mesh.Valid() && NoConditions(p.kinds)
    ensures InflateSpec(sol, p, support) == Ok(sol)
  {
  }

  /** The part of a full vector that the reduced system solves for: its free entries, or all of it without Dirichlet entries. */
  function FreePart(x: seq<real>, sd: SupportData): (y: seq<real>)
    requires sd.dirichlet.Some? ==> AllBelow(sd.dirichlet.value.free, |x|)
  {
    if sd.dirichlet.Some? then Gather(x, sd.dirichlet.value.free) else x
  }

  /** The Dirichlet stage of inflating the free part of `x` gives back `x`. */
  lemma ExpandRoundTrip(x: seq<real>, p: Problem, sd: SupportData)
    requires Consistent(sd, p.kinds, |x|)
    requires sd.dirichlet.Some? ==> Gather(x, sd.dirichlet.value.fixed) == sd.dirichlet.value.values
    ensures ExpandDirichlet(FreePart(x, sd), p, sd) == Ok(x)
  {
    if sd.dirichlet.Some? {
      var d := sd.dirichlet.value;
      InflateDirichletRoundTrip(x, d.fixed, d.values, d.free);
    }
  }

  /** Dropping the floating and then the binary multipliers leaves the first `n` entries. */
  lemma DropStagesRoundTrip(x: seq<real>, p: Problem, sd: SupportData, n: nat)
    requires Consistent(sd, p.kinds, |x|) && |x| == n + sd.numBinary + sd.numFloating
    ensures DropStages(x, p, sd) == x[..n]
  {
    var x1 := x[..n + sd.numBinary];
    DropAppended(x1, x[n + sd.numBinary..]);
    assert x1 + x[n + sd.numBinary..] == x;
    DropAppended(x[..n], x1[n..]);
    assert x[..n] + x1[n..] == x1;
  }

  /**
   * Inflating the free part of a full vector `x` with consistent support data,
   * given or recomputed, gives back its first `n` entries.
   */
  lemma InflateRoundTrip(x: seq<real>, p: Problem, sd: SupportData, n: nat, support: Option<SupportData>)
    requires p.mesh.Valid() && Consistent(sd, p.kinds, |x|) && |x| == n + sd.numBinary + sd.numFloating
    requires sd.dirichlet.Some? ==> Gather(x, sd.dirichlet.value.fixed) == sd.dirichlet.value.values
    requires support == Some(sd) || (support == None && SupportDataFor(p, |FreePart(x, sd)|) == Ok(sd))
    ensures InflateSpec(FreePart(x, sd), p, support) == Ok(x[..n])
  {
    ExpandRoundTrip(x, p, sd);
    DropStagesRoundTrip(x, p, sd, n);
  }

  /**
   * Shrinking and inflating are inverse: a vector of the constrained system
   * (unknowns followed by multipliers) that takes the Dirichlet values at the
   * fixed indices is restricted to the free indices, and inflating that with
   * the support data of `shrink`, or with none, gives back its first `|b|`
   * entries, the unknowns of the original system.
   */
  lemma ShrinkInflateRoundTrip(A: Matrix, b: seq<real>, p: Problem, t: Terms, x: seq<real>, given: bool)
    requires IsSystem(A, b) && p.mesh.Valid() && Shrink(A, b, p, t).Ok?
    requires |x| == |b| + Shrink(A, b, p, t).value.numMultipliers
    requires var d := Shrink(A, b, p, t).value.support.dirichlet;
      d.Some? ==> AllBelow(d.value.fixed, |x|) && Gather(x, d.value.fixed) == d.value.values
    ensures var r := Shrink(A, b, p, t).value;
      InflateSpec(FreePart(x, r.support), p, if given then Some(r.support) else None) == Ok(x[..|b|])
  {
    var r := Shrink(A, b, p, t).value;
    ShrinkConsistent(A, b, p, t);
    SupportDataMatchesShrink(A, b, p, t);
    InflateRoundTrip(x, p, r.support, |b|, if given then Some(r.support) else None);
  }

  /**
   * A solution of the eliminated system, inflated with the fixed values,
   * takes those values at the fixed indices and satisfies every original
   * equation of a free unknown.
   */
  lemma EliminatedSolutionSolves(A: Matrix, b: seq<real>, fixed: seq<nat>, values: seq<real>, y: seq<real>)
    requires IsSystem(A, b) && |values| == |fixed| && Distinct(fixed) && AllBelow(fixed, |b|)
    requires var e := Eliminate(A, b, fixed, values).value; |y| == |e.rhs| && MatVec(e.matrix, y) == e.rhs
    ensures var e := Eliminate(A, b, fixed, values).value;
      var x := InflateDirichletSpec(y, fixed, values, e.free);
      x.Ok? && |x.value| == |b| && Gather(x.value, fixed) == values &&
      forall i :: 0 <= i < |e.free| ==> Dot(A[e.free[i]], x.value) == b[e.free[i]]
  {
    var e := Eliminate(A, b, fixed, values).value;
    InflateDirichletRestores(y, fixed, values, e.free, |b|);
    var x := InflateDirichletSpec(y, fixed, values, e.free).value;
    EliminationKeepsEquations(A, b, fixed, values, x);
    assert Gather(x, e.free) == y;
    ResidualsVanish(A, b, e.matrix, e.rhs, e.free, x, y);
  }

  /** Where the reduced residuals vanish, so do the original ones they equal. */
  lemma ResidualsVanish(A: Matrix, b: seq<real>, M: Matrix, rhs: seq<real>, free: seq<nat>, x: seq<real>, y: seq<real>)
    requires IsSystem(A, b) && IsSystem(M, rhs) && |rhs| == |free| == |y| && |x| == |b| && AllBelow(free, |b|)
    requires MatVec(M, y) == rhs
    requires forall i :: 0 <= i < |free| ==> Dot(M[i], y) - rhs[i] == Dot(A[free[i]], x) - b[free[i]]
    ensures forall i :: 0 <= i < |free| ==> Dot(A[free[i]], x) == b[free[i]]
  {
    forall i | 0 <= i < |free| ensures Dot(A[free[i]], x) == b[free[i]] {
      Cancel(MatVec(M, y)[i], rhs[i], Dot(A[free[i]], x), b[free[i]]);
    }
  }

  lemma Cancel(a: real, r: real, c: real, d: real)
    requires a == r && a - r == c - d
    ensures c == d
  {
  }
}
