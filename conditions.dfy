/**
 * The boundary conditions of a problem and the mesh tables their regions
 * resolve to: which nodes a condition touches.
 */
module Conditions {
  import opened Base
  import opened Indices

  /** The value of a Dirichlet condition, as `BCDirichlet` holds it. */
  datatype DirichletValue =
    | Scalar(s: real)            // constant float, int or complex
    | Array(a: seq<real>)        // constant ndarray, one value per node
    | OtherConstant              // constant of any other type
    | TimeDependent(now: real)   // callable; `now` is what `value()` returns at this call
    | Undetermined               // neither constant nor time dependent

  datatype Condition =
    | Dirichlet(value: DirichletValue)
    | Neumann
    | Robin
    | Floating
    | Binary(primary: seq<nat>, replica: seq<nat>, factor: real)

  /** `dict_of_boundary_condition()`: the IDs of the conditions of each kind, in order. */
  datatype Kinds = Kinds(dirichlet: seq<int>, neumann: seq<int>, robin: seq<int>,
                         binary: seq<int>, floating: seq<int>)

  /**
   * The mesh connectivity tables: a region tag per node, per edge and per
   * element, and the nodes of each edge and element.
   */
  datatype Mesh = Mesh(node2regi: seq<int>, edge2regi: seq<int>, edge2node: seq<seq<nat>>,
                       elem2regi: seq<int>, elem2node: seq<seq<nat>>)
  {
    /** The tag tables and the connectivity tables describe the same entities. */
    predicate Valid()
    {
      |edge2regi| == |edge2node| && |elem2regi| == |elem2node|
    }
  }

  /**
   * What shrinking and inflating read from a problem: the conditions by ID
   * (`get_bc`), their kinds, the regions of each condition (`regions_of_bc`),
   * the dimension of each region (`get_regi(...).dim`) and the mesh.
   */
  datatype Problem = Problem(conditions: map<int, Condition>, kinds: Kinds,
                             regionsOfBc: map<int, seq<int>>, regionDim: map<int, nat>, mesh: Mesh)

  /** Which of the two node resolutions a caller uses. */
  datatype Resolution = ForDirichlet | ForFloating

  /** The indices `i` with `tags[i] == r` (`np.where(tags == r)[0]`). */
  function TaggedSet(tags: seq<int>, r: int): set<nat>
  {
    set i: nat | i < |tags| && tags[i] == r
  }

  /** The nodes of the entities tagged `r`. */
  function EntitySet(tags: seq<int>, e2n: seq<seq<nat>>, r: int): set<nat>
    requires |tags| == |e2n|
  {
    set i, k | 0 <= i < |tags| && tags[i] == r && 0 <= k < |e2n[i]| :: e2n[i][k]
  }

  /** A strict upper bound of the node indices of a connectivity table. */
  function TableBound(e2n: seq<seq<nat>>): (b: nat)
    ensures forall i, k :: 0 <= i < |e2n| && 0 <= k < |e2n[i]| ==> e2n[i][k] < b
  {
    if e2n == [] then 0
    else
      var last := |e2n| - 1;
      var rest := TableBound(e2n[..last]);
      var here := Bound(e2n[last]);
      assert forall i :: 0 <= i < last ==> e2n[i] == e2n[..last][i];
      if rest < here then here else rest
  }

  /** A strict upper bound of every node index the mesh mentions. */
  function NodeBound(m: Mesh): (b: nat)
  {
    var b1 := TableBound(m.edge2node);
    var b2 := TableBound(m.elem2node);
    var b0 := |m.node2regi|;
    if b0 < b1 then (if b1 < b2 then b2 else b1) else (if b0 < b2 then b2 else b0)
  }

  /**
   * The nodes one region contributes, or None when a region of its dimension
   * contributes nothing. For Dirichlet conditions: tagged nodes (dimension 0),
   * nodes of tagged edges (1), nodes of tagged elements (2). For floating
   * conditions both dimension 1 and dimension 2 read the edge tables.
   */
  function RegionNodes(m: Mesh, use: Resolution, dim: nat, r: int): (s: Option<set<nat>>)
    requires m.Valid()
    ensures s.Some? ==> forall x :: x in s.value ==> x < NodeBound(m)
  {
    match use
    case ForDirichlet =>
      if dim == 0 then Some(TaggedSet(m.node2regi, r))
      else if dim == 1 then Some(EntitySet(m.edge2regi, m.edge2node, r))
      else if dim == 2 then Some(EntitySet(m.elem2regi, m.elem2node, r))
      else None
    case ForFloating =>
      if dim == 1 || dim == 2 then Some(EntitySet(m.edge2regi, m.edge2node, r))
      else None
  }

  /** Region `regs[j]` is known and contributes `x`. */
  predicate Contributes(m: Mesh, dims: map<int, nat>, use: Resolution, r: int, x: nat)
    requires m.Valid()
  {
    r in dims && RegionNodes(m, use, dims[r], r).Some? && x in RegionNodes(m, use, dims[r], r).value
  }

  /** Some region of `regs` contributes a (possibly empty) node list. */
  predicate AnyContributes(m: Mesh, dims: map<int, nat>, use: Resolution, regs: seq<int>)
    requires m.Valid()
  {
    exists j :: 0 <= j < |regs| && regs[j] in dims && RegionNodes(m, use, dims[regs[j]], regs[j]).Some?
  }

  /**
   * The loop over the regions of one condition: whether any region
   * contributed, and the union of what they contributed.
   */
  function CollectNodes(m: Mesh, dims: map<int, nat>, use: Resolution, regs: seq<int>): Result<(bool, set<nat>)>
    requires m.Valid()
  {
    if regs == [] then Ok((false, {}))
    else if regs[0] !in dims then Err(RegionNotFound)
    else
      var rest :- CollectNodes(m, dims, use, regs[1..]);
      match RegionNodes(m, use, dims[regs[0]], regs[0])
      case None => Ok(rest)
      case Some(s) => Ok((true, s + rest.1))
  }

  /**
   * The region loop fails exactly when a region is unknown; otherwise it
   * reports whether some region contributed and collects the union of what
   * the regions contribute.
   */
  lemma {:induction false} CollectNodesSpec(m: Mesh, dims: map<int, nat>, use: Resolution, regs: seq<int>)
    requires m.Valid()
    ensures var r := CollectNodes(m, dims, use, regs);
      (r.Ok? <==> forall j :: 0 <= j < |regs| ==> regs[j] in dims) &&
      (r.Err? ==> r.error == RegionNotFound) &&
      (r.Ok? ==> (r.value.0 <==> AnyContributes(m, dims, use, regs))) &&
      (r.Ok? ==> forall x :: x in r.value.1 <==> exists j :: 0 <= j < |regs| && Contributes(m, dims, use, regs[j], x))
  {
    if regs != [] && regs[0] in dims {
      CollectNodesSpec(m, dims, use, regs[1..]);
      assert forall j :: 1 <= j < |regs| ==> regs[j] == regs[1..][j - 1];
      var rest := CollectNodes(m, dims, use, regs[1..]);
      if rest.Ok? {
        var here := RegionNodes(m, use, dims[regs[0]], regs[0]);
        assert AnyContributes(m, dims, use, regs) <==> here.Some? || AnyContributes(m, dims, use, regs[1..]) by {
          if AnyContributes(m, dims, use, regs[1..]) {
            var j :| 0 <= j < |regs[1..]| && regs[1..][j] in dims && RegionNodes(m, use, dims[regs[1..][j]], regs[1..][j]).Some?;
            assert regs[j + 1] == regs[1..][j];
          }
        }
        forall x ensures (exists j :: 0 <= j < |regs| && Contributes(m, dims, use, regs[j], x)) <==>
            (Contributes(m, dims, use, regs[0], x) || exists j :: 0 <= j < |regs[1..]| && Contributes(m, dims, use, regs[1..][j], x))
        {
          if exists j :: 0 <= j < |regs| && Contributes(m, dims, use, regs[j], x) {
            var j :| 0 <= j < |regs| && Contributes(m, dims, use, regs[j], x);
            if j > 0 {
              assert Contributes(m, dims, use, regs[1..][j - 1], x);
            }
          }
        }
      }
    } else if regs != [] {
      assert regs[0] !in dims;
    }
  }

  /**
   * The node indices of one condition: the sorted distinct union of what its
   * regions contribute; `np.concatenate` of no list at all fails.
   */
  function ConditionNodes(m: Mesh, dims: map<int, nat>, use: Resolution, regs: seq<int>): (r: Result<seq<nat>>)
    requires m.Valid()
    ensures r.Ok? ==> Increasing(r.value) && AllBelow(r.value, NodeBound(m))
  {
    var found :- CollectNodes(m, dims, use, regs);
    if !found.0 then Err(NothingToConcatenate)
    else
      var nodes := Ascending(found.1, NodeBound(m));
      assert forall i :: 0 <= i < |nodes| ==> nodes[i] in nodes;
      Ok(nodes)
  }

  /**
   * A condition's node list: it fails on the first unknown region, fails when
   * no region contributes, and otherwise holds exactly the nodes its regions
   * contribute.
   */
  lemma ConditionNodesSpec(m: Mesh, dims: map<int, nat>, use: Resolution, regs: seq<int>)
    requires m.Valid()
    ensures var r := ConditionNodes(m, dims, use, regs);
      (r.Ok? <==> (forall j :: 0 <= j < |regs| ==> regs[j] in dims) && AnyContributes(m, dims, use, regs)) &&
      (r.Err? ==> r.error == (if exists j :: 0 <= j < |regs| && regs[j] !in dims then RegionNotFound
                              else NothingToConcatenate)) &&
      (r.Ok? ==> forall x :: x in r.value <==> exists j :: 0 <= j < |regs| && Contributes(m, dims, use, regs[j], x))
  {
    CollectNodesSpec(m, dims, use, regs);
  }

  /** A floating condition on a dimension-2 region gets the nodes of the edges tagged with it. */
  lemma FloatingFaceReadsEdges(m: Mesh, r: int)
    requires m.Valid()
    ensures RegionNodes(m, ForFloating, 2, r) == RegionNodes(m, ForDirichlet, 1, r)
    ensures RegionNodes(m, ForFloating, 2, r) == Some(EntitySet(m.edge2regi, m.edge2node, r))
  {
  }

  /** `regions_of_bc[key]`. */
  function RegionsOf(p: Problem, key: int): (r: Result<seq<int>>)
    ensures r.Ok? <==> key in p.regionsOfBc
    ensures r.Ok? ==> r.value == p.regionsOfBc[key]
    ensures r.Err? ==> r.error == KeyError
  {
    if key in p.regionsOfBc then Ok(p.regionsOfBc[key]) else Err(KeyError)
  }
}
