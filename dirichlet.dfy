/**
 * Dirichlet conditions: the nodes of a Dirichlet condition carry known
 * values. Those unknowns are eliminated from the system: their known values
 * move to the right-hand side and their rows and columns are removed. Where
 * conditions share nodes, the condition listed first keeps them.
 */
module DirichletConditions {
  import opened Base
  import opened Indices
  import opened Dense
  import opened Conditions

  /**
   * The values of the `count` nodes of one condition: a constant number on
   * every node, an array with one value per node, or the current value of a
   * time-dependent condition on every node.
   */
  function NodeValues(c: Condition, count: nat): (r: Result<seq<real>>)
    ensures r.Ok? <==> c.Dirichlet? && (c.value.Scalar? || c.value.TimeDependent? ||
                                        (c.value.Array? && |c.value.a| == count))
    ensures r.Ok? ==> |r.value| == count
    ensures r.Ok? && c.value.Array? ==> r.value == c.value.a
    ensures r.Ok? && c.value.Scalar? ==> forall t :: 0 <= t < count ==> r.value[t] == c.value.s
    ensures r.Ok? && c.value.TimeDependent? ==> forall t :: 0 <= t < count ==> r.value[t] == c.value.now
    ensures r.Err? ==> r.error == (if !c.Dirichlet? then WrongKind
                                   else if c.value.Array? then DimensionMismatch
                                   else if c.value.OtherConstant? then UnsupportedValueType
                                   else NotImplemented)
  {
    if !c.Dirichlet? then Err(WrongKind)
    else
      match c.value
      case Scalar(s) => Ok(Fill(s, count))
      case Array(a) => if |a| != count then Err(DimensionMismatch) else Ok(a)
      case OtherConstant => Err(UnsupportedValueType)
      case TimeDependent(now) => Ok(Fill(now, count))
      case Undetermined => Err(NotImplemented)
  }

  /**
   * The nodes of condition `key` and their values: the condition is looked
   * up first, then its regions, then its nodes, and the values last.
   */
  function ConditionData(p: Problem, key: int): (r: Result<(seq<nat>, seq<real>)>)
    requires p.mesh.Valid()
    ensures r.Ok? ==> Increasing(r.value.0) && AllBelow(r.value.0, NodeBound(p.mesh))
    ensures r.Ok? ==> |r.value.1| == |r.value.0|
  {
    if key !in p.conditions then Err(KeyError)
    else
      var regs :- RegionsOf(p, key);
      var nodes :- ConditionNodes(p.mesh, p.regionDim, ForDirichlet, regs);
      var values :- NodeValues(p.conditions[key], |nodes|);
      Ok((nodes, values))
  }

  /** One node list and one value list per condition (`indices_all_nodes`, `values_all_nodes`). */
  datatype NodeLists = NodeLists(nodes: seq<seq<nat>>, values: seq<seq<real>>)
  {
    /** Every condition has as many values as nodes. */
    predicate Aligned()
    {
      |nodes| == |values| && forall k :: 0 <= k < |nodes| ==> |values[k]| == |nodes[k]|
    }
  }

  /** What looking up one condition gives: its nodes and their values, or an error. */
  type Outcome = Result<(seq<nat>, seq<real>)>

  /** Every successful lookup gives as many values as nodes. */
  predicate WellSized(outs: seq<Outcome>)
  {
    forall j :: 0 <= j < |outs| && outs[j].Ok? ==> |outs[j].value.1| == |outs[j].value.0|
  }

  /** The lookups of the conditions `keys`, in order. */
  function Outcomes(p: Problem, keys: seq<int>): (outs: seq<Outcome>)
    requires p.mesh.Valid()
    ensures |outs| == |keys| && WellSized(outs)
    ensures forall j :: 0 <= j < |keys| ==> outs[j] == ConditionData(p, keys[j])
  {
    seq(|keys|, j requires 0 <= j < |keys| => ConditionData(p, keys[j]))
  }

  /** The node and value lists of the lookups `outs[i..]`, or the first failure. */
  function RawFrom(outs: seq<Outcome>, i: nat): (r: Result<NodeLists>)
    requires WellSized(outs) && i <= |outs|
    ensures r.Ok? ==> r.value.Aligned() && |r.value.nodes| == |outs| - i
    decreases |outs| - i
  {
    if i == |outs| then Ok(NodeLists([], []))
    else
      var here :- outs[i];
      var rest :- RawFrom(outs, i + 1);
      Ok(NodeLists([here.0] + rest.nodes, [here.1] + rest.values))
  }

  /** The nodes claimed by the conditions resolved so far (`indices_tmp`). */
  function Claimed(nodes: seq<seq<nat>>): set<nat>
  {
    Members(Flatten(nodes))
  }

  function Members(s: seq<nat>): set<nat>
  {
    set x | x in s
  }

  /** `indices_keep`: the positions of `ns` whose node is not claimed yet, ascending. */
  function Kept(ns: seq<nat>, claimed: set<nat>): (keep: seq<nat>)
    ensures Increasing(keep) && AllBelow(keep, |ns|)
    ensures forall j :: j in keep <==> 0 <= j < |ns| && ns[j] !in claimed
  {
    var keep := Ascending(set j: nat | j < |ns| && ns[j] !in claimed, |ns|);
    assert forall i :: 0 <= i < |keep| ==> keep[i] in keep;
    keep
  }

  /**
   * One step of the intersection loop: when some node of this condition is
   * claimed already, it is dropped together with its value.
   */
  function Cut(ns: seq<nat>, vs: seq<real>, claimed: set<nat>): (r: (seq<nat>, seq<real>))
    requires |vs| == |ns|
    ensures |r.1| == |r.0|
  {
    if AnyClaimed(ns, claimed) then
      var keep := Kept(ns, claimed);
      (Gather(ns, keep), Gather(vs, keep))
    else (ns, vs)
  }

  /** Some node of `ns` is claimed already (`len(intersection) > 0`). */
  predicate AnyClaimed(ns: seq<nat>, claimed: set<nat>)
  {
    exists j :: 0 <= j < |ns| && ns[j] in claimed
  }

  /** The first `k` conditions after the intersection loop has reached them. */
  function Resolve(raw: NodeLists, k: nat): (r: NodeLists)
    requires raw.Aligned() && k <= |raw.nodes|
    ensures r.Aligned() && |r.nodes| == k
  {
    if k == 0 then NodeLists([], [])
    else
      var prev := Resolve(raw, k - 1);
      var c := Cut(raw.nodes[k - 1], raw.values[k - 1], Claimed(prev.nodes));
      NodeLists(prev.nodes + [c.0], prev.values + [c.1])
  }

  /**
   * `_calc_values_for_dirichlet`: the node and value lists of all conditions,
   * with shared nodes left to the condition listed first. Reading the first
   * list of no condition at all fails.
   */
  function DirichletData(p: Problem, keys: seq<int>): (r: Result<NodeLists>)
    requires p.mesh.Valid()
    ensures r.Ok? ==> r.value.Aligned() && |r.value.nodes| == |keys| > 0
  {
    var raw :- RawFrom(Outcomes(p, keys), 0);
    if |keys| == 0 then Err(IndexOutOfRange)
    else Ok(Resolve(raw, |raw.nodes|))
  }

  /** `_calc_values_for_dirichlet`: the collecting loop, then the intersection loop. */
  method CalcValuesForDirichlet(p: Problem, keys: seq<int>) returns (r: Result<NodeLists>)
    requires p.mesh.Valid()
    ensures r == DirichletData(p, keys)
  {
    var raw := CollectDirichlet(p, keys);
    if raw.Err? {
      return raw;
    }
    if |keys| == 0 {
      return Err(IndexOutOfRange);
    }
    var resolved := ResolveIntersections(raw.value);
    return Ok(resolved);
  }

  /** The loop over the conditions: the node and value lists of each, in order. */
  method CollectDirichlet(p: Problem, keys: seq<int>) returns (r: Result<NodeLists>)
    requires p.mesh.Valid()
    ensures r == RawFrom(Outcomes(p, keys), 0)
  {
    var nodes: seq<seq<nat>> := [];
    var values: seq<seq<real>> := [];
    var i := 0;
    while i < |keys|
      invariant 0 <= i <= |keys| && |nodes| == i && |values| == i
      invariant forall j :: 0 <= j < i ==> ConditionData(p, keys[j]) == Ok((nodes[j], values[j]))
    {
      var d := ConditionData(p, keys[i]);
      if d.Err? {
        RawFirstFailure(Outcomes(p, keys), i, 0);
        return Err(d.error);
      }
      nodes := nodes + [d.value.0];
      values := values + [d.value.1];
      i := i + 1;
    }
    RawAllSucceed(Outcomes(p, keys), NodeLists(nodes, values), 0);
    assert nodes[0..] == nodes && values[0..] == values;
    return Ok(NodeLists(nodes, values));
  }

  /**
   * The intersection loop: every condition after the first loses the nodes
   * the conditions before it hold (`indices_tmp`), with their values.
   */
  method ResolveIntersections(raw: NodeLists) returns (r: NodeLists)
    requires raw.Aligned() && |raw.nodes| > 0
    ensures r == Resolve(raw, |raw.nodes|)
  {
    var nodes := raw.nodes;
    var values := raw.values;
    ResolveFirst(raw);
    PendingFirst(raw);
    var tmp := nodes[0];
    var k := 1;
    while k < |nodes|
      invariant 1 <= k <= |raw.nodes| == |nodes|
      invariant Pending(raw, k, nodes, values)
      invariant tmp == Flatten(Resolve(raw, k).nodes)
    {
      ResolveAdvance(raw, k, nodes, values);
      var kept := CutClaimed(nodes[k], values[k], tmp);
      nodes := nodes[k := kept.0];
      values := values[k := kept.1];
      tmp := Flatten(nodes[..k + 1]);
      k := k + 1;
    }
    PendingDone(raw, nodes, values);
    return NodeLists(nodes, values);
  }

  /**
   * The body of the intersection loop for one condition: the positions of
   * the nodes `indices_tmp` already holds are cut, and the others kept with
   * their values.
   */
  method CutClaimed(ns: seq<nat>, vs: seq<real>, tmp: seq<nat>) returns (r: (seq<nat>, seq<real>))
    requires |vs| == |ns|
    ensures r == Cut(ns, vs, Members(tmp))
  {
    ghost var claimed := Members(tmp);
    var intersection := set x | x in tmp && x in ns;
    assert intersection == set x | x in claimed && x in ns;
    if |intersection| > 0 {
      var cut := set j | 0 <= j < |ns| && ns[j] in intersection;
      var keep := Ascending(set j: nat | j < |ns| && j !in cut, |ns|);
      KeptAgrees(ns, claimed, intersection, cut, keep);
      return (Gather(ns, keep), Gather(vs, keep));
    }
    NothingClaimed(ns, claimed, intersection);
    return (ns, vs);
  }

  /**
   * The lists during the intersection loop: the first `k` conditions are
   * resolved and the others stand as collected.
   */
  predicate Pending(raw: NodeLists, k: nat, nodes: seq<seq<nat>>, values: seq<seq<real>>)
    requires raw.Aligned() && k <= |raw.nodes|
  {
    var done := Resolve(raw, k);
    nodes == done.nodes + raw.nodes[k..] && values == done.values + raw.values[k..]
  }

  lemma PendingFirst(raw: NodeLists)
    requires raw.Aligned() && |raw.nodes| > 0
    ensures Pending(raw, 1, raw.nodes, raw.values)
    ensures Flatten(Resolve(raw, 1).nodes) == raw.nodes[0]
  {
    ResolveFirst(raw);
    assert raw.nodes == [raw.nodes[0]] + raw.nodes[1..];
    assert raw.values == [raw.values[0]] + raw.values[1..];
    assert Flatten([raw.nodes[0]]) == Flatten([]) + raw.nodes[0];
  }

  lemma PendingDone(raw: NodeLists, nodes: seq<seq<nat>>, values: seq<seq<real>>)
    requires raw.Aligned() && Pending(raw, |raw.nodes|, nodes, values)
    ensures NodeLists(nodes, values) == Resolve(raw, |raw.nodes|)
  {
    var done := Resolve(raw, |raw.nodes|);
    assert nodes == done.nodes + [];
    assert values == done.values + [];
  }

  /** One turn of the intersection loop resolves one more condition and leaves the later ones alone. */
  lemma ResolveAdvance(raw: NodeLists, k: nat, nodes: seq<seq<nat>>, values: seq<seq<real>>)
    requires raw.Aligned() && k < |raw.nodes| && Pending(raw, k, nodes, values)
    ensures nodes[k] == raw.nodes[k] && values[k] == raw.values[k] && k < |nodes| == |values|
    ensures var c := Cut(raw.nodes[k], raw.values[k], Claimed(Resolve(raw, k).nodes));
      var nodes', values' := nodes[k := c.0], values[k := c.1];
      Pending(raw, k + 1, nodes', values') && nodes'[..k + 1] == Resolve(raw, k + 1).nodes
  {
    var done := Resolve(raw, k);
    var c := Cut(raw.nodes[k], raw.values[k], Claimed(done.nodes));
    ResolveLast(raw, k + 1);
    ReplaceNext(nodes, done.nodes, raw.nodes, k, c.0);
    ReplaceNext(values, done.values, raw.values, k, c.1);
  }

  /** Replacing the first pending entry moves it to the done part. */
  lemma ReplaceNext<T>(s: seq<T>, done: seq<T>, full: seq<T>, k: nat, v: T)
    requires |done| == k < |full| && s == done + full[k..]
    ensures k < |s| && s[k] == full[k]
    ensures s[k := v] == (done + [v]) + full[k + 1..]
    ensures s[k := v][..k + 1] == done + [v]
  {
    assert s[k] == full[k..][0];
  }

  /** Resolving one more condition appends its cut lists. */
  lemma ResolveLast(raw: NodeLists, k: nat)
    requires raw.Aligned() && 0 < k <= |raw.nodes|
    ensures var prev := Resolve(raw, k - 1);
      var c := Cut(raw.nodes[k - 1], raw.values[k - 1], Claimed(prev.nodes));
      Resolve(raw, k) == NodeLists(prev.nodes + [c.0], prev.values + [c.1])
  {
  }

  /** Before the intersection loop the first condition stands as it is. */
  lemma ResolveFirst(raw: NodeLists)
    requires raw.Aligned() && |raw.nodes| > 0
    ensures Resolve(raw, 1) == NodeLists([raw.nodes[0]], [raw.values[0]])
  {
    assert Claimed([]) == {};
  }

  /** The positions the loop keeps are those of `Kept`, and some node is claimed already. */
  lemma KeptAgrees(ns: seq<nat>, claimed: set<nat>, intersection: set<nat>, cut: set<nat>, keep: seq<nat>)
    requires intersection == (set x | x in claimed && x in ns) && |intersection| > 0
    requires cut == set j | 0 <= j < |ns| && ns[j] in intersection
    requires keep == Ascending(set j: nat | j < |ns| && j !in cut, |ns|)
    ensures keep == Kept(ns, claimed)
    ensures AnyClaimed(ns, claimed)
  {
    var kept := set j: nat | j < |ns| && ns[j] !in claimed;
    assert (set j: nat | j < |ns| && j !in cut) == kept;
    assert Kept(ns, claimed) == Ascending(kept, |ns|);
    var x :| x in intersection;
    var j := IndexOf(ns, x);
    assert ns[j] in claimed;
  }

  /** An empty intersection leaves the condition as it is. */
  lemma NothingClaimed(ns: seq<nat>, claimed: set<nat>, intersection: set<nat>)
    requires intersection == (set x | x in claimed && x in ns) && |intersection| == 0
    ensures !AnyClaimed(ns, claimed)
  {
    if exists j :: 0 <= j < |ns| && ns[j] in claimed {
      var j :| 0 <= j < |ns| && ns[j] in claimed;
      assert ns[j] in intersection;
    }
  }

  /** When every lookup before `i` succeeds and lookup `i` fails, the collection fails with its error. */
  lemma {:induction false} RawFirstFailure(outs: seq<Outcome>, i: nat, j: nat)
    requires WellSized(outs) && j <= i < |outs| && outs[i].Err?
    requires forall l :: j <= l < i ==> outs[l].Ok?
    ensures RawFrom(outs, j) == Err(outs[i].error)
    decreases i - j
  {
    if j < i {
      RawFirstFailure(outs, i, j + 1);
    }
  }

  /** When every lookup succeeds, the collection holds their lists in order. */
  lemma {:induction false} RawAllSucceed(outs: seq<Outcome>, raw: NodeLists, j: nat)
    requires WellSized(outs) && |raw.nodes| == |outs| == |raw.values| && j <= |outs|
    requires forall l :: 0 <= l < |outs| ==> outs[l] == Ok((raw.nodes[l], raw.values[l]))
    ensures RawFrom(outs, j) == Ok(NodeLists(raw.nodes[j..], raw.values[j..]))
    decreases |outs| - j
  {
    if j < |outs| {
      RawAllSucceed(outs, raw, j + 1);
      assert raw.nodes[j..] == [raw.nodes[j]] + raw.nodes[j + 1..];
      assert raw.values[j..] == [raw.values[j]] + raw.values[j + 1..];
    }
  }

  /** A cut keeps exactly the nodes not claimed yet. */
  lemma CutMembers(ns: seq<nat>, vs: seq<real>, claimed: set<nat>)
    requires |vs| == |ns|
    ensures forall x :: x in Cut(ns, vs, claimed).0 <==> x in ns && x !in claimed
  {
    if AnyClaimed(ns, claimed) {
      var keep := Kept(ns, claimed);
      var g := Gather(ns, keep);
      forall x ensures x in g <==> x in ns && x !in claimed {
        if x in g {
          var t :| 0 <= t < |g| && g[t] == x;
          assert keep[t] in keep;
        }
        if x in ns && x !in claimed {
          var j :| 0 <= j < |ns| && ns[j] == x;
          assert j in keep;
          var t :| 0 <= t < |keep| && keep[t] == j;
          assert g[t] == x;
        }
      }
    }
  }

  /**
   * A cut of a sorted node list stays sorted, and every kept node keeps the
   * value it had at its position in the uncut list.
   */
  lemma CutValues(ns: seq<nat>, vs: seq<real>, claimed: set<nat>)
    requires |vs| == |ns| && Increasing(ns)
    ensures var c := Cut(ns, vs, claimed);
      Increasing(c.0) &&
      forall t :: 0 <= t < |c.0| ==> c.0[t] in ns && c.1[t] == vs[IndexOf(ns, c.0[t])]
  {
    var c := Cut(ns, vs, claimed);
    if AnyClaimed(ns, claimed) {
      var keep := Kept(ns, claimed);
      forall t | 0 <= t < |c.0| ensures c.0[t] in ns && c.1[t] == vs[IndexOf(ns, c.0[t])] {
        assert c.0[t] == ns[keep[t]];
        IndexOfDistinct(ns, keep[t]);
      }
    } else {
      forall t | 0 <= t < |ns| ensures vs[t] == vs[IndexOf(ns, ns[t])] {
        IndexOfDistinct(ns, t);
      }
    }
  }

  lemma {:induction false} IndexOfDistinct(ns: seq<nat>, p: nat)
    requires Increasing(ns) && p < |ns|
    ensures IndexOf(ns, ns[p]) == p
  {
    if p > 0 {
      IndexOfDistinct(ns[1..], p - 1);
    }
  }

  /** The nodes the first `k` resolved conditions hold are those the first `k` conditions asked for. */
  lemma {:induction false} ResolveClaimed(raw: NodeLists, k: nat)
    requires raw.Aligned() && k <= |raw.nodes|
    ensures forall x :: x in Claimed(Resolve(raw, k).nodes) <==> exists i :: 0 <= i < k && x in raw.nodes[i]
  {
    if k > 0 {
      var prev := Resolve(raw, k - 1);
      var c := Cut(raw.nodes[k - 1], raw.values[k - 1], Claimed(prev.nodes));
      ResolveClaimed(raw, k - 1);
      CutMembers(raw.nodes[k - 1], raw.values[k - 1], Claimed(prev.nodes));
      ClaimedAppend(prev.nodes, c.0);
      forall x ensures x in Claimed(Resolve(raw, k).nodes) <==> exists i :: 0 <= i < k && x in raw.nodes[i] {
        if x in Claimed(prev.nodes) {
          var i :| 0 <= i < k - 1 && x in raw.nodes[i];
        } else if x in c.0 {
          assert x in raw.nodes[k - 1];
        }
        if exists i :: 0 <= i < k && x in raw.nodes[i] {
          var i :| 0 <= i < k && x in raw.nodes[i];
          if i < k - 1 {
            assert x in Claimed(prev.nodes);
          }
        }
      }
    }
  }

  lemma ClaimedAppend(prev: seq<seq<nat>>, c: seq<nat>)
    ensures forall x :: x in Claimed(prev + [c]) <==> x in Claimed(prev) || x in c
  {
    assert (prev + [c])[..|prev|] == prev;
    assert Flatten(prev + [c]) == Flatten(prev) + c;
  }

  /** Later turns of the loop leave the conditions already resolved alone. */
  lemma {:induction false} ResolveStable(raw: NodeLists, j: nat, k: nat)
    requires raw.Aligned() && j < k <= |raw.nodes|
    ensures Resolve(raw, k).nodes[j] == Resolve(raw, j + 1).nodes[j]
    ensures Resolve(raw, k).values[j] == Resolve(raw, j + 1).values[j]
    decreases k
  {
    if j + 1 < k {
      var cur := Resolve(raw, k);
      var prev := Resolve(raw, k - 1);
      ResolveLast(raw, k);
      assert cur.nodes[j] == prev.nodes[j] && cur.values[j] == prev.values[j];
      ResolveStable(raw, j, k - 1);
    } else {
      assert k == j + 1;
    }
  }

  /** Resolved condition `j` as the step of the loop that reached it. */
  lemma ResolvedAt(raw: NodeLists, j: nat)
    requires raw.Aligned() && j < |raw.nodes|
    ensures var r := Resolve(raw, |raw.nodes|);
      var c := Cut(raw.nodes[j], raw.values[j], Claimed(Resolve(raw, j).nodes));
      r.nodes[j] == c.0 && r.values[j] == c.1
  {
    ResolveStable(raw, j, |raw.nodes|);
  }

  /**
   * Shared nodes go to the condition listed first: condition `j` keeps a node
   * exactly when it asked for it and no earlier condition did.
   */
  lemma ResolveEarlierWins(raw: NodeLists)
    requires raw.Aligned()
    ensures var r := Resolve(raw, |raw.nodes|);
      forall j, x :: 0 <= j < |raw.nodes| ==>
        (x in r.nodes[j] <==> x in raw.nodes[j] && forall i :: 0 <= i < j ==> x !in raw.nodes[i])
  {
    var r := Resolve(raw, |raw.nodes|);
    forall j, x | 0 <= j < |raw.nodes|
      ensures x in r.nodes[j] <==> x in raw.nodes[j] && forall i :: 0 <= i < j ==> x !in raw.nodes[i]
    {
      ResolvedAt(raw, j);
      ResolveClaimed(raw, j);
      CutMembers(raw.nodes[j], raw.values[j], Claimed(Resolve(raw, j).nodes));
    }
  }

  /** No node is fixed by two conditions. */
  lemma ResolveDisjoint(raw: NodeLists)
    requires raw.Aligned()
    ensures var r := Resolve(raw, |raw.nodes|);
      forall i, j, x :: 0 <= i < j < |raw.nodes| && x in r.nodes[i] ==> x !in r.nodes[j]
  {
    ResolveEarlierWins(raw);
  }

  /** Every node some condition asked for is fixed by one of them. */
  lemma ResolveCovers(raw: NodeLists)
    requires raw.Aligned()
    ensures forall x :: x in Flatten(Resolve(raw, |raw.nodes|).nodes) <==> exists i :: 0 <= i < |raw.nodes| && x in raw.nodes[i]
  {
    var r := Resolve(raw, |raw.nodes|).nodes;
    ResolveClaimed(raw, |raw.nodes|);
    forall x ensures x in Flatten(r) <==> x in Claimed(r) {
    }
  }

  /**
   * Resolved node lists stay sorted, and each kept node carries the value its
   * own condition gave it.
   */
  lemma ResolveValues(raw: NodeLists)
    requires raw.Aligned() && forall k :: 0 <= k < |raw.nodes| ==> Increasing(raw.nodes[k])
    ensures var r := Resolve(raw, |raw.nodes|);
      forall j :: 0 <= j < |raw.nodes| ==>
        (Increasing(r.nodes[j]) &&
         forall t :: 0 <= t < |r.nodes[j]| ==>
           r.nodes[j][t] in raw.nodes[j] && r.values[j][t] == raw.values[j][IndexOf(raw.nodes[j], r.nodes[j][t])])
  {
    forall j | 0 <= j < |raw.nodes|
      ensures var r := Resolve(raw, |raw.nodes|);
        Increasing(r.nodes[j]) &&
        forall t :: 0 <= t < |r.nodes[j]| ==>
          r.nodes[j][t] in raw.nodes[j] && r.values[j][t] == raw.values[j][IndexOf(raw.nodes[j], r.nodes[j][t])]
    {
      ResolvedAt(raw, j);
      CutValues(raw.nodes[j], raw.values[j], Claimed(Resolve(raw, j).nodes));
    }
  }

  /** The collected lists are those of each lookup in turn; collecting fails exactly when a lookup does. */
  lemma {:induction false} RawFromEntries(outs: seq<Outcome>, i: nat)
    requires WellSized(outs) && i <= |outs|
    ensures RawFrom(outs, i).Ok? <==> forall j :: i <= j < |outs| ==> outs[j].Ok?
    ensures RawFrom(outs, i).Ok? ==> var raw := RawFrom(outs, i).value;
      forall j :: 0 <= j < |outs| - i ==> outs[i + j] == Ok((raw.nodes[j], raw.values[j]))
    decreases |outs| - i
  {
    if i < |outs| {
      RawFromEntries(outs, i + 1);
      if RawFrom(outs, i).Ok? {
        var raw := RawFrom(outs, i).value;
        var rest := RawFrom(outs, i + 1).value;
        assert raw.nodes == [outs[i].value.0] + rest.nodes && raw.values == [outs[i].value.1] + rest.values;
        forall j | 0 <= j < |outs| - i ensures outs[i + j] == Ok((raw.nodes[j], raw.values[j])) {
          if j > 0 {
            assert outs[(i + 1) + (j - 1)] == Ok((rest.nodes[j - 1], rest.values[j - 1]));
          }
        }
      }
    }
  }

  /** The node lists before resolution are the lookups of the conditions. */
  lemma DirichletRaw(p: Problem, keys: seq<int>)
    requires p.mesh.Valid()
    ensures RawFrom(Outcomes(p, keys), 0).Ok? <==> forall j :: 0 <= j < |keys| ==> ConditionData(p, keys[j]).Ok?
    ensures RawFrom(Outcomes(p, keys), 0).Ok? ==> var raw := RawFrom(Outcomes(p, keys), 0).value;
      forall j :: 0 <= j < |keys| ==> ConditionData(p, keys[j]) == Ok((raw.nodes[j], raw.values[j]))
  {
    var outs := Outcomes(p, keys);
    RawFromEntries(outs, 0);
    if RawFrom(outs, 0).Ok? {
      var raw := RawFrom(outs, 0).value;
      forall j | 0 <= j < |keys| ensures outs[j] == Ok((raw.nodes[j], raw.values[j])) {
        assert outs[0 + j] == outs[j];
      }
    }
  }

  /**
   * The Dirichlet data of a list of conditions exists exactly when the list
   * is not empty and every condition has nodes and values.
   */
  lemma DirichletDataOk(p: Problem, keys: seq<int>)
    requires p.mesh.Valid()
    ensures DirichletData(p, keys).Ok? <==> |keys| > 0 && forall j :: 0 <= j < |keys| ==> ConditionData(p, keys[j]).Ok?
  {
    DirichletRaw(p, keys);
  }

  /**
   * Condition `j` keeps the nodes it asked for that no earlier condition
   * asked for.
   */
  lemma DirichletDataNodes(p: Problem, keys: seq<int>)
    requires p.mesh.Valid() && DirichletData(p, keys).Ok?
    ensures forall j :: 0 <= j < |keys| ==> ConditionData(p, keys[j]).Ok?
    ensures var d := DirichletData(p, keys).value;
      forall j, x :: 0 <= j < |keys| ==>
        (x in d.nodes[j] <==> x in ConditionData(p, keys[j]).value.0 &&
                              forall i :: 0 <= i < j ==> x !in ConditionData(p, keys[i]).value.0)
  {
    DirichletRaw(p, keys);
    ResolveEarlierWins(RawFrom(Outcomes(p, keys), 0).value);
  }

  /** Each node condition `j` keeps has the value that condition gave it. */
  lemma DirichletDataValues(p: Problem, keys: seq<int>)
    requires p.mesh.Valid() && DirichletData(p, keys).Ok?
    ensures forall j :: 0 <= j < |keys| ==> ConditionData(p, keys[j]).Ok?
    ensures var d := DirichletData(p, keys).value;
      forall j, t :: 0 <= j < |keys| && 0 <= t < |d.nodes[j]| ==>
        var own := ConditionData(p, keys[j]).value;
        d.nodes[j][t] in own.0 && d.values[j][t] == own.1[IndexOf(own.0, d.nodes[j][t])]
  {
    DirichletRaw(p, keys);
    ResolveValues(RawFrom(Outcomes(p, keys), 0).value);
  }

  /** The fixed nodes of all Dirichlet conditions hold no index twice. */
  lemma DirichletFixedDistinct(p: Problem, keys: seq<int>)
    requires p.mesh.Valid() && DirichletData(p, keys).Ok?
    ensures Distinct(Flatten(DirichletData(p, keys).value.nodes))
  {
    DirichletRaw(p, keys);
    var raw := RawFrom(Outcomes(p, keys), 0).value;
    forall k | 0 <= k < |raw.nodes| ensures Increasing(raw.nodes[k]) {
      assert ConditionData(p, keys[k]) == Ok((raw.nodes[k], raw.values[k]));
    }
    ResolvedDistinct(raw);
  }

  /** Resolving ascending node lists leaves no node in two lists and none twice in one. */
  lemma ResolvedDistinct(raw: NodeLists)
    requires raw.Aligned() && forall k :: 0 <= k < |raw.nodes| ==> Increasing(raw.nodes[k])
    ensures Distinct(Flatten(Resolve(raw, |raw.nodes|).nodes))
  {
    ResolveValues(raw);
    ResolveDisjoint(raw);
    var r := Resolve(raw, |raw.nodes|);
    forall k | 0 <= k < |r.nodes| ensures Distinct(r.nodes[k]) {
      IncreasingIsDistinct(r.nodes[k]);
    }
    FlattenDistinct(r.nodes);
  }

  /**
   * Two conditions asking for node 3: the first keeps it with its value 5,
   * the second keeps only node 4.
   */
  lemma SharedNodeExample()
    ensures Resolve(NodeLists([[1, 2, 3], [3, 4]], [[5.0, 5.0, 5.0], [9.0, 9.0]]), 2)
         == NodeLists([[1, 2, 3], [4]], [[5.0, 5.0, 5.0], [9.0]])
  {
    var raw := NodeLists([[1, 2, 3], [3, 4]], [[5.0, 5.0, 5.0], [9.0, 9.0]]);
    ResolveFirst(raw);
    var first: seq<seq<nat>> := [[1, 2, 3]];
    assert Resolve(raw, 1).nodes == first;
    assert Flatten(first) == [1, 2, 3] by {
      assert first[..0] == [];
    }
    SecondLosesShared(Claimed(first));
  }

  lemma SecondLosesShared(claimed: set<nat>)
    requires 3 in claimed && 4 !in claimed
    ensures Cut([3, 4], [9.0, 9.0], claimed) == ([4], [9.0])
  {
    var ns: seq<nat> := [3, 4];
    var kept := set j: nat | j < |ns| && ns[j] !in claimed;
    assert 0 !in kept && 1 in kept;
    assert Ascending(kept, 1) == [];
    var keep := Kept(ns, claimed);
    assert keep == [1];
    assert ns[0] in claimed;
    var vs := [9.0, 9.0];
    assert Gather(ns, keep) == [4];
    assert Gather(vs, keep) == [9.0];
    assert Cut(ns, vs, claimed) == (Gather(ns, keep), Gather(vs, keep));
  }

  /** What `shrink_dirichlet` returns besides the reduced system: the fixed indices, the free ones and the fixed values. */
  datatype Eliminated = Eliminated(matrix: Matrix, rhs: seq<real>, fixed: seq<nat>, free: seq<nat>, values: seq<real>)

  /**
   * Eliminating the fixed unknowns: the rows and columns of the free
   * unknowns stay, and the fixed columns times their values leave the
   * right-hand side. A fixed index outside the system fails.
   */
  function Eliminate(A: Matrix, b: seq<real>, fixed: seq<nat>, values: seq<real>): (r: Result<Eliminated>)
    requires IsSystem(A, b) && |values| == |fixed|
    ensures r.Ok? <==> AllBelow(fixed, |b|)
    ensures r.Err? ==> r.error == IndexOutOfRange
    ensures r.Ok? ==> r.value.fixed == fixed && r.value.values == values && r.value.free == Complement(fixed, |b|)
    ensures r.Ok? ==> IsSystem(r.value.matrix, r.value.rhs) && |r.value.rhs| == |r.value.free|
    ensures r.Ok? ==> AllBelow(r.value.free, |b|)
  {
    if !AllBelow(fixed, |b|) then Err(IndexOutOfRange)
    else
      var free := Complement(fixed, |b|);
      ComplementBelow(fixed, |b|);
      var rhs := seq(|free|, i requires 0 <= i < |free| => b[free[i]] - Dot(Gather(A[free[i]], fixed), values));
      Ok(Eliminated(SubMatrix(A, free, free, |b|), rhs, fixed, free, values))
  }

  /**
   * For every vector `x` that takes the fixed values at the fixed indices,
   * each reduced equation has the same residual as the original equation of
   * its free unknown: the reduced system holds at the free part of `x`
   * exactly where the original equations of the free unknowns hold at `x`.
   */
  lemma EliminationKeepsEquations(A: Matrix, b: seq<real>, fixed: seq<nat>, values: seq<real>, x: seq<real>)
    requires IsSystem(A, b) && |values| == |fixed| && Distinct(fixed) && AllBelow(fixed, |b|)
    requires |x| == |b| && Gather(x, fixed) == values
    ensures var e := Eliminate(A, b, fixed, values).value;
      AllBelow(e.free, |x|) &&
      forall i :: 0 <= i < |e.free| ==>
        Dot(e.matrix[i], Gather(x, e.free)) - e.rhs[i] == Dot(A[e.free[i]], x) - b[e.free[i]]
  {
    var e := Eliminate(A, b, fixed, values).value;
    ComplementBelow(fixed, |b|);
    forall i | 0 <= i < |e.free|
      ensures Dot(e.matrix[i], Gather(x, e.free)) - e.rhs[i] == Dot(A[e.free[i]], x) - b[e.free[i]]
    {
      EliminatedRow(A, b, fixed, values, x, i);
    }
  }

  lemma EliminatedRow(A: Matrix, b: seq<real>, fixed: seq<nat>, values: seq<real>, x: seq<real>, i: nat)
    requires IsSystem(A, b) && |values| == |fixed| && Distinct(fixed) && AllBelow(fixed, |b|)
    requires |x| == |b| && Gather(x, fixed) == values
    requires i < |Complement(fixed, |b|)| && AllBelow(Complement(fixed, |b|), |b|)
    ensures var e := Eliminate(A, b, fixed, values).value;
      Dot(e.matrix[i], Gather(x, e.free)) - e.rhs[i] == Dot(A[e.free[i]], x) - b[e.free[i]]
  {
    var e := Eliminate(A, b, fixed, values).value;
    var row := A[e.free[i]];
    DotSplit(row, x, fixed);
    SubMatrixRow(A, e.free, e.free, |b|, i);
    assert e.rhs[i] == b[e.free[i]] - Dot(Gather(row, fixed), values);
  }

  /**
   * `shrink_dirichlet`: the node lists of all Dirichlet conditions are
   * concatenated into the fixed indices and their values, which are then
   * eliminated from the system.
   */
  function ShrinkDirichlet(A: Matrix, b: seq<real>, p: Problem, keys: seq<int>): (r: Result<Eliminated>)
    requires IsSystem(A, b) && p.mesh.Valid()
    ensures r.Ok? <==> DirichletData(p, keys).Ok? && AllBelow(Flatten(DirichletData(p, keys).value.nodes), |b|)
    ensures r.Ok? ==> var d := DirichletData(p, keys).value;
      r.value.fixed == Flatten(d.nodes) && r.value.values == Flatten(d.values) &&
      r.value.free == Complement(r.value.fixed, |b|) && IsSystem(r.value.matrix, r.value.rhs) &&
      |r.value.rhs| == |r.value.free| && |r.value.values| == |r.value.fixed| && AllBelow(r.value.free, |b|)
    ensures r.Err? && DirichletData(p, keys).Ok? ==> r.error == IndexOutOfRange
  {
    var d :- DirichletData(p, keys);
    FlattenSameShape(d.nodes, d.values);
    Eliminate(A, b, Flatten(d.nodes), Flatten(d.values))
  }

  /**
   * The fixed and the free indices of a successful elimination split the
   * unknowns of the system: no index twice, every index once.
   */
  lemma ShrinkDirichletPartition(A: Matrix, b: seq<real>, p: Problem, keys: seq<int>)
    requires IsSystem(A, b) && p.mesh.Valid() && ShrinkDirichlet(A, b, p, keys).Ok?
    ensures var e := ShrinkDirichlet(A, b, p, keys).value;
      Distinct(e.fixed) && |e.fixed| + |e.free| == |b| &&
      forall q :: 0 <= q < |b| ==> (q in e.fixed <==> q !in e.free)
  {
    DirichletFixedDistinct(p, keys);
    var e := ShrinkDirichlet(A, b, p, keys).value;
    ComplementSize(e.fixed, |b|);
  }

  /**
   * A vector that takes the Dirichlet values on the fixed nodes satisfies the
   * equations of the free unknowns exactly where its free part satisfies the
   * reduced system.
   */
  lemma ShrinkDirichletKeepsEquations(A: Matrix, b: seq<real>, p: Problem, keys: seq<int>, x: seq<real>)
    requires IsSystem(A, b) && p.mesh.Valid() && ShrinkDirichlet(A, b, p, keys).Ok?
    requires var e := ShrinkDirichlet(A, b, p, keys).value;
      |x| == |b| && AllBelow(e.fixed, |x|) && Gather(x, e.fixed) == e.values
    ensures var e := ShrinkDirichlet(A, b, p, keys).value;
      AllBelow(e.free, |x|) &&
      forall i :: 0 <= i < |e.free| ==>
        Dot(e.matrix[i], Gather(x, e.free)) - e.rhs[i] == Dot(A[e.free[i]], x) - b[e.free[i]]
  {
    DirichletFixedDistinct(p, keys);
    var e := ShrinkDirichlet(A, b, p, keys).value;
    EliminationKeepsEquations(A, b, e.fixed, e.values, x);
  }
}
