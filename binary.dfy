/**
 * Binary (periodic / anti-periodic) conditions: each pairs primary node
 * `p[t]` with replica node `r[t]` by the constraint `r[t] - v * p[t] = 0`,
 * enforced by one Lagrange multiplier per pair.
 */
module BinaryConditions {
  import opened Base
  import opened Indices
  import opened Dense
  import opened Conditions

  /**
   * The coordinate lists `_calc_values_for_binary` builds: two blocks per
   * condition (primary, then replica), each a list of row numbers, columns and
   * values of the same length.
   */
  datatype Blocks = Blocks(lines: seq<seq<nat>>, columns: seq<seq<nat>>, values: seq<seq<real>>)
  {
    predicate WellFormed()
    {
      |lines| == |columns| == |values| &&
      forall i :: 0 <= i < |lines| ==> |columns[i]| == |lines[i]| && |values[i]| == |lines[i]|
    }
  }

  /** `get_bc(key)` read as a binary condition. */
  function GetBinary(conds: map<int, Condition>, key: int): (r: Result<Condition>)
    ensures r.Ok? <==> key in conds && conds[key].Binary?
    ensures r.Ok? ==> r.value == conds[key]
    ensures r.Err? ==> r.error == (if key in conds then WrongKind else KeyError)
  {
    if key !in conds then Err(KeyError)
    else if !conds[key].Binary? then Err(WrongKind)
    else Ok(conds[key])
  }

  /** `np.arange(len) + start`. */
  function Iota(start: nat, len: nat): (s: seq<nat>)
    ensures |s| == len && forall i :: 0 <= i < len ==> s[i] == start + i
  {
    seq(len, i requires 0 <= i < len => start + i)
  }

  /** The number of primary nodes of the condition `key`, when it is a binary one. */
  function PrimaryCount(conds: map<int, Condition>, key: int): nat
  {
    if key in conds && conds[key].Binary? then |conds[key].primary| else 0
  }

  /**
   * The first multiplier row of condition `k`: the number of primary nodes of
   * the conditions before it (`lines_previous`).
   */
  function Offset(conds: map<int, Condition>, keys: seq<int>, k: nat): nat
    requires k <= |keys|
  {
    if k == 0 then 0 else Offset(conds, keys, k - 1) + PrimaryCount(conds, keys[k - 1])
  }

  /** The conditions `keys[i..]` are all binary ones. */
  predicate BinaryFrom(conds: map<int, Condition>, keys: seq<int>, i: nat)
  {
    forall j :: i <= j < |keys| ==> keys[j] in conds && conds[keys[j]].Binary?
  }

  /** The two blocks of one binary condition whose first multiplier row is `offset`. */
  function Head(bc: Condition, offset: nat): (h: Blocks)
    requires bc.Binary?
    ensures h.WellFormed() && |h.lines| == 2 && |h.columns| == 2 && |h.values| == 2
  {
    Blocks([Iota(offset, |bc.primary|), Iota(offset, |bc.replica|)],
           [bc.primary, bc.replica],
           [Fill(-bc.factor, |bc.primary|), Fill(1.0, |bc.replica|)])
  }

  /** The blocks of the conditions `keys[i..]`, each placed at its own offset. */
  function BlocksFrom(conds: map<int, Condition>, keys: seq<int>, i: nat): (r: Result<Blocks>)
    requires i <= |keys|
    ensures r.Ok? <==> BinaryFrom(conds, keys, i)
    ensures r.Ok? ==> r.value.WellFormed() && |r.value.lines| == 2 * (|keys| - i)
    decreases |keys| - i
  {
    if i == |keys| then Ok(Blocks([], [], []))
    else
      var bc :- GetBinary(conds, keys[i]);
      PrependResult(Head(bc, Offset(conds, keys, i)), BlocksFrom(conds, keys, i + 1))
  }

  /** What `_calc_values_for_binary` returns for `keys`. */
  function BinaryBlocks(conds: map<int, Condition>, keys: seq<int>): (r: Result<Blocks>)
    ensures r.Ok? <==> BinaryFrom(conds, keys, 0)
    ensures r.Ok? ==> r.value.WellFormed() && |r.value.lines| == 2 * |keys|
  {
    BlocksFrom(conds, keys, 0)
  }

  function Prepend(a: Blocks, b: Blocks): Blocks
  {
    Blocks(a.lines + b.lines, a.columns + b.columns, a.values + b.values)
  }

  function PrependResult(a: Blocks, r: Result<Blocks>): (q: Result<Blocks>)
    ensures q.Ok? <==> r.Ok?
    ensures r.Ok? && a.WellFormed() && r.value.WellFormed() ==> q.value.WellFormed()
  {
    match r
    case Ok(b) => Ok(Prepend(a, b))
    case Err(e) => Err(e)
  }

  lemma PrependEmpty(r: Result<Blocks>)
    ensures PrependResult(Blocks([], [], []), r) == r
  {
    if r.Ok? {
      assert [] + r.value.lines == r.value.lines;
      assert [] + r.value.columns == r.value.columns;
      assert [] + r.value.values == r.value.values;
    }
  }

  lemma PrependAssoc(a: Blocks, h: Blocks, r: Result<Blocks>)
    ensures PrependResult(a, PrependResult(h, r)) == PrependResult(Prepend(a, h), r)
  {
    if r.Ok? {
      assert a.lines + (h.lines + r.value.lines) == (a.lines + h.lines) + r.value.lines;
      assert a.columns + (h.columns + r.value.columns) == (a.columns + h.columns) + r.value.columns;
      assert a.values + (h.values + r.value.values) == (a.values + h.values) + r.value.values;
    }
  }

  lemma AppendTwo<T>(s: seq<T>, a: T, b: T)
    ensures s + [a] + [b] == s + [a, b]
  {
  }

  /** `_calc_values_for_binary`: the loop that accumulates the blocks condition by condition. */
  method CalcValuesForBinary(conds: map<int, Condition>, keys: seq<int>) returns (r: Result<Blocks>)
    ensures r == BinaryBlocks(conds, keys)
  {
    var lines: seq<seq<nat>> := [];
    var columns: seq<seq<nat>> := [];
    var values: seq<seq<real>> := [];
    var previous: nat := 0;
    var i := 0;
    PrependEmpty(BlocksFrom(conds, keys, 0));
    while i < |keys|
      invariant 0 <= i <= |keys| && previous == Offset(conds, keys, i)
      invariant BinaryBlocks(conds, keys) == PrependResult(Blocks(lines, columns, values), BlocksFrom(conds, keys, i))
    {
      var bc := GetBinary(conds, keys[i]);
      if bc.Err? {
        return Err(bc.error);
      }
      var c := bc.value;
      ghost var before := Blocks(lines, columns, values);
      PrependAssoc(before, Head(c, previous), BlocksFrom(conds, keys, i + 1));
      lines := lines + [Iota(previous, |c.primary|)];
      columns := columns + [c.primary];
      values := values + [Fill(-c.factor, |c.primary|)];
      lines := lines + [Iota(previous, |c.replica|)];
      columns := columns + [c.replica];
      values := values + [Fill(1.0, |c.replica|)];
      AppendTwo(before.lines, Iota(previous, |c.primary|), Iota(previous, |c.replica|));
      AppendTwo(before.columns, c.primary, c.replica);
      AppendTwo(before.values, Fill(-c.factor, |c.primary|), Fill(1.0, |c.replica|));
      assert Blocks(lines, columns, values) == Prepend(before, Head(c, previous));
      previous := previous + |c.primary|;
      i := i + 1;
    }
    assert Prepend(Blocks(lines, columns, values), Blocks([], [], [])) == Blocks(lines, columns, values);
    return Ok(Blocks(lines, columns, values));
  }

  /** The sum of the values of one block at (row, col): coo duplicates add up. */
  function BlockEntry(lines: seq<nat>, cols: seq<nat>, vals: seq<real>, row: nat, col: nat): real
    requires |cols| == |lines| && |vals| == |lines|
  {
    if lines == [] then 0.0
    else (if lines[0] == row && cols[0] == col then vals[0] else 0.0)
         + BlockEntry(lines[1..], cols[1..], vals[1..], row, col)
  }

  /** The entry (row, col) of the coo matrix the blocks describe. */
  function Entry(b: Blocks, row: nat, col: nat): real
    requires b.WellFormed()
    decreases |b.lines|
  {
    if b.lines == [] then 0.0
    else BlockEntry(b.lines[0], b.columns[0], b.values[0], row, col)
         + Entry(Blocks(b.lines[1..], b.columns[1..], b.values[1..]), row, col)
  }

  /**
   * The coo matrix of the blocks, `resize`d to `m` rows and `n` columns:
   * columns from `n` on are dropped.
   */
  function ConstraintMatrix(bl: Blocks, m: nat, n: nat): (B: Matrix)
    requires bl.WellFormed()
    ensures IsShape(B, m, n) && forall i, j :: 0 <= i < m && 0 <= j < n ==> B[i][j] == Entry(bl, i, j)
  {
    seq(m, i requires 0 <= i < m => seq(n, j requires 0 <= j < n => Entry(bl, i, j)))
  }

  /**
   * `shrink_binary`: the constraint matrix B has one row per multiplier, as
   * many as the largest row number plus one; the system becomes
   * `[[A, B^T], [B, 0]]` with zeros appended to the right-hand side.
   */
  function ShrinkBinary(A: Matrix, b: seq<real>, conds: map<int, Condition>, keys: seq<int>)
    : (r: Result<(Matrix, seq<real>, nat)>)
    requires IsSystem(A, b)
    ensures r.Ok? <==> BinaryFrom(conds, keys, 0) && Flatten(BinaryBlocks(conds, keys).value.lines) != []
    ensures r.Ok? ==> var bl := BinaryBlocks(conds, keys).value;
      r.value.2 == Bound(Flatten(bl.lines)) &&
      Saddle(r.value.0, r.value.1, A, b, ConstraintMatrix(bl, r.value.2, |b|))
  {
    var blocks :- BinaryBlocks(conds, keys);
    var rows := Flatten(blocks.lines);
    if rows == [] then Err(if keys == [] then NothingToConcatenate else EmptyIndexArrays)
    else
      var m := Bound(rows);
      var B := ConstraintMatrix(blocks, m, |b|);
      AugmentSaddle(A, b, B);
      Ok((Augment(A, B, |b|, m), b + Zeros(m), m))
  }

  /** Every primary node has a replica, distinct from it, and both are nodes of the system. */
  predicate Paired(c: Condition, n: nat)
  {
    c.Binary? && |c.primary| == |c.replica| &&
    forall t :: 0 <= t < |c.primary| ==> c.primary[t] != c.replica[t] && c.primary[t] < n && c.replica[t] < n
  }

  predicate AllPaired(conds: map<int, Condition>, keys: seq<int>, n: nat)
  {
    forall j :: 0 <= j < |keys| ==> keys[j] in conds && Paired(conds[keys[j]], n)
  }

  lemma {:induction false} IotaEntry(start: nat, len: nat, cols: seq<nat>, vals: seq<real>, row: nat, col: nat)
    requires |cols| == len && |vals| == len
    ensures BlockEntry(Iota(start, len), cols, vals, row, col) ==
            if start <= row < start + len && cols[row - start] == col then vals[row - start] else 0.0
    decreases len
  {
    if len > 0 {
      assert Iota(start, len)[1..] == Iota(start + 1, len - 1);
      IotaEntry(start + 1, len - 1, cols[1..], vals[1..], row, col);
    }
  }

  /** The first two blocks of a block list and the rest. */
  lemma {:induction false} EntryUnfold(a: Blocks, rest: Blocks, row: nat, col: nat)
    requires |a.lines| == 2 && |a.columns| == 2 && |a.values| == 2 && Prepend(a, rest).WellFormed()
    ensures a.WellFormed() && rest.WellFormed()
    ensures Entry(Prepend(a, rest), row, col) ==
            BlockEntry(a.lines[0], a.columns[0], a.values[0], row, col)
            + BlockEntry(a.lines[1], a.columns[1], a.values[1], row, col)
            + Entry(rest, row, col)
  {
    var all := Prepend(a, rest);
    assert a.lines == all.lines[..2] && a.columns == all.columns[..2] && a.values == all.values[..2];
    forall i | 0 <= i < |rest.lines| ensures |rest.columns[i]| == |rest.lines[i]| && |rest.values[i]| == |rest.lines[i]| {
      assert rest.lines[i] == all.lines[i + 2];
      assert rest.columns[i] == all.columns[i + 2];
      assert rest.values[i] == all.values[i + 2];
    }
    var tail := Blocks(all.lines[1..], all.columns[1..], all.values[1..]);
    assert Blocks(tail.lines[1..], tail.columns[1..], tail.values[1..]) == rest;
  }

  /** What pair `t` of a paired condition puts in column `col` of its multiplier row. */
  function PairValue(c: Condition, t: nat, col: nat): real
    requires c.Binary? && t < |c.primary| && t < |c.replica|
  {
    (if col == c.primary[t] then -c.factor else 0.0) + (if col == c.replica[t] then 1.0 else 0.0)
  }

  /** Row `row` of the two blocks of one condition placed at `offset`. */
  lemma {:induction false} HeadEntry(bc: Condition, offset: nat, row: nat, col: nat)
    requires bc.Binary? && |bc.replica| == |bc.primary|
    ensures var h := Head(bc, offset);
      BlockEntry(h.lines[0], h.columns[0], h.values[0], row, col)
      + BlockEntry(h.lines[1], h.columns[1], h.values[1], row, col) ==
      if offset <= row < offset + |bc.primary| then
        PairValue(bc, row - offset, col)
      else 0.0
  {
    IotaEntry(offset, |bc.primary|, bc.primary, Fill(-bc.factor, |bc.primary|), row, col);
    IotaEntry(offset, |bc.replica|, bc.replica, Fill(1.0, |bc.replica|), row, col);
  }

  /** The blocks of `keys[i..]` are condition `i`'s two blocks followed by those of `keys[i + 1..]`. */
  lemma {:induction false} BlocksFromStep(conds: map<int, Condition>, keys: seq<int>, n: nat, i: nat)
    requires AllPaired(conds, keys, n) && i < |keys|
    ensures BinaryFrom(conds, keys, i) && BinaryFrom(conds, keys, i + 1)
    ensures BlocksFrom(conds, keys, i).value ==
            Prepend(Head(conds[keys[i]], Offset(conds, keys, i)), BlocksFrom(conds, keys, i + 1).value)
  {
    assert BinaryFrom(conds, keys, i + 1);
  }

  /** One paired condition's blocks at `offset` in front of well-formed blocks are well-formed. */
  lemma PrependHeadWellFormed(bc: Condition, offset: nat, rest: Blocks)
    requires bc.Binary? && rest.WellFormed()
    ensures Prepend(Head(bc, offset), rest).WellFormed()
  {
    var all := Prepend(Head(bc, offset), rest);
    forall i | 0 <= i < |all.lines| ensures |all.columns[i]| == |all.lines[i]| && |all.values[i]| == |all.lines[i]| {
      if i >= 2 {
        assert all.lines[i] == rest.lines[i - 2] && all.columns[i] == rest.columns[i - 2] && all.values[i] == rest.values[i - 2];
      }
    }
  }

  /** Row `row` of one paired condition's blocks at `offset` in front of the rest, outside the condition's rows. */
  lemma {:induction false} HeadPrependEntry(bc: Condition, offset: nat, rest: Blocks, all: Blocks, row: nat, col: nat)
    requires bc.Binary? && |bc.replica| == |bc.primary| && rest.WellFormed() && all == Prepend(Head(bc, offset), rest)
    requires !(offset <= row < offset + |bc.primary|)
    ensures all.WellFormed()
    ensures Entry(all, row, col) == Entry(rest, row, col)
  {
    PrependHeadWellFormed(bc, offset, rest);
    EntryUnfold(Head(bc, offset), rest, row, col);
    HeadEntry(bc, offset, row, col);
  }

  /** Row `Offset(i) + t` of the blocks of `keys[i..]`: pair `t`'s value plus what the rest puts there. */
  lemma {:induction false} EntryInside(conds: map<int, Condition>, keys: seq<int>, n: nat, i: nat, t: nat, row: nat, col: nat)
    requires AllPaired(conds, keys, n) && i < |keys| && t < |conds[keys[i]].primary| && row == Offset(conds, keys, i) + t
    ensures BinaryFrom(conds, keys, i)
    ensures Entry(BlocksFrom(conds, keys, i).value, row, col) ==
      PairValue(conds[keys[i]], t, col) + Entry(BlocksFrom(conds, keys, i + 1).value, row, col)
  {
    BlocksFromStep(conds, keys, n, i);
    HeadPairEntry(conds[keys[i]], Offset(conds, keys, i), BlocksFrom(conds, keys, i + 1).value,
                  BlocksFrom(conds, keys, i).value, t, row, col);
  }

  /** Row `offset + t` of one paired condition's blocks in front of the rest. */
  lemma HeadPairEntry(bc: Condition, offset: nat, rest: Blocks, all: Blocks, t: nat, row: nat, col: nat)
    requires bc.Binary? && |bc.replica| == |bc.primary| && rest.WellFormed() && all == Prepend(Head(bc, offset), rest)
    requires t < |bc.primary| && row == offset + t
    ensures all.WellFormed()
    ensures Entry(all, row, col) == PairValue(bc, t, col) + Entry(rest, row, col)
  {
    PrependHeadWellFormed(bc, offset, rest);
    EntryUnfold(Head(bc, offset), rest, row, col);
    HeadPairValue(bc, offset, t, row, col);
  }

  /** The two blocks of one condition at `offset` hold pair `t`'s value in row `offset + t`. */
  lemma HeadPairValue(bc: Condition, offset: nat, t: nat, row: nat, col: nat)
    requires bc.Binary? && |bc.replica| == |bc.primary| && t < |bc.primary| && row == offset + t
    ensures var h := Head(bc, offset);
      BlockEntry(h.lines[0], h.columns[0], h.values[0], row, col)
      + BlockEntry(h.lines[1], h.columns[1], h.values[1], row, col) == PairValue(bc, t, col)
  {
    HeadEntry(bc, offset, row, col);
    assert row - offset == t;
  }

  /** A row outside condition `i`'s rows in the blocks of `keys[i..]`: only the rest puts something there. */
  lemma {:induction false} EntryOutside(conds: map<int, Condition>, keys: seq<int>, n: nat, i: nat, row: nat, col: nat)
    requires AllPaired(conds, keys, n) && i < |keys|
    requires !(Offset(conds, keys, i) <= row < Offset(conds, keys, i) + |conds[keys[i]].primary|)
    ensures BinaryFrom(conds, keys, i)
    ensures Entry(BlocksFrom(conds, keys, i).value, row, col) == Entry(BlocksFrom(conds, keys, i + 1).value, row, col)
  {
    BlocksFromStep(conds, keys, n, i);
    HeadPrependEntry(conds[keys[i]], Offset(conds, keys, i), BlocksFrom(conds, keys, i + 1).value,
                     BlocksFrom(conds, keys, i).value, row, col);
  }

  /** The blocks of `keys[i..]` put nothing in the rows before condition `i`'s first row. */
  lemma {:induction false} EntryBeforeOffset(conds: map<int, Condition>, keys: seq<int>, n: nat, i: nat, row: nat, col: nat)
    requires AllPaired(conds, keys, n) && i <= |keys| && row < Offset(conds, keys, i)
    ensures BinaryFrom(conds, keys, i)
    ensures Entry(BlocksFrom(conds, keys, i).value, row, col) == 0.0
    decreases |keys| - i
  {
    if i < |keys| {
      EntryOutside(conds, keys, n, i, row, col);
      EntryBeforeOffset(conds, keys, n, i + 1, row, col);
    }
  }

  /**
   * Row `Offset(k) + t` of the blocks of `keys[i..]`, for `i <= k`, holds
   * `-v` at the primary node `p[t]` of condition `k` and `1` at its replica `r[t]`.
   */
  lemma {:induction false} EntryOfPair(conds: map<int, Condition>, keys: seq<int>, n: nat, i: nat, k: nat, t: nat, row: nat, col: nat)
    requires AllPaired(conds, keys, n) && i <= k < |keys| && t < |conds[keys[k]].primary| && row == Offset(conds, keys, k) + t
    ensures BinaryFrom(conds, keys, i)
    ensures Entry(BlocksFrom(conds, keys, i).value, row, col) == PairValue(conds[keys[k]], t, col)
    decreases k - i
  {
    if i == k {
      EntryOfPairHere(conds, keys, n, k, t, row, col);
    } else {
      OffsetMonotone(conds, keys, i + 1, k);
      EntrySkip(conds, keys, n, i, row, col);
      EntryOfPair(conds, keys, n, i + 1, k, t, row, col);
    }
  }

  lemma {:induction false} EntryOfPairHere(conds: map<int, Condition>, keys: seq<int>, n: nat, k: nat, t: nat, row: nat, col: nat)
    requires AllPaired(conds, keys, n) && k < |keys| && t < |conds[keys[k]].primary| && row == Offset(conds, keys, k) + t
    ensures BinaryFrom(conds, keys, k)
    ensures Entry(BlocksFrom(conds, keys, k).value, row, col) == PairValue(conds[keys[k]], t, col)
  {
    EntryInside(conds, keys, n, k, t, row, col);
    EntryBeforeOffset(conds, keys, n, k + 1, row, col);
    AddZero(Entry(BlocksFrom(conds, keys, k).value, row, col), PairValue(conds[keys[k]], t, col),
            Entry(BlocksFrom(conds, keys, k + 1).value, row, col));
  }

  lemma AddZero(x: real, v: real, y: real)
    requires x == v + y && y == 0.0
    ensures x == v
  {
  }

  /** Condition `i` puts nothing in the rows from `Offset(i + 1)` on. */
  lemma {:induction false} EntrySkip(conds: map<int, Condition>, keys: seq<int>, n: nat, i: nat, row: nat, col: nat)
    requires AllPaired(conds, keys, n) && i < |keys| && Offset(conds, keys, i + 1) <= row
    ensures BinaryFrom(conds, keys, i)
    ensures Entry(BlocksFrom(conds, keys, i).value, row, col) == Entry(BlocksFrom(conds, keys, i + 1).value, row, col)
  {
    EntryOutside(conds, keys, n, i, row, col);
  }

  lemma {:induction false} OffsetMonotone(conds: map<int, Condition>, keys: seq<int>, i: nat, k: nat)
    requires i <= k <= |keys|
    ensures Offset(conds, keys, i) <= Offset(conds, keys, k)
    decreases k - i
  {
    if i < k {
      OffsetMonotone(conds, keys, i, k - 1);
    }
  }

  lemma IotaBound(start: nat, len: nat)
    ensures Bound(Iota(start, len)) == if len == 0 then 0 else start + len
  {
    var s := Iota(start, len);
    if len > 0 {
      assert s[len - 1] == start + len - 1;
      var i :| 0 <= i < len && s[i] == Bound(s) - 1;
    }
  }

  /** The row numbers of condition `i` come before those of the later conditions. */
  lemma {:induction false} RowsSplit(conds: map<int, Condition>, keys: seq<int>, n: nat, i: nat)
    requires AllPaired(conds, keys, n) && i < |keys|
    ensures BinaryFrom(conds, keys, i)
    ensures var bc := conds[keys[i]]; var offset := Offset(conds, keys, i);
      Flatten(BlocksFrom(conds, keys, i).value.lines) ==
      Iota(offset, |bc.primary|) + Iota(offset, |bc.replica|) + Flatten(BlocksFrom(conds, keys, i + 1).value.lines)
  {
    BlocksFromStep(conds, keys, n, i);
    var h := Head(conds[keys[i]], Offset(conds, keys, i));
    var rest := BlocksFrom(conds, keys, i + 1).value;
    assert h.lines == [h.lines[0], h.lines[1]];
    FlattenPair(h.lines[0], h.lines[1], rest.lines);
  }

  /**
   * With paired conditions, the blocks of `keys[i..]` hold two row numbers
   * per primary node, the largest of them `Offset(|keys|) - 1`.
   */
  lemma {:induction false} RowsOfPairs(conds: map<int, Condition>, keys: seq<int>, n: nat, i: nat)
    requires AllPaired(conds, keys, n) && i <= |keys|
    ensures BinaryFrom(conds, keys, i)
    ensures var rows := Flatten(BlocksFrom(conds, keys, i).value.lines);
      var first, total := Offset(conds, keys, i), Offset(conds, keys, |keys|);
      first <= total && |rows| == 2 * (total - first) && Bound(rows) == (if total == first then 0 else total)
    decreases |keys| - i
  {
    if i < |keys| {
      var bc := conds[keys[i]];
      RowsSplit(conds, keys, n, i);
      RowsOfPairs(conds, keys, n, i + 1);
      RowsPrepend(Offset(conds, keys, i), |bc.primary|, Flatten(BlocksFrom(conds, keys, i + 1).value.lines),
                  Offset(conds, keys, |keys|));
    }
  }

  /** Two blocks of `len` rows from `offset` on, in front of the rows from `offset + len` up to `total`. */
  lemma RowsPrepend(offset: nat, len: nat, rest: seq<nat>, total: nat)
    requires offset + len <= total && |rest| == 2 * (total - (offset + len))
    requires Bound(rest) == (if total == offset + len then 0 else total)
    ensures var rows := Iota(offset, len) + Iota(offset, len) + rest;
      |rows| == 2 * (total - offset) && Bound(rows) == (if total == offset then 0 else total)
  {
    var p := Iota(offset, len);
    BoundAppend(p + p, rest);
    BoundAppend(p, p);
    IotaBound(offset, len);
  }

  /**
   * With paired conditions `shrink_binary` adds one multiplier per primary
   * node, and fails only when there is none.
   */
  lemma {:induction false} BinaryMultiplierCount(A: Matrix, b: seq<real>, conds: map<int, Condition>, keys: seq<int>)
    requires IsSystem(A, b) && AllPaired(conds, keys, |b|)
    ensures ShrinkBinary(A, b, conds, keys).Ok? <==> Offset(conds, keys, |keys|) > 0
    ensures ShrinkBinary(A, b, conds, keys).Ok? ==> ShrinkBinary(A, b, conds, keys).value.2 == Offset(conds, keys, |keys|)
  {
    RowsOfPairs(conds, keys, |b|, 0);
  }

  /**
   * The layout of the binary constraints: the multiplier of pair `t` of
   * condition `k` has the row (and, transposed, the column) that reads
   * `r[t] - v * p[t] = 0`, with a zero right-hand side.
   */
  lemma {:induction false} BinaryConstraintRow(A: Matrix, b: seq<real>, conds: map<int, Condition>, keys: seq<int>, k: nat, t: nat, col: nat)
    requires IsSystem(A, b) && AllPaired(conds, keys, |b|) && ShrinkBinary(A, b, conds, keys).Ok?
    requires k < |keys| && t < |conds[keys[k]].primary| && col < |b|
    ensures var r := ShrinkBinary(A, b, conds, keys).value;
      var c := conds[keys[k]];
      var row := |b| + Offset(conds, keys, k) + t;
      row < |r.1| && r.1[row] == 0.0 &&
      r.0[row][col] == (if col == c.primary[t] then -c.factor else if col == c.replica[t] then 1.0 else 0.0) &&
      r.0[col][row] == r.0[row][col]
  {
    var r := ShrinkBinary(A, b, conds, keys).value;
    var B := ConstraintMatrix(BinaryBlocks(conds, keys).value, r.2, |b|);
    var i := Offset(conds, keys, k) + t;
    BinaryMultiplierCount(A, b, conds, keys);
    ConstraintEntry(conds, keys, |b|, k, t, col);
    SaddleEntry(r.0, r.1, A, b, B, i, col);
  }

  /** Entry `(Offset(k) + t, col)` of the constraint matrix is what pair `t` of condition `k` puts there. */
  lemma {:induction false} ConstraintEntry(conds: map<int, Condition>, keys: seq<int>, n: nat, k: nat, t: nat, col: nat)
    requires AllPaired(conds, keys, n) && k < |keys| && t < |conds[keys[k]].primary| && col < n
    ensures BinaryFrom(conds, keys, 0)
    ensures var B := ConstraintMatrix(BinaryBlocks(conds, keys).value, Offset(conds, keys, |keys|), n);
      Offset(conds, keys, k) + t < |B| &&
      B[Offset(conds, keys, k) + t][col] == PairValue(conds[keys[k]], t, col)
  {
    OffsetMonotone(conds, keys, k + 1, |keys|);
    EntryOfPair(conds, keys, n, 0, k, t, Offset(conds, keys, k) + t, col);
  }

  /**
   * The number of multipliers `compute_support_data` derives from the blocks,
   * as written: `np.max(lines) + 1` over the list of row arrays, which numpy
   * refuses when the arrays differ in length and when they hold no row.
   */
  function BinaryCountAsWritten(bl: Blocks): (r: Result<nat>)
    ensures r.Ok? ==> r.value > 0 && AllBelow(Flatten(bl.lines), r.value) && r.value - 1 in Flatten(bl.lines)
    ensures (exists i, j :: 0 <= i < j < |bl.lines| && |bl.lines[i]| != |bl.lines[j]|) ==> r == Err(InhomogeneousShape)
  {
    if exists i, j :: 0 <= i < j < |bl.lines| && |bl.lines[i]| != |bl.lines[j]| then Err(InhomogeneousShape)
    else if Flatten(bl.lines) == [] then Err(EmptyReduction)
    else Ok(Bound(Flatten(bl.lines)))
  }

  /** The number of multipliers as intended: the largest row number over all blocks, plus one. */
  function BinaryCount(bl: Blocks): (r: Result<nat>)
    ensures r.Ok? <==> Flatten(bl.lines) != []
    ensures r.Ok? ==> r.value > 0 && AllBelow(Flatten(bl.lines), r.value) && r.value - 1 in Flatten(bl.lines)
  {
    if Flatten(bl.lines) == [] then Err(EmptyReduction)
    else Ok(Bound(Flatten(bl.lines)))
  }

  /** The intended count is the number of multipliers `shrink_binary` adds. */
  lemma BinaryCountMatchesShrink(A: Matrix, b: seq<real>, conds: map<int, Condition>, keys: seq<int>)
    requires IsSystem(A, b) && ShrinkBinary(A, b, conds, keys).Ok?
    ensures BinaryCount(BinaryBlocks(conds, keys).value) == Ok(ShrinkBinary(A, b, conds, keys).value.2)
  {
  }

  /** Where the row arrays all have one length, the code as written gives the intended count. */
  lemma BinaryCountAsWrittenWhenHomogeneous(bl: Blocks)
    requires forall i, j :: 0 <= i < j < |bl.lines| ==> |bl.lines[i]| == |bl.lines[j]|
    ensures BinaryCountAsWritten(bl) == BinaryCount(bl)
  {
  }

  /** Two binary conditions, with one and with two pairs. */
  function RaggedConditions(): map<int, Condition>
  {
    map[1 := Binary([0], [1], 1.0), 2 := Binary([2, 3], [4, 5], 1.0)]
  }

  /**
   * For the conditions of `RaggedConditions` the intended count is three
   * multipliers, but the count as written fails on the ragged row arrays.
   */
  lemma RaggedBinaryCountFails()
    ensures var bl := BinaryBlocks(RaggedConditions(), [1, 2]);
      bl.Ok? && BinaryCountAsWritten(bl.value) == Err(InhomogeneousShape) && BinaryCount(bl.value) == Ok(3)
  {
    var conds, keys := RaggedConditions(), [1, 2];
    assert AllPaired(conds, keys, 6);
    assert Offset(conds, keys, 2) == 3;
    RowsOfPairs(conds, keys, 6, 0);
    var bl := BinaryBlocks(conds, keys).value;
    BlocksFromStep(conds, keys, 6, 0);
    BlocksFromStep(conds, keys, 6, 1);
    assert |bl.lines[0]| != |bl.lines[2]|;
  }

  /** On any system of six nodes, `shrink_binary` adds three multipliers for the conditions of `RaggedConditions`. */
  lemma RaggedBinaryShrink(A: Matrix, b: seq<real>)
    requires IsSystem(A, b) && |b| == 6
    ensures ShrinkBinary(A, b, RaggedConditions(), [1, 2]).Ok?
    ensures ShrinkBinary(A, b, RaggedConditions(), [1, 2]).value.2 == 3
  {
    var conds, keys := RaggedConditions(), [1, 2];
    assert AllPaired(conds, keys, 6);
    assert Offset(conds, keys, 2) == 3;
    BinaryMultiplierCount(A, b, conds, keys);
  }
}
