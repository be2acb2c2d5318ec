/**
 * Index bookkeeping on sequences of node and degree-of-freedom indices:
 * the numpy operations `np.unique`, `np.where`, `np.setdiff1d(np.arange(n), ...)`,
 * fancy indexing `x[idx]` and `np.concatenate`, with the counting facts the
 * reducer needs.
 */
module Indices {

  predicate Increasing(s: seq<nat>)
  {
    forall i, j :: 0 <= i < j < |s| ==> s[i] < s[j]
  }

  predicate Distinct(s: seq<nat>)
  {
    forall i, j :: 0 <= i < j < |s| ==> s[i] != s[j]
  }

  predicate AllBelow(s: seq<nat>, n: int)
  {
    forall i :: 0 <= i < |s| ==> s[i] < n
  }

  /** The elements of `S` below `n`, in ascending order. */
  function Ascending(S: set<nat>, n: nat): (r: seq<nat>)
    ensures Increasing(r)
    ensures forall x :: x in r <==> x in S && x < n
  {
    if n == 0 then []
    else
      var prev := Ascending(S, n - 1);
      assert AllBelow(prev, n - 1) by {
        forall i | 0 <= i < |prev| ensures prev[i] < n - 1 {
          assert prev[i] in prev;
        }
      }
      prev + (if n - 1 in S then [n - 1] else [])
  }

  /** A strict upper bound of the elements of `s`. */
  function Bound(s: seq<nat>): (b: nat)
    ensures AllBelow(s, b)
    ensures s == [] ==> b == 0
    ensures s != [] ==> b > 0 && b - 1 in s
  {
    if s == [] then 0
    else
      var rest := Bound(s[1..]);
      if s[0] < rest then rest else s[0] + 1
  }

  function Max(a: nat, b: nat): nat
  {
    if a < b then b else a
  }

  lemma {:induction false} BoundAppend(a: seq<nat>, b: seq<nat>)
    ensures Bound(a + b) == Max(Bound(a), Bound(b))
  {
    if a != [] {
      assert (a + b)[1..] == a[1..] + b;
      BoundAppend(a[1..], b);
    } else {
      assert a + b == b;
    }
  }

  /** `np.unique`: the distinct elements of `s`, ascending. */
  function Unique(s: seq<nat>): (r: seq<nat>)
    ensures Increasing(r)
    ensures forall x :: x in r <==> x in s
  {
    Ascending((set x | x in s), Bound(s))
  }

  /** `np.setdiff1d(np.arange(n), fixed)`: the indices below `n` not in `fixed`, ascending. */
  function Complement(fixed: seq<nat>, n: nat): (r: seq<nat>)
    ensures Increasing(r)
    ensures forall x :: x in r <==> 0 <= x < n && x !in fixed
  {
    if n == 0 then []
    else
      var prev := Complement(fixed, n - 1);
      assert AllBelow(prev, n - 1) by {
        forall i | 0 <= i < |prev| ensures prev[i] < n - 1 {
          assert prev[i] in prev;
        }
      }
      prev + (if n - 1 in fixed then [] else [n - 1])
  }

  /** Fancy indexing `x[idx]`. */
  function Gather<T>(x: seq<T>, idx: seq<nat>): (r: seq<T>)
    requires AllBelow(idx, |x|)
    ensures |r| == |idx| && forall j :: 0 <= j < |idx| ==> r[j] == x[idx[j]]
  {
    seq(|idx|, j requires 0 <= j < |idx| => x[idx[j]])
  }

  /** `np.concatenate` of a list of arrays. */
  function Flatten<T>(parts: seq<seq<T>>): seq<T>
  {
    if parts == [] then [] else Flatten(parts[..|parts| - 1]) + parts[|parts| - 1]
  }

  lemma FlattenAppend<T>(a: seq<seq<T>>, b: seq<seq<T>>)
    ensures Flatten(a + b) == Flatten(a) + Flatten(b)
  {
    if b != [] {
      var k := |b| - 1;
      assert (a + b)[..|a + b| - 1] == a + b[..k];
      FlattenAppend(a, b[..k]);
    } else {
      assert a + b == a;
    }
  }

  /** `np.concatenate` of two leading arrays and the rest. */
  lemma FlattenPair<T>(a: seq<T>, b: seq<T>, rest: seq<seq<T>>)
    ensures Flatten([a, b] + rest) == a + b + Flatten(rest)
  {
    FlattenAppend([a, b], rest);
    assert [a, b][..1] == [a];
    assert Flatten([a]) == [] + a;
  }

  lemma {:induction false} FlattenMembers<T>(parts: seq<seq<T>>, x: T)
    ensures x in Flatten(parts) <==> exists i :: 0 <= i < |parts| && x in parts[i]
  {
    if parts != [] {
      var k := |parts| - 1;
      var prefix := parts[..k];
      FlattenMembers(prefix, x);
      assert Flatten(parts) == Flatten(prefix) + parts[k];
      assert forall i :: 0 <= i < k ==> parts[i] == prefix[i];
      if x in Flatten(parts) {
        if x in Flatten(prefix) {
          var i :| 0 <= i < k && x in prefix[i];
          assert x in parts[i];
        } else {
          assert x in parts[k];
        }
      }
      if exists i :: 0 <= i < |parts| && x in parts[i] {
        var i :| 0 <= i < |parts| && x in parts[i];
        if i < k {
          assert x in prefix[i];
        }
      }
    }
  }

  /** The position of `x` in `s` (its first occurrence). */
  function IndexOf(s: seq<nat>, x: nat): (j: nat)
    requires x in s
    ensures j < |s| && s[j] == x
    ensures forall i :: 0 <= i < j ==> s[i] != x
  {
    if s[0] == x then 0 else 1 + IndexOf(s[1..], x)
  }

  lemma IncreasingIsDistinct(s: seq<nat>)
    requires Increasing(s)
    ensures Distinct(s)
  {
  }

  /** The number of elements of `s` below `n`, counted with repetition. */
  function CountBelow(s: seq<nat>, n: nat): nat
  {
    if s == [] then 0 else (if s[0] < n then 1 else 0) + CountBelow(s[1..], n)
  }

  lemma {:induction false} CountBelowStep(s: seq<nat>, n: nat)
    requires Distinct(s) && n > 0
    ensures CountBelow(s, n) == CountBelow(s, n - 1) + (if n - 1 in s then 1 else 0)
  {
    if s != [] {
      assert Distinct(s[1..]);
      CountBelowStep(s[1..], n);
      assert n - 1 in s <==> s[0] == n - 1 || n - 1 in s[1..];
      if s[0] == n - 1 {
        assert n - 1 !in s[1..] by {
          forall i | 0 <= i < |s[1..]| ensures s[1..][i] != n - 1 {
            assert s[1..][i] == s[i + 1];
          }
        }
      }
    }
  }

  lemma {:induction false} CountBelowAll(s: seq<nat>, n: nat)
    requires AllBelow(s, n)
    ensures CountBelow(s, n) == |s|
  {
    if s != [] {
      CountBelowAll(s[1..], n);
    }
  }

  lemma {:induction false} ComplementCount(fixed: seq<nat>, n: nat)
    requires Distinct(fixed)
    ensures |Complement(fixed, n)| + CountBelow(fixed, n) == n
  {
    if n > 0 {
      ComplementCount(fixed, n - 1);
      CountBelowStep(fixed, n);
    } else if fixed != [] {
      CountBelowZero(fixed);
    }
  }

  lemma {:induction false} CountBelowZero(s: seq<nat>)
    ensures CountBelow(s, 0) == 0
  {
    if s != [] {
      CountBelowZero(s[1..]);
    }
  }

  /**
   * The complement of a duplicate-free index set within `0..n-1` has
   * `n - |fixed|` elements, and together they cover `0..n-1` exactly once.
   */
  lemma ComplementSize(fixed: seq<nat>, n: nat)
    requires Distinct(fixed) && AllBelow(fixed, n)
    ensures |Complement(fixed, n)| + |fixed| == n
    ensures forall p :: 0 <= p < n ==> (p in fixed <==> p !in Complement(fixed, n))
  {
    ComplementCount(fixed, n);
    CountBelowAll(fixed, n);
  }

  /** Concatenating lists of equal lengths gives lists of equal length. */
  lemma {:induction false} FlattenSameShape<T, U>(a: seq<seq<T>>, b: seq<seq<U>>)
    requires |a| == |b| && forall i :: 0 <= i < |a| ==> |a[i]| == |b[i]|
    ensures |Flatten(a)| == |Flatten(b)|
  {
    if a != [] {
      var k := |a| - 1;
      FlattenSameShape(a[..k], b[..k]);
    }
  }

  lemma DistinctAppend(a: seq<nat>, b: seq<nat>)
    requires Distinct(a) && Distinct(b) && forall x :: x in a ==> x !in b
    ensures Distinct(a + b)
  {
    var c := a + b;
    forall i, j | 0 <= i < j < |c| ensures c[i] != c[j] {
      if i < |a| && j >= |a| {
        assert c[i] in a && c[j] == b[j - |a|];
      }
    }
  }

  /** Duplicate-free lists without a common element concatenate to a duplicate-free list. */
  lemma {:induction false} FlattenDistinct(parts: seq<seq<nat>>)
    requires forall i :: 0 <= i < |parts| ==> Distinct(parts[i])
    requires forall i, j, x :: 0 <= i < j < |parts| && x in parts[i] ==> x !in parts[j]
    ensures Distinct(Flatten(parts))
  {
    if parts != [] {
      var k := |parts| - 1;
      var prefix := parts[..k];
      FlattenDistinct(prefix);
      forall x | x in Flatten(prefix) ensures x !in parts[k] {
        FlattenMembers(prefix, x);
        var i :| 0 <= i < k && x in prefix[i];
        assert x in parts[i];
      }
      DistinctAppend(Flatten(prefix), parts[k]);
    }
  }
}
