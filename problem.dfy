/**
 * The parts of the problem classes around the reduction: the choice of the
 * linear solver, the frequency of a harmonic problem and the time-step
 * schedule of the monitors of a transient problem.
 */
module Problems {
  import opened Base

  /** The `solver` argument of `solve_linear_system`: nothing (any falsy value), a name, or a callable. */
  datatype SolverArg = NoSolver | Name(name: string) | Function

  /** The solver that `solve_linear_system` runs. */
  datatype SolverKind = UserFunction | Direct | Iterative(name: string) | Pardiso

  /** The names of the iterative solvers of `scipy.sparse.linalg` that can be selected. */
  const IterativeNames: set<string> :=
    {"bicg", "bicgstab", "cg", "cgs", "gmres", "lgmres", "minres", "qmr", "gcrotmk", "tfqmr"}

  predicate Falsy(s: SolverArg)
  {
    s.NoSolver? || (s.Name? && s.name == "")
  }

  /**
   * The solver in effect: a falsy argument falls back to "spsolve". The
   * fallback reads `kwargs.get('solver', 'spsolve')`, but `solver` is a
   * named parameter, so the keyword arguments never hold that key.
   */
  function Effective(solver: SolverArg): SolverArg
  {
    if Falsy(solver) then Name("spsolve") else solver
  }

  /**
   * The solver selection of `solve_linear_system`: a right-hand side of an
   * unknown type is refused first; then a callable is called, and a name
   * must be "spsolve", one of the iterative names or "pardiso".
   */
  function SelectSolver(solver: SolverArg, rhsKnown: bool): (r: Result<SolverKind>)
    ensures var s := Effective(solver);
      r.Ok? <==> rhsKnown && (s.Function? || (s.Name? && (s.name == "spsolve" || s.name in IterativeNames || s.name == "pardiso")))
    ensures r.Err? ==> r.error == (if rhsKnown then SolverUnknown else UnknownRhsType)
    ensures r.Ok? ==> var s := Effective(solver);
      (r.value == UserFunction <==> s.Function?) &&
      (r.value == Direct <==> s == Name("spsolve")) &&
      (r.value == Pardiso <==> s == Name("pardiso")) &&
      (r.value.Iterative? <==> s.Name? && s.name in IterativeNames) &&
      (r.value.Iterative? ==> r.value.name == s.name)
  {
    var s := Effective(solver);
    if !rhsKnown then Err(UnknownRhsType)
    else match s
      case Function => Ok(UserFunction)
      case NoSolver => Err(SolverUnknown)
      case Name(n) =>
        if n == "spsolve" then Ok(Direct)
        else if n in IterativeNames then Ok(Iterative(n))
        else if n == "pardiso" then Ok(Pardiso)
        else Err(SolverUnknown)
  }

  /** Without a solver argument, or with an empty name, the direct solver runs. */
  lemma DefaultSolverIsDirect(solver: SolverArg)
    requires Falsy(solver)
    ensures SelectSolver(solver, true) == Ok(Direct)
  {
  }

  /** A non-empty name outside the known ones is refused with SolverUnknownError. */
  lemma UnknownNameRefused(n: string)
    requires n != "" && n != "spsolve" && n != "pardiso" && n !in IterativeNames
    ensures SelectSolver(Name(n), true) == Err(SolverUnknown)
  {
  }

  /** A harmonic problem with its frequency, None until one is set. */
  class HarmonicProblem {
    var frequency: Option<real>

    /** The stored frequency is never negative. */
    predicate Valid()
      reads this
    {
      frequency.Some? ==> frequency.value >= 0.0
    }

    /** `__init__` before its frequency is set. */
    constructor ()
      ensures frequency == None && Valid()
    {
      frequency := None;
    }

    /** The `frequency` setter: a negative frequency is refused and the stored one kept. */
    method SetFrequency(f: real) returns (r: Result<()>)
      modifies this
      ensures f < 0.0 ==> r == Err(NegativeFrequency) && frequency == old(frequency)
      ensures f >= 0.0 ==> r == Ok(()) && frequency == Some(f)
      ensures old(Valid()) ==> Valid()
    {
      if f < 0.0 {
        return Err(NegativeFrequency);
      }
      frequency := Some(f);
      return Ok(());
    }
  }

  /** `HarmonicProblem(...)`: the constructor sets the frequency through the setter. */
  method NewHarmonicProblem(f: real) returns (r: Result<HarmonicProblem>)
    ensures r.Ok? <==> f >= 0.0
    ensures r.Err? ==> r.error == NegativeFrequency
    ensures r.Ok? ==> fresh(r.value) && r.value.frequency == Some(f) && r.value.Valid()
  {
    var h := new HarmonicProblem();
    var status := h.SetFrequency(f);
    if status.Err? {
      return Err(status.error);
    }
    return Ok(h);
  }

  /** The first element of a monitor pair: an integer step, or any other object, kept as it is. */
  datatype ScheduleArg = Every(step: int) | Custom(id: int)

  /** The function of a monitor: the name of a predefined monitor, or any other object, kept as it is. */
  datatype Action = ByName(name: string) | Other(id: int)

  /** A monitor as given: a pair of schedule and function, or the function alone. */
  datatype Monitor = Pair(first: ScheduleArg, action: Action) | Plain(action: Action)

  datatype Schedule = Steps(steps: seq<int>) | Kept(id: int)

  /** A monitor after preprocessing: a schedule and either a method of the problem or the object given. */
  datatype Handler = Method(name: string) | Given(id: int)

  datatype Internal = Internal(schedule: Schedule, handler: Handler)

  /** The number of entries of `np.arange(0, n, k)` for a positive step `k`. */
  function ArangeLength(n: nat, k: nat): nat
    requires k > 0
  {
    (n + k - 1) / k
  }

  /** `np.arange(0, n, k)` for a positive step `k`. */
  function Arange(n: nat, k: nat): (s: seq<int>)
    requires k > 0
  {
    seq(ArangeLength(n, k), i => i * k)
  }

  lemma MultiplyLess(i: int, j: int, k: int)
    requires i < j && k > 0
    ensures i * k < j * k
  {
    assert j * k == i * k + (j - i) * k;
  }

  /** The last entry of the range is at most `n - 1`, and one more step would pass it. */
  lemma ArangeLengthBounds(n: nat, k: nat)
    requires k > 0 && n > 0
    ensures var c := ArangeLength(n, k);
      c > 0 && (c - 1) * k <= n - 1 < c * k
  {
    var c := ArangeLength(n, k);
    var rem := (n + k - 1) % k;
    assert n + k - 1 == c * k + rem && 0 <= rem < k;
    assert (c - 1) * k == c * k - k;
  }

  /** `np.arange(0, n, k)` holds exactly the multiples of `k` below `n`, ascending. */
  lemma ArangeSpec(n: nat, k: nat)
    requires k > 0 && n > 0
    ensures var s := Arange(n, k);
      |s| > 0 &&
      (forall i :: 0 <= i < |s| ==> 0 <= s[i] < n && s[i] % k == 0) &&
      (forall i, j :: 0 <= i < j < |s| ==> s[i] < s[j]) &&
      (forall m :: 0 <= m < n && m % k == 0 ==> m / k < |s| && s[m / k] == m)
  {
    var s := Arange(n, k);
    var c := ArangeLength(n, k);
    ArangeLengthBounds(n, k);
    forall i | 0 <= i < |s| ensures 0 <= s[i] < n && s[i] % k == 0 {
      if i < c - 1 {
        MultiplyLess(i, c - 1, k);
      }
      MultipleMod(i, k);
    }
    forall i, j | 0 <= i < j < |s| ensures s[i] < s[j] {
      MultiplyLess(i, j, k);
    }
    forall m | 0 <= m < n && m % k == 0 ensures m / k < |s| && s[m / k] == m {
      var q := m / k;
      assert m == q * k;
      if q >= c {
        if q > c {
          MultiplyLess(c, q, k);
        }
      }
    }
  }

  lemma MultipleMod(i: nat, k: nat)
    requires k > 0
    ensures (i * k) % k == 0
  {
    var q, rem := (i * k) / k, (i * k) % k;
    assert i * k == q * k + rem && 0 <= rem < k;
    if q < i {
      MultiplyLess(q, i, k);
      assert (i - q) * k == i * k - q * k;
      if i - q > 1 {
        MultiplyLess(1, i - q, k);
      }
    } else if q > i {
      MultiplyLess(i, q, k);
    }
  }

  /**
   * The schedule of an integer step `k` over `n` time steps: every `k`-th
   * step, with the last step appended when it is not already the last
   * entry. A zero step fails in `np.arange`; a negative step or no time
   * steps leave the range empty, and reading its last entry fails.
   */
  function StepSchedule(n: nat, k: int): (r: Result<seq<int>>)
    ensures r.Ok? <==> k > 0 && n > 0
    ensures r.Err? ==> r.error == (if k == 0 then ZeroStep else IndexOutOfRange)
  {
    if k == 0 then Err(ZeroStep)
    else if k < 0 || n == 0 then Err(IndexOutOfRange)
    else
      var tmp := Arange(n, k);
      assert |tmp| > 0 by {
        ArangeLengthBounds(n, k);
      }
      Ok(if tmp[|tmp| - 1] != n - 1 then tmp + [n - 1] else tmp)
  }

  /** The schedule starts 0, k, 2k, ... and ends with the last step. */
  lemma StepScheduleEnds(n: nat, k: int)
    requires k > 0 && n > 0
    ensures var s := StepSchedule(n, k).value;
      |s| > 0 && s[0] == 0 && s[|s| - 1] == n - 1 &&
      forall i :: 0 <= i < |s| - 1 ==> s[i] == i * k
  {
    var tmp := Arange(n, k);
    ArangeLengthBounds(n, k);
    assert tmp[0] == 0;
  }

  /** The schedule is strictly increasing and lies in `[0, n)`. */
  lemma StepScheduleOrdered(n: nat, k: int)
    requires k > 0 && n > 0
    ensures var s := StepSchedule(n, k).value;
      (forall i, j :: 0 <= i < j < |s| ==> s[i] < s[j]) &&
      (forall i :: 0 <= i < |s| ==> 0 <= s[i] < n)
  {
    var tmp := Arange(n, k);
    var s := StepSchedule(n, k).value;
    ArangeSpec(n, k);
    if s != tmp {
      assert s == tmp + [n - 1];
      forall i, j | 0 <= i < j < |s| ensures s[i] < s[j] {
        if j == |tmp| {
          assert tmp[i] <= tmp[|tmp| - 1] < n - 1;
        }
      }
    }
  }

  /** Every multiple of `k` below `n` is a step of the schedule. */
  lemma StepScheduleCovers(n: nat, k: int)
    requires k > 0 && n > 0
    ensures var s := StepSchedule(n, k).value;
      forall m :: 0 <= m < n && m % k == 0 ==> m in s
  {
    var tmp := Arange(n, k);
    var s := StepSchedule(n, k).value;
    ArangeSpec(n, k);
    forall m | 0 <= m < n && m % k == 0 ensures m in s {
      assert s[m / k] == tmp[m / k];
    }
  }

  /** The last step is appended exactly when `k` does not divide `n - 1`. */
  lemma StepScheduleLength(n: nat, k: int)
    requires k > 0 && n > 0
    ensures |StepSchedule(n, k).value| == ArangeLength(n, k) + (if (n - 1) % k == 0 then 0 else 1)
  {
    var tmp := Arange(n, k);
    ArangeSpec(n, k);
    var last := |tmp| - 1;
    if (n - 1) % k == 0 {
      var q := (n - 1) / k;
      assert tmp[q] == n - 1;
    } else {
      assert tmp[last] % k == 0;
    }
  }

  /** The preprocessing of one monitor. */
  function Preprocess(m: Monitor, n: nat, available: map<string, string>): (r: Result<Internal>)
    ensures r.Ok? <==> (m.Pair? && m.first.Every? ==> StepSchedule(n, m.first.step).Ok?) &&
                       (m.action.ByName? ==> m.action.name in available)
    ensures r.Ok? && m.Plain? ==> r.value.schedule == Steps(seq(n, i => i))
    ensures r.Ok? && m.Pair? && m.first.Custom? ==> r.value.schedule == Kept(m.first.id)
    ensures r.Ok? && m.Pair? && m.first.Every? ==> r.value.schedule == Steps(StepSchedule(n, m.first.step).value)
    ensures r.Ok? ==> r.value.handler == (if m.action.ByName? then Method(available[m.action.name]) else Given(m.action.id))
  {
    var schedule :- match m
      case Plain(_) => Ok(Steps(seq(n, i => i)))
      case Pair(Custom(id), _) => Ok(Kept(id))
      case Pair(Every(k), _) =>
        var s :- StepSchedule(n, k);
        Ok(Steps(s));
    var handler :- match m.action
      case ByName(name) => if name in available then Ok(Method(available[name])) else Err(UnknownMonitor)
      case Other(id) => Ok(Given(id));
    Ok(Internal(schedule, handler))
  }

  /**
   * The preprocessing of the first `i` monitors, in the order they were
   * given; the first failure is the result.
   */
  function PreprocessAll(monitors: seq<(string, Monitor)>, n: nat, available: map<string, string>, i: nat)
    : (r: Result<map<string, Internal>>)
    requires i <= |monitors|
  {
    if i == 0 then Ok(map[])
    else
      var prev :- PreprocessAll(monitors, n, available, i - 1);
      var entry :- Preprocess(monitors[i - 1].1, n, available);
      Ok(prev[monitors[i - 1].0 := entry])
  }

  /** `_monitors_preprocessing`: no monitors give an empty mapping. */
  function MonitorsSpec(monitors: Option<seq<(string, Monitor)>>, n: nat, available: map<string, string>)
    : (r: Result<map<string, Internal>>)
  {
    if monitors.None? then Ok(map[])
    else PreprocessAll(monitors.value, n, available, |monitors.value|)
  }

  method MonitorsPreprocessing(monitors: Option<seq<(string, Monitor)>>, n: nat, available: map<string, string>)
    returns (r: Result<map<string, Internal>>)
    ensures r == MonitorsSpec(monitors, n, available)
  {
    if monitors.None? {
      return Ok(map[]);
    }
    var ms := monitors.value;
    var internal: map<string, Internal> := map[];
    for i := 0 to |ms|
      invariant PreprocessAll(ms, n, available, i) == Ok(internal)
    {
      var entry := Preprocess(ms[i].1, n, available);
      if entry.Err? {
        PreprocessAllFailed(ms, n, available, i + 1, |ms|);
        return Err(entry.error);
      }
      internal := internal[ms[i].0 := entry.value];
    }
    return Ok(internal);
  }

  /** Once a monitor fails, the preprocessing of any longer prefix fails with the same error. */
  lemma {:induction false} PreprocessAllFailed(monitors: seq<(string, Monitor)>, n: nat, available: map<string, string>, i: nat, j: nat)
    requires i <= j <= |monitors| && PreprocessAll(monitors, n, available, i).Err?
    ensures PreprocessAll(monitors, n, available, j) == PreprocessAll(monitors, n, available, i)
    decreases j
  {
    if i < j {
      PreprocessAllFailed(monitors, n, available, i, j - 1);
    }
  }

  /** The preprocessing succeeds exactly when every monitor given preprocesses without failure. */
  lemma {:induction false} PreprocessAllOk(monitors: seq<(string, Monitor)>, n: nat, available: map<string, string>, i: nat)
    requires i <= |monitors|
    ensures PreprocessAll(monitors, n, available, i).Ok? <==>
      forall j :: 0 <= j < i ==> Preprocess(monitors[j].1, n, available).Ok?
  {
    if i > 0 {
      PreprocessAllOk(monitors, n, available, i - 1);
    }
  }

  /** The keys of the result are the names given. */
  lemma {:induction false} PreprocessAllKeys(monitors: seq<(string, Monitor)>, n: nat, available: map<string, string>, i: nat)
    requires i <= |monitors| && PreprocessAll(monitors, n, available, i).Ok?
    ensures forall key :: key in PreprocessAll(monitors, n, available, i).value <==>
      exists j :: 0 <= j < i && monitors[j].0 == key
  {
    if i > 0 {
      PreprocessAllKeys(monitors, n, available, i - 1);
      var out := PreprocessAll(monitors, n, available, i).value;
      var prev := PreprocessAll(monitors, n, available, i - 1).value;
      assert out.Keys == prev.Keys + {monitors[i - 1].0};
      forall key ensures key in out <==> exists j :: 0 <= j < i && monitors[j].0 == key {
        if key in out && key != monitors[i - 1].0 {
          assert key in prev;
        }
      }
    }
  }

  /** Under each name is the preprocessing of the last monitor given under it. */
  lemma {:induction false} PreprocessAllValues(monitors: seq<(string, Monitor)>, n: nat, available: map<string, string>, i: nat, j: nat)
    requires j < i <= |monitors| && PreprocessAll(monitors, n, available, i).Ok?
    requires forall l :: j < l < i ==> monitors[l].0 != monitors[j].0
    ensures Preprocess(monitors[j].1, n, available).Ok?
    ensures monitors[j].0 in PreprocessAll(monitors, n, available, i).value
    ensures PreprocessAll(monitors, n, available, i).value[monitors[j].0] == Preprocess(monitors[j].1, n, available).value
  {
    if j < i - 1 {
      PreprocessAllValues(monitors, n, available, i - 1, j);
    }
  }
}
