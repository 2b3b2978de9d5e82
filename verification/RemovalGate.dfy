/** The outstanding-remove gate (src/cgroup.rs): a counter that concurrent `remove_cgroup` calls load,
    compare with a cap and update, all with relaxed atomics. */
module RemovalGate {
  import CgroupNames
  import Text
  import opened Words

  const MAX_OUTSTANDING: nat := 10

  // ----- The counter as a function of the attempted removals, in modification order

  /** true: the removal failed. */
  type Events = seq<bool>

  function Update(n: nat, failure: bool): (m: nat) {
    if failure then n + 1 else if n == 0 then 0 else n - 1
  }

  function Counter(events: Events): (n: nat) {
    if events == [] then 0 else Update(Counter(events[..|events| - 1]), events[|events| - 1])
  }

  /** Failures minus successes. */
  function Net(events: Events): (n: int) {
    if events == [] then 0 else Net(events[..|events| - 1]) + if events[|events| - 1] then 1 else -1
  }

  /** The counter is the maximum over all suffixes of failures minus successes. */
  lemma {:induction false} CounterIsMaxSuffix(events: Events)
    ensures forall k | 0 <= k <= |events| :: Net(events[k..]) <= Counter(events)
    ensures exists k :: 0 <= k <= |events| && Net(events[k..]) == Counter(events)
  {
    var n := |events|;
    if n == 0 {
      assert events[0..] == [];
      assert Net(events[0..]) == Counter(events);
    } else {
      var front := events[..n - 1];
      CounterIsMaxSuffix(front);
      forall k | 0 <= k < n
        ensures Net(events[k..]) == Net(front[k..]) + if events[n - 1] then 1 else -1
      {
        var s := events[k..];
        assert s[..|s| - 1] == front[k..] && s[|s| - 1] == events[n - 1];
      }
      assert events[n..] == [] && front[n - 1..] == [];
      var best :| 0 <= best <= n - 1 && Net(front[best..]) == Counter(front);
      if !events[n - 1] && Counter(front) == 0 {
        assert Net(events[n..]) == Counter(events);
      } else {
        assert Net(events[best..]) == Counter(events);
      }
    }
  }

  // ----- Concurrent callers

  /** A caller is between calls or removing. `seen` is the newest counter value it has observed, as a
      position in the modification order: a relaxed load may be stale, but never goes back. */
  datatype Caller = Caller(removing: bool, seen: nat)

  /** The counter after the first i updates is `Counter(events[..i])`. */
  datatype State = State(events: Events, callers: seq<Caller>)

  datatype Step =
    | Refuse(p: nat, i: nat)
    | Enter(p: nat, i: nat)
    | Absent(p: nat)
    | Finish(p: nat, failure: bool)

  ghost predicate Loads(s: State, p: nat, i: nat) {
    p < |s.callers| && !s.callers[p].removing && s.callers[p].seen <= i <= |s.events|
  }

  /** One atomic step: a load above the cap refuses the call; any other lets it go on, to find no
      directory or to attempt the removal and record its outcome. */
  ghost predicate Next(s: State, t: State, step: Step) {
    match step
    case Refuse(p, i) =>
      && Loads(s, p, i) && Counter(s.events[..i]) > MAX_OUTSTANDING
      && t == s.(callers := s.callers[p := Caller(false, i)])
    case Enter(p, i) =>
      && Loads(s, p, i) && Counter(s.events[..i]) <= MAX_OUTSTANDING
      && t == s.(callers := s.callers[p := Caller(true, i)])
    case Absent(p) =>
      && p < |s.callers| && s.callers[p].removing
      && t == s.(callers := s.callers[p := s.callers[p].(removing := false)])
    case Finish(p, failure) =>
      && p < |s.callers| && s.callers[p].removing
      && t == State(s.events + [failure], s.callers[p := Caller(false, |s.events| + 1)])
  }

  ghost predicate Init(s: State) {
    s.events == [] && forall p | 0 <= p < |s.callers| :: s.callers[p] == Caller(false, 0)
  }

  ghost predicate IsRun(run: seq<State>, steps: seq<Step>) {
    && |run| == |steps| + 1
    && forall k | 0 <= k < |steps| :: Next(run[k], run[k + 1], steps[k])
  }

  // ----- The bound

  /** Position of the last value at or below the cap. */
  function LastLow(events: Events): (j: nat)
    ensures j <= |events| && Counter(events[..j]) <= MAX_OUTSTANDING
    ensures forall i | j < i <= |events| :: Counter(events[..i]) > MAX_OUTSTANDING
  {
    assert events[..|events|] == events;
    if Counter(events) <= MAX_OUTSTANDING then |events|
    else
      var front := events[..|events| - 1];
      var j := LastLow(front);
      assert forall i | 0 <= i < |events| :: events[..i] == front[..i];
      j
  }

  /** The callers that have seen the counter since it last rose above the cap. */
  ghost function Spent(s: State): (ps: set<nat>) {
    set p: nat | p < |s.callers| && s.callers[p].seen > LastLow(s.events)
  }

  ghost predicate Inv(s: State) {
    && (forall p | 0 <= p < |s.callers| ::
          s.callers[p].seen <= |s.events| && (s.callers[p].removing ==> s.callers[p].seen <= LastLow(s.events)))
    && Counter(s.events) <= MAX_OUTSTANDING + |Spent(s)|
  }

  lemma InitInv(s: State)
    requires Init(s)
    ensures Inv(s)
  {
  }

  lemma LastLowGrows(events: Events, failure: bool)
    ensures var longer := events + [failure];
            LastLow(longer) == if Counter(longer) <= MAX_OUTSTANDING then |longer| else LastLow(events)
    ensures Counter(events + [failure]) == Update(Counter(events), failure)
  {
    var longer := events + [failure];
    assert longer[..|longer| - 1] == events;
    assert longer[..|longer|] == longer;
  }

  lemma LowPositions(events: Events, i: nat)
    requires i <= |events|
    ensures Counter(events[..i]) <= MAX_OUTSTANDING ==> i <= LastLow(events)
  {
  }

  lemma LoadKeepsInv(s: State, t: State, p: nat, c: Caller)
    requires Inv(s) && p < |s.callers| && t == s.(callers := s.callers[p := c])
    requires s.callers[p].seen <= c.seen <= |s.events| && (c.removing ==> c.seen <= LastLow(s.events))
    ensures Inv(t)
  {
    assert Spent(s) <= Spent(t);
    SubsetSize(Spent(s), Spent(t));
  }

  lemma FinishKeepsInv(s: State, t: State, p: nat, failure: bool)
    requires Inv(s) && Next(s, t, Finish(p, failure))
    ensures Inv(t)
  {
    LastLowGrows(s.events, failure);
    if Counter(t.events) > MAX_OUTSTANDING {
      FinishSpends(s, t, p, failure);
    }
  }

  /** Above the cap, the caller that records an outcome is spent by it. */
  lemma FinishSpends(s: State, t: State, p: nat, failure: bool)
    requires Inv(s) && Next(s, t, Finish(p, failure)) && Counter(t.events) > MAX_OUTSTANDING
    ensures p !in Spent(s) && Spent(t) == Spent(s) + {p}
  {
    LastLowGrows(s.events, failure);
  }

  lemma NextKeepsInv(s: State, t: State, step: Step)
    requires Inv(s) && Next(s, t, step)
    ensures Inv(t) && |t.callers| == |s.callers|
  {
    match step
    case Refuse(p, i) => LoadKeepsInv(s, t, p, Caller(false, i));
    case Enter(p, i) =>
      LowPositions(s.events, i);
      LoadKeepsInv(s, t, p, Caller(true, i));
    case Absent(p) => LoadKeepsInv(s, t, p, s.callers[p].(removing := false));
    case Finish(p, failure) => FinishKeepsInv(s, t, p, failure);
  }

  lemma {:induction false} RunKeepsInv(run: seq<State>, steps: seq<Step>, k: nat)
    requires IsRun(run, steps) && Init(run[0]) && k < |run|
    ensures Inv(run[k]) && |run[k].callers| == |run[0].callers|
  {
    if k == 0 {
      InitInv(run[0]);
    } else {
      RunKeepsInv(run, steps, k - 1);
      NextKeepsInv(run[k - 1], run[k], steps[k - 1]);
    }
  }

  lemma SpentAmongCallers(s: State)
    ensures |Spent(s)| <= |s.callers|
  {
    SubsetSize(Spent(s), Below(|s.callers|));
    BelowSize(|s.callers|);
  }

  /** With N concurrent callers the counter never exceeds the cap by more than N. */
  lemma GateBound(run: seq<State>, steps: seq<Step>, k: nat)
    requires IsRun(run, steps) && Init(run[0]) && k < |run|
    ensures Counter(run[k].events) <= MAX_OUTSTANDING + |run[0].callers|
  {
    RunKeepsInv(run, steps, k);
    SpentAmongCallers(run[k]);
  }

  // ----- Reachability

  ghost predicate CanReach(s: State, t: State) {
    exists run, steps :: IsRun(run, steps) && run[0] == s && run[|steps|] == t
  }

  lemma ReachItself(s: State)
    ensures CanReach(s, s)
  {
    var run, steps := [s], [];
    assert IsRun(run, steps) && run[0] == s && run[|steps|] == s;
  }

  lemma ReachStep(s: State, t: State, u: State, step: Step)
    requires CanReach(s, t) && Next(t, u, step)
    ensures CanReach(s, u)
  {
    var run, steps :| IsRun(run, steps) && run[0] == s && run[|steps|] == t;
    var run', steps' := run + [u], steps + [step];
    assert IsRun(run', steps') && run'[0] == s && run'[|steps'|] == u;
  }

  // ----- The bound is reached

  function Failures(n: nat): (events: Events)
    ensures |events| == n
  {
    if n == 0 then [] else Failures(n - 1) + [true]
  }

  lemma {:induction false} CountFailures(n: nat, i: nat)
    requires i <= n
    ensures Failures(n)[..i] == Failures(i) && Counter(Failures(n)) == n
  {
    if n > 0 {
      assert Failures(n)[..n - 1] == Failures(n - 1);
      CountFailures(n - 1, if i < n then i else i - 1);
      if i < n {
        assert Failures(n)[..i] == Failures(n - 1)[..i];
      }
    }
  }

  /** One more failed removal by the first caller, which has seen them all. */
  lemma OneFailure(s: State, callers: seq<Caller>, n: nat)
    requires callers != [] && n < MAX_OUTSTANDING
    requires CanReach(s, State(Failures(n), callers[0 := Caller(false, n)]))
    ensures CanReach(s, State(Failures(n + 1), callers[0 := Caller(false, n + 1)]))
  {
    var u := State(Failures(n), callers[0 := Caller(false, n)]);
    CountFailures(n, n);
    var v := State(Failures(n), callers[0 := Caller(true, n)]);
    assert v == u.(callers := u.callers[0 := Caller(true, n)]);
    ReachStep(s, u, v, Enter(0, n));
    var t := State(Failures(n + 1), callers[0 := Caller(false, n + 1)]);
    assert t == State(v.events + [true], v.callers[0 := Caller(false, |v.events| + 1)]);
    ReachStep(s, v, t, Finish(0, true));
  }

  /** One caller fails up to the cap. */
  lemma {:induction false} FillToCap(s: State, n: nat) returns (t: State)
    requires Init(s) && s.callers != [] && n <= MAX_OUTSTANDING
    ensures CanReach(s, t) && t == State(Failures(n), s.callers[0 := Caller(false, n)])
  {
    if n == 0 {
      t := s;
      ReachItself(s);
    } else {
      t := FillToCap(s, n - 1);
      OneFailure(s, s.callers, n - 1);
      t := State(Failures(n), s.callers[0 := Caller(false, n)]);
    }
  }

  /** At the cap every caller is let in. */
  lemma {:induction false} AllEnter(s: State, t: State, m: nat) returns (u: State)
    requires CanReach(s, t) && t.events == Failures(MAX_OUTSTANDING) && m <= |t.callers|
    requires forall p | 0 <= p < |t.callers| :: !t.callers[p].removing && t.callers[p].seen <= MAX_OUTSTANDING
    ensures CanReach(s, u) && u.events == t.events && |u.callers| == |t.callers|
    ensures forall p | 0 <= p < |t.callers| ::
              u.callers[p] == if p < m then Caller(true, MAX_OUTSTANDING) else t.callers[p]
  {
    if m == 0 {
      u := t;
    } else {
      var v := AllEnter(s, t, m - 1);
      CountFailures(MAX_OUTSTANDING, MAX_OUTSTANDING);
      u := v.(callers := v.callers[m - 1 := Caller(true, MAX_OUTSTANDING)]);
      ReachStep(s, v, u, Enter(m - 1, MAX_OUTSTANDING));
    }
  }

  lemma {:induction false} AllFail(s: State, t: State, m: nat) returns (u: State)
    requires CanReach(s, t) && t.events == Failures(MAX_OUTSTANDING) && m <= |t.callers|
    requires forall p | 0 <= p < |t.callers| :: t.callers[p].removing
    ensures CanReach(s, u) && u.events == Failures(MAX_OUTSTANDING + m) && |u.callers| == |t.callers|
    ensures forall p | m <= p < |t.callers| :: u.callers[p].removing
  {
    if m == 0 {
      u := t;
    } else {
      var v := AllFail(s, t, m - 1);
      u := State(v.events + [true], v.callers[m - 1 := Caller(false, |v.events| + 1)]);
      ReachStep(s, v, u, Finish(m - 1, true));
    }
  }

  /** The bound is exact: N callers that all load the counter at the cap and then all fail reach it. */
  lemma GateBoundReached(s: State) returns (t: State)
    requires Init(s) && s.callers != []
    ensures CanReach(s, t) && Counter(t.events) == MAX_OUTSTANDING + |s.callers|
  {
    var u := FillToCap(s, MAX_OUTSTANDING);
    var v := AllEnter(s, u, |u.callers|);
    t := AllFail(s, v, |v.callers|);
    CountFailures(MAX_OUTSTANDING + |s.callers|, 0);
  }

  // ----- One caller

  /** A single caller always sees the latest value. */
  ghost predicate Alone(s: State) {
    Inv(s) && |s.callers| == 1 && s.callers[0].seen == |s.events|
  }

  lemma AloneStays(s: State, t: State, step: Step)
    requires Alone(s) && Next(s, t, step)
    ensures Alone(t)
    ensures Counter(s.events) > MAX_OUTSTANDING ==> t.events == s.events
  {
    NextKeepsInv(s, t, step);
    assert s.events[..|s.events|] == s.events;
  }

  lemma {:induction false} AloneRun(run: seq<State>, steps: seq<Step>, k: nat)
    requires IsRun(run, steps) && Alone(run[0]) && k < |run|
    ensures Alone(run[k])
    ensures Counter(run[0].events) > MAX_OUTSTANDING ==> run[k].events == run[0].events
  {
    if k > 0 {
      AloneRun(run, steps, k - 1);
      AloneStays(run[k - 1], run[k], steps[k - 1]);
    }
  }

  lemma AloneBound(s: State)
    requires Alone(s)
    ensures Counter(s.events) <= MAX_OUTSTANDING + 1
  {
    SpentAmongCallers(s);
  }

  /** From a count at or below the cap, successes bring it back to zero. */
  lemma {:induction false} Recovers(s: State, t: State) returns (u: State)
    requires Alone(t) && CanReach(s, t) && Counter(t.events) <= MAX_OUTSTANDING
    ensures CanReach(s, u) && Counter(u.events) == 0
    decreases Counter(t.events), !t.callers[0].removing
  {
    if Counter(t.events) == 0 {
      u := t;
    } else if t.callers[0].removing {
      var v := State(t.events + [false], t.callers[0 := Caller(false, |t.events| + 1)]);
      LastLowGrows(t.events, false);
      ReachStep(s, t, v, Finish(0, false));
      AloneStays(t, v, Finish(0, false));
      u := Recovers(s, v);
    } else {
      var v := t.(callers := t.callers[0 := Caller(true, |t.events|)]);
      assert t.events[..|t.events|] == t.events;
      ReachStep(s, t, v, Enter(0, |t.events|));
      AloneStays(t, v, Enter(0, |t.events|));
      u := Recovers(s, v);
    }
  }

  /** In a sequential run the counter stays at most one above the cap, that value is never left, and
      the counter can come back to zero exactly when it is not above the cap. */
  lemma SequentialGate(run: seq<State>, steps: seq<Step>, k: nat)
    requires IsRun(run, steps) && Init(run[0]) && |run[0].callers| == 1 && k < |run|
    ensures Counter(run[k].events) <= MAX_OUTSTANDING + 1
    ensures Counter(run[k].events) > MAX_OUTSTANDING ==> forall t | CanReach(run[k], t) :: t.events == run[k].events
    ensures (exists t :: CanReach(run[k], t) && Counter(t.events) == 0) <==> Counter(run[k].events) <= MAX_OUTSTANDING
  {
    InitInv(run[0]);
    AloneRun(run, steps, k);
    var s := run[k];
    AloneBound(s);
    forall t | CanReach(s, t)
      ensures Counter(s.events) > MAX_OUTSTANDING ==> t.events == s.events
    {
      var r, ss :| IsRun(r, ss) && r[0] == s && r[|ss|] == t;
      AloneRun(r, ss, |ss|);
    }
    if Counter(s.events) <= MAX_OUTSTANDING {
      ReachItself(s);
      var u := Recovers(s, s);
    }
  }

  // ----- Recovery with any number of callers

  /** Above the cap only callers that have not seen it can still succeed, once each: with more to remove
      than such callers the counter cannot come back to the cap. */
  ghost predicate Stuck(s: State) {
    Counter(s.events) > MAX_OUTSTANDING + |s.callers| - |Spent(s)|
  }

  lemma FinishStaysStuck(s: State, t: State, p: nat, failure: bool)
    requires Inv(s) && Stuck(s) && Next(s, t, Finish(p, failure))
    ensures Stuck(t)
  {
    LastLowGrows(s.events, failure);
    assert p !in Spent(s);
    FreshCaller(s, p);
    FinishSpends(s, t, p, failure);
  }

  lemma FreshCaller(s: State, p: nat)
    requires p < |s.callers| && p !in Spent(s)
    ensures |Spent(s)| < |s.callers|
  {
    SubsetSize(Spent(s) + {p}, Below(|s.callers|));
    BelowSize(|s.callers|);
  }

  lemma StuckStays(s: State, t: State, step: Step)
    requires Inv(s) && Stuck(s) && Next(s, t, step)
    ensures Stuck(t)
  {
    if step.Finish? {
      FinishStaysStuck(s, t, step.p, step.failure);
    } else {
      assert Spent(s) <= Spent(t);
      SubsetSize(Spent(s), Spent(t));
    }
  }

  lemma {:induction false} StuckRun(run: seq<State>, steps: seq<Step>, k: nat)
    requires IsRun(run, steps) && Inv(run[0]) && Stuck(run[0]) && k < |run|
    ensures Inv(run[k]) && Stuck(run[k])
  {
    if k > 0 {
      StuckRun(run, steps, k - 1);
      NextKeepsInv(run[k - 1], run[k], steps[k - 1]);
      StuckStays(run[k - 1], run[k], steps[k - 1]);
    }
  }

  lemma SomeFreshCaller(s: State) returns (p: nat)
    requires |Spent(s)| < |s.callers|
    ensures p < |s.callers| && p !in Spent(s)
  {
    if forall q: nat | q < |s.callers| :: q in Spent(s) {
      assert Below(|s.callers|) <= Spent(s);
      SubsetSize(Below(|s.callers|), Spent(s));
      BelowSize(|s.callers|);
    }
    p :| p < |s.callers| && p !in Spent(s);
  }

  /** A caller that has not seen the counter above the cap is removing or can load the last low value. */
  lemma Entered(s: State, t: State, p: nat) returns (v: State)
    requires CanReach(s, t) && Inv(t) && p < |t.callers| && p !in Spent(t)
    ensures CanReach(s, v) && Inv(v) && v.events == t.events
    ensures |v.callers| == |t.callers| && v.callers == t.callers[p := v.callers[p]] && v.callers[p].removing
  {
    if t.callers[p].removing {
      v := t;
      assert t.callers == t.callers[p := t.callers[p]];
    } else {
      v := t.(callers := t.callers[p := Caller(true, LastLow(t.events))]);
      ReachStep(s, t, v, Enter(p, LastLow(t.events)));
      NextKeepsInv(t, v, Enter(p, LastLow(t.events)));
    }
  }

  /** Then it can succeed. */
  lemma OneSuccess(s: State, t: State, p: nat) returns (u: State)
    requires CanReach(s, t) && Inv(t) && p < |t.callers| && p !in Spent(t)
    ensures CanReach(s, u) && Inv(u) && u == State(t.events + [false], t.callers[p := Caller(false, |t.events| + 1)])
  {
    var v := Entered(s, t, p);
    u := State(v.events + [false], v.callers[p := Caller(false, |v.events| + 1)]);
    ReachStep(s, v, u, Finish(p, false));
    NextKeepsInv(v, u, Finish(p, false));
  }

  lemma SuccessKeepsHope(t: State, u: State, p: nat)
    requires Inv(t) && !Stuck(t) && p < |t.callers| && p !in Spent(t)
    requires u == State(t.events + [false], t.callers[p := Caller(false, |t.events| + 1)])
    ensures !Stuck(u) && Counter(u.events) == Update(Counter(t.events), false)
  {
    LastLowGrows(t.events, false);
    if Counter(u.events) > MAX_OUTSTANDING {
      assert Spent(u) == Spent(t) + {p};
    } else {
      SpentAmongCallers(u);
    }
  }

  lemma {:induction false} RecoversTogether(s: State, t: State) returns (u: State)
    requires CanReach(s, t) && Inv(t) && t.callers != [] && !Stuck(t)
    ensures CanReach(s, u) && Counter(u.events) == 0
    decreases Counter(t.events)
  {
    if Counter(t.events) == 0 {
      u := t;
    } else {
      HopeNeedsFreshCaller(t);
      var p := SomeFreshCaller(t);
      var v := OneSuccess(s, t, p);
      SuccessKeepsHope(t, v, p);
      u := RecoversTogether(s, v);
    }
  }

  lemma HopeNeedsFreshCaller(t: State)
    requires Inv(t) && t.callers != [] && !Stuck(t)
    ensures |Spent(t)| < |t.callers|
  {
    if Counter(t.events) <= MAX_OUTSTANDING {
      assert t.events[..|t.events|] == t.events;
      assert LastLow(t.events) == |t.events|;
      assert Spent(t) == {};
    }
  }

  /** With any number of callers and stale loads, zero can be reached again exactly when the counter
      exceeds the cap by at most the number of callers that have not seen it there. */
  lemma ConcurrentRecovery(run: seq<State>, steps: seq<Step>, k: nat)
    requires IsRun(run, steps) && Init(run[0]) && run[0].callers != [] && k < |run|
    ensures var s := run[k];
      (exists t :: CanReach(s, t) && Counter(t.events) == 0)
      <==> Counter(s.events) <= MAX_OUTSTANDING + |s.callers| - |Spent(s)|
  {
    RunKeepsInv(run, steps, k);
    var s := run[k];
    if Stuck(s) {
      forall t | CanReach(s, t)
        ensures Counter(t.events) > 0
      {
        var r, ss :| IsRun(r, ss) && r[0] == s && r[|ss|] == t;
        StuckRun(r, ss, |ss|);
        SpentAmongCallers(t);
      }
    } else {
      ReachItself(s);
      var u := RecoversTogether(s, s);
    }
  }

  // ----- The manager

  datatype Outcome = BadName | Refused | Ok | RemoveFailed

  /** The manager's counter when calls do not overlap. */
  class Manager {
    var outstanding: nat
    ghost var events: Events

    ghost predicate Valid()
      reads this
    {
      outstanding == Counter(events) && outstanding <= MAX_OUTSTANDING + 1
    }

    constructor ()
      ensures Valid() && events == []
    {
      outstanding, events := 0, [];
    }

    /** `present` and `removed` are the outcomes of the file system calls. Only an attempted removal
        counts; above the cap none is attempted. */
    method RemoveCgroup(name: string, present: bool, removed: bool) returns (r: Outcome)
      requires Valid()
      modifies this
      ensures Valid()
      ensures r == BadName <==> '\0' in name || !CgroupNames.AllGood(Text.Split(name, '/'))
      ensures r == Refused <==> r != BadName && old(outstanding) > MAX_OUTSTANDING
      ensures events == old(events) + (match r
                                       case Ok => if present then [false] else []
                                       case RemoveFailed => [true]
                                       case _ => [])
      ensures r == Ok ==> !present || removed
      ensures r == RemoveFailed ==> present && !removed
    {
      var verdict := CgroupNames.ValidateCgroupName(name);
      if !verdict.Accepted? {
        return BadName;
      }
      if outstanding > MAX_OUTSTANDING {
        return Refused;
      }
      if !present {
        return Ok;
      }
      LastLowGrows(events, !removed);
      events := events + [!removed];
      if removed {
        outstanding := if outstanding == 0 then 0 else outstanding - 1;
        r := Ok;
      } else {
        outstanding := outstanding + 1;
        r := RemoveFailed;
      }
    }
  }
}
