/** The one-shot latch (src/sync.rs): a mutex-guarded flag and a condition variable shared by any
    number of threads, as a state machine over the steps of `set`, `wait`, `is_set` and
    `wait_timeout`. No wakeup is lost, and once the latch is set every waiter finishes within a
    bounded number of its own steps. */
module Latch {

  /** The operation a thread is in. */
  datatype Op = Set | Wait | IsSet | WaitTimeout(deadline: nat)

  /** Where in the operation: waiting for the mutex, holding it before looking at the flag, holding it
      after the flag was stored or seen, parked on the condition variable, woken and waiting for the
      mutex again (`timedOut` if by the clock), or returned with a result. */
  datatype Pc =
    | Outside
    | Locking(op: Op)
    | Holding(op: Op)
    | Stored
    | Notified
    | Parked(op: Op, until: nat)
    | Woken(op: Op, timedOut: bool)
    | Rechecking(op: Op, timedOut: bool)
    | Returned(op: Op, result: bool)

  /** `owner` is the thread that holds the mutex. */
  datatype State = State(flag: bool, owner: int, now: nat, threads: seq<Pc>)

  const NOBODY := -1

  ghost predicate InLock(pc: Pc) {
    pc.Holding? || pc.Stored? || pc.Notified? || pc.Rechecking?
  }

  // ----- Steps of thread `i`

  datatype Step =
    | Tick(later: nat)
    | Call(i: nat, op: Op)
    | Lock(i: nat)
    | Store(i: nat)
    | Notify(i: nat)
    | Unlock(i: nat)
    | Look(i: nat)
    | Spurious(i: nat)
    | Expire(i: nat)
    | Relock(i: nat)
    | Recheck(i: nat)

  function Put(s: State, i: nat, pc: Pc): (t: State)
    requires i < |s.threads|
  {
    s.(threads := s.threads[i := pc])
  }

  /** `notify_all`: every parked thread is woken. */
  function WakeAll(threads: seq<Pc>): (r: seq<Pc>)
    ensures |r| == |threads|
    ensures forall i | 0 <= i < |r| :: r[i] == if threads[i].Parked? then Woken(threads[i].op, false) else threads[i]
  {
    seq(|threads|, i requires 0 <= i < |threads| =>
      if threads[i].Parked? then Woken(threads[i].op, false) else threads[i])
  }

  /** What a thread holding the mutex in `op` does after seeing the flag. */
  ghost predicate Decide(s: State, t: State, i: nat, op: Op)
    requires i < |s.threads|
  {
    match op
    case IsSet => t == Put(s, i, Returned(op, s.flag)).(owner := NOBODY)
    case Wait =>
      if s.flag then t == Put(s, i, Returned(op, true)).(owner := NOBODY)
      else t == Put(s, i, Parked(op, 0)).(owner := NOBODY)
    case WaitTimeout(deadline) =>
      if s.flag then t == Put(s, i, Returned(op, true)).(owner := NOBODY)
      else if s.now >= deadline then t == Put(s, i, Returned(op, false)).(owner := NOBODY)
      else t == Put(s, i, Parked(op, deadline)).(owner := NOBODY)
    case Set => false
  }

  /** One atomic step. Waiting on the condition variable releases the mutex and parks in one step;
      a parked thread may wake spuriously, and a timed one once its time has come. */
  ghost predicate Next(s: State, t: State, step: Step) {
    match step
    case Tick(later) => later >= s.now && t == s.(now := later)
    case Call(i, op) =>
      i < |s.threads| && (s.threads[i].Outside? || s.threads[i].Returned?) && t == Put(s, i, Locking(op))
    case Lock(i) =>
      && i < |s.threads| && s.threads[i].Locking? && s.owner == NOBODY
      && t == Put(s, i, Holding(s.threads[i].op)).(owner := i)
    case Store(i) =>
      && i < |s.threads| && s.threads[i] == Holding(Set)
      && t == Put(s, i, Stored).(flag := true)
    case Notify(i) =>
      && i < |s.threads| && s.threads[i] == Stored
      && t == s.(threads := WakeAll(s.threads)[i := Notified])
    case Unlock(i) =>
      && i < |s.threads| && s.threads[i] == Notified
      && t == Put(s, i, Returned(Set, true)).(owner := NOBODY)
    case Look(i) =>
      i < |s.threads| && s.threads[i].Holding? && Decide(s, t, i, s.threads[i].op)
    case Spurious(i) =>
      i < |s.threads| && s.threads[i].Parked? && t == Put(s, i, Woken(s.threads[i].op, false))
    case Expire(i) =>
      && i < |s.threads| && s.threads[i].Parked? && s.threads[i].op.WaitTimeout? && s.now >= s.threads[i].until
      && t == Put(s, i, Woken(s.threads[i].op, true))
    case Relock(i) =>
      && i < |s.threads| && s.threads[i].Woken? && s.owner == NOBODY
      && t == Put(s, i, Rechecking(s.threads[i].op, s.threads[i].timedOut)).(owner := i)
    case Recheck(i) =>
      && i < |s.threads| && s.threads[i].Rechecking?
      && var op := s.threads[i].op;
         if s.threads[i].timedOut && !s.flag then t == Put(s, i, Returned(op, false)).(owner := NOBODY)
         else Decide(s, t, i, op)
  }

  ghost predicate Init(s: State) {
    !s.flag && s.owner == NOBODY && forall i | 0 <= i < |s.threads| :: s.threads[i].Outside?
  }

  // ----- Invariant

  /** The mutex is held by exactly the thread that is inside it. */
  ghost predicate Exclusive(s: State) {
    && NOBODY <= s.owner < |s.threads|
    && forall i | 0 <= i < |s.threads| :: InLock(s.threads[i]) <==> i == s.owner
  }

  /** A thread is parked while the flag is set only in the moment between the store and the
      notification, when the setter still holds the mutex. */
  ghost predicate NoLostWakeup(s: State)
    requires Exclusive(s)
  {
    forall i | 0 <= i < |s.threads| && s.threads[i].Parked? && s.flag :: s.owner >= 0 && s.threads[s.owner].Stored?
  }

  /** What each program counter says about the flag and the clock. */
  ghost predicate Honest(s: State, pc: Pc) {
    match pc
    case Stored => s.flag
    case Notified => s.flag
    case Parked(op, until) => !op.Set? && !op.IsSet? && (op.WaitTimeout? ==> until == op.deadline)
    case Woken(op, timedOut) => !op.Set? && !op.IsSet? && (timedOut ==> op.WaitTimeout? && s.now >= op.deadline)
    case Rechecking(op, timedOut) => !op.Set? && !op.IsSet? && (timedOut ==> op.WaitTimeout? && s.now >= op.deadline)
    case Returned(op, result) =>
      && (result ==> s.flag)
      && (op.Wait? || op.Set? ==> result)
      && (op.WaitTimeout? && !result ==> s.now >= op.deadline)
    case _ => true
  }

  ghost predicate Inv(s: State) {
    && Exclusive(s)
    && NoLostWakeup(s)
    && forall i | 0 <= i < |s.threads| :: Honest(s, s.threads[i])
  }

  /** One thread moves into the mutex, within it or out of it. */
  lemma MoveKeepsExclusive(s: State, t: State, i: nat)
    requires Exclusive(s) && i < |s.threads| == |t.threads| && t.threads == s.threads[i := t.threads[i]]
    requires if InLock(t.threads[i]) then t.owner == i && (s.owner == NOBODY || s.owner == i)
             else t.owner == if s.owner == i then NOBODY else s.owner
    ensures Exclusive(t)
  {
  }

  lemma NextKeepsExclusive(s: State, t: State, step: Step)
    requires Inv(s) && Next(s, t, step)
    ensures Exclusive(t)
  {
    if !step.Tick? && !step.Notify? {
      assert InLock(s.threads[step.i]) <==> step.i == s.owner;
      MoveKeepsExclusive(s, t, step.i);
    }
  }

  /** Only the thread of the step moves, apart from the parked threads that a notification wakes. */
  lemma OthersStay(s: State, t: State, step: Step, i: nat)
    requires Next(s, t, step) && i < |s.threads| && (step.Tick? || step.i != i)
    ensures |t.threads| == |s.threads|
    ensures t.threads[i] == s.threads[i] || (s.threads[i].Parked? && t.threads[i] == Woken(s.threads[i].op, false))
  {
  }

  /** The flag is never cleared and time does not run backwards. */
  lemma NextGrows(s: State, t: State, step: Step)
    requires Next(s, t, step)
    ensures |t.threads| == |s.threads| && (s.flag ==> t.flag) && s.now <= t.now
  {
  }

  lemma StepIsHonest(s: State, t: State, step: Step)
    requires Inv(s) && Next(s, t, step) && !step.Tick?
    ensures step.i < |t.threads| && Honest(t, t.threads[step.i])
  {
    assert Honest(s, s.threads[step.i]);
  }

  lemma NextKeepsHonest(s: State, t: State, step: Step)
    requires Inv(s) && Next(s, t, step)
    ensures forall i | 0 <= i < |t.threads| :: Honest(t, t.threads[i])
  {
    NextGrows(s, t, step);
    forall i | 0 <= i < |t.threads|
      ensures Honest(t, t.threads[i])
    {
      if !step.Tick? && step.i == i {
        StepIsHonest(s, t, step);
      } else {
        OthersStay(s, t, step, i);
        assert Honest(s, s.threads[i]);
      }
    }
  }

  lemma NextKeepsWakeups(s: State, t: State, step: Step)
    requires Inv(s) && Next(s, t, step)
    ensures Exclusive(t) && NoLostWakeup(t)
  {
    NextKeepsExclusive(s, t, step);
  }

  lemma NextKeepsInv(s: State, t: State, step: Step)
    requires Inv(s) && Next(s, t, step)
    ensures Inv(t) && |t.threads| == |s.threads| && (s.flag ==> t.flag)
  {
    NextKeepsHonest(s, t, step);
    NextKeepsWakeups(s, t, step);
  }

  // ----- Runs

  ghost predicate IsRun(states: seq<State>, steps: seq<Step>) {
    && |states| == |steps| + 1
    && Init(states[0])
    && forall k | 0 <= k < |steps| :: Next(states[k], states[k + 1], steps[k])
  }

  lemma {:induction false} RunKeepsInv(states: seq<State>, steps: seq<Step>, k: nat)
    requires IsRun(states, steps) && k < |states|
    ensures Inv(states[k]) && |states[k].threads| == |states[0].threads|
  {
    if k > 0 {
      RunKeepsInv(states, steps, k - 1);
      NextKeepsInv(states[k - 1], states[k], steps[k - 1]);
    }
  }

  /** The flag never reverts. */
  lemma {:induction false} FlagStays(states: seq<State>, steps: seq<Step>, k: nat, m: nat)
    requires IsRun(states, steps) && k <= m < |states| && states[k].flag
    ensures states[m].flag
  {
    if k < m {
      FlagStays(states, steps, k, m - 1);
      RunKeepsInv(states, steps, m - 1);
      NextKeepsInv(states[m - 1], states[m], steps[m - 1]);
    }
  }

  /** The moment an operation returns: it held the mutex, and a wait or a query returns exactly the flag
      it saw there; `wait` returns only when that is set, and a `wait_timeout` that saw it unset
      returns only once its deadline has passed. */
  lemma ReturnTellsTheFlag(s: State, t: State, step: Step, i: nat)
    requires Inv(s) && Next(s, t, step) && i < |s.threads|
    requires !s.threads[i].Returned? && t.threads[i].Returned?
    ensures s.owner == i && t.threads[i].result == s.flag
    ensures t.threads[i].op.Wait? ==> s.flag
    ensures t.threads[i].op.WaitTimeout? && !s.flag ==> s.now >= t.threads[i].op.deadline
  {
    assert Honest(s, s.threads[i]);
  }

  // ----- After the latch is set

  /** The flag is set and nobody is parked. */
  ghost predicate Settled(s: State) {
    s.flag && forall i | 0 <= i < |s.threads| :: !s.threads[i].Parked?
  }

  lemma NotifySettles(s: State, t: State, i: nat)
    requires Inv(s) && Next(s, t, Notify(i))
    ensures Settled(t)
  {
    assert Honest(s, s.threads[i]);
  }

  lemma StaysSettled(s: State, t: State, step: Step)
    requires Inv(s) && Settled(s) && Next(s, t, step)
    ensures Settled(t)
  {
    NextKeepsInv(s, t, step);
  }

  /** No lost wakeup over whole runs: from the first notification on, no thread is ever parked, whatever
      the threads do. */
  lemma {:induction false} NobodySleepsThroughSet(states: seq<State>, steps: seq<Step>, k: nat, m: nat)
    requires IsRun(states, steps) && k < m < |states| && steps[k].Notify?
    ensures Settled(states[m])
    decreases m
  {
    RunKeepsInv(states, steps, m - 1);
    if m == k + 1 {
      NotifySettles(states[k], states[m], steps[k].i);
    } else {
      NobodySleepsThroughSet(states, steps, k, m - 1);
      StaysSettled(states[m - 1], states[m], steps[m - 1]);
    }
  }

  /** How many own steps a thread has left before it returns, once settled. */
  function Rank(pc: Pc): (n: nat) {
    match pc
    case Outside => 0
    case Returned(_, _) => 0
    case Locking(op) => if op.Set? then 4 else 2
    case Holding(op) => if op.Set? then 3 else 1
    case Stored => 2
    case Notified => 1
    case Parked(_, _) => 3
    case Woken(_, _) => 2
    case Rechecking(_, _) => 1
  }

  function Work(threads: seq<Pc>): (n: nat) {
    if threads == [] then 0 else Work(threads[..|threads| - 1]) + Rank(threads[|threads| - 1])
  }

  lemma {:induction false} WorkChanges(threads: seq<Pc>, i: nat, pc: Pc)
    requires i < |threads|
    ensures Work(threads[i := pc]) == Work(threads) - Rank(threads[i]) + Rank(pc)
  {
    var n := |threads| - 1;
    var changed := threads[i := pc];
    if i == n {
      assert changed[..n] == threads[..n];
    } else {
      WorkChanges(threads[..n], i, pc);
      assert changed[..n] == threads[..n][i := pc];
    }
  }

  /** Once settled, every step of a pending operation brings some operation closer to its end: with `n`
      threads, all of them have returned after at most `4 * n` such steps. */
  lemma SettledProgress(s: State, t: State, step: Step)
    requires Inv(s) && Settled(s) && Next(s, t, step) && !step.Tick? && !step.Call?
    ensures Work(t.threads) < Work(s.threads)
  {
    var i := step.i;
    if step.Notify? {
      assert WakeAll(s.threads) == s.threads;
    }
    assert Honest(s, s.threads[i]);
    assert t.threads == s.threads[i := t.threads[i]];
    WorkChanges(s.threads, i, t.threads[i]);
  }

  lemma {:induction false} WorkBound(threads: seq<Pc>)
    ensures Work(threads) <= 4 * |threads|
  {
    if threads != [] {
      WorkBound(threads[..|threads| - 1]);
    }
  }

  ghost predicate Pending(pc: Pc) {
    !pc.Outside? && !pc.Returned?
  }

  /** Once settled, such a step exists as long as some operation is pending: the latch cannot deadlock. */
  lemma SettledNeverStuck(s: State, i: nat) returns (step: Step, t: State)
    requires Inv(s) && Settled(s) && i < |s.threads| && Pending(s.threads[i])
    ensures Next(s, t, step) && !step.Tick? && !step.Call?
  {
    var j: nat := if s.owner >= 0 then s.owner else i;
    assert InLock(s.threads[j]) <==> j == s.owner;
    assert Honest(s, s.threads[j]);
    match s.threads[j] {
      case Locking(op) => step, t := Lock(j), Put(s, j, Holding(op)).(owner := j);
      case Woken(op, timedOut) => step, t := Relock(j), Put(s, j, Rechecking(op, timedOut)).(owner := j);
      case Holding(op) =>
        if op.Set? {
          step, t := Store(j), Put(s, j, Stored).(flag := true);
        } else {
          step, t := Look(j), Put(s, j, Returned(op, true)).(owner := NOBODY);
        }
      case Stored => step, t := Notify(j), s.(threads := WakeAll(s.threads)[j := Notified]);
      case Notified => step, t := Unlock(j), Put(s, j, Returned(Set, true)).(owner := NOBODY);
      case Rechecking(op, timedOut) => step, t := Recheck(j), Put(s, j, Returned(op, true)).(owner := NOBODY);
    }
  }

  function Cost(step: Step): (n: nat) {
    if step.Tick? then 0 else 1
  }

  function OwnSteps(steps: seq<Step>): (n: nat) {
    if steps == [] then 0 else OwnSteps(steps[..|steps| - 1]) + Cost(steps[|steps| - 1])
  }

  lemma OwnStepsGrow(steps: seq<Step>, a: nat, b: nat)
    requires a <= b < |steps|
    ensures OwnSteps(steps[a..b + 1]) == OwnSteps(steps[a..b]) + Cost(steps[b])
  {
    assert steps[a..b + 1][..b - a] == steps[a..b];
  }

  ghost predicate Pays(s: State, t: State, step: Step) {
    Cost(step) + Work(t.threads) <= Work(s.threads)
  }

  lemma StepPays(states: seq<State>, steps: seq<Step>, k: nat, j: nat)
    requires IsRun(states, steps) && k < j < |steps| && steps[k].Notify? && !steps[j].Call?
    ensures Pays(states[j], states[j + 1], steps[j])
  {
    RunKeepsInv(states, steps, j);
    NobodySleepsThroughSet(states, steps, k, j);
    assert Next(states[j], states[j + 1], steps[j]);
    if !steps[j].Tick? {
      SettledProgress(states[j], states[j + 1], steps[j]);
    }
  }

  lemma {:induction false} PaymentsAdd(states: seq<State>, steps: seq<Step>, a: nat, b: nat)
    requires |states| == |steps| + 1 && a <= b <= |steps|
    requires forall j | a <= j < b :: Pays(states[j], states[j + 1], steps[j])
    ensures OwnSteps(steps[a..b]) + Work(states[b].threads) <= Work(states[a].threads)
    decreases b
  {
    if a == b {
      assert steps[a..b] == [];
    } else {
      PaymentsAdd(states, steps, a, b - 1);
      OwnStepsGrow(steps, a, b - 1);
      assert Pays(states[b - 1], states[b], steps[b - 1]);
    }
  }

  /** After a notification, and without further calls, at most four steps per thread are taken before
      every operation has returned. */
  lemma FinishesSoon(states: seq<State>, steps: seq<Step>, k: nat, m: nat)
    requires IsRun(states, steps) && k < m < |states| && steps[k].Notify?
    requires forall j | k < j < m :: !steps[j].Call?
    ensures OwnSteps(steps[k + 1..m]) + Work(states[m].threads) <= 4 * |states[0].threads|
  {
    forall j | k < j < m
      ensures Pays(states[j], states[j + 1], steps[j])
    {
      StepPays(states, steps, k, j);
    }
    PaymentsAdd(states, steps, k + 1, m);
    RunKeepsInv(states, steps, k + 1);
    WorkBound(states[k + 1].threads);
  }
}
