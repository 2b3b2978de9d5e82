/** The latch as an object (src/sync.rs): its methods among any other threads that use it. Each method
    takes the steps of the state machine in `Latch`, with the other threads running in between. */
module LatchObject {
  import opened Latch

  /** What thread `i` can rely on while others run: it stays where it is, except that it may be woken;
      the flag, the clock and the settled state only advance; and while it holds the mutex nobody else
      takes it or stores the flag. */
  ghost predicate Rely(s: State, t: State, i: nat) {
    && i < |s.threads| == |t.threads|
    && (s.flag ==> t.flag) && s.now <= t.now && (Settled(s) ==> Settled(t))
    && (s.owner == i ==> t.owner == i && t.flag == s.flag)
    && (|| t.threads[i] == s.threads[i]
        || (s.threads[i].Parked? && t.threads[i].Woken? && t.threads[i].op == s.threads[i].op))
  }

  /** Steps that are not thread i's own decision: those of others, the clock, and wakeups. */
  predicate IsOthers(step: Step, i: nat) {
    step.Tick? || step.Spurious? || step.Expire? || step.i != i
  }

  lemma OthersRely(s: State, t: State, step: Step, i: nat)
    requires Inv(s) && Next(s, t, step) && i < |s.threads| && IsOthers(step, i)
    ensures Inv(t) && Rely(s, t, i)
  {
    NextKeepsInv(s, t, step);
    if Settled(s) {
      StaysSettled(s, t, step);
    }
  }

  lemma AdvancesClock(s: State, t: State, step: Step)
    requires Next(s, t, step)
    ensures s.now <= t.now
  {
  }

  lemma RelyTwice(s: State, t: State, u: State, i: nat)
    requires Rely(s, t, i) && Rely(t, u, i)
    ensures Rely(s, u, i)
  {
  }

  /** The outcome of looking at the flag under the mutex. */
  function Decided(s: State, i: nat, op: Op): (t: State)
    requires i < |s.threads|
  {
    Put(s, i, if s.flag || op.IsSet? then Returned(op, s.flag)
              else if op.WaitTimeout? then
                (if s.now >= op.deadline then Returned(op, false) else Parked(op, op.deadline))
              else Parked(op, 0)).(owner := NOBODY)
  }

  lemma DecidedIsDecide(s: State, i: nat, op: Op)
    requires i < |s.threads| && !op.Set?
    ensures Decide(s, Decided(s, i, op), i, op)
  {
  }

  /** Outside any operation. */
  predicate Free(pc: Pc) {
    pc.Outside? || pc.Returned?
  }

  /** The flag, the clock and the settled state only advance. */
  ghost predicate Advanced(s: State, t: State) {
    |t.threads| == |s.threads| && (s.flag ==> t.flag) && s.now <= t.now && (Settled(s) ==> Settled(t))
  }

  class SharedLatch {
    var st: State

    /** An unset latch used by `n` threads. */
    constructor (n: nat)
      ensures Inv(st) && Init(st) && |st.threads| == n
    {
      st := State(false, NOBODY, 0, seq(n, _ => Outside));
    }

    /** Steps of the others, at least none. */
    method Others(i: nat)
      requires Inv(st) && i < |st.threads|
      modifies this
      ensures Inv(st) && Rely(old(st), st, i)
    {
    }

    /** One step of the machine that is not thread i's. */
    method Run(i: nat, t: State, ghost step: Step)
      requires Inv(st) && i < |st.threads| && Next(st, t, step) && IsOthers(step, i)
      modifies this
      ensures st == t && Inv(st) && Rely(old(st), st, i)
    {
      OthersRely(st, t, step, i);
      st := t;
    }

    /** One own step, then others. */
    method Advance(i: nat, t: State, ghost step: Step)
      requires Inv(st) && i < |st.threads| && Next(st, t, step) && i < |t.threads|
      modifies this
      ensures Inv(st) && Rely(t, st, i) && Advanced(old(st), st)
    {
      NextKeepsInv(st, t, step);
      if Settled(st) {
        StaysSettled(st, t, step);
      }
      AdvancesClock(st, t, step);
      st := t;
      Others(i);
    }

    /** Another thread inside `set` finishes it. */
    method LetSetterLeave(i: nat, j: nat)
      requires Inv(st) && i < |st.threads| && j == st.owner != i
      requires st.threads[j] == Holding(Op.Set) || st.threads[j] == Stored || st.threads[j] == Notified
      modifies this
      ensures Inv(st) && st.owner == NOBODY && Rely(old(st), st, i)
    {
      if st.threads[j] == Holding(Op.Set) {
        Run(i, Put(st, j, Stored).(flag := true), Store(j));
      }
      ghost var s := st;
      if st.threads[j] == Stored {
        Run(i, st.(threads := WakeAll(st.threads)[j := Notified]), Notify(j));
      }
      RelyTwice(old(st), s, st, i);
      ghost var t := st;
      Run(i, Put(st, j, Returned(Op.Set, true)).(owner := NOBODY), Unlock(j));
      RelyTwice(old(st), t, st, i);
    }

    /** Another thread looks at the flag and parks or returns. */
    method LetLookerLeave(i: nat, j: nat)
      requires Inv(st) && i < |st.threads| && j == st.owner != i
      requires st.threads[j].Holding? || st.threads[j].Rechecking?
      requires !st.threads[j].op.Set?
      modifies this
      ensures Inv(st) && st.owner == NOBODY && Rely(old(st), st, i)
    {
      var op := st.threads[j].op;
      DecidedIsDecide(st, j, op);
      if st.threads[j].Holding? {
        Run(i, Decided(st, j, op), Look(j));
      } else if st.threads[j].timedOut && !st.flag {
        Run(i, Put(st, j, Returned(op, false)).(owner := NOBODY), Recheck(j));
      } else {
        Run(i, Decided(st, j, op), Recheck(j));
      }
    }

    /** The thread inside the mutex leaves it. */
    method LetOwnerLeave(i: nat)
      requires Inv(st) && i < |st.threads| && 0 <= st.owner && st.owner != i
      modifies this
      ensures Inv(st) && st.owner == NOBODY && Rely(old(st), st, i)
    {
      var j: nat := st.owner;
      var pc := st.threads[j];
      assert InLock(pc) && Honest(st, pc);
      if pc == Holding(Op.Set) || pc == Stored || pc == Notified {
        LetSetterLeave(i, j);
      } else {
        LetLookerLeave(i, j);
      }
    }

    /** `lock()`: wait until the mutex is free, then take it. */
    method Acquire(i: nat)
      requires Inv(st) && i < |st.threads| && (st.threads[i].Locking? || st.threads[i].Woken?)
      modifies this
      ensures Inv(st) && Advanced(old(st), st) && i < |st.threads| && st.owner == i
      ensures var pc := old(st).threads[i];
              st.threads[i] == if pc.Locking? then Holding(pc.op) else Rechecking(pc.op, pc.timedOut)
    {
      var pc := st.threads[i];
      assert !InLock(pc);
      Others(i);
      if st.owner != NOBODY {
        assert st.owner != i;
        LetOwnerLeave(i);
      }
      if pc.Locking? {
        Advance(i, Put(st, i, Holding(pc.op)).(owner := i), Lock(i));
      } else {
        Advance(i, Put(st, i, Rechecking(pc.op, pc.timedOut)).(owner := i), Relock(i));
      }
    }

    /** Enter an operation and take the mutex. */
    method Enter(i: nat, op: Op)
      requires Inv(st) && i < |st.threads| && Free(st.threads[i])
      modifies this
      ensures Inv(st) && Advanced(old(st), st) && i < |st.threads| && st.owner == i && st.threads[i] == Holding(op)
    {
      Advance(i, Put(st, i, Locking(op)), Call(i, op));
      Acquire(i);
    }

    /** `set`: afterwards the flag is set and nobody is parked. */
    method Set(i: nat)
      requires Inv(st) && i < |st.threads| && Free(st.threads[i])
      modifies this
      ensures Inv(st) && Advanced(old(st), st) && Settled(st)
      ensures i < |st.threads| && st.threads[i] == Returned(Op.Set, true)
    {
      Enter(i, Op.Set);
      Advance(i, Put(st, i, Stored).(flag := true), Store(i));
      var t := st.(threads := WakeAll(st.threads)[i := Notified]);
      NotifySettles(st, t, i);
      Advance(i, t, Notify(i));
      Advance(i, Put(st, i, Returned(Op.Set, true)).(owner := NOBODY), Unlock(i));
    }

    /** `is_set`: true only if set by now, and true if it was set before the call. */
    method IsSet(i: nat) returns (r: bool)
      requires Inv(st) && i < |st.threads| && Free(st.threads[i])
      modifies this
      ensures Inv(st) && Advanced(old(st), st) && i < |st.threads| && st.threads[i] == Returned(Op.IsSet, r)
      ensures (r ==> st.flag) && (old(st).flag ==> r)
    {
      Enter(i, Op.IsSet);
      r := st.flag;
      DecidedIsDecide(st, i, Op.IsSet);
      Advance(i, Decided(st, i, Op.IsSet), Look(i));
    }

    /** Parked on the condition variable until woken: by a notification, by the clock or for no reason.
        Blocking takes time. */
    method Block(i: nat)
      requires Inv(st) && i < |st.threads| && (st.threads[i].Parked? || st.threads[i].Woken?)
      modifies this
      ensures Inv(st) && Advanced(old(st), st) && i < |st.threads| && st.now > old(st).now
      ensures st.threads[i].Woken? && st.threads[i].op == old(st).threads[i].op
    {
      Run(i, st.(now := st.now + 1), Tick(st.now + 1));
      Others(i);
      if st.threads[i].Parked? {
        if * {
          Run(i, Put(st, i, Woken(st.threads[i].op, false)), Spurious(i));
        } else if st.threads[i].op.WaitTimeout? && st.now >= st.threads[i].until {
          Run(i, Put(st, i, Woken(st.threads[i].op, true)), Expire(i));
        } else {
          Run(i, Put(st, i, Woken(st.threads[i].op, false)), Spurious(i));
        }
      }
    }

    /** `wait_timeout`: true only if set by now; false only when the latch was unset before the call
        and the timeout has passed. */
    method WaitTimeout(i: nat, timeout: nat) returns (r: bool)
      requires Inv(st) && i < |st.threads| && Free(st.threads[i])
      modifies this
      ensures Inv(st) && Advanced(old(st), st)
      ensures i < |st.threads| && st.threads[i].Returned? && st.threads[i].result == r
      ensures r ==> st.flag
      ensures !r ==> !old(st).flag && st.now >= old(st).now + timeout
    {
      var deadline := st.now + timeout;
      var op := Op.WaitTimeout(deadline);
      Enter(i, op);
      while !st.flag
        invariant Inv(st) && Advanced(old(st), st) && i < |st.threads| && st.owner == i
        invariant st.threads[i] == Holding(op) || (st.threads[i].Rechecking? && st.threads[i].op == op)
        decreases deadline - st.now
      {
        assert Honest(st, st.threads[i]);
        ghost var step := if st.threads[i].Holding? then Look(i) else Recheck(i);
        if st.threads[i].Rechecking? && st.threads[i].timedOut {
          Advance(i, Put(st, i, Returned(op, false)).(owner := NOBODY), Recheck(i));
          return false;
        }
        DecidedIsDecide(st, i, op);
        if st.now >= deadline {
          Advance(i, Decided(st, i, op), step);
          return false;
        }
        Advance(i, Decided(st, i, op), step);
        Block(i);
        Acquire(i);
      }
      ghost var step := if st.threads[i].Holding? then Look(i) else Recheck(i);
      DecidedIsDecide(st, i, op);
      Advance(i, Decided(st, i, op), step);
      r := true;
    }

    /** `wait`, observed for at most `rounds` wakeups: it returns only when the latch is set. */
    method Wait(i: nat, rounds: nat) returns (done: bool)
      requires Inv(st) && i < |st.threads| && Free(st.threads[i])
      modifies this
      ensures Inv(st) && Advanced(old(st), st) && i < |st.threads|
      ensures done ==> st.flag && st.threads[i] == Returned(Op.Wait, true)
      ensures !done ==> !old(st).flag && !st.threads[i].Returned?
    {
      Enter(i, Op.Wait);
      var left := rounds;
      while !st.flag
        invariant Inv(st) && Advanced(old(st), st) && i < |st.threads| && st.owner == i
        invariant st.threads[i] == Holding(Op.Wait) || (st.threads[i].Rechecking? && st.threads[i].op == Op.Wait)
        decreases left
      {
        assert Honest(st, st.threads[i]);
        DecidedIsDecide(st, i, Op.Wait);
        if left == 0 {
          return false;
        }
        left := left - 1;
        ghost var step := if st.threads[i].Holding? then Look(i) else Recheck(i);
        Advance(i, Decided(st, i, Op.Wait), step);
        Block(i);
        Acquire(i);
      }
      ghost var step := if st.threads[i].Holding? then Look(i) else Recheck(i);
      DecidedIsDecide(st, i, Op.Wait);
      Advance(i, Decided(st, i, Op.Wait), step);
      done := true;
    }
  }
}
