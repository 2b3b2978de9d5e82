/** Timed flock acquisition (src/flock.rs) by any number of processes on one lock file: the protocol as
    a state machine over its steps, its invariant over every run, and the polling loop proved to
    follow the machine. Times are in nanoseconds. */
module FlockProtocol {
  import opened Words

  datatype Mode = Exclusive | Shared

  const POLL: nat := 100_000_000

  /** Where a process is in `acquire_flock_with_timeout`: about to try, after a refused try and before
      the clock check, asleep until a time, or done. */
  datatype Pc = Idle | Trying | Refused | Asleep(until: nat) | Holding(fd: nat) | TimedOut(reading: nat) | Failed

  /** `tries` counts attempts, `naps` the clock checks that came before the deadline. */
  datatype Proc = Proc(pc: Pc, mode: Mode, start: nat, timeout: nat, tries: nat, naps: nat)

  datatype Held = Held(owner: nat, mode: Mode)

  /** The clock, the locks by open file description, and the processes. */
  datatype State = State(now: nat, locks: map<nat, Held>, procs: seq<Proc>)

  predicate Compatible(locks: map<nat, Held>, mode: Mode) {
    forall fd | fd in locks :: mode.Shared? && locks[fd].mode.Shared?
  }

  // ----- Steps

  datatype Step =
    | Tick(later: nat)
    | Begin(p: nat, mode: Mode, timeout: nat)
    | TryOk(p: nat, fd: nat)
    | TryBusy(p: nat)
    | TryError(p: nat)
    | Check(p: nat)
    | Wake(p: nat)
    | Drop(p: nat)

  ghost predicate Stepped(s: State, t: State, p: nat, q: Proc)
    requires p < |s.procs|
  {
    t == s.(procs := s.procs[p := q])
  }

  /** Not in a call and holding nothing: before the first call, or after one that ended without the lock. */
  predicate Free(pc: Pc) {
    pc.Idle? || pc.TimedOut? || pc.Failed?
  }

  /** One atomic step. `flock(2)` without blocking succeeds or reports a conflict; other errors may
      come at any try and leave nothing open. */
  ghost predicate Next(s: State, t: State, step: Step) {
    match step
    case Tick(later) => later >= s.now && t == s.(now := later)
    case Begin(p, mode, timeout) =>
      && p < |s.procs| && Free(s.procs[p].pc)
      && Stepped(s, t, p, Proc(Trying, mode, s.now, timeout, 0, 0))
    case TryOk(p, fd) =>
      && p < |s.procs| && s.procs[p].pc.Trying? && fd !in s.locks && Compatible(s.locks, s.procs[p].mode)
      && t == s.(procs := s.procs[p := s.procs[p].(pc := Holding(fd), tries := s.procs[p].tries + 1)],
                 locks := s.locks[fd := Held(p, s.procs[p].mode)])
    case TryBusy(p) =>
      && p < |s.procs| && s.procs[p].pc.Trying? && !Compatible(s.locks, s.procs[p].mode)
      && Stepped(s, t, p, s.procs[p].(pc := Refused, tries := s.procs[p].tries + 1))
    case TryError(p) =>
      && p < |s.procs| && s.procs[p].pc.Trying?
      && Stepped(s, t, p, s.procs[p].(pc := Failed, tries := s.procs[p].tries + 1))
    case Check(p) =>
      && p < |s.procs| && s.procs[p].pc.Refused?
      && var q := s.procs[p];
         if s.now >= q.start + q.timeout then Stepped(s, t, p, q.(pc := TimedOut(s.now)))
         else Stepped(s, t, p, q.(pc := Asleep(s.now + POLL), naps := q.naps + 1))
    case Wake(p) =>
      && p < |s.procs| && s.procs[p].pc.Asleep? && s.now >= s.procs[p].pc.until
      && Stepped(s, t, p, s.procs[p].(pc := Trying))
    case Drop(p) =>
      && p < |s.procs| && s.procs[p].pc.Holding?
      && t == s.(procs := s.procs[p := s.procs[p].(pc := Idle)], locks := s.locks - {s.procs[p].pc.fd})
  }

  ghost predicate Init(s: State) {
    s.locks == map[] && forall p | 0 <= p < |s.procs| :: s.procs[p].pc.Idle?
  }

  // ----- Invariant

  /** Exclusive locks are alone. */
  ghost predicate Mutex(locks: map<nat, Held>) {
    forall a, b | a in locks && b in locks && a != b :: locks[a].mode.Shared? && locks[b].mode.Shared?
  }

  /** The lock table and the holders agree: every lock is held by the process that got its descriptor. */
  ghost predicate Owned(s: State) {
    && (forall fd | fd in s.locks ::
          var o := s.locks[fd].owner;
          o < |s.procs| && s.procs[o].pc == Holding(fd) && s.locks[fd].mode == s.procs[o].mode)
    && forall p | 0 <= p < |s.procs| && s.procs[p].pc.Holding? ::
         s.procs[p].pc.fd in s.locks && s.locks[s.procs[p].pc.fd].owner == p
  }

  /** Each nap was entered before the deadline, and each cost a full poll interval. */
  ghost predicate Timed(now: nat, q: Proc) {
    && (q.naps > 0 ==> (q.naps - 1) * POLL < q.timeout)
    && match q.pc
       case Idle => true
       case Trying => q.tries == q.naps && now >= q.start + q.naps * POLL
       case Refused => q.tries == q.naps + 1 && now >= q.start + q.naps * POLL
       case Asleep(until) => q.tries == q.naps && q.naps > 0 && until >= q.start + q.naps * POLL
       case Holding(_) => q.tries == q.naps + 1
       case TimedOut(reading) => q.tries == q.naps + 1 && q.start + q.timeout <= reading <= now
       case Failed => q.tries == q.naps + 1
  }

  ghost predicate Inv(s: State) {
    && Mutex(s.locks)
    && Owned(s)
    && forall p | 0 <= p < |s.procs| :: Timed(s.now, s.procs[p])
  }

  lemma InitInv(s: State)
    requires Init(s) && forall p | 0 <= p < |s.procs| :: s.procs[p].naps == 0
    ensures Inv(s)
  {
  }

  /** Acquiring keeps the lock table exclusive and owned. */
  lemma TryOkKeepsLocks(s: State, t: State, p: nat, fd: nat)
    requires Mutex(s.locks) && Owned(s) && Next(s, t, TryOk(p, fd))
    ensures Mutex(t.locks) && Owned(t)
  {
    forall q | 0 <= q < |t.procs| && t.procs[q].pc.Holding?
      ensures t.procs[q].pc.fd in t.locks && t.locks[t.procs[q].pc.fd].owner == q
    {
      assert q != p ==> t.procs[q] == s.procs[q];
    }
  }

  lemma DropKeepsLocks(s: State, t: State, p: nat)
    requires Mutex(s.locks) && Owned(s) && Next(s, t, Drop(p))
    ensures Mutex(t.locks) && Owned(t)
  {
    forall q | 0 <= q < |t.procs| && t.procs[q].pc.Holding?
      ensures t.procs[q].pc.fd in t.locks && t.locks[t.procs[q].pc.fd].owner == q
    {
      assert q != p && t.procs[q] == s.procs[q];
    }
  }

  /** Every other step leaves the locks, and the process that takes it holds none before or after. */
  lemma OthersKeepLocks(s: State, t: State, p: nat, q: Proc)
    requires Owned(s) && p < |s.procs| && Stepped(s, t, p, q)
    requires !s.procs[p].pc.Holding? && !q.pc.Holding?
    ensures Owned(t)
  {
    forall r | 0 <= r < |t.procs| && t.procs[r].pc.Holding?
      ensures t.procs[r].pc.fd in t.locks && t.locks[t.procs[r].pc.fd].owner == r
    {
      assert r != p && t.procs[r] == s.procs[r];
    }
  }

  lemma NextKeepsLocks(s: State, t: State, step: Step)
    requires Mutex(s.locks) && Owned(s) && Next(s, t, step)
    ensures Mutex(t.locks) && Owned(t)
  {
    match step
    case Tick(_) =>
    case TryOk(p, fd) => TryOkKeepsLocks(s, t, p, fd);
    case Drop(p) => DropKeepsLocks(s, t, p);
    case _ => OthersKeepLocks(s, t, step.p, t.procs[step.p]);
  }

  lemma NextKeepsTimes(s: State, t: State, step: Step)
    requires (forall p | 0 <= p < |s.procs| :: Timed(s.now, s.procs[p])) && Next(s, t, step)
    ensures forall p | 0 <= p < |t.procs| :: Timed(t.now, t.procs[p])
  {
    forall p | 0 <= p < |t.procs|
      ensures Timed(t.now, t.procs[p])
    {
      if !step.Tick? && step.p == p {
        StepIsTimed(s, t, step);
      } else {
        OthersStay(s, t, step, p);
        LaterIsTimed(s.now, t.now, s.procs[p]);
      }
    }
  }

  lemma OthersStay(s: State, t: State, step: Step, p: nat)
    requires Next(s, t, step) && p < |t.procs| && (step.Tick? || step.p != p)
    ensures p < |s.procs| && t.procs[p] == s.procs[p] && s.now <= t.now
  {
  }

  lemma LaterIsTimed(now: nat, later: nat, q: Proc)
    requires Timed(now, q) && now <= later
    ensures Timed(later, q)
  {
  }

  lemma StepIsTimed(s: State, t: State, step: Step)
    requires Next(s, t, step) && !step.Tick? && step.p < |s.procs| && Timed(s.now, s.procs[step.p])
    ensures step.p < |t.procs| && Timed(t.now, t.procs[step.p])
  {
  }

  lemma NextKeepsInv(s: State, t: State, step: Step)
    requires Inv(s) && Next(s, t, step)
    ensures Inv(t)
  {
    NextKeepsLocks(s, t, step);
    NextKeepsTimes(s, t, step);
  }

  // ----- Runs

  /** A finite run: states joined by steps, starting with every process idle. */
  ghost predicate IsRun(states: seq<State>, steps: seq<Step>) {
    && |states| == |steps| + 1
    && Init(states[0]) && (forall p | 0 <= p < |states[0].procs| :: states[0].procs[p].naps == 0)
    && forall i | 0 <= i < |steps| :: Next(states[i], states[i + 1], steps[i])
  }

  lemma {:induction false} RunKeepsInv(states: seq<State>, steps: seq<Step>, i: nat)
    requires IsRun(states, steps) && i < |states|
    ensures Inv(states[i])
  {
    if i == 0 {
      InitInv(states[0]);
    } else {
      RunKeepsInv(states, steps, i - 1);
      NextKeepsInv(states[i - 1], states[i], steps[i - 1]);
    }
  }

  /** The number of poll intervals that cover a timeout. */
  function Polls(timeout: nat): (n: nat) {
    (timeout + POLL - 1) / POLL
  }

  lemma NapsBounded(naps: nat, timeout: nat)
    requires naps > 0 ==> (naps - 1) * POLL < timeout
    ensures naps <= Polls(timeout)
  {
    if naps > 0 {
      assert naps * POLL <= timeout + POLL - 1;
      DivMonotone(naps, timeout + POLL - 1);
    }
  }

  lemma DivMonotone(n: nat, x: nat)
    requires n * POLL <= x
    ensures n <= x / POLL
  {
  }

  /** Over every interleaving: an exclusive holder is alone; a process that got a descriptor holds the
      lock under it; a process anywhere else holds nothing; a timeout follows a refused try and a clock
      reading at or past the deadline; and no process tries more than ceil(timeout / 100ms) + 1 times. */
  lemma ProtocolSafe(states: seq<State>, steps: seq<Step>, i: nat, p: nat)
    requires IsRun(states, steps) && i < |states| && p < |states[i].procs|
    ensures var s, q := states[i], states[i].procs[p];
      && (q.pc.Holding? ==> q.pc.fd in s.locks && s.locks[q.pc.fd] == Held(p, q.mode))
      && (q.pc.Holding? && q.mode.Exclusive? ==> s.locks.Keys == {q.pc.fd})
      && (!q.pc.Holding? ==> forall fd | fd in s.locks :: s.locks[fd].owner != p)
      && (q.pc.TimedOut? ==> q.tries >= 1 && q.start + q.timeout <= q.pc.reading)
      && (!q.pc.Idle? ==> q.tries <= Polls(q.timeout) + 1)
  {
    RunKeepsInv(states, steps, i);
    var s, q := states[i], states[i].procs[p];
    assert Timed(s.now, q);
    NapsBounded(q.naps, q.timeout);
    if q.pc.Holding? && q.mode.Exclusive? {
      forall fd | fd in s.locks
        ensures fd == q.pc.fd
      {
      }
    }
  }

  /** From the refused try at step k on, the process has not tried again. */
  ghost predicate RefusedSince(states: seq<State>, p: nat, k: nat, i: nat)
    requires k < i < |states|
  {
    forall j | k < j <= i ::
      p < |states[j].procs| && (states[j].procs[p].pc.Refused? || states[j].procs[p].pc.TimedOut?)
  }

  /** Step k is a try of the call that process p is in at state i, the last one, and it was refused because
      of a conflicting holder. */
  ghost predicate RefusedAt(states: seq<State>, steps: seq<Step>, p: nat, k: nat, i: nat)
    requires |states| == |steps| + 1 && i < |states| && p < |states[i].procs|
  {
    && k < i && steps[k] == TryBusy(p) && p < |states[k].procs|
    && !Compatible(states[k].locks, states[k].procs[p].mode)
    && states[k].procs[p].start == states[i].procs[p].start
    && states[k].procs[p].tries + 1 == states[i].procs[p].tries
    && RefusedSince(states, p, k, i)
  }

  /** A process that timed out did so in the same call as, and with no other try after, a try that was
      refused because of a conflicting holder. */
  lemma {:induction false} TimeoutFollowsRefusal(states: seq<State>, steps: seq<Step>, i: nat, p: nat)
    requires IsRun(states, steps) && i < |states| && p < |states[i].procs|
    requires states[i].procs[p].pc.TimedOut? || states[i].procs[p].pc.Refused?
    ensures exists k: nat :: RefusedAt(states, steps, p, k, i)
  {
    assert i > 0;
    assert Next(states[i - 1], states[i], steps[i - 1]);
    if steps[i - 1] == TryBusy(p) {
      assert RefusedAt(states, steps, p, i - 1, i);
    } else {
      StillRefused(states[i - 1], states[i], steps[i - 1], p);
      TimeoutFollowsRefusal(states, steps, i - 1, p);
      var k: nat :| RefusedAt(states, steps, p, k, i - 1);
      assert RefusedAt(states, steps, p, k, i);
    }
  }

  lemma StillRefused(s: State, t: State, step: Step, p: nat)
    requires Next(s, t, step) && step != TryBusy(p) && p < |t.procs|
    requires t.procs[p].pc.TimedOut? || t.procs[p].pc.Refused?
    ensures p < |s.procs| && (s.procs[p].pc.TimedOut? || s.procs[p].pc.Refused?)
    ensures s.procs[p].start == t.procs[p].start && s.procs[p].tries == t.procs[p].tries
  {
  }

  // ----- The polling loop

  datatype Attempt = Got(fd: nat) | WouldBlock | Error

  datatype Outcome = Acquired(fd: nat) | TimedOutAt(reading: nat) | IoError

  /** The machine as seen by one process: between its own steps the others may take any number of theirs. */
  class Host {
    var st: State

    constructor (n: nat)
      ensures Inv(st) && |st.procs| == n && forall p | 0 <= p < n :: st.procs[p].pc.Idle?
    {
      st := State(0, map[], seq(n, _ => Proc(Idle, Shared, 0, 0, 0, 0)));
    }

    /** Steps of the other processes and of the clock. */
    method Others(p: nat)
      requires Inv(st) && p < |st.procs|
      modifies this
      ensures Inv(st) && |st.procs| == old(|st.procs|) && st.procs[p] == old(st.procs[p]) && st.now >= old(st.now)
    {
    }

    method Start(p: nat, mode: Mode, timeout: nat)
      requires Inv(st) && p < |st.procs| && Free(st.procs[p].pc)
      modifies this
      ensures Inv(st) && |st.procs| == old(|st.procs|)
      ensures exists at :: st.procs[p] == Proc(Trying, mode, at, timeout, 0, 0)
    {
      Others(p);
      ghost var before := st;
      st := st.(procs := st.procs[p := Proc(Trying, mode, st.now, timeout, 0, 0)]);
      NextKeepsInv(before, st, Begin(p, mode, timeout));
    }

    /** `try_flock`: open, then `flock(2)` without blocking. */
    method TryFlock(p: nat) returns (r: Attempt)
      requires Inv(st) && p < |st.procs| && st.procs[p].pc.Trying?
      modifies this
      ensures Inv(st) && |st.procs| == old(|st.procs|)
      ensures var q := old(st.procs[p]).(tries := old(st.procs[p]).tries + 1);
        st.procs[p] == match r
                       case Got(fd) => q.(pc := Holding(fd))
                       case WouldBlock => q.(pc := Refused)
                       case Error => q.(pc := Failed)
    {
      Others(p);
      ghost var before := st;
      var q := st.procs[p].(tries := st.procs[p].tries + 1);
      if * {
        st := st.(procs := st.procs[p := q.(pc := Failed)]);
        NextKeepsInv(before, st, TryError(p));
        r := Error;
      } else if Compatible(st.locks, q.mode) {
        SomeFdIsFree(st.locks.Keys);
        var fd: nat :| fd !in st.locks;
        st := st.(procs := st.procs[p := q.(pc := Holding(fd))], locks := st.locks[fd := Held(p, q.mode)]);
        NextKeepsInv(before, st, TryOk(p, fd));
        r := Got(fd);
      } else {
        st := st.(procs := st.procs[p := q.(pc := Refused)]);
        NextKeepsInv(before, st, TryBusy(p));
        r := WouldBlock;
      }
      Others(p);
    }

    /** Read the clock after a refused try; `expired` when the deadline has passed. */
    method CheckDeadline(p: nat) returns (expired: bool)
      requires Inv(st) && p < |st.procs| && st.procs[p].pc.Refused?
      modifies this
      ensures Inv(st) && |st.procs| == old(|st.procs|)
      ensures expired ==> exists at :: st.procs[p] == old(st.procs[p]).(pc := TimedOut(at))
      ensures !expired ==> exists until ::
                st.procs[p] == old(st.procs[p]).(pc := Asleep(until), naps := old(st.procs[p]).naps + 1)
    {
      Others(p);
      ghost var before := st;
      var q := st.procs[p];
      expired := st.now >= q.start + q.timeout;
      if expired {
        st := st.(procs := st.procs[p := q.(pc := TimedOut(st.now))]);
      } else {
        st := st.(procs := st.procs[p := q.(pc := Asleep(st.now + POLL), naps := q.naps + 1)]);
      }
      NextKeepsInv(before, st, Check(p));
    }

    /** Sleep at least one poll interval. */
    method Sleep(p: nat)
      requires Inv(st) && p < |st.procs| && st.procs[p].pc.Asleep?
      modifies this
      ensures Inv(st) && |st.procs| == old(|st.procs|)
      ensures st.procs[p] == old(st.procs[p]).(pc := Trying)
    {
      Others(p);
      ghost var before := st;
      var until := st.procs[p].pc.until;
      if st.now < until {
        st := st.(now := until);
        NextKeepsInv(before, st, Tick(until));
        before := st;
      }
      st := st.(procs := st.procs[p := st.procs[p].(pc := Trying)]);
      NextKeepsInv(before, st, Wake(p));
    }

    /** The acquisition loop. On success the caller's descriptor holds the lock, alone if exclusive; on
        any failure the caller holds nothing; the number of tries is bounded. */
    method AcquireWithTimeout(p: nat, mode: Mode, timeout: nat) returns (r: Outcome)
      requires Inv(st) && p < |st.procs| && Free(st.procs[p].pc)
      modifies this
      ensures Inv(st) && p < |st.procs|
      ensures r.Acquired? ==> r.fd in st.locks && st.locks[r.fd] == Held(p, mode)
      ensures r.Acquired? && mode.Exclusive? ==> st.locks.Keys == {r.fd}
      ensures !r.Acquired? ==> forall fd | fd in st.locks :: st.locks[fd].owner != p
      ensures r.TimedOutAt? ==> st.procs[p].tries >= 1 && st.procs[p].start + timeout <= r.reading <= st.now
      ensures st.procs[p].tries <= Polls(timeout) + 1
    {
      Start(p, mode, timeout);
      while true
        invariant Inv(st) && p < |st.procs|
        invariant st.procs[p].pc.Trying? && st.procs[p].mode == mode && st.procs[p].timeout == timeout
        decreases Polls(timeout) - st.procs[p].naps
      {
        assert Timed(st.now, st.procs[p]);
        NapsBounded(st.procs[p].naps, timeout);
        var attempt := TryFlock(p);
        assert Timed(st.now, st.procs[p]);
        match attempt {
          case Got(fd) =>
            HolderFacts(st, p);
            return Acquired(fd);
          case Error =>
            return IoError;
          case WouldBlock =>
            var expired := CheckDeadline(p);
            assert Timed(st.now, st.procs[p]);
            if expired {
              return TimedOutAt(st.procs[p].pc.reading);
            }
            NapsBounded(st.procs[p].naps, timeout);
            Sleep(p);
        }
      }
    }
  }

  lemma HolderFacts(s: State, p: nat)
    requires Inv(s) && p < |s.procs| && s.procs[p].pc.Holding?
    ensures s.procs[p].pc.fd in s.locks && s.locks[s.procs[p].pc.fd] == Held(p, s.procs[p].mode)
    ensures s.procs[p].mode.Exclusive? ==> s.locks.Keys == {s.procs[p].pc.fd}
  {
    var fd := s.procs[p].pc.fd;
    if s.procs[p].mode.Exclusive? {
      forall other | other in s.locks
        ensures other == fd
      {
      }
    }
  }

  lemma SomeFdIsFree(fds: set<nat>)
    ensures exists fd: nat :: fd !in fds
  {
    BelowSize(|fds| + 1);
    if forall fd: nat :: fd in fds {
      SubsetSize(Below(|fds| + 1), fds);
    }
  }
}
