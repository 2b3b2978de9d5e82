/** Recursive teardown of a cgroup v2 tree (src/cgroup.rs). The kernel is the class's lower methods:
    any call may fail, tasks exit and fork at any time, directories are listed in any order. */
module Teardown {
  import opened Text

  /** Components below the cgroup mount; `[]` is the root cgroup. `p <= q` says q is in p's subtree. */
  type Path = seq<string>

  type Pid = n: nat | n <= U32_MAX

  predicate IsChild(q: Path, p: Path) {
    |q| == |p| + 1 && p <= q
  }

  /** Ghost record of one teardown. `failed`: directories where a read of `cgroup.procs`, a drain or an
      rmdir failed, or where a task forked. `unread`: directories whose entry or listing could not be
      read. `tried`: when each rmdir was attempted. `known`: every pid seen so far. */
  datatype Log = Log(failed: set<Path>, unread: set<Path>, tried: map<Path, nat>, clock: nat, known: set<Pid>)

  /** Something went wrong in the subtree of q, or a directory on the way to q was not read. */
  ghost predicate Blamed(q: Path, log: Log) {
    exists f :: (f in log.failed && q <= f) || (f in log.unread && (q <= f || f <= q))
  }

  /** An rmdir is attempted only after one was attempted in every child directory that was there. */
  ghost predicate ChildrenFirst(log: Log, born: set<Path>) {
    forall p, q | p in log.tried && q in born && IsChild(q, p) ::
      (q in log.tried && log.tried[q] < log.tried[p]) || q in log.unread || p in log.unread
  }

  ghost predicate Stamped(log: Log) {
    forall p | p in log.tried :: log.tried[p] < log.clock
  }

  /** A task lives in one cgroup. Between the two states it stayed where it was or, if it was inside the
      scope, moved to the root; tasks that were not there before are new. */
  ghost predicate Kept(before: map<Pid, Path>, after: map<Pid, Path>, known: set<Pid>, scope: Path, strict: bool) {
    && (forall t | t in after && t in before ::
          after[t] == before[t] || (after[t] == [] && Inside(before[t], scope, strict)))
    && forall t | t in after && t !in before :: t !in known
  }

  ghost predicate Inside(q: Path, scope: Path, strict: bool) {
    scope <= q && (strict ==> q != scope)
  }

  ghost predicate Grows(a: Log, b: Log) {
    && a.failed <= b.failed && a.unread <= b.unread && a.known <= b.known && a.clock <= b.clock
    && forall p | p in a.tried :: p in b.tried && b.tried[p] == a.tried[p]
  }

  lemma BlameStays(q: Path, a: Log, b: Log)
    requires Blamed(q, a) && Grows(a, b)
    ensures Blamed(q, b)
  {
    var f :| (f in a.failed && q <= f) || (f in a.unread && (q <= f || f <= q));
  }

  /** What is to blame for a child is to blame for its parent. */
  lemma BlameRises(q: Path, p: Path, log: Log)
    requires Blamed(q, log) && IsChild(q, p)
    ensures Blamed(p, log)
  {
    var f :| (f in log.failed && q <= f) || (f in log.unread && (q <= f || f <= q));
    assert q <= f ==> p <= f;
    if f <= q && f != q {
      assert f == q[..|f|] && p == q[..|p|];
      assert f <= p;
    }
  }

  lemma KeptTwice(a: map<Pid, Path>, b: map<Pid, Path>, c: map<Pid, Path>, first: set<Pid>, second: set<Pid>,
                  scope: Path, strict: bool)
    requires Kept(a, b, first, scope, strict) && Kept(b, c, second, scope, strict)
    requires a.Keys <= first <= second
    ensures Kept(a, c, first, scope, strict)
  {
  }

  lemma KeptWiden(a: map<Pid, Path>, b: map<Pid, Path>, known: set<Pid>, q: Path, p: Path)
    requires Kept(a, b, known, q, false) && IsChild(q, p)
    ensures Kept(a, b, known, p, true)
  {
    forall t | t in b && t in a
      ensures b[t] == a[t] || (b[t] == [] && Inside(a[t], p, true))
    {
      if b[t] != a[t] {
        assert q <= a[t] && p <= q;
      }
    }
  }

  /** The pids that lines of `cgroup.procs` name. */
  function PidsIn(lines: seq<string>): (pids: set<Pid>) {
    if lines == [] then {}
    else
      var r := ParseU32(Trim(lines[0]));
      (if r.Some? then {r.value} else {}) + PidsIn(lines[1..])
  }

  lemma PidsStep(line: string, lines: seq<string>, t: Pid)
    requires Trim(line) == line && ParseU32(line) == Some(t)
    ensures PidsIn([line] + lines) == {t} + PidsIn(lines)
  {
    assert ([line] + lines)[1..] == lines;
  }

  /** A line of `cgroup.procs` is read back as the pid it prints. */
  lemma PidLine(t: Pid, rest: string)
    ensures PidsIn(Lines(Decimal(t) + "\n" + rest)) == {t} + PidsIn(Lines(rest))
  {
    var line := Decimal(t);
    DigitsAreNotWhite(line);
    DigitsKept(line);
    LinesStep(line, rest);
    ParseDecimal(t);
    PidsStep(line, Lines(rest), t);
  }

  /** The text of `cgroup.procs` for these tasks, in some order. */
  method PrintPids(tasks: set<Pid>) returns (content: string)
    ensures PidsIn(Lines(content)) == tasks
  {
    var rest := tasks;
    content := "";
    while rest != {}
      invariant rest <= tasks && PidsIn(Lines(content)) == tasks - rest
    {
      var t :| t in rest;
      PidLine(t, content);
      rest, content := rest - {t}, Decimal(t) + "\n" + content;
    }
  }

  lemma {:induction false} PrefixesExist(dirs: set<Path>, q: Path, n: nat)
    requires forall r | r in dirs && r != [] :: r[..|r| - 1] in dirs
    requires q in dirs && n <= |q|
    ensures q[..n] in dirs
    decreases |q|
  {
    if n == |q| {
      assert q[..n] == q;
    } else {
      var parent := q[..|q| - 1];
      PrefixesExist(dirs, parent, n);
      assert parent[..n] == q[..n];
    }
  }

  /** The subtree of p as it was when the teardown began is still there and not yet tried. */
  ghost predicate Intact(dirs: set<Path>, log: Log, born: set<Path>, p: Path, strict: bool) {
    forall q | q in born && Inside(q, p, strict) :: q in dirs && q !in log.tried
  }

  /** The tree and the log at one moment. */
  datatype Moment = Moment(dirs: set<Path>, home: map<Pid, Path>, frozen: set<Path>, log: Log)

  /** What a teardown of the scope may do: remove directories, move tasks and try rmdirs inside it only;
      never create, freeze or forget. */
  ghost predicate Advanced(a: Moment, b: Moment, p: Path, strict: bool) {
    && a.home.Keys <= a.log.known
    && b.dirs <= a.dirs && b.frozen <= a.frozen
    && (forall q | q in a.dirs && !Inside(q, p, strict) :: q in b.dirs)
    && Kept(a.home, b.home, a.log.known, p, strict)
    && Grows(a.log, b.log)
    && forall q | q in b.log.tried && q !in a.log.tried :: Inside(q, p, strict)
  }

  lemma AdvancedTwice(a: Moment, b: Moment, c: Moment, p: Path, strict: bool)
    requires Advanced(a, b, p, strict) && Advanced(b, c, p, strict)
    ensures Advanced(a, c, p, strict)
  {
    KeptTwice(a.home, b.home, c.home, a.log.known, b.log.known, p, strict);
  }

  lemma AdvancedWiden(a: Moment, b: Moment, q: Path, p: Path)
    requires Advanced(a, b, q, false) && IsChild(q, p)
    ensures Advanced(a, b, p, true)
  {
    KeptWiden(a.home, b.home, a.log.known, q, p);
    assert forall r | Inside(r, q, false) :: Inside(r, p, true);
  }

  lemma AdvancedLoosen(a: Moment, b: Moment, p: Path)
    requires Advanced(a, b, p, true)
    ensures Advanced(a, b, p, false)
  {
  }

  /** What is left inside the scope is to blame. */
  ghost predicate Excused(m: Moment, p: Path, strict: bool) {
    forall q | q in m.dirs && Inside(q, p, strict) :: Blamed(q, m.log)
  }

  // ----- One directory's loop over its children

  /** While the children in `rest` are still to be visited: their subtrees are intact; what is left of
      the others is to blame. */
  ghost predicate Visiting(before: set<Path>, dirs: set<Path>, log: Log, born: set<Path>, p: Path, rest: set<Path>) {
    && dirs <= before
    && (forall q | q in before && !Inside(q, p, true) :: q in dirs)
    && (forall c | c in rest :: IsChild(c, p) && c in dirs && Intact(dirs, log, born, c, false))
    && (forall q | q in dirs && Inside(q, p, true) :: q[..|p| + 1] in rest || Blamed(q, log))
    && forall q | q in born && IsChild(q, p) :: q in rest || q in log.tried || q in log.unread
  }

  lemma StartVisiting(dirs: set<Path>, log: Log, born: set<Path>, p: Path)
    requires forall r | r in dirs && r != [] :: r[..|r| - 1] in dirs
    requires Intact(dirs, log, born, p, true)
    ensures Visiting(dirs, dirs, log, born, p, set q | q in dirs && IsChild(q, p))
  {
    var rest := set q | q in dirs && IsChild(q, p);
    forall q | q in dirs && Inside(q, p, true)
      ensures q[..|p| + 1] in rest
    {
      assert p == q[..|p|];
      PrefixesExist(dirs, q, |p| + 1);
      assert p <= q[..|p| + 1];
    }
    forall c | c in rest
      ensures Intact(dirs, log, born, c, false)
    {
      assert forall q | c <= q :: Inside(q, p, true);
    }
  }

  lemma SiblingsDisjoint(c: Path, d: Path, q: Path)
    requires |c| == |d| && c <= q && d <= q
    ensures c == d
  {
    assert c == q[..|c|] && d == q[..|d|];
  }

  lemma SkippedChild(before: set<Path>, dirs: set<Path>, a: Log, b: Log, born: set<Path>, p: Path, rest: set<Path>,
                     c: Path)
    requires Visiting(before, dirs, a, born, p, rest) && c in rest
    requires b == a.(unread := a.unread + {c})
    ensures Visiting(before, dirs, b, born, p, rest - {c})
  {
    forall q | q in dirs && Inside(q, p, true)
      ensures q[..|p| + 1] in rest - {c} || Blamed(q, b)
    {
      if q[..|p| + 1] == c {
        assert c <= q && c in b.unread;
      } else if q[..|p| + 1] !in rest {
        BlameStays(q, a, b);
      }
    }
  }

  lemma VisitedChild(before: set<Path>, m: Moment, n: Moment, born: set<Path>, p: Path, rest: set<Path>, c: Path)
    requires Visiting(before, m.dirs, m.log, born, p, rest) && c in rest
    requires Advanced(m, n, c, false) && Excused(n, c, false) && c in n.log.tried
    ensures Visiting(before, n.dirs, n.log, born, p, rest - {c})
  {
    assert forall q | c <= q :: Inside(q, p, true);
    forall s | s in rest - {c}
      ensures s in n.dirs && Intact(n.dirs, n.log, born, s, false)
    {
      forall q | q in m.dirs && s <= q
        ensures q in n.dirs && (q !in m.log.tried ==> q !in n.log.tried)
      {
        if c <= q {
          SiblingsDisjoint(c, s, q);
        }
      }
    }
    forall q | q in n.dirs && Inside(q, p, true)
      ensures q[..|p| + 1] in rest - {c} || Blamed(q, n.log)
    {
      if q[..|p| + 1] == c {
        assert c <= q;
      } else if q[..|p| + 1] !in rest {
        BlameStays(q, m.log, n.log);
      }
    }
  }

  /** The rmdir of p closes the visit: its children were tried before, and if p is left, one of the
      three reasons for which rmdir refuses is to blame. */
  lemma Closed(m: Moment, n: Moment, born: set<Path>, p: Path)
    requires Excused(m, p, true) && Grows(m.log, n.log) && n.dirs <= m.dirs
    requires p in n.dirs ==> p in n.log.failed || exists q :: q in n.dirs && IsChild(q, p)
    ensures Excused(n, p, false)
  {
    forall q | q in n.dirs && Inside(q, p, false)
      ensures Blamed(q, n.log)
    {
      if q != p {
        BlameStays(q, m.log, n.log);
      } else if p in n.log.failed {
        assert p <= p;
      } else {
        var c :| c in n.dirs && IsChild(c, p);
        BlameStays(c, m.log, n.log);
        BlameRises(c, p, n.log);
      }
    }
  }

  lemma ClosedInOrder(a: Log, b: Log, born: set<Path>, p: Path)
    requires ChildrenFirst(a, born) && Stamped(a) && Grows(a, b) && a.unread == b.unread
    requires b.tried.Keys == a.tried.Keys + {p} && b.tried[p] == a.clock && p !in a.tried
    requires forall q | q in born && IsChild(q, p) :: q in a.tried || q in a.unread || p in a.unread
    ensures ChildrenFirst(b, born)
  {
  }

  /** Outcome of a write to `cgroup.procs`. */
  datatype Write = Moved | Esrch | Failed

  class Cgroupfs {
    var dirs: set<Path>
    var home: map<Pid, Path>
    var frozen: set<Path>
    ghost var log: Log

    ghost predicate Valid()
      reads this
    {
      && [] in dirs
      && (forall q | q in dirs && q != [] :: q[..|q| - 1] in dirs)
      && (forall t | t in home :: home[t] in dirs)
      && frozen <= dirs
      && home.Keys <= log.known
      && Stamped(log)
    }

    ghost function Now(): (m: Moment)
      reads this
    {
      Moment(dirs, home, frozen, log)
    }

    // ----- The kernel

    /** Other activity, at least none: tasks exit, and fork under fresh pids. */
    method Others()
      requires Valid()
      modifies this`home, this`log
      ensures Valid() && Grows(old(log), log) && log.unread == old(log.unread) && log.tried == old(log.tried)
      ensures forall t | t in home && t in old(home) :: home[t] == old(home[t])
      ensures forall t | t in home && t !in old(home) :: t !in old(log.known) && home[t] in log.failed
    {
    }

    /** The child directories, or an error. */
    method ReadDir(p: Path) returns (r: Option<set<Path>>)
      requires Valid() && p in dirs
      modifies this`home, this`log
      ensures Valid() && Grows(old(log), log) && log.tried == old(log.tried)
      ensures Kept(old(home), home, old(log.known), p, true)
      ensures r.Some? ==> r.value == set q | q in dirs && IsChild(q, p)
      ensures r.None? ==> p in log.unread
    {
      Others();
      if * {
        log := log.(unread := log.unread + {p});
        r := None;
      } else {
        r := Some(set q | q in dirs && IsChild(q, p));
      }
    }

    /** Read the entry and the file type of a child directory. */
    method ReadEntry(c: Path) returns (ok: bool)
      modifies this`log
      ensures log == if ok then old(log) else old(log).(unread := old(log).unread + {c})
    {
      if * {
        ok := true;
      } else {
        log := log.(unread := log.unread + {c});
        ok := false;
      }
    }

    /** `cgroup.procs`: one decimal pid a line for every task in p. */
    method ReadProcs(p: Path) returns (r: Option<string>)
      requires Valid() && p in dirs
      modifies this`home, this`log
      ensures Valid() && Grows(old(log), log) && log.unread == old(log.unread) && log.tried == old(log.tried)
      ensures Kept(old(home), home, old(log.known), p, false)
      ensures r.Some? ==> PidsIn(Lines(r.value)) == set t | t in home && home[t] == p
      ensures r.None? ==> p in log.failed
    {
      Others();
      if * {
        log := log.(failed := log.failed + {p});
        return None;
      }
      var content := PrintPids(set t | t in home && home[t] == p);
      r := Some(content);
    }

    /** Write a pid to the root's `cgroup.procs`. After an error the task may have moved or not. */
    method MoveToRoot(t: Pid, ghost from: Path) returns (r: Write)
      requires Valid() && t in log.known && (t in home ==> home[t] == [] || home[t] == from)
      modifies this`home, this`log
      ensures Valid() && Grows(old(log), log) && log.unread == old(log.unread) && log.tried == old(log.tried)
      ensures Kept(old(home), home, old(log.known), from, false)
      ensures t in home ==> home[t] == [] || r == Failed
      ensures r == Failed ==> from in log.failed
      ensures forall u | u in home && u !in old(home) :: home[u] in log.failed
    {
      Others();
      if t !in home {
        return Esrch;
      }
      if * {
        home := home[t := []];
      }
      if * {
        log := log.(failed := log.failed + {from});
        r := Failed;
      } else {
        home := home[t := []];
        r := Moved;
      }
    }

    method Unfreeze(p: Path)
      requires Valid() && p in dirs
      modifies this`home, this`log, this`frozen
      ensures Valid() && Grows(old(log), log) && log.unread == old(log.unread) && log.tried == old(log.tried)
      ensures Kept(old(home), home, old(log.known), p, false)
      ensures old(frozen) - {p} <= frozen <= old(frozen)
    {
      Others();
      if * {
        frozen := frozen - {p};
      }
    }

    /** rmdir works only without child directories and tasks, and may fail even then. */
    method RemoveDir(p: Path)
      requires Valid() && p in dirs && p != [] && p !in log.tried
      modifies this
      ensures Valid() && Grows(old(log), log) && log.unread == old(log.unread)
      ensures log.tried.Keys == old(log.tried).Keys + {p} && log.tried[p] == old(log.clock)
      ensures Kept(old(home), home, old(log.known), p, false)
      ensures old(dirs) - {p} <= dirs <= old(dirs) && frozen <= old(frozen)
      ensures p in dirs ==>
                || p in log.failed
                || (exists q :: q in dirs && IsChild(q, p))
                || exists t :: t in old(home) && old(home)[t] == p
    {
      ghost var stamp := log.clock;
      Others();
      log := log.(tried := log.tried[p := stamp], clock := log.clock + 1);
      if (forall q | q in dirs :: !IsChild(q, p)) && forall t | t in home :: home[t] != p {
        if * {
          dirs, frozen := dirs - {p}, frozen - {p};
        } else {
          log := log.(failed := log.failed + {p});
        }
      }
    }

    // ----- The teardown

    /** Write every pid listed in p to the root. Any task still in p afterwards is to blame. */
    method DrainPidsToRoot(p: Path)
      requires Valid() && p in dirs && p != []
      modifies this`home, this`log
      ensures Valid() && Grows(old(log), log) && log.unread == old(log.unread) && log.tried == old(log.tried)
      ensures Kept(old(home), home, old(log.known), p, false)
      ensures p in log.failed || forall t | t in home :: home[t] != p
    {
      var content := ReadProcs(p);
      if content.None? {
        return;
      }
      var lines := Lines(content.value);
      for i := 0 to |lines|
        invariant Valid() && Grows(old(log), log) && log.unread == old(log.unread) && log.tried == old(log.tried)
        invariant Kept(old(home), home, old(log.known), p, false)
        invariant PidsIn(lines[i..]) <= log.known
        invariant forall t | t in PidsIn(lines[i..]) && t in home :: home[t] == [] || home[t] == p
        invariant p in log.failed || forall t | t in home && home[t] == p :: t in PidsIn(lines[i..])
      {
        assert lines[i..][1..] == lines[i + 1..];
        var pid := ParseU32(Trim(lines[i]));
        if pid.Some? {
          ghost var before := home;
          ghost var known := log.known;
          var r := MoveToRoot(pid.value, p);
          KeptTwice(old(home), before, home, old(log.known), known, p, false);
        }
      }
    }

    /** Visit one child directory, or skip it when its entry cannot be read. */
    method VisitChild(p: Path, c: Path, ghost rest: set<Path>, ghost before: set<Path>, ghost born: set<Path>,
                      ghost depth: nat)
      requires Valid() && dirs <= born && (forall q | q in born :: |q| <= depth) && ChildrenFirst(log, born)
      requires Visiting(before, dirs, log, born, p, rest) && c in rest
      modifies this
      ensures Valid() && ChildrenFirst(log, born)
      ensures Visiting(before, dirs, log, born, p, rest - {c})
      ensures Advanced(old(Now()), Now(), p, true)
      decreases depth - |p|, 0
    {
      var readable := ReadEntry(c);
      if !readable {
        SkippedChild(before, dirs, old(log), log, born, p, rest, c);
      } else {
        CleanupRecursive(c, born, depth);
        VisitedChild(before, old(Now()), Now(), born, p, rest, c);
        AdvancedWiden(old(Now()), Now(), c, p);
      }
    }

    /** Visit the child directories of p in the order in which they are listed. */
    method ForEachChildDir(p: Path, ghost born: set<Path>, ghost depth: nat)
      requires Valid() && p in dirs && dirs <= born && (forall q | q in born :: |q| <= depth)
      requires Intact(dirs, log, born, p, true) && ChildrenFirst(log, born)
      modifies this
      ensures Valid() && ChildrenFirst(log, born)
      ensures Advanced(old(Now()), Now(), p, true) && Excused(Now(), p, true)
      ensures forall q | q in born && IsChild(q, p) :: q in log.tried || q in log.unread || p in log.unread
      decreases depth - |p|, 1
    {
      var children := ReadDir(p);
      if children.None? {
        return;
      }
      var rest := children.value;
      StartVisiting(dirs, log, born, p);
      while rest != {}
        invariant Valid() && ChildrenFirst(log, born)
        invariant Visiting(old(dirs), dirs, log, born, p, rest)
        invariant Advanced(old(Now()), Now(), p, true)
        decreases |rest|
      {
        var c :| c in rest;
        ghost var m := Now();
        VisitChild(p, c, rest, old(dirs), born, depth);
        AdvancedTwice(old(Now()), m, Now(), p, true);
        rest := rest - {c};
      }
    }

    /** Unfreeze, drain, rmdir. */
    method RemoveVisited(p: Path, ghost born: set<Path>)
      requires Valid() && p in dirs && p != [] && p !in log.tried && Excused(Now(), p, true)
      requires ChildrenFirst(log, born)
      requires forall q | q in born && IsChild(q, p) :: q in log.tried || q in log.unread || p in log.unread
      modifies this
      ensures Valid() && ChildrenFirst(log, born)
      ensures Advanced(old(Now()), Now(), p, false) && Excused(Now(), p, false) && p in log.tried
    {
      if * {
        Unfreeze(p);
      }
      ghost var m := Now();
      DrainPidsToRoot(p);
      ghost var n := Now();
      AdvancedTwice(old(Now()), m, n, p, false);
      RemoveDir(p);
      AdvancedTwice(old(Now()), n, Now(), p, false);
      Closed(old(Now()), Now(), born, p);
      ClosedInOrder(n.log, log, born, p);
    }

    /** Clean the children, then the directory itself. */
    method CleanupRecursive(p: Path, ghost born: set<Path>, ghost depth: nat)
      requires Valid() && p in dirs && p != [] && dirs <= born && (forall q | q in born :: |q| <= depth)
      requires Intact(dirs, log, born, p, false) && ChildrenFirst(log, born)
      modifies this
      ensures Valid() && ChildrenFirst(log, born)
      ensures Advanced(old(Now()), Now(), p, false) && Excused(Now(), p, false) && p in log.tried
      decreases depth - |p|, 2
    {
      ForEachChildDir(p, born, depth);
      ghost var m := Now();
      AdvancedLoosen(old(Now()), m, p);
      RemoveVisited(p, born);
      AdvancedTwice(old(Now()), m, Now(), p, false);
    }

    /** Remove all child cgroups of the managed parent. Whatever fails on the way: the parent and all
        directories outside its subtree survive; each task of the old tree that is alive is in one
        existing cgroup, its old one or, if it was below the parent, the root; every rmdir came after
        those of its child directories; and a directory below the parent is left only if a read, drain
        or rmdir failed, or a task forked, in its subtree, or a directory on the way was not read. */
    method CleanupAll(parent: Path)
      requires Valid()
      modifies this
      ensures Valid() && frozen <= old(frozen)
      ensures dirs <= old(dirs) && forall q | q in old(dirs) :: q in dirs || parent < q
      ensures Kept(old(home), home, old(home.Keys), parent, true)
      ensures parent in old(dirs) ==> forall q | q in dirs && parent < q :: Blamed(q, log)
      ensures parent in old(dirs) ==> ChildrenFirst(log, old(dirs))
      ensures parent in old(dirs) && log.failed + log.unread == {} ==>
                (forall q | q in dirs :: !(parent < q)) && forall t | t in home :: !(parent < home[t])
    {
      if parent !in dirs {
        return;
      }
      log := Log({}, {}, map[], 0, home.Keys);
      ghost var depth := DepthBound(dirs);
      ghost var m := Now();
      ForEachChildDir(parent, dirs, depth);
      SubtreeLeft(Now(), parent);
      assert forall q | q in m.dirs :: q in dirs || Inside(q, parent, true);
    }
  }

  lemma {:induction false} DepthBound(dirs: set<Path>) returns (n: nat)
    ensures forall q | q in dirs :: |q| <= n
    decreases dirs
  {
    if dirs == {} {
      n := 0;
    } else {
      var q :| q in dirs;
      n := DepthBound(dirs - {q});
      n := if |q| > n then |q| else n;
    }
  }

  lemma SubtreeLeft(m: Moment, p: Path)
    requires Excused(m, p, true)
    ensures forall q | q in m.dirs && p < q :: Blamed(q, m.log)
    ensures m.log.failed + m.log.unread == {} ==> forall q | q in m.dirs :: !(p < q)
  {
    forall q | q in m.dirs && p < q
      ensures Blamed(q, m.log) && m.log.failed + m.log.unread != {}
    {
      assert Inside(q, p, true);
      var f :| (f in m.log.failed && q <= f) || (f in m.log.unread && (q <= f || f <= q));
      assert f in m.log.failed + m.log.unread;
    }
  }
}
