/** Enabling controllers top-down (src/cgroup.rs), against a kernel that follows the "Top-down
    Constraint" of the cgroup v2 documentation: a cgroup may enable for its children only the
    controllers its parent enables for it. */
module TopDown {
  import opened Text
  import CgroupNames

  datatype Controller = Cpuset | Cpu | Memory | Pids | Io

  /** Components below `/`. */
  type Path = seq<string>

  function Parent(p: Path): (q: Path)
    requires p != []
  {
    p[..|p| - 1]
  }

  /** The directories, and the controllers each cgroup enables for its children. Below `root` every
      directory is a cgroup if `mounted`; elsewhere there are no control files. */
  datatype Tree = Tree(root: Path, mounted: bool, available: set<Controller>, dirs: set<Path>,
                       enabled: map<Path, set<Controller>>)

  predicate IsCgroup(t: Tree, p: Path) {
    t.mounted && t.root <= p && p in t.dirs
  }

  function Enabled(t: Tree, p: Path): (cs: set<Controller>) {
    if p in t.enabled then t.enabled[p] else {}
  }

  /** What p may enable. */
  function Offered(t: Tree, p: Path): (cs: set<Controller>) {
    if p == t.root || p == [] then t.available else Enabled(t, Parent(p))
  }

  /** The directories form a tree that contains the root, and every cgroup enables only what it is offered. */
  ghost predicate Sound(t: Tree) {
    && t.root in t.dirs && t.enabled.Keys <= t.dirs
    && (forall p | p in t.dirs && p != [] :: Parent(p) in t.dirs)
    && forall p | p in t.dirs && t.root <= p :: Enabled(t, p) <= Offered(t, p)
  }

  function WithDir(t: Tree, p: Path): (u: Tree) {
    t.(dirs := t.dirs + {p})
  }

  function WithEnabled(t: Tree, p: Path, cs: set<Controller>): (u: Tree) {
    t.(enabled := t.enabled[p := Enabled(t, p) + cs])
  }

  lemma WithDirSound(t: Tree, p: Path)
    requires Sound(t) && p !in t.dirs && p != [] && Parent(p) in t.dirs
    ensures Sound(WithDir(t, p))
  {
  }

  lemma WithEnabledSound(t: Tree, p: Path, cs: set<Controller>)
    requires Sound(t) && p in t.dirs && t.root <= p && cs <= Offered(t, p)
    ensures Sound(WithEnabled(t, p, cs))
  {
    var u := WithEnabled(t, p, cs);
    forall q | q in u.dirs && u.root <= q
      ensures Enabled(u, q) <= Offered(u, q)
    {
      assert Enabled(t, q) <= Offered(t, q);
      if q != t.root {
        assert Enabled(t, Parent(q)) <= Enabled(u, Parent(q));
      }
    }
  }

  /** Only directories and enabled controllers are added. */
  ghost predicate Grown(a: Tree, b: Tree) {
    && b.root == a.root && b.mounted == a.mounted && b.available == a.available && a.dirs <= b.dirs
    && forall p :: Enabled(a, p) <= Enabled(b, p)
  }

  /** A write to `cgroup.subtree_control` of a directory. */
  datatype Write = Write(dir: Path, controllers: set<Controller>, legal: bool, ok: bool)

  /** Legal writes, one a level, from `path[..top]` downwards. */
  ghost predicate Descending(writes: seq<Write>, path: Path, top: nat, cs: set<Controller>) {
    && top + |writes| <= |path| + 1
    && forall i | 0 <= i < |writes| ::
         writes[i].dir == path[..top + i] && writes[i].controllers == cs && writes[i].legal
  }

  /** The levels `path[..n]` with `top <= n < bottom` enable `cs`. */
  ghost predicate LevelsEnable(t: Tree, path: Path, top: nat, bottom: nat, cs: set<Controller>) {
    bottom <= |path| + 1 && forall n | top <= n < bottom :: cs <= Enabled(t, path[..n])
  }

  /** When the levels above enable the controllers, the next level is offered them; and a successful
      write there extends the enabled levels. */
  lemma NextLevel(t: Tree, path: Path, top: nat, n: nat, cs: set<Controller>)
    requires top <= n <= |path| && LevelsEnable(t, path, top, n, cs)
    requires n == top ==> cs <= Offered(t, path[..top])
    requires t.root <= path[..top]
    ensures cs <= Offered(t, path[..n])
    ensures LevelsEnable(WithEnabled(t, path[..n], cs), path, top, n + 1, cs)
    ensures Grown(t, WithEnabled(t, path[..n], cs))
  {
    if n > top {
      assert Parent(path[..n]) == path[..n - 1];
      assert |t.root| <= top < |path[..n]|;
    }
  }

  lemma {:induction false} LevelsExist(t: Tree, p: Path, n: nat)
    requires Sound(t) && p in t.dirs && n <= |p|
    ensures p[..n] in t.dirs
    decreases |p|
  {
    if n == |p| {
      assert p[..n] == p;
    } else {
      LevelsExist(t, Parent(p), n);
      assert Parent(p)[..n] == p[..n];
    }
  }

  lemma LevelsAreCgroups(t: Tree, p: Path)
    requires Sound(t) && IsCgroup(t, p)
    ensures forall n | |t.root| <= n <= |p| :: IsCgroup(t, p[..n])
    ensures t.root == p[..|t.root|]
  {
    forall n | |t.root| <= n <= |p|
      ensures IsCgroup(t, p[..n])
    {
      LevelsExist(t, p, n);
      assert t.root <= p[..n];
    }
  }

  // ----- A walk that writes `+cpuset` at each level and goes on after errors

  /** The tree after the writes that succeeded. */
  function After(t: Tree, ws: seq<Write>): (u: Tree)
    ensures u.root == t.root && u.mounted == t.mounted && u.available == t.available && u.dirs == t.dirs
  {
    if ws == [] then t
    else
      var n := |ws| - 1;
      var u := After(t, ws[..n]);
      if ws[n].ok then WithEnabled(u, ws[n].dir, ws[n].controllers) else u
  }

  /** The writes go down from `path[..top]`, and each was legal exactly when cpuset was offered then. */
  ghost predicate Walk(t: Tree, ws: seq<Write>, path: Path, top: nat) {
    ws == []
    || var n := |ws| - 1;
       && Walk(t, ws[..n], path, top) && top + n <= |path|
       && ws[n].dir == path[..top + n] && ws[n].controllers == {Cpuset}
       && (ws[n].legal <==> Cpuset in Offered(After(t, ws[..n]), path[..top + n]))
  }

  lemma {:induction false} WalkStep(t: Tree, ws: seq<Write>, w: Write, path: Path, top: nat)
    requires Walk(t, ws, path, top) && top + |ws| <= |path|
    requires w.dir == path[..top + |ws|] && w.controllers == {Cpuset}
    requires w.legal <==> {Cpuset} <= Offered(After(t, ws), w.dir)
    ensures Walk(t, ws + [w], path, top)
    ensures After(t, ws + [w]) == if w.ok then WithEnabled(After(t, ws), w.dir, w.controllers) else After(t, ws)
    ensures Grown(After(t, ws), After(t, ws + [w]))
  {
    assert (ws + [w])[..|ws|] == ws;
    var offered := Offered(After(t, ws), w.dir);
    assert {Cpuset} <= offered <==> Cpuset in offered;
  }

  /** A level enables cpuset after the walk if it did before or its own write succeeded. */
  lemma {:induction false} EnabledAfter(t: Tree, ws: seq<Write>, path: Path, top: nat, k: nat)
    requires Walk(t, ws, path, top) && k <= |path|
    ensures Cpuset in Enabled(After(t, ws), path[..k])
       <==> Cpuset in Enabled(t, path[..k]) || (top <= k < top + |ws| && ws[k - top].ok)
  {
    if ws != [] {
      var n := |ws| - 1;
      EnabledAfter(t, ws[..n], path, top, k);
      assert k != top + n ==> |path[..k]| != |path[..top + n]|;
    }
  }

  lemma {:induction false} WalkPrefix(t: Tree, ws: seq<Write>, path: Path, top: nat, i: nat)
    requires Walk(t, ws, path, top) && i <= |ws|
    ensures Walk(t, ws[..i], path, top)
    decreases |ws|
  {
    if i < |ws| {
      WalkPrefix(t, ws[..|ws| - 1], path, top, i);
      assert ws[..|ws| - 1][..i] == ws[..i];
    } else {
      assert ws[..i] == ws;
    }
  }

  /** The level above offered cpuset before the walk, or its write succeeded. */
  ghost predicate LegalExactly(ws: seq<Write>, i: nat, t: Tree, path: Path, top: nat) {
    && i < |ws| && top + i <= |path|
    && ws[i].dir == path[..top + i] && ws[i].controllers == {Cpuset}
    && (ws[i].legal <==> Cpuset in Offered(t, path[..top + i]) || (i > 0 && ws[i - 1].ok))
  }

  lemma {:induction false} WriteAt(t: Tree, ws: seq<Write>, path: Path, top: nat, i: nat)
    requires Walk(t, ws, path, top) && i < |ws|
    ensures Walk(t, ws[..i], path, top) && top + i <= |path|
    ensures ws[i].dir == path[..top + i] && ws[i].controllers == {Cpuset}
    ensures ws[i].legal <==> Cpuset in Offered(After(t, ws[..i]), path[..top + i])
  {
    WalkPrefix(t, ws, path, top, i + 1);
    assert ws[..i + 1][..i] == ws[..i] && ws[..i + 1][i] == ws[i];
  }

  /** The next level is offered cpuset after a walk if it was before or the last write succeeded. */
  lemma {:induction false} OfferedAfter(t: Tree, ws: seq<Write>, path: Path, top: nat)
    requires Walk(t, ws, path, top) && top + |ws| <= |path| && t.root <= path && |t.root| <= top
    ensures Cpuset in Offered(After(t, ws), path[..top + |ws|])
       <==> Cpuset in Offered(t, path[..top + |ws|]) || (ws != [] && ws[|ws| - 1].ok)
  {
    var n := top + |ws|;
    if path[..n] != t.root && n > 0 {
      EnabledAfter(t, ws, path, top, n - 1);
      assert Parent(path[..n]) == path[..n - 1];
    }
  }

  lemma {:induction false} LegalAt(t: Tree, ws: seq<Write>, path: Path, top: nat, i: nat)
    requires Walk(t, ws, path, top) && i < |ws| && t.root <= path && |t.root| <= top
    ensures LegalExactly(ws, i, t, path, top)
  {
    WriteAt(t, ws, path, top, i);
    OfferedAfter(t, ws[..i], path, top);
  }

  ghost predicate AllLegalExactly(ws: seq<Write>, t: Tree, path: Path, top: nat) {
    forall i: nat | i < |ws| :: LegalExactly(ws, i, t, path, top)
  }

  lemma WalkLegality(t: Tree, ws: seq<Write>, path: Path, top: nat)
    requires Walk(t, ws, path, top) && t.root <= path && |t.root| <= top
    ensures AllLegalExactly(ws, t, path, top)
  {
    forall i: nat | i < |ws|
      ensures LegalExactly(ws, i, t, path, top)
    {
      LegalAt(t, ws, path, top, i);
    }
  }

  /** With cpuset offered at the top, every write up to the first failed one is legal. */
  lemma LegalUntilFailure(ws: seq<Write>, t: Tree, path: Path, top: nat, i: nat)
    requires AllLegalExactly(ws, t, path, top) && i < |ws| && top <= |path| && Cpuset in Offered(t, path[..top])
    requires forall j | 0 <= j < i :: ws[j].ok
    ensures ws[i].legal
  {
    assert LegalExactly(ws, i, t, path, top);
    if i > 0 {
      assert ws[i - 1].ok;
    } else {
      assert path[..top + i] == path[..top];
    }
  }

  /** When every write of the walk succeeded, all levels it passed enable cpuset. */
  lemma WalkEnables(t: Tree, ws: seq<Write>, path: Path, top: nat)
    requires Walk(t, ws, path, top) && top + |ws| <= |path| + 1 && forall i | 0 <= i < |ws| :: ws[i].ok
    ensures LevelsEnable(After(t, ws), path, top, top + |ws|, {Cpuset})
  {
    forall n | top <= n < top + |ws|
      ensures {Cpuset} <= Enabled(After(t, ws), path[..n])
    {
      assert ws[n - top].ok;
      EnabledAfter(t, ws, path, top, n);
    }
  }

  datatype Result = Ok | BadName | MkdirFailed | ReadFailed | Unavailable | WriteFailed

  class Hierarchy {
    var tree: Tree
    ghost var writes: seq<Write>

    // ----- The kernel

    /** A write that breaks the constraint fails; a legal one may fail too. */
    method Enable(p: Path, cs: set<Controller>) returns (ok: bool)
      requires Sound(tree) && IsCgroup(tree, p)
      modifies this
      ensures Sound(tree) && tree == if ok then WithEnabled(old(tree), p, cs) else old(tree)
      ensures writes == old(writes) + [Write(p, cs, cs <= Offered(old(tree), p), ok)]
      ensures ok ==> cs <= Offered(old(tree), p)
    {
      var legal := cs <= Offered(tree, p);
      ok := *;
      ok := ok && legal;
      writes := writes + [Write(p, cs, legal, ok)];
      if ok {
        WithEnabledSound(tree, p, cs);
        tree := WithEnabled(tree, p, cs);
      }
    }

    /** `create_dir_all`: creates the missing levels from the top, all of them if it succeeds. */
    method CreateDirAll(p: Path) returns (ok: bool)
      requires Sound(tree) && [] in tree.dirs
      modifies this`tree
      ensures Sound(tree) && Grown(old(tree), tree) && tree.enabled == old(tree).enabled
      ensures ok ==> forall n | 0 <= n <= |p| :: p[..n] in tree.dirs
    {
      assert p[..0] == [];
      for n := 1 to |p| + 1
        invariant Sound(tree) && Grown(old(tree), tree) && tree.enabled == old(tree).enabled
        invariant forall k | 0 <= k < n :: p[..k] in tree.dirs
      {
        if p[..n] !in tree.dirs {
          if * {
            return false;
          }
          assert Parent(p[..n]) == p[..n - 1];
          WithDirSound(tree, p[..n]);
          tree := WithDir(tree, p[..n]);
        }
      }
      ok := true;
    }

    // ----- The manager

    /** Write the line to each level from `path[..top]` to `path[..bottom - 1]`, stopping at an error. */
    method EnableLevels(path: Path, top: nat, bottom: nat, cs: set<Controller>) returns (ok: bool, ghost ws: seq<Write>)
      requires top < bottom <= |path| + 1 && Sound(tree) && tree.root == path[..top]
      requires forall n | top <= n < bottom :: IsCgroup(tree, path[..n])
      requires cs <= tree.available
      modifies this
      ensures Sound(tree) && Grown(old(tree), tree)
      ensures writes == old(writes) + ws && Descending(ws, path, top, cs)
      ensures ok ==> LevelsEnable(tree, path, top, bottom, cs)
    {
      ws := [];
      for n := top to bottom
        invariant Sound(tree) && Grown(old(tree), tree) && tree.dirs == old(tree.dirs)
        invariant writes == old(writes) + ws && |ws| == n - top && Descending(ws, path, top, cs)
        invariant LevelsEnable(tree, path, top, n, cs)
      {
        NextLevel(tree, path, top, n, cs);
        ok := Enable(path[..n], cs);
        ws := ws + [Write(path[..n], cs, true, ok)];
        if !ok {
          return;
        }
      }
      ok := true;
    }

    method FirstUnavailable(controllers: set<Controller>) returns (missing: Option<Controller>)
      ensures missing.None? <==> controllers <= tree.available
      ensures missing.Some? ==> missing.value in controllers - tree.available
    {
      var rest := controllers;
      while rest != {}
        invariant rest <= controllers && controllers - rest <= tree.available
      {
        var c :| c in rest;
        if c !in tree.available {
          return Some(c);
        }
        rest := rest - {c};
      }
      missing := None;
    }

    /** `setup_under_root`. Every write is legal and they go level by level from the root; an
        unavailable controller stops setup before any write; on success every level from the root to
        the managed parent enables every requested controller. */
    method SetupUnderRoot(parent: Path, controllers: set<Controller>) returns (r: Result, ghost ws: seq<Write>)
      requires Sound(tree) && [] in tree.dirs
      modifies this
      ensures Sound(tree) && Grown(old(tree), tree) && writes == old(writes) + ws
      ensures !(tree.mounted && tree.root <= parent) ==> ws == []
      ensures ws != [] ==> Descending(ws, parent, |tree.root|, controllers)
      ensures r.Unavailable? ==> !(controllers <= tree.available)
      ensures tree.mounted && tree.root <= parent && !(controllers <= tree.available) ==> r != Ok && ws == []
      ensures r.Ok? ==> parent in tree.dirs
      ensures r.Ok? && tree.mounted && tree.root <= parent ==>
                LevelsEnable(tree, parent, |tree.root|, |parent| + 1, controllers)
    {
      ws := [];
      if parent !in tree.dirs {
        var made := CreateDirAll(parent);
        if !made {
          return MkdirFailed, ws;
        }
        assert parent[..|parent|] == parent;
      }
      if controllers == {} {
        return Ok, ws;
      }
      if !(tree.root <= parent) || !tree.mounted {
        return Ok, ws;
      }
      if * {
        return ReadFailed, ws;
      }
      var missing := FirstUnavailable(controllers);
      if missing.Some? {
        return Unavailable, ws;
      }
      LevelsAreCgroups(tree, parent);
      var enabled;
      enabled, ws := EnableLevels(parent, |tree.root|, |parent| + 1, controllers);
      r := if enabled then Ok else WriteFailed;
    }

    /** `enable_subtree_cpuset`: write `+cpuset` at each ancestor of the leaf from `path[..top]` down;
        a failed write does not stop the walk. */
    method EnableSubtreeCpuset(path: Path, top: nat) returns (ghost ws: seq<Write>)
      requires top < |path| && Sound(tree)
      requires forall n | top <= n < |path| :: IsCgroup(tree, path[..n])
      modifies this
      ensures Sound(tree) && Grown(old(tree), tree) && writes == old(writes) + ws
      ensures |ws| == if |path| - top < 2 then 0 else |path| - top
      ensures Walk(old(tree), ws, path, top) && tree == After(old(tree), ws)
    {
      ws := [];
      if |path| - top < 2 {
        return;
      }
      for n := top to |path|
        invariant Sound(tree) && Grown(old(tree), tree) && tree == After(old(tree), ws)
        invariant writes == old(writes) + ws && |ws| == n - top && Walk(old(tree), ws, path, top)
      {
        ghost var t := tree;
        var ok := Enable(path[..n], {Cpuset});
        ghost var w := Write(path[..n], {Cpuset}, {Cpuset} <= Offered(t, path[..n]), ok);
        WalkStep(old(tree), ws, w, path, top);
        ws := ws + [w];
      }
    }

    /** `create_cgroup`. A nested name gets one `+cpuset` write for each ancestor from the managed parent
        down; each is legal exactly when the level above enabled cpuset before or its write succeeded. */
    method CreateCgroup(parent: Path, name: string) returns (r: Result, ghost ws: seq<Write>)
      requires Sound(tree) && [] in tree.dirs
      modifies this
      ensures Sound(tree) && Grown(old(tree), tree) && writes == old(writes) + ws
      ensures var components := Split(name, '/');
              && (r.BadName? <==> '\0' in name || !CgroupNames.AllGood(components))
              && (r.Ok? || r.BadName? || r.MkdirFailed?)
              && (r.Ok? ==> parent + components in tree.dirs)
              && (!r.Ok? || |components| < 2 || !IsCgroup(tree, parent) ==> ws == [])
              && (r.Ok? && |components| >= 2 && IsCgroup(tree, parent) ==>
                    && |ws| == |components| && AllLegalExactly(ws, old(tree), parent + components, |parent|)
                    && ((forall i | 0 <= i < |ws| :: ws[i].ok) ==>
                          LevelsEnable(tree, parent + components, |parent|, |parent| + |components|, {Cpuset})))
    {
      ws := [];
      var verdict := CgroupNames.ValidateCgroupName(name);
      if !verdict.Accepted? {
        return BadName, ws;
      }
      var path := parent + Split(name, '/');
      assert path[..|parent|] == parent && path[..|path|] == path;
      if path !in tree.dirs {
        var made := CreateDirAll(path);
        if !made {
          return MkdirFailed, ws;
        }
      }
      LevelsExist(tree, path, |parent|);
      r := Ok;
      if IsCgroup(tree, parent) {
        ghost var t := tree;
        assert tree.root <= path;
        LevelsAreCgroups(tree, path);
        ws := EnableSubtreeCpuset(path, |parent|);
        if ws != [] {
          WalkLegality(t, ws, path, |parent|);
          SameOffers(old(tree), t, ws, path, |parent|);
          if forall i | 0 <= i < |ws| :: ws[i].ok {
            WalkEnables(t, ws, path, |parent|);
          }
        }
      }
    }

    /** After a successful setup with cpuset, creating a nested cgroup makes only legal writes as long as
        none of them fails. */
    method SetupAndCreate(parent: Path, controllers: set<Controller>, name: string)
      returns (r: Result, ghost ws: seq<Write>)
      requires Sound(tree) && [] in tree.dirs && Cpuset in controllers
      modifies this
      ensures Sound(tree)
      ensures r.Ok? ==> forall i | 0 <= i < |ws| && (forall j | 0 <= j < i :: ws[j].ok) :: ws[i].legal
      ensures r.Ok? && IsCgroup(tree, parent) && |Split(name, '/')| >= 2 ==> |ws| == |Split(name, '/')|
    {
      r, ws := SetupUnderRoot(parent, controllers);
      if r != Ok {
        return;
      }
      ghost var t := tree;
      r, ws := CreateCgroup(parent, name);
      if r == Ok && |ws| > 0 {
        OfferedAfterSetup(t, parent, controllers);
        ghost var path := parent + Split(name, '/');
        assert path[..|parent|] == parent;
        forall i | 0 <= i < |ws| && (forall j | 0 <= j < i :: ws[j].ok)
          ensures ws[i].legal
        {
          LegalUntilFailure(ws, t, path, |parent|, i);
        }
      }
    }
  }

  lemma SameOffers(a: Tree, b: Tree, ws: seq<Write>, path: Path, top: nat)
    requires AllLegalExactly(ws, b, path, top)
    requires a.root == b.root && a.available == b.available && a.enabled == b.enabled
    ensures AllLegalExactly(ws, a, path, top)
  {
    forall i: nat | i < |ws|
      ensures LegalExactly(ws, i, a, path, top)
    {
      assert LegalExactly(ws, i, b, path, top);
      assert Offered(a, path[..top + i]) == Offered(b, path[..top + i]);
    }
  }

  lemma OfferedAfterSetup(t: Tree, parent: Path, controllers: set<Controller>)
    requires Sound(t) && IsCgroup(t, parent) && LevelsEnable(t, parent, |t.root|, |parent| + 1, controllers)
    ensures controllers <= Offered(t, parent)
  {
    assert parent[..|parent|] == parent;
    assert controllers <= Enabled(t, parent[..|parent|]);
    assert Enabled(t, parent) <= Offered(t, parent);
  }
}
