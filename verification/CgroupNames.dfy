/** Cgroup name validation (src/cgroup.rs): what is accepted, why a name is refused, and that joining an
    accepted name to the managed parent stays strictly below it. */
module CgroupNames {
  import opened Text

  datatype Verdict = Accepted | Empty | Absolute | Nul | EmptyComponent | DotDot | Dot | Hidden

  predicate GoodComponent(c: string) {
    c != "" && c[0] != '.'
  }

  predicate AllGood(components: seq<string>) {
    forall i | 0 <= i < |components| :: GoodComponent(components[i])
  }

  /** What is wrong with a component; the more specific reasons come first. */
  function Judge(c: string): (v: Verdict)
    ensures v.Accepted? <==> GoodComponent(c)
  {
    if c == "" then EmptyComponent
    else if c == ".." then DotDot
    else if c == "." then Dot
    else if c[0] == '.' then Hidden
    else Accepted
  }

  /** Accepted exactly when no character is NUL and every component is non-empty and not dot-leading;
      otherwise the verdict of the first check that fails, and of the first bad component. */
  method ValidateCgroupName(name: string) returns (v: Verdict)
    ensures v.Accepted? <==> '\0' !in name && AllGood(Split(name, '/'))
    ensures v.Empty? <==> name == ""
    ensures v.Absolute? <==> name != "" && name[0] == '/'
    ensures v.Nul? <==> name != "" && name[0] != '/' && '\0' in name
    ensures v.EmptyComponent? || v.DotDot? || v.Dot? || v.Hidden? ==>
              exists k :: 0 <= k < |Split(name, '/')| && Judge(Split(name, '/')[k]) == v
                && AllGood(Split(name, '/')[..k])
  {
    if name == "" || name[0] == '/' {
      NothingBeforeSlash(name);
    }
    if name == "" {
      return Empty;
    }
    if name[0] == '/' {
      return Absolute;
    }
    if '\0' in name {
      return Nul;
    }
    v := FirstVerdict(Split(name, '/'));
  }

  lemma NothingBeforeSlash(name: string)
    requires name == "" || name[0] == '/'
    ensures !AllGood(Split(name, '/'))
  {
    assert Split(name, '/')[0] == "";
  }

  /** The loop over the components. */
  method FirstVerdict(components: seq<string>) returns (v: Verdict)
    ensures v.Accepted? <==> AllGood(components)
    ensures !v.Accepted? ==> exists k :: 0 <= k < |components| && Judge(components[k]) == v && AllGood(components[..k])
  {
    for i := 0 to |components|
      invariant AllGood(components[..i])
    {
      v := Judge(components[i]);
      if !v.Accepted? {
        return;
      }
    }
    assert components[..|components|] == components;
    v := Accepted;
  }

  // ----- Joining

  /** Path resolution, one component at a time. */
  function Resolved(base: seq<string>, components: seq<string>): (p: seq<string>)
    decreases |components|
  {
    if components == [] then base
    else
      var c, rest := components[0], components[1..];
      if c == "" || c == "." then Resolved(base, rest)
      else if c == ".." then Resolved(if base == [] then [] else base[..|base| - 1], rest)
      else Resolved(base + [c], rest)
  }

  /** `Path::join`: an absolute name replaces the base. */
  function Joined(parent: seq<string>, name: string): (p: seq<string>) {
    Resolved(if name != "" && name[0] == '/' then [] else parent, Split(name, '/'))
  }

  lemma {:induction false} ResolvedAppends(base: seq<string>, components: seq<string>)
    requires AllGood(components)
    ensures Resolved(base, components) == base + components
    decreases |components|
  {
    if components != [] {
      var c := components[0];
      assert GoodComponent(c);
      ResolvedAppends(base + [c], components[1..]);
      assert base + [c] + components[1..] == base + components;
    } else {
      assert base + components == base;
    }
  }

  /** An accepted name names a directory strictly below the parent: one level for each component. */
  lemma StaysBelow(parent: seq<string>, name: string)
    requires AllGood(Split(name, '/'))
    ensures Joined(parent, name) == parent + Split(name, '/') && parent < Joined(parent, name)
  {
    assert Split(name, '/')[0] != "";
    ResolvedAppends(parent, Split(name, '/'));
  }
}
