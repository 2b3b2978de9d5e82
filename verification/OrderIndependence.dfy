/** The selection of src/budget.rs does not depend on the order in which the tests are listed: with
    distinct names, two listings of the same tests make the same picks, in the same order. */
module OrderIndependence {
  import opened Ordering
  import opened Selection
  import opened Budget

  ghost predicate DistinctNames(items: seq<Item>) {
    forall i, j | 0 <= i < j < |items| :: items[i].name != items[j].name
  }

  ghost predicate SameItems(a: seq<Item>, b: seq<Item>) {
    (forall i | 0 <= i < |a| :: a[i] in b) && (forall i | 0 <= i < |b| :: b[i] in a)
  }

  /** The items behind the picks. */
  function Chosen(items: seq<Item>, picks: seq<nat>): (s: seq<Item>)
    requires InRange(items, picks)
    ensures |s| == |picks| && forall k | 0 <= k < |picks| :: s[k] == items[picks[k]]
  {
    seq(|picks|, k requires 0 <= k < |picks| && picks[k] < |items| => items[picks[k]])
  }

  /** Coverage and cost depend only on the items chosen. */
  lemma {:induction false} ChosenDecides(a: seq<Item>, p: seq<nat>, b: seq<Item>, q: seq<nat>)
    requires InRange(a, p) && InRange(b, q) && Chosen(a, p) == Chosen(b, q)
    ensures Covered(a, p) == Covered(b, q) && Spent(a, p) == Spent(b, q)
  {
    if p != [] {
      var n := |p| - 1;
      assert |q| == |Chosen(b, q)| == |p|;
      assert a[p[n]] == Chosen(a, p)[n] == Chosen(b, q)[n] == b[q[n]];
      assert Chosen(a, p[..n]) == Chosen(a, p)[..n];
      assert Chosen(b, q[..n]) == Chosen(b, q)[..n];
      ChosenDecides(a, p[..n], b, q[..n]);
    } else {
      assert |q| == |Chosen(b, q)| == 0;
    }
  }

  /** An item eligible in one listing is eligible in the other. */
  lemma EligibleInBoth(a: seq<Item>, p: seq<nat>, b: seq<Item>, q: seq<nat>, budget: real, i: nat) returns (j: nat)
    requires InRange(a, p) && InRange(b, q) && Chosen(a, p) == Chosen(b, q)
    requires DistinctNames(a) && SameItems(a, b)
    requires Eligible(a, budget, p, i)
    ensures j < |b| && b[j] == a[i] && Eligible(b, budget, q, j)
  {
    ChosenDecides(a, p, b, q);
    j :| 0 <= j < |b| && b[j] == a[i];
    forall k | 0 <= k < |q|
      ensures q[k] != j
    {
      assert b[q[k]] == Chosen(b, q)[k] == Chosen(a, p)[k] == a[p[k]];
      assert p[k] != i;
    }
  }

  /** From the same items chosen so far, both listings pick the same item next. */
  lemma SamePick(a: seq<Item>, p: seq<nat>, b: seq<Item>, q: seq<nat>, budget: real, i: nat, j: nat)
    requires InRange(a, p) && InRange(b, q) && Chosen(a, p) == Chosen(b, q)
    requires DistinctNames(a) && DistinctNames(b) && SameItems(a, b)
    requires IsPick(a, budget, p, i) && IsPick(b, budget, q, j)
    ensures a[i] == b[j]
  {
    ChosenDecides(a, p, b, q);
    var i' := EligibleInBoth(a, p, b, q, budget, i);
    var j' := EligibleInBoth(b, q, a, p, budget, j);
    if a[i] != b[j] {
      assert Preferred(a, Covered(a, p), i, j');
      assert Preferred(b, Covered(b, q), j, i');
      LessTrichotomy(a[i].name, b[j].name);
    }
  }

  lemma ChosenLast(a: seq<Item>, p: seq<nat>)
    requires InRange(a, p) && p != []
    ensures InRange(a, p[..|p| - 1]) && Chosen(a, p) == Chosen(a, p[..|p| - 1]) + [a[p[|p| - 1]]]
  {
  }

  /** When all picks but the last agree, so does the last. */
  lemma LastChoice(a: seq<Item>, p: seq<nat>, b: seq<Item>, q: seq<nat>, budget: real)
    requires DistinctNames(a) && DistinctNames(b) && SameItems(a, b)
    requires Greedy(a, budget, p) && Greedy(b, budget, q) && |p| == |q| > 0
    requires InRange(a, p[..|p| - 1]) && InRange(b, q[..|q| - 1])
    requires Chosen(a, p[..|p| - 1]) == Chosen(b, q[..|q| - 1])
    ensures a[p[|p| - 1]] == b[q[|q| - 1]]
  {
    var n := |p| - 1;
    LastPick(a, budget, p);
    LastPick(b, budget, q);
    SamePick(a, p[..n], b, q[..n], budget, p[n], q[n]);
  }

  lemma {:induction false} SameChoices(a: seq<Item>, p: seq<nat>, b: seq<Item>, q: seq<nat>, budget: real)
    requires DistinctNames(a) && DistinctNames(b) && SameItems(a, b)
    requires Greedy(a, budget, p) && Greedy(b, budget, q) && |p| == |q|
    ensures Chosen(a, p) == Chosen(b, q)
  {
    if p != [] {
      var n := |p| - 1;
      GreedyPrefix(a, budget, p, n);
      GreedyPrefix(b, budget, q, n);
      SameChoices(a, p[..n], b, q[..n], budget);
      LastChoice(a, p, b, q, budget);
      ChosenLast(a, p);
      ChosenLast(b, q);
    }
  }

  lemma NotShorter(a: seq<Item>, p: seq<nat>, b: seq<Item>, q: seq<nat>, budget: real)
    requires DistinctNames(a) && DistinctNames(b) && SameItems(a, b)
    requires Complete(a, budget, p) && Greedy(b, budget, q)
    ensures |q| <= |p|
  {
    var n := |p|;
    if n < |q| {
      GreedyPrefix(b, budget, q, n);
      SameChoices(a, p, b, q[..n], budget);
      assert IsPick(b, budget, q[..n], q[n]);
      var i := EligibleInBoth(b, q[..n], a, p, budget, q[n]);
      assert false;
    }
  }

  /** Two listings of the same distinctly named tests lead to the same picks. */
  lemma OrderIrrelevant(a: seq<Item>, p: seq<nat>, b: seq<Item>, q: seq<nat>, budget: real)
    requires DistinctNames(a) && DistinctNames(b) && SameItems(a, b)
    requires IsSelection(a, budget, p) && IsSelection(b, budget, q)
    ensures InRange(a, p) && InRange(b, q)
    ensures Chosen(a, p) == Chosen(b, q)
  {
    if budget > 0.0 {
      NotShorter(a, p, b, q, budget);
      NotShorter(b, q, a, p, budget);
      SameChoices(a, p, b, q, budget);
    }
  }

  /** The names of the selected candidates. */
  ghost function Names(cands: seq<Candidate>, selected: seq<nat>): (s: set<string>) {
    set i: nat | i in selected && i < |cands| :: cands[i].name
  }

  /** Selecting from any permutation of the candidates yields the same names. */
  method SelectTwice(cands: seq<Candidate>, shuffled: seq<Candidate>, budget: real)
    returns (s: seq<nat>, t: seq<nat>)
    requires multiset(cands) == multiset(shuffled)
    requires forall i, j | 0 <= i < j < |cands| :: cands[i].name != cands[j].name
    ensures Names(cands, s) == Names(shuffled, t)
  {
    ghost var p, q;
    s, p := Select(cands, budget);
    t, q := Select(shuffled, budget);
    PermutedNames(cands, shuffled);
    OrderIrrelevant(View(cands), p, View(shuffled), q, budget);
    NamesOfPicks(cands, s, p);
    NamesOfPicks(shuffled, t, q);
  }

  lemma NamesOfPicks(cands: seq<Candidate>, selected: seq<nat>, picks: seq<nat>)
    requires InRange(View(cands), picks) && multiset(selected) == multiset(picks)
    ensures Names(cands, selected)
         == set k | 0 <= k < |picks| :: Chosen(View(cands), picks)[k].name
  {
    var chosen := Chosen(View(cands), picks);
    var names := set k | 0 <= k < |picks| :: chosen[k].name;
    forall i: nat
      ensures i in selected <==> i in picks
    {
      assert i in selected <==> i in multiset(selected);
      assert i in picks <==> i in multiset(picks);
    }
    forall n | n in names
      ensures n in Names(cands, selected)
    {
      var k :| 0 <= k < |picks| && chosen[k].name == n;
      assert picks[k] in selected && cands[picks[k]].name == n;
    }
    forall n | n in Names(cands, selected)
      ensures n in names
    {
      var i: nat :| i in selected && i < |cands| && cands[i].name == n;
      var k :| 0 <= k < |picks| && picks[k] == i;
      assert chosen[k].name == n;
    }
  }

  lemma PermutedNames(cands: seq<Candidate>, shuffled: seq<Candidate>)
    requires multiset(cands) == multiset(shuffled)
    requires forall i, j | 0 <= i < j < |cands| :: cands[i].name != cands[j].name
    ensures DistinctNames(View(cands)) && DistinctNames(View(shuffled)) && SameItems(View(cands), View(shuffled))
  {
    forall i | 0 <= i < |cands|
      ensures View(cands)[i] in View(shuffled)
    {
      assert cands[i] in multiset(cands);
      var j :| 0 <= j < |shuffled| && shuffled[j] == cands[i];
      assert View(shuffled)[j] == View(cands)[i];
    }
    forall i | 0 <= i < |shuffled|
      ensures View(shuffled)[i] in View(cands)
    {
      assert shuffled[i] in multiset(shuffled);
      var j :| 0 <= j < |cands| && cands[j] == shuffled[i];
      assert View(cands)[j] == View(shuffled)[i];
    }
    forall i, j | 0 <= i < j < |shuffled|
      ensures shuffled[i].name != shuffled[j].name
    {
      if shuffled[i].name == shuffled[j].name {
        NameOnce(cands, shuffled, i, j);
      }
    }
  }

  lemma NameOnce(cands: seq<Candidate>, shuffled: seq<Candidate>, i: nat, j: nat)
    requires multiset(cands) == multiset(shuffled)
    requires forall m, n | 0 <= m < n < |cands| :: cands[m].name != cands[n].name
    requires i < j < |shuffled|
    ensures shuffled[i].name != shuffled[j].name
  {
    if shuffled[i].name == shuffled[j].name {
      assert shuffled[i] in multiset(shuffled) && shuffled[j] in multiset(shuffled);
      var m :| 0 <= m < |cands| && cands[m] == shuffled[i];
      var n :| 0 <= n < |cands| && cands[n] == shuffled[j];
      assert m == n;
      assert shuffled == shuffled[..j] + [shuffled[j]] + shuffled[j + 1..];
      assert shuffled[i] in shuffled[..j];
      assert multiset(shuffled)[shuffled[i]] >= 2;
      DistinctMultiset(cands, shuffled[i]);
    }
  }
}
