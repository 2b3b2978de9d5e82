/** What the greedy selection of `Budget` guarantees when tests become unaffordable on the way
    (src/budget.rs): against any affordable set, a prefix of the picks and one skipped test meet the
    product bound, and together cover at least half of the set. */
module GreedyHalf {
  import opened Words
  import opened Ordering
  import opened Selection
  import opened GreedyBound

  /** `others[k]` adds a bit, and none of the others that do has a better ratio. */
  ghost predicate Leads(items: seq<Item>, covered: set<nat>, others: seq<nat>, k: nat)
    requires InRange(items, others)
  {
    && k < |others| && Marginal(items[others[k]], covered) > 0
    && forall j | 0 <= j < |others| && Marginal(items[others[j]], covered) > 0 ::
         Ratio(items[others[j]], covered) <= Ratio(items[others[k]], covered)
  }

  /** The same among the first n. */
  ghost predicate LeadsBelow(items: seq<Item>, covered: set<nat>, others: seq<nat>, n: nat, k: nat)
    requires InRange(items, others) && n <= |others|
  {
    && k < n && Marginal(items[others[k]], covered) > 0
    && forall j | 0 <= j < n && Marginal(items[others[j]], covered) > 0 ::
         Ratio(items[others[j]], covered) <= Ratio(items[others[k]], covered)
  }

  ghost predicate NoneUseful(items: seq<Item>, covered: set<nat>, others: seq<nat>, n: nat)
    requires InRange(items, others) && n <= |others|
  {
    forall j | 0 <= j < n :: Marginal(items[others[j]], covered) == 0
  }

  lemma SomeLeads(items: seq<Item>, covered: set<nat>, others: seq<nat>) returns (found: bool, k: nat)
    requires InRange(items, others)
    ensures if found then Leads(items, covered, others, k) else NoneUseful(items, covered, others, |others|)
  {
    found, k := false, 0;
    var n := 0;
    while n < |others|
      invariant n <= |others|
      invariant if found then LeadsBelow(items, covered, others, n, k) else NoneUseful(items, covered, others, n)
    {
      var c := items[others[n]];
      if Marginal(c, covered) > 0 && (!found || Ratio(c, covered) > Ratio(items[others[k]], covered)) {
        found, k := true, n;
      }
      n := n + 1;
    }
  }

  /** A test whose ratio is at least the leader's pays its share. */
  lemma LeaderPays(items: seq<Item>, picks: seq<nat>, p: nat, others: seq<nat>, k: nat, bound: real)
    requires InRange(items, picks) && InRange(items, others) && p < |items| && CostsSeparated(items)
    requires Leads(items, Covered(items, picks), others, k) && Spent(items, others) <= bound
    requires Ratio(items[p], Covered(items, picks)) >= Ratio(items[others[k]], Covered(items, picks))
    ensures PaysItsShare(items, picks, p, others, bound)
  {
    var covered := Covered(items, picks);
    forall j | 0 <= j < |others|
      ensures CheaperThan(items[p], items[others[j]], covered)
    {
      if Marginal(items[others[j]], covered) == 0 {
        NoGain(items[p], items[others[j]], covered);
      } else {
        RatioCross(items[p], items[others[j]], covered);
      }
    }
    SharePaid(items, picks, p, others, bound);
  }

  /** When nothing of the others is missing, every test pays its share. */
  lemma NothingLeftPays(items: seq<Item>, picks: seq<nat>, p: nat, others: seq<nat>, bound: real)
    requires InRange(items, picks) && InRange(items, others) && p < |items| && CostsSeparated(items)
    requires NoneUseful(items, Covered(items, picks), others, |others|) && Spent(items, others) <= bound
    ensures PaysItsShare(items, picks, p, others, bound)
  {
    forall j | 0 <= j < |others|
      ensures CheaperThan(items[p], items[others[j]], Covered(items, picks))
    {
      NoGain(items[p], items[others[j]], Covered(items, picks));
    }
    SharePaid(items, picks, p, others, bound);
  }

  /** `others[k]` leads but costs more than what is left. */
  ghost predicate Skipped(items: seq<Item>, budget: real, picks: seq<nat>, others: seq<nat>, k: nat)
    requires InRange(items, picks) && InRange(items, others)
  {
    Leads(items, Covered(items, picks), others, k) && items[others[k]].cost > budget - Spent(items, picks)
  }

  /** A pick pays its share as long as the leader of the others is affordable. */
  lemma PickPays(items: seq<Item>, budget: real, picks: seq<nat>, p: nat, others: seq<nat>, bound: real)
    requires InRange(items, picks) && InRange(items, others) && CostsSeparated(items)
    requires IsPick(items, budget, picks, p) && Spent(items, others) <= bound
    requires forall k: nat :: !Skipped(items, budget, picks, others, k)
    ensures PaysItsShare(items, picks, p, others, bound)
  {
    var found, k := SomeLeads(items, Covered(items, picks), others);
    if found {
      assert !Skipped(items, budget, picks, others, k);
      RatioAtLeast(items, budget, picks, p, others[k]);
      LeaderPays(items, picks, p, others, k, bound);
    } else {
      NothingLeftPays(items, picks, p, others, bound);
    }
  }

  ghost predicate NoSkipBefore(items: seq<Item>, budget: real, picks: seq<nat>, others: seq<nat>, n: nat)
    requires InRange(items, picks) && InRange(items, others) && n <= |picks|
  {
    forall m: nat, k: nat | m < n :: !Skipped(items, budget, picks[..m], others, k)
  }

  lemma PaidWhileNotSkipped(items: seq<Item>, budget: real, picks: seq<nat>, others: seq<nat>,
                            bound: real, n: nat)
    requires Greedy(items, budget, picks) && InRange(items, others) && CostsSeparated(items)
    requires Spent(items, others) <= bound && n <= |picks| && NoSkipBefore(items, budget, picks, others, n)
    ensures Paid(items, picks[..n], others, bound)
  {
    forall k | 0 <= k < n
      ensures PaysItsShare(items, picks[..k], picks[k], others, bound)
    {
      PickPays(items, budget, picks[..k], picks[k], others, bound);
    }
    PaidRun(items, picks, others, bound, n);
  }

  /** The first prefix at which the leader is skipped, if there is one up to `n`. */
  lemma {:induction false} FirstSkip(items: seq<Item>, budget: real, picks: seq<nat>, others: seq<nat>, n: nat)
    returns (found: bool, m: nat, k: nat)
    requires InRange(items, picks) && InRange(items, others) && n <= |picks|
    ensures m <= n && NoSkipBefore(items, budget, picks, others, m)
    ensures if found then Skipped(items, budget, picks[..m], others, k) else m == n
  {
    found, m, k := false, 0, 0;
    while m < n
      invariant m <= n && !found && NoSkipBefore(items, budget, picks, others, m)
    {
      if exists j: nat :: Skipped(items, budget, picks[..m], others, j) {
        k :| Skipped(items, budget, picks[..m], others, k);
        found := true;
        return;
      }
      m := m + 1;
    }
  }

  // ----- The product of the shares

  lemma {:induction false} SpentNonNegative(items: seq<Item>, picks: seq<nat>)
    requires InRange(items, picks) && forall i | 0 <= i < |items| :: items[i].cost >= 0.0
    ensures Spent(items, picks) >= 0.0
    ensures forall k | 0 <= k < |picks| :: items[picks[k]].cost <= Spent(items, picks)
  {
    if picks != [] {
      SpentNonNegative(items, picks[..|picks| - 1]);
    }
  }

  lemma NonNegativeProduct(x: real, y: real)
    requires x >= 0.0 && y >= 0.0
    ensures x * y >= 0.0
  {
    ScaleLeft(x, 0.0, y);
  }

  /** `m (1 + y) <= 1` is kept when a further share x is covered and spent. */
  lemma ProductStep(m: real, y: real, x: real)
    requires 0.0 <= m && 0.0 <= y && 0.0 <= x <= 1.0 && m * (1.0 + y) <= 1.0
    ensures 0.0 <= m * (1.0 - x)
    ensures m * (1.0 - x) * (1.0 + (y + x)) <= 1.0
  {
    var a, b := (1.0 - x) * (1.0 + (y + x)), 1.0 + y;
    assert a == b - x * y - x * x;
    NonNegativeProduct(x, y);
    NonNegativeProduct(x, x);
    NonNegativeProduct(m, 1.0 - x);
    ScaleLeft(m, a, b);
    assert m * (1.0 - x) * (1.0 + (y + x)) == m * a;
  }

  /** The product of what is missed and one plus the share of the bound that was spent. */
  function Balance(missed: real, spent: real, bound: real): (r: real)
    requires bound > 0.0
  {
    missed * (1.0 + spent / bound)
  }

  lemma BalanceStep(missed: real, spent: real, cost: real, bound: real)
    requires bound > 0.0 && missed >= 0.0 && spent >= 0.0 && 0.0 <= cost <= bound
    requires Balance(missed, spent, bound) <= 1.0
    ensures Shrunk(missed, cost, bound) >= 0.0 && Balance(Shrunk(missed, cost, bound), spent + cost, bound) <= 1.0
  {
    ShareOfBound(cost, bound);
    ShareOfBound(spent, bound);
    ProductStep(missed, spent / bound, cost / bound);
    AddShares(spent, cost, bound);
  }

  ghost predicate CostsWithin(items: seq<Item>, picks: seq<nat>, bound: real)
    requires InRange(items, picks)
  {
    forall k | 0 <= k < |picks| :: 0.0 <= items[picks[k]].cost <= bound
  }

  /** What a list of picks misses, times one plus the share of the bound it spends, is at most one. */
  lemma {:induction false} MissedTimesSpent(items: seq<Item>, picks: seq<nat>, bound: real)
    requires InRange(items, picks) && bound > 0.0 && CostsWithin(items, picks, bound)
    ensures Missed(items, picks, bound) >= 0.0 && Spent(items, picks) >= 0.0
    ensures Balance(Missed(items, picks, bound), Spent(items, picks), bound) <= 1.0
  {
    if picks != [] {
      var front := picks[..|picks| - 1];
      MissedTimesSpent(items, front, bound);
      BalanceStep(Missed(items, front, bound), Spent(items, front), items[picks[|picks| - 1]].cost, bound);
    }
  }

  lemma ShareOfBound(cost: real, bound: real)
    requires 0.0 <= cost && bound > 0.0
    ensures 0.0 <= cost / bound && (cost <= bound ==> cost / bound <= 1.0) && (cost > bound ==> cost / bound > 1.0)
  {
  }

  lemma AddShares(a: real, b: real, bound: real)
    requires bound > 0.0
    ensures (a + b) / bound == a / bound + b / bound
  {
  }

  /** When more than the bound was spent, less than half is missed. */
  lemma HalfCovered(all: nat, done: nat, missed: real, spent: real, bound: real)
    requires bound > 0.0 && spent > bound && missed >= 0.0 && Balance(missed, spent, bound) <= 1.0
    requires (all - done) as real <= Times(all, missed)
    ensures 2 * done >= all
  {
    ShareOfBound(spent, bound);
    ScaleLeft(missed, 2.0, 1.0 + spent / bound);
    TimesIsProduct(all, missed);
    ScaleLeft(all as real, missed, 0.5);
  }

  // ----- The guarantee

  lemma CoveredWhenNothingUseful(items: seq<Item>, picks: seq<nat>, others: seq<nat>)
    requires InRange(items, picks) && InRange(items, others)
    requires NoneUseful(items, Covered(items, picks), others, |others|)
    ensures Covered(items, others) <= Covered(items, picks)
  {
    CoveredExactly(items, others);
    forall b | b in Covered(items, others)
      ensures b in Covered(items, picks)
    {
      var i :| 0 <= i < |others| && b in items[others[i]].bits;
      MarginalZero(items[others[i]], Covered(items, picks));
    }
  }

  /** A complete run covers the others, or their leader was skipped at some prefix of it. */
  lemma CoveredOrSkipped(items: seq<Item>, budget: real, picks: seq<nat>, others: seq<nat>)
    returns (covered: bool, m: nat, k: nat)
    requires Complete(items, budget, picks) && InRange(items, others)
    ensures covered ==> Covered(items, others) <= Covered(items, picks)
    ensures !covered ==> m <= |picks| && NoSkipBefore(items, budget, picks, others, m)
                         && Skipped(items, budget, picks[..m], others, k)
  {
    var found;
    found, m, k := FirstSkip(items, budget, picks, others, |picks|);
    covered := false;
    if !found {
      assert picks[..m] == picks;
      var useful;
      useful, k := SomeLeads(items, Covered(items, picks), others);
      if useful {
        if others[k] in picks {
          PickedIsCovered(items, picks, others[k]);
        }
        assert !Eligible(items, budget, picks, others[k]);
      } else {
        covered := true;
        CoveredWhenNothingUseful(items, picks, others);
      }
    }
  }

  lemma ExtendPaid(items: seq<Item>, picks: seq<nat>, t: nat, others: seq<nat>, bound: real)
    requires InRange(items, picks) && InRange(items, others) && t < |items|
    requires Paid(items, picks, others, bound) && PaysItsShare(items, picks, t, others, bound)
    ensures InRange(items, picks + [t]) && Paid(items, picks + [t], others, bound)
  {
    assert (picks + [t])[..|picks|] == picks;
  }

  lemma PicksWithinBudget(items: seq<Item>, budget: real, picks: seq<nat>)
    requires Greedy(items, budget, picks) && forall i | 0 <= i < |items| :: items[i].cost >= 0.0
    ensures CostsWithin(items, picks, budget)
  {
    forall k | 0 <= k < |picks|
      ensures items[picks[k]].cost <= budget
    {
      assert IsPick(items, budget, picks[..k], picks[k]);
      SpentNonNegative(items, picks[..k]);
    }
  }

  lemma SkippedWithinBudget(items: seq<Item>, budget: real, picks: seq<nat>, others: seq<nat>, m: nat, k: nat)
    requires Greedy(items, budget, picks) && InRange(items, others) && m <= |picks| && k < |others|
    requires (forall i | 0 <= i < |items| :: items[i].cost >= 0.0) && Spent(items, others) <= budget
    ensures InRange(items, picks[..m] + [others[k]]) && CostsWithin(items, picks[..m] + [others[k]], budget)
  {
    PicksWithinBudget(items, budget, picks);
    SpentNonNegative(items, others);
  }

  /** A list of tests that all pay their share and together overrun the budget. */
  lemma OverrunCoversHalf(items: seq<Item>, w: seq<nat>, others: seq<nat>, budget: real)
    requires InRange(items, w) && InRange(items, others) && budget > 0.0 && CostsWithin(items, w, budget)
    requires Paid(items, w, others, budget) && Spent(items, w) > budget
    ensures (Coverage(items, others) - Coverage(items, w)) as real
         <= Times(Coverage(items, others), Missed(items, w, budget))
    ensures 2 * Coverage(items, w) >= Coverage(items, others)
  {
    SharesMultiply(items, w, others, budget);
    MissedTimesSpent(items, w, budget);
    HalfCovered(Coverage(items, others), Coverage(items, w), Missed(items, w, budget), Spent(items, w), budget);
  }

  /** The picks up to the skip, and then the skipped test, all pay their share and overrun the budget. */
  lemma {:induction false} PrefixAndSkipped(items: seq<Item>, budget: real, picks: seq<nat>, others: seq<nat>,
                                            m: nat, k: nat)
    requires Greedy(items, budget, picks) && InRange(items, others) && CostsSeparated(items)
    requires budget > 0.0 && Spent(items, others) <= budget && m <= |picks|
    requires NoSkipBefore(items, budget, picks, others, m) && Skipped(items, budget, picks[..m], others, k)
    ensures var w := picks[..m] + [others[k]];
            InRange(items, w) && CostsWithin(items, w, budget) && Paid(items, w, others, budget)
            && Spent(items, w) > budget
  {
    var t := others[k];
    PaidWhileNotSkipped(items, budget, picks, others, budget, m);
    LeaderPays(items, picks[..m], t, others, k, budget);
    ExtendPaid(items, picks[..m], t, others, budget);
    SkippedWithinBudget(items, budget, picks, others, m, k);
    CoveredStep(items, picks[..m], t);
  }

  /** Against any affordable set, a selection covers it, or some prefix of its picks and one test of the
      set that it could not afford there overrun the budget, meet the product bound, and cover at least
      half of the set. */
  lemma SkippedGuarantee(items: seq<Item>, budget: real, picks: seq<nat>, others: seq<nat>)
    returns (covered: bool, m: nat, t: nat)
    requires IsSelection(items, budget, picks) && budget > 0.0 && InRange(items, others) && CostsSeparated(items)
    requires Spent(items, others) <= budget
    ensures covered ==> Covered(items, others) <= Covered(items, picks)
    ensures !covered ==>
      && m <= |picks| && t in others && InRange(items, picks[..m] + [t])
      && Spent(items, picks[..m] + [t]) > budget
      && (Coverage(items, others) - Coverage(items, picks[..m] + [t])) as real
         <= Times(Coverage(items, others), Missed(items, picks[..m] + [t], budget))
      && 2 * Coverage(items, picks[..m] + [t]) >= Coverage(items, others)
  {
    var k;
    t := 0;
    covered, m, k := CoveredOrSkipped(items, budget, picks, others);
    if !covered {
      t := others[k];
      PrefixAndSkipped(items, budget, picks, others, m, k);
      OverrunCoversHalf(items, picks[..m] + [t], others, budget);
    }
  }

  // ----- What the selection alone covers

  lemma {:induction false} PrefixCoversLess(items: seq<Item>, picks: seq<nat>, m: nat)
    requires InRange(items, picks) && m <= |picks|
    ensures Coverage(items, picks[..m]) <= Coverage(items, picks)
  {
    CoveredExactly(items, picks);
    CoveredExactly(items, picks[..m]);
    assert Covered(items, picks[..m]) <= Covered(items, picks) by {
      forall b | b in Covered(items, picks[..m])
        ensures b in Covered(items, picks)
      {
        var i :| 0 <= i < m && b in items[picks[..m][i]].bits;
        assert picks[..m][i] == picks[i];
      }
    }
    SubsetSize(Covered(items, picks[..m]), Covered(items, picks));
  }

  /** The selection, or one test that is affordable alone, covers a quarter of any affordable set. */
  lemma QuarterGuarantee(items: seq<Item>, budget: real, picks: seq<nat>, others: seq<nat>)
    requires IsSelection(items, budget, picks) && budget > 0.0 && InRange(items, others) && CostsSeparated(items)
    requires Spent(items, others) <= budget
    ensures InRange(items, picks)
    ensures || 4 * Coverage(items, picks) >= Coverage(items, others)
            || exists t :: t in others && items[t].cost <= budget && 4 * |items[t].bits| >= Coverage(items, others)
  {
    var covered, m, t := SkippedGuarantee(items, budget, picks, others);
    if covered {
      SubsetSize(Covered(items, others), Covered(items, picks));
    } else {
      CoveredStep(items, picks[..m], t);
      PrefixCoversLess(items, picks, m);
      SubsetSize(items[t].bits - Covered(items, picks[..m]), items[t].bits);
      SpentNonNegative(items, others);
    }
  }

  /** A cheap test of one bit, and one of n bits that costs the whole budget of 2n + 1. */
  ghost predicate CheapAndWide(cheap: Item, wide: Item, n: nat) {
    && n >= 1 && |cheap.bits| == 1 && cheap.cost == 2.0
    && |wide.bits| == n && wide.cost == (2 * n + 1) as real
  }

  lemma CheapIsPicked(cheap: Item, wide: Item, n: nat)
    requires CheapAndWide(cheap, wide, n)
    ensures IsPick([cheap, wide], (2 * n + 1) as real, [], 0)
  {
    var items := [cheap, wide];
    assert items[0] == cheap && items[1] == wide;
    assert cheap.bits - {} == cheap.bits && wide.bits - {} == wide.bits;
    LowerRatio(n);
  }

  lemma LowerRatio(n: nat)
    requires n >= 1
    ensures Rate(n, (2 * n + 1) as real) < Rate(1, 2.0)
  {
    var c := (2 * n + 1) as real;
    var r := n as real / c;
    assert r * c == n as real;
    if r >= 0.5 {
      ScaleLeft(c, 0.5, r);
    }
  }

  ghost predicate NothingEligible(items: seq<Item>, budget: real, picks: seq<nat>)
    requires InRange(items, picks)
  {
    forall i: nat :: !Eligible(items, budget, picks, i)
  }

  lemma OnlyCheapFits(items: seq<Item>, n: nat, budget: real)
    requires |items| == 2 && CheapAndWide(items[0], items[1], n) && budget == (2 * n + 1) as real
    ensures NothingEligible(items, budget, [0]) && Coverage(items, [0]) == 1
  {
    assert [0][..0] == [];
    assert Spent(items, [0]) == 2.0;
    assert Covered(items, [0]) == {} + items[0].bits == items[0].bits;
  }

  /** The selection alone has no constant factor: here it covers one bit, where n are affordable. */
  lemma NoConstantFactor(items: seq<Item>, n: nat, budget: real, picks: seq<nat>)
    requires |items| == 2 && CheapAndWide(items[0], items[1], n) && budget == (2 * n + 1) as real
    requires IsSelection(items, budget, picks)
    ensures InRange(items, picks) && Coverage(items, picks) == 1
    ensures Spent(items, [1]) <= budget && Coverage(items, [1]) == n
  {
    CheapIsPicked(items[0], items[1], n);
    assert items == [items[0], items[1]];
    OnlyCheapFits(items, n, budget);
    FirstAndOnly(items, budget, picks, 0);
    assert [1][..0] == [];
    assert Covered(items, [1]) == {} + items[1].bits == items[1].bits;
  }

  /** A complete run is its only pick when that pick leaves nothing eligible. */
  lemma FirstAndOnly(items: seq<Item>, budget: real, picks: seq<nat>, p: nat)
    requires Complete(items, budget, picks) && IsPick(items, budget, [], p) && InRange(items, [p])
    requires NothingEligible(items, budget, [p])
    ensures picks == [p]
  {
    assert Eligible(items, budget, [], p);
    assert picks != [];
    assert IsPick(items, budget, picks[..0], picks[0]) && picks[..0] == [];
    OnePick(items, budget, picks[0], p);
    if |picks| > 1 {
      SecondPick(items, budget, picks);
    }
  }

  lemma SecondPick(items: seq<Item>, budget: real, picks: seq<nat>)
    requires Greedy(items, budget, picks) && |picks| > 1
    ensures InRange(items, [picks[0]]) && Eligible(items, budget, [picks[0]], picks[1])
  {
    assert IsPick(items, budget, picks[..1], picks[1]) && picks[..1] == [picks[0]];
  }

  lemma OnePick(items: seq<Item>, budget: real, p: nat, q: nat)
    requires IsPick(items, budget, [], p) && IsPick(items, budget, [], q)
    ensures p == q
  {
    if p != q {
      assert Preferred(items, {}, p, q) && Preferred(items, {}, q, p);
      LessTrichotomy(items[p].name, items[q].name);
    }
  }
}
