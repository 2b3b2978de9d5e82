/** How good the greedy selection of `Budget` is (src/budget.rs): the step inequality of
    cost-effective greedy covering, the product bound it gives, and the classical
    1 - (1 - 1/k)^k guarantee when all tests cost the same. */
module GreedyBound {
  import opened Words
  import opened Ordering
  import opened Selection

  /** Zero-cost tests have a rate of a million per bit. With at most 64 bits in a word, that beats
      every paid test as soon as paid tests cost more than 64 microseconds. */
  ghost predicate CostsSeparated(items: seq<Item>) {
    && (forall i | 0 <= i < |items| :: |items[i].bits| <= 64)
    && (forall i | 0 <= i < |items| :: items[i].cost >= 0.0)
    && forall i, j | 0 <= i < |items| && 0 <= j < |items| && items[i].cost == 0.0 && items[j].cost > 0.0 ::
         items[j].cost * 1000000.0 > 64.0
  }

  /** No member of `others` that would still add a bit has become unaffordable. */
  ghost predicate NoneSkipped(items: seq<Item>, budget: real, picks: seq<nat>, others: seq<nat>)
    requires InRange(items, picks) && InRange(items, others)
  {
    forall k | 0 <= k < |others| && Marginal(items[others[k]], Covered(items, picks)) > 0 ::
      items[others[k]].cost <= budget - Spent(items, picks)
  }

  /** A pick buys bits at least as cheaply as any candidate that is not skipped. */
  lemma PickIsCheapest(items: seq<Item>, budget: real, picks: seq<nat>, p: nat, t: nat)
    requires InRange(items, picks) && t < |items| && CostsSeparated(items)
    requires IsPick(items, budget, picks, p)
    requires Marginal(items[t], Covered(items, picks)) > 0 ==> items[t].cost <= budget - Spent(items, picks)
    ensures CheaperThan(items[p], items[t], Covered(items, picks))
  {
    var covered := Covered(items, picks);
    if Marginal(items[t], covered) == 0 {
      NoGain(items[p], items[t], covered);
    } else {
      RatioAtLeast(items, budget, picks, p, t);
      RatioCross(items[p], items[t], covered);
    }
  }

  /** `n * c`, by repeated addition. */
  function Times(n: nat, c: real): (r: real) {
    if n == 0 then 0.0 else Times(n - 1, c) + c
  }

  lemma {:induction false} TimesIsProduct(n: nat, c: real)
    ensures Times(n, c) == n as real * c
  {
    if n > 0 {
      TimesIsProduct(n - 1, c);
    }
  }

  lemma {:induction false} TimesAdds(n: nat, c: real, d: real)
    ensures Times(n, c + d) == Times(n, c) + Times(n, d)
  {
    if n > 0 {
      TimesAdds(n - 1, c, d);
    }
  }

  lemma {:induction false} TimesSums(m: nat, n: nat, c: real)
    ensures Times(m + n, c) == Times(m, c) + Times(n, c)
  {
    if n > 0 {
      TimesSums(m, n - 1, c);
    }
  }

  lemma {:induction false} TimesMonotone(n: nat, c: real, d: real)
    requires c <= d
    ensures Times(n, c) <= Times(n, d)
  {
    if n > 0 {
      TimesMonotone(n - 1, c, d);
    }
  }

  lemma {:induction false} TimesGrows(m: nat, n: nat, c: real)
    requires m <= n && c >= 0.0
    ensures Times(m, c) <= Times(n, c)
  {
    if m < n {
      TimesGrows(m, n - 1, c);
    }
  }

  /** `c` pays no more per gained bit than `d`. */
  ghost predicate CheaperThan(c: Item, d: Item, covered: set<nat>) {
    Times(Marginal(d, covered), c.cost) <= Times(Marginal(c, covered), d.cost)
  }

  lemma NoGain(c: Item, d: Item, covered: set<nat>)
    requires Marginal(d, covered) == 0 && d.cost >= 0.0
    ensures CheaperThan(c, d, covered)
  {
    TimesGrows(0, Marginal(c, covered), d.cost);
  }

  lemma RatioAtLeast(items: seq<Item>, budget: real, picks: seq<nat>, p: nat, t: nat)
    requires InRange(items, picks) && t < |items|
    requires IsPick(items, budget, picks, p)
    requires Marginal(items[t], Covered(items, picks)) > 0 && items[t].cost <= budget - Spent(items, picks)
    ensures Ratio(items[p], Covered(items, picks)) >= Ratio(items[t], Covered(items, picks))
  {
    if t in picks {
      PickedIsCovered(items, picks, t);
    }
    assert t != p ==> Eligible(items, budget, picks, t);
  }

  lemma RatioCross(c: Item, d: Item, covered: set<nat>)
    requires Ratio(c, covered) >= Ratio(d, covered) && Marginal(d, covered) > 0
    requires c.cost >= 0.0 && d.cost >= 0.0
    requires d.cost == 0.0 && c.cost > 0.0 ==> c.cost * 1000000.0 > 64.0
    requires |c.bits| <= 64
    ensures CheaperThan(c, d, covered)
  {
    SubsetSize(c.bits - covered, c.bits);
    TimesCross(Marginal(c, covered), c.cost, Marginal(d, covered), d.cost);
  }

  lemma {:induction false} TimesCross(m: nat, c: real, n: nat, d: real)
    requires Rate(m, c) >= Rate(n, d) && n > 0 && m <= 64 && c >= 0.0 && d >= 0.0
    requires d == 0.0 && c > 0.0 ==> c * 1000000.0 > 64.0
    ensures Times(n, c) <= Times(m, d)
  {
    RatesCross(m, c, n, d);
    TimesIsProduct(n, c);
    TimesIsProduct(m, d);
  }

  lemma RatesCross(m: nat, c: real, n: nat, d: real)
    requires Rate(m, c) >= Rate(n, d) && n > 0 && m <= 64 && c >= 0.0 && d >= 0.0
    requires d == 0.0 && c > 0.0 ==> c * 1000000.0 > 64.0
    ensures n as real * c <= m as real * d
  {
    var gc, gd := m as real, n as real;
    if c > 0.0 && d > 0.0 {
      ScaleFraction(gc, c, gd, d);
    } else if c > 0.0 {
      FreeBeatsPaid(gc, c, gd);
    }
  }

  lemma FreeBeatsPaid(gain: real, cost: real, freeGain: real)
    requires gain <= 64.0 && freeGain >= 1.0 && cost * 1000000.0 > 64.0
    ensures cost > 0.0 && gain / cost < freeGain * 1000000.0
  {
    var r := gain / cost;
    assert r * cost == gain;
    if r >= 1000000.0 {
      ScaleLeft(cost, 1000000.0, r);
    }
  }

  lemma ScaleFraction(a: real, b: real, c: real, d: real)
    requires b > 0.0 && d > 0.0 && a / b >= c / d
    ensures b * c <= a * d
  {
    var x, y := a / b, c / d;
    assert a == x * b && c == y * d;
    assert b * d > 0.0;
    assert b * c == y * (b * d);
    assert a * d == x * (b * d);
    assert (x - y) * (b * d) >= 0.0;
  }

  /** Summing `PickIsCheapest` over a set: coverage is subadditive, cost is additive. */
  lemma {:induction false} SumOfShares(items: seq<Item>, c: Item, covered: set<nat>, others: seq<nat>)
    requires InRange(items, others) && c.cost >= 0.0
    requires forall k | 0 <= k < |others| :: CheaperThan(c, items[others[k]], covered)
    ensures Times(|Covered(items, others) - covered|, c.cost) <= Times(Marginal(c, covered), Spent(items, others))
  {
    var g := Marginal(c, covered);
    if others == [] {
      assert Covered(items, others) - covered == {};
      TimesIsProduct(g, 0.0);
    } else {
      var rest, t := others[..|others| - 1], items[others[|others| - 1]];
      SumOfShares(items, c, covered, rest);
      MissingSplits(items, others, covered);
      assert CheaperThan(c, t, covered);
      AddShare(g, |Covered(items, rest) - covered|, Marginal(t, covered), |Covered(items, others) - covered|,
               c.cost, Spent(items, rest), t.cost);
    }
  }

  lemma {:induction false} AddShare(gain: nat, missing: nat, more: nat, all: nat, cost: real, spent: real, price: real)
    requires all <= missing + more && cost >= 0.0
    requires Times(missing, cost) <= Times(gain, spent) && Times(more, cost) <= Times(gain, price)
    ensures Times(all, cost) <= Times(gain, spent + price)
  {
    TimesGrows(all, missing + more, cost);
    TimesSums(missing, more, cost);
    TimesAdds(gain, spent, price);
  }

  lemma MissingSplits(items: seq<Item>, others: seq<nat>, covered: set<nat>)
    requires InRange(items, others) && others != []
    ensures |Covered(items, others) - covered|
         <= |Covered(items, others[..|others| - 1]) - covered| + Marginal(items[others[|others| - 1]], covered)
  {
    var a := Covered(items, others[..|others| - 1]) - covered;
    var b := items[others[|others| - 1]].bits - covered;
    assert Covered(items, others) - covered == a + b;
    UnionSize(a, b);
  }

  lemma UnionSize<T>(a: set<T>, b: set<T>)
    ensures |a + b| <= |a| + |b|
  {
    assert a + b == a + (b - a);
    SubsetSize(b - a, b);
  }

  lemma DifferenceSize<T>(a: set<T>, b: set<T>)
    ensures |a - b| >= |a| - |b|
  {
    assert a == (a - b) + (a * b);
    SubsetSize(a * b, b);
  }

  /** `bound * gain >= cost(p) * (coverage(others) - coverage(picks))`, the gain being that of `p`. */
  ghost predicate PaysItsShare(items: seq<Item>, picks: seq<nat>, p: nat, others: seq<nat>, bound: real)
    requires InRange(items, picks) && p < |items| && InRange(items, others)
  {
    Times(Marginal(items[p], Covered(items, picks)), bound) + Times(Coverage(items, picks), items[p].cost)
    >= Times(Coverage(items, others), items[p].cost)
  }

  /** Step inequality: against any set `others` of total cost at most `bound`, a pick gains at
      least its share of the coverage that is still missing. */
  lemma StepBound(items: seq<Item>, budget: real, picks: seq<nat>, p: nat, others: seq<nat>, bound: real)
    requires InRange(items, picks) && InRange(items, others) && CostsSeparated(items)
    requires IsPick(items, budget, picks, p)
    requires Spent(items, others) <= bound
    requires NoneSkipped(items, budget, picks, others)
    ensures PaysItsShare(items, picks, p, others, bound)
  {
    var covered, c := Covered(items, picks), items[p];
    forall k | 0 <= k < |others|
      ensures CheaperThan(c, items[others[k]], covered)
    {
      PickIsCheapest(items, budget, picks, p, others[k]);
    }
    SharePaid(items, picks, p, others, bound);
  }

  /** A test that is cheaper per bit than each of the others pays its share of what they still lack. */
  lemma SharePaid(items: seq<Item>, picks: seq<nat>, p: nat, others: seq<nat>, bound: real)
    requires InRange(items, picks) && InRange(items, others) && p < |items| && items[p].cost >= 0.0
    requires forall k | 0 <= k < |others| :: CheaperThan(items[p], items[others[k]], Covered(items, picks))
    requires Spent(items, others) <= bound
    ensures PaysItsShare(items, picks, p, others, bound)
  {
    var covered := Covered(items, picks);
    SumOfShares(items, items[p], covered, others);
    DifferenceSize(Covered(items, others), covered);
    ShareOfMissing(Coverage(items, others), Coverage(items, picks), |Covered(items, others) - covered|,
                   Marginal(items[p], covered), items[p].cost, Spent(items, others), bound);
  }

  lemma {:induction false} ShareOfMissing(all: nat, done: nat, missing: nat, gain: nat, cost: real, spent: real,
                                          bound: real)
    requires missing >= all - done && cost >= 0.0 && spent <= bound
    requires Times(missing, cost) <= Times(gain, spent)
    ensures Times(gain, bound) + Times(done, cost) >= Times(all, cost)
  {
    TimesMonotone(gain, spent, bound);
    TimesGrows(all, missing + done, cost);
    TimesSums(missing, done, cost);
  }

  lemma ScaleLeft(k: real, x: real, y: real)
    requires k >= 0.0 && x <= y
    ensures k * x <= k * y
  {
  }

  // ----- The product bound

  /** `missed` after a further share `cost/bound` of it is covered. */
  function Shrunk(missed: real, cost: real, bound: real): (r: real)
    requires bound > 0.0
  {
    missed * (1.0 - cost / bound)
  }

  /** The product of `1 - cost/bound` over the picks: the share of coverage a run may still miss. */
  function Missed(items: seq<Item>, picks: seq<nat>, bound: real): (r: real)
    requires InRange(items, picks) && bound > 0.0
  {
    if picks == [] then 1.0
    else Shrunk(Missed(items, picks[..|picks| - 1], bound), items[picks[|picks| - 1]].cost, bound)
  }

  /** Each pick pays its share in its turn. */
  ghost predicate Paid(items: seq<Item>, picks: seq<nat>, others: seq<nat>, bound: real)
    requires InRange(items, picks) && InRange(items, others)
  {
    picks == []
    || (Paid(items, picks[..|picks| - 1], others, bound)
        && PaysItsShare(items, picks[..|picks| - 1], picks[|picks| - 1], others, bound))
  }

  lemma PaidStep(items: seq<Item>, picks: seq<nat>, others: seq<nat>, bound: real, n: nat)
    requires InRange(items, picks) && InRange(items, others) && 0 < n <= |picks|
    requires Paid(items, picks[..n - 1], others, bound)
    requires PaysItsShare(items, picks[..n - 1], picks[n - 1], others, bound)
    ensures Paid(items, picks[..n], others, bound)
  {
    assert picks[..n][..n - 1] == picks[..n - 1] && picks[..n][n - 1] == picks[n - 1];
  }

  lemma {:induction false} PaidRun(items: seq<Item>, picks: seq<nat>, others: seq<nat>, bound: real, n: nat)
    requires InRange(items, picks) && InRange(items, others) && n <= |picks|
    requires forall k | 0 <= k < n :: PaysItsShare(items, picks[..k], picks[k], others, bound)
    ensures Paid(items, picks[..n], others, bound)
  {
    if n > 0 {
      PaidRun(items, picks, others, bound, n - 1);
      PaidStep(items, picks, others, bound, n);
    }
  }

  /** As long as no useful member of `others` was skipped, a greedy run leaves at most the fraction
      `Missed` of the coverage of `others` uncovered. */
  lemma ProductBound(items: seq<Item>, budget: real, picks: seq<nat>, others: seq<nat>, bound: real)
    requires Greedy(items, budget, picks) && InRange(items, others) && CostsSeparated(items)
    requires bound > 0.0 && Spent(items, others) <= bound
    requires forall k | 0 <= k < |picks| :: items[picks[k]].cost <= bound
    requires forall k | 0 <= k < |picks| :: NoneSkipped(items, budget, picks[..k], others)
    ensures (Coverage(items, others) - Coverage(items, picks)) as real
         <= Times(Coverage(items, others), Missed(items, picks, bound))
  {
    forall k | 0 <= k < |picks|
      ensures PaysItsShare(items, picks[..k], picks[k], others, bound)
    {
      StepBound(items, budget, picks[..k], picks[k], others, bound);
    }
    PaidRun(items, picks, others, bound, |picks|);
    assert picks[..|picks|] == picks;
    SharesMultiply(items, picks, others, bound);
  }

  lemma {:induction false} SharesMultiply(items: seq<Item>, picks: seq<nat>, others: seq<nat>, bound: real)
    requires InRange(items, picks) && InRange(items, others) && bound > 0.0
    requires forall k | 0 <= k < |picks| :: items[picks[k]].cost <= bound
    requires Paid(items, picks, others, bound)
    ensures (Coverage(items, others) - Coverage(items, picks)) as real
         <= Times(Coverage(items, others), Missed(items, picks, bound))
  {
    if picks == [] {
      TimesIsProduct(Coverage(items, others), 1.0);
    } else {
      var q, p := picks[..|picks| - 1], picks[|picks| - 1];
      SharesMultiply(items, q, others, bound);
      ShareStep(items, q, p, others, bound, Missed(items, q, bound));
      assert picks == q + [p];
    }
  }

  lemma ShareStep(items: seq<Item>, picks: seq<nat>, p: nat, others: seq<nat>, bound: real, missed: real)
    requires InRange(items, picks) && InRange(items, others) && p < |items| && bound > 0.0
    requires items[p].cost <= bound && PaysItsShare(items, picks, p, others, bound)
    requires (Coverage(items, others) - Coverage(items, picks)) as real <= Times(Coverage(items, others), missed)
    ensures (Coverage(items, others) - Coverage(items, picks + [p])) as real
         <= Times(Coverage(items, others), Shrunk(missed, items[p].cost, bound))
  {
    CoveredStep(items, picks, p);
    Shrinks(Coverage(items, others), Coverage(items, picks), Marginal(items[p], Covered(items, picks)),
            items[p].cost, bound, missed);
  }

  lemma Shrinks(all: nat, done: nat, gain: nat, cost: real, bound: real, missed: real)
    requires bound > 0.0 && cost <= bound
    requires Times(gain, bound) + Times(done, cost) >= Times(all, cost)
    requires (all - done) as real <= Times(all, missed)
    ensures (all - (done + gain)) as real <= Times(all, Shrunk(missed, cost, bound))
  {
    ShrinksByProduct(all, done, gain, cost, bound, missed);
    ShrunkTimes(all, missed, cost, bound);
  }

  lemma ShrunkTimes(n: nat, missed: real, cost: real, bound: real)
    requires bound > 0.0
    ensures Times(n, Shrunk(missed, cost, bound)) == Times(n, missed * (1.0 - cost / bound))
  {
  }

  lemma ShrinksByProduct(all: nat, done: nat, gain: nat, cost: real, bound: real, missed: real)
    requires bound > 0.0 && cost <= bound
    requires Times(gain, bound) + Times(done, cost) >= Times(all, cost)
    requires (all - done) as real <= Times(all, missed)
    ensures (all - (done + gain)) as real <= Times(all, missed * (1.0 - cost / bound))
  {
    var left := missed * (1.0 - cost / bound);
    InReals(all, done, gain, cost, bound, missed);
    ShrinksReal(all as real, done as real, gain as real, cost, bound, missed, left);
    TimesIsProduct(all, left);
  }

  lemma InReals(all: nat, done: nat, gain: nat, cost: real, bound: real, missed: real)
    requires Times(gain, bound) + Times(done, cost) >= Times(all, cost)
    requires (all - done) as real <= Times(all, missed)
    ensures gain as real * bound + done as real * cost >= all as real * cost
    ensures all as real - done as real <= all as real * missed
  {
    TimesIsProduct(gain, bound);
    TimesIsProduct(done, cost);
    TimesIsProduct(all, cost);
    TimesIsProduct(all, missed);
  }

  lemma ShrinksReal(all: real, done: real, gain: real, cost: real, bound: real, missed: real, left: real)
    requires bound > 0.0 && cost <= bound && left == missed * (1.0 - cost / bound)
    requires gain * bound + done * cost >= all * cost
    requires all - done <= all * missed
    ensures all - (done + gain) <= all * left
  {
    var share, gap := cost / bound, all - done;
    assert share * bound == cost;
    assert bound * (gain - share * gap) >= 0.0 by {
      assert bound * (share * gap) == cost * gap;
      assert cost * gap == all * cost - done * cost;
    }
    assert gain >= share * gap;
    assert share <= 1.0;
    ScaleLeft(1.0 - share, gap, all * missed);
    assert all * (missed * (1.0 - share)) == (1.0 - share) * (all * missed);
  }

  // ----- Equal costs

  function Power(x: real, k: nat): (r: real) {
    if k == 0 then 1.0 else Power(x, k - 1) * x
  }

  lemma {:induction false} PowerRange(x: real, k: nat)
    requires 0.0 <= x <= 1.0
    ensures 0.0 <= Power(x, k) <= 1.0
  {
    if k > 0 {
      PowerRange(x, k - 1);
      var p := Power(x, k - 1);
      assert p * x >= 0.0;
      ScaleLeft(p, x, 1.0);
      assert p * x <= p <= 1.0;
      assert Power(x, k) == p * x;
    }
  }

  lemma {:induction false} EqualCosts(items: seq<Item>, picks: seq<nat>, cost: real, bound: real)
    requires InRange(items, picks) && bound > 0.0
    requires forall i | 0 <= i < |items| :: items[i].cost == cost
    ensures Spent(items, picks) == Times(|picks|, cost)
    ensures Missed(items, picks, bound) == Power(1.0 - cost / bound, |picks|)
  {
    if picks != [] {
      EqualCosts(items, picks[..|picks| - 1], cost, bound);
    }
  }

  /** With `k` tests of equal cost affordable, a selection misses at most the fraction (1 - 1/k)^k of
      the coverage of any affordable set. */
  lemma EqualCostGuarantee(items: seq<Item>, budget: real, picks: seq<nat>, others: seq<nat>, cost: real, k: nat)
    requires IsSelection(items, budget, picks) && InRange(items, others)
    requires forall i | 0 <= i < |items| :: items[i].cost == cost && |items[i].bits| <= 64
    requires cost > 0.0 && k > 0 && Times(k, cost) <= budget < Times(k + 1, cost)
    requires Spent(items, others) <= budget
    ensures (Coverage(items, others) - Coverage(items, picks)) as real
         <= Times(Coverage(items, others), Power(1.0 - 1.0 / k as real, k))
  {
    OneOver(cost, k);
    EqualCosts(items, others, cost, cost);
    EqualCosts(items, picks, cost, cost);
    GreedySound(items, budget, picks);
    FitsCount(|others|, k, cost, budget);
    FitsCount(|picks|, k, cost, budget);
    if |picks| < k {
      TimesGrows(|picks| + 1, k, cost);
      AllCovered(items, budget, picks, others, cost);
      NothingMissed(Coverage(items, others), Coverage(items, picks), k);
    } else {
      EqualCostProduct(items, budget, picks, others, cost, k);
    }
  }

  lemma NothingMissed(all: nat, done: nat, k: nat)
    requires k > 0 && all <= done
    ensures (all - done) as real <= Times(all, Power(1.0 - 1.0 / k as real, k))
  {
    OneOver(1.0, k);
    PowerRange(1.0 - 1.0 / k as real, k);
    TimesGrows(0, all, Power(1.0 - 1.0 / k as real, k));
    TimesIsProduct(0, Power(1.0 - 1.0 / k as real, k));
  }

  /** With money for `k` equal tests, none is unaffordable before the `k`-th pick. */
  lemma NeverSkipped(items: seq<Item>, budget: real, picks: seq<nat>, others: seq<nat>, cost: real, k: nat)
    requires InRange(items, picks) && InRange(items, others) && |picks| < k
    requires forall i | 0 <= i < |items| :: items[i].cost == cost
    requires cost > 0.0 && Times(k, cost) <= budget
    ensures NoneSkipped(items, budget, picks, others)
  {
    EqualCosts(items, picks, cost, 1.0);
    TimesGrows(|picks| + 1, k, cost);
  }

  lemma EqualCostMissed(items: seq<Item>, picks: seq<nat>, cost: real, k: nat)
    requires InRange(items, picks) && cost > 0.0 && |picks| == k > 0
    requires forall i | 0 <= i < |items| :: items[i].cost == cost
    ensures Times(k, cost) >= cost && Missed(items, picks, Times(k, cost)) == Power(1.0 - 1.0 / k as real, k)
  {
    OneOver(cost, k);
    EqualCosts(items, picks, cost, Times(k, cost));
  }

  /** The case where the money runs out first: then nothing was ever skipped for cost. */
  lemma EqualCostProduct(items: seq<Item>, budget: real, picks: seq<nat>, others: seq<nat>, cost: real, k: nat)
    requires Greedy(items, budget, picks) && InRange(items, others)
    requires forall i | 0 <= i < |items| :: items[i].cost == cost && |items[i].bits| <= 64
    requires cost > 0.0 && |picks| == k > 0 && Spent(items, others) <= Times(k, cost) <= budget
    ensures (Coverage(items, others) - Coverage(items, picks)) as real
         <= Times(Coverage(items, others), Power(1.0 - 1.0 / k as real, k))
  {
    EqualCostMissed(items, picks, cost, k);
    forall m | 0 <= m < |picks|
      ensures NoneSkipped(items, budget, picks[..m], others)
    {
      NeverSkipped(items, budget, picks[..m], others, cost, k);
    }
    ProductBound(items, budget, picks, others, Times(k, cost));
  }

  lemma OneOver(cost: real, k: nat)
    requires cost > 0.0 && k > 0
    ensures Times(k, cost) >= cost && cost / Times(k, cost) == 1.0 / k as real
    ensures 0.0 <= 1.0 - 1.0 / k as real <= 1.0
  {
    TimesGrows(1, k, cost);
    TimesIsProduct(k, cost);
    var n := k as real;
    assert (1.0 / n) * (n * cost) == cost;
  }

  lemma FitsCount(n: nat, k: nat, cost: real, budget: real)
    requires cost > 0.0 && Times(n, cost) <= budget < Times(k + 1, cost)
    ensures n <= k && Times(n, cost) <= Times(k, cost)
  {
    if n > k {
      TimesGrows(k + 1, n, cost);
    } else {
      TimesGrows(n, k, cost);
    }
  }

  /** A selection that stopped with money left for another test covers everything there is. */
  lemma AllCovered(items: seq<Item>, budget: real, picks: seq<nat>, others: seq<nat>, cost: real)
    requires Complete(items, budget, picks) && InRange(items, others)
    requires forall i | 0 <= i < |items| :: items[i].cost == cost
    requires cost <= budget - Spent(items, picks)
    ensures Coverage(items, others) <= Coverage(items, picks)
  {
    CoveredExactly(items, others);
    forall b | b in Covered(items, others)
      ensures b in Covered(items, picks)
    {
      var i :| 0 <= i < |others| && b in items[others[i]].bits;
      assert !Eligible(items, budget, picks, others[i]);
      if others[i] in picks {
        PickedIsCovered(items, picks, others[i]);
      }
      MarginalZero(items[others[i]], Covered(items, picks));
    }
    SubsetSize(Covered(items, others), Covered(items, picks));
  }

  // ----- Exactly when zero-cost tests come first

  /** The fixed rate of zero-cost tests beats every paid test of this cost, whatever bits the two add,
      exactly when the cost exceeds 64 microseconds. */
  lemma ZeroCostRuleExact(cost: real)
    requires cost > 0.0
    ensures (forall paid: nat, free: nat | paid <= 64 && free >= 1 :: Rate(free, 0.0) > Rate(paid, cost))
       <==> cost * 1000000.0 > 64.0
  {
    if cost * 1000000.0 > 64.0 {
      forall paid: nat, free: nat | paid <= 64 && free >= 1
        ensures Rate(free, 0.0) > Rate(paid, cost)
      {
        FreeBeatsPaid(paid as real, cost, free as real);
      }
    } else {
      var r := Rate(64, cost);
      assert r * cost == 64.0;
      SignOfFactor(r - 1000000.0, cost);
      assert !(Rate(1, 0.0) > r);
    }
  }

  lemma SignOfFactor(x: real, c: real)
    requires c > 0.0 && x * c >= 0.0
    ensures x >= 0.0
  {
  }

  /** A free test of one bit, and a paid one of 64 bits whose name comes first. */
  ghost predicate FreeAndWide(free: Item, paid: Item, cost: real) {
    && free.cost == 0.0 && |free.bits| == 1 && paid.cost == cost > 0.0 && |paid.bits| == 64
    && Less(paid.name, free.name)
  }

  /** Of two affordable tests that both add bits, the second is picked when it is preferred. */
  lemma PickOfTwo(a: Item, b: Item, budget: real)
    requires Marginal(b, {}) > 0 && b.cost <= budget
    requires Ratio(b, {}) > Ratio(a, {}) || (Ratio(b, {}) == Ratio(a, {}) && Less(b.name, a.name))
    ensures IsPick([a, b], budget, [], 1)
  {
    assert [a, b][0] == a && [a, b][1] == b;
  }

  lemma WideRate(cost: real)
    requires cost > 0.0 && cost * 1000000.0 <= 64.0
    ensures Rate(64, cost) >= Rate(1, 0.0)
  {
    var r := Rate(64, cost);
    assert r * cost == 64.0;
    SignOfFactor(r - 1000000.0, cost);
  }

  /** At or below 64 microseconds the paid test is picked; at the boundary because of its name. */
  lemma PaidIsPicked(free: Item, paid: Item, cost: real)
    requires FreeAndWide(free, paid, cost) && cost * 1000000.0 <= 64.0
    ensures IsPick([free, paid], cost, [], 1)
  {
    assert free.bits - {} == free.bits && paid.bits - {} == paid.bits;
    WideRate(cost);
    PickOfTwo(free, paid, cost);
  }

  lemma PaidPaysNothing(free: Item, paid: Item, cost: real)
    requires FreeAndWide(free, paid, cost)
    ensures Spent([free, paid], [0]) == 0.0 && !PaysItsShare([free, paid], [], 1, [0], 0.0)
  {
    var items := [free, paid];
    assert [0][..0] == [];
    assert Covered(items, [0]) == {} + free.bits == free.bits;
    TimesIsProduct(Marginal(paid, {}), 0.0);
    TimesIsProduct(1, cost);
    TimesIsProduct(0, cost);
  }

  /** The step inequality, for one pick and one set of other tests. */
  ghost predicate StepHolds(items: seq<Item>, budget: real, picks: seq<nat>, p: nat, others: seq<nat>, bound: real) {
    && InRange(items, picks) && InRange(items, others) && IsPick(items, budget, picks, p)
    && Spent(items, others) <= bound && NoneSkipped(items, budget, picks, others)
    ==> PaysItsShare(items, picks, p, others, bound)
  }

  /** Tests that are free or cost `cost`, with feature words of 64 bits. */
  ghost predicate FreeOrPaid(items: seq<Item>, cost: real) {
    forall i | 0 <= i < |items| :: |items[i].bits| <= 64 && (items[i].cost == 0.0 || items[i].cost == cost)
  }

  /** At every cost of at most 64 microseconds the step inequality fails: against the free test alone,
      which costs nothing, the paid pick gains nothing for its price. */
  lemma TinyCostsBreakTheBound(free: Item, paid: Item, cost: real)
    requires FreeAndWide(free, paid, cost) && cost * 1000000.0 <= 64.0
    ensures !StepHolds([free, paid], cost, [], 1, [0], 0.0)
  {
    PaidIsPicked(free, paid, cost);
    PaidPaysNothing(free, paid, cost);
  }

  lemma SomeWideTest(n: nat, cost: real) returns (free: Item, paid: Item)
    requires n == 64 && cost > 0.0
    ensures FreeAndWide(free, paid, cost)
  {
    BelowSize(n);
    free, paid := Item("b", {0}, 0.0), Item("a", Below(n), cost);
  }

  lemma StepHoldsAbove(items: seq<Item>, budget: real, picks: seq<nat>, p: nat, others: seq<nat>, bound: real,
                       cost: real)
    requires FreeOrPaid(items, cost) && cost * 1000000.0 > 64.0
    ensures StepHolds(items, budget, picks, p, others, bound)
  {
    assert CostsSeparated(items);
    if && InRange(items, picks) && InRange(items, others) && IsPick(items, budget, picks, p)
       && Spent(items, others) <= bound && NoneSkipped(items, budget, picks, others) {
      StepBound(items, budget, picks, p, others, bound);
    }
  }

  /** For tests that are free or cost `cost`, the step inequality holds at every pick against every set
      exactly when the cost exceeds 64 microseconds. */
  lemma StepBoundExact(cost: real)
    requires cost > 0.0
    ensures (forall items, budget, picks, p, others, bound | FreeOrPaid(items, cost) ::
               StepHolds(items, budget, picks, p, others, bound))
       <==> cost * 1000000.0 > 64.0
  {
    if cost * 1000000.0 > 64.0 {
      forall items, budget, picks, p, others, bound | FreeOrPaid(items, cost)
        ensures StepHolds(items, budget, picks, p, others, bound)
      {
        StepHoldsAbove(items, budget, picks, p, others, bound, cost);
      }
    } else {
      var free, paid := SomeWideTest(64, cost);
      TinyCostsBreakTheBound(free, paid, cost);
      assert FreeOrPaid([free, paid], cost);
    }
  }
}
