/** Budgeted test selection (src/budget.rs): the loops that choose the tests and the statistics they
    print, on 64-bit feature words, proved to follow the greedy rule of `Selection`. */
module Budget {
  import opened Words
  import opened Ordering
  import opened Selection

  datatype Candidate = Candidate(name: string, features: bv64, cost: real)

  datatype Stats = Stats(selected: nat, total: nat, used: real, budget: real, covered: nat, possible: nat)

  /** The candidates with their feature words read as sets of bits. */
  function View(cands: seq<Candidate>): (items: seq<Item>)
    ensures |items| == |cands|
    ensures forall i | 0 <= i < |cands| :: items[i] == Item(cands[i].name, Bits(cands[i].features), cands[i].cost)
  {
    seq(|cands|, i requires 0 <= i < |cands| => Item(cands[i].name, Bits(cands[i].features), cands[i].cost))
  }

  lemma CoverageBound(cands: seq<Candidate>, picks: seq<nat>)
    requires InRange(View(cands), picks)
    ensures Coverage(View(cands), picks) <= 64
  {
    CoveredExactly(View(cands), picks);
    BelowSize(64);
    SubsetSize(Covered(View(cands), picks), Below(64));
  }

  /** One scan over the candidates: the preferred eligible one, if any. */
  method Scan(cands: seq<Candidate>, budget: real, used: seq<bool>, covered: bv64, left: real, ghost picks: seq<nat>)
    returns (found: bool, best: nat)
    requires InRange(View(cands), picks) && |used| == |cands|
    requires forall i | 0 <= i < |cands| :: used[i] <==> i in picks
    requires Bits(covered) == Covered(View(cands), picks) && left == budget - Spent(View(cands), picks)
    ensures found ==> IsPick(View(cands), budget, picks, best)
    ensures !found ==> forall i: nat :: !Eligible(View(cands), budget, picks, i)
  {
    found, best := false, 0;
    var bestRatio, bestName := 0.0, "";
    ghost var items, bits := View(cands), Covered(View(cands), picks);
    for i := 0 to |cands|
      invariant !found ==> bestRatio == 0.0 && NoneBelow(items, budget, picks, i)
      invariant found ==> best < i && BestBelow(items, budget, picks, i, best)
      invariant found ==> bestRatio == Ratio(items[best], bits) && bestName == items[best].name
    {
      var c := cands[i];
      if used[i] || c.cost > left {
        BestStays(items, budget, picks, i, best);
        continue;
      }
      var marginal := CountMissing(c.features, covered);
      if marginal == 0 {
        BestStays(items, budget, picks, i, best);
        continue;
      }
      var ratio := Rate(marginal, c.cost);
      RatioPositive(items[i], bits);
      var better := ratio > bestRatio || (ratio == bestRatio && Less(c.name, bestName));
      if better {
        BestChanges(items, budget, picks, i, best);
        bestRatio, found, best, bestName := ratio, true, i, c.name;
      } else {
        BestStays(items, budget, picks, i, best);
      }
    }
  }

  /** Choose the tests to run. `picks` is the order in which the loop took them. */
  method Select(cands: seq<Candidate>, budget: real) returns (selected: seq<nat>, ghost picks: seq<nat>)
    ensures IsSelection(View(cands), budget, picks)
    ensures StrictlyAscending(selected)
    ensures multiset(selected) == multiset(picks)
  {
    if |cands| == 0 || budget <= 0.0 {
      return [], [];
    }
    selected := [];
    var used := seq(|cands|, _ => false);
    var covered: bv64 := 0;
    BitsZero();
    var left := budget;
    while true
      invariant Greedy(View(cands), budget, selected)
      invariant |used| == |cands|
      invariant forall i | 0 <= i < |cands| :: used[i] <==> i in selected
      invariant Bits(covered) == Covered(View(cands), selected) && left == budget - Spent(View(cands), selected)
      decreases 64 - CountOnes(covered)
    {
      var found, i := Scan(cands, budget, used, covered, left, selected);
      if !found {
        break;
      }
      CoveredStep(View(cands), selected, i);
      GreedyStep(View(cands), budget, selected, i);
      selected := selected + [i];
      used := used[i := true];
      covered := Or(covered, cands[i].features);
      CountOnesBound(covered);
      left := left - cands[i].cost;
    }
    picks := selected;
    GreedyDistinct(View(cands), budget, picks);
    SortedDistinct(picks);
    selected := Sorted(selected);
  }

  lemma PrefixStep(cands: seq<Candidate>, picks: seq<nat>, k: nat)
    requires InRange(View(cands), picks) && k < |picks|
    ensures Covered(View(cands), picks[..k + 1]) == Covered(View(cands), picks[..k]) + Bits(cands[picks[k]].features)
    ensures Spent(View(cands), picks[..k + 1]) == Spent(View(cands), picks[..k]) + cands[picks[k]].cost
  {
    assert picks[..k + 1] == picks[..k] + [picks[k]];
    CoveredStep(View(cands), picks[..k], picks[k]);
  }

  lemma AllStep(cands: seq<Candidate>, i: nat)
    requires i < |cands|
    ensures Covered(View(cands), All(i + 1)) == Covered(View(cands), All(i)) + Bits(cands[i].features)
  {
    assert All(i + 1) == All(i) + [i];
    CoveredStep(View(cands), All(i), i);
  }

  /** Coverage statistics of a selection. */
  method SelectionStats(cands: seq<Candidate>, selected: seq<nat>, budget: real) returns (stats: Stats)
    requires InRange(View(cands), selected)
    ensures stats.selected == |selected| && stats.total == |cands| && stats.budget == budget
    ensures stats.used == Spent(View(cands), selected)
    ensures stats.covered == Coverage(View(cands), selected)
    ensures stats.possible == Coverage(View(cands), All(|cands|))
  {
    var covered: bv64 := 0;
    var used := 0.0;
    BitsZero();
    for k := 0 to |selected|
      invariant Bits(covered) == Covered(View(cands), selected[..k]) && used == Spent(View(cands), selected[..k])
    {
      PrefixStep(cands, selected, k);
      covered := Or(covered, cands[selected[k]].features);
      used := used + cands[selected[k]].cost;
    }
    assert selected[..|selected|] == selected;
    var all: bv64 := 0;
    for i := 0 to |cands|
      invariant Bits(all) == Covered(View(cands), All(i))
    {
      AllStep(cands, i);
      all := Or(all, cands[i].features);
    }
    stats := Stats(|selected|, |cands|, used, budget, CountOnes(covered), CountOnes(all));
  }

  lemma SameElements(a: seq<nat>, b: seq<nat>)
    requires multiset(a) == multiset(b)
    ensures |a| == |b| && forall i :: i in a <==> i in b
  {
    assert |multiset(a)| == |multiset(b)|;
    assert forall i :: i in a <==> i in multiset(a);
    assert forall i :: i in b <==> i in multiset(b);
  }

  /** The statistics of a selection are the loop's own cost and coverage: the money used is the
      budget minus what the loop had left, and no affordable test could raise the coverage. */
  method SelectWithStats(cands: seq<Candidate>, budget: real) returns (selected: seq<nat>, stats: Stats)
    ensures InRange(View(cands), selected)
    ensures stats.used == Spent(View(cands), selected)
    ensures if budget <= 0.0 then selected == [] else stats.used <= budget
    ensures stats.selected == |selected| <= stats.covered <= stats.possible <= 64
    ensures budget > 0.0 ==> forall i: nat | i < |cands| && i !in selected ::
              cands[i].cost > budget - stats.used || Bits(cands[i].features) <= Covered(View(cands), selected)
  {
    ghost var picks;
    selected, picks := Select(cands, budget);
    SelectionSoundAndMaximal(View(cands), budget, picks);
    CoverageBound(cands, All(|cands|));
    OrderOfPicksIrrelevant(View(cands), picks, selected);
    SameElements(selected, picks);
    stats := SelectionStats(cands, selected, budget);
  }
}
