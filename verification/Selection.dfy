/** Cost-effective greedy covering, the rule behind src/budget.rs, over items that carry their
    feature bits as sets. `Budget` runs it on 64-bit words. Seconds are reals. */
module Selection {
  import opened Words
  import opened Ordering

  datatype Item = Item(name: string, bits: set<nat>, cost: real)

  // ----- What a list of picks has covered and spent

  ghost predicate InRange(items: seq<Item>, picks: seq<nat>) {
    forall k | 0 <= k < |picks| :: picks[k] < |items|
  }

  /** The feature bits of the picks, together. */
  function Covered(items: seq<Item>, picks: seq<nat>): (s: set<nat>)
    requires InRange(items, picks)
  {
    if picks == [] then {}
    else Covered(items, picks[..|picks| - 1]) + items[picks[|picks| - 1]].bits
  }

  function Spent(items: seq<Item>, picks: seq<nat>): (c: real)
    requires InRange(items, picks)
  {
    if picks == [] then 0.0
    else Spent(items, picks[..|picks| - 1]) + items[picks[|picks| - 1]].cost
  }

  /** The number of feature bits the picks cover. */
  function Coverage(items: seq<Item>, picks: seq<nat>): (n: nat)
    requires InRange(items, picks)
  {
    |Covered(items, picks)|
  }

  // ----- The greedy rule

  /** How many bits an item would add to `covered`. */
  function Marginal(c: Item, covered: set<nat>): (n: nat) {
    |c.bits - covered|
  }

  /** Marginal bits per second; a zero-cost test gets a fixed large rate. */
  function Rate(marginal: nat, cost: real): (r: real) {
    if cost > 0.0 then marginal as real / cost else marginal as real * 1000000.0
  }

  function Ratio(c: Item, covered: set<nat>): (r: real) {
    Rate(Marginal(c, covered), c.cost)
  }

  ghost predicate Eligible(items: seq<Item>, budget: real, picks: seq<nat>, i: nat)
    requires InRange(items, picks)
  {
    && i < |items|
    && i !in picks
    && items[i].cost <= budget - Spent(items, picks)
    && Marginal(items[i], Covered(items, picks)) > 0
  }

  /** `i` is preferred to `j`: higher ratio, then smaller name, then earlier position. */
  ghost predicate Preferred(items: seq<Item>, covered: set<nat>, i: nat, j: nat)
    requires i < |items| && j < |items|
  {
    var ri, rj := Ratio(items[i], covered), Ratio(items[j], covered);
    || ri > rj
    || (ri == rj && (Less(items[i].name, items[j].name) || (items[i].name == items[j].name && i < j)))
  }

  ghost predicate IsPick(items: seq<Item>, budget: real, picks: seq<nat>, i: nat)
    requires InRange(items, picks)
  {
    && Eligible(items, budget, picks, i)
    && forall j: nat | j != i && Eligible(items, budget, picks, j) :: Preferred(items, Covered(items, picks), i, j)
  }

  /** Every pick is the preferred eligible item at its turn. */
  ghost predicate Greedy(items: seq<Item>, budget: real, picks: seq<nat>) {
    && InRange(items, picks)
    && forall k | 0 <= k < |picks| :: IsPick(items, budget, picks[..k], picks[k])
  }

  /** A greedy run that stopped because nothing was eligible. */
  ghost predicate Complete(items: seq<Item>, budget: real, picks: seq<nat>) {
    && Greedy(items, budget, picks)
    && forall i: nat :: !Eligible(items, budget, picks, i)
  }

  /** The picks behind a result of `Select`: none without a budget, else a complete greedy run. */
  ghost predicate IsSelection(items: seq<Item>, budget: real, picks: seq<nat>) {
    if budget <= 0.0 then picks == [] else Complete(items, budget, picks)
  }

  // ----- Bits of coverage

  lemma CoveredStep(items: seq<Item>, picks: seq<nat>, i: nat)
    requires InRange(items, picks) && i < |items|
    ensures InRange(items, picks + [i])
    ensures Covered(items, picks + [i]) == Covered(items, picks) + items[i].bits
    ensures Spent(items, picks + [i]) == Spent(items, picks) + items[i].cost
    ensures Coverage(items, picks + [i]) == Coverage(items, picks) + Marginal(items[i], Covered(items, picks))
  {
    assert (picks + [i])[..|picks|] == picks;
    var c, f := Covered(items, picks), items[i].bits;
    assert c + f == c + (f - c);
  }

  /** The covered bits are those of some pick. */
  lemma {:induction false} CoveredExactly(items: seq<Item>, picks: seq<nat>)
    requires InRange(items, picks)
    ensures Covered(items, picks) == set i, b | 0 <= i < |picks| && b in items[picks[i]].bits :: b
  {
    if picks != [] {
      CoveredExactly(items, picks[..|picks| - 1]);
    }
  }

  lemma PickedIsCovered(items: seq<Item>, picks: seq<nat>, i: nat)
    requires InRange(items, picks) && i in picks
    ensures items[i].bits <= Covered(items, picks)
    ensures Marginal(items[i], Covered(items, picks)) == 0
  {
    CoveredExactly(items, picks);
    assert items[i].bits - Covered(items, picks) == {};
  }

  lemma MarginalZero(c: Item, covered: set<nat>)
    ensures Marginal(c, covered) == 0 <==> c.bits <= covered
  {
    if c.bits <= covered {
      assert c.bits - covered == {};
    } else {
      var b :| b in c.bits && b !in covered;
      assert b in c.bits - covered;
    }
  }

  lemma RatioPositive(c: Item, covered: set<nat>)
    requires Marginal(c, covered) > 0
    ensures Ratio(c, covered) > 0.0
  {
  }

  ghost predicate NoneBelow(items: seq<Item>, budget: real, picks: seq<nat>, n: nat)
    requires InRange(items, picks)
  {
    forall j: nat | j < n :: !Eligible(items, budget, picks, j)
  }

  /** `best` is the preferred eligible item among the first `n`. */
  ghost predicate BestBelow(items: seq<Item>, budget: real, picks: seq<nat>, n: nat, best: nat)
    requires InRange(items, picks)
  {
    && best < n
    && Eligible(items, budget, picks, best)
    && forall j: nat | j < n && j != best && Eligible(items, budget, picks, j) ::
         Preferred(items, Covered(items, picks), best, j)
  }

  /** An item that is not eligible, or not better, leaves the best one in place. */
  lemma {:induction false} BestStays(items: seq<Item>, budget: real, picks: seq<nat>, i: nat, best: nat)
    requires InRange(items, picks) && i < |items|
    ensures !Eligible(items, budget, picks, i) && NoneBelow(items, budget, picks, i) ==>
              NoneBelow(items, budget, picks, i + 1)
    ensures !Eligible(items, budget, picks, i) && BestBelow(items, budget, picks, i, best) ==>
              BestBelow(items, budget, picks, i + 1, best)
    ensures BestBelow(items, budget, picks, i, best) && !Better(items, Covered(items, picks), i, best) ==>
              BestBelow(items, budget, picks, i + 1, best)
  {
    if best < i {
      LessTrichotomy(items[i].name, items[best].name);
    }
  }

  /** The scan's test: strictly higher ratio, or the same ratio and a smaller name. */
  ghost predicate Better(items: seq<Item>, covered: set<nat>, i: nat, best: nat)
    requires i < |items| && best < |items|
  {
    var ri, rb := Ratio(items[i], covered), Ratio(items[best], covered);
    ri > rb || (ri == rb && Less(items[i].name, items[best].name))
  }

  /** A better eligible item takes over, from a previous best or as the first one. */
  lemma {:induction false} BestChanges(items: seq<Item>, budget: real, picks: seq<nat>, i: nat, best: nat)
    requires InRange(items, picks) && Eligible(items, budget, picks, i)
    ensures NoneBelow(items, budget, picks, i) ==> BestBelow(items, budget, picks, i + 1, i)
    ensures BestBelow(items, budget, picks, i, best) && Better(items, Covered(items, picks), i, best) ==>
              BestBelow(items, budget, picks, i + 1, i)
  {
    if BestBelow(items, budget, picks, i, best) && Better(items, Covered(items, picks), i, best) {
      forall j: nat | j < i && j != best && Eligible(items, budget, picks, j)
        ensures Preferred(items, Covered(items, picks), i, j)
      {
        if Less(items[i].name, items[best].name) && Less(items[best].name, items[j].name) {
          LessTransitive(items[i].name, items[best].name, items[j].name);
        }
      }
    }
  }

  lemma GreedyStep(items: seq<Item>, budget: real, picks: seq<nat>, i: nat)
    requires Greedy(items, budget, picks) && IsPick(items, budget, picks, i)
    ensures Greedy(items, budget, picks + [i])
  {
    var next := picks + [i];
    forall k | 0 <= k < |next|
      ensures IsPick(items, budget, next[..k], next[k])
    {
      assert next[..k] == picks[..k];
      assert k == |picks| ==> picks[..k] == picks;
    }
  }

  lemma GreedyPrefix(items: seq<Item>, budget: real, picks: seq<nat>, k: nat)
    requires Greedy(items, budget, picks) && k <= |picks|
    ensures Greedy(items, budget, picks[..k])
  {
    forall m | 0 <= m < k
      ensures IsPick(items, budget, picks[..k][..m], picks[..k][m])
    {
      assert picks[..k][..m] == picks[..m];
    }
  }

  lemma GreedyDistinct(items: seq<Item>, budget: real, picks: seq<nat>)
    requires Greedy(items, budget, picks)
    ensures Distinct(picks)
  {
    forall i, j | 0 <= i < j < |picks|
      ensures picks[i] != picks[j]
    {
      assert IsPick(items, budget, picks[..j], picks[j]);
      assert picks[..j][i] == picks[i];
    }
  }

  /** The last pick was affordable and useful when it was taken. */
  lemma LastPick(items: seq<Item>, budget: real, picks: seq<nat>)
    requires Greedy(items, budget, picks) && picks != []
    ensures var q, i := picks[..|picks| - 1], picks[|picks| - 1];
      picks == q + [i] && InRange(items, q) && IsPick(items, budget, q, i) && Eligible(items, budget, q, i)
  {
    assert IsPick(items, budget, picks[..|picks| - 1], picks[|picks| - 1]);
  }

  // ----- Soundness, maximality and the bound on the number of picks

  /** The cost stays within the budget and each pick pays for itself with at least one new bit. */
  lemma {:induction false} GreedySound(items: seq<Item>, budget: real, picks: seq<nat>)
    requires Greedy(items, budget, picks)
    requires budget >= 0.0
    ensures Spent(items, picks) <= budget
    ensures |picks| <= Coverage(items, picks)
  {
    if picks != [] {
      var q, i := picks[..|picks| - 1], picks[|picks| - 1];
      GreedyPrefix(items, budget, picks, |q|);
      GreedySound(items, budget, q);
      LastPick(items, budget, picks);
      CoveredStep(items, q, i);
    }
  }

  /** The indices `0 .. n-1`. */
  function All(n: nat): (s: seq<nat>)
    ensures |s| == n && forall i | 0 <= i < n :: s[i] == i
  {
    seq(n, i => i)
  }

  lemma CoverageMonotone(items: seq<Item>, a: seq<nat>, b: seq<nat>)
    requires InRange(items, a) && InRange(items, b)
    requires forall i | i in a :: i in b
    ensures Covered(items, a) <= Covered(items, b)
    ensures Coverage(items, a) <= Coverage(items, b)
  {
    CoveredExactly(items, a);
    CoveredExactly(items, b);
    forall bit | bit in Covered(items, a)
      ensures bit in Covered(items, b)
    {
      var i :| 0 <= i < |a| && bit in items[a[i]].bits;
      PickedIsCovered(items, b, a[i]);
    }
    SubsetSize(Covered(items, a), Covered(items, b));
  }

  /** A selection stays within budget, cannot be extended by any affordable test that adds a bit,
      and is no longer than the number of feature bits there are to cover. Without a budget it is empty. */
  lemma SelectionSoundAndMaximal(items: seq<Item>, budget: real, picks: seq<nat>)
    requires IsSelection(items, budget, picks)
    ensures InRange(items, picks) && Distinct(picks)
    ensures if budget <= 0.0 then picks == [] else Spent(items, picks) <= budget
    ensures budget > 0.0 ==> forall i: nat | i < |items| && i !in picks ::
              items[i].cost > budget - Spent(items, picks) || items[i].bits <= Covered(items, picks)
    ensures |picks| <= Coverage(items, picks) <= Coverage(items, All(|items|))
  {
    if budget > 0.0 {
      GreedySound(items, budget, picks);
      GreedyDistinct(items, budget, picks);
      forall i: nat | i < |items| && i !in picks && items[i].cost <= budget - Spent(items, picks)
        ensures items[i].bits <= Covered(items, picks)
      {
        assert !Eligible(items, budget, picks, i);
        MarginalZero(items[i], Covered(items, picks));
      }
    }
    assert forall i | i in picks :: All(|items|)[i] == i;
    CoverageMonotone(items, picks, All(|items|));
  }

  // ----- Statistics

  lemma {:induction false} MoveToEnd(items: seq<Item>, a: seq<nat>, x: nat, b: seq<nat>)
    requires InRange(items, a) && x < |items| && InRange(items, b)
    ensures InRange(items, a + [x] + b) && InRange(items, a + b)
    ensures Spent(items, a + [x] + b) == Spent(items, a + b) + items[x].cost
  {
    if b == [] {
      assert a + [x] + b == a + [x] && a + b == a;
      CoveredStep(items, a, x);
    } else {
      var n := |b| - 1;
      MoveToEnd(items, a, x, b[..n]);
      assert b == b[..n] + [b[n]];
      assert a + [x] + b == (a + [x] + b[..n]) + [b[n]];
      assert a + b == (a + b[..n]) + [b[n]];
      CoveredStep(items, a + [x] + b[..n], b[n]);
      CoveredStep(items, a + b[..n], b[n]);
    }
  }

  /** Covered bits and cost do not depend on the order of the picks. */
  lemma OrderOfPicksIrrelevant(items: seq<Item>, a: seq<nat>, b: seq<nat>)
    requires InRange(items, a) && multiset(a) == multiset(b)
    ensures InRange(items, b)
    ensures Covered(items, a) == Covered(items, b) && Spent(items, a) == Spent(items, b)
  {
    assert forall i :: i in a <==> i in multiset(a);
    assert forall i :: i in b <==> i in multiset(b);
    assert forall k | 0 <= k < |b| :: b[k] in a;
    CoverageMonotone(items, a, b);
    CoverageMonotone(items, b, a);
    SpentPermutes(items, a, b);
  }

  lemma {:induction false} SpentPermutes(items: seq<Item>, a: seq<nat>, b: seq<nat>)
    requires InRange(items, a) && InRange(items, b) && multiset(a) == multiset(b)
    ensures Spent(items, a) == Spent(items, b)
  {
    if a == [] {
      assert |multiset(b)| == 0;
    } else {
      var c, d := PermutationSplit(a, b);
      assert c == b[..|c|] && d == b[|c| + 1..];
      SpentPermutes(items, a[..|a| - 1], c + d);
      MoveToEnd(items, c, a[|a| - 1], d);
    }
  }
}
