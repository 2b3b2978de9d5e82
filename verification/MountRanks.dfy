/** The scan of the mount table without its text (src/flock.rs): an entry is a mount point, the components
    and the length the scan reads of it, and the length of the whole. When an entry is misread, some path
    is looked up wrongly, whatever the other entries are. */
module MountRanks {
  import opened Text
  import opened MountTable

  datatype Entry = Entry(point: seq<string>, comps: seq<string>, len: nat, full: nat)

  ghost predicate CoversPath(e: Entry, path: seq<string>) {
    ["/"] + e.point <= path
  }

  function ScoreOn(e: Entry, path: seq<string>): (r: Option<nat>) {
    if e.comps <= path then Some(e.len) else None
  }

  function ScoresOn(es: seq<Entry>, path: seq<string>): (scores: seq<Option<nat>>)
    ensures |scores| == |es| && forall i | 0 <= i < |es| :: scores[i] == ScoreOn(es[i], path)
  {
    if es == [] then [] else ScoresOn(es[..|es| - 1], path) + [ScoreOn(es[|es| - 1], path)]
  }

  /** The deepest covering entry, the first of them when stacked. */
  ghost predicate Deepest(es: seq<Entry>, path: seq<string>, i: nat) {
    && i < |es| && CoversPath(es[i], path)
    && forall j: nat | j < |es| && CoversPath(es[j], path) ::
         |es[j].point| < |es[i].point| || (es[j].point == es[i].point && i <= j)
  }

  /** The first greatest score is the deepest covering entry, and there is none exactly when nothing covers. */
  ghost predicate LooksUp(es: seq<Entry>, path: seq<string>) {
    && (forall best: nat | IsFirstMax(ScoresOn(es, path), |es|, best) :: Deepest(es, path, best))
    && (NoScore(ScoresOn(es, path), |es|) <==> forall i: nat | i < |es| :: !CoversPath(es[i], path))
  }

  /** What is read is a function of the point, is no longer than the point, and the root is read as itself. */
  ghost predicate Coherent(es: seq<Entry>) {
    && (forall i, j | 0 <= i < |es| && 0 <= j < |es| && es[i].point == es[j].point :: es[i] == es[j])
    && (forall i | 0 <= i < |es| :: es[i].len <= es[i].full)
    && (forall i | 0 <= i < |es| && es[i].point == [] :: es[i].comps == ["/"] && es[i].len == 1)
  }

  lemma {:induction false} SomeFirstMax(scores: seq<Option<nat>>, n: nat) returns (best: nat)
    requires n <= |scores| && !NoScore(scores, n)
    ensures IsFirstMax(scores, n, best)
  {
    if NoScore(scores, n - 1) {
      best := n - 1;
    } else {
      best := SomeFirstMax(scores, n - 1);
      if scores[n - 1].Some? && scores[n - 1].value > scores[best].value {
        best := n - 1;
      }
    }
  }

  /** A correct lookup of a path for which entry i scores: the entry found covers the path and does not
      score less. */
  lemma FoundFor(es: seq<Entry>, path: seq<string>, i: nat) returns (best: nat)
    requires i < |es| && es[i].comps <= path && LooksUp(es, path)
    ensures IsFirstMax(ScoresOn(es, path), |es|, best) && Deepest(es, path, best)
    ensures es[best].comps <= path && es[best].len >= es[i].len && (es[best].len == es[i].len ==> best <= i)
  {
    var scores := ScoresOn(es, path);
    assert scores[i].Some?;
    best := SomeFirstMax(scores, |es|);
    assert scores[best] == ScoreOn(es[best], path);
  }

  // ----- Three ways of being misread

  /** Read as something that outscores every entry covering it. */
  ghost predicate Outscores(es: seq<Entry>, i: nat)
    requires i < |es|
  {
    forall j | 0 <= j < |es| && CoversPath(es[j], es[i].comps) :: es[j].full < es[i].len
  }

  lemma OutscoringIsWrong(es: seq<Entry>, i: nat)
    requires Coherent(es) && i < |es| && Outscores(es, i)
    ensures !LooksUp(es, es[i].comps)
  {
    if LooksUp(es, es[i].comps) {
      var best := FoundFor(es, es[i].comps, i);
    }
  }

  /** Read as something that is not above its own point. */
  lemma StrayIsWrong(es: seq<Entry>, i: nat)
    requires Coherent(es) && i < |es| && !(es[i].comps <= ["/"] + es[i].point)
    ensures !LooksUp(es, ["/"] + es[i].point)
  {
    var path := ["/"] + es[i].point;
    if LooksUp(es, path) {
      assert CoversPath(es[i], path);
      assert !NoScore(ScoresOn(es, path), |es|);
      var best := SomeFirstMax(ScoresOn(es, path), |es|);
      assert Deepest(es, path, best);
      SameDepth(es, i, best);
    }
  }

  /** The deepest entry covering an entry's own point is that entry or a copy of it. */
  lemma SameDepth(es: seq<Entry>, i: nat, best: nat)
    requires Coherent(es) && i < |es| && Deepest(es, ["/"] + es[i].point, best)
    ensures es[best] == es[i]
  {
    var path := ["/"] + es[i].point;
    assert CoversPath(es[i], path);
    assert |["/"] + es[best].point| <= |path|;
    assert |es[best].point| == |es[i].point|;
    assert es[best].point == path[1..] == es[i].point;
  }

  /** Read as the root. */
  lemma RootlikeIsWrong(es: seq<Entry>, i: nat)
    requires Coherent(es) && i < |es| && es[i].point != [] && es[i].comps == ["/"] && es[i].len == 1
    ensures !LooksUp(es, ["/"]) || !LooksUp(es, ["/"] + es[i].point)
  {
    var path := ["/"] + es[i].point;
    if LooksUp(es, ["/"]) && LooksUp(es, path) {
      var root := FoundFor(es, ["/"], i);
      assert es[root].point == [] by {
        assert |["/"] + es[root].point| <= 1;
      }
      var best := FoundFor(es, path, root);
      SameDepth(es, i, best);
    }
  }
}
