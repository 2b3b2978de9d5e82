/** The mount table lookup, table by table (src/flock.rs): it is right for every path if and only if no
    mount point has white space left in it after the kernel's escaping. */
module MountExact {
  import opened Text
  import opened MountTable
  import opened MountSpaces
  import opened MountRanks

  // ----- What is read of a mount point

  lemma {:induction false} CutPart(c: string, tail: string)
    ensures var s := "/" + (c + tail);
      if Cut(c) < |c| then CutText(s) == "/" + c[..Cut(c)]
      else CutText(s) == "/" + (c + CutText(tail)) && (Cut(s) < |s| <==> Cut(tail) < |tail|)
  {
    CutOfJoined(c, tail);
    CutSlash(c + tail);
  }

  lemma {:induction false} CutSlash(t: string)
    ensures Cut("/" + t) == 1 + Cut(t) && CutText("/" + t) == "/" + CutText(t)
  {
    assert ("/" + t)[1..] == t;
  }

  /** Whole components, then a part of the next one, up to its left-over white space. */
  lemma {:induction false} ReadOfSlashed(point: seq<string>) returns (n: nat, k: nat)
    requires Cut(Slashed(point)) < |Slashed(point)|
    ensures n < |point| && k < |point[n]|
    ensures CutText(Slashed(point)) == Slashed(point[..n] + [point[n][..k]])
  {
    var c, rest := point[0], point[1..];
    SlashedStep(point);
    CutPart(c, Slashed(rest));
    if Cut(c) < |c| {
      n, k := 0, Cut(c);
      SlashedOne(c[..k]);
      assert point[..0] + [c[..k]] == [c[..k]];
    } else {
      var m;
      m, k := ReadOfSlashed(rest);
      n := m + 1;
      assert point[..n] + [point[n][..k]] == [c] + (rest[..m] + [rest[m][..k]]);
      SlashedCons(c, rest[..m] + [rest[m][..k]]);
    }
  }

  lemma SlashedCons(c: string, rest: seq<string>)
    ensures Slashed([c] + rest) == "/" + (c + Slashed(rest))
  {
    SlashedStep([c] + rest);
    assert ([c] + rest)[1..] == rest;
  }

  function EntryOf(point: seq<string>): (e: Entry) {
    Entry(point, Components(ReadText(point)), Utf8Len(ReadText(point)), Utf8Len(PrintPoint(point)))
  }

  function Entries(table: seq<Mount>): (es: seq<Entry>) {
    seq(|table|, i requires 0 <= i < |table| => EntryOf(table[i].point))
  }

  // ----- Entries of a table

  /** A point that covers another path's prefix is no longer than it. */
  lemma PrefixIsNotLonger(p: seq<string>, q: seq<string>)
    requires ValidPoint(q) && p <= q
    ensures Utf8Len(PrintPoint(p)) <= Utf8Len(PrintPoint(q))
  {
    if p != q {
      DeeperIsLonger(p, q);
    }
  }

  lemma RootEntry()
    ensures EntryOf([]) == Entry([], ["/"], 1, 1)
  {
    assert Cut("/") == 1 by {
      assert "/"[1..] == "";
    }
    assert CutText("/") == "/";
    ComponentsOfPoint([]);
    assert ["/"] + [] == ["/"];
    assert Utf8Len("/") == 1 by {
      assert "/"[..0] == "";
    }
  }

  lemma ReadIsNotLonger(point: seq<string>)
    ensures EntryOf(point).len <= EntryOf(point).full
  {
    var text := PrintPoint(point);
    assert text == CutText(text) + text[Cut(text)..];
    Utf8LenAdds(CutText(text), text[Cut(text)..]);
  }

  lemma EntriesCohere(table: seq<Mount>)
    ensures Coherent(Entries(table))
  {
    RootEntry();
    forall i | 0 <= i < |table|
      ensures Entries(table)[i].len <= Entries(table)[i].full
    {
      ReadIsNotLonger(table[i].point);
    }
  }

  /** How a point with left-over white space is read: as the root, as something not above it, or as
      something above it that is longer than the point it names. */
  lemma Misread(point: seq<string>) returns (n: nat)
    requires ValidPoint(point) && Cut(PrintPoint(point)) < |PrintPoint(point)|
    ensures point != [] && n <= |point|
    ensures var e := EntryOf(point);
      || (e.comps == ["/"] && e.len == 1)
      || !(e.comps <= ["/"] + point)
      || (e.comps == ["/"] + point[..n] && e.len > Utf8Len(PrintPoint(point[..n])))
  {
    if point == [] {
      RootIsNotCut();
    } else {
      var k;
      n, k := ReadOfSlashed(point);
      PartIsMisread(point, n, point[n][..k], ReadText(point));
    }
  }

  lemma RootIsNotCut()
    ensures Cut("/") == |"/"|
  {
    assert "/"[1..] == "";
  }

  lemma PartIsMisread(point: seq<string>, n: nat, x: string, text: string)
    requires ValidPoint(point) && n < |point| && x < point[n] && text == Slashed(point[..n] + [x])
    ensures
      || (Components(text) == ["/"] && Utf8Len(text) == 1)
      || !(Components(text) <= ["/"] + point)
      || (Components(text) == ["/"] + point[..n] && Utf8Len(text) > Utf8Len(PrintPoint(point[..n])))
  {
    var front := point[..n];
    assert ValidComponent(point[n]);
    ComponentsOfPart(front, x);
    if x == "" || x == "." {
      assert front + [] == front;
      PartIsLonger(front, x);
    } else {
      PartIsNotAbove(point, n, x);
    }
  }

  lemma PartIsNotAbove(point: seq<string>, n: nat, x: string)
    requires n < |point| && x != point[n]
    ensures !(["/"] + (point[..n] + [x]) <= ["/"] + point)
  {
    assert (["/"] + (point[..n] + [x]))[n + 1] == x && (["/"] + point)[n + 1] == point[n];
  }

  lemma PartIsLonger(front: seq<string>, x: string)
    requires x == "" || x == "."
    ensures front == [] && x == "" ==> Utf8Len(Slashed(front + [x])) == 1 && ["/"] + front == ["/"]
    ensures front != [] || x == "." ==> Utf8Len(Slashed(front + [x])) > Utf8Len(PrintPoint(front))
  {
    LengthOfPart(front, x);
    assert Utf8Len("/") == 1 && Utf8Len(".") == 1 by {
      assert "/"[..0] == "" && "."[..0] == "";
    }
  }

  // ----- The lookup and its entries

  ghost predicate AllRestPrintable(table: seq<Mount>) {
    forall i | 0 <= i < |table| :: RestPrintable(table[i])
  }

  /** The scan of the printed table is right for a path: the line it finds is that of the deepest covering
      mount, and it finds none exactly when no mount covers the path. */
  ghost predicate RightFor(table: seq<Mount>, path: string) {
    RightScores(table, path, Scores(Lines(Print(table)), path))
  }

  ghost predicate RightScores(table: seq<Mount>, path: string, scores: seq<Option<nat>>) {
    && |scores| == |table|
    && (forall best: nat | IsFirstMax(scores, |scores|, best) :: IsDeepest(table, path, best))
    && (NoScore(scores, |scores|) <==> forall i: nat | i < |table| :: !Covers(table[i], path))
  }

  lemma LineScoreOn(line: string, m: Mount, path: string)
    requires RestPrintable(m) && line == StripCr(Head(m))
    ensures Score(line, path) == ScoreOn(EntryOf(m.point), Components(path))
  {
    var n := m.(rest := StripCr(m.rest));
    StripHead(m);
    PointRead(n);
    ScoreOfRead(line, Mounted(ReadText(m.point), m.major, m.minor), path);
  }

  lemma TableScoreAt(table: seq<Mount>, path: string, lines: seq<string>, j: nat)
    requires AllRestPrintable(table) && lines == Lines(Print(table)) && j < |table|
    ensures |lines| == |table| && Scores(lines, path)[j] == ScoreOn(EntryOf(table[j].point), Components(path))
  {
    LineOf(table, j, lines);
    LineScoreOn(lines[j], table[j], path);
    ScoreAt(lines, path, j);
  }

  lemma {:induction false} TableScores(table: seq<Mount>, path: string)
    requires AllRestPrintable(table)
    ensures Scores(Lines(Print(table)), path) == ScoresOn(Entries(table), Components(path))
  {
    var lines := Lines(Print(table));
    LinesOfTable(table, 0);
    forall j | 0 <= j < |table|
      ensures Scores(lines, path)[j] == ScoreOn(Entries(table)[j], Components(path))
    {
      TableScoreAt(table, path, lines, j);
    }
  }

  /** Depth is depth of entries. */
  lemma DepthOfEntries(table: seq<Mount>, path: string, i: nat)
    ensures IsDeepest(table, path, i) <==> Deepest(Entries(table), Components(path), i)
  {
    var es, cs := Entries(table), Components(path);
    assert forall j: nat | j < |table| :: CoversPath(es[j], cs) <==> Covers(table[j], path);
  }

  lemma RightForEntries(table: seq<Mount>, path: string)
    requires AllRestPrintable(table)
    ensures RightFor(table, path) <==> LooksUp(Entries(table), Components(path))
  {
    TableScores(table, path);
    RightScoresOfEntries(table, path, Scores(Lines(Print(table)), path));
  }

  lemma RightScoresOfEntries(table: seq<Mount>, path: string, scores: seq<Option<nat>>)
    requires scores == ScoresOn(Entries(table), Components(path))
    ensures RightScores(table, path, scores) <==> LooksUp(Entries(table), Components(path))
  {
    SameDeepest(table, path, scores);
    SameCovered(table, path);
  }

  lemma SameDeepest(table: seq<Mount>, path: string, scores: seq<Option<nat>>)
    ensures (forall best: nat | IsFirstMax(scores, |scores|, best) :: IsDeepest(table, path, best))
       <==> forall best: nat | IsFirstMax(scores, |scores|, best) :: Deepest(Entries(table), Components(path), best)
  {
    forall best: nat
      ensures IsDeepest(table, path, best) <==> Deepest(Entries(table), Components(path), best)
    {
      DepthOfEntries(table, path, best);
    }
  }

  lemma SameCovered(table: seq<Mount>, path: string)
    ensures (forall i: nat | i < |table| :: !Covers(table[i], path))
       <==> forall i: nat | i < |Entries(table)| :: !CoversPath(Entries(table)[i], Components(path))
  {
    var es, cs := Entries(table), Components(path);
    assert forall j: nat | j < |table| :: CoversPath(es[j], cs) <==> Covers(table[j], path);
  }

  // ----- Both directions

  lemma ScoresWhenPrintable(table: seq<Mount>, path: string, scores: seq<Option<nat>>)
    requires (forall i | 0 <= i < |table| :: Printable(table[i])) && scores == Scores(Lines(Print(table)), path)
    ensures |scores| == |table| && forall j: nat | j < |table| ::
              scores[j] == if Covers(table[j], path) then Some(Utf8Len(PrintPoint(table[j].point))) else None
  {
    LinesOfTable(table, 0);
    forall j: nat | j < |table|
      ensures scores[j] == if Covers(table[j], path) then Some(Utf8Len(PrintPoint(table[j].point))) else None
    {
      LineScore(table, path, j);
      ScoreAt(Lines(Print(table)), path, j);
    }
  }

  lemma RightWhenPrintable(table: seq<Mount>, path: string)
    requires forall i | 0 <= i < |table| :: Printable(table[i])
    ensures RightFor(table, path)
  {
    var scores := Scores(Lines(Print(table)), path);
    ScoresWhenPrintable(table, path, scores);
    forall best: nat | IsFirstMax(scores, |scores|, best)
      ensures IsDeepest(table, path, best)
    {
      FirstMaxIsDeepest(table, scores, path, best);
    }
  }

  lemma CoveringIsPrefix(e: Entry, q: seq<string>)
    requires CoversPath(e, ["/"] + q)
    ensures e.point <= q
  {
    assert e.point == (["/"] + e.point)[1..] && q == (["/"] + q)[1..];
  }

  lemma CoveringIsNotLonger(p: seq<string>, q: seq<string>)
    requires ValidPoint(q) && CoversPath(EntryOf(p), ["/"] + q)
    ensures EntryOf(p).full <= Utf8Len(PrintPoint(q))
  {
    CoveringIsPrefix(EntryOf(p), q);
    PrefixIsNotLonger(p, q);
  }

  /** An entry read as something longer than the point it names outscores all that cover it. */
  lemma LongerOutscores(table: seq<Mount>, es: seq<Entry>, i: nat, q: seq<string>)
    requires es == Entries(table) && i < |es| && ValidPoint(q)
    requires es[i].comps == ["/"] + q && es[i].len > Utf8Len(PrintPoint(q))
    ensures Outscores(es, i)
  {
    forall j | 0 <= j < |es| && CoversPath(es[j], es[i].comps)
      ensures es[j].full < es[i].len
    {
      CoveringIsNotLonger(table[j].point, q);
    }
  }

  /** A path that is looked up wrongly because of a mount point with left-over white space: what is read of
      the mount point, or the mount point itself. */
  lemma WrongPath(table: seq<Mount>, i: nat) returns (path: string)
    requires AllRestPrintable(table) && i < |table| && !Printable(table[i])
    ensures !RightFor(table, path) && (path == ReadText(table[i].point) || path == PrintPoint(table[i].point))
  {
    var p := table[i].point;
    assert RestPrintable(table[i]);
    var wrong := WrongEntry(table, Entries(table), i);
    ComponentsOfPoint(p);
    path := if wrong == ["/"] + p then PrintPoint(p) else ReadText(p);
    RightForEntries(table, path);
  }

  lemma WrongEntry(table: seq<Mount>, es: seq<Entry>, i: nat) returns (wrong: seq<string>)
    requires es == Entries(table) && i < |table| && RestPrintable(table[i]) && !Printable(table[i])
    ensures !LooksUp(es, wrong) && (wrong == es[i].comps || wrong == ["/"] + es[i].point)
  {
    var p := table[i].point;
    CutIsPlain(PrintPoint(p));
    EntriesCohere(table);
    var n := Misread(p);
    if !(es[i].comps <= ["/"] + p) {
      StrayIsWrong(es, i);
      wrong := ["/"] + p;
    } else if es[i].comps == ["/"] && es[i].len == 1 {
      RootlikeIsWrong(es, i);
      wrong := if LooksUp(es, ["/"]) then ["/"] + p else ["/"];
    } else {
      LongerOutscores(table, es, i, p[..n]);
      OutscoringIsWrong(es, i);
      wrong := es[i].comps;
    }
  }

  /** For every table whose other fields are printable, the scan is right for every path if and only if no
      mount point has white space left in it after escaping. */
  lemma LookupExact(table: seq<Mount>)
    requires AllRestPrintable(table)
    ensures (forall path :: RightFor(table, path)) <==> forall i | 0 <= i < |table| :: Printable(table[i])
  {
    if forall i | 0 <= i < |table| :: Printable(table[i]) {
      forall path
        ensures RightFor(table, path)
      {
        RightWhenPrintable(table, path);
      }
    } else {
      var i: nat :| i < |table| && !Printable(table[i]);
      var path := WrongPath(table, i);
    }
  }
}
