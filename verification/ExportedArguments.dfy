/** Scheduler arguments inside the run file (src/export.rs): quoting keeps the newlines of an argument, so
    an argument can put a marker line into the preamble. Exactly which arguments break the extraction. */
module ExportedArguments {
  import opened Base64
  import opened Runfile
  import opened Shell
  import opened Text

  // ----- Substrings

  ghost predicate Contains(s: string, t: string) {
    exists i :: IsAt(s, t, i)
  }

  ghost predicate IsAt(s: string, t: string, i: int) {
    0 <= i <= |s| - |t| && s[i..i + |t|] == t
  }

  lemma AtShifts(x: string, s: string, y: string, t: string, i: int)
    requires 0 <= i <= |s| - |t|
    ensures IsAt(x + s + y, t, |x| + i) <==> IsAt(s, t, i)
  {
    var w := x + s + y;
    assert w[|x| + i..|x| + i + |t|] == s[i..i + |t|];
  }

  lemma AtCovers(s: string, t: string, i: int, k: int)
    requires IsAt(s, t, i) && i <= k < i + |t|
    ensures s[k] == t[k - i] && s[k] in t
  {
    assert s[i..i + |t|][k - i] == s[k];
  }

  lemma PartsContained(x: string, c: char, y: string, t: string)
    requires Contains(x, t) || Contains(y, t)
    ensures Contains(x + [c] + y, t)
  {
    var w := x + [c] + y;
    if Contains(x, t) {
      var i :| IsAt(x, t, i);
      AtShifts("", x, [c] + y, t, i);
      assert "" + x + ([c] + y) == w;
      assert IsAt(w, t, |""| + i);
    } else {
      var i :| IsAt(y, t, i);
      AtShifts(x + [c], y, "", t, i);
      assert x + [c] + y + "" == w;
      assert IsAt(w, t, |x + [c]| + i);
    }
  }

  lemma ContainedInPart(x: string, c: char, y: string, t: string)
    requires c !in t && t != "" && Contains(x + [c] + y, t)
    ensures Contains(x, t) || Contains(y, t)
  {
    var w := x + [c] + y;
    var i :| IsAt(w, t, i);
    if i <= |x| < i + |t| {
      AtCovers(w, t, i, |x|);
    } else if i + |t| <= |x| {
      AtShifts("", x, [c] + y, t, i);
      assert "" + x + ([c] + y) == w;
      assert IsAt(x, t, i);
    } else {
      AtShifts(x + [c], y, "", t, i - |x| - 1);
      assert x + [c] + y + "" == w;
      assert IsAt(y, t, i - |x| - 1);
    }
  }

  /** A character that is not in t separates its occurrences. */
  lemma Separates(x: string, c: char, y: string, t: string)
    requires c !in t && t != ""
    ensures Contains(x + [c] + y, t) <==> Contains(x, t) || Contains(y, t)
  {
    if Contains(x + [c] + y, t) {
      ContainedInPart(x, c, y, t);
    }
    if Contains(x, t) || Contains(y, t) {
      PartsContained(x, c, y, t);
    }
  }

  // ----- Through the quoting

  /** Text that no quote and no space between arguments can be part of. */
  ghost predicate Survives(t: string) {
    t != "" && '\'' !in t && '\\' !in t && ' ' !in t
  }

  lemma {:induction false} InnerAdds(a: string, b: string)
    ensures Inner(a + b) == Inner(a) + Inner(b)
    decreases |b|
  {
    if b == "" {
      assert a + b == a;
    } else {
      var front, c := b[..|b| - 1], b[|b| - 1];
      InnerAdds(a, front);
      assert b == front + [c];
      Regroup(a, front, [c]);
      InnerLast(a + b, a + front, c);
      InnerLast(b, front, c);
      Regroup(Inner(a), Inner(front), Piece(c));
    }
  }

  lemma {:induction false} InnerLast(s: string, front: string, c: char)
    requires s == front + [c]
    ensures Inner(s) == Inner(front) + Piece(c)
  {
    assert s[..|s| - 1] == front;
  }

  lemma {:induction false} InnerPlain(a: string)
    requires '\'' !in a
    ensures Inner(a) == a
    decreases |a|
  {
    if a != "" {
      InnerPlain(a[..|a| - 1]);
      assert a == a[..|a| - 1] + [a[|a| - 1]];
    }
  }

  lemma LastQuote(a: string) returns (x: string, y: string)
    requires '\'' in a
    ensures a == x + ['\''] + y && '\'' !in y
    decreases |a|
  {
    var front, c := a[..|a| - 1], a[|a| - 1];
    assert a == front + [c];
    if c == '\'' {
      x, y := front, "";
    } else {
      x, y := LastQuote(front);
      y := y + [c];
    }
  }

  /** The replacement of a quote separates like the quote. */
  lemma QuoteSeparates(x: string, y: string, t: string)
    requires Survives(t)
    ensures Contains(x + "'\\''" + y, t) <==> Contains(x, t) || Contains(y, t)
  {
    var r3 := "'" + y;
    var r2 := "'" + r3;
    var r1 := "\\" + r2;
    assert x + "'\\''" + y == x + ['\''] + r1;
    Separates(x, '\'', r1, t);
    assert r1 == "" + ['\\'] + r2 && r2 == "" + ['\''] + r3 && r3 == "" + ['\''] + y;
    Separates("", '\\', r2, t);
    Separates("", '\'', r3, t);
    Separates("", '\'', y, t);
    assert !Contains("", t);
  }

  lemma {:induction false} InnerContains(a: string, t: string)
    requires Survives(t)
    ensures Contains(Inner(a), t) <==> Contains(a, t)
    decreases |a|
  {
    if '\'' in a {
      var x, y := LastQuote(a);
      InnerContains(x, t);
      Separates(x, '\'', y, t);
      InnerSplit(x, y);
      QuoteSeparates(Inner(x), y, t);
    } else {
      InnerPlain(a);
    }
  }

  lemma InnerSplit(x: string, y: string)
    requires '\'' !in y
    ensures Inner(x + ['\''] + y) == Inner(x) + "'\\''" + y
  {
    InnerAdds(x + ['\''], y);
    InnerAdds(x, ['\'']);
    InnerPlain(y);
    assert Inner(['\'']) == "'\\''" by {
      assert ['\''][..0] == "";
    }
  }

  lemma QuotedContains(a: string, t: string)
    requires Survives(t)
    ensures Contains(Quoted(a), t) <==> Contains(a, t)
  {
    if a == "" || !AllSafe(a) {
      var body := Inner(a) + "'";
      assert Quoted(a) == "" + ['\''] + body && body == Inner(a) + ['\''] + "";
      Separates("", '\'', body, t);
      Separates(Inner(a), '\'', "", t);
      assert !Contains("", t);
      InnerContains(a, t);
    }
  }

  ghost predicate SomeContains(args: seq<string>, t: string) {
    exists i :: 0 <= i < |args| && Contains(args[i], t)
  }

  lemma SomeContainsStep(args: seq<string>, t: string)
    requires args != []
    ensures SomeContains(args, t) <==> Contains(args[0], t) || SomeContains(args[1..], t)
  {
    if SomeContains(args[1..], t) {
      var i :| 0 <= i < |args| - 1 && Contains(args[1..][i], t);
      assert args[i + 1] == args[1..][i];
    }
    if SomeContains(args, t) && !Contains(args[0], t) {
      var i :| 0 <= i < |args| && Contains(args[i], t);
      assert args[1..][i - 1] == args[i];
    }
  }

  /** The joined arguments contain such a text exactly when one of the arguments does. */
  lemma {:induction false} JoinedContains(args: seq<string>, t: string)
    requires Survives(t)
    ensures Contains(Joined(args), t) <==> SomeContains(args, t)
    decreases |args|
  {
    if args == [] {
      assert !Contains("", t);
    } else {
      SomeContainsStep(args, t);
      QuotedContains(args[0], t);
      if |args| > 1 {
        JoinedContains(args[1..], t);
        assert Joined(args) == Quoted(args[0]) + [' '] + Joined(args[1..]);
        Separates(Quoted(args[0]), ' ', Joined(args[1..]), t);
      }
    }
  }

  // ----- The marker line

  /** A line of an argument that is the marker, between two newlines. */
  const MARKER_LINE := "\n" + MARKER + "\n"

  lemma MarkerLineSurvives()
    ensures Survives(MARKER_LINE) && NoNewline(MARKER) && |MARKER_LINE| == |MARKER| + 2
    ensures MARKER_LINE[0] == '\n' && MARKER_LINE[|MARKER| + 1] == '\n'
    ensures forall k | 0 < k <= |MARKER| :: MARKER_LINE[k] == MARKER[k - 1]
  {
  }

  lemma FirstLineIsMarker(line: string, rest: string)
    requires NoNewline(line)
    ensures IsAt("\n" + line + "\n" + rest, MARKER_LINE, 0) <==> line == MARKER
  {
    MarkerLineSurvives();
    var w, n := "\n" + line + "\n" + rest, |MARKER|;
    assert w[0] == '\n' && w[|line| + 1] == '\n';
    assert forall k | 0 < k <= |line| :: w[k] == line[k - 1];
    if IsAt(w, MARKER_LINE, 0) {
      assert forall k | 0 <= k < n + 2 :: w[k] == MARKER_LINE[k] by {
        forall k | 0 <= k < n + 2
          ensures w[k] == MARKER_LINE[k]
        {
          AtCovers(w, MARKER_LINE, 0, k);
        }
      }
      assert |line| == n;
      forall k | 0 <= k < n
        ensures line[k] == MARKER[k]
      {
        assert line[k] == w[k + 1] == MARKER_LINE[k + 1];
      }
    }
    if line == MARKER {
      assert w[0..n + 2] == MARKER_LINE;
    }
  }

  /** Without a newline in it, a text behind a newline contains no marker line. */
  lemma OpenLineHasNoMarker(line: string)
    requires NoNewline(line)
    ensures !Contains("\n" + line, MARKER_LINE)
  {
    MarkerLineSurvives();
    var w := "\n" + line;
    forall i
      ensures !IsAt(w, MARKER_LINE, i)
    {
      if IsAt(w, MARKER_LINE, i) {
        AtCovers(w, MARKER_LINE, i, i + |MARKER| + 1);
      }
    }
  }

  /** A marker line behind a newline is the first line, or comes after it. */
  lemma FirstOrLater(line: string, rest: string)
    requires NoNewline(line)
    ensures Contains("\n" + line + "\n" + rest, MARKER_LINE) <==> line == MARKER || Contains("\n" + rest, MARKER_LINE)
  {
    var w, pre, tail := "\n" + line + "\n" + rest, "\n" + line, "\n" + rest;
    assert w == pre + tail + "";
    FirstLineIsMarker(line, rest);
    if i :| IsAt(w, MARKER_LINE, i) {
      if i > 0 {
        NotInsideLine(line, rest, i);
        AtShifts(pre, tail, "", MARKER_LINE, i - |pre|);
        assert IsAt(tail, MARKER_LINE, i - |pre|);
      }
    }
    if i :| IsAt(tail, MARKER_LINE, i) {
      AtShifts(pre, tail, "", MARKER_LINE, i);
      assert IsAt(w, MARKER_LINE, |pre| + i);
    }
  }

  lemma NotInsideLine(line: string, rest: string, i: nat)
    requires NoNewline(line) && i > 0 && IsAt("\n" + line + "\n" + rest, MARKER_LINE, i)
    ensures i >= |line| + 1
  {
    var w := "\n" + line + "\n" + rest;
    MarkerLineSurvives();
    AtCovers(w, MARKER_LINE, i, i);
    assert forall k | 0 < k <= |line| :: w[k] == line[k - 1];
  }

  /** A complete line of a text is the marker exactly when a marker line follows a newline put before it. */
  lemma {:induction false} HasMarkerContains(p: string)
    ensures HasMarker(p) <==> Contains("\n" + p, MARKER_LINE)
    decreases |p|
  {
    var n := Find(p, '\n');
    if n == |p| {
      OpenLineHasNoMarker(p);
    } else {
      var line, rest := p[..n], p[n + 1..];
      HasMarkerContains(rest);
      FirstOrLater(line, rest);
      assert p == line + ['\n'] + rest;
      assert "\n" + p == "\n" + line + "\n" + rest;
    }
  }

  // ----- Extraction

  /** The preamble around the scheduler's command line. */
  function Preamble(before: string, args: seq<string>, after: string): (p: string) {
    before + " " + Joined(args) + " " + after
  }

  lemma PreambleInTwo(before: string, args: seq<string>, after: string)
    ensures "\n" + Preamble(before, args, after) == ("\n" + before) + [' '] + (Joined(args) + [' '] + after)
  {
  }

  /** A preamble line is the marker exactly when one of the fixed text is, or an argument contains a
      marker line between two newlines. */
  lemma {:induction false} PreambleMarker(before: string, args: seq<string>, after: string)
    ensures HasMarker(Preamble(before, args, after))
       <==> HasMarker(before) || SomeContains(args, MARKER_LINE) || Contains(after, MARKER_LINE)
  {
    var tail := Joined(args) + [' '] + after;
    MarkerLineSurvives();
    HasMarkerContains(Preamble(before, args, after));
    HasMarkerContains(before);
    PreambleInTwo(before, args, after);
    Separates("\n" + before, ' ', tail, MARKER_LINE);
    Separates(Joined(args), ' ', after, MARKER_LINE);
    JoinedContains(args, MARKER_LINE);
  }

  lemma PreambleEnd(before: string, args: seq<string>, after: string)
    ensures EndsItsLastLine(Preamble(before, args, after)) <==> after != "" && EndsItsLastLine(after)
  {
    var p := Preamble(before, args, after);
    if after == "" {
      assert p[|p| - 1] == ' ';
    } else {
      assert p[|p| - 1] == after[|after| - 1];
    }
  }

  /** The archive comes back from a run file with scheduler arguments exactly when the fixed text has no
      marker line and ends its last line (or the archive is empty), and no argument contains a marker
      line between two newlines. */
  lemma ArgumentsExact(before: string, args: seq<string>, after: string, archive: seq<Byte>)
    ensures Extracted(File(Preamble(before, args, after), archive)) == Some(archive)
       <==> && !HasMarker(before) && !Contains(after, MARKER_LINE)
            && ((after != "" && EndsItsLastLine(after)) || archive == [])
            && !SomeContains(args, MARKER_LINE)
  {
    ExtractionExact(Preamble(before, args, after), archive);
    PreambleMarker(before, args, after);
    PreambleEnd(before, args, after);
  }
}
