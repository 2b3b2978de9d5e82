/** Mount points with white space that the kernel does not escape, such as vertical tabs and
    non-breaking spaces (src/flock.rs): exactly when a line stands for its mount, and the wrong device
    the scan returns otherwise. */
module MountSpaces {
  import opened Text
  import opened MountTable

  // ----- What is read of a mount point

  lemma EscapePrefix(p: string, m: nat)
    requires m < |p|
    ensures Escape(p[..m + 1]) == EscapeChar(p[0]) + Escape(p[1..][..m])
  {
    var q := p[..m + 1];
    assert q[0] == p[0] && q[1..] == p[1..][..m];
  }

  lemma FirstField(e: string, rest: string)
    requires e != "" && !IsWhite(e[0])
    ensures SplitWhite(e + " " + rest) != [] && SplitWhite(e + " " + rest)[0] == e[..WordEnd(e)]
  {
    var n := WordEnd(e);
    var s, t := e + " " + rest, e[n..] + " " + rest;
    assert s == e[..n] + t && t[0] == if n < |e| then e[n] else ' ';
    WordEndExact(e[..n], t);
    assert s[..n] == e[..n] && s[0] == e[0];
  }

  lemma PointStart(point: seq<string>)
    ensures PrintPoint(point) != "" && PrintPoint(point)[0] == '/' && Escape(PrintPoint(point))[0] == '/'
  {
    var text := PrintPoint(point);
    assert Escape(text) == EscapeChar(text[0]) + Escape(text[1..]);
  }

  lemma {:induction false} EscapeAdds(a: string, b: string)
    ensures Escape(a + b) == Escape(a) + Escape(b)
  {
    if a == "" {
      assert a + b == b;
    } else {
      assert (a + b)[1..] == a[1..] + b;
      EscapeAdds(a[1..], b);
    }
  }

  /** White space that the kernel prints as it is. */
  predicate IsLeftWhite(c: char) {
    IsWhite(c) && c != ' ' && c != '\t' && c != '\n'
  }

  /** A text cut at its first left-over white space: that is what remains of it. */
  lemma ReadUpTo(pre: string, post: string, rest: string)
    requires pre != "" && NoWhite(Escape(pre)) && post != "" && IsLeftWhite(post[0])
    ensures SplitWhite(Escape(pre + post) + " " + rest) != []
    ensures Unescaped(SplitWhite(Escape(pre + post) + " " + rest)[0]) == pre
  {
    var e := Escape(pre + post);
    EscapeAdds(pre, post);
    assert Escape(post) == [post[0]] + Escape(post[1..]);
    WordEndExact(Escape(pre), Escape(post));
    assert !IsWhite(e[0]) && e[..WordEnd(e)] == Escape(pre);
    FirstField(e, rest);
    UnescapeEscape(pre);
  }

  /** Position of the first white space the kernel does not escape, or the length. */
  function Cut(s: string): (k: nat)
    ensures k <= |s| && (k < |s| ==> IsLeftWhite(s[k]))
  {
    if s == "" || IsLeftWhite(s[0]) then 0 else 1 + Cut(s[1..])
  }

  function CutText(s: string): (t: string) {
    s[..Cut(s)]
  }

  lemma PlainChar(c: char)
    ensures NoWhite(EscapeChar(c)) <==> !IsLeftWhite(c)
  {
    assert IsWhite(EscapeChar(c)[0]) <==> IsLeftWhite(c);
  }

  lemma NoWhiteJoined(a: string, b: string)
    ensures NoWhite(a + b) <==> NoWhite(a) && NoWhite(b)
  {
    assert forall i | 0 <= i < |a| :: (a + b)[i] == a[i];
    assert forall i | 0 <= i < |b| :: (a + b)[|a| + i] == b[i];
  }

  lemma {:induction false} CutIsPlain(s: string)
    ensures NoWhite(Escape(s[..Cut(s)]))
    ensures NoWhite(Escape(s)) <==> Cut(s) == |s|
  {
    if s == "" {
    } else {
      PlainChar(s[0]);
      NoWhiteJoined(EscapeChar(s[0]), Escape(s[1..]));
      CutIsPlain(s[1..]);
      if !IsLeftWhite(s[0]) {
        var k := Cut(s[1..]);
        EscapePrefix(s, k);
        NoWhiteJoined(EscapeChar(s[0]), Escape(s[1..][..k]));
      }
    }
  }

  lemma {:induction false} CutOfJoined(a: string, b: string)
    ensures Cut(a + b) == if Cut(a) < |a| then Cut(a) else |a| + Cut(b)
  {
    if a == "" {
      assert a + b == b;
    } else {
      assert (a + b)[1..] == a[1..] + b;
      CutOfJoined(a[1..], b);
    }
  }

  /** What the scan reads of a mount point. */
  function ReadText(point: seq<string>): (s: string) {
    CutText(PrintPoint(point))
  }

  /** A mount point is read up to the first white space left after escaping: all of it exactly when there
      is none. */
  lemma PointRead(m: Mount)
    requires RestPrintable(m)
    ensures Cut(PrintPoint(m.point)) == |PrintPoint(m.point)| <==> NoWhite(Escape(PrintPoint(m.point)))
    ensures ReadLine(Head(m)) == Some(Mounted(ReadText(m.point), m.major, m.minor))
  {
    var text := PrintPoint(m.point);
    CutIsPlain(text);
    if Cut(text) == |text| {
      assert text[..Cut(text)] == text;
      HeadReadsBack(m);
    } else {
      PointStart(m.point);
      CutInTwo(text, Cut(text));
      PartRead(m, text[..Cut(text)], text[Cut(text)..]);
    }
  }

  lemma CutInTwo(s: string, k: nat)
    requires k < |s|
    ensures s == s[..k] + s[k..] && s[k..] != "" && s[k..][0] == s[k]
  {
  }

  lemma PartRead(m: Mount, pre: string, post: string)
    requires RestPrintable(m) && PrintPoint(m.point) == pre + post
    requires pre != "" && NoWhite(Escape(pre)) && post != "" && IsLeftWhite(post[0])
    ensures ReadLine(Head(m)) == Some(Mounted(pre, m.major, m.minor))
  {
    ReadUpTo(pre, post, m.rest);
    FieldsUpToPoint(m);
    DeviceReadsBack(m.major, m.minor);
  }

  // ----- Sizes of components

  lemma {:induction false} PiecesSize(s: string)
    ensures |Slashed(Split(s, '/'))| == |s| + 1
    decreases |s|
  {
    var n := Find(s, '/');
    if n == |s| {
      assert Split(s, '/') == [s] && [s][1..] == [];
    } else {
      var rest := Split(s[n + 1..], '/');
      PiecesSize(s[n + 1..]);
      assert ([s[..n]] + rest)[1..] == rest;
    }
  }

  lemma {:induction false} NormalShrinks(pieces: seq<string>)
    ensures |Slashed(Normal(pieces))| <= |Slashed(pieces)|
  {
    if pieces != [] {
      NormalShrinks(pieces[1..]);
      var rest := Normal(pieces[1..]);
      assert ([pieces[0]] + rest)[1..] == rest;
    }
  }

  /** A path is at least as long as any mount point that covers it. */
  lemma CoveringIsShorter(point: seq<string>, path: string)
    requires path != "" && path[0] == '/' && ["/"] + point <= Components(path)
    ensures |Slashed(point)| <= |path|
  {
    var cs := Normal(Split(path, '/'));
    assert Components(path) == ["/"] + cs;
    assert point == (["/"] + cs)[1..|point| + 1] == cs[..|point|];
    PrefixIsShorter(point, cs);
    ComponentsSize(path);
  }

  lemma PrefixIsShorter(p: seq<string>, cs: seq<string>)
    requires p <= cs
    ensures |Slashed(p)| <= |Slashed(cs)|
  {
    assert cs == p + cs[|p|..];
    SlashedAdds(p, cs[|p|..]);
  }

  lemma ComponentsSize(path: string)
    requires path != "" && path[0] == '/'
    ensures |Slashed(Normal(Split(path, '/')))| <= |path|
  {
    var pieces := Split(path, '/');
    PiecesSize(path);
    assert pieces[0] == "";
    NormalShrinks(pieces[1..]);
    SlashedStep(pieces);
  }

  // ----- Exactly when a line stands for its mount

  /** For a mount whose other fields are printable, its line scores for exactly the paths the mount
      covers if and only if no white space is left in the mount point after escaping. */
  lemma LineStandsForMountExactly(m: Mount)
    requires RestPrintable(m)
    ensures (forall path :: Score(Head(m), path).Some? <==> Covers(m, path)) <==> NoWhite(Escape(PrintPoint(m.point)))
  {
    var text := PrintPoint(m.point);
    var k := Cut(text);
    PointRead(m);
    PointStart(m.point);
    if k == |text| {
      assert CutText(text) == text;
      ComponentsOfPoint(m.point);
    } else {
      var read := CutText(text);
      assert PathStartsWith(read, read);
      assert Score(Head(m), read).Some?;
      ShorterIsNotCovered(m, k);
    }
  }

  lemma ShorterIsNotCovered(m: Mount, k: nat)
    requires 0 < k < |PrintPoint(m.point)|
    ensures !Covers(m, PrintPoint(m.point)[..k])
  {
    var read := PrintPoint(m.point)[..k];
    PointStart(m.point);
    assert read[0] == '/';
    if Covers(m, read) {
      CoveringIsShorter(m.point, read);
    }
  }

  // ----- The wrong device

  lemma SlashedOne(a: string)
    ensures Slashed([a]) == "/" + a
  {
    assert [a][1..] == [];
  }

  lemma {:induction false} NormalStep(pieces: seq<string>, c: string, rest: seq<string>)
    requires pieces == [c] + rest
    ensures Normal(pieces) == Normal([c]) + Normal(rest)
  {
    assert pieces[0] == c && pieces[1..] == rest;
    assert [c][1..] == [];
  }

  lemma {:induction false} NormalAdds(a: seq<string>, b: seq<string>)
    ensures Normal(a + b) == Normal(a) + Normal(b)
  {
    if a == [] {
      assert a + b == b;
    } else {
      NormalAdds(a[1..], b);
      NormalStep(a + b, a[0], a[1..] + b);
      NormalStep(a, a[0], a[1..]);
      Regroup(Normal([a[0]]), Normal(a[1..]), Normal(b));
    }
  }

  lemma NormalOne(x: string)
    ensures Normal([x]) == if x == "" || x == "." then [] else [x]
  {
    assert [x][1..] == [];
  }

  /** Whole components and a part of another: an empty or dot part is no component. */
  lemma ComponentsOfPart(front: seq<string>, x: string)
    requires ValidPoint(front) && '/' !in x
    ensures Components(Slashed(front + [x])) == ["/"] + (front + if x == "" || x == "." then [] else [x])
  {
    var q := front + [x];
    ValidIsSlashFree(front);
    assert SlashFree(q);
    PiecesOfSlashed(q);
    NormalAdds([""], q);
    NormalOne("");
    NormalAdds(front, [x]);
    NormalOne(x);
    NormalKeeps(front);
  }

  lemma LengthOfPart(front: seq<string>, x: string)
    ensures Utf8Len(Slashed(front + [x])) == Utf8Len(Slashed(front)) + 1 + Utf8Len(x)
  {
    SlashedAdds(front, [x]);
    SlashedOne(x);
    Utf8LenAdds(Slashed(front), "/" + x);
    Utf8LenAdds("/", x);
    assert Utf8Len("/") == 1 by {
      assert "/"[..0] == "";
    }
  }

  /** A trailing slash does not change the components, only the length. */
  lemma TrailingSlash(point: seq<string>)
    requires ValidPoint(point)
    ensures Components(Slashed(point) + "/") == ["/"] + point
    ensures Utf8Len(Slashed(point) + "/") == Utf8Len(Slashed(point)) + 1
  {
    SlashedAdds(point, [""]);
    SlashedOne("");
    assert "/" + "" == "/";
    ComponentsOfPart(point, "");
    assert point + [] == point;
    LengthOfPart(point, "");
  }

  /** A mount directly below another, whose own name starts with left-over white space. */
  ghost predicate WhiteChild(parent: Mount, child: Mount) {
    && Printable(parent) && RestPrintable(child) && parent.point != []
    && |child.point| == |parent.point| + 1 && parent.point == child.point[..|parent.point|]
    && IsLeftWhite(child.point[|parent.point|][0])
  }

  lemma ChildText(parent: Mount, child: Mount)
    requires WhiteChild(parent, child)
    ensures PrintPoint(child.point) == Slashed(parent.point) + "/" + child.point[|parent.point|]
  {
    var c := child.point[|parent.point|];
    assert child.point == parent.point + [c];
    SlashedAdds(parent.point, [c]);
    SlashedOne(c);
  }

  lemma {:induction false} SlashIsPlain(s: string)
    requires NoWhite(Escape(s))
    ensures NoWhite(Escape(s + "/"))
  {
    EscapeAdds(s, "/");
    SlashStays();
    NoWhiteJoined(Escape(s), "/");
  }

  lemma SlashStays()
    ensures Escape("/") == "/" && NoWhite("/")
  {
    assert "/"[1..] == "";
  }

  /** The child is read as its parent with a trailing slash: the same components, one byte more. */
  lemma ChildReadAsParent(parent: Mount, child: Mount) returns (text: string)
    requires WhiteChild(parent, child)
    ensures ReadLine(Head(child)) == Some(Mounted(text, child.major, child.minor))
    ensures Components(text) == ["/"] + parent.point && Utf8Len(text) == Utf8Len(PrintPoint(parent.point)) + 1
  {
    text := Slashed(parent.point) + "/";
    ChildText(parent, child);
    SlashIsPlain(Slashed(parent.point));
    ReadUpTo(text, child.point[|parent.point|], child.rest);
    FieldsUpToPoint(child);
    DeviceReadsBack(child.major, child.minor);
    TrailingSlash(parent.point);
  }

  lemma ScoreOfText(line: string, m: Mounted, point: seq<string>, path: string)
    requires ReadLine(line) == Some(m) && Components(m.point) == ["/"] + point && ["/"] + point <= Components(path)
    ensures Score(line, path) == Some(Utf8Len(m.point)) && LineDevice(line) == Some((m.major, m.minor))
  {
    ScoreOfRead(line, m, path);
  }

  /** So it outscores its parent for every path the parent covers, even where it does not cover the path
      itself. */
  lemma ChildScore(line: string, parent: Mount, child: Mount, path: string, n: nat)
    requires WhiteChild(parent, child) && Covers(parent, path)
    requires line == StripCr(Head(child)) && n == Utf8Len(PrintPoint(parent.point))
    ensures Score(line, path) == Some(n + 1) && LineDevice(line) == Some((child.major, child.minor))
  {
    var m := ChildLineRead(line, parent, child, n);
    ScoreOfText(line, m, parent.point, path);
  }

  lemma ChildLineRead(line: string, parent: Mount, child: Mount, n: nat) returns (m: Mounted)
    requires WhiteChild(parent, child) && line == StripCr(Head(child)) && n == Utf8Len(PrintPoint(parent.point))
    ensures ReadLine(line) == Some(m) && m.major == child.major && m.minor == child.minor
    ensures Components(m.point) == ["/"] + parent.point && Utf8Len(m.point) == n + 1
  {
    var c := child.(rest := StripCr(child.rest));
    StripHead(child);
    var text := ChildReadAsParent(parent, c);
    m := Mounted(text, child.major, child.minor);
  }

  lemma ParentScore(line: string, parent: Mount, path: string, n: nat)
    requires Printable(parent) && Covers(parent, path)
    requires line == StripCr(Head(parent)) && n == Utf8Len(PrintPoint(parent.point))
    ensures Score(line, path) == Some(n)
  {
    MountScore(parent, path);
  }

  ghost predicate ParentAndChild(table: seq<Mount>, path: string) {
    |table| == 2 && WhiteChild(table[0], table[1]) && Covers(table[0], path)
  }

  lemma LineOf(table: seq<Mount>, j: nat, lines: seq<string>)
    requires j < |table| && (forall i | 0 <= i < |table| :: RestPrintable(table[i])) && lines == Lines(Print(table))
    ensures |lines| == |table| && lines[j] == StripCr(Head(table[j]))
  {
    LinesOfTable(table, j);
  }

  /** The second of two lines scores one more than the first. */
  ghost predicate SecondLeads(lines: seq<string>, path: string, device: (nat, nat), n: nat) {
    && |lines| == 2 && LineDevice(lines[1]) == Some(device)
    && Score(lines[0], path) == Some(n) && Score(lines[1], path) == Some(n + 1)
  }

  lemma ChildLineLeads(parent: Mount, child: Mount, path: string, lines: seq<string>, n: nat)
    requires WhiteChild(parent, child) && Covers(parent, path) && n == Utf8Len(PrintPoint(parent.point))
    requires |lines| == 2 && lines[0] == StripCr(Head(parent)) && lines[1] == StripCr(Head(child))
    ensures SecondLeads(lines, path, (child.major, child.minor), n)
  {
    ParentScore(lines[0], parent, path, n);
    ChildScore(lines[1], parent, child, path, n);
  }

  lemma {:induction false} ScoresOfTwo(lines: seq<string>, path: string, device: (nat, nat), n: nat)
    requires SecondLeads(lines, path, device, n)
    ensures |Scores(lines, path)| == 2 && Scores(lines, path)[0] == Some(n) && Scores(lines, path)[1] == Some(n + 1)
  {
    ScoreAt(lines, path, 0);
    ScoreAt(lines, path, 1);
  }

  lemma SecondWins(scores: seq<Option<nat>>, best: nat, none: bool, n: nat)
    requires |scores| == 2 && scores[0] == Some(n) && scores[1] == Some(n + 1)
    requires if none then NoScore(scores, |scores|) else IsFirstMax(scores, |scores|, best)
    ensures !none && best == 1
  {
    assert scores[1].Some?;
  }

  /** Of two lines of which the second scores more, the second is found. */
  lemma SecondIsFound(lines: seq<string>, scores: seq<Option<nat>>, r: Option<(nat, nat)>, best: nat, n: nat)
    requires |lines| == |scores| == 2 && scores[0] == Some(n) && scores[1] == Some(n + 1)
    requires Found(lines, scores, r, best)
    ensures r == LineDevice(lines[1])
  {
    SecondWins(scores, best, r.None?, n);
    SameOption(LineDevice(lines[best]), r);
  }

  lemma SameOption<T>(a: Option<T>, b: Option<T>)
    requires b.Some? && a == Some(b.value)
    ensures a == b
  {
  }

  method LookUpSecond(contents: string, path: string, ghost device: (nat, nat), ghost n: nat)
    returns (r: Option<(nat, nat)>)
    requires SecondLeads(Lines(contents), path, device, n)
    ensures r == Some(device)
  {
    ghost var best;
    r, best := MountMajorMinor(contents, path);
    ScoresOfTwo(Lines(contents), path, device, n);
    SecondIsFound(Lines(contents), Scores(Lines(contents), path), r, best, n);
  }

  /** The table as the kernel prints it: one line for each mount. */
  method Rendered(table: seq<Mount>) returns (contents: string)
    requires forall i | 0 <= i < |table| :: RestPrintable(table[i])
    ensures |Lines(contents)| == |table|
    ensures forall j | 0 <= j < |table| :: Lines(contents)[j] == StripCr(Head(table[j]))
  {
    contents := Print(table);
    LinesOfTable(table, 0);
    forall j | 0 <= j < |table|
      ensures Lines(contents)[j] == StripCr(Head(table[j]))
    {
      LinesOfTable(table, j);
    }
  }

  lemma BothRestPrintable(table: seq<Mount>)
    requires |table| == 2 && RestPrintable(table[0]) && RestPrintable(table[1])
    ensures forall i | 0 <= i < |table| :: RestPrintable(table[i])
  {
    forall i | 0 <= i < |table|
      ensures RestPrintable(table[i])
    {
      assert i == 0 || i == 1;
    }
  }

  lemma FirstIsDeepest(table: seq<Mount>, path: string)
    requires |table| == 2 && Covers(table[0], path) && !Covers(table[1], path)
    ensures IsDeepest(table, path, 0)
  {
  }

  /** Looking up any path that the parent covers and the child does not returns the child's device. */
  method WrongDevice(table: seq<Mount>, path: string) returns (r: Option<(nat, nat)>)
    requires ParentAndChild(table, path) && !Covers(table[1], path)
    ensures r == Some((table[1].major, table[1].minor)) && IsDeepest(table, path, 0)
  {
    ghost var n := Utf8Len(PrintPoint(table[0].point));
    BothRestPrintable(table);
    FirstIsDeepest(table, path);
    var contents := Rendered(table);
    ChildLineLeads(table[0], table[1], path, Lines(contents), n);
    r := LookUpSecond(contents, path, (table[1].major, table[1].minor), n);
  }

  // ----- An instance

  lemma {:induction false} NothingToEscape(s: string)
    requires forall i | 0 <= i < |s| :: s[i] == '/' || 'a' <= s[i] <= 'z'
    ensures Escape(s) == s
  {
    if s != "" {
      NothingToEscape(s[1..]);
      PlainStep(s[0], s[1..]);
      assert s == [s[0]] + s[1..];
    }
  }

  lemma PlainStep(c: char, s: string)
    requires (c == '/' || 'a' <= c <= 'z') && Escape(s) == s
    ensures Escape([c] + s) == [c] + s
  {
    assert ([c] + s)[1..] == s;
  }

  lemma SlashedTwo(a: string, b: string)
    ensures Slashed([a, b]) == "/" + a + "/" + b
  {
    SlashedOne(b);
    assert [a, b][1..] == [b];
  }

  lemma LettersAreValid(a: string)
    requires a != "" && forall i | 0 <= i < |a| :: 'a' <= a[i] <= 'z'
    ensures ValidComponent(a)
  {
    assert a[0] != '.';
  }

  lemma PathOfTwo(a: string, x: string)
    requires ValidComponent(a) && ValidComponent(x)
    ensures Components("/" + a + "/" + x) == ["/", a, x]
  {
    SlashedTwo(a, x);
    ComponentsOfPoint([a, x]);
    assert ["/"] + [a, x] == ["/", a, x];
  }

  /** For any two names of lower-case letters and a third that starts with left-over white space, the
      parent, the child and the path below the parent are such a case. */
  lemma WhiteChildInstance(a: string, x: string, c: string, parent: Mount, child: Mount)
    requires a != "" && x != "" && c != "" && x != c && IsLeftWhite(c[0])
    requires forall i | 0 <= i < |a| :: 'a' <= a[i] <= 'z'
    requires forall i | 0 <= i < |x| :: 'a' <= x[i] <= 'z'
    requires ValidComponent(c)
    requires parent == Mount(1, 0, 8, 1, "/", [a], "rw") && child == Mount(2, 1, 8, 2, "/", [a, c], "rw")
    ensures WhiteChild(parent, child)
    ensures Covers(parent, "/" + a + "/" + x) && !Covers(child, "/" + a + "/" + x)
  {
    LettersAreValid(a);
    LettersAreValid(x);
    PathOfTwo(a, x);
    PrintableInstance(a, parent);
    NothingToEscape("/");
    assert (["/"] + [a, c])[2] == c;
  }

  lemma PrintableInstance(a: string, m: Mount)
    requires ValidComponent(a) && forall i | 0 <= i < |a| :: 'a' <= a[i] <= 'z'
    requires m == Mount(1, 0, 8, 1, "/", [a], "rw")
    ensures Printable(m)
  {
    SlashedOne(a);
    NothingToEscape("/");
    NothingToEscape("/" + a);
  }

  /** A vertical tab is enough: with /a on 8:1 and a mount named by a vertical tab and b below it on 8:2,
      the file /a/x, which lives on 8:1, is looked up on 8:2. */
  method VerticalTabMisleads(table: seq<Mount>, path: string) returns (r: Option<(nat, nat)>)
    requires table == [Mount(1, 0, 8, 1, "/", ["a"], "rw"), Mount(2, 1, 8, 2, "/", ["a", "\U{B}b"], "rw")]
    requires path == "/a/x"
    ensures IsDeepest(table, path, 0) && (table[0].major, table[0].minor) == (8, 1)
    ensures r == Some((8, 2))
  {
    assert path == "/" + "a" + "/" + "x";
    WhiteChildInstance("a", "x", "\U{B}b", table[0], table[1]);
    r := WrongDevice(table, path);
  }
}
