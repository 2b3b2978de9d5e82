/** `/proc/self/mountinfo` lookup (src/flock.rs): octal unescaping, the longest component-prefix
    scan, and the proof that on every table the kernel prints the scan finds the device of the
    deepest mount covering a path. Characters are Unicode scalar values; lengths are UTF-8 bytes. */
module MountTable {
  import opened Text

  // ----- Octal escapes

  predicate IsOctal(c: char) {
    '0' <= c <= '7'
  }

  function OctalValue(s: string): (v: nat)
    requires |s| >= 4 && IsOctal(s[1]) && IsOctal(s[2]) && IsOctal(s[3])
    ensures v < 512
  {
    (s[1] as nat - '0' as nat) * 64 + (s[2] as nat - '0' as nat) * 8 + (s[3] as nat - '0' as nat)
  }

  /** `s` starts with a backslash and three octal digits that fit a byte. */
  predicate StartsEscape(s: string) {
    |s| >= 4 && s[0] == '\\' && IsOctal(s[1]) && IsOctal(s[2]) && IsOctal(s[3]) && OctalValue(s) <= 0xff
  }

  /** Decoded text: every well-formed escape becomes its character, everything else stays. */
  function Unescaped(s: string): (t: string) {
    if s == "" then ""
    else if StartsEscape(s) then [OctalValue(s) as char] + Unescaped(s[4..])
    else [s[0]] + Unescaped(s[1..])
  }

  /** The decoding loop. */
  method UnescapeField(raw: string) returns (out: string)
    ensures out == Unescaped(raw)
  {
    if '\\' !in raw {
      NothingToUnescape(raw);
      return raw;
    }
    out := "";
    var i := 0;
    while i < |raw|
      invariant 0 <= i <= |raw|
      invariant out + Unescaped(raw[i..]) == Unescaped(raw)
    {
      UnescapedStep(raw[i..]);
      if raw[i] == '\\' && i + 3 < |raw| && IsOctal(raw[i + 1]) && IsOctal(raw[i + 2]) && IsOctal(raw[i + 3]) {
        var v := OctalValue(raw[i..]);
        if v <= 0xff {
          Regroup(out, [v as char], Unescaped(raw[i..][4..]));
          assert raw[i..][4..] == raw[i + 4..];
          out := out + [v as char];
          i := i + 4;
        } else {
          Regroup(out, [raw[i]], Unescaped(raw[i..][1..]));
          assert raw[i..][1..] == raw[i + 1..];
          out := out + [raw[i]];
          i := i + 1;
        }
      } else {
        Regroup(out, [raw[i]], Unescaped(raw[i..][1..]));
        assert raw[i..][1..] == raw[i + 1..];
        out := out + [raw[i]];
        i := i + 1;
      }
    }
  }

  lemma UnescapedStep(s: string)
    requires s != ""
    ensures StartsEscape(s) ==> Unescaped(s) == [OctalValue(s) as char] + Unescaped(s[4..])
    ensures !StartsEscape(s) ==> Unescaped(s) == [s[0]] + Unescaped(s[1..])
  {
  }

  lemma {:induction false} NothingToUnescape(s: string)
    requires '\\' !in s
    ensures Unescaped(s) == s
  {
    if s != "" {
      NothingToUnescape(s[1..]);
    }
  }

  /** The kernel's `mangle_path` with the escape set space, tab, newline, backslash. */
  function EscapeChar(c: char): (s: string)
    ensures s != ""
  {
    if c == ' ' then "\\040"
    else if c == '\t' then "\\011"
    else if c == '\n' then "\\012"
    else if c == '\\' then "\\134"
    else [c]
  }

  function Escape(s: string): (t: string) {
    if s == "" then "" else EscapeChar(s[0]) + Escape(s[1..])
  }

  lemma UnescapeOne(c: char, t: string)
    ensures Unescaped(EscapeChar(c) + t) == [c] + Unescaped(t)
  {
    var s := EscapeChar(c) + t;
    if c == ' ' || c == '\t' || c == '\n' || c == '\\' {
      assert s[..4] == EscapeChar(c) && s[4..] == t;
      assert s[0] == '\\' && s[1] == EscapeChar(c)[1] && s[2] == EscapeChar(c)[2] && s[3] == EscapeChar(c)[3];
      assert OctalValue(s) == c as nat;
    } else {
      assert s[0] == c && s[1..] == t;
    }
  }

  /** Decoding undoes the kernel's escaping, for every string. */
  lemma {:induction false} UnescapeEscape(s: string)
    ensures Unescaped(Escape(s)) == s
  {
    if s != "" {
      UnescapeOne(s[0], Escape(s[1..]));
      UnescapeEscape(s[1..]);
    }
  }

  // ----- Paths

  /** `Path::components`: the root, then the pieces that are neither empty nor `.` (a leading `.`
      of a relative path is kept). */
  function Components(path: string): (cs: seq<string>) {
    var pieces := Split(path, '/');
    if path != "" && path[0] == '/' then ["/"] + Normal(pieces)
    else if pieces[0] == "." then ["."] + Normal(pieces)
    else Normal(pieces)
  }

  function Normal(pieces: seq<string>): (cs: seq<string>) {
    if pieces == [] then []
    else if pieces[0] == "" || pieces[0] == "." then Normal(pieces[1..])
    else [pieces[0]] + Normal(pieces[1..])
  }

  /** `Path::starts_with`. */
  predicate PathStartsWith(path: string, prefix: string) {
    Components(prefix) <= Components(path)
  }

  // ----- The scan

  datatype Mounted = Mounted(point: string, major: nat, minor: nat)

  function ParseMajorMinor(s: string): (r: Option<(nat, nat)>) {
    match SplitOnce(s, ':')
    case None => None
    case Some((maj, min)) =>
      match (ParseU32(maj), ParseU32(min))
      case (Some(a), Some(b)) => Some((a, b))
      case _ => None
  }

  /** What a line says, if it has at least five fields and a readable device. */
  function ReadLine(line: string): (r: Option<Mounted>) {
    var fields := SplitWhite(line);
    if |fields| < 5 then None
    else match ParseMajorMinor(fields[2])
      case None => None
      case Some((major, minor)) => Some(Mounted(Unescaped(fields[4]), major, minor))
  }

  /** The length of a line's mount point, if the line is readable and covers `path`. */
  function Score(line: string, path: string): (r: Option<nat>) {
    match ReadLine(line)
    case None => None
    case Some(m) => if PathStartsWith(path, m.point) then Some(Utf8Len(m.point)) else None
  }

  function Scores(lines: seq<string>, path: string): (scores: seq<Option<nat>>)
    ensures |scores| == |lines|
  {
    if lines == [] then [] else Scores(lines[..|lines| - 1], path) + [Score(lines[|lines| - 1], path)]
  }

  lemma {:induction false} ScoreAt(lines: seq<string>, path: string, i: nat)
    requires i < |lines|
    ensures Scores(lines, path)[i] == Score(lines[i], path)
  {
    if i < |lines| - 1 {
      ScoreAt(lines[..|lines| - 1], path, i);
    }
  }

  lemma ScoresStep(lines: seq<string>, path: string, i: nat)
    requires i < |lines|
    ensures Scores(lines[..i + 1], path) == Scores(lines[..i], path) + [Score(lines[i], path)]
  {
    assert lines[..i + 1][..i] == lines[..i];
  }

  /** Position `i` has the greatest score of the first `n`, and is the first to have it. */
  ghost predicate IsFirstMax(scores: seq<Option<nat>>, n: nat, i: nat)
    requires n <= |scores|
  {
    && i < n
    && scores[i].Some?
    && forall j: nat | j < n && scores[j].Some? ::
         scores[j].value < scores[i].value || (scores[j].value == scores[i].value && i <= j)
  }

  ghost predicate NoScore(scores: seq<Option<nat>>, n: nat)
    requires n <= |scores|
  {
    forall j: nat | j < n :: scores[j].None?
  }

  /** The device a line names, if it is readable. */
  function LineDevice(line: string): (r: Option<(nat, nat)>) {
    match ReadLine(line)
    case None => None
    case Some(m) => Some((m.major, m.minor))
  }

  /** The fields of one line: its score for `path` and its device. */
  method ScoreLine(line: string, path: string) returns (score: Option<nat>, device: Option<(nat, nat)>)
    ensures score == Score(line, path)
    ensures score.Some? ==> device.Some? && LineDevice(line) == Some(device.value)
  {
    score, device := None, None;
    var fields := SplitWhite(line);
    if |fields| < 5 {
      return;
    }
    var point := UnescapeField(fields[4]);
    device := ParseMajorMinor(fields[2]);
    if PathStartsWith(path, point) && device.Some? {
      score := Some(Utf8Len(point));
    }
  }

  /** What one more score does to the first maximum. */
  lemma FirstMaxStep(scores: seq<Option<nat>>, score: Option<nat>, best: nat)
    ensures var n, more := |scores|, scores + [score];
      && (NoScore(scores, n) && score.None? ==> NoScore(more, n + 1))
      && (NoScore(scores, n) && score.Some? ==> IsFirstMax(more, n + 1, n))
      && (best < n && IsFirstMax(scores, n, best) ==>
            if score.Some? && score.value > scores[best].value then IsFirstMax(more, n + 1, n)
            else IsFirstMax(more, n + 1, best))
  {
    var more := scores + [score];
    assert forall j: nat | j < |scores| :: more[j] == scores[j];
    assert more[|scores|] == score;
  }

  /** What the scan found: nothing when no line scores, else the device of the first line with the
      greatest score. */
  ghost predicate Found(lines: seq<string>, scores: seq<Option<nat>>, r: Option<(nat, nat)>, best: nat)
    requires |scores| <= |lines|
  {
    if r.None? then NoScore(scores, |scores|)
    else IsFirstMax(scores, |scores|, best) && LineDevice(lines[best]) == Some(r.value)
  }

  /** What one more line does to the result. */
  lemma FoundStep(lines: seq<string>, scores: seq<Option<nat>>, r: Option<(nat, nat)>, best: nat,
                  score: Option<nat>, device: Option<(nat, nat)>)
    requires |scores| < |lines| && Found(lines, scores, r, best)
    requires score.Some? ==> device.Some? && LineDevice(lines[|scores|]) == Some(device.value)
    ensures var n := |scores|;
      if score.Some? && (r.None? || score.value > scores[best].value) then Found(lines, scores + [score], device, n)
      else Found(lines, scores + [score], r, best)
  {
    FirstMaxStep(scores, score, best);
  }

  /** The loop over the lines. */
  method BestLine(lines: seq<string>, path: string) returns (r: Option<(nat, nat)>, ghost best: nat)
    ensures Found(lines, Scores(lines, path), r, best)
  {
    ghost var scores := [];
    r, best := None, 0;
    var bestLen := 0;
    for i := 0 to |lines|
      invariant |scores| == i && scores == Scores(lines[..i], path)
      invariant Found(lines, scores, r, best)
      invariant r.Some? ==> scores[best] == Some(bestLen)
    {
      var score, device := ScoreLine(lines[i], path);
      ScoresStep(lines, path, i);
      FoundStep(lines, scores, r, best, score, device);
      scores := scores + [score];
      if score.Some? && (r.None? || score.value > bestLen) {
        r, best, bestLen := device, i, score.value;
      }
    }
    assert lines[..|lines|] == lines;
  }

  /** The device of the longest mount point that is a component prefix of `path`. */
  method MountMajorMinor(contents: string, path: string) returns (r: Option<(nat, nat)>, ghost best: nat)
    ensures Found(Lines(contents), Scores(Lines(contents), path), r, best)
  {
    r, best := BestLine(Lines(contents), path);
  }

  // ----- Tables the kernel prints

  /** One mount: identifiers, device, root of the mount, mount point by components, and the rest of
      the line. */
  datatype Mount = Mount(id: nat, parent: nat, major: nat, minor: nat, root: string, point: seq<string>, rest: string)

  ghost predicate ValidComponent(c: string) {
    c != "" && c != "." && forall k | 0 <= k < |c| :: c[k] != '/'
  }

  ghost predicate ValidPoint(point: seq<string>) {
    forall i | 0 <= i < |point| :: ValidComponent(point[i])
  }

  function Slashed(point: seq<string>): (s: string) {
    if point == [] then "" else "/" + point[0] + Slashed(point[1..])
  }

  /** The path text of a mount point. */
  function PrintPoint(point: seq<string>): (s: string) {
    if point == [] then "/" else Slashed(point)
  }

  /** Every field but the mount point can be read back: no white space is left in the root after
      escaping, and the device numbers fit 32 bits. */
  ghost predicate RestPrintable(m: Mount) {
    && m.major <= U32_MAX && m.minor <= U32_MAX
    && m.root != "" && NoWhite(Escape(m.root))
    && ValidPoint(m.point)
    && forall k | 0 <= k < |m.rest| :: m.rest[k] != '\n'
  }

  /** So can the mount point. */
  ghost predicate Printable(m: Mount) {
    RestPrintable(m) && NoWhite(Escape(PrintPoint(m.point)))
  }

  function PointPart(m: Mount): (s: string) {
    Escape(PrintPoint(m.point)) + " " + m.rest
  }

  function Device(m: Mount): (s: string) {
    Decimal(m.major) + ":" + Decimal(m.minor)
  }

  function DevicePart(m: Mount): (s: string) {
    Device(m) + " " + (Escape(m.root) + " " + PointPart(m))
  }

  /** The line of a mount, without its newline. */
  function Head(m: Mount): (s: string) {
    Decimal(m.id) + " " + (Decimal(m.parent) + " " + DevicePart(m))
  }

  function Heads(table: seq<Mount>): (lines: seq<string>) {
    seq(|table|, i requires 0 <= i < |table| => Head(table[i]))
  }

  function Print(table: seq<Mount>): (s: string) {
    Terminated(Heads(table))
  }

  /** A mount covers a path when its point's components are a prefix of the path's. */
  ghost predicate Covers(m: Mount, path: string) {
    ["/"] + m.point <= Components(path)
  }

  /** The deepest covering mount, the first of them when mounts are stacked on one point. */
  ghost predicate IsDeepest(table: seq<Mount>, path: string, i: nat) {
    && i < |table|
    && Covers(table[i], path)
    && forall j: nat | j < |table| && Covers(table[j], path) ::
         |table[j].point| < |table[i].point| || (table[j].point == table[i].point && i <= j)
  }

  // ----- Reading back one line

  lemma FieldsOfDevicePart(m: Mount)
    requires RestPrintable(m)
    ensures SplitWhite(DevicePart(m)) == [Device(m)] + ([Escape(m.root)] + SplitWhite(PointPart(m)))
  {
    DigitsAreNotWhite(Decimal(m.major));
    DigitsAreNotWhite(Decimal(m.minor));
    assert NoWhite(Device(m));
    SplitField(Device(m), Escape(m.root) + " " + PointPart(m));
    SplitField(Escape(m.root), PointPart(m));
  }

  /** The fifth field is the first word of the mount point. */
  lemma FieldsUpToPoint(m: Mount)
    requires RestPrintable(m) && SplitWhite(PointPart(m)) != []
    ensures var fields := SplitWhite(Head(m));
      |fields| >= 5 && fields[2] == Device(m) && fields[4] == SplitWhite(PointPart(m))[0]
  {
    FieldsOfDevicePart(m);
    DigitsAreNotWhite(Decimal(m.id));
    DigitsAreNotWhite(Decimal(m.parent));
    SplitField(Decimal(m.id), Decimal(m.parent) + " " + DevicePart(m));
    SplitField(Decimal(m.parent), DevicePart(m));
  }

  lemma FieldsOfHead(m: Mount)
    requires Printable(m)
    ensures var fields := SplitWhite(Head(m));
      |fields| >= 5 && fields[2] == Device(m) && fields[4] == Escape(PrintPoint(m.point))
  {
    SplitField(Escape(PrintPoint(m.point)), m.rest);
    FieldsUpToPoint(m);
  }

  lemma DeviceReadsBack(major: nat, minor: nat)
    requires major <= U32_MAX && minor <= U32_MAX
    ensures ParseMajorMinor(Decimal(major) + ":" + Decimal(minor)) == Some((major, minor))
  {
    DigitsAreNotWhite(Decimal(major));
    assert Decimal(major) + ":" + Decimal(minor) == Decimal(major) + [':'] + Decimal(minor);
    SplitStep(Decimal(major), ':', Decimal(minor));
    ParseDecimal(major);
    ParseDecimal(minor);
  }

  /** A carriage return at the end of the line only shortens the part nobody reads. */
  lemma StripHead(m: Mount)
    ensures StripCr(Head(m)) == Head(m.(rest := StripCr(m.rest)))
  {
    var pre := Decimal(m.id) + " " + (Decimal(m.parent) + " " + (Device(m) + " "
      + (Escape(m.root) + " " + (Escape(PrintPoint(m.point)) + " "))));
    assert Head(m) == pre + m.rest;
    assert Head(m.(rest := StripCr(m.rest))) == pre + StripCr(m.rest);
    StripAfter(pre, m.rest);
  }

  lemma HeadReadsBack(m: Mount)
    requires Printable(m)
    ensures ReadLine(Head(m)) == Some(Mounted(PrintPoint(m.point), m.major, m.minor))
  {
    FieldsOfHead(m);
    DeviceReadsBack(m.major, m.minor);
    UnescapeEscape(PrintPoint(m.point));
  }

  lemma ReadsBack(m: Mount)
    requires Printable(m)
    ensures ReadLine(StripCr(Head(m))) == Some(Mounted(PrintPoint(m.point), m.major, m.minor))
  {
    StripHead(m);
    HeadReadsBack(m.(rest := StripCr(m.rest)));
  }

  lemma {:induction false} EscapeHasNoNewline(s: string)
    ensures forall k | 0 <= k < |Escape(s)| :: Escape(s)[k] != '\n'
  {
    if s != "" {
      EscapeHasNoNewline(s[1..]);
    }
  }

  lemma HeadHasNoNewline(m: Mount)
    requires RestPrintable(m)
    ensures forall k | 0 <= k < |Head(m)| :: Head(m)[k] != '\n'
  {
    EscapeHasNoNewline(m.root);
    EscapeHasNoNewline(PrintPoint(m.point));
    DeviceHasNoNewline(m);
    NoNewlineJoined(Escape(PrintPoint(m.point)), m.rest);
    NoNewlineJoined(Escape(m.root), PointPart(m));
    NoNewlineJoined(Device(m), Escape(m.root) + " " + PointPart(m));
    DigitsAreNotWhite(Decimal(m.parent));
    NoNewlineJoined(Decimal(m.parent), DevicePart(m));
    DigitsAreNotWhite(Decimal(m.id));
    NoNewlineJoined(Decimal(m.id), Decimal(m.parent) + " " + DevicePart(m));
  }

  lemma DeviceHasNoNewline(m: Mount)
    ensures NoNewline(Device(m))
  {
    DigitsAreNotWhite(Decimal(m.major));
    DigitsAreNotWhite(Decimal(m.minor));
  }

  /** The lines of a printed table are its mounts, in order. */
  lemma LinesOfTable(table: seq<Mount>, j: nat)
    requires forall i | 0 <= i < |table| :: RestPrintable(table[i])
    ensures |Lines(Print(table))| == |table|
    ensures j < |table| ==> Lines(Print(table))[j] == StripCr(Head(table[j]))
  {
    forall i | 0 <= i < |table|
      ensures NoNewline(Heads(table)[i])
    {
      HeadHasNoNewline(table[i]);
    }
    LinesOfTerminated(Heads(table), j);
  }

  // ----- Components of a printed point, and the order of lengths

  ghost predicate SlashFree(point: seq<string>) {
    forall i, k | 0 <= i < |point| && 0 <= k < |point[i]| :: point[i][k] != '/'
  }

  lemma SplitJoined(c: string, rest: string)
    requires forall k | 0 <= k < |c| :: c[k] != '/'
    ensures Split(c + ("/" + rest), '/') == [c] + Split(rest, '/')
  {
    assert c + ("/" + rest) == c + ['/'] + rest;
    SplitStep(c, '/', rest);
  }

  lemma SlashedStep(point: seq<string>)
    requires point != []
    ensures Slashed(point) == "/" + (point[0] + Slashed(point[1..]))
  {
  }

  lemma {:induction false} PiecesOfTail(point: seq<string>)
    requires SlashFree(point) && point != []
    ensures Split(point[0] + Slashed(point[1..]), '/') == point
  {
    var c, tail := point[0], point[1..];
    if tail == [] {
      assert c + Slashed(tail) == c && point == [c];
      SplitLast(c, '/');
    } else {
      PiecesOfTail(tail);
      var rest := tail[0] + Slashed(tail[1..]);
      SlashedStep(tail);
      SplitJoined(c, rest);
    }
  }

  lemma SplitLeading(rest: string)
    ensures Split("/" + rest, '/') == [""] + Split(rest, '/')
  {
    assert "/" + rest == "" + ['/'] + rest;
    SplitStep("", '/', rest);
  }

  lemma PiecesOfSlashed(point: seq<string>)
    requires SlashFree(point) && point != []
    ensures Split(Slashed(point), '/') == [""] + point && Slashed(point)[0] == '/'
  {
    var rest := point[0] + Slashed(point[1..]);
    SlashedStep(point);
    PiecesOfTail(point);
    SplitLeading(rest);
  }

  lemma ValidIsSlashFree(point: seq<string>)
    requires ValidPoint(point)
    ensures SlashFree(point)
  {
    forall i, k | 0 <= i < |point| && 0 <= k < |point[i]|
      ensures point[i][k] != '/'
    {
      assert ValidComponent(point[i]);
    }
  }

  lemma {:induction false} NormalKeeps(point: seq<string>)
    requires ValidPoint(point)
    ensures Normal(point) == point
  {
    if point != [] {
      NormalKeeps(point[1..]);
      assert point == [point[0]] + point[1..];
      assert ValidComponent(point[0]);
    }
  }

  lemma ComponentsOfPoint(point: seq<string>)
    requires ValidPoint(point)
    ensures Components(PrintPoint(point)) == ["/"] + point
  {
    NormalKeeps(point);
    if point == [] {
      assert "/" == "" + ['/'] + "";
      SplitStep("", '/', "");
      SplitLast("", '/');
      assert Normal(["", ""]) == Normal([""]) == [] by {
        assert ["", ""][1..] == [""] && [""][1..] == [];
      }
    } else {
      ValidIsSlashFree(point);
      PiecesOfSlashed(point);
      var pieces := [""] + point;
      assert pieces[1..] == point;
    }
  }

  lemma {:induction false} SlashedFrom(point: seq<string>, c: string, rest: seq<string>)
    requires point == [c] + rest
    ensures Slashed(point) == "/" + c + Slashed(rest)
  {
    assert point[0] == c && point[1..] == rest;
  }

  lemma {:induction false} SlashedAdds(p: seq<string>, q: seq<string>)
    ensures Slashed(p + q) == Slashed(p) + Slashed(q)
  {
    if p == [] {
      assert p + q == q;
    } else {
      SlashedAdds(p[1..], q);
      SlashedFrom(p, p[0], p[1..]);
      SlashedFrom(p + q, p[0], p[1..] + q);
      Regroup("/" + p[0], Slashed(p[1..]), Slashed(q));
    }
  }

  /** Points that cover the same path are ordered by length exactly as by depth. */
  lemma DeeperIsLonger(p: seq<string>, q: seq<string>)
    requires ValidPoint(q) && p <= q && p != q
    ensures Utf8Len(PrintPoint(p)) < Utf8Len(PrintPoint(q))
  {
    var r := q[|p|..];
    assert q == p + r;
    SlashedAdds(p, r);
    assert ValidComponent(q[|p|]) && r[0] == q[|p|];
    assert Slashed(r) == "/" + r[0] + Slashed(r[1..]);
    assert |Slashed(r)| >= 2;
    Utf8LenAdds(Slashed(p), Slashed(r));
    assert Utf8Len("/") == 1 by {
      assert "/"[..0] == "";
    }
  }

  lemma DepthDecidesLength(p: seq<string>, q: seq<string>, path: seq<string>)
    requires ValidPoint(p) && ValidPoint(q) && ["/"] + p <= path && ["/"] + q <= path
    ensures Utf8Len(PrintPoint(p)) < Utf8Len(PrintPoint(q)) <==> |p| < |q|
    ensures |p| == |q| <==> p == q
  {
    assert p == path[1..1 + |p|] && q == path[1..1 + |q|];
    if |p| < |q| {
      assert p <= q;
      DeeperIsLonger(p, q);
    } else if |q| < |p| {
      assert q <= p;
      DeeperIsLonger(q, p);
    }
  }

  // ----- The main theorem

  lemma ScoreOfRead(line: string, m: Mounted, path: string)
    requires ReadLine(line) == Some(m)
    ensures Score(line, path) == if Components(m.point) <= Components(path) then Some(Utf8Len(m.point)) else None
    ensures LineDevice(line) == Some((m.major, m.minor))
  {
  }

  lemma MountScore(m: Mount, path: string)
    requires Printable(m)
    ensures LineDevice(StripCr(Head(m))) == Some((m.major, m.minor))
    ensures Score(StripCr(Head(m)), path) == if Covers(m, path) then Some(Utf8Len(PrintPoint(m.point))) else None
  {
    ReadsBack(m);
    ComponentsOfPoint(m.point);
    ScoreOfRead(StripCr(Head(m)), Mounted(PrintPoint(m.point), m.major, m.minor), path);
  }

  lemma LineScore(table: seq<Mount>, path: string, j: nat)
    requires j < |table| && forall i | 0 <= i < |table| :: Printable(table[i])
    ensures |Lines(Print(table))| == |table|
    ensures LineDevice(Lines(Print(table))[j]) == Some((table[j].major, table[j].minor))
    ensures Score(Lines(Print(table))[j], path)
         == if Covers(table[j], path) then Some(Utf8Len(PrintPoint(table[j].point))) else None
  {
    LinesOfTable(table, j);
    MountScore(table[j], path);
  }

  /** On every printed table the scan returns the device of the deepest mount covering the path, the
      first one when mounts are stacked, and nothing exactly when no mount covers it. */
  method DeviceOfPath(table: seq<Mount>, path: string) returns (r: Option<(nat, nat)>, ghost best: nat)
    requires forall i | 0 <= i < |table| :: Printable(table[i])
    ensures r.Some? <==> exists i: nat :: i < |table| && Covers(table[i], path)
    ensures r.Some? ==> IsDeepest(table, path, best) && r.value == (table[best].major, table[best].minor)
  {
    r, best := MountMajorMinor(Print(table), path);
    LinesOfTable(table, 0);
    ghost var scores := Scores(Lines(Print(table)), path);
    forall j: nat | j < |table|
      ensures scores[j] == if Covers(table[j], path) then Some(Utf8Len(PrintPoint(table[j].point))) else None
    {
      LineScore(table, path, j);
      ScoreAt(Lines(Print(table)), path, j);
    }
    if r.Some? {
      LineScore(table, path, best);
      FirstMaxIsDeepest(table, scores, path, best);
    }
  }

  lemma FirstMaxIsDeepest(table: seq<Mount>, scores: seq<Option<nat>>, path: string, i: nat)
    requires forall k | 0 <= k < |table| :: Printable(table[k])
    requires |scores| == |table|
    requires forall j: nat | j < |table| ::
               scores[j] == if Covers(table[j], path) then Some(Utf8Len(PrintPoint(table[j].point))) else None
    requires IsFirstMax(scores, |scores|, i)
    ensures IsDeepest(table, path, i)
  {
    forall j: nat | j < |table| && Covers(table[j], path)
      ensures |table[j].point| < |table[i].point| || (table[j].point == table[i].point && i <= j)
    {
      DepthDecidesLength(table[j].point, table[i].point, Components(path));
      DepthDecidesLength(table[i].point, table[j].point, Components(path));
    }
  }
}
