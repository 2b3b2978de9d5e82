/** `/proc/locks` holder lookup (src/flock.rs): the needle format, the line filter, and the proof that
    on every rendered lock table the returned pids are exactly the flock holders of the file. */
module LockTable {
  import opened Text
  import opened Ordering

  /** `{major:02x}:{minor:02x}:{inode}`. */
  function Needle(major: nat, minor: nat, inode: nat): (s: string) {
    Hex2(major) + ":" + (Hex2(minor) + ":" + Decimal(inode))
  }

  lemma HexHasNoColon(n: nat)
    ensures NoWhite(Hex2(n))
    ensures forall k | 0 <= k < |Hex2(n)| :: Hex2(n)[k] != ':'
  {
    forall k | 0 <= k < |Hex2(n)|
      ensures !IsWhite(Hex2(n)[k]) && Hex2(n)[k] != ':'
    {
      assert IsHexDigit(Hex2(n)[k]);
    }
  }

  lemma NeedleParts(major: nat, minor: nat, inode: nat)
    ensures SplitOnce(Needle(major, minor, inode), ':') == Some((Hex2(major), Hex2(minor) + ":" + Decimal(inode)))
    ensures SplitOnce(Hex2(minor) + ":" + Decimal(inode), ':') == Some((Hex2(minor), Decimal(inode)))
  {
    var tail := Hex2(minor) + ":" + Decimal(inode);
    HexHasNoColon(major);
    HexHasNoColon(minor);
    assert Needle(major, minor, inode) == Hex2(major) + [':'] + tail;
    SplitStep(Hex2(major), ':', tail);
    assert tail == Hex2(minor) + [':'] + Decimal(inode);
    SplitStep(Hex2(minor), ':', Decimal(inode));
  }

  /** Different files have different needles. */
  lemma NeedleInjective(a: nat, b: nat, c: nat, d: nat, e: nat, f: nat)
    requires Needle(a, b, c) == Needle(d, e, f)
    ensures a == d && b == e && c == f
  {
    NeedleParts(a, b, c);
    NeedleParts(d, e, f);
    ValueOfHex(a);
    ValueOfHex(d);
    ValueOfHex(b);
    ValueOfHex(e);
    ValueOfDecimal(c);
    ValueOfDecimal(f);
  }

  // ----- The filter

  /** The pid of a line whose type is FLOCK, whose pid parses and whose device and inode are the needle. */
  function HolderOf(line: string, needle: string): (r: Option<nat>) {
    var fields := SplitWhite(line);
    if |fields| >= 6 && fields[1] == "FLOCK" && fields[5] == needle then ParseU32(fields[4]) else None
  }

  /** The matching pids in line order, repetitions included. */
  function Matches(lines: seq<string>, needle: string): (pids: seq<nat>) {
    if lines == [] then []
    else
      var n := |lines| - 1;
      match HolderOf(lines[n], needle)
      case None => Matches(lines[..n], needle)
      case Some(pid) => Matches(lines[..n], needle) + [pid]
  }

  /** `r` lists the elements of `s` once each, in the order of their first appearance. */
  ghost predicate FirstAppearances(r: seq<nat>, s: seq<nat>) {
    && Distinct(r)
    && (forall x :: x in r <==> x in s)
    && forall i, j | 0 <= i < j < |r| :: AppearsBefore(s, r[i], r[j])
  }

  /** `a` occurs in `s` before `b` first does. */
  ghost predicate AppearsBefore(s: seq<nat>, a: nat, b: nat) {
    exists k :: 0 <= k < |s| && s[k] == a && b !in s[..k + 1]
  }

  /** The pids whose line matches the needle, without repetition, in first-appearance order. */
  method FlockPids(contents: string, needle: string) returns (pids: seq<nat>)
    ensures FirstAppearances(pids, Matches(Lines(contents), needle))
  {
    pids := [];
    var lines := Lines(contents);
    for i := 0 to |lines|
      invariant FirstAppearances(pids, Matches(lines[..i], needle))
    {
      assert lines[..i + 1][..i] == lines[..i];
      var holder := ReadHolder(lines[i], needle);
      ghost var before := Matches(lines[..i], needle);
      assert Matches(lines[..i + 1], needle) == if holder.None? then before else before + [holder.value];
      if holder.Some? {
        AppearsNext(pids, before, holder.value);
        if holder.value !in pids {
          pids := pids + [holder.value];
        }
      }
    }
    assert lines[..|lines|] == lines;
  }

  /** One line, field by field. */
  method ReadHolder(line: string, needle: string) returns (r: Option<nat>)
    ensures r == HolderOf(line, needle)
  {
    var fields := SplitWhite(line);
    if |fields| < 2 || fields[1] != "FLOCK" {
      return None;
    }
    var pid := if |fields| > 4 then ParseU32(fields[4]) else None;
    if pid.None? || |fields| < 6 {
      return None;
    }
    r := if fields[5] == needle then pid else None;
  }

  lemma AppearsNext(r: seq<nat>, s: seq<nat>, x: nat)
    requires FirstAppearances(r, s)
    ensures FirstAppearances(if x in r then r else r + [x], s + [x])
  {
    var t := s + [x];
    forall i, j | 0 <= i < j < |r|
      ensures AppearsBefore(t, r[i], r[j])
    {
      assert AppearsBefore(s, r[i], r[j]);
      StillBefore(s, r[i], r[j], x);
    }
    if x !in r {
      var q := r + [x];
      forall i, j | 0 <= i < j < |q|
        ensures AppearsBefore(t, q[i], q[j])
      {
        if j == |r| {
          assert r[i] in s && x !in s;
          NewIsLast(s, r[i], x);
        } else {
          assert q[i] == r[i] && q[j] == r[j];
        }
      }
    }
  }

  lemma StillBefore(s: seq<nat>, a: nat, b: nat, x: nat)
    requires AppearsBefore(s, a, b)
    ensures AppearsBefore(s + [x], a, b)
  {
    var k :| 0 <= k < |s| && s[k] == a && b !in s[..k + 1];
    assert (s + [x])[k] == a && (s + [x])[..k + 1] == s[..k + 1];
  }

  lemma NewIsLast(s: seq<nat>, a: nat, x: nat)
    requires a in s && x !in s
    ensures AppearsBefore(s + [x], a, x)
  {
    var k :| 0 <= k < |s| && s[k] == a;
    assert (s + [x])[k] == a && (s + [x])[..k + 1] == s[..k + 1];
    assert forall m | 0 <= m <= k :: s[..k + 1][m] == s[m] && s[m] in s;
  }

  // ----- Tables the kernel prints

  datatype Kind = Flock | Posix | Access | Ofdlck | Lease | Deleg | Unknown

  /** The locked file; an entry without an inode is printed as `<none>:0`. */
  datatype File = File(major: nat, minor: nat, inode: nat) | NoFile

  /** One entry of `/proc/locks`. A blocked waiter's line carries an arrow in the second field; the
      pid of an entry outside the reader's pid namespace is printed as 0 or -1. */
  datatype Lock = Lock(id: nat, blocked: bool, kind: Kind, how: string, mode: string, pid: int,
                       file: File, range: string)

  function KindName(k: Kind): (s: string) {
    match k
    case Flock => "FLOCK"
    case Posix => "POSIX"
    case Access => "ACCESS"
    case Ofdlck => "OFDLCK"
    case Lease => "LEASE"
    case Deleg => "DELEG"
    case Unknown => "UNKNOWN"
  }

  function FileText(f: File): (s: string) {
    match f
    case File(major, minor, inode) => Needle(major, minor, inode)
    case NoFile => "<none>:0"
  }

  function PidText(pid: int): (s: string) {
    if pid < 0 then "-" + Decimal(-pid) else Decimal(pid)
  }

  ghost predicate Printable(l: Lock) {
    && l.how != "" && NoWhite(l.how) && l.mode != "" && NoWhite(l.mode)
    && forall k | 0 <= k < |l.range| :: l.range[k] != '\n'
  }

  function FilePart(l: Lock): (s: string) {
    PidText(l.pid) + " " + (FileText(l.file) + " " + l.range)
  }

  function KindPart(l: Lock): (s: string) {
    KindName(l.kind) + " " + (" " + (l.how + " " + (" " + (l.mode + " " + FilePart(l)))))
  }

  /** The line of a lock, without its newline. */
  function Head(l: Lock): (s: string) {
    Decimal(l.id) + ":" + " " + (if l.blocked then "->" + " " + KindPart(l) else KindPart(l))
  }

  function Print(table: seq<Lock>): (s: string) {
    if table == [] then "" else Head(table[0]) + "\n" + Print(table[1..])
  }

  /** The holder an entry shows for a file: a granted flock of that file, with a visible pid. */
  ghost predicate Holds(l: Lock, pid: nat, major: nat, minor: nat, inode: nat) {
    && l.kind.Flock? && !l.blocked && l.pid == pid <= U32_MAX
    && l.file == File(major, minor, inode)
  }

  lemma PidReadsBack(pid: int)
    ensures PidText(pid) != "" && NoWhite(PidText(pid))
    ensures ParseU32(PidText(pid)) == if 0 <= pid <= U32_MAX then Some(pid) else None
  {
    if pid < 0 {
      DigitsAreNotWhite(Decimal(-pid));
      assert !IsDigit(PidText(pid)[0]);
    } else {
      DigitsAreNotWhite(Decimal(pid));
      ParseDecimal(pid);
    }
  }

  lemma NeedleIsField(major: nat, minor: nat, inode: nat)
    ensures NoWhite(Needle(major, minor, inode)) && Needle(major, minor, inode) != ""
  {
    HexHasNoColon(major);
    HexHasNoColon(minor);
    DigitsAreNotWhite(Decimal(inode));
  }

  lemma FileIsField(f: File)
    ensures NoWhite(FileText(f)) && FileText(f) != ""
  {
    if f.File? {
      NeedleIsField(f.major, f.minor, f.inode);
    }
  }

  /** The printed file is the needle of a file exactly when it is that file. */
  lemma FileTextExact(f: File, major: nat, minor: nat, inode: nat)
    ensures FileText(f) == Needle(major, minor, inode) <==> f == File(major, minor, inode)
  {
    if f.NoFile? {
      assert IsHexDigit(Hex2(major)[0]) && Needle(major, minor, inode)[0] == Hex2(major)[0];
      assert FileText(f)[0] == '<';
    } else if FileText(f) == Needle(major, minor, inode) {
      NeedleInjective(f.major, f.minor, f.inode, major, minor, inode);
    }
  }

  lemma FieldsOfFile(l: Lock)
    ensures SplitWhite(FilePart(l)) == [PidText(l.pid)] + ([FileText(l.file)] + SplitWhite(l.range))
  {
    PidReadsBack(l.pid);
    FileIsField(l.file);
    SplitField(PidText(l.pid), FileText(l.file) + " " + l.range);
    SplitField(FileText(l.file), l.range);
  }

  lemma FieldsOfKind(l: Lock)
    requires Printable(l)
    ensures SplitWhite(KindPart(l)) == [KindName(l.kind)] + ([l.how] + ([l.mode] + SplitWhite(FilePart(l))))
  {
    KindIsField(l.kind);
    ThreeFields(KindName(l.kind), l.how, l.mode, FilePart(l));
  }

  lemma KindIsField(k: Kind)
    ensures NoWhite(KindName(k)) && KindName(k) != ""
  {
  }

  /** Fields set apart by one, two or one spaces. */
  lemma ThreeFields(a: string, b: string, c: string, rest: string)
    requires NoWhite(a) && a != "" && NoWhite(b) && b != "" && NoWhite(c) && c != ""
    ensures SplitWhite(a + " " + (" " + (b + " " + (" " + (c + " " + rest)))))
         == [a] + ([b] + ([c] + SplitWhite(rest)))
  {
    SpacedField(c, rest, c + " " + rest);
    SpacedField(b, " " + (c + " " + rest), b + " " + (" " + (c + " " + rest)));
    SplitSpace(c + " " + rest);
    SplitField(a, " " + (b + " " + (" " + (c + " " + rest))));
    SplitSpace(b + " " + (" " + (c + " " + rest)));
  }

  lemma SpacedField(w: string, rest: string, s: string)
    requires NoWhite(w) && w != "" && s == w + " " + rest
    ensures SplitWhite(s) == [w] + SplitWhite(rest)
  {
    SplitField(w, rest);
  }

  lemma FieldsOfHead(l: Lock)
    requires Printable(l)
    ensures var fields := SplitWhite(Head(l));
      if l.blocked then |fields| >= 2 && fields[1] == "->"
      else |fields| >= 6 && fields[1] == KindName(l.kind) && fields[4] == PidText(l.pid)
           && fields[5] == FileText(l.file)
  {
    var id := Decimal(l.id) + ":";
    DigitsAreNotWhite(Decimal(l.id));
    assert NoWhite(id);
    if l.blocked {
      SplitField(id, "->" + " " + KindPart(l));
      SplitField("->", KindPart(l));
    } else {
      SplitField(id, KindPart(l));
      FieldsOfKind(l);
      FieldsOfFile(l);
      SixFields([id, KindName(l.kind), l.how, l.mode, PidText(l.pid), FileText(l.file)], SplitWhite(l.range));
    }
  }

  lemma SixFields(w: seq<string>, rest: seq<string>)
    requires |w| == 6
    ensures [w[0]] + ([w[1]] + ([w[2]] + ([w[3]] + ([w[4]] + ([w[5]] + rest))))) == w + rest
  {
  }

  lemma HolderOfFields(line: string, fields: seq<string>, needle: string)
    requires fields == SplitWhite(line) && |fields| >= 2
    ensures HolderOf(line, needle)
         == if |fields| >= 6 && fields[1] == "FLOCK" && fields[5] == needle then ParseU32(fields[4]) else None
  {
  }

  lemma KindNames(k: Kind)
    ensures KindName(k) == "FLOCK" <==> k.Flock?
    ensures KindName(k) != "->"
  {
  }

  /** A rendered entry shows exactly the holder it stands for. */
  lemma HolderReadsBack(l: Lock, major: nat, minor: nat, inode: nat)
    requires Printable(l)
    ensures HolderOf(Head(l), Needle(major, minor, inode)) == ShownBy(l, major, minor, inode)
  {
    FieldsOfHead(l);
    HolderOfFields(Head(l), SplitWhite(Head(l)), Needle(major, minor, inode));
    KindNames(l.kind);
    PidReadsBack(l.pid);
    FileTextExact(l.file, major, minor, inode);
  }

  lemma LineReadsBack(l: Lock, major: nat, minor: nat, inode: nat)
    requires Printable(l)
    ensures HolderOf(StripCr(Head(l)), Needle(major, minor, inode)) == ShownBy(l, major, minor, inode)
  {
    var n := l.(range := StripCr(l.range));
    StripHead(l);
    HolderReadsBack(n, major, minor, inode);
  }

  lemma StripFilePart(l: Lock)
    ensures StripCr(FilePart(l)) == FilePart(l.(range := StripCr(l.range)))
  {
    var needle := FileText(l.file) + " ";
    StripAfter(needle, l.range);
    StripTail(PidText(l.pid) + " ", needle + l.range);
  }

  lemma StripKindPart(l: Lock)
    ensures StripCr(KindPart(l)) == KindPart(l.(range := StripCr(l.range)))
  {
    var mode := l.mode + " " + FilePart(l);
    var how := l.how + " " + (" " + mode);
    StripFilePart(l);
    StripTail(l.mode + " ", FilePart(l));
    StripTail(" ", mode);
    StripTail(l.how + " ", " " + mode);
    StripTail(" ", how);
    StripTail(KindName(l.kind) + " ", " " + how);
  }

  lemma StripHead(l: Lock)
    ensures StripCr(Head(l)) == Head(l.(range := StripCr(l.range)))
  {
    var id := Decimal(l.id) + ":" + " ";
    StripKindPart(l);
    StripTail("->" + " ", KindPart(l));
    StripTail(id, "->" + " " + KindPart(l));
    StripTail(id, KindPart(l));
  }

  lemma NoWhiteNoNewline(s: string)
    requires NoWhite(s)
    ensures NoNewline(s)
  {
  }

  lemma FilePartHasNoNewline(l: Lock)
    requires Printable(l)
    ensures NoNewline(FilePart(l))
  {
    var needle := FileText(l.file);
    FileIsField(l.file);
    NoWhiteNoNewline(needle);
    NoNewlineJoined(needle, l.range);
    PidReadsBack(l.pid);
    NoWhiteNoNewline(PidText(l.pid));
    NoNewlineJoined(PidText(l.pid), needle + " " + l.range);
  }

  lemma KindPartHasNoNewline(l: Lock)
    requires Printable(l)
    ensures NoNewline(KindPart(l))
  {
    var tail := l.mode + " " + FilePart(l);
    FilePartHasNoNewline(l);
    NoWhiteNoNewline(l.mode);
    NoNewlineJoined(l.mode, FilePart(l));
    NoWhiteNoNewline(l.how);
    NoNewlineJoined(l.how, " " + tail);
    NoNewlineJoined(KindName(l.kind), " " + (l.how + " " + (" " + tail)));
  }

  lemma HeadHasNoNewline(l: Lock)
    requires Printable(l)
    ensures NoNewline(Head(l))
  {
    KindPartHasNoNewline(l);
    DigitsAreNotWhite(Decimal(l.id));
    NoWhiteNoNewline(Decimal(l.id));
    NoNewlineJoined("->", KindPart(l));
    NoNewlineJoined(Decimal(l.id) + ":", if l.blocked then "->" + " " + KindPart(l) else KindPart(l));
  }

  ghost predicate AllPrintable(table: seq<Lock>) {
    forall i | 0 <= i < |table| :: Printable(table[i])
  }

  /** The holder an entry shows for a file, if any. */
  function ShownBy(l: Lock, major: nat, minor: nat, inode: nat): (r: Option<nat>) {
    if l.kind.Flock? && !l.blocked && 0 <= l.pid <= U32_MAX && l.file == File(major, minor, inode)
    then Some(l.pid) else None
  }

  /** The pids a table shows for a file, in table order. */
  function Shown(table: seq<Lock>, major: nat, minor: nat, inode: nat): (pids: seq<nat>) {
    if table == [] then []
    else Prepend(ShownBy(table[0], major, minor, inode), Shown(table[1..], major, minor, inode))
  }

  function Prepend(x: Option<nat>, s: seq<nat>): (t: seq<nat>) {
    if x.None? then s else [x.value] + s
  }

  lemma {:induction false} MatchesFront(line: string, lines: seq<string>, needle: string)
    ensures Matches([line] + lines, needle) == Prepend(HolderOf(line, needle), Matches(lines, needle))
  {
    var all := [line] + lines;
    var n := |lines| - 1;
    if lines == [] {
      assert all[..0] == [];
    } else {
      assert all[..|all| - 1] == [line] + lines[..n];
      MatchesFront(line, lines[..n], needle);
    }
  }

  /** On a printed table the filter sees exactly the pids the table shows for the file. */
  lemma {:induction false} MatchesOfTable(table: seq<Lock>, major: nat, minor: nat, inode: nat)
    requires AllPrintable(table)
    ensures Matches(Lines(Print(table)), Needle(major, minor, inode)) == Shown(table, major, minor, inode)
  {
    if table != [] {
      var rest := table[1..];
      HeadHasNoNewline(table[0]);
      LinesStep(Head(table[0]), Print(rest));
      MatchesOfTable(rest, major, minor, inode);
      MatchesFront(StripCr(Head(table[0])), Lines(Print(rest)), Needle(major, minor, inode));
      LineReadsBack(table[0], major, minor, inode);
    }
  }

  /** A pid is shown exactly when some entry is a granted flock of the file by it. */
  lemma {:induction false} ShownExactly(table: seq<Lock>, major: nat, minor: nat, inode: nat, pid: nat)
    ensures pid in Shown(table, major, minor, inode)
       <==> exists i :: 0 <= i < |table| && Holds(table[i], pid, major, minor, inode)
  {
    if table != [] {
      var rest := table[1..];
      ShownExactly(rest, major, minor, inode, pid);
      assert ShownBy(table[0], major, minor, inode) == Some(pid) <==> Holds(table[0], pid, major, minor, inode);
      if exists i :: 0 <= i < |rest| && Holds(rest[i], pid, major, minor, inode) {
        var i :| 0 <= i < |rest| && Holds(rest[i], pid, major, minor, inode);
        assert Holds(table[i + 1], pid, major, minor, inode);
      }
      if exists i :: 1 <= i < |table| && Holds(table[i], pid, major, minor, inode) {
        var i :| 1 <= i < |table| && Holds(table[i], pid, major, minor, inode);
        assert Holds(rest[i - 1], pid, major, minor, inode);
      }
    }
  }

  /** Looking up a file in any rendered table returns exactly its flock holders, once each, in the
      order in which the table first shows them. */
  method HoldersOf(table: seq<Lock>, major: nat, minor: nat, inode: nat) returns (pids: seq<nat>)
    requires AllPrintable(table)
    ensures FirstAppearances(pids, Shown(table, major, minor, inode))
    ensures forall pid: nat ::
              pid in pids <==> exists i :: 0 <= i < |table| && Holds(table[i], pid, major, minor, inode)
  {
    pids := FlockPids(Print(table), Needle(major, minor, inode));
    MatchesOfTable(table, major, minor, inode);
    forall pid: nat
      ensures pid in pids <==> exists i :: 0 <= i < |table| && Holds(table[i], pid, major, minor, inode)
    {
      ShownExactly(table, major, minor, inode, pid);
    }
  }
}
