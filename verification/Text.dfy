/** The parts of Rust's `str` the lock-file and CPU-list parsers rely on: whitespace and line
    splitting, integer parsing, and the decimal and hexadecimal forms the kernel prints. */
module Text {

  datatype Option<+T> = None | Some(value: T)

  const U32_MAX := 0xFFFF_FFFF

  type Byte = n: nat | n < 256

  // ----- Whitespace

  /** Unicode `White_Space`, which `split_whitespace` and `trim` use. */
  predicate IsWhite(c: char) {
    || '\U{9}' <= c <= '\U{D}' || c == ' ' || c == '\U{85}' || c == '\U{A0}' || c == '\U{1680}'
    || '\U{2000}' <= c <= '\U{200A}' || c == '\U{2028}' || c == '\U{2029}' || c == '\U{202F}'
    || c == '\U{205F}' || c == '\U{3000}'
  }

  predicate NoWhite(s: string) {
    forall i | 0 <= i < |s| :: !IsWhite(s[i])
  }

  /** Length of the longest prefix without whitespace. */
  function WordEnd(s: string): (n: nat)
    ensures n <= |s| && NoWhite(s[..n])
    ensures n < |s| ==> IsWhite(s[n])
  {
    if s == "" || IsWhite(s[0]) then 0
    else
      assert forall k | 1 <= k <= WordEnd(s[1..]) :: s[k] == s[1..][k - 1] || k == |s|;
      1 + WordEnd(s[1..])
  }

  /** `str::split_whitespace`: the maximal runs without whitespace. */
  function SplitWhite(s: string): (words: seq<string>)
    decreases |s|
  {
    if s == "" then []
    else if IsWhite(s[0]) then SplitWhite(s[1..])
    else
      var n := WordEnd(s);
      assert n > 0;
      [s[..n]] + SplitWhite(s[n..])
  }

  lemma WordEndExact(w: string, s: string)
    requires NoWhite(w) && (s == "" || IsWhite(s[0]))
    ensures WordEnd(w + s) == |w|
  {
    var t := w + s;
    assert forall k | 0 <= k < |w| :: t[k] == w[k];
    assert s != "" ==> t[|w|] == s[0];
    assert forall k | 0 <= k < WordEnd(t) :: t[..WordEnd(t)][k] == t[k];
  }

  /** A field followed by a space is split off whole. */
  lemma SplitField(w: string, s: string)
    requires NoWhite(w) && w != ""
    ensures SplitWhite(w + " " + s) == [w] + SplitWhite(s)
  {
    var rest := " " + s;
    assert w + " " + s == w + rest;
    WordEndExact(w, rest);
    assert (w + rest)[0] == w[0];
    assert (w + rest)[..|w|] == w && (w + rest)[|w|..] == rest;
    assert rest[1..] == s;
  }

  lemma SplitSpace(s: string)
    ensures SplitWhite(" " + s) == SplitWhite(s)
  {
    assert (" " + s)[1..] == s;
  }

  // ----- Lines and separators

  lemma Regroup<T>(a: seq<T>, b: seq<T>, c: seq<T>)
    ensures a + (b + c) == a + b + c
  {
  }

  function StripCr(line: string): (s: string) {
    if line != "" && line[|line| - 1] == '\r' then line[..|line| - 1] else line
  }

  lemma StripAfter(pre: string, rest: string)
    requires pre != "" && pre[|pre| - 1] != '\r'
    ensures StripCr(pre + rest) == pre + StripCr(rest)
  {
    if rest == "" {
      assert pre + rest == pre;
    } else {
      assert (pre + rest)[..|pre + rest| - 1] == pre + rest[..|rest| - 1];
    }
  }

  lemma StripTail(pre: string, rest: string)
    requires rest != ""
    ensures StripCr(pre + rest) == pre + StripCr(rest)
  {
    assert (pre + rest)[..|pre + rest| - 1] == pre + rest[..|rest| - 1];
  }

  ghost predicate NoNewline(s: string) {
    forall k | 0 <= k < |s| :: s[k] != '\n'
  }

  lemma NoNewlineJoined(a: string, b: string)
    requires NoNewline(a) && NoNewline(b)
    ensures NoNewline(a + " " + b)
  {
  }

  /** Position of the first `c`, or the length. */
  function Find(s: string, c: char): (n: nat)
    ensures n <= |s|
    ensures forall k | 0 <= k < n :: s[k] != c
    ensures n < |s| ==> s[n] == c
  {
    if s == "" || s[0] == c then 0 else 1 + Find(s[1..], c)
  }

  /** `str::lines`: split after each newline, dropping it and a carriage return before it. */
  function Lines(s: string): (lines: seq<string>)
    decreases |s|
  {
    if s == "" then []
    else
      var n := Find(s, '\n');
      if n == |s| then [s] else [StripCr(s[..n])] + Lines(s[n + 1..])
  }

  lemma FindExact(a: string, c: char, b: string)
    requires forall k | 0 <= k < |a| :: a[k] != c
    ensures Find(a + [c] + b, c) == |a|
  {
    var s := a + [c] + b;
    assert forall k | 0 <= k < |a| :: s[k] == a[k];
    assert s[|a|] == c;
  }

  lemma LinesStep(line: string, rest: string)
    requires forall k | 0 <= k < |line| :: line[k] != '\n'
    ensures Lines(line + "\n" + rest) == [StripCr(line)] + Lines(rest)
  {
    var s := line + "\n" + rest;
    assert s == line + ['\n'] + rest;
    FindExact(line, '\n', rest);
    assert s[..|line|] == line && s[|line| + 1..] == rest;
  }

  /** Lines, each terminated by a newline. */
  function Terminated(lines: seq<string>): (s: string) {
    if lines == [] then "" else lines[0] + "\n" + Terminated(lines[1..])
  }

  lemma {:induction false} LinesOfTerminated(lines: seq<string>, j: nat)
    requires forall i | 0 <= i < |lines| :: NoNewline(lines[i])
    ensures |Lines(Terminated(lines))| == |lines|
    ensures j < |lines| ==> Lines(Terminated(lines))[j] == StripCr(lines[j])
  {
    if lines != [] {
      LinesOfTerminated(lines[1..], if j == 0 then 0 else j - 1);
      LinesStep(lines[0], Terminated(lines[1..]));
    }
  }

  /** `str::split(c)`: one more piece than there are separators. */
  function Split(s: string, c: char): (pieces: seq<string>)
    ensures pieces != []
    decreases |s|
  {
    var n := Find(s, c);
    if n == |s| then [s] else [s[..n]] + Split(s[n + 1..], c)
  }

  /** `str::split_once(c)`. */
  function SplitOnce(s: string, c: char): (parts: Option<(string, string)>) {
    var n := Find(s, c);
    if n == |s| then None else Some((s[..n], s[n + 1..]))
  }

  lemma SplitStep(a: string, c: char, b: string)
    requires forall k | 0 <= k < |a| :: a[k] != c
    ensures Split(a + [c] + b, c) == [a] + Split(b, c)
    ensures SplitOnce(a + [c] + b, c) == Some((a, b))
  {
    var s := a + [c] + b;
    FindExact(a, c, b);
    assert s[..|a|] == a && s[|a| + 1..] == b;
  }

  lemma SplitLast(a: string, c: char)
    requires forall k | 0 <= k < |a| :: a[k] != c
    ensures Split(a, c) == [a] && SplitOnce(a, c) == None
  {
    var n := Find(a, c);
    assert n == |a|;
  }

  function TrimStart(s: string): (t: string) {
    if s != "" && IsWhite(s[0]) then TrimStart(s[1..]) else s
  }

  function TrimEnd(s: string): (t: string) {
    if s != "" && IsWhite(s[|s| - 1]) then TrimEnd(s[..|s| - 1]) else s
  }

  /** `str::trim`. */
  function Trim(s: string): (t: string) {
    TrimEnd(TrimStart(s))
  }

  // ----- Numbers

  function Digit(d: nat): (c: char)
    requires d < 10
  {
    '0' + d as char
  }

  predicate IsDigit(c: char) {
    '0' <= c <= '9'
  }

  predicate AllDigits(s: string) {
    forall i | 0 <= i < |s| :: IsDigit(s[i])
  }

  /** Decimal form without leading zeros. */
  function Decimal(n: nat): (s: string)
    ensures s != "" && AllDigits(s)
  {
    if n < 10 then [Digit(n)] else Decimal(n / 10) + [Digit(n % 10)]
  }

  function Value(s: string): (n: nat)
    requires AllDigits(s)
  {
    if s == "" then 0 else Value(s[..|s| - 1]) * 10 + (s[|s| - 1] as nat - '0' as nat)
  }

  lemma {:induction false} ValueOfDecimal(n: nat)
    ensures Value(Decimal(n)) == n
  {
    if n >= 10 {
      ValueOfDecimal(n / 10);
      var s := Decimal(n);
      assert s[..|s| - 1] == Decimal(n / 10);
    } else {
      assert Decimal(n)[..0] == "";
    }
  }

  /** `str::parse::<u32>`: an optional plus sign, at least one digit, and no overflow. */
  function ParseU32(s: string): (r: Option<nat>)
    ensures r.Some? ==> r.value <= U32_MAX
  {
    var digits := if s != "" && s[0] == '+' then s[1..] else s;
    if digits == "" || !AllDigits(digits) || Value(digits) > U32_MAX then None else Some(Value(digits))
  }

  /** Printing then parsing gives the number back, or an error when it does not fit. */
  lemma ParseDecimal(n: nat)
    ensures ParseU32(Decimal(n)) == if n <= U32_MAX then Some(n) else None
  {
    var s := Decimal(n);
    assert IsDigit(s[0]);
    ValueOfDecimal(n);
  }

  /** Neither trimming nor the carriage return rule takes a digit away. */
  lemma DigitsKept(s: string)
    requires AllDigits(s)
    ensures Trim(s) == s && StripCr(s) == s
  {
    if s != "" {
      assert IsDigit(s[0]) && IsDigit(s[|s| - 1]);
    }
  }

  lemma DigitsAreNotWhite(s: string)
    requires AllDigits(s)
    ensures NoWhite(s)
    ensures forall c: char, k | !IsDigit(c) && 0 <= k < |s| :: s[k] != c
  {
    forall k | 0 <= k < |s|
      ensures !IsWhite(s[k])
    {
      assert IsDigit(s[k]);
    }
  }

  function HexDigit(d: nat): (c: char)
    requires d < 16
  {
    if d < 10 then '0' + d as char else 'a' + (d - 10) as char
  }

  predicate IsHexDigit(c: char) {
    '0' <= c <= '9' || 'a' <= c <= 'f'
  }

  /** `{:02x}`. */
  function Hex2(n: nat): (s: string)
    ensures s != "" && forall i | 0 <= i < |s| :: IsHexDigit(s[i])
  {
    if n < 256 then [HexDigit(n / 16), HexDigit(n % 16)] else Hex2(n / 16) + [HexDigit(n % 16)]
  }

  function HexDigitValue(c: char): (d: nat)
    requires IsHexDigit(c)
  {
    if c <= '9' then c as nat - '0' as nat else c as nat - 'a' as nat + 10
  }

  function HexValue(s: string): (n: nat)
    requires forall i | 0 <= i < |s| :: IsHexDigit(s[i])
  {
    if s == "" then 0 else HexValue(s[..|s| - 1]) * 16 + HexDigitValue(s[|s| - 1])
  }

  lemma {:induction false} ValueOfHex(n: nat)
    ensures HexValue(Hex2(n)) == n
  {
    var s := Hex2(n);
    if n >= 256 {
      ValueOfHex(n / 16);
      assert s[..|s| - 1] == Hex2(n / 16);
    } else {
      assert s[..1] == [HexDigit(n / 16)] && s[..1][..0] == "";
      assert HexValue(s[..1]) == HexDigitValue(HexDigit(n / 16)) == n / 16;
    }
  }

  // ----- UTF-8 length

  function CharWidth(c: char): (n: nat)
    ensures 1 <= n <= 4
  {
    if c < '\U{80}' then 1 else if c < '\U{800}' then 2 else if c < '\U{10000}' then 3 else 4
  }

  /** `str::len`: the number of bytes. */
  function Utf8Len(s: string): (n: nat)
    ensures n >= |s|
  {
    if s == "" then 0 else Utf8Len(s[..|s| - 1]) + CharWidth(s[|s| - 1])
  }

  lemma {:induction false} Utf8LenAdds(a: string, b: string)
    ensures Utf8Len(a + b) == Utf8Len(a) + Utf8Len(b)
  {
    if b == "" {
      assert a + b == a;
    } else {
      var n := |b| - 1;
      Utf8LenAdds(a, b[..n]);
      assert (a + b)[..|a + b| - 1] == a + b[..n];
    }
  }
}
