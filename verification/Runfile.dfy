/** The self-extracting run file (src/export.rs): a shell preamble, a marker line, the archive in
    Base 64; and the pipeline with which the preamble extracts the archive from its own file. */
module Runfile {
  import opened Base64
  import opened Text

  const MARKER := "__ARCHIVE__"
  const WIDTH := 76

  // ----- Writing

  /** Lines of `WIDTH` characters, the last one shorter if need be, each closed by a newline. */
  function Wrapped(e: string): (s: string)
    decreases |e|
  {
    if e == "" then ""
    else
      var n := if |e| < WIDTH then |e| else WIDTH;
      e[..n] + "\n" + Wrapped(e[n..])
  }

  function File(preamble: string, archive: seq<Byte>): (s: string) {
    preamble + (MARKER + "\n" + Wrapped(Encode(archive)))
  }

  method WriteLines(encoded: string) returns (out: string)
    ensures out == Wrapped(encoded)
  {
    out := "";
    var i := 0;
    while i < |encoded|
      invariant 0 <= i <= |encoded|
      invariant out + Wrapped(encoded[i..]) == Wrapped(encoded)
    {
      var n := if |encoded| - i < WIDTH then |encoded| - i else WIDTH;
      WrappedStep(out, encoded, i, n);
      out := out + (encoded[i..i + n] + "\n");
      i := i + n;
    }
  }

  lemma WrappedStep(out: string, e: string, i: nat, n: nat)
    requires i < |e| && n == if |e| - i < WIDTH then |e| - i else WIDTH
    ensures out + Wrapped(e[i..]) == out + (e[i..i + n] + "\n") + Wrapped(e[i + n..])
  {
    var rest := e[i..];
    assert rest[..n] == e[i..i + n] && rest[n..] == e[i + n..];
    assert Wrapped(rest) == rest[..n] + "\n" + Wrapped(rest[n..]);
  }

  /** The bytes written to the run file. */
  method WriteRunfile(preamble: string, archive: seq<Byte>) returns (file: string)
    ensures file == File(preamble, archive)
  {
    var lines := WriteLines(Encode(archive));
    file := preamble + (MARKER + "\n" + lines);
  }

  // ----- Extracting

  /** `sed -n '/^__ARCHIVE__$/,$p' | tail -n+2`: what follows the first line equal to the marker. */
  function AfterMarker(s: string): (r: Option<string>)
    decreases |s|
  {
    var n := Find(s, '\n');
    if n == |s| then (if s == MARKER then Some("") else None)
    else if s[..n] == MARKER then Some(s[n + 1..])
    else AfterMarker(s[n + 1..])
  }

  function WithoutNewlines(s: string): (t: string) {
    if s == "" then "" else (if s[0] == '\n' then "" else [s[0]]) + WithoutNewlines(s[1..])
  }

  /** The whole pipeline; without a marker line `base64 -d` reads nothing. */
  function Extracted(file: string): (r: Option<seq<Byte>>) {
    var text := AfterMarker(file);
    Decode(WithoutNewlines(if text.Some? then text.value else ""))
  }

  // ----- Wrapping

  /** Newlines stand exactly after each `WIDTH` characters and at the end, so no line is longer. */
  lemma {:induction false} WrappedAt(e: string, k: nat)
    requires NoNewline(e) && k < |Wrapped(e)|
    ensures Wrapped(e)[k] == '\n' <==> k % (WIDTH + 1) == WIDTH || k == |Wrapped(e)| - 1
    decreases |e|
  {
    if |e| < WIDTH {
      WrappedShort(e);
      FirstNewline(e, "", k);
    } else {
      var rest := Wrapped(e[WIDTH..]);
      WrappedLong(e);
      if k <= WIDTH {
        FirstNewline(e[..WIDTH], rest, k);
      } else {
        BehindNewline(e[..WIDTH], rest, k);
        WrappedAt(e[WIDTH..], k - WIDTH - 1);
        SamePlace(k - WIDTH - 1);
      }
    }
  }

  lemma WrappedShort(e: string)
    requires |e| < WIDTH
    ensures Wrapped(e) == if e == "" then "" else e + "\n" + ""
  {
    assert e[..|e|] == e && e[|e|..] == "";
  }

  lemma {:induction false} WrappedLong(e: string)
    requires |e| >= WIDTH
    ensures Wrapped(e) == e[..WIDTH] + "\n" + Wrapped(e[WIDTH..])
  {
  }

  lemma BehindNewline(line: string, rest: string, k: nat)
    requires |line| < k <= |line| + |rest|
    ensures (line + "\n" + rest)[k] == rest[k - |line| - 1]
  {
  }

  lemma FirstNewline(line: string, rest: string, k: nat)
    requires NoNewline(line) && k <= |line|
    ensures (line + "\n" + rest)[k] == '\n' <==> k == |line|
  {
  }

  lemma SamePlace(k: nat)
    ensures (k + (WIDTH + 1)) % (WIDTH + 1) == k % (WIDTH + 1)
  {
  }

  lemma {:induction false} WithoutNewlinesAdds(a: string, b: string)
    ensures WithoutNewlines(a + b) == WithoutNewlines(a) + WithoutNewlines(b)
  {
    if a == "" {
      assert a + b == b;
    } else {
      assert (a + b)[1..] == a[1..] + b;
      WithoutNewlinesAdds(a[1..], b);
    }
  }

  lemma {:induction false} WithoutNewlinesKeeps(a: string)
    requires NoNewline(a)
    ensures WithoutNewlines(a) == a
  {
    if a != "" {
      WithoutNewlinesKeeps(a[1..]);
      assert a == [a[0]] + a[1..];
    }
  }

  lemma {:induction false} Unwrap(e: string)
    requires NoNewline(e)
    ensures WithoutNewlines(Wrapped(e)) == e
    decreases |e|
  {
    if e != "" {
      var n := if |e| < WIDTH then |e| else WIDTH;
      UnwrapLine(e[..n], Wrapped(e[n..]));
      Unwrap(e[n..]);
      assert e == e[..n] + e[n..];
    }
  }

  lemma {:induction false} UnwrapLine(line: string, rest: string)
    requires NoNewline(line)
    ensures WithoutNewlines(line + "\n" + rest) == line + WithoutNewlines(rest)
  {
    WithoutNewlinesAdds(line + "\n", rest);
    WithoutNewlinesAdds(line, "\n");
    WithoutNewlinesKeeps(line);
    assert WithoutNewlines("\n") == "" by {
      assert "\n"[1..] == "";
    }
  }

  lemma {:induction false} NoMarkerInBody(e: string)
    requires NoNewline(e) && '_' !in e
    ensures AfterMarker(Wrapped(e)) == None
    decreases |e|
  {
    if e != "" {
      var n := if |e| < WIDTH then |e| else WIDTH;
      var rest := Wrapped(e[n..]);
      var s := e[..n] + ['\n'] + rest;
      assert Wrapped(e) == s;
      FindExact(e[..n], '\n', rest);
      assert s[..n] == e[..n] && s[n + 1..] == rest;
      assert e[..n] != MARKER by {
        assert MARKER[0] == '_' && e[..n][0] == e[0];
      }
      NoMarkerInBody(e[n..]);
    }
  }

  // ----- Finding the marker behind a preamble

  /** Some complete line of the preamble is the marker. */
  predicate HasMarker(preamble: string)
    decreases |preamble|
  {
    var n := Find(preamble, '\n');
    n < |preamble| && (preamble[..n] == MARKER || HasMarker(preamble[n + 1..]))
  }

  predicate EndsItsLastLine(preamble: string) {
    preamble == "" || preamble[|preamble| - 1] == '\n'
  }

  lemma AfterLine(line: string, rest: string)
    requires NoNewline(line)
    ensures AfterMarker(line + ['\n'] + rest) == if line == MARKER then Some(rest) else AfterMarker(rest)
  {
    var s := line + ['\n'] + rest;
    FindExact(line, '\n', rest);
    assert s[..|line|] == line && s[|line| + 1..] == rest;
  }

  /** The text behind the last newline. */
  function OpenLine(s: string): (line: string)
    ensures NoNewline(line)
    decreases |s|
  {
    var n := Find(s, '\n');
    if n == |s| then s else OpenLine(s[n + 1..])
  }

  lemma {:induction false} OpenLineIsEmpty(s: string)
    ensures OpenLine(s) == "" <==> EndsItsLastLine(s)
    decreases |s|
  {
    var n := Find(s, '\n');
    if n < |s| {
      OpenLineIsEmpty(s[n + 1..]);
      SameEnd(s, n);
    }
  }

  lemma SameEnd(s: string, n: nat)
    requires n < |s| && s[n] == '\n'
    ensures EndsItsLastLine(s) <==> EndsItsLastLine(s[n + 1..])
  {
  }

  lemma FirstLineOff(s: string, n: nat, tail: string)
    requires n < |s| && s[n] == '\n'
    ensures s + tail == s[..n] + ['\n'] + (s[n + 1..] + tail)
  {
  }

  lemma {:induction false} AfterFirstLine(s: string, n: nat, tail: string)
    requires n == Find(s, '\n') < |s|
    ensures AfterMarker(s + tail)
         == if s[..n] == MARKER then Some(s[n + 1..] + tail) else AfterMarker(s[n + 1..] + tail)
  {
    FirstLineOff(s, n, tail);
    AfterLine(s[..n], s[n + 1..] + tail);
  }

  lemma {:induction false} AfterPlainLines(s: string, tail: string)
    requires !HasMarker(s)
    ensures AfterMarker(s + tail) == AfterMarker(OpenLine(s) + tail)
    decreases |s|
  {
    var n := Find(s, '\n');
    if n < |s| {
      AfterFirstLine(s, n, tail);
      AfterPlainLines(s[n + 1..], tail);
    }
  }

  lemma {:induction false} AfterOwnMarker(s: string, tail: string) returns (between: string)
    requires HasMarker(s)
    ensures AfterMarker(s + tail) == Some(between + tail)
    decreases |s|
  {
    var n := Find(s, '\n');
    AfterFirstLine(s, n, tail);
    if s[..n] == MARKER {
      between := s[n + 1..];
    } else {
      between := AfterOwnMarker(s[n + 1..], tail);
    }
  }

  lemma AfterOpenLine(open: string, body: string)
    requires NoNewline(open)
    ensures AfterMarker(open + (MARKER + "\n" + body)) == if open == "" then Some(body) else AfterMarker(body)
  {
    var line := open + MARKER;
    assert open + (MARKER + "\n" + body) == line + ['\n'] + body;
    assert NoNewline(MARKER);
    AfterLine(line, body);
    assert open == "" ==> line == MARKER;
    assert |line| == |open| + |MARKER|;
  }

  /** What extraction sees of a preamble in front of the marker line: the text after a marker line of
      its own, the text after the real marker, or, when the marker is glued to an open line, neither. */
  lemma AfterPreamble(preamble: string, body: string) returns (between: string)
    ensures AfterMarker(preamble + (MARKER + "\n" + body))
         == if HasMarker(preamble) then Some(between + (MARKER + "\n" + body))
            else if EndsItsLastLine(preamble) then Some(body)
            else AfterMarker(body)
  {
    between := "";
    if HasMarker(preamble) {
      between := AfterOwnMarker(preamble, MARKER + "\n" + body);
    } else {
      AfterPlainLines(preamble, MARKER + "\n" + body);
      AfterOpenLine(OpenLine(preamble), body);
      OpenLineIsEmpty(preamble);
    }
  }

  lemma StrangerStays(a: string, b: string)
    ensures !InAlphabet(WithoutNewlines(a + (MARKER + b)))
  {
    var rest := MARKER[1..] + b;
    assert MARKER + b == ['_'] + rest;
    WithoutNewlinesAdds(a, MARKER + b);
    var w := WithoutNewlines(a + (MARKER + b));
    var t := WithoutNewlines(MARKER + b);
    assert t[0] == '_';
    assert w[|WithoutNewlines(a)|] == '_';
  }

  lemma MarkerRejected(between: string, body: string)
    ensures Decode(WithoutNewlines(between + (MARKER + "\n" + body))).None?
  {
    StrangerStays(between, "\n" + body);
    assert MARKER + ("\n" + body) == MARKER + "\n" + body;
    StrangersRejected(WithoutNewlines(between + (MARKER + "\n" + body)));
  }

  lemma EncodedBody(e: string)
    requires NoNewline(e) && '_' !in e
    ensures Decode(WithoutNewlines(Wrapped(e))) == Decode(e)
    ensures AfterMarker(Wrapped(e)).None?
  {
    Unwrap(e);
    NoMarkerInBody(e);
  }

  lemma BodyDecodes(archive: seq<Byte>)
    ensures Decode(WithoutNewlines(Wrapped(Encode(archive)))) == Some(archive)
    ensures AfterMarker(Wrapped(Encode(archive))).None?
  {
    EncodeAlphabet(archive);
    RoundTrip(archive);
    EncodedBody(Encode(archive));
  }

  lemma BodyExtracted(preamble: string, body: string, archive: seq<Byte>)
    requires Decode(WithoutNewlines(body)) == Some(archive) && AfterMarker(body).None?
    ensures Extracted(preamble + (MARKER + "\n" + body)) == Some(archive)
       <==> !HasMarker(preamble) && (EndsItsLastLine(preamble) || archive == [])
  {
    var between := AfterPreamble(preamble, body);
    MarkerRejected(between, body);
    assert Decode(WithoutNewlines("")) == Some([]);
  }

  /** The run file yields its archive back exactly when no complete preamble line is the marker and the
      preamble ends its last line (which does not matter for an empty archive). */
  lemma ExtractionExact(preamble: string, archive: seq<Byte>)
    ensures Extracted(File(preamble, archive)) == Some(archive)
       <==> !HasMarker(preamble) && (EndsItsLastLine(preamble) || archive == [])
  {
    BodyDecodes(archive);
    BodyExtracted(preamble, Wrapped(Encode(archive)), archive);
  }
}
