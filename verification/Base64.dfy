/** The Base 64 encoding of section 4 of RFC 4648: bytes to 6-bit groups, groups to letters, padding. */
module Base64 {
  import opened Text

  type Group = n: nat | n < 64

  // ----- Groups

  function Groups(bytes: seq<Byte>): (q: seq<Group>)
    ensures |q| == |bytes| + (|bytes| + 2) / 3
  {
    if bytes == [] then []
    else
      var x := bytes[0];
      if |bytes| == 1 then [x / 4, x % 4 * 16]
      else
        var y := bytes[1];
        if |bytes| == 2 then [x / 4, x % 4 * 16 + y / 16, y % 16 * 4]
        else
          var z := bytes[2];
          [x / 4, x % 4 * 16 + y / 16, y % 16 * 4 + z / 64, z % 64] + Groups(bytes[3..])
  }

  function Bytes(q: seq<Group>): (bytes: seq<Byte>) {
    if |q| < 2 then []
    else
      var a: nat, b: nat := q[0], q[1];
      var x: Byte := a * 4 + b / 16;
      if |q| == 2 then [x]
      else
        var c: nat := q[2];
        var y: Byte := b % 16 * 16 + c / 4;
        if |q| == 3 then [x, y]
        else
          var d: nat := q[3];
          [x, y, c % 4 * 64 + d] + Bytes(q[4..])
  }

  lemma FirstByte(x: Byte, y: Byte)
    ensures x / 4 * 4 + (x % 4 * 16 + y / 16) / 16 == x
  {
  }

  lemma SecondByte(x: Byte, y: Byte, z: Byte)
    ensures (x % 4 * 16 + y / 16) % 16 * 16 + (y % 16 * 4 + z / 64) / 4 == y
  {
    LowFourBits(x % 4, y / 16);
    HighFourBits(y % 16, z / 64);
  }

  lemma LowFourBits(high: nat, low: nat)
    requires low < 16
    ensures (high * 16 + low) % 16 == low
  {
  }

  lemma HighFourBits(high: nat, low: nat)
    requires low < 4
    ensures (high * 4 + low) / 4 == high
  {
  }

  lemma ThirdByte(y: Byte, z: Byte)
    ensures (y % 16 * 4 + z / 64) % 4 * 64 + z % 64 == z
  {
  }

  lemma Regrouped(x: Byte, y: Byte, z: Byte) returns (a: Group, b: Group, c: Group, d: Group)
    ensures a == x / 4 && b == x % 4 * 16 + y / 16 && c == y % 16 * 4 + z / 64 && d == z % 64
    ensures a * 4 + b / 16 == x && b % 16 * 16 + c / 4 == y && c % 4 * 64 + d == z
  {
    a, b, c, d := x / 4, x % 4 * 16 + y / 16, y % 16 * 4 + z / 64, z % 64;
    FirstByte(x, y);
    SecondByte(x, y, z);
    ThirdByte(y, z);
  }

  lemma GroupsStep(x: Byte, y: Byte, z: Byte, rest: seq<Byte>, a: Group, b: Group, c: Group, d: Group)
    requires a == x / 4 && b == x % 4 * 16 + y / 16 && c == y % 16 * 4 + z / 64 && d == z % 64
    ensures Groups([x, y, z] + rest) == [a, b, c, d] + Groups(rest)
  {
    assert ([x, y, z] + rest)[3..] == rest;
  }

  lemma BytesStep(a: Group, b: Group, c: Group, d: Group, rest: seq<Group>)
    ensures Bytes([a, b, c, d] + rest) == [a * 4 + b / 16, b % 16 * 16 + c / 4, c % 4 * 64 + d] + Bytes(rest)
  {
    assert ([a, b, c, d] + rest)[4..] == rest;
  }

  lemma ThreeBytes(x: Byte, y: Byte, z: Byte, rest: seq<Byte>)
    requires Bytes(Groups(rest)) == rest
    ensures Bytes(Groups([x, y, z] + rest)) == [x, y, z] + rest
  {
    var a, b, c, d := Regrouped(x, y, z);
    GroupsStep(x, y, z, rest, a, b, c, d);
    BytesStep(a, b, c, d, Groups(rest));
  }

  lemma LastBytes(x: Byte, y: Byte)
    ensures Bytes(Groups([x])) == [x] && Bytes(Groups([x, y])) == [x, y]
  {
    FirstByte(x, 0);
    FirstByte(x, y);
    SecondByte(x, y, 0);
  }

  lemma {:induction false} BytesOfGroups(bytes: seq<Byte>)
    ensures Bytes(Groups(bytes)) == bytes
  {
    if bytes == [] {
    } else if |bytes| == 1 {
      LastBytes(bytes[0], 0);
      assert bytes == [bytes[0]];
    } else if |bytes| == 2 {
      LastBytes(bytes[0], bytes[1]);
      assert bytes == [bytes[0], bytes[1]];
    } else {
      BytesOfGroups(bytes[3..]);
      ThreeBytes(bytes[0], bytes[1], bytes[2], bytes[3..]);
      assert bytes == [bytes[0], bytes[1], bytes[2]] + bytes[3..];
    }
  }

  // ----- Letters

  function Letter(d: Group): (c: char) {
    if d < 26 then 'A' + d as char
    else if d < 52 then 'a' + (d - 26) as char
    else if d < 62 then '0' + (d - 52) as char
    else if d == 62 then '+' else '/'
  }

  predicate IsLetter(c: char) {
    'A' <= c <= 'Z' || 'a' <= c <= 'z' || '0' <= c <= '9' || c == '+' || c == '/'
  }

  function LetterValue(c: char): (d: Group)
    requires IsLetter(c)
  {
    if 'A' <= c <= 'Z' then (c - 'A') as nat
    else if 'a' <= c <= 'z' then (c - 'a') as nat + 26
    else if '0' <= c <= '9' then (c - '0') as nat + 52
    else if c == '+' then 62 else 63
  }

  function Letters(q: seq<Group>): (s: string)
    ensures |s| == |q|
  {
    if q == [] then "" else [Letter(q[0])] + Letters(q[1..])
  }

  predicate AllLetters(s: string) {
    forall i | 0 <= i < |s| :: IsLetter(s[i])
  }

  function Values(s: string): (q: seq<Group>)
    requires AllLetters(s)
  {
    if s == "" then [] else [LetterValue(s[0])] + Values(s[1..])
  }

  lemma LetterReadsBack(d: Group)
    ensures IsLetter(Letter(d)) && LetterValue(Letter(d)) == d
  {
  }

  lemma ValuesStep(c: char, s: string)
    requires IsLetter(c) && AllLetters(s)
    ensures AllLetters([c] + s) && Values([c] + s) == [LetterValue(c)] + Values(s)
  {
    assert ([c] + s)[0] == c && ([c] + s)[1..] == s;
  }

  lemma {:induction false} ValuesOfLetters(q: seq<Group>)
    ensures AllLetters(Letters(q)) && Values(Letters(q)) == q
  {
    if q != [] {
      ValuesOfLetters(q[1..]);
      LetterReadsBack(q[0]);
      ValuesStep(Letter(q[0]), Letters(q[1..]));
      assert q == [q[0]] + q[1..];
    }
  }

  // ----- Padding

  function Pad(n: nat): (s: string)
    ensures |s| == (3 - n % 3) % 3
  {
    if n % 3 == 1 then "==" else if n % 3 == 2 then "=" else ""
  }

  function Encode(bytes: seq<Byte>): (s: string) {
    Letters(Groups(bytes)) + Pad(|bytes|)
  }

  function Body(s: string): (body: string) {
    var n := |s|;
    if n >= 2 && s[n - 2] == '=' && s[n - 1] == '=' then s[..n - 2]
    else if n >= 1 && s[n - 1] == '=' then s[..n - 1]
    else s
  }

  function Decode(s: string): (r: Option<seq<Byte>>) {
    if |s| % 4 == 0 && AllLetters(Body(s)) then Some(Bytes(Values(Body(s)))) else None
  }

  lemma BodyOfPadded(body: string, n: nat)
    requires AllLetters(body)
    ensures Body(body + Pad(n)) == body
  {
    var s := body + Pad(n);
    assert forall i | 0 <= i < |body| :: s[i] == body[i] && s[i] != '=';
    assert s[..|body|] == body;
  }

  lemma PaddedLength(n: nat)
    ensures (n + (n + 2) / 3 + (3 - n % 3) % 3) % 4 == 0
  {
    var k, r := n / 3, n % 3;
    assert n == 3 * k + r;
    PaddedGroups(k, r);
  }

  lemma PaddedGroups(k: nat, r: nat)
    requires r < 3
    ensures (3 * k + r + (3 * k + r + 2) / 3 + (3 - r) % 3) % 4 == 0
  {
    var m := if r == 0 then k else k + 1;
    assert (3 * k + r + 2) / 3 == m;
    assert 3 * k + r + m + (3 - r) % 3 == 4 * m;
    MultipleOfFour(m);
  }

  lemma MultipleOfFour(m: nat)
    ensures 4 * m % 4 == 0
  {
  }

  lemma RoundTrip(bytes: seq<Byte>)
    ensures Decode(Encode(bytes)) == Some(bytes)
  {
    ValuesOfLetters(Groups(bytes));
    BytesOfGroups(bytes);
    PaddedLength(|bytes|);
    DecodePadded(Letters(Groups(bytes)), |bytes|);
  }

  lemma DecodePadded(body: string, n: nat)
    requires AllLetters(body) && (|body| + |Pad(n)|) % 4 == 0
    ensures Decode(body + Pad(n)) == Some(Bytes(Values(body)))
  {
    BodyOfPadded(body, n);
  }

  ghost predicate InAlphabet(s: string) {
    forall i | 0 <= i < |s| :: IsLetter(s[i]) || s[i] == '='
  }

  lemma EncodeAlphabet(bytes: seq<Byte>)
    ensures InAlphabet(Encode(bytes))
  {
    ValuesOfLetters(Groups(bytes));
  }

  /** Text with a character outside the alphabet is rejected. */
  lemma StrangersRejected(s: string)
    requires !InAlphabet(s)
    ensures Decode(s).None?
  {
    var i :| 0 <= i < |s| && !IsLetter(s[i]) && s[i] != '=';
    assert i < |Body(s)| && Body(s)[i] == s[i];
  }
}
