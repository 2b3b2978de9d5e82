/** CPU lists such as `0-3,5,7-9` (src/cpu_util.rs). */
module CpuLists {
  import opened Ordering
  import opened Text

  const MAX_RANGE: nat := 65_536

  /** What one comma-separated token says. */
  datatype Token = Blank | Range(lo: nat, hi: nat) | Malformed

  /** The numbers from lo to hi, unless reversed or too many. */
  function RangeToken(lo: nat, hi: nat): (t: Token) {
    if hi < lo || hi - lo + 1 > MAX_RANGE then Malformed else Range(lo, hi)
  }

  function ReadToken(token: string): (t: Token) {
    var text := Trim(token);
    if text == "" then Blank
    else
      var parts := SplitOnce(text, '-');
      if parts.Some? then
        var lo, hi := ParseU32(parts.value.0), ParseU32(parts.value.1);
        if lo.Some? && hi.Some? then RangeToken(lo.value, hi.value) else Malformed
      else
        var n := ParseU32(text);
        if n.Some? then Range(n.value, n.value) else Malformed
  }

  ghost predicate Covers(t: Token, cpu: nat) {
    t.Range? && t.lo <= cpu <= t.hi
  }

  function ReadTokens(tokens: seq<string>): (ts: seq<Token>)
    ensures |ts| == |tokens|
  {
    if tokens == [] then [] else ReadTokens(tokens[..|tokens| - 1]) + [ReadToken(tokens[|tokens| - 1])]
  }

  lemma {:induction false} RangesInOrder(tokens: seq<string>)
    ensures forall i | 0 <= i < |tokens| && ReadTokens(tokens)[i].Range? ::
              ReadTokens(tokens)[i].lo <= ReadTokens(tokens)[i].hi
  {
    forall i | 0 <= i < |tokens|
      ensures ReadTokens(tokens)[i].Range? ==> ReadTokens(tokens)[i].lo <= ReadTokens(tokens)[i].hi
    {
      TokenAt(tokens, i);
      RangesAreNotEmpty(tokens[i]);
    }
  }

  lemma {:induction false} TokenAt(tokens: seq<string>, i: nat)
    requires i < |tokens|
    ensures ReadTokens(tokens)[i] == ReadToken(tokens[i])
  {
    if i < |tokens| - 1 {
      TokenAt(tokens[..|tokens| - 1], i);
    }
  }

  ghost predicate SomeCovers(ts: seq<Token>, cpu: nat) {
    exists i :: 0 <= i < |ts| && Covers(ts[i], cpu)
  }

  ghost predicate WellFormed(ts: seq<Token>) {
    forall i | 0 <= i < |ts| :: !ts[i].Malformed?
  }

  lemma OneMore(ts: seq<Token>, t: Token, cpu: nat)
    ensures SomeCovers(ts + [t], cpu) <==> SomeCovers(ts, cpu) || Covers(t, cpu)
  {
    var more := ts + [t];
    if SomeCovers(ts, cpu) {
      var k :| 0 <= k < |ts| && Covers(ts[k], cpu);
      assert more[k] == ts[k];
    }
    if SomeCovers(more, cpu) {
      var k :| 0 <= k < |more| && Covers(more[k], cpu);
      assert k < |ts| ==> ts[k] == more[k];
    }
    assert more[|ts|] == t;
  }

  /** One iteration of the token loop: the numbers a token adds, or nothing when it is malformed. */
  method Expand(token: string) returns (r: Option<seq<nat>>)
    ensures r.None? <==> ReadToken(token).Malformed?
    ensures r.Some? ==> forall cpu :: cpu in r.value <==> Covers(ReadToken(token), cpu)
  {
    var text := Trim(token);
    if text == "" {
      return Some([]);
    }
    var parts := SplitOnce(text, '-');
    if parts.None? {
      var n := ParseU32(text);
      return if n.Some? then Some([n.value]) else None;
    }
    var lo := ParseU32(parts.value.0);
    if lo.None? {
      return None;
    }
    var hi := ParseU32(parts.value.1);
    if hi.None? || hi.value < lo.value {
      return None;
    }
    var span := hi.value - lo.value + 1;
    if span > MAX_RANGE {
      return None;
    }
    var out := Pushed(lo.value, hi.value);
    r := Some(out);
  }

  /** The inner loop over the range of a token. */
  method Pushed(lo: nat, hi: nat) returns (out: seq<nat>)
    requires lo <= hi
    ensures forall cpu :: cpu in out <==> lo <= cpu <= hi
  {
    out := [];
    for c := lo to hi + 1
      invariant forall cpu :: cpu in out <==> lo <= cpu < c
    {
      out := out + [c];
    }
  }

  lemma ReadOneMore(tokens: seq<string>, i: nat)
    requires i < |tokens|
    ensures ReadTokens(tokens[..i + 1]) == ReadTokens(tokens[..i]) + [ReadToken(tokens[i])]
  {
    assert tokens[..i + 1][..i] == tokens[..i];
  }

  lemma AllMore(ts: seq<Token>, t: Token, out: seq<nat>, more: seq<nat>)
    requires forall cpu :: cpu in out <==> SomeCovers(ts, cpu)
    requires forall cpu :: cpu in more <==> Covers(t, cpu)
    ensures forall cpu :: cpu in out + more <==> SomeCovers(ts + [t], cpu)
  {
    forall cpu: nat
      ensures cpu in out + more <==> SomeCovers(ts + [t], cpu)
    {
      OneMore(ts, t, cpu);
    }
  }

  method ExpandAll(tokens: seq<string>) returns (r: Option<seq<nat>>)
    ensures r.None? <==> !WellFormed(ReadTokens(tokens))
    ensures r.Some? ==> forall cpu :: cpu in r.value <==> SomeCovers(ReadTokens(tokens), cpu)
  {
    var out: seq<nat> := [];
    for i := 0 to |tokens|
      invariant WellFormed(ReadTokens(tokens[..i]))
      invariant forall cpu :: cpu in out <==> SomeCovers(ReadTokens(tokens[..i]), cpu)
    {
      var more := Expand(tokens[i]);
      ReadOneMore(tokens, i);
      if more.None? {
        TokenAt(tokens, i);
        return None;
      }
      AllMore(ReadTokens(tokens[..i]), ReadToken(tokens[i]), out, more.value);
      out := out + more.value;
    }
    assert tokens[..|tokens|] == tokens;
    r := Some(out);
  }

  /** Commas and white space only. */
  ghost predicate OnlySeparators(s: string) {
    forall i | 0 <= i < |s| :: s[i] == ',' || IsWhite(s[i])
  }

  /** The strictly ascending union of the named ranges; nothing for blank input or any malformed token.
      The empty list is returned exactly for commas and white space with at least one comma. */
  method ParseCpuList(s: string) returns (r: Option<seq<nat>>)
    ensures r.None? <==> Trim(s) == "" || !WellFormed(ReadTokens(Split(Trim(s), ',')))
    ensures r.Some? ==> StrictlyAscending(r.value)
    ensures r.Some? ==> forall cpu :: cpu in r.value <==> SomeCovers(ReadTokens(Split(Trim(s), ',')), cpu)
    ensures r == Some([]) <==> OnlySeparators(s) && ',' in s
  {
    var text := Trim(s);
    SeparatorsAfterTrim(s);
    NothingNamedExactly(text);
    if text == "" {
      return None;
    }
    var out := ExpandAll(Split(text, ','));
    if out.None? {
      return None;
    }
    SortedElements(out.value);
    DedupAscending(Sorted(out.value));
    r := Some(Dedup(Sorted(out.value)));
    RangesInOrder(Split(text, ','));
    EmptyExactly(r.value, ReadTokens(Split(text, ',')));
  }

  /** Two commas give the empty list, not a rejection. */
  method SeparatorsOnly(s: string) returns (r: Option<seq<nat>>)
    requires s == ",,"
    ensures r == Some([])
  {
    r := ParseCpuList(s);
    assert s[0] == ',';
  }

  // ----- When nothing is named

  ghost predicate AllWhite(s: string) {
    forall i | 0 <= i < |s| :: IsWhite(s[i])
  }

  lemma {:induction false} TrimStartBlank(s: string)
    ensures AllWhite(s) <==> TrimStart(s) == ""
    ensures TrimStart(s) != "" ==> !IsWhite(TrimStart(s)[0])
    ensures OnlySeparators(s) <==> OnlySeparators(TrimStart(s))
    ensures ',' in s <==> ',' in TrimStart(s)
  {
    if s != "" && IsWhite(s[0]) {
      TrimStartBlank(s[1..]);
      assert s == [s[0]] + s[1..];
    }
  }

  lemma {:induction false} TrimEndBlank(s: string)
    ensures AllWhite(s) <==> TrimEnd(s) == ""
    ensures OnlySeparators(s) <==> OnlySeparators(TrimEnd(s))
    ensures ',' in s <==> ',' in TrimEnd(s)
    decreases |s|
  {
    if s != "" && IsWhite(s[|s| - 1]) {
      TrimEndBlank(s[..|s| - 1]);
      assert s == s[..|s| - 1] + [s[|s| - 1]];
    }
  }

  lemma TrimBlank(s: string)
    ensures AllWhite(s) <==> Trim(s) == ""
  {
    TrimStartBlank(s);
    TrimEndBlank(TrimStart(s));
  }

  lemma SeparatorsAfterTrim(s: string)
    ensures OnlySeparators(s) && ',' in s <==> OnlySeparators(Trim(s)) && Trim(s) != ""
  {
    var t := TrimStart(s);
    TrimStartBlank(s);
    TrimEndBlank(t);
    TrimBlank(s);
    assert OnlySeparators(s) && ',' !in s ==> AllWhite(s);
    assert ',' in s ==> !AllWhite(s);
  }

  /** Blank tokens throughout. */
  ghost predicate AllBlank(ts: seq<Token>) {
    forall i | 0 <= i < |ts| :: ts[i].Blank?
  }

  lemma BlankExactly(token: string)
    ensures ReadToken(token).Blank? <==> AllWhite(token)
  {
    TrimBlank(token);
  }

  ghost predicate AllTokensWhite(tokens: seq<string>) {
    forall i | 0 <= i < |tokens| :: AllWhite(tokens[i])
  }

  lemma WhiteTokensStep(first: string, rest: seq<string>)
    ensures AllTokensWhite([first] + rest) <==> AllWhite(first) && AllTokensWhite(rest)
  {
    var all := [first] + rest;
    assert all[0] == first && all[1..] == rest;
    assert forall i | 0 <= i < |rest| :: rest[i] == all[i + 1];
    assert forall i | 1 <= i < |all| :: all[i] == rest[i - 1];
  }

  lemma SeparatorsStep(first: string, rest: string)
    requires ',' !in first
    ensures OnlySeparators(first + [','] + rest) <==> AllWhite(first) && OnlySeparators(rest)
  {
    var s := first + [','] + rest;
    assert forall i | 0 <= i < |first| :: s[i] == first[i];
    assert forall i | 0 <= i < |rest| :: s[|first| + 1 + i] == rest[i];
    assert forall i | |first| < i < |s| :: s[i] == rest[i - |first| - 1];
  }

  lemma {:induction false} WhiteTokensExactly(s: string)
    ensures AllTokensWhite(Split(s, ',')) <==> OnlySeparators(s)
    decreases |s|
  {
    var n := Find(s, ',');
    if n == |s| {
      WhiteTokensStep(s, []);
      assert Split(s, ',') == [s] + [];
    } else {
      var first, rest := s[..n], s[n + 1..];
      WhiteTokensExactly(rest);
      WhiteTokensStep(first, Split(rest, ','));
      SeparatorsStep(first, rest);
      assert s == first + [','] + rest;
    }
  }

  lemma BlankTokens(tokens: seq<string>)
    ensures AllBlank(ReadTokens(tokens)) <==> AllTokensWhite(tokens)
  {
    forall i | 0 <= i < |tokens|
      ensures ReadTokens(tokens)[i].Blank? <==> AllWhite(tokens[i])
    {
      TokenAt(tokens, i);
      BlankExactly(tokens[i]);
    }
  }

  lemma NothingNamedExactly(text: string)
    ensures AllBlank(ReadTokens(Split(text, ','))) <==> OnlySeparators(text)
  {
    BlankTokens(Split(text, ','));
    WhiteTokensExactly(text);
  }

  lemma RangesAreNotEmpty(token: string)
    ensures ReadToken(token).Range? ==> ReadToken(token).lo <= ReadToken(token).hi
  {
  }

  /** A list that names nothing comes from blank tokens. */
  lemma EmptyExactly(cpus: seq<nat>, ts: seq<Token>)
    requires WellFormed(ts) && forall i | 0 <= i < |ts| && ts[i].Range? :: ts[i].lo <= ts[i].hi
    requires forall cpu :: cpu in cpus <==> SomeCovers(ts, cpu)
    ensures cpus == [] <==> AllBlank(ts)
  {
    assert |cpus| > 0 ==> cpus[0] in cpus;
    if !AllBlank(ts) {
      var i :| 0 <= i < |ts| && !ts[i].Blank?;
      assert Covers(ts[i], ts[i].lo);
      assert SomeCovers(ts, ts[i].lo);
    }
  }

  // ----- The kernel's form

  datatype Span = Span(lo: nat, hi: nat)

  ghost predicate Printable(r: Span) {
    r.lo <= r.hi <= U32_MAX && r.hi - r.lo < MAX_RANGE
  }

  function PrintSpan(r: Span): (s: string) {
    if r.lo == r.hi then Decimal(r.lo) else Decimal(r.lo) + "-" + Decimal(r.hi)
  }

  function Print(spans: seq<Span>): (s: string)
    requires spans != []
  {
    if |spans| == 1 then PrintSpan(spans[0]) else PrintSpan(spans[0]) + "," + Print(spans[1..])
  }

  /** Digits, dashes and commas only. */
  ghost predicate ListText(s: string) {
    forall i | 0 <= i < |s| :: IsDigit(s[i]) || s[i] == '-' || s[i] == ','
  }

  lemma TrimKeeps(s: string)
    requires ListText(s)
    ensures Trim(s) == s
  {
    if s != "" {
      assert !IsWhite(s[0]) && !IsWhite(s[|s| - 1]);
    }
  }

  lemma DigitsAreListText(s: string)
    requires AllDigits(s)
    ensures ListText(s) && forall k | 0 <= k < |s| :: s[k] != '-' && s[k] != ','
  {
    forall k | 0 <= k < |s|
      ensures IsDigit(s[k])
    {
    }
  }

  lemma SingleReadsBack(n: nat)
    requires n <= U32_MAX
    ensures ReadToken(Decimal(n)) == Range(n, n)
  {
    DigitsAreListText(Decimal(n));
    TrimKeeps(Decimal(n));
    SplitLast(Decimal(n), '-');
    ParseDecimal(n);
  }

  lemma PairReadsBack(lo: nat, hi: nat)
    requires lo <= U32_MAX && hi <= U32_MAX
    ensures ReadToken(Decimal(lo) + "-" + Decimal(hi)) == RangeToken(lo, hi)
  {
    var a, b := Decimal(lo), Decimal(hi);
    DigitsAreListText(a);
    DigitsAreListText(b);
    TrimKeeps(a + "-" + b);
    assert a + "-" + b == a + ['-'] + b;
    SplitStep(a, '-', b);
    ParseDecimal(lo);
    ParseDecimal(hi);
  }

  lemma SpanReadsBack(r: Span)
    requires Printable(r)
    ensures ReadToken(PrintSpan(r)) == Range(r.lo, r.hi)
  {
    SingleReadsBack(r.lo);
    PairReadsBack(r.lo, r.hi);
  }

  lemma SpanText(r: Span)
    ensures ListText(PrintSpan(r)) && PrintSpan(r) != ""
    ensures forall i | 0 <= i < |PrintSpan(r)| :: PrintSpan(r)[i] != ','
  {
    DigitsAreListText(Decimal(r.lo));
    DigitsAreListText(Decimal(r.hi));
  }

  lemma {:induction false} PrintedText(spans: seq<Span>)
    requires spans != []
    ensures ListText(Print(spans)) && Print(spans) != ""
  {
    SpanText(spans[0]);
    if |spans| > 1 {
      PrintedText(spans[1..]);
    }
  }

  lemma {:induction false} TokensOfPrinted(spans: seq<Span>)
    requires spans != []
    ensures |Split(Print(spans), ',')| == |spans|
    ensures forall i | 0 <= i < |spans| :: Split(Print(spans), ',')[i] == PrintSpan(spans[i])
  {
    var first := PrintSpan(spans[0]);
    SpanText(spans[0]);
    if |spans| == 1 {
      SplitLast(first, ',');
    } else {
      var rest := Print(spans[1..]);
      TokensOfPrinted(spans[1..]);
      assert Print(spans) == first + [','] + rest;
      SplitStep(first, ',', rest);
    }
  }

  ghost predicate SomeHolds(spans: seq<Span>, cpu: nat) {
    exists i :: 0 <= i < |spans| && spans[i].lo <= cpu <= spans[i].hi
  }

  lemma PrintedToken(spans: seq<Span>, i: nat)
    requires i < |spans| && Printable(spans[i])
    ensures |Split(Print(spans), ',')| == |spans|
    ensures ReadTokens(Split(Print(spans), ','))[i] == Range(spans[i].lo, spans[i].hi)
  {
    TokensOfPrinted(spans);
    TokenAt(Split(Print(spans), ','), i);
    SpanReadsBack(spans[i]);
  }

  lemma CoversOfSpans(ts: seq<Token>, spans: seq<Span>)
    requires |ts| == |spans| && forall i | 0 <= i < |spans| :: ts[i] == Range(spans[i].lo, spans[i].hi)
    ensures WellFormed(ts) && forall cpu :: SomeCovers(ts, cpu) <==> SomeHolds(spans, cpu)
  {
    forall cpu: nat
      ensures SomeCovers(ts, cpu) <==> SomeHolds(spans, cpu)
    {
      assert forall i | 0 <= i < |spans| :: Covers(ts[i], cpu) <==> spans[i].lo <= cpu <= spans[i].hi;
    }
  }

  lemma PrintedCovers(spans: seq<Span>) returns (ts: seq<Token>)
    requires spans != [] && forall i | 0 <= i < |spans| :: Printable(spans[i])
    ensures ts == ReadTokens(Split(Print(spans), ','))
    ensures WellFormed(ts) && forall cpu :: SomeCovers(ts, cpu) <==> SomeHolds(spans, cpu)
  {
    ts := ReadTokens(Split(Print(spans), ','));
    PrintedToken(spans, 0);
    forall i | 0 <= i < |spans|
      ensures ts[i] == Range(spans[i].lo, spans[i].hi)
    {
      PrintedToken(spans, i);
    }
    CoversOfSpans(ts, spans);
  }

  /** Parsing the printed form of any list of ranges gives exactly the CPUs in them. */
  method ParsePrinted(spans: seq<Span>) returns (r: Option<seq<nat>>)
    requires spans != [] && forall i | 0 <= i < |spans| :: Printable(spans[i])
    ensures r.Some? && StrictlyAscending(r.value)
    ensures forall cpu: nat :: cpu in r.value <==> SomeHolds(spans, cpu)
  {
    r := ParseCpuList(Print(spans));
    PrintedText(spans);
    TrimKeeps(Print(spans));
    ghost var ts := PrintedCovers(spans);
  }
}
