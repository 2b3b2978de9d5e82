/** The process-wide release cache (src/fetch.rs): a write-once slot that racing callers consult and
    fill, a bypass for other clients, and a guard against other URLs. */
module ReleaseCache {
  import opened Text

  /** A client is known by its address, a release list by its content. */
  type Client = nat
  type Url = string
  type Releases = seq<string>

  const RELEASES_URL := "https://www.kernel.org/releases.json"

  datatype Fetched = Good(releases: Releases) | Bad

  /** Where a call is. `Fetching(fills)`: on the network, and whether a result would go to the slot. */
  datatype Pc =
    | Idle
    | Routing
    | Looking
    | Fetching(fills: bool)
    | Filling(own: Releases)
    | Returned(result: Fetched)
    | Panicked

  /** `late`: the slot was already set when the call began. `fetches`: network round trips so far. */
  datatype Call = Call(pc: Pc, client: Client, url: Url, late: bool, fetches: nat)

  datatype Fetch = Fetch(client: Client, url: Url, result: Fetched)

  /** `shared` and `slot` are write-once cells; `network` lists every completed fetch. */
  datatype State = State(shared: Option<Client>, slot: Option<Releases>, calls: seq<Call>, network: seq<Fetch>)

  datatype Step =
    | InitShared(client: Client)
    | Begin(p: nat, client: Client, url: Url)
    | Route(p: nat, debug: bool)
    | Look(p: nat)
    | Receive(p: nat, result: Fetched)
    | Fill(p: nat)

  /** `is_shared_client`: no client equals a singleton that is not there yet. */
  predicate IsShared(s: State, client: Client) {
    s.shared == Some(client)
  }

  /** Calls that go through the cache. */
  predicate Eligible(s: State, c: Call) {
    IsShared(s, c.client) && c.url == RELEASES_URL
  }

  /** Where a call goes with the answer of the network. */
  function Received(pc: Pc, result: Fetched): (next: Pc)
    requires pc.Fetching?
  {
    if pc.fills && result.Good? then Filling(result.releases) else Returned(result)
  }

  ghost predicate At(s: State, p: nat, t: State, c: Call) {
    p < |s.calls| && t == s.(calls := s.calls[p := c])
  }

  /** Not inside a call. */
  predicate Free(c: Call) {
    c.pc.Idle? || c.pc.Returned? || c.pc.Panicked?
  }

  ghost predicate Next(s: State, t: State, step: Step) {
    match step
    case InitShared(client) => s.shared.None? && t == s.(shared := Some(client))
    case Begin(p, client, url) =>
      && p < |s.calls| && Free(s.calls[p])
      && At(s, p, t, Call(Routing, client, url, s.slot.Some?, 0))
    case Route(p, debug) =>
      && p < |s.calls| && s.calls[p].pc.Routing?
      && var c := s.calls[p];
         At(s, p, t, c.(pc := if !IsShared(s, c.client) then Fetching(false)
                              else if c.url != RELEASES_URL then (if debug then Panicked else Fetching(false))
                              else Looking))
    case Look(p) =>
      && p < |s.calls| && s.calls[p].pc.Looking?
      && At(s, p, t, s.calls[p].(pc := if s.slot.Some? then Returned(Good(s.slot.value)) else Fetching(true)))
    case Receive(p, result) =>
      && p < |s.calls| && s.calls[p].pc.Fetching?
      && var c := s.calls[p];
         t == s.(calls := s.calls[p := c.(pc := Received(c.pc, result), fetches := c.fetches + 1)],
                 network := s.network + [Fetch(c.client, c.url, result)])
    case Fill(p) =>
      && p < |s.calls| && s.calls[p].pc.Filling?
      && var c := s.calls[p];
         t == s.(calls := s.calls[p := c.(pc := Returned(Good(c.pc.own)))],
                 slot := if s.slot.None? then Some(c.pc.own) else s.slot)
  }

  ghost predicate Init(s: State) {
    s.shared.None? && s.slot.None? && s.network == [] && forall p | 0 <= p < |s.calls| :: s.calls[p].pc.Idle?
  }

  // ----- Invariant

  /** A successful fetch of the production URL by the shared client returned these releases. */
  ghost predicate Genuine(s: State, releases: Releases) {
    s.shared.Some? && Fetch(s.shared.value, RELEASES_URL, Good(releases)) in s.network
  }

  ghost predicate CallOk(s: State, c: Call) {
    && (!c.pc.Idle? && c.late ==> s.slot.Some?)
    && match c.pc
       case Idle => true
       case Routing => c.fetches == 0
       case Looking => c.fetches == 0 && Eligible(s, c)
       case Fetching(fills) => c.fetches == 0 && (fills ==> Eligible(s, c) && !c.late) && (c.late ==> !Eligible(s, c))
       case Filling(own) => c.fetches == 1 && Eligible(s, c) && !c.late && Genuine(s, own)
       case Returned(result) =>
         && c.fetches <= 1 && (c.late && Eligible(s, c) ==> c.fetches == 0)
         && (c.fetches == 0 ==> s.slot.Some? && result == Good(s.slot.value))
         && (c.fetches == 1 ==> Fetch(c.client, c.url, result) in s.network)
       case Panicked => c.fetches == 0 && IsShared(s, c.client) && c.url != RELEASES_URL
  }

  ghost predicate Inv(s: State) {
    && (s.slot.Some? ==> Genuine(s, s.slot.value))
    && forall p | 0 <= p < |s.calls| :: CallOk(s, s.calls[p])
  }

  /** What the other calls rely on: cells are written at most once, the network record only grows. */
  ghost predicate Grows(s: State, t: State) {
    && (s.shared.Some? ==> t.shared == s.shared)
    && (s.slot.Some? ==> t.slot == s.slot)
    && s.network <= t.network
    && |t.calls| == |s.calls|
  }

  lemma NextGrows(s: State, t: State, step: Step)
    requires Next(s, t, step)
    ensures Grows(s, t)
  {
  }

  lemma CallStaysOk(s: State, t: State, c: Call)
    requires Inv(s) && CallOk(s, c) && Grows(s, t)
    ensures CallOk(t, c)
  {
  }

  lemma NextKeepsInv(s: State, t: State, step: Step)
    requires Inv(s) && Next(s, t, step)
    ensures Inv(t) && Grows(s, t)
  {
    NextGrows(s, t, step);
    match step
    case InitShared(_) =>
      forall p | 0 <= p < |t.calls| ensures CallOk(t, t.calls[p]) { CallStaysOk(s, t, s.calls[p]); }
    case Begin(p, _, _) => OthersStayOk(s, t, p);
    case Route(p, _) => OthersStayOk(s, t, p);
    case Look(p) => OthersStayOk(s, t, p);
    case Receive(p, _) => OthersStayOk(s, t, p);
    case Fill(p) => OthersStayOk(s, t, p);
  }

  lemma OthersStayOk(s: State, t: State, p: nat)
    requires Inv(s) && Grows(s, t) && p < |s.calls|
    requires t.calls == s.calls[p := t.calls[p]] && CallOk(t, t.calls[p])
    ensures forall q | 0 <= q < |t.calls| :: CallOk(t, t.calls[q])
  {
    forall q | 0 <= q < |t.calls|
      ensures CallOk(t, t.calls[q])
    {
      if q != p {
        CallStaysOk(s, t, s.calls[q]);
      }
    }
  }

  // ----- Runs

  ghost predicate IsRun(run: seq<State>, steps: seq<Step>) {
    && |run| == |steps| + 1 && Init(run[0])
    && forall k | 0 <= k < |steps| :: Next(run[k], run[k + 1], steps[k])
  }

  lemma {:induction false} RunKeepsInv(run: seq<State>, steps: seq<Step>, k: nat)
    requires IsRun(run, steps) && k < |run|
    ensures Inv(run[k])
  {
    if k > 0 {
      RunKeepsInv(run, steps, k - 1);
      NextKeepsInv(run[k - 1], run[k], steps[k - 1]);
    }
  }

  /** The slot holds only a successful fetch of the production URL by the shared client, and once
      written it never changes. */
  lemma {:induction false} SlotWrittenOnce(run: seq<State>, steps: seq<Step>, i: nat, j: nat)
    requires IsRun(run, steps) && i <= j < |run| && run[i].slot.Some?
    ensures run[j].slot == run[i].slot && Genuine(run[j], run[i].slot.value)
  {
    RunKeepsInv(run, steps, j);
    if i < j {
      SlotWrittenOnce(run, steps, i, j - 1);
      NextGrows(run[j - 1], run[j], steps[j - 1]);
    }
  }

  /** Only a call by the shared client for the production URL that fetched successfully writes it: no
      failure, no bypass. */
  lemma OnlyEligibleCallsWrite(run: seq<State>, steps: seq<Step>, k: nat)
    requires IsRun(run, steps) && k < |steps| && run[k + 1].slot != run[k].slot
    ensures run[k].slot.None? && steps[k].Fill?
    ensures var c := run[k].calls[steps[k].p];
            Eligible(run[k], c) && c.pc.Filling? && c.fetches == 1 && run[k + 1].slot == Some(c.pc.own)
  {
    RunKeepsInv(run, steps, k);
    assert Next(run[k], run[k + 1], steps[k]);
  }

  /** A call begun after the slot was set, by the shared client for the production URL, never reaches
      the network and returns the cached value. */
  lemma LateCallsSkipTheNetwork(run: seq<State>, steps: seq<Step>, k: nat, p: nat)
    requires IsRun(run, steps) && k < |run| && p < |run[k].calls|
    requires run[k].calls[p].late && Eligible(run[k], run[k].calls[p]) && !run[k].calls[p].pc.Idle?
    ensures run[k].slot.Some? && run[k].calls[p].fetches == 0
    ensures !run[k].calls[p].pc.Fetching? && !run[k].calls[p].pc.Filling?
    ensures run[k].calls[p].pc.Returned? ==> run[k].calls[p].pc.result == Good(run[k].slot.value)
  {
    RunKeepsInv(run, steps, k);
    assert CallOk(run[k], run[k].calls[p]);
  }

  /** A caller that returns something else than the cached value fetched it itself and began before the
      slot was set; and when all genuine fetches agree there is no such caller. */
  lemma OnlyRacersDisagree(run: seq<State>, steps: seq<Step>, k: nat, p: nat)
    requires IsRun(run, steps) && k < |run| && p < |run[k].calls| && run[k].slot.Some?
    requires Eligible(run[k], run[k].calls[p]) && run[k].calls[p].pc.Returned? && run[k].calls[p].pc.result.Good?
    requires run[k].calls[p].pc.result.releases != run[k].slot.value
    ensures !run[k].calls[p].late && run[k].calls[p].fetches == 1
    ensures exists a, b :: a != b && Genuine(run[k], a) && Genuine(run[k], b)
  {
    RunKeepsInv(run, steps, k);
    assert CallOk(run[k], run[k].calls[p]);
    assert Genuine(run[k], run[k].slot.value) && Genuine(run[k], run[k].calls[p].pc.result.releases);
  }

  // ----- A race

  ghost predicate Reachable(s: State) {
    exists run, steps :: IsRun(run, steps) && run[|steps|] == s
  }

  lemma ReachStep(s: State, t: State, step: Step)
    requires Reachable(s) && Next(s, t, step)
    ensures Reachable(t)
  {
    var run, steps :| IsRun(run, steps) && run[|steps|] == s;
    var run', steps' := run + [t], steps + [step];
    assert IsRun(run', steps') && run'[|steps'|] == t;
  }

  const ADDRESS: Client := 7

  function Racer(pc: Pc, fetches: nat): (c: Call) {
    Call(pc, ADDRESS, RELEASES_URL, false, fetches)
  }

  function Race(a: Call, b: Call): (s: State) {
    State(Some(ADDRESS), None, [a, b], [])
  }

  /** Two callers can be on the network at the same time. */
  lemma BothFetch()
    ensures Reachable(Race(Racer(Fetching(true), 0), Racer(Fetching(true), 0)))
  {
    var idle := Racer(Idle, 0);
    var start := State(None, None, [idle, idle], []);
    assert IsRun([start], []) && [start][0] == start;
    ReachStep(start, Race(idle, idle), InitShared(ADDRESS));
    OneFetches(idle, 0);
    var fetching := Racer(Fetching(true), 0);
    OneFetches(fetching, 1);
  }

  lemma OneFetches(other: Call, p: nat)
    requires p < 2
    requires Reachable(if p == 0 then Race(Racer(Idle, 0), other) else Race(other, Racer(Idle, 0)))
    ensures var c := Racer(Fetching(true), 0);
            Reachable(if p == 0 then Race(c, other) else Race(other, c))
  {
    var s0 := if p == 0 then Race(Racer(Idle, 0), other) else Race(other, Racer(Idle, 0));
    var s1 := s0.(calls := s0.calls[p := Racer(Routing, 0)]);
    ReachStep(s0, s1, Begin(p, ADDRESS, RELEASES_URL));
    var s2 := s1.(calls := s1.calls[p := Racer(Looking, 0)]);
    ReachStep(s1, s2, Route(p, false));
    var s3 := s2.(calls := s2.calls[p := Racer(Fetching(true), 0)]);
    ReachStep(s2, s3, Look(p));
    var c := Racer(Fetching(true), 0);
    assert s3 == if p == 0 then Race(c, other) else Race(other, c);
  }

  lemma BothReceive(a: Releases, b: Releases) returns (s: State)
    ensures Reachable(s)
    ensures s == Race(Racer(Filling(a), 1), Racer(Filling(b), 1)).(
                   network := [Fetch(ADDRESS, RELEASES_URL, Good(a)), Fetch(ADDRESS, RELEASES_URL, Good(b))])
  {
    BothFetch();
    var s0 := Race(Racer(Fetching(true), 0), Racer(Fetching(true), 0));
    var s1 := s0.(calls := s0.calls[0 := Racer(Filling(a), 1)], network := [Fetch(ADDRESS, RELEASES_URL, Good(a))]);
    ReachStep(s0, s1, Receive(0, Good(a)));
    s := s1.(calls := s1.calls[1 := Racer(Filling(b), 1)],
             network := s1.network + [Fetch(ADDRESS, RELEASES_URL, Good(b))]);
    ReachStep(s1, s, Receive(1, Good(b)));
  }

  /** Two racing callers that were served different contents return different lists: equal results
      are a property of the server, not of the cache. */
  lemma RacersMayDisagree(a: Releases, b: Releases) returns (s: State)
    ensures Reachable(s) && |s.calls| == 2 && Eligible(s, s.calls[0]) && Eligible(s, s.calls[1])
    ensures s.calls[0].pc == Returned(Good(a)) && s.calls[1].pc == Returned(Good(b)) && s.slot == Some(a)
    ensures s.network == [Fetch(ADDRESS, RELEASES_URL, Good(a)), Fetch(ADDRESS, RELEASES_URL, Good(b))]
  {
    var s2 := BothReceive(a, b);
    var s3 := s2.(calls := s2.calls[0 := Racer(Returned(Good(a)), 1)], slot := Some(a));
    ReachStep(s2, s3, Fill(0));
    s := s3.(calls := s3.calls[1 := Racer(Returned(Good(b)), 1)]);
    ReachStep(s3, s, Fill(1));
  }

  /** Every list the server handed out is one of these. */
  ghost predicate AnswersIn(s: State, answers: iset<Releases>) {
    forall k | 0 <= k < |s.network| && s.network[k].result.Good? :: s.network[k].result.releases in answers
  }

  /** Every eligible call that succeeded returned the cached value, if there is one. */
  ghost predicate Agrees(s: State) {
    forall p | 0 <= p < |s.calls| && s.slot.Some? && Eligible(s, s.calls[p]) && s.calls[p].pc.Returned?
               && s.calls[p].pc.result.Good? ::
      s.calls[p].pc.result.releases == s.slot.value
  }

  lemma OneAnswerAgrees(s: State, answers: iset<Releases>)
    requires Reachable(s) && AnswersIn(s, answers) && forall a, b | a in answers && b in answers :: a == b
    ensures Agrees(s)
  {
    var run, steps :| IsRun(run, steps) && run[|steps|] == s;
    RunKeepsInv(run, steps, |steps|);
    forall p | 0 <= p < |s.calls| && s.slot.Some? && Eligible(s, s.calls[p]) && s.calls[p].pc.Returned?
               && s.calls[p].pc.result.Good?
      ensures s.calls[p].pc.result.releases == s.slot.value
    {
      assert CallOk(s, s.calls[p]);
      assert Genuine(s, s.slot.value);
      GenuineIsAnswer(s, s.slot.value, answers);
      if s.calls[p].fetches == 1 {
        GenuineIsAnswer(s, s.calls[p].pc.result.releases, answers);
      }
    }
  }

  lemma GenuineIsAnswer(s: State, releases: Releases, answers: iset<Releases>)
    requires Genuine(s, releases) && AnswersIn(s, answers)
    ensures releases in answers
  {
    var f := Fetch(s.shared.value, RELEASES_URL, Good(releases));
    var k :| 0 <= k < |s.network| && s.network[k] == f;
  }

  /** Racing or not, eligible callers agree with the cache in every run over a set of server answers
      exactly when that set has at most one element. */
  lemma AgreementExact(answers: iset<Releases>)
    ensures (forall s | Reachable(s) && AnswersIn(s, answers) :: Agrees(s))
       <==> forall a, b | a in answers && b in answers :: a == b
  {
    if forall a, b | a in answers && b in answers :: a == b {
      forall s | Reachable(s) && AnswersIn(s, answers)
        ensures Agrees(s)
      {
        OneAnswerAgrees(s, answers);
      }
    } else {
      var a, b :| a in answers && b in answers && a != b;
      var s := RacersMayDisagree(a, b);
      assert !Agrees(s) by {
        assert s.calls[1].pc.result.releases != s.slot.value;
      }
    }
  }

  // ----- The function itself, among other callers

  class Process {
    var st: State

    constructor (n: nat)
      ensures Inv(st) && Init(st) && |st.calls| == n
    {
      st := State(None, None, seq(n, _ => Call(Idle, 0, "", false, 0)), []);
    }

    /** Steps of the other callers, if any. */
    method Others(p: nat)
      requires Inv(st) && p < |st.calls|
      modifies this
      ensures Inv(st) && Grows(old(st), st) && st.calls[p] == old(st).calls[p]
    {
    }

    method Advance(p: nat, t: State, ghost step: Step)
      requires Inv(st) && p < |st.calls| && Next(st, t, step)
      modifies this
      ensures Inv(st) && Grows(t, st) && Grows(old(st), st) && p < |t.calls| && st.calls[p] == t.calls[p]
    {
      NextKeepsInv(st, t, step);
      st := t;
      Others(p);
    }

    /** `cached_releases_with_url`; `None` is the panic of a debug build. A call that starts when the
        slot is set returns its content without a fetch; a successful eligible call leaves it set. */
    method CachedReleasesWithUrl(p: nat, client: Client, url: Url, debug: bool) returns (r: Option<Fetched>)
      requires Inv(st) && p < |st.calls| && Free(st.calls[p])
      modifies this
      ensures Inv(st) && Grows(old(st), st) && p < |st.calls| && Free(st.calls[p])
      ensures r.None? ==> debug && url != RELEASES_URL && IsShared(st, client)
      ensures old(IsShared(st, client)) && url != RELEASES_URL && debug ==> r.None?
      ensures old(st).slot.Some? && old(IsShared(st, client)) && url == RELEASES_URL ==>
                r == Some(Good(old(st).slot.value)) && st.calls[p].fetches == 0
      ensures old(IsShared(st, client)) && url == RELEASES_URL && r.Some? && r.value.Good? ==> st.slot.Some?
      ensures r.Some? ==> st.calls[p].pc == Returned(r.value) && st.calls[p].client == client && st.calls[p].url == url
    {
      Advance(p, st.(calls := st.calls[p := Call(Routing, client, url, st.slot.Some?, 0)]), Begin(p, client, url));
      if !IsShared(st, client) || (url != RELEASES_URL && !debug) {
        Advance(p, st.(calls := st.calls[p := st.calls[p].(pc := Fetching(false))]), Route(p, debug));
        var direct := FetchReleases(p);
        return Some(direct);
      }
      if url != RELEASES_URL {
        Advance(p, st.(calls := st.calls[p := st.calls[p].(pc := Panicked)]), Route(p, debug));
        return None;
      }
      Advance(p, st.(calls := st.calls[p := st.calls[p].(pc := Looking)]), Route(p, debug));
      var got := ThroughCache(p);
      r := Some(got);
    }

    /** The part behind the guards: look, fetch on a miss, fill. */
    method ThroughCache(p: nat) returns (got: Fetched)
      requires Inv(st) && p < |st.calls| && st.calls[p].pc.Looking?
      modifies this
      ensures Inv(st) && Grows(old(st), st)
      ensures exists n :: st.calls[p] == old(st).calls[p].(pc := Returned(got), fetches := n)
      ensures old(st).slot.Some? ==> got == Good(old(st).slot.value) && st.calls[p].fetches == 0
      ensures got.Good? ==> st.slot.Some?
    {
      var c := st.calls[p];
      if st.slot.Some? {
        got := Good(st.slot.value);
        Advance(p, st.(calls := st.calls[p := c.(pc := Returned(got))]), Look(p));
        assert st.calls[p] == c.(pc := Returned(got), fetches := c.fetches);
        return;
      }
      Advance(p, st.(calls := st.calls[p := c.(pc := Fetching(true))]), Look(p));
      got := FetchReleases(p);
      if got.Good? {
        Advance(p, st.(calls := st.calls[p := st.calls[p].(pc := Returned(got))],
                       slot := if st.slot.None? then Some(got.releases) else st.slot), Fill(p));
      }
      assert st.calls[p] == c.(pc := Returned(got), fetches := c.fetches + 1);
    }

    /** The network answers anything. */
    method FetchReleases(p: nat) returns (got: Fetched)
      requires Inv(st) && p < |st.calls| && st.calls[p].pc.Fetching?
      modifies this
      ensures Inv(st) && Grows(old(st), st)
      ensures var c := old(st).calls[p];
              st.calls[p] == c.(pc := Received(c.pc, got), fetches := c.fetches + 1)
    {
      got := *;
      var c := st.calls[p];
      Advance(p, st.(calls := st.calls[p := c.(pc := Received(c.pc, got), fetches := c.fetches + 1)],
                     network := st.network + [Fetch(c.client, c.url, got)]), Receive(p, got));
    }
  }
}
