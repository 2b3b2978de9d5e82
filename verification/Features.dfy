/** The feature word of a test (src/budget.rs): bucket functions, the DJB2 name hash and the one-hot
    packing of eleven properties into 64 bits. */
module Features {
  import opened Words
  import opened Text
  import opened Selection
  import opened Budget
  import opened GreedyBound

  datatype Description = Description(
    scheduler: seq<Byte>, testName: seq<Byte>,
    totalCpus: nat, llcs: nat, threadsPerCore: nat, numaNodes: nat, durationSecs: nat,
    performance: bool, hostOnly: bool, expectErr: bool, gauntlet: bool)

  const SCHED_SHIFT := 0
  const CPU_BUCKET_SHIFT := 4
  const LLC_BUCKET_SHIFT := 9
  const SMT_SHIFT := 14
  const PERF_MODE_SHIFT := 15
  const HOST_ONLY_SHIFT := 16
  const EXPECT_ERR_SHIFT := 17
  const DURATION_SHIFT := 18
  const GAUNTLET_SHIFT := 22
  const NAME_HASH_SHIFT := 23
  const NUMA_BUCKET_SHIFT := 27

  const U32 := 0x1_0000_0000

  // ----- Hash

  /** The DJB2 recurrence without wrap-around. */
  function Horner(name: seq<Byte>): (h: nat) {
    if name == [] then 5381 else Horner(name[..|name| - 1]) * 33 + name[|name| - 1]
  }

  function ByteSum(name: seq<Byte>): (s: nat) {
    if name == [] then 0 else ByteSum(name[..|name| - 1]) + name[|name| - 1]
  }

  /** The hash loop wraps at 32 bits in every step; the result is the exact recurrence, reduced once. */
  method Djb2Hash(name: seq<Byte>) returns (h: nat)
    ensures h == Horner(name) % U32
  {
    h := 5381;
    for k := 0 to |name|
      invariant h == Horner(name[..k]) % U32
    {
      assert name[..k + 1][..k] == name[..k];
      WrapStep(Horner(name[..k]), name[k]);
      h := h * 33 % U32;
      h := (h + name[k]) % U32;
    }
    assert name[..|name|] == name;
  }

  lemma WrapStep(x: nat, b: nat)
    ensures (x % U32 * 33 % U32 + b) % U32 == (x * 33 + b) % U32
  {
    var q, r := x / U32, x % U32;
    assert x * 33 == r * 33 + U32 * (q * 33);
    var s := r * 33 / U32;
    assert r * 33 == r * 33 % U32 + U32 * s;
    assert x * 33 + b == (r * 33 % U32 + b) + U32 * (s + q * 33);
    AddMultiple(r * 33 % U32 + b, s + q * 33);
  }

  lemma {:induction false} AddMultiple(x: nat, k: nat)
    ensures (x + U32 * k) % U32 == x % U32
  {
    if k > 0 {
      AddMultiple(x, k - 1);
    }
  }

  /** The hash class kept in the word. Because 33 is 1 modulo 4 and 4 divides 2^32, it is only the sum
      of the bytes modulo 4: reordering letters never changes it. */
  lemma {:induction false} HashClassIsByteSum(name: seq<Byte>)
    ensures Horner(name) % U32 % 4 == (1 + ByteSum(name)) % 4
  {
    ModOfMod(Horner(name));
    HornerModFour(name);
  }

  lemma ModOfMod(x: nat)
    ensures x % U32 % 4 == x % 4
  {
    assert x == x % U32 + 4 * (0x4000_0000 * (x / U32));
  }

  lemma StepModFour(h: nat, s: nat, b: nat)
    requires h % 4 == (1 + s) % 4
    ensures (h * 33 + b) % 4 == (1 + s + b) % 4
  {
    var r := h % 4;
    assert h * 33 + b == 4 * (8 * h + h / 4) + (r + b);
    DropFours(8 * h + h / 4, r + b);
    assert 1 + s + b == 4 * ((1 + s) / 4) + (r + b);
    DropFours((1 + s) / 4, r + b);
  }

  lemma DropFours(k: nat, x: nat)
    ensures (4 * k + x) % 4 == x % 4
  {
  }

  lemma {:induction false} HornerModFour(name: seq<Byte>)
    ensures Horner(name) % 4 == (1 + ByteSum(name)) % 4
  {
    if name != [] {
      var rest := name[..|name| - 1];
      HornerModFour(rest);
      StepModFour(Horner(rest), ByteSum(rest), name[|name| - 1]);
    }
  }

  function HashClass(name: seq<Byte>): (c: nat)
    ensures c < 4
  {
    (1 + ByteSum(name)) % 4
  }

  // ----- Buckets: which of the bucket's one-hot bits is set

  function CpuClass(cpus: nat): (c: nat) {
    if cpus <= 8 then 0 else if cpus <= 16 then 1 else if cpus <= 64 then 2 else if cpus <= 128 then 3 else 4
  }

  function LlcClass(llcs: nat): (c: nat) {
    if llcs <= 1 then 0 else if llcs == 2 then 1 else if llcs <= 4 then 2 else if llcs <= 8 then 3 else 4
  }

  function DurationClass(secs: nat): (c: nat) {
    if secs <= 2 then 0 else if secs <= 10 then 1 else 2
  }

  function NumaClass(nodes: nat): (c: nat) {
    if nodes <= 1 then 0 else if nodes == 2 then 1 else if nodes <= 4 then 2 else 3
  }

  /** Everything the word is meant to record about a test. */
  datatype Classes = Classes(
    scheduler: nat, name: nat, cpu: nat, llc: nat, numa: nat, duration: nat,
    smt: bool, performance: bool, hostOnly: bool, expectErr: bool, gauntlet: bool)

  function ClassesOf(d: Description): (c: Classes) {
    Classes(HashClass(d.scheduler), HashClass(d.testName),
            CpuClass(d.totalCpus), LlcClass(d.llcs), NumaClass(d.numaNodes), DurationClass(d.durationSecs),
            d.threadsPerCore > 1, d.performance, d.hostOnly, d.expectErr, d.gauntlet)
  }

  /** Position `b` is set for the classes `c`: one bit per bucket, one per flag that is on. */
  ghost predicate Has(c: Classes, b: nat) {
    || b == SCHED_SHIFT + c.scheduler
    || b == CPU_BUCKET_SHIFT + c.cpu
    || b == LLC_BUCKET_SHIFT + c.llc
    || b == DURATION_SHIFT + c.duration
    || b == NAME_HASH_SHIFT + c.name
    || b == NUMA_BUCKET_SHIFT + c.numa
    || (c.smt && b == SMT_SHIFT)
    || (c.performance && b == PERF_MODE_SHIFT)
    || (c.hostOnly && b == HOST_ONLY_SHIFT)
    || (c.expectErr && b == EXPECT_ERR_SHIFT)
    || (c.gauntlet && b == GAUNTLET_SHIFT)
  }

  function FlagCount(c: Classes): (n: nat) {
    (if c.smt then 1 else 0) + (if c.performance then 1 else 0) + (if c.hostOnly then 1 else 0)
    + (if c.expectErr then 1 else 0) + (if c.gauntlet then 1 else 0)
  }

  // ----- Packing

  /** `if on { bits |= (1 << position) << shift }`. */
  method Pack(bits: bv64, on: bool, position: nat, shift: nat) returns (w: bv64)
    requires position + shift < 64
    ensures forall b: nat :: b in Bits(w) <==> b in Bits(bits) || (on && b == shift + position)
  {
    w := bits;
    if on {
      ShlOneHot(position, shift);
      BitsOneHot(position + shift);
      w := Or(bits, Shl(OneHot(position), shift));
    }
  }

  /** The feature word holds exactly one bit per bucket and one per flag that is on. */
  method ExtractFeatures(d: Description) returns (bits: bv64)
    ensures IsFeatureWord(bits, d)
  {
    bits := 0;
    BitsZero();
    var scheduler := Djb2Hash(d.scheduler);
    HashClassIsByteSum(d.scheduler);
    bits := Pack(bits, true, scheduler % 4, SCHED_SHIFT);
    bits := Pack(bits, true, CpuClass(d.totalCpus), CPU_BUCKET_SHIFT);
    bits := Pack(bits, true, LlcClass(d.llcs), LLC_BUCKET_SHIFT);
    bits := Pack(bits, d.threadsPerCore > 1, 0, SMT_SHIFT);
    bits := Pack(bits, true, NumaClass(d.numaNodes), NUMA_BUCKET_SHIFT);
    bits := Pack(bits, d.performance, 0, PERF_MODE_SHIFT);
    bits := Pack(bits, d.hostOnly, 0, HOST_ONLY_SHIFT);
    bits := Pack(bits, d.expectErr, 0, EXPECT_ERR_SHIFT);
    bits := Pack(bits, true, DurationClass(d.durationSecs), DURATION_SHIFT);
    bits := Pack(bits, d.gauntlet, 0, GAUNTLET_SHIFT);
    var name := Djb2Hash(d.testName);
    HashClassIsByteSum(d.testName);
    bits := Pack(bits, true, name % 4, NAME_HASH_SHIFT);
  }

  ghost predicate IsFeatureWord(w: bv64, d: Description) {
    forall b: nat :: b in Bits(w) <==> Has(ClassesOf(d), b)
  }

  ghost predicate InBounds(c: Classes) {
    c.scheduler < 4 && c.name < 4 && c.cpu < 5 && c.llc < 5 && c.numa < 4 && c.duration < 3
  }

  /** Each class can be read back from the bits. */
  lemma HasDeterminesClasses(c: Classes, e: Classes)
    requires InBounds(c) && InBounds(e)
    requires forall b: nat :: Has(c, b) <==> Has(e, b)
    ensures c == e
  {
    assert Has(e, SCHED_SHIFT + c.scheduler) && Has(e, CPU_BUCKET_SHIFT + c.cpu) && Has(e, LLC_BUCKET_SHIFT + c.llc);
    assert Has(e, DURATION_SHIFT + c.duration) && Has(e, NAME_HASH_SHIFT + c.name);
    assert Has(e, NUMA_BUCKET_SHIFT + c.numa);
    assert Has(c, SMT_SHIFT) == Has(e, SMT_SHIFT) && Has(c, PERF_MODE_SHIFT) == Has(e, PERF_MODE_SHIFT);
    assert Has(c, HOST_ONLY_SHIFT) == Has(e, HOST_ONLY_SHIFT) && Has(c, EXPECT_ERR_SHIFT) == Has(e, EXPECT_ERR_SHIFT);
    assert Has(c, GAUNTLET_SHIFT) == Has(e, GAUNTLET_SHIFT);
  }

  /** Two tests have equal feature words exactly when they agree on every bucket, hash class and flag. */
  lemma EqualWordsExactly(w: bv64, d: Description, v: bv64, e: Description)
    requires IsFeatureWord(w, d) && IsFeatureWord(v, e)
    ensures w == v <==> ClassesOf(d) == ClassesOf(e)
  {
    if w == v {
      SameHas(w, d, e);
    }
    if ClassesOf(d) == ClassesOf(e) {
      assert Bits(w) == Bits(v);
      BitsInjective(w, v);
    }
  }

  lemma SameHas(w: bv64, d: Description, e: Description)
    requires IsFeatureWord(w, d) && IsFeatureWord(w, e)
    ensures ClassesOf(d) == ClassesOf(e)
  {
    forall b: nat
      ensures Has(ClassesOf(d), b) <==> Has(ClassesOf(e), b)
    {
      assert b in Bits(w) <==> Has(ClassesOf(d), b);
    }
    HasDeterminesClasses(ClassesOf(d), ClassesOf(e));
  }

  /** Six bucket bits plus one per flag. */
  lemma FeatureCount(w: bv64, d: Description)
    requires IsFeatureWord(w, d)
    ensures CountOnes(w) == 6 + FlagCount(ClassesOf(d))
  {
    var s := ClassSet(ClassesOf(d));
    assert Bits(w) == s;
  }

  /** The set of positions of `c`, built one bit at a time. */
  lemma ClassSet(c: Classes) returns (s: set<nat>)
    requires InBounds(c)
    ensures forall b: nat :: b in s <==> Has(c, b)
    ensures |s| == 6 + FlagCount(c)
  {
    s := {};
    s := AddBit(s, true, SCHED_SHIFT + c.scheduler);
    s := AddBit(s, true, CPU_BUCKET_SHIFT + c.cpu);
    s := AddBit(s, true, LLC_BUCKET_SHIFT + c.llc);
    s := AddBit(s, true, NUMA_BUCKET_SHIFT + c.numa);
    s := AddBit(s, true, DURATION_SHIFT + c.duration);
    s := AddBit(s, true, NAME_HASH_SHIFT + c.name);
    s := AddBit(s, c.smt, SMT_SHIFT);
    s := AddBit(s, c.performance, PERF_MODE_SHIFT);
    s := AddBit(s, c.hostOnly, HOST_ONLY_SHIFT);
    s := AddBit(s, c.expectErr, EXPECT_ERR_SHIFT);
    s := AddBit(s, c.gauntlet, GAUNTLET_SHIFT);
  }

  lemma AddBit(s: set<nat>, on: bool, p: nat) returns (t: set<nat>)
    requires p !in s
    ensures forall b: nat :: b in t <==> b in s || (on && b == p)
    ensures |t| == |s| + if on then 1 else 0
  {
    t := if on then s + {p} else s;
  }

  /** The 30 positions a feature word can use: 0 to 30 without the reserved bit 21. */
  function Positions(): (s: set<nat>) {
    Below(31) - {21}
  }

  lemma PositionsExact(b: nat)
    ensures b in Positions() <==> b < 31 && b != 21
  {
  }

  lemma PositionOfBit(c: Classes, b: nat)
    requires InBounds(c) && Has(c, b)
    ensures b < 31 && b != 21
  {
  }

  lemma PositionsUsed(w: bv64, d: Description)
    requires IsFeatureWord(w, d)
    ensures Bits(w) <= Positions()
  {
    forall b: nat | b in Bits(w)
      ensures b in Positions()
    {
      assert Has(ClassesOf(d), b);
      PositionOfBit(ClassesOf(d), b);
      PositionsExact(b);
    }
    Contained(Bits(w), Positions());
  }

  lemma Contained(a: set<nat>, b: set<nat>)
    requires forall x: nat | x in a :: x in b
    ensures a <= b
  {
  }

  /** A selection among real feature words never has more than 30 tests. */
  lemma AtMostThirtyPicks(cands: seq<Candidate>, from: seq<Description>, budget: real, picks: seq<nat>)
    requires |from| == |cands| && forall i | 0 <= i < |cands| :: IsFeatureWord(cands[i].features, from[i])
    requires IsSelection(View(cands), budget, picks)
    ensures |picks| <= 30
  {
    if budget > 0.0 {
      SelectionSoundAndMaximal(View(cands), budget, picks);
      CoveredExactly(View(cands), picks);
      forall b | b in Covered(View(cands), picks)
        ensures b in Positions()
      {
        var i :| 0 <= i < |picks| && b in View(cands)[picks[i]].bits;
        PositionsUsed(cands[picks[i]].features, from[picks[i]]);
      }
      PositionsCount();
      SubsetSize(Covered(View(cands), picks), Positions());
    }
  }

  lemma PositionsCount()
    ensures |Positions()| == 30
  {
    BelowSize(31);
    assert Below(31) == Positions() + {21};
  }

  // ----- Durations

  /** Estimated wall-clock seconds. */
  function EstimateDuration(d: Description): (secs: nat)
    ensures secs >= d.durationSecs + 2
    ensures d.hostOnly ==> secs == d.durationSecs + 2
    ensures !d.hostOnly ==>
              var boot := secs - d.durationSecs - (if d.performance then 5 else 2);
              var beyond := if d.totalCpus > 16 then d.totalCpus - 16 else 0;
              boot >= 10 && 10 * (boot - 10) <= beyond < 10 * (boot - 9)
  {
    if d.hostOnly then d.durationSecs + 2
    else
      var overhead := 10 + (if d.totalCpus > 16 then d.totalCpus - 16 else 0) / 10;
      overhead + d.durationSecs + 2 + (if d.performance then 3 else 0)
  }

  /** Estimated durations meet the condition of the greedy bounds: no test is free. */
  lemma ProductionCosts(cands: seq<Candidate>, tests: seq<Description>)
    requires |cands| == |tests| && forall i | 0 <= i < |cands| :: cands[i].cost == EstimateDuration(tests[i]) as real
    ensures CostsSeparated(View(cands))
  {
    forall i | 0 <= i < |cands|
      ensures |View(cands)[i].bits| <= 64 && View(cands)[i].cost >= 2.0
    {
      CountOnesBound(cands[i].features);
      assert EstimateDuration(tests[i]) >= 2;
    }
  }
}
