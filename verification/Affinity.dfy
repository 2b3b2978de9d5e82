/** Reading a task's CPU affinity (src/cpu_util.rs): decoding a mask, and the retry loop with a growing
    buffer against a kernel that rejects buffers shorter than its CPU count. */
module Affinity {
  import opened Ordering
  import opened Text
  import opened Words

  const WORD_BITS: nat := 64
  const WORD_BYTES: nat := 8
  const INITIAL_BITS: nat := 8192
  const MAX_BITS: nat := 262_144
  const U32_RANGE: nat := 0x1_0000_0000

  /** CPU `c` is set in the mask. */
  ghost predicate IsSet(words: seq<bv64>, c: nat) {
    c / WORD_BITS < |words| && c % WORD_BITS in Bits(words[c / WORD_BITS])
  }

  // ----- Decoding

  /** The set bits of one word, ascending. */
  method BitsOfWord(word: bv64, base: nat) returns (ids: seq<nat>)
    ensures StrictlyAscending(ids)
    ensures forall c :: c in ids <==> base <= c < base + WORD_BITS && c - base in Bits(word)
  {
    ids := [];
    for bit := 0 to WORD_BITS
      invariant StrictlyAscending(ids)
      invariant forall c :: c in ids <==> base <= c < base + bit && c - base in Bits(word)
    {
      var on := BitAt(word, bit);
      assert on <==> bit in Bits(word);
      if on {
        assert forall i | 0 <= i < |ids| :: ids[i] in ids;
        ids := ids + [base + bit];
      }
    }
  }

  function Truncated(ids: seq<nat>): (r: seq<nat>) {
    seq(|ids|, i requires 0 <= i < |ids| => ids[i] % U32_RANGE)
  }

  /** The words the kernel reported as written. */
  function Written(buffer: seq<bv64>, bytes: nat): (words: seq<bv64>) {
    if bytes / WORD_BYTES < |buffer| then buffer[..bytes / WORD_BYTES] else buffer
  }

  /** The set CPUs in ascending order. */
  ghost predicate IsListOf(ids: seq<nat>, words: seq<bv64>) {
    StrictlyAscending(ids) && forall c: nat :: c in ids <==> IsSet(words, c)
  }

  /** The CPUs set in the written words, in ascending order and converted to u32, which loses nothing up
      to 2^26 words; nothing exactly when there are none. */
  method ExtractCpus(buffer: seq<bv64>, writtenBytes: nat) returns (r: Option<seq<nat>>)
    ensures r.Some? <==> exists c :: IsSet(Written(buffer, writtenBytes), c)
    ensures r.Some? ==> exists ids :: IsListOf(ids, Written(buffer, writtenBytes)) && r.value == Truncated(ids)
    ensures r.Some? && |buffer| <= U32_RANGE / WORD_BITS ==> IsListOf(r.value, Written(buffer, writtenBytes))
  {
    var n := if writtenBytes / WORD_BYTES < |buffer| then writtenBytes / WORD_BYTES else |buffer|;
    var cpus: seq<nat> := [];
    ghost var ids: seq<nat> := [];
    for w := 0 to n
      invariant StrictlyAscending(ids) && cpus == Truncated(ids)
      invariant forall c: nat :: c in ids <==> IsSet(buffer[..w], c)
    {
      var found: seq<nat> := [];
      if buffer[w] == 0 {
        BitsZero();
      } else {
        found := BitsOfWord(buffer[w], w * WORD_BITS);
      }
      NextWord(buffer, w, ids, found);
      ids := ids + found;
      cpus := cpus + Truncated(found);
    }
    assert buffer[..n] == Written(buffer, writtenBytes);
    SmallIds(buffer, n, ids);
    NonEmpty(buffer[..n], ids);
    assert IsListOf(ids, Written(buffer, writtenBytes));
    r := if cpus == [] then None else Some(cpus);
  }

  lemma NextWord(buffer: seq<bv64>, w: nat, ids: seq<nat>, found: seq<nat>)
    requires w < |buffer| && StrictlyAscending(ids) && StrictlyAscending(found)
    requires forall c: nat :: c in ids <==> IsSet(buffer[..w], c)
    requires forall c :: c in found <==>
               w * WORD_BITS <= c < w * WORD_BITS + WORD_BITS && c - w * WORD_BITS in Bits(buffer[w])
    ensures StrictlyAscending(ids + found)
    ensures forall c: nat :: c in ids + found <==> IsSet(buffer[..w + 1], c)
  {
    forall c: nat
      ensures IsSet(buffer[..w + 1], c) <==> IsSet(buffer[..w], c) || c in found
    {
      assert c / WORD_BITS == w <==> w * WORD_BITS <= c < w * WORD_BITS + WORD_BITS;
      assert c / WORD_BITS == w ==> c % WORD_BITS == c - w * WORD_BITS;
    }
    forall i, j | 0 <= i < j < |ids + found|
      ensures (ids + found)[i] < (ids + found)[j]
    {
      if i < |ids| <= j {
        assert ids[i] in ids && found[j - |ids|] in found;
        assert ids[i] / WORD_BITS < w;
      }
    }
  }

  lemma SmallIds(buffer: seq<bv64>, n: nat, ids: seq<nat>)
    requires n <= |buffer| && forall c: nat :: c in ids <==> IsSet(buffer[..n], c)
    ensures |buffer| <= U32_RANGE / WORD_BITS ==> Truncated(ids) == ids
  {
    if |buffer| <= U32_RANGE / WORD_BITS {
      forall i | 0 <= i < |ids|
        ensures ids[i] % U32_RANGE == ids[i]
      {
        assert ids[i] in ids;
        assert ids[i] / WORD_BITS < |buffer|;
      }
    }
  }

  // ----- The system call and the retry loop

  /** `count`: the kernel's CPU count. `mask`: the task's mask, in whole words. `allowed`: whether the
      caller may look at the task. */
  datatype Kernel = Kernel(count: nat, mask: seq<bv64>, allowed: bool)

  ghost predicate Sound(k: Kernel) {
    |k.mask| == (k.count + WORD_BITS - 1) / WORD_BITS
  }

  datatype Answer = Filled(bytes: nat, buffer: seq<bv64>) | Einval | OtherError

  /** `sched_getaffinity`: the length is checked first; the mask goes to the front of the buffer. */
  method GetAffinity(k: Kernel, buffer: seq<bv64>) returns (a: Answer)
    requires Sound(k)
    ensures a.Einval? <==> |buffer| * WORD_BITS < k.count
    ensures a.Filled? <==> |buffer| * WORD_BITS >= k.count && k.allowed
    ensures a.Filled? ==> a.bytes == |k.mask| * WORD_BYTES
                          && |k.mask| <= |a.buffer| == |buffer| && a.buffer[..|k.mask|] == k.mask
  {
    if |buffer| * WORD_BITS < k.count {
      return Einval;
    }
    if !k.allowed {
      return OtherError;
    }
    a := Filled(|k.mask| * WORD_BYTES, k.mask + buffer[|k.mask|..]);
  }

  function NextBits(bits: nat): (r: Option<nat>) {
    var doubled := bits * 2;
    if doubled > MAX_BITS then None else Some(doubled)
  }

  function ZeroedBuffer(bits: nat): (buffer: seq<bv64>)
    ensures |buffer| * WORD_BITS >= bits && (bits % WORD_BITS == 0 ==> |buffer| * WORD_BITS == bits)
  {
    seq((bits + WORD_BITS - 1) / WORD_BITS, _ => 0)
  }

  function Doublings(n: nat): (bits: nat) {
    if n == 0 then INITIAL_BITS else 2 * Doublings(n - 1)
  }

  /** `read_affinity`: at most six calls; a result exactly when the caller may look, the CPU count is
      within the ceiling and the mask is not empty, and then it is the mask's set, ascending. */
  method ReadAffinity(k: Kernel) returns (r: Option<seq<nat>>, ghost calls: nat)
    requires Sound(k)
    ensures calls <= 6
    ensures r.Some? <==> k.count <= MAX_BITS && k.allowed && exists c :: IsSet(k.mask, c)
    ensures r.Some? ==> IsListOf(r.value, k.mask)
  {
    calls := 0;
    var bits := INITIAL_BITS;
    while true
      invariant bits == Doublings(calls) && bits <= MAX_BITS && calls <= 5 && bits % WORD_BITS == 0 && bits > 0
      invariant calls > 0 ==> bits / 2 < k.count
      decreases MAX_BITS - bits
    {
      var buffer := ZeroedBuffer(bits);
      var answer := GetAffinity(k, buffer);
      calls := calls + 1;
      if answer.Filled? {
        r := ExtractCpus(answer.buffer, answer.bytes);
        assert Written(answer.buffer, answer.bytes) == k.mask;
        return;
      }
      if answer.OtherError? {
        return None, calls;
      }
      var next := NextBits(bits);
      if next.None? {
        return None, calls;
      }
      bits := next.value;
      assert calls == 6 ==> bits == 64 * INITIAL_BITS;
    }
  }

  lemma NonEmpty(words: seq<bv64>, ids: seq<nat>)
    requires forall c: nat :: c in ids <==> IsSet(words, c)
    ensures ids != [] <==> exists c :: IsSet(words, c)
  {
    if ids != [] {
      assert ids[0] in ids;
    }
  }
}
