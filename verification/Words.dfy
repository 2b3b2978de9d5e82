/** 64-bit machine words seen as sets of bit positions.
    Coverage, feature and CPU-mask reasoning happens on the sets; the words stay what the program
    computes with. */
module Words {

  /** `1u64 << p`, by repeated doubling. */
  function OneHot(p: nat): (m: bv64) {
    if p == 0 then 1 else OneHot(p - 1) << 1
  }

  /** The mask test `w & m != 0`. */
  predicate Meets(w: bv64, m: bv64) {
    w & m != 0
  }

  /** Bit `i` of `w`, counting from the least significant bit. */
  predicate BitAt(w: bv64, i: nat)
    requires i < 64
  {
    Meets(w, OneHot(i))
  }

  /** The positions of the set bits of `w`. */
  function Bits(w: bv64): (s: set<nat>)
    ensures forall i: nat :: i in s <==> i < 64 && BitAt(w, i)
  {
    set i: nat | i < 64 && BitAt(w, i)
  }

  /** `u64::count_ones`. */
  function CountOnes(w: bv64): (n: nat) {
    |Bits(w)|
  }

  /** Exactly one bit is set. */
  ghost predicate IsPowerOfTwo(m: bv64) {
    m != 0 && m & (m - 1) == 0
  }

  lemma MaskSelects(w: bv64, m: bv64)
    requires IsPowerOfTwo(m)
    ensures w & m == 0 || w & m == m
  {
  }

  lemma AndNotKeeps(a: bv64, b: bv64, m: bv64)
    requires b & m == 0
    ensures (a & !b) & m == a & m
  {
  }

  lemma AndNotClears(a: bv64, b: bv64, m: bv64)
    requires b & m == m
    ensures (a & !b) & m == 0
  {
  }

  lemma OrDistributes(a: bv64, b: bv64, m: bv64)
    ensures (a | b) & m == (a & m) | (b & m)
  {
  }

  lemma OrIsZero(x: bv64, y: bv64)
    ensures x | y == 0 <==> x == 0 && y == 0
  {
  }

  lemma AndNotMask(a: bv64, b: bv64, m: bv64)
    requires IsPowerOfTwo(m)
    ensures Meets(a & !b, m) <==> Meets(a, m) && !Meets(b, m)
  {
    MaskSelects(b, m);
    if Meets(b, m) {
      AndNotClears(a, b, m);
    } else {
      AndNotKeeps(a, b, m);
    }
  }

  lemma OrMask(a: bv64, b: bv64, m: bv64)
    ensures Meets(a | b, m) <==> Meets(a, m) || Meets(b, m)
  {
    OrDistributes(a, b, m);
    OrIsZero(a & m, b & m);
  }

  lemma DoubledPower(m: bv64)
    requires IsPowerOfTwo(m) && m << 1 != 0
    ensures IsPowerOfTwo(m << 1) && m < m << 1
  {
  }

  lemma PowerMeetsItself(m: bv64)
    requires IsPowerOfTwo(m)
    ensures Meets(m, m)
  {
  }

  lemma DistinctPowers(m: bv64, n: bv64)
    requires IsPowerOfTwo(m) && IsPowerOfTwo(n) && m != n
    ensures !Meets(m, n)
  {
  }

  /** Doubling does not run off the top of the word before position 63. */
  lemma {:induction false} OneHotNonZero(p: nat)
    requires p < 64
    ensures OneHot(p) != 0
    decreases 64 - p
  {
    if p < 63 {
      OneHotNonZero(p + 1);
    } else {
      TopPower();
    }
  }

  lemma TopPower()
    ensures OneHot(63) == 0x8000_0000_0000_0000
  {
    assert OneHot(8) == 0x100;
    assert OneHot(16) == 0x1_0000;
    assert OneHot(24) == 0x100_0000;
    assert OneHot(32) == 0x1_0000_0000;
    assert OneHot(40) == 0x100_0000_0000;
    assert OneHot(48) == 0x1_0000_0000_0000;
    assert OneHot(56) == 0x100_0000_0000_0000;
  }

  lemma {:induction false} OneHotIsPower(p: nat)
    requires p < 64
    ensures IsPowerOfTwo(OneHot(p))
  {
    OneHotNonZero(p);
    if p > 0 {
      OneHotIsPower(p - 1);
      DoubledPower(OneHot(p - 1));
    }
  }

  lemma {:induction false} OneHotGrows(p: nat, q: nat)
    requires p < q < 64
    ensures OneHot(p) < OneHot(q)
    decreases q
  {
    OneHotIsPower(q - 1);
    OneHotNonZero(q);
    DoubledPower(OneHot(q - 1));
    if p < q - 1 {
      OneHotGrows(p, q - 1);
    }
  }

  lemma {:induction false} BitOneHot(p: nat, i: nat)
    requires p < 64 && i < 64
    ensures BitAt(OneHot(p), i) <==> p == i
  {
    OneHotIsPower(p);
    OneHotIsPower(i);
    PowerMeetsItself(OneHot(p));
    if p != i {
      OneHotInjective(p, i);
      DistinctPowers(OneHot(p), OneHot(i));
    }
  }

  lemma {:induction false} OneHotInjective(p: nat, q: nat)
    requires p < 64 && q < 64 && p != q
    ensures OneHot(p) != OneHot(q)
  {
    if p < q {
      OneHotGrows(p, q);
    } else {
      OneHotGrows(q, p);
    }
  }

  lemma BitOr(a: bv64, b: bv64, i: nat)
    requires i < 64
    ensures BitAt(a | b, i) <==> BitAt(a, i) || BitAt(b, i)
  {
    OrMask(a, b, OneHot(i));
  }

  lemma BitAndNot(a: bv64, b: bv64, i: nat)
    requires i < 64
    ensures BitAt(a & !b, i) <==> BitAt(a, i) && !BitAt(b, i)
  {
    OneHotIsPower(i);
    AndNotMask(a, b, OneHot(i));
  }

  /** `|` on words is union of their bits. */
  lemma BitsOr(a: bv64, b: bv64)
    ensures Bits(a | b) == Bits(a) + Bits(b)
  {
    forall i: nat | i < 64
      ensures BitAt(a | b, i) <==> BitAt(a, i) || BitAt(b, i)
    {
      BitOr(a, b, i);
    }
  }

  /** `a & !b` keeps the bits of `a` that `b` lacks. */
  lemma BitsAndNot(a: bv64, b: bv64)
    ensures Bits(a & !b) == Bits(a) - Bits(b)
  {
    forall i: nat | i < 64
      ensures BitAt(a & !b, i) <==> BitAt(a, i) && !BitAt(b, i)
    {
      BitAndNot(a, b, i);
    }
  }

  lemma BitsOneHot(p: nat)
    requires p < 64
    ensures Bits(OneHot(p)) == {p}
  {
    forall i: nat | i < 64
      ensures BitAt(OneHot(p), i) <==> p == i
    {
      BitOneHot(p, i);
    }
  }

  lemma BitsZero()
    ensures Bits(0) == {}
  {
  }

  /** `w << k`, by repeated doubling. */
  function Shl(w: bv64, k: nat): (r: bv64) {
    if k == 0 then w else Shl(w, k - 1) << 1
  }

  lemma {:induction false} ShlOneHot(p: nat, k: nat)
    ensures Shl(OneHot(p), k) == OneHot(p + k)
  {
    if k > 0 {
      ShlOneHot(p, k - 1);
    }
  }

  lemma LowMask(m: bv64)
    requires IsPowerOfTwo(m) && m << 1 != 0
    ensures (m << 1) - 1 == (m - 1) | m
  {
  }

  lemma MissesUnion(w: bv64, a: bv64, b: bv64)
    requires !Meets(w, a) && !Meets(w, b)
    ensures !Meets(w, a | b)
  {
  }

  lemma LowStep(w: bv64, m: bv64)
    requires IsPowerOfTwo(m) && m << 1 != 0 && !Meets(w, m - 1) && !Meets(w, m)
    ensures !Meets(w, (m << 1) - 1)
  {
    LowMask(m);
    MissesUnion(w, m - 1, m);
  }

  lemma {:induction false} LowBitsClear(w: bv64, n: nat)
    requires n < 64 && forall i: nat | i < n :: !BitAt(w, i)
    ensures !Meets(w, OneHot(n) - 1)
  {
    if n > 0 {
      LowBitsClear(w, n - 1);
      OneHotIsPower(n - 1);
      OneHotNonZero(n);
      assert !BitAt(w, n - 1);
      LowStep(w, OneHot(n - 1));
    }
  }

  lemma TopBitClear(w: bv64, m: bv64)
    requires IsPowerOfTwo(m) && m << 1 == 0 && !Meets(w, m - 1) && !Meets(w, m)
    ensures w == 0
  {
  }

  lemma NoBitsIsZero(w: bv64)
    requires Bits(w) == {}
    ensures w == 0
  {
    forall i: nat | i < 64
      ensures !BitAt(w, i)
    {
      assert i !in Bits(w);
    }
    LowBitsClear(w, 63);
    OneHotIsPower(63);
    TopOfWord();
    assert !BitAt(w, 63);
    TopBitClear(w, OneHot(63));
  }

  lemma TopOfWord()
    ensures OneHot(63) << 1 == 0
  {
    TopPower();
  }

  lemma EqualWhenNoneMissing(a: bv64, b: bv64)
    requires a & !b == 0 && b & !a == 0
    ensures a == b
  {
  }

  /** A word is determined by its bits. */
  lemma BitsInjective(a: bv64, b: bv64)
    requires Bits(a) == Bits(b)
    ensures a == b
  {
    BitsAndNot(a, b);
    BitsAndNot(b, a);
    NoBitsIsZero(a & !b);
    NoBitsIsZero(b & !a);
    EqualWhenNoneMissing(a, b);
  }

  /** `{0, .., n-1}`. */
  function Below(n: nat): (s: set<nat>)
    ensures forall i: nat :: i in s <==> i < n
  {
    if n == 0 then {} else Below(n - 1) + {n - 1}
  }

  lemma {:induction false} BelowSize(n: nat)
    ensures |Below(n)| == n
  {
    if n > 0 {
      BelowSize(n - 1);
    }
  }

  lemma SubsetSize<T>(a: set<T>, b: set<T>)
    requires a <= b
    ensures |a| <= |b|
  {
    assert b == a + (b - a);
  }

  /** `a | b`. */
  method Or(a: bv64, b: bv64) returns (w: bv64)
    ensures Bits(w) == Bits(a) + Bits(b)
  {
    BitsOr(a, b);
    w := a | b;
  }

  /** `(a & !b).count_ones()`. */
  method CountMissing(a: bv64, b: bv64) returns (n: nat)
    ensures n == |Bits(a) - Bits(b)|
  {
    BitsAndNot(a, b);
    n := CountOnes(a & !b);
  }

  /** A word has at most 64 set bits. */
  lemma CountOnesBound(w: bv64)
    ensures CountOnes(w) <= 64
  {
    BelowSize(64);
    SubsetSize(Bits(w), Below(64));
  }
}
