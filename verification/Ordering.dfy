/** Orders and sorting shared by the selection and the CPU-list parser. */
module Ordering {

  /** Rust's `<` on `str`: lexicographic by code point (the same order as by UTF-8 byte). */
  predicate Less(a: string, b: string) {
    b != "" && (a == "" || a[0] < b[0] || (a[0] == b[0] && Less(a[1..], b[1..])))
  }

  /** `Less` is a strict total order. */
  lemma {:induction false} LessTrichotomy(a: string, b: string)
    ensures a == b || Less(a, b) || Less(b, a)
    ensures !(Less(a, b) && Less(b, a))
    ensures !Less(a, a)
  {
    if a != "" {
      LessTrichotomy(a[1..], a[1..]);
    }
    if a != "" && b != "" && a[0] == b[0] {
      LessTrichotomy(a[1..], b[1..]);
      assert a == [a[0]] + a[1..] && b == [b[0]] + b[1..];
    }
  }

  lemma {:induction false} LessTransitive(a: string, b: string, c: string)
    requires Less(a, b) && Less(b, c)
    ensures Less(a, c)
  {
    if a != "" && a[0] == b[0] && b[0] == c[0] {
      LessTransitive(a[1..], b[1..], c[1..]);
    }
  }

  ghost predicate Ascending(s: seq<nat>) {
    forall i, j | 0 <= i < j < |s| :: s[i] <= s[j]
  }

  ghost predicate StrictlyAscending(s: seq<nat>) {
    forall i, j | 0 <= i < j < |s| :: s[i] < s[j]
  }

  ghost predicate Distinct<T>(s: seq<T>) {
    forall i, j | 0 <= i < j < |s| :: s[i] != s[j]
  }

  function Insert(x: nat, s: seq<nat>): (r: seq<nat>) {
    if s == [] || x <= s[0] then [x] + s else [s[0]] + Insert(x, s[1..])
  }

  lemma {:induction false} InsertSorts(x: nat, s: seq<nat>)
    requires Ascending(s)
    ensures Ascending(Insert(x, s))
  {
    if s == [] || x <= s[0] {
      AscendingCons(x, s);
    } else {
      InsertSorts(x, s[1..]);
      AscendingCons(s[0], Insert(x, s[1..]));
    }
  }

  lemma {:induction false} InsertElements(x: nat, s: seq<nat>)
    ensures multiset(Insert(x, s)) == multiset{x} + multiset(s)
  {
    if s != [] && x > s[0] {
      InsertElements(x, s[1..]);
      assert s == [s[0]] + s[1..];
    }
  }

  lemma AscendingCons(x: nat, s: seq<nat>)
    requires Ascending(s) && (s == [] || x <= s[0])
    ensures Ascending([x] + s)
  {
  }

  /** The standard library's sort: an ascending permutation. */
  function Sorted(s: seq<nat>): (r: seq<nat>)
    ensures Ascending(r)
    ensures multiset(r) == multiset(s)
  {
    if s == [] then
      []
    else
      assert s == [s[0]] + s[1..];
      InsertSorts(s[0], Sorted(s[1..]));
      InsertElements(s[0], Sorted(s[1..]));
      Insert(s[0], Sorted(s[1..]))
  }

  /** `Vec::dedup`: drop each element equal to its predecessor. */
  function Dedup(s: seq<nat>): (r: seq<nat>)
    ensures s == [] <==> r == []
    ensures s != [] ==> r[0] == s[0]
  {
    if |s| < 2 then s
    else if s[0] == s[1] then Dedup(s[1..])
    else [s[0]] + Dedup(s[1..])
  }

  /** Sorting then deduplicating lists the set of elements in strictly ascending order. */
  lemma {:induction false} DedupAscending(s: seq<nat>)
    requires Ascending(s)
    ensures StrictlyAscending(Dedup(s))
    ensures forall x :: x in Dedup(s) <==> x in s
  {
    if |s| >= 2 {
      DedupAscending(s[1..]);
      assert s == [s[0]] + s[1..];
      if s[0] < s[1] {
        StrictlyAscendingCons(s[0], Dedup(s[1..]));
      }
    }
  }

  lemma StrictlyAscendingCons(x: nat, s: seq<nat>)
    requires StrictlyAscending(s) && (s == [] || x < s[0])
    ensures StrictlyAscending([x] + s)
  {
  }

  lemma SortedElements(s: seq<nat>)
    ensures |Sorted(s)| == |s|
    ensures forall x :: x in Sorted(s) <==> x in s
  {
    assert |multiset(Sorted(s))| == |multiset(s)|;
    assert forall x :: x in s <==> x in multiset(s);
    assert forall x :: x in Sorted(s) <==> x in multiset(Sorted(s));
  }

  lemma DistinctMultiset<T>(s: seq<T>, x: T)
    requires Distinct(s)
    ensures multiset(s)[x] <= 1
  {
    if s != [] {
      assert s == [s[0]] + s[1..];
      DistinctMultiset(s[1..], x);
    }
  }

  lemma CountedTwice<T>(s: seq<T>, i: nat, j: nat)
    requires i < j < |s| && s[i] == s[j]
    ensures multiset(s)[s[i]] >= 2
  {
    assert s == s[..j] + s[j..];
    assert s[i] in s[..j] && s[j] in s[j..];
  }

  /** Sorting distinct indices gives a strictly ascending list. */
  lemma {:induction false} SortedDistinct(s: seq<nat>)
    requires Distinct(s)
    ensures StrictlyAscending(Sorted(s))
  {
    var r := Sorted(s);
    forall i, j | 0 <= i < j < |r|
      ensures r[i] != r[j]
    {
      if r[i] == r[j] {
        CountedTwice(r, i, j);
        DistinctMultiset(s, r[i]);
      }
    }
  }

  /** Around an occurrence of the last element of `a`, the permutation `b` holds the rest of `a`. */
  lemma PermutationSplit<T>(a: seq<T>, b: seq<T>) returns (c: seq<T>, d: seq<T>)
    requires a != [] && multiset(a) == multiset(b)
    ensures b == c + [a[|a| - 1]] + d
    ensures multiset(a[..|a| - 1]) == multiset(c + d)
  {
    var q, x := a[..|a| - 1], a[|a| - 1];
    assert a == q + [x];
    assert x in multiset(b);
    var k :| 0 <= k < |b| && b[k] == x;
    c, d := b[..k], b[k + 1..];
    assert b == c + [x] + d;
    WithoutOne(c, x, d);
    WithoutOne(q, x, []);
    assert q + [x] + [] == a && q + [] == q;
  }

  lemma WithoutOne<T>(c: seq<T>, x: T, d: seq<T>)
    ensures multiset(c + d) == multiset(c + [x] + d) - multiset{x}
  {
  }
}
