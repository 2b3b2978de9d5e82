/** The JSON funifier (src/fun.rs): every string and integer below a non-metric key is replaced through a
    keyed hash under that key's name. The hash, the two key vocabularies and the word lists are
    parameters. Text is its UTF-8 bytes. */
module Funify {
  import opened Text

  type Bytes = seq<Byte>

  const U64_MAX: nat := 0xFFFF_FFFF_FFFF_FFFF
  const I64_MIN: int := -0x8000_0000_0000_0000
  const I32_MAX: int := 0x7FFF_FFFF
  const I32_MIN: int := -0x8000_0000

  /** `hash`: the keyed 128-bit hash. `metric`: keys whose values pass through. `narrow`: keys whose values
      are 32 bits wide. */
  datatype Funifier = Funifier(hash: Bytes -> nat, metric: Bytes -> bool, narrow: Bytes -> bool,
                               adjectives: seq<Bytes>, animals: seq<Bytes>)

  ghost predicate HasWords(f: Funifier) {
    f.adjectives != [] && f.animals != []
  }

  // ----- Hash input

  function Buffer(category: Bytes, payload: Bytes): (b: Bytes) {
    category + [0] + payload
  }

  lemma SplitBuffer(c: Bytes, p: Bytes, d: Bytes, q: Bytes)
    requires Buffer(c, p) == Buffer(d, q)
    ensures c == d || c + [0] <= d || d + [0] <= c
    ensures |c| == |d| ==> c == d && p == q
  {
    var a := Buffer(c, p);
    assert c == a[..|c|] && d == a[..|d|];
    assert a[|c|] == 0 && a[|d|] == 0;
    assert p == a[|c| + 1..] && q == a[|d| + 1..] by {
      assert Buffer(d, q)[|d| + 1..] == q;
    }
    if |c| < |d| {
      assert d[..|c| + 1] == a[..|c| + 1] == c + [0];
    } else if |d| < |c| {
      assert c[..|d| + 1] == a[..|d| + 1] == d + [0];
    }
  }

  /** Two categories can share a hash input exactly when they are equal or one of them goes on after the
      other with a NUL. */
  lemma CategoriesCollideExactly(c: Bytes, d: Bytes)
    ensures (exists p, q :: Buffer(c, p) == Buffer(d, q)) <==> c == d || c + [0] <= d || d + [0] <= c
  {
    if c == d {
      assert Buffer(c, []) == Buffer(d, []);
    } else if c + [0] <= d {
      assert Buffer(c, d[|c| + 1..] + [0]) == Buffer(d, []);
    } else if d + [0] <= c {
      assert Buffer(c, []) == Buffer(d, c[|d| + 1..] + [0]);
    }
    forall p, q | Buffer(c, p) == Buffer(d, q)
      ensures c == d || c + [0] <= d || d + [0] <= c
    {
      SplitBuffer(c, p, d, q);
    }
  }

  /** So the separator keeps distinct (category, payload) pairs apart as long as categories have no NUL. */
  lemma BufferInjective(c: Bytes, p: Bytes, d: Bytes, q: Bytes)
    requires 0 !in c && 0 !in d && Buffer(c, p) == Buffer(d, q)
    ensures c == d && p == q
  {
    SplitBuffer(c, p, d, q);
    assert (c + [0])[|c|] == 0 && (d + [0])[|d|] == 0;
  }

  /** A JSON key may contain a NUL: then two different pairs share an input. */
  lemma NulCollides()
    ensures Buffer([97], [98, 0, 99]) == Buffer([97, 0, 98], [99])
  {
  }

  /** `to_le_bytes` over `width` bytes. */
  function LittleEndian(n: nat, width: nat): (b: Bytes)
    ensures |b| == width
  {
    if width == 0 then [] else [n % 256] + LittleEndian(n / 256, width - 1)
  }

  function Power256(width: nat): (n: nat) {
    if width == 0 then 1 else 256 * Power256(width - 1)
  }

  lemma {:induction false} LittleEndianInjective(m: nat, n: nat, width: nat)
    requires m < Power256(width) && n < Power256(width) && LittleEndian(m, width) == LittleEndian(n, width)
    ensures m == n
  {
    if width > 0 {
      var a, b := LittleEndian(m, width), LittleEndian(n, width);
      assert a[0] == m % 256 && b[0] == n % 256;
      assert a[1..] == LittleEndian(m / 256, width - 1) && b[1..] == LittleEndian(n / 256, width - 1);
      LittleEndianInjective(m / 256, n / 256, width - 1);
    }
  }

  /** So distinct (category, number) pairs are hashed from distinct inputs. */
  lemma NumbersKeptApart(c: Bytes, m: nat, d: Bytes, n: nat)
    requires 0 !in c && 0 !in d && m <= U64_MAX && n <= U64_MAX
    requires Buffer(c, LittleEndian(m, 8)) == Buffer(d, LittleEndian(n, 8))
    ensures c == d && m == n
  {
    BufferInjective(c, LittleEndian(m, 8), d, LittleEndian(n, 8));
    assert Power256(8) == U64_MAX + 1 by {
      assert Power256(4) == 0x1_0000_0000;
    }
    LittleEndianInjective(m, n, 8);
  }

  // ----- Names and numbers

  function Hash(f: Funifier, category: Bytes, payload: Bytes): (h: nat) {
    f.hash(Buffer(category, payload))
  }

  function Petname(f: Funifier, category: Bytes, payload: Bytes): (name: Bytes)
    requires HasWords(f)
  {
    var h := Hash(f, category, payload);
    f.adjectives[h % 256 % |f.adjectives|] + [45] + f.animals[h / 256 % 256 % |f.animals|]
  }

  function NumericId(f: Funifier, category: Bytes, n: nat): (r: nat)
    ensures r <= U64_MAX
  {
    Hash(f, category, LittleEndian(n, 8)) % 0x1_0000_0000_0000_0000
  }

  function Magnitude(n: int): (m: nat) {
    if n < 0 then -n else n
  }

  function NumericIdI64(f: Funifier, category: Bytes, n: int): (r: int)
    requires I64_MIN <= n < -I64_MIN
    ensures I64_MIN < r < -I64_MIN
    ensures n < 0 ==> r <= 0
    ensures n > 0 ==> r >= 0
    ensures n == 0 ==> r == 0
  {
    if n == 0 then 0
    else
      var id := NumericId(f, category, Magnitude(n)) % 0x8000_0000_0000_0000;
      if n < 0 then -id else id
  }

  function NumericIdI32(f: Funifier, category: Bytes, n: int): (r: int)
    requires I32_MIN <= n <= I32_MAX
    ensures I32_MIN <= r <= I32_MAX
    ensures r == I32_MIN ==> n == I32_MIN
  {
    if n == 0 || n == I32_MIN || n == I32_MAX then n
    else
      var id := NumericId(f, category, Magnitude(n)) % 0x8000_0000;
      if n < 0 then -id else id
  }

  function NumericIdU32(f: Funifier, category: Bytes, n: nat): (r: nat)
    requires n <= U32_MAX
    ensures r <= U32_MAX
  {
    if n == 0 || n == U32_MAX then n else NumericId(f, category, n) % 0x1_0000_0000
  }

  // ----- JSON

  /** Integers are the values of u64 and i64 together. */
  datatype Json =
    | Null
    | Bool(b: bool)
    | Int(n: int)
    | Float(x: real)
    | Str(s: Bytes)
    | Arr(items: seq<Json>)
    | Obj(fields: seq<Field>)

  datatype Field = Field(key: Bytes, value: Json)

  /** What a `serde_json::Value` can hold: distinct keys, integers in range. */
  predicate Valid(j: Json) {
    match j
    case Int(n) => I64_MIN <= n <= U64_MAX
    case Arr(items) => forall i | 0 <= i < |items| :: Valid(items[i])
    case Obj(fields) =>
      && (forall i, k | 0 <= i < k < |fields| :: fields[i].key != fields[k].key)
      && forall i | 0 <= i < |fields| :: Valid(fields[i].value)
    case _ => true
  }

  // ----- Leaves

  function FunInt(f: Funifier, cat: Bytes, n: int): (r: int)
    requires I64_MIN <= n <= U64_MAX
    ensures I64_MIN <= r <= U64_MAX
  {
    if n >= 0 then
      if n == 0 || n == U64_MAX then n
      else if f.narrow(cat) then NumericIdU32(f, cat, if n > U32_MAX then U32_MAX else n)
      else NumericId(f, cat, n)
    else if f.narrow(cat) then NumericIdI32(f, cat, if n < I32_MIN then I32_MIN else n)
    else NumericIdI64(f, cat, n)
  }

  function FunLeaf(f: Funifier, cat: Option<Bytes>, j: Json): (r: Json)
    requires HasWords(f) && Valid(j)
    ensures Valid(r)
  {
    match (cat, j)
    case (Some(c), Str(s)) => Str(Petname(f, c, s))
    case (Some(c), Int(n)) => Int(FunInt(f, c, n))
    case _ => j
  }

  function ChildCategory(f: Funifier, key: Bytes): (cat: Option<Bytes>) {
    if f.metric(key) then None else Some(key)
  }

  /** Where a 32-bit-wide key is replaced, the result fits 32 bits again; the one exception is the
      64-bit sentinel, which passes through. */
  lemma NarrowFits(f: Funifier, cat: Bytes, n: int)
    requires I64_MIN <= n <= U64_MAX && f.narrow(cat)
    ensures n == U64_MAX ==> FunInt(f, cat, n) == U64_MAX
    ensures 0 <= n < U64_MAX ==> 0 <= FunInt(f, cat, n) <= U32_MAX
    ensures U32_MAX <= n < U64_MAX ==> FunInt(f, cat, n) == U32_MAX
    ensures n < 0 ==> I32_MIN <= FunInt(f, cat, n) <= 0
    ensures n <= I32_MIN ==> FunInt(f, cat, n) == I32_MIN
  {
  }

  /** The sign of a negative identifier survives under every hash exactly for 32-bit-wide keys at or
      below the 32-bit minimum, which are clamped to that sentinel. */
  lemma SignSurvivesExactly(f: Funifier, cat: Bytes, n: int)
    requires I64_MIN <= n < 0
    ensures (forall h: Bytes -> nat :: FunInt(f.(hash := h), cat, n) < 0) <==> f.narrow(cat) && n <= I32_MIN
  {
    if f.narrow(cat) && n <= I32_MIN {
      forall h: Bytes -> nat
        ensures FunInt(f.(hash := h), cat, n) < 0
      {
      }
    } else {
      SignLost(f, cat, n);
    }
  }

  /** Everywhere else a hash value of zero turns the negative identifier into zero. */
  lemma SignLost(f: Funifier, cat: Bytes, n: int)
    requires I64_MIN <= n < 0 && !(f.narrow(cat) && n <= I32_MIN)
    ensures FunInt(f.(hash := _ => 0), cat, n) == 0
  {
    assert NumericId(f.(hash := _ => 0), cat, -n) == 0;
  }

  // ----- Names

  ghost predicate GoodWords(words: seq<Bytes>) {
    && |words| >= 256
    && (forall i | 0 <= i < |words| :: 45 !in words[i])
    && forall i, k | 0 <= i < k < |words| :: words[i] != words[k]
  }

  function Name(f: Funifier, i: nat, k: nat): (name: Bytes)
    requires i < |f.adjectives| && k < |f.animals|
  {
    f.adjectives[i] + [45] + f.animals[k]
  }

  lemma PetnameWords(f: Funifier, c: Bytes, p: Bytes)
    requires |f.adjectives| >= 256 && |f.animals| >= 256
    ensures Petname(f, c, p) == Name(f, Hash(f, c, p) % 256, Hash(f, c, p) / 256 % 256)
  {
    var h := Hash(f, c, p);
    NoWrap(h % 256, |f.adjectives|);
    NoWrap(h / 256 % 256, |f.animals|);
  }

  lemma NoWrap(i: nat, n: nat)
    requires i < n
    ensures i % n == i
  {
  }

  lemma NamesDiffer(f: Funifier, i: nat, k: nat, l: nat, m: nat)
    requires GoodWords(f.adjectives) && GoodWords(f.animals)
    requires i < |f.adjectives| && k < |f.animals| && l < |f.adjectives| && m < |f.animals|
    ensures Name(f, i, k) == Name(f, l, m) <==> i == l && k == m
  {
    if Name(f, i, k) == Name(f, l, m) {
      DashSplits(f.adjectives[i], f.animals[k], f.adjectives[l], f.animals[m]);
    }
  }

  /** With at least 256 distinct dash-free words in each list, two names are equal exactly when the low
      16 bits of the hashes are: the index never wraps and no word beyond the 256th is used. */
  lemma PetnameExact(f: Funifier, c: Bytes, p: Bytes, d: Bytes, q: Bytes)
    requires GoodWords(f.adjectives) && GoodWords(f.animals)
    ensures Petname(f, c, p) == Petname(f, d, q) <==> Hash(f, c, p) % 0x1_0000 == Hash(f, d, q) % 0x1_0000
  {
    var g, h := Hash(f, c, p), Hash(f, d, q);
    PetnameWords(f, c, p);
    PetnameWords(f, d, q);
    NamesDiffer(f, g % 256, g / 256 % 256, h % 256, h / 256 % 256);
    LowBits(g, h);
  }

  lemma LowBits(g: nat, h: nat)
    ensures g % 0x1_0000 == h % 0x1_0000 <==> g % 256 == h % 256 && g / 256 % 256 == h / 256 % 256
  {
    TwoLowBytes(g);
    TwoLowBytes(h);
  }

  lemma TwoLowBytes(g: nat)
    ensures g % 0x1_0000 == g % 256 + 256 * (g / 256 % 256)
  {
    var high := g / 256;
    LowPart(g, high / 256, g % 256 + 256 * (high % 256));
  }

  lemma LowPart(g: nat, high: nat, low: nat)
    requires g == 0x1_0000 * high + low && low < 0x1_0000
    ensures g % 0x1_0000 == low
  {
  }

  lemma DashSplits(a: Bytes, b: Bytes, c: Bytes, d: Bytes)
    requires 45 !in a && 45 !in c && a + [45] + b == c + [45] + d
    ensures a == c && b == d
  {
    var s, t := a + [45] + b, c + [45] + d;
    assert s[|a|] == 45 && t[|c|] == 45;
    assert forall i | 0 <= i < |a| :: s[i] == a[i];
    assert forall i | 0 <= i < |c| :: t[i] == c[i];
    assert |a| == |c|;
    assert a == s[..|a|] && c == t[..|c|];
    assert b == s[|a| + 1..] && d == t[|c| + 1..];
  }

  // ----- The walker

  function Funified(f: Funifier, cat: Option<Bytes>, j: Json): (r: Json)
    requires HasWords(f) && Valid(j)
    decreases j
  {
    match j
    case Arr(items) => Arr(seq(|items|, i requires 0 <= i < |items| => Funified(f, cat, items[i])))
    case Obj(fields) =>
      Obj(seq(|fields|, i requires 0 <= i < |fields| =>
                Field(fields[i].key, Funified(f, ChildCategory(f, fields[i].key), fields[i].value))))
    case _ => FunLeaf(f, cat, j)
  }

  /** `Map::insert`: replace the value of a key that is there, else append. */
  function Inserted(fields: seq<Field>, key: Bytes, value: Json): (r: seq<Field>)
    ensures (forall i | 0 <= i < |fields| :: fields[i].key != key) ==> r == fields + [Field(key, value)]
  {
    if fields == [] then [Field(key, value)]
    else if fields[0].key == key then [Field(key, value)] + fields[1..]
    else [fields[0]] + Inserted(fields[1..], key, value)
  }

  /** `funify_json_with_context`. */
  method FunifyJson(f: Funifier, cat: Option<Bytes>, j: Json) returns (r: Json)
    requires HasWords(f) && Valid(j)
    ensures r == Funified(f, cat, j)
    decreases j
  {
    match j
    case Obj(fields) =>
      ghost var goal := Funified(f, cat, j).fields;
      var out: seq<Field> := [];
      for i := 0 to |fields|
        invariant out == goal[..i]
      {
        var value := FunifyJson(f, ChildCategory(f, fields[i].key), fields[i].value);
        out := Inserted(out, fields[i].key, value);
      }
      r := Obj(out);
    case Arr(items) =>
      ghost var goal := Funified(f, cat, j).items;
      var out: seq<Json> := [];
      for i := 0 to |items|
        invariant out == goal[..i]
      {
        var item := FunifyJson(f, cat, items[i]);
        out := out + [item];
      }
      r := Arr(out);
    case _ =>
      r := FunLeaf(f, cat, j);
  }

  // ----- Path by path

  /** Positions of children, from the root. */
  type Path = seq<nat>

  function Children(j: Json): (n: nat) {
    match j
    case Arr(items) => |items|
    case Obj(fields) => |fields|
    case _ => 0
  }

  function Child(j: Json, i: nat): (c: Json)
    requires i < Children(j)
  {
    if j.Arr? then j.items[i] else j.fields[i].value
  }

  /** The node at a path, if the path exists. */
  function At(j: Json, path: Path): (r: Option<Json>)
    decreases |path|
  {
    if path == [] then Some(j)
    else if path[0] < Children(j) then At(Child(j, path[0]), path[1..])
    else None
  }

  /** The nearest object key above the path decides; arrays inherit. */
  function CategoryAt(f: Funifier, cat: Option<Bytes>, j: Json, path: Path): (r: Option<Bytes>)
    decreases |path|
  {
    if path == [] || path[0] >= Children(j) then cat
    else CategoryAt(f, if j.Obj? then ChildCategory(f, j.fields[path[0]].key) else cat, Child(j, path[0]), path[1..])
  }

  /** Same kind of node; objects with the same keys in the same order, arrays of the same length. */
  predicate SameShape(a: Json, b: Json) {
    match a
    case Null => b.Null?
    case Bool(_) => b.Bool?
    case Int(_) => b.Int?
    case Float(_) => b.Float?
    case Str(_) => b.Str?
    case Arr(items) => b.Arr? && |b.items| == |items|
    case Obj(fields) =>
      b.Obj? && |b.fields| == |fields| && forall i | 0 <= i < |fields| :: b.fields[i].key == fields[i].key
  }

  /** The output tree has a node of the same shape at exactly the same paths, and each leaf is the leaf
      function of the category of its path and the input leaf. */
  lemma {:induction false} PathWise(f: Funifier, cat: Option<Bytes>, j: Json, path: Path)
    requires HasWords(f) && Valid(j)
    ensures At(Funified(f, cat, j), path).Some? <==> At(j, path).Some?
    ensures var a, b := At(j, path), At(Funified(f, cat, j), path);
            a.Some? ==>
              && Valid(a.value) && SameShape(a.value, b.value)
              && (!a.value.Arr? && !a.value.Obj? ==>
                    b.value == FunLeaf(f, CategoryAt(f, cat, j, path), a.value))
    decreases |path|
  {
    if path != [] && path[0] < Children(j) {
      var c := Child(j, path[0]);
      var below := if j.Obj? then ChildCategory(f, j.fields[path[0]].key) else cat;
      PathWise(f, below, c, path[1..]);
      assert Child(Funified(f, cat, j), path[0]) == Funified(f, below, c);
    }
  }

  /** Equal leaves under the same key stay equal anywhere in a dump, and in any two dumps. */
  lemma EqualLeavesStayEqual(f: Funifier, j: Json, path: Path, k: Json, other: Path)
    requires HasWords(f) && Valid(j) && Valid(k)
    requires At(j, path).Some? && At(j, path) == At(k, other)
    requires !At(j, path).value.Arr? && !At(j, path).value.Obj?
    requires CategoryAt(f, None, j, path) == CategoryAt(f, None, k, other)
    ensures At(Funified(f, None, j), path) == At(Funified(f, None, k), other)
  {
    PathWise(f, None, j, path);
    PathWise(f, None, k, other);
  }

  /** A whole subtree without object keys below a metric key, or at the root, is unchanged. */
  lemma {:induction false} PassesThrough(f: Funifier, j: Json)
    requires HasWords(f) && Valid(j) && KeyFree(j)
    ensures Funified(f, None, j) == j
    decreases j
  {
    match j
    case Arr(items) =>
      forall i | 0 <= i < |items|
        ensures Funified(f, None, items[i]) == items[i]
      {
        PassesThrough(f, items[i]);
      }
    case _ =>
  }

  predicate KeyFree(j: Json) {
    match j
    case Arr(items) => forall i | 0 <= i < |items| :: KeyFree(items[i])
    case Obj(_) => false
    case _ => true
  }
}
