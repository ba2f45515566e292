/** The order the library compares keys with, and what it makes of `Canonical`. */
module StandardOrder {
  import opened Bytes
  import opened SerialModel
  import opened SerialOrder

  /** Numbers by value.  Floating-point values stand as bit patterns: by sign, then by magnitude;
      that is C++'s order but for the two zeros and for what is not a number. */
  function ScalarKey(k: Scalar, n: int): int {
    var half := Pow256(Width(k)) / 2;
    if (k.F32? || k.F64?) && n >= half then half - 1 - n else n
  }

  predicate BytesLess(a: seq<byte>, b: seq<byte>) {
    b != [] && (a == [] || a[0] < b[0] || (a[0] == b[0] && BytesLess(a[1..], b[1..])))
  }

  /** One string is a proper beginning of the other, or smaller where they first differ. */
  ghost predicate Lexicographic(a: seq<byte>, b: seq<byte>) {
    exists i :: 0 <= i <= |a| && i < |b| && a[..i] == b[..i] && (i == |a| || a[i] < b[i])
  }

  lemma {:induction false} BytesLessExactly(a: seq<byte>, b: seq<byte>)
    ensures BytesLess(a, b) <==> Lexicographic(a, b)
  {
    if a == [] || b == [] || a[0] != b[0] {
      if BytesLess(a, b) { assert a[..0] == b[..0]; }
    } else {
      BytesLessExactly(a[1..], b[1..]);
      LexicographicTail(a, b);
    }
  }

  lemma LexicographicTail(a: seq<byte>, b: seq<byte>)
    requires a != [] && b != [] && a[0] == b[0]
    ensures Lexicographic(a, b) <==> Lexicographic(a[1..], b[1..])
  {
    if i :| 0 <= i <= |a| && i < |b| && a[..i] == b[..i] && (i == |a| || a[i] < b[i]) {
      assert a[1..][..i - 1] == a[..i][1..] && b[1..][..i - 1] == b[..i][1..];
    }
    if i :| 0 <= i <= |a[1..]| && i < |b[1..]| && a[1..][..i] == b[1..][..i] && (i == |a[1..]| || a[1..][i] < b[1..][i]) {
      assert a[..i + 1] == [a[0]] + a[1..][..i] && b[..i + 1] == [b[0]] + b[1..][..i];
    }
  }

  /** `operator<` on scalars, strings, and item by item on pairs and containers. */
  predicate Less(t: Ty, x: Val, y: Val)
    decreases t, 0
  {
    match t
    case Prim(k) => x.Num? && y.Num? && ScalarKey(k, x.n) < ScalarKey(k, y.n)
    case Str => x.Text? && y.Text? && BytesLess(x.s, y.s)
    case Coll(_, elem) => x.Items? && y.Items? && ItemsLess(elem, x.xs, y.xs)
    case Pair(fst, snd) => x.Two? && y.Two? && (Less(fst, x.a, y.a) || (x.a == y.a && Less(snd, x.b, y.b)))
    case Unit => false
  }

  predicate ItemsLess(elem: Ty, xs: seq<Val>, ys: seq<Val>)
    decreases elem, 1, |xs|
  {
    ys != [] && (xs == [] || Less(elem, xs[0], ys[0]) || (xs[0] == ys[0] && ItemsLess(elem, xs[1..], ys[1..])))
  }

  lemma {:induction false} BytesOrder(a: seq<byte>, b: seq<byte>, c: seq<byte>)
    ensures !BytesLess(a, a)
    ensures BytesLess(a, b) && BytesLess(b, c) ==> BytesLess(a, c)
    ensures a == b || BytesLess(a, b) || BytesLess(b, a)
    decreases |a| + |b| + |c|
  {
    if a != [] { BytesOrder(a[1..], if b == [] then [] else b[1..], if c == [] then [] else c[1..]); }
    if a != [] && b != [] { assert a == [a[0]] + a[1..] && b == [b[0]] + b[1..]; }
  }

  lemma {:induction false} Irreflexive(t: Ty, x: Val)
    requires HasType(t, x)
    ensures !Less(t, x, x)
    decreases t, 0
  {
    match t
    case Prim(_) =>
    case Str => BytesOrder(x.s, x.s, x.s);
    case Coll(_, elem) => ItemsIrreflexive(elem, x.xs);
    case Pair(fst, snd) =>
      Irreflexive(fst, x.a);
      Irreflexive(snd, x.b);
    case Unit =>
  }

  lemma {:induction false} ItemsIrreflexive(elem: Ty, xs: seq<Val>)
    requires Typed(elem, xs)
    ensures !ItemsLess(elem, xs, xs)
    decreases elem, 1, |xs|
  {
    if xs != [] {
      Irreflexive(elem, xs[0]);
      ItemsIrreflexive(elem, xs[1..]);
    }
  }

  lemma {:induction false} Transitive(t: Ty, x: Val, y: Val, z: Val)
    requires HasType(t, x) && HasType(t, y) && HasType(t, z) && Less(t, x, y) && Less(t, y, z)
    ensures Less(t, x, z)
    decreases t, 0
  {
    match t
    case Prim(_) =>
    case Str => BytesOrder(x.s, y.s, z.s);
    case Coll(_, elem) => ItemsTransitive(elem, x.xs, y.xs, z.xs);
    case Pair(fst, snd) =>
      if Less(fst, x.a, y.a) && Less(fst, y.a, z.a) { Transitive(fst, x.a, y.a, z.a); }
      if Less(snd, x.b, y.b) && Less(snd, y.b, z.b) { Transitive(snd, x.b, y.b, z.b); }
  }

  lemma {:induction false} ItemsTransitive(elem: Ty, xs: seq<Val>, ys: seq<Val>, zs: seq<Val>)
    requires Typed(elem, xs) && Typed(elem, ys) && Typed(elem, zs) && ItemsLess(elem, xs, ys) && ItemsLess(elem, ys, zs)
    ensures ItemsLess(elem, xs, zs)
    decreases elem, 1, |xs|
  {
    if xs != [] {
      if Less(elem, xs[0], ys[0]) && Less(elem, ys[0], zs[0]) { Transitive(elem, xs[0], ys[0], zs[0]); }
      if ItemsLess(elem, xs[1..], ys[1..]) && ItemsLess(elem, ys[1..], zs[1..]) {
        ItemsTransitive(elem, xs[1..], ys[1..], zs[1..]);
      }
    }
  }

  lemma ScalarKeyTells(k: Scalar, m: int, n: int)
    requires InRange(k, m) && InRange(k, n)
    ensures ScalarKey(k, m) == ScalarKey(k, n) ==> m == n
  {
  }

  lemma {:induction false} Total(t: Ty, x: Val, y: Val)
    requires HasType(t, x) && HasType(t, y)
    ensures x == y || Less(t, x, y) || Less(t, y, x)
    decreases t, 0
  {
    match t
    case Prim(k) => ScalarKeyTells(k, x.n, y.n);
    case Str => BytesOrder(x.s, y.s, x.s);
    case Coll(_, elem) => ItemsTotal(elem, x.xs, y.xs);
    case Pair(fst, snd) =>
      Total(fst, x.a, y.a);
      Total(snd, x.b, y.b);
    case Unit =>
  }

  lemma {:induction false} ItemsTotal(elem: Ty, xs: seq<Val>, ys: seq<Val>)
    requires Typed(elem, xs) && Typed(elem, ys)
    ensures xs == ys || ItemsLess(elem, xs, ys) || ItemsLess(elem, ys, xs)
    decreases elem, 1, |xs|
  {
    if xs != [] && ys != [] {
      Total(elem, xs[0], ys[0]);
      ItemsTotal(elem, xs[1..], ys[1..]);
      assert xs == [xs[0]] + xs[1..] && ys == [ys[0]] + ys[1..];
    }
  }

  lemma StandardIsTotal()
    ensures StrictTotal(Less)
  {
    forall t, x | HasType(t, x) ensures !Less(t, x, x) { Irreflexive(t, x); }
    forall t, x, y | HasType(t, x) && HasType(t, y)
      ensures x == y || Less(t, x, y) || Less(t, y, x)
    {
      Total(t, x, y);
    }
    forall t, x, y, z | HasType(t, x) && HasType(t, y) && HasType(t, z) && Less(t, x, y) && Less(t, y, z)
      ensures Less(t, x, z)
    {
      Transitive(t, x, y, z);
    }
  }

  /** Two objects built from ordered containers that are equal in C++ give identical bytes; no
      premise on the order is left. */
  lemma SameBytes(t: Ty, v: Val, w: Val)
    requires WellFormed(t) && Ordered(t) && HasType(t, v) && HasType(t, w)
    requires InOrder(Less, t, v) && InOrder(Less, t, w) && Meaning(t, v) == Meaning(t, w)
    ensures Encode(t, v) == Encode(t, w)
  {
    StandardIsTotal();
    Canonical(Less, t, v, w);
  }
}
