/** Round trip, prefix freedom, order independence and what reading does to a target. */
module SerialProofs {
  import opened Wrappers
  import opened Bytes
  import opened SerialModel

  // ---------------------------------------------------------------- which types read back

  /** Types with one value and no bytes: empty tuples and pairs of such. */
  predicate Trivial(t: Ty) {
    t.Unit? || (t.Pair? && Trivial(t.fst) && Trivial(t.snd))
  }

  /** Set elements must be what `output` can read, at every depth. */
  predicate Supported(t: Ty) {
    match t
    case Coll(kind, elem) => Supported(elem) && (SetLike(kind) ==> Leaf(elem) || Trivial(elem))
    case Pair(fst, snd) => Supported(fst) && Supported(snd)
    case _ => true
  }

  lemma TrivialIsNothing(t: Ty, v: Val)
    requires WellFormed(t) && Trivial(t) && HasType(t, v)
    ensures Encode(t, v) == [] && Meaning(t, v) == Default(t)
  {
    if t.Pair? {
      TrivialIsNothing(t.fst, v.a);
      TrivialIsNothing(t.snd, v.b);
    }
  }

  // ---------------------------------------------------------------- round trip

  lemma ScalarRoundTrip(k: Scalar, n: int, rest: seq<byte>)
    requires InRange(k, n)
    ensures ReadScalar(k, LE(ToBits(k, n), Width(k)) + rest) == Some((ONum(n), rest))
  {
    var b := LE(ToBits(k, n), Width(k));
    assert (b + rest)[..Width(k)] == b && (b + rest)[Width(k)..] == rest;
    BitsRoundTrip(k, n);
  }

  lemma CountRoundTrip(n: nat, rest: seq<byte>)
    requires n < Pow256(8)
    ensures |LE(n, 8) + rest| >= 8 && UnLE((LE(n, 8) + rest)[..8]) == n && (LE(n, 8) + rest)[8..] == rest
  {
    assert (LE(n, 8) + rest)[..8] == LE(n, 8);
    LERoundTrip(n, 8);
  }

  lemma TextRoundTrip(s: seq<byte>, rest: seq<byte>)
    requires |s| < Pow256(8)
    ensures ReadText(LE(|s|, 8) + s + rest) == Some((OText(s), rest))
  {
    LERoundTrip(|s|, 8);
    HeadedRoundTrip(LE(|s|, 8), s, rest);
  }

  lemma HeadedRoundTrip(head: seq<byte>, s: seq<byte>, rest: seq<byte>)
    requires |head| == 8 && UnLE(head) == |s|
    ensures ReadText(head + s + rest) == Some((OText(s), rest))
  {
    var b := head + s + rest;
    assert b[..8] == head && b[8..8 + |s|] == s && b[8 + |s|..] == rest;
  }

  /** Writing any object of a supported type and reading it into any target gives the target
      the object's value and consumes exactly its bytes. */
  lemma {:induction false} RoundTrip(t: Ty, target: Obj, v: Val, rest: seq<byte>)
    requires WellFormed(t) && Supported(t) && HasType(t, v) && Fits(t, target)
    ensures Decode(t, target, Encode(t, v) + rest) == Some((Into(t, target, v), rest))
    decreases t, 1
  {
    match t
    case Prim(k) => ScalarRoundTrip(k, v.n, rest);
    case Str => TextRoundTrip(v.s, rest);
    case Coll(kind, elem) =>
      var all := EncodeAll(elem, v.xs);
      assert Encode(t, v) + rest == LE(|v.xs|, 8) + (all + rest);
      CountRoundTrip(|v.xs|, all + rest);
      RoundTripAll(kind, elem, Start(kind, target), v.xs, rest);
    case Pair(fst, snd) =>
      assert Encode(t, v) + rest == Encode(fst, v.a) + (Encode(snd, v.b) + rest);
      RoundTrip(fst, target.a, v.a, Encode(snd, v.b) + rest);
      RoundTrip(snd, target.b, v.b, rest);
    case Unit => assert [] + rest == rest;
  }

  lemma ElemRoundTrip(kind: Kind, elem: Ty, x: Val, rest: seq<byte>)
    requires WellFormed(elem) && Supported(elem) && (SetLike(kind) ==> Leaf(elem) || Trivial(elem)) && HasType(elem, x)
    ensures DecodeElem(kind, elem, Encode(elem, x) + rest) == Some((Meaning(elem, x), rest))
    decreases elem, 2, 0
  {
    if SetLike(kind) && !Leaf(elem) {
      TrivialIsNothing(elem, x);
      assert [] + rest == rest;
    } else {
      RoundTrip(elem, Default(elem), x, rest);
    }
  }

  lemma FillFirst(kind: Kind, acc: Obj, elem: Ty, xs: seq<Val>)
    requires WellFormed(elem) && (MapLike(kind) ==> elem.Pair?) && Shape(kind, acc) && xs != []
    requires forall i :: 0 <= i < |xs| ==> HasType(elem, xs[i])
    ensures Fill(kind, acc, Meanings(elem, xs))
         == Fill(kind, Insert(kind, acc, Meaning(elem, xs[0])), Meanings(elem, xs[1..]))
  {
    assert Meanings(elem, xs)[1..] == Meanings(elem, xs[1..]);
  }

  /** The bytes an object takes: its fixed-width parts, and eight for each count and length. */
  ghost function Size(t: Ty, v: Val): nat
    requires HasType(t, v)
    decreases t, 0
  {
    match t
    case Prim(k) => Width(k)
    case Str => 8 + |v.s|
    case Coll(_, elem) => 8 + SizeAll(elem, v.xs)
    case Pair(fst, snd) => Size(fst, v.a) + Size(snd, v.b)
    case Unit => 0
  }

  ghost function SizeAll(elem: Ty, xs: seq<Val>): nat
    requires forall i :: 0 <= i < |xs| ==> HasType(elem, xs[i])
    decreases elem, 1, |xs|
  {
    if xs == [] then 0 else Size(elem, xs[0]) + SizeAll(elem, xs[1..])
  }

  /** An object is written in exactly that many bytes, and a container begins with its count. */
  lemma {:induction false} EncodeSize(t: Ty, v: Val)
    requires HasType(t, v)
    ensures |Encode(t, v)| == Size(t, v)
    ensures t.Coll? ==> Encode(t, v)[..8] == LE(|v.xs|, 8)
    decreases t, 0
  {
    match t
    case Coll(_, elem) =>
      EncodeAllSize(elem, v.xs);
      assert Encode(t, v)[..8] == LE(|v.xs|, 8);
    case Pair(fst, snd) =>
      EncodeSize(fst, v.a);
      EncodeSize(snd, v.b);
    case _ =>
  }

  lemma {:induction false} EncodeAllSize(elem: Ty, xs: seq<Val>)
    requires forall i :: 0 <= i < |xs| ==> HasType(elem, xs[i])
    ensures |EncodeAll(elem, xs)| == SizeAll(elem, xs)
    decreases elem, 1, |xs|
  {
    if xs != [] {
      EncodeSize(elem, xs[0]);
      EncodeAllSize(elem, xs[1..]);
    }
  }

  lemma EncodeFirst(elem: Ty, xs: seq<Val>, rest: seq<byte>)
    requires xs != [] && forall i :: 0 <= i < |xs| ==> HasType(elem, xs[i])
    ensures EncodeAll(elem, xs) + rest == Encode(elem, xs[0]) + (EncodeAll(elem, xs[1..]) + rest)
  {
  }

  lemma NextOf(kind: Kind, elem: Ty, n: nat, acc: Obj, b: seq<byte>)
    requires WellFormed(elem) && (MapLike(kind) ==> elem.Pair?) && Shape(kind, acc) && n > 0
    ensures var x := DecodeElem(kind, elem, b);
            DecodeAll(kind, elem, n, acc, b) ==
            if x.None? then None else DecodeAll(kind, elem, n - 1, Insert(kind, acc, x.value.0), x.value.1)
  {
  }

  lemma {:induction false} RoundTripAll(kind: Kind, elem: Ty, acc: Obj, xs: seq<Val>, rest: seq<byte>)
    requires WellFormed(elem) && (MapLike(kind) ==> elem.Pair?) && Shape(kind, acc)
    requires Supported(elem) && (SetLike(kind) ==> Leaf(elem) || Trivial(elem))
    requires forall i :: 0 <= i < |xs| ==> HasType(elem, xs[i])
    ensures DecodeAll(kind, elem, |xs|, acc, EncodeAll(elem, xs) + rest)
         == Some((Fill(kind, acc, Meanings(elem, xs)), rest))
    decreases elem, 3, |xs|
  {
    if xs == [] {
      assert [] + rest == rest;
    } else {
      var x, tail := xs[0], xs[1..];
      var b := EncodeAll(elem, tail) + rest;
      EncodeFirst(elem, xs, rest);
      ElemRoundTrip(kind, elem, x, b);
      NextOf(kind, elem, |xs|, acc, Encode(elem, x) + b);
      FillFirst(kind, acc, elem, xs);
      RoundTripAll(kind, elem, Insert(kind, acc, Meaning(elem, x)), tail, rest);
    }
  }

  // ---------------------------------------------------------------- exactly the supported types

  /** An object worth what a fresh one is. */
  function Zero(t: Ty): Val {
    match t
    case Prim(_) => Num(0)
    case Str => Text([])
    case Coll(_, _) => Items([])
    case Pair(fst, snd) => Two(Zero(fst), Zero(snd))
    case Unit => Nothing
  }

  lemma ZeroIsDefault(t: Ty)
    requires WellFormed(t)
    ensures HasType(t, Zero(t)) && Meaning(t, Zero(t)) == Default(t)
  {
    Pow256Values();
    if t.Pair? {
      ZeroIsDefault(t.fst);
      ZeroIsDefault(t.snd);
    }
  }

  /** An object worth something else, if the type has one. */
  function Other(t: Ty): Val {
    match t
    case Prim(_) => Num(1)
    case Str => Text([0])
    case Coll(_, elem) => Items([Zero(elem)])
    case Pair(fst, snd) => if Trivial(fst) then Two(Zero(fst), Other(snd)) else Two(Other(fst), Zero(snd))
    case Unit => Nothing
  }

  lemma OtherIsOther(t: Ty)
    requires WellFormed(t) && !Trivial(t)
    ensures HasType(t, Other(t)) && Meaning(t, Other(t)) != Default(t)
  {
    Pow256Values();
    match t
    case Pair(fst, snd) =>
      ZeroIsDefault(fst);
      ZeroIsDefault(snd);
      if Trivial(fst) { OtherIsOther(snd); } else { OtherIsOther(fst); }
    case Coll(kind, elem) =>
      ZeroIsDefault(elem);
      var x := Meaning(elem, Zero(elem));
      assert Meanings(elem, [Zero(elem)]) == [x];
      assert Fill(kind, Empty(kind), [x]) == Insert(kind, Empty(kind), x);
    case _ =>
  }

  /** An object of an unsupported type that does not read back. */
  function Broken(t: Ty): Val
    requires !Supported(t)
  {
    match t
    case Coll(kind, elem) => if !Supported(elem) && !SetLike(kind) then Items([Broken(elem)]) else Items([Other(elem)])
    case Pair(fst, snd) => if Supported(fst) then Two(Zero(fst), Broken(snd)) else Two(Broken(fst), Zero(snd))
  }

  ghost predicate ReadsBack(t: Ty, v: Val, rest: seq<byte>)
    requires WellFormed(t) && HasType(t, v)
  {
    Decode(t, Default(t), Encode(t, v) + rest) == Some((Meaning(t, v), rest))
  }

  lemma {:induction false} BrokenIsBroken(t: Ty, rest: seq<byte>)
    requires WellFormed(t) && !Supported(t)
    ensures HasType(t, Broken(t))
    ensures Misread(Decode(t, Default(t), Encode(t, Broken(t)) + rest), Meaning(t, Broken(t)))
  {
    var v := Broken(t);
    match t
    case Coll(kind, elem) =>
      if !Supported(elem) && !SetLike(kind) {
        BrokenIsBroken(elem, rest);
      } else {
        if !Supported(elem) { NotTrivial(elem); }
        OtherIsOther(elem);
      }
      MisreadItem(kind, elem, v.xs[0], rest);
    case Pair(fst, snd) =>
      if Supported(fst) {
        ZeroIsDefault(fst);
        BrokenIsBroken(snd, rest);
        assert Encode(t, v) + rest == Encode(fst, v.a) + (Encode(snd, v.b) + rest);
        RoundTrip(fst, Default(fst), v.a, Encode(snd, v.b) + rest);
      } else {
        ZeroIsDefault(snd);
        BrokenIsBroken(fst, Encode(snd, v.b) + rest);
        assert Encode(t, v) + rest == Encode(fst, v.a) + (Encode(snd, v.b) + rest);
      }
  }

  ghost predicate Misread(r: Read, o: Obj) {
    r.None? || r.value.0 != o
  }

  lemma NotTrivial(elem: Ty)
    requires !Supported(elem)
    ensures !Trivial(elem)
  {
  }

  lemma InsertOne(kind: Kind, x: Obj, y: Obj)
    requires MapLike(kind) ==> x.OPair? && y.OPair?
    requires Insert(kind, Empty(kind), x) == Insert(kind, Empty(kind), y)
    ensures x == y
  {
    if SeqLike(kind) {
      assert ([] + [x])[0] == ([] + [y])[0];
    } else if kind in {Set, USet} {
      assert x in {} + {y};
    } else if kind in {Map, UMap} {
      assert x.a in map[x.a := x.b] && x.a in map[y.a := y.b];
    } else if kind.MultiMap? {
      assert x.a in map[x.a := [] + [x.b]] && x.a in map[y.a := [] + [y.b]];
      assert ([] + [x.b])[0] == x.b && ([] + [y.b])[0] == y.b;
    } else {
      assert x in multiset{} + multiset{y};
    }
  }

  /** The bytes of a container with one item, and what it is worth. */
  lemma OneItem(kind: Kind, elem: Ty, x: Val, rest: seq<byte>)
    requires HasType(elem, x) && WellFormed(Coll(kind, elem))
    ensures HasType(Coll(kind, elem), Items([x]))
    ensures Encode(Coll(kind, elem), Items([x])) + rest == LE(1, 8) + (Encode(elem, x) + rest)
    ensures Meaning(Coll(kind, elem), Items([x])) == Insert(kind, Empty(kind), Meaning(elem, x))
  {
    Pow256Values();
    assert EncodeAll(elem, [x]) == Encode(elem, x) + [];
    assert Meanings(elem, [x]) == [Meaning(elem, x)];
    assert Fill(kind, Empty(kind), [Meaning(elem, x)]) == Insert(kind, Empty(kind), Meaning(elem, x));
  }

  /** Reading one item into an empty container. */
  lemma ReadOne(kind: Kind, elem: Ty, b: seq<byte>)
    requires WellFormed(Coll(kind, elem))
    ensures var r, d := DecodeElem(kind, elem, b), Decode(Coll(kind, elem), Empty(kind), LE(1, 8) + b);
            if r.None? then d.None? else d == Some((Insert(kind, Empty(kind), r.value.0), r.value.1))
  {
    CountRoundTrip(1, b);
    var r := DecodeElem(kind, elem, b);
    if r.Some? {
      var acc := Insert(kind, Empty(kind), r.value.0);
      assert DecodeAll(kind, elem, 1, Empty(kind), b) == DecodeAll(kind, elem, 0, acc, r.value.1);
    }
  }

  /** A container with one misread item is misread. */
  lemma MisreadItem(kind: Kind, elem: Ty, x: Val, rest: seq<byte>)
    requires WellFormed(Coll(kind, elem)) && HasType(elem, x)
    requires Misread(DecodeElem(kind, elem, Encode(elem, x) + rest), Meaning(elem, x))
    ensures HasType(Coll(kind, elem), Items([x]))
    ensures Misread(Decode(Coll(kind, elem), Empty(kind), Encode(Coll(kind, elem), Items([x])) + rest),
                    Meaning(Coll(kind, elem), Items([x])))
  {
    var b := Encode(elem, x) + rest;
    OneItem(kind, elem, x, rest);
    ReadOne(kind, elem, b);
    var r := DecodeElem(kind, elem, b);
    if r.Some? && Insert(kind, Empty(kind), r.value.0) == Insert(kind, Empty(kind), Meaning(elem, x)) {
      InsertOne(kind, r.value.0, Meaning(elem, x));
    }
  }

  /** The round trip holds for every object of a type exactly when the type is supported. */
  lemma RoundTripExactly(t: Ty)
    requires WellFormed(t)
    ensures Supported(t) <==> forall v, rest :: HasType(t, v) ==> ReadsBack(t, v, rest)
  {
    if Supported(t) {
      forall v, rest | HasType(t, v)
        ensures ReadsBack(t, v, rest)
      {
        RoundTrip(t, Default(t), v, rest);
      }
    } else {
      BrokenIsBroken(t, []);
      assert !ReadsBack(t, Broken(t), []);
    }
  }

  // ---------------------------------------------------------------- prefix freedom

  lemma LEInjective(m: int, n: int, k: nat, r: seq<byte>, s: seq<byte>)
    requires 0 <= m < Pow256(k) && 0 <= n < Pow256(k) && LE(m, k) + r == LE(n, k) + s
    ensures m == n && r == s
  {
    assert (LE(m, k) + r)[..k] == LE(m, k) && (LE(n, k) + s)[..k] == LE(n, k);
    assert (LE(m, k) + r)[k..] == r && (LE(n, k) + s)[k..] == s;
    LERoundTrip(m, k);
    LERoundTrip(n, k);
  }

  /** A count in front of a body is read off first. */
  lemma CountedInjective(k: nat, m: nat, n: nat, a: seq<byte>, b: seq<byte>, r: seq<byte>, s: seq<byte>)
    requires m < Pow256(k) && n < Pow256(k) && LE(m, k) + a + r == LE(n, k) + b + s
    ensures m == n && a + r == b + s
  {
    assert LE(m, k) + a + r == LE(m, k) + (a + r) && LE(n, k) + b + s == LE(n, k) + (b + s);
    LEInjective(m, n, k, a + r, b + s);
  }

  lemma ScalarInjective(k: Scalar, m: int, n: int, r: seq<byte>, s: seq<byte>)
    requires InRange(k, m) && InRange(k, n) && LE(ToBits(k, m), Width(k)) + r == LE(ToBits(k, n), Width(k)) + s
    ensures m == n && r == s
  {
    LEInjective(ToBits(k, m), ToBits(k, n), Width(k), r, s);
    BitsRoundTrip(k, m);
    BitsRoundTrip(k, n);
  }

  lemma Regroup(a: seq<byte>, b: seq<byte>, r: seq<byte>, c: seq<byte>, d: seq<byte>, s: seq<byte>)
    requires a + b + r == c + d + s
    ensures a + (b + r) == c + (d + s)
  {
    assert a + b + r == a + (b + r) && c + d + s == c + (d + s);
  }

  lemma SplitEqual(a: seq<byte>, b: seq<byte>, r: seq<byte>, s: seq<byte>)
    requires |a| == |b| && a + r == b + s
    ensures a == b && r == s
  {
    assert a == (a + r)[..|a|] && b == (b + s)[..|b|];
    assert r == (a + r)[|a|..] && s == (b + s)[|b|..];
  }

  /** No encoding of a type is a proper prefix of another, and none is ambiguous; this needs
      no `Supported`. */
  lemma {:induction false} PrefixFree(t: Ty, v: Val, w: Val, r: seq<byte>, s: seq<byte>)
    requires HasType(t, v) && HasType(t, w) && Encode(t, v) + r == Encode(t, w) + s
    ensures v == w && r == s
    decreases t, 0
  {
    match t
    case Prim(k) =>
      ScalarInjective(k, v.n, w.n, r, s);
    case Str =>
      CountedInjective(8, |v.s|, |w.s|, v.s, w.s, r, s);
      SplitEqual(v.s, w.s, r, s);
    case Coll(_, elem) =>
      CountedInjective(8, |v.xs|, |w.xs|, EncodeAll(elem, v.xs), EncodeAll(elem, w.xs), r, s);
      PrefixFreeAll(elem, v.xs, w.xs, r, s);
    case Pair(fst, snd) =>
      Regroup(Encode(fst, v.a), Encode(snd, v.b), r, Encode(fst, w.a), Encode(snd, w.b), s);
      PrefixFree(fst, v.a, w.a, Encode(snd, v.b) + r, Encode(snd, w.b) + s);
      PrefixFree(snd, v.b, w.b, r, s);
    case Unit => assert [] + r == r && [] + s == s;
  }

  lemma {:induction false} PrefixFreeAll(elem: Ty, xs: seq<Val>, ys: seq<Val>, r: seq<byte>, s: seq<byte>)
    requires |xs| == |ys|
    requires forall i :: 0 <= i < |xs| ==> HasType(elem, xs[i])
    requires forall i :: 0 <= i < |ys| ==> HasType(elem, ys[i])
    requires EncodeAll(elem, xs) + r == EncodeAll(elem, ys) + s
    ensures xs == ys && r == s
    decreases elem, 1, |xs|
  {
    if xs == [] {
      assert [] + r == r && [] + s == s;
    } else {
      var r', s' := EncodeAll(elem, xs[1..]) + r, EncodeAll(elem, ys[1..]) + s;
      assert EncodeAll(elem, xs) + r == Encode(elem, xs[0]) + r';
      assert EncodeAll(elem, ys) + s == Encode(elem, ys[0]) + s';
      PrefixFree(elem, xs[0], ys[0], r', s');
      PrefixFreeAll(elem, xs[1..], ys[1..], r, s);
      assert xs == [xs[0]] + xs[1..] && ys == [ys[0]] + ys[1..];
    }
  }

  // ---------------------------------------------------------------- what filling a target gives

  function Elems(objs: seq<Obj>): set<Obj> { set x | x in objs }

  /** Entries of `objs` under key `k`: the value decoded first. */
  ghost predicate FirstOf(objs: seq<Obj>, k: Obj, x: Obj) {
    exists i :: 0 <= i < |objs| && objs[i] == OPair(k, x) && forall j :: 0 <= j < i ==> objs[j].OPair? && objs[j].a != k
  }

  lemma {:induction false} FillSeq(kind: Kind, s: seq<Obj>, objs: seq<Obj>)
    requires SeqLike(kind)
    ensures Fill(kind, OSeq(s), objs) == OSeq(s + objs)
    decreases |objs|
  {
    if objs == [] {
      assert s + [] == s;
    } else {
      FillSeq(kind, s + [objs[0]], objs[1..]);
      assert (s + [objs[0]]) + objs[1..] == s + objs;
    }
  }

  lemma {:induction false} FillSet(kind: Kind, s: set<Obj>, objs: seq<Obj>)
    requires kind in {Set, USet}
    ensures Fill(kind, OSet(s), objs) == OSet(s + Elems(objs))
    decreases |objs|
  {
    if objs != [] {
      FillSet(kind, s + {objs[0]}, objs[1..]);
      assert objs == [objs[0]] + objs[1..];
      assert Elems(objs) == {objs[0]} + Elems(objs[1..]);
      assert (s + {objs[0]}) + Elems(objs[1..]) == s + Elems(objs);
    } else {
      assert s + Elems(objs) == s;
    }
  }

  lemma BagFirst(b: multiset<Obj>, objs: seq<Obj>)
    requires objs != []
    ensures b + multiset(objs) == (b + multiset{objs[0]}) + multiset(objs[1..])
  {
    assert objs == [objs[0]] + objs[1..];
  }

  lemma {:induction false} FillBag(kind: Kind, b: multiset<Obj>, objs: seq<Obj>)
    requires kind in {MultiSet, UMultiSet, UMultiMap} && Insertable(kind, objs)
    ensures Fill(kind, OBag(b), objs) == OBag(b + multiset(objs))
    decreases |objs|
  {
    if objs != [] {
      FillBag(kind, b + multiset{objs[0]}, objs[1..]);
      BagFirst(b, objs);
    }
  }

  /** The values of the entries with a key, in their order. */
  function ValuesOf(objs: seq<Obj>, key: Obj): seq<Obj> {
    if objs == [] then []
    else (if objs[0].OPair? && objs[0].a == key then [objs[0].b] else []) + ValuesOf(objs[1..], key)
  }

  lemma Regroup3(a: seq<Obj>, b: seq<Obj>, c: seq<Obj>)
    ensures a + b + c == a + (b + c) && [] + c == c
  {
  }

  lemma {:induction false} FillMulti(g: map<Obj, seq<Obj>>, objs: seq<Obj>, key: Obj)
    requires Insertable(MultiMap, objs)
    ensures var r := Fill(MultiMap, OMulti(g), objs);
            r.OMulti? && Under(r.groups, key) == Under(g, key) + ValuesOf(objs, key) &&
            (key in r.groups <==> key in g || ValuesOf(objs, key) != [])
    decreases |objs|
  {
    if objs == [] {
      assert Under(g, key) + [] == Under(g, key);
    } else {
      var x := objs[0];
      var g1 := g[x.a := Under(g, x.a) + [x.b]];
      FillMulti(g1, objs[1..], key);
      assert Fill(MultiMap, OMulti(g), objs) == Fill(MultiMap, OMulti(g1), objs[1..]);
      Regroup3(Under(g, key), [x.b], ValuesOf(objs[1..], key));
    }
  }

  lemma {:induction false} FillMap(kind: Kind, m: map<Obj, Obj>, objs: seq<Obj>)
    requires kind in {Map, UMap} && Insertable(kind, objs)
    ensures var r := Fill(kind, OMap(m), objs);
            r.OMap? && m.Keys <= r.entries.Keys &&
            (forall k <- m :: r.entries[k] == m[k]) &&
            (forall k <- r.entries :: k !in m ==> FirstOf(objs, k, r.entries[k])) &&
            (forall i :: 0 <= i < |objs| ==> objs[i].a in r.entries)
    decreases |objs|
  {
    if objs != [] {
      var x, tail := objs[0], objs[1..];
      var m1 := Insert(kind, OMap(m), x).entries;
      FillMap(kind, m1, tail);
      var r := Fill(kind, OMap(m1), tail).entries;
      assert Fill(kind, OMap(m), objs).entries == r;
      forall k <- r | k !in m
        ensures FirstOf(objs, k, r[k])
      {
        if k == x.a {
          assert objs[0] == OPair(k, r[k]);
        } else {
          assert k !in m1;
          var i :| 0 <= i < |tail| && tail[i] == OPair(k, r[k]) && forall j :: 0 <= j < i ==> tail[j].OPair? && tail[j].a != k;
          assert objs[i + 1] == OPair(k, r[k]);
          assert forall j :: 0 <= j < i + 1 ==> objs[j] == if j == 0 then x else tail[j - 1];
        }
      }
      forall i | 0 <= i < |objs|
        ensures objs[i].a in r
      {
        if i > 0 { assert objs[i] == tail[i - 1]; }
      }
    }
  }
}
