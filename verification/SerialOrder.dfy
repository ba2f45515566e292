/** Reading into a target that already holds something, and the part iteration order plays. */
module SerialOrder {
  import opened Sequences
  import opened Wrappers
  import opened Bytes
  import opened SerialModel
  import opened SerialProofs

  // ---------------------------------------------------------------- reading into a target

  /** The items a container reads off `b`, before any of them is inserted. */
  ghost function Series(kind: Kind, elem: Ty, n: nat, b: seq<byte>): (r: Option<(seq<Obj>, seq<byte>)>)
    requires WellFormed(elem)
    ensures r.Some? ==> |r.value.0| == n && forall i :: 0 <= i < n ==> Fits(elem, r.value.0[i])
  {
    if n == 0 then Some(([], b))
    else
      var x := DecodeElem(kind, elem, b);
      if x.None? then None
      else
        var q := Series(kind, elem, n - 1, x.value.1);
        if q.None? then None else Some(([x.value.0] + q.value.0, q.value.1))
  }

  lemma {:induction false} ReadsThenFills(kind: Kind, elem: Ty, n: nat, acc: Obj, b: seq<byte>)
    requires WellFormed(elem) && (MapLike(kind) ==> elem.Pair?) && Shape(kind, acc)
    ensures var q := Series(kind, elem, n, b);
            DecodeAll(kind, elem, n, acc, b)
            == (if q.None? then None else Some((Fill(kind, acc, q.value.0), q.value.1)))
  {
    if n > 0 {
      var x := DecodeElem(kind, elem, b);
      if x.Some? {
        ReadsThenFills(kind, elem, n - 1, Insert(kind, acc, x.value.0), x.value.1);
        var q := Series(kind, elem, n - 1, x.value.1);
        if q.Some? { assert ([x.value.0] + q.value.0)[1..] == q.value.0; }
      }
    }
  }

  /** What reading a container leaves in its target, whatever the bytes: a vector is replaced,
      a list or deque extended at the end, multisets and multimaps gain every entry, a multimap
      behind those with the same key, sets take the union, and a map keeps its entries and
      otherwise takes the one decoded first. */
  ghost predicate Merged(kind: Kind, target: Obj, objs: seq<Obj>, result: Obj)
    requires Shape(kind, target)
  {
    Shape(kind, result) &&
    match kind
    case Vector => result.items == objs
    case List | Deque => result.items == target.items + objs
    case Set | USet => result.elems == target.elems + Elems(objs)
    case MultiSet | UMultiSet | UMultiMap => result.bag == target.bag + multiset(objs)
    case MultiMap =>
      forall k :: Under(result.groups, k) == Under(target.groups, k) + ValuesOf(objs, k) &&
                  (k in result.groups <==> k in target.groups || ValuesOf(objs, k) != [])
    case Map | UMap =>
      (forall k <- target.entries :: k in result.entries && result.entries[k] == target.entries[k]) &&
      (forall k <- result.entries :: k !in target.entries ==> FirstOf(objs, k, result.entries[k])) &&
      (forall i :: 0 <= i < |objs| ==> objs[i].OPair? && objs[i].a in result.entries)
  }

  lemma FillMerges(kind: Kind, target: Obj, objs: seq<Obj>)
    requires Shape(kind, target) && Insertable(kind, objs)
    ensures Merged(kind, target, objs, Fill(kind, Start(kind, target), objs))
  {
    match kind
    case Vector =>
      FillSeq(kind, [], objs);
      assert [] + objs == objs;
    case List | Deque => FillSeq(kind, target.items, objs);
    case Set | USet => FillSet(kind, target.elems, objs);
    case MultiSet | UMultiSet | UMultiMap => FillBag(kind, target.bag, objs);
    case MultiMap =>
      forall k { FillMulti(target.groups, objs, k); }
    case Map | UMap => FillMap(kind, target.entries, objs);
  }

  /** Reading a container off any bytes, with whatever count they claim. */
  lemma ReadingMerges(kind: Kind, elem: Ty, target: Obj, b: seq<byte>)
    requires WellFormed(Coll(kind, elem)) && Shape(kind, target)
    ensures var r := Decode(Coll(kind, elem), target, b);
            if |b| < 8 then r.None?
            else
              var q := Series(kind, elem, UnLE(b[..8]), b[8..]);
              (r.Some? <==> q.Some?) &&
              (r.Some? ==> r.value.1 == q.value.1 && Merged(kind, target, q.value.0, r.value.0))
  {
    if |b| >= 8 {
      ReadsThenFills(kind, elem, UnLE(b[..8]), Start(kind, target), b[8..]);
      var q := Series(kind, elem, UnLE(b[..8]), b[8..]);
      if q.Some? { FillMerges(kind, target, q.value.0); }
    }
  }

  // ---------------------------------------------------------------- any iteration order

  ghost predicate DistinctKeys(objs: seq<Obj>) {
    forall i, j :: 0 <= i < j < |objs| ==> objs[i].OPair? && objs[j].OPair? && objs[i].a != objs[j].a
  }

  lemma SameElems(p: seq<Obj>, q: seq<Obj>)
    requires multiset(p) == multiset(q)
    ensures Elems(p) == Elems(q)
    ensures forall i :: 0 <= i < |p| ==> exists j :: 0 <= j < |q| && q[j] == p[i]
  {
    forall x ensures x in p <==> x in q { assert x in multiset(p) <==> x in multiset(q); }
    forall i | 0 <= i < |p| ensures exists j :: 0 <= j < |q| && q[j] == p[i] { assert p[i] in q; }
  }

  lemma FirstIsOnly(p: seq<Obj>, q: seq<Obj>, k: Obj, x: Obj, y: Obj)
    requires multiset(p) == multiset(q) && DistinctKeys(q) && FirstOf(p, k, x) && FirstOf(q, k, y)
    ensures x == y
  {
    SameElems(p, q);
    var i :| 0 <= i < |p| && p[i] == OPair(k, x);
    var j :| 0 <= j < |q| && q[j] == p[i];
    var l :| 0 <= l < |q| && q[l] == OPair(k, y);
  }

  lemma MapOrder(target: map<Obj, Obj>, p: seq<Obj>, q: seq<Obj>, r: map<Obj, Obj>, s: map<Obj, Obj>)
    requires multiset(p) == multiset(q) && DistinctKeys(p) && DistinctKeys(q)
    requires Merged(Map, OMap(target), p, OMap(r)) && Merged(Map, OMap(target), q, OMap(s))
    ensures r == s
  {
    MapOrderHalf(target, p, q, r, s);
    MapOrderHalf(target, q, p, s, r);
  }

  lemma MapOrderHalf(target: map<Obj, Obj>, p: seq<Obj>, q: seq<Obj>, r: map<Obj, Obj>, s: map<Obj, Obj>)
    requires multiset(p) == multiset(q) && DistinctKeys(q)
    requires Merged(Map, OMap(target), p, OMap(r)) && Merged(Map, OMap(target), q, OMap(s))
    ensures forall k <- r :: k in s && s[k] == r[k]
  {
    SameElems(p, q);
    forall k <- r
      ensures k in s && s[k] == r[k]
    {
      if k in target {
        assert r[k] == target[k] == s[k];
      } else {
        assert FirstOf(p, k, r[k]);
        var i :| 0 <= i < |p| && p[i] == OPair(k, r[k]);
        var j :| 0 <= j < |q| && q[j] == p[i];
        assert q[j].a in s;
        assert FirstOf(q, k, s[k]);
        FirstIsOnly(p, q, k, r[k], s[k]);
      }
    }
  }

  /** Under each key the same values in the same order. */
  ghost predicate SameGroups(p: seq<Obj>, q: seq<Obj>) {
    forall k :: ValuesOf(p, k) == ValuesOf(q, k)
  }

  /** Two walks over the same content, in whatever orders, read back as the same collection with
      the same multiplicities, into whatever target; in a multimap, whose content has an order
      under each key, in whatever order of the keys. */
  lemma OrderDoesNotMatter(kind: Kind, elem: Ty, target: Obj, xs: seq<Val>, ys: seq<Val>, rest: seq<byte>)
    requires WellFormed(Coll(kind, elem)) && Supported(Coll(kind, elem)) && !SeqLike(kind) && Shape(kind, target)
    requires HasType(Coll(kind, elem), Items(xs)) && HasType(Coll(kind, elem), Items(ys))
    requires multiset(Meanings(elem, xs)) == multiset(Meanings(elem, ys))
    requires kind in {Map, UMap} ==> DistinctKeys(Meanings(elem, xs)) && DistinctKeys(Meanings(elem, ys))
    requires kind.MultiMap? ==> SameGroups(Meanings(elem, xs), Meanings(elem, ys))
    ensures var t := Coll(kind, elem);
            Decode(t, target, Encode(t, Items(xs)) + rest) == Decode(t, target, Encode(t, Items(ys)) + rest) &&
            Decode(t, target, Encode(t, Items(xs)) + rest).Some?
  {
    SameFill(kind, Start(kind, target), Meanings(elem, xs), Meanings(elem, ys));
    ReadsAs(kind, elem, target, xs, rest);
    ReadsAs(kind, elem, target, ys, rest);
  }

  lemma ReadsAs(kind: Kind, elem: Ty, target: Obj, xs: seq<Val>, rest: seq<byte>)
    requires WellFormed(Coll(kind, elem)) && Supported(Coll(kind, elem)) && Shape(kind, target)
    requires HasType(Coll(kind, elem), Items(xs))
    ensures Decode(Coll(kind, elem), target, Encode(Coll(kind, elem), Items(xs)) + rest)
         == Some((Fill(kind, Start(kind, target), Meanings(elem, xs)), rest))
  {
    RoundTrip(Coll(kind, elem), target, Items(xs), rest);
  }

  lemma SameFill(kind: Kind, acc: Obj, p: seq<Obj>, q: seq<Obj>)
    requires Shape(kind, acc) && Insertable(kind, p) && Insertable(kind, q) && !SeqLike(kind)
    requires multiset(p) == multiset(q)
    requires kind in {Map, UMap} ==> DistinctKeys(p) && DistinctKeys(q)
    requires kind.MultiMap? ==> SameGroups(p, q)
    ensures Fill(kind, acc, p) == Fill(kind, acc, q)
  {
    FillMerges(kind, acc, p);
    FillMerges(kind, acc, q);
    if kind.MultiMap? {
      SameMulti(acc.groups, p, q);
    } else if kind in {Map, UMap} {
      MapOrder(acc.entries, p, q, Fill(kind, acc, p).entries, Fill(kind, acc, q).entries);
    } else {
      SameElems(p, q);
    }
  }

  lemma SameMulti(g: map<Obj, seq<Obj>>, p: seq<Obj>, q: seq<Obj>)
    requires Insertable(MultiMap, p) && Insertable(MultiMap, q) && SameGroups(p, q)
    ensures Fill(MultiMap, OMulti(g), p) == Fill(MultiMap, OMulti(g), q)
  {
    var r, s := Fill(MultiMap, OMulti(g), p).groups, Fill(MultiMap, OMulti(g), q).groups;
    forall k
      ensures (k in r <==> k in s) && Under(r, k) == Under(s, k)
    {
      FillMulti(g, p, k);
      FillMulti(g, q, k);
    }
    assert forall k <- r :: r[k] == Under(r, k) == Under(s, k) == s[k];
    assert r == s;
  }

  // ---------------------------------------------------------------- ordered containers

  /** Types whose containers all have one iteration order for one value. */
  predicate Ordered(t: Ty) {
    match t
    case Coll(kind, elem) => !Unordered(kind) && Ordered(elem)
    case Pair(fst, snd) => Ordered(fst) && Ordered(snd)
    case _ => true
  }

  /** An order for each type, strict and total on the values of the type. */
  ghost predicate StrictTotal(less: (Ty, Val, Val) -> bool) {
    (forall t, x :: HasType(t, x) ==> !less(t, x, x)) &&
    (forall t, x, y, z :: HasType(t, x) && HasType(t, y) && HasType(t, z) && less(t, x, y) && less(t, y, z) ==> less(t, x, z)) &&
    (forall t, x, y :: HasType(t, x) && HasType(t, y) ==> x == y || less(t, x, y) || less(t, y, x))
  }

  /** `x` may stand before `y` in a container of this kind: keys are compared with their order. */
  predicate Before(kind: Kind, less: (Ty, Val, Val) -> bool, elem: Ty, x: Val, y: Val) {
    match kind
    case Set => less(elem, x, y)
    case MultiSet => !less(elem, y, x)
    case Map => elem.Pair? && x.Two? && y.Two? && less(elem.fst, x.a, y.a)
    case MultiMap => elem.Pair? && x.Two? && y.Two? && !less(elem.fst, y.a, x.a)
    case _ => true
  }

  ghost predicate Sorted(kind: Kind, less: (Ty, Val, Val) -> bool, elem: Ty, xs: seq<Val>) {
    forall i, j :: 0 <= i < j < |xs| ==> Before(kind, less, elem, xs[i], xs[j])
  }

  ghost predicate Typed(elem: Ty, xs: seq<Val>) {
    forall i :: 0 <= i < |xs| ==> HasType(elem, xs[i])
  }

  /** Every ordered container inside `v` iterates in order. */
  ghost predicate InOrder(less: (Ty, Val, Val) -> bool, t: Ty, v: Val)
    requires HasType(t, v)
  {
    match t
    case Coll(kind, elem) =>
      Sorted(kind, less, elem, v.xs) && forall i :: 0 <= i < |v.xs| ==> InOrder(less, elem, v.xs[i])
    case Pair(fst, snd) => InOrder(less, fst, v.a) && InOrder(less, snd, v.b)
    case _ => true
  }

  /** In sorted sequences with the same elements the first ones agree. */
  lemma SameHead(kind: Kind, less: (Ty, Val, Val) -> bool, elem: Ty, xs: seq<Val>, ys: seq<Val>)
    requires StrictTotal(less) && Typed(elem, xs) && Typed(elem, ys) && kind in {Set, MultiSet, Map}
    requires Sorted(kind, less, elem, xs) && Sorted(kind, less, elem, ys)
    requires xs != [] && ys != [] && xs[0] in ys && ys[0] in xs
    ensures xs[0] == ys[0]
  {
    var i :| 0 <= i < |ys| && ys[i] == xs[0];
    var j :| 0 <= j < |xs| && xs[j] == ys[0];
    if i > 0 && j > 0 { assert Before(kind, less, elem, ys[0], ys[i]) && Before(kind, less, elem, xs[0], xs[j]); }
  }

  lemma TailContained(kind: Kind, less: (Ty, Val, Val) -> bool, elem: Ty, xs: seq<Val>, ys: seq<Val>)
    requires StrictTotal(less) && Typed(elem, xs) && kind in {Set, Map} && Sorted(kind, less, elem, xs)
    requires xs != [] && ys != [] && xs[0] == ys[0]
    requires forall i :: 0 <= i < |xs| ==> xs[i] in ys
    ensures forall i :: 0 <= i < |xs[1..]| ==> xs[1..][i] in ys[1..]
  {
    forall i | 1 <= i < |xs|
      ensures xs[i] in ys[1..]
    {
      assert Before(kind, less, elem, xs[0], xs[i]);
      assert ys == [ys[0]] + ys[1..];
    }
  }

  /** Strictly sorted sequences with the same elements are the same. */
  lemma {:induction false} StrictlySortedSame(kind: Kind, less: (Ty, Val, Val) -> bool, elem: Ty, xs: seq<Val>, ys: seq<Val>)
    requires StrictTotal(less) && Typed(elem, xs) && Typed(elem, ys) && kind in {Set, Map}
    requires Sorted(kind, less, elem, xs) && Sorted(kind, less, elem, ys)
    requires forall i :: 0 <= i < |xs| ==> xs[i] in ys
    requires forall i :: 0 <= i < |ys| ==> ys[i] in xs
    ensures xs == ys
  {
    assert (xs != [] ==> xs[0] in ys) && (ys != [] ==> ys[0] in xs);
    if xs != [] && ys != [] {
      SameHead(kind, less, elem, xs, ys);
      TailContained(kind, less, elem, xs, ys);
      TailContained(kind, less, elem, ys, xs);
      SortedTail(kind, less, elem, xs);
      SortedTail(kind, less, elem, ys);
      StrictlySortedSame(kind, less, elem, xs[1..], ys[1..]);
      assert xs == [xs[0]] + xs[1..] && ys == [ys[0]] + ys[1..];
    }
  }

  lemma SortedTail(kind: Kind, less: (Ty, Val, Val) -> bool, elem: Ty, xs: seq<Val>)
    requires xs != [] && Sorted(kind, less, elem, xs)
    ensures Sorted(kind, less, elem, xs[1..])
  {
  }

  lemma FirstOut<T>(s: seq<T>)
    requires s != []
    ensures s[0] in multiset(s) && multiset(s[1..]) == multiset(s) - multiset{s[0]}
  {
    assert s == [s[0]] + s[1..];
  }

  /** Weakly sorted sequences with the same multiset are the same. */
  lemma {:induction false} WeaklySortedSame(less: (Ty, Val, Val) -> bool, elem: Ty, xs: seq<Val>, ys: seq<Val>)
    requires StrictTotal(less) && Typed(elem, xs) && Typed(elem, ys)
    requires Sorted(MultiSet, less, elem, xs) && Sorted(MultiSet, less, elem, ys)
    requires multiset(xs) == multiset(ys)
    ensures xs == ys
  {
    if xs == [] || ys == [] {
      assert |multiset(xs)| == |xs| && |multiset(ys)| == |ys|;
    } else {
      FirstOut(xs);
      FirstOut(ys);
      assert xs[0] in multiset(ys) && ys[0] in multiset(xs);
      SameHead(MultiSet, less, elem, xs, ys);
      SortedTail(MultiSet, less, elem, xs);
      SortedTail(MultiSet, less, elem, ys);
      WeaklySortedSame(less, elem, xs[1..], ys[1..]);
      assert xs == [xs[0]] + xs[1..] && ys == [ys[0]] + ys[1..];
    }
  }

  ghost predicate Injective(elem: Ty, xs: seq<Val>, ys: seq<Val>)
    requires WellFormed(elem) && Typed(elem, xs) && Typed(elem, ys)
  {
    forall i, j :: 0 <= i < |xs| && 0 <= j < |ys| && Meaning(elem, xs[i]) == Meaning(elem, ys[j]) ==> xs[i] == ys[j]
  }

  lemma WithoutOne<T>(s: seq<T>, i: nat)
    requires i < |s|
    ensures multiset(s) == multiset(Without(s, i)) + multiset{s[i]}
  {
    assert s == s[..i] + [s[i]] + s[i + 1..];
  }

  lemma MeaningsWithout(elem: Ty, xs: seq<Val>, i: nat)
    requires WellFormed(elem) && Typed(elem, xs) && i < |xs|
    ensures Typed(elem, Without(xs, i))
    ensures Meanings(elem, Without(xs, i)) == Without(Meanings(elem, xs), i)
  {
  }

  lemma InjectiveWithout(elem: Ty, xs: seq<Val>, ys: seq<Val>, i: nat, j: nat)
    requires WellFormed(elem) && Typed(elem, xs) && Typed(elem, ys) && i < |xs| && j < |ys| && Injective(elem, xs, ys)
    requires Typed(elem, Without(xs, i)) && Typed(elem, Without(ys, j))
    ensures Injective(elem, Without(xs, i), Without(ys, j))
  {
  }

  lemma WithoutBoth<T>(p: seq<T>, q: seq<T>, i: nat, j: nat)
    requires i < |p| && j < |q| && p[i] == q[j]
    ensures multiset(p) == multiset(q) <==> multiset(Without(p, i)) == multiset(Without(q, j))
  {
    WithoutOne(p, i);
    WithoutOne(q, j);
    assert multiset(Without(p, i)) == multiset(p) - multiset{p[i]};
    assert multiset(Without(q, j)) == multiset(q) - multiset{p[i]};
  }

  /** Meaning, where it is injective, carries multisets back. */
  lemma {:induction false} BackFromMeanings(elem: Ty, xs: seq<Val>, ys: seq<Val>)
    requires WellFormed(elem) && Typed(elem, xs) && Typed(elem, ys) && Injective(elem, xs, ys)
    requires multiset(Meanings(elem, xs)) == multiset(Meanings(elem, ys))
    ensures multiset(xs) == multiset(ys)
    decreases |xs|
  {
    var p, q := Meanings(elem, xs), Meanings(elem, ys);
    if xs == [] {
      assert |multiset(q)| == |q|;
    } else {
      var j := Find(p, q);
      MeaningsWithout(elem, xs, 0);
      MeaningsWithout(elem, ys, j);
      InjectiveWithout(elem, xs, ys, 0, j);
      WithoutBoth(p, q, 0, j);
      BackFromMeanings(elem, Without(xs, 0), Without(ys, j));
      WithoutBoth(xs, ys, 0, j);
    }
  }

  lemma Find(p: seq<Obj>, q: seq<Obj>) returns (j: nat)
    requires multiset(p) == multiset(q) && p != []
    ensures j < |q| && q[j] == p[0]
  {
    SameElems(p, q);
    j :| 0 <= j < |q| && q[j] == p[0];
  }

  // Equal values of an ordered type, item by item.

  lemma SetsAgree(elem: Ty, xs: seq<Val>, ys: seq<Val>)
    requires WellFormed(elem) && Typed(elem, xs) && Typed(elem, ys) && Injective(elem, xs, ys)
    requires Elems(Meanings(elem, xs)) <= Elems(Meanings(elem, ys))
    ensures forall i :: 0 <= i < |xs| ==> xs[i] in ys
  {
    forall i | 0 <= i < |xs|
      ensures xs[i] in ys
    {
      assert Meanings(elem, xs)[i] in Elems(Meanings(elem, ys));
      var j :| 0 <= j < |ys| && Meanings(elem, ys)[j] == Meanings(elem, xs)[i];
      assert xs[i] == ys[j];
    }
  }

  lemma PairMeaning(t: Ty, v: Val)
    requires WellFormed(t) && t.Pair? && HasType(t, v)
    ensures Meaning(t, v) == OPair(Meaning(t.fst, v.a), Meaning(t.snd, v.b))
  {
  }

  /** Keys of the items are told apart by their meanings. */
  ghost predicate KeysInjective(elem: Ty, xs: seq<Val>, ys: seq<Val>)
    requires WellFormed(elem) && elem.Pair? && Typed(elem, xs) && Typed(elem, ys)
  {
    forall j, l :: 0 <= j < |xs| && 0 <= l < |ys| && Meaning(elem.fst, xs[j].a) == Meaning(elem.fst, ys[l].a)
                   ==> xs[j].a == ys[l].a
  }

  lemma DistinctByKey(less: (Ty, Val, Val) -> bool, elem: Ty, xs: seq<Val>, i: nat, j: nat)
    requires StrictTotal(less) && elem.Pair? && Typed(elem, xs) && Sorted(Map, less, elem, xs) && i < |xs| && j < |xs|
    ensures xs[i].a == xs[j].a ==> i == j
  {
    assert i < j ==> Before(Map, less, elem, xs[i], xs[j]);
    assert j < i ==> Before(Map, less, elem, xs[j], xs[i]);
  }

  /** The entries of an ordered map are the pairs it was filled with. */
  lemma MapHolds(elem: Ty, less: (Ty, Val, Val) -> bool, xs: seq<Val>, m: map<Obj, Obj>, i: nat)
    requires WellFormed(elem) && elem.Pair? && Typed(elem, xs) && i < |xs|
    requires StrictTotal(less) && Sorted(Map, less, elem, xs)
    requires KeysInjective(elem, xs, xs)
    requires Merged(Map, OMap(map[]), Meanings(elem, xs), OMap(m))
    ensures Meaning(elem.fst, xs[i].a) in m && m[Meaning(elem.fst, xs[i].a)] == Meaning(elem.snd, xs[i].b)
  {
    var objs, k := Meanings(elem, xs), Meaning(elem.fst, xs[i].a);
    PairMeaning(elem, xs[i]);
    assert FirstOf(objs, k, m[k]);
    var j :| 0 <= j < |objs| && objs[j] == OPair(k, m[k]);
    PairMeaning(elem, xs[j]);
    assert xs[j].a == xs[i].a;
    DistinctByKey(less, elem, xs, i, j);
  }

  lemma MapsAgree(elem: Ty, less: (Ty, Val, Val) -> bool, xs: seq<Val>, ys: seq<Val>, m: map<Obj, Obj>)
    requires WellFormed(elem) && elem.Pair? && Typed(elem, xs) && Typed(elem, ys)
    requires StrictTotal(less) && Sorted(Map, less, elem, xs) && Injective(elem, xs, ys)
    requires KeysInjective(elem, xs, xs)
    requires Merged(Map, OMap(map[]), Meanings(elem, xs), OMap(m)) && Merged(Map, OMap(map[]), Meanings(elem, ys), OMap(m))
    ensures forall i :: 0 <= i < |xs| ==> xs[i] in ys
  {
    forall i | 0 <= i < |xs|
      ensures xs[i] in ys
    {
      MapHolds(elem, less, xs, m, i);
      var objs, k := Meanings(elem, ys), Meaning(elem.fst, xs[i].a);
      assert FirstOf(objs, k, m[k]);
      var j :| 0 <= j < |objs| && objs[j] == OPair(k, m[k]);
      PairMeaning(elem, xs[i]);
      assert xs[i] == ys[j];
    }
  }

  /** Two objects of an ordered type that are equal in C++ are walked identically, so they are
      written as identical bytes. */
  lemma {:induction false} Canonical(less: (Ty, Val, Val) -> bool, t: Ty, v: Val, w: Val)
    requires StrictTotal(less) && WellFormed(t) && Ordered(t) && HasType(t, v) && HasType(t, w)
    requires InOrder(less, t, v) && InOrder(less, t, w) && Meaning(t, v) == Meaning(t, w)
    ensures v == w && Encode(t, v) == Encode(t, w)
    decreases t, 0
  {
    match t
    case Coll(kind, elem) => CanonicalColl(less, kind, elem, v.xs, w.xs);
    case Pair(fst, snd) =>
      PairMeaning(t, v);
      PairMeaning(t, w);
      Canonical(less, fst, v.a, w.a);
      Canonical(less, snd, v.b, w.b);
    case _ =>
  }

  lemma CanonicalColl(less: (Ty, Val, Val) -> bool, kind: Kind, elem: Ty, xs: seq<Val>, ys: seq<Val>)
    requires StrictTotal(less) && WellFormed(Coll(kind, elem)) && Ordered(Coll(kind, elem))
    requires Typed(elem, xs) && Typed(elem, ys) && AllInOrder(less, elem, xs) && AllInOrder(less, elem, ys)
    requires Sorted(kind, less, elem, xs) && Sorted(kind, less, elem, ys)
    requires Fill(kind, Empty(kind), Meanings(elem, xs)) == Fill(kind, Empty(kind), Meanings(elem, ys))
    ensures xs == ys
    decreases elem, 2
  {
    CanonicalItems(less, elem, xs, ys);
    if kind.Set? {
      CanonicalSet(less, elem, xs, ys);
    } else if kind.MultiSet? {
      CanonicalBag(less, elem, xs, ys);
    } else if kind.Map? {
      CanonicalKeys(less, elem, xs, xs);
      CanonicalKeys(less, elem, ys, ys);
      CanonicalMap(less, elem, xs, ys);
    } else if kind.MultiMap? {
      CanonicalKeys(less, elem, xs, xs);
      CanonicalKeys(less, elem, ys, ys);
      CanonicalKeys(less, elem, xs, ys);
      CanonicalValues(less, elem, xs, ys);
      CanonicalMulti(less, elem, xs, ys);
    } else {
      CanonicalSeq(kind, elem, xs, ys);
    }
  }

  ghost predicate AllInOrder(less: (Ty, Val, Val) -> bool, elem: Ty, xs: seq<Val>)
    requires Typed(elem, xs)
  {
    forall i :: 0 <= i < |xs| ==> InOrder(less, elem, xs[i])
  }

  lemma CanonicalItems(less: (Ty, Val, Val) -> bool, elem: Ty, xs: seq<Val>, ys: seq<Val>)
    requires StrictTotal(less) && WellFormed(elem) && Ordered(elem) && Typed(elem, xs) && Typed(elem, ys)
    requires AllInOrder(less, elem, xs) && AllInOrder(less, elem, ys)
    ensures Injective(elem, xs, ys)
    decreases elem, 1
  {
    forall i, j | 0 <= i < |xs| && 0 <= j < |ys| && Meaning(elem, xs[i]) == Meaning(elem, ys[j])
      ensures xs[i] == ys[j]
    {
      Canonical(less, elem, xs[i], ys[j]);
    }
  }

  lemma CanonicalKeys(less: (Ty, Val, Val) -> bool, elem: Ty, xs: seq<Val>, ys: seq<Val>)
    requires StrictTotal(less) && WellFormed(elem) && Ordered(elem) && elem.Pair? && Typed(elem, xs) && Typed(elem, ys)
    requires AllInOrder(less, elem, xs) && AllInOrder(less, elem, ys)
    ensures KeysInjective(elem, xs, ys)
    decreases elem, 1
  {
    forall i, j | 0 <= i < |xs| && 0 <= j < |ys| && Meaning(elem.fst, xs[i].a) == Meaning(elem.fst, ys[j].a)
      ensures xs[i].a == ys[j].a
    {
      assert InOrder(less, elem, xs[i]) && InOrder(less, elem, ys[j]);
      Canonical(less, elem.fst, xs[i].a, ys[j].a);
    }
  }

  ghost predicate ValuesInjective(elem: Ty, xs: seq<Val>, ys: seq<Val>)
    requires WellFormed(elem) && elem.Pair? && Typed(elem, xs) && Typed(elem, ys)
  {
    forall j, l :: 0 <= j < |xs| && 0 <= l < |ys| && Meaning(elem.snd, xs[j].b) == Meaning(elem.snd, ys[l].b)
                   ==> xs[j].b == ys[l].b
  }

  lemma CanonicalValues(less: (Ty, Val, Val) -> bool, elem: Ty, xs: seq<Val>, ys: seq<Val>)
    requires StrictTotal(less) && WellFormed(elem) && Ordered(elem) && elem.Pair? && Typed(elem, xs) && Typed(elem, ys)
    requires AllInOrder(less, elem, xs) && AllInOrder(less, elem, ys)
    ensures ValuesInjective(elem, xs, ys)
    decreases elem, 1
  {
    forall i, j | 0 <= i < |xs| && 0 <= j < |ys| && Meaning(elem.snd, xs[i].b) == Meaning(elem.snd, ys[j].b)
      ensures xs[i].b == ys[j].b
    {
      assert InOrder(less, elem, xs[i]) && InOrder(less, elem, ys[j]);
      Canonical(less, elem.snd, xs[i].b, ys[j].b);
    }
  }

  lemma CanonicalSeq(kind: Kind, elem: Ty, xs: seq<Val>, ys: seq<Val>)
    requires SeqLike(kind) && WellFormed(elem) && Typed(elem, xs) && Typed(elem, ys) && Injective(elem, xs, ys)
    requires Fill(kind, OSeq([]), Meanings(elem, xs)) == Fill(kind, OSeq([]), Meanings(elem, ys))
    ensures xs == ys
  {
    var p, q := Meanings(elem, xs), Meanings(elem, ys);
    FilledSeq(kind, p);
    FilledSeq(kind, q);
    forall i | 0 <= i < |xs| ensures xs[i] == ys[i] { assert p[i] == q[i]; }
  }

  lemma FilledSeq(kind: Kind, objs: seq<Obj>)
    requires SeqLike(kind)
    ensures Fill(kind, OSeq([]), objs) == OSeq(objs)
  {
    FillSeq(kind, [], objs);
    assert [] + objs == objs;
  }

  lemma CanonicalSet(less: (Ty, Val, Val) -> bool, elem: Ty, xs: seq<Val>, ys: seq<Val>)
    requires StrictTotal(less) && WellFormed(elem) && Typed(elem, xs) && Typed(elem, ys) && Injective(elem, xs, ys)
    requires Sorted(Set, less, elem, xs) && Sorted(Set, less, elem, ys)
    requires Fill(Set, OSet({}), Meanings(elem, xs)) == Fill(Set, OSet({}), Meanings(elem, ys))
    ensures xs == ys
  {
    FillSet(Set, {}, Meanings(elem, xs));
    FillSet(Set, {}, Meanings(elem, ys));
    assert {} + Elems(Meanings(elem, xs)) == Elems(Meanings(elem, xs));
    assert {} + Elems(Meanings(elem, ys)) == Elems(Meanings(elem, ys));
    SetsAgree(elem, xs, ys);
    InjectiveFlip(elem, xs, ys);
    SetsAgree(elem, ys, xs);
    StrictlySortedSame(Set, less, elem, xs, ys);
  }

  lemma InjectiveFlip(elem: Ty, xs: seq<Val>, ys: seq<Val>)
    requires WellFormed(elem) && Typed(elem, xs) && Typed(elem, ys) && Injective(elem, xs, ys)
    ensures Injective(elem, ys, xs)
  {
  }

  lemma CanonicalBag(less: (Ty, Val, Val) -> bool, elem: Ty, xs: seq<Val>, ys: seq<Val>)
    requires StrictTotal(less) && WellFormed(elem) && Typed(elem, xs) && Typed(elem, ys) && Injective(elem, xs, ys)
    requires Sorted(MultiSet, less, elem, xs) && Sorted(MultiSet, less, elem, ys)
    requires Fill(MultiSet, OBag(multiset{}), Meanings(elem, xs)) == Fill(MultiSet, OBag(multiset{}), Meanings(elem, ys))
    ensures xs == ys
  {
    FilledBag(Meanings(elem, xs));
    FilledBag(Meanings(elem, ys));
    BackFromMeanings(elem, xs, ys);
    WeaklySortedSame(less, elem, xs, ys);
  }

  lemma FilledBag(objs: seq<Obj>)
    ensures Fill(MultiSet, OBag(multiset{}), objs) == OBag(multiset(objs))
  {
    FillBag(MultiSet, multiset{}, objs);
    assert multiset{} + multiset(objs) == multiset(objs);
  }

  lemma CanonicalMap(less: (Ty, Val, Val) -> bool, elem: Ty, xs: seq<Val>, ys: seq<Val>)
    requires StrictTotal(less) && WellFormed(elem) && elem.Pair? && Typed(elem, xs) && Typed(elem, ys)
    requires Injective(elem, xs, ys) && KeysInjective(elem, xs, xs) && KeysInjective(elem, ys, ys)
    requires Sorted(Map, less, elem, xs) && Sorted(Map, less, elem, ys)
    requires Fill(Map, OMap(map[]), Meanings(elem, xs)) == Fill(Map, OMap(map[]), Meanings(elem, ys))
    ensures xs == ys
  {
    FillMerges(Map, OMap(map[]), Meanings(elem, xs));
    FillMerges(Map, OMap(map[]), Meanings(elem, ys));
    var m := Fill(Map, OMap(map[]), Meanings(elem, xs)).entries;
    MapsAgree(elem, less, xs, ys, m);
    InjectiveFlip(elem, xs, ys);
    MapsAgree(elem, less, ys, xs, m);
    StrictlySortedSame(Map, less, elem, xs, ys);
  }

  // A multimap walks its keys in order, and the values under a key in the order they came.

  /** The values of the items with a key, in their order. */
  function UnderKey(xs: seq<Val>, key: Val): seq<Val> {
    if xs == [] then []
    else (if xs[0].Two? && xs[0].a == key then [xs[0].b] else []) + UnderKey(xs[1..], key)
  }

  lemma {:induction false} HasKey(xs: seq<Val>, key: Val) returns (i: nat)
    requires UnderKey(xs, key) != []
    ensures i < |xs| && xs[i].Two? && xs[i].a == key
  {
    if xs[0].Two? && xs[0].a == key {
      i := 0;
    } else {
      i := HasKey(xs[1..], key);
      i := i + 1;
    }
  }

  /** In such sequences with the same values under each key the first items agree. */
  lemma SameFirst(less: (Ty, Val, Val) -> bool, elem: Ty, xs: seq<Val>, ys: seq<Val>)
    requires StrictTotal(less) && elem.Pair? && Typed(elem, xs) && Typed(elem, ys)
    requires Sorted(MultiMap, less, elem, xs) && Sorted(MultiMap, less, elem, ys)
    requires xs != [] && forall k :: UnderKey(xs, k) == UnderKey(ys, k)
    ensures ys != [] && xs[0] == ys[0]
  {
    FirstUnder(elem, xs);
    var j := HasKey(ys, xs[0].a);
    FirstUnder(elem, ys);
    var i := HasKey(xs, ys[0].a);
    SameFirstKey(less, elem, xs, ys, i, j);
    assert UnderKey(xs, xs[0].a) == UnderKey(ys, xs[0].a);
  }

  lemma FirstUnder(elem: Ty, xs: seq<Val>)
    requires elem.Pair? && xs != [] && HasType(elem, xs[0])
    ensures xs[0].Two? && UnderKey(xs, xs[0].a) != [] && UnderKey(xs, xs[0].a)[0] == xs[0].b
  {
  }

  lemma SameFirstKey(less: (Ty, Val, Val) -> bool, elem: Ty, xs: seq<Val>, ys: seq<Val>, i: nat, j: nat)
    requires StrictTotal(less) && elem.Pair? && Typed(elem, xs) && Typed(elem, ys) && i < |xs| && j < |ys|
    requires Sorted(MultiMap, less, elem, xs) && Sorted(MultiMap, less, elem, ys)
    requires xs[i].a == ys[0].a && ys[j].a == xs[0].a
    ensures xs[0].a == ys[0].a
  {
    assert j > 0 ==> Before(MultiMap, less, elem, ys[0], ys[j]);
    assert i > 0 ==> Before(MultiMap, less, elem, xs[0], xs[i]);
    assert HasType(elem.fst, xs[0].a) && HasType(elem.fst, ys[0].a);
  }

  lemma {:induction false} StableSortedSame(less: (Ty, Val, Val) -> bool, elem: Ty, xs: seq<Val>, ys: seq<Val>)
    requires StrictTotal(less) && elem.Pair? && Typed(elem, xs) && Typed(elem, ys)
    requires Sorted(MultiMap, less, elem, xs) && Sorted(MultiMap, less, elem, ys)
    requires forall k :: UnderKey(xs, k) == UnderKey(ys, k)
    ensures xs == ys
  {
    if xs == [] {
      if ys != [] { SameFirst(less, elem, ys, xs); }
    } else {
      SameFirst(less, elem, xs, ys);
      SortedTail(MultiMap, less, elem, xs);
      SortedTail(MultiMap, less, elem, ys);
      forall k
        ensures UnderKey(xs[1..], k) == UnderKey(ys[1..], k)
      {
        assert UnderKey(xs, k) == UnderKey(ys, k);
        Dropped(if xs[0].a == k then [xs[0].b] else [], UnderKey(xs[1..], k), UnderKey(ys[1..], k));
      }
      StableSortedSame(less, elem, xs[1..], ys[1..]);
      assert xs == [xs[0]] + xs[1..] && ys == [ys[0]] + ys[1..];
    }
  }

  lemma Dropped(first: seq<Val>, p: seq<Val>, q: seq<Val>)
    ensures first + p == first + q ==> p == q
  {
    assert (first + p)[|first|..] == p && (first + q)[|first|..] == q;
  }

  /** The values read under a key are the values written under it. */
  lemma {:induction false} UnderMeaning(elem: Ty, xs: seq<Val>, key: Val)
    requires WellFormed(elem) && elem.Pair? && Typed(elem, xs) && HasType(elem.fst, key)
    requires forall i :: 0 <= i < |xs| && Meaning(elem.fst, xs[i].a) == Meaning(elem.fst, key) ==> xs[i].a == key
    ensures Typed(elem.snd, UnderKey(xs, key))
    ensures ValuesOf(Meanings(elem, xs), Meaning(elem.fst, key)) == Meanings(elem.snd, UnderKey(xs, key))
  {
    if xs != [] {
      UnderMeaning(elem, xs[1..], key);
      PairMeaning(elem, xs[0]);
      assert Meanings(elem, xs)[1..] == Meanings(elem, xs[1..]);
      var u := UnderKey(xs[1..], key);
      if xs[0].a == key {
        assert UnderKey(xs, key)[1..] == u && UnderKey(xs, key)[0] == xs[0].b;
        assert ([xs[0].b] + u)[1..] == u;
      } else {
        assert UnderKey(xs, key) == [] + u == u;
      }
    }
  }

  lemma {:induction false} UnderFrom(xs: seq<Val>, key: Val, k: nat) returns (i: nat)
    requires k < |UnderKey(xs, key)|
    ensures i < |xs| && xs[i].Two? && UnderKey(xs, key)[k] == xs[i].b
  {
    var here := if xs[0].Two? && xs[0].a == key then 1 else 0;
    if k < here {
      i := 0;
    } else {
      i := UnderFrom(xs[1..], key, k - here);
      i := i + 1;
    }
  }

  lemma SameUnder(elem: Ty, xs: seq<Val>, ys: seq<Val>, key: Val)
    requires WellFormed(elem) && elem.Pair? && Typed(elem, xs) && Typed(elem, ys) && ValuesInjective(elem, xs, ys)
    requires Typed(elem.snd, UnderKey(xs, key)) && Typed(elem.snd, UnderKey(ys, key))
    requires Meanings(elem.snd, UnderKey(xs, key)) == Meanings(elem.snd, UnderKey(ys, key))
    ensures UnderKey(xs, key) == UnderKey(ys, key)
  {
    var u, w := UnderKey(xs, key), UnderKey(ys, key);
    assert |u| == |Meanings(elem.snd, u)| == |w|;
    forall k | 0 <= k < |u|
      ensures u[k] == w[k]
    {
      assert Meanings(elem.snd, u)[k] == Meanings(elem.snd, w)[k];
      var i := UnderFrom(xs, key, k);
      var j := UnderFrom(ys, key, k);
    }
  }

  lemma CanonicalMulti(less: (Ty, Val, Val) -> bool, elem: Ty, xs: seq<Val>, ys: seq<Val>)
    requires StrictTotal(less) && WellFormed(elem) && elem.Pair? && Typed(elem, xs) && Typed(elem, ys)
    requires KeysInjective(elem, xs, xs) && KeysInjective(elem, ys, ys) && KeysInjective(elem, xs, ys)
    requires ValuesInjective(elem, xs, ys)
    requires Sorted(MultiMap, less, elem, xs) && Sorted(MultiMap, less, elem, ys)
    requires Fill(MultiMap, OMulti(map[]), Meanings(elem, xs)) == Fill(MultiMap, OMulti(map[]), Meanings(elem, ys))
    ensures xs == ys
  {
    forall key
      ensures UnderKey(xs, key) == UnderKey(ys, key)
    {
      if UnderKey(xs, key) != [] {
        var i := HasKey(xs, key);
        UnderAgrees(elem, xs, ys, key);
      } else if UnderKey(ys, key) != [] {
        var i := HasKey(ys, key);
        UnderAgrees(elem, xs, ys, key);
      }
    }
    StableSortedSame(less, elem, xs, ys);
  }

  lemma UnderAgrees(elem: Ty, xs: seq<Val>, ys: seq<Val>, key: Val)
    requires WellFormed(elem) && elem.Pair? && Typed(elem, xs) && Typed(elem, ys) && ValuesInjective(elem, xs, ys)
    requires KeysInjective(elem, xs, xs) && KeysInjective(elem, ys, ys) && KeysInjective(elem, xs, ys)
    requires (exists i :: 0 <= i < |xs| && xs[i].a == key) || (exists j :: 0 <= j < |ys| && ys[j].a == key)
    requires Fill(MultiMap, OMulti(map[]), Meanings(elem, xs)) == Fill(MultiMap, OMulti(map[]), Meanings(elem, ys))
    ensures UnderKey(xs, key) == UnderKey(ys, key)
  {
    assert HasType(elem.fst, key);
    var k := Meaning(elem.fst, key);
    FillMulti(map[], Meanings(elem, xs), k);
    FillMulti(map[], Meanings(elem, ys), k);
    assert forall s: seq<Obj> :: [] + s == s;
    UnderMeaning(elem, xs, key);
    UnderMeaning(elem, ys, key);
    SameUnder(elem, xs, ys, key);
  }
}
