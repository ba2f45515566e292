/** The types the serializer supports, the objects it writes, the values it reads back, and
    the byte format both directions follow. */
module SerialModel {
  import opened Wrappers
  import opened Bytes

  datatype Scalar = Bool | I8 | I16 | I32 | I64 | U8 | U16 | U32 | U64 | F32 | F64

  datatype Kind =
    | Vector | List | Deque
    | Set | MultiSet | USet | UMultiSet
    | Map | MultiMap | UMap | UMultiMap

  /** `Coll(Map, Pair(K, V))` is `std::map<K, V>`.  A tuple is its members paired to the
      right and closed by `Unit`: its operators fold over the members in the same order. */
  datatype Ty = Prim(scalar: Scalar) | Str | Coll(kind: Kind, elem: Ty) | Pair(fst: Ty, snd: Ty) | Unit

  /** An object as `<<` walks it: the items of a container stand in iteration order. */
  datatype Val = Num(n: int) | Text(s: seq<byte>) | Items(xs: seq<Val>) | Two(a: Val, b: Val) | Nothing

  /** What an object is worth: iteration order is gone where C++ equality ignores it.  A multimap
      keeps the order of the values under each key, which both its equality and `insert` keep. */
  datatype Obj =
    | ONum(n: int) | OText(s: seq<byte>)
    | OSeq(items: seq<Obj>) | OSet(elems: set<Obj>) | OBag(bag: multiset<Obj>) | OMap(entries: map<Obj, Obj>)
    | OMulti(groups: map<Obj, seq<Obj>>)
    | OPair(a: Obj, b: Obj) | ONothing

  // ---------------------------------------------------------------- scalars

  function Width(k: Scalar): nat {
    match k
    case Bool | I8 | U8 => 1
    case I16 | U16 => 2
    case I32 | U32 | F32 => 4
    case I64 | U64 | F64 => 8
  }

  predicate Signed(k: Scalar) { k in {I8, I16, I32, I64} }

  /** Floating-point values stand as their bit patterns. */
  predicate InRange(k: Scalar, n: int) {
    if k.Bool? then 0 <= n <= 1
    else if Signed(k) then -Pow256(Width(k)) <= 2 * n < Pow256(Width(k))
    else 0 <= n < Pow256(Width(k))
  }

  /** Two's complement. */
  function ToBits(k: Scalar, n: int): (u: int)
    requires InRange(k, n)
    ensures 0 <= u < Pow256(Width(k))
  {
    Pow256Values();
    if n < 0 then n + Pow256(Width(k)) else n
  }

  function FromBits(k: Scalar, u: int): int {
    if k.Bool? then (if u == 0 then 0 else 1)
    else if Signed(k) && 2 * u >= Pow256(Width(k)) then u - Pow256(Width(k))
    else u
  }

  /** What is written is congruent to the value, and byte `i` of it is digit `i` in base 256. */
  lemma BytesOfValue(k: Scalar, n: int, i: nat)
    requires InRange(k, n) && i < Width(k)
    ensures (ToBits(k, n) - n) % Pow256(Width(k)) == 0
    ensures LE(ToBits(k, n), Width(k))[i] == ToBits(k, n) / Pow256(i) % 256
  {
    LEAt(ToBits(k, n), Width(k), i);
    Congruent(n, Pow256(Width(k)));
  }

  lemma Congruent(n: int, p: int)
    requires p >= 1
    ensures (n - n) % p == 0 && (n + p - n) % p == 0
  {
  }

  lemma BitsRoundTrip(k: Scalar, n: int)
    requires InRange(k, n)
    ensures FromBits(k, UnLE(LE(ToBits(k, n), Width(k)))) == n
  {
    LERoundTrip(ToBits(k, n), Width(k));
  }

  // ---------------------------------------------------------------- types and objects

  predicate MapLike(kind: Kind) { kind in {Map, MultiMap, UMap, UMultiMap} }
  predicate SetLike(kind: Kind) { kind in {Set, MultiSet, USet, UMultiSet} }
  predicate SeqLike(kind: Kind) { kind in {Vector, List, Deque} }

  predicate Unordered(kind: Kind) { kind in {USet, UMultiSet, UMap, UMultiMap} }

  /** Types with an `operator<`. */
  predicate Comparable(t: Ty) {
    match t
    case Coll(kind, elem) => !Unordered(kind) && Comparable(elem)
    case Pair(fst, snd) => Comparable(fst) && Comparable(snd)
    case _ => true
  }

  /** What a container compares or hashes its items by. */
  function KeyOf(kind: Kind, elem: Ty): Ty {
    if MapLike(kind) && elem.Pair? then elem.fst else elem
  }

  /** The types the overloads compile for: keys are hashed, which the library does for scalars and
      strings only, or compared. */
  predicate WellFormed(t: Ty) {
    match t
    case Coll(kind, elem) =>
      WellFormed(elem) && (MapLike(kind) ==> elem.Pair?) && t != Coll(Vector, Prim(Bool)) &&
      (Unordered(kind) ==> Leaf(KeyOf(kind, elem))) && (SeqLike(kind) || Unordered(kind) || Comparable(KeyOf(kind, elem)))
    case Pair(fst, snd) => WellFormed(fst) && WellFormed(snd)
    case _ => true
  }

  predicate Leaf(t: Ty) { t.Prim? || t.Str? }

  ghost predicate HasType(t: Ty, v: Val) {
    match t
    case Prim(k) => v.Num? && InRange(k, v.n)
    case Str => v.Text? && |v.s| < Pow256(8)
    case Coll(_, elem) => v.Items? && |v.xs| < Pow256(8) && forall i :: 0 <= i < |v.xs| ==> HasType(elem, v.xs[i])
    case Pair(fst, snd) => v.Two? && HasType(fst, v.a) && HasType(snd, v.b)
    case Unit => v.Nothing?
  }

  predicate Shape(kind: Kind, o: Obj) {
    if SeqLike(kind) then o.OSeq?
    else if kind in {Set, USet} then o.OSet?
    else if kind in {Map, UMap} then o.OMap?
    else if kind.MultiMap? then o.OMulti?
    else o.OBag?
  }

  /** A target a value of type `t` can be read into. */
  predicate Fits(t: Ty, o: Obj) {
    match t
    case Prim(_) => o.ONum?
    case Str => o.OText?
    case Coll(kind, _) => Shape(kind, o)
    case Pair(fst, snd) => o.OPair? && Fits(fst, o.a) && Fits(snd, o.b)
    case Unit => o.ONothing?
  }

  function Empty(kind: Kind): (o: Obj)
    ensures Shape(kind, o)
  {
    if SeqLike(kind) then OSeq([])
    else if kind in {Set, USet} then OSet({})
    else if kind in {Map, UMap} then OMap(map[])
    else if kind.MultiMap? then OMulti(map[])
    else OBag(multiset{})
  }

  /** The values a multimap holds under a key, in their order. */
  function Under(groups: map<Obj, seq<Obj>>, key: Obj): seq<Obj> {
    if key in groups then groups[key] else []
  }

  function Default(t: Ty): (o: Obj)
    ensures Fits(t, o)
  {
    match t
    case Prim(_) => ONum(0)
    case Str => OText([])
    case Coll(kind, _) => Empty(kind)
    case Pair(fst, snd) => OPair(Default(fst), Default(snd))
    case Unit => ONothing
  }

  /** `push_back` or `insert`; inserting into a map keeps the entry that is there, into a multimap
      puts it behind those with the same key. */
  function Insert(kind: Kind, acc: Obj, x: Obj): (o: Obj)
    requires Shape(kind, acc) && (MapLike(kind) ==> x.OPair?)
    ensures Shape(kind, o)
  {
    match acc
    case OSeq(s) => OSeq(s + [x])
    case OSet(s) => OSet(s + {x})
    case OMap(m) => if x.a in m then acc else OMap(m[x.a := x.b])
    case OMulti(g) => OMulti(g[x.a := Under(g, x.a) + [x.b]])
    case OBag(b) => OBag(b + multiset{x})
  }

  ghost predicate Insertable(kind: Kind, objs: seq<Obj>) {
    MapLike(kind) ==> forall i :: 0 <= i < |objs| ==> objs[i].OPair?
  }

  ghost function Fill(kind: Kind, acc: Obj, objs: seq<Obj>): (o: Obj)
    requires Shape(kind, acc) && Insertable(kind, objs)
    ensures Shape(kind, o)
    decreases |objs|
  {
    if objs == [] then acc else Fill(kind, Insert(kind, acc, objs[0]), objs[1..])
  }

  /** Where filling starts: a vector is resized and overwritten, the others keep what they hold. */
  function Start(kind: Kind, target: Obj): (o: Obj)
    requires Shape(kind, target)
    ensures Shape(kind, o)
  {
    if kind.Vector? then OSeq([]) else target
  }

  /** The value of `v` read into `target`. */
  ghost function Into(t: Ty, target: Obj, v: Val): (o: Obj)
    requires WellFormed(t) && HasType(t, v) && Fits(t, target)
    ensures Fits(t, o)
    decreases t, 0
  {
    match t
    case Prim(_) => ONum(v.n)
    case Str => OText(v.s)
    case Coll(kind, elem) => Fill(kind, Start(kind, target), Meanings(elem, v.xs))
    case Pair(fst, snd) => OPair(Into(fst, target.a, v.a), Into(snd, target.b, v.b))
    case Unit => ONothing
  }

  ghost function Meaning(t: Ty, v: Val): (o: Obj)
    requires WellFormed(t) && HasType(t, v)
    ensures Fits(t, o)
    decreases t, 1
  {
    Into(t, Default(t), v)
  }

  ghost function Meanings(elem: Ty, xs: seq<Val>): (objs: seq<Obj>)
    requires WellFormed(elem) && forall i :: 0 <= i < |xs| ==> HasType(elem, xs[i])
    ensures |objs| == |xs| && forall i :: 0 <= i < |xs| ==> objs[i] == Meaning(elem, xs[i])
    ensures forall i :: 0 <= i < |xs| ==> Fits(elem, objs[i])
    decreases elem, 2, |xs|
  {
    if xs == [] then [] else [Meaning(elem, xs[0])] + Meanings(elem, xs[1..])
  }

  // ---------------------------------------------------------------- the format

  ghost function Encode(t: Ty, v: Val): seq<byte>
    requires HasType(t, v)
    decreases t, 0
  {
    match t
    case Prim(k) => LE(ToBits(k, v.n), Width(k))
    case Str => LE(|v.s|, 8) + v.s
    case Coll(_, elem) => LE(|v.xs|, 8) + EncodeAll(elem, v.xs)
    case Pair(fst, snd) => Encode(fst, v.a) + Encode(snd, v.b)
    case Unit => []
  }

  ghost function EncodeAll(elem: Ty, xs: seq<Val>): seq<byte>
    requires forall i :: 0 <= i < |xs| ==> HasType(elem, xs[i])
    decreases elem, 1, |xs|
  {
    if xs == [] then [] else Encode(elem, xs[0]) + EncodeAll(elem, xs[1..])
  }

  type Read = Option<(Obj, seq<byte>)>

  function ReadScalar(k: Scalar, b: seq<byte>): Read {
    if |b| < Width(k) then None
    else Some((ONum(FromBits(k, UnLE(b[..Width(k)]))), b[Width(k)..]))
  }

  function ReadText(b: seq<byte>): Read {
    if |b| < 8 then None
    else
      var n := UnLE(b[..8]);
      if |b| - 8 < n then None else Some((OText(b[8..8 + n]), b[8 + n..]))
  }

  /** `>>` into `target`; None when the bytes run out. */
  function Decode(t: Ty, target: Obj, b: seq<byte>): (r: Read)
    requires WellFormed(t) && Fits(t, target)
    ensures r.Some? ==> Fits(t, r.value.0)
    decreases t, 0
  {
    match t
    case Prim(k) => ReadScalar(k, b)
    case Str => ReadText(b)
    case Coll(kind, elem) =>
      if |b| < 8 then None else DecodeAll(kind, elem, UnLE(b[..8]), Start(kind, target), b[8..])
    case Pair(fst, snd) =>
      var r := Decode(fst, target.a, b);
      if r.None? then None
      else
        var q := Decode(snd, target.b, r.value.1);
        if q.None? then None else Some((OPair(r.value.0, q.value.0), q.value.1))
    case Unit => Some((ONothing, b))
  }

  /** The set overloads read an element with `output`, which knows scalars and strings only
      and otherwise leaves the fresh element alone. */
  function DecodeElem(kind: Kind, elem: Ty, b: seq<byte>): (r: Read)
    requires WellFormed(elem)
    ensures r.Some? ==> Fits(elem, r.value.0)
    decreases elem, 1
  {
    if SetLike(kind) && !Leaf(elem) then Some((Default(elem), b)) else Decode(elem, Default(elem), b)
  }

  function DecodeAll(kind: Kind, elem: Ty, n: nat, acc: Obj, b: seq<byte>): (r: Read)
    requires WellFormed(elem) && (MapLike(kind) ==> elem.Pair?) && Shape(kind, acc)
    ensures r.Some? ==> Shape(kind, r.value.0)
    decreases elem, 2, n
  {
    if n == 0 then Some((acc, b))
    else
      var x := DecodeElem(kind, elem, b);
      if x.None? then None else DecodeAll(kind, elem, n - 1, Insert(kind, acc, x.value.0), x.value.1)
  }
}
