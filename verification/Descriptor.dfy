/** The type descriptors `findType` writes for a signature. */
module Descriptor {
  import opened Bytes
  import opened SerialModel

  /** The types `findType` describes: it does not compile for bool, and writes nothing for a tuple. */
  predicate Describable(t: Ty) {
    match t
    case Prim(k) => !k.Bool?
    case Str => true
    case Coll(kind, elem) =>
      Describable(elem) && (MapLike(kind) ==> elem.Pair? && Describable(elem.fst) && Describable(elem.snd))
    case Pair(fst, snd) => Describable(fst) && Describable(snd)
    case Unit => false
  }

  function KindCode(kind: Kind): byte {
    match kind
    case Vector => 1 case List => 2 case Deque => 3
    case Set => 4 case MultiSet => 5 case USet => 6 case UMultiSet => 7
    case Map => 9 case MultiMap => 10 case UMap => 11 case UMultiMap => 12
  }

  function ScalarCode(k: Scalar): byte {
    match k
    case Bool => 0
    case I8 => 64 case I16 => 65 case I32 => 66 case I64 => 67
    case U8 => 68 case U16 => 69 case U32 => 70 case U64 => 71
    case F32 => 72 case F64 => 73
  }

  const PAIR_CODE: byte := 8
  const STRING_CODE: byte := 74

  /** The descriptor with the second part of a pair or map described by its own type. */
  function Desc(t: Ty): (r: seq<byte>)
    requires Describable(t)
    ensures r != []
  {
    match t
    case Prim(k) => [ScalarCode(k)]
    case Str => [STRING_CODE]
    case Coll(kind, elem) =>
      if MapLike(kind) then [KindCode(kind)] + Desc(elem.fst) + Desc(elem.snd) else [KindCode(kind)] + Desc(elem)
    case Pair(fst, snd) => [PAIR_CODE] + Desc(fst) + Desc(snd)
  }

  /** As written both parts are declared with the type of the first. */
  function DescAsWritten(t: Ty): seq<byte>
    requires Describable(t)
  {
    match t
    case Prim(k) => [ScalarCode(k)]
    case Str => [STRING_CODE]
    case Coll(kind, elem) =>
      if MapLike(kind) then [KindCode(kind)] + DescAsWritten(elem.fst) + DescAsWritten(elem.fst)
      else [KindCode(kind)] + DescAsWritten(elem)
    case Pair(fst, _) => [PAIR_CODE] + DescAsWritten(fst) + DescAsWritten(fst)
  }

  /** A type with the first part of every pair and map put in the place of the second. */
  function Doubled(t: Ty): (r: Ty)
    ensures Describable(t) ==> Describable(r)
  {
    match t
    case Coll(kind, elem) => Coll(kind, Doubled(elem))
    case Pair(fst, _) => Pair(Doubled(fst), Doubled(fst))
    case _ => t
  }

  /** The codes number the type identifiers of the header in the order it lists them: 1 to 12 with
      the pair in eighth place, and 64 to 74 ending in the string. */
  lemma CodesInOrder(i: nat)
    ensures var scalars := [I8, I16, I32, I64, U8, U16, U32, U64, F32, F64];
            i < 10 ==> ScalarCode(scalars[i]) == 64 + i
    ensures var kinds := [Vector, List, Deque, Set, MultiSet, USet, UMultiSet];
            i < 7 ==> KindCode(kinds[i]) == 1 + i
    ensures var maps := [Map, MultiMap, UMap, UMultiMap];
            i < 4 ==> KindCode(maps[i]) == 9 + i
    ensures PAIR_CODE == 8 && STRING_CODE == 74
  {
  }

  lemma CodesDiffer(a: Kind, b: Kind, k: Scalar, l: Scalar)
    ensures KindCode(a) == KindCode(b) ==> a == b
    ensures ScalarCode(k) == ScalarCode(l) ==> k == l
    ensures KindCode(a) != PAIR_CODE && KindCode(a) < 64
    ensures !k.Bool? ==> 64 <= ScalarCode(k) < STRING_CODE
  {
  }

  lemma Tails(x: byte, y: byte, a: seq<byte>, b: seq<byte>, r: seq<byte>, s: seq<byte>)
    requires [x] + a + r == [y] + b + s
    ensures x == y && a + r == b + s
  {
    assert ([x] + a + r)[0] == x && ([y] + b + s)[0] == y;
    assert ([x] + a + r)[1..] == a + r && ([y] + b + s)[1..] == b + s;
  }

  /** A descriptor can be read back: none is the beginning of another. */
  lemma {:induction false} DescPrefixFree(t: Ty, u: Ty, r: seq<byte>, s: seq<byte>)
    requires Describable(t) && Describable(u) && Desc(t) + r == Desc(u) + s
    ensures t == u && r == s
    decreases t
  {
    HeadTells(t, u, r, s);
    match t
    case Prim(_) => SameHead(Desc(t), r, s);
    case Str => SameHead(Desc(t), r, s);
    case Coll(kind, elem) =>
      if MapLike(kind) {
        TwoParts(KindCode(kind), Desc(elem.fst), Desc(elem.snd), Desc(u.elem.fst), Desc(u.elem.snd), r, s);
        DescPrefixFree(elem.fst, u.elem.fst, Desc(elem.snd) + r, Desc(u.elem.snd) + s);
        DescPrefixFree(elem.snd, u.elem.snd, r, s);
      } else {
        Tails(KindCode(kind), KindCode(kind), Desc(elem), Desc(u.elem), r, s);
        DescPrefixFree(elem, u.elem, r, s);
      }
    case Pair(fst, snd) =>
      TwoParts(PAIR_CODE, Desc(fst), Desc(snd), Desc(u.fst), Desc(u.snd), r, s);
      DescPrefixFree(fst, u.fst, Desc(snd) + r, Desc(u.snd) + s);
      DescPrefixFree(snd, u.snd, r, s);
  }

  lemma SameHead(a: seq<byte>, r: seq<byte>, s: seq<byte>)
    requires a + r == a + s
    ensures r == s
  {
    assert (a + r)[|a|..] == r && (a + s)[|a|..] == s;
  }

  lemma TwoParts(x: byte, a: seq<byte>, b: seq<byte>, c: seq<byte>, d: seq<byte>, r: seq<byte>, s: seq<byte>)
    requires [x] + a + b + r == [x] + c + d + s
    ensures a + (b + r) == c + (d + s)
  {
    assert [x] + a + b + r == [x] + (a + (b + r)) && [x] + c + d + s == [x] + (c + (d + s));
    assert ([x] + (a + (b + r)))[1..] == a + (b + r) && ([x] + (c + (d + s)))[1..] == c + (d + s);
  }

  /** What the first byte of a descriptor is. */
  lemma Head(t: Ty)
    requires Describable(t)
    ensures match t
            case Prim(k) => Desc(t) == [ScalarCode(k)] && 64 <= ScalarCode(k) < STRING_CODE
            case Str => Desc(t) == [STRING_CODE]
            case Coll(kind, _) => Desc(t)[0] == KindCode(kind) && KindCode(kind) < 64 && KindCode(kind) != PAIR_CODE
            case Pair(_, _) => Desc(t)[0] == PAIR_CODE
            case Unit => true
  {
    if t.Prim? { CodesDiffer(Vector, Vector, t.scalar, t.scalar); }
    if t.Coll? { CodesDiffer(t.kind, t.kind, I8, I8); }
  }

  /** The first byte tells the outermost constructor, and the kind or scalar. */
  lemma HeadTells(t: Ty, u: Ty, r: seq<byte>, s: seq<byte>)
    requires Describable(t) && Describable(u) && Desc(t) + r == Desc(u) + s
    ensures match t
            case Prim(_) => u == t
            case Str => u == t
            case Coll(kind, _) => u.Coll? && u.kind == kind
            case Pair(_, _) => u.Pair?
            case Unit => true
  {
    assert Desc(t)[0] == (Desc(t) + r)[0] == (Desc(u) + s)[0] == Desc(u)[0];
    Head(t);
    Head(u);
    if t.Coll? && u.Coll? { CodesDiffer(t.kind, u.kind, I8, I8); }
    if t.Prim? && u.Prim? { CodesDiffer(Vector, Vector, t.scalar, u.scalar); }
  }

  lemma {:induction false} AsWrittenDoubles(t: Ty)
    requires Describable(t)
    ensures DescAsWritten(t) == Desc(Doubled(t))
  {
    match t
    case Coll(kind, elem) =>
      if MapLike(kind) { AsWrittenDoubles(elem.fst); } else { AsWrittenDoubles(elem); }
    case Pair(fst, _) => AsWrittenDoubles(fst);
    case _ =>
  }

  /** As written, two types get one descriptor exactly when they agree but for second parts; and
      a type gets its own descriptor exactly when its second parts repeat its first ones. */
  lemma AsWrittenTellsApart(t: Ty, u: Ty)
    requires Describable(t) && Describable(u)
    ensures DescAsWritten(t) == DescAsWritten(u) <==> Doubled(t) == Doubled(u)
    ensures DescAsWritten(t) == Desc(t) <==> Doubled(t) == t
  {
    AsWrittenDoubles(t);
    AsWrittenDoubles(u);
    if Desc(Doubled(t)) == Desc(Doubled(u)) { DescPrefixFree(Doubled(t), Doubled(u), [], []); }
    if Desc(Doubled(t)) == Desc(t) { DescPrefixFree(Doubled(t), t, [], []); }
  }

  /** Map and unordered map of the same parts stay apart, map<int, int> and map<int, string> do not. */
  lemma SameDescriptor()
    ensures DescAsWritten(Pair(Prim(I32), Str)) == DescAsWritten(Pair(Prim(I32), Prim(I32)))
  {
  }

  class ParaMes {
    var mes: seq<byte>

    /** Appends the descriptor the source appends. */
    method FindType(t: Ty)
      requires Describable(t)
      modifies this
      ensures mes == old(mes) + DescAsWritten(t)
      decreases t, 0
    {
      match t
      case Prim(k) => mes := mes + [ScalarCode(k)];
      case Str => mes := mes + [STRING_CODE];
      case Coll(kind, elem) =>
        if MapLike(kind) { FindTwice(KindCode(kind), elem.fst); } else { FindOnce(KindCode(kind), elem); }
      case Pair(fst, _) => FindTwice(PAIR_CODE, fst);
    }

    method FindOnce(code: byte, t: Ty)
      requires Describable(t)
      modifies this
      ensures mes == old(mes) + ([code] + DescAsWritten(t))
      decreases t, 1
    {
      mes := mes + [code];
      FindType(t);
    }

    method FindTwice(code: byte, t: Ty)
      requires Describable(t)
      modifies this
      ensures mes == old(mes) + ([code] + DescAsWritten(t) + DescAsWritten(t))
      decreases t, 2
    {
      ghost var before, d := mes, DescAsWritten(t);
      FindOnce(code, t);
      FindType(t);
      Regroup(before, [code] + d, d);
    }
  }

  lemma Regroup(a: seq<byte>, b: seq<byte>, c: seq<byte>)
    ensures a + b + c == a + (b + c)
  {
  }
}
