/** Reading with `output_string` as it is written: the result is never given a size, so the
    characters go to the storage of an empty string, and the string stays empty. */
module SerialAsWritten {
  import opened Wrappers
  import opened Bytes
  import opened SerialModel
  import opened SerialProofs
  import opened SerialOrder

  /** Overrun: more characters were copied than an empty string has room for. */
  datatype Got = Got(value: Obj, rest: seq<byte>) | Short | Overrun

  /** `room` is what the storage of an empty string holds.  The copy takes what there is, at most
      what the count asks for. */
  function ReadTextAsWritten(room: nat, b: seq<byte>): Got {
    if |b| < 8 then Short
    else
      var n := if UnLE(b[..8]) > |b| - 8 then |b| - 8 else UnLE(b[..8]);
      if n > room then Overrun else Got(OText([]), b[8 + n..])
  }

  function DecodeAsWritten(room: nat, t: Ty, target: Obj, b: seq<byte>): (r: Got)
    requires WellFormed(t) && Fits(t, target)
    ensures r.Got? ==> Fits(t, r.value)
    decreases t, 0
  {
    match t
    case Prim(k) =>
      var r := ReadScalar(k, b);
      if r.None? then Short else Got(r.value.0, r.value.1)
    case Str => ReadTextAsWritten(room, b)
    case Coll(kind, elem) =>
      if |b| < 8 then Short else AllAsWritten(room, kind, elem, UnLE(b[..8]), Start(kind, target), b[8..])
    case Pair(fst, snd) =>
      var r := DecodeAsWritten(room, fst, target.a, b);
      if !r.Got? then r
      else
        var q := DecodeAsWritten(room, snd, target.b, r.rest);
        if !q.Got? then q else Got(OPair(r.value, q.value), q.rest)
    case Unit => Got(ONothing, b)
  }

  function ElemAsWritten(room: nat, kind: Kind, elem: Ty, b: seq<byte>): (r: Got)
    requires WellFormed(elem)
    ensures r.Got? ==> Fits(elem, r.value)
    decreases elem, 1
  {
    if SetLike(kind) && !Leaf(elem) then Got(Default(elem), b) else DecodeAsWritten(room, elem, Default(elem), b)
  }

  function AllAsWritten(room: nat, kind: Kind, elem: Ty, n: nat, acc: Obj, b: seq<byte>): (r: Got)
    requires WellFormed(elem) && (MapLike(kind) ==> elem.Pair?) && Shape(kind, acc)
    ensures r.Got? ==> Shape(kind, r.value)
    decreases elem, 2, n
  {
    if n == 0 then Got(acc, b)
    else
      var x := ElemAsWritten(room, kind, elem, b);
      if !x.Got? then x else AllAsWritten(room, kind, elem, n - 1, Insert(kind, acc, x.value), x.rest)
  }

  // ---------------------------------------------------------------- what comes back

  /** An object with every text emptied. */
  function Blank(v: Val): Val {
    match v
    case Text(_) => Text([])
    case Items(xs) => Items(Blanks(xs))
    case Two(a, b) => Two(Blank(a), Blank(b))
    case _ => v
  }

  function Blanks(xs: seq<Val>): (ys: seq<Val>)
    ensures |ys| == |xs|
  {
    if xs == [] then [] else [Blank(xs[0])] + Blanks(xs[1..])
  }

  /** No text anywhere in the object has more than `n` characters. */
  predicate TextsUpTo(n: nat, v: Val) {
    match v
    case Text(s) => |s| <= n
    case Items(xs) => AllUpTo(n, xs)
    case Two(a, b) => TextsUpTo(n, a) && TextsUpTo(n, b)
    case _ => true
  }

  predicate AllUpTo(n: nat, xs: seq<Val>) {
    xs == [] || (TextsUpTo(n, xs[0]) && AllUpTo(n, xs[1..]))
  }

  lemma {:induction false} BlankTyped(t: Ty, v: Val)
    requires HasType(t, v)
    ensures HasType(t, Blank(v))
    decreases t, 0
  {
    match t
    case Coll(_, elem) => BlanksTyped(elem, v.xs);
    case Pair(fst, snd) =>
      BlankTyped(fst, v.a);
      BlankTyped(snd, v.b);
    case _ =>
  }

  lemma {:induction false} BlanksTyped(elem: Ty, xs: seq<Val>)
    requires Typed(elem, xs)
    ensures Typed(elem, Blanks(xs))
    decreases elem, 1, |xs|
  {
    if xs != [] {
      BlankTyped(elem, xs[0]);
      BlanksTyped(elem, xs[1..]);
      assert Blanks(xs)[1..] == Blanks(xs[1..]);
    }
  }

  /** As written, reading any object of a supported type leaves exactly the object with every text
      emptied, and consumes exactly its bytes; unless a text is longer than the room, which then
      is overrun. */
  lemma {:induction false} ReadsBlank(room: nat, t: Ty, target: Obj, v: Val, rest: seq<byte>)
    requires WellFormed(t) && Supported(t) && HasType(t, v) && Fits(t, target)
    ensures HasType(t, Blank(v))
    ensures DecodeAsWritten(room, t, target, Encode(t, v) + rest)
         == if TextsUpTo(room, v) then Got(Into(t, target, Blank(v)), rest) else Overrun
    decreases t, 1
  {
    BlankTyped(t, v);
    match t
    case Prim(k) => ScalarRoundTrip(k, v.n, rest);
    case Str => TextBlank(room, v.s, rest);
    case Coll(kind, elem) => CollBlank(room, kind, elem, target, v.xs, rest);
    case Pair(fst, snd) => PairBlank(room, t, target, v, rest);
    case Unit => assert [] + rest == rest;
  }

  lemma CollBlank(room: nat, kind: Kind, elem: Ty, target: Obj, xs: seq<Val>, rest: seq<byte>)
    requires WellFormed(Coll(kind, elem)) && Supported(Coll(kind, elem)) && HasType(Coll(kind, elem), Items(xs))
    requires Shape(kind, target)
    ensures Typed(elem, Blanks(xs))
    ensures DecodeAsWritten(room, Coll(kind, elem), target, Encode(Coll(kind, elem), Items(xs)) + rest)
         == if AllUpTo(room, xs) then Got(Fill(kind, Start(kind, target), Meanings(elem, Blanks(xs))), rest) else Overrun
    decreases elem, 4
  {
    var all := EncodeAll(elem, xs);
    assert LE(|xs|, 8) + all + rest == LE(|xs|, 8) + (all + rest);
    CountRoundTrip(|xs|, all + rest);
    ReadsBlanks(room, kind, elem, Start(kind, target), xs, rest);
  }

  lemma PairBlank(room: nat, t: Ty, target: Obj, v: Val, rest: seq<byte>)
    requires WellFormed(t) && Supported(t) && HasType(t, v) && Fits(t, target) && t.Pair?
    ensures HasType(t, Blank(v))
    ensures DecodeAsWritten(room, t, target, Encode(t, v) + rest)
         == if TextsUpTo(room, v) then Got(Into(t, target, Blank(v)), rest) else Overrun
    decreases t, 0
  {
    var tail := Encode(t.snd, v.b) + rest;
    assert Encode(t, v) + rest == Encode(t.fst, v.a) + tail;
    ReadsBlank(room, t.fst, target.a, v.a, tail);
    ReadsBlank(room, t.snd, target.b, v.b, rest);
  }

  lemma TextBlank(room: nat, s: seq<byte>, rest: seq<byte>)
    requires |s| < Pow256(8)
    ensures ReadTextAsWritten(room, LE(|s|, 8) + s + rest) == if |s| <= room then Got(OText([]), rest) else Overrun
  {
    LERoundTrip(|s|, 8);
    HeadedText(room, LE(|s|, 8), s, rest);
  }

  lemma HeadedText(room: nat, head: seq<byte>, s: seq<byte>, rest: seq<byte>)
    requires |head| == 8 && UnLE(head) == |s|
    ensures ReadTextAsWritten(room, head + s + rest) == if |s| <= room then Got(OText([]), rest) else Overrun
  {
    var b := head + s + rest;
    assert b[..8] == head && b[8 + |s|..] == rest;
  }

  lemma {:induction false} ReadsBlanks(room: nat, kind: Kind, elem: Ty, acc: Obj, xs: seq<Val>, rest: seq<byte>)
    requires WellFormed(elem) && (MapLike(kind) ==> elem.Pair?) && Shape(kind, acc)
    requires Supported(elem) && (SetLike(kind) ==> Leaf(elem) || Trivial(elem)) && Typed(elem, xs)
    ensures Typed(elem, Blanks(xs))
    ensures AllAsWritten(room, kind, elem, |xs|, acc, EncodeAll(elem, xs) + rest)
         == if AllUpTo(room, xs) then Got(Fill(kind, acc, Meanings(elem, Blanks(xs))), rest) else Overrun
    decreases elem, 3, |xs|
  {
    BlanksTyped(elem, xs);
    if xs == [] {
      assert [] + rest == rest;
    } else {
      FirstBlank(room, kind, elem, acc, xs, rest);
      ReadsBlanks(room, kind, elem, Insert(kind, acc, Meaning(elem, Blank(xs[0]))), xs[1..], rest);
      FillBlanks(kind, acc, elem, xs);
    }
  }

  /** The first item comes back with its texts emptied, and the others are read behind it. */
  lemma FirstBlank(room: nat, kind: Kind, elem: Ty, acc: Obj, xs: seq<Val>, rest: seq<byte>)
    requires WellFormed(elem) && (MapLike(kind) ==> elem.Pair?) && Shape(kind, acc) && xs != []
    requires Supported(elem) && (SetLike(kind) ==> Leaf(elem) || Trivial(elem)) && Typed(elem, xs)
    ensures HasType(elem, Blank(xs[0]))
    ensures AllAsWritten(room, kind, elem, |xs|, acc, EncodeAll(elem, xs) + rest)
         == if !TextsUpTo(room, xs[0]) then Overrun
            else AllAsWritten(room, kind, elem, |xs| - 1, Insert(kind, acc, Meaning(elem, Blank(xs[0]))),
                              EncodeAll(elem, xs[1..]) + rest)
    decreases elem, 3, 0
  {
    var b := EncodeAll(elem, xs[1..]) + rest;
    EncodeFirst(elem, xs, rest);
    ElemBlank(room, kind, elem, xs[0], b);
    NextAsWritten(room, kind, elem, |xs|, acc, Encode(elem, xs[0]) + b);
  }

  lemma NextAsWritten(room: nat, kind: Kind, elem: Ty, n: nat, acc: Obj, b: seq<byte>)
    requires WellFormed(elem) && (MapLike(kind) ==> elem.Pair?) && Shape(kind, acc) && n > 0
    ensures var x := ElemAsWritten(room, kind, elem, b);
            AllAsWritten(room, kind, elem, n, acc, b)
            == if x.Got? then AllAsWritten(room, kind, elem, n - 1, Insert(kind, acc, x.value), x.rest) else x
  {
  }

  lemma FillBlanks(kind: Kind, acc: Obj, elem: Ty, xs: seq<Val>)
    requires WellFormed(elem) && (MapLike(kind) ==> elem.Pair?) && Shape(kind, acc) && xs != []
    requires Typed(elem, Blanks(xs)) && HasType(elem, Blank(xs[0])) && Typed(elem, Blanks(xs[1..]))
    ensures Fill(kind, acc, Meanings(elem, Blanks(xs)))
         == Fill(kind, Insert(kind, acc, Meaning(elem, Blank(xs[0]))), Meanings(elem, Blanks(xs[1..])))
  {
    assert Blanks(xs)[0] == Blank(xs[0]) && Blanks(xs)[1..] == Blanks(xs[1..]);
    FillFirst(kind, acc, elem, Blanks(xs));
  }

  lemma ElemBlank(room: nat, kind: Kind, elem: Ty, x: Val, rest: seq<byte>)
    requires WellFormed(elem) && Supported(elem) && (SetLike(kind) ==> Leaf(elem) || Trivial(elem)) && HasType(elem, x)
    ensures HasType(elem, Blank(x))
    ensures ElemAsWritten(room, kind, elem, Encode(elem, x) + rest)
         == if TextsUpTo(room, x) then Got(Meaning(elem, Blank(x)), rest) else Overrun
    decreases elem, 2, 0
  {
    if SetLike(kind) && !Leaf(elem) {
      BlankTyped(elem, x);
      TrivialIsNothing(elem, x);
      TrivialIsNothing(elem, Blank(x));
      TrivialHasNoText(room, elem, x);
      assert [] + rest == rest;
    } else {
      ReadsBlank(room, elem, Default(elem), x, rest);
    }
  }

  lemma TrivialHasNoText(room: nat, t: Ty, v: Val)
    requires Trivial(t) && HasType(t, v)
    ensures TextsUpTo(room, v)
  {
    if t.Pair? {
      TrivialHasNoText(room, t.fst, v.a);
      TrivialHasNoText(room, t.snd, v.b);
    }
  }

  // ---------------------------------------------------------------- no text is ever read

  /** A value of type `t` in which every text is empty. */
  ghost predicate Silent(t: Ty, o: Obj)
    decreases t, 0
  {
    match t
    case Prim(_) => o.ONum?
    case Str => o.OText? && o.s == []
    case Coll(kind, elem) => Shape(kind, o) && SilentItems(elem, o)
    case Pair(fst, snd) => o.OPair? && Silent(fst, o.a) && Silent(snd, o.b)
    case Unit => o.ONothing?
  }

  ghost predicate SilentItems(elem: Ty, o: Obj)
    decreases elem, 1
  {
    match o
    case OSeq(items) => forall x <- items :: Silent(elem, x)
    case OSet(elems) => forall x <- elems :: Silent(elem, x)
    case OBag(bag) => forall x <- bag :: Silent(elem, x)
    case OMap(m) => elem.Pair? && forall k <- m :: Silent(elem.fst, k) && Silent(elem.snd, m[k])
    case OMulti(g) => elem.Pair? && forall k <- g :: Silent(elem.fst, k) && forall x <- g[k] :: Silent(elem.snd, x)
    case _ => true
  }

  lemma {:induction false} SilentDefault(t: Ty)
    requires WellFormed(t)
    ensures Silent(t, Default(t))
  {
    if t.Pair? {
      SilentDefault(t.fst);
      SilentDefault(t.snd);
    }
  }

  lemma SilentInsert(kind: Kind, elem: Ty, acc: Obj, x: Obj)
    requires Shape(kind, acc) && (MapLike(kind) ==> elem.Pair?) && SilentItems(elem, acc) && Silent(elem, x)
    ensures SilentItems(elem, Insert(kind, acc, x))
  {
  }

  /** Whatever the bytes, reading as written never leaves a text that was not there. */
  lemma {:induction false} ReadsSilent(room: nat, t: Ty, target: Obj, b: seq<byte>)
    requires WellFormed(t) && Silent(t, target)
    ensures Fits(t, target)
    ensures var r := DecodeAsWritten(room, t, target, b); r.Got? ==> Silent(t, r.value)
    decreases t, 0
  {
    match t
    case Prim(_) =>
    case Str =>
    case Coll(kind, elem) =>
      if |b| >= 8 { AllSilent(room, kind, elem, UnLE(b[..8]), Start(kind, target), b[8..]); }
    case Pair(fst, snd) =>
      ReadsSilent(room, fst, target.a, b);
      ReadsSilent(room, snd, target.b, b);
      var r := DecodeAsWritten(room, fst, target.a, b);
      if r.Got? { ReadsSilent(room, snd, target.b, r.rest); }
    case Unit =>
  }

  lemma {:induction false} AllSilent(room: nat, kind: Kind, elem: Ty, n: nat, acc: Obj, b: seq<byte>)
    requires WellFormed(elem) && (MapLike(kind) ==> elem.Pair?) && Shape(kind, acc) && SilentItems(elem, acc)
    ensures var r := AllAsWritten(room, kind, elem, n, acc, b); r.Got? ==> Shape(kind, r.value) && SilentItems(elem, r.value)
    decreases elem, 2, n
  {
    if n > 0 {
      ElemSilent(room, kind, elem, b);
      NextAsWritten(room, kind, elem, n, acc, b);
      var x := ElemAsWritten(room, kind, elem, b);
      if x.Got? {
        SilentInsert(kind, elem, acc, x.value);
        AllSilent(room, kind, elem, n - 1, Insert(kind, acc, x.value), x.rest);
      }
    }
  }

  lemma ElemSilent(room: nat, kind: Kind, elem: Ty, b: seq<byte>)
    requires WellFormed(elem)
    ensures var r := ElemAsWritten(room, kind, elem, b); r.Got? ==> Silent(elem, r.value)
    decreases elem, 1
  {
    SilentDefault(elem);
    if !(SetLike(kind) && !Leaf(elem)) { ReadsSilent(room, elem, Default(elem), b); }
  }

  // ---------------------------------------------------------------- an object with a text is not silent

  /** The maps inside an object hold each key once. */
  ghost predicate Proper(t: Ty, v: Val)
    requires WellFormed(t) && HasType(t, v)
  {
    match t
    case Coll(kind, elem) =>
      (kind in {Map, UMap} ==> DistinctKeys(Meanings(elem, v.xs))) &&
      forall i :: 0 <= i < |v.xs| ==> Proper(elem, v.xs[i])
    case Pair(fst, snd) => Proper(fst, v.a) && Proper(snd, v.b)
    case _ => true
  }

  lemma {:induction false} SilentMeaning(t: Ty, v: Val)
    requires WellFormed(t) && HasType(t, v) && Proper(t, v) && Silent(t, Meaning(t, v))
    ensures TextsUpTo(0, v)
    decreases t, 0
  {
    match t
    case Coll(kind, elem) =>
      var o := Meaning(t, v);
      assert o == Into(t, Empty(kind), v) && Shape(kind, o) && SilentItems(elem, o);
      SilentAll(kind, elem, v.xs, o);
    case Pair(fst, snd) =>
      PairMeaning(t, v);
      SilentMeaning(fst, v.a);
      SilentMeaning(snd, v.b);
    case _ =>
  }

  lemma SilentAll(kind: Kind, elem: Ty, xs: seq<Val>, o: Obj)
    requires WellFormed(Coll(kind, elem)) && Typed(elem, xs) && forall i :: 0 <= i < |xs| ==> Proper(elem, xs[i])
    requires kind in {Map, UMap} ==> DistinctKeys(Meanings(elem, xs))
    requires Shape(kind, o) && SilentItems(elem, o) && o == Fill(kind, Start(kind, Empty(kind)), Meanings(elem, xs))
    ensures AllUpTo(0, xs)
    decreases elem, 1
  {
    var objs := Meanings(elem, xs);
    FillMerges(kind, Empty(kind), objs);
    forall i | 0 <= i < |xs|
      ensures TextsUpTo(0, xs[i])
    {
      SilentEach(kind, elem, objs, o, i);
      SilentMeaning(elem, xs[i]);
    }
    EachUpTo(0, xs);
  }

  lemma {:induction false} EachUpTo(n: nat, xs: seq<Val>)
    requires forall i :: 0 <= i < |xs| ==> TextsUpTo(n, xs[i])
    ensures AllUpTo(n, xs)
  {
    if xs != [] { EachUpTo(n, xs[1..]); }
  }

  /** A silent container was filled with silent items. */
  lemma SilentEach(kind: Kind, elem: Ty, objs: seq<Obj>, o: Obj, i: nat)
    requires i < |objs| && Shape(kind, o) && SilentItems(elem, o) && Merged(kind, Empty(kind), objs, o)
    requires MapLike(kind) ==> elem.Pair? && objs[i].OPair?
    requires kind in {Map, UMap} ==> DistinctKeys(objs)
    ensures Silent(elem, objs[i])
  {
    if SeqLike(kind) {
      assert [] + objs == objs && objs[i] in o.items;
    } else if kind in {Set, USet} {
      assert objs[i] in Elems(objs) && objs[i] in o.elems;
    } else if kind in {Map, UMap} {
      var k := objs[i].a;
      assert FirstOf(objs, k, o.entries[k]);
      var j :| 0 <= j < |objs| && objs[j] == OPair(k, o.entries[k]);
      assert i == j;
    } else if kind.MultiMap? {
      var k := objs[i].a;
      InValues(objs, i);
      assert Under(o.groups, k) == Under(map[], k) + ValuesOf(objs, k) == [] + ValuesOf(objs, k) == ValuesOf(objs, k);
      assert k in o.groups && objs[i].b in o.groups[k];
    } else {
      assert multiset{} + multiset(objs) == multiset(objs) && objs[i] in multiset(objs) && objs[i] in o.bag;
    }
  }

  lemma {:induction false} InValues(objs: seq<Obj>, i: nat)
    requires i < |objs| && objs[i].OPair?
    ensures objs[i].b in ValuesOf(objs, objs[i].a)
  {
    if i > 0 { InValues(objs[1..], i - 1); }
  }

  // ---------------------------------------------------------------- exactly what reads back as written

  ghost predicate ReadsBackAsWritten(room: nat, t: Ty, v: Val, rest: seq<byte>)
    requires WellFormed(t) && HasType(t, v)
  {
    DecodeAsWritten(room, t, Default(t), Encode(t, v) + rest) == Got(Meaning(t, v), rest)
  }

  lemma {:induction false} NoTextIsBlank(room: nat, v: Val)
    ensures TextsUpTo(0, v) ==> Blank(v) == v && TextsUpTo(room, v)
    decreases v, 0
  {
    match v
    case Items(xs) => NoTextsAreBlank(room, xs);
    case Two(a, b) =>
      NoTextIsBlank(room, a);
      NoTextIsBlank(room, b);
    case _ =>
  }

  lemma {:induction false} NoTextsAreBlank(room: nat, xs: seq<Val>)
    ensures AllUpTo(0, xs) ==> Blanks(xs) == xs && AllUpTo(room, xs)
    decreases xs, 1
  {
    if xs != [] {
      NoTextIsBlank(room, xs[0]);
      NoTextsAreBlank(room, xs[1..]);
    }
  }

  /** Of the objects of a supported type, exactly those without a character read back as written. */
  lemma TextsAreLost(room: nat, t: Ty, v: Val, rest: seq<byte>)
    requires WellFormed(t) && Supported(t) && HasType(t, v) && Proper(t, v)
    ensures ReadsBackAsWritten(room, t, v, rest) <==> TextsUpTo(0, v)
  {
    ReadsBlank(room, t, Default(t), v, rest);
    if TextsUpTo(0, v) {
      NoTextIsBlank(room, v);
    } else if ReadsBackAsWritten(room, t, v, rest) {
      SilentDefault(t);
      ReadsSilent(room, t, Default(t), Encode(t, v) + rest);
      SilentMeaning(t, v);
    }
  }

  // ---------------------------------------------------------------- exactly the types

  predicate HasText(t: Ty) {
    match t
    case Prim(_) => false
    case Str => true
    case Coll(_, elem) => HasText(elem)
    case Pair(fst, snd) => HasText(fst) || HasText(snd)
    case Unit => false
  }

  /** An object with a character in it. */
  function Loud(t: Ty): Val
    requires HasText(t)
  {
    match t
    case Str => Text([1])
    case Coll(_, elem) => Items([Loud(elem)])
    case Pair(fst, snd) => if HasText(fst) then Two(Loud(fst), Zero(snd)) else Two(Zero(fst), Loud(snd))
  }

  lemma ZeroIsProper(t: Ty)
    requires WellFormed(t)
    ensures HasType(t, Zero(t)) && Proper(t, Zero(t))
  {
    ZeroIsDefault(t);
    if t.Pair? {
      ZeroIsProper(t.fst);
      ZeroIsProper(t.snd);
    }
  }

  lemma {:induction false} LoudIsLoud(t: Ty)
    requires WellFormed(t) && HasText(t)
    ensures HasType(t, Loud(t)) && Proper(t, Loud(t)) && !TextsUpTo(0, Loud(t))
  {
    Pow256Values();
    match t
    case Coll(_, elem) => LoudIsLoud(elem);
    case Pair(fst, snd) =>
      ZeroIsProper(fst);
      ZeroIsProper(snd);
      if HasText(fst) { LoudIsLoud(fst); } else { LoudIsLoud(snd); }
    case _ =>
  }

  lemma {:induction false} NoTextType(t: Ty, v: Val)
    requires HasType(t, v) && !HasText(t)
    ensures TextsUpTo(0, v)
  {
    match t
    case Coll(_, elem) =>
      forall i | 0 <= i < |v.xs| ensures TextsUpTo(0, v.xs[i]) { NoTextType(elem, v.xs[i]); }
      EachUpTo(0, v.xs);
    case Pair(fst, snd) =>
      NoTextType(fst, v.a);
      NoTextType(snd, v.b);
    case _ =>
  }

  function AsGot(r: Read): Got {
    if r.None? then Short else Got(r.value.0, r.value.1)
  }

  /** Where no text is read, as written is as meant. */
  lemma {:induction false} SameWithoutText(room: nat, t: Ty, target: Obj, b: seq<byte>)
    requires WellFormed(t) && Fits(t, target) && !HasText(t)
    ensures DecodeAsWritten(room, t, target, b) == AsGot(Decode(t, target, b))
    decreases t, 0
  {
    match t
    case Coll(kind, elem) =>
      if |b| >= 8 { SameItemsWithoutText(room, kind, elem, UnLE(b[..8]), Start(kind, target), b[8..]); }
    case Pair(fst, snd) =>
      SameWithoutText(room, fst, target.a, b);
      var r := DecodeAsWritten(room, fst, target.a, b);
      if r.Got? { SameWithoutText(room, snd, target.b, r.rest); }
    case _ =>
  }

  lemma {:induction false} SameItemsWithoutText(room: nat, kind: Kind, elem: Ty, n: nat, acc: Obj, b: seq<byte>)
    requires WellFormed(elem) && (MapLike(kind) ==> elem.Pair?) && Shape(kind, acc) && !HasText(elem)
    ensures AllAsWritten(room, kind, elem, n, acc, b) == AsGot(DecodeAll(kind, elem, n, acc, b))
    decreases elem, 2, n
  {
    if n > 0 {
      SameElemWithoutText(room, kind, elem, b);
      var x := ElemAsWritten(room, kind, elem, b);
      NextAsWritten(room, kind, elem, n, acc, b);
      NextOf(kind, elem, n, acc, b);
      if x.Got? { SameItemsWithoutText(room, kind, elem, n - 1, Insert(kind, acc, x.value), x.rest); }
    }
  }

  lemma SameElemWithoutText(room: nat, kind: Kind, elem: Ty, b: seq<byte>)
    requires WellFormed(elem) && !HasText(elem)
    ensures ElemAsWritten(room, kind, elem, b) == AsGot(DecodeElem(kind, elem, b))
    decreases elem, 1
  {
    if !(SetLike(kind) && !Leaf(elem)) { SameWithoutText(room, elem, Default(elem), b); }
  }

  /** As written, every object of a type reads back exactly when the type is supported and has no
      text in it. */
  lemma RoundTripAsWritten(room: nat, t: Ty)
    requires WellFormed(t)
    ensures Supported(t) && !HasText(t) <==>
              forall v, rest :: HasType(t, v) ==> ReadsBackAsWritten(room, t, v, rest)
  {
    if HasText(t) {
      LoudIsLoud(t);
      SilentDefault(t);
      ReadsSilent(room, t, Default(t), Encode(t, Loud(t)) + []);
      if Silent(t, Meaning(t, Loud(t))) { SilentMeaning(t, Loud(t)); }
      assert !ReadsBackAsWritten(room, t, Loud(t), []);
    } else if Supported(t) {
      forall v, rest | HasType(t, v)
        ensures ReadsBackAsWritten(room, t, v, rest)
      {
        NoTextType(t, v);
        NoTextIsBlank(room, v);
        ReadsBlank(room, t, Default(t), v, rest);
      }
    } else {
      BrokenIsBroken(t, []);
      SameWithoutText(room, t, Default(t), Encode(t, Broken(t)) + []);
      assert !ReadsBackAsWritten(room, t, Broken(t), []);
    }
  }
}
