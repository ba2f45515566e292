/** The byte FIFO and the serializer as classes: `<<` appends to the buffer, `>>` consumes from
    its front and fills its target item by item. */
module SerializerClass {
  import opened Wrappers
  import opened Bytes
  import opened SerialModel
  import opened SerialProofs
  import opened SerialAsWritten

  class SeriBuf {
    var buf: seq<byte>

    constructor ()
      ensures buf == []
    {
      buf := [];
    }

    method Input(data: seq<byte>)
      modifies this
      ensures buf == old(buf) + data
    {
      buf := buf + data;
    }

    /** Asking for more than there is yields what there is. */
    method Output(len: nat) returns (data: seq<byte>)
      modifies this
      ensures |data| == if len > |old(buf)| then |old(buf)| else len
      ensures data + buf == old(buf)
    {
      var n := len;
      if n > |buf| { n := |buf|; }
      data := buf[..n];
      buf := buf[n..];
    }

    /** `input_int8` to `input_double`. */
    method InputScalar(k: Scalar, n: int)
      requires InRange(k, n)
      modifies this
      ensures buf == old(buf) + LE(ToBits(k, n), Width(k))
      ensures ReadScalar(k, buf[|old(buf)|..]) == Some((ONum(n), []))
      ensures old(buf) == [] ==> forall rest :: ReadScalar(k, buf + rest) == Some((ONum(n), rest))
    {
      Input(LE(ToBits(k, n), Width(k)));
      assert buf[|old(buf)|..] == LE(ToBits(k, n), Width(k)) + [];
      ScalarRoundTrip(k, n, []);
      forall rest { ScalarRoundTrip(k, n, rest); }
      assert old(buf) == [] ==> buf == LE(ToBits(k, n), Width(k));
    }

    method InputString(s: seq<byte>)
      requires |s| < Pow256(8)
      modifies this
      ensures buf == old(buf) + (LE(|s|, 8) + s)
    {
      Input(LE(|s|, 8));
      Input(s);
      assert old(buf) + LE(|s|, 8) + s == old(buf) + (LE(|s|, 8) + s);
    }

    /** `output_int8` to `output_double`; None when the bytes ran out, and then the source's
        local variable is only partly filled. */
    method OutputScalar(k: Scalar) returns (n: Option<int>)
      modifies this
      ensures match ReadScalar(k, old(buf))
              case None => n.None? && buf == []
              case Some(p) => n == Some(p.0.n) && buf == p.1
    {
      var data := Output(Width(k));
      ScalarSplit(k, data, buf);
      if |data| < Width(k) { return None; }
      n := Some(FromBits(k, UnLE(data)));
    }

    method OutputString() returns (s: Option<seq<byte>>)
      modifies this
      ensures match ReadText(old(buf))
              case None => s.None? && buf == []
              case Some(p) => s == Some(p.0.s) && buf == p.1
    {
      var head := Output(8);
      assert old(buf)[..|head|] == head && old(buf)[|head|..] == buf;
      if |head| < 8 { return None; }
      ghost var body := buf;
      var size := UnLE(head);
      var text := Output(size);
      assert body[..|text|] == text && body[|text|..] == buf;
      if |text| < size { return None; }
      assert old(buf)[8..8 + size] == text && old(buf)[8 + size..] == buf;
      s := Some(text);
    }

    /** The same without a size for the result: the copy goes to the storage of an empty string. */
    method OutputStringAsWritten(room: nat) returns (r: Got)
      modifies this
      ensures r == ReadTextAsWritten(room, old(buf)) && (r.Got? ==> buf == r.rest)
    {
      var head := Output(8);
      assert old(buf)[..|head|] == head;
      if |head| < 8 { return Short; }
      var text := Output(UnLE(head));
      assert old(buf) == head + text + buf;
      TextSplit(room, head, text, buf);
      r := if |text| > room then Overrun else Got(OText([]), buf);
    }
  }

  lemma TextSplit(room: nat, head: seq<byte>, text: seq<byte>, rest: seq<byte>)
    requires |head| == 8 && |text| <= UnLE(head) && (|text| < UnLE(head) ==> rest == [])
    ensures ReadTextAsWritten(room, head + text + rest) == if |text| > room then Overrun else Got(OText([]), rest)
  {
    var b := head + text + rest;
    assert b[..8] == head && b[8 + |text|..] == rest;
  }

  lemma ScalarSplit(k: Scalar, data: seq<byte>, rest: seq<byte>)
    requires |data| <= Width(k) && (|data| < Width(k) ==> rest == [])
    ensures if |data| < Width(k) then ReadScalar(k, data + rest).None?
            else ReadScalar(k, data + rest) == Some((ONum(FromBits(k, UnLE(data))), rest))
  {
    if |data| == Width(k) { assert (data + rest)[..Width(k)] == data && (data + rest)[Width(k)..] == rest; }
  }

  lemma Assoc(a: seq<byte>, b: seq<byte>, c: seq<byte>)
    ensures a + b + c == a + (b + c)
  {
  }

  class Serializer {
    const buf: SeriBuf

    constructor ()
      ensures fresh(buf) && buf.buf == []
    {
      buf := new SeriBuf();
    }

    /** All `<<` overloads. */
    method Write(t: Ty, v: Val)
      requires HasType(t, v)
      modifies buf
      ensures buf.buf == old(buf.buf) + Encode(t, v)
      decreases t, 0
    {
      match t
      case Prim(k) => buf.InputScalar(k, v.n);
      case Str => buf.InputString(v.s);
      case Coll(_, elem) =>
        WriteItems(elem, v.xs);
      case Pair(fst, snd) =>
        Write(fst, v.a);
        Write(snd, v.b);
        Assoc(old(buf.buf), Encode(fst, v.a), Encode(snd, v.b));
      case Unit =>
        assert buf.buf + [] == buf.buf;
    }

    method WriteItems(elem: Ty, xs: seq<Val>)
      requires |xs| < Pow256(8) && forall i :: 0 <= i < |xs| ==> HasType(elem, xs[i])
      modifies buf
      ensures buf.buf == old(buf.buf) + (LE(|xs|, 8) + EncodeAll(elem, xs))
      decreases elem, 2
    {
      buf.InputScalar(U64, |xs|);
      Assoc(old(buf.buf), LE(|xs|, 8), EncodeAll(elem, xs));
      ghost var whole := old(buf.buf) + (LE(|xs|, 8) + EncodeAll(elem, xs));
      var i := 0;
      assert xs[0..] == xs;
      while i < |xs|
        invariant i <= |xs|
        invariant buf.buf + EncodeAll(elem, xs[i..]) == whole
      {
        WriteNext(elem, xs, i);
        i := i + 1;
      }
      assert buf.buf + [] == buf.buf;
    }

    method WriteNext(elem: Ty, xs: seq<Val>, i: nat)
      requires i < |xs| && forall k :: 0 <= k < |xs| ==> HasType(elem, xs[k])
      modifies buf
      ensures buf.buf + EncodeAll(elem, xs[i + 1..]) == old(buf.buf) + EncodeAll(elem, xs[i..])
      decreases elem, 1
    {
      Write(elem, xs[i]);
      assert xs[i..][1..] == xs[i + 1..];
      Assoc(old(buf.buf), Encode(elem, xs[i]), EncodeAll(elem, xs[i + 1..]));
    }

    /** All `>>` overloads; None when the bytes ran out on the way. */
    method Read(t: Ty, target: Obj) returns (r: Option<Obj>)
      requires WellFormed(t) && Fits(t, target)
      modifies buf
      ensures match Decode(t, target, old(buf.buf))
              case None => r.None? && buf.buf == []
              case Some(p) => r == Some(p.0) && buf.buf == p.1
      decreases t, 1
    {
      match t
      case Prim(k) =>
        var n := buf.OutputScalar(k);
        if n.None? { return None; }
        r := Some(ONum(n.value));
      case Str =>
        var s := buf.OutputString();
        if s.None? { return None; }
        r := Some(OText(s.value));
      case Coll(kind, elem) =>
        r := ReadItems(kind, elem, target);
      case Pair(fst, snd) =>
        var a := Read(fst, target.a);
        if a.None? { return None; }
        var b := Read(snd, target.b);
        if b.None? { return None; }
        r := Some(OPair(a.value, b.value));
      case Unit =>
        r := Some(ONothing);
    }

    method ReadItems(kind: Kind, elem: Ty, target: Obj) returns (r: Option<Obj>)
      requires WellFormed(Coll(kind, elem)) && Shape(kind, target)
      modifies buf
      ensures match Decode(Coll(kind, elem), target, old(buf.buf))
              case None => r.None? && buf.buf == []
              case Some(p) => r == Some(p.0) && buf.buf == p.1
      decreases elem, 5
    {
      CountAsScalar(buf.buf);
      var size := buf.OutputScalar(U64);
      if size.None? { return None; }
      r := ReadAll(kind, elem, size.value, Start(kind, target));
    }

    /** The loop over the claimed count. */
    method ReadAll(kind: Kind, elem: Ty, size: nat, start: Obj) returns (r: Option<Obj>)
      requires WellFormed(elem) && (MapLike(kind) ==> elem.Pair?) && Shape(kind, start)
      modifies buf
      ensures match DecodeAll(kind, elem, size, start, old(buf.buf))
              case None => r.None? && buf.buf == []
              case Some(p) => r == Some(p.0) && buf.buf == p.1
      decreases elem, 4
    {
      ghost var whole := DecodeAll(kind, elem, size, start, buf.buf);
      var acc := start;
      var i := 0;
      while i < size
        invariant i <= size && Shape(kind, acc)
        invariant DecodeAll(kind, elem, size - i, acc, buf.buf) == whole
      {
        var next := ReadInto(kind, elem, size - i, acc);
        if next.None? { return None; }
        acc := next.value;
        i := i + 1;
      }
      r := Some(acc);
    }

    /** One item is read and inserted. */
    method ReadInto(kind: Kind, elem: Ty, ghost n: nat, acc: Obj) returns (r: Option<Obj>)
      requires WellFormed(elem) && (MapLike(kind) ==> elem.Pair?) && Shape(kind, acc) && n > 0
      modifies buf
      ensures match r
              case None => DecodeAll(kind, elem, n, acc, old(buf.buf)).None? && buf.buf == []
              case Some(o) =>
                Shape(kind, o) && DecodeAll(kind, elem, n, acc, old(buf.buf)) == DecodeAll(kind, elem, n - 1, o, buf.buf)
      decreases elem, 3
    {
      NextOf(kind, elem, n, acc, buf.buf);
      var x := ReadItem(kind, elem);
      if x.None? { return None; }
      r := Some(Insert(kind, acc, x.value));
    }

    method ReadItem(kind: Kind, elem: Ty) returns (r: Option<Obj>)
      requires WellFormed(elem)
      modifies buf
      ensures match DecodeElem(kind, elem, old(buf.buf))
              case None => r.None? && buf.buf == []
              case Some(p) => r == Some(p.0) && buf.buf == p.1
      decreases elem, 2
    {
      if SetLike(kind) && !Leaf(elem) { return Some(Default(elem)); }
      r := Read(elem, Default(elem));
    }
  }

  lemma CountAsScalar(b: seq<byte>)
    ensures |b| < 8 ==> ReadScalar(U64, b).None?
    ensures |b| >= 8 ==> ReadScalar(U64, b) == Some((ONum(UnLE(b[..8])), b[8..]))
  {
  }

  // ---------------------------------------------------------------- a series of operations

  ghost predicate SeriesTyped(ts: seq<Ty>, vs: seq<Val>) {
    |ts| == |vs| && forall i :: 0 <= i < |ts| ==> WellFormed(ts[i]) && Supported(ts[i]) && HasType(ts[i], vs[i])
  }

  /** The bytes of `<< vs[0] << vs[1] ...`. */
  ghost function WriteSeries(ts: seq<Ty>, vs: seq<Val>): seq<byte>
    requires SeriesTyped(ts, vs)
  {
    if ts == [] then [] else Encode(ts[0], vs[0]) + WriteSeries(ts[1..], vs[1..])
  }

  /** `>>` for each type in turn, into fresh objects. */
  ghost function ReadSeries(ts: seq<Ty>, b: seq<byte>): Option<(seq<Obj>, seq<byte>)>
    requires forall i :: 0 <= i < |ts| ==> WellFormed(ts[i])
  {
    if ts == [] then Some(([], b))
    else
      var r := Decode(ts[0], Default(ts[0]), b);
      if r.None? then None
      else
        var q := ReadSeries(ts[1..], r.value.1);
        if q.None? then None else Some(([r.value.0] + q.value.0, q.value.1))
  }

  /** Values of any types written one after the other come back one after the other. */
  lemma {:induction false} SeriesRecovered(ts: seq<Ty>, vs: seq<Val>, rest: seq<byte>)
    requires SeriesTyped(ts, vs)
    ensures var q := ReadSeries(ts, WriteSeries(ts, vs) + rest);
            q.Some? && q.value.1 == rest && |q.value.0| == |vs| &&
            forall i :: 0 <= i < |vs| ==> q.value.0[i] == Meaning(ts[i], vs[i])
  {
    if ts == [] {
      assert [] + rest == rest;
    } else {
      var tail := WriteSeries(ts[1..], vs[1..]) + rest;
      assert WriteSeries(ts, vs) + rest == Encode(ts[0], vs[0]) + tail;
      RoundTrip(ts[0], Default(ts[0]), vs[0], tail);
      SeriesRecovered(ts[1..], vs[1..], rest);
    }
  }
}
