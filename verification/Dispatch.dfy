/** Remote call dispatch: a registered function is called on arguments read off one serializer
    and its result is written to another. */
module Dispatch {
  import opened Wrappers
  import opened Bytes
  import opened SerialModel
  import opened SerialProofs
  import opened SerializerClass

  /** A registered function: its argument tuple, its return type (None for void), its body. */
  datatype Signature = Signature(args: Ty, ret: Option<Ty>, body: Obj -> Val)

  ghost predicate Callable(sig: Signature) {
    WellFormed(sig.args) &&
    (sig.ret.Some? ==> WellFormed(sig.ret.value) &&
                       forall a :: Fits(sig.args, a) ==> HasType(sig.ret.value, sig.body(a)))
  }

  /** Threw: no such method.  Short: the argument bytes ran out and the source goes on with
      partly filled arguments. */
  datatype CallResult = Returned | Threw | Short

  class RpcProvider {
    /** None: the empty function that indexing with an unknown name leaves behind. */
    var methods: map<string, Option<Signature>>

    ghost predicate Valid()
      reads this
    {
      forall name <- methods :: methods[name].Some? ==> Callable(methods[name].value)
    }

    predicate Registered(name: string)
      reads this
    {
      name in methods && methods[name].Some?
    }

    constructor ()
      ensures Valid() && methods == map[]
    {
      methods := map[];
    }

    method RegisterMethod(name: string, sig: Signature)
      requires Valid() && Callable(sig)
      modifies this
      ensures Valid() && methods == old(methods)[name := Some(sig)]
    {
      methods := methods[name := Some(sig)];
    }

    method Run(name: string, arg: Serializer, ret: Serializer) returns (r: CallResult)
      requires Valid()
      modifies this, arg.buf, ret.buf
      ensures Valid()
      ensures r == Threw <==> !old(Registered(name))
      ensures methods == if name in old(methods) then old(methods) else old(methods)[name := None]
      ensures r == Threw ==> arg.buf.buf == old(arg.buf.buf) && ret.buf.buf == old(ret.buf.buf)
      ensures old(Registered(name)) ==>
                var sig := old(methods)[name].value;
                match Decode(sig.args, Default(sig.args), old(arg.buf.buf))
                case None => r == Short && arg.buf.buf == [] && (arg.buf != ret.buf ==> ret.buf.buf == old(ret.buf.buf))
                case Some(p) =>
                  r == Returned && (arg.buf != ret.buf ==> arg.buf.buf == p.1) &&
                  match sig.ret
                  case None => if arg.buf == ret.buf then arg.buf.buf == p.1 else ret.buf.buf == old(ret.buf.buf)
                  case Some(t) =>
                    ret.buf.buf == (if arg.buf == ret.buf then p.1 else old(ret.buf.buf)) + Encode(t, sig.body(p.0))
    {
      if name !in methods { methods := methods[name := None]; }
      var fun := methods[name];
      if fun.None? { return Threw; }
      r := RunMethod(fun.value, arg, ret);
    }

    static method RunMethod(sig: Signature, arg: Serializer, ret: Serializer) returns (r: CallResult)
      requires Callable(sig)
      modifies arg.buf, ret.buf
      ensures r != Threw
      ensures match Decode(sig.args, Default(sig.args), old(arg.buf.buf))
              case None => r == Short && arg.buf.buf == [] && (arg.buf != ret.buf ==> ret.buf.buf == old(ret.buf.buf))
              case Some(p) =>
                r == Returned && (arg.buf != ret.buf ==> arg.buf.buf == p.1) &&
                match sig.ret
                case None => if arg.buf == ret.buf then arg.buf.buf == p.1 else ret.buf.buf == old(ret.buf.buf)
                case Some(t) =>
                  ret.buf.buf == (if arg.buf == ret.buf then p.1 else old(ret.buf.buf)) + Encode(t, sig.body(p.0))
    {
      var args := arg.Read(sig.args, Default(sig.args));
      if args.None? { return Short; }
      var rt := sig.body(args.value);
      if sig.ret.Some? {
        ret.Write(sig.ret.value, rt);
      }
      r := Returned;
    }
  }

  /** End to end, in terms of what `Run` is proved to do: the call consumes exactly the encoded
      arguments, and the caller reads back what a local call returns. */
  lemma RemoteCall(sig: Signature, v: Val, rest: seq<byte>, tail: seq<byte>)
    requires Callable(sig) && Supported(sig.args) && HasType(sig.args, v)
    ensures Decode(sig.args, Default(sig.args), Encode(sig.args, v) + rest) == Some((Meaning(sig.args, v), rest))
    ensures sig.ret.Some? && Supported(sig.ret.value) ==>
              var local := sig.body(Meaning(sig.args, v));
              Decode(sig.ret.value, Default(sig.ret.value), Encode(sig.ret.value, local) + tail)
              == Some((Meaning(sig.ret.value, local), tail))
  {
    RoundTrip(sig.args, Default(sig.args), v, rest);
    if sig.ret.Some? && Supported(sig.ret.value) {
      RoundTrip(sig.ret.value, Default(sig.ret.value), sig.body(Meaning(sig.args, v)), tail);
    }
  }
}
