/** The error-reporting decoder against the lenient one: what a strict success fixes,
    what it consumed, and for which schemas the two accept the same inputs. */
module Decoders {
  import opened Wire
  import opened Schema
  import opened Codec
  import opened CodecTheorems

  // ---------------------------------------------------------------- re-serialising

  /** Which bytes of a serialisation carry a bool. */
  function BoolsOfMessage(m: Message): seq<bool>
    decreases m, |m.spec.fields| + 1
  {
    BoolsOfFields(m, 0)
  }

  function BoolsOfFields(m: Message, i: nat): seq<bool>
    requires i <= |m.spec.fields|
    decreases m, |m.spec.fields| - i
  {
    if i == |m.spec.fields| || m.data.NilData? || m.spec.fields[i].name !in m.data.fields then []
    else BoolsOfField(m.spec.fields[i], m.data.fields[m.spec.fields[i].name]) + BoolsOfFields(m, i + 1)
  }

  function BoolsOfField(f: Field, v: Value): seq<bool>
    decreases v, 1
  {
    if f.isArray && v.VSlice? then
      (if f.arrayLen < 0 then [false, false, false, false] else []) + BoolsOfItems(v.items, 0)
    else
      BoolsOfElem(v)
  }

  function BoolsOfItems(items: seq<Value>, i: nat): seq<bool>
    requires i <= |items|
    decreases items, |items| - i
  {
    if i == |items| then [] else BoolsOfElem(items[i]) + BoolsOfItems(items, i + 1)
  }

  function BoolsOfElem(v: Value): seq<bool>
    decreases v, 0
  {
    match v
    case VBool(_) => [true]
    case VMsg(m) => BoolsOfMessage(m)
    case VInt(k, _) => seq(k.Width(), _ => false)
    case VStr(s) => seq(4 + |s|, _ => false)
    case VFloat32(_) => seq(4, _ => false)
    case _ => seq(8, _ => false)
  }

  /** `out` is `consumed` with every non-zero bool byte replaced by 1, and no other change. */
  ghost predicate Canonical(bools: seq<bool>, consumed: seq<Byte>, out: seq<Byte>)
  {
    && |bools| == |consumed| == |out|
    && forall j | 0 <= j < |out| ::
         out[j] == if bools[j] && consumed[j] != 0 then 1 else consumed[j]
  }

  lemma CanonicalConcat(b1: seq<bool>, c1: seq<Byte>, o1: seq<Byte>, b2: seq<bool>, c2: seq<Byte>, o2: seq<Byte>)
    requires Canonical(b1, c1, o1) && Canonical(b2, c2, o2)
    ensures Canonical(b1 + b2, c1 + c2, o1 + o2)
  {
  }

  function Consumed(bs: seq<Byte>, rest: seq<Byte>): seq<Byte>
    requires |rest| <= |bs|
  {
    bs[..|bs| - |rest|]
  }

  /** What a strict success on `bs` tells about one step of the decoder. */
  ghost predicate Settled<T>(bs: seq<Byte>, ext: seq<Byte>, strict: Got<T>, lenient: Got<T>, extended: Got<T>,
                             bools: seq<bool>, w: Written)
    requires strict.Ok?
  {
    && lenient == strict
    && extended == Ok(strict.val, strict.rest + ext)
    && w.st.Fine?
    && |strict.rest| <= |bs|
    && bs == Consumed(bs, strict.rest) + strict.rest
    && Canonical(bools, Consumed(bs, strict.rest), w.out)
  }

  lemma ConsumedConcat(bs: seq<Byte>, mid: seq<Byte>, rest: seq<Byte>)
    requires |rest| <= |mid| <= |bs|
    requires bs == Consumed(bs, mid) + mid && mid == Consumed(mid, rest) + rest
    ensures bs == Consumed(bs, rest) + rest
    ensures Consumed(bs, rest) == Consumed(bs, mid) + Consumed(mid, rest)
  {
  }

  lemma {:induction false} StrictMessage(ctx: Context, name: string, bs: seq<Byte>, ext: seq<Byte>)
    requires WellFormed(ctx) && name in ctx.specs && DeMessage(ctx, name, Strict, bs).Ok?
    ensures var r := DeMessage(ctx, name, Strict, bs);
            Settled(bs, ext, r, DeMessage(ctx, name, Lenient, bs), DeMessage(ctx, name, Strict, bs + ext),
                    BoolsOfMessage(r.val), SerMessage(r.val))
    decreases ctx.rank[name], |ctx.specs[name].fields| + 1
  {
    StrictFields(ctx, name, 0, bs, ext, map[]);
  }

  lemma {:induction false} KeepsEarlier(ctx: Context, name: string, mode: Mode, i: nat, bs: seq<Byte>,
                                        acc: map<string, Value>, k: string)
    requires WellFormed(ctx) && name in ctx.specs && i <= |ctx.specs[name].fields|
    requires k in acc && forall f <- ctx.specs[name].fields[i..] :: f.name != k
    requires DeFields(ctx, name, mode, i, bs, acc).Ok?
    ensures var data := DeFields(ctx, name, mode, i, bs, acc).val; k in data && data[k] == acc[k]
    decreases |ctx.specs[name].fields| - i
  {
    hide DeField, Closed, DistinctNames;
    var fields := ctx.specs[name].fields;
    if i < |fields| {
      assert fields[i..][0] == fields[i] && fields[i..][1..] == fields[i + 1..];
      var r := DeField(ctx, name, mode, fields[i], bs);
      KeepsEarlier(ctx, name, mode, i + 1, r.rest, acc[fields[i].name := r.val], k);
    }
  }

  lemma {:induction false} StrictFields(ctx: Context, name: string, i: nat, bs: seq<Byte>, ext: seq<Byte>,
                                        acc: map<string, Value>)
    requires WellFormed(ctx) && name in ctx.specs && i <= |ctx.specs[name].fields|
    requires DeFields(ctx, name, Strict, i, bs, acc).Ok?
    ensures var r := DeFields(ctx, name, Strict, i, bs, acc);
            var m := Message(ctx.specs[name], Data(r.val));
            Settled(bs, ext, r, DeFields(ctx, name, Lenient, i, bs, acc), DeFields(ctx, name, Strict, i, bs + ext, acc),
                    BoolsOfFields(m, i), SerFields(m, i))
    decreases ctx.rank[name], |ctx.specs[name].fields| - i
  {
    hide DeField, SerField, BoolsOfField, Canonical, Consumed, Acyclic, Closed, DistinctNames;
    var fields := ctx.specs[name].fields;
    var r := DeFields(ctx, name, Strict, i, bs, acc);
    if i == |fields| {
      NothingConsumed(bs);
    } else {
      var f := fields[i];
      var head := DeField(ctx, name, Strict, f, bs);
      var next := acc[f.name := head.val];
      StrictField(ctx, name, f, bs, ext);
      StrictFields(ctx, name, i + 1, head.rest, ext, next);
      LaterNamesDiffer(ctx, name, i);
      KeepsEarlier(ctx, name, Strict, i + 1, head.rest, next, f.name);
      ConsumedConcat(bs, head.rest, r.rest);
      var m := Message(ctx.specs[name], Data(r.val));
      CanonicalConcat(BoolsOfField(f, head.val), Consumed(bs, head.rest), SerField(f, head.val).out,
                      BoolsOfFields(m, i + 1), Consumed(head.rest, r.rest), SerFields(m, i + 1).out);
    }
  }

  lemma NothingConsumed(bs: seq<Byte>)
    ensures Consumed(bs, bs) == [] && bs == Consumed(bs, bs) + bs && Canonical([], [], [])
  {
  }

  lemma LaterNamesDiffer(ctx: Context, name: string, i: nat)
    requires DistinctNames(ctx) && name in ctx.specs && i < |ctx.specs[name].fields|
    ensures forall f <- ctx.specs[name].fields[i + 1..] :: f.name != ctx.specs[name].fields[i].name
  {
  }

  lemma {:induction false} StrictField(ctx: Context, name: string, f: Field, bs: seq<Byte>, ext: seq<Byte>)
    requires WellFormed(ctx) && name in ctx.specs && f in ctx.specs[name].fields
    requires DeField(ctx, name, Strict, f, bs).Ok?
    ensures var r := DeField(ctx, name, Strict, f, bs);
            Settled(bs, ext, r, DeField(ctx, name, Lenient, f, bs), DeField(ctx, name, Strict, f, bs + ext),
                    BoolsOfField(f, r.val), SerField(f, r.val))
    decreases ctx.rank[name], 0, 2
  {
    hide DeElem, SerElem, DeItems, SerItems, Canonical, Consumed, Word32, UnWord32;
    assert f.Shaped();
    if !f.isArray {
      StrictElem(ctx, name, f, bs, ext);
      ElemSound(ctx, name, Strict, f, bs);
    } else {
      var n, mid := f.arrayLen, bs;
      if f.arrayLen < 0 {
        StrictWord(bs, ext);
        n, mid := TakeWord(bs).val, TakeWord(bs).rest;
      } else {
        NothingConsumed(bs);
      }
      var r := DeField(ctx, name, Strict, f, bs);
      StrictItems(ctx, name, f, n, mid, ext, []);
      ConsumedConcat(bs, mid, r.rest);
      CanonicalConcat(if f.arrayLen < 0 then [false, false, false, false] else [], Consumed(bs, mid),
                      SerLength(f, n).out, BoolsOfItems(r.val.items, 0), Consumed(mid, r.rest),
                      SerItems(f, r.val.items, 0, n).out);
    }
  }

  lemma StrictWord(bs: seq<Byte>, ext: seq<Byte>)
    requires TakeWord(bs).Ok?
    ensures var r := TakeWord(bs);
            && TakeWord(bs + ext) == Ok(r.val, r.rest + ext)
            && |r.rest| <= |bs| && bs == Consumed(bs, r.rest) + r.rest
            && Canonical([false, false, false, false], Consumed(bs, r.rest), Word32(r.val))
  {
    TakeMore(4, bs, ext);
    UnWord32RoundTrip(bs[..4]);
  }

  lemma TakeMore(n: nat, bs: seq<Byte>, ext: seq<Byte>)
    requires n <= |bs|
    ensures Take(n, bs + ext) == Ok(bs[..n], bs[n..] + ext)
    ensures bs == bs[..n] + bs[n..]
  {
    assert (bs + ext)[..n] == bs[..n] && (bs + ext)[n..] == bs[n..] + ext;
  }

  lemma {:induction false} StrictItems(ctx: Context, name: string, f: Field, n: nat, bs: seq<Byte>, ext: seq<Byte>,
                                       acc: seq<Value>)
    requires WellFormed(ctx) && name in ctx.specs && f in ctx.specs[name].fields
    requires DeItems(ctx, name, Strict, f, n, bs, acc).Ok?
    ensures var r := DeItems(ctx, name, Strict, f, n, bs, acc);
            && r.val.VSlice? && |r.val.items| == |acc| + n && r.val.items[..|acc|] == acc
            && Settled(bs, ext, r, DeItems(ctx, name, Lenient, f, n, bs, acc),
                       DeItems(ctx, name, Strict, f, n, bs + ext, acc),
                       BoolsOfItems(r.val.items, |acc|), SerItems(f, r.val.items, |acc|, |acc| + n))
    decreases ctx.rank[name], 0, 1, n
  {
    hide DeElem, SerElem, BoolsOfElem, Canonical, Consumed, Acyclic, Closed, DistinctNames;
    var r := DeItems(ctx, name, Strict, f, n, bs, acc);
    if n == 0 {
      NothingConsumed(bs);
    } else {
      var head := DeElem(ctx, name, Strict, f, bs);
      StrictElem(ctx, name, f, bs, ext);
      StrictItems(ctx, name, f, n - 1, head.rest, ext, acc + [head.val]);
      ConsumedConcat(bs, head.rest, r.rest);
      assert r.val.items[..|acc| + 1] == acc + [head.val];
      assert r.val.items[|acc|] == head.val;
      CanonicalConcat(BoolsOfElem(head.val), Consumed(bs, head.rest), SerElem(f, head.val).out,
                      BoolsOfItems(r.val.items, |acc| + 1), Consumed(head.rest, r.rest),
                      SerItems(f, r.val.items, |acc| + 1, |acc| + n).out);
    }
  }

  lemma {:induction false} StrictElem(ctx: Context, name: string, f: Field, bs: seq<Byte>, ext: seq<Byte>)
    requires WellFormed(ctx) && name in ctx.specs && f in ctx.specs[name].fields
    requires DeElem(ctx, name, Strict, f, bs).Ok?
    ensures var r := DeElem(ctx, name, Strict, f, bs);
            Settled(bs, ext, r, DeElem(ctx, name, Lenient, f, bs), DeElem(ctx, name, Strict, f, bs + ext),
                    BoolsOfElem(r.val), SerElem(f, r.val))
    decreases ctx.rank[name], 0, 0
  {
    hide ReadPrim, SerPrim, SerMessage, DeMessage, BoolsOfMessage, Canonical, Consumed;
    match BuiltinOf(f.typ)
    case Some(b) => StrictPrim(b, bs, ext);
    case None =>
      ZeroMessageTyped(ctx, Ref(ctx, f));
      StrictMessage(ctx, Ref(ctx, f), bs, ext);
      DecodeSound(ctx, Ref(ctx, f), Strict, bs);
  }

  ghost predicate PrimSettled(b: Builtin, bs: seq<Byte>, ext: seq<Byte>)
  {
    var r := ReadPrim(b, bs);
    r.Ok? ==> Settled(bs, ext, r, r, ReadPrim(b, bs + ext), BoolsOfElem(r.val), SerPrim(b, r.val))
  }

  lemma StrictPrim(b: Builtin, bs: seq<Byte>, ext: seq<Byte>)
    ensures PrimSettled(b, bs, ext)
  {
    match b
    case BInt(k) => StrictInt(k, bs, ext);
    case BString => StrictString(bs, ext);
    case _ => StrictFixed(b, bs, ext);
  }

  lemma StrictFixed(b: Builtin, bs: seq<Byte>, ext: seq<Byte>)
    requires !b.BInt? && !b.BString?
    ensures PrimSettled(b, bs, ext)
  {
    hide LE, UnLE, Word32, UnWord32;
    if ReadPrim(b, bs).Ok? {
      match b
      case BBool => TakeMore(1, bs, ext);
      case BFloat32 => StrictWord(bs, ext);
      case BFloat64 =>
        TakeMore(8, bs, ext);
        UnWord32RoundTrip(bs[..8][..4]);
        UnWord32RoundTrip(bs[..8][4..]);
      case BTime => StrictPair(bs, ext);
      case BDuration => StrictPair(bs, ext);
    }
  }

  lemma StrictInt(k: IntKind, bs: seq<Byte>, ext: seq<Byte>)
    ensures PrimSettled(BInt(k), bs, ext)
  {
    hide EncodeInt, DecodeInt, Modulus;
    if k.Width() <= |bs| {
      TakeMore(k.Width(), bs, ext);
      IntBytesRoundTrip(k, bs[..k.Width()]);
    }
  }

  lemma StrictString(bs: seq<Byte>, ext: seq<Byte>)
    ensures PrimSettled(BString, bs, ext)
  {
    hide Word32, UnWord32;
    var r := ReadPrim(BString, bs);
    if r.Ok? {
      StrictWord(bs, ext);
      var n, mid := TakeWord(bs).val, TakeWord(bs).rest;
      TakeMore(n, mid, ext);
      assert r == Ok(VStr(mid[..n]), mid[n..]);
      ConsumedConcat(bs, mid, mid[n..]);
    }
  }

  lemma StrictPair(bs: seq<Byte>, ext: seq<Byte>)
    requires ReadPair(bs).Ok?
    ensures var r := ReadPair(bs);
            && ReadPair(bs + ext) == Ok(r.val, r.rest + ext)
            && |r.rest| <= |bs| && bs == Consumed(bs, r.rest) + r.rest
            && Consumed(bs, r.rest) == Word32(r.val.0) + Word32(r.val.1)
  {
    hide Word32, UnWord32;
    var mid := TakeWord(bs).rest;
    StrictWord(bs, ext);
    StrictWord(mid, ext);
    ConsumedConcat(bs, mid, TakeWord(mid).rest);
  }

  // ---------------------------------------------------------------- truncation

  /** The strict decoder accepts no strict prefix of an input it consumes entirely. */
  lemma TruncationRejected(ctx: Context, name: string, bs: seq<Byte>, k: nat)
    requires WellFormed(ctx) && name in ctx.specs
    requires DeMessage(ctx, name, Strict, bs).Ok? && DeMessage(ctx, name, Strict, bs).rest == []
    requires k < |bs|
    ensures DeMessage(ctx, name, Strict, bs[..k]).Err?
  {
    hide DeMessage, SerMessage, BoolsOfMessage, WellTyped;
    DecodeSound(ctx, name, Strict, bs[..k]);
    assert bs[..k] + bs[k..] == bs;
    if DeMessage(ctx, name, Strict, bs[..k]).Ok? {
      StrictMessage(ctx, name, bs[..k], bs[k..]);
    }
  }

  /** In particular no strict prefix of a serialisation decodes. */
  lemma SerializationTruncated(ctx: Context, name: string, m: Message, k: nat)
    requires WellFormed(ctx) && name in ctx.specs && WellTyped(ctx, name, m) && k < |SerMessage(m).out|
    ensures DeMessage(ctx, name, Strict, SerMessage(m).out[..k]).Err?
  {
    hide DeMessage, SerMessage, WellTyped;
    RoundTrip(ctx, name, Strict, m, []);
    assert SerMessage(m).out + [] == SerMessage(m).out;
    TruncationRejected(ctx, name, SerMessage(m).out, k);
  }
}
