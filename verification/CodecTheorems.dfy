/** Round trips, decode soundness and zero values of the interpreting codec, in both read modes. */
module CodecTheorems {
  import opened Wire
  import opened Schema
  import opened Codec

  // ---------------------------------------------------------------- well-typed messages

  ghost predicate PrimTyped(b: Builtin, v: Value)
  {
    match b
    case BBool => v.VBool?
    case BInt(k) => v.VInt? && v.kind == k && InRange(k, v.n)
    case BFloat32 => v.VFloat32?
    case BFloat64 => v.VFloat64?
    case BString => v.VStr? && |v.s| < TWO_TO_32
    case BTime => v.VTime?
    case BDuration => v.VDuration?
  }

  function FieldNames(fields: seq<Field>): set<string>
  {
    set f <- fields :: f.name
  }

  lemma FieldNamesNext(fields: seq<Field>, i: nat)
    requires i < |fields|
    ensures FieldNames(fields[..i + 1]) == FieldNames(fields[..i]) + {fields[i].name}
    ensures fields[i].name in FieldNames(fields)
  {
  }

  ghost predicate WellTyped(ctx: Context, name: string, m: Message)
    requires WellFormed(ctx) && name in ctx.specs
    decreases ctx.rank[name], 2
  {
    && m.spec == ctx.specs[name]
    && m.data.Data?
    && m.data.fields.Keys == FieldNames(m.spec.fields)
    && forall f <- m.spec.fields :: FieldTyped(ctx, name, f, m.data.fields[f.name])
  }

  ghost predicate FieldTyped(ctx: Context, name: string, f: Field, v: Value)
    requires WellFormed(ctx) && name in ctx.specs && f in ctx.specs[name].fields
    decreases ctx.rank[name], 1
  {
    if f.isArray then
      && v.VSlice?
      && v.elem == SliceElem(f)
      && (if f.arrayLen < 0 then |v.items| < TWO_TO_32 else |v.items| == f.arrayLen)
      && forall x <- v.items :: ElemTyped(ctx, name, f, x)
    else
      ElemTyped(ctx, name, f, v)
  }

  ghost predicate ElemTyped(ctx: Context, name: string, f: Field, v: Value)
    requires WellFormed(ctx) && name in ctx.specs && f in ctx.specs[name].fields
    decreases ctx.rank[name], 0
  {
    match BuiltinOf(f.typ)
    case Some(b) => PrimTyped(b, v)
    case None => v.VMsg? && WellTyped(ctx, Ref(ctx, f), v.m)
  }

  /** What the field loops keep: the first `i` fields are filled in, each well typed. */
  ghost predicate Filled(ctx: Context, name: string, i: nat, acc: map<string, Value>)
    requires WellFormed(ctx) && name in ctx.specs && i <= |ctx.specs[name].fields|
  {
    var fields := ctx.specs[name].fields;
    && acc.Keys == FieldNames(fields[..i])
    && forall j | 0 <= j < i :: FieldTyped(ctx, name, fields[j], acc[fields[j].name])
  }

  lemma FillNext(ctx: Context, name: string, i: nat, acc: map<string, Value>, v: Value)
    requires WellFormed(ctx) && name in ctx.specs && i < |ctx.specs[name].fields|
    requires Filled(ctx, name, i, acc) && FieldTyped(ctx, name, ctx.specs[name].fields[i], v)
    ensures Filled(ctx, name, i + 1, acc[ctx.specs[name].fields[i].name := v])
  {
    hide FieldTyped, FieldNames;
    FieldNamesNext(ctx.specs[name].fields, i);
  }

  lemma FilledAll(ctx: Context, name: string, acc: map<string, Value>)
    requires WellFormed(ctx) && name in ctx.specs && Filled(ctx, name, |ctx.specs[name].fields|, acc)
    ensures WellTyped(ctx, name, Message(ctx.specs[name], Data(acc)))
  {
    var fields := ctx.specs[name].fields;
    assert fields[..|fields|] == fields;
  }

  // ---------------------------------------------------------------- zero values

  /** In a closed context NewMessage always yields a message, and a well-typed one. */
  lemma {:induction false} ZeroMessageTyped(ctx: Context, name: string)
    requires WellFormed(ctx) && name in ctx.specs
    ensures ZeroMessage(ctx, name).Made? && WellTyped(ctx, name, ZeroMessage(ctx, name).value)
    decreases ctx.rank[name], |ctx.specs[name].fields| + 1
  {
    ZeroFieldsTyped(ctx, name, 0, map[]);
    FilledAll(ctx, name, ZeroFields(ctx, name, 0, map[]).value);
  }

  lemma {:induction false} ZeroFieldsTyped(ctx: Context, name: string, i: nat, acc: map<string, Value>)
    requires WellFormed(ctx) && name in ctx.specs && i <= |ctx.specs[name].fields|
    requires Filled(ctx, name, i, acc)
    ensures var z := ZeroFields(ctx, name, i, acc);
            z.Made? && Filled(ctx, name, |ctx.specs[name].fields|, z.value)
    decreases ctx.rank[name], |ctx.specs[name].fields| - i
  {
    var fields := ctx.specs[name].fields;
    if i < |fields| {
      ZeroFieldTyped(ctx, name, fields[i]);
      var v := ZeroField(ctx, name, fields[i]).value;
      FillNext(ctx, name, i, acc, v);
      var next := acc[fields[i].name := v];
      assert ZeroFields(ctx, name, i, acc) == ZeroFields(ctx, name, i + 1, next);
      ZeroFieldsTyped(ctx, name, i + 1, next);
    }
  }

  lemma {:induction false} ZeroFieldTyped(ctx: Context, name: string, f: Field)
    requires WellFormed(ctx) && name in ctx.specs && f in ctx.specs[name].fields
    ensures ZeroField(ctx, name, f).Made? && FieldTyped(ctx, name, f, ZeroField(ctx, name, f).value)
    decreases ctx.rank[name], 0, 1
  {
    assert f.Shaped();
    ZeroElemTyped(ctx, name, f);
  }

  lemma {:induction false} ZeroElemTyped(ctx: Context, name: string, f: Field)
    requires WellFormed(ctx) && name in ctx.specs && f in ctx.specs[name].fields
    ensures ZeroElem(ctx, name, f).Made? && ElemTyped(ctx, name, f, ZeroElem(ctx, name, f).value)
    decreases ctx.rank[name], 0, 0
  {
    if !f.IsBuiltin() {
      ZeroMessageTyped(ctx, Ref(ctx, f));
    }
  }

  // ---------------------------------------------------------------- round trip

  /** Serialising a well-typed message never fails, and either decoder reads it back from in
      front of any bytes, leaving exactly those bytes. */
  lemma {:induction false} RoundTrip(ctx: Context, name: string, mode: Mode, m: Message, rest: seq<Byte>)
    requires WellFormed(ctx) && name in ctx.specs && WellTyped(ctx, name, m)
    ensures SerMessage(m).st.Fine?
    ensures DeMessage(ctx, name, mode, SerMessage(m).out + rest) == Ok(m, rest)
    decreases ctx.rank[name], |ctx.specs[name].fields| + 1
  {
    RoundTripFields(ctx, name, mode, m, 0, rest, map[]);
  }

  lemma {:induction false} RoundTripFields(ctx: Context, name: string, mode: Mode, m: Message, i: nat,
                                           rest: seq<Byte>, acc: map<string, Value>)
    requires WellFormed(ctx) && name in ctx.specs && WellTyped(ctx, name, m) && i <= |m.spec.fields|
    requires acc.Keys == FieldNames(m.spec.fields[..i])
    requires forall k <- acc :: k in m.data.fields && acc[k] == m.data.fields[k]
    ensures SerFields(m, i).st.Fine?
    ensures DeFields(ctx, name, mode, i, SerFields(m, i).out + rest, acc) == Ok(m.data.fields, rest)
    decreases ctx.rank[name], |ctx.specs[name].fields| - i
  {
    hide FieldTyped, FieldNames, SerField, DeField, Acyclic, Closed, DistinctNames;
    var fields := m.spec.fields;
    if i == |fields| {
      assert fields[..i] == fields;
      assert acc == m.data.fields;
      assert SerFields(m, i).out + rest == rest;
    } else {
      FieldNamesNext(fields, i);
      var f, v := fields[i], m.data.fields[fields[i].name];
      RoundTripFields(ctx, name, mode, m, i + 1, rest, acc[f.name := v]);
      RoundTripField(ctx, name, mode, f, v, SerFields(m, i + 1).out + rest);
      assert SerFields(m, i).out + rest == SerField(f, v).out + (SerFields(m, i + 1).out + rest);
    }
  }

  lemma {:induction false} RoundTripField(ctx: Context, name: string, mode: Mode, f: Field, v: Value, rest: seq<Byte>)
    requires WellFormed(ctx) && name in ctx.specs && f in ctx.specs[name].fields && FieldTyped(ctx, name, f, v)
    ensures SerField(f, v).st.Fine?
    ensures DeField(ctx, name, mode, f, SerField(f, v).out + rest) == Ok(v, rest)
    decreases ctx.rank[name], 0, 2
  {
    hide ElemTyped, SerItems, SerElem, DeElem, DeItems;
    assert f.Shaped();
    if !f.isArray {
      RoundTripElem(ctx, name, mode, f, v, rest);
    } else {
      var size := WireLength(f, |v.items|);
      assert size == |v.items|;
      RoundTripItems(ctx, name, mode, f, v.items, 0, rest);
      var body := SerItems(f, v.items, 0, size).out;
      if f.arrayLen < 0 {
        TakeWordAppend(size, body + rest);
        assert SerField(f, v).out + rest == Word32(size) + (body + rest);
      } else {
        assert SerField(f, v).out + rest == body + rest;
      }
    }
  }

  lemma {:induction false} RoundTripItems(ctx: Context, name: string, mode: Mode, f: Field, items: seq<Value>,
                                          i: nat, rest: seq<Byte>)
    requires WellFormed(ctx) && name in ctx.specs && f in ctx.specs[name].fields && i <= |items|
    requires forall x <- items :: ElemTyped(ctx, name, f, x)
    ensures var w := SerItems(f, items, i, |items|);
            && w.st.Fine?
            && DeItems(ctx, name, mode, f, |items| - i, w.out + rest, items[..i]) ==
               Ok(VSlice(SliceElem(f), items), rest)
    decreases ctx.rank[name], 0, 1, |items| - i
  {
    hide ElemTyped, SerElem, DeElem;
    if i == |items| {
      assert items[..i] == items;
    } else {
      RoundTripItems(ctx, name, mode, f, items, i + 1, rest);
      var tail := SerItems(f, items, i + 1, |items|).out;
      RoundTripElem(ctx, name, mode, f, items[i], tail + rest);
      assert SerElem(f, items[i]).out + tail + rest == SerElem(f, items[i]).out + (tail + rest);
      assert items[..i] + [items[i]] == items[..i + 1];
    }
  }

  lemma {:induction false} RoundTripElem(ctx: Context, name: string, mode: Mode, f: Field, v: Value, rest: seq<Byte>)
    requires WellFormed(ctx) && name in ctx.specs && f in ctx.specs[name].fields && ElemTyped(ctx, name, f, v)
    ensures SerElem(f, v).st.Fine?
    ensures DeElem(ctx, name, mode, f, SerElem(f, v).out + rest) == Ok(v, rest)
    decreases ctx.rank[name], 0, 0
  {
    hide SerPrim, ReadPrim, SerMessage, DeMessage;
    match BuiltinOf(f.typ)
    case Some(b) => RoundTripPrim(b, v, rest);
    case None =>
      ZeroMessageTyped(ctx, Ref(ctx, f));
      RoundTrip(ctx, Ref(ctx, f), mode, v.m, rest);
  }

  lemma RoundTripPrim(b: Builtin, v: Value, rest: seq<Byte>)
    requires PrimTyped(b, v)
    ensures SerPrim(b, v).st.Fine?
    ensures ReadPrim(b, SerPrim(b, v).out + rest) == Ok(v, rest)
  {
    hide LE, UnLE, EncodeInt, DecodeInt, Word32, UnWord32;
    var out := SerPrim(b, v).out;
    match v
    case VStr(s) =>
      assert out + rest == Word32(|s|) + (s + rest);
      TakeWordAppend(|s|, s + rest);
      TakeAppend(s, rest);
    case VTime(x, y) => PairAppend(x, y, rest);
    case VDuration(x, y) => PairAppend(x, y, rest);
    case VFloat64(x, y) =>
      TakeAppend(out, rest);
      assert out[..4] == Word32(x) && out[4..] == Word32(y);
      Word32RoundTrip(x);
      Word32RoundTrip(y);
    case VFloat32(x) => TakeWordAppend(x, rest);
    case VInt(k, n) =>
      TakeAppend(out, rest);
      IntRoundTrip(k, n);
    case _ => TakeAppend(out, rest);
  }

  lemma PairAppend(x: Word, y: Word, rest: seq<Byte>)
    ensures ReadPair(Word32(x) + Word32(y) + rest) == Ok((x, y), rest)
  {
    assert Word32(x) + Word32(y) + rest == Word32(x) + (Word32(y) + rest);
    TakeWordAppend(x, Word32(y) + rest);
    TakeWordAppend(y, rest);
  }

  /** Serialisations of one schema are prefix-free, hence injective. */
  lemma PrefixFree(ctx: Context, name: string, a: Message, b: Message, rest: seq<Byte>)
    requires WellFormed(ctx) && name in ctx.specs && WellTyped(ctx, name, a) && WellTyped(ctx, name, b)
    requires SerMessage(a).out + rest == SerMessage(b).out
    ensures a == b && rest == []
  {
    hide WellTyped, WellFormed, SerMessage, DeMessage;
    RoundTrip(ctx, name, Strict, a, rest);
    RoundTrip(ctx, name, Strict, b, []);
    assert SerMessage(b).out + [] == SerMessage(b).out;
  }

  // ---------------------------------------------------------------- soundness, in either mode

  /** Whatever is decoded has exactly the schema's fields, each well typed; nothing panics. */
  lemma {:induction false} DecodeSound(ctx: Context, name: string, mode: Mode, bs: seq<Byte>)
    requires WellFormed(ctx) && name in ctx.specs
    ensures var r := DeMessage(ctx, name, mode, bs);
            !r.Crash? && (r.Ok? ==> WellTyped(ctx, name, r.val))
    decreases ctx.rank[name], |ctx.specs[name].fields| + 1
  {
    hide FieldTyped;
    FieldsSound(ctx, name, mode, 0, bs, map[]);
    var r := DeFields(ctx, name, mode, 0, bs, map[]);
    if r.Ok? {
      FilledAll(ctx, name, r.val);
    }
  }

  lemma {:induction false} FieldsSound(ctx: Context, name: string, mode: Mode, i: nat, bs: seq<Byte>,
                                       acc: map<string, Value>)
    requires WellFormed(ctx) && name in ctx.specs && i <= |ctx.specs[name].fields| && Filled(ctx, name, i, acc)
    ensures var r := DeFields(ctx, name, mode, i, bs, acc);
            !r.Crash? && (r.Ok? ==> Filled(ctx, name, |ctx.specs[name].fields|, r.val))
    decreases ctx.rank[name], |ctx.specs[name].fields| - i
  {
    hide FieldTyped, DeField, Acyclic, Closed, DistinctNames, Filled;
    var fields := ctx.specs[name].fields;
    if i < |fields| {
      FieldSound(ctx, name, mode, fields[i], bs);
      match DeField(ctx, name, mode, fields[i], bs)
      case Ok(v, rest) =>
        FillNext(ctx, name, i, acc, v);
        FieldsSound(ctx, name, mode, i + 1, rest, acc[fields[i].name := v]);
      case Err(_) =>
    }
  }

  lemma {:induction false} FieldSound(ctx: Context, name: string, mode: Mode, f: Field, bs: seq<Byte>)
    requires WellFormed(ctx) && name in ctx.specs && f in ctx.specs[name].fields
    ensures var r := DeField(ctx, name, mode, f, bs);
            !r.Crash? && (r.Ok? ==> FieldTyped(ctx, name, f, r.val))
    decreases ctx.rank[name], 0, 2
  {
    hide ElemTyped, DeElem, DeItems;
    assert f.Shaped();
    if !f.isArray {
      ElemSound(ctx, name, mode, f, bs);
    } else if f.arrayLen < 0 {
      match TakeWord(bs)
      case Ok(size, rest) => ItemsSound(ctx, name, mode, f, size, rest, []);
      case Err(_) =>
    } else {
      ItemsSound(ctx, name, mode, f, f.arrayLen, bs, []);
    }
  }

  lemma {:induction false} ItemsSound(ctx: Context, name: string, mode: Mode, f: Field, n: nat, bs: seq<Byte>,
                                      acc: seq<Value>)
    requires WellFormed(ctx) && name in ctx.specs && f in ctx.specs[name].fields
    requires forall x <- acc :: ElemTyped(ctx, name, f, x)
    ensures var r := DeItems(ctx, name, mode, f, n, bs, acc);
            && !r.Crash?
            && (r.Ok? ==>
                  && r.val.VSlice? && r.val.elem == SliceElem(f) && |r.val.items| == |acc| + n
                  && forall x <- r.val.items :: ElemTyped(ctx, name, f, x))
    decreases ctx.rank[name], 0, 1, n
  {
    hide ElemTyped, DeElem;
    if n > 0 {
      ElemSound(ctx, name, mode, f, bs);
      match DeElem(ctx, name, mode, f, bs)
      case Ok(v, rest) => ItemsSound(ctx, name, mode, f, n - 1, rest, acc + [v]);
      case Err(_) =>
    }
  }

  lemma {:induction false} ElemSound(ctx: Context, name: string, mode: Mode, f: Field, bs: seq<Byte>)
    requires WellFormed(ctx) && name in ctx.specs && f in ctx.specs[name].fields
    ensures var r := DeElem(ctx, name, mode, f, bs);
            !r.Crash? && (r.Ok? ==> ElemTyped(ctx, name, f, r.val))
    decreases ctx.rank[name], 0, 0
  {
    hide ReadPrim, DeMessage, PrimTyped;
    match BuiltinOf(f.typ)
    case Some(b) =>
      PrimSound(b, bs);
      ZeroPrimTyped(b);
    case None =>
      ZeroMessageTyped(ctx, Ref(ctx, f));
      DecodeSound(ctx, Ref(ctx, f), mode, bs);
  }

  lemma ZeroPrimTyped(b: Builtin)
    ensures PrimTyped(b, ZeroPrim(b))
  {
  }

  lemma PrimSound(b: Builtin, bs: seq<Byte>)
    ensures var r := ReadPrim(b, bs);
            !r.Crash? && (r.Ok? ==> PrimTyped(b, r.val))
  {
    if b.BInt? && b.kind.Width() <= |bs| {
      IntBytesRoundTrip(b.kind, bs[..b.kind.Width()]);
    }
  }
}
