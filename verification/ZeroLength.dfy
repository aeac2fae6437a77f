/** Fresh messages serialise to the shortest encoding their schema admits. */
module ZeroLength {
  import opened Wire
  import opened Schema
  import opened Codec
  import opened CodecTheorems

  function MinPrim(b: Builtin): nat
  {
    match b
    case BBool => 1
    case BInt(k) => k.Width()
    case BFloat32 | BString => 4
    case BFloat64 | BTime | BDuration => 8
  }

  function MinLength(ctx: Context, name: string): nat
    requires WellFormed(ctx) && name in ctx.specs
    decreases ctx.rank[name], |ctx.specs[name].fields| + 1
  {
    MinFields(ctx, name, 0)
  }

  function MinFields(ctx: Context, name: string, i: nat): nat
    requires WellFormed(ctx) && name in ctx.specs && i <= |ctx.specs[name].fields|
    decreases ctx.rank[name], |ctx.specs[name].fields| - i
  {
    if i == |ctx.specs[name].fields| then 0
    else MinField(ctx, name, ctx.specs[name].fields[i]) + MinFields(ctx, name, i + 1)
  }

  function MinField(ctx: Context, name: string, f: Field): nat
    requires WellFormed(ctx) && name in ctx.specs && f in ctx.specs[name].fields
    decreases ctx.rank[name], 0, 1
  {
    if !f.isArray then MinElem(ctx, name, f)
    else if f.arrayLen < 0 then 4
    else f.arrayLen * MinElem(ctx, name, f)
  }

  function MinElem(ctx: Context, name: string, f: Field): nat
    requires WellFormed(ctx) && name in ctx.specs && f in ctx.specs[name].fields
    decreases ctx.rank[name], 0, 0
  {
    match BuiltinOf(f.typ)
    case Some(b) => MinPrim(b)
    case None => MinLength(ctx, Ref(ctx, f))
  }

  /** NewMessage serialises without error, to exactly the minimum. */
  lemma ZeroMessageIsMinimal(ctx: Context, name: string)
    requires WellFormed(ctx) && name in ctx.specs
    ensures ZeroMessage(ctx, name).Made?
    ensures var w := SerMessage(ZeroMessage(ctx, name).value);
            w.st.Fine? && |w.out| == MinLength(ctx, name)
  {
    ZeroMessageTyped(ctx, name);
    RoundTrip(ctx, name, Strict, ZeroMessage(ctx, name).value, []);
    MessageLength(ctx, name, ZeroMessage(ctx, name).value, true);
  }

  /** No well-typed message of the schema is shorter. */
  lemma MinLengthIsLowerBound(ctx: Context, name: string, m: Message)
    requires WellFormed(ctx) && name in ctx.specs && WellTyped(ctx, name, m)
    ensures |SerMessage(m).out| >= MinLength(ctx, name)
  {
    MessageLength(ctx, name, m, false);
  }

  /** `zero` marks the values NewMessage makes. */
  lemma {:induction false} MessageLength(ctx: Context, name: string, m: Message, zero: bool)
    requires WellFormed(ctx) && name in ctx.specs && WellTyped(ctx, name, m)
    requires zero ==> Made(m) == ZeroMessage(ctx, name)
    ensures |SerMessage(m).out| >= MinLength(ctx, name)
    ensures zero ==> |SerMessage(m).out| == MinLength(ctx, name)
    decreases ctx.rank[name], |ctx.specs[name].fields| + 1
  {
    hide WellFormed, FieldTyped;
    if zero {
      ZeroFieldsHold(ctx, name, 0, map[]);
    }
    FieldsLength(ctx, name, m, 0, zero);
  }

  lemma {:induction false} ZeroFieldsHold(ctx: Context, name: string, i: nat, acc: map<string, Value>)
    requires WellFormed(ctx) && name in ctx.specs && i <= |ctx.specs[name].fields|
    requires ZeroFields(ctx, name, i, acc).Made?
    requires forall f <- ctx.specs[name].fields[..i] :: f.name in acc && Made(acc[f.name]) == ZeroField(ctx, name, f)
    ensures var data := ZeroFields(ctx, name, i, acc).value;
            forall f <- ctx.specs[name].fields :: f.name in data && Made(data[f.name]) == ZeroField(ctx, name, f)
    decreases |ctx.specs[name].fields| - i
  {
    hide ZeroField, Acyclic, Closed;
    var fields := ctx.specs[name].fields;
    if i < |fields| {
      assert fields[..i + 1] == fields[..i] + [fields[i]];
      ZeroFieldsHold(ctx, name, i + 1, acc[fields[i].name := ZeroField(ctx, name, fields[i]).value]);
    } else {
      assert fields[..i] == fields;
    }
  }

  lemma {:induction false} FieldsLength(ctx: Context, name: string, m: Message, i: nat, zero: bool)
    requires WellFormed(ctx) && name in ctx.specs && WellTyped(ctx, name, m) && i <= |m.spec.fields|
    requires zero ==> forall f <- m.spec.fields :: Made(m.data.fields[f.name]) == ZeroField(ctx, name, f)
    ensures |SerFields(m, i).out| >= MinFields(ctx, name, i)
    ensures zero ==> |SerFields(m, i).out| == MinFields(ctx, name, i)
    decreases ctx.rank[name], |ctx.specs[name].fields| - i
  {
    hide FieldTyped, ZeroField, SerField, MinField, Acyclic, Closed, DistinctNames;
    if i < |m.spec.fields| {
      var f := m.spec.fields[i];
      FieldLength(ctx, name, f, m.data.fields[f.name], zero);
      RoundTripField(ctx, name, Strict, f, m.data.fields[f.name], []);
      FieldsLength(ctx, name, m, i + 1, zero);
    }
  }

  lemma {:induction false} FieldLength(ctx: Context, name: string, f: Field, v: Value, zero: bool)
    requires WellFormed(ctx) && name in ctx.specs && f in ctx.specs[name].fields && FieldTyped(ctx, name, f, v)
    requires zero ==> Made(v) == ZeroField(ctx, name, f)
    ensures |SerField(f, v).out| >= MinField(ctx, name, f)
    ensures zero ==> |SerField(f, v).out| == MinField(ctx, name, f)
    decreases ctx.rank[name], 0, 2
  {
    hide ElemTyped, SerElem, ZeroElem, SerItems, MinElem;
    assert f.Shaped();
    if !f.isArray {
      ElemLength(ctx, name, f, v, zero);
    } else {
      ItemsLength(ctx, name, f, v.items, 0, zero);
      assert WireLength(f, |v.items|) == |v.items|;
    }
  }

  lemma {:induction false} ItemsLength(ctx: Context, name: string, f: Field, items: seq<Value>, i: nat, zero: bool)
    requires WellFormed(ctx) && name in ctx.specs && f in ctx.specs[name].fields && i <= |items|
    requires forall x <- items :: ElemTyped(ctx, name, f, x) && (zero ==> Made(x) == ZeroElem(ctx, name, f))
    ensures |SerItems(f, items, i, |items|).out| >= (|items| - i) * MinElem(ctx, name, f)
    ensures zero ==> |SerItems(f, items, i, |items|).out| == (|items| - i) * MinElem(ctx, name, f)
    decreases ctx.rank[name], 0, 1, |items| - i
  {
    hide ElemTyped, SerElem, ZeroElem, MinElem;
    if i < |items| {
      var k := MinElem(ctx, name, f);
      ElemLength(ctx, name, f, items[i], zero);
      RoundTripElem(ctx, name, Strict, f, items[i], []);
      ItemsLength(ctx, name, f, items, i + 1, zero);
      assert (|items| - i) * k == k + (|items| - (i + 1)) * k;
    }
  }

  lemma {:induction false} ElemLength(ctx: Context, name: string, f: Field, v: Value, zero: bool)
    requires WellFormed(ctx) && name in ctx.specs && f in ctx.specs[name].fields && ElemTyped(ctx, name, f, v)
    requires zero ==> Made(v) == ZeroElem(ctx, name, f)
    ensures |SerElem(f, v).out| >= MinElem(ctx, name, f)
    ensures zero ==> |SerElem(f, v).out| == MinElem(ctx, name, f)
    decreases ctx.rank[name], 0, 0
  {
    hide SerMessage, MinLength, ZeroMessage, SerPrim, MinPrim;
    match BuiltinOf(f.typ)
    case Some(b) => PrimLength(b, v);
    case None => MessageLength(ctx, Ref(ctx, f), v.m, zero);
  }

  lemma PrimLength(b: Builtin, v: Value)
    requires PrimTyped(b, v)
    ensures |SerPrim(b, v).out| >= MinPrim(b)
    ensures v == ZeroPrim(b) ==> |SerPrim(b, v).out| == MinPrim(b)
  {
  }
}
