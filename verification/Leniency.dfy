/** The interpreter drops read errors inside arrays of primitives. This module decides, from the
    schema alone, whether that ever makes it accept an input the generated decoder rejects. */
module Leniency {
  import opened Basics
  import opened Wire
  import opened Schema
  import opened Codec
  import opened CodecTheorems
  import opened Decoders

  /** Fields `i` and later decode from an exhausted reader: only fixed arrays of primitives,
      empty arrays, and messages made of nothing else. */
  predicate Drains(ctx: Context, name: string, i: nat)
    requires WellFormed(ctx) && name in ctx.specs && i <= |ctx.specs[name].fields|
    decreases ctx.rank[name], |ctx.specs[name].fields| - i
  {
    i < |ctx.specs[name].fields| ==>
      DrainsField(ctx, name, ctx.specs[name].fields[i]) && Drains(ctx, name, i + 1)
  }

  predicate DrainsField(ctx: Context, name: string, f: Field)
    requires WellFormed(ctx) && name in ctx.specs && f in ctx.specs[name].fields
    decreases ctx.rank[name], 0, 1
  {
    if f.isArray && f.arrayLen <= 0 then f.arrayLen == 0 else DrainsElem(ctx, name, f)
  }

  predicate DrainsElem(ctx: Context, name: string, f: Field)
    requires WellFormed(ctx) && name in ctx.specs && f in ctx.specs[name].fields
    decreases ctx.rank[name], 0, 0
  {
    match BuiltinOf(f.typ)
    case Some(b) => f.isArray && b.Primitive()
    case None => Drains(ctx, Ref(ctx, f), 0)
  }

  /** Some non-empty array of primitives, at any depth, is followed only by fields that drain. */
  predicate Fragile(ctx: Context, name: string, i: nat)
    requires WellFormed(ctx) && name in ctx.specs && i <= |ctx.specs[name].fields|
    decreases ctx.rank[name], |ctx.specs[name].fields| - i
  {
    && i < |ctx.specs[name].fields|
    && (|| Fragile(ctx, name, i + 1)
        || (FragileField(ctx, name, ctx.specs[name].fields[i]) && Drains(ctx, name, i + 1)))
  }

  predicate FragileField(ctx: Context, name: string, f: Field)
    requires WellFormed(ctx) && name in ctx.specs && f in ctx.specs[name].fields
    decreases ctx.rank[name], 0, 1
  {
    (f.isArray ==> f.arrayLen != 0) && FragileElem(ctx, name, f)
  }

  predicate FragileElem(ctx: Context, name: string, f: Field)
    requires WellFormed(ctx) && name in ctx.specs && f in ctx.specs[name].fields
    decreases ctx.rank[name], 0, 0
  {
    match BuiltinOf(f.typ)
    case Some(b) => f.isArray && b.Primitive()
    case None => Fragile(ctx, Ref(ctx, f), 0)
  }

  /** Accept the same input with the same result, or both reject it. */
  predicate Same<T(==)>(a: Got<T>, b: Got<T>)
  {
    a.Ok? == b.Ok? && (a.Ok? ==> a == b)
  }

  /** The interpreter and the error-reporting decoder agree on every input exactly when the
      schema is not fragile. */
  lemma DecodersAgreeIff(ctx: Context, name: string)
    requires WellFormed(ctx) && name in ctx.specs
    ensures (forall bs :: Same(DeMessage(ctx, name, Lenient, bs), DeMessage(ctx, name, Strict, bs)))
            <==> !Fragile(ctx, name, 0)
  {
    hide WellTyped, BoolsOfMessage, SerMessage, Fragile;
    forall bs | !Same(DeMessage(ctx, name, Lenient, bs), DeMessage(ctx, name, Strict, bs))
      ensures Fragile(ctx, name, 0)
    {
      if DeMessage(ctx, name, Strict, bs).Ok? {
        StrictMessage(ctx, name, bs, []);
      }
      LenientOnlyFields(ctx, name, 0, bs, map[]);
    }
    if Fragile(ctx, name, 0) {
      var bs := FragileInput(ctx, name, 0, map[]);
      assert !Same(DeMessage(ctx, name, Lenient, bs), DeMessage(ctx, name, Strict, bs));
    }
  }

  /** For instance: one field `uint8[2] x`, and the one-byte input 7. The interpreter makes it [7, 0]. */
  lemma LenientExample(ctx: Context, spec: MsgSpec)
    requires spec.fields == [Field("", "uint8", "x", true, 2)] && spec.fullName == "p/T"
    requires ctx == Context(map["p/T" := spec], map["p/T" := 0])
    ensures WellFormed(ctx) && Fragile(ctx, "p/T", 0)
    ensures DeMessage(ctx, "p/T", Strict, [7]).Err?
    ensures DeMessage(ctx, "p/T", Lenient, [7]) ==
            Ok(Message(spec, Data(map["x" := VSlice(Some(BInt(U8)), [VInt(U8, 7), VInt(U8, 0)])])), [])
  {
    ExampleWellFormed(ctx, spec);
    ExampleField(ctx, spec);
    OneField(ctx, "p/T", Strict, [7]);
    OneField(ctx, "p/T", Lenient, [7]);
  }

  lemma ExampleWellFormed(ctx: Context, spec: MsgSpec)
    requires spec.fields == [Field("", "uint8", "x", true, 2)] && spec.fullName == "p/T"
    requires ctx == Context(map["p/T" := spec], map["p/T" := 0])
    ensures WellFormed(ctx) && Fragile(ctx, "p/T", 0)
  {
    var f := spec.fields[0];
    assert |"p/T"| != |"Header"|;
    assert f.IsBuiltin() && WellFormed(ctx);
    assert Drains(ctx, "p/T", 1);
    assert FragileElem(ctx, "p/T", f);
    assert FragileField(ctx, "p/T", f);
  }

  lemma OneField(ctx: Context, name: string, mode: Mode, bs: seq<Byte>)
    requires Acyclic(ctx) && name in ctx.specs && |ctx.specs[name].fields| == 1
    ensures var f := ctx.specs[name].fields[0];
            var r, m := DeField(ctx, name, mode, f, bs), DeMessage(ctx, name, mode, bs);
            && (r.Err? ==> m.Err?)
            && (r.Ok? ==> m == Ok(Message(ctx.specs[name], Data(map[f.name := r.val])), r.rest))
  {
    hide DeField, Acyclic;
    var f := ctx.specs[name].fields[0];
    var r := DeField(ctx, name, mode, f, bs);
    var empty: map<string, Value> := map[];
    if r.Ok? {
      assert empty[f.name := r.val] == map[f.name := r.val];
      assert DeFields(ctx, name, mode, 1, r.rest, empty[f.name := r.val]) == Ok(empty[f.name := r.val], r.rest);
    }
  }

  lemma ExampleField(ctx: Context, spec: MsgSpec)
    requires spec.fields == [Field("", "uint8", "x", true, 2)] && spec.fullName == "p/T"
    requires ctx == Context(map["p/T" := spec], map["p/T" := 0]) && Acyclic(ctx)
    ensures DeField(ctx, "p/T", Strict, spec.fields[0], [7]).Err?
    ensures DeField(ctx, "p/T", Lenient, spec.fields[0], [7]) ==
            Ok(VSlice(Some(BInt(U8)), [VInt(U8, 7), VInt(U8, 0)]), [])
  {
    hide Acyclic, DeMessage;
    var f := spec.fields[0];
    assert UnLE([7]) == 7 + 256 * UnLE([]);
    assert forall m :: DeElem(ctx, "p/T", m, f, [7]) == Ok(VInt(U8, 7), []);
    var one, two := [VInt(U8, 7)], [VInt(U8, 7), VInt(U8, 0)];
    assert one == [] + [VInt(U8, 7)] && two == one + [VInt(U8, 0)];
    assert DeItems(ctx, "p/T", Lenient, f, 1, [], one) == DeItems(ctx, "p/T", Lenient, f, 0, [], two);
    assert DeItems(ctx, "p/T", Lenient, f, 2, [7], []) == DeItems(ctx, "p/T", Lenient, f, 1, [], one);
    assert DeElem(ctx, "p/T", Strict, f, []) == Err([]);
    assert DeItems(ctx, "p/T", Strict, f, 2, [7], []) == DeItems(ctx, "p/T", Strict, f, 1, [], one);
  }

  // ---------------------------------------------------------------- an exhausted reader

  lemma {:induction false} DrainFields(ctx: Context, name: string, i: nat, acc: map<string, Value>)
    requires WellFormed(ctx) && name in ctx.specs && i <= |ctx.specs[name].fields|
    ensures var r := DeFields(ctx, name, Lenient, i, [], acc);
            (r.Ok? <==> Drains(ctx, name, i)) && (r.Ok? ==> r.rest == [])
    decreases ctx.rank[name], |ctx.specs[name].fields| - i
  {
    hide DeField, DrainsField, Acyclic, Closed, DistinctNames;
    var fields := ctx.specs[name].fields;
    if i < |fields| {
      DrainField(ctx, name, fields[i]);
      var r := DeField(ctx, name, Lenient, fields[i], []);
      if r.Ok? {
        DrainFields(ctx, name, i + 1, acc[fields[i].name := r.val]);
      }
    }
  }

  lemma {:induction false} DrainField(ctx: Context, name: string, f: Field)
    requires WellFormed(ctx) && name in ctx.specs && f in ctx.specs[name].fields
    ensures var r := DeField(ctx, name, Lenient, f, []);
            (r.Ok? <==> DrainsField(ctx, name, f)) && (r.Ok? ==> r.rest == [])
    decreases ctx.rank[name], 0, 2
  {
    hide DeElem, DeItems, DrainsElem;
    assert f.Shaped();
    if !f.isArray {
      DrainElem(ctx, name, f);
    } else if f.arrayLen >= 0 {
      DrainItems(ctx, name, f, f.arrayLen, []);
    }
  }

  lemma {:induction false} DrainItems(ctx: Context, name: string, f: Field, n: nat, acc: seq<Value>)
    requires WellFormed(ctx) && name in ctx.specs && f in ctx.specs[name].fields
    ensures var r := DeItems(ctx, name, Lenient, f, n, [], acc);
            (r.Ok? <==> n == 0 || DrainsElem(ctx, name, f)) && (r.Ok? ==> r.rest == [])
    decreases ctx.rank[name], 0, 1, n
  {
    hide DeElem, DrainsElem;
    if n > 0 {
      DrainElem(ctx, name, f);
      var r := DeElem(ctx, name, Lenient, f, []);
      if r.Ok? {
        DrainItems(ctx, name, f, n - 1, acc + [r.val]);
      }
    }
  }

  lemma {:induction false} DrainElem(ctx: Context, name: string, f: Field)
    requires WellFormed(ctx) && name in ctx.specs && f in ctx.specs[name].fields
    ensures var r := DeElem(ctx, name, Lenient, f, []);
            (r.Ok? <==> DrainsElem(ctx, name, f)) && (r.Ok? ==> r.rest == [])
    decreases ctx.rank[name], 0, 0
  {
    hide DeFields;
    match BuiltinOf(f.typ)
    case Some(b) =>
    case None =>
      ZeroMessageTyped(ctx, Ref(ctx, f));
      DrainFields(ctx, Ref(ctx, f), 0, map[]);
  }

  // ---------------------------------------------------------------- lenient-only inputs are fragile

  /** An input only the lenient decoder accepts has run out by the end. */
  lemma {:induction false} LenientOnlyFields(ctx: Context, name: string, i: nat, bs: seq<Byte>, acc: map<string, Value>)
    requires WellFormed(ctx) && name in ctx.specs && i <= |ctx.specs[name].fields|
    ensures var l := DeFields(ctx, name, Lenient, i, bs, acc);
            l.Ok? && !DeFields(ctx, name, Strict, i, bs, acc).Ok? ==> Fragile(ctx, name, i) && l.rest == []
    decreases ctx.rank[name], |ctx.specs[name].fields| - i
  {
    hide DeField, FragileField, Drains, Settled, Acyclic, Closed, DistinctNames;
    var fields := ctx.specs[name].fields;
    if i < |fields| {
      var l := DeField(ctx, name, Lenient, fields[i], bs);
      var s := DeField(ctx, name, Strict, fields[i], bs);
      LenientOnlyField(ctx, name, fields[i], bs);
      if l.Ok? {
        var next := acc[fields[i].name := l.val];
        if s.Ok? {
          StrictFieldAgrees(ctx, name, fields[i], bs);
          LenientOnlyFields(ctx, name, i + 1, l.rest, next);
        } else {
          DrainFields(ctx, name, i + 1, next);
        }
      }
    }
  }

  lemma StrictFieldAgrees(ctx: Context, name: string, f: Field, bs: seq<Byte>)
    requires WellFormed(ctx) && name in ctx.specs && f in ctx.specs[name].fields
    requires DeField(ctx, name, Strict, f, bs).Ok?
    ensures DeField(ctx, name, Lenient, f, bs) == DeField(ctx, name, Strict, f, bs)
  {
    hide DeField, BoolsOfField, SerField, Canonical, WellFormed;
    StrictField(ctx, name, f, bs, []);
  }

  lemma StrictElemAgrees(ctx: Context, name: string, f: Field, bs: seq<Byte>)
    requires WellFormed(ctx) && name in ctx.specs && f in ctx.specs[name].fields
    requires DeElem(ctx, name, Strict, f, bs).Ok?
    ensures DeElem(ctx, name, Lenient, f, bs) == DeElem(ctx, name, Strict, f, bs)
  {
    hide DeElem, BoolsOfElem, SerElem, Canonical, WellFormed;
    StrictElem(ctx, name, f, bs, []);
  }

  lemma {:induction false} LenientOnlyField(ctx: Context, name: string, f: Field, bs: seq<Byte>)
    requires WellFormed(ctx) && name in ctx.specs && f in ctx.specs[name].fields
    ensures var l := DeField(ctx, name, Lenient, f, bs);
            l.Ok? && !DeField(ctx, name, Strict, f, bs).Ok? ==> FragileField(ctx, name, f) && l.rest == []
    decreases ctx.rank[name], 0, 2
  {
    hide DeElem, DeItems, FragileElem;
    assert f.Shaped();
    if !f.isArray {
      LenientOnlyElem(ctx, name, f, bs);
    } else if f.arrayLen >= 0 {
      LenientOnlyItems(ctx, name, f, f.arrayLen, bs, []);
    } else if TakeWord(bs).Ok? {
      LenientOnlyItems(ctx, name, f, TakeWord(bs).val, TakeWord(bs).rest, []);
    }
  }

  lemma {:induction false} LenientOnlyItems(ctx: Context, name: string, f: Field, n: nat, bs: seq<Byte>,
                                            acc: seq<Value>)
    requires WellFormed(ctx) && name in ctx.specs && f in ctx.specs[name].fields
    ensures var l := DeItems(ctx, name, Lenient, f, n, bs, acc);
            l.Ok? && !DeItems(ctx, name, Strict, f, n, bs, acc).Ok? ==>
              n > 0 && FragileElem(ctx, name, f) && l.rest == []
    decreases ctx.rank[name], 0, 1, n
  {
    hide DeElem, FragileElem, DrainsElem;
    if n > 0 {
      var l := DeElem(ctx, name, Lenient, f, bs);
      LenientOnlyElem(ctx, name, f, bs);
      if l.Ok? {
        if DeElem(ctx, name, Strict, f, bs).Ok? {
          StrictElemAgrees(ctx, name, f, bs);
          LenientOnlyItems(ctx, name, f, n - 1, l.rest, acc + [l.val]);
        } else {
          DrainItems(ctx, name, f, n - 1, acc + [l.val]);
        }
      }
    }
  }

  lemma {:induction false} LenientOnlyElem(ctx: Context, name: string, f: Field, bs: seq<Byte>)
    requires WellFormed(ctx) && name in ctx.specs && f in ctx.specs[name].fields
    ensures var l := DeElem(ctx, name, Lenient, f, bs);
            l.Ok? && !DeElem(ctx, name, Strict, f, bs).Ok? ==> FragileElem(ctx, name, f) && l.rest == []
    decreases ctx.rank[name], 0, 0
  {
    hide DeFields, Fragile;
    match BuiltinOf(f.typ)
    case Some(b) =>
    case None =>
      ZeroMessageTyped(ctx, Ref(ctx, f));
      LenientOnlyFields(ctx, Ref(ctx, f), 0, bs, map[]);
      assert DeElem(ctx, name, Strict, f, bs).Ok? == DeMessage(ctx, Ref(ctx, f), Strict, bs).Ok?;
  }

  // ---------------------------------------------------------------- fragile schemas have such inputs

  lemma {:induction false} FragileInput(ctx: Context, name: string, i: nat, acc: map<string, Value>)
    returns (bs: seq<Byte>)
    requires WellFormed(ctx) && name in ctx.specs && i <= |ctx.specs[name].fields| && Fragile(ctx, name, i)
    ensures DeFields(ctx, name, Lenient, i, bs, acc).Ok?
    ensures !DeFields(ctx, name, Strict, i, bs, acc).Ok?
    decreases ctx.rank[name], |ctx.specs[name].fields| - i
  {
    hide DeField, SerField, FragileField, Drains, ZeroField, Acyclic, Closed, DistinctNames;
    var f := ctx.specs[name].fields[i];
    if Fragile(ctx, name, i + 1) {
      ZeroFieldTyped(ctx, name, f);
      var v := ZeroField(ctx, name, f).value;
      var tail := FragileInput(ctx, name, i + 1, acc[f.name := v]);
      bs := SerField(f, v).out + tail;
      RoundTripField(ctx, name, Lenient, f, v, tail);
      RoundTripField(ctx, name, Strict, f, v, tail);
    } else {
      bs := FragileFieldInput(ctx, name, f);
      LenientOnlyField(ctx, name, f, bs);
      DrainFields(ctx, name, i + 1, acc[f.name := DeField(ctx, name, Lenient, f, bs).val]);
    }
  }

  lemma {:induction false} FragileFieldInput(ctx: Context, name: string, f: Field) returns (bs: seq<Byte>)
    requires WellFormed(ctx) && name in ctx.specs && f in ctx.specs[name].fields && FragileField(ctx, name, f)
    ensures DeField(ctx, name, Lenient, f, bs).Ok?
    ensures !DeField(ctx, name, Strict, f, bs).Ok?
    decreases ctx.rank[name], 0, 2
  {
    hide DeElem, DeItems, FragileElem;
    assert f.Shaped();
    if !f.isArray {
      bs := FragileElemInput(ctx, name, f);
    } else if f.arrayLen >= 0 {
      bs := FragileItemsInput(ctx, name, f, f.arrayLen, []);
    } else {
      var items := FragileItemsInput(ctx, name, f, 1, []);
      bs := Word32(1) + items;
      TakeWordAppend(1, items);
    }
  }

  lemma {:induction false} FragileItemsInput(ctx: Context, name: string, f: Field, n: nat, acc: seq<Value>)
    returns (bs: seq<Byte>)
    requires WellFormed(ctx) && name in ctx.specs && f in ctx.specs[name].fields
    requires n > 0 && FragileElem(ctx, name, f)
    ensures DeItems(ctx, name, Lenient, f, n, bs, acc).Ok?
    ensures !DeItems(ctx, name, Strict, f, n, bs, acc).Ok?
    decreases ctx.rank[name], 0, 1, n
  {
    hide DeElem, SerElem, FragileElem, ZeroElem, Acyclic, Closed, DistinctNames;
    if n == 1 {
      bs := FragileElemInput(ctx, name, f);
      var l := DeElem(ctx, name, Lenient, f, bs);
      assert DeItems(ctx, name, Lenient, f, 0, l.rest, acc + [l.val]).Ok?;
    } else {
      ZeroElemTyped(ctx, name, f);
      var v := ZeroElem(ctx, name, f).value;
      var tail := FragileItemsInput(ctx, name, f, n - 1, acc + [v]);
      bs := SerElem(f, v).out + tail;
      RoundTripElem(ctx, name, Lenient, f, v, tail);
      RoundTripElem(ctx, name, Strict, f, v, tail);
    }
  }

  lemma {:induction false} FragileElemInput(ctx: Context, name: string, f: Field) returns (bs: seq<Byte>)
    requires WellFormed(ctx) && name in ctx.specs && f in ctx.specs[name].fields && FragileElem(ctx, name, f)
    ensures DeElem(ctx, name, Lenient, f, bs).Ok?
    ensures !DeElem(ctx, name, Strict, f, bs).Ok?
    decreases ctx.rank[name], 0, 0
  {
    hide DeFields, Fragile;
    match BuiltinOf(f.typ)
    case Some(b) =>
      bs := [];
    case None =>
      ZeroMessageTyped(ctx, Ref(ctx, f));
      bs := FragileInput(ctx, Ref(ctx, f), 0, map[]);
  }
}
