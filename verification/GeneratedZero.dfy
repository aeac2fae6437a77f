/** Fresh messages of the generated types against fresh dynamic messages. */
module GeneratedZero {
  import opened Wire
  import opened Schema
  import opened Codec
  import opened CodecTheorems
  import opened ZeroLength
  import opened Generated

  /** The struct that generated NewMessage fills in, which for nested types is Go's zero struct. */
  function ZeroStruct(ctx: Context, name: string): GoValue
    requires Linked(ctx) && name in ctx.specs
    decreases ctx.rank[name], |ctx.specs[name].fields| + 1
  {
    GoStruct(ZeroSlots(ctx, name, 0))
  }

  function ZeroSlots(ctx: Context, name: string, i: nat): seq<GoValue>
    requires Linked(ctx) && name in ctx.specs && i <= |ctx.specs[name].fields|
    decreases ctx.rank[name], |ctx.specs[name].fields| - i
  {
    if i == |ctx.specs[name].fields| then []
    else [ZeroSlot(ctx, name, ctx.specs[name].fields[i])] + ZeroSlots(ctx, name, i + 1)
  }

  function ZeroSlot(ctx: Context, name: string, f: Field): GoValue
    requires Linked(ctx) && name in ctx.specs && f in ctx.specs[name].fields
    decreases ctx.rank[name], 0, 1
  {
    if !f.isArray then ZeroItem(ctx, name, f)
    else if f.arrayLen == -1 then GoArray([])
    else
      assert f.Shaped();
      GoArray(seq(f.arrayLen, _ => ZeroItem(ctx, name, f)))
  }

  function ZeroItem(ctx: Context, name: string, f: Field): GoValue
    requires Linked(ctx) && name in ctx.specs && f in ctx.specs[name].fields
    decreases ctx.rank[name], 0, 0
  {
    match CompileOp(f)
    case OpString => GoString([])
    case OpTemporal => GoTemporal(0, 0)
    case OpPlain(b) => GoPlain(ZeroPrim(b))
    case OpCall(target) => ZeroStruct(ctx, target)
  }

  /** Generated NewMessage and dynamic NewMessage hold the same values. */
  lemma {:induction false} ZeroStructAgrees(ctx: Context, name: string)
    requires Linked(ctx) && name in ctx.specs
    ensures ZeroMessage(ctx, name).Made?
    ensures GoMessage(ZeroMessage(ctx, name).value) == ZeroStruct(ctx, name)
    decreases ctx.rank[name], |ctx.specs[name].fields| + 1
  {
    hide ZeroField, Acyclic, Closed, DistinctNames;
    ZeroMessageTyped(ctx, name);
    ZeroFieldsHold(ctx, name, 0, map[]);
    SlotsAgree(ctx, name, ZeroMessage(ctx, name).value, 0);
  }

  lemma {:induction false} SlotsAgree(ctx: Context, name: string, m: Message, i: nat)
    requires Linked(ctx) && name in ctx.specs && m.spec == ctx.specs[name] && m.data.Data? && i <= |m.spec.fields|
    requires forall f <- m.spec.fields ::
               f.name in m.data.fields && Made(m.data.fields[f.name]) == ZeroField(ctx, name, f)
    ensures GoFields(m, i) == ZeroSlots(ctx, name, i)
    decreases ctx.rank[name], |ctx.specs[name].fields| - i
  {
    hide ZeroField, ZeroSlot, GoOf, Acyclic, Closed, DistinctNames;
    if i < |m.spec.fields| {
      SlotAgrees(ctx, name, m.spec.fields[i]);
      SlotsAgree(ctx, name, m, i + 1);
    }
  }

  lemma {:induction false} SlotAgrees(ctx: Context, name: string, f: Field)
    requires Linked(ctx) && name in ctx.specs && f in ctx.specs[name].fields
    ensures ZeroField(ctx, name, f).Made? && GoOf(ZeroField(ctx, name, f).value) == ZeroSlot(ctx, name, f)
    decreases ctx.rank[name], 0, 1
  {
    hide ZeroElem, ZeroItem, CompileOp;
    assert f.Shaped();
    ItemAgrees(ctx, name, f);
  }

  lemma {:induction false} ItemAgrees(ctx: Context, name: string, f: Field)
    requires Linked(ctx) && name in ctx.specs && f in ctx.specs[name].fields
    ensures ZeroElem(ctx, name, f).Made? && GoOf(ZeroElem(ctx, name, f).value) == ZeroItem(ctx, name, f)
    decreases ctx.rank[name], 0, 0
  {
    hide ZeroMessage, GoMessage, ZeroStruct;
    if !f.IsBuiltin() {
      assert StaticRef(f) == Ref(ctx, f) && Ref(ctx, f) in ctx.specs;
      ZeroStructAgrees(ctx, Ref(ctx, f));
    }
  }

  /** So both serialise to the same bytes, the fewest a message of the schema can take. */
  lemma GeneratedZeroIsMinimal(ctx: Context, name: string)
    requires Linked(ctx) && name in ctx.specs
    ensures ZeroMessage(ctx, name).Made?
    ensures RunSerialize(ctx, name, ZeroStruct(ctx, name)) == SerMessage(ZeroMessage(ctx, name).value).out
    ensures |RunSerialize(ctx, name, ZeroStruct(ctx, name))| == MinLength(ctx, name)
  {
    hide WellTyped, RunSerialize, SerMessage, MinLength, ZeroStruct, GoMessage;
    ZeroMessageTyped(ctx, name);
    ZeroStructAgrees(ctx, name);
    GeneratedSerializeAgrees(ctx, name, ZeroMessage(ctx, name).value);
    ZeroMessageIsMinimal(ctx, name);
  }
}
