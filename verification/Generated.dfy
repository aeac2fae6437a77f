/** The message template read as a compiler: a spec becomes straight-line Go over the slots of a
    struct. The compiled code is run here and compared with the interpreting codec. */
module Generated {
  import opened Wire
  import opened Schema
  import opened Codec
  import opened CodecTheorems
  import opened Decoders
  import opened Leniency

  // ---------------------------------------------------------------- the target language

  /** Values of the generated, statically typed structs; fields are slots in declaration order. */
  datatype GoValue =
    | GoPlain(v: Value)
    | GoString(s: seq<Byte>)
    | GoTemporal(sec: Word, nsec: Word)
    | GoArray(items: seq<GoValue>)
    | GoStruct(slots: seq<GoValue>)

  /** What the template emits for one element. */
  datatype Op = OpString | OpTemporal | OpPlain(b: Builtin) | OpCall(target: string)

  datatype WriteStmt =
    | WriteLength(slot: nat)
    | WriteEach(slot: nat, op: Op)
    | WriteOne(slot: nat, op: Op)

  datatype ReadStmt =
    | ReadSlice(op: Op)
    | ReadArray(len: nat, op: Op)
    | ReadOne(op: Op)

  // ---------------------------------------------------------------- the compiler

  function CompileOp(f: Field): Op
  {
    match BuiltinOf(f.typ)
    case Some(BString) => OpString
    case Some(BTime) => OpTemporal
    case Some(BDuration) => OpTemporal
    case Some(b) => OpPlain(b)
    case None => OpCall(StaticRef(f))
  }

  function CompileWrite(f: Field, slot: nat): seq<WriteStmt>
  {
    if f.isArray then
      (if f.arrayLen < 0 then [WriteLength(slot)] else []) + [WriteEach(slot, CompileOp(f))]
    else
      [WriteOne(slot, CompileOp(f))]
  }

  function CompileRead(f: Field): ReadStmt
  {
    if f.isArray then
      if f.arrayLen < 0 then ReadSlice(CompileOp(f)) else ReadArray(f.arrayLen, CompileOp(f))
    else
      ReadOne(CompileOp(f))
  }

  function CompileSerialize(fields: seq<Field>, i: nat): seq<WriteStmt>
    requires i <= |fields|
    decreases |fields| - i
  {
    if i == |fields| then [] else CompileWrite(fields[i], i) + CompileSerialize(fields, i + 1)
  }

  function CompileDeserialize(fields: seq<Field>, i: nat): (code: seq<ReadStmt>)
    requires i <= |fields|
    ensures |code| == |fields| - i && forall k | 0 <= k < |code| :: code[k] == CompileRead(fields[i + k])
    decreases |fields| - i
  {
    if i == |fields| then [] else [CompileRead(fields[i])] + CompileDeserialize(fields, i + 1)
  }

  /** The imports name the same types the interpreter looks up, and none of them is taken for the
      library's own Time or Duration. */
  ghost predicate Linked(ctx: Context)
  {
    WellFormed(ctx) &&
    forall n <- ctx.specs, f <- ctx.specs[n].fields :: !f.IsBuiltin() ==> StaticRef(f) == Ref(ctx, f) && !f.Masked()
  }

  /** Exactly when a nested reference means the same type to both resolvers. */
  lemma ResolversAgreeIff(ctx: Context, f: Field)
    ensures StaticRef(f) == Ref(ctx, f) <==>
            if f.typ == "Header" then f.pkg == "std_msgs" else f.typ !in ctx.specs && f.pkg != ""
  {
    assert |StaticRef(f)| == |f.pkg| + 1 + |f.typ|;
    if f.typ == "Header" && StaticRef(f) == "std_msgs/Header" {
      assert f.pkg == StaticRef(f)[..8] == "std_msgs";
    }
    if f.typ == "Header" && f.pkg == "std_msgs" {
      assert StaticRef(f) == "std_msgs/Header";
    }
  }

  // ---------------------------------------------------------------- running compiled Serialize

  function RunSerialize(ctx: Context, name: string, m: GoValue): seq<Byte>
    requires name in ctx.specs
    decreases m, 2, 0
  {
    RunWrites(ctx, CompileSerialize(ctx.specs[name].fields, 0), m)
  }

  /** Static typing rules out the fall-through cases below. */
  function RunWrites(ctx: Context, code: seq<WriteStmt>, m: GoValue): seq<Byte>
    decreases m, 1, |code|
  {
    if code == [] then [] else RunWrite(ctx, code[0], m) + RunWrites(ctx, code[1..], m)
  }

  function RunWrite(ctx: Context, s: WriteStmt, m: GoValue): seq<Byte>
    decreases m, 0, 0
  {
    if !m.GoStruct? || s.slot >= |m.slots| then []
    else
      var v := m.slots[s.slot];
      match s
      case WriteLength(_) => if v.GoArray? then Word32(|v.items| % TWO_TO_32) else []
      case WriteEach(_, op) => if v.GoArray? then RunEach(ctx, op, v.items, 0) else []
      case WriteOne(_, op) => RunWriteOp(ctx, op, v)
  }

  function RunEach(ctx: Context, op: Op, items: seq<GoValue>, i: nat): seq<Byte>
    requires i <= |items|
    decreases items, |items| - i
  {
    if i == |items| then [] else RunWriteOp(ctx, op, items[i]) + RunEach(ctx, op, items, i + 1)
  }

  function RunWriteOp(ctx: Context, op: Op, v: GoValue): seq<Byte>
    decreases v, 3, 0
  {
    match (op, v)
    case (OpString, GoString(s)) => Word32(|s| % TWO_TO_32) + s
    case (OpTemporal, GoTemporal(s, n)) => Word32(s) + Word32(n)
    case (OpPlain(b), GoPlain(x)) => SerPrim(b, x).out
    case (OpCall(target), GoStruct(_)) => if target in ctx.specs then RunSerialize(ctx, target, v) else []
    case _ => []
  }

  // ---------------------------------------------------------------- running compiled Deserialize

  function RunDeserialize(ctx: Context, name: string, bs: seq<Byte>): Got<GoValue>
    requires Linked(ctx) && name in ctx.specs
    decreases ctx.rank[name], |ctx.specs[name].fields| + 1
  {
    match RunReads(ctx, name, 0, bs, [])
    case Ok(slots, rest) => Ok(GoStruct(slots), rest)
    case Err(rest) => Err(rest)
    case Crash => Crash
  }

  /** Runs the statements of `name` from the `i`th on. */
  function RunReads(ctx: Context, name: string, i: nat, bs: seq<Byte>, slots: seq<GoValue>): Got<seq<GoValue>>
    requires Linked(ctx) && name in ctx.specs && i <= |ctx.specs[name].fields|
    decreases ctx.rank[name], |ctx.specs[name].fields| - i
  {
    if i == |ctx.specs[name].fields| then
      Ok(slots, bs)
    else
      assert CompileDeserialize(ctx.specs[name].fields, 0)[i] == CompileRead(ctx.specs[name].fields[i]);
      match RunRead(ctx, name, i, CompileDeserialize(ctx.specs[name].fields, 0)[i], bs)
      case Ok(v, rest) => RunReads(ctx, name, i + 1, rest, slots + [v])
      case Err(rest) => Err(rest)
      case Crash => Crash
  }

  function RunRead(ctx: Context, name: string, i: nat, s: ReadStmt, bs: seq<Byte>): Got<GoValue>
    requires Linked(ctx) && name in ctx.specs && i < |ctx.specs[name].fields|
    requires s == CompileRead(ctx.specs[name].fields[i])
    decreases ctx.rank[name], 0, 2
  {
    match s
    case ReadOne(op) => RunReadOp(ctx, name, i, op, bs)
    case ReadArray(len, op) => RunReadItems(ctx, name, i, op, len, bs, [])
    case ReadSlice(op) =>
      match TakeWord(bs)
      case Ok(size, rest) => RunReadItems(ctx, name, i, op, size, rest, [])
      case Err(rest) => Err(rest)
      case Crash => Crash
  }

  function RunReadItems(ctx: Context, name: string, i: nat, op: Op, n: nat, bs: seq<Byte>, acc: seq<GoValue>)
    : Got<GoValue>
    requires Linked(ctx) && name in ctx.specs && i < |ctx.specs[name].fields|
    requires op == CompileOp(ctx.specs[name].fields[i])
    decreases ctx.rank[name], 0, 1, n
  {
    if n == 0 then
      Ok(GoArray(acc), bs)
    else
      match RunReadOp(ctx, name, i, op, bs)
      case Ok(v, rest) => RunReadItems(ctx, name, i, op, n - 1, rest, acc + [v])
      case Err(rest) => Err(rest)
      case Crash => Crash
  }

  function RunReadOp(ctx: Context, name: string, i: nat, op: Op, bs: seq<Byte>): Got<GoValue>
    requires Linked(ctx) && name in ctx.specs && i < |ctx.specs[name].fields|
    requires op == CompileOp(ctx.specs[name].fields[i])
    decreases ctx.rank[name], 0, 0
  {
    match op
    case OpString =>
      (match TakeWord(bs)
       case Ok(n, rest) => Map(Take(n, rest), (x: seq<Byte>) => GoString(x))
       case Err(rest) => Err(rest)
       case Crash => Crash)
    case OpTemporal => Map(ReadPair(bs), (p: (Word, Word)) => GoTemporal(p.0, p.1))
    case OpPlain(b) => Map(ReadPrim(b, bs), v => GoPlain(v))
    case OpCall(target) => RunDeserialize(ctx, target, bs)
  }

  // ---------------------------------------------------------------- the struct holding a message

  function GoMessage(m: Message): GoValue
    decreases m, |m.spec.fields| + 1
  {
    GoStruct(GoFields(m, 0))
  }

  function GoFields(m: Message, i: nat): (slots: seq<GoValue>)
    requires i <= |m.spec.fields|
    ensures |slots| == |m.spec.fields| - i
    decreases m, |m.spec.fields| - i
  {
    if i == |m.spec.fields| then []
    else if m.data.NilData? || m.spec.fields[i].name !in m.data.fields then
      [GoPlain(Nil)] + GoFields(m, i + 1)
    else
      [GoOf(m.data.fields[m.spec.fields[i].name])] + GoFields(m, i + 1)
  }

  function GoOf(v: Value): GoValue
    decreases v, 0
  {
    match v
    case VStr(s) => GoString(s)
    case VTime(s, n) => GoTemporal(s, n)
    case VDuration(s, n) => GoTemporal(s, n)
    case VSlice(_, items) => GoArray(GoItems(items, 0))
    case VMsg(m) => GoMessage(m)
    case _ => GoPlain(v)
  }

  function GoItems(items: seq<Value>, i: nat): (r: seq<GoValue>)
    requires i <= |items|
    ensures |r| == |items| - i && forall k | 0 <= k < |r| :: r[k] == GoOf(items[i + k])
    decreases items, |items| - i
  {
    if i == |items| then [] else [GoOf(items[i])] + GoItems(items, i + 1)
  }

  lemma {:induction false} GoFieldsAt(m: Message, i: nat, k: nat)
    requires i <= k < |m.spec.fields| && m.data.Data? && m.spec.fields[k].name in m.data.fields
    ensures GoFields(m, i)[k - i] == GoOf(m.data.fields[m.spec.fields[k].name])
    decreases k - i
  {
    if i < k {
      GoFieldsAt(m, i + 1, k);
    }
  }

  // ---------------------------------------------------------------- Serialize agrees

  /** The compiled Serialize emits the interpreter's bytes. */
  lemma {:induction false} GeneratedSerializeAgrees(ctx: Context, name: string, m: Message)
    requires Linked(ctx) && name in ctx.specs && WellTyped(ctx, name, m)
    ensures RunSerialize(ctx, name, GoMessage(m)) == SerMessage(m).out
    decreases ctx.rank[name], |ctx.specs[name].fields| + 1
  {
    WriteFields(ctx, name, m, 0);
  }

  lemma {:induction false} RunWritesConcat(ctx: Context, a: seq<WriteStmt>, b: seq<WriteStmt>, m: GoValue)
    ensures RunWrites(ctx, a + b, m) == RunWrites(ctx, a, m) + RunWrites(ctx, b, m)
  {
    if a == [] {
      assert a + b == b;
    } else {
      assert (a + b)[1..] == a[1..] + b;
      RunWritesConcat(ctx, a[1..], b, m);
    }
  }

  lemma {:induction false} WriteFields(ctx: Context, name: string, m: Message, i: nat)
    requires Linked(ctx) && name in ctx.specs && WellTyped(ctx, name, m) && i <= |m.spec.fields|
    ensures RunWrites(ctx, CompileSerialize(m.spec.fields, i), GoMessage(m)) == SerFields(m, i).out
    decreases ctx.rank[name], |ctx.specs[name].fields| - i
  {
    hide FieldTyped, SerField, CompileWrite, GoFields, Acyclic, Closed, DistinctNames;
    if i < |m.spec.fields| {
      var f := m.spec.fields[i];
      var v := m.data.fields[f.name];
      GoFieldsAt(m, 0, i);
      WriteField(ctx, name, f, v, GoMessage(m), i);
      RoundTripField(ctx, name, Strict, f, v, []);
      WriteFields(ctx, name, m, i + 1);
      RunWritesConcat(ctx, CompileWrite(f, i), CompileSerialize(m.spec.fields, i + 1), GoMessage(m));
    }
  }

  lemma {:induction false} WriteField(ctx: Context, name: string, f: Field, v: Value, g: GoValue, slot: nat)
    requires Linked(ctx) && name in ctx.specs && f in ctx.specs[name].fields && FieldTyped(ctx, name, f, v)
    requires g.GoStruct? && slot < |g.slots| && g.slots[slot] == GoOf(v)
    ensures RunWrites(ctx, CompileWrite(f, slot), g) == SerField(f, v).out
    decreases ctx.rank[name], 0, 2
  {
    hide ElemTyped, SerElem, CompileOp, RunWriteOp, SerItems, GoItems, RunEach;
    assert f.Shaped();
    var op := CompileOp(f);
    if !f.isArray {
      WriteElem(ctx, name, f, v);
      assert CompileWrite(f, slot) == [WriteOne(slot, op)];
      RunSingle(ctx, WriteOne(slot, op), g);
    } else {
      WriteItems(ctx, name, f, v.items, 0);
      RunSingle(ctx, WriteEach(slot, op), g);
      if f.arrayLen < 0 {
        RunSingle(ctx, WriteLength(slot), g);
        RunWritesConcat(ctx, [WriteLength(slot)], [WriteEach(slot, op)], g);
      } else {
        assert CompileWrite(f, slot) == [WriteEach(slot, op)];
      }
    }
  }

  lemma RunSingle(ctx: Context, s: WriteStmt, g: GoValue)
    ensures RunWrites(ctx, [s], g) == RunWrite(ctx, s, g)
  {
  }

  lemma {:induction false} WriteItems(ctx: Context, name: string, f: Field, items: seq<Value>, i: nat)
    requires Linked(ctx) && name in ctx.specs && f in ctx.specs[name].fields && i <= |items|
    requires forall x <- items :: ElemTyped(ctx, name, f, x)
    ensures RunEach(ctx, CompileOp(f), GoItems(items, 0), i) == SerItems(f, items, i, |items|).out
    decreases ctx.rank[name], 0, 1, |items| - i
  {
    hide ElemTyped, SerElem, CompileOp, RunWriteOp;
    if i < |items| {
      WriteElem(ctx, name, f, items[i]);
      RoundTripElem(ctx, name, Strict, f, items[i], []);
      WriteItems(ctx, name, f, items, i + 1);
    }
  }

  lemma {:induction false} WriteElem(ctx: Context, name: string, f: Field, v: Value)
    requires Linked(ctx) && name in ctx.specs && f in ctx.specs[name].fields && ElemTyped(ctx, name, f, v)
    ensures RunWriteOp(ctx, CompileOp(f), GoOf(v)) == SerElem(f, v).out
    decreases ctx.rank[name], 0, 0
  {
    hide SerMessage, RunSerialize, GoFields;
    if !f.IsBuiltin() {
      GeneratedSerializeAgrees(ctx, Ref(ctx, f), v.m);
    }
  }

  // ---------------------------------------------------------------- Deserialize agrees

  /** The compiled Deserialize is the error-reporting decoder, on every input. */
  lemma {:induction false} GeneratedDeserializeAgrees(ctx: Context, name: string, bs: seq<Byte>)
    requires Linked(ctx) && name in ctx.specs
    ensures var g := RunDeserialize(ctx, name, bs);
            var d := DeMessage(ctx, name, Strict, bs);
            if d.Ok? then g == Ok(GoMessage(d.val), d.rest) else g.Err?
    decreases ctx.rank[name], |ctx.specs[name].fields| + 1
  {
    hide WellTyped, GoFields;
    ReadFields(ctx, name, 0, bs, map[], []);
    var d := DeMessage(ctx, name, Strict, bs);
    if d.Ok? {
      assert [] + GoFields(d.val, 0) == GoFields(d.val, 0);
    }
  }

  lemma {:induction false} ReadFields(ctx: Context, name: string, i: nat, bs: seq<Byte>,
                                      acc: map<string, Value>, slots: seq<GoValue>)
    requires Linked(ctx) && name in ctx.specs && i <= |ctx.specs[name].fields|
    ensures var g := RunReads(ctx, name, i, bs, slots);
            var d := DeFields(ctx, name, Strict, i, bs, acc);
            if d.Ok? then g == Ok(slots + GoFields(Message(ctx.specs[name], Data(d.val)), i), d.rest) else g.Err?
    decreases ctx.rank[name], |ctx.specs[name].fields| - i
  {
    hide DeField, RunRead, GoOf, CompileRead, Acyclic, Closed, DistinctNames;
    var fields := ctx.specs[name].fields;
    if i < |fields| {
      var f := fields[i];
      assert CompileDeserialize(fields, 0)[i] == CompileRead(f);
      ReadField(ctx, name, i, bs);
      match DeField(ctx, name, Strict, f, bs)
      case Ok(v, rest) =>
        var next := acc[f.name := v];
        var d := DeFields(ctx, name, Strict, i + 1, rest, next);
        ReadFields(ctx, name, i + 1, rest, next, slots + [GoOf(v)]);
        if d.Ok? {
          LaterNamesDiffer(ctx, name, i);
          KeepsEarlier(ctx, name, Strict, i + 1, rest, next, f.name);
          var later := GoFields(Message(ctx.specs[name], Data(d.val)), i + 1);
          assert slots + [GoOf(v)] + later == slots + ([GoOf(v)] + later);
        }
      case _ =>
    } else {
      assert slots + [] == slots;
    }
  }

  lemma {:induction false} ReadField(ctx: Context, name: string, i: nat, bs: seq<Byte>)
    requires Linked(ctx) && name in ctx.specs && i < |ctx.specs[name].fields|
    ensures var f := ctx.specs[name].fields[i];
            var g := RunRead(ctx, name, i, CompileRead(f), bs);
            var d := DeField(ctx, name, Strict, f, bs);
            if d.Ok? then g == Ok(GoOf(d.val), d.rest) else g.Err?
    decreases ctx.rank[name], 0, 2
  {
    hide DeElem, DeItems, RunReadOp, RunReadItems, CompileOp;
    var f := ctx.specs[name].fields[i];
    assert f.Shaped();
    if !f.isArray {
      ReadElem(ctx, name, i, bs);
    } else if f.arrayLen >= 0 {
      ReadItems(ctx, name, i, f.arrayLen, bs, []);
    } else if TakeWord(bs).Ok? {
      ReadItems(ctx, name, i, TakeWord(bs).val, TakeWord(bs).rest, []);
    }
  }

  lemma {:induction false} ReadItems(ctx: Context, name: string, i: nat, n: nat, bs: seq<Byte>, acc: seq<Value>)
    requires Linked(ctx) && name in ctx.specs && i < |ctx.specs[name].fields|
    ensures var f := ctx.specs[name].fields[i];
            var g := RunReadItems(ctx, name, i, CompileOp(f), n, bs, GoItems(acc, 0));
            var d := DeItems(ctx, name, Strict, f, n, bs, acc);
            if d.Ok? then g == Ok(GoOf(d.val), d.rest) else g.Err?
    decreases ctx.rank[name], 0, 1, n
  {
    hide DeElem, RunReadOp, CompileOp;
    var f := ctx.specs[name].fields[i];
    if n > 0 {
      ReadElem(ctx, name, i, bs);
      match DeElem(ctx, name, Strict, f, bs)
      case Ok(v, rest) =>
        assert GoItems(acc + [v], 0) == GoItems(acc, 0) + [GoOf(v)];
        ReadItems(ctx, name, i, n - 1, rest, acc + [v]);
      case _ =>
    }
  }

  lemma {:induction false} ReadElem(ctx: Context, name: string, i: nat, bs: seq<Byte>)
    requires Linked(ctx) && name in ctx.specs && i < |ctx.specs[name].fields|
    ensures var f := ctx.specs[name].fields[i];
            var g := RunReadOp(ctx, name, i, CompileOp(f), bs);
            var d := DeElem(ctx, name, Strict, f, bs);
            if d.Ok? then g == Ok(GoOf(d.val), d.rest) else g.Err?
    decreases ctx.rank[name], 0, 0
  {
    hide DeFields, RunReads, GoFields, RunDeserialize, DeMessage, GoMessage, WellTyped, DistinctNames, SerMessage;
    var f := ctx.specs[name].fields[i];
    match BuiltinOf(f.typ)
    case Some(b) => ReadBuiltinOp(b, bs);
    case None =>
      ZeroMessageTyped(ctx, Ref(ctx, f));
      GeneratedDeserializeAgrees(ctx, Ref(ctx, f), bs);
  }

  lemma ReadBuiltinOp(b: Builtin, bs: seq<Byte>)
    ensures !ReadPrim(b, bs).Crash?
    ensures b.Primitive() && ReadPrim(b, bs).Ok? ==> GoOf(ReadPrim(b, bs).val) == GoPlain(ReadPrim(b, bs).val)
  {
  }

  // ---------------------------------------------------------------- generated against dynamic

  /** Whenever generated Deserialize succeeds, dynamic Deserialize succeeds with the same values
      and the same bytes left. */
  lemma GeneratedImpliesDynamic(ctx: Context, name: string, bs: seq<Byte>)
    requires Linked(ctx) && name in ctx.specs && RunDeserialize(ctx, name, bs).Ok?
    ensures var d := DeMessage(ctx, name, Lenient, bs);
            d.Ok? && RunDeserialize(ctx, name, bs) == Ok(GoMessage(d.val), d.rest)
  {
    hide WellTyped, RunDeserialize, DeMessage, GoMessage, SerMessage, BoolsOfMessage;
    GeneratedDeserializeAgrees(ctx, name, bs);
    StrictMessage(ctx, name, bs, []);
  }

  /** And the two accept the same inputs exactly for the schemas that are not fragile. */
  lemma GeneratedAgreesIff(ctx: Context, name: string)
    requires Linked(ctx) && name in ctx.specs
    ensures (forall bs :: RunDeserialize(ctx, name, bs).Ok? == DeMessage(ctx, name, Lenient, bs).Ok?)
            <==> !Fragile(ctx, name, 0)
  {
    hide WellTyped, RunDeserialize, DeMessage, GoMessage, SerMessage, BoolsOfMessage, Fragile;
    DecodersAgreeIff(ctx, name);
    forall bs
      ensures RunDeserialize(ctx, name, bs).Ok? == DeMessage(ctx, name, Strict, bs).Ok?
      ensures Same(DeMessage(ctx, name, Lenient, bs), DeMessage(ctx, name, Strict, bs)) <==>
              DeMessage(ctx, name, Lenient, bs).Ok? == DeMessage(ctx, name, Strict, bs).Ok?
    {
      GeneratedDeserializeAgrees(ctx, name, bs);
      if DeMessage(ctx, name, Strict, bs).Ok? {
        StrictMessage(ctx, name, bs, []);
      }
    }
  }

  /** A message written by either side and read by the generated code comes back whole. */
  lemma GeneratedRoundTrip(ctx: Context, name: string, m: Message, rest: seq<Byte>)
    requires Linked(ctx) && name in ctx.specs && WellTyped(ctx, name, m)
    ensures RunDeserialize(ctx, name, RunSerialize(ctx, name, GoMessage(m)) + rest) == Ok(GoMessage(m), rest)
  {
    hide WellTyped, RunDeserialize, RunSerialize, DeMessage, GoMessage, SerMessage;
    GeneratedSerializeAgrees(ctx, name, m);
    RoundTrip(ctx, name, Strict, m, rest);
    GeneratedDeserializeAgrees(ctx, name, SerMessage(m).out + rest);
  }

  /** The generated decoder rejects every strict prefix of a serialisation, and a longer input
      decodes as the shorter one did. */
  lemma GeneratedTruncationAndExtension(ctx: Context, name: string, m: Message, k: nat, bs: seq<Byte>, ext: seq<Byte>)
    requires Linked(ctx) && name in ctx.specs && WellTyped(ctx, name, m) && k < |SerMessage(m).out|
    ensures RunDeserialize(ctx, name, SerMessage(m).out[..k]).Err?
    ensures var g := RunDeserialize(ctx, name, bs);
            g.Ok? ==> RunDeserialize(ctx, name, bs + ext) == Ok(g.val, g.rest + ext)
  {
    hide WellTyped, RunDeserialize, DeMessage, GoMessage, SerMessage, BoolsOfMessage;
    SerializationTruncated(ctx, name, m, k);
    GeneratedDeserializeAgrees(ctx, name, SerMessage(m).out[..k]);
    GeneratedDeserializeAgrees(ctx, name, bs);
    GeneratedDeserializeAgrees(ctx, name, bs + ext);
    if DeMessage(ctx, name, Strict, bs).Ok? {
      StrictMessage(ctx, name, bs, ext);
    }
  }

  /** Re-serialising what the generated decoder accepted reproduces the bytes it consumed, but
      for non-zero bool bytes, which become 1. */
  lemma GeneratedReserialises(ctx: Context, name: string, bs: seq<Byte>)
    requires Linked(ctx) && name in ctx.specs && RunDeserialize(ctx, name, bs).Ok?
    ensures var g := RunDeserialize(ctx, name, bs);
            var d := DeMessage(ctx, name, Lenient, bs);
            && d.Ok? && |g.rest| <= |bs| && bs == Consumed(bs, g.rest) + g.rest
            && Canonical(BoolsOfMessage(d.val), Consumed(bs, g.rest), RunSerialize(ctx, name, g.val))
            && Canonical(BoolsOfMessage(d.val), Consumed(bs, g.rest), SerMessage(d.val).out)
  {
    hide WellTyped, RunDeserialize, RunSerialize, DeMessage, GoMessage, SerMessage, BoolsOfMessage, Canonical;
    GeneratedDeserializeAgrees(ctx, name, bs);
    StrictMessage(ctx, name, bs, []);
    DecodeSound(ctx, name, Strict, bs);
    GeneratedSerializeAgrees(ctx, name, DeMessage(ctx, name, Strict, bs).val);
  }
}
