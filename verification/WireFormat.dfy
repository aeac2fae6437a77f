/** The bytes of a message written out: every builtin type by its name, byte by byte, then arrays, fields and
    nested messages. What the codecs compute is compared with this. */
module WireFormat {
  import opened Basics
  import opened Wire
  import opened LittleEndian
  import opened Schema
  import opened Codec
  import opened CodecTheorems
  import opened ZeroLength
  import opened Generated

  // ---------------------------------------------------------------- builtin types by name

  /** The bytes of one builtin value; None when the value is not of the Go type behind the name. */
  function PrimBytes(typ: string, v: Value): Option<seq<Byte>>
  {
    match (typ, v)
    case ("bool", VBool(x)) => Some([if x then 1 else 0])
    case ("int8", VInt(I8, n)) => Some([n % 256])
    case ("uint8", VInt(U8, n)) => Some([n % 256])
    case ("byte", VInt(U8, n)) => Some([n % 256])
    case ("char", VInt(U8, n)) => Some([n % 256])
    case ("int16", VInt(I16, n)) => Some(Two(n))
    case ("uint16", VInt(U16, n)) => Some(Two(n))
    case ("int32", VInt(I32, n)) => Some(Four(n))
    case ("uint32", VInt(U32, n)) => Some(Four(n))
    case ("int64", VInt(I64, n)) => Some(Eight(n))
    case ("uint64", VInt(U64, n)) => Some(Eight(n))
    case ("float32", VFloat32(bits)) => Some(Four(bits))
    case ("float64", VFloat64(lo, hi)) => Some(Four(lo) + Four(hi))
    case ("string", VStr(s)) => Some(Four(|s|) + s)
    case ("time", VTime(sec, nsec)) => Some(Four(sec) + Four(nsec))
    case ("duration", VDuration(sec, nsec)) => Some(Four(sec) + Four(nsec))
    case _ => None
  }

  /** What the first bytes say and the bytes after them; too few bytes are an error that eats them. */
  function PrimValue(typ: string, bs: seq<Byte>): Got<Value>
  {
    if |bs| < Least(typ) then Err([]) else
    match typ
    case "bool" => Ok(VBool(bs[0] != 0), bs[1..])
    case "int8" => Ok(VInt(I8, if bs[0] < 128 then bs[0] as int else bs[0] as int - 256), bs[1..])
    case "uint8" => Ok(VInt(U8, bs[0]), bs[1..])
    case "byte" => Ok(VInt(U8, bs[0]), bs[1..])
    case "char" => Ok(VInt(U8, bs[0]), bs[1..])
    case "int16" => Ok(VInt(I16, if bs[1] < 128 then TwoOf(bs) else TwoOf(bs) - 0x1_0000), bs[2..])
    case "uint16" => Ok(VInt(U16, TwoOf(bs)), bs[2..])
    case "int32" => Ok(VInt(I32, if bs[3] < 128 then FourOf(bs) else FourOf(bs) - 0x1_0000_0000), bs[4..])
    case "uint32" => Ok(VInt(U32, FourOf(bs)), bs[4..])
    case "int64" =>
      Ok(VInt(I64, if bs[7] < 128 then EightOf(bs) else EightOf(bs) - 0x1_0000_0000_0000_0000), bs[8..])
    case "uint64" => Ok(VInt(U64, EightOf(bs)), bs[8..])
    case "float32" => Ok(VFloat32(FourOf(bs)), bs[4..])
    case "float64" => Ok(VFloat64(FourOf(bs), FourOf(bs[4..])), bs[8..])
    case "string" =>
      if |bs| < 4 + FourOf(bs) then Err([]) else Ok(VStr(bs[4..4 + FourOf(bs)]), bs[4 + FourOf(bs)..])
    case "time" => Ok(VTime(FourOf(bs), FourOf(bs[4..])), bs[8..])
    case "duration" => Ok(VDuration(FourOf(bs), FourOf(bs[4..])), bs[8..])
    case _ => Crash
  }

  /** The fewest bytes a value of the type takes. */
  function Least(typ: string): nat
  {
    if typ in ["bool", "int8", "uint8", "byte", "char"] then 1
    else if typ in ["int16", "uint16"] then 2
    else if typ in ["int32", "uint32", "float32", "string"] then 4
    else 8
  }

  /** The zero of each builtin type. */
  function PrimZero(typ: string): Value
  {
    match typ
    case "bool" => VBool(false)
    case "int8" => VInt(I8, 0)
    case "uint8" => VInt(U8, 0)
    case "byte" => VInt(U8, 0)
    case "char" => VInt(U8, 0)
    case "int16" => VInt(I16, 0)
    case "uint16" => VInt(U16, 0)
    case "int32" => VInt(I32, 0)
    case "uint32" => VInt(U32, 0)
    case "int64" => VInt(I64, 0)
    case "uint64" => VInt(U64, 0)
    case "float32" => VFloat32(0)
    case "float64" => VFloat64(0, 0)
    case "string" => VStr([])
    case "time" => VTime(0, 0)
    case "duration" => VDuration(0, 0)
    case _ => Nil
  }

  /** The names the message language reserves. */
  predicate Reserved(typ: string)
  {
    typ in ["bool", "int8", "uint8", "byte", "char", "int16", "uint16", "int32", "uint32", "int64", "uint64",
            "float32", "float64", "string", "time", "duration"]
  }

  lemma ReservedAreBuiltin(f: Field)
    ensures f.IsBuiltin() <==> Reserved(f.typ)
  {
  }

  // ---------------------------------------------------------------- the codec's integers

  function IntBytes(k: IntKind, n: int): seq<Byte>
  {
    match k
    case I8 | U8 => [n % 256]
    case I16 | U16 => Two(n)
    case I32 | U32 => Four(n)
    case I64 | U64 => Eight(n)
  }

  /** The residue that is encoded has the bytes of the number itself. */
  lemma EncodesBytes(k: IntKind, n: int)
    ensures EncodeInt(k, n) == IntBytes(k, n)
  {
    hide LE, Two, Four, Eight;
    var r, q := n % Modulus(k), n / Modulus(k);
    match k
    case I8 | U8 =>
      LENext(0, r);
      NoBytes(r / 256);
    case I16 | U16 =>
      LETwo(r);
      TwoCarry(r, q);
    case I32 | U32 =>
      LEFour(r);
      FourCarry(r, q);
    case I64 | U64 =>
      LEEight(r);
      EightCarry(r, q);
  }

  lemma IntOf(k: IntKind, bs: seq<Byte>)
    requires |bs| == match k case I8 | U8 => 1 case I16 | U16 => 2 case I32 | U32 => 4 case I64 | U64 => 8
    ensures |bs| == k.Width()
    ensures DecodeInt(k, bs) ==
            match k
            case I8 => if bs[0] < 128 then bs[0] as int else bs[0] as int - 256
            case U8 => bs[0] as int
            case I16 => if bs[1] < 128 then TwoOf(bs) else TwoOf(bs) - 0x1_0000
            case U16 => TwoOf(bs)
            case I32 => if bs[3] < 128 then FourOf(bs) else FourOf(bs) - 0x1_0000_0000
            case U32 => FourOf(bs)
            case I64 => if bs[7] < 128 then EightOf(bs) else EightOf(bs) - 0x1_0000_0000_0000_0000
            case U64 => EightOf(bs)
  {
    hide UnLE;
    match k
    case I8 | U8 =>
      UnLENext(bs);
      assert bs[1..] == [];
      UnLENone();
    case I16 | U16 => UnLETwo(bs);
    case I32 | U32 =>
      UnLEFour(bs);
      assert bs[4..] == [];
      UnLENone();
    case I64 | U64 => UnLEEight(bs);
  }

  // ---------------------------------------------------------------- one element

  /** One value of a builtin type goes out as the bytes its name calls for; a value of another Go type is
      refused, and nil panics. */
  lemma SerElemBytes(f: Field, v: Value)
    requires Reserved(f.typ)
    ensures SerElem(f, v) ==
            match PrimBytes(f.typ, v)
            case Some(bs) => Written(bs, Fine)
            case None => Written([], if v.Nil? then Panicked else Failed)
  {
    hide SerPrim, PrimBytes, GoBytes, Reserved;
    ReservedAreBuiltin(f);
    var b := BuiltinOf(f.typ).value;
    NameBytes(f.typ, b, v);
    if b.BInt? && v.VInt? {
      SerIntBytes(b.kind, v.kind, v.n);
    } else {
      SerOtherBytes(b, v);
    }
  }

  /** The same by Go type. */
  function GoBytes(b: Builtin, v: Value): Option<seq<Byte>>
  {
    match (b, v)
    case (BBool, VBool(x)) => Some([if x then 1 else 0])
    case (BInt(k), VInt(l, n)) => if k == l then Some(IntBytes(k, n)) else None
    case (BFloat32, VFloat32(bits)) => Some(Four(bits))
    case (BFloat64, VFloat64(lo, hi)) => Some(Four(lo) + Four(hi))
    case (BString, VStr(x)) => Some(Four(|x|) + x)
    case (BTime, VTime(sec, nsec)) => Some(Four(sec) + Four(nsec))
    case (BDuration, VDuration(sec, nsec)) => Some(Four(sec) + Four(nsec))
    case _ => None
  }

  lemma NameBytes(typ: string, b: Builtin, v: Value)
    requires BuiltinOf(typ) == Some(b)
    ensures PrimBytes(typ, v) == GoBytes(b, v)
  {
    hide PrimBytes, GoBytes;
    if b.BInt? {
      IntNameBytes(typ, b.kind, v);
    } else {
      OtherNameBytes(typ, b, v);
    }
  }

  lemma IntNameBytes(typ: string, k: IntKind, v: Value)
    requires BuiltinOf(typ) == Some(BInt(k))
    ensures PrimBytes(typ, v) == GoBytes(BInt(k), v)
  {
    hide Two, Four, Eight;
  }

  lemma OtherNameBytes(typ: string, b: Builtin, v: Value)
    requires BuiltinOf(typ) == Some(b) && !b.BInt?
    ensures PrimBytes(typ, v) == GoBytes(b, v)
  {
    hide Two, Four, Eight, IntBytes;
  }

  lemma SerIntBytes(k: IntKind, l: IntKind, n: int)
    ensures SerPrim(BInt(k), VInt(l, n)) ==
            match GoBytes(BInt(k), VInt(l, n))
            case Some(bs) => Written(bs, Fine)
            case None => Written([], Failed)
  {
    hide EncodeInt, IntBytes;
    EncodesBytes(k, n);
  }

  lemma SerOtherBytes(b: Builtin, v: Value)
    requires !(b.BInt? && v.VInt?)
    ensures SerPrim(b, v) ==
            match GoBytes(b, v)
            case Some(bs) => Written(bs, Fine)
            case None => Written([], if v.Nil? then Panicked else Failed)
  {
    hide Word32, Four;
    match v
    case VFloat32(x) => WordBytes(x);
    case VFloat64(lo, hi) =>
      WordBytes(lo);
      WordBytes(hi);
    case VStr(x) => WordBytes(|x|);
    case VTime(sec, nsec) =>
      WordBytes(sec);
      WordBytes(nsec);
    case VDuration(sec, nsec) =>
      WordBytes(sec);
      WordBytes(nsec);
    case _ =>
  }

  /** The mirror: what a builtin type is read from, whatever the bytes. Only in an array of numbers or bools
      does the interpreter read a zero where bytes are missing. */
  lemma DeElemBytes(ctx: Context, name: string, mode: Mode, f: Field, bs: seq<Byte>)
    requires Acyclic(ctx) && name in ctx.specs && f in ctx.specs[name].fields && Reserved(f.typ)
    ensures DeElem(ctx, name, mode, f, bs) ==
            if PrimValue(f.typ, bs).Err? && mode.Lenient? && f.isArray && f.typ !in ["string", "time", "duration"]
            then Ok(PrimZero(f.typ), []) else PrimValue(f.typ, bs)
  {
    hide UnLE, DecodeInt, UnWord32, TwoOf, FourOf, EightOf, Reserved, Acyclic, PrimValue, ReadPrim, PrimZero;
    ReservedAreBuiltin(f);
    ReadPrimBytes(f.typ, BuiltinOf(f.typ).value, bs);
  }

  lemma ReadPrimBytes(typ: string, b: Builtin, bs: seq<Byte>)
    requires BuiltinOf(typ) == Some(b)
    ensures ReadPrim(b, bs) == PrimValue(typ, bs)
    ensures ReadPrim(b, bs).Err? ==> ReadPrim(b, bs).rest == []
    ensures PrimZero(typ) == ZeroPrim(b)
    ensures b.Primitive() <==> typ !in ["string", "time", "duration"]
  {
    hide ReadPrim, PrimValue;
    if b.BInt? {
      ReadIntBytes(typ, b.kind, bs);
    } else {
      ReadOtherBytes(typ, b, bs);
    }
    ErrorsEatAll(b, bs);
  }

  lemma ErrorsEatAll(b: Builtin, bs: seq<Byte>)
    ensures ReadPrim(b, bs).Err? ==> ReadPrim(b, bs).rest == []
  {
    hide UnLE, DecodeInt, UnWord32;
  }

  lemma ReadIntBytes(typ: string, k: IntKind, bs: seq<Byte>)
    requires BuiltinOf(typ) == Some(BInt(k))
    ensures ReadPrim(BInt(k), bs) == PrimValue(typ, bs)
  {
    hide UnLE, DecodeInt, TwoOf, FourOf, EightOf;
    if |bs| >= k.Width() {
      IntOf(k, bs[..k.Width()]);
      FirstBytes(bs, k.Width());
    }
  }

  lemma ReadOtherBytes(typ: string, b: Builtin, bs: seq<Byte>)
    requires BuiltinOf(typ) == Some(b) && !b.BInt?
    ensures ReadPrim(b, bs) == PrimValue(typ, bs)
  {
    hide UnLE, DecodeInt, UnWord32, TwoOf, FourOf, EightOf;
    TakeWordOf(bs);
    if |bs| >= 4 {
      TakeWordOf(bs[4..]);
    }
    match b
    case BBool =>
      if bs != [] {
        assert bs[..1] == [bs[0]];
      }
    case BFloat64 =>
      if |bs| >= 8 {
        WordOf(bs[..4]);
        WordOf(bs[4..8]);
        FirstBytes(bs, 4);
        FirstBytes(bs[4..], 4);
        assert bs[..8][..4] == bs[..4] && bs[..8][4..] == bs[4..8] == bs[4..][..4];
      }
    case BString =>
      if |bs| >= 4 && |bs| >= 4 + FourOf(bs) {
        assert bs[4..][..FourOf(bs)] == bs[4..4 + FourOf(bs)];
      }
    case _ =>
  }

  // ---------------------------------------------------------------- arrays, fields, messages

  /** The fields in declaration order, nothing between them. */
  function MessageBytes(m: Message): seq<Byte>
    decreases m, |m.spec.fields| + 1
  {
    FieldsBytes(m, |m.spec.fields|)
  }

  function FieldsBytes(m: Message, n: nat): seq<Byte>
    requires n <= |m.spec.fields|
    decreases m, n
  {
    if n == 0 then []
    else
      var f := m.spec.fields[n - 1];
      FieldsBytes(m, n - 1) +
      if m.data.Data? && f.name in m.data.fields then FieldBytes(f, m.data.fields[f.name]) else []
  }

  /** An array `T[]` is its four-byte count and its elements; `T[n]` is its elements alone. */
  function FieldBytes(f: Field, v: Value): seq<Byte>
    decreases v, 1
  {
    if !f.isArray then ElemBytes(f.typ, v)
    else if v.VSlice? then (if f.arrayLen < 0 then Four(|v.items|) else []) + ItemsBytes(f.typ, v.items, |v.items|)
    else []
  }

  function ItemsBytes(typ: string, items: seq<Value>, n: nat): seq<Byte>
    requires n <= |items|
    decreases items, n
  {
    if n == 0 then [] else ItemsBytes(typ, items, n - 1) + ElemBytes(typ, items[n - 1])
  }

  function ElemBytes(typ: string, v: Value): seq<Byte>
    decreases v, 0
  {
    if v.VMsg? then MessageBytes(v.m)
    else if PrimBytes(typ, v).Some? then PrimBytes(typ, v).value
    else []
  }

  /** Every well-typed message of every schema goes out as these bytes. */
  lemma {:induction false} SerMessageBytes(ctx: Context, name: string, m: Message)
    requires WellFormed(ctx) && name in ctx.specs && WellTyped(ctx, name, m)
    ensures SerMessage(m) == Written(MessageBytes(m), Fine)
    decreases ctx.rank[name], |m.spec.fields| + 1
  {
    hide WellFormed;
    SerFieldsBytes(ctx, name, m, 0);
    assert FieldsBytes(m, 0) + SerFields(m, 0).out == SerFields(m, 0).out;
  }

  lemma {:induction false} SerFieldsBytes(ctx: Context, name: string, m: Message, i: nat)
    requires WellFormed(ctx) && name in ctx.specs && WellTyped(ctx, name, m) && i <= |m.spec.fields|
    ensures SerFields(m, i).st.Fine?
    ensures FieldsBytes(m, i) + SerFields(m, i).out == MessageBytes(m)
    decreases ctx.rank[name], |m.spec.fields| - i
  {
    hide WellFormed, FieldTyped, SerField, FieldBytes;
    if i < |m.spec.fields| {
      var f := m.spec.fields[i];
      assert f in m.spec.fields && f.name in FieldNames(m.spec.fields);
      var v := m.data.fields[f.name];
      SerFieldBytes(ctx, name, f, v);
      SerFieldsBytes(ctx, name, m, i + 1);
      assert FieldsBytes(m, i + 1) == FieldsBytes(m, i) + FieldBytes(f, v);
    } else {
      assert FieldsBytes(m, i) + [] == FieldsBytes(m, i);
    }
  }

  lemma {:induction false} SerFieldBytes(ctx: Context, name: string, f: Field, v: Value)
    requires WellFormed(ctx) && name in ctx.specs && f in ctx.specs[name].fields && FieldTyped(ctx, name, f, v)
    ensures SerField(f, v) == Written(FieldBytes(f, v), Fine)
    decreases ctx.rank[name], 0, 2
  {
    hide ElemTyped, SerElem, ElemBytes, Word32, Four, Acyclic, DistinctNames, Unmasked;
    assert f.Shaped();
    if f.isArray {
      SerItemsBytes(ctx, name, f, v.items, 0);
      WordBytes(|v.items|);
    } else {
      SerOneBytes(ctx, name, f, v);
    }
  }

  lemma {:induction false} SerItemsBytes(ctx: Context, name: string, f: Field, items: seq<Value>, i: nat)
    requires WellFormed(ctx) && name in ctx.specs && f in ctx.specs[name].fields && i <= |items|
    requires forall x <- items :: ElemTyped(ctx, name, f, x)
    ensures SerItems(f, items, i, |items|).st.Fine?
    ensures ItemsBytes(f.typ, items, i) + SerItems(f, items, i, |items|).out == ItemsBytes(f.typ, items, |items|)
    decreases ctx.rank[name], 0, 1, |items| - i
  {
    hide WellFormed, ElemTyped, SerElem, ElemBytes;
    if i < |items| {
      SerOneBytes(ctx, name, f, items[i]);
      SerItemsBytes(ctx, name, f, items, i + 1);
    }
  }

  lemma {:induction false} SerOneBytes(ctx: Context, name: string, f: Field, v: Value)
    requires WellFormed(ctx) && name in ctx.specs && f in ctx.specs[name].fields && ElemTyped(ctx, name, f, v)
    ensures SerElem(f, v) == Written(ElemBytes(f.typ, v), Fine)
    decreases ctx.rank[name], 0, 0
  {
    hide Reserved, PrimBytes, SerPrim, SerMessage, MessageBytes, DistinctNames, Unmasked;
    ReservedAreBuiltin(f);
    if f.IsBuiltin() {
      SerElemBytes(f, v);
      RoundTripPrim(BuiltinOf(f.typ).value, v, []);
    } else {
      SerMessageBytes(ctx, Ref(ctx, f), v.m);
    }
  }

  /** So do the generated methods, for whatever struct holds such a message. */
  lemma GeneratedBytes(ctx: Context, name: string, m: Message)
    requires Linked(ctx) && name in ctx.specs && WellTyped(ctx, name, m)
    ensures RunSerialize(ctx, name, GoMessage(m)) == MessageBytes(m)
  {
    hide WellTyped, RunSerialize, SerMessage, MessageBytes, GoMessage;
    GeneratedSerializeAgrees(ctx, name, m);
    SerMessageBytes(ctx, name, m);
  }

  /** And both decoders read these bytes back, in front of anything. */
  lemma BytesReadBack(ctx: Context, name: string, mode: Mode, m: Message, rest: seq<Byte>)
    requires WellFormed(ctx) && name in ctx.specs && WellTyped(ctx, name, m)
    ensures DeMessage(ctx, name, mode, MessageBytes(m) + rest) == Ok(m, rest)
  {
    hide WellTyped, SerMessage, DeMessage, MessageBytes, WellFormed;
    SerMessageBytes(ctx, name, m);
    RoundTrip(ctx, name, mode, m, rest);
  }

  /** A message of another type than the field's is refused, nil panics. */
  lemma WrongMessageRefused(f: Field, v: Value)
    requires !Reserved(f.typ) && (v.VMsg? ==> v.m.spec.shortName != f.typ)
    ensures SerElem(f, v) == Written([], if v.Nil? then Panicked else Failed)
  {
    hide Reserved, SerMessage;
    ReservedAreBuiltin(f);
  }

  /** A Go string held for an array of bytes is written like one, any other array refuses it. */
  lemma StringForArray(f: Field, s: seq<Byte>)
    requires f.isArray && f.arrayLen == -1 && 0 < |s| < 0x1_0000_0000
    ensures SerField(f, VStr(s)) ==
            if f.typ in ["uint8", "byte", "char"] then Written(Four(|s|) + s, Fine) else Written(Four(|s|), Failed)
  {
    hide Word32, Four;
    WordBytes(|s|);
    assert s[..|s|] == s;
    assert Four(|s|) + [] == Four(|s|);
  }

  /** `T[n]` of a builtin type writes the first n elements of the slice it finds, and panics behind the last one of
      a shorter slice. */
  lemma FixedArrayBytes(f: Field, elem: Option<Builtin>, items: seq<Value>)
    requires Reserved(f.typ) && f.isArray && 0 <= f.arrayLen < 0x1_0000_0000
    requires forall x <- items :: PrimBytes(f.typ, x).Some?
    ensures SerField(f, VSlice(elem, items)) ==
            if f.arrayLen <= |items| then Written(ItemsBytes(f.typ, items, f.arrayLen), Fine)
            else Written(ItemsBytes(f.typ, items, |items|), Panicked)
  {
    hide PrimBytes, Reserved, SerItems, ItemsBytes;
    ItemsUpTo(f, items, 0, f.arrayLen);
    NoItemBytes(f.typ, items);
    var w := SerItems(f, items, 0, f.arrayLen);
    assert [] + w.out == w.out;
  }

  lemma NoItemBytes(typ: string, items: seq<Value>)
    ensures ItemsBytes(typ, items, 0) == []
  {
  }

  lemma {:induction false} ItemsUpTo(f: Field, items: seq<Value>, i: nat, size: nat)
    requires Reserved(f.typ) && i <= size && i <= |items| && forall x <- items :: PrimBytes(f.typ, x).Some?
    ensures var w := SerItems(f, items, i, size);
            if size <= |items| then w.st.Fine? && ItemsBytes(f.typ, items, i) + w.out == ItemsBytes(f.typ, items, size)
            else w.st.Panicked? && ItemsBytes(f.typ, items, i) + w.out == ItemsBytes(f.typ, items, |items|)
    decreases size - i
  {
    hide PrimBytes, Reserved, SerElem;
    if i < size && i < |items| {
      SerElemBytes(f, items[i]);
      NotAMessage(f.typ, items[i]);
      ItemsUpTo(f, items, i + 1, size);
    }
  }

  lemma NotAMessage(typ: string, v: Value)
    ensures PrimBytes(typ, v).Some? ==> !v.VMsg?
  {
  }

  /** A message without data fails with nothing written, one that lacks a field with the fields before it. */
  lemma MissingDataFails(m: Message, i: nat)
    requires i < |m.spec.fields|
    ensures m.data.NilData? ==> SerMessage(m) == Written([], Failed)
    ensures m.data.Data? && m.spec.fields[i].name !in m.data.fields ==> SerFields(m, i) == Written([], Failed)
  {
  }

  // ---------------------------------------------------------------- fresh messages

  /** A field whose definition is not loaded: no fresh message, and an error before any byte is read. */
  lemma MissingDefinition(ctx: Context, name: string, mode: Mode, f: Field, bs: seq<Byte>)
    requires Acyclic(ctx) && name in ctx.specs && f in ctx.specs[name].fields && !f.isArray
    requires !Reserved(f.typ) && Ref(ctx, f) !in ctx.specs
    ensures ZeroField(ctx, name, f) == Missing && DeField(ctx, name, mode, f, bs) == Err(bs)
  {
    hide Reserved, Acyclic;
    ReservedAreBuiltin(f);
  }

  /** What a fresh message holds for a field of a builtin type: its zero, none for `T[]`, n of them for `T[n]`. */
  lemma ZeroFieldByName(ctx: Context, name: string, f: Field)
    requires Acyclic(ctx) && name in ctx.specs && f in ctx.specs[name].fields && Reserved(f.typ) && f.Shaped()
    ensures ZeroField(ctx, name, f).Made?
    ensures var v := ZeroField(ctx, name, f).value;
            if !f.isArray then v == PrimZero(f.typ)
            else v.VSlice? && v.elem == BuiltinOf(f.typ)
                 && |v.items| == (if f.arrayLen < 0 then 0 else f.arrayLen)
                 && forall x <- v.items :: x == PrimZero(f.typ)
  {
    hide Reserved, PrimZero, ZeroPrim, Acyclic, ReadPrim, PrimValue;
    ReservedAreBuiltin(f);
    ReadPrimBytes(f.typ, BuiltinOf(f.typ).value, []);
  }

  /** On the wire a fresh message, dynamic or generated, is nothing but zero bytes. */
  lemma {:induction false} ZeroBytes(ctx: Context, name: string)
    requires WellFormed(ctx) && name in ctx.specs
    ensures ZeroMessage(ctx, name).Made?
    ensures OnlyZeros(MessageBytes(ZeroMessage(ctx, name).value))
    decreases ctx.rank[name], |ctx.specs[name].fields| + 1
  {
    hide Acyclic, Closed, DistinctNames, Unmasked, ZeroField, FieldsBytes, WellTyped, ZeroFields;
    ZeroMessageTyped(ctx, name);
    ZeroFieldsHold(ctx, name, 0, map[]);
    ZeroFieldsBytes(ctx, name, ZeroMessage(ctx, name).value, |ctx.specs[name].fields|);
  }

  predicate OnlyZeros(bs: seq<Byte>)
  {
    forall b <- bs :: b == 0
  }

  lemma {:induction false} ZeroFieldsBytes(ctx: Context, name: string, m: Message, n: nat)
    requires WellFormed(ctx) && name in ctx.specs && m.spec == ctx.specs[name] && m.data.Data? && n <= |m.spec.fields|
    requires forall f <- m.spec.fields ::
               f.name in m.data.fields && Made(m.data.fields[f.name]) == ZeroField(ctx, name, f)
    ensures OnlyZeros(FieldsBytes(m, n))
    decreases ctx.rank[name], n
  {
    hide WellFormed, ZeroField, FieldBytes;
    if n > 0 {
      ZeroFieldsBytes(ctx, name, m, n - 1);
      ZeroFieldBytes(ctx, name, m.spec.fields[n - 1]);
    }
  }

  lemma {:induction false} ZeroFieldBytes(ctx: Context, name: string, f: Field)
    requires WellFormed(ctx) && name in ctx.specs && f in ctx.specs[name].fields && ZeroField(ctx, name, f).Made?
    ensures OnlyZeros(FieldBytes(f, ZeroField(ctx, name, f).value))
    decreases ctx.rank[name], 0, 2
  {
    hide Acyclic, DistinctNames, ZeroElem, ElemBytes;
    assert f.Shaped();
    if f.isArray && f.arrayLen <= 0 {
      assert Four(0) == [0, 0, 0, 0];
    } else {
      ZeroElemBytes(ctx, name, f);
      if f.isArray {
        var v := ZeroElem(ctx, name, f).value;
        SameItemsBytes(f.typ, seq(f.arrayLen, _ => v), v, f.arrayLen);
      }
    }
  }

  lemma {:induction false} SameItemsBytes(typ: string, items: seq<Value>, v: Value, n: nat)
    requires n <= |items| && (forall x <- items :: x == v) && OnlyZeros(ElemBytes(typ, v))
    ensures OnlyZeros(ItemsBytes(typ, items, n))
  {
    hide ElemBytes;
    if n > 0 {
      SameItemsBytes(typ, items, v, n - 1);
      assert items[n - 1] in items;
    }
  }

  lemma {:induction false} ZeroElemBytes(ctx: Context, name: string, f: Field)
    requires WellFormed(ctx) && name in ctx.specs && f in ctx.specs[name].fields
    ensures ZeroElem(ctx, name, f).Made? && OnlyZeros(ElemBytes(f.typ, ZeroElem(ctx, name, f).value))
    decreases ctx.rank[name], 0, 0
  {
    hide DistinctNames, Unmasked, MessageBytes, PrimBytes, BuiltinOf, ZeroMessage;
    match BuiltinOf(f.typ)
    case Some(b) => ZeroPrimBytes(f.typ, b);
    case None => ZeroBytes(ctx, Ref(ctx, f));
  }

  lemma ZeroPrimBytes(typ: string, b: Builtin)
    requires BuiltinOf(typ) == Some(b)
    ensures PrimBytes(typ, ZeroPrim(b)).Some? && OnlyZeros(PrimBytes(typ, ZeroPrim(b)).value)
    ensures !ZeroPrim(b).VMsg?
  {
    hide PrimBytes;
    NameBytes(typ, b, ZeroPrim(b));
  }
}
