/** What the interpreting codec computes: DynamicMessage's Serialize, Deserialize and
    zeroValueData as functions of the message, the loaded context and the bytes. */
module Codec {
  import opened Basics
  import opened Wire
  import opened Schema

  /** Floats are opaque bit patterns; a nested message is a value; `Nil` is a nil interface. */
  datatype Value =
    | VBool(b: bool)
    | VInt(kind: IntKind, n: int)
    | VFloat32(bits: Word)
    | VFloat64(lo: Word, hi: Word)
    | VStr(s: seq<Byte>)
    | VTime(sec: Word, nsec: Word)
    | VDuration(sec: Word, nsec: Word)
    | VSlice(elem: Option<Builtin>, items: seq<Value>)
    | VMsg(m: Message)
    | Nil

  datatype Payload = NilData | Data(fields: map<string, Value>)

  datatype Message = Message(spec: MsgSpec, data: Payload)

  // ---------------------------------------------------------------- integers

  function Modulus(k: IntKind): (p: nat)
    ensures p > 0 && p % 2 == 0
  {
    match k.Width()
    case 1 => 0x100
    case 2 => 0x1_0000
    case 4 => 0x1_0000_0000
    case _ => 0x1_0000_0000_0000_0000
  }

  predicate InRange(k: IntKind, n: int)
  {
    if k.Signed() then 0 <= 2 * n + Modulus(k) < 2 * Modulus(k) else 0 <= n < Modulus(k)
  }

  /** Two's complement. */
  function EncodeInt(k: IntKind, n: int): (bs: seq<Byte>)
    ensures |bs| == k.Width()
  {
    LE(k.Width(), n % Modulus(k))
  }

  function DecodeInt(k: IntKind, bs: seq<Byte>): int
    requires |bs| == k.Width()
  {
    var u := UnLE(bs);
    if k.Signed() && 2 * u >= Modulus(k) then u - Modulus(k) else u
  }

  lemma ModulusIsPow(k: IntKind)
    ensures Modulus(k) == Pow256(k.Width())
  {
  }

  /** The residue of an in-range integer, and the integer back from the residue. */
  lemma Residue(k: IntKind, n: int)
    requires InRange(k, n)
    ensures n % Modulus(k) == if n < 0 then n + Modulus(k) else n
    ensures n < 0 <==> k.Signed() && 2 * (n % Modulus(k)) >= Modulus(k)
  {
    match k
    case I8 => case U8 => case I16 => case U16 => case I32 => case U32 => case I64 => case U64 =>
  }

  lemma IntRoundTrip(k: IntKind, n: int)
    requires InRange(k, n)
    ensures DecodeInt(k, EncodeInt(k, n)) == n
  {
    ModulusIsPow(k);
    Residue(k, n);
    WordRoundTrip(k.Width(), n % Modulus(k));
  }

  lemma IntBytesRoundTrip(k: IntKind, bs: seq<Byte>)
    requires |bs| == k.Width()
    ensures InRange(k, DecodeInt(k, bs)) && EncodeInt(k, DecodeInt(k, bs)) == bs
  {
    ModulusIsPow(k);
    BytesRoundTrip(bs);
    Residue(k, DecodeInt(k, bs));
  }

  // ---------------------------------------------------------------- Serialize

  datatype Status = Fine | Failed | Panicked

  /** The bytes appended to the buffer, and how the call ended. */
  datatype Written = Written(out: seq<Byte>, st: Status)
  {
    /** Run `next` after this write, unless this write stopped the call. */
    function Then(next: Written): Written
    {
      if st.Fine? then Written(out + next.out, next.st) else this
    }
  }

  /** One builtin value: the type assertion, then the write. */
  function SerPrim(b: Builtin, v: Value): Written
  {
    match (b, v)
    case (BBool, VBool(x)) => Written([if x then 1 else 0], Fine)
    case (BInt(k), VInt(k', n)) => if k == k' then Written(EncodeInt(k, n), Fine) else Written([], Failed)
    case (BFloat32, VFloat32(x)) => Written(Word32(x), Fine)
    case (BFloat64, VFloat64(lo, hi)) => Written(Word32(lo) + Word32(hi), Fine)
    case (BString, VStr(s)) => Written(Word32(|s| % TWO_TO_32) + s, Fine)
    case (BTime, VTime(s, n)) => Written(Word32(s) + Word32(n), Fine)
    case (BDuration, VDuration(s, n)) => Written(Word32(s) + Word32(n), Fine)
    case _ => Written([], if v.Nil? then Panicked else Failed)
  }

  function SerMessage(m: Message): Written
    decreases m, |m.spec.fields| + 1
  {
    SerFields(m, 0)
  }

  function SerFields(m: Message, i: nat): Written
    requires i <= |m.spec.fields|
    decreases m, |m.spec.fields| - i
  {
    if i == |m.spec.fields| then
      Written([], Fine)
    else
      var f := m.spec.fields[i];
      if m.data.NilData? || f.name !in m.data.fields then
        Written([], Failed)
      else
        SerField(f, m.data.fields[f.name]).Then(SerFields(m, i + 1))
  }

  function SerField(f: Field, v: Value): Written
    decreases v, 1
  {
    if !f.isArray then
      SerElem(f, v)
    else
      match v
      case VSlice(_, items) => SerLength(f, |items|).Then(SerItems(f, items, 0, WireLength(f, |items|)))
      case VStr(s) => SerLength(f, |s|).Then(SerStringItems(f, s, WireLength(f, |s|)))
      // reflect refuses Len and Index on anything else
      case _ => if f.arrayLen < 0 || f.arrayLen % TWO_TO_32 > 0 then Written([], Panicked) else Written([], Fine)
  }

  /** The number of elements the loop visits: uint32 of the slice's or of the declared length. */
  function WireLength(f: Field, len: nat): Word
  {
    (if f.arrayLen < 0 then len else f.arrayLen) % TWO_TO_32
  }

  function SerLength(f: Field, len: nat): Written
  {
    Written(if f.arrayLen < 0 then Word32(WireLength(f, len)) else [], Fine)
  }

  function SerItems(f: Field, items: seq<Value>, i: nat, size: nat): Written
    requires i <= size
    decreases items, size - i
  {
    if i == size then Written([], Fine)
    else if i >= |items| then Written([], Panicked)
    else SerElem(f, items[i]).Then(SerItems(f, items, i + 1, size))
  }

  /** A Go string indexes like a slice of uint8. */
  function SerStringItems(f: Field, s: seq<Byte>, size: nat): Written
  {
    if size == 0 then Written([], Fine)
    else if s == [] then Written([], Panicked)
    else if BuiltinOf(f.typ) != Some(BInt(U8)) then Written([], Failed)
    else if size <= |s| then Written(s[..size], Fine)
    else Written(s, Panicked)
  }

  function SerElem(f: Field, v: Value): Written
    decreases v, 0
  {
    match BuiltinOf(f.typ)
    case Some(b) => SerPrim(b, v)
    case None =>
      if v.Nil? then Written([], Panicked)
      else if !v.VMsg? || v.m.spec.shortName != f.typ then Written([], Failed)
      else SerMessage(v.m)
  }

  // ---------------------------------------------------------------- zeroValueData

  function ZeroPrim(b: Builtin): Value
  {
    match b
    case BBool => VBool(false)
    case BInt(k) => VInt(k, 0)
    case BFloat32 => VFloat32(0)
    case BFloat64 => VFloat64(0, 0)
    case BString => VStr([])
    case BTime => VTime(0, 0)
    case BDuration => VDuration(0, 0)
  }

  /** The element type of the slice made for an array field, chosen by the name of its Go type; None
      is the type of messages. */
  function SliceElem(f: Field): Option<Builtin>
  {
    if f.Masked() then Some(if f.typ == "Time" then BTime else BDuration) else BuiltinOf(f.typ)
  }

  /** `Missing` is an error for a definition that is not there; NewMessage turns it into nil. */
  datatype Made<+T> = Made(value: T) | Missing | Panics

  /** NewMessage: Missing when a field of the type itself names a missing definition. */
  function ZeroMessage(ctx: Context, name: string): Made<Message>
    requires Acyclic(ctx) && name in ctx.specs
    decreases ctx.rank[name], |ctx.specs[name].fields| + 1
  {
    match ZeroFields(ctx, name, 0, map[])
    case Made(data) => Made(Message(ctx.specs[name], Data(data)))
    case Missing => Missing
    case Panics => Panics
  }

  function ZeroFields(ctx: Context, name: string, i: nat, acc: map<string, Value>): Made<map<string, Value>>
    requires Acyclic(ctx) && name in ctx.specs && i <= |ctx.specs[name].fields|
    decreases ctx.rank[name], |ctx.specs[name].fields| - i
  {
    if i == |ctx.specs[name].fields| then
      Made(acc)
    else
      match ZeroField(ctx, name, ctx.specs[name].fields[i])
      case Made(v) => ZeroFields(ctx, name, i + 1, acc[ctx.specs[name].fields[i].name := v])
      case Missing => Missing
      case Panics => Panics
  }

  function ZeroField(ctx: Context, name: string, f: Field): Made<Value>
    requires Acyclic(ctx) && name in ctx.specs && f in ctx.specs[name].fields
    decreases ctx.rank[name], 0, 1
  {
    if f.isArray && (f.arrayLen == -1 || f.arrayLen % TWO_TO_32 == 0) then
      Made(VSlice(SliceElem(f), []))
    else
      match ZeroElem(ctx, name, f)
      case Made(v) =>
        if !f.isArray then Made(v)
        // a slice of times or durations is asserted to be one of messages
        else if f.Masked() then Panics
        else Made(VSlice(SliceElem(f), seq(f.arrayLen % TWO_TO_32, _ => v)))
      case Missing => Missing
      case Panics => Panics
  }

  function ZeroElem(ctx: Context, name: string, f: Field): Made<Value>
    requires Acyclic(ctx) && name in ctx.specs && f in ctx.specs[name].fields
    decreases ctx.rank[name], 0, 0
  {
    match BuiltinOf(f.typ)
    case Some(b) => Made(ZeroPrim(b))
    case None =>
      if Ref(ctx, f) !in ctx.specs then Missing
      else
        match ZeroMessage(ctx, Ref(ctx, f))
        case Made(m) => Made(VMsg(m))
        case Missing => Made(Nil)
        case Panics => Panics
  }

  // ---------------------------------------------------------------- Deserialize

  /** `Lenient` drops read errors inside arrays of primitives, as the interpreter does;
      `Strict` reports every read error, as the generated code does. */
  datatype Mode = Lenient | Strict

  function Map<A, B>(r: Got<A>, f: A -> B): Got<B>
  {
    match r
    case Ok(v, rest) => Ok(f(v), rest)
    case Err(rest) => Err(rest)
    case Crash => Crash
  }

  function ReadPair(bs: seq<Byte>): Got<(Word, Word)>
  {
    match TakeWord(bs)
    case Ok(a, rest) => Map(TakeWord(rest), b => (a, b))
    case Err(rest) => Err(rest)
    case Crash => Crash
  }

  function ReadPrim(b: Builtin, bs: seq<Byte>): Got<Value>
  {
    match b
    case BBool => Map(Take(1, bs), (x: seq<Byte>) => VBool(x != [0]))
    case BInt(k) =>
      (match Take(k.Width(), bs)
       case Ok(x, rest) => Ok(VInt(k, DecodeInt(k, x)), rest)
       case Err(rest) => Err(rest)
       case Crash => Crash)
    case BFloat32 => Map(TakeWord(bs), x => VFloat32(x))
    case BFloat64 =>
      (match Take(8, bs)
       case Ok(x, rest) => Ok(VFloat64(UnWord32(x[..4]), UnWord32(x[4..])), rest)
       case Err(rest) => Err(rest)
       case Crash => Crash)
    case BString =>
      (match TakeWord(bs)
       case Ok(n, rest) => Map(Take(n, rest), (x: seq<Byte>) => VStr(x))
       case Err(rest) => Err(rest)
       case Crash => Crash)
    case BTime => Map(ReadPair(bs), (p: (Word, Word)) => VTime(p.0, p.1))
    case BDuration => Map(ReadPair(bs), (p: (Word, Word)) => VDuration(p.0, p.1))
  }

  function ReadBuiltin(b: Builtin, mode: Mode, inArray: bool, bs: seq<Byte>): Got<Value>
  {
    var r := ReadPrim(b, bs);
    if mode.Lenient? && inArray && b.Primitive() && r.Err? then Ok(ZeroPrim(b), r.rest) else r
  }

  function DeMessage(ctx: Context, name: string, mode: Mode, bs: seq<Byte>): Got<Message>
    requires Acyclic(ctx) && name in ctx.specs
    decreases ctx.rank[name], |ctx.specs[name].fields| + 1
  {
    match DeFields(ctx, name, mode, 0, bs, map[])
    case Ok(data, rest) => Ok(Message(ctx.specs[name], Data(data)), rest)
    case Err(rest) => Err(rest)
    case Crash => Crash
  }

  function DeFields(ctx: Context, name: string, mode: Mode, i: nat, bs: seq<Byte>, acc: map<string, Value>)
    : Got<map<string, Value>>
    requires Acyclic(ctx) && name in ctx.specs && i <= |ctx.specs[name].fields|
    decreases ctx.rank[name], |ctx.specs[name].fields| - i
  {
    if i == |ctx.specs[name].fields| then
      Ok(acc, bs)
    else
      match DeField(ctx, name, mode, ctx.specs[name].fields[i], bs)
      case Ok(v, rest) => DeFields(ctx, name, mode, i + 1, rest, acc[ctx.specs[name].fields[i].name := v])
      case Err(rest) => Err(rest)
      case Crash => Crash
  }

  function DeField(ctx: Context, name: string, mode: Mode, f: Field, bs: seq<Byte>): Got<Value>
    requires Acyclic(ctx) && name in ctx.specs && f in ctx.specs[name].fields
    decreases ctx.rank[name], 0, 2
  {
    if !f.isArray then
      DeElem(ctx, name, mode, f, bs)
    else if f.arrayLen < 0 then
      match TakeWord(bs)
      case Ok(size, rest) => DeItems(ctx, name, mode, f, size, rest, [])
      case Err(rest) => Err(rest)
      case Crash => Crash
    else
      DeItems(ctx, name, mode, f, f.arrayLen % TWO_TO_32, bs, [])
  }

  function DeItems(ctx: Context, name: string, mode: Mode, f: Field, n: nat, bs: seq<Byte>, acc: seq<Value>)
    : Got<Value>
    requires Acyclic(ctx) && name in ctx.specs && f in ctx.specs[name].fields
    decreases ctx.rank[name], 0, 1, n
  {
    if n == 0 then
      Ok(VSlice(SliceElem(f), acc), bs)
    else
      match DeElem(ctx, name, mode, f, bs)
      case Ok(v, rest) => DeItems(ctx, name, mode, f, n - 1, rest, acc + [v])
      case Err(rest) => Err(rest)
      case Crash => Crash
  }

  function DeElem(ctx: Context, name: string, mode: Mode, f: Field, bs: seq<Byte>): Got<Value>
    requires Acyclic(ctx) && name in ctx.specs && f in ctx.specs[name].fields
    decreases ctx.rank[name], 0, 0
  {
    match BuiltinOf(f.typ)
    case Some(b) => ReadBuiltin(b, mode, f.isArray, bs)
    case None =>
      if Ref(ctx, f) !in ctx.specs then Err(bs)
      else if !ZeroMessage(ctx, Ref(ctx, f)).Made? then Crash
      else
        var r := Map(DeMessage(ctx, Ref(ctx, f), mode, bs), m => VMsg(m));
        // the message is appended to what is asserted to be a slice of messages
        if r.Ok? && f.isArray && f.Masked() then Crash else r
  }
}
