/** Message specifications, as the .msg parser produces them and the codecs interpret them. */
module Schema {
  import opened Basics

  datatype IntKind = I8 | U8 | I16 | U16 | I32 | U32 | I64 | U64
  {
    function Width(): (w: nat)
    {
      match this
      case I8 | U8 => 1
      case I16 | U16 => 2
      case I32 | U32 => 4
      case I64 | U64 => 8
    }

    predicate Signed()
    {
      I8? || I16? || I32? || I64?
    }
  }

  /** What a builtin type name means to the codecs: the Go type chosen by ToGoType. */
  datatype Builtin = BBool | BInt(kind: IntKind) | BFloat32 | BFloat64 | BString | BTime | BDuration
  {
    /** The types the codecs read with a single binary.Read. */
    predicate Primitive()
    {
      !BString? && !BTime? && !BDuration?
    }
  }

  function BuiltinOf(typ: string): Option<Builtin>
  {
    if typ == "bool" then Some(BBool)
    else if typ == "int8" then Some(BInt(I8))
    else if typ == "uint8" || typ == "char" || typ == "byte" then Some(BInt(U8))
    else if typ == "int16" then Some(BInt(I16))
    else if typ == "uint16" then Some(BInt(U16))
    else if typ == "int32" then Some(BInt(I32))
    else if typ == "uint32" then Some(BInt(U32))
    else if typ == "int64" then Some(BInt(I64))
    else if typ == "uint64" then Some(BInt(U64))
    else if typ == "float32" then Some(BFloat32)
    else if typ == "float64" then Some(BFloat64)
    else if typ == "string" then Some(BString)
    else if typ == "time" then Some(BTime)
    else if typ == "duration" then Some(BDuration)
    else None
  }

  /** `arrayLen` is -1 for an unbounded array, the length for a fixed one, 0 for a scalar. */
  datatype Field = Field(pkg: string, typ: string, name: string, isArray: bool, arrayLen: int)
  {
    predicate IsBuiltin()
    {
      BuiltinOf(typ).Some?
    }

    /** A message type whose Go type name, package and type joined by a dot, is that of a builtin. */
    predicate Masked()
    {
      !IsBuiltin() && pkg == "ros" && (typ == "Time" || typ == "Duration")
    }

    /** A field that NewField can have built from an accepted line. */
    predicate Shaped()
    {
      -1 <= arrayLen < 0x8000_0000 && (!isArray ==> arrayLen == 0)
    }
  }

  datatype Constant = Constant(typ: string, name: string, valueText: string)

  datatype MsgSpec = MsgSpec(fields: seq<Field>, constants: seq<Constant>, text: string, md5sum: string,
                             fullName: string, shortName: string, package: string)

  /** The loaded message context, with a numbering that witnesses that references do not cycle. */
  datatype Context = Context(specs: map<string, MsgSpec>, rank: map<string, nat>)

  /** newDynamicMessageTypeNested: how the interpreter names the type of a nested field. */
  function Resolve(ctx: Context, typ: string, pkg: string): string
  {
    if typ == "Header" then "std_msgs/Header"
    else if typ !in ctx.specs && pkg != "" then pkg + "/" + typ
    else typ
  }

  function Ref(ctx: Context, f: Field): string
  {
    Resolve(ctx, f.typ, f.pkg)
  }

  /** ComputeMD5Text and the generated code's imports: the package and type as written. */
  function StaticRef(f: Field): string
  {
    f.pkg + "/" + f.typ
  }

  /** Entries sit under their own full name, and every reference that resolves goes down in rank. */
  ghost predicate Acyclic(ctx: Context)
  {
    && ctx.specs.Keys <= ctx.rank.Keys
    && "Header" !in ctx.specs
    && (forall n <- ctx.specs :: ctx.specs[n].fullName == n)
    && (forall n <- ctx.specs, f <- ctx.specs[n].fields ::
          !f.IsBuiltin() && Ref(ctx, f) in ctx.specs ==> ctx.rank[Ref(ctx, f)] < ctx.rank[n])
  }

  /** Every reference resolves, to the type the field names. */
  ghost predicate Closed(ctx: Context)
  {
    forall n <- ctx.specs, f <- ctx.specs[n].fields ::
      && f.Shaped()
      && (!f.IsBuiltin() ==> Ref(ctx, f) in ctx.specs && ctx.specs[Ref(ctx, f)].shortName == f.typ)
  }

  ghost predicate DistinctNames(ctx: Context)
  {
    forall n <- ctx.specs, i, j | 0 <= i < j < |ctx.specs[n].fields| ::
      ctx.specs[n].fields[i].name != ctx.specs[n].fields[j].name
  }

  /** No array of messages is taken for an array of times or durations. */
  ghost predicate Unmasked(ctx: Context)
  {
    forall n <- ctx.specs, f <- ctx.specs[n].fields :: f.isArray ==> !f.Masked()
  }

  ghost predicate WellFormed(ctx: Context)
  {
    Acyclic(ctx) && Closed(ctx) && DistinctNames(ctx) && Unmasked(ctx)
  }
}
