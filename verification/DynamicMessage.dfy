/** DynamicMessage itself: the field loops that fill a buffer, drain a reader and build the data
    map, each proved to compute the function of the same name in Codec. */
module DynamicMessages {
  import opened Basics
  import opened Wire
  import opened Schema
  import opened Codec

  // ---------------------------------------------------------------- Serialize

  /** One more write after `done`. */
  lemma ThenStep(done: seq<Byte>, a: Written, b: Written)
    ensures Written(done, Fine).Then(a.Then(b)) ==
            if a.st.Fine? then Written(done + a.out, Fine).Then(b) else Written(done + a.out, a.st)
  {
  }

  lemma StopsHere(done: seq<Byte>, st: Status)
    ensures Written(done, Fine).Then(Written([], st)) == Written(done, st)
  {
  }

  method SerializePrim(b: Builtin, v: Value, buf: Buffer) returns (st: Status)
    modifies buf
    ensures buf.data == old(buf.data) + SerPrim(b, v).out && st == SerPrim(b, v).st
  {
    st := Fine;
    match (b, v)
    case (BBool, VBool(x)) => buf.Write([if x then 1 else 0]);
    case (BInt(k), VInt(k', n)) =>
      if k == k' {
        buf.Write(EncodeInt(k, n));
      } else {
        st := Failed;
      }
    case (BFloat32, VFloat32(x)) => buf.Write(Word32(x));
    case (BFloat64, VFloat64(lo, hi)) => buf.Write(Word32(lo) + Word32(hi));
    case (BString, VStr(s)) =>
      buf.Write(Word32(|s| % TWO_TO_32));
      buf.Write(s);
    case (BTime, VTime(s, n)) => buf.Write(Word32(s) + Word32(n));
    case (BDuration, VDuration(s, n)) => buf.Write(Word32(s) + Word32(n));
    case _ => st := if v.Nil? then Panicked else Failed;
  }

  method SerializeElem(f: Field, v: Value, buf: Buffer) returns (st: Status)
    modifies buf
    ensures buf.data == old(buf.data) + SerElem(f, v).out && st == SerElem(f, v).st
    decreases v, 0
  {
    match BuiltinOf(f.typ)
    case Some(b) => st := SerializePrim(b, v, buf);
    case None =>
      if v.Nil? {
        st := Panicked;
      } else if !v.VMsg? || v.m.spec.shortName != f.typ {
        st := Failed;
      } else {
        st := SerializeMessage(v.m, buf);
      }
  }

  /** The element loop, over a slice. */
  method SerializeItems(f: Field, items: seq<Value>, size: nat, buf: Buffer) returns (st: Status)
    modifies buf
    ensures var w := SerItems(f, items, 0, size);
            buf.data == old(buf.data) + w.out && st == w.st
    decreases items, 0
  {
    ghost var before := buf.data;
    ghost var done := [];
    var i := 0;
    while i < size
      invariant i <= size
      invariant buf.data == before + done
      invariant SerItems(f, items, 0, size) == Written(done, Fine).Then(SerItems(f, items, i, size))
    {
      hide SerElem, Written.Then;
      if i >= |items| {
        StopsHere(done, Panicked);
        return Panicked;
      }
      ThenStep(done, SerElem(f, items[i]), SerItems(f, items, i + 1, size));
      st := SerializeElem(f, items[i], buf);
      done := done + SerElem(f, items[i]).out;
      if st != Fine {
        return;
      }
      i := i + 1;
    }
    StopsHere(done, Fine);
    st := Fine;
  }

  /** The element loop, over a string held where a slice is expected. */
  method SerializeStringItems(f: Field, s: seq<Byte>, size: nat, buf: Buffer) returns (st: Status)
    modifies buf
    ensures var w := SerStringItems(f, s, size);
            buf.data == old(buf.data) + w.out && st == w.st
  {
    ghost var before := buf.data;
    var i := 0;
    while i < size
      invariant i <= size && i <= |s|
      invariant i > 0 ==> BuiltinOf(f.typ) == Some(BInt(U8))
      invariant buf.data == before + s[..i]
    {
      if i >= |s| {
        assert s[..i] == s;
        return Panicked;
      }
      if BuiltinOf(f.typ) != Some(BInt(U8)) {
        return Failed;
      }
      buf.Write([s[i]]);
      assert s[..i] + [s[i]] == s[..i + 1];
      i := i + 1;
    }
    st := Fine;
  }

  /** The 4-byte count, which only a slice of no declared length carries. */
  method SerializeLength(f: Field, len: nat, buf: Buffer)
    modifies buf
    ensures buf.data == old(buf.data) + SerLength(f, len).out
  {
    if f.arrayLen < 0 {
      buf.Write(Word32(len % TWO_TO_32));
    }
  }

  lemma AfterLength(before: seq<Byte>, f: Field, len: nat, w: Written)
    ensures var whole := SerLength(f, len).Then(w);
            before + whole.out == before + SerLength(f, len).out + w.out && whole.st == w.st
  {
  }

  method SerializeField(f: Field, v: Value, buf: Buffer) returns (st: Status)
    modifies buf
    ensures buf.data == old(buf.data) + SerField(f, v).out && st == SerField(f, v).st
    decreases v, 1
  {
    if !f.isArray {
      st := SerializeElem(f, v, buf);
      return;
    }
    hide SerElem, SerItems, SerStringItems, SerLength, WireLength, Written.Then;
    match v
    case VSlice(_, items) =>
      AfterLength(buf.data, f, |items|, SerItems(f, items, 0, WireLength(f, |items|)));
      SerializeLength(f, |items|, buf);
      st := SerializeItems(f, items, WireLength(f, |items|), buf);
    case VStr(s) =>
      AfterLength(buf.data, f, |s|, SerStringItems(f, s, WireLength(f, |s|)));
      SerializeLength(f, |s|, buf);
      st := SerializeStringItems(f, s, WireLength(f, |s|), buf);
    case _ =>
      st := if f.arrayLen < 0 || f.arrayLen % TWO_TO_32 > 0 then Panicked else Fine;
  }

  method SerializeMessage(m: Message, buf: Buffer) returns (st: Status)
    modifies buf
    ensures buf.data == old(buf.data) + SerMessage(m).out && st == SerMessage(m).st
    decreases m, 2
  {
    var fields := m.spec.fields;
    ghost var before := buf.data;
    ghost var done := [];
    var i := 0;
    while i < |fields|
      invariant i <= |fields|
      invariant buf.data == before + done
      invariant SerMessage(m) == Written(done, Fine).Then(SerFields(m, i))
    {
      hide SerField, Written.Then;
      var f := fields[i];
      if m.data.NilData? || f.name !in m.data.fields {
        StopsHere(done, Failed);
        return Failed;
      }
      var v := m.data.fields[f.name];
      ThenStep(done, SerField(f, v), SerFields(m, i + 1));
      st := SerializeField(f, v, buf);
      done := done + SerField(f, v).out;
      if st != Fine {
        return;
      }
      i := i + 1;
    }
    StopsHere(done, Fine);
    st := Fine;
  }

  // ---------------------------------------------------------------- zeroValueData

  method ZeroValueData(ctx: Context, name: string) returns (data: Made<map<string, Value>>)
    requires Acyclic(ctx) && name in ctx.specs
    ensures data == ZeroFields(ctx, name, 0, map[])
    decreases ctx.rank[name], 2
  {
    var fields := ctx.specs[name].fields;
    var d: map<string, Value> := map[];
    var i := 0;
    while i < |fields|
      invariant i <= |fields|
      invariant ZeroFields(ctx, name, 0, map[]) == ZeroFields(ctx, name, i, d)
    {
      hide Acyclic, ZeroField;
      var v := ZeroValueField(ctx, name, fields[i]);
      if v.Missing? {
        return Missing;
      } else if v.Panics? {
        return Panics;
      }
      d := d[fields[i].name := v.value];
      i := i + 1;
    }
    data := Made(d);
  }

  method ZeroValueField(ctx: Context, name: string, f: Field) returns (v: Made<Value>)
    requires Acyclic(ctx) && name in ctx.specs && f in ctx.specs[name].fields
    ensures v == ZeroField(ctx, name, f)
    decreases ctx.rank[name], 1
  {
    if !f.isArray {
      v := ZeroValueElem(ctx, name, f);
      return;
    }
    var items := [];
    if f.arrayLen != -1 {
      var size := f.arrayLen % TWO_TO_32;
      ghost var z := ZeroElem(ctx, name, f);
      var i := 0;
      while i < size
        invariant i <= size
        invariant i > 0 ==> z.Made? && !f.Masked()
        invariant items == seq(i, _ => if z.Made? then z.value else Nil)
      {
        hide Acyclic, ZeroElem, SliceElem, Field.Masked;
        var x := ZeroValueElem(ctx, name, f);
        if !x.Made? {
          return x;
        }
        if f.Masked() {
          return Panics;
        }
        items := items + [x.value];
        i := i + 1;
      }
    }
    v := Made(VSlice(SliceElem(f), items));
  }

  method ZeroValueElem(ctx: Context, name: string, f: Field) returns (v: Made<Value>)
    requires Acyclic(ctx) && name in ctx.specs && f in ctx.specs[name].fields
    ensures v == ZeroElem(ctx, name, f)
    decreases ctx.rank[name], 0
  {
    match BuiltinOf(f.typ)
    case Some(b) => v := Made(ZeroPrim(b));
    case None =>
      if Ref(ctx, f) !in ctx.specs {
        v := Missing;
      } else {
        var m := NewMessage(ctx, Ref(ctx, f));
        v := match m
             case Made(msg) => Made(VMsg(msg))
             case Missing => Made(Nil)
             case Panics => Panics;
      }
  }

  /** `Missing` stands for a nil message. */
  method NewMessage(ctx: Context, name: string) returns (m: Made<Message>)
    requires Acyclic(ctx) && name in ctx.specs
    ensures m == ZeroMessage(ctx, name)
    decreases ctx.rank[name], 3
  {
    var data := ZeroValueData(ctx, name);
    m := match data
         case Made(d) => Made(Message(ctx.specs[name], Data(d)))
         case Missing => Missing
         case Panics => Panics;
  }

  // ---------------------------------------------------------------- Deserialize

  method ReadPrimitive(b: Builtin, rd: Reader) returns (r: Got<Value>)
    requires rd.Valid()
    modifies rd
    ensures rd.Valid() && r == ReadPrim(b, old(rd.Rest())) && !r.Crash? && rd.Rest() == r.rest
  {
    match b
    case BBool =>
      var x := rd.ReadFull(1);
      r := Map(x, (x: seq<Byte>) => VBool(x != [0]));
    case BInt(k) =>
      var x := rd.ReadFull(k.Width());
      r := if x.Ok? then Ok(VInt(k, DecodeInt(k, x.val)), x.rest) else Err(x.rest);
    case BFloat32 =>
      var x := rd.ReadWord();
      r := Map(x, x => VFloat32(x));
    case BFloat64 =>
      var x := rd.ReadFull(8);
      r := if x.Ok? then Ok(VFloat64(UnWord32(x.val[..4]), UnWord32(x.val[4..])), x.rest) else Err(x.rest);
    case BString =>
      var n := rd.ReadWord();
      if n.Err? {
        return Err(n.rest);
      }
      var x := rd.ReadFull(n.val);
      r := Map(x, (x: seq<Byte>) => VStr(x));
    case BTime =>
      var p := ReadTwoWords(rd);
      r := Map(p, (p: (Word, Word)) => VTime(p.0, p.1));
    case BDuration =>
      var p := ReadTwoWords(rd);
      r := Map(p, (p: (Word, Word)) => VDuration(p.0, p.1));
  }

  method ReadTwoWords(rd: Reader) returns (r: Got<(Word, Word)>)
    requires rd.Valid()
    modifies rd
    ensures rd.Valid() && r == ReadPair(old(rd.Rest())) && !r.Crash? && rd.Rest() == r.rest
  {
    var sec := rd.ReadWord();
    if sec.Err? {
      return Err(sec.rest);
    }
    var nsec := rd.ReadWord();
    r := Map(nsec, b => (sec.val, b));
  }

  /** The message object; nested messages are held as values inside `data`. */
  class DynamicMessage {
    const name: string
    const spec: MsgSpec
    var data: Payload

    /** DynamicMessageType.NewMessage, when zeroValueData succeeds. */
    constructor (ctx: Context, name: string)
      requires Acyclic(ctx) && name in ctx.specs && ZeroMessage(ctx, name).Made?
      ensures this.name == name && spec == ctx.specs[name] && Contents() == ZeroMessage(ctx, name).value
    {
      var z := NewMessage(ctx, name);
      this.name := name;
      spec := ctx.specs[name];
      data := z.value.data;
    }

    function Contents(): Message
      reads this
    {
      Message(spec, data)
    }

    method Serialize(buf: Buffer) returns (st: Status)
      modifies buf
      ensures buf.data == old(buf.data) + SerMessage(Contents()).out && st == SerMessage(Contents()).st
      ensures Contents() == old(Contents())
    {
      st := SerializeMessage(Contents(), buf);
    }

    /** Fills `data` from the reader; on any failure `data` is left nil. */
    method Deserialize(ctx: Context, rd: Reader) returns (st: Status)
      requires Acyclic(ctx) && name in ctx.specs && spec == ctx.specs[name] && rd.Valid()
      modifies this, rd
      ensures rd.Valid()
      ensures match DeMessage(ctx, name, Lenient, old(rd.Rest()))
              case Ok(m, rest) => st.Fine? && Contents() == m && rd.Rest() == rest
              case Err(rest) => st.Failed? && data.NilData? && rd.Rest() == rest
              case Crash => st.Panicked? && data.NilData?
      decreases ctx.rank[name], 2
    {
      var tmpData: map<string, Value> := map[];
      data := NilData;
      ghost var input := rd.Rest();
      var i := 0;
      while i < |spec.fields|
        invariant i <= |spec.fields| && rd.Valid() && data.NilData?
        invariant DeFields(ctx, name, Lenient, 0, input, map[]) == DeFields(ctx, name, Lenient, i, rd.Rest(), tmpData)
      {
        hide Acyclic, DeField;
        var f := spec.fields[i];
        var r := ReadField(ctx, name, f, rd);
        if r.Err? {
          return Failed;
        } else if r.Crash? {
          return Panicked;
        }
        tmpData := tmpData[f.name := r.val];
        i := i + 1;
      }
      data := Data(tmpData);
      st := Fine;
    }
  }

  method ReadField(ctx: Context, name: string, f: Field, rd: Reader) returns (r: Got<Value>)
    requires Acyclic(ctx) && name in ctx.specs && f in ctx.specs[name].fields && rd.Valid()
    modifies rd
    ensures rd.Valid() && r == DeField(ctx, name, Lenient, f, old(rd.Rest())) && (!r.Crash? ==> rd.Rest() == r.rest)
    decreases ctx.rank[name], 1
  {
    if !f.isArray {
      r := ReadElem(ctx, name, f, rd);
      return;
    }
    var size := f.arrayLen % TWO_TO_32;
    if f.arrayLen < 0 {
      var n := rd.ReadWord();
      if n.Err? {
        return Err(n.rest);
      }
      size := n.val;
    }
    ghost var input := rd.Rest();
    var items := [];
    var i := 0;
    while i < size
      invariant i <= size && rd.Valid()
      invariant DeItems(ctx, name, Lenient, f, size, input, []) ==
                  DeItems(ctx, name, Lenient, f, size - i, rd.Rest(), items)
    {
      hide Acyclic, DeElem;
      var x := ReadElem(ctx, name, f, rd);
      if !x.Ok? {
        return x;
      }
      items := items + [x.val];
      i := i + 1;
    }
    r := Ok(VSlice(SliceElem(f), items), rd.Rest());
  }

  method ReadElem(ctx: Context, name: string, f: Field, rd: Reader) returns (r: Got<Value>)
    requires Acyclic(ctx) && name in ctx.specs && f in ctx.specs[name].fields && rd.Valid()
    modifies rd
    ensures rd.Valid() && r == DeElem(ctx, name, Lenient, f, old(rd.Rest())) && (!r.Crash? ==> rd.Rest() == r.rest)
    decreases ctx.rank[name], 0
  {
    match BuiltinOf(f.typ)
    case Some(b) =>
      r := ReadPrimitive(b, rd);
      if f.isArray && b.Primitive() && r.Err? {
        // the error is not looked at
        r := Ok(ZeroPrim(b), r.rest);
      }
    case None =>
      var target := Ref(ctx, f);
      if target !in ctx.specs {
        return Err(rd.Rest());
      }
      var zero := NewMessage(ctx, target);
      if !zero.Made? {
        return Crash;
      }
      var msg := new DynamicMessage(ctx, target);
      var st := msg.Deserialize(ctx, rd);
      r := match st
           case Fine => if f.isArray && f.Masked() then Crash else Ok(VMsg(msg.Contents()), rd.Rest())
           case Failed => Err(rd.Rest())
           case Panicked => Crash;
  }
}
