/** The generator and the generated methods as they run: the template's loop over the fields, the
    straight-line writes, and the reads that assign fields and array slots in place. */
module GeneratedCode {
  import opened Wire
  import opened LittleEndian
  import opened Schema
  import opened Codec
  import opened Generated
  import opened GeneratedZero
  import DynamicMessages

  // ---------------------------------------------------------------- the template

  /** The template's two loops over `.Fields`. */
  method Generate(fields: seq<Field>) returns (serializer: seq<WriteStmt>, deserializer: seq<ReadStmt>)
    ensures serializer == CompileSerialize(fields, 0) && deserializer == CompileDeserialize(fields, 0)
  {
    hide CompileWrite, CompileRead;
    serializer, deserializer := [], [];
    for i := 0 to |fields|
      invariant serializer + CompileSerialize(fields, i) == CompileSerialize(fields, 0)
      invariant |deserializer| == i && forall k | 0 <= k < i :: deserializer[k] == CompileRead(fields[k])
    {
      serializer := serializer + CompileWrite(fields[i], i);
      deserializer := deserializer + [CompileRead(fields[i])];
    }
  }

  // ---------------------------------------------------------------- generated Serialize

  method ExecSerialize(ctx: Context, name: string, m: GoValue, buf: Buffer)
    requires name in ctx.specs
    modifies buf
    ensures buf.data == old(buf.data) + RunSerialize(ctx, name, m)
    decreases m, 2, 0
  {
    hide RunWrite, CompileSerialize;
    var code := CompileSerialize(ctx.specs[name].fields, 0);
    ghost var done := [];
    for k := 0 to |code|
      invariant buf.data == old(buf.data) + done
      invariant RunWrites(ctx, code, m) == done + RunWrites(ctx, code[k..], m)
    {
      ExecWrite(ctx, code[k], m, buf);
      done := done + RunWrite(ctx, code[k], m);
      assert code[k..][0] == code[k] && code[k..][1..] == code[k + 1..];
    }
  }

  method ExecWrite(ctx: Context, s: WriteStmt, m: GoValue, buf: Buffer)
    modifies buf
    ensures buf.data == old(buf.data) + RunWrite(ctx, s, m)
    decreases m, 0, 0
  {
    hide RunEach, RunWriteOp, Word32;
    if !m.GoStruct? || s.slot >= |m.slots| {
      return;
    }
    var v := m.slots[s.slot];
    match s
    case WriteLength(_) =>
      if v.GoArray? {
        buf.Write(Word32(|v.items| % TWO_TO_32));
      }
    case WriteEach(_, op) =>
      if v.GoArray? {
        ExecEach(ctx, op, v.items, buf);
      }
    case WriteOne(_, op) => ExecWriteOp(ctx, op, v, buf);
  }

  method ExecEach(ctx: Context, op: Op, items: seq<GoValue>, buf: Buffer)
    modifies buf
    ensures buf.data == old(buf.data) + RunEach(ctx, op, items, 0)
    decreases items, 0
  {
    hide RunWriteOp;
    ghost var done := [];
    for i := 0 to |items|
      invariant buf.data == old(buf.data) + done
      invariant RunEach(ctx, op, items, 0) == done + RunEach(ctx, op, items, i)
    {
      ExecWriteOp(ctx, op, items[i], buf);
      done := done + RunWriteOp(ctx, op, items[i]);
    }
  }

  method ExecWriteOp(ctx: Context, op: Op, v: GoValue, buf: Buffer)
    modifies buf
    ensures buf.data == old(buf.data) + RunWriteOp(ctx, op, v)
    decreases v, 3, 0
  {
    hide RunSerialize, Word32, SerPrim;
    match (op, v)
    case (OpString, GoString(s)) =>
      buf.Write(Word32(|s| % TWO_TO_32));
      buf.Write(s);
    case (OpTemporal, GoTemporal(s, n)) =>
      buf.Write(Word32(s));
      buf.Write(Word32(n));
    case (OpPlain(b), GoPlain(x)) => buf.Write(SerPrim(b, x).out);
    case (OpCall(target), GoStruct(_)) =>
      if target in ctx.specs {
        ExecSerialize(ctx, target, v, buf);
      }
    case _ =>
  }

  // ---------------------------------------------------------------- generated Deserialize

  /** A generated call is to a loaded type further down the graph. */
  lemma CallGoesDown(ctx: Context, name: string, i: nat)
    requires Linked(ctx) && name in ctx.specs && i < |ctx.specs[name].fields|
    requires CompileOp(ctx.specs[name].fields[i]).OpCall?
    ensures var target := CompileOp(ctx.specs[name].fields[i]).target;
            target in ctx.specs && target in ctx.rank && 0 <= ctx.rank[target] < ctx.rank[name]
  {
    var f := ctx.specs[name].fields[i];
    assert f in ctx.specs[name].fields && StaticRef(f) == Ref(ctx, f);
  }

  /** The `n` slots of an array or of a nested struct. Go's types leave no other case than the first. */
  function Slots(current: GoValue, n: nat): (slots: seq<GoValue>)
    ensures |slots| == n
  {
    if current.GoArray? && |current.items| == n then current.items
    else if current.GoStruct? && |current.slots| == n then current.slots
    else seq(n, _ => GoPlain(Nil))
  }

  /** What the struct holds when the statements from the `i`th on have run, to the end or to an error. */
  function AfterFields(ctx: Context, name: string, i: nat, bs: seq<Byte>, slots: seq<GoValue>): (r: seq<GoValue>)
    requires Linked(ctx) && name in ctx.specs && i <= |slots| == |ctx.specs[name].fields|
    ensures |r| == |slots|
    decreases ctx.rank[name], |slots| - i
  {
    if i == |slots| then slots
    else
      var now := slots[i := AfterRead(ctx, name, i, bs, slots[i])];
      match RunRead(ctx, name, i, CompileRead(ctx.specs[name].fields[i]), bs)
      case Ok(_, rest) => AfterFields(ctx, name, i + 1, rest, now)
      case _ => now
  }

  /** One field: `[]T` is made anew once its count is read, an array is filled where it is. */
  function AfterRead(ctx: Context, name: string, i: nat, bs: seq<Byte>, current: GoValue): GoValue
    requires Linked(ctx) && name in ctx.specs && i < |ctx.specs[name].fields|
    decreases ctx.rank[name], 0, 2
  {
    var f := ctx.specs[name].fields[i];
    if !f.isArray then AfterOp(ctx, name, i, bs, current)
    else if f.arrayLen >= 0 then GoArray(AfterItems(ctx, name, i, 0, bs, Slots(current, f.arrayLen)))
    else
      match TakeWord(bs)
      case Ok(size, rest) => GoArray(AfterItems(ctx, name, i, 0, rest, seq(size, _ => ZeroItem(ctx, name, f))))
      case _ => current
  }

  function AfterItems(ctx: Context, name: string, i: nat, k: nat, bs: seq<Byte>, items: seq<GoValue>): (r: seq<GoValue>)
    requires Linked(ctx) && name in ctx.specs && i < |ctx.specs[name].fields| && k <= |items|
    ensures |r| == |items|
    decreases ctx.rank[name], 0, 1, |items| - k
  {
    if k == |items| then items
    else
      var now := items[k := AfterOp(ctx, name, i, bs, items[k])];
      match RunReadOp(ctx, name, i, CompileOp(ctx.specs[name].fields[i]), bs)
      case Ok(_, rest) => AfterItems(ctx, name, i, k + 1, rest, now)
      case _ => now
  }

  /** One element: a failed read leaves it, but a time keeps seconds that were read, and a nested message
      keeps the fields that were. */
  function AfterOp(ctx: Context, name: string, i: nat, bs: seq<Byte>, current: GoValue): GoValue
    requires Linked(ctx) && name in ctx.specs && i < |ctx.specs[name].fields|
    decreases ctx.rank[name], 0, 0
  {
    var op := CompileOp(ctx.specs[name].fields[i]);
    match op
    case OpTemporal =>
      (match TakeWord(bs)
       case Ok(sec, rest) =>
         (match TakeWord(rest)
          case Ok(nsec, _) => GoTemporal(sec, nsec)
          case _ => GoTemporal(sec, if current.GoTemporal? then current.nsec else 0))
       case _ => current)
    case OpCall(target) =>
      CallGoesDown(ctx, name, i);
      GoStruct(AfterFields(ctx, target, 0, bs, Slots(current, |ctx.specs[target].fields|)))
    case _ =>
      match RunReadOp(ctx, name, i, op, bs)
      case Ok(v, _) => v
      case _ => current
  }

  /** Decoding that succeeds leaves what it read, whatever the struct held. */
  lemma {:induction false} SuccessOverwrites(ctx: Context, name: string, i: nat, bs: seq<Byte>, slots: seq<GoValue>)
    requires Linked(ctx) && name in ctx.specs && i <= |slots| == |ctx.specs[name].fields|
    ensures var r := RunReads(ctx, name, i, bs, slots[..i]);
            r.Ok? ==> AfterFields(ctx, name, i, bs, slots) == r.val
    decreases ctx.rank[name], |slots| - i
  {
    hide Linked, CompileRead, AfterRead, RunRead;
    if i < |slots| {
      match RunRead(ctx, name, i, CompileRead(ctx.specs[name].fields[i]), bs)
      case Ok(v, rest) =>
        ReadOverwrites(ctx, name, i, bs, slots[i]);
        assert slots[..i] + [v] == slots[i := v][..i + 1];
        SuccessOverwrites(ctx, name, i + 1, rest, slots[i := v]);
      case _ =>
    } else {
      assert slots[..i] == slots;
    }
  }

  lemma {:induction false} ReadOverwrites(ctx: Context, name: string, i: nat, bs: seq<Byte>, current: GoValue)
    requires Linked(ctx) && name in ctx.specs && i < |ctx.specs[name].fields|
    ensures var r := RunRead(ctx, name, i, CompileRead(ctx.specs[name].fields[i]), bs);
            r.Ok? ==> AfterRead(ctx, name, i, bs, current) == r.val
    decreases ctx.rank[name], 0, 2
  {
    hide Linked, CompileOp, AfterOp, AfterItems, RunReadOp, RunReadItems;
    var f := ctx.specs[name].fields[i];
    if !f.isArray {
      OpOverwrites(ctx, name, i, bs, current);
    } else if f.arrayLen >= 0 {
      ItemsOverwrite(ctx, name, i, 0, bs, Slots(current, f.arrayLen));
    } else {
      match TakeWord(bs)
      case Ok(size, rest) => ItemsOverwrite(ctx, name, i, 0, rest, seq(size, _ => ZeroItem(ctx, name, f)));
      case _ =>
    }
  }

  lemma {:induction false} ItemsOverwrite(ctx: Context, name: string, i: nat, k: nat, bs: seq<Byte>,
                                          items: seq<GoValue>)
    requires Linked(ctx) && name in ctx.specs && i < |ctx.specs[name].fields| && k <= |items|
    ensures var r := RunReadItems(ctx, name, i, CompileOp(ctx.specs[name].fields[i]), |items| - k, bs, items[..k]);
            r.Ok? ==> GoArray(AfterItems(ctx, name, i, k, bs, items)) == r.val
    decreases ctx.rank[name], 0, 1, |items| - k
  {
    hide Linked, CompileOp, AfterOp, RunReadOp;
    if k < |items| {
      match RunReadOp(ctx, name, i, CompileOp(ctx.specs[name].fields[i]), bs)
      case Ok(v, rest) =>
        OpOverwrites(ctx, name, i, bs, items[k]);
        assert items[..k] + [v] == items[k := v][..k + 1];
        ItemsOverwrite(ctx, name, i, k + 1, rest, items[k := v]);
      case _ =>
    } else {
      assert items[..k] == items;
    }
  }

  lemma {:induction false} OpOverwrites(ctx: Context, name: string, i: nat, bs: seq<Byte>, current: GoValue)
    requires Linked(ctx) && name in ctx.specs && i < |ctx.specs[name].fields|
    ensures var r := RunReadOp(ctx, name, i, CompileOp(ctx.specs[name].fields[i]), bs);
            r.Ok? ==> AfterOp(ctx, name, i, bs, current) == r.val
    decreases ctx.rank[name], 0, 0
  {
    hide Linked, CompileOp, AfterFields;
    match CompileOp(ctx.specs[name].fields[i])
    case OpCall(target) =>
      CallGoesDown(ctx, name, i);
      var slots := Slots(current, |ctx.specs[target].fields|);
      SuccessOverwrites(ctx, target, 0, bs, slots);
      assert slots[..0] == [];
    case _ =>
  }

  /** A time whose input ends after the seconds holds the new seconds and the nanoseconds it held before. */
  lemma HalfReadTime(ctx: Context, name: string, i: nat, bs: seq<Byte>, sec: Word, nsec: Word)
    requires Linked(ctx) && name in ctx.specs && i < |ctx.specs[name].fields|
    requires ctx.specs[name].fields[i].typ in ["time", "duration"] && 4 <= |bs| < 8
    ensures AfterOp(ctx, name, i, bs, GoTemporal(sec, nsec)) == GoTemporal(FourOf(bs), nsec)
  {
    hide Linked, UnWord32, FourOf;
    TakeWordOf(bs);
    TakeWordOf(bs[4..]);
  }

  /** A slice whose input ends after the count has been made anew, with that many zeros; without a count the old one
      stays. */
  lemma SliceMadeAnew(ctx: Context, name: string, i: nat, bs: seq<Byte>, current: GoValue)
    requires Linked(ctx) && name in ctx.specs && i < |ctx.specs[name].fields|
    requires var f := ctx.specs[name].fields[i]; f.isArray && f.arrayLen == -1 && f.typ in ["uint16", "string"]
    ensures |bs| < 4 ==> AfterRead(ctx, name, i, bs, current) == current
    ensures |bs| == 4 ==>
              AfterRead(ctx, name, i, bs, current) ==
              GoArray(seq(FourOf(bs), _ => if ctx.specs[name].fields[i].typ == "uint16" then GoPlain(VInt(U16, 0))
                                           else GoString([])))
  {
    hide Linked, UnWord32, FourOf, AfterItems;
    var f := ctx.specs[name].fields[i];
    TakeWordOf(bs);
    if |bs| == 4 {
      assert bs[4..] == [];
      var zeros := seq(FourOf(bs), _ => ZeroItem(ctx, name, f));
      NothingRead(ctx, name, i, zeros);
    }
  }

  lemma NothingRead(ctx: Context, name: string, i: nat, items: seq<GoValue>)
    requires Linked(ctx) && name in ctx.specs && i < |ctx.specs[name].fields|
    requires ctx.specs[name].fields[i].typ in ["uint16", "string"]
    ensures AfterItems(ctx, name, i, 0, [], items) == items
  {
    hide Linked, UnWord32;
    if items != [] {
      assert items[0 := items[0]] == items;
    }
  }

  /** What the first `n` blocks read. */
  function RunFirst(ctx: Context, name: string, n: nat, bs: seq<Byte>): (r: Got<seq<GoValue>>)
    requires Linked(ctx) && name in ctx.specs && n <= |ctx.specs[name].fields|
    ensures r.Ok? ==> |r.val| == n
  {
    if n == 0 then Ok([], bs)
    else
      match RunFirst(ctx, name, n - 1, bs)
      case Ok(slots, rest) =>
        (match RunRead(ctx, name, n - 1, CompileRead(ctx.specs[name].fields[n - 1]), rest)
         case Ok(v, left) => Ok(slots + [v], left)
         case Err(left) => Err(left)
         case Crash => Crash)
      case Err(rest) => Err(rest)
      case Crash => Crash
  }

  /** The struct, which may already hold data when it is decoded into. */
  class GeneratedMessage {
    const name: string
    var slots: seq<GoValue>

    constructor (name: string, slots: seq<GoValue>)
      ensures this.name == name && this.slots == slots
    {
      this.name := name;
      this.slots := slots;
    }

    method Serialize(ctx: Context, buf: Buffer)
      requires name in ctx.specs
      modifies buf
      ensures buf.data == old(buf.data) + RunSerialize(ctx, name, GoStruct(slots))
      ensures slots == old(slots)
    {
      ExecSerialize(ctx, name, GoStruct(slots), buf);
    }

    /** Assigns the fields one by one. A success does not depend on what the struct held before; a failure
        has assigned the fields before the one it stopped in, perhaps part of that one, and no later one. */
    method Deserialize(ctx: Context, rd: Reader) returns (ok: bool, ghost reached: nat)
      requires Linked(ctx) && name in ctx.specs && |slots| == |ctx.specs[name].fields| && rd.Valid()
      modifies this, rd
      ensures rd.Valid() && |slots| == |old(slots)| && reached <= |slots|
      ensures slots == AfterFields(ctx, name, 0, old(rd.Rest()), old(slots))
      ensures var g := RunDeserialize(ctx, name, old(rd.Rest()));
              && ok == g.Ok?
              && (g.Ok? ==> GoStruct(slots) == g.val && rd.Rest() == g.rest)
              && (g.Err? ==> rd.Rest() == g.rest)
      ensures !ok ==> reached < |slots| && slots[reached + 1..] == old(slots)[reached + 1..]
      ensures !ok ==>
              var done := RunFirst(ctx, name, reached, old(rd.Rest()));
              && done.Ok? && slots[..reached] == done.val
              && !RunRead(ctx, name, reached, CompileRead(ctx.specs[name].fields[reached]), done.rest).Ok?
              && slots[reached] == AfterRead(ctx, name, reached, done.rest, old(slots)[reached])
      decreases ctx.rank[name], 2
    {
      hide Linked, RunRead, CompileRead, AfterRead;
      ghost var input, before := rd.Rest(), slots;
      var fields := ctx.specs[name].fields;
      ok, reached := true, |fields|;
      for i := 0 to |fields|
        invariant rd.Valid() && |slots| == |fields| && slots[i..] == before[i..]
        invariant RunReads(ctx, name, 0, input, []) == RunReads(ctx, name, i, rd.Rest(), slots[..i])
        invariant RunFirst(ctx, name, i, input) == Ok(slots[..i], rd.Rest())
        invariant AfterFields(ctx, name, 0, input, before) == AfterFields(ctx, name, i, rd.Rest(), slots)
      {
        ghost var bs := rd.Rest();
        assert slots[i] == slots[i..][0] == before[i..][0];
        var r, now := ExecRead(ctx, name, i, slots[i], rd);
        assert slots[i := now][..i] == slots[..i];
        slots := slots[i := now];
        if !r.Ok? {
          return false, i;
        }
        ReadOverwrites(ctx, name, i, bs, before[i]);
        assert slots[..i] + [r.val] == slots[..i + 1];
      }
      assert slots[..|fields|] == slots;
    }
  }

  /** The block emitted for one field; `current` is what the field holds, `now` what it holds afterwards. */
  method ExecRead(ctx: Context, name: string, i: nat, current: GoValue, rd: Reader)
    returns (r: Got<GoValue>, now: GoValue)
    requires Linked(ctx) && name in ctx.specs && i < |ctx.specs[name].fields| && rd.Valid()
    modifies rd
    ensures rd.Valid() && r == RunRead(ctx, name, i, CompileRead(ctx.specs[name].fields[i]), old(rd.Rest()))
    ensures now == AfterRead(ctx, name, i, old(rd.Rest()), current)
    ensures !r.Crash? ==> rd.Rest() == r.rest
    decreases ctx.rank[name], 1
  {
    hide Linked, RunReadItems, RunReadOp, CompileOp, AfterOp, AfterItems;
    var f := ctx.specs[name].fields[i];
    if !f.isArray {
      r, now := ExecReadOp(ctx, name, i, current, rd);
      return;
    }
    var items := Slots(current, if f.arrayLen < 0 then 0 else f.arrayLen);
    if f.arrayLen < 0 {
      var size := rd.ReadWord();
      if size.Err? {
        return Err(size.rest), current;
      }
      items := seq(size.val, _ => ZeroItem(ctx, name, f));
    }
    r, items := ExecReadItems(ctx, name, i, items, rd);
    now := GoArray(items);
  }

  method ExecReadItems(ctx: Context, name: string, i: nat, before: seq<GoValue>, rd: Reader)
    returns (r: Got<GoValue>, items: seq<GoValue>)
    requires Linked(ctx) && name in ctx.specs && i < |ctx.specs[name].fields| && rd.Valid()
    modifies rd
    ensures rd.Valid()
    ensures r == RunReadItems(ctx, name, i, CompileOp(ctx.specs[name].fields[i]), |before|, old(rd.Rest()), [])
    ensures items == AfterItems(ctx, name, i, 0, old(rd.Rest()), before)
    ensures !r.Crash? ==> rd.Rest() == r.rest
    decreases ctx.rank[name], 0, 1
  {
    hide Linked, RunReadOp, CompileOp, AfterOp;
    ghost var input := rd.Rest();
    ghost var op := CompileOp(ctx.specs[name].fields[i]);
    items := before;
    for k := 0 to |items|
      invariant rd.Valid() && |items| == |before|
      invariant RunReadItems(ctx, name, i, op, |items|, input, []) ==
                RunReadItems(ctx, name, i, op, |items| - k, rd.Rest(), items[..k])
      invariant AfterItems(ctx, name, i, 0, input, before) == AfterItems(ctx, name, i, k, rd.Rest(), items)
    {
      OpOverwrites(ctx, name, i, rd.Rest(), items[k]);
      var x, now := ExecReadOp(ctx, name, i, items[k], rd);
      items := items[k := now];
      if !x.Ok? {
        return x, items;
      }
      assert items[..k] + [x.val] == items[..k + 1];
    }
    assert items[..|items|] == items;
    r := Ok(GoArray(items), rd.Rest());
  }

  method ExecReadOp(ctx: Context, name: string, i: nat, current: GoValue, rd: Reader)
    returns (r: Got<GoValue>, now: GoValue)
    requires Linked(ctx) && name in ctx.specs && i < |ctx.specs[name].fields| && rd.Valid()
    modifies rd
    ensures rd.Valid() && r == RunReadOp(ctx, name, i, CompileOp(ctx.specs[name].fields[i]), old(rd.Rest()))
    ensures now == AfterOp(ctx, name, i, old(rd.Rest()), current)
    ensures !r.Crash? ==> rd.Rest() == r.rest
    decreases ctx.rank[name], 0, 0
  {
    hide Linked, CompileOp, RunDeserialize, ReadPrim, UnWord32, AfterFields;
    now := current;
    match CompileOp(ctx.specs[name].fields[i])
    case OpString =>
      var n := rd.ReadWord();
      if n.Err? {
        return Err(n.rest), now;
      }
      var x := rd.ReadFull(n.val);
      r := Map(x, (x: seq<Byte>) => GoString(x));
      now := if r.Ok? then r.val else now;
    case OpTemporal =>
      var sec := rd.ReadWord();
      if sec.Err? {
        return Err(sec.rest), now;
      }
      now := GoTemporal(sec.val, if now.GoTemporal? then now.nsec else 0);
      var nsec := rd.ReadWord();
      if nsec.Err? {
        return Err(nsec.rest), now;
      }
      now := now.(nsec := nsec.val);
      r := Ok(now, nsec.rest);
    case OpPlain(b) =>
      var x := DynamicMessages.ReadPrimitive(b, rd);
      r := Map(x, x => GoPlain(x));
      now := if r.Ok? then r.val else now;
    case OpCall(target) =>
      CallGoesDown(ctx, name, i);
      GeneratedDeserializeAgrees(ctx, target, rd.Rest());
      var nested := new GeneratedMessage(target, Slots(current, |ctx.specs[target].fields|));
      var ok, reached := nested.Deserialize(ctx, rd);
      now := GoStruct(nested.slots);
      r := if ok then Ok(now, rd.Rest()) else Err(rd.Rest());
  }
}
