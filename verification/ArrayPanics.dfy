/** The interpreter picks the slice for an array by the name of its Go type, so an array of messages of
    type ros/Time or ros/Duration gets a slice of times or durations, and appending a message to it
    panics. This module decides from the schema alone when that can happen. */
module ArrayPanics {
  import opened Wire
  import opened Schema
  import opened Codec
  import opened CodecTheorems

  /** Every reference resolves and goes down, whatever the arrays hold. */
  ghost predicate Resolved(ctx: Context)
  {
    Acyclic(ctx) && Closed(ctx)
  }

  /** Field `i` or a later one has, at some depth, an array that can hold elements of a masked type. */
  predicate Hazard(ctx: Context, name: string, i: nat)
    requires Resolved(ctx) && name in ctx.specs && i <= |ctx.specs[name].fields|
    decreases ctx.rank[name], |ctx.specs[name].fields| - i
  {
    i < |ctx.specs[name].fields| && (HazardField(ctx, name, ctx.specs[name].fields[i]) || Hazard(ctx, name, i + 1))
  }

  predicate HazardField(ctx: Context, name: string, f: Field)
    requires Resolved(ctx) && name in ctx.specs && f in ctx.specs[name].fields
    decreases ctx.rank[name], 0
  {
    (f.isArray ==> f.arrayLen != 0) && !f.IsBuiltin() && ((f.isArray && f.Masked()) || Hazard(ctx, Ref(ctx, f), 0))
  }

  /** With every reference resolved, making and decoding a message of a type never panics, on any input,
      exactly when there is no such array in it. */
  lemma PanicsIff(ctx: Context, name: string)
    requires Resolved(ctx) && name in ctx.specs
    ensures ZeroMessage(ctx, name).Made? && (forall bs :: !DeMessage(ctx, name, Lenient, bs).Crash?)
            <==> !Hazard(ctx, name, 0)
  {
    hide Acyclic, Closed, ZeroFields, DeFields, Hazard;
    if Hazard(ctx, name, 0) {
      CrashFieldsCrash(ctx, name, 0, map[]);
      assert DeMessage(ctx, name, Lenient, CrashFields(ctx, name, 0)).Crash?;
    } else {
      SafeZero(ctx, name, 0, map[]);
      forall bs
        ensures !DeMessage(ctx, name, Lenient, bs).Crash?
      {
        SafeFields(ctx, name, 0, bs, map[]);
      }
    }
  }

  /** A schema of the other kind: one field `ros/Time[] x`. Its fresh message is fine, and decoding a
      count of one in front of any time panics. */
  lemma MaskedExample(ctx: Context, time: MsgSpec, spec: MsgSpec, rest: seq<Byte>)
    requires time.fullName == "ros/Time" && time.shortName == "Time" && time.fields == []
    requires spec.fullName == "p/T" && spec.fields == [Field("ros", "Time", "x", true, -1)]
    requires ctx == Context(map["ros/Time" := time, "p/T" := spec], map["ros/Time" := 0, "p/T" := 1])
    ensures Resolved(ctx) && Hazard(ctx, "p/T", 0)
    ensures DeMessage(ctx, "p/T", Lenient, Word32(1) + rest).Crash?
  {
    assert |"p/T"| != |"ros/Time"|;
    var f := spec.fields[0];
    assert "ros" + "/" + "Time" == "ros/Time" && |"Time"| != |"ros/Time"| && |"Time"| != |"p/T"|;
    assert Ref(ctx, f) == "ros/Time";
    assert HazardField(ctx, "p/T", f);
    EmptyMessage(ctx, "ros/Time", rest);
    CountOfOne(ctx, "p/T", f, rest);
  }

  lemma CountOfOne(ctx: Context, name: string, f: Field, rest: seq<Byte>)
    requires Acyclic(ctx) && name in ctx.specs && ctx.specs[name].fields == [f]
    requires f.isArray && f.Masked() && f.arrayLen == -1 && Ref(ctx, f) in ctx.specs
    requires ZeroMessage(ctx, Ref(ctx, f)).Made? && DeMessage(ctx, Ref(ctx, f), Lenient, rest).Ok?
    ensures DeMessage(ctx, name, Lenient, Word32(1) + rest).Crash?
  {
    hide Acyclic, ZeroMessage, Word32, UnWord32;
    TakeWordAppend(1, rest);
    assert DeElem(ctx, name, Lenient, f, rest).Crash?;
    assert DeItems(ctx, name, Lenient, f, 1, rest, []).Crash?;
    assert DeField(ctx, name, Lenient, f, Word32(1) + rest).Crash?;
  }

  lemma EmptyMessage(ctx: Context, name: string, bs: seq<Byte>)
    requires Acyclic(ctx) && name in ctx.specs && ctx.specs[name].fields == []
    ensures ZeroMessage(ctx, name).Made? && DeMessage(ctx, name, Lenient, bs).Ok?
  {
    hide Acyclic;
  }

  lemma GoesDown(ctx: Context, name: string, f: Field)
    requires Resolved(ctx) && name in ctx.specs && f in ctx.specs[name].fields && !f.IsBuiltin()
    ensures Ref(ctx, f) in ctx.specs && 0 <= ctx.rank[Ref(ctx, f)] < ctx.rank[name]
  {
  }

  // ---------------------------------------------------------------- without such an array

  lemma {:induction false} SafeZero(ctx: Context, name: string, i: nat, acc: map<string, Value>)
    requires Resolved(ctx) && name in ctx.specs && i <= |ctx.specs[name].fields| && !Hazard(ctx, name, i)
    ensures ZeroFields(ctx, name, i, acc).Made?
    decreases ctx.rank[name], |ctx.specs[name].fields| - i
  {
    hide Acyclic, Closed, ZeroField, HazardField;
    var fields := ctx.specs[name].fields;
    if i < |fields| {
      SafeZeroField(ctx, name, fields[i]);
      SafeZero(ctx, name, i + 1, acc[fields[i].name := ZeroField(ctx, name, fields[i]).value]);
    }
  }

  lemma {:induction false} SafeZeroField(ctx: Context, name: string, f: Field)
    requires Resolved(ctx) && name in ctx.specs && f in ctx.specs[name].fields && !HazardField(ctx, name, f)
    ensures ZeroField(ctx, name, f).Made?
    decreases ctx.rank[name], 0
  {
    hide ZeroMessage, Hazard;
    assert f.Shaped();
    if !f.IsBuiltin() && !Hazard(ctx, Ref(ctx, f), 0) {
      SafeZero(ctx, Ref(ctx, f), 0, map[]);
      MadeOfFields(ctx, Ref(ctx, f));
    }
  }

  lemma MadeOfFields(ctx: Context, name: string)
    requires Acyclic(ctx) && name in ctx.specs && ZeroFields(ctx, name, 0, map[]).Made?
    ensures ZeroMessage(ctx, name).Made?
  {
  }

  lemma {:induction false} SafeFields(ctx: Context, name: string, i: nat, bs: seq<Byte>, acc: map<string, Value>)
    requires Resolved(ctx) && name in ctx.specs && i <= |ctx.specs[name].fields| && !Hazard(ctx, name, i)
    ensures !DeFields(ctx, name, Lenient, i, bs, acc).Crash?
    decreases ctx.rank[name], |ctx.specs[name].fields| - i
  {
    hide Acyclic, Closed, DeField, HazardField;
    var fields := ctx.specs[name].fields;
    if i < |fields| {
      SafeField(ctx, name, fields[i], bs);
      var r := DeField(ctx, name, Lenient, fields[i], bs);
      if r.Ok? {
        SafeFields(ctx, name, i + 1, r.rest, acc[fields[i].name := r.val]);
      }
    }
  }

  lemma {:induction false} SafeField(ctx: Context, name: string, f: Field, bs: seq<Byte>)
    requires Resolved(ctx) && name in ctx.specs && f in ctx.specs[name].fields && !HazardField(ctx, name, f)
    ensures !DeField(ctx, name, Lenient, f, bs).Crash?
    decreases ctx.rank[name], 0, 2
  {
    hide Acyclic, DeElem, DeItems, Hazard, UnWord32;
    assert f.Shaped();
    if !f.isArray {
      SafeElem(ctx, name, f, bs);
    } else if f.arrayLen < 0 {
      if TakeWord(bs).Ok? {
        SafeItems(ctx, name, f, TakeWord(bs).val, TakeWord(bs).rest, []);
      }
    } else {
      SafeItems(ctx, name, f, f.arrayLen, bs, []);
    }
  }

  lemma {:induction false} SafeItems(ctx: Context, name: string, f: Field, n: nat, bs: seq<Byte>, acc: seq<Value>)
    requires Resolved(ctx) && name in ctx.specs && f in ctx.specs[name].fields && !HazardField(ctx, name, f)
    requires f.isArray && f.arrayLen == 0 ==> n == 0
    ensures !DeItems(ctx, name, Lenient, f, n, bs, acc).Crash?
    decreases ctx.rank[name], 0, 1, n
  {
    hide Acyclic, Closed, DeElem, HazardField;
    if n > 0 {
      SafeElem(ctx, name, f, bs);
      var r := DeElem(ctx, name, Lenient, f, bs);
      if r.Ok? {
        SafeItems(ctx, name, f, n - 1, r.rest, acc + [r.val]);
      }
    }
  }

  lemma {:induction false} SafeElem(ctx: Context, name: string, f: Field, bs: seq<Byte>)
    requires Resolved(ctx) && name in ctx.specs && f in ctx.specs[name].fields && !HazardField(ctx, name, f)
    requires f.isArray ==> f.arrayLen != 0
    ensures !DeElem(ctx, name, Lenient, f, bs).Crash?
    decreases ctx.rank[name], 0, 0
  {
    hide ZeroFields, DeFields, Hazard, ReadPrim;
    match BuiltinOf(f.typ)
    case Some(b) => PrimSound(b, bs);
    case None =>
      SafeZero(ctx, Ref(ctx, f), 0, map[]);
      SafeFields(ctx, Ref(ctx, f), 0, bs, map[]);
  }

  // ---------------------------------------------------------------- bytes that get past a field

  function FeedFields(ctx: Context, name: string, i: nat): seq<Byte>
    requires Resolved(ctx) && name in ctx.specs && i <= |ctx.specs[name].fields|
    decreases ctx.rank[name], |ctx.specs[name].fields| - i
  {
    if i == |ctx.specs[name].fields| then []
    else FeedField(ctx, name, ctx.specs[name].fields[i]) + FeedFields(ctx, name, i + 1)
  }

  function FeedField(ctx: Context, name: string, f: Field): seq<Byte>
    requires Resolved(ctx) && name in ctx.specs && f in ctx.specs[name].fields
    decreases ctx.rank[name], 0, 2
  {
    if !f.isArray then FeedElem(ctx, name, f)
    else if f.arrayLen < 0 then Word32(0)
    else FeedItems(ctx, name, f, f.arrayLen)
  }

  function FeedItems(ctx: Context, name: string, f: Field, n: nat): seq<Byte>
    requires Resolved(ctx) && name in ctx.specs && f in ctx.specs[name].fields
    decreases ctx.rank[name], 0, 1, n
  {
    if n == 0 then [] else FeedElem(ctx, name, f) + FeedItems(ctx, name, f, n - 1)
  }

  function FeedElem(ctx: Context, name: string, f: Field): seq<Byte>
    requires Resolved(ctx) && name in ctx.specs && f in ctx.specs[name].fields
    decreases ctx.rank[name], 0, 0
  {
    match BuiltinOf(f.typ)
    case Some(b) => SerPrim(b, ZeroPrim(b)).out
    case None => FeedFields(ctx, Ref(ctx, f), 0)
  }

  /** It panics, or it consumed exactly what was put in front of `rest`. */
  predicate Passes<T>(r: Got<T>, rest: seq<Byte>)
  {
    match r
    case Ok(_, left) => left == rest
    case Err(_) => false
    case Crash => true
  }

  lemma {:induction false} FieldsPass(ctx: Context, name: string, i: nat, rest: seq<Byte>, acc: map<string, Value>)
    requires Resolved(ctx) && name in ctx.specs && i <= |ctx.specs[name].fields|
    ensures Passes(DeFields(ctx, name, Lenient, i, FeedFields(ctx, name, i) + rest, acc), rest)
    decreases ctx.rank[name], |ctx.specs[name].fields| - i
  {
    hide Acyclic, Closed, DeField, FeedField;
    var fields := ctx.specs[name].fields;
    if i == |fields| {
      assert FeedFields(ctx, name, i) + rest == rest;
    } else {
      var f, tail := fields[i], FeedFields(ctx, name, i + 1) + rest;
      assert FeedFields(ctx, name, i) + rest == FeedField(ctx, name, f) + tail;
      FieldPasses(ctx, name, f, tail);
      var r := DeField(ctx, name, Lenient, f, FeedField(ctx, name, f) + tail);
      if r.Ok? {
        FieldsPass(ctx, name, i + 1, rest, acc[f.name := r.val]);
      }
    }
  }

  lemma {:induction false} FieldPasses(ctx: Context, name: string, f: Field, rest: seq<Byte>)
    requires Resolved(ctx) && name in ctx.specs && f in ctx.specs[name].fields
    ensures Passes(DeField(ctx, name, Lenient, f, FeedField(ctx, name, f) + rest), rest)
    decreases ctx.rank[name], 0, 2
  {
    hide Acyclic, DeElem, DeItems, FeedElem, FeedItems, Word32, UnWord32;
    assert f.Shaped();
    if !f.isArray {
      ElemPasses(ctx, name, f, rest);
    } else if f.arrayLen < 0 {
      TakeWordAppend(0, rest);
      assert DeItems(ctx, name, Lenient, f, 0, rest, []) == Ok(VSlice(SliceElem(f), []), rest) by {
        NoItems(ctx, name, f, rest);
      }
    } else {
      ItemsPass(ctx, name, f, f.arrayLen, rest, []);
    }
  }

  lemma NoItems(ctx: Context, name: string, f: Field, rest: seq<Byte>)
    requires Resolved(ctx) && name in ctx.specs && f in ctx.specs[name].fields
    ensures DeItems(ctx, name, Lenient, f, 0, rest, []) == Ok(VSlice(SliceElem(f), []), rest)
  {
  }

  lemma {:induction false} ItemsPass(ctx: Context, name: string, f: Field, n: nat, rest: seq<Byte>, acc: seq<Value>)
    requires Resolved(ctx) && name in ctx.specs && f in ctx.specs[name].fields
    ensures Passes(DeItems(ctx, name, Lenient, f, n, FeedItems(ctx, name, f, n) + rest, acc), rest)
    decreases ctx.rank[name], 0, 1, n
  {
    hide Acyclic, Closed, DeElem, FeedElem;
    if n == 0 {
      assert FeedItems(ctx, name, f, n) + rest == rest;
    } else {
      var tail := FeedItems(ctx, name, f, n - 1) + rest;
      assert FeedItems(ctx, name, f, n) + rest == FeedElem(ctx, name, f) + tail;
      ElemPasses(ctx, name, f, tail);
      var r := DeElem(ctx, name, Lenient, f, FeedElem(ctx, name, f) + tail);
      if r.Ok? {
        ItemsPass(ctx, name, f, n - 1, rest, acc + [r.val]);
      }
    }
  }

  lemma {:induction false} ElemPasses(ctx: Context, name: string, f: Field, rest: seq<Byte>)
    requires Resolved(ctx) && name in ctx.specs && f in ctx.specs[name].fields
    ensures Passes(DeElem(ctx, name, Lenient, f, FeedElem(ctx, name, f) + rest), rest)
    decreases ctx.rank[name], 0, 0
  {
    hide SerPrim, ReadPrim, FeedFields, DeFields;
    match BuiltinOf(f.typ)
    case Some(b) =>
      ZeroPrimTyped(b);
      RoundTripPrim(b, ZeroPrim(b), rest);
    case None => FieldsPass(ctx, Ref(ctx, f), 0, rest, map[]);
  }

  // ---------------------------------------------------------------- bytes that make it panic

  function CrashFields(ctx: Context, name: string, i: nat): seq<Byte>
    requires Resolved(ctx) && name in ctx.specs && i <= |ctx.specs[name].fields| && Hazard(ctx, name, i)
    decreases ctx.rank[name], |ctx.specs[name].fields| - i
  {
    var f := ctx.specs[name].fields[i];
    if HazardField(ctx, name, f) then CrashField(ctx, name, f)
    else FeedField(ctx, name, f) + CrashFields(ctx, name, i + 1)
  }

  /** The first element of the array is enough. */
  function CrashField(ctx: Context, name: string, f: Field): seq<Byte>
    requires Resolved(ctx) && name in ctx.specs && f in ctx.specs[name].fields && HazardField(ctx, name, f)
    decreases ctx.rank[name], 0
  {
    (if f.isArray && f.arrayLen < 0 then Word32(1) else [])
    + (if Hazard(ctx, Ref(ctx, f), 0) then CrashFields(ctx, Ref(ctx, f), 0) else FeedFields(ctx, Ref(ctx, f), 0))
  }

  lemma {:induction false} CrashFieldsCrash(ctx: Context, name: string, i: nat, acc: map<string, Value>)
    requires Resolved(ctx) && name in ctx.specs && i <= |ctx.specs[name].fields| && Hazard(ctx, name, i)
    ensures DeFields(ctx, name, Lenient, i, CrashFields(ctx, name, i), acc).Crash?
    decreases ctx.rank[name], |ctx.specs[name].fields| - i
  {
    hide Acyclic, Closed, DeField, CrashField, FeedField, HazardField;
    var f := ctx.specs[name].fields[i];
    if HazardField(ctx, name, f) {
      CrashFieldCrashes(ctx, name, f);
    } else {
      var tail := CrashFields(ctx, name, i + 1);
      FieldPasses(ctx, name, f, tail);
      var r := DeField(ctx, name, Lenient, f, FeedField(ctx, name, f) + tail);
      if r.Ok? {
        CrashFieldsCrash(ctx, name, i + 1, acc[f.name := r.val]);
      }
    }
  }

  lemma {:induction false} CrashFieldCrashes(ctx: Context, name: string, f: Field)
    requires Resolved(ctx) && name in ctx.specs && f in ctx.specs[name].fields && HazardField(ctx, name, f)
    ensures DeField(ctx, name, Lenient, f, CrashField(ctx, name, f)).Crash?
    decreases ctx.rank[name], 0
  {
    hide Acyclic, DeFields, CrashFields, FeedFields, Hazard, Word32, UnWord32, ZeroMessage;
    assert f.Shaped();
    GoesDown(ctx, name, f);
    var target := Ref(ctx, f);
    var bs := if Hazard(ctx, target, 0) then CrashFields(ctx, target, 0) else FeedFields(ctx, target, 0);
    if Hazard(ctx, target, 0) {
      CrashFieldsCrash(ctx, target, 0, map[]);
    } else {
      FieldsPass(ctx, target, 0, [], map[]);
      assert FeedFields(ctx, target, 0) + [] == FeedFields(ctx, target, 0);
    }
    assert DeElem(ctx, name, Lenient, f, bs).Crash?;
    if f.isArray && f.arrayLen < 0 {
      TakeWordAppend(1, bs);
    } else {
      assert CrashField(ctx, name, f) == bs;
    }
  }
}
