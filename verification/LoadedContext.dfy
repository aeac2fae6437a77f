/** What any sequence of loads leaves in the registry, and that it is a context the codecs can use. */
module LoadedContext {
  import opened Basics
  import opened Schema
  import opened FieldText
  import opened Registry
  import Generated

  // ---------------------------------------------------------------- order of loading

  function AllTouched(d: Defs, names: set<string>): set<string>
    requires AcyclicDefs(d)
  {
    set m, n | m in names && n in Touched(d, m) :: n
  }

  /** The registry after loading `names`, each entry as an un-memoised load would build it. */
  function AfterLoads(d: Defs, names: set<string>): map<string, MsgSpec>
    requires AcyclicDefs(d)
  {
    Unfolded(d, AllTouched(d, names))
  }

  /** Any sequence of loads, in any order and with any repetition, answers each load as if there were
      no cache, and leaves a registry that depends only on the set of names loaded. */
  method LoadAll(ctx: MsgContext, names: seq<string>) returns (specs: seq<Option<MsgSpec>>)
    requires AcyclicDefs(ctx.defs) && ctx.msgRegistry == map[]
    modifies ctx
    ensures |specs| == |names| && forall i | 0 <= i < |names| :: specs[i] == Unfold(ctx.defs, names[i])
    ensures ctx.msgRegistry == AfterLoads(ctx.defs, set n <- names)
  {
    hide Touched, Unfold;
    specs := [];
    var i := 0;
    while i < |names|
      invariant i <= |names| == |specs| + (|names| - i)
      invariant forall j | 0 <= j < i :: specs[j] == Unfold(ctx.defs, names[j])
      invariant Coherent(ctx.defs, ctx.msgRegistry)
      invariant ctx.msgRegistry.Keys == AllTouched(ctx.defs, set n <- names[..i])
    {
      hide Coherent;
      var spec := ctx.LoadMsg(names[i]);
      assert names[..i + 1] == names[..i] + [names[i]];
      specs := specs + [spec];
      i := i + 1;
    }
    assert names[..i] == names;
  }

  // ---------------------------------------------------------------- what loading reaches

  lemma {:induction false} TouchedByFieldIn(d: Defs, fields: seq<Field>, i: nat, m: string) returns (j: nat)
    requires AcyclicDefs(d) && i <= |fields| && m in TouchedByFields(d, fields, i)
    ensures j < i && m in TouchedByField(d, fields[j])
    ensures TouchedByField(d, fields[j]) <= TouchedByFields(d, fields, i)
  {
    hide TouchedByField, FieldLine, AcyclicDefs, Bound;
    if m in TouchedByFields(d, fields, i - 1) {
      j := TouchedByFieldIn(d, fields, i - 1, m);
    } else {
      j := i - 1;
    }
  }

  /** A name reached by a load brings everything it reaches itself. */
  lemma {:induction false} TouchedTransitive(d: Defs, name: string, m: string)
    requires AcyclicDefs(d) && m in Touched(d, name)
    ensures Defined(d, m) && Touched(d, m) <= Touched(d, name)
    decreases Rank(d, name)
  {
    hide TouchedByFields, Bound, Rank, AcyclicDefs;
    if m != name {
      var fields := Body(d, name).fields;
      var j := TouchedByFieldIn(d, fields, |fields|, m);
      FieldBelowBound(d, fields, j);
      BodyBelowRank(d, name);
      TouchedTransitive(d, StaticRef(fields[j]), m);
    }
  }

  /** The definition set is complete, in the shape the line parser gives, with no stray Header and no message taken
      for the library's own Time or Duration. */
  ghost predicate Complete(d: Defs)
  {
    && AcyclicDefs(d)
    && (forall n | Defined(d, n) :: '/' in n)
    && (forall n, f | Defined(d, n) && f in Body(d, n).fields ::
          && f.Shaped()
          && (f.pkg == "" <==> f.IsBuiltin())
          && '/' !in f.pkg && '/' !in f.typ
          && (f.typ == "Header" ==> f.pkg == "std_msgs")
          && !f.Masked()
          && (f.pkg != "" ==> Defined(d, StaticRef(f))))
    && (forall n, i, j | Defined(d, n) && 0 <= i < j < |Body(d, n).fields| ::
          Body(d, n).fields[i].name != Body(d, n).fields[j].name)
  }

  lemma FieldServed(d: Defs, name: string, f: Field)
    requires Complete(d) && Defined(d, name) && f in Body(d, name).fields
    ensures FieldLine(d, f).Some?
    ensures f.pkg != "" ==> StaticRef(f) in TouchedByField(d, f)
  {
    hide AcyclicDefs, Digest, FieldString, TouchedByFields, FieldLines;
  }

  /** In a complete set no load is cut short, and every reference is reached. */
  lemma {:induction false} EveryReferenceTouched(d: Defs, name: string, i: nat, k: nat)
    requires Complete(d) && Defined(d, name) && i <= |Body(d, name).fields|
    ensures FieldLines(d, Body(d, name).fields, i).Some?
    ensures k < i && Body(d, name).fields[k].pkg != "" ==>
            StaticRef(Body(d, name).fields[k]) in TouchedByFields(d, Body(d, name).fields, i)
  {
    hide AcyclicDefs, Defined, FieldLine, TouchedByField, Bound;
    if i > 0 {
      EveryReferenceTouched(d, name, i - 1, k);
      FieldServed(d, name, Body(d, name).fields[i - 1]);
    }
  }

  function ContextOf(d: Defs, names: set<string>): Context
    requires AcyclicDefs(d)
  {
    Context(AfterLoads(d, names), map n | n in AfterLoads(d, names) :: Rank(d, n))
  }

  lemma EntryOf(d: Defs, names: set<string>, n: string)
    requires AcyclicDefs(d) && n in AfterLoads(d, names)
    ensures Defined(d, n) && AfterLoads(d, names)[n] == Unfold(d, n).value
    ensures AfterLoads(d, names)[n].fields == Body(d, n).fields && AfterLoads(d, names)[n].fullName == n
    ensures AfterLoads(d, names)[n].shortName == PackageResourceName(n).value.1
  {
  }

  lemma LoadedBy(d: Defs, names: set<string>, n: string) returns (m: string)
    requires AcyclicDefs(d) && n in AfterLoads(d, names)
    ensures m in names && n in Touched(d, m)
  {
    hide AcyclicDefs, Touched, Unfold;
    m :| m in names && n in Touched(d, m);
  }

  lemma TouchedIsLoaded(d: Defs, names: set<string>, m: string, n: string)
    requires AcyclicDefs(d) && m in names && n in Touched(d, m)
    ensures n in AfterLoads(d, names)
  {
    hide AcyclicDefs, Touched, Unfold, Defined;
    TouchedTransitive(d, m, n);
    UnfoldKnown(d, n);
  }

  lemma ReferenceLoaded(d: Defs, names: set<string>, n: string, f: Field)
    requires Complete(d) && n in AfterLoads(d, names) && f in Body(d, n).fields && f.pkg != "" && Defined(d, n)
    ensures StaticRef(f) in AfterLoads(d, names)
  {
    hide AfterLoads, TouchedByFields, AcyclicDefs, Defined, Body;
    var m := LoadedBy(d, names, n);
    var k :| 0 <= k < |Body(d, n).fields| && Body(d, n).fields[k] == f;
    EveryReferenceTouched(d, n, |Body(d, n).fields|, k);
    TouchedTransitive(d, m, n);
    TouchedIsLoaded(d, names, m, StaticRef(f));
  }

  lemma NameOfReference(f: Field)
    requires '/' !in f.pkg && '/' !in f.typ
    ensures PackageResourceName(StaticRef(f)) == Some((f.pkg, f.typ))
  {
    assert StaticRef(f) == f.pkg + ['/'] + f.typ;
    BeforeMark(f.pkg, '/', f.typ);
    assert StaticRef(f)[|f.pkg| + 1..] == f.typ && StaticRef(f)[..|f.pkg|] == f.pkg;
  }

  lemma ReferencesAgree(d: Defs, names: set<string>, n: string, f: Field)
    requires Complete(d) && n in AfterLoads(d, names) && f in Body(d, n).fields && !f.IsBuiltin() && Defined(d, n)
    ensures Ref(ContextOf(d, names), f) == StaticRef(f)
  {
    hide DigestText, TouchedByFields, AcyclicDefs, Touched;
    var ctx := ContextOf(d, names);
    Generated.ResolversAgreeIff(ctx, f);
    if f.typ in ctx.specs {
      EntryOf(d, names, f.typ);
    }
  }

  /** One field of a spec, as the codecs want it. */
  ghost predicate FieldLinked(ctx: Context, n: string, f: Field)
    requires n in ctx.specs && n in ctx.rank && ctx.specs.Keys <= ctx.rank.Keys
  {
    && f.Shaped()
    && (!f.IsBuiltin() ==>
          && StaticRef(f) == Ref(ctx, f) && StaticRef(f) in ctx.specs && !f.Masked()
          && ctx.specs[StaticRef(f)].shortName == f.typ
          && ctx.rank[StaticRef(f)] < ctx.rank[n])
  }

  lemma FieldOfLoaded(d: Defs, names: set<string>, n: string, f: Field)
    requires Complete(d) && n in AfterLoads(d, names) && f in AfterLoads(d, names)[n].fields
    ensures FieldLinked(ContextOf(d, names), n, f)
  {
    hide Touched, TouchedByFields, Unfold, BuiltinOf, PackageResourceName, AfterLoads, Ref;
    EntryOf(d, names, n);
    if !f.IsBuiltin() {
      ReferenceLoaded(d, names, n, f);
      ReferencesAgree(d, names, n, f);
      NameOfReference(f);
      EntryOf(d, names, StaticRef(f));
    }
  }

  ghost predicate NamesLinked(ctx: Context, n: string)
    requires n in ctx.specs
  {
    && ctx.specs[n].fullName == n && '/' in n
    && forall i, j | 0 <= i < j < |ctx.specs[n].fields| :: ctx.specs[n].fields[i].name != ctx.specs[n].fields[j].name
  }

  lemma NamesOfLoaded(d: Defs, names: set<string>, n: string)
    requires Complete(d) && n in AfterLoads(d, names)
    ensures NamesLinked(ContextOf(d, names), n)
  {
    hide AcyclicDefs, AfterLoads, Defined, Body;
    EntryOf(d, names, n);
  }

  lemma LinkedFromParts(ctx: Context)
    requires ctx.specs.Keys <= ctx.rank.Keys
    requires forall n <- ctx.specs :: NamesLinked(ctx, n)
    requires forall n <- ctx.specs, f <- ctx.specs[n].fields :: FieldLinked(ctx, n, f)
    ensures Generated.Linked(ctx)
  {
  }

  /** Loading from a complete definition set gives a context that is well formed, and in which the
      interpreter and the generated code resolve every reference alike. */
  lemma LoadedContextIsLinked(d: Defs, names: set<string>)
    requires Complete(d)
    ensures Generated.Linked(ContextOf(d, names))
  {
    var ctx := ContextOf(d, names);
    hide Generated.Linked, FieldLinked, NamesLinked, AfterLoads, Complete;
    forall n <- ctx.specs
      ensures NamesLinked(ctx, n)
      ensures forall f <- ctx.specs[n].fields :: FieldLinked(ctx, n, f)
    {
      NamesOfLoaded(d, names, n);
      forall f <- ctx.specs[n].fields
        ensures FieldLinked(ctx, n, f)
      {
        FieldOfLoaded(d, names, n, f);
      }
    }
    LinkedFromParts(ctx);
  }
}
