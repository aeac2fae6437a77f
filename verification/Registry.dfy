/** MsgContext: the memoising registry of message definitions and its digests. */
module Registry {
  import opened Basics
  import opened Schema
  import opened FieldText

  /** What the definition files hold: the text behind each full name, the line parser, and MD5, both of
      them plain functions of text. `rank` witnesses that references do not cycle. */
  datatype Defs = Defs(texts: map<string, string>, parse: (string, string) -> Option<Parsed>, md5: string -> string,
                       rank: map<string, nat>)

  datatype Parsed = Parsed(fields: seq<Field>, constants: seq<Constant>)

  /** packageResourceName */
  function PackageResourceName(name: string): Option<(string, string)>
  {
    var i := Index(name, '/');
    if i < 0 then Some(("", name))
    else if '/' in name[i + 1..] then None
    else Some((name[..i], name[i + 1..]))
  }

  predicate Defined(d: Defs, name: string)
  {
    && name in d.texts
    && PackageResourceName(name).Some?
    && d.parse(d.texts[name], PackageResourceName(name).value.0).Some?
  }

  function Body(d: Defs, name: string): Parsed
    requires Defined(d, name)
  {
    d.parse(d.texts[name], PackageResourceName(name).value.0).value
  }

  ghost predicate AcyclicDefs(d: Defs)
  {
    forall n, f | Defined(d, n) && f in Body(d, n).fields && f.pkg != "" && Defined(d, StaticRef(f)) ::
      n in d.rank && StaticRef(f) in d.rank && d.rank[StaticRef(f)] < d.rank[n]
  }

  // ---------------------------------------------------------------- digests, without the cache

  function TrimNewlines(s: string): string
  {
    if s == "" then ""
    else if s[0] == '\n' then TrimNewlines(s[1..])
    else if s[|s| - 1] == '\n' then TrimNewlines(s[..|s| - 1])
    else s
  }

  function ConstantLines(cs: seq<Constant>, i: nat): string
    requires i <= |cs|
  {
    if i == 0 then ""
    else ConstantLines(cs, i - 1) + cs[i - 1].typ + " " + cs[i - 1].name + "=" + cs[i - 1].valueText + "\n"
  }

  function Rank(d: Defs, name: string): nat
  {
    if !Defined(d, name) then 0 else 1 + if name in d.rank then d.rank[name] else 0
  }

  /** How deep the definition behind a field is. */
  function FieldRank(d: Defs, f: Field): nat
  {
    if f.pkg == "" then 0 else Rank(d, StaticRef(f))
  }

  /** Above the definitions behind all the fields. */
  function Bound(d: Defs, fields: seq<Field>): nat
  {
    if fields == [] then 0
    else
      var rest, last := Bound(d, fields[..|fields| - 1]), 1 + FieldRank(d, fields[|fields| - 1]);
      if rest < last then last else rest
  }

  lemma {:induction false} FieldBelowBound(d: Defs, fields: seq<Field>, i: nat)
    requires i < |fields|
    ensures FieldRank(d, fields[i]) < Bound(d, fields)
  {
    hide FieldRank;
    if i < |fields| - 1 {
      FieldBelowBound(d, fields[..|fields| - 1], i);
    }
  }

  lemma {:induction false} BoundBelow(d: Defs, fields: seq<Field>, r: nat)
    requires forall f <- fields :: FieldRank(d, f) < r
    ensures Bound(d, fields) <= r
  {
    hide FieldRank;
    if fields != [] {
      BoundBelow(d, fields[..|fields| - 1], r);
    }
  }

  lemma BodyBelowRank(d: Defs, name: string)
    requires AcyclicDefs(d) && Defined(d, name)
    ensures Bound(d, Body(d, name).fields) <= Rank(d, name)
  {
    hide Defined, Body;
    BoundBelow(d, Body(d, name).fields, Rank(d, name));
  }

  /** The digest of a definition, recomputed from the texts. */
  function Digest(d: Defs, name: string): string
    requires AcyclicDefs(d) && Defined(d, name)
    decreases Rank(d, name), 2, 0
  {
    BodyBelowRank(d, name);
    d.md5(DigestText(d, Body(d, name)))
  }

  /** ComputeMD5Text: empty as soon as a referenced definition cannot be loaded. */
  function DigestText(d: Defs, p: Parsed): string
    requires AcyclicDefs(d)
    decreases Bound(d, p.fields), 1, 0
  {
    match FieldLines(d, p.fields, |p.fields|)
    case None => ""
    case Some(lines) => TrimNewlines(ConstantLines(p.constants, |p.constants|) + lines)
  }

  /** The lines of the first `i` fields. */
  function FieldLines(d: Defs, fields: seq<Field>, i: nat): Option<string>
    requires AcyclicDefs(d) && i <= |fields|
    decreases Bound(d, fields), 0, i
  {
    if i == 0 then Some("")
    else
      match FieldLines(d, fields, i - 1)
      case None => None
      case Some(lines) =>
        FieldBelowBound(d, fields, i - 1);
        match FieldLine(d, fields[i - 1])
        case None => None
        case Some(line) => Some(lines + line)
  }

  /** A builtin field contributes itself, any other the digest of its definition. */
  function FieldLine(d: Defs, f: Field): Option<string>
    requires AcyclicDefs(d)
    decreases FieldRank(d, f), 3, 0
  {
    if f.pkg == "" then Some(FieldString(f) + "\n")
    else if !Defined(d, StaticRef(f)) then None
    else Some(Digest(d, StaticRef(f)) + " " + f.name + "\n")
  }

  /** The specification a text loads as, under a name, if nothing is remembered. */
  function FromText(d: Defs, text: string, name: string): Option<MsgSpec>
    requires AcyclicDefs(d)
  {
    match PackageResourceName(name)
    case None => None
    case Some((package, shortName)) =>
      match d.parse(text, package)
      case None => None
      case Some(p) =>
        Some(MsgSpec(p.fields, p.constants, text, d.md5(DigestText(d, p)), name, shortName, package))
  }

  /** The specification LoadMsg would build if it remembered nothing. */
  function Unfold(d: Defs, name: string): Option<MsgSpec>
    requires AcyclicDefs(d)
  {
    if name in d.texts then FromText(d, d.texts[name], name) else None
  }

  /** What a spec loaded from a text under a name must record, said without the loader: the text and the name
      themselves, the name cut at its only slash, what the parser makes of the text in that package, and the
      digest that the handshake compares. */
  ghost predicate Records(d: Defs, s: MsgSpec, text: string, name: string)
    requires AcyclicDefs(d)
  {
    && s.text == text && s.fullName == name
    && '/' !in s.package && '/' !in s.shortName
    && name == (if '/' in name then s.package + "/" + s.shortName else s.shortName)
    && ('/' !in name ==> s.package == "")
    && d.parse(text, s.package) == Some(Parsed(s.fields, s.constants))
    && s.md5sum == d.md5(DigestText(d, Parsed(s.fields, s.constants)))
  }

  lemma FromTextRecords(d: Defs, text: string, name: string)
    requires AcyclicDefs(d) && FromText(d, text, name).Some?
    ensures Records(d, FromText(d, text, name).value, text, name)
  {
    hide AcyclicDefs, DigestText, Index;
    var i := Index(name, '/');
    if i >= 0 {
      assert name == name[..i] + "/" + name[i + 1..];
    }
  }

  /** What an un-memoised load gives records the file of its name and the digest of its definition. */
  lemma UnfoldRecords(d: Defs, n: string)
    requires AcyclicDefs(d) && Unfold(d, n).Some?
    ensures Defined(d, n) && Records(d, Unfold(d, n).value, d.texts[n], n)
    ensures Unfold(d, n).value.md5sum == Digest(d, n) && Unfold(d, n).value.text == d.texts[n]
  {
    hide AcyclicDefs, FromText, Touched, DigestText, Records;
    UnfoldKnown(d, n);
    FromTextRecords(d, d.texts[n], n);
    RecordsDigest(d, Unfold(d, n).value, d.texts[n], n);
  }

  /** So does every entry of a coherent registry. */
  lemma CoherentRecords(d: Defs, reg: map<string, MsgSpec>)
    requires AcyclicDefs(d) && Coherent(d, reg)
    ensures forall n <- reg :: Defined(d, n) && Records(d, reg[n], d.texts[n], n)
    ensures forall n <- reg :: Defined(d, n) && reg[n].md5sum == Digest(d, n) && reg[n].text == d.texts[n]
  {
    hide AcyclicDefs, Touched, Unfold, Digest, Records;
    forall n <- reg
      ensures Defined(d, n) && Records(d, reg[n], d.texts[n], n)
      ensures Defined(d, n) && reg[n].md5sum == Digest(d, n) && reg[n].text == d.texts[n]
    {
      UnfoldRecords(d, n);
    }
  }

  lemma RecordsDigest(d: Defs, s: MsgSpec, text: string, name: string)
    requires AcyclicDefs(d) && Records(d, s, text, name)
    ensures s.text == text && s.fullName == name
    ensures s.md5sum == d.md5(DigestText(d, Parsed(s.fields, s.constants)))
  {
  }

  /** The names a first load of `name` puts into the registry. */
  function Touched(d: Defs, name: string): set<string>
    requires AcyclicDefs(d)
    decreases Rank(d, name), 1, 0
  {
    if !Defined(d, name) then {}
    else
      BodyBelowRank(d, name);
      {name} + TouchedByFields(d, Body(d, name).fields, |Body(d, name).fields|)
  }

  function TouchedByFields(d: Defs, fields: seq<Field>, i: nat): set<string>
    requires AcyclicDefs(d) && i <= |fields|
    decreases Bound(d, fields), 0, i
  {
    if i == 0 then {}
    else if FieldLines(d, fields, i - 1).None? then TouchedByFields(d, fields, i - 1)
    else
      FieldBelowBound(d, fields, i - 1);
      TouchedByFields(d, fields, i - 1) + TouchedByField(d, fields[i - 1])
  }

  function TouchedByField(d: Defs, f: Field): set<string>
    requires AcyclicDefs(d)
    decreases FieldRank(d, f), 2, 0
  {
    if f.pkg == "" || !Defined(d, StaticRef(f)) then {} else Touched(d, StaticRef(f))
  }

  // ---------------------------------------------------------------- the registry

  /** Every entry is what an un-memoised load gives, and so are all the entries it needed. */
  ghost predicate Coherent(d: Defs, reg: map<string, MsgSpec>)
    requires AcyclicDefs(d)
  {
    forall n <- reg :: Unfold(d, n) == Some(reg[n]) && Touched(d, n) <= reg.Keys
  }

  /** The entries that un-memoised loads of these names give. */
  function Unfolded(d: Defs, names: set<string>): map<string, MsgSpec>
    requires AcyclicDefs(d)
  {
    map n <- names | Unfold(d, n).Some? :: Unfold(d, n).value
  }

  /** What a text refers to, as far as loading it gets. */
  function TouchedByText(d: Defs, text: string, name: string): set<string>
    requires AcyclicDefs(d)
  {
    match FromText(d, text, name)
    case None => {}
    case Some(s) => TouchedByFields(d, s.fields, |s.fields|)
  }

  function TextBound(d: Defs, text: string, name: string): nat
  {
    match PackageResourceName(name)
    case None => 0
    case Some((package, _)) =>
      match d.parse(text, package)
      case None => 0
      case Some(p) => Bound(d, p.fields)
  }

  class MsgContext {
    const defs: Defs
    var msgRegistry: map<string, MsgSpec>

    constructor (defs: Defs)
      ensures this.defs == defs && msgRegistry == map[]
    {
      this.defs := defs;
      msgRegistry := map[];
    }

    /** LoadMsg: from the registry if it is there, otherwise from its file. */
    method LoadMsg(fullname: string) returns (spec: Option<MsgSpec>)
      requires AcyclicDefs(defs) && Coherent(defs, msgRegistry)
      modifies this
      ensures Coherent(defs, msgRegistry)
      ensures spec == Unfold(defs, fullname)
      ensures spec.Some? <==> Defined(defs, fullname)
      ensures spec.Some? ==> Records(defs, spec.value, defs.texts[fullname], fullname)
      ensures spec.Some? ==> spec.value.md5sum == Digest(defs, fullname)
      ensures forall n <- msgRegistry ::
                && Defined(defs, n) && msgRegistry[n].md5sum == Digest(defs, n) && msgRegistry[n].text == defs.texts[n]
      ensures msgRegistry.Keys == old(msgRegistry.Keys) + Touched(defs, fullname)
      decreases Rank(defs, fullname), 5
    {
      hide AcyclicDefs, Touched, FromText, Coherent, TouchedByText, Unfolded, TextBound, Records, Digest, Unfold, Body;
      if fullname in msgRegistry {
        CoherentEntry(defs, msgRegistry, fullname);
        spec := Some(msgRegistry[fullname]);
      } else if fullname in defs.texts {
        FileText(defs, fullname);
        spec := LoadMsgFromString(defs.texts[fullname], fullname);
      } else {
        NothingTouched(defs, fullname);
        spec := None;
      }
      UnfoldKnown(defs, fullname);
      if spec.Some? {
        UnfoldRecords(defs, fullname);
      }
      CoherentRecords(defs, msgRegistry);
    }

    /** Parse a text, compute its digest, register it under a name, whatever that name stood for before.
        The registry stays coherent exactly when the text says what the file of that name says. */
    method LoadMsgFromString(text: string, fullname: string) returns (spec: Option<MsgSpec>)
      requires AcyclicDefs(defs) && Coherent(defs, msgRegistry)
      modifies this
      ensures spec == FromText(defs, text, fullname)
      ensures spec.Some? ==> Records(defs, spec.value, text, fullname)
      ensures msgRegistry ==
              if spec.None? then old(msgRegistry)
              else Unfolded(defs, old(msgRegistry.Keys) + TouchedByText(defs, text, fullname))[fullname := spec.value]
      ensures spec.Some? ==>
              msgRegistry.Keys == old(msgRegistry.Keys) + TouchedByText(defs, text, fullname) + {fullname}
      ensures Coherent(defs, msgRegistry) <==> spec.None? || spec == Unfold(defs, fullname)
      decreases TextBound(defs, text, fullname), 4
    {
      hide AcyclicDefs, Touched, TouchedByFields, Coherent, Unfolded, Unfold, DigestText, Records;
      var names := PackageResourceName(fullname);
      if names.None? {
        return None;
      }
      var parsed := defs.parse(text, names.value.0);
      if parsed.None? {
        return None;
      }
      var s := MsgSpec(parsed.value.fields, parsed.value.constants, text, "", fullname, names.value.1, names.value.0);
      var md5sum := ComputeMsgMD5(s);
      s := s.(md5sum := md5sum);
      spec := Some(s);
      FromTextRecords(defs, text, fullname);
      CoherentIsUnfolded(defs, msgRegistry);
      RegisterCoherent(defs, msgRegistry, text, fullname);
      // Register
      msgRegistry := msgRegistry[fullname := s];
    }

    method ComputeMsgMD5(spec: MsgSpec) returns (sum: string)
      requires AcyclicDefs(defs) && Coherent(defs, msgRegistry)
      modifies this
      ensures Coherent(defs, msgRegistry)
      ensures sum == defs.md5(DigestText(defs, Parsed(spec.fields, spec.constants)))
      ensures msgRegistry.Keys == old(msgRegistry.Keys) + TouchedByFields(defs, spec.fields, |spec.fields|)
      decreases Bound(defs, spec.fields), 3
    {
      var text := ComputeMD5Text(spec);
      sum := defs.md5(text);
    }

    /** The digest text of a spec, loading what its fields refer to on the way. */
    method ComputeMD5Text(spec: MsgSpec) returns (text: string)
      requires AcyclicDefs(defs) && Coherent(defs, msgRegistry)
      modifies this
      ensures Coherent(defs, msgRegistry)
      ensures text == DigestText(defs, Parsed(spec.fields, spec.constants))
      ensures msgRegistry.Keys == old(msgRegistry.Keys) + TouchedByFields(defs, spec.fields, |spec.fields|)
      decreases Bound(defs, spec.fields), 2
    {
      hide AcyclicDefs, Coherent, FieldLine, TouchedByField, TrimNewlines, ConstantLines, Bound;
      var buf := WriteConstants(spec.constants);
      ghost var constants, lines := buf, "";
      var i := 0;
      while i < |spec.fields|
        invariant i <= |spec.fields| && buf == constants + lines
        invariant FieldLines(defs, spec.fields, i) == Some(lines)
        invariant Coherent(defs, msgRegistry)
        invariant msgRegistry.Keys == old(msgRegistry.Keys) + TouchedByFields(defs, spec.fields, i)
      {
        FieldBelowBound(defs, spec.fields, i);
        var line := WriteField(spec.fields[i]);
        if line.None? {
          StopsForGood(defs, spec.fields, i + 1);
          return "";
        }
        assert constants + lines + line.value == constants + (lines + line.value);
        buf, lines := buf + line.value, lines + line.value;
        i := i + 1;
      }
      text := TrimNewlines(buf);
    }

    /** The loop body for one field; None when its definition cannot be loaded. */
    method WriteField(f: Field) returns (line: Option<string>)
      requires AcyclicDefs(defs) && Coherent(defs, msgRegistry)
      modifies this
      ensures Coherent(defs, msgRegistry)
      ensures line == FieldLine(defs, f)
      ensures msgRegistry.Keys == old(msgRegistry.Keys) + TouchedByField(defs, f)
      decreases FieldRank(defs, f), 6
    {
      hide AcyclicDefs, Coherent, Touched, Digest, FieldString, Unfold, Rank, Defined, DigestText, TouchedByFields;
      if f.pkg == "" {
        line := Some(FieldString(f) + "\n");
      } else {
        var name := StaticRef(f);
        NothingTouched(defs, name);
        UnfoldKnown(defs, name);
        var subspec := LoadMsg(name);
        if subspec.None? {
          return None;
        }
        BodyBelowRank(defs, name);
        var submd5 := ComputeMsgMD5(subspec.value);
        TouchedAgain(defs, name);
        line := Some(submd5 + " " + f.name + "\n");
      }
    }
  }

  method WriteConstants(constants: seq<Constant>) returns (buf: string)
    ensures buf == ConstantLines(constants, |constants|)
  {
    buf := "";
    var i := 0;
    while i < |constants|
      invariant i <= |constants| && buf == ConstantLines(constants, i)
    {
      var c := constants[i];
      buf := buf + c.typ + " " + c.name + "=" + c.valueText + "\n";
      i := i + 1;
    }
  }

  lemma NothingTouched(d: Defs, name: string)
    requires AcyclicDefs(d)
    ensures !Defined(d, name) ==> Touched(d, name) == {} && Unfold(d, name) == None
  {
  }

  lemma UnfoldKnown(d: Defs, name: string)
    requires AcyclicDefs(d)
    ensures Unfold(d, name).Some? <==> Defined(d, name)
    ensures Defined(d, name) ==>
            var s := Unfold(d, name).value;
            && s.fullName == name && Parsed(s.fields, s.constants) == Body(d, name)
            && d.md5(DigestText(d, Parsed(s.fields, s.constants))) == Digest(d, name)
  {
    hide DigestText;
  }

  lemma TouchedAgain(d: Defs, name: string)
    requires AcyclicDefs(d) && Defined(d, name)
    ensures TouchedByFields(d, Body(d, name).fields, |Body(d, name).fields|) <= Touched(d, name)
  {
  }

  lemma FileText(d: Defs, name: string)
    requires AcyclicDefs(d) && name in d.texts
    ensures TextBound(d, d.texts[name], name) <= Rank(d, name)
    ensures FromText(d, d.texts[name], name) == Unfold(d, name)
    ensures Unfold(d, name).Some? ==> TouchedByText(d, d.texts[name], name) + {name} == Touched(d, name)
    ensures Unfold(d, name).None? ==> Touched(d, name) == {}
  {
    hide AcyclicDefs, TouchedByFields, DigestText, Bound;
    if Defined(d, name) {
      BodyBelowRank(d, name);
    }
  }

  lemma CoherentEntry(d: Defs, reg: map<string, MsgSpec>, n: string)
    requires AcyclicDefs(d) && Coherent(d, reg) && n in reg
    ensures Unfold(d, n) == Some(reg[n]) && Touched(d, n) <= reg.Keys
  {
  }

  /** A coherent registry holds nothing of its own. */
  lemma CoherentIsUnfolded(d: Defs, reg: map<string, MsgSpec>)
    requires AcyclicDefs(d) && Coherent(d, reg)
    ensures reg == Unfolded(d, reg.Keys)
  {
  }

  /** Registering a text keeps a registry that holds its references coherent exactly when the file of
      that name gives the same specification. */
  lemma RegisterCoherent(d: Defs, reg: map<string, MsgSpec>, text: string, name: string)
    requires AcyclicDefs(d) && Coherent(d, reg)
    requires FromText(d, text, name).Some? && TouchedByText(d, text, name) <= reg.Keys
    ensures Coherent(d, reg[name := FromText(d, text, name).value]) <==> FromText(d, text, name) == Unfold(d, name)
  {
    hide AcyclicDefs, TouchedByFields, DigestText;
    if FromText(d, text, name) == Unfold(d, name) {
      TouchedByDefinition(d, name);
    } else {
      assert name in reg[name := FromText(d, text, name).value];
    }
  }

  lemma TouchedByDefinition(d: Defs, name: string)
    requires AcyclicDefs(d) && Unfold(d, name).Some?
    ensures var s := Unfold(d, name).value;
            Touched(d, name) == {name} + TouchedByFields(d, s.fields, |s.fields|)
  {
    hide AcyclicDefs, TouchedByFields, DigestText;
  }

  /** Once a field's definition is missing, the remaining fields add nothing. */
  lemma {:induction false} StopsForGood(d: Defs, fields: seq<Field>, i: nat)
    requires AcyclicDefs(d) && i <= |fields| && FieldLines(d, fields, i).None?
    ensures FieldLines(d, fields, |fields|).None?
    ensures TouchedByFields(d, fields, |fields|) == TouchedByFields(d, fields, i)
    decreases |fields| - i
  {
    hide AcyclicDefs, FieldLine, TouchedByField, Bound;
    if i < |fields| {
      StopsForGood(d, fields, i + 1);
    }
  }

  // ---------------------------------------------------------------- a digest text written out

  /** Constants first, then fields; a message field as the digest of its definition; one line each, no newline
      at the end. */
  lemma DigestTextExample(d: Defs)
    requires AcyclicDefs(d) && Defined(d, "std_msgs/Header")
    ensures var fields := [Field("", "uint8", "a", true, -1), Field("", "float64", "x", true, 9),
                           Field("std_msgs", "Header", "h", false, 0)];
            DigestText(d, Parsed(fields, [Constant("int32", "A", "1"), Constant("string", "S", "b  c")])) ==
            "int32 A=1\nstring S=b  c\n" + "uint8[] a\n" + "float64[9] x\n" + Digest(d, "std_msgs/Header") + " h"
  {
    hide AcyclicDefs, Digest, Defined, FieldLines, FieldLine, ConstantLines, TrimNewlines;
    var constants := [Constant("int32", "A", "1"), Constant("string", "S", "b  c")];
    var sum, head := Digest(d, "std_msgs/Header"), "int32 A=1\nstring S=b  c\n";
    ConstantsExample(constants);
    FieldsExample(d);
    var text := head + "uint8[] a\n" + "float64[9] x\n" + sum + " h";
    assert head + ("uint8[] a\n" + "float64[9] x\n" + (sum + " h" + "\n")) == text + "\n";
    TrimOne(text);
  }

  lemma FieldsExample(d: Defs)
    requires AcyclicDefs(d) && Defined(d, "std_msgs/Header")
    ensures var fields := [Field("", "uint8", "a", true, -1), Field("", "float64", "x", true, 9),
                           Field("std_msgs", "Header", "h", false, 0)];
            FieldLines(d, fields, 3) ==
            Some("uint8[] a\n" + "float64[9] x\n" + (Digest(d, "std_msgs/Header") + " h" + "\n"))
  {
    hide AcyclicDefs, Digest, Defined, FieldLines, FieldLine;
    var a, x := Field("", "uint8", "a", true, -1), Field("", "float64", "x", true, 9);
    var h := Field("std_msgs", "Header", "h", false, 0);
    var fields, sum := [a, x, h], Digest(d, "std_msgs/Header");
    ArrayLines(d);
    assert "std_msgs" + "/" + "Header" == "std_msgs/Header";
    ReferenceLine(d, h);
    assert sum + " " + "h" + "\n" == sum + " h" + "\n";
    NoFieldLines(d, fields);
    assert "" + "uint8[] a\n" == "uint8[] a\n";
    FieldLinesNext(d, fields, 0, "", "uint8[] a\n");
    FieldLinesNext(d, fields, 1, "uint8[] a\n", "float64[9] x\n");
    FieldLinesNext(d, fields, 2, "uint8[] a\n" + "float64[9] x\n", sum + " h" + "\n");
  }

  lemma NoFieldLines(d: Defs, fields: seq<Field>)
    requires AcyclicDefs(d)
    ensures FieldLines(d, fields, 0) == Some("")
  {
  }

  lemma FieldLinesNext(d: Defs, fields: seq<Field>, i: nat, before: string, line: string)
    requires AcyclicDefs(d) && i < |fields| && FieldLines(d, fields, i) == Some(before)
    requires FieldLine(d, fields[i]) == Some(line)
    ensures FieldLines(d, fields, i + 1) == Some(before + line)
  {
    hide AcyclicDefs, FieldLine, Bound;
  }

  lemma ArrayLines(d: Defs)
    requires AcyclicDefs(d)
    ensures FieldLine(d, Field("", "uint8", "a", true, -1)) == Some("uint8[] a\n")
    ensures FieldLine(d, Field("", "float64", "x", true, 9)) == Some("float64[9] x\n")
  {
    hide AcyclicDefs, Digest, Defined;
    assert "uint8" + "[]" + " " + "a" + "\n" == "uint8[] a\n";
    assert Itoa(9) == "9" && "[" + "9" + "]" == "[9]";
    assert "float64" + "[9]" + " " + "x" + "\n" == "float64[9] x\n";
  }

  lemma ReferenceLine(d: Defs, f: Field)
    requires AcyclicDefs(d) && f.pkg != "" && Defined(d, StaticRef(f))
    ensures FieldLine(d, f) == Some(Digest(d, StaticRef(f)) + " " + f.name + "\n")
  {
    hide AcyclicDefs, Digest, Defined;
  }

  lemma ConstantsExample(cs: seq<Constant>)
    requires cs == [Constant("int32", "A", "1"), Constant("string", "S", "b  c")]
    ensures ConstantLines(cs, 2) == "int32 A=1\nstring S=b  c\n"
  {
    assert ConstantLines(cs, 0) == "";
    assert ConstantLines(cs, 1) == "int32 A=1\n";
  }

  lemma TrimOne(text: string)
    requires text != "" && text[0] != '\n' && text[|text| - 1] != '\n'
    ensures TrimNewlines(text + "\n") == text
  {
    assert (text + "\n")[..|text|] == text;
  }
}
