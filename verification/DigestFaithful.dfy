/** What a digest text says about the definition it was made from: when it says nothing at all, and
    that the text of a message of builtin fields is itself a message text, which reads back as the same
    fields and constants. */
module DigestFaithful {
  import opened Basics
  import opened Schema
  import opened FieldText
  import opened ConstantText
  import opened MsgText
  import opened Registry

  function Reader(literal: Literals): string -> Option<Constant>
  {
    line => LoadConstantLine(line, literal)
  }

  /** Constants as lines of a text give them. */
  predicate PlainConstant(c: Constant, literal: Literals)
  {
    Settled(c, literal) && '#' !in c.name && '\n' !in DigestLine(c)
  }

  predicate PlainField(f: Field)
  {
    f.IsBuiltin() && f.pkg == "" && f.Shaped() && LegalName(f.name)
  }

  predicate Plain(p: Parsed, literal: Literals)
  {
    (forall c <- p.constants :: PlainConstant(c, literal)) && (forall f <- p.fields :: PlainField(f))
  }

  // ---------------------------------------------------------------- lines of a text

  function Terminated(lines: seq<string>, n: nat): string
    requires n <= |lines|
  {
    if n == 0 then "" else Terminated(lines, n - 1) + lines[n - 1] + "\n"
  }

  lemma FirstLine(l: string, t: string)
    requires '\n' !in l
    ensures Lines(l + "\n" + t) == [l] + Lines(t)
  {
    BeforeMark(l, '\n', t);
    assert (l + "\n" + t)[|l| + 1..] == t;
  }

  lemma {:induction false} LinesOfTerminated(lines: seq<string>, n: nat, t: string)
    requires n <= |lines| && forall l <- lines :: '\n' !in l
    ensures Lines(Terminated(lines, n) + t) == lines[..n] + Lines(t)
  {
    hide Lines;
    if n == 0 {
      assert Terminated(lines, 0) + t == t;
    } else {
      var l := lines[n - 1];
      assert Terminated(lines, n) + t == Terminated(lines, n - 1) + (l + "\n" + t);
      LinesOfTerminated(lines, n - 1, l + "\n" + t);
      FirstLine(l, t);
      assert lines[..n] == lines[..n - 1] + [l];
    }
  }

  lemma TrimLast(x: string)
    requires x != "" && x[0] != '\n' && x[|x| - 1] != '\n'
    ensures TrimNewlines(x + "\n") == x
  {
    assert (x + "\n")[..|x|] == x;
    assert TrimNewlines(x) == x;
  }

  /** Trimming the final newline off a text of non-empty lines leaves exactly those lines. */
  lemma TrimmedLines(lines: seq<string>)
    requires lines != [] && forall l <- lines :: l != "" && '\n' !in l
    ensures Lines(TrimNewlines(Terminated(lines, |lines|))) == lines
  {
    hide Lines, TrimNewlines;
    var n := |lines| - 1;
    var last := lines[n];
    var x := Terminated(lines, n) + last;
    assert last in lines && last[|last| - 1] in last;
    StartsWithLine(lines, n);
    assert x[|x| - 1] == last[|last| - 1];
    TrimLast(x);
    LinesOfTerminated(lines, n, last);
    OneLine(last);
    assert lines == lines[..n] + [last];
  }

  lemma OneLine(l: string)
    requires '\n' !in l
    ensures Lines(l) == [l]
  {
    BeforeNone(l, '\n');
  }

  lemma {:induction false} StartsWithLine(lines: seq<string>, n: nat)
    requires n < |lines| && forall l <- lines :: l != "" && '\n' !in l
    ensures var x := Terminated(lines, n) + lines[n]; x != "" && x[0] != '\n'
  {
    if n == 0 {
      assert lines[0] in lines && lines[0][0] in lines[0];
    } else {
      StartsWithLine(lines, n - 1);
      assert lines[n - 1] in lines;
      assert (Terminated(lines, n) + lines[n])[0] == (Terminated(lines, n - 1) + lines[n - 1])[0];
    }
  }

  // ---------------------------------------------------------------- the lines of a digest

  /** Nothing the fields refer to is missing. */
  predicate Direct(d: Defs, fields: seq<Field>)
  {
    forall f <- fields :: f.pkg != "" ==> Defined(d, StaticRef(f))
  }

  /** A field's line, without its newline. */
  function FieldDigestLine(d: Defs, f: Field): string
    requires AcyclicDefs(d) && (f.pkg != "" ==> Defined(d, StaticRef(f)))
  {
    if f.pkg == "" then FieldString(f) else Digest(d, StaticRef(f)) + " " + f.name
  }

  function DigestLines(d: Defs, p: Parsed): (lines: seq<string>)
    requires AcyclicDefs(d) && Direct(d, p.fields)
    ensures |lines| == |p.constants| + |p.fields|
    ensures forall i | 0 <= i < |p.constants| :: lines[i] == DigestLine(p.constants[i])
    ensures forall i | 0 <= i < |p.fields| ::
              p.fields[i] in p.fields && lines[|p.constants| + i] == FieldDigestLine(d, p.fields[i])
  {
    seq(|p.constants|, i requires 0 <= i < |p.constants| => DigestLine(p.constants[i]))
    + seq(|p.fields|, i requires 0 <= i < |p.fields| =>
          (assert p.fields[i] in p.fields; FieldDigestLine(d, p.fields[i])))
  }

  /** A character before the first comment mark, if no space, survives stripping. */
  lemma CleanKeeps(s: string, k: nat)
    requires k < |s| && !IsSpace(s[k]) && forall j | 0 <= j <= k :: s[j] != '#'
    ensures s[k] in StripComment(s)
  {
    hide TrimSpace, TrimRight, Before, Lead;
    var b := Before(s, '#');
    BeforeReaches(s, k + 1);
    TrimSpaceTrims(b);
    assert b[k] == s[k];
    var u := b[Lead(b)..];
    TrimRightIsPrefix(u);
    assert u[k - Lead(b)] == s[k];
    assert TrimRight(u)[k - Lead(b)] == s[k];
  }

  lemma ConstantLineReads(c: Constant, package: string, literal: Literals)
    requires PlainConstant(c, literal)
    ensures ParseLine(DigestLine(c), package, Reader(literal)) == ConstantItem(c)
    ensures DigestLine(c) != "" && '\n' !in DigestLine(c)
  {
    hide StripComment, LoadConstantLine, ConstantType;
    var s := DigestLine(c);
    var k := |c.typ| + 1 + |c.name|;
    TypeIsPlain(c.typ);
    assert s[k] == '=';
    assert forall j | 0 <= j < |c.typ| :: s[j] == c.typ[j] && c.typ[j] in c.typ;
    assert forall j | |c.typ| < j < k :: s[j] == c.name[j - |c.typ| - 1] && s[j] in c.name;
    CleanKeeps(s, k);
    SettledReparses(c, literal);
  }

  lemma FieldLineReads(f: Field, package: string, constantLine: string -> Option<Constant>)
    requires PlainField(f)
    ensures ParseLine(FieldString(f), package, constantLine) == FieldItem(f)
    ensures FieldString(f) != "" && '\n' !in FieldString(f)
  {
    hide ParseLine, BuiltinOf, LegalName;
    PrintedLine(f, package, constantLine);
    NoNewlineInField(f);
  }

  lemma NoNewlineInField(f: Field)
    requires PlainField(f)
    ensures FieldString(f) != "" && '\n' !in FieldString(f)
  {
    hide Suffix, BuiltinOf;
    BuiltinNamesAreLegal(f.typ);
    SuffixCloses(f);
  }

  // ---------------------------------------------------------------- the digest text

  lemma {:induction false} ConstantLinesTerminated(d: Defs, p: Parsed, n: nat)
    requires AcyclicDefs(d) && Direct(d, p.fields) && n <= |p.constants|
    ensures ConstantLines(p.constants, n) == Terminated(DigestLines(d, p), n)
  {
    hide AcyclicDefs, Direct, DigestLines;
    if n > 0 {
      ConstantLinesTerminated(d, p, n - 1);
      LineOfConstant(p.constants, n);
    }
  }

  lemma LineOfConstant(cs: seq<Constant>, n: nat)
    requires 0 < n <= |cs|
    ensures ConstantLines(cs, n) == ConstantLines(cs, n - 1) + DigestLine(cs[n - 1]) + "\n"
  {
    var a, c := ConstantLines(cs, n - 1), cs[n - 1];
    assert a + c.typ + " " + c.name + "=" + c.valueText == a + (c.typ + " " + c.name + "=" + c.valueText);
  }

  lemma {:induction false} FieldLinesTerminated(d: Defs, p: Parsed, i: nat)
    requires AcyclicDefs(d) && Direct(d, p.fields) && i <= |p.fields|
    ensures FieldLines(d, p.fields, i).Some?
    ensures ConstantLines(p.constants, |p.constants|) + FieldLines(d, p.fields, i).value ==
            Terminated(DigestLines(d, p), |p.constants| + i)
  {
    hide AcyclicDefs, ConstantLines, FieldString, Direct, DigestLines, FieldLine, FieldDigestLine, Bound, Terminated;
    var all := ConstantLines(p.constants, |p.constants|);
    if i == 0 {
      ConstantLinesTerminated(d, p, |p.constants|);
      assert all + "" == all;
    } else {
      FieldLinesTerminated(d, p, i - 1);
      LineOfField(d, p.fields, i - 1);
      NextLine(all, FieldLines(d, p.fields, i - 1).value, DigestLines(d, p), |p.constants| + i - 1);
    }
  }

  lemma NextLine(all: string, before: string, lines: seq<string>, n: nat)
    requires n < |lines| && all + before == Terminated(lines, n)
    ensures all + (before + (lines[n] + "\n")) == Terminated(lines, n + 1)
  {
  }

  lemma LineOfField(d: Defs, fields: seq<Field>, i: nat)
    requires AcyclicDefs(d) && Direct(d, fields) && i < |fields|
    ensures fields[i].pkg != "" ==> Defined(d, StaticRef(fields[i]))
    ensures FieldLine(d, fields[i]) == Some(FieldDigestLine(d, fields[i]) + "\n")
  {
    hide AcyclicDefs, Defined, Digest, FieldString;
    assert fields[i] in fields;
  }

  lemma DigestTextIs(d: Defs, p: Parsed)
    requires AcyclicDefs(d) && Direct(d, p.fields)
    ensures DigestText(d, p) == TrimNewlines(Terminated(DigestLines(d, p), |p.constants| + |p.fields|))
  {
    hide AcyclicDefs, FieldLines, TrimNewlines, ConstantLines, Terminated, DigestLines, Direct;
    FieldLinesTerminated(d, p, |p.fields|);
  }

  // ---------------------------------------------------------------- erased digests

  /** A load error inside the digest computation is swallowed. The digest text is empty exactly when some
      referenced definition is missing, whatever else the definition says, or when it says nothing. */
  lemma ErasedIff(d: Defs, p: Parsed)
    requires AcyclicDefs(d)
    ensures DigestText(d, p) == "" <==> !Direct(d, p.fields) || (p.fields == [] && p.constants == [])
  {
    hide AcyclicDefs, FieldLines, TrimNewlines, ConstantLines, Terminated, DigestLines, Defined;
    if Direct(d, p.fields) {
      DigestTextIs(d, p);
      if p.fields == [] && p.constants == [] {
        NoLines(DigestLines(d, p));
      } else {
        LastLineShows(d, p);
      }
    } else {
      var k :| 0 <= k < |p.fields| && p.fields[k].pkg != "" && !Defined(d, StaticRef(p.fields[k]));
      MissingStops(d, p.fields, k);
    }
  }

  lemma NoLines(lines: seq<string>)
    ensures TrimNewlines(Terminated(lines, 0)) == ""
  {
  }

  lemma MissingStops(d: Defs, fields: seq<Field>, k: nat)
    requires AcyclicDefs(d) && k < |fields| && fields[k].pkg != "" && !Defined(d, StaticRef(fields[k]))
    ensures FieldLines(d, fields, |fields|).None?
  {
    hide AcyclicDefs, Defined, Bound;
    assert FieldLine(d, fields[k]).None?;
    assert FieldLines(d, fields, k + 1).None?;
    StopsForGood(d, fields, k + 1);
  }

  /** Every line holds a space. */
  lemma LastLineShows(d: Defs, p: Parsed)
    requires AcyclicDefs(d) && Direct(d, p.fields) && (p.fields != [] || p.constants != [])
    ensures TrimNewlines(Terminated(DigestLines(d, p), |p.constants| + |p.fields|)) != ""
  {
    hide AcyclicDefs, Direct, DigestLines, TrimNewlines, FieldDigestLine;
    var lines := DigestLines(d, p);
    var n := |lines| - 1;
    if p.fields == [] {
      SpaceInConstant(p.constants[n]);
    } else {
      LineOfField(d, p.fields, |p.fields| - 1);
      SpaceInField(d, p.fields[|p.fields| - 1]);
    }
    assert ' ' in Terminated(lines, |lines|);
    TrimKeeps(Terminated(lines, |lines|));
  }

  lemma SpaceInConstant(c: Constant)
    ensures ' ' in DigestLine(c)
  {
    assert DigestLine(c)[|c.typ|] == ' ';
  }

  lemma SpaceInField(d: Defs, f: Field)
    requires AcyclicDefs(d) && (f.pkg != "" ==> Defined(d, StaticRef(f)))
    ensures ' ' in FieldDigestLine(d, f)
  {
    hide AcyclicDefs, Defined, Digest, Suffix;
    if f.pkg == "" {
      assert FieldDigestLine(d, f)[|f.typ + Suffix(f)|] == ' ';
    } else {
      assert FieldDigestLine(d, f)[|Digest(d, StaticRef(f))|] == ' ';
    }
  }

  lemma {:induction false} TrimKeeps(s: string)
    requires ' ' in s
    ensures TrimNewlines(s) != ""
    decreases |s|
  {
    if s[0] == '\n' {
      assert s == [s[0]] + s[1..];
      TrimKeeps(s[1..]);
    } else if s[|s| - 1] == '\n' {
      assert s == s[..|s| - 1] + [s[|s| - 1]];
      TrimKeeps(s[..|s| - 1]);
    }
  }

  /** So every definition that refers to a missing one has the digest of the empty text. */
  lemma MissingReferenceErasesDigest(d: Defs, name: string)
    requires AcyclicDefs(d) && Defined(d, name) && !Direct(d, Body(d, name).fields)
    ensures Digest(d, name) == d.md5("")
  {
    hide AcyclicDefs, Defined, Direct, DigestText, Body;
    ErasedIff(d, Body(d, name));
  }

  /** Two files that say different things and refer to a third that is not there: `M x` and `M y` in
      package p. Their digests agree. */
  lemma ErasedExample(d: Defs, literal: Literals)
    requires forall text, package :: d.parse(text, package) == ParseText(text, package, Reader(literal))
    requires d.texts == map["p/A" := "M x", "p/B" := "M y"]
    ensures AcyclicDefs(d) && Defined(d, "p/A") && Defined(d, "p/B")
    ensures Body(d, "p/A") != Body(d, "p/B") && Digest(d, "p/A") == Digest(d, "p/B")
  {
    hide ParseText, Digest, Defined, Body;
    assert "p/" + "A" == "p/A" && "p/" + "B" == "p/B" && "M " + "x" == "M x" && "M " + "y" == "M y";
    ExampleDefined(d, "A", "x", literal);
    ExampleDefined(d, "B", "y", literal);
    assert "p/A"[2] == 'A' && "p/B"[2] == 'B' && "p/M"[2] == 'M';
    ExampleMissing(d, "p/A", "x");
    ExampleMissing(d, "p/B", "y");
    assert forall n | Defined(d, n) :: n == "p/A" || n == "p/B" by { DefinedHasText(d); }
    assert Body(d, "p/A").fields[0].name[0] == 'x' && Body(d, "p/B").fields[0].name[0] == 'y';
    MissingReferenceErasesDigest(d, "p/A");
    MissingReferenceErasesDigest(d, "p/B");
  }

  lemma DefinedHasText(d: Defs)
    ensures forall n | Defined(d, n) :: n in d.texts
  {
  }

  lemma ExampleMissing(d: Defs, file: string, name: string)
    requires Defined(d, file) && Body(d, file) == Parsed([Field("p", "M", name, false, 0)], [])
    requires "p/M" !in d.texts
    ensures !Direct(d, Body(d, file).fields)
    ensures forall f <- Body(d, file).fields :: !Defined(d, StaticRef(f))
  {
    hide Body;
    var f := Field("p", "M", name, false, 0);
    assert StaticRef(f) == "p" + "/" + "M" == "p/M";
    assert f in Body(d, file).fields;
  }

  lemma ExampleDefined(d: Defs, short: string, name: string, literal: Literals)
    requires forall text, package :: d.parse(text, package) == ParseText(text, package, Reader(literal))
    requires |short| == 1 && short != "/" && (name == "x" || name == "y")
    requires "p/" + short in d.texts && d.texts["p/" + short] == "M " + name
    ensures Defined(d, "p/" + short) && Body(d, "p/" + short) == Parsed([Field("p", "M", name, false, 0)], [])
  {
    hide ParseText, PackageResourceName;
    ExampleName(short);
    ExampleLine(name, literal);
  }

  lemma ExampleName(short: string)
    requires |short| == 1 && short != "/"
    ensures PackageResourceName("p/" + short) == Some(("p", short))
  {
    BeforeMark("p", '/', short);
    assert "p/" + short == "p" + ['/'] + short;
    assert ("p/" + short)[2..] == short && ("p/" + short)[..1] == "p";
  }

  lemma ExampleLine(name: string, literal: Literals)
    requires name == "x" || name == "y"
    ensures ParseText("M " + name, "p", Reader(literal)) == Some(Parsed([Field("p", "M", name, false, 0)], []))
  {
    hide LoadFieldLine, LoadConstantLine, StripComment, BuiltinOf;
    var f := Field("p", "M", name, false, 0);
    assert FieldString(f) == "M " + name;
    assert f.Shaped() && BuiltinOf("M").None? by { MIsAMessage(); }
    MessageFieldRoundTripIff(f, "p");
    LineSplits(f);
    OneLine(FieldString(f));
    var lines := [FieldString(f)];
    var constantLine := Reader(literal);
    assert ParseLine(lines[0], "p", constantLine) == FieldItem(f);
    assert ParseLines(lines, 0, "p", constantLine) == Some(Parsed([], []));
    assert ParseLines(lines, 1, "p", constantLine) == Some(Parsed([] + [f], [])) && [] + [f] == [f];
  }

  lemma MIsAMessage()
    ensures BuiltinOf("M").None?
  {
    assert |"M"| == 1;
  }

  // ---------------------------------------------------------------- builtin fields only

  lemma PlainIsDirect(p: Parsed, literal: Literals, d: Defs)
    requires Plain(p, literal)
    ensures Direct(d, p.fields) && forall f <- p.fields :: f.pkg == ""
  {
  }

  lemma {:induction false} DigestLinesParse(d: Defs, p: Parsed, n: nat, package: string, literal: Literals)
    requires AcyclicDefs(d) && Direct(d, p.fields) && Plain(p, literal) && n <= |p.constants| + |p.fields|
    ensures var k := |p.constants|;
            ParseLines(DigestLines(d, p), n, package, Reader(literal)) ==
            Some(if n <= k then Parsed([], p.constants[..n]) else Parsed(p.fields[..n - k], p.constants))
  {
    hide AcyclicDefs, Direct, DigestLines, ParseLine, PlainConstant, PlainField, DigestLine, FieldString, Reader;
    PlainIsDirect(p, literal, d);
    var k := |p.constants|;
    if n == 0 {
    } else if n <= k {
      DigestLinesParse(d, p, n - 1, package, literal);
      ConstantLineReads(p.constants[n - 1], package, literal);
      assert p.constants[..n] == p.constants[..n - 1] + [p.constants[n - 1]];
    } else {
      DigestLinesParse(d, p, n - 1, package, literal);
      FieldLineReads(p.fields[n - k - 1], package, Reader(literal));
      assert p.fields[..n - k] == p.fields[..n - k - 1] + [p.fields[n - k - 1]];
      assert p.constants[..k] == p.constants;
    }
  }

  lemma DigestLinesPlain(d: Defs, p: Parsed, literal: Literals)
    requires AcyclicDefs(d) && Direct(d, p.fields) && Plain(p, literal)
    ensures forall l <- DigestLines(d, p) :: l != "" && '\n' !in l
  {
    hide AcyclicDefs, Direct, DigestLines, PlainConstant, PlainField, DigestLine, FieldString, ParseLine;
    PlainIsDirect(p, literal, d);
    var lines, k := DigestLines(d, p), |p.constants|;
    forall i | 0 <= i < |lines|
      ensures lines[i] != "" && '\n' !in lines[i]
    {
      if i < k {
        ConstantLineReads(p.constants[i], "", literal);
      } else {
        assert lines[k + (i - k)] == FieldDigestLine(d, p.fields[i - k]);
        NoNewlineInField(p.fields[i - k]);
      }
    }
  }

  /** The digest text of a definition of builtin fields, read as a message text, gives the definition. */
  lemma DigestTextParses(d: Defs, p: Parsed, package: string, literal: Literals)
    requires AcyclicDefs(d) && Plain(p, literal)
    ensures ParseText(DigestText(d, p), package, Reader(literal)) == Some(p)
  {
    hide AcyclicDefs, Direct, ParseLine, Lines, DigestLines, Terminated, TrimNewlines, Reader, DigestText;
    PlainIsDirect(p, literal, d);
    DigestTextIs(d, p);
    DigestLinesPlain(d, p, literal);
    var n := |p.constants| + |p.fields|;
    if n == 0 {
      EmptyText(DigestLines(d, p), p, package, literal);
    } else {
      TrimmedLines(DigestLines(d, p));
      DigestLinesParse(d, p, n, package, literal);
      assert p.fields[..|p.fields|] == p.fields && p.constants[..|p.constants|] == p.constants;
    }
  }

  lemma EmptyText(lines: seq<string>, p: Parsed, package: string, literal: Literals)
    requires p.fields == [] && p.constants == []
    ensures ParseText(TrimNewlines(Terminated(lines, 0)), package, Reader(literal)) == Some(p)
  {
    hide LoadConstantLine, LoadFieldLine;
    OneLine("");
    var empty: seq<string> := [""];
    assert StripComment("") == "";
    assert ParseLines(empty, 0, package, Reader(literal)) == Some(p);
    assert ParseLines(empty, 1, package, Reader(literal)) == Some(p);
  }

  /** So two definitions of builtin fields have the same digest text exactly when they declare the same
      fields and constants, in the same order; comments and spacing do not count. */
  lemma DigestTextIdentifies(d: Defs, p: Parsed, q: Parsed, literal: Literals)
    requires AcyclicDefs(d) && Plain(p, literal) && Plain(q, literal)
    ensures DigestText(d, p) == DigestText(d, q) <==> p == q
  {
    hide AcyclicDefs, ParseText, DigestText, Plain, Reader;
    DigestTextParses(d, p, "", literal);
    DigestTextParses(d, q, "", literal);
  }

  // ---------------------------------------------------------------- every text gives plain constants

  lemma AssignUses(typ: string, keyValue: string, literal: Literals)
    requires Assign(typ, keyValue, literal).Some?
    ensures var c := Assign(typ, keyValue, literal).value;
            && c.typ == typ && Index(keyValue, '=') >= 0
            && (forall x <- c.name :: x in keyValue)
            && (forall x <- c.name :: x in keyValue[..Index(keyValue, '=')])
            && (forall x <- c.valueText :: x in keyValue)
  {
    hide TrimSpace, TrimLeft, Lead;
    var eq := Index(keyValue, '=');
    var text := keyValue[eq + 1..];
    TrimSpaceTrims(keyValue[..eq]);
    TrimSpaceTrims(text);
    assert forall x <- text :: x in keyValue;
    assert TrimLeft(text) == text[Lead(text)..];
  }

  lemma ConstantLineIsPlain(line: string, package: string, literal: Literals)
    requires '\n' !in line && ParseLine(line, package, Reader(literal)).ConstantItem?
    ensures PlainConstant(ParseLine(line, package, Reader(literal)).c, literal)
  {
    hide StripComment, ConstantType, Settled, Assign, TrimSpace, SpaceIndex;
    AcceptedSettled(line, literal);
    CleanIsPart(line);
    var clean := StripComment(line);
    var sep := SpaceIndex(clean);
    assert forall x <- clean :: x in line;
    if clean[..sep] == "string" {
      StringNameIsPlain(line, literal);
    } else {
      LiteralIsPlain(line, literal);
    }
  }

  lemma CleanChars(line: string)
    ensures forall x <- StripComment(line) :: x in line && x != '#'
  {
    hide StripComment, Before, Lead;
    CleanIsPart(line);
    var b, clean := Before(line, '#'), StripComment(line);
    assert forall j | 0 <= j < |clean| :: clean[j] == b[Lead(b) + j] && clean[j] in b;
  }

  lemma LiteralIsPlain(line: string, literal: Literals)
    requires '\n' !in line && LoadConstantLine(line, literal).Some?
    requires var clean := StripComment(line); clean[..SpaceIndex(clean)] != "string"
    ensures var c := LoadConstantLine(line, literal).value; '#' !in c.name && '\n' !in DigestLine(c)
  {
    hide StripComment, ConstantType, Assign, TrimSpace, SpaceIndex, Lead, Index;
    var clean := StripComment(line);
    var sep := SpaceIndex(clean);
    var keyValue := TrimSpace(clean[sep..]);
    CleanChars(line);
    TrimSpaceTrims(clean[sep..]);
    assert forall x <- keyValue :: x in clean[sep..] && x in clean;
    AssignUses(clean[..sep], keyValue, literal);
    assert forall x <- clean[..sep] :: x in clean;
  }

  lemma EqualsAfterType(clean: string) returns (j: nat)
    requires SpaceIndex(clean) >= 0 && clean[..SpaceIndex(clean)] == "string" && '=' in clean
    ensures SpaceIndex(clean) < j < |clean| && clean[j] == '='
  {
    hide SpaceIndex;
    var k := SpaceIndex(clean);
    j :| 0 <= j < |clean| && clean[j] == '=';
    assert '=' !in "string";
    assert forall i | 0 <= i < k :: clean[i] == clean[..k][i];
  }

  lemma IndexAtMost(s: string, c: char, n: nat)
    requires n < |s| && s[n] == c
    ensures 0 <= Index(s, c) <= n
  {
  }

  /** A string constant's '=' stands before any comment. */
  lemma FirstSpaceAtMost(s: string, k: nat)
    requires k < |s| && IsSpace(s[k])
    ensures 0 <= SpaceIndex(s) <= k
  {
    hide SpaceIndex;
  }

  lemma IndexFrom(s: string, sep: nat, c: char, n: nat)
    requires sep <= n < |s| && s[n] == c
    ensures 0 <= Index(s[sep..], c) <= n - sep
  {
    hide Index;
    IndexAtMost(s[sep..], c, n - sep);
  }

  lemma EqualsPlaced(line: string, j: nat)
    requires var clean := StripComment(line); 0 <= SpaceIndex(clean) < j < |clean| && clean[j] == '='
    ensures SpaceIndex(line) >= 0
    ensures SpaceIndex(line) + Index(line[SpaceIndex(line)..], '=') < |Before(line, '#')|
  {
    hide StripComment, SpaceIndex, Before, Lead, Index;
    var k, p := SpaceIndex(StripComment(line)), Lead(Before(line, '#'));
    CleanAt(line, k);
    CleanAt(line, j);
    FirstSpaceAtMost(line, p + k);
    IndexFrom(line, SpaceIndex(line), '=', p + j);
  }

  lemma CleanAt(line: string, j: nat)
    requires j < |StripComment(line)|
    ensures var p := Lead(Before(line, '#')); p + j < |Before(line, '#')| && line[p + j] == StripComment(line)[j]
  {
    hide StripComment, Before, Lead;
    CleanIsPart(line);
  }

  lemma StringNameIsPlain(line: string, literal: Literals)
    requires '\n' !in line && LoadConstantLine(line, literal).Some?
    requires var clean := StripComment(line); clean[..SpaceIndex(clean)] == "string" && '=' in clean
    ensures var c := LoadConstantLine(line, literal).value; '#' !in c.name && '\n' !in DigestLine(c)
  {
    hide StripComment, ConstantType, Assign, TrimSpace, SpaceIndex, Before, Lead, Index;
    var j := EqualsAfterType(StripComment(line));
    EqualsPlaced(line, j);
    var sep := SpaceIndex(line);
    var b, keyValue := Before(line, '#'), line[sep..];
    AssignUses("string", keyValue, literal);
    var key := keyValue[..Index(keyValue, '=')];
    assert forall i | 0 <= i < |key| :: key[i] == b[sep + i] && key[i] in b;
    assert forall x <- keyValue :: x in line;
  }

  lemma LinesHaveNoNewline(text: string)
    ensures forall l <- Lines(text) :: '\n' !in l
    decreases |text|
  {
    var i := Index(text, '\n');
    if i >= 0 {
      LinesHaveNoNewline(text[i + 1..]);
    }
  }

  lemma {:induction false} ParsedConstantsPlain(lines: seq<string>, i: nat, package: string, literal: Literals)
    requires i <= |lines| && (forall l <- lines :: '\n' !in l) && ParseLines(lines, i, package, Reader(literal)).Some?
    ensures forall c <- ParseLines(lines, i, package, Reader(literal)).value.constants :: PlainConstant(c, literal)
  {
    hide ParseLine, PlainConstant, Reader;
    if i > 0 {
      ParsedConstantsPlain(lines, i - 1, package, literal);
      if ParseLine(lines[i - 1], package, Reader(literal)).ConstantItem? {
        ConstantLineIsPlain(lines[i - 1], package, literal);
      }
    }
  }

  /** Whatever text was parsed: if its fields are builtin, what came out is plain. */
  lemma ParsedIsPlain(text: string, package: string, literal: Literals)
    requires ParseText(text, package, Reader(literal)).Some?
    requires forall f <- ParseText(text, package, Reader(literal)).value.fields :: f.IsBuiltin() && f.pkg == ""
    ensures Plain(ParseText(text, package, Reader(literal)).value, literal)
  {
    hide ParseLines, Lines, LegalName, Field.Shaped, Field.IsBuiltin, PlainConstant, Reader;
    LinesHaveNoNewline(text);
    ParsedConstantsPlain(Lines(text), |Lines(text)|, package, literal);
    ParsedFieldsShaped(Lines(text), |Lines(text)|, package, Reader(literal));
  }
}
