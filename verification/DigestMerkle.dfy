/** Digests as fingerprints: as long as MD5 does not collide on the definitions at hand, two definitions
    have one digest exactly when they are built alike, down to the builtin fields of whatever they
    refer to. */
module DigestMerkle {
  import opened Basics
  import opened Schema
  import opened FieldText
  import opened ConstantText
  import opened MsgText
  import opened Registry
  import opened DigestFaithful
  import LoadedContext

  predicate HexDigit(c: char)
  {
    '0' <= c <= '9' || 'a' <= c <= 'f'
  }

  /** hex.EncodeToString of sixteen bytes. */
  predicate Hex(s: string)
  {
    |s| == 32 && forall c <- s :: HexDigit(c)
  }

  ghost predicate CollisionFree(d: Defs)
    requires AcyclicDefs(d)
  {
    && (forall t :: Hex(d.md5(t)))
    && (forall a, b | Defined(d, a) && Defined(d, b) && Digest(d, a) == Digest(d, b) ::
          DigestText(d, Body(d, a)) == DigestText(d, Body(d, b)))
  }

  /** Nothing is missing at any depth, and constants and fields are as lines of a text give them. */
  predicate Served(d: Defs, p: Parsed, literal: Literals)
    requires AcyclicDefs(d)
    decreases Bound(d, p.fields), 0
  {
    && (forall c <- p.constants :: PlainConstant(c, literal))
    && forall i | 0 <= i < |p.fields| :: (FieldBelowBound(d, p.fields, i); ServedField(d, p.fields[i], literal))
  }

  predicate ServedField(d: Defs, f: Field, literal: Literals)
    requires AcyclicDefs(d)
    decreases FieldRank(d, f), 1
  {
    if f.pkg == "" then PlainField(f)
    else
      && LegalName(f.name) && Defined(d, StaticRef(f))
      && (BodyBelowRank(d, StaticRef(f)); Served(d, Body(d, StaticRef(f)), literal))
  }

  /** The same constants and, in the same order, the same builtin fields and fields of the same names
      whose types are built alike. Neither the names of those types nor array brackets on them count. */
  predicate Alike(d: Defs, p: Parsed, q: Parsed)
    requires AcyclicDefs(d)
    decreases Bound(d, p.fields), 0
  {
    && p.constants == q.constants && |p.fields| == |q.fields|
    && forall i | 0 <= i < |p.fields| :: (FieldBelowBound(d, p.fields, i); AlikeField(d, p.fields[i], q.fields[i]))
  }

  predicate AlikeField(d: Defs, f: Field, g: Field)
    requires AcyclicDefs(d)
    decreases FieldRank(d, f), 1
  {
    if f.pkg == "" || g.pkg == "" then f == g
    else
      && f.name == g.name && Defined(d, StaticRef(f)) && Defined(d, StaticRef(g))
      && (BodyBelowRank(d, StaticRef(f)); Alike(d, Body(d, StaticRef(f)), Body(d, StaticRef(g))))
  }

  /** Two definitions have one digest exactly when they are built alike. */
  lemma DigestsAgreeIff(d: Defs, a: string, b: string, literal: Literals)
    requires AcyclicDefs(d) && CollisionFree(d) && Defined(d, a) && Defined(d, b)
    requires Served(d, Body(d, a), literal) && Served(d, Body(d, b), literal)
    ensures Digest(d, a) == Digest(d, b) <==> Alike(d, Body(d, a), Body(d, b))
  {
    hide AcyclicDefs, Defined, Body, Served, Alike, DigestText, Hex;
    TextsAgreeIff(d, Body(d, a), Body(d, b), literal);
  }

  /** In a complete set of message files every definition is served. */
  lemma {:induction false} CompleteIsServed(d: Defs, name: string, literal: Literals)
    requires LoadedContext.Complete(d) && Defined(d, name)
    requires forall text, package :: d.parse(text, package) == ParseText(text, package, Reader(literal))
    ensures Served(d, Body(d, name), literal)
    decreases Rank(d, name)
  {
    hide AcyclicDefs, PlainConstant, ServedField, Bound, ParseText, LegalName, PackageResourceName;
    var p := Body(d, name);
    BodyIsPlain(d, name, literal);
    forall i | 0 <= i < |p.fields|
      ensures ServedField(d, p.fields[i], literal)
    {
      FieldBelowBound(d, p.fields, i);
      BodyBelowRank(d, name);
      CompleteField(d, name, p.fields[i]);
      if p.fields[i].pkg != "" {
        CompleteIsServed(d, StaticRef(p.fields[i]), literal);
      }
      ServedFieldFrom(d, p.fields[i], literal);
    }
    ServedFrom(d, p, literal);
  }

  lemma CompleteField(d: Defs, name: string, f: Field)
    requires LoadedContext.Complete(d) && Defined(d, name) && f in Body(d, name).fields
    ensures (f.pkg == "" <==> f.IsBuiltin()) && (f.pkg != "" ==> Defined(d, StaticRef(f)))
  {
    hide AcyclicDefs, Defined, Body, BuiltinOf;
  }

  lemma BodyIsPlain(d: Defs, name: string, literal: Literals)
    requires Defined(d, name)
    requires forall text, package :: d.parse(text, package) == ParseText(text, package, Reader(literal))
    ensures forall c <- Body(d, name).constants :: PlainConstant(c, literal)
    ensures forall f <- Body(d, name).fields :: f.Shaped() && LegalName(f.name)
  {
    hide ParseLines, Lines, PlainConstant, LegalName, PackageResourceName, Field.Shaped, Reader;
    var text, package := d.texts[name], PackageResourceName(name).value.0;
    DefinitionsAreShaped(d, Reader(literal), name);
    LinesHaveNoNewline(text);
    ParsedConstantsPlain(Lines(text), |Lines(text)|, package, literal);
  }

  lemma ServedFieldFrom(d: Defs, f: Field, literal: Literals)
    requires AcyclicDefs(d) && f.Shaped() && LegalName(f.name)
    requires if f.pkg == "" then f.IsBuiltin()
             else Defined(d, StaticRef(f)) && Served(d, Body(d, StaticRef(f)), literal)
    ensures ServedField(d, f, literal)
  {
    hide AcyclicDefs, LegalName, BuiltinOf, Served, Defined, Body;
  }

  lemma ServedFrom(d: Defs, p: Parsed, literal: Literals)
    requires AcyclicDefs(d) && (forall c <- p.constants :: PlainConstant(c, literal))
    requires forall i | 0 <= i < |p.fields| :: ServedField(d, p.fields[i], literal)
    ensures Served(d, p, literal)
  {
    hide AcyclicDefs, PlainConstant, ServedField, Bound;
  }

  /** So the digests of a complete set of message files tell apart everything but what Alike leaves out. */
  lemma CompleteDigestsAgreeIff(d: Defs, a: string, b: string, literal: Literals)
    requires LoadedContext.Complete(d) && CollisionFree(d) && Defined(d, a) && Defined(d, b)
    requires forall text, package :: d.parse(text, package) == ParseText(text, package, Reader(literal))
    ensures Digest(d, a) == Digest(d, b) <==> Alike(d, Body(d, a), Body(d, b))
  {
    hide AcyclicDefs, Defined, Body, Served, Alike, Digest, CollisionFree, ParseText;
    CompleteIsServed(d, a, literal);
    CompleteIsServed(d, b, literal);
    DigestsAgreeIff(d, a, b, literal);
  }

  lemma {:induction false} TextsAgreeIff(d: Defs, p: Parsed, q: Parsed, literal: Literals)
    requires AcyclicDefs(d) && CollisionFree(d) && Served(d, p, literal) && Served(d, q, literal)
    ensures DigestText(d, p) == DigestText(d, q) <==> Alike(d, p, q)
    decreases Bound(d, p.fields), 0
  {
    hide AcyclicDefs, CollisionFree, Served, Alike, DigestText, DigestLines, Direct, Bound;
    ServedIsDirect(d, p, literal);
    ServedIsDirect(d, q, literal);
    TextsAreLines(d, p, q, literal);
    if DigestLines(d, p) == DigestLines(d, q) {
      SameConstants(d, p, q, literal);
      forall i | 0 <= i < |p.fields|
        ensures AlikeField(d, p.fields[i], q.fields[i])
      {
        FieldsAgreeIff(d, p, q, i, literal);
      }
      AlikeFromFields(d, p, q);
    }
    if Alike(d, p, q) {
      AlikeToFields(d, p, q);
      forall i | 0 <= i < |p.fields|
        ensures FieldDigestLine(d, p.fields[i]) == FieldDigestLine(d, q.fields[i])
      {
        FieldsAgreeIff(d, p, q, i, literal);
      }
      SameLines(d, p, q);
    }
  }

  /** One pair of fields: their lines agree exactly when they are alike. */
  lemma {:induction false} FieldsAgreeIff(d: Defs, p: Parsed, q: Parsed, i: nat, literal: Literals)
    requires AcyclicDefs(d) && CollisionFree(d) && Served(d, p, literal) && Served(d, q, literal)
    requires Direct(d, p.fields) && Direct(d, q.fields) && i < |p.fields| && |p.fields| == |q.fields|
    ensures p.fields[i] in p.fields && q.fields[i] in q.fields
    ensures FieldDigestLine(d, p.fields[i]) == FieldDigestLine(d, q.fields[i])
            <==> AlikeField(d, p.fields[i], q.fields[i])
    decreases Bound(d, p.fields), 0, 0
  {
    hide AcyclicDefs, CollisionFree, Served, Alike, DigestText, Digest, Bound, Defined, Body, PlainField, FieldString;
    var f, g := p.fields[i], q.fields[i];
    ServedFieldOf(d, p, i, literal);
    ServedFieldOf(d, q, i, literal);
    if f.pkg == "" && g.pkg == "" {
      BuiltinLinesDiffer(f, g);
    } else if f.pkg == "" {
      DigestIsHex(d, StaticRef(g));
      MixedLinesDiffer(f, Digest(d, StaticRef(g)), g.name);
    } else if g.pkg == "" {
      DigestIsHex(d, StaticRef(f));
      MixedLinesDiffer(g, Digest(d, StaticRef(f)), f.name);
    } else {
      var a, b := StaticRef(f), StaticRef(g);
      DigestIsHex(d, a);
      DigestIsHex(d, b);
      NestedLinesIff(Digest(d, a), f.name, Digest(d, b), g.name);
      FieldBelowBound(d, p.fields, i);
      BodyBelowRank(d, a);
      TextsAgreeIff(d, Body(d, a), Body(d, b), literal);
      DigestsFromTexts(d, a, b);
    }
  }

  lemma DigestsFromTexts(d: Defs, a: string, b: string)
    requires AcyclicDefs(d) && CollisionFree(d) && Defined(d, a) && Defined(d, b)
    ensures Digest(d, a) == Digest(d, b) <==> DigestText(d, Body(d, a)) == DigestText(d, Body(d, b))
  {
    hide AcyclicDefs, Defined, Body, DigestText, Hex;
  }

  // ---------------------------------------------------------------- unfolding, one level

  lemma ServedFieldOf(d: Defs, p: Parsed, i: nat, literal: Literals)
    requires AcyclicDefs(d) && Served(d, p, literal) && i < |p.fields|
    ensures ServedField(d, p.fields[i], literal)
  {
    hide AcyclicDefs, ServedField, Bound, PlainConstant;
  }

  lemma ServedIsDirect(d: Defs, p: Parsed, literal: Literals)
    requires AcyclicDefs(d) && Served(d, p, literal)
    ensures Direct(d, p.fields) && forall c <- p.constants :: PlainConstant(c, literal)
  {
    hide AcyclicDefs, PlainConstant, Defined, Body, Bound;
    forall f <- p.fields
      ensures f.pkg != "" ==> Defined(d, StaticRef(f))
    {
      var i :| 0 <= i < |p.fields| && p.fields[i] == f;
      ServedFieldOf(d, p, i, literal);
    }
  }

  lemma AlikeFromFields(d: Defs, p: Parsed, q: Parsed)
    requires AcyclicDefs(d) && p.constants == q.constants && |p.fields| == |q.fields|
    requires forall i | 0 <= i < |p.fields| :: AlikeField(d, p.fields[i], q.fields[i])
    ensures Alike(d, p, q)
  {
    hide AcyclicDefs, AlikeField, Bound;
  }

  lemma AlikeToFields(d: Defs, p: Parsed, q: Parsed)
    requires AcyclicDefs(d) && Alike(d, p, q)
    ensures p.constants == q.constants && |p.fields| == |q.fields|
    ensures forall i | 0 <= i < |p.fields| :: AlikeField(d, p.fields[i], q.fields[i])
  {
    hide AcyclicDefs, AlikeField, Bound;
  }

  lemma DigestIsHex(d: Defs, name: string)
    requires AcyclicDefs(d) && CollisionFree(d) && Defined(d, name)
    ensures Hex(Digest(d, name))
  {
    hide AcyclicDefs, Defined, DigestText, Hex;
  }

  // ---------------------------------------------------------------- lines

  lemma HexIsPlain(s: string)
    requires Hex(s)
    ensures forall c <- s :: c != ' ' && c != '\n' && c != '=' && c != '['
  {
  }

  lemma LegalHoldsNo(s: string)
    requires LegalName(s)
    ensures '=' !in s && '\n' !in s && ' ' !in s
  {
  }

  lemma BuiltinLinesDiffer(f: Field, g: Field)
    requires PlainField(f) && PlainField(g)
    ensures FieldString(f) == FieldString(g) <==> f == g
  {
    hide PlainField, FieldString;
    assert LoadFieldLine(FieldString(f), "") == Some(f) by { PlainReads(f); }
    assert LoadFieldLine(FieldString(g), "") == Some(g) by { PlainReads(g); }
  }

  lemma PlainReads(f: Field)
    requires PlainField(f)
    ensures LoadFieldLine(FieldString(f), "") == Some(f)
  {
    hide LoadFieldLine, FieldString, BuiltinOf, LegalName;
    BuiltinFieldRoundTrip(f, "");
  }

  /** A digest is no builtin type: it is too long. */
  lemma MixedLinesDiffer(f: Field, hex: string, name: string)
    requires PlainField(f) && Hex(hex)
    ensures FieldString(f) != hex + " " + name
  {
    hide LegalName, Suffix, Index, TrimSpace, StripComment, BuiltinOf;
    BuiltinNamesAreLegal(f.typ);
    LineSplits(f);
    HexIsPlain(hex);
    BeforeMark(hex, ' ', name);
    assert hex + [' '] + name == hex + " " + name;
    TypeIsNotHex(f, hex);
    var t := f.typ + Suffix(f);
    assert FieldString(f)[..|t|] == t && (hex + " " + name)[..32] == hex;
  }

  lemma TypeIsNotHex(f: Field, hex: string)
    requires BuiltinOf(f.typ).Some? && Hex(hex)
    ensures f.typ + Suffix(f) != hex
  {
    hide BuiltinOf;
    HexIsPlain(hex);
    BuiltinsAreShort(f.typ);
    SuffixStarts(f);
    var t := f.typ + Suffix(f);
    if Suffix(f) != "" {
      assert t[|f.typ|] in t;
    }
  }

  lemma SuffixStarts(f: Field)
    ensures Suffix(f) != "" ==> Suffix(f)[0] == '[' && (f.typ + Suffix(f))[|f.typ|] == '['
  {
  }

  lemma BuiltinsAreShort(typ: string)
    requires BuiltinOf(typ).Some?
    ensures |typ| <= 8
  {
  }

  lemma NestedLinesIff(a: string, x: string, b: string, y: string)
    requires |a| == |b|
    ensures a + " " + x == b + " " + y <==> a == b && x == y
  {
    var s, t := a + " " + x, b + " " + y;
    assert s[..|a|] == a && t[..|b|] == b && s[|a| + 1..] == x && t[|b| + 1..] == y;
  }

  lemma ConstantLineShows(c: Constant, literal: Literals)
    requires PlainConstant(c, literal)
    ensures '=' in DigestLine(c) && DigestLine(c) != "" && '\n' !in DigestLine(c)
  {
    hide Settled;
    assert DigestLine(c)[|c.typ| + 1 + |c.name|] == '=';
  }

  lemma FieldLineShows(d: Defs, f: Field, literal: Literals)
    requires AcyclicDefs(d) && CollisionFree(d) && ServedField(d, f, literal)
    ensures f.pkg != "" ==> Defined(d, StaticRef(f))
    ensures var l := FieldDigestLine(d, f); '=' !in l && l != "" && '\n' !in l
  {
    hide AcyclicDefs, CollisionFree, Served, Digest, LegalName, PlainField, Body, FieldString, Defined;
    if f.pkg == "" {
      PlainLineShows(f);
    } else {
      DigestIsHex(d, StaticRef(f));
      HexIsPlain(Digest(d, StaticRef(f)));
      LegalHoldsNo(f.name);
    }
  }

  lemma PlainLineShows(f: Field)
    requires PlainField(f)
    ensures '=' !in FieldString(f) && FieldString(f) != "" && '\n' !in FieldString(f)
  {
    hide LegalName, Suffix, BuiltinOf;
    NoNewlineInField(f);
    BuiltinNamesAreLegal(f.typ);
    LegalHoldsNo(f.typ);
    LegalHoldsNo(f.name);
    SuffixHoldsNo(f, '=');
  }

  lemma LinesShow(d: Defs, p: Parsed, literal: Literals)
    requires AcyclicDefs(d) && CollisionFree(d) && Served(d, p, literal) && Direct(d, p.fields)
    ensures var lines := DigestLines(d, p);
            && (forall l <- lines :: l != "" && '\n' !in l)
            && (forall i | 0 <= i < |lines| :: '=' in lines[i] <==> i < |p.constants|)
  {
    hide AcyclicDefs, CollisionFree, Served, Direct, DigestLines, PlainConstant, FieldDigestLine,
         DigestLine, ServedField;
    ServedIsDirect(d, p, literal);
    var lines, k := DigestLines(d, p), |p.constants|;
    forall i | 0 <= i < |lines|
      ensures lines[i] != "" && '\n' !in lines[i] && ('=' in lines[i] <==> i < k)
    {
      if i < k {
        ConstantLineShows(p.constants[i], literal);
      } else {
        ServedFieldOf(d, p, i - k, literal);
        FieldLineShows(d, p.fields[i - k], literal);
        assert lines[k + (i - k)] == FieldDigestLine(d, p.fields[i - k]);
      }
    }
  }

  /** Equal texts are equal lists of lines. */
  lemma TextsAreLines(d: Defs, p: Parsed, q: Parsed, literal: Literals)
    requires AcyclicDefs(d) && CollisionFree(d) && Served(d, p, literal) && Served(d, q, literal)
    requires Direct(d, p.fields) && Direct(d, q.fields)
    ensures DigestText(d, p) == DigestText(d, q) <==> DigestLines(d, p) == DigestLines(d, q)
  {
    hide AcyclicDefs, CollisionFree, Served, Direct, DigestLines, DigestText, TrimNewlines, Terminated;
    DigestTextIs(d, p);
    DigestTextIs(d, q);
    LinesShow(d, p, literal);
    LinesShow(d, q, literal);
    ErasedIff(d, p);
    ErasedIff(d, q);
    if DigestLines(d, p) != [] && DigestLines(d, q) != [] {
      TrimmedLines(DigestLines(d, p));
      TrimmedLines(DigestLines(d, q));
    }
  }

  lemma SameConstants(d: Defs, p: Parsed, q: Parsed, literal: Literals)
    requires AcyclicDefs(d) && CollisionFree(d) && Served(d, p, literal) && Served(d, q, literal)
    requires Direct(d, p.fields) && Direct(d, q.fields) && DigestLines(d, p) == DigestLines(d, q)
    ensures p.constants == q.constants && |p.fields| == |q.fields|
    ensures forall i | 0 <= i < |p.fields| ::
              && p.fields[i] in p.fields && q.fields[i] in q.fields
              && FieldDigestLine(d, p.fields[i]) == FieldDigestLine(d, q.fields[i])
  {
    hide AcyclicDefs, CollisionFree, Served, DigestLines, FieldDigestLine, DigestLine, PlainConstant, Defined;
    LinesShow(d, p, literal);
    LinesShow(d, q, literal);
    ServedIsDirect(d, p, literal);
    ServedIsDirect(d, q, literal);
    var lines, k := DigestLines(d, p), |p.constants|;
    SplitAtSame(lines, k, |q.constants|);
    forall i | 0 <= i < k
      ensures p.constants[i] == q.constants[i]
    {
      assert DigestLine(p.constants[i]) == lines[i] == DigestLine(q.constants[i]);
      ConstantFromLine(p.constants[i], q.constants[i], literal);
    }
    forall i | 0 <= i < |p.fields|
      ensures p.fields[i] in p.fields && q.fields[i] in q.fields
      ensures FieldDigestLine(d, p.fields[i]) == FieldDigestLine(d, q.fields[i])
    {
      assert lines[k + i] == FieldDigestLine(d, p.fields[i]);
      assert DigestLines(d, q)[k + i] == FieldDigestLine(d, q.fields[i]);
    }
  }

  lemma SplitAtSame(lines: seq<string>, k: nat, n: nat)
    requires k <= |lines| && n <= |lines|
    requires forall i | 0 <= i < |lines| :: '=' in lines[i] <==> i < k
    requires forall i | 0 <= i < |lines| :: '=' in lines[i] <==> i < n
    ensures k == n
  {
    assert k < |lines| ==> '=' !in lines[k];
    assert n < |lines| ==> '=' !in lines[n];
  }

  lemma ConstantFromLine(c: Constant, e: Constant, literal: Literals)
    requires PlainConstant(c, literal) && PlainConstant(e, literal) && DigestLine(c) == DigestLine(e)
    ensures c == e
  {
    hide Settled, DigestLine, LoadConstantLine;
    SettledReparses(c, literal);
    SettledReparses(e, literal);
  }

  lemma SameLines(d: Defs, p: Parsed, q: Parsed)
    requires AcyclicDefs(d) && Direct(d, p.fields) && Direct(d, q.fields)
    requires p.constants == q.constants && |p.fields| == |q.fields|
    requires forall i | 0 <= i < |p.fields| ::
               && p.fields[i] in p.fields && q.fields[i] in q.fields
               && FieldDigestLine(d, p.fields[i]) == FieldDigestLine(d, q.fields[i])
    ensures DigestLines(d, p) == DigestLines(d, q)
  {
    hide AcyclicDefs, DigestLines, FieldDigestLine, DigestLine, Defined;
    var a, b, k := DigestLines(d, p), DigestLines(d, q), |p.constants|;
    forall i | 0 <= i < |a|
      ensures a[i] == b[i]
    {
      if i >= k {
        assert a[k + (i - k)] == FieldDigestLine(d, p.fields[i - k]);
        assert b[k + (i - k)] == FieldDigestLine(d, q.fields[i - k]);
      }
    }
  }
}
