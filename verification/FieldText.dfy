/** Field lines of .msg files: parsing, printing, and the array shapes the codecs rely on. */
module FieldText {
  import opened Basics
  import opened Schema

  // ---------------------------------------------------------------- characters and strings

  predicate Letter(c: char)
  {
    'A' <= c <= 'Z' || 'a' <= c <= 'z'
  }

  predicate Digit(c: char)
  {
    '0' <= c <= '9'
  }

  /** `[A-Za-z0-9_]` */
  predicate WordChar(c: char)
  {
    Letter(c) || Digit(c) || c == '_'
  }

  function TrimLeft(s: string): string
  {
    if s != "" && IsSpace(s[0]) then TrimLeft(s[1..]) else s
  }

  function TrimRight(s: string): string
  {
    if s != "" && IsSpace(s[|s| - 1]) then TrimRight(s[..|s| - 1]) else s
  }

  function TrimSpace(s: string): string
  {
    TrimRight(TrimLeft(s))
  }

  /** strings.Index of a single character. */
  function Index(s: string, c: char): (i: int)
    ensures -1 <= i < |s|
    ensures i >= 0 ==> s[i] == c
    ensures forall j | 0 <= j < (if i >= 0 then i else |s|) :: s[j] != c
  {
    if s == "" then -1
    else if s[0] == c then 0
    else
      var i := Index(s[1..], c);
      if i < 0 then -1 else i + 1
  }

  /** The part before the first `c`, or all of it. */
  function Before(s: string, c: char): (r: string)
    ensures r <= s && c !in r
  {
    var i := Index(s, c);
    if i < 0 then s else s[..i]
  }

  lemma BeforeMark(a: string, c: char, b: string)
    requires c !in a
    ensures Index(a + [c] + b, c) == |a| && Before(a + [c] + b, c) == a
  {
    var s := a + [c] + b;
    assert s[|a|] == c;
    assert forall j | 0 <= j < |a| :: s[j] == a[j];
  }

  lemma BeforeNone(a: string, c: char)
    requires c !in a
    ensures Index(a, c) == -1 && Before(a, c) == a
  {
  }

  lemma TrimNothing(s: string)
    requires s != "" && !IsSpace(s[0]) && !IsSpace(s[|s| - 1])
    ensures TrimSpace(s) == s
  {
  }

  /** Spaces in front change nothing. */
  lemma {:induction false} TrimSpaceIgnores(w: string, s: string)
    requires forall c <- w :: IsSpace(c)
    ensures TrimLeft(w + s) == TrimLeft(s) && TrimSpace(w + s) == TrimSpace(s)
  {
    if w == "" {
      assert w + s == s;
    } else {
      assert (w + s)[1..] == w[1..] + s;
      TrimSpaceIgnores(w[1..], s);
    }
  }

  /** Nor do spaces behind. */
  lemma {:induction false} TrimRightIgnores(s: string, w: string)
    requires forall c <- w :: IsSpace(c)
    ensures TrimRight(s + w) == TrimRight(s)
    decreases |w|
  {
    if w == "" {
      assert s + w == s;
    } else {
      var init := w[..|w| - 1];
      assert (s + w)[..|s + w| - 1] == s + init;
      TrimRightIgnores(s, init);
    }
  }

  predicate Spaces(w: string)
  {
    forall c <- w :: IsSpace(c)
  }

  /** Text that starts and ends with something is what is left when the spaces around it go. */
  lemma TrimAround(w: string, s: string, v: string)
    requires Spaces(w) && Spaces(v) && s != "" && !IsSpace(s[0]) && !IsSpace(s[|s| - 1])
    ensures TrimSpace(w + s + v) == s
  {
    assert w + s + v == w + (s + v);
    TrimSpaceIgnores(w, s + v);
    assert (s + v)[0] == s[0];
    TrimRightIgnores(s, v);
  }

  // ---------------------------------------------------------------- numbers

  function DigitChar(d: nat): (c: char)
    requires d < 10
    ensures Digit(c)
  {
    (d + '0' as int) as char
  }

  /** strconv.Itoa on naturals. */
  function Itoa(n: nat): (s: string)
    ensures s != "" && forall c <- s :: Digit(c)
  {
    if n < 10 then [DigitChar(n)] else Itoa(n / 10) + [DigitChar(n % 10)]
  }

  function ParseDigits(s: string): Option<nat>
  {
    if s == "" then Some(0)
    else
      var c := s[|s| - 1];
      match ParseDigits(s[..|s| - 1])
      case None => None
      case Some(n) => if Digit(c) then Some(10 * n + (c as int - '0' as int)) else None
  }

  /** strconv.ParseInt(s, 10, 32). */
  function ParseInt32(s: string): Option<int>
  {
    var signed := s != "" && (s[0] == '-' || s[0] == '+');
    var digits := if signed then s[1..] else s;
    if digits == "" then None
    else
      match ParseDigits(digits)
      case None => None
      case Some(n) =>
        var v: int := if signed && s[0] == '-' then -(n as int) else n;
        if -0x8000_0000 <= v < 0x8000_0000 then Some(v) else None
  }

  lemma {:induction false} ItoaParses(n: nat)
    ensures ParseDigits(Itoa(n)) == Some(n)
  {
    var s := Itoa(n);
    if n < 10 {
      assert s[..|s| - 1] == "";
    } else {
      ItoaParses(n / 10);
      assert s[..|s| - 1] == Itoa(n / 10);
    }
  }

  // ---------------------------------------------------------------- names and types

  /** isLegalResourceBaseName: the field-name test and the test on the base of a type. */
  predicate LegalName(s: string)
  {
    && s != "" && Letter(s[0])
    && (forall c <- s :: WordChar(c) || c == '/')
    && (forall i | 0 <= i < |s| - 1 :: !(s[i] == '/' && s[i + 1] == '/'))
  }

  /** The scan of isValidMsgType over what follows the base type; `inside` is state 1. */
  predicate BracketsClose(s: string, inside: bool)
  {
    if s == "" then !inside
    else if !inside then s[0] == '[' && BracketsClose(s[1..], true)
    else if s[0] == ']' then BracketsClose(s[1..], false)
    else Digit(s[0]) && BracketsClose(s[1..], true)
  }

  predicate ValidType(t: string)
  {
    var base := Before(t, '[');
    t == TrimSpace(t) && LegalName(base) && BracketsClose(t[|base|..], false)
  }

  /** splitType: the first two components; a third is ignored. */
  function SplitType(t: string): (string, string)
  {
    var i := Index(t, '/');
    if i < 0 then ("", t) else (t[..i], Before(t[i + 1..], '/'))
  }

  /** parseType, after the package has been put in front: package, base, array-ness and length. */
  function ParseType(t: string): Option<(string, string, bool, int)>
  {
    var i := Index(t, '[');
    if i < 0 then
      var p := SplitType(t);
      Some((p.0, p.1, false, 0))
    else if t[|t| - 1] != ']' then None
    else
      var p := SplitType(t[..i]);
      var rest := t[i..];
      if rest == "[]" then Some((p.0, p.1, true, -1))
      else if |rest| < 2 then None
      else
        match ParseInt32(rest[1..|rest| - 1])
        case None => None
        case Some(n) => Some((p.0, p.1, true, n))
  }

  // ---------------------------------------------------------------- lines

  function StripComment(line: string): string
  {
    TrimSpace(Before(line, '#'))
  }

  /** The type as it will be parsed: with its package, unless it is builtin or already has one. */
  function Qualify(fieldType: string, package: string): string
  {
    if package != "" && '/' !in fieldType then
      if fieldType == "Header" then "std_msgs/Header"
      else if BuiltinOf(Before(fieldType, '[')).None? then package + "/" + fieldType
      else fieldType
    else if fieldType == "Header" then "std_msgs/Header"
    else fieldType
  }

  function LoadFieldLine(line: string, package: string): Option<Field>
  {
    var clean := StripComment(line);
    var space := Index(clean, ' ');
    if space < 0 then None
    else
      var fieldType, name := TrimSpace(clean[..space]), TrimSpace(clean[space + 1..]);
      if !LegalName(name) || !ValidType(fieldType) then None
      else
        match ParseType(Qualify(fieldType, package))
        case None => None
        case Some(p) => Some(Field(p.0, p.1, name, p.2, p.3))
  }

  /** The part of a printed type after its name. */
  function Suffix(f: Field): string
  {
    if f.isArray && f.arrayLen > -1 then "[" + Itoa(f.arrayLen) + "]"
    else if f.isArray then "[]"
    else ""
  }

  /** Field.String */
  function FieldString(f: Field): string
  {
    f.typ + Suffix(f) + " " + f.name
  }

  // ---------------------------------------------------------------- the shape of what is accepted

  /** The text the array brackets of an accepted line hold. */
  function TypeText(line: string): string
  {
    var clean := StripComment(line);
    var space := Index(clean, ' ');
    if space < 0 then "" else TrimSpace(clean[..space])
  }

  /** Text in front of a type, itself without brackets, does not disturb the brackets. */
  lemma PrefixKeepsBrackets(prefix: string, t: string)
    requires '[' !in prefix
    ensures Index(prefix + t, '[') == if Index(t, '[') < 0 then -1 else |prefix| + Index(t, '[')
    ensures Index(t, '[') >= 0 ==> (prefix + t)[Index(prefix + t, '[')..] == t[Index(t, '[')..]
  {
    var q, i := prefix + t, Index(t, '[');
    assert forall k | 0 <= k < |t| :: q[|prefix| + k] == t[k];
    assert forall k | 0 <= k < |prefix| :: q[k] == prefix[k];
    if i >= 0 {
      assert q[|prefix| + i] == '[';
    }
  }

  lemma {:induction false} DigitsOnly(s: string, k: nat)
    requires k < |s| && !Digit(s[k])
    ensures ParseDigits(s).None?
  {
    if k < |s| - 1 {
      DigitsOnly(s[..|s| - 1], k);
    }
  }

  /** A bracket in the package swallows the slash after it, and no length holds a slash. */
  lemma BracketInPackage(package: string, t: string)
    requires '[' in package && t != ""
    ensures ParseType(package + "/" + t).None?
  {
    hide SplitType, ParseDigits;
    var q := package + "/" + t;
    var i, n := Index(q, '['), |package|;
    var at :| 0 <= at < n && package[at] == '[';
    assert q[at] == '[' && q[n] == '/';
    assert 0 <= i < n;
    var inside := q[i..][1..|q[i..]| - 1];
    assert inside[n - i - 1] == '/';
    DigitsOnly(inside, n - i - 1);
    if n - i - 1 > 0 {
      DigitsOnly(inside[1..], n - i - 2);
    }
  }

  lemma QualifyKeepsBrackets(t: string, package: string)
    requires t != "" && ParseType(Qualify(t, package)).Some?
    ensures var q := Qualify(t, package);
            var i, j := Index(t, '['), Index(q, '[');
            && (i < 0 <==> j < 0)
            && (i >= 0 ==> q[j..] == t[i..])
  {
    hide Index, ParseType, BuiltinOf;
    if '[' in package {
      BracketInPackage(package, t);
    } else {
      PrefixKeepsBrackets(package + "/", t);
    }
    assert package + "/" + t == (package + "/") + t;
    PrefixKeepsBrackets("std_msgs/", t);
    assert "std_msgs/Header" == "std_msgs/" + "Header";
  }

  /** Whatever the parser accepts has a length of at least -1 that fits in 31 bits, negative exactly
      for `[]` and zero for scalars; so the tests < 0, == -1 and > -1 used elsewhere agree. */
  lemma AcceptedShape(line: string, package: string)
    requires LoadFieldLine(line, package).Some?
    ensures var f := LoadFieldLine(line, package).value;
            var t := TypeText(line);
            && f.Shaped() && LegalName(f.name)
            && (f.isArray <==> '[' in t)
            && (f.arrayLen < 0 <==> t[|Before(t, '[')|..] == "[]")
            && (f.arrayLen < 0 <==> f.arrayLen == -1) && (f.arrayLen < 0 <==> !(f.arrayLen > -1))
  {
    hide StripComment, TrimSpace, LegalName, SplitType, ParseInt32, BracketsClose, Qualify, Index;
    var t := TypeText(line);
    NotEmpty(t);
    QualifyKeepsBrackets(t, package);
    var i := Index(t, '[');
    if i < 0 {
      assert t[|Before(t, '[')|..] == "";
      assert '[' !in t;
    } else {
      assert t[i] == '[';
      var rest := t[i..];
      var q := Qualify(t, package);
      assert q[|q| - 1] == q[Index(q, '[')..][|rest| - 1] == rest[|rest| - 1];
      InsideBrackets(rest);
    }
  }

  lemma NotEmpty(t: string)
    requires ValidType(t)
    ensures t != ""
  {
  }

  /** A length in closing brackets starts with a digit, so it has no sign. */
  lemma InsideBrackets(rest: string)
    requires BracketsClose(rest, false) && rest != ""
    ensures |rest| >= 2
    ensures var n := ParseInt32(rest[1..|rest| - 1]);
            n.Some? ==> 0 <= n.value < 0x8000_0000
  {
  }

  /** The package and the type a field ends up with. */
  function PackageAndType(t: string, package: string): (string, string)
  {
    var base := Before(t, '[');
    if '/' in base then SplitType(base)
    else if t == "Header" then ("std_msgs", "Header")
    else if package == "" || BuiltinOf(base).Some? then ("", base)
    else (package, base)
  }

  /** Which package and type any accepted line yields. A type without a package is taken for builtin
      exactly when it is, but for two kinds of line: a builtin type name written behind a package, and
      a message name read where there is no package. */
  lemma AcceptedPackage(line: string, package: string)
    requires '/' !in package && LoadFieldLine(line, package).Some?
    ensures var f := LoadFieldLine(line, package).value;
            var t := TypeText(line);
            var base := Before(t, '[');
            && (f.pkg, f.typ) == PackageAndType(t, package)
            && ((f.pkg == "" <==> f.IsBuiltin()) <==>
                  if '/' in base then BuiltinOf(f.typ).None?
                  else package != "" || t == "Header" || BuiltinOf(base).Some?)
  {
    hide StripComment, TrimSpace, ParseType, BuiltinOf, Qualify, Before, Index, BracketsClose, LegalName;
    var t := TypeText(line);
    NotEmpty(t);
    TypeParses(t, package);
    HeaderIsAMessage();
    if '/' in Before(t, '[') {
      PackageNotEmpty(Before(t, '['));
    }
  }

  lemma PackageNotEmpty(base: string)
    requires LegalName(base) && '/' in base
    ensures SplitType(base).0 != ""
  {
  }

  lemma {:induction false} BracketsHoldNoSlash(s: string, inside: bool)
    requires BracketsClose(s, inside)
    ensures '/' !in s
  {
    if s != "" {
      BracketsHoldNoSlash(s[1..], s[0] != ']');
      assert s == [s[0]] + s[1..];
    }
  }

  lemma SlashInBase(t: string)
    requires ValidType(t)
    ensures '/' in t <==> '/' in Before(t, '[')
  {
    hide Before, TrimSpace, LegalName, BracketsClose;
    var base := Before(t, '[');
    BracketsHoldNoSlash(t[|base|..], false);
    assert t == base + t[|base|..];
  }

  lemma TypeParses(t: string, package: string)
    requires ValidType(t) && '/' !in package && ParseType(Qualify(t, package)).Some?
    ensures var p := ParseType(Qualify(t, package)).value; (p.0, p.1) == PackageAndType(t, package)
  {
    hide ParseType, BuiltinOf, Index, SplitType, Before, ValidType;
    var base := Before(t, '[');
    SlashInBase(t);
    NotEmpty(t);
    if t == "Header" {
      HeaderParses();
    } else if package != "" && '/' !in t && BuiltinOf(base).None? {
      if '[' in package {
        BracketInPackage(package, t);
      }
      BaseOfParsed(package, t);
    } else {
      BaseBefore("", t);
      assert "" + t == t && "" + base == base;
      if '/' !in base {
        SplitPackage("", base);
      }
    }
  }

  lemma HeaderParses()
    ensures Before("Header", '[') == "Header" && '/' !in "Header"
    ensures var p := ParseType("std_msgs/Header"); p.Some? ==> p.value.0 == "std_msgs" && p.value.1 == "Header"
  {
    hide ParseType;
    BeforeNone("Header", '[');
    assert "std_msgs" + "/" + "Header" == "std_msgs/Header";
    BaseOfParsed("std_msgs", "Header");
  }

  lemma ParseTypeBase(q: string)
    requires ParseType(q).Some?
    ensures var p := SplitType(Before(q, '['));
            ParseType(q).value.0 == p.0 && ParseType(q).value.1 == p.1
  {
    hide ParseInt32, SplitType, Index;
  }

  lemma BaseBefore(prefix: string, t: string)
    requires '[' !in prefix
    ensures ParseType(prefix + t).Some? ==>
            var p := SplitType(prefix + Before(t, '['));
            ParseType(prefix + t).value.0 == p.0 && ParseType(prefix + t).value.1 == p.1
  {
    hide ParseType, SplitType, Index;
    PrefixKeepsBrackets(prefix, t);
    assert Before(prefix + t, '[') == prefix + Before(t, '[');
    if ParseType(prefix + t).Some? {
      ParseTypeBase(prefix + t);
    }
  }

  lemma BaseOfParsed(package: string, t: string)
    requires '[' !in package && '/' !in package && '/' !in t
    ensures ParseType(package + "/" + t).Some? ==>
            ParseType(package + "/" + t).value.0 == package && ParseType(package + "/" + t).value.1 == Before(t, '[')
  {
    hide ParseType, SplitType, Index;
    assert package + "/" + t == (package + "/") + t;
    BaseBefore(package + "/", t);
    SplitPackage(package, Before(t, '['));
    assert (package + "/") + Before(t, '[') == package + "/" + Before(t, '[');
  }

  lemma HeaderIsAMessage()
    ensures BuiltinOf("Header").None?
  {
  }

  /** isValidMsgType, with its two-state scan as a loop. */
  method IsValidMsgType(t: string) returns (ok: bool)
    ensures ok == ValidType(t)
  {
    if t != TrimSpace(t) {
      return false;
    }
    var base := Before(t, '[');
    if !LegalName(base) {
      return false;
    }
    var x := t[|base|..];
    var state := 0;
    var i := 0;
    while i < |x|
      invariant i <= |x| && (state == 0 || state == 1)
      invariant BracketsClose(x, false) == BracketsClose(x[i..], state == 1)
    {
      var c := x[i];
      assert x[i..][0] == c && x[i..][1..] == x[i + 1..];
      if state == 0 {
        if c != '[' {
          return false;
        }
        state := 1;
      } else if c == ']' {
        state := 0;
      } else if !Digit(c) {
        return false;
      }
      i := i + 1;
    }
    ok := state == 0;
  }

  // ---------------------------------------------------------------- printing and parsing back

  lemma PlainIsLegal(s: string)
    requires s != "" && Letter(s[0]) && forall c <- s :: WordChar(c)
    ensures LegalName(s) && '/' !in s
  {
  }

  lemma BuiltinNamesAreLegal(typ: string)
    requires BuiltinOf(typ).Some?
    ensures LegalName(typ) && '/' !in typ
  {
    hide LegalName;
    PlainIsLegal(typ);
  }

  lemma SuffixCloses(f: Field)
    requires f.Shaped()
    ensures BracketsClose(Suffix(f), false)
    ensures forall c <- Suffix(f) :: Digit(c) || c == '[' || c == ']'
    ensures Suffix(f) != "" ==> Suffix(f)[0] == '[' && Suffix(f)[|Suffix(f)| - 1] == ']'
  {
    if f.isArray && f.arrayLen > -1 {
      DigitsClose(Itoa(f.arrayLen));
      assert Suffix(f)[1..] == Itoa(f.arrayLen) + "]";
    }
  }

  lemma {:induction false} DigitsClose(s: string)
    requires forall c <- s :: Digit(c)
    ensures BracketsClose(s + "]", true)
  {
    if s == "" {
      assert BracketsClose("", false);
    } else {
      assert s[0] in s;
      DigitsClose(s[1..]);
      assert (s + "]")[1..] == s[1..] + "]";
    }
  }

  lemma TypeIsValid(f: Field)
    requires f.Shaped() && LegalName(f.typ)
    ensures var t := f.typ + Suffix(f);
            ValidType(t) && Before(t, '[') == f.typ && t[|f.typ|..] == Suffix(f)
  {
    hide LegalName, BracketsClose, TrimSpace, Index, Before, Suffix;
    SuffixCloses(f);
    var t := f.typ + Suffix(f);
    LegalEnds(f.typ);
    assert t[|f.typ|..] == Suffix(f);
    if Suffix(f) == "" {
      assert t == f.typ;
      BeforeNone(f.typ, '[');
    } else {
      assert t == f.typ + ['['] + Suffix(f)[1..];
      BeforeMark(f.typ, '[', Suffix(f)[1..]);
      assert t[|t| - 1] == ']';
    }
    TrimNothing(t);
  }

  /** A legal name neither starts nor ends with a space, and holds no mark of the syntax. */
  lemma LegalEnds(s: string)
    requires LegalName(s)
    ensures s != "" && !IsSpace(s[0]) && !IsSpace(s[|s| - 1])
    ensures '[' !in s && '#' !in s && ' ' !in s
  {
    assert s[|s| - 1] in s;
  }

  lemma NotInEither(a: string, b: string, c: char)
    requires c !in a && c !in b
    ensures c !in a + b
  {
  }

  lemma SuffixHoldsNo(f: Field, c: char)
    requires f.Shaped() && !Digit(c) && c != '[' && c != ']'
    ensures c !in Suffix(f)
  {
    hide Suffix, BracketsClose;
    SuffixCloses(f);
  }

  /** The line splits into the type and the name again. */
  lemma LineSplits(f: Field)
    requires f.Shaped() && LegalName(f.typ) && LegalName(f.name)
    ensures StripComment(FieldString(f)) == FieldString(f)
    ensures Index(FieldString(f), ' ') == |f.typ + Suffix(f)|
    ensures FieldString(f)[..|f.typ + Suffix(f)|] == f.typ + Suffix(f)
    ensures FieldString(f)[|f.typ + Suffix(f)| + 1..] == f.name
    ensures TrimSpace(f.typ + Suffix(f)) == f.typ + Suffix(f) && TrimSpace(f.name) == f.name
  {
    hide LegalName, BracketsClose, TrimSpace, Suffix, Index, Before;
    LegalEnds(f.typ);
    LegalEnds(f.name);
    TypeIsValid(f);
    var t := f.typ + Suffix(f);
    var line := FieldString(f);
    assert line == t + [' '] + f.name;
    SuffixHoldsNo(f, ' ');
    NotInEither(f.typ, Suffix(f), ' ');
    SuffixHoldsNo(f, '#');
    NotInEither(f.typ, Suffix(f), '#');
    NotInEither(t, " " + f.name, '#');
    assert line == t + (" " + f.name);
    BeforeNone(line, '#');
    BeforeMark(t, ' ', f.name);
    TrimNothing(line);
    TrimNothing(f.name);
  }

  lemma SuffixParses(f: Field, prefix: string)
    requires f.Shaped() && '[' !in prefix
    ensures ParseType(prefix + Suffix(f)) ==
            Some((SplitType(prefix).0, SplitType(prefix).1, f.isArray, f.arrayLen))
  {
    hide SplitType, ParseDigits, Itoa, Index, Suffix, BracketsClose;
    var t := prefix + Suffix(f);
    SuffixIs(f);
    if !f.isArray {
      assert t == prefix;
      BeforeNone(prefix, '[');
    } else {
      assert t == prefix + ['['] + Suffix(f)[1..];
      BeforeMark(prefix, '[', Suffix(f)[1..]);
      assert t[|prefix|..] == Suffix(f) && t[..|prefix|] == prefix;
      assert t[|t| - 1] == ']';
      if f.arrayLen > -1 {
        var digits := Itoa(f.arrayLen);
        ItoaParses(f.arrayLen);
        assert digits[0] in digits;
        assert Suffix(f)[1..|Suffix(f)| - 1] == digits;
      }
    }
  }

  lemma SuffixIs(f: Field)
    requires f.Shaped()
    ensures Suffix(f) == if !f.isArray then "" else if f.arrayLen < 0 then "[]" else "[" + Itoa(f.arrayLen) + "]"
  {
  }

  lemma SplitPackage(package: string, typ: string)
    requires '/' !in package && '/' !in typ
    ensures SplitType(package + "/" + typ) == (package, typ) && SplitType(typ) == ("", typ)
  {
    assert package + "/" + typ == package + ['/'] + typ;
    BeforeMark(package, '/', typ);
    BeforeNone(typ, '/');
  }

  /** A builtin field prints to a line that parses back to it, in any package. */
  lemma BuiltinFieldRoundTrip(f: Field, package: string)
    requires f.IsBuiltin() && f.pkg == "" && f.Shaped() && LegalName(f.name)
    ensures LoadFieldLine(FieldString(f), package) == Some(f)
  {
    hide LegalName, TrimSpace, Index, Suffix, SplitType, ParseType, StripComment, FieldString, BuiltinOf;
    BuiltinNamesAreLegal(f.typ);
    LineSplits(f);
    TypeIsValid(f);
    HeaderIsNotBuiltin(f);
    var t := f.typ + Suffix(f);
    assert Qualify(t, package) == t;
    LegalEnds(f.typ);
    SuffixParses(f, f.typ);
    SplitPackage("", f.typ);
  }

  lemma HeaderIsNotBuiltin(f: Field)
    requires f.IsBuiltin() && f.Shaped()
    ensures f.typ + Suffix(f) != "Header"
  {
    hide Suffix, BracketsClose;
    SuffixCloses(f);
    var t := f.typ + Suffix(f);
    assert Suffix(f) == "" ==> t == f.typ;
    assert Suffix(f) != "" ==> t[|t| - 1] == ']';
  }

  /** A field whose type is a message prints without the package; it parses back exactly in its own
      package, except that a scalar `Header` is taken for std_msgs/Header wherever it stands. */
  lemma MessageFieldRoundTripIff(f: Field, package: string)
    requires !f.IsBuiltin() && f.Shaped() && LegalName(f.name) && LegalName(f.typ) && '/' !in f.typ
    requires '/' !in f.pkg && '[' !in f.pkg && '/' !in package
    ensures LoadFieldLine(FieldString(f), package) == Some(f) <==>
            f.pkg == if f.typ == "Header" && !f.isArray then "std_msgs" else package
  {
    hide LegalName, TrimSpace, Index, Suffix, SplitType, ParseType, StripComment, FieldString, BuiltinOf,
         BracketsClose, Before;
    LineSplits(f);
    TypeIsValid(f);
    SuffixCloses(f);
    var t := f.typ + Suffix(f);
    SuffixHoldsNo(f, '/');
    NotInEither(f.typ, Suffix(f), '/');
    LegalEnds(f.typ);
    SuffixEmptyIff(f);
    assert Suffix(f) == "" ==> t == f.typ;
    assert Suffix(f) != "" ==> t[|t| - 1] == ']';
    if t == "Header" {
      assert t == f.typ && !f.isArray;
      SuffixParses(f, "std_msgs/Header");
      assert "std_msgs/Header" + Suffix(f) == "std_msgs/Header";
      SplitPackage("std_msgs", "Header");
      assert "std_msgs" + "/" + "Header" == "std_msgs/Header";
    } else if package == "" {
      SuffixParses(f, f.typ);
      SplitPackage("", f.typ);
    } else {
      var prefix := package + "/" + f.typ;
      assert Qualify(t, package) == package + "/" + t == prefix + Suffix(f);
      if '[' in package {
        BracketInPackage(package, t);
      } else {
        NotInEither(package + "/", f.typ, '[');
        SuffixParses(f, prefix);
        SplitPackage(package, f.typ);
      }
    }
  }

  /** A type behind a package is taken as it stands, in every package. */
  lemma PackagedTypeParses(pkg: string, typ: string, name: string, package: string)
    requires LegalName(pkg + "/" + typ) && '/' !in pkg && '/' !in typ && LegalName(name)
    ensures LoadFieldLine(pkg + "/" + typ + " " + name, package) == Some(Field(pkg, typ, name, false, 0))
  {
    hide LegalName, TrimSpace, Index, SplitType, ParseType, StripComment, FieldString, BuiltinOf, BracketsClose, Before;
    var t := pkg + "/" + typ;
    var f := Field("", t, name, false, 0);
    assert t[|pkg|] == '/';
    PlainLine(f);
    assert t + Suffix(f) == t;
    LineSplits(f);
    TypeIsValid(f);
    SuffixParses(f, t) by { LegalEnds(t); }
    SplitPackage(pkg, typ);
    assert Qualify(t, package) == t;
  }

  lemma PlainLine(f: Field)
    requires !f.isArray
    ensures FieldString(f) == f.typ + " " + f.name
  {
  }

  /** So a builtin behind a package is read as the builtin, but looked for as a definition, ... */
  lemma QualifiedBuiltinExample()
    ensures var f := Field("foo", "string", "x", false, 0);
            && LoadFieldLine("foo/string x", "p") == Some(f)
            && f.IsBuiltin() && StaticRef(f) == "foo/string"
  {
    hide LoadFieldLine;
    var t := "foo/string";
    assert "foo" + "/" + "string" == t && t + " " + "x" == "foo/string x";
    assert LegalName(t) by {
      assert forall i | 0 <= i < 10 && i != 3 :: Letter(t[i]);
    }
    assert "foo"[0] != '/' && "string"[0] != '/';
    PackagedTypeParses("foo", "string", "x", "p");
  }

  /** ... and a Header array keeps its package, while the interpreter reads std_msgs headers. */
  lemma HeaderExample(ctx: Context)
    ensures var f := Field("q", "Header", "h", true, -1);
            && LoadFieldLine("Header[] h", "q") == Some(f)
            && Ref(ctx, f) == "std_msgs/Header" && StaticRef(f) == "q/Header"
  {
    hide LoadFieldLine;
    var f := Field("q", "Header", "h", true, -1);
    HeaderIsAMessage();
    assert FieldString(f) == "Header[] h" by { assert Suffix(f) == "[]"; }
    MessageFieldRoundTripIff(f, "q");
  }

  lemma SuffixEmptyIff(f: Field)
    ensures Suffix(f) == "" <==> !f.isArray
  {
  }

  // ---------------------------------------------------------------- spaces and comments

  /** Numbers are decimal, and a length fits in 31 bits. */
  lemma LengthLimit(n: nat)
    ensures Itoa(120) == "120" && ParseDigits("120") == Some(120)
    ensures ParseInt32(Itoa(n)) == if n < 2_147_483_648 then Some(n) else None
  {
    hide Itoa, ParseDigits;
    DecimalExample();
    ItoaParses(120);
    ItoaParses(n);
    assert Itoa(n)[0] in Itoa(n);
  }

  lemma DecimalExample()
    ensures Itoa(120) == "120"
  {
    assert Itoa(12) == "12" && Itoa(1) == "1";
  }

  /** However a declaration is indented, spaced and commented, it reads like its type and name one space apart. */
  lemma SpacedLine(indent: string, t: string, gap: string, name: string, end: string, comment: string,
                   package: string)
    requires Spaces(indent) && Spaces(gap) && Spaces(end) && (comment == "" || comment[0] == '#')
    requires t != "" && name != "" && forall c <- t + name :: !IsSpace(c) && c != '#'
    ensures LoadFieldLine(indent + t + " " + gap + name + end + comment, package) ==
            LoadFieldLine(t + " " + name, package)
  {
    hide TrimSpace, LegalName, ValidType, ParseType, Qualify, StripComment;
    CleanLine(indent, t, gap, name, end, comment);
    CleanLine("", t, "", name, "", "");
    assert "" + t + " " + "" + name + "" + "" == t + " " + name && t + " " + "" + name == t + " " + name;
    SplitsAtSpace(t, gap, name);
    SplitsAtSpace(t, "", name);
  }

  lemma CleanLine(indent: string, t: string, gap: string, name: string, end: string, comment: string)
    requires Spaces(indent) && Spaces(gap) && Spaces(end) && (comment == "" || comment[0] == '#')
    requires t != "" && name != "" && forall c <- t + name :: !IsSpace(c) && c != '#'
    ensures StripComment(indent + t + " " + gap + name + end + comment) == t + " " + gap + name
  {
    hide TrimSpace, Before, Index;
    var body := t + " " + gap + name;
    var text := indent + body + end;
    assert indent + t + " " + gap + name + end + comment == text + comment;
    assert forall c <- t :: c in t + name;
    assert forall c <- name :: c in t + name;
    assert '#' !in text;
    if comment == "" {
      assert text + comment == text;
      BeforeNone(text, '#');
    } else {
      assert text + comment == text + ['#'] + comment[1..];
      BeforeMark(text, '#', comment[1..]);
    }
    assert body[0] == t[0] && body[|body| - 1] == name[|name| - 1];
    assert t[0] in t && name[|name| - 1] in name;
    TrimAround(indent, body, end);
  }

  lemma SplitsAtSpace(t: string, gap: string, name: string)
    requires Spaces(gap) && t != "" && name != "" && forall c <- t + name :: !IsSpace(c)
    ensures var s := t + " " + gap + name;
            Index(s, ' ') == |t| && TrimSpace(s[..|t|]) == t && TrimSpace(s[|t| + 1..]) == name
  {
    hide TrimSpace, Index;
    var s := t + " " + gap + name;
    assert forall c <- t :: c in t + name;
    assert forall c <- name :: c in t + name;
    assert ' ' !in t;
    assert s == t + [' '] + (gap + name);
    BeforeMark(t, ' ', gap + name);
    assert s[..|t|] == "" + t + "" && s[|t| + 1..] == gap + name + "";
    assert t[0] in t && t[|t| - 1] in t && name[0] in name && name[|name| - 1] in name;
    TrimAround("", t, "");
    TrimAround(gap, name, "");
  }

  /** For instance. */
  lemma SpacedExample(package: string)
    ensures LoadFieldLine("  uint8[3]   data \t# three", package) == Some(Field("", "uint8", "data", true, 3))
  {
    hide LoadFieldLine, StripComment, ParseDigits, Itoa, LegalName;
    var f := Field("", "uint8", "data", true, 3);
    ThreeAndData();
    assert "  " + "uint8[3]" + " " + "  " + "data" + " \t" + "# three" == "  uint8[3]   data \t# three";
    SpacedLine("  ", "uint8[3]", "  ", "data", " \t", "# three", package);
    assert "[" + "3" + "]" == "[3]" && "uint8" + "[3]" == "uint8[3]";
    assert FieldString(f) == "uint8[3]" + " " + "data";
    BuiltinFieldRoundTrip(f, package);
  }

  lemma ThreeAndData()
    ensures Itoa(3) == "3" && LegalName("data")
  {
  }

  /** What is a name, by example. */
  lemma LegalExamples()
    ensures LegalName("pose_2") && LegalName("a/b")
    ensures !LegalName("") && !LegalName("2a") && !LegalName("_a") && !LegalName("a-b") && !LegalName("a//b")
  {
    assert "a-b"[1] in "a-b" && !WordChar('-');
    assert "a//b"[1] == '/' && "a//b"[2] == '/';
  }

  /** Of a type with more than two components the first two count. */
  lemma ExtraComponentIgnored(a: string, b: string, more: string)
    requires '/' !in a && '/' !in b
    ensures SplitType(a + "/" + b + "/" + more) == (a, b)
  {
    hide Index;
    var t := a + "/" + b + "/" + more;
    assert t == a + ['/'] + (b + "/" + more) && b + "/" + more == b + ['/'] + more;
    BeforeMark(a, '/', b + "/" + more);
    BeforeMark(b, '/', more);
    assert t[|a| + 1..] == b + "/" + more && t[..|a|] == a;
  }
}
