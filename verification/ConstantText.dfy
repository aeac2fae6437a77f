/** Constant lines of .msg files: how they are read, and the line a digest writes for them. */
module ConstantText {
  import opened Basics
  import opened Schema
  import opened FieldText

  /** strings.IndexFunc(s, unicode.IsSpace). */
  function SpaceIndex(s: string): (i: int)
    ensures -1 <= i < |s|
    ensures i >= 0 ==> IsSpace(s[i])
    ensures forall j | 0 <= j < (if i >= 0 then i else |s|) :: !IsSpace(s[j])
  {
    if s == "" then -1
    else if IsSpace(s[0]) then 0
    else
      var i := SpaceIndex(s[1..]);
      if i < 0 then -1 else i + 1
  }

  /** isValidConsantType */
  predicate ConstantType(typ: string)
  {
    BuiltinOf(typ).Some? && typ != "time" && typ != "duration"
  }

  /** Which literals convertConstantValue accepts for a type other than string. */
  type Literals = (string, string) -> bool

  function Assign(typ: string, keyValue: string, literal: Literals): Option<Constant>
  {
    var eq := Index(keyValue, '=');
    if eq < 0 then None
    else
      var name, text := TrimSpace(keyValue[..eq]), keyValue[eq + 1..];
      var valueText := if typ == "string" then TrimLeft(text) else TrimSpace(text);
      if typ == "string" || literal(typ, valueText) then Some(Constant(typ, name, valueText)) else None
  }

  /** A string constant is split again from the line as written, comments and indentation included. */
  function LoadConstantLine(line: string, literal: Literals): Option<Constant>
  {
    var clean := StripComment(line);
    var sep := SpaceIndex(clean);
    if sep < 0 || !ConstantType(clean[..sep]) then None
    else if clean[..sep] == "string" then
      if SpaceIndex(line) < 0 then None else Assign("string", line[SpaceIndex(line)..], literal)
    else
      Assign(clean[..sep], TrimSpace(clean[sep..]), literal)
  }

  /** The line that ComputeMD5Text writes, without its newline. */
  function DigestLine(c: Constant): string
  {
    c.typ + " " + c.name + "=" + c.valueText
  }

  // ---------------------------------------------------------------- trimming

  /** The number of leading spaces. */
  function Lead(s: string): (p: nat)
    ensures p <= |s| && forall j | 0 <= j < p :: IsSpace(s[j])
    ensures p < |s| ==> !IsSpace(s[p])
    ensures TrimLeft(s) == s[p..]
  {
    if s != "" && IsSpace(s[0]) then 1 + Lead(s[1..]) else 0
  }

  lemma {:induction false} TrimRightIsPrefix(s: string)
    ensures TrimRight(s) <= s
    ensures TrimRight(s) != "" ==> !IsSpace(TrimRight(s)[|TrimRight(s)| - 1])
    ensures forall k | 0 <= k < |s| && !IsSpace(s[k]) :: k < |TrimRight(s)|
  {
    if s != "" && IsSpace(s[|s| - 1]) {
      TrimRightIsPrefix(s[..|s| - 1]);
    }
  }

  predicate Trimmed(s: string)
  {
    s != "" ==> !IsSpace(s[0]) && !IsSpace(s[|s| - 1])
  }

  lemma TrimSpaceTrims(s: string)
    ensures Trimmed(TrimSpace(s))
    ensures TrimSpace(s) == TrimRight(s[Lead(s)..])
    ensures forall c <- TrimSpace(s) :: c in s
    ensures TrimSpace(s) != "" ==> Lead(s) < |s| && TrimSpace(s)[0] == s[Lead(s)]
    ensures Lead(s) < |s| ==> TrimSpace(s) != ""
  {
    TrimRightIsPrefix(s[Lead(s)..]);
  }

  lemma TrimmedStays(s: string)
    requires Trimmed(s)
    ensures TrimSpace(s) == s
  {
    if s != "" {
      TrimNothing(s);
    }
  }

  // ---------------------------------------------------------------- what is accepted

  /** The constants that some line reads as. */
  predicate Settled(c: Constant, literal: Literals)
  {
    && ConstantType(c.typ)
    && '=' !in c.name && Trimmed(c.name)
    && if c.typ == "string" then
         && (c.name != "" ==> c.name[0] != '#')
         && (c.valueText != "" ==> !IsSpace(c.valueText[0]))
       else
         && '#' !in c.name && '#' !in c.valueText && Trimmed(c.valueText)
         && literal(c.typ, c.valueText)
  }

  lemma LeadOfPrefix(s: string, n: nat)
    requires n <= |s| && Lead(s[..n]) < n
    ensures Lead(s) == Lead(s[..n])
  {
    hide Lead;
    var q := Lead(s[..n]);
    assert s[..n][q] == s[q];
    assert forall j | 0 <= j < q :: s[..n][j] == s[j];
  }

  /** The name: what stands before the first '=', trimmed. */
  lemma NameOf(keyValue: string)
    requires Index(keyValue, '=') >= 0
    ensures var name := TrimSpace(keyValue[..Index(keyValue, '=')]);
            && '=' !in name && Trimmed(name) && (forall c <- name :: c in keyValue)
            && (name != "" ==> Lead(keyValue) < |keyValue| && name[0] == keyValue[Lead(keyValue)])
  {
    hide TrimSpace, Trimmed, Lead;
    var eq := Index(keyValue, '=');
    var key := keyValue[..eq];
    TrimSpaceTrims(key);
    assert forall c <- key :: c in keyValue && c != '=';
    if TrimSpace(key) != "" {
      LeadOfPrefix(keyValue, eq);
    }
  }

  lemma TrimLeftTrims(s: string)
    ensures TrimLeft(s) != "" ==> !IsSpace(TrimLeft(s)[0])
    ensures forall c <- TrimLeft(s) :: c in s
  {
    assert TrimLeft(s) == s[Lead(s)..];
  }

  lemma SuffixChars(s: string, i: nat)
    requires i <= |s|
    ensures forall c <- s[i..] :: c in s
  {
  }

  lemma AssignSettles(typ: string, keyValue: string, literal: Literals)
    requires ConstantType(typ) && Assign(typ, keyValue, literal).Some?
    requires if typ == "string" then Lead(keyValue) < |keyValue| && keyValue[Lead(keyValue)] != '#'
             else '#' !in keyValue
    ensures Settled(Assign(typ, keyValue, literal).value, literal)
  {
    hide TrimSpace, ConstantType, TrimLeft, Trimmed, Lead, Index;
    var eq := Index(keyValue, '=');
    var text := keyValue[eq + 1..];
    NameOf(keyValue);
    TrimLeftTrims(text);
    TrimSpaceTrims(text);
    SuffixChars(keyValue, eq + 1);
  }

  /** Where the stripped line sits in the line as written. */
  lemma CleanIsPart(line: string)
    ensures var b, clean := Before(line, '#'), StripComment(line);
            && Lead(b) + |clean| <= |b|
            && (forall j | 0 <= j < |clean| :: clean[j] == line[Lead(b) + j])
            && (clean != "" ==> !IsSpace(clean[|clean| - 1]))
  {
    hide TrimSpace, TrimRight, Before, Lead;
    var b := Before(line, '#');
    TrimSpaceTrims(b);
    TrimRightIsPrefix(b[Lead(b)..]);
  }

  /** The type of a string constant is followed, before any comment, by something. */
  lemma StringLine(line: string)
    requires var clean := StripComment(line); SpaceIndex(clean) >= 0 && clean[..SpaceIndex(clean)] == "string"
    ensures var sep := SpaceIndex(line);
            && sep >= 0
            && Lead(line[sep..]) < |line[sep..]| && line[sep..][Lead(line[sep..])] != '#'
  {
    hide StripComment, Before, SpaceIndex, Lead;
    var b, clean := Before(line, '#'), StripComment(line);
    CleanIsPart(line);
    var p, k, n := Lead(b), SpaceIndex(clean), |clean| - 1;
    SpaceBefore(line, p + k, p + n);
    var first := SpaceIndex(line) + Lead(line[SpaceIndex(line)..]);
    assert line[first] == b[first] && b[first] in b;
  }

  /** After the first space, the next other character comes no later than one that is known. */
  lemma SpaceBefore(s: string, k: nat, n: nat)
    requires k < n < |s| && IsSpace(s[k]) && !IsSpace(s[n])
    ensures 0 <= SpaceIndex(s) <= k
    ensures SpaceIndex(s) + Lead(s[SpaceIndex(s)..]) <= n
  {
    hide SpaceIndex, Lead;
    var sep := SpaceIndex(s);
    var rest := s[sep..];
    assert rest[n - sep] == s[n];
  }

  lemma AcceptedSettled(line: string, literal: Literals)
    requires LoadConstantLine(line, literal).Some?
    ensures Settled(LoadConstantLine(line, literal).value, literal)
  {
    hide TrimSpace, ConstantType, Settled, Assign;
    var clean := StripComment(line);
    var sep := SpaceIndex(clean);
    if clean[..sep] == "string" {
      StringLine(line);
      AssignSettles("string", line[SpaceIndex(line)..], literal);
    } else {
      TrimSpaceTrims(Before(line, '#'));
      TrimSpaceTrims(clean[sep..]);
      assert forall c <- clean[sep..] :: c in clean;
      assert '#' !in TrimSpace(clean[sep..]);
      AssignSettles(clean[..sep], TrimSpace(clean[sep..]), literal);
    }
  }

  // ---------------------------------------------------------------- reading digest lines

  /** So the digest line of a settled constant reads back as that constant. */
  lemma SettledReparses(c: Constant, literal: Literals)
    requires Settled(c, literal)
    ensures LoadConstantLine(DigestLine(c), literal) == Some(c)
  {
    hide TrimSpace, ConstantType, Assign;
    TypeIsPlain(c.typ);
    if c.typ == "string" {
      StringReparses(c, literal);
    } else {
      LiteralReparses(c, literal);
    }
  }

  lemma TypeIsPlain(typ: string)
    requires ConstantType(typ)
    ensures typ != "" && forall c <- typ :: !IsSpace(c) && c != '#' && c != '='
  {
    PlainIsLegal(typ);
  }

  lemma SpaceAt(a: string, b: string)
    requires forall c <- a :: !IsSpace(c)
    ensures SpaceIndex(a + " " + b) == |a|
  {
    var s := a + " " + b;
    assert s[|a|] == ' ';
    assert forall j | 0 <= j < |a| :: s[j] == a[j] && a[j] in a;
  }

  lemma AssignReads(typ: string, name: string, text: string, literal: Literals)
    requires '=' !in name && Trimmed(name)
    requires if typ == "string" then text != "" ==> !IsSpace(text[0]) else Trimmed(text) && literal(typ, text)
    ensures Assign(typ, name + "=" + text, literal) == Some(Constant(typ, name, text))
    ensures Assign(typ, " " + name + "=" + text, literal) == Some(Constant(typ, name, text))
  {
    hide TrimSpace;
    BeforeMark(name, '=', text);
    BeforeMark(" " + name, '=', text);
    assert (name + "=" + text)[|name| + 1..] == text;
    assert (" " + name + "=" + text)[|name| + 2..] == text;
    TrimmedStays(name);
    TrimSpaceIgnores(" ", name);
    if typ != "string" {
      TrimmedStays(text);
    }
  }

  lemma NothingToStrip(s: string)
    requires '#' !in s && Trimmed(s)
    ensures StripComment(s) == s
  {
    hide TrimSpace;
    BeforeNone(s, '#');
    TrimmedStays(s);
  }

  lemma LiteralIsClean(c: Constant, literal: Literals)
    requires Settled(c, literal) && c.typ != "string" && c.typ != "" && forall x <- c.typ :: !IsSpace(x) && x != '#'
    ensures StripComment(DigestLine(c)) == DigestLine(c) && ConstantType(c.typ)
    ensures '=' !in c.name && Trimmed(c.name) && Trimmed(c.valueText) && literal(c.typ, c.valueText)
    ensures Trimmed(c.name + "=" + c.valueText)
  {
    hide StripComment, TrimSpace, ConstantType;
    var s, keyValue := DigestLine(c), c.name + "=" + c.valueText;
    assert s == c.typ + " " + keyValue;
    assert s[0] in c.typ && s[|s| - 1] == keyValue[|keyValue| - 1];
    NothingToStrip(s);
  }

  lemma LiteralReparses(c: Constant, literal: Literals)
    requires Settled(c, literal) && c.typ != "string" && (c.typ != "" && forall x <- c.typ :: !IsSpace(x) && x != '#')
    ensures LoadConstantLine(DigestLine(c), literal) == Some(c)
  {
    hide StripComment, TrimSpace, ConstantType, Assign, SpaceIndex, Trimmed, Settled;
    var s, keyValue := DigestLine(c), c.name + "=" + c.valueText;
    LiteralIsClean(c, literal);
    assert s == c.typ + " " + keyValue;
    SpaceAt(c.typ, keyValue);
    assert s[..|c.typ|] == c.typ && s[|c.typ|..] == " " + keyValue;
    TrimSpaceIgnores(" ", keyValue);
    TrimmedStays(keyValue);
    AssignReads(c.typ, c.name, c.valueText, literal);
  }

  lemma StringReparses(c: Constant, literal: Literals)
    requires Settled(c, literal) && c.typ == "string"
    ensures LoadConstantLine(DigestLine(c), literal) == Some(c)
  {
    hide TrimSpace, Assign, TrimRight, Before, SpaceIndex, Lead, Index;
    var s, keyValue := DigestLine(c), c.name + "=" + c.valueText;
    assert s == "string" + " " + keyValue;
    CleanString(s);
    SpaceAt("string", keyValue);
    assert s[6..] == " " + c.name + "=" + c.valueText;
    AssignReads(c.typ, c.name, c.valueText, literal);
  }

  lemma CleanString(s: string)
    requires |s| >= 8 && s[..7] == "string " && !IsSpace(s[7]) && s[7] != '#'
    ensures SpaceIndex(StripComment(s)) == 6 && StripComment(s)[..6] == "string"
  {
    hide TrimSpace, TrimRight, Before, SpaceIndex, Lead, Index;
    var b, clean := Before(s, '#'), StripComment(s);
    assert forall j | 0 <= j < 8 :: s[j] == if j < 7 then s[..7][j] else s[7];
    assert |b| >= 8 by {
      BeforeReaches(s, 8);
    }
    assert b[0] == s[0] == 's' && b[7] == s[7];
    assert Lead(b) == 0 && b[0..] == b;
    TrimSpaceTrims(b);
    TrimRightIsPrefix(b);
    assert |clean| >= 8 && clean <= s;
    assert clean[6] == s[6] == s[..7][6] == ' ';
    assert clean[..6] == s[..6] == s[..7][..6] == "string";
    assert forall j | 0 <= j < 6 :: clean[j] == clean[..6][j];
  }

  lemma BeforeReaches(s: string, n: nat)
    requires n <= |s| && forall j | 0 <= j < n :: s[j] != '#'
    ensures |Before(s, '#')| >= n
  {
  }

  /** Exactly the settled constants come from lines. */
  lemma ParsedIff(c: Constant, literal: Literals)
    ensures (exists line :: LoadConstantLine(line, literal) == Some(c)) <==> Settled(c, literal)
  {
    hide Settled, LoadConstantLine;
    if line :| LoadConstantLine(line, literal) == Some(c) {
      AcceptedSettled(line, literal);
    }
    if Settled(c, literal) {
      SettledReparses(c, literal);
    }
  }

  /** What a line reads as, its digest line reads as too; so the digest tells constants apart. */
  lemma DigestLineFaithful(line: string, other: string, literal: Literals)
    requires LoadConstantLine(line, literal).Some? && LoadConstantLine(other, literal).Some?
    ensures var c, d := LoadConstantLine(line, literal).value, LoadConstantLine(other, literal).value;
            && LoadConstantLine(DigestLine(c), literal) == Some(c)
            && (DigestLine(c) == DigestLine(d) ==> c == d)
  {
    hide Settled, LoadConstantLine, DigestLine;
    AcceptedSettled(line, literal);
    AcceptedSettled(other, literal);
    SettledReparses(LoadConstantLine(line, literal).value, literal);
    SettledReparses(LoadConstantLine(other, literal).value, literal);
  }

  // ---------------------------------------------------------------- indentation

  /** Indenting a line never changes which constant it is, unless that is a string constant: then the
      indented line is split at its indentation, and the type ends up in the name. */
  lemma IndentationIff(indent: string, line: string, literal: Literals)
    requires forall x <- indent :: IsSpace(x)
    requires line != "" && !IsSpace(line[0]) && LoadConstantLine(line, literal).Some?
    ensures var c := LoadConstantLine(line, literal).value;
            var indented := LoadConstantLine(indent + line, literal);
            && (indented == Some(c) <==> indent == "" || c.typ != "string")
            && (indented != Some(c) ==>
                  indented.Some? && indented.value.valueText == c.valueText && "string" <= indented.value.name)
  {
    hide TrimSpace, TrimLeft, ConstantType, Assign, SpaceIndex, Before, Index;
    CommentIgnoresIndent(indent, line);
    var clean := StripComment(line);
    if indent == "" {
      assert indent + line == line;
    } else if clean[..SpaceIndex(clean)] != "string" {
      AssignKeepsType(clean[..SpaceIndex(clean)], TrimSpace(clean[SpaceIndex(clean)..]), literal);
    } else {
      AssignKeepsType("string", line[SpaceIndex(line)..], literal);
      assert IsSpace((indent + line)[0]);
      FirstSpace(indent + line);
      TypeInLine(line);
      assert SpaceIndex(clean) == |clean[..SpaceIndex(clean)]| == 6;
      IndentedString(indent, line, literal);
    }
  }

  lemma FirstSpace(s: string)
    requires s != "" && IsSpace(s[0])
    ensures SpaceIndex(s) == 0 && s[0..] == s
  {
  }

  lemma CommentIgnoresIndent(indent: string, line: string)
    requires forall x <- indent :: IsSpace(x)
    ensures StripComment(indent + line) == StripComment(line)
  {
    hide TrimSpace;
    BeforeSkips(indent, line, '#');
    TrimSpaceIgnores(indent, Before(line, '#'));
  }

  lemma {:induction false} BeforeSkips(a: string, b: string, c: char)
    requires c !in a
    ensures Before(a + b, c) == a + Before(b, c)
    ensures Index(a + b, c) == if Index(b, c) < 0 then -1 else |a| + Index(b, c)
  {
    if a == "" {
      assert a + b == b;
    } else {
      assert (a + b)[1..] == a[1..] + b;
      BeforeSkips(a[1..], b, c);
    }
  }

  /** Without indentation, the type is where the line starts. */
  lemma TypeInLine(line: string)
    requires line != "" && !IsSpace(line[0]) && SpaceIndex(StripComment(line)) >= 0
    ensures var k := SpaceIndex(StripComment(line));
            SpaceIndex(line) == k && k < |line| && line[..k] == StripComment(line)[..k]
  {
    hide StripComment, SpaceIndex;
    CleanIsPrefix(line);
    SameSpace(StripComment(line), line, SpaceIndex(StripComment(line)));
  }

  lemma CleanIsPrefix(line: string)
    requires line != "" && !IsSpace(line[0])
    ensures StripComment(line) <= line
  {
    hide Before, TrimRight;
    var b := Before(line, '#');
    assert b != "" ==> b[0] == line[0];
    TrimRightIsPrefix(b);
  }

  lemma SameSpace(a: string, b: string, k: nat)
    requires k < |a| && k < |b| && SpaceIndex(a) == k && forall j | 0 <= j <= k :: a[j] == b[j]
    ensures SpaceIndex(b) == k && b[..k] == a[..k]
  {
    hide SpaceIndex;
    assert forall j | 0 <= j < k :: !IsSpace(b[j]);
    assert IsSpace(b[k]);
  }

  lemma AssignKeepsType(typ: string, keyValue: string, literal: Literals)
    ensures Assign(typ, keyValue, literal).Some? ==> Assign(typ, keyValue, literal).value.typ == typ
  {
  }

  lemma IndentedString(indent: string, line: string, literal: Literals)
    requires indent != "" && forall x <- indent :: IsSpace(x)
    requires |line| > 6 && line[..6] == "string" && IsSpace(line[6])
    requires Assign("string", line[6..], literal).Some?
    ensures var plain, indented := Assign("string", line[6..], literal), Assign("string", indent + line, literal);
            && indented.Some? && indented.value.valueText == plain.value.valueText
            && "string" <= indented.value.name && indented != plain
  {
    hide TrimSpace, TrimLeft, Index;
    var after := line[6..];
    var eq := Index(after, '=');
    assert '=' !in "string";
    assert line == "string" + after;
    BeforeSkips("string", after, '=');
    BeforeSkips(indent, line, '=');
    assert (indent + line)[..|indent| + 6 + eq] == indent + ("string" + after[..eq]);
    assert (indent + line)[|indent| + 6 + eq + 1..] == after[eq + 1..];
    TrimSpaceIgnores(indent, "string" + after[..eq]);
    LongerName(after[..eq]);
  }

  lemma LongerName(u: string)
    ensures "string" <= TrimSpace("string" + u)
    ensures |TrimSpace("string" + u)| > |TrimSpace(u)|
  {
    hide TrimSpace, TrimRight, Lead;
    var s := "string" + u;
    TrimSpaceTrims(s);
    TrimSpaceTrims(u);
    assert s[0] == 's';
    assert Lead(s) == 0 && s[0..] == s;
    TrimRightIsPrefix(s);
    assert s[5] == 'g';
    TrimRightIsPrefix(u[Lead(u)..]);
    var v := TrimSpace(u);
    if v != "" {
      var k := Lead(u) + |v| - 1;
      assert v[|v| - 1] == u[Lead(u)..][|v| - 1] == u[k] == s[6 + k];
      assert 6 + k < |TrimRight(s)|;
    }
  }

  // ---------------------------------------------------------------- lines as people write them

  /** The types that constants may have. */
  lemma ConstantTypes(typ: string)
    ensures ConstantType(typ) <==>
            typ in ["bool", "int8", "uint8", "byte", "char", "int16", "uint16", "int32", "uint32", "int64", "uint64",
                    "float32", "float64", "string"]
  {
  }

  /** However a constant that is not a string is indented, spaced and commented, its name stands before the first
      '=' and its value behind it. */
  lemma SpacedConstant(indent: string, typ: string, gap: string, name: string, a: string, b: string, value: string,
                       end: string, comment: string, literal: Literals)
    requires Spaces(indent) && Spaces(gap) && Spaces(a) && Spaces(b) && Spaces(end)
    requires comment == "" || comment[0] == '#'
    requires ConstantType(typ) && typ != "string"
    requires name != "" && Trimmed(name) && '=' !in name && '#' !in name
    requires value != "" && Trimmed(value) && '#' !in value
    ensures var line := indent + (typ + " " + gap + (name + a + "=" + b + value)) + end + comment;
            LoadConstantLine(line, literal) == if literal(typ, value) then Some(Constant(typ, name, value)) else None
  {
    hide StripComment, TrimSpace, ConstantType, SpaceIndex, Index;
    var keyValue := name + a + "=" + b + value;
    var body := typ + " " + gap + keyValue;
    TypeIsPlain(typ);
    CleanBody(indent, body, end, comment);
    SpaceAt(typ, gap + keyValue);
    assert body == typ + " " + (gap + keyValue);
    assert body[..|typ|] == typ && body[|typ|..] == (" " + gap) + keyValue + "";
    TrimAround(" " + gap, keyValue, "");
    assert keyValue == (name + a) + ['='] + (b + value);
    BeforeMark(name + a, '=', b + value);
    assert keyValue[..|name + a|] == "" + name + a && keyValue[|name + a| + 1..] == b + value + "";
    TrimAround("", name, a);
    TrimAround(b, value, "");
  }

  lemma CleanBody(indent: string, body: string, end: string, comment: string)
    requires Spaces(indent) && Spaces(end) && (comment == "" || comment[0] == '#')
    requires body != "" && Trimmed(body) && '#' !in body
    ensures StripComment(indent + body + end + comment) == body
  {
    hide TrimSpace, Before, Index;
    var text := indent + body + end;
    assert '#' !in text;
    if comment == "" {
      assert text + comment == text;
      BeforeNone(text, '#');
    } else {
      assert text + comment == text + ['#'] + comment[1..];
      BeforeMark(text, '#', comment[1..]);
    }
    TrimAround(indent, body, end);
  }

  /** A string constant takes everything behind the '=' but the spaces it starts with: a '#', and the spaces at
      the end, belong to the value. */
  lemma StringConstant(name: string, a: string, b: string, text: string, literal: Literals)
    requires Spaces(a) && Spaces(b) && name != "" && Trimmed(name) && '=' !in name && name[0] != '#'
    requires text != "" ==> !IsSpace(text[0])
    ensures LoadConstantLine("string " + name + a + "=" + b + text, literal) == Some(Constant("string", name, text))
  {
    hide LoadConstantLine, Assign, TrimSpace;
    var line, keyValue := "string " + name + a + "=" + b + text, " " + name + a + "=" + b + text;
    assert line[..7] == "string " && line[7] == name[0];
    assert line[6..] == keyValue;
    StringAssigns(line, literal);
    AssignString(name, a, b, text, literal);
  }

  lemma StringAssigns(line: string, literal: Literals)
    requires |line| >= 8 && line[..7] == "string " && !IsSpace(line[7]) && line[7] != '#'
    ensures LoadConstantLine(line, literal) == Assign("string", line[6..], literal)
  {
    hide StripComment, Assign, SpaceIndex;
    CleanString(line);
    assert line == "string" + " " + line[7..];
    SpaceAt("string", line[7..]);
    assert ConstantType("string");
  }

  lemma AssignString(name: string, a: string, b: string, text: string, literal: Literals)
    requires Spaces(a) && Spaces(b) && name != "" && Trimmed(name) && '=' !in name
    requires text != "" ==> !IsSpace(text[0])
    ensures Assign("string", " " + name + a + "=" + b + text, literal) == Some(Constant("string", name, text))
  {
    hide TrimSpace, TrimLeft, Index;
    var key, keyValue := " " + name + a, " " + name + a + "=" + b + text;
    assert keyValue == key + ['='] + (b + text);
    BeforeMark(key, '=', b + text);
    assert keyValue[..|key|] == key && keyValue[|key| + 1..] == b + text;
    TrimAround(" ", name, a);
    TrimSpaceIgnores(b, text);
    NoLeading(text);
  }

  lemma NoLeading(text: string)
    requires text != "" ==> !IsSpace(text[0])
    ensures TrimLeft(text) == text
  {
  }
}
