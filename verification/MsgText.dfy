/** Whole .msg texts: the line loop of LoadMsgFromString, and what it guarantees about fields. */
module MsgText {
  import opened Basics
  import opened Schema
  import opened FieldText
  import opened Registry

  /** strings.Split at newlines. */
  function Lines(text: string): seq<string>
    decreases |text|
  {
    var i := Index(text, '\n');
    if i < 0 then [text] else [text[..i]] + Lines(text[i + 1..])
  }

  /** What one line adds. Constant lines are left to `constantLine`. */
  datatype Item = Nothing | ConstantItem(c: Constant) | FieldItem(f: Field) | SyntaxError

  function ParseLine(line: string, package: string, constantLine: string -> Option<Constant>): Item
  {
    var clean := StripComment(line);
    if clean == "" then Nothing
    else if '=' in clean then
      match constantLine(line)
      case Some(c) => ConstantItem(c)
      case None => SyntaxError
    else
      match LoadFieldLine(line, package)
      case Some(f) => FieldItem(f)
      case None => SyntaxError
  }

  /** The first `i` lines; None at the first syntax error. */
  function ParseLines(lines: seq<string>, i: nat, package: string, constantLine: string -> Option<Constant>)
    : Option<Parsed>
    requires i <= |lines|
  {
    if i == 0 then Some(Parsed([], []))
    else
      match ParseLines(lines, i - 1, package, constantLine)
      case None => None
      case Some(p) =>
        match ParseLine(lines[i - 1], package, constantLine)
        case Nothing => Some(p)
        case ConstantItem(c) => Some(p.(constants := p.constants + [c]))
        case FieldItem(f) => Some(p.(fields := p.fields + [f]))
        case SyntaxError => None
  }

  function ParseText(text: string, package: string, constantLine: string -> Option<Constant>): Option<Parsed>
  {
    ParseLines(Lines(text), |Lines(text)|, package, constantLine)
  }

  method LoadLines(text: string, package: string, constantLine: string -> Option<Constant>)
    returns (spec: Option<Parsed>)
    ensures spec == ParseText(text, package, constantLine)
  {
    hide ParseLine, Lines;
    var fields: seq<Field> := [];
    var constants: seq<Constant> := [];
    var lines := Lines(text);
    var i := 0;
    while i < |lines|
      invariant i <= |lines| && ParseLines(lines, i, package, constantLine) == Some(Parsed(fields, constants))
    {
      match ParseLine(lines[i], package, constantLine) {
        case Nothing =>
        case ConstantItem(c) => constants := constants + [c];
        case FieldItem(f) => fields := fields + [f];
        case SyntaxError =>
          ErrorIsFinal(lines, i + 1, package, constantLine);
          return None;
      }
      i := i + 1;
    }
    spec := Some(Parsed(fields, constants));
  }

  lemma {:induction false} ErrorIsFinal(lines: seq<string>, i: nat, package: string,
                                        constantLine: string -> Option<Constant>)
    requires i <= |lines| && ParseLines(lines, i, package, constantLine).None?
    ensures ParseLines(lines, |lines|, package, constantLine).None?
    decreases |lines| - i
  {
    hide ParseLine;
    if i < |lines| {
      ErrorIsFinal(lines, i + 1, package, constantLine);
    }
  }

  /** Every field of a parsed text has the shape the codecs rely on. */
  lemma {:induction false} ParsedFieldsShaped(lines: seq<string>, i: nat, package: string,
                                              constantLine: string -> Option<Constant>)
    requires i <= |lines| && ParseLines(lines, i, package, constantLine).Some?
    ensures forall f <- ParseLines(lines, i, package, constantLine).value.fields :: f.Shaped() && LegalName(f.name)
  {
    hide LoadFieldLine, StripComment, LegalName, Field.Shaped;
    if i > 0 {
      ParsedFieldsShaped(lines, i - 1, package, constantLine);
      if LoadFieldLine(lines[i - 1], package).Some? {
        AcceptedShape(lines[i - 1], package);
      }
    }
  }

  /** A registry over texts parsed this way meets the shape part of completeness for free. */
  lemma DefinitionsAreShaped(d: Defs, constantLine: string -> Option<Constant>, name: string)
    requires forall text, package :: d.parse(text, package) == ParseText(text, package, constantLine)
    requires Defined(d, name)
    ensures forall f <- Body(d, name).fields :: f.Shaped() && LegalName(f.name)
  {
    hide PackageResourceName, ParseLines, Lines, LegalName, Field.Shaped;
    var text := d.texts[name];
    ParsedFieldsShaped(Lines(text), |Lines(text)|, PackageResourceName(name).value.0, constantLine);
  }

  lemma PrintedLine(f: Field, package: string, constantLine: string -> Option<Constant>)
    requires f.IsBuiltin() && f.pkg == "" && f.Shaped() && LegalName(f.name)
    ensures ParseLine(FieldString(f), package, constantLine) == FieldItem(f)
  {
    hide LoadFieldLine, Suffix, BuiltinOf, StripComment;
    BuiltinNamesAreLegal(f.typ);
    LineSplits(f);
    SuffixCloses(f);
    assert '=' !in FieldString(f);
    BuiltinFieldRoundTrip(f, package);
  }

  // ---------------------------------------------------------------- texts, line by line

  /** Empty lines and comments add nothing, however they are indented. */
  lemma BlankLine(indent: string, comment: string, package: string, constantLine: string -> Option<Constant>)
    requires Spaces(indent) && (comment == "" || comment[0] == '#')
    ensures ParseLine(indent + comment, package, constantLine) == Nothing
  {
    hide TrimSpace, Before, Index;
    if comment == "" {
      assert indent + comment == indent;
      BeforeNone(indent, '#');
    } else {
      assert indent + comment == indent + ['#'] + comment[1..];
      BeforeMark(indent, '#', comment[1..]);
    }
    assert indent + "" == indent;
    TrimSpaceIgnores(indent, "");
    NothingLeft();
  }

  lemma NothingLeft()
    ensures TrimSpace("") == ""
  {
  }

  /** A line whose part before any comment holds an '=' is read as a constant, any other as a field. */
  lemma ConstantOrField(line: string, package: string, constantLine: string -> Option<Constant>)
    requires StripComment(line) != ""
    ensures ParseLine(line, package, constantLine) ==
            if '=' in StripComment(line) then
              (if constantLine(line).Some? then ConstantItem(constantLine(line).value) else SyntaxError)
            else if LoadFieldLine(line, package).Some? then FieldItem(LoadFieldLine(line, package).value)
            else SyntaxError
  {
  }

  lemma FirstOfLines(line: string, text: string)
    requires '\n' !in line
    ensures Lines(line + "\n" + text) == [line] + Lines(text)
  {
    var s := line + ['\n'] + text;
    BeforeMark(line, '\n', text);
    assert s[|line| + 1..] == text && s[..|line|] == line;
  }

  /** What the lines from the `i`th on add to what the first ones gave. */
  function AddLine(p: Option<Parsed>, item: Item): Option<Parsed>
  {
    match item
    case Nothing => p
    case ConstantItem(c) => if p.None? then None else Some(Parsed(p.value.fields, p.value.constants + [c]))
    case FieldItem(f) => if p.None? then None else Some(Parsed(p.value.fields + [f], p.value.constants))
    case SyntaxError => None
  }

  /** A text means what its lines add, in order: one more line at the end adds what that line says. */
  lemma LastLineAdds(lines: seq<string>, line: string, package: string, constantLine: string -> Option<Constant>)
    ensures ParseLines(lines + [line], |lines| + 1, package, constantLine) ==
            AddLine(ParseLines(lines, |lines|, package, constantLine), ParseLine(line, package, constantLine))
  {
    hide ParseLine;
    SameLines(lines, [line], |lines|, package, constantLine);
  }

  lemma {:induction false} SameLines(a: seq<string>, b: seq<string>, i: nat, package: string,
                                     constantLine: string -> Option<Constant>)
    requires i <= |a|
    ensures ParseLines(a + b, i, package, constantLine) == ParseLines(a, i, package, constantLine)
  {
    hide ParseLine;
    if i > 0 {
      SameLines(a, b, i - 1, package, constantLine);
    }
  }
}
