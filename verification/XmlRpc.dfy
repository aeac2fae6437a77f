/** The XML-RPC emitter and parser, over XML tokens. */
module XmlRpc {
  import opened Basics

  datatype Tag =
    | Value | Boolean | I4 | Int | Double | String | Base64 | Array | Data | Struct | Member | Name
    | MethodCall | MethodName | Params | Param | MethodResponse | Fault
    | OtherTag(name: string)

  /** What xml.Decoder.Token yields; `Other` stands for processing instructions and comments. */
  datatype Token = Start(tag: Tag) | End(tag: Tag) | Chars(text: string) | Other

  type Int64 = i: int | -0x8000_0000_0000_0000 <= i < 0x8000_0000_0000_0000

  type Int32 = i: int | -0x8000_0000 <= i < 0x8000_0000

  predicate IsInt32(i: int)
  {
    -0x8000_0000 <= i < 0x8000_0000
  }

  predicate IsNaN(bits: nat)
  {
    (bits / 0x10_0000_0000_0000) % 0x800 == 0x7FF && bits % 0x10_0000_0000_0000 != 0
  }

  /** A double as its 64-bit pattern; NaNs, which lose their payload in text, are outside. */
  type Bits = b: nat | b < 0x1_0000_0000_0000_0000 && !IsNaN(b)

  type Octet = b: nat | b < 256

  type Bytes = seq<Octet>

  /** The text forms of strconv and base64, which are not modelled further. */
  datatype Lexicon = Lexicon(
    formatInt: Int64 -> string, parseInt32: string -> Option<Int32>, parseInt4: string -> Option<Int32>,
    formatDouble: Bits -> string, parseDouble: string -> Option<Bits>,
    encode64: Bytes -> string, decode64: string -> Option<Bytes>)

  ghost predicate Lawful(lex: Lexicon)
  {
    && (forall i: Int64 :: lex.formatInt(i) != "")
    && (forall i: Int64 :: lex.parseInt32(lex.formatInt(i)) == if IsInt32(i) then Some(i) else None)
    && lex.parseInt4("0") == Some(0) && lex.parseInt4("1") == Some(1)
    && (forall d: Bits :: lex.formatDouble(d) != "" && lex.parseDouble(lex.formatDouble(d)) == Some(d))
    && (forall b: Bytes :: lex.decode64(lex.encode64(b)) == Some(b))
    && (forall b: Bytes :: lex.encode64(b) == "" <==> b == [])
  }

  /** interface{} values, as handed in and as parsed. */
  datatype XValue =
    | XNil
    | XBool(b: bool)
    | XInt(i: Int64)
    | XDouble(d: Bits)
    | XString(s: string)
    | XBytes(bytes: Bytes)
    | XArray(items: seq<XValue>)
    | XStruct(members: map<string, XValue>)

  /** A value together with the order in which each of its maps happens to be iterated. */
  datatype Tree =
    | TNil
    | TBool(b: bool)
    | TInt(i: Int64)
    | TDouble(d: Bits)
    | TString(s: string)
    | TBytes(bytes: Bytes)
    | TArray(items: seq<Tree>)
    | TStruct(members: seq<Entry>)

  datatype Entry = Entry(key: string, value: Tree)

  /** The value of a tree, reading nil as `nil`. */
  function Forget(t: Tree, nil: XValue): XValue
    decreases t, 0
  {
    match t
    case TNil => nil
    case TBool(b) => XBool(b)
    case TInt(i) => XInt(i)
    case TDouble(d) => XDouble(d)
    case TString(s) => XString(s)
    case TBytes(b) => XBytes(b)
    case TArray(items) => XArray(ForgetItems(items, |items|, nil))
    case TStruct(members) => XStruct(ForgetMembers(members, |members|, nil))
  }

  function ForgetItems(items: seq<Tree>, n: nat, nil: XValue): (r: seq<XValue>)
    requires n <= |items|
    ensures |r| == n
    decreases items, n
  {
    if n == 0 then [] else ForgetItems(items, n - 1, nil) + [Forget(items[n - 1], nil)]
  }

  function ForgetMembers(members: seq<Entry>, n: nat, nil: XValue): map<string, XValue>
    requires n <= |members|
    decreases members, n
  {
    if n == 0 then map[]
    else ForgetMembers(members, n - 1, nil)[members[n - 1].key := Forget(members[n - 1].value, nil)]
  }

  /** The trees the parser accepts: 32-bit integers, non-empty byte strings, non-empty keys. */
  predicate Parseable(t: Tree)
    decreases t
  {
    match t
    case TInt(i) => IsInt32(i)
    case TBytes(b) => b != []
    case TArray(items) => forall x <- items :: Parseable(x)
    case TStruct(members) => forall e <- members :: e.key != "" && Parseable(e.value)
    case _ => true
  }

  // ---------------------------------------------------------------- emitting

  /** Character data; the decoder reports no token for empty text. */
  function Text(s: string): seq<Token>
  {
    if s == "" then [] else [Chars(s)]
  }

  function Leaf(tag: Tag, s: string): seq<Token>
  {
    [Start(tag)] + Text(s) + [End(tag)]
  }

  function Emit(lex: Lexicon, t: Tree): seq<Token>
    decreases t, 0
  {
    match t
    case TNil => []
    case TBool(b) => Leaf(Boolean, if b then "1" else "0")
    case TInt(i) => Leaf(Int, lex.formatInt(i))
    case TDouble(d) => Leaf(Double, lex.formatDouble(d))
    case TString(s) => Leaf(String, s)
    case TBytes(b) => Leaf(Base64, lex.encode64(b))
    case TArray(items) => [Start(Array), Start(Data)] + EmitItems(lex, items, 0) + [End(Data), End(Array)]
    case TStruct(members) => [Start(Struct)] + EmitMembers(lex, members, 0) + [End(Struct)]
  }

  function EmitItems(lex: Lexicon, items: seq<Tree>, i: nat): seq<Token>
    requires i <= |items|
    decreases items, |items| - i
  {
    if i == |items| then []
    else [Start(Value)] + Emit(lex, items[i]) + [End(Value)] + EmitItems(lex, items, i + 1)
  }

  function EmitMembers(lex: Lexicon, members: seq<Entry>, i: nat): seq<Token>
    requires i <= |members|
    decreases members, |members| - i
  {
    if i == |members| then []
    else EmitMember(lex, members[i]) + EmitMembers(lex, members, i + 1)
  }

  function EmitMember(lex: Lexicon, e: Entry): seq<Token>
    decreases e
  {
    [Start(Member), Start(Name)] + Text(e.key) + [End(Name), Start(Value)] + Emit(lex, e.value) +
    [End(Value), End(Member)]
  }

  // ---------------------------------------------------------------- parsing

  /** The value and the tokens left, or an error. */
  datatype Parsed<+T> = Ok(val: T, rest: seq<Token>) | Err

  /** xml.Decoder.Skip: up to and including the end tag that matches the last start tag consumed. */
  function Skip(toks: seq<Token>, depth: nat): (rest: seq<Token>)
    ensures |rest| <= |toks|
    decreases |toks|
  {
    if toks == [] then []
    else
      match toks[0]
      case Start(_) => Skip(toks[1..], depth + 1)
      case End(_) => if depth == 0 then toks[1..] else Skip(toks[1..], depth - 1)
      case _ => Skip(toks[1..], depth)
  }

  /** Two Skips: the element's own end tag and the </value> after it. */
  function SkipTwo(toks: seq<Token>): (rest: seq<Token>)
    ensures |rest| <= |toks|
  {
    Skip(Skip(toks, 0), 0)
  }

  /** nextTag: the next start tag, whatever comes before it. */
  function NextTag(toks: seq<Token>): (r: Parsed<Tag>)
    ensures r.Ok? ==> |r.rest| < |toks|
    decreases |toks|
  {
    if toks == [] then Err
    else if toks[0].Start? then Ok(toks[0].tag, toks[1..])
    else NextTag(toks[1..])
  }

  function ExpectNextTag(toks: seq<Token>, tag: Tag): (r: Parsed<Tag>)
    ensures r.Ok? ==> |r.rest| < |toks|
  {
    var r := NextTag(toks);
    if r.Ok? && r.val == tag then r else Err
  }

  /** strings.TrimSpace would leave nothing. */
  predicate Blank(s: string)
  {
    forall c <- s :: IsSpace(c)
  }

  function ParseValue(lex: Lexicon, toks: seq<Token>): (r: Parsed<XValue>)
    ensures r.Ok? ==> |r.rest| < |toks|
    decreases |toks|, 0
  {
    if toks == [] then Err
    else
      match toks[0]
      case Start(tag) => ParseElement(lex, tag, toks[1..])
      case Chars(text) => if Blank(text) then ParseValue(lex, toks[1..]) else Ok(XString(text), Skip(toks[1..], 0))
      case End(_) => Ok(XString(""), toks[1..])
      case Other => Err
  }

  /** The switch on the element name; `toks` starts after its start tag. */
  function ParseElement(lex: Lexicon, tag: Tag, toks: seq<Token>): (r: Parsed<XValue>)
    ensures r.Ok? ==> |r.rest| <= |toks|
    decreases |toks|, 2
  {
    match tag
    case Array =>
      (match ExpectNextTag(toks, Data)
       case Ok(_, rest) => ParseArray(lex, rest, [])
       case Err => Err)
    case Struct => ParseStruct(lex, toks, map[], "", XNil)
    case _ => ParseScalar(lex, tag, toks)
  }

  function ParseScalar(lex: Lexicon, tag: Tag, toks: seq<Token>): (r: Parsed<XValue>)
    ensures r.Ok? ==> |r.rest| <= |toks|
  {
    if toks == [] then Err
    else if toks[0].Chars? then
      match ScalarOf(lex, tag, toks[0].text)
      case Some(v) => Ok(v, SkipTwo(toks[1..]))
      case None => Err
    else if tag == String && toks[0] == End(String) then Ok(XString(""), Skip(toks[1..], 0))
    else Err
  }

  function ScalarOf(lex: Lexicon, tag: Tag, text: string): Option<XValue>
  {
    match tag
    case Boolean =>
      (match lex.parseInt4(text)
       case Some(i) => if i == 0 then Some(XBool(false)) else if i == 1 then Some(XBool(true)) else None
       case None => None)
    case I4 | Int =>
      (match lex.parseInt32(text)
       case Some(i) => Some(XInt(i))
       case None => None)
    case Double =>
      (match lex.parseDouble(text)
       case Some(d) => Some(XDouble(d))
       case None => None)
    case String => Some(XString(text))
    case Base64 =>
      (match lex.decode64(text)
       case Some(b) => Some(XBytes(b))
       case None => None)
    case _ => None
  }

  function ParseArray(lex: Lexicon, toks: seq<Token>, a: seq<XValue>): (r: Parsed<XValue>)
    ensures r.Ok? ==> |r.rest| <= |toks|
    decreases |toks|, 1
  {
    if toks == [] then Err
    else if toks[0] == Start(Value) then
      match ParseValue(lex, toks[1..])
      case Ok(v, rest) => ParseArray(lex, rest, a + [v])
      case Err => Err
    else if toks[0] == End(Array) then Ok(XArray(a), Skip(toks[1..], 0))
    else ParseArray(lex, toks[1..], a)
  }

  /** `name` and `value` carry over from member to member until they are set again. */
  function ParseStruct(lex: Lexicon, toks: seq<Token>, m: map<string, XValue>, name: string, value: XValue)
    : (r: Parsed<XValue>)
    ensures r.Ok? ==> |r.rest| <= |toks|
    decreases |toks|, 1
  {
    if toks == [] then Err
    else if toks[0] == Start(Name) then
      if |toks| > 1 && toks[1].Chars? then ParseStruct(lex, toks[2..], m, toks[1].text, value) else Err
    else if toks[0] == Start(Value) then
      match ParseValue(lex, toks[1..])
      case Ok(v, rest) => ParseStruct(lex, rest, m, name, v)
      case Err => Err
    else if toks[0] == End(Member) then ParseStruct(lex, toks[1..], m[name := value], name, value)
    else if toks[0] == End(Struct) then Ok(XStruct(m), Skip(toks[1..], 0))
    else ParseStruct(lex, toks[1..], m, name, value)
  }

  // ---------------------------------------------------------------- the round trip

  /** What the parser makes of an emitted tree in front of `</value>` and anything else. */
  function Expected(t: Tree, rest: seq<Token>): Parsed<XValue>
  {
    if Parseable(t) then Ok(Forget(t, XString("")), rest) else Err
  }

  lemma Cons(tok: Token, tail: seq<Token>)
    ensures ([tok] + tail)[0] == tok && ([tok] + tail)[1..] == tail
  {
  }

  /** Emitting and parsing gives the same value back, with nil read as the empty string, and stops just
      past the closing tag; it fails exactly when some integer exceeds 32 bits or some byte string
      or key is empty. */
  lemma {:induction false} ValueRoundTrip(lex: Lexicon, t: Tree, rest: seq<Token>)
    requires Lawful(lex)
    ensures ParseValue(lex, Emit(lex, t) + [End(Value)] + rest) == Expected(t, rest)
    decreases t, 1
  {
    hide Lawful, ParseArray, ParseStruct, EmitItems, EmitMembers, ForgetItems, ForgetMembers, ParseElement, Parseable;
    match t
    case TNil =>
      assert Emit(lex, t) + [End(Value)] + rest == [End(Value)] + rest;
      LeavesParseable(t);
    case TArray(items) =>
      var after := [End(Data), End(Array), End(Value)] + rest;
      var body := EmitItems(lex, items, 0) + after;
      ParseableArray(items);
      ItemsRoundTrip(lex, items, 0, after, [], rest);
      assert Emit(lex, t) + [End(Value)] + rest == [Start(Array)] + ([Start(Data)] + body);
      Cons(Start(Array), [Start(Data)] + body);
      ElementArray(lex, body);
    case TStruct(members) =>
      var after := [End(Struct), End(Value)] + rest;
      var body := EmitMembers(lex, members, 0) + after;
      ParseableStruct(members);
      MembersRoundTrip(lex, members, 0, after, map[], "", XNil, rest);
      assert Emit(lex, t) + [End(Value)] + rest == [Start(Struct)] + body;
      Cons(Start(Struct), body);
      ElementStruct(lex, body);
    case _ => ScalarRoundTrip(lex, t, rest);
  }

  lemma LeavesParseable(t: Tree)
    requires t.TNil?
    ensures Parseable(t)
  {
  }

  lemma ParseableArray(items: seq<Tree>)
    ensures Parseable(TArray(items)) <==> forall k | 0 <= k < |items| :: Parseable(items[k])
    ensures ForgetItems(items, 0, XString("")) == []
    ensures Forget(TArray(items), XString("")) == XArray(ForgetItems(items, |items|, XString("")))
  {
  }

  lemma ParseableStruct(members: seq<Entry>)
    ensures Parseable(TStruct(members)) <==>
            forall k | 0 <= k < |members| :: members[k].key != "" && Parseable(members[k].value)
    ensures ForgetMembers(members, 0, XString("")) == map[]
    ensures Forget(TStruct(members), XString("")) == XStruct(ForgetMembers(members, |members|, XString("")))
  {
  }

  lemma ElementArray(lex: Lexicon, body: seq<Token>)
    ensures ParseElement(lex, Array, [Start(Data)] + body) == ParseArray(lex, body, [])
  {
  }

  lemma ElementStruct(lex: Lexicon, body: seq<Token>)
    ensures ParseElement(lex, Struct, body) == ParseStruct(lex, body, map[], "", XNil)
  {
  }

  lemma ScalarRoundTrip(lex: Lexicon, t: Tree, rest: seq<Token>)
    requires Lawful(lex) && !t.TNil? && !t.TArray? && !t.TStruct?
    ensures ParseValue(lex, Emit(lex, t) + [End(Value)] + rest) == Expected(t, rest)
  {
    hide ParseValue, Leaf;
    match t
    case TBool(b) => LeafParse(lex, Boolean, if b then "1" else "0", rest);
    case TInt(i) => LeafParse(lex, Int, lex.formatInt(i), rest);
    case TDouble(d) => LeafParse(lex, Double, lex.formatDouble(d), rest);
    case TString(s) => LeafParse(lex, String, s, rest);
    case TBytes(b) => LeafParse(lex, Base64, lex.encode64(b), rest);
  }

  lemma LeafParse(lex: Lexicon, tag: Tag, s: string, rest: seq<Token>)
    requires tag != Array && tag != Struct
    ensures var r := ParseValue(lex, Leaf(tag, s) + [End(Value)] + rest);
            if s == "" then r == if tag == String then Ok(XString(""), rest) else Err
            else r == if ScalarOf(lex, tag, s).Some? then Ok(ScalarOf(lex, tag, s).value, rest) else Err
  {
  }

  // ---------------------------------------------------------------- arrays

  lemma {:induction false} ItemsRoundTrip(lex: Lexicon, items: seq<Tree>, i: nat, after: seq<Token>, a: seq<XValue>,
                                          rest: seq<Token>)
    requires Lawful(lex) && i <= |items| && a == ForgetItems(items, i, XString(""))
    requires after == [End(Data), End(Array), End(Value)] + rest
    ensures ParseArray(lex, EmitItems(lex, items, i) + after, a) ==
            if forall k | i <= k < |items| :: Parseable(items[k])
            then Ok(XArray(ForgetItems(items, |items|, XString(""))), rest) else Err
    decreases items, 0, |items| - i
  {
    hide Lawful, ParseArray, ParseValue, Emit, Parseable, Forget;
    if i == |items| {
      assert EmitItems(lex, items, i) + after == after;
      ArrayEnds(lex, a, rest);
    } else {
      var tail := EmitItems(lex, items, i + 1) + after;
      ValueRoundTrip(lex, items[i], tail);
      assert EmitItems(lex, items, i) + after == [Start(Value)] + (Emit(lex, items[i]) + [End(Value)] + tail);
      ArrayValue(lex, Emit(lex, items[i]) + [End(Value)] + tail, a);
      if Parseable(items[i]) {
        ItemsRoundTrip(lex, items, i + 1, after, a + [Forget(items[i], XString(""))], rest);
      }
    }
  }

  lemma ArrayValue(lex: Lexicon, toks: seq<Token>, a: seq<XValue>)
    ensures var r := ParseValue(lex, toks);
            ParseArray(lex, [Start(Value)] + toks, a) == if r.Ok? then ParseArray(lex, r.rest, a + [r.val]) else Err
  {
  }

  lemma ArrayEnds(lex: Lexicon, a: seq<XValue>, rest: seq<Token>)
    ensures ParseArray(lex, [End(Data), End(Array), End(Value)] + rest, a) == Ok(XArray(a), rest)
  {
  }

  // ---------------------------------------------------------------- structs

  lemma {:induction false} MembersRoundTrip(lex: Lexicon, members: seq<Entry>, i: nat, after: seq<Token>,
                                            m: map<string, XValue>, name: string, value: XValue, rest: seq<Token>)
    requires Lawful(lex) && i <= |members| && m == ForgetMembers(members, i, XString(""))
    requires after == [End(Struct), End(Value)] + rest
    ensures ParseStruct(lex, EmitMembers(lex, members, i) + after, m, name, value) ==
            if forall k | i <= k < |members| :: members[k].key != "" && Parseable(members[k].value)
            then Ok(XStruct(ForgetMembers(members, |members|, XString(""))), rest) else Err
    decreases members, 0, |members| - i
  {
    hide Lawful, ParseStruct, EmitMember, Parseable, Forget;
    if i == |members| {
      assert EmitMembers(lex, members, i) + after == after;
      StructEnds(lex, m, name, value, rest);
    } else {
      var e := members[i];
      var tail := EmitMembers(lex, members, i + 1) + after;
      assert EmitMembers(lex, members, i) + after == EmitMember(lex, e) + tail;
      MemberRoundTrip(lex, e, tail, m, name, value);
      if e.key != "" && Parseable(e.value) {
        var v := Forget(e.value, XString(""));
        MembersRoundTrip(lex, members, i + 1, after, m[e.key := v], e.key, v, rest);
      }
    }
  }

  lemma {:induction false} MemberRoundTrip(lex: Lexicon, e: Entry, tail: seq<Token>, m: map<string, XValue>,
                                           name: string, value: XValue)
    requires Lawful(lex)
    ensures var v := Forget(e.value, XString(""));
            ParseStruct(lex, EmitMember(lex, e) + tail, m, name, value) ==
            if e.key != "" && Parseable(e.value) then ParseStruct(lex, tail, m[e.key := v], e.key, v) else Err
    decreases e, 0
  {
    hide Lawful, ParseStruct, ParseValue, Emit, Parseable, Forget;
    var v := Forget(e.value, XString(""));
    var closing := [End(Member)] + tail;
    var valued := Emit(lex, e.value) + [End(Value)] + closing;
    var named := [End(Name)] + ([Start(Value)] + valued);
    ValueRoundTrip(lex, e.value, closing);
    StructSkips(lex, Start(Member), [Start(Name)] + (Text(e.key) + named), m, name, value);
    assert EmitMember(lex, e) + tail == [Start(Member)] + ([Start(Name)] + (Text(e.key) + named));
    if e.key == "" {
      assert Text(e.key) + named == named;
      StructNoName(lex, [Start(Value)] + valued, m, name, value);
    } else {
      StructName(lex, e.key, named, m, name, value);
      StructSkips(lex, End(Name), [Start(Value)] + valued, m, e.key, value);
      StructValue(lex, valued, m, e.key, value);
      StructMember(lex, tail, m, e.key, v);
    }
  }

  lemma StructSkips(lex: Lexicon, tok: Token, toks: seq<Token>, m: map<string, XValue>, name: string, value: XValue)
    requires tok == Start(Member) || tok == End(Name)
    ensures ParseStruct(lex, [tok] + toks, m, name, value) == ParseStruct(lex, toks, m, name, value)
  {
  }

  lemma StructNoName(lex: Lexicon, toks: seq<Token>, m: map<string, XValue>, name: string, value: XValue)
    ensures ParseStruct(lex, [Start(Name)] + ([End(Name)] + toks), m, name, value) == Err
  {
  }

  lemma StructName(lex: Lexicon, key: string, toks: seq<Token>, m: map<string, XValue>, name: string, value: XValue)
    ensures ParseStruct(lex, [Start(Name)] + ([Chars(key)] + toks), m, name, value) ==
            ParseStruct(lex, toks, m, key, value)
  {
    hide ParseValue;
    assert ([Start(Name)] + ([Chars(key)] + toks))[2..] == toks;
  }

  lemma StructValue(lex: Lexicon, toks: seq<Token>, m: map<string, XValue>, name: string, value: XValue)
    ensures var r := ParseValue(lex, toks);
            ParseStruct(lex, [Start(Value)] + toks, m, name, value) ==
            if r.Ok? then ParseStruct(lex, r.rest, m, name, r.val) else Err
  {
  }

  lemma StructMember(lex: Lexicon, toks: seq<Token>, m: map<string, XValue>, name: string, value: XValue)
    ensures ParseStruct(lex, [End(Member)] + toks, m, name, value) ==
            ParseStruct(lex, toks, m[name := value], name, value)
  {
  }

  lemma StructEnds(lex: Lexicon, m: map<string, XValue>, name: string, value: XValue, rest: seq<Token>)
    ensures ParseStruct(lex, [End(Struct), End(Value)] + rest, m, name, value) == Ok(XStruct(m), rest)
  {
  }

  // ---------------------------------------------------------------- requests

  /** The XML declaration and the newline after it. */
  const Prolog: seq<Token> := [Other, Chars("\n")]

  function EmitRequest(lex: Lexicon, procedure: string, args: seq<Tree>): seq<Token>
  {
    Prolog + [Start(MethodCall), Start(MethodName)] + Text(procedure) + [End(MethodName), Start(Params)]
    + EmitArgs(lex, args, 0) + [End(Params), End(MethodCall)]
  }

  function EmitArgs(lex: Lexicon, args: seq<Tree>, i: nat): seq<Token>
    requires i <= |args|
    decreases |args| - i
  {
    if i == |args| then []
    else [Start(Param), Start(Value)] + Emit(lex, args[i]) + [End(Value), End(Param)] + EmitArgs(lex, args, i + 1)
  }

  /** `Hangs`: the argument loop ignores token errors, so it spins when the document ends early. */
  datatype Request = Request(name: string, args: seq<XValue>, rest: seq<Token>) | Malformed | Hangs

  function ParseRequest(lex: Lexicon, toks: seq<Token>): Request
  {
    var call := ExpectNextTag(toks, MethodCall);
    if call.Err? then Malformed else
    var named := ExpectNextTag(call.rest, MethodName);
    if named.Err? || named.rest == [] then Malformed else
    // any other token is taken for an empty name: the error is overwritten by the next call's
    var name := if named.rest[0].Chars? then named.rest[0].text else "";
    var params := ExpectNextTag(named.rest[1..], Params);
    if params.Err? then Malformed else ParseArgs(lex, params.rest, name, [])
  }

  function ParseArgs(lex: Lexicon, toks: seq<Token>, name: string, args: seq<XValue>): Request
    decreases |toks|
  {
    if toks == [] then Hangs
    else if toks[0] == Start(Value) then
      match ParseValue(lex, toks[1..])
      case Ok(v, rest) => ParseArgs(lex, rest, name, args + [v])
      case Err => Malformed
    else if toks[0] == End(Params) then Request(name, args, Skip(toks[1..], 0))
    else ParseArgs(lex, toks[1..], name, args)
  }

  /** A request of any method name parses back to its name and arguments, exactly when every argument
      is parseable. */
  lemma RequestRoundTrip(lex: Lexicon, procedure: string, args: seq<Tree>, rest: seq<Token>)
    requires Lawful(lex)
    ensures ParseRequest(lex, EmitRequest(lex, procedure, args) + rest) ==
            if forall k | 0 <= k < |args| :: Parseable(args[k])
            then Request(procedure, ForgetItems(args, |args|, XString("")), rest) else Malformed
  {
    hide Lawful, ParseRequest, ParseArgs, EmitRequest, EmitArgs, Parseable, ForgetItems, Text;
    var after := [End(Params), End(MethodCall)] + rest;
    var body := EmitArgs(lex, args, 0) + after;
    var named := Text(procedure) + ([End(MethodName)] + ([Start(Params)] + body));
    RequestShape(lex, procedure, args, rest);
    NameThenArgs(lex, procedure, named, body);
    NoItems(args);
    ArgsRoundTrip(lex, procedure, args, 0, after, [], rest);
  }

  lemma RequestShape(lex: Lexicon, procedure: string, args: seq<Tree>, rest: seq<Token>)
    ensures var body := EmitArgs(lex, args, 0) + ([End(Params), End(MethodCall)] + rest);
            var named := Text(procedure) + ([End(MethodName)] + ([Start(Params)] + body));
            EmitRequest(lex, procedure, args) + rest == Prolog + ([Start(MethodCall)] + ([Start(MethodName)] + named))
  {
    hide EmitArgs, Text;
    var body := EmitArgs(lex, args, 0) + ([End(Params), End(MethodCall)] + rest);
    assert EmitRequest(lex, procedure, args) + rest ==
           Prolog + [Start(MethodCall), Start(MethodName)] + Text(procedure) + [End(MethodName), Start(Params)] + body;
  }

  lemma NameThenArgs(lex: Lexicon, procedure: string, named: seq<Token>, body: seq<Token>)
    requires named == Text(procedure) + ([End(MethodName)] + ([Start(Params)] + body))
    ensures ParseRequest(lex, Prolog + ([Start(MethodCall)] + ([Start(MethodName)] + named))) ==
            ParseArgs(lex, body, procedure, [])
  {
    hide ParseArgs, NextTag;
    PrologSkipped([Start(MethodCall)] + ([Start(MethodName)] + named));
    NextTagFinds(MethodCall, [Start(MethodName)] + named);
    NextTagFinds(MethodName, named);
    NextTagFinds(Params, body);
    var listed := [Start(Params)] + body;
    Cons(End(MethodName), listed);
    if procedure == "" {
      assert named == [End(MethodName)] + listed;
    } else {
      assert named == [Chars(procedure)] + ([End(MethodName)] + listed);
      Cons(Chars(procedure), [End(MethodName)] + listed);
      NextTagSkips(End(MethodName), listed);
    }
  }

  lemma PrologSkipped(toks: seq<Token>)
    ensures NextTag(Prolog + toks) == NextTag(toks)
  {
  }

  lemma NoItems(items: seq<Tree>)
    ensures ForgetItems(items, 0, XString("")) == []
  {
  }

  lemma NextTagSkips(tok: Token, toks: seq<Token>)
    requires !tok.Start?
    ensures NextTag([tok] + toks) == NextTag(toks)
  {
  }

  lemma NextTagFinds(tag: Tag, toks: seq<Token>)
    ensures NextTag([Start(tag)] + toks) == Ok(tag, toks)
  {
  }

  lemma {:induction false} ArgsRoundTrip(lex: Lexicon, name: string, args: seq<Tree>, i: nat, after: seq<Token>,
                                         a: seq<XValue>, rest: seq<Token>)
    requires Lawful(lex) && i <= |args| && a == ForgetItems(args, i, XString(""))
    requires after == [End(Params), End(MethodCall)] + rest
    ensures ParseArgs(lex, EmitArgs(lex, args, i) + after, name, a) ==
            if forall k | i <= k < |args| :: Parseable(args[k])
            then Request(name, ForgetItems(args, |args|, XString("")), rest) else Malformed
    decreases |args| - i
  {
    hide Lawful, ParseArgs, ParseValue, Emit, Parseable, Forget;
    if i == |args| {
      assert EmitArgs(lex, args, i) + after == [End(Params)] + ([End(MethodCall)] + rest);
      ArgsEnd(lex, name, a, rest);
    } else {
      var next := EmitArgs(lex, args, i + 1) + after;
      var tail := [End(Param)] + next;
      ValueRoundTrip(lex, args[i], tail);
      var valued := Emit(lex, args[i]) + [End(Value)] + tail;
      assert EmitArgs(lex, args, i) + after == [Start(Param)] + ([Start(Value)] + valued);
      ArgsSkip(lex, Start(Param), [Start(Value)] + valued, name, a);
      ArgsValue(lex, valued, name, a);
      if Parseable(args[i]) {
        ArgsSkip(lex, End(Param), next, name, a + [Forget(args[i], XString(""))]);
        ArgsRoundTrip(lex, name, args, i + 1, after, a + [Forget(args[i], XString(""))], rest);
      }
    }
  }

  lemma ArgsEnd(lex: Lexicon, name: string, a: seq<XValue>, rest: seq<Token>)
    ensures ParseArgs(lex, [End(Params)] + ([End(MethodCall)] + rest), name, a) == Request(name, a, rest)
  {
  }

  lemma ArgsSkip(lex: Lexicon, tok: Token, toks: seq<Token>, name: string, a: seq<XValue>)
    requires tok == Start(Param) || tok == End(Param)
    ensures ParseArgs(lex, [tok] + toks, name, a) == ParseArgs(lex, toks, name, a)
  {
  }

  lemma ArgsValue(lex: Lexicon, toks: seq<Token>, name: string, a: seq<XValue>)
    ensures var r := ParseValue(lex, toks);
            ParseArgs(lex, [Start(Value)] + toks, name, a) ==
            if r.Ok? then ParseArgs(lex, r.rest, name, a + [r.val]) else Malformed
  {
  }

  // ---------------------------------------------------------------- responses and faults

  function EmitResponse(lex: Lexicon, t: Tree): seq<Token>
  {
    Prolog + [Start(MethodResponse), Start(Params), Start(Param), Start(Value)] + Emit(lex, t)
    + [End(Value), End(Param), End(Params), End(MethodResponse)]
  }

  function EmitFault(lex: Lexicon, t: Tree): seq<Token>
  {
    Prolog + [Start(MethodResponse), Start(Fault), Start(Value)] + Emit(lex, t)
    + [End(Value), End(Fault), End(MethodResponse)]
  }

  datatype Response = Response(ok: bool, result: XValue, rest: seq<Token>) | BadResponse

  function ValueAfterTag(lex: Lexicon, toks: seq<Token>): Parsed<XValue>
  {
    var value := ExpectNextTag(toks, Value);
    if value.Err? then Err else ParseValue(lex, value.rest)
  }

  function ParseResponse(lex: Lexicon, toks: seq<Token>): Response
  {
    var outer := ExpectNextTag(toks, MethodResponse);
    if outer.Err? then BadResponse else
    var kind := NextTag(outer.rest);
    if kind.Err? then BadResponse
    else if kind.val == Params then
      var param := ExpectNextTag(kind.rest, Param);
      if param.Err? then BadResponse else
      match ValueAfterTag(lex, param.rest)
      case Ok(v, rest) => Response(true, v, Skip(Skip(Skip(rest, 0), 0), 0))
      case Err => BadResponse
    else if kind.val == Fault then
      match ValueAfterTag(lex, kind.rest)
      case Ok(v, rest) => Response(false, v, Skip(Skip(rest, 0), 0))
      case Err => BadResponse
    else BadResponse
  }

  lemma ResponseRoundTrip(lex: Lexicon, t: Tree, rest: seq<Token>)
    requires Lawful(lex)
    ensures ParseResponse(lex, EmitResponse(lex, t) + rest) ==
            if Parseable(t) then Response(true, Forget(t, XString("")), rest) else BadResponse
  {
    hide Lawful, ParseValue, Emit, Parseable, Forget, NextTag, Skip;
    var after := [End(Param)] + ([End(Params)] + ([End(MethodResponse)] + rest));
    var value := [Start(Value)] + (Emit(lex, t) + [End(Value)] + after);
    var param := [Start(Param)] + value;
    var params := [Start(Params)] + param;
    assert EmitResponse(lex, t) + rest == Prolog + ([Start(MethodResponse)] + params);
    PrologSkipped([Start(MethodResponse)] + params);
    NextTagFinds(MethodResponse, params);
    NextTagFinds(Params, param);
    NextTagFinds(Param, value);
    NextTagFinds(Value, Emit(lex, t) + [End(Value)] + after);
    ValueRoundTrip(lex, t, after);
    SkipEnd(Param, [End(Params)] + ([End(MethodResponse)] + rest));
    SkipEnd(Params, [End(MethodResponse)] + rest);
    SkipEnd(MethodResponse, rest);
  }

  lemma SkipEnd(tag: Tag, toks: seq<Token>)
    ensures Skip([End(tag)] + toks, 0) == toks
  {
  }

  lemma FaultRoundTrip(lex: Lexicon, t: Tree, rest: seq<Token>)
    requires Lawful(lex)
    ensures ParseResponse(lex, EmitFault(lex, t) + rest) ==
            if Parseable(t) then Response(false, Forget(t, XString("")), rest) else BadResponse
  {
    hide Lawful, ParseValue, Emit, NextTag, Parseable, Forget, Skip;
    var after := [End(Fault)] + ([End(MethodResponse)] + rest);
    var value := [Start(Value)] + (Emit(lex, t) + [End(Value)] + after);
    var fault := [Start(Fault)] + value;
    assert EmitFault(lex, t) + rest == Prolog + ([Start(MethodResponse)] + fault);
    PrologSkipped([Start(MethodResponse)] + fault);
    NextTagFinds(MethodResponse, fault);
    NextTagFinds(Fault, value);
    NextTagFinds(Value, Emit(lex, t) + [End(Value)] + after);
    ValueRoundTrip(lex, t, after);
    SkipEnd(Fault, [End(MethodResponse)] + rest);
    SkipEnd(MethodResponse, rest);
  }
}
