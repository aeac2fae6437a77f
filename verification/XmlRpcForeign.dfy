/** Values as any implementation may write them: untyped strings, both integer tags, white space between the
    tags. The parser is compared with what such a document means. */
module XmlRpcForeign {
  import opened Basics
  import opened XmlRpc

  /** What stands between `<value>` and `</value>`. */
  datatype Doc =
    | Empty
    | Untyped(text: string)
    | Scalar(tag: Tag, text: string)
    | List(items: seq<Doc>)
    | Record(members: seq<Pair>)

  datatype Pair = Pair(key: string, value: Doc)

  /** The tokens in front of `tail`, with the same white space wherever tags may be set apart. */
  function Put(doc: Doc, w: string, tail: seq<Token>): seq<Token>
    decreases doc, 0
  {
    match doc
    case Empty => Text(w) + tail
    case Untyped(text) => [Chars(text)] + tail
    case Scalar(tag, text) => Text(w) + ([Start(tag)] + (Text(text) + ([End(tag)] + (Text(w) + tail))))
    case List(items) =>
      Text(w) + ([Start(Array)] + (Text(w) + ([Start(Data)] + (Text(w) + PutItems(items, 0, w, ListEnd(w, tail))))))
    case Record(members) =>
      Text(w) + ([Start(Struct)] + (Text(w) + PutMembers(members, 0, w, [End(Struct)] + (Text(w) + tail))))
  }

  function ListEnd(w: string, tail: seq<Token>): seq<Token>
  {
    [End(Data)] + (Text(w) + ([End(Array)] + (Text(w) + tail)))
  }

  function PutItems(items: seq<Doc>, i: nat, w: string, tail: seq<Token>): seq<Token>
    requires i <= |items|
    decreases items, |items| - i
  {
    if i == |items| then tail
    else [Start(Value)] + Put(items[i], w, [End(Value)] + (Text(w) + PutItems(items, i + 1, w, tail)))
  }

  function PutMembers(members: seq<Pair>, i: nat, w: string, tail: seq<Token>): seq<Token>
    requires i <= |members|
    decreases members, |members| - i
  {
    if i == |members| then tail else PutMember(members[i], w, PutMembers(members, i + 1, w, tail))
  }

  function PutMember(p: Pair, w: string, tail: seq<Token>): seq<Token>
    decreases p
  {
    [Start(Member)] + (Text(w) + ([Start(Name)] + (Text(p.key) + ([End(Name)] + (Text(w) + ([Start(Value)] +
    Put(p.value, w, [End(Value)] + (Text(w) + ([End(Member)] + (Text(w) + tail))))))))))
  }

  /** What the document means, by the name of each tag; None where the parser must refuse it. */
  function Meaning(lex: Lexicon, doc: Doc): Option<XValue>
    decreases doc, 0
  {
    match doc
    case Empty => Some(XString(""))
    case Untyped(text) => Some(XString(text))
    case Scalar(tag, text) =>
      if text != "" then Leaf(lex, tag, text) else if tag == String then Some(XString("")) else None
    case List(items) =>
      (match Items(lex, items, |items|)
       case Some(a) => Some(XArray(a))
       case None => None)
    case Record(members) =>
      (match Members(lex, members, |members|)
       case Some(m) => Some(XStruct(m))
       case None => None)
  }

  function Leaf(lex: Lexicon, tag: Tag, text: string): Option<XValue>
  {
    match tag
    case I4 => if lex.parseInt32(text).Some? then Some(XInt(lex.parseInt32(text).value)) else None
    case Int => if lex.parseInt32(text).Some? then Some(XInt(lex.parseInt32(text).value)) else None
    case Boolean =>
      if lex.parseInt4(text) == Some(1) then Some(XBool(true))
      else if lex.parseInt4(text) == Some(0) then Some(XBool(false)) else None
    case Double => if lex.parseDouble(text).Some? then Some(XDouble(lex.parseDouble(text).value)) else None
    case String => Some(XString(text))
    case Base64 => if lex.decode64(text).Some? then Some(XBytes(lex.decode64(text).value)) else None
    case _ => None
  }

  function Items(lex: Lexicon, items: seq<Doc>, n: nat): Option<seq<XValue>>
    requires n <= |items|
    decreases items, n
  {
    if n == 0 then Some([])
    else
      match (Items(lex, items, n - 1), Meaning(lex, items[n - 1]))
      case (Some(a), Some(v)) => Some(a + [v])
      case _ => None
  }

  function Members(lex: Lexicon, members: seq<Pair>, n: nat): Option<map<string, XValue>>
    requires n <= |members|
    decreases members, n
  {
    if n == 0 then Some(map[])
    else
      match (Members(lex, members, n - 1), Meaning(lex, members[n - 1].value))
      case (Some(m), Some(v)) => if members[n - 1].key == "" then None else Some(m[members[n - 1].key := v])
      case _ => None
  }

  /** Documents that the syntax allows: untyped text shows something, scalars are scalars. */
  predicate Legal(doc: Doc)
    decreases doc
  {
    match doc
    case Empty => true
    case Untyped(text) => !Blank(text)
    case Scalar(tag, _) => tag != Array && tag != Struct
    case List(items) => forall x <- items :: Legal(x)
    case Record(members) => forall p <- members :: Legal(p.value)
  }

  // ---------------------------------------------------------------- white space

  lemma ValueGap(lex: Lexicon, w: string, toks: seq<Token>)
    requires Blank(w)
    ensures ParseValue(lex, Text(w) + toks) == ParseValue(lex, toks)
  {
    hide ParseElement, Blank;
    if w == "" {
      assert Text(w) + toks == toks;
    } else {
      Cons(Chars(w), toks);
    }
  }

  lemma TagGap(w: string, toks: seq<Token>)
    ensures NextTag(Text(w) + toks) == NextTag(toks)
  {
    if w == "" {
      assert Text(w) + toks == toks;
    } else {
      NextTagSkips(Chars(w), toks);
    }
  }

  lemma SkipGap(w: string, toks: seq<Token>, depth: nat)
    ensures Skip(Text(w) + toks, depth) == Skip(toks, depth)
  {
    if w == "" {
      assert Text(w) + toks == toks;
    } else {
      Cons(Chars(w), toks);
    }
  }

  /** In an array and in a struct, text between the tags is passed over, whatever it is. */
  lemma ArrayGap(lex: Lexicon, w: string, toks: seq<Token>, a: seq<XValue>)
    ensures ParseArray(lex, Text(w) + toks, a) == ParseArray(lex, toks, a)
  {
    hide ParseValue;
    if w == "" {
      assert Text(w) + toks == toks;
    } else {
      Cons(Chars(w), toks);
    }
  }

  lemma StructGap(lex: Lexicon, w: string, toks: seq<Token>, m: map<string, XValue>, name: string, value: XValue)
    ensures ParseStruct(lex, Text(w) + toks, m, name, value) == ParseStruct(lex, toks, m, name, value)
  {
    hide ParseValue;
    if w == "" {
      assert Text(w) + toks == toks;
    } else {
      Cons(Chars(w), toks);
    }
  }

  // ---------------------------------------------------------------- what is read

  function Result<T>(v: Option<T>, rest: seq<Token>): Parsed<T>
  {
    match v
    case Some(x) => Ok(x, rest)
    case None => Err
  }

  /** The parser reads every legal document, however it is spaced, as what it means, and stops just past its
      closing tag; it fails exactly when the document means nothing. */
  lemma {:induction false} DocParses(lex: Lexicon, doc: Doc, w: string, rest: seq<Token>)
    requires Legal(doc) && Blank(w)
    ensures ParseValue(lex, Put(doc, w, [End(Value)] + rest)) == Result(Meaning(lex, doc), rest)
    decreases doc, 1
  {
    hide ParseValue, ParseArray, ParseStruct, ParseElement, ParseScalar, PutItems, PutMembers, Items, Members, Blank,
         Text, Skip;
    match doc
    case Empty =>
      ValueGap(lex, w, [End(Value)] + rest);
      ValueEnds(lex, rest);
    case Untyped(text) => UntypedParses(lex, text, rest);
    case Scalar(tag, text) => ScalarParses(lex, tag, text, w, rest);
    case List(items) =>
      var after := ListEnd(w, [End(Value)] + rest);
      var body := PutItems(items, 0, w, after);
      NoItemsYet(lex, items);
      ItemsParse(lex, items, 0, w, [], rest);
      ArrayGap(lex, w, body, []);
      ListOpens(lex, w, Text(w) + body);
    case Record(members) =>
      var body := PutMembers(members, 0, w, [End(Struct)] + (Text(w) + ([End(Value)] + rest)));
      NoMembersYet(lex, members);
      MembersParse(lex, members, 0, w, map[], "", XNil, rest);
      StructGap(lex, w, body, map[], "", XNil);
      RecordOpens(lex, w, Text(w) + body);
  }

  lemma ValueEnds(lex: Lexicon, rest: seq<Token>)
    ensures ParseValue(lex, [End(Value)] + rest) == Ok(XString(""), rest)
  {
  }

  /** Character data right after the tag is the string itself, white space around it included. */
  lemma UntypedParses(lex: Lexicon, text: string, rest: seq<Token>)
    requires !Blank(text)
    ensures ParseValue(lex, [Chars(text)] + ([End(Value)] + rest)) == Ok(XString(text), rest)
  {
    hide Blank;
    Cons(Chars(text), [End(Value)] + rest);
    SkipEnd(Value, rest);
  }

  lemma NoItemsYet(lex: Lexicon, items: seq<Doc>)
    ensures Items(lex, items, 0) == Some([])
  {
  }

  lemma NoMembersYet(lex: Lexicon, members: seq<Pair>)
    ensures Members(lex, members, 0) == Some(map[])
  {
  }

  lemma ValueElement(lex: Lexicon, w: string, tag: Tag, toks: seq<Token>)
    requires Blank(w)
    ensures ParseValue(lex, Text(w) + ([Start(tag)] + toks)) == ParseElement(lex, tag, toks)
  {
    hide ParseElement, Blank, Text;
    ValueGap(lex, w, [Start(tag)] + toks);
    Cons(Start(tag), toks);
  }

  lemma ScalarParses(lex: Lexicon, tag: Tag, text: string, w: string, rest: seq<Token>)
    requires Blank(w) && tag != Array && tag != Struct
    ensures ParseValue(lex, Put(Scalar(tag, text), w, [End(Value)] + rest)) ==
            Result(Meaning(lex, Scalar(tag, text)), rest)
  {
    hide ParseValue, ParseScalar, Blank, Leaf, Text;
    var after := [End(tag)] + (Text(w) + ([End(Value)] + rest));
    ValueElement(lex, w, tag, Text(text) + after);
    if text == "" {
      EmptyScalar(lex, tag, w, rest);
    } else {
      FullScalar(lex, tag, text, w, rest);
    }
  }

  lemma EmptyScalar(lex: Lexicon, tag: Tag, w: string, rest: seq<Token>)
    ensures ParseScalar(lex, tag, Text("") + ([End(tag)] + (Text(w) + ([End(Value)] + rest)))) ==
            if tag == String then Ok(XString(""), rest) else Err
  {
    hide Skip;
    var after := Text(w) + ([End(Value)] + rest);
    assert Text("") + ([End(tag)] + after) == [End(tag)] + after;
    Cons(End(tag), after);
    SkipGap(w, [End(Value)] + rest, 0);
    SkipEnd(Value, rest);
  }

  lemma FullScalar(lex: Lexicon, tag: Tag, text: string, w: string, rest: seq<Token>)
    requires text != "" && tag != Array && tag != Struct
    ensures ParseScalar(lex, tag, Text(text) + ([End(tag)] + (Text(w) + ([End(Value)] + rest)))) ==
            Result(Leaf(lex, tag, text), rest)
  {
    hide Skip;
    var after := [End(tag)] + (Text(w) + ([End(Value)] + rest));
    Cons(Chars(text), after);
    SkipEnd(tag, Text(w) + ([End(Value)] + rest));
    SkipGap(w, [End(Value)] + rest, 0);
    SkipEnd(Value, rest);
  }

  // ---------------------------------------------------------------- arrays

  lemma ListOpens(lex: Lexicon, w: string, body: seq<Token>)
    requires Blank(w)
    ensures ParseValue(lex, Text(w) + ([Start(Array)] + (Text(w) + ([Start(Data)] + body)))) ==
            ParseArray(lex, body, [])
  {
    hide ParseValue, ParseArray, Blank, Text, NextTag;
    ValueElement(lex, w, Array, Text(w) + ([Start(Data)] + body));
    TagGap(w, [Start(Data)] + body);
    NextTagFinds(Data, body);
  }

  lemma {:induction false} ItemsParse(lex: Lexicon, items: seq<Doc>, i: nat, w: string, a: seq<XValue>,
                                      rest: seq<Token>)
    requires (forall x <- items :: Legal(x)) && Blank(w) && i <= |items| && Items(lex, items, i) == Some(a)
    ensures ParseArray(lex, PutItems(items, i, w, ListEnd(w, [End(Value)] + rest)), a) ==
            match Items(lex, items, |items|)
            case Some(all) => Ok(XArray(all), rest)
            case None => Err
    decreases items, 0, |items| - i
  {
    hide ParseArray, ParseValue, Put, Blank, Text, Meaning, Legal;
    var after := ListEnd(w, [End(Value)] + rest);
    if i == |items| {
      ListCloses(lex, w, a, rest);
    } else {
      var next := PutItems(items, i + 1, w, after);
      DocParses(lex, items[i], w, Text(w) + next);
      ArrayValue(lex, Put(items[i], w, [End(Value)] + (Text(w) + next)), a);
      match Meaning(lex, items[i])
      case Some(v) =>
        ArrayGap(lex, w, next, a + [v]);
        ItemsParse(lex, items, i + 1, w, a + [v], rest);
      case None => ItemsFail(lex, items, i + 1);
    }
  }

  lemma {:induction false} ItemsFail(lex: Lexicon, items: seq<Doc>, i: nat)
    requires i <= |items| && Items(lex, items, i).None?
    ensures Items(lex, items, |items|).None?
    decreases |items| - i
  {
    hide Meaning;
    if i < |items| {
      ItemsFail(lex, items, i + 1);
    }
  }

  lemma ListCloses(lex: Lexicon, w: string, a: seq<XValue>, rest: seq<Token>)
    ensures ParseArray(lex, ListEnd(w, [End(Value)] + rest), a) == Ok(XArray(a), rest)
  {
    hide Text, Skip;
    var last := Text(w) + ([End(Value)] + rest);
    Cons(End(Data), Text(w) + ([End(Array)] + last));
    ArrayGap(lex, w, [End(Array)] + last, a);
    Cons(End(Array), last);
    SkipGap(w, [End(Value)] + rest, 0);
    SkipEnd(Value, rest);
  }

  // ---------------------------------------------------------------- structs

  lemma RecordOpens(lex: Lexicon, w: string, body: seq<Token>)
    requires Blank(w)
    ensures ParseValue(lex, Text(w) + ([Start(Struct)] + body)) == ParseStruct(lex, body, map[], "", XNil)
  {
    hide ParseValue, ParseStruct, Blank, Text;
    ValueElement(lex, w, Struct, body);
  }

  lemma {:induction false} MembersParse(lex: Lexicon, members: seq<Pair>, i: nat, w: string, m: map<string, XValue>,
                                        name: string, value: XValue, rest: seq<Token>)
    requires (forall p <- members :: Legal(p.value)) && Blank(w) && i <= |members|
    requires Members(lex, members, i) == Some(m)
    ensures ParseStruct(lex, PutMembers(members, i, w, [End(Struct)] + (Text(w) + ([End(Value)] + rest))), m, name,
                        value) == match Members(lex, members, |members|)
               case Some(all) => Ok(XStruct(all), rest)
               case None => Err
    decreases members, 0, |members| - i
  {
    hide ParseStruct, PutMember, Blank, Text, Meaning, Legal;
    var after := [End(Struct)] + (Text(w) + ([End(Value)] + rest));
    if i == |members| {
      RecordCloses(lex, w, m, name, value, rest);
    } else {
      var p, next := members[i], PutMembers(members, i + 1, w, after);
      MemberParses(lex, p, w, next, m, name, value);
      if p.key != "" && Meaning(lex, p.value).Some? {
        var v := Meaning(lex, p.value).value;
        MembersParse(lex, members, i + 1, w, m[p.key := v], p.key, v, rest);
      } else {
        MembersFail(lex, members, i + 1);
      }
    }
  }

  lemma {:induction false} MembersFail(lex: Lexicon, members: seq<Pair>, i: nat)
    requires i <= |members| && Members(lex, members, i).None?
    ensures Members(lex, members, |members|).None?
    decreases |members| - i
  {
    hide Meaning;
    if i < |members| {
      MembersFail(lex, members, i + 1);
    }
  }

  lemma RecordCloses(lex: Lexicon, w: string, m: map<string, XValue>, name: string, value: XValue, rest: seq<Token>)
    ensures ParseStruct(lex, [End(Struct)] + (Text(w) + ([End(Value)] + rest)), m, name, value) == Ok(XStruct(m), rest)
  {
    hide Text, Skip, ParseValue;
    Cons(End(Struct), Text(w) + ([End(Value)] + rest));
    SkipGap(w, [End(Value)] + rest, 0);
    SkipEnd(Value, rest);
  }

  lemma {:induction false} MemberParses(lex: Lexicon, p: Pair, w: string, tail: seq<Token>, m: map<string, XValue>,
                                        name: string, value: XValue)
    requires Legal(p.value) && Blank(w)
    ensures ParseStruct(lex, PutMember(p, w, tail), m, name, value) ==
            match Meaning(lex, p.value)
            case Some(v) => if p.key == "" then Err else ParseStruct(lex, tail, m[p.key := v], p.key, v)
            case None => Err
    decreases p, 0
  {
    hide ParseStruct, ParseValue, Put, Blank, Text, Meaning, Legal;
    var closing := Text(w) + ([End(Member)] + (Text(w) + tail));
    var valued := Put(p.value, w, [End(Value)] + closing);
    var named := [End(Name)] + (Text(w) + ([Start(Value)] + valued));
    DocParses(lex, p.value, w, closing);
    StructSkips(lex, Start(Member), Text(w) + ([Start(Name)] + (Text(p.key) + named)), m, name, value);
    StructGap(lex, w, [Start(Name)] + (Text(p.key) + named), m, name, value);
    if p.key == "" {
      NoText(named);
      StructNoName(lex, Text(w) + ([Start(Value)] + valued), m, name, value);
    } else {
      SomeText(p.key, named);
      StructName(lex, p.key, named, m, name, value);
      StructSkips(lex, End(Name), Text(w) + ([Start(Value)] + valued), m, p.key, value);
      StructGap(lex, w, [Start(Value)] + valued, m, p.key, value);
      StructValue(lex, valued, m, p.key, value);
      if Meaning(lex, p.value).Some? {
        var v := Meaning(lex, p.value).value;
        StructGap(lex, w, [End(Member)] + (Text(w) + tail), m, p.key, v);
        StructMember(lex, Text(w) + tail, m, p.key, v);
        StructGap(lex, w, tail, m[p.key := v], p.key, v);
      }
    }
  }

  lemma NoText(toks: seq<Token>)
    ensures Text("") + toks == toks
  {
  }

  lemma SomeText(s: string, toks: seq<Token>)
    requires s != ""
    ensures Text(s) + toks == [Chars(s)] + toks
  {
  }

  // ---------------------------------------------------------------- requests and responses

  /** A call of a method, after the XML declaration. */
  function PutCall(name: string, args: seq<Doc>, w: string, tail: seq<Token>): seq<Token>
  {
    [Start(MethodCall)] + (Text(w) + ([Start(MethodName)] + (Text(name) + ([End(MethodName)] + (Text(w) +
    ([Start(Params)] + (Text(w) + PutArgs(args, 0, w, [End(Params)] + (Text(w) + ([End(MethodCall)] + tail))))))))))
  }

  function PutArgs(args: seq<Doc>, i: nat, w: string, tail: seq<Token>): seq<Token>
    requires i <= |args|
    decreases |args| - i
  {
    if i == |args| then tail
    else
      [Start(Param)] + (Text(w) + ([Start(Value)] + Put(args[i], w, [End(Value)] + (Text(w) + ([End(Param)] + (Text(w) +
      PutArgs(args, i + 1, w, tail)))))))
  }

  function PutReply(result: Doc, w: string, tail: seq<Token>): seq<Token>
  {
    [Start(MethodResponse)] + (Text(w) + ([Start(Params)] + (Text(w) + ([Start(Param)] + (Text(w) + ([Start(Value)] +
    Put(result, w, [End(Value)] + (Text(w) + ([End(Param)] + (Text(w) + ([End(Params)] + (Text(w) +
    ([End(MethodResponse)] + tail)))))))))))))
  }

  function PutFault(result: Doc, w: string, tail: seq<Token>): seq<Token>
  {
    [Start(MethodResponse)] + (Text(w) + ([Start(Fault)] + (Text(w) + ([Start(Value)] +
    Put(result, w, [End(Value)] + (Text(w) + ([End(Fault)] + (Text(w) + ([End(MethodResponse)] + tail)))))))))
  }

  lemma Declared(w: string, toks: seq<Token>)
    ensures NextTag([Other] + (Text(w) + toks)) == NextTag(toks)
  {
    hide Text;
    NextTagSkips(Other, Text(w) + toks);
    TagGap(w, toks);
  }

  lemma TagAfter(w: string, tag: Tag, toks: seq<Token>)
    ensures NextTag(Text(w) + ([Start(tag)] + toks)) == Ok(tag, toks)
  {
    hide Text, NextTag;
    TagGap(w, [Start(tag)] + toks);
    NextTagFinds(tag, toks);
  }

  /** The request parser reads every such call, however it is spaced: name and arguments exactly when each
      argument means something. */
  lemma CallParses(lex: Lexicon, name: string, args: seq<Doc>, u: string, w: string, rest: seq<Token>)
    requires (forall x <- args :: Legal(x)) && Blank(w)
    ensures ParseRequest(lex, [Other] + (Text(u) + PutCall(name, args, w, rest))) ==
            match Items(lex, args, |args|)
            case Some(values) => Request(name, values, rest)
            case None => Malformed
  {
    hide ParseRequest, ParseArgs, PutArgs, Items, Legal, Blank, Text, NextTag;
    var body := PutArgs(args, 0, w, [End(Params)] + (Text(w) + ([End(MethodCall)] + rest)));
    var listed := Text(w) + ([Start(Params)] + (Text(w) + body));
    CallOpens(lex, name, u, w, Text(w) + body);
    NoItemsYet(lex, args);
    ArgsGap(lex, w, body, name, []);
    ArgsParse(lex, name, args, 0, w, [], rest);
  }

  lemma CallOpens(lex: Lexicon, name: string, u: string, w: string, body: seq<Token>)
    ensures ParseRequest(lex, [Other] + (Text(u) + ([Start(MethodCall)] + (Text(w) + ([Start(MethodName)] +
            (Text(name) + ([End(MethodName)] + (Text(w) + ([Start(Params)] + body))))))))) ==
            ParseArgs(lex, body, name, [])
  {
    hide ParseArgs, NextTag;
    var listed := Text(w) + ([Start(Params)] + body);
    var named := Text(name) + ([End(MethodName)] + listed);
    var call := [Start(MethodCall)] + (Text(w) + ([Start(MethodName)] + named));
    Declared(u, call);
    NextTagFinds(MethodCall, Text(w) + ([Start(MethodName)] + named));
    TagAfter(w, MethodName, named);
    TagAfter(w, Params, body);
    if name == "" {
      NoText([End(MethodName)] + listed);
      Cons(End(MethodName), listed);
    } else {
      SomeText(name, [End(MethodName)] + listed);
      Cons(Chars(name), [End(MethodName)] + listed);
      NextTagSkips(End(MethodName), listed);
    }
  }

  lemma ArgsGap(lex: Lexicon, w: string, toks: seq<Token>, name: string, a: seq<XValue>)
    ensures ParseArgs(lex, Text(w) + toks, name, a) == ParseArgs(lex, toks, name, a)
  {
    hide ParseValue;
    if w == "" {
      NoText(toks);
    } else {
      Cons(Chars(w), toks);
    }
  }

  lemma {:induction false} ArgsParse(lex: Lexicon, name: string, args: seq<Doc>, i: nat, w: string, a: seq<XValue>,
                                     rest: seq<Token>)
    requires (forall x <- args :: Legal(x)) && Blank(w) && i <= |args| && Items(lex, args, i) == Some(a)
    ensures ParseArgs(lex, PutArgs(args, i, w, [End(Params)] + (Text(w) + ([End(MethodCall)] + rest))), name, a) ==
            match Items(lex, args, |args|)
            case Some(values) => Request(name, values, rest)
            case None => Malformed
    decreases |args| - i
  {
    hide ParseArgs, ParseValue, Put, Blank, Text, Meaning, Legal;
    var after := [End(Params)] + (Text(w) + ([End(MethodCall)] + rest));
    if i == |args| {
      CallCloses(lex, name, w, a, rest);
    } else {
      OneArg(lex, args[i], w, PutArgs(args, i + 1, w, after), name, a);
      match Meaning(lex, args[i])
      case Some(v) => ArgsParse(lex, name, args, i + 1, w, a + [v], rest);
      case None => ItemsFail(lex, args, i + 1);
    }
  }

  lemma OneArg(lex: Lexicon, arg: Doc, w: string, next: seq<Token>, name: string, a: seq<XValue>)
    requires Legal(arg) && Blank(w)
    ensures ParseArgs(lex, [Start(Param)] + (Text(w) + ([Start(Value)] +
              Put(arg, w, [End(Value)] + (Text(w) + ([End(Param)] + (Text(w) + next)))))), name, a) ==
            match Meaning(lex, arg)
            case Some(v) => ParseArgs(lex, next, name, a + [v])
            case None => Malformed
  {
    hide ParseArgs, ParseValue, Put, Blank, Text, Meaning, Legal;
    var closing := Text(w) + ([End(Param)] + (Text(w) + next));
    DocParses(lex, arg, w, closing);
    var valued := Put(arg, w, [End(Value)] + closing);
    ArgsSkip(lex, Start(Param), Text(w) + ([Start(Value)] + valued), name, a);
    ArgsGap(lex, w, [Start(Value)] + valued, name, a);
    ArgsValue(lex, valued, name, a);
    if Meaning(lex, arg).Some? {
      var v := Meaning(lex, arg).value;
      ArgsGap(lex, w, [End(Param)] + (Text(w) + next), name, a + [v]);
      ArgsSkip(lex, End(Param), Text(w) + next, name, a + [v]);
      ArgsGap(lex, w, next, name, a + [v]);
    }
  }

  lemma CallCloses(lex: Lexicon, name: string, w: string, a: seq<XValue>, rest: seq<Token>)
    ensures ParseArgs(lex, [End(Params)] + (Text(w) + ([End(MethodCall)] + rest)), name, a) == Request(name, a, rest)
  {
    hide ParseValue, Text, Skip;
    Cons(End(Params), Text(w) + ([End(MethodCall)] + rest));
    SkipGap(w, [End(MethodCall)] + rest, 0);
    SkipEnd(MethodCall, rest);
  }

  lemma SkipPast(w: string, tag: Tag, toks: seq<Token>)
    ensures Skip(Text(w) + ([End(tag)] + toks), 0) == toks
  {
    hide Text, Skip;
    SkipGap(w, [End(tag)] + toks, 0);
    SkipEnd(tag, toks);
  }

  /** And the response parser every reply and every fault. */
  lemma ReplyParses(lex: Lexicon, result: Doc, u: string, w: string, rest: seq<Token>)
    requires Legal(result) && Blank(w)
    ensures ParseResponse(lex, [Other] + (Text(u) + PutReply(result, w, rest))) ==
            match Meaning(lex, result)
            case Some(v) => Response(true, v, rest)
            case None => BadResponse
  {
    hide ParseValue, Put, Legal, Blank, Text, NextTag, Skip, Meaning;
    var after := Text(w) + ([End(Param)] + (Text(w) + ([End(Params)] + (Text(w) + ([End(MethodResponse)] + rest)))));
    var valued := Put(result, w, [End(Value)] + after);
    var param := Text(w) + ([Start(Value)] + valued);
    var params := Text(w) + ([Start(Param)] + param);
    var kind := Text(w) + ([Start(Params)] + params);
    Declared(u, [Start(MethodResponse)] + kind);
    NextTagFinds(MethodResponse, kind);
    TagAfter(w, Params, params);
    TagAfter(w, Param, param);
    TagAfter(w, Value, valued);
    DocParses(lex, result, w, after);
    SkipPast(w, Param, Text(w) + ([End(Params)] + (Text(w) + ([End(MethodResponse)] + rest))));
    SkipPast(w, Params, Text(w) + ([End(MethodResponse)] + rest));
    SkipPast(w, MethodResponse, rest);
  }

  lemma FaultParses(lex: Lexicon, result: Doc, u: string, w: string, rest: seq<Token>)
    requires Legal(result) && Blank(w)
    ensures ParseResponse(lex, [Other] + (Text(u) + PutFault(result, w, rest))) ==
            match Meaning(lex, result)
            case Some(v) => Response(false, v, rest)
            case None => BadResponse
  {
    hide ParseValue, Put, Legal, Blank, Text, NextTag, Skip, Meaning;
    var after := Text(w) + ([End(Fault)] + (Text(w) + ([End(MethodResponse)] + rest)));
    var valued := Put(result, w, [End(Value)] + after);
    var fault := Text(w) + ([Start(Value)] + valued);
    var kind := Text(w) + ([Start(Fault)] + fault);
    Declared(u, [Start(MethodResponse)] + kind);
    NextTagFinds(MethodResponse, kind);
    TagAfter(w, Fault, fault);
    TagAfter(w, Value, valued);
    DocParses(lex, result, w, after);
    SkipPast(w, Fault, Text(w) + ([End(MethodResponse)] + rest));
    SkipPast(w, MethodResponse, rest);
  }

  // ---------------------------------------------------------------- what is skipped

  /** Skipping passes over whole elements, however deep. */
  lemma {:induction false} SkipDoc(doc: Doc, w: string, tail: seq<Token>, depth: nat)
    ensures Skip(Put(doc, w, tail), depth) == Skip(tail, depth)
    decreases doc, 0
  {
    hide Skip, Text, PutItems, PutMembers;
    match doc
    case Empty => SkipGap(w, tail, depth);
    case Untyped(text) => SkipText(text, tail, depth);
    case Scalar(tag, text) =>
      var after := Text(w) + tail;
      SkipGap(w, [Start(tag)] + (Text(text) + ([End(tag)] + after)), depth);
      SkipStart(tag, Text(text) + ([End(tag)] + after), depth);
      SkipGap(text, [End(tag)] + after, depth + 1);
      SkipClose(tag, after, depth + 1);
      SkipGap(w, tail, depth);
    case List(items) =>
      var closed := Text(w) + tail;
      var after := Text(w) + ([End(Array)] + closed);
      var body := PutItems(items, 0, w, [End(Data)] + after);
      SkipGap(w, [Start(Array)] + (Text(w) + ([Start(Data)] + (Text(w) + body))), depth);
      SkipStart(Array, Text(w) + ([Start(Data)] + (Text(w) + body)), depth);
      SkipGap(w, [Start(Data)] + (Text(w) + body), depth + 1);
      SkipStart(Data, Text(w) + body, depth + 1);
      SkipGap(w, body, depth + 2);
      SkipItems(items, 0, w, [End(Data)] + after, depth + 2);
      SkipClose(Data, after, depth + 2);
      SkipGap(w, [End(Array)] + closed, depth + 1);
      SkipClose(Array, closed, depth + 1);
      SkipGap(w, tail, depth);
    case Record(members) =>
      var closed := Text(w) + tail;
      var body := PutMembers(members, 0, w, [End(Struct)] + closed);
      SkipGap(w, [Start(Struct)] + (Text(w) + body), depth);
      SkipStart(Struct, Text(w) + body, depth);
      SkipGap(w, body, depth + 1);
      SkipMembers(members, 0, w, [End(Struct)] + closed, depth + 1);
      SkipClose(Struct, closed, depth + 1);
      SkipGap(w, tail, depth);
  }

  lemma SkipText(text: string, toks: seq<Token>, depth: nat)
    ensures Skip([Chars(text)] + toks, depth) == Skip(toks, depth)
  {
  }

  lemma SkipStart(tag: Tag, toks: seq<Token>, depth: nat)
    ensures Skip([Start(tag)] + toks, depth) == Skip(toks, depth + 1)
  {
  }

  lemma SkipClose(tag: Tag, toks: seq<Token>, depth: nat)
    ensures Skip([End(tag)] + toks, depth) == if depth == 0 then toks else Skip(toks, depth - 1)
  {
  }

  lemma {:induction false} SkipItems(items: seq<Doc>, i: nat, w: string, tail: seq<Token>, depth: nat)
    requires i <= |items|
    ensures Skip(PutItems(items, i, w, tail), depth) == Skip(tail, depth)
    decreases items, 0, |items| - i
  {
    hide Skip, Text, Put;
    if i < |items| {
      var next := PutItems(items, i + 1, w, tail);
      SkipStart(Value, Put(items[i], w, [End(Value)] + (Text(w) + next)), depth);
      SkipDoc(items[i], w, [End(Value)] + (Text(w) + next), depth + 1);
      SkipClose(Value, Text(w) + next, depth + 1);
      SkipGap(w, next, depth);
      SkipItems(items, i + 1, w, tail, depth);
    }
  }

  lemma {:induction false} SkipMembers(members: seq<Pair>, i: nat, w: string, tail: seq<Token>, depth: nat)
    requires i <= |members|
    ensures Skip(PutMembers(members, i, w, tail), depth) == Skip(tail, depth)
    decreases members, 0, |members| - i
  {
    hide Skip, PutMember;
    if i < |members| {
      SkipMember(members[i], w, PutMembers(members, i + 1, w, tail), depth);
      SkipMembers(members, i + 1, w, tail, depth);
    }
  }

  lemma {:induction false} SkipMember(p: Pair, w: string, tail: seq<Token>, depth: nat)
    ensures Skip(PutMember(p, w, tail), depth) == Skip(tail, depth)
    decreases p, 0
  {
    hide Skip, Text, Put;
    var closed := Text(w) + tail;
    var closing := Text(w) + ([End(Member)] + closed);
    var valued := [Start(Value)] + Put(p.value, w, [End(Value)] + closing);
    var named := [End(Name)] + (Text(w) + valued);
    SkipStart(Member, Text(w) + ([Start(Name)] + (Text(p.key) + named)), depth);
    SkipGap(w, [Start(Name)] + (Text(p.key) + named), depth + 1);
    SkipStart(Name, Text(p.key) + named, depth + 1);
    SkipGap(p.key, named, depth + 2);
    SkipClose(Name, Text(w) + valued, depth + 2);
    SkipGap(w, valued, depth + 1);
    SkipStart(Value, Put(p.value, w, [End(Value)] + closing), depth + 1);
    SkipDoc(p.value, w, [End(Value)] + closing, depth + 2);
    SkipClose(Value, closing, depth + 2);
    SkipGap(w, [End(Member)] + closed, depth + 1);
    SkipClose(Member, closed, depth + 1);
    SkipGap(w, tail, depth);
  }

  /** So what follows untyped text inside a value is dropped, elements and all. */
  lemma MixedContent(lex: Lexicon, text: string, doc: Doc, w: string, rest: seq<Token>)
    requires !Blank(text)
    ensures ParseValue(lex, [Chars(text)] + Put(doc, w, [End(Value)] + rest)) == Ok(XString(text), rest)
  {
    hide Blank, Put, Skip;
    Cons(Chars(text), Put(doc, w, [End(Value)] + rest));
    SkipDoc(doc, w, [End(Value)] + rest, 0);
    SkipEnd(Value, rest);
  }

  // ---------------------------------------------------------------- what is refused

  /** A comment or processing instruction in place of a value, an element of another name, and a document that
      ends where a value should stand are errors. */
  lemma Refused(lex: Lexicon, name: string, toks: seq<Token>)
    ensures ParseValue(lex, [Other] + toks) == Err
    ensures ParseValue(lex, [Start(OtherTag(name))] + toks) == Err
    ensures ParseValue(lex, []) == Err
  {
    Cons(Other, toks);
    Cons(Start(OtherTag(name)), toks);
  }

  predicate From(rest: seq<Token>, toks: seq<Token>)
  {
    forall t <- rest :: t in toks
  }

  lemma FromLater(rest: seq<Token>, toks: seq<Token>, k: nat)
    requires k <= |toks| && From(rest, toks[k..])
    ensures From(rest, toks)
  {
  }

  lemma FromFrom(rest: seq<Token>, middle: seq<Token>, toks: seq<Token>)
    requires From(rest, middle) && From(middle, toks)
    ensures From(rest, toks)
  {
  }

  lemma FromTail(toks: seq<Token>, k: nat)
    requires k <= |toks|
    ensures From(toks[k..], toks)
  {
  }

  /** What is left after a value comes from the same tokens. */
  lemma {:induction false} ValueLeaves(lex: Lexicon, toks: seq<Token>)
    ensures var r := ParseValue(lex, toks); r.Ok? ==> From(r.rest, toks)
    decreases |toks|, 0
  {
    hide ParseElement, Skip, Blank, From;
    if toks != [] {
      FromTail(toks, 1);
      match toks[0]
      case Start(tag) =>
        ElementLeaves(lex, tag, toks[1..]);
        var r := ParseElement(lex, tag, toks[1..]);
        if r.Ok? {
          FromFrom(r.rest, toks[1..], toks);
        }
      case Chars(text) =>
        SkipLeaves(toks[1..], 0);
        FromFrom(Skip(toks[1..], 0), toks[1..], toks);
        ValueLeaves(lex, toks[1..]);
        var r := ParseValue(lex, toks[1..]);
        if r.Ok? {
          FromFrom(r.rest, toks[1..], toks);
        }
      case _ =>
    }
  }

  lemma {:induction false} ElementLeaves(lex: Lexicon, tag: Tag, toks: seq<Token>)
    ensures var r := ParseElement(lex, tag, toks); r.Ok? ==> From(r.rest, toks)
    decreases |toks|, 2
  {
    hide ParseArray, ParseStruct, ParseScalar, NextTag, From;
    match tag
    case Array =>
      TagLeaves(toks);
      var data := ExpectNextTag(toks, Data);
      if data.Ok? {
        ArrayLeaves(lex, data.rest, []);
        var r := ParseArray(lex, data.rest, []);
        if r.Ok? {
          FromFrom(r.rest, data.rest, toks);
        }
      }
    case Struct => StructLeaves(lex, toks, map[], "", XNil);
    case _ => ScalarLeaves(lex, tag, toks);
  }

  lemma ScalarLeaves(lex: Lexicon, tag: Tag, toks: seq<Token>)
    ensures var r := ParseScalar(lex, tag, toks); r.Ok? ==> From(r.rest, toks)
  {
    hide ScalarOf, Skip, From;
    if toks != [] {
      FromTail(toks, 1);
      var once := Skip(toks[1..], 0);
      SkipLeaves(toks[1..], 0);
      FromFrom(once, toks[1..], toks);
      SkipLeaves(once, 0);
      FromFrom(Skip(once, 0), once, toks);
    }
  }

  lemma {:induction false} SkipLeaves(toks: seq<Token>, depth: nat)
    ensures From(Skip(toks, depth), toks)
  {
    hide From;
    if toks == [] {
      FromTail(toks, 0);
    } else {
      FromTail(toks, 1);
      match toks[0]
      case Start(_) =>
        SkipLeaves(toks[1..], depth + 1);
        FromFrom(Skip(toks[1..], depth + 1), toks[1..], toks);
      case End(_) =>
        if depth > 0 {
          SkipLeaves(toks[1..], depth - 1);
          FromFrom(Skip(toks[1..], depth - 1), toks[1..], toks);
        }
      case _ =>
        SkipLeaves(toks[1..], depth);
        FromFrom(Skip(toks[1..], depth), toks[1..], toks);
    }
  }

  lemma {:induction false} TagLeaves(toks: seq<Token>)
    ensures NextTag(toks).Ok? ==> From(NextTag(toks).rest, toks)
  {
    hide From;
    if toks != [] {
      FromTail(toks, 1);
      TagLeaves(toks[1..]);
      if NextTag(toks[1..]).Ok? {
        FromFrom(NextTag(toks[1..]).rest, toks[1..], toks);
      }
    }
  }

  lemma {:induction false} ArrayLeaves(lex: Lexicon, toks: seq<Token>, a: seq<XValue>)
    ensures var r := ParseArray(lex, toks, a); r.Ok? ==> From(r.rest, toks)
    decreases |toks|, 1
  {
    hide ParseValue, Skip, From;
    if toks != [] {
      FromTail(toks, 1);
      if toks[0] == Start(Value) {
        ValueLeaves(lex, toks[1..]);
        var v := ParseValue(lex, toks[1..]);
        if v.Ok? {
          FromFrom(v.rest, toks[1..], toks);
          ArrayLeaves(lex, v.rest, a + [v.val]);
          var r := ParseArray(lex, v.rest, a + [v.val]);
          if r.Ok? {
            FromFrom(r.rest, v.rest, toks);
          }
        }
      } else if toks[0] == End(Array) {
        SkipLeaves(toks[1..], 0);
        FromFrom(Skip(toks[1..], 0), toks[1..], toks);
      } else {
        ArrayLeaves(lex, toks[1..], a);
        var r := ParseArray(lex, toks[1..], a);
        if r.Ok? {
          FromFrom(r.rest, toks[1..], toks);
        }
      }
    }
  }

  lemma {:induction false} StructLeaves(lex: Lexicon, toks: seq<Token>, m: map<string, XValue>, name: string,
                                        value: XValue)
    ensures var r := ParseStruct(lex, toks, m, name, value); r.Ok? ==> From(r.rest, toks)
    decreases |toks|, 1
  {
    hide ParseValue, Skip, From;
    if toks != [] {
      FromTail(toks, 1);
      if toks[0] == Start(Name) {
        if |toks| > 1 && toks[1].Chars? {
          StructLater(lex, toks, 2, m, toks[1].text, value);
        }
      } else if toks[0] == Start(Value) {
        ValueLeaves(lex, toks[1..]);
        var v := ParseValue(lex, toks[1..]);
        if v.Ok? {
          FromFrom(v.rest, toks[1..], toks);
          StructLeaves(lex, v.rest, m, name, v.val);
          var r := ParseStruct(lex, v.rest, m, name, v.val);
          if r.Ok? {
            FromFrom(r.rest, v.rest, toks);
          }
        }
      } else if toks[0] == End(Member) {
        StructLater(lex, toks, 1, m[name := value], name, value);
      } else if toks[0] == End(Struct) {
        SkipLeaves(toks[1..], 0);
        FromFrom(Skip(toks[1..], 0), toks[1..], toks);
      } else {
        StructLater(lex, toks, 1, m, name, value);
      }
    }
  }

  lemma {:induction false} StructLater(lex: Lexicon, toks: seq<Token>, k: nat, m: map<string, XValue>, name: string,
                                       value: XValue)
    requires 0 < k <= |toks|
    ensures var r := ParseStruct(lex, toks[k..], m, name, value); r.Ok? ==> From(r.rest, toks)
    decreases |toks|, 0
  {
    hide ParseStruct, From;
    StructLeaves(lex, toks[k..], m, name, value);
    var r := ParseStruct(lex, toks[k..], m, name, value);
    if r.Ok? {
      FromLater(r.rest, toks, k);
    }
  }

  /** A call whose parameter list is never closed does not make the request parser return a request: it is
      malformed, or the parser spins for ever on the end of the document. */
  lemma {:induction false} UnclosedNeverReturns(lex: Lexicon, toks: seq<Token>, name: string, a: seq<XValue>)
    requires End(Params) !in toks
    ensures !ParseArgs(lex, toks, name, a).Request?
    decreases |toks|
  {
    hide ParseValue, From;
    if toks != [] {
      FromTail(toks, 1);
      StillUnclosed(toks[1..], toks);
      if toks[0] == Start(Value) {
        match ParseValue(lex, toks[1..])
        case Ok(v, rest) =>
          ValueLeaves(lex, toks[1..]);
          StillUnclosed(rest, toks[1..]);
          UnclosedNeverReturns(lex, rest, name, a + [v]);
        case Err =>
      } else {
        UnclosedNeverReturns(lex, toks[1..], name, a);
      }
    }
  }

  lemma StillUnclosed(rest: seq<Token>, toks: seq<Token>)
    requires From(rest, toks) && End(Params) !in toks
    ensures End(Params) !in rest
  {
  }

  /** It spins when a call is cut off between two of its arguments. */
  lemma CutCallHangs(lex: Lexicon, name: string, args: seq<Doc>, u: string, w: string)
    requires (forall x <- args :: Legal(x)) && Blank(w)
    ensures var r := ParseRequest(lex, [Other] + (Text(u) + ([Start(MethodCall)] + (Text(w) + ([Start(MethodName)] +
                     (Text(name) + ([End(MethodName)] + (Text(w) + ([Start(Params)] + PutArgs(args, 0, w, []))))))))));
            r == if Items(lex, args, |args|).Some? then Hangs else Malformed
  {
    hide ParseRequest, ParseArgs, PutArgs, Items, Legal, Blank, Text;
    CallOpens(lex, name, u, w, PutArgs(args, 0, w, []));
    NoItemsYet(lex, args);
    CutArgs(lex, name, args, 0, w, []);
  }

  lemma {:induction false} CutArgs(lex: Lexicon, name: string, args: seq<Doc>, i: nat, w: string, a: seq<XValue>)
    requires (forall x <- args :: Legal(x)) && Blank(w) && i <= |args| && Items(lex, args, i) == Some(a)
    ensures ParseArgs(lex, PutArgs(args, i, w, []), name, a) ==
            if Items(lex, args, |args|).Some? then Hangs else Malformed
    decreases |args| - i
  {
    hide ParseArgs, ParseValue, Put, Blank, Text, Meaning, Legal;
    if i == |args| {
      NothingHangs(lex, name, a);
    } else {
      OneArg(lex, args[i], w, PutArgs(args, i + 1, w, []), name, a);
      match Meaning(lex, args[i])
      case Some(v) => CutArgs(lex, name, args, i + 1, w, a + [v]);
      case None => ItemsFail(lex, args, i + 1);
    }
  }

  lemma NothingHangs(lex: Lexicon, name: string, a: seq<XValue>)
    ensures ParseArgs(lex, [], name, a) == Hangs
  {
  }

  // ---------------------------------------------------------------- what this implementation writes

  /** The document behind a value: one tag for each kind, `1` and `0` for the booleans. */
  function DocOf(lex: Lexicon, t: Tree): Doc
    decreases t
  {
    match t
    case TNil => Empty
    case TBool(b) => Scalar(Boolean, if b then "1" else "0")
    case TInt(i) => Scalar(Int, lex.formatInt(i))
    case TDouble(d) => Scalar(Double, lex.formatDouble(d))
    case TString(s) => Scalar(String, s)
    case TBytes(b) => Scalar(Base64, lex.encode64(b))
    case TArray(items) => List(seq(|items|, i requires 0 <= i < |items| => DocOf(lex, items[i])))
    case TStruct(members) =>
      Record(seq(|members|, i requires 0 <= i < |members| => Pair(members[i].key, DocOf(lex, members[i].value))))
  }

  /** The emitter writes that document, without white space. */
  lemma {:induction false} EmitIsPut(lex: Lexicon, t: Tree, tail: seq<Token>)
    ensures Emit(lex, t) + tail == Put(DocOf(lex, t), "", tail)
    decreases t, 1
  {
    hide Put, EmitItems, EmitMembers, PutItems, PutMembers, Text, XmlRpc.Leaf;
    PutTight(DocOf(lex, t), tail);
    match t
    case TArray(items) =>
      Regroup3([Start(Array), Start(Data)], EmitItems(lex, items, 0), [End(Data), End(Array)], tail);
      var after := [End(Data), End(Array)] + tail;
      EmitIsPutItems(lex, items, DocOf(lex, t).items, 0, after);
      TwoTokens(End(Data), End(Array), tail);
      TwoTokens(Start(Array), Start(Data), EmitItems(lex, items, 0) + after);
    case TStruct(members) =>
      Regroup3([Start(Struct)], EmitMembers(lex, members, 0), [End(Struct)], tail);
      EmitIsPutMembers(lex, members, DocOf(lex, t).members, 0, [End(Struct)] + tail);
    case TNil => assert Emit(lex, t) + tail == tail;
    case _ => LeafTokens(DocOf(lex, t).tag, DocOf(lex, t).text, tail);
  }

  lemma LeafTokens(tag: Tag, text: string, tail: seq<Token>)
    ensures XmlRpc.Leaf(tag, text) + tail == [Start(tag)] + (Text(text) + ([End(tag)] + tail))
  {
    hide Text;
    Regroup3([Start(tag)], Text(text), [End(tag)], tail);
  }

  lemma Regroup3(a: seq<Token>, b: seq<Token>, c: seq<Token>, d: seq<Token>)
    ensures a + b + c + d == a + (b + (c + d))
  {
  }

  /** A document without white space. */
  lemma PutTight(doc: Doc, tail: seq<Token>)
    ensures Put(doc, "", tail) ==
            match doc
            case Empty => tail
            case Untyped(text) => [Chars(text)] + tail
            case Scalar(tag, text) => [Start(tag)] + (Text(text) + ([End(tag)] + tail))
            case List(items) =>
              [Start(Array)] + ([Start(Data)] + PutItems(items, 0, "", [End(Data)] + ([End(Array)] + tail)))
            case Record(members) => [Start(Struct)] + PutMembers(members, 0, "", [End(Struct)] + tail)
  {
    hide PutItems, PutMembers, Text;
    forall toks
      ensures Text("") + toks == toks
    {
      NoText(toks);
    }
  }

  lemma {:induction false} EmitIsPutItems(lex: Lexicon, items: seq<Tree>, docs: seq<Doc>, i: nat, tail: seq<Token>)
    requires i <= |items| == |docs| && forall k | 0 <= k < |items| :: docs[k] == DocOf(lex, items[k])
    ensures EmitItems(lex, items, i) + tail == PutItems(docs, i, "", tail)
    decreases items, 0, |items| - i
  {
    hide Emit, Put, Text, DocOf;
    if i == |items| {
      assert EmitItems(lex, items, i) + tail == tail;
    } else {
      var next := EmitItems(lex, items, i + 1) + tail;
      EmitIsPutItems(lex, items, docs, i + 1, tail);
      EmitIsPut(lex, items[i], [End(Value)] + next);
      NoText(next);
      Regroup([Start(Value)], Emit(lex, items[i]), [End(Value)], EmitItems(lex, items, i + 1), tail);
    }
  }

  lemma {:induction false} EmitIsPutMembers(lex: Lexicon, members: seq<Entry>, pairs: seq<Pair>, i: nat,
                                            tail: seq<Token>)
    requires i <= |members| == |pairs|
    requires forall k | 0 <= k < |members| :: pairs[k] == Pair(members[k].key, DocOf(lex, members[k].value))
    ensures EmitMembers(lex, members, i) + tail == PutMembers(pairs, i, "", tail)
    decreases members, 0, |members| - i
  {
    hide Emit, EmitMember, Put, PutMember, Text, DocOf;
    if i == |members| {
      assert EmitMembers(lex, members, i) + tail == tail;
    } else {
      var next := EmitMembers(lex, members, i + 1) + tail;
      EmitIsPutMembers(lex, members, pairs, i + 1, tail);
      EmitIsPutMember(lex, members[i], next);
      assert EmitMembers(lex, members, i) + tail == EmitMember(lex, members[i]) + next;
    }
  }

  lemma {:induction false} EmitIsPutMember(lex: Lexicon, e: Entry, tail: seq<Token>)
    ensures EmitMember(lex, e) + tail == PutMember(Pair(e.key, DocOf(lex, e.value)), "", tail)
    decreases e, 0
  {
    hide Emit, Put, Text, DocOf;
    var closing := [End(Value)] + ([End(Member)] + tail);
    EmitIsPut(lex, e.value, closing);
    var valued := [Start(Value)] + (Emit(lex, e.value) + closing);
    var named := [Start(Name)] + (Text(e.key) + ([End(Name)] + valued));
    NoText(named);
    NoText(valued);
    NoText([End(Member)] + tail);
    NoText(tail);
    assert EmitMember(lex, e) + tail == [Start(Member)] + named;
  }

  /** Calls, replies and faults: the XML declaration, a newline, and the document. */
  lemma EmitRequestIsPut(lex: Lexicon, procedure: string, args: seq<Tree>, rest: seq<Token>)
    ensures EmitRequest(lex, procedure, args) + rest ==
            [Other, Chars("\n")]
            + PutCall(procedure, seq(|args|, i requires 0 <= i < |args| => DocOf(lex, args[i])), "", rest)
  {
    hide EmitArgs, PutArgs, Text, DocOf;
    var docs := seq(|args|, i requires 0 <= i < |args| => DocOf(lex, args[i]));
    var after := [End(Params)] + ([End(MethodCall)] + rest);
    var body := EmitArgs(lex, args, 0) + after;
    EmitArgsIsPut(lex, args, docs, 0, after);
    var listed := [Start(Params)] + body;
    var named := [Start(MethodName)] + (Text(procedure) + ([End(MethodName)] + listed));
    forall toks
      ensures Text("") + toks == toks
    {
      NoText(toks);
    }
    assert EmitRequest(lex, procedure, args) + rest == [Other, Chars("\n")] + ([Start(MethodCall)] + named);
  }

  lemma {:induction false} EmitArgsIsPut(lex: Lexicon, args: seq<Tree>, docs: seq<Doc>, i: nat, tail: seq<Token>)
    requires i <= |args| == |docs| && forall k | 0 <= k < |args| :: docs[k] == DocOf(lex, args[k])
    ensures EmitArgs(lex, args, i) + tail == PutArgs(docs, i, "", tail)
    decreases |args| - i
  {
    hide Emit, Put, Text, DocOf;
    if i == |args| {
      assert EmitArgs(lex, args, i) + tail == tail;
    } else {
      var next := EmitArgs(lex, args, i + 1) + tail;
      EmitArgsIsPut(lex, args, docs, i + 1, tail);
      Regroup([Start(Param), Start(Value)], Emit(lex, args[i]), [End(Value), End(Param)],
              EmitArgs(lex, args, i + 1), tail);
      var closing := [End(Value), End(Param)] + next;
      TwoTokens(End(Value), End(Param), next);
      TwoTokens(Start(Param), Start(Value), Emit(lex, args[i]) + closing);
      EmitIsPut(lex, args[i], closing);
      NoText([Start(Value)] + (Emit(lex, args[i]) + closing));
      NoText([End(Param)] + next);
      NoText(next);
    }
  }

  lemma Regroup(a: seq<Token>, b: seq<Token>, c: seq<Token>, d: seq<Token>, e: seq<Token>)
    ensures a + b + c + d + e == a + (b + (c + (d + e)))
  {
  }

  lemma TwoTokens(a: Token, b: Token, toks: seq<Token>)
    ensures [a, b] + toks == [a] + ([b] + toks)
  {
  }

  lemma FourTokens(a: Token, b: Token, c: Token, d: Token, toks: seq<Token>)
    ensures [a, b, c, d] + toks == [a] + ([b] + ([c] + ([d] + toks)))
    ensures [a, b, c] + toks == [a] + ([b] + ([c] + toks))
  {
  }

  lemma EmitResponseIsPut(lex: Lexicon, t: Tree, rest: seq<Token>)
    ensures EmitResponse(lex, t) + rest == [Other, Chars("\n")] + PutReply(DocOf(lex, t), "", rest)
  {
    hide Emit, Put, Text, DocOf;
    var opening := [Start(MethodResponse), Start(Params), Start(Param), Start(Value)];
    var closing := [End(Value), End(Param), End(Params), End(MethodResponse)];
    Regroup(Prolog, opening, Emit(lex, t), closing, rest);
    EmitIsPut(lex, t, closing + rest);
    FourTokens(End(Value), End(Param), End(Params), End(MethodResponse), rest);
    FourTokens(Start(MethodResponse), Start(Params), Start(Param), Start(Value), Emit(lex, t) + (closing + rest));
    forall toks
      ensures Text("") + toks == toks
    {
      NoText(toks);
    }
  }

  lemma EmitFaultIsPut(lex: Lexicon, t: Tree, rest: seq<Token>)
    ensures EmitFault(lex, t) + rest == [Other, Chars("\n")] + PutFault(DocOf(lex, t), "", rest)
  {
    hide Emit, Put, Text, DocOf;
    var opening := [Start(MethodResponse), Start(Fault), Start(Value)];
    var closing := [End(Value), End(Fault), End(MethodResponse)];
    Regroup(Prolog, opening, Emit(lex, t), closing, rest);
    EmitIsPut(lex, t, closing + rest);
    FourTokens(End(Value), End(Fault), End(MethodResponse), Other, rest);
    FourTokens(Start(MethodResponse), Start(Fault), Start(Value), Other, Emit(lex, t) + (closing + rest));
    forall toks
      ensures Text("") + toks == toks
    {
      NoText(toks);
    }
  }
}
