/** The XML-RPC emitter and parser as they run: a growing buffer, and a decoder that is advanced. */
module XmlRpcLoops {
  import opened Basics
  import opened XmlRpc

  // ---------------------------------------------------------------- emitting

  class TokenBuffer {
    var toks: seq<Token>

    constructor ()
      ensures toks == []
    {
      toks := [];
    }

    method Write(ts: seq<Token>)
      modifies this
      ensures toks == old(toks) + ts
    {
      toks := toks + ts;
    }
  }

  /** Entries with distinct keys: an iteration order of some map. */
  ghost predicate Distinct(members: seq<Entry>)
  {
    forall i, j | 0 <= i < j < |members| :: members[i].key != members[j].key
  }

  /** A tree all of whose structs list distinct keys. */
  ghost predicate Ordered(t: Tree)
    decreases t
  {
    match t
    case TArray(items) => forall x <- items :: Ordered(x)
    case TStruct(members) => Distinct(members) && forall e <- members :: Ordered(e.value)
    case _ => true
  }

  /** Emits `v`, visiting each map in whatever order MapKeys gives; `t` records the orders taken. */
  method EmitValue(lex: Lexicon, v: XValue, buf: TokenBuffer) returns (ghost t: Tree)
    modifies buf
    ensures Ordered(t) && Forget(t, XNil) == v
    ensures buf.toks == old(buf.toks) + Emit(lex, t)
    decreases v, 1
  {
    hide EmitItems, EmitMembers, ForgetItems, ForgetMembers, Leaf;
    match v
    case XNil => t := TNil;
    case XBool(b) =>
      t := TBool(b);
      buf.Write(Leaf(Boolean, if b then "1" else "0"));
    case XInt(i) =>
      t := TInt(i);
      buf.Write(Leaf(Int, lex.formatInt(i)));
    case XDouble(d) =>
      t := TDouble(d);
      buf.Write(Leaf(Double, lex.formatDouble(d)));
    case XString(s) =>
      t := TString(s);
      buf.Write(Leaf(String, s));
    case XBytes(b) =>
      t := TBytes(b);
      buf.Write(Leaf(Base64, lex.encode64(b)));
    case XArray(items) =>
      buf.Write([Start(Array), Start(Data)]);
      ghost var ts := EmitElements(lex, items, buf);
      t := TArray(ts);
      buf.Write([End(Data), End(Array)]);
    case XStruct(members) =>
      buf.Write([Start(Struct)]);
      ghost var es := EmitEntries(lex, v, buf);
      t := TStruct(es);
      buf.Write([End(Struct)]);
  }

  lemma {:induction false} EmitItemsNext(lex: Lexicon, items: seq<Tree>, x: Tree, i: nat)
    requires i <= |items|
    ensures EmitItems(lex, items + [x], i) == EmitItems(lex, items, i) + [Start(Value)] + Emit(lex, x) + [End(Value)]
    decreases |items| - i
  {
    hide Emit;
    if i < |items| {
      EmitItemsNext(lex, items, x, i + 1);
    } else {
      assert EmitItems(lex, items + [x], i + 1) == [];
    }
  }

  lemma {:induction false} EmitMembersNext(lex: Lexicon, members: seq<Entry>, e: Entry, i: nat)
    requires i <= |members|
    ensures EmitMembers(lex, members + [e], i) == EmitMembers(lex, members, i) + EmitMember(lex, e)
    decreases |members| - i
  {
    hide EmitMember;
    if i < |members| {
      EmitMembersNext(lex, members, e, i + 1);
    } else {
      assert EmitMembers(lex, members + [e], i + 1) == [];
    }
  }

  lemma {:induction false} ForgetItemsPrefix(items: seq<Tree>, x: Tree, n: nat, nil: XValue)
    requires n <= |items|
    ensures ForgetItems(items + [x], n, nil) == ForgetItems(items, n, nil)
  {
    if n > 0 {
      ForgetItemsPrefix(items, x, n - 1, nil);
    }
  }

  lemma {:induction false} ForgetMembersPrefix(members: seq<Entry>, e: Entry, n: nat, nil: XValue)
    requires n <= |members|
    ensures ForgetMembers(members + [e], n, nil) == ForgetMembers(members, n, nil)
  {
    if n > 0 {
      ForgetMembersPrefix(members, e, n - 1, nil);
    }
  }

  lemma ForgetItemsNext(items: seq<Tree>, x: Tree, nil: XValue)
    ensures ForgetItems(items + [x], |items| + 1, nil) == ForgetItems(items, |items|, nil) + [Forget(x, nil)]
  {
    hide Forget;
    ForgetItemsPrefix(items, x, |items|, nil);
  }

  lemma ForgetMembersNext(members: seq<Entry>, e: Entry, nil: XValue)
    ensures ForgetMembers(members + [e], |members| + 1, nil) ==
            ForgetMembers(members, |members|, nil)[e.key := Forget(e.value, nil)]
  {
    hide Forget;
    ForgetMembersPrefix(members, e, |members|, nil);
  }

  lemma NothingEmitted(lex: Lexicon)
    ensures EmitItems(lex, [], 0) == [] && EmitMembers(lex, [], 0) == []
    ensures ForgetItems([], 0, XNil) == [] && ForgetMembers([], 0, XNil) == map[]
  {
  }

  method EmitElements(lex: Lexicon, items: seq<XValue>, buf: TokenBuffer) returns (ghost ts: seq<Tree>)
    modifies buf
    ensures |ts| == |items| && (forall x <- ts :: Ordered(x)) && ForgetItems(ts, |ts|, XNil) == items
    ensures buf.toks == old(buf.toks) + EmitItems(lex, ts, 0)
    decreases items, 0
  {
    hide EmitItems, ForgetItems, Ordered, Emit, Forget;
    NothingEmitted(lex);
    ts := [];
    var i := 0;
    while i < |items|
      invariant i <= |items| && |ts| == i
      invariant (forall x <- ts :: Ordered(x)) && ForgetItems(ts, i, XNil) == items[..i]
      invariant buf.toks == old(buf.toks) + EmitItems(lex, ts, 0)
    {
      buf.Write([Start(Value)]);
      ghost var t := EmitValue(lex, items[i], buf);
      buf.Write([End(Value)]);
      EmitItemsNext(lex, ts, t, 0);
      ForgetItemsNext(ts, t, XNil);
      ts := ts + [t];
      i := i + 1;
    }
    assert items[..i] == items;
  }

  method EmitEntries(lex: Lexicon, v: XValue, buf: TokenBuffer) returns (ghost es: seq<Entry>)
    requires v.XStruct?
    modifies buf
    ensures Distinct(es) && (forall e <- es :: Ordered(e.value)) && ForgetMembers(es, |es|, XNil) == v.members
    ensures buf.toks == old(buf.toks) + EmitMembers(lex, es, 0)
    decreases v, 0
  {
    hide EmitMembers, ForgetMembers, Ordered, Emit, Forget;
    var members := v.members;
    NothingEmitted(lex);
    es := [];
    var keys := members.Keys;
    while keys != {}
      invariant keys <= members.Keys && Distinct(es)
      invariant forall e <- es :: Ordered(e.value) && e.key !in keys
      invariant ForgetMembers(es, |es|, XNil) == members - keys
      invariant buf.toks == old(buf.toks) + EmitMembers(lex, es, 0)
      decreases keys
    {
      var key :| key in keys;
      buf.Write([Start(Member), Start(Name)] + Text(key) + [End(Name), Start(Value)]);
      ghost var t := EmitValue(lex, members[key], buf);
      buf.Write([End(Value), End(Member)]);
      ghost var e := Entry(key, t);
      EmitMembersNext(lex, es, e, 0);
      ForgetMembersNext(es, e, XNil);
      assert (members - keys)[key := members[key]] == members - (keys - {key});
      es, keys := es + [e], keys - {key};
    }
    assert members - keys == members;
  }

  // ---------------------------------------------------------------- parsing

  /** xml.Decoder over a tokenised document. */
  class Decoder {
    const toks: seq<Token>
    var pos: nat

    ghost predicate Valid()
      reads this
    {
      pos <= |toks|
    }

    function Rest(): seq<Token>
      reads this
      requires Valid()
    {
      toks[pos..]
    }

    constructor (toks: seq<Token>)
      ensures Valid() && Rest() == toks
    {
      this.toks := toks;
      pos := 0;
    }

    method Token() returns (t: Option<Token>)
      requires Valid()
      modifies this
      ensures Valid()
      ensures old(Rest()) == [] ==> t.None? && Rest() == []
      ensures old(Rest()) != [] ==> t == Some(old(Rest())[0]) && Rest() == old(Rest())[1..]
    {
      if pos == |toks| {
        t := None;
      } else {
        t := Some(toks[pos]);
        pos := pos + 1;
      }
    }

    method SkipElement()
      requires Valid()
      modifies this
      ensures Valid() && Rest() == Skip(old(Rest()), 0)
    {
      var depth: nat := 0;
      while true
        invariant Valid() && Skip(old(Rest()), 0) == Skip(Rest(), depth)
        decreases |Rest()|
      {
        var t := Token();
        if t.None? {
          return;
        }
        if t.value.Start? {
          depth := depth + 1;
        } else if t.value.End? {
          if depth == 0 {
            return;
          }
          depth := depth - 1;
        }
      }
    }

    method NextStart() returns (tag: Option<Tag>)
      requires Valid()
      modifies this
      ensures Valid()
      ensures var r := NextTag(old(Rest()));
              if r.Ok? then tag == Some(r.val) && Rest() == r.rest else tag.None?
    {
      while true
        invariant Valid() && NextTag(old(Rest())) == NextTag(Rest())
        decreases |Rest()|
      {
        var t := Token();
        if t.None? {
          return None;
        }
        if t.value.Start? {
          return Some(t.value.tag);
        }
      }
    }

    method Parse(lex: Lexicon) returns (v: Option<XValue>)
      requires Valid()
      modifies this
      ensures Valid()
      ensures var r := ParseValue(lex, old(Rest()));
              if r.Ok? then v == Some(r.val) && Rest() == r.rest else v.None?
      decreases |Rest()|, 0
    {
      var t := Token();
      if t.None? {
        return None;
      }
      match t.value
      case Start(tag) => v := ParseTagged(lex, tag);
      case Chars(text) =>
        if Blank(text) {
          v := Parse(lex);
        } else {
          SkipElement();
          v := Some(XString(text));
        }
      case End(_) => v := Some(XString(""));
      case Other => v := None;
    }

    method ParseTagged(lex: Lexicon, tag: Tag) returns (v: Option<XValue>)
      requires Valid()
      modifies this
      ensures Valid()
      ensures var r := ParseElement(lex, tag, old(Rest()));
              if r.Ok? then v == Some(r.val) && Rest() == r.rest else v.None?
      decreases |Rest()|, 2
    {
      if tag == Array {
        var data := NextStart();
        if data != Some(Data) {
          return None;
        }
        v := ParseItems(lex);
      } else if tag == Struct {
        v := ParseMembers(lex);
      } else {
        v := ParseLeaf(lex, tag);
      }
    }

    method ParseLeaf(lex: Lexicon, tag: Tag) returns (v: Option<XValue>)
      requires Valid()
      modifies this
      ensures Valid()
      ensures var r := ParseScalar(lex, tag, old(Rest()));
              if r.Ok? then v == Some(r.val) && Rest() == r.rest else v.None?
    {
      hide ScalarOf;
      var t := Token();
      if t.None? {
        return None;
      }
      if t.value.Chars? {
        v := ScalarOf(lex, tag, t.value.text);
        if v.None? {
          return None;
        }
        SkipElement();
        SkipElement();
      } else if tag == String && t.value == End(String) {
        SkipElement();
        v := Some(XString(""));
      } else {
        v := None;
      }
    }

    method ParseItems(lex: Lexicon) returns (v: Option<XValue>)
      requires Valid()
      modifies this
      ensures Valid()
      ensures var r := ParseArray(lex, old(Rest()), []);
              if r.Ok? then v == Some(r.val) && Rest() == r.rest else v.None?
      decreases |Rest()|, 1
    {
      hide ParseValue;
      var a: seq<XValue> := [];
      while true
        invariant Valid() && |Rest()| <= |old(Rest())|
        invariant ParseArray(lex, old(Rest()), []) == ParseArray(lex, Rest(), a)
        decreases |Rest()|
      {
        var t := Token();
        if t.None? {
          return None;
        }
        if t.value == Start(Value) {
          var x := Parse(lex);
          if x.None? {
            return None;
          }
          a := a + [x.value];
        } else if t.value == End(Array) {
          SkipElement();
          return Some(XArray(a));
        }
      }
    }

    method ParseMembers(lex: Lexicon) returns (v: Option<XValue>)
      requires Valid()
      modifies this
      ensures Valid()
      ensures var r := ParseStruct(lex, old(Rest()), map[], "", XNil);
              if r.Ok? then v == Some(r.val) && Rest() == r.rest else v.None?
      decreases |Rest()|, 1
    {
      hide ParseValue;
      var m: map<string, XValue> := map[];
      var name, value := "", XNil;
      while true
        invariant Valid() && |Rest()| <= |old(Rest())|
        invariant ParseStruct(lex, old(Rest()), map[], "", XNil) == ParseStruct(lex, Rest(), m, name, value)
        decreases |Rest()|
      {
        ghost var before := Rest();
        var t := Token();
        if t.None? {
          return None;
        }
        if t.value == Start(Name) {
          var text := Token();
          if text.None? || !text.value.Chars? {
            return None;
          }
          assert before[1..][1..] == before[2..];
          name := text.value.text;
        } else if t.value == Start(Value) {
          var x := Parse(lex);
          if x.None? {
            return None;
          }
          value := x.value;
        } else if t.value == End(Member) {
          m := m[name := value];
        } else if t.value == End(Struct) {
          SkipElement();
          return Some(XStruct(m));
        }
      }
    }

    method ExpectStart(tag: Tag) returns (ok: bool)
      requires Valid()
      modifies this
      ensures Valid()
      ensures var r := ExpectNextTag(old(Rest()), tag);
              ok == r.Ok? && (ok ==> Rest() == r.rest)
    {
      var found := NextStart();
      ok := found == Some(tag);
    }

    /** parseRequest. Its argument loop goes on asking a finished decoder for tokens; `Hangs` says so. */
    method ReadRequest(lex: Lexicon) returns (r: Request)
      requires Valid()
      modifies this
      ensures Valid() && r == ParseRequest(lex, old(Rest()))
    {
      hide ParseValue, NextTag, Skip;
      var ok := ExpectStart(MethodCall);
      if !ok {
        return Malformed;
      }
      ok := ExpectStart(MethodName);
      if !ok {
        return Malformed;
      }
      var t := Token();
      if t.None? {
        return Malformed;
      }
      var name := if t.value.Chars? then t.value.text else "";
      ok := ExpectStart(Params);
      if !ok {
        return Malformed;
      }
      var args: seq<XValue> := [];
      while true
        invariant Valid() && ParseRequest(lex, old(Rest())) == ParseArgs(lex, Rest(), name, args)
        decreases |Rest()|
      {
        t := Token();
        if t.None? {
          return Hangs;
        }
        if t.value == Start(Value) {
          var x := Parse(lex);
          if x.None? {
            return Malformed;
          }
          args := args + [x.value];
        } else if t.value == End(Params) {
          SkipElement();
          return Request(name, args, Rest());
        }
      }
    }

    method ReadValue(lex: Lexicon) returns (v: Option<XValue>)
      requires Valid()
      modifies this
      ensures Valid()
      ensures var r := ValueAfterTag(lex, old(Rest()));
              if r.Ok? then v == Some(r.val) && Rest() == r.rest else v.None?
    {
      hide ParseValue, ExpectNextTag;
      var ok := ExpectStart(Value);
      if !ok {
        return None;
      }
      v := Parse(lex);
    }

    method ReadResponse(lex: Lexicon) returns (r: Response)
      requires Valid()
      modifies this
      ensures Valid() && r == ParseResponse(lex, old(Rest()))
    {
      hide ParseValue, NextTag, Skip, ExpectNextTag, ValueAfterTag;
      var ok := ExpectStart(MethodResponse);
      if !ok {
        return BadResponse;
      }
      var kind := NextStart();
      if kind == Some(Params) {
        ok := ExpectStart(Param);
        if !ok {
          return BadResponse;
        }
      } else if kind != Some(Fault) {
        return BadResponse;
      }
      var v := ReadValue(lex);
      if v.None? {
        return BadResponse;
      }
      SkipElement();
      SkipElement();
      if kind == Some(Params) {
        SkipElement();
      }
      r := Response(kind == Some(Params), v.value, Rest());
    }
  }
}
