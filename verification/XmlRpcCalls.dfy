/** XML-RPC calls end to end: what one side hands to the emitter against what the other side gets from
    the parser, whatever order the maps in between were iterated in. */
module XmlRpcCalls {
  import opened Basics
  import opened XmlRpc
  import opened XmlRpcLoops

  /** The values that survive: 32-bit integers, non-empty byte strings, non-empty keys. */
  predicate Acceptable(v: XValue)
    decreases v
  {
    match v
    case XInt(i) => IsInt32(i)
    case XBytes(b) => b != []
    case XArray(items) => forall x <- items :: Acceptable(x)
    case XStruct(members) => forall k <- members :: k != "" && Acceptable(members[k])
    case _ => true
  }

  /** The value with every nil in it turned into the empty string. */
  function NilAsText(v: XValue): XValue
    decreases v
  {
    match v
    case XNil => XString("")
    case XArray(items) => XArray(seq(|items|, i requires 0 <= i < |items| => NilAsText(items[i])))
    case XStruct(members) => XStruct(map k <- members :: NilAsText(members[k]))
    case _ => v
  }

  lemma {:induction false} ItemsAt(items: seq<Tree>, n: nat, nil: XValue)
    requires n <= |items|
    ensures forall k | 0 <= k < n :: ForgetItems(items, n, nil)[k] == Forget(items[k], nil)
  {
    hide Forget;
    if n > 0 {
      ItemsAt(items, n - 1, nil);
    }
  }

  /** An entry decides its own key. */
  lemma {:induction false} MemberAt(members: seq<Entry>, n: nat, nil: XValue, i: nat)
    requires Distinct(members) && i < n <= |members|
    ensures var m := ForgetMembers(members, n, nil);
            members[i].key in m && m[members[i].key] == Forget(members[i].value, nil)
  {
    hide Forget;
    if i < n - 1 {
      MemberAt(members, n - 1, nil, i);
    }
  }

  lemma {:induction false} EntryOfKey(members: seq<Entry>, n: nat, nil: XValue, k: string) returns (i: nat)
    requires n <= |members| && k in ForgetMembers(members, n, nil)
    ensures i < n && members[i].key == k
  {
    hide Forget;
    if members[n - 1].key == k {
      i := n - 1;
    } else {
      i := EntryOfKey(members, n - 1, nil, k);
    }
  }

  /** The order in which maps were iterated makes no difference to what is read back. */
  lemma {:induction false} OrderForgotten(t: Tree)
    requires Ordered(t)
    ensures Parseable(t) <==> Acceptable(Forget(t, XNil))
    ensures Forget(t, XString("")) == NilAsText(Forget(t, XNil))
    decreases t
  {
    match t
    case TArray(items) =>
      forall x <- items
        ensures Parseable(x) <==> Acceptable(Forget(x, XNil))
        ensures Forget(x, XString("")) == NilAsText(Forget(x, XNil))
      {
        OrderForgotten(x);
      }
      ArrayForgotten(items);
    case TStruct(members) =>
      forall e <- members
        ensures Parseable(e.value) <==> Acceptable(Forget(e.value, XNil))
        ensures Forget(e.value, XString("")) == NilAsText(Forget(e.value, XNil))
      {
        OrderForgotten(e.value);
      }
      StructForgotten(members);
    case _ =>
  }

  lemma ArrayForgotten(items: seq<Tree>)
    requires forall x <- items :: Parseable(x) <==> Acceptable(Forget(x, XNil))
    requires forall x <- items :: Forget(x, XString("")) == NilAsText(Forget(x, XNil))
    ensures Parseable(TArray(items)) <==> Acceptable(Forget(TArray(items), XNil))
    ensures Forget(TArray(items), XString("")) == NilAsText(Forget(TArray(items), XNil))
  {
    hide ForgetItems, Forget, Parseable, Acceptable, NilAsText;
    var back, whole := ForgetItems(items, |items|, XNil), ForgetItems(items, |items|, XString(""));
    ItemsAt(items, |items|, XNil);
    ItemsAt(items, |items|, XString(""));
    ForgetArray(items, XNil);
    ForgetArray(items, XString(""));
    ParseableArray(items);
    assert forall i | 0 <= i < |items| :: items[i] in items;
    TextOfArray(back, whole);
    AcceptableArray(back);
  }

  lemma ForgetArray(items: seq<Tree>, nil: XValue)
    ensures Forget(TArray(items), nil) == XArray(ForgetItems(items, |items|, nil))
  {
  }

  lemma TextOfArray(a: seq<XValue>, b: seq<XValue>)
    requires |a| == |b| && forall i | 0 <= i < |a| :: b[i] == NilAsText(a[i])
    ensures XArray(b) == NilAsText(XArray(a))
  {
    assert b == seq(|a|, i requires 0 <= i < |a| => NilAsText(a[i]));
  }

  lemma AcceptableArray(a: seq<XValue>)
    ensures Acceptable(XArray(a)) <==> forall i | 0 <= i < |a| :: Acceptable(a[i])
  {
  }

  lemma StructForgotten(members: seq<Entry>)
    requires Distinct(members)
    requires forall e <- members :: Parseable(e.value) <==> Acceptable(Forget(e.value, XNil))
    requires forall e <- members :: Forget(e.value, XString("")) == NilAsText(Forget(e.value, XNil))
    ensures Parseable(TStruct(members)) <==> Acceptable(Forget(TStruct(members), XNil))
    ensures Forget(TStruct(members), XString("")) == NilAsText(Forget(TStruct(members), XNil))
  {
    hide ForgetMembers, Parseable, Acceptable, NilAsText, Forget, Distinct;
    ParseableStruct(members);
    StructAcceptable(members);
    StructText(members);
    ForgetStruct(members, XNil);
    ForgetStruct(members, XString(""));
  }

  lemma ForgetStruct(members: seq<Entry>, nil: XValue)
    ensures Forget(TStruct(members), nil) == XStruct(ForgetMembers(members, |members|, nil))
  {
  }

  lemma StructAcceptable(members: seq<Entry>)
    requires Distinct(members)
    requires forall e <- members :: Parseable(e.value) <==> Acceptable(Forget(e.value, XNil))
    ensures Acceptable(XStruct(ForgetMembers(members, |members|, XNil))) <==>
            forall i | 0 <= i < |members| :: members[i].key != "" && Parseable(members[i].value)
  {
    hide ForgetMembers, Parseable, Forget, Distinct;
    var m := ForgetMembers(members, |members|, XNil);
    forall i | 0 <= i < |members|
      ensures members[i].key in m && m[members[i].key] == Forget(members[i].value, XNil)
    {
      MemberAt(members, |members|, XNil, i);
    }
    forall k <- m
      ensures exists i :: 0 <= i < |members| && members[i].key == k
    {
      var i := EntryOfKey(members, |members|, XNil, k);
    }
  }

  lemma StructText(members: seq<Entry>)
    requires Distinct(members)
    requires forall e <- members :: Forget(e.value, XString("")) == NilAsText(Forget(e.value, XNil))
    ensures XStruct(ForgetMembers(members, |members|, XString(""))) ==
            NilAsText(XStruct(ForgetMembers(members, |members|, XNil)))
  {
    hide ForgetMembers, Forget, Distinct, NilAsText;
    var m, n := ForgetMembers(members, |members|, XNil), ForgetMembers(members, |members|, XString(""));
    forall k
      ensures k in m <==> k in n
      ensures k in m && k in n ==> n[k] == NilAsText(m[k])
    {
      if k in m || k in n {
        var i := EntryOfKey(members, |members|, if k in m then XNil else XString(""), k);
        MemberAt(members, |members|, XNil, i);
        MemberAt(members, |members|, XString(""), i);
        assert members[i] in members;
      }
    }
    TextOfStruct(m, n);
  }

  lemma TextOfStruct(m: map<string, XValue>, n: map<string, XValue>)
    requires forall k :: k in m <==> k in n
    requires forall k <- m :: n[k] == NilAsText(m[k])
    ensures XStruct(n) == NilAsText(XStruct(m))
  {
    assert n == map k <- m :: NilAsText(m[k]);
  }

  /** A value written by the emitter in front of its closing tag and read by the parser: the same
      value with nil read as "", unless it holds something the parser refuses. */
  method EmitThenParse(lex: Lexicon, v: XValue, rest: seq<Token>) returns (back: Option<XValue>)
    requires Lawful(lex)
    ensures back == if Acceptable(v) then Some(NilAsText(v)) else None
  {
    hide Lawful;
    var buf := new TokenBuffer();
    ghost var t := EmitValue(lex, v, buf);
    buf.Write([End(Value)] + rest);
    var d := new Decoder(buf.toks);
    ValueRoundTrip(lex, t, rest);
    OrderForgotten(t);
    assert buf.toks == Emit(lex, t) + [End(Value)] + rest;
    back := d.Parse(lex);
  }

  lemma {:induction false} EmitArgsNext(lex: Lexicon, args: seq<Tree>, x: Tree, i: nat)
    requires i <= |args|
    ensures EmitArgs(lex, args + [x], i) ==
            EmitArgs(lex, args, i) + [Start(Param), Start(Value)] + Emit(lex, x) + [End(Value), End(Param)]
    decreases |args| - i
  {
    hide Emit;
    if i < |args| {
      EmitArgsNext(lex, args, x, i + 1);
    } else {
      assert EmitArgs(lex, args + [x], i + 1) == [];
    }
  }

  lemma NoArgs(lex: Lexicon)
    ensures EmitArgs(lex, [], 0) == []
  {
  }

  /** emitRequest. */
  method WriteRequest(lex: Lexicon, procedure: string, args: seq<XValue>, buf: TokenBuffer)
    returns (ghost ts: seq<Tree>)
    modifies buf
    ensures |ts| == |args| && forall i | 0 <= i < |ts| :: Ordered(ts[i]) && Forget(ts[i], XNil) == args[i]
    ensures buf.toks == old(buf.toks) + EmitRequest(lex, procedure, ts)
  {
    hide Emit, EmitArgs, Forget, Ordered, Text;
    ghost var head := Prolog + [Start(MethodCall), Start(MethodName)] + Text(procedure) +
                      [End(MethodName), Start(Params)];
    buf.Write(Prolog);
    buf.Write([Start(MethodCall), Start(MethodName)] + Text(procedure) + [End(MethodName), Start(Params)]);
    assert buf.toks == old(buf.toks) + head;
    NoArgs(lex);
    ts := [];
    var i := 0;
    while i < |args|
      invariant i <= |args| && |ts| == i
      invariant forall k | 0 <= k < i :: Ordered(ts[k]) && Forget(ts[k], XNil) == args[k]
      invariant buf.toks == old(buf.toks) + head + EmitArgs(lex, ts, 0)
    {
      buf.Write([Start(Param), Start(Value)]);
      ghost var t := EmitValue(lex, args[i], buf);
      buf.Write([End(Value), End(Param)]);
      EmitArgsNext(lex, ts, t, 0);
      ts := ts + [t];
      i := i + 1;
    }
    buf.Write([End(Params), End(MethodCall)]);
  }

  function AllAsText(vs: seq<XValue>): seq<XValue>
  {
    seq(|vs|, i requires 0 <= i < |vs| => NilAsText(vs[i]))
  }

  /** A call as the server sees it: the method name and the arguments, each nil read as "", unless an
      argument holds something the parser refuses. */
  method CallThenParse(lex: Lexicon, procedure: string, args: seq<XValue>, rest: seq<Token>) returns (r: Request)
    requires Lawful(lex)
    ensures r == if forall x <- args :: Acceptable(x)
                 then Request(procedure, AllAsText(args), rest)
                 else Malformed
  {
    hide Lawful, Acceptable, NilAsText, EmitRequest, ParseRequest, Parseable, Forget, Ordered, ForgetItems;
    var buf := new TokenBuffer();
    ghost var ts := WriteRequest(lex, procedure, args, buf);
    buf.Write(rest);
    assert buf.toks == EmitRequest(lex, procedure, ts) + rest;
    var d := new Decoder(buf.toks);
    RequestRoundTrip(lex, procedure, ts, rest);
    forall i | 0 <= i < |ts|
      ensures Parseable(ts[i]) <==> Acceptable(args[i])
      ensures Forget(ts[i], XString("")) == NilAsText(args[i])
    {
      OrderForgotten(ts[i]);
    }
    ItemsAt(ts, |ts|, XString(""));
    assert ForgetItems(ts, |ts|, XString("")) == AllAsText(args);
    if forall x <- args :: Acceptable(x) {
      assert forall i | 0 <= i < |ts| :: args[i] in args && Parseable(ts[i]);
    } else {
      var x :| x in args && !Acceptable(x);
      var i :| 0 <= i < |args| && args[i] == x;
      assert !Parseable(ts[i]);
    }
    r := d.ReadRequest(lex);
  }

  /** A reply, or a fault, as the caller sees it. */
  method ReplyThenParse(lex: Lexicon, v: XValue, fault: bool, rest: seq<Token>) returns (r: Response)
    requires Lawful(lex)
    ensures r == if Acceptable(v) then Response(!fault, NilAsText(v), rest) else BadResponse
  {
    hide Lawful, Acceptable, NilAsText, Emit, ParseResponse, Parseable, Forget, Ordered;
    var buf := new TokenBuffer();
    buf.Write(Prolog);
    buf.Write(if fault then [Start(MethodResponse), Start(Fault), Start(Value)]
              else [Start(MethodResponse), Start(Params), Start(Param), Start(Value)]);
    ghost var t := EmitValue(lex, v, buf);
    buf.Write(if fault then [End(Value), End(Fault), End(MethodResponse)]
              else [End(Value), End(Param), End(Params), End(MethodResponse)]);
    assert buf.toks == if fault then EmitFault(lex, t) else EmitResponse(lex, t);
    buf.Write(rest);
    var d := new Decoder(buf.toks);
    ResponseRoundTrip(lex, t, rest);
    FaultRoundTrip(lex, t, rest);
    OrderForgotten(t);
    r := d.ReadResponse(lex);
  }

  /** emitFault: the caller gets the code and the message back, exactly when the code fits in 32 bits. */
  method FaultThenParse(lex: Lexicon, code: Int64, message: string, rest: seq<Token>) returns (r: Response)
    requires Lawful(lex)
    ensures r == if IsInt32(code)
                 then Response(false, XStruct(map["faultCode" := XInt(code), "faultString" := XString(message)]), rest)
                 else BadResponse
  {
    hide Lawful;
    var fault := map["faultCode" := XInt(code), "faultString" := XString(message)];
    FaultAcceptable(code, message);
    r := ReplyThenParse(lex, XStruct(fault), true, rest);
  }

  lemma FaultAcceptable(code: Int64, message: string)
    ensures var fault := XStruct(map["faultCode" := XInt(code), "faultString" := XString(message)]);
            (Acceptable(fault) <==> IsInt32(code)) && NilAsText(fault) == fault
  {
    var members := map["faultCode" := XInt(code), "faultString" := XString(message)];
    assert |"faultCode"| != |"faultString"|;
    assert members["faultCode"] == XInt(code) && members["faultString"] == XString(message);
    TextOfStruct(members, members);
  }
}
