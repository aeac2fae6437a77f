/** From a publisher's messages to a subscriber's callbacks: handshake, framing and codec together. */
module Delivery {
  import opened Wire
  import opened Schema
  import opened Codec
  import opened CodecTheorems
  import opened Subsequence
  import CH = ConnectionHeader
  import T = Transport
  import P = Publisher

  type Bytes = seq<Byte>

  // ---------------------------------------------------------------- handshake

  const TOPIC: Bytes := [116, 111, 112, 105, 99]
  const MD5SUM: Bytes := [109, 100, 53, 115, 117, 109]
  const TYPE: Bytes := [116, 121, 112, 101]
  const CALLERID: Bytes := [99, 97, 108, 108, 101, 114, 105, 100]
  const LATCHING: Bytes := [108, 97, 116, 99, 104, 105, 110, 103]
  const DEFINITION: Bytes := [109, 101, 115, 115, 97, 103, 101, 95, 100, 101, 102, 105, 110, 105, 116, 105, 111, 110]
  const WILDCARD: Bytes := [42]

  function Request(topic: Bytes, md5sum: Bytes, typ: Bytes, node: Bytes): seq<CH.Header>
  {
    [CH.Header(TOPIC, topic), CH.Header(MD5SUM, md5sum), CH.Header(TYPE, typ), CH.Header(CALLERID, node)]
  }

  function Response(text: Bytes, node: Bytes, md5sum: Bytes, topic: Bytes, typ: Bytes): seq<CH.Header>
  {
    [CH.Header(DEFINITION, text), CH.Header(CALLERID, node), CH.Header(LATCHING, [48]), CH.Header(MD5SUM, md5sum),
     CH.Header(TOPIC, topic), CH.Header(TYPE, typ)]
  }

  /** The header map built from the lines: the last line of a key wins, a missing key reads empty. */
  function Lookup(hs: seq<CH.Header>, key: Bytes): Bytes
  {
    if hs == [] then []
    else if hs[|hs| - 1].key == key then hs[|hs| - 1].value
    else Lookup(hs[..|hs| - 1], key)
  }

  /** remoteSubscriberSession.start: the publisher's check of the request. */
  predicate SessionAccepts(bs: Bytes, md5sum: Bytes, typ: Bytes)
  {
    var r := CH.Decode(bs);
    && r.Ok?
    && (Lookup(r.val, TYPE) == typ || Lookup(r.val, TYPE) == WILDCARD)
    && (Lookup(r.val, MD5SUM) == md5sum || Lookup(r.val, MD5SUM) == WILDCARD)
  }

  /** startRemotePublisherConn: the subscriber's check of the response. */
  predicate SubscriberAccepts(bs: Bytes, md5sum: Bytes, typ: Bytes)
  {
    var r := CH.Decode(bs);
    r.Ok? && Lookup(r.val, TYPE) == typ && Lookup(r.val, MD5SUM) == md5sum
  }

  lemma LookupLast(hs: seq<CH.Header>, h: CH.Header, key: Bytes)
    ensures Lookup(hs + [h], key) == if h.key == key then h.value else Lookup(hs, key)
  {
  }

  lemma LookupRequest(topic: Bytes, md5sum: Bytes, typ: Bytes, node: Bytes)
    ensures Lookup(Request(topic, md5sum, typ, node), TYPE) == typ
    ensures Lookup(Request(topic, md5sum, typ, node), MD5SUM) == md5sum
  {
    hide Lookup;
    var a := [CH.Header(TOPIC, topic)];
    var b := a + [CH.Header(MD5SUM, md5sum)];
    var c := b + [CH.Header(TYPE, typ)];
    assert Request(topic, md5sum, typ, node) == c + [CH.Header(CALLERID, node)];
    assert |TYPE| == 4 && |CALLERID| == 8 && |MD5SUM| == 6;
    forall key | key == TYPE || key == MD5SUM
      ensures Lookup(Request(topic, md5sum, typ, node), key) == if key == TYPE then typ else md5sum
    {
      LookupLast(c, CH.Header(CALLERID, node), key);
      LookupLast(b, CH.Header(TYPE, typ), key);
      LookupLast(a, CH.Header(MD5SUM, md5sum), key);
    }
  }

  lemma LookupResponse(text: Bytes, node: Bytes, md5sum: Bytes, topic: Bytes, typ: Bytes)
    ensures Lookup(Response(text, node, md5sum, topic, typ), TYPE) == typ
    ensures Lookup(Response(text, node, md5sum, topic, typ), MD5SUM) == md5sum
  {
    hide Lookup;
    var a := [CH.Header(DEFINITION, text), CH.Header(CALLERID, node), CH.Header(LATCHING, [48])];
    var b := a + [CH.Header(MD5SUM, md5sum)];
    var c := b + [CH.Header(TOPIC, topic)];
    assert Response(text, node, md5sum, topic, typ) == c + [CH.Header(TYPE, typ)];
    assert |TYPE| == 4 && |TOPIC| == 5 && |MD5SUM| == 6;
    LookupLast(c, CH.Header(TYPE, typ), TYPE);
    LookupLast(c, CH.Header(TYPE, typ), MD5SUM);
    LookupLast(b, CH.Header(TOPIC, topic), MD5SUM);
    LookupLast(a, CH.Header(MD5SUM, md5sum), MD5SUM);
  }

  /** Both sides go on to exchange messages exactly when they name the same type and digest. */
  lemma HandshakeStreamsIff(topic: Bytes, subMd5: Bytes, subType: Bytes, subNode: Bytes,
                            text: Bytes, pubMd5: Bytes, pubType: Bytes, pubNode: Bytes, pubTopic: Bytes)
    requires CH.Total(Request(topic, subMd5, subType, subNode)) < TWO_TO_32
    requires CH.Total(Response(text, pubNode, pubMd5, pubTopic, pubType)) < TWO_TO_32
    ensures && SessionAccepts(CH.Encode(Request(topic, subMd5, subType, subNode)), pubMd5, pubType)
            && SubscriberAccepts(CH.Encode(Response(text, pubNode, pubMd5, pubTopic, pubType)), subMd5, subType)
            <==> subMd5 == pubMd5 && subType == pubType
  {
    hide Lookup, CH.Encode, CH.Decode, CH.Total, Request, Response;
    var req, res := Request(topic, subMd5, subType, subNode), Response(text, pubNode, pubMd5, pubTopic, pubType);
    RequestKeysClean(topic, subMd5, subType, subNode);
    ResponseKeysClean(text, pubNode, pubMd5, pubTopic, pubType);
    ReadsBack(req);
    ReadsBack(res);
    LookupRequest(topic, subMd5, subType, subNode);
    LookupResponse(text, pubNode, pubMd5, pubTopic, pubType);
  }

  /** What the publisher checks in any request that a client can write: the line `type` and the line `md5sum`, each
      against its own or the wildcard '*'. */
  lemma SessionAcceptsIff(hs: seq<CH.Header>, md5sum: Bytes, typ: Bytes)
    requires CH.CleanKeys(hs) && CH.Total(hs) < 0x1_0000_0000
    ensures SessionAccepts(CH.Encode(hs), md5sum, typ) <==>
            && Lookup(hs, [116, 121, 112, 101]) in [typ, [42]]
            && Lookup(hs, [109, 100, 53, 115, 117, 109]) in [md5sum, [42]]
  {
    hide Lookup, CH.Encode, CH.Decode, CH.Total;
    ReadsBack(hs);
  }

  /** And the subscriber in any response, without the wildcard. */
  lemma SubscriberAcceptsIff(hs: seq<CH.Header>, md5sum: Bytes, typ: Bytes)
    requires CH.CleanKeys(hs) && CH.Total(hs) < 0x1_0000_0000
    ensures SubscriberAccepts(CH.Encode(hs), md5sum, typ) <==>
            Lookup(hs, [116, 121, 112, 101]) == typ && Lookup(hs, [109, 100, 53, 115, 117, 109]) == md5sum
  {
    hide Lookup, CH.Encode, CH.Decode, CH.Total;
    ReadsBack(hs);
  }

  /** So a request for any type and any digest is accepted by every publisher. */
  lemma WildcardAccepted(topic: Bytes, node: Bytes, md5sum: Bytes, typ: Bytes)
    requires CH.Total(Request(topic, [42], [42], node)) < 0x1_0000_0000
    ensures SessionAccepts(CH.Encode(Request(topic, [42], [42], node)), md5sum, typ)
  {
    hide Lookup, CH.Encode, CH.Decode, CH.Total, Request;
    RequestKeysClean(topic, [42], [42], node);
    LookupRequest(topic, [42], [42], node);
    SessionAcceptsIff(Request(topic, [42], [42], node), md5sum, typ);
  }

  /** Both headers, key by key: topic, md5sum, type, callerid; message_definition, callerid, latching=0, md5sum,
      topic, type. */
  lemma HeaderKeys(text: Bytes, topic: Bytes, md5sum: Bytes, typ: Bytes, node: Bytes)
    ensures var keys := Keys(Request(topic, md5sum, typ, node));
            keys == [[116, 111, 112, 105, 99], [109, 100, 53, 115, 117, 109], [116, 121, 112, 101],
                     [99, 97, 108, 108, 101, 114, 105, 100]]
    ensures Values(Request(topic, md5sum, typ, node)) == [topic, md5sum, typ, node]
    ensures var keys := Keys(Response(text, node, md5sum, topic, typ));
            keys == [[109, 101, 115, 115, 97, 103, 101, 95, 100, 101, 102, 105, 110, 105, 116, 105, 111, 110],
                     [99, 97, 108, 108, 101, 114, 105, 100], [108, 97, 116, 99, 104, 105, 110, 103],
                     [109, 100, 53, 115, 117, 109], [116, 111, 112, 105, 99], [116, 121, 112, 101]]
    ensures Values(Response(text, node, md5sum, topic, typ)) == [text, node, [48], md5sum, topic, typ]
  {
  }

  function Keys(hs: seq<CH.Header>): seq<Bytes>
  {
    seq(|hs|, i requires 0 <= i < |hs| => hs[i].key)
  }

  function Values(hs: seq<CH.Header>): seq<Bytes>
  {
    seq(|hs|, i requires 0 <= i < |hs| => hs[i].value)
  }

  lemma RequestKeysClean(topic: Bytes, md5sum: Bytes, typ: Bytes, node: Bytes)
    ensures CH.CleanKeys(Request(topic, md5sum, typ, node))
  {
  }

  lemma ResponseKeysClean(text: Bytes, node: Bytes, md5sum: Bytes, topic: Bytes, typ: Bytes)
    ensures CH.CleanKeys(Response(text, node, md5sum, topic, typ))
  {
  }

  lemma ReadsBack(hs: seq<CH.Header>)
    requires CH.CleanKeys(hs) && CH.Total(hs) < TWO_TO_32
    ensures CH.Decode(CH.Encode(hs)) == Ok(hs, [])
  {
    hide CH.Encode, CH.Decode, CH.Total, CH.CleanKeys;
    CH.RoundTripIff(hs, []);
    assert CH.Encode(hs) + [] == CH.Encode(hs);
  }

  // ---------------------------------------------------------------- messages

  ghost predicate Serialised(ctx: Context, name: string, ms: seq<Message>, bytes: seq<Bytes>)
    requires WellFormed(ctx) && name in ctx.specs
  {
    && |ms| == |bytes|
    && forall i | 0 <= i < |ms| :: WellTyped(ctx, name, ms[i]) && bytes[i] == SerMessage(ms[i]).out
  }

  /** The subscriber's loop offers each message it takes off its channel to the job queue, which accepts
      it or times out. */
  function Enqueued(msgs: seq<Bytes>, accepted: seq<bool>): seq<Bytes>
    requires |accepted| <= |msgs|
  {
    if accepted == [] then []
    else
      var n := |accepted| - 1;
      Enqueued(msgs, accepted[..n]) + if accepted[n] then [msgs[n]] else []
  }

  lemma {:induction false} EnqueuedIsSubseq(msgs: seq<Bytes>, accepted: seq<bool>)
    requires |accepted| <= |msgs|
    ensures Subseq(Enqueued(msgs, accepted), msgs[..|accepted|])
  {
    hide Subseq;
    if accepted == [] {
      assert Subseq(Enqueued(msgs, accepted), []) by { NothingIsSubseq(); }
    } else {
      var n := |accepted| - 1;
      EnqueuedIsSubseq(msgs, accepted[..n]);
      assert msgs[..n + 1] == msgs[..n] + [msgs[n]];
      if accepted[n] {
        SubseqKeep(Enqueued(msgs, accepted[..n]), msgs[..n], msgs[n]);
      } else {
        SubseqSkip(Enqueued(msgs, accepted[..n]), msgs[..n], msgs[n]);
        assert Enqueued(msgs, accepted) == Enqueued(msgs, accepted[..n]);
      }
    }
  }

  /** A job queue that accepts every message loses none, one that accepts none gets none. */
  lemma {:induction false} EnqueuedAll(msgs: seq<Bytes>, accepted: seq<bool>)
    requires |accepted| <= |msgs|
    ensures (forall a <- accepted :: a) ==> Enqueued(msgs, accepted) == msgs[..|accepted|]
    ensures (forall a <- accepted :: !a) ==> Enqueued(msgs, accepted) == []
    decreases |accepted|
  {
    if accepted != [] {
      var n := |accepted| - 1;
      assert accepted[n] in accepted && forall a <- accepted[..n] :: a in accepted;
      EnqueuedAll(msgs, accepted[..n]);
      assert msgs[..n + 1] == msgs[..n] + [msgs[n]];
    }
  }

  lemma NothingIsSubseq()
    ensures Subseq<Bytes>([], [])
  {
  }

  /** `got` are the messages behind the encodings `arrived`, whole and in publication order, all of them
      published while the session was on the publisher's list. */
  ghost predicate Whole(ctx: Context, name: string, x: T.Net, ms: seq<Message>, arrived: seq<Bytes>, got: seq<Message>)
    requires WellFormed(ctx) && name in ctx.specs
  {
    && |got| == |arrived|
    && (forall i | 0 <= i < |got| ::
         WellTyped(ctx, name, got[i]) && DeMessage(ctx, name, Lenient, arrived[i]) == Ok(got[i], []))
    && (got != [] ==>
          && x.id in x.pub.joined && x.pub.joined[x.id] <= P.End(x.pub, x.id) <= |ms|
          && Subseq(got, ms[x.pub.joined[x.id]..P.End(x.pub, x.id)]))
  }

  /** Every benign run over well-typed publications: what reaches the subscriber's message channel is whole. */
  lemma MessagesArriveWhole(ctx: Context, name: string, id: P.SessionId, es: seq<T.Event>, ms: seq<Message>)
    returns (got: seq<Message>)
    requires WellFormed(ctx) && name in ctx.specs && T.Benign(es)
    requires Serialised(ctx, name, ms, T.Run(T.Start(id), es).pub.published)
    ensures var x := T.Run(T.Start(id), es); Whole(ctx, name, x, ms, x.reader.delivered, got)
  {
    hide WellTyped, SerMessage, DeMessage, T.Run, Subseq, Acyclic, Closed, DistinctNames, Unmasked;
    var x := T.Run(T.Start(id), es);
    T.OrderedDelivery(id, es);
    T.IdKept(id, es);
    if x.reader.delivered == [] {
      got := [];
    } else {
      var from, to := x.pub.joined[id], P.End(x.pub, id);
      var at: seq<nat>;
      got, at := Pick(x.reader.delivered, x.pub.published[from..to], ms[from..to]);
      forall i | 0 <= i < |got|
        ensures WellTyped(ctx, name, got[i]) && DeMessage(ctx, name, Lenient, x.reader.delivered[i]) == Ok(got[i], [])
      {
        assert got[i] == ms[from + at[i]];
        RoundTrip(ctx, name, Lenient, got[i], []);
        assert SerMessage(got[i]).out + [] == SerMessage(got[i]).out;
      }
    }
  }

  /** And so is what the jobs that call the callbacks decode, whichever messages the job queue accepts. */
  lemma CallbacksGetWholeMessages(ctx: Context, name: string, id: P.SessionId, es: seq<T.Event>, ms: seq<Message>,
                                  accepted: seq<bool>) returns (got: seq<Message>)
    requires WellFormed(ctx) && name in ctx.specs && T.Benign(es)
    requires Serialised(ctx, name, ms, T.Run(T.Start(id), es).pub.published)
    requires |accepted| <= |T.Run(T.Start(id), es).reader.delivered|
    ensures var x := T.Run(T.Start(id), es);
            Whole(ctx, name, x, ms, Enqueued(x.reader.delivered, accepted), got)
  {
    hide WellTyped, SerMessage, DeMessage, T.Run, Subseq, Enqueued, Acyclic, Closed, DistinctNames, Unmasked;
    var x := T.Run(T.Start(id), es);
    var arrived := x.reader.delivered;
    var whole := MessagesArriveWhole(ctx, name, id, es, ms);
    EnqueuedIsSubseq(arrived, accepted);
    SubseqOfPrefix(Enqueued(arrived, accepted), arrived[..|accepted|], arrived);
    var at: seq<nat>;
    got, at := Pick(Enqueued(arrived, accepted), arrived, whole);
    if got != [] {
      NotFromNothing(got, whole);
      T.IdKept(id, es);
      SubseqTransitive(got, whole, ms[x.pub.joined[id]..P.End(x.pub, id)]);
    }
  }

  lemma NotFromNothing(a: seq<Message>, b: seq<Message>)
    requires Subseq(a, b) && a != []
    ensures b != []
  {
  }
}
