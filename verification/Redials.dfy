/** A subscriber that dials again: the worker gives one connection up, opens another, and goes on putting what
    it reads on the same channel. */
module Redials {
  import opened Wire
  import opened Schema
  import opened Codec
  import opened CodecTheorems
  import opened Subsequence
  import opened Delivery
  import T = Transport
  import S = Session
  import P = Publisher
  import Timeouts

  type Bytes = seq<Byte>

  /** `net` is the connection in use; `earlier` is what the connections before it delivered. */
  datatype Line = Line(net: T.Net, earlier: seq<Bytes>)

  /** `Redial(id)` abandons the connection, wherever it stands, and opens that of a session `id` which the
      publisher has yet to take up. The old session may linger on the publisher's side. */
  datatype Event =
    | Within(e: T.Event)
    | Redial(id: P.SessionId)

  function Start(id: P.SessionId): Line
  {
    Line(T.Start(id), [])
  }

  function Step(x: Line, e: Event): Line
  {
    match e
    case Within(f) => x.(net := T.Step(x.net, f))
    case Redial(id) =>
      if id in x.net.pub.joined then x
      else Line(T.Net(x.net.pub, id, S.Initial, T.NewReader), Channel(x))
  }

  function Run(x: Line, es: seq<Event>): Line
  {
    if es == [] then x else Step(Run(x, es[..|es| - 1]), es[|es| - 1])
  }

  /** Everything the subscriber's channel has accepted. */
  function Channel(x: Line): seq<Bytes>
  {
    x.earlier + x.net.reader.delivered
  }

  predicate Benign(es: seq<Event>)
  {
    forall e <- es :: e.Within? ==> T.Benign([e.e])
  }

  /** The reading loop as its own variables show it, with one channel for all connections. */
  function Seen(x: Line): T.Reader
  {
    x.net.reader.(delivered := Channel(x))
  }

  /** They take the steps of `RemotePublisherConn`. */
  lemma SeenSteps(x: Line, e: T.ReaderEvent, id: P.SessionId)
    ensures Seen(Step(x, Within(T.AtReader(e)))) == T.ReaderStep(Seen(x), x.net.session.wire, e)
    ensures id !in x.net.pub.joined ==> Seen(Step(x, Redial(id))) == T.Redialled(Seen(x))
  {
    hide UnWord32;
    if e.BodyRead? && e.accepted {
      var r, wire := x.net.reader, x.net.session.wire;
      if r.pos + r.msgSize <= |wire| {
        var body := wire[r.pos..r.pos + r.msgSize];
        assert Channel(x) + [body] == x.earlier + (r.delivered + [body]);
      }
    }
  }

  /** The earlier connections took from the first `cut` publications, and the one in use joins after them. */
  ghost predicate CutAt(x: Line, cut: nat)
  {
    && cut <= |x.net.pub.published|
    && Subseq(x.earlier, x.net.pub.published[..cut])
    && (x.net.id in x.net.pub.joined ==> cut <= x.net.pub.joined[x.net.id])
  }

  ghost predicate LineInvariant(x: Line)
  {
    T.NetInvariant(x.net) && exists cut: nat :: CutAt(x, cut)
  }

  /** What the channel has accepted stays inside the publications up to the end of the session in use. */
  lemma ChannelFromPublished(x: Line, cut: nat)
    requires T.NetInvariant(x.net) && CutAt(x, cut)
    ensures Subseq(Channel(x), x.net.pub.published)
  {
    hide Subseq, T.NetInvariant;
    var p, id := x.net.pub, x.net.id;
    T.DeliveredFromHanded(x.net);
    if id in p.joined {
      var j, end := p.joined[id], P.End(p, id);
      SubseqOfPrefix(x.earlier, p.published[..cut], p.published[..j]);
      SubseqAppend(x.earlier, p.published[..j], x.net.reader.delivered, p.published[j..end]);
      assert p.published[..j] + p.published[j..end] == p.published[..end];
      SubseqOfPrefix(Channel(x), p.published[..end], p.published);
    } else {
      NothingFromNothing(x.net.reader.delivered);
      assert Channel(x) == x.earlier;
      SubseqOfPrefix(x.earlier, p.published[..cut], p.published);
    }
  }

  lemma NothingFromNothing(a: seq<Bytes>)
    ensures Subseq(a, []) ==> a == []
  {
  }

  /** A session joins behind everything published so far, and keeps the place where it joined. */
  lemma JoinsBehind(p: P.State, e: P.Event, id: P.SessionId)
    requires P.FanOutInvariant(p)
    ensures p.published <= P.Step(p, e).published
    ensures id in P.Step(p, e).joined ==>
              P.Step(p, e).joined[id] == if id in p.joined then p.joined[id] else |p.published|
  {
    hide P.FanOut, P.Remove, P.Distinct, P.Contiguous;
  }

  lemma WithinKeepsInvariant(x: Line, e: T.Event)
    requires LineInvariant(x) && T.Benign([e])
    ensures LineInvariant(Step(x, Within(e)))
  {
    hide T.NetInvariant, T.ReaderStep, S.Step, P.Step, Subseq;
    T.StepKeepsInvariant(x.net, e);
    var y := Step(x, Within(e));
    var cut: nat :| CutAt(x, cut);
    if e.AtPublisher? {
      T.FanOutHolds(x.net);
      JoinsBehind(x.net.pub, e.pe, x.net.id);
      assert y.net.pub.published[..cut] == x.net.pub.published[..cut];
    }
    assert CutAt(y, cut);
  }

  lemma RedialKeepsInvariant(x: Line, id: P.SessionId)
    requires LineInvariant(x)
    ensures LineInvariant(Step(x, Redial(id)))
  {
    hide T.NetInvariant, Subseq, Channel;
    if id !in x.net.pub.joined {
      var y := Step(x, Redial(id));
      var p := x.net.pub;
      var cut: nat :| CutAt(x, cut);
      ChannelFromPublished(x, cut);
      T.FreshConnection(x.net, id);
      assert p.published[..|p.published|] == p.published;
      assert CutAt(y, |p.published|);
    }
  }

  lemma StartInvariant(id: P.SessionId)
    ensures LineInvariant(Start(id))
  {
    hide T.NetInvariant;
    T.StartInvariant(id);
    assert CutAt(Start(id), 0);
  }

  lemma {:induction false} RunKeepsInvariant(id: P.SessionId, es: seq<Event>)
    requires Benign(es)
    ensures LineInvariant(Run(Start(id), es))
    decreases |es|
  {
    hide LineInvariant, Step, T.Benign;
    if es == [] {
      StartInvariant(id);
    } else {
      var n := |es| - 1;
      assert Benign(es[..n]);
      RunKeepsInvariant(id, es[..n]);
      assert es[n] in es;
      match es[n]
      case Within(e) => WithinKeepsInvariant(Run(Start(id), es[..n]), e);
      case Redial(next) => RedialKeepsInvariant(Run(Start(id), es[..n]), next);
    }
  }

  /** Over every benign run with any number of redials, what the channel has accepted is an in-order
      subsequence of what was published: no redial repeats, reorders or invents a message. */
  lemma OrderedAcrossRedials(id: P.SessionId, es: seq<Event>)
    requires Benign(es)
    ensures var x := Run(Start(id), es); Subseq(Channel(x), x.net.pub.published)
  {
    hide Run, T.NetInvariant, CutAt, Subseq, Channel;
    RunKeepsInvariant(id, es);
    var x := Run(Start(id), es);
    var cut: nat :| CutAt(x, cut);
    ChannelFromPublished(x, cut);
  }

  // ---------------------------------------------------------------- what it needs

  /** Deadlines strike in a size word only after one of these numbers of bytes. */
  predicate Allowed(es: seq<Event>, cuts: set<nat>)
  {
    forall e <- es :: e.Within? ==> Timeouts.Allowed([e.e], cuts, TWO_TO_32)
  }

  predicate InOrder(x: Line)
  {
    Subseq(Channel(x), x.net.pub.published)
  }

  /** Redialling does not make up for a size word cut short: order is kept over every run exactly when no
      deadline strikes inside one. */
  lemma OrderedAcrossRedialsIff(cuts: set<nat>)
    requires forall k <- cuts :: k < 4
    ensures (forall id: P.SessionId, es :: Allowed(es, cuts) ==> InOrder(Run(Start(id), es))) <==> cuts <= {0}
  {
    hide Run, InOrder, Timeouts.Script;
    if cuts <= {0} {
      forall id: P.SessionId, es | Allowed(es, cuts)
        ensures InOrder(Run(Start(id), es))
      {
        InOrderWithin(id, es, cuts);
      }
    } else {
      var k :| k in cuts && k != 0;
      CutCorrupts(k, cuts);
    }
  }

  lemma InOrderWithin(id: P.SessionId, es: seq<Event>, cuts: set<nat>)
    requires Allowed(es, cuts) && cuts <= {0}
    ensures InOrder(Run(Start(id), es))
  {
    hide Run, Channel, Subseq;
    OrderedAcrossRedials(id, es);
  }

  /** A run on one connection, as a run of the line. */
  function Embed(es: seq<T.Event>): seq<Event>
  {
    if es == [] then [] else Embed(es[..|es| - 1]) + [Within(es[|es| - 1])]
  }

  lemma {:induction false} EmbedRuns(id: P.SessionId, es: seq<T.Event>)
    ensures Run(Start(id), Embed(es)) == Line(T.Run(T.Start(id), es), [])
    decreases |es|
  {
    hide T.Step;
    if es != [] {
      var n := |es| - 1;
      EmbedRuns(id, es[..n]);
      assert Embed(es)[..|Embed(es)| - 1] == Embed(es[..n]);
    }
  }

  lemma {:induction false} EmbedAllowed(es: seq<T.Event>, cuts: set<nat>)
    requires Timeouts.Allowed(es, cuts, TWO_TO_32)
    ensures Allowed(Embed(es), cuts)
    decreases |es|
  {
    if es != [] {
      var n := |es| - 1;
      assert es == es[..n] + [es[n]];
      EmbedAllowed(es[..n], cuts);
    }
  }

  lemma CutCorrupts(k: nat, cuts: set<nat>)
    requires 0 < k < 4 && k in cuts
    ensures Allowed(Embed(Timeouts.Script(k, k)), cuts) && !InOrder(Run(Start(0), Embed(Timeouts.Script(k, k))))
  {
    hide T.Run, Run, Embed, Subseq;
    var es := Timeouts.Script(k, k);
    EmbedAllowed(es, cuts);
    EmbedRuns(0, es);
    Timeouts.CutSizeCorrupts(k);
    var x := T.Run(T.Start(0), es);
    assert Channel(Line(x, [])) == x.reader.delivered;
  }

  // ---------------------------------------------------------------- typed messages

  /** When well-typed messages are published, everything on the channel decodes to a whole one, in publication
      order, however often the subscriber dials. */
  lemma WholeAcrossRedials(ctx: Context, name: string, id: P.SessionId, es: seq<Event>, ms: seq<Message>)
    returns (got: seq<Message>)
    requires WellFormed(ctx) && name in ctx.specs && Benign(es)
    requires Serialised(ctx, name, ms, Run(Start(id), es).net.pub.published)
    ensures var arrived := Channel(Run(Start(id), es));
            && |got| == |arrived| && Subseq(got, ms)
            && forall i | 0 <= i < |got| ::
                 WellTyped(ctx, name, got[i]) && DeMessage(ctx, name, Lenient, arrived[i]) == Ok(got[i], [])
  {
    hide WellTyped, SerMessage, DeMessage, Run, Channel, Subseq, Acyclic, Closed, DistinctNames, Unmasked;
    var x := Run(Start(id), es);
    OrderedAcrossRedials(id, es);
    var at: seq<nat>;
    got, at := Pick(Channel(x), x.net.pub.published, ms);
    forall i | 0 <= i < |got|
      ensures WellTyped(ctx, name, got[i]) && DeMessage(ctx, name, Lenient, Channel(x)[i]) == Ok(got[i], [])
    {
      RoundTrip(ctx, name, Lenient, got[i], []);
      assert SerMessage(got[i]).out + [] == SerMessage(got[i]).out;
    }
  }
}
