/** Exactly which assumptions ordered delivery needs: what a deadline may cut out of a size word, and
    how long a message may be. */
module Timeouts {
  import opened Wire
  import opened Subsequence
  import opened Transport
  import S = Session
  import P = Publisher

  /** What reached the subscriber's channel is an in-order subsequence of what the session was handed. */
  predicate InOrder(x: Net)
  {
    Subseq(x.reader.delivered, Handed(x))
  }

  /** Deadlines strike in a size word only after one of these numbers of bytes; messages stay below `bound`. */
  predicate Allowed(es: seq<Event>, cuts: set<nat>, bound: nat)
  {
    forall e <- es ::
      && (e.AtReader? && e.re.SizeTimeout? ==> e.re.consumed in cuts)
      && (e.AtPublisher? && e.pe.Publish? ==> |e.pe.msg| < bound)
  }

  /** Delivery is in order over every run exactly when no deadline strikes inside a size word. */
  lemma SizeTimeoutsIff(cuts: set<nat>)
    requires forall k <- cuts :: k < 4
    ensures (forall id: P.SessionId, es :: Allowed(es, cuts, TWO_TO_32) ==> InOrder(Run(Start(id), es)))
            <==> cuts <= {0}
  {
    hide Run, InOrder;
    if cuts <= {0} {
      forall id: P.SessionId, es | Allowed(es, cuts, TWO_TO_32)
        ensures InOrder(Run(Start(id), es))
      {
        BenignInOrder(id, es);
      }
    } else {
      var k :| k in cuts && k != 0;
      CutSizeCorrupts(k);
      assert Allowed(Script(k, k), cuts, TWO_TO_32);
    }
  }

  /** And, with no such deadline, exactly when every message has a length that fits in 32 bits. */
  lemma MessageLengthsIff(bound: nat)
    ensures (forall id: P.SessionId, es :: Allowed(es, {0}, bound) ==> InOrder(Run(Start(id), es)))
            <==> bound <= TWO_TO_32
  {
    hide Run, InOrder;
    if bound <= TWO_TO_32 {
      forall id: P.SessionId, es | Allowed(es, {0}, bound)
        ensures InOrder(Run(Start(id), es))
      {
        BenignInOrder(id, es);
      }
    } else {
      LongMessageCorrupts();
      assert Allowed(Script(0, TWO_TO_32), {0}, bound);
    }
  }

  lemma BenignInOrder(id: P.SessionId, es: seq<Event>)
    requires Benign(es)
    ensures InOrder(Run(Start(id), es))
  {
    OrderedDelivery(id, es);
  }

  // ---------------------------------------------------------------- the runs that go wrong

  function Zeros(m: nat): Bytes
  {
    seq(m, _ => 0)
  }

  /** One message of zeros is published to one session and written; the reader's first deadline strikes
      after `k` bytes, then it reads a size and a body. */
  function Script(k: nat, m: nat): seq<Event>
  {
    [AtPublisher(P.Join), AtPublisher(P.Publish(Zeros(m))), Take, AtSession(S.Write),
     AtReader(SizeTimeout(k)), AtReader(SizeRead), AtReader(BodyRead(true))]
  }

  /** A size cut after one, two or three bytes delivers an empty message that was never published. */
  lemma CutSizeCorrupts(k: nat)
    requires 0 < k < 4
    ensures var x := Run(Start(0), Script(k, k));
            x.reader.delivered == [[]] && Handed(x) == x.pub.published == [Zeros(k)] && !InOrder(x)
  {
    hide Run, Script;
    SmallSize(k);
    ScriptDelivers(k, k);
  }

  /** So does a message of 2^32 bytes, whose size is written as zero. */
  lemma LongMessageCorrupts()
    ensures var x := Run(Start(0), Script(0, TWO_TO_32));
            x.reader.delivered == [[]] && Handed(x) == x.pub.published == [Zeros(TWO_TO_32)] && !InOrder(x)
  {
    hide Run, Script;
    SmallSize(0);
    ScriptDelivers(0, TWO_TO_32);
  }

  lemma SmallSize(k: nat)
    requires k < 4
    ensures Word32(k) == [k, 0, 0, 0]
  {
    assert LE(3, 0) == [0, 0, 0];
  }

  lemma RunSnoc(x: Net, es: seq<Event>, e: Event)
    ensures Run(x, es + [e]) == Step(Run(x, es), e)
  {
    hide Step;
    assert (es + [e])[..|es|] == es;
  }

  /** What the publisher and the session have done by the time the message is written. */
  function Written(m: nat): Net
  {
    var msg := Zeros(m);
    Net(P.State(true, [0], map[0 := [msg]], {}, [msg], map[0 := 0], map[], 1), 0,
        S.State(true, [msg], [S.Sent], [], S.Frame(msg)), NewReader)
  }

  lemma ScriptWrites(m: nat)
    ensures Run(Start(0), Script(0, m)[..4]) == Written(m)
  {
    hide S.Frame;
    var msg := Zeros(m);
    var es: seq<Event> := [];
    var one, two := [AtPublisher(P.Join)], [AtPublisher(P.Join), AtPublisher(P.Publish(msg))];
    var three := two + [Take];
    assert Run(Start(0), []) == Start(0);
    RunSnoc(Start(0), [], AtPublisher(P.Join));
    assert [] + [AtPublisher(P.Join)] == one;
    RunSnoc(Start(0), one, AtPublisher(P.Publish(msg)));
    assert one + [AtPublisher(P.Publish(msg))] == two;
    FanOutToOne(msg);
    RunSnoc(Start(0), two, Take);
    RunSnoc(Start(0), three, AtSession(S.Write));
    assert three + [AtSession(S.Write)] == Script(0, m)[..4];
    assert [] + S.Frame(msg) == S.Frame(msg);
  }

  lemma FanOutToOne(msg: Bytes)
    ensures P.FanOut(map[0 := []], [0], msg) == map[0 := [msg]]
  {
    var inbox: map<P.SessionId, seq<Bytes>> := map[0 := []];
    var one: seq<P.SessionId> := [0];
    assert one[..0] == [] && inbox[0] + [msg] == [msg];
    assert P.FanOut(inbox, one[..0], msg) == inbox;
    assert inbox[0 := [msg]] == map[0 := [msg]];
  }

  lemma ScriptDelivers(k: nat, m: nat)
    requires k < 4 && m > 0 && Word32(m % TWO_TO_32) == [k, 0, 0, 0] && m >= k
    ensures var x := Run(Start(0), Script(k, m));
            x.reader.delivered == [[]] && Handed(x) == x.pub.published == [Zeros(m)] && !InOrder(x)
  {
    hide S.Frame, ReaderStep, Run, Step, Word32;
    var wire := S.Frame(Zeros(m));
    ScriptWrites(m);
    ZerosAfter(k, m);
    ReaderDelivers(wire, k);
    EmptyIsNew(m);
    var four := Script(k, m)[..4];
    assert four == Script(0, m)[..4];
    var rest := [AtReader(SizeTimeout(k)), AtReader(SizeRead), AtReader(BodyRead(true))];
    assert Script(k, m) == four + [rest[0]] + [rest[1]] + [rest[2]];
    ThreeTurns(Start(0), four, rest[0].re, rest[1].re, rest[2].re);
  }

  lemma ThreeTurns(x: Net, es: seq<Event>, a: ReaderEvent, b: ReaderEvent, c: ReaderEvent)
    ensures var y := Run(x, es);
            Run(x, es + [AtReader(a)] + [AtReader(b)] + [AtReader(c)]) ==
            y.(reader := ReaderStep(ReaderStep(ReaderStep(y.reader, y.session.wire, a), y.session.wire, b),
                                    y.session.wire, c))
  {
    hide ReaderStep, Run;
    RunSnoc(x, es, AtReader(a));
    RunSnoc(x, es + [AtReader(a)], AtReader(b));
    RunSnoc(x, es + [AtReader(a)] + [AtReader(b)], AtReader(c));
  }

  lemma ZerosAfter(k: nat, m: nat)
    requires k < 4 && m >= k && Word32(m % TWO_TO_32) == [k, 0, 0, 0]
    ensures var wire := S.Frame(Zeros(m)); |wire| >= k + 4 && wire[k..k + 4] == [0, 0, 0, 0]
  {
    var wire := S.Frame(Zeros(m));
    assert wire == [k, 0, 0, 0] + Zeros(m);
  }

  lemma ReaderDelivers(wire: Bytes, k: nat)
    requires k < 4 && |wire| >= k + 4 && wire[k..k + 4] == [0, 0, 0, 0]
    ensures ReaderStep(ReaderStep(ReaderStep(NewReader, wire, SizeTimeout(k)), wire, SizeRead),
                       wire, BodyRead(true)).delivered
            == [[]]
  {
    SmallSize(0);
    Word32RoundTrip(0);
    assert wire[k + 4..k + 4] == [];
  }

  lemma EmptyIsNew(m: nat)
    requires m > 0
    ensures !Subseq([[]], [Zeros(m)])
  {
    if Subseq([[]], [Zeros(m)]) {
      SubseqMember([[]], [Zeros(m)], []);
    }
  }
}
