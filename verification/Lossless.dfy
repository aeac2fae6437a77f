/** What does arrive: the reader takes every frame below its limit, and a connection on which nothing is
    dropped, cut or refused delivers everything. */
module Lossless {
  import opened Wire
  import opened LittleEndian
  import opened Subsequence
  import opened Transport
  import S = Session
  import P = Publisher
  import Timeouts

  // ---------------------------------------------------------------- one frame

  /** On the wire a message is its length in four bytes, least significant first, and then itself. */
  lemma FrameBytes(m: Bytes)
    ensures S.Frame(m) == Four(|m|) + m
  {
    hide Word32, Four;
    WordBytes(|m|);
  }

  /** A reader at the start of a frame that is there in full: size and body are read, the message goes to the
      channel, and the reader stands behind the frame, exactly when the message is shorter than 256000000
      bytes. From that length on it hangs up instead. */
  lemma FrameDeliveredIff(r: Transport.Reader, wire: Bytes, m: Bytes)
    requires r.open && r.readingSize && |m| < 0x1_0000_0000
    requires r.pos + 4 + |m| <= |wire| && wire[r.pos..r.pos + 4 + |m|] == Four(|m|) + m
    ensures var t := ReaderStep(ReaderStep(r, wire, SizeRead), wire, BodyRead(true));
            if |m| < 256_000_000 then
              t.open && t.readingSize && t.pos == r.pos + 4 + |m| && t.delivered == r.delivered + [m]
            else !t.open && t.delivered == r.delivered
  {
    hide UnWord32, Four;
    SizeOf(wire, r.pos, m);
  }

  /** The channel's timeout drops the message, and only that. */
  lemma RefusedBody(r: Transport.Reader, wire: Bytes, m: Bytes)
    requires r.open && r.readingSize && |m| < 256_000_000
    requires r.pos + 4 + |m| <= |wire| && wire[r.pos..r.pos + 4 + |m|] == Four(|m|) + m
    ensures var t := ReaderStep(ReaderStep(r, wire, SizeRead), wire, BodyRead(false));
            t.open && t.readingSize && t.pos == r.pos + 4 + |m| && t.delivered == r.delivered
  {
    hide UnWord32, Four;
    SizeOf(wire, r.pos, m);
  }

  /** What is not there in full is waited for, and a connection given up is not read from any more. */
  lemma Waits(r: Transport.Reader, wire: Bytes, e: ReaderEvent, accepted: bool)
    requires r.pos <= |wire|
    ensures r.readingSize && |wire| < r.pos + 4 ==> ReaderStep(r, wire, SizeRead) == r
    ensures !r.readingSize && |wire| < r.pos + r.msgSize ==> ReaderStep(r, wire, BodyRead(accepted)) == r
    ensures ReaderStep(r, wire, Lost) == r.(open := false)
    ensures !r.open ==> ReaderStep(r, wire, e) == r
  {
    hide UnWord32;
  }

  lemma SizeOf(wire: Bytes, pos: nat, m: Bytes)
    requires |m| < 0x1_0000_0000
    requires pos + 4 + |m| <= |wire| && wire[pos..pos + 4 + |m|] == Four(|m|) + m
    ensures UnWord32(wire[pos..pos + 4]) == |m| && wire[pos + 4..pos + 4 + |m|] == m
  {
    hide UnWord32, Four, Word32;
    var frame := Four(|m|) + m;
    assert |Four(|m|)| == 4 by { FourLength(|m|); }
    assert wire[pos..pos + 4] == frame[..4] == Four(|m|);
    assert wire[pos + 4..pos + 4 + |m|] == frame[4..] == m;
    WordBytes(|m|);
    Word32RoundTrip(|m|);
  }

  lemma FourLength(n: int)
    ensures |Four(n)| == 4
  {
  }

  // ---------------------------------------------------------------- calm runs

  /** Nobody quits or fails, no deadline cuts a size, the channel takes every body, and messages stay below
      `bound`. Only the session's queue may still drop. */
  predicate Calm(es: seq<Event>, bound: nat)
  {
    forall e <- es ::
      match e
      case AtPublisher(pe) => pe.Publish? ==> |pe.msg| < bound
      case AtReader(re) => !re.Lost? && (re.SizeTimeout? ==> re.consumed == 0) && (re.BodyRead? ==> re.accepted)
      case AtSession(se) => !se.WriteFails? && !se.Quit?
      case Take => true
  }

  /** The reader has taken every byte there is, and stands between two frames. */
  predicate CaughtUp(x: Net)
  {
    x.reader.readingSize && x.reader.pos == |x.session.wire|
  }

  /** The connection is up, and what has gone out has come in. */
  predicate NothingLost(x: Net)
  {
    && x.reader.open
    && (CaughtUp(x) ==> x.reader.delivered == Sent(x))
  }

  /** Over every calm run nothing that goes out is lost, exactly when messages are shorter than 256000000
      bytes. */
  lemma NothingLostIff(bound: nat)
    ensures (forall id: P.SessionId, es :: Calm(es, bound) ==> NothingLost(Run(Start(id), es)))
            <==> bound <= 256_000_000
  {
    hide Run, NothingLost, Calm;
    if bound <= 256_000_000 {
      forall id: P.SessionId, es | Calm(es, bound)
        ensures NothingLost(Run(Start(id), es))
      {
        CalmRunLosesNothing(id, es, bound);
      }
    } else {
      LargeMessageLost(bound);
    }
  }

  /** One message of 256000000 zeros goes out, and the reader hangs up on its size. */
  lemma LargeMessageLost(bound: nat)
    requires bound > 256_000_000
    ensures exists es :: Calm(es, bound) && !NothingLost(Run(Start(0), es))
  {
    hide Run, Step, ReaderStep, S.Frame, Timeouts.Zeros;
    var m := Timeouts.Zeros(256_000_000);
    var four, size := Timeouts.Script(0, 256_000_000)[..4], AtReader(SizeRead);
    Timeouts.ScriptWrites(256_000_000);
    Timeouts.RunSnoc(Start(0), four, size);
    ZerosLength(256_000_000);
    LargeFrameRefused(m);
    var x := Timeouts.Written(256_000_000);
    assert Step(x, size) == x.(reader := ReaderStep(NewReader, S.Frame(m), SizeRead)) by { ReaderTurns(x, SizeRead); }
    assert four == [AtPublisher(P.Join), AtPublisher(P.Publish(m)), Take, AtSession(S.Write)];
    assert Calm(four + [size], bound);
  }

  lemma ZerosLength(n: nat)
    ensures |Timeouts.Zeros(n)| == n
  {
  }

  lemma ReaderTurns(x: Net, re: ReaderEvent)
    ensures Step(x, AtReader(re)) == x.(reader := ReaderStep(x.reader, x.session.wire, re))
  {
  }

  lemma LargeFrameRefused(m: Bytes)
    requires |m| == 256_000_000
    ensures !ReaderStep(NewReader, S.Frame(m), SizeRead).open
  {
    hide UnWord32, Four, S.Frame;
    FrameBytes(m);
    FourLength(|m|);
    var wire := S.Frame(m);
    assert wire[0..4 + |m|] == wire;
    SizeOf(wire, 0, m);
  }

  predicate Below(msgs: seq<Bytes>, bound: nat)
  {
    forall m <- msgs :: |m| < bound
  }

  /** The reader is aligned and has delivered exactly the messages it has passed. */
  ghost predicate Exact(x: Net, n: nat)
  {
    && n <= |Sent(x)|
    && x.reader.open
    && Aligned(Sent(x), x.session.wire, x.reader, n)
    && x.reader.delivered == Sent(x)[..n]
  }

  ghost predicate CalmInvariant(x: Net)
  {
    && NetInvariant(x)
    && x.session.running
    && Below(x.pub.published, 256_000_000)
    && exists n: nat :: Exact(x, n)
  }

  lemma CalmRunLosesNothing(id: P.SessionId, es: seq<Event>, bound: nat)
    requires Calm(es, bound) && bound <= 256_000_000
    ensures NothingLost(Run(Start(id), es))
  {
    hide Run, NetInvariant, Exact;
    CalmRun(id, es, bound);
    var x := Run(Start(id), es);
    var n: nat :| Exact(x, n);
    ExactCaughtUp(x, n);
  }

  lemma ExactCaughtUp(x: Net, n: nat)
    requires CalmInvariant(x) && Exact(x, n)
    ensures NothingLost(x)
  {
    hide P.FanOutInvariant, S.Frames, Subseq;
    if CaughtUp(x) {
      SentIsAttempted(x);
      var wire := x.session.wire;
      assert wire[..x.reader.pos] == wire;
      assert Sent(x)[..|Sent(x)|] == Sent(x);
      BoundariesApart(Sent(x), n, |Sent(x)|);
      assert Sent(x)[..n] == Sent(x);
    }
  }

  lemma {:induction false} CalmRun(id: P.SessionId, es: seq<Event>, bound: nat)
    requires Calm(es, bound) && bound <= 256_000_000
    ensures CalmInvariant(Run(Start(id), es))
    decreases |es|
  {
    hide CalmInvariant, Step;
    if es == [] {
      CalmStart(id);
    } else {
      var n := |es| - 1;
      assert forall e <- es[..n] :: e in es;
      assert Calm(es[..n], bound);
      assert es[n] in es;
      CalmRun(id, es[..n], bound);
      CalmStep(Run(Start(id), es[..n]), es[n], bound);
    }
  }

  lemma CalmStart(id: P.SessionId)
    ensures CalmInvariant(Start(id))
  {
    StartInvariant(id);
    assert Exact(Start(id), 0);
  }

  lemma CalmStep(x: Net, e: Event, bound: nat)
    requires CalmInvariant(x) && Calm([e], bound) && bound <= 256_000_000
    ensures CalmInvariant(Step(x, e))
  {
    hide NetInvariant, ReaderStep, P.Step, S.Step, Exact;
    assert e in [e];
    StepKeepsInvariant(x, e);
    var n: nat :| Exact(x, n);
    match e
    case AtPublisher(pe) =>
      CalmPublisher(x, pe);
      SameReader(x, Step(x, e), n);
    case AtReader(re) => CalmReader(x, re, n);
    case AtSession(se) =>
      if !se.Receive? {
        CalmSession(x, se, n);
      }
    case Take =>
      if x.id in x.pub.inbox && |x.session.taken| < |x.pub.inbox[x.id]| {
        CalmSession(x, S.Receive(x.pub.inbox[x.id][|x.session.taken|]), n);
      }
  }

  lemma CalmPublisher(x: Net, pe: P.Event)
    requires NetInvariant(x) && Below(x.pub.published, 256_000_000)
    requires pe.Publish? ==> |pe.msg| < 256_000_000
    ensures Below(P.Step(x.pub, pe).published, 256_000_000)
  {
    hide P.Step, P.FanOutInvariant;
    FanOutHolds(x);
    InboxGrows(x.pub, pe, x.id);
  }

  lemma SameReader(x: Net, y: Net, n: nat)
    requires Exact(x, n) && y.session == x.session && y.reader == x.reader
    ensures Exact(y, n)
  {
    hide Aligned;
  }

  /** The session's turns only add to what is sent. */
  lemma CalmSession(x: Net, se: S.Event, n: nat)
    requires NetInvariant(x) && Exact(x, n) && x.session.running && !se.Quit? && !se.WriteFails?
    ensures var y := x.(session := S.Step(x.session, se)); Exact(y, n) && y.session.running
  {
    hide P.FanOutInvariant, S.QueueInvariant, S.Attempted, S.Frames, S.Frame, Sent, Handed, Small, Subseq, Aligned;
    var y := x.(session := S.Step(x.session, se));
    SessionExtends(x.session, se);
    SentIsAttempted(x);
    SentIsAttempted(y);
    AlignmentSurvives(Sent(x), Sent(y), x.session.wire, y.session.wire, x.reader, n);
    assert Sent(y)[..n] == Sent(x)[..n];
  }

  lemma SentBelow(x: Net)
    requires NetInvariant(x) && Below(x.pub.published, 256_000_000)
    ensures Below(Sent(x), 256_000_000) && Small(Sent(x))
  {
    hide S.QueueInvariant, Subseq, Aligned, P.Members;
    SentIsSubseqOfHanded(x);
    forall m <- Sent(x)
      ensures |m| < 256_000_000
    {
      SubseqMember(Sent(x), Handed(x), m);
      HandedIsPublished(x.pub, x.id);
    }
  }

  lemma CalmReader(x: Net, re: ReaderEvent, n: nat)
    requires NetInvariant(x) && Exact(x, n) && Below(x.pub.published, 256_000_000)
    requires !re.Lost? && (re.SizeTimeout? ==> re.consumed == 0) && (re.BodyRead? ==> re.accepted)
    ensures var y := x.(reader := ReaderStep(x.reader, x.session.wire, re)); exists k: nat :: Exact(y, k)
  {
    hide P.FanOutInvariant, S.Frames, S.Attempted, Subseq, UnWord32, Sent;
    SentBelow(x);
    WirePrefix(x);
    var y := x.(reader := ReaderStep(x.reader, x.session.wire, re));
    assert Sent(y) == Sent(x) by { SameSent(x, y); }
    match re
    case SizeRead =>
      CalmSize(Sent(x), x.session.wire, x.reader, n);
      assert Exact(y, n);
    case BodyRead(_) =>
      var k := CalmBody(Sent(x), x.session.wire, x.reader, n);
      assert Exact(y, k);
    case SizeTimeout(_) => assert Exact(y, n);
  }

  lemma SameSent(x: Net, y: Net)
    requires x.session == y.session
    ensures Sent(x) == Sent(y)
  {
  }

  lemma WirePrefix(x: Net)
    requires NetInvariant(x)
    ensures x.session.wire <= S.Frames(Sent(x))
  {
    hide P.FanOutInvariant, S.Frames, S.Attempted;
  }

  lemma CalmSize(msgs: seq<Bytes>, wire: Bytes, r: Transport.Reader, n: nat)
    requires Small(msgs) && Below(msgs, 256_000_000) && wire <= S.Frames(msgs) && r.open && Aligned(msgs, wire, r, n)
    ensures var t := ReaderStep(r, wire, SizeRead); t.open && t.delivered == r.delivered && Aligned(msgs, wire, t, n)
  {
    hide S.Frames, Word32, UnWord32, Subseq;
    SizeReadKeepsAlignment(msgs, wire, r, n);
    if r.readingSize && |wire| - r.pos >= 4 {
      assert msgs[..|msgs|] == msgs;
      assert wire[..r.pos] == S.Frames(msgs[..n]);
      NextFrame(msgs, n);
      assert wire[..r.pos + 4] == S.Frames(msgs[..n]) + Word32(|msgs[n]|);
      assert wire[r.pos..r.pos + 4] == wire[..r.pos + 4][r.pos..] == Word32(|msgs[n]|);
      Word32RoundTrip(|msgs[n]|);
      assert msgs[n] in msgs;
    }
  }

  lemma CalmBody(msgs: seq<Bytes>, wire: Bytes, r: Transport.Reader, n: nat) returns (k: nat)
    requires Small(msgs) && wire <= S.Frames(msgs) && r.open && Aligned(msgs, wire, r, n) && r.delivered == msgs[..n]
    ensures var t := ReaderStep(r, wire, BodyRead(true));
            t.open && k <= |msgs| && Aligned(msgs, wire, t, k) && t.delivered == msgs[..k]
  {
    hide S.Frames, Word32, Subseq;
    var t := ReaderStep(r, wire, BodyRead(true));
    if !r.readingSize && |wire| - r.pos >= r.msgSize {
      k := n + 1;
      NextFrame(msgs, n);
      assert wire[..t.pos] == S.Frames(msgs[..n + 1]);
      assert wire[r.pos..t.pos] == wire[..t.pos][r.pos..] == msgs[n];
      assert msgs[..n + 1] == msgs[..n] + [msgs[n]];
      SubseqKeep(r.delivered, msgs[..n], msgs[n]);
    } else {
      k := n;
    }
  }

  /** When, besides, the queue is empty and has dropped nothing, everything the session took has arrived. */
  lemma EverythingArrives(id: P.SessionId, es: seq<Event>)
    requires Calm(es, 256_000_000)
    requires var x := Run(Start(id), es);
             CaughtUp(x) && x.session.queue == [] && forall f <- x.session.fates :: !f.Dropped?
    ensures var x := Run(Start(id), es);
            && x.reader.delivered == x.session.taken
            && (|x.session.taken| == |Handed(x)| ==> x.reader.delivered == Handed(x))
  {
    hide Run, Handed;
    CalmRunLosesNothing(id, es, 256_000_000);
    CalmRun(id, es, 256_000_000);
    TakenIsSent(Run(Start(id), es));
  }

  lemma TakenIsSent(x: Net)
    requires CalmInvariant(x) && x.session.queue == [] && forall f <- x.session.fates :: !f.Dropped?
    ensures Sent(x) == x.session.taken
    ensures |x.session.taken| == |Handed(x)| ==> x.session.taken == Handed(x)
  {
    hide P.FanOutInvariant, S.Frames, S.Attempted, Aligned, Subseq;
    var s := x.session;
    UndroppedIsTaken(s.taken, s.fates);
    assert s.taken[..|s.fates|] == s.taken;
  }

  lemma {:induction false} UndroppedIsTaken(taken: seq<Bytes>, fates: seq<S.Fate>)
    requires |fates| <= |taken| && forall f <- fates :: !f.Dropped?
    ensures S.Attempted(taken, fates) == taken[..|fates|]
    decreases |fates|
  {
    if fates != [] {
      var n := |fates| - 1;
      UndroppedIsTaken(taken, fates[..n]);
      assert taken[..n + 1] == taken[..n] + [taken[n]];
      assert fates[n] in fates;
    }
  }

  // ---------------------------------------------------------------- a run on which it all happens

  /** A session joins; then each message is published, taken, written and read before the next. */
  function Rounds(msgs: seq<Bytes>): seq<Event>
  {
    if msgs == [] then [AtPublisher(P.Join)] else Rounds(msgs[..|msgs| - 1]) + Round(msgs[|msgs| - 1])
  }

  function Round(m: Bytes): seq<Event>
  {
    [AtPublisher(P.Publish(m)), Take, AtSession(S.Write), AtReader(SizeRead), AtReader(BodyRead(true))]
  }

  /** Everything up to here has been published, sent and delivered. */
  ghost predicate Settled(x: Net, msgs: seq<Bytes>)
  {
    && x.pub == P.State(true, [0], map[0 := msgs], {}, msgs, map[0 := 0], map[], 1) && x.id == 0
    && x.session.running && x.session.taken == msgs && x.session.queue == []
    && x.reader.open && CaughtUp(x) && x.reader.delivered == msgs
  }

  /** Any messages below the limit, of any number, are delivered by this run. */
  lemma {:induction false} RoundsDeliver(msgs: seq<Bytes>)
    requires Below(msgs, 256_000_000)
    ensures Settled(Run(Start(0), Rounds(msgs)), msgs)
  {
    hide Run, Settled, Round;
    if msgs == [] {
      JoinSettles();
    } else {
      var n := |msgs| - 1;
      assert msgs[n] in msgs && forall m <- msgs[..n] :: m in msgs;
      RoundsDeliver(msgs[..n]);
      RoundRuns(Rounds(msgs[..n]), msgs[n]);
      RoundDelivers(Run(Start(0), Rounds(msgs[..n])), msgs[..n], msgs[n]);
      assert msgs[..n] + [msgs[n]] == msgs;
    }
  }

  lemma JoinSettles()
    ensures Settled(Run(Start(0), [AtPublisher(P.Join)]), [])
  {
    var one := [AtPublisher(P.Join)];
    assert one[..0] == [];
    assert Run(Start(0), []) == Start(0);
  }

  lemma RoundRuns(es: seq<Event>, m: Bytes)
    ensures Run(Start(0), es + Round(m)) ==
            Step(Step(Step(Step(Step(Run(Start(0), es), AtPublisher(P.Publish(m))), Take), AtSession(S.Write)),
                      AtReader(SizeRead)), AtReader(BodyRead(true)))
  {
    hide Run, Step;
    var r := Round(m);
    assert es + r == es + [r[0]] + [r[1]] + [r[2]] + [r[3]] + [r[4]];
    Timeouts.RunSnoc(Start(0), es, r[0]);
    Timeouts.RunSnoc(Start(0), es + [r[0]], r[1]);
    Timeouts.RunSnoc(Start(0), es + [r[0]] + [r[1]], r[2]);
    Timeouts.RunSnoc(Start(0), es + [r[0]] + [r[1]] + [r[2]], r[3]);
    Timeouts.RunSnoc(Start(0), es + [r[0]] + [r[1]] + [r[2]] + [r[3]], r[4]);
  }

  lemma RoundDelivers(x: Net, msgs: seq<Bytes>, m: Bytes)
    requires Settled(x, msgs) && |m| < 256_000_000
    ensures Settled(Step(Step(Step(Step(Step(x, AtPublisher(P.Publish(m))), Take), AtSession(S.Write)),
                              AtReader(SizeRead)), AtReader(BodyRead(true))), msgs + [m])
  {
    hide S.Frame, ReaderStep, P.FanOut;
    PublishReaches(msgs, m);
    var a := Step(x, AtPublisher(P.Publish(m)));
    var b := Step(a, Take);
    assert b.session == x.session.(taken := msgs + [m], queue := [m]);
    var c := Step(b, AtSession(S.Write));
    assert c.session.wire == x.session.wire + S.Frame(m) && c.session.queue == [];
    FrameBytes(m);
    FourLength(|m|);
    var pos := x.reader.pos;
    assert c.session.wire[pos..pos + 4 + |m|] == S.Frame(m);
    FrameDeliveredIff(x.reader, c.session.wire, m);
  }

  lemma PublishReaches(msgs: seq<Bytes>, m: Bytes)
    ensures P.FanOut(map[0 := msgs], [0], m) == map[0 := msgs + [m]]
  {
    var inbox: map<P.SessionId, seq<Bytes>> := map[0 := msgs];
    var one: seq<P.SessionId> := [0];
    assert one[..0] == [];
    assert P.FanOut(inbox, one[..0], m) == inbox;
    assert inbox[0 := msgs + [m]] == map[0 := msgs + [m]];
  }
}
