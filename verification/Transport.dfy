/** One TCPROS connection end to end: the publisher's loop, one of its sessions, the TCP stream,
    and the subscriber's frame reader, taking turns in any order. */
module Transport {
  import opened Wire
  import opened Subsequence
  import S = Session
  import P = Publisher

  type Bytes = seq<Byte>

  /** A frame announced as this long or longer makes the reader drop the connection. */
  const SIZE_LIMIT := 256_000_000

  // ---------------------------------------------------------------- the frame reader

  /** Outcomes of one turn of the reading loop. `SizeTimeout(k)` is a deadline that strikes after k
      bytes of the size have been read; they are gone. `Lost` covers quit, disconnection and closing. */
  datatype ReaderEvent =
    | SizeRead
    | SizeTimeout(consumed: nat)
    | BodyRead(accepted: bool)
    | Lost

  /** `pos` counts the stream bytes consumed; `delivered` is what msgChan accepted. */
  datatype Reader = Reader(open: bool, readingSize: bool, msgSize: Word, pos: nat, delivered: seq<Bytes>)

  const NewReader := Reader(true, true, 0, 0, [])

  function ReaderStep(r: Reader, wire: Bytes, e: ReaderEvent): Reader
  {
    if !r.open || r.pos > |wire| then r else
    match e
    case SizeRead =>
      if !r.readingSize || |wire| - r.pos < 4 then r
      else
        var size := UnWord32(wire[r.pos..r.pos + 4]);
        if size < SIZE_LIMIT then r.(readingSize := false, msgSize := size, pos := r.pos + 4)
        else r.(open := false, pos := r.pos + 4)
    case SizeTimeout(k) =>
      if !r.readingSize || k >= 4 || |wire| - r.pos < k then r else r.(pos := r.pos + k)
    case BodyRead(accepted) =>
      if r.readingSize || |wire| - r.pos < r.msgSize then r
      else
        var body := wire[r.pos..r.pos + r.msgSize];
        r.(readingSize := true, pos := r.pos + r.msgSize,
           delivered := if accepted then r.delivered + [body] else r.delivered)
    case Lost => r.(open := false)
  }

  /** A new connection: everything starts afresh but the channel. */
  function Redialled(r: Reader): Reader
  {
    NewReader.(delivered := r.delivered)
  }

  class RemotePublisherConn {
    var open: bool
    var readingSize: bool
    var msgSize: Word
    var pos: nat
    var msgChan: seq<Bytes>

    constructor ()
      ensures Current() == NewReader
    {
      open, readingSize, msgSize, pos, msgChan := true, true, 0, 0, [];
    }

    function Current(): Reader
      reads this
    {
      Reader(open, readingSize, msgSize, pos, msgChan)
    }

    /** The jump back to the dialling loop. */
    method Redial()
      modifies this
      ensures Current() == Redialled(old(Current()))
    {
      open, readingSize, msgSize, pos := true, true, 0, 0;
    }

    /** One turn of the loop, on the bytes the stream holds so far. */
    method Turn(wire: Bytes, e: ReaderEvent)
      modifies this
      ensures Current() == ReaderStep(old(Current()), wire, e)
    {
      if !open || pos > |wire| {
        return;
      }
      match e
      case SizeRead =>
        if readingSize && |wire| - pos >= 4 {
          var size := UnWord32(wire[pos..pos + 4]);
          pos := pos + 4;
          if size < SIZE_LIMIT {
            msgSize, readingSize := size, false;
          } else {
            open := false;
          }
        }
      case SizeTimeout(k) =>
        if readingSize && k < 4 && |wire| - pos >= k {
          pos := pos + k;
        }
      case BodyRead(accepted) =>
        if !readingSize && |wire| - pos >= msgSize {
          var buffer := wire[pos..pos + msgSize];
          pos, readingSize := pos + msgSize, true;
          if accepted {
            msgChan := msgChan + [buffer];
          }
        }
      case Lost =>
        open := false;
    }
  }

  // ---------------------------------------------------------------- framing

  lemma {:induction false} FramesPrefix(msgs: seq<Bytes>, n: nat)
    requires n <= |msgs|
    ensures S.Frames(msgs[..n]) <= S.Frames(msgs)
    decreases |msgs|
  {
    hide S.Frame;
    if n < |msgs| {
      FramesPrefix(msgs[..|msgs| - 1], n);
      assert msgs[..|msgs| - 1][..n] == msgs[..n];
    } else {
      assert msgs[..n] == msgs;
    }
  }

  /** The frame after a boundary: the size word, then the message. */
  lemma NextFrame(msgs: seq<Bytes>, n: nat)
    requires n < |msgs| && |msgs[n]| < TWO_TO_32
    ensures S.Frames(msgs[..n]) + Word32(|msgs[n]|) + msgs[n] == S.Frames(msgs[..n + 1])
    ensures S.Frames(msgs[..n + 1]) <= S.Frames(msgs)
  {
    hide S.Frames, Word32;
    assert msgs[..n] + [msgs[n]] == msgs[..n + 1];
    S.FramesNext(msgs[..n], msgs[n]);
    FramesPrefix(msgs, n + 1);
    assert S.Frame(msgs[n]) == Word32(|msgs[n]|) + msgs[n];
    assert S.Frames(msgs[..n]) + (Word32(|msgs[n]|) + msgs[n]) == S.Frames(msgs[..n]) + Word32(|msgs[n]|) + msgs[n];
  }

  /** The reader stands at the `n`th frame boundary, or just past the size of the `n`th frame,
      and has delivered some of the messages before it. */
  ghost predicate Aligned(msgs: seq<Bytes>, wire: Bytes, r: Reader, n: nat)
  {
    && n <= |msgs|
    && r.pos <= |wire|
    && Subseq(r.delivered, msgs[..n])
    && if r.readingSize then wire[..r.pos] == S.Frames(msgs[..n])
       else n < |msgs| && r.msgSize == |msgs[n]| && wire[..r.pos] == S.Frames(msgs[..n]) + Word32(|msgs[n]|)
  }

  predicate Small(msgs: seq<Bytes>)
  {
    forall m <- msgs :: |m| < TWO_TO_32
  }

  lemma SizeReadKeepsAlignment(msgs: seq<Bytes>, wire: Bytes, r: Reader, n: nat)
    requires Small(msgs) && wire <= S.Frames(msgs) && r.open && Aligned(msgs, wire, r, n)
    ensures var r' := ReaderStep(r, wire, SizeRead);
            r'.delivered == r.delivered && (r'.open ==> Aligned(msgs, wire, r', n))
  {
    hide S.Frames, Word32, UnWord32, Subseq;
    if r.readingSize && |wire| - r.pos >= 4 {
      assert msgs[..|msgs|] == msgs;
      NextFrame(msgs, n);
      assert S.Frames(msgs[..n]) + Word32(|msgs[n]|) <= S.Frames(msgs);
      assert wire[..r.pos + 4] == S.Frames(msgs[..n]) + Word32(|msgs[n]|);
      assert wire[r.pos..r.pos + 4] == wire[..r.pos + 4][r.pos..] == Word32(|msgs[n]|);
      Word32RoundTrip(|msgs[n]|);
    }
  }

  lemma BodyReadKeepsAlignment(msgs: seq<Bytes>, wire: Bytes, r: Reader, n: nat, accepted: bool)
    requires Small(msgs) && wire <= S.Frames(msgs) && r.open && Aligned(msgs, wire, r, n)
    ensures var r' := ReaderStep(r, wire, BodyRead(accepted));
            exists n' :: n <= n' <= n + 1 && Aligned(msgs, wire, r', n')
  {
    hide S.Frames, Word32, Subseq;
    var r' := ReaderStep(r, wire, BodyRead(accepted));
    if !r.readingSize && |wire| - r.pos >= r.msgSize {
      NextFrame(msgs, n);
      assert wire[..r'.pos] == S.Frames(msgs[..n + 1]);
      assert wire[r.pos..r'.pos] == wire[..r'.pos][r.pos..] == msgs[n];
      assert msgs[..n + 1] == msgs[..n] + [msgs[n]];
      SubseqSkip(r.delivered, msgs[..n], msgs[n]);
      SubseqKeep(r.delivered, msgs[..n], msgs[n]);
      assert Aligned(msgs, wire, r', n + 1);
    } else {
      assert Aligned(msgs, wire, r', n);
    }
  }

  ghost predicate AtBoundary(msgs: seq<Bytes>, stream: Bytes)
  {
    exists n :: 0 <= n <= |msgs| && stream == S.Frames(msgs[..n])
  }

  /** A size timeout leaves the reader on a frame boundary exactly when it consumed nothing. */
  lemma TimeoutAtBoundaryIff(msgs: seq<Bytes>, wire: Bytes, r: Reader, n: nat, k: nat)
    requires wire <= S.Frames(msgs) && r.open && r.readingSize && Aligned(msgs, wire, r, n)
    requires k < 4 && |wire| - r.pos >= k
    ensures ReaderStep(r, wire, SizeTimeout(k)).pos == r.pos + k
    ensures AtBoundary(msgs, wire[..r.pos + k]) <==> k == 0
  {
    hide S.Frames, Word32, Subseq;
    if k > 0 && AtBoundary(msgs, wire[..r.pos + k]) {
      var n' :| 0 <= n' <= |msgs| && wire[..r.pos + k] == S.Frames(msgs[..n']);
      BoundariesApart(msgs, n, n');
    }
  }

  /** Distinct frame boundaries are at least a size word apart. */
  lemma BoundariesApart(msgs: seq<Bytes>, n: nat, n': nat)
    requires n <= |msgs| && n' <= |msgs|
    ensures n < n' ==> |S.Frames(msgs[..n])| + 4 <= |S.Frames(msgs[..n'])|
    ensures n' <= n ==> |S.Frames(msgs[..n'])| <= |S.Frames(msgs[..n])|
  {
    hide S.Frames;
    if n < n' {
      assert msgs[..n + 1] == msgs[..n] + [msgs[n]];
      S.FramesNext(msgs[..n], msgs[n]);
      FramesPrefix(msgs[..n'], n + 1);
      assert msgs[..n'][..n + 1] == msgs[..n + 1];
    } else {
      FramesPrefix(msgs[..n], n');
      assert msgs[..n][..n'] == msgs[..n'];
    }
  }

  // ---------------------------------------------------------------- the whole connection

  /** Turns of the four parties. `Take` is the session receiving the next message that fan-out has
      put on its channel; the session's other turns come with `AtSession`. */
  datatype Event =
    | AtPublisher(pe: P.Event)
    | Take
    | AtSession(se: S.Event)
    | AtReader(re: ReaderEvent)

  /** The connection of session `id`. */
  datatype Net = Net(pub: P.State, id: P.SessionId, session: S.State, reader: Reader)

  function Start(id: P.SessionId): Net
  {
    Net(P.Initial, id, S.Initial, NewReader)
  }

  function Step(x: Net, e: Event): Net
  {
    match e
    case AtPublisher(pe) => x.(pub := P.Step(x.pub, pe))
    case Take =>
      if x.id in x.pub.inbox && |x.session.taken| < |x.pub.inbox[x.id]| then
        x.(session := S.Step(x.session, S.Receive(x.pub.inbox[x.id][|x.session.taken|])))
      else x
    case AtSession(se) => if se.Receive? then x else x.(session := S.Step(x.session, se))
    case AtReader(re) => x.(reader := ReaderStep(x.reader, x.session.wire, re))
  }

  function Run(x: Net, es: seq<Event>): Net
  {
    if es == [] then x else Step(Run(x, es[..|es| - 1]), es[|es| - 1])
  }

  /** No deadline struck inside a size word, and no message needs more than 32 bits of length. */
  predicate Benign(es: seq<Event>)
  {
    forall e <- es ::
      && (e.AtReader? && e.re.SizeTimeout? ==> e.re.consumed == 0)
      && (e.AtPublisher? && e.pe.Publish? ==> |e.pe.msg| < TWO_TO_32)
  }

  function Sent(x: Net): seq<Bytes>
  {
    if |x.session.fates| <= |x.session.taken| then S.Attempted(x.session.taken, x.session.fates) else []
  }

  ghost predicate NetInvariant(x: Net)
  {
    && P.FanOutInvariant(x.pub)
    && S.QueueInvariant(x.session)
    && Small(x.pub.published)
    && x.session.taken <= Handed(x)
    && exists n: nat :: ReaderInvariant(x, n)
  }

  /** What fan-out has put on the session's channel. */
  function Handed(x: Net): seq<Bytes>
  {
    if x.id in x.pub.inbox then x.pub.inbox[x.id] else []
  }

  ghost predicate ReaderInvariant(x: Net, n: nat)
  {
    && n <= |Sent(x)|
    && Subseq(x.reader.delivered, Sent(x)[..n])
    && (x.reader.open ==> Aligned(Sent(x), x.session.wire, x.reader, n))
  }

  /** A session turn only extends what was sent and what is on the wire. */
  lemma SessionExtends(s: S.State, e: S.Event)
    requires S.QueueInvariant(s)
    ensures S.QueueInvariant(S.Step(s, e))
    ensures S.Attempted(s.taken, s.fates) <= S.Attempted(S.Step(s, e).taken, S.Step(s, e).fates)
    ensures s.wire <= S.Step(s, e).wire
    ensures S.Step(s, e).taken == if s.running && e.Receive? then s.taken + [e.msg] else s.taken
  {
    hide S.Frames, S.Attempted, S.Frame;
    S.StepKeepsInvariant(s, e);
    if s.running {
      match e
      case Receive(m) =>
        S.AttemptedExtend(s.taken, m, s.fates);
        if |s.queue| == S.QUEUE_MAX_SIZE {
          S.AttemptedNext(s.taken + [m], s.fates, S.Dropped);
        }
      case Quit =>
      case Write =>
        if s.queue != [] {
          S.AttemptedNext(s.taken, s.fates, S.Sent);
        }
      case WriteFails(k) =>
        if s.queue != [] {
          S.AttemptedNext(s.taken, s.fates, S.Broken);
        }
    }
  }

  lemma AlignmentSurvives(a: seq<Bytes>, b: seq<Bytes>, wire: Bytes, wire': Bytes, r: Reader, n: nat)
    requires a <= b && wire <= wire' && Aligned(a, wire, r, n)
    ensures Aligned(b, wire', r, n)
  {
    hide S.Frames, Word32, Subseq;
    assert b[..n] == a[..n];
    assert wire'[..r.pos] == wire[..r.pos];
  }

  lemma SentIsAttempted(x: Net)
    requires S.QueueInvariant(x.session)
    ensures |x.session.fates| <= |x.session.taken| && Sent(x) == S.Attempted(x.session.taken, x.session.fates)
  {
  }

  lemma HandedIsInbox(x: Net, y: Net)
    requires x.id == y.id && x.pub == y.pub
    ensures Handed(x) == Handed(y)
  {
  }

  lemma SessionTurn(x: Net, se: S.Event)
    requires NetInvariant(x)
    requires se.Receive? ==> |x.session.taken| < |Handed(x)| && se.msg == Handed(x)[|x.session.taken|]
    ensures NetInvariant(x.(session := S.Step(x.session, se)))
  {
    hide P.FanOutInvariant, S.QueueInvariant, S.Step, S.Attempted, Sent, Handed, Small, Subseq, Aligned;
    var y := x.(session := S.Step(x.session, se));
    SessionExtends(x.session, se);
    SentIsAttempted(x);
    SentIsAttempted(y);
    assert Handed(y) == Handed(x) by { HandedIsInbox(x, y); }
    var n: nat :| ReaderInvariant(x, n);
    assert Sent(y)[..n] == Sent(x)[..n];
    if x.reader.open {
      AlignmentSurvives(Sent(x), Sent(y), x.session.wire, y.session.wire, x.reader, n);
    }
    assert ReaderInvariant(y, n);
  }

  lemma InboxGrows(p: P.State, e: P.Event, id: P.SessionId)
    requires P.FanOutInvariant(p)
    ensures id in p.inbox ==> id in P.Step(p, e).inbox && p.inbox[id] <= P.Step(p, e).inbox[id]
    ensures P.Step(p, e).published == if p.running && e.Publish? then p.published + [e.msg] else p.published
  {
    hide P.FanOut, P.Remove, P.Distinct, P.Contiguous;
    if p.running && e.Publish? {
      P.FanOutReachesEachOnce(p.inbox, p.sessions, e.msg);
    } else if p.running && e.Join? && id in p.inbox {
      assert id in p.joined && id != p.next;
    }
  }

  /** A publisher turn only extends the channel of a session. */
  lemma PublisherTurn(x: Net, pe: P.Event)
    requires NetInvariant(x) && (pe.Publish? ==> |pe.msg| < TWO_TO_32)
    ensures NetInvariant(x.(pub := P.Step(x.pub, pe)))
  {
    hide S.QueueInvariant, P.FanOutInvariant, P.Step, S.Attempted, Aligned;
    P.StepKeepsInvariant(x.pub, pe);
    InboxGrows(x.pub, pe, x.id);
    var y := x.(pub := P.Step(x.pub, pe));
    var n: nat :| ReaderInvariant(x, n);
    assert ReaderInvariant(y, n);
  }

  lemma SentIsSubseqOfHanded(x: Net)
    requires NetInvariant(x)
    ensures Subseq(Sent(x), Handed(x))
  {
    hide P.FanOutInvariant, S.Frames, Aligned;
    var s := x.session;
    S.AttemptedIsSubseq(s.taken, s.fates);
    SubseqOfPrefix(Sent(x), s.taken[..|s.fates|], Handed(x));
  }

  lemma SentSmall(x: Net)
    requires NetInvariant(x)
    ensures Small(Sent(x))
  {
    hide S.QueueInvariant, Subseq, Aligned, P.Members;
    SentIsSubseqOfHanded(x);
    forall m <- Sent(x)
      ensures |m| < TWO_TO_32
    {
      SubseqMember(Sent(x), Handed(x), m);
      assert m in x.pub.published by {
        HandedIsPublished(x.pub, x.id);
      }
    }
  }

  lemma HandedIsPublished(p: P.State, id: P.SessionId)
    requires P.FanOutInvariant(p)
    ensures id in p.inbox <==> id in p.joined
    ensures id in p.inbox ==> P.RunOf(p, id)
  {
  }

  lemma ReaderTurn(x: Net, re: ReaderEvent)
    requires NetInvariant(x) && (re.SizeTimeout? ==> re.consumed == 0)
    ensures NetInvariant(x.(reader := ReaderStep(x.reader, x.session.wire, re)))
  {
    hide P.FanOutInvariant, S.Frames, S.Attempted, Subseq, UnWord32;
    SentSmall(x);
    var r, wire := x.reader, x.session.wire;
    var y := x.(reader := ReaderStep(r, wire, re));
    var n: nat :| ReaderInvariant(x, n);
    if !r.open {
      assert ReaderInvariant(y, n);
    } else {
      match re
      case SizeRead =>
        hide Aligned;
        SizeReadKeepsAlignment(Sent(x), wire, r, n);
        assert ReaderInvariant(y, n);
      case BodyRead(accepted) =>
        BodyReadKeepsAlignment(Sent(x), wire, r, n, accepted);
        var n' :| n <= n' <= n + 1 && Aligned(Sent(x), wire, y.reader, n');
        assert ReaderInvariant(y, n');
      case _ =>
        assert ReaderInvariant(y, n);
    }
  }

  lemma {:induction false} RunKeepsInvariant(id: P.SessionId, es: seq<Event>)
    requires Benign(es)
    ensures NetInvariant(Run(Start(id), es))
    decreases |es|
  {
    hide NetInvariant, ReaderStep, P.Step, S.Step, P.FanOutInvariant, S.QueueInvariant;
    if es == [] {
      StartInvariant(id);
    } else {
      var n := |es| - 1;
      assert Benign(es[..n]);
      var e := es[n];
      assert e in es;
      RunKeepsInvariant(id, es[..n]);
      StepKeepsInvariant(Run(Start(id), es[..n]), e);
    }
  }

  lemma StartInvariant(id: P.SessionId)
    ensures NetInvariant(Start(id))
  {
    assert ReaderInvariant(Start(id), 0);
  }

  lemma StepKeepsInvariant(x: Net, e: Event)
    requires NetInvariant(x) && Benign([e])
    ensures NetInvariant(Step(x, e))
  {
    hide NetInvariant, ReaderStep, P.Step, S.Step, P.FanOutInvariant, S.QueueInvariant;
    assert e in [e];
    match e
    case AtPublisher(pe) => PublisherTurn(x, pe);
    case Take =>
      if x.id in x.pub.inbox && |x.session.taken| < |x.pub.inbox[x.id]| {
        SessionTurn(x, S.Receive(x.pub.inbox[x.id][|x.session.taken|]));
      }
    case AtSession(se) =>
      if !se.Receive? {
        SessionTurn(x, se);
      }
    case AtReader(re) => ReaderTurn(x, re);
  }

  lemma DeliveredFromHanded(x: Net)
    requires NetInvariant(x)
    ensures Subseq(x.reader.delivered, Handed(x))
    ensures x.id in x.pub.joined ==>
              && x.pub.joined[x.id] <= P.End(x.pub, x.id) <= |x.pub.published|
              && Handed(x) == x.pub.published[x.pub.joined[x.id]..P.End(x.pub, x.id)]
    ensures x.id !in x.pub.joined ==> Handed(x) == []
  {
    hide S.QueueInvariant, P.FanOutInvariant, S.Attempted, Aligned, Subseq;
    var n: nat :| ReaderInvariant(x, n);
    SentIsSubseqOfHanded(x);
    SubseqOfPrefix(x.reader.delivered, Sent(x)[..n], Sent(x));
    SubseqTransitive(x.reader.delivered, Sent(x), Handed(x));
    HandedIsPublished(x.pub, x.id);
  }

  /** Over every benign run: what reaches the subscriber's channel is an in-order subsequence, bytes
      intact, of the publications processed between the session's joining and its leaving. */
  lemma OrderedDelivery(id: P.SessionId, es: seq<Event>)
    requires Benign(es)
    ensures var x := Run(Start(id), es);
            && Subseq(x.reader.delivered, Handed(x))
            && (x.reader.delivered != [] ==>
                  && id in x.pub.joined
                  && x.pub.joined[id] <= P.End(x.pub, id) <= |x.pub.published|
                  && Handed(x) == x.pub.published[x.pub.joined[id]..P.End(x.pub, id)])
  {
    hide Run, NetInvariant;
    RunKeepsInvariant(id, es);
    IdKept(id, es);
    DeliveredFromHanded(Run(Start(id), es));
  }

  /** A connection opened beside a running publisher starts like one opened at the beginning. */
  lemma FreshConnection(x: Net, id: P.SessionId)
    requires NetInvariant(x)
    ensures NetInvariant(Net(x.pub, id, S.Initial, NewReader))
  {
    hide P.FanOutInvariant;
    assert ReaderInvariant(Net(x.pub, id, S.Initial, NewReader), 0);
  }

  lemma FanOutHolds(x: Net)
    requires NetInvariant(x)
    ensures P.FanOutInvariant(x.pub)
  {
  }

  lemma {:induction false} IdKept(id: P.SessionId, es: seq<Event>)
    ensures Run(Start(id), es).id == id
    decreases |es|
  {
    hide ReaderStep, P.Step, S.Step;
    if es != [] {
      IdKept(id, es[..|es| - 1]);
    }
  }
}
