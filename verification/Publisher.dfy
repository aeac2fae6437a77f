/** defaultPublisher: the loop that fans each publication out to the sessions on its list. */
module Publisher {
  import opened Wire

  type Bytes = seq<Byte>

  /** A session; ids are handed out at connection time, so they never repeat. */
  type SessionId = nat

  datatype Event =
    | Publish(msg: Bytes)
    | Join
    | Leave(id: SessionId)
    | ListenerClosed
    | Shutdown

  /** `inbox[s]` is what fan-out has put on session s's channel. `published` is the history of
      processed publications, `joined` and `left` the points in it where sessions came and went. */
  datatype State = State(running: bool, sessions: seq<SessionId>, inbox: map<SessionId, seq<Bytes>>,
                         quits: set<SessionId>,
                         published: seq<Bytes>, joined: map<SessionId, nat>, left: map<SessionId, nat>, next: SessionId)

  const Initial := State(true, [], map[], {}, [], map[], map[], 0)

  /** list.Remove of the first element holding `id`. */
  function Remove(sessions: seq<SessionId>, id: SessionId): seq<SessionId>
  {
    if sessions == [] then []
    else if sessions[0] == id then sessions[1..]
    else [sessions[0]] + Remove(sessions[1..], id)
  }

  function FanOut(inbox: map<SessionId, seq<Bytes>>, sessions: seq<SessionId>, msg: Bytes): map<SessionId, seq<Bytes>>
  {
    if sessions == [] then inbox
    else
      var before := FanOut(inbox, sessions[..|sessions| - 1], msg);
      var s := sessions[|sessions| - 1];
      if s in before then before[s := before[s] + [msg]] else before
  }

  function Step(p: State, e: Event): State
  {
    if !p.running then p else
    match e
    case Publish(m) => p.(inbox := FanOut(p.inbox, p.sessions, m), published := p.published + [m])
    case Join => p.(sessions := p.sessions + [p.next], inbox := p.inbox[p.next := []],
                    joined := p.joined[p.next := |p.published|], next := p.next + 1)
    case Leave(id) =>
      if id in p.sessions then p.(sessions := Remove(p.sessions, id), left := p.left[id := |p.published|]) else p
    case ListenerClosed => p.(running := false)
    case Shutdown => p.(running := false, sessions := [], quits := p.quits + (set s <- p.sessions))
  }

  function Run(p: State, es: seq<Event>): State
  {
    if es == [] then p else Step(Run(p, es[..|es| - 1]), es[|es| - 1])
  }

  /** Where the run of publications seen by `s` ends. */
  function End(p: State, s: SessionId): nat
  {
    if s in p.left then p.left[s] else |p.published|
  }

  ghost predicate Distinct(sessions: seq<SessionId>)
  {
    forall i, j | 0 <= i < j < |sessions| :: sessions[i] != sessions[j]
  }

  /** Who is on the list: every session that joined and has not left, once. */
  ghost predicate Members(p: State)
  {
    && Distinct(p.sessions)
    && p.inbox.Keys == p.joined.Keys
    && (forall s <- p.sessions :: s in p.joined)
    && (forall s <- p.joined :: s < p.next)
    && (forall s <- p.left :: s in p.joined && s !in p.sessions)
    && (p.running ==> forall s <- p.joined :: s in p.sessions || s in p.left)
  }

  /** Each inbox is the contiguous run of publications between joining and leaving. */
  ghost predicate Contiguous(p: State)
  {
    forall s <- p.joined :: RunOf(p, s)
  }

  ghost predicate RunOf(p: State, s: SessionId)
    requires s in p.joined
  {
    && s in p.inbox
    && p.joined[s] <= End(p, s) <= |p.published|
    && p.inbox[s] == p.published[p.joined[s]..End(p, s)]
  }

  ghost predicate FanOutInvariant(p: State)
  {
    Members(p) && Contiguous(p)
  }

  lemma DistinctAppend(sessions: seq<SessionId>, s: SessionId)
    requires Distinct(sessions) && s !in sessions
    ensures Distinct(sessions + [s])
  {
  }

  lemma {:induction false} RemoveKeepsOthers(sessions: seq<SessionId>, id: SessionId)
    requires Distinct(sessions)
    ensures Distinct(Remove(sessions, id))
    ensures forall s :: s in Remove(sessions, id) <==> s in sessions && s != id
  {
    if sessions != [] {
      var tail := sessions[1..];
      RemoveKeepsOthers(tail, id);
      assert forall s :: s in sessions <==> s == sessions[0] || s in tail;
      assert sessions[0] !in tail;
      if sessions[0] != id {
        var r := Remove(tail, id);
        assert forall j | 0 <= j < |r| :: r[j] in tail;
      }
    }
  }

  lemma {:induction false} FanOutReachesEachOnce(inbox: map<SessionId, seq<Bytes>>, sessions: seq<SessionId>,
                                                 msg: Bytes)
    requires Distinct(sessions) && forall s <- sessions :: s in inbox
    ensures var r := FanOut(inbox, sessions, msg);
            && r.Keys == inbox.Keys
            && forall s <- inbox :: r[s] == if s in sessions then inbox[s] + [msg] else inbox[s]
    decreases |sessions|
  {
    if sessions != [] {
      var n := |sessions| - 1;
      FanOutReachesEachOnce(inbox, sessions[..n], msg);
      assert sessions == sessions[..n] + [sessions[n]];
    }
  }

  lemma MembersKept(p: State, e: Event)
    requires Members(p)
    ensures Members(Step(p, e))
  {
    hide FanOut, Remove, Distinct;
    if p.running {
      match e
      case Publish(m) => FanOutReachesEachOnce(p.inbox, p.sessions, m);
      case Join => DistinctAppend(p.sessions, p.next);
      case Leave(id) => RemoveKeepsOthers(p.sessions, id);
      case ListenerClosed =>
      case Shutdown => assert Distinct([]) by { NoneDistinct(); }
    }
  }

  lemma NoneDistinct()
    ensures Distinct([])
  {
  }

  lemma InboxAfterPublish(p: State, m: Bytes, s: SessionId)
    requires Members(p) && p.running && s in p.joined
    ensures s in p.inbox && s in Step(p, Publish(m)).inbox
    ensures Step(p, Publish(m)).inbox[s] == if s in p.left then p.inbox[s] else p.inbox[s] + [m]
  {
    hide FanOut, Distinct;
    FanOutReachesEachOnce(p.inbox, p.sessions, m);
  }

  lemma PublishExtends(p: State, m: Bytes, s: SessionId)
    requires Members(p) && p.running && s in p.joined && RunOf(p, s)
    ensures RunOf(Step(p, Publish(m)), s)
  {
    hide FanOut, Members;
    InboxAfterPublish(p, m, s);
    var q := Step(p, Publish(m));
    if s in p.left {
      assert q.published[p.joined[s]..p.left[s]] == p.published[p.joined[s]..p.left[s]];
    } else {
      assert q.published[p.joined[s]..] == p.published[p.joined[s]..] + [m];
    }
  }

  lemma ContiguousKept(p: State, e: Event)
    requires Members(p) && Contiguous(p)
    ensures Contiguous(Step(p, e))
  {
    hide FanOut, Remove, Distinct;
    if p.running {
      match e
      case Publish(m) =>
        hide RunOf, Members;
        forall s <- p.joined
          ensures RunOf(Step(p, Publish(m)), s)
        {
          PublishExtends(p, m, s);
        }
      case _ =>
        assert forall s <- p.joined :: RunOf(p, s);
    }
  }

  lemma StepKeepsInvariant(p: State, e: Event)
    requires FanOutInvariant(p)
    ensures FanOutInvariant(Step(p, e))
  {
    hide Step, Members, Contiguous;
    MembersKept(p, e);
    ContiguousKept(p, e);
  }

  lemma {:induction false} RunKeepsInvariant(es: seq<Event>)
    ensures FanOutInvariant(Run(Initial, es))
  {
    hide Step;
    if es != [] {
      RunKeepsInvariant(es[..|es| - 1]);
      StepKeepsInvariant(Run(Initial, es[..|es| - 1]), es[|es| - 1]);
    }
  }

  /** What a session gets by fan-out is the contiguous run of publications processed between its
      PushBack and its removal: nothing is skipped, repeated or reordered. */
  lemma FanOutIsContiguous(es: seq<Event>, s: SessionId)
    requires s in Run(Initial, es).inbox
    ensures var p := Run(Initial, es);
            && s in p.joined && p.joined[s] <= End(p, s) <= |p.published|
            && p.inbox[s] == p.published[p.joined[s]..End(p, s)]
  {
    hide Run, Members;
    RunKeepsInvariant(es);
    assert Members(Run(Initial, es)) ==> s in Run(Initial, es).joined by {
      InboxOwners(Run(Initial, es), s);
    }
  }

  lemma InboxOwners(p: State, s: SessionId)
    requires s in p.inbox
    ensures Members(p) ==> s in p.joined
  {
  }

  // ---------------------------------------------------------------- the end of the loop

  /** A session that joins is put on the list behind the others with nothing on its channel; one that leaves is taken
      off, and the others stay as they are. */
  lemma JoinsAndLeaves(p: State, id: SessionId)
    requires FanOutInvariant(p) && p.running
    ensures var q := Step(p, Join);
            && q.sessions == p.sessions + [p.next] && p.next !in p.sessions
            && q.inbox == p.inbox[p.next := []] && q.running && q.published == p.published
    ensures id in p.sessions ==>
              var q := Step(p, Leave(id));
              && id !in q.sessions && (forall s <- p.sessions :: s != id ==> s in q.sessions)
              && id in q.left && q.left[id] == |p.published| && q.inbox == p.inbox && q.running
    ensures id !in p.sessions ==> Step(p, Leave(id)) == p
  {
    hide Remove, Contiguous, FanOut;
    RemoveKeepsOthers(p.sessions, id);
  }

  /** Once the loop has ended nothing changes any more. */
  lemma EndedStays(p: State, e: Event)
    ensures !Step(p, ListenerClosed).running && !Step(p, Shutdown).running
    ensures !p.running ==> Step(p, e) == p
  {
  }

  /** Nobody is told to quit while the loop runs, and a closed listener ends it without telling anybody. When it is
      shut down, exactly the sessions that have joined and not left are told, in every run. */
  lemma {:induction false} ShutdownQuitsAll(es: seq<Event>)
    ensures var p := Run(Initial, es);
            && (p.running ==> p.quits == {})
            && Step(p, ListenerClosed).quits == p.quits
            && (p.running ==>
                  var q := Step(p, Shutdown);
                  !q.running && q.sessions == [] && q.quits == p.joined.Keys - p.left.Keys)
  {
    hide Run, Step;
    RunKeepsInvariant(es);
    QuietWhileRunning(es);
    ShutdownTellsListed(Run(Initial, es));
  }

  lemma ShutdownTellsListed(p: State)
    requires FanOutInvariant(p)
    ensures Step(p, ListenerClosed).quits == p.quits
    ensures p.running && p.quits == {} ==>
              var q := Step(p, Shutdown);
              !q.running && q.sessions == [] && q.quits == p.joined.Keys - p.left.Keys
  {
    hide Distinct, Contiguous, FanOut, Remove;
  }

  lemma {:induction false} QuietWhileRunning(es: seq<Event>)
    ensures Run(Initial, es).running ==> Run(Initial, es).quits == {}
  {
    hide FanOut, Remove;
    if es != [] {
      QuietWhileRunning(es[..|es| - 1]);
    }
  }

  // ---------------------------------------------------------------- the loop

  class DefaultPublisher {
    var sessions: seq<SessionId>
    var inbox: map<SessionId, seq<Bytes>>
    var quits: set<SessionId>
    var running: bool
    var next: SessionId
    ghost var published: seq<Bytes>
    ghost var joined: map<SessionId, nat>
    ghost var left: map<SessionId, nat>

    constructor ()
      ensures Current() == Initial
    {
      sessions, inbox, quits, running, next := [], map[], {}, true, 0;
      published, joined, left := [], map[], map[];
    }

    ghost function Current(): State
      reads this
    {
      State(running, sessions, inbox, quits, published, joined, left, next)
    }

    method Start(events: seq<Event>)
      modifies this
      ensures Current() == Run(old(Current()), events)
    {
      hide Step;
      var i := 0;
      while i < |events|
        invariant i <= |events|
        invariant Current() == Run(old(Current()), events[..i])
      {
        assert events[..i + 1][..i] == events[..i];
        Turn(events[i]);
        i := i + 1;
      }
      assert events[..i] == events;
    }

    method Turn(e: Event)
      modifies this
      ensures Current() == Step(old(Current()), e)
    {
      if !running {
        return;
      }
      match e
      case Publish(msg) =>
        FanOutLoop(msg);
        published := published + [msg];
      case Join =>
        sessions, inbox, next := sessions + [next], inbox[next := []], next + 1;
        joined := joined[next - 1 := |published|];
      case Leave(id) =>
        if id in sessions {
          sessions, left := Remove(sessions, id), left[id := |published|];
        }
      case ListenerClosed =>
        running := false;
      case Shutdown =>
        quits := quits + (set s <- sessions);
        sessions, running := [], false;
    }

    method FanOutLoop(msg: Bytes)
      modifies this`inbox
      ensures inbox == FanOut(old(inbox), sessions, msg)
    {
      var i := 0;
      while i < |sessions|
        invariant i <= |sessions|
        invariant inbox == FanOut(old(inbox), sessions[..i], msg)
      {
        var session := sessions[i];
        assert sessions[..i + 1][..i] == sessions[..i];
        if session in inbox {
          inbox := inbox[session := inbox[session] + [msg]];
        }
        i := i + 1;
      }
      assert sessions[..i] == sessions;
    }
  }
}
