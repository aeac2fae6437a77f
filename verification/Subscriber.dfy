/** defaultSubscriber: the publisher list and the table of connection workers. */
module Subscriber {
  /** A connection worker: whom it was started for, in which turn, and the host:port it dials. */
  datatype Worker = Worker(pub: string, turn: nat, addr: string)

  /** What a publisher's node answers to requestTopic. */
  datatype Answer = TcpRos(addr: string) | OtherProtocol | CallFails

  /** `Stuck`: sending on a nil quit channel blocks the loop for good. */
  datatype Phase = Looping | Stuck | Finished

  /** `quits` are the workers sent a quit, `noticed` those deleted by a disconnect notice. */
  datatype State = State(phase: Phase, pubList: seq<string>, connections: map<string, Worker>,
                         started: set<Worker>, quits: set<Worker>, noticed: set<Worker>, turn: nat)

  const Initial := State(Looping, [], map[], {}, {}, {}, 0)

  /** `before` says which dead publishers a blocked turn got through, map order being arbitrary. */
  datatype Event =
    | PubList(list: seq<string>, answers: map<string, Answer>, before: set<string>)
    | Disconnected(addr: string)
    | Shutdown

  function Elements(s: seq<string>): set<string>
  {
    set x <- s
  }

  function Dead(s: State, list: seq<string>): set<string>
  {
    Elements(s.pubList) - Elements(list)
  }

  function New(s: State, list: seq<string>): set<string>
  {
    Elements(list) - Elements(s.pubList)
  }

  function WorkersOf(connections: map<string, Worker>, pubs: set<string>): set<Worker>
  {
    set p <- pubs | p in connections :: connections[p]
  }

  /** The workers started for the publishers that offer TCPROS. */
  function NewWorkers(pubs: set<string>, answers: map<string, Answer>, turn: nat): map<string, Worker>
  {
    map p <- pubs | p in answers && answers[p].TcpRos? :: Worker(p, turn, answers[p].addr)
  }

  function Step(s: State, e: Event): State
  {
    if !s.phase.Looping? then s else
    match e
    case PubList(list, answers, before) =>
      var dead := Dead(s, list);
      if dead <= s.connections.Keys then
        var added := NewWorkers(New(s, list), answers, s.turn);
        s.(pubList := list, connections := (s.connections - dead) + added,
           started := s.started + added.Values, quits := s.quits + WorkersOf(s.connections, dead), turn := s.turn + 1)
      else
        var through := before * dead * s.connections.Keys;
        s.(phase := Stuck, pubList := list, connections := s.connections - through,
           quits := s.quits + WorkersOf(s.connections, through))
    case Disconnected(addr) =>
      // the notice names host:port, the table is keyed by API URI
      s.(connections := s.connections - {addr}, noticed := s.noticed + WorkersOf(s.connections, {addr}))
    case Shutdown =>
      s.(phase := Finished, quits := s.quits + s.connections.Values)
  }

  function Run(s: State, es: seq<Event>): State
  {
    if es == [] then s else Step(Run(s, es[..|es| - 1]), es[|es| - 1])
  }

  // ---------------------------------------------------------------- safety of the table

  ghost predicate InTable(s: State, w: Worker)
  {
    w.pub in s.connections && s.connections[w.pub] == w
  }

  ghost predicate Registered(s: State)
  {
    // only listed publishers have workers
    && (s.phase.Looping? ==> s.connections.Keys <= Elements(s.pubList))
    // a table entry is a started worker of that publisher
    && (forall p <- s.connections :: s.connections[p] in s.started && s.connections[p].pub == p)
    && (forall w <- s.started :: w.turn < s.turn || s.phase.Finished?)
  }

  ghost predicate Accounted(s: State)
  {
    // no worker is lost track of
    && (forall w <- s.started :: InTable(s, w) || w in s.quits || w in s.noticed)
    // nobody in the table has been told to quit or been written off
    && s.quits + s.noticed <= s.started
    && (!s.phase.Finished? ==> forall w <- s.quits :: !InTable(s, w))
    && (forall w <- s.noticed :: !InTable(s, w))
  }

  ghost predicate TableInvariant(s: State)
  {
    Registered(s) && Accounted(s)
  }

  lemma ServedListKeepsInvariant(s: State, list: seq<string>, answers: map<string, Answer>)
    requires TableInvariant(s) && s.phase.Looping? && Dead(s, list) <= s.connections.Keys
    ensures TableInvariant(Step(s, PubList(list, answers, {})))
  {
    hide Registered, Accounted;
    assert Registered(Step(s, PubList(list, answers, {}))) by {
      ServedListRegisters(s, list, answers);
    }
    ServedListAccounts(s, list, answers);
  }

  lemma ServedListRegisters(s: State, list: seq<string>, answers: map<string, Answer>)
    requires Registered(s) && s.phase.Looping? && Dead(s, list) <= s.connections.Keys
    ensures Registered(Step(s, PubList(list, answers, {})))
  {
    hide WorkersOf;
  }

  lemma ServedListAccounts(s: State, list: seq<string>, answers: map<string, Answer>)
    requires Registered(s) && Accounted(s) && s.phase.Looping? && Dead(s, list) <= s.connections.Keys
    ensures Accounted(Step(s, PubList(list, answers, {})))
  {
    hide Elements;
  }

  lemma StuckListKeepsInvariant(s: State, list: seq<string>, answers: map<string, Answer>, before: set<string>)
    requires TableInvariant(s) && s.phase.Looping? && !(Dead(s, list) <= s.connections.Keys)
    ensures TableInvariant(Step(s, PubList(list, answers, before)))
  {
  }

  /** A turn on a new list keeps the table safe, registers only publishers without a live entry, and
      tells nobody to quit twice. */
  lemma ListKeepsInvariant(s: State, list: seq<string>, answers: map<string, Answer>, before: set<string>)
    requires TableInvariant(s) && s.phase.Looping?
    ensures TableInvariant(Step(s, PubList(list, answers, before)))
    ensures New(s, list) !! s.connections.Keys
    ensures WorkersOf(s.connections, Dead(s, list)) !! s.quits
  {
    if Dead(s, list) <= s.connections.Keys {
      ServedListKeepsInvariant(s, list, answers);
    } else {
      StuckListKeepsInvariant(s, list, answers, before);
    }
  }

  lemma StepKeepsInvariant(s: State, e: Event)
    requires TableInvariant(s)
    ensures TableInvariant(Step(s, e))
  {
    if s.phase.Looping? {
      match e
      case PubList(list, answers, before) => ListKeepsInvariant(s, list, answers, before);
      case Disconnected(addr) =>
        var t := Step(s, e);
        forall w <- t.started
          ensures InTable(t, w) || w in t.quits || w in t.noticed
        {
          if InTable(s, w) && w.pub == addr {
            assert w in WorkersOf(s.connections, {addr});
          }
        }
      case Shutdown =>
    }
  }

  /** In every reachable state the table is safe. */
  lemma {:induction false} RunKeepsInvariant(es: seq<Event>)
    ensures TableInvariant(Run(Initial, es))
    decreases |es|
  {
    hide Step;
    if es != [] {
      RunKeepsInvariant(es[..|es| - 1]);
      StepKeepsInvariant(Run(Initial, es[..|es| - 1]), es[|es| - 1]);
    } else {
      assert Run(Initial, es) == Initial;
    }
  }

  lemma RunNext(s: State, es: seq<Event>, e: Event)
    ensures Run(s, es + [e]) == Step(Run(s, es), e)
  {
  }

  /** The table after a list: publishers still listed keep their worker, if any; new ones get one exactly when they
      offer TCPROS, for the address they gave; the workers of the others are told to quit, and nobody else is. */
  lemma TableAfterList(s: State, list: seq<string>, answers: map<string, Answer>)
    requires TableInvariant(s) && s.phase.Looping? && Dead(s, list) <= s.connections.Keys
    ensures var t := Step(s, PubList(list, answers, {}));
            && t.phase.Looping? && t.pubList == list
            && (forall p :: p in t.connections <==>
                  p in list && if p in s.pubList then p in s.connections else p in answers && answers[p].TcpRos?)
            && (forall p <- t.connections ::
                  if p in s.pubList then p in s.connections && t.connections[p] == s.connections[p]
                  else p in answers && answers[p].TcpRos? && t.connections[p] == Worker(p, s.turn, answers[p].addr))
            && (forall w :: w in t.quits <==> w in s.quits || (InTable(s, w) && w.pub !in list))
  {
    hide Accounted;
  }

  /** After shutting down, every worker ever started has been told to quit or taken off by a notice, in every run. */
  lemma ShutdownTellsAll(es: seq<Event>)
    requires Run(Initial, es).phase.Looping?
    ensures var t := Step(Run(Initial, es), Shutdown);
            t.phase.Finished? && forall w <- t.started :: w in t.quits || w in t.noticed
  {
    hide Run;
    RunKeepsInvariant(es);
    var s := Run(Initial, es);
    forall w <- s.started
      ensures w in Step(s, Shutdown).quits || w in s.noticed
    {
      if InTable(s, w) {
        assert s.connections[w.pub] in s.connections.Values;
      }
    }
  }

  // ---------------------------------------------------------------- listed but not connected

  predicate Unserved(s: State, pub: string)
  {
    s.phase.Looping? && pub in s.pubList && pub !in s.connections
  }

  /** A newly listed publisher gets no table entry exactly when it does not offer TCPROS. */
  lemma UnservedIff(s: State, list: seq<string>, answers: map<string, Answer>, pub: string)
    requires TableInvariant(s) && s.phase.Looping? && Dead(s, list) <= s.connections.Keys && pub in New(s, list)
    ensures Unserved(Step(s, PubList(list, answers, {})), pub) <==> !(pub in answers && answers[pub].TcpRos?)
  {
  }

  /** It gets none later: the loop ends, or blocks as soon as a list omits the publisher. */
  lemma UnservedStays(s: State, e: Event, pub: string)
    requires Unserved(s, pub)
    ensures var t := Step(s, e);
            match e
            case PubList(list, _, _) => if pub in list then Unserved(t, pub) || t.phase.Stuck? else t.phase.Stuck?
            case Disconnected(_) => Unserved(t, pub)
            case Shutdown => t.phase.Finished?
  {
    if e.PubList? && pub !in e.list {
      assert pub in Dead(s, e.list);
    }
  }

  /** A publisher that is listed but could not be reached, or offers another protocol, blocks the loop
      for good by the time a list omits it, whatever happens in between short of a shutdown. */
  lemma UnreachablePublisherBlocks(es: seq<Event>, list: seq<string>, answers: map<string, Answer>, pub: string,
                                   later: seq<Event>, last: Event)
    requires var s := Run(Initial, es);
             s.phase.Looping? && Dead(s, list) <= s.connections.Keys && pub in New(s, list)
    requires pub in answers ==> !answers[pub].TcpRos?
    requires (forall e <- later :: !e.Shutdown?) && last.PubList? && pub !in last.list
    ensures Run(Initial, es + [PubList(list, answers, {})] + later + [last]).phase.Stuck?
  {
    hide Run, Step, TableInvariant, Unserved;
    RunKeepsInvariant(es);
    RunNext(Initial, es, PubList(list, answers, {}));
    UnservedIff(Run(Initial, es), list, answers, pub);
    var from := es + [PubList(list, answers, {})];
    UnservedUntil(from, later, pub);
    RunNext(Initial, from + later, last);
    if Unserved(Run(Initial, from + later), pub) {
      UnservedStays(Run(Initial, from + later), last, pub);
    } else {
      StuckForGood(Run(Initial, from + later), last);
    }
  }

  lemma StuckForGood(s: State, e: Event)
    requires s.phase.Stuck?
    ensures Step(s, e) == s
  {
  }

  lemma {:induction false} UnservedUntil(from: seq<Event>, later: seq<Event>, pub: string)
    requires Unserved(Run(Initial, from), pub) && forall e <- later :: !e.Shutdown?
    ensures var t := Run(Initial, from + later); Unserved(t, pub) || t.phase.Stuck?
    decreases |later|
  {
    hide Run, Step, Unserved;
    if later == [] {
      assert from + later == from;
    } else {
      var n := |later| - 1;
      var e := later[n];
      assert from + later == (from + later[..n]) + [e] && e in later;
      UnservedUntil(from, later[..n], pub);
      RunNext(Initial, from + later[..n], e);
      if Unserved(Run(Initial, from + later[..n]), pub) {
        UnservedStays(Run(Initial, from + later[..n]), e, pub);
      } else {
        StuckForGood(Run(Initial, from + later[..n]), e);
      }
    }
  }

  // ---------------------------------------------------------------- disconnect notices

  /** A worker's own notice takes it off the table exactly when it dials its publisher's API URI. */
  lemma NoticeIff(s: State, w: Worker)
    requires s.phase.Looping? && InTable(s, w)
    ensures InTable(Step(s, Disconnected(w.addr)), w) <==> w.addr != w.pub
  {
  }

  /** So when no notice spells a listed URI, no notice ever takes anybody off the table. */
  lemma {:induction false} NoticesReachNobody(es: seq<Event>, uris: set<string>)
    requires forall e <- es :: e.PubList? ==> Elements(e.list) <= uris
    requires forall e <- es :: e.Disconnected? ==> e.addr !in uris
    ensures Run(Initial, es).noticed == {} && Elements(Run(Initial, es).pubList) <= uris
    decreases |es|
  {
    hide Run;
    if es == [] {
      assert Run(Initial, es) == Initial by { StartsInitial(); }
    } else {
      var n := |es| - 1;
      assert es == es[..n] + [es[n]] && es[n] in es;
      NoticesReachNobody(es[..n], uris);
      RunKeepsInvariant(es[..n]);
      RunNext(Initial, es[..n], es[n]);
      NoticeReachesNobody(Run(Initial, es[..n]), es[n], uris);
    }
  }

  // ---------------------------------------------------------------- never blocked

  /** What the world may do: list these URIs, answer with TCPROS for exactly those of them in `offers`, and
      send notices that spell one of these texts. */
  predicate Within(e: Event, uris: set<string>, offers: set<string>, notices: set<string>)
  {
    match e
    case PubList(list, answers, _) =>
      forall p <- list :: p in uris && (p in answers && answers[p].TcpRos? <==> p in offers)
    case Disconnected(addr) => addr in notices
    case Shutdown => true
  }

  predicate Env(es: seq<Event>, uris: set<string>, offers: set<string>, notices: set<string>)
  {
    forall e <- es :: Within(e, uris, offers, notices)
  }

  /** Over every run the loop never blocks, exactly when every URI that can be listed offers TCPROS and
      none of them is spelled by a notice. */
  lemma NeverBlocksIff(uris: set<string>, offers: set<string>, notices: set<string>)
    ensures (forall es :: Env(es, uris, offers, notices) ==> !Run(Initial, es).phase.Stuck?)
            <==> uris <= offers && uris !! notices
  {
    hide Run, Env;
    if uris <= offers && uris !! notices {
      forall es | Env(es, uris, offers, notices)
        ensures !Run(Initial, es).phase.Stuck?
      {
        ServedRun(es, uris, offers, notices);
      }
    } else if !(uris <= offers) {
      var p :| p in uris && p !in offers;
      UnreachableRun(p, uris, offers, notices);
    } else {
      var p :| p in uris && p in notices;
      NoticedRun(p, uris, offers, notices);
    }
  }

  /** While it loops, every listed publisher has its entry, and nobody else has. */
  predicate Healthy(s: State, uris: set<string>)
  {
    !s.phase.Stuck? && (s.phase.Looping? ==> s.connections.Keys == Elements(s.pubList) <= uris)
  }

  lemma {:induction false} ServedRun(es: seq<Event>, uris: set<string>, offers: set<string>, notices: set<string>)
    requires Env(es, uris, offers, notices) && uris <= offers && uris !! notices
    ensures Healthy(Run(Initial, es), uris)
    decreases |es|
  {
    hide Run, Step, Healthy, Within;
    if es == [] {
      StartsInitial();
      StartsHealthy(uris);
    } else {
      var n := |es| - 1;
      assert es == es[..n] + [es[n]] && es[n] in es;
      ServedRun(es[..n], uris, offers, notices);
      RunNext(Initial, es[..n], es[n]);
      StaysHealthy(Run(Initial, es[..n]), es[n], uris, offers, notices);
    }
  }

  lemma StartsHealthy(uris: set<string>)
    ensures Healthy(Initial, uris)
  {
  }

  lemma StaysHealthy(s: State, e: Event, uris: set<string>, offers: set<string>, notices: set<string>)
    requires Healthy(s, uris) && Within(e, uris, offers, notices) && uris <= offers && uris !! notices
    ensures Healthy(Step(s, e), uris)
  {
    if s.phase.Looping? && e.PubList? {
      var added := NewWorkers(New(s, e.list), e.answers, s.turn);
      assert added.Keys == New(s, e.list);
    }
  }

  lemma UnreachableRun(p: string, uris: set<string>, offers: set<string>, notices: set<string>)
    requires p in uris && p !in offers
    ensures exists es :: Env(es, uris, offers, notices) && Run(Initial, es).phase.Stuck?
  {
    hide Run;
    var listed, gone := PubList([p], map[], {}), PubList([], map[], {});
    StartsInitial();
    assert New(Initial, [p]) == {p} && Dead(Initial, [p]) == {};
    UnreachablePublisherBlocks([], [p], map[], p, [], gone);
    var es := [] + [listed] + [] + [gone];
    assert es == [listed, gone];
    assert Env(es, uris, offers, notices);
  }

  lemma NoticedRun(p: string, uris: set<string>, offers: set<string>, notices: set<string>)
    requires p in uris && p in offers && p in notices
    ensures exists es :: Env(es, uris, offers, notices) && Run(Initial, es).phase.Stuck?
  {
    hide Run;
    var listed, gone := PubList([p], map[p := TcpRos(p)], {}), PubList([], map[], {});
    StartsInitial();
    RunNext(Initial, [], listed);
    RunNext(Initial, [listed], Disconnected(p));
    RunNext(Initial, [listed, Disconnected(p)], gone);
    assert [] + [listed] == [listed] && [listed] + [Disconnected(p)] == [listed, Disconnected(p)];
    var es := [listed, Disconnected(p), gone];
    assert es == [listed, Disconnected(p)] + [gone];
    var s := Run(Initial, [listed, Disconnected(p)]);
    assert p in s.pubList && p !in s.connections && s.phase.Looping?;
    assert p in Dead(s, []);
    assert Env(es, uris, offers, notices);
  }

  /** For instance: a worker started for http://h:1/ dials h:2, and its notice leaves it in the table. */
  lemma NoticeExample()
    ensures var pub, addr := "http://h:1/", "h:2";
            var s := Run(Initial, [PubList([pub], map[pub := TcpRos(addr)], {}), Disconnected(addr)]);
            s.connections == map[pub := Worker(pub, 0, addr)] && s.noticed == {}
  {
    hide Run;
    var pub, addr := "http://h:1/", "h:2";
    var listed := PubList([pub], map[pub := TcpRos(addr)], {});
    StartsInitial();
    RunNext(Initial, [], listed);
    RunNext(Initial, [listed], Disconnected(addr));
    assert [] + [listed] == [listed] && [listed] + [Disconnected(addr)] == [listed, Disconnected(addr)];
    assert |pub| != |addr|;
    var s := Run(Initial, [listed]);
    assert New(Initial, [pub]) == {pub} && Dead(Initial, [pub]) == {};
    assert s.connections == map[pub := Worker(pub, 0, addr)];
  }

  lemma StartsInitial()
    ensures Run(Initial, []) == Initial
  {
  }

  lemma NoticeReachesNobody(s: State, e: Event, uris: set<string>)
    requires TableInvariant(s) && s.noticed == {} && Elements(s.pubList) <= uris
    requires (e.PubList? ==> Elements(e.list) <= uris) && (e.Disconnected? ==> e.addr !in uris)
    ensures Step(s, e).noticed == {} && Elements(Step(s, e).pubList) <= uris
  {
  }

  // ---------------------------------------------------------------- the loop

  /** Some listing of the elements of `lhs` that are not in `rhs`, each once. */
  method SetDifference(lhs: seq<string>, rhs: seq<string>) returns (result: seq<string>)
    ensures Elements(result) == Elements(lhs) - Elements(rhs)
    ensures forall i, j | 0 <= i < j < |result| :: result[i] != result[j]
  {
    var left := Elements(lhs);
    var right := Elements(rhs);
    left := left - right;
    result := [];
    while left != {}
      invariant left !! Elements(result)
      invariant left + Elements(result) == Elements(lhs) - Elements(rhs)
      invariant forall i, j | 0 <= i < j < |result| :: result[i] != result[j]
      decreases left
    {
      var k :| k in left;
      assert Elements(result + [k]) == Elements(result) + {k};
      result, left := result + [k], left - {k};
    }
  }

  class DefaultSubscriber {
    var phase: Phase
    var pubList: seq<string>
    var connections: map<string, Worker>
    var turn: nat
    ghost var started: set<Worker>
    ghost var quits: set<Worker>
    ghost var noticed: set<Worker>

    constructor ()
      ensures Current() == Initial
    {
      phase, pubList, connections, turn := Looping, [], map[], 0;
      started, quits, noticed := {}, {}, {};
    }

    ghost function Current(): State
      reads this
    {
      State(phase, pubList, connections, started, quits, noticed, turn)
    }

    /** Quits the workers of the dead publishers, until one has no quit channel to send on. */
    method QuitDead(deadPubs: seq<string>) returns (ghost through: set<string>)
      requires forall i, j | 0 <= i < j < |deadPubs| :: deadPubs[i] != deadPubs[j]
      requires phase.Looping?
      modifies this
      ensures through <= Elements(deadPubs) * old(connections.Keys)
      ensures var stuck := !(Elements(deadPubs) <= old(connections.Keys));
              && (!stuck ==> through == Elements(deadPubs))
              && Current() == old(Current()).(phase := if stuck then Stuck else Looping,
                                              connections := old(connections) - through,
                                              quits := old(quits) + WorkersOf(old(connections), through))
    {
      ghost var table := connections;
      through := {};
      var i := 0;
      while i < |deadPubs|
        invariant i <= |deadPubs|
        invariant through == Elements(deadPubs[..i]) && through <= table.Keys
        invariant Current() ==
                    old(Current()).(connections := table - through, quits := old(quits) + WorkersOf(table, through))
      {
        var pub := deadPubs[i];
        assert deadPubs[..i + 1] == deadPubs[..i] + [pub];
        assert pub !in through && pub in Elements(deadPubs);
        if pub !in connections {
          phase := Stuck;
          return;
        }
        quits := quits + {connections[pub]};
        WorkersOfOneMore(table, through, pub);
        connections := connections - {pub};
        assert table - through - {pub} == table - (through + {pub});
        through := through + {pub};
        i := i + 1;
      }
      assert deadPubs[..i] == deadPubs;
    }

    /** Asks each new publisher for the topic and starts a worker for those that offer TCPROS. */
    method CallNew(newPubs: seq<string>, answers: map<string, Answer>)
      modifies this
      ensures var added := NewWorkers(Elements(newPubs), answers, turn);
              Current() == old(Current()).(connections := old(connections) + added,
                                           started := old(started) + added.Values)
    {
      hide NewWorkers, Elements;
      ghost var kept := connections;
      NoNewWorkers(newPubs, answers, turn);
      var i := 0;
      while i < |newPubs|
        invariant i <= |newPubs|
        invariant var added := NewWorkers(Elements(newPubs[..i]), answers, turn);
                  Current() == old(Current()).(connections := kept + added, started := old(started) + added.Values)
      {
        var pub := newPubs[i];
        ElementsNext(newPubs, i);
        NewWorkersOneMore(Elements(newPubs[..i]), answers, turn, pub);
        if pub in answers && answers[pub].TcpRos? {
          var worker := Worker(pub, turn, answers[pub].addr);
          connections := connections[pub := worker];
          started := started + {worker};
        }
        i := i + 1;
      }
      assert newPubs[..i] == newPubs;
    }

    /** A new publisher list: quit the workers of the dead, then call on the new ones. */
    method OnPubList(list: seq<string>, answers: map<string, Answer>) returns (ghost before: set<string>)
      requires phase.Looping?
      modifies this
      ensures Current() == Step(old(Current()), PubList(list, answers, before))
      ensures phase.Stuck? <==> !(Dead(old(Current()), list) <= old(connections.Keys))
    {
      hide WorkersOf, NewWorkers, Elements;
      var deadPubs := SetDifference(pubList, list);
      var newPubs := SetDifference(list, pubList);
      pubList := list;
      before := QuitDead(deadPubs);
      if phase.Stuck? {
        assert before * Dead(old(Current()), list) * old(connections.Keys) == before;
        return;
      }
      CallNew(newPubs, answers);
      turn := turn + 1;
    }

    method OnDisconnected(addr: string)
      requires phase.Looping?
      modifies this
      ensures Current() == Step(old(Current()), Disconnected(addr))
      ensures connections == old(connections) - {addr}
      ensures forall w :: InTable(old(Current()), w) && w.addr == addr ==> (InTable(Current(), w) <==> w.pub != addr)
    {
      noticed := noticed + WorkersOf(connections, {addr});
      connections := connections - {addr};
    }

    method OnShutdown()
      requires phase.Looping?
      modifies this
      ensures Current() == Step(old(Current()), Shutdown)
    {
      quits := quits + connections.Values;
      phase := Finished;
    }
  }

  lemma WorkersOfOneMore(connections: map<string, Worker>, pubs: set<string>, pub: string)
    requires pub in connections
    ensures WorkersOf(connections, pubs + {pub}) == WorkersOf(connections, pubs) + {connections[pub]}
  {
  }

  lemma ElementsNext(s: seq<string>, i: nat)
    requires i < |s|
    ensures Elements(s[..i + 1]) == Elements(s[..i]) + {s[i]}
  {
  }

  lemma NoNewWorkers(s: seq<string>, answers: map<string, Answer>, turn: nat)
    ensures NewWorkers(Elements(s[..0]), answers, turn) == map[]
  {
  }

  lemma NewWorkersOneMore(pubs: set<string>, answers: map<string, Answer>, turn: nat, pub: string)
    ensures var before, after := NewWorkers(pubs, answers, turn), NewWorkers(pubs + {pub}, answers, turn);
            if pub in answers && answers[pub].TcpRos? then
              && after == before[pub := Worker(pub, turn, answers[pub].addr)]
              && after.Values == before.Values + {Worker(pub, turn, answers[pub].addr)}
            else after == before
  {
    var before, after := NewWorkers(pubs, answers, turn), NewWorkers(pubs + {pub}, answers, turn);
    if pub in answers && answers[pub].TcpRos? {
      var w := Worker(pub, turn, answers[pub].addr);
      assert after[pub] == w;
      forall x | x in before.Values
        ensures x in after.Values
      {
        var k :| k in before && before[k] == x;
        assert after[k] == x;
      }
    }
  }
}
