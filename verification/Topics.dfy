/** A node's tables of publishers and subscribers, and who is still running when the node shuts down. */
module Topics {
  import opened Basics
  import opened Names

  /** A publisher or subscriber that was started; ids never repeat. */
  type Id = nat

  /** `topicOf` names everything ever started with the topic it registered; `stopped` are those told to
      shut down. */
  datatype State = State(publishers: map<string, Id>, subscribers: map<string, Id>,
                         topicOf: map<Id, string>, stopped: set<Id>, next: Id)

  const Initial := State(map[], map[], map[], {}, 0)

  /** The calls on a node; `registered` is whether the master accepts the registration. */
  datatype Event =
    | NewPublisher(topic: string, registered: bool)
    | NewPublisherWithCallbacks(topic: string, registered: bool)
    | RemovePublisher(topic: string)
    | NewSubscriber(topic: string, registered: bool)
    | RemoveSubscriber(topic: string)
    | Shutdown

  /** NewPublisherWithCallbacks looks under the topic as passed, and stores under what it is remapped to. */
  function Advertised(n: Resolver, s: State, topic: string, registered: bool): (State, Option<Id>)
    requires n.namespace != ""
  {
    var name := Remap(n, topic);
    if topic in s.publishers then (s, Some(s.publishers[topic]))
    else if !registered then (s, None)
    else
      (s.(publishers := s.publishers[name := s.next], topicOf := s.topicOf[s.next := name], next := s.next + 1),
       Some(s.next))
  }

  function Subscribed(n: Resolver, s: State, topic: string, registered: bool): (State, Option<Id>)
    requires n.namespace != ""
  {
    var name := Remap(n, topic);
    if name in s.subscribers then (s, Some(s.subscribers[name]))
    else if !registered then (s, None)
    else
      (s.(subscribers := s.subscribers[name := s.next], topicOf := s.topicOf[s.next := name], next := s.next + 1),
       Some(s.next))
  }

  function Step(n: Resolver, s: State, e: Event): State
    requires n.namespace != ""
  {
    match e
    case NewPublisher(topic, ok) => Advertised(n, s, Remap(n, topic), ok).0
    case NewPublisherWithCallbacks(topic, ok) => Advertised(n, s, topic, ok).0
    case RemovePublisher(topic) =>
      var name := Remap(n, topic);
      if name in s.publishers then s.(publishers := s.publishers - {name}, stopped := s.stopped + {s.publishers[name]})
      else s
    case NewSubscriber(topic, ok) => Subscribed(n, s, topic, ok).0
    case RemoveSubscriber(topic) =>
      var name := Remap(n, topic);
      if name in s.subscribers then
        s.(subscribers := s.subscribers - {name}, stopped := s.stopped + {s.subscribers[name]})
      else s
    case Shutdown => s.(stopped := s.stopped + s.subscribers.Values + s.publishers.Values)
  }

  function Run(n: Resolver, es: seq<Event>): State
    requires n.namespace != ""
  {
    if es == [] then Initial else Step(n, Run(n, es[..|es| - 1]), es[|es| - 1])
  }

  // ---------------------------------------------------------------- what every run keeps

  /** A table entry stands under the topic it registered. */
  ghost predicate Keyed(s: State)
  {
    && (forall id <- s.topicOf :: id < s.next)
    && (forall id <- s.stopped :: id in s.topicOf)
    && (forall k <- s.publishers :: s.publishers[k] in s.topicOf && s.topicOf[s.publishers[k]] == k)
    && (forall k <- s.subscribers :: s.subscribers[k] in s.topicOf && s.topicOf[s.subscribers[k]] == k)
  }

  predicate Listed(s: State, id: Id)
    requires id in s.topicOf
  {
    var name := s.topicOf[id];
    || (name in s.publishers && s.publishers[name] == id)
    || (name in s.subscribers && s.subscribers[name] == id)
  }

  /** Whatever is running can still be reached through a table. */
  predicate NoOrphans(s: State)
  {
    forall id <- s.topicOf :: id in s.stopped || Listed(s, id)
  }

  predicate AllStopped(s: State)
  {
    forall id <- s.topicOf :: id in s.stopped
  }

  lemma StepKeepsKeyed(n: Resolver, s: State, e: Event)
    requires n.namespace != "" && Keyed(s)
    ensures Keyed(Step(n, s, e))
  {
    hide Remap;
  }

  lemma {:induction false} RunKeepsKeyed(n: Resolver, es: seq<Event>)
    requires n.namespace != ""
    ensures Keyed(Run(n, es))
  {
    hide Step, Keyed;
    if es == [] {
      NothingKeyed();
    } else {
      RunKeepsKeyed(n, es[..|es| - 1]);
      StepKeepsKeyed(n, Run(n, es[..|es| - 1]), es[|es| - 1]);
    }
  }

  lemma NothingKeyed()
    ensures Keyed(Initial)
  {
  }

  /** The call finds, when it is repeated, what it stored. */
  predicate FindsItself(n: Resolver, e: Event)
    requires n.namespace != ""
  {
    && (e.NewPublisherWithCallbacks? ==> Remap(n, e.topic) == e.topic)
    && (e.NewPublisher? ==> Remap(n, Remap(n, e.topic)) == Remap(n, e.topic))
  }

  lemma StepKeepsReach(n: Resolver, s: State, e: Event)
    requires n.namespace != "" && Keyed(s) && NoOrphans(s) && FindsItself(n, e)
    ensures NoOrphans(Step(n, s, e))
  {
    hide Remap;
  }

  lemma {:induction false} RunKeepsReach(n: Resolver, es: seq<Event>)
    requires n.namespace != "" && forall e <- es :: FindsItself(n, e)
    ensures NoOrphans(Run(n, es))
  {
    hide Step, Keyed, NoOrphans, FindsItself;
    if es == [] {
      NothingOrphaned();
    } else {
      var init := es[..|es| - 1];
      RunKeepsReach(n, init);
      RunKeepsKeyed(n, init);
      StepKeepsReach(n, Run(n, init), es[|es| - 1]);
    }
  }

  lemma NothingOrphaned()
    ensures NoOrphans(Initial)
  {
  }

  /** Shutdown stops everything exactly when everything can be reached. */
  lemma ShutdownReaches(n: Resolver, s: State)
    requires n.namespace != ""
    ensures NoOrphans(s) ==> AllStopped(Step(n, s, Shutdown))
  {
    if NoOrphans(s) {
      forall id <- s.topicOf
        ensures id in Step(n, s, Shutdown).stopped
      {
        assert id in s.stopped || Listed(s, id);
      }
    }
  }

  // ---------------------------------------------------------------- shutting down

  /** Publishers are made only of these topics, through the one call and the other. */
  predicate Uses(es: seq<Event>, plain: set<string>, direct: set<string>)
  {
    forall e <- es ::
      && (e.NewPublisher? ==> e.topic in plain)
      && (e.NewPublisherWithCallbacks? ==> e.topic in direct)
  }

  /** Whatever was called before, shutting the node down stops everything it started exactly when no topic
      passed to NewPublisherWithCallbacks is remapped, and none passed to NewPublisher is remapped twice. */
  lemma ShutdownStopsAllIff(n: Resolver, plain: set<string>, direct: set<string>)
    requires n.namespace != ""
    ensures (forall es :: Uses(es, plain, direct) ==> AllStopped(Step(n, Run(n, es), Shutdown)))
            <==> (&& (forall t <- direct :: Remap(n, t) == t)
                  && (forall t <- plain :: Remap(n, Remap(n, t)) == Remap(n, t)))
  {
    hide Run, Step, Remap, AllStopped;
    if (forall t <- direct :: Remap(n, t) == t) && (forall t <- plain :: Remap(n, Remap(n, t)) == Remap(n, t)) {
      forall es | Uses(es, plain, direct)
        ensures AllStopped(Step(n, Run(n, es), Shutdown))
      {
        ReachedRunStops(n, es);
      }
    }
    if t :| t in direct && Remap(n, t) != t {
      TwiceOrphans(n, t, NewPublisherWithCallbacks(t, true));
    }
    if t :| t in plain && Remap(n, Remap(n, t)) != Remap(n, t) {
      TwiceOrphans(n, Remap(n, t), NewPublisher(t, true));
    }
  }

  lemma ReachedRunStops(n: Resolver, es: seq<Event>)
    requires n.namespace != "" && forall e <- es :: FindsItself(n, e)
    ensures AllStopped(Step(n, Run(n, es), Shutdown))
  {
    hide Run, Step, NoOrphans, AllStopped, FindsItself;
    RunKeepsReach(n, es);
    ShutdownReaches(n, Run(n, es));
  }

  /** Two publishers on one topic, the second in the table. */
  function Twice(name: string): State
  {
    State(map[name := 1], map[], map[0 := name, 1 := name], {}, 2)
  }

  /** The same call twice starts two publishers on one topic, and nothing leads to the first any more. */
  lemma TwiceOrphans(n: Resolver, topic: string, e: Event)
    requires n.namespace != "" && Remap(n, topic) != topic
    requires e == NewPublisherWithCallbacks(topic, true)
             || (e.NewPublisher? && e.registered && Remap(n, e.topic) == topic)
    ensures Run(n, [e, e]) == Twice(Remap(n, topic))
    ensures !AllStopped(Step(n, Run(n, [e, e]), Shutdown))
  {
    hide Remap, AllStopped, Run;
    var name := Remap(n, topic);
    var one := State(map[name := 0], map[], map[0 := name], {}, 1);
    assert Step(n, Initial, e) == one;
    assert Step(n, one, e) == Twice(name);
    RunOfTwo(n, e);
    var s := Step(n, Twice(name), Shutdown);
    assert 0 in s.topicOf && 0 !in s.stopped;
    NotAllStopped(s, 0);
  }

  lemma RunOfTwo(n: Resolver, e: Event)
    requires n.namespace != ""
    ensures Run(n, [e, e]) == Step(n, Step(n, Initial, e), e)
  {
    hide Step;
    assert [e, e][..1] == [e] && [e][..0] == [];
    assert Run(n, []) == Initial;
  }

  lemma NotAllStopped(s: State, id: Id)
    requires id in s.topicOf && id !in s.stopped
    ensures !AllStopped(s)
  {
  }

  predicate PlainOnly(es: seq<Event>)
  {
    forall e <- es :: !e.NewPublisherWithCallbacks?
  }

  /** With NewPublisher only, that is when no remapping target is itself remapped elsewhere. */
  lemma PlainShutdownIff(n: Resolver)
    requires CanonicalGlobal(n.namespace) && Built(n)
    ensures n.namespace != ""
    ensures (forall es :: PlainOnly(es) ==> AllStopped(Step(n, Run(n, es), Shutdown))) <==> Settled(n)
  {
    hide Run, Step, Remap, AllStopped, CanonicalGlobal, Built, Settled;
    NotEmpty(n.namespace);
    RemapIdempotentIff(n);
    if Settled(n) {
      forall es | PlainOnly(es)
        ensures AllStopped(Step(n, Run(n, es), Shutdown))
      {
        ReachedRunStops(n, es);
      }
    } else {
      var t :| Remap(n, Remap(n, t)) != Remap(n, t);
      var e := NewPublisher(t, true);
      TwiceOrphans(n, Remap(n, t), e);
      assert PlainOnly([e, e]);
    }
  }

  /** Which topics are not remapped: canonical global names that no remapping takes elsewhere. */
  lemma RemapFixedIff(n: Resolver, topic: string)
    requires CanonicalGlobal(n.namespace) && Built(n)
    ensures n.namespace != ""
    ensures Remap(n, topic) == topic <==>
            CanonicalGlobal(topic) && (topic in n.mapping ==> n.mapping[topic] == topic)
  {
    hide Resolve, CanonicalGlobal;
    NotEmpty(n.namespace);
    ResolveIsCanonical(n, topic);
    if CanonicalGlobal(topic) {
      CanonicalResolves(n, topic);
    }
  }

  // ---------------------------------------------------------------- one publisher

  /** A second call returns the same publisher exactly when the topic is not remapped, or was taken. */
  lemma SecondCallFindsIff(n: Resolver, s: State, topic: string)
    requires n.namespace != "" && Keyed(s)
    ensures var first := Advertised(n, s, topic, true);
            Advertised(n, first.0, topic, true).1 == first.1 <==> topic in s.publishers || Remap(n, topic) == topic
  {
    hide Remap;
  }

  /** RemovePublisher stops the publisher that NewPublisher returned for the topic exactly when it stood in the
      table already or remapping the topic twice is remapping it once. */
  lemma RemoveUndoesNewIff(n: Resolver, s: State, topic: string)
    requires n.namespace != "" && Keyed(s)
    ensures var name := Remap(n, topic);
            var made := Advertised(n, s, name, true);
            made.1.value in Step(n, made.0, RemovePublisher(topic)).stopped
            <==> name in s.publishers || Remap(n, name) == name
  {
    hide Remap;
  }

  /** A registration that the master refuses changes nothing, and gives a publisher or subscriber only if it was
      there already. */
  lemma RefusedChangesNothing(n: Resolver, s: State, topic: string)
    requires n.namespace != ""
    ensures Advertised(n, s, topic, false) ==
            (s, if topic in s.publishers then Some(s.publishers[topic]) else None)
    ensures Subscribed(n, s, topic, false) ==
            (s, if Remap(n, topic) in s.subscribers then Some(s.subscribers[Remap(n, topic)]) else None)
  {
    hide Remap;
  }

  /** Subscribers are found again whatever their topic. */
  lemma SubscriberFoundAgain(n: Resolver, s: State, topic: string)
    requires n.namespace != ""
    ensures var first := Subscribed(n, s, topic, true);
            && first.1.Some?
            && Subscribed(n, first.0, topic, true) == first
            && first.1.value in Step(n, first.0, RemoveSubscriber(topic)).stopped
            && Remap(n, topic) !in Step(n, first.0, RemoveSubscriber(topic)).subscribers
  {
  }

  // ---------------------------------------------------------------- the node

  class DefaultNode {
    const resolver: Resolver
    var publishers: map<string, Id>
    var subscribers: map<string, Id>
    var stopped: set<Id>
    var next: Id
    ghost var topicOf: map<Id, string>

    constructor (resolver: Resolver)
      requires resolver.namespace != ""
      ensures Current() == Initial && this.resolver == resolver
    {
      this.resolver := resolver;
      publishers, subscribers, stopped, next, topicOf := map[], map[], {}, 0, map[];
    }

    ghost function Current(): State
      reads this
    {
      State(publishers, subscribers, topicOf, stopped, next)
    }

    method NewPublisher(topic: string, registered: bool) returns (pub: Option<Id>)
      requires resolver.namespace != ""
      modifies this
      ensures Current() == Step(resolver, old(Current()), Event.NewPublisher(topic, registered))
      ensures pub == Advertised(resolver, old(Current()), Remap(resolver, topic), registered).1
    {
      pub := NewPublisherWithCallbacks(Remap(resolver, topic), registered);
    }

    method NewPublisherWithCallbacks(topic: string, registered: bool) returns (pub: Option<Id>)
      requires resolver.namespace != ""
      modifies this
      ensures (Current(), pub) == Advertised(resolver, old(Current()), topic, registered)
    {
      var name := Remap(resolver, topic);
      if topic in publishers {
        return Some(publishers[topic]);
      }
      if !registered {
        return None;
      }
      pub := Some(next);
      publishers, topicOf, next := publishers[name := next], topicOf[next := name], next + 1;
    }

    method RemovePublisher(topic: string)
      requires resolver.namespace != ""
      modifies this
      ensures Current() == Step(resolver, old(Current()), Event.RemovePublisher(topic))
    {
      var name := Remap(resolver, topic);
      if name in publishers {
        stopped, publishers := stopped + {publishers[name]}, publishers - {name};
      }
    }

    method NewSubscriber(topic: string, registered: bool) returns (sub: Option<Id>)
      requires resolver.namespace != ""
      modifies this
      ensures (Current(), sub) == Subscribed(resolver, old(Current()), topic, registered)
    {
      var name := Remap(resolver, topic);
      if name in subscribers {
        return Some(subscribers[name]);
      }
      if !registered {
        return None;
      }
      sub := Some(next);
      subscribers, topicOf, next := subscribers[name := next], topicOf[next := name], next + 1;
    }

    method RemoveSubscriber(topic: string)
      requires resolver.namespace != ""
      modifies this
      ensures Current() == Step(resolver, old(Current()), Event.RemoveSubscriber(topic))
    {
      var name := Remap(resolver, topic);
      if name in subscribers {
        stopped, subscribers := stopped + {subscribers[name]}, subscribers - {name};
      }
    }

    method Shutdown()
      requires resolver.namespace != ""
      modifies this
      ensures Current() == Step(resolver, old(Current()), Event.Shutdown)
    {
      StopEach(subscribers);
      StopEach(publishers);
    }

    /** Stops what a table holds, in some order. */
    method StopEach(table: map<string, Id>)
      modifies this`stopped
      ensures stopped == old(stopped) + table.Values
    {
      var left := table.Keys;
      while left != {}
        invariant left <= table.Keys
        invariant stopped == old(stopped) + (set k <- table.Keys - left :: table[k])
        decreases left
      {
        var k :| k in left;
        stopped, left := stopped + {table[k]}, left - {k};
      }
    }
  }
}
