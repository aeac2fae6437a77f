/** remoteSubscriberSession: the bounded drop-oldest queue between a publisher and one connection. */
module Session {
  import opened Wire
  import opened LittleEndian
  import opened Subsequence

  type Bytes = seq<Byte>

  const QUEUE_MAX_SIZE := 100

  /** What the select statement found ready. A failed write leaves some of the frame on the wire. */
  datatype Event =
    | Receive(msg: Bytes)
    | Quit
    | Write
    | WriteFails(sent: nat)

  /** What became of a message that has left the queue. */
  datatype Fate = Sent | Dropped | Broken

  /** `taken` is everything received so far; `fates` tells the story of its first messages, and
      the queue holds the others. */
  datatype State = State(running: bool, taken: seq<Bytes>, fates: seq<Fate>, queue: seq<Bytes>, wire: Bytes)

  const Initial := State(true, [], [], [], [])

  function Frame(msg: Bytes): Bytes
  {
    Word32(|msg| % TWO_TO_32) + msg
  }

  /** One turn of the loop; an event that is not ready leaves the state alone. */
  function Step(s: State, e: Event): State
  {
    if !s.running then s else
    match e
    case Receive(m) =>
      if |s.queue| == QUEUE_MAX_SIZE then
        s.(taken := s.taken + [m], fates := s.fates + [Dropped], queue := s.queue[1..] + [m])
      else
        s.(taken := s.taken + [m], queue := s.queue + [m])
    case Quit => s.(running := false)
    case Write =>
      if s.queue == [] then s
      else s.(fates := s.fates + [Sent], queue := s.queue[1..], wire := s.wire + Frame(s.queue[0]))
    case WriteFails(k) =>
      if s.queue == [] || k > |Frame(s.queue[0])| then s
      else s.(running := false, fates := s.fates + [Broken], queue := s.queue[1..],
              wire := s.wire + Frame(s.queue[0])[..k])
  }

  function Run(s: State, es: seq<Event>): State
    decreases |es|
  {
    if es == [] then s else Step(Run(s, es[..|es| - 1]), es[|es| - 1])
  }

  /** The messages whose writing began, oldest first. */
  function Attempted(taken: seq<Bytes>, fates: seq<Fate>): seq<Bytes>
    requires |fates| <= |taken|
  {
    if fates == [] then []
    else
      var n := |fates| - 1;
      var before := Attempted(taken, fates[..n]);
      if fates[n].Dropped? then before else before + [taken[n]]
  }

  function Frames(msgs: seq<Bytes>): Bytes
  {
    if msgs == [] then [] else Frames(msgs[..|msgs| - 1]) + Frame(msgs[|msgs| - 1])
  }

  function Count(fates: seq<Fate>, f: Fate): nat
  {
    if fates == [] then 0 else Count(fates[..|fates| - 1], f) + if fates[|fates| - 1] == f then 1 else 0
  }

  // ---------------------------------------------------------------- the queue invariant

  ghost predicate QueueInvariant(s: State)
  {
    && |s.queue| <= QUEUE_MAX_SIZE
    && |s.fates| + |s.queue| == |s.taken|
    && s.queue == s.taken[|s.fates|..]
    // a dropped message is older than 100 others
    && (forall i | 0 <= i < |s.fates| && s.fates[i].Dropped? :: i + QUEUE_MAX_SIZE < |s.taken|)
    // only a write that ended the session is broken off
    && (forall i | 0 <= i < |s.fates| && s.fates[i].Broken? :: i == |s.fates| - 1 && !s.running)
    // the wire carries the frames of what was attempted, whole but perhaps for the last
    && s.wire <= Frames(Attempted(s.taken, s.fates))
    && (s.running ==> s.wire == Frames(Attempted(s.taken, s.fates)))
  }

  /** A running session takes every message; it drops one exactly when 100 are waiting, and then the one that has
      waited longest. */
  lemma DropsOldestIff(s: State, m: Bytes)
    requires s.running
    ensures var t := Step(s, Receive(m));
            && t.running && t.taken == s.taken + [m] && t.wire == s.wire
            && t.queue == (if |s.queue| == 100 then s.queue[1..] else s.queue) + [m]
            && t.fates == if |s.queue| == 100 then s.fates + [Dropped] else s.fates
  {
  }

  /** A turn that writes puts the message that has waited longest on the wire, after its length in four bytes,
      least significant first. */
  lemma WritesOldest(s: State)
    requires s.running && s.queue != []
    ensures var t := Step(s, Write);
            && t.running && t.queue == s.queue[1..] && t.fates == s.fates + [Sent]
            && t.wire == s.wire + (Four(|s.queue[0]|) + s.queue[0])
  {
    hide Word32, Four;
    WordBytes(|s.queue[0]|);
  }

  /** Quitting ends the session and nothing else; a write that fails ends it with the first `k` bytes of the frame
      on the wire; an ended session stays as it is. */
  lemma SessionEnds(s: State, k: nat, e: Event)
    ensures Step(s, Quit) == s.(running := false)
    ensures s.running && s.queue != [] && k <= 4 + |s.queue[0]| ==>
              var t := Step(s, WriteFails(k));
              && !t.running && t.fates == s.fates + [Broken] && t.queue == s.queue[1..] && t.taken == s.taken
              && t.wire == s.wire + (Four(|s.queue[0]|) + s.queue[0])[..k]
    ensures !s.running ==> Step(s, e) == s
  {
    hide Word32, Four;
    if s.queue != [] {
      WordBytes(|s.queue[0]|);
    }
  }

  lemma {:induction false} AttemptedExtend(taken: seq<Bytes>, m: Bytes, fates: seq<Fate>)
    requires |fates| <= |taken|
    ensures Attempted(taken + [m], fates) == Attempted(taken, fates)
  {
    if fates != [] {
      AttemptedExtend(taken, m, fates[..|fates| - 1]);
    }
  }

  lemma AttemptedNext(taken: seq<Bytes>, fates: seq<Fate>, f: Fate)
    requires |fates| < |taken|
    ensures Attempted(taken, fates + [f]) ==
            if f.Dropped? then Attempted(taken, fates) else Attempted(taken, fates) + [taken[|fates|]]
  {
  }

  lemma FramesNext(msgs: seq<Bytes>, m: Bytes)
    ensures Frames(msgs + [m]) == Frames(msgs) + Frame(m)
  {
  }

  lemma StepKeepsInvariant(s: State, e: Event)
    requires QueueInvariant(s)
    ensures QueueInvariant(Step(s, e))
  {
    hide Frames, Attempted, Frame;
    if s.running {
      match e
      case Receive(m) =>
        AttemptedExtend(s.taken, m, s.fates);
        if |s.queue| == QUEUE_MAX_SIZE {
          AttemptedNext(s.taken + [m], s.fates, Dropped);
        }
      case Quit =>
      case Write =>
        if s.queue != [] {
          AttemptedNext(s.taken, s.fates, Sent);
          FramesNext(Attempted(s.taken, s.fates), s.queue[0]);
        }
      case WriteFails(k) =>
        if s.queue != [] && k <= |Frame(s.queue[0])| {
          AttemptedNext(s.taken, s.fates, Broken);
          FramesNext(Attempted(s.taken, s.fates), s.queue[0]);
        }
    }
  }

  /** In every reachable state the invariant holds. */
  lemma {:induction false} RunKeepsInvariant(es: seq<Event>)
    ensures QueueInvariant(Run(Initial, es))
    decreases |es|
  {
    if es != [] {
      RunKeepsInvariant(es[..|es| - 1]);
      StepKeepsInvariant(Run(Initial, es[..|es| - 1]), es[|es| - 1]);
    }
  }

  /** What left the session's queue towards the wire is an in-order subsequence of what came in. */
  lemma {:induction false} AttemptedIsSubseq(taken: seq<Bytes>, fates: seq<Fate>)
    requires |fates| <= |taken|
    ensures Subseq(Attempted(taken, fates), taken[..|fates|])
  {
    if fates != [] {
      var n := |fates| - 1;
      AttemptedIsSubseq(taken, fates[..n]);
      assert taken[..n + 1] == taken[..n] + [taken[n]];
      if fates[n].Dropped? {
        SubseqSkip(Attempted(taken, fates[..n]), taken[..n], taken[n]);
      } else {
        SubseqKeep(Attempted(taken, fates[..n]), taken[..n], taken[n]);
      }
    }
  }

  lemma {:induction false} CountsAddUp(fates: seq<Fate>)
    ensures Count(fates, Sent) + Count(fates, Dropped) + Count(fates, Broken) == |fates|
    ensures (forall i | 0 <= i < |fates| - 1 :: !fates[i].Broken?) ==> Count(fates, Broken) <= 1
    ensures (forall i | 0 <= i < |fates| :: !fates[i].Broken?) ==> Count(fates, Broken) == 0
  {
    if fates != [] {
      CountsAddUp(fates[..|fates| - 1]);
    }
  }

  /** Conservation: taken = sent + dropped + queued, plus at most one write cut short. */
  lemma {:induction false} Conservation(es: seq<Event>)
    ensures var s := Run(Initial, es);
            && |s.taken| == Count(s.fates, Sent) + Count(s.fates, Dropped) + Count(s.fates, Broken) + |s.queue|
            && Count(s.fates, Broken) <= (if s.running then 0 else 1)
  {
    RunKeepsInvariant(es);
    CountsAddUp(Run(Initial, es).fates);
  }

  /** While the session runs, none of the latest 100 messages has been lost: each is queued or sent. */
  lemma LatestAreSafe(es: seq<Event>, i: nat)
    requires var s := Run(Initial, es); s.running && i < |s.taken| && i + 100 >= |s.taken|
    ensures var s := Run(Initial, es);
            if i < |s.fates| then s.fates[i] == Sent
            else i - |s.fates| < |s.queue| && s.queue[i - |s.fates|] == s.taken[i]
  {
    hide Run;
    RunKeepsInvariant(es);
  }

  // ---------------------------------------------------------------- the loop

  class RemoteSubscriberSession {
    var queue: seq<Bytes>
    var running: bool
    const conn: Buffer
    ghost var taken: seq<Bytes>
    ghost var fates: seq<Fate>

    constructor (conn: Buffer)
      requires conn.data == []
      ensures this.conn == conn && Current() == Initial
    {
      queue := [];
      running := true;
      this.conn := conn;
      taken := [];
      fates := [];
    }

    ghost function Current(): State
      reads this, conn
    {
      State(running, taken, fates, queue, conn.data)
    }

    /** The sending loop, driven by what its select finds ready. */
    method Start(events: seq<Event>)
      modifies this, conn
      ensures Current() == Run(old(Current()), events)
    {
      hide Step;
      var i := 0;
      while i < |events|
        invariant i <= |events|
        invariant Current() == Run(old(Current()), events[..i])
      {
        assert events[..i + 1][..i] == events[..i];
        Turn(events[i]);
        i := i + 1;
      }
      assert events[..i] == events;
    }

    method Turn(e: Event)
      modifies this, conn
      ensures Current() == Step(old(Current()), e)
    {
      hide Word32;
      if !running {
        return;
      }
      match e
      case Receive(msg) =>
        if |queue| == QUEUE_MAX_SIZE {
          queue, fates := queue[1..], fates + [Dropped];
        }
        queue, taken := queue + [msg], taken + [msg];
      case Quit =>
        running := false;
      case Write =>
        if queue != [] {
          var msg := queue[0];
          queue, fates := queue[1..], fates + [Sent];
          conn.Write(Word32(|msg| % TWO_TO_32));
          conn.Write(msg);
          assert Frame(msg) == Word32(|msg| % TWO_TO_32) + msg;
        }
      case WriteFails(k) =>
        if queue != [] && k <= |Frame(queue[0])| {
          var msg := queue[0];
          queue, fates := queue[1..], fates + [Broken];
          conn.Write(Frame(msg)[..k]);
          running := false;
        }
    }
  }
}
