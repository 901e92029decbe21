/**
 The register-then-check waiting of remote/src/reconnect.rs ("Retry now") and
 remote/src/shutdown.rs, as interleaved steps of any number of waiters and
 requesters. The shutdown flag is a generation above zero; `Notify` is the set
 of waiters registered since they were last notified.
 */
module WakeUp {

  type Id = nat

  /** A waiter: not yet registered, registered but not yet checked, awaiting, or returned. */
  datatype Phase = Start | Registered | Asleep | Done

  /** A waiter waits for a generation above `after`; `begun` is the generation when it began. */
  datatype Waiter = Waiter(phase: Phase, after: nat, begun: nat)

  datatype State = State(
    generation: nat, registered: set<Id>, waiters: map<Id, Waiter>, notifying: set<Id>, requested: set<Id>)

  const INITIAL := State(0, {}, map[], {}, {})

  datatype Event =
    | Read(w: Id)          // `retry_generation`, then `wait_for_retry_after` with what it read
    | WaitForShutdown(w: Id)
    | Register(w: Id)      // `notified()` and `enable()`
    | Check(w: Id)         // the condition: return, or await
    | Wake(w: Id)          // the await ends, only once notified; the loop starts over
    | Request(r: Id)       // the atomic store or increment
    | Notify(r: Id)        // `notify_waiters`

  /** One step; an event that is not enabled changes nothing. */
  function Step(s: State, e: Event): State {
    match e
    case Read(w) =>
      if w in s.waiters then s else s.(waiters := s.waiters[w := Waiter(Start, s.generation, s.generation)])
    case WaitForShutdown(w) =>
      if w in s.waiters then s else s.(waiters := s.waiters[w := Waiter(Start, 0, s.generation)])
    case Register(w) =>
      if At(s, w, Start) then Moved(s, w, Registered).(registered := s.registered + {w}) else s
    case Check(w) =>
      if !At(s, w, Registered) then s
      else if s.generation > s.waiters[w].after then Moved(s, w, Done).(registered := s.registered - {w})
      else Moved(s, w, Asleep)
    case Wake(w) =>
      if At(s, w, Asleep) && w !in s.registered then Moved(s, w, Start) else s
    case Request(r) =>
      if r in s.requested then s
      else s.(generation := s.generation + 1, notifying := s.notifying + {r}, requested := s.requested + {r})
    case Notify(r) =>
      if r in s.notifying then s.(registered := {}, notifying := s.notifying - {r}) else s
  }

  predicate At(s: State, w: Id, phase: Phase) { w in s.waiters && s.waiters[w].phase == phase }

  function Moved(s: State, w: Id, phase: Phase): State
    requires w in s.waiters
  {
    s.(waiters := s.waiters[w := s.waiters[w].(phase := phase)])
  }

  function Run(s: State, events: seq<Event>): State
    decreases |events|
  {
    if events == [] then s else Step(Run(s, events[..|events| - 1]), events[|events| - 1])
  }

  // ---- Safety -------------------------------------------------------------

  predicate Met(s: State, w: Id)
    requires w in s.waiters
  {
    s.generation > s.waiters[w].after
  }

  /** Awaiting, and not notified since it registered. */
  predicate Sleeping(s: State, w: Id) { At(s, w, Asleep) && w in s.registered }

  ghost predicate Inv(s: State) {
    && (forall w :: w in s.waiters && Sleeping(s, w) && Met(s, w) ==> s.notifying != {})
    && (forall w :: w in s.waiters ==> s.waiters[w].begun <= s.generation && s.waiters[w].after <= s.waiters[w].begun)
    && (forall w :: w in s.waiters && s.waiters[w].phase == Done ==> Met(s, w))
  }

  lemma StepKeepsInv(s: State, e: Event)
    requires Inv(s)
    ensures Inv(Step(s, e))
  {
    var t := Step(s, e);
    forall w | w in t.waiters && Sleeping(t, w) && Met(t, w) ensures t.notifying != {} {
      match e
      case Request(r) =>
        if r in s.requested {
          assert Sleeping(s, w);
        } else {
          assert r in t.notifying;
        }
      case Notify(r) =>
        assert r !in s.notifying;
        assert Sleeping(s, w);
      case Check(v) =>
        assert Sleeping(s, w) || v == w;
      case _ =>
        assert Sleeping(s, w);
    }
  }

  lemma {:induction false} RunKeepsInv(events: seq<Event>)
    ensures Inv(Run(INITIAL, events))
  {
    if events != [] {
      RunKeepsInv(events[..|events| - 1]);
      StepKeepsInv(Run(INITIAL, events[..|events| - 1]), events[|events| - 1]);
    }
  }

  /** No wake-up is lost: once every request has notified, nobody whose condition holds is asleep. */
  lemma {:induction false} NoLostWakeUp(events: seq<Event>, w: Id)
    requires var s := Run(INITIAL, events); s.notifying == {} && w in s.waiters && Met(s, w)
    ensures !Sleeping(Run(INITIAL, events), w)
  {
    RunKeepsInv(events);
  }

  /** The requests among `events` that took effect. */
  function Requests(s: State, events: seq<Event>): nat
    decreases |events|
  {
    if events == [] then 0
    else
      var before := events[..|events| - 1];
      var e := events[|events| - 1];
      Requests(s, before) + if e.Request? && e.r !in Run(s, before).requested then 1 else 0
  }

  lemma {:induction false} GenerationCounts(s: State, events: seq<Event>)
    ensures Run(s, events).generation == s.generation + Requests(s, events)
    decreases |events|
  {
    if events != [] {
      GenerationCounts(s, events[..|events| - 1]);
    }
  }

  lemma {:induction false} WaiterKept(s: State, events: seq<Event>, w: Id)
    requires w in s.waiters
    ensures w in Run(s, events).waiters
    ensures Run(s, events).waiters[w].after == s.waiters[w].after && Run(s, events).waiters[w].begun == s.waiters[w].begun
    decreases |events|
  {
    if events != [] {
      WaiterKept(s, events[..|events| - 1], w);
    }
  }

  /** `wait_for_retry_after(g)` returns only after a request made later than the reading of `g`. */
  lemma {:induction false} ReturnsAfterLaterRequest(earlier: seq<Event>, w: Id, later: seq<Event>)
    requires w !in Run(INITIAL, earlier).waiters
    ensures var read := Step(Run(INITIAL, earlier), Read(w));
            At(Run(read, later), w, Done) ==> Requests(read, later) > 0
  {
    var read := Step(Run(INITIAL, earlier), Read(w));
    RunKeepsInv(earlier);
    StepKeepsInv(Run(INITIAL, earlier), Read(w));
    RunFromKeepsInv(read, later);
    GenerationCounts(read, later);
    WaiterKept(read, later, w);
  }

  lemma {:induction false} RunFromKeepsInv(s: State, events: seq<Event>)
    requires Inv(s)
    ensures Inv(Run(s, events))
    decreases |events|
  {
    if events != [] {
      RunFromKeepsInv(s, events[..|events| - 1]);
      StepKeepsInv(Run(s, events[..|events| - 1]), events[|events| - 1]);
    }
  }

  /** `shutdown::wait` returns only after a request. */
  lemma {:induction false} ShutdownReturnsAfterRequest(events: seq<Event>, w: Id)
    requires At(Run(INITIAL, events), w, Done)
    ensures Requests(INITIAL, events) > 0
  {
    RunKeepsInv(events);
    GenerationCounts(INITIAL, events);
  }

  /** A waiter for shutdown has something to return for exactly once a request came, before its call or after. */
  lemma {:induction false} ShutdownMetExactly(earlier: seq<Event>, w: Id, later: seq<Event>)
    requires w !in Run(INITIAL, earlier).waiters
    ensures var begun := Step(Run(INITIAL, earlier), WaitForShutdown(w));
            && w in Run(begun, later).waiters
            && (Met(Run(begun, later), w) <==> Requests(INITIAL, earlier) + Requests(begun, later) > 0)
  {
    var begun := Step(Run(INITIAL, earlier), WaitForShutdown(w));
    GenerationCounts(INITIAL, earlier);
    GenerationCounts(begun, later);
    WaiterKept(begun, later, w);
  }

  /** A waiter for a retry has exactly once a request came after the reading. */
  lemma {:induction false} RetryMetExactly(earlier: seq<Event>, w: Id, later: seq<Event>)
    requires w !in Run(INITIAL, earlier).waiters
    ensures var read := Step(Run(INITIAL, earlier), Read(w));
            && w in Run(read, later).waiters
            && (Met(Run(read, later), w) <==> Requests(read, later) > 0)
  {
    var read := Step(Run(INITIAL, earlier), Read(w));
    GenerationCounts(read, later);
    WaiterKept(read, later, w);
  }

  /** A wait for shutdown begun after a request returns at its first check, whatever else happens meanwhile. */
  lemma {:induction false} ShutdownReturnsAtOnce(earlier: seq<Event>, w: Id, others: seq<Event>, more: seq<Event>)
    requires w !in Run(INITIAL, earlier).waiters && Requests(INITIAL, earlier) > 0
    requires forall e :: e in others || e in more ==> !Own(e, w)
    ensures var begun := Step(Run(INITIAL, earlier), WaitForShutdown(w));
            var registered := Step(Run(begun, others), Register(w));
            At(Step(Run(registered, more), Check(w)), w, Done)
  {
    var begun := Step(Run(INITIAL, earlier), WaitForShutdown(w));
    GenerationCounts(INITIAL, earlier);
    Untouched(begun, others, w);
    var registered := Step(Run(begun, others), Register(w));
    GenerationCounts(begun, others);
    Untouched(registered, more, w);
    GenerationCounts(registered, more);
  }

  /** The steps of others leave a waiter where it is. */
  lemma {:induction false} Untouched(s: State, events: seq<Event>, w: Id)
    requires w in s.waiters && forall e :: e in events ==> !Own(e, w)
    ensures w in Run(s, events).waiters && Run(s, events).waiters[w] == s.waiters[w]
    decreases |events|
  {
    if events != [] {
      var n := |events| - 1;
      assert events[n] in events && forall e :: e in events[..n] ==> e in events;
      Untouched(s, events[..n], w);
    }
  }

  // ---- Progress -----------------------------------------------------------

  /** How many steps of its own a waiter whose condition holds has left. */
  function StepsLeft(s: State, w: Id): nat
    requires w in s.waiters
  {
    match s.waiters[w].phase
    case Done => 0
    case Registered => 1
    case Start => 2
    case Asleep => 3
  }

  /** The waiter's next step. */
  function NextStep(s: State, w: Id): Event
    requires w in s.waiters
  {
    match s.waiters[w].phase
    case Start => Register(w)
    case Registered => Check(w)
    case _ => Wake(w)
  }

  predicate Own(e: Event, w: Id) { e == Register(w) || e == Check(w) || e == Wake(w) }

  /** Steps of the waiter's own that had an effect. */
  function OwnSteps(s: State, events: seq<Event>, w: Id): nat
    decreases |events|
  {
    if events == [] then 0
    else
      var before := events[..|events| - 1];
      var e := events[|events| - 1];
      OwnSteps(s, before, w) + if Own(e, w) && Step(Run(s, before), e) != Run(s, before) then 1 else 0
  }

  lemma ProgressStep(s: State, e: Event, w: Id)
    requires w in s.waiters && Met(s, w)
    ensures var t := Step(s, e);
            && w in t.waiters && Met(t, w)
            && StepsLeft(t, w) + (if Own(e, w) && t != s then 1 else 0) <= StepsLeft(s, w)
  {
  }

  /** Whatever the others do, a waiter whose condition holds takes at most three more steps of its own. */
  lemma {:induction false} BoundedSteps(s: State, events: seq<Event>, w: Id)
    requires w in s.waiters && Met(s, w)
    ensures w in Run(s, events).waiters && Met(Run(s, events), w)
    ensures StepsLeft(Run(s, events), w) + OwnSteps(s, events, w) <= StepsLeft(s, w) <= 3
    decreases |events|
  {
    if events != [] {
      var before := events[..|events| - 1];
      BoundedSteps(s, before, w);
      ProgressStep(Run(s, before), events[|events| - 1], w);
    }
  }

  /**
   Until it has returned, the waiter can always take one of those steps, or a
   request has yet to notify and every such notification lets it.
   */
  lemma {:induction false} NeverStuck(events: seq<Event>, w: Id)
    requires var s := Run(INITIAL, events); w in s.waiters && Met(s, w) && !At(s, w, Done)
    ensures var s := Run(INITIAL, events);
            || CanStep(s, w)
            || (s.notifying != {} && forall r :: r in s.notifying ==> CanStep(Step(s, Notify(r)), w))
  {
    RunKeepsInv(events);
  }

  /** The waiter's own next step brings it closer to returning. */
  predicate CanStep(s: State, w: Id) {
    && w in s.waiters
    && var t := Step(s, NextStep(s, w));
       w in t.waiters && StepsLeft(t, w) < StepsLeft(s, w)
  }
}
