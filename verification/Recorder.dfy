/** `Recorder` of remote/src/recording.rs: handing frames to a writer thread without ever waiting for it. */
module Recorder {
  import opened Bytes
  import opened Recording

  /** The writer's queue holds this many frames. */
  const CAPACITY: nat := 8

  /**
   A recording in progress. `sender` is whether frames are still queued,
   `running` whether the writer thread still takes them. `received`, `seen`,
   `refused` and `ended` are its history: the frames received while it was the
   active recording, those its writer has taken, whether a frame could not be
   queued, and whether the writer came to the end of a closed queue.
   */
  datatype Session = Session(
    sender: bool, overloaded: bool, running: bool, queue: seq<Received>,
    received: seq<Received>, seen: seq<Received>, refused: bool, ended: bool)

  const STARTED := Session(true, false, true, [], [], [], false, false)

  /** `replaced` are sessions another start put itself in the place of; their writers go on. */
  datatype State = State(
    session: Option<Session>, stream: Option<nat>, finishing: seq<Session>, collected: seq<Session>, replaced: seq<Session>)

  const IDLE := State(None, None, [], [], [])

  /** What a writer thread can do. */
  datatype Action = TakeFrame | Fail | End

  datatype Which = Active | Finishing(i: nat) | Replaced(i: nat)

  /** What happens under one hold of the lock, or in a writer thread. `toggle` and `take_notice` hold it several times. */
  datatype Event =
    | Receive(r: Received)
    | Start
    | Stop
    | Collect
    | Worker(which: Which, action: Action)

  // ---- One session --------------------------------------------------------

  /** `receive`, for the active session: queues the frame, or gives up queueing for good. */
  function Queued(s: Session, r: Received): Session {
    var s := s.(received := s.received + [r]);
    if !s.sender then s
    else if !s.running then s.(sender := false, overloaded := false, refused := true)
    else if |s.queue| >= CAPACITY then s.(sender := false, overloaded := true, refused := true)
    else s.(queue := s.queue + [r])
  }

  /** The writer takes the next frame, fails (its queue is dropped), or ends once the queue is closed and drained. */
  function Worked(s: Session, action: Action): Session {
    if !s.running then s
    else
      match action
      case TakeFrame => if s.queue == [] then s else s.(seen := s.seen + [s.queue[0]], queue := s.queue[1..])
      case Fail => s.(running := false, queue := [])
      case End => if s.queue == [] && !s.sender then s.(running := false, ended := true) else s
  }

  function Closed(s: Session): Session { s.(sender := false) }

  // ---- The recorder -------------------------------------------------------

  /** The first finishing session whose writer has ended, if any. */
  function FirstEnded(sessions: seq<Session>, i: nat): (r: nat)
    requires i <= |sessions|
    ensures i <= r <= |sessions|
    ensures r < |sessions| ==> !sessions[r].running
    decreases |sessions| - i
  {
    if i == |sessions| || !sessions[i].running then i else FirstEnded(sessions, i + 1)
  }

  /** Collects one finished session, as the window does when it looks for a notice. */
  function Collected(s: State): State {
    var i := FirstEnded(s.finishing, 0);
    if i == |s.finishing| then s
    else s.(finishing := s.finishing[..i] + s.finishing[i + 1..], collected := s.collected + [s.finishing[i]])
  }

  function Step(s: State, event: Event): State {
    match event
    case Receive(r) =>
      s.(stream := Some(r.frame.streamId), session := if s.session.Some? then Some(Queued(s.session.value, r)) else None)
    case Start =>
      s.(session := Some(STARTED), replaced := s.replaced + if s.session.Some? then [Closed(s.session.value)] else [])
    case Stop =>
      if s.session.None? then s else s.(session := None, finishing := s.finishing + [Closed(s.session.value)])
    case Collect => Collected(s)
    case Worker(Active, action) =>
      s.(session := if s.session.Some? then Some(Worked(s.session.value, action)) else None)
    case Worker(Finishing(i), action) =>
      if i < |s.finishing| then s.(finishing := s.finishing[i := Worked(s.finishing[i], action)]) else s
    case Worker(Replaced(i), action) =>
      if i < |s.replaced| then s.(replaced := s.replaced[i := Worked(s.replaced[i], action)]) else s
  }

  function Run(events: seq<Event>): State {
    if events == [] then IDLE else Step(Run(events[..|events| - 1]), events[|events| - 1])
  }

  // ---- What every run keeps -----------------------------------------------

  /**
   The writer sees a prefix of what was received, without a gap: all of it so
   far while it runs and no frame was refused, and all of it once it has come to
   the end of the queue of a recording that refused none.
   */
  ghost predicate GapFree(s: Session) {
    && s.seen + s.queue <= s.received
    && |s.queue| <= CAPACITY
    && (s.refused ==> !s.sender)
    && (s.overloaded ==> s.refused)
    && (!s.refused && s.running ==> s.seen + s.queue == s.received)
    && (s.ended ==> !s.running && !s.sender)
    && (s.ended && !s.refused ==> s.seen == s.received)
  }

  /** No further frame comes to a recording whose queue is closed, unless it is the active one and has refused a frame. */
  ghost predicate Safe(s: State) {
    && (s.session.Some? ==> GapFree(s.session.value) && (s.session.value.sender || s.session.value.refused))
    && AllClosed(s.finishing) && AllClosed(s.replaced) && AllClosed(s.collected)
    && (forall i :: 0 <= i < |s.collected| ==> !s.collected[i].running)
  }

  ghost predicate AllClosed(sessions: seq<Session>) {
    forall i :: 0 <= i < |sessions| ==> GapFree(sessions[i]) && !sessions[i].sender
  }

  lemma QueuedGapFree(s: Session, r: Received)
    requires GapFree(s) && (s.sender || s.refused)
    ensures GapFree(Queued(s, r)) && (Queued(s, r).sender || Queued(s, r).refused)
  {
    assert s.received <= s.received + [r];
    if s.sender && s.running && |s.queue| < CAPACITY {
      Assoc(s.seen, s.queue, [r]);
    }
  }

  lemma WorkedGapFree(s: Session, action: Action)
    requires GapFree(s)
    ensures GapFree(Worked(s, action)) && Worked(s, action).sender == s.sender && Worked(s, action).refused == s.refused
  {
    assert s.seen + [] == s.seen;
    if s.running && action == TakeFrame && s.queue != [] {
      assert s.queue == [s.queue[0]] + s.queue[1..];
      Assoc(s.seen, [s.queue[0]], s.queue[1..]);
    } else if s.running && action == Fail {
      assert s.seen <= s.seen + s.queue;
    }
  }

  lemma StepSafe(s: State, event: Event)
    requires Safe(s)
    ensures Safe(Step(s, event))
  {
    hide GapFree, Queued, Worked;
    match event
    case Receive(r) =>
      if s.session.Some? {
        QueuedGapFree(s.session.value, r);
      }
    case Start =>
      StartedGapFree();
      if s.session.Some? {
        ClosedGapFree(s.session.value);
      }
    case Stop =>
      if s.session.Some? {
        ClosedGapFree(s.session.value);
      }
    case Collect =>
    case Worker(Active, action) =>
      if s.session.Some? {
        WorkedGapFree(s.session.value, action);
      }
    case Worker(Finishing(i), action) =>
      if i < |s.finishing| {
        WorkedGapFree(s.finishing[i], action);
      }
    case Worker(Replaced(i), action) =>
      if i < |s.replaced| {
        WorkedGapFree(s.replaced[i], action);
      }
  }

  lemma StartedGapFree()
    ensures GapFree(STARTED)
  {
  }

  lemma ClosedGapFree(s: Session)
    requires GapFree(s)
    ensures GapFree(Closed(s))
  {
  }

  /** In every run, every recording's writer sees a gap-free prefix of the frames received while it was active. */
  lemma {:induction false} RunsAreSafe(events: seq<Event>)
    ensures Safe(Run(events))
  {
    if events != [] {
      RunsAreSafe(events[..|events| - 1]);
      StepSafe(Run(events[..|events| - 1]), events[|events| - 1]);
    }
  }

  /**
   In every run, a recording collected after its writer came to the end of the
   queue, and that refused no frame, holds every frame it received.
   */
  lemma EndedHoldsAll(events: seq<Event>, i: nat)
    requires i < |Run(events).collected|
    ensures var s := Run(events).collected[i];
            s.ended && !s.refused ==> s.seen == s.received && FramesOf(PartsOf(s.seen)) == KeptOf(s.received)
  {
    hide PartsOf, KeptOf, FramesOf, Run;
    RunsAreSafe(events);
    PartsHoldKept(Run(events).collected[i].seen);
  }

  /** As long as a stopped recording's writer has ended, looking for a notice collects one such, and no other is lost. */
  lemma {:induction false} EndedIsCollected(s: State, i: nat)
    requires i < |s.finishing| && !s.finishing[i].running
    ensures var t := Step(s, Collect);
            exists k :: 0 <= k <= i && !s.finishing[k].running
                        && t.finishing == s.finishing[..k] + s.finishing[k + 1..] && t.collected == s.collected + [s.finishing[k]]
  {
    FirstEndedAtMost(s.finishing, 0, i);
  }

  lemma {:induction false} FirstEndedAtMost(sessions: seq<Session>, from: nat, i: nat)
    requires from <= i < |sessions| && !sessions[i].running
    ensures FirstEnded(sessions, from) <= i
    decreases i - from
  {
    if from < i && sessions[from].running {
      FirstEndedAtMost(sessions, from + 1, i);
    }
  }

  /** The frames received in a stretch of a run. */
  function FramesIn(events: seq<Event>): seq<Received> {
    if events == [] then []
    else
      var n := |events| - 1;
      FramesIn(events[..n]) + if events[n].Receive? then [events[n].r] else []
  }

  /** The writer takes frames, and has seen all but fewer than eight of those received. */
  predicate KeepsUp(s: State) {
    s.session.Some? && s.session.value.running && |s.session.value.received| - |s.session.value.seen| < 8
  }

  /** Whenever a frame comes, the writer keeps up. */
  ghost predicate AlwaysKeepsUp(before: seq<Event>, events: seq<Event>) {
    forall k :: 0 <= k < |events| && events[k].Receive? ==> KeepsUp(Run(before + events[..k]))
  }

  lemma {:induction false} RunStep(before: seq<Event>, events: seq<Event>)
    requires events != []
    ensures Run(before + events) == Step(Run(before + events[..|events| - 1]), events[|events| - 1])
  {
    hide Step;
    var all, n := before + events, |events| - 1;
    assert all[..|all| - 1] == before + events[..n] && all[|all| - 1] == events[n];
  }

  /** Nothing was refused, and a running writer's queue holds what it has not seen. */
  ghost predicate Complete(s: Session) { s.sender && !s.refused && (s.running ==> s.seen + s.queue == s.received) }

  lemma StepRefusesNothing(s: State, e: Event)
    requires s.session.Some? && !e.Start? && !e.Stop? && GapFree(s.session.value)
    ensures var t := Step(s, e);
            && t.session.Some?
            && t.session.value.received == s.session.value.received + (if e.Receive? then [e.r] else [])
            && (Complete(s.session.value) && (e.Receive? ==> KeepsUp(s)) ==> Complete(t.session.value))
  {
    var x := s.session.value;
    assert x.received + [] == x.received;
    match e
    case Receive(r) => Assoc(x.seen, x.queue, [r]);
    case Worker(Active, TakeFrame) =>
      if x.running && x.queue != [] {
        assert x.queue == [x.queue[0]] + x.queue[1..];
        Assoc(x.seen, [x.queue[0]], x.queue[1..]);
      }
    case _ =>
  }

  /**
   From the start of a recording, until it is stopped or another takes its
   place: what it received is exactly the frames that came, and it refuses none
   as long as the writer keeps up, so the writer sees them all in turn.
   */
  lemma {:induction false} NothingRefused(before: seq<Event>, events: seq<Event>)
    requires before != [] && before[|before| - 1].Start?
    requires forall e :: e in events ==> !e.Start? && !e.Stop?
    ensures var s := Run(before + events).session;
            && s.Some? && s.value.received == FramesIn(events)
            && (AlwaysKeepsUp(before, events) ==> Complete(s.value))
    decreases |events|
  {
    hide Run, Step, GapFree, Complete, KeepsUp;
    if events == [] {
      Started(before);
      assert before + events == before;
    } else {
      var n := |events| - 1;
      var fewer := events[..n];
      assert events[n] in events && forall e :: e in fewer ==> e in events;
      NothingRefused(before, fewer);
      RunStep(before, events);
      RunsAreSafe(before + fewer);
      StepRefusesNothing(Run(before + fewer), events[n]);
      if AlwaysKeepsUp(before, events) {
        assert AlwaysKeepsUp(before, fewer) by {
          assert forall k :: 0 <= k < n ==> fewer[k] == events[k] && fewer[..k] == events[..k];
        }
        assert events[n].Receive? ==> KeepsUp(Run(before + fewer));
      }
    }
  }

  lemma {:induction false} Started(before: seq<Event>)
    requires before != [] && before[|before| - 1].Start?
    ensures Run(before).session == Some(STARTED) && Complete(STARTED)
  {
  }

  /** The parts of what the writer saw are the kept frames of a prefix of what was received. */
  lemma WriterSawPrefix(s: Session)
    requires GapFree(s)
    ensures exists n :: 0 <= n <= |s.received| && s.seen == s.received[..n]
                        && FramesOf(PartsOf(s.seen)) == KeptOf(s.received[..n])
  {
    var n := |s.seen|;
    assert s.seen == (s.seen + s.queue)[..n] == s.received[..n];
    PartsHoldKept(s.seen);
  }

  // ---- The recorder as the source writes it -------------------------------

  class Recorder {
    var session: Option<Session>
    var stream: Option<nat>
    var finishing: seq<Session>
    var collected: seq<Session>
    ghost var replaced: seq<Session>

    ghost function View(): State
      reads this
    {
      State(session, stream, finishing, collected, replaced)
    }

    constructor ()
      ensures View() == IDLE
    {
      session, stream, finishing, collected := None, None, [], [];
      replaced := [];
    }

    method Active() returns (active: bool)
      ensures active == session.Some?
    {
      active := session.Some?;
    }

    /** The end of `start`, once there is a folder and a writer. */
    method StartRecording()
      modifies this
      ensures View() == Step(old(View()), Start)
    {
      replaced := replaced + if session.Some? then [Closed(session.value)] else [];
      session := Some(STARTED);
    }

    method StopRecording()
      modifies this
      ensures View() == Step(old(View()), Stop)
    {
      if session.Some? {
        var taken := session.value;
        session := None;
        taken := taken.(sender := false);
        finishing := finishing + [taken];
      }
    }

    /** Starts or stops. A new recording needs a keyframe of the stream being shown, if there is one. */
    method ToggleRecording(startable: bool) returns (request: Option<nat>)
      modifies this
      ensures View() == if old(session).Some? then Step(old(View()), Stop)
                        else if startable then Step(old(View()), Start)
                        else old(View())
      ensures request == if old(session).None? && startable then old(stream) else None
    {
      var active := Active();
      if active {
        StopRecording();
        return None;
      }
      if !startable {
        return None;
      }
      StartRecording();
      return stream;
    }

    method ReceiveFrame(r: Received)
      modifies this
      ensures View() == Step(old(View()), Receive(r))
    {
      stream := Some(r.frame.streamId);
      if session.Some? {
        var s := session.value;
        s := s.(received := s.received + [r]);
        if s.sender {
          if !s.running || |s.queue| >= CAPACITY {
            s := s.(overloaded := s.running, refused := true);
            s := s.(sender := false);
          } else {
            s := s.(queue := s.queue + [r]);
          }
        }
        session := Some(s);
      }
    }

    method LookForNotice()
      modifies this
      ensures var stopped := if old(session).Some? && !old(session).value.running then Step(old(View()), Stop) else old(View());
              View() == Step(stopped, Collect)
    {
      if session.Some? && !session.value.running {
        StopRecording();
      }
      var i := 0;
      while i < |finishing| && finishing[i].running
        invariant i <= |finishing| && FirstEnded(finishing, i) == FirstEnded(finishing, 0)
      {
        i := i + 1;
      }
      if i < |finishing| {
        var ended := finishing[i];
        finishing := finishing[..i] + finishing[i + 1..];
        collected := collected + [ended];
      }
    }
  }
}
