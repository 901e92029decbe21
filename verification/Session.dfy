/**
 The viewer's session loop: `run_resumable_session` of remote/src/main.rs with
 the decisions of remote/src/reconnect.rs, the state of remote/src/transport.rs
 and the delays of crates/signaling-client. Times are in milliseconds.
 */
module Session {
  import opened Bytes

  const STARTUP_ATTEMPTS: nat := 3
  const STARTUP_DEADLINE: nat := 60_000
  const STABLE_CONNECTION: nat := 20_000

  datatype Code =
    | IdentityMismatch | ConnectionDeclined | VideoEncoderUnavailable | NoMutualProfile | OtherCode

  datatype Reason =
    | RemoteUnavailable | NetworkLost | ConnectionInterrupted | VideoRestarting | Restarting(safeMode: bool)

  /** A failed attempt: whether the server ended the session, the code the Agent reported, and what the window says. */
  datatype Error = Error(terminal: bool, code: Option<Code>, reason: Reason)

  datatype Disposition = Retry | GiveUp | Terminal

  /** `disposition`. */
  function DispositionOf(error: Error, everPresented: bool, startupFailures: nat, startupElapsed: nat): Disposition {
    if error.terminal then Terminal
    else if error.code == Some(IdentityMismatch) || error.code == Some(ConnectionDeclined) then Terminal
    else if everPresented then Retry
    else if error.code == Some(VideoEncoderUnavailable) || error.code == Some(NoMutualProfile) then Terminal
    else if startupFailures >= STARTUP_ATTEMPTS || startupElapsed >= STARTUP_DEADLINE then GiveUp
    else Retry
  }

  /** An error that retrying cannot help, by what the server and the Agent said; some only before the first frame. */
  predicate Hopeless(error: Error, presented: bool) {
    || error.terminal
    || (error.code.Some? && (error.code.value.IdentityMismatch? || error.code.value.ConnectionDeclined?))
    || (!presented && error.code.Some? && (error.code.value.VideoEncoderUnavailable? || error.code.value.NoMutualProfile?))
  }

  /** Retrying ends exactly for a hopeless error, or before the first frame for the startup cap. */
  lemma DispositionMeans(error: Error, presented: bool, failures: nat, elapsed: nat)
    ensures var d := DispositionOf(error, presented, failures, elapsed);
            && (d == Terminal <==> Hopeless(error, presented))
            && (d == GiveUp <==> !Hopeless(error, presented) && !presented && (failures >= 3 || elapsed >= 60_000))
  {
  }

  // ---- Delays between attempts --------------------------------------------

  function Doubled(n: nat, maximum: nat): nat { if 2 * n < maximum then 2 * n else maximum }

  /** The delay after `n` failures in a row without a stable connection. */
  function DelayAfter(initial: nat, maximum: nat, n: nat): nat {
    if n == 0 then initial else Doubled(DelayAfter(initial, maximum, n - 1), maximum)
  }

  /** `ReconnectBackoff`. */
  class Backoff {
    const initial: nat
    const maximum: nat
    var next: nat
    /** Delays given since the schedule last started over. */
    ghost var given: nat

    ghost predicate Valid()
      reads this
    {
      0 < initial <= maximum && next == DelayAfter(initial, maximum, given)
    }

    constructor (initial: nat, maximum: nat)
      requires 0 < initial <= maximum
      ensures Valid() && given == 0 && this.initial == initial && this.maximum == maximum
    {
      this.initial, this.maximum, next := initial, maximum, initial;
      given := 0;
    }

    /** An attempt that streamed long enough starts the schedule over; any other goes on with it. */
    method DelayFor(streamedFor: Option<nat>) returns (delay: nat)
      requires Valid()
      modifies this
      ensures Valid()
      ensures var stable := streamedFor.Some? && streamedFor.value >= STABLE_CONNECTION;
              && given == (if stable then 0 else old(given)) + 1
              && delay == DelayAfter(initial, maximum, given - 1)
    {
      if streamedFor.Some? && streamedFor.value >= STABLE_CONNECTION {
        next, given := initial, 0;
      }
      delay := next;
      next, given := Doubled(next, maximum), given + 1;
    }
  }

  /** The first delay, doubled with each failure in a row, up to the limit. */
  lemma {:induction false} DelaysDouble(initial: nat, maximum: nat, n: nat)
    requires 0 < initial <= maximum
    ensures DelayAfter(initial, maximum, n) == if initial * Power2(n) < maximum then initial * Power2(n) else maximum
  {
    if n > 0 {
      DelaysDouble(initial, maximum, n - 1);
      ProductDoubles(initial, Power2(n - 1));
    }
  }

  lemma ProductDoubles(a: nat, b: nat)
    ensures a * (2 * b) == 2 * (a * b)
  {
  }

  /** Delays never shrink while attempts keep failing, and stay within the limits. */
  lemma {:induction false} DelaysGrow(initial: nat, maximum: nat, m: nat, n: nat)
    requires 0 < initial <= maximum && m <= n
    ensures initial <= DelayAfter(initial, maximum, m) <= DelayAfter(initial, maximum, n) <= maximum
    decreases n
  {
    if m < n {
      DelaysGrow(initial, maximum, m, n - 1);
    } else if n > 0 {
      DelaysGrow(initial, maximum, n - 1, n - 1);
    }
  }

  // ---- The state kept between attempts ------------------------------------

  datatype Status = Status(reason: Reason, since: nat)

  /** `ViewerResumeState`, as far as the loop uses it. */
  class ResumeState {
    var everPresented: bool
    var firstFrameAt: Option<nat>
    var status: Option<Status>
    var restarting: Option<bool>
    var approvalWait: nat
    /** The earliest failure since the remote display last appeared. */
    ghost var downSince: Option<nat>

    /** The window shows a status exactly from the first failure until the display appears again. */
    ghost predicate Valid()
      reads this
    {
      && (firstFrameAt.Some? ==> everPresented)
      && (status.Some? <==> downSince.Some?)
      && (status.Some? ==> status.value.since == downSince.value)
    }

    constructor ()
      ensures Valid() && !everPresented && status.None? && approvalWait == 0 && downSince.None?
    {
      everPresented, firstFrameAt, status, restarting, approvalWait := false, None, None, None, 0;
      downSince := None;
    }

    method BeginAttempt()
      requires Valid()
      modifies this`firstFrameAt
      ensures Valid() && firstFrameAt.None?
    {
      firstFrameAt := None;
    }

    /** `observe_presentation`: an attempt's first frame ends the reconnect and any restart. */
    method ObservePresentation(at: nat)
      requires Valid()
      modifies this`everPresented, this`firstFrameAt, this`status, this`restarting, this`downSince
      ensures Valid() && everPresented && firstFrameAt.Some?
      ensures old(firstFrameAt).None? ==> firstFrameAt == Some(at) && status.None? && restarting.None? && downSince.None?
      ensures old(firstFrameAt).Some? ==>
                firstFrameAt == old(firstFrameAt) && status == old(status) && restarting == old(restarting)
                && downSince == old(downSince)
    {
      everPresented := true;
      if firstFrameAt.None? {
        firstFrameAt := Some(at);
        status := None;
        restarting := None;
        downSince := None;
      }
    }

    /** The technician restarts the remote computer, or that failed. */
    method Restart(restarting: Option<bool>)
      requires Valid()
      modifies this`restarting
      ensures Valid() && this.restarting == restarting
    {
      this.restarting := restarting;
    }

    /** `record_failure`: the time without a display counts from the first failure in a row. */
    method RecordFailure(error: Error, now: nat)
      requires Valid()
      modifies this`status, this`downSince
      ensures Valid() && downSince == (if old(downSince).Some? then old(downSince) else Some(now))
      ensures status.Some?
      ensures status.value.reason == if restarting.Some? then Restarting(restarting.value) else error.reason
    {
      var reason := if restarting.Some? then Restarting(restarting.value) else error.reason;
      status := Some(Status(reason, if status.Some? then status.value.since else now));
      downSince := if downSince.Some? then downSince else Some(now);
    }

    method StreamedFor(now: nat) returns (streamed: Option<nat>)
      ensures streamed == if firstFrameAt.None? then None
                          else Some(if now > firstFrameAt.value then now - firstFrameAt.value else 0)
    {
      streamed := if firstFrameAt.None? then None
      else Some(if now > firstFrameAt.value then now - firstFrameAt.value else 0);
    }

    /** Whether idle time counts: only with the remote display up. */
    method Streaming() returns (streaming: bool)
      requires Valid()
      ensures streaming <==> everPresented && downSince.None?
    {
      streaming := everPresented && status.None?;
    }
  }

  // ---- The loop -----------------------------------------------------------

  type Bootstrap = nat

  datatype Resume = Refreshed(bootstrap: Bootstrap) | Refused | Unrefreshed(reason: Option<Reason>) | StoppedResuming

  datatype Wait = Elapsed | RetryNow | StoppedWaiting

  /** What can happen while an attempt lasts: a frame is presented, a restart is asked for, or it fails. */
  datatype Happening = Shown(at: nat) | RestartAsked(safeMode: bool) | RestartFailed

  /** What the world does in one turn of the loop. */
  datatype Turn = Turn(
    happenings: seq<Happening>,
    approval: nat,           // how long it waited for the remote user
    error: Option<Error>,    // how it ended
    stopped: bool,           // whether the user had asked to stop by then
    failedAt: nat,
    elapsed: nat,            // since the loop started
    resume: Resume,
    wait: Wait)

  /** What the loop asks of the server. */
  datatype Request = Attempt(bootstrap: Bootstrap) | Release(bootstrap: Bootstrap)

  /** When a session was ended by choice. */
  datatype Moment = BeforeFirstAttempt | AttemptReturned | AttemptFailed | WhileResuming | WhileWaiting

  datatype Exit =
    | Unauthorized           // cancelled or refused before there was a session
    | Ended(moment: Moment)
    | StoppedRetrying(disposition: Disposition)
    | ResumeRefused
    | StillRunning           // the turns given so far do not end it

  /** How a session is asked for. */
  datatype Opening = Given(bootstrap: Bootstrap) | Granted(granted: Bootstrap) | NotGranted

  /** When the attempt presented its first frame, if it did. */
  function FirstShown(happenings: seq<Happening>): Option<nat> {
    if happenings == [] then None
    else
      var n := |happenings| - 1;
      var before := FirstShown(happenings[..n]);
      if before.Some? then before else if happenings[n].Shown? then Some(happenings[n].at) else None
  }

  /** The restart that explains a disconnect after the attempt: the latest asked for, unless it failed or the display came up since. */
  function Restart(happenings: seq<Happening>, before: Option<bool>): Option<bool> {
    if happenings == [] then before
    else
      var n := |happenings| - 1;
      match happenings[n]
      case RestartAsked(safeMode) => Some(safeMode)
      case RestartFailed => None
      case Shown(_) => if FirstShown(happenings[..n]).Some? then Restart(happenings[..n], before) else None
  }

  predicate Shows(turn: Turn) { FirstShown(turn.happenings).Some? }

  /** Some attempt among the first `n` turns presented a frame. */
  predicate Presented(turns: seq<Turn>, n: nat)
    requires n <= |turns|
  {
    exists i :: 0 <= i < n && Shows(turns[i])
  }

  /** An attempt, as far as the state notices it. */
  method LiveThrough(state: ResumeState, happenings: seq<Happening>)
    requires state.Valid() && state.firstFrameAt.None?
    modifies state
    ensures state.Valid() && state.approvalWait == old(state.approvalWait)
    ensures state.firstFrameAt == FirstShown(happenings)
    ensures state.restarting == Restart(happenings, old(state.restarting))
    ensures state.everPresented == (old(state.everPresented) || FirstShown(happenings).Some?)
    ensures state.downSince == if FirstShown(happenings).Some? then None else old(state.downSince)
  {
    for i := 0 to |happenings|
      invariant state.Valid() && state.approvalWait == old(state.approvalWait)
      invariant state.firstFrameAt == FirstShown(happenings[..i])
      invariant state.restarting == Restart(happenings[..i], old(state.restarting))
      invariant state.everPresented == (old(state.everPresented) || FirstShown(happenings[..i]).Some?)
      invariant state.downSince == if FirstShown(happenings[..i]).Some? then None else old(state.downSince)
    {
      assert happenings[..i + 1][..i] == happenings[..i];
      match happenings[i]
      case Shown(at) => state.ObservePresentation(at);
      case RestartAsked(safeMode) => state.Restart(Some(safeMode));
      case RestartFailed => state.Restart(None);
    }
    assert happenings[..|happenings|] == happenings;
  }

  /** `schedule_reconnect`. */
  method ScheduleReconnect(state: ResumeState, backoff: Backoff, error: Error, failedAt: nat) returns (delay: nat)
    requires state.Valid() && backoff.Valid()
    modifies state`status, state`downSince, backoff
    ensures state.Valid() && backoff.Valid()
    // Only a stable connection starts the delays over; they stay within their limits.
    ensures var stable := state.firstFrameAt.Some? && failedAt >= state.firstFrameAt.value + STABLE_CONNECTION;
            && backoff.given == (if stable then 0 else old(backoff.given)) + 1
            && delay == DelayAfter(backoff.initial, backoff.maximum, backoff.given - 1)
    ensures backoff.initial <= delay <= backoff.maximum
    // The window counts from the first failure in a row, and a restart explains it best.
    ensures state.downSince == if old(state.downSince).Some? then old(state.downSince) else Some(failedAt)
    ensures state.status.Some?
    ensures state.status.value.reason
         == if state.restarting.Some? then Restarting(state.restarting.value) else error.reason
  {
    var streamed := state.StreamedFor(failedAt);
    delay := backoff.DelayFor(streamed);
    DelaysGrow(backoff.initial, backoff.maximum, backoff.given - 1, backoff.given - 1);
    state.RecordFailure(error, failedAt);
  }

  /** `apply_resumed`: new credentials, the old ones, or the end. */
  method ApplyResumed(state: ResumeState, bootstrap: Bootstrap, resume: Resume) returns (next: Option<Bootstrap>)
    requires state.Valid()
    modifies state`status
    ensures state.Valid()
    ensures next == match resume
                    case Refused => None
                    case Refreshed(refreshed) => Some(refreshed)
                    case _ => Some(bootstrap)
    ensures state.status
         == if resume.Unrefreshed? && resume.reason.Some? && state.restarting.None? && old(state.status).Some?
            then Some(old(state.status).value.(reason := resume.reason.value)) else old(state.status)
  {
    match resume
    case Refreshed(refreshed) => return Some(refreshed);
    case Refused => return None;
    case Unrefreshed(reason) =>
      if reason.Some? && state.restarting.None? && state.status.Some? {
        state.status := Some(state.status.value.(reason := reason.value));
      }
      return Some(bootstrap);
    case StoppedResuming => return Some(bootstrap);
  }

  /** The credentials in force after the first `n` turns. */
  function Current(bootstrap: Bootstrap, turns: seq<Turn>, n: nat): Bootstrap
    requires n <= |turns|
  {
    if n == 0 then bootstrap
    else if turns[n - 1].resume.Refreshed? then turns[n - 1].resume.bootstrap
    else Current(bootstrap, turns, n - 1)
  }

  /** The first `n` attempts, each with the credentials then in force. */
  function Tries(first: Bootstrap, turns: seq<Turn>, n: nat): seq<Request>
    requires n <= |turns|
  {
    if n == 0 then [] else Tries(first, turns, n - 1) + [Attempt(Current(first, turns, n - 1))]
  }

  /** The release an exit after `used` turns asks for: none only when resuming was refused, or nothing has ended. */
  function Releases(first: Bootstrap, turns: seq<Turn>, used: nat, exit: Exit): seq<Request>
    requires used <= |turns|
  {
    if exit == ResumeRefused || exit == StillRunning || exit == Unauthorized then []
    else if exit == Ended(BeforeFirstAttempt) then [Release(first)]
    else if exit == Ended(WhileWaiting) then [Release(Current(first, turns, used))]
    else [Release(Current(first, turns, if used == 0 then 0 else used - 1))]
  }

  function FirstOf(opening: Opening): Bootstrap {
    match opening case Given(b) => b case Granted(b) => b case NotGranted => 0
  }

  /** How one turn ended the session, if it did. `failures` counts this attempt's failure. */
  predicate TurnEnds(turn: Turn, presented: bool, failures: nat, countable: nat, exit: Exit) {
    match exit
    case Unauthorized => false
    case Ended(BeforeFirstAttempt) => false
    case Ended(AttemptReturned) => turn.error.None?
    case Ended(AttemptFailed) => turn.error.Some? && turn.stopped
    case StoppedRetrying(disposition) =>
      && turn.error.Some? && !turn.stopped && disposition != Retry
      && disposition == DispositionOf(turn.error.value, presented, failures, countable)
    case Ended(WhileResuming) => Retried(turn, presented, failures, countable) && turn.resume.StoppedResuming?
    case ResumeRefused => Retried(turn, presented, failures, countable) && turn.resume.Refused?
    case Ended(WhileWaiting) => Resumed(turn, presented, failures, countable) && turn.wait.StoppedWaiting?
    case StillRunning => Resumed(turn, presented, failures, countable) && !turn.wait.StoppedWaiting?
  }

  predicate Retried(turn: Turn, presented: bool, failures: nat, countable: nat) {
    turn.error.Some? && !turn.stopped && DispositionOf(turn.error.value, presented, failures, countable) == Retry
  }

  predicate Resumed(turn: Turn, presented: bool, failures: nat, countable: nat) {
    Retried(turn, presented, failures, countable) && !turn.resume.StoppedResuming? && !turn.resume.Refused?
  }

  /** The attempt streamed long enough to start the delays over. */
  predicate Stable(turn: Turn) { Shows(turn) && turn.failedAt >= FirstShown(turn.happenings).value + STABLE_CONNECTION }

  /** Why the window says the session is down after a turn that goes on: a restart, why resuming failed, or why the attempt did. */
  function ReasonAfter(turn: Turn, restarting: Option<bool>): Reason
    requires turn.error.Some?
  {
    if restarting.Some? then Restarting(restarting.value)
    else if turn.resume.Unrefreshed? && turn.resume.reason.Some? then turn.resume.reason.value
    else turn.error.value.reason
  }

  predicate Waits(exit: Exit) { exit == Ended(WhileWaiting) || exit == StillRunning }

  /** The body of the loop. */
  method TakeTurn(state: ResumeState, backoff: Backoff, bootstrap: Bootstrap, startupFailures: nat, turn: Turn)
    returns (exit: Exit, next: Bootstrap, failures: nat, delay: nat)
    requires state.Valid() && backoff.Valid()
    modifies state, backoff
    ensures state.Valid() && backoff.Valid()
    ensures state.everPresented == (old(state.everPresented) || Shows(turn))
    ensures state.restarting == Restart(turn.happenings, old(state.restarting))
    ensures state.approvalWait == old(state.approvalWait) + turn.approval
    ensures failures == startupFailures + if state.everPresented then 0 else 1
    ensures TurnEnds(turn, state.everPresented, failures,
                     if turn.elapsed > state.approvalWait then turn.elapsed - state.approvalWait else 0, exit)
    ensures next == if Waits(exit) && turn.resume.Refreshed? then turn.resume.bootstrap else bootstrap
    // A turn that goes on to wait: how long, and what the window says meanwhile.
    ensures Waits(exit) ==>
              && backoff.given == (if Stable(turn) then 0 else old(backoff.given)) + 1
              && delay == DelayAfter(backoff.initial, backoff.maximum, backoff.given - 1)
              && turn.error.Some? && state.status.Some?
              && state.status.value.reason == ReasonAfter(turn, state.restarting)
              && state.status.value.since
                 == if Shows(turn) || old(state.downSince).None? then turn.failedAt else old(state.downSince).value
  {
    next, delay := bootstrap, 0;
    state.BeginAttempt();
    LiveThrough(state, turn.happenings);
    state.approvalWait := state.approvalWait + turn.approval;
    failures := if state.everPresented then startupFailures else startupFailures + 1;
    if turn.error.None? {
      exit := Ended(AttemptReturned);
      return;
    }
    var error := turn.error.value;
    if turn.stopped {
      exit := Ended(AttemptFailed);
      return;
    }
    var elapsed := if turn.elapsed > state.approvalWait then turn.elapsed - state.approvalWait else 0;
    var disposition := DispositionOf(error, state.everPresented, failures, elapsed);
    if disposition != Retry {
      exit := StoppedRetrying(disposition);
      return;
    }
    delay := ScheduleReconnect(state, backoff, error, turn.failedAt);
    if turn.resume.StoppedResuming? {
      exit := Ended(WhileResuming);
      return;
    }
    var resumed := ApplyResumed(state, bootstrap, turn.resume);
    if resumed.None? {
      exit := ResumeRefused;
      return;
    }
    next := resumed.value;
    exit := if turn.wait.StoppedWaiting? then Ended(WhileWaiting) else StillRunning;
  }

  /** What the loop promises about an exit after `used` attempts. */
  ghost predicate Lawful(turns: seq<Turn>, used: nat, exit: Exit)
    requires used <= |turns|
  {
    // Without a frame there are at most three attempts, whatever the errors and timings.
    && (!Presented(turns, used) ==> used <= 3)
    && (!Presented(turns, used) && used == 3 ==> exit != StillRunning)
    // After a frame the loop never gives up for the startup cap, and before one only for it.
    && (exit == StoppedRetrying(GiveUp) ==>
          !Presented(turns, used) && used > 0 && (used == 3 || Countable(turns, used) >= 60_000))
    // Retrying stops otherwise only for an error that retrying cannot help.
    && (exit.StoppedRetrying? ==> exit.disposition != Retry && used > 0 && turns[used - 1].error.Some?)
    && (exit == StoppedRetrying(Terminal) ==> Hopeless(turns[used - 1].error.value, Presented(turns, used)))
    && (exit == ResumeRefused ==> used > 0 && turns[used - 1].resume.Refused?)
    && (exit == StillRunning ==> used == |turns|)
  }

  /** No attempt follows an error that retrying cannot help, an attempt that returned, or a stop. */
  ghost predicate WorthRetrying(turns: seq<Turn>, i: nat)
    requires i < |turns|
  {
    var turn := turns[i];
    turn.error.Some? && !turn.stopped && !Hopeless(turn.error.value, Presented(turns, i + 1)) && !turn.resume.Refused?
  }

  lemma TurnLawful(turns: seq<Turn>, n: nat, failures: nat, exit: Exit)
    requires n < |turns| && failures == Failures(turns, n + 1)
    requires !Presented(turns, n + 1) ==> failures == n + 1 <= STARTUP_ATTEMPTS
    requires TurnEnds(turns[n], Presented(turns, n + 1), failures, Countable(turns, n + 1), exit)
    ensures EndsAt(turns, n, exit) && exit != Unauthorized && exit != Ended(BeforeFirstAttempt)
    ensures exit != StillRunning ==> Lawful(turns, n + 1, exit)
    ensures exit == StillRunning && !Presented(turns, n + 1) ==> n + 1 < STARTUP_ATTEMPTS
    ensures exit == StillRunning ==> WorthRetrying(turns, n)
  {
    hide Presented, Countable, Failures, DispositionOf, Hopeless;
    if turns[n].error.Some? {
      DispositionMeans(turns[n].error.value, Presented(turns, n + 1), failures, Countable(turns, n + 1));
    }
  }

  /** The failed attempts among the first `n` turns that count against the startup cap. */
  function Failures(turns: seq<Turn>, n: nat): nat
    requires n <= |turns|
  {
    if n == 0 then 0 else Failures(turns, n - 1) + if Presented(turns, n) then 0 else 1
  }

  /** Turn `i` ended the session in this way, or did not end it. */
  ghost predicate EndsAt(turns: seq<Turn>, i: nat, exit: Exit)
    requires i < |turns|
  {
    TurnEnds(turns[i], Presented(turns, i + 1), Failures(turns, i + 1), Countable(turns, i + 1), exit)
  }

  /** How an exit after `used` turns came about: each turn before the last went on, and the last one ended as the exit says. */
  ghost predicate Deserved(opening: Opening, stopRequested: bool, turns: seq<Turn>, used: nat, exit: Exit)
    requires used <= |turns|
  {
    && (exit == Unauthorized <==> opening.NotGranted?)
    && (exit == Ended(BeforeFirstAttempt) <==> stopRequested && !opening.NotGranted?)
    && (forall i :: 0 <= i < used - 1 ==> EndsAt(turns, i, StillRunning))
    && (used > 0 ==> EndsAt(turns, used - 1, exit))
    && (used == 0 ==> exit in {Unauthorized, Ended(BeforeFirstAttempt), StillRunning})
  }

  /** Which delay of the schedule follows turn `n - 1`. */
  function Place(turns: seq<Turn>, n: nat): nat
    requires n <= |turns|
  {
    if n == 0 then 0 else (if Stable(turns[n - 1]) then 0 else Place(turns, n - 1)) + 1
  }

  /** The waits after the first `n` turns, in milliseconds. */
  function Delays(turns: seq<Turn>, n: nat): seq<nat>
    requires n <= |turns|
  {
    if n == 0 then [] else Delays(turns, n - 1) + [DelayAfter(1_000, 15_000, Place(turns, n) - 1)]
  }

  /** The one release asked for, last of all, exactly at an exit after authorization other than a refused resume. */
  ghost predicate ReleasedOnce(requests: seq<Request>, exit: Exit) {
    var n := |requests|;
    if exit == Unauthorized || exit == ResumeRefused || exit == StillRunning
    then forall i :: 0 <= i < n ==> requests[i].Attempt?
    else n > 0 && requests[n - 1].Release? && forall i :: 0 <= i < n - 1 ==> requests[i].Attempt?
  }

  lemma {:induction false} TriesAreAttempts(first: Bootstrap, turns: seq<Turn>, n: nat)
    requires n <= |turns|
    ensures |Tries(first, turns, n)| == n && forall i :: 0 <= i < n ==> Tries(first, turns, n)[i].Attempt?
  {
    if n > 0 {
      TriesAreAttempts(first, turns, n - 1);
    }
  }

  lemma ReleasesOnce(first: Bootstrap, turns: seq<Turn>, used: nat, exit: Exit)
    requires used <= |turns|
    ensures ReleasedOnce(Tries(first, turns, used) + Releases(first, turns, used, exit), exit)
  {
    hide Tries, Current;
    TriesAreAttempts(first, turns, used);
  }

  /**
   `run_resumable_session`, over any turns the world may take: the requests made,
   the waits between them and how the loop ended, or that the turns given do not
   end it. `used` counts the attempts made. The loop attempts with the
   credentials in force, and every exit after authorization asks for the lease
   to be released, unless the server refused to resume.
   */
  method RunSession(opening: Opening, stopRequested: bool, turns: seq<Turn>)
    returns (exit: Exit, requests: seq<Request>, delays: seq<nat>, ghost used: nat)
    ensures used <= |turns| && Lawful(turns, used, exit) && Deserved(opening, stopRequested, turns, used, exit)
    ensures requests == Tries(FirstOf(opening), turns, used) + Releases(FirstOf(opening), turns, used, exit)
    ensures ReleasedOnce(requests, exit) && (exit == Unauthorized ==> requests == [])
    ensures delays == Delays(turns, Waited(used, exit))
    ensures forall i :: 0 <= i < used - 1 ==> WorthRetrying(turns, i)
  {
    hide EndsAt, WorthRetrying;
    used, requests, delays := 0, [], [];
    if opening.NotGranted? {
      exit := Unauthorized;
      return;
    }
    var bootstrap := FirstOf(opening);
    if stopRequested {
      exit, requests := Ended(BeforeFirstAttempt), [Release(bootstrap)];
      return;
    }
    exit, requests, delays, used := Attempts(bootstrap, turns);
    ReleasesOnce(bootstrap, turns, used, exit);
  }

  /** How many turns were followed by a wait. */
  function Waited(used: nat, exit: Exit): nat { if used == 0 || Waits(exit) then used else used - 1 }

  /** The loop itself, once there is a session. */
  method Attempts(first: Bootstrap, turns: seq<Turn>)
    returns (exit: Exit, requests: seq<Request>, delays: seq<nat>, ghost used: nat)
    ensures used <= |turns| && Lawful(turns, used, exit)
    ensures exit != Unauthorized && exit != Ended(BeforeFirstAttempt) && (used == 0 ==> exit == StillRunning)
    ensures forall i :: 0 <= i < used - 1 ==> EndsAt(turns, i, StillRunning)
    ensures used > 0 ==> EndsAt(turns, used - 1, exit)
    ensures requests == Tries(first, turns, used) + Releases(first, turns, used, exit)
    ensures delays == Delays(turns, Waited(used, exit))
    ensures forall i :: 0 <= i < used - 1 ==> WorthRetrying(turns, i)
  {
    hide WorthRetrying, EndsAt, TurnEnds, Countable, Shows, Stable, DelayAfter, Presented, Lawful, Failures, Place, Approval, Restart;
    NothingYet(turns);
    used, requests, delays := 0, [], [];
    var bootstrap := first;
    var state := new ResumeState();
    var backoff := new Backoff(1_000, 15_000);
    var startupFailures := 0;
    for n := 0 to |turns|
      invariant used == n && bootstrap == Current(first, turns, n) && requests == Tries(first, turns, n)
      invariant fresh(state) && fresh(backoff) && state.Valid() && backoff.Valid()
      invariant state.everPresented == Presented(turns, n) && state.approvalWait == Approval(turns, n)
      invariant startupFailures == Failures(turns, n)
      invariant !Presented(turns, n) ==> startupFailures == n < STARTUP_ATTEMPTS
      invariant backoff.initial == 1_000 && backoff.maximum == 15_000 && backoff.given == Place(turns, n)
      invariant delays == Delays(turns, n)
      invariant forall i :: 0 <= i < n ==> EndsAt(turns, i, StillRunning) && WorthRetrying(turns, i)
    {
      used := n + 1;
      TurnCounts(turns, n);
      requests := requests + [Attempt(bootstrap)];
      var next, failures, delay;
      exit, next, failures, delay := TakeTurn(state, backoff, bootstrap, startupFailures, turns[n]);
      TurnLawful(turns, n, failures, exit);
      if Waits(exit) {
        delays := delays + [delay];
      }
      if exit != StillRunning {
        requests := requests + if exit == ResumeRefused then [] else [Release(next)];
        return;
      }
      bootstrap, startupFailures := next, failures;
    }
    RunningIsLawful(turns);
    assert requests + [] == requests;
    exit := StillRunning;
  }

  lemma NothingYet(turns: seq<Turn>)
    ensures !Presented(turns, 0) && Failures(turns, 0) == 0 && Place(turns, 0) == 0 && Approval(turns, 0) == 0
  {
  }

  lemma RunningIsLawful(turns: seq<Turn>)
    requires !Presented(turns, |turns|) ==> |turns| < STARTUP_ATTEMPTS
    ensures Lawful(turns, |turns|, StillRunning)
  {
  }

  /** What one more turn adds to the counts the loop keeps. */
  lemma TurnCounts(turns: seq<Turn>, n: nat)
    requires n < |turns|
    ensures Presented(turns, n + 1) <==> Presented(turns, n) || Shows(turns[n])
    ensures Failures(turns, n + 1) == Failures(turns, n) + if Presented(turns, n + 1) then 0 else 1
    ensures Place(turns, n + 1) == (if Stable(turns[n]) then 0 else Place(turns, n)) + 1
    ensures Approval(turns, n + 1) == Approval(turns, n) + turns[n].approval
    ensures Countable(turns, n + 1)
         == if turns[n].elapsed > Approval(turns, n + 1) then turns[n].elapsed - Approval(turns, n + 1) else 0
  {
    hide Shows, Stable;
    if Presented(turns, n) {
      var i :| 0 <= i < n && Shows(turns[i]);
    }
  }

  /** How long, in all, the first `n` attempts waited for the remote user. */
  function Approval(turns: seq<Turn>, n: nat): nat
    requires n <= |turns|
  {
    if n == 0 then 0 else Approval(turns, n - 1) + turns[n - 1].approval
  }

  /** The time that counts against the startup deadline after `used` turns. */
  function Countable(turns: seq<Turn>, used: nat): nat
    requires 0 < used <= |turns|
  {
    var wait := Approval(turns, used);
    if turns[used - 1].elapsed > wait then turns[used - 1].elapsed - wait else 0
  }
}
