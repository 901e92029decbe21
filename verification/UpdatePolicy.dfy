/** agent/src/update_policy.rs: when the Agent checks for updates, and how often it tries a release. Times are in seconds. */
module UpdatePolicy {
  import opened Bytes

  const HOUR: nat := 3600
  const CHECK_INTERVAL: nat := 6 * HOUR
  const DEFERRED_RETRY: nat := 5 * 60
  const MAX_DEFERRAL: nat := 24 * HOUR
  const MAX_ATTEMPTS: nat := 3
  const ATTEMPT_WINDOW: nat := 24 * HOUR

  // ---- Checking -----------------------------------------------------------

  datatype Schedule = Schedule(nextCheck: nat, deferredSince: Option<nat>)

  /** A call of `due`. */
  datatype Poll = Poll(now: nat, sessionActive: bool)

  /** Whether a poll checks for an update. */
  predicate Checks(s: Schedule, p: Poll) {
    && p.now >= s.nextCheck
    && (p.sessionActive ==> s.deferredSince.Some? && p.now >= s.deferredSince.value + MAX_DEFERRAL)
  }

  function After(s: Schedule, p: Poll): Schedule {
    if p.now < s.nextCheck then s
    else if Checks(s, p) then Schedule(p.now + CHECK_INTERVAL, None)
    else Schedule(p.now + DEFERRED_RETRY, if s.deferredSince.Some? then s.deferredSince else Some(p.now))
  }

  class UpdateSchedule {
    var nextCheck: nat
    var deferredSince: Option<nat>

    ghost function View(): Schedule
      reads this
    {
      Schedule(nextCheck, deferredSince)
    }

    constructor (now: nat)
      ensures View() == Schedule(now, None)
    {
      nextCheck, deferredSince := now, None;
    }

    /** `due`. */
    method Due(now: nat, sessionActive: bool) returns (due: bool)
      modifies this
      ensures due == Checks(old(View()), Poll(now, sessionActive))
      ensures View() == After(old(View()), Poll(now, sessionActive))
    {
      if now < nextCheck {
        return false;
      }
      if sessionActive {
        if deferredSince.None? {
          deferredSince := Some(now);
        }
        var deferred := if now > deferredSince.value then now - deferredSince.value else 0;
        if deferred < MAX_DEFERRAL {
          nextCheck := now + DEFERRED_RETRY;
          return false;
        }
      }
      deferredSince := None;
      nextCheck := now + CHECK_INTERVAL;
      return true;
    }
  }

  function Run(s: Schedule, polls: seq<Poll>): Schedule {
    if polls == [] then s else After(Run(s, polls[..|polls| - 1]), polls[|polls| - 1])
  }

  /** Poll `i` of a run checks for an update. */
  predicate ChecksAt(s: Schedule, polls: seq<Poll>, i: nat)
    requires i < |polls|
  {
    Checks(Run(s, polls[..i]), polls[i])
  }

  predicate Monotone(polls: seq<Poll>) {
    forall i, j :: 0 <= i <= j < |polls| ==> polls[i].now <= polls[j].now
  }

  lemma RunStep(s: Schedule, polls: seq<Poll>, n: nat)
    requires n < |polls|
    ensures Run(s, polls[..n + 1]) == After(Run(s, polls[..n]), polls[n])
  {
    assert polls[..n + 1][..n] == polls[..n];
  }

  /** The next check never moves closer. */
  lemma {:induction false} NextCheckGrows(s: Schedule, polls: seq<Poll>, i: nat, j: nat)
    requires i <= j <= |polls|
    ensures Run(s, polls[..i]).nextCheck <= Run(s, polls[..j]).nextCheck
    decreases j
  {
    if i < j {
      NextCheckGrows(s, polls, i, j - 1);
      RunStep(s, polls, j - 1);
    }
  }

  /** Two update checks are at least six hours apart, however often `due` is called. */
  lemma ChecksAreApart(s: Schedule, polls: seq<Poll>, i: nat, j: nat)
    requires i < j < |polls| && ChecksAt(s, polls, i) && ChecksAt(s, polls, j)
    ensures polls[j].now >= polls[i].now + 6 * 3600
  {
    RunStep(s, polls, i);
    NextCheckGrows(s, polls, i + 1, j);
  }

  /** Poll `j` put a check off for a session, and none has run since. */
  ghost predicate Deferring(s: Schedule, polls: seq<Poll>, j: nat, n: nat)
    requires n <= |polls|
  {
    && j < n && polls[j].sessionActive
    && forall k :: j <= k < n ==> !ChecksAt(s, polls, k)
  }

  lemma {:induction false} DeferredByASession(due: nat, polls: seq<Poll>, n: nat)
    requires n <= |polls|
    ensures var s := Run(Schedule(due, None), polls[..n]);
            s.deferredSince.Some? ==>
              exists j :: 0 <= j < n && Deferring(Schedule(due, None), polls, j, n) && polls[j].now == s.deferredSince.value
  {
    var start := Schedule(due, None);
    if n > 0 {
      DeferredByASession(due, polls, n - 1);
      RunStep(start, polls, n - 1);
      var s, t := Run(start, polls[..n - 1]), Run(start, polls[..n]);
      if t.deferredSince.Some? {
        if s.deferredSince.Some? {
          var j :| 0 <= j < n - 1 && Deferring(start, polls, j, n - 1) && polls[j].now == s.deferredSince.value;
          assert !ChecksAt(start, polls, n - 1);
          assert Deferring(start, polls, j, n);
        } else {
          assert Deferring(start, polls, n - 1, n);
        }
      }
    }
  }

  /**
   A check interrupts a session only after 24 hours of putting it off: some poll
   that long before was already in a session, and no check has run in between.
   */
  lemma SessionsAreSpared(due: nat, polls: seq<Poll>, i: nat)
    requires i < |polls| && ChecksAt(Schedule(due, None), polls, i) && polls[i].sessionActive
    ensures exists j :: 0 <= j < i && Deferring(Schedule(due, None), polls, j, i) && polls[j].now + 24 * 3600 <= polls[i].now
  {
    DeferredByASession(due, polls, i);
    var s := Run(Schedule(due, None), polls[..i]);
    var j :| 0 <= j < i && Deferring(Schedule(due, None), polls, j, i) && polls[j].now == s.deferredSince.value;
  }

  /** Without a session nothing is put off: a poll checks exactly when the check is due. */
  lemma IdlePollsCheck(s: Schedule, polls: seq<Poll>, i: nat)
    requires i < |polls| && !polls[i].sessionActive
    ensures ChecksAt(s, polls, i) <==> polls[i].now >= Run(s, polls[..i]).nextCheck
  {
  }

  /** Between falling due at `due` and the check: not polled since, or put off from a moment within `gap` of it. */
  ghost predicate Waiting(s: Schedule, due: nat, gap: nat) {
    match s.deferredSince
    case None => s.nextCheck == due
    case Some(since) => due <= since <= due + gap && s.nextCheck < since + MAX_DEFERRAL + DEFERRED_RETRY
  }

  lemma {:induction false} StillWaiting(s: Schedule, due: nat, gap: nat, polls: seq<Poll>, n: nat)
    requires s == Schedule(due, None) && n <= |polls| && Monotone(polls)
    requires forall i :: 0 <= i < n ==> !ChecksAt(s, polls, i)
    requires forall i :: 0 < i < |polls| ==> polls[i].now <= polls[i - 1].now + gap
    requires polls != [] ==> polls[0].now <= due + gap
    ensures Waiting(Run(s, polls[..n]), due, gap)
    ensures Run(s, polls[..n]).deferredSince.None? ==> forall i :: 0 <= i < n ==> polls[i].now < due
  {
    if n > 0 {
      StillWaiting(s, due, gap, polls, n - 1);
      RunStep(s, polls, n - 1);
      assert !ChecksAt(s, polls, n - 1);
      if n > 1 {
        assert polls[n - 1].now <= polls[n - 2].now + gap;
      }
    }
  }

  /**
   However long a session lasts, and however it flaps: polled at gaps of at most
   `gap` from before `due + gap` until 24 hours, 5 minutes and `gap` past it, the
   check runs, at most another `gap` later.
   */
  lemma CheckRunsInTime(due: nat, gap: nat, polls: seq<Poll>)
    requires Monotone(polls) && polls != [] && polls[0].now <= due + gap
    requires forall i :: 0 < i < |polls| ==> polls[i].now <= polls[i - 1].now + gap
    requires polls[|polls| - 1].now >= due + MAX_DEFERRAL + DEFERRED_RETRY + gap
    ensures exists i :: 0 <= i < |polls| && ChecksAt(Schedule(due, None), polls, i)
                        && polls[i].now <= due + 24 * 3600 + 5 * 60 + 2 * gap
  {
    var s := Schedule(due, None);
    var limit := due + MAX_DEFERRAL + DEFERRED_RETRY + gap;
    var i := FirstAtLeast(polls, limit);
    if forall k :: 0 <= k <= i ==> !ChecksAt(s, polls, k) {
      assert !ChecksAt(s, polls, i);
      StillWaiting(s, due, gap, polls, i);
      assert false;
    } else {
      var k :| 0 <= k <= i && ChecksAt(s, polls, k);
      assert polls[k].now <= polls[i].now;
      if i > 0 {
        assert polls[i].now <= polls[i - 1].now + gap;
      }
    }
  }

  lemma {:induction false} FirstAtLeast(polls: seq<Poll>, limit: nat) returns (i: nat)
    requires Monotone(polls) && polls != [] && polls[|polls| - 1].now >= limit
    ensures i < |polls| && polls[i].now >= limit && (i > 0 ==> polls[i - 1].now < limit)
  {
    i := |polls| - 1;
    while i > 0 && polls[i - 1].now >= limit
      invariant i < |polls| && polls[i].now >= limit
    {
      i := i - 1;
    }
  }

  // ---- Attempts -----------------------------------------------------------

  datatype Attempts = Attempts(version: string, attempts: nat, first: nat)

  predicate InWindow(previous: Attempts, version: string, now: nat) {
    previous.version == version && previous.first <= now < previous.first + ATTEMPT_WINDOW
  }

  /** `UpdateAttempts::next`. */
  function Next(previous: Option<Attempts>, version: string, now: nat): Option<Attempts> {
    if previous.Some? && InWindow(previous.value, version, now) then
      if previous.value.attempts < MAX_ATTEMPTS
      then Some(Attempts(version, previous.value.attempts + 1, previous.value.first))
      else None
    else Some(Attempts(version, 1, now))
  }

  /** An attempt granted: when, and the record stored for it. */
  datatype Grant = Grant(now: nat, record: Attempts)

  function Last(grants: seq<Grant>): Option<Attempts> {
    if grants == [] then None else Some(grants[|grants| - 1].record)
  }

  /** The grants for one release, asked for at `times`, each stored before it is tried. */
  function Grants(version: string, times: seq<nat>): seq<Grant> {
    if times == [] then []
    else
      var before := Grants(version, times[..|times| - 1]);
      var now := times[|times| - 1];
      match Next(Last(before), version, now)
      case None => before
      case Some(record) => before + [Grant(now, record)]
  }

  /** One grant and the next: the next attempt of a window, or the first of a later one. */
  predicate Follows(a: Grant, b: Grant) {
    && a.now <= b.now
    && (if b.record.attempts == 1 then b.record.first == b.now && b.now >= a.record.first + ATTEMPT_WINDOW
        else b.record.attempts == a.record.attempts + 1 && b.record.first == a.record.first)
  }

  ghost predicate Chained(version: string, grants: seq<Grant>) {
    && (forall i :: 0 <= i < |grants| ==>
          && grants[i].record.version == version && 1 <= grants[i].record.attempts <= MAX_ATTEMPTS
          && grants[i].record.first <= grants[i].now < grants[i].record.first + ATTEMPT_WINDOW
          && (grants[i].record.attempts == 1 ==> grants[i].record.first == grants[i].now))
    && (forall i, j :: 0 <= i && j == i + 1 && j < |grants| ==> Follows(grants[i], grants[j]))
    && (grants != [] ==> grants[0].record.attempts == 1)
  }

  predicate Sorted(times: seq<nat>) { forall i, j :: 0 <= i <= j < |times| ==> times[i] <= times[j] }

  lemma {:induction false} GrantedWhenAsked(version: string, times: seq<nat>)
    ensures forall i :: 0 <= i < |Grants(version, times)| ==> Grants(version, times)[i].now in times
  {
    if times != [] {
      GrantedWhenAsked(version, times[..|times| - 1]);
      assert forall t :: t in times[..|times| - 1] ==> t in times;
    }
  }

  /** A further grant keeps the chain. */
  lemma GrantChained(version: string, before: seq<Grant>, now: nat, record: Attempts)
    requires Chained(version, before) && (before != [] ==> before[|before| - 1].now <= now)
    requires Next(Last(before), version, now) == Some(record)
    ensures Chained(version, before + [Grant(now, record)])
  {
    var grants := before + [Grant(now, record)];
    if before != [] {
      assert Follows(before[|before| - 1], Grant(now, record));
    }
    forall i, j | 0 <= i && j == i + 1 && j < |grants| ensures Follows(grants[i], grants[j]) {
      assert j < |before| ==> Follows(before[i], before[j]);
    }
  }

  lemma {:induction false} GrantsChained(version: string, times: seq<nat>)
    requires Sorted(times)
    ensures Chained(version, Grants(version, times))
  {
    hide Chained, Next;
    if times == [] {
      NothingChained(version);
    } else {
      var n := |times| - 1;
      GrantsChained(version, times[..n]);
      GrantedWhenAsked(version, times[..n]);
      var before := Grants(version, times[..n]);
      var next := Next(Last(before), version, times[n]);
      if next.Some? {
        assert before != [] ==> before[|before| - 1].now in times[..n];
        GrantChained(version, before, times[n], next.value);
      }
    }
  }

  lemma NothingChained(version: string)
    ensures Chained(version, [])
  {
  }

  /** At most three attempts in a window: each stored count is the grant's place in its window. */
  lemma {:induction false} AtMostThreePerWindow(version: string, grants: seq<Grant>, i: nat, j: nat)
    requires Chained(version, grants) && i <= j < |grants| && grants[i].record.first == grants[j].record.first
    ensures grants[j].record.attempts - grants[i].record.attempts == j - i < MAX_ATTEMPTS
    decreases j - i
  {
    if i < j {
      assert Follows(grants[j - 1], grants[j]);
      WindowsAdvance(version, grants, i, j - 1);
      AtMostThreePerWindow(version, grants, i, j - 1);
    }
  }

  lemma {:induction false} WindowsAdvance(version: string, grants: seq<Grant>, i: nat, j: nat)
    requires Chained(version, grants) && i <= j < |grants|
    ensures grants[i].record.first <= grants[j].record.first && grants[i].now <= grants[j].now
    decreases j
  {
    if i < j {
      WindowsAdvance(version, grants, i, j - 1);
      assert Follows(grants[j - 1], grants[j]);
    }
  }

  /** Six grants in a row take at least 24 hours, so any half-open span of 24 hours holds at most five. */
  lemma SixTakeADay(version: string, grants: seq<Grant>, i: nat)
    requires Chained(version, grants) && i + 5 < |grants|
    ensures grants[i + 5].now >= grants[i].now + ATTEMPT_WINDOW
  {
    var j := NextWindow(version, grants, i);
    if grants[i].record.attempts == 1 {
      WindowsAdvance(version, grants, j, i + 5);
    } else {
      var k := NextWindow(version, grants, j);
      WindowsAdvance(version, grants, i, j);
      WindowsAdvance(version, grants, k, i + 5);
    }
  }

  /** The first grant of the window after grant `i`'s: soon, and a day after that window began. */
  lemma NextWindow(version: string, grants: seq<Grant>, i: nat) returns (j: nat)
    requires Chained(version, grants) && i < |grants|
    requires i + MAX_ATTEMPTS + 1 - grants[i].record.attempts < |grants|
    ensures i < j <= i + MAX_ATTEMPTS + 1 - grants[i].record.attempts
    ensures grants[j].record.attempts == 1 && grants[j].now >= grants[i].record.first + ATTEMPT_WINDOW
    ensures grants[j].record.first == grants[j].now
  {
    j := i + 1;
    assert Follows(grants[i], grants[j]);
    while grants[j].record.attempts != 1
      invariant i < j < |grants| && j <= i + MAX_ATTEMPTS + 1 - grants[i].record.attempts
      invariant grants[j].record.attempts != 1 ==>
                  grants[j].record.attempts == grants[i].record.attempts + (j - i)
                  && grants[j].record.first == grants[i].record.first
      invariant grants[j].record.attempts == 1 ==> grants[j].now >= grants[i].record.first + ATTEMPT_WINDOW
      decreases |grants| - j
    {
      assert Follows(grants[j], grants[j + 1]);
      j := j + 1;
    }
  }

  /** How many of the first `n` grants fall in the 24 hours from `from`. */
  function CountIn(grants: seq<Grant>, from: nat, n: nat): nat
    requires n <= |grants|
  {
    if n == 0 then 0
    else CountIn(grants, from, n - 1) + if from <= grants[n - 1].now < from + 24 * 3600 then 1 else 0
  }

  lemma {:induction false} CountStep(grants: seq<Grant>, from: nat, m: nat, n: nat)
    requires m <= n <= |grants|
    ensures CountIn(grants, from, n) <= CountIn(grants, from, m) + (n - m)
    decreases n
  {
    if m < n {
      CountStep(grants, from, m, n - 1);
    }
  }

  lemma {:induction false} NoneBefore(version: string, grants: seq<Grant>, from: nat, n: nat)
    requires Chained(version, grants) && 0 < n <= |grants| && grants[n - 1].now < from
    ensures CountIn(grants, from, n) == 0
  {
    if n > 1 {
      assert Follows(grants[n - 2], grants[n - 1]);
      NoneBefore(version, grants, from, n - 1);
    }
  }

  lemma {:induction false} AtMostFive(version: string, grants: seq<Grant>, from: nat, n: nat)
    requires Chained(version, grants) && n <= |grants|
    ensures CountIn(grants, from, n) <= 5
  {
    if n <= 5 {
      CountStep(grants, from, 0, n);
    } else if from <= grants[n - 1].now < from + ATTEMPT_WINDOW {
      SixTakeADay(version, grants, n - 6);
      NoneBefore(version, grants, from, n - 5);
      CountStep(grants, from, n - 5, n);
    } else {
      AtMostFive(version, grants, from, n - 1);
    }
  }

  /** For every run of requests for one release, under a clock that does not go back: at most five grants in any 24 hours. */
  lemma AttemptsLimited(version: string, times: seq<nat>, from: nat)
    requires Sorted(times)
    ensures CountIn(Grants(version, times), from, |Grants(version, times)|) <= 5
  {
    GrantsChained(version, times);
    AtMostFive(version, Grants(version, times), from, |Grants(version, times)|);
  }

  /** And at most three in any one window, the third with a stored count of three. */
  lemma WindowsLimited(version: string, times: seq<nat>, i: nat, j: nat)
    requires Sorted(times) && i <= j < |Grants(version, times)|
    requires Grants(version, times)[i].record.first == Grants(version, times)[j].record.first
    ensures j - i < 3
  {
    GrantsChained(version, times);
    AtMostThreePerWindow(version, Grants(version, times), i, j);
  }

  /** A later attempt of a window comes right after the one before it. */
  lemma EarlierInWindow(version: string, grants: seq<Grant>, i: nat)
    requires Chained(version, grants) && i < |grants| && grants[i].record.attempts > 1
    ensures i > 0 && grants[i - 1].record.attempts == grants[i].record.attempts - 1
    ensures grants[i - 1].record.first == grants[i].record.first
  {
    assert i > 0 ==> Follows(grants[i - 1], grants[i]);
  }

  /** The last three grants were one window's, and a day has not passed since the first of them. */
  predicate UsedUp(grants: seq<Grant>, now: nat) {
    var n := |grants|;
    && n >= 3 && grants[n - 3].record.first == grants[n - 1].record.first
    && now < grants[n - 3].now + 24 * 3600
  }

  /**
   However requests for a release come, under a clock that does not go back: one
   more is refused exactly when three grants of one window came within the last
   24 hours, and is otherwise granted.
   */
  lemma RefusedExactlyWhenUsedUp(version: string, times: seq<nat>, now: nat)
    requires Sorted(times + [now])
    ensures var grants, after := Grants(version, times), Grants(version, times + [now]);
            && (after == grants <==> UsedUp(grants, now))
            && (after != grants ==> |after| == |grants| + 1 && after[..|grants|] == grants && after[|grants|].now == now)
  {
    hide Grants;
    var grants, n := Grants(version, times), |Grants(version, times)|;
    StillSorted(times, now);
    GrantsChained(version, times);
    OneMore(version, times, now);
    if n > 0 {
      LastGrantBefore(version, times, now);
      if grants[n - 1].record.attempts == MAX_ATTEMPTS {
        EarlierInWindow(version, grants, n - 1);
        EarlierInWindow(version, grants, n - 2);
      }
      if n >= 3 && grants[n - 3].record.first == grants[n - 1].record.first {
        AtMostThreePerWindow(version, grants, n - 3, n - 1);
      }
    }
  }

  lemma OneMore(version: string, times: seq<nat>, now: nat)
    ensures Grants(version, times + [now]) == Extended(Grants(version, times), version, now)
  {
    assert (times + [now])[..|times|] == times;
  }

  function Extended(grants: seq<Grant>, version: string, now: nat): seq<Grant> {
    match Next(Last(grants), version, now)
    case None => grants
    case Some(record) => grants + [Grant(now, record)]
  }

  lemma StillSorted(times: seq<nat>, now: nat)
    requires Sorted(times + [now])
    ensures Sorted(times)
  {
    assert forall i :: 0 <= i < |times| ==> times[i] == (times + [now])[i];
  }

  lemma LastGrantBefore(version: string, times: seq<nat>, now: nat)
    requires Sorted(times + [now]) && Grants(version, times) != []
    ensures var grants := Grants(version, times); grants[|grants| - 1].now <= now
  {
    GrantedWhenAsked(version, times);
    var grants := Grants(version, times);
    var i :| 0 <= i < |times| && times[i] == grants[|grants| - 1].now;
    assert (times + [now])[i] <= (times + [now])[|times|];
  }

  /** An exhausted release is granted again, from one, as soon as its window has passed. */
  lemma GrantedAgain(version: string, times: seq<nat>, now: nat)
    requires Sorted(times + [now]) && Grants(version, times) != []
    ensures var grants, after := Grants(version, times), Grants(version, times + [now]);
            var n := |grants|;
            now >= grants[n - 1].record.first + 24 * 3600
            <==> after != grants && after[n].record == Attempts(version, 1, now)
  {
    hide Grants;
    StillSorted(times, now);
    GrantsChained(version, times);
    OneMore(version, times, now);
    LastGrantBefore(version, times, now);
  }

  /** The grant for one more request of release "v", given the grants before it. */
  lemma Granted(times: seq<nat>, before: seq<Grant>, now: nat, attempts: nat, first: nat)
    requires Grants("v", times) == before && Next(Last(before), "v", now) == Some(Attempts("v", attempts, first))
    ensures Grants("v", times + [now]) == before + [Grant(now, Attempts("v", attempts, first))]
  {
    OneMore("v", times, now);
  }

  /** Five in one span do happen: the last two of one window and three of the next. */
  lemma FiveFit()
    ensures var times := [0] + [86398] + [86399] + [86400] + [86401] + [86402];
            var grants := Grants("v", times);
            |grants| == 6 && CountIn(grants, 86398, 6) == 5
  {
    var t1 := [0];
    var t2 := t1 + [86398];
    var t3 := t2 + [86399];
    var t4 := t3 + [86400];
    var t5 := t4 + [86401];
    assert [] + [0] == t1;
    hide Grants, CountIn;
    NoGrants();
    Granted([], [], 0, 1, 0);
    Granted(t1, Grants("v", t1), 86398, 2, 0);
    Granted(t2, Grants("v", t2), 86399, 3, 0);
    Granted(t3, Grants("v", t3), 86400, 1, 86400);
    Granted(t4, Grants("v", t4), 86401, 2, 86400);
    Granted(t5, Grants("v", t5), 86402, 3, 86400);
    CountLastFive(Grants("v", t5 + [86402]), 86398);
  }

  lemma NoGrants()
    ensures Grants("v", []) == []
  {
  }

  lemma CountLastFive(grants: seq<Grant>, from: nat)
    requires |grants| == 6 && grants[0].now < from
    requires forall i :: 1 <= i < 6 ==> from <= grants[i].now < from + ATTEMPT_WINDOW
    ensures CountIn(grants, from, 6) == 5
  {
    assert CountIn(grants, from, 1) == 0;
    assert CountIn(grants, from, 2) == 1;
    assert CountIn(grants, from, 3) == 2;
    assert CountIn(grants, from, 4) == 3;
    assert CountIn(grants, from, 5) == 4;
  }
}
