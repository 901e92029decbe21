/** agent/src/logging.rs: a bounded log queue that loses records only by counting them. */
module AsyncLog {
  import opened Bytes

  const CAPACITY: nat := 1024
  const MAX_RECORD: nat := 64 * 1024
  /** Milliseconds. */
  const FIRST_RETRY: nat := 100
  const MAX_RETRY: nat := 30_000

  /** Records are numbered in the order producers make them. */
  datatype Message = Record(id: nat) | Flush(id: nat)

  /** What the log file holds: records, and notices of how many were dropped or lost. */
  datatype Entry = Line(id: nat) | Dropped(count: nat) | Lost(count: nat)

  // ---- The writer thread --------------------------------------------------

  /** `Writer`, without the shared counter. `failures` counts failed attempts since the last success, `failedAt` is the latest. */
  datatype Writer = Writer(open: bool, retryAt: nat, retryDelay: nat, lost: nat, failures: nat, failedAt: nat)

  /** A record being written, with the counts taken for its notice. */
  datatype Batch = Batch(record: nat, congested: nat, lost: nat)

  function BackedOff(w: Writer, now: nat): Writer {
    w.(retryAt := now + w.retryDelay,
       retryDelay := if w.retryDelay * 2 < MAX_RETRY then w.retryDelay * 2 else MAX_RETRY,
       failures := w.failures + 1, failedAt := now)
  }

  predicate Due(w: Writer, now: nat) { !w.open && now >= w.retryAt }

  /** `reopen_if_due`; `opens` is whether opening the file works. */
  function Reopened(w: Writer, now: nat, opens: bool): Writer {
    if !Due(w, now) then w else if opens then w.(open := true) else BackedOff(w, now)
  }

  /** The lines of a notice, and the record. */
  function Entries(b: Batch): seq<Entry> {
    (if b.congested > 0 then [Dropped(b.congested)] else []) + ((if b.lost > 0 then [Lost(b.lost)] else []) + [Line(b.record)])
  }

  // ---- The whole log ------------------------------------------------------

  /**
   `congested` is the shared counter and `counting` the producers that could not
   queue a record and have yet to count it. `accepted`, `handled`, `gone` and
   `partial` are history: every message ever queued, how many the writer took,
   the records it counted as lost, and whether a failed write left part of itself.
   */
  datatype State = State(
    queue: seq<Message>, congested: nat, counting: nat, writer: Writer, writing: Option<Batch>,
    file: seq<Entry>, acknowledged: set<nat>,
    produced: nat, accepted: seq<Message>, handled: nat, gone: set<nat>, partial: bool)

  function Initial(now: nat): State {
    State([], 0, 0, Writer(true, now, FIRST_RETRY, 0, 0, now), None, [], {}, 0, [], 0, {}, false)
  }

  datatype Event =
    | Produce(oversized: bool)           // a `Record` is dropped: queued, or about to be counted
    | CountDrop                          // `fetch_add` on the shared counter
    | AskFlush(id: nat)                  // `flush` queues its request
    | Begin(now: nat, opens: bool)       // `recv`, and `write` up to the file
    | Succeed                            // every byte written and flushed
    | FailWrite(now: nat, kept: nat)     // an error, with `kept` whole entries already in the file
    | Acknowledge                        // `recv` of a flush request

  function Step(s: State, e: Event): State {
    match e
    case Produce(oversized) =>
      var s' := s.(produced := s.produced + 1);
      if oversized || |s.queue| >= CAPACITY then s'.(counting := s.counting + 1)
      else s'.(queue := s.queue + [Record(s.produced)], accepted := s.accepted + [Record(s.produced)])
    case CountDrop =>
      if s.counting == 0 then s else s.(counting := s.counting - 1, congested := s.congested + 1)
    case AskFlush(id) =>
      if |s.queue| >= CAPACITY then s
      else s.(queue := s.queue + [Flush(id)], accepted := s.accepted + [Flush(id)])
    case Begin(now, opens) =>
      if s.writing.Some? || s.queue == [] || !s.queue[0].Record? then s
      else Begun(s.(queue := s.queue[1..], handled := s.handled + 1), s.queue[0].id, Reopened(s.writer, now, opens))
    case Succeed =>
      if s.writing.None? then s
      else s.(writing := None, file := s.file + Entries(s.writing.value),
              writer := s.writer.(retryDelay := FIRST_RETRY, failures := 0))
    case FailWrite(now, kept) =>
      if s.writing.None? then s else Failed(s, s.writing.value, now, kept)
    case Acknowledge =>
      if s.writing.Some? || s.queue == [] || !s.queue[0].Flush? then s
      else s.(queue := s.queue[1..], handled := s.handled + 1, acknowledged := s.acknowledged + {s.queue[0].id})
  }

  function Begun(s: State, record: nat, w: Writer): State {
    if !w.open then s.(writer := w.(lost := w.lost + 1), gone := s.gone + {record})
    else s.(writer := w.(lost := 0), congested := 0, writing := Some(Batch(record, s.congested, w.lost)))
  }

  function Failed(s: State, b: Batch, now: nat, kept: nat): State {
    var k := if kept < |Entries(b)| then kept else |Entries(b)|;
    s.(writing := None, congested := s.congested + b.congested, gone := s.gone + {b.record},
       file := s.file + Entries(b)[..k], partial := s.partial || k > 0,
       writer := BackedOff(s.writer.(lost := b.lost + 1, open := false), now))
  }

  function Run(start: nat, events: seq<Event>): State {
    if events == [] then Initial(start) else Step(Run(start, events[..|events| - 1]), events[|events| - 1])
  }

  // ---- Counting -----------------------------------------------------------

  /** The records and the reported losses in a file. */
  function Accounted(file: seq<Entry>): nat {
    if file == [] then 0
    else
      Accounted(file[..|file| - 1])
      + match file[|file| - 1] case Line(_) => 1 case Dropped(n) => n case Lost(n) => n
  }

  function Records(messages: seq<Message>): nat {
    if messages == [] then 0 else Records(messages[..|messages| - 1]) + if messages[|messages| - 1].Record? then 1 else 0
  }

  /** Where every record is: written or reported, counted, about to be counted, being written, or queued. */
  function Located(s: State): nat {
    Accounted(s.file) + s.congested + s.counting + s.writer.lost + Records(s.queue)
    + match s.writing case None => 0 case Some(b) => b.congested + b.lost + 1
  }

  lemma {:induction false} AccountedConcat(a: seq<Entry>, b: seq<Entry>)
    ensures Accounted(a + b) == Accounted(a) + Accounted(b)
  {
    if b == [] {
      assert a + b == a;
    } else {
      assert (a + b)[..|a + b| - 1] == a + b[..|b| - 1];
      AccountedConcat(a, b[..|b| - 1]);
    }
  }

  lemma {:induction false} RecordsConcat(a: seq<Message>, b: seq<Message>)
    ensures Records(a + b) == Records(a) + Records(b)
  {
    if b == [] {
      assert a + b == a;
    } else {
      assert (a + b)[..|a + b| - 1] == a + b[..|b| - 1];
      RecordsConcat(a, b[..|b| - 1]);
    }
  }

  lemma EntryCount(e: Entry)
    ensures Accounted([e]) == match e case Line(_) => 1 case Dropped(n) => n case Lost(n) => n
  {
    assert [e][..0] == [];
    assert Accounted([]) == 0;
  }

  /** A notice and its record account for everything in the batch. */
  lemma BatchCount(b: Batch)
    ensures Accounted(Entries(b)) == b.congested + b.lost + 1
  {
    var c, l, r: seq<Entry> := if b.congested > 0 then [Dropped(b.congested)] else [],
                               if b.lost > 0 then [Lost(b.lost)] else [], [Line(b.record)];
    EntryCount(Dropped(b.congested));
    EntryCount(Lost(b.lost));
    EntryCount(Line(b.record));
    AccountedConcat(c, l + r);
    AccountedConcat(l, r);
  }

  lemma MessageCount(messages: seq<Message>)
    requires messages != []
    ensures Records(messages) == Records(messages[1..]) + if messages[0].Record? then 1 else 0
  {
    assert messages == [messages[0]] + messages[1..];
    RecordsConcat([messages[0]], messages[1..]);
    assert [messages[0]][..0] == [];
    assert Records([messages[0]]) == Records([]) + if messages[0].Record? then 1 else 0;
  }

  /** No record vanishes uncounted; none is counted twice unless a failed write left part of itself. */
  ghost predicate Balanced(s: State) {
    && s.produced <= Located(s) && (!s.partial ==> s.produced == Located(s))
    && (s.writing.Some? ==> s.writer.open && s.writer.lost == 0)
  }

  lemma StepBalanced(s: State, e: Event)
    requires Balanced(s)
    ensures Balanced(Step(s, e))
  {
    hide Accounted, Records, Entries;
    match e
    case Produce(oversized) => Appended(s.queue, Record(s.produced));
    case CountDrop =>
    case AskFlush(id) => Appended(s.queue, Flush(id));
    case Begin(now, opens) =>
      if s.queue != [] {
        MessageCount(s.queue);
      }
    case Succeed =>
      if s.writing.Some? {
        BatchCount(s.writing.value);
        AccountedConcat(s.file, Entries(s.writing.value));
      }
    case FailWrite(now, kept) =>
      if s.writing.Some? {
        var entries := Entries(s.writing.value);
        var k := if kept < |entries| then kept else |entries|;
        AccountedConcat(s.file, entries[..k]);
        NothingAccounted();
        assert k == 0 ==> entries[..k] == [];
      }
    case Acknowledge =>
      if s.queue != [] {
        MessageCount(s.queue);
      }
  }

  lemma NothingAccounted()
    ensures Accounted([]) == 0
  {
  }

  lemma Appended(queue: seq<Message>, m: Message)
    ensures Records(queue + [m]) == Records(queue) + if m.Record? then 1 else 0
  {
    assert (queue + [m])[..|queue|] == queue;
  }

  /** In every interleaving of producers, queue and writer, with any failures and reopenings. */
  lemma {:induction false} RunsBalance(start: nat, events: seq<Event>)
    ensures Balanced(Run(start, events))
  {
    if events != [] {
      RunsBalance(start, events[..|events| - 1]);
      StepBalanced(Run(start, events[..|events| - 1]), events[|events| - 1]);
    }
  }

  // ---- Order and flushing -------------------------------------------------

  /** The record was written, or counted as lost. */
  ghost predicate Settled(s: State, id: nat) { Line(id) in s.file || id in s.gone }

  /** The messages the writer has taken and finished with. */
  function Finished(s: State): int { s.handled - if s.writing.Some? then 1 else 0 }

  /** The queue holds, in order, the accepted messages the writer has not taken. */
  ghost predicate Queued(s: State) {
    && 0 <= Finished(s) <= s.handled <= |s.accepted|
    && s.queue == s.accepted[s.handled..] && |s.queue| <= CAPACITY
    && (s.writing.Some? ==> s.accepted[s.handled - 1] == Record(s.writing.value.record))
  }

  ghost predicate Orderly(s: State) {
    && Queued(s)
    && (forall i :: 0 <= i < Finished(s) && s.accepted[i].Record? ==> Settled(s, s.accepted[i].id))
    && (forall f :: f in s.acknowledged ==> Answered(s, f))
  }

  ghost predicate Answered(s: State, f: nat)
    requires Queued(s)
  {
    exists i :: 0 <= i < Finished(s) && s.accepted[i] == Flush(f)
  }

  lemma StepQueued(s: State, e: Event)
    requires Queued(s)
    ensures Queued(Step(s, e)) && s.accepted <= Step(s, e).accepted && Finished(s) <= Finished(Step(s, e))
  {
    hide Entries, Reopened;
    match e
    case Produce(_) => Accepted(s, Record(s.produced));
    case AskFlush(id) => Accepted(s, Flush(id));
    case Begin(_, _) => Taken(s);
    case Acknowledge => Taken(s);
    case _ =>
  }

  lemma Accepted(s: State, m: Message)
    requires s.handled <= |s.accepted| && s.queue == s.accepted[s.handled..]
    ensures (s.accepted + [m])[s.handled..] == s.queue + [m]
    ensures s.handled > 0 ==> (s.accepted + [m])[s.handled - 1] == s.accepted[s.handled - 1]
    ensures s.accepted <= s.accepted + [m]
  {
  }

  lemma Taken(s: State)
    requires s.handled <= |s.accepted| && s.queue == s.accepted[s.handled..]
    ensures s.queue != [] ==>
              && s.handled < |s.accepted| && s.accepted[s.handled] == s.queue[0]
              && s.queue[1..] == s.accepted[s.handled + 1..]
  {
  }

  /** Nothing written or counted as lost is forgotten. */
  lemma StepKeeps(s: State, e: Event)
    ensures s.file <= Step(s, e).file && s.gone <= Step(s, e).gone
  {
    hide Entries, Reopened, BackedOff;
  }

  /** What a step finishes with, it settles. */
  lemma StepSettles(s: State, e: Event)
    requires Queued(s)
    ensures Queued(Step(s, e)) && Finished(s) <= Finished(Step(s, e)) <= Finished(s) + 1
    ensures var t := Step(s, e);
            Finished(s) < Finished(t) && t.accepted[Finished(s)].Record? ==> Settled(t, t.accepted[Finished(s)].id)
  {
    hide Entries, Reopened, BackedOff;
    StepQueued(s, e);
    Taken(s);
    if s.writing.Some? {
      EntriesHold(s.writing.value);
    }
  }

  lemma StepOrderly(s: State, e: Event)
    requires Orderly(s)
    ensures Orderly(Step(s, e))
  {
    StepQueued(s, e);
    StepKeeps(s, e);
    StepSettles(s, e);
    hide Step;
    var t := Step(s, e);
    forall i | 0 <= i < Finished(t) && t.accepted[i].Record? ensures Settled(t, t.accepted[i].id) {
      if i < Finished(s) {
        assert t.accepted[i] == s.accepted[i];
        assert Settled(s, s.accepted[i].id);
      }
    }
    AcknowledgedInTurn(s, e);
    forall f | f in t.acknowledged ensures Answered(t, f) {
      if f in s.acknowledged {
        var i :| 0 <= i < Finished(s) && s.accepted[i] == Flush(f);
        assert t.accepted[i] == Flush(f);
      } else {
        assert t.accepted[s.handled] == Flush(f);
      }
    }
  }

  /** Only the flush request at the head of the queue is answered. */
  lemma AcknowledgedInTurn(s: State, e: Event)
    requires Queued(s)
    ensures var t := Step(s, e);
            forall f :: f in t.acknowledged && f !in s.acknowledged ==>
              Finished(t) == s.handled + 1 && s.handled < |t.accepted| && t.accepted[s.handled] == Flush(f)
  {
    hide Entries, Reopened, BackedOff;
    Taken(s);
  }

  lemma EntriesHold(b: Batch)
    ensures Line(b.record) in Entries(b)
  {
  }

  lemma {:induction false} RunsOrderly(start: nat, events: seq<Event>)
    ensures Orderly(Run(start, events))
  {
    if events != [] {
      RunsOrderly(start, events[..|events| - 1]);
      StepOrderly(Run(start, events[..|events| - 1]), events[|events| - 1]);
    }
  }

  /** The losses reported in a file. */
  function Reported(file: seq<Entry>): nat {
    if file == [] then 0
    else Reported(file[..|file| - 1]) + match file[|file| - 1] case Lost(n) => n case _ => 0
  }

  /** The losses counted so far: reported, being reported, or yet to be. */
  function LossCount(s: State): nat {
    Reported(s.file) + s.writer.lost + match s.writing case None => 0 case Some(b) => b.lost
  }

  lemma {:induction false} ReportedConcat(a: seq<Entry>, b: seq<Entry>)
    ensures Reported(a + b) == Reported(a) + Reported(b)
  {
    if b == [] {
      assert a + b == a;
    } else {
      assert (a + b)[..|a + b| - 1] == a + b[..|b| - 1];
      ReportedConcat(a, b[..|b| - 1]);
    }
  }

  lemma EntryReports(e: Entry)
    ensures Reported([e]) == match e case Lost(n) => n case _ => 0
  {
    assert [e][..0] == [];
    assert Reported([]) == 0;
  }

  lemma BatchReports(b: Batch)
    ensures Reported(Entries(b)) == b.lost
  {
    var c, l, r: seq<Entry> := if b.congested > 0 then [Dropped(b.congested)] else [],
                               if b.lost > 0 then [Lost(b.lost)] else [], [Line(b.record)];
    EntryReports(Dropped(b.congested));
    EntryReports(Lost(b.lost));
    EntryReports(Line(b.record));
    ReportedConcat(c, l + r);
    ReportedConcat(l, r);
  }

  /** Every record given up on is in a count. */
  ghost predicate LossesCounted(s: State) { |s.gone| <= LossCount(s) }

  lemma StepCounts(s: State, e: Event)
    requires LossesCounted(s) && (s.writing.Some? ==> s.writer.lost == 0)
    ensures LossesCounted(Step(s, e))
  {
    hide Reported, Entries;
    if s.writing.Some? {
      var b := s.writing.value;
      BatchReports(b);
      ReportedConcat(s.file, Entries(b));
      if e.FailWrite? {
        ReportedConcat(s.file, Entries(b)[..if e.kept < |Entries(b)| then e.kept else |Entries(b)|]);
      }
    }
  }

  lemma {:induction false} RunsCountLosses(start: nat, events: seq<Event>)
    ensures LossesCounted(Run(start, events))
  {
    hide Step;
    if events != [] {
      var before := events[..|events| - 1];
      RunsCountLosses(start, before);
      RunsBalance(start, before);
      StepCounts(Run(start, before), events[|events| - 1]);
    }
  }

  /**
   A flush that was answered: every record queued before its request was
   written or counted as lost. `at` is where the request stood in the queue.
   */
  lemma FlushCovers(start: nat, events: seq<Event>, f: nat, at: nat)
    requires var s := Run(start, events);
             && f in s.acknowledged && at < |s.accepted| && s.accepted[at] == Flush(f)
             && forall i :: 0 <= i < |s.accepted| && s.accepted[i] == Flush(f) ==> i == at
    ensures var s := Run(start, events);
            && (forall i :: 0 <= i < at && s.accepted[i].Record? ==> Settled(s, s.accepted[i].id))
            && |s.gone| <= LossCount(s)
  {
    RunsOrderly(start, events);
    RunsCountLosses(start, events);
  }

  // ---- Nothing is lost without need ---------------------------------------

  /** In every run, a record of a fitting size made while fewer than 1024 messages wait is queued, behind all the others. */
  lemma FittingIsQueued(start: nat, events: seq<Event>)
    ensures var s := Run(start, events);
            var t := Step(s, Produce(false));
            |s.accepted| - s.handled < 1024 ==>
              && t.accepted == s.accepted + [Record(s.produced)] && t.queue == s.queue + [Record(s.produced)]
              && t.congested == s.congested && t.counting == s.counting
  {
    RunsOrderly(start, events);
  }

  /** A flush request that has come to the head of the queue is answered by the writer's next step. */
  lemma HeadIsAnswered(s: State)
    requires s.writing.None? && s.queue != [] && s.queue[0].Flush?
    ensures s.queue[0].id in Step(s, Acknowledge).acknowledged && Step(s, Acknowledge).queue == s.queue[1..]
  {
  }

  /** A log that is open, or is due and can be opened, is written: the next record is then in the file. */
  lemma WritableIsWritten(s: State, now: nat, opens: bool)
    requires s.writing.None? && s.queue != [] && s.queue[0].Record?
    requires s.writer.open || (now >= s.writer.retryAt && opens)
    ensures var t := Step(Step(s, Begin(now, opens)), Succeed);
            && t.writing.None? && t.writer.open && t.writer.lost == 0
            && Line(s.queue[0].id) in t.file && s.file <= t.file && t.gone == s.gone
  {
    hide Entries;
    EntriesHold(Batch(s.queue[0].id, s.congested, s.writer.lost));
  }

  // ---- Backing off --------------------------------------------------------

  /** The delay after `failures` failures in a row: doubled each time, up to the limit. */
  function Delay(failures: nat): (d: nat)
    ensures FIRST_RETRY <= d <= MAX_RETRY
  {
    if failures == 0 then FIRST_RETRY
    else if 2 * Delay(failures - 1) < MAX_RETRY then 2 * Delay(failures - 1) else MAX_RETRY
  }

  /** A tenth of a second, doubled with each further failure, and half a minute at most. */
  lemma {:induction false} DelayDoubles(failures: nat)
    ensures Delay(failures) == if 100 * Power2(failures) < 30_000 then 100 * Power2(failures) else 30_000
  {
    if failures > 0 {
      DelayDoubles(failures - 1);
    }
  }

  /** The next opening of a closed log is due a full delay after the latest failure. */
  ghost predicate Patient(w: Writer) {
    && w.retryDelay == Delay(w.failures)
    && (!w.open ==> w.failures > 0 && w.retryAt == w.failedAt + Delay(w.failures - 1))
  }

  lemma StepPatient(s: State, e: Event)
    requires Patient(s.writer) && (s.writing.Some? ==> s.writer.open)
    ensures Patient(Step(s, e).writer)
  {
    hide Entries;
  }

  /** In every run, the log is opened again only when the backed-off delay since the latest failure has passed. */
  lemma {:induction false} ReopenedOnlyWhenDue(start: nat, events: seq<Event>, now: nat)
    ensures var w := Run(start, events).writer;
            && Patient(w)
            && (Due(w, now) ==> now >= w.failedAt + Delay(w.failures - 1))
  {
    hide Step;
    if events != [] {
      RunsBalance(start, events[..|events| - 1]);
      ReopenedOnlyWhenDue(start, events[..|events| - 1], now);
      StepPatient(Run(start, events[..|events| - 1]), events[|events| - 1]);
    }
  }

  // ---- `Writer::write` and `Record`, as the source writes them ------------

  /** What a write changes. */
  datatype Written = Written(writer: Writer, congested: nat, file: seq<Entry>)

  function WrittenBy(w: Writer, congested: nat, file: seq<Entry>,
                     record: nat, now: nat, opens: bool, result: Option<nat>, later: nat): Written
  {
    var w := Reopened(w, now, opens);
    if !w.open then Written(w.(lost := w.lost + 1), congested, file)
    else
      var entries := Entries(Batch(record, congested, w.lost));
      match result
      case None => Written(w.(lost := 0, retryDelay := FIRST_RETRY, failures := 0), 0, file + entries)
      case Some(kept) =>
        Written(BackedOff(w.(lost := w.lost + 1, open := false), later), congested,
                file + entries[..if kept < |entries| then kept else |entries|])
  }

  /** A write without interruption is the step that begins it and the one that ends it, in every state of the log. */
  lemma WriteIsSteps(s: State, now: nat, opens: bool, result: Option<nat>, later: nat)
    requires s.writing == None && s.queue != [] && s.queue[0].Record?
    ensures var begun := Step(s, Begin(now, opens));
            var done := if result.None? then Step(begun, Succeed) else Step(begun, FailWrite(later, result.value));
            && Written(done.writer, done.congested, done.file)
               == WrittenBy(s.writer, s.congested, s.file, s.queue[0].id, now, opens, result, later)
            && done.writing == None && done.queue == s.queue[1..]
  {
    hide Entries, BackedOff, Reopened;
  }

  /** The writer thread's own fields, and the shared counter. */
  class LogWriter {
    var open: bool
    var retryAt: nat
    var retryDelay: nat
    var congested: nat
    var lost: nat
    var file: seq<Entry>
    ghost var failures: nat
    ghost var failedAt: nat

    ghost function View(): Writer
      reads this
    {
      Writer(open, retryAt, retryDelay, lost, failures, failedAt)
    }

    constructor (now: nat)
      ensures View() == Initial(now).writer && congested == 0 && file == []
    {
      open, retryAt, retryDelay, congested, lost, file := true, now, FIRST_RETRY, 0, 0, [];
      failures, failedAt := 0, now;
    }

    method BackOff(now: nat)
      modifies this`retryAt, this`retryDelay, this`failures, this`failedAt
      ensures View() == BackedOff(old(View()), now)
    {
      retryAt := now + retryDelay;
      retryDelay := if retryDelay * 2 < MAX_RETRY then retryDelay * 2 else MAX_RETRY;
      failures, failedAt := failures + 1, now;
    }

    method ReopenIfDue(now: nat, opens: bool)
      modifies this`open, this`retryAt, this`retryDelay, this`failures, this`failedAt
      ensures View() == Reopened(old(View()), now, opens)
    {
      if !open && now >= retryAt {
        if opens {
          open := true;
        } else {
          BackOff(now);
        }
      }
    }

    /**
     `write`, with nothing else happening in between: `result` is how many whole
     entries reach the file before an error at `later`, or `None` when there is none.
     */
    method Write(record: nat, now: nat, opens: bool, result: Option<nat>, later: nat)
      modifies this
      ensures Written(View(), congested, file)
           == WrittenBy(old(View()), old(congested), old(file), record, now, opens, result, later)
    {
      hide Entries, BackedOff, Reopened;
      ReopenIfDue(now, opens);
      if !open {
        lost := lost + 1;
        return;
      }
      var taken := congested;
      congested := 0;
      var unwritten := lost;
      lost := 0;
      var entries := Entries(Batch(record, taken, unwritten));
      if result.None? {
        file := file + entries;
        retryDelay := FIRST_RETRY;
        failures := 0;
      } else {
        file := file + entries[..if result.value < |entries| then result.value else |entries|];
        congested := congested + taken;
        lost := unwritten + 1;
        open := false;
        BackOff(later);
      }
    }
  }

  /** `Record`: the bytes of one record, unless there are too many. */
  class RecordBuffer {
    var bytes: seq<Byte>
    var oversized: bool
    ghost var pieces: seq<Byte>

    /** Holds everything written to it, or is oversized because that is too much. */
    ghost predicate Valid()
      reads this
    {
      (oversized <==> |pieces| > MAX_RECORD) && (!oversized ==> bytes == pieces)
    }

    constructor ()
      ensures Valid() && pieces == []
    {
      bytes, oversized, pieces := [], false, [];
    }

    method Write(data: seq<Byte>) returns (taken: nat)
      requires Valid()
      modifies this
      ensures Valid() && pieces == old(pieces) + data && taken == |data|
    {
      if !oversized && |bytes| + |data| <= MAX_RECORD {
        bytes := bytes + data;
      } else {
        oversized := true;
      }
      pieces := pieces + data;
      return |data|;
    }
  }
}
