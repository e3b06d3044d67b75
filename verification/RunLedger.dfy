/** The run store: an append-only event log with a validated projection (backend/src/atlasflow/storage.py,
    backend/src/atlasflow/service.py transition table, backend/src/atlasflow/schemas.py record rules). */
module RunLedger {
  import opened Common
  import opened Sorting

  type RunId = string
  type EventId = string

  datatype RunStatus =
    | Pending | Running | WaitingApproval | Interrupted
    | Completed | CompletedWithWarnings | Failed | Cancelled

  function Terminal(): set<RunStatus> {
    {Completed, CompletedWithWarnings, Failed, Cancelled}
  }

  function AllowedTransitions(status: RunStatus): set<RunStatus> {
    match status
    case Pending => {Running, Failed, Cancelled, Interrupted}
    case Running => {WaitingApproval, Completed, CompletedWithWarnings, Failed, Cancelled, Interrupted}
    case WaitingApproval => {Running, Cancelled, Failed, Interrupted}
    case Interrupted => {Running, WaitingApproval, Cancelled, Failed}
    case _ => {}
  }

  datatype SegmentStatus = SegmentRunning | SegmentCompleted | SegmentFailed

  datatype TraceSegment = TraceSegment(
    segmentId: string, runId: RunId, status: SegmentStatus, startedAt: int, body: string)

  datatype RunEvent = RunEvent(eventId: EventId, sequence: nat, runId: RunId, eventType: string, body: string)

  /** The stored projection of a run, without its events. */
  datatype RunRecord = RunRecord(
    id: RunId, status: RunStatus, report: Option<string>, warnings: seq<string>, error: Option<string>,
    traceSegments: seq<TraceSegment>, artifacts: map<string, string>, updatedAt: int)

  /** Field changes of one write; None leaves the field alone. */
  datatype Changes = Changes(
    status: Option<RunStatus>, report: Option<Option<string>>, warnings: Option<seq<string>>,
    error: Option<Option<string>>, traceSegments: Option<seq<TraceSegment>>, artifacts: map<string, string>)

  const NO_CHANGES := Changes(None, None, None, None, None, map[])

  /** `validate_terminal_invariants`. */
  predicate MeetsTerminalRules(r: RunRecord) {
    && (r.status in {Completed, CompletedWithWarnings} ==> r.report.Some? && !Blank(r.report.value))
    && (r.status.CompletedWithWarnings? ==> r.warnings != [])
    && (r.status.Failed? ==> r.error.Some? && r.error.value != "")
  }

  function Changed<T>(change: Option<T>, current: T): T {
    if change.Some? then change.value else current
  }

  /** The payload `_validated_update` validates. */
  function Patched(r: RunRecord, c: Changes, now: int): RunRecord {
    RunRecord(
      r.id, Changed(c.status, r.status), Changed(c.report, r.report), Changed(c.warnings, r.warnings),
      Changed(c.error, r.error), Changed(c.traceSegments, r.traceSegments), r.artifacts + c.artifacts, now)
  }

  // ----- The database and its writes as functions -----

  /** The projection table by run id, and the event table in insertion order. */
  datatype Db = Db(runs: map<RunId, RunRecord>, events: seq<RunEvent>)

  datatype Refusal = NotFound | WrongRun | IllegalTransition | InvalidRecord | DuplicateId | NotTerminal

  datatype Reply = Done | Refused(why: Refusal)

  predicate HasEvent(events: seq<RunEvent>, id: EventId) {
    exists i :: 0 <= i < |events| && events[i].eventId == id
  }

  /** `COALESCE(MAX(sequence), 0)` over the rows of one run. */
  function MaxSequence(events: seq<RunEvent>, run: RunId): nat {
    if events == [] then 0
    else
      var rest, last := MaxSequence(events[..|events| - 1], run), events[|events| - 1];
      if last.runId == run && last.sequence > rest then last.sequence else rest
  }

  function Inserted(events: seq<RunEvent>, event: RunEvent): seq<RunEvent> {
    events + [event.(sequence := MaxSequence(events, event.runId) + 1)]
  }

  function Without(events: seq<RunEvent>, run: RunId): seq<RunEvent> {
    if events == [] then []
    else if events[|events| - 1].runId == run then Without(events[..|events| - 1], run)
    else Without(events[..|events| - 1], run) + [events[|events| - 1]]
  }

  datatype Upsert = Same | Stored(segments: seq<TraceSegment>, stored: TraceSegment)

  /** The first segment with this id decides; a final form is never overwritten by a running one. */
  function Upserted(segments: seq<TraceSegment>, s: TraceSegment): Upsert {
    if segments == [] then Stored([s], s)
    else if segments[0].segmentId == s.segmentId then
      if segments[0] == s then Same
      else if !segments[0].status.SegmentRunning? && s.status.SegmentRunning? then Same
      else
        var stored := s.(startedAt := segments[0].startedAt);
        Stored([stored] + segments[1..], stored)
    else
      match Upserted(segments[1..], s)
      case Same => Same
      case Stored(rest, stored) => Stored([segments[0]] + rest, stored)
  }

  datatype Op =
    | Create(record: RunRecord)
    | AppendEvent(run: RunId, event: RunEvent, now: int)
    | Update(run: RunId, changes: Changes, now: int)
    | Transition(run: RunId, status: RunStatus, announced: Option<RunEvent>, changes: Changes, now: int)
    | ApplyOutbox(event: RunEvent, changes: Changes, now: int)
    | UpsertSegment(run: RunId, segment: TraceSegment, eventId: EventId, now: int)
    | Delete(run: RunId)

  function SegmentEvent(run: RunId, id: EventId, stored: TraceSegment): RunEvent {
    RunEvent(id, 0, run, "trace_segment_updated", stored.body)
  }

  /** Commits a changed record and the events, or refuses because the record breaks a terminal rule. */
  function Commit(db: Db, record: RunRecord, events: seq<RunEvent>): (Db, Reply) {
    if MeetsTerminalRules(record) then (Db(db.runs[record.id := record], events), Done)
    else (db, Refused(InvalidRecord))
  }

  /** What each write does to the database. */
  function Step(db: Db, op: Op): (Db, Reply) {
    match op
    case Create(record) =>
      if record.id in db.runs then (db, Refused(DuplicateId)) else Commit(db, record, db.events)
    case AppendEvent(run, event, now) =>
      if event.runId != run then (db, Refused(WrongRun))
      else if run !in db.runs then (db, Refused(NotFound))
      else if HasEvent(db.events, event.eventId) then (db, Done)
      else Commit(db, Patched(db.runs[run], NO_CHANGES, now), Inserted(db.events, event))
    case Update(run, changes, now) =>
      if run !in db.runs then (db, Refused(NotFound))
      else Commit(db, Patched(db.runs[run], changes, now), db.events)
    case Transition(run, status, announced, changes, now) =>
      if announced.Some? && announced.value.runId != run then (db, Refused(WrongRun))
      else if run !in db.runs then (db, Refused(NotFound))
      else if status != db.runs[run].status && status !in AllowedTransitions(db.runs[run].status) then
        (db, Refused(IllegalTransition))
      else
        Commit(db, Patched(db.runs[run], changes.(status := Some(status)), now),
          if announced.None? || HasEvent(db.events, announced.value.eventId) then db.events
          else Inserted(db.events, announced.value))
    case ApplyOutbox(event, changes, now) =>
      if HasEvent(db.events, event.eventId) then (db, Done)
      else if event.runId !in db.runs then (db, Refused(NotFound))
      else Commit(db, Patched(db.runs[event.runId], changes, now), Inserted(db.events, event))
    case UpsertSegment(run, segment, eventId, now) =>
      if segment.runId != run then (db, Refused(WrongRun))
      else if run !in db.runs then (db, Refused(NotFound))
      else
        var upsert := Upserted(db.runs[run].traceSegments, segment);
        if upsert.Same? then (db, Done)
        else if HasEvent(db.events, eventId) then (db, Refused(DuplicateId))
        else Commit(db, Patched(db.runs[run], NO_CHANGES.(traceSegments := Some(upsert.segments)), now),
               Inserted(db.events, SegmentEvent(run, eventId, upsert.stored)))
    case Delete(run) =>
      if run !in db.runs then (db, Refused(NotFound))
      else if db.runs[run].status !in Terminal() then (db, Refused(NotTerminal))
      else (Db(db.runs - {run}, Without(db.events, run)), Done)
  }

  // ----- The store itself -----

  /** The SQLite store. Each write is one transaction under the lock: a refusal puts back what it had written. */
  class SQLiteRunStore {
    var runs: map<RunId, RunRecord>
    var events: seq<RunEvent>

    constructor ()
      ensures Abs() == Db(map[], [])
    {
      runs, events := map[], [];
    }

    ghost function Abs(): Db
      reads this
    {
      Db(runs, events)
    }

    /** `event_batch`: the events after a cursor in sequence order, with the status of the same snapshot. */
    method EventBatch(run: RunId, cursor: int) returns (r: Result<(seq<RunEvent>, RunStatus), Refusal>)
      ensures run !in runs ==> r == Err(NotFound)
      ensures run in runs && Consistent(Abs()) ==>
        r == Ok((AfterCursor(Log(events, run), cursor), runs[run].status))
    {
      if run !in runs {
        return Err(NotFound);
      }
      var batch: seq<RunEvent> := [];
      for i := 0 to |events|
        invariant Consistent(Abs()) ==> batch == AfterCursor(Log(events[..i], run), cursor)
      {
        assert events[..i + 1] == events[..i] + [events[i]];
        if Consistent(Abs()) {
          LogOfPrefix(events, i + 1, run);
          NextAfterCursor(events[..i], events[i], run, cursor);
        }
        if events[i].runId == run && events[i].sequence > cursor {
          batch := InsertBy(batch, events[i], SequenceOf);
        }
      }
      assert events[..|events|] == events;
      return Ok((batch, runs[run].status));
    }

    method NextSequence(run: RunId) returns (n: nat)
      ensures n == MaxSequence(events, run) + 1
    {
      var top := 0;
      for i := 0 to |events|
        invariant top == MaxSequence(events[..i], run)
      {
        assert events[..i + 1][..i] == events[..i];
        if events[i].runId == run && events[i].sequence > top {
          top := events[i].sequence;
        }
      }
      assert events[..|events|] == events;
      n := top + 1;
    }

    method InsertEvent(event: RunEvent)
      modifies this`events
      ensures events == Inserted(old(events), event)
    {
      var sequence := NextSequence(event.runId);
      events := events + [event.(sequence := sequence)];
    }

    /** Validates and writes the projection, or rolls the event table back to what it was before the transaction. */
    method WriteProjection(record: RunRecord, before: seq<RunEvent>) returns (reply: Reply)
      modifies this
      ensures (Abs(), reply) ==
        if MeetsTerminalRules(record) then (Db(old(runs)[record.id := record], old(events)), Done)
        else (Db(old(runs), before), Refused(InvalidRecord))
    {
      if !MeetsTerminalRules(record) {
        events := before;
        return Refused(InvalidRecord);
      }
      runs := runs[record.id := record];
      return Done;
    }

    method CreateRun(record: RunRecord) returns (reply: Reply)
      modifies this
      ensures (Abs(), reply) == Step(old(Abs()), Create(record))
    {
      if record.id in runs {
        return Refused(DuplicateId);
      }
      reply := WriteProjection(record, events);
    }

    method AppendRunEvent(run: RunId, event: RunEvent, now: int) returns (reply: Reply)
      modifies this
      ensures (Abs(), reply) == Step(old(Abs()), AppendEvent(run, event, now))
    {
      if event.runId != run {
        return Refused(WrongRun);
      }
      if run !in runs {
        return Refused(NotFound);
      }
      if HasEvent(events, event.eventId) {
        return Done;
      }
      var before := events;
      InsertEvent(event);
      reply := WriteProjection(Patched(runs[run], NO_CHANGES, now), before);
    }

    method UpdateRun(run: RunId, changes: Changes, now: int) returns (reply: Reply)
      modifies this
      ensures (Abs(), reply) == Step(old(Abs()), Update(run, changes, now))
    {
      if run !in runs {
        return Refused(NotFound);
      }
      reply := WriteProjection(Patched(runs[run], changes, now), events);
    }

    method TransitionRun(run: RunId, status: RunStatus, announced: Option<RunEvent>, changes: Changes, now: int)
        returns (reply: Reply)
      modifies this
      ensures (Abs(), reply) == Step(old(Abs()), Transition(run, status, announced, changes, now))
    {
      if announced.Some? && announced.value.runId != run {
        return Refused(WrongRun);
      }
      if run !in runs {
        return Refused(NotFound);
      }
      if status != runs[run].status && status !in AllowedTransitions(runs[run].status) {
        return Refused(IllegalTransition);
      }
      var before := events;
      if announced.Some? && !HasEvent(events, announced.value.eventId) {
        InsertEvent(announced.value);
      }
      reply := WriteProjection(Patched(runs[run], changes.(status := Some(status)), now), before);
    }

    method ApplyOutboxEvent(event: RunEvent, changes: Changes, now: int) returns (reply: Reply)
      modifies this
      ensures (Abs(), reply) == Step(old(Abs()), ApplyOutbox(event, changes, now))
    {
      if HasEvent(events, event.eventId) {
        return Done;
      }
      if event.runId !in runs {
        return Refused(NotFound);
      }
      var updated := Patched(runs[event.runId], changes, now);
      if !MeetsTerminalRules(updated) {
        return Refused(InvalidRecord);
      }
      InsertEvent(event);
      reply := WriteProjection(updated, events);
    }

    method UpsertTraceSegment(run: RunId, segment: TraceSegment, eventId: EventId, now: int) returns (reply: Reply)
      modifies this
      ensures (Abs(), reply) == Step(old(Abs()), UpsertSegment(run, segment, eventId, now))
    {
      if segment.runId != run {
        return Refused(WrongRun);
      }
      if run !in runs {
        return Refused(NotFound);
      }
      var upsert := PlaceSegment(runs[run].traceSegments, segment);
      if upsert.Same? {
        return Done;
      }
      if HasEvent(events, eventId) {
        return Refused(DuplicateId);
      }
      var before := events;
      InsertEvent(SegmentEvent(run, eventId, upsert.stored));
      reply := WriteProjection(
        Patched(runs[run], NO_CHANGES.(traceSegments := Some(upsert.segments)), now), before);
    }

    method DeleteRun(run: RunId) returns (reply: Reply)
      modifies this
      ensures (Abs(), reply) == Step(old(Abs()), Delete(run))
    {
      if run !in runs {
        return Refused(NotFound);
      }
      if runs[run].status !in Terminal() {
        return Refused(NotTerminal);
      }
      runs := runs - {run};
      events := Without(events, run);
      return Done;
    }
  }

  /** The scan of `upsert_trace_segment` over the list it edits in place. */
  method PlaceSegment(current: seq<TraceSegment>, s: TraceSegment) returns (r: Upsert)
    ensures r == Upserted(current, s)
  {
    var index := 0;
    while index < |current| && current[index].segmentId != s.segmentId
      invariant index <= |current|
      invariant Upserted(current, s) ==
        match Upserted(current[index..], s)
        case Same => Same
        case Stored(rest, stored) => Stored(current[..index] + rest, stored)
    {
      SkipSegment(current, index, s);
      index := index + 1;
    }
    if index == |current| {
      return Stored(current + [s], s);
    }
    if current[index] == s {
      return Same;
    }
    if !current[index].status.SegmentRunning? && s.status.SegmentRunning? {
      return Same;
    }
    var stored := s.(startedAt := current[index].startedAt);
    var segments := current[index := stored];
    assert segments == current[..index] + ([stored] + current[index..][1..]);
    return Stored(segments, stored);
  }

  lemma SkipSegment(current: seq<TraceSegment>, k: nat, s: TraceSegment)
    requires k < |current| && current[k].segmentId != s.segmentId
    ensures Upserted(current[k..], s).Same? <==> Upserted(current[k + 1..], s).Same?
    ensures Upserted(current[k..], s).Stored? ==>
      && Upserted(current[k..], s).stored == Upserted(current[k + 1..], s).stored
      && current[..k] + Upserted(current[k..], s).segments == current[..k + 1] + Upserted(current[k + 1..], s).segments
  {
    assert current[k..][1..] == current[k + 1..];
    assert current[..k + 1] == current[..k] + [current[k]];
  }

  // ----- Invariant of every run of the store -----

  /** A run's events, `ORDER BY sequence` being insertion order once the log is numbered. */
  function Log(events: seq<RunEvent>, run: RunId): seq<RunEvent> {
    if events == [] then []
    else if events[|events| - 1].runId == run then Log(events[..|events| - 1], run) + [events[|events| - 1]]
    else Log(events[..|events| - 1], run)
  }

  /** Numbered 1..n without gaps. */
  ghost predicate Numbered(log: seq<RunEvent>) {
    forall i :: 0 <= i < |log| ==> log[i].sequence == i + 1
  }

  ghost predicate IdsUnique(events: seq<RunEvent>) {
    forall i, j :: 0 <= i < j < |events| ==> events[i].eventId != events[j].eventId
  }

  ghost predicate Consistent(db: Db) {
    && (forall run :: run in db.runs ==> db.runs[run].id == run && MeetsTerminalRules(db.runs[run]))
    && (forall i :: 0 <= i < |db.events| ==> db.events[i].runId in db.runs)
    && IdsUnique(db.events)
    && (forall run :: Numbered(Log(db.events, run)))
  }

  lemma LogSnoc(events: seq<RunEvent>, e: RunEvent, run: RunId)
    ensures Log(events + [e], run) == if e.runId == run then Log(events, run) + [e] else Log(events, run)
  {
    assert (events + [e])[..|events|] == events;
  }

  /** MAX+1 is the length plus one. */
  lemma {:induction false} MaxIsLength(events: seq<RunEvent>, run: RunId)
    requires Numbered(Log(events, run))
    ensures MaxSequence(events, run) == |Log(events, run)|
  {
    if events != [] {
      var front, last := events[..|events| - 1], events[|events| - 1];
      assert events == front + [last];
      LogSnoc(front, last, run);
      assert Log(front, run) == Log(events, run)[..|Log(front, run)|];
      MaxIsLength(front, run);
      if last.runId == run {
        assert Log(events, run)[|Log(front, run)|] == last;
      }
    }
  }

  lemma InsertedLog(events: seq<RunEvent>, event: RunEvent, run: RunId)
    requires Numbered(Log(events, event.runId))
    ensures Log(Inserted(events, event), run) ==
      if run == event.runId then Log(events, run) + [event.(sequence := |Log(events, run)| + 1)] else Log(events, run)
  {
    MaxIsLength(events, event.runId);
    LogSnoc(events, event.(sequence := MaxSequence(events, event.runId) + 1), run);
  }

  lemma InsertKeepsConsistent(db: Db, event: RunEvent)
    requires Consistent(db) && event.runId in db.runs && !HasEvent(db.events, event.eventId)
    ensures Consistent(Db(db.runs, Inserted(db.events, event)))
  {
    var after := Inserted(db.events, event);
    forall run ensures Numbered(Log(after, run)) {
      assert Numbered(Log(db.events, event.runId)) && Numbered(Log(db.events, run));
      InsertedLog(db.events, event, run);
    }
    assert forall i :: 0 <= i < |db.events| ==> after[i] == db.events[i];
  }

  lemma {:induction false} WithoutFacts(events: seq<RunEvent>, gone: RunId)
    ensures forall i :: 0 <= i < |Without(events, gone)| ==>
      Without(events, gone)[i] in events && Without(events, gone)[i].runId != gone
    ensures IdsUnique(events) ==> IdsUnique(Without(events, gone))
  {
    if events != [] {
      var front, last := events[..|events| - 1], events[|events| - 1];
      WithoutFacts(front, gone);
      if IdsUnique(events) {
        forall i | 0 <= i < |Without(front, gone)| ensures Without(front, gone)[i].eventId != last.eventId {
          var j :| 0 <= j < |front| && front[j] == Without(front, gone)[i];
          assert events[j].eventId != events[|events| - 1].eventId;
        }
      }
    }
  }

  lemma {:induction false} WithoutLog(events: seq<RunEvent>, gone: RunId, run: RunId)
    ensures Log(Without(events, gone), run) == if run == gone then [] else Log(events, run)
  {
    if events != [] {
      var front, last := events[..|events| - 1], events[|events| - 1];
      WithoutLog(front, gone, run);
      LogSnoc(Without(front, gone), last, run);
    }
  }

  lemma DeleteKeepsConsistent(db: Db, gone: RunId)
    requires Consistent(db)
    ensures Consistent(Db(db.runs - {gone}, Without(db.events, gone)))
  {
    WithoutFacts(db.events, gone);
    forall run ensures Numbered(Log(Without(db.events, gone), run)) {
      WithoutLog(db.events, gone, run);
      assert Numbered(Log(db.events, run));
    }
  }

  /** Every write keeps the ledger consistent, and a refused write changes nothing. */
  lemma StepKeepsConsistent(db: Db, op: Op)
    requires Consistent(db)
    ensures Consistent(Step(db, op).0)
    ensures Step(db, op).1.Refused? ==> Step(db, op).0 == db
  {
    match op
    case AppendEvent(run, event, now) =>
      if run in db.runs && event.runId == run && !HasEvent(db.events, event.eventId) {
        InsertKeepsConsistent(db, event);
      }
    case ApplyOutbox(event, changes, now) =>
      if event.runId in db.runs && !HasEvent(db.events, event.eventId) {
        InsertKeepsConsistent(db, event);
      }
    case Transition(run, status, announced, changes, now) =>
      if announced.Some? && run in db.runs && announced.value.runId == run
        && !HasEvent(db.events, announced.value.eventId) {
        InsertKeepsConsistent(db, announced.value);
      }
    case UpsertSegment(run, segment, eventId, now) =>
      if run in db.runs && !HasEvent(db.events, eventId) {
        var upsert := Upserted(db.runs[run].traceSegments, segment);
        if upsert.Stored? {
          InsertKeepsConsistent(db, SegmentEvent(run, eventId, upsert.stored));
        }
      }
    case Delete(run) => DeleteKeepsConsistent(db, run);
    case Create(_) =>
    case Update(_, _, _) =>
  }

  function Run(db: Db, ops: seq<Op>): Db {
    if ops == [] then db else Step(Run(db, ops[..|ops| - 1]), ops[|ops| - 1]).0
  }

  /** Any interleaving of writes from an empty store leaves a consistent ledger. */
  lemma {:induction false} EveryRunIsConsistent(db: Db, ops: seq<Op>)
    requires Consistent(db)
    ensures Consistent(Run(db, ops))
  {
    if ops != [] {
      EveryRunIsConsistent(db, ops[..|ops| - 1]);
      StepKeepsConsistent(Run(db, ops[..|ops| - 1]), ops[|ops| - 1]);
    }
  }

  /** In particular from the empty store of a new database. */
  lemma ConsistentFromEmpty(ops: seq<Op>)
    ensures Consistent(Run(Db(map[], []), ops))
  {
    EveryRunIsConsistent(Db(map[], []), ops);
  }

  /** Logs are append-only: a write extends a run's log by at most one event, unless it deletes the run. */
  lemma LogsOnlyGrow(db: Db, op: Op, run: RunId)
    requires Consistent(db)
    ensures var before, after := Log(db.events, run), Log(Step(db, op).0.events, run);
      || (before <= after && |after| <= |before| + 1)
      || (op == Delete(run) && after == [] && db.runs.Keys - {run} == Step(db, op).0.runs.Keys)
  {
    match op
    case AppendEvent(r, event, now) =>
      if r in db.runs && event.runId == r && !HasEvent(db.events, event.eventId) { InsertedLog(db.events, event, run); }
    case ApplyOutbox(event, changes, now) =>
      if event.runId in db.runs && !HasEvent(db.events, event.eventId) { InsertedLog(db.events, event, run); }
    case Transition(r, status, announced, changes, now) =>
      if announced.Some? && r in db.runs && announced.value.runId == r
        && !HasEvent(db.events, announced.value.eventId) { InsertedLog(db.events, announced.value, run); }
    case UpsertSegment(r, segment, eventId, now) =>
      if r in db.runs && !HasEvent(db.events, eventId) {
        var upsert := Upserted(db.runs[r].traceSegments, segment);
        if upsert.Stored? { InsertedLog(db.events, SegmentEvent(r, eventId, upsert.stored), run); }
      }
    case Delete(r) => WithoutLog(db.events, r, run);
    case Create(_) =>
    case Update(_, _, _) =>
  }

  /** The run a write is about. */
  function Target(op: Op): RunId {
    match op
    case Create(record) => record.id
    case AppendEvent(run, _, _) => run
    case Update(run, _, _) => run
    case Transition(run, _, _, _, _) => run
    case ApplyOutbox(event, _, _) => event.runId
    case UpsertSegment(run, _, _, _) => run
    case Delete(run) => run
  }

  /** A write leaves the record and the log of every other run alone. */
  lemma OtherRunsKept(db: Db, op: Op, run: RunId)
    requires Consistent(db) && run != Target(op)
    ensures var after := Step(db, op).0;
      && Log(after.events, run) == Log(db.events, run)
      && (run in after.runs <==> run in db.runs) && (run in db.runs ==> after.runs[run] == db.runs[run])
  {
    OtherLogsKept(db, op, run);
    OtherRecordsKept(db, op, run);
  }

  lemma OtherRecordsKept(db: Db, op: Op, run: RunId)
    requires Consistent(db) && run != Target(op)
    ensures var after := Step(db, op).0;
      (run in after.runs <==> run in db.runs) && (run in db.runs ==> after.runs[run] == db.runs[run])
  {
  }

  lemma OtherLogsKept(db: Db, op: Op, run: RunId)
    requires run != Target(op)
    ensures Log(Step(db, op).0.events, run) == Log(db.events, run)
  {
    match op
    case AppendEvent(r, event, now) => InsertedOther(db.events, event, run);
    case ApplyOutbox(event, changes, now) => InsertedOther(db.events, event, run);
    case Transition(r, status, announced, changes, now) =>
      if announced.Some? { InsertedOther(db.events, announced.value, run); }
    case UpsertSegment(r, segment, eventId, now) =>
      if r in db.runs {
        var upsert := Upserted(db.runs[r].traceSegments, segment);
        if upsert.Stored? { InsertedOther(db.events, SegmentEvent(r, eventId, upsert.stored), run); }
      }
    case Delete(r) => WithoutLog(db.events, r, run);
    case Create(_) =>
    case Update(_, _, _) =>
  }

  lemma InsertedOther(events: seq<RunEvent>, event: RunEvent, run: RunId)
    ensures event.runId != run ==> Log(Inserted(events, event), run) == Log(events, run)
  {
    LogSnoc(events, event.(sequence := MaxSequence(events, event.runId) + 1), run);
  }

  /** `transition` follows the table and never leaves a terminal status; the other writes give no such promise. */
  lemma TransitionRespectsTable(db: Db, run: RunId, status: RunStatus, announced: Option<RunEvent>, changes: Changes,
      now: int)
    requires Consistent(db) && run in db.runs
    ensures var (after, reply) := Step(db, Transition(run, status, announced, changes, now));
      && (reply.Done? ==> run in after.runs && after.runs[run].status == status)
      && (reply.Done? ==> status == db.runs[run].status || status in AllowedTransitions(db.runs[run].status))
      && (db.runs[run].status in Terminal() ==> run in after.runs && after.runs[run].status == db.runs[run].status)
  {
  }

  /** A patch that leaves a finished run finished: it sets no status or a terminal one. */
  predicate KeepsTerminal(changes: Changes) {
    changes.status.Some? ==> changes.status.value in Terminal()
  }

  /** `update` ignores the table: a terminal run stays terminal if and only if the patch sets no other status, or is
      refused because the patched record breaks a terminal rule. */
  lemma UpdateKeepsTerminalIff(db: Db, run: RunId, changes: Changes, now: int)
    requires Consistent(db) && run in db.runs && db.runs[run].status in Terminal()
    ensures var after := Step(db, Update(run, changes, now)).0;
      run in after.runs
      && (after.runs[run].status in Terminal() <==>
           KeepsTerminal(changes) || !MeetsTerminalRules(Patched(db.runs[run], changes, now)))
  {
  }

  /** Nor does `apply_outbox`: there a known event is a third way to stay terminal. */
  lemma DeliveryKeepsTerminalIff(db: Db, event: RunEvent, changes: Changes, now: int)
    requires Consistent(db) && event.runId in db.runs && db.runs[event.runId].status in Terminal()
    ensures var after := Step(db, ApplyOutbox(event, changes, now)).0;
      event.runId in after.runs
      && (after.runs[event.runId].status in Terminal() <==>
           || KeepsTerminal(changes) || HasEvent(db.events, event.eventId)
           || !MeetsTerminalRules(Patched(db.runs[event.runId], changes, now)))
  {
  }

  /** The smallest such writes: any stored terminal run can be set running again by either of them. */
  lemma TerminalRunRevived(db: Db, event: RunEvent, now: int)
    requires Consistent(db) && event.runId in db.runs && db.runs[event.runId].status in Terminal()
    requires !HasEvent(db.events, event.eventId)
    ensures var revive := NO_CHANGES.(status := Some(Running));
      && Step(db, Update(event.runId, revive, now)).1 == Done
      && Step(db, Update(event.runId, revive, now)).0.runs[event.runId].status == Running
      && Step(db, ApplyOutbox(event, revive, now)).1 == Done
      && Step(db, ApplyOutbox(event, revive, now)).0.runs[event.runId].status == Running
  {
  }

  // ----- What each write does, field by field -----

  /** after is before with the changes made, and nothing else but the time. */
  ghost predicate ChangedTo(before: RunRecord, after: RunRecord, c: Changes, now: int) {
    && after.id == before.id && after.updatedAt == now
    && (if c.status.Some? then after.status == c.status.value else after.status == before.status)
    && (if c.report.Some? then after.report == c.report.value else after.report == before.report)
    && (if c.warnings.Some? then after.warnings == c.warnings.value else after.warnings == before.warnings)
    && (if c.error.Some? then after.error == c.error.value else after.error == before.error)
    && (if c.traceSegments.Some? then after.traceSegments == c.traceSegments.value
        else after.traceSegments == before.traceSegments)
    && (forall key :: key in after.artifacts <==> key in before.artifacts || key in c.artifacts)
    && (forall key :: key in c.artifacts ==> after.artifacts[key] == c.artifacts[key])
    && (forall key :: key in before.artifacts && key !in c.artifacts ==> after.artifacts[key] == before.artifacts[key])
  }

  /** A record with these fields would break a terminal rule: a completed run without a report that says something, one
      completed with warnings without any, a failed one without an error. */
  ghost predicate Broken(status: RunStatus, report: Option<string>, warnings: seq<string>, error: Option<string>) {
    || ((status == Completed || status == CompletedWithWarnings)
        && (report == None || forall i :: 0 <= i < |report.value| ==> IsSpace(report.value[i])))
    || (status == CompletedWithWarnings && warnings == [])
    || (status == Failed && (error == None || error == Some("")))
  }

  /** The changes would break a terminal rule of the record. */
  ghost predicate Breaks(r: RunRecord, c: Changes) {
    Broken(
      if c.status.Some? then c.status.value else r.status, if c.report.Some? then c.report.value else r.report,
      if c.warnings.Some? then c.warnings.value else r.warnings, if c.error.Some? then c.error.value else r.error)
  }

  lemma BrokenIff(r: RunRecord)
    ensures MeetsTerminalRules(r) <==> !Broken(r.status, r.report, r.warnings, r.error)
  {
  }

  /** The run's log gains this event as its next, unless the store knows its id. */
  ghost predicate Logs(before: Db, after: Db, event: RunEvent) {
    var log := Log(before.events, event.runId);
    if exists i :: 0 <= i < |before.events| && before.events[i].eventId == event.eventId
    then Log(after.events, event.runId) == log
    else Log(after.events, event.runId) == log + [event.(sequence := |log| + 1)]
  }

  /** Creating a run: refused if and only if the id is taken or the record broken; it starts without events. */
  lemma CreateEffect(db: Db, record: RunRecord)
    requires Consistent(db)
    ensures var (after, reply) := Step(db, Create(record));
      && reply == (if record.id in db.runs then Refused(DuplicateId)
                   else if Broken(record.status, record.report, record.warnings, record.error)
                   then Refused(InvalidRecord)
                   else Done)
      && (reply.Done? ==>
           record.id in after.runs && after.runs[record.id] == record && Log(after.events, record.id) == [])
  {
    BrokenIff(record);
    NoRunNoLog(db.events, db.runs.Keys, record.id);
  }

  lemma {:induction false} NoRunNoLog(events: seq<RunEvent>, runs: set<RunId>, run: RunId)
    requires forall i :: 0 <= i < |events| ==> events[i].runId in runs
    ensures run !in runs ==> Log(events, run) == []
  {
    if events != [] {
      NoRunNoLog(events[..|events| - 1], runs, run);
    }
  }

  /** Appending an event: refused only for a foreign or unknown run; an unknown id becomes the next event of the log, a
      known one changes nothing. */
  lemma AppendEffect(db: Db, run: RunId, event: RunEvent, now: int)
    requires Consistent(db)
    ensures var (after, reply) := Step(db, AppendEvent(run, event, now));
      && reply == (if event.runId != run then Refused(WrongRun)
                   else if run !in db.runs then Refused(NotFound) else Done)
      && (reply.Done? ==>
           && run in after.runs && Logs(db, after, event)
           && if exists i :: 0 <= i < |db.events| && db.events[i].eventId == event.eventId then after == db
              else ChangedTo(db.runs[run], after.runs[run], NO_CHANGES, now))
  {
    if event.runId == run && run in db.runs && !HasEvent(db.events, event.eventId) {
      InsertedLog(db.events, event, run);
    }
  }

  /** An update: refused if and only if the run is unknown or the changes break a rule; the log stays. */
  lemma UpdateEffect(db: Db, run: RunId, changes: Changes, now: int)
    requires Consistent(db)
    ensures var (after, reply) := Step(db, Update(run, changes, now));
      && reply == (if run !in db.runs then Refused(NotFound)
                   else if Breaks(db.runs[run], changes) then Refused(InvalidRecord) else Done)
      && (reply.Done? ==>
           run in after.runs && ChangedTo(db.runs[run], after.runs[run], changes, now) && after.events == db.events)
  {
    if run in db.runs {
      BrokenIff(Patched(db.runs[run], changes, now));
    }
  }

  /** The table of allowed transitions, read as pairs. */
  ghost predicate MayFollow(before: RunStatus, after: RunStatus) {
    || before == after
    || (before == Pending && after in {Running, Failed, Cancelled, Interrupted})
    || (before == Running && after != Pending)
    || (before == WaitingApproval && after in {Running, Cancelled, Failed, Interrupted})
    || (before == Interrupted && after in {Running, WaitingApproval, Cancelled, Failed})
  }

  lemma MayFollowIff(before: RunStatus, after: RunStatus)
    ensures MayFollow(before, after) <==> after == before || after in AllowedTransitions(before)
  {
  }

  /** A transition: refused if and only if the event is a foreign run's, the run unknown, the step not allowed or the
      record would be broken. */
  lemma TransitionReply(db: Db, run: RunId, status: RunStatus, announced: Option<RunEvent>, changes: Changes, now: int)
    ensures Step(db, Transition(run, status, announced, changes, now)).1 ==
      if announced.Some? && announced.value.runId != run then Refused(WrongRun)
      else if run !in db.runs then Refused(NotFound)
      else if !MayFollow(db.runs[run].status, status) then Refused(IllegalTransition)
      else if Breaks(db.runs[run], changes.(status := Some(status))) then Refused(InvalidRecord) else Done
  {
    if run in db.runs {
      MayFollowIff(db.runs[run].status, status);
      BrokenIff(Patched(db.runs[run], changes.(status := Some(status)), now));
    }
  }

  /** When it is not, the status changes with the other fields, and the announced event is logged. */
  lemma TransitionEffect(db: Db, run: RunId, status: RunStatus, announced: Option<RunEvent>, changes: Changes, now: int)
    requires Consistent(db) && Step(db, Transition(run, status, announced, changes, now)).1.Done?
    ensures var after := Step(db, Transition(run, status, announced, changes, now)).0;
      && run in db.runs && run in after.runs
      && ChangedTo(db.runs[run], after.runs[run], changes.(status := Some(status)), now)
      && if announced.Some? then announced.value.runId == run && Logs(db, after, announced.value)
         else Log(after.events, run) == Log(db.events, run)
  {
    if announced.Some? && !HasEvent(db.events, announced.value.eventId) {
      InsertedLog(db.events, announced.value, run);
    }
  }

  /** A delivery: a known id changes nothing, whatever else is wrong; otherwise it is refused if and only if the run is
      unknown or the patch breaks a rule, and event and patch go in together. */
  lemma DeliveryEffect(db: Db, event: RunEvent, changes: Changes, now: int)
    requires Consistent(db)
    ensures var (after, reply) := Step(db, ApplyOutbox(event, changes, now));
      if exists i :: 0 <= i < |db.events| && db.events[i].eventId == event.eventId then after == db && reply == Done
      else
        && reply == (if event.runId !in db.runs then Refused(NotFound)
                     else if Breaks(db.runs[event.runId], changes) then Refused(InvalidRecord) else Done)
        && (reply.Done? ==>
             && event.runId in after.runs && Logs(db, after, event)
             && ChangedTo(db.runs[event.runId], after.runs[event.runId], changes, now))
  {
    if event.runId in db.runs && !HasEvent(db.events, event.eventId) {
      BrokenIff(Patched(db.runs[event.runId], changes, now));
      InsertedLog(db.events, event, event.runId);
    }
  }

  /** A trace segment: a repeated or late form changes nothing; otherwise the segments change and the log gains one
      event with the form stored. */
  lemma SegmentEffect(db: Db, run: RunId, segment: TraceSegment, eventId: EventId, now: int)
    requires Consistent(db)
    ensures var (after, reply) := Step(db, UpsertSegment(run, segment, eventId, now));
      if segment.runId != run then reply == Refused(WrongRun)
      else if run !in db.runs then reply == Refused(NotFound)
      else
        var upsert := Upserted(db.runs[run].traceSegments, segment);
        if upsert.Same? then after == db && reply == Done
        else if exists i :: 0 <= i < |db.events| && db.events[i].eventId == eventId then reply == Refused(DuplicateId)
        else
          && reply == Done && run in after.runs
          && ChangedTo(db.runs[run], after.runs[run], NO_CHANGES.(traceSegments := Some(upsert.segments)), now)
          && Logs(db, after, RunEvent(eventId, 0, run, "trace_segment_updated", upsert.stored.body))
  {
    if segment.runId == run && run in db.runs && !HasEvent(db.events, eventId) {
      var upsert := Upserted(db.runs[run].traceSegments, segment);
      if upsert.Stored? {
        InsertedLog(db.events, SegmentEvent(run, eventId, upsert.stored), run);
      }
    }
  }

  /** A deletion: refused if and only if the run is unknown or still open; the run and its log are gone. */
  lemma DeleteEffect(db: Db, run: RunId)
    requires Consistent(db)
    ensures var (after, reply) := Step(db, Delete(run));
      && reply == (if run !in db.runs then Refused(NotFound)
                   else if db.runs[run].status in {Pending, Running, WaitingApproval, Interrupted}
                   then Refused(NotTerminal)
                   else Done)
      && (reply.Done? ==> run !in after.runs && Log(after.events, run) == [])
  {
    WithoutLog(db.events, run, run);
  }

  // ----- Reading behind a cursor -----

  function SequenceOf(e: RunEvent): int {
    e.sequence
  }

  function AfterCursor(log: seq<RunEvent>, cursor: int): seq<RunEvent> {
    log[Min(Max(cursor, 0), |log|)..]
  }

  lemma {:induction false} LogOfPrefix(events: seq<RunEvent>, n: nat, run: RunId)
    requires n <= |events| && Numbered(Log(events, run))
    ensures Numbered(Log(events[..n], run)) && Log(events[..n], run) <= Log(events, run)
    decreases |events| - n
  {
    if n == |events| {
      assert events[..n] == events;
    } else {
      LogOfPrefix(events, n + 1, run);
      assert events[..n + 1] == events[..n] + [events[n]];
      LogSnoc(events[..n], events[n], run);
      var shorter, longer := Log(events[..n], run), Log(events[..n + 1], run);
      assert forall i :: 0 <= i < |shorter| ==> shorter[i] == longer[i];
    }
  }

  lemma NextAfterCursor(front: seq<RunEvent>, e: RunEvent, run: RunId, cursor: int)
    requires Numbered(Log(front + [e], run))
    ensures AfterCursor(Log(front + [e], run), cursor) ==
      var batch := AfterCursor(Log(front, run), cursor);
      if e.runId == run && e.sequence > cursor then InsertBy(batch, e, SequenceOf) else batch
  {
    LogSnoc(front, e, run);
    var log := Log(front, run);
    var batch := AfterCursor(log, cursor);
    if e.runId == run {
      assert Log(front + [e], run)[|log|] == e;
      if batch != [] {
        assert batch[|batch| - 1] == log[|log| - 1] == Log(front + [e], run)[|log| - 1];
      }
    }
  }

  lemma {:induction false} LogKept(db: Db, ops: seq<Op>, run: RunId)
    requires Consistent(db) && Delete(run) !in ops
    ensures Log(db.events, run) <= Log(Run(db, ops).events, run)
  {
    if ops != [] {
      var front, last := ops[..|ops| - 1], ops[|ops| - 1];
      assert ops == front + [last];
      LogKept(db, front, run);
      EveryRunIsConsistent(db, front);
      LogsOnlyGrow(Run(db, front), last, run);
    }
  }

  /** A reader that asks again behind the last sequence it saw gets exactly what was logged in between. */
  lemma ReaderMissesNothing(db: Db, ops: seq<Op>, run: RunId)
    requires Consistent(db) && Delete(run) !in ops
    ensures var before, after := Log(db.events, run), Log(Run(db, ops).events, run);
      before <= after && after == before + AfterCursor(after, |before|)
  {
    LogKept(db, ops, run);
  }

  // ----- Trace segments -----

  /** The position an upsert touches: the first entry with this id, or the end. */
  lemma {:induction false} UpsertPosition(segments: seq<TraceSegment>, s: TraceSegment) returns (k: nat)
    ensures k <= |segments| && forall i :: 0 <= i < k ==> segments[i].segmentId != s.segmentId
    ensures k < |segments| ==> segments[k].segmentId == s.segmentId
    ensures Upserted(segments, s) ==
      if k == |segments| then Stored(segments + [s], s)
      else if segments[k] == s || (!segments[k].status.SegmentRunning? && s.status.SegmentRunning?) then Same
      else var stored := s.(startedAt := segments[k].startedAt); Stored(segments[k := stored], stored)
  {
    if segments == [] || segments[0].segmentId == s.segmentId {
      k := 0;
      if segments != [] {
        var stored := s.(startedAt := segments[0].startedAt);
        assert [stored] + segments[1..] == segments[0 := stored];
      }
    } else {
      var j := UpsertPosition(segments[1..], s);
      k := j + 1;
      assert segments == [segments[0]] + segments[1..];
      if k < |segments| {
        var stored := s.(startedAt := segments[k].startedAt);
        assert [segments[0]] + segments[1..][j := stored] == segments[k := stored];
      }
      assert [segments[0]] + (segments[1..] + [s]) == segments + [s];
    }
  }

  ghost predicate OnePerInvocation(segments: seq<TraceSegment>) {
    forall i, j :: 0 <= i < j < |segments| ==> segments[i].segmentId != segments[j].segmentId
  }

  /** One invocation stays one segment: entries keep id, place and start, and a final form never runs again. */
  lemma UpsertKeepsOnePerInvocation(segments: seq<TraceSegment>, s: TraceSegment)
    requires OnePerInvocation(segments) && Upserted(segments, s).Stored?
    ensures var after := Upserted(segments, s).segments;
      && OnePerInvocation(after) && |segments| <= |after|
      && (forall i :: 0 <= i < |segments| ==>
           && after[i].segmentId == segments[i].segmentId && after[i].startedAt == segments[i].startedAt
           && (!segments[i].status.SegmentRunning? ==> !after[i].status.SegmentRunning?))
      && Upserted(after, Upserted(segments, s).stored) == Same
  {
    var k := UpsertPosition(segments, s);
    var u := Upserted(segments, s);
    var m := UpsertPosition(u.segments, u.stored);
    assert u.segments[k] == u.stored;
  }
}
