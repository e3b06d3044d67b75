/** Startup reconciliation of the ledger with the execution journal (backend/src/atlasflow/service.py
    `reconcile_startup`, backend/src/atlasflow/execution/runtime.py `cancel`, `emit` and `flush_run`). */
module Startup {
  import opened Common
  import opened RunLedger

  /** An outbox entry; `delivered` also covers the entries a cancellation discarded. */
  datatype Envelope = Envelope(event: RunEvent, changes: Changes, delivered: bool)

  /** The durable journal of one run, outbox in delivery order. */
  datatype Bundle = Bundle(deleted: bool, cancelRequested: bool, outbox: seq<Envelope>)

  datatype World = World(db: Db, bundles: map<RunId, Bundle>)

  /** What the read-only graph state says about a run. `waiting` means interrupted without a pending approval. */
  datatype Snapshot = Snapshot(
    hasValues: bool, finalStatus: Option<RunStatus>, waiting: bool, changes: Changes, failure: string)

  datatype Write = DeleteWrite | TransitionWrite | UpdateWrite | OutboxWrite

  datatype Outcome = Fine | Raised(write: Write, run: RunId, why: Refusal)

  // ----- The execution runtime's part -----

  /** `str(projected_status) != "cancelled"` on a run whose cancellation is requested. */
  predicate Fenced(b: Bundle, e: Envelope) {
    b.cancelRequested && e.changes.status.Some? && e.changes.status != Some(Cancelled)
  }

  function Discarded(outbox: seq<Envelope>, deleted: bool): (r: seq<Envelope>)
    ensures |r| == |outbox|
  {
    seq(|outbox|, i requires 0 <= i < |outbox| =>
      var e := outbox[i];
      if deleted || (e.changes.status.Some? && e.changes.status != Some(Cancelled)) then e.(delivered := true) else e)
  }

  /** `ExecutionRuntime.cancel`. */
  function CancelBundle(b: Bundle, deleted: bool): Bundle {
    Bundle(b.deleted || deleted, true, Discarded(b.outbox, deleted))
  }

  /** The i-th entry delivered. */
  function Marked(b: Bundle, i: nat): Bundle
    requires i < |b.outbox|
  {
    b.(outbox := b.outbox[i := b.outbox[i].(delivered := true)])
  }

  /** `_flush_run_locked` from the i-th entry on; stops where the store refuses. */
  function Flush(db: Db, b: Bundle, i: nat, now: int): (Db, Bundle, Reply)
    requires i <= |b.outbox|
    decreases |b.outbox| - i
  {
    if i == |b.outbox| then (db, b, Done)
    else if b.outbox[i].delivered || Fenced(b, b.outbox[i]) then Flush(db, b, i + 1, now)
    else
      var (after, reply) := Step(db, ApplyOutbox(b.outbox[i].event, b.outbox[i].changes, now));
      if reply.Refused? then (after, b, reply)
      else Flush(after, Marked(b, i), i + 1, now)
  }

  function FlushRun(db: Db, b: Bundle, now: int): (Db, Bundle, Reply) {
    if b.deleted then (db, b, Done) else Flush(db, b, 0, now)
  }

  /** `uuid5(NAMESPACE_URL, f"atlasflow:{run_id}:lifecycle:terminal")`, one id per run. */
  function TerminalEventId(run: RunId): EventId {
    "atlasflow:" + run + ":lifecycle:terminal"
  }

  predicate HasEnvelope(b: Bundle, id: EventId) {
    exists i :: 0 <= i < |b.outbox| && b.outbox[i].event.eventId == id
  }

  /** `emit` before its flush: the entry is added once, and not on a fenced run. */
  function Enqueue(b: Bundle, e: Envelope): Bundle {
    if b.deleted || Fenced(b, e) || HasEnvelope(b, e.event.eventId) then b
    else b.(outbox := b.outbox + [e])
  }

  /** `cancel`: both marks are set, and discarded are all open entries of a deleted run, otherwise those that project
      another status than cancelled; nothing else changes. */
  lemma CancelEffect(b: Bundle, deleted: bool)
    ensures var c := CancelBundle(b, deleted);
      && c.cancelRequested && (c.deleted <==> b.deleted || deleted) && |c.outbox| == |b.outbox|
      && forall i :: 0 <= i < |b.outbox| ==>
           && c.outbox[i].event == b.outbox[i].event && c.outbox[i].changes == b.outbox[i].changes
           && (c.outbox[i].delivered <==>
                || b.outbox[i].delivered || deleted
                || (exists status :: status != Cancelled && b.outbox[i].changes.status == Some(status)))
  {
    forall i | 0 <= i < |b.outbox|
      ensures b.outbox[i].changes.status.Some? && b.outbox[i].changes.status != Some(Cancelled) <==>
        exists status :: status != Cancelled && b.outbox[i].changes.status == Some(status)
    {
      if b.outbox[i].changes.status.Some? {
        assert b.outbox[i].changes.status == Some(b.outbox[i].changes.status.value);
      }
    }
  }

  /** `emit`: the entry joins the end of the outbox unless the run is deleted, the fence is against it, or its id is
      there; otherwise the journal stays. */
  lemma EmitEffect(b: Bundle, e: Envelope)
    ensures var c := Enqueue(b, e);
      if b.deleted || (exists i :: 0 <= i < |b.outbox| && b.outbox[i].event.eventId == e.event.eventId)
         || (b.cancelRequested && exists status :: status != Cancelled && e.changes.status == Some(status))
      then c == b
      else c == Bundle(false, b.cancelRequested, b.outbox + [e])
  {
    if e.changes.status.Some? && e.changes.status != Some(Cancelled) {
      assert e.changes.status == Some(e.changes.status.value);
    }
  }

  // ----- Reconciliation of one run -----

  const DEFAULT_WARNING := "质量预算耗尽，报告可能存在未解决问题"

  function Announcement(run: RunId, id: EventId, kind: string): RunEvent {
    RunEvent(id, 0, run, kind, "")
  }

  /** The patch `_apply_execution` emits for a finished graph. */
  function FinalChanges(s: Snapshot, status: RunStatus): Changes {
    var c := s.changes.(status := Some(status));
    if status.Failed? then c.(error := Some(Some(s.failure)))
    else if status.CompletedWithWarnings? && (c.warnings.None? || c.warnings.value == []) then
      c.(warnings := Some([DEFAULT_WARNING]))
    else c
  }

  /** The event type `_apply_execution` gives a final status. */
  function FinalKind(status: RunStatus): string {
    match status
    case Completed => "run_completed"
    case CompletedWithWarnings => "run_degraded"
    case Failed => "run_failed"
    case _ => "run_cancelled"
  }

  function FinalEnvelope(run: RunId, s: Snapshot, status: RunStatus): Envelope {
    Envelope(Announcement(run, TerminalEventId(run), FinalKind(status)), FinalChanges(s, status), false)
  }

  const NO_CHECKPOINT := "No persistent checkpoint is available; create a new Run"
  const LEGACY := "Legacy in-memory execution has no durable checkpoint; create a new Run"

  function Failing(error: string): Changes {
    NO_CHANGES.(error := Some(Some(error)))
  }

  function Written(w: World, result: (Db, Reply), write: Write, run: RunId): (World, Outcome) {
    (w.(db := result.0), if result.1.Refused? then Raised(write, run, result.1.why) else Fine)
  }

  predicate FinishedGraph(s: Snapshot) {
    s.finalStatus.Some? && s.finalStatus.value in Terminal()
  }

  /** The writes for a run that is still not terminal after its outbox was delivered. */
  function Settle(w: World, run: RunId, cancelRequested: bool, s: Snapshot, id: EventId, now: int): (World, Outcome)
    requires run in w.bundles
  {
    if cancelRequested then
      Written(w, Step(w.db, Transition(run, Cancelled, Some(Announcement(run, id, "run_cancelled")), NO_CHANGES, now)),
        TransitionWrite, run)
    else if !s.hasValues then
      Written(w,
        Step(w.db, Transition(run, Failed, Some(Announcement(run, id, "run_failed")), Failing(NO_CHECKPOINT), now)),
        TransitionWrite, run)
    else if FinishedGraph(s) then
      var b := Enqueue(w.bundles[run], FinalEnvelope(run, s, s.finalStatus.value));
      var (db, flushed, reply) := FlushRun(w.db, b, now);
      (World(db, w.bundles[run := flushed]), if reply.Refused? then Raised(OutboxWrite, run, reply.why) else Fine)
    else
      var status := if s.waiting then WaitingApproval else Interrupted;
      Written(w, Step(w.db, Update(run, s.changes.(status := Some(status)), now)), UpdateWrite, run)
  }

  function ReconcileRun(w: World, run: RunId, s: Snapshot, id: EventId, now: int): (World, Outcome)
    requires run in w.bundles
  {
    var b := w.bundles[run];
    if b.deleted then
      var (db, reply) := Step(w.db, Delete(run));
      (w.(db := db), if reply.Refused? && reply.why != NotFound then Raised(DeleteWrite, run, reply.why) else Fine)
    else if run !in w.db.runs then
      (w.(bundles := w.bundles[run := CancelBundle(b, true)]), Fine)
    else
      var (db, flushed, reply) := FlushRun(w.db, b, now);
      var next := World(db, w.bundles[run := flushed]);
      if reply.Refused? then (next, Raised(OutboxWrite, run, reply.why))
      else if run in db.runs && db.runs[run].status in Terminal() then (next, Fine)
      else Settle(next, run, b.cancelRequested, s, id, now)
  }

  // ----- What one run's reconciliation can and cannot do -----

  /** The outbox is a dictionary by event id, and its events are the run's own. */
  ghost predicate OutboxOk(outbox: seq<Envelope>, run: RunId) {
    && (forall i :: 0 <= i < |outbox| ==> outbox[i].event.runId == run)
    && (forall i, j :: 0 <= i < j < |outbox| ==> outbox[i].event.eventId != outbox[j].event.eventId)
  }

  ghost predicate WorldOk(w: World) {
    && Consistent(w.db)
    && forall run :: run in w.bundles ==> OutboxOk(w.bundles[run].outbox, run)
  }

  /** after differs from before in nothing another run can see. */
  ghost predicate OnlyTouches(before: World, after: World, run: RunId) {
    && (forall other :: other != run ==> (other in after.db.runs <==> other in before.db.runs))
    && (forall other :: other != run && other in before.db.runs ==> after.db.runs[other] == before.db.runs[other])
    && (forall other :: other != run ==> Log(after.db.events, other) == Log(before.db.events, other))
    && after.bundles.Keys == before.bundles.Keys
    && (forall other :: other != run && other in before.bundles ==> after.bundles[other] == before.bundles[other])
  }

  /** The same runs, and all but one of them with their record and their log. */
  ghost predicate OthersKept(before: Db, after: Db, run: RunId) {
    && after.runs.Keys == before.runs.Keys
    && (forall other :: other in before.runs && other != run ==> after.runs[other] == before.runs[other])
    && (forall other :: other != run ==> Log(after.events, other) == Log(before.events, other))
  }

  lemma DeliveryKeepsOthers(db: Db, e: Envelope, now: int)
    requires Consistent(db) && e.event.runId in db.runs
    ensures var after := Step(db, ApplyOutbox(e.event, e.changes, now)).0;
      Consistent(after) && OthersKept(db, after, e.event.runId)
  {
    var op := ApplyOutbox(e.event, e.changes, now);
    StepKeepsConsistent(db, op);
    forall other | other != e.event.runId ensures Log(Step(db, op).0.events, other) == Log(db.events, other) {
      OtherRunsKept(db, op, other);
    }
  }

  /** Every entry is delivered, discarded or fenced. */
  ghost predicate Drained(b: Bundle) {
    forall i :: 0 <= i < |b.outbox| ==> b.outbox[i].delivered || Fenced(b, b.outbox[i])
  }

  lemma MarkedOk(b: Bundle, i: nat, run: RunId)
    requires i < |b.outbox| && OutboxOk(b.outbox, run)
    ensures OutboxOk(Marked(b, i).outbox, run)
  {
  }

  lemma {:induction false} FlushKeepsDb(db: Db, b: Bundle, i: nat, now: int, run: RunId)
    requires Consistent(db) && i <= |b.outbox| && run in db.runs && OutboxOk(b.outbox, run)
    ensures Consistent(Flush(db, b, i, now).0) && OthersKept(db, Flush(db, b, i, now).0, run)
    decreases |b.outbox| - i
  {
    if i < |b.outbox| {
      var e := b.outbox[i];
      if e.delivered || Fenced(b, e) {
        FlushKeepsDb(db, b, i + 1, now, run);
      } else {
        DeliveryKeepsOthers(db, e, now);
        var (after, reply) := Step(db, ApplyOutbox(e.event, e.changes, now));
        if reply.Done? {
          MarkedOk(b, i, run);
          FlushKeepsDb(after, Marked(b, i), i + 1, now, run);
        }
      }
    }
  }

  lemma {:induction false} FlushKeepsBundle(db: Db, b: Bundle, i: nat, now: int)
    requires i <= |b.outbox|
    requires forall j :: 0 <= j < i ==> b.outbox[j].delivered || Fenced(b, b.outbox[j])
    ensures var (after, flushed, reply) := Flush(db, b, i, now);
      && flushed == b.(outbox := flushed.outbox) && |flushed.outbox| == |b.outbox|
      && (forall j :: 0 <= j < |b.outbox| ==> flushed.outbox[j].event == b.outbox[j].event)
      && (reply.Done? ==> Drained(flushed))
    decreases |b.outbox| - i
  {
    if i < |b.outbox| {
      var e := b.outbox[i];
      if e.delivered || Fenced(b, e) {
        FlushKeepsBundle(db, b, i + 1, now);
      } else {
        var (after, reply) := Step(db, ApplyOutbox(e.event, e.changes, now));
        if reply.Done? {
          FlushKeepsBundle(after, Marked(b, i), i + 1, now);
        }
      }
    }
  }

  lemma FlushFacts(db: Db, b: Bundle, i: nat, now: int, run: RunId)
    requires Consistent(db) && i <= |b.outbox| && run in db.runs && OutboxOk(b.outbox, run)
    requires forall j :: 0 <= j < i ==> b.outbox[j].delivered || Fenced(b, b.outbox[j])
    ensures var (after, flushed, reply) := Flush(db, b, i, now);
      && Consistent(after) && OthersKept(db, after, run)
      && flushed == b.(outbox := flushed.outbox) && |flushed.outbox| == |b.outbox|
      && (forall j :: 0 <= j < |b.outbox| ==> flushed.outbox[j].event == b.outbox[j].event)
      && (reply.Done? ==> Drained(flushed))
  {
    FlushKeepsDb(db, b, i, now, run);
    FlushKeepsBundle(db, b, i, now);
  }

  lemma {:induction false} DrainedFlush(db: Db, b: Bundle, i: nat, now: int)
    requires Drained(b) && i <= |b.outbox|
    ensures Flush(db, b, i, now) == (db, b, Done)
    decreases |b.outbox| - i
  {
    if i < |b.outbox| {
      DrainedFlush(db, b, i + 1, now);
    }
  }

  lemma FlushRunFacts(w: World, run: RunId, now: int)
    requires WorldOk(w) && run in w.bundles && run in w.db.runs && !w.bundles[run].deleted
    ensures var (db, flushed, reply) := FlushRun(w.db, w.bundles[run], now);
      var next := World(db, w.bundles[run := flushed]);
      && WorldOk(next) && OnlyTouches(w, next, run) && run in db.runs
      && flushed == w.bundles[run].(outbox := flushed.outbox)
      && (forall id :: HasEnvelope(flushed, id) <==> HasEnvelope(w.bundles[run], id))
      && (reply.Done? ==> Drained(flushed))
  {
    FlushFacts(w.db, w.bundles[run], 0, now, run);
    var (db, flushed, reply) := FlushRun(w.db, w.bundles[run], now);
    forall id ensures HasEnvelope(flushed, id) <==> HasEnvelope(w.bundles[run], id) {
      if HasEnvelope(w.bundles[run], id) {
        var i :| 0 <= i < |w.bundles[run].outbox| && w.bundles[run].outbox[i].event.eventId == id;
        assert flushed.outbox[i].event.eventId == id;
      }
    }
  }

  /** A status that needs no running process. */
  predicate Settled(status: RunStatus) {
    status in Terminal() || status.WaitingApproval? || status.Interrupted?
  }

  /** What reconciliation leaves behind for one run. */
  ghost predicate StableRun(w: World, run: RunId, s: Snapshot) {
    && run in w.bundles
    && var b := w.bundles[run];
    if b.deleted then run !in w.db.runs
    else
      && run in w.db.runs && Drained(b)
      && (w.db.runs[run].status in Terminal()
          || (!b.cancelRequested && s.hasValues
              && if FinishedGraph(s) then HasEnvelope(b, TerminalEventId(run))
                 else w.db.runs[run].status == if s.waiting then WaitingApproval else Interrupted))
  }

  lemma TerminalWriteAllowed(db: Db, run: RunId, status: RunStatus, id: EventId, kind: string, c: Changes, now: int)
    requires Consistent(db) && run in db.runs && db.runs[run].status !in Terminal()
    requires status == Cancelled
      || (status == Failed && c.error.Some? && c.error.value.Some? && c.error.value.value != "")
    ensures var (after, reply) := Step(db, Transition(run, status, Some(Announcement(run, id, kind)), c, now));
      && reply == Done && Consistent(after) && OthersKept(db, after, run) && after.runs[run].status == status
  {
    var op := Transition(run, status, Some(Announcement(run, id, kind)), c, now);
    StepKeepsConsistent(db, op);
    forall other | other != run ensures Log(Step(db, op).0.events, other) == Log(db.events, other) {
      OtherRunsKept(db, op, other);
    }
  }

  lemma EmitFacts(w: World, run: RunId, s: Snapshot, now: int)
    requires WorldOk(w) && run in w.bundles && run in w.db.runs && w.db.runs[run].status !in Terminal()
    requires Drained(w.bundles[run]) && !w.bundles[run].deleted && !w.bundles[run].cancelRequested
    requires s.hasValues && FinishedGraph(s)
    ensures var (next, outcome) := Settle(w, run, false, s, "", now);
      && WorldOk(next) && OnlyTouches(w, next, run)
      && (outcome.Raised? ==> outcome.write == OutboxWrite)
      && (outcome.Fine? ==> StableRun(next, run, s))
  {
    var b := Enqueue(w.bundles[run], FinalEnvelope(run, s, s.finalStatus.value));
    if !HasEnvelope(w.bundles[run], TerminalEventId(run)) {
      assert b.outbox[|w.bundles[run].outbox|].event.eventId == TerminalEventId(run);
    }
    assert HasEnvelope(b, TerminalEventId(run));
    var queued := w.(bundles := w.bundles[run := b]);
    FlushRunFacts(queued, run, now);
    var (db, flushed, reply) := FlushRun(w.db, b, now);
    assert reply.Done? ==> Drained(flushed);
    assert Settle(w, run, false, s, "", now).0.bundles[run] == flushed;
  }

  lemma SettleFacts(w: World, run: RunId, cancelRequested: bool, s: Snapshot, id: EventId, now: int)
    requires WorldOk(w) && run in w.bundles && run in w.db.runs && w.db.runs[run].status !in Terminal()
    requires Drained(w.bundles[run]) && !w.bundles[run].deleted
    requires cancelRequested == w.bundles[run].cancelRequested
    ensures var (next, outcome) := Settle(w, run, cancelRequested, s, id, now);
      && WorldOk(next) && OnlyTouches(w, next, run)
      && (outcome.Raised? ==> outcome.write == OutboxWrite)
      && (outcome.Fine? ==> StableRun(next, run, s))
  {
    if cancelRequested {
      TerminalWriteAllowed(w.db, run, Cancelled, id, "run_cancelled", NO_CHANGES, now);
    } else if !s.hasValues {
      TerminalWriteAllowed(w.db, run, Failed, id, "run_failed", Failing(NO_CHECKPOINT), now);
    } else if FinishedGraph(s) {
      EmitFacts(w, run, s, now);
    } else {
      var status := if s.waiting then WaitingApproval else Interrupted;
      StepKeepsConsistent(w.db, Update(run, s.changes.(status := Some(status)), now));
    }
  }

  /** A tombstoned run is deleted unless it is not terminal. */
  lemma DeletionFacts(w: World, run: RunId, s: Snapshot, id: EventId, now: int)
    requires WorldOk(w) && run in w.bundles && w.bundles[run].deleted
    ensures var (next, outcome) := ReconcileRun(w, run, s, id, now);
      && WorldOk(next) && OnlyTouches(w, next, run) && next.bundles == w.bundles
      && outcome == (if run in w.db.runs && w.db.runs[run].status !in Terminal()
                     then Raised(DeleteWrite, run, Step(w.db, Delete(run)).1.why) else Fine)
      && (outcome.Fine? ==> run !in next.db.runs)
  {
    StepKeepsConsistent(w.db, Delete(run));
    forall other | other != run ensures Log(Step(w.db, Delete(run)).0.events, other) == Log(w.db.events, other) {
      OtherRunsKept(w.db, Delete(run), other);
    }
  }

  /** The only writes of one run's reconciliation that can be refused are the deletion of a tombstoned run that is not
      terminal, and an outbox delivery; no transition or update ever is. */
  lemma ReconcileRunFacts(w: World, run: RunId, s: Snapshot, id: EventId, now: int)
    requires WorldOk(w) && run in w.bundles
    ensures var (next, outcome) := ReconcileRun(w, run, s, id, now);
      && WorldOk(next) && OnlyTouches(w, next, run)
      && (outcome.Raised? ==> outcome.write in {DeleteWrite, OutboxWrite} && outcome.run == run)
      && ((outcome.Raised? && outcome.write == DeleteWrite) <==>
           w.bundles[run].deleted && run in w.db.runs && w.db.runs[run].status !in Terminal())
      && (outcome.Fine? ==> StableRun(next, run, s))
  {
    var b := w.bundles[run];
    if b.deleted {
      DeletionFacts(w, run, s, id, now);
    } else if run in w.db.runs {
      FlushRunFacts(w, run, now);
      var (db, flushed, reply) := FlushRun(w.db, b, now);
      var next := World(db, w.bundles[run := flushed]);
      if reply.Done? && db.runs[run].status !in Terminal() {
        SettleFacts(next, run, b.cancelRequested, s, id, now);
      }
    }
  }

  /** Every status and event the same; only timestamps and artifacts may be rewritten. */
  ghost predicate SameStatuses(before: World, after: World) {
    && after.bundles == before.bundles && after.db.events == before.db.events
    && after.db.runs.Keys == before.db.runs.Keys
    && forall run :: run in before.db.runs ==> after.db.runs[run].status == before.db.runs[run].status
  }

  /** Reconciling a run that was reconciled before changes no status, whatever happened to other runs in between. */
  lemma ReconcileStableRun(w: World, run: RunId, s: Snapshot, id: EventId, now: int)
    requires WorldOk(w) && StableRun(w, run, s)
    ensures var (next, outcome) := ReconcileRun(w, run, s, id, now);
      outcome == Fine && SameStatuses(w, next)
  {
    var b := w.bundles[run];
    if !b.deleted {
      DrainedFlush(w.db, b, 0, now);
      assert w.bundles[run := b] == w.bundles;
    }
  }

  lemma StableElsewhere(before: World, after: World, touched: RunId, run: RunId, s: Snapshot)
    requires OnlyTouches(before, after, touched) && touched != run && StableRun(before, run, s)
    ensures StableRun(after, run, s)
  {
  }

  // ----- Which status a run ends with -----

  /** A flush passes the entry over: it is delivered or discarded, or the run is to be cancelled and the entry projects
      another status than cancelled. */
  predicate PassedOver(b: Bundle, e: Envelope) {
    e.delivered || (b.cancelRequested && e.changes.status.Some? && e.changes.status.value != Cancelled)
  }

  /** The status after the open entries from i on are delivered, read off the journal: entries passed over or already
      logged change nothing, nor do entries without a status. */
  function StatusAfter(log: seq<RunEvent>, b: Bundle, i: nat, status: RunStatus): RunStatus
    requires i <= |b.outbox|
    decreases |b.outbox| - i
  {
    if i == |b.outbox| then status
    else
      var e := b.outbox[i];
      var silent := PassedOver(b, e) || HasEvent(log, e.event.eventId) || e.changes.status.None?;
      StatusAfter(log, b, i + 1, if silent then status else e.changes.status.value)
  }

  lemma {:induction false} StatusAfterAgrees(log: seq<RunEvent>, b: Bundle, other: seq<RunEvent>, c: Bundle, i: nat,
      status: RunStatus)
    requires |b.outbox| == |c.outbox| && i <= |b.outbox| && b.cancelRequested == c.cancelRequested
    requires forall j :: i <= j < |b.outbox| ==> b.outbox[j] == c.outbox[j]
    requires forall j :: i <= j < |b.outbox| ==>
      (HasEvent(log, b.outbox[j].event.eventId) <==> HasEvent(other, b.outbox[j].event.eventId))
    ensures StatusAfter(log, b, i, status) == StatusAfter(other, c, i, status)
    decreases |b.outbox| - i
  {
    if i < |b.outbox| {
      var e := b.outbox[i];
      var silent := PassedOver(b, e) || HasEvent(log, e.event.eventId) || e.changes.status.None?;
      StatusAfterAgrees(log, b, other, c, i + 1, if silent then status else e.changes.status.value);
    }
  }

  /** One delivery: the event is logged then, and the status is the projected one unless the event was known. */
  lemma DeliveryFacts(db: Db, e: Envelope, now: int)
    requires Consistent(db) && e.event.runId in db.runs
    requires Step(db, ApplyOutbox(e.event, e.changes, now)).1.Done?
    ensures var after := Step(db, ApplyOutbox(e.event, e.changes, now)).0;
      && (forall id :: HasEvent(after.events, id) <==> HasEvent(db.events, id) || id == e.event.eventId)
      && e.event.runId in after.runs
      && after.runs[e.event.runId].status ==
           if HasEvent(db.events, e.event.eventId) || e.changes.status.None? then db.runs[e.event.runId].status
           else e.changes.status.value
  {
    var after := Step(db, ApplyOutbox(e.event, e.changes, now)).0;
    if !HasEvent(db.events, e.event.eventId) {
      InsertedIds(db.events, e.event);
    }
  }

  lemma InsertedIds(events: seq<RunEvent>, event: RunEvent)
    ensures forall id :: HasEvent(Inserted(events, event), id) <==> HasEvent(events, id) || id == event.eventId
  {
    var after := Inserted(events, event);
    forall id ensures HasEvent(after, id) <==> HasEvent(events, id) || id == event.eventId {
      if i :| 0 <= i < |events| && events[i].eventId == id {
        assert after[i] == events[i];
      }
      assert after[|events|].eventId == event.eventId;
    }
  }

  /** A flush forgets no event, and logs nothing but entries of the journal. */
  lemma {:induction false} FlushLogs(db: Db, b: Bundle, i: nat, now: int, id: EventId)
    requires i <= |b.outbox|
    ensures var after := Flush(db, b, i, now).0;
      && (HasEvent(db.events, id) ==> HasEvent(after.events, id))
      && (HasEvent(after.events, id) ==> HasEvent(db.events, id) || HasEnvelope(b, id))
    decreases |b.outbox| - i
  {
    if i < |b.outbox| {
      var e := b.outbox[i];
      if e.delivered || Fenced(b, e) {
        FlushLogs(db, b, i + 1, now, id);
      } else {
        var next, marked := Step(db, ApplyOutbox(e.event, e.changes, now)).0, Marked(b, i);
        assert HasEnvelope(b, e.event.eventId);
        InsertedIds(db.events, e.event);
        SameEnvelopes(b, i, id);
        FlushLogs(next, marked, i + 1, now, id);
      }
    }
  }

  /** A flush that succeeds ends with the status the journal predicts. */
  lemma {:induction false} FlushStatus(db: Db, b: Bundle, i: nat, now: int, run: RunId)
    requires Consistent(db) && i <= |b.outbox| && run in db.runs && OutboxOk(b.outbox, run)
    requires Flush(db, b, i, now).2.Done?
    ensures var after := Flush(db, b, i, now).0;
      run in after.runs && after.runs[run].status == StatusAfter(db.events, b, i, db.runs[run].status)
    decreases |b.outbox| - i
  {
    if i < |b.outbox| {
      var e := b.outbox[i];
      if e.delivered || Fenced(b, e) {
        FlushStatus(db, b, i + 1, now, run);
      } else {
        var op := ApplyOutbox(e.event, e.changes, now);
        var next := Step(db, op).0;
        StepKeepsConsistent(db, op);
        DeliveryFacts(db, e, now);
        MarkedOk(b, i, run);
        FlushStatus(next, Marked(b, i), i + 1, now, run);
        LaterUnknown(db.events, next.events, b, i, run);
        StatusAfterAgrees(next.events, Marked(b, i), db.events, b, i + 1, next.runs[run].status);
      }
    }
  }

  /** Delivering an entry makes no later entry known. */
  lemma LaterUnknown(events: seq<RunEvent>, after: seq<RunEvent>, b: Bundle, i: nat, run: RunId)
    requires i < |b.outbox| && OutboxOk(b.outbox, run)
    requires forall id :: HasEvent(after, id) <==> HasEvent(events, id) || id == b.outbox[i].event.eventId
    ensures forall j :: i < j < |b.outbox| ==>
      (HasEvent(after, b.outbox[j].event.eventId) <==> HasEvent(events, b.outbox[j].event.eventId))
  {
  }

  lemma SameEnvelopes(b: Bundle, i: nat, id: EventId)
    requires i < |b.outbox|
    ensures HasEnvelope(Marked(b, i), id) <==> HasEnvelope(b, id)
  {
    var marked := Marked(b, i);
    if j :| 0 <= j < |b.outbox| && b.outbox[j].event.eventId == id {
      assert marked.outbox[j].event.eventId == id;
    }
    if j :| 0 <= j < |b.outbox| && marked.outbox[j].event.eventId == id {
      assert b.outbox[j].event.eventId == id;
    }
  }

  /** Every event id belongs to one run: the journal's ids and the closing id to their run, logged ids to the run that
      logged them. */
  ghost predicate Owned(w: World, owner: EventId -> RunId) {
    OwnedEvents(w.db.events, owner) && forall run :: run in w.bundles ==> OwnIds(w.bundles[run], run, owner)
  }

  ghost predicate OwnIds(b: Bundle, run: RunId, owner: EventId -> RunId) {
    && (forall i :: 0 <= i < |b.outbox| ==> owner(b.outbox[i].event.eventId) == run)
    && owner(TerminalEventId(run)) == run
  }

  ghost predicate OwnedEvents(events: seq<RunEvent>, owner: EventId -> RunId) {
    forall i :: 0 <= i < |events| ==> owner(events[i].eventId) == events[i].runId
  }

  /** So a run's own log tells whether its ids are known. */
  lemma {:induction false} KnownFromOwnLog(events: seq<RunEvent>, owner: EventId -> RunId, id: EventId)
    requires OwnedEvents(events, owner)
    ensures HasEvent(events, id) <==> HasEvent(Log(events, owner(id)), id)
  {
    if events != [] {
      var n := |events| - 1;
      KnownFromOwnLog(events[..n], owner, id);
      assert events == events[..n] + [events[n]];
      LogSnoc(events[..n], events[n], owner(id));
      KnownSnoc(events[..n], events[n], id);
      KnownSnoc(Log(events[..n], owner(id)), events[n], id);
    }
  }

  lemma KnownSnoc(events: seq<RunEvent>, e: RunEvent, id: EventId)
    ensures HasEvent(events + [e], id) <==> HasEvent(events, id) || e.eventId == id
  {
    var all := events + [e];
    if i :| 0 <= i < |events| && events[i].eventId == id {
      assert all[i] == events[i];
    }
    assert all[|events|] == e;
  }

  /** What startup is about to find wrong with a run, read off journal, ledger and snapshot before it does anything: the
      graph is finished and its closing event recorded, but the last status still to be delivered, or the stored one, is
      pending or running. */
  ghost predicate ClosedOpen(w: World, run: RunId, s: Snapshot)
    requires run in w.bundles
  {
    var b, log := w.bundles[run], Log(w.db.events, run);
    && run in w.db.runs && !b.deleted && !b.cancelRequested && s.hasValues && FinishedGraph(s)
    && (HasEnvelope(b, TerminalEventId(run)) || HasEvent(log, TerminalEventId(run)))
    && StatusAfter(log, b, 0, w.db.runs[run].status) in {Pending, Running}
  }

  /** The run's flush, told from its own log. */
  lemma FlushTold(w: World, run: RunId, now: int, owner: EventId -> RunId)
    requires WorldOk(w) && run in w.bundles && run in w.db.runs && !w.bundles[run].deleted
    requires OwnedEvents(w.db.events, owner) && OwnIds(w.bundles[run], run, owner)
    requires FlushRun(w.db, w.bundles[run], now).2.Done?
    ensures var (db, flushed, reply) := FlushRun(w.db, w.bundles[run], now);
      var log := Log(w.db.events, run);
      && run in db.runs && db.runs[run].status == StatusAfter(log, w.bundles[run], 0, w.db.runs[run].status)
      && (HasEnvelope(flushed, TerminalEventId(run)) || HasEvent(db.events, TerminalEventId(run)) <==>
           HasEnvelope(w.bundles[run], TerminalEventId(run)) || HasEvent(log, TerminalEventId(run)))
  {
    var b, log := w.bundles[run], Log(w.db.events, run);
    FlushStatus(w.db, b, 0, now, run);
    FlushLogs(w.db, b, 0, now, TerminalEventId(run));
    FlushRunFacts(w, run, now);
    forall j | 0 <= j < |b.outbox|
      ensures HasEvent(w.db.events, b.outbox[j].event.eventId) <==> HasEvent(log, b.outbox[j].event.eventId)
    {
      KnownFromOwnLog(w.db.events, owner, b.outbox[j].event.eventId);
    }
    StatusAfterAgrees(w.db.events, b, log, b, 0, w.db.runs[run].status);
    KnownFromOwnLog(w.db.events, owner, TerminalEventId(run));
  }

  /** Settling settles, unless the closing event is known and the status pending or running. */
  lemma SettleSettlesIff(w: World, run: RunId, s: Snapshot, id: EventId, now: int)
    requires WorldOk(w) && run in w.bundles && run in w.db.runs && w.db.runs[run].status !in Terminal()
    requires Drained(w.bundles[run]) && !w.bundles[run].deleted
    requires Settle(w, run, w.bundles[run].cancelRequested, s, id, now).1 == Fine
    ensures var b, next := w.bundles[run], Settle(w, run, w.bundles[run].cancelRequested, s, id, now).0;
      run in next.db.runs && (Settled(next.db.runs[run].status) <==>
        !(!b.cancelRequested && s.hasValues && FinishedGraph(s) && w.db.runs[run].status in {Pending, Running}
          && (HasEnvelope(b, TerminalEventId(run)) || HasEvent(w.db.events, TerminalEventId(run)))))
  {
    if !w.bundles[run].cancelRequested && s.hasValues && FinishedGraph(s) {
      ClosingDelivery(w, run, s, now);
    } else {
      SettleFacts(w, run, w.bundles[run].cancelRequested, s, id, now);
    }
  }

  /** A reconciled run that survives is settled, unless it is closed but open. */
  lemma SettledExactly(w: World, run: RunId, s: Snapshot, id: EventId, now: int, owner: EventId -> RunId)
    requires WorldOk(w) && run in w.bundles
    requires OwnedEvents(w.db.events, owner) && OwnIds(w.bundles[run], run, owner)
    requires ReconcileRun(w, run, s, id, now).1 == Fine && run in ReconcileRun(w, run, s, id, now).0.db.runs
    ensures Settled(ReconcileRun(w, run, s, id, now).0.db.runs[run].status) <==> !ClosedOpen(w, run, s)
  {
    var b := w.bundles[run];
    if b.deleted {
      DeletionFacts(w, run, s, id, now);
      assert false;
    }
    FlushTold(w, run, now, owner);
    FlushRunFacts(w, run, now);
    var (db, flushed, reply) := FlushRun(w.db, b, now);
    if db.runs[run].status !in Terminal() {
      SettleSettlesIff(World(db, w.bundles[run := flushed]), run, s, id, now);
    }
  }

  lemma ClosingDelivery(w: World, run: RunId, s: Snapshot, now: int)
    requires WorldOk(w) && run in w.bundles && run in w.db.runs && w.db.runs[run].status !in Terminal()
    requires Drained(w.bundles[run]) && !w.bundles[run].deleted && !w.bundles[run].cancelRequested
    requires s.hasValues && FinishedGraph(s) && Settle(w, run, false, s, "", now).1 == Fine
    ensures var next := Settle(w, run, false, s, "", now).0;
      run in next.db.runs && next.db.runs[run].status ==
        if HasEnvelope(w.bundles[run], TerminalEventId(run)) || HasEvent(w.db.events, TerminalEventId(run))
        then w.db.runs[run].status else s.finalStatus.value
  {
    var e := FinalEnvelope(run, s, s.finalStatus.value);
    var b := Enqueue(w.bundles[run], e);
    if HasEnvelope(w.bundles[run], TerminalEventId(run)) {
      DrainedFlush(w.db, b, 0, now);
    } else {
      var n := |w.bundles[run].outbox|;
      FlushSkipsTo(w.db, b, 0, n, now);
      assert b.outbox[n] == e;
      assert Flush(w.db, b, n, now).2.Done?;
    }
  }

  lemma {:induction false} FlushSkipsTo(db: Db, b: Bundle, i: nat, n: nat, now: int)
    requires i <= n <= |b.outbox|
    requires forall j :: i <= j < n ==> b.outbox[j].delivered || Fenced(b, b.outbox[j])
    ensures Flush(db, b, i, now) == Flush(db, b, n, now)
    decreases n - i
  {
    if i < n {
      FlushSkipsTo(db, b, i + 1, n, now);
    }
  }

  // ----- What exactly one run's reconciliation leaves -----

  /** The run's log after the open entries from i on are delivered: each unknown one becomes the next event. */
  function LogAfter(log: seq<RunEvent>, b: Bundle, i: nat): seq<RunEvent>
    requires i <= |b.outbox|
    decreases |b.outbox| - i
  {
    if i == |b.outbox| then log
    else
      var e := b.outbox[i];
      if PassedOver(b, e) then LogAfter(log, b, i + 1)
      else LogAfter(Announced(log, e.event), b, i + 1)
  }

  /** The log with the event as its next, unless it has the id already. */
  function Announced(log: seq<RunEvent>, event: RunEvent): seq<RunEvent> {
    if HasEvent(log, event.eventId) then log else log + [event.(sequence := |log| + 1)]
  }

  lemma {:induction false} LogAfterAgrees(log: seq<RunEvent>, b: Bundle, c: Bundle, i: nat)
    requires |b.outbox| == |c.outbox| && i <= |b.outbox| && b.cancelRequested == c.cancelRequested
    requires forall j :: i <= j < |b.outbox| ==> b.outbox[j] == c.outbox[j]
    ensures LogAfter(log, b, i) == LogAfter(log, c, i)
    decreases |b.outbox| - i
  {
    if i < |b.outbox| {
      var e := b.outbox[i];
      LogAfterAgrees(if PassedOver(b, e) then log else Announced(log, e.event), b, c, i + 1);
    }
  }

  /** On a ledger whose ids are owned, a write logs its event when the run's own log does not know it. */
  lemma LoggedByOwnLog(before: Db, after: Db, event: RunEvent, owner: EventId -> RunId)
    requires Logs(before, after, event) && OwnedEvents(before.events, owner) && owner(event.eventId) == event.runId
    ensures Log(after.events, event.runId) == Announced(Log(before.events, event.runId), event)
  {
    KnownFromOwnLog(before.events, owner, event.eventId);
  }

  lemma DeliveryLog(db: Db, e: Envelope, now: int, owner: EventId -> RunId)
    requires Consistent(db) && e.event.runId in db.runs && OwnedEvents(db.events, owner)
    requires owner(e.event.eventId) == e.event.runId && Step(db, ApplyOutbox(e.event, e.changes, now)).1.Done?
    ensures var after := Step(db, ApplyOutbox(e.event, e.changes, now)).0;
      Log(after.events, e.event.runId) == Announced(Log(db.events, e.event.runId), e.event)
  {
    var after := Step(db, ApplyOutbox(e.event, e.changes, now)).0;
    DeliveryEffect(db, e.event, e.changes, now);
    assert Logs(db, after, e.event);
    LoggedByOwnLog(db, after, e.event, owner);
  }

  /** A delivery that a flush gets through leaves the flush as it was before it. */
  lemma FlushBehind(db: Db, b: Bundle, i: nat, now: int, run: RunId, owner: EventId -> RunId)
    requires Consistent(db) && i < |b.outbox| && run in db.runs && OutboxOk(b.outbox, run)
    requires OwnedEvents(db.events, owner) && OwnIds(b, run, owner)
    requires !b.outbox[i].delivered && !Fenced(b, b.outbox[i]) && Flush(db, b, i, now).2.Done?
    ensures var e := b.outbox[i];
      var (next, reply) := Step(db, ApplyOutbox(e.event, e.changes, now));
      && reply.Done? && Consistent(next) && run in next.runs && OwnedEvents(next.events, owner)
      && OutboxOk(Marked(b, i).outbox, run) && OwnIds(Marked(b, i), run, owner)
      && Flush(db, b, i, now) == Flush(next, Marked(b, i), i + 1, now)
  {
    var e := b.outbox[i];
    var op := ApplyOutbox(e.event, e.changes, now);
    StepKeepsConsistent(db, op);
    StepOwned(db, op, owner);
    DeliveryKeepsOthers(db, e, now);
    MarkedOk(b, i, run);
    MarkedOwned(b, i, run, owner);
  }

  lemma OneMoreLogged(b: Bundle, i: nat, log: seq<RunEvent>, next: seq<RunEvent>)
    requires i < |b.outbox| && !b.outbox[i].delivered && !Fenced(b, b.outbox[i])
    requires next == Announced(log, b.outbox[i].event)
    ensures LogAfter(log, b, i) == LogAfter(next, Marked(b, i), i + 1)
  {
    LogAfterAgrees(next, Marked(b, i), b, i + 1);
  }

  /** A flush that succeeds logs exactly what the journal predicts. */
  lemma {:induction false} FlushLog(db: Db, b: Bundle, i: nat, now: int, run: RunId, owner: EventId -> RunId)
    requires Consistent(db) && i <= |b.outbox| && run in db.runs && OutboxOk(b.outbox, run)
    requires OwnedEvents(db.events, owner) && OwnIds(b, run, owner)
    requires Flush(db, b, i, now).2.Done?
    ensures Log(Flush(db, b, i, now).0.events, run) == LogAfter(Log(db.events, run), b, i)
    decreases |b.outbox| - i
  {
    if i < |b.outbox| {
      var e := b.outbox[i];
      if e.delivered || Fenced(b, e) {
        FlushLog(db, b, i + 1, now, run, owner);
      } else {
        var next := Step(db, ApplyOutbox(e.event, e.changes, now)).0;
        FlushBehind(db, b, i, now, run, owner);
        DeliveryLog(db, e, now, owner);
        FlushLog(next, Marked(b, i), i + 1, now, run, owner);
        OneMoreLogged(b, i, Log(db.events, run), Log(next.events, run));
      }
    }
  }

  lemma MarkedOwned(b: Bundle, i: nat, run: RunId, owner: EventId -> RunId)
    requires i < |b.outbox| && OwnIds(b, run, owner)
    ensures OwnIds(Marked(b, i), run, owner)
  {
  }

  /** The closing event is in the outbox or in the log. */
  ghost predicate ClosingKnown(b: Bundle, log: seq<RunEvent>, run: RunId) {
    HasEnvelope(b, TerminalEventId(run)) || HasEvent(log, TerminalEventId(run))
  }

  /** The record holds what the graph state had to say. */
  ghost predicate Carries(record: RunRecord, c: Changes) {
    && (c.report.Some? ==> record.report == c.report.value)
    && (c.traceSegments.Some? ==> record.traceSegments == c.traceSegments.value)
    && (forall key :: key in c.artifacts ==> key in record.artifacts && record.artifacts[key] == c.artifacts[key])
  }

  /** The end of a run whose graph is finished, as it is recorded. */
  ghost predicate Finished(record: RunRecord, s: Snapshot, status: RunStatus) {
    && record.status == status && Carries(record, s.changes)
    && (if status == Failed then record.error == Some(s.failure)
        else s.changes.error.Some? ==> record.error == s.changes.error.value)
    && (if status == CompletedWithWarnings && (s.changes.warnings.None? || s.changes.warnings.value == [])
        then record.warnings == ["质量预算耗尽，报告可能存在未解决问题"]
        else s.changes.warnings.Some? ==> record.warnings == s.changes.warnings.value)
  }

  /** The event type that goes with a final status. */
  ghost predicate Closes(status: RunStatus, kind: string) {
    || (status == Completed && kind == "run_completed") || (status == CompletedWithWarnings && kind == "run_degraded")
    || (status == Failed && kind == "run_failed") || (status == Cancelled && kind == "run_cancelled")
  }

  /** What is written for a run that is still open after its outbox was delivered. */
  ghost predicate SettledAs(b: Bundle, log: seq<RunEvent>, status: RunStatus, record: RunRecord, end: seq<RunEvent>,
      run: RunId, s: Snapshot, id: EventId)
  {
    if b.cancelRequested then
      record.status == Cancelled && end == Announced(log, RunEvent(id, 0, run, "run_cancelled", ""))
    else if !s.hasValues then
      && record.status == Failed && record.error == Some("No persistent checkpoint is available; create a new Run")
      && end == Announced(log, RunEvent(id, 0, run, "run_failed", ""))
    else if s.finalStatus.Some? && s.finalStatus.value in {Completed, CompletedWithWarnings, Failed, Cancelled} then
      if ClosingKnown(b, log, run) then record.status == status && end == log
      else
        && Finished(record, s, s.finalStatus.value) && end != []
        && Closes(s.finalStatus.value, end[|end| - 1].eventType)
        && end == log + [RunEvent(TerminalEventId(run), |log| + 1, run, end[|end| - 1].eventType, "")]
    else
      && record.status == (if s.waiting then WaitingApproval else Interrupted) && Carries(record, s.changes)
      && (s.changes.error.Some? ==> record.error == s.changes.error.value)
      && (s.changes.warnings.Some? ==> record.warnings == s.changes.warnings.value) && end == log
  }

  /** What startup leaves of a journaled run, told from what it found. */
  ghost predicate ReconciledAs(before: World, after: World, run: RunId, s: Snapshot, id: EventId)
    requires run in before.bundles
  {
    var b, log, end := before.bundles[run], Log(before.db.events, run), Log(after.db.events, run);
    && run in after.bundles
    && if b.deleted then run !in after.db.runs && end == [] && after.bundles[run] == b
       else if run !in before.db.runs then
         && run !in after.db.runs && end == log && after.bundles[run].deleted && after.bundles[run].cancelRequested
         && forall i :: 0 <= i < |after.bundles[run].outbox| ==> after.bundles[run].outbox[i].delivered
       else
         && run in after.db.runs
         && var status, flushed := StatusAfter(log, b, 0, before.db.runs[run].status), LogAfter(log, b, 0);
         if status in {Completed, CompletedWithWarnings, Failed, Cancelled}
         then after.db.runs[run].status == status && end == flushed
         else SettledAs(b, flushed, status, after.db.runs[run], end, run, s, id)
  }

  lemma TransitionAs(w: World, run: RunId, status: RunStatus, id: EventId, kind: string, c: Changes, now: int,
      owner: EventId -> RunId)
    requires WorldOk(w) && run in w.db.runs && OwnedEvents(w.db.events, owner) && owner(id) == run
    requires Step(w.db, Transition(run, status, Some(Announcement(run, id, kind)), c, now)).1.Done?
    ensures var after := Step(w.db, Transition(run, status, Some(Announcement(run, id, kind)), c, now)).0;
      && run in after.runs && ChangedTo(w.db.runs[run], after.runs[run], c.(status := Some(status)), now)
      && Log(after.events, run) == Announced(Log(w.db.events, run), Announcement(run, id, kind))
  {
    var e := Announcement(run, id, kind);
    TransitionEffect(w.db, run, status, Some(e), c, now);
    LoggedByOwnLog(w.db, Step(w.db, Transition(run, status, Some(e), c, now)).0, e, owner);
  }

  /** A closing event that is in the outbox already is not delivered again. */
  lemma KnownClosingKeeps(w: World, run: RunId, s: Snapshot, now: int)
    requires run in w.bundles && run in w.db.runs
    requires Drained(w.bundles[run]) && !w.bundles[run].deleted && !w.bundles[run].cancelRequested
    requires s.hasValues && FinishedGraph(s) && HasEnvelope(w.bundles[run], TerminalEventId(run))
    ensures Settle(w, run, false, s, "", now).0.db == w.db
  {
    DrainedFlush(w.db, w.bundles[run], 0, now);
  }

  /** A new one is delivered, and nothing else. */
  lemma NewClosingDelivers(w: World, run: RunId, s: Snapshot, now: int)
    requires run in w.bundles && run in w.db.runs
    requires Drained(w.bundles[run]) && !w.bundles[run].deleted && !w.bundles[run].cancelRequested
    requires s.hasValues && FinishedGraph(s) && !HasEnvelope(w.bundles[run], TerminalEventId(run))
    requires Settle(w, run, false, s, "", now).1 == Fine
    ensures var e := FinalEnvelope(run, s, s.finalStatus.value);
      Step(w.db, ApplyOutbox(e.event, e.changes, now)) == (Settle(w, run, false, s, "", now).0.db, Done)
  {
    var e, n := FinalEnvelope(run, s, s.finalStatus.value), |w.bundles[run].outbox|;
    var b := Enqueue(w.bundles[run], e);
    FlushSkipsTo(w.db, b, 0, n, now);
    assert b.outbox[n] == e && Flush(w.db, b, n, now).2.Done?;
  }

  lemma ClosedSettles(b: Bundle, log: seq<RunEvent>, status: RunStatus, record: RunRecord, end: seq<RunEvent>,
      run: RunId, s: Snapshot, e: Envelope)
    requires !b.cancelRequested && s.hasValues && FinishedGraph(s) && !ClosingKnown(b, log, run)
    requires e == FinalEnvelope(run, s, s.finalStatus.value) && Finished(record, s, s.finalStatus.value)
    requires Closes(s.finalStatus.value, e.event.eventType) && end == log + [e.event.(sequence := |log| + 1)]
    ensures SettledAs(b, log, status, record, end, run, s, "")
  {
    assert end[|end| - 1] == e.event.(sequence := |log| + 1);
  }

  lemma ClosingAs(w: World, run: RunId, s: Snapshot, now: int, owner: EventId -> RunId)
    requires WorldOk(w) && run in w.bundles && run in w.db.runs && w.db.runs[run].status !in Terminal()
    requires Drained(w.bundles[run]) && !w.bundles[run].deleted && !w.bundles[run].cancelRequested
    requires s.hasValues && FinishedGraph(s) && Settle(w, run, false, s, "", now).1 == Fine
    requires OwnedEvents(w.db.events, owner) && OwnIds(w.bundles[run], run, owner)
    ensures var next := Settle(w, run, false, s, "", now).0;
      run in next.db.runs && SettledAs(w.bundles[run], Log(w.db.events, run), w.db.runs[run].status, next.db.runs[run],
        Log(next.db.events, run), run, s, "")
  {
    var b, log, e := w.bundles[run], Log(w.db.events, run), FinalEnvelope(run, s, s.finalStatus.value);
    if HasEnvelope(b, TerminalEventId(run)) {
      KnownClosingKeeps(w, run, s, now);
    } else {
      NewClosingDelivers(w, run, s, now);
      FinalDelivery(w.db, e, run, s, now, owner);
      if !HasEvent(log, TerminalEventId(run)) {
        var after := Step(w.db, ApplyOutbox(e.event, e.changes, now)).0;
        ClosedSettles(b, log, w.db.runs[run].status, after.runs[run], Log(after.events, run), run, s, e);
      }
    }
  }

  /** Delivering the closing event. */
  lemma FinalDelivery(db: Db, e: Envelope, run: RunId, s: Snapshot, now: int, owner: EventId -> RunId)
    requires Consistent(db) && run in db.runs && OwnedEvents(db.events, owner) && owner(TerminalEventId(run)) == run
    requires FinishedGraph(s) && e == FinalEnvelope(run, s, s.finalStatus.value)
    requires Step(db, ApplyOutbox(e.event, e.changes, now)).1.Done?
    ensures var after, log := Step(db, ApplyOutbox(e.event, e.changes, now)).0, Log(db.events, run);
      && run in after.runs
      && if HasEvent(log, TerminalEventId(run)) then after == db
         else
           && Finished(after.runs[run], s, s.finalStatus.value) && Closes(s.finalStatus.value, e.event.eventType)
           && Log(after.events, run) == log + [e.event.(sequence := |log| + 1)]
  {
    KnownFromOwnLog(db.events, owner, TerminalEventId(run));
    DeliveryEffect(db, e.event, e.changes, now);
    DeliveryLog(db, e, now, owner);
  }

  lemma SettleAs(w: World, run: RunId, s: Snapshot, id: EventId, now: int, owner: EventId -> RunId)
    requires WorldOk(w) && run in w.bundles && run in w.db.runs && w.db.runs[run].status !in Terminal()
    requires Drained(w.bundles[run]) && !w.bundles[run].deleted && owner(id) == run
    requires Settle(w, run, w.bundles[run].cancelRequested, s, id, now).1 == Fine
    requires OwnedEvents(w.db.events, owner) && OwnIds(w.bundles[run], run, owner)
    ensures var next := Settle(w, run, w.bundles[run].cancelRequested, s, id, now).0;
      run in next.db.runs && SettledAs(w.bundles[run], Log(w.db.events, run), w.db.runs[run].status, next.db.runs[run],
        Log(next.db.events, run), run, s, id)
  {
    if w.bundles[run].cancelRequested {
      TransitionAs(w, run, Cancelled, id, "run_cancelled", NO_CHANGES, now, owner);
    } else if !s.hasValues {
      TransitionAs(w, run, Failed, id, "run_failed", Failing(NO_CHECKPOINT), now, owner);
    } else if FinishedGraph(s) {
      ClosingAs(w, run, s, now, owner);
    } else {
      var status := if s.waiting then WaitingApproval else Interrupted;
      UpdateEffect(w.db, run, s.changes.(status := Some(status)), now);
    }
  }

  /** One run's reconciliation leaves exactly this. */
  lemma ReconcileRunAs(w: World, run: RunId, s: Snapshot, id: EventId, now: int, owner: EventId -> RunId)
    requires WorldOk(w) && run in w.bundles && owner(id) == run
    requires OwnedEvents(w.db.events, owner) && OwnIds(w.bundles[run], run, owner)
    requires ReconcileRun(w, run, s, id, now).1 == Fine
    ensures ReconciledAs(w, ReconcileRun(w, run, s, id, now).0, run, s, id)
  {
    var b := w.bundles[run];
    if b.deleted {
      DeletionAs(w, run, s, id, now);
    } else if run in w.db.runs {
      FlushTold(w, run, now, owner);
      FlushRunFacts(w, run, now);
      FlushLog(w.db, b, 0, now, run, owner);
      FlushOwned(w.db, b, 0, now, run, owner);
      var (db, flushed, reply) := FlushRun(w.db, b, now);
      if db.runs[run].status !in Terminal() {
        OpenAs(w, run, s, id, now, owner);
      }
    }
  }

  lemma DeletionAs(w: World, run: RunId, s: Snapshot, id: EventId, now: int)
    requires WorldOk(w) && run in w.bundles && w.bundles[run].deleted && ReconcileRun(w, run, s, id, now).1 == Fine
    ensures ReconciledAs(w, ReconcileRun(w, run, s, id, now).0, run, s, id)
  {
    DeleteEffect(w.db, run);
    NoRunNoLog(w.db.events, w.db.runs.Keys, run);
  }

  lemma OpenAs(w: World, run: RunId, s: Snapshot, id: EventId, now: int, owner: EventId -> RunId)
    requires WorldOk(w) && run in w.bundles && run in w.db.runs && !w.bundles[run].deleted && owner(id) == run
    requires OwnedEvents(w.db.events, owner) && OwnIds(w.bundles[run], run, owner)
    requires ReconcileRun(w, run, s, id, now).1 == Fine
    requires var (db, flushed, reply) := FlushRun(w.db, w.bundles[run], now);
      reply.Done? && run in db.runs && db.runs[run].status !in Terminal()
    ensures ReconciledAs(w, ReconcileRun(w, run, s, id, now).0, run, s, id)
  {
    var b := w.bundles[run];
    FlushTold(w, run, now, owner);
    FlushRunFacts(w, run, now);
    FlushLog(w.db, b, 0, now, run, owner);
    FlushOwned(w.db, b, 0, now, run, owner);
    FlushKeepsBundle(w.db, b, 0, now);
    var (db, flushed, reply) := FlushRun(w.db, b, now);
    var next := World(db, w.bundles[run := flushed]);
    SettleAs(next, run, s, id, now, owner);
    var after := ReconcileRun(w, run, s, id, now).0;
    SameEnds(flushed, b, LogAfter(Log(w.db.events, run), b, 0), db.runs[run].status, after.db.runs[run],
      Log(after.db.events, run), run, s, id);
  }

  /** Only the fence and the ids of the outbox matter. */
  lemma SameEnds(b: Bundle, c: Bundle, log: seq<RunEvent>, status: RunStatus, record: RunRecord, end: seq<RunEvent>,
      run: RunId, s: Snapshot, id: EventId)
    requires SettledAs(b, log, status, record, end, run, s, id) && b.cancelRequested == c.cancelRequested
    requires forall x :: HasEnvelope(b, x) <==> HasEnvelope(c, x)
    ensures SettledAs(c, log, status, record, end, run, s, id)
  {
  }

  // ----- The whole pass -----

  /** The first loop of `reconcile_startup`, up to the first exception. */
  function ReconcileAll(w: World, ids: seq<RunId>, snaps: RunId -> Snapshot, uuid: RunId -> EventId, now: int):
      (World, Outcome)
  {
    if ids == [] then (w, Fine)
    else
      var run := ids[|ids| - 1];
      var (next, outcome) := ReconcileAll(w, ids[..|ids| - 1], snaps, uuid, now);
      if outcome.Raised? || run !in next.bundles then (next, outcome)
      else ReconcileRun(next, run, snaps(run), uuid(run), now)
  }

  /** Tombstones stand only on runs that are terminal or gone. */
  ghost predicate TombstonesSafe(w: World) {
    forall run :: run in w.bundles && w.bundles[run].deleted && run in w.db.runs ==>
      w.db.runs[run].status in Terminal()
  }

  ghost predicate UntouchedOutside(before: World, after: World, ids: set<RunId>) {
    && (forall run :: run !in ids ==> (run in after.db.runs <==> run in before.db.runs))
    && (forall run :: run !in ids && run in before.db.runs ==> after.db.runs[run] == before.db.runs[run])
    && (forall run :: run !in ids ==> Log(after.db.events, run) == Log(before.db.events, run))
    && after.bundles.Keys == before.bundles.Keys
    && (forall run :: run !in ids && run in before.bundles ==> after.bundles[run] == before.bundles[run])
  }

  /** A run is done: reconciled now, and its tombstone, if any, was safe to begin with. */
  ghost predicate DoneFor(before: World, after: World, run: RunId, s: Snapshot) {
    && StableRun(after, run, s)
    && (run in before.bundles && before.bundles[run].deleted && run in before.db.runs ==>
         before.db.runs[run].status in Terminal())
  }

  lemma ReconcileNext(before: World, w: World, done: set<RunId>, run: RunId, s: Snapshot, id: EventId, now: int)
    requires WorldOk(w) && UntouchedOutside(before, w, done) && run !in done && run in w.bundles
    ensures var (next, outcome) := ReconcileRun(w, run, s, id, now);
      && WorldOk(next) && UntouchedOutside(before, next, done + {run}) && OnlyTouches(w, next, run)
      && (outcome.Raised? ==> outcome.write in {DeleteWrite, OutboxWrite})
      && (outcome.Raised? && outcome.write == DeleteWrite ==> !TombstonesSafe(before))
      && (outcome.Fine? ==> DoneFor(before, next, run, s))
  {
    ReconcileRunFacts(w, run, s, id, now);
  }

  lemma {:induction false} ReconcileAllFacts(w: World, ids: seq<RunId>, snaps: RunId -> Snapshot,
      uuid: RunId -> EventId, now: int)
    requires WorldOk(w) && AllDistinct(ids) && forall i :: 0 <= i < |ids| ==> ids[i] in w.bundles
    ensures var (next, outcome) := ReconcileAll(w, ids, snaps, uuid, now);
      && WorldOk(next) && UntouchedOutside(w, next, Elements(ids))
      && (outcome.Raised? ==> outcome.write in {DeleteWrite, OutboxWrite})
      && (outcome.Raised? && outcome.write == DeleteWrite ==> !TombstonesSafe(w))
      && (outcome.Fine? ==> forall run :: run in ids ==> DoneFor(w, next, run, snaps(run)))
  {
    if ids != [] {
      var n := |ids| - 1;
      var front, run := ids[..n], ids[n];
      ReconcileAllFacts(w, front, snaps, uuid, now);
      var (next, outcome) := ReconcileAll(w, front, snaps, uuid, now);
      assert run !in front && Elements(ids) == Elements(front) + {run};
      if outcome.Fine? {
        ReconcileNext(w, next, Elements(front), run, snaps(run), uuid(run), now);
        var (after, last) := ReconcileRun(next, run, snaps(run), uuid(run), now);
        forall r | r in front ensures last.Fine? ==> DoneFor(w, after, r, snaps(r)) {
          assert DoneFor(w, next, r, snaps(r));
          StableElsewhere(next, after, run, r, snaps(r));
        }
      }
    }
  }

  // ----- How the whole pass leaves the runs -----

  /** The event a write logs carries an id of its own run. */
  ghost predicate OwnsEvent(op: Op, owner: EventId -> RunId) {
    match op
    case AppendEvent(_, event, _) => owner(event.eventId) == event.runId
    case Transition(_, _, event, _, _) => event.Some? ==> owner(event.value.eventId) == event.value.runId
    case ApplyOutbox(event, _, _) => owner(event.eventId) == event.runId
    case UpsertSegment(run, _, eventId, _) => owner(eventId) == run
    case _ => true
  }

  lemma StepOwned(db: Db, op: Op, owner: EventId -> RunId)
    requires OwnedEvents(db.events, owner) && OwnsEvent(op, owner)
    ensures OwnedEvents(Step(db, op).0.events, owner)
  {
    match op
    case Delete(run) => WithoutOwned(db.events, run, owner);
    case _ =>
  }

  lemma {:induction false} WithoutOwned(events: seq<RunEvent>, run: RunId, owner: EventId -> RunId)
    requires OwnedEvents(events, owner)
    ensures OwnedEvents(Without(events, run), owner)
  {
    if events != [] {
      WithoutOwned(events[..|events| - 1], run, owner);
    }
  }

  lemma {:induction false} FlushOwned(db: Db, b: Bundle, i: nat, now: int, run: RunId, owner: EventId -> RunId)
    requires i <= |b.outbox| && OutboxOk(b.outbox, run) && OwnedEvents(db.events, owner)
    requires forall j :: 0 <= j < |b.outbox| ==> owner(b.outbox[j].event.eventId) == run
    ensures OwnedEvents(Flush(db, b, i, now).0.events, owner)
    decreases |b.outbox| - i
  {
    if i < |b.outbox| {
      var e := b.outbox[i];
      if e.delivered || Fenced(b, e) {
        FlushOwned(db, b, i + 1, now, run, owner);
      } else {
        var op := ApplyOutbox(e.event, e.changes, now);
        StepOwned(db, op, owner);
        if Step(db, op).1.Done? {
          FlushOwned(Step(db, op).0, Marked(b, i), i + 1, now, run, owner);
        }
      }
    }
  }

  lemma SettleOwned(w: World, run: RunId, cancelRequested: bool, s: Snapshot, id: EventId, now: int,
      owner: EventId -> RunId)
    requires WorldOk(w) && run in w.bundles && owner(id) == run
    requires OwnedEvents(w.db.events, owner) && OwnIds(w.bundles[run], run, owner)
    ensures OwnedEvents(Settle(w, run, cancelRequested, s, id, now).0.db.events, owner)
  {
    if cancelRequested {
      StepOwned(w.db, Transition(run, Cancelled, Some(Announcement(run, id, "run_cancelled")), NO_CHANGES, now), owner);
    } else if !s.hasValues {
      StepOwned(w.db,
        Transition(run, Failed, Some(Announcement(run, id, "run_failed")), Failing(NO_CHECKPOINT), now), owner);
    } else if FinishedGraph(s) {
      var b := Enqueue(w.bundles[run], FinalEnvelope(run, s, s.finalStatus.value));
      assert forall j :: 0 <= j < |b.outbox| ==> owner(b.outbox[j].event.eventId) == run;
      if !b.deleted {
        FlushOwned(w.db, b, 0, now, run, owner);
      }
    } else {
      var status := if s.waiting then WaitingApproval else Interrupted;
      StepOwned(w.db, Update(run, s.changes.(status := Some(status)), now), owner);
    }
  }

  /** Reconciling one run keeps every id with its run. */
  lemma ReconcileRunOwned(w: World, run: RunId, s: Snapshot, id: EventId, now: int, owner: EventId -> RunId)
    requires WorldOk(w) && run in w.bundles && owner(id) == run
    requires OwnedEvents(w.db.events, owner) && OwnIds(w.bundles[run], run, owner)
    ensures OwnedEvents(ReconcileRun(w, run, s, id, now).0.db.events, owner)
  {
    var b := w.bundles[run];
    if b.deleted {
      StepOwned(w.db, Delete(run), owner);
    } else if run in w.db.runs {
      FlushOwned(w.db, b, 0, now, run, owner);
      FlushRunFacts(w, run, now);
      FlushKeepsBundle(w.db, b, 0, now);
      var (db, flushed, reply) := FlushRun(w.db, b, now);
      var next := World(db, w.bundles[run := flushed]);
      if reply.Done? && db.runs[run].status !in Terminal() {
        assert forall j :: 0 <= j < |flushed.outbox| ==> flushed.outbox[j].event == b.outbox[j].event;
        assert OwnIds(flushed, run, owner);
        SettleOwned(next, run, b.cancelRequested, s, id, now, owner);
      }
    }
  }

  /** The whole first loop: a journaled run that survives it is settled if and only if it was not closed but open when
      startup began. */
  lemma {:induction false} ReconcileAllSettles(w: World, ids: seq<RunId>, snaps: RunId -> Snapshot,
      uuid: RunId -> EventId, now: int, owner: EventId -> RunId)
    requires WorldOk(w) && AllDistinct(ids) && (forall i :: 0 <= i < |ids| ==> ids[i] in w.bundles)
    requires Owned(w, owner) && forall run :: owner(uuid(run)) == run
    ensures var (next, outcome) := ReconcileAll(w, ids, snaps, uuid, now);
      && OwnedEvents(next.db.events, owner)
      && (outcome.Fine? ==> forall run :: run in ids && run in next.db.runs ==>
           (Settled(next.db.runs[run].status) <==> !ClosedOpen(w, run, snaps(run))))
  {
    if ids != [] {
      var n := |ids| - 1;
      var front, run := ids[..n], ids[n];
      assert run !in front && ids == front + [run];
      ReconcileAllSettles(w, front, snaps, uuid, now, owner);
      ReconcileAllFacts(w, front, snaps, uuid, now);
      var (next, outcome) := ReconcileAll(w, front, snaps, uuid, now);
      if outcome.Fine? {
        OneMoreSettles(w, next, Elements(front), run, snaps, uuid, now, owner);
      }
    }
  }

  /** The run whose turn it is looks as it did when startup began, and its turn settles no other run. */
  lemma OneMoreSettles(before: World, w: World, done: set<RunId>, run: RunId, snaps: RunId -> Snapshot,
      uuid: RunId -> EventId, now: int, owner: EventId -> RunId)
    requires WorldOk(w) && UntouchedOutside(before, w, done) && run !in done && run in before.bundles
    requires OwnedEvents(w.db.events, owner) && OwnIds(before.bundles[run], run, owner) && owner(uuid(run)) == run
    ensures var (next, outcome) := ReconcileRun(w, run, snaps(run), uuid(run), now);
      && OwnedEvents(next.db.events, owner)
      && (outcome.Fine? && run in next.db.runs ==>
           (Settled(next.db.runs[run].status) <==> !ClosedOpen(before, run, snaps(run))))
      && (forall other :: other != run ==> (other in next.db.runs <==> other in w.db.runs))
      && (forall other :: other != run && other in w.db.runs ==> next.db.runs[other] == w.db.runs[other])
  {
    ReconcileRunFacts(w, run, snaps(run), uuid(run), now);
    ReconcileRunOwned(w, run, snaps(run), uuid(run), now, owner);
    var (next, outcome) := ReconcileRun(w, run, snaps(run), uuid(run), now);
    if outcome.Fine? && run in next.db.runs {
      SettledExactly(w, run, snaps(run), uuid(run), now, owner);
    }
  }

  /** What was left of a run stays when another run is reconciled, and reads the same from an earlier start. */
  lemma ReconciledAsElsewhere(before: World, mid: World, after: World, touched: RunId, run: RunId, s: Snapshot,
      id: EventId)
    requires run in before.bundles && ReconciledAs(before, mid, run, s, id)
    requires touched != run && OnlyTouches(mid, after, touched)
    ensures ReconciledAs(before, after, run, s, id)
  {
  }

  lemma ReconciledAsFromStart(before: World, w: World, after: World, done: set<RunId>, run: RunId, s: Snapshot,
      id: EventId)
    requires run in before.bundles && UntouchedOutside(before, w, done) && run !in done
    requires ReconciledAs(w, after, run, s, id)
    ensures ReconciledAs(before, after, run, s, id)
  {
  }

  /** The whole first loop leaves every journaled run exactly so. */
  lemma {:induction false} ReconcileAllAs(w: World, ids: seq<RunId>, snaps: RunId -> Snapshot, uuid: RunId -> EventId,
      now: int, owner: EventId -> RunId)
    requires WorldOk(w) && AllDistinct(ids) && (forall i :: 0 <= i < |ids| ==> ids[i] in w.bundles)
    requires Owned(w, owner) && forall run :: owner(uuid(run)) == run
    requires ReconcileAll(w, ids, snaps, uuid, now).1 == Fine
    ensures var next := ReconcileAll(w, ids, snaps, uuid, now).0;
      && OwnedEvents(next.db.events, owner)
      && forall run :: run in ids ==> run in w.bundles && ReconciledAs(w, next, run, snaps(run), uuid(run))
  {
    if ids != [] {
      var n := |ids| - 1;
      var front, run := ids[..n], ids[n];
      assert run !in front && ids == front + [run];
      ReconcileAllAs(w, front, snaps, uuid, now, owner);
      ReconcileAllFacts(w, front, snaps, uuid, now);
      OneMoreAs(w, ReconcileAll(w, front, snaps, uuid, now).0, front, run, snaps, uuid, now, owner);
    }
  }

  lemma OneMoreAs(before: World, w: World, front: seq<RunId>, run: RunId, snaps: RunId -> Snapshot,
      uuid: RunId -> EventId, now: int, owner: EventId -> RunId)
    requires WorldOk(w) && UntouchedOutside(before, w, Elements(front)) && run !in front && run in before.bundles
    requires OwnedEvents(w.db.events, owner) && OwnIds(before.bundles[run], run, owner) && owner(uuid(run)) == run
    requires forall r :: r in front ==> r in before.bundles && ReconciledAs(before, w, r, snaps(r), uuid(r))
    requires ReconcileRun(w, run, snaps(run), uuid(run), now).1 == Fine
    ensures var next := ReconcileRun(w, run, snaps(run), uuid(run), now).0;
      && OwnedEvents(next.db.events, owner)
      && forall r :: r in front + [run] ==> r in before.bundles && ReconciledAs(before, next, r, snaps(r), uuid(r))
  {
    var next := ReconcileRun(w, run, snaps(run), uuid(run), now).0;
    ReconcileRunFacts(w, run, snaps(run), uuid(run), now);
    ReconcileRunOwned(w, run, snaps(run), uuid(run), now, owner);
    ReconcileRunAs(w, run, snaps(run), uuid(run), now, owner);
    ReconciledAsFromStart(before, w, next, Elements(front), run, snaps(run), uuid(run));
    forall r | r in front ensures ReconciledAs(before, next, r, snaps(r), uuid(r)) {
      ReconciledAsElsewhere(before, w, next, run, r, snaps(r), uuid(r));
    }
  }

  /** Nothing is left to do: every journaled run is stable and every other run is terminal. */
  ghost predicate Reconciled(w: World, snaps: RunId -> Snapshot) {
    && (forall run :: run in w.bundles ==> StableRun(w, run, snaps(run)))
    && (forall run :: run in w.db.runs && run !in w.bundles ==> w.db.runs[run].status in Terminal())
  }

  lemma {:induction false} ReconcileAllStable(w: World, ids: seq<RunId>, snaps: RunId -> Snapshot,
      uuid: RunId -> EventId, now: int)
    requires WorldOk(w) && forall run :: run in w.bundles ==> StableRun(w, run, snaps(run))
    ensures var (next, outcome) := ReconcileAll(w, ids, snaps, uuid, now);
      && outcome == Fine && WorldOk(next) && SameStatuses(w, next)
      && forall run :: run in next.bundles ==> StableRun(next, run, snaps(run))
  {
    if ids != [] {
      var run := ids[|ids| - 1];
      ReconcileAllStable(w, ids[..|ids| - 1], snaps, uuid, now);
      var next := ReconcileAll(w, ids[..|ids| - 1], snaps, uuid, now).0;
      if run in next.bundles {
        ReconcileStableRun(next, run, snaps(run), uuid(run), now);
        ReconcileRunFacts(next, run, snaps(run), uuid(run), now);
      }
    }
  }

  /** What the second loop does, in whatever order the store lists the runs: every unfinished run without a journal
      is failed, and nothing else changes. */
  ghost predicate LegacyClosed(before: World, after: World) {
    && after.bundles == before.bundles && after.db.runs.Keys == before.db.runs.Keys
    && (forall run :: run in before.db.runs ==>
         if run in before.bundles || before.db.runs[run].status in Terminal()
         then after.db.runs[run] == before.db.runs[run]
         else after.db.runs[run].status == Failed && after.db.runs[run].error == Some(LEGACY))
    && ((forall run :: run in before.db.runs && run !in before.bundles ==> before.db.runs[run].status in Terminal()) ==>
         after.db == before.db)
  }

  /** One run's share of the second loop. */
  ghost predicate LegacyOne(before: World, after: World, run: RunId) {
    && after.bundles == before.bundles && after.db.runs.Keys == before.db.runs.Keys && run in before.db.runs
    && (forall other :: other in before.db.runs && other != run ==> after.db.runs[other] == before.db.runs[other])
    && if run in before.bundles || before.db.runs[run].status in Terminal() then after.db == before.db
       else after.db.runs[run].status == Failed && after.db.runs[run].error == Some(LEGACY)
  }

  ghost predicate LegacyProgress(before: World, after: World, todo: set<RunId>) {
    && after.bundles == before.bundles && todo <= before.db.runs.Keys == after.db.runs.Keys
    && (forall run :: run in before.db.runs ==>
         if run in todo || run in before.bundles || before.db.runs[run].status in Terminal()
         then after.db.runs[run] == before.db.runs[run]
         else after.db.runs[run].status == Failed && after.db.runs[run].error == Some(LEGACY))
    && ((forall run :: run in before.db.runs && run !in before.bundles ==> before.db.runs[run].status in Terminal()) ==>
         after.db == before.db)
  }

  /** The logs of the second loop: each failed run gains one event, no other log changes. */
  ghost predicate LegacyLogs(before: World, after: World, todo: set<RunId>, uuid: RunId -> EventId) {
    forall run :: Log(after.db.events, run) ==
      var log := Log(before.db.events, run);
      if run in before.db.runs && run !in todo && run !in before.bundles && before.db.runs[run].status !in Terminal()
      then Announced(log, RunEvent(uuid(run), 0, run, "run_failed", "")) else log
  }

  /** One run's share of them. */
  ghost predicate LegacyLog(before: World, after: World, run: RunId, id: EventId) {
    && (forall other :: other != run ==> Log(after.db.events, other) == Log(before.db.events, other))
    && Log(after.db.events, run) ==
         var log := Log(before.db.events, run);
         if run in before.db.runs && run !in before.bundles && before.db.runs[run].status !in Terminal()
         then Announced(log, RunEvent(id, 0, run, "run_failed", "")) else log
  }

  lemma LegacyLogStep(before: World, mid: World, after: World, todo: set<RunId>, run: RunId, uuid: RunId -> EventId)
    requires run in todo && LegacyProgress(before, mid, todo)
    requires LegacyLogs(before, mid, todo, uuid) && LegacyLog(mid, after, run, uuid(run))
    ensures LegacyLogs(before, after, todo - {run}, uuid)
  {
  }

  lemma LegacyStep(before: World, mid: World, after: World, todo: set<RunId>, run: RunId)
    requires run in todo && LegacyProgress(before, mid, todo) && LegacyOne(mid, after, run)
    ensures LegacyProgress(before, after, todo - {run})
  {
  }

  /** Every run that survives startup is settled if and only if it was not closed but open before. */
  ghost predicate LeavesSettled(before: World, after: World, snaps: RunId -> Snapshot) {
    forall run :: run in after.db.runs ==>
      (Settled(after.db.runs[run].status) <==> !(run in before.bundles && ClosedOpen(before, run, snaps(run))))
  }

  /** What startup leaves, run by run: a journaled run as told from what was found, any other run closed as a legacy
      one. */
  ghost predicate LeavesExactly(before: World, after: World, snaps: RunId -> Snapshot, uuid: RunId -> EventId) {
    && (forall run :: run in before.bundles ==> ReconciledAs(before, after, run, snaps(run), uuid(run)))
    && (forall run :: run in before.db.runs && run !in before.bundles ==>
         LegacyLeft(before, after, run, uuid(run)))
    && (forall run :: run in after.db.runs ==> run in before.db.runs)
  }

  /** A run without a journal: left alone when it is finished, otherwise failed with one event. */
  ghost predicate LegacyLeft(before: World, after: World, run: RunId, id: EventId)
    requires run in before.db.runs
  {
    var log, end := Log(before.db.events, run), Log(after.db.events, run);
    && run in after.db.runs
    && if before.db.runs[run].status in {Completed, CompletedWithWarnings, Failed, Cancelled}
       then after.db.runs[run] == before.db.runs[run] && end == log
       else
         && after.db.runs[run].status == Failed
         && after.db.runs[run].error == Some("Legacy in-memory execution has no durable checkpoint; create a new Run")
         && end == Announced(log, RunEvent(id, 0, run, "run_failed", ""))
  }

  /** The service at startup: the run store it writes and the journal it reads and fences. */
  class RunService {
    const store: SQLiteRunStore
    var journal: map<RunId, Bundle>

    constructor (store: SQLiteRunStore, journal: map<RunId, Bundle>)
      ensures this.store == store && this.journal == journal
    {
      this.store := store;
      this.journal := journal;
    }

    ghost function Abs(): World
      reads this, store
    {
      World(store.Abs(), journal)
    }

    method FlushJournal(run: RunId, now: int) returns (reply: Reply)
      requires run in journal
      modifies this, store
      ensures var (db, flushed, r) := FlushRun(old(store.Abs()), old(journal)[run], now);
        store.Abs() == db && journal == old(journal)[run := flushed] && reply == r
    {
      if journal[run].deleted {
        assert journal == journal[run := journal[run]];
        return Done;
      }
      ghost var result := FlushRun(store.Abs(), journal[run], now);
      var i := 0;
      while i < |journal[run].outbox|
        invariant run in journal && i <= |journal[run].outbox|
        invariant journal == old(journal)[run := journal[run]]
        invariant result == Flush(store.Abs(), journal[run], i, now)
        decreases |journal[run].outbox| - i
      {
        var b := journal[run];
        var e := b.outbox[i];
        if !e.delivered && !Fenced(b, e) {
          reply := store.ApplyOutboxEvent(e.event, e.changes, now);
          if reply.Refused? {
            return reply;
          }
          journal := journal[run := Marked(b, i)];
        }
        i := i + 1;
      }
      return Done;
    }

    method ReconcileOne(run: RunId, s: Snapshot, id: EventId, now: int) returns (outcome: Outcome)
      requires run in journal
      modifies this, store
      ensures (Abs(), outcome) == ReconcileRun(old(Abs()), run, s, id, now)
    {
      var bundle := journal[run];
      if bundle.deleted {
        var reply := store.DeleteRun(run);
        return if reply.Refused? && reply.why != NotFound then Raised(DeleteWrite, run, reply.why) else Fine;
      }
      if run !in store.runs {
        journal := journal[run := CancelBundle(bundle, true)];
        return Fine;
      }
      var flushed := FlushJournal(run, now);
      if flushed.Refused? {
        return Raised(OutboxWrite, run, flushed.why);
      }
      if run in store.runs && store.runs[run].status in Terminal() {
        return Fine;
      }
      outcome := SettleOne(run, bundle.cancelRequested, s, id, now);
    }

    method SettleOne(run: RunId, cancelRequested: bool, s: Snapshot, id: EventId, now: int) returns (outcome: Outcome)
      requires run in journal
      modifies this, store
      ensures (Abs(), outcome) == Settle(old(Abs()), run, cancelRequested, s, id, now)
    {
      var reply: Reply;
      if cancelRequested {
        reply := store.TransitionRun(run, Cancelled, Some(Announcement(run, id, "run_cancelled")), NO_CHANGES, now);
        return if reply.Refused? then Raised(TransitionWrite, run, reply.why) else Fine;
      }
      if !s.hasValues {
        reply := store.TransitionRun(
          run, Failed, Some(Announcement(run, id, "run_failed")), Failing(NO_CHECKPOINT), now);
        return if reply.Refused? then Raised(TransitionWrite, run, reply.why) else Fine;
      }
      if FinishedGraph(s) {
        journal := journal[run := Enqueue(journal[run], FinalEnvelope(run, s, s.finalStatus.value))];
        ghost var queued := journal;
        reply := FlushJournal(run, now);
        assert journal == old(journal)[run := journal[run]];
        return if reply.Refused? then Raised(OutboxWrite, run, reply.why) else Fine;
      }
      var status := if s.waiting then WaitingApproval else Interrupted;
      reply := store.UpdateRun(run, s.changes.(status := Some(status)), now);
      return if reply.Refused? then Raised(UpdateWrite, run, reply.why) else Fine;
    }

    method FailLegacyRuns(uuid: RunId -> EventId, now: int, ghost owner: EventId -> RunId)
      requires WorldOk(Abs())
      modifies store
      ensures WorldOk(Abs()) && LegacyClosed(old(Abs()), Abs())
      ensures old(OwnedEvents(Abs().db.events, owner)) && (forall run :: owner(uuid(run)) == run) ==>
        LegacyLogs(old(Abs()), Abs(), {}, uuid)
    {
      ghost var before := Abs();
      ghost var owned := OwnedEvents(before.db.events, owner) && forall run :: owner(uuid(run)) == run;
      var todo := store.runs.Keys;
      while todo != {}
        invariant WorldOk(Abs()) && LegacyProgress(before, Abs(), todo)
        invariant owned ==> OwnedEvents(Abs().db.events, owner) && LegacyLogs(before, Abs(), todo, uuid)
        decreases todo
      {
        var run :| run in todo;
        ghost var mid := Abs();
        FailLegacyRun(run, uuid(run), now, owner);
        LegacyStep(before, mid, Abs(), todo, run);
        if owned {
          LegacyLogStep(before, mid, Abs(), todo, run, uuid);
        }
        todo := todo - {run};
      }
    }

    method FailLegacyRun(run: RunId, id: EventId, now: int, ghost owner: EventId -> RunId)
      requires WorldOk(Abs()) && run in store.runs
      modifies store
      ensures WorldOk(Abs()) && LegacyOne(old(Abs()), Abs(), run)
      ensures old(OwnedEvents(Abs().db.events, owner)) && owner(id) == run ==>
        OwnedEvents(Abs().db.events, owner) && LegacyLog(old(Abs()), Abs(), run, id)
    {
      if store.runs[run].status !in Terminal() && run !in journal {
        TerminalWriteAllowed(store.Abs(), run, Failed, id, "run_failed", Failing(LEGACY), now);
        if OwnedEvents(store.events, owner) && owner(id) == run {
          TransitionAs(Abs(), run, Failed, id, "run_failed", Failing(LEGACY), now, owner);
          StepOwned(store.Abs(),
            Transition(run, Failed, Some(Announcement(run, id, "run_failed")), Failing(LEGACY), now), owner);
        }
        var reply := store.TransitionRun(
          run, Failed, Some(Announcement(run, id, "run_failed")), Failing(LEGACY), now);
      }
    }

    /** Startup. An exception is only ever the refused deletion of an unsafe tombstone or a refused outbox delivery;
        otherwise everything ends reconciled, and reconciling again changes no status and logs no event. */
    method ReconcileStartup(ids: seq<RunId>, snaps: RunId -> Snapshot, uuid: RunId -> EventId, now: int,
        ghost owner: EventId -> RunId) returns (outcome: Outcome)
      requires WorldOk(Abs()) && AllDistinct(ids) && Elements(ids) == journal.Keys
      modifies this, store
      ensures WorldOk(Abs())
      ensures outcome.Raised? ==> outcome.write in {DeleteWrite, OutboxWrite}
      ensures outcome.Raised? && outcome.write == DeleteWrite ==> !old(TombstonesSafe(Abs()))
      ensures outcome.Fine? ==> old(TombstonesSafe(Abs())) && Reconciled(Abs(), snaps)
      ensures old(Reconciled(Abs(), snaps)) ==> outcome.Fine? && SameStatuses(old(Abs()), Abs())
      // When every event id belongs to one run, exactly the closed but open runs are left pending or running.
      ensures outcome.Fine? && old(Owned(Abs(), owner)) && (forall run :: owner(uuid(run)) == run) ==>
        LeavesSettled(old(Abs()), Abs(), snaps)
      // And it leaves every journaled run and every other log exactly so.
      ensures outcome.Fine? && old(Owned(Abs(), owner)) && (forall run :: owner(uuid(run)) == run) ==>
        LeavesExactly(old(Abs()), Abs(), snaps, uuid)
    {
      ghost var before := Abs();
      ReconcileAllFacts(before, ids, snaps, uuid, now);
      if Owned(before, owner) && forall run :: owner(uuid(run)) == run {
        ReconcileAllSettles(before, ids, snaps, uuid, now, owner);
      }
      if Reconciled(before, snaps) {
        ReconcileAllStable(before, ids, snaps, uuid, now);
      }
      outcome := ReconcileEach(ids, snaps, uuid, now);
      ghost var between := Abs();
      if outcome.Raised? {
        return;
      }
      if Owned(before, owner) && forall run :: owner(uuid(run)) == run {
        ReconcileAllAs(before, ids, snaps, uuid, now, owner);
      }
      FailLegacyRuns(uuid, now, owner);
      StartupFacts(before, between, Abs(), ids, snaps);
      LegacySettles(before, between, Abs(), ids, snaps);
      if Owned(before, owner) && forall run :: owner(uuid(run)) == run {
        LegacyKeepsAs(before, between, Abs(), ids, snaps, uuid);
      }
    }

    method ReconcileEach(ids: seq<RunId>, snaps: RunId -> Snapshot, uuid: RunId -> EventId, now: int)
        returns (outcome: Outcome)
      requires Elements(ids) == journal.Keys
      modifies this, store
      ensures (Abs(), outcome) == ReconcileAll(old(Abs()), ids, snaps, uuid, now)
    {
      ghost var before := Abs();
      for i := 0 to |ids|
        invariant (Abs(), Fine) == ReconcileAll(before, ids[..i], snaps, uuid, now)
        invariant journal.Keys == before.bundles.Keys
      {
        PrefixFacts(before, ids, i, snaps, uuid, now);
        outcome := ReconcileOne(ids[i], snaps(ids[i]), uuid(ids[i]), now);
        if outcome.Raised? {
          RaisedStays(before, ids, i + 1, snaps, uuid, now);
          return;
        }
      }
      assert ids[..|ids|] == ids;
      return Fine;
    }
  }

  lemma PrefixFacts(w: World, ids: seq<RunId>, i: nat, snaps: RunId -> Snapshot, uuid: RunId -> EventId, now: int)
    requires i < |ids| && ReconcileAll(w, ids[..i], snaps, uuid, now).1 == Fine
    ensures ids[i] in ReconcileAll(w, ids[..i], snaps, uuid, now).0.bundles ==>
      ReconcileAll(w, ids[..i + 1], snaps, uuid, now) ==
      ReconcileRun(ReconcileAll(w, ids[..i], snaps, uuid, now).0, ids[i], snaps(ids[i]), uuid(ids[i]), now)
  {
    assert ids[..i + 1][..i] == ids[..i];
  }

  lemma {:induction false} RaisedStays(w: World, ids: seq<RunId>, i: nat, snaps: RunId -> Snapshot,
      uuid: RunId -> EventId, now: int)
    requires i <= |ids| && ReconcileAll(w, ids[..i], snaps, uuid, now).1.Raised?
    ensures ReconcileAll(w, ids, snaps, uuid, now) == ReconcileAll(w, ids[..i], snaps, uuid, now)
    decreases |ids| - i
  {
    if i == |ids| {
      assert ids[..i] == ids;
    } else {
      assert ids[..i + 1][..i] == ids[..i];
      RaisedStays(w, ids, i + 1, snaps, uuid, now);
    }
  }

  /** The second loop settles the runs without a journal and leaves the others as the first loop did. */
  lemma LegacySettles(before: World, between: World, after: World, ids: seq<RunId>, snaps: RunId -> Snapshot)
    requires Elements(ids) == before.bundles.Keys == between.bundles.Keys && LegacyClosed(between, after)
    ensures (forall run :: run in ids && run in between.db.runs ==>
        (Settled(between.db.runs[run].status) <==> !ClosedOpen(before, run, snaps(run))))
      ==> LeavesSettled(before, after, snaps)
  {
  }

  lemma LegacyKeepsAs(before: World, between: World, after: World, ids: seq<RunId>, snaps: RunId -> Snapshot,
      uuid: RunId -> EventId)
    requires Elements(ids) == before.bundles.Keys == between.bundles.Keys
    requires UntouchedOutside(before, between, Elements(ids))
    requires forall run :: run in ids ==>
      run in before.bundles && ReconciledAs(before, between, run, snaps(run), uuid(run))
    requires LegacyClosed(between, after) && LegacyLogs(between, after, {}, uuid)
    ensures LeavesExactly(before, after, snaps, uuid)
  {
    forall run | run in before.bundles ensures ReconciledAs(before, after, run, snaps(run), uuid(run)) {
      assert run in ids && run in between.bundles;
      JournaledKept(before, between, after, run, snaps(run), uuid(run));
    }
    forall run | run in before.db.runs && run !in before.bundles ensures LegacyLeft(before, after, run, uuid(run)) {
      assert run !in between.bundles && run !in Elements(ids);
      UntouchedRun(before, between, Elements(ids), run);
      LegacyLogOf(between, after, run, uuid);
      LegacyRecordOf(between, after, run);
      UnjournaledLeft(before, after, run, uuid(run));
    }
    forall run | run in after.db.runs ensures run in before.db.runs {
      if run in before.bundles {
        assert run in ids && ReconciledAs(before, between, run, snaps(run), uuid(run));
      }
    }
  }

  lemma UnjournaledLeft(before: World, after: World, run: RunId, id: EventId)
    requires run in before.db.runs && run in after.db.runs
    requires if before.db.runs[run].status in Terminal() then after.db.runs[run] == before.db.runs[run]
      else after.db.runs[run].status == Failed && after.db.runs[run].error == Some(LEGACY)
    requires var log := Log(before.db.events, run);
      Log(after.db.events, run) ==
        if before.db.runs[run].status in Terminal() then log
        else Announced(log, RunEvent(id, 0, run, "run_failed", ""))
    ensures LegacyLeft(before, after, run, id)
  {
  }

  lemma UntouchedRun(before: World, after: World, ids: set<RunId>, run: RunId)
    requires UntouchedOutside(before, after, ids) && run !in ids && run in before.db.runs
    ensures run in after.db.runs && after.db.runs[run] == before.db.runs[run]
    ensures Log(after.db.events, run) == Log(before.db.events, run)
  {
  }

  lemma LegacyLogOf(between: World, after: World, run: RunId, uuid: RunId -> EventId)
    requires LegacyLogs(between, after, {}, uuid) && run in between.db.runs && run !in between.bundles
    ensures var log := Log(between.db.events, run);
      Log(after.db.events, run) ==
        if between.db.runs[run].status in Terminal() then log
        else Announced(log, RunEvent(uuid(run), 0, run, "run_failed", ""))
  {
  }

  lemma LegacyRecordOf(between: World, after: World, run: RunId)
    requires LegacyClosed(between, after) && run in between.db.runs && run !in between.bundles
    ensures run in after.db.runs
    ensures if between.db.runs[run].status in Terminal() then after.db.runs[run] == between.db.runs[run]
      else after.db.runs[run].status == Failed && after.db.runs[run].error == Some(LEGACY)
  {
  }

  lemma JournaledKept(before: World, between: World, after: World, run: RunId, s: Snapshot, id: EventId)
    requires run in before.bundles && ReconciledAs(before, between, run, s, id) && run in between.bundles
    requires after.bundles == between.bundles && after.db.runs.Keys == between.db.runs.Keys
    requires run in between.db.runs ==> after.db.runs[run] == between.db.runs[run]
    requires Log(after.db.events, run) == Log(between.db.events, run)
    ensures ReconciledAs(before, after, run, s, id)
  {
  }

  lemma StartupFacts(before: World, between: World, after: World, ids: seq<RunId>, snaps: RunId -> Snapshot)
    requires Elements(ids) == before.bundles.Keys == between.bundles.Keys
    requires forall run :: run in ids ==> DoneFor(before, between, run, snaps(run))
    requires LegacyClosed(between, after)
    ensures Reconciled(after, snaps)
    ensures Reconciled(before, snaps) && SameStatuses(before, between) ==> SameStatuses(before, after)
  {
    forall run | run in after.bundles ensures StableRun(after, run, snaps(run)) {
      assert DoneFor(before, between, run, snaps(run));
    }
  }
}
