/** The life of one run under service commands, its background task, crashes and startup: where tombstones can stand,
    and how startup leaves the run (backend/src/atlasflow/service.py `delete`, `conversation_deletion`,
    `_cancel_locked`, `resume`, `_apply_execution`, `_interrupt_execution`; backend/src/atlasflow/execution/runtime.py
    `cancel`, `emit`, `flush_run`). */
module Tombstones {
  import opened Common
  import opened RunLedger
  import Startup

  /** An open outbox entry: the status it projects, and whether the ledger already has its event. */
  datatype Entry = Entry(projected: Option<RunStatus>, known: bool)

  /** The journal of the run, open entries in order; `closing` once the closing event was recorded. */
  datatype Journal = Journal(deleted: bool, cancelRequested: bool, pending: seq<Entry>, closing: bool)

  /** Working: the coroutine runs the graph or records its result. Failing: in its exception handler. Leaving: only the
      release of its claim is left, and the task is not done yet. */
  datatype Phase = NoTask | Working | Failing | Leaving

  /** Checked: `resume` holds the run lock and has passed all its checks. Announced: its event is in the outbox and it
      holds the claim, but no task runs for it. */
  datatype Resume = Idle | Checked | Announced

  /** status is None while the run is not in the store; `finished` once the graph has nothing left to run. `deleting`: a
      deletion passed its check and holds the run lock. */
  datatype Life = Life(
    up: bool, born: bool, status: Option<RunStatus>, journal: Option<Journal>, finished: bool,
    task: Phase, resume: Resume, deleting: bool)

  const NEW := Life(true, false, None, None, false, NoTask, Idle, false)

  datatype Step =
    | Create
    | Bind
    | Transition(to: RunStatus)
    | LaunchFails
    | TaskRuns
    | GraphFinishes
    | TaskEnqueues
    | TaskCloses(to: RunStatus)
    | TaskFails
    | TaskInterrupts
    | TaskLeaves
    | TaskEnds
    | EntryApplied
    | EntryMarked
    | ResumeChecks
    | ResumeAborts
    | ResumeEnqueues
    | ResumeDone
    | CancelFence
    | DeleteBegin
    | Tombstone
    | StoreDelete
    | DeleteEnd
    | Shutdown(interrupted: bool)
    | StartupDelete
    | StartupTombstone
    | StartupCloses(to: RunStatus)
    | StartupSettles(to: RunStatus)
    | StartupDone

  predicate IsTerminal(status: Option<RunStatus>) {
    status.Some? && status.value in Terminal()
  }

  predicate GoneOrTerminal(status: Option<RunStatus>) {
    status.None? || status.value in Terminal()
  }

  /** Whoever may deliver: the working task, a resume that announced, startup. */
  predicate MayDeliver(s: Life) {
    !s.up || s.task.Working? || (s.resume.Announced? && !s.deleting)
  }

  predicate HasOpenEntry(s: Life) {
    s.journal.Some? && !s.journal.value.deleted && s.journal.value.pending != []
  }

  /** The journal takes a status entry: it is neither deleted nor fenced against it. */
  predicate Takes(j: Journal, projected: Option<RunStatus>) {
    !j.deleted && (j.cancelRequested ==> Keeps(projected))
  }

  /** Which steps the code can take next. A run is created at most once, and only stored runs are ever deleted. A
      deletion, a cancellation and a resume hold the run lock from their checks on; `resume` does not look at the
      task. */
  predicate Enabled(s: Life, step: Step) {
    match step
    case Create => s.up && !s.born
    case Bind => s.up && s.born && s.journal.None?
    case Transition(to) =>
      s.up && s.status.Some? && (to == s.status.value || to in AllowedTransitions(s.status.value)) && !to.Interrupted?
    case LaunchFails => s.up && s.status == Some(Pending) && s.task.NoTask? && s.resume.Idle?
    case TaskRuns =>
      s.up && s.journal.Some? && s.task.NoTask? && s.resume.Idle? && s.status != Some(Interrupted)
    case GraphFinishes => s.task.Working?
    case TaskEnqueues => s.task.Working? && s.journal.Some?
    case TaskCloses(to) => s.task.Working? && s.journal.Some? && s.finished && to in Terminal()
    case TaskFails => s.task.Working?
    case TaskInterrupts => s.task.Failing? && s.status.Some? && s.status.value !in Terminal()
    case TaskLeaves => s.task.Working? || s.task.Failing?
    case TaskEnds => s.task.Leaving?
    case EntryApplied => MayDeliver(s) && HasOpenEntry(s) && s.status.Some?
    case EntryMarked => MayDeliver(s) && HasOpenEntry(s) && Closed(s.journal.value, s.journal.value.pending[0])
    case ResumeChecks =>
      s.up && !s.deleting && s.resume.Idle? && s.status == Some(Interrupted) && !s.finished
      && s.journal.Some? && !s.journal.value.deleted && !s.journal.value.cancelRequested
    case ResumeAborts => s.resume.Checked?
    case ResumeEnqueues => s.resume.Checked? && s.journal.Some?
    case ResumeDone =>
      s.up && s.resume.Announced? && s.task.NoTask? && s.journal.Some? && s.journal.value.pending == []
    case CancelFence =>
      s.up && !s.deleting && !s.resume.Checked? && s.journal.Some? && s.status.Some? && !IsTerminal(s.status)
    case DeleteBegin => s.up && s.born && !s.deleting && !s.resume.Checked? && GoneOrTerminal(s.status)
    case Tombstone => s.up && s.deleting && s.journal.Some?
    case StoreDelete => s.up && s.deleting && IsTerminal(s.status)
    case DeleteEnd => s.deleting
    case Shutdown(interrupted) => interrupted ==> s.status.Some? && s.status.value !in Terminal()
    case StartupDelete => !s.up && s.journal.Some? && s.journal.value.deleted && IsTerminal(s.status)
    case StartupTombstone => !s.up && s.journal.Some? && !s.journal.value.deleted && s.status.None?
    case StartupCloses(to) =>
      !s.up && StillOpen(s) && s.journal.Some? && !s.journal.value.cancelRequested && s.finished && to in Terminal()
    case StartupSettles(to) =>
      !s.up && StillOpen(s) && Startup.Settled(to)
      && (s.journal.Some? ==> s.journal.value.cancelRequested || !s.finished)
    case StartupDone => !s.up && (s.journal.Some? ==> s.journal.value.pending == [])
  }

  /** What startup finds after the flush of a run that is not terminal. */
  predicate StillOpen(s: Life) {
    && s.status.Some? && !IsTerminal(s.status)
    && (s.journal.Some? ==> !s.journal.value.deleted && s.journal.value.pending == [])
  }

  predicate Keeps(p: Option<RunStatus>) {
    p.None? || p == Some(Cancelled)
  }

  /** The flush is through with the entry: its event is in the ledger, or the fence skips it. */
  predicate Closed(j: Journal, e: Entry) {
    e.known || (j.cancelRequested && !Keeps(e.projected))
  }

  function Unfenced(pending: seq<Entry>): (r: seq<Entry>)
    ensures forall e :: e in r <==> e in pending && Keeps(e.projected)
  {
    Filter(pending, (e: Entry) => Keeps(e.projected))
  }

  /** `apply_outbox` on the oldest entry, before it is marked delivered: a known or fenced one changes nothing. */
  function Applied(s: Life): Life
    requires HasOpenEntry(s) && s.status.Some?
  {
    var j := s.journal.value;
    var e := j.pending[0];
    if Closed(j, e) then s
    else s.(
      status := if e.projected.None? then s.status else e.projected,
      journal := Some(j.(pending := [e.(known := true)] + j.pending[1..])))
  }

  function Marked(s: Life): Life
    requires HasOpenEntry(s)
  {
    var j := s.journal.value;
    s.(journal := Some(j.(pending := j.pending[1..])))
  }

  function Buried(s: Life): Life
    requires s.journal.Some?
  {
    s.(journal := Some(Journal(true, true, [], s.journal.value.closing)), resume := Idle)
  }

  function Enqueued(s: Life, projected: Option<RunStatus>): Life
    requires s.journal.Some?
  {
    var j := s.journal.value;
    if !Takes(j, projected) then s else s.(journal := Some(j.(pending := j.pending + [Entry(projected, false)])))
  }

  /** The closing event has one id, so it is recorded once. */
  function Closing(s: Life, to: RunStatus): Life
    requires s.journal.Some?
  {
    var j := s.journal.value;
    if j.closing || !Takes(j, Some(to)) then s
    else s.(journal := Some(j.(pending := j.pending + [Entry(Some(to), false)], closing := true)))
  }

  function Apply(s: Life, step: Step): Life
    requires Enabled(s, step)
  {
    match step
    case Create => s.(born := true, status := Some(Pending))
    case Bind => s.(journal := Some(Journal(false, false, [], false)))
    case Transition(to) => s.(status := Some(to))
    case LaunchFails => s.(status := Some(Interrupted))
    case TaskRuns => s.(task := Working)
    case GraphFinishes => s.(finished := true)
    case TaskEnqueues => Enqueued(s, None)
    case TaskCloses(to) => Closing(s, to)
    case TaskFails => s.(task := Failing)
    case TaskInterrupts => s.(status := Some(Interrupted), task := Leaving)
    case TaskLeaves => s.(task := Leaving)
    case TaskEnds => s.(task := NoTask)
    case EntryApplied => Applied(s)
    case EntryMarked => Marked(s)
    case ResumeChecks => s.(resume := Checked)
    case ResumeAborts => s.(resume := Idle)
    case ResumeEnqueues => Enqueued(s, Some(Running)).(resume := Announced)
    case ResumeDone => s.(resume := Idle, task := Working)
    case CancelFence =>
      var j := s.journal.value;
      s.(resume := Idle, journal := Some(Journal(j.deleted, true, Unfenced(j.pending), j.closing)))
    case DeleteBegin => s.(deleting := true)
    case Tombstone => Buried(s)
    case StoreDelete => s.(status := None)
    case DeleteEnd => s.(deleting := false)
    case Shutdown(interrupted) =>
      s.(up := false, task := NoTask, resume := Idle, deleting := false,
        status := if interrupted then Some(Interrupted) else s.status)
    case StartupDelete => s.(status := None)
    case StartupTombstone => Buried(s)
    case StartupCloses(to) => Closing(s, to)
    case StartupSettles(to) => s.(status := Some(to))
    case StartupDone => s.(up := true)
  }

  // ----- The status the journal still has to deliver -----

  /** The status after all open entries are delivered. */
  function Final(pending: seq<Entry>, status: RunStatus): RunStatus {
    if pending == [] then status
    else
      var e := pending[0];
      Final(pending[1..], if e.known || e.projected.None? then status else e.projected.value)
  }

  lemma {:induction false} FinalSnoc(pending: seq<Entry>, e: Entry, status: RunStatus)
    ensures Final(pending + [e], status) ==
      if e.known || e.projected.None? then Final(pending, status) else e.projected.value
  {
    if pending == [] {
      assert [e][1..] == [] && pending + [e] == [e];
    } else {
      assert (pending + [e])[1..] == pending[1..] + [e];
      FinalSnoc(pending[1..], e,
        if pending[0].known || pending[0].projected.None? then status else pending[0].projected.value);
    }
  }

  /** Either the open entries leave every status alone, or they end in one status whatever it was. */
  lemma {:induction false} FinalForgets(pending: seq<Entry>, a: RunStatus, b: RunStatus)
    ensures (Final(pending, a) == a && Final(pending, b) == b) || Final(pending, a) == Final(pending, b)
  {
    if pending != [] && (pending[0].known || pending[0].projected.None?) {
      FinalForgets(pending[1..], a, b);
    }
  }

  // ----- The invariant -----

  /** A tombstone stands only on a run that is terminal or gone. */
  predicate TombstoneSafe(s: Life) {
    s.journal.Some? && s.journal.value.deleted ==> GoneOrTerminal(s.status)
  }

  /** Once the closing event is recorded, on a journal that is neither fenced nor deleted, the run ends terminal. */
  predicate EndsClosed(s: Life) {
    s.journal.Some? && s.status.Some? ==>
      var j := s.journal.value;
      j.closing && !j.deleted && !j.cancelRequested ==> Final(j.pending, s.status.value) in Terminal()
  }

  predicate Reviving(e: Entry) {
    e.projected.Some? && e.projected.value !in Terminal()
  }

  /** The announcement of a resume is still to be applied. */
  ghost predicate Announcing(s: Life) {
    s.journal.Some? && Entry(Some(Running), false) in s.journal.value.pending
  }

  /** Who can be at work together: while the run is interrupted, or a resume is under way, no task is working. */
  ghost predicate Exclusive(s: Life) {
    && (s.deleting ==> s.up && s.born && GoneOrTerminal(s.status) && !s.resume.Checked?)
    && (!s.task.NoTask? ==> s.up)
    && (!s.resume.Idle? ==> s.up && (s.task.NoTask? || s.task.Leaving?))
    && (s.up && s.status == Some(Interrupted) ==> s.task.NoTask? || s.task.Leaving?)
    && (s.resume.Checked? ==>
         !s.finished && s.journal.Some? && !s.journal.value.deleted && !s.journal.value.cancelRequested)
    && (s.resume.Announced? ==> s.status != Some(Interrupted) || Announcing(s))
  }

  ghost predicate JournalOk(s: Life, j: Journal) {
    && (j.deleted ==> j.pending == [])
    && (j.cancelRequested ==> forall e :: e in j.pending ==> Keeps(e.projected))
    && (j.closing ==> s.finished)
    && (forall e :: e in j.pending && e.projected.Some? ==> e.projected.value in Terminal() + {Running})
    // Entries that could revive a finished run exist only for a resume that has not got through.
    && (s.up && !s.resume.Announced? ==> forall e :: e in j.pending ==> !Reviving(e))
  }

  /** What every reachable state keeps. */
  ghost predicate Invariant(s: Life) {
    && TombstoneSafe(s) && EndsClosed(s) && Exclusive(s)
    && (!s.born ==> s.status.None? && s.journal.None?)
    && (s.journal.Some? ==> JournalOk(s, s.journal.value))
  }

  lemma AppliedKeepsInvariant(s: Life)
    requires Invariant(s) && MayDeliver(s) && HasOpenEntry(s) && s.status.Some?
    ensures Invariant(Applied(s))
  {
    var j := s.journal.value;
    var e := j.pending[0];
    var t := Applied(s);
    assert j.pending == [e] + j.pending[1..] && e in j.pending;
    if !Closed(j, e) {
      assert t.journal.value.pending[1..] == j.pending[1..];
      if s.resume.Announced? && t.status == Some(Interrupted) {
        StillAnnouncing(j.pending);
      }
    }
  }

  /** Applying an entry that projects no status leaves the announcement where it is. */
  lemma StillAnnouncing(pending: seq<Entry>)
    requires pending != []
    ensures pending[0].projected.None? && Entry(Some(Running), false) in pending ==>
      Entry(Some(Running), false) in [pending[0].(known := true)] + pending[1..]
  {
    assert pending == [pending[0]] + pending[1..];
  }

  lemma MarkedKeepsInvariant(s: Life)
    requires Invariant(s) && MayDeliver(s) && HasOpenEntry(s) && Closed(s.journal.value, s.journal.value.pending[0])
    ensures Invariant(Marked(s))
  {
    var j := s.journal.value;
    assert j.pending == [j.pending[0]] + j.pending[1..] && j.pending[0] in j.pending;
  }

  lemma EnqueuedKeepsInvariant(s: Life, projected: Option<RunStatus>, announces: bool)
    requires Invariant(s) && s.journal.Some?
    requires if announces then projected == Some(Running) && s.resume.Checked?
      else projected.None? && s.task.Working?
    requires announces ==> !s.journal.value.deleted && !s.journal.value.cancelRequested
    ensures var t := Enqueued(s, projected);
      Invariant(if announces then t.(resume := Announced) else t)
  {
    var j := s.journal.value;
    if s.status.Some? {
      FinalSnoc(j.pending, Entry(projected, false), s.status.value);
    }
    if Takes(j, projected) {
      assert (j.pending + [Entry(projected, false)])[|j.pending|] == Entry(projected, false);
    }
  }

  lemma ClosingKeepsInvariant(s: Life, to: RunStatus)
    requires Invariant(s) && s.journal.Some? && s.finished && to in Terminal() && (!s.up || s.task.Working?)
    ensures Invariant(Closing(s, to))
  {
    if s.status.Some? {
      FinalSnoc(s.journal.value.pending, Entry(Some(to), false), s.status.value);
    }
  }

  /** A status write keeps the closing promise: it leaves a terminal status alone, or an open entry still decides. */
  lemma StatusWriteKeepsEnd(s: Life, to: RunStatus)
    requires EndsClosed(s) && s.status.Some? && (s.status.value in Terminal() ==> to == s.status.value)
    ensures EndsClosed(s.(status := Some(to)))
  {
    if s.journal.Some? {
      FinalForgets(s.journal.value.pending, s.status.value, to);
    }
  }

  lemma StepKeepsInvariant(s: Life, step: Step)
    requires Invariant(s) && Enabled(s, step)
    ensures Invariant(Apply(s, step))
  {
    match step
    case EntryApplied => AppliedKeepsInvariant(s);
    case EntryMarked => MarkedKeepsInvariant(s);
    case TaskEnqueues => EnqueuedKeepsInvariant(s, None, false);
    case ResumeEnqueues => EnqueuedKeepsInvariant(s, Some(Running), true);
    case TaskCloses(to) => ClosingKeepsInvariant(s, to);
    case StartupCloses(to) => ClosingKeepsInvariant(s, to);
    case Transition(to) => StatusWriteKeepsEnd(s, to);
    case LaunchFails => StatusWriteKeepsEnd(s, Interrupted);
    case TaskInterrupts => StatusWriteKeepsEnd(s, Interrupted);
    case Shutdown(interrupted) => if interrupted { StatusWriteKeepsEnd(s, Interrupted); }
    case StartupSettles(to) => StatusWriteKeepsEnd(s, to);
    case _ =>
  }

  ghost predicate IsRun(steps: seq<Step>, states: seq<Life>) {
    && |states| == |steps| + 1 && states[0] == NEW
    && forall i :: 0 <= i < |steps| ==> Enabled(states[i], steps[i]) && states[i + 1] == Apply(states[i], steps[i])
  }

  /** Through every interleaving of commands, task, crashes and startups, tombstones are safe. */
  lemma {:induction false} TombstonesAlwaysSafe(steps: seq<Step>, states: seq<Life>, i: nat)
    requires IsRun(steps, states) && i < |states|
    ensures Invariant(states[i]) && TombstoneSafe(states[i])
  {
    if i > 0 {
      TombstonesAlwaysSafe(steps, states, i - 1);
      assert Enabled(states[i - 1], steps[i - 1]) && states[i - 1 + 1] == Apply(states[i - 1], steps[i - 1]);
      StepKeepsInvariant(states[i - 1], steps[i - 1]);
    }
  }

  // ----- What startup meets -----

  /** The open entries of a journal, from the i-th on, as this machine sees them. */
  function OpenEntries(b: Startup.Bundle, log: seq<RunEvent>, i: nat): seq<Entry>
    requires i <= |b.outbox|
    decreases |b.outbox| - i
  {
    if i == |b.outbox| then []
    else if b.outbox[i].delivered then OpenEntries(b, log, i + 1)
    else
      [Entry(b.outbox[i].changes.status, HasEvent(log, b.outbox[i].event.eventId))] + OpenEntries(b, log, i + 1)
  }

  /** How a stored run and its journal look to this machine. */
  ghost predicate Shows(w: Startup.World, run: RunId, s: Life)
    requires run in w.bundles
  {
    var b, log := w.bundles[run], Log(w.db.events, run);
    && (s.status == if run in w.db.runs then Some(w.db.runs[run].status) else None)
    && s.journal.Some? && s.journal.value.deleted == b.deleted && s.journal.value.cancelRequested == b.cancelRequested
    && s.journal.value.pending == OpenEntries(b, log, 0)
    && (s.journal.value.closing <==>
         Startup.HasEnvelope(b, Startup.TerminalEventId(run)) || HasEvent(log, Startup.TerminalEventId(run)))
  }

  ghost predicate Reachable(s: Life) {
    exists steps, states :: IsRun(steps, states) && s in states
  }

  lemma ReachableKeepsInvariant(s: Life)
    requires Reachable(s)
    ensures Invariant(s)
  {
    var steps, states :| IsRun(steps, states) && s in states;
    var i :| 0 <= i < |states| && states[i] == s;
    TombstonesAlwaysSafe(steps, states, i);
  }

  /** Every journaled run is shown by a state its life can reach. */
  ghost predicate ShowsReachable(w: Startup.World, lives: map<RunId, Life>) {
    forall run :: run in w.bundles ==> run in lives && Reachable(lives[run]) && Shows(w, run, lives[run])
  }

  lemma {:induction false} StatusAfterIsFinal(b: Startup.Bundle, log: seq<RunEvent>, i: nat, status: RunStatus)
    requires i <= |b.outbox| && !b.cancelRequested
    ensures Startup.StatusAfter(log, b, i, status) == Final(OpenEntries(b, log, i), status)
    decreases |b.outbox| - i
  {
    if i < |b.outbox| {
      var e := b.outbox[i];
      var known := HasEvent(log, e.event.eventId);
      if e.delivered {
        StatusAfterIsFinal(b, log, i + 1, status);
      } else {
        var entries := OpenEntries(b, log, i);
        assert entries[1..] == OpenEntries(b, log, i + 1);
        StatusAfterIsFinal(b, log, i + 1, if known || e.changes.status.None? then status else e.changes.status.value);
      }
    }
  }

  /** Hence startup never meets a tombstone whose deletion the store refuses, */
  lemma StartupMeetsSafeTombstones(w: Startup.World, lives: map<RunId, Life>)
    requires ShowsReachable(w, lives)
    ensures Startup.TombstonesSafe(w)
  {
    forall run | run in w.bundles && w.bundles[run].deleted && run in w.db.runs
      ensures w.db.runs[run].status in Terminal()
    {
      ReachableKeepsInvariant(lives[run]);
    }
  }

  /** nor a run whose closing event was recorded but which would be left pending or running. */
  lemma StartupMeetsNoneClosedOpen(w: Startup.World, lives: map<RunId, Life>, snaps: RunId -> Startup.Snapshot,
      run: RunId)
    requires ShowsReachable(w, lives) && run in w.bundles
    ensures !Startup.ClosedOpen(w, run, snaps(run))
  {
    var b, log := w.bundles[run], Log(w.db.events, run);
    ReachableKeepsInvariant(lives[run]);
    if run in w.db.runs && !b.cancelRequested {
      StatusAfterIsFinal(b, log, 0, w.db.runs[run].status);
    }
  }

  /** So startup settles every run: unless an outbox delivery is refused, each run that survives it is terminal, waiting
      for approval or interrupted. */
  lemma StartupSettlesEveryRun(w: Startup.World, after: Startup.World, lives: map<RunId, Life>,
      snaps: RunId -> Startup.Snapshot)
    requires ShowsReachable(w, lives) && Startup.LeavesSettled(w, after, snaps)
    ensures forall run :: run in after.db.runs ==> Startup.Settled(after.db.runs[run].status)
  {
    forall run | run in after.db.runs ensures Startup.Settled(after.db.runs[run].status) {
      if run in w.bundles {
        StartupMeetsNoneClosedOpen(w, lives, snaps, run);
      }
    }
  }

  /** The same for the method: from a reachable world, startup raises nothing but a refused delivery, and otherwise
      settles every run. */
  method StartReachable(service: Startup.RunService, ids: seq<RunId>, snaps: RunId -> Startup.Snapshot,
      uuid: RunId -> EventId, now: int, ghost owner: EventId -> RunId, ghost lives: map<RunId, Life>)
      returns (outcome: Startup.Outcome)
    requires Startup.WorldOk(service.Abs()) && AllDistinct(ids) && Elements(ids) == service.journal.Keys
    requires Startup.Owned(service.Abs(), owner) && forall run :: owner(uuid(run)) == run
    requires ShowsReachable(service.Abs(), lives)
    modifies service, service.store
    ensures outcome.Raised? ==> outcome.write == Startup.OutboxWrite
    ensures outcome.Fine? ==>
      forall run :: run in service.store.runs ==> Startup.Settled(service.store.runs[run].status)
  {
    ghost var before := service.Abs();
    StartupMeetsSafeTombstones(before, lives);
    outcome := service.ReconcileStartup(ids, snaps, uuid, now, owner);
    if outcome.Fine? {
      StartupSettlesEveryRun(before, service.Abs(), lives, snaps);
    }
  }
}
