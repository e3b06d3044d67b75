/** The steps of a run's life in `Tombstones` are what the writes to store and journal do to it: each write turns a
    world that shows a life into one that shows the life after the step (backend/src/atlasflow/storage.py,
    backend/src/atlasflow/execution/runtime.py). */
module LifeSteps {
  import opened Common
  import opened RunLedger
  import opened Tombstones
  import Startup

  /** A consistent ledger with a journal of the run, event ids owned by their runs. */
  ghost predicate Fits(w: Startup.World, run: RunId, owner: EventId -> RunId) {
    && Consistent(w.db) && Startup.OwnedEvents(w.db.events, owner)
    && run in w.bundles && Startup.OutboxOk(w.bundles[run].outbox, run)
    && Startup.OwnIds(w.bundles[run], run, owner)
  }

  /** The closing event is logged through the outbox only. */
  ghost predicate ClosingListed(w: Startup.World, run: RunId)
    requires run in w.bundles
  {
    HasEvent(Log(w.db.events, run), Startup.TerminalEventId(run)) ==>
      Startup.HasEnvelope(w.bundles[run], Startup.TerminalEventId(run))
  }

  /** The oldest open entry. */
  ghost predicate Oldest(b: Startup.Bundle, k: nat) {
    && k < |b.outbox| && !b.outbox[k].delivered
    && forall j :: 0 <= j < k ==> b.outbox[j].delivered
  }

  // ----- Open entries -----

  lemma {:induction false} SkipDelivered(b: Startup.Bundle, log: seq<RunEvent>, i: nat, k: nat)
    requires i <= k <= |b.outbox| && forall j :: i <= j < k ==> b.outbox[j].delivered
    ensures OpenEntries(b, log, i) == OpenEntries(b, log, k)
    decreases k - i
  {
    if i < k {
      SkipDelivered(b, log, i + 1, k);
    }
  }

  /** Entries behind i are read alike when their flags, statuses and known ids are. */
  lemma {:induction false} ReadAlike(a: Startup.Bundle, b: Startup.Bundle, was: seq<RunEvent>, now: seq<RunEvent>,
      i: nat)
    requires |a.outbox| == |b.outbox| && i <= |a.outbox|
    requires forall j :: i <= j < |a.outbox| ==>
      && a.outbox[j] == b.outbox[j]
      && (HasEvent(was, a.outbox[j].event.eventId) <==> HasEvent(now, a.outbox[j].event.eventId))
    ensures OpenEntries(a, was, i) == OpenEntries(b, now, i)
    decreases |a.outbox| - i
  {
    if i < |a.outbox| {
      ReadAlike(a, b, was, now, i + 1);
    }
  }

  lemma OldestEntry(b: Startup.Bundle, log: seq<RunEvent>, k: nat)
    requires Oldest(b, k)
    ensures OpenEntries(b, log, 0) ==
      [Entry(b.outbox[k].changes.status, HasEvent(log, b.outbox[k].event.eventId))] + OpenEntries(b, log, k + 1)
  {
    SkipDelivered(b, log, 0, k);
  }

  lemma KnownAfter(log: seq<RunEvent>, event: RunEvent, id: EventId)
    ensures HasEvent(Startup.Announced(log, event), id) <==> HasEvent(log, id) || id == event.eventId
  {
    var after := Startup.Announced(log, event);
    if i :| 0 <= i < |log| && log[i].eventId == id {
      assert after[i].eventId == id;
    }
    if id == event.eventId && !HasEvent(log, id) {
      assert after[|log|].eventId == id;
    }
  }

  // ----- Delivery -----

  /** Event and status have gone in, or the event was known and nothing changed. */
  lemma AppliedShows(w: Startup.World, after: Db, run: RunId, s: Life, k: nat)
    requires run in w.bundles && run in w.db.runs && run in after.runs && Shows(w, run, s)
    requires Oldest(w.bundles[run], k) && !Startup.Fenced(w.bundles[run], w.bundles[run].outbox[k])
    requires Startup.OutboxOk(w.bundles[run].outbox, run) && HasOpenEntry(s) && s.status.Some?
    requires var e, log := w.bundles[run].outbox[k], Log(w.db.events, run);
      && Log(after.events, run) == Startup.Announced(log, e.event)
      && after.runs[run].status ==
           if e.changes.status.Some? && !HasEvent(log, e.event.eventId) then e.changes.status.value
           else w.db.runs[run].status
    ensures Shows(Startup.World(after, w.bundles), run, Applied(s))
  {
    var b, log := w.bundles[run], Log(w.db.events, run);
    var e := b.outbox[k];
    OldestEntry(b, log, k);
    if !HasEvent(log, e.event.eventId) {
      var grown := Log(after.events, run);
      OldestEntry(b, grown, k);
      forall id ensures HasEvent(grown, id) <==> HasEvent(log, id) || id == e.event.eventId {
        KnownAfter(log, e.event, id);
      }
      ReadAlike(b, b, log, grown, k + 1);
    }
  }

  lemma DeliveredStatus(db: Db, e: Startup.Envelope, now: int, owner: EventId -> RunId)
    requires Consistent(db) && Startup.OwnedEvents(db.events, owner) && e.event.runId in db.runs
    requires owner(e.event.eventId) == e.event.runId
    requires RunLedger.Step(db, ApplyOutbox(e.event, e.changes, now)).1.Done?
    ensures var after, run := RunLedger.Step(db, ApplyOutbox(e.event, e.changes, now)).0, e.event.runId;
      && run in after.runs
      && after.runs[run].status ==
           if e.changes.status.Some? && !HasEvent(Log(db.events, run), e.event.eventId) then e.changes.status.value
           else db.runs[run].status
  {
    Startup.KnownFromOwnLog(db.events, owner, e.event.eventId);
    DeliveryEffect(db, e.event, e.changes, now);
  }

  /** A delivery of the oldest entry that the store takes is the step EntryApplied. */
  lemma DeliveryIsApplied(w: Startup.World, run: RunId, s: Life, k: nat, now: int, owner: EventId -> RunId)
    requires Fits(w, run, owner) && run in w.db.runs && Shows(w, run, s)
    requires !w.bundles[run].deleted && Oldest(w.bundles[run], k) && MayDeliver(s)
    requires !Startup.Fenced(w.bundles[run], w.bundles[run].outbox[k])
    requires var e := w.bundles[run].outbox[k];
      RunLedger.Step(w.db, ApplyOutbox(e.event, e.changes, now)).1.Done?
    ensures Enabled(s, EntryApplied)
    ensures var e := w.bundles[run].outbox[k];
      Shows(Startup.World(RunLedger.Step(w.db, ApplyOutbox(e.event, e.changes, now)).0, w.bundles), run,
        Apply(s, EntryApplied))
  {
    var e := w.bundles[run].outbox[k];
    OldestEntry(w.bundles[run], Log(w.db.events, run), k);
    Startup.DeliveryLog(w.db, e, now, owner);
    DeliveredStatus(w.db, e, now, owner);
    AppliedShows(w, RunLedger.Step(w.db, ApplyOutbox(e.event, e.changes, now)).0, run, s, k);
  }

  /** Marking it delivered is the step EntryMarked. */
  lemma MarkIsMarked(w: Startup.World, run: RunId, s: Life, k: nat)
    requires run in w.bundles && Shows(w, run, s) && !w.bundles[run].deleted && Oldest(w.bundles[run], k)
    requires MayDeliver(s) && HasEvent(Log(w.db.events, run), w.bundles[run].outbox[k].event.eventId)
    ensures Enabled(s, EntryMarked)
    ensures Shows(w.(bundles := w.bundles[run := Startup.Marked(w.bundles[run], k)]), run, Apply(s, EntryMarked))
  {
    var b, log := w.bundles[run], Log(w.db.events, run);
    var c := Startup.Marked(b, k);
    OldestEntry(b, log, k);
    SkipDelivered(c, log, 0, k + 1);
    ReadAlike(b, c, log, log, k + 1);
    SameEnvelopes(b, c, Startup.TerminalEventId(run));
  }

  lemma SameEnvelopes(b: Startup.Bundle, c: Startup.Bundle, id: EventId)
    requires |b.outbox| == |c.outbox|
    requires forall i :: 0 <= i < |b.outbox| ==> b.outbox[i].event.eventId == c.outbox[i].event.eventId
    ensures Startup.HasEnvelope(b, id) <==> Startup.HasEnvelope(c, id)
  {
    if i :| 0 <= i < |b.outbox| && b.outbox[i].event.eventId == id {
      assert c.outbox[i].event.eventId == id;
    }
  }

  // ----- Emission -----

  lemma {:induction false} OneMoreOpen(b: Startup.Bundle, e: Startup.Envelope, log: seq<RunEvent>, i: nat)
    requires i <= |b.outbox| && !e.delivered && !HasEvent(log, e.event.eventId)
    ensures OpenEntries(b.(outbox := b.outbox + [e]), log, i) ==
      OpenEntries(b, log, i) + [Entry(e.changes.status, false)]
    decreases |b.outbox| - i
  {
    var c := b.(outbox := b.outbox + [e]);
    if i < |b.outbox| {
      OneMoreOpen(b, e, log, i + 1);
      assert c.outbox[i] == b.outbox[i];
    } else {
      assert OpenEntries(c, log, i + 1) == [];
    }
  }

  lemma EnvelopeAdded(b: Startup.Bundle, e: Startup.Envelope, id: EventId)
    ensures Startup.HasEnvelope(b.(outbox := b.outbox + [e]), id) <==>
      Startup.HasEnvelope(b, id) || e.event.eventId == id
  {
    var c := b.(outbox := b.outbox + [e]);
    assert c.outbox[|b.outbox|] == e;
    if i :| 0 <= i < |b.outbox| && b.outbox[i].event.eventId == id {
      assert c.outbox[i].event.eventId == id;
    }
  }

  lemma EnqueueShows(w: Startup.World, run: RunId, s: Life, e: Startup.Envelope)
    requires run in w.bundles && Shows(w, run, s) && !e.delivered
    requires !Startup.HasEnvelope(w.bundles[run], e.event.eventId)
    requires !HasEvent(Log(w.db.events, run), e.event.eventId) && e.event.eventId != Startup.TerminalEventId(run)
    ensures Shows(w.(bundles := w.bundles[run := Startup.Enqueue(w.bundles[run], e)]), run,
      Enqueued(s, e.changes.status))
  {
    var b, log := w.bundles[run], Log(w.db.events, run);
    OneMoreOpen(b, e, log, 0);
    EnvelopeAdded(b, e, Startup.TerminalEventId(run));
    assert w.bundles[run := b] == w.bundles;
  }

  /** Emitting an event under a new id is the step TaskEnqueues, or the announcement of a resume. */
  lemma EmitIsEnqueued(w: Startup.World, run: RunId, s: Life, e: Startup.Envelope)
    requires run in w.bundles && Shows(w, run, s) && !e.delivered
    requires !Startup.HasEnvelope(w.bundles[run], e.event.eventId)
    requires !HasEvent(Log(w.db.events, run), e.event.eventId) && e.event.eventId != Startup.TerminalEventId(run)
    ensures var after := w.(bundles := w.bundles[run := Startup.Enqueue(w.bundles[run], e)]);
      && (s.task.Working? && e.changes.status == None ==>
           Enabled(s, TaskEnqueues) && Shows(after, run, Apply(s, TaskEnqueues)))
      && (s.resume.Checked? && e.changes.status == Some(Running) ==>
           Enabled(s, ResumeEnqueues) && Shows(after, run, Apply(s, ResumeEnqueues)))
  {
    EnqueueShows(w, run, s, e);
  }

  lemma ClosingShows(w: Startup.World, run: RunId, s: Life, e: Startup.Envelope, to: RunStatus)
    requires run in w.bundles && Shows(w, run, s) && !e.delivered && ClosingListed(w, run)
    requires e.event.eventId == Startup.TerminalEventId(run) && e.changes.status == Some(to)
    ensures Shows(w.(bundles := w.bundles[run := Startup.Enqueue(w.bundles[run], e)]), run, Closing(s, to))
  {
    var b, log := w.bundles[run], Log(w.db.events, run);
    if !Startup.HasEnvelope(b, e.event.eventId) {
      OneMoreOpen(b, e, log, 0);
      EnvelopeAdded(b, e, e.event.eventId);
    }
    assert w.bundles[run := b] == w.bundles;
  }

  /** Emitting the closing event is the step TaskCloses or StartupCloses. */
  lemma EmitIsClosing(w: Startup.World, run: RunId, s: Life, e: Startup.Envelope, to: RunStatus)
    requires run in w.bundles && Shows(w, run, s) && !e.delivered && ClosingListed(w, run)
    requires e.event.eventId == Startup.TerminalEventId(run) && e.changes.status == Some(to)
    ensures var after := w.(bundles := w.bundles[run := Startup.Enqueue(w.bundles[run], e)]);
      && (Enabled(s, TaskCloses(to)) ==> Shows(after, run, Apply(s, TaskCloses(to))))
      && (Enabled(s, StartupCloses(to)) ==> Shows(after, run, Apply(s, StartupCloses(to))))
  {
    ClosingShows(w, run, s, e, to);
    ClosingIsStep(s, to);
  }

  lemma ClosingIsStep(s: Life, to: RunStatus)
    requires s.journal.Some?
    ensures Enabled(s, TaskCloses(to)) ==> Apply(s, TaskCloses(to)) == Closing(s, to)
    ensures Enabled(s, StartupCloses(to)) ==> Apply(s, StartupCloses(to)) == Closing(s, to)
  {
  }

  // ----- Fences -----

  lemma {:induction false} FenceUnfences(b: Startup.Bundle, log: seq<RunEvent>, i: nat)
    requires i <= |b.outbox|
    ensures OpenEntries(Startup.CancelBundle(b, false), log, i) == Unfenced(OpenEntries(b, log, i))
    decreases |b.outbox| - i
  {
    if i < |b.outbox| {
      FenceUnfences(b, log, i + 1);
      var entries := OpenEntries(b, log, i);
      if !b.outbox[i].delivered {
        assert entries[1..] == OpenEntries(b, log, i + 1);
      }
    }
  }

  lemma {:induction false} TombstoneEmpties(b: Startup.Bundle, log: seq<RunEvent>, i: nat)
    requires i <= |b.outbox|
    ensures OpenEntries(Startup.CancelBundle(b, true), log, i) == []
    decreases |b.outbox| - i
  {
    if i < |b.outbox| {
      TombstoneEmpties(b, log, i + 1);
    }
  }

  /** A cancellation of the journal is the step CancelFence, */
  lemma CancelIsFence(w: Startup.World, run: RunId, s: Life)
    requires run in w.bundles && Shows(w, run, s)
    ensures Enabled(s, CancelFence) ==>
      Shows(w.(bundles := w.bundles[run := Startup.CancelBundle(w.bundles[run], false)]), run, Apply(s, CancelFence))
  {
    var b := w.bundles[run];
    FenceUnfences(b, Log(w.db.events, run), 0);
    SameEnvelopes(b, Startup.CancelBundle(b, false), Startup.TerminalEventId(run));
  }

  lemma TombstoneShows(w: Startup.World, run: RunId, s: Life)
    requires run in w.bundles && Shows(w, run, s)
    ensures Shows(w.(bundles := w.bundles[run := Startup.CancelBundle(w.bundles[run], true)]), run, Buried(s))
  {
    var b := w.bundles[run];
    TombstoneEmpties(b, Log(w.db.events, run), 0);
    SameEnvelopes(b, Startup.CancelBundle(b, true), Startup.TerminalEventId(run));
  }

  /** and with the tombstone, the steps Tombstone and StartupTombstone. */
  lemma CancelIsTombstone(w: Startup.World, run: RunId, s: Life)
    requires run in w.bundles && Shows(w, run, s)
    ensures var after := w.(bundles := w.bundles[run := Startup.CancelBundle(w.bundles[run], true)]);
      && (s.up && s.deleting ==> Enabled(s, Tombstone) && Shows(after, run, Apply(s, Tombstone)))
      && (Enabled(s, StartupTombstone) ==> Shows(after, run, Apply(s, StartupTombstone)))
  {
    TombstoneShows(w, run, s);
  }

  // ----- Writes to the store alone -----

  /** The announced event is not one of the journal's. */
  ghost predicate Foreign(announced: Option<RunEvent>, b: Startup.Bundle, run: RunId) {
    announced.Some? ==>
      !Startup.HasEnvelope(b, announced.value.eventId) && announced.value.eventId != Startup.TerminalEventId(run)
  }

  lemma TransitionShows(w: Startup.World, run: RunId, s: Life, to: RunStatus, announced: Option<RunEvent>, c: Changes,
      now: int, owner: EventId -> RunId)
    requires Fits(w, run, owner) && Shows(w, run, s) && Foreign(announced, w.bundles[run], run)
    requires announced.Some? ==> owner(announced.value.eventId) == run
    requires RunLedger.Step(w.db, RunLedger.Transition(run, to, announced, c, now)).1.Done?
    ensures s.status.Some?
    ensures Shows(Startup.World(RunLedger.Step(w.db, RunLedger.Transition(run, to, announced, c, now)).0, w.bundles),
      run, s.(status := Some(to)))
  {
    var b, log := w.bundles[run], Log(w.db.events, run);
    var after := RunLedger.Step(w.db, RunLedger.Transition(run, to, announced, c, now)).0;
    TransitionEffect(w.db, run, to, announced, c, now);
    if announced.Some? {
      Startup.LoggedByOwnLog(w.db, after, announced.value, owner);
      forall id ensures HasEvent(Log(after.events, run), id) <==> HasEvent(log, id) || id == announced.value.eventId {
        KnownAfter(log, announced.value, id);
      }
    }
    ReadAlike(b, b, log, Log(after.events, run), 0);
  }

  /** A transition that the store takes is the step Transition, and the step is one the table allows. */
  lemma TransitionIsStep(w: Startup.World, run: RunId, s: Life, to: RunStatus, announced: Option<RunEvent>, c: Changes,
      now: int, owner: EventId -> RunId)
    requires Fits(w, run, owner) && Shows(w, run, s) && Foreign(announced, w.bundles[run], run)
    requires announced.Some? ==> owner(announced.value.eventId) == run
    requires RunLedger.Step(w.db, RunLedger.Transition(run, to, announced, c, now)).1.Done?
    ensures s.status.Some? && (to == s.status.value || to in AllowedTransitions(s.status.value))
    ensures var after := RunLedger.Step(w.db, RunLedger.Transition(run, to, announced, c, now)).0;
      && (s.up && !to.Interrupted? ==>
           && Enabled(s, Tombstones.Transition(to))
           && Shows(Startup.World(after, w.bundles), run, Apply(s, Tombstones.Transition(to))))
      && (Enabled(s, StartupSettles(to)) ==>
           Shows(Startup.World(after, w.bundles), run, Apply(s, StartupSettles(to))))
  {
    TransitionShows(w, run, s, to, announced, c, now, owner);
    TransitionAllowed(w.db, run, to, announced, c, now);
    StatusWriteIsStep(s, to);
  }

  lemma TransitionAllowed(db: Db, run: RunId, to: RunStatus, announced: Option<RunEvent>, c: Changes, now: int)
    requires RunLedger.Step(db, RunLedger.Transition(run, to, announced, c, now)).1.Done?
    ensures run in db.runs
    ensures to == db.runs[run].status || to in AllowedTransitions(db.runs[run].status)
  {
  }

  lemma StatusWriteIsStep(s: Life, to: RunStatus)
    requires s.status.Some? && (to == s.status.value || to in AllowedTransitions(s.status.value))
    ensures s.up && !to.Interrupted? ==>
      Enabled(s, Tombstones.Transition(to)) && Apply(s, Tombstones.Transition(to)) == s.(status := Some(to))
    ensures Enabled(s, StartupSettles(to)) ==> Apply(s, StartupSettles(to)) == s.(status := Some(to))
  {
  }

  /** A deletion that the store takes is the step StoreDelete or StartupDelete: the run was terminal. */
  lemma DeletionIsStep(w: Startup.World, run: RunId, s: Life)
    requires Consistent(w.db) && run in w.bundles && Shows(w, run, s) && ClosingListed(w, run)
    requires s.journal.value.pending == [] && RunLedger.Step(w.db, Delete(run)).1.Done?
    ensures IsTerminal(s.status)
    ensures var after := Startup.World(RunLedger.Step(w.db, Delete(run)).0, w.bundles);
      && (s.up && s.deleting ==> Enabled(s, StoreDelete) && Shows(after, run, Apply(s, StoreDelete)))
      && (!s.up && s.journal.value.deleted ==>
           Enabled(s, StartupDelete) && Shows(after, run, Apply(s, StartupDelete)))
  {
    var after := RunLedger.Step(w.db, Delete(run)).0;
    DeleteEffect(w.db, run);
    NoneOpen(w.bundles[run], Log(w.db.events, run), Log(after.events, run), 0);
  }

  lemma {:induction false} NoneOpen(b: Startup.Bundle, was: seq<RunEvent>, now: seq<RunEvent>, i: nat)
    requires i <= |b.outbox| && OpenEntries(b, was, i) == []
    ensures OpenEntries(b, now, i) == []
    decreases |b.outbox| - i
  {
    if i < |b.outbox| {
      NoneOpen(b, was, now, i + 1);
    }
  }
}
