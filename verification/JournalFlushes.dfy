/** The outboxes of all runs, flushed in any interleaving (backend/src/atlasflow/execution/runtime.py `emit`, `cancel`,
    `flush_run`; backend/src/atlasflow/storage.py `apply_outbox`). */
module JournalFlushes {
  import opened Common
  import opened OutboxDelivery
  import opened RunLedger
  import Startup

  /** Attempt: a flush of the run delivers its first open entry; without `marked` the process dies before the entry is
      marked. Emit: an event joins the run's outbox. Fence: the run is cancelled or its deletion announced. */
  datatype JournalStep =
    | Attempt(run: RunId, now: int, marked: bool)
    | Emit(run: RunId, entry: Startup.Envelope)
    | Fence(run: RunId, deleted: bool)

  /** A flush never attempts the entry any more. */
  predicate Retired(b: Startup.Bundle, k: nat)
    requires k < |b.outbox|
  {
    b.deleted || b.outbox[k].delivered || Startup.Fenced(b, b.outbox[k])
  }

  /** The first open entry from i on, or the length. */
  function FirstOpenFrom(b: Startup.Bundle, i: nat): (k: nat)
    requires i <= |b.outbox|
    ensures i <= k <= |b.outbox|
    ensures forall j :: i <= j < k ==> Retired(b, j)
    ensures k < |b.outbox| ==> !Retired(b, k)
    decreases |b.outbox| - i
  {
    if i == |b.outbox| || !Retired(b, i) then i else FirstOpenFrom(b, i + 1)
  }

  predicate CanAttempt(w: Startup.World, run: RunId) {
    run in w.bundles && FirstOpenFrom(w.bundles[run], 0) < |w.bundles[run].outbox|
  }

  function Attempted(w: Startup.World, run: RunId, now: int): Delivery
    requires CanAttempt(w, run)
  {
    DeliveryOf(w.bundles[run].outbox[FirstOpenFrom(w.bundles[run], 0)], now)
  }

  /** One step; a step that is not possible changes nothing. */
  function Next(w: Startup.World, step: JournalStep): Startup.World {
    match step
    case Attempt(run, now, marked) =>
      if !CanAttempt(w, run) then w
      else
        var b, d := w.bundles[run], Attempted(w, run, now);
        var (db, reply) := Step(w.db, ApplyOutbox(d.event, d.changes, now));
        Startup.World(db,
          if reply.Done? && marked then w.bundles[run := Startup.Marked(b, FirstOpenFrom(b, 0))] else w.bundles)
    case Emit(run, entry) =>
      if run !in w.bundles then w else w.(bundles := w.bundles[run := Startup.Enqueue(w.bundles[run], entry)])
    case Fence(run, deleted) =>
      if run !in w.bundles then w else w.(bundles := w.bundles[run := Startup.CancelBundle(w.bundles[run], deleted)])
  }

  /** What a step delivers. */
  function Sends(w: Startup.World, step: JournalStep): seq<Delivery> {
    if step.Attempt? && CanAttempt(w, step.run) then [Attempted(w, step.run, step.now)] else []
  }

  function After(w: Startup.World, steps: seq<JournalStep>): Startup.World {
    if steps == [] then w else Next(After(w, steps[..|steps| - 1]), steps[|steps| - 1])
  }

  function Sent(w: Startup.World, steps: seq<JournalStep>): seq<Delivery> {
    if steps == [] then []
    else Sent(w, steps[..|steps| - 1]) + Sends(After(w, steps[..|steps| - 1]), steps[|steps| - 1])
  }

  // ----- What every reachable state keeps -----

  /** Each run emits its own events, under ids of its own. */
  ghost predicate Proper(step: JournalStep, owner: EventId -> RunId) {
    step.Emit? ==> step.entry.event.runId == step.run && owner(step.entry.event.eventId) == step.run
  }

  ghost predicate JournalsOk(w: Startup.World, owner: EventId -> RunId) {
    Consistent(w.db) && forall run :: run in w.bundles ==> OutboxFits(w.bundles[run].outbox, run, owner)
  }

  ghost predicate OutboxFits(outbox: seq<Startup.Envelope>, run: RunId, owner: EventId -> RunId) {
    Startup.OutboxOk(outbox, run) && forall k :: 0 <= k < |outbox| ==> owner(outbox[k].event.eventId) == run
  }

  /** The store refuses the entry, whenever it is delivered. */
  ghost predicate Blocked(db: Db, e: Startup.Envelope) {
    e.event.runId !in db.runs || !MeetsTerminalRules(Patched(db.runs[e.event.runId], e.changes, 0))
  }

  lemma BlockedIff(db: Db, e: Startup.Envelope, now: int)
    ensures Accepts(db, DeliveryOf(e, now)) <==> !HasEvent(db.events, e.event.eventId) && !Blocked(db, e)
  {
  }

  /** The entry will never be attempted again, or it is next and refused. */
  ghost predicate Settled(db: Db, b: Startup.Bundle, k: nat)
    requires k < |b.outbox|
  {
    Retired(b, k) || (FirstOpenFrom(b, 0) == k && Blocked(db, b.outbox[k]))
  }

  /** An id that was attempted is logged, or its entry is settled. */
  ghost predicate Accounted(w: Startup.World, id: EventId, owner: EventId -> RunId) {
    || HasEvent(w.db.events, id)
    || (owner(id) in w.bundles
        && exists k :: 0 <= k < |w.bundles[owner(id)].outbox| && w.bundles[owner(id)].outbox[k].event.eventId == id
             && Settled(w.db, w.bundles[owner(id)], k))
  }

  lemma FirstOpenIs(b: Startup.Bundle, i: nat, k: nat)
    requires i <= k < |b.outbox| && !Retired(b, k) && forall j :: i <= j < k ==> Retired(b, j)
    ensures FirstOpenFrom(b, i) == k
  {
  }

  // ----- One step at a time -----

  lemma EmitSettles(db: Db, b: Startup.Bundle, entry: Startup.Envelope, k: nat)
    requires k < |b.outbox| && Settled(db, b, k)
    ensures b.outbox <= Startup.Enqueue(b, entry).outbox && Settled(db, Startup.Enqueue(b, entry), k)
  {
    var c := Startup.Enqueue(b, entry);
    forall j | 0 <= j < |b.outbox| ensures c.outbox[j] == b.outbox[j] && (Retired(c, j) <==> Retired(b, j)) {
    }
    if !Retired(b, k) {
      FirstOpenIs(c, 0, k);
    }
  }

  lemma EmitKeeps(w: Startup.World, run: RunId, entry: Startup.Envelope, id: EventId, owner: EventId -> RunId)
    requires JournalsOk(w, owner) && Proper(Emit(run, entry), owner)
    ensures JournalsOk(Next(w, Emit(run, entry)), owner)
    ensures Accounted(w, id, owner) ==> Accounted(Next(w, Emit(run, entry)), id, owner)
  {
    if run in w.bundles && owner(id) == run && Accounted(w, id, owner) && !HasEvent(w.db.events, id) {
      var b, next := w.bundles[run], Next(w, Emit(run, entry));
      var k :| 0 <= k < |b.outbox| && b.outbox[k].event.eventId == id && Settled(w.db, b, k);
      EmitSettles(w.db, b, entry, k);
      assert next.bundles[run] == Startup.Enqueue(b, entry) && next.db == w.db;
      assert next.bundles[run].outbox[k].event.eventId == id && Settled(next.db, next.bundles[run], k);
    }
  }

  lemma FenceSettles(db: Db, b: Startup.Bundle, deleted: bool, k: nat)
    requires k < |b.outbox| && Settled(db, b, k)
    ensures Settled(db, Startup.CancelBundle(b, deleted), k)
  {
    var c := Startup.CancelBundle(b, deleted);
    assert forall j :: 0 <= j < |b.outbox| && Retired(b, j) ==> Retired(c, j);
    if !Retired(c, k) {
      assert c.outbox[k] == b.outbox[k];
      FirstOpenIs(c, 0, k);
    }
  }

  lemma FenceKeepsJournals(w: Startup.World, run: RunId, deleted: bool, owner: EventId -> RunId)
    requires JournalsOk(w, owner)
    ensures JournalsOk(Next(w, Fence(run, deleted)), owner)
  {
    if run in w.bundles {
      var b, c := w.bundles[run], Startup.CancelBundle(w.bundles[run], deleted);
      assert forall j :: 0 <= j < |b.outbox| ==> c.outbox[j].event == b.outbox[j].event;
    }
  }

  lemma FenceKeeps(w: Startup.World, run: RunId, deleted: bool, id: EventId, owner: EventId -> RunId)
    requires JournalsOk(w, owner)
    ensures JournalsOk(Next(w, Fence(run, deleted)), owner)
    ensures Accounted(w, id, owner) ==> Accounted(Next(w, Fence(run, deleted)), id, owner)
  {
    FenceKeepsJournals(w, run, deleted, owner);
    if run in w.bundles && owner(id) == run && Accounted(w, id, owner) && !HasEvent(w.db.events, id) {
      var b, next := w.bundles[run], Next(w, Fence(run, deleted));
      var k :| 0 <= k < |b.outbox| && b.outbox[k].event.eventId == id && Settled(w.db, b, k);
      FenceSettles(w.db, b, deleted, k);
      assert next.bundles[run] == Startup.CancelBundle(b, deleted) && next.db == w.db;
      assert next.bundles[run].outbox[k].event.eventId == id && Settled(next.db, next.bundles[run], k);
    }
  }

  /** An emitted event joins the end of its run's outbox, unless the run is deleted, the fence is against it, or its id
      is there; ledger and other journals stay as they are. */
  lemma EmitDoes(w: Startup.World, run: RunId, entry: Startup.Envelope)
    requires run in w.bundles
    ensures var b, next := w.bundles[run], Next(w, Emit(run, entry));
      && next.db == w.db && next.bundles == w.bundles[run := next.bundles[run]]
      && if b.deleted || (exists i :: 0 <= i < |b.outbox| && b.outbox[i].event.eventId == entry.event.eventId)
            || (b.cancelRequested && exists status :: status != Cancelled && entry.changes.status == Some(status))
         then next.bundles[run] == b
         else next.bundles[run] == Startup.Bundle(false, b.cancelRequested, b.outbox + [entry])
  {
    Startup.EmitEffect(w.bundles[run], entry);
  }

  /** A fence marks its run's journal and nothing else; the open entries that the cancellation, or for a deletion all
      that the tombstone, stands against count as delivered. */
  lemma FenceDoes(w: Startup.World, run: RunId, deleted: bool)
    requires run in w.bundles
    ensures var b, next := w.bundles[run], Next(w, Fence(run, deleted));
      && next.db == w.db && next.bundles == w.bundles[run := next.bundles[run]]
      && next.bundles[run].cancelRequested && (next.bundles[run].deleted <==> b.deleted || deleted)
      && |next.bundles[run].outbox| == |b.outbox|
      && forall i :: 0 <= i < |b.outbox| ==>
           && next.bundles[run].outbox[i].event == b.outbox[i].event
           && (next.bundles[run].outbox[i].delivered <==>
                || b.outbox[i].delivered || deleted
                || (exists status :: status != Cancelled && b.outbox[i].changes.status == Some(status)))
  {
    Startup.CancelEffect(w.bundles[run], deleted);
  }

  lemma DeliveryElsewhere(db: Db, d: Delivery, e: Startup.Envelope)
    requires Consistent(db) && e.event.runId != d.event.runId
    ensures Blocked(Deliver(db, d), e) <==> Blocked(db, e)
  {
    OtherRecordsKept(db, ApplyOutbox(d.event, d.changes, d.now), e.event.runId);
  }

  /** An attempt accounts for its own id, and for every id it accounted for before. */
  lemma AttemptKeeps(w: Startup.World, step: JournalStep, id: EventId, owner: EventId -> RunId)
    requires step.Attempt? && CanAttempt(w, step.run) && JournalsOk(w, owner)
    requires Accounted(w, id, owner) || id == Attempted(w, step.run, step.now).event.eventId
    ensures Accounted(Next(w, step), id, owner)
  {
    var run, now := step.run, step.now;
    var b, d, next := w.bundles[run], Attempted(w, run, now), Next(w, step);
    var n := FirstOpenFrom(b, 0);
    assert next.db == Deliver(w.db, d);
    DeliverIds(w.db, d, id);
    BlockedIff(w.db, b.outbox[n], now);
    if !HasEvent(next.db.events, id) {
      if id == d.event.eventId {
        assert next == w && Settled(w.db, b, n);
      } else {
        var k :| 0 <= k < |w.bundles[owner(id)].outbox| && w.bundles[owner(id)].outbox[k].event.eventId == id
          && Settled(w.db, w.bundles[owner(id)], k);
        if owner(id) == run {
          assert k != n && Retired(b, k);
          assert next.bundles[run].outbox[k] == b.outbox[k];
          assert Settled(next.db, next.bundles[run], k);
        } else {
          DeliveryElsewhere(w.db, d, w.bundles[owner(id)].outbox[k]);
          assert Settled(next.db, next.bundles[owner(id)], k);
        }
      }
    }
  }

  lemma AttemptKeepsJournals(w: Startup.World, step: JournalStep, owner: EventId -> RunId)
    requires step.Attempt? && JournalsOk(w, owner)
    ensures JournalsOk(Next(w, step), owner)
  {
    if CanAttempt(w, step.run) {
      var d := Attempted(w, step.run, step.now);
      StepKeepsConsistent(w.db, ApplyOutbox(d.event, d.changes, d.now));
    }
  }

  // ----- The law for all outboxes -----

  lemma {:induction false} JournalsStayOk(w: Startup.World, steps: seq<JournalStep>, owner: EventId -> RunId)
    requires JournalsOk(w, owner) && forall i :: 0 <= i < |steps| ==> Proper(steps[i], owner)
    ensures JournalsOk(After(w, steps), owner)
    ensures After(w, steps).db == DeliverAll(w.db, Sent(w, steps))
  {
    if steps != [] {
      var front, last := steps[..|steps| - 1], steps[|steps| - 1];
      JournalsStayOk(w, front, owner);
      var before, ds := After(w, front), Sent(w, front);
      match last {
        case Attempt(run, now, marked) =>
          AttemptKeepsJournals(before, last, owner);
          if CanAttempt(before, run) {
            var d := Attempted(before, run, now);
            assert Sent(w, steps) == ds + [d] && (ds + [d])[..|ds|] == ds;
          } else {
            assert Sent(w, steps) == ds;
          }
        case Emit(run, entry) =>
          EmitKeeps(before, run, entry, "", owner);
          assert Sent(w, steps) == ds;
        case Fence(run, deleted) =>
          FenceKeeps(before, run, deleted, "", owner);
          assert Sent(w, steps) == ds;
      }
    }
  }

  /** Every id that was attempted is accounted for, in every reachable state. */
  lemma {:induction false} AttemptedIsAccounted(w: Startup.World, steps: seq<JournalStep>, id: EventId,
      owner: EventId -> RunId)
    requires JournalsOk(w, owner) && forall i :: 0 <= i < |steps| ==> Proper(steps[i], owner)
    requires Mentions(Sent(w, steps), id)
    ensures Accounted(After(w, steps), id, owner)
  {
    if steps != [] {
      var front, last := steps[..|steps| - 1], steps[|steps| - 1];
      JournalsStayOk(w, front, owner);
      var before, ds := After(w, front), Sent(w, front);
      if Mentions(ds, id) {
        AttemptedIsAccounted(w, front, id, owner);
      }
      match last {
        case Attempt(run, now, marked) =>
          if CanAttempt(before, run) {
            MentionsSnoc(ds, Attempted(before, run, now), id);
            AttemptKeeps(before, last, id, owner);
          } else {
            assert Sent(w, steps) == ds;
          }
        case Emit(run, entry) =>
          assert Sent(w, steps) == ds;
          EmitKeeps(before, run, entry, id, owner);
        case Fence(run, deleted) =>
          assert Sent(w, steps) == ds;
          FenceKeeps(before, run, deleted, id, owner);
      }
    }
  }

  /** An attempt that repeats an id changes nothing. */
  lemma RepeatIsRefused(w: Startup.World, run: RunId, now: int, owner: EventId -> RunId)
    requires JournalsOk(w, owner) && CanAttempt(w, run)
    requires Accounted(w, Attempted(w, run, now).event.eventId, owner)
    ensures !Accepts(w.db, Attempted(w, run, now))
  {
    var b, n := w.bundles[run], FirstOpenFrom(w.bundles[run], 0);
    BlockedIff(w.db, b.outbox[n], now);
    if !HasEvent(w.db.events, b.outbox[n].event.eventId) {
      var k :| 0 <= k < |b.outbox| && b.outbox[k].event.eventId == b.outbox[n].event.eventId && Settled(w.db, b, k);
      assert k == n;
    }
  }

  lemma {:induction false} NoRetryAccepted(w: Startup.World, steps: seq<JournalStep>, i: nat, owner: EventId -> RunId)
    requires JournalsOk(w, owner) && forall j :: 0 <= j < |steps| ==> Proper(steps[j], owner)
    requires i < |Sent(w, steps)|
    ensures !RetryAccepted(w.db, Sent(w, steps), i)
  {
    var front, last := steps[..|steps| - 1], steps[|steps| - 1];
    var before, ds, all := After(w, front), Sent(w, front), Sent(w, steps);
    if i < |ds| {
      NoRetryAccepted(w, front, i, owner);
      assert all[..i] == ds[..i] && all[i] == ds[i];
    } else {
      JournalsStayOk(w, front, owner);
      var d := Attempted(before, last.run, last.now);
      assert all == ds + [d] && all[..i] == ds;
      if Mentions(ds, d.event.eventId) {
        AttemptedIsAccounted(w, front, d.event.eventId, owner);
        RepeatIsRefused(before, last.run, last.now, owner);
      }
    }
  }

  /** Whatever the runs emit, whenever they are fenced, however their flushes interleave, fail, die and resume: repeated
      deliveries have no effect. */
  lemma AllOutboxesObeyLaw(w: Startup.World, steps: seq<JournalStep>, owner: EventId -> RunId)
    requires JournalsOk(w, owner) && forall i :: 0 <= i < |steps| ==> Proper(steps[i], owner)
    ensures var ds := Sent(w, steps);
      DeliverAll(w.db, ds) == DeliverAll(w.db, FirstOccurrences(ds))
  {
    forall i | 0 <= i < |Sent(w, steps)| ensures !RetryAccepted(w.db, Sent(w, steps), i) {
      NoRetryAccepted(w, steps, i, owner);
    }
    RepeatsHaveNoEffect(w.db, Sent(w, steps));
  }

  // ----- A flush is a run of attempts -----

  lemma {:induction false} AfterCons(w: Startup.World, step: JournalStep, steps: seq<JournalStep>)
    ensures After(w, [step] + steps) == After(Next(w, step), steps)
  {
    var all := [step] + steps;
    if steps == [] {
      assert all[..0] == [] && all == [step];
    } else {
      assert all[..|all| - 1] == [step] + steps[..|steps| - 1];
      AfterCons(w, step, steps[..|steps| - 1]);
    }
  }

  lemma OneMore(w: Startup.World, step: JournalStep, m: nat)
    ensures After(w, seq(m + 1, _ => step)) == After(Next(w, step), seq(m, _ => step))
  {
    AfterCons(w, step, seq(m, _ => step));
    assert seq(m + 1, _ => step) == [step] + seq(m, _ => step);
  }

  lemma FlushedAtEnd(w: Startup.World, run: RunId, now: int)
    requires run in w.bundles
    ensures Flushed(w, run, |w.bundles[run].outbox|, now) == w
  {
    assert w.bundles[run := w.bundles[run]] == w.bundles;
  }

  lemma SkipRetired(w: Startup.World, run: RunId, i: nat, now: int)
    requires run in w.bundles && i < |w.bundles[run].outbox| && !w.bundles[run].deleted && Retired(w.bundles[run], i)
    ensures Flushed(w, run, i, now) == Flushed(w, run, i + 1, now)
  {
  }

  /** An attempt delivers the first open entry, and marks it unless the store refused it or the process died. */
  lemma AttemptOpen(w: Startup.World, run: RunId, i: nat, now: int, marked: bool)
    requires run in w.bundles && i < |w.bundles[run].outbox| && !Retired(w.bundles[run], i)
    requires forall j :: 0 <= j < i ==> Retired(w.bundles[run], j)
    ensures var next, b := Next(w, Attempt(run, now, marked)), w.bundles[run];
      var (after, reply) := Step(w.db, ApplyOutbox(b.outbox[i].event, b.outbox[i].changes, now));
      next == Startup.World(after, w.bundles[run := if reply.Done? && marked then Startup.Marked(b, i) else b])
  {
    FirstOpenIs(w.bundles[run], 0, i);
    assert w.bundles[run := w.bundles[run]] == w.bundles;
  }

  /** After an attempt the flush has ended, or it goes on behind the entry. */
  ghost predicate GoesOn(w: Startup.World, next: Startup.World, run: RunId, i: nat, now: int)
    requires run in w.bundles && i < |w.bundles[run].outbox|
  {
    && run in next.bundles && !next.bundles[run].deleted && |next.bundles[run].outbox| == |w.bundles[run].outbox|
    && (forall j :: 0 <= j < i + 1 ==> Retired(next.bundles[run], j))
    && Flushed(w, run, i, now) == Flushed(next, run, i + 1, now)
  }

  lemma FlushOpen(w: Startup.World, run: RunId, i: nat, now: int)
    requires run in w.bundles && i < |w.bundles[run].outbox| && !Retired(w.bundles[run], i)
    requires !w.bundles[run].deleted && forall j :: 0 <= j < i ==> Retired(w.bundles[run], j)
    ensures var next := Next(w, Attempt(run, now, true));
      Flushed(w, run, i, now) == next || GoesOn(w, next, run, i, now)
  {
    AttemptOpen(w, run, i, now, true);
    MarkedRetires(w.bundles[run], i);
  }

  /** What `flush_run` does to ledger and journal, some number of attempts does. */
  lemma {:induction false} FlushIsAttempts(w: Startup.World, run: RunId, i: nat, now: int) returns (n: nat)
    requires run in w.bundles && !w.bundles[run].deleted && i <= |w.bundles[run].outbox|
    requires forall j :: 0 <= j < i ==> Retired(w.bundles[run], j)
    ensures After(w, seq(n, _ => Attempt(run, now, true))) == Flushed(w, run, i, now)
    decreases |w.bundles[run].outbox| - i
  {
    var b, step := w.bundles[run], Attempt(run, now, true);
    if i == |b.outbox| {
      n := 0;
      FlushedAtEnd(w, run, now);
    } else if Retired(b, i) {
      SkipRetired(w, run, i, now);
      n := FlushIsAttempts(w, run, i + 1, now);
    } else {
      var next := Next(w, step);
      FlushOpen(w, run, i, now);
      var m := 0;
      if Flushed(w, run, i, now) != next {
        m := FlushIsAttempts(next, run, i + 1, now);
      }
      OneMore(w, step, m);
      n := m + 1;
    }
  }

  function Flushed(w: Startup.World, run: RunId, i: nat, now: int): Startup.World
    requires run in w.bundles && i <= |w.bundles[run].outbox|
  {
    var (db, flushed, reply) := Startup.Flush(w.db, w.bundles[run], i, now);
    Startup.World(db, w.bundles[run := flushed])
  }

  lemma MarkedRetires(b: Startup.Bundle, i: nat)
    requires i < |b.outbox| && forall j :: 0 <= j < i ==> Retired(b, j)
    ensures forall j :: 0 <= j < i + 1 ==> Retired(Startup.Marked(b, i), j)
  {
    forall j | 0 <= j < i + 1 ensures Retired(Startup.Marked(b, i), j) {
      if j < i {
        assert Retired(b, j) && Startup.Marked(b, i).outbox[j] == b.outbox[j];
      }
    }
  }
}
