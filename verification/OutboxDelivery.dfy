/** At-least-once outbox delivery into the ledger (backend/src/atlasflow/storage.py `apply_outbox`). */
module OutboxDelivery {
  import opened Common
  import opened RunLedger
  import Startup

  datatype Delivery = Delivery(event: RunEvent, changes: Changes, now: int)

  function Deliver(db: Db, d: Delivery): Db {
    Step(db, ApplyOutbox(d.event, d.changes, d.now)).0
  }

  function DeliverAll(db: Db, ds: seq<Delivery>): Db {
    if ds == [] then db else Deliver(DeliverAll(db, ds[..|ds| - 1]), ds[|ds| - 1])
  }

  ghost predicate Mentions(ds: seq<Delivery>, id: EventId) {
    exists i :: 0 <= i < |ds| && ds[i].event.eventId == id
  }

  /** Each event id at its first delivery only. */
  ghost function FirstOccurrences(ds: seq<Delivery>): seq<Delivery> {
    if ds == [] then []
    else if Mentions(ds[..|ds| - 1], ds[|ds| - 1].event.eventId) then FirstOccurrences(ds[..|ds| - 1])
    else FirstOccurrences(ds[..|ds| - 1]) + [ds[|ds| - 1]]
  }

  /** The guards of `apply_outbox`: the event is new, its run exists, and the patched record keeps the rules. */
  predicate Accepts(db: Db, d: Delivery) {
    && !HasEvent(db.events, d.event.eventId)
    && d.event.runId in db.runs
    && MeetsTerminalRules(Patched(db.runs[d.event.runId], d.changes, d.now))
  }

  /** The delivery at i repeats an earlier one that was refused, and now gets through. */
  ghost predicate RetryAccepted(db: Db, ds: seq<Delivery>, i: nat)
    requires i < |ds|
  {
    Mentions(ds[..i], ds[i].event.eventId) && Accepts(DeliverAll(db, ds[..i]), ds[i])
  }

  lemma DeliverIds(db: Db, d: Delivery, id: EventId)
    ensures HasEvent(Deliver(db, d).events, id) <==>
      HasEvent(db.events, id) || (Accepts(db, d) && id == d.event.eventId)
    ensures !Accepts(db, d) ==> Deliver(db, d) == db
  {
    if Accepts(db, d) {
      var after := Deliver(db, d).events;
      assert after == Inserted(db.events, d.event);
      assert after[|db.events|].eventId == d.event.eventId;
      assert forall i :: 0 <= i < |db.events| ==> after[i] == db.events[i];
    }
  }

  lemma {:induction false} OnlyMentionedArrive(db: Db, ds: seq<Delivery>, id: EventId)
    requires HasEvent(DeliverAll(db, ds).events, id)
    ensures HasEvent(db.events, id) || Mentions(ds, id)
  {
    if ds != [] {
      var n := |ds| - 1;
      DeliverIds(DeliverAll(db, ds[..n]), ds[n], id);
      if HasEvent(DeliverAll(db, ds[..n]).events, id) {
        OnlyMentionedArrive(db, ds[..n], id);
        if Mentions(ds[..n], id) {
          var i :| 0 <= i < n && ds[..n][i].event.eventId == id;
          assert ds[i].event.eventId == id;
        }
      } else {
        assert ds[n].event.eventId == id;
      }
    }
  }

  /** As long as no refused delivery succeeds later, repeats leave no trace. */
  lemma {:induction false} RepeatsHaveNoEffect(db: Db, ds: seq<Delivery>)
    requires forall i :: 0 <= i < |ds| ==> !RetryAccepted(db, ds, i)
    ensures DeliverAll(db, ds) == DeliverAll(db, FirstOccurrences(ds))
  {
    if ds != [] {
      var n := |ds| - 1;
      var front := ds[..n];
      forall i | 0 <= i < n ensures !RetryAccepted(db, front, i) {
        assert front[..i] == ds[..i];
        assert !RetryAccepted(db, ds, i);
      }
      RepeatsHaveNoEffect(db, front);
      DeliverIds(DeliverAll(db, front), ds[n], ds[n].event.eventId);
      if Mentions(front, ds[n].event.eventId) {
        assert !RetryAccepted(db, ds, n);
      } else {
        var firsts := FirstOccurrences(front);
        assert (firsts + [ds[n]])[..|firsts|] == firsts;
      }
    }
  }

  /** id arrived through a retry: it is in the ledger, but delivering first occurrences alone leaves it out. */
  ghost predicate OnlyByRetry(db: Db, ds: seq<Delivery>, id: EventId) {
    && HasEvent(DeliverAll(db, ds).events, id) && Mentions(ds, id)
    && !HasEvent(DeliverAll(db, FirstOccurrences(ds)).events, id)
  }

  lemma FirstOccurrencesSnoc(db: Db, front: seq<Delivery>, d: Delivery)
    ensures DeliverAll(db, front + [d]) == Deliver(DeliverAll(db, front), d)
    ensures DeliverAll(db, FirstOccurrences(front + [d])) ==
      if Mentions(front, d.event.eventId) then DeliverAll(db, FirstOccurrences(front))
      else Deliver(DeliverAll(db, FirstOccurrences(front)), d)
  {
    assert (front + [d])[..|front|] == front;
    var firsts := FirstOccurrences(front);
    assert (firsts + [d])[..|firsts|] == firsts;
  }

  lemma MentionsSnoc(front: seq<Delivery>, d: Delivery, id: EventId)
    ensures Mentions(front + [d], id) <==> Mentions(front, id) || d.event.eventId == id
  {
    var ds := front + [d];
    assert ds[|front|] == d;
    if Mentions(front, id) {
      var j :| 0 <= j < |front| && front[j].event.eventId == id;
      assert ds[j].event.eventId == id;
    }
  }

  /** Nothing delivered later can hide a retried event. */
  lemma RetryStaysVisible(db: Db, front: seq<Delivery>, d: Delivery, id: EventId)
    requires OnlyByRetry(db, front, id)
    ensures OnlyByRetry(db, front + [d], id)
  {
    FirstOccurrencesSnoc(db, front, d);
    MentionsSnoc(front, d, id);
    DeliverIds(DeliverAll(db, front), d, id);
    DeliverIds(DeliverAll(db, FirstOccurrences(front)), d, id);
  }

  lemma {:induction false} RetryShows(db: Db, ds: seq<Delivery>, i: nat) returns (id: EventId)
    requires i < |ds| && RetryAccepted(db, ds, i)
    ensures OnlyByRetry(db, ds, id)
    decreases |ds|
  {
    var n := |ds| - 1;
    var front := ds[..n];
    assert ds == front + [ds[n]];
    if i < n {
      assert front[..i] == ds[..i];
      id := RetryShows(db, front, i);
      RetryStaysVisible(db, front, ds[n], id);
    } else if k :| 0 <= k < n && RetryAccepted(db, front, k) {
      id := RetryShows(db, front, k);
      RetryStaysVisible(db, front, ds[n], id);
    } else {
      id := ds[n].event.eventId;
      RepeatsHaveNoEffect(db, front);
      FirstOccurrencesSnoc(db, front, ds[n]);
      MentionsSnoc(front, ds[n], id);
      DeliverIds(DeliverAll(db, front), ds[n], id);
    }
  }

  /** Deliveries with repeats have exactly the effect of their first occurrences, unless a delivery that was refused
      the first time is repeated once it can succeed. */
  lemma EffectIsFirstOccurrencesExactly(db: Db, ds: seq<Delivery>)
    ensures DeliverAll(db, ds) == DeliverAll(db, FirstOccurrences(ds)) <==>
      forall i :: 0 <= i < |ds| ==> !RetryAccepted(db, ds, i)
  {
    if forall i :: 0 <= i < |ds| ==> !RetryAccepted(db, ds, i) {
      RepeatsHaveNoEffect(db, ds);
    } else {
      var i :| 0 <= i < |ds| && RetryAccepted(db, ds, i);
      var id := RetryShows(db, ds, i);
    }
  }

  /** In particular the law holds whenever no first delivery is refused. */
  lemma NoRefusalNoRetry(db: Db, ds: seq<Delivery>)
    requires forall i :: 0 <= i < |ds| && !Mentions(ds[..i], ds[i].event.eventId) ==>
      HasEvent(db.events, ds[i].event.eventId) || Accepts(DeliverAll(db, ds[..i]), ds[i])
    ensures DeliverAll(db, ds) == DeliverAll(db, FirstOccurrences(ds))
  {
    forall i | 0 <= i < |ds| ensures !RetryAccepted(db, ds, i) {
      MentionedHaveArrived(db, ds, i, ds[i].event.eventId);
    }
    RepeatsHaveNoEffect(db, ds);
  }

  lemma {:induction false} MentionedHaveArrived(db: Db, ds: seq<Delivery>, n: nat, id: EventId)
    requires forall i :: 0 <= i < |ds| && !Mentions(ds[..i], ds[i].event.eventId) ==>
      HasEvent(db.events, ds[i].event.eventId) || Accepts(DeliverAll(db, ds[..i]), ds[i])
    requires n <= |ds|
    ensures HasEvent(db.events, id) ==> HasEvent(DeliverAll(db, ds[..n]).events, id)
    ensures Mentions(ds[..n], id) ==> HasEvent(DeliverAll(db, ds[..n]).events, id)
    decreases n
  {
    if n > 0 {
      var front := ds[..n - 1];
      assert ds[..n][..n - 1] == front;
      MentionedHaveArrived(db, ds, n - 1, id);
      DeliverIds(DeliverAll(db, front), ds[n - 1], id);
      assert ds[..n] == front + [ds[n - 1]];
      MentionsSnoc(front, ds[n - 1], id);
    }
  }

  function Completion(run: RunId, now: int): Delivery {
    Delivery(RunEvent("e1", 0, run, "run_completed", ""), NO_CHANGES.(status := Some(Completed)), now)
  }

  function ReportArrives(run: RunId, now: int): Delivery {
    Delivery(RunEvent("e2", 0, run, "node_succeeded", ""), NO_CHANGES.(report := Some(Some("r"))), now)
  }

  lemma RetriedAfterOther(db: Db, refused: Delivery, other: Delivery)
    requires Deliver(db, refused) == db && Accepts(Deliver(db, other), refused)
    ensures var ds := [refused, other, refused];
      RetryAccepted(db, ds, 2) && DeliverAll(db, ds) != DeliverAll(db, FirstOccurrences(ds))
  {
    var ds, front := [refused, other, refused], [refused, other];
    assert ds[..2] == front && front[..1] == [refused] && [refused][..0] == [];
    assert front[0].event.eventId == ds[2].event.eventId;
    assert DeliverAll(db, []) == db && DeliverAll(db, [refused]) == db;
    assert DeliverAll(db, front) == Deliver(db, other);
    assert RetryAccepted(db, ds, 2);
    EffectIsFirstOccurrencesExactly(db, ds);
  }

  /** The smallest failure of the unconditional law: a completion refused for want of a report, then the report, then
      the completion again. */
  lemma RetryExample(record: RunRecord, now: int)
    requires record.status == Running && record.report == None
    ensures var db := Db(map[record.id := record], []);
      var ds := [Completion(record.id, now), ReportArrives(record.id, now), Completion(record.id, now)];
      RetryAccepted(db, ds, 2) && DeliverAll(db, ds) != DeliverAll(db, FirstOccurrences(ds))
  {
    CompletionNeedsReport(record, now);
    RetriedAfterOther(Db(map[record.id := record], []), Completion(record.id, now), ReportArrives(record.id, now));
  }

  lemma CompletionNeedsReport(record: RunRecord, now: int)
    requires record.status == Running && record.report == None
    ensures var db := Db(map[record.id := record], []);
      && Deliver(db, Completion(record.id, now)) == db
      && Accepts(Deliver(db, ReportArrives(record.id, now)), Completion(record.id, now))
  {
    var db := Db(map[record.id := record], []);
    var report := ReportArrives(record.id, now);
    assert "r"[0] == 'r' && !Blank("r");
    assert Accepts(db, report);
    DeliverIds(db, report, "e1");
  }

  /** Redelivery under any interleaving: once an event is logged, delivering it again changes nothing and reports no
      error, as long as its run has not been deleted. */
  lemma RedeliveryIsSilent(db: Db, ops: seq<Op>, d: Delivery)
    requires Consistent(db) && Delete(d.event.runId) !in ops
    requires exists e :: e in Log(db.events, d.event.runId) && e.eventId == d.event.eventId
    ensures Step(Run(db, ops), ApplyOutbox(d.event, d.changes, d.now)) == (Run(db, ops), Done)
  {
    ReaderMissesNothing(db, ops, d.event.runId);
    var after := Run(db, ops);
    var e :| e in Log(db.events, d.event.runId) && e.eventId == d.event.eventId;
    assert e in Log(after.events, d.event.runId);
    LoggedIsStored(after.events, d.event.runId, e);
  }

  lemma {:induction false} LoggedIsStored(events: seq<RunEvent>, run: RunId, e: RunEvent)
    requires e in Log(events, run)
    ensures HasEvent(events, e.eventId)
  {
    var front, last := events[..|events| - 1], events[|events| - 1];
    if e == last && last.runId == run {
      assert events[|events| - 1].eventId == e.eventId;
    } else {
      LoggedIsStored(front, run, e);
      var i :| 0 <= i < |front| && front[i].eventId == e.eventId;
      assert events[i].eventId == e.eventId;
    }
  }

  // ----- One outbox obeys the law -----

  /** The same event and patch; a retry differs only in its time. */
  predicate SamePayload(a: Delivery, b: Delivery) {
    a.event == b.event && a.changes == b.changes
  }

  /** What one outbox attempts: it turns from an entry to another only once the ledger has the first one's event, and it
      retries an entry as it was. */
  ghost predicate FromOneOutbox(db: Db, ds: seq<Delivery>) {
    forall i, j :: 0 <= i < j < |ds| && j == i + 1 ==> Turns(DeliverAll(db, ds[..j]), ds[i], ds[j])
  }

  predicate Turns(db: Db, last: Delivery, next: Delivery) {
    SamePayload(last, next) || HasEvent(db.events, last.event.eventId)
  }

  /** An id that was attempted is logged, or its delivery was refused just now and still would be. */
  lemma {:induction false} AttemptedOrRefused(db: Db, ds: seq<Delivery>, n: nat, id: EventId)
    requires FromOneOutbox(db, ds) && n <= |ds| && Mentions(ds[..n], id)
    ensures HasEvent(DeliverAll(db, ds[..n]).events, id)
      || (n > 0 && ds[n - 1].event.eventId == id && !Accepts(DeliverAll(db, ds[..n]), ds[n - 1]))
    decreases n
  {
    if n > 0 {
      var front := ds[..n - 1];
      assert ds[..n] == front + [ds[n - 1]] && ds[..n][..n - 1] == front;
      MentionsSnoc(front, ds[n - 1], id);
      DeliverIds(DeliverAll(db, front), ds[n - 1], id);
      if ds[n - 1].event.eventId != id {
        AttemptedOrRefused(db, ds, n - 1, id);
        assert n > 1 ==> Turns(DeliverAll(db, ds[..n - 1]), ds[n - 2], ds[n - 1]);
      }
    }
  }

  /** Whatever an outbox attempts, its repeats have no effect: no condition is needed. */
  lemma OneOutboxObeysLaw(db: Db, ds: seq<Delivery>)
    requires FromOneOutbox(db, ds)
    ensures DeliverAll(db, ds) == DeliverAll(db, FirstOccurrences(ds))
  {
    forall i | 0 <= i < |ds| ensures !RetryAccepted(db, ds, i) {
      var id := ds[i].event.eventId;
      if Mentions(ds[..i], id) {
        AttemptedOrRefused(db, ds, i, id);
        if !HasEvent(DeliverAll(db, ds[..i]).events, id) {
          assert Turns(DeliverAll(db, ds[..i]), ds[i - 1], ds[i]);
        }
      }
    }
    RepeatsHaveNoEffect(db, ds);
  }

  // ----- Repeated flushes are one outbox -----

  function DeliveryOf(e: Startup.Envelope, now: int): Delivery {
    Delivery(e.event, e.changes, now)
  }

  /** The deliveries one flush attempts, from the i-th entry on, a refused one included. */
  function Attempts(db: Db, b: Startup.Bundle, i: nat, now: int): seq<Delivery>
    requires i <= |b.outbox|
    decreases |b.outbox| - i
  {
    if i == |b.outbox| then []
    else
      var e := b.outbox[i];
      if e.delivered || Startup.Fenced(b, e) then Attempts(db, b, i + 1, now)
      else
        var (after, reply) := Step(db, ApplyOutbox(e.event, e.changes, now));
        [DeliveryOf(e, now)]
        + if reply.Refused? then []
          else Attempts(after, b.(outbox := b.outbox[i := e.(delivered := true)]), i + 1, now)
  }

  /** Flushes one after the other; before each, new entries may have joined the outbox. */
  function Rounds(db: Db, b: Startup.Bundle, rounds: seq<(seq<Startup.Envelope>, int)>): seq<Delivery>
    decreases |rounds|
  {
    if rounds == [] then [] else
      var grown, now := b.(outbox := b.outbox + rounds[0].0), rounds[0].1;
      var (after, flushed, reply) := Startup.Flush(db, grown, 0, now);
      Attempts(db, grown, 0, now) + Rounds(after, flushed, rounds[1..])
  }

  /** The same requirement read from the front, with the attempt before. */
  ghost predicate Continues(db: Db, last: Option<Delivery>, ds: seq<Delivery>)
    decreases |ds|
  {
    ds == []
    || ((last.Some? ==> Turns(db, last.value, ds[0])) && Continues(Deliver(db, ds[0]), Some(ds[0]), ds[1..]))
  }

  lemma {:induction false} DeliverAllCons(db: Db, d: Delivery, ds: seq<Delivery>)
    ensures DeliverAll(db, [d] + ds) == DeliverAll(Deliver(db, d), ds)
  {
    var all := [d] + ds;
    if ds == [] {
      assert all[..0] == [] && all == [d];
    } else {
      assert all[..|all| - 1] == [d] + ds[..|ds| - 1];
      DeliverAllCons(db, d, ds[..|ds| - 1]);
    }
  }

  lemma {:induction false} ContinuesIsOneOutbox(db: Db, last: Option<Delivery>, ds: seq<Delivery>)
    requires Continues(db, last, ds)
    ensures FromOneOutbox(db, ds)
    decreases |ds|
  {
    if ds != [] {
      var next, rest := Deliver(db, ds[0]), ds[1..];
      ContinuesIsOneOutbox(next, Some(ds[0]), rest);
      forall i, j | 0 <= i < j < |ds| && j == i + 1 ensures Turns(DeliverAll(db, ds[..j]), ds[i], ds[j]) {
        assert ds[..j] == [ds[0]] + rest[..j - 1];
        DeliverAllCons(db, ds[0], rest[..j - 1]);
        if i == 0 {
          assert rest[..0] == [];
        } else {
          assert Turns(DeliverAll(next, rest[..i]), rest[i - 1], rest[i]);
        }
      }
    }
  }

  /** The last attempt is logged, or it is the first open entry from i on. */
  ghost predicate Resumes(db: Db, last: Option<Delivery>, b: Startup.Bundle, i: nat)
    requires i <= |b.outbox|
  {
    last.Some? ==>
      || HasEvent(db.events, last.value.event.eventId)
      || exists k :: i <= k < |b.outbox| && FirstOpen(b, i, k)
           && b.outbox[k].event == last.value.event && b.outbox[k].changes == last.value.changes
  }

  ghost predicate FirstOpen(b: Startup.Bundle, i: nat, k: nat)
    requires i <= k < |b.outbox|
  {
    && !b.outbox[k].delivered && !Startup.Fenced(b, b.outbox[k])
    && forall j :: i <= j < k ==> b.outbox[j].delivered || Startup.Fenced(b, b.outbox[j])
  }

  /** The tail continues every attempt that leaves the outbox in this state. */
  ghost predicate MayFollow(db: Db, b: Startup.Bundle, tail: seq<Delivery>) {
    forall last :: Resumes(db, last, b, 0) ==> Continues(db, last, tail)
  }

  /** One flush continues the attempts before it, and what continues the flush continues them too. */
  lemma {:induction false} AttemptsThen(db: Db, b: Startup.Bundle, i: nat, now: int, last: Option<Delivery>,
      tail: seq<Delivery>)
    requires i <= |b.outbox| && Resumes(db, last, b, i)
    requires forall j :: 0 <= j < i ==> b.outbox[j].delivered || Startup.Fenced(b, b.outbox[j])
    requires MayFollow(Startup.Flush(db, b, i, now).0, Startup.Flush(db, b, i, now).1, tail)
    ensures Continues(db, last, Attempts(db, b, i, now) + tail)
    decreases |b.outbox| - i
  {
    if i == |b.outbox| {
      assert Resumes(db, last, b, 0);
      assert Attempts(db, b, i, now) + tail == tail;
    } else {
      var e := b.outbox[i];
      if e.delivered || Startup.Fenced(b, e) {
        AttemptsThen(db, b, i + 1, now, last, tail);
      } else {
        OpenEntryAttempted(db, b, i, now, last, tail);
      }
    }
  }

  lemma {:induction false} OpenEntryAttempted(db: Db, b: Startup.Bundle, i: nat, now: int, last: Option<Delivery>,
      tail: seq<Delivery>)
    requires i < |b.outbox| && Resumes(db, last, b, i)
    requires !b.outbox[i].delivered && !Startup.Fenced(b, b.outbox[i])
    requires forall j :: 0 <= j < i ==> b.outbox[j].delivered || Startup.Fenced(b, b.outbox[j])
    requires MayFollow(Startup.Flush(db, b, i, now).0, Startup.Flush(db, b, i, now).1, tail)
    ensures Continues(db, last, Attempts(db, b, i, now) + tail)
    decreases |b.outbox| - i, 0
  {
    var e := b.outbox[i];
    var d := DeliveryOf(e, now);
    var (after, reply) := Step(db, ApplyOutbox(e.event, e.changes, now));
    var all := Attempts(db, b, i, now) + tail;
    assert last.Some? ==> Turns(db, last.value, d);
    DeliverIds(db, d, e.event.eventId);
    if reply.Refused? {
      assert FirstOpen(b, 0, i);
      assert Resumes(db, Some(d), b, 0);
      assert all == [d] + tail && all[1..] == tail;
      assert Deliver(db, d) == db;
    } else {
      var marked := b.(outbox := b.outbox[i := e.(delivered := true)]);
      assert all == [d] + (Attempts(after, marked, i + 1, now) + tail);
      assert all[1..] == Attempts(after, marked, i + 1, now) + tail;
      assert Startup.Flush(db, b, i, now) == Startup.Flush(after, marked, i + 1, now);
      AttemptsThen(after, marked, i + 1, now, Some(d), tail);
    }
    assert all[0] == d;
  }

  lemma {:induction false} RoundsContinue(db: Db, b: Startup.Bundle, last: Option<Delivery>,
      rounds: seq<(seq<Startup.Envelope>, int)>)
    requires Resumes(db, last, b, 0)
    ensures Continues(db, last, Rounds(db, b, rounds))
    decreases |rounds|
  {
    if rounds != [] {
      var grown, now := b.(outbox := b.outbox + rounds[0].0), rounds[0].1;
      var (after, flushed, reply) := Startup.Flush(db, grown, 0, now);
      forall l | Resumes(after, l, flushed, 0) ensures Continues(after, l, Rounds(after, flushed, rounds[1..])) {
        RoundsContinue(after, flushed, l, rounds[1..]);
      }
      GrownResumes(db, last, b, rounds[0].0);
      AttemptsThen(db, grown, 0, now, last, Rounds(after, flushed, rounds[1..]));
    }
  }

  lemma GrownResumes(db: Db, last: Option<Delivery>, b: Startup.Bundle, more: seq<Startup.Envelope>)
    requires Resumes(db, last, b, 0)
    ensures Resumes(db, last, b.(outbox := b.outbox + more), 0)
  {
    var grown := b.(outbox := b.outbox + more);
    if last.Some? && !HasEvent(db.events, last.value.event.eventId) {
      var k :| 0 <= k < |b.outbox| && FirstOpen(b, 0, k)
        && b.outbox[k].event == last.value.event && b.outbox[k].changes == last.value.changes;
      assert forall j :: 0 <= j <= k ==> grown.outbox[j] == b.outbox[j];
      assert FirstOpen(grown, 0, k);
    }
  }

  /** The attempts of a flush are what it does to the ledger. */
  lemma {:induction false} AttemptsAreTheFlush(db: Db, b: Startup.Bundle, i: nat, now: int)
    requires i <= |b.outbox|
    ensures DeliverAll(db, Attempts(db, b, i, now)) == Startup.Flush(db, b, i, now).0
    decreases |b.outbox| - i
  {
    if i < |b.outbox| {
      var e := b.outbox[i];
      if e.delivered || Startup.Fenced(b, e) {
        AttemptsAreTheFlush(db, b, i + 1, now);
      } else {
        var d := DeliveryOf(e, now);
        var (after, reply) := Step(db, ApplyOutbox(e.event, e.changes, now));
        if reply.Refused? {
          DeliverAllCons(db, d, []);
          assert [d] + [] == [d];
        } else {
          var marked := b.(outbox := b.outbox[i := e.(delivered := true)]);
          DeliverAllCons(db, d, Attempts(after, marked, i + 1, now));
          AttemptsAreTheFlush(after, marked, i + 1, now);
        }
      }
    }
  }

  /** However often one outbox is flushed while it grows, its repeats have no effect. */
  lemma RepeatedFlushesObeyLaw(db: Db, b: Startup.Bundle, rounds: seq<(seq<Startup.Envelope>, int)>)
    ensures var ds := Rounds(db, b, rounds);
      DeliverAll(db, ds) == DeliverAll(db, FirstOccurrences(ds))
  {
    RoundsContinue(db, b, None, rounds);
    ContinuesIsOneOutbox(db, None, Rounds(db, b, rounds));
    OneOutboxObeysLaw(db, Rounds(db, b, rounds));
  }
}
