/** Multi-run locking in sorted order (backend/src/atlasflow/service.py `conversation_deletion` and the single-run
    commands). Run ids stand for their place in the order `sorted` uses. */
module RunLocks {
  import opened Common
  import opened Sorting

  type LockId = int

  function Self(id: LockId): int {
    id
  }

  /** `sorted(set(run_ids))`. */
  function LockOrder(runIds: seq<LockId>): seq<LockId> {
    SortBy(Dedupe(runIds), Self)
  }

  lemma LockOrderAscends(runIds: seq<LockId>)
    ensures StrictlyAscending(LockOrder(runIds), Self)
    ensures forall id :: id in LockOrder(runIds) <==> id in runIds
  {
    var u := Dedupe(runIds);
    assert forall i, j :: 0 <= i < j < |u| ==> Self(u[i]) != Self(u[j]);
    SortStrict(u, Self);
  }

  /** A command: it takes its locks in order, does its work, and lets go of all of them. */
  datatype Command = Command(wanted: seq<LockId>, held: nat, done: bool)

  predicate Holds(c: Command, id: LockId) {
    !c.done && c.held <= |c.wanted| && exists i :: 0 <= i < c.held && c.wanted[i] == id
  }

  predicate Free(cs: seq<Command>, id: LockId) {
    forall k :: 0 <= k < |cs| ==> !Holds(cs[k], id)
  }

  predicate CanStep(cs: seq<Command>, k: nat)
    requires k < |cs|
  {
    !cs[k].done && cs[k].held <= |cs[k].wanted| &&
    (cs[k].held == |cs[k].wanted| || Free(cs, cs[k].wanted[cs[k].held]))
  }

  /** Take the next lock, or finish once all are held. */
  function Advance(cs: seq<Command>, k: nat): seq<Command>
    requires k < |cs| && CanStep(cs, k)
  {
    var c := cs[k];
    cs[k := if c.held == |c.wanted| then c.(done := true) else c.(held := c.held + 1)]
  }

  /** Locks are taken in ascending order and never shared. */
  ghost predicate Ordered(cs: seq<Command>) {
    && (forall k :: 0 <= k < |cs| ==> cs[k].held <= |cs[k].wanted| && StrictlyAscending(cs[k].wanted, Self))
    && (forall j, k, id :: 0 <= j < k < |cs| && Holds(cs[j], id) ==> !Holds(cs[k], id))
  }

  lemma AdvanceKeepsOrdered(cs: seq<Command>, k: nat)
    requires Ordered(cs) && k < |cs| && CanStep(cs, k)
    ensures Ordered(Advance(cs, k))
  {
    var next := Advance(cs, k);
    var c := cs[k];
    forall id | Holds(next[k], id) ensures Holds(c, id) || (c.held < |c.wanted| && id == c.wanted[c.held]) {
      var i :| 0 <= i < next[k].held && next[k].wanted[i] == id;
      assert i < c.held ==> Holds(c, id);
    }
    forall a, b, id | 0 <= a < b < |next| && Holds(next[a], id) ensures !Holds(next[b], id) {
      if a == k {
        assert Holds(c, id) || Free(cs, id);
      } else {
        assert Holds(cs[a], id);
      }
    }
  }

  /** The lock an unfinished command is waiting for. */
  function Waiting(c: Command): LockId {
    if c.held < |c.wanted| then c.wanted[c.held] else 0
  }

  /** What a step does: the command takes exactly its next lock, or finishes and lets go of all of them; the others hold
      what they held. */
  lemma AdvanceTakesNext(cs: seq<Command>, k: nat, j: nat, id: LockId)
    requires Ordered(cs) && k < |cs| && CanStep(cs, k) && j < |cs|
    ensures |Advance(cs, k)| == |cs| && Advance(cs, k)[j].wanted == cs[j].wanted
    ensures j != k ==> Advance(cs, k)[j] == cs[j]
    ensures Advance(cs, k)[k].done <==> forall i :: 0 <= i < |cs[k].wanted| ==> Holds(cs[k], cs[k].wanted[i])
    ensures Advance(cs, k)[k].done ==> !Holds(Advance(cs, k)[k], id)
    ensures !Advance(cs, k)[k].done ==>
      (Holds(Advance(cs, k)[k], id) <==> Holds(cs[k], id) || (Free(cs, id) && id == Waiting(cs[k])))
  {
    var c, next := cs[k], Advance(cs, k)[k];
    if c.held < |c.wanted| {
      var last := c.wanted[c.held];
      assert next.wanted[c.held] == last;
      forall i | 0 <= i < c.held ensures c.wanted[i] != last {
        assert Self(c.wanted[i]) < Self(last);
      }
      assert !Holds(c, last);
      if Holds(next, id) {
        var i :| 0 <= i < next.held && next.wanted[i] == id;
        assert i < c.held ==> Holds(c, id);
      }
      if Holds(c, id) {
        var i :| 0 <= i < c.held && c.wanted[i] == id;
        assert next.wanted[i] == id;
      }
    }
  }

  /** No deadlock: while some command is unfinished, some command can step. */
  lemma NoDeadlock(cs: seq<Command>)
    requires Ordered(cs) && exists k :: 0 <= k < |cs| && !cs[k].done
    ensures exists k :: 0 <= k < |cs| && CanStep(cs, k)
  {
    var start :| 0 <= start < |cs| && !cs[start].done;
    if k :| 0 <= k < |cs| && !cs[k].done && cs[k].held == |cs[k].wanted| {
      assert CanStep(cs, k);
    } else {
      var waits := set k | 0 <= k < |cs| && !cs[k].done :: Waiting(cs[k]);
      assert Waiting(cs[start]) in waits;
      var top := HasMaximum(waits);
      var p :| 0 <= p < |cs| && !cs[p].done && Waiting(cs[p]) == top;
      forall q | 0 <= q < |cs| ensures !Holds(cs[q], top) {
        forall i | !cs[q].done && 0 <= i < cs[q].held ensures cs[q].wanted[i] != top {
          assert Self(cs[q].wanted[i]) < Self(cs[q].wanted[cs[q].held]);
          assert Waiting(cs[q]) in waits;
        }
      }
      assert CanStep(cs, p);
    }
  }

  /** How many steps are left for all commands together. */
  function Work(cs: seq<Command>): int {
    if cs == [] then 0
    else
      var c := cs[|cs| - 1];
      Work(cs[..|cs| - 1]) + (if c.done then 0 else |c.wanted| - c.held + 1)
  }

  lemma {:induction false} WorkBounds(cs: seq<Command>)
    requires forall k :: 0 <= k < |cs| ==> cs[k].held <= |cs[k].wanted|
    ensures Work(cs) >= 0
    ensures Work(cs) == 0 <==> forall k :: 0 <= k < |cs| ==> cs[k].done
  {
    if cs != [] {
      WorkBounds(cs[..|cs| - 1]);
      assert forall k :: 0 <= k < |cs| - 1 ==> cs[..|cs| - 1][k] == cs[k];
    }
  }

  lemma WorkShrinks(cs: seq<Command>, k: nat)
    requires k < |cs| && CanStep(cs, k) && forall j :: 0 <= j < |cs| ==> cs[j].held <= |cs[j].wanted|
    ensures Work(Advance(cs, k)) == Work(cs) - 1
  {
    var next := Advance(cs, k);
    WorkUpdate(cs, k, next[k]);
  }

  lemma {:induction false} WorkUpdate(cs: seq<Command>, k: nat, c: Command)
    requires k < |cs|
    ensures Work(cs[k := c]) - (if c.done then 0 else |c.wanted| - c.held + 1) ==
            Work(cs) - (if cs[k].done then 0 else |cs[k].wanted| - cs[k].held + 1)
  {
    var n := |cs| - 1;
    if k == n {
      assert cs[k := c][..n] == cs[..n];
    } else {
      assert cs[k := c][..n] == cs[..n][k := c];
      WorkUpdate(cs[..n], k, c);
    }
  }

  /** A schedule: each entry names the command that steps next. */
  ghost predicate Schedule(cs: seq<Command>, picks: seq<nat>, states: seq<seq<Command>>) {
    && |states| == |picks| + 1 && states[0] == cs
    && forall i :: 0 <= i < |picks| ==>
         picks[i] < |states[i]| && CanStep(states[i], picks[i]) && states[i + 1] == Advance(states[i], picks[i])
  }

  /** Commands that have not started: deletions of sorted id sets and single-run commands alike. */
  ghost predicate Fresh(cs: seq<Command>) {
    forall k :: 0 <= k < |cs| ==> !cs[k].done && cs[k].held == 0 && exists ids :: cs[k].wanted == LockOrder(ids)
  }

  lemma FreshIsOrdered(cs: seq<Command>)
    requires Fresh(cs)
    ensures Ordered(cs)
  {
    forall k | 0 <= k < |cs| ensures StrictlyAscending(cs[k].wanted, Self) {
      var ids :| cs[k].wanted == LockOrder(ids);
      LockOrderAscends(ids);
    }
  }

  lemma {:induction false} ScheduleFacts(cs: seq<Command>, picks: seq<nat>, states: seq<seq<Command>>, n: nat)
    requires Fresh(cs) && Schedule(cs, picks, states) && n <= |picks|
    ensures Ordered(states[n]) && |states[n]| == |cs| && Work(states[n]) == Work(cs) - n
  {
    if n == 0 {
      FreshIsOrdered(cs);
    } else {
      ScheduleFacts(cs, picks, states, n - 1);
      assert CanStep(states[n - 1], picks[n - 1]) && states[n - 1 + 1] == Advance(states[n - 1], picks[n - 1]);
      AdvanceKeepsOrdered(states[n - 1], picks[n - 1]);
      WorkShrinks(states[n - 1], picks[n - 1]);
    }
  }

  /** Any number of concurrent deletions and commands, under any schedule: it ends after a bounded number of steps, it
      can always go on until then, and at the end every command has finished. */
  lemma EveryScheduleFinishes(cs: seq<Command>, picks: seq<nat>, states: seq<seq<Command>>)
    requires Fresh(cs) && Schedule(cs, picks, states)
    ensures |picks| <= Work(cs)
    ensures |picks| == Work(cs) <==> forall k :: 0 <= k < |states[|picks|]| ==> states[|picks|][k].done
    ensures |picks| < Work(cs) ==> exists k :: 0 <= k < |states[|picks|]| && CanStep(states[|picks|], k)
  {
    var n := |picks|;
    ScheduleFacts(cs, picks, states, n);
    WorkBounds(states[n]);
    if n < Work(cs) {
      NoDeadlock(states[n]);
    }
  }
}
