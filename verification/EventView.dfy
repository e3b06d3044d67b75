/** The browser's bounded view of a run's event log (frontend/lib/event-reducer.ts). */
module EventView {
  import opened Common
  import opened Sorting

  const MAX_EVENTS: nat := 1000

  datatype RunEvent = RunEvent(eventId: string, sequence: nat, eventType: string, body: string)

  datatype EventState = EventState(items: seq<RunEvent>, lastSequence: nat)

  datatype EventAction =
    | Hydrate(events: seq<RunEvent>)
    | Append(event: RunEvent)
    | Clear

  const INITIAL := EventState([], 0)

  /** `event.event_id || String(event.sequence)`. */
  function Key(e: RunEvent): string {
    if e.eventId != "" then e.eventId else Decimal(e.sequence)
  }

  predicate IsRoute(e: RunEvent) {
    e.eventType == "route_selected"
  }

  function Sequence(e: RunEvent): int {
    e.sequence
  }

  /** `Map.set` on an insertion-ordered map, kept as the list of its values: an old key keeps its place. */
  function MapSet(m: seq<RunEvent>, e: RunEvent): seq<RunEvent> {
    if m == [] then [e]
    else if Key(m[0]) == Key(e) then [e] + m[1..]
    else [m[0]] + MapSet(m[1..], e)
  }

  /** The values of the map after setting each event of es in turn. */
  function Collected(es: seq<RunEvent>): seq<RunEvent> {
    if es == [] then [] else MapSet(Collected(es[..|es| - 1]), es[|es| - 1])
  }

  /** `xs.slice(-n)`. */
  function LastOf(xs: seq<RunEvent>, n: nat): seq<RunEvent> {
    if |xs| <= n then xs else xs[|xs| - n..]
  }

  function Routes(xs: seq<RunEvent>): seq<RunEvent> {
    if xs == [] then []
    else if IsRoute(xs[|xs| - 1]) then Routes(xs[..|xs| - 1]) + [xs[|xs| - 1]]
    else Routes(xs[..|xs| - 1])
  }

  function Bounded(incoming: seq<RunEvent>): EventState {
    var ordered := SortBy(Collected(incoming), Sequence);
    var items := SortBy(Collected(LastOf(ordered, MAX_EVENTS) + Routes(ordered)), Sequence);
    EventState(items, if items == [] then 0 else items[|items| - 1].sequence)
  }

  function Arriving(action: EventAction): seq<RunEvent> {
    match action
    case Hydrate(events) => events
    case Append(event) => [event]
    case Clear => []
  }

  function Reduced(state: EventState, action: EventAction): EventState {
    if action.Clear? then INITIAL else Bounded(state.items + Arriving(action))
  }

  method CollectUnique(es: seq<RunEvent>) returns (unique: seq<RunEvent>)
    ensures unique == Collected(es)
  {
    unique := [];
    for i := 0 to |es|
      invariant unique == Collected(es[..i])
    {
      assert es[..i + 1][..i] == es[..i];
      unique := MapSet(unique, es[i]);
    }
    assert es[..|es|] == es;
  }

  method RetainRoutes(recent: seq<RunEvent>, ordered: seq<RunEvent>) returns (retained: seq<RunEvent>)
    ensures retained == Collected(recent + Routes(ordered))
  {
    retained := CollectUnique(recent);
    assert recent == recent + Routes(ordered[..0]);
    for i := 0 to |ordered|
      invariant retained == Collected(recent + Routes(ordered[..i]))
    {
      RetainOne(recent, ordered, i);
      if IsRoute(ordered[i]) {
        retained := MapSet(retained, ordered[i]);
      }
    }
    assert ordered[..|ordered|] == ordered;
  }

  lemma CollectedSnoc(es: seq<RunEvent>, e: RunEvent)
    ensures Collected(es + [e]) == MapSet(Collected(es), e)
  {
    assert (es + [e])[..|es|] == es;
  }

  lemma RetainOne(recent: seq<RunEvent>, ordered: seq<RunEvent>, i: nat)
    requires i < |ordered|
    ensures var before := Collected(recent + Routes(ordered[..i]));
      Collected(recent + Routes(ordered[..i + 1])) ==
      if IsRoute(ordered[i]) then MapSet(before, ordered[i]) else before
  {
    assert ordered[..i + 1][..i] == ordered[..i];
    var routes := Routes(ordered[..i]);
    CollectedSnoc(recent + routes, ordered[i]);
    assert recent + (routes + [ordered[i]]) == recent + routes + [ordered[i]];
  }

  method EventReducer(state: EventState, action: EventAction) returns (next: EventState)
    ensures next == Reduced(state, action)
  {
    if action.Clear? {
      return INITIAL;
    }
    var unique := CollectUnique(state.items + (if action.Hydrate? then action.events else [action.event]));
    var ordered := SortBy(unique, Sequence);
    var retained := RetainRoutes(LastOf(ordered, MAX_EVENTS), ordered);
    var items := SortBy(retained, Sequence);
    next := EventState(items, if items == [] then 0 else items[|items| - 1].sequence);
  }

  // ----- What the view means, without reference to how it is computed -----

  /** e is the newest version of its key in the history. */
  ghost predicate Latest(history: seq<RunEvent>, e: RunEvent) {
    exists i :: 0 <= i < |history| && history[i] == e
      && forall j :: i < j < |history| ==> Key(history[j]) != Key(e)
  }

  ghost function Sequences(history: seq<RunEvent>): set<int> {
    set e | e in history :: e.sequence as int
  }

  ghost function Above(s: set<int>, n: int): set<int> {
    set x | x in s && x > n
  }

  /** A key fixes its event's sequence and type, and distinct keys have distinct sequences. */
  ghost predicate Consistent(history: seq<RunEvent>) {
    forall e, f :: e in history && f in history ==>
      if Key(e) == Key(f) then e.sequence == f.sequence && e.eventType == f.eventType
      else e.sequence != f.sequence
  }

  /** The state shows exactly the newest version of every route event and of the 1000 highest-sequence events. */
  ghost predicate IsView(history: seq<RunEvent>, s: EventState) {
    && StrictlyAscending(s.items, Sequence)
    && (forall e :: e in s.items <==>
         Latest(history, e) && (IsRoute(e) || |Above(Sequences(history), e.sequence)| < MAX_EVENTS))
    && (if history == [] then s.lastSequence == 0
        else s.lastSequence in Sequences(history) && forall e :: e in history ==> e.sequence <= s.lastSequence)
  }

  // ----- Collecting into a map -----

  ghost predicate KeysDistinct(m: seq<RunEvent>) {
    forall i, j :: 0 <= i < j < |m| ==> Key(m[i]) != Key(m[j])
  }

  lemma {:induction false} MapSetMembers(m: seq<RunEvent>, e: RunEvent)
    requires KeysDistinct(m)
    ensures KeysDistinct(MapSet(m, e))
    ensures forall f :: f in MapSet(m, e) <==> f == e || (f in m && Key(f) != Key(e))
  {
    if m != [] {
      if Key(m[0]) == Key(e) {
        forall f | f in m[1..] ensures Key(f) != Key(e) {
          var i :| 0 <= i < |m[1..]| && m[1..][i] == f;
          assert m[i + 1] == f;
        }
        assert m == [m[0]] + m[1..];
      } else {
        MapSetMembers(m[1..], e);
        var r := MapSet(m[1..], e);
        forall i | 0 <= i < |r| ensures Key(r[i]) != Key(m[0]) {
          assert r[i] in r;
          if r[i] != e {
            var j :| 0 <= j < |m[1..]| && m[1..][j] == r[i];
            assert m[j + 1] == r[i];
          }
        }
        assert m == [m[0]] + m[1..];
      }
    }
  }

  lemma {:induction false} CollectedIsLatest(es: seq<RunEvent>)
    ensures KeysDistinct(Collected(es))
    ensures forall e :: e in Collected(es) <==> Latest(es, e)
  {
    if es != [] {
      var n := |es| - 1;
      var front, last := es[..n], es[n];
      CollectedIsLatest(front);
      MapSetMembers(Collected(front), last);
      forall e ensures Latest(es, e) <==> e == last || (Latest(front, e) && Key(e) != Key(last)) {
        LatestSnoc(front, last, e);
        assert es == front + [last];
      }
    }
  }

  lemma LatestSnoc(front: seq<RunEvent>, last: RunEvent, e: RunEvent)
    ensures Latest(front + [last], e) <==> e == last || (Latest(front, e) && Key(e) != Key(last))
  {
    var es := front + [last];
    assert es[|front|] == last;
    if e == last {
      assert es[|front|] == e;
    } else if Latest(es, e) {
      var i :| 0 <= i < |es| && es[i] == e && forall j :: i < j < |es| ==> Key(es[j]) != Key(e);
      assert i < |front|;
      assert Key(es[|front|]) != Key(e);
      forall j | i < j < |front| ensures Key(front[j]) != Key(e) {
        assert es[j] == front[j];
      }
      assert front[i] == e;
    } else if Latest(front, e) {
      var i :| 0 <= i < |front| && front[i] == e && forall j :: i < j < |front| ==> Key(front[j]) != Key(e);
      assert es[i] == e;
    }
  }

  lemma LatestAppend(a: seq<RunEvent>, b: seq<RunEvent>, e: RunEvent)
    ensures Latest(a + b, e) <==> Latest(b, e) || (Latest(a, e) && forall f :: f in b ==> Key(f) != Key(e))
    decreases |b|
  {
    if b == [] {
      assert a + b == a;
    } else {
      var front, last := b[..|b| - 1], b[|b| - 1];
      assert b == front + [last];
      LatestAppend(a, front, e);
      LatestSnoc(front, last, e);
      LatestSnoc(a + front, last, e);
      assert a + b == a + front + [last];
    }
  }

  lemma LatestWhenDistinct(es: seq<RunEvent>, e: RunEvent)
    requires KeysDistinct(es)
    ensures Latest(es, e) <==> e in es
  {
    if e in es {
      var i :| 0 <= i < |es| && es[i] == e;
      assert forall j :: i < j < |es| ==> Key(es[j]) != Key(e);
    }
  }

  lemma LatestExists(es: seq<RunEvent>, f: RunEvent)
    requires f in es
    ensures exists g :: Latest(es, g) && Key(g) == Key(f)
  {
    var front, last := es[..|es| - 1], es[|es| - 1];
    assert es == front + [last];
    if Key(last) == Key(f) {
      LatestSnoc(front, last, last);
    } else {
      LatestExists(front, f);
      var g :| Latest(front, g) && Key(g) == Key(f);
      LatestSnoc(front, last, g);
    }
  }

  lemma {:induction false} RoutesMembers(xs: seq<RunEvent>)
    ensures forall e :: e in Routes(xs) <==> e in xs && IsRoute(e)
  {
    if xs != [] {
      RoutesMembers(xs[..|xs| - 1]);
      assert xs == xs[..|xs| - 1] + [xs[|xs| - 1]];
    }
  }

  // ----- The thousand highest sequences -----

  lemma SequencesSnoc(front: seq<RunEvent>, last: RunEvent)
    ensures Sequences(front + [last]) == Sequences(front) + {last.sequence as int}
  {
    var all := front + [last];
    forall n | n in Sequences(front) ensures n in Sequences(all) {
      var e :| e in front && e.sequence as int == n;
      assert e in all;
    }
    assert last in all;
  }

  lemma LastIsNew(xs: seq<RunEvent>)
    requires StrictlyAscending(xs, Sequence) && xs != []
    ensures xs[|xs| - 1].sequence as int !in Sequences(xs[..|xs| - 1])
  {
    var front, last := xs[..|xs| - 1], xs[|xs| - 1];
    forall e | e in front ensures e.sequence != last.sequence {
      var i :| 0 <= i < |front| && front[i] == e;
      assert Sequence(xs[i]) < Sequence(last);
    }
  }

  lemma {:induction false} SequencesSize(xs: seq<RunEvent>)
    requires StrictlyAscending(xs, Sequence)
    ensures |Sequences(xs)| == |xs|
  {
    if xs != [] {
      var front, last := xs[..|xs| - 1], xs[|xs| - 1];
      assert xs == front + [last];
      SequencesSize(front);
      LastIsNew(xs);
      SequencesSnoc(front, last);
    }
  }

  lemma TailAscends(xs: seq<RunEvent>, i: nat)
    requires StrictlyAscending(xs, Sequence) && i < |xs|
    ensures StrictlyAscending(xs[i + 1..], Sequence)
  {
    var tail := xs[i + 1..];
    forall a, b | 0 <= a < b < |tail| ensures Sequence(tail[a]) < Sequence(tail[b]) {
      assert Sequence(xs[i + 1 + a]) < Sequence(xs[i + 1 + b]);
    }
  }

  lemma AboveIsInTail(xs: seq<RunEvent>, i: nat, j: nat)
    requires StrictlyAscending(xs, Sequence) && i < |xs| && j < |xs|
    ensures xs[j].sequence > xs[i].sequence <==> i < j
    ensures i < j ==> xs[j] in xs[i + 1..]
  {
    assert j < i ==> Sequence(xs[j]) < Sequence(xs[i]);
    assert i < j ==> Sequence(xs[i]) < Sequence(xs[j]);
    assert i < j ==> xs[i + 1..][j - i - 1] == xs[j];
  }

  lemma AboveIsTail(xs: seq<RunEvent>, i: nat)
    requires StrictlyAscending(xs, Sequence) && i < |xs|
    ensures Above(Sequences(xs), xs[i].sequence) == Sequences(xs[i + 1..])
  {
    var above, tail := Above(Sequences(xs), xs[i].sequence), xs[i + 1..];
    forall n | n in above ensures n in Sequences(tail) {
      var e :| e in xs && e.sequence as int == n;
      var j :| 0 <= j < |xs| && xs[j] == e;
      AboveIsInTail(xs, i, j);
    }
    forall n | n in Sequences(tail) ensures n in above {
      var e :| e in tail && e.sequence as int == n;
      var j :| 0 <= j < |tail| && tail[j] == e;
      AboveIsInTail(xs, i, i + 1 + j);
    }
  }

  lemma AboveAtIndex(xs: seq<RunEvent>, i: nat)
    requires StrictlyAscending(xs, Sequence) && i < |xs|
    ensures |Above(Sequences(xs), xs[i].sequence)| == |xs| - 1 - i
  {
    TailAscends(xs, i);
    SequencesSize(xs[i + 1..]);
    AboveIsTail(xs, i);
  }

  lemma LastOfMembers(xs: seq<RunEvent>, n: nat, e: RunEvent)
    requires StrictlyAscending(xs, Sequence) && e in xs
    ensures e in LastOf(xs, n) <==> |Above(Sequences(xs), e.sequence)| < n
  {
    var i :| 0 <= i < |xs| && xs[i] == e;
    AboveAtIndex(xs, i);
    if |xs| > n {
      if i >= |xs| - n {
        assert LastOf(xs, n)[i - (|xs| - n)] == e;
      } else {
        forall j | 0 <= j < n ensures LastOf(xs, n)[j] != e {
          assert Sequence(xs[i]) < Sequence(xs[|xs| - n + j]);
        }
      }
    }
  }

  /** Dropping what is outside the top MAX_EVENTS never changes which later sequences rank in the top MAX_EVENTS. */
  lemma RankSurvivesDropping(all: set<int>, kept: set<int>, arriving: set<int>, n: int)
    requires kept <= all
    requires forall x :: x in all && |Above(all, x)| < MAX_EVENTS ==> x in kept
    ensures |Above(kept + arriving, n)| < MAX_EVENTS <==> |Above(all + arriving, n)| < MAX_EVENTS
  {
    assert Above(kept + arriving, n) <= Above(all + arriving, n);
    SubsetSize(Above(kept + arriving, n), Above(all + arriving, n));
    var missing := Above(all + arriving, n) - Above(kept + arriving, n);
    if missing != {} {
      var x := HasMaximum(missing);
      assert Above(all, x) <= Above(all + arriving, x);
      SubsetSize(Above(all, x), Above(all + arriving, x));
      forall y | y in Above(all + arriving, x) ensures y in Above(kept + arriving, n) {
        assert y !in missing;
      }
      SubsetSize(Above(all + arriving, x), Above(kept + arriving, n));
    } else {
      forall y | y in Above(all + arriving, n) ensures y in Above(kept + arriving, n) {
        assert y !in missing;
      }
      assert Above(all + arriving, n) == Above(kept + arriving, n);
    }
  }

  // ----- One action -----

  lemma DistinctKeysDistinctSequences(history: seq<RunEvent>, m: seq<RunEvent>)
    requires Consistent(history) && KeysDistinct(m) && forall e :: e in m ==> e in history
    ensures forall i, j :: 0 <= i < j < |m| ==> Sequence(m[i]) != Sequence(m[j])
  {
    forall i, j | 0 <= i < j < |m| ensures Sequence(m[i]) != Sequence(m[j]) {
      assert m[i] in m && m[j] in m && Key(m[i]) != Key(m[j]);
    }
  }

  lemma StrictSequencesDistinctKeys(history: seq<RunEvent>, m: seq<RunEvent>)
    requires Consistent(history) && StrictlyAscending(m, Sequence) && forall e :: e in m ==> e in history
    ensures KeysDistinct(m)
  {
    forall i, j | 0 <= i < j < |m| ensures Key(m[i]) != Key(m[j]) {
      assert m[i] in m && m[j] in m && Sequence(m[i]) < Sequence(m[j]);
    }
  }

  /** The events collected from incoming, in sequence order. */
  lemma OrderedFacts(incoming: seq<RunEvent>)
    requires Consistent(incoming)
    ensures var ordered := SortBy(Collected(incoming), Sequence);
      && StrictlyAscending(ordered, Sequence)
      && (forall e :: e in ordered <==> Latest(incoming, e))
      && Sequences(ordered) == Sequences(incoming)
  {
    CollectedIsLatest(incoming);
    DistinctKeysDistinctSequences(incoming, Collected(incoming));
    SortStrict(Collected(incoming), Sequence);
    forall f | f in incoming ensures exists g :: Latest(incoming, g) && g.sequence == f.sequence {
      LatestExists(incoming, f);
      var g :| Latest(incoming, g) && Key(g) == Key(f);
      assert g in incoming;
    }
  }

  /** What one pass keeps of the events it was given. */
  lemma BoundedFacts(incoming: seq<RunEvent>)
    requires Consistent(incoming)
    ensures var next := Bounded(incoming);
      && StrictlyAscending(next.items, Sequence)
      && (forall e :: e in next.items <==>
           Latest(incoming, e) && (IsRoute(e) || |Above(Sequences(incoming), e.sequence)| < MAX_EVENTS))
  {
    OrderedFacts(incoming);
    var ordered := SortBy(Collected(incoming), Sequence);
    var shown := LastOf(ordered, MAX_EVENTS) + Routes(ordered);
    RoutesMembers(ordered);
    CollectedIsLatest(shown);
    StrictSequencesDistinctKeys(incoming, ordered);
    forall e ensures e in shown <==>
        Latest(incoming, e) && (IsRoute(e) || |Above(Sequences(incoming), e.sequence)| < MAX_EVENTS)
    {
      if e in ordered { LastOfMembers(ordered, MAX_EVENTS, e); }
    }
    forall e | e in shown ensures Latest(shown, e) {
      SameKeySameEvent(ordered, shown, e);
    }
    DistinctKeysDistinctSequences(incoming, Collected(shown));
    SortStrict(Collected(shown), Sequence);
  }

  /** Repeats of one event are the only repeats of its key, so the event is its own newest version. */
  lemma SameKeySameEvent(ordered: seq<RunEvent>, shown: seq<RunEvent>, e: RunEvent)
    requires KeysDistinct(ordered) && e in shown && forall f :: f in shown ==> f in ordered
    ensures Latest(shown, e)
  {
    LatestExists(shown, e);
    var g :| Latest(shown, g) && Key(g) == Key(e);
    assert g in shown;
    var i :| 0 <= i < |ordered| && ordered[i] == g;
    var j :| 0 <= j < |ordered| && ordered[j] == e;
    assert i == j;
  }

  /** One action keeps the view exact, although the state no longer holds what it dropped. */
  lemma StepKeepsView(history: seq<RunEvent>, s: EventState, events: seq<RunEvent>)
    requires IsView(history, s) && Consistent(history + events)
    ensures IsView(history + events, Bounded(s.items + events))
  {
    var incoming, total, next := s.items + events, history + events, Bounded(s.items + events);
    assert forall e :: e in incoming ==> e in total;
    BoundedFacts(incoming);
    StrictSequencesDistinctKeys(total, s.items);
    var all, kept, arriving := Sequences(history), Sequences(s.items), Sequences(events);
    assert Sequences(incoming) == kept + arriving && Sequences(total) == all + arriving;
    forall f | f in history && |Above(all, f.sequence)| < MAX_EVENTS ensures f.sequence as int in kept {
      LatestExists(history, f);
      var g :| Latest(history, g) && Key(g) == Key(f);
      assert g in total && f in total;
      assert g in s.items;
    }
    forall e ensures e in next.items <==>
        Latest(total, e) && (IsRoute(e) || |Above(Sequences(total), e.sequence)| < MAX_EVENTS)
    {
      RankSurvivesDropping(all, kept, arriving, e.sequence);
      LatestAppend(s.items, events, e);
      LatestAppend(history, events, e);
      LatestWhenDistinct(s.items, e);
      assert Above(all, e.sequence) <= Above(all + arriving, e.sequence);
      SubsetSize(Above(all, e.sequence), Above(all + arriving, e.sequence));
    }
    LastIsHighest(total, next);
  }

  lemma LastIsHighest(total: seq<RunEvent>, next: EventState)
    requires Consistent(total) && StrictlyAscending(next.items, Sequence)
    requires forall e :: e in next.items <==>
      Latest(total, e) && (IsRoute(e) || |Above(Sequences(total), e.sequence)| < MAX_EVENTS)
    requires next.lastSequence == if next.items == [] then 0 else next.items[|next.items| - 1].sequence
    ensures IsView(total, next)
  {
    assert next.items != [] ==> next.items[0] in next.items;
    if total == [] {
      assert forall e :: !Latest(total, e);
    } else {
      assert total[0].sequence as int in Sequences(total);
      var top := HasMaximum(Sequences(total));
      var f :| f in total && f.sequence as int == top;
      LatestExists(total, f);
      var g :| Latest(total, g) && Key(g) == Key(f);
      assert g in total && g.sequence as int == top;
      assert Above(Sequences(total), top) == {};
      assert g in next.items;
      var i :| 0 <= i < |next.items| && next.items[i] == g;
      var last := next.items[|next.items| - 1];
      assert last in next.items && last in total;
      assert i < |next.items| - 1 ==> Sequence(next.items[i]) < Sequence(last);
      forall e | e in total ensures e.sequence <= next.lastSequence {
        assert e.sequence as int in Sequences(total);
      }
    }
  }

  // ----- Every run of the reducer -----

  function Run(actions: seq<EventAction>): EventState {
    if actions == [] then INITIAL else Reduced(Run(actions[..|actions| - 1]), actions[|actions| - 1])
  }

  /** Every event that arrived since the last clear, in order of arrival. */
  ghost function History(actions: seq<EventAction>): seq<RunEvent> {
    if actions == [] then []
    else
      var before := History(actions[..|actions| - 1]);
      match actions[|actions| - 1]
      case Hydrate(events) => before + events
      case Append(event) => before + [event]
      case Clear => []
  }

  /** After any actions the bounded state is the exact view of everything that ever arrived. */
  lemma {:induction false} RunShowsExactView(actions: seq<EventAction>)
    requires Consistent(History(actions))
    ensures IsView(History(actions), Run(actions))
  {
    if actions != [] && !actions[|actions| - 1].Clear? {
      var front := actions[..|actions| - 1];
      assert forall e :: e in History(front) ==> e in History(actions);
      RunShowsExactView(front);
      StepKeepsView(History(front), Run(front), Arriving(actions[|actions| - 1]));
    }
  }

  ghost function TelemetrySequences(items: seq<RunEvent>): set<int> {
    set e | e in items && !IsRoute(e) :: e.sequence as int
  }

  /** Telemetry that is not a route never occupies more than MAX_EVENTS rows. */
  lemma TelemetryIsBounded(actions: seq<EventAction>)
    requires Consistent(History(actions))
    ensures |TelemetrySequences(Run(actions).items)| <= MAX_EVENTS
  {
    RunShowsExactView(actions);
    var all := Sequences(History(actions));
    TopRanksAreFew(all, TelemetrySequences(Run(actions).items));
  }

  lemma TopRanksAreFew(all: set<int>, shown: set<int>)
    requires shown <= all && forall n :: n in shown ==> |Above(all, n)| < MAX_EVENTS
    ensures |shown| <= MAX_EVENTS
  {
    if shown != {} {
      var low := HasMinimum(shown);
      assert shown - {low} <= Above(all, low);
      SubsetSize(shown - {low}, Above(all, low));
      assert |shown - {low}| == |shown| - 1;
    }
  }
}
