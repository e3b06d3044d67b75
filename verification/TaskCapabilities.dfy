/** Redundant capability alternatives (backend/src/atlasflow/agents/output_validation.py) and the task rules they must
    meet (backend/src/atlasflow/agents/contracts.py). */
module TaskCapabilities {
  import opened Common
  import opened Json

  type RawTask = map<string, Value>

  datatype Capability = Capability(id: string, supportsFreshData: bool)

  const REQUIRED := "required_capabilities"
  const ALTERNATIVES := "capability_alternatives"

  /** `raw.get(key, [])`. */
  function GetList(raw: RawTask, key: string): Value {
    if key in raw then raw[key] else List([])
  }

  /** A list of at most limit pairwise different strings. */
  predicate DistinctStrings(v: Value, limit: nat) {
    v.List? && |v.items| <= limit && (forall i :: 0 <= i < |v.items| ==> v.items[i].Str?) && AllDistinct(v.items)
  }

  predicate WellFormedGroup(v: Value) {
    DistinctStrings(v, 16) && 2 <= |v.items|
  }

  function TextsOf(v: Value): (r: set<string>)
    requires v.List?
  {
    set x | x in v.items && x.Str? :: x.text
  }

  /** The shape checks made before anything is dropped. */
  predicate WellFormed(raw: RawTask) {
    && DistinctStrings(GetList(raw, REQUIRED), 16)
    && var groups := GetList(raw, ALTERNATIVES);
    && groups.List? && |groups.items| <= 8
    && forall i :: 0 <= i < |groups.items| ==> WellFormedGroup(groups.items[i])
  }

  function Mandatory(raw: RawTask): set<string>
    requires WellFormed(raw)
  {
    TextsOf(GetList(raw, REQUIRED))
  }

  function Groups(raw: RawTask): (r: seq<Value>)
    requires WellFormed(raw)
    ensures forall g :: g in r ==> WellFormedGroup(g)
  {
    GetList(raw, ALTERNATIVES).items
  }

  function Declared(raw: RawTask): (r: set<string>)
    requires WellFormed(raw)
  {
    Mandatory(raw) + set g, c | g in Groups(raw) && c in TextsOf(g) :: c
  }

  function KnownIds(catalog: seq<Capability>): set<string> {
    set item | item in catalog :: item.id
  }

  predicate Normalizable(raw: RawTask, catalog: seq<Capability>) {
    WellFormed(raw) && Declared(raw) <= KnownIds(catalog)
  }

  /** `[group for group in groups if not set(group) & set(mandatory)]`. */
  function Independent(groups: seq<Value>, mandatory: set<string>): (r: seq<Value>)
    requires forall g :: g in groups ==> g.List?
    ensures forall g :: g in r <==> g in groups && TextsOf(g) !! mandatory
    ensures |r| <= |groups|
  {
    if groups == [] then [] else
      assert groups == [groups[0]] + groups[1..];
      (if TextsOf(groups[0]) !! mandatory then [groups[0]] else []) + Independent(groups[1..], mandatory)
  }

  function NormalizeTaskCapabilities(raw: RawTask, catalog: seq<Capability>): RawTask {
    if !Normalizable(raw, catalog) then raw
    else if Groups(raw) == [] then raw
    else raw[ALTERNATIVES := List(Independent(Groups(raw), Mandatory(raw)))]
  }

  /** The shape survives: only the list of groups gets shorter. */
  lemma NormalizedShape(raw: RawTask, catalog: seq<Capability>)
    requires Normalizable(raw, catalog)
    ensures var task := NormalizeTaskCapabilities(raw, catalog);
      && WellFormed(task) && Mandatory(task) == Mandatory(raw)
      && Groups(task) == Independent(Groups(raw), Mandatory(raw))
      && Declared(task) <= Declared(raw)
  {
    var task := NormalizeTaskCapabilities(raw, catalog);
    assert GetList(task, REQUIRED) == GetList(raw, REQUIRED);
    assert GetList(task, ALTERNATIVES) == List(Independent(Groups(raw), Mandatory(raw)));
  }

  /** The groups that stay keep their order. */
  lemma {:induction false} IndependentInOrder(a: seq<Value>, b: seq<Value>, mandatory: set<string>)
    requires forall g :: g in a + b ==> g.List?
    ensures (forall g :: g in a ==> g.List?) && forall g :: g in b ==> g.List?
    ensures Independent(a + b, mandatory) == Independent(a, mandatory) + Independent(b, mandatory)
  {
    if a == [] {
      assert a + b == b;
    } else {
      assert a[0] in a + b && (a + b)[1..] == a[1..] + b;
      IndependentInOrder(a[1..], b, mandatory);
    }
  }

  /** Some group holds a capability that is mandatory anyway. */
  ghost predicate SomeRedundant(raw: RawTask)
    requires WellFormed(raw)
  {
    exists g, c :: g in Groups(raw) && c in TextsOf(g) && c in Mandatory(raw)
  }

  /** A task changes exactly when its declaration can be read, is known, and has a redundant group. */
  lemma ChangedIff(raw: RawTask, catalog: seq<Capability>)
    ensures NormalizeTaskCapabilities(raw, catalog) != raw <==> Normalizable(raw, catalog) && SomeRedundant(raw)
  {
    if Normalizable(raw, catalog) {
      NormalizedShape(raw, catalog);
      if SomeRedundant(raw) {
        var g, c :| g in Groups(raw) && c in TextsOf(g) && c in Mandatory(raw);
        assert g !in Groups(NormalizeTaskCapabilities(raw, catalog));
      } else {
        AllIndependent(Groups(raw), Mandatory(raw));
      }
    }
  }

  // ----- Meaning -----

  /** The capability sets that satisfy a declaration: all mandatory ones, and one of each group. */
  ghost predicate SatisfiedBy(raw: RawTask, available: set<string>)
    requires WellFormed(raw)
  {
    Mandatory(raw) <= available && forall g :: g in Groups(raw) ==> TextsOf(g) * available != {}
  }

  /** Dropping the redundant groups changes no set of capabilities that satisfies the task. */
  lemma SameMeaning(raw: RawTask, catalog: seq<Capability>, available: set<string>)
    requires Normalizable(raw, catalog)
    ensures WellFormed(NormalizeTaskCapabilities(raw, catalog))
    ensures SatisfiedBy(NormalizeTaskCapabilities(raw, catalog), available) <==> SatisfiedBy(raw, available)
  {
    NormalizedShape(raw, catalog);
    if Mandatory(raw) <= available {
      forall g | g in Groups(raw) && !(TextsOf(g) !! Mandatory(raw)) ensures TextsOf(g) * available != {} {
        var c :| c in TextsOf(g) && c in Mandatory(raw);
        assert c in TextsOf(g) * available;
      }
    }
  }

  // ----- The rules a task must meet -----

  /** The capability rules of `ResearchTask.validate_dependencies`. */
  ghost predicate TaskRules(raw: RawTask, requiresFreshData: bool) {
    && WellFormed(raw)
    && (forall g :: g in Groups(raw) ==> TextsOf(g) !! Mandatory(raw))
    && (requiresFreshData ==> Mandatory(raw) != {} || Groups(raw) != [])
  }

  /** After normalisation a known, well-formed declaration fails only for declaring nothing fresh data could use. */
  lemma EstablishesTaskRules(raw: RawTask, catalog: seq<Capability>, requiresFreshData: bool)
    requires Normalizable(raw, catalog)
    ensures TaskRules(NormalizeTaskCapabilities(raw, catalog), requiresFreshData) <==>
      (requiresFreshData ==> Mandatory(raw) != {} || Groups(raw) != [])
  {
    NormalizedShape(raw, catalog);
    if Mandatory(raw) == {} {
      AllIndependent(Groups(raw), Mandatory(raw));
    }
  }

  lemma {:induction false} AllIndependent(groups: seq<Value>, mandatory: set<string>)
    requires forall g :: g in groups ==> g.List?
    requires forall g :: g in groups ==> TextsOf(g) !! mandatory
    ensures Independent(groups, mandatory) == groups
  {
    if groups != [] {
      assert groups[0] in groups;
      AllIndependent(groups[1..], mandatory);
    }
  }

  /** Normalising twice is normalising once, whatever the input. */
  lemma Idempotent(raw: RawTask, catalog: seq<Capability>)
    ensures var task := NormalizeTaskCapabilities(raw, catalog);
      NormalizeTaskCapabilities(task, catalog) == task
  {
    if Normalizable(raw, catalog) {
      NormalizedShape(raw, catalog);
      AllIndependent(Independent(Groups(raw), Mandatory(raw)), Mandatory(raw));
    }
  }

  datatype Verdict = Accepted | UnknownCapabilities(unknown: set<string>) | CannotFetchFresh

  /** `{item["id"]: item for item in catalog}[name]["supports_fresh_data"]`: a later entry wins. */
  predicate Fresh(catalog: seq<Capability>, name: string) {
    if catalog == [] then false
    else if catalog[|catalog| - 1].id == name then catalog[|catalog| - 1].supportsFreshData
    else Fresh(catalog[..|catalog| - 1], name)
  }

  predicate FreshSource(raw: RawTask, catalog: seq<Capability>)
    requires WellFormed(raw)
  {
    || (exists c :: c in Mandatory(raw) && Fresh(catalog, c))
    || (exists g :: g in Groups(raw) && forall c :: c in TextsOf(g) ==> Fresh(catalog, c))
  }

  /** `validate_task_capabilities` for one task. */
  function ValidateTaskCapabilities(raw: RawTask, requiresFreshData: bool, catalog: seq<Capability>): Verdict
    requires WellFormed(raw)
  {
    var unknown := Declared(raw) - KnownIds(catalog);
    if unknown != {} then UnknownCapabilities(unknown)
    else if requiresFreshData && !FreshSource(raw, catalog) then CannotFetchFresh
    else Accepted
  }

  /** The last catalog entry of that name says that it can fetch fresh data. */
  ghost predicate FetchesFresh(catalog: seq<Capability>, name: string) {
    exists k :: LastFetches(catalog, name, k)
  }

  ghost predicate LastFetches(catalog: seq<Capability>, name: string, k: int) {
    && 0 <= k < |catalog| && catalog[k] == Capability(name, true)
    && forall j :: k < j < |catalog| ==> catalog[j].id != name
  }

  lemma {:induction false} FreshIff(catalog: seq<Capability>, name: string)
    ensures Fresh(catalog, name) <==> FetchesFresh(catalog, name)
  {
    if catalog != [] {
      var n := |catalog| - 1;
      FreshIff(catalog[..n], name);
      if catalog[n].id != name {
        forall k ensures LastFetches(catalog, name, k) <==> LastFetches(catalog[..n], name, k) {
          assert forall j :: 0 <= j < n ==> catalog[j] == catalog[..n][j];
        }
      } else if catalog[n].supportsFreshData {
        assert LastFetches(catalog, name, n);
      }
    }
  }

  /** The task names this capability, as mandatory or in a group. */
  ghost predicate Declares(raw: RawTask, name: string)
    requires WellFormed(raw)
  {
    name in Mandatory(raw) || exists g :: g in Groups(raw) && name in TextsOf(g)
  }

  ghost predicate IsKnown(catalog: seq<Capability>, name: string) {
    exists k :: 0 <= k < |catalog| && catalog[k].id == name
  }

  /** Fresh data can be fetched: by a mandatory capability, or by whichever of some group is used. */
  ghost predicate CanFetch(raw: RawTask, catalog: seq<Capability>)
    requires WellFormed(raw)
  {
    || (exists c :: c in Mandatory(raw) && FetchesFresh(catalog, c))
    || (exists g :: g in Groups(raw) && forall c :: c in TextsOf(g) ==> FetchesFresh(catalog, c))
  }

  lemma KnownIff(catalog: seq<Capability>, name: string)
    ensures name in KnownIds(catalog) <==> IsKnown(catalog, name)
  {
    if k :| 0 <= k < |catalog| && catalog[k].id == name {
      assert catalog[k] in catalog;
    }
  }

  lemma DeclaredIff(raw: RawTask, name: string)
    requires WellFormed(raw)
    ensures name in Declared(raw) <==> Declares(raw, name)
  {
  }

  lemma CanFetchIff(raw: RawTask, catalog: seq<Capability>)
    requires WellFormed(raw)
    ensures FreshSource(raw, catalog) <==> CanFetch(raw, catalog)
  {
    forall c ensures Fresh(catalog, c) <==> FetchesFresh(catalog, c) {
      FreshIff(catalog, c);
    }
  }

  /** The verdict names exactly the unknown capabilities, if there are any; otherwise it refuses exactly a task that
      needs fresh data and cannot fetch it. */
  lemma VerdictIff(raw: RawTask, requiresFreshData: bool, catalog: seq<Capability>)
    requires WellFormed(raw)
    ensures var verdict := ValidateTaskCapabilities(raw, requiresFreshData, catalog);
      match verdict
      case UnknownCapabilities(unknown) =>
        unknown != {} && forall c :: c in unknown <==> Declares(raw, c) && !IsKnown(catalog, c)
      case CannotFetchFresh =>
        (forall c :: Declares(raw, c) ==> IsKnown(catalog, c)) && requiresFreshData && !CanFetch(raw, catalog)
      case Accepted =>
        (forall c :: Declares(raw, c) ==> IsKnown(catalog, c)) && (requiresFreshData ==> CanFetch(raw, catalog))
  {
    CanFetchIff(raw, catalog);
    forall c ensures c in Declared(raw) - KnownIds(catalog) <==> Declares(raw, c) && !IsKnown(catalog, c) {
      DeclaredIff(raw, c);
      KnownIff(catalog, c);
    }
  }

  /** The verdict on unknown capabilities and fresh data is the same before and after. */
  lemma SameVerdict(raw: RawTask, requiresFreshData: bool, catalog: seq<Capability>)
    requires WellFormed(raw)
    ensures WellFormed(NormalizeTaskCapabilities(raw, catalog))
    ensures ValidateTaskCapabilities(NormalizeTaskCapabilities(raw, catalog), requiresFreshData, catalog) ==
            ValidateTaskCapabilities(raw, requiresFreshData, catalog)
  {
    if Normalizable(raw, catalog) {
      NormalizedShape(raw, catalog);
      var task := NormalizeTaskCapabilities(raw, catalog);
      forall g | g in Groups(raw) && g !in Groups(task) && forall c :: c in TextsOf(g) ==> Fresh(catalog, c)
        ensures exists c :: c in Mandatory(task) && Fresh(catalog, c)
      {
        var c :| c in TextsOf(g) && c in Mandatory(raw);
      }
    }
  }

  /** Everything else in the task is left alone. */
  lemma OnlyAlternativesChange(raw: RawTask, catalog: seq<Capability>, key: string)
    requires key != ALTERNATIVES
    ensures var task := NormalizeTaskCapabilities(raw, catalog);
      (key in task <==> key in raw) && (key in raw ==> task[key] == raw[key])
  {
  }
}
