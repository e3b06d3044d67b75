/** Acceptance of a fresh research result: the caps and the order of checks of
    backend/src/atlasflow/agents/gateway.py, the contract it is read into, and
    backend/src/atlasflow/agents/task_quality.py `validate_task_result`. */
module ResearchResults {
  import opened Common
  import opened FindingCleanup
  import opened Json

  datatype Status = Met | Partial | Unmet

  /** `CriterionAssessment`; criterion and references count from 1. */
  datatype Assessment = Assessment(criterion: nat, status: Status, references: seq<nat>, reason: string)

  datatype TaskResult = TaskResult(summary: string, findings: seq<string>, assessments: seq<Assessment>)

  // ----- Reading the payload -----

  /** What the contract demands of the fields nothing here looks into. */
  datatype Schema = Schema(limitations: Value -> bool, confidence: Value -> bool, sources: Value -> bool)

  const KEYS := {"summary", "findings", "limitations", "confidence", "assessments"}
  const ASSESSMENT_KEYS := {"criterion_index", "status", "finding_indices", "source_ids", "reason"}

  predicate Short(v: Value, chars: nat) {
    v.Str? ==> |v.text| <= chars
  }

  predicate ShortList(v: Value, items: nat, chars: nat) {
    v.List? ==> |v.items| <= items && forall i :: 0 <= i < |v.items| ==> Short(v.items[i], chars)
  }

  /** The gateway's caps, far below the contract's. */
  predicate WithinLimits(raw: Payload) {
    && Short(Get(raw, "summary"), 400) && ShortList(Get(raw, "findings"), 8, 600)
    && ShortList(Get(raw, "limitations"), 5, 400)
  }

  function StatusOf(v: Value): Option<Status> {
    if v == Str("met") then Some(Met) else if v == Str("partial") then Some(Partial)
    else if v == Str("unmet") then Some(Unmet) else None
  }

  predicate ReadsReferences(v: Value) {
    v.List? && |v.items| <= 20
    && forall i :: 0 <= i < |v.items| ==> v.items[i].Int? && 1 <= v.items[i].number <= 20
  }

  /** An assessment the contract takes, its references aside. */
  predicate ReadsBesides(a: map<string, Value>, s: Schema) {
    && a.Keys <= ASSESSMENT_KEYS
    && Get(a, "criterion_index").Int? && 1 <= Get(a, "criterion_index").number <= 10
    && StatusOf(Get(a, "status")).Some?
    && ("source_ids" in a ==> s.sources(a["source_ids"]))
    && Get(a, "reason").Str? && 1 <= |Get(a, "reason").text| <= 200
  }

  predicate ReadsAssessment(a: map<string, Value>, s: Schema) {
    ReadsBesides(a, s) && ReadsReferences(Get(a, "finding_indices"))
  }

  function Numbers(refs: seq<Value>): (r: seq<nat>)
    requires forall i :: 0 <= i < |refs| ==> refs[i].Int? && 1 <= refs[i].number
    ensures |r| == |refs| && forall i :: 0 <= i < |r| ==> r[i] == refs[i].number
  {
    seq(|refs|, i requires 0 <= i < |refs| => refs[i].number)
  }

  function ReadAssessment(a: map<string, Value>, s: Schema): Assessment
    requires ReadsAssessment(a, s)
  {
    Assessment(Get(a, "criterion_index").number, StatusOf(Get(a, "status")).value,
      Numbers(Get(a, "finding_indices").items), Get(a, "reason").text)
  }

  /** The fields of a result besides findings and assessments. */
  predicate ReadsFrame(payload: Payload, s: Schema) {
    && Get(payload, "summary").Str? && 1 <= |Get(payload, "summary").text| <= 8000
    && s.limitations(Get(payload, "limitations")) && s.confidence(Get(payload, "confidence"))
  }

  predicate Reads(payload: Payload, s: Schema) {
    && ReadsFrame(payload, s)
    && HasFindings(payload) && |Texts(payload)| <= 20 && "" !in Texts(payload)
    && HasAssessments(payload) && |payload["assessments"].items| <= 10
    && forall i :: 0 <= i < |payload["assessments"].items| ==>
         ReadsAssessment(payload["assessments"].items[i].fields, s)
  }

  /** `ResearchResult.model_validate` on such a payload. */
  function Read(payload: Payload, s: Schema): TaskResult
    requires Reads(payload, s)
  {
    var items := payload["assessments"].items;
    TaskResult(Get(payload, "summary").text, Texts(payload),
      seq(|items|, i requires 0 <= i < |items| => ReadAssessment(items[i].fields, s)))
  }

  // ----- validate_task_result -----

  datatype Fault =
    | BlankSummary
    | Placeholders
    | BadCoverage
    | WrongReferences(position: nat)
    | NoSupport(position: nat)
    | NoReason(position: nat)

  function Criteria(assessments: seq<Assessment>): (r: seq<nat>)
    ensures |r| == |assessments| && forall i :: 0 <= i < |r| ==> r[i] == assessments[i].criterion
  {
    seq(|assessments|, i requires 0 <= i < |assessments| => assessments[i].criterion)
  }

  /** Every criterion exactly once. */
  predicate Covers(criteria: nat, indices: seq<nat>) {
    && AllDistinct(indices)
    && (forall i :: 0 <= i < |indices| ==> 1 <= indices[i] <= criteria)
    && forall k :: 1 <= k <= criteria ==> k in indices
  }

  predicate Refers(references: seq<nat>, n: nat) {
    AllDistinct(references) && forall i :: 0 <= i < |references| ==> references[i] <= n
  }

  function FaultOf(a: Assessment, position: nat, n: nat, substantive: string -> bool): Option<Fault> {
    if !Refers(a.references, n) then Some(WrongReferences(position))
    else if !a.status.Unmet? && a.references == [] then Some(NoSupport(position))
    else if !substantive(a.reason) then Some(NoReason(position))
    else None
  }

  /** The first fault from position i on. */
  function FirstFault(result: TaskResult, i: nat, substantive: string -> bool): Option<Fault>
    requires i <= |result.assessments|
    decreases |result.assessments| - i
  {
    if i == |result.assessments| then None
    else
      var fault := FaultOf(result.assessments[i], i, |result.findings|, substantive);
      if fault.Some? then fault else FirstFault(result, i + 1, substantive)
  }

  function Validation(criteria: nat, result: TaskResult, required: bool, substantive: string -> bool): Option<Fault> {
    if !substantive(result.summary) then Some(BlankSummary)
    else if exists i :: 0 <= i < |result.findings| && !substantive(result.findings[i]) then Some(Placeholders)
    else if result.assessments == [] && !required then None
    else if !Covers(criteria, Criteria(result.assessments)) then Some(BadCoverage)
    else FirstFault(result, 0, substantive)
  }

  method ValidateTaskResult(criteria: nat, result: TaskResult, required: bool, substantive: string -> bool)
      returns (r: Option<Fault>)
    ensures r == Validation(criteria, result, required, substantive)
    ensures r.Some? ==> FaultIs(criteria, result, required, substantive, r.value)
  {
    ValidationReports(criteria, result, required, substantive);
    if !substantive(result.summary) {
      return Some(BlankSummary);
    }
    if exists i :: 0 <= i < |result.findings| && !substantive(result.findings[i]) {
      return Some(Placeholders);
    }
    if result.assessments == [] && !required {
      return None;
    }
    if !Covers(criteria, Criteria(result.assessments)) {
      return Some(BadCoverage);
    }
    for i := 0 to |result.assessments|
      invariant FirstFault(result, 0, substantive) == FirstFault(result, i, substantive)
    {
      var item := result.assessments[i];
      var n := |result.findings|;
      if !AllDistinct(item.references) || exists k :: 0 <= k < |item.references| && item.references[k] > n {
        return Some(WrongReferences(i));
      }
      if !item.status.Unmet? && item.references == [] {
        return Some(NoSupport(i));
      }
      if !substantive(item.reason) {
        return Some(NoReason(i));
      }
    }
    return None;
  }

  lemma {:induction false} NoFaultIff(result: TaskResult, i: nat, substantive: string -> bool)
    requires i <= |result.assessments|
    ensures FirstFault(result, i, substantive).None? <==>
      forall k :: i <= k < |result.assessments| ==>
        FaultOf(result.assessments[k], k, |result.findings|, substantive).None?
    ensures FirstFault(result, i, substantive).Some? ==>
      exists k :: i <= k < |result.assessments| &&
        FirstFault(result, i, substantive) == FaultOf(result.assessments[k], k, |result.findings|, substantive)
    decreases |result.assessments| - i
  {
    if i < |result.assessments| {
      NoFaultIff(result, i + 1, substantive);
    }
  }

  // ----- The first fault in its own terms -----

  /** The summary and every finding say something. */
  ghost predicate SaysSomething(result: TaskResult, substantive: string -> bool) {
    substantive(result.summary) && forall t :: t in result.findings ==> substantive(t)
  }

  /** References right, support where claimed, a reason. */
  ghost predicate Faultless(a: Assessment, n: nat, substantive: string -> bool) {
    Refers(a.references, n) && (a.status == Unmet || |a.references| > 0) && substantive(a.reason)
  }

  /** The assessments before k are faultless, and so is everything the result says besides. */
  ghost predicate FirstAt(criteria: nat, result: TaskResult, k: nat, substantive: string -> bool) {
    && SaysSomething(result, substantive) && Covers(criteria, Criteria(result.assessments))
    && k < |result.assessments|
    && forall i :: 0 <= i < k ==> Faultless(result.assessments[i], |result.findings|, substantive)
  }

  /** What each fault means, everything that is checked before it being in order. */
  ghost predicate FaultIs(criteria: nat, result: TaskResult, required: bool, substantive: string -> bool,
      fault: Fault)
  {
    match fault
    case BlankSummary => !substantive(result.summary)
    case Placeholders => substantive(result.summary) && exists t :: t in result.findings && !substantive(t)
    case BadCoverage =>
      && SaysSomething(result, substantive) && (required || |result.assessments| > 0)
      && !Covers(criteria, Criteria(result.assessments))
    case WrongReferences(k) =>
      FirstAt(criteria, result, k, substantive) && !Refers(result.assessments[k].references, |result.findings|)
    case NoSupport(k) =>
      && FirstAt(criteria, result, k, substantive) && Refers(result.assessments[k].references, |result.findings|)
      && result.assessments[k].status != Unmet && |result.assessments[k].references| == 0
    case NoReason(k) =>
      && FirstAt(criteria, result, k, substantive) && Refers(result.assessments[k].references, |result.findings|)
      && (result.assessments[k].status == Unmet || |result.assessments[k].references| > 0)
      && !substantive(result.assessments[k].reason)
  }

  lemma {:induction false} FirstFaultAt(result: TaskResult, i: nat, substantive: string -> bool) returns (k: nat)
    requires i <= |result.assessments| && FirstFault(result, i, substantive).Some?
    ensures i <= k < |result.assessments|
    ensures FirstFault(result, i, substantive) == FaultOf(result.assessments[k], k, |result.findings|, substantive)
    ensures forall j :: i <= j < k ==> Faultless(result.assessments[j], |result.findings|, substantive)
    decreases |result.assessments| - i
  {
    if FaultOf(result.assessments[i], i, |result.findings|, substantive).Some? {
      k := i;
    } else {
      k := FirstFaultAt(result, i + 1, substantive);
    }
  }

  /** Validation reports the first fault, and none exactly when there is none. */
  lemma ValidationReports(criteria: nat, result: TaskResult, required: bool, substantive: string -> bool)
    ensures var r := Validation(criteria, result, required, substantive);
      && (r.Some? ==> FaultIs(criteria, result, required, substantive, r.value))
      && (r.None? <==>
           && SaysSomething(result, substantive)
           && ((!required && |result.assessments| == 0)
               || (Covers(criteria, Criteria(result.assessments))
                   && forall k :: 0 <= k < |result.assessments| ==>
                        Faultless(result.assessments[k], |result.findings|, substantive))))
  {
    NoFaultIff(result, 0, substantive);
    forall k | 0 <= k < |result.assessments|
      ensures FaultOf(result.assessments[k], k, |result.findings|, substantive) == None <==>
        Faultless(result.assessments[k], |result.findings|, substantive)
    {
    }
    if FirstFault(result, 0, substantive).Some? {
      var k := FirstFaultAt(result, 0, substantive);
    }
  }

  // ----- One assessment through cleanup and validation -----

  /** Some reference names a finding that stays. */
  predicate Supported(refs: seq<Value>, texts: seq<string>, keep: string -> bool)
    requires forall i :: 0 <= i < |refs| ==> refs[i].Int? && 1 <= refs[i].number <= |texts|
  {
    exists i :: 0 <= i < |refs| && keep(texts[refs[i].number - 1])
  }

  lemma {:induction false} SupportedIff(refs: seq<Value>, texts: seq<string>, keep: string -> bool)
    requires InRange(refs, |texts|)
    ensures Supported(refs, texts, keep) <==> Remapped(refs, texts, keep) != []
  {
    if refs != [] {
      var n := |refs| - 1;
      SupportedIff(refs[..n], texts, keep);
      if i :| 0 <= i < |refs| && keep(texts[refs[i].number - 1]) {
        assert i < n ==> refs[..n][i] == refs[i];
      }
      if i :| 0 <= i < n && keep(texts[refs[..n][i].number - 1]) {
        assert refs[i] == refs[..n][i];
      }
    }
  }

  /** When every finding stays, so does every number. */
  lemma {:induction false} NothingRenumbered(refs: seq<Value>, texts: seq<string>, keep: string -> bool)
    requires InRange(refs, |texts|) && forall t :: t in texts ==> keep(t)
    ensures Remapped(refs, texts, keep) == refs
  {
    if refs != [] {
      var n := |refs| - 1;
      NothingRenumbered(refs[..n], texts, keep);
      KeepingAll(texts, keep);
      RankIsPosition(texts, keep, refs[n].number);
      assert refs == refs[..n] + [refs[n]];
    }
  }

  lemma {:induction false} RankIsPosition(texts: seq<string>, keep: string -> bool, k: nat)
    requires k <= |texts| && forall t :: t in texts ==> keep(t)
    ensures Rank(texts, keep, k) == k
  {
    if k > 0 {
      RankIsPosition(texts, keep, k - 1);
    }
  }

  /** Different positions among eight findings are at most eight. */
  lemma ReferencesFit(refs: seq<Value>, n: nat)
    requires InRange(refs, n) && AllDistinct(refs) && n <= 8
    ensures |refs| <= 8
  {
    var pool := {1, 2, 3, 4, 5, 6, 7, 8};
    var numbers := Numbers(refs);
    if |refs| > 8 {
      assert |pool| == 8;
      Pigeonhole(numbers, pool);
    }
  }

  /** The contract reads the assessment and validation finds no fault in it. */
  predicate NoFault(a: map<string, Value>, i: nat, n: nat, s: Schema, substantive: string -> bool) {
    ReadsAssessment(a, s) && FaultOf(ReadAssessment(a, s), i, n, substantive).None?
  }

  /** What an accepted assessment looked like before anything was done to it. */
  predicate AcceptableAssessment(a: map<string, Value>, texts: seq<string>, s: Schema, substantive: string -> bool) {
    && ReadsBesides(a, s) && substantive(Get(a, "reason").text)
    && ValidReferences(Get(a, "finding_indices"), |texts|)
    && (ClaimsSupport(a) ==> Supported(Get(a, "finding_indices").items, texts, substantive))
  }

  lemma NumbersRefer(refs: seq<Value>, n: nat)
    requires forall i :: 0 <= i < |refs| ==> refs[i].Int? && 1 <= refs[i].number
    ensures Refers(Numbers(refs), n) <==> ValidReferences(List(refs), n)
  {
    if AllDistinct(refs) {
      forall i, j | 0 <= i < j < |refs| ensures Numbers(refs)[i] != Numbers(refs)[j] {
        assert refs[i] != refs[j];
      }
    } else {
      var i, j :| 0 <= i < j < |refs| && refs[i] == refs[j];
      assert Numbers(refs)[i] == Numbers(refs)[j];
    }
    if InRange(refs, n) {
      assert forall i :: 0 <= i < |refs| ==> Numbers(refs)[i] <= n;
    } else {
      var i :| 0 <= i < |refs| && refs[i].number > n;
      assert Numbers(refs)[i] > n;
    }
  }

  /** An assessment nothing was removed from: reading and validating it finds exactly the faults it came with. */
  lemma UntouchedAssessment(a: map<string, Value>, i: nat, texts: seq<string>, s: Schema, keep: string -> bool)
    requires |texts| <= 8 && forall t :: t in texts ==> keep(t)
    ensures NoFault(a, i, |texts|, s, keep) <==> AcceptableAssessment(a, texts, s, keep)
    ensures AcceptableAssessment(a, texts, s, keep) ==>
      var refs := Get(a, "finding_indices").items;
      ReadAssessment(a, s).references == Numbers(refs) && Remapped(refs, texts, keep) == refs
  {
    var v := Get(a, "finding_indices");
    if ValidReferences(v, |texts|) {
      ReferencesFit(v.items, |texts|);
      SupportedIff(v.items, texts, keep);
      NothingRenumbered(v.items, texts, keep);
    }
    if ReadsAssessment(a, s) {
      NumbersRefer(v.items, |texts|);
      assert v == List(v.items);
    }
  }

  /** Without a removal, validation refuses references and missing support exactly where the payload had them wrong. */
  lemma UntouchedFaults(a: map<string, Value>, i: nat, n: nat, s: Schema, substantive: string -> bool)
    requires ReadsAssessment(a, s)
    ensures var v, fault := Get(a, "finding_indices"), FaultOf(ReadAssessment(a, s), i, n, substantive);
      && (fault == Some(WrongReferences(i)) <==> !ValidReferences(v, n))
      && (fault == Some(NoSupport(i)) <==> ValidReferences(v, n) && ClaimsSupport(a) && v.items == [])
  {
    var v := Get(a, "finding_indices");
    NumbersRefer(v.items, n);
    assert v == List(v.items);
  }

  /** After a removal it refuses neither: the cleanup left valid references and support behind. */
  lemma CleanedFaults(a: map<string, Value>, b: map<string, Value>, i: nat, texts: seq<string>, s: Schema,
      keep: string -> bool)
    requires FindingCleanup.Cleaned(a, b, texts, keep) && ReadsAssessment(b, s)
    ensures var fault := FaultOf(ReadAssessment(b, s), i, |Kept(texts, keep)|, keep);
      fault.None? || fault == Some(NoReason(i))
    ensures ReadAssessment(b, s).references == Numbers(Get(b, "finding_indices").items)
    ensures Get(b, "finding_indices").items == Remapped(Get(a, "finding_indices").items, texts, keep)
  {
    var refs := Get(a, "finding_indices").items;
    RemappedInRange(refs, texts, keep);
    RemappedDistinct(refs, texts, keep);
    NumbersRefer(Remapped(refs, texts, keep), |Kept(texts, keep)|);
  }

  lemma CleanedReads(a: map<string, Value>, b: map<string, Value>, texts: seq<string>, s: Schema, keep: string -> bool)
    requires FindingCleanup.Cleaned(a, b, texts, keep) && |texts| <= 8
    ensures ReadsAssessment(b, s) <==> ReadsBesides(a, s)
  {
    var refs := Get(a, "finding_indices").items;
    RemappedInRange(refs, texts, keep);
    RemappedDistinct(refs, texts, keep);
    KeptLength(texts, keep);
    RankAtMost(texts, keep, |texts|);
    ReferencesFit(Remapped(refs, texts, keep), |Kept(texts, keep)|);
  }

  lemma {:induction false} RankAtMost(texts: seq<string>, keep: string -> bool, k: nat)
    requires k <= |texts|
    ensures Rank(texts, keep, k) <= k
  {
    if k > 0 {
      RankAtMost(texts, keep, k - 1);
    }
  }

  lemma CleanedAssessment(a: map<string, Value>, b: map<string, Value>, i: nat, texts: seq<string>, s: Schema,
      keep: string -> bool)
    requires FindingCleanup.Cleaned(a, b, texts, keep) && |texts| <= 8
    ensures NoFault(b, i, |Kept(texts, keep)|, s, keep) <==> AcceptableAssessment(a, texts, s, keep)
  {
    CleanedReads(a, b, texts, s, keep);
    SupportedIff(Get(a, "finding_indices").items, texts, keep);
    if ReadsAssessment(b, s) {
      CleanedFaults(a, b, i, texts, s, keep);
    }
  }

  /** The cleanup passes every assessment that could be accepted. */
  lemma AcceptableIsCleaned(a: map<string, Value>, i: nat, texts: seq<string>, s: Schema, keep: string -> bool)
    requires AcceptableAssessment(a, texts, s, keep)
    ensures CheckAssessment(a, i, texts, keep).Ok?
  {
    SupportedIff(Get(a, "finding_indices").items, texts, keep);
  }

  // ----- The whole payload -----

  function CriteriaOf(items: seq<Value>): (r: seq<int>)
    requires forall i :: 0 <= i < |items| ==> items[i].Dict? && Get(items[i].fields, "criterion_index").Int?
    ensures |r| == |items|
    ensures forall i :: 0 <= i < |r| ==> r[i] == Get(items[i].fields, "criterion_index").number
  {
    seq(|items|, i requires 0 <= i < |items| => Get(items[i].fields, "criterion_index").number)
  }

  /** Every criterion exactly once, in the payload as it came. */
  predicate CoversRaw(criteria: nat, indices: seq<int>) {
    && AllDistinct(indices)
    && (forall i :: 0 <= i < |indices| ==> 1 <= indices[i] <= criteria)
    && forall k :: 1 <= k <= criteria ==> k in indices
  }

  /** A payload worth accepting, whichever way the cleanup goes: some finding is real, every reference is right, and
      every met or partial assessment names a real finding. */
  predicate Acceptable(raw: Payload, criteria: nat, s: Schema, substantive: string -> bool) {
    && raw.Keys == KEYS && WithinLimits(raw) && ReadsFrame(raw, s) && substantive(Get(raw, "summary").text)
    && HasFindings(raw) && Kept(Texts(raw), substantive) != []
    && HasAssessments(raw) && |raw["assessments"].items| <= 10
    && var items := raw["assessments"].items;
    && (forall i :: 0 <= i < |items| ==> AcceptableAssessment(items[i].fields, Texts(raw), s, substantive))
    && CoversRaw(criteria, CriteriaOf(items))
  }

  /** The contract reads the payload and validation finds no fault. */
  predicate Passes(payload: Payload, criteria: nat, s: Schema, substantive: string -> bool) {
    Reads(payload, s) && Validation(criteria, Read(payload, s), true, substantive).None?
  }

  lemma PassesIff(payload: Payload, criteria: nat, s: Schema, substantive: string -> bool)
    requires Reads(payload, s)
    ensures var result := Read(payload, s);
      Passes(payload, criteria, s, substantive) <==>
        && substantive(result.summary) && (forall t :: t in result.findings ==> substantive(t))
        && Covers(criteria, Criteria(result.assessments))
        && forall k :: 0 <= k < |result.assessments| ==>
             FaultOf(result.assessments[k], k, |result.findings|, substantive).None?
  {
    NoFaultIff(Read(payload, s), 0, substantive);
  }

  lemma SameCriteria(payload: Payload, s: Schema, criteria: nat, items: seq<Value>)
    requires Reads(payload, s) && |items| == |payload["assessments"].items|
    requires forall i :: 0 <= i < |items| ==> items[i].Dict? && Get(items[i].fields, "criterion_index").Int?
    requires forall i :: 0 <= i < |items| ==>
      Get(items[i].fields, "criterion_index") == Get(payload["assessments"].items[i].fields, "criterion_index")
    ensures Covers(criteria, Criteria(Read(payload, s).assessments)) <==> CoversRaw(criteria, CriteriaOf(items))
  {
    var mine, theirs := Criteria(Read(payload, s).assessments), CriteriaOf(items);
    assert |mine| == |theirs| && forall i :: 0 <= i < |mine| ==> mine[i] == theirs[i];
    forall k | 1 <= k <= criteria ensures k in mine <==> k in theirs {
      if k in mine { var i :| 0 <= i < |mine| && mine[i] == k; assert theirs[i] == k; }
      if k in theirs { var i :| 0 <= i < |theirs| && theirs[i] == k; assert mine[i] == k; }
    }
  }

  /** The two payloads are read alike apart from findings and references, and an assessment of the second is read
      without fault exactly when that of the first was worth accepting. */
  ghost predicate Mirrors(raw: Payload, payload: Payload, s: Schema, substantive: string -> bool) {
    && HasFindings(raw) && HasAssessments(raw) && HasFindings(payload) && HasAssessments(payload)
    && Texts(payload) == Kept(Texts(raw), substantive)
    && Get(payload, "summary") == Get(raw, "summary") && (ReadsFrame(payload, s) <==> ReadsFrame(raw, s))
    && |payload["assessments"].items| == |raw["assessments"].items|
    && forall i :: 0 <= i < |raw["assessments"].items| ==>
         MirrorsOne(raw["assessments"].items[i].fields, payload["assessments"].items[i].fields, i, Texts(raw), s,
           substantive)
  }

  ghost predicate MirrorsOne(a: map<string, Value>, b: map<string, Value>, i: nat, texts: seq<string>, s: Schema,
      keep: string -> bool)
  {
    && Get(b, "criterion_index") == Get(a, "criterion_index")
    && (NoFault(b, i, |Kept(texts, keep)|, s, keep) <==> AcceptableAssessment(a, texts, s, keep))
  }

  lemma MirrorReads(raw: Payload, payload: Payload, s: Schema, substantive: string -> bool)
    requires WithinLimits(raw) && !substantive("") && Mirrors(raw, payload, s, substantive)
    requires ReadsFrame(raw, s) && |raw["assessments"].items| <= 10
    requires forall i :: 0 <= i < |payload["assessments"].items| ==>
      ReadsAssessment(payload["assessments"].items[i].fields, s)
    ensures Reads(payload, s)
  {
    KeptAreSubstantive(Texts(raw), substantive);
    PositionsCount(Texts(raw), substantive);
  }

  lemma AcceptablePasses(raw: Payload, payload: Payload, criteria: nat, s: Schema, substantive: string -> bool)
    requires !substantive("") && Mirrors(raw, payload, s, substantive) && Acceptable(raw, criteria, s, substantive)
    ensures Passes(payload, criteria, s, substantive)
  {
    var items, after := raw["assessments"].items, payload["assessments"].items;
    forall i | 0 <= i < |after| ensures NoFault(after[i].fields, i, |Texts(payload)|, s, substantive) {
      assert MirrorsOne(items[i].fields, after[i].fields, i, Texts(raw), s, substantive);
    }
    MirrorReads(raw, payload, s, substantive);
    PassesIff(payload, criteria, s, substantive);
    KeptAreSubstantive(Texts(raw), substantive);
    SameCriteria(payload, s, criteria, items);
  }

  lemma PassesAcceptable(raw: Payload, payload: Payload, criteria: nat, s: Schema, substantive: string -> bool)
    requires raw.Keys == KEYS && WithinLimits(raw) && Mirrors(raw, payload, s, substantive)
    requires Passes(payload, criteria, s, substantive)
    ensures Acceptable(raw, criteria, s, substantive)
  {
    var items, after := raw["assessments"].items, payload["assessments"].items;
    PassesIff(payload, criteria, s, substantive);
    var result := Read(payload, s);
    forall i | 0 <= i < |items| ensures AcceptableAssessment(items[i].fields, Texts(raw), s, substantive) {
      assert MirrorsOne(items[i].fields, after[i].fields, i, Texts(raw), s, substantive);
      assert result.assessments[i] == ReadAssessment(after[i].fields, s);
      assert FaultOf(result.assessments[i], i, |result.findings|, substantive).None?;
    }
    SameCriteria(payload, s, criteria, items);
  }

  lemma UntouchedMirrors(raw: Payload, s: Schema, substantive: string -> bool)
    requires HasFindings(raw) && HasAssessments(raw) && |Texts(raw)| <= 8
    requires forall t :: t in Texts(raw) ==> substantive(t)
    ensures Mirrors(raw, raw, s, substantive)
  {
    KeepingAll(Texts(raw), substantive);
    var items := raw["assessments"].items;
    forall i | 0 <= i < |items|
      ensures MirrorsOne(items[i].fields, items[i].fields, i, Texts(raw), s, substantive)
    {
      UntouchedAssessment(items[i].fields, i, Texts(raw), s, substantive);
    }
  }

  lemma CleanedMirrors(raw: Payload, payload: Payload, s: Schema, substantive: string -> bool)
    requires Removable(raw, substantive) && CleanedPayload(raw, payload, substantive) && |Texts(raw)| <= 8
    ensures Mirrors(raw, payload, s, substantive)
  {
    var before, after := raw["assessments"].items, payload["assessments"].items;
    forall i | 0 <= i < |before|
      ensures MirrorsOne(before[i].fields, after[i].fields, i, Texts(raw), s, substantive)
    {
      assert FindingCleanup.Cleaned(before[i].fields, after[i].fields, Texts(raw), substantive);
      CleanedAssessment(before[i].fields, after[i].fields, i, Texts(raw), s, substantive);
    }
    assert Texts(payload) == Kept(Texts(raw), substantive);
  }

  /** When nothing can be removed, a payload passes if and only if it was worth accepting. */
  lemma UntouchedPasses(raw: Payload, criteria: nat, s: Schema, substantive: string -> bool)
    requires raw.Keys == KEYS && WithinLimits(raw) && Untouched(raw, substantive) && !substantive("")
    ensures Passes(raw, criteria, s, substantive) <==> Acceptable(raw, criteria, s, substantive)
  {
    if HasFindings(raw) && HasAssessments(raw) {
      AllKeptIff(Texts(raw), substantive);
      if forall t :: t in Texts(raw) ==> substantive(t) {
        UntouchedMirrors(raw, s, substantive);
        if Passes(raw, criteria, s, substantive) {
          PassesAcceptable(raw, raw, criteria, s, substantive);
        }
        if Acceptable(raw, criteria, s, substantive) {
          AcceptablePasses(raw, raw, criteria, s, substantive);
        }
      }
    }
  }

  lemma AllKeptIff(texts: seq<string>, keep: string -> bool)
    ensures |Kept(texts, keep)| <= |texts|
    ensures |Kept(texts, keep)| == |texts| <==> forall t :: t in texts ==> keep(t)
  {
    PositionsCount(texts, keep);
    if |Kept(texts, keep)| == |texts| {
      forall t | t in texts ensures keep(t) {
        var i :| 0 <= i < |texts| && texts[i] == t;
        assert keep(t) || i + 1 in Positions(texts, keep, false);
      }
    } else {
      assert Positions(texts, keep, false)[0] in Positions(texts, keep, false);
      assert !keep(texts[Positions(texts, keep, false)[0] - 1]);
    }
  }

  /** After a removal the same: a cleaned payload passes if and only if the raw one was worth accepting. */
  lemma CleanedPasses(raw: Payload, payload: Payload, criteria: nat, s: Schema, substantive: string -> bool)
    requires raw.Keys == KEYS && WithinLimits(raw) && !substantive("")
    requires Removable(raw, substantive) && CleanedPayload(raw, payload, substantive)
    ensures Passes(payload, criteria, s, substantive) <==> Acceptable(raw, criteria, s, substantive)
  {
    CleanedMirrors(raw, payload, s, substantive);
    if Passes(payload, criteria, s, substantive) {
      PassesAcceptable(raw, payload, criteria, s, substantive);
    }
    if Acceptable(raw, criteria, s, substantive) {
      AcceptablePasses(raw, payload, criteria, s, substantive);
    }
  }

  /** What a cleanup refuses was not worth accepting. */
  lemma RefusedIsUnacceptable(raw: Payload, i: nat, r: Outcome, criteria: nat, s: Schema, substantive: string -> bool)
    requires Removable(raw, substantive) && FirstRefused(raw["assessments"].items, i, Texts(raw), substantive, r)
    ensures !Acceptable(raw, criteria, s, substantive)
  {
    if Acceptable(raw, criteria, s, substantive) {
      AcceptableIsCleaned(raw["assessments"].items[i].fields, i, Texts(raw), s, substantive);
    }
  }

  // ----- What an accepted result guarantees -----

  /** Real findings only; every criterion assessed once; references different and in range; met and partial supported.
      */
  ghost predicate Sound(result: TaskResult, criteria: nat, substantive: string -> bool) {
    && substantive(result.summary) && (forall t :: t in result.findings ==> substantive(t))
    && Covers(criteria, Criteria(result.assessments))
    && forall k :: 0 <= k < |result.assessments| ==>
         var a := result.assessments[k];
         && Refers(a.references, |result.findings|) && (forall j :: 0 <= j < |a.references| ==> 1 <= a.references[j])
         && (!a.status.Unmet? ==> a.references != []) && substantive(a.reason)
  }

  /** The result is the raw payload's: the real findings in order, and each assessment with the same criterion, status
      and reason, referring under new numbers to the real findings it referred to. */
  ghost predicate Traces(raw: Payload, result: TaskResult, keep: string -> bool) {
    && HasFindings(raw) && HasAssessments(raw) && result.findings == Kept(Texts(raw), keep)
    && |result.assessments| == |raw["assessments"].items|
    && forall k :: 0 <= k < |result.assessments| ==>
         TracesOne(raw["assessments"].items[k].fields, result.assessments[k], Texts(raw), keep)
  }

  ghost predicate TracesOne(a: map<string, Value>, b: Assessment, texts: seq<string>, keep: string -> bool) {
    && Get(a, "criterion_index") == Int(b.criterion) && Get(a, "reason") == Str(b.reason)
    && StatusOf(Get(a, "status")) == Some(b.status)
    && ValidReferences(Get(a, "finding_indices"), |texts|)
    && (forall j :: 0 <= j < |b.references| ==> 1 <= b.references[j] <= |Kept(texts, keep)|)
    && Named(b.references, Kept(texts, keep)) == Kept(TextsOf(Get(a, "finding_indices").items, texts), keep)
  }

  /** The findings a list of references names. */
  function Named(references: seq<nat>, findings: seq<string>): seq<string>
    requires forall j :: 0 <= j < |references| ==> 1 <= references[j] <= |findings|
  {
    seq(|references|, j requires 0 <= j < |references| => findings[references[j] - 1])
  }

  lemma {:induction false} TextsOfAt(refs: seq<Value>, texts: seq<string>, j: nat)
    requires InRange(refs, |texts|) && j < |refs|
    ensures |TextsOf(refs, texts)| == |refs| && TextsOf(refs, texts)[j] == texts[refs[j].number - 1]
  {
    var n := |refs| - 1;
    if n > 0 {
      TextsOfAt(refs[..n], texts, if j < n then j else 0);
    }
  }

  lemma NamedIsTextsOf(refs: seq<Value>, texts: seq<string>)
    requires InRange(refs, |texts|)
    ensures Named(Numbers(refs), texts) == TextsOf(refs, texts)
  {
    forall j | 0 <= j < |refs|
      ensures |TextsOf(refs, texts)| == |refs| && TextsOf(refs, texts)[j] == Named(Numbers(refs), texts)[j]
    {
      TextsOfAt(refs, texts, j);
    }
    if refs == [] {
      assert TextsOf(refs, texts) == [];
    } else {
      TextsOfAt(refs, texts, 0);
    }
  }

  lemma RemappedTraces(a: map<string, Value>, b: Assessment, texts: seq<string>, keep: string -> bool)
    requires ValidReferences(Get(a, "finding_indices"), |texts|)
    requires Get(a, "criterion_index") == Int(b.criterion) && Get(a, "reason") == Str(b.reason)
    requires StatusOf(Get(a, "status")) == Some(b.status)
    requires var refs := Remapped(Get(a, "finding_indices").items, texts, keep);
      (forall i :: 0 <= i < |refs| ==> refs[i].Int? && 1 <= refs[i].number) && b.references == Numbers(refs)
    ensures TracesOne(a, b, texts, keep)
  {
    var refs := Get(a, "finding_indices").items;
    RemappedInRange(refs, texts, keep);
    RemappedKeepsTexts(refs, texts, keep);
    NamedIsTextsOf(Remapped(refs, texts, keep), Kept(texts, keep));
  }

  lemma PassedIsSound(payload: Payload, criteria: nat, s: Schema, substantive: string -> bool)
    requires Passes(payload, criteria, s, substantive)
    ensures Sound(Read(payload, s), criteria, substantive)
  {
    PassesIff(payload, criteria, s, substantive);
    var result := Read(payload, s);
    forall k | 0 <= k < |result.assessments|
      ensures FaultOf(result.assessments[k], k, |result.findings|, substantive).None?
    {
    }
  }

  lemma UntouchedTraces(raw: Payload, criteria: nat, s: Schema, substantive: string -> bool)
    requires WithinLimits(raw) && Passes(raw, criteria, s, substantive)
    ensures Traces(raw, Read(raw, s), substantive)
  {
    PassesIff(raw, criteria, s, substantive);
    var items, texts, result := raw["assessments"].items, Texts(raw), Read(raw, s);
    KeepingAll(texts, substantive);
    forall k | 0 <= k < |items| ensures TracesOne(items[k].fields, result.assessments[k], texts, substantive) {
      assert result.assessments[k] == ReadAssessment(items[k].fields, s);
      assert FaultOf(result.assessments[k], k, |result.findings|, substantive).None?;
      UntouchedAssessment(items[k].fields, k, texts, s, substantive);
      RemappedTraces(items[k].fields, result.assessments[k], texts, substantive);
    }
  }

  lemma CleanedTraces(raw: Payload, payload: Payload, s: Schema, substantive: string -> bool)
    requires Removable(raw, substantive) && CleanedPayload(raw, payload, substantive) && Reads(payload, s)
    ensures Traces(raw, Read(payload, s), substantive)
  {
    var before, after, texts := raw["assessments"].items, payload["assessments"].items, Texts(raw);
    var result := Read(payload, s);
    forall k | 0 <= k < |before| ensures TracesOne(before[k].fields, result.assessments[k], texts, substantive) {
      assert FindingCleanup.Cleaned(before[k].fields, after[k].fields, texts, substantive);
      assert result.assessments[k] == ReadAssessment(after[k].fields, s);
      CleanedFaults(before[k].fields, after[k].fields, k, texts, s, substantive);
      RemappedTraces(before[k].fields, result.assessments[k], texts, substantive);
    }
  }

  // ----- The gateway's validation -----

  datatype Stage = WrongKeys | TooLong | Cleanup(outcome: Outcome) | Contract | Invalid(fault: Fault)

  datatype Verdict = Accepted(result: TaskResult, removed: seq<nat>) | Refused(stage: Stage)

  /** Validation complains about references or support. */
  predicate BlamesReferences(stage: Stage) {
    stage.Invalid? && (stage.fault.WrongReferences? || stage.fault.NoSupport?)
  }

  /** After a removal, validation never blames references or support. */
  lemma CleanedIsNotBlamed(raw: Payload, payload: Payload, criteria: nat, s: Schema, substantive: string -> bool)
    requires Removable(raw, substantive) && CleanedPayload(raw, payload, substantive) && Reads(payload, s)
    ensures var fault := Validation(criteria, Read(payload, s), true, substantive);
      fault.Some? ==> !BlamesReferences(Invalid(fault.value))
  {
    var result := Read(payload, s);
    if FirstFault(result, 0, substantive).Some? {
      var k := FirstFaultAt(result, 0, substantive);
      var before, after := raw["assessments"].items, payload["assessments"].items;
      assert FindingCleanup.Cleaned(before[k].fields, after[k].fields, Texts(raw), substantive);
      assert result.assessments[k] == ReadAssessment(after[k].fields, s);
      assert Texts(payload) == Kept(Texts(raw), substantive);
      CleanedFaults(before[k].fields, after[k].fields, k, Texts(raw), s, substantive);
    }
  }

  /** The payload has a wrong reference, or a met or partial assessment without any. */
  ghost predicate FaultyReferences(raw: Payload)
    requires HasFindings(raw) && HasAssessments(raw)
  {
    exists i :: 0 <= i < |raw["assessments"].items| &&
      var a := raw["assessments"].items[i].fields;
      !ValidReferences(Get(a, "finding_indices"), |Texts(raw)|)
      || (ClaimsSupport(a) && Get(a, "finding_indices").items == [])
  }

  /** Without a removal it does so exactly when the payload came with such a fault, once the reasons say something. */
  lemma UntouchedIsBlamedIff(raw: Payload, criteria: nat, s: Schema, substantive: string -> bool)
    requires Reads(raw, s) && (forall t :: t in Texts(raw) ==> substantive(t)) && substantive(Read(raw, s).summary)
    requires Covers(criteria, Criteria(Read(raw, s).assessments))
    requires forall k :: 0 <= k < |Read(raw, s).assessments| ==> substantive(Read(raw, s).assessments[k].reason)
    ensures var fault := Validation(criteria, Read(raw, s), true, substantive);
      (fault.Some? && BlamesReferences(Invalid(fault.value))) <==> FaultyReferences(raw)
  {
    var result, items := Read(raw, s), raw["assessments"].items;
    NoFaultIff(result, 0, substantive);
    forall k | 0 <= k < |items|
      ensures FaultOf(result.assessments[k], k, |result.findings|, substantive).Some? <==>
        !ValidReferences(Get(items[k].fields, "finding_indices"), |Texts(raw)|)
        || (ClaimsSupport(items[k].fields) && Get(items[k].fields, "finding_indices").items == [])
    {
      assert result.assessments[k] == ReadAssessment(items[k].fields, s);
      UntouchedFaults(items[k].fields, k, |Texts(raw)|, s, substantive);
    }
    if FirstFault(result, 0, substantive).Some? {
      var k := FirstFaultAt(result, 0, substantive);
      assert result.assessments[k] == ReadAssessment(items[k].fields, s);
      UntouchedFaults(items[k].fields, k, |Texts(raw)|, s, substantive);
    }
  }

  /** The five fields of a result, and no other. */
  ghost predicate HasItsKeys(raw: Payload) {
    forall key :: key in raw <==> key in ["summary", "findings", "limitations", "confidence", "assessments"]
  }

  /** All findings are placeholders, or an assessment cannot be renumbered. */
  ghost predicate RefusesToClean(raw: Payload, substantive: string -> bool, outcome: Outcome) {
    if outcome == AllPlaceholders then OnlyPlaceholders(raw, substantive)
    else
      && Removable(raw, substantive)
      && exists i :: FirstRefused(raw["assessments"].items, i, Texts(raw), substantive, outcome)
  }

  /** What each refusal means, everything checked before it being in order. */
  ghost predicate RefusedAt(raw: Payload, criteria: nat, s: Schema, substantive: string -> bool, stage: Stage) {
    match stage
    case WrongKeys => !HasItsKeys(raw)
    case TooLong => HasItsKeys(raw) && !WithinLimits(raw)
    case Cleanup(outcome) =>
      HasItsKeys(raw) && WithinLimits(raw) && !outcome.Normalized? && RefusesToClean(raw, substantive, outcome)
    case Contract =>
      && HasItsKeys(raw) && WithinLimits(raw)
      && exists payload, removed :: NormalizesTo(raw, payload, removed, substantive) && !Reads(payload, s)
    case Invalid(fault) =>
      && HasItsKeys(raw) && WithinLimits(raw)
      && exists payload, removed ::
           NormalizesTo(raw, payload, removed, substantive) && Reads(payload, s)
           && FaultIs(criteria, Read(payload, s), true, substantive, fault)
  }

  lemma KeysIff(raw: Payload)
    ensures raw.Keys == KEYS <==> HasItsKeys(raw)
  {
  }

  /** The checks of a fresh result, in the gateway's order. An accepted one is sound and traces the payload, whichever
      way the cleanup went. */
  method AcceptResearch(raw: Payload, criteria: nat, s: Schema, substantive: string -> bool) returns (v: Verdict)
    requires !substantive("")
    ensures v.Accepted? <==> Acceptable(raw, criteria, s, substantive)
    ensures v.Accepted? ==> Sound(v.result, criteria, substantive) && Traces(raw, v.result, substantive)
    ensures v.Accepted? ==> v.removed == Positions(Texts(raw), substantive, false)
    ensures v.Refused? && BlamesReferences(v.stage) ==> Untouched(raw, substantive)
    ensures v.Refused? ==> RefusedAt(raw, criteria, s, substantive, v.stage)
  {
    KeysIff(raw);
    if raw.Keys != KEYS {
      return Refused(WrongKeys);
    }
    if !WithinLimits(raw) {
      return Refused(TooLong);
    }
    var cleaned := NormalizeResearchOutput(raw, substantive);
    if !cleaned.Normalized? {
      if Removable(raw, substantive) {
        ghost var i :| FirstRefused(raw["assessments"].items, i, Texts(raw), substantive, cleaned);
        RefusedIsUnacceptable(raw, i, cleaned, criteria, s, substantive);
      }
      return Refused(Cleanup(cleaned));
    }
    var payload := cleaned.payload;
    PassesAsCleaned(raw, payload, cleaned.removed, criteria, s, substantive);
    if !Reads(payload, s) {
      return Refused(Contract);
    }
    var fault := ValidateTaskResult(criteria, Read(payload, s), true, substantive);
    if fault.Some? {
      return Refused(Invalid(fault.value));
    }
    PassedIsSound(payload, criteria, s, substantive);
    return Accepted(Read(payload, s), cleaned.removed);
  }

  lemma PassesAsCleaned(raw: Payload, payload: Payload, removed: seq<nat>, criteria: nat, s: Schema,
      substantive: string -> bool)
    requires raw.Keys == KEYS && WithinLimits(raw) && !substantive("")
    requires NormalizesTo(raw, payload, removed, substantive)
    ensures Passes(payload, criteria, s, substantive) <==> Acceptable(raw, criteria, s, substantive)
    ensures Passes(payload, criteria, s, substantive) ==>
      Traces(raw, Read(payload, s), substantive) && removed == Positions(Texts(raw), substantive, false)
    ensures Reads(payload, s) && !Untouched(raw, substantive) ==>
      var fault := Validation(criteria, Read(payload, s), true, substantive);
      fault.Some? ==> !BlamesReferences(Invalid(fault.value))
  {
    if Removable(raw, substantive) {
      CleanedPasses(raw, payload, criteria, s, substantive);
      if Reads(payload, s) {
        CleanedIsNotBlamed(raw, payload, criteria, s, substantive);
        CleanedTraces(raw, payload, s, substantive);
      }
    } else {
      UntouchedPasses(raw, criteria, s, substantive);
      if Passes(raw, criteria, s, substantive) {
        UntouchedTraces(raw, criteria, s, substantive);
        NothingRemoved(raw, s, criteria, substantive);
      }
    }
  }

  lemma NothingRemoved(raw: Payload, s: Schema, criteria: nat, substantive: string -> bool)
    requires Passes(raw, criteria, s, substantive)
    ensures Positions(Texts(raw), substantive, false) == []
  {
    PassesIff(raw, criteria, s, substantive);
    AllKeptIff(Texts(raw), substantive);
    PositionsCount(Texts(raw), substantive);
  }
}
