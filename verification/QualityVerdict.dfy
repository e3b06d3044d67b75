/** Merging deterministic audit findings into a model's verdict (backend/src/atlasflow/agents/report_quality.py). */
module QualityVerdict {
  import opened Common

  const MAX_ISSUES := 20
  const MAX_INSTRUCTIONS := 20
  const MAX_RATIONALE := 4000
  const ACCEPTANCE_SCORE := 50

  datatype Severity = Info | Warning | Critical {
    function Rank(): nat {
      match this
      case Info => 0
      case Warning => 1
      case Critical => 2
    }
  }

  datatype Scope = Core | Local | Presentation | Unknown

  datatype QualityRoute = Accept | Revise | Replan

  datatype ReviewIssue = ReviewIssue(
    severity: Severity, code: string, taskId: Option<string>, recommendation: string,
    scope: Scope, paragraphIds: seq<string>, reportedSeverity: Option<Severity>)

  datatype QualityDecision = QualityDecision(
    decision: QualityRoute, score: int, rationale: string, issues: seq<ReviewIssue>, instructions: seq<string>)

  const NON_BLOCKING_ISSUES := {
    "report_missing_sections", "report_internal_task_reference", "report_nonacademic_inline_link",
    "report_too_brief", "presentation_style", "presentation_completeness", "report_limitation_note",
    "report_optional_detail"}

  const CORE_INVARIANTS := {"report_missing_fresh_evidence", "report_update_missing_content"}

  predicate HasCritical(issues: seq<ReviewIssue>) {
    exists i :: 0 <= i < |issues| && issues[i].severity.Critical?
  }

  /** What `QualityDecision` itself checks on construction. */
  predicate Valid(d: QualityDecision) {
    && 0 <= d.score <= 100 && |d.rationale| <= MAX_RATIONALE
    && |d.issues| <= MAX_ISSUES && |d.instructions| <= MAX_INSTRUCTIONS
    && (d.decision.Accept? ==> d.score >= ACCEPTANCE_SCORE && !HasCritical(d.issues))
  }

  function Take<T>(s: seq<T>, n: nat): seq<T> {
    if |s| <= n then s else s[..n]
  }

  /** Validated recommendations carry no surrounding blanks, so a blank one is an empty one. */
  function Recommendations(issues: seq<ReviewIssue>): seq<string> {
    if issues == [] then []
    else if issues[|issues| - 1].recommendation == "" then Recommendations(issues[..|issues| - 1])
    else Recommendations(issues[..|issues| - 1]) + [issues[|issues| - 1].recommendation]
  }

  predicate Nonblocking(issue: ReviewIssue) {
    && !issue.severity.Critical?
    && issue.code !in CORE_INVARIANTS
    && (issue.code in NON_BLOCKING_ISSUES
        || (issue.scope.Local? && issue.severity.Info? && issue.paragraphIds != []
            && forall k :: 0 <= k < |issue.paragraphIds| ==> "L" <= issue.paragraphIds[k]))
  }

  /** The findings about form. */
  ghost predicate IsForm(code: string) {
    || code == "report_missing_sections" || code == "report_internal_task_reference"
    || code == "report_nonacademic_inline_link" || code == "report_too_brief"
    || code == "presentation_style" || code == "presentation_completeness"
    || code == "report_limitation_note" || code == "report_optional_detail"
  }

  /** Missing evidence and missing content concern the report as a whole. */
  ghost predicate IsCore(code: string) {
    code == "report_missing_fresh_evidence" || code == "report_update_missing_content"
  }

  /** Relaxed review lets the finding pass: it is about form, or a remark on paragraphs that already state a
      limitation. */
  ghost predicate Waived(issue: ReviewIssue) {
    && issue.severity != Critical && !IsCore(issue.code)
    && (IsForm(issue.code) || (issue.severity == Info && issue.scope == Local && OnLimitations(issue.paragraphIds)))
  }

  ghost predicate OnLimitations(paragraphIds: seq<string>) {
    && |paragraphIds| > 0
    && forall k :: 0 <= k < |paragraphIds| ==> paragraphIds[k] != "" && paragraphIds[k][0] == 'L'
  }

  lemma NonblockingIff(issue: ReviewIssue)
    ensures Nonblocking(issue) <==> Waived(issue)
  {
    forall k | 0 <= k < |issue.paragraphIds|
      ensures "L" <= issue.paragraphIds[k] <==> issue.paragraphIds[k] != "" && issue.paragraphIds[k][0] == 'L'
    {
    }
    assert issue.code in NON_BLOCKING_ISSUES <==> IsForm(issue.code);
    assert issue.code in CORE_INVARIANTS <==> IsCore(issue.code);
  }

  // ----- Merging -----

  predicate SameFinding(a: ReviewIssue, b: ReviewIssue) {
    a.code == b.code && a.taskId == b.taskId
  }

  /** One audit finding joins the list, or replaces a weaker first finding with its code and task. */
  function MergeOne(merged: seq<ReviewIssue>, audit: ReviewIssue): seq<ReviewIssue> {
    if merged == [] then [audit]
    else if SameFinding(merged[0], audit) then
      if audit.severity.Rank() > merged[0].severity.Rank() then [audit] + merged[1..] else merged
    else [merged[0]] + MergeOne(merged[1..], audit)
  }

  function MergeAll(merged: seq<ReviewIssue>, audits: seq<ReviewIssue>): seq<ReviewIssue> {
    if audits == [] then merged else MergeOne(MergeAll(merged, audits[..|audits| - 1]), audits[|audits| - 1])
  }

  /** The list holds a finding with the code and task of issue, at least as severe. */
  ghost predicate Represents(merged: seq<ReviewIssue>, issue: ReviewIssue) {
    exists i :: 0 <= i < |merged| && SameFinding(merged[i], issue) && merged[i].severity.Rank() >= issue.severity.Rank()
  }

  /** No position gets weaker or changes what it is about, and the new finding is represented. */
  lemma {:induction false} MergeOneFacts(merged: seq<ReviewIssue>, audit: ReviewIssue)
    ensures |merged| <= |MergeOne(merged, audit)| <= |merged| + 1
    ensures forall i :: 0 <= i < |merged| ==>
      SameFinding(MergeOne(merged, audit)[i], merged[i])
      && MergeOne(merged, audit)[i].severity.Rank() >= merged[i].severity.Rank()
    ensures Represents(MergeOne(merged, audit), audit)
  {
    var r := MergeOne(merged, audit);
    if merged == [] || SameFinding(merged[0], audit) {
      assert SameFinding(r[0], audit) && r[0].severity.Rank() >= audit.severity.Rank();
    } else {
      MergeOneFacts(merged[1..], audit);
      var rest := MergeOne(merged[1..], audit);
      var i :| 0 <= i < |rest| && SameFinding(rest[i], audit) && rest[i].severity.Rank() >= audit.severity.Rank();
      assert r[i + 1] == rest[i];
    }
  }

  /** Merging never weakens a finding that was already listed, and keeps it in place. */
  lemma {:induction false} MergeKeepsRanks(merged: seq<ReviewIssue>, audits: seq<ReviewIssue>)
    ensures |MergeAll(merged, audits)| >= |merged|
    ensures forall i :: 0 <= i < |merged| ==>
      SameFinding(MergeAll(merged, audits)[i], merged[i])
      && MergeAll(merged, audits)[i].severity.Rank() >= merged[i].severity.Rank()
  {
    if audits != [] {
      MergeKeepsRanks(merged, audits[..|audits| - 1]);
      MergeOneFacts(MergeAll(merged, audits[..|audits| - 1]), audits[|audits| - 1]);
    }
  }

  /** Every audit finding is represented, at its own severity or above. */
  lemma {:induction false} MergeRepresents(merged: seq<ReviewIssue>, audits: seq<ReviewIssue>, k: nat)
    requires k < |audits|
    ensures Represents(MergeAll(merged, audits), audits[k])
  {
    var n := |audits| - 1;
    var before := MergeAll(merged, audits[..n]);
    MergeOneFacts(before, audits[n]);
    if k < n {
      MergeRepresents(merged, audits[..n], k);
      var i :| 0 <= i < |before| && SameFinding(before[i], audits[k])
        && before[i].severity.Rank() >= audits[k].severity.Rank();
      assert SameFinding(MergeAll(merged, audits)[i], before[i]);
    }
  }

  lemma CriticalSurvivesMerge(d: QualityDecision, audits: seq<ReviewIssue>)
    requires |d.issues| <= MAX_ISSUES
    ensures HasCritical(d.issues) ==> HasCritical(Take(MergeAll(d.issues, audits), MAX_ISSUES))
    ensures HasCritical(audits) ==> HasCritical(MergeAll(d.issues, audits))
  {
    var merged := MergeAll(d.issues, audits);
    MergeKeepsRanks(d.issues, audits);
    if HasCritical(d.issues) {
      var i :| 0 <= i < |d.issues| && d.issues[i].severity.Critical?;
      assert Take(merged, MAX_ISSUES)[i].severity.Rank() >= 2;
    }
    if HasCritical(audits) {
      var k :| 0 <= k < |audits| && audits[k].severity.Critical?;
      MergeRepresents(d.issues, audits, k);
    }
  }

  // ----- What the cut to 20 findings drops -----

  /** What a finding is about. */
  type Key = (string, Option<string>)

  function KeyOf(issue: ReviewIssue): Key {
    (issue.code, issue.taskId)
  }

  function Keys(issues: seq<ReviewIssue>): (r: seq<Key>)
    ensures |r| == |issues| && forall i :: 0 <= i < |r| ==> r[i] == KeyOf(issues[i])
  {
    seq(|issues|, i requires 0 <= i < |issues| => KeyOf(issues[i]))
  }

  /** What the merged list is about: the listed findings in place, then each new one once, in order. */
  function MergedKeys(issues: seq<ReviewIssue>, audits: seq<ReviewIssue>): seq<Key> {
    if audits == [] then Keys(issues) else
      var before, key := MergedKeys(issues, audits[..|audits| - 1]), KeyOf(audits[|audits| - 1]);
      if key in before then before else before + [key]
  }

  lemma KeysCons(head: ReviewIssue, rest: seq<ReviewIssue>)
    ensures Keys([head] + rest) == [KeyOf(head)] + Keys(rest)
  {
  }

  lemma {:induction false} MergeOneKeys(merged: seq<ReviewIssue>, audit: ReviewIssue)
    ensures Keys(MergeOne(merged, audit)) ==
      if KeyOf(audit) in Keys(merged) then Keys(merged) else Keys(merged) + [KeyOf(audit)]
  {
    if merged != [] {
      assert merged == [merged[0]] + merged[1..];
      KeysCons(merged[0], merged[1..]);
      if SameFinding(merged[0], audit) {
        KeysCons(audit, merged[1..]);
        assert Keys(merged)[0] == KeyOf(audit);
      } else {
        KeysCons(merged[0], MergeOne(merged[1..], audit));
        MergeOneKeys(merged[1..], audit);
      }
    }
  }

  /** The finding joins the end, or takes the place of the first one about the same if that is weaker. */
  lemma {:induction false} MergeOneExactly(merged: seq<ReviewIssue>, audit: ReviewIssue)
    ensures var p := Place(Keys(merged), KeyOf(audit));
      MergeOne(merged, audit) ==
        if p == |merged| then merged + [audit]
        else if audit.severity.Rank() > merged[p].severity.Rank() then merged[p := audit]
        else merged
  {
    if merged != [] {
      assert Keys(merged)[1..] == Keys(merged[1..]) && Keys(merged)[0] == KeyOf(merged[0]);
      if !SameFinding(merged[0], audit) {
        MergeOneExactly(merged[1..], audit);
        assert merged == [merged[0]] + merged[1..];
      }
    }
  }

  lemma {:induction false} MergeOneCritical(merged: seq<ReviewIssue>, audit: ReviewIssue, q: nat)
    requires q < |MergeOne(merged, audit)|
    ensures MergeOne(merged, audit)[q].severity.Critical? <==>
      || (q < |merged| && merged[q].severity.Critical?)
      || (audit.severity.Critical? && q == Place(Keys(merged), KeyOf(audit)))
  {
    if merged != [] {
      assert Keys(merged)[1..] == Keys(merged[1..]);
      assert Keys(merged)[0] == KeyOf(merged[0]);
      if !SameFinding(merged[0], audit) && q > 0 {
        MergeOneCritical(merged[1..], audit, q - 1);
      }
    }
  }

  /** Where the critical findings of the merged list stand, from the two lists alone. */
  ghost predicate CriticalAt(issues: seq<ReviewIssue>, audits: seq<ReviewIssue>, q: nat) {
    || (q < |issues| && issues[q].severity.Critical?)
    || exists k :: 0 <= k < |audits| && audits[k].severity.Critical?
         && Place(MergedKeys(issues, audits), KeyOf(audits[k])) == q
  }

  lemma {:induction false} AuditKeysMerged(issues: seq<ReviewIssue>, audits: seq<ReviewIssue>, k: nat)
    requires k < |audits|
    ensures KeyOf(audits[k]) in MergedKeys(issues, audits)
  {
    if k < |audits| - 1 {
      AuditKeysMerged(issues, audits[..|audits| - 1], k);
    }
  }

  /** One more audit finding moves no critical place and may add one. */
  lemma CriticalAtSnoc(issues: seq<ReviewIssue>, audits: seq<ReviewIssue>, q: nat)
    requires audits != []
    ensures var front, last := audits[..|audits| - 1], audits[|audits| - 1];
      CriticalAt(issues, audits, q) <==>
        || CriticalAt(issues, front, q)
        || (last.severity.Critical? && q == Place(MergedKeys(issues, front), KeyOf(last)))
  {
    var n := |audits| - 1;
    var front, last := audits[..n], audits[n];
    var before, after := MergedKeys(issues, front), MergedKeys(issues, audits);
    if KeyOf(last) !in before {
      PlaceOfNew(before, KeyOf(last));
    }
    forall k | 0 <= k < n ensures Place(after, KeyOf(audits[k])) == Place(before, KeyOf(front[k])) {
      AuditKeysMerged(issues, front, k);
      PlaceInLonger(before, after[|before|..], KeyOf(front[k]));
      assert after == before + after[|before|..];
    }
    assert Place(after, KeyOf(last)) == Place(before, KeyOf(last));
    if k :| 0 <= k < n && front[k].severity.Critical? && Place(before, KeyOf(front[k])) == q {
      assert audits[k] == front[k];
    }
  }

  lemma {:induction false} MergeAllKeys(issues: seq<ReviewIssue>, audits: seq<ReviewIssue>)
    ensures Keys(MergeAll(issues, audits)) == MergedKeys(issues, audits)
  {
    if audits != [] {
      var before := MergeAll(issues, audits[..|audits| - 1]);
      MergeAllKeys(issues, audits[..|audits| - 1]);
      MergeOneKeys(before, audits[|audits| - 1]);
    }
  }

  lemma {:induction false} MergeAllCritical(issues: seq<ReviewIssue>, audits: seq<ReviewIssue>, q: nat)
    requires q < |MergeAll(issues, audits)|
    ensures MergeAll(issues, audits)[q].severity.Critical? <==> CriticalAt(issues, audits, q)
  {
    if audits != [] {
      var front, last := audits[..|audits| - 1], audits[|audits| - 1];
      var before := MergeAll(issues, front);
      MergeAllKeys(issues, front);
      MergeOneCritical(before, last, q);
      CriticalAtSnoc(issues, audits, q);
      if q < |before| {
        MergeAllCritical(issues, front, q);
      } else {
        NoCriticalPast(issues, front, q);
      }
    }
  }

  lemma NoCriticalPast(issues: seq<ReviewIssue>, audits: seq<ReviewIssue>, q: nat)
    requires |MergedKeys(issues, audits)| <= q
    ensures !CriticalAt(issues, audits, q)
  {
    MergeAllKeys(issues, audits);
    MergeKeepsRanks(issues, audits);
    forall k | 0 <= k < |audits| ensures Place(MergedKeys(issues, audits), KeyOf(audits[k])) < q {
      AuditKeysMerged(issues, audits, k);
    }
  }

  /** The cut list holds a critical finding if and only if a listed one is critical, or a critical audit finding has its
      place among the first 20: its own place in the list, or after the list behind the other new ones before it. */
  lemma CutKeepsCriticalIff(d: QualityDecision, audits: seq<ReviewIssue>)
    requires |d.issues| <= MAX_ISSUES
    ensures HasCritical(Take(MergeAll(d.issues, audits), MAX_ISSUES)) <==>
      || HasCritical(d.issues)
      || exists k :: 0 <= k < |audits| && audits[k].severity.Critical?
           && Place(MergedKeys(d.issues, audits), KeyOf(audits[k])) < MAX_ISSUES
  {
    var merged := MergeAll(d.issues, audits);
    var cut := Take(merged, MAX_ISSUES);
    MergeAllKeys(d.issues, audits);
    MergeKeepsRanks(d.issues, audits);
    forall q | 0 <= q < |cut| ensures cut[q].severity.Critical? <==> CriticalAt(d.issues, audits, q) {
      MergeAllCritical(d.issues, audits, q);
    }
    forall k | 0 <= k < |audits| ensures Place(MergedKeys(d.issues, audits), KeyOf(audits[k])) < |merged| {
      AuditKeysMerged(d.issues, audits, k);
    }
    if i :| 0 <= i < |d.issues| && d.issues[i].severity.Critical? {
      assert CriticalAt(d.issues, audits, i) && cut[i].severity.Critical?;
    }
    forall k | 0 <= k < |audits| && audits[k].severity.Critical?
      ensures Place(MergedKeys(d.issues, audits), KeyOf(audits[k])) < MAX_ISSUES ==> HasCritical(cut)
    {
      var q := Place(MergedKeys(d.issues, audits), KeyOf(audits[k]));
      assert CriticalAt(d.issues, audits, q);
      assert q < MAX_ISSUES ==> cut[q].severity.Critical?;
    }
  }

  lemma {:induction false} MergeAddsAtMost(issues: seq<ReviewIssue>, audits: seq<ReviewIssue>)
    ensures |MergeAll(issues, audits)| <= |issues| + |audits|
  {
    if audits != [] {
      MergeAddsAtMost(issues, audits[..|audits| - 1]);
      MergeOneFacts(MergeAll(issues, audits[..|audits| - 1]), audits[|audits| - 1]);
    }
  }

  /** With room for all findings nothing is cut: the merged list is critical if and only if either side is. */
  lemma RoomKeepsCritical(d: QualityDecision, audits: seq<ReviewIssue>)
    requires |d.issues| + |audits| <= MAX_ISSUES
    ensures Take(MergeAll(d.issues, audits), MAX_ISSUES) == MergeAll(d.issues, audits)
    ensures HasCritical(MergeAll(d.issues, audits)) <==> HasCritical(d.issues) || HasCritical(audits)
  {
    MergeAddsAtMost(d.issues, audits);
    CutKeepsCriticalIff(d, audits);
    CriticalSurvivesMerge(d, audits);
  }

  /** Twenty lesser findings and one new critical one: the cut drops the critical one. */
  lemma FullListCutsCritical(lesser: ReviewIssue, critical: ReviewIssue)
    requires !lesser.severity.Critical? && critical.severity.Critical? && !SameFinding(lesser, critical)
    ensures var issues := seq(MAX_ISSUES, _ => lesser);
      && HasCritical(MergeAll(issues, [critical]))
      && !HasCritical(Take(MergeAll(issues, [critical]), MAX_ISSUES))
  {
    var issues := seq(MAX_ISSUES, _ => lesser);
    MergeUnseen(issues, critical);
    assert [critical][..0] == [];
    assert MergeAll(issues, [critical]) == issues + [critical];
    assert (issues + [critical])[MAX_ISSUES] == critical;
  }

  lemma {:induction false} MergeUnseen(merged: seq<ReviewIssue>, audit: ReviewIssue)
    requires forall i :: 0 <= i < |merged| ==> !SameFinding(merged[i], audit)
    ensures MergeOne(merged, audit) == merged + [audit]
  {
    if merged != [] {
      MergeUnseen(merged[1..], audit);
    }
  }

  // ----- The merged verdict -----

  predicate AllNonblocking(issues: seq<ReviewIssue>) {
    forall i :: 0 <= i < |issues| ==> Nonblocking(issues[i])
  }

  ghost predicate AllWaived(issues: seq<ReviewIssue>) {
    forall i :: 0 <= i < |issues| ==> Waived(issues[i])
  }

  lemma AllNonblockingIff(issues: seq<ReviewIssue>)
    ensures AllNonblocking(issues) <==> AllWaived(issues)
  {
    forall i | 0 <= i < |issues| ensures Nonblocking(issues[i]) <==> Waived(issues[i]) {
      NonblockingIff(issues[i]);
    }
  }

  /** The relaxed policy may turn a revision into an acceptance. */
  predicate Upgrades(d: QualityDecision, merged: seq<ReviewIssue>, threshold: int, relaxed: bool) {
    relaxed && d.decision.Revise? && d.score >= threshold && merged != [] && AllNonblocking(merged)
  }

  function Blocking(audits: seq<ReviewIssue>, relaxed: bool): seq<ReviewIssue> {
    if audits == [] then []
    else if relaxed && Nonblocking(audits[|audits| - 1]) then Blocking(audits[..|audits| - 1], relaxed)
    else Blocking(audits[..|audits| - 1], relaxed) + [audits[|audits| - 1]]
  }

  lemma {:induction false} BlockingIffSome(audits: seq<ReviewIssue>, relaxed: bool)
    ensures Blocking(audits, relaxed) != [] <==> exists i :: 0 <= i < |audits| && !(relaxed && Nonblocking(audits[i]))
    ensures Blocking(audits, relaxed) == [] <==> audits == [] || (relaxed && AllWaived(audits))
  {
    AllNonblockingIff(audits);
    if audits != [] {
      var n := |audits| - 1;
      BlockingIffSome(audits[..n], relaxed);
      if i :| 0 <= i < |audits| && !(relaxed && Nonblocking(audits[i])) {
        assert i == n || audits[..n][i] == audits[i];
      }
    }
  }

  function JoinCodes(issues: seq<ReviewIssue>): string {
    if issues == [] then ""
    else if |issues| == 1 then issues[0].code
    else issues[0].code + "、" + JoinCodes(issues[1..])
  }

  /** The loop over the recommendations: each new one is appended while there is room. */
  function WithRecommendations(instructions: seq<string>, audits: seq<ReviewIssue>): (r: seq<string>)
    requires |instructions| <= MAX_INSTRUCTIONS
    ensures instructions <= r && |r| <= MAX_INSTRUCTIONS
    // Every recommendation is present unless the list is full, and nothing else is added.
    ensures |r| == MAX_INSTRUCTIONS || forall i :: 0 <= i < |audits| ==> audits[i].recommendation in r
    ensures forall p :: |instructions| <= p < |r| ==> exists i :: 0 <= i < |audits| && audits[i].recommendation == r[p]
  {
    if audits == [] then instructions else
      var front, last := audits[..|audits| - 1], audits[|audits| - 1].recommendation;
      var before := WithRecommendations(instructions, front);
      assert forall i :: 0 <= i < |front| ==> audits[i] == front[i];
      if last !in before && |before| < MAX_INSTRUCTIONS then before + [last] else before
  }

  /** The route after the audit. */
  function AuditedRoute(d: QualityDecision, audits: seq<ReviewIssue>, threshold: int, relaxed: bool): QualityRoute {
    var merged := Take(MergeAll(d.issues, audits), MAX_ISSUES);
    var route := if Upgrades(d, merged, threshold, relaxed) then Accept else d.decision;
    if HasCritical(merged) then Replan
    else if Blocking(audits, relaxed) != [] && route.Accept? then Revise
    else route
  }

  function AuditNote(route: QualityRoute, merged: seq<ReviewIssue>, audits: seq<ReviewIssue>): string {
    if route.Accept? && merged != [] then "；展示验收保留非阻断改进项，不要求额外修订"
    else if audits != [] then "；确定性报告检查发现：" + JoinCodes(audits) else ""
  }

  /** The codes with a separator between them. */
  function Codes(issues: seq<ReviewIssue>): string {
    if |issues| < 2 then if |issues| == 1 then issues[0].code else ""
    else Codes(issues[..|issues| - 1]) + "、" + issues[|issues| - 1].code
  }

  lemma {:induction false} CodesFromFront(issues: seq<ReviewIssue>)
    requires |issues| > 1
    ensures Codes(issues) == issues[0].code + "、" + Codes(issues[1..])
  {
    var n := |issues| - 1;
    if n > 1 {
      CodesFromFront(issues[..n]);
      assert issues[..n][1..] == issues[1..][..n - 1];
    }
  }

  lemma {:induction false} JoinCodesIsCodes(issues: seq<ReviewIssue>)
    ensures JoinCodes(issues) == Codes(issues)
  {
    if |issues| > 1 {
      CodesFromFront(issues);
      JoinCodesIsCodes(issues[1..]);
    }
  }

  /** What the rationale gains: an acceptance says that it keeps improvements open, anything else names the findings. */
  lemma NoteSays(route: QualityRoute, merged: seq<ReviewIssue>, audits: seq<ReviewIssue>)
    ensures route == Accept && |merged| > 0 ==>
      AuditNote(route, merged, audits) == "；展示验收保留非阻断改进项，不要求额外修订"
    ensures !(route == Accept && |merged| > 0) && |audits| > 0 ==>
      AuditNote(route, merged, audits) == "；确定性报告检查发现：" + Codes(audits)
    ensures !(route == Accept && |merged| > 0) && |audits| == 0 ==> AuditNote(route, merged, audits) == ""
  {
    JoinCodesIsCodes(audits);
  }

  /** The decision the audit builds, whether or not its validation accepts it. */
  function Audited(d: QualityDecision, audits: seq<ReviewIssue>, threshold: int, relaxed: bool): QualityDecision
    requires |d.instructions| <= MAX_INSTRUCTIONS
  {
    if audits == [] && !relaxed then d else
      var merged := Take(MergeAll(d.issues, audits), MAX_ISSUES);
      var route := AuditedRoute(d, audits, threshold, relaxed);
      QualityDecision(route, d.score, Take(d.rationale + AuditNote(route, merged, audits), MAX_RATIONALE), merged,
        WithRecommendations(d.instructions, audits))
  }

  /** The audited verdict is an acceptance exactly when nothing critical is listed, every audit finding is waived, and
      the verdict was one already, or relaxed review upgrades a revision that only asks for waived things. */
  ghost predicate Accepts(d: QualityDecision, merged: seq<ReviewIssue>, audits: seq<ReviewIssue>, threshold: int,
      relaxed: bool)
  {
    && (d.decision == Accept
        || (relaxed && d.decision == Revise && d.score >= threshold && |merged| > 0 && AllWaived(merged)))
    && !HasCritical(merged)
    && (|audits| == 0 || (relaxed && AllWaived(audits)))
  }

  lemma AcceptsIff(d: QualityDecision, audits: seq<ReviewIssue>, threshold: int, relaxed: bool)
    ensures var merged := Take(MergeAll(d.issues, audits), MAX_ISSUES);
      AuditedRoute(d, audits, threshold, relaxed) ==
        if HasCritical(merged) || d.decision == Replan then Replan
        else if Accepts(d, merged, audits, threshold, relaxed) then Accept else Revise
  {
    BlockingIffSome(audits, relaxed);
    AllNonblockingIff(Take(MergeAll(d.issues, audits), MAX_ISSUES));
  }

  function Advice(issues: seq<ReviewIssue>): (r: seq<string>)
    ensures |r| == |issues|
  {
    seq(|issues|, i requires 0 <= i < |issues| => issues[i].recommendation)
  }

  function NotYetIn(instructions: seq<string>): string -> bool {
    (s: string) => s !in instructions
  }

  /** The instructions afterwards: the old ones, then each new recommendation once, in order, cut at 20. */
  lemma {:induction false} RecommendationsExactly(instructions: seq<string>, audits: seq<ReviewIssue>)
    requires |instructions| <= MAX_INSTRUCTIONS
    ensures WithRecommendations(instructions, audits) ==
      Take(instructions + Dedupe(Filter(Advice(audits), NotYetIn(instructions))), MAX_INSTRUCTIONS)
  {
    if audits == [] {
      assert instructions + [] == instructions;
    } else {
      var n := |audits| - 1;
      var last := audits[n].recommendation;
      RecommendationsExactly(instructions, audits[..n]);
      NewAdvice(instructions, audits);
      OneMoreNew(instructions, Filter(Advice(audits[..n]), NotYetIn(instructions)), last);
    }
  }

  lemma NewAdvice(instructions: seq<string>, audits: seq<ReviewIssue>)
    requires audits != []
    ensures var n := |audits| - 1; var last := audits[n].recommendation;
      Filter(Advice(audits), NotYetIn(instructions)) ==
        Filter(Advice(audits[..n]), NotYetIn(instructions)) + if last !in instructions then [last] else []
  {
    var n := |audits| - 1;
    var last := audits[n].recommendation;
    assert Advice(audits) == Advice(audits[..n]) + [last];
    FilterAppend(Advice(audits[..n]), [last], NotYetIn(instructions));
    assert Filter([last], NotYetIn(instructions)) == if last !in instructions then [last] else [];
  }

  lemma OneMoreNew(instructions: seq<string>, added: seq<string>, last: string)
    requires |instructions| <= MAX_INSTRUCTIONS && forall s :: s in added ==> s !in instructions
    ensures var before := Take(instructions + Dedupe(added), MAX_INSTRUCTIONS);
      (if last !in before && |before| < MAX_INSTRUCTIONS then before + [last] else before) ==
        Take(instructions + Dedupe(added + if last !in instructions then [last] else []), MAX_INSTRUCTIONS)
  {
    if last in instructions {
      assert added + [] == added;
      assert instructions <= Take(instructions + Dedupe(added), MAX_INSTRUCTIONS);
    } else {
      assert (added + [last])[..|added|] == added;
      assert instructions + (Dedupe(added) + [last]) == instructions + Dedupe(added) + [last];
    }
  }

  /** With room for all findings, a critical one on either side forces a replan, and nothing else adds one. */
  lemma CriticalForcesReplan(d: QualityDecision, audits: seq<ReviewIssue>, threshold: int, relaxed: bool)
    requires |d.instructions| <= MAX_INSTRUCTIONS && |d.issues| + |audits| <= MAX_ISSUES
    requires audits != [] || relaxed
    ensures Audited(d, audits, threshold, relaxed).decision.Replan? <==>
      d.decision.Replan? || HasCritical(d.issues) || HasCritical(audits)
  {
    RoomKeepsCritical(d, audits);
  }

  method ApplyReportAudit(d: QualityDecision, audits: seq<ReviewIssue>, threshold: int, relaxed: bool)
      returns (r: Result<QualityDecision, string>)
    requires Valid(d)
    ensures r.Ok? ==> r.value == Audited(d, audits, threshold, relaxed)
    ensures audits == [] && !relaxed ==> r == Ok(d)
    // The one way construction can fail: an upgrade below the acceptance score.
    ensures r.Err? <==>
      (audits != [] || relaxed) && var merged := Take(MergeAll(d.issues, audits), MAX_ISSUES);
      Accepts(d, merged, audits, threshold, relaxed) && d.score < 50
    ensures r.Ok? && (audits != [] || relaxed) ==>
      var merged := Take(MergeAll(d.issues, audits), MAX_ISSUES);
      && Valid(r.value) && r.value.score == d.score && r.value.issues == merged
      && d.instructions <= r.value.instructions
      && (|r.value.instructions| == MAX_INSTRUCTIONS
          || forall i :: 0 <= i < |audits| ==> audits[i].recommendation in r.value.instructions)
      && (r.value.decision.Replan? <==> d.decision.Replan? || HasCritical(merged))
      && (r.value.decision.Accept? <==> Accepts(d, merged, audits, threshold, relaxed))
    ensures threshold >= ACCEPTANCE_SCORE ==> r.Ok?
    ensures d.decision.Replan? ==> r.Ok? && r.value.decision.Replan?
    // A critical finding on either side rules out acceptance, even when the merged list is cut.
    ensures r.Ok? && (HasCritical(d.issues) || HasCritical(audits)) ==> !r.value.decision.Accept?
    ensures r.Ok? && HasCritical(audits) && !r.value.decision.Replan? ==> |MergeAll(d.issues, audits)| > MAX_ISSUES
  {
    CriticalSurvivesMerge(d, audits);
    AcceptsIff(d, audits, threshold, relaxed);
    if audits == [] && !relaxed {
      return Ok(d);
    }
    var merged := MergeIssues(d.issues, audits);
    merged := Take(merged, MAX_ISSUES);
    var critical := HasCritical(merged);
    var blocking := Blocking(audits, relaxed);
    var route := d.decision;
    if relaxed && route.Revise? && d.score >= threshold && merged != [] && AllNonblocking(merged) {
      route := Accept;
    }
    if critical {
      route := Replan;
    } else if blocking != [] && route.Accept? {
      route := Revise;
    }
    var instructions := AppendRecommendations(d.instructions, audits);
    var note := AuditNote(route, merged, audits);
    var next := QualityDecision(route, d.score, Take(d.rationale + note, MAX_RATIONALE), merged, instructions);
    if route.Accept? && d.score < ACCEPTANCE_SCORE {
      return Err("quality acceptance requires a score of at least 50");
    }
    return Ok(next);
  }

  method MergeIssues(issues: seq<ReviewIssue>, audits: seq<ReviewIssue>) returns (merged: seq<ReviewIssue>)
    ensures merged == MergeAll(issues, audits)
  {
    merged := issues;
    for i := 0 to |audits|
      invariant merged == MergeAll(issues, audits[..i])
    {
      assert audits[..i + 1][..i] == audits[..i];
      merged := MergeInto(merged, audits[i]);
    }
    assert audits[..|audits|] == audits;
  }

  /** `next((index for ...), None)` followed by an append or an in-place replacement. */
  method MergeInto(merged: seq<ReviewIssue>, audit: ReviewIssue) returns (r: seq<ReviewIssue>)
    ensures r == MergeOne(merged, audit)
  {
    var previous := 0;
    while previous < |merged| && !SameFinding(merged[previous], audit)
      invariant previous <= |merged|
      invariant MergeOne(merged, audit) == merged[..previous] + MergeOne(merged[previous..], audit)
    {
      MergeSkips(merged, previous, audit);
      previous := previous + 1;
    }
    if previous == |merged| {
      r := merged + [audit];
    } else if audit.severity.Rank() > merged[previous].severity.Rank() {
      r := merged[previous := audit];
      assert r == merged[..previous] + ([audit] + merged[previous..][1..]);
    } else {
      r := merged;
      assert r == merged[..previous] + merged[previous..];
    }
  }

  lemma MergeSkips(merged: seq<ReviewIssue>, k: nat, audit: ReviewIssue)
    requires k < |merged| && !SameFinding(merged[k], audit)
    ensures merged[..k] + MergeOne(merged[k..], audit) == merged[..k + 1] + MergeOne(merged[k + 1..], audit)
  {
    assert merged[k..][1..] == merged[k + 1..];
    assert merged[..k + 1] == merged[..k] + [merged[k]];
  }

  method AppendRecommendations(instructions: seq<string>, audits: seq<ReviewIssue>) returns (r: seq<string>)
    requires |instructions| <= MAX_INSTRUCTIONS
    ensures r == WithRecommendations(instructions, audits)
  {
    r := instructions;
    for i := 0 to |audits|
      invariant r == WithRecommendations(instructions, audits[..i])
    {
      assert audits[..i + 1][..i] == audits[..i];
      if audits[i].recommendation !in r && |r| < MAX_INSTRUCTIONS {
        r := r + [audits[i].recommendation];
      }
    }
    assert audits[..|audits|] == audits;
  }

  // ----- Scope calibration -----

  /** Paragraph ids of the report under review; true for those already declared as limitations. */
  type ParagraphIndex = map<string, bool>

  function Located(issue: ReviewIssue, paragraphs: ParagraphIndex): (r: seq<string>)
    ensures forall key :: key in r <==> key in issue.paragraphIds && key in paragraphs
  {
    Filter(issue.paragraphIds, (key: string) => key in paragraphs)
  }

  function CalibratedSeverity(issue: ReviewIssue, paragraphs: ParagraphIndex): Severity {
    if issue.code !in CORE_INVARIANTS && issue.scope.Local? && Located(issue, paragraphs) != [] then
      if forall key :: key in Located(issue, paragraphs) ==> paragraphs[key] then Info
      else if issue.severity.Critical? then Warning
      else issue.severity
    else issue.severity
  }

  /** `issue.reported_severity or issue.severity`. */
  function Reported(issue: ReviewIssue): Severity {
    if issue.reportedSeverity.Some? then issue.reportedSeverity.value else issue.severity
  }

  function Calibrated(issue: ReviewIssue, paragraphs: ParagraphIndex): ReviewIssue {
    var severity := CalibratedSeverity(issue, paragraphs);
    if severity == issue.severity then issue
    else issue.(severity := severity, reportedSeverity := Some(Reported(issue)))
  }

  function CalibratedAll(issues: seq<ReviewIssue>, paragraphs: ParagraphIndex): (r: seq<ReviewIssue>)
    ensures |r| == |issues| && forall i :: 0 <= i < |r| ==> r[i] == Calibrated(issues[i], paragraphs)
  {
    seq(|issues|, i requires 0 <= i < |issues| => Calibrated(issues[i], paragraphs))
  }

  /** One issue is only ever lowered, once, and what was reported is on record. */
  lemma CalibratedOnlyLowers(issue: ReviewIssue, paragraphs: ParagraphIndex)
    ensures var c := Calibrated(issue, paragraphs);
      && c.severity.Rank() <= issue.severity.Rank()
      && Reported(c) == Reported(issue)
      && (c.severity != issue.severity ==> c.reportedSeverity == Some(Reported(issue)))
      && c == issue.(severity := c.severity, reportedSeverity := c.reportedSeverity)
      && Calibrated(c, paragraphs) == c
  {
    var c := Calibrated(issue, paragraphs);
    assert Located(c, paragraphs) == Located(issue, paragraphs);
  }

  const CALIBRATION_NOTE := "；按显式影响范围区分局部缺陷与核心阻断，保留原始严重度"

  function CalibrateReviewScope(d: QualityDecision, paragraphs: ParagraphIndex, relaxed: bool): QualityDecision {
    var issues := CalibratedAll(d.issues, paragraphs);
    if !relaxed || issues == d.issues then d
    else
      var softened := d.decision.Replan? && !HasCritical(issues);
      QualityDecision(
        if softened then Revise else d.decision,
        d.score,
        Take(d.rationale + CALIBRATION_NOTE, MAX_RATIONALE),
        issues,
        if softened then Take(Dedupe(d.instructions + Recommendations(issues)), MAX_INSTRUCTIONS) else d.instructions)
  }

  method CalibrateIssue(issue: ReviewIssue, paragraphs: ParagraphIndex) returns (r: ReviewIssue, lowered: bool)
    ensures r == Calibrated(issue, paragraphs) && (lowered <==> r != issue)
  {
    r, lowered := issue, false;
    var severity := issue.severity;
    var locations := Located(issue, paragraphs);
    if issue.code !in CORE_INVARIANTS && issue.scope.Local? && locations != [] {
      if forall key :: key in locations ==> paragraphs[key] {
        severity := Info;
      } else if severity.Critical? {
        severity := Warning;
      }
    }
    if severity != issue.severity {
      r := issue.(severity := severity, reportedSeverity := Some(Reported(issue)));
      lowered := true;
    }
  }

  method CalibrateIssues(given: seq<ReviewIssue>, paragraphs: ParagraphIndex)
      returns (issues: seq<ReviewIssue>, changed: bool)
    ensures issues == CalibratedAll(given, paragraphs) && (changed <==> issues != given)
  {
    issues, changed := [], false;
    for i := 0 to |given|
      invariant issues == CalibratedAll(given, paragraphs)[..i]
      invariant changed <==> issues != given[..i]
    {
      var issue, lowered := CalibrateIssue(given[i], paragraphs);
      assert given[..i + 1] == given[..i] + [given[i]];
      assert CalibratedAll(given, paragraphs)[..i + 1] == CalibratedAll(given, paragraphs)[..i] + [issue];
      issues := issues + [issue];
      changed := changed || lowered;
    }
    assert given[..|given|] == given;
  }

  method CalibrateScope(d: QualityDecision, paragraphs: ParagraphIndex, relaxed: bool) returns (r: QualityDecision)
    ensures r == CalibrateReviewScope(d, paragraphs, relaxed)
  {
    if !relaxed {
      return d;
    }
    var issues, changed := CalibrateIssues(d.issues, paragraphs);
    if !changed {
      return d;
    }
    var route, instructions := d.decision, d.instructions;
    if route.Replan? && !HasCritical(issues) {
      route := Revise;
      instructions := Take(Dedupe(instructions + Recommendations(issues)), MAX_INSTRUCTIONS);
    }
    r := QualityDecision(route, d.score, Take(d.rationale + CALIBRATION_NOTE, MAX_RATIONALE), issues, instructions);
  }

  /** Calibration is idempotent, keeps the decision valid, and softens a route only when no critical issue is left. */
  lemma CalibrationIsStable(d: QualityDecision, paragraphs: ParagraphIndex, relaxed: bool)
    ensures var c := CalibrateReviewScope(d, paragraphs, relaxed);
      && CalibrateReviewScope(c, paragraphs, relaxed) == c
      && c.score == d.score && |c.issues| == |d.issues|
      && (Valid(d) ==> Valid(c))
      && (forall i :: 0 <= i < |d.issues| ==>
           c.issues[i].severity.Rank() <= d.issues[i].severity.Rank() && Reported(c.issues[i]) == Reported(d.issues[i]))
      && (c.decision == d.decision || (d.decision.Replan? && c.decision.Revise? && !HasCritical(c.issues)))
      && (d.decision.Accept? <==> c.decision.Accept?)
  {
    var c := CalibrateReviewScope(d, paragraphs, relaxed);
    var issues := CalibratedAll(d.issues, paragraphs);
    forall i | 0 <= i < |issues|
      ensures issues[i].severity.Rank() <= d.issues[i].severity.Rank()
      ensures Reported(issues[i]) == Reported(d.issues[i]) && Calibrated(issues[i], paragraphs) == issues[i]
    {
      CalibratedOnlyLowers(d.issues[i], paragraphs);
    }
    assert CalibratedAll(issues, paragraphs) == issues;
  }

  /** The finding names this paragraph of the report under review. */
  ghost predicate LocatedAt(issue: ReviewIssue, paragraphs: ParagraphIndex, key: string) {
    key in issue.paragraphIds && key in paragraphs
  }

  /** A local finding that is not about the core and names some paragraph of the report. */
  ghost predicate Calibratable(issue: ReviewIssue, paragraphs: ParagraphIndex) {
    issue.scope == Local && !IsCore(issue.code) && exists key :: LocatedAt(issue, paragraphs, key)
  }

  ghost predicate OnlyInLimitations(issue: ReviewIssue, paragraphs: ParagraphIndex) {
    forall key :: LocatedAt(issue, paragraphs, key) ==> paragraphs[key]
  }

  /** The severity and the record after calibration; nothing else changes. */
  ghost predicate CalibratedAs(issue: ReviewIssue, paragraphs: ParagraphIndex, c: ReviewIssue) {
    var severity :=
      if Calibratable(issue, paragraphs) && OnlyInLimitations(issue, paragraphs) then Info
      else if Calibratable(issue, paragraphs) && issue.severity == Critical then Warning
      else issue.severity;
    var reported :=
      if severity != issue.severity && issue.reportedSeverity == None then Some(issue.severity)
      else issue.reportedSeverity;
    c == ReviewIssue(
      severity, issue.code, issue.taskId, issue.recommendation, issue.scope, issue.paragraphIds, reported)
  }

  lemma CalibratedExactly(issue: ReviewIssue, paragraphs: ParagraphIndex)
    ensures CalibratedAs(issue, paragraphs, Calibrated(issue, paragraphs))
  {
    var located := Located(issue, paragraphs);
    assert forall key :: key in located <==> LocatedAt(issue, paragraphs, key);
    if located != [] {
      assert located[0] in located;
    }
    assert issue.code in CORE_INVARIANTS <==> IsCore(issue.code);
  }

  function NotEmpty(): string -> bool {
    (s: string) => s != ""
  }

  lemma {:induction false} RecommendationsAre(issues: seq<ReviewIssue>)
    ensures Recommendations(issues) == Filter(Advice(issues), NotEmpty())
  {
    if issues != [] {
      var n := |issues| - 1;
      var last := issues[n].recommendation;
      RecommendationsAre(issues[..n]);
      assert Advice(issues) == Advice(issues[..n]) + [last];
      FilterAppend(Advice(issues[..n]), [last], NotEmpty());
      assert Filter([last], NotEmpty()) == if last != "" then [last] else [];
    }
  }

  /** The first 20 different ones among the instructions and whatever the findings recommend. */
  ghost predicate InstructsAs(r: seq<string>, instructions: seq<string>, issues: seq<ReviewIssue>) {
    r == Take(Dedupe(instructions + Filter(Advice(issues), NotEmpty())), 20)
  }

  ghost predicate AllCalibratedAs(issues: seq<ReviewIssue>, paragraphs: ParagraphIndex, calibrated: seq<ReviewIssue>) {
    && |calibrated| == |issues|
    && forall i :: 0 <= i < |issues| ==> CalibratedAs(issues[i], paragraphs, calibrated[i])
  }

  /** Calibration exactly: what each finding becomes, and the softened route when that leaves a replan without a
      critical finding. */
  lemma CalibrationExactly(d: QualityDecision, paragraphs: ParagraphIndex, relaxed: bool)
    ensures var c := CalibrateReviewScope(d, paragraphs, relaxed);
      && (!relaxed ==> c == d)
      && (relaxed ==> AllCalibratedAs(d.issues, paragraphs, c.issues))
      && (c.issues == d.issues ==> c == d)
      && (c.issues != d.issues ==>
           && c.score == d.score
           && c.rationale == Take(d.rationale + "；按显式影响范围区分局部缺陷与核心阻断，保留原始严重度", 4000)
           && if d.decision == Replan && !HasCritical(c.issues)
              then c.decision == Revise && InstructsAs(c.instructions, d.instructions, c.issues)
              else c.decision == d.decision && c.instructions == d.instructions)
  {
    var issues := CalibratedAll(d.issues, paragraphs);
    forall i | 0 <= i < |issues| ensures CalibratedAs(d.issues[i], paragraphs, issues[i]) {
      CalibratedExactly(d.issues[i], paragraphs);
    }
    RecommendationsAre(issues);
  }

  // ----- Presentation delivery -----

  const REPAIR_INSTRUCTION := "只依据已有材料局部修正；无法核实的具体断言必须删除或明确标为未核实，不得编造来源。"
  const REPAIR_NOTE := "；交付优先：改为一次局部修订，不重启整轮研究"

  function LimitToReportRepair(d: QualityDecision): QualityDecision {
    if !d.decision.Replan? then d
    else d.(
      decision := Revise,
      rationale := Take(d.rationale + REPAIR_NOTE, MAX_RATIONALE),
      instructions := Take(Dedupe(d.instructions + Recommendations(d.issues) + [REPAIR_INSTRUCTION]), MAX_INSTRUCTIONS))
  }

  /** Local repair never turns a rejection into an acceptance and leaves findings and score alone. */
  lemma RepairKeepsRejection(d: QualityDecision)
    ensures var l := LimitToReportRepair(d);
      && !l.decision.Replan? && (l.decision.Accept? <==> d.decision.Accept?)
      && l.issues == d.issues && l.score == d.score
      && LimitToReportRepair(l) == l
  {
  }

  /** Local repair exactly: a replan becomes a revision that ends with the instruction to repair, room permitting. */
  lemma RepairExactly(d: QualityDecision)
    ensures d.decision != Replan ==> LimitToReportRepair(d) == d
    ensures d.decision == Replan ==>
      var l := LimitToReportRepair(d);
      && l.decision == Revise && l.score == d.score && l.issues == d.issues
      && l.rationale == Take(d.rationale + "；交付优先：改为一次局部修订，不重启整轮研究", 4000)
      && l.instructions == Take(
           Dedupe(d.instructions + Filter(Advice(d.issues), NotEmpty()) + [REPAIR_INSTRUCTION]), 20)
  {
    RecommendationsAre(d.issues);
  }

  // ----- The review pipeline -----

  /** Some instruction says something. */
  predicate Actionable(instructions: seq<string>) {
    exists i :: 0 <= i < |instructions| && instructions[i] != ""
  }

  /** `validate_for_execution`: a rejection is concrete. */
  predicate Executable(d: QualityDecision) {
    && (!d.decision.Accept? ==> d.issues != [])
    && (d.decision.Revise? ==> Actionable(d.instructions))
    && (d.decision.Replan? ==> HasCritical(d.issues))
  }

  /** Every issue carries a recommendation, as its validation demands. */
  predicate Concrete(issues: seq<ReviewIssue>) {
    forall i :: 0 <= i < |issues| ==> issues[i].recommendation != ""
  }

  /** Deduplication leaves at most one blank, so the cut list still says something. */
  lemma CutStaysActionable(xs: seq<string>, x: string)
    requires x in xs && x != ""
    ensures Actionable(Take(Dedupe(xs), MAX_INSTRUCTIONS))
  {
    var all := Dedupe(xs);
    var i :| 0 <= i < |all| && all[i] == x;
    if |all| > MAX_INSTRUCTIONS {
      var cut := all[..MAX_INSTRUCTIONS];
      assert cut[0] != cut[1];
    }
  }

  lemma {:induction false} RecommendationsListed(issues: seq<ReviewIssue>, k: nat)
    requires k < |issues| && issues[k].recommendation != ""
    ensures issues[k].recommendation in Recommendations(issues)
  {
    if k < |issues| - 1 {
      RecommendationsListed(issues[..|issues| - 1], k);
    }
  }

  lemma CalibrationStaysExecutable(d: QualityDecision, paragraphs: ParagraphIndex, relaxed: bool)
    requires Executable(d) && Concrete(d.issues)
    ensures Executable(CalibrateReviewScope(d, paragraphs, relaxed))
    ensures Concrete(CalibrateReviewScope(d, paragraphs, relaxed).issues)
  {
    var c := CalibrateReviewScope(d, paragraphs, relaxed);
    var issues := CalibratedAll(d.issues, paragraphs);
    assert Concrete(issues) by {
      forall i | 0 <= i < |issues| ensures issues[i].recommendation != "" {
        CalibratedOnlyLowers(d.issues[i], paragraphs);
      }
    }
    if c.decision != d.decision {
      RecommendationsListed(issues, 0);
      CutStaysActionable(d.instructions + Recommendations(issues), issues[0].recommendation);
    }
  }

  lemma RepairStaysExecutable(d: QualityDecision)
    requires Executable(d)
    ensures Executable(LimitToReportRepair(d))
  {
    CutStaysActionable(d.instructions + Recommendations(d.issues) + [REPAIR_INSTRUCTION], REPAIR_INSTRUCTION);
  }

  /** The one way an audit can spoil an executable decision: it turns an acceptance into a revision whose 20
      instructions are all blank, so that no recommendation fits in. */
  predicate CrowdedOut(d: QualityDecision, audits: seq<ReviewIssue>, relaxed: bool) {
    && d.decision.Accept? && |d.instructions| == MAX_INSTRUCTIONS && !Actionable(d.instructions)
    && Blocking(audits, relaxed) != [] && !HasCritical(Take(MergeAll(d.issues, audits), MAX_ISSUES))
  }

  /** An audited executable decision stays executable, except exactly when its real instructions are crowded out. */
  lemma AuditStaysExecutableIff(d: QualityDecision, audits: seq<ReviewIssue>, threshold: int, relaxed: bool)
    requires Valid(d) && Executable(d) && Concrete(audits)
    ensures Executable(Audited(d, audits, threshold, relaxed)) <==> !CrowdedOut(d, audits, relaxed)
  {
    var r := Audited(d, audits, threshold, relaxed);
    CriticalSurvivesMerge(d, audits);
    MergeKeepsRanks(d.issues, audits);
    BlockingIffSome(audits, relaxed);
    if audits != [] || relaxed {
      InstructionsStayActionableIff(d.instructions, audits);
      if audits != [] {
        MergeRepresents(d.issues, audits, 0);
      }
    }
  }

  /** The instructions say something unless there were no recommendations to add, or no room for any. */
  lemma InstructionsStayActionableIff(instructions: seq<string>, audits: seq<ReviewIssue>)
    requires |instructions| <= MAX_INSTRUCTIONS && Concrete(audits)
    ensures Actionable(WithRecommendations(instructions, audits)) <==>
      Actionable(instructions) || (audits != [] && |instructions| < MAX_INSTRUCTIONS)
  {
    var r := WithRecommendations(instructions, audits);
    if i :| 0 <= i < |instructions| && instructions[i] != "" {
      assert r[i] == instructions[i];
    } else if audits != [] && |instructions| < MAX_INSTRUCTIONS {
      if |r| > |instructions| {
        assert r[|instructions|] != "";
      } else {
        assert audits[0].recommendation in r;
      }
    } else {
      assert r == instructions;
    }
  }

  /** Calibration, audit and local repair in the order the workflow runs them, with the execution check after the audit
      and after the repair. */
  method JudgeReport(d: QualityDecision, paragraphs: ParagraphIndex, audits: seq<ReviewIssue>, threshold: int,
      relaxed: bool, reportFirst: bool) returns (r: Result<QualityDecision, string>)
    requires Valid(d) && ACCEPTANCE_SCORE <= threshold <= 100
    ensures r.Ok? ==> r.value.score == d.score && Executable(r.value)
    ensures r.Ok? && HasCritical(audits) ==> !r.value.decision.Accept?
    ensures r.Ok? && HasCritical(CalibrateReviewScope(d, paragraphs, relaxed).issues) ==> !r.value.decision.Accept?
    ensures r.Ok? && r.value.decision.Accept? ==> d.score >= ACCEPTANCE_SCORE && !HasCritical(r.value.issues)
    // The check after the audit is the only one that can fail; the repair never spoils a decision.
    ensures var c := CalibrateReviewScope(d, paragraphs, relaxed);
      && |c.instructions| <= MAX_INSTRUCTIONS && (r.Ok? <==> Executable(Audited(c, audits, threshold, relaxed)))
      && (r.Ok? ==> r.value == var audited := Audited(c, audits, threshold, relaxed);
           if reportFirst then LimitToReportRepair(audited) else audited)
    // On an executable decision with concrete findings it fails exactly when 20 blank instructions leave no room.
    ensures Executable(d) && Concrete(d.issues) && Concrete(audits) ==>
      (r.Err? <==> CrowdedOut(CalibrateReviewScope(d, paragraphs, relaxed), audits, relaxed))
    // So with room for one instruction it never fails.
    ensures Executable(d) && Concrete(d.issues) && Concrete(audits) && |d.instructions| < MAX_INSTRUCTIONS ==> r.Ok?
  {
    CalibrationIsStable(d, paragraphs, relaxed);
    var c := CalibrateScope(d, paragraphs, relaxed);
    if Executable(d) && Concrete(d.issues) && Concrete(audits) {
      CalibrationStaysExecutable(d, paragraphs, relaxed);
      AuditStaysExecutableIff(c, audits, threshold, relaxed);
    }
    var built := ApplyReportAudit(c, audits, threshold, relaxed);
    var audited := built.value;
    if !Executable(audited) {
      return Err("quality decision is not executable");
    }
    if !reportFirst {
      return Ok(audited);
    }
    RepairStaysExecutable(audited);
    r := Ok(LimitToReportRepair(audited));
  }
}
