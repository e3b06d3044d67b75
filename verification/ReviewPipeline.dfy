/** From the model's verdict on a report to the route taken: the caps of backend/src/atlasflow/agents/gateway.py
    `evaluate_report`, the coverage of a cumulative report (backend/src/atlasflow/agents/report_update.py), the audit
    (backend/src/atlasflow/agents/report_quality.py `audit_report`) and the quality gate
    (backend/src/atlasflow/agents/workflow.py). */
module ReviewPipeline {
  import opened Common
  import opened QualityVerdict

  // ----- What the gateway lets through -----

  const MAX_VERDICT_ISSUES := 8
  const MAX_VERDICT_INSTRUCTIONS := 8

  /** A verdict as the gateway accepts it from the model, before coverage is looked at. */
  predicate FromModel(d: QualityDecision) {
    && Valid(d) && Executable(d) && Concrete(d.issues)
    && |d.issues| <= MAX_VERDICT_ISSUES && |d.instructions| <= MAX_VERDICT_INSTRUCTIONS
  }

  // ----- Coverage of a cumulative report -----

  const MISSING_CONTENT := "report_update_missing_content"
  const COVERAGE_RECOMMENDATION := "根据来源报告和已有证据补回缺失主题，保留本轮新增内容，生成可独立阅读的完整更新报告"
  const COVERAGE_NOTE := "；累计基线核对发现遗漏："

  function CoverageIssue(): ReviewIssue {
    ReviewIssue(Warning, MISSING_CONTENT, None, COVERAGE_RECOMMENDATION, Scope.Unknown, [], None)
  }

  function Unrelated(): ReviewIssue -> bool {
    (issue: ReviewIssue) => issue.code != MISSING_CONTENT
  }

  function Joined(ids: seq<string>): string {
    if ids == [] then "" else if |ids| == 1 then ids[0] else ids[0] + "、" + Joined(ids[1..])
  }

  /** `validate_update_coverage` once the coverage list itself is in order; missing holds the sections it calls missing,
      none without a cumulative report. */
  function UpdateCoverage(d: QualityDecision, missing: seq<string>): Result<QualityDecision, string> {
    if missing == [] then Ok(d)
    else if |Filter(d.issues, Unrelated())| >= MAX_ISSUES then Err("combine existing issues")
    else Ok(QualityDecision(
      if d.decision.Accept? then Revise else d.decision,
      d.score,
      if exists i :: 0 <= i < |d.issues| && d.issues[i].code == MISSING_CONTENT then d.rationale
        else Take(d.rationale + COVERAGE_NOTE + Joined(missing), MAX_RATIONALE),
      [CoverageIssue()] + Filter(d.issues, Unrelated()),
      Take(Dedupe([COVERAGE_RECOMMENDATION] + d.instructions), MAX_INSTRUCTIONS)))
  }

  lemma {:induction false} FilterKeepsAll<T(!new)>(s: seq<T>, keep: T -> bool)
    requires forall x :: x in s ==> keep(x)
    ensures Filter(s, keep) == s
  {
    if s != [] {
      FilterKeepsAll(s[1..], keep);
    }
  }

  /** A list without repeats that starts with x stays as it is when x is put in front once more. */
  lemma {:induction false} DedupeInFront<T(!new)>(x: T, xs: seq<T>, k: nat)
    requires AllDistinct(xs) && xs != [] && xs[0] == x && 1 <= k <= |xs|
    ensures Dedupe([x] + xs[..k]) == xs[..k]
  {
    var all := [x] + xs[..k];
    assert all[..k] == [x] + xs[..k - 1] && all[k] == xs[k - 1];
    if k == 1 {
      assert [x][..0] == [] && all[..1] == [x];
      assert Dedupe([x]) == [x];
      assert xs[..1] == [x];
    } else {
      DedupeInFront(x, xs, k - 1);
      assert xs[..k] == xs[..k - 1] + [xs[k - 1]];
    }
  }

  lemma {:induction false} DedupeStarts<T(!new)>(x: T, xs: seq<T>)
    ensures Dedupe([x] + xs) != [] && Dedupe([x] + xs)[0] == x
  {
    var all := [x] + xs;
    if xs == [] {
      assert all[..0] == [] && Dedupe(all) == [x];
    } else {
      assert all[..|all| - 1] == [x] + xs[..|xs| - 1];
      DedupeStarts(x, xs[..|xs| - 1]);
    }
  }

  lemma RepeatedRecommendation(instructions: seq<string>)
    ensures var once := Take(Dedupe([COVERAGE_RECOMMENDATION] + instructions), MAX_INSTRUCTIONS);
      && once != [] && once[0] == COVERAGE_RECOMMENDATION
      && Take(Dedupe([COVERAGE_RECOMMENDATION] + once), MAX_INSTRUCTIONS) == once
  {
    DedupeStarts(COVERAGE_RECOMMENDATION, instructions);
    var once := Take(Dedupe([COVERAGE_RECOMMENDATION] + instructions), MAX_INSTRUCTIONS);
    DedupeInFront(COVERAGE_RECOMMENDATION, once, |once|);
    assert once[..|once|] == once;
  }

  /** Gateway and workflow both apply it; the second time changes nothing. */
  lemma CoverageIdempotent(d: QualityDecision, missing: seq<string>)
    requires UpdateCoverage(d, missing).Ok?
    ensures UpdateCoverage(UpdateCoverage(d, missing).value, missing) == UpdateCoverage(d, missing)
  {
    if missing != [] {
      var e := UpdateCoverage(d, missing).value;
      var others := Filter(d.issues, Unrelated());
      FilterKeepsAll(others, Unrelated());
      assert e.issues[0] == CoverageIssue() && e.issues[1..] == others;
      assert Filter(e.issues, Unrelated()) == [] + others == others;
      RepeatedRecommendation(d.instructions);
    }
  }

  /** The section ids with a separator between them. */
  function Names(ids: seq<string>): string {
    if |ids| < 2 then if |ids| == 1 then ids[0] else ""
    else Names(ids[..|ids| - 1]) + "、" + ids[|ids| - 1]
  }

  lemma {:induction false} NamesFromFront(ids: seq<string>)
    requires |ids| > 1
    ensures Names(ids) == ids[0] + "、" + Names(ids[1..])
  {
    var n := |ids| - 1;
    if n > 1 {
      NamesFromFront(ids[..n]);
      assert ids[..n][1..] == ids[1..][..n - 1];
    }
  }

  lemma {:induction false} JoinedIsNames(ids: seq<string>)
    ensures Joined(ids) == Names(ids)
  {
    if |ids| > 1 {
      NamesFromFront(ids);
      JoinedIsNames(ids[1..]);
    }
  }

  /** A finding about missing content. */
  ghost predicate SaysMissing(issue: ReviewIssue) {
    issue.code == "report_update_missing_content"
  }

  /** The other findings, in order. */
  ghost predicate AreOthers(others: seq<ReviewIssue>, issues: seq<ReviewIssue>) {
    others == Filter(issues, (issue: ReviewIssue) => issue.code != "report_update_missing_content")
  }

  lemma OthersAre(issues: seq<ReviewIssue>)
    ensures AreOthers(Filter(issues, Unrelated()), issues)
  {
    FilterSame(issues, Unrelated(), (issue: ReviewIssue) => issue.code != "report_update_missing_content");
  }

  lemma {:induction false} FilterSame<T(!new)>(s: seq<T>, p: T -> bool, q: T -> bool)
    requires forall x :: p(x) == q(x)
    ensures Filter(s, p) == Filter(s, q)
  {
    if s != [] {
      FilterSame(s[1..], p, q);
    }
  }

  /** The warning put in front of the other findings. */
  ghost predicate WarnsOfMissing(issue: ReviewIssue) {
    && issue.severity == Warning && SaysMissing(issue) && issue.taskId == None
    && issue.recommendation == COVERAGE_RECOMMENDATION
    && issue.scope == Scope.Unknown && issue.paragraphIds == [] && issue.reportedSeverity == None
  }

  ghost predicate SomeSaysMissing(issues: seq<ReviewIssue>) {
    exists i :: 0 <= i < |issues| && SaysMissing(issues[i])
  }

  /** The covered verdict: never an acceptance, one warning in front, its advice first, and the missing sections named
      unless a finding already spoke of them. */
  ghost predicate CoveredAs(d: QualityDecision, missing: seq<string>, others: seq<ReviewIssue>, e: QualityDecision) {
    && e.decision == (if d.decision == Accept then Revise else d.decision) && e.score == d.score
    && e.issues != [] && WarnsOfMissing(e.issues[0]) && e.issues[1..] == others
    && e.instructions == Take(Dedupe([COVERAGE_RECOMMENDATION] + d.instructions), 20)
    && e.rationale == (if SomeSaysMissing(d.issues) then d.rationale
                       else Take(d.rationale + "；累计基线核对发现遗漏：" + Names(missing), 4000))
  }

  /** Coverage exactly. It fails when the 20 places are taken by other findings. */
  lemma CoverageExactly(d: QualityDecision, missing: seq<string>, others: seq<ReviewIssue>)
    requires AreOthers(others, d.issues)
    ensures |missing| == 0 ==> UpdateCoverage(d, missing) == Ok(d)
    ensures |missing| > 0 ==> (UpdateCoverage(d, missing).Err? <==> |others| >= 20)
    ensures |missing| > 0 && |others| < 20 ==> CoveredAs(d, missing, others, UpdateCoverage(d, missing).value)
  {
    OthersAre(d.issues);
    if |missing| > 0 && |others| < 20 {
      CoveredExactly(d, missing, others);
    }
  }

  lemma CoveredExactly(d: QualityDecision, missing: seq<string>, others: seq<ReviewIssue>)
    requires others == Filter(d.issues, Unrelated()) && |missing| > 0 && |others| < 20
    ensures UpdateCoverage(d, missing).Ok? && CoveredAs(d, missing, others, UpdateCoverage(d, missing).value)
  {
    JoinedIsNames(missing);
    assert ([CoverageIssue()] + others)[1..] == others;
    assert SomeSaysMissing(d.issues) <==> exists i :: 0 <= i < |d.issues| && d.issues[i].code == MISSING_CONTENT;
  }

  lemma {:induction false} DedupeLength<T(!new)>(xs: seq<T>)
    ensures |Dedupe(xs)| <= |xs|
  {
    if xs != [] {
      DedupeLength(xs[..|xs| - 1]);
    }
  }

  /** Every critical finding says that content is missing. */
  predicate CriticalOnlyForContent(issues: seq<ReviewIssue>) {
    forall i :: 0 <= i < |issues| && issues[i].severity.Critical? ==> issues[i].code == MISSING_CONTENT
  }

  /** Coverage puts one warning for every finding of that code, critical ones included. */
  lemma CoverageKeepsCriticalIff(d: QualityDecision)
    ensures HasCritical([CoverageIssue()] + Filter(d.issues, Unrelated())) <==> !CriticalOnlyForContent(d.issues)
  {
    var others := Filter(d.issues, Unrelated());
    var all := [CoverageIssue()] + others;
    if i :| 0 <= i < |all| && all[i].severity.Critical? {
      assert all[i] == others[i - 1] && others[i - 1] in d.issues;
    }
    if i :| 0 <= i < |d.issues| && d.issues[i].severity.Critical? && d.issues[i].code != MISSING_CONTENT {
      assert d.issues[i] in others;
      var j :| 0 <= j < |others| && others[j] == d.issues[i];
      assert all[j + 1] == others[j];
    }
  }

  /** A verdict from the model always passes, at most one finding and one instruction longer, never as an acceptance
      when content is missing; it stays executable unless its replan rests on missing content alone. */
  lemma CoverageFacts(d: QualityDecision, missing: seq<string>)
    requires FromModel(d)
    ensures UpdateCoverage(d, missing).Ok?
    ensures var e := UpdateCoverage(d, missing).value;
      && Valid(e) && Concrete(e.issues) && e.score == d.score
      && |e.issues| <= MAX_VERDICT_ISSUES + 1 && |e.instructions| <= MAX_VERDICT_INSTRUCTIONS + 1
      && (e.decision.Accept? <==> d.decision.Accept? && missing == [])
      && (e.decision.Replan? <==> d.decision.Replan?)
      && (Executable(e) <==> !(missing != [] && d.decision.Replan? && CriticalOnlyForContent(d.issues)))
      && (missing != [] ==> e.issues != [] && e.issues[0] == CoverageIssue())
  {
    if missing != [] {
      var e := UpdateCoverage(d, missing).value;
      CoverageKeepsCriticalIff(d);
      RepeatedRecommendation(d.instructions);
      DedupeLength([COVERAGE_RECOMMENDATION] + d.instructions);
      CoverageConcrete(d);
    }
  }

  lemma CoverageConcrete(d: QualityDecision)
    requires Concrete(d.issues)
    ensures Concrete([CoverageIssue()] + Filter(d.issues, Unrelated()))
  {
    var others := Filter(d.issues, Unrelated());
    forall i | 0 <= i < |others| ensures others[i].recommendation != "" {
      assert others[i] in d.issues;
    }
  }

  // ----- The audit of the report text -----

  /** What the audit reads off the report and its sources. */
  datatype ReportFacts = ReportFacts(
    headings: set<string>, taskReferences: set<string>, sourceUrls: set<string>, citedUrls: set<string>,
    linksInBody: bool, known: set<nat>, used: set<nat>, references: set<nat>, results: nat, bodyChars: nat,
    needsFreshData: bool)

  const REQUIRED_HEADINGS := {"摘要", "结论", "局限", "参考文献"}
  const CHECKS := 9
  const FRESH_EVIDENCE := 8

  /** The acquired URLs, plain and quoted. */
  function AllowedUrls(f: ReportFacts, quote: string -> string): set<string> {
    f.sourceUrls + set url | url in f.sourceUrls :: quote(url)
  }

  /** The conditions of the checks, in the order of the source. */
  function Fired(f: ReportFacts, quote: string -> string): (r: seq<bool>)
    ensures |r| == CHECKS
  {
    var valid := f.used * f.known;
    [REQUIRED_HEADINGS - f.headings != {},
     f.taskReferences != {},
     f.citedUrls - AllowedUrls(f, quote) != {},
     f.linksInBody,
     f.used - f.known != {},
     valid - f.references != {},
     f.sourceUrls != {} && valid == {},
     f.results >= 3 && f.sourceUrls != {} && f.bodyChars < 1200,
     f.needsFreshData && f.sourceUrls == {}]
  }

  function CodeOf(k: nat): string
    requires k < CHECKS
  {
    match k
    case 0 => "report_missing_sections"
    case 1 => "report_internal_task_reference"
    case 2 => "report_unknown_source"
    case 3 => "report_nonacademic_inline_link"
    case 4 => "report_unknown_citation"
    case 5 => "report_citation_missing_reference"
    case 6 => "report_missing_source"
    case 7 => "report_too_brief"
    case _ => "report_missing_fresh_evidence"
  }

  function AdviceOf(k: nat): (r: string)
    requires k < CHECKS
    ensures r != ""
  {
    match k
    case 0 => "补全 ## 摘要、## 结论、## 局限、## 参考文献；正文其他章节按研究问题组织"
    case 1 => "删除所有 [task:任务ID]；读者可见引用只能使用系统引用目录中的编号"
    case 2 => "核对并替换未验证链接；不得编造来源或导航地址"
    case 3 => "将正文链接替换为与系统引用目录对应的 [数字]，URL 仅保留在参考文献"
    case 4 => "删除或替换无效编号；不得自行新增、重排或复用引用编号"
    case 5 => "根据系统引用目录重建参考文献，并保持编号一一对应"
    case 6 => "在相关事实附近添加最小充分的 [数字] 引用，并在参考文献列出对应来源"
    case 7 => "围绕核心发现补充证据解释、比较、影响、可执行建议和结论，避免只拼接任务摘要"
    case _ => "重新获取当前证据；报告应明确标为未核实，不得给出当前数值结论"
  }

  function SeverityOf(k: nat): Severity {
    if k == FRESH_EVIDENCE then Critical else Warning
  }

  /** The inner `issue`: relaxed review lowers what it does not block on. */
  function AuditIssue(severity: Severity, code: string, advice: string, relaxed: bool): ReviewIssue {
    ReviewIssue(
      if relaxed && !severity.Critical? && code in NON_BLOCKING_ISSUES then Info else severity,
      code, None, advice, Scope.Unknown, [], None)
  }

  function Issues(relaxed: bool): (r: seq<ReviewIssue>)
    ensures |r| == CHECKS
    ensures forall k :: 0 <= k < CHECKS ==> r[k] == AuditIssue(SeverityOf(k), CodeOf(k), AdviceOf(k), relaxed)
  {
    seq(CHECKS, k requires 0 <= k < CHECKS => AuditIssue(SeverityOf(k), CodeOf(k), AdviceOf(k), relaxed))
  }

  /** The elements among the first n whose condition holds. */
  function Picked<T>(all: seq<T>, fired: seq<bool>, n: nat): seq<T>
    requires n <= |all| == |fired|
  {
    if n == 0 then [] else Picked(all, fired, n - 1) + if fired[n - 1] then [all[n - 1]] else []
  }

  function Findings(f: ReportFacts, quote: string -> string, relaxed: bool): seq<ReviewIssue> {
    Picked(Issues(relaxed), Fired(f, quote), CHECKS)
  }

  /** `issue(...)` under its condition. */
  method Check(issues: seq<ReviewIssue>, fires: bool, k: nat, relaxed: bool) returns (r: seq<ReviewIssue>, next: nat)
    requires k < CHECKS
    ensures next == k + 1 && r == issues + if fires then [Issues(relaxed)[k]] else []
  {
    r, next := issues, k + 1;
    if fires {
      r := r + [AuditIssue(SeverityOf(k), CodeOf(k), AdviceOf(k), relaxed)];
    }
  }

  /** The checks of headings, task marks and links. */
  method CheckLinks(f: ReportFacts, quote: string -> string, relaxed: bool) returns (issues: seq<ReviewIssue>, k: nat)
    ensures k == 4 && issues == Picked(Issues(relaxed), Fired(f, quote), k)
  {
    ghost var fired, all := Fired(f, quote), Issues(relaxed);
    issues, k := CheckStructure(f, quote, relaxed);
    issues, k := Check(issues, f.citedUrls - AllowedUrls(f, quote) != {}, k, relaxed);
    assert issues == Picked(all, fired, k);
    issues, k := Check(issues, f.linksInBody, k, relaxed);
  }

  method CheckStructure(f: ReportFacts, ghost quote: string -> string, relaxed: bool)
      returns (issues: seq<ReviewIssue>, k: nat)
    ensures k == 2 && issues == Picked(Issues(relaxed), Fired(f, quote), k)
  {
    ghost var fired, all := Fired(f, quote), Issues(relaxed);
    k := 0;
    issues, k := Check([], REQUIRED_HEADINGS - f.headings != {}, k, relaxed);
    assert issues == Picked(all, fired, k);
    issues, k := Check(issues, f.taskReferences != {}, k, relaxed);
  }

  /** The checks of citation numbers. */
  method CheckNumbers(issues: seq<ReviewIssue>, f: ReportFacts, ghost quote: string -> string, relaxed: bool, k: nat)
      returns (r: seq<ReviewIssue>, next: nat)
    requires k == 4 && issues == Picked(Issues(relaxed), Fired(f, quote), k)
    ensures next == 7 && r == Picked(Issues(relaxed), Fired(f, quote), next)
  {
    ghost var fired, all := Fired(f, quote), Issues(relaxed);
    r, next := Check(issues, f.used - f.known != {}, k, relaxed);
    assert r == Picked(all, fired, next);
    var valid := f.used * f.known;
    r, next := Check(r, valid - f.references != {}, next, relaxed);
    assert r == Picked(all, fired, next);
    r, next := Check(r, f.sourceUrls != {} && valid == {}, next, relaxed);
  }

  method AuditReport(f: ReportFacts, quote: string -> string, relaxed: bool) returns (issues: seq<ReviewIssue>)
    ensures issues == Findings(f, quote, relaxed)
    ensures FindsExactly(issues, f, quote) && AsRaised(issues, relaxed)
  {
    AllFindings(f, quote, relaxed);
    FindingsAsRaised(f, quote, relaxed);
    var k;
    issues, k := CheckLinks(f, quote, relaxed);
    issues, k := CheckNumbers(issues, f, quote, relaxed, k);
    issues, k := Check(issues, f.results >= 3 && f.sourceUrls != {} && f.bodyChars < 1200, k, relaxed);
    assert issues == Picked(Issues(relaxed), Fired(f, quote), k);
    issues, k := Check(issues, f.needsFreshData && f.sourceUrls == {}, k, relaxed);
  }

  /** The checks that block an acceptance even under relaxed review. */
  predicate Blocks(k: nat) {
    k in {2, 4, 5, 6, FRESH_EVIDENCE}
  }

  lemma IssueFacts(k: nat, relaxed: bool)
    requires k < CHECKS
    ensures var issue := AuditIssue(SeverityOf(k), CodeOf(k), AdviceOf(k), relaxed);
      && (issue.severity.Critical? <==> k == FRESH_EVIDENCE)
      && issue.recommendation != ""
      && (relaxed ==> (Nonblocking(issue) <==> !Blocks(k)))
  {
  }

  lemma {:induction false} PickedFacts<T>(all: seq<T>, fired: seq<bool>, n: nat)
    requires n <= |all| == |fired|
    ensures |Picked(all, fired, n)| <= n
    ensures forall x :: x in Picked(all, fired, n) <==> exists k :: 0 <= k < n && fired[k] && x == all[k]
  {
    if n > 0 {
      PickedFacts(all, fired, n - 1);
    }
  }

  /** Missing sources, brevity of a sourced report and missing fresh evidence exclude each other: at most eight
      findings. */
  lemma FindingsFit(f: ReportFacts, quote: string -> string, relaxed: bool)
    ensures |Findings(f, quote, relaxed)| <= 8
  {
    var all, fired := Issues(relaxed), Fired(f, quote);
    PickedFacts(all, fired, 6);
    PickedFacts(all, fired, 8);
    if fired[FRESH_EVIDENCE] {
      assert !fired[6] && !fired[7];
      assert Picked(all, fired, 7) == Picked(all, fired, 6) && Picked(all, fired, 8) == Picked(all, fired, 7);
    }
  }

  lemma FindingIsCheck(f: ReportFacts, quote: string -> string, relaxed: bool, i: nat) returns (k: nat)
    requires i < |Findings(f, quote, relaxed)|
    ensures k < CHECKS && Fired(f, quote)[k] && Findings(f, quote, relaxed)[i] == Issues(relaxed)[k]
  {
    PickedFacts(Issues(relaxed), Fired(f, quote), CHECKS);
    assert Findings(f, quote, relaxed)[i] in Findings(f, quote, relaxed);
    k :| 0 <= k < CHECKS && Fired(f, quote)[k] && Findings(f, quote, relaxed)[i] == Issues(relaxed)[k];
  }

  lemma CheckIsFinding(f: ReportFacts, quote: string -> string, relaxed: bool, k: nat) returns (i: nat)
    requires k < CHECKS && Fired(f, quote)[k]
    ensures i < |Findings(f, quote, relaxed)| && Findings(f, quote, relaxed)[i] == Issues(relaxed)[k]
  {
    PickedFacts(Issues(relaxed), Fired(f, quote), CHECKS);
    assert Issues(relaxed)[k] in Findings(f, quote, relaxed);
    i :| 0 <= i < |Findings(f, quote, relaxed)| && Findings(f, quote, relaxed)[i] == Issues(relaxed)[k];
  }

  // ----- What each finding means -----

  ghost predicate Raised(issues: seq<ReviewIssue>, code: string) {
    exists i :: 0 <= i < |issues| && issues[i].code == code
  }

  /** A required section is not there. */
  ghost predicate LacksSection(f: ReportFacts) {
    !("摘要" in f.headings && "结论" in f.headings && "局限" in f.headings && "参考文献" in f.headings)
  }

  /** A link that is no acquired URL, neither plain nor quoted. */
  ghost predicate LinksElsewhere(f: ReportFacts, quote: string -> string) {
    exists url :: url in f.citedUrls && Unacquired(f, quote, url)
  }

  ghost predicate Unacquired(f: ReportFacts, quote: string -> string, url: string) {
    url !in f.sourceUrls && forall source :: source in f.sourceUrls ==> quote(source) != url
  }

  ghost predicate CitesUnknown(f: ReportFacts) {
    exists n :: n in f.used && n !in f.known
  }

  ghost predicate CitesUnlisted(f: ReportFacts) {
    exists n :: n in f.used && n in f.known && n !in f.references
  }

  ghost predicate CitesNothing(f: ReportFacts) {
    HasSources(f) && forall n :: n in f.used ==> n !in f.known
  }

  ghost predicate HasSources(f: ReportFacts) {
    exists url :: url in f.sourceUrls
  }

  /** Each finding is there if and only if the report gives cause for it. */
  ghost predicate FindsExactly(issues: seq<ReviewIssue>, f: ReportFacts, quote: string -> string) {
    && (Raised(issues, "report_missing_sections") <==> LacksSection(f))
    && (Raised(issues, "report_internal_task_reference") <==> exists task :: task in f.taskReferences)
    && (Raised(issues, "report_unknown_source") <==> LinksElsewhere(f, quote))
    && (Raised(issues, "report_nonacademic_inline_link") <==> f.linksInBody)
    && (Raised(issues, "report_unknown_citation") <==> CitesUnknown(f))
    && (Raised(issues, "report_citation_missing_reference") <==> CitesUnlisted(f))
    && (Raised(issues, "report_missing_source") <==> CitesNothing(f))
    && (Raised(issues, "report_too_brief") <==> f.results >= 3 && HasSources(f) && f.bodyChars < 1200)
    && (Raised(issues, "report_missing_fresh_evidence") <==> f.needsFreshData && !HasSources(f))
  }

  /** No finding is of another kind or there twice, and each has its severity and says what to do. */
  ghost predicate AsRaised(issues: seq<ReviewIssue>, relaxed: bool) {
    && (forall i, j :: 0 <= i < j < |issues| ==> issues[i].code != issues[j].code)
    && forall i :: 0 <= i < |issues| ==> OneAsRaised(issues[i], relaxed)
  }

  ghost predicate OneAsRaised(issue: ReviewIssue, relaxed: bool) {
    && issue.recommendation != "" && issue.taskId == None && issue.reportedSeverity == None
    && issue.scope == Scope.Unknown && issue.paragraphIds == []
    && match issue.severity
       case Critical => issue.code == "report_missing_fresh_evidence"
       case Warning =>
         || issue.code in {"report_unknown_source", "report_unknown_citation", "report_citation_missing_reference",
                           "report_missing_source"}
         || (!relaxed && Presentational(issue.code))
       case Info => relaxed && Presentational(issue.code)
  }

  ghost predicate Presentational(code: string) {
    code in {"report_missing_sections", "report_internal_task_reference", "report_nonacademic_inline_link",
             "report_too_brief"}
  }

  lemma MissingHeading(f: ReportFacts)
    ensures REQUIRED_HEADINGS - f.headings != {} <==> LacksSection(f)
  {
    assert REQUIRED_HEADINGS == {"摘要", "结论", "局限", "参考文献"};
    if LacksSection(f) {
      var h :| h in REQUIRED_HEADINGS && h !in f.headings;
      assert h in REQUIRED_HEADINGS - f.headings;
    } else {
      assert forall h :: h in REQUIRED_HEADINGS ==> h in f.headings;
    }
  }

  lemma UnknownSource(f: ReportFacts, quote: string -> string)
    ensures f.citedUrls - AllowedUrls(f, quote) != {} <==> LinksElsewhere(f, quote)
  {
    if url :| url in f.citedUrls - AllowedUrls(f, quote) {
      assert forall source :: source in f.sourceUrls ==> quote(source) in AllowedUrls(f, quote);
      assert Unacquired(f, quote, url);
    }
    if LinksElsewhere(f, quote) {
      var url :| url in f.citedUrls && Unacquired(f, quote, url);
      assert url in f.citedUrls - AllowedUrls(f, quote);
    }
  }

  lemma SetChecks(f: ReportFacts)
    ensures f.taskReferences != {} <==> exists task :: task in f.taskReferences
    ensures f.sourceUrls != {} <==> HasSources(f)
    ensures f.used - f.known != {} <==> CitesUnknown(f)
    ensures f.used * f.known - f.references != {} <==> CitesUnlisted(f)
    ensures f.used * f.known == {} <==> forall n :: n in f.used ==> n !in f.known
  {
    if n :| n in f.used && n !in f.known {
      assert n in f.used - f.known;
    }
    if n :| n in f.used && n in f.known {
      assert n in f.used * f.known;
    }
    if n :| n in f.used && n in f.known && n !in f.references {
      assert n in f.used * f.known - f.references;
    }
  }

  /** Length and eighth character tell the codes apart. */
  lemma CodeShape(k: nat)
    requires k < CHECKS
    ensures |CodeOf(k)| == [23, 30, 21, 30, 23, 33, 21, 16, 29][k]
    ensures CodeOf(k)[7] == ['m', 'i', 'u', 'n', 'u', 'c', 'm', 't', 'm'][k]
  {
  }

  lemma CodesDiffer(j: nat, k: nat)
    requires j < CHECKS && k < CHECKS && CodeOf(j) == CodeOf(k)
    ensures j == k
  {
    CodeShape(j);
    CodeShape(k);
  }

  /** A code is raised exactly when its check fires. */
  lemma RaisedIff(f: ReportFacts, quote: string -> string, relaxed: bool, k: nat)
    requires k < CHECKS
    ensures Raised(Findings(f, quote, relaxed), CodeOf(k)) <==> Fired(f, quote)[k]
  {
    var issues := Findings(f, quote, relaxed);
    if i :| 0 <= i < |issues| && issues[i].code == CodeOf(k) {
      var j := FindingIsCheck(f, quote, relaxed, i);
      CodesDiffer(j, k);
    }
    if Fired(f, quote)[k] {
      var i := CheckIsFinding(f, quote, relaxed, k);
      assert issues[i].code == CodeOf(k);
    }
  }

  /** What makes each check fire. */
  lemma CheckMeans(f: ReportFacts, quote: string -> string)
    ensures var fired := Fired(f, quote);
      && (fired[0] <==> LacksSection(f)) && (fired[1] <==> exists task :: task in f.taskReferences)
      && (fired[2] <==> LinksElsewhere(f, quote)) && (fired[3] <==> f.linksInBody)
      && (fired[4] <==> CitesUnknown(f)) && (fired[5] <==> CitesUnlisted(f)) && (fired[6] <==> CitesNothing(f))
      && (fired[7] <==> f.results >= 3 && HasSources(f) && f.bodyChars < 1200)
      && (fired[8] <==> f.needsFreshData && !HasSources(f))
  {
    SetChecks(f);
    MissingHeading(f);
    UnknownSource(f, quote);
  }

  lemma FoundOrNot(f: ReportFacts, quote: string -> string, relaxed: bool)
    ensures var issues, fired := Findings(f, quote, relaxed), Fired(f, quote);
      && (Raised(issues, "report_missing_sections") <==> fired[0])
      && (Raised(issues, "report_internal_task_reference") <==> fired[1])
      && (Raised(issues, "report_unknown_source") <==> fired[2])
      && (Raised(issues, "report_nonacademic_inline_link") <==> fired[3])
      && (Raised(issues, "report_unknown_citation") <==> fired[4])
  {
    RaisedIff(f, quote, relaxed, 0);
    RaisedIff(f, quote, relaxed, 1);
    RaisedIff(f, quote, relaxed, 2);
    RaisedIff(f, quote, relaxed, 3);
    RaisedIff(f, quote, relaxed, 4);
  }

  lemma FoundOrNotBehind(f: ReportFacts, quote: string -> string, relaxed: bool)
    ensures var issues, fired := Findings(f, quote, relaxed), Fired(f, quote);
      && (Raised(issues, "report_citation_missing_reference") <==> fired[5])
      && (Raised(issues, "report_missing_source") <==> fired[6])
  {
    RaisedIff(f, quote, relaxed, 5);
    RaisedIff(f, quote, relaxed, 6);
  }

  lemma FoundOrNotAtEnd(f: ReportFacts, quote: string -> string, relaxed: bool)
    ensures var issues, fired := Findings(f, quote, relaxed), Fired(f, quote);
      && (Raised(issues, "report_too_brief") <==> fired[7])
      && (Raised(issues, "report_missing_fresh_evidence") <==> fired[8])
  {
    RaisedIff(f, quote, relaxed, 7);
    RaisedIff(f, quote, relaxed, 8);
  }

  lemma AllFindings(f: ReportFacts, quote: string -> string, relaxed: bool)
    ensures FindsExactly(Findings(f, quote, relaxed), f, quote)
  {
    CheckMeans(f, quote);
    FoundOrNot(f, quote, relaxed);
    FoundOrNotBehind(f, quote, relaxed);
    FoundOrNotAtEnd(f, quote, relaxed);
  }

  lemma IssueAsRaised(k: nat, relaxed: bool)
    requires k < CHECKS
    ensures OneAsRaised(Issues(relaxed)[k], relaxed)
  {
  }

  lemma {:induction false} PickedFrom<T>(all: seq<T>, fired: seq<bool>, n: nat, i: nat, j: nat) returns (k: nat, m: nat)
    requires n <= |all| == |fired| && i < j < |Picked(all, fired, n)|
    ensures k < m < n && Picked(all, fired, n)[i] == all[k] && Picked(all, fired, n)[j] == all[m]
  {
    var before := Picked(all, fired, n - 1);
    if j < |before| {
      k, m := PickedFrom(all, fired, n - 1, i, j);
    } else {
      m := n - 1;
      k := PickedOne(all, fired, n - 1, i);
    }
  }

  lemma {:induction false} PickedOne<T>(all: seq<T>, fired: seq<bool>, n: nat, i: nat) returns (k: nat)
    requires n <= |all| == |fired| && i < |Picked(all, fired, n)|
    ensures k < n && Picked(all, fired, n)[i] == all[k]
  {
    if i < |Picked(all, fired, n - 1)| {
      k := PickedOne(all, fired, n - 1, i);
    } else {
      k := n - 1;
    }
  }

  lemma FindingsAsRaised(f: ReportFacts, quote: string -> string, relaxed: bool)
    ensures AsRaised(Findings(f, quote, relaxed), relaxed)
  {
    var issues := Findings(f, quote, relaxed);
    forall i, j | 0 <= i < j < |issues| ensures issues[i].code != issues[j].code {
      var k, m := PickedFrom(Issues(relaxed), Fired(f, quote), CHECKS, i, j);
      if issues[i].code == issues[j].code {
        CodesDiffer(k, m);
      }
    }
    forall i | 0 <= i < |issues| ensures OneAsRaised(issues[i], relaxed) {
      var k := FindingIsCheck(f, quote, relaxed, i);
      IssueAsRaised(k, relaxed);
    }
  }

  /** Fresh data is needed and there is no source. */
  predicate LacksEvidence(f: ReportFacts) {
    f.needsFreshData && f.sourceUrls == {}
  }

  /** The audit calls something critical exactly when needed evidence is missing; every finding says what to do. */
  lemma AuditFacts(f: ReportFacts, quote: string -> string, relaxed: bool)
    ensures var issues := Findings(f, quote, relaxed);
      Concrete(issues) && (HasCritical(issues) <==> LacksEvidence(f))
  {
    var issues := Findings(f, quote, relaxed);
    forall i | 0 <= i < |issues|
      ensures issues[i].recommendation != "" && (issues[i].severity.Critical? ==> LacksEvidence(f))
    {
      var k := FindingIsCheck(f, quote, relaxed, i);
      IssueFacts(k, relaxed);
    }
    if LacksEvidence(f) {
      IssueFacts(FRESH_EVIDENCE, relaxed);
      var i := CheckIsFinding(f, quote, relaxed, FRESH_EVIDENCE);
      assert issues[i].severity.Critical?;
    }
  }

  /** Nothing in the report stands against an acceptance: every link and citation is known and listed, sources are used
      and there when needed; without relaxed review, the form is right too. */
  ghost predicate Unblocked(f: ReportFacts, quote: string -> string, relaxed: bool) {
    && !LinksElsewhere(f, quote) && !CitesUnknown(f) && !CitesUnlisted(f) && !CitesNothing(f)
    && !(f.needsFreshData && !HasSources(f))
    && (relaxed
        || (!LacksSection(f) && (forall task :: task !in f.taskReferences) && !f.linksInBody
            && !(f.results >= 3 && HasSources(f) && f.bodyChars < 1200)))
  }

  lemma UnblockedMeans(f: ReportFacts, quote: string -> string, relaxed: bool)
    ensures Unblocked(f, quote, relaxed) <==>
      forall k :: 0 <= k < CHECKS && Fired(f, quote)[k] ==> relaxed && !Blocks(k)
  {
    CheckMeans(f, quote);
    var fired := Fired(f, quote);
    assert fired[0] || fired[1] || fired[2] || fired[3] || fired[4] || fired[5] || fired[6] || fired[7] || fired[8]
      <==> exists k :: 0 <= k < CHECKS && fired[k];
  }

  lemma UnblockedIff(f: ReportFacts, quote: string -> string, relaxed: bool)
    ensures Blocking(Findings(f, quote, relaxed), relaxed) == [] <==> Unblocked(f, quote, relaxed)
  {
    var issues := Findings(f, quote, relaxed);
    BlockingIffSome(issues, relaxed);
    UnblockedMeans(f, quote, relaxed);
    if k :| 0 <= k < CHECKS && Fired(f, quote)[k] && !(relaxed && !Blocks(k)) {
      IssueFacts(k, relaxed);
      var i := CheckIsFinding(f, quote, relaxed, k);
      assert !(relaxed && Nonblocking(issues[i]));
    }
    if i :| 0 <= i < |issues| && !(relaxed && Nonblocking(issues[i])) {
      var k := FindingIsCheck(f, quote, relaxed, i);
      IssueFacts(k, relaxed);
    }
  }

  // ----- The whole gate -----

  /** The model's replan rests on missing content alone, coverage replaces that by a warning, and neither calibration
      nor the audit makes up for it. */
  ghost predicate LosesItsCritical(d: QualityDecision, missing: seq<string>, paragraphs: ParagraphIndex, f: ReportFacts,
      relaxed: bool)
    requires UpdateCoverage(d, missing).Ok?
  {
    && missing != [] && d.decision.Replan? && CriticalOnlyForContent(d.issues)
    && !LacksEvidence(f)
    && var issues := UpdateCoverage(d, missing).value.issues;
    !(relaxed && CalibratedAll(issues, paragraphs) != issues)
  }

  /** When coverage leaves a replan without a critical finding, a calibration that lowers anything turns it into a
      revision that can be carried out. */
  lemma SoftenedIsExecutable(e: QualityDecision, paragraphs: ParagraphIndex)
    requires e.decision.Replan? && e.issues != [] && Concrete(e.issues) && !HasCritical(e.issues)
    requires CalibratedAll(e.issues, paragraphs) != e.issues
    ensures var c := CalibrateReviewScope(e, paragraphs, true);
      c.decision.Revise? && Executable(c)
  {
    var issues := CalibratedAll(e.issues, paragraphs);
    forall i | 0 <= i < |issues|
      ensures issues[i].recommendation != "" && !issues[i].severity.Critical?
    {
      CalibratedOnlyLowers(e.issues[i], paragraphs);
      assert !e.issues[i].severity.Critical?;
    }
    RecommendationsListed(issues, 0);
    CutStaysActionable(e.instructions + Recommendations(issues), issues[0].recommendation);
  }

  /** What the gate reviews: the covered verdict, calibrated. */
  function Reviewed(d: QualityDecision, missing: seq<string>, paragraphs: ParagraphIndex, relaxed: bool):
      QualityDecision
    requires UpdateCoverage(d, missing).Ok?
  {
    CalibrateReviewScope(UpdateCoverage(d, missing).value, paragraphs, relaxed)
  }

  /** The decision the audit builds from it. */
  function GateVerdict(d: QualityDecision, missing: seq<string>, paragraphs: ParagraphIndex, f: ReportFacts,
      quote: string -> string, threshold: int, relaxed: bool): QualityDecision
    requires FromModel(d)
  {
    CoverageFacts(d, missing);
    CalibrationIsStable(UpdateCoverage(d, missing).value, paragraphs, relaxed);
    Audited(Reviewed(d, missing, paragraphs, relaxed), Findings(f, quote, relaxed), threshold, relaxed)
  }

  /** A covered verdict without a critical finding is carried out after calibration and audit, unless it is a replan
      that nothing lowers and the audit calls nothing critical. */
  lemma UncriticalReplanIff(e: QualityDecision, paragraphs: ParagraphIndex, f: ReportFacts, quote: string -> string,
      threshold: int, relaxed: bool)
    requires Valid(e) && e.decision.Replan? && e.issues != [] && Concrete(e.issues) && !HasCritical(e.issues)
    requires |e.issues| <= MAX_VERDICT_ISSUES + 1 && |e.instructions| <= MAX_VERDICT_INSTRUCTIONS + 1
    ensures var c := CalibrateReviewScope(e, paragraphs, relaxed);
      && |c.instructions| <= MAX_INSTRUCTIONS
      && (Executable(Audited(c, Findings(f, quote, relaxed), threshold, relaxed)) <==>
           LacksEvidence(f) || (relaxed && CalibratedAll(e.issues, paragraphs) != e.issues))
  {
    var audits, c := Findings(f, quote, relaxed), CalibrateReviewScope(e, paragraphs, relaxed);
    CalibrationIsStable(e, paragraphs, relaxed);
    AuditFacts(f, quote, relaxed);
    FindingsFit(f, quote, relaxed);
    if relaxed && CalibratedAll(e.issues, paragraphs) != e.issues {
      SoftenedIsExecutable(e, paragraphs);
      AuditStaysExecutableIff(c, audits, threshold, relaxed);
    } else {
      assert c == e;
      RoomKeepsCritical(e, audits);
      MergeKeepsRanks(e.issues, audits);
    }
  }

  /** Every verdict the model can give is carried out, except exactly the replan that lost its critical finding. */
  lemma GateFailsIff(d: QualityDecision, missing: seq<string>, paragraphs: ParagraphIndex, f: ReportFacts,
      quote: string -> string, threshold: int, relaxed: bool)
    requires FromModel(d)
    ensures UpdateCoverage(d, missing).Ok?
    ensures Executable(GateVerdict(d, missing, paragraphs, f, quote, threshold, relaxed)) <==>
      !LosesItsCritical(d, missing, paragraphs, f, relaxed)
  {
    CoverageFacts(d, missing);
    var e, audits := UpdateCoverage(d, missing).value, Findings(f, quote, relaxed);
    CalibrationIsStable(e, paragraphs, relaxed);
    if Executable(e) {
      AuditFacts(f, quote, relaxed);
      CalibrationStaysExecutable(e, paragraphs, relaxed);
      AuditStaysExecutableIff(Reviewed(d, missing, paragraphs, relaxed), audits, threshold, relaxed);
    } else {
      CoverageKeepsCriticalIff(d);
      UncriticalReplanIff(e, paragraphs, f, quote, threshold, relaxed);
    }
  }

  /** Findings for information replace nothing: they are dropped or join the list. */
  lemma {:induction false} InfoJoinsOrDrops(merged: seq<ReviewIssue>, audit: ReviewIssue)
    requires audit.severity.Info?
    ensures MergeOne(merged, audit) == merged || MergeOne(merged, audit) == merged + [audit]
  {
    if merged != [] && !SameFinding(merged[0], audit) {
      InfoJoinsOrDrops(merged[1..], audit);
      assert merged == [merged[0]] + merged[1..];
    }
  }

  lemma {:induction false} InfoKeepsNonblocking(issues: seq<ReviewIssue>, audits: seq<ReviewIssue>)
    requires forall i :: 0 <= i < |audits| ==> audits[i].severity.Info? && Nonblocking(audits[i])
    ensures AllNonblocking(MergeAll(issues, audits)) <==> AllNonblocking(issues)
  {
    if audits != [] {
      var n := |audits| - 1;
      var before := MergeAll(issues, audits[..n]);
      InfoKeepsNonblocking(issues, audits[..n]);
      InfoJoinsOrDrops(before, audits[n]);
      assert AllNonblocking(before + [audits[n]]) <==> AllNonblocking(before) by {
        if AllNonblocking(before + [audits[n]]) {
          assert forall i :: 0 <= i < |before| ==> before[i] == (before + [audits[n]])[i];
        }
      }
    }
  }

  lemma UnblockedIsInfo(f: ReportFacts, quote: string -> string)
    requires Unblocked(f, quote, true)
    ensures var audits := Findings(f, quote, true);
      forall i :: 0 <= i < |audits| ==> audits[i].severity.Info? && Nonblocking(audits[i])
  {
    var audits := Findings(f, quote, true);
    UnblockedMeans(f, quote, true);
    forall i | 0 <= i < |audits| ensures audits[i].severity.Info? && Nonblocking(audits[i]) {
      var k := FindingIsCheck(f, quote, true, i);
      IssueFacts(k, true);
    }
  }

  /** The report is good enough as it stands: nothing of the baseline is missing, nothing in the audit blocks, and the
      verdict is an acceptance, or relaxed review upgrades a revision that asks for nothing blocking. */
  ghost predicate Acceptable(d: QualityDecision, missing: seq<string>, paragraphs: ParagraphIndex, f: ReportFacts,
      quote: string -> string, threshold: int, relaxed: bool)
  {
    && missing == [] && Unblocked(f, quote, relaxed)
    && var c := CalibrateReviewScope(d, paragraphs, relaxed);
    d.decision.Accept? || (relaxed && c.decision.Revise? && d.score >= threshold && AllWaived(c.issues))
  }

  /** A covered verdict with missing content leads with a finding that relaxed review never waives. */
  lemma MissingContentStays(e: QualityDecision, paragraphs: ParagraphIndex, audits: seq<ReviewIssue>, relaxed: bool)
    requires e.issues != [] && e.issues[0] == CoverageIssue()
    ensures var c := CalibrateReviewScope(e, paragraphs, relaxed);
      MergeAll(c.issues, audits) != [] && !AllNonblocking(Take(MergeAll(c.issues, audits), MAX_ISSUES))
  {
    var c := CalibrateReviewScope(e, paragraphs, relaxed);
    MergeKeepsRanks(c.issues, audits);
    assert c.issues[0] == CoverageIssue();
    assert SameFinding(MergeAll(c.issues, audits)[0], CoverageIssue());
    assert !Nonblocking(Take(MergeAll(c.issues, audits), MAX_ISSUES)[0]);
  }

  /** With an unblocked audit and complete coverage, the audited route is an acceptance exactly as the verdict allows.
      */
  lemma UnblockedRoute(c: QualityDecision, f: ReportFacts, quote: string -> string, threshold: int, relaxed: bool)
    requires Valid(c) && Executable(c) && |c.issues| <= MAX_VERDICT_ISSUES && Unblocked(f, quote, relaxed)
    ensures AuditedRoute(c, Findings(f, quote, relaxed), threshold, relaxed).Accept? <==>
      c.decision.Accept? || (relaxed && c.decision.Revise? && c.score >= threshold && AllNonblocking(c.issues))
  {
    var audits := Findings(f, quote, relaxed);
    UnblockedIff(f, quote, relaxed);
    FindingsFit(f, quote, relaxed);
    RoomKeepsCritical(c, audits);
    AuditFacts(f, quote, relaxed);
    SetChecks(f);
    MergeKeepsRanks(c.issues, audits);
    if relaxed {
      UnblockedIsInfo(f, quote);
      InfoKeepsNonblocking(c.issues, audits);
      assert AllNonblocking(c.issues) ==> !HasCritical(c.issues);
    }
  }

  lemma BlockedRoute(c: QualityDecision, f: ReportFacts, quote: string -> string, threshold: int, relaxed: bool)
    requires !Unblocked(f, quote, relaxed)
    ensures !AuditedRoute(c, Findings(f, quote, relaxed), threshold, relaxed).Accept?
    ensures Findings(f, quote, relaxed) != []
  {
    UnblockedIff(f, quote, relaxed);
  }

  /** When the gate accepts, exactly. */
  lemma AcceptedIff(d: QualityDecision, missing: seq<string>, paragraphs: ParagraphIndex, f: ReportFacts,
      quote: string -> string, threshold: int, relaxed: bool)
    requires FromModel(d)
    ensures GateVerdict(d, missing, paragraphs, f, quote, threshold, relaxed).decision.Accept? <==>
      Acceptable(d, missing, paragraphs, f, quote, threshold, relaxed)
  {
    CoverageFacts(d, missing);
    var e, audits := UpdateCoverage(d, missing).value, Findings(f, quote, relaxed);
    CalibrationIsStable(e, paragraphs, relaxed);
    if !Unblocked(f, quote, relaxed) {
      BlockedRoute(Reviewed(d, missing, paragraphs, relaxed), f, quote, threshold, relaxed);
    } else if missing != [] {
      MissingContentStays(e, paragraphs, audits, relaxed);
    } else {
      CalibrationStaysExecutable(d, paragraphs, relaxed);
      AllNonblockingIff(CalibrateReviewScope(d, paragraphs, relaxed).issues);
      UnblockedRoute(Reviewed(d, missing, paragraphs, relaxed), f, quote, threshold, relaxed);
    }
  }

  /** With room for all findings, the gate asks for a replan exactly when the reviewed verdict does or something
      critical stands on either side. */
  lemma ReplannedIff(d: QualityDecision, missing: seq<string>, paragraphs: ParagraphIndex, f: ReportFacts,
      quote: string -> string, threshold: int, relaxed: bool)
    requires FromModel(d) && (relaxed || Findings(f, quote, relaxed) != [])
    ensures UpdateCoverage(d, missing).Ok?
    ensures var c := Reviewed(d, missing, paragraphs, relaxed);
      GateVerdict(d, missing, paragraphs, f, quote, threshold, relaxed).decision.Replan? <==>
        c.decision.Replan? || HasCritical(c.issues) || LacksEvidence(f)
  {
    CoverageFacts(d, missing);
    CalibrationIsStable(UpdateCoverage(d, missing).value, paragraphs, relaxed);
    AuditFacts(f, quote, relaxed);
    FindingsFit(f, quote, relaxed);
    CriticalForcesReplan(Reviewed(d, missing, paragraphs, relaxed), Findings(f, quote, relaxed), threshold, relaxed);
  }

  /** The gateway's part and the workflow's: coverage, the acceptance score, coverage again, calibration, audit, the two
      execution checks around the local repair, and the acceptance score again. */
  method ReviewReport(d: QualityDecision, missing: seq<string>, paragraphs: ParagraphIndex, f: ReportFacts,
      quote: string -> string, threshold: int, relaxed: bool, reportFirst: bool)
      returns (r: Result<QualityDecision, string>)
    requires FromModel(d) && ACCEPTANCE_SCORE <= threshold <= 100
    // It fails on an acceptance below the threshold, and on a replan that lost its critical finding; on nothing else.
    ensures r.Err? <==>
      || (d.decision.Accept? && missing == [] && d.score < threshold)
      || LosesItsCritical(d, missing, paragraphs, f, relaxed)
    ensures r.Ok? ==>
      var verdict := GateVerdict(d, missing, paragraphs, f, quote, threshold, relaxed);
      && r.value == (if reportFirst then LimitToReportRepair(verdict) else verdict)
      && Executable(r.value) && r.value.score == d.score
      && (r.value.decision.Accept? <==> Acceptable(d, missing, paragraphs, f, quote, threshold, relaxed))
      && (r.value.decision.Accept? ==> r.value.score >= threshold && !HasCritical(r.value.issues))
  {
    CoverageFacts(d, missing);
    GateFailsIff(d, missing, paragraphs, f, quote, threshold, relaxed);
    AcceptedIff(d, missing, paragraphs, f, quote, threshold, relaxed);
    var covered := UpdateCoverage(d, missing).value;
    if covered.decision.Accept? && covered.score < threshold {
      return Err("quality acceptance requires the threshold");
    }
    CoverageIdempotent(d, missing);
    covered := UpdateCoverage(covered, missing).value;
    var audits := AuditReport(f, quote, relaxed);
    r := JudgeReport(covered, paragraphs, audits, threshold, relaxed, reportFirst);
    if r.Ok? && r.value.decision.Accept? && r.value.score < threshold {
      return Err("acceptance score is below the threshold");
    }
  }

  /** A replan whose only critical finding says that content is missing: covered, it is a replan without a critical
      finding, and the execution check refuses it. */
  lemma MissingContentReplanFails(f: ReportFacts, relaxed: bool)
    requires !LacksEvidence(f)
    ensures var critical := CoverageIssue().(severity := Critical);
      var d := QualityDecision(Replan, 40, "r", [critical], []);
      FromModel(d) && LosesItsCritical(d, ["B1"], map[], f, relaxed)
  {
    var critical := CoverageIssue().(severity := Critical);
    var d := QualityDecision(Replan, 40, "r", [critical], []);
    assert d.issues[0].severity.Critical?;
    CoverageFacts(d, ["B1"]);
    assert [critical][1..] == [];
    assert Filter(d.issues, Unrelated()) == [];
    var issues := UpdateCoverage(d, ["B1"]).value.issues;
    assert issues == [CoverageIssue()];
    assert CalibratedAll(issues, map[]) == issues;
  }
}
