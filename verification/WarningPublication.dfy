/** Publishing a manuscript with its disputed paragraphs moved to the limitations
    (backend/src/atlasflow/agents/report_publication.py `build_warning_publication`). */
module WarningPublication {
  import opened Common
  import opened CodeMask
  import opened Splice
  import Q = QualityVerdict

  /** Issues about missing material rather than about an assertion. */
  const OMISSIONS := {
    "missing_limitation", "report_update_missing_content", "report_missing_sections", "presentation_style",
    "presentation_completeness", "report_too_brief", "report_limitation_note", "report_optional_detail"}

  const PLACEHOLDER := "\n\n本节相关资料见文末局限，本次不据此形成确定结论。\n\n"

  /** The body with its paragraphs: spans in order, ids aligned with them, nearest heading, and whether that heading is
      the abstract's or the conclusion's. */
  datatype Manuscript = Manuscript(
    body: string, spans: seq<Span>, ids: seq<string>, titles: seq<string>, concluding: seq<bool>)

  ghost predicate Aligned(m: Manuscript) {
    && SpansInOrder(m.spans, |m.body|)
    && |m.ids| == |m.titles| == |m.concluding| == |m.spans|
    && AllDistinct(m.ids)
  }

  /** Where an issue points: explicit anchors, quotes or the fuzzy fallback. */
  type Locator = Q.ReviewIssue -> set<string>

  /** Removes invalid references; the flag says whether any was found. */
  type Cleaner = string -> (string, bool)

  /** A warning or critical issue about something the text asserts. */
  predicate Disputes(issue: Q.ReviewIssue) {
    !issue.severity.Info? && issue.code !in OMISSIONS
  }

  predicate Restricts(issue: Q.ReviewIssue, locate: Locator) {
    Disputes(issue) && issue.severity.Critical?
    && (issue.scope.Core? || (locate(issue) == {} && issue.scope.Unknown?))
  }

  predicate Disputed(issues: seq<Q.ReviewIssue>, locate: Locator, id: string) {
    exists k :: 0 <= k < |issues| && Disputes(issues[k]) && id in locate(issues[k])
  }

  predicate ConclusionsRestricted(issues: seq<Q.ReviewIssue>, locate: Locator, withhold: bool) {
    withhold || exists k :: 0 <= k < |issues| && Restricts(issues[k], locate)
  }

  function Text(m: Manuscript, i: nat): string
    requires SpansInOrder(m.spans, |m.body|) && i < |m.spans|
  {
    m.body[m.spans[i].start..m.spans[i].finish]
  }

  /** Paragraph i does not stay in the body. */
  predicate Withheld(m: Manuscript, issues: seq<Q.ReviewIssue>, locate: Locator, clean: Cleaner, withhold: bool, i: nat)
    requires SpansInOrder(m.spans, |m.body|) && |m.ids| == |m.concluding| == |m.spans| && i < |m.spans|
  {
    || Disputed(issues, locate, m.ids[i])
    || (ConclusionsRestricted(issues, locate, withhold) && m.concluding[i])
    || clean(Text(m, i)).1
  }

  // ----- Which paragraphs stay, told from the issues -----

  /** An issue that asks for something missing, or for better form. */
  ghost predicate IsOmission(code: string) {
    || code == "missing_limitation" || code == "report_update_missing_content" || code == "report_missing_sections"
    || code == "presentation_style" || code == "presentation_completeness" || code == "report_too_brief"
    || code == "report_limitation_note" || code == "report_optional_detail"
  }

  /** The issue speaks against what the text says. */
  ghost predicate SpeaksAgainst(issue: Q.ReviewIssue) {
    (issue.severity == Q.Warning || issue.severity == Q.Critical) && !IsOmission(issue.code)
  }

  /** A critical one about the core, or of unknown scope that points nowhere, holds the conclusions back. */
  ghost predicate HoldsConclusions(issue: Q.ReviewIssue, locate: Locator) {
    && SpeaksAgainst(issue) && issue.severity == Q.Critical
    && (issue.scope == Q.Core || (issue.scope == Q.Scope.Unknown && forall id :: id !in locate(issue)))
  }

  /** Nothing keeps paragraph i from staying in the body. */
  ghost predicate MayStay(m: Manuscript, issues: seq<Q.ReviewIssue>, locate: Locator, clean: Cleaner, withhold: bool,
      i: nat)
    requires Aligned(m) && i < |m.spans|
  {
    && (forall k :: 0 <= k < |issues| ==> !(SpeaksAgainst(issues[k]) && m.ids[i] in locate(issues[k])))
    && (m.concluding[i] ==> !withhold && forall k :: 0 <= k < |issues| ==> !HoldsConclusions(issues[k], locate))
    && !clean(Text(m, i)).1
  }

  lemma DisputesIff(issue: Q.ReviewIssue, locate: Locator)
    ensures Disputes(issue) <==> SpeaksAgainst(issue)
    ensures Restricts(issue, locate) <==> HoldsConclusions(issue, locate)
  {
    assert issue.code in OMISSIONS <==> IsOmission(issue.code);
    assert locate(issue) == {} <==> forall id :: id !in locate(issue);
  }

  /** A paragraph is withheld exactly when something keeps it from staying. */
  lemma WithheldIff(m: Manuscript, issues: seq<Q.ReviewIssue>, locate: Locator, clean: Cleaner, withhold: bool, i: nat)
    requires Aligned(m) && i < |m.spans|
    ensures Withheld(m, issues, locate, clean, withhold, i) <==> !MayStay(m, issues, locate, clean, withhold, i)
  {
    forall k | 0 <= k < |issues|
      ensures Disputes(issues[k]) <==> SpeaksAgainst(issues[k])
      ensures Restricts(issues[k], locate) <==> HoldsConclusions(issues[k], locate)
    {
      DisputesIff(issues[k], locate);
    }
  }

  /** One paragraph set aside for the limitations. */
  datatype Pending = Pending(title: string, text: string)

  function Unplaced(locate: Locator): Q.ReviewIssue -> bool {
    (issue: Q.ReviewIssue) => Disputes(issue) && locate(issue) == {}
  }

  lemma UnplacedSnoc(issues: seq<Q.ReviewIssue>, k: nat, locate: Locator)
    requires k < |issues|
    ensures Filter(issues[..k + 1], Unplaced(locate)) ==
      Filter(issues[..k], Unplaced(locate)) +
        if Disputes(issues[k]) && locate(issues[k]) == {} then [issues[k]] else []
  {
    assert issues[..k + 1] == issues[..k] + [issues[k]];
    FilterAppend(issues[..k], [issues[k]], Unplaced(locate));
    assert [issues[k]][1..] == [];
  }

  /** The loop over the issues: the marked paragraphs by index, and whether conclusions are restricted. */
  method MarkParagraphs(m: Manuscript, issues: seq<Q.ReviewIssue>, locate: Locator, withhold: bool)
      returns (marked: set<nat>, restricted: bool, unlocated: seq<Q.ReviewIssue>)
    requires Aligned(m)
    ensures restricted == ConclusionsRestricted(issues, locate, withhold)
    ensures forall i :: i in marked <==>
      0 <= i < |m.ids| && (Disputed(issues, locate, m.ids[i]) || (restricted && m.concluding[i]))
    ensures unlocated == Filter(issues, Unplaced(locate))
  {
    marked, restricted, unlocated := {}, withhold, [];
    for k := 0 to |issues|
      invariant restricted == ConclusionsRestricted(issues[..k], locate, withhold)
      invariant forall i :: i in marked <==> 0 <= i < |m.ids| && Disputed(issues[..k], locate, m.ids[i])
      invariant unlocated == Filter(issues[..k], Unplaced(locate))
    {
      var issue := issues[k];
      UnplacedSnoc(issues, k, locate);
      DisputedSnoc(issues, k, locate, withhold);
      if Disputes(issue) {
        var locations := locate(issue);
        var matches := set i | 0 <= i < |m.ids| && m.ids[i] in locations :: i;
        marked := marked + matches;
        if locations == {} {
          unlocated := unlocated + [issue];
        }
        if issue.severity.Critical? && (issue.scope.Core? || (locations == {} && issue.scope.Unknown?)) {
          restricted := true;
        }
      }
    }
    assert issues[..|issues|] == issues;
    if restricted {
      marked := marked + set i | 0 <= i < |m.ids| && m.concluding[i] :: i;
    }
  }

  lemma DisputedSnoc(issues: seq<Q.ReviewIssue>, k: nat, locate: Locator, withhold: bool)
    requires k < |issues|
    ensures forall issue :: issue in issues[..k + 1] <==> issue in issues[..k] || issue == issues[k]
    ensures forall id :: Disputed(issues[..k + 1], locate, id) <==>
      Disputed(issues[..k], locate, id) || (Disputes(issues[k]) && id in locate(issues[k]))
    ensures ConclusionsRestricted(issues[..k + 1], locate, withhold) <==>
      ConclusionsRestricted(issues[..k], locate, withhold) || Restricts(issues[k], locate)
  {
    var before, after := issues[..k], issues[..k + 1];
    assert after == before + [issues[k]];
    forall id ensures Disputed(after, locate, id) <==>
        Disputed(before, locate, id) || (Disputes(issues[k]) && id in locate(issues[k]))
    {
      if Disputed(before, locate, id) {
        var j :| 0 <= j < |before| && Disputes(before[j]) && id in locate(before[j]);
        assert after[j] == before[j];
      }
      assert after[k] == issues[k];
    }
    if j :| 0 <= j < |before| && Restricts(before[j], locate) {
      assert Restricts(after[j], locate);
    }
    assert after[k] == issues[k];
  }

  function ParagraphEdit(m: Manuscript, i: nat, out: nat -> bool, clean: Cleaner): (e: Edit)
    requires SpansInOrder(m.spans, |m.body|) && i < |m.spans|
    ensures e.start == m.spans[i].start && e.finish == m.spans[i].finish
  {
    Edit(m.spans[i].start, m.spans[i].finish, if out(i) then "" else clean(Text(m, i)).0)
  }

  /** The edits of the loop over the paragraphs: withheld ones emptied, the others cleaned. */
  function ParagraphEdits(m: Manuscript, out: nat -> bool, clean: Cleaner): (r: seq<Edit>)
    requires SpansInOrder(m.spans, |m.body|)
    ensures |r| == |m.spans| && InOrder(r, |m.body|)
    ensures forall i :: 0 <= i < |r| ==> r[i] == ParagraphEdit(m, i, out, clean)
  {
    seq(|m.spans|, i requires 0 <= i < |m.spans| => ParagraphEdit(m, i, out, clean))
  }

  /** The withheld paragraphs among the first n, cleaned, in order. */
  function PendingOf(m: Manuscript, n: nat, out: nat -> bool, clean: Cleaner): seq<Pending>
    requires SpansInOrder(m.spans, |m.body|) && n <= |m.spans| == |m.titles|
  {
    if n == 0 then []
    else if out(n - 1) then PendingOf(m, n - 1, out, clean) + [Pending(m.titles[n - 1], clean(Text(m, n - 1)).0)]
    else PendingOf(m, n - 1, out, clean)
  }

  /** How many of the first n paragraphs are withheld: the place of the next one in the pending list. */
  function WithheldBefore(n: nat, out: nat -> bool): nat {
    if n == 0 then 0 else WithheldBefore(n - 1, out) + (if out(n - 1) then 1 else 0)
  }

  /** Paragraph i is marked, or turns out to hold an invalid reference. */
  function OutOf(m: Manuscript, marked: set<nat>, clean: Cleaner): nat -> bool
    requires SpansInOrder(m.spans, |m.body|)
  {
    (i: nat) => i < |m.spans| && (i in marked || clean(Text(m, i)).1)
  }

  /** The loop over the paragraphs: one edit each, and the withheld ones set aside. */
  method CollectEdits(m: Manuscript, marked: set<nat>, clean: Cleaner)
      returns (edits: seq<Edit>, pending: seq<Pending>)
    requires Aligned(m)
    ensures edits == ParagraphEdits(m, OutOf(m, marked, clean), clean)
    ensures pending == PendingOf(m, |m.spans|, OutOf(m, marked, clean), clean)
  {
    ghost var out := OutOf(m, marked, clean);
    ghost var all := ParagraphEdits(m, out, clean);
    edits, pending := [], [];
    for i := 0 to |m.spans|
      invariant edits == all[..i]
      invariant pending == PendingOf(m, i, out, clean)
    {
      var (fragment, invalid) := clean(Text(m, i));
      if invalid || i in marked {
        pending := pending + [Pending(m.titles[i], fragment)];
        fragment := "";
      }
      assert all[i] == ParagraphEdit(m, i, out, clean);
      edits := edits + [Edit(m.spans[i].start, m.spans[i].finish, fragment)];
    }
  }

  function WithheldIn(m: Manuscript, issues: seq<Q.ReviewIssue>, locate: Locator, clean: Cleaner, withhold: bool)
      : nat -> bool
    requires Aligned(m)
  {
    (i: nat) => i < |m.spans| && Withheld(m, issues, locate, clean, withhold, i)
  }

  /** These are the paragraphs that something keeps from staying. */
  ghost predicate LeavesOut(out: nat -> bool, m: Manuscript, issues: seq<Q.ReviewIssue>, locate: Locator,
      clean: Cleaner, withhold: bool)
    requires Aligned(m)
  {
    forall i: nat :: i < |m.spans| ==> (out(i) <==> !MayStay(m, issues, locate, clean, withhold, i))
  }

  lemma WithheldAre(m: Manuscript, issues: seq<Q.ReviewIssue>, locate: Locator, clean: Cleaner, withhold: bool)
    requires Aligned(m)
    ensures LeavesOut(WithheldIn(m, issues, locate, clean, withhold), m, issues, locate, clean, withhold)
  {
    forall i: nat | i < |m.spans|
      ensures Withheld(m, issues, locate, clean, withhold, i) <==> !MayStay(m, issues, locate, clean, withhold, i)
    {
      WithheldIff(m, issues, locate, clean, withhold, i);
    }
  }

  /** From the issues to the new body and the pending list. */
  method WithholdParagraphs(m: Manuscript, issues: seq<Q.ReviewIssue>, locate: Locator, clean: Cleaner, withhold: bool)
      returns (body: string, pending: seq<Pending>)
    requires Aligned(m)
    ensures body == Substituted(m.body, ParagraphEdits(m, WithheldIn(m, issues, locate, clean, withhold), clean), 0)
    ensures pending == PendingOf(m, |m.spans|, WithheldIn(m, issues, locate, clean, withhold), clean)
  {
    var marked, restricted, unlocated := MarkParagraphs(m, issues, locate, withhold);
    var edits;
    edits, pending := CollectEdits(m, marked, clean);
    SameChoice(m, OutOf(m, marked, clean), WithheldIn(m, issues, locate, clean, withhold), clean);
    body := RewriteFromLast(m.body, edits);
  }

  lemma SameChoice(m: Manuscript, a: nat -> bool, b: nat -> bool, clean: Cleaner)
    requires Aligned(m) && forall i: nat :: i < |m.spans| ==> a(i) == b(i)
    ensures ParagraphEdits(m, a, clean) == ParagraphEdits(m, b, clean)
    ensures PendingOf(m, |m.spans|, a, clean) == PendingOf(m, |m.spans|, b, clean)
  {
    SamePending(m, |m.spans|, a, b, clean);
  }

  lemma {:induction false} SamePending(m: Manuscript, n: nat, a: nat -> bool, b: nat -> bool, clean: Cleaner)
    requires Aligned(m) && n <= |m.spans| && forall i: nat :: i < n ==> a(i) == b(i)
    ensures PendingOf(m, n, a, clean) == PendingOf(m, n, b, clean)
  {
    if n > 0 {
      SamePending(m, n - 1, a, b, clean);
    }
  }

  lemma {:induction false} PendingPlace(m: Manuscript, n: nat, out: nat -> bool, clean: Cleaner, i: nat)
    requires SpansInOrder(m.spans, |m.body|) && n <= |m.spans| == |m.titles| && i < n && out(i)
    ensures |PendingOf(m, n, out, clean)| == WithheldBefore(n, out) && WithheldBefore(i, out) < WithheldBefore(n, out)
    ensures PendingOf(m, n, out, clean)[WithheldBefore(i, out)] == Pending(m.titles[i], clean(Text(m, i)).0)
  {
    PendingCount(m, n, out, clean);
    PendingCount(m, n - 1, out, clean);
    if i < n - 1 {
      PendingPlace(m, n - 1, out, clean, i);
    }
  }

  lemma {:induction false} PendingCount(m: Manuscript, n: nat, out: nat -> bool, clean: Cleaner)
    requires SpansInOrder(m.spans, |m.body|) && n <= |m.spans| == |m.titles|
    ensures |PendingOf(m, n, out, clean)| == WithheldBefore(n, out)
  {
    if n > 0 {
      PendingCount(m, n - 1, out, clean);
    }
  }

  /** The text stands at this position of the body. */
  ghost predicate StandsAt(body: string, at: int, text: string) {
    0 <= at && at + |text| <= |body| && body[at..at + |text|] == text
  }

  /** No paragraph is lost: a withheld one leaves nothing in the body and takes its own place in the pending list, every
      other one stays cleaned in the body, where it stood. */
  lemma NoParagraphLost(m: Manuscript, out: nat -> bool, clean: Cleaner, i: nat)
    requires Aligned(m) && i < |m.spans|
    ensures var edits, pending := ParagraphEdits(m, out, clean), PendingOf(m, |m.spans|, out, clean);
      if out(i) then
        && edits[i].text == "" && WithheldBefore(i, out) < |pending|
        && pending[WithheldBefore(i, out)] == Pending(m.titles[i], clean(Text(m, i)).0)
      else
        StandsAt(Substituted(m.body, edits, 0), m.spans[i].start + Shift(edits, i), clean(Text(m, i)).0)
  {
    if out(i) {
      PendingCount(m, |m.spans|, out, clean);
      PendingPlace(m, |m.spans|, out, clean, i);
    } else {
      ReplacementPlaced(m.body, ParagraphEdits(m, out, clean), i);
    }
  }

  /** The pending list holds nothing else: each entry is one withheld paragraph. */
  lemma {:induction false} PendingOnlyWithheld(m: Manuscript, n: nat, out: nat -> bool, clean: Cleaner, k: nat)
      returns (i: nat)
    requires SpansInOrder(m.spans, |m.body|) && n <= |m.spans| == |m.titles| && k < |PendingOf(m, n, out, clean)|
    ensures i < n && out(i) && WithheldBefore(i, out) == k
  {
    PendingCount(m, n - 1, out, clean);
    PendingCount(m, n, out, clean);
    if k < |PendingOf(m, n - 1, out, clean)| {
      i := PendingOnlyWithheld(m, n - 1, out, clean, k);
    } else {
      i := n - 1;
    }
  }

  // ----- Emptied sections -----

  /** The text of section k: from the end of its heading to the next heading. */
  function SectionEnd(headings: seq<Span>, k: nat, n: nat): nat
    requires k < |headings|
  {
    if k + 1 < |headings| then headings[k + 1].start else n
  }

  function Section(body: string, headings: seq<Span>, k: nat): string
    requires SpansInOrder(headings, |body|) && k < |headings|
  {
    body[headings[k].finish..SectionEnd(headings, k, |body|)]
  }

  /** The placeholder for an emptied section, its own text otherwise. */
  function SectionEdit(body: string, headings: seq<Span>, substantive: string -> bool, k: nat): (e: Edit)
    requires SpansInOrder(headings, |body|) && k < |headings|
    ensures e.start == headings[k].finish && e.finish == SectionEnd(headings, k, |body|)
  {
    var section := Section(body, headings, k);
    Edit(headings[k].finish, SectionEnd(headings, k, |body|), if substantive(section) then section else PLACEHOLDER)
  }

  function SectionEdits(body: string, headings: seq<Span>, substantive: string -> bool): (r: seq<Edit>)
    requires SpansInOrder(headings, |body|)
    ensures |r| == |headings|
    ensures forall k :: 0 <= k < |r| ==> r[k] == SectionEdit(body, headings, substantive, k)
    ensures InOrder(r, |body|)
  {
    seq(|headings|, k requires 0 <= k < |headings| => SectionEdit(body, headings, substantive, k))
  }

  /** The loop that keeps emptied sections understandable, from the last section to the first. */
  method FillEmptiedSections(body: string, headings: seq<Span>, substantive: string -> bool) returns (r: string)
    requires SpansInOrder(headings, |body|)
    ensures r == Substituted(body, SectionEdits(body, headings, substantive), 0)
  {
    ghost var edits := SectionEdits(body, headings, substantive);
    r := body;
    assert body == body[0..];
    assert edits[|edits|..] == [];
    for k := |headings| downto 0
      invariant r == Substituted(body, edits[k..], 0)
    {
      var start := headings[k].finish;
      var finish := if k + 1 < |headings| then headings[k + 1].start else |body|;
      BeforeSection(body, headings, substantive, k);
      if !substantive(r[start..finish]) {
        r := r[..start] + PLACEHOLDER + r[finish..];
      }
    }
    assert edits[0..] == edits;
  }

  /** Reading the edits from k on: nothing before edit k changes. */
  lemma ReadFromEdit(body: string, edits: seq<Edit>, k: nat)
    requires InOrder(edits, |body|) && k < |edits|
    ensures Substituted(body, edits[k + 1..], 0) ==
      body[..edits[k].finish] + Substituted(body, edits[k + 1..], edits[k].finish)
    ensures Substituted(body, edits[k..], 0) ==
      body[..edits[k].start] + edits[k].text + Substituted(body, edits[k + 1..], edits[k].finish)
  {
    SubstitutedFrom(body, edits[k + 1..], 0, edits[k].finish);
    assert edits[k..][0] == edits[k] && edits[k..][1..] == edits[k + 1..];
  }

  lemma CutOut(body: string, tail: string, start: nat, finish: nat)
    requires start <= finish <= |body|
    ensures var r := body[..finish] + tail;
      r[start..finish] == body[start..finish] && r[..start] == body[..start] && r[finish..] == tail
    ensures body[..start] + body[start..finish] == body[..finish]
  {
  }

  /** When the loop reaches section k, that section is still as it was, and replacing it is the next edit. */
  lemma BeforeSection(body: string, headings: seq<Span>, substantive: string -> bool, k: nat)
    requires SpansInOrder(headings, |body|) && k < |headings|
    ensures var edits := SectionEdits(body, headings, substantive);
      var r, start, finish := Substituted(body, edits[k + 1..], 0), headings[k].finish, SectionEnd(headings, k, |body|);
      && start <= finish <= |r| && r[start..finish] == Section(body, headings, k)
      && Substituted(body, edits[k..], 0) ==
         if substantive(r[start..finish]) then r else r[..start] + PLACEHOLDER + r[finish..]
  {
    var edits := SectionEdits(body, headings, substantive);
    var start, finish := headings[k].finish, SectionEnd(headings, k, |body|);
    ReadFromEdit(body, edits, k);
    CutOut(body, Substituted(body, edits[k + 1..], finish), start, finish);
  }

  /** What the final body shows of section k, and where. */
  function FinalSection(body: string, headings: seq<Span>, substantive: string -> bool, k: nat): string
    requires SpansInOrder(headings, |body|) && k < |headings|
  {
    SectionEdit(body, headings, substantive, k).text
  }

  function SectionPlace(body: string, headings: seq<Span>, substantive: string -> bool, k: nat): int
    requires SpansInOrder(headings, |body|) && k < |headings|
  {
    headings[k].finish + Shift(SectionEdits(body, headings, substantive), k)
  }

  /** Each section stands in the final body, verbatim if it is substantive, otherwise as the placeholder and nothing
      else. */
  lemma {:induction false} SectionSurvivesIffSubstantive(body: string, headings: seq<Span>,
      substantive: string -> bool, k: nat)
    requires SpansInOrder(headings, |body|) && k < |headings|
    ensures var shown := FinalSection(body, headings, substantive, k);
      && StandsAt(Substituted(body, SectionEdits(body, headings, substantive), 0),
           SectionPlace(body, headings, substantive, k), shown)
      && shown == if substantive(Section(body, headings, k)) then Section(body, headings, k) else PLACEHOLDER
  {
    ReplacementPlaced(body, SectionEdits(body, headings, substantive), k);
  }

  // ----- From the draft to the final body -----

  /** The heading finder for the masked view of a text: sorted, disjoint spans inside it. */
  ghost predicate FindsHeadings(headings: string -> seq<Span>) {
    forall s :: SpansInOrder(headings(s), |s|)
  }

  /** The body after the paragraph edits. */
  function Rewritten(m: Manuscript, out: nat -> bool, clean: Cleaner): string
    requires SpansInOrder(m.spans, |m.body|)
  {
    Substituted(m.body, ParagraphEdits(m, out, clean), 0)
  }

  function PublishedBody(m: Manuscript, out: nat -> bool, clean: Cleaner, headings: string -> seq<Span>,
      substantive: string -> bool): string
    requires SpansInOrder(m.spans, |m.body|) && FindsHeadings(headings)
  {
    var body := Rewritten(m, out, clean);
    Substituted(body, SectionEdits(body, headings(body), substantive), 0)
  }

  /** Both stages: the headings are looked up in the text the first stage left. */
  method PublishBody(m: Manuscript, issues: seq<Q.ReviewIssue>, locate: Locator, clean: Cleaner, withhold: bool,
      headings: string -> seq<Span>, substantive: string -> bool) returns (body: string, pending: seq<Pending>)
    requires Aligned(m) && FindsHeadings(headings)
    ensures var out := WithheldIn(m, issues, locate, clean, withhold);
      && LeavesOut(out, m, issues, locate, clean, withhold)
      && body == PublishedBody(m, out, clean, headings, substantive)
      && pending == PendingOf(m, |m.spans|, out, clean)
  {
    body, pending := WithholdParagraphs(m, issues, locate, clean, withhold);
    WithheldAre(m, issues, locate, clean, withhold);
    body := FillEmptiedSections(body, headings(body), substantive);
  }

  /** Where paragraph i stands in the rewritten body. */
  function ParagraphPlace(m: Manuscript, out: nat -> bool, clean: Cleaner, i: nat): int
    requires SpansInOrder(m.spans, |m.body|) && i < |m.spans|
  {
    m.spans[i].start + Shift(ParagraphEdits(m, out, clean), i)
  }

  /** Paragraph i, kept, lies in the text of section k of the rewritten body. */
  ghost predicate LiesIn(m: Manuscript, out: nat -> bool, clean: Cleaner, headings: seq<Span>, i: nat, k: nat)
    requires SpansInOrder(m.spans, |m.body|) && i < |m.spans|
  {
    var body, at := Rewritten(m, out, clean), ParagraphPlace(m, out, clean, i);
    && SpansInOrder(headings, |body|) && k < |headings|
    && headings[k].finish <= at && at + |clean(Text(m, i)).0| <= SectionEnd(headings, k, |body|)
  }

  /** End to end: a withheld paragraph is in the pending list at its place. A kept one, in section k, stands in what the
      final body shows of that section if and only if the section is substantive, or the text is a piece of the
      placeholder anyway; and in a substantive section it stands exactly where it stood. */
  lemma ParagraphEndToEnd(m: Manuscript, out: nat -> bool, clean: Cleaner, headings: string -> seq<Span>,
      substantive: string -> bool, i: nat, k: nat)
    requires Aligned(m) && FindsHeadings(headings) && i < |m.spans|
    requires !out(i) ==> LiesIn(m, out, clean, headings(Rewritten(m, out, clean)), i, k)
    ensures out(i) ==>
      var pending := PendingOf(m, |m.spans|, out, clean);
      && WithheldBefore(i, out) < |pending|
      && pending[WithheldBefore(i, out)] == Pending(m.titles[i], clean(Text(m, i)).0)
    ensures !out(i) ==>
      var body := Rewritten(m, out, clean);
      ShownIffSubstantive(body, PublishedBody(m, out, clean, headings, substantive), headings(body), substantive, k,
        ParagraphPlace(m, out, clean, i), clean(Text(m, i)).0)
  {
    NoParagraphLost(m, out, clean, i);
    if !out(i) {
      var body := Rewritten(m, out, clean);
      PieceShown(body, headings(body), substantive, k, ParagraphPlace(m, out, clean, i), clean(Text(m, i)).0);
    }
  }

  /** What becomes of a text that stands at a place of section k. */
  ghost predicate ShownIffSubstantive(body: string, final: string, headings: seq<Span>, substantive: string -> bool,
      k: nat, at: int, text: string)
    requires SpansInOrder(headings, |body|) && k < |headings|
  {
    var kept, shown := substantive(Section(body, headings, k)), FinalSection(body, headings, substantive, k);
    && StandsAt(final, SectionPlace(body, headings, substantive, k), shown)
    && (Occurs(text, shown) <==> kept || Occurs(text, PLACEHOLDER))
    && (kept ==> StandsAt(final, at + Shift(SectionEdits(body, headings, substantive), k), text))
  }

  /** The second stage on any piece of text inside section k. */
  lemma {:induction false} PieceShown(body: string, headings: seq<Span>, substantive: string -> bool, k: nat, at: int,
      text: string)
    requires SpansInOrder(headings, |body|) && k < |headings| && StandsAt(body, at, text)
    requires headings[k].finish <= at && at + |text| <= SectionEnd(headings, k, |body|)
    ensures ShownIffSubstantive(body, Substituted(body, SectionEdits(body, headings, substantive), 0), headings,
      substantive, k, at, text)
  {
    var section := Section(body, headings, k);
    SectionSurvivesIffSubstantive(body, headings, substantive, k);
    PieceOfSection(body, headings, k, at, text);
    if substantive(section) {
      PieceKept(Substituted(body, SectionEdits(body, headings, substantive), 0), body, headings, k, at,
        Shift(SectionEdits(body, headings, substantive), k), text);
    }
  }

  lemma PieceKept(final: string, body: string, headings: seq<Span>, k: nat, at: int, shift: int, text: string)
    requires SpansInOrder(headings, |body|) && k < |headings| && headings[k].finish <= at
    requires StandsAt(final, headings[k].finish + shift, Section(body, headings, k))
    requires StandsAt(Section(body, headings, k), at - headings[k].finish, text)
    ensures StandsAt(final, at + shift, text)
  {
    PieceOfPiece(final, headings[k].finish + shift, Section(body, headings, k), at - headings[k].finish, text);
  }

  lemma PieceOfSection(body: string, headings: seq<Span>, k: nat, at: int, text: string)
    requires SpansInOrder(headings, |body|) && k < |headings| && StandsAt(body, at, text)
    requires headings[k].finish <= at && at + |text| <= SectionEnd(headings, k, |body|)
    ensures StandsAt(Section(body, headings, k), at - headings[k].finish, text)
    ensures Occurs(text, Section(body, headings, k))
  {
    var section, offset := Section(body, headings, k), at - headings[k].finish;
    forall j | 0 <= j < |text| ensures section[offset + j] == text[j] {
      assert body[at..at + |text|][j] == text[j];
    }
    assert OccursAt(text, section, offset);
  }

  lemma PieceOfPiece(whole: string, at: int, piece: string, offset: int, text: string)
    requires StandsAt(whole, at, piece) && StandsAt(piece, offset, text)
    ensures StandsAt(whole, at + offset, text)
  {
    forall j | 0 <= j < |text| ensures whole[at + offset + j] == text[j] {
      assert whole[at..at + |piece|][offset + j] == piece[offset + j];
      assert piece[offset..offset + |text|][j] == text[j];
    }
  }

  // ----- A kept paragraph that is lost -----

  /** `usable_manuscript`: some paragraph is substantive. */
  ghost predicate Usable(m: Manuscript, substantive: string -> bool)
    requires SpansInOrder(m.spans, |m.body|)
  {
    exists i :: 0 <= i < |m.spans| && substantive(Text(m, i))
  }

  /** Two sections of one paragraph each. */
  function TwoSections(first: string, text: string, second: string, symbols: string): Manuscript {
    var a := |first|;
    var b := a + |text|;
    var c := b + |second|;
    Manuscript(first + text + second + symbols, [Span(a, b), Span(c, c + |symbols|)], ["P0001", "P0002"],
      [first, second], [false, false])
  }

  /** In a usable draft that no issue disputes, a paragraph of symbols alone in its section is lost: it is neither in
      the final body nor in the pending list. */
  lemma SymbolsLostFromUsableDraft(first: string, text: string, second: string, symbols: string,
      headings: string -> seq<Span>, substantive: string -> bool, clean: Cleaner)
    requires substantive(text) && !substantive(symbols)
    requires clean(text) == (text, false) && clean(symbols) == (symbols, false)
    requires FindsHeadings(headings)
    requires headings(first + text + second + symbols)
      == [Span(0, |first|), Span(|first| + |text|, |first| + |text| + |second|)]
    ensures var m, out := TwoSections(first, text, second, symbols), (i: nat) => false;
      && Aligned(m) && Usable(m, substantive)
      && PublishedBody(m, out, clean, headings, substantive) == first + text + second + PLACEHOLDER
      && PendingOf(m, |m.spans|, out, clean) == []
  {
    var m, out := TwoSections(first, text, second, symbols), (i: nat) => false;
    TwoTexts(first, text, second, symbols);
    assert substantive(Text(m, 0));
    var edits := ParagraphEdits(m, out, clean);
    forall i | 0 <= i < |edits| ensures edits[i].text == m.body[edits[i].start..edits[i].finish] {
      assert edits[i] == ParagraphEdit(m, i, out, clean);
    }
    PuttingBackChangesNothing(m.body, edits, 0);
    assert m.body[0..] == m.body;
    TwoSectionsFilled(first, text, second, symbols, substantive);
    assert !out(0) && !out(1);
    assert PendingOf(m, 1, out, clean) == [];
  }

  lemma TwoTexts(first: string, text: string, second: string, symbols: string)
    ensures var m := TwoSections(first, text, second, symbols);
      Aligned(m) && Text(m, 0) == text && Text(m, 1) == symbols
  {
    var m := TwoSections(first, text, second, symbols);
    assert m.body == first + text + (second + symbols) == (first + text + second) + symbols;
  }

  lemma TwoSectionsFilled(first: string, text: string, second: string, symbols: string, substantive: string -> bool)
    requires substantive(text) && !substantive(symbols)
    ensures var body := first + text + second + symbols;
      var hs := [Span(0, |first|), Span(|first| + |text|, |first| + |text| + |second|)];
      SpansInOrder(hs, |body|)
      && Substituted(body, SectionEdits(body, hs, substantive), 0) == first + text + second + PLACEHOLDER
  {
    var body := first + text + second + symbols;
    var hs := [Span(0, |first|), Span(|first| + |text|, |first| + |text| + |second|)];
    assert body == first + text + (second + symbols) == (first + text + second) + symbols;
    assert Section(body, hs, 0) == text && Section(body, hs, 1) == symbols;
    var edits := SectionEdits(body, hs, substantive);
    assert edits[0] == Edit(|first|, |first| + |text|, text);
    assert edits[1] == Edit(|first| + |text| + |second|, |body|, PLACEHOLDER);
    assert edits[1..] == [edits[1]] && edits[1..][1..] == [];
    assert body[0..|first|] == first && body[|first| + |text|..|first| + |text| + |second|] == second;
    assert body[|body|..] == "";
    assert Substituted(body, edits[1..], |first| + |text|) == second + PLACEHOLDER + "";
  }
}
