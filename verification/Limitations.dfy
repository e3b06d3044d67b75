/** Adding missing warnings to a report (frontend/lib/report-document.ts `reportWithLimitations`). */
module Limitations {
  import opened Common
  import opened Fences
  import opened HeadingScan

  function Solid(): char -> bool {
    (c: char) => !JsSpace(c)
  }

  /** `value.replace(/\s+/g, "")`. */
  function Compact(s: string): string {
    Filter(s, Solid())
  }

  // ----- Warnings -----

  const CONTROLS := {'\\', '`', '*', '_', '[', ']', '<', '>', '#'}

  /** A backslash before every Markdown control. */
  function Plain(s: string): string {
    if s == "" then ""
    else (if s[0] in CONTROLS then ['\\', s[0]] else [s[0]]) + Plain(s[1..])
  }

  /** `item.replace(/[\r\n]+/g, " ")`; `inBreak` says that the break before s was already replaced. */
  function OneLine(s: string, inBreak: bool): (r: string)
    ensures '\n' !in r && '\r' !in r
    ensures '#' in r ==> '#' in s
  {
    if s == "" then ""
    else if s[0] == '\r' || s[0] == '\n' then (if inBreak then "" else " ") + OneLine(s[1..], true)
    else [s[0]] + OneLine(s[1..], false)
  }

  function Cleaned(warning: string): string {
    Trim(OneLine(warning, false))
  }

  function AllCleaned(warnings: seq<string>): (r: seq<string>)
    ensures |r| == |warnings| && forall i :: 0 <= i < |r| ==> r[i] == Cleaned(warnings[i])
  {
    seq(|warnings|, i requires 0 <= i < |warnings| => Cleaned(warnings[i]))
  }

  /** The text shows the item, verbatim or escaped, whatever the spacing. */
  predicate Findable(text: string, item: string) {
    Occurs(Compact(item), Compact(text)) || Occurs(Compact(Plain(item)), Compact(text))
  }

  function Lacks(report: string): string -> bool {
    (item: string) => item != "" && !Findable(report, item)
  }

  function Missing(report: string, warnings: seq<string>): seq<string> {
    Filter(Dedupe(AllCleaned(warnings)), Lacks(report))
  }

  // ----- Where the warnings go -----

  const BIBLIOGRAPHIES := {"参考文献", "来源"}
  const LIMITATIONS := {"局限", "局限与待核实事项", "局限与不确定性"}

  /** `findIndex`, with the length for "none". */
  function FirstIndex(headings: seq<Heading>, p: Heading -> bool): (k: nat)
    ensures k <= |headings| && (k < |headings| ==> p(headings[k]))
    ensures forall i :: 0 <= i < k ==> !p(headings[i])
  {
    if headings == [] || p(headings[0]) then 0 else 1 + FirstIndex(headings[1..], p)
  }

  function Bibliography(): Heading -> bool {
    (h: Heading) => h.title in BIBLIOGRAPHIES
  }

  function LimitationsBefore(boundary: nat): Heading -> bool {
    (h: Heading) => h.start < boundary && h.title in LIMITATIONS
  }

  function StartOf(headings: seq<Heading>, k: nat, length: nat): nat {
    if k < |headings| then headings[k].start else length
  }

  function Boundary(headings: seq<Heading>, length: nat): nat {
    StartOf(headings, FirstIndex(headings, Bibliography()), length)
  }

  predicate HasLimitations(headings: seq<Heading>, length: nat) {
    FirstIndex(headings, LimitationsBefore(Boundary(headings, length))) < |headings|
  }

  /** The end of the first limitations section before the bibliography; without one, the bibliography or the end. */
  function Insertion(headings: seq<Heading>, length: nat): nat {
    var boundary := Boundary(headings, length);
    var limitations := FirstIndex(headings, LimitationsBefore(boundary));
    if limitations < |headings| then StartOf(headings, limitations + 1, length) else boundary
  }

  function Listed(items: seq<string>): string {
    if items == [] then ""
    else if |items| == 1 then "- " + Plain(items[0])
    else Listed(items[..|items| - 1]) + "\n\n- " + Plain(items[|items| - 1])
  }

  function Notes(hasLimitations: bool, missing: seq<string>): string {
    (if hasLimitations then "### 交付说明" else "## 局限\n\n### 交付说明")
    + "\n\n以下事项作为本报告的核验边界保留，不代表相关内容已获确认。\n\n" + Listed(missing)
  }

  function InsertedAt(report: string, at: nat, notes: string): string
    requires at <= |report|
  {
    TrimEnd(report[..at]) + ("\n\n" + notes + "\n\n") + TrimStart(report[at..])
  }

  function WithNotes(report: string, missing: seq<string>): string {
    var headings := Headings(Lines(report), |Lines(report)|);
    InsertionInside(report);
    InsertedAt(report, Insertion(headings, |report|), Notes(HasLimitations(headings, |report|), missing))
  }

  function WithLimitations(report: string, warnings: seq<string>): string {
    if Trim(report) == "" || warnings == [] || Missing(report, warnings) == [] then report
    else WithNotes(report, Missing(report, warnings))
  }

  /** Where the notes go, told from the headings alone. The k-th heading is the first of a bibliography, the end if
      there is none. The notes end the first limitations section that starts before it; without one they stand right
      there. */
  ghost predicate NotesPlace(headings: seq<Heading>, length: nat, k: nat, at: nat, hasSection: bool) {
    && k <= |headings|
    && (forall i :: 0 <= i < k ==> headings[i].title != "参考文献" && headings[i].title != "来源")
    && (k < |headings| ==> headings[k].title == "参考文献" || headings[k].title == "来源")
    && var end := if k < |headings| then headings[k].start else length;
    if hasSection then
      exists j :: 0 <= j < |headings| && FirstSection(headings, end, j)
        && at == (if j + 1 < |headings| then headings[j + 1].start else length)
    else at == end && forall j :: 0 <= j < |headings| ==> !NamesLimitations(headings[j], end)
  }

  ghost predicate NamesLimitations(h: Heading, end: nat) {
    h.start < end && (h.title == "局限" || h.title == "局限与待核实事项" || h.title == "局限与不确定性")
  }

  ghost predicate FirstSection(headings: seq<Heading>, end: nat, j: nat)
    requires j < |headings|
  {
    NamesLimitations(headings[j], end) && forall i :: 0 <= i < j ==> !NamesLimitations(headings[i], end)
  }

  lemma InsertionIsNotesPlace(headings: seq<Heading>, length: nat)
    ensures exists k ::
      NotesPlace(headings, length, k, Insertion(headings, length), HasLimitations(headings, length))
  {
    var k := FirstIndex(headings, Bibliography());
    var end := Boundary(headings, length);
    var j := FirstIndex(headings, LimitationsBefore(end));
    forall i | 0 <= i < |headings|
      ensures LimitationsBefore(end)(headings[i]) <==> NamesLimitations(headings[i], end)
    {
    }
    if j < |headings| {
      assert FirstSection(headings, end, j);
    }
    assert NotesPlace(headings, length, k, Insertion(headings, length), HasLimitations(headings, length));
  }

  /** r is the report with the missing warnings listed at their place. */
  ghost predicate ShowsNotes(report: string, missing: seq<string>, r: string) {
    var headings := Headings(Lines(report), |Lines(report)|);
    exists k: nat, at: nat, hasSection: bool ::
      NotesPlace(headings, |report|, k, at, hasSection) && at <= |report| && NotesAt(report, missing, at, hasSection, r)
  }

  ghost predicate NotesAt(report: string, missing: seq<string>, at: nat, hasSection: bool, r: string)
    requires at <= |report|
  {
    var notes := (if hasSection then "### 交付说明" else "## 局限\n\n### 交付说明")
      + "\n\n以下事项作为本报告的核验边界保留，不代表相关内容已获确认。\n\n" + Bullets(missing);
    r == TrimEnd(report[..at]) + ("\n\n" + notes + "\n\n") + TrimStart(report[at..])
  }

  /** One bullet per item, each with its controls escaped, blank lines between them. */
  function Bullets(items: seq<string>): string {
    if |items| == 0 then "" else "- " + Plain(items[0]) + BulletsBehind(items[1..])
  }

  function BulletsBehind(items: seq<string>): string {
    if |items| == 0 then "" else "\n\n- " + Plain(items[0]) + BulletsBehind(items[1..])
  }

  lemma {:induction false} BulletsSnoc(items: seq<string>, item: string)
    ensures BulletsBehind(items + [item]) == BulletsBehind(items) + "\n\n- " + Plain(item)
  {
    if items == [] {
      assert items + [item] == [item] && [item][1..] == [];
      assert BulletsBehind([item]) == "\n\n- " + Plain(item) + BulletsBehind([]);
    } else {
      assert (items + [item])[1..] == items[1..] + [item];
      BulletsSnoc(items[1..], item);
      var head := "\n\n- " + Plain(items[0]);
      assert BulletsBehind(items + [item]) == head + (BulletsBehind(items[1..]) + "\n\n- " + Plain(item));
    }
  }

  lemma {:induction false} ListedIsBullets(items: seq<string>)
    ensures Listed(items) == Bullets(items)
  {
    if |items| == 1 {
      assert items[1..] == [];
    } else if |items| > 1 {
      var n := |items| - 1;
      ListedIsBullets(items[..n]);
      assert items[..n][1..] == items[1..n] && items[1..] == items[1..n] + [items[n]];
      BulletsSnoc(items[1..n], items[n]);
      Regroup("- " + Plain(items[0]), BulletsBehind(items[1..n]), "\n\n- ", Plain(items[n]));
    }
  }

  lemma Regroup(a: string, b: string, c: string, d: string)
    ensures a + b + c + d == a + (b + c + d)
  {
  }

  lemma WithNotesShows(report: string, missing: seq<string>)
    ensures ShowsNotes(report, missing, WithNotes(report, missing))
  {
    var headings := Headings(Lines(report), |Lines(report)|);
    InsertionInside(report);
    InsertionIsNotesPlace(headings, |report|);
    var at, hasSection := Insertion(headings, |report|), HasLimitations(headings, |report|);
    var k :| NotesPlace(headings, |report|, k, at, hasSection);
    ListedIsBullets(missing);
    assert NotesAt(report, missing, at, hasSection, WithNotes(report, missing));
  }

  method ReportWithLimitations(report: string, warnings: seq<string>) returns (r: string)
    ensures r == WithLimitations(report, warnings)
    ensures if Trim(report) == "" || warnings == [] || Missing(report, warnings) == [] then r == report
      else ShowsNotes(report, Missing(report, warnings), r)
  {
    if Trim(report) == "" || |warnings| == 0 {
      return report;
    }
    var missing := Missing(report, warnings);
    if |missing| == 0 {
      return report;
    }
    var headings := FindHeadings(report);
    r := InsertNotes(report, missing, headings);
  }

  method InsertNotes(report: string, missing: seq<string>, headings: seq<Heading>) returns (r: string)
    requires headings == Headings(Lines(report), |Lines(report)|)
    ensures r == WithNotes(report, missing) && ShowsNotes(report, missing, r)
  {
    var references := FirstIndex(headings, Bibliography());
    var boundary := if references < |headings| then headings[references].start else |report|;
    var limitations := FirstIndex(headings, LimitationsBefore(boundary));
    var insertion := if limitations < |headings| then StartOf(headings, limitations + 1, |report|) else boundary;
    InsertionInside(report);
    WithNotesShows(report, missing);
    r := InsertedAt(report, insertion, Notes(limitations < |headings|, missing));
  }

  // ----- The insertion point -----

  /** A line starting with `##` outside fenced code begins at this offset. */
  ghost predicate AtHeading(lines: seq<string>, start: nat) {
    exists k :: 0 <= k < |lines| && IsHeadingLine(lines, k) && LineStart(lines, k) == start
  }

  lemma {:induction false} HeadingsAtLines(lines: seq<string>, n: nat, i: nat)
    requires n <= |lines| && i < |Headings(lines, n)|
    ensures AtHeading(lines, Headings(lines, n)[i].start)
  {
    if i < |Headings(lines, n - 1)| {
      HeadingsAtLines(lines, n - 1, i);
    } else {
      assert IsHeadingLine(lines, n - 1);
    }
  }

  lemma ReportHeadings(report: string)
    ensures Ascends(Headings(Lines(report), |Lines(report)|), |report|)
  {
    var lines := Lines(report);
    HeadingsAscend(lines, |lines|);
    LinesFlatten(report);
    assert lines[..|lines|] == lines;
  }

  lemma InsertionInside(report: string)
    ensures Insertion(Headings(Lines(report), |Lines(report)|), |report|) <= |report|
  {
    ReportHeadings(report);
  }

  lemma BeforeBibliography(headings: seq<Heading>, length: nat, i: nat)
    requires Ascends(headings, length) && i < |headings| && headings[i].title in BIBLIOGRAPHIES
    ensures Insertion(headings, length) <= headings[i].start
  {
    var first := FirstIndex(headings, Bibliography());
    assert Bibliography()(headings[i]);
    assert first <= i;
    assert headings[first].start <= headings[i].start;
    InsertionWithinBoundary(headings, length);
  }

  lemma InsertionWithinBoundary(headings: seq<Heading>, length: nat)
    requires Ascends(headings, length)
    ensures Insertion(headings, length) <= Boundary(headings, length) <= length
  {
    var first := FirstIndex(headings, Bibliography());
    var limitations := FirstIndex(headings, LimitationsBefore(Boundary(headings, length)));
    if limitations < |headings| {
      assert headings[limitations].start < Boundary(headings, length);
      assert first < |headings| ==> limitations < first;
    }
  }

  /** Warnings go to the end of the report or directly before a heading line outside fenced code, and never after the
      start of a bibliography. */
  lemma InsertionIsSafe(report: string)
    ensures var lines := Lines(report);
      var headings := Headings(lines, |lines|);
      var at := Insertion(headings, |report|);
      && (at == |report| || AtHeading(lines, at))
      && (forall i :: 0 <= i < |headings| && headings[i].title in BIBLIOGRAPHIES ==> at <= headings[i].start)
  {
    var lines := Lines(report);
    var headings := Headings(lines, |lines|);
    ReportHeadings(report);
    forall i | 0 <= i < |headings| ensures AtHeading(lines, headings[i].start) {
      HeadingsAtLines(lines, |lines|, i);
    }
    forall i | 0 <= i < |headings| && headings[i].title in BIBLIOGRAPHIES
      ensures Insertion(headings, |report|) <= headings[i].start
    {
      BeforeBibliography(headings, |report|, i);
    }
  }

  /** The section headed by k lies before the boundary, and its end is the insertion point. */
  ghost predicate EndsSection(headings: seq<Heading>, k: nat, boundary: nat, at: nat, length: nat)
    requires k < |headings|
  {
    && headings[k].title in LIMITATIONS
    && headings[k].start < at <= boundary && at == StartOf(headings, k + 1, length)
  }

  /** With a limitations section before the bibliography, the warnings end exactly that section, the first such. */
  lemma EndsLimitations(headings: seq<Heading>, length: nat, j: nat)
    requires Ascends(headings, length) && j < |headings|
    requires headings[j].title in LIMITATIONS && headings[j].start < Boundary(headings, length)
    ensures HasLimitations(headings, length)
    ensures var boundary, at := Boundary(headings, length), Insertion(headings, length);
      exists k :: 0 <= k <= j && EndsSection(headings, k, boundary, at, length)
  {
    var boundary := Boundary(headings, length);
    var k := FirstIndex(headings, LimitationsBefore(boundary));
    assert LimitationsBefore(boundary)(headings[j]);
    InsertionWithinBoundary(headings, length);
    assert EndsSection(headings, k, boundary, Insertion(headings, length), length);
  }

  // ----- Nothing of the report is lost -----

  lemma CompactAppend(a: string, b: string)
    ensures Compact(a + b) == Compact(a) + Compact(b)
  {
    FilterAppend(a, b, Solid());
  }

  lemma {:induction false} TrimStartCompact(s: string)
    ensures Compact(TrimStart(s)) == Compact(s)
  {
    if s != "" && JsSpace(s[0]) {
      TrimStartCompact(s[1..]);
    }
  }

  lemma {:induction false} TrimEndCompact(s: string)
    ensures Compact(TrimEnd(s)) == Compact(s)
  {
    if s != "" && JsSpace(s[|s| - 1]) {
      var front := s[..|s| - 1];
      TrimEndCompact(front);
      CompactAppend(front, [s[|s| - 1]]);
      assert s == front + [s[|s| - 1]];
    }
  }

  lemma FrameCompact(notes: string)
    ensures Compact("\n\n" + notes + "\n\n") == Compact(notes)
  {
    CompactAppend("\n\n" + notes, "\n\n");
    CompactAppend("\n\n", notes);
    BreaksCompact();
  }

  lemma Framed(before: string, notes: string, after: string)
    ensures Compact(before + ("\n\n" + notes + "\n\n") + after) == Compact(before) + Compact(notes) + Compact(after)
  {
    var frame := "\n\n" + notes + "\n\n";
    FrameCompact(notes);
    CompactAppend(before + frame, after);
    CompactAppend(before, frame);
  }

  lemma BreaksCompact()
    ensures Compact("\n\n") == ""
  {
    assert ("\n\n")[1..] == "\n";
  }

  /** The text of the report stays, in order, around the notes; only blanks at the insertion point change. */
  lemma TextKept(report: string, at: nat, notes: string)
    requires at <= |report|
    ensures Compact(InsertedAt(report, at, notes)) == Compact(report[..at]) + Compact(notes) + Compact(report[at..])
    ensures Compact(report) == Compact(report[..at]) + Compact(report[at..])
  {
    TrimEndCompact(report[..at]);
    TrimStartCompact(report[at..]);
    Framed(TrimEnd(report[..at]), notes, TrimStart(report[at..]));
    assert report == report[..at] + report[at..];
    CompactAppend(report[..at], report[at..]);
  }

  // ----- Every warning is shown -----

  lemma OccursInside(piece: string, a: string, b: string, c: string)
    requires Occurs(piece, b)
    ensures Occurs(piece, a + b + c)
  {
    var i: nat :| i <= |b| && OccursAt(piece, b, i);
    var whole := a + b + c;
    assert whole[|a|..|a| + |b|] == b;
    assert whole[|a| + i..|a| + i + |piece|] == b[i..i + |piece|];
    assert OccursAt(piece, whole, |a| + i);
  }

  lemma SeamInPiece(piece: string, a: string, b: string, i: nat)
    requires OccursAt(piece, a + b, i) && i < |a| < i + |piece|
    ensures b != "" && b[0] in piece
  {
    assert piece[|a| - i] == (a + b)[i..i + |piece|][|a| - i];
  }

  /** A piece without the character at the seam lies on one side of it. */
  lemma OccursOnOneSide(piece: string, a: string, b: string)
    requires Occurs(piece, a + b) && (b == "" || b[0] !in piece)
    ensures Occurs(piece, a) || Occurs(piece, b)
  {
    var whole := a + b;
    var i: nat :| i <= |whole| && OccursAt(piece, whole, i);
    if i + |piece| <= |a| {
      assert whole[i..i + |piece|] == a[i..i + |piece|];
      assert OccursAt(piece, a, i);
    } else if |a| <= i {
      assert whole[i..i + |piece|] == b[i - |a|..i - |a| + |piece|];
      assert OccursAt(piece, b, i - |a|);
    } else {
      SeamInPiece(piece, a, b, i);
    }
  }

  lemma {:induction false} PlainAddsNoHash(s: string)
    ensures '#' in Plain(s) ==> '#' in s
  {
    if s != "" {
      PlainAddsNoHash(s[1..]);
    }
  }

  lemma HashAtLine(lines: seq<string>, k: nat)
    requires k < |lines| && "##" <= lines[k]
    ensures LineStart(lines, k) < |Flatten(lines)| && Flatten(lines)[LineStart(lines, k)] == '#'
  {
    LinePlace(lines, k);
    var text, start := Flatten(lines), LineStart(lines, k);
    assert text[start..start + |lines[k]|][0] == text[start];
    assert lines[k][0] == ("##")[0];
  }

  lemma HashAtHeading(lines: seq<string>, at: nat)
    requires AtHeading(lines, at)
    ensures at < |Flatten(lines)| && Flatten(lines)[at] == '#'
  {
    var k :| 0 <= k < |lines| && IsHeadingLine(lines, k) && LineStart(lines, k) == at;
    HashAtLine(lines, k);
  }

  /** The report from the insertion point on is empty or starts with a hash. */
  lemma HashAtInsertion(report: string)
    ensures var at := Insertion(Headings(Lines(report), |Lines(report)|), |report|);
      && at <= |report|
      && (Compact(report[at..]) == "" || Compact(report[at..])[0] == '#')
  {
    var at := Insertion(Headings(Lines(report), |Lines(report)|), |report|);
    InsertionInside(report);
    InsertionIsSafe(report);
    if at < |report| {
      HashAtHeading(Lines(report), at);
      LinesFlatten(report);
      assert report[at..][0] == '#';
    }
  }

  lemma {:induction false} ListedShows(items: seq<string>, k: nat) returns (before: string, after: string)
    requires k < |items|
    ensures Listed(items) == before + Plain(items[k]) + after
  {
    var n := |items| - 1;
    if k == n {
      before := if n == 0 then "- " else Listed(items[..n]) + "\n\n- ";
      after := "";
    } else {
      before, after := ListedShows(items[..n], k);
      after := after + ("\n\n- " + Plain(items[n]));
    }
  }

  lemma NotesShow(hasLimitations: bool, missing: seq<string>, k: nat)
    requires k < |missing|
    ensures Occurs(Compact(Plain(missing[k])), Compact(Notes(hasLimitations, missing)))
  {
    var before, after := ListedShows(missing, k);
    var head := (if hasLimitations then "### 交付说明" else "## 局限\n\n### 交付说明")
      + "\n\n以下事项作为本报告的核验边界保留，不代表相关内容已获确认。\n\n";
    var item := Plain(missing[k]);
    assert head + (before + item + after) == (head + before) + item + after;
    CompactAppend(head + before + item, after);
    CompactAppend(head + before, item);
    assert OccursAt(Compact(item), Compact(item), 0);
    OccursInside(Compact(item), Compact(head + before), Compact(item), Compact(after));
  }

  function InsertionPoint(report: string): (at: nat)
    ensures at <= |report|
  {
    InsertionInside(report);
    Insertion(Headings(Lines(report), |Lines(report)|), |report|)
  }

  function NotesFor(report: string, missing: seq<string>): string {
    Notes(HasLimitations(Headings(Lines(report), |Lines(report)|), |report|), missing)
  }

  /** The report shows the item on one side of the insertion point. */
  predicate OneSided(report: string, item: string) {
    Findable(report[..InsertionPoint(report)], item) || Findable(report[InsertionPoint(report)..], item)
  }

  /** The piece stands in a + n + b so that it meets n. */
  ghost predicate Meets(piece: string, a: string, n: string, b: string) {
    exists i :: 0 <= i < |a| + |n| && OccursAt(piece, a + n + b, i) && |a| < i + |piece|
  }

  lemma AtEitherEnd(piece: string, a: string, b: string)
    requires Occurs(piece, a) || Occurs(piece, b)
    ensures Occurs(piece, a + b)
  {
    if i :| 0 <= i <= |a| && OccursAt(piece, a, i) {
      assert (a + b)[i..i + |piece|] == a[i..i + |piece|];
      assert OccursAt(piece, a + b, i);
    } else {
      var i :| 0 <= i <= |b| && OccursAt(piece, b, i);
      assert (a + b)[|a| + i..|a| + i + |piece|] == b[i..i + |piece|];
      assert OccursAt(piece, a + b, |a| + i);
    }
  }

  /** A piece of the whole stands in front of n, behind it, or meets it. */
  lemma OccursIff(piece: string, a: string, n: string, b: string)
    ensures Occurs(piece, a + n + b) <==> Occurs(piece, a) || Occurs(piece, b) || Meets(piece, a, n, b)
  {
    var whole := a + n + b;
    if i :| 0 <= i <= |whole| && OccursAt(piece, whole, i) {
      if i + |piece| <= |a| {
        assert whole[i..i + |piece|] == a[i..i + |piece|];
        assert OccursAt(piece, a, i);
      } else if |a| + |n| <= i {
        var j := i - |a| - |n|;
        assert whole[i..i + |piece|] == b[j..j + |piece|];
        assert OccursAt(piece, b, j);
      }
    }
    if Occurs(piece, a) {
      AtEitherEnd(piece, a, n + b);
      assert a + (n + b) == whole;
    }
    if Occurs(piece, b) {
      AtEitherEnd(piece, a + n, b);
    }
  }

  /** What becomes of an item the report shows, told from the report and what is to be added: it stands on one side of
      the insertion point, or the notes or their edges spell it. */
  ghost predicate StaysShown(report: string, missing: seq<string>, item: string) {
    var at := InsertionPoint(report);
    var a, n, b := Compact(report[..at]), Compact(NotesFor(report, missing)), Compact(report[at..]);
    OneSided(report, item) || Meets(Compact(item), a, n, b) || Meets(Compact(Plain(item)), a, n, b)
  }

  lemma ShownAfterIff(report: string, missing: seq<string>, item: string)
    ensures Findable(WithNotes(report, missing), item) <==> StaysShown(report, missing, item)
  {
    var at := InsertionPoint(report);
    var a, n, b := Compact(report[..at]), Compact(NotesFor(report, missing)), Compact(report[at..]);
    TextKept(report, at, NotesFor(report, missing));
    OccursIff(Compact(item), a, n, b);
    OccursIff(Compact(Plain(item)), a, n, b);
  }

  /** An item without a hash is shown on one side: behind the insertion point the report starts with a hash. */
  lemma HashFreeIsOneSided(report: string, item: string)
    requires '#' !in item && Findable(report, item)
    ensures OneSided(report, item)
  {
    var at := InsertionPoint(report);
    HashAtInsertion(report);
    TextKept(report, at, "");
    PlainAddsNoHash(item);
    var a, b := Compact(report[..at]), Compact(report[at..]);
    if Occurs(Compact(item), a + b) {
      OccursOnOneSide(Compact(item), a, b);
    } else {
      OccursOnOneSide(Compact(Plain(item)), a, b);
    }
  }

  /** What the report already showed it still shows, unless the text contains a hash. */
  lemma StaysFindable(report: string, notes: string, item: string)
    requires '#' !in item && Findable(report, item)
    ensures var at := Insertion(Headings(Lines(report), |Lines(report)|), |report|);
      at <= |report| && Findable(InsertedAt(report, at, notes), item)
  {
    var at := InsertionPoint(report);
    var a, n, b := Compact(report[..at]), Compact(notes), Compact(report[at..]);
    HashFreeIsOneSided(report, item);
    TextKept(report, at, notes);
    OccursIff(Compact(item), a, n, b);
    OccursIff(Compact(Plain(item)), a, n, b);
  }

  /** The text shows the warning, cleaned. */
  predicate Shown(text: string, warning: string) {
    Findable(text, Cleaned(warning))
  }

  /** A warning the report does not show is shown afterwards. */
  lemma MissingIsShown(report: string, warnings: seq<string>, k: nat)
    requires Trim(report) != "" && k < |warnings| && !Shown(report, warnings[k])
    ensures Shown(WithLimitations(report, warnings), warnings[k])
  {
    var item, missing := Cleaned(warnings[k]), Missing(report, warnings);
    assert AllCleaned(warnings)[k] == item;
    BlankFindable(report);
    assert Lacks(report)(item);
    assert item in missing;
    var i :| 0 <= i < |missing| && missing[i] == item;
    ShownInNotes(report, missing, i);
  }

  lemma BlankFindable(text: string)
    ensures Findable(text, "")
  {
    assert OccursAt(Compact(""), Compact(text), 0);
  }

  /** Every warning is findable afterwards; a warning with a hash at least when it was missing. */
  lemma EveryWarningShown(report: string, warnings: seq<string>, k: nat)
    requires Trim(report) != "" && k < |warnings|
    requires '#' !in warnings[k] || !Shown(report, warnings[k])
    ensures Shown(WithLimitations(report, warnings), warnings[k])
  {
    var missing := Missing(report, warnings);
    if !Shown(report, warnings[k]) {
      MissingIsShown(report, warnings, k);
    } else if missing != [] {
      var headings := Headings(Lines(report), |Lines(report)|);
      StaysFindable(report, Notes(HasLimitations(headings, |report|), missing), Cleaned(warnings[k]));
    }
  }

  lemma ShownInNotes(report: string, missing: seq<string>, i: nat)
    requires i < |missing|
    ensures var headings := Headings(Lines(report), |Lines(report)|);
      var at := Insertion(headings, |report|);
      && at <= |report|
      && Findable(InsertedAt(report, at, Notes(HasLimitations(headings, |report|), missing)), missing[i])
  {
    var headings := Headings(Lines(report), |Lines(report)|);
    var at, notes := Insertion(headings, |report|), Notes(HasLimitations(headings, |report|), missing);
    InsertionInside(report);
    NotesShow(HasLimitations(headings, |report|), missing, i);
    TextKept(report, at, notes);
    OccursInside(Compact(Plain(missing[i])), Compact(report[..at]), Compact(notes), Compact(report[at..]));
  }

  lemma {:induction false} NoneKept(items: seq<string>, keep: string -> bool)
    requires forall item :: item in items ==> !keep(item)
    ensures Filter(items, keep) == []
  {
    if items != [] {
      NoneKept(items[1..], keep);
    }
  }

  /** Nothing is missing from a text that shows every warning, and only then. */
  lemma AllShown(text: string, warnings: seq<string>)
    requires forall k :: 0 <= k < |warnings| ==> Shown(text, warnings[k])
    ensures Missing(text, warnings) == []
  {
    var all := AllCleaned(warnings);
    forall item | item in Dedupe(all) ensures !Lacks(text)(item) {
      var k :| 0 <= k < |all| && all[k] == item;
      assert Shown(text, warnings[k]);
    }
    NoneKept(Dedupe(all), Lacks(text));
  }

  lemma OneNotShown(text: string, warnings: seq<string>, k: nat)
    requires k < |warnings| && !Shown(text, warnings[k])
    ensures Missing(text, warnings) != []
  {
    BlankFindable(text);
    assert AllCleaned(warnings)[k] in Missing(text, warnings);
  }

  /** Adding notes always changes the text. */
  lemma NotesChange(report: string, missing: seq<string>)
    ensures Compact(WithNotes(report, missing)) != Compact(report) && Trim(WithNotes(report, missing)) != ""
  {
    var headings := Headings(Lines(report), |Lines(report)|);
    var at, notes := Insertion(headings, |report|), Notes(HasLimitations(headings, |report|), missing);
    InsertionInside(report);
    TextKept(report, at, notes);
    NotesVisible(HasLimitations(headings, |report|), missing);
    NotBlank(WithNotes(report, missing));
  }

  lemma NotesVisible(hasLimitations: bool, missing: seq<string>)
    ensures Compact(Notes(hasLimitations, missing)) != ""
  {
    var notes := Notes(hasLimitations, missing);
    assert notes[0] == '#';
    assert '#' in Compact(notes);
  }

  lemma NotBlank(text: string)
    requires Compact(text) != ""
    ensures Trim(text) != ""
  {
    TrimStartCompact(text);
    TrimEndCompact(TrimStart(text));
  }

  /** A report stays as it is if and only if it shows every warning. */
  lemma UnchangedIff(report: string, warnings: seq<string>)
    requires Trim(report) != ""
    ensures WithLimitations(report, warnings) == report <==>
      forall k :: 0 <= k < |warnings| ==> Shown(report, warnings[k])
  {
    NotesChange(report, Missing(report, warnings));
    if k :| 0 <= k < |warnings| && !Shown(report, warnings[k]) {
      OneNotShown(report, warnings, k);
    } else {
      AllShown(report, warnings);
    }
  }

  /** Doing it again changes nothing if and only if nothing is missing, or every warning the report shows stands on
      one side of the insertion point or is spelled by the notes and their edges. */
  lemma IdempotentIff(report: string, warnings: seq<string>)
    ensures var once, missing := WithLimitations(report, warnings), Missing(report, warnings);
      WithLimitations(once, warnings) == once <==>
        || Trim(report) == "" || missing == []
        || forall k :: 0 <= k < |warnings| && Shown(report, warnings[k]) ==>
             StaysShown(report, missing, Cleaned(warnings[k]))
  {
    var once, missing := WithLimitations(report, warnings), Missing(report, warnings);
    if Trim(report) != "" && missing != [] {
      assert warnings != [];
      forall k | 0 <= k < |warnings|
        ensures Shown(once, warnings[k]) <==>
          (Shown(report, warnings[k]) ==> StaysShown(report, missing, Cleaned(warnings[k])))
      {
        if Shown(report, warnings[k]) {
          ShownAfterIff(report, missing, Cleaned(warnings[k]));
        } else {
          MissingIsShown(report, warnings, k);
        }
      }
      NotesChange(report, missing);
      UnchangedIff(once, warnings);
    }
  }

  /** In particular when every warning the report shows stands on one side of the insertion point. */
  lemma OneSidedIdempotent(report: string, warnings: seq<string>)
    requires forall k :: 0 <= k < |warnings| && Shown(report, warnings[k]) ==> OneSided(report, Cleaned(warnings[k]))
    ensures var once := WithLimitations(report, warnings);
      WithLimitations(once, warnings) == once
  {
    IdempotentIff(report, warnings);
  }

  /** So for warnings without a hash. */
  lemma Idempotent(report: string, warnings: seq<string>)
    requires forall k :: 0 <= k < |warnings| ==> '#' !in warnings[k]
    ensures var once := WithLimitations(report, warnings);
      WithLimitations(once, warnings) == once
  {
    forall k | 0 <= k < |warnings| && Shown(report, warnings[k]) ensures OneSided(report, Cleaned(warnings[k])) {
      HashFreeIsOneSided(report, Cleaned(warnings[k]));
    }
    OneSidedIdempotent(report, warnings);
  }

  // ----- Warnings that are torn apart -----

  lemma {:induction false} PlainCharacters(s: string, c: char)
    ensures c in s ==> c in Plain(s)
    ensures c in Plain(s) ==> c in s || c == '\\'
  {
    if s != "" {
      PlainCharacters(s[1..], c);
      assert s == [s[0]] + s[1..];
    }
  }

  /** A piece with a character of a alone and one of b alone spans all of n. */
  lemma SpansMiddle(piece: string, a: string, n: string, b: string, x: char, y: char, z: char)
    requires Occurs(piece, a + n + b) && x in piece && y in piece
    requires x !in n && x !in b && y !in a && y !in n && z in n
    ensures z in piece
  {
    var whole := a + n + b;
    var i :| 0 <= i <= |whole| && OccursAt(piece, whole, i);
    var p :| 0 <= p < |piece| && piece[p] == x;
    var q :| 0 <= q < |piece| && piece[q] == y;
    var r :| 0 <= r < |n| && n[r] == z;
    assert forall j :: 0 <= j < |piece| ==> piece[j] == whole[i + j];
    assert whole[i + p] == x && whole[i + q] == y;
    assert i + p < |a| && |a| + |n| <= i + q;
    assert piece[|a| + r - i] == z;
  }

  /** The item has x from the part before the insertion point alone and y from the part behind it alone, and the notes
      hold neither, but something the item has not. */
  ghost predicate Separated(report: string, missing: seq<string>, item: string, x: char, y: char, z: char) {
    var at, notes := InsertionPoint(report), NotesFor(report, missing);
    && x in item && y in item && !JsSpace(x) && !JsSpace(y)
    && x !in notes && x !in report[at..] && y !in notes && y !in report[..at]
    && z in notes && z !in item && z != '\\' && !JsSpace(z)
  }

  /** A warning that runs across the insertion point is torn by notes that hold none of the characters it has from
      either side alone: once something else is added it is no longer shown, and the next call adds it. */
  lemma SeparatedIsTorn(report: string, warnings: seq<string>, k: nat, x: char, y: char, z: char)
    requires Trim(report) != "" && Missing(report, warnings) != [] && k < |warnings| && Shown(report, warnings[k])
    requires Separated(report, Missing(report, warnings), Cleaned(warnings[k]), x, y, z)
    ensures var once := WithLimitations(report, warnings);
      WithLimitations(once, warnings) != once
  {
    var item, at, notes := Cleaned(warnings[k]), InsertionPoint(report), NotesFor(report, Missing(report, warnings));
    PlainCharacters(item, x);
    PlainCharacters(item, y);
    PlainCharacters(item, z);
    TextKept(report, at, notes);
    var a, n, b := Compact(report[..at]), Compact(notes), Compact(report[at..]);
    if Occurs(Compact(item), a + n + b) {
      SpansMiddle(Compact(item), a, n, b, x, y, z);
    }
    if Occurs(Compact(Plain(item)), a + n + b) {
      SpansMiddle(Compact(Plain(item)), a, n, b, x, y, z);
    }
    ShownAfterIff(report, Missing(report, warnings), item);
    IdempotentIff(report, warnings);
  }

  // ----- Escaped warnings are inert -----

  /** The characters that start something in Markdown. */
  predicate IsControl(c: char) {
    || c == '\\' || c == '`' || c == '*' || c == '_' || c == '[' || c == ']' || c == '<' || c == '>' || c == '#'
  }

  /** Every control in the text has its own backslash. */
  predicate Inert(s: string) {
    s == ""
    || (s[0] == '\\' && |s| > 1 && Inert(s[2..]))
    || (!IsControl(s[0]) && Inert(s[1..]))
  }

  /** What Markdown shows of such a text. */
  function Rendered(s: string): string {
    if s == "" then ""
    else if s[0] == '\\' && |s| > 1 && IsControl(s[1]) then [s[1]] + Rendered(s[2..])
    else [s[0]] + Rendered(s[1..])
  }

  /** An added warning holds no active Markdown control and reads as it was written, on one line. */
  lemma {:induction false} PlainIsInert(s: string)
    ensures Inert(Plain(s)) && Rendered(Plain(s)) == s
  {
    if s != "" {
      PlainIsInert(s[1..]);
      var rest := Plain(s[1..]);
      if s[0] in CONTROLS {
        assert Plain(s) == ['\\', s[0]] + rest;
        assert Plain(s)[2..] == rest;
      } else {
        assert Plain(s)[1..] == rest;
      }
    }
  }

  predicate IsBreak(c: char) {
    c == '\r' || c == '\n'
  }

  lemma {:induction false} OneLineKeeps(s: string, inBreak: bool)
    requires forall i :: 0 <= i < |s| ==> !IsBreak(s[i])
    ensures OneLine(s, inBreak) == s
  {
    if s != "" {
      OneLineKeeps(s[1..], false);
    }
  }

  /** A run of line breaks becomes one blank, wherever it stands; nothing else changes. */
  lemma {:induction false} OneLineJoins(a: string, breaks: string, b: string)
    requires forall i :: 0 <= i < |a| ==> !IsBreak(a[i])
    requires breaks != "" && forall i :: 0 <= i < |breaks| ==> IsBreak(breaks[i])
    requires b == "" || !IsBreak(b[0])
    ensures OneLine(a + breaks + b, false) == a + " " + OneLine(b, false)
  {
    var s := a + breaks + b;
    if a != "" {
      assert s[1..] == a[1..] + breaks + b;
      OneLineJoins(a[1..], breaks, b);
      assert a == [a[0]] + a[1..];
    } else {
      assert s[1..] == breaks[1..] + b;
      BreaksSkipped(breaks[1..], b);
    }
  }

  lemma {:induction false} BreaksSkipped(breaks: string, b: string)
    requires forall i :: 0 <= i < |breaks| ==> IsBreak(breaks[i])
    requires b == "" || !IsBreak(b[0])
    ensures OneLine(breaks + b, true) == OneLine(b, false)
  {
    if breaks == "" {
      assert breaks + b == b;
    } else {
      assert (breaks + b)[1..] == breaks[1..] + b;
      BreaksSkipped(breaks[1..], b);
    }
  }

  lemma CleanedIsOneLine(warning: string)
    ensures '\n' !in Cleaned(warning) && '\r' !in Cleaned(warning)
  {
  }
}
