/** A report on which `reportWithLimitations` (frontend/lib/report-document.ts) is not idempotent. */
module TornWarning {
  import opened Common
  import opened Fences
  import opened HeadingScan
  import opened Limitations

  /** One line above the bibliography; the first warning runs across the gap between them, the second is new. */
  ghost predicate TornInput(report: string, heading: string, torn: string, other: string) {
    report == "a\n" + heading && heading == "## 来源" && torn == "a##来" && other == "b"
  }

  lemma TornTitle(heading: string)
    requires heading == "## 来源"
    ensures HeadingTitle(heading) == Some("来源")
  {
    assert WithoutEnd(heading) == heading && GapLength(heading, 2) == 1 && heading[3..] == "来源";
    assert DropGaps("来源") == "来源" && DropHashes("来源") == "来源";
    assert ("来源")[..2] == "来源" && Trim("来源") == "来源";
  }

  lemma {:induction false} OneLineLength(s: string)
    requires s != "" && forall i :: 0 <= i < |s| ==> s[i] != '\n'
    ensures LineLength(s) == |s|
  {
    if |s| > 1 {
      OneLineLength(s[1..]);
    }
  }

  lemma TornLines(report: string, heading: string)
    requires report == "a\n" + heading && heading == "## 来源"
    ensures Lines(report) == ["a\n", heading]
  {
    OneLineLength(heading);
    assert heading[..|heading|] == heading && heading[|heading|..] == "" && Lines("") == [];
    assert Lines(heading) == [heading] + [];
    assert report[0] != '\n' && report[1..][0] == '\n';
    assert LineLength(report) == 2 && report[..2] == "a\n" && report[2..] == heading;
  }

  lemma TornHeadings(heading: string, lines: seq<string>)
    requires heading == "## 来源" && lines == ["a\n", heading]
    ensures Headings(lines, 2) == [Heading("来源", 2)]
  {
    assert MarkerOf("a\n") == None && MarkerOf(heading) == None;
    assert FenceBefore(lines, 0, JsBlank()) == None && FenceBefore(lines, 1, JsBlank()) == None;
    assert lines[..1] == ["a\n"] && ["a\n"][..0] == [] && Flatten(lines[..1]) == "a\n";
    assert HeadingTitle("a\n") == None;
    TornTitle(heading);
    assert Headings(lines, 0) == [] && Headings(lines, 1) == [];
  }

  lemma OneBibliography(headings: seq<Heading>, length: nat)
    requires |headings| == 1 && headings[0].title in BIBLIOGRAPHIES
    ensures Insertion(headings, length) == headings[0].start && !HasLimitations(headings, length)
  {
    assert Bibliography()(headings[0]);
    assert FirstIndex(headings, Bibliography()) == 0;
    assert !LimitationsBefore(headings[0].start)(headings[0]);
  }

  lemma TornPlace(report: string, heading: string)
    requires report == "a\n" + heading && heading == "## 来源"
    ensures InsertionPoint(report) == 2 && report[..2] == "a\n" && report[2..] == heading
  {
    TornLines(report, heading);
    TornHeadings(heading, Lines(report));
    OneBibliography(Headings(Lines(report), 2), |report|);
  }

  lemma {:induction false} SolidCompact(s: string)
    requires forall i :: 0 <= i < |s| ==> !JsSpace(s[i])
    ensures Compact(s) == s
  {
    if s != "" {
      SolidCompact(s[1..]);
    }
  }

  lemma {:induction false} SolidLine(s: string, inBreak: bool)
    requires forall i :: 0 <= i < |s| ==> !JsSpace(s[i])
    ensures OneLine(s, inBreak) == s
  {
    if s != "" {
      SolidLine(s[1..], false);
    }
  }

  lemma SolidCleaned(s: string)
    requires s != "" && forall i :: 0 <= i < |s| ==> !JsSpace(s[i])
    ensures Cleaned(s) == s
  {
    SolidLine(s, false);
  }

  lemma GapDropped(gap: char, s: string)
    requires JsSpace(gap)
    ensures Compact([gap] + s) == Compact(s)
  {
    CompactAppend([gap], s);
    assert [gap][1..] == [] && Compact([gap]) == "";
    assert "" + Compact(s) == Compact(s);
  }

  lemma OneGapCompact(a: string, gap: char, b: string)
    requires JsSpace(gap) && forall i :: 0 <= i < |a| ==> !JsSpace(a[i])
    ensures Compact(a + ([gap] + b)) == a + Compact(b)
  {
    CompactAppend(a, [gap] + b);
    GapDropped(gap, b);
    SolidCompact(a);
  }

  lemma TornCompact(report: string, text: string, hashes: string, title: string)
    requires report == text + (['\n'] + (hashes + ([' '] + title)))
    requires forall c :: c in text || c in hashes || c in title ==> !JsSpace(c)
    ensures Compact(report) == text + (hashes + title)
  {
    OneGapCompact(text, '\n', hashes + ([' '] + title));
    OneGapCompact(hashes, ' ', title);
    SolidCompact(title);
  }

  /** Without its blanks the report holds the warning, across the gap. */
  lemma TornShown(report: string, torn: string, text: string, hashes: string, title: string)
    requires text == "a" && hashes == "##" && title == "来源" && torn == "a##来"
    requires report == text + (['\n'] + (hashes + ([' '] + title)))
    ensures Findable(report, torn) && Compact(report) != ""
  {
    TornCompact(report, text, hashes, title);
    SolidCompact(torn);
    assert OccursAt(torn, Compact(report), 0);
  }

  lemma FindableCharacter(text: string, item: string, c: char)
    requires Findable(text, item) && c in item && !JsSpace(c)
    ensures c in text
  {
    PlainCharacters(item, c);
    if Occurs(Compact(item), Compact(text)) {
      OccurringCharacter(Compact(item), Compact(text), c);
    } else {
      OccurringCharacter(Compact(Plain(item)), Compact(text), c);
    }
  }

  lemma OccurringCharacter(piece: string, text: string, c: char)
    requires Occurs(piece, text) && c in piece
    ensures c in text
  {
    var i :| 0 <= i <= |text| && OccursAt(piece, text, i);
    var j :| 0 <= j < |piece| && piece[j] == c;
    assert text[i..i + |piece|][j] == text[i + j];
  }

  lemma {:induction false} ListedCharacters(items: seq<string>, c: char)
    requires c !in {'-', ' ', '\n', '\\'} && forall item :: item in items ==> c !in item
    ensures c !in Listed(items)
  {
    if items != [] {
      var n := |items| - 1;
      PlainCharacters(items[n], c);
      assert items[n] in items;
      ListedCharacters(items[..n], c);
    }
  }

  lemma HeadCharacters(head: string, c: char)
    requires head == "### 交付说明" || head == "## 局限\n\n### 交付说明"
    requires c == 'a' || c == '来'
    ensures c !in head && c !in "\n\n以下事项作为本报告的核验边界保留，不代表相关内容已获确认。\n\n"
    ensures '交' in head
  {
    assert head[|head| - 4] == '交';
  }

  lemma NotesCharacters(hasLimitations: bool, missing: seq<string>, c: char)
    requires c == 'a' || c == '来'
    requires forall item :: item in missing ==> c !in item
    ensures c !in Notes(hasLimitations, missing) && '交' in Notes(hasLimitations, missing)
  {
    ListedCharacters(missing, c);
    HeadCharacters(if hasLimitations then "### 交付说明" else "## 局限\n\n### 交付说明", c);
  }

  lemma TornNotes(report: string, missing: seq<string>)
    requires forall item :: item in missing ==> item == "b"
    ensures 'a' !in NotesFor(report, missing) && '来' !in NotesFor(report, missing) && '交' in NotesFor(report, missing)
  {
    var hasLimitations := HasLimitations(Headings(Lines(report), |Lines(report)|), |report|);
    NotesCharacters(hasLimitations, missing, 'a');
    NotesCharacters(hasLimitations, missing, '来');
  }

  lemma TornReport(report: string, heading: string, torn: string, other: string)
    requires TornInput(report, heading, torn, other)
    ensures Trim(report) != "" && Findable(report, torn)
  {
    assert heading == "##" + ([' '] + "来源");
    TornShown(report, torn, "a", "##", "来源");
    NotBlank(report);
  }

  lemma TornSeparated(report: string, heading: string, torn: string, missing: seq<string>)
    requires report == "a\n" + heading && heading == "## 来源" && torn == "a##来"
    requires forall item :: item in missing ==> item == "b"
    ensures Separated(report, missing, torn, 'a', '来', '交')
  {
    TornPlace(report, heading);
    TornNotes(report, missing);
  }

  /** Found across the insertion point, the first warning is no longer shown once the second is added, and the next call
      adds it. */
  lemma HashWarningIsTorn(report: string, heading: string, torn: string, other: string)
    requires TornInput(report, heading, torn, other)
    ensures var once := WithLimitations(report, [torn, other]);
      WithLimitations(once, [torn, other]) != once
  {
    TornReport(report, heading, torn, other);
    SolidCleaned(torn);
    SolidCleaned(other);
    OtherIsNew(report, heading, other);
    OnlyOtherMissing(report, torn, other);
    TornSeparated(report, heading, torn, Missing(report, [torn, other]));
    assert [torn, other][0] == torn;
    SeparatedIsTorn(report, [torn, other], 0, 'a', '来', '交');
  }

  lemma OtherIsNew(report: string, heading: string, other: string)
    requires report == "a\n" + heading && heading == "## 来源" && other == "b"
    ensures !Findable(report, other)
  {
    if Findable(report, other) {
      FindableCharacter(report, other, other[0]);
    }
  }

  lemma OnlyOtherMissing(report: string, torn: string, other: string)
    requires Cleaned(torn) == torn && Cleaned(other) == other
    requires Findable(report, torn) && !Findable(report, other)
    ensures Missing(report, [torn, other]) != []
    ensures forall item :: item in Missing(report, [torn, other]) ==> item == other
  {
    assert [torn, other][1] == other;
    OneNotShown(report, [torn, other], 1);
    assert AllCleaned([torn, other]) == [torn, other];
  }
}
