/** Blanking code without moving anything else (backend/src/atlasflow/agents/report_skill.py `report_prose`). */
module CodeMask {
  import opened Common
  import opened Fences
  import opened Splice

  predicate IsLineEnd(c: char) {
    c == '\n' || c == '\r'
  }

  /** The characters `str.splitlines` breaks at. */
  predicate IsBreak(c: char) {
    var n := c as int;
    10 <= n <= 13 || 28 <= n <= 30 || n == 0x85 || n == 0x2028 || n == 0x2029
  }

  function FirstLineLength(s: string): (n: nat)
    requires s != ""
    ensures 1 <= n <= |s|
  {
    if s[0] == '\r' && |s| > 1 && s[1] == '\n' then 2
    else if IsBreak(s[0]) || |s| == 1 then 1
    else 1 + FirstLineLength(s[1..])
  }

  /** `text.splitlines(keepends=True)`. */
  function SplitLines(s: string): seq<string> {
    if s == "" then [] else
      var n := FirstLineLength(s);
      [s[..n]] + SplitLines(s[n..])
  }

  lemma {:induction false} SplitLinesFlatten(s: string)
    ensures Flatten(SplitLines(s)) == s
  {
    if s != "" {
      var n := FirstLineLength(s);
      SplitLinesFlatten(s[n..]);
      FlattenAppend([s[..n]], SplitLines(s[n..]));
      assert Flatten([s[..n]]) == s[..n] by {
        FlattenSnoc([], s[..n]);
        assert [] + [s[..n]] == [s[..n]];
      }
      assert s == s[..n] + s[n..];
    }
  }

  /** n characters without a break and then one break, a carriage return and line feed counting as one; the last line
      may have none. */
  ghost predicate EndsAt(line: string, n: nat, last: bool) {
    && line != "" && n <= |line| && (forall i :: 0 <= i < n ==> !IsBreak(line[i]))
    && ((last && n == |line|)
        || (n + 1 == |line| && IsBreak(line[n]))
        || (n + 2 == |line| && line[n] == '\r' && line[n + 1] == '\n'))
  }

  lemma EndsBehind(c: char, rest: string, n: nat, last: bool)
    requires EndsAt(rest, n, last) && !IsBreak(c)
    ensures EndsAt([c] + rest, n + 1, last)
  {
  }

  lemma {:induction false} FirstLineEnds(s: string) returns (m: nat)
    requires s != ""
    ensures var n := FirstLineLength(s); EndsAt(s[..n], m, n == |s|) && (n < |s| && s[n - 1] == '\r' ==> s[n] != '\n')
  {
    if (s[0] == '\r' && |s| > 1 && s[1] == '\n') || IsBreak(s[0]) {
      m := 0;
    } else if |s| == 1 {
      m := 1;
    } else {
      m := FirstLineEnds(s[1..]);
      var n := FirstLineLength(s);
      EndsBehind(s[0], s[1..][..n - 1], m, n == |s|);
      assert s[..n] == [s[0]] + s[1..][..n - 1];
      m := m + 1;
    }
  }

  /** Every piece is one line, and no carriage return is torn from its line feed. */
  lemma {:induction false} SplitLinesAreLines(s: string, k: nat) returns (m: nat)
    requires k < |SplitLines(s)|
    ensures var lines := SplitLines(s);
      && EndsAt(lines[k], m, k == |lines| - 1)
      && (k + 1 < |lines| ==>
           lines[k + 1] != "" && !(lines[k][|lines[k]| - 1] == '\r' && lines[k + 1][0] == '\n'))
  {
    var n := FirstLineLength(s);
    if k == 0 {
      m := FirstLineEnds(s);
    } else {
      m := SplitLinesAreLines(s[n..], k - 1);
    }
  }

  /** `re.sub(r"[^\r\n]", " ", text)`. */
  function Mask(s: string): (r: string)
    ensures |r| == |s| && forall i :: 0 <= i < |s| ==> r[i] == if IsLineEnd(s[i]) then s[i] else ' '
  {
    seq(|s|, i requires 0 <= i < |s| => if IsLineEnd(s[i]) then s[i] else ' ')
  }

  function PyBlank(): string -> bool {
    (s: string) => Blank(s)
  }

  function MaskedLine(lines: seq<string>, k: nat): (r: string)
    requires k < |lines|
    ensures |r| == |lines[k]|
  {
    if InFence(lines, k, PyBlank()) then Mask(lines[k]) else lines[k]
  }

  function MaskedLines(lines: seq<string>): (r: seq<string>)
    ensures |r| == |lines| && forall k :: 0 <= k < |r| ==> r[k] == MaskedLine(lines, k)
  {
    seq(|lines|, k requires 0 <= k < |lines| => MaskedLine(lines, k))
  }

  /** An inline code span, as the backtick pattern finds it in the text with fences blanked. */
  datatype Span = Span(start: nat, finish: nat)

  function Blankings(text: string, spans: seq<Span>): (r: seq<Edit>)
    requires SpansInOrder(spans, |text|)
    ensures |r| == |spans|
    ensures forall i :: 0 <= i < |r| ==>
      r[i] == Edit(spans[i].start, spans[i].finish, Mask(text[spans[i].start..spans[i].finish]))
  {
    seq(|spans|, i requires 0 <= i < |spans| =>
      Edit(spans[i].start, spans[i].finish, Mask(text[spans[i].start..spans[i].finish])))
  }

  ghost predicate SpansInOrder(spans: seq<Span>, n: nat) {
    && (forall i :: 0 <= i < |spans| ==> spans[i].start <= spans[i].finish <= n)
    && (forall i, j :: 0 <= i < j < |spans| ==> spans[i].finish <= spans[j].start)
  }

  /** The loop over the lines with its running fence. */
  method MaskFences(report: string) returns (text: string)
    ensures text == Flatten(MaskedLines(SplitLines(report)))
  {
    var lines := SplitLines(report);
    var masked: seq<string> := [];
    var fence: Option<Fence> := None;
    ghost var all := MaskedLines(lines);
    for k := 0 to |lines|
      invariant fence == FenceBefore(lines, k, PyBlank())
      invariant masked == all[..k]
    {
      assert all[..k + 1] == all[..k] + [MaskedLine(lines, k)];
      var marker := MarkerOf(lines[k]);
      if fence.Some? {
        if marker.Some? && marker.value.mark == fence.value.mark && marker.value.length >= fence.value.length
           && Blank(marker.value.rest) {
          fence := None;
        }
        masked := masked + [Mask(lines[k])];
      } else if marker.Some? {
        fence := Some(Fence(marker.value.mark, marker.value.length));
        masked := masked + [Mask(lines[k])];
      } else {
        masked := masked + [lines[k]];
      }
    }
    assert masked == all;
    text := Flatten(masked);
  }

  /** Masks fenced lines with the running fence, then the inline spans found in the result. */
  method ReportProse(report: string, inline: string -> seq<Span>) returns (prose: string)
    requires SpansInOrder(inline(Flatten(MaskedLines(SplitLines(report)))), |report|)
    ensures |prose| == |report|
    ensures forall p :: 0 <= p < |report| ==> prose[p] == Visible(report, inline, p)
  {
    var text := MaskFences(report);
    MaskedLength(report);
    var edits := Blankings(text, inline(text));
    prose := RewriteFromLast(text, edits);
    InlineLength(text, inline(text));
    forall p | 0 <= p < |report| ensures prose[p] == Visible(report, inline, p) {
      MaskedAt(report, p);
      InlineAt(text, inline(text), p);
    }
  }

  /** What the masked view shows at position p: a blank for code other than its line ends. */
  ghost function Visible(report: string, inline: string -> seq<Span>, p: nat): char
    requires p < |report|
  {
    if IsCode(report, inline, p) && !IsLineEnd(report[p]) then ' ' else report[p]
  }

  /** Position p lies in a fenced line. */
  ghost predicate InFencedLine(report: string, p: nat) {
    var lines := SplitLines(report);
    exists k :: 0 <= k < |lines| && InFence(lines, k, PyBlank()) && LineStart(lines, k) <= p < LineStart(lines, k + 1)
  }

  ghost predicate InSpan(spans: seq<Span>, p: nat) {
    exists i :: 0 <= i < |spans| && spans[i].start <= p < spans[i].finish
  }

  /** Position p belongs to fenced or inline code. */
  ghost predicate IsCode(report: string, inline: string -> seq<Span>, p: nat) {
    InFencedLine(report, p) || InSpan(inline(Flatten(MaskedLines(SplitLines(report)))), p)
  }

  lemma LineOf(lines: seq<string>, p: nat, n: nat) returns (k: nat)
    requires n <= |lines| && p < LineStart(lines, n)
    ensures k < n && LineStart(lines, k) <= p < LineStart(lines, k + 1)
  {
    LinePlaceZero(lines);
    k := 0;
    while LineStart(lines, k + 1) <= p
      invariant k < n && LineStart(lines, k) <= p
      decreases n - k
    {
      k := k + 1;
    }
  }

  lemma LinePlaceZero(lines: seq<string>)
    ensures LineStart(lines, 0) == 0
  {
    assert lines[..0] == [];
  }

  lemma {:induction false} SameStarts(lines: seq<string>, k: nat)
    requires k <= |lines|
    ensures LineStart(MaskedLines(lines), k) == LineStart(lines, k)
  {
    if k > 0 {
      SameStarts(lines, k - 1);
      LinePlace(lines, k - 1);
      LinePlace(MaskedLines(lines), k - 1);
    } else {
      LinePlaceZero(lines);
      LinePlaceZero(MaskedLines(lines));
    }
  }

  lemma {:induction false} StartsGrow(lines: seq<string>, a: nat, b: nat)
    requires a <= b <= |lines|
    ensures LineStart(lines, a) <= LineStart(lines, b)
    decreases b
  {
    if a < b {
      StartsGrow(lines, a, b - 1);
      LinePlace(lines, b - 1);
    }
  }

  lemma MaskedLength(report: string)
    ensures |Flatten(MaskedLines(SplitLines(report)))| == |report|
  {
    var lines := SplitLines(report);
    SplitLinesFlatten(report);
    assert lines[..|lines|] == lines && MaskedLines(lines)[..|lines|] == MaskedLines(lines);
    SameStarts(lines, |lines|);
  }

  lemma OneLine(lines: seq<string>, p: nat, k: nat, j: nat)
    requires k < |lines| && j < |lines|
    requires LineStart(lines, k) <= p < LineStart(lines, k + 1) && LineStart(lines, j) <= p < LineStart(lines, j + 1)
    ensures j == k
  {
    if j < k {
      StartsGrow(lines, j + 1, k);
    } else if k < j {
      StartsGrow(lines, k + 1, j);
    }
  }

  lemma FencedIffItsLine(report: string, p: nat, k: nat)
    requires k < |SplitLines(report)|
    requires LineStart(SplitLines(report), k) <= p < LineStart(SplitLines(report), k + 1)
    ensures InFencedLine(report, p) <==> InFence(SplitLines(report), k, PyBlank())
  {
    var lines := SplitLines(report);
    if InFencedLine(report, p) {
      var j :| 0 <= j < |lines| && InFence(lines, j, PyBlank()) && LineStart(lines, j) <= p < LineStart(lines, j + 1);
      OneLine(lines, p, k, j);
    }
  }

  lemma CharInLine(lines: seq<string>, p: nat, k: nat)
    requires k < |lines| && LineStart(lines, k) <= p < LineStart(lines, k + 1)
    ensures p < |Flatten(lines)| && p - LineStart(lines, k) < |lines[k]|
    ensures Flatten(lines)[p] == lines[k][p - LineStart(lines, k)]
  {
    LinePlace(lines, k);
    assert Flatten(lines)[LineStart(lines, k)..LineStart(lines, k + 1)][p - LineStart(lines, k)] == Flatten(lines)[p];
  }

  /** After the first stage a position is blanked exactly when its line is fenced. */
  lemma MaskedAt(report: string, p: nat)
    requires p < |report|
    ensures |Flatten(MaskedLines(SplitLines(report)))| == |report|
    ensures Flatten(MaskedLines(SplitLines(report)))[p] ==
      if InFencedLine(report, p) && !IsLineEnd(report[p]) then ' ' else report[p]
  {
    var lines := SplitLines(report);
    SplitLinesFlatten(report);
    MaskedLength(report);
    assert lines[..|lines|] == lines;
    var k := LineOf(lines, p, |lines|);
    SameStarts(lines, k);
    SameStarts(lines, k + 1);
    CharInLine(lines, p, k);
    CharInLine(MaskedLines(lines), p, k);
    FencedIffItsLine(report, p, k);
  }

  lemma {:induction false} BlankingsShiftNothing(text: string, spans: seq<Span>, i: nat)
    requires SpansInOrder(spans, |text|) && i <= |spans|
    ensures Shift(Blankings(text, spans), i) == 0
  {
    if i > 0 {
      BlankingsShiftNothing(text, spans, i - 1);
    }
  }

  lemma InlineLength(text: string, spans: seq<Span>)
    requires SpansInOrder(spans, |text|)
    ensures |Substituted(text, Blankings(text, spans), 0)| == |text|
  {
    LengthAdded(text, Blankings(text, spans));
    BlankingsShiftNothing(text, spans, |spans|);
  }

  /** The second stage blanks exactly the spans. */
  lemma InlineAt(text: string, spans: seq<Span>, p: nat)
    requires SpansInOrder(spans, |text|) && p < |text|
    ensures |Substituted(text, Blankings(text, spans), 0)| == |text|
    ensures Substituted(text, Blankings(text, spans), 0)[p] ==
      if InSpan(spans, p) && !IsLineEnd(text[p]) then ' ' else text[p]
  {
    InlineLength(text, spans);
    if InSpan(spans, p) {
      var i :| 0 <= i < |spans| && spans[i].start <= p < spans[i].finish;
      SpanBlanked(text, spans, i, p);
    } else {
      OutsideSpansKept(text, spans, p);
    }
  }

  lemma OutsideSpansKept(text: string, spans: seq<Span>, p: nat)
    requires SpansInOrder(spans, |text|) && p < |text| && !InSpan(spans, p)
    requires |Substituted(text, Blankings(text, spans), 0)| == |text|
    ensures Substituted(text, Blankings(text, spans), 0)[p] == text[p]
  {
    var edits := Blankings(text, spans);
    forall k | 0 <= k < |edits| ensures !(edits[k].start <= p < edits[k].finish) {
      assert !(spans[k].start <= p < spans[k].finish);
    }
    var i := FindGap(edits, |text|, p);
    CharacterKept(text, edits, i, p);
    BlankingsShiftNothing(text, spans, i);
  }

  lemma BlankedPiece(text: string, r: string, start: nat, finish: nat, p: nat)
    requires start <= p < finish <= |text| && |r| == |text|
    requires r[start..start + |Mask(text[start..finish])|] == Mask(text[start..finish])
    ensures r[p] == if IsLineEnd(text[p]) then text[p] else ' '
  {
    CharOfPiece(r, start, Mask(text[start..finish]), p);
    CharOfPiece(text, start, text[start..finish], p);
  }

  lemma SpanBlanked(text: string, spans: seq<Span>, i: nat, p: nat)
    requires SpansInOrder(spans, |text|) && i < |spans| && spans[i].start <= p < spans[i].finish
    requires |Substituted(text, Blankings(text, spans), 0)| == |text|
    ensures Substituted(text, Blankings(text, spans), 0)[p] == if IsLineEnd(text[p]) then text[p] else ' '
  {
    var edits := Blankings(text, spans);
    assert edits[i] == Edit(spans[i].start, spans[i].finish, Mask(text[spans[i].start..spans[i].finish]));
    BlankingsShiftNothing(text, spans, i);
    ReplacementPlaced(text, edits, i);
    BlankedPiece(text, Substituted(text, edits, 0), spans[i].start, spans[i].finish, p);
  }

  lemma {:induction false} OneLineLength(s: string)
    requires s != "" && forall i :: 0 <= i < |s| ==> !IsBreak(s[i])
    ensures FirstLineLength(s) == |s|
  {
    if |s| > 1 {
      OneLineLength(s[1..]);
    }
  }

  /** A single line that does not open a fence holds no fenced code. */
  lemma NoFenceInLine(s: string, p: nat)
    requires s != "" && (forall i :: 0 <= i < |s| ==> !IsBreak(s[i])) && s[0] !in {' ', '`', '~'}
    ensures !InFencedLine(s, p)
  {
    OneLineLength(s);
    assert s[..|s|] == s && s[|s|..] == "";
    assert SplitLines(s) == [s];
    assert MarkerOf(s) == None;
  }

  // ----- Rewriting the original through the masked view -----

  /** A span without white space: every match of the raw URL and numeric citation patterns is one, because they admit
      none. */
  ghost predicate Solid(prose: string, e: Edit) {
    e.finish <= |prose| && forall p :: e.start <= p < e.finish ==> !IsSpace(prose[p])
  }

  /** Such spans, found in the masked view, are valid in the original, and rewriting them there leaves every character
      of fenced and inline code as it was, moved only by what the edits before it added or removed. */
  lemma SolidSpansSpareCode(report: string, prose: string, inline: string -> seq<Span>, edits: seq<Edit>, p: nat)
    requires |prose| == |report| && forall q :: 0 <= q < |report| ==> prose[q] == Visible(report, inline, q)
    requires InOrder(edits, |prose|) && forall i :: 0 <= i < |edits| ==> Solid(prose, edits[i])
    requires p < |report| && IsCode(report, inline, p)
    ensures InOrder(edits, |report|)
    ensures exists i :: 0 <= i <= |edits| && MovedBy(report, edits, i, p)
  {
    assert prose[p] == Visible(report, inline, p);
    forall k | 0 <= k < |edits| ensures !(edits[k].start <= p < edits[k].finish) {
      assert Solid(prose, edits[k]);
    }
    var i := FindGap(edits, |report|, p);
    CharacterKept(report, edits, i, p);
    assert MovedBy(report, edits, i, p);
  }

  /** Position p lies between edits i - 1 and i, and its character ends up moved by the first i edits. */
  ghost predicate MovedBy(report: string, edits: seq<Edit>, i: nat, p: nat)
    requires InOrder(edits, |report|) && i <= |edits| && p < |report|
  {
    && GapStart(edits, i) <= p < GapEnd(edits, i, |report|)
    && var r, at := Substituted(report, edits, 0), p + Shift(edits, i);
    0 <= at < |r| && r[at] == report[p]
  }
}
