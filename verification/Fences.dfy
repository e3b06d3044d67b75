/** Fenced code in Markdown lines: the scanner shared by backend/src/atlasflow/agents/report_skill.py `report_prose` and
    frontend/lib/report-document.ts `reportWithLimitations`. */
module Fences {
  import opened Common

  /** What `^ {0,3}(`{3,}|~{3,})([^\r\n]*)` finds in a line. */
  datatype Marker = Marker(mark: char, length: nat, rest: string)

  /** An open fence: its mark and how many marks opened it. */
  datatype Fence = Fence(mark: char, length: nat)

  /** How many times c occurs in a row from position i. */
  function RunLength(s: string, i: nat, c: char): (n: nat)
    ensures i <= |s| ==> i + n <= |s|
    decreases |s| - i
  {
    if i < |s| && s[i] == c then 1 + RunLength(s, i + 1, c) else 0
  }

  /** The text up to the first line break. */
  function BeforeBreak(s: string): string {
    if s == "" || s[0] == '\n' || s[0] == '\r' then "" else [s[0]] + BeforeBreak(s[1..])
  }

  function MarkerOf(line: string): Option<Marker> {
    var k := RunLength(line, 0, ' ');
    if k > 3 || k >= |line| || line[k] !in {'`', '~'} then None
    else
      var n := RunLength(line, k, line[k]);
      if n < 3 then None else Some(Marker(line[k], n, BeforeBreak(line[k + n..])))
  }

  /** The fence after a line; `blank` is the language's own notion of a string that strips to nothing. */
  function NextFence(fence: Option<Fence>, line: string, blank: string -> bool): Option<Fence> {
    var marker := MarkerOf(line);
    if fence.Some? then
      if marker.Some? && marker.value.mark == fence.value.mark && marker.value.length >= fence.value.length
         && blank(marker.value.rest)
      then None else fence
    else if marker.Some? then Some(Fence(marker.value.mark, marker.value.length))
    else None
  }

  /** The fence that is open before line k. */
  function FenceBefore(lines: seq<string>, k: nat, blank: string -> bool): Option<Fence>
    requires k <= |lines|
  {
    if k == 0 then None else NextFence(FenceBefore(lines, k - 1, blank), lines[k - 1], blank)
  }

  /** Line k belongs to fenced code: a fence is open, or the line opens one. */
  predicate InFence(lines: seq<string>, k: nat, blank: string -> bool)
    requires k < |lines|
  {
    FenceBefore(lines, k, blank).Some? || MarkerOf(lines[k]).Some?
  }

  // ----- Markers and fences in their own terms -----

  /** Exactly n times c from position i on. */
  ghost predicate IsRun(s: string, i: nat, c: char, n: nat) {
    i + n <= |s| && (forall j :: i <= j < i + n ==> s[j] == c) && (i + n < |s| ==> s[i + n] != c)
  }

  lemma {:induction false} RunLengthIsRun(s: string, i: nat, c: char)
    requires i <= |s|
    ensures IsRun(s, i, c, RunLength(s, i, c))
    decreases |s| - i
  {
    if i < |s| && s[i] == c {
      RunLengthIsRun(s, i + 1, c);
    }
  }

  /** The text up to its first line break. */
  ghost predicate IsFirstLine(s: string, r: string) {
    && r <= s && '\n' !in r && '\r' !in r
    && (|r| < |s| ==> s[|r|] == '\n' || s[|r|] == '\r')
  }

  lemma {:induction false} BeforeBreakIsFirstLine(s: string)
    ensures IsFirstLine(s, BeforeBreak(s))
  {
    if s != "" && s[0] != '\n' && s[0] != '\r' {
      BeforeBreakIsFirstLine(s[1..]);
      assert s == [s[0]] + s[1..];
    }
  }

  lemma FirstLineUnique(s: string, a: string, b: string)
    requires IsFirstLine(s, a) && IsFirstLine(s, b)
    ensures a == b
  {
    assert forall i :: 0 <= i < |a| ==> s[i] == a[i] && a[i] in a;
    assert forall i :: 0 <= i < |b| ==> s[i] == b[i] && b[i] in b;
  }

  /** At most three spaces, then at least three of the same mark, then the rest of the line. */
  ghost predicate IsMarker(line: string, indent: nat, m: Marker) {
    && indent <= 3 && IsRun(line, 0, ' ', indent)
    && (m.mark == '`' || m.mark == '~') && m.length >= 3 && IsRun(line, indent, m.mark, m.length)
    && IsFirstLine(line[indent + m.length..], m.rest)
  }

  lemma FoundHasForm(line: string)
    requires MarkerOf(line).Some?
    ensures IsMarker(line, RunLength(line, 0, ' '), MarkerOf(line).value)
  {
    var k := RunLength(line, 0, ' ');
    RunLengthIsRun(line, 0, ' ');
    RunLengthIsRun(line, k, line[k]);
    BeforeBreakIsFirstLine(line[k + RunLength(line, k, line[k])..]);
  }

  lemma FormIsFound(line: string, indent: nat, m: Marker)
    requires IsMarker(line, indent, m)
    ensures MarkerOf(line) == Some(m)
  {
    RunLengthIsRun(line, 0, ' ');
    SameRun(line, 0, ' ', RunLength(line, 0, ' '), indent);
    RunLengthIsRun(line, indent, m.mark);
    SameRun(line, indent, m.mark, RunLength(line, indent, m.mark), m.length);
    assert line[indent] == m.mark;
    BeforeBreakIsFirstLine(line[indent + m.length..]);
    FirstLineUnique(line[indent + m.length..], BeforeBreak(line[indent + m.length..]), m.rest);
  }

  /** The scanner finds the marker exactly when the line has its form. */
  lemma MarkerIff(line: string, m: Marker)
    ensures MarkerOf(line) == Some(m) <==> exists indent: nat :: IsMarker(line, indent, m)
  {
    if MarkerOf(line) == Some(m) {
      FoundHasForm(line);
    }
    if indent: nat :| IsMarker(line, indent, m) {
      FormIsFound(line, indent, m);
    }
  }

  lemma SameRun(s: string, i: nat, c: char, n: nat, m: nat)
    requires IsRun(s, i, c, n) && IsRun(s, i, c, m)
    ensures n == m
  {
  }

  /** The line closes the fence: as many of its marks at least, and nothing else. */
  ghost predicate Closes(line: string, fence: Fence, blank: string -> bool) {
    exists indent: nat, m ::
      IsMarker(line, indent, m) && m.mark == fence.mark && m.length >= fence.length && blank(m.rest)
  }

  /** Line j opens the fence. */
  ghost predicate Opens(line: string, fence: Fence) {
    exists indent: nat, m :: IsMarker(line, indent, m) && m.mark == fence.mark && m.length == fence.length
  }

  ghost predicate OpenSince(lines: seq<string>, j: nat, k: nat, fence: Fence, blank: string -> bool)
    requires k <= |lines|
  {
    && j < k && FenceBefore(lines, j, blank) == None && Opens(lines[j], fence)
    && forall i :: j < i < k ==> !Closes(lines[i], fence, blank)
  }

  lemma ClosesIff(line: string, fence: Fence, blank: string -> bool)
    ensures Closes(line, fence, blank) <==> NextFence(Some(fence), line, blank) == None
    ensures NextFence(Some(fence), line, blank) in {None, Some(fence)}
  {
    if Closes(line, fence, blank) {
      var indent: nat, m :|
        IsMarker(line, indent, m) && m.mark == fence.mark && m.length >= fence.length && blank(m.rest);
      MarkerIff(line, m);
    }
    if MarkerOf(line).Some? {
      MarkerIff(line, MarkerOf(line).value);
    }
  }

  lemma OpensIff(line: string, fence: Fence, blank: string -> bool)
    ensures Opens(line, fence) <==> NextFence(None, line, blank) == Some(fence)
  {
    if indent: nat, m :| IsMarker(line, indent, m) && m.mark == fence.mark && m.length == fence.length {
      MarkerIff(line, m);
    }
    if MarkerOf(line).Some? {
      MarkerIff(line, MarkerOf(line).value);
    }
  }

  /** A fence is open exactly since the line that opened it outside code and while no later line closed it. */
  lemma {:induction false} OpenIffSince(lines: seq<string>, k: nat, fence: Fence, blank: string -> bool)
    requires k <= |lines|
    ensures FenceBefore(lines, k, blank) == Some(fence) <==> exists j: nat :: OpenSince(lines, j, k, fence, blank)
  {
    if k > 0 {
      var before := FenceBefore(lines, k - 1, blank);
      OpenIffSince(lines, k - 1, fence, blank);
      ClosesIff(lines[k - 1], fence, blank);
      OpensIff(lines[k - 1], fence, blank);
      if before == None && FenceBefore(lines, k, blank) == Some(fence) {
        assert OpenSince(lines, k - 1, k, fence, blank);
      } else if FenceBefore(lines, k, blank) == Some(fence) {
        ClosesIff(lines[k - 1], before.value, blank);
        var j: nat :| OpenSince(lines, j, k - 1, fence, blank);
        assert OpenSince(lines, j, k, fence, blank);
      }
      if j: nat :| OpenSince(lines, j, k, fence, blank) {
        if j < k - 1 {
          assert OpenSince(lines, j, k - 1, fence, blank);
        }
      }
    }
  }

  /** A line belongs to code exactly when it is a marker or lies in an open fence. */
  lemma InFenceIff(lines: seq<string>, k: nat, blank: string -> bool)
    requires k < |lines|
    ensures InFence(lines, k, blank) <==>
      || (exists indent: nat, m :: IsMarker(lines[k], indent, m))
      || (exists j: nat, fence :: OpenSince(lines, j, k, fence, blank))
  {
    if MarkerOf(lines[k]).Some? {
      MarkerIff(lines[k], MarkerOf(lines[k]).value);
    }
    if indent: nat, m :| IsMarker(lines[k], indent, m) {
      MarkerIff(lines[k], m);
    }
    if FenceBefore(lines, k, blank).Some? {
      OpenIffSince(lines, k, FenceBefore(lines, k, blank).value, blank);
    }
    if j: nat, fence :| OpenSince(lines, j, k, fence, blank) {
      OpenIffSince(lines, k, fence, blank);
    }
  }

  function Flatten(lines: seq<string>): string {
    if lines == [] then "" else Flatten(lines[..|lines| - 1]) + lines[|lines| - 1]
  }

  function LineStart(lines: seq<string>, k: nat): nat
    requires k <= |lines|
  {
    |Flatten(lines[..k])|
  }

  lemma FlattenSnoc(lines: seq<string>, line: string)
    ensures Flatten(lines + [line]) == Flatten(lines) + line
  {
    assert (lines + [line])[..|lines|] == lines;
  }

  lemma {:induction false} FlattenAppend(a: seq<string>, b: seq<string>)
    ensures Flatten(a + b) == Flatten(a) + Flatten(b)
    decreases |b|
  {
    if b == [] {
      assert a + b == a;
    } else {
      var front, last := b[..|b| - 1], b[|b| - 1];
      FlattenAppend(a, front);
      assert a + b == (a + front) + [last];
      FlattenSnoc(a + front, last);
      assert Flatten(a) + (Flatten(front) + last) == Flatten(a) + Flatten(front) + last;
    }
  }

  lemma NextLineStart(lines: seq<string>, k: nat)
    requires k < |lines|
    ensures LineStart(lines, k + 1) == LineStart(lines, k) + |lines[k]|
  {
    assert lines[..k + 1] == lines[..k] + [lines[k]];
    FlattenSnoc(lines[..k], lines[k]);
  }

  /** Line k occupies exactly the characters from its start to the next line's start. */
  lemma LinePlace(lines: seq<string>, k: nat)
    requires k < |lines|
    ensures LineStart(lines, k + 1) == LineStart(lines, k) + |lines[k]| <= |Flatten(lines)|
    ensures Flatten(lines)[LineStart(lines, k)..LineStart(lines, k + 1)] == lines[k]
  {
    var before, upto := lines[..k], lines[..k + 1];
    assert upto == before + [lines[k]];
    FlattenSnoc(before, lines[k]);
    assert lines == upto + lines[k + 1..];
    FlattenAppend(upto, lines[k + 1..]);
  }
}
