/** The second-level headings of a report outside fenced code (the scan in frontend/lib/report-document.ts
    `reportWithLimitations`). */
module HeadingScan {
  import opened Common
  import opened Fences

  /** What `trim()` removes and `\s` matches. */
  predicate JsSpace(c: char) {
    var n := c as int;
    || 9 <= n <= 13 || n == 32 || n == 0xA0 || n == 0x1680 || 0x2000 <= n <= 0x200A || n == 0x2028 || n == 0x2029
    || n == 0x202F || n == 0x205F || n == 0x3000 || n == 0xFEFF
  }

  function TrimStart(s: string): (r: string)
    ensures forall c :: c in r ==> c in s
  {
    if s != "" && JsSpace(s[0]) then TrimStart(s[1..]) else s
  }

  function TrimEnd(s: string): (r: string)
    ensures forall c :: c in r ==> c in s
  {
    if s != "" && JsSpace(s[|s| - 1]) then TrimEnd(s[..|s| - 1]) else s
  }

  function Trim(s: string): string {
    TrimEnd(TrimStart(s))
  }

  lemma {:induction false} TrimEndCuts(s: string) returns (j: nat)
    ensures j <= |s| && TrimEnd(s) == s[..j] && forall k :: j <= k < |s| ==> JsSpace(s[k])
    ensures j > 0 ==> !JsSpace(s[j - 1])
  {
    j := |s|;
    if s != "" && JsSpace(s[|s| - 1]) {
      j := TrimEndCuts(s[..|s| - 1]);
    }
  }

  lemma {:induction false} TrimStartCuts(s: string) returns (i: nat)
    ensures i <= |s| && TrimStart(s) == s[i..] && forall k :: 0 <= k < i ==> JsSpace(s[k])
    ensures i < |s| ==> !JsSpace(s[i])
  {
    i := 0;
    if s != "" && JsSpace(s[0]) {
      i := TrimStartCuts(s[1..]);
      i := i + 1;
    }
  }

  /** Trimming cuts spaces at both ends, and all of them. */
  lemma TrimCuts(s: string) returns (i: nat, j: nat)
    ensures i <= j <= |s| && Trim(s) == s[i..j]
    ensures (forall k :: 0 <= k < i ==> JsSpace(s[k])) && (forall k :: j <= k < |s| ==> JsSpace(s[k]))
    ensures i < j ==> !JsSpace(s[i]) && !JsSpace(s[j - 1])
  {
    i := TrimStartCuts(s);
    var n := TrimEndCuts(TrimStart(s));
    j := i + n;
    assert forall k :: j <= k < |s| ==> s[k] == s[i..][k - i];
  }

  function JsBlank(): string -> bool {
    (s: string) => Trim(s) == ""
  }

  // ----- Lines -----

  /** `report.match(/[^\n]*\n|[^\n]+$/g) ?? []`. */
  function Lines(s: string): seq<string> {
    if s == "" then [] else
      var n := LineLength(s);
      [s[..n]] + Lines(s[n..])
  }

  function LineLength(s: string): (n: nat)
    requires s != ""
    ensures 1 <= n <= |s|
  {
    if s[0] == '\n' || |s| == 1 then 1 else 1 + LineLength(s[1..])
  }

  lemma {:induction false} LinesFlatten(s: string)
    ensures Flatten(Lines(s)) == s
  {
    if s != "" {
      var n := LineLength(s);
      LinesFlatten(s[n..]);
      FlattenAppend([s[..n]], Lines(s[n..]));
      assert Flatten([s[..n]]) == s[..n] by {
        FlattenSnoc([], s[..n]);
        assert [] + [s[..n]] == [s[..n]];
      }
      assert s == s[..n] + s[n..];
    }
  }

  /** A line ends with its only line feed, or with the text. */
  ghost predicate IsLine(line: string, last: bool) {
    && line != "" && (forall i :: 0 <= i < |line| - 1 ==> line[i] != '\n')
    && (last || line[|line| - 1] == '\n')
  }

  lemma {:induction false} LineLengthEnds(s: string)
    requires s != ""
    ensures IsLine(s[..LineLength(s)], LineLength(s) == |s|)
  {
    if s[0] != '\n' && |s| > 1 {
      var n := LineLength(s[1..]);
      LineLengthEnds(s[1..]);
      assert forall i :: 1 <= i <= n ==> s[i] == s[1..][..n][i - 1];
    }
  }

  lemma {:induction false} LinesAreLines(s: string, k: nat)
    requires k < |Lines(s)|
    ensures IsLine(Lines(s)[k], k == |Lines(s)| - 1)
  {
    var n := LineLength(s);
    LineLengthEnds(s);
    if k > 0 {
      LinesAreLines(s[n..], k - 1);
    }
  }

  // ----- One heading line -----

  predicate IsGap(c: char) {
    c == ' ' || c == '\t'
  }

  function DropGaps(s: string): (r: string)
    ensures r <= s
  {
    if s != "" && IsGap(s[|s| - 1]) then DropGaps(s[..|s| - 1]) else s
  }

  function DropHashes(s: string): (r: string)
    ensures r <= s
  {
    if s != "" && s[|s| - 1] == '#' then DropHashes(s[..|s| - 1]) else s
  }

  function GapLength(s: string, i: nat): (n: nat)
    requires i <= |s|
    ensures i + n <= |s|
    decreases |s| - i
  {
    if i < |s| && IsGap(s[i]) then 1 + GapLength(s, i + 1) else 0
  }

  /** A line without its `\r?\n?` end. */
  function WithoutEnd(line: string): string {
    var s := if line != "" && line[|line| - 1] == '\n' then line[..|line| - 1] else line;
    if s != "" && s[|s| - 1] == '\r' then s[..|s| - 1] else s
  }

  predicate NotDot(c: char) {
    c == '\n' || c == '\r' || c as int == 0x2028 || c as int == 0x2029
  }

  /** The trimmed first group of `^##[ \t]+(.+?)[ \t]*#*[ \t]*\r?\n?$`: the shortest non-empty group that leaves only
      gaps, hashes and gaps; on a line of gaps alone the group is the last gap. */
  function HeadingTitle(line: string): (r: Option<string>)
    ensures r.Some? ==> "##" <= line
  {
    var s := WithoutEnd(line);
    if !("##" <= s) then None else
      var gaps := GapLength(s, 2);
      if gaps == 0 then None
      else if 2 + gaps == |s| then (if gaps == 1 then None else Some(""))
      else
        var rest := s[2 + gaps..];
        var group := rest[..Max(1, |DropGaps(DropHashes(DropGaps(rest)))|)];
        if exists i :: 0 <= i < |group| && NotDot(group[i]) then None else Some(Trim(group))
  }

  /** The parts a heading line is made of. */
  datatype Parts = Parts(gaps: string, group: string, before: string, hashes: string, after: string, end: string)

  ghost predicate AllGaps(s: string) {
    forall i :: 0 <= i < |s| ==> s[i] == ' ' || s[i] == '\t'
  }

  ghost predicate AllHashes(s: string) {
    forall i :: 0 <= i < |s| ==> s[i] == '#'
  }

  /** What the pattern asks of the parts. */
  ghost predicate Fits(p: Parts) {
    && p.gaps != "" && AllGaps(p.gaps)
    && p.group != "" && (forall i :: 0 <= i < |p.group| ==> !NotDot(p.group[i]))
    && AllGaps(p.before) && AllHashes(p.hashes) && AllGaps(p.after)
    && p.end in {"", "\n", "\r", "\r\n"}
  }

  ghost predicate IsHeading(line: string, p: Parts) {
    Fits(p) && line == "##" + p.gaps + p.group + p.before + p.hashes + p.after + p.end
  }

  /** The parts the pattern prefers: the longest gap, then the shortest group. */
  ghost predicate Preferred(line: string, p: Parts) {
    && IsHeading(line, p)
    && forall q :: IsHeading(line, q) ==> |q.gaps| < |p.gaps| || (|q.gaps| == |p.gaps| && |p.group| <= |q.group|)
  }

  /** What is left when gaps, hashes and gaps are cut off the end. */
  function Core(s: string): (r: string)
    ensures r <= s
  {
    DropGaps(DropHashes(DropGaps(s)))
  }

  lemma {:induction false} DropGapsCuts(s: string)
    ensures AllGaps(s[|DropGaps(s)|..])
    ensures DropGaps(s) == "" || !IsGap(DropGaps(s)[|DropGaps(s)| - 1])
  {
    if s != "" && IsGap(s[|s| - 1]) {
      DropGapsCuts(s[..|s| - 1]);
      var n := |DropGaps(s)|;
      assert s[n..] == s[..|s| - 1][n..] + [s[|s| - 1]];
    }
  }

  lemma {:induction false} DropHashesCuts(s: string)
    ensures AllHashes(s[|DropHashes(s)|..])
    ensures DropHashes(s) == "" || DropHashes(s)[|DropHashes(s)| - 1] != '#'
  {
    if s != "" && s[|s| - 1] == '#' {
      DropHashesCuts(s[..|s| - 1]);
      var n := |DropHashes(s)|;
      assert s[n..] == s[..|s| - 1][n..] + [s[|s| - 1]];
    }
  }

  lemma {:induction false} DropGapsOf(p: string, gaps: string)
    requires AllGaps(gaps)
    ensures DropGaps(p + gaps) == DropGaps(p)
    decreases |gaps|
  {
    var s := p + gaps;
    if gaps == "" {
      assert s == p;
    } else {
      assert s[|s| - 1] == gaps[|gaps| - 1];
      assert s[..|s| - 1] == p + gaps[..|gaps| - 1];
      DropGapsOf(p, gaps[..|gaps| - 1]);
    }
  }

  lemma {:induction false} DropHashesOf(p: string, hashes: string)
    requires AllHashes(hashes)
    ensures DropHashes(p + hashes) == DropHashes(p)
    decreases |hashes|
  {
    var s := p + hashes;
    if hashes == "" {
      assert s == p;
    } else {
      assert s[|s| - 1] == hashes[|hashes| - 1];
      assert s[..|s| - 1] == p + hashes[..|hashes| - 1];
      DropHashesOf(p, hashes[..|hashes| - 1]);
    }
  }

  /** No tail of gaps, hashes and gaps reaches into the core. */
  lemma CoreIsSmallest(p: string, before: string, hashes: string, after: string)
    requires AllGaps(before) && AllHashes(hashes) && AllGaps(after)
    ensures |Core(p + before + hashes + after)| <= |p|
  {
    var s := p + before + hashes;
    DropGapsOf(s, after);
    if hashes == "" {
      assert s == p + before;
      DropGapsOf(p, before);
    } else {
      assert s[|s| - 1] == hashes[|hashes| - 1];
      DropHashesOf(p + before, hashes);
      DropHashesPrefix(p, before);
    }
  }

  lemma DropHashesPrefix(p: string, gaps: string)
    requires AllGaps(gaps)
    ensures |DropGaps(DropHashes(p + gaps))| <= |p|
  {
    if gaps == "" {
      assert p + gaps == p;
    } else {
      assert (p + gaps)[|p + gaps| - 1] == gaps[|gaps| - 1];
      DropGapsOf(p, gaps);
    }
  }

  lemma {:induction false} DropGapsBehind(u: string, v: string)
    requires DropGaps(v) != ""
    ensures DropGaps(u + v) == u + DropGaps(v)
    decreases |v|
  {
    assert (u + v)[|u + v| - 1] == v[|v| - 1];
    if IsGap(v[|v| - 1]) {
      assert (u + v)[..|u + v| - 1] == u + v[..|v| - 1];
      DropGapsBehind(u, v[..|v| - 1]);
    }
  }

  lemma {:induction false} DropHashesBehind(u: string, v: string)
    requires DropHashes(v) != ""
    ensures DropHashes(u + v) == u + DropHashes(v)
    decreases |v|
  {
    assert (u + v)[|u + v| - 1] == v[|v| - 1];
    if v[|v| - 1] == '#' {
      assert (u + v)[..|u + v| - 1] == u + v[..|v| - 1];
      DropHashesBehind(u, v[..|v| - 1]);
    }
  }

  lemma CoreBehind(u: string, v: string)
    requires Core(v) != ""
    ensures Core(u + v) == u + Core(v)
  {
    DropGapsBehind(u, v);
    DropHashesBehind(u, DropGaps(v));
    DropGapsBehind(u, DropHashes(DropGaps(v)));
  }

  lemma {:induction false} GapLengthIsLongest(s: string, i: nat)
    requires i <= |s|
    ensures forall j :: i <= j < i + GapLength(s, i) ==> IsGap(s[j])
    ensures i + GapLength(s, i) < |s| ==> !IsGap(s[i + GapLength(s, i)])
    decreases |s| - i
  {
    if i < |s| && IsGap(s[i]) {
      GapLengthIsLongest(s, i + 1);
    }
  }

  /** The line in front of its end. */
  function Body(p: Parts): string {
    "##" + p.gaps + p.group + p.before + p.hashes + p.after
  }

  ghost predicate Unbroken(s: string) {
    forall i :: 0 <= i < |s| ==> s[i] != '\n' && s[i] != '\r'
  }

  lemma BodyUnbroken(p: Parts)
    requires Fits(p)
    ensures Unbroken(Body(p))
  {
    assert Unbroken("##" + p.gaps + p.group);
    assert Unbroken(p.before + p.hashes + p.after);
    assert Body(p) == "##" + p.gaps + p.group + (p.before + p.hashes + p.after);
  }

  lemma EndDropped(body: string, end: string)
    requires Unbroken(body) && end in {"", "\n", "\r", "\r\n"}
    ensures WithoutEnd(body + end) == body
  {
    var line := body + end;
    if end == "" {
      assert line == body;
    } else if end == "\r\n" {
      assert line[..|line| - 1] == body + ['\r'];
      assert (body + ['\r'])[..|body|] == body;
    } else {
      assert line[..|line| - 1] == body;
    }
  }

  lemma EndCut(line: string)
    ensures WithoutEnd(line) <= line && line[|WithoutEnd(line)|..] in {"", "\n", "\r", "\r\n"}
  {
    var n := |line|;
    assert line[n..] == "";
    if n > 0 && line[n - 1] == '\n' {
      assert line[n - 1..] == "\n";
      if n > 1 && line[n - 2] == '\r' {
        assert line[n - 2..] == "\r\n";
        assert line[..n - 1][..n - 2] == line[..n - 2];
      }
    } else if n > 0 && line[n - 1] == '\r' {
      assert line[n - 1..] == "\r";
    }
  }

  /** The gap of any parts is no longer than the run of gaps; the body is the line without its end. */
  lemma PartsInside(line: string, q: Parts)
    requires IsHeading(line, q)
    ensures WithoutEnd(line) == Body(q) && "##" <= Body(q)
    ensures 1 <= |q.gaps| <= GapLength(Body(q), 2) && 2 + |q.gaps| + |q.group| <= |Body(q)|
  {
    BodyUnbroken(q);
    EndDropped(Body(q), q.end);
    assert line == Body(q) + q.end;
    var s := Body(q);
    GapLengthIsLongest(s, 2);
    assert forall j :: 2 <= j < 2 + |q.gaps| ==> s[j] == q.gaps[j - 2];
    assert IsGap(s[2]);
  }

  lemma GapTrims(g: string)
    requires |g| == 1 && IsGap(g[0])
    ensures Trim(g) == ""
  {
    assert g[1..] == "" && TrimStart(g[1..]) == "" && TrimEnd("") == "";
  }

  /** A line that starts like a heading: its hashes, its gap, the rest and its end. */
  lemma LineSplits(line: string) returns (gaps: string, rest: string, end: string)
    requires "##" <= WithoutEnd(line)
    ensures WithoutEnd(line) == "##" + gaps + rest && line == WithoutEnd(line) + end
    ensures |gaps| == GapLength(WithoutEnd(line), 2) && AllGaps(gaps) && (rest == "" || !IsGap(rest[0]))
    ensures rest == WithoutEnd(line)[2 + |gaps|..] && end in {"", "\n", "\r", "\r\n"}
  {
    var s := WithoutEnd(line);
    var n := GapLength(s, 2);
    EndCut(line);
    GapLengthIsLongest(s, 2);
    gaps, rest, end := s[2..2 + n], s[2 + n..], line[|s|..];
  }

  /** What the core leaves of the rest. */
  lemma CutOff(s: string, r: string)
    requires r <= s
    ensures s == r + s[|r|..]
  {
  }

  lemma CoreSplits(rest: string) returns (before: string, hashes: string, after: string)
    ensures rest == Core(rest) + before + hashes + after
    ensures AllGaps(before) && AllHashes(hashes) && AllGaps(after)
  {
    var d1 := DropGaps(rest);
    var d2 := DropHashes(d1);
    DropGapsCuts(rest);
    DropHashesCuts(d1);
    DropGapsCuts(d2);
    before, hashes, after := d2[|Core(rest)|..], d1[|d2|..], rest[|d1|..];
    CutOff(rest, d1);
    CutOff(d1, d2);
    CutOff(d2, Core(rest));
  }

  /** Nothing but hashes and gaps behind the gap: the first hash is the group. */
  lemma HashesSplit(rest: string) returns (hashes: string, after: string)
    requires rest != "" && !IsGap(rest[0]) && Core(rest) == ""
    ensures rest == "#" + hashes + after && AllHashes(hashes) && AllGaps(after)
  {
    var before, all;
    before, all, after := CoreSplits(rest);
    assert before <= rest;
    assert rest == all + after;
    hashes := all[1..];
    assert all == "#" + hashes;
  }

  /** No parts have a longer gap than these. */
  lemma LongestGaps(line: string, p: Parts)
    requires IsHeading(line, p) && |p.group| == 1
    requires |p.gaps| == Min(GapLength(WithoutEnd(line), 2), |WithoutEnd(line)| - 3)
    ensures Preferred(line, p)
  {
    forall q | IsHeading(line, q) ensures |q.gaps| <= |p.gaps| {
      PartsInside(line, q);
    }
  }

  /** The body, the run of gaps and the core of a line. */
  ghost predicate HasCore(line: string, s: string, gaps: nat, core: string) {
    s == WithoutEnd(line) && 2 <= |s| && gaps == GapLength(s, 2) && core == Core(s[2 + gaps..]) && core != ""
  }

  /** Whatever parts the line has, its core lies in their gap and group; with the longest gap, in the group. */
  lemma CoreInGroup(line: string, s: string, gaps: nat, core: string, q: Parts)
    requires HasCore(line, s, gaps, core) && IsHeading(line, q)
    ensures s == Body(q) && 1 <= |q.gaps| <= gaps && gaps + |core| <= |q.gaps| + |q.group|
  {
    PartsInside(line, q);
    CoreLength(s, 2 + gaps);
    CoreIsSmallest("##" + q.gaps + q.group, q.before, q.hashes, q.after);
  }

  lemma GroupAt(q: Parts, j: nat)
    requires |q.gaps| <= j < |q.gaps| + |q.group|
    ensures 2 + j < |Body(q)| && Body(q)[2 + j] == q.group[j - |q.gaps|]
  {
  }

  /** So if the line has any parts, its core fits. */
  lemma CoreFits(line: string, s: string, gaps: nat, core: string, q: Parts, i: nat)
    requires HasCore(line, s, gaps, core) && IsHeading(line, q) && i < |core|
    ensures !NotDot(core[i])
  {
    CoreInGroup(line, s, gaps, core, q);
    GroupAt(q, gaps + i);
    assert core <= s[2 + gaps..];
    assert core[i] == s[2 + gaps + i];
  }

  lemma CoreLength(s: string, n: nat)
    requires n <= |s| && Core(s[n..]) != ""
    ensures |Core(s)| == n + |Core(s[n..])|
  {
    CoreBehind(s[..n], s[n..]);
    assert s == s[..n] + s[n..];
  }

  /** The parts of a line whose rest has a core: the run of gaps, and the core as group. */
  ghost predicate CoreIsGroup(line: string, p: Parts) {
    var s := WithoutEnd(line);
    && "##" <= s && 0 < GapLength(s, 2) && 2 + GapLength(s, 2) < |s| && Core(s[2 + GapLength(s, 2)..]) != ""
    && line == Body(p) + p.end && (Fits(p) <==> forall i :: 0 <= i < |p.group| ==> !NotDot(p.group[i]))
    && |p.gaps| == GapLength(s, 2) && p.group == Core(s[2 + GapLength(s, 2)..])
  }

  lemma TitleOfGroup(line: string, s: string, gaps: nat, group: string)
    requires s == WithoutEnd(line) && "##" <= s && gaps == GapLength(s, 2) && 0 < gaps && 2 + gaps < |s|
    requires group == s[2 + gaps..][..Max(1, |Core(s[2 + gaps..])|)]
    ensures HeadingTitle(line) ==
      if exists i :: 0 <= i < |group| && NotDot(group[i]) then None else Some(Trim(group))
  {
  }

  lemma CoreTitle(line: string, p: Parts)
    requires CoreIsGroup(line, p)
    ensures HeadingTitle(line) == if Fits(p) then Some(Trim(p.group)) else None
  {
    PrefixIs(WithoutEnd(line)[2 + |p.gaps|..], p.group);
    TitleOfGroup(line, WithoutEnd(line), |p.gaps|, p.group);
  }

  lemma PrefixIs(s: string, r: string)
    requires r <= s && r != ""
    ensures r == s[..Max(1, |r|)]
  {
  }

  lemma CorePreferred(line: string, p: Parts)
    requires CoreIsGroup(line, p) && Fits(p)
    ensures Preferred(line, p)
  {
    forall q | IsHeading(line, q)
      ensures |q.gaps| < |p.gaps| || (|q.gaps| == |p.gaps| && |p.group| <= |q.group|)
    {
      CoreInGroup(line, WithoutEnd(line), |p.gaps|, p.group, q);
    }
  }

  /** If the core does not fit, no parts do. */
  lemma CoreOrNothing(line: string, p: Parts, q: Parts)
    requires CoreIsGroup(line, p) && IsHeading(line, q)
    ensures Fits(p)
  {
    forall i | 0 <= i < |p.group| ensures !NotDot(p.group[i]) {
      CoreFits(line, WithoutEnd(line), |p.gaps|, p.group, q, i);
    }
  }

  lemma TitleWithCore(line: string, p: Parts)
    requires CoreIsGroup(line, p)
    ensures HeadingTitle(line) == if Fits(p) then Some(Trim(p.group)) else None
    ensures Fits(p) ==> Preferred(line, p)
    ensures !Fits(p) ==> forall q :: !IsHeading(line, q)
  {
    CoreTitle(line, p);
    forall q | IsHeading(line, q) ensures Fits(p) {
      CoreOrNothing(line, p, q);
    }
    if Fits(p) {
      CorePreferred(line, p);
    }
  }

  /** The scanner accepts a line exactly when it fits the pattern, and titles it by the group the pattern prefers. */
  lemma HeadingIff(line: string)
    ensures HeadingTitle(line) == None <==> forall p :: !IsHeading(line, p)
    ensures HeadingTitle(line).Some? ==> exists p :: Preferred(line, p) && HeadingTitle(line) == Some(Trim(p.group))
  {
    forall q | IsHeading(line, q)
      ensures var s := WithoutEnd(line); "##" <= s && 0 < GapLength(s, 2) && 3 < |s|
    {
      PartsInside(line, q);
    }
    var s := WithoutEnd(line);
    if "##" <= s && 0 < GapLength(s, 2) && 3 < |s| {
      FittingHeading(line);
    }
  }

  lemma FittingHeading(line: string)
    requires var s := WithoutEnd(line); "##" <= s && 0 < GapLength(s, 2) && 3 < |s|
    ensures HeadingTitle(line) == None <==> forall p :: !IsHeading(line, p)
    ensures HeadingTitle(line).Some? ==> exists p :: Preferred(line, p) && HeadingTitle(line) == Some(Trim(p.group))
  {
    var gaps, rest, end := LineSplits(line);
    if rest == "" {
      GapsOnly(line, gaps, end);
    } else if Core(rest) == "" {
      HashGroup(line, gaps, rest, end);
    } else {
      CoreGroup(line, gaps, rest, end);
    }
  }

  /** A line of gaps alone: the last gap is the group. */
  lemma GapsOnly(line: string, gaps: string, end: string)
    requires WithoutEnd(line) == "##" + gaps && line == "##" + gaps + end && |gaps| > 1
    requires |gaps| == GapLength(WithoutEnd(line), 2) && AllGaps(gaps) && end in {"", "\n", "\r", "\r\n"}
    ensures HeadingTitle(line).Some?
    ensures exists p :: Preferred(line, p) && HeadingTitle(line) == Some(Trim(p.group))
  {
    var n := |gaps| - 1;
    var p := Parts(gaps[..n], gaps[n..], "", "", "", end);
    assert gaps == p.gaps + p.group;
    assert IsHeading(line, p) by {
      assert "##" + gaps == Body(p);
    }
    LongestGaps(line, p);
    GapTrims(p.group);
  }

  lemma HashTitle(line: string, gaps: nat, rest: string)
    requires var s := WithoutEnd(line); "##" <= s && gaps == GapLength(s, 2) > 0 && rest == s[2 + gaps..]
    requires rest != "" && rest[0] == '#' && Core(rest) == ""
    ensures HeadingTitle(line) == Some(Trim("#"))
  {
    assert rest[..1] == "#" && !NotDot('#');
  }

  lemma HashParts(line: string, gaps: string, hashes: string, after: string, end: string)
    requires line == "##" + gaps + "#" + hashes + after + end && gaps != "" && AllGaps(gaps) && AllHashes(hashes)
    requires AllGaps(after) && end in {"", "\n", "\r", "\r\n"}
    ensures IsHeading(line, Parts(gaps, "#", "", hashes, after, end))
  {
    var p := Parts(gaps, "#", "", hashes, after, end);
    assert "##" + gaps + "#" + "" == "##" + gaps + "#";
    assert Fits(p);
  }

  lemma HashGroup(line: string, gaps: string, rest: string, end: string)
    requires WithoutEnd(line) == "##" + gaps + rest && line == WithoutEnd(line) + end && gaps != ""
    requires |gaps| == GapLength(WithoutEnd(line), 2) && AllGaps(gaps) && end in {"", "\n", "\r", "\r\n"}
    requires rest != "" && !IsGap(rest[0]) && Core(rest) == "" && rest == WithoutEnd(line)[2 + |gaps|..]
    ensures HeadingTitle(line).Some?
    ensures exists p :: Preferred(line, p) && HeadingTitle(line) == Some(Trim(p.group))
  {
    var hashes, after := HashesSplit(rest);
    var p := Parts(gaps, "#", "", hashes, after, end);
    Joined("##" + gaps, "#", hashes, after);
    HashParts(line, gaps, hashes, after, end);
    LongestGaps(line, p);
    HashTitle(line, |gaps|, rest);
  }

  lemma Joined(a: string, b: string, c: string, d: string)
    ensures a + (b + c + d) == a + b + c + d
  {
  }

  lemma CoreGroup(line: string, gaps: string, rest: string, end: string)
    requires WithoutEnd(line) == "##" + gaps + rest && line == WithoutEnd(line) + end && gaps != ""
    requires |gaps| == GapLength(WithoutEnd(line), 2) && AllGaps(gaps) && end in {"", "\n", "\r", "\r\n"}
    requires Core(rest) != "" && rest == WithoutEnd(line)[2 + |gaps|..]
    ensures HeadingTitle(line) == None <==> forall p :: !IsHeading(line, p)
    ensures HeadingTitle(line).Some? ==> exists p :: Preferred(line, p) && HeadingTitle(line) == Some(Trim(p.group))
  {
    var before, hashes, after := CoreSplits(rest);
    var p := Parts(gaps, Core(rest), before, hashes, after, end);
    Reassembled("##" + gaps, rest, Core(rest), before, hashes, after);
    TitleWithCore(line, p);
  }

  lemma Reassembled(start: string, rest: string, core: string, before: string, hashes: string, after: string)
    requires rest == core + before + hashes + after
    ensures start + rest == start + core + before + hashes + after
  {
  }

  // ----- All headings -----

  datatype Heading = Heading(title: string, start: nat)

  function HeadingAt(lines: seq<string>, k: nat): (r: Option<Heading>)
    requires k < |lines|
    ensures r.Some? ==> r.value.start == LineStart(lines, k) && IsHeadingLine(lines, k)
  {
    if InFence(lines, k, JsBlank()) then None
    else match HeadingTitle(lines[k])
      case None => None
      case Some(title) => Some(Heading(title, LineStart(lines, k)))
  }

  predicate IsHeadingLine(lines: seq<string>, k: nat)
    requires k < |lines|
  {
    !InFence(lines, k, JsBlank()) && "##" <= lines[k]
  }

  /** The second-level headings among the first n lines, outside fenced code, with their offsets. */
  function Headings(lines: seq<string>, n: nat): seq<Heading>
    requires n <= |lines|
  {
    if n == 0 then []
    else if HeadingAt(lines, n - 1).Some? then Headings(lines, n - 1) + [HeadingAt(lines, n - 1).value]
    else Headings(lines, n - 1)
  }

  /** The loop over the lines with its running offset and fence. */
  method FindHeadings(report: string) returns (headings: seq<Heading>)
    ensures headings == Headings(Lines(report), |Lines(report)|)
    ensures ListsHeadings(headings, Lines(report), |Lines(report)|)
  {
    HeadingsListed(Lines(report), |Lines(report)|);
    var lines := Lines(report);
    headings := [];
    var offset := 0;
    var fence: Option<Fence> := None;
    assert lines[..0] == [];
    for k := 0 to |lines|
      invariant offset == LineStart(lines, k)
      invariant fence == FenceBefore(lines, k, JsBlank())
      invariant headings == Headings(lines, k)
    {
      var line := lines[k];
      var marker := MarkerOf(line);
      if fence.Some? {
        if marker.Some? && marker.value.mark == fence.value.mark && marker.value.length >= fence.value.length
           && Trim(marker.value.rest) == "" {
          fence := None;
        }
      } else if marker.Some? {
        fence := Some(Fence(marker.value.mark, marker.value.length));
      } else {
        var title := HeadingTitle(line);
        if title.Some? {
          headings := headings + [Heading(title.value, offset)];
        }
      }
      LinePlace(lines, k);
      offset := offset + |line|;
    }
  }

  /** Headings in ascending order, all before a bound. */
  ghost predicate Ascends(headings: seq<Heading>, bound: nat) {
    && (forall i :: 0 <= i < |headings| ==> headings[i].start < bound)
    && (forall i, j :: 0 <= i < j < |headings| ==> headings[i].start < headings[j].start)
  }

  lemma {:induction false} HeadingsAscend(lines: seq<string>, n: nat)
    requires n <= |lines|
    ensures Ascends(Headings(lines, n), LineStart(lines, n))
  {
    if n > 0 {
      HeadingsAscend(lines, n - 1);
      NextLineStart(lines, n - 1);
      if HeadingAt(lines, n - 1).Some? {
        AscendsSnoc(Headings(lines, n - 1), HeadingAt(lines, n - 1).value, LineStart(lines, n));
      }
    }
  }

  lemma AscendsSnoc(headings: seq<Heading>, last: Heading, bound: nat)
    requires Ascends(headings, last.start) && last.start < bound
    ensures Ascends(headings + [last], bound)
  {
  }

  lemma PreferredUnique(line: string, p: Parts, q: Parts)
    requires Preferred(line, p) && Preferred(line, q)
    ensures p.group == q.group
  {
    assert p.group == line[2 + |p.gaps|..2 + |p.gaps| + |p.group|];
    assert q.group == line[2 + |q.gaps|..2 + |q.gaps| + |q.group|];
  }

  /** Line k is this heading: outside fenced code, of the pattern's form, titled by the group the pattern prefers. */
  ghost predicate HeadingOf(lines: seq<string>, k: nat, h: Heading) {
    && k < |lines| && !InFence(lines, k, JsBlank()) && h.start == LineStart(lines, k)
    && exists p :: Preferred(lines[k], p) && h.title == Trim(p.group)
  }

  lemma HeadingAtIff(lines: seq<string>, k: nat, h: Heading)
    requires k < |lines|
    ensures HeadingAt(lines, k) == Some(h) <==> HeadingOf(lines, k, h)
  {
    HeadingIff(lines[k]);
    if p :| Preferred(lines[k], p) && h.title == Trim(p.group) {
      assert IsHeading(lines[k], p);
      var q :| Preferred(lines[k], q) && HeadingTitle(lines[k]) == Some(Trim(q.group));
      PreferredUnique(lines[k], p, q);
    }
  }

  /** The headings among the first n lines, in order, and nothing else. */
  ghost predicate ListsHeadings(headings: seq<Heading>, lines: seq<string>, n: nat)
    requires n <= |lines|
  {
    && Ascends(headings, LineStart(lines, n))
    && forall h :: h in headings <==> exists k: nat :: k < n && HeadingOf(lines, k, h)
  }

  lemma InSnoc<T>(s: seq<T>, x: T, h: T)
    ensures h in s + [x] <==> h in s || h == x
  {
  }

  lemma ListedBefore(lines: seq<string>, n: nat, h: Heading)
    requires 0 < n <= |lines|
    ensures h in Headings(lines, n) <==> h in Headings(lines, n - 1) || HeadingAt(lines, n - 1) == Some(h)
  {
    if HeadingAt(lines, n - 1).Some? {
      InSnoc(Headings(lines, n - 1), HeadingAt(lines, n - 1).value, h);
    }
  }

  lemma {:induction false} HeadingsListed(lines: seq<string>, n: nat)
    requires n <= |lines|
    ensures ListsHeadings(Headings(lines, n), lines, n)
  {
    HeadingsAscend(lines, n);
    if n > 0 {
      HeadingsListed(lines, n - 1);
      forall h ensures h in Headings(lines, n) <==> exists k: nat :: k < n && HeadingOf(lines, k, h) {
        ListedBefore(lines, n, h);
        HeadingAtIff(lines, n - 1, h);
        if k: nat :| k < n && HeadingOf(lines, k, h) {
          assert k < n - 1 || k == n - 1;
        }
      }
    }
  }
}
