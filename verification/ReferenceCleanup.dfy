/** Removing invalid references from a paragraph (backend/src/atlasflow/agents/report_publication.py
    `_clean_references`, `_source_links`). */
module ReferenceCleanup {
  import opened Common
  import opened Sorting
  import opened Splice
  import S = CodeMask
  import H = HistoricalCitations

  /** A match of the citation pattern, with its number, or of the internal pattern. */
  datatype Marker = Marker(start: nat, finish: nat, number: Option<nat>)

  function StartOf(m: Marker): int {
    m.start
  }

  // ----- What the two patterns match -----

  /** `[`, something without `]`, `]`. */
  ghost predicate Bracketed(view: string, m: Marker) {
    && m.start + 2 < m.finish <= |view| && view[m.start] == '[' && view[m.finish - 1] == ']'
    && forall p :: m.start < p < m.finish - 1 ==> view[p] != ']'
  }

  /** `\d`, of which the proofs need only that it matches none of the patterns' own characters. */
  ghost predicate DigitClass(digit: char -> bool) {
    forall c :: digit(c) ==> c !in {'[', ']', 'S', 't'}
  }

  /** `\[(\d{1,3})\]`. */
  ghost predicate IsCitation(view: string, m: Marker, digit: char -> bool) {
    && Bracketed(view, m) && m.number.Some? && m.finish <= m.start + 5
    && forall p :: m.start < p < m.finish - 1 ==> digit(view[p])
  }

  /** `\[(?:S\d+|task:[^\]\n]+|[0-9a-fA-F]{8,36})\]`: inside it starts with S, with t, or is at least 8 long. */
  ghost predicate IsInternal(view: string, m: Marker) {
    && Bracketed(view, m) && m.number.None?
    && (view[m.start + 1] == 'S' || view[m.start + 1] == 't' || m.start + 10 <= m.finish)
  }

  /** What `finditer` gives: matches in order, without overlap. */
  ghost predicate Found(ms: seq<Marker>) {
    && (forall i :: 0 <= i < |ms| ==> ms[i].start < ms[i].finish)
    && (forall i, j :: 0 <= i < j < |ms| ==> ms[i].finish <= ms[j].start)
  }

  ghost predicate Matches(view: string, citations: seq<Marker>, internals: seq<Marker>, digit: char -> bool) {
    && Found(citations) && Found(internals) && DigitClass(digit)
    && (forall i :: 0 <= i < |citations| ==> IsCitation(view, citations[i], digit))
    && (forall i :: 0 <= i < |internals| ==> IsInternal(view, internals[i]))
  }

  /** An internal marker that ends in a citation, as `[task:a[9]`. */
  predicate Nested(outer: Marker, inner: Marker) {
    outer.number.None? && inner.number.Some? && outer.start < inner.start && inner.finish == outer.finish
  }

  /** A citation and an internal marker are apart, or the citation is the end of the marker. */
  lemma ApartOrNested(view: string, c: Marker, t: Marker, digit: char -> bool)
    requires DigitClass(digit) && IsCitation(view, c, digit) && IsInternal(view, t)
    ensures c.start != t.start
    ensures c.finish <= t.start || t.finish <= c.start || Nested(t, c)
  {
    assert digit(view[c.start + 1]);
    assert forall p :: c.start < p < c.finish - 1 ==> view[p] != '[';
  }

  // ----- The merged list and the reversed loop -----

  /** `sorted(matches, key=start)`, read from its end by the loop. */
  function Merged(citations: seq<Marker>, internals: seq<Marker>): seq<Marker> {
    SortBy(citations + internals, StartOf)
  }

  /** Starts ascend; any two are apart or nested. */
  ghost predicate Chained(ms: seq<Marker>, n: nat) {
    && (forall i :: 0 <= i < |ms| ==> ms[i].start < ms[i].finish <= n)
    && (forall i, j :: 0 <= i < j < |ms| ==> Follows(ms[i], ms[j]))
  }

  ghost predicate Follows(a: Marker, b: Marker) {
    a.start < b.start && (a.finish <= b.start || Nested(a, b))
  }

  lemma SameKindApart(ms: seq<Marker>, a: Marker, b: Marker)
    requires Found(ms) && a in ms && b in ms && a != b
    ensures a.start < a.finish <= b.start || b.start < b.finish <= a.start
  {
    var i :| 0 <= i < |ms| && ms[i] == a;
    var j :| 0 <= j < |ms| && ms[j] == b;
    assert i < j || j < i;
  }

  lemma AnyTwoFit(view: string, citations: seq<Marker>, internals: seq<Marker>, digit: char -> bool, a: Marker,
      b: Marker)
    requires Matches(view, citations, internals, digit)
    requires a in citations + internals && b in citations + internals && a != b
    ensures a.start != b.start && (a.start < b.start ==> Follows(a, b))
  {
    if a.number.Some? == b.number.Some? {
      var ms := if a.number.Some? then citations else internals;
      assert a in ms && b in ms by {
        PartOf(view, citations, internals, digit, a);
        PartOf(view, citations, internals, digit, b);
      }
      SameKindApart(ms, a, b);
    } else {
      PartOf(view, citations, internals, digit, a);
      PartOf(view, citations, internals, digit, b);
      if a.number.Some? {
        ApartOrNested(view, a, b, digit);
      } else {
        ApartOrNested(view, b, a, digit);
      }
    }
  }

  lemma PartOf(view: string, citations: seq<Marker>, internals: seq<Marker>, digit: char -> bool, m: Marker)
    requires Matches(view, citations, internals, digit) && m in citations + internals
    ensures if m.number.Some? then m in citations && IsCitation(view, m, digit)
      else m in internals && IsInternal(view, m)
  {
    var i :| 0 <= i < |citations + internals| && (citations + internals)[i] == m;
    if i < |citations| {
      assert citations[i] == m;
    } else {
      assert internals[i - |citations|] == m;
    }
  }

  lemma NoMarkerTwice(view: string, citations: seq<Marker>, internals: seq<Marker>, digit: char -> bool, i: nat, j: nat)
    requires Matches(view, citations, internals, digit) && i < j < |citations + internals|
    ensures (citations + internals)[i] != (citations + internals)[j]
  {
    if j < |citations| {
      assert citations[i].start < citations[j].start;
    } else if i < |citations| {
      assert citations[i].number.Some? && internals[j - |citations|].number.None?;
    } else {
      assert internals[i - |citations|].start < internals[j - |citations|].start;
    }
  }

  /** The merged list of what the patterns found. */
  lemma MergedIsChained(view: string, citations: seq<Marker>, internals: seq<Marker>, digit: char -> bool)
    requires Matches(view, citations, internals, digit)
    ensures Chained(Merged(citations, internals), |view|)
    ensures forall m :: m in Merged(citations, internals) <==> m in citations || m in internals
  {
    var all, ms := citations + internals, Merged(citations, internals);
    forall i, j | 0 <= i < j < |all| ensures StartOf(all[i]) != StartOf(all[j]) {
      NoMarkerTwice(view, citations, internals, digit, i, j);
      AnyTwoFit(view, citations, internals, digit, all[i], all[j]);
    }
    SortAscending(all, StartOf);
    SortStrict(all, StartOf);
    forall i | 0 <= i < |ms| ensures ms[i].start < ms[i].finish <= |view| {
      assert ms[i] in all;
      PartOf(view, citations, internals, digit, ms[i]);
    }
    forall i, j | 0 <= i < j < |ms| ensures Follows(ms[i], ms[j]) {
      assert StartOf(ms[i]) < StartOf(ms[j]) && ms[i] in all && ms[j] in all;
      AnyTwoFit(view, citations, internals, digit, ms[i], ms[j]);
    }
  }

  /** `fragment[:start] + fragment[finish:]`, with Python's slices, which stop at the end of the text. */
  function CutOut(text: string, m: Marker): string
    requires m.start <= m.finish
  {
    text[..Min(m.start, |text|)] + text[Min(m.finish, |text|)..]
  }

  /** The loop from the last match to the first. */
  function Removed(text: string, ms: seq<Marker>): string
    requires forall i :: 0 <= i < |ms| ==> ms[i].start <= ms[i].finish
  {
    if ms == [] then text else CutOut(Removed(text, ms[1..]), ms[0])
  }

  method RemoveMarkers(text: string, ms: seq<Marker>) returns (r: string)
    requires forall i :: 0 <= i < |ms| ==> ms[i].start <= ms[i].finish
    ensures r == Removed(text, ms)
  {
    r := text;
    assert ms[|ms|..] == [];
    for i := |ms| downto 0
      invariant r == Removed(text, ms[i..])
    {
      assert ms[i..][0] == ms[i] && ms[i..][1..] == ms[i + 1..];
      var m := ms[i];
      r := r[..Min(m.start, |r|)] + r[Min(m.finish, |r|)..];
    }
    assert ms[0..] == ms;
  }

  // ----- When the loop removes exactly the matches -----

  predicate Covered(ms: seq<Marker>, p: nat) {
    exists i :: 0 <= i < |ms| && ms[i].start <= p < ms[i].finish
  }

  /** The simultaneous removal: the characters from a position on that no match covers. */
  function Spared(text: string, ms: seq<Marker>, from: nat): string
    requires from <= |text|
    decreases |text| - from
  {
    if from == |text| then ""
    else (if Covered(ms, from) then "" else [text[from]]) + Spared(text, ms, from + 1)
  }

  lemma FirstOfPiece(text: string, a: nat, b: nat, rest: string)
    requires a < b <= |text|
    ensures text[a..b] + rest == [text[a]] + (text[a + 1..b] + rest)
  {
    assert text[a..b] == [text[a]] + text[a + 1..b];
  }

  lemma {:induction false} SparedGap(text: string, ms: seq<Marker>, a: nat, b: nat)
    requires a <= b <= |text| && forall p :: a <= p < b ==> !Covered(ms, p)
    ensures Spared(text, ms, a) == text[a..b] + Spared(text, ms, b)
    decreases b - a
  {
    if a < b {
      SparedGap(text, ms, a + 1, b);
      FirstOfPiece(text, a, b, Spared(text, ms, b));
    } else {
      assert text[a..b] + Spared(text, ms, b) == Spared(text, ms, b);
    }
  }

  lemma {:induction false} SparedCovered(text: string, ms: seq<Marker>, a: nat, b: nat)
    requires a <= b <= |text| && forall p :: a <= p < b ==> Covered(ms, p)
    ensures Spared(text, ms, a) == Spared(text, ms, b)
    decreases b - a
  {
    if a < b {
      SparedCovered(text, ms, a + 1, b);
    }
  }

  /** Behind the first match only the others matter. */
  lemma {:induction false} SparedBehindFirst(text: string, ms: seq<Marker>, from: nat)
    requires ms != [] && ms[0].finish <= from <= |text|
    ensures Spared(text, ms, from) == Spared(text, ms[1..], from)
    decreases |text| - from
  {
    if from < |text| {
      SparedBehindFirst(text, ms, from + 1);
      if i :| 0 <= i < |ms| && ms[i].start <= from < ms[i].finish {
        assert ms[1..][i - 1] == ms[i];
      }
      if i :| 0 <= i < |ms[1..]| && ms[1..][i].start <= from < ms[1..][i].finish {
        assert ms[i + 1] == ms[1..][i];
      }
    }
  }

  lemma {:induction false} NothingSparedIff(text: string, ms: seq<Marker>, from: nat)
    requires from <= |text|
    ensures Spared(text, ms, from) == "" <==> forall p :: from <= p < |text| ==> Covered(ms, p)
    decreases |text| - from
  {
    if from < |text| {
      NothingSparedIff(text, ms, from + 1);
    }
  }

  lemma ChainedRest(ms: seq<Marker>, n: nat)
    requires Chained(ms, n) && ms != []
    ensures Chained(ms[1..], n)
  {
    forall i, j | 0 <= i < j < |ms[1..]| ensures Follows(ms[1..][i], ms[1..][j]) {
      assert Follows(ms[i + 1], ms[j + 1]);
    }
  }

  /** Nothing before the first match is covered. */
  lemma SparedFromFirst(text: string, ms: seq<Marker>, from: nat)
    requires Chained(ms, |text|) && ms != [] && from <= ms[0].start
    ensures Spared(text, ms, from) == text[from..ms[0].start] + Spared(text, ms, ms[0].finish)
  {
    forall p | from <= p < ms[0].start ensures !Covered(ms, p) {
      forall i | 0 <= i < |ms| ensures p < ms[i].start {
        assert i > 0 ==> Follows(ms[0], ms[i]);
      }
    }
    SparedGap(text, ms, from, ms[0].start);
    forall p | ms[0].start <= p < ms[0].finish ensures Covered(ms, p) {
    }
    SparedCovered(text, ms, ms[0].start, ms[0].finish);
  }

  /** What the loop leaves behind the first match. */
  function Left(text: string, ms: seq<Marker>): string
    requires Chained(ms, |text|) && ms != []
  {
    if |ms| == 1 then text[ms[0].finish..]
    else
      ChainedRest(ms, |text|);
      assert Follows(ms[0], ms[1]);
      if Nested(ms[0], ms[1]) then
        var rest := Left(text, ms[1..]);
        rest[Min(ms[1].finish - ms[1].start, |rest|)..]
      else text[ms[0].finish..ms[1].start] + Left(text, ms[1..])
  }

  lemma CutBefore(text: string, tail: string, at: nat, m: Marker)
    requires m.start < at <= |text| && m.start < m.finish
    ensures CutOut(text[..at] + tail, m) == text[..m.start] +
      if m.finish <= at then text[m.finish..at] + tail
      else tail[Min(m.finish - at, |tail|)..]
  {
    var whole := text[..at] + tail;
    assert whole[..m.start] == text[..m.start];
    if m.finish <= at {
      assert whole[m.finish..] == text[m.finish..at] + tail;
    } else if m.finish <= |whole| {
      assert whole[m.finish..] == tail[m.finish - at..];
    }
  }

  lemma {:induction false} RemovedForm(text: string, ms: seq<Marker>)
    requires Chained(ms, |text|) && ms != []
    ensures Removed(text, ms) == text[..ms[0].start] + Left(text, ms)
  {
    if |ms| == 1 {
      assert ms[1..] == [];
      assert Removed(text, ms[1..]) == text;
    } else {
      ChainedRest(ms, |text|);
      RemovedForm(text, ms[1..]);
      assert Follows(ms[0], ms[1]);
      CutBefore(text, Left(text, ms[1..]), ms[1].start, ms[0]);
    }
  }

  /** No nested match has surviving text behind it. */
  ghost predicate NothingBehindNested(text: string, ms: seq<Marker>)
    requires Chained(ms, |text|)
  {
    forall i, j :: 0 <= i < j < |ms| && Nested(ms[i], ms[j]) ==> Spared(text, ms, ms[i].finish) == ""
  }

  lemma SamePrefix(prefix: string, a: string, b: string)
    ensures prefix + a == prefix + b <==> a == b
  {
    assert (prefix + a)[|prefix|..] == a && (prefix + b)[|prefix|..] == b;
  }

  lemma {:induction false} LeftIff(text: string, ms: seq<Marker>)
    requires Chained(ms, |text|) && ms != []
    ensures |Left(text, ms)| <= |Spared(text, ms, ms[0].finish)|
    ensures Left(text, ms) == Spared(text, ms, ms[0].finish) <==> NothingBehindNested(text, ms)
  {
    if |ms| == 1 {
      SparedBehindFirst(text, ms, ms[0].finish);
      assert ms[1..] == [];
      SparedGap(text, [], ms[0].finish, |text|);
      assert text[ms[0].finish..|text|] == text[ms[0].finish..];
    } else {
      ChainedRest(ms, |text|);
      LeftIff(text, ms[1..]);
      assert Follows(ms[0], ms[1]);
      SparedBehindFirst(text, ms, ms[0].finish);
      if Nested(ms[0], ms[1]) {
        NestedHead(text, ms);
      } else {
        SparedFromFirst(text, ms[1..], ms[0].finish);
        SamePrefix(text[ms[0].finish..ms[1].start], Left(text, ms[1..]), Spared(text, ms[1..], ms[1].finish));
        ApartHead(text, ms);
      }
    }
  }

  /** Where the first match is apart from the rest, the condition is about the rest. */
  lemma ApartHead(text: string, ms: seq<Marker>)
    requires Chained(ms, |text|) && |ms| > 1 && Chained(ms[1..], |text|) && !Nested(ms[0], ms[1])
    ensures NothingBehindNested(text, ms) <==> NothingBehindNested(text, ms[1..])
  {
    assert Follows(ms[0], ms[1]);
    forall i | 0 <= i < |ms[1..]|
      ensures Spared(text, ms, ms[i + 1].finish) == Spared(text, ms[1..], ms[1..][i].finish)
    {
      assert Follows(ms[0], ms[i + 1]);
      SparedBehindFirst(text, ms, ms[i + 1].finish);
    }
    forall j | 1 <= j < |ms| ensures !Nested(ms[0], ms[j]) {
      assert j > 1 ==> Follows(ms[1], ms[j]);
    }
    if NothingBehindNested(text, ms[1..]) {
      forall i, j | 0 <= i < j < |ms| && Nested(ms[i], ms[j]) ensures Spared(text, ms, ms[i].finish) == "" {
        assert Nested(ms[1..][i - 1], ms[1..][j - 1]);
      }
    }
    if NothingBehindNested(text, ms) {
      forall i, j | 0 <= i < j < |ms[1..]| && Nested(ms[1..][i], ms[1..][j])
        ensures Spared(text, ms[1..], ms[1..][i].finish) == ""
      {
        assert Nested(ms[i + 1], ms[j + 1]);
      }
    }
  }

  /** Where the first match ends in the second, everything hangs on what is spared behind them. */
  lemma NestedHead(text: string, ms: seq<Marker>)
    requires Chained(ms, |text|) && |ms| > 1 && Nested(ms[0], ms[1])
    ensures NothingBehindNested(text, ms) <==> Spared(text, ms, ms[0].finish) == ""
  {
    if Spared(text, ms, ms[0].finish) == "" {
      NothingSparedIff(text, ms, ms[0].finish);
      forall i, j | 0 <= i < j < |ms| && Nested(ms[i], ms[j]) ensures Spared(text, ms, ms[i].finish) == "" {
        assert i > 0 ==> Follows(ms[0], ms[i]);
        NothingSparedIff(text, ms, ms[i].finish);
      }
    }
  }

  /** The same condition, position by position: it needs no removal to be checked. */
  ghost predicate CoveredBehindNested(text: string, ms: seq<Marker>) {
    forall i, j :: 0 <= i < j < |ms| && Nested(ms[i], ms[j]) ==>
      forall p :: ms[i].finish <= p < |text| ==> Covered(ms, p)
  }

  lemma SameCondition(text: string, ms: seq<Marker>)
    requires Chained(ms, |text|)
    ensures NothingBehindNested(text, ms) <==> CoveredBehindNested(text, ms)
  {
    forall i | 0 <= i < |ms|
      ensures Spared(text, ms, ms[i].finish) == "" <==> forall p :: ms[i].finish <= p < |text| ==> Covered(ms, p)
    {
      NothingSparedIff(text, ms, ms[i].finish);
    }
  }

  /** The reversed loop removes exactly the matches if and only if no internal marker that ends in an invalid citation
      has surviving text behind it. Otherwise it also removes text that no pattern matched. */
  lemma RemovesExactlyMatchesIff(text: string, ms: seq<Marker>)
    requires Chained(ms, |text|)
    ensures Removed(text, ms) == Spared(text, ms, 0) <==> CoveredBehindNested(text, ms)
    ensures |Removed(text, ms)| <= |Spared(text, ms, 0)|
  {
    SameCondition(text, ms);
    if ms == [] {
      SparedGap(text, ms, 0, |text|);
      assert text[0..|text|] == text;
    } else {
      RemovedForm(text, ms);
      LeftIff(text, ms);
      SparedFromFirst(text, ms, 0);
      assert text[0..ms[0].start] == text[..ms[0].start];
      SamePrefix(text[..ms[0].start], Left(text, ms), Spared(text, ms, ms[0].finish));
    }
  }

  /** In particular whenever no internal marker contains an invalid citation. */
  lemma ApartMatchesRemovedExactly(text: string, ms: seq<Marker>)
    requires Chained(ms, |text|) && forall i, j :: 0 <= i < j < |ms| ==> !Nested(ms[i], ms[j])
    ensures Removed(text, ms) == Spared(text, ms, 0)
  {
    RemovesExactlyMatchesIff(text, ms);
  }

  /** The smallest failure: the unknown citation 9 at the end of a task marker. Cutting both eats three characters of
      the text that follows. */
  lemma NestedMarkerEatsText(digit: char -> bool)
    requires DigitClass(digit) && digit('9')
    ensures var text := "[task:a[9] tail";
      var citations, internals := [Marker(7, 10, Some(9))], [Marker(0, 10, None)];
      && Matches(text, citations, internals, digit)
      && Merged(citations, internals) == internals + citations
      && Removed(text, Merged(citations, internals)) == "il"
      && Spared(text, Merged(citations, internals), 0) == " tail"
  {
    var text := "[task:a[9] tail";
    var inner, outer := Marker(7, 10, Some(9)), Marker(0, 10, None);
    ExampleMatches(text, digit);
    ExampleMerged(outer, inner);
    ExampleRemoved(text, outer, inner);
    ExampleSpared(text, outer, inner);
  }

  lemma ExampleRemoved(text: string, outer: Marker, inner: Marker)
    requires text == "[task:a[9] tail" && outer == Marker(0, 10, None) && inner == Marker(7, 10, Some(9))
    ensures Removed(text, [outer, inner]) == "il"
  {
    var ms := [outer, inner];
    assert ms[1..] == [inner] && ms[1..][1..] == [];
    assert Removed(text, []) == text;
    assert Removed(text, [inner]) == CutOut(text, inner) == "[task:a tail";
    assert CutOut("[task:a tail", outer) == "il";
  }

  lemma ExampleSpared(text: string, outer: Marker, inner: Marker)
    requires text == "[task:a[9] tail" && outer == Marker(0, 10, None) && inner == Marker(7, 10, Some(9))
    ensures Spared(text, [outer, inner], 0) == " tail"
  {
    var ms := [outer, inner];
    forall p | 0 <= p < 10 ensures Covered(ms, p) {
      assert ms[0].start <= p < ms[0].finish;
    }
    SparedCovered(text, ms, 0, 10);
    SparedGap(text, ms, 10, |text|);
    assert text[10..|text|] == " tail";
  }

  lemma ExampleMatches(text: string, digit: char -> bool)
    requires text == "[task:a[9] tail" && DigitClass(digit) && digit('9')
    ensures Matches(text, [Marker(7, 10, Some(9))], [Marker(0, 10, None)], digit)
  {
  }

  lemma ExampleMerged(outer: Marker, inner: Marker)
    requires outer.start < inner.start
    ensures Merged([inner], [outer]) == [outer, inner]
  {
    var all := [inner] + [outer];
    assert all[..1] == [inner] && [inner][..0] == [];
    assert SortBy([inner], StartOf) == [inner];
    assert [inner][..0] == [];
    assert InsertBy([inner], outer, StartOf) == [outer, inner];
  }

  // ----- Links, and the code in their labels -----

  /** The view blanks exactly the code, other than its line ends, as `report_prose` does. */
  ghost predicate Masks(text: string, view: string, code: nat -> bool) {
    && |view| == |text|
    && forall p :: 0 <= p < |text| ==> view[p] == if code(p) && !S.IsLineEnd(text[p]) then ' ' else text[p]
  }

  /** `[label](url)`: outside the label the pattern admits no blank and no line end. */
  ghost predicate IsLink(view: string, l: H.WebLink) {
    && l.start < l.labelEnd < l.finish <= |view| && view[l.start] == '['
    && forall p :: l.labelEnd <= p < l.finish ==> view[p] != ' ' && !S.IsLineEnd(view[p])
  }

  ghost predicate LinksFound(view: string, links: seq<H.WebLink>) {
    && H.LinksInOrder(links, |view|)
    && forall i :: 0 <= i < |links| ==> IsLink(view, links[i])
  }

  predicate InLabel(l: H.WebLink, p: nat) {
    l.start < p < l.labelEnd
  }

  /** After the pass, the character at p of the label of link k is still there, moved with the label. */
  ghost predicate StaysInLabel(text: string, edits: seq<Edit>, links: seq<H.WebLink>, k: nat, p: nat)
    requires InOrder(edits, |text|) && |edits| == |links| && k < |links| && p < |text|
  {
    && InLabel(links[k], p)
    && var r, at := Substituted(text, edits, 0), links[k].start + Shift(edits, k) + (p - links[k].start - 1);
    0 <= at < |r| && r[at] == text[p]
  }

  /** The character at p is still in the text after the pass: in a gap or in a label. */
  ghost predicate Survives(text: string, edits: seq<Edit>, links: seq<H.WebLink>, p: nat)
    requires InOrder(edits, |text|) && |edits| == |links| && p < |text|
  {
    || (exists i :: 0 <= i <= |edits| && S.MovedBy(text, edits, i, p))
    || (exists k :: 0 <= k < |links| && StaysInLabel(text, edits, links, k, p))
  }

  /** What the pass writes for a label is what the view shows. */
  lemma LabelCharacter(text: string, view: string, links: seq<H.WebLink>, numbers: H.Numbers, k: nat, p: nat)
    requires |view| == |text| && H.LinksInOrder(links, |view|) && k < |links| && InLabel(links[k], p)
    ensures var edits := H.LinkEdits(view, links, numbers);
      var r, at := Substituted(text, edits, 0), links[k].start + Shift(edits, k) + (p - links[k].start - 1);
      0 <= at < |r| && r[at] == view[p]
  {
    var edits, offset := H.LinkEdits(view, links, numbers), p - links[k].start - 1;
    LabelInEdit(view, links[k], numbers, p);
    assert edits[k] == H.LinkEdit(view, links[k], numbers);
    ReplacementCharacter(text, edits, k, offset);
  }

  lemma LabelInEdit(view: string, link: H.WebLink, numbers: H.Numbers, p: nat)
    requires link.start < link.labelEnd <= |view| && InLabel(link, p)
    ensures var e := H.LinkEdit(view, link, numbers);
      p - link.start - 1 < |e.text| && e.text[p - link.start - 1] == view[p]
  {
    CharOfPiece(view, link.start + 1, view[link.start + 1..link.labelEnd], p);
  }

  /** Outside all links nothing happens to a character. */
  lemma OutsideLinksSurvives(text: string, edits: seq<Edit>, links: seq<H.WebLink>, p: nat)
    requires InOrder(edits, |text|) && |edits| == |links| && p < |text|
    requires forall k :: 0 <= k < |edits| ==> !(edits[k].start <= p < edits[k].finish)
    ensures Survives(text, edits, links, p)
  {
    var i := FindGap(edits, |text|, p);
    CharacterKept(text, edits, i, p);
    assert S.MovedBy(text, edits, i, p);
  }

  lemma InsideLinkInNoGap(edits: seq<Edit>, n: nat, k: nat, i: nat, p: nat)
    requires InOrder(edits, n) && k < |edits| && i <= |edits| && edits[k].start < p < edits[k].finish
    ensures !(GapStart(edits, i) <= p < GapEnd(edits, i, n))
  {
    if i <= k {
      assert i < k ==> edits[i].finish <= edits[k].start;
    } else {
      assert k < i - 1 ==> edits[k].finish <= edits[i - 1].start;
    }
  }

  lemma InLabelStaysIff(text: string, view: string, links: seq<H.WebLink>, numbers: H.Numbers, k: nat, p: nat)
    requires |view| == |text| && H.LinksInOrder(links, |view|) && p < |text| && k < |links| && InLabel(links[k], p)
    ensures StaysInLabel(text, H.LinkEdits(view, links, numbers), links, k, p) <==> view[p] == text[p]
  {
    LabelCharacter(text, view, links, numbers, k, p);
  }

  lemma InLabelSurvivesIff(text: string, view: string, links: seq<H.WebLink>, numbers: H.Numbers, k: nat, p: nat)
    requires |view| == |text| && H.LinksInOrder(links, |view|) && p < |text| && k < |links| && InLabel(links[k], p)
    ensures Survives(text, H.LinkEdits(view, links, numbers), links, p) <==> view[p] == text[p]
  {
    var edits := H.LinkEdits(view, links, numbers);
    InLabelStaysIff(text, view, links, numbers, k, p);
    assert edits[k].start < p < edits[k].finish;
    forall i | 0 <= i <= |edits| ensures !S.MovedBy(text, edits, i, p) {
      InsideLinkInNoGap(edits, |text|, k, i, p);
    }
    OnlyOneLabel(links, |text|, k, p);
  }

  /** Code outside the labels is in no link at all. */
  lemma CodeOutsideLabels(text: string, view: string, code: nat -> bool, links: seq<H.WebLink>, k: nat, p: nat)
    requires Masks(text, view, code) && LinksFound(view, links) && p < |text| && code(p)
    requires k < |links| && !InLabel(links[k], p)
    ensures !(links[k].start <= p < links[k].finish)
  {
    assert IsLink(view, links[k]);
  }

  /** A character of code survives the link pass if and only if it is in no link label, or is itself a blank or a line
      end. */
  lemma CodeSurvivesIff(text: string, view: string, code: nat -> bool, links: seq<H.WebLink>, numbers: H.Numbers,
      p: nat)
    requires Masks(text, view, code) && LinksFound(view, links) && p < |text| && code(p)
    ensures Survives(text, H.LinkEdits(view, links, numbers), links, p) <==>
      || text[p] == ' ' || S.IsLineEnd(text[p])
      || forall k :: 0 <= k < |links| ==> !InLabel(links[k], p)
  {
    if k :| 0 <= k < |links| && InLabel(links[k], p) {
      InLabelSurvivesIff(text, view, links, numbers, k, p);
    } else {
      forall k | 0 <= k < |links| ensures !(links[k].start <= p < links[k].finish) {
        CodeOutsideLabels(text, view, code, links, k, p);
      }
      OutsideLinksSurvives(text, H.LinkEdits(view, links, numbers), links, p);
    }
  }

  lemma OnlyOneLabel(links: seq<H.WebLink>, n: nat, k: nat, p: nat)
    requires H.LinksInOrder(links, n) && k < |links| && InLabel(links[k], p)
    ensures forall j :: 0 <= j < |links| && InLabel(links[j], p) ==> j == k
  {
  }

  /** The label holds code that the view cannot show. */
  ghost predicate HidesCode(text: string, code: nat -> bool, l: H.WebLink) {
    exists p :: 0 <= p < |text| && InLabel(l, p) && code(p) && text[p] != ' ' && !S.IsLineEnd(text[p])
  }

  /** The link pass spares all code if and only if no label of a found link overlaps code, blanks in it aside. */
  lemma LinksSpareCodeIff(text: string, view: string, code: nat -> bool, links: seq<H.WebLink>, numbers: H.Numbers)
    requires Masks(text, view, code) && LinksFound(view, links)
    ensures (forall p :: 0 <= p < |text| && code(p) ==> Survives(text, H.LinkEdits(view, links, numbers), links, p))
      <==> forall k :: 0 <= k < |links| ==> !HidesCode(text, code, links[k])
  {
    forall p | 0 <= p < |text| && code(p)
      ensures Survives(text, H.LinkEdits(view, links, numbers), links, p) <==>
        || text[p] == ' ' || S.IsLineEnd(text[p])
        || forall k :: 0 <= k < |links| ==> !InLabel(links[k], p)
    {
      CodeSurvivesIff(text, view, code, links, numbers, p);
    }
  }

  /** The masked view of `report_prose` is such a view. */
  lemma ProseMasks(report: string, prose: string, inline: string -> seq<S.Span>, code: nat -> bool)
    requires |prose| == |report| && forall p :: 0 <= p < |report| ==> prose[p] == S.Visible(report, inline, p)
    requires forall p :: 0 <= p < |report| ==> (code(p) <==> S.IsCode(report, inline, p))
    ensures Masks(report, prose, code)
  {
    forall p | 0 <= p < |report|
      ensures prose[p] == if code(p) && !S.IsLineEnd(report[p]) then ' ' else report[p]
    {
      assert prose[p] == S.Visible(report, inline, p);
    }
  }

  /** One link: its label, as the view shows it, and the mark of its URL. */
  lemma OneLinkRewritten(text: string, view: string, link: H.WebLink, numbers: H.Numbers)
    requires |view| == |text| && H.LinksInOrder([link], |view|)
    ensures Substituted(text, H.LinkEdits(view, [link], numbers), 0) ==
      text[..link.start] + H.LinkEdit(view, link, numbers).text + text[link.finish..]
  {
    assert [link][0] == link && link.start < link.labelEnd <= link.finish <= |view|;
    var edits := H.LinkEdits(view, [link], numbers);
    assert edits[0] == H.LinkEdit(view, link, numbers) && edits[1..] == [];
  }

  const LABEL_CODE := "[`x`](https://a.b)"
  const LABEL_CODE_VIEW := "[   ](https://a.b)"
  const LABEL_CODE_LINK := H.WebLink(0, 4, 18, Some("https://a.b"))

  /** In that text exactly the label is code. */
  lemma LabelIsCode(p: nat)
    requires p < 18
    ensures S.IsCode(LABEL_CODE, (t: string) => [S.Span(1, 4)], p) <==> 1 <= p < 4
  {
    S.NoFenceInLine(LABEL_CODE, p);
    var spans := [S.Span(1, 4)];
    assert S.InSpan(spans, p) <==> spans[0].start <= p < spans[0].finish;
  }

  lemma LabelCodeFound()
    ensures Masks(LABEL_CODE, LABEL_CODE_VIEW, (p: nat) => 1 <= p < 4)
    ensures LinksFound(LABEL_CODE_VIEW, [LABEL_CODE_LINK])
  {
  }

  /** The smallest failure: a link whose label is inline code loses it, whether or not the source is known. */
  lemma LabelCodeIsLost(numbers: H.Numbers)
    ensures var code, links := (p: nat) => 1 <= p < 4, [LABEL_CODE_LINK];
      && Masks(LABEL_CODE, LABEL_CODE_VIEW, code) && LinksFound(LABEL_CODE_VIEW, links)
      && HidesCode(LABEL_CODE, code, links[0])
      && Substituted(LABEL_CODE, H.LinkEdits(LABEL_CODE_VIEW, links, numbers), 0) ==
           "   " + H.Mark("https://a.b", numbers)
  {
    LabelCodeFound();
    assert InLabel(LABEL_CODE_LINK, 2) && LABEL_CODE[2] == 'x';
    OneLinkRewritten(LABEL_CODE, LABEL_CODE_VIEW, LABEL_CODE_LINK, numbers);
    assert LABEL_CODE[..0] == "" && LABEL_CODE[18..] == "" && LABEL_CODE_VIEW[1..4] == "   ";
  }

  // ----- The whole clean-up -----

  /** The two marker patterns on a masked view, and `cited_numbers` of a text. */
  datatype Patterns = Patterns(
    citations: string -> seq<Marker>, internals: string -> seq<Marker>, cited: string -> set<nat>)

  ghost predicate Sound(p: Patterns, digit: char -> bool) {
    forall v :: Matches(v, p.citations(v), p.internals(v), digit)
  }

  function Invalid(citations: seq<Marker>, invalid: set<nat>): seq<Marker> {
    Filter(citations, (m: Marker) => m.number.Some? && m.number.value in invalid)
  }

  lemma FoundTail(ms: seq<Marker>)
    requires Found(ms) && ms != []
    ensures Found(ms[1..])
    ensures forall m :: m in ms[1..] ==> ms[0].finish <= m.start
  {
    var rest := ms[1..];
    assert forall i :: 0 <= i < |rest| ==> rest[i] == ms[i + 1];
  }

  lemma FoundCons(m: Marker, rest: seq<Marker>, all: seq<Marker>)
    requires Found(rest) && all == [m] + rest && m.start < m.finish
    requires forall k :: 0 <= k < |rest| ==> m.finish <= rest[k].start
    ensures Found(all)
  {
    assert forall i :: 0 < i < |all| ==> all[i] == rest[i - 1];
  }

  lemma {:induction false} FilterKeepsOrder(ms: seq<Marker>, keep: Marker -> bool)
    requires Found(ms)
    ensures Found(Filter(ms, keep))
  {
    if ms != [] {
      FoundTail(ms);
      FilterKeepsOrder(ms[1..], keep);
      var rest := Filter(ms[1..], keep);
      assert forall k :: 0 <= k < |rest| ==> rest[k] in ms[1..];
      FoundCons(ms[0], rest, [ms[0]] + rest);
      assert [] + rest == rest;
    }
  }

  lemma InvalidMatches(view: string, citations: seq<Marker>, internals: seq<Marker>, invalid: set<nat>,
      digit: char -> bool)
    requires Matches(view, citations, internals, digit)
    ensures Matches(view, Invalid(citations, invalid), internals, digit)
  {
    FilterKeepsOrder(citations, (m: Marker) => m.number.Some? && m.number.value in invalid);
    var kept := Invalid(citations, invalid);
    forall i | 0 <= i < |kept| ensures IsCitation(view, kept[i], digit) {
      assert kept[i] in citations;
    }
  }

  /** The matches the first loop removes: invalid citations and every internal marker. */
  function ToRemove(fragment: string, invalid: set<nat>, p: Patterns, f: H.Finders): seq<Marker> {
    var view := f.prose(fragment);
    Merged(Invalid(p.citations(view), invalid), p.internals(view))
  }

  /** What the removal does to a paragraph, exactly. */
  lemma RemovalExactlyIff(fragment: string, invalid: set<nat>, p: Patterns, f: H.Finders, digit: char -> bool)
    requires H.Sound(f) && Sound(p, digit)
    ensures var ms := ToRemove(fragment, invalid, p, f);
      && Chained(ms, |fragment|)
      && (Removed(fragment, ms) == Spared(fragment, ms, 0) <==> CoveredBehindNested(fragment, ms))
  {
    var view := f.prose(fragment);
    InvalidMatches(view, p.citations(view), p.internals(view), invalid, digit);
    MergedIsChained(view, Invalid(p.citations(view), invalid), p.internals(view), digit);
    RemovesExactlyMatchesIff(fragment, ToRemove(fragment, invalid, p, f));
  }

  predicate UnknownLink(found: seq<H.WebLink>, numbers: H.Numbers) {
    exists i :: 0 <= i < |found| && (found[i].url.None? || found[i].url.value !in numbers)
  }

  /** A raw URL that names no known source even without its trailing punctuation. */
  predicate UnknownUrl(view: string, found: seq<S.Span>, numbers: H.Numbers)
    requires S.SpansInOrder(found, |view|)
  {
    exists i :: 0 <= i < |found| && !KnownUrl(view[found[i].start..found[i].finish], numbers)
  }

  predicate KnownUrl(text: string, numbers: H.Numbers) {
    text[..H.KnownLength(text, |text|, numbers)] in numbers
  }

  /** Some link has no URL or one that is no known source. */
  ghost predicate LinksToUnknown(found: seq<H.WebLink>, numbers: H.Numbers) {
    exists l :: l in found && forall url :: l.url == Some(url) ==> url !in numbers
  }

  /** What some match names, its trailing punctuation aside, is no known source. */
  ghost predicate NamesUnknown(view: string, found: seq<S.Span>, numbers: H.Numbers)
    requires S.SpansInOrder(found, |view|)
  {
    exists i :: 0 <= i < |found| && NamesNoSource(view[found[i].start..found[i].finish], numbers)
  }

  ghost predicate NamesNoSource(text: string, numbers: H.Numbers) {
    exists k: nat :: H.IsUrlPart(text, k, numbers) && text[..k] !in numbers
  }

  /** Both link passes: every link unwrapped, every URL named, and whether one of them is no known source. */
  ghost predicate SourcesLinked(fragment: string, numbers: H.Numbers, f: H.Finders, text: string, unknown: bool)
    requires H.Sound(f)
  {
    exists between ::
      && H.UnlinkedAs(fragment, numbers, f, between) && H.NumberedAs(between, numbers, f, text)
      && (unknown <==>
           || LinksToUnknown(f.links(f.prose(fragment)), numbers)
           || NamesUnknown(f.prose(between), f.urls(f.prose(between)), numbers))
  }

  lemma UnknownLinkIff(found: seq<H.WebLink>, numbers: H.Numbers)
    ensures UnknownLink(found, numbers) <==> LinksToUnknown(found, numbers)
  {
    if i :| 0 <= i < |found| && (found[i].url.None? || found[i].url.value !in numbers) {
      assert found[i] in found;
    }
    if l :| l in found && forall url :: l.url == Some(url) ==> url !in numbers {
      assert l.url.None? || l.url == Some(l.url.value);
      var i :| 0 <= i < |found| && found[i] == l;
    }
  }

  lemma KnownUrlIff(text: string, numbers: H.Numbers)
    ensures KnownUrl(text, numbers) <==> !NamesNoSource(text, numbers)
  {
    H.UrlPartIs(text, numbers);
    if k: nat :| H.IsUrlPart(text, k, numbers) && text[..k] !in numbers {
      H.UrlPartUnique(text, k, H.KnownLength(text, |text|, numbers), numbers);
    }
  }

  lemma UnknownUrlIff(view: string, found: seq<S.Span>, numbers: H.Numbers)
    requires S.SpansInOrder(found, |view|)
    ensures UnknownUrl(view, found, numbers) <==> NamesUnknown(view, found, numbers)
  {
    forall i | 0 <= i < |found|
      ensures KnownUrl(view[found[i].start..found[i].finish], numbers) <==>
        !NamesNoSource(view[found[i].start..found[i].finish], numbers)
    {
      KnownUrlIff(view[found[i].start..found[i].finish], numbers);
    }
  }

  lemma LinkedAs(fragment: string, numbers: H.Numbers, f: H.Finders, unknown: bool)
    requires H.Sound(f)
    requires var between := H.Unlinked(fragment, numbers, f);
      unknown <==>
        || UnknownLink(f.links(f.prose(fragment)), numbers)
        || UnknownUrl(f.prose(between), f.urls(f.prose(between)), numbers)
    ensures SourcesLinked(fragment, numbers, f, H.WithoutUrls(H.Unlinked(fragment, numbers, f), numbers, f), unknown)
  {
    var between := H.Unlinked(fragment, numbers, f);
    H.UnlinksAs(fragment, numbers, f);
    H.NumbersAs(between, numbers, f);
    UnknownLinkIff(f.links(f.prose(fragment)), numbers);
    UnknownUrlIff(f.prose(between), f.urls(f.prose(between)), numbers);
  }

  /** `_source_links`: both passes, and whether a link or URL names no known source. */
  method SourceLinks(fragment: string, numbers: H.Numbers, f: H.Finders) returns (text: string, unknown: bool)
    requires H.Sound(f)
    ensures text == H.WithoutUrls(H.Unlinked(fragment, numbers, f), numbers, f)
    ensures var between := H.Unlinked(fragment, numbers, f);
      unknown <==>
        || UnknownLink(f.links(f.prose(fragment)), numbers)
        || UnknownUrl(f.prose(between), f.urls(f.prose(between)), numbers)
    ensures SourcesLinked(fragment, numbers, f, text, unknown)
  {
    var view := f.prose(fragment);
    var unknownLink := UnknownLink(f.links(view), numbers);
    text := RewriteFromLast(fragment, H.LinkEdits(view, f.links(view), numbers));
    assert text == H.Unlinked(fragment, numbers, f);
    var edits, unknownUrl := NumberUrls(f.prose(text), f.urls(f.prose(text)), numbers);
    text := RewriteFromLast(text, edits);
    unknown := unknownLink || unknownUrl;
    LinkedAs(fragment, numbers, f, unknown);
  }

  /** The loop over the raw URLs, with its flag. */
  method NumberUrls(view: string, found: seq<S.Span>, numbers: H.Numbers) returns (edits: seq<Edit>, unknown: bool)
    requires S.SpansInOrder(found, |view|)
    ensures edits == H.UrlEdits(view, found, numbers) && (unknown <==> UnknownUrl(view, found, numbers))
  {
    ghost var all := H.UrlEdits(view, found, numbers);
    edits, unknown := [], false;
    for i := 0 to |found|
      invariant edits == all[..i]
      invariant unknown <==> exists j :: 0 <= j < i && !KnownUrl(view[found[j].start..found[j].finish], numbers)
    {
      var url, punctuation := H.SplitUrl(view[found[i].start..found[i].finish], numbers);
      unknown := unknown || url !in numbers;
      assert all[i] == H.UrlEdit(view, found, numbers, i);
      edits := edits + [Edit(found[i].start, found[i].finish, H.Mark(url, numbers) + punctuation)];
    }
  }

  // ----- What exactly is removed -----

  /** A match that must go: a citation whose number is cited but unknown, or an internal marker. */
  ghost predicate Unwanted(m: Marker, fragment: string, known: set<nat>, p: Patterns, f: H.Finders) {
    var view := f.prose(fragment);
    || (m in p.citations(view) && m.number.Some? && m.number.value in p.cited(fragment) && m.number.value !in known)
    || m in p.internals(view)
  }

  /** A character inside such a match. */
  ghost predicate InUnwanted(fragment: string, known: set<nat>, p: Patterns, f: H.Finders, at: nat) {
    exists m :: Unwanted(m, fragment, known, p, f) && m.start <= at < m.finish
  }

  /** The text from a position on without its unwanted matches. */
  ghost function Wanted(fragment: string, known: set<nat>, p: Patterns, f: H.Finders, from: nat): string
    requires from <= |fragment|
    decreases |fragment| - from
  {
    if from == |fragment| then ""
    else if InUnwanted(fragment, known, p, f, from) then Wanted(fragment, known, p, f, from + 1)
    else [fragment[from]] + Wanted(fragment, known, p, f, from + 1)
  }

  /** No internal marker ends in an unwanted citation. */
  ghost predicate NoneNested(fragment: string, known: set<nat>, p: Patterns, f: H.Finders) {
    forall a, b :: Unwanted(a, fragment, known, p, f) && Unwanted(b, fragment, known, p, f) ==> !Nested(a, b)
  }

  /** The matches removed are exactly the unwanted ones. */
  lemma RemovesUnwanted(fragment: string, known: set<nat>, p: Patterns, f: H.Finders, digit: char -> bool)
    requires H.Sound(f) && Sound(p, digit)
    ensures forall m :: m in ToRemove(fragment, p.cited(fragment) - known, p, f) <==> Unwanted(m, fragment, known, p, f)
  {
    var view := f.prose(fragment);
    var invalid := Invalid(p.citations(view), p.cited(fragment) - known);
    InvalidMatches(view, p.citations(view), p.internals(view), p.cited(fragment) - known, digit);
    MergedIsChained(view, invalid, p.internals(view), digit);
  }

  lemma CoveredIsUnwanted(fragment: string, known: set<nat>, p: Patterns, f: H.Finders, at: nat, digit: char -> bool)
    requires H.Sound(f) && Sound(p, digit)
    ensures Covered(ToRemove(fragment, p.cited(fragment) - known, p, f), at) <==>
      InUnwanted(fragment, known, p, f, at)
  {
    var ms := ToRemove(fragment, p.cited(fragment) - known, p, f);
    RemovesUnwanted(fragment, known, p, f, digit);
    if i :| 0 <= i < |ms| && ms[i].start <= at < ms[i].finish {
      assert ms[i] in ms;
    }
    if m :| Unwanted(m, fragment, known, p, f) && m.start <= at < m.finish {
      assert m in ms;
    }
  }

  lemma {:induction false} SparedIsWanted(fragment: string, ms: seq<Marker>, known: set<nat>, p: Patterns,
      f: H.Finders, from: nat)
    requires from <= |fragment|
    requires forall at: nat :: Covered(ms, at) <==> InUnwanted(fragment, known, p, f, at)
    ensures Spared(fragment, ms, from) == Wanted(fragment, known, p, f, from)
    decreases |fragment| - from
  {
    if from < |fragment| {
      SparedIsWanted(fragment, ms, known, p, f, from + 1);
    }
  }

  /** Without nesting, the removal leaves the paragraph without the unwanted matches, to the character. */
  lemma RemovalIsWanted(fragment: string, known: set<nat>, p: Patterns, f: H.Finders, digit: char -> bool)
    requires H.Sound(f) && Sound(p, digit) && NoneNested(fragment, known, p, f)
    ensures var ms := ToRemove(fragment, p.cited(fragment) - known, p, f);
      Chained(ms, |fragment|) && Removed(fragment, ms) == Wanted(fragment, known, p, f, 0)
  {
    var ms := ToRemove(fragment, p.cited(fragment) - known, p, f);
    RemovalExactlyIff(fragment, p.cited(fragment) - known, p, f, digit);
    RemovesUnwanted(fragment, known, p, f, digit);
    forall i, j | 0 <= i < j < |ms| ensures !Nested(ms[i], ms[j]) {
      assert ms[i] in ms && ms[j] in ms;
    }
    ApartMatchesRemovedExactly(fragment, ms);
    forall at: nat ensures Covered(ms, at) <==> InUnwanted(fragment, known, p, f, at) {
      CoveredIsUnwanted(fragment, known, p, f, at, digit);
    }
    SparedIsWanted(fragment, ms, known, p, f, 0);
  }

  /** The link passes on what the removal left, with the flag: something was unwanted, or a link or URL is unknown. */
  ghost predicate LinksCleaned(fragment: string, removed: string, known: set<nat>, numbers: H.Numbers, p: Patterns,
      f: H.Finders, text: string, found: bool)
    requires H.Sound(f)
  {
    exists unknown ::
      && SourcesLinked(removed, numbers, f, text, unknown)
      && (found <==> unknown || exists m :: Unwanted(m, fragment, known, p, f))
  }

  /** `_clean_references`: the cleaned paragraph, and whether any invalid reference was found. */
  method CleanReferences(fragment: string, known: set<nat>, numbers: H.Numbers, p: Patterns, f: H.Finders,
      ghost digit: char -> bool) returns (text: string, found: bool)
    requires H.Sound(f) && Sound(p, digit)
    ensures var ms := ToRemove(fragment, p.cited(fragment) - known, p, f);
      && Chained(ms, |fragment|) && (forall m :: m in ms <==> Unwanted(m, fragment, known, p, f))
      && LinksCleaned(fragment, Removed(fragment, ms), known, numbers, p, f, text, found)
    // Without nesting, what the link passes get is the paragraph without its unwanted matches.
    ensures NoneNested(fragment, known, p, f) ==>
      LinksCleaned(fragment, Wanted(fragment, known, p, f, 0), known, numbers, p, f, text, found)
  {
    var invalid := p.cited(fragment) - known;
    var ms := ToRemove(fragment, invalid, p, f);
    SomethingUnwanted(fragment, known, p, f, digit);
    var removed := RemoveMarkers(fragment, ms);
    var unknown;
    text, unknown := SourceLinks(removed, numbers, f);
    found := ms != [] || unknown;
    if NoneNested(fragment, known, p, f) {
      RemovalIsWanted(fragment, known, p, f, digit);
    }
  }

  lemma SomethingUnwanted(fragment: string, known: set<nat>, p: Patterns, f: H.Finders, digit: char -> bool)
    requires H.Sound(f) && Sound(p, digit)
    ensures var ms := ToRemove(fragment, p.cited(fragment) - known, p, f);
      && Chained(ms, |fragment|) && (forall m :: m in ms <==> Unwanted(m, fragment, known, p, f))
      && (ms != [] <==> exists m :: Unwanted(m, fragment, known, p, f))
  {
    var ms := ToRemove(fragment, p.cited(fragment) - known, p, f);
    RemovalExactlyIff(fragment, p.cited(fragment) - known, p, f, digit);
    RemovesUnwanted(fragment, known, p, f, digit);
    if ms != [] {
      assert ms[0] in ms;
    }
  }
}
