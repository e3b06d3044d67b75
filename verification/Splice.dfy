/** Rewriting found spans from last to first (backend/src/atlasflow/agents/report_delivery.py,
    backend/src/atlasflow/agents/report_publication.py). */
module Splice {
  /** Replace text[start..finish] by something else. */
  datatype Edit = Edit(start: nat, finish: nat, text: string)

  /** Sorted by position, not overlapping, inside a text of length n. */
  ghost predicate InOrder(edits: seq<Edit>, n: nat) {
    && (forall i :: 0 <= i < |edits| ==> edits[i].start <= edits[i].finish <= n)
    && (forall i, j :: 0 <= i < j < |edits| ==> edits[i].finish <= edits[j].start)
  }

  /** The simultaneous substitution, reading left to right from a position. */
  function Substituted(body: string, edits: seq<Edit>, from: nat): string
    requires InOrder(edits, |body|) && from <= |body| && (edits != [] ==> from <= edits[0].start)
  {
    if edits == [] then body[from..]
    else body[from..edits[0].start] + edits[0].text + Substituted(body, edits[1..], edits[0].finish)
  }

  lemma Reassociate(a: string, b: string, c: string, d: string)
    ensures a + (b + c + d) == a + b + c + d
  {
  }

  lemma Rejoin(body: string, a: nat, b: nat, c: nat)
    requires a <= b <= c <= |body|
    ensures body[a..c] == body[a..b] + body[b..c]
  {
  }

  /** A character of a piece whose place is known. */
  lemma CharOfPiece(r: string, at: nat, piece: string, p: nat)
    requires at <= p < at + |piece| <= |r| && r[at..at + |piece|] == piece
    ensures r[p] == piece[p - at]
  {
    assert r[at..at + |piece|][p - at] == r[p];
  }

  lemma SubstitutedFrom(body: string, edits: seq<Edit>, from: nat, to: nat)
    requires InOrder(edits, |body|) && from <= to <= |body| && (edits != [] ==> to <= edits[0].start)
    ensures Substituted(body, edits, from) == body[from..to] + Substituted(body, edits, to)
  {
    if edits == [] {
      Rejoin(body, from, to, |body|);
      assert body[to..|body|] == body[to..] && body[from..|body|] == body[from..];
    } else {
      var e := edits[0];
      Rejoin(body, from, to, e.start);
      Reassociate(body[from..to], body[to..e.start], e.text, Substituted(body, edits[1..], e.finish));
    }
  }

  /** `for ... in reversed(edits): body = body[:start] + text + body[finish:]`. */
  method RewriteFromLast(body: string, edits: seq<Edit>) returns (r: string)
    requires InOrder(edits, |body|)
    ensures r == Substituted(body, edits, 0)
  {
    r := body;
    assert body == body[0..];
    assert edits[|edits|..] == [];
    for i := |edits| downto 0
      invariant r == Substituted(body, edits[i..], 0)
    {
      var e := edits[i];
      SubstitutedFrom(body, edits[i + 1..], 0, e.finish);
      assert edits[i..][0] == e && edits[i..][1..] == edits[i + 1..];
      assert r == body[..e.finish] + Substituted(body, edits[i + 1..], e.finish);
      assert r[..e.start] == body[..e.start] && r[e.finish..] == Substituted(body, edits[i + 1..], e.finish);
      r := r[..e.start] + e.text + r[e.finish..];
    }
    assert edits[0..] == edits;
  }

  /** Edits that put back what they replace change nothing. */
  lemma {:induction false} PuttingBackChangesNothing(body: string, edits: seq<Edit>, from: nat)
    requires InOrder(edits, |body|) && from <= |body| && (edits != [] ==> from <= edits[0].start)
    requires forall i :: 0 <= i < |edits| ==> edits[i].text == body[edits[i].start..edits[i].finish]
    ensures Substituted(body, edits, from) == body[from..]
  {
    if edits != [] {
      var e := edits[0];
      PuttingBackChangesNothing(body, edits[1..], e.finish);
      Rejoin(body, from, e.start, e.finish);
      Rejoin(body, from, e.finish, |body|);
      assert body[from..|body|] == body[from..] && body[e.finish..|body|] == body[e.finish..];
    }
  }

  // ----- What substitution means, position by position -----

  /** How far the first i edits move what follows them. */
  function Shift(edits: seq<Edit>, i: nat): int
    requires i <= |edits|
  {
    if i == 0 then 0 else Shift(edits, i - 1) + |edits[i - 1].text| - (edits[i - 1].finish - edits[i - 1].start)
  }

  /** Where the text between edit i - 1 and edit i begins. */
  function GapStart(edits: seq<Edit>, i: nat): nat
    requires i <= |edits|
  {
    if i == 0 then 0 else edits[i - 1].finish
  }

  function GapEnd(edits: seq<Edit>, i: nat, n: nat): nat
    requires i <= |edits|
  {
    if i == |edits| then n else edits[i].start
  }

  lemma UnfoldAt(body: string, edits: seq<Edit>, i: nat)
    requires InOrder(edits, |body|) && i < |edits|
    ensures Substituted(body, edits[i..], GapStart(edits, i)) ==
      body[GapStart(edits, i)..edits[i].start] + edits[i].text + Substituted(body, edits[i + 1..], edits[i].finish)
  {
    assert edits[i..][0] == edits[i] && edits[i..][1..] == edits[i + 1..];
  }

  /** The substitution read up to gap i: everything before is settled, everything after is still to come. */
  lemma {:induction false} ReadToGap(body: string, edits: seq<Edit>, i: nat) returns (done: string)
    requires InOrder(edits, |body|) && i <= |edits|
    ensures |done| == GapStart(edits, i) + Shift(edits, i)
    ensures Substituted(body, edits, 0) == done + Substituted(body, edits[i..], GapStart(edits, i))
    ensures i > 0 ==> |edits[i - 1].text| <= |done| && done[|done| - |edits[i - 1].text|..] == edits[i - 1].text
  {
    if i == 0 {
      done := "";
      assert edits[0..] == edits;
    } else {
      var before := ReadToGap(body, edits, i - 1);
      var e := edits[i - 1];
      var gap := body[GapStart(edits, i - 1)..e.start];
      done := before + gap + e.text;
      UnfoldAt(body, edits, i - 1);
      Reassociate(before, gap, e.text, Substituted(body, edits[i..], e.finish));
      assert done[|before + gap|..] == e.text;
    }
  }

  lemma MiddlePiece(before: string, middle: string, after: string)
    ensures (before + (middle + after))[|before|..|before| + |middle|] == middle
  {
  }

  /** Text outside the edits is kept, moved by exactly what the edits before it added or removed. */
  lemma GapKept(body: string, edits: seq<Edit>, i: nat)
    requires InOrder(edits, |body|) && i <= |edits|
    ensures var r, shift := Substituted(body, edits, 0), Shift(edits, i);
      var lo, hi := GapStart(edits, i), GapEnd(edits, i, |body|);
      0 <= lo + shift && lo <= hi && hi + shift <= |r| && r[lo + shift..hi + shift] == body[lo..hi]
  {
    var done := ReadToGap(body, edits, i);
    var lo, hi := GapStart(edits, i), GapEnd(edits, i, |body|);
    SubstitutedFrom(body, edits[i..], lo, hi);
    MiddlePiece(done, body[lo..hi], Substituted(body, edits[i..], hi));
  }

  /** Each replacement stands where its span stood, moved likewise. */
  lemma ReplacementPlaced(body: string, edits: seq<Edit>, i: nat)
    requires InOrder(edits, |body|) && i < |edits|
    ensures var r, at := Substituted(body, edits, 0), edits[i].start + Shift(edits, i);
      0 <= at && at + |edits[i].text| <= |r| && r[at..at + |edits[i].text|] == edits[i].text
  {
    var done := ReadToGap(body, edits, i + 1);
    var r := Substituted(body, edits, 0);
    assert r[..|done|] == done;
    var at := edits[i].start + Shift(edits, i);
    assert at == |done| - |edits[i].text|;
    assert r[at..|done|] == done[at..];
  }

  /** One character of a replacement. */
  lemma ReplacementCharacter(body: string, edits: seq<Edit>, i: nat, offset: nat)
    requires InOrder(edits, |body|) && i < |edits| && offset < |edits[i].text|
    ensures var r, at := Substituted(body, edits, 0), edits[i].start + Shift(edits, i) + offset;
      0 <= at < |r| && r[at] == edits[i].text[offset]
  {
    ReplacementPlaced(body, edits, i);
    CharOfPiece(Substituted(body, edits, 0), edits[i].start + Shift(edits, i), edits[i].text,
      edits[i].start + Shift(edits, i) + offset);
  }

  /** The result holds nothing else: gaps and replacements account for its whole length. */
  lemma LengthAdded(body: string, edits: seq<Edit>)
    requires InOrder(edits, |body|)
    ensures |Substituted(body, edits, 0)| == |body| + Shift(edits, |edits|)
  {
    var done := ReadToGap(body, edits, |edits|);
    assert edits[|edits|..] == [];
  }

  /** One character outside all edits. */
  lemma CharacterKept(body: string, edits: seq<Edit>, i: nat, p: nat)
    requires InOrder(edits, |body|) && i <= |edits| && GapStart(edits, i) <= p < GapEnd(edits, i, |body|)
    ensures var r := Substituted(body, edits, 0);
      0 <= p + Shift(edits, i) < |r| && r[p + Shift(edits, i)] == body[p]
  {
    GapKept(body, edits, i);
    var lo, hi, shift := GapStart(edits, i), GapEnd(edits, i, |body|), Shift(edits, i);
    CharOfPiece(Substituted(body, edits, 0), lo + shift, body[lo..hi], p + shift);
  }

  /** A position covered by no edit lies in some gap. */
  lemma FindGap(edits: seq<Edit>, n: nat, p: nat) returns (i: nat)
    requires InOrder(edits, n) && p < n
    requires forall k :: 0 <= k < |edits| ==> !(edits[k].start <= p < edits[k].finish)
    ensures i <= |edits| && GapStart(edits, i) <= p < GapEnd(edits, i, n)
  {
    i := 0;
    while i < |edits| && edits[i].start <= p
      invariant i <= |edits| && GapStart(edits, i) <= p
    {
      i := i + 1;
    }
  }
}
