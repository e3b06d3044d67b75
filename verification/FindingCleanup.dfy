/** Removal of placeholder findings with renumbered references (backend/src/atlasflow/agents/output_validation.py). */
module FindingCleanup {
  import opened Common
  import opened Json

  type Payload = map<string, Value>

  datatype Outcome =
    | Normalized(payload: Payload, removed: seq<nat>)
    | AllPlaceholders
    | BadReferences(position: nat)
    | Unsupported(position: nat)
    | UnhashableStatus(position: nat)

  function Get(fields: map<string, Value>, key: string): Value {
    if key in fields then fields[key] else Null
  }

  /** `findings` is a non-empty list of strings. */
  predicate HasFindings(raw: Payload) {
    var v := Get(raw, "findings");
    v.List? && v.items != [] && forall i :: 0 <= i < |v.items| ==> v.items[i].Str?
  }

  function Texts(raw: Payload): (r: seq<string>)
    requires HasFindings(raw)
    ensures |r| == |raw["findings"].items| > 0
    ensures forall i :: 0 <= i < |r| ==> raw["findings"].items[i] == Str(r[i])
  {
    var items := raw["findings"].items;
    seq(|items|, i requires 0 <= i < |items| => items[i].text)
  }

  predicate HasAssessments(raw: Payload) {
    var v := Get(raw, "assessments");
    v.List? && forall i :: 0 <= i < |v.items| ==> v.items[i].Dict?
  }

  /** The 1-based positions of the findings that are substantive (wanted) or are not (!wanted), in order. */
  function Positions(texts: seq<string>, keep: string -> bool, wanted: bool): (r: seq<nat>)
    ensures forall k :: k in r <==> 1 <= k <= |texts| && keep(texts[k - 1]) == wanted
  {
    if texts == [] then []
    else if keep(texts[|texts| - 1]) == wanted then Positions(texts[..|texts| - 1], keep, wanted) + [|texts|]
    else Positions(texts[..|texts| - 1], keep, wanted)
  }

  /** How many of the first k findings are substantive: the new position of a kept finding at position k. */
  function Rank(texts: seq<string>, keep: string -> bool, k: nat): nat
    requires k <= |texts|
  {
    if k == 0 then 0 else Rank(texts, keep, k - 1) + (if keep(texts[k - 1]) then 1 else 0)
  }

  /** The findings that stay. */
  function Kept(texts: seq<string>, keep: string -> bool): seq<string> {
    if texts == [] then []
    else if keep(texts[|texts| - 1]) then Kept(texts[..|texts| - 1], keep) + [texts[|texts| - 1]]
    else Kept(texts[..|texts| - 1], keep)
  }

  lemma {:induction false} RankOfPrefix(texts: seq<string>, keep: string -> bool, n: nat, k: nat)
    requires k <= n <= |texts|
    ensures Rank(texts[..n], keep, k) == Rank(texts, keep, k)
  {
    if k > 0 {
      RankOfPrefix(texts, keep, n, k - 1);
    }
  }

  /** Renumbering is a strictly increasing bijection from the kept positions onto 1..m, and keeps each text. */
  lemma {:induction false} RankPointsAtSameText(texts: seq<string>, keep: string -> bool, k: nat)
    requires 1 <= k <= |texts| && keep(texts[k - 1])
    ensures |Kept(texts, keep)| == Rank(texts, keep, |texts|)
    ensures 1 <= Rank(texts, keep, k) <= |Kept(texts, keep)|
    ensures Kept(texts, keep)[Rank(texts, keep, k) - 1] == texts[k - 1]
  {
    var n := |texts|;
    KeptLength(texts, keep);
    KeptLength(texts[..n - 1], keep);
    RankOfPrefix(texts, keep, n - 1, n - 1);
    if k < n {
      RankPointsAtSameText(texts[..n - 1], keep, k);
      RankOfPrefix(texts, keep, n - 1, k);
    }
  }

  lemma {:induction false} KeptLength(texts: seq<string>, keep: string -> bool)
    ensures |Kept(texts, keep)| == Rank(texts, keep, |texts|)
  {
    if texts != [] {
      KeptLength(texts[..|texts| - 1], keep);
      RankOfPrefix(texts, keep, |texts| - 1, |texts| - 1);
    }
  }

  lemma RankIncreases(texts: seq<string>, keep: string -> bool, a: nat, b: nat)
    requires 1 <= a < b <= |texts| && keep(texts[b - 1])
    ensures Rank(texts, keep, a) < Rank(texts, keep, b)
  {
    RankMonotone(texts, keep, a, b - 1);
  }

  lemma {:induction false} RankMonotone(texts: seq<string>, keep: string -> bool, a: nat, b: nat)
    requires a <= b <= |texts|
    ensures Rank(texts, keep, a) <= Rank(texts, keep, b)
    decreases b
  {
    if a < b {
      RankMonotone(texts, keep, a, b - 1);
    }
  }

  /** Every new number is taken. */
  lemma {:induction false} RankIsOnto(texts: seq<string>, keep: string -> bool, m: nat) returns (k: nat)
    requires 1 <= m <= |Kept(texts, keep)|
    ensures 1 <= k <= |texts| && keep(texts[k - 1]) && Rank(texts, keep, k) == m
  {
    var n := |texts|;
    KeptLength(texts[..n - 1], keep);
    RankOfPrefix(texts, keep, n - 1, n - 1);
    if m <= |Kept(texts[..n - 1], keep)| {
      k := RankIsOnto(texts[..n - 1], keep, m);
      RankOfPrefix(texts, keep, n - 1, k);
    } else {
      k := n;
    }
  }

  lemma {:induction false} KeptAreSubstantive(texts: seq<string>, keep: string -> bool)
    ensures forall t :: t in Kept(texts, keep) <==> t in texts && keep(t)
  {
    if texts != [] {
      assert texts == texts[..|texts| - 1] + [texts[|texts| - 1]];
      KeptAreSubstantive(texts[..|texts| - 1], keep);
    }
  }

  // ----- One assessment -----

  /** A list of pairwise different strict integers, each the position of one of n findings. */
  predicate ValidReferences(v: Value, n: nat) {
    && v.List?
    && (forall i :: 0 <= i < |v.items| ==> v.items[i].Int? && 1 <= v.items[i].number <= n)
    && AllDistinct(v.items)
  }

  predicate ClaimsSupport(assessment: map<string, Value>) {
    Get(assessment, "status") in {Str("met"), Str("partial")}
  }

  /** The surviving references under their new numbers, in the order given. */
  function Remapped(refs: seq<Value>, texts: seq<string>, keep: string -> bool): seq<Value>
    requires forall i :: 0 <= i < |refs| ==> refs[i].Int? && 1 <= refs[i].number <= |texts|
  {
    if refs == [] then [] else
      var front, last := refs[..|refs| - 1], refs[|refs| - 1].number;
      if keep(texts[last - 1]) then Remapped(front, texts, keep) + [Int(Rank(texts, keep, last))]
      else Remapped(front, texts, keep)
  }

  /** The finding texts a list of references stands for. */
  function TextsOf(refs: seq<Value>, texts: seq<string>): seq<string>
    requires forall i :: 0 <= i < |refs| ==> refs[i].Int? && 1 <= refs[i].number <= |texts|
  {
    if refs == [] then [] else TextsOf(refs[..|refs| - 1], texts) + [texts[refs[|refs| - 1].number - 1]]
  }

  ghost predicate InRange(refs: seq<Value>, n: nat) {
    forall i :: 0 <= i < |refs| ==> refs[i].Int? && 1 <= refs[i].number <= n
  }

  /** v is the new number of a kept finding that refs names. */
  ghost predicate Renumbers(refs: seq<Value>, texts: seq<string>, keep: string -> bool, v: Value) {
    exists k :: 1 <= k <= |texts| && keep(texts[k - 1]) && Int(k) in refs && v == Int(Rank(texts, keep, k))
  }

  lemma {:induction false} RemappedInRange(refs: seq<Value>, texts: seq<string>, keep: string -> bool)
    requires InRange(refs, |texts|)
    ensures InRange(Remapped(refs, texts, keep), |Kept(texts, keep)|)
  {
    if refs != [] {
      var n := |refs| - 1;
      RemappedInRange(refs[..n], texts, keep);
      if keep(texts[refs[n].number - 1]) {
        RankPointsAtSameText(texts, keep, refs[n].number);
      }
    }
  }

  /** No new reference dangles or is transferred: each is the new number of a kept finding named before. */
  lemma {:induction false} RemappedOrigin(refs: seq<Value>, texts: seq<string>, keep: string -> bool)
    requires InRange(refs, |texts|)
    ensures forall v :: v in Remapped(refs, texts, keep) ==> Renumbers(refs, texts, keep, v)
  {
    if refs != [] {
      var n := |refs| - 1;
      var front, last := refs[..n], refs[n].number;
      RemappedOrigin(front, texts, keep);
      forall v | v in Remapped(front, texts, keep) ensures Renumbers(refs, texts, keep, v) {
        var k :| 1 <= k <= |texts| && keep(texts[k - 1]) && Int(k) in front && v == Int(Rank(texts, keep, k));
        assert Int(k) in refs;
      }
      if keep(texts[last - 1]) {
        assert refs[n] == Int(last);
      }
    }
  }

  /** Different findings keep different numbers. */
  lemma {:induction false} RemappedDistinct(refs: seq<Value>, texts: seq<string>, keep: string -> bool)
    requires InRange(refs, |texts|) && AllDistinct(refs)
    ensures AllDistinct(Remapped(refs, texts, keep))
  {
    if refs != [] {
      var front, last := refs[..|refs| - 1], refs[|refs| - 1];
      RemappedDistinct(front, texts, keep);
      if keep(texts[last.number - 1]) {
        assert last !in front;
        NewNumberIsNew(front, last.number, texts, keep);
        var before := Remapped(front, texts, keep);
        assert forall i :: 0 <= i < |before| ==> before[i] in before;
      }
    }
  }

  lemma NewNumberIsNew(refs: seq<Value>, last: nat, texts: seq<string>, keep: string -> bool)
    requires InRange(refs, |texts|) && 1 <= last <= |texts| && keep(texts[last - 1]) && Int(last) !in refs
    ensures Int(Rank(texts, keep, last)) !in Remapped(refs, texts, keep)
  {
    RemappedOrigin(refs, texts, keep);
    var v := Int(Rank(texts, keep, last));
    if Renumbers(refs, texts, keep, v) {
      var k :| 1 <= k <= |texts| && keep(texts[k - 1]) && Int(k) in refs && v == Int(Rank(texts, keep, k));
      if k < last { RankIncreases(texts, keep, k, last); } else { RankIncreases(texts, keep, last, k); }
      assert false;
    }
  }

  /** Surviving references name the same texts as before, in the same order. */
  lemma {:induction false} RemappedKeepsTexts(refs: seq<Value>, texts: seq<string>, keep: string -> bool)
    requires InRange(refs, |texts|) && InRange(Remapped(refs, texts, keep), |Kept(texts, keep)|)
    ensures TextsOf(Remapped(refs, texts, keep), Kept(texts, keep)) == Kept(TextsOf(refs, texts), keep)
  {
    if refs != [] {
      var n := |refs| - 1;
      var front, last := refs[..n], refs[n].number;
      RemappedInRange(front, texts, keep);
      RemappedKeepsTexts(front, texts, keep);
      KeptSnoc(TextsOf(front, texts), texts[last - 1], keep);
      if keep(texts[last - 1]) {
        RankPointsAtSameText(texts, keep, last);
        TextsOfSnoc(Remapped(front, texts, keep), Int(Rank(texts, keep, last)), Kept(texts, keep));
      }
    }
  }

  lemma KeptSnoc(texts: seq<string>, t: string, keep: string -> bool)
    ensures Kept(texts + [t], keep) == if keep(t) then Kept(texts, keep) + [t] else Kept(texts, keep)
  {
    assert (texts + [t])[..|texts|] == texts;
  }

  lemma TextsOfSnoc(refs: seq<Value>, v: Value, texts: seq<string>)
    requires InRange(refs, |texts|) && v.Int? && 1 <= v.number <= |texts|
    ensures TextsOf(refs + [v], texts) == TextsOf(refs, texts) + [texts[v.number - 1]]
  {
    assert (refs + [v])[..|refs|] == refs;
  }

  // ----- The whole payload -----

  /** What happens to the assessment at a position, once something is to be removed. */
  function CheckAssessment(a: map<string, Value>, position: nat, texts: seq<string>, keep: string -> bool):
      Result<map<string, Value>, Outcome>
  {
    var indices := Get(a, "finding_indices");
    if !ValidReferences(indices, |texts|) then Err(BadReferences(position))
    else if !Hashable(Get(a, "status")) then Err(UnhashableStatus(position))
    else if ClaimsSupport(a) && Remapped(indices.items, texts, keep) == [] then Err(Unsupported(position))
    else Ok(a["finding_indices" := List(Remapped(indices.items, texts, keep))])
  }

  /** The assessment says that the findings support it. */
  ghost predicate SaysSupported(a: map<string, Value>) {
    "status" in a && (a["status"] == Str("met") || a["status"] == Str("partial"))
  }

  /** One of the references names a finding that stays. */
  ghost predicate KeepsSupport(refs: seq<Value>, texts: seq<string>, keep: string -> bool) {
    exists k :: 1 <= k <= |texts| && Int(k) in refs && keep(texts[k - 1])
  }

  lemma {:induction false} RemappedEmptyIff(refs: seq<Value>, texts: seq<string>, keep: string -> bool)
    requires InRange(refs, |texts|)
    ensures Remapped(refs, texts, keep) == [] <==> !KeepsSupport(refs, texts, keep)
  {
    if refs != [] {
      var n := |refs| - 1;
      var front, last := refs[..n], refs[n].number;
      RemappedEmptyIff(front, texts, keep);
      assert refs[n] == Int(last);
      if k :| 1 <= k <= |texts| && Int(k) in refs && keep(texts[k - 1]) {
        assert k == last || Int(k) in front;
      }
      if KeepsSupport(front, texts, keep) {
        var k :| 1 <= k <= |texts| && Int(k) in front && keep(texts[k - 1]);
        assert Int(k) in refs;
      }
    }
  }

  /** The first complaint about an assessment, told from its fields; none if it may be cleaned. */
  ghost function Complaint(a: map<string, Value>, position: nat, texts: seq<string>, keep: string -> bool):
      Option<Outcome>
  {
    if !ValidReferences(Get(a, "finding_indices"), |texts|) then Some(BadReferences(position))
    else if "status" in a && (a["status"].List? || a["status"].Dict?) then Some(UnhashableStatus(position))
    else if SaysSupported(a) && !KeepsSupport(Get(a, "finding_indices").items, texts, keep)
      then Some(Unsupported(position))
    else None
  }

  lemma ComplaintIff(a: map<string, Value>, position: nat, texts: seq<string>, keep: string -> bool)
    ensures CheckAssessment(a, position, texts, keep).Ok? <==> Complaint(a, position, texts, keep) == None
    ensures CheckAssessment(a, position, texts, keep).Err? ==>
      Complaint(a, position, texts, keep) == Some(CheckAssessment(a, position, texts, keep).error)
  {
    if ValidReferences(Get(a, "finding_indices"), |texts|) {
      RemappedEmptyIff(Get(a, "finding_indices").items, texts, keep);
    }
  }

  /** b is a with its references renumbered and nothing else changed. */
  ghost predicate Cleaned(a: map<string, Value>, b: map<string, Value>, texts: seq<string>, keep: string -> bool) {
    && ValidReferences(Get(a, "finding_indices"), |texts|)
    && b == a["finding_indices" := List(Remapped(a["finding_indices"].items, texts, keep))]
    && (ClaimsSupport(a) ==> b["finding_indices"].items != [])
  }

  ghost predicate AllCleaned(before: seq<Value>, after: seq<Value>, n: nat, texts: seq<string>, keep: string -> bool) {
    && |before| == |after| && n <= |before|
    && (forall i :: 0 <= i < |before| ==> before[i].Dict? && after[i].Dict?)
    && (forall i :: 0 <= i < n ==> Cleaned(before[i].fields, after[i].fields, texts, keep))
    && (forall i :: n <= i < |before| ==> after[i] == before[i])
  }

  /** Placeholder findings exist but real ones do too, and the assessments can be read. */
  predicate Removable(raw: Payload, keep: string -> bool) {
    && HasFindings(raw) && HasAssessments(raw)
    && 0 < |Kept(Texts(raw), keep)| < |Texts(raw)|
  }

  predicate OnlyPlaceholders(raw: Payload, keep: string -> bool) {
    HasFindings(raw) && Kept(Texts(raw), keep) == []
  }

  /** Nothing to remove, or not a payload this cleanup may judge. */
  predicate Untouched(raw: Payload, keep: string -> bool) {
    !Removable(raw, keep) && !OnlyPlaceholders(raw, keep)
  }

  /** Some finding stays and some is a placeholder; or all are placeholders. */
  lemma {:induction false} KeptIff(texts: seq<string>, keep: string -> bool)
    ensures Kept(texts, keep) == [] <==> forall i :: 0 <= i < |texts| ==> !keep(texts[i])
    ensures |Kept(texts, keep)| <= |texts|
    ensures |Kept(texts, keep)| == |texts| <==> forall i :: 0 <= i < |texts| ==> keep(texts[i])
  {
    if texts != [] {
      KeptIff(texts[..|texts| - 1], keep);
    }
  }

  ghost predicate SomePlaceholder(texts: seq<string>, keep: string -> bool) {
    exists i :: 0 <= i < |texts| && !keep(texts[i])
  }

  ghost predicate SomeReal(texts: seq<string>, keep: string -> bool) {
    exists i :: 0 <= i < |texts| && keep(texts[i])
  }

  /** Which branch a payload takes, told from its findings and assessments. */
  lemma BranchIff(raw: Payload, keep: string -> bool)
    ensures HasFindings(raw) ==>
      && (OnlyPlaceholders(raw, keep) <==> !SomeReal(Texts(raw), keep))
      && (Removable(raw, keep) <==>
           SomeReal(Texts(raw), keep) && SomePlaceholder(Texts(raw), keep) && HasAssessments(raw))
      && (Untouched(raw, keep) <==>
           SomeReal(Texts(raw), keep) && (!SomePlaceholder(Texts(raw), keep) || !HasAssessments(raw)))
    ensures !HasFindings(raw) ==> Untouched(raw, keep)
  {
    if HasFindings(raw) {
      KeptIff(Texts(raw), keep);
    }
  }

  /** Positions are listed in ascending order. */
  lemma {:induction false} PositionsAscend(texts: seq<string>, keep: string -> bool, wanted: bool)
    ensures var r := Positions(texts, keep, wanted); forall i, j :: 0 <= i < j < |r| ==> r[i] < r[j]
  {
    if texts != [] {
      PositionsAscend(texts[..|texts| - 1], keep, wanted);
      var front := Positions(texts[..|texts| - 1], keep, wanted);
      forall i | 0 <= i < |front| ensures front[i] < |texts| {
        PositionInRange(texts[..|texts| - 1], keep, wanted, front[i]);
      }
    }
  }

  lemma PositionInRange(texts: seq<string>, keep: string -> bool, wanted: bool, k: nat)
    requires k in Positions(texts, keep, wanted)
    ensures k <= |texts|
  {
  }

  function StrList(texts: seq<string>): Value {
    List(seq(|texts|, i requires 0 <= i < |texts| => Str(texts[i])))
  }

  /** The payload is exactly the input with kept findings and renumbered references. */
  ghost predicate CleanedPayload(raw: Payload, payload: Payload, keep: string -> bool)
    requires Removable(raw, keep)
  {
    && HasAssessments(payload)
    && payload == raw["assessments" := payload["assessments"]]["findings" := StrList(Kept(Texts(raw), keep))]
    && AllCleaned(raw["assessments"].items, payload["assessments"].items, |raw["assessments"].items|, Texts(raw), keep)
  }

  /** The relation between input and result of a successful cleanup. */
  ghost predicate NormalizesTo(raw: Payload, payload: Payload, removed: seq<nat>, keep: string -> bool) {
    if Removable(raw, keep)
    then CleanedPayload(raw, payload, keep) && removed == Positions(Texts(raw), keep, false)
    else Untouched(raw, keep) && payload == raw && removed == []
  }

  lemma {:induction false} PositionsCount(texts: seq<string>, keep: string -> bool)
    ensures |Positions(texts, keep, false)| + |Kept(texts, keep)| == |texts|
    ensures |Positions(texts, keep, true)| == |Kept(texts, keep)|
  {
    if texts != [] {
      PositionsCount(texts[..|texts| - 1], keep);
    }
  }

  /** The j-th kept position gets number j, and its text is the j-th kept text. */
  lemma {:induction false} PositionFacts(texts: seq<string>, keep: string -> bool, j: nat)
    requires |Positions(texts, keep, true)| == |Kept(texts, keep)| && j < |Kept(texts, keep)|
    ensures 1 <= Positions(texts, keep, true)[j] <= |texts|
    ensures Rank(texts, keep, Positions(texts, keep, true)[j]) == j + 1
    ensures Kept(texts, keep)[j] == texts[Positions(texts, keep, true)[j] - 1]
  {
    var n := |texts| - 1;
    var front := texts[..n];
    PositionsCount(front, keep);
    KeptLength(front, keep);
    RankOfPrefix(texts, keep, n, n);
    if j < |Kept(front, keep)| {
      PositionFacts(front, keep, j);
      RankOfPrefix(texts, keep, n, Positions(front, keep, true)[j]);
    }
  }

  /** `{old: new for new, old in enumerate(retained_positions, 1)}`. */
  method BuildRemapping(texts: seq<string>, retained: seq<nat>, ghost keep: string -> bool)
      returns (remapping: map<nat, nat>)
    requires retained == Positions(texts, keep, true)
    ensures forall k :: k in remapping <==> 1 <= k <= |texts| && keep(texts[k - 1])
    ensures forall k :: k in remapping ==> k <= |texts| && remapping[k] == Rank(texts, keep, k)
  {
    PositionsCount(texts, keep);
    remapping := map[];
    for j := 0 to |retained|
      invariant forall k :: k in remapping <==> k in retained[..j]
      invariant forall k :: k in remapping ==> k <= |texts| && remapping[k] == Rank(texts, keep, k)
    {
      PositionFacts(texts, keep, j);
      assert retained[..j + 1] == retained[..j] + [retained[j]];
      remapping := remapping[retained[j] := j + 1];
    }
    assert retained[..|retained|] == retained;
  }

  /** `[remapping[index] for index in indices if index in remapping]`. */
  method RemapIndices(refs: seq<Value>, texts: seq<string>, remapping: map<nat, nat>, ghost keep: string -> bool)
      returns (r: seq<Value>)
    requires InRange(refs, |texts|)
    requires forall k :: k in remapping <==> 1 <= k <= |texts| && keep(texts[k - 1])
    requires forall k :: k in remapping ==> k <= |texts| && remapping[k] == Rank(texts, keep, k)
    ensures r == Remapped(refs, texts, keep)
  {
    r := [];
    for i := 0 to |refs|
      invariant r == Remapped(refs[..i], texts, keep)
    {
      assert refs[..i + 1][..i] == refs[..i];
      if refs[i].number in remapping {
        r := r + [Int(remapping[refs[i].number])];
      }
    }
    assert refs[..|refs|] == refs;
  }

  method NormalizeResearchOutput(raw: Payload, substantive: string -> bool) returns (r: Outcome)
    ensures r == AllPlaceholders <==> OnlyPlaceholders(raw, substantive)
    ensures Untouched(raw, substantive) ==> r == Normalized(raw, [])
    ensures r.Normalized? ==> NormalizesTo(raw, r.payload, r.removed, substantive)
    ensures Removable(raw, substantive) ==>
      (r.Normalized? <==> forall i :: 0 <= i < |raw["assessments"].items| ==>
        CheckAssessment(raw["assessments"].items[i].fields, i, Texts(raw), substantive).Ok?)
    ensures Removable(raw, substantive) && !r.Normalized? ==>
      exists i :: FirstRefused(raw["assessments"].items, i, Texts(raw), substantive, r)
  {
    if !HasFindings(raw) {
      return Normalized(raw, []);
    }
    var findings := Texts(raw);
    PositionsCount(findings, substantive);
    var removed := Positions(findings, substantive, false);
    if removed == [] {
      return Normalized(raw, []);
    }
    if |removed| == |findings| {
      return AllPlaceholders;
    }
    if !HasAssessments(raw) {
      return Normalized(raw, []);
    }
    var retained := Positions(findings, substantive, true);
    var remapping := BuildRemapping(findings, retained, substantive);
    ghost var before := raw["assessments"].items;
    var assessments := raw["assessments"].items;
    for position := 0 to |assessments|
      invariant AllCleaned(before, assessments, position, findings, substantive)
      invariant forall i :: 0 <= i < position ==> CheckAssessment(before[i].fields, i, findings, substantive).Ok?
    {
      var assessment := assessments[position].fields;
      var indices := Get(assessment, "finding_indices");
      if !ValidReferences(indices, |findings|) {
        assert FirstRefused(before, position, findings, substantive, BadReferences(position));
        return BadReferences(position);
      }
      var newIndices := RemapIndices(indices.items, findings, remapping, substantive);
      if !Hashable(Get(assessment, "status")) {
        assert FirstRefused(before, position, findings, substantive, UnhashableStatus(position));
        return UnhashableStatus(position);
      }
      if ClaimsSupport(assessment) && newIndices == [] {
        assert FirstRefused(before, position, findings, substantive, Unsupported(position));
        return Unsupported(position);
      }
      assessments := assessments[position := Dict(assessment["finding_indices" := List(newIndices)])];
    }
    var kept := KeptTexts(findings, retained, substantive);
    return Normalized(raw["assessments" := List(assessments)]["findings" := StrList(kept)], removed);
  }

  ghost predicate FirstRefused(items: seq<Value>, i: int, texts: seq<string>, keep: string -> bool, r: Outcome) {
    && 0 <= i < |items| && (forall j :: 0 <= j < |items| ==> items[j].Dict?)
    && CheckAssessment(items[i].fields, i, texts, keep) == Err(r)
    && forall j :: 0 <= j < i ==> CheckAssessment(items[j].fields, j, texts, keep).Ok?
  }

  /** `[findings[index - 1] for index in retained_positions]`. */
  method KeptTexts(texts: seq<string>, retained: seq<nat>, ghost keep: string -> bool) returns (kept: seq<string>)
    requires retained == Positions(texts, keep, true)
    ensures kept == Kept(texts, keep)
  {
    PositionsCount(texts, keep);
    kept := [];
    for j := 0 to |retained|
      invariant kept == Kept(texts, keep)[..j]
    {
      PositionFacts(texts, keep, j);
      kept := kept + [texts[retained[j] - 1]];
    }
  }

  // ----- What a successful cleanup guarantees -----

  /** A second pass removes nothing: its result is the first result. */
  lemma SecondPassRemovesNothing(raw: Payload, payload: Payload, removed: seq<nat>, keep: string -> bool)
    requires NormalizesTo(raw, payload, removed, keep)
    ensures Untouched(payload, keep) && NormalizesTo(payload, payload, [], keep)
  {
    if Removable(raw, keep) {
      var kept := Kept(Texts(raw), keep);
      assert HasFindings(payload) && Texts(payload) == kept;
      KeptAreSubstantive(Texts(raw), keep);
      KeepingAll(kept, keep);
    }
  }

  lemma {:induction false} KeepingAll(texts: seq<string>, keep: string -> bool)
    requires forall t :: t in texts ==> keep(t)
    ensures Kept(texts, keep) == texts
  {
    if texts != [] {
      KeepingAll(texts[..|texts| - 1], keep);
      assert texts == texts[..|texts| - 1] + [texts[|texts| - 1]];
    }
  }

  /** Every assessment still names, in order, exactly the surviving texts it named before; nothing dangles. */
  lemma ReferencesPreserved(raw: Payload, payload: Payload, removed: seq<nat>, keep: string -> bool, i: nat)
    requires NormalizesTo(raw, payload, removed, keep) && Removable(raw, keep)
    requires i < |raw["assessments"].items|
    ensures HasFindings(payload) && HasAssessments(payload) && i < |payload["assessments"].items|
    ensures var was, now := Get(raw["assessments"].items[i].fields, "finding_indices"),
                              Get(payload["assessments"].items[i].fields, "finding_indices");
      && ValidReferences(was, |Texts(raw)|) && ValidReferences(now, |Texts(payload)|)
      && TextsOf(now.items, Texts(payload)) == Kept(TextsOf(was.items, Texts(raw)), keep)
  {
    assert Texts(payload) == Kept(Texts(raw), keep);
    assert Cleaned(raw["assessments"].items[i].fields, payload["assessments"].items[i].fields, Texts(raw), keep);
    var refs := raw["assessments"].items[i].fields["finding_indices"].items;
    RemappedInRange(refs, Texts(raw), keep);
    RemappedDistinct(refs, Texts(raw), keep);
    RemappedKeepsTexts(refs, Texts(raw), keep);
  }

  /** Only the findings and the assessments' references change. */
  lemma OtherFieldsUntouched(raw: Payload, payload: Payload, removed: seq<nat>, keep: string -> bool)
    requires NormalizesTo(raw, payload, removed, keep)
    ensures payload.Keys == raw.Keys
    ensures forall key :: key in raw && key != "findings" && key != "assessments" ==> payload[key] == raw[key]
    ensures Removable(raw, keep) ==>
      forall i, key :: 0 <= i < |raw["assessments"].items| && key != "finding_indices" ==>
        Get(payload["assessments"].items[i].fields, key) == Get(raw["assessments"].items[i].fields, key)
  {
    if Removable(raw, keep) {
      forall i | 0 <= i < |raw["assessments"].items|
        ensures Cleaned(raw["assessments"].items[i].fields, payload["assessments"].items[i].fields, Texts(raw), keep)
      {
      }
    }
  }

  /** Every met or partial assessment names at least one finding. */
  ghost predicate ClaimsSupported(payload: Payload) {
    HasAssessments(payload) ==>
      forall i :: 0 <= i < |payload["assessments"].items| && ClaimsSupport(payload["assessments"].items[i].fields) ==>
        var refs := Get(payload["assessments"].items[i].fields, "finding_indices");
        refs.List? && refs.items != []
  }

  /** Claims are only checked when something was removed; otherwise they are as supported as they were. */
  lemma ClaimsSupportedExactly(raw: Payload, payload: Payload, removed: seq<nat>, keep: string -> bool)
    requires NormalizesTo(raw, payload, removed, keep)
    ensures ClaimsSupported(payload) <==> removed != [] || ClaimsSupported(raw)
    ensures removed != [] <==> Removable(raw, keep)
  {
    if Removable(raw, keep) {
      PositionsCount(Texts(raw), keep);
      forall i | 0 <= i < |payload["assessments"].items|
        ensures Cleaned(raw["assessments"].items[i].fields, payload["assessments"].items[i].fields, Texts(raw), keep)
      {
      }
    }
  }

  function MetWithout(): map<string, Value> {
    map["status" := Str("met"), "finding_indices" := List([])]
  }

  /** One real finding and a met assessment that names none. */
  function UnsupportedClaim(): Payload {
    map["findings" := List([Str("x")]), "assessments" := List([Dict(MetWithout())])]
  }

  lemma MetWithoutClaims()
    ensures ClaimsSupport(MetWithout()) && Get(MetWithout(), "finding_indices") == List([])
  {
  }

  lemma UnsupportedClaimShape()
    ensures Get(UnsupportedClaim(), "findings") == List([Str("x")]) && "findings" in UnsupportedClaim()
    ensures Get(UnsupportedClaim(), "assessments") == List([Dict(MetWithout())]) && "assessments" in UnsupportedClaim()
  {
  }

  lemma RealFindingIsUntouched(raw: Payload, keep: string -> bool)
    requires HasFindings(raw) && forall t :: t in Texts(raw) ==> keep(t)
    ensures Untouched(raw, keep) && NormalizesTo(raw, raw, [], keep)
  {
    KeepingAll(Texts(raw), keep);
  }

  lemma UnsupportedClaimShows()
    ensures !ClaimsSupported(UnsupportedClaim())
  {
    UnsupportedClaimShape();
    MetWithoutClaims();
    assert UnsupportedClaim()["assessments"].items[0].fields == MetWithout();
  }

  /** A met assessment without any finding passes when no finding is a placeholder. */
  lemma UnsupportedClaimCanPass(keep: string -> bool)
    requires keep("x")
    ensures NormalizesTo(UnsupportedClaim(), UnsupportedClaim(), [], keep) && !ClaimsSupported(UnsupportedClaim())
  {
    UnsupportedClaimShape();
    UnsupportedClaimShows();
    RealFindingIsUntouched(UnsupportedClaim(), keep);
  }
}
