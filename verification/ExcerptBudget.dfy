/** The two-pass excerpt budget of a review packet (backend/src/atlasflow/agents/report_review.py). */
module ExcerptBudget {
  import opened Common

  const REVIEW_EVIDENCE_CHAR_BUDGET: nat := 60000
  const REVIEW_SOURCE_CHAR_LIMIT: nat := 4000

  function Sum(xs: seq<nat>): nat {
    if xs == [] then 0 else Sum(xs[..|xs| - 1]) + xs[|xs| - 1]
  }

  /** The most one source may show. */
  function Cap(length: nat): nat {
    Min(length, REVIEW_SOURCE_CHAR_LIMIT)
  }

  /** The equal share of n sources. */
  function Share(n: nat): nat {
    REVIEW_EVIDENCE_CHAR_BUDGET / Max(n, 1)
  }

  function Base(length: nat, n: nat): nat {
    Min(Cap(length), Share(n))
  }

  /** The first share of one of n sources: as much as it has, as it may show, and as n such shares fit into 60000. */
  ghost predicate IsFirstShare(length: nat, n: nat, share: nat) {
    && share <= length && share <= 4000 && n * share <= 60000
    && (share == length || share == 4000 || 60000 < n * (share + 1))
  }

  lemma EqualShareFits(n: nat)
    requires n > 0
    ensures n * Share(n) <= 60000 < n * (Share(n) + 1)
  {
  }

  lemma Times(n: nat, a: nat, b: nat)
    requires a <= b
    ensures n * a <= n * b
  {
    assert n * b == n * a + n * (b - a);
  }

  /** A share that n times fits into 60000 is at most the equal one, and one that is smaller is not the largest. */
  lemma LargestShare(n: nat, share: nat)
    requires n > 0
    ensures n * share <= 60000 <==> share <= Share(n)
  {
    EqualShareFits(n);
    if share <= Share(n) {
      Times(n, share, Share(n));
    } else {
      Times(n, Share(n) + 1, share);
    }
  }

  lemma BaseIsFirstShare(length: nat, n: nat, share: nat)
    requires n > 0
    ensures IsFirstShare(length, n, share) <==> share == Base(length, n)
  {
    LargestShare(n, share);
    LargestShare(n, share + 1);
  }

  function Caps(lengths: seq<nat>): (r: seq<nat>)
    ensures |r| == |lengths| && forall i :: 0 <= i < |r| ==> r[i] == Cap(lengths[i])
  {
    seq(|lengths|, i requires 0 <= i < |lengths| => Cap(lengths[i]))
  }

  function Bases(lengths: seq<nat>): (r: seq<nat>)
    ensures |r| == |lengths| && forall i :: 0 <= i < |r| ==> r[i] == Base(lengths[i], |lengths|)
  {
    seq(|lengths|, i requires 0 <= i < |lengths| => Base(lengths[i], |lengths|))
  }

  lemma {:induction false} SumAtMost(xs: seq<nat>, bound: nat)
    requires forall i :: 0 <= i < |xs| ==> xs[i] <= bound
    ensures Sum(xs) <= |xs| * bound
  {
    if xs != [] {
      SumAtMost(xs[..|xs| - 1], bound);
      assert |xs| * bound == (|xs| - 1) * bound + bound;
    }
  }

  /** The first pass never overspends, however many sources there are. */
  lemma SharesFitBudget(lengths: seq<nat>)
    ensures Sum(Bases(lengths)) <= REVIEW_EVIDENCE_CHAR_BUDGET
  {
    var n := |lengths|;
    SumAtMost(Bases(lengths), Share(n));
    if n > 0 {
      assert n * (REVIEW_EVIDENCE_CHAR_BUDGET / n) <= REVIEW_EVIDENCE_CHAR_BUDGET;
    }
  }

  lemma {:induction false} SumUpdate(xs: seq<nat>, i: nat, v: nat)
    requires i < |xs|
    ensures Sum(xs[i := v]) == Sum(xs) - xs[i] + v
  {
    var n := |xs| - 1;
    if i == n {
      assert xs[i := v][..n] == xs[..n];
    } else {
      assert xs[i := v][..n] == xs[..n][i := v];
      SumUpdate(xs[..n], i, v);
    }
  }

  lemma {:induction false} SumMonotone(xs: seq<nat>, ys: seq<nat>)
    requires |xs| == |ys| && forall i :: 0 <= i < |xs| ==> xs[i] <= ys[i]
    ensures Sum(xs) <= Sum(ys)
    ensures Sum(xs) == Sum(ys) ==> xs == ys
  {
    if xs != [] {
      var n := |xs| - 1;
      SumMonotone(xs[..n], ys[..n]);
      assert xs == xs[..n] + [xs[n]] && ys == ys[..n] + [ys[n]];
    }
  }

  /** What the allocation promises, without naming how it is computed. */
  ghost predicate FairAllocation(lengths: seq<nat>, sizes: seq<nat>) {
    && |sizes| == |lengths|
    && (forall i :: 0 <= i < |sizes| ==> Base(lengths[i], |lengths|) <= sizes[i] <= Cap(lengths[i]))
    && Sum(sizes) == Min(REVIEW_EVIDENCE_CHAR_BUDGET, Sum(Caps(lengths)))
    // What the shares leave over goes to the earliest sources first.
    && (forall i, j :: 0 <= i < j < |sizes| && sizes[i] < Cap(lengths[i]) ==> sizes[j] == Base(lengths[j], |lengths|))
  }

  /** The second pass after its first i sources: filled up in order until nothing remains. */
  ghost predicate FilledTo(bases: seq<nat>, caps: seq<nat>, sizes: seq<nat>, i: nat, remaining: nat) {
    && |bases| == |caps| == |sizes| && i <= |sizes|
    && (forall j :: 0 <= j < |sizes| ==> bases[j] <= sizes[j] <= caps[j])
    && (forall j :: i <= j < |sizes| ==> sizes[j] == bases[j])
    && (forall j, k :: 0 <= j < k < |sizes| && j < i && sizes[j] < caps[j] ==> sizes[k] == bases[k])
    && (forall j :: 0 <= j < i && sizes[j] < caps[j] ==> remaining == 0)
  }

  lemma FillOne(bases: seq<nat>, caps: seq<nat>, sizes: seq<nat>, i: nat, remaining: nat, extra: nat)
    requires FilledTo(bases, caps, sizes, i, remaining) && i < |sizes|
    requires extra == Min(caps[i] - sizes[i], remaining)
    ensures FilledTo(bases, caps, sizes[i := sizes[i] + extra], i + 1, remaining - extra)
    ensures Sum(sizes[i := sizes[i] + extra]) == Sum(sizes) + extra
  {
    SumUpdate(sizes, i, sizes[i] + extra);
  }

  method AllocateExcerpts(lengths: seq<nat>) returns (sizes: seq<nat>, remaining: nat)
    ensures FairAllocation(lengths, sizes)
    ensures remaining == REVIEW_EVIDENCE_CHAR_BUDGET - Sum(sizes)
  {
    ghost var bases, caps := Bases(lengths), Caps(lengths);
    sizes := Bases(lengths);
    SharesFitBudget(lengths);
    remaining := REVIEW_EVIDENCE_CHAR_BUDGET - Sum(sizes);
    for i := 0 to |lengths|
      invariant FilledTo(bases, caps, sizes, i, remaining)
      invariant remaining + Sum(sizes) == REVIEW_EVIDENCE_CHAR_BUDGET
    {
      var extra := Min(Max(Min(lengths[i], REVIEW_SOURCE_CHAR_LIMIT) - sizes[i], 0), remaining);
      FillOne(bases, caps, sizes, i, remaining, extra);
      sizes := sizes[i := sizes[i] + extra];
      remaining := remaining - extra;
    }
    SumMonotone(sizes, caps);
    assert remaining > 0 ==> sizes == caps;
  }

  /** The promises leave no choice: there is exactly one fair allocation. */
  lemma FairAllocationUnique(lengths: seq<nat>, a: seq<nat>, b: seq<nat>)
    requires FairAllocation(lengths, a) && FairAllocation(lengths, b)
    ensures a == b
  {
    if a != b {
      var i := FirstDifference(a, b);
      if a[i] < b[i] {
        EarlierWins(lengths, a, b, i);
      } else {
        EarlierWins(lengths, b, a, i);
      }
    }
  }

  lemma FirstDifference(a: seq<nat>, b: seq<nat>) returns (i: nat)
    requires |a| == |b| && a != b
    ensures i < |a| && a[i] != b[i] && a[..i] == b[..i]
  {
    i := 0;
    while i < |a| && a[i] == b[i]
      invariant i <= |a| && a[..i] == b[..i]
    {
      i := i + 1;
    }
    assert a[..|a|] == a && b[..|b|] == b;
  }

  lemma EarlierWins(lengths: seq<nat>, low: seq<nat>, high: seq<nat>, i: nat)
    requires FairAllocation(lengths, low) && |high| == |lengths|
    requires forall j :: 0 <= j < |high| ==> Base(lengths[j], |lengths|) <= high[j] <= Cap(lengths[j])
    requires i < |low| && low[..i] == high[..i] && low[i] < high[i]
    ensures Sum(low) < Sum(high) <= Sum(Caps(lengths))
  {
    forall j | 0 <= j < |low| ensures low[j] <= high[j] {
      if j < i {
        assert low[j] == low[..i][j] == high[..i][j] == high[j];
      }
    }
    SumMonotone(low, high);
    SumMonotone(high, Caps(lengths));
  }
}
