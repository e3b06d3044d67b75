/** Sharing the excerpt budget between cited and current sources (backend/src/atlasflow/agents/report_skill.py
    `_select_report_excerpts`). */
module ExcerptSelection {
  import opened Common
  import opened Sorting
  import opened CitationCatalog

  const REPORT_EXCERPT_LIMIT: nat := 30

  /** What each of the two competing groups is sure to get. */
  const HALF: nat := REPORT_EXCERPT_LIMIT / 2

  function NumberKey(c: Citation): int {
    c.number
  }

  /** Entries of a catalog as the catalog builder makes it: ascending numbers, one entry per URL. */
  ghost predicate IsCatalog(catalog: seq<Citation>) {
    && StrictlyAscending(catalog, NumberKey)
    && forall i, j :: 0 <= i < j < |catalog| ==> catalog[i].row.url != catalog[j].row.url
  }

  lemma BuiltCatalogIsCatalog(evidence: seq<Evidence>, records: seq<ToolCall>, sourceOrder: seq<string>)
    ensures IsCatalog(Catalog(evidence, records, sourceOrder))
  {
    NumbersAreABijection(evidence, records, sourceOrder);
    var catalog := Catalog(evidence, records, sourceOrder);
    forall i, j | 0 <= i < j < |catalog| ensures catalog[i].row.url != catalog[j].row.url {
      assert CatalogUrls(catalog)[i] != CatalogUrls(catalog)[j];
    }
  }

  /** URLs of evidence gathered by the current run. */
  function CurrentUrls(evidence: seq<Evidence>): set<string> {
    set e | e in evidence && e.uri.Some? && !e.inherited :: e.uri.value
  }

  /** `key=lambda item: item.url not in current_urls`: current sources first, otherwise stable. */
  function StaleKey(current: set<string>): Citation -> int {
    (c: Citation) => if c.row.url in current then 0 else 1
  }

  function Current(catalog: seq<Citation>, current: set<string>): seq<Citation> {
    Filter(catalog, (c: Citation) => c.row.url in current)
  }

  function Cited(catalog: seq<Citation>, used: set<nat>, current: set<string>): seq<Citation> {
    SortBy(Filter(catalog, (c: Citation) => c.number in used), StaleKey(current))
  }

  function Lookup(catalog: seq<Citation>, url: string): (r: seq<Citation>)
    ensures forall c :: c in r ==> c in catalog
  {
    Filter(catalog, (c: Citation) => c.row.url == url)
  }

  /** `[by_url[url] for url in dict.fromkeys(urls) if url in by_url]`, before sorting. */
  function ByUrls(catalog: seq<Citation>, urls: seq<string>): (r: seq<Citation>)
    ensures forall c :: c in r ==> c in catalog
  {
    if urls == [] then [] else ByUrls(catalog, urls[..|urls| - 1]) + Lookup(catalog, urls[|urls| - 1])
  }

  /** `preferred or current`. */
  function PreferredOrCurrent(catalog: seq<Citation>, preferredUrls: seq<string>, current: set<string>): seq<Citation> {
    var preferred := SortBy(ByUrls(catalog, Dedupe(preferredUrls)), StaleKey(current));
    if preferred != [] then preferred else Current(catalog, current)
  }

  // ----- The groups in their own terms -----

  /** Some evidence for the URL was gathered by the current run. */
  ghost predicate IsFresh(evidence: seq<Evidence>, url: string) {
    exists k :: 0 <= k < |evidence| && evidence[k].uri == Some(url) && !evidence[k].inherited
  }

  /** Fresh sources come before inherited ones; otherwise the rank decides. */
  ghost predicate FreshFirst(evidence: seq<Evidence>, group: seq<Citation>, rank: Citation -> int) {
    forall i, j :: 0 <= i < j < |group| ==>
      var early, late := IsFresh(evidence, group[i].row.url), IsFresh(evidence, group[j].row.url);
      (late ==> early) && (early == late ==> rank(group[i]) < rank(group[j]))
  }

  /** The entries the report cites. */
  ghost predicate CitedGroup(group: seq<Citation>, catalog: seq<Citation>, used: set<nat>, evidence: seq<Evidence>) {
    && (forall c :: c in group <==> c in catalog && c.number in used)
    && FreshFirst(evidence, group, NumberKey)
  }

  function PreferenceKey(preferredUrls: seq<string>): Citation -> int {
    (c: Citation) => Place(preferredUrls, c.row.url)
  }

  ghost predicate SomePreferred(catalog: seq<Citation>, preferredUrls: seq<string>) {
    exists c :: c in catalog && c.row.url in preferredUrls
  }

  /** The preferred entries, by preference; without any, the fresh ones, by number. */
  ghost predicate OtherGroup(group: seq<Citation>, catalog: seq<Citation>, preferredUrls: seq<string>,
      evidence: seq<Evidence>)
  {
    if SomePreferred(catalog, preferredUrls) then
      && (forall c :: c in group <==> c in catalog && c.row.url in preferredUrls)
      && FreshFirst(evidence, group, PreferenceKey(preferredUrls))
    else FreshGroup(group, catalog, evidence)
  }

  ghost predicate FreshGroup(group: seq<Citation>, catalog: seq<Citation>, evidence: seq<Evidence>) {
    && (forall c :: c in group <==> c in catalog && IsFresh(evidence, c.row.url))
    && StrictlyAscending(group, NumberKey)
  }

  lemma FreshIsCurrent(evidence: seq<Evidence>, url: string)
    ensures url in CurrentUrls(evidence) <==> IsFresh(evidence, url)
  {
    if url in CurrentUrls(evidence) {
      var e :| e in evidence && e.uri.Some? && !e.inherited && e.uri.value == url;
      var k :| 0 <= k < |evidence| && evidence[k] == e;
    }
    if k :| 0 <= k < |evidence| && evidence[k].uri == Some(url) && !evidence[k].inherited {
      assert evidence[k] in evidence;
    }
  }

  lemma SortedFreshFirst(group: seq<Citation>, evidence: seq<Evidence>, rank: Citation -> int)
    requires StrictlyAscending(group, rank)
    ensures FreshFirst(evidence, SortBy(group, StaleKey(CurrentUrls(evidence))), rank)
  {
    var key := StaleKey(CurrentUrls(evidence));
    SortInOrder(group, key, rank);
    forall c: Citation ensures key(c) == if IsFresh(evidence, c.row.url) then 0 else 1 {
      FreshIsCurrent(evidence, c.row.url);
    }
  }

  lemma {:induction false} FilterAscends(s: seq<Citation>, keep: Citation -> bool, rank: Citation -> int)
    requires StrictlyAscending(s, rank)
    ensures StrictlyAscending(Filter(s, keep), rank)
  {
    if s != [] {
      FilterAscends(s[1..], keep, rank);
      forall c | c in Filter(s[1..], keep) ensures rank(s[0]) < rank(c) {
        var i :| 0 <= i < |s[1..]| && s[1..][i] == c;
        assert s[i + 1] == c;
      }
    }
  }

  lemma CitedIsGroup(catalog: seq<Citation>, used: set<nat>, evidence: seq<Evidence>)
    requires IsCatalog(catalog)
    ensures CitedGroup(Cited(catalog, used, CurrentUrls(evidence)), catalog, used, evidence)
  {
    FilterAscends(catalog, (c: Citation) => c.number in used, NumberKey);
    SortedFreshFirst(Filter(catalog, (c: Citation) => c.number in used), evidence, NumberKey);
  }

  lemma CurrentIsFresh(catalog: seq<Citation>, evidence: seq<Evidence>)
    requires IsCatalog(catalog)
    ensures FreshGroup(Current(catalog, CurrentUrls(evidence)), catalog, evidence)
  {
    var current := CurrentUrls(evidence);
    FilterAscends(catalog, (c: Citation) => c.row.url in current, NumberKey);
    forall c: Citation ensures c.row.url in current <==> IsFresh(evidence, c.row.url) {
      FreshIsCurrent(evidence, c.row.url);
    }
  }

  lemma LookupOne(catalog: seq<Citation>, url: string)
    requires IsCatalog(catalog)
    ensures |Lookup(catalog, url)| <= 1
    ensures forall c :: c in Lookup(catalog, url) <==> c in catalog && c.row.url == url
  {
    var r := Lookup(catalog, url);
    assert AllDistinct(catalog);
    FilterKeepsDistinct(catalog, (c: Citation) => c.row.url == url);
    if |r| > 1 {
      SameUrlSameEntry(catalog, r[0], r[1]);
    }
  }

  lemma {:induction false} ByUrlsAscends(catalog: seq<Citation>, urls: seq<string>, preferredUrls: seq<string>)
    requires IsCatalog(catalog) && StrictlyAscending(urls, UrlPlace(preferredUrls))
    ensures forall c :: c in ByUrls(catalog, urls) <==> c in catalog && c.row.url in urls
    ensures StrictlyAscending(ByUrls(catalog, urls), PreferenceKey(preferredUrls))
  {
    if urls != [] {
      var n := |urls| - 1;
      ByUrlsAscends(catalog, urls[..n], preferredUrls);
      LookupOne(catalog, urls[n]);
      assert urls == urls[..n] + [urls[n]];
      forall c | c in ByUrls(catalog, urls[..n])
        ensures Place(preferredUrls, c.row.url) < Place(preferredUrls, urls[n])
      {
        var i :| 0 <= i < n && urls[i] == c.row.url;
        assert UrlPlace(preferredUrls)(urls[i]) < UrlPlace(preferredUrls)(urls[n]);
      }
    }
  }

  lemma OtherIsGroup(catalog: seq<Citation>, preferredUrls: seq<string>, evidence: seq<Evidence>)
    requires IsCatalog(catalog)
    ensures OtherGroup(PreferredOrCurrent(catalog, preferredUrls, CurrentUrls(evidence)),
                       catalog, preferredUrls, evidence)
  {
    DedupeInOrder(preferredUrls);
    var urls := Dedupe(preferredUrls);
    ByUrlsAscends(catalog, urls, preferredUrls);
    SortedFreshFirst(ByUrls(catalog, urls), evidence, PreferenceKey(preferredUrls));
    CurrentIsFresh(catalog, evidence);
    var sorted := SortBy(ByUrls(catalog, urls), StaleKey(CurrentUrls(evidence)));
    if sorted != [] {
      assert sorted[0] in sorted;
    }
    if SomePreferred(catalog, preferredUrls) {
      var c :| c in catalog && c.row.url in preferredUrls;
      assert c in sorted;
    }
  }

  /** Selected entries, one per URL, all from the catalog. */
  ghost predicate Selection(catalog: seq<Citation>, selected: seq<Citation>) {
    && |selected| <= REPORT_EXCERPT_LIMIT
    && (forall i :: 0 <= i < |selected| ==> selected[i] in catalog)
    && (forall i, j :: 0 <= i < j < |selected| ==> selected[i].row.url != selected[j].row.url)
  }

  /** The first entries of a group, in its own order of priority, are selected. */
  ghost predicate Taken(group: seq<Citation>, n: nat, selected: seq<Citation>) {
    forall i :: 0 <= i < n && i < |group| ==> group[i] in selected
  }

  /** At least 15 different entries of the group are shown, or all of them. */
  ghost predicate Represented(group: seq<Citation>, shown: seq<Citation>) {
    AllDistinct(group) && |Elements(group) * Elements(shown)| >= Min(HALF, |group|)
  }

  lemma TakenIsRepresented(group: seq<Citation>, shown: seq<Citation>)
    requires AllDistinct(group) && Taken(group, HALF, shown)
    ensures Represented(group, shown)
  {
    var first := group[..Min(HALF, |group|)];
    DistinctIffSameSize(first);
    forall c | c in first ensures c in group && c in shown {
      var i :| 0 <= i < |first| && first[i] == c;
      assert group[i] == c;
    }
    SubsetSize(Elements(first), Elements(group) * Elements(shown));
  }

  lemma SortedDistinct(s: seq<Citation>, key: Citation -> int)
    requires AllDistinct(s)
    ensures AllDistinct(SortBy(s, key))
  {
    SortAscending(s, key);
    SortKeepsTagsApart(s, key, (c: Citation) => c);
  }

  lemma {:induction false} ByUrlsDistinct(catalog: seq<Citation>, urls: seq<string>)
    requires AllDistinct(catalog) && AllDistinct(urls)
    ensures AllDistinct(ByUrls(catalog, urls))
    ensures forall c :: c in ByUrls(catalog, urls) ==> c.row.url in urls
  {
    if urls != [] {
      var n := |urls| - 1;
      ByUrlsDistinct(catalog, urls[..n]);
      FilterKeepsDistinct(catalog, (c: Citation) => c.row.url == urls[n]);
      var before, last := ByUrls(catalog, urls[..n]), Lookup(catalog, urls[n]);
      LookupUrl(catalog, urls[n]);
      forall c | c in before ensures c !in last {
        assert c.row.url in urls[..n];
      }
      ApartIsDistinct(before, last);
    }
  }

  lemma LookupUrl(catalog: seq<Citation>, url: string)
    requires AllDistinct(catalog)
    ensures AllDistinct(Lookup(catalog, url)) && forall c :: c in Lookup(catalog, url) ==> c.row.url == url
  {
    FilterKeepsDistinct(catalog, (c: Citation) => c.row.url == url);
  }

  lemma ApartIsDistinct(a: seq<Citation>, b: seq<Citation>)
    requires AllDistinct(a) && AllDistinct(b) && forall c :: c in a ==> c !in b
    ensures AllDistinct(a + b)
  {
    forall i, j | 0 <= i < j < |a + b| ensures (a + b)[i] != (a + b)[j] {
      if i < |a| <= j {
        assert a[i] in a && b[j - |a|] in b;
      }
    }
  }

  /** Both competing groups name each catalog entry at most once. */
  lemma GroupsDistinct(catalog: seq<Citation>, used: set<nat>, preferredUrls: seq<string>, current: set<string>)
    requires IsCatalog(catalog)
    ensures AllDistinct(Cited(catalog, used, current))
    ensures AllDistinct(PreferredOrCurrent(catalog, preferredUrls, current))
  {
    assert AllDistinct(catalog);
    FilterKeepsDistinct(catalog, (c: Citation) => c.number in used);
    SortedDistinct(Filter(catalog, (c: Citation) => c.number in used), StaleKey(current));
    ByUrlsDistinct(catalog, Dedupe(preferredUrls));
    SortedDistinct(ByUrls(catalog, Dedupe(preferredUrls)), StaleKey(current));
    FilterKeepsDistinct(catalog, (c: Citation) => c.row.url in current);
  }

  lemma SameUrlSameEntry(catalog: seq<Citation>, a: Citation, b: Citation)
    requires IsCatalog(catalog) && a in catalog && b in catalog && a.row.url == b.row.url
    ensures a == b
  {
  }

  // ----- The order of the picks -----

  /** c is the first entry of the group that is not chosen yet. */
  ghost predicate FirstFree(group: seq<Citation>, chosen: seq<Citation>, c: Citation) {
    exists k :: 0 <= k < |group| && group[k] == c && c !in chosen && forall j :: 0 <= j < k ==> group[j] in chosen
  }

  ghost predicate UsedUp(group: seq<Citation>, chosen: seq<Citation>) {
    forall c :: c in group ==> c in chosen
  }

  /** The groups take turns, the cited one first; a group that is used up leaves its turn to the other. */
  ghost predicate InTurn(cited: seq<Citation>, other: seq<Citation>, chosen: seq<Citation>, c: Citation) {
    if |chosen| % 2 == 0
    then if UsedUp(cited, chosen) then FirstFree(other, chosen, c) else FirstFree(cited, chosen, c)
    else if UsedUp(other, chosen) then FirstFree(cited, chosen, c) else FirstFree(other, chosen, c)
  }

  ghost predicate AllInTurn(cited: seq<Citation>, other: seq<Citation>, picks: seq<Citation>) {
    forall i :: 0 <= i < |picks| ==> InTurn(cited, other, picks[..i], picks[i])
  }

  /** The picks from before to after each take the pool's first free entry. */
  ghost predicate Filled(pool: seq<Citation>, before: seq<Citation>, after: seq<Citation>) {
    && before <= after
    && (forall i :: |before| <= i < |after| ==> FirstFree(pool, after[..i], after[i]))
    && (|after| == REPORT_EXCERPT_LIMIT || UsedUp(pool, after))
  }

  /** Everything the selection picks, in order: the rounds, then the current entries, then the rest of the catalog. */
  ghost predicate PickedFor(picks: seq<Citation>, catalog: seq<Citation>, cited: seq<Citation>, other: seq<Citation>,
      current: seq<Citation>)
  {
    exists shared, withCurrent ::
      && AllInTurn(cited, other, shared)
      && (|shared| == REPORT_EXCERPT_LIMIT || (UsedUp(cited, shared) && UsedUp(other, shared)))
      && Filled(current, shared, withCurrent) && Filled(catalog, withCurrent, picks)
  }

  /** The result lists the picks by number, for the groups told from the report, the preferences and the evidence. */
  ghost predicate SelectedFor(r: seq<Citation>, catalog: seq<Citation>, used: set<nat>, preferredUrls: seq<string>,
      evidence: seq<Evidence>)
  {
    && StrictlyAscending(r, NumberKey)
    && exists picks, cited, other, current ::
      && CitedGroup(cited, catalog, used, evidence) && OtherGroup(other, catalog, preferredUrls, evidence)
      && FreshGroup(current, catalog, evidence) && PickedFor(picks, catalog, cited, other, current)
      && forall c :: c in r <==> c in picks
  }

  lemma OneMoreInTurn(cited: seq<Citation>, other: seq<Citation>, picks: seq<Citation>, c: Citation)
    requires AllInTurn(cited, other, picks) && InTurn(cited, other, picks, c)
    ensures AllInTurn(cited, other, picks + [c])
  {
    var more := picks + [c];
    forall i | 0 <= i < |more| ensures InTurn(cited, other, more[..i], more[i]) {
      assert more[..i] == picks[..i];
      assert picks[..|picks|] == picks;
    }
  }

  predicate SelectedUrl(selected: seq<Citation>, url: string) {
    exists i :: 0 <= i < |selected| && selected[i].row.url == url
  }

  /** Draws the next entry of a group whose URL is not selected yet; picked is false when the group is used up. */
  method Draw(catalog: seq<Citation>, group: seq<Citation>, start: nat, selected: seq<Citation>)
      returns (next: nat, more: seq<Citation>, picked: bool)
    requires IsCatalog(catalog) && Selection(catalog, selected) && |selected| < REPORT_EXCERPT_LIMIT
    requires start <= |group| && Taken(group, start, selected) && forall c :: c in group ==> c in catalog
    ensures start <= next <= |group| && Taken(group, next, more) && Selection(catalog, more)
    ensures selected <= more && forall c :: c in more ==> c in selected || c in group
    ensures picked ==> next > start && |more| == |selected| + 1 && FirstFree(group, selected, more[|selected|])
    ensures !picked ==> more == selected && next == |group| && UsedUp(group, selected)
  {
    next := start;
    while next < |group| && SelectedUrl(selected, group[next].row.url)
      invariant start <= next <= |group| && Taken(group, next, selected)
    {
      var i :| 0 <= i < |selected| && selected[i].row.url == group[next].row.url;
      SameUrlSameEntry(catalog, selected[i], group[next]);
      next := next + 1;
    }
    if next == |group| {
      return next, selected, false;
    }
    more := selected + [group[next]];
    assert group[next] !in selected;
    return next + 1, more, true;
  }

  /** Adds entries of a pool that are not selected yet, until the limit is reached. */
  method FillUp(catalog: seq<Citation>, pool: seq<Citation>, selected: seq<Citation>) returns (more: seq<Citation>)
    requires IsCatalog(catalog) && Selection(catalog, selected) && forall c :: c in pool ==> c in catalog
    ensures Selection(catalog, more) && selected <= more
    ensures forall c :: c in more ==> c in selected || c in pool
    ensures Filled(pool, selected, more)
  {
    more := selected;
    for i := 0 to |pool|
      invariant Selection(catalog, more) && selected <= more
      invariant forall c :: c in more ==> c in selected || c in pool
      invariant forall j :: |selected| <= j < |more| ==> FirstFree(pool, more[..j], more[j])
      invariant |more| == REPORT_EXCERPT_LIMIT || forall j :: 0 <= j < i ==> pool[j] in more
    {
      if |more| < REPORT_EXCERPT_LIMIT {
        if SelectedUrl(more, pool[i].row.url) {
          ghost var k :| 0 <= k < |more| && more[k].row.url == pool[i].row.url;
          SameUrlSameEntry(catalog, more[k], pool[i]);
        } else {
          assert FirstFree(pool, more, pool[i]);
          FillOne(pool, selected, more, pool[i]);
          more := more + [pool[i]];
        }
      }
    }
  }

  lemma FillOne(pool: seq<Citation>, before: seq<Citation>, picks: seq<Citation>, c: Citation)
    requires before <= picks && FirstFree(pool, picks, c)
    requires forall j :: |before| <= j < |picks| ==> FirstFree(pool, picks[..j], picks[j])
    ensures forall j :: |before| <= j <= |picks| ==> FirstFree(pool, (picks + [c])[..j], (picks + [c])[j])
  {
    var more := picks + [c];
    assert more[..|picks|] == picks;
    forall j | |before| <= j < |picks| ensures FirstFree(pool, more[..j], more[j]) {
      assert more[..j] == picks[..j];
    }
  }

  lemma TurnTaken(cited: seq<Citation>, other: seq<Citation>, before: seq<Citation>, after: seq<Citation>)
    requires AllInTurn(cited, other, before) && before <= after && |after| == |before| + 1
    requires InTurn(cited, other, before, after[|before|])
    ensures AllInTurn(cited, other, after)
  {
    OneMoreInTurn(cited, other, before, after[|before|]);
    assert after == before + [after[|before|]];
  }

  /** The group whose turn it is. */
  ghost predicate HasTurn(group: seq<Citation>, cited: seq<Citation>, other: seq<Citation>, selected: seq<Citation>) {
    || (group == cited && (|selected| % 2 == 0 || UsedUp(other, selected)))
    || (group == other && (|selected| % 2 == 1 || UsedUp(cited, selected)))
  }

  /** One draw of a round. */
  method TakeTurn(catalog: seq<Citation>, group: seq<Citation>, start: nat, selected: seq<Citation>,
      ghost cited: seq<Citation>, ghost other: seq<Citation>)
      returns (next: nat, more: seq<Citation>, picked: bool)
    requires IsCatalog(catalog) && Selection(catalog, selected) && |selected| < REPORT_EXCERPT_LIMIT
    requires start <= |group| && Taken(group, start, selected) && forall c :: c in group ==> c in catalog
    requires HasTurn(group, cited, other, selected) && AllInTurn(cited, other, selected)
    ensures start <= next <= |group| && Taken(group, next, more) && Selection(catalog, more)
    ensures selected <= more && forall c :: c in more ==> c in selected || c in group
    ensures picked ==> next > start && |more| == |selected| + 1
    ensures !picked ==> more == selected && next == |group| && UsedUp(group, selected)
    ensures AllInTurn(cited, other, more)
  {
    next, more, picked := Draw(catalog, group, start, selected);
    if picked {
      IsInTurn(group, cited, other, selected, more[|selected|]);
      TurnTaken(cited, other, selected, more);
    }
  }

  lemma IsInTurn(group: seq<Citation>, cited: seq<Citation>, other: seq<Citation>, selected: seq<Citation>, c: Citation)
    requires HasTurn(group, cited, other, selected) && FirstFree(group, selected, c)
    ensures InTurn(cited, other, selected, c)
  {
    assert !UsedUp(group, selected);
  }

  /** The round-robin over the two groups. */
  method ShareRounds(catalog: seq<Citation>, cited: seq<Citation>, other: seq<Citation>)
      returns (selected: seq<Citation>)
    requires IsCatalog(catalog) && forall c :: c in cited + other ==> c in catalog
    ensures Selection(catalog, selected) && forall c :: c in selected ==> c in cited || c in other
    ensures Taken(cited, HALF, selected) && Taken(other, HALF, selected)
    ensures AllInTurn(cited, other, selected)
    ensures |selected| == REPORT_EXCERPT_LIMIT || (UsedUp(cited, selected) && UsedUp(other, selected))
  {
    selected := [];
    var at0, at1 := 0, 0;
    var live0, live1 := true, true;
    ghost var picks0, picks1 := 0, 0;
    while (live0 || live1) && |selected| < REPORT_EXCERPT_LIMIT
      invariant Selection(catalog, selected) && forall c :: c in selected ==> c in cited || c in other
      invariant picks0 <= at0 <= |cited| && picks1 <= at1 <= |other| && |selected| == picks0 + picks1
      invariant Taken(cited, at0, selected) && Taken(other, at1, selected)
      invariant (live0 || at0 == |cited|) && (live1 || at1 == |other|)
      // A group that is still alive has drawn at least as often as the other.
      invariant (live0 ==> picks1 <= picks0) && (live1 ==> picks0 <= picks1)
      invariant AllInTurn(cited, other, selected) && (live0 && live1 ==> |selected| % 2 == 0)
      invariant (live0 || UsedUp(cited, selected)) && (live1 || UsedUp(other, selected))
      decreases |cited| - at0 + |other| - at1, (if live0 then 1 else 0) + (if live1 then 1 else 0)
    {
      var picked;
      if live0 {
        at0, selected, picked := TakeTurn(catalog, cited, at0, selected, cited, other);
        live0 := picked;
        picks0 := if picked then picks0 + 1 else picks0;
      }
      if live1 && |selected| < REPORT_EXCERPT_LIMIT {
        at1, selected, picked := TakeTurn(catalog, other, at1, selected, cited, other);
        live1 := picked;
        picks1 := if picked then picks1 + 1 else picks1;
      }
    }
  }

  /** Room that the groups leave goes to the current run's sources before any other. */
  ghost predicate SpareToCurrent(r: seq<Citation>, cited: seq<Citation>, other: seq<Citation>, current: seq<Citation>) {
    || (forall c :: c in current ==> c in r)
    || (forall c :: c in r ==> c in cited || c in other || c in current)
  }

  /** The picks: rounds over the groups, then the current entries, then the catalog. */
  method PickExcerpts(catalog: seq<Citation>, cited: seq<Citation>, other: seq<Citation>, current: seq<Citation>)
      returns (picks: seq<Citation>)
    requires IsCatalog(catalog) && |catalog| > REPORT_EXCERPT_LIMIT
    requires forall c :: c in cited + other + current ==> c in catalog
    ensures Selection(catalog, picks) && |picks| == REPORT_EXCERPT_LIMIT
    ensures PickedFor(picks, catalog, cited, other, current)
    ensures Taken(cited, HALF, picks) && Taken(other, HALF, picks)
    ensures SpareToCurrent(picks, cited, other, current)
  {
    var shared := ShareRounds(catalog, cited, other);
    var withCurrent := FillUp(catalog, current, shared);
    picks := FillUp(catalog, catalog, withCurrent);
    LimitReached(catalog, picks);
    assert |withCurrent| == REPORT_EXCERPT_LIMIT ==> picks == withCurrent;
  }

  /** At most 30 sources: all are shown. More: exactly 30 distinct entries in number order, of which each competing
      group gets at least its 15 highest priorities, or all of it. */
  method SelectReportExcerpts(catalog: seq<Citation>, evidence: seq<Evidence>, preferredUrls: seq<string>,
      used: set<nat>) returns (r: seq<Citation>)
    requires IsCatalog(catalog)
    ensures |catalog| <= REPORT_EXCERPT_LIMIT ==> r == catalog
    ensures |catalog| > REPORT_EXCERPT_LIMIT ==>
      |r| == REPORT_EXCERPT_LIMIT && IsCatalog(r) && forall c :: c in r ==> c in catalog
    // Every pick is the one that the turns, the current sources and the catalog call for.
    ensures |catalog| > REPORT_EXCERPT_LIMIT ==> SelectedFor(r, catalog, used, preferredUrls, evidence)
    ensures |catalog| > REPORT_EXCERPT_LIMIT ==>
      var current := CurrentUrls(evidence);
      var cited, other := Cited(catalog, used, current), PreferredOrCurrent(catalog, preferredUrls, current);
      && Taken(cited, HALF, r) && Taken(other, HALF, r)
      // The groups repeat nothing, so that is 15 different entries each, or the whole group.
      && Represented(cited, r) && Represented(other, r)
      && SpareToCurrent(r, cited, other, Current(catalog, current))
  {
    if |catalog| <= REPORT_EXCERPT_LIMIT {
      return catalog;
    }
    var currentUrls := CurrentUrls(evidence);
    var current := Current(catalog, currentUrls);
    var cited := Cited(catalog, used, currentUrls);
    var other := PreferredOrCurrent(catalog, preferredUrls, currentUrls);
    var picks := PickExcerpts(catalog, cited, other, current);
    SortSelection(catalog, picks);
    r := SortBy(picks, NumberKey);
    PicksSelect(r, picks, catalog, used, preferredUrls, evidence);
    GroupsDistinct(catalog, used, preferredUrls, currentUrls);
    TakenIsRepresented(cited, r);
    TakenIsRepresented(other, r);
  }

  lemma PicksSelect(r: seq<Citation>, picks: seq<Citation>, catalog: seq<Citation>, used: set<nat>,
      preferredUrls: seq<string>, evidence: seq<Evidence>)
    requires IsCatalog(catalog) && StrictlyAscending(r, NumberKey) && forall c :: c in r <==> c in picks
    requires var current := CurrentUrls(evidence);
      PickedFor(picks, catalog, Cited(catalog, used, current), PreferredOrCurrent(catalog, preferredUrls, current),
                Current(catalog, current))
    ensures SelectedFor(r, catalog, used, preferredUrls, evidence)
  {
    CitedIsGroup(catalog, used, evidence);
    OtherIsGroup(catalog, preferredUrls, evidence);
    CurrentIsFresh(catalog, evidence);
  }

  /** A catalog above the limit always fills it. */
  lemma LimitReached(catalog: seq<Citation>, selected: seq<Citation>)
    requires IsCatalog(catalog) && |catalog| > REPORT_EXCERPT_LIMIT && Selection(catalog, selected)
    requires |selected| == REPORT_EXCERPT_LIMIT || forall c :: c in catalog ==> c in selected
    ensures |selected| == REPORT_EXCERPT_LIMIT
  {
    DistinctIffSameSize(catalog);
    DistinctIffSameSize(selected);
    if forall c :: c in catalog ==> c in selected {
      SubsetSize(Elements(catalog), Elements(selected));
    }
  }

  lemma SortSelection(catalog: seq<Citation>, selected: seq<Citation>)
    requires IsCatalog(catalog) && Selection(catalog, selected)
    ensures IsCatalog(SortBy(selected, NumberKey))
  {
    forall i, j | 0 <= i < j < |selected| ensures NumberKey(selected[i]) != NumberKey(selected[j]) {
      var a :| 0 <= a < |catalog| && catalog[a] == selected[i];
      var b :| 0 <= b < |catalog| && catalog[b] == selected[j];
      assert a != b;
    }
    SortStrict(selected, NumberKey);
    SortKeepsTagsApart(selected, NumberKey, (c: Citation) => c.row.url);
  }
}
