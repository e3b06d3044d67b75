/** Stable citation numbers for acquired sources (backend/src/atlasflow/agents/report_skill.py
    `build_citation_catalog`). */
module CitationCatalog {
  import opened Common
  import opened Sorting

  /** priority and label are what the access classification of the metadata yields; `inherited` marks an origin run. */
  datatype Evidence = Evidence(
    title: string, uri: Option<string>, content: string, priority: nat, accessLabel: string, inherited: bool)

  datatype ToolCall = ToolCall(
    navigationUrls: seq<string>, navigationUrl: Option<string>, legIndices: seq<int>, summary: Option<string>,
    success: bool)

  datatype Row = Row(title: string, url: string, excerpt: string, kind: string, access: string)

  datatype Citation = Citation(number: nat, row: Row)

  predicate IsWeb(url: string) {
    "https://" <= url || "http://" <= url
  }

  function UrlOf(e: Evidence): string {
    if e.uri.Some? then e.uri.value else ""
  }

  function OrElse(text: string, default: string): string {
    if text == "" then default else text
  }

  function EvidenceRow(e: Evidence): Row {
    Row(OrElse(Strip(e.title), "未命名网页"), UrlOf(e), Strip(e.content), "web", e.accessLabel)
  }

  // ----- Evidence rows, upgraded in place -----

  /** A row together with the priority of the excerpt it shows. */
  datatype Slot = Slot(row: Row, priority: nat)

  function PositionOf(slots: seq<Slot>, url: string): (k: nat)
    ensures k <= |slots| && (k < |slots| ==> slots[k].row.url == url)
    ensures forall i :: 0 <= i < k ==> slots[i].row.url != url
  {
    if slots == [] then 0
    else if slots[0].row.url == url then 0
    else 1 + PositionOf(slots[1..], url)
  }

  function AddEvidence(slots: seq<Slot>, e: Evidence): seq<Slot> {
    var slot := Slot(EvidenceRow(e), e.priority);
    if !IsWeb(UrlOf(e)) then slots
    else
      var k := PositionOf(slots, UrlOf(e));
      if k == |slots| then slots + [slot]
      else if e.priority > slots[k].priority then slots[k := slot]
      else slots
  }

  function EvidenceSlots(evidence: seq<Evidence>): seq<Slot> {
    if evidence == [] then [] else AddEvidence(EvidenceSlots(evidence[..|evidence| - 1]), evidence[|evidence| - 1])
  }

  ghost predicate UrlsDistinct(slots: seq<Slot>) {
    forall i, j :: 0 <= i < j < |slots| ==> slots[i].row.url != slots[j].row.url
  }

  /** k is the first piece of evidence for its URL that no other piece outranks. */
  ghost predicate FirstBest(evidence: seq<Evidence>, k: int) {
    && 0 <= k < |evidence| && IsWeb(UrlOf(evidence[k]))
    && (forall j :: 0 <= j < |evidence| && UrlOf(evidence[j]) == UrlOf(evidence[k]) ==>
         evidence[j].priority <= evidence[k].priority)
    && (forall j :: 0 <= j < k && UrlOf(evidence[j]) == UrlOf(evidence[k]) ==>
         evidence[j].priority < evidence[k].priority)
  }

  ghost predicate ShowsFirstBest(evidence: seq<Evidence>, slot: Slot) {
    exists k :: FirstBest(evidence, k) && slot == Slot(EvidenceRow(evidence[k]), evidence[k].priority)
  }

  predicate HasSlot(slots: seq<Slot>, url: string) {
    PositionOf(slots, url) < |slots|
  }

  lemma HasSlotAt(slots: seq<Slot>, i: nat)
    requires i < |slots|
    ensures HasSlot(slots, slots[i].row.url)
    ensures UrlsDistinct(slots) ==> PositionOf(slots, slots[i].row.url) == i
  {
  }

  lemma AddKeepsUrls(slots: seq<Slot>, e: Evidence, url: string)
    requires UrlsDistinct(slots)
    ensures UrlsDistinct(AddEvidence(slots, e))
    ensures HasSlot(AddEvidence(slots, e), url) <==> HasSlot(slots, url) || (IsWeb(UrlOf(e)) && url == UrlOf(e))
  {
    var after := AddEvidence(slots, e);
    var p := PositionOf(slots, url);
    if p < |slots| { HasSlotAt(after, p); }
    if IsWeb(UrlOf(e)) { HasSlotAt(after, PositionOf(slots, UrlOf(e))); }
  }

  /** Some piece of evidence has this web URL. */
  ghost predicate HasEvidence(evidence: seq<Evidence>, url: string) {
    exists k :: 0 <= k < |evidence| && IsWeb(UrlOf(evidence[k])) && UrlOf(evidence[k]) == url
  }

  lemma HasEvidenceSnoc(evidence: seq<Evidence>, url: string)
    requires evidence != []
    ensures var n := |evidence| - 1;
      HasEvidence(evidence, url) <==>
        HasEvidence(evidence[..n], url) || (IsWeb(UrlOf(evidence[n])) && UrlOf(evidence[n]) == url)
  {
    var n := |evidence| - 1;
    if k :| 0 <= k < n && IsWeb(UrlOf(evidence[k])) && UrlOf(evidence[k]) == url {
      assert evidence[..n][k] == evidence[k];
    }
    if HasEvidence(evidence[..n], url) {
      var k :| 0 <= k < n && IsWeb(UrlOf(evidence[..n][k])) && UrlOf(evidence[..n][k]) == url;
      assert evidence[k] == evidence[..n][k];
    }
  }

  /** The slots cover exactly the web URLs of the evidence, each once. */
  lemma {:induction false} SlotsCoverUrls(evidence: seq<Evidence>, url: string)
    ensures UrlsDistinct(EvidenceSlots(evidence))
    ensures HasSlot(EvidenceSlots(evidence), url) <==> HasEvidence(evidence, url)
  {
    if evidence != [] {
      var n := |evidence| - 1;
      SlotsCoverUrls(evidence[..n], url);
      AddKeepsUrls(EvidenceSlots(evidence[..n]), evidence[n], url);
      HasEvidenceSnoc(evidence, url);
    }
  }

  lemma FirstBestStays(front: seq<Evidence>, e: Evidence, k: nat)
    requires FirstBest(front, k) && (UrlOf(e) == UrlOf(front[k]) ==> e.priority <= front[k].priority)
    ensures FirstBest(front + [e], k)
    ensures (front + [e])[k] == front[k]
  {
    var all := front + [e];
    assert all[|front|] == e && forall j :: 0 <= j < |front| ==> all[j] == front[j];
  }

  /** A slot that the next piece of evidence leaves alone still shows the first best excerpt. */
  lemma KeepsFirstBest(front: seq<Evidence>, e: Evidence, slots: seq<Slot>, i: nat)
    requires UrlsDistinct(slots) && i < |slots| && ShowsFirstBest(front, slots[i])
    requires AddEvidence(slots, e) == slots || UrlOf(e) != slots[i].row.url
    requires IsWeb(UrlOf(e)) && AddEvidence(slots, e) == slots ==>
      HasSlot(slots, UrlOf(e)) && e.priority <= slots[PositionOf(slots, UrlOf(e))].priority
    ensures ShowsFirstBest(front + [e], slots[i])
  {
    var k :| FirstBest(front, k) && slots[i] == Slot(EvidenceRow(front[k]), front[k].priority);
    HasSlotAt(slots, i);
    FirstBestStays(front, e, k);
  }

  /** A piece that outranks everything before it on its URL is the first best. */
  lemma NewFirstBest(front: seq<Evidence>, e: Evidence)
    requires IsWeb(UrlOf(e))
    requires forall j :: 0 <= j < |front| && UrlOf(front[j]) == UrlOf(e) ==> front[j].priority < e.priority
    ensures ShowsFirstBest(front + [e], Slot(EvidenceRow(e), e.priority))
  {
    var all := front + [e];
    assert all[|front|] == e;
    assert FirstBest(all, |front|);
  }

  /** No piece of evidence outranks the slot of its URL. */
  lemma SlotOutranks(front: seq<Evidence>, slots: seq<Slot>, p: nat, j: nat)
    requires p < |slots| && ShowsFirstBest(front, slots[p])
    requires j < |front| && UrlOf(front[j]) == slots[p].row.url
    ensures front[j].priority <= slots[p].priority
  {
    var k :| FirstBest(front, k) && slots[p] == Slot(EvidenceRow(front[k]), front[k].priority);
  }

  /** Each slot shows its URL's first highest-priority excerpt. */
  lemma {:induction false} SlotsShowFirstBest(evidence: seq<Evidence>, i: nat)
    requires i < |EvidenceSlots(evidence)|
    ensures ShowsFirstBest(evidence, EvidenceSlots(evidence)[i])
    decreases |evidence|
  {
    var n := |evidence| - 1;
    var front, e := evidence[..n], evidence[n];
    var before, after := EvidenceSlots(front), EvidenceSlots(evidence);
    assert evidence == front + [e];
    SlotsCoverUrls(front, UrlOf(e));
    var p := PositionOf(before, UrlOf(e));
    if i < |before| && !(i == p && after[i] != before[i]) {
      SlotsShowFirstBest(front, i);
      HasSlotAt(before, i);
      if i == p || !IsWeb(UrlOf(e)) || after == before {
        KeepsFirstBest(front, e, before, i);
      } else {
        KeepsElsewhere(front, e, before, i);
      }
    } else {
      forall j | 0 <= j < |front| && UrlOf(front[j]) == UrlOf(e) ensures front[j].priority < e.priority {
        SlotsShowFirstBest(front, p);
        SlotOutranks(front, before, p, j);
      }
      NewFirstBest(front, e);
    }
  }

  lemma KeepsElsewhere(front: seq<Evidence>, e: Evidence, slots: seq<Slot>, i: nat)
    requires i < |slots| && ShowsFirstBest(front, slots[i]) && UrlOf(e) != slots[i].row.url
    ensures ShowsFirstBest(front + [e], slots[i])
  {
    var k :| FirstBest(front, k) && slots[i] == Slot(EvidenceRow(front[k]), front[k].priority);
    assert FirstBest(front + [e], k);
  }

  // ----- Navigation rows -----

  /** One navigation link of a call, with its itinerary leg when the call recorded one. */
  datatype Link = Link(url: string, leg: Option<int>, summary: Option<string>, success: bool)

  /** `record.navigation_urls or ([record.navigation_url] if record.navigation_url else [])`. */
  function NavigationUrls(c: ToolCall): seq<string> {
    if c.navigationUrls != [] then c.navigationUrls
    else if c.navigationUrl.Some? && c.navigationUrl.value != "" then [c.navigationUrl.value]
    else []
  }

  function LinksOf(c: ToolCall): (r: seq<Link>)
    ensures |r| == |NavigationUrls(c)| && forall i :: 0 <= i < |r| ==> r[i].url == NavigationUrls(c)[i]
  {
    var urls := NavigationUrls(c);
    seq(|urls|, i requires 0 <= i < |urls| =>
      Link(urls[i], if i < |c.legIndices| then Some(c.legIndices[i]) else None, c.summary, c.success))
  }

  function Links(records: seq<ToolCall>): seq<Link> {
    if records == [] then [] else Links(records[..|records| - 1]) + LinksOf(records[|records| - 1])
  }

  function LinkRow(l: Link, position: nat): Row {
    Row(
      "高德地图导航（第 " + Decimal(if l.leg.Some? then l.leg.value else position) + " 段）", l.url,
      (if l.summary.Some? && l.summary.value != "" then l.summary.value
       else "打开高德地图核对正式地点、最新路线、距离、耗时与交通状况。")
      + (if l.success then "" else "本次工具未完整成功，仅该链接对应路段已核验。"),
      "navigation", "地图工具返回的导航链接（按记录保留核验范围）")
  }

  function RowsOf(slots: seq<Slot>): (r: seq<Row>)
    ensures |r| == |slots| && forall i :: 0 <= i < |r| ==> r[i] == slots[i].row
  {
    seq(|slots|, i requires 0 <= i < |slots| => slots[i].row)
  }

  predicate HasRow(rows: seq<Row>, url: string) {
    exists i :: 0 <= i < |rows| && rows[i].url == url
  }

  /** Rows after the evidence rows, with the number of navigation rows so far. */
  function AddLink(rows: seq<Row>, count: nat, l: Link): (seq<Row>, nat) {
    if !IsWeb(l.url) || HasRow(rows, l.url) then (rows, count)
    else (rows + [LinkRow(l, count + 1)], count + 1)
  }

  function AddLinks(rows: seq<Row>, links: seq<Link>): (seq<Row>, nat) {
    if links == [] then (rows, 0)
    else
      var (before, count) := AddLinks(rows, links[..|links| - 1]);
      AddLink(before, count, links[|links| - 1])
  }

  /** All rows in order of first acquisition. */
  function Acquired(evidence: seq<Evidence>, records: seq<ToolCall>): seq<Row> {
    AddLinks(RowsOf(EvidenceSlots(evidence)), Links(records)).0
  }

  ghost predicate RowUrlsDistinct(rows: seq<Row>) {
    forall i, j :: 0 <= i < j < |rows| ==> rows[i].url != rows[j].url
  }

  lemma {:induction false} AddLinksGrows(rows: seq<Row>, links: seq<Link>)
    requires RowUrlsDistinct(rows)
    ensures RowUrlsDistinct(AddLinks(rows, links).0) && rows <= AddLinks(rows, links).0
  {
    if links != [] {
      var n := |links| - 1;
      AddLinksGrows(rows, links[..n]);
      var before, after := AddLinks(rows, links[..n]).0, AddLinks(rows, links).0;
      forall i | 0 <= i < |before| && |after| > |before| ensures before[i].url != after[|before|].url {
        assert !HasRow(before, after[|before|].url);
      }
    }
  }

  /** Some link has this web URL. */
  ghost predicate HasLink(links: seq<Link>, url: string) {
    exists i :: 0 <= i < |links| && IsWeb(links[i].url) && links[i].url == url
  }

  lemma HasLinkSnoc(links: seq<Link>, url: string)
    requires links != []
    ensures var n := |links| - 1;
      HasLink(links, url) <==> HasLink(links[..n], url) || (IsWeb(links[n].url) && links[n].url == url)
  {
    var n := |links| - 1;
    if i :| 0 <= i < |links| && IsWeb(links[i].url) && links[i].url == url {
      assert i < n ==> links[..n][i] == links[i];
    }
    if i :| 0 <= i < n && IsWeb(links[..n][i].url) && links[..n][i].url == url {
      assert links[i] == links[..n][i];
    }
  }

  lemma {:induction false} AddLinksHas(rows: seq<Row>, links: seq<Link>, url: string)
    ensures HasRow(AddLinks(rows, links).0, url) <==> HasRow(rows, url) || HasLink(links, url)
  {
    if links != [] {
      var n := |links| - 1;
      var (before, count) := AddLinks(rows, links[..n]);
      AddLinksHas(rows, links[..n], url);
      AddLinksHas(rows, links[..n], links[n].url);
      HasLinkSnoc(links, url);
      HasRowSnoc(before, LinkRow(links[n], count + 1));
    }
  }

  lemma AddLinksFacts(rows: seq<Row>, links: seq<Link>, url: string)
    requires RowUrlsDistinct(rows)
    ensures RowUrlsDistinct(AddLinks(rows, links).0) && rows <= AddLinks(rows, links).0
    ensures HasRow(AddLinks(rows, links).0, url) <==> HasRow(rows, url) || HasLink(links, url)
  {
    AddLinksGrows(rows, links);
    AddLinksHas(rows, links, url);
  }

  /** The URLs a catalog is about: web URLs of the evidence and of the navigation links. */
  ghost predicate IsAcquired(evidence: seq<Evidence>, records: seq<ToolCall>, url: string) {
    HasEvidence(evidence, url) || HasLink(Links(records), url)
  }

  lemma AcquiredFacts(evidence: seq<Evidence>, records: seq<ToolCall>, url: string)
    ensures RowUrlsDistinct(Acquired(evidence, records))
    ensures RowsOf(EvidenceSlots(evidence)) <= Acquired(evidence, records)
    ensures HasRow(Acquired(evidence, records), url) <==> IsAcquired(evidence, records, url)
  {
    var slots := EvidenceSlots(evidence);
    SlotsCoverUrls(evidence, url);
    AddLinksFacts(RowsOf(slots), Links(records), url);
    if HasSlot(slots, url) {
      assert RowsOf(slots)[PositionOf(slots, url)].url == url;
    }
    if HasRow(RowsOf(slots), url) {
      var i :| 0 <= i < |slots| && RowsOf(slots)[i].url == url;
      HasSlotAt(slots, i);
    }
  }

  // ----- Order and numbers -----

  /** `order.get(url, len(order))`. */
  function PlaceKey(order: seq<string>): Row -> int {
    (r: Row) => Place(order, r.url)
  }

  function Ordered(rows: seq<Row>, sourceOrder: seq<string>): seq<Row> {
    if sourceOrder == [] then rows
    else
      var order := Dedupe(sourceOrder);
      SortBy(rows, PlaceKey(order))
  }

  function NumberFrom1(rows: seq<Row>): (r: seq<Citation>)
    ensures |r| == |rows| && forall i :: 0 <= i < |r| ==> r[i] == Citation(i + 1, rows[i])
  {
    seq(|rows|, i requires 0 <= i < |rows| => Citation(i + 1, rows[i]))
  }

  function Catalog(evidence: seq<Evidence>, records: seq<ToolCall>, sourceOrder: seq<string>): seq<Citation> {
    NumberFrom1(Ordered(Acquired(evidence, records), sourceOrder))
  }

  method BuildCitationCatalog(evidence: seq<Evidence>, records: seq<ToolCall>, sourceOrder: seq<string>)
      returns (catalog: seq<Citation>)
    ensures catalog == Catalog(evidence, records, sourceOrder)
    ensures CatalogFor(catalog, evidence, records, sourceOrder)
  {
    CatalogIsExact(evidence, records, sourceOrder);
    var rows, seen := CollectEvidence(evidence);
    rows := CollectLinks(rows, seen, Links(records));
    catalog := NumberFrom1(Ordered(rows, sourceOrder));
  }

  /** The second loop: navigation links after the evidence rows, each URL once. */
  method CollectLinks(base: seq<Row>, seenBefore: set<string>, links: seq<Link>) returns (rows: seq<Row>)
    requires forall url :: url in seenBefore <==> HasRow(base, url)
    ensures rows == AddLinks(base, links).0
  {
    rows := base;
    var seen, navigationIndex := seenBefore, 0;
    for i := 0 to |links|
      invariant (rows, navigationIndex) == AddLinks(base, links[..i])
      invariant forall url :: url in seen <==> HasRow(rows, url)
    {
      AddLinksSnoc(base, links, i);
      var l := links[i];
      if IsWeb(l.url) && l.url !in seen {
        seen := seen + {l.url};
        navigationIndex := navigationIndex + 1;
        HasRowSnoc(rows, LinkRow(l, navigationIndex));
        rows := rows + [LinkRow(l, navigationIndex)];
      }
    }
    assert links[..|links|] == links;
  }

  lemma AddLinksSnoc(base: seq<Row>, links: seq<Link>, i: nat)
    requires i < |links|
    ensures AddLinks(base, links[..i + 1]) ==
      AddLink(AddLinks(base, links[..i]).0, AddLinks(base, links[..i]).1, links[i])
  {
    assert links[..i + 1][..i] == links[..i];
  }

  lemma HasRowSnoc(rows: seq<Row>, row: Row)
    ensures forall url :: HasRow(rows + [row], url) <==> HasRow(rows, url) || row.url == url
  {
    var all := rows + [row];
    forall url ensures HasRow(all, url) <==> HasRow(rows, url) || row.url == url {
      assert all[|rows|] == row;
      if HasRow(rows, url) {
        var i :| 0 <= i < |rows| && rows[i].url == url;
        assert all[i].url == url;
      }
    }
  }

  /** The first loop: rows, positions and priorities updated in place as in the code. */
  method CollectEvidence(evidence: seq<Evidence>) returns (rows: seq<Row>, seen: set<string>)
    ensures rows == RowsOf(EvidenceSlots(evidence))
    ensures forall url :: url in seen <==> HasRow(rows, url)
  {
    rows, seen := [], {};
    var positions: map<string, nat> := map[];
    var priorities: map<string, nat> := map[];
    ghost var slots: seq<Slot> := [];
    for i := 0 to |evidence|
      invariant slots == EvidenceSlots(evidence[..i]) && rows == RowsOf(slots)
      invariant Tracks(slots, seen, positions, priorities)
    {
      assert evidence[..i + 1][..i] == evidence[..i];
      var e := evidence[i];
      var url := UrlOf(e);
      if IsWeb(url) {
        ghost var slot := Slot(EvidenceRow(e), e.priority);
        AddCases(slots, e, seen, positions, priorities);
        if url in seen {
          if e.priority > priorities[url] {
            TrackUpgrade(slots, slot, seen, positions, priorities);
            RowsOfUpgrade(slots, positions[url], slot);
            slots := slots[positions[url] := slot];
            rows := rows[positions[url] := EvidenceRow(e)];
            priorities := priorities[url := e.priority];
          }
        } else {
          TrackAppend(slots, slot, seen, positions, priorities);
          RowsOfAppend(slots, slot);
          slots := slots + [slot];
          seen := seen + {url};
          positions := positions[url := |rows|];
          priorities := priorities[url := e.priority];
          rows := rows + [EvidenceRow(e)];
        }
      }
    }
    assert evidence[..|evidence|] == evidence;
    TracksSeen(slots, seen, positions, priorities);
  }

  lemma AddCases(slots: seq<Slot>, e: Evidence, seen: set<string>, positions: map<string, nat>,
      priorities: map<string, nat>)
    requires Tracks(slots, seen, positions, priorities) && IsWeb(UrlOf(e))
    ensures var url, slot := UrlOf(e), Slot(EvidenceRow(e), e.priority);
      AddEvidence(slots, e) ==
        if url !in seen then slots + [slot]
        else if e.priority > priorities[url] then slots[positions[url] := slot]
        else slots
  {
  }

  lemma RowsOfUpgrade(slots: seq<Slot>, k: nat, slot: Slot)
    requires k < |slots|
    ensures RowsOf(slots[k := slot]) == RowsOf(slots)[k := slot.row]
  {
  }

  lemma RowsOfAppend(slots: seq<Slot>, slot: Slot)
    ensures RowsOf(slots + [slot]) == RowsOf(slots) + [slot.row]
  {
  }

  ghost predicate Tracks(slots: seq<Slot>, seen: set<string>, positions: map<string, nat>,
      priorities: map<string, nat>)
  {
    && seen == positions.Keys == priorities.Keys
    && (forall url :: url in seen <==> HasSlot(slots, url))
    && (forall url :: url in seen ==>
         positions[url] == PositionOf(slots, url) && priorities[url] == slots[positions[url]].priority)
  }

  lemma TracksSeen(slots: seq<Slot>, seen: set<string>, positions: map<string, nat>, priorities: map<string, nat>)
    requires Tracks(slots, seen, positions, priorities)
    ensures forall url :: url in seen <==> HasRow(RowsOf(slots), url)
  {
    forall url ensures HasSlot(slots, url) <==> HasRow(RowsOf(slots), url) {
      if HasSlot(slots, url) {
        assert RowsOf(slots)[PositionOf(slots, url)].url == url;
      }
      if HasRow(RowsOf(slots), url) {
        var i :| 0 <= i < |slots| && RowsOf(slots)[i].url == url;
        HasSlotAt(slots, i);
      }
    }
  }

  lemma {:induction false} PositionAfterUpdate(slots: seq<Slot>, k: nat, slot: Slot, url: string)
    requires k < |slots| && slot.row.url == slots[k].row.url
    ensures PositionOf(slots[k := slot], url) == PositionOf(slots, url)
  {
    if k > 0 && slots[0].row.url != url {
      assert slots[k := slot][1..] == slots[1..][k - 1 := slot];
      PositionAfterUpdate(slots[1..], k - 1, slot, url);
    } else if k == 0 {
      assert slots[k := slot][1..] == slots[1..];
    }
  }

  lemma {:induction false} PositionAfterAppend(slots: seq<Slot>, slot: Slot, url: string)
    ensures PositionOf(slots + [slot], url) ==
      if HasSlot(slots, url) then PositionOf(slots, url)
      else if slot.row.url == url then |slots| else |slots| + 1
  {
    if slots != [] && slots[0].row.url != url {
      assert (slots + [slot])[1..] == slots[1..] + [slot];
      PositionAfterAppend(slots[1..], slot, url);
    }
  }

  lemma TrackUpgrade(slots: seq<Slot>, slot: Slot, seen: set<string>, positions: map<string, nat>,
      priorities: map<string, nat>)
    requires Tracks(slots, seen, positions, priorities) && slot.row.url in seen
    ensures Tracks(slots[positions[slot.row.url] := slot], seen, positions, priorities[slot.row.url := slot.priority])
  {
    var k := positions[slot.row.url];
    forall url ensures PositionOf(slots[k := slot], url) == PositionOf(slots, url) {
      PositionAfterUpdate(slots, k, slot, url);
    }
  }

  lemma TrackAppend(slots: seq<Slot>, slot: Slot, seen: set<string>, positions: map<string, nat>,
      priorities: map<string, nat>)
    requires Tracks(slots, seen, positions, priorities) && slot.row.url !in seen
    ensures Tracks(slots + [slot], seen + {slot.row.url}, positions[slot.row.url := |slots|],
                   priorities[slot.row.url := slot.priority])
  {
    forall url ensures PositionOf(slots + [slot], url) ==
        if HasSlot(slots, url) then PositionOf(slots, url)
        else if slot.row.url == url then |slots| else |slots| + 1
    {
      PositionAfterAppend(slots, slot, url);
    }
  }

  // ----- What the numbers promise -----

  function Urls(rows: seq<Row>): (r: seq<string>)
    ensures |r| == |rows| && forall i :: 0 <= i < |r| ==> r[i] == rows[i].url
  {
    seq(|rows|, i requires 0 <= i < |rows| => rows[i].url)
  }

  function CatalogUrls(catalog: seq<Citation>): (r: seq<string>)
    ensures |r| == |catalog| && forall i :: 0 <= i < |r| ==> r[i] == catalog[i].row.url
  {
    seq(|catalog|, i requires 0 <= i < |catalog| => catalog[i].row.url)
  }

  lemma OrderedKeepsRows(rows: seq<Row>, sourceOrder: seq<string>)
    requires RowUrlsDistinct(rows)
    ensures |Ordered(rows, sourceOrder)| == |rows|
    ensures forall r :: r in Ordered(rows, sourceOrder) <==> r in rows
    ensures RowUrlsDistinct(Ordered(rows, sourceOrder))
  {
    if sourceOrder != [] {
      SortKeepsTagsApart(rows, PlaceKey(Dedupe(sourceOrder)), (r: Row) => r.url);
    }
  }

  /** Numbers are a bijection between the acquired URLs and 1..n. */
  lemma NumbersAreABijection(evidence: seq<Evidence>, records: seq<ToolCall>, sourceOrder: seq<string>)
    ensures var catalog := Catalog(evidence, records, sourceOrder);
      && (forall i :: 0 <= i < |catalog| ==> catalog[i].number == i + 1)
      && AllDistinct(CatalogUrls(catalog))
      && forall url :: url in CatalogUrls(catalog) <==> IsAcquired(evidence, records, url)
  {
    var rows := Acquired(evidence, records);
    var catalog := Catalog(evidence, records, sourceOrder);
    AcquiredFacts(evidence, records, "");
    OrderedKeepsRows(rows, sourceOrder);
    forall url ensures url in CatalogUrls(catalog) <==> IsAcquired(evidence, records, url) {
      AcquiredFacts(evidence, records, url);
      if url in CatalogUrls(catalog) {
        var i :| 0 <= i < |catalog| && CatalogUrls(catalog)[i] == url;
        assert Ordered(rows, sourceOrder)[i] in rows;
        var j :| 0 <= j < |rows| && rows[j] == Ordered(rows, sourceOrder)[i];
        assert rows[j].url == url;
      }
      if HasRow(rows, url) {
        var j :| 0 <= j < |rows| && rows[j].url == url;
        assert rows[j] in Ordered(rows, sourceOrder);
        var i :| 0 <= i < |catalog| && Ordered(rows, sourceOrder)[i] == rows[j];
        assert CatalogUrls(catalog)[i] == url;
      }
    }
  }

  ghost predicate Lists(catalog: seq<Citation>, row: Row) {
    exists i :: 0 <= i < |catalog| && catalog[i].row == row
  }

  /** An evidence URL shows its first highest-priority excerpt, whatever its number. */
  lemma CatalogShowsFirstBest(evidence: seq<Evidence>, records: seq<ToolCall>, sourceOrder: seq<string>, k: nat)
    requires k < |evidence| && FirstBest(evidence, k)
    ensures Lists(Catalog(evidence, records, sourceOrder), EvidenceRow(evidence[k]))
  {
    var url := UrlOf(evidence[k]);
    var slots := EvidenceSlots(evidence);
    SlotsCoverUrls(evidence, url);
    var p := PositionOf(slots, url);
    SlotsShowFirstBest(evidence, p);
    var m :| FirstBest(evidence, m) && slots[p] == Slot(EvidenceRow(evidence[m]), evidence[m].priority);
    assert m == k;
    AcquiredFacts(evidence, records, url);
    var rows := Acquired(evidence, records);
    assert rows[p] == RowsOf(slots)[p];
    OrderedKeepsRows(rows, sourceOrder);
    assert rows[p] in Ordered(rows, sourceOrder);
    var i :| 0 <= i < |rows| && Ordered(rows, sourceOrder)[i] == rows[p];
    assert Catalog(evidence, records, sourceOrder)[i].row == rows[p];
  }

  function UrlPlace(order: seq<string>): string -> int {
    (u: string) => Place(order, u)
  }

  /** The URLs of the requested order that were acquired, in that order. */
  function Present(order: seq<string>, rows: seq<Row>): (r: seq<string>)
    ensures forall u :: u in r <==> u in order && HasRow(rows, u)
  {
    if order == [] then [] else
      assert order == order[..|order| - 1] + [order[|order| - 1]];
      Present(order[..|order| - 1], rows) + (if HasRow(rows, order[|order| - 1]) then [order[|order| - 1]] else [])
  }

  lemma PresentEarlier(whole: seq<string>, n: nat, rows: seq<Row>, u: string)
    requires AllDistinct(whole) && n <= |whole| && u in Present(whole[..n], rows)
    ensures Place(whole, u) < n
  {
    assert u in whole[..n];
    var j :| 0 <= j < n && whole[..n][j] == u;
    PlaceOfIndex(whole, j);
  }

  lemma {:induction false} PresentAscends(whole: seq<string>, n: nat, rows: seq<Row>)
    requires AllDistinct(whole) && n <= |whole|
    ensures StrictlyAscending(Present(whole[..n], rows), UrlPlace(whole))
    decreases n
  {
    if n > 0 {
      PresentAscends(whole, n - 1, rows);
      assert whole[..n][..n - 1] == whole[..n - 1];
      var front := Present(whole[..n - 1], rows);
      forall i | 0 <= i < |front| ensures Place(whole, front[i]) < n - 1 {
        PresentEarlier(whole, n - 1, rows, front[i]);
      }
      PlaceOfIndex(whole, n - 1);
    }
  }

  lemma {:induction false} PlaceOfIndex(order: seq<string>, i: nat)
    requires AllDistinct(order) && i < |order|
    ensures Place(order, order[i]) == i
  {
    if i > 0 {
      assert order[0] != order[i];
      forall a, b | 0 <= a < b < |order| - 1 ensures order[1..][a] != order[1..][b] {
        assert order[a + 1] != order[b + 1];
      }
      PlaceOfIndex(order[1..], i - 1);
    }
  }

  /** Where the rows with a requested place end. */
  lemma RequestedPrefix(sorted: seq<Row>, order: seq<string>) returns (k: nat)
    requires Ascending(sorted, PlaceKey(order)) && RowUrlsDistinct(sorted)
    ensures k <= |sorted| && forall i :: 0 <= i < |sorted| ==> (sorted[i].url in order <==> i < k)
    ensures StrictlyAscending(Urls(sorted)[..k], UrlPlace(order))
  {
    k := 0;
    while k < |sorted| && sorted[k].url in order
      invariant k <= |sorted| && forall i :: 0 <= i < k ==> sorted[i].url in order
    {
      k := k + 1;
    }
    forall i | k <= i < |sorted| ensures sorted[i].url !in order {
      assert PlaceKey(order)(sorted[k]) <= PlaceKey(order)(sorted[i]);
    }
    var first := Urls(sorted)[..k];
    forall i, j | 0 <= i < j < k ensures UrlPlace(order)(first[i]) < UrlPlace(order)(first[j]) {
      assert PlaceKey(order)(sorted[i]) <= PlaceKey(order)(sorted[j]);
      assert sorted[i].url != sorted[j].url;
    }
  }

  lemma HasRowSameElements(a: seq<Row>, b: seq<Row>, url: string)
    requires forall r :: r in a ==> r in b
    ensures HasRow(a, url) ==> HasRow(b, url)
  {
    if HasRow(a, url) {
      var i :| 0 <= i < |a| && a[i].url == url;
      assert a[i] in b;
      var j :| 0 <= j < |b| && b[j] == a[i];
      assert b[j].url == url;
    }
  }

  lemma InUrls(rows: seq<Row>, url: string)
    ensures url in Urls(rows) <==> HasRow(rows, url)
  {
    if url in Urls(rows) {
      var i :| 0 <= i < |rows| && Urls(rows)[i] == url;
      assert rows[i].url == url;
    }
    if HasRow(rows, url) {
      var i :| 0 <= i < |rows| && rows[i].url == url;
      assert Urls(rows)[i] == url;
    }
  }

  /** The rows in front, up to k, show exactly the requested URLs that were acquired. */
  lemma FrontIsPresent(rows: seq<Row>, order: seq<string>, sorted: seq<Row>, k: nat, u: string)
    requires (forall r :: r in sorted <==> r in rows) && k <= |sorted|
    requires forall i :: 0 <= i < |sorted| ==> (sorted[i].url in order <==> i < k)
    ensures u in Urls(sorted)[..k] <==> u in Present(order, rows)
  {
    HasRowSameElements(rows, sorted, u);
    HasRowSameElements(sorted, rows, u);
    InUrls(sorted, u);
    var first := Urls(sorted)[..k];
    if u in first {
      var i :| 0 <= i < k && first[i] == u;
      assert sorted[i].url in order && Urls(sorted)[i] == u;
    }
    if u in Present(order, rows) {
      var i :| 0 <= i < |sorted| && Urls(sorted)[i] == u;
      assert i < k && first[i] == u;
    }
  }

  /** Where the requested rows end, and which they are. */
  lemma RequestedFirst(rows: seq<Row>, sourceOrder: seq<string>) returns (k: nat)
    requires RowUrlsDistinct(rows) && sourceOrder != []
    ensures var order, sorted := Dedupe(sourceOrder), Ordered(rows, sourceOrder);
      && k <= |sorted| && (forall i :: 0 <= i < |sorted| ==> (sorted[i].url in order <==> i < k))
      && Urls(sorted)[..k] == Present(order, rows)
  {
    var order := Dedupe(sourceOrder);
    var sorted := Ordered(rows, sourceOrder);
    SortAscending(rows, PlaceKey(order));
    OrderedKeepsRows(rows, sourceOrder);
    k := RequestedPrefix(sorted, order);
    var first, present := Urls(sorted)[..k], Present(order, rows);
    assert order[..|order|] == order;
    PresentAscends(order, |order|, rows);
    forall u ensures u in first <==> u in present {
      FrontIsPresent(rows, order, sorted, k, u);
    }
    StrictOrderUnique(first, present, UrlPlace(order));
  }

  /** The requested order comes first: its acquired URLs take the numbers 1..m in the order requested. */
  lemma RequestedOrderFirst(rows: seq<Row>, sourceOrder: seq<string>)
    requires RowUrlsDistinct(rows) && sourceOrder != []
    ensures Present(Dedupe(sourceOrder), rows) <= Urls(Ordered(rows, sourceOrder))
  {
    var k := RequestedFirst(rows, sourceOrder);
  }

  lemma {:induction false} PresentAll(order: seq<string>, rows: seq<Row>)
    requires forall u :: u in order ==> HasRow(rows, u)
    ensures Present(order, rows) == order
  {
    if order != [] {
      PresentAll(order[..|order| - 1], rows);
      assert order == order[..|order| - 1] + [order[|order| - 1]];
    }
  }

  lemma {:induction false} DedupeDistinct(urls: seq<string>)
    requires AllDistinct(urls)
    ensures Dedupe(urls) == urls
  {
    if urls != [] {
      DedupeDistinct(urls[..|urls| - 1]);
      assert urls == urls[..|urls| - 1] + [urls[|urls| - 1]];
    }
  }

  /** When all URLs of a duplicate-free order were acquired, the i-th of them has number i, whatever else was. */
  lemma OrderFixesNumbers(evidence: seq<Evidence>, records: seq<ToolCall>, sourceOrder: seq<string>)
    requires AllDistinct(sourceOrder)
    requires forall u :: u in sourceOrder ==> IsAcquired(evidence, records, u)
    ensures sourceOrder <= CatalogUrls(Catalog(evidence, records, sourceOrder))
  {
    var rows := Acquired(evidence, records);
    AcquiredFacts(evidence, records, "");
    forall u | u in sourceOrder ensures HasRow(rows, u) {
      AcquiredFacts(evidence, records, u);
    }
    if sourceOrder != [] {
      RequestedOrderFirst(rows, sourceOrder);
      DedupeDistinct(sourceOrder);
      PresentAll(sourceOrder, rows);
    }
    NumberedUrls(Ordered(rows, sourceOrder));
  }

  lemma NumberedUrls(rows: seq<Row>)
    ensures CatalogUrls(NumberFrom1(rows)) == Urls(rows)
  {
  }

  /** A draft's saved URL order keeps every citation number of the draft, however much evidence is added, upgraded or
      reordered afterwards, as long as its URLs are still known. */
  lemma SavedOrderKeepsNumbers(evidence: seq<Evidence>, records: seq<ToolCall>, sourceOrder: seq<string>,
      later: seq<Evidence>, laterRecords: seq<ToolCall>, i: nat)
    requires i < |Catalog(evidence, records, sourceOrder)|
    requires forall url :: IsAcquired(evidence, records, url) ==> IsAcquired(later, laterRecords, url)
    ensures var draft := Catalog(evidence, records, sourceOrder);
      var now := Catalog(later, laterRecords, CatalogUrls(draft));
      i < |now| && now[i].number == draft[i].number && now[i].row.url == draft[i].row.url
  {
    var draft := Catalog(evidence, records, sourceOrder);
    NumbersAreABijection(evidence, records, sourceOrder);
    OrderFixesNumbers(later, laterRecords, CatalogUrls(draft));
    var now := Catalog(later, laterRecords, CatalogUrls(draft));
    assert CatalogUrls(now)[i] == CatalogUrls(draft)[i];
  }

  // ----- What a catalog shows, field by field -----

  /** The row of a piece of evidence. */
  ghost predicate ShowsEvidence(row: Row, e: Evidence) {
    && e.uri == Some(row.url) && ("https://" <= row.url || "http://" <= row.url)
    && (if Blank(e.title) then row.title == "未命名网页" else row.title == Strip(e.title))
    && row.excerpt == Strip(e.content) && row.kind == "web" && row.access == e.accessLabel
  }

  /** The row of navigation link i of a call, the position-th navigation row. */
  ghost predicate ShowsLink(row: Row, c: ToolCall, i: nat, position: nat) {
    && (if c.navigationUrls != [] then i < |c.navigationUrls| && row.url == c.navigationUrls[i]
        else i == 0 && c.navigationUrl == Some(row.url))
    && ("https://" <= row.url || "http://" <= row.url)
    && row.title ==
         "高德地图导航（第 " + Decimal(if i < |c.legIndices| then c.legIndices[i] else position) + " 段）"
    && LinkExcerpt(row.excerpt, c.summary, c.success)
    && row.kind == "navigation" && row.access == "地图工具返回的导航链接（按记录保留核验范围）"
  }

  ghost predicate LinkExcerpt(excerpt: string, summary: Option<string>, success: bool) {
    var told := if summary == None || summary == Some("")
      then "打开高德地图核对正式地点、最新路线、距离、耗时与交通状况。" else summary.value;
    excerpt == told + (if success then "" else "本次工具未完整成功，仅该链接对应路段已核验。")
  }

  lemma EvidenceRowShows(e: Evidence)
    requires IsWeb(UrlOf(e))
    ensures ShowsEvidence(EvidenceRow(e), e)
  {
    StripsToNothing(e.title);
  }

  /** The links of the calls before call r. */
  function LinksBefore(records: seq<ToolCall>, r: nat): nat
    requires r <= |records|
  {
    |Links(records[..r])|
  }

  /** Link i of call r stands at its place in the list of all links. */
  lemma {:induction false} LinkStands(records: seq<ToolCall>, r: nat, i: nat)
    requires r < |records| && i < |LinksOf(records[r])|
    ensures LinksBefore(records, r) + i < |Links(records)|
    ensures Links(records)[LinksBefore(records, r) + i] == LinksOf(records[r])[i]
    decreases |records|
  {
    var front, last := records[..|records| - 1], records[|records| - 1];
    assert Links(records) == Links(front) + LinksOf(last);
    if r < |front| {
      LinkStands(front, r, i);
      assert front[..r] == records[..r] && front[r] == records[r];
    }
  }

  /** Every link comes from a call. */
  lemma {:induction false} LinkComesFrom(records: seq<ToolCall>, m: nat) returns (r: nat, i: nat)
    requires m < |Links(records)|
    ensures r < |records| && i < |LinksOf(records[r])|
    ensures m == LinksBefore(records, r) + i && Links(records)[m] == LinksOf(records[r])[i]
    decreases |records|
  {
    var front := records[..|records| - 1];
    if m < |Links(front)| {
      r, i := LinkComesFrom(front, m);
      assert front[..r] == records[..r];
    } else {
      r, i := |front|, m - |Links(front)|;
    }
  }

  /** No earlier link of the calls has this URL. */
  ghost predicate NoLinkBefore(records: seq<ToolCall>, r: nat, i: nat, url: string)
    requires r < |records|
  {
    && (forall s: nat, j: nat :: s < r && j < |NavigationUrls(records[s])| ==> NavigationUrls(records[s])[j] != url)
    && (forall j: nat :: j < i && j < |NavigationUrls(records[r])| ==> NavigationUrls(records[r])[j] != url)
  }

  /** The row shows the first link to its URL. */
  ghost predicate ShowsFirstLink(records: seq<ToolCall>, row: Row, position: nat) {
    exists r: nat, i: nat ::
      r < |records| && NoLinkBefore(records, r, i, row.url) && ShowsLink(row, records[r], i, position)
  }

  /** A link row is made from the first link with its URL. */
  ghost predicate FromFirst(links: seq<Link>, row: Row, position: nat, m: nat) {
    && m < |links| && IsWeb(links[m].url) && row == LinkRow(links[m], position)
    && forall k :: 0 <= k < m ==> links[k].url != row.url
  }

  lemma NoEarlierLink(links: seq<Link>, n: nat, url: string)
    requires n <= |links| && IsWeb(url) && !HasLink(links[..n], url)
    ensures forall j :: 0 <= j < n ==> links[j].url != url
  {
    forall j | 0 <= j < n ensures links[j].url != url {
      assert links[..n][j] == links[j];
    }
  }

  /** The row that the last link added. */
  lemma LastLinkAdded(base: seq<Row>, links: seq<Link>, before: seq<Row>, count: nat)
    requires links != [] && (before, count) == AddLinks(base, links[..|links| - 1])
    requires |AddLinks(base, links).0| > |before|
    ensures var n := |links| - 1;
      && IsWeb(links[n].url) && AddLinks(base, links).0 == before + [LinkRow(links[n], count + 1)]
      && forall j :: 0 <= j < n ==> links[j].url != links[n].url
  {
    var n := |links| - 1;
    assert AddLinks(base, links) == AddLink(before, count, links[n]);
    AddLinksHas(base, links[..n], links[n].url);
    NoEarlierLink(links, n, links[n].url);
  }

  lemma OneLinkMore(base: seq<Row>, links: seq<Link>)
    requires links != []
    ensures var before, after := AddLinks(base, links[..|links| - 1]).0, AddLinks(base, links).0;
      before <= after && |after| <= |before| + 1
  {
  }

  lemma RowFromLast(base: seq<Row>, links: seq<Link>)
    requires links != [] && |AddLinks(base, links).0| > |AddLinks(base, links[..|links| - 1]).0| >= |base|
    ensures var k := |AddLinks(base, links).0| - 1;
      FromFirst(links, AddLinks(base, links).0[k], k - |base| + 1, |links| - 1)
  {
    var (before, count) := AddLinks(base, links[..|links| - 1]);
    LinksCounted(base, links[..|links| - 1]);
    LastLinkAdded(base, links, before, count);
  }

  lemma {:induction false} LinkRowsFromFirst(base: seq<Row>, links: seq<Link>, k: nat) returns (m: nat)
    requires |base| <= k < |AddLinks(base, links).0|
    ensures FromFirst(links, AddLinks(base, links).0[k], k - |base| + 1, m)
    decreases |links|
  {
    if links == [] {
      assert false;
    }
    var front := links[..|links| - 1];
    var before, after := AddLinks(base, front).0, AddLinks(base, links).0;
    OneLinkMore(base, links);
    if k < |before| {
      m := LinkRowsFromFirst(base, front, k);
      assert after[k] == before[k];
      StillFirst(links, after[k], k - |base| + 1, m);
    } else {
      LinksCounted(base, front);
      assert k == |after| - 1;
      RowFromLast(base, links);
      m := |links| - 1;
    }
  }

  lemma StillFirst(links: seq<Link>, row: Row, position: nat, m: nat)
    requires links != [] && FromFirst(links[..|links| - 1], row, position, m)
    ensures FromFirst(links, row, position, m)
  {
    assert forall k :: 0 <= k < |links| - 1 ==> links[..|links| - 1][k] == links[k];
  }

  lemma {:induction false} LinksCounted(base: seq<Row>, links: seq<Link>)
    ensures |AddLinks(base, links).0| == |base| + AddLinks(base, links).1
  {
    if links != [] {
      LinksCounted(base, links[..|links| - 1]);
    }
  }

  lemma FromFirstShows(records: seq<ToolCall>, row: Row, position: nat, m: nat)
    requires FromFirst(Links(records), row, position, m)
    ensures ShowsFirstLink(records, row, position)
  {
    var r, i := LinkComesFrom(records, m);
    forall s: nat, j: nat | s < r && j < |NavigationUrls(records[s])|
      ensures NavigationUrls(records[s])[j] != row.url
    {
      LinkStands(records, s, j);
      EarlierCall(records, s, r);
    }
    forall j: nat | j < i && j < |NavigationUrls(records[r])| ensures NavigationUrls(records[r])[j] != row.url {
      LinkStands(records, r, j);
    }
    assert ShowsLink(row, records[r], i, position);
  }

  lemma {:induction false} EarlierCall(records: seq<ToolCall>, s: nat, r: nat)
    requires s < r <= |records|
    ensures LinksBefore(records, s) + |LinksOf(records[s])| <= LinksBefore(records, r)
    decreases r
  {
    assert records[..r][..r - 1] == records[..r - 1];
    if s < r - 1 {
      EarlierCall(records, s, r - 1);
    }
  }

  // ----- The order of a catalog, exactly -----

  function EvidenceUrls(evidence: seq<Evidence>): (r: seq<string>)
    ensures |r| == |evidence|
  {
    seq(|evidence|, i requires 0 <= i < |evidence| => UrlOf(evidence[i]))
  }

  function LinkUrls(links: seq<Link>): (r: seq<string>)
    ensures |r| == |links|
  {
    seq(|links|, i requires 0 <= i < |links| => links[i].url)
  }

  /** The web URLs in order of first occurrence. */
  function FirstWeb(urls: seq<string>): seq<string> {
    Dedupe(Filter(urls, IsWeb))
  }

  lemma FirstWebSnoc(urls: seq<string>, url: string)
    ensures FirstWeb(urls + [url]) ==
      if IsWeb(url) && url !in FirstWeb(urls) then FirstWeb(urls) + [url] else FirstWeb(urls)
  {
    FilterAppend(urls, [url], IsWeb);
    var web := Filter(urls, IsWeb);
    assert [url][1..] == [];
    if IsWeb(url) {
      assert Filter(urls + [url], IsWeb) == web + [url];
      assert (web + [url])[..|web|] == web;
    } else {
      assert Filter(urls + [url], IsWeb) == web;
    }
  }

  lemma EvidenceUrlsSnoc(evidence: seq<Evidence>)
    requires evidence != []
    ensures var n := |evidence| - 1; EvidenceUrls(evidence) == EvidenceUrls(evidence[..n]) + [UrlOf(evidence[n])]
  {
  }

  lemma {:induction false} EvidenceOrder(evidence: seq<Evidence>)
    ensures Urls(RowsOf(EvidenceSlots(evidence))) == FirstWeb(EvidenceUrls(evidence))
  {
    if evidence == [] {
      assert Filter(EvidenceUrls([]), IsWeb) == [];
    } else {
      var n := |evidence| - 1;
      EvidenceOrder(evidence[..n]);
      EvidenceOrderStep(EvidenceSlots(evidence[..n]), EvidenceUrls(evidence[..n]), evidence[n]);
      EvidenceUrlsSnoc(evidence);
    }
  }

  lemma UrlsUpgraded(slots: seq<Slot>, k: nat, slot: Slot)
    requires k < |slots| && slot.row.url == slots[k].row.url
    ensures Urls(RowsOf(slots[k := slot])) == Urls(RowsOf(slots))
  {
  }

  lemma UrlsAppended(slots: seq<Slot>, slot: Slot)
    ensures Urls(RowsOf(slots + [slot])) == Urls(RowsOf(slots)) + [slot.row.url]
  {
  }

  lemma SlotInUrls(slots: seq<Slot>, url: string)
    ensures url in Urls(RowsOf(slots)) <==> PositionOf(slots, url) < |slots|
  {
    var p := PositionOf(slots, url);
    if p < |slots| {
      assert Urls(RowsOf(slots))[p] == url;
    }
  }

  lemma AddEvidenceUrls(slots: seq<Slot>, e: Evidence)
    ensures var urls, url := Urls(RowsOf(slots)), UrlOf(e);
      Urls(RowsOf(AddEvidence(slots, e))) == if IsWeb(url) && url !in urls then urls + [url] else urls
  {
    var slot := Slot(EvidenceRow(e), e.priority);
    SlotInUrls(slots, UrlOf(e));
    var p := PositionOf(slots, UrlOf(e));
    if p < |slots| {
      UrlsUpgraded(slots, p, slot);
    }
    UrlsAppended(slots, slot);
  }

  lemma EvidenceOrderStep(slots: seq<Slot>, urls: seq<string>, e: Evidence)
    requires Urls(RowsOf(slots)) == FirstWeb(urls)
    ensures Urls(RowsOf(AddEvidence(slots, e))) == FirstWeb(urls + [UrlOf(e)])
  {
    AddEvidenceUrls(slots, e);
    FirstWebSnoc(urls, UrlOf(e));
  }

  lemma {:induction false} LinkOrder(base: seq<Row>, urls: seq<string>, links: seq<Link>)
    requires Urls(base) == FirstWeb(urls)
    ensures Urls(AddLinks(base, links).0) == FirstWeb(urls + LinkUrls(links))
    decreases |links|
  {
    if links == [] {
      assert urls + LinkUrls(links) == urls;
    } else {
      var n := |links| - 1;
      var (before, count) := AddLinks(base, links[..n]);
      LinkOrder(base, urls, links[..n]);
      LinkOrderStep(before, count, urls + LinkUrls(links[..n]), links[n]);
      LinkUrlsSnoc(urls, links);
    }
  }

  lemma LinkUrlsSnoc(urls: seq<string>, links: seq<Link>)
    requires links != []
    ensures urls + LinkUrls(links) == urls + LinkUrls(links[..|links| - 1]) + [links[|links| - 1].url]
  {
  }

  lemma AddLinkUrls(rows: seq<Row>, count: nat, l: Link)
    ensures Urls(AddLink(rows, count, l).0) ==
      if IsWeb(l.url) && l.url !in Urls(rows) then Urls(rows) + [l.url] else Urls(rows)
  {
    InUrls(rows, l.url);
    assert Urls(rows + [LinkRow(l, count + 1)]) == Urls(rows) + [l.url];
  }

  lemma LinkOrderStep(rows: seq<Row>, count: nat, urls: seq<string>, l: Link)
    requires Urls(rows) == FirstWeb(urls)
    ensures Urls(AddLink(rows, count, l).0) == FirstWeb(urls + [l.url])
  {
    AddLinkUrls(rows, count, l);
    FirstWebSnoc(urls, l.url);
  }

  /** The links of the calls: each call's list, or its single URL when the list is empty. */
  function CallUrls(records: seq<ToolCall>): seq<string> {
    if records == [] then [] else
      var c := records[|records| - 1];
      var single := match c.navigationUrl { case None => "" case Some(url) => url };
      CallUrls(records[..|records| - 1]) +
        (if |c.navigationUrls| > 0 then c.navigationUrls else if single == "" then [] else [single])
  }

  lemma {:induction false} CallUrlsOfLinks(records: seq<ToolCall>)
    ensures LinkUrls(Links(records)) == CallUrls(records)
  {
    if records != [] {
      var n := |records| - 1;
      CallUrlsOfLinks(records[..n]);
      assert LinkUrls(Links(records)) == LinkUrls(Links(records[..n])) + LinkUrls(LinksOf(records[n]));
      assert LinkUrls(LinksOf(records[n])) == NavigationUrls(records[n]);
    }
  }

  /** The web URLs in the order in which they were first acquired: evidence, then navigation links. */
  function Sources(evidence: seq<Evidence>, records: seq<ToolCall>): seq<string> {
    FirstWeb(EvidenceUrls(evidence) + CallUrls(records))
  }

  lemma AcquiredInOrder(evidence: seq<Evidence>, records: seq<ToolCall>)
    ensures Urls(Acquired(evidence, records)) == Sources(evidence, records)
  {
    EvidenceOrder(evidence);
    LinkOrder(RowsOf(EvidenceSlots(evidence)), EvidenceUrls(evidence), Links(records));
    CallUrlsOfLinks(records);
  }

  function In(urls: seq<string>): string -> bool {
    (u: string) => u in urls
  }

  function NotIn(order: seq<string>): string -> bool {
    (u: string) => u !in order
  }

  lemma {:induction false} UnplacedUrls(rows: seq<Row>, order: seq<string>)
    ensures Urls(WithKey(rows, PlaceKey(order), |order|)) == Filter(Urls(rows), NotIn(order))
  {
    if rows != [] {
      var n := |rows| - 1;
      UnplacedUrls(rows[..n], order);
      assert Urls(rows) == Urls(rows[..n]) + [rows[n].url];
      FilterAppend(Urls(rows[..n]), [rows[n].url], NotIn(order));
      assert Filter([rows[n].url], NotIn(order)) == if rows[n].url !in order then [rows[n].url] else [];
    }
  }

  lemma TailSnoc<T>(s: seq<T>, k: nat)
    requires k < |s|
    ensures s == s[..|s| - 1] + [s[|s| - 1]] && s[k..] == s[..|s| - 1][k..] + [s[|s| - 1]]
  {
  }

  lemma {:induction false} KeyedTail(sorted: seq<Row>, key: Row -> int, k: nat, v: int)
    requires k <= |sorted| && forall i :: 0 <= i < |sorted| ==> (key(sorted[i]) == v <==> k <= i)
    ensures WithKey(sorted, key, v) == sorted[k..]
    decreases |sorted|
  {
    if sorted != [] {
      var n := |sorted| - 1;
      TailSnoc(sorted, Min(k, n));
      WithKeySnoc(sorted[..n], sorted[n], key, v);
      KeyedTail(sorted[..n], key, Min(k, n), v);
    }
  }

  /** The requested URLs that were acquired come first, in the order requested, and the others follow in the order of
      their acquisition. */
  lemma OrderedExactly(rows: seq<Row>, sourceOrder: seq<string>)
    requires RowUrlsDistinct(rows)
    ensures Urls(Ordered(rows, sourceOrder)) ==
      Present(Dedupe(sourceOrder), rows) + Filter(Urls(rows), NotIn(Dedupe(sourceOrder)))
  {
    if sourceOrder == [] {
      AllKept(Urls(rows), NotIn([]));
    } else {
      var k := RequestedFirst(rows, sourceOrder);
      OthersFollow(rows, Dedupe(sourceOrder), Ordered(rows, sourceOrder), k);
    }
  }

  lemma OthersFollow(rows: seq<Row>, order: seq<string>, sorted: seq<Row>, k: nat)
    requires sorted == SortBy(rows, PlaceKey(order)) && k <= |sorted|
    requires forall i :: 0 <= i < |sorted| ==> (sorted[i].url in order <==> i < k)
    ensures Urls(sorted) == Urls(sorted)[..k] + Filter(Urls(rows), NotIn(order))
  {
    SortStable(rows, PlaceKey(order), |order|);
    UnplacedUrls(rows, order);
    UnplacedTail(sorted, order, k);
    UrlsSplit(sorted, k);
  }

  lemma UnplacedTail(sorted: seq<Row>, order: seq<string>, k: nat)
    requires k <= |sorted| && forall i :: 0 <= i < |sorted| ==> (sorted[i].url in order <==> i < k)
    ensures WithKey(sorted, PlaceKey(order), |order|) == sorted[k..]
  {
    KeyedTail(sorted, PlaceKey(order), k, |order|);
  }

  lemma UrlsSplit(rows: seq<Row>, k: nat)
    requires k <= |rows|
    ensures Urls(rows) == Urls(rows)[..k] + Urls(rows[k..])
  {
  }

  lemma {:induction false} AllKept(urls: seq<string>, keep: string -> bool)
    requires forall u :: u in urls ==> keep(u)
    ensures Filter(urls, keep) == urls
  {
    if urls != [] {
      AllKept(urls[1..], keep);
    }
  }

  /** A catalog in its own terms: its URLs in order, and what each entry shows. */
  ghost predicate CatalogFor(catalog: seq<Citation>, evidence: seq<Evidence>, records: seq<ToolCall>,
      sourceOrder: seq<string>)
  {
    && CatalogUrls(catalog) == Requested(Sources(evidence, records), Dedupe(sourceOrder))
    && forall i :: 0 <= i < |catalog| ==> Entry(catalog[i], i, evidence, records)
  }

  /** The sources with the requested ones put in front, in the order requested. */
  function Requested(sources: seq<string>, order: seq<string>): seq<string> {
    Filter(order, In(sources)) + Filter(sources, NotIn(order))
  }

  /** Entry i has number i + 1 and shows its URL's first best evidence, or else its first link. */
  ghost predicate Entry(c: Citation, i: int, evidence: seq<Evidence>, records: seq<ToolCall>) {
    && c.number == i + 1
    && (HasEvidence(evidence, c.row.url) ==> EntryOfEvidence(c.row, evidence))
    && (!HasEvidence(evidence, c.row.url) ==> EntryOfLink(c.row, evidence, records))
  }

  ghost predicate EntryOfEvidence(row: Row, evidence: seq<Evidence>) {
    exists k :: FirstBest(evidence, k) && ShowsEvidence(row, evidence[k])
  }

  /** A link without a leg of its own is counted among the navigation links in the order of their acquisition. */
  ghost predicate EntryOfLink(row: Row, evidence: seq<Evidence>, records: seq<ToolCall>) {
    var position := Place(Sources(evidence, records), row.url) - |FirstWeb(EvidenceUrls(evidence))| + 1;
    position > 0 && ShowsFirstLink(records, row, position)
  }

  lemma AcquiredEntry(evidence: seq<Evidence>, records: seq<ToolCall>, p: nat)
    requires p < |Acquired(evidence, records)|
    ensures Entry(Citation(p + 1, Acquired(evidence, records)[p]), p, evidence, records)
  {
    var slots, rows := EvidenceSlots(evidence), Acquired(evidence, records);
    var url := rows[p].url;
    AcquiredFacts(evidence, records, url);
    SlotsCoverUrls(evidence, url);
    assert RowsOf(slots) == rows[..|slots|];
    if p < |slots| {
      HasSlotAt(slots, p);
      SlotsShowFirstBest(evidence, p);
      var k :| FirstBest(evidence, k) && slots[p] == Slot(EvidenceRow(evidence[k]), evidence[k].priority);
      EvidenceRowShows(evidence[k]);
    } else {
      forall q | 0 <= q < |slots| ensures slots[q].row.url != url {
        assert rows[q].url != rows[p].url;
      }
      LinkEntry(evidence, records, p);
    }
  }

  lemma LinkPosition(evidence: seq<Evidence>, records: seq<ToolCall>, p: nat)
    requires p < |Acquired(evidence, records)|
    ensures Place(Sources(evidence, records), Acquired(evidence, records)[p].url) == p
    ensures |FirstWeb(EvidenceUrls(evidence))| == |EvidenceSlots(evidence)|
  {
    var rows := Acquired(evidence, records);
    AcquiredFacts(evidence, records, "");
    EvidenceOrder(evidence);
    AcquiredInOrder(evidence, records);
    assert AllDistinct(Urls(rows));
    PlaceOfIndex(Urls(rows), p);
  }

  lemma LinkIsFirst(base: seq<Row>, records: seq<ToolCall>, p: nat)
    requires |base| <= p < |AddLinks(base, Links(records)).0|
    ensures ShowsFirstLink(records, AddLinks(base, Links(records)).0[p], p - |base| + 1)
  {
    var m := LinkRowsFromFirst(base, Links(records), p);
    FromFirstShows(records, AddLinks(base, Links(records)).0[p], p - |base| + 1, m);
  }

  lemma EntryAt(row: Row, evidence: seq<Evidence>, records: seq<ToolCall>, position: nat)
    requires position > 0 && ShowsFirstLink(records, row, position)
    requires Place(Sources(evidence, records), row.url) - |FirstWeb(EvidenceUrls(evidence))| + 1 == position
    ensures EntryOfLink(row, evidence, records)
  {
  }

  lemma LinkShown(evidence: seq<Evidence>, records: seq<ToolCall>, p: nat)
    requires |EvidenceSlots(evidence)| <= p < |Acquired(evidence, records)|
    ensures ShowsFirstLink(records, Acquired(evidence, records)[p], p - |EvidenceSlots(evidence)| + 1)
  {
    LinkIsFirst(RowsOf(EvidenceSlots(evidence)), records, p);
  }

  lemma LinkEntry(evidence: seq<Evidence>, records: seq<ToolCall>, p: nat)
    requires |EvidenceSlots(evidence)| <= p < |Acquired(evidence, records)|
    ensures EntryOfLink(Acquired(evidence, records)[p], evidence, records)
  {
    LinkPosition(evidence, records, p);
    LinkShown(evidence, records, p);
    EntryAt(Acquired(evidence, records)[p], evidence, records, p - |EvidenceSlots(evidence)| + 1);
  }

  lemma {:induction false} PresentIsFilter(order: seq<string>, rows: seq<Row>)
    ensures Present(order, rows) == Filter(order, In(Urls(rows)))
  {
    if order != [] {
      var n := |order| - 1;
      PresentIsFilter(order[..n], rows);
      assert order == order[..n] + [order[n]];
      FilterAppend(order[..n], [order[n]], In(Urls(rows)));
      InUrls(rows, order[n]);
      assert Filter([order[n]], In(Urls(rows))) == if HasRow(rows, order[n]) then [order[n]] else [];
    }
  }

  /** The catalog lists exactly the acquired URLs, in exactly this order, with exactly these entries. */
  lemma CatalogIsExact(evidence: seq<Evidence>, records: seq<ToolCall>, sourceOrder: seq<string>)
    ensures CatalogFor(Catalog(evidence, records, sourceOrder), evidence, records, sourceOrder)
  {
    var rows, catalog := Acquired(evidence, records), Catalog(evidence, records, sourceOrder);
    AcquiredFacts(evidence, records, "");
    OrderedKeepsRows(rows, sourceOrder);
    AcquiredInOrder(evidence, records);
    OrderedExactly(rows, sourceOrder);
    PresentIsFilter(Dedupe(sourceOrder), rows);
    NumberedUrls(Ordered(rows, sourceOrder));
    forall i | 0 <= i < |catalog| ensures Entry(catalog[i], i, evidence, records) {
      assert catalog[i].row in rows;
      var p :| 0 <= p < |rows| && rows[p] == catalog[i].row;
      AcquiredEntry(evidence, records, p);
    }
  }
}
