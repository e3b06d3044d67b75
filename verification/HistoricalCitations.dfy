/** Carrying a historical report's citations over to a new catalog
    (backend/src/atlasflow/agents/report_delivery.py `_historical_body`). */
module HistoricalCitations {
  import opened Common
  import opened Splice
  import C = CitationCatalog
  import S = CodeMask

  /** A match of the historical number pattern: `[number]` at a place of the masked view. */
  datatype Reference = Reference(start: nat, finish: nat, number: nat)

  /** A match of the link pattern `[label](url)`: the label stands between start + 1 and labelEnd. */
  datatype WebLink = WebLink(start: nat, labelEnd: nat, finish: nat, url: Option<string>)

  /** Matches in order, disjoint, inside a text of length n, each with its label inside it. */
  ghost predicate LinksInOrder(found: seq<WebLink>, n: nat) {
    && (forall i :: 0 <= i < |found| ==> found[i].start < found[i].labelEnd <= found[i].finish <= n)
    && (forall i, j :: 0 <= i < j < |found| ==> found[i].finish <= found[j].start)
  }

  /** Catalog numbers start at 1, so asking for a number and asking for a key is the same. */
  type Numbers = map<string, nat>

  /** The masked view and what the patterns find in it. */
  datatype Finders = Finders(
    prose: string -> string, bibliography: string -> Option<nat>, references: string -> seq<Reference>,
    links: string -> seq<WebLink>, urls: string -> seq<S.Span>)

  /** The view keeps every offset; matches are sorted, disjoint and inside the view. */
  ghost predicate Sound(f: Finders) {
    && (forall s :: |f.prose(s)| == |s|)
    && (forall v :: f.bibliography(v).Some? ==> f.bibliography(v).value <= |v|)
    && (forall v, sources, numbers :: InOrder(ReferenceEdits(f.references(v), sources, numbers), |v|))
    && (forall v :: LinksInOrder(f.links(v), |v|))
    && (forall v :: S.SpansInOrder(f.urls(v), |v|))
  }

  /** `{item.url: item.number for item in catalog}`. */
  function NumbersOf(catalog: seq<C.Citation>): Numbers {
    if catalog == [] then map[] else
      var last := catalog[|catalog| - 1];
      NumbersOf(catalog[..|catalog| - 1])[last.row.url := last.number]
  }

  function Bracketed(number: nat): string {
    "[" + Digits(number) + "]"
  }

  function Mark(url: string, numbers: Numbers): string {
    if url in numbers then Bracketed(numbers[url]) else ""
  }

  /** The URL a historical number named; no URL for 0 or a number past the list. */
  function SourceOf(number: nat, sources: seq<string>): string {
    if 1 <= number <= |sources| then sources[number - 1] else ""
  }

  function ReferenceEdits(found: seq<Reference>, sources: seq<string>, numbers: Numbers): (r: seq<Edit>)
    ensures |r| == |found|
    ensures forall i :: 0 <= i < |r| ==>
      r[i] == Edit(found[i].start, found[i].finish, Mark(SourceOf(found[i].number, sources), numbers))
  {
    seq(|found|, i requires 0 <= i < |found| =>
      Edit(found[i].start, found[i].finish, Mark(SourceOf(found[i].number, sources), numbers)))
  }

  function LinkEdit(view: string, link: WebLink, numbers: Numbers): (e: Edit)
    requires link.start < link.labelEnd <= |view|
    ensures e.start == link.start && e.finish == link.finish
  {
    Edit(link.start, link.finish,
      view[link.start + 1..link.labelEnd] + (if link.url.Some? then Mark(link.url.value, numbers) else ""))
  }

  /** A link keeps its label, as the view shows it; a URL in it becomes a number when it is a known source. */
  function LinkEdits(view: string, found: seq<WebLink>, numbers: Numbers): (r: seq<Edit>)
    requires LinksInOrder(found, |view|)
    ensures |r| == |found| && InOrder(r, |view|)
    ensures forall i :: 0 <= i < |r| ==> r[i] == LinkEdit(view, found[i], numbers)
  {
    seq(|found|, i requires 0 <= i < |found| => LinkEdit(view, found[i], numbers))
  }

  // ----- Trailing punctuation of a raw URL -----

  const PUNCTUATION: string := ".,;:!?。，；：！？"

  /** How much of the first n characters the trimming loop leaves. */
  function KnownLength(text: string, n: nat, known: Numbers): (k: nat)
    requires n <= |text|
    ensures k <= n
  {
    if text[..n] in known || n == 0 || text[n - 1] !in PUNCTUATION then n else KnownLength(text, n - 1, known)
  }

  /** The trimming loop: it splits the match into URL and punctuation, stopping at the longest known source. */
  method SplitUrl(text: string, known: Numbers) returns (url: string, punctuation: string)
    ensures url == text[..KnownLength(text, |text|, known)] && punctuation == text[KnownLength(text, |text|, known)..]
  {
    url, punctuation := text, "";
    assert text[..|text|] == text;
    while url !in known && url != "" && url[|url| - 1] in PUNCTUATION
      invariant |url| <= |text| && url == text[..|url|] && punctuation == text[|url|..]
      invariant KnownLength(text, |url|, known) == KnownLength(text, |text|, known)
      decreases |url|
    {
      url, punctuation := url[..|url| - 1], [url[|url| - 1]] + punctuation;
    }
  }

  /** What the loop decides: only punctuation is cut; no longer prefix that leaves punctuation only is a known source;
      and an unknown URL that is left does not end in punctuation. */
  lemma {:induction false} TrimsToLongestKnown(text: string, n: nat, known: Numbers)
    requires n <= |text|
    ensures var k := KnownLength(text, n, known);
      && (forall p :: k <= p < n ==> text[p] in PUNCTUATION)
      && (forall p :: k < p <= n ==> text[..p] !in known)
      && (text[..k] in known || k == 0 || text[k - 1] !in PUNCTUATION)
  {
    if !(text[..n] in known || n == 0 || text[n - 1] !in PUNCTUATION) {
      TrimsToLongestKnown(text, n - 1, known);
    }
  }

  /** A known source followed by punctuation is recognised, unless a longer known source is written there. */
  lemma {:induction false} KnownSourceFound(text: string, n: nat, m: nat, known: Numbers)
    requires m <= n <= |text| && text[..m] in known
    requires forall p :: m <= p < n ==> text[p] in PUNCTUATION
    requires forall p :: m < p <= n ==> text[..p] !in known
    ensures KnownLength(text, n, known) == m
  {
    if m < n {
      KnownSourceFound(text, n - 1, m, known);
    }
  }

  function UrlText(text: string, known: Numbers): string {
    var k := KnownLength(text, |text|, known);
    Mark(text[..k], known) + text[k..]
  }

  function UrlEdit(view: string, found: seq<S.Span>, numbers: Numbers, i: nat): (e: Edit)
    requires S.SpansInOrder(found, |view|) && i < |found|
    ensures e.start == found[i].start && e.finish == found[i].finish
  {
    Edit(found[i].start, found[i].finish, UrlText(view[found[i].start..found[i].finish], numbers))
  }

  function UrlEdits(view: string, found: seq<S.Span>, numbers: Numbers): (r: seq<Edit>)
    requires S.SpansInOrder(found, |view|)
    ensures |r| == |found| && InOrder(r, |view|)
    ensures forall i :: 0 <= i < |r| ==> r[i] == UrlEdit(view, found, numbers, i)
  {
    seq(|found|, i requires 0 <= i < |found| => UrlEdit(view, found, numbers, i))
  }

  // ----- The three passes -----

  /** The text before the bibliography, with its view. */
  function Cut(report: string, f: Finders): (r: (string, string))
    requires Sound(f)
    ensures |r.1| == |r.0|
  {
    var view := f.prose(report);
    match f.bibliography(view)
    case None => (report, view)
    case Some(n) => (report[..n], view[..n])
  }

  function Renumbered(report: string, sources: seq<string>, numbers: Numbers, f: Finders): string
    requires Sound(f)
  {
    var (body, view) := Cut(report, f);
    Substituted(body, ReferenceEdits(f.references(view), sources, numbers), 0)
  }

  function Unlinked(body: string, numbers: Numbers, f: Finders): string
    requires Sound(f)
  {
    Substituted(body, LinkEdits(f.prose(body), f.links(f.prose(body)), numbers), 0)
  }

  function WithoutUrls(body: string, numbers: Numbers, f: Finders): string
    requires Sound(f)
  {
    Substituted(body, UrlEdits(f.prose(body), f.urls(f.prose(body)), numbers), 0)
  }

  // ----- The passes in their own terms -----

  /** What stands for a URL: its number in brackets when it is a known source, nothing otherwise. */
  ghost predicate Names(text: string, url: string, numbers: Numbers) {
    if url in numbers then text == "[" + Digits(numbers[url]) + "]" else text == ""
  }

  /** The edit puts the new number of the URL that the historical number stood for. */
  ghost predicate Translates(e: Edit, r: Reference, sources: seq<string>, numbers: Numbers) {
    && e.start == r.start && e.finish == r.finish
    && (0 < r.number <= |sources| ==> Names(e.text, sources[r.number - 1], numbers))
    && (r.number == 0 || |sources| < r.number ==> Names(e.text, "", numbers))
  }

  /** The edit leaves the label, as the view shows it, and names the link's URL. */
  ghost predicate Unwraps(e: Edit, view: string, l: WebLink, numbers: Numbers)
    requires l.start < l.labelEnd <= |view|
  {
    && e.start == l.start && e.finish == l.finish
    && exists mark :: NamesAny(mark, l.url, numbers) && e.text == view[l.start + 1..l.labelEnd] + mark
  }

  ghost predicate NamesAny(text: string, url: Option<string>, numbers: Numbers) {
    match url
    case None => text == ""
    case Some(u) => Names(text, u, numbers)
  }

  /** The first k characters are the URL: the longest known source that leaves only punctuation, or what is left without
      its punctuation. */
  ghost predicate IsUrlPart(text: string, k: nat, known: Numbers) {
    && k <= |text| && (forall p :: k <= p < |text| ==> text[p] in PUNCTUATION)
    && (forall p :: k < p <= |text| ==> text[..p] !in known)
    && (text[..k] in known || k == 0 || text[k - 1] !in PUNCTUATION)
  }

  /** The edit names the URL and keeps the punctuation behind it. */
  ghost predicate Trims(e: Edit, view: string, span: S.Span, numbers: Numbers)
    requires span.start <= span.finish <= |view|
  {
    var text := view[span.start..span.finish];
    && e.start == span.start && e.finish == span.finish
    && exists k: nat, mark ::
      IsUrlPart(text, k, numbers) && Names(mark, text[..k], numbers) && e.text == mark + text[k..]
  }

  /** The first pass: the text before the bibliography with its numbers translated. */
  ghost predicate RenumberedAs(report: string, sources: seq<string>, numbers: Numbers, f: Finders, after: string)
    requires Sound(f)
  {
    var view := f.prose(report);
    var n := match f.bibliography(view) { case None => |report| case Some(place) => place };
    exists edits :: TranslatedBy(edits, report[..n], f.references(view[..n]), sources, numbers, after)
  }

  ghost predicate TranslatedBy(edits: seq<Edit>, body: string, found: seq<Reference>, sources: seq<string>,
      numbers: Numbers, after: string)
  {
    && InOrder(edits, |body|) && after == Substituted(body, edits, 0)
    && |edits| == |found| && forall i :: 0 <= i < |found| ==> Translates(edits[i], found[i], sources, numbers)
  }

  /** The second pass: every link of the text's own view is unwrapped. */
  ghost predicate UnlinkedAs(body: string, numbers: Numbers, f: Finders, after: string)
    requires Sound(f)
  {
    exists edits :: UnwrappedBy(edits, body, f.prose(body), f.links(f.prose(body)), numbers, after)
  }

  ghost predicate UnwrappedBy(edits: seq<Edit>, body: string, view: string, found: seq<WebLink>, numbers: Numbers,
      after: string)
    requires LinksInOrder(found, |view|)
  {
    && InOrder(edits, |body|) && after == Substituted(body, edits, 0)
    && |edits| == |found| && forall i :: 0 <= i < |found| ==> Unwraps(edits[i], view, found[i], numbers)
  }

  /** The third pass: every URL of the text's own view is named. */
  ghost predicate NumberedAs(body: string, numbers: Numbers, f: Finders, after: string)
    requires Sound(f)
  {
    exists edits :: TrimmedBy(edits, body, f.prose(body), f.urls(f.prose(body)), numbers, after)
  }

  ghost predicate TrimmedBy(edits: seq<Edit>, body: string, view: string, found: seq<S.Span>, numbers: Numbers,
      after: string)
    requires S.SpansInOrder(found, |view|)
  {
    && InOrder(edits, |body|) && after == Substituted(body, edits, 0)
    && |edits| == |found| && forall i :: 0 <= i < |found| ==> Trims(edits[i], view, found[i], numbers)
  }

  /** What carrying the citations over means: the three passes, and no blank at the end. */
  ghost predicate CarriedOver(report: string, sources: seq<string>, numbers: Numbers, f: Finders, body: string)
    requires Sound(f)
  {
    exists first, second, third ::
      && RenumberedAs(report, sources, numbers, f, first) && UnlinkedAs(first, numbers, f, second)
      && NumberedAs(second, numbers, f, third) && body == StripRight(third)
  }

  lemma RenumbersAs(report: string, sources: seq<string>, numbers: Numbers, f: Finders)
    requires Sound(f)
    ensures RenumberedAs(report, sources, numbers, f, Renumbered(report, sources, numbers, f))
  {
    var view := f.prose(report);
    var n := match f.bibliography(view) { case None => |report| case Some(place) => place };
    assert view[..|view|] == view && report[..|report|] == report;
    var found := f.references(view[..n]);
    var edits := ReferenceEdits(found, sources, numbers);
    assert Cut(report, f) == (report[..n], view[..n]);
    assert TranslatedBy(edits, report[..n], found, sources, numbers, Renumbered(report, sources, numbers, f));
  }

  lemma UnlinksAs(body: string, numbers: Numbers, f: Finders)
    requires Sound(f)
    ensures UnlinkedAs(body, numbers, f, Unlinked(body, numbers, f))
  {
    var view, found := f.prose(body), f.links(f.prose(body));
    var edits := LinkEdits(view, found, numbers);
    forall i | 0 <= i < |found| ensures Unwraps(edits[i], view, found[i], numbers) {
      var mark := if found[i].url.Some? then Mark(found[i].url.value, numbers) else "";
      assert NamesAny(mark, found[i].url, numbers);
      assert edits[i].text == view[found[i].start + 1..found[i].labelEnd] + mark;
    }
    assert UnwrappedBy(edits, body, view, found, numbers, Unlinked(body, numbers, f));
  }

  lemma UrlPartIs(text: string, known: Numbers)
    ensures IsUrlPart(text, KnownLength(text, |text|, known), known)
  {
    TrimsToLongestKnown(text, |text|, known);
  }

  lemma UrlPartUnique(text: string, j: nat, k: nat, known: Numbers)
    requires IsUrlPart(text, j, known) && IsUrlPart(text, k, known)
    ensures j == k
  {
  }

  lemma NumbersAs(body: string, numbers: Numbers, f: Finders)
    requires Sound(f)
    ensures NumberedAs(body, numbers, f, WithoutUrls(body, numbers, f))
  {
    var view, found := f.prose(body), f.urls(f.prose(body));
    var edits := UrlEdits(view, found, numbers);
    forall i | 0 <= i < |found| ensures Trims(edits[i], view, found[i], numbers) {
      var text := view[found[i].start..found[i].finish];
      var k := KnownLength(text, |text|, numbers);
      UrlPartIs(text, numbers);
      assert edits[i] == UrlEdit(view, found, numbers, i);
      assert Names(Mark(text[..k], numbers), text[..k], numbers);
    }
    assert TrimmedBy(edits, body, view, found, numbers, WithoutUrls(body, numbers, f));
  }

  lemma CarriesOver(report: string, sources: seq<string>, numbers: Numbers, f: Finders)
    requires Sound(f)
    ensures CarriedOver(report, sources, numbers, f,
      StripRight(WithoutUrls(Unlinked(Renumbered(report, sources, numbers, f), numbers, f), numbers, f)))
  {
    var first := Renumbered(report, sources, numbers, f);
    RenumbersAs(report, sources, numbers, f);
    UnlinksAs(first, numbers, f);
    NumbersAs(Unlinked(first, numbers, f), numbers, f);
  }

  /** Three passes, each matched in the view of the text the pass before it left, each rewritten from last to first. */
  method HistoricalBody(report: string, sources: seq<string>, numbers: Numbers, f: Finders) returns (body: string)
    requires Sound(f)
    ensures body == StripRight(WithoutUrls(Unlinked(Renumbered(report, sources, numbers, f), numbers, f), numbers, f))
    ensures CarriedOver(report, sources, numbers, f, body)
  {
    CarriesOver(report, sources, numbers, f);
    body := Renumber(report, sources, numbers, f);
    body := RewriteFromLast(body, LinkEdits(f.prose(body), f.links(f.prose(body)), numbers));
    body := NumberUrls(body, numbers, f);
    body := StripRight(body);
  }

  /** The text before the bibliography, with its historical numbers translated. */
  method Renumber(report: string, sources: seq<string>, numbers: Numbers, f: Finders) returns (body: string)
    requires Sound(f)
    ensures body == Renumbered(report, sources, numbers, f)
  {
    var view := f.prose(report);
    body := report;
    var boundary := f.bibliography(view);
    if boundary.Some? {
      body, view := body[..boundary.value], view[..boundary.value];
    }
    body := RewriteFromLast(body, ReferenceEdits(f.references(view), sources, numbers));
  }

  method NumberUrls(text: string, numbers: Numbers, f: Finders) returns (body: string)
    requires Sound(f)
    ensures body == WithoutUrls(text, numbers, f)
  {
    var edits := TrimUrls(f.prose(text), f.urls(f.prose(text)), numbers);
    body := RewriteFromLast(text, edits);
  }

  method TrimUrls(view: string, found: seq<S.Span>, numbers: Numbers) returns (edits: seq<Edit>)
    requires S.SpansInOrder(found, |view|)
    ensures edits == UrlEdits(view, found, numbers)
  {
    ghost var all := UrlEdits(view, found, numbers);
    edits := [];
    for i := 0 to |found|
      invariant edits == all[..i]
    {
      var edit := TrimUrl(view, found[i], numbers);
      assert all[i] == UrlEdit(view, found, numbers, i);
      edits := edits + [edit];
    }
  }

  method TrimUrl(view: string, span: S.Span, numbers: Numbers) returns (edit: Edit)
    requires span.start <= span.finish <= |view|
    ensures edit == Edit(span.start, span.finish, UrlText(view[span.start..span.finish], numbers))
  {
    var url, punctuation := SplitUrl(view[span.start..span.finish], numbers);
    edit := Edit(span.start, span.finish, Mark(url, numbers) + punctuation);
  }

  // ----- Identities are translated, never reused -----

  lemma {:induction false} NumbersOfCatalog(catalog: seq<C.Citation>, url: string)
    requires AllDistinct(C.CatalogUrls(catalog))
    ensures url in NumbersOf(catalog) <==> url in C.CatalogUrls(catalog)
    ensures forall i :: 0 <= i < |catalog| && catalog[i].row.url == url ==> NumbersOf(catalog)[url] == catalog[i].number
  {
    if catalog != [] {
      var n := |catalog| - 1;
      var front := catalog[..n];
      assert C.CatalogUrls(front) == C.CatalogUrls(catalog)[..n];
      NumbersOfCatalog(front, url);
      assert C.CatalogUrls(catalog) == C.CatalogUrls(front) + [catalog[n].row.url];
      forall i | 0 <= i < |catalog| && catalog[i].row.url == url
        ensures url in NumbersOf(catalog) && NumbersOf(catalog)[url] == catalog[i].number
      {
        if i < n {
          assert front[i] == catalog[i];
          assert C.CatalogUrls(catalog)[i] != C.CatalogUrls(catalog)[n];
          assert url in C.CatalogUrls(front);
        }
      }
    }
  }

  lemma {:induction false} DigitsInjective(a: nat, b: nat)
    requires Digits(a) == Digits(b)
    ensures a == b
    decreases a
  {
    LastDigit(a);
    LastDigit(b);
    if a >= 10 {
      assert Digits(a)[..|Digits(a)| - 1] == Digits(a / 10);
      assert Digits(b)[..|Digits(b)| - 1] == Digits(b / 10);
      DigitsInjective(a / 10, b / 10);
    }
  }

  lemma LastDigit(a: nat)
    ensures Digits(a) != "" && Digits(a)[|Digits(a)| - 1] == ("0123456789")[a % 10]
    ensures |Digits(a)| == 1 <==> a < 10
  {
  }

  lemma BracketedInjective(a: nat, b: nat)
    ensures Bracketed(a) == Bracketed(b) ==> a == b
  {
    if Bracketed(a) == Bracketed(b) {
      assert Bracketed(a)[1..|Bracketed(a)| - 1] == Digits(a);
      assert Bracketed(b)[1..|Bracketed(b)| - 1] == Digits(b);
      DigitsInjective(a, b);
    }
  }

  /** A historical number turns into number m of the new catalog exactly when both stand for the same URL. Every other
      historical number, 0 and those past the list included, disappears. */
  lemma TranslatesByUrl(evidence: seq<C.Evidence>, records: seq<C.ToolCall>, order: seq<string>,
      sources: seq<string>, number: nat, m: nat)
    ensures var catalog := C.Catalog(evidence, records, order);
      var mark := Mark(SourceOf(number, sources), NumbersOf(catalog));
      && (mark == "[" + Digits(m) + "]" <==>
           1 <= number <= |sources| && 1 <= m <= |catalog| && catalog[m - 1].row.url == sources[number - 1])
      && (mark == "" <==> !(1 <= number <= |sources| && C.IsAcquired(evidence, records, sources[number - 1])))
  {
    var catalog, url := C.Catalog(evidence, records, order), SourceOf(number, sources);
    C.NumbersAreABijection(evidence, records, order);
    NumbersOfCatalog(catalog, url);
    assert !C.IsAcquired(evidence, records, "");
    if url in C.CatalogUrls(catalog) {
      var i :| 0 <= i < |catalog| && C.CatalogUrls(catalog)[i] == url;
      assert catalog[i].row.url == url && catalog[i].number == i + 1;
      BracketedInjective(i + 1, m);
      if 1 <= m <= |catalog| && catalog[m - 1].row.url == url {
        assert C.CatalogUrls(catalog)[m - 1] == C.CatalogUrls(catalog)[i];
      }
    } else if 1 <= m <= |catalog| {
      assert C.CatalogUrls(catalog)[m - 1] == catalog[m - 1].row.url;
    }
  }

  /** A delivery numbers its catalog by the historical order. When every historical source was acquired again, each
      historical citation keeps its number. */
  lemma NumbersSurvive(evidence: seq<C.Evidence>, records: seq<C.ToolCall>, sources: seq<string>, number: nat)
    requires AllDistinct(sources) && forall u :: u in sources ==> C.IsAcquired(evidence, records, u)
    requires 1 <= number <= |sources|
    ensures Mark(SourceOf(number, sources), NumbersOf(C.Catalog(evidence, records, sources))) == Bracketed(number)
  {
    C.OrderFixesNumbers(evidence, records, sources);
    var catalog := C.Catalog(evidence, records, sources);
    assert C.CatalogUrls(catalog)[number - 1] == sources[number - 1];
    TranslatesByUrl(evidence, records, sources, sources, number, number);
  }

  /** The first pass writes this citation as it is. */
  ghost predicate KeptAs(body: string, r: Reference, sources: seq<string>, numbers: Numbers) {
    && r.start <= r.finish <= |body|
    && Mark(SourceOf(r.number, sources), numbers) == body[r.start..r.finish]
  }

  lemma KeptReferencesChangeNothing(body: string, found: seq<Reference>, sources: seq<string>,
      numbers: Numbers)
    requires InOrder(ReferenceEdits(found, sources, numbers), |body|)
    requires forall i :: 0 <= i < |found| ==> KeptAs(body, found[i], sources, numbers)
    ensures Substituted(body, ReferenceEdits(found, sources, numbers), 0) == body
  {
    var edits := ReferenceEdits(found, sources, numbers);
    forall i | 0 <= i < |edits| ensures edits[i].text == body[edits[i].start..edits[i].finish] {
      assert KeptAs(body, found[i], sources, numbers);
    }
    PuttingBackChangesNothing(body, edits, 0);
    assert body[0..] == body;
  }

  /** So in that case the first pass leaves the text as it was, wherever its citations are in range and written
      without leading zeros. */
  lemma FirstPassIsIdentity(evidence: seq<C.Evidence>, records: seq<C.ToolCall>,
      sources: seq<string>, body: string, found: seq<Reference>)
    requires AllDistinct(sources) && forall u :: u in sources ==> C.IsAcquired(evidence, records, u)
    requires InOrder(ReferenceEdits(found, sources, NumbersOf(C.Catalog(evidence, records, sources))), |body|)
    requires forall i :: 0 <= i < |found| ==> WrittenAs(body, found[i], |sources|)
    ensures Substituted(body, ReferenceEdits(found, sources, NumbersOf(C.Catalog(evidence, records, sources))), 0)
      == body
  {
    var numbers := NumbersOf(C.Catalog(evidence, records, sources));
    forall i | 0 <= i < |found| ensures KeptAs(body, found[i], sources, numbers) {
      assert WrittenAs(body, found[i], |sources|);
      NumbersSurvive(evidence, records, sources, found[i].number);
    }
    KeptReferencesChangeNothing(body, found, sources, numbers);
  }

  ghost predicate WrittenAs(body: string, r: Reference, count: nat) {
    && r.start <= r.finish <= |body| && 1 <= r.number <= count
    && body[r.start..r.finish] == Bracketed(r.number)
  }
}
