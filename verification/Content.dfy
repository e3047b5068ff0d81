/**
 Multilingual content of apps/admin-api/src/content-management-service.ts: the locale registry, the
 coverage matrix with its fallback walk.
 */
module Content {
  import opened Wrappers

  type Locale = string
  type PageId = string

  datatype State = Draft | Ready | Published | Archived

  datatype Revision = Revision(fallback: Option<Locale>, enabled: bool, isDefault: bool, state: State)

  datatype LocaleState = LocaleState(locale: Locale, published: Option<Revision>, draft: Option<Revision>) {
    /** `draft ?? published` */
    function Effective(): Option<Revision> {
      if draft.Some? then draft else published
    }
  }

  /** A locale with its effective revision. */
  datatype Entry = Entry(locale: Locale, effective: Revision)

  datatype Page = Page(pageId: PageId, locale: Locale, revision: nat, state: State, body: string)

  datatype Shared = Shared(locale: Locale, state: State, body: string, integrations: string)

  datatype Definition = Definition(pageId: PageId, required: bool)

  // ----- fallback chains

  /** `locales.find(...)?.effective.fallbackLocale ?? null` */
  function Pointer(entries: seq<Entry>, locale: Locale): Option<Locale> {
    if entries == [] then None
    else if entries[0].locale == locale then entries[0].effective.fallback
    else Pointer(entries[1..], locale)
  }

  /** The locale `n` pointers after `start`. */
  function Nth(entries: seq<Entry>, start: Option<Locale>, n: nat): Option<Locale> {
    if n == 0 then start
    else
      match Nth(entries, start, n - 1)
      case None => None
      case Some(locale) => Pointer(entries, locale)
  }

  lemma {:induction false} NthStaysNone(entries: seq<Entry>, start: Option<Locale>, m: nat, n: nat)
    requires m <= n && Nth(entries, start, m) == None
    ensures Nth(entries, start, n) == None
  {
    if m < n {
      NthStaysNone(entries, start, m, n - 1);
    }
  }

  /** Once a chain has come back to an earlier locale it only repeats what it has already shown. */
  lemma {:induction false} NthRepeats(entries: seq<Entry>, start: Option<Locale>, i: nat, k: nat, n: nat)
    requires i < k && Nth(entries, start, i) == Nth(entries, start, k)
    ensures exists m :: 0 <= m < k && Nth(entries, start, m) == Nth(entries, start, n)
  {
    if n >= k {
      NthRepeats(entries, start, i, k, n - 1);
      var m :| 0 <= m < k && Nth(entries, start, m) == Nth(entries, start, n - 1);
      assert Nth(entries, start, m + 1) == Nth(entries, start, n);
      if m + 1 == k {
        assert Nth(entries, start, i) == Nth(entries, start, n);
      }
    }
  }

  lemma {:induction false} PointerIsStored(entries: seq<Entry>, locale: Locale)
    ensures Pointer(entries, locale).Some? ==>
              exists e :: e in entries && e.locale == locale && e.effective.fallback == Pointer(entries, locale)
  {
    if entries != [] {
      if entries[0].locale == locale {
        assert entries[0] in entries;
      } else {
        PointerIsStored(entries[1..], locale);
      }
    }
  }

  /** Everything a chain can ever visit. */
  function Targets(entries: seq<Entry>, start: Option<Locale>): set<Locale> {
    (if start.Some? then {start.value} else {})
    + (set e | e in entries && e.effective.fallback.Some? :: e.effective.fallback.value)
  }

  lemma NextIsTarget(entries: seq<Entry>, start: Option<Locale>, locale: Locale)
    ensures Pointer(entries, locale).Some? ==> Pointer(entries, locale).value in Targets(entries, start)
  {
    PointerIsStored(entries, locale);
  }

  // ----- the fallback walk

  function FindPublished(pages: seq<Page>, pageId: PageId, locale: Locale): (found: Option<Page>)
    ensures found.Some? ==> found.value in pages
    ensures found.Some? <==> exists p :: p in pages && p.pageId == pageId && p.locale == locale && p.state == Published
    ensures found.Some? ==>
        found.value.pageId == pageId && found.value.locale == locale && found.value.state == Published
  {
    if pages == [] then None
    else if pages[0].pageId == pageId && pages[0].locale == locale && pages[0].state == Published then Some(pages[0])
    else FindPublished(pages[1..], pageId, locale)
  }

  /** Some locale on the chain has the page published. */
  ghost predicate PublishedOnChain(entries: seq<Entry>, pages: seq<Page>, pageId: PageId, start: Option<Locale>) {
    exists n: nat :: PublishedAt(entries, pages, pageId, start, n)
  }

  predicate PublishedAt(entries: seq<Entry>, pages: seq<Page>, pageId: PageId, start: Option<Locale>, n: nat) {
    var locale := Nth(entries, start, n);
    locale.Some? && FindPublished(pages, pageId, locale.value).Some?
  }

  /** `found` is the page of the nearest locale on the chain that has it published. */
  ghost predicate IsNearest(entries: seq<Entry>, pages: seq<Page>, pageId: PageId, start: Option<Locale>, found: Page) {
    exists n: nat ::
      && PublishedAt(entries, pages, pageId, start, n)
      && FindPublished(pages, pageId, Nth(entries, start, n).value) == Some(found)
      && forall m: nat :: m < n ==> !PublishedAt(entries, pages, pageId, start, m)
  }

  /**
   The walk of `getView`. It ends on every registry, cyclic pointers and pointers to unregistered
   locales included, and reports a page exactly when one is reachable: the nearest one.
   */
  method WalkFallback(entries: seq<Entry>, pages: seq<Page>, pageId: PageId,
                      start: Option<Locale>) returns (found: Option<Page>)
    ensures found.Some? <==> PublishedOnChain(entries, pages, pageId, start)
    ensures found.Some? ==> IsNearest(entries, pages, pageId, start, found.value)
  {
    var fallback := start;
    var visited: set<Locale> := {};
    ghost var k: nat := 0;
    found := None;
    while fallback.Some? && fallback.value !in visited
      invariant fallback == Nth(entries, start, k)
      invariant fallback.Some? ==> fallback.value in Targets(entries, start)
      invariant visited <= Targets(entries, start)
      invariant forall locale :: locale in visited ==> exists i: nat :: i < k && Nth(entries, start, i) == Some(locale)
      invariant forall m: nat :: m < k ==> !PublishedAt(entries, pages, pageId, start, m)
      decreases Targets(entries, start) - visited
    {
      visited := visited + {fallback.value};
      var page := FindPublished(pages, pageId, fallback.value);
      if page.Some? {
        assert PublishedAt(entries, pages, pageId, start, k);
        return page;
      }
      NextIsTarget(entries, start, fallback.value);
      fallback := Pointer(entries, fallback.value);
      k := k + 1;
    }
    forall n: nat
      ensures !PublishedAt(entries, pages, pageId, start, n)
    {
      if fallback.Some? {
        var i: nat :| i < k && Nth(entries, start, i) == fallback;
        NthRepeats(entries, start, i, k, n);
        var m: nat :| m < k && Nth(entries, start, m) == Nth(entries, start, n);
        assert !PublishedAt(entries, pages, pageId, start, m);
      } else if k <= n {
        NthStaysNone(entries, start, k, n);
      }
    }
  }

  // ----- the locale registry

  predicate Registered(entries: seq<Entry>, locale: Locale) {
    exists e :: e in entries && e.locale == locale
  }

  predicate UniqueTags(entries: seq<Entry>) {
    forall i, j :: 0 <= i < j < |entries| ==> entries[i].locale != entries[j].locale
  }

  ghost predicate ChainEnds(entries: seq<Entry>, start: Locale) {
    exists n: nat :: Nth(entries, Some(start), n) == None
  }

  lemma RepeatNeverEnds(entries: seq<Entry>, start: Locale, i: nat, k: nat)
    requires i < k && Nth(entries, Some(start), i) == Nth(entries, Some(start), k) && Nth(entries, Some(start), k).Some?
    ensures !ChainEnds(entries, start)
  {
    forall n: nat ensures Nth(entries, Some(start), n).Some? {
      NthRepeats(entries, Some(start), i, k, n);
      var m: nat :| m < k && Nth(entries, Some(start), m) == Nth(entries, Some(start), n);
      if Nth(entries, Some(start), m) == None {
        NthStaysNone(entries, Some(start), m, k);
      }
    }
  }

  /** The cycle test of `validateLocaleRegistry` for one locale, run until a pointer is null or seen before. */
  method ChainIsAcyclic(entries: seq<Entry>, start: Locale) returns (ok: bool)
    ensures ok <==> ChainEnds(entries, start)
  {
    var visited := {start};
    var current := start;
    ghost var k: nat := 0;
    var next := Pointer(entries, current);
    NextIsTarget(entries, Some(start), current);
    while next.Some?
      invariant Nth(entries, Some(start), k) == Some(current) && next == Pointer(entries, current)
      invariant current in visited && visited <= Targets(entries, Some(start))
      invariant next.Some? ==> next.value in Targets(entries, Some(start))
      invariant forall locale :: locale in visited ==>
          exists i: nat :: i <= k && Nth(entries, Some(start), i) == Some(locale)
      decreases Targets(entries, Some(start)) - visited
    {
      assert Nth(entries, Some(start), k + 1) == next;
      if next.value in visited {
        ghost var i: nat :| i <= k && Nth(entries, Some(start), i) == next;
        RepeatNeverEnds(entries, start, i, k + 1);
        return false;
      }
      visited := visited + {next.value};
      current := next.value;
      k := k + 1;
      next := Pointer(entries, current);
      NextIsTarget(entries, Some(start), current);
    }
    assert Nth(entries, Some(start), k + 1) == None;
    return true;
  }

  predicate HasUniqueDefault(entries: seq<Entry>) {
    exists i :: 0 <= i < |entries| && entries[i].effective.isDefault
      && forall j :: 0 <= j < |entries| && entries[j].effective.isDefault ==> j == i
  }

  /** What a locale registry must be: unique tags, one default, registered pointers, no cycle. */
  ghost predicate RegistryOk(entries: seq<Entry>) {
    && UniqueTags(entries)
    && HasUniqueDefault(entries)
    && forall e :: e in entries ==>
         && (e.effective.fallback.Some? ==> Registered(entries, e.effective.fallback.value))
         && ChainEnds(entries, e.locale)
  }

  /** `validateLocaleRegistry`: accepts exactly the registries that are in order. */
  method ValidateLocaleRegistry(entries: seq<Entry>) returns (ok: bool)
    ensures ok <==> RegistryOk(entries)
  {
    if !UniqueTags(entries) || !HasUniqueDefault(entries) {
      return false;
    }
    for i := 0 to |entries|
      invariant forall j :: 0 <= j < i ==>
                  && (entries[j].effective.fallback.Some? ==> Registered(entries, entries[j].effective.fallback.value))
                  && ChainEnds(entries, entries[j].locale)
    {
      var fallback := entries[i].effective.fallback;
      if fallback.Some? && !Registered(entries, fallback.value) {
        return false;
      }
      var acyclic := ChainIsAcyclic(entries, entries[i].locale);
      if !acyclic {
        return false;
      }
    }
    return true;
  }

  // ----- coverage

  datatype Status = Exact(state: State) | FallbackFrom(locale: Locale, revision: nat) | Missing

  datatype Cell = Cell(pageId: PageId, locale: Locale, status: Status)

  function FindPage(pages: seq<Page>, pageId: PageId, locale: Locale): (found: Option<Page>)
    ensures found.Some? ==> found.value in pages && found.value.pageId == pageId && found.value.locale == locale
    ensures found.None? ==> forall p :: p in pages ==> !(p.pageId == pageId && p.locale == locale)
  {
    if pages == [] then None
    else if pages[0].pageId == pageId && pages[0].locale == locale then Some(pages[0])
    else FindPage(pages[1..], pageId, locale)
  }

  /** What one cell of the matrix must say. */
  ghost predicate CellOk(entries: seq<Entry>, pages: seq<Page>, entry: Entry, cell: Cell) {
    && cell.locale == entry.locale
    && match FindPage(pages, cell.pageId, entry.locale)
       case Some(page) => cell.status == Exact(page.state)
       case None =>
         if PublishedOnChain(entries, pages, cell.pageId, entry.effective.fallback)
         then exists page :: IsNearest(entries, pages, cell.pageId, entry.effective.fallback, page)
                             && cell.status == FallbackFrom(page.locale, page.revision)
         else cell.status == Missing
  }

  /** Locales that take part in coverage. */
  predicate Covered(e: Entry) {
    e.effective.enabled && e.effective.state != Archived
  }

  /** Every cell belongs to a definition and a covered locale, and every such pair has its cell. */
  ghost predicate CoverageOk(entries: seq<Entry>, pages: seq<Page>, definitions: seq<Definition>, cells: seq<Cell>) {
    && (forall c :: c in cells ==> CellBelongs(entries, pages, definitions, c))
    && (forall d, e :: d in definitions && e in entries && Covered(e) ==> HasCell(entries, pages, cells, d, e))
  }

  ghost predicate CellBelongs(entries: seq<Entry>, pages: seq<Page>, definitions: seq<Definition>, c: Cell) {
    exists d, e ::
      d in definitions && e in entries && Covered(e) && c.pageId == d.pageId && CellOk(entries, pages, e, c)
  }

  ghost predicate HasCell(entries: seq<Entry>, pages: seq<Page>, cells: seq<Cell>, d: Definition, e: Entry) {
    exists c :: c in cells && c.pageId == d.pageId && CellOk(entries, pages, e, c)
  }

  function CoveredOnly(entries: seq<Entry>): (kept: seq<Entry>)
    ensures forall e :: e in kept <==> e in entries && Covered(e)
  {
    if entries == [] then []
    else if Covered(entries[0]) then [entries[0]] + CoveredOnly(entries[1..])
    else CoveredOnly(entries[1..])
  }

  /** One cell. */
  method CoverCell(entries: seq<Entry>, pages: seq<Page>, definition: Definition, entry: Entry) returns (cell: Cell)
    ensures cell.pageId == definition.pageId && CellOk(entries, pages, entry, cell)
  {
    var exact := FindPage(pages, definition.pageId, entry.locale);
    if exact.Some? {
      return Cell(definition.pageId, entry.locale, Exact(exact.value.state));
    }
    var fallbackPage := WalkFallback(entries, pages, definition.pageId, entry.effective.fallback);
    cell := Cell(definition.pageId, entry.locale,
                 if fallbackPage.Some? then FallbackFrom(fallbackPage.value.locale, fallbackPage.value.revision)
                     else Missing);
  }

  /** The cells of one definition: one for each covered locale, in their order. */
  ghost predicate IsRow(entries: seq<Entry>, pages: seq<Page>, definition: Definition, covered: seq<Entry>,
                        row: seq<Cell>) {
    && |row| == |covered|
    && forall j :: 0 <= j < |row| ==> row[j].pageId == definition.pageId && CellOk(entries, pages, covered[j], row[j])
  }

  /** The matrix is made of one such row for each definition, in their order, and of nothing else. */
  ghost predicate IsMatrix(entries: seq<Entry>, pages: seq<Page>, definitions: seq<Definition>, covered: seq<Entry>,
                           cells: seq<Cell>)
  {
    if definitions == [] then cells == []
    else
      var last, n := |definitions| - 1, |cells| - |covered|;
      && 0 <= n
      && IsMatrix(entries, pages, definitions[..last], covered, cells[..n])
      && IsRow(entries, pages, definitions[last], covered, cells[n..])
  }

  /** So every pair of a definition and a covered locale has exactly one cell. */
  lemma {:induction false} MatrixSize(entries: seq<Entry>, pages: seq<Page>, definitions: seq<Definition>,
                                      covered: seq<Entry>, cells: seq<Cell>)
    requires IsMatrix(entries, pages, definitions, covered, cells)
    ensures |cells| == |definitions| * |covered|
  {
    if definitions != [] {
      var last := |definitions| - 1;
      MatrixSize(entries, pages, definitions[..last], covered, cells[..|cells| - |covered|]);
      assert |definitions| * |covered| == last * |covered| + |covered|;
    }
  }

  /** The inner loop: one definition over all covered locales. */
  method CoverRow(entries: seq<Entry>, pages: seq<Page>, definition: Definition, covered: seq<Entry>)
    returns (row: seq<Cell>)
    ensures IsRow(entries, pages, definition, covered, row)
  {
    row := [];
    for j := 0 to |covered|
      invariant IsRow(entries, pages, definition, covered[..j], row)
    {
      var cell := CoverCell(entries, pages, definition, covered[j]);
      row := row + [cell];
    }
    assert covered[..|covered|] == covered;
  }

  lemma RowExtendsCoverage(entries: seq<Entry>, pages: seq<Page>, definitions: seq<Definition>, definition: Definition,
                           cells: seq<Cell>, row: seq<Cell>, covered: seq<Entry>)
    requires CoverageOk(entries, pages, definitions, cells) && covered == CoveredOnly(entries)
    requires IsRow(entries, pages, definition, covered, row)
    ensures CoverageOk(entries, pages, definitions + [definition], cells + row)
  {
    forall c | c in cells + row
      ensures CellBelongs(entries, pages, definitions + [definition], c)
    {
      if c in cells {
        assert CellBelongs(entries, pages, definitions, c);
      } else {
        var j :| 0 <= j < |row| && row[j] == c;
        assert covered[j] in entries && Covered(covered[j]) && definition in definitions + [definition];
      }
    }
    forall d, e | d in definitions + [definition] && e in entries && Covered(e)
      ensures HasCell(entries, pages, cells + row, d, e)
    {
      if d in definitions {
        assert HasCell(entries, pages, cells, d, e);
        var c :| c in cells && c.pageId == d.pageId && CellOk(entries, pages, e, c);
        assert c in cells + row;
      } else {
        assert e in covered;
        var j :| 0 <= j < |covered| && covered[j] == e;
        assert row[j] in cells + row;
      }
    }
  }

  lemma MatrixGrows(entries: seq<Entry>, pages: seq<Page>, definitions: seq<Definition>, definition: Definition,
                    covered: seq<Entry>, cells: seq<Cell>, row: seq<Cell>)
    requires IsMatrix(entries, pages, definitions, covered, cells) && IsRow(entries, pages, definition, covered, row)
    ensures IsMatrix(entries, pages, definitions + [definition], covered, cells + row)
  {
    var longer := definitions + [definition];
    assert longer[..|definitions|] == definitions && longer[|definitions|] == definition;
    assert (cells + row)[..|cells|] == cells && (cells + row)[|cells|..] == row;
  }

  /** The coverage loops of `getView`: one cell for every definition and every covered locale. */
  method Coverage(entries: seq<Entry>, pages: seq<Page>, definitions: seq<Definition>) returns (cells: seq<Cell>)
    ensures CoverageOk(entries, pages, definitions, cells)
    ensures IsMatrix(entries, pages, definitions, CoveredOnly(entries), cells)
  {
    cells := [];
    var covered := CoveredOnly(entries);
    for i := 0 to |definitions|
      invariant CoverageOk(entries, pages, definitions[..i], cells)
      invariant IsMatrix(entries, pages, definitions[..i], covered, cells)
    {
      var row := CoverRow(entries, pages, definitions[i], covered);
      RowExtendsCoverage(entries, pages, definitions[..i], definitions[i], cells, row, covered);
      MatrixGrows(entries, pages, definitions[..i], definitions[i], covered, cells, row);
      assert definitions[..i] + [definitions[i]] == definitions[..i + 1];
      cells := cells + row;
    }
    assert definitions[..|definitions|] == definitions;
  }
}
