/**
 The starter content pack of apps/admin-api/src/content-management-service.ts: its preview and its
 application over the revision heads of packages/persistence/src/admin-content-management.ts.
 */
module StarterContent {
  import opened Wrappers
  import opened Content

  // ----- revision heads

  /** Pages are keyed by (page, locale), shared content by locale. */
  datatype Key = PageKey(pageId: PageId, locale: Locale) | SharedKey(locale: Locale)

  datatype Body =
    | PageBody(pageType: string, platform: Option<string>, content: string, seo: string)
    | SharedBody(localized: string, integrations: string)

  datatype Saved = Saved(revision: nat, state: State, body: Body)

  datatype Head = Head(head: nat, draft: Option<Saved>, published: Option<Saved>)

  type Store = map<Key, Head>

  /** The row the list queries show: `COALESCE(draft_revision, published_revision)`. */
  function Current(store: Store, key: Key): Option<Saved> {
    if key !in store then None
    else if store[key].draft.Some? then store[key].draft
    else store[key].published
  }

  function HeadRevision(store: Store, key: Key): Option<nat> {
    if key in store then Some(store[key].head) else None
  }

  /** The head that a save leaves behind. */
  function Drafted(store: Store, key: Key, state: State, body: Body): Head {
    var next := if key in store then store[key].head + 1 else 1;
    Head(next, Some(Saved(next, state, body)), if key in store then store[key].published else None)
  }

  /** What saving, publishing and discarding keep about a head. */
  predicate HeadOk(h: Head) {
    && (h.draft.Some? ==> h.draft.value.revision == h.head)
    && (h.published.Some? ==> h.published.value.revision <= h.head)
  }

  predicate StoreOk(store: Store) {
    forall key :: key in store ==> HeadOk(store[key])
  }

  // ----- locales

  datatype LocaleRow = LocaleRow(locale: Locale, head: nat, draft: Option<Revision>, published: Option<Revision>)

  predicate Visible(row: LocaleRow) {
    row.draft.Some? || row.published.Some?
  }

  function EntryOf(row: LocaleRow): Entry
    requires Visible(row)
  {
    Entry(row.locale, if row.draft.Some? then row.draft.value else row.published.value)
  }

  /** The listing joins heads with their draft and published revisions, so a head with neither is not shown. */
  function Entries(rows: seq<LocaleRow>): (entries: seq<Entry>)
    ensures forall e :: e in entries <==> exists row :: row in rows && Visible(row) && e == EntryOf(row)
  {
    if rows == [] then []
    else
      assert rows == [rows[0]] + rows[1..];
      if Visible(rows[0]) then [EntryOf(rows[0])] + Entries(rows[1..]) else Entries(rows[1..])
  }

  predicate Listed(rows: seq<LocaleRow>, locale: Locale) {
    exists row :: row in rows && Visible(row) && row.locale == locale
  }

  predicate Stored(rows: seq<LocaleRow>, locale: Locale) {
    exists row :: row in rows && row.locale == locale
  }

  const DEFAULT_LOCALE: Locale := "en"

  const STARTER_LOCALES: seq<Locale> := ["en", "zh-CN", "es", "fr", "de", "it", "tr", "pl", "ja"]

  function StarterRevision(locale: Locale): Revision {
    var isDefault := locale == DEFAULT_LOCALE;
    Revision(if isDefault then None else Some(DEFAULT_LOCALE), true, isDefault, State.Ready)
  }

  function StarterRow(locale: Locale): LocaleRow {
    LocaleRow(locale, 1, Some(StarterRevision(locale)), None)
  }

  /** The rows that the first loop of the bootstrap adds. */
  function MissingRows(rows: seq<LocaleRow>, locales: seq<Locale>): seq<LocaleRow> {
    if locales == [] then []
    else
      var rest := MissingRows(rows, locales[..|locales| - 1]);
      var last := locales[|locales| - 1];
      if Listed(rows, last) then rest else rest + [StarterRow(last)]
  }

  // ----- starter records

  datatype Record = Record(key: Key, body: Body)

  datatype Pack = Pack(pages: seq<Record>, shared: seq<Record>)

  datatype PageKind = PageKind(pageId: PageId, pageType: string, platform: Option<string>)

  function Records(pack: Pack): seq<Record> {
    pack.pages + pack.shared
  }

  predicate UniqueKeys(records: seq<Record>) {
    forall i, j :: 0 <= i < j < |records| ==> records[i].key != records[j].key
  }

  /** The code-owned pack: pages carry page bodies, shared records shared ones, and no key occurs twice. */
  predicate PackOk(pack: Pack) {
    && (forall r :: r in pack.pages ==> r.key.PageKey? && r.body.PageBody?)
    && (forall r :: r in pack.shared ==> r.key.SharedKey? && r.body.SharedBody?)
    && UniqueKeys(Records(pack))
  }

  predicate Supported(definitions: set<PageKind>, r: Record) {
    r.key.PageKey? && r.body.PageBody? ==> PageKind(r.key.pageId, r.body.pageType, r.body.platform) in definitions
  }

  /** `samePageContent` and `sameSharedContent`: site integrations are not compared. */
  predicate Same(current: Body, starter: Body) {
    match (current, starter)
    case (SharedBody(localized, _), SharedBody(wanted, _)) => localized == wanted
    case _ => current == starter
  }

  predicate Live(state: State) {
    state == State.Ready || state == State.Published
  }

  /** The record is there, in its starter form, and ready or published. */
  predicate InPlace(store: Store, r: Record) {
    var current := Current(store, r.key);
    current.Some? && Same(current.value.body, r.body) && Live(current.value.state)
  }

  /** Existing site integrations are carried over. */
  function Merged(current: Option<Saved>, r: Record): Body {
    match r.body
    case SharedBody(localized, _) =>
      if current.Some? && current.value.body.SharedBody?
      then SharedBody(localized, current.value.body.integrations)
      else r.body
    case PageBody(_, _, _, _) => r.body
  }

  /** What the bootstrap leaves under the key of a record. */
  function Outcome(store: Store, r: Record): Head {
    if InPlace(store, r) then store[r.key] else Drafted(store, r.key, State.Ready, Merged(Current(store, r.key), r))
  }

  /** The revision a command expects is the one shown, which need not be the head. */
  predicate ShownIsHead(store: Store, key: Key) {
    HeadRevision(store, key) == (if Current(store, key).Some? then Some(Current(store, key).value.revision) else None)
  }

  predicate Accepted(store: Store, r: Record) {
    InPlace(store, r) || ShownIsHead(store, r.key)
  }

  /** All writes of the loops over `records`, decided on the view taken before them. */
  function Applied(before: Store, records: seq<Record>): Store {
    if records == [] then before
    else
      var last := records[|records| - 1];
      var rest := Applied(before, records[..|records| - 1]);
      if InPlace(before, last) then rest else rest[last.key := Outcome(before, last)]
  }

  function Pending(before: Store, records: seq<Record>): nat {
    if records == [] then 0
    else Pending(before, records[..|records| - 1]) + if InPlace(before, records[|records| - 1]) then 0 else 1
  }

  // ----- what the writes amount to

  lemma {:induction false} OthersUntouched(before: Store, records: seq<Record>, key: Key)
    requires forall r :: r in records ==> r.key != key
    ensures key in Applied(before, records) <==> key in before
    ensures key in before ==> Applied(before, records)[key] == before[key]
  {
    if records != [] {
      assert records[|records| - 1] in records;
      OthersUntouched(before, records[..|records| - 1], key);
    }
  }

  lemma {:induction false} EachWritten(before: Store, records: seq<Record>, i: nat)
    requires UniqueKeys(records) && i < |records|
    ensures records[i].key in Applied(before, records)
    ensures Applied(before, records)[records[i].key] == Outcome(before, records[i])
  {
    var n := |records| - 1;
    if i == n {
      OthersUntouched(before, records[..n], records[n].key);
    } else {
      EachWritten(before, records[..n], i);
      assert records[..n][i] == records[i];
    }
  }

  /** After the writes every record is in place and shown under its head. */
  lemma AllInPlace(before: Store, records: seq<Record>, i: nat)
    requires UniqueKeys(records) && i < |records|
    ensures InPlace(Applied(before, records), records[i])
  {
    EachWritten(before, records, i);
  }

  lemma {:induction false} NothingPending(store: Store, records: seq<Record>)
    requires forall i :: 0 <= i < |records| ==> InPlace(store, records[i])
    ensures Applied(store, records) == store && Pending(store, records) == 0
  {
    if records != [] {
      NothingPending(store, records[..|records| - 1]);
    }
  }

  /** Applying the records to its own result changes nothing and creates nothing. */
  lemma ApplyingTwiceIsOnce(before: Store, records: seq<Record>)
    requires UniqueKeys(records)
    ensures Applied(Applied(before, records), records) == Applied(before, records)
    ensures Pending(Applied(before, records), records) == 0
  {
    forall i | 0 <= i < |records| ensures InPlace(Applied(before, records), records[i]) {
      AllInPlace(before, records, i);
    }
    NothingPending(Applied(before, records), records);
  }

  function Integrations(store: Store, key: Key): Option<string> {
    var current := Current(store, key);
    if current.Some? && current.value.body.SharedBody? then Some(current.value.body.integrations) else None
  }

  lemma OutcomeKeepsIntegrations(store: Store, r: Record)
    requires r.body.SharedBody? && Integrations(store, r.key).Some?
    ensures Integrations(map[r.key := Outcome(store, r)], r.key) == Integrations(store, r.key)
  {
  }

  /** Site integrations that were shown before are shown after, whatever the starter records carry. */
  lemma IntegrationsKept(before: Store, pack: Pack, key: Key)
    requires PackOk(pack) && Integrations(before, key).Some? && key.SharedKey?
    ensures Integrations(Applied(before, Records(pack)), key) == Integrations(before, key)
  {
    var records := Records(pack);
    if i :| 0 <= i < |records| && records[i].key == key {
      EachWritten(before, records, i);
      assert records[i] in pack.shared;
      OutcomeKeepsIntegrations(before, records[i]);
    } else {
      OthersUntouched(before, records, key);
    }
  }

  // ----- the same told from the stored texts

  /** What is shown under the record's key has its text; integrations are not the record's to tell. */
  ghost predicate ShowsText(store: Store, r: Record) {
    var shown := Current(store, r.key);
    shown.Some? && match r.body
                   case PageBody(_, _, _, _) => shown.value.body == r.body
                   case SharedBody(localized, _) =>
                     exists integrations :: shown.value.body == SharedBody(localized, integrations)
  }

  /** Shown with that text, as ready or published. */
  ghost predicate Settled(store: Store, r: Record) {
    ShowsText(store, r) && Current(store, r.key).value.state in {State.Ready, State.Published}
  }

  lemma InPlaceIffSettled(store: Store, r: Record)
    ensures InPlace(store, r) <==> Settled(store, r)
  {
    var shown := Current(store, r.key);
    if r.body.SharedBody? && shown.Some? && shown.value.body.SharedBody? {
      assert shown.value.body == SharedBody(shown.value.body.localized, shown.value.body.integrations);
    }
  }

  /** The body a write stores: the record's text, with the integrations that were shown. */
  ghost predicate WrittenBody(store: Store, r: Record, body: Body) {
    match r.body
    case PageBody(_, _, _, _) => body == r.body
    case SharedBody(localized, integrations) =>
      body == SharedBody(localized, if Integrations(store, r.key).Some? then Integrations(store, r.key).value
                                    else integrations)
  }

  /**
   What the record loops leave under each record: a settled head as it was, and otherwise a ready draft under
   the next number, with the record's text, beside whatever was published.
   */
  lemma RecordAfterLoops(before: Store, records: seq<Record>, i: nat)
    requires UniqueKeys(records) && i < |records|
    ensures var r, after := records[i], Applied(before, records);
            && r.key in after
            && (if Settled(before, r) then r.key in before && after[r.key] == before[r.key]
                else
                  && after[r.key].head == (if r.key in before then before[r.key].head + 1 else 1)
                  && after[r.key].published == (if r.key in before then before[r.key].published else None)
                  && exists body :: WrittenBody(before, r, body)
                       && after[r.key].draft == Some(Saved(after[r.key].head, State.Ready, body)))
  {
    var r := records[i];
    EachWritten(before, records, i);
    InPlaceIffSettled(before, r);
    assert WrittenBody(before, r, Merged(Current(before, r.key), r));
  }

  /** A bootstrap reports as created exactly the records that were not settled. */
  lemma {:induction false} PendingCounts(before: Store, records: seq<Record>)
    ensures Pending(before, records) == |set i: nat | i < |records| && !Settled(before, records[i])|
  {
    if records != [] {
      var n := |records| - 1;
      PendingCounts(before, records[..n]);
      InPlaceIffSettled(before, records[n]);
      var rest := set i: nat | i < n && !Settled(before, records[..n][i]);
      var all := set i: nat | i < |records| && !Settled(before, records[i]);
      assert all == if Settled(before, records[n]) then rest else rest + {n};
    }
  }

  // ----- which writes the repository refuses

  /** A draft was discarded and the head number kept. */
  predicate LeftBehind(h: Head) {
    h.draft.None? && !(h.published.Some? && h.published.value.revision == h.head)
  }

  /** The expected revision is stale exactly under a head whose draft was discarded. */
  lemma StaleIffLeftBehind(store: Store, key: Key)
    requires StoreOk(store)
    ensures ShownIsHead(store, key) <==> (key in store ==> !LeftBehind(store[key]))
  {
  }

  lemma {:induction false} WritesKeepHeads(before: Store, records: seq<Record>)
    requires StoreOk(before)
    ensures StoreOk(Applied(before, records))
  {
    if records != [] {
      WritesKeepHeads(before, records[..|records| - 1]);
    }
  }

  // ----- the registry after the locale loop

  predicate UniqueRows(rows: seq<LocaleRow>) {
    forall i, j :: 0 <= i < j < |rows| ==> rows[i].locale != rows[j].locale
  }

  lemma {:induction false} EntriesJoin(rows: seq<LocaleRow>, more: seq<LocaleRow>)
    ensures Entries(rows + more) == Entries(rows) + Entries(more)
  {
    if rows == [] {
      assert rows + more == more;
    } else {
      EntriesJoin(rows[1..], more);
      assert (rows + more)[1..] == rows[1..] + more;
    }
  }

  lemma {:induction false} PointerOfJoin(entries: seq<Entry>, more: seq<Entry>, locale: Locale)
    ensures Pointer(entries + more, locale)
         == if Registered(entries, locale) then Pointer(entries, locale) else Pointer(more, locale)
  {
    if entries == [] {
      assert entries + more == more;
    } else {
      PointerOfJoin(entries[1..], more, locale);
      assert (entries + more)[1..] == entries[1..] + more;
      assert entries == [entries[0]] + entries[1..];
    }
  }

  /** Chains of registered locales do not change when locales are added. */
  lemma {:induction false} NthOfJoin(entries: seq<Entry>, more: seq<Entry>, start: Locale, n: nat)
    requires RegistryOk(entries) && Registered(entries, start)
    ensures Nth(entries + more, Some(start), n) == Nth(entries, Some(start), n)
    ensures Nth(entries, Some(start), n).Some? ==> Registered(entries, Nth(entries, Some(start), n).value)
  {
    if n > 0 {
      NthOfJoin(entries, more, start, n - 1);
      var previous := Nth(entries, Some(start), n - 1);
      if previous.Some? {
        PointerOfJoin(entries, more, previous.value);
        PointerIsStored(entries, previous.value);
      }
    }
  }

  lemma {:induction false} NthShift(entries: seq<Entry>, start: Locale, n: nat)
    ensures Nth(entries, Some(start), n + 1) == Nth(entries, Pointer(entries, start), n)
  {
    if n > 0 {
      NthShift(entries, start, n - 1);
    }
  }

  /** The rows the locale loop adds: the starter locales that are not shown. */
  ghost predicate Missing(rows: seq<LocaleRow>, locales: seq<Locale>, added: seq<LocaleRow>) {
    && (forall row :: row in added ==>
        row == StarterRow(row.locale) && row.locale in locales && !Listed(rows, row.locale))
    && (forall l :: l in locales && !Listed(rows, l) ==> StarterRow(l) in added)
  }

  predicate Distinct(locales: seq<Locale>) {
    forall i, j :: 0 <= i < j < |locales| ==> locales[i] != locales[j]
  }

  lemma {:induction false} MissingRowsAreMissing(rows: seq<LocaleRow>, locales: seq<Locale>)
    ensures Missing(rows, locales, MissingRows(rows, locales))
  {
    if locales != [] {
      var n := |locales| - 1;
      MissingRowsAreMissing(rows, locales[..n]);
      assert locales == locales[..n] + [locales[n]];
    }
  }

  lemma {:induction false} MissingRowsUnique(rows: seq<LocaleRow>, locales: seq<Locale>)
    requires Distinct(locales)
    ensures UniqueRows(MissingRows(rows, locales))
  {
    if locales != [] {
      var n := |locales| - 1;
      MissingRowsUnique(rows, locales[..n]);
      MissingRowsAreMissing(rows, locales[..n]);
      assert locales[n] !in locales[..n];
    }
  }

  lemma EntriesOfStarters(added: seq<LocaleRow>)
    requires forall row :: row in added ==> row == StarterRow(row.locale)
    ensures forall e :: e in Entries(added) <==>
        StarterRow(e.locale) in added && e == Entry(e.locale, StarterRevision(e.locale))
  {
    forall e: Entry | StarterRow(e.locale) in added && e == Entry(e.locale, StarterRevision(e.locale))
      ensures e in Entries(added)
    {
      assert EntryOf(StarterRow(e.locale)) == e;
    }
  }

  lemma {:induction false} EntriesUnique(rows: seq<LocaleRow>)
    requires UniqueRows(rows)
    ensures UniqueTags(Entries(rows))
  {
    if rows != [] {
      EntriesUnique(rows[1..]);
      forall e | e in Entries(rows[1..]) ensures e.locale != rows[0].locale {
        var row :| row in rows[1..] && Visible(row) && e == EntryOf(row);
      }
    }
  }

  /** Tags are unique and the pointer of a listed locale is its own. */
  lemma PointerOf(entries: seq<Entry>, e: Entry)
    requires UniqueTags(entries) && e in entries
    ensures Pointer(entries, e.locale) == e.effective.fallback
  {
    if entries[0] != e {
      assert e in entries[1..];
      assert entries[0].locale != e.locale;
      PointerOf(entries[1..], e);
    }
  }

  /** Starter entries that are new to a registry. */
  predicate Starters(entries: seq<Entry>, more: seq<Entry>) {
    && UniqueTags(more)
    && forall e :: e in more ==> e.effective == StarterRevision(e.locale) && !Registered(entries, e.locale)
  }

  /** New entries that are not defaults and fall back to registered locales. */
  predicate Leaning(entries: seq<Entry>, more: seq<Entry>) {
    && UniqueTags(more)
    && forall e :: e in more ==>
         && !Registered(entries, e.locale) && !e.effective.isDefault
         && e.effective.fallback.Some? && Registered(entries, e.effective.fallback.value)
  }

  lemma JoinKeepsChains(entries: seq<Entry>, more: seq<Entry>, e: Entry)
    requires RegistryOk(entries) && Leaning(entries, more) && e in entries + more
    ensures ChainEnds(entries + more, e.locale)
  {
    if e in entries {
      var n: nat :| Nth(entries, Some(e.locale), n) == None;
      NthOfJoin(entries, more, e.locale, n);
    } else {
      PointerOfJoin(entries, more, e.locale);
      PointerOf(more, e);
      var target := e.effective.fallback.value;
      assert !Registered(entries, e.locale) && Pointer(entries + more, e.locale) == Some(target);
      var d :| d in entries && d.locale == target;
      var n: nat :| Nth(entries, Some(d.locale), n) == None;
      NthOfJoin(entries, more, target, n);
      NthShift(entries + more, e.locale, n);
    }
  }

  lemma JoinKeepsDefault(entries: seq<Entry>, more: seq<Entry>)
    requires HasUniqueDefault(entries) && forall e :: e in more ==> !e.effective.isDefault
    ensures HasUniqueDefault(entries + more)
  {
    var i :| 0 <= i < |entries| && entries[i].effective.isDefault
      && forall j :: 0 <= j < |entries| && entries[j].effective.isDefault ==> j == i;
    assert (entries + more)[i] == entries[i];
    forall j | 0 <= j < |entries + more| ensures (entries + more)[j].effective.isDefault ==> j == i {
      if j >= |entries| {
        assert more[j - |entries|] in more;
      }
    }
  }

  lemma JoinKeepsTags(entries: seq<Entry>, more: seq<Entry>)
    requires UniqueTags(entries) && Leaning(entries, more)
    ensures UniqueTags(entries + more)
  {
    forall i, j | 0 <= i < j < |entries + more| ensures (entries + more)[i].locale != (entries + more)[j].locale {
      if i < |entries| <= j {
        assert !Registered(entries, more[j - |entries|].locale);
      }
    }
  }

  /** Adding them to a registry gives a registry again. */
  lemma LeaningStaysOk(entries: seq<Entry>, more: seq<Entry>)
    requires RegistryOk(entries) && Leaning(entries, more)
    ensures RegistryOk(entries + more)
  {
    JoinKeepsTags(entries, more);
    JoinKeepsDefault(entries, more);
    forall e | e in entries + more
      ensures e.effective.fallback.Some? ==> Registered(entries + more, e.effective.fallback.value)
      ensures ChainEnds(entries + more, e.locale)
    {
      JoinKeepsChains(entries, more, e);
      if e.effective.fallback.Some? {
        var target :| target in entries && target.locale == e.effective.fallback.value;
        assert target in entries + more;
      }
    }
  }

  /** Without it the starter locales bring a second default, and no registry has two. */
  lemma SecondDefaultBreaks(entries: seq<Entry>, more: seq<Entry>, d: Entry)
    requires RegistryOk(entries) && d in more && d.effective.isDefault
    ensures !RegistryOk(entries + more)
  {
    var i :| 0 <= i < |entries| && entries[i].effective.isDefault;
    var j :| 0 <= j < |more| && more[j] == d;
    assert (entries + more)[i].effective.isDefault && (entries + more)[|entries| + j].effective.isDefault;
  }

  lemma RegisteredIffListed(rows: seq<LocaleRow>, locale: Locale)
    ensures Registered(Entries(rows), locale) <==> Listed(rows, locale)
  {
    if row :| row in rows && Visible(row) && row.locale == locale {
      assert EntryOf(row) in Entries(rows);
    }
  }

  lemma MissingAreStarters(rows: seq<LocaleRow>, locales: seq<Locale>)
    requires Distinct(locales)
    ensures var more := Entries(MissingRows(rows, locales));
            && Starters(Entries(rows), more)
            && forall l :: l in locales && !Listed(rows, l) ==> Entry(l, StarterRevision(l)) in more
  {
    var added := MissingRows(rows, locales);
    MissingRowsAreMissing(rows, locales);
    MissingRowsUnique(rows, locales);
    EntriesOfStarters(added);
    EntriesUnique(added);
    forall e | e in Entries(added) ensures !Registered(Entries(rows), e.locale) {
      assert StarterRow(e.locale) in added;
      RegisteredIffListed(rows, e.locale);
    }
  }

  /** What the locale loop adds: under each starter locale that is not shown a first, ready, enabled draft. */
  lemma RowsAdded(rows: seq<LocaleRow>, row: LocaleRow)
    ensures row in MissingRows(rows, STARTER_LOCALES) <==>
              && row.locale in {"en", "zh-CN", "es", "fr", "de", "it", "tr", "pl", "ja"}
              && (forall r :: r in rows && r.locale == row.locale ==> r.draft.None? && r.published.None?)
              && row.head == 1 && row.published == None
              && row.draft == Some(if row.locale == "en" then Revision(None, true, true, State.Ready)
                                   else Revision(Some("en"), true, false, State.Ready))
  {
    MissingRowsAreMissing(rows, STARTER_LOCALES);
    assert row.locale in STARTER_LOCALES <==>
             row.locale in {"en", "zh-CN", "es", "fr", "de", "it", "tr", "pl", "ja"};
    assert Listed(rows, row.locale) <==> exists r :: r in rows && Visible(r) && r.locale == row.locale;
    assert row == StarterRow(row.locale) <==>
             && row.head == 1 && row.published == None && row.draft == Some(StarterRevision(row.locale));
  }

  /** The registry survives the locale loop exactly when it already had the starter default locale. */
  lemma RegistrySurvivesIffDefaultListed(rows: seq<LocaleRow>)
    requires RegistryOk(Entries(rows))
    ensures RegistryOk(Entries(rows + MissingRows(rows, STARTER_LOCALES))) <==> Listed(rows, DEFAULT_LOCALE)
  {
    var entries, more := Entries(rows), Entries(MissingRows(rows, STARTER_LOCALES));
    EntriesJoin(rows, MissingRows(rows, STARTER_LOCALES));
    MissingAreStarters(rows, STARTER_LOCALES);
    RegisteredIffListed(rows, DEFAULT_LOCALE);
    if Listed(rows, DEFAULT_LOCALE) {
      assert Leaning(entries, more);
      LeaningStaysOk(entries, more);
    } else {
      assert STARTER_LOCALES[0] == DEFAULT_LOCALE;
      SecondDefaultBreaks(entries, more, Entry(DEFAULT_LOCALE, StarterRevision(DEFAULT_LOCALE)));
    }
  }

  // ----- the preview

  datatype Class = Unsupported | Absent | Differing | Complete | Incomplete

  /** How the preview counts one record. */
  function Classify(definitions: set<PageKind>, store: Store, r: Record): Class {
    if !Supported(definitions, r) then Unsupported
    else
      match Current(store, r.key)
      case None => Absent
      case Some(current) =>
        if !Same(current.body, r.body) then Differing else if Live(current.state) then Complete else Incomplete
  }

  function CountOf(definitions: set<PageKind>, store: Store, records: seq<Record>, c: Class): (n: nat)
    ensures n <= |records|
  {
    if records == [] then 0
    else
      CountOf(definitions, store, records[..|records| - 1], c)
      + if Classify(definitions, store, records[|records| - 1]) == c then 1 else 0
  }

  lemma {:induction false} CountIsFull(definitions: set<PageKind>, store: Store, records: seq<Record>, c: Class)
    ensures CountOf(definitions, store, records, c) == |records|
            <==> forall i :: 0 <= i < |records| ==> Classify(definitions, store, records[i]) == c
  {
    if records != [] {
      var n := |records| - 1;
      CountIsFull(definitions, store, records[..n], c);
      assert forall i :: 0 <= i < n ==> records[..n][i] == records[i];
    }
  }

  function OfClass(definitions: set<PageKind>, store: Store, records: seq<Record>, c: Class): set<nat> {
    set i: nat | i < |records| && Classify(definitions, store, records[i]) == c
  }

  lemma OfClassGrow(definitions: set<PageKind>, store: Store, records: seq<Record>, r: Record, c: Class)
    ensures |OfClass(definitions, store, records + [r], c)|
         == |OfClass(definitions, store, records, c)| + if Classify(definitions, store, r) == c then 1 else 0
  {
    assert OfClass(definitions, store, records + [r], c)
        == OfClass(definitions, store, records, c)
           + if Classify(definitions, store, r) == c then {|records|} else {};
  }

  lemma {:induction false} CountOfIsSize(definitions: set<PageKind>, store: Store, records: seq<Record>, c: Class)
    ensures CountOf(definitions, store, records, c)
            == |OfClass(definitions, store, records, c)|
  {
    if records != [] {
      var before, last := records[..|records| - 1], records[|records| - 1];
      CountOfIsSize(definitions, store, before, c);
      assert records == before + [last];
      OfClassGrow(definitions, store, before, last, c);
    }
  }

  /** The counters of one loop: what is shown at all, what is settled, and what has the text in another state. */
  lemma CountersMean(definitions: set<PageKind>, store: Store, records: seq<Record>, tally: Tally)
    requires Tells(definitions, store, records, tally)
    ensures tally.ready == |set i: nat | i < |records| && Supported(definitions, records[i])
                                           && Settled(store, records[i])|
    ensures tally.pending == |set i: nat | i < |records| && Supported(definitions, records[i])
                                             && ShowsText(store, records[i]) && !Settled(store, records[i])|
    ensures forall key :: key in tally.conflicts <==>
              exists r :: r in records && r.key == key
                && (!Supported(definitions, r) || (Current(store, key).Some? && !ShowsText(store, r)))
  {
    CountOfIsSize(definitions, store, records, Complete);
    CountOfIsSize(definitions, store, records, Incomplete);
    forall r
      ensures Classify(definitions, store, r) == Complete <==> Supported(definitions, r) && Settled(store, r)
      ensures Classify(definitions, store, r) == Incomplete <==>
                Supported(definitions, r) && ShowsText(store, r) && !Settled(store, r)
      ensures Classify(definitions, store, r) in {Unsupported, Differing} <==>
                !Supported(definitions, r) || (Current(store, r.key).Some? && !ShowsText(store, r))
    {
      InPlaceIffSettled(store, r);
      if Current(store, r.key).Some? {
        SameIffShowsText(store, r);
      }
    }
    assert OfClass(definitions, store, records, Complete)
        == set i: nat | i < |records| && Supported(definitions, records[i]) && Settled(store, records[i]);
    assert OfClass(definitions, store, records, Incomplete)
        == set i: nat | i < |records| && Supported(definitions, records[i])
                        && ShowsText(store, records[i]) && !Settled(store, records[i]);
  }

  lemma SameIffShowsText(store: Store, r: Record)
    requires Current(store, r.key).Some?
    ensures Same(Current(store, r.key).value.body, r.body) <==> ShowsText(store, r)
  {
    var shown := Current(store, r.key);
    if r.body.SharedBody? && shown.value.body.SharedBody? {
      assert shown.value.body == SharedBody(shown.value.body.localized, shown.value.body.integrations);
    }
  }

  datatype Tally = Tally(existing: nat, ready: nat, pending: nat, conflicts: set<Key>, unsupported: bool)

  predicate AllSupported(definitions: set<PageKind>, records: seq<Record>) {
    forall i :: 0 <= i < |records| ==> Supported(definitions, records[i])
  }

  /** What the counters of one loop mean. */
  ghost predicate Tells(definitions: set<PageKind>, store: Store, records: seq<Record>, tally: Tally) {
    && tally.ready == CountOf(definitions, store, records, Complete)
    && tally.pending == CountOf(definitions, store, records, Incomplete)
    && tally.existing == tally.ready + tally.pending + CountOf(definitions, store, records, Differing)
    && (tally.unsupported <==> !AllSupported(definitions, records))
    && forall key :: key in tally.conflicts <==>
         exists r :: r in records && r.key == key && Classify(definitions, store, r) in {Unsupported, Differing}
  }

  /** One counting loop of the preview. */
  method Count(definitions: set<PageKind>, store: Store, records: seq<Record>) returns (tally: Tally)
    ensures Tells(definitions, store, records, tally)
  {
    tally := Tally(0, 0, 0, {}, false);
    for i := 0 to |records|
      invariant Tells(definitions, store, records[..i], tally)
    {
      var record := records[i];
      assert records[..i + 1] == records[..i] + [record];
      assert records[..i + 1][..i] == records[..i];
      if !Supported(definitions, record) {
        tally := tally.(conflicts := tally.conflicts + {record.key}, unsupported := true);
        assert !Supported(definitions, records[..i + 1][i]);
      } else {
        var current := Current(store, record.key);
        if current.Some? {
          tally := tally.(existing := tally.existing + 1);
          if !Same(current.value.body, record.body) {
            tally := tally.(conflicts := tally.conflicts + {record.key});
          } else if Live(current.value.state) {
            tally := tally.(ready := tally.ready + 1);
          } else {
            tally := tally.(pending := tally.pending + 1);
          }
        }
      }
    }
    assert records[..|records|] == records;
  }

  datatype StarterState = BlockedPack | ReadyPack | PartialPack | EmptyPack

  datatype Preview = Preview(state: StarterState, pages: Tally, shared: Tally)

  predicate AllInPlaceIn(store: Store, records: seq<Record>) {
    forall i :: 0 <= i < |records| ==> InPlace(store, records[i])
  }

  predicate NonePresent(store: Store, records: seq<Record>) {
    forall i :: 0 <= i < |records| ==> Current(store, records[i].key).None?
  }

  predicate AllAccepted(store: Store, records: seq<Record>) {
    forall i :: 0 <= i < |records| ==> Accepted(store, records[i])
  }

  /** What the state of a preview says about the store. */
  ghost predicate StateTells(definitions: set<PageKind>, store: Store, pack: Pack, latest: bool, state: StarterState) {
    match state
    case BlockedPack => !AllSupported(definitions, pack.pages)
    case ReadyPack => AllSupported(definitions, pack.pages) && AllInPlaceIn(store, Records(pack))
    case PartialPack =>
      && AllSupported(definitions, pack.pages) && !AllInPlaceIn(store, Records(pack))
      && (latest || !NonePresent(store, Records(pack)))
    case EmptyPack =>
      && AllSupported(definitions, pack.pages) && !AllInPlaceIn(store, Records(pack))
      && !latest && NonePresent(store, Records(pack))
  }

  lemma ReadyCountTells(definitions: set<PageKind>, store: Store, records: seq<Record>)
    requires AllSupported(definitions, records)
    ensures CountOf(definitions, store, records, Complete) == |records| <==> AllInPlaceIn(store, records)
  {
    CountIsFull(definitions, store, records, Complete);
    assert forall i :: 0 <= i < |records| ==>
        (Classify(definitions, store, records[i]) == Complete <==> InPlace(store, records[i]));
  }

  lemma {:induction false} AbsentCountTells(definitions: set<PageKind>, store: Store, records: seq<Record>)
    requires AllSupported(definitions, records)
    ensures NonePresent(store, records) <==>
              && CountOf(definitions, store, records, Complete) == 0
              && CountOf(definitions, store, records, Incomplete) == 0
              && CountOf(definitions, store, records, Differing) == 0
  {
    if records != [] {
      AbsentCountTells(definitions, store, records[..|records| - 1]);
      assert forall i :: 0 <= i < |records| - 1 ==> records[..|records| - 1][i] == records[i];
    }
  }

  function StateOf(pack: Pack, pages: Tally, shared: Tally, latest: bool): StarterState {
    var complete := pages.ready == |pack.pages| && shared.ready == |pack.shared|;
    var anyExisting := pages.existing > 0 || shared.existing > 0;
    if pages.unsupported then BlockedPack
    else if complete then ReadyPack
    else if anyExisting || latest then PartialPack
    else EmptyPack
  }

  /** The state computed from the counters says what it should about the store. */
  lemma StateOfTells(definitions: set<PageKind>, store: Store, pack: Pack, pages: Tally, shared: Tally, latest: bool)
    requires PackOk(pack) && Tells(definitions, store, pack.pages, pages)
    requires Tells(definitions, store, pack.shared, shared)
    ensures StateTells(definitions, store, pack, latest, StateOf(pack, pages, shared, latest))
  {
    if AllSupported(definitions, pack.pages) {
      ReadyCountTells(definitions, store, pack.pages);
      AbsentCountTells(definitions, store, pack.pages);
      ReadyCountTells(definitions, store, pack.shared);
      AbsentCountTells(definitions, store, pack.shared);
      SplitRecords(store, pack);
    }
  }

  datatype Reply =
    | Unavailable
    | Refused
    | Conflicted
    | RegistryBroken
    | Bootstrapped(pages: nat, shared: nat, preview: Preview)

  /** A locale whose head is there but not shown: its first draft was discarded. */
  predicate LocaleLeftBehind(rows: seq<LocaleRow>, locales: seq<Locale>) {
    exists l :: l in locales && !Listed(rows, l) && Stored(rows, l)
  }

  /** When a bootstrap completes. */
  ghost predicate Bootstrappable(definitions: set<PageKind>, rows: seq<LocaleRow>, store: Store, pack: Pack) {
    && RegistryOk(Entries(rows)) && Listed(rows, DEFAULT_LOCALE) && !LocaleLeftBehind(rows, STARTER_LOCALES)
    && AllSupported(definitions, pack.pages) && AllAccepted(store, Records(pack))
  }

  /** The content tables and the service over them. */
  class ContentRepository {
    var rows: seq<LocaleRow>
    var heads: Store

    constructor ()
      ensures rows == [] && heads == map[]
    {
      rows, heads := [], map[];
    }

    /** `savePageDraft` and `saveSharedDraft`. */
    method SaveDraft(key: Key, body: Body, expected: Option<nat>) returns (ok: bool)
      modifies `heads
      ensures ok <==> HeadRevision(old(heads), key) == expected
      ensures heads == if ok then old(heads)[key := Drafted(old(heads), key, State.Ready, body)] else old(heads)
    {
      ok := HeadRevision(heads, key) == expected;
      if ok {
        heads := heads[key := Drafted(heads, key, State.Ready, body)];
      }
    }

    /** `saveLocaleDraft` with no expected revision. */
    method SaveNewLocale(locale: Locale) returns (ok: bool)
      modifies `rows
      ensures ok <==> !Stored(old(rows), locale)
      ensures rows == if ok then old(rows) + [StarterRow(locale)] else old(rows)
    {
      ok := !Stored(rows, locale);
      if ok {
        rows := rows + [StarterRow(locale)];
      }
    }

    /** `getStarterPreview` */
    method GetStarterPreview(definitions: set<PageKind>, pack: Pack, latest: bool) returns (preview: Option<Preview>)
      requires PackOk(pack)
      ensures preview.None? <==> !RegistryOk(Entries(rows))
      ensures preview.Some? ==>
                && StateTells(definitions, heads, pack, latest, preview.value.state)
                && Tells(definitions, heads, pack.pages, preview.value.pages)
                && Tells(definitions, heads, pack.shared, preview.value.shared)
    {
      var ok := ValidateLocaleRegistry(Entries(rows));
      if !ok {
        return None;
      }
      var pages := Count(definitions, heads, pack.pages);
      var shared := Count(definitions, heads, pack.shared);
      StateOfTells(definitions, heads, pack, pages, shared, latest);
      return Some(Preview(StateOf(pack, pages, shared, latest), pages, shared));
    }

    /** One pass of the locale loop over the rows `before`. */
    method AddLocale(before: seq<LocaleRow>, ghost done: seq<Locale>, locale: Locale) returns (ok: bool)
      requires rows == before + MissingRows(before, done) && locale !in done
      modifies `rows
      ensures ok <==> Listed(before, locale) || !Stored(before, locale)
      ensures rows == if ok then before + MissingRows(before, done + [locale]) else old(rows)
    {
      assert (done + [locale])[..|done|] == done;
      if Listed(before, locale) {
        return true;
      }
      StoredLater(before, done, locale);
      ok := SaveNewLocale(locale);
    }

    /** The locale loop of the bootstrap. */
    method AddLocales(locales: seq<Locale>) returns (ok: bool)
      requires Distinct(locales)
      modifies `rows
      ensures ok <==> !LocaleLeftBehind(old(rows), locales)
      ensures old(rows) <= rows
      ensures ok ==> rows == old(rows) + MissingRows(old(rows), locales)
    {
      var view := rows;
      for i := 0 to |locales|
        invariant rows == view + MissingRows(view, locales[..i])
        invariant !LocaleLeftBehind(view, locales[..i])
      {
        assert locales[..i + 1] == locales[..i] + [locales[i]];
        ok := AddLocale(view, locales[..i], locales[i]);
        if !ok {
          assert locales[i] in locales;
          return;
        }
      }
      assert locales[..|locales|] == locales;
      ok := true;
    }

    /** One pass of the record loops; `done` has been applied since the view was taken. */
    method ApplyRecord(view: Store, ghost done: seq<Record>, record: Record) returns (ok: bool, created: nat)
      requires heads == Applied(view, done) && forall r :: r in done ==> r.key != record.key
      modifies `heads
      ensures ok <==> Accepted(view, record)
      ensures heads == if ok then Applied(view, done + [record]) else old(heads)
      ensures created == if ok && !InPlace(view, record) then 1 else 0
    {
      assert (done + [record])[..|done|] == done;
      if InPlace(view, record) {
        return true, 0;
      }
      OthersUntouched(view, done, record.key);
      var current := Current(view, record.key);
      var expected := if current.Some? then Some(current.value.revision) else None;
      ok := SaveDraft(record.key, Merged(current, record), expected);
      created := if ok then 1 else 0;
    }

    /** The page loop and the shared-content loop: `earlier` has been applied since the view was taken. */
    method ApplyRecords(view: Store, ghost earlier: seq<Record>, records: seq<Record>) returns (ok: bool, created: nat)
      requires UniqueKeys(earlier + records) && heads == Applied(view, earlier)
      modifies `heads
      ensures ok <==> AllAccepted(view, records)
      ensures ok ==> heads == Applied(view, earlier + records) && created == Pending(view, records)
      ensures !ok ==> StoppedIn(view, earlier + records, heads)
    {
      created := 0;
      assert earlier + records[..0] == earlier;
      for i := 0 to |records|
        invariant heads == Applied(view, earlier + records[..i]) && created == Pending(view, records[..i])
        invariant AllAccepted(view, records[..i])
      {
        PrefixSteps(earlier, records, i);
        var one: nat;
        ok, one := ApplyRecord(view, earlier + records[..i], records[i]);
        if !ok {
          assert (earlier + records)[..|earlier| + i] == earlier + records[..i];
          return;
        }
        created := created + one;
      }
      assert records[..|records|] == records;
      ok := true;
    }

    /** The two record loops. */
    method ApplyPack(first: seq<Record>, second: seq<Record>) returns (ok: bool, pages: nat, shared: nat)
      requires UniqueKeys(first + second) && UniqueKeys(first)
      modifies `heads
      ensures ok <==> AllAccepted(old(heads), first) && AllAccepted(old(heads), second)
      ensures ok ==> heads == Applied(old(heads), first + second)
      ensures ok ==> pages == Pending(old(heads), first) && shared == Pending(old(heads), second)
      ensures !ok ==> StoppedIn(old(heads), first + second, heads)
    {
      ghost var none: seq<Record> := [];
      var view := heads;
      shared := 0;
      assert none + first == first;
      ok, pages := ApplyRecords(view, none, first);
      if !ok {
        StoppedEarlier(view, first, second, heads);
        return;
      }
      ok, shared := ApplyRecords(view, first, second);
    }

    /** The three loops of the bootstrap. */
    method Install(pack: Pack) returns (ok: bool, pages: nat, shared: nat)
      requires PackOk(pack)
      modifies this
      ensures ok <==> !LocaleLeftBehind(old(rows), STARTER_LOCALES) && AllAccepted(old(heads), Records(pack))
      ensures ok ==> rows == old(rows) + MissingRows(old(rows), STARTER_LOCALES)
      ensures ok ==> heads == Applied(old(heads), Records(pack)) && AllInPlaceIn(heads, Records(pack))
      ensures ok ==> pages == Pending(old(heads), pack.pages) && shared == Pending(old(heads), pack.shared)
      ensures !ok ==> heads == old(heads) || StoppedIn(old(heads), Records(pack), heads)
      ensures StoreOk(old(heads)) ==> StoreOk(heads)
    {
      ghost var view := heads;
      pages, shared := 0, 0;
      ok := AddLocales(STARTER_LOCALES);
      if !ok {
        return;
      }
      UniqueInPrefix(pack);
      SplitRecords(view, pack);
      ok, pages, shared := ApplyPack(pack.pages, pack.shared);
      if StoreOk(view) {
        WrittenHeadsOk(view, Records(pack), heads, ok);
      }
      if ok {
        forall i | 0 <= i < |Records(pack)| ensures InPlace(heads, Records(pack)[i]) {
          AllInPlace(view, Records(pack), i);
        }
      }
    }

    /**
     `bootstrapStarterContent`. It completes exactly when the starter pages are supported, no write meets a
     head left behind by a discard, and the registry already had the starter default; the preview is then
     ready. Without the default the locale loop leaves a registry that no later view accepts.
     */
    method BootstrapStarterContent(definitions: set<PageKind>, pack: Pack, latest: bool) returns (reply: Reply)
      requires PackOk(pack)
      modifies this
      ensures reply.Unavailable? <==> !RegistryOk(Entries(old(rows)))
      ensures reply.Refused? <==> RegistryOk(Entries(old(rows))) && !AllSupported(definitions, pack.pages)
      ensures reply.Unavailable? || reply.Refused? ==> rows == old(rows) && heads == old(heads)
      ensures reply.Bootstrapped? <==> Bootstrappable(definitions, old(rows), old(heads), pack)
      ensures reply.Bootstrapped? || reply.RegistryBroken? ==>
                && rows == old(rows) + MissingRows(old(rows), STARTER_LOCALES)
                && heads == Applied(old(heads), Records(pack))
      ensures reply.Bootstrapped? ==>
                && reply.preview.state == ReadyPack
                && reply.pages == Pending(old(heads), pack.pages) && reply.shared == Pending(old(heads), pack.shared)
      ensures reply.RegistryBroken? ==> !RegistryOk(Entries(rows))
      ensures reply.RegistryBroken? ==> !Listed(old(rows), DEFAULT_LOCALE)
      ensures reply.Conflicted? <==>
                && RegistryOk(Entries(old(rows))) && AllSupported(definitions, pack.pages)
                && (LocaleLeftBehind(old(rows), STARTER_LOCALES) || !AllAccepted(old(heads), Records(pack)))
      ensures reply.Conflicted? ==> heads == old(heads) || StoppedIn(old(heads), Records(pack), heads)
      ensures StoreOk(old(heads)) ==> StoreOk(heads)
    {
      var before := GetStarterPreview(definitions, pack, latest);
      if before.None? {
        return Unavailable;
      }
      if before.value.state == BlockedPack {
        return Refused;
      }
      RegistrySurvivesIffDefaultListed(rows);
      var ok, pages, shared := Install(pack);
      if !ok {
        return Conflicted;
      }
      var after := GetStarterPreview(definitions, pack, latest);
      if after.None? {
        return RegistryBroken;
      }
      return Bootstrapped(pages, shared, after.value);
    }
  }

  lemma SplitRecords(store: Store, pack: Pack)
    ensures AllInPlaceIn(store, Records(pack)) <==> AllInPlaceIn(store, pack.pages) && AllInPlaceIn(store, pack.shared)
    ensures NonePresent(store, Records(pack)) <==> NonePresent(store, pack.pages) && NonePresent(store, pack.shared)
    ensures AllAccepted(store, Records(pack)) <==> AllAccepted(store, pack.pages) && AllAccepted(store, pack.shared)
  {
    var all := Records(pack);
    assert forall i :: 0 <= i < |pack.pages| ==> all[i] == pack.pages[i];
    assert forall i :: 0 <= i < |pack.shared| ==> all[|pack.pages| + i] == pack.shared[i];
  }

  /** A loop that stopped early keeps the writes it had made. */
  ghost predicate StoppedIn(view: Store, records: seq<Record>, now: Store) {
    exists i :: 0 <= i < |records| && now == Applied(view, records[..i])
  }

  lemma StoppedEarlier(view: Store, records: seq<Record>, more: seq<Record>, now: Store)
    requires StoppedIn(view, records, now)
    ensures StoppedIn(view, records + more, now)
  {
    var i :| 0 <= i < |records| && now == Applied(view, records[..i]);
    assert (records + more)[..i] == records[..i];
  }

  lemma UniqueInPrefix(pack: Pack)
    requires PackOk(pack)
    ensures UniqueKeys(pack.pages)
  {
    assert forall i :: 0 <= i < |pack.pages| ==> Records(pack)[i] == pack.pages[i];
  }

  lemma StoredLater(rows: seq<LocaleRow>, done: seq<Locale>, locale: Locale)
    requires locale !in done
    ensures Stored(rows + MissingRows(rows, done), locale) <==> Stored(rows, locale)
  {
    MissingRowsAreMissing(rows, done);
    if row :| row in rows && row.locale == locale {
      assert row in rows + MissingRows(rows, done);
    }
  }

  lemma PrefixSteps(earlier: seq<Record>, records: seq<Record>, i: nat)
    requires UniqueKeys(earlier + records) && i < |records|
    ensures earlier + records[..i + 1] == earlier + records[..i] + [records[i]]
    ensures records[..i + 1] == records[..i] + [records[i]] && records[..i + 1][..i] == records[..i]
    ensures forall r :: r in earlier + records[..i] ==> r.key != records[i].key
  {
    var all := earlier + records;
    assert all[|earlier| + i] == records[i];
    forall r | r in earlier + records[..i] ensures r.key != records[i].key {
      var j :| 0 <= j < |earlier| + i && (earlier + records[..i])[j] == r;
      assert all[j] == r;
    }
  }

  lemma {:induction false} NothingMissing(rows: seq<LocaleRow>, locales: seq<Locale>)
    requires forall l :: l in locales ==> Listed(rows, l)
    ensures MissingRows(rows, locales) == [] && !LocaleLeftBehind(rows, locales)
  {
    if locales != [] {
      NothingMissing(rows, locales[..|locales| - 1]);
    }
  }

  lemma AllListedAfter(rows: seq<LocaleRow>, locales: seq<Locale>)
    ensures forall l :: l in locales ==> Listed(rows + MissingRows(rows, locales), l)
  {
    MissingRowsAreMissing(rows, locales);
    forall l | l in locales ensures Listed(rows + MissingRows(rows, locales), l) {
      if row :| row in rows && Visible(row) && row.locale == l {
        assert row in rows + MissingRows(rows, locales);
      } else {
        assert StarterRow(l) in rows + MissingRows(rows, locales);
      }
    }
  }

  /**
   One completed bootstrap settles the starter content: the next one completes too, adds no locale, writes no page
   or shared content, and so leaves both tables as they are.
   */
  lemma SecondBootstrapWritesNothing(definitions: set<PageKind>, rows: seq<LocaleRow>, store: Store, pack: Pack)
    requires PackOk(pack) && Bootstrappable(definitions, rows, store, pack)
    ensures var rowsAfter := rows + MissingRows(rows, STARTER_LOCALES);
            var after := Applied(store, Records(pack));
            && Bootstrappable(definitions, rowsAfter, after, pack)
            && rowsAfter + MissingRows(rowsAfter, STARTER_LOCALES) == rowsAfter
            && Applied(after, Records(pack)) == after && Pending(after, Records(pack)) == 0
  {
    var rowsAfter := rows + MissingRows(rows, STARTER_LOCALES);
    AllListedAfter(rows, STARTER_LOCALES);
    NothingMissing(rowsAfter, STARTER_LOCALES);
    assert STARTER_LOCALES[0] == DEFAULT_LOCALE;
    RegistrySurvivesIffDefaultListed(rows);
    ApplyingTwiceIsOnce(store, Records(pack));
    forall i | 0 <= i < |Records(pack)| ensures Accepted(Applied(store, Records(pack)), Records(pack)[i]) {
      AllInPlace(store, Records(pack), i);
    }
  }

  /** Whether the loops came to their end or stopped, the heads they leave are in order. */
  lemma WrittenHeadsOk(view: Store, records: seq<Record>, now: Store, ok: bool)
    requires StoreOk(view) && (if ok then now == Applied(view, records) else StoppedIn(view, records, now))
    ensures StoreOk(now)
  {
    if ok {
      WritesKeepHeads(view, records);
    } else {
      var i :| 0 <= i < |records| && now == Applied(view, records[..i]);
      WritesKeepHeads(view, records[..i]);
    }
  }

  /** The repository takes all writes exactly when no record that needs one has a head left behind by a discard. */
  lemma AcceptedIffNoneLeftBehind(store: Store, records: seq<Record>)
    requires StoreOk(store)
    ensures AllAccepted(store, records)
            <==> forall r :: r in records && r.key in store && LeftBehind(store[r.key]) ==> InPlace(store, r)
  {
    forall i | 0 <= i < |records|
      ensures Accepted(store, records[i])
              <==> (records[i].key in store && LeftBehind(store[records[i].key]) ==> InPlace(store, records[i]))
    {
      StaleIffLeftBehind(store, records[i].key);
    }
    if AllAccepted(store, records) {
      forall r | r in records && r.key in store && LeftBehind(store[r.key]) ensures InPlace(store, r) {
        var i :| 0 <= i < |records| && records[i] == r;
        assert Accepted(store, records[i]);
      }
    }
  }

  /**
   A whole bootstrap refused by one discard: the registry and the pages are in order, the first draft of
   the homepage was discarded, and its write meets a head that the view does not show.
   */
  lemma DiscardBlocksBootstrap() returns (rows: seq<LocaleRow>, store: Store, definitions: set<PageKind>, pack: Pack)
    ensures PackOk(pack) && StoreOk(store) && RegistryOk(Entries(rows)) && Listed(rows, DEFAULT_LOCALE)
    ensures AllSupported(definitions, pack.pages) && !LocaleLeftBehind(rows, STARTER_LOCALES)
    ensures !AllAccepted(store, Records(pack)) && !Bootstrappable(definitions, rows, store, pack)
  {
    var r := Record(PageKey("page_home", DEFAULT_LOCALE), PageBody("homepage", None, "", ""));
    var shown := Revision(None, true, true, State.Published);
    rows := [LocaleRow(DEFAULT_LOCALE, 1, None, Some(shown))];
    store := map[r.key := Head(1, None, None)];
    definitions := {PageKind("page_home", "homepage", None)};
    pack := Pack([r], []);
    assert Entries(rows) == [Entry(DEFAULT_LOCALE, shown)];
    SingleLocaleOk(Entry(DEFAULT_LOCALE, shown));
    assert rows[0] in rows;
    assert Records(pack)[0] == r && !Accepted(store, r);
  }

  lemma SingleLocaleOk(e: Entry)
    requires e.effective.isDefault && e.effective.fallback == None
    ensures RegistryOk([e])
  {
    assert Nth([e], Some(e.locale), 0) == Some(e.locale);
    assert Nth([e], Some(e.locale), 1) == None;
    assert [e][0].effective.isDefault;
  }
}
