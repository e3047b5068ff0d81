/**
 Every sequence of locale commands on the tables as they are delivered
 (infra/migrations/0011_owner_control_plane.sql): drafts, discards and publications of
 apps/admin-api/src/content-management-service.ts, and the locale loop of its bootstrap.
 */
module LocaleCommands {
  import opened Content
  import opened StarterContent
  import opened Wrappers
  import Publication

  const SEEDED: seq<LocaleRow> := [
    LocaleRow(DEFAULT_LOCALE, 1, None, Some(Revision(None, true, true, State.Published))),
    LocaleRow("zh-CN", 1, None, Some(Revision(Some(DEFAULT_LOCALE), true, false, State.Published)))]

  /**
   `current` says that the revisions the command expects are those of the head. A publication may be blocked,
   and `Bootstrap` may stop after some locales.
   */
  datatype Command =
    | Save(locale: Locale, revision: Revision, current: bool)
    | Discard(locale: Locale, current: bool)
    | Publish(blocked: bool)
    | Bootstrap(locales: nat)

  /** The rows after a draft was saved: a new head in the locale's row, or a new row. */
  function WithDraft(rows: seq<LocaleRow>, locale: Locale, revision: Revision): seq<LocaleRow> {
    if rows == [] then [LocaleRow(locale, 1, Some(revision), None)]
    else if rows[0].locale == locale then [rows[0].(head := rows[0].head + 1, draft := Some(revision))] + rows[1..]
    else [rows[0]] + WithDraft(rows[1..], locale, revision)
  }

  /**
   `saveLocale`: a default has no fallback, a published default keeps its place, and the registry must be in
   order before and after.
   */
  ghost predicate SaveAccepted(rows: seq<LocaleRow>, locale: Locale, revision: Revision, current: bool) {
    && current && (revision.state == State.Draft || revision.state == State.Ready)
    && revision.fallback != Some(locale) && (revision.isDefault ==> revision.fallback == None)
    && (forall row :: row in rows && row.locale == locale && row.published.Some? && row.published.value.isDefault ==>
          revision.isDefault && revision.enabled)
    && RegistryOk(Entries(rows)) && RegistryOk(Entries(WithDraft(rows, locale, revision)))
  }

  function WithoutDraft(row: LocaleRow, locale: Locale): LocaleRow {
    if row.locale == locale then row.(draft := None) else row
  }

  /** Publishing promotes ready drafts. */
  function Promoted(row: LocaleRow): LocaleRow {
    if row.draft.Some? && row.draft.value.state == State.Ready
    then row.(published := Some(row.draft.value.(state := State.Published)), draft := None)
    else row
  }

  /** The table refuses a revision that is published and disabled, and with it the whole publication. */
  predicate Storable(rows: seq<LocaleRow>) {
    forall row :: row in rows && row.draft.Some? && row.draft.value.state == State.Ready ==> row.draft.value.enabled
  }

  function Mapped(rows: seq<LocaleRow>, f: LocaleRow -> LocaleRow): seq<LocaleRow> {
    seq(|rows|, i requires 0 <= i < |rows| => f(rows[i]))
  }

  ghost function After(rows: seq<LocaleRow>, c: Command): seq<LocaleRow> {
    match c
    case Save(locale, revision, current) =>
      if SaveAccepted(rows, locale, revision, current) then WithDraft(rows, locale, revision) else rows
    case Discard(locale, current) => if current then Mapped(rows, row => WithoutDraft(row, locale)) else rows
    case Publish(blocked) =>
      if !blocked && RegistryOk(Entries(rows)) && Storable(rows) then Mapped(rows, Promoted) else rows
    case Bootstrap(n) =>
      if RegistryOk(Entries(rows)) && n <= |STARTER_LOCALES| && !LocaleLeftBehind(rows, STARTER_LOCALES[..n])
      then rows + MissingRows(rows, STARTER_LOCALES[..n])
      else rows
  }

  ghost function Run(commands: seq<Command>): seq<LocaleRow> {
    if commands == [] then SEEDED else After(Run(commands[..|commands| - 1]), commands[|commands| - 1])
  }

  // ----- the seeded default stays

  predicate Fixed(revision: Revision) {
    revision.isDefault && revision.enabled
  }

  /** The starter default is published, enabled and default, in its draft too; no other row is default anywhere. */
  predicate RowOk(row: LocaleRow) {
    if row.locale == DEFAULT_LOCALE then
      && row.published.Some? && Fixed(row.published.value)
      && (row.draft.Some? ==> Fixed(row.draft.value))
    else
      && (row.published.Some? ==> !row.published.value.isDefault)
      && (row.draft.Some? ==> !row.draft.value.isDefault)
  }

  predicate RowsOk(rows: seq<LocaleRow>) {
    Stored(rows, DEFAULT_LOCALE) && forall row :: row in rows ==> RowOk(row)
  }

  lemma OkIsListed(rows: seq<LocaleRow>)
    requires RowsOk(rows)
    ensures Listed(rows, DEFAULT_LOCALE)
  {
    var row :| row in rows && row.locale == DEFAULT_LOCALE;
    assert RowOk(row);
  }

  /** A row of the locale with this published revision. */
  predicate HadPublished(rows: seq<LocaleRow>, locale: Locale, published: Option<Revision>) {
    exists row :: row in rows && row.locale == locale && row.published == published
  }

  lemma {:induction false} WithDraftMeaning(rows: seq<LocaleRow>, locale: Locale, revision: Revision)
    ensures var after := WithDraft(rows, locale, revision);
            && (forall row :: row in rows && row.locale != locale ==> row in after)
            && (exists row :: row in after && row.locale == locale && row.draft == Some(revision))
            && forall row :: row in after && row !in rows ==>
                 && row.locale == locale && row.draft == Some(revision)
                 && (HadPublished(rows, locale, row.published) || (row.published == None && !Stored(rows, locale)))
  {
    var after := WithDraft(rows, locale, revision);
    if rows == [] {
      assert after[0].locale == locale && after[0] in after;
    } else {
      assert rows == [rows[0]] + rows[1..];
      if rows[0].locale == locale {
        assert after[0] in after;
      } else {
        WithDraftMeaning(rows[1..], locale, revision);
        var row :| row in WithDraft(rows[1..], locale, revision) && row.locale == locale && row.draft == Some(revision);
        assert row in after;
      }
    }
  }

  /** A registry has no second default. */
  lemma SecondDefaultRefused(rows: seq<LocaleRow>, a: LocaleRow, b: LocaleRow)
    requires a in rows && b in rows && Visible(a) && Visible(b) && a.locale != b.locale
    requires EntryOf(a).effective.isDefault && EntryOf(b).effective.isDefault
    ensures !RegistryOk(Entries(rows))
  {
    var entries := Entries(rows);
    assert EntryOf(a) in entries && EntryOf(b) in entries;
    var i :| 0 <= i < |entries| && entries[i] == EntryOf(a);
    var j :| 0 <= j < |entries| && entries[j] == EntryOf(b);
    assert i != j;
  }

  lemma SaveKeepsRows(rows: seq<LocaleRow>, locale: Locale, revision: Revision)
    requires RowsOk(rows) && SaveAccepted(rows, locale, revision, true)
    ensures RowsOk(WithDraft(rows, locale, revision))
  {
    var after := WithDraft(rows, locale, revision);
    WithDraftMeaning(rows, locale, revision);
    var default_ :| default_ in rows && default_.locale == DEFAULT_LOCALE;
    assert RowOk(default_);
    if locale != DEFAULT_LOCALE {
      var new_ :| new_ in after && new_.locale == locale && new_.draft == Some(revision);
      if revision.isDefault {
        SecondDefaultRefused(after, default_, new_);
      }
    }
  }

  lemma MappedKeepsRows(rows: seq<LocaleRow>, f: LocaleRow -> LocaleRow)
    requires RowsOk(rows) && forall row :: RowOk(row) ==> RowOk(f(row)) && f(row).locale == row.locale
    ensures RowsOk(Mapped(rows, f))
  {
    var row :| row in rows && row.locale == DEFAULT_LOCALE;
    var i :| 0 <= i < |rows| && rows[i] == row;
    assert Mapped(rows, f)[i] in Mapped(rows, f);
  }

  lemma BootstrapKeepsRows(rows: seq<LocaleRow>, n: nat)
    requires RowsOk(rows) && n <= |STARTER_LOCALES|
    ensures RowsOk(rows + MissingRows(rows, STARTER_LOCALES[..n]))
  {
    var added := MissingRows(rows, STARTER_LOCALES[..n]);
    MissingRowsAreMissing(rows, STARTER_LOCALES[..n]);
    OkIsListed(rows);
    var row :| row in rows && row.locale == DEFAULT_LOCALE;
    assert row in rows + added;
  }

  lemma StepKeepsRows(rows: seq<LocaleRow>, c: Command)
    requires RowsOk(rows)
    ensures RowsOk(After(rows, c))
  {
    match c {
      case Save(locale, revision, current) =>
        if SaveAccepted(rows, locale, revision, current) {
          SaveKeepsRows(rows, locale, revision);
        }
      case Discard(locale, _) => MappedKeepsRows(rows, row => WithoutDraft(row, locale));
      case Publish(_) => MappedKeepsRows(rows, Promoted);
      case Bootstrap(n) =>
        if n <= |STARTER_LOCALES| {
          BootstrapKeepsRows(rows, n);
        }
    }
  }

  lemma {:induction false} RunKeepsRows(commands: seq<Command>)
    ensures RowsOk(Run(commands))
  {
    if commands == [] {
      assert SEEDED[0] in SEEDED;
    } else {
      RunKeepsRows(commands[..|commands| - 1]);
      StepKeepsRows(Run(commands[..|commands| - 1]), commands[|commands| - 1]);
    }
  }

  lemma WithDraftUnique(rows: seq<LocaleRow>, locale: Locale, revision: Revision)
    requires UniqueRows(rows)
    ensures UniqueRows(WithDraft(rows, locale, revision))
  {
    if rows != [] && rows[0].locale != locale {
      WithDraftUnique(rows[1..], locale, revision);
      WithDraftMeaning(rows[1..], locale, revision);
      forall row | row in WithDraft(rows[1..], locale, revision) ensures row.locale != rows[0].locale {
      }
    }
  }

  lemma BootstrapUnique(rows: seq<LocaleRow>, n: nat)
    requires UniqueRows(rows) && n <= |STARTER_LOCALES| && !LocaleLeftBehind(rows, STARTER_LOCALES[..n])
    ensures UniqueRows(rows + MissingRows(rows, STARTER_LOCALES[..n]))
  {
    var locales := STARTER_LOCALES[..n];
    var added := MissingRows(rows, locales);
    MissingRowsAreMissing(rows, locales);
    MissingRowsUnique(rows, locales);
    forall i, j | 0 <= i < |rows| && 0 <= j < |added| ensures rows[i].locale != added[j].locale {
      assert added[j] in added && rows[i] in rows;
      assert !Stored(rows, added[j].locale);
    }
  }

  lemma MappedUnique(rows: seq<LocaleRow>, f: LocaleRow -> LocaleRow)
    requires UniqueRows(rows) && forall row :: f(row).locale == row.locale
    ensures UniqueRows(Mapped(rows, f))
  {
  }

  /** The tag is the key of the table. */
  lemma {:induction false} RunKeepsUnique(commands: seq<Command>)
    ensures UniqueRows(Run(commands))
  {
    if commands != [] {
      var rows := Run(commands[..|commands| - 1]);
      RunKeepsUnique(commands[..|commands| - 1]);
      match commands[|commands| - 1] {
        case Save(locale, revision, _) => WithDraftUnique(rows, locale, revision);
        case Discard(locale, _) => MappedUnique(rows, row => WithoutDraft(row, locale));
        case Publish(_) => MappedUnique(rows, Promoted);
        case Bootstrap(n) =>
          if n <= |STARTER_LOCALES| && !LocaleLeftBehind(rows, STARTER_LOCALES[..n]) {
            BootstrapUnique(rows, n);
          }
      }
    }
  }

  /** After every sequence of commands the starter default is shown, as the one default and enabled. */
  lemma DefaultAlwaysListed(commands: seq<Command>)
    ensures Listed(Run(commands), DEFAULT_LOCALE)
    ensures forall e :: e in Entries(Run(commands)) ==>
              (e.effective.isDefault <==> e.locale == DEFAULT_LOCALE) && (e.effective.isDefault ==> e.effective.enabled)
  {
    RunKeepsRows(commands);
    OkIsListed(Run(commands));
  }

  /** So the locale loop of the bootstrap never breaks a registry that these commands have led to. */
  lemma BootstrapNeverBreaks(commands: seq<Command>)
    requires RegistryOk(Entries(Run(commands)))
    ensures RegistryOk(Entries(Run(commands) + MissingRows(Run(commands), STARTER_LOCALES)))
  {
    DefaultAlwaysListed(commands);
    RegistrySurvivesIffDefaultListed(Run(commands));
  }

  /** And no published default ever hides behind a disabling draft. */
  lemma NoDefaultHidden(commands: seq<Command>, row: LocaleRow)
    requires row in Run(commands) && Publication.HiddenByDraft(LocaleState(row.locale, row.published, row.draft))
    ensures !row.published.value.isDefault
  {
    RunKeepsRows(commands);
    assert RowOk(row);
  }

  /** The rows hold these locales. */
  predicate Hold(rows: seq<LocaleRow>, locales: seq<LocaleState>) {
    forall l :: l in locales ==>
      exists row :: row in rows && row.locale == l.locale && row.published == l.published && row.draft == l.draft
  }

  /**
   A ready draft that disables its locale: nothing blocks the publication and its snapshot passes, but the
   table takes no published revision that is disabled, and the publication leaves all rows as they were.
   */
  lemma UnblockedYetNotStored(en: Locale, xx: Locale, platforms: seq<Publication.Platform>, rows: seq<LocaleRow>)
    requires en != xx && Publication.DistinctDefinitions(Publication.Definitions(platforms))
    requires Hold(rows, BesideDisabled(en, xx, platforms).heads.locales)
    ensures var view := BesideDisabled(en, xx, platforms);
            && Publication.ViewOk(view) && Publication.Unblocked(view)
            && Publication.ReferencesOk(Publication.Assemble(view))
    ensures After(rows, Publish(false)) == rows
  {
    Publication.DisabledDraftPasses(en, xx, platforms);
    var locales := BesideDisabled(en, xx, platforms).heads.locales;
    assert locales[1] in locales;
    assert !Storable(rows);
  }

  /** A published default and a locale that its first, ready draft disables. */
  function BesideDisabled(en: Locale, xx: Locale, platforms: seq<Publication.Platform>): Publication.View {
    Publication.Beside(en, LocaleState(xx, None, Some(Publication.DISABLED)), [], platforms)
  }

  // ----- a registry in which one locale changes

  /** The two registries differ in one locale at most. */
  ghost predicate DiffersAt(es: seq<Entry>, fs: seq<Entry>, xx: Locale) {
    forall e: Entry :: e.locale != xx ==> (e in es <==> e in fs)
  }

  /** That locale is shown with this revision, or not at all. */
  predicate Shows(fs: seq<Entry>, xx: Locale, p: Option<Revision>) {
    && (forall e :: e in fs && e.locale == xx ==> p == Some(e.effective))
    && (p.Some? ==> Entry(xx, p.value) in fs)
  }

  ghost predicate PointersAgree(es: seq<Entry>, fs: seq<Entry>, xx: Locale) {
    forall l :: l != xx ==> Pointer(es, l) == Pointer(fs, l)
  }

  lemma PointersStay(es: seq<Entry>, fs: seq<Entry>, xx: Locale)
    requires UniqueTags(es) && UniqueTags(fs) && DiffersAt(es, fs, xx)
    ensures PointersAgree(es, fs, xx)
  {
    forall l | l != xx ensures Pointer(es, l) == Pointer(fs, l) {
      if Registered(es, l) {
        var e :| e in es && e.locale == l;
        PointerOf(es, e);
        PointerOf(fs, e);
      } else {
        PointerIsStored(es, l);
        PointerIsStored(fs, l);
      }
    }
  }

  /** The chain never comes to `xx`. */
  ghost predicate Misses(es: seq<Entry>, start: Option<Locale>, xx: Locale) {
    forall n: nat :: Nth(es, start, n) != Some(xx)
  }

  lemma {:induction false} SameUntil(es: seq<Entry>, fs: seq<Entry>, xx: Locale, start: Option<Locale>, n: nat)
    requires PointersAgree(es, fs, xx) && forall m: nat :: m < n ==> Nth(es, start, m) != Some(xx)
    ensures Nth(fs, start, n) == Nth(es, start, n)
  {
    if n > 0 {
      SameUntil(es, fs, xx, start, n - 1);
      assert Nth(es, start, n - 1) != Some(xx);
    }
  }

  lemma {:induction false} FirstVisit(es: seq<Entry>, start: Option<Locale>, xx: Locale, n: nat) returns (m: nat)
    requires Nth(es, start, n) == Some(xx)
    ensures m <= n && Nth(es, start, m) == Some(xx) && forall k: nat :: k < m ==> Nth(es, start, k) != Some(xx)
  {
    if k: nat :| k < n && Nth(es, start, k) == Some(xx) {
      m := FirstVisit(es, start, xx, k);
    } else {
      m := n;
    }
  }

  lemma {:induction false} NthAdds(es: seq<Entry>, start: Option<Locale>, a: nat, b: nat)
    ensures Nth(es, start, a + b) == Nth(es, Nth(es, start, a), b)
  {
    if b > 0 {
      NthAdds(es, start, a, b - 1);
    }
  }

  /** If what `xx` points to now ends, every chain that ended before still does. */
  lemma ChainStillEnds(es: seq<Entry>, fs: seq<Entry>, xx: Locale, l: Locale, k: nat)
    requires PointersAgree(es, fs, xx) && ChainEnds(es, l) && Nth(fs, Pointer(fs, xx), k) == None
    ensures ChainEnds(fs, l)
  {
    var n: nat :| Nth(es, Some(l), n) == None;
    if visit: nat :| visit < n && Nth(es, Some(l), visit) == Some(xx) {
      var m := FirstVisit(es, Some(l), xx, visit);
      SameUntil(es, fs, xx, Some(l), m);
      assert Nth(fs, Some(l), m + 1) == Pointer(fs, xx);
      NthAdds(fs, Some(l), m + 1, k);
    } else {
      SameUntil(es, fs, xx, Some(l), n);
    }
  }

  /** If what `xx` points to now comes back to it, its chain never ends. */
  lemma ComesBack(es: seq<Entry>, fs: seq<Entry>, xx: Locale, n: nat)
    requires PointersAgree(es, fs, xx) && Nth(es, Pointer(fs, xx), n) == Some(xx)
    ensures !ChainEnds(fs, xx)
  {
    var m := FirstVisit(es, Pointer(fs, xx), xx, n);
    SameUntil(es, fs, xx, Pointer(fs, xx), m);
    NthShift(fs, xx, m);
    RepeatNeverEnds(fs, xx, 0, m + 1);
  }

  /** Nobody falls back to a locale that is hidden; a revision that is shown falls back to a chain of others. */
  ghost predicate Safe(es: seq<Entry>, xx: Locale, p: Option<Revision>) {
    match p
    case None => forall e :: e in es && e.locale != xx ==> e.effective.fallback != Some(xx)
    case Some(revision) =>
      revision.fallback.Some? ==> Registered(es, revision.fallback.value) && Misses(es, revision.fallback, xx)
  }

  predicate IsOneDefault(es: seq<Entry>, d: Entry) {
    d in es && d.effective.isDefault && forall e :: e in es && e.effective.isDefault ==> e == d
  }

  lemma DefaultIsMember(es: seq<Entry>)
    requires HasUniqueDefault(es)
    ensures exists d :: IsOneDefault(es, d)
  {
    var i :| 0 <= i < |es| && es[i].effective.isDefault
             && forall j :: 0 <= j < |es| && es[j].effective.isDefault ==> j == i;
    assert IsOneDefault(es, es[i]);
  }

  lemma MemberIsDefault(es: seq<Entry>, d: Entry)
    requires UniqueTags(es) && IsOneDefault(es, d)
    ensures HasUniqueDefault(es)
  {
    var i :| 0 <= i < |es| && es[i] == d;
    forall j | 0 <= j < |es| && es[j].effective.isDefault ensures j == i {
      assert es[j] in es;
    }
  }

  /** The change keeps whatever part the locale had in being the default. */
  predicate DefaultKept(es: seq<Entry>, xx: Locale, p: Option<Revision>) {
    forall e :: e in es && e.locale == xx ==> (e.effective.isDefault <==> p.Some? && p.value.isDefault)
  }

  lemma OneDefaultStays(es: seq<Entry>, fs: seq<Entry>, xx: Locale, p: Option<Revision>, d: Entry)
    requires IsOneDefault(es, d) && Registered(es, xx)
    requires DiffersAt(es, fs, xx) && Shows(fs, xx, p) && DefaultKept(es, xx, p)
    ensures exists c :: IsOneDefault(fs, c)
  {
    var x :| x in es && x.locale == xx;
    var c := if d.locale == xx then Entry(xx, p.value) else d;
    forall e | e in fs && e.effective.isDefault ensures e == c {
      if e.locale != xx {
        assert e in es;
      }
    }
    assert IsOneDefault(fs, c);
  }

  lemma DefaultStays(es: seq<Entry>, fs: seq<Entry>, xx: Locale, p: Option<Revision>)
    requires RegistryOk(es) && Registered(es, xx) && UniqueTags(fs)
    requires DiffersAt(es, fs, xx) && Shows(fs, xx, p) && DefaultKept(es, xx, p)
    ensures HasUniqueDefault(fs)
  {
    DefaultIsMember(es);
    var d :| IsOneDefault(es, d);
    OneDefaultStays(es, fs, xx, p, d);
    var c :| IsOneDefault(fs, c);
    MemberIsDefault(fs, c);
  }

  lemma SafeKeepsChains(es: seq<Entry>, fs: seq<Entry>, xx: Locale, p: Option<Revision>)
    requires RegistryOk(es) && UniqueTags(fs) && DiffersAt(es, fs, xx) && Shows(fs, xx, p)
    requires Safe(es, xx, p) && PointersAgree(es, fs, xx)
    ensures exists k: nat :: Nth(fs, Pointer(fs, xx), k) == None
  {
    if p.Some? {
      PointerOf(fs, Entry(xx, p.value));
    } else {
      PointerIsStored(fs, xx);
    }
    if Pointer(fs, xx) == None {
      assert Nth(fs, Pointer(fs, xx), 0) == None;
    } else {
      var f := Pointer(fs, xx).value;
      var e :| e in es && e.locale == f;
      var k: nat :| Nth(es, Some(f), k) == None;
      SameUntil(es, fs, xx, Some(f), k);
    }
  }

  lemma SafeKeepsRegistry(es: seq<Entry>, fs: seq<Entry>, xx: Locale, p: Option<Revision>)
    requires RegistryOk(es) && Registered(es, xx) && UniqueTags(fs)
    requires DiffersAt(es, fs, xx) && Shows(fs, xx, p) && DefaultKept(es, xx, p) && Safe(es, xx, p)
    ensures RegistryOk(fs)
  {
    PointersStay(es, fs, xx);
    DefaultStays(es, fs, xx, p);
    SafeKeepsChains(es, fs, xx, p);
    var k: nat :| Nth(fs, Pointer(fs, xx), k) == None;
    var x :| x in es && x.locale == xx;
    forall e | e in fs
      ensures e.effective.fallback.Some? ==> Registered(fs, e.effective.fallback.value)
      ensures ChainEnds(fs, e.locale)
    {
      ChainStillEnds(es, fs, xx, e.locale, k);
      if e.effective.fallback.Some? {
        var target :| target in es && target.locale == e.effective.fallback.value;
        assert target.locale != xx ==> target in fs;
      }
    }
  }

  lemma KeptIsSafe(es: seq<Entry>, fs: seq<Entry>, xx: Locale, p: Option<Revision>)
    requires RegistryOk(es) && Registered(es, xx) && RegistryOk(fs) && DiffersAt(es, fs, xx) && Shows(fs, xx, p)
    ensures Safe(es, xx, p)
  {
    PointersStay(es, fs, xx);
    if p.Some? && p.value.fallback.Some? {
      var f := p.value.fallback.value;
      PointerOf(fs, Entry(xx, p.value));
      var target :| target in fs && target.locale == f;
      assert f != xx ==> target in es;
      forall n: nat ensures Nth(es, Some(f), n) != Some(xx) {
        if Nth(es, Some(f), n) == Some(xx) {
          ComesBack(es, fs, xx, n);
        }
      }
    }
  }

  // ----- what each command does to the registry

  lemma DiscardEntries(rows: seq<LocaleRow>, row: LocaleRow)
    requires UniqueRows(rows) && row in rows && row.draft.Some?
    ensures var es, fs := Entries(rows), Entries(After(rows, Discard(row.locale, true)));
            && UniqueTags(es) && UniqueTags(fs) && EntryOf(row) in es
            && DiffersAt(es, fs, row.locale) && Shows(fs, row.locale, row.published)
  {
    var after := After(rows, Discard(row.locale, true));
    EntriesUnique(rows);
    EntriesUnique(after);
    assert forall i :: 0 <= i < |rows| ==> after[i] == WithoutDraft(rows[i], row.locale);
    var at :| 0 <= at < |rows| && rows[at] == row;
    assert after[at] in after;
    forall r | r in after && r.locale == row.locale ensures r == after[at] {
      var i :| 0 <= i < |rows| && after[i] == r;
    }
    forall r: LocaleRow | r.locale != row.locale ensures r in rows <==> r in after {
      if r in rows {
        var i :| 0 <= i < |rows| && rows[i] == r;
        assert after[i] == r;
      }
      if r in after {
        var i :| 0 <= i < |rows| && after[i] == r;
        assert rows[i] == r;
      }
    }
    EntriesDiffer(rows, after, row.locale);
  }

  lemma EntriesDiffer(rows: seq<LocaleRow>, after: seq<LocaleRow>, xx: Locale)
    requires forall r: LocaleRow :: r.locale != xx ==> (r in rows <==> r in after)
    ensures DiffersAt(Entries(rows), Entries(after), xx)
  {
    forall e: Entry | e.locale != xx ensures e in Entries(rows) <==> e in Entries(after) {
      if e in Entries(rows) {
        var r :| r in rows && Visible(r) && e == EntryOf(r);
        assert r in after;
      }
      if e in Entries(after) {
        var r :| r in after && Visible(r) && e == EntryOf(r);
        assert r in rows;
      }
    }
  }

  /** A discard keeps a registry in order exactly when what it uncovers is safe to be shown. */
  lemma DiscardKeepsIff(rows: seq<LocaleRow>, row: LocaleRow)
    requires RowsOk(rows) && UniqueRows(rows) && RegistryOk(Entries(rows)) && row in rows && row.draft.Some?
    ensures RegistryOk(Entries(After(rows, Discard(row.locale, true))))
            <==> Safe(Entries(rows), row.locale, row.published)
  {
    var es, fs := Entries(rows), Entries(After(rows, Discard(row.locale, true)));
    DiscardEntries(rows, row);
    assert DefaultKept(es, row.locale, row.published) by {
      assert RowOk(row);
      forall e | e in es && e.locale == row.locale ensures e == EntryOf(row) {
      }
    }
    if Safe(es, row.locale, row.published) {
      SafeKeepsRegistry(es, fs, row.locale, row.published);
    } else if RegistryOk(fs) {
      KeptIsSafe(es, fs, row.locale, row.published);
    }
  }

  /** The same locales with the same pointers and the same default. */
  predicate SameShape(es: seq<Entry>, fs: seq<Entry>) {
    && |es| == |fs|
    && forall i :: 0 <= i < |es| ==> SameButState(es[i], fs[i])
  }

  predicate SameButState(e: Entry, f: Entry) {
    && e.locale == f.locale && e.effective.fallback == f.effective.fallback
    && e.effective.isDefault == f.effective.isDefault
  }

  lemma {:induction false} ShapeKeepsPointer(es: seq<Entry>, fs: seq<Entry>, l: Locale)
    requires SameShape(es, fs)
    ensures Pointer(es, l) == Pointer(fs, l)
  {
    if es != [] {
      assert SameButState(es[0], fs[0]);
      ShapeKeepsPointer(es[1..], fs[1..], l);
    }
  }

  lemma {:induction false} ShapeKeepsNth(es: seq<Entry>, fs: seq<Entry>, start: Option<Locale>, n: nat)
    requires SameShape(es, fs)
    ensures Nth(es, start, n) == Nth(fs, start, n)
  {
    if n > 0 {
      ShapeKeepsNth(es, fs, start, n - 1);
      var previous := Nth(es, start, n - 1);
      if previous.Some? {
        ShapeKeepsPointer(es, fs, previous.value);
      }
    }
  }

  lemma ShapeKeepsRegistry(es: seq<Entry>, fs: seq<Entry>)
    requires SameShape(es, fs) && RegistryOk(es)
    ensures RegistryOk(fs)
  {
    var i :| 0 <= i < |es| && es[i].effective.isDefault
             && forall j :: 0 <= j < |es| && es[j].effective.isDefault ==> j == i;
    assert SameButState(es[i], fs[i]);
    forall j | 0 <= j < |fs| && fs[j].effective.isDefault ensures j == i {
      assert SameButState(es[j], fs[j]);
    }
    forall f | f in fs
      ensures f.effective.fallback.Some? ==> Registered(fs, f.effective.fallback.value)
      ensures ChainEnds(fs, f.locale)
    {
      var k :| 0 <= k < |fs| && fs[k] == f;
      assert SameButState(es[k], f) && es[k] in es;
      var n: nat :| Nth(es, Some(f.locale), n) == None;
      ShapeKeepsNth(es, fs, Some(f.locale), n);
      if f.effective.fallback.Some? {
        var target :| target in es && target.locale == f.effective.fallback.value;
        var t :| 0 <= t < |es| && es[t] == target;
        assert SameButState(es[t], fs[t]) && fs[t] in fs;
      }
    }
  }

  lemma {:induction false} PromotedShape(rows: seq<LocaleRow>)
    ensures SameShape(Entries(rows), Entries(Mapped(rows, Promoted)))
  {
    if rows != [] {
      PromotedShape(rows[1..]);
      assert Mapped(rows, Promoted)[1..] == Mapped(rows[1..], Promoted);
      var es, fs := Entries(rows[1..]), Entries(Mapped(rows[1..], Promoted));
      if Visible(rows[0]) {
        assert SameButState(EntryOf(rows[0]), EntryOf(Promoted(rows[0])));
        assert Entries(rows) == [EntryOf(rows[0])] + es;
        assert Entries(Mapped(rows, Promoted)) == [EntryOf(Promoted(rows[0]))] + fs;
      }
    }
  }

  lemma BootstrapKeepsRegistry(rows: seq<LocaleRow>, n: nat)
    requires RowsOk(rows) && RegistryOk(Entries(rows)) && n <= |STARTER_LOCALES|
    ensures RegistryOk(Entries(rows + MissingRows(rows, STARTER_LOCALES[..n])))
  {
    var locales := STARTER_LOCALES[..n];
    OkIsListed(rows);
    RegisteredIffListed(rows, DEFAULT_LOCALE);
    EntriesJoin(rows, MissingRows(rows, locales));
    MissingAreStarters(rows, locales);
    assert Leaning(Entries(rows), Entries(MissingRows(rows, locales)));
    LeaningStaysOk(Entries(rows), Entries(MissingRows(rows, locales)));
  }

  lemma RunAppends(commands: seq<Command>, c: Command)
    ensures Run(commands + [c]) == After(Run(commands), c)
  {
    assert (commands + [c])[..|commands|] == commands;
  }

  /** What the command uncovers, if it discards a draft, is safe to be shown. */
  ghost predicate UncoversSafely(rows: seq<LocaleRow>, c: Command) {
    c.Discard? && c.current ==>
      forall row :: row in rows && row.locale == c.locale && row.draft.Some? ==>
        Safe(Entries(rows), c.locale, row.published)
  }

  lemma NothingToDiscard(rows: seq<LocaleRow>, xx: Locale)
    requires forall row :: row in rows && row.locale == xx ==> row.draft == None
    ensures After(rows, Discard(xx, true)) == rows
  {
    assert forall i :: 0 <= i < |rows| ==> rows[i] in rows;
  }

  /**
   After every sequence of commands that has led to a registry in order, the next command keeps it in order
   if and only if it is no discard, or what the discard uncovers is safe: the locale has no published revision
   and no shown locale falls back to it, or its published revision falls back to a registered locale whose
   chain does not come back.
   */
  lemma RegistryKeptIff(commands: seq<Command>, c: Command)
    requires RegistryOk(Entries(Run(commands)))
    ensures RegistryOk(Entries(Run(commands + [c]))) <==> UncoversSafely(Run(commands), c)
  {
    var rows := Run(commands);
    RunAppends(commands, c);
    RunKeepsRows(commands);
    RunKeepsUnique(commands);
    match c {
      case Save(_, _, _) =>
      case Discard(xx, current) =>
        if current {
          if row :| row in rows && row.locale == xx && row.draft.Some? {
            DiscardKeepsIff(rows, row);
          } else {
            NothingToDiscard(rows, xx);
          }
        }
      case Publish(_) =>
        PromotedShape(rows);
        ShapeKeepsRegistry(Entries(rows), Entries(Mapped(rows, Promoted)));
      case Bootstrap(n) =>
        if n <= |STARTER_LOCALES| {
          BootstrapKeepsRegistry(rows, n);
        }
    }
  }

  /** Once it is out of order every other command is refused. */
  lemma OnlyDiscardsRepair(commands: seq<Command>, c: Command)
    requires !RegistryOk(Entries(Run(commands))) && !c.Discard?
    ensures Run(commands + [c]) == Run(commands)
  {
    RunAppends(commands, c);
  }

  // ----- what a discard can do

  function Leaf(fallback: Locale): Revision {
    Revision(Some(fallback), true, false, State.Ready)
  }

  lemma EntriesOfOne(row: LocaleRow)
    requires Visible(row)
    ensures Entries([row]) == [EntryOf(row)]
  {
  }

  lemma SeededOk()
    ensures RegistryOk(Entries(SEEDED))
  {
    var a, b := SEEDED[0], SEEDED[1];
    EntriesOfOne(a);
    EntriesOfOne(b);
    EntriesJoin([a], [b]);
    assert SEEDED == [a] + [b];
    SingleLocaleOk(EntryOf(a));
    LeafJoins([EntryOf(a)], EntryOf(b), EntryOf(a));
  }

  lemma LeafJoins(entries: seq<Entry>, leaf: Entry, target: Entry)
    requires RegistryOk(entries) && target in entries && !Registered(entries, leaf.locale)
    requires !leaf.effective.isDefault && leaf.effective.fallback == Some(target.locale)
    ensures RegistryOk(entries + [leaf])
  {
    assert Leaning(entries, [leaf]);
    LeaningStaysOk(entries, [leaf]);
  }

  lemma NewLeafAccepted(rows: seq<LocaleRow>, locale: Locale, fallback: Locale)
    requires RegistryOk(Entries(rows)) && !Stored(rows, locale) && Listed(rows, fallback)
    ensures WithDraft(rows, locale, Leaf(fallback)) == rows + [LocaleRow(locale, 1, Some(Leaf(fallback)), None)]
    ensures SaveAccepted(rows, locale, Leaf(fallback), true)
    ensures Listed(rows + [LocaleRow(locale, 1, Some(Leaf(fallback)), None)], locale)
  {
    var row := LocaleRow(locale, 1, Some(Leaf(fallback)), None);
    AppendsRow(rows, locale, Leaf(fallback));
    EntriesJoin(rows, [row]);
    EntriesOfOne(row);
    RegisteredIffListed(rows, locale);
    RegisteredIffListed(rows, fallback);
    var target :| target in Entries(rows) && target.locale == fallback;
    LeafJoins(Entries(rows), EntryOf(row), target);
    assert row in rows + [row];
  }

  lemma {:induction false} AppendsRow(rows: seq<LocaleRow>, locale: Locale, revision: Revision)
    requires !Stored(rows, locale)
    ensures WithDraft(rows, locale, revision) == rows + [LocaleRow(locale, 1, Some(revision), None)]
  {
    if rows != [] {
      assert rows[0] in rows;
      assert forall row :: row in rows[1..] ==> row in rows;
      AppendsRow(rows[1..], locale, revision);
      assert rows == [rows[0]] + rows[1..];
    }
  }

  lemma SaveAddsLeaf(rows: seq<LocaleRow>, locale: Locale, fallback: Locale)
    requires RegistryOk(Entries(rows)) && !Stored(rows, locale) && Listed(rows, fallback)
    ensures var after := After(rows, Save(locale, Leaf(fallback), true));
            && after == rows + [LocaleRow(locale, 1, Some(Leaf(fallback)), None)]
            && RegistryOk(Entries(after)) && Listed(after, locale)
  {
    NewLeafAccepted(rows, locale, fallback);
  }

  lemma DiscardOfLeaf(a: seq<LocaleRow>, leaf: LocaleRow, b: seq<LocaleRow>)
    requires !Stored(a, leaf.locale) && !Stored(b, leaf.locale)
    ensures After(a + [leaf] + b, Discard(leaf.locale, true)) == a + [leaf.(draft := None)] + b
  {
    var rows := a + [leaf] + b;
    forall i | 0 <= i < |rows| && i != |a| ensures rows[i].locale != leaf.locale {
      assert if i < |a| then rows[i] in a else rows[i] in b;
    }
  }

  /** Two more locales, the second one falling back to the first. */
  function Adding(xx: Locale, yy: Locale): seq<Command> {
    [Save(xx, Leaf(DEFAULT_LOCALE), true)] + [Save(yy, Leaf(xx), true)]
  }

  lemma TwoAdded(commands: seq<Command>, xx: Locale, yy: Locale)
    requires RegistryOk(Entries(Run(commands)))
    requires xx != yy && !Stored(Run(commands), xx) && !Stored(Run(commands), yy)
    ensures RegistryOk(Entries(Run(commands + Adding(xx, yy))))
    ensures Run(commands + Adding(xx, yy))
         == Run(commands) + [LocaleRow(xx, 1, Some(Leaf(DEFAULT_LOCALE)), None)]
            + [LocaleRow(yy, 1, Some(Leaf(xx)), None)]
  {
    var rows := Run(commands);
    var rowX, one := LocaleRow(xx, 1, Some(Leaf(DEFAULT_LOCALE)), None), Adding(xx, yy)[0];
    DefaultAlwaysListed(commands);
    RunAppends(commands, one);
    RunAppends(commands + [one], Adding(xx, yy)[1]);
    assert commands + Adding(xx, yy) == commands + [one] + [Adding(xx, yy)[1]];
    SaveAddsLeaf(rows, xx, DEFAULT_LOCALE);
    assert !Stored(rows + [rowX], yy);
    SaveAddsLeaf(rows + [rowX], yy, xx);
  }

  lemma BothDiscarded(rows: seq<LocaleRow>, x: LocaleRow, y: LocaleRow)
    requires x.locale != y.locale && !Stored(rows, x.locale) && !Stored(rows, y.locale)
    requires x.published == None && y.published == None
    ensures Entries(After(After(rows + [x] + [y], Discard(x.locale, true)), Discard(y.locale, true))) == Entries(rows)
  {
    var x', y' := x.(draft := None), y.(draft := None);
    DiscardOfLeaf(rows, x, [y]);
    assert rows + [x'] + [y] == (rows + [x']) + [y] + [];
    assert !Stored(rows + [x'], y.locale);
    DiscardOfLeaf(rows + [x'], y, []);
    assert rows + [x'] + [y'] + [] == rows + [x'] + [y'];
    EntriesJoin(rows + [x'], [y']);
    EntriesJoin(rows, [x']);
    assert Entries([x']) == [] && Entries([y']) == [];
  }

  /**
   A discard looks at no other locale. Whatever came before: when two locales are added, the second one
   falling back to the first, and the first draft of the first is discarded, the registry is out of order and
   no view is given until the other draft is discarded too.
   */
  lemma DiscardBreaksRegistry(commands: seq<Command>, xx: Locale, yy: Locale)
    requires RegistryOk(Entries(Run(commands)))
    requires xx != yy && !Stored(Run(commands), xx) && !Stored(Run(commands), yy)
    ensures var added := commands + Adding(xx, yy);
            && RegistryOk(Entries(Run(added)))
            && !RegistryOk(Entries(Run(added + [Discard(xx, true)])))
            && RegistryOk(Entries(Run(added + [Discard(xx, true)] + [Discard(yy, true)])))
  {
    var added := commands + Adding(xx, yy);
    var rowX, rowY := LocaleRow(xx, 1, Some(Leaf(DEFAULT_LOCALE)), None), LocaleRow(yy, 1, Some(Leaf(xx)), None);
    TwoAdded(commands, xx, yy);
    assert rowX in Run(added) && rowY in Run(added) && EntryOf(rowY) in Entries(Run(added));
    RegistryKeptIff(added, Discard(xx, true));
    BothDiscarded(Run(commands), rowX, rowY);
    RunAppends(added, Discard(xx, true));
    RunAppends(added + [Discard(xx, true)], Discard(yy, true));
  }

  /** The delivered tables are such a start. */
  lemma DiscardBreaksDelivered()
    ensures RegistryOk(Entries(Run(Adding("xx", "yy"))))
    ensures !RegistryOk(Entries(Run(Adding("xx", "yy") + [Discard("xx", true)])))
  {
    SeededOk();
    DiscardBreaksRegistry([], "xx", "yy");
    assert [] + Adding("xx", "yy") == Adding("xx", "yy");
  }

  // ----- the other way to break it

  const ZH: Locale := "zh-CN"

  /** The delivered default with the rows of two other locales. */
  function Three(z: LocaleRow, y: LocaleRow): seq<LocaleRow> {
    [SEEDED[0], z, y]
  }

  /** Two shown locales that end at the default, directly or through each other. */
  predicate Ends(z: LocaleRow, y: LocaleRow) {
    && z.locale == ZH && y.locale != ZH && y.locale != DEFAULT_LOCALE && Visible(z) && Visible(y)
    && (z.published.Some? ==> !z.published.value.isDefault) && (y.published.Some? ==> !y.published.value.isDefault)
    && !EntryOf(z).effective.isDefault && !EntryOf(y).effective.isDefault
    && EntryOf(z).effective.fallback in {Some(DEFAULT_LOCALE), Some(y.locale)}
    && EntryOf(y).effective.fallback in {Some(DEFAULT_LOCALE), Some(ZH)}
    && (EntryOf(z).effective.fallback == Some(DEFAULT_LOCALE) || EntryOf(y).effective.fallback == Some(DEFAULT_LOCALE))
  }

  lemma ThreeEntries(z: LocaleRow, y: LocaleRow)
    requires Visible(z) && Visible(y)
    ensures Entries(Three(z, y)) == [EntryOf(SEEDED[0]), EntryOf(z), EntryOf(y)]
  {
    EntriesOfOne(SEEDED[0]);
    EntriesOfOne(z);
    EntriesOfOne(y);
    EntriesJoin([SEEDED[0]], [z]);
    EntriesJoin([SEEDED[0], z], [y]);
    assert Three(z, y) == [SEEDED[0], z] + [y] && [SEEDED[0], z] == [SEEDED[0]] + [z];
  }

  /** The order of the locales does not matter. */
  lemma Swapped(d: Entry, a: Entry, b: Entry)
    requires RegistryOk([d] + [a] + [b])
    ensures RegistryOk([d] + [b] + [a])
  {
    var es, fs := [d] + [a] + [b], [d] + [b] + [a];
    assert es[0] != es[1] && es[0].locale != es[2].locale && es[1].locale != es[2].locale;
    KeptIsSafe(es, es, b.locale, Some(b.effective));
    SafeKeepsRegistry(es, fs, b.locale, Some(b.effective));
  }

  lemma ThreeOk(z: LocaleRow, y: LocaleRow)
    requires Ends(z, y)
    ensures RegistryOk(Entries(Three(z, y)))
  {
    ThreeEntries(z, y);
    var d, ez, ey := EntryOf(SEEDED[0]), EntryOf(z), EntryOf(y);
    SingleLocaleOk(d);
    if ez.effective.fallback == Some(DEFAULT_LOCALE) {
      LeafJoins([d], ez, d);
      LeafJoins([d] + [ez], ey, if ey.effective.fallback == Some(DEFAULT_LOCALE) then d else ez);
      assert [d, ez, ey] == [d] + [ez] + [ey];
    } else {
      LeafJoins([d], ey, d);
      LeafJoins([d] + [ey], ez, ey);
      Swapped(d, ey, ez);
      assert [d, ez, ey] == [d] + [ez] + [ey];
    }
  }

  function Redrafted(row: LocaleRow, fallback: Locale): LocaleRow {
    row.(head := row.head + 1, draft := Some(Leaf(fallback)))
  }

  lemma DraftsOfThree(z: LocaleRow, y: LocaleRow, fallback: Locale)
    requires z.locale == ZH && y.locale != ZH && y.locale != DEFAULT_LOCALE
    ensures WithDraft(Three(z, y), ZH, Leaf(fallback)) == Three(Redrafted(z, fallback), y)
    ensures WithDraft(Three(z, y), y.locale, Leaf(fallback)) == Three(z, Redrafted(y, fallback))
  {
    assert Three(z, y)[1..] == [z, y] && [z, y][1..] == [y];
    assert WithDraft([y], y.locale, Leaf(fallback)) == [Redrafted(y, fallback)];
    assert WithDraft([z, y], y.locale, Leaf(fallback)) == [z, Redrafted(y, fallback)];
    assert WithDraft([z, y], ZH, Leaf(fallback)) == [Redrafted(z, fallback), y];
  }

  /** A draft that keeps the three in order is accepted. */
  lemma SaveInThree(z: LocaleRow, y: LocaleRow, locale: Locale, fallback: Locale, after: seq<LocaleRow>)
    requires Ends(z, y) && locale in {z.locale, y.locale} && fallback != locale
    requires after == WithDraft(Three(z, y), locale, Leaf(fallback)) && RegistryOk(Entries(after))
    ensures After(Three(z, y), Save(locale, Leaf(fallback), true)) == after
  {
    ThreeOk(z, y);
    forall row | row in Three(z, y) && row.locale == locale && row.published.Some?
      ensures !row.published.value.isDefault
    {
      assert row == z || row == y;
    }
  }

  lemma SaveFirst(z: LocaleRow, y: LocaleRow, fallback: Locale)
    requires Ends(z, y) && Ends(Redrafted(z, fallback), y)
    ensures After(Three(z, y), Save(ZH, Leaf(fallback), true)) == Three(Redrafted(z, fallback), y)
  {
    DraftsOfThree(z, y, fallback);
    ThreeOk(Redrafted(z, fallback), y);
    SaveInThree(z, y, ZH, fallback, Three(Redrafted(z, fallback), y));
  }

  lemma SaveSecond(z: LocaleRow, y: LocaleRow, fallback: Locale)
    requires Ends(z, y) && Ends(z, Redrafted(y, fallback))
    ensures After(Three(z, y), Save(y.locale, Leaf(fallback), true)) == Three(z, Redrafted(y, fallback))
  {
    DraftsOfThree(z, y, fallback);
    ThreeOk(z, Redrafted(y, fallback));
    SaveInThree(z, y, y.locale, fallback, Three(z, Redrafted(y, fallback)));
  }

  lemma PublishThree(z: LocaleRow, y: LocaleRow)
    requires Ends(z, y) && Storable(Three(z, y))
    ensures After(Three(z, y), Publish(false)) == Three(Promoted(z), Promoted(y))
  {
    ThreeOk(z, y);
    var rows := Three(z, y);
    assert forall i :: 0 <= i < 3 ==> Mapped(rows, Promoted)[i] == Promoted(rows[i]);
    assert Promoted(rows[0]) == rows[0];
  }

  function PublishedLeaf(fallback: Locale): Option<Revision> {
    Some(Leaf(fallback).(state := State.Published))
  }

  /** A new locale is published, and the delivered one with the new one as its fallback. */
  function Published(yy: Locale): seq<Command> {
    [] + [Save(yy, Leaf(DEFAULT_LOCALE), true)] + [Publish(false)] + [Save(ZH, Leaf(yy), true)]
  }

  /** And both are redrafted the other way round. */
  function Crossed(yy: Locale): seq<Command> {
    Published(yy) + [Publish(false)] + [Save(ZH, Leaf(DEFAULT_LOCALE), true)] + [Save(yy, Leaf(ZH), true)]
  }

  lemma RunsThree(commands: seq<Command>, a: Command, b: Command, c: Command)
    ensures Run(commands + [a] + [b] + [c]) == After(After(After(Run(commands), a), b), c)
  {
    RunAppends(commands, a);
    RunAppends(commands + [a], b);
    RunAppends(commands + [a] + [b], c);
  }

  lemma PublishedRuns(yy: Locale)
    requires yy != ZH && yy != DEFAULT_LOCALE
    ensures Run(Published(yy)) == Three(LocaleRow(ZH, 2, Some(Leaf(yy)), SEEDED[1].published),
                                        LocaleRow(yy, 1, None, PublishedLeaf(DEFAULT_LOCALE)))
  {
    var z, y := SEEDED[1], LocaleRow(yy, 1, Some(Leaf(DEFAULT_LOCALE)), None);
    SeededOk();
    SaveAddsLeaf(SEEDED, yy, DEFAULT_LOCALE);
    assert SEEDED + [y] == Three(z, y);
    PublishThree(z, y);
    SaveFirst(z, Promoted(y), yy);
    RunsThree([], Save(yy, Leaf(DEFAULT_LOCALE), true), Publish(false), Save(ZH, Leaf(yy), true));
  }

  lemma CrossedRuns(yy: Locale)
    requires yy != ZH && yy != DEFAULT_LOCALE
    ensures Run(Crossed(yy)) == Three(LocaleRow(ZH, 3, Some(Leaf(DEFAULT_LOCALE)), PublishedLeaf(yy)),
                                      LocaleRow(yy, 2, Some(Leaf(ZH)), PublishedLeaf(DEFAULT_LOCALE)))
  {
    var z := LocaleRow(ZH, 2, Some(Leaf(yy)), SEEDED[1].published);
    var y := LocaleRow(yy, 1, None, PublishedLeaf(DEFAULT_LOCALE));
    PublishedRuns(yy);
    PublishThree(z, y);
    SaveFirst(Promoted(z), y, DEFAULT_LOCALE);
    SaveSecond(Redrafted(Promoted(z), DEFAULT_LOCALE), y, ZH);
    RunsThree(Published(yy), Publish(false), Save(ZH, Leaf(DEFAULT_LOCALE), true), Save(yy, Leaf(ZH), true));
  }

  /**
   Discarding the draft of a published locale can close a cycle: from the delivered tables, for every new tag,
   six commands lead to a registry in which this discard makes two locales fall back to each other.
   */
  lemma DiscardClosesCycle(yy: Locale)
    requires yy != ZH && yy != DEFAULT_LOCALE
    ensures RegistryOk(Entries(Run(Crossed(yy)))) && !RegistryOk(Entries(Run(Crossed(yy) + [Discard(ZH, true)])))
  {
    var z := LocaleRow(ZH, 3, Some(Leaf(DEFAULT_LOCALE)), PublishedLeaf(yy));
    var y := LocaleRow(yy, 2, Some(Leaf(ZH)), PublishedLeaf(DEFAULT_LOCALE));
    CrossedRuns(yy);
    ThreeOk(z, y);
    RegistryKeptIff(Crossed(yy), Discard(ZH, true));
    var es := Entries(Three(z, y));
    assert z in Three(z, y) && y in Three(z, y) && EntryOf(y) in es;
    PointerOf(es, EntryOf(y));
    assert Nth(es, Some(yy), 0) == Some(yy);
    assert Nth(es, Some(yy), 1) == Some(ZH);
    assert !Misses(es, Some(yy), ZH);
  }
}
