/**
 Publishing a content snapshot, apps/admin-api/src/content-management-service.ts: what blocks a
 publication and what the snapshot then contains.
 */
module Publication {
  import opened Wrappers
  import opened Content

  datatype Platform = Platform(pageId: PageId, stable: bool)

  const HOME: PageId := "page_home"

  /** The code-owned page set: six fixed pages and one per platform, required once the platform is stable. */
  function Definitions(platforms: seq<Platform>): seq<Definition> {
    [Definition(HOME, true), Definition("page_faq", true), Definition("page_help", true),
     Definition("page_platforms", true), Definition("page_privacy", true), Definition("page_terms", true)]
    + seq(|platforms|, i requires 0 <= i < |platforms| => Definition(platforms[i].pageId, platforms[i].stable))
  }

  /** The stored heads; `publishing` says whether the latest snapshot is still propagating. */
  datatype Heads = Heads(locales: seq<LocaleState>, pages: seq<Page>, shared: seq<Shared>, publishing: bool)

  datatype View = View(heads: Heads, entries: seq<Entry>, definitions: seq<Definition>, coverage: seq<Cell>)

  predicate EntriesOf(locales: seq<LocaleState>, entries: seq<Entry>) {
    && |entries| == |locales|
    && forall i :: 0 <= i < |locales| ==>
         locales[i].Effective().Some? && entries[i] == Entry(locales[i].locale, locales[i].Effective().value)
  }

  ghost predicate ViewOk(view: View) {
    && EntriesOf(view.heads.locales, view.entries)
    && RegistryOk(view.entries)
    && Definition(HOME, true) in view.definitions
    && CoverageOk(view.entries, view.heads.pages, view.definitions, view.coverage)
  }

  /** `getView`: fails on a locale without a revision and on a registry that is not in order. */
  method GetView(heads: Heads, platforms: seq<Platform>) returns (view: Option<View>)
    ensures view.Some? ==>
        ViewOk(view.value) && view.value.heads == heads && view.value.definitions == Definitions(platforms)
    ensures view.None? ==> forall entries :: EntriesOf(heads.locales, entries) ==> !RegistryOk(entries)
  {
    var entries: seq<Entry> := [];
    for i := 0 to |heads.locales|
      invariant EntriesOf(heads.locales[..i], entries)
    {
      var effective := heads.locales[i].Effective();
      if effective.None? {
        return None;
      }
      entries := entries + [Entry(heads.locales[i].locale, effective.value)];
    }
    assert heads.locales[..|heads.locales|] == heads.locales;
    var ok := ValidateLocaleRegistry(entries);
    if !ok {
      forall other | EntriesOf(heads.locales, other) ensures other == entries {
      }
      return None;
    }
    var definitions := Definitions(platforms);
    var coverage := Coverage(entries, heads.pages, definitions);
    assert definitions[0] == Definition(HOME, true);
    return Some(View(heads, entries, definitions, coverage));
  }

  // ----- blockers

  predicate Presentable(state: State) {
    state == Ready || state == Published
  }

  predicate PresentableStatus(status: Status) {
    status.Exact? && Presentable(status.state)
  }

  /** `find` of the enabled default locale. */
  function DefaultEntry(entries: seq<Entry>): (found: Option<Entry>)
    ensures found.Some? ==> found.value in entries && found.value.effective.enabled && found.value.effective.isDefault
    ensures found.None? ==> forall e :: e in entries ==> !(e.effective.enabled && e.effective.isDefault)
  {
    if entries == [] then None
    else if entries[0].effective.enabled && entries[0].effective.isDefault then Some(entries[0])
    else DefaultEntry(entries[1..])
  }

  datatype Blocker =
    | DefaultLocaleNotReady
    | DefaultHomepageNotReady
    | LocaleNotReady
    | RequiredPageMissing
    | SharedContentMissing
    | PublicationInProgress

  predicate Required(definitions: seq<Definition>, pageId: PageId) {
    exists d :: d in definitions && d.required && d.pageId == pageId
  }

  predicate Raised(view: View, blocker: Blocker) {
    var byDefault := DefaultEntry(view.entries);
    match blocker
    case DefaultLocaleNotReady => byDefault.None? || !Presentable(byDefault.value.effective.state)
    case DefaultHomepageNotReady =>
      !(byDefault.Some? && exists p ::
          p in view.heads.pages && p.pageId == HOME && p.locale == byDefault.value.locale && p.state == Ready)
      && !(byDefault.Some? && exists p ::
          p in view.heads.pages && p.pageId == HOME && p.locale == byDefault.value.locale && p.state == Published)
    case LocaleNotReady => exists e :: e in view.entries && e.effective.enabled && !Presentable(e.effective.state)
    case RequiredPageMissing =>
        exists c :: c in view.coverage && Required(view.definitions, c.pageId) && !PresentableStatus(c.status)
    case SharedContentMissing =>
      exists e :: e in view.entries && e.effective.enabled && !HasShared(view.heads.shared, e.locale)
    case PublicationInProgress => view.heads.publishing
  }

  predicate HasShared(shared: seq<Shared>, locale: Locale) {
    exists s :: s in shared && s.locale == locale && Presentable(s.state)
  }

  predicate Unblocked(view: View) {
    && !Raised(view, DefaultLocaleNotReady)
    && !Raised(view, DefaultHomepageNotReady)
    && !Raised(view, LocaleNotReady)
    && !Raised(view, RequiredPageMissing)
    && !Raised(view, SharedContentMissing)
    && !Raised(view, PublicationInProgress)
  }

  /** What the blockers stand for, said about the stored heads and not about the coverage matrix. */
  ghost predicate ReadyToPublish(view: View) {
    && !view.heads.publishing
    && (exists e :: e in view.entries && e.effective.enabled && e.effective.isDefault)
    && forall e :: e in view.entries && e.effective.enabled ==>
         && Presentable(e.effective.state)
         && HasShared(view.heads.shared, e.locale)
         && forall d :: d in view.definitions && d.required ==>
              var page := FindPage(view.heads.pages, d.pageId, e.locale);
              page.Some? && Presentable(page.value.state)
  }

  /** The matrix cell of a required page is presentable exactly when the page itself is there and presentable. */
  lemma CellsTellPages(view: View, d: Definition, e: Entry)
    requires ViewOk(view) && d in view.definitions && d.required && e in view.entries && Covered(e)
    requires !Raised(view, RequiredPageMissing)
    ensures var page := FindPage(view.heads.pages, d.pageId, e.locale); page.Some? && Presentable(page.value.state)
  {
    assert HasCell(view.entries, view.heads.pages, view.coverage, d, e);
    var c :| c in view.coverage && c.pageId == d.pageId && CellOk(view.entries, view.heads.pages, e, c);
    assert Required(view.definitions, c.pageId);
  }

  lemma UnblockedIsReady(view: View)
    requires ViewOk(view) && Unblocked(view)
    ensures ReadyToPublish(view)
  {
    forall e, d | e in view.entries && e.effective.enabled && d in view.definitions && d.required
      ensures var page := FindPage(view.heads.pages, d.pageId, e.locale); page.Some? && Presentable(page.value.state)
    {
      assert !Raised(view, LocaleNotReady);
      CellsTellPages(view, d, e);
    }
    assert !Raised(view, DefaultLocaleNotReady) && !Raised(view, LocaleNotReady) && !Raised(view, SharedContentMissing);
    assert !Raised(view, PublicationInProgress);
  }

  lemma ReadyIsUnblocked(view: View)
    requires ViewOk(view) && ReadyToPublish(view)
    ensures Unblocked(view)
  {
    var byDefault := DefaultEntry(view.entries);
    assert byDefault.Some?;
    var home := FindPage(view.heads.pages, HOME, byDefault.value.locale);
    assert Definition(HOME, true) in view.definitions;
    assert home.Some? && Presentable(home.value.state) && home.value in view.heads.pages;
    forall c | c in view.coverage && Required(view.definitions, c.pageId)
      ensures PresentableStatus(c.status)
    {
      assert CellBelongs(view.entries, view.heads.pages, view.definitions, c);
      var d, e :| d in view.definitions && e in view.entries && Covered(e) && c.pageId == d.pageId
                  && CellOk(view.entries, view.heads.pages, e, c);
      var r :| r in view.definitions && r.required && r.pageId == c.pageId;
      assert FindPage(view.heads.pages, r.pageId, e.locale).Some?;
    }
  }

  /** The six blockers are absent exactly when every enabled locale is ready with all its content of its own. */
  lemma UnblockedIffReady(view: View)
    requires ViewOk(view)
    ensures Unblocked(view) <==> ReadyToPublish(view)
  {
    if Unblocked(view) {
      UnblockedIsReady(view);
    }
    if ReadyToPublish(view) {
      ReadyIsUnblocked(view);
    }
  }

  /** The pages each enabled locale must have of its own: the six fixed ones, and those of stable platforms. */
  predicate Demanded(platforms: seq<Platform>, pageId: PageId) {
    || pageId in {"page_home", "page_faq", "page_help", "page_platforms", "page_privacy", "page_terms"}
    || exists p :: p in platforms && p.stable && p.pageId == pageId
  }

  lemma RequiredIffDemanded(platforms: seq<Platform>, pageId: PageId)
    ensures Required(Definitions(platforms), pageId) <==> Demanded(platforms, pageId)
  {
    var list := Definitions(platforms);
    assert list[0].pageId == "page_home" && list[1].pageId == "page_faq" && list[2].pageId == "page_help"
           && list[3].pageId == "page_platforms" && list[4].pageId == "page_privacy" && list[5].pageId == "page_terms";
    forall i | 0 <= i < 6
      ensures list[i].required && list[i] in list
    {
    }
    forall i | 0 <= i < |platforms|
      ensures list[6 + i] in list && list[6 + i] == Definition(platforms[i].pageId, platforms[i].stable)
    {
    }
    if Required(list, pageId) {
      var d :| d in list && d.required && d.pageId == pageId;
      var i :| 0 <= i < |list| && list[i] == d;
      assert i >= 6 ==> platforms[i - 6] in platforms;
    }
  }

  /** An own page that may be published. */
  predicate HasOwnPage(heads: Heads, pageId: PageId, locale: Locale) {
    var page := FindPage(heads.pages, pageId, locale);
    page.Some? && (page.value.state == Ready || page.value.state == Published)
  }

  lemma PagesDemanded(heads: Heads, platforms: seq<Platform>, locale: Locale)
    ensures (forall d :: d in Definitions(platforms) && d.required ==> HasOwnPage(heads, d.pageId, locale))
            <==> forall pageId :: Demanded(platforms, pageId) ==> HasOwnPage(heads, pageId, locale)
  {
    if forall d :: d in Definitions(platforms) && d.required ==> HasOwnPage(heads, d.pageId, locale) {
      forall pageId | Demanded(platforms, pageId) ensures HasOwnPage(heads, pageId, locale) {
        RequiredIffDemanded(platforms, pageId);
        var d :| d in Definitions(platforms) && d.required && d.pageId == pageId;
      }
    }
    if forall pageId :: Demanded(platforms, pageId) ==> HasOwnPage(heads, pageId, locale) {
      forall d | d in Definitions(platforms) && d.required ensures HasOwnPage(heads, d.pageId, locale) {
        assert Required(Definitions(platforms), d.pageId);
        RequiredIffDemanded(platforms, d.pageId);
      }
    }
  }

  /** A locale with nothing missing: ready or published, and so its shared content and every page demanded of it. */
  ghost predicate ContentThere(heads: Heads, platforms: seq<Platform>, e: Entry) {
    && (e.effective.state == Ready || e.effective.state == Published)
    && (exists s :: s in heads.shared && s.locale == e.locale && (s.state == Ready || s.state == Published))
    && forall pageId :: Demanded(platforms, pageId) ==> HasOwnPage(heads, pageId, e.locale)
  }

  lemma ContentThereIff(view: View, platforms: seq<Platform>, e: Entry)
    requires view.definitions == Definitions(platforms)
    ensures ContentThere(view.heads, platforms, e) <==>
              && Presentable(e.effective.state)
              && HasShared(view.heads.shared, e.locale)
              && forall d :: d in view.definitions && d.required ==>
                   var page := FindPage(view.heads.pages, d.pageId, e.locale);
                   page.Some? && Presentable(page.value.state)
  {
    PagesDemanded(view.heads, platforms, e.locale);
    assert forall d: Definition :: HasOwnPage(view.heads, d.pageId, e.locale) <==>
             var page := FindPage(view.heads.pages, d.pageId, e.locale);
             page.Some? && Presentable(page.value.state);
  }

  /**
   Nothing blocks a publication exactly when none is propagating, an enabled locale is the default, and
   every enabled locale has its content: all six fixed pages and one for every stable platform among it.
   */
  lemma UnblockedIffContentThere(view: View, platforms: seq<Platform>)
    requires ViewOk(view) && view.definitions == Definitions(platforms)
    ensures Unblocked(view) <==>
              && !view.heads.publishing
              && (exists e :: e in view.entries && e.effective.enabled && e.effective.isDefault)
              && forall e :: e in view.entries && e.effective.enabled ==> ContentThere(view.heads, platforms, e)
  {
    UnblockedIffReady(view);
    forall e | e in view.entries && e.effective.enabled
      ensures ContentThere(view.heads, platforms, e) <==>
                && Presentable(e.effective.state)
                && HasShared(view.heads.shared, e.locale)
                && forall d :: d in view.definitions && d.required ==>
                     var page := FindPage(view.heads.pages, d.pageId, e.locale);
                     page.Some? && Presentable(page.value.state)
    {
      ContentThereIff(view, platforms, e);
    }
  }

  // ----- the snapshot

  datatype PublishedLocale = PublishedLocale(locale: Locale, isDefault: bool)

  datatype Snapshot = Snapshot(locales: seq<PublishedLocale>, pages: seq<Page>, shared: seq<Shared>)

  /** `draft?.state === "ready" ? draft : published`, kept when it is enabled. */
  function Chosen(l: LocaleState): Option<Revision> {
    var revision := if l.draft.Some? && l.draft.value.state == Ready then l.draft else l.published;
    if revision.Some? && revision.value.enabled then revision else None
  }

  function ChosenLocales(locales: seq<LocaleState>): (chosen: seq<PublishedLocale>)
    ensures forall l :: l in locales && Chosen(l).Some? ==>
        PublishedLocale(l.locale, Chosen(l).value.isDefault) in chosen
    ensures forall c :: c in chosen ==>
              exists l :: l in locales && Chosen(l).Some? && c == PublishedLocale(l.locale, Chosen(l).value.isDefault)
  {
    if locales == [] then []
    else
      assert locales == [locales[0]] + locales[1..];
      match Chosen(locales[0])
      case Some(revision) => [PublishedLocale(locales[0].locale, revision.isDefault)] + ChosenLocales(locales[1..])
      case None => ChosenLocales(locales[1..])
  }

  function PresentablePages(pages: seq<Page>): (kept: seq<Page>)
    ensures forall p :: p in kept <==> p in pages && Presentable(p.state)
  {
    if pages == [] then []
    else if Presentable(pages[0].state) then [pages[0]] + PresentablePages(pages[1..])
    else PresentablePages(pages[1..])
  }

  function PresentableShared(shared: seq<Shared>): (kept: seq<Shared>)
    ensures forall s :: s in kept <==> s in shared && Presentable(s.state)
  {
    if shared == [] then []
    else if Presentable(shared[0].state) then [shared[0]] + PresentableShared(shared[1..])
    else PresentableShared(shared[1..])
  }

  function Assemble(view: View): Snapshot {
    Snapshot(ChosenLocales(view.heads.locales), PresentablePages(view.heads.pages),
        PresentableShared(view.heads.shared))
  }

  /** Draft revisions are only ever saved as draft or ready. */
  predicate DraftStates(locales: seq<LocaleState>) {
    forall l :: l in locales && l.draft.Some? ==> l.draft.value.state == Draft || l.draft.value.state == Ready
  }

  predicate HasPage(snapshot: Snapshot, pageId: PageId, locale: Locale) {
    exists p :: p in snapshot.pages && p.pageId == pageId && p.locale == locale
  }

  /** Every enabled effective locale is in the snapshot with each required page and shared content of its own. */
  predicate Complete(view: View, snapshot: Snapshot) {
    && (forall e :: e in view.entries && e.effective.enabled ==>
          && PublishedLocale(e.locale, e.effective.isDefault) in snapshot.locales
          && (exists s :: s in snapshot.shared && s.locale == e.locale)
          && forall d :: d in view.definitions && d.required ==> HasPage(snapshot, d.pageId, e.locale))
    && exists l :: l in snapshot.locales && l.isDefault && HasPage(snapshot, HOME, l.locale)
  }

  /** A publication that nothing blocks is complete, the homepage of the default locale included. */
  lemma UnblockedSnapshotComplete(view: View)
    requires ViewOk(view) && DraftStates(view.heads.locales) && Unblocked(view)
    ensures Complete(view, Assemble(view))
  {
    UnblockedIsReady(view);
    var snapshot := Assemble(view);
    forall e | e in view.entries && e.effective.enabled
      ensures PublishedLocale(e.locale, e.effective.isDefault) in snapshot.locales
      ensures exists s :: s in snapshot.shared && s.locale == e.locale
      ensures forall d :: d in view.definitions && d.required ==> HasPage(snapshot, d.pageId, e.locale)
    {
      var i :| 0 <= i < |view.entries| && view.entries[i] == e;
      assert view.heads.locales[i] in view.heads.locales;
      assert Chosen(view.heads.locales[i]) == Some(e.effective);
      var s :| s in view.heads.shared && s.locale == e.locale && Presentable(s.state);
      assert s in snapshot.shared;
      forall d | d in view.definitions && d.required ensures HasPage(snapshot, d.pageId, e.locale) {
        var page := FindPage(view.heads.pages, d.pageId, e.locale).value;
        assert page in snapshot.pages;
      }
    }
    var e :| e in view.entries && e.effective.enabled && e.effective.isDefault;
    assert HasPage(snapshot, HOME, e.locale);
  }

  /** A published, enabled locale hidden behind an unfinished draft that disables it. */
  predicate HiddenByDraft(l: LocaleState) {
    && l.draft.Some? && l.draft.value.state == Draft && !l.draft.value.enabled
    && l.published.Some? && l.published.value.enabled
  }

  lemma EffectiveEnabled(view: View, l: LocaleState, e: Entry)
    requires ReadyToPublish(view) && e in view.entries && l.Effective() == Some(e.effective)
    requires l.draft.Some? ==> l.draft.value.state == Draft || l.draft.value.state == Ready
    requires Chosen(l).Some? && !HiddenByDraft(l)
    ensures e.effective.enabled
  {
  }

  /** Every locale of the snapshot is enabled in the view the blockers looked at. */
  ghost predicate OnlyViewedLocales(view: View, snapshot: Snapshot) {
    forall c :: c in snapshot.locales ==> exists e :: e in view.entries && e.effective.enabled && e.locale == c.locale
  }

  lemma NoneHiddenOnlyViewed(view: View)
    requires EntriesOf(view.heads.locales, view.entries) && DraftStates(view.heads.locales) && ReadyToPublish(view)
    requires forall l :: l in view.heads.locales ==> !HiddenByDraft(l)
    ensures OnlyViewedLocales(view, Assemble(view))
  {
    forall c | c in Assemble(view).locales
      ensures exists e :: e in view.entries && e.effective.enabled && e.locale == c.locale
    {
      var l :| l in view.heads.locales && Chosen(l).Some? && c == PublishedLocale(l.locale, Chosen(l).value.isDefault);
      var i :| 0 <= i < |view.heads.locales| && view.heads.locales[i] == l;
      assert view.entries[i] in view.entries;
      EffectiveEnabled(view, l, view.entries[i]);
    }
  }

  lemma HiddenNotViewed(view: View, l: LocaleState)
    requires EntriesOf(view.heads.locales, view.entries) && UniqueTags(view.entries)
    requires l in view.heads.locales && HiddenByDraft(l)
    ensures !OnlyViewedLocales(view, Assemble(view))
  {
    var i :| 0 <= i < |view.heads.locales| && view.heads.locales[i] == l;
    assert PublishedLocale(l.locale, Chosen(l).value.isDefault) in Assemble(view).locales;
    forall e | e in view.entries && e.locale == l.locale ensures !e.effective.enabled {
      var j :| 0 <= j < |view.entries| && view.entries[j] == e;
      assert j == i;
    }
  }

  /**
   The blockers look at effective revisions, the snapshot at ready or published ones. The two speak
   about the same locales exactly when no published locale is hidden behind a disabling draft; such a
   locale is published again although none of its pages was looked at.
   */
  lemma SnapshotLocalesExact(view: View)
    requires ViewOk(view) && DraftStates(view.heads.locales) && Unblocked(view)
    ensures OnlyViewedLocales(view, Assemble(view)) <==> forall l :: l in view.heads.locales ==> !HiddenByDraft(l)
  {
    if l :| l in view.heads.locales && HiddenByDraft(l) {
      HiddenNotViewed(view, l);
    } else {
      UnblockedIsReady(view);
      NoneHiddenOnlyViewed(view);
    }
  }

  // ----- the snapshot schema

  predicate DistinctTags(locales: seq<PublishedLocale>) {
    forall i, j :: 0 <= i < j < |locales| ==> locales[i].locale != locales[j].locale
  }

  predicate OneDefault(locales: seq<PublishedLocale>) {
    exists c :: c in locales && c.isDefault && forall other :: other in locales && other.isDefault ==> other == c
  }

  predicate InSnapshot(snapshot: Snapshot, locale: Locale) {
    exists c :: c in snapshot.locales && c.locale == locale
  }

  predicate DistinctPages(pages: seq<Page>) {
    forall i, j :: 0 <= i < j < |pages| ==> !(pages[i].pageId == pages[j].pageId && pages[i].locale == pages[j].locale)
  }

  predicate DistinctShared(shared: seq<Shared>) {
    forall i, j :: 0 <= i < j < |shared| ==> shared[i].locale != shared[j].locale
  }

  /** What `PublishedContentSnapshotSchema` asks of locales, of keys, and of the references to locales. */
  predicate ReferencesOk(snapshot: Snapshot) {
    && DistinctTags(snapshot.locales) && OneDefault(snapshot.locales)
    && DistinctPages(snapshot.pages) && DistinctShared(snapshot.shared)
    && (forall p :: p in snapshot.pages ==> InSnapshot(snapshot, p.locale))
    && (forall s :: s in snapshot.shared ==> InSnapshot(snapshot, s.locale))
  }

  /** A locale of the heads with a revision to publish. */
  predicate Publishable(locales: seq<LocaleState>, locale: Locale) {
    exists l :: l in locales && l.locale == locale && Chosen(l).Some?
  }

  /** Nothing presentable belongs to a locale that is not published, and no second default hides behind a draft. */
  predicate NothingStranded(heads: Heads) {
    && (forall p :: p in heads.pages && Presentable(p.state) ==> Publishable(heads.locales, p.locale))
    && (forall s :: s in heads.shared && Presentable(s.state) ==> Publishable(heads.locales, s.locale))
    && (forall l :: l in heads.locales && HiddenByDraft(l) ==> !l.published.value.isDefault)
  }

  lemma InSnapshotIffPublishable(view: View, locale: Locale)
    ensures InSnapshot(Assemble(view), locale) <==> Publishable(view.heads.locales, locale)
  {
  }

  lemma {:induction false} KeptPagesDistinct(pages: seq<Page>)
    requires DistinctPages(pages)
    ensures DistinctPages(PresentablePages(pages))
  {
    if pages != [] {
      KeptPagesDistinct(pages[1..]);
      forall p | p in PresentablePages(pages[1..])
        ensures !(p.pageId == pages[0].pageId && p.locale == pages[0].locale) {
        var i :| 0 <= i < |pages| - 1 && pages[1..][i] == p;
        assert pages[i + 1] == p;
      }
    }
  }

  lemma {:induction false} KeptSharedDistinct(shared: seq<Shared>)
    requires DistinctShared(shared)
    ensures DistinctShared(PresentableShared(shared))
  {
    if shared != [] {
      KeptSharedDistinct(shared[1..]);
      forall s | s in PresentableShared(shared[1..]) ensures s.locale != shared[0].locale {
        var i :| 0 <= i < |shared| - 1 && shared[1..][i] == s;
        assert shared[i + 1] == s;
      }
    }
  }

  lemma {:induction false} ChosenTagsDistinct(locales: seq<LocaleState>)
    requires forall i, j :: 0 <= i < j < |locales| ==> locales[i].locale != locales[j].locale
    ensures DistinctTags(ChosenLocales(locales))
  {
    if locales != [] {
      ChosenTagsDistinct(locales[1..]);
      forall c | c in ChosenLocales(locales[1..]) ensures c.locale != locales[0].locale {
        var l :| l in locales[1..] && Chosen(l).Some? && c == PublishedLocale(l.locale, Chosen(l).value.isDefault);
      }
    }
  }

  /** A locale published in another revision than the one viewed is a hidden one. */
  lemma ChosenIsEffective(view: View, l: LocaleState)
    requires EntriesOf(view.heads.locales, view.entries) && DraftStates(view.heads.locales) && ReadyToPublish(view)
    requires l in view.heads.locales && Chosen(l).Some? && !HiddenByDraft(l)
    ensures Entry(l.locale, Chosen(l).value) in view.entries
  {
    var i :| 0 <= i < |view.heads.locales| && view.heads.locales[i] == l;
    assert view.entries[i] in view.entries;
    EffectiveEnabled(view, l, view.entries[i]);
  }

  /** The default of the registry is published as the default. */
  lemma DefaultIsChosen(view: View) returns (c: PublishedLocale)
    requires ViewOk(view) && DraftStates(view.heads.locales) && ReadyToPublish(view)
    ensures c in Assemble(view).locales && c.isDefault
    ensures forall e :: e in view.entries && e.effective.isDefault ==> e.locale == c.locale
  {
    var e :| e in view.entries && e.effective.enabled && e.effective.isDefault;
    var i :| 0 <= i < |view.entries| && view.entries[i] == e;
    var l := view.heads.locales[i];
    assert l in view.heads.locales && Chosen(l) == Some(e.effective);
    c := PublishedLocale(l.locale, true);
  }

  lemma OneDefaultIffNoneHidden(view: View)
    requires ViewOk(view) && DraftStates(view.heads.locales) && ReadyToPublish(view)
    ensures OneDefault(Assemble(view).locales)
            <==> forall l :: l in view.heads.locales && HiddenByDraft(l) ==> !l.published.value.isDefault
  {
    var c := DefaultIsChosen(view);
    if l :| l in view.heads.locales && HiddenByDraft(l) && l.published.value.isDefault {
      HiddenDefaultIsSecond(view, l, c);
    } else {
      forall other | other in Assemble(view).locales && other.isDefault ensures other == c {
        var l :| l in view.heads.locales && Chosen(l).Some?
                 && other == PublishedLocale(l.locale, Chosen(l).value.isDefault);
        ChosenIsEffective(view, l);
      }
    }
  }

  lemma OtherTag(entries: seq<Entry>, i: nat, j: nat)
    requires UniqueTags(entries) && i < |entries| && j < |entries| && i != j
    ensures entries[i].locale != entries[j].locale
  {
    assert i < j || j < i;
  }

  lemma HiddenDefaultIsSecond(view: View, l: LocaleState, c: PublishedLocale)
    requires ViewOk(view) && l in view.heads.locales && HiddenByDraft(l) && l.published.value.isDefault
    requires ReadyToPublish(view) && c in Assemble(view).locales && c.isDefault
    requires forall e :: e in view.entries && e.effective.isDefault ==> e.locale == c.locale
    ensures !OneDefault(Assemble(view).locales)
  {
    var hidden := PublishedLocale(l.locale, true);
    assert hidden in Assemble(view).locales;
    var e :| e in view.entries && e.effective.enabled && e.effective.isDefault;
    var i :| 0 <= i < |view.entries| && view.entries[i] == e;
    var j :| 0 <= j < |view.heads.locales| && view.heads.locales[j] == l;
    assert view.entries[j].locale == l.locale && !view.entries[j].effective.enabled;
    assert i != j && e.locale == c.locale;
    OtherTag(view.entries, i, j);
  }

  /**
   An unblocked publication passes the schema's checks on locales and keys exactly when nothing is
   stranded; the blockers do not look at pages and shared content of disabled locales, so it can fail
   there. Heads are unique by the primary keys of their tables.
   */
  lemma UnblockedParsesIffNothingStranded(view: View)
    requires ViewOk(view) && DraftStates(view.heads.locales) && Unblocked(view)
    requires DistinctPages(view.heads.pages) && DistinctShared(view.heads.shared)
    ensures ReferencesOk(Assemble(view)) <==> NothingStranded(view.heads)
  {
    UnblockedIsReady(view);
    OneDefaultIffNoneHidden(view);
    KeptPagesDistinct(view.heads.pages);
    KeptSharedDistinct(view.heads.shared);
    forall i, j | 0 <= i < j < |view.heads.locales|
      ensures view.heads.locales[i].locale != view.heads.locales[j].locale {
      assert view.entries[i].locale != view.entries[j].locale;
    }
    ChosenTagsDistinct(view.heads.locales);
    forall locale ensures InSnapshot(Assemble(view), locale) <==> Publishable(view.heads.locales, locale) {
      InSnapshotIffPublishable(view, locale);
    }
  }

  // ----- both conditions do arise

  /** The required pages of one published default locale, all published. */
  function PagesOf(en: Locale, definitions: seq<Definition>): seq<Page> {
    seq(|definitions|, i requires 0 <= i < |definitions| => Page(definitions[i].pageId, en, 1, Published, ""))
  }

  function CellsOf(en: Locale, definitions: seq<Definition>): seq<Cell> {
    seq(|definitions|, i requires 0 <= i < |definitions| => Cell(definitions[i].pageId, en, Exact(Published)))
  }

  /** One locale in order beside another one, with pages of that other one. */
  function Beside(en: Locale, other: LocaleState, extra: seq<Page>, platforms: seq<Platform>): View
    requires other.Effective().Some?
  {
    var shown := Revision(None, true, true, Published);
    View(Heads([LocaleState(en, Some(shown), None), other], PagesOf(en, Definitions(platforms)) + extra,
               [Shared(en, Published, "", "")], false),
         [Entry(en, shown), Entry(other.locale, other.Effective().value)],
         Definitions(platforms),
         CellsOf(en, Definitions(platforms)))
  }

  /** The other locale is shown as disabled and has no part in the registry's default or fallbacks. */
  predicate Aside(en: Locale, other: LocaleState, extra: seq<Page>) {
    && other.locale != en && other.Effective().Some?
    && !other.Effective().value.enabled && !other.Effective().value.isDefault
    && other.Effective().value.fallback == None
    && forall p :: p in extra ==> p.locale == other.locale
  }

  lemma EndsAtOnce(entries: seq<Entry>, locale: Locale)
    requires Pointer(entries, locale) == None
    ensures ChainEnds(entries, locale)
  {
    assert Nth(entries, Some(locale), 0) == Some(locale);
    assert Nth(entries, Some(locale), 1) == None;
  }

  lemma TwoLocalesOk(a: Entry, b: Entry)
    requires a.locale != b.locale && a.effective.isDefault && !b.effective.isDefault
    requires a.effective.fallback == None && b.effective.fallback == None
    ensures RegistryOk([a, b])
  {
    var entries := [a, b];
    assert entries[1..] == [b];
    assert Pointer(entries, a.locale) == None && Pointer(entries, b.locale) == None;
    EndsAtOnce(entries, a.locale);
    EndsAtOnce(entries, b.locale);
    DefaultAtOnly(entries, 0);
    forall e | e in entries
      ensures e.effective.fallback == None && ChainEnds(entries, e.locale)
    {
      assert e == a || e == b;
    }
  }

  lemma DefaultAtOnly(entries: seq<Entry>, i: nat)
    requires i < |entries| && entries[i].effective.isDefault
    requires forall j :: 0 <= j < |entries| && j != i ==> !entries[j].effective.isDefault
    ensures HasUniqueDefault(entries)
  {
  }

  lemma BesideRegistryOk(en: Locale, other: LocaleState, extra: seq<Page>, platforms: seq<Platform>)
    requires Aside(en, other, extra)
    ensures RegistryOk(Beside(en, other, extra, platforms).entries)
  {
    var entries := Beside(en, other, extra, platforms).entries;
    TwoLocalesOk(entries[0], entries[1]);
  }

  /** Every page of the default locale is found, and it is published. */
  lemma BesideHasPages(en: Locale, other: LocaleState, extra: seq<Page>, platforms: seq<Platform>, i: nat)
    requires Aside(en, other, extra) && i < |Definitions(platforms)|
    ensures var page := FindPage(Beside(en, other, extra, platforms).heads.pages, Definitions(platforms)[i].pageId, en);
            page.Some? && page.value.state == Published
  {
    var own := PagesOf(en, Definitions(platforms));
    assert own[i] in own + extra;
    assert forall p :: p in own ==> p.state == Published;
  }

  lemma BesideCoverageOk(en: Locale, other: LocaleState, extra: seq<Page>, platforms: seq<Platform>)
    requires Aside(en, other, extra)
    ensures var view := Beside(en, other, extra, platforms);
            CoverageOk(view.entries, view.heads.pages, view.definitions, view.coverage)
  {
    var view := Beside(en, other, extra, platforms);
    var e := view.entries[0];
    forall i | 0 <= i < |view.definitions|
      ensures CellOk(view.entries, view.heads.pages, e, view.coverage[i])
    {
      BesideHasPages(en, other, extra, platforms, i);
    }
    forall c | c in view.coverage ensures CellBelongs(view.entries, view.heads.pages, view.definitions, c) {
      var i :| 0 <= i < |view.coverage| && view.coverage[i] == c;
      assert view.definitions[i] in view.definitions && e in view.entries;
    }
    forall d, f | d in view.definitions && f in view.entries && Covered(f)
      ensures HasCell(view.entries, view.heads.pages, view.coverage, d, f)
    {
      var i :| 0 <= i < |view.definitions| && view.definitions[i] == d;
      assert view.coverage[i] in view.coverage && f == e;
    }
  }

  lemma BesideIsUnblocked(en: Locale, other: LocaleState, extra: seq<Page>, platforms: seq<Platform>)
    requires Aside(en, other, extra)
    ensures ViewOk(Beside(en, other, extra, platforms)) && Unblocked(Beside(en, other, extra, platforms))
  {
    var view := Beside(en, other, extra, platforms);
    BesideRegistryOk(en, other, extra, platforms);
    BesideCoverageOk(en, other, extra, platforms);
    assert view.definitions[0] == Definition(HOME, true);
    assert view.entries[0] in view.entries && view.heads.shared[0] in view.heads.shared;
    forall d | d in view.definitions
      ensures var page := FindPage(view.heads.pages, d.pageId, en); page.Some? && Presentable(page.value.state)
    {
      var i :| 0 <= i < |view.definitions| && view.definitions[i] == d;
      BesideHasPages(en, other, extra, platforms, i);
    }
    assert ReadyToPublish(view);
    ReadyIsUnblocked(view);
  }

  /** A published locale that an unfinished draft disables. */
  function HiddenLocale(xx: Locale): LocaleState {
    LocaleState(xx, Some(Revision(None, true, false, Published)), Some(Revision(None, false, false, Draft)))
  }

  /** With such a locale, an unblocked publication publishes it without its homepage. */
  lemma HiddenLocaleCanLosePages(en: Locale, xx: Locale, platforms: seq<Platform>)
    requires en != xx
    ensures var view := Beside(en, HiddenLocale(xx), [], platforms);
            && ViewOk(view) && DraftStates(view.heads.locales) && Unblocked(view)
            && PublishedLocale(xx, false) in Assemble(view).locales && !HasPage(Assemble(view), HOME, xx)
  {
    var view := Beside(en, HiddenLocale(xx), [], platforms);
    BesideIsUnblocked(en, HiddenLocale(xx), [], platforms);
    assert view.heads.locales[1] in view.heads.locales;
    assert Chosen(view.heads.locales[1]) == view.heads.locales[1].published;
    assert forall p :: p in view.heads.pages ==> p.locale == en;
  }

  /** No two platforms share a page, and none has one of the fixed pages. */
  predicate DistinctDefinitions(definitions: seq<Definition>) {
    forall i, j :: 0 <= i < j < |definitions| ==> definitions[i].pageId != definitions[j].pageId
  }

  lemma StrandedPagesDistinct(en: Locale, xx: Locale, platforms: seq<Platform>)
    requires en != xx && DistinctDefinitions(Definitions(platforms))
    ensures DistinctPages(PagesOf(en, Definitions(platforms)) + [Page(HOME, xx, 1, Ready, "")])
  {
  }

  /** A ready page of a locale that is disabled: nothing blocks, and the snapshot fails its schema. */
  lemma StrandedPageFailsSchema(en: Locale, xx: Locale, platforms: seq<Platform>)
    requires en != xx && DistinctDefinitions(Definitions(platforms))
    ensures var disabled := LocaleState(xx, None, Some(Revision(None, false, false, Ready)));
            var view := Beside(en, disabled, [Page(HOME, xx, 1, Ready, "")], platforms);
            && ViewOk(view) && DraftStates(view.heads.locales) && Unblocked(view)
            && DistinctPages(view.heads.pages) && DistinctShared(view.heads.shared)
            && !NothingStranded(view.heads) && !ReferencesOk(Assemble(view))
  {
    var disabled := LocaleState(xx, None, Some(Revision(None, false, false, Ready)));
    var page := Page(HOME, xx, 1, Ready, "");
    var view := Beside(en, disabled, [page], platforms);
    BesideIsUnblocked(en, disabled, [page], platforms);
    assert page in view.heads.pages;
    assert !Publishable(view.heads.locales, xx);
    StrandedPagesDistinct(en, xx, platforms);
    UnblockedParsesIffNothingStranded(view);
  }

  /** A ready draft that disables its locale. */
  const DISABLED := Revision(None, false, false, Ready)

  lemma OwnPagesDistinct(en: Locale, platforms: seq<Platform>)
    requires DistinctDefinitions(Definitions(platforms))
    ensures DistinctPages(PagesOf(en, Definitions(platforms)) + [])
  {
  }

  /** Beside a locale that its draft disables, all pages belong to the default. */
  lemma NothingBesideStranded(en: Locale, xx: Locale, platforms: seq<Platform>)
    ensures NothingStranded(Beside(en, LocaleState(xx, None, Some(DISABLED)), [], platforms).heads)
  {
    var heads := Beside(en, LocaleState(xx, None, Some(DISABLED)), [], platforms).heads;
    assert heads.locales[0] in heads.locales && Chosen(heads.locales[0]).Some?;
    assert Publishable(heads.locales, en);
    assert forall p :: p in heads.pages ==> p.locale == en;
  }

  /** Without such a page nothing blocks and the snapshot passes, although the draft cannot be stored as published. */
  lemma DisabledDraftPasses(en: Locale, xx: Locale, platforms: seq<Platform>)
    requires en != xx && DistinctDefinitions(Definitions(platforms))
    ensures var view := Beside(en, LocaleState(xx, None, Some(DISABLED)), [], platforms);
            && ViewOk(view) && DraftStates(view.heads.locales) && Unblocked(view) && ReferencesOk(Assemble(view))
  {
    var disabled := LocaleState(xx, None, Some(DISABLED));
    var view := Beside(en, disabled, [], platforms);
    BesideIsUnblocked(en, disabled, [], platforms);
    OwnPagesDistinct(en, platforms);
    NothingBesideStranded(en, xx, platforms);
    UnblockedParsesIffNothingStranded(view);
  }
}
