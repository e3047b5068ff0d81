/**
 Paths and redirects of a published snapshot: the checks of its schema (packages/admin-contracts/src/editorial.ts),
 the technical checks of a publication (packages/admin-contracts/src/seo-publication.ts), and what the site
 answers to a request (apps/web/app/[locale]/[[...slug]]/page.tsx).
 */
module Redirects {
  import opened Wrappers

  datatype Page = Page(pageId: string, locale: string, path: string, redirects: seq<string>)

  /** A localized path. */
  datatype Address = Address(locale: string, path: string)

  datatype PageKey = PageKey(pageId: string, locale: string)

  function KeyOf(p: Page): PageKey {
    PageKey(p.pageId, p.locale)
  }

  function AddressOf(p: Page): Address {
    Address(p.locale, p.path)
  }

  function SourcesOf(p: Page): set<Address> {
    set r | r in p.redirects :: Address(p.locale, r)
  }

  function Keys(pages: seq<Page>): set<PageKey> {
    set p | p in pages :: KeyOf(p)
  }

  function Paths(pages: seq<Page>): set<Address> {
    set p | p in pages :: AddressOf(p)
  }

  function Sources(pages: seq<Page>): set<Address> {
    set p, r | p in pages && r in p.redirects :: Address(p.locale, r)
  }

  lemma SetsGrow(pages: seq<Page>, p: Page)
    ensures Keys(pages + [p]) == Keys(pages) + {KeyOf(p)}
    ensures Paths(pages + [p]) == Paths(pages) + {AddressOf(p)}
    ensures Sources(pages + [p]) == Sources(pages) + SourcesOf(p)
  {
    forall a | a in Sources(pages) + SourcesOf(p) ensures a in Sources(pages + [p]) {
      if a in SourcesOf(p) {
        assert p in pages + [p] && a.path in p.redirects;
      } else {
        var q, r :| q in pages && r in q.redirects && a == Address(q.locale, r);
        assert q in pages + [p];
      }
    }
  }

  // ----- the schema of a snapshot

  predicate NoRepeat(texts: seq<string>) {
    forall i, j :: 0 <= i < j < |texts| ==> texts[i] != texts[j]
  }

  /** `AdminSeoFieldsSchema`: a page has each redirect once and none from its own path. */
  predicate FieldsOk(p: Page) {
    NoRepeat(p.redirects) && p.path !in p.redirects
  }

  /** A page against what was collected from the pages before it. */
  predicate Fits(p: Page, locales: set<string>, keys: set<PageKey>, paths: set<Address>, sources: set<Address>) {
    && FieldsOk(p) && p.locale in locales && KeyOf(p) !in keys && AddressOf(p) !in paths
    && SourcesOf(p) !! sources && SourcesOf(p) !! paths
  }

  predicate FitsBehind(pages: seq<Page>, locales: set<string>, i: nat)
    requires i < |pages|
  {
    Fits(pages[i], locales, Keys(pages[..i]), Paths(pages[..i]), Sources(pages[..i]))
  }

  predicate Parses(pages: seq<Page>, locales: set<string>) {
    forall i :: 0 <= i < |pages| ==> FitsBehind(pages, locales, i)
  }

  /** The redirects of one page against what was collected before; its own path is collected already. */
  method CheckRedirects(p: Page, paths: set<Address>, before: set<Address>) returns (ok: bool, sources: set<Address>)
    ensures sources == before + SourcesOf(p)
    ensures ok <==> NoRepeat(p.redirects) && SourcesOf(p) !! before && SourcesOf(p) !! paths
  {
    ok, sources := true, before;
    for k := 0 to |p.redirects|
      invariant sources == before + set j | 0 <= j < k :: Address(p.locale, p.redirects[j])
      invariant ok <==> && NoRepeat(p.redirects[..k])
                        && forall j :: 0 <= j < k ==>
                             Address(p.locale, p.redirects[j]) !in before && Address(p.locale, p.redirects[j]) !in paths
    {
      var source := Address(p.locale, p.redirects[k]);
      if source in sources || source in paths {
        ok := false;
      }
      sources := sources + {source};
      assert p.redirects[..k + 1] == p.redirects[..k] + [p.redirects[k]];
    }
    assert p.redirects[..|p.redirects|] == p.redirects;
    assert SourcesOf(p) == set j | 0 <= j < |p.redirects| :: Address(p.locale, p.redirects[j]);
    assert (SourcesOf(p) !! before && SourcesOf(p) !! paths) <==>
        forall j :: 0 <= j < |p.redirects| ==>
          Address(p.locale, p.redirects[j]) !in before && Address(p.locale, p.redirects[j]) !in paths;
  }

  lemma OwnPath(p: Page, paths: set<Address>)
    ensures SourcesOf(p) !! paths + {AddressOf(p)} <==> SourcesOf(p) !! paths && p.path !in p.redirects
  {
    if p.path in p.redirects {
      assert AddressOf(p) in SourcesOf(p);
    }
  }

  /** The page checks of `PublishedContentSnapshotSchema`. */
  method ParsePages(pages: seq<Page>, locales: set<string>) returns (ok: bool)
    ensures ok <==> Parses(pages, locales)
  {
    ok := true;
    var keys: set<PageKey>, paths: set<Address>, sources: set<Address> := {}, {}, {};
    for i := 0 to |pages|
      invariant keys == Keys(pages[..i]) && paths == Paths(pages[..i]) && sources == Sources(pages[..i])
      invariant ok <==> forall j :: 0 <= j < i ==> FitsBehind(pages, locales, j)
    {
      var p := pages[i];
      SetsGrow(pages[..i], p);
      OwnPath(p, paths);
      assert pages[..i + 1] == pages[..i] + [p];
      var fits := KeyOf(p) !in keys && p.locale in locales && AddressOf(p) !in paths;
      var redirectsFit, more := CheckRedirects(p, paths + {AddressOf(p)}, sources);
      assert fits && redirectsFit <==> FitsBehind(pages, locales, i);
      keys, paths, sources := keys + {KeyOf(p)}, paths + {AddressOf(p)}, more;
      ok := ok && fits && redirectsFit;
    }
  }

  // ----- the technical checks of a publication

  /** `localized`: the text under which the technical checks and the site know an address. */
  function Localized(a: Address): string {
    "/" + a.locale + if a.path == "/" then "" else a.path
  }

  /** A tag without a slash, and a path that begins with one. */
  predicate WellFormed(a: Address) {
    '/' !in a.locale && a.path != "" && a.path[0] == '/'
  }

  /** The tag ends where the text has its second slash, if it has one. */
  lemma TagEnds(a: Address, b: Address)
    requires WellFormed(a) && WellFormed(b) && Localized(a) == Localized(b)
    ensures |a.locale| <= |b.locale|
  {
    var text := Localized(a);
    assert forall k :: 0 <= k < |a.locale| ==> text[1 + k] == a.locale[k] && a.locale[k] in a.locale;
    assert |text| > 1 + |b.locale| ==> text[1 + |b.locale|] == '/';
  }

  /** So pairs of tag and path may stand for those texts. */
  lemma LocalizedInjective(a: Address, b: Address)
    requires WellFormed(a) && WellFormed(b)
    ensures Localized(a) == Localized(b) <==> a == b
  {
    if Localized(a) == Localized(b) {
      TagEnds(a, b);
      TagEnds(b, a);
      var text := Localized(a);
      assert text[1..1 + |a.locale|] == a.locale && text[1..1 + |b.locale|] == b.locale;
      var rest := text[1 + |a.locale|..];
      assert rest == (if a.path == "/" then "" else a.path) == (if b.path == "/" then "" else b.path);
    }
  }

  const PRIVATE_PREFIXES: seq<string> :=
    ["/admin", "/api", "/tasks", "/results", "/delivery", "/internal", "/tickets", "/candidates", "/objects"]

  predicate Private(path: string) {
    exists i :: 0 <= i < |PRIVATE_PREFIXES| && (path == PRIVATE_PREFIXES[i] || PRIVATE_PREFIXES[i] + "/" <= path)
  }

  datatype Blocker = PrivatePath | PathCollision | RedirectCollision | RedirectChain | RedirectLoop | MigrationMissing

  /** A blocker of the page at a position. */
  datatype Finding = Finding(page: nat, blocker: Blocker)

  /** Where each redirect leads; a later entry replaces an earlier one. */
  function Targets(pages: seq<Page>): map<Address, Address> {
    if pages == [] then map[]
    else
      var p := pages[|pages| - 1];
      Targets(pages[..|pages| - 1]) + map a | a in SourcesOf(p) :: AddressOf(p)
  }

  lemma {:induction false} TargetsAreSources(pages: seq<Page>)
    ensures Targets(pages).Keys == Sources(pages)
  {
    if pages != [] {
      var n := |pages| - 1;
      TargetsAreSources(pages[..n]);
      assert pages == pages[..n] + [pages[n]];
      SetsGrow(pages[..n], pages[n]);
    }
  }

  /** `find` of a page by its key. */
  function Find(pages: seq<Page>, key: PageKey): Option<Page> {
    if pages == [] then None else if KeyOf(pages[0]) == key then Some(pages[0]) else Find(pages[1..], key)
  }

  /** The page was published at another path that it does not redirect. */
  predicate Unmigrated(active: seq<Page>, p: Page) {
    var prior := Find(active, KeyOf(p));
    prior.Some? && prior.value.path != p.path && prior.value.path !in p.redirects
  }

  predicate HasPrivate(p: Page) {
    Private(p.path) || exists r :: r in p.redirects && Private(r)
  }

  predicate Collides(p: Page, paths: set<Address>, sources: set<Address>) {
    !(NoRepeat(p.redirects) && SourcesOf(p) !! sources && SourcesOf(p) !! paths + {AddressOf(p)})
  }

  /** The page redirects, and what it redirects to is redirected itself. */
  predicate Chains(pages: seq<Page>, p: Page) {
    p.redirects != [] && AddressOf(p) in Sources(pages)
  }

  /** Where `n` redirects lead from an address. */
  function Hop(targets: map<Address, Address>, start: Address, n: nat): Option<Address> {
    if n == 0 then Some(start)
    else
      match Hop(targets, start, n - 1)
      case None => None
      case Some(a) => if a in targets then Some(targets[a]) else None
  }

  /** Following the redirects never ends, or comes by `from`. */
  ghost predicate GoesRound(targets: map<Address, Address>, from: Address, start: Address) {
    || (forall n: nat :: Hop(targets, start, n).Some?)
    || (from in targets && exists n: nat :: Hop(targets, start, n) == Some(from))
  }

  /** A redirect of the page goes round. */
  ghost predicate Circles(pages: seq<Page>, p: Page) {
    exists k :: 0 <= k < |p.redirects| && GoesRound(Targets(pages), Address(p.locale, p.redirects[k]), AddressOf(p))
  }

  lemma {:induction false} HopStaysNone(targets: map<Address, Address>, start: Address, m: nat, n: nat)
    requires m <= n && Hop(targets, start, m) == None
    ensures Hop(targets, start, n) == None
  {
    if m < n {
      HopStaysNone(targets, start, m, n - 1);
    }
  }

  /** A walk that has come back to an earlier address shows only what it has shown already. */
  lemma {:induction false} HopRepeats(targets: map<Address, Address>, start: Address, i: nat, k: nat, n: nat)
    requires i < k && Hop(targets, start, i) == Hop(targets, start, k) && Hop(targets, start, k).Some?
    ensures Hop(targets, start, n).Some?
    decreases n
  {
    if k < n {
      HopShifts(targets, start, i, k, n);
      HopRepeats(targets, start, i, k, n - (k - i));
    } else if Hop(targets, start, n) == None {
      HopStaysNone(targets, start, n, k);
    }
  }

  lemma {:induction false} HopShifts(targets: map<Address, Address>, start: Address, i: nat, k: nat, n: nat)
    requires i < k <= n && Hop(targets, start, i) == Hop(targets, start, k)
    ensures Hop(targets, start, n) == Hop(targets, start, n - (k - i))
  {
    if k < n {
      HopShifts(targets, start, i, k, n - 1);
    }
  }

  lemma RoundNeedsTarget(targets: map<Address, Address>, from: Address, start: Address)
    requires GoesRound(targets, from, start)
    ensures start in targets
  {
    if start !in targets {
      assert Hop(targets, start, 1) == None;
      var n: nat :| Hop(targets, start, n) == Some(from);
      if n > 0 {
        HopStaysNone(targets, start, 1, n);
      }
    }
  }

  /** What is wrong with a page against the paths and redirects collected before it. */
  predicate RaisedBehind(p: Page, paths: set<Address>, sources: set<Address>, b: Blocker) {
    match b
    case PrivatePath => HasPrivate(p)
    case PathCollision => AddressOf(p) in paths
    case RedirectCollision => Collides(p, paths, sources)
    case _ => false
  }

  predicate RaisedFirst(pages: seq<Page>, f: Finding) {
    f.page < |pages|
    && RaisedBehind(pages[f.page], Paths(pages[..f.page]), Sources(pages[..f.page]), f.blocker)
  }

  /** What is wrong once all redirects are known. */
  ghost predicate RaisedSecond(pages: seq<Page>, active: seq<Page>, f: Finding) {
    f.page < |pages|
    && match f.blocker
       case RedirectChain => Chains(pages, pages[f.page])
       case RedirectLoop => Circles(pages, pages[f.page])
       case MigrationMissing => Unmigrated(active, pages[f.page])
       case _ => false
  }

  /** The walk has been at `k` addresses, all of them in `seen` and none of them `from`, and is at `cursor`. */
  ghost predicate Walked(targets: map<Address, Address>, from: Address, target: Address, k: nat, cursor: Address,
                         seen: set<Address>)
  {
    && Hop(targets, target, k) == Some(cursor)
    && (forall a :: a in seen <==> a == from || WalkedBy(targets, target, k, a))
    && !WalkedBy(targets, target, k, from)
  }

  ghost predicate WalkedBy(targets: map<Address, Address>, target: Address, k: nat, a: Address) {
    exists i: nat :: i < k && Hop(targets, target, i) == Some(a)
  }

  lemma WalkGoesOn(targets: map<Address, Address>, from: Address, target: Address, k: nat, cursor: Address,
                   seen: set<Address>)
    requires Walked(targets, from, target, k, cursor, seen) && cursor in targets && cursor !in seen
    ensures Walked(targets, from, target, k + 1, targets[cursor], seen + {cursor})
  {
    forall a ensures WalkedBy(targets, target, k + 1, a) <==> a == cursor || WalkedBy(targets, target, k, a) {
    }
  }

  lemma WalkComesBack(targets: map<Address, Address>, from: Address, target: Address, k: nat, cursor: Address,
                      seen: set<Address>)
    requires Walked(targets, from, target, k, cursor, seen) && cursor in targets && cursor in seen
    ensures GoesRound(targets, from, target)
  {
    if cursor != from {
      var i: nat :| i < k && Hop(targets, target, i) == Some(cursor);
      forall n: nat ensures Hop(targets, target, n).Some? {
        HopRepeats(targets, target, i, k, n);
      }
    }
  }

  lemma WalkEnds(targets: map<Address, Address>, from: Address, target: Address, k: nat, cursor: Address,
                 seen: set<Address>)
    requires Walked(targets, from, target, k, cursor, seen) && cursor !in targets
    ensures !GoesRound(targets, from, target)
  {
    assert Hop(targets, target, k + 1) == None;
    forall n: nat | from in targets ensures Hop(targets, target, n) != Some(from) {
      if k < n {
        HopStaysNone(targets, target, k + 1, n);
      }
    }
  }

  /** The walk along the redirects from a target, until it ends or comes to an address seen before. */
  method Loops(targets: map<Address, Address>, from: Address, target: Address) returns (loops: bool)
    ensures loops <==> GoesRound(targets, from, target)
  {
    var cursor, seen := target, {from};
    ghost var k: nat := 0;
    while cursor in targets
      invariant Walked(targets, from, target, k, cursor, seen)
      decreases targets.Keys - seen
    {
      if cursor in seen {
        WalkComesBack(targets, from, target, k, cursor, seen);
        return true;
      }
      WalkGoesOn(targets, from, target, k, cursor, seen);
      seen := seen + {cursor};
      cursor := targets[cursor];
      k := k + 1;
    }
    WalkEnds(targets, from, target, k, cursor, seen);
    return false;
  }

  /** One page of the first pass: its path and its redirects against those of the pages before. */
  method CheckPage(p: Page, i: nat, paths: set<Address>, sources: set<Address>) returns (found: set<Finding>)
    ensures forall f :: f in found <==> f.page == i && RaisedBehind(p, paths, sources, f.blocker)
  {
    found := {};
    if HasPrivate(p) {
      found := found + {Finding(i, PrivatePath)};
    }
    if AddressOf(p) in paths {
      found := found + {Finding(i, PathCollision)};
    }
    var fits, _ := CheckRedirects(p, paths + {AddressOf(p)}, sources);
    if !fits {
      found := found + {Finding(i, RedirectCollision)};
    }
  }

  /** The first pass over the pages: blockers of paths and redirects, and where the redirects lead. */
  method FirstPass(pages: seq<Page>) returns (found: set<Finding>, redirects: map<Address, Address>)
    ensures redirects == Targets(pages)
    ensures forall f :: f in found <==> RaisedFirst(pages, f)
  {
    found, redirects := {}, map[];
    var targets: set<Address> := {};
    for i := 0 to |pages|
      invariant targets == Paths(pages[..i]) && redirects == Targets(pages[..i])
      invariant forall f :: f in found <==> f.page < i && RaisedFirst(pages, f)
    {
      var p := pages[i];
      TargetsAreSources(pages[..i]);
      SetsGrow(pages[..i], p);
      assert pages[..i + 1] == pages[..i] + [p];
      var more := CheckPage(p, i, targets, redirects.Keys);
      assert forall f :: f in more <==> f.page == i && RaisedFirst(pages, f);
      found := found + more;
      targets := targets + {AddressOf(p)};
      redirects := redirects + map a | a in SourcesOf(p) :: AddressOf(p);
    }
    assert pages[..|pages|] == pages;
  }

  /** One page of the second pass. */
  method CheckTarget(p: Page, i: nat, redirects: map<Address, Address>) returns (found: set<Finding>)
    ensures forall f :: f in found <==>
              || (f == Finding(i, RedirectChain) && p.redirects != [] && AddressOf(p) in redirects)
              || (f == Finding(i, RedirectLoop)
                  && exists k :: 0 <= k < |p.redirects|
                       && GoesRound(redirects, Address(p.locale, p.redirects[k]), AddressOf(p)))
  {
    found := {};
    for k := 0 to |p.redirects|
      invariant forall f :: f in found <==>
                  || (f == Finding(i, RedirectChain) && k > 0 && AddressOf(p) in redirects)
                  || (f == Finding(i, RedirectLoop)
                      && exists j :: 0 <= j < k
                           && GoesRound(redirects, Address(p.locale, p.redirects[j]), AddressOf(p)))
    {
      if AddressOf(p) in redirects {
        found := found + {Finding(i, RedirectChain)};
      }
      var loops := Loops(redirects, Address(p.locale, p.redirects[k]), AddressOf(p));
      if loops {
        found := found + {Finding(i, RedirectLoop)};
      }
    }
  }

  /** The second pass: chains, loops and missing migrations. */
  method SecondPass(pages: seq<Page>, active: seq<Page>, redirects: map<Address, Address>)
    returns (found: set<Finding>)
    requires redirects == Targets(pages)
    ensures forall f :: f in found <==> RaisedSecond(pages, active, f)
  {
    found := {};
    TargetsAreSources(pages);
    for i := 0 to |pages|
      invariant forall f :: f in found <==> f.page < i && RaisedSecond(pages, active, f)
    {
      var more := CheckTarget(pages[i], i, redirects);
      if Unmigrated(active, pages[i]) {
        more := more + {Finding(i, MigrationMissing)};
      }
      assert forall f :: f in more <==> f.page == i && RaisedSecond(pages, active, f);
      found := found + more;
    }
  }

  /** Nothing to say against the paths and redirects of the pages. */
  predicate Clear(pages: seq<Page>, active: seq<Page>) {
    forall i :: 0 <= i < |pages| ==>
      && !HasPrivate(pages[i]) && AddressOf(pages[i]) !in Paths(pages[..i])
      && !Collides(pages[i], Paths(pages[..i]), Sources(pages[..i]))
      && !Chains(pages, pages[i]) && !Unmigrated(active, pages[i])
  }

  /** The path and redirect blockers of `deriveSeoTechnicalView`. */
  method TechnicalBlockers(pages: seq<Page>, active: seq<Page>) returns (found: set<Finding>)
    ensures forall f :: f in found <==> RaisedFirst(pages, f) || RaisedSecond(pages, active, f)
    ensures found == {} <==> Clear(pages, active)
  {
    var first, redirects := FirstPass(pages);
    var second := SecondPass(pages, active, redirects);
    found := first + second;
    ClearTold(pages, active, found);
  }

  /** A blocker for a loop comes only with one for a chain. */
  lemma LoopNeedsChain(pages: seq<Page>, active: seq<Page>, i: nat)
    requires RaisedSecond(pages, active, Finding(i, RedirectLoop))
    ensures RaisedSecond(pages, active, Finding(i, RedirectChain))
  {
    var p := pages[i];
    TargetsAreSources(pages);
    var k :| 0 <= k < |p.redirects| && GoesRound(Targets(pages), Address(p.locale, p.redirects[k]), AddressOf(p));
    RoundNeedsTarget(Targets(pages), Address(p.locale, p.redirects[k]), AddressOf(p));
  }

  lemma ClearTold(pages: seq<Page>, active: seq<Page>, found: set<Finding>)
    requires forall f :: f in found <==> RaisedFirst(pages, f) || RaisedSecond(pages, active, f)
    ensures found == {} <==> Clear(pages, active)
  {
    if found == {} {
      forall i | 0 <= i < |pages|
        ensures !HasPrivate(pages[i]) && AddressOf(pages[i]) !in Paths(pages[..i])
        ensures !Collides(pages[i], Paths(pages[..i]), Sources(pages[..i]))
        ensures !Chains(pages, pages[i]) && !Unmigrated(active, pages[i])
      {
        assert !RaisedFirst(pages, Finding(i, PrivatePath)) && !RaisedFirst(pages, Finding(i, PathCollision));
        assert !RaisedFirst(pages, Finding(i, RedirectCollision));
        assert !RaisedSecond(pages, active, Finding(i, RedirectChain));
        assert !RaisedSecond(pages, active, Finding(i, MigrationMissing));
      }
    } else {
      var f :| f in found;
      if f.blocker == RedirectLoop {
        LoopNeedsChain(pages, active, f.page);
      }
    }
  }

  // ----- the same told page by page

  /** A page of this tag redirects from the path. */
  predicate RedirectsFrom(p: Page, locale: string, path: string) {
    p.locale == locale && exists k :: 0 <= k < |p.redirects| && p.redirects[k] == path
  }

  predicate Lies(p: Page, locale: string, path: string) {
    p.locale == locale && p.path == path
  }

  lemma SourcesMean(pages: seq<Page>, locale: string, path: string)
    ensures Address(locale, path) in Sources(pages) <==>
              exists j :: 0 <= j < |pages| && RedirectsFrom(pages[j], locale, path)
    ensures Address(locale, path) in Paths(pages) <==> exists j :: 0 <= j < |pages| && Lies(pages[j], locale, path)
  {
    if j :| 0 <= j < |pages| && RedirectsFrom(pages[j], locale, path) {
      assert pages[j] in pages && path in pages[j].redirects;
    }
    if j :| 0 <= j < |pages| && Lies(pages[j], locale, path) {
      assert AddressOf(pages[j]) == Address(locale, path) && pages[j] in pages;
    }
  }

  /** The `k`-th redirect of page `i` was there before: on the page itself, on an earlier one, or as a path. */
  ghost predicate Taken(pages: seq<Page>, i: nat, k: nat)
    requires i < |pages| && k < |pages[i].redirects|
  {
    var p := pages[i];
    || p.redirects[k] == p.path
    || (exists m :: 0 <= m < k && p.redirects[m] == p.redirects[k])
    || (exists j :: 0 <= j < i && RedirectsFrom(pages[j], p.locale, p.redirects[k]))
    || (exists j :: 0 <= j < i && Lies(pages[j], p.locale, p.redirects[k]))
  }

  ghost predicate SomeTaken(pages: seq<Page>, i: nat)
    requires i < |pages|
  {
    exists k: nat :: k < |pages[i].redirects| && Taken(pages, i, k)
  }

  lemma TakenIff(pages: seq<Page>, i: nat, k: nat)
    requires i < |pages| && k < |pages[i].redirects|
    ensures var p := pages[i]; var a := Address(p.locale, p.redirects[k]);
            Taken(pages, i, k) <==>
              || (exists m :: 0 <= m < k && p.redirects[m] == p.redirects[k])
              || a in Sources(pages[..i]) || a in Paths(pages[..i]) + {AddressOf(p)}
  {
    var p, before := pages[i], pages[..i];
    SourcesMean(before, p.locale, p.redirects[k]);
    assert forall j :: 0 <= j < i ==> before[j] == pages[j];
  }

  lemma CollidesIffTaken(pages: seq<Page>, i: nat)
    requires i < |pages|
    ensures Collides(pages[i], Paths(pages[..i]), Sources(pages[..i])) <==> SomeTaken(pages, i)
  {
    var p, paths, sources := pages[i], Paths(pages[..i]) + {AddressOf(pages[i])}, Sources(pages[..i]);
    if SomeTaken(pages, i) {
      var k: nat :| k < |p.redirects| && Taken(pages, i, k);
      TakenIff(pages, i, k);
      assert Address(p.locale, p.redirects[k]) in SourcesOf(p);
    }
    if !NoRepeat(p.redirects) {
      var m, k :| 0 <= m < k < |p.redirects| && p.redirects[m] == p.redirects[k];
      TakenIff(pages, i, k);
    } else if a :| a in SourcesOf(p) && (a in sources || a in paths) {
      var k :| 0 <= k < |p.redirects| && a == Address(p.locale, p.redirects[k]);
      TakenIff(pages, i, k);
    }
  }

  predicate SameKey(p: Page, q: Page) {
    p.pageId == q.pageId && p.locale == q.locale
  }

  /**
   The schema accepts exactly pages in known locales that share neither key nor path with an earlier one and
   none of whose redirects was there before.
   */
  lemma ParsesIff(pages: seq<Page>, locales: set<string>)
    ensures Parses(pages, locales) <==>
              forall i: nat :: i < |pages| ==>
                && pages[i].locale in locales && !SomeTaken(pages, i)
                && (forall j :: 0 <= j < i ==> !SameKey(pages[j], pages[i]))
                && (forall j :: 0 <= j < i ==> !Lies(pages[j], pages[i].locale, pages[i].path))
  {
    forall i: nat | i < |pages|
      ensures FitsBehind(pages, locales, i) <==>
                && pages[i].locale in locales && !SomeTaken(pages, i)
                && (forall j :: 0 <= j < i ==> !SameKey(pages[j], pages[i]))
                && (forall j :: 0 <= j < i ==> !Lies(pages[j], pages[i].locale, pages[i].path))
    {
      FitsIff(pages, locales, i);
    }
  }

  lemma FitsIff(pages: seq<Page>, locales: set<string>, i: nat)
    requires i < |pages|
    ensures FitsBehind(pages, locales, i) <==>
              && pages[i].locale in locales && !SomeTaken(pages, i)
              && (forall j :: 0 <= j < i ==> !SameKey(pages[j], pages[i]))
              && (forall j :: 0 <= j < i ==> !Lies(pages[j], pages[i].locale, pages[i].path))
  {
    var p, before := pages[i], pages[..i];
    CollidesIffTaken(pages, i);
    SourcesMean(before, p.locale, p.path);
    OwnPath(p, Paths(before));
    assert forall j :: 0 <= j < i ==> before[j] == pages[j];
    KeysMean(before, p);
  }

  lemma KeysMean(pages: seq<Page>, p: Page)
    ensures KeyOf(p) in Keys(pages) <==> exists j :: 0 <= j < |pages| && SameKey(pages[j], p)
  {
    if j :| 0 <= j < |pages| && SameKey(pages[j], p) {
      assert pages[j] in pages && KeyOf(pages[j]) == KeyOf(p);
    }
  }

  /** The `j`-th page is the first with the key of `p`. */
  predicate FirstOf(pages: seq<Page>, p: Page, j: nat) {
    j < |pages| && SameKey(pages[j], p) && forall m :: 0 <= m < j ==> !SameKey(pages[m], p)
  }

  lemma {:induction false} FindIsFirst(pages: seq<Page>, p: Page, j: nat)
    ensures FirstOf(pages, p, j) ==> Find(pages, KeyOf(p)) == Some(pages[j])
    ensures Find(pages, KeyOf(p)).Some? ==> exists m: nat :: FirstOf(pages, p, m)
  {
    if pages != [] {
      if SameKey(pages[0], p) {
        assert FirstOf(pages, p, 0);
      } else {
        FindIsFirst(pages[1..], p, if j > 0 then j - 1 else 0);
        assert forall m :: 0 <= m < |pages| - 1 ==> pages[1..][m] == pages[m + 1];
        if m: nat :| FirstOf(pages[1..], p, m) {
          assert FirstOf(pages, p, m + 1);
        }
      }
    }
  }

  /** A migration is missing exactly when the page was published at another path from which it does not redirect. */
  lemma UnmigratedIff(active: seq<Page>, p: Page)
    ensures Unmigrated(active, p) <==>
              exists j: nat :: FirstOf(active, p, j) && active[j].path != p.path
                               && !RedirectsFrom(p, p.locale, active[j].path)
  {
    FindIsFirst(active, p, 0);
    forall j: nat | FirstOf(active, p, j)
      ensures Find(active, KeyOf(p)) == Some(active[j])
    {
      FindIsFirst(active, p, j);
    }
  }

  function UntilSlash(s: string): string {
    if s == "" || s[0] == '/' then "" else [s[0]] + UntilSlash(s[1..])
  }

  lemma {:induction false} UntilSlashIff(s: string, name: string)
    requires '/' !in name
    ensures UntilSlash(s) == name <==> s == name || name + "/" <= s
  {
    if name == "" {
      assert s != "" ==> ("/" <= s <==> s[0] == '/');
    } else if s != "" && s[0] == name[0] {
      UntilSlashIff(s[1..], name[1..]);
      assert name + "/" == [name[0]] + (name[1..] + "/") && name == [name[0]] + name[1..] && s == [s[0]] + s[1..];
      assert UntilSlash(s)[1..] == UntilSlash(s[1..]);
    } else {
      assert UntilSlash(s) != "" ==> UntilSlash(s)[0] == s[0];
    }
  }

  /** A path is private by its first part alone. */
  lemma PrivateIffFirstPart(path: string)
    requires path != "" && path[0] == '/'
    ensures Private(path) <==>
              exists i :: 0 <= i < |PRIVATE_PREFIXES| && UntilSlash(path[1..]) == PRIVATE_PREFIXES[i][1..]
  {
    forall i | 0 <= i < |PRIVATE_PREFIXES|
      ensures UntilSlash(path[1..]) == PRIVATE_PREFIXES[i][1..] <==>
                path == PRIVATE_PREFIXES[i] || PRIVATE_PREFIXES[i] + "/" <= path
    {
      var prefix := PRIVATE_PREFIXES[i];
      PrefixesAreNames(i);
      UntilSlashIff(path[1..], prefix[1..]);
      assert prefix == "/" + prefix[1..] && path == "/" + path[1..];
      assert prefix + "/" == "/" + (prefix[1..] + "/");
    }
  }

  lemma PrefixesAreNames(i: nat)
    requires i < |PRIVATE_PREFIXES|
    ensures PRIVATE_PREFIXES[i] != "" && PRIVATE_PREFIXES[i][0] == '/' && '/' !in PRIVATE_PREFIXES[i][1..]
  {
  }

  // ----- what the site answers

  datatype Answer = RedirectTo(address: Address) | Shown(page: Page) | NotFound

  /** `findPublishedRedirect` */
  function FindRedirect(pages: seq<Page>, a: Address): (found: Option<Page>)
    ensures found.Some? ==> found.value in pages && a in SourcesOf(found.value)
    ensures found.None? ==> a !in Sources(pages)
  {
    if pages == [] then None
    else
      assert pages == [pages[0]] + pages[1..];
      if pages[0].locale == a.locale && a.path in pages[0].redirects then Some(pages[0])
      else FindRedirect(pages[1..], a)
  }

  /** `findPublishedPage` */
  function FindPage(pages: seq<Page>, a: Address): (found: Option<Page>)
    ensures found.Some? ==> found.value in pages && AddressOf(found.value) == a
    ensures found.None? ==> a !in Paths(pages)
  {
    if pages == [] then None
    else
      assert pages == [pages[0]] + pages[1..];
      if AddressOf(pages[0]) == a then Some(pages[0]) else FindPage(pages[1..], a)
  }

  /** Redirects are looked up before pages. */
  function Answered(pages: seq<Page>, a: Address): Answer {
    var redirect := FindRedirect(pages, a);
    if redirect.Some? then RedirectTo(AddressOf(redirect.value))
    else
      var page := FindPage(pages, a);
      if page.Some? then Shown(page.value) else NotFound
  }

  /** A publication passes both checks. */
  predicate Accepted(pages: seq<Page>, locales: set<string>, active: seq<Page>) {
    Parses(pages, locales) && Clear(pages, active)
  }

  /** A page and one behind it share neither path nor redirect, and the later one does not redirect from the earlier. */
  predicate Apart(p: Page, q: Page) {
    AddressOf(p) != AddressOf(q) && SourcesOf(p) !! SourcesOf(q) && AddressOf(p) !in SourcesOf(q)
  }

  lemma PagesApart(pages: seq<Page>, locales: set<string>)
    requires Parses(pages, locales)
    ensures forall i, j :: 0 <= i < j < |pages| ==> Apart(pages[i], pages[j])
  {
    forall i, j | 0 <= i < j < |pages| ensures Apart(pages[i], pages[j]) {
      assert FitsBehind(pages, locales, j);
      assert pages[..j][i] == pages[i] && pages[i] in pages[..j];
      assert SourcesOf(pages[i]) <= Sources(pages[..j]);
    }
  }

  lemma OnePagePerAddress(pages: seq<Page>, locales: set<string>, p: Page, q: Page)
    requires Parses(pages, locales) && p in pages && q in pages && AddressOf(p) == AddressOf(q)
    ensures p == q
  {
    PagesApart(pages, locales);
    var i :| 0 <= i < |pages| && pages[i] == p;
    var j :| 0 <= j < |pages| && pages[j] == q;
  }

  lemma OnePagePerSource(pages: seq<Page>, locales: set<string>, p: Page, q: Page, a: Address)
    requires Parses(pages, locales) && p in pages && q in pages && a in SourcesOf(p) && a in SourcesOf(q)
    ensures p == q
  {
    PagesApart(pages, locales);
    var i :| 0 <= i < |pages| && pages[i] == p;
    var j :| 0 <= j < |pages| && pages[j] == q;
  }

  /** A page that is not redirected is the one that is shown. */
  lemma ShownUnlessRedirected(pages: seq<Page>, locales: set<string>, p: Page)
    requires Parses(pages, locales) && p in pages
    ensures Answered(pages, AddressOf(p)) == Shown(p) <==> AddressOf(p) !in Sources(pages)
  {
    var redirect := FindRedirect(pages, AddressOf(p));
    if redirect.Some? {
      assert AddressOf(p) in Sources(pages);
    } else {
      var page := FindPage(pages, AddressOf(p));
      assert AddressOf(p) in Paths(pages);
      OnePagePerAddress(pages, locales, p, page.value);
    }
  }

  /** After an accepted publication every redirect leads to a page in one step. */
  lemma RedirectsEndAtPages(pages: seq<Page>, locales: set<string>, active: seq<Page>, a: Address)
    requires Accepted(pages, locales, active) && Answered(pages, a).RedirectTo?
    ensures exists p :: p in pages && Answered(pages, a) == RedirectTo(AddressOf(p))
                        && Answered(pages, AddressOf(p)) == Shown(p)
  {
    var p := FindRedirect(pages, a).value;
    var i :| 0 <= i < |pages| && pages[i] == p;
    assert !Chains(pages, pages[i]);
    ShownUnlessRedirected(pages, locales, p);
  }

  /** The old path of a page that has moved leads to it, and it is shown there. */
  lemma MovedPagesAreFound(pages: seq<Page>, locales: set<string>, active: seq<Page>, p: Page)
    requires Accepted(pages, locales, active) && p in pages
    requires Find(active, KeyOf(p)).Some? && Find(active, KeyOf(p)).value.path != p.path
    ensures var old_ := Address(p.locale, Find(active, KeyOf(p)).value.path);
            Answered(pages, old_) == RedirectTo(AddressOf(p)) && Answered(pages, AddressOf(p)) == Shown(p)
  {
    var old_ := Address(p.locale, Find(active, KeyOf(p)).value.path);
    var i :| 0 <= i < |pages| && pages[i] == p;
    assert !Unmigrated(active, pages[i]) && !Chains(pages, pages[i]);
    assert old_ in SourcesOf(p) && old_ in Sources(pages);
    OnePagePerSource(pages, locales, p, FindRedirect(pages, old_).value, old_);
    ShownUnlessRedirected(pages, locales, p);
  }

  /**
   An accepted publication hides a page exactly when a page before it redirects from its path; such a page
   has no redirects of its own, for otherwise it would have been found as a chain.
   */
  lemma HiddenIffEarlierRedirect(pages: seq<Page>, locales: set<string>, active: seq<Page>, i: nat)
    requires Accepted(pages, locales, active) && i < |pages|
    ensures Answered(pages, AddressOf(pages[i])) == Shown(pages[i]) <==> AddressOf(pages[i]) !in Sources(pages[..i])
    ensures AddressOf(pages[i]) in Sources(pages[..i]) ==> pages[i].redirects == []
  {
    var p := pages[i];
    ShownUnlessRedirected(pages, locales, p);
    PagesApart(pages, locales);
    assert FitsBehind(pages, locales, i) && AddressOf(p) !in SourcesOf(p);
    if AddressOf(p) in Sources(pages) {
      var q, r :| q in pages && r in q.redirects && AddressOf(p) == Address(q.locale, r);
      var j :| 0 <= j < |pages| && pages[j] == q;
      assert AddressOf(p) in SourcesOf(pages[j]);
      assert j < i && pages[..i][j] == q;
    }
    if AddressOf(p) in Sources(pages[..i]) {
      var q, r :| q in pages[..i] && r in q.redirects && AddressOf(p) == Address(q.locale, r);
      assert q in pages;
      assert !Chains(pages, p);
    }
  }

  /** Both checks look at the pages in order: a page that takes over a redirected path is only refused in front. */
  lemma OrderDecides(first: Page, second: Page, locales: set<string>)
    requires first.locale == second.locale && first.locale in locales && KeyOf(first) != KeyOf(second)
    requires first.redirects == [second.path] && second.redirects == [] && first.path != second.path
    requires !Private(first.path) && !Private(second.path)
    ensures Accepted([first, second], locales, []) && !Parses([second, first], locales)
    ensures Answered([first, second], AddressOf(second)) == RedirectTo(AddressOf(first))
  {
    var pages := [first, second];
    assert pages[..0] == [] && pages[..1] == [first] && [second, first][..1] == [second];
    assert SourcesOf(first) == {AddressOf(second)} && SourcesOf(second) == {};
    assert !FitsBehind([second, first], locales, 1) by {
      assert AddressOf(second) in Paths([second]);
    }
    assert AddressOf(first) !in Sources(pages);
    assert forall i :: 0 <= i < 2 ==> FitsBehind(pages, locales, i);
    assert FindRedirect(pages, AddressOf(second)) == Some(first);
  }
}
