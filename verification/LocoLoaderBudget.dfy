/**
 The shared LocoLoader allowance of apps/worker/src/locoloader-budget.ts: a fixed extraction
 window, short in-flight leases and a minimum spacing, kept in three expiring Redis keys and
 changed only by two atomic scripts.

 `Reserve` and `Drop` give the meaning of the scripts on values, the class `BudgetStore` runs
 them in place, and the lemmas below speak about every run of acquisitions, releases and clock
 steps.
 */
module LocoLoaderBudget {
  import opened Redis

  type Token = string

  datatype Config = Config(maxExtractions: int, windowMs: int, maxConcurrency: int, minIntervalMs: int) {
    predicate Valid() {
      && 1 <= maxExtractions <= 100
      && 1_000 <= windowMs <= 86_400_000
      && 1 <= maxConcurrency <= 16
      && 0 <= minIntervalMs <= 60_000
    }

    /** How long an in-flight slot is kept when nobody releases it. */
    function LeaseMs(): int {
      if 90_000 < minIntervalMs + 60_000 then minIntervalMs + 60_000 else 90_000
    }
  }

  const DEFAULT_CONFIG := Config(2, 21_600_000, 1, 1_000)

  /** The three keys: window counter, in-flight members with their expiry scores, last grant. */
  datatype Keys = Keys(count: Key<nat>, active: Key<map<Token, int>>, last: Key<int>)

  const EMPTY_KEYS := Keys(Absent, Absent, Absent)

  function InFlight(k: Keys, now: int): map<Token, int> {
    Prune(k.active.ReadAt(now, map[]), now)
  }

  /** The number INCR would return. */
  function NextNumber(k: Keys, now: int): nat {
    k.count.ReadAt(now, 0) + 1
  }

  predicate Spaced(cfg: Config, k: Keys, now: int) {
    var last := k.last.ReadAt(now, 0);
    last <= 0 || last + cfg.minIntervalMs <= now
  }

  /** The reserve script admits. */
  predicate Admits(cfg: Config, k: Keys, now: int) {
    && NextNumber(k, now) <= cfg.maxExtractions
    && |InFlight(k, now)| < cfg.maxConcurrency
    && Spaced(cfg, k, now)
  }

  /** The keys after an admitted reservation. */
  function Granted(cfg: Config, k: Keys, now: int, token: Token): Keys {
    Keys(
      Present(NextNumber(k, now), if k.count.LiveAt(now) then k.count.deadline else now + cfg.windowMs),
      Present(InFlight(k, now)[token := now + cfg.LeaseMs()], now + cfg.LeaseMs()),
      Present(now, now + cfg.windowMs))
  }

  /** The keys after a refused reservation: once the counter test passed, expired members are gone. */
  function Refused(cfg: Config, k: Keys, now: int): Keys {
    if NextNumber(k, now) <= cfg.maxExtractions && k.active.LiveAt(now)
    then k.(active := Present(InFlight(k, now), k.active.deadline))
    else k
  }

  function Reserve(cfg: Config, k: Keys, now: int, token: Token): Keys {
    if Admits(cfg, k, now) then Granted(cfg, k, now, token) else Refused(cfg, k, now)
  }

  /** ZREM on the in-flight set; nothing else is touched. */
  function Drop(k: Keys, now: int, token: Token): Keys {
    if k.active.LiveAt(now) then k.(active := Present(k.active.value - {token}, k.active.deadline)) else k
  }

  /** The scripts, executed on the stored keys. */
  class BudgetStore {
    var count: Key<nat>
    var active: Key<map<Token, int>>
    var last: Key<int>

    ghost function Contents(): Keys
      reads this
    {
      Keys(count, active, last)
    }

    constructor ()
      ensures Contents() == EMPTY_KEYS
    {
      count, active, last := Absent, Absent, Absent;
    }

    method ReserveScript(cfg: Config, now: int, token: Token) returns (granted: bool)
      requires cfg.Valid()
      modifies this
      ensures granted == Admits(cfg, old(Contents()), now)
      ensures Contents() == Reserve(cfg, old(Contents()), now, token)
    {
      var seen := count.ReadAt(now, 0);
      if seen >= cfg.maxExtractions {
        return false;
      }
      if active.LiveAt(now) {
        active := Present(Prune(active.value, now), active.deadline);
      }
      var members := active.ReadAt(now, map[]);
      assert members == InFlight(old(Contents()), now);
      if |members| >= cfg.maxConcurrency {
        return false;
      }
      var previous := last.ReadAt(now, 0);
      if previous > 0 && now < previous + cfg.minIntervalMs {
        return false;
      }
      var nextCount := seen + 1;
      if count.LiveAt(now) {
        count := Present(nextCount, count.deadline);
      } else {
        count := Present(nextCount, now + cfg.windowMs);
      }
      active := Present(members[token := now + cfg.LeaseMs()], now + cfg.LeaseMs());
      last := Present(now, now + cfg.windowMs);
      return true;
    }

    method ReleaseScript(now: int, token: Token)
      modifies this
      ensures Contents() == Drop(old(Contents()), now, token)
    {
      if active.LiveAt(now) {
        active := Present(active.value - {token}, active.deadline);
      }
    }
  }

  /** Whether a Redis call reached the server and whether its answer came back. */
  datatype Fault = Delivered | NotSent | AnswerLost

  /** What `acquire` hands out: the closure owns one token and flips its own flag. */
  class Permit {
    const store: BudgetStore
    const token: Token
    var released: bool

    constructor (store: BudgetStore, token: Token)
      ensures this.store == store && this.token == token && !released
    {
      this.store, this.token, this.released := store, token, false;
    }

    /** Only the first call reaches the store, and it never gives an extraction back. */
    method Release(now: int, fault: Fault)
      modifies this, store
      ensures released
      ensures old(released) || fault == NotSent ==> store.Contents() == old(store.Contents())
      ensures !old(released) && fault != NotSent ==> store.Contents() == Drop(old(store.Contents()), now, token)
      ensures store.count == old(store.count) && store.last == old(store.last)
    {
      if released {
        return;
      }
      released := true;
      if fault != NotSent {
        store.ReleaseScript(now, token);
      }
    }
  }

  /** `acquire`: fails closed when the answer is not known. */
  method Acquire(store: BudgetStore, cfg: Config, now: int, token: Token, fault: Fault) returns (permit: Permit?)
    requires cfg.Valid()
    modifies store
    ensures permit != null <==> fault == Delivered && Admits(cfg, old(store.Contents()), now)
    ensures permit != null ==> fresh(permit) && permit.store == store && permit.token == token && !permit.released
    ensures store.Contents() ==
            if fault == NotSent then old(store.Contents()) else Reserve(cfg, old(store.Contents()), now, token)
  {
    permit := null;
    if fault == NotSent {
      return;
    }
    var result := store.ReserveScript(cfg, now, token);
    if fault == AnswerLost || !result {
      return;
    }
    permit := new Permit(store, token);
  }

  // ----- runs

  /** A grant: when, to whom, the number INCR returned, and when the counter it was counted in expires. */
  datatype Grant = Grant(at: int, token: Token, number: nat, closes: int)

  /** `released` are the closures that were called, `removed` those of them whose script reached Redis. */
  datatype System = System(now: int, keys: Keys, grants: seq<Grant>, released: set<Token>, removed: set<Token>)

  /** One atomic step. A give-back whose script never reached Redis only flips the closure's flag. */
  datatype Event =
    | Wait(ms: nat)
    | Ask(token: Token)
    | GiveBack(token: Token)
    | GiveBackUnsent(token: Token)

  function Init(start: int): System {
    System(start, EMPTY_KEYS, [], {}, {})
  }

  predicate WasGranted(s: System, token: Token) {
    exists i :: 0 <= i < |s.grants| && s.grants[i].token == token
  }

  /** Tokens are random and never drawn twice; only a granted token can be given back. */
  predicate Enabled(s: System, e: Event) {
    match e
    case Wait(_) => true
    case Ask(token) => !WasGranted(s, token)
    case GiveBack(token) => WasGranted(s, token)
    case GiveBackUnsent(token) => WasGranted(s, token)
  }

  function NewGrant(cfg: Config, s: System, token: Token): Grant {
    var count := Granted(cfg, s.keys, s.now, token).count;
    Grant(s.now, token, count.value, count.deadline)
  }

  function Step(cfg: Config, s: System, e: Event): System {
    if !Enabled(s, e) then s else
    match e
    case Wait(ms) => s.(now := s.now + ms)
    case Ask(token) =>
      s.(keys := Reserve(cfg, s.keys, s.now, token),
         grants := if Admits(cfg, s.keys, s.now) then s.grants + [NewGrant(cfg, s, token)] else s.grants)
    case GiveBack(token) =>
      if token in s.released then s
      else s.(keys := Drop(s.keys, s.now, token), released := s.released + {token}, removed := s.removed + {token})
    case GiveBackUnsent(token) => s.(released := s.released + {token})
  }

  function Run(cfg: Config, start: int, events: seq<Event>): System {
    if events == [] then Init(start)
    else Step(cfg, Run(cfg, start, events[..|events| - 1]), events[|events| - 1])
  }

  // ----- the ledger of grants and its relation to the keys

  /** A grant either continues the window of the grant before it or opens one after that window closed. */
  predicate Follows(cfg: Config, before: Grant, after: Grant) {
    && before.at <= after.at
    && if after.number == 1 then before.closes <= after.at && after.closes == after.at + cfg.windowMs
       else after.number == before.number + 1 && after.closes == before.closes
  }

  predicate Ledger(cfg: Config, grants: seq<Grant>) {
    var n := |grants|;
    if n == 0 then true else
    && Ledger(cfg, grants[..n - 1])
    && 1 <= grants[n - 1].number <= cfg.maxExtractions
    && if n == 1 then grants[0].number == 1 && grants[0].closes == grants[0].at + cfg.windowMs
       else Follows(cfg, grants[n - 2], grants[n - 1])
  }

  /** The counter key mirrors the newest grant. */
  predicate CounterAgrees(s: System) {
    var n := |s.grants|;
    s.keys.count == if n == 0 then Absent else Present(s.grants[n - 1].number, s.grants[n - 1].closes)
  }

  /** The spacing key mirrors the newest grant, which lies in the past. */
  predicate LastAgrees(cfg: Config, s: System) {
    var n := |s.grants|;
    && s.keys.last == (if n == 0 then Absent else Present(s.grants[n - 1].at, s.grants[n - 1].at + cfg.windowMs))
    && (n > 0 ==> s.grants[n - 1].at <= s.now)
  }

  /** A slot is kept for ninety seconds, or for the minimum interval and a minute if that is longer. */
  predicate SlotRuns(cfg: Config, s: System, i: nat)
    requires i < |s.grants|
  {
    var age := s.now - s.grants[i].at;
    age < 90 * 1000 || age < cfg.minIntervalMs + 60 * 1000
  }

  predicate IsOutstanding(cfg: Config, s: System, i: nat)
    requires i < |s.grants|
  {
    SlotRuns(cfg, s, i) && s.grants[i].token !in s.released
  }

  /** Permits that were granted, not given back, and whose slot has not run out. */
  function Outstanding(cfg: Config, s: System): set<Token> {
    set i: nat | i < |s.grants| && IsOutstanding(cfg, s, i) :: s.grants[i].token
  }

  predicate IsHeld(cfg: Config, s: System, i: nat)
    requires i < |s.grants|
  {
    SlotRuns(cfg, s, i) && s.grants[i].token !in s.removed
  }

  /** The slots that are taken: outstanding permits, and those given back without Redis hearing of it. */
  function Held(cfg: Config, s: System): set<Token> {
    set i: nat | i < |s.grants| && IsHeld(cfg, s, i) :: s.grants[i].token
  }

  /** Every held slot sits in the live in-flight key: the key's own TTL drops none of them. */
  predicate MembersKept(cfg: Config, s: System) {
    && (forall i: nat :: i < |s.grants| && IsHeld(cfg, s, i) ==>
          && s.keys.active.Present?
          && s.grants[i].token in s.keys.active.value
          && s.keys.active.value[s.grants[i].token] == s.grants[i].at + cfg.LeaseMs() <= s.keys.active.deadline)
    && (forall i: nat :: i < |s.grants| ==> s.grants[i].at <= s.now)
    && |InFlight(s.keys, s.now)| <= cfg.maxConcurrency
    && s.removed <= s.released
  }

  /** A live member belongs to a grant whose removal never reached Redis. */
  predicate Behind(cfg: Config, s: System, token: Token, i: nat) {
    && i < |s.grants| && s.grants[i].token == token && token !in s.removed
    && token in InFlight(s.keys, s.now)
    && InFlight(s.keys, s.now)[token] == s.grants[i].at + cfg.LeaseMs()
  }

  ghost predicate MembersBacked(cfg: Config, s: System) {
    && (forall token :: token in InFlight(s.keys, s.now) ==> exists i: nat :: Behind(cfg, s, token, i))
    && (forall token :: token in s.removed ==> WasGranted(s, token))
  }

  ghost predicate Inv(cfg: Config, s: System) {
    Ledger(cfg, s.grants) && CounterAgrees(s) && LastAgrees(cfg, s) && MembersKept(cfg, s)
    && MembersBacked(cfg, s)
  }

  lemma SubsetSize<T>(small: set<T>, large: set<T>)
    requires small <= large
    ensures |small| <= |large|
  {
    assert large == small + (large - small);
  }

  lemma SubmapSize<M(!new)>(small: map<M, int>, large: map<M, int>)
    requires small.Keys <= large.Keys
    ensures |small| <= |large|
  {
    SubsetSize(small.Keys, large.Keys);
  }

  lemma GrantKeepsLedger(cfg: Config, s: System, token: Token)
    requires cfg.Valid() && Ledger(cfg, s.grants) && CounterAgrees(s) && LastAgrees(cfg, s)
    requires Admits(cfg, s.keys, s.now)
    ensures Ledger(cfg, s.grants + [NewGrant(cfg, s, token)])
  {
    assert (s.grants + [NewGrant(cfg, s, token)])[..|s.grants|] == s.grants;
  }

  lemma GrantKeepsMembers(cfg: Config, s: System, token: Token)
    requires cfg.Valid() && MembersKept(cfg, s) && !WasGranted(s, token) && Admits(cfg, s.keys, s.now)
    ensures MembersKept(cfg, Step(cfg, s, Ask(token)))
  {
    var t := Step(cfg, s, Ask(token));
    var before := InFlight(s.keys, s.now);
    assert InFlight(t.keys, t.now).Keys == before.Keys + {token};
    assert |InFlight(t.keys, t.now).Keys| <= |before.Keys| + 1;
    forall i: nat | i < |t.grants| && IsHeld(cfg, t, i)
      ensures t.grants[i].token in t.keys.active.value
      ensures t.keys.active.value[t.grants[i].token] == t.grants[i].at + cfg.LeaseMs()
    {
      if i < |s.grants| {
        assert t.grants[i] == s.grants[i] && IsHeld(cfg, s, i);
      }
    }
  }

  lemma ReleaseKeepsMembers(cfg: Config, s: System, token: Token)
    requires MembersKept(cfg, s)
    ensures MembersKept(cfg, Step(cfg, s, GiveBack(token)))
  {
    var t := Step(cfg, s, GiveBack(token));
    SubmapSize(InFlight(t.keys, t.now), InFlight(s.keys, s.now));
    forall i: nat | i < |t.grants| && IsHeld(cfg, t, i)
      ensures IsHeld(cfg, s, i) && (token !in s.released && Enabled(s, GiveBack(token)) ==>
          s.grants[i].token != token)
    {
    }
  }

  lemma StepKeepsMembers(cfg: Config, s: System, e: Event)
    requires cfg.Valid() && MembersKept(cfg, s)
    ensures MembersKept(cfg, Step(cfg, s, e))
  {
    var t := Step(cfg, s, e);
    match e {
      case Wait(ms) =>
        SubmapSize(InFlight(t.keys, t.now), InFlight(s.keys, s.now));
        forall i: nat | i < |t.grants| && IsHeld(cfg, t, i)
          ensures IsHeld(cfg, s, i)
        {
        }
      case Ask(token) =>
        if !WasGranted(s, token) {
          if Admits(cfg, s.keys, s.now) {
            GrantKeepsMembers(cfg, s, token);
          } else {
            assert InFlight(t.keys, t.now) == InFlight(s.keys, s.now);
            forall i: nat | i < |t.grants| && IsHeld(cfg, t, i)
              ensures IsHeld(cfg, s, i)
            {
            }
          }
        }
      case GiveBack(token) => ReleaseKeepsMembers(cfg, s, token);
      case GiveBackUnsent(token) =>
        forall i: nat | i < |t.grants| && IsHeld(cfg, t, i)
          ensures IsHeld(cfg, s, i)
        {
        }
    }
  }

  lemma GrantKeepsBacked(cfg: Config, s: System, token: Token)
    requires cfg.Valid() && MembersBacked(cfg, s) && !WasGranted(s, token) && Admits(cfg, s.keys, s.now)
    ensures MembersBacked(cfg, Step(cfg, s, Ask(token)))
  {
    var t := Step(cfg, s, Ask(token));
    forall other | other in InFlight(t.keys, t.now)
      ensures exists i: nat :: Behind(cfg, t, other, i)
    {
      if other == token {
        assert Behind(cfg, t, token, |s.grants|);
      } else {
        var i: nat :| Behind(cfg, s, other, i);
        assert t.grants[i] == s.grants[i];
        assert Behind(cfg, t, other, i);
      }
    }
    forall other | other in t.removed
      ensures WasGranted(t, other)
    {
      var i :| 0 <= i < |s.grants| && s.grants[i].token == other;
      assert t.grants[i].token == other;
    }
  }

  /** Anything but a grant adds no member, and takes out the member it gives back. */
  lemma QuietKeepsBacked(cfg: Config, s: System, t: System)
    requires MembersBacked(cfg, s) && t.grants == s.grants
    requires forall token :: token in InFlight(t.keys, t.now) ==>
               && token in InFlight(s.keys, s.now) && token !in t.removed
               && InFlight(t.keys, t.now)[token] == InFlight(s.keys, s.now)[token]
    requires forall token :: token in t.removed ==> WasGranted(s, token)
    ensures MembersBacked(cfg, t)
  {
    forall token | token in InFlight(t.keys, t.now)
      ensures exists i: nat :: Behind(cfg, t, token, i)
    {
      var i: nat :| Behind(cfg, s, token, i);
      assert Behind(cfg, t, token, i);
    }
  }

  lemma StepKeepsBacked(cfg: Config, s: System, e: Event)
    requires cfg.Valid() && MembersBacked(cfg, s)
    ensures MembersBacked(cfg, Step(cfg, s, e))
  {
    if e.Ask? && Enabled(s, e) && Admits(cfg, s.keys, s.now) {
      GrantKeepsBacked(cfg, s, e.token);
    } else {
      forall token | token in InFlight(s.keys, s.now)
        ensures token !in s.removed
      {
        var i: nat :| Behind(cfg, s, token, i);
      }
      QuietKeepsBacked(cfg, s, Step(cfg, s, e));
    }
  }

  /** What no grant happened to stays in agreement as time passes. */
  lemma QuietKeepsLedger(cfg: Config, s: System, t: System)
    requires cfg.Valid() && CounterAgrees(s) && LastAgrees(cfg, s)
    requires t.grants == s.grants && t.keys.count == s.keys.count && t.keys.last == s.keys.last && s.now <= t.now
    ensures CounterAgrees(t) && LastAgrees(cfg, t)
  {
  }

  lemma GrantAgrees(cfg: Config, s: System, token: Token)
    requires cfg.Valid() && Enabled(s, Ask(token)) && Admits(cfg, s.keys, s.now)
    ensures var t := Step(cfg, s, Ask(token));
            t.grants == s.grants + [NewGrant(cfg, s, token)] && CounterAgrees(t) && LastAgrees(cfg, t)
  {
  }

  lemma StepKeepsLedger(cfg: Config, s: System, e: Event)
    requires cfg.Valid() && Ledger(cfg, s.grants) && CounterAgrees(s) && LastAgrees(cfg, s)
    ensures var t := Step(cfg, s, e); Ledger(cfg, t.grants) && CounterAgrees(t) && LastAgrees(cfg, t)
  {
    if e.Ask? && Enabled(s, e) && Admits(cfg, s.keys, s.now) {
      GrantKeepsLedger(cfg, s, e.token);
      GrantAgrees(cfg, s, e.token);
    } else {
      QuietKeepsLedger(cfg, s, Step(cfg, s, e));
    }
  }

  lemma {:induction false} RunKeepsInv(cfg: Config, start: int, events: seq<Event>)
    requires cfg.Valid()
    ensures Inv(cfg, Run(cfg, start, events))
  {
    if events != [] {
      var s := Run(cfg, start, events[..|events| - 1]);
      RunKeepsInv(cfg, start, events[..|events| - 1]);
      StepKeepsMembers(cfg, s, events[|events| - 1]);
      StepKeepsBacked(cfg, s, events[|events| - 1]);
      StepKeepsLedger(cfg, s, events[|events| - 1]);
    }
  }

  lemma RunAgrees(cfg: Config, start: int, events: seq<Event>)
    requires cfg.Valid()
    ensures LastAgrees(cfg, Run(cfg, start, events))
  {
    RunKeepsInv(cfg, start, events);
  }

  // ----- what the ledger says about time

  lemma {:induction false} LedgerPrefix(cfg: Config, grants: seq<Grant>, n: nat)
    requires Ledger(cfg, grants) && n <= |grants|
    ensures Ledger(cfg, grants[..n])
  {
    if n < |grants| {
      assert grants[..|grants| - 1][..n] == grants[..n];
      LedgerPrefix(cfg, grants[..|grants| - 1], n);
    } else {
      assert grants[..n] == grants;
    }
  }

  lemma {:induction false} GrantsInOrder(cfg: Config, grants: seq<Grant>, i: nat, j: nat)
    requires Ledger(cfg, grants) && i <= j < |grants|
    ensures grants[i].at <= grants[j].at
  {
    if i < j {
      LedgerPrefix(cfg, grants, j);
      LedgerPrefix(cfg, grants, j + 1);
      assert grants[..j + 1][..j] == grants[..j];
      GrantsInOrder(cfg, grants[..j], i, j - 1);
    }
  }

  /** Grant `k` was counted in a window opened `grants[k].number - 1` grants earlier. */
  lemma {:induction false} WindowOpening(cfg: Config, grants: seq<Grant>, k: nat)
    requires Ledger(cfg, grants) && k < |grants|
    ensures 1 <= grants[k].number <= k + 1 && grants[k].number <= cfg.maxExtractions
    ensures grants[k + 1 - grants[k].number].number == 1
    ensures grants[k].closes == grants[k + 1 - grants[k].number].at + cfg.windowMs
  {
    LedgerPrefix(cfg, grants, k + 1);
    assert grants[..k + 1][..k] == grants[..k];
    if 0 < k && grants[k].number != 1 {
      WindowOpening(cfg, grants[..k], k - 1);
    }
  }

  /** A grant that opens a window comes after the previous window has closed. */
  lemma OpensAfterClose(cfg: Config, grants: seq<Grant>, k: nat)
    requires Ledger(cfg, grants) && 0 < k < |grants| && grants[k].number == 1
    ensures grants[k - 1].closes <= grants[k].at
  {
    LedgerPrefix(cfg, grants, k + 1);
  }

  lemma FarApart(cfg: Config, grants: seq<Grant>, i: nat, j: nat)
    requires cfg.Valid() && Ledger(cfg, grants) && i < |grants| && j < |grants|
    requires i + 2 * cfg.maxExtractions - 1 <= j
    ensures grants[i].at + cfg.windowMs <= grants[j].at
  {
    WindowOpening(cfg, grants, j);
    var first := j + 1 - grants[j].number;
    OpensAfterClose(cfg, grants, first);
    WindowOpening(cfg, grants, first - 1);
    var before := first - grants[first - 1].number;
    GrantsInOrder(cfg, grants, i, before);
    GrantsInOrder(cfg, grants, first, j);
  }

  // ----- the main results, for every run

  /** Indices of the grants that fall into the half-open span [from, from + windowMs). */
  function GrantsInSpan(cfg: Config, s: System, from: int): set<nat> {
    set k: nat | k < |s.grants| && from <= s.grants[k].at < from + cfg.windowMs
  }

  lemma {:induction false} RangeSize(indices: set<nat>, low: nat, size: nat)
    requires forall k :: k in indices ==> low <= k < low + size
    ensures |indices| <= size
  {
    if size == 0 {
      assert indices == {};
    } else {
      var rest := indices - {low + size - 1};
      RangeSize(rest, low, size - 1);
      assert |indices| <= |rest + {low + size - 1}|  by { SubsetSize(indices, rest + {low + size - 1}); }
    }
  }

  /**
   No span of one window length holds more than 2 * maxExtractions - 1 grants. (The key is a
   fixed window, so this, not maxExtractions, is what holds of every span.)
   */
  lemma SlidingWindowBound(cfg: Config, start: int, events: seq<Event>, from: int)
    requires cfg.Valid()
    ensures |GrantsInSpan(cfg, Run(cfg, start, events), from)| <= 2 * cfg.maxExtractions - 1
  {
    var s := Run(cfg, start, events);
    RunKeepsInv(cfg, start, events);
    var span := GrantsInSpan(cfg, s, from);
    if span != {} {
      var low := Least(span);
      forall k | k in span
        ensures low <= k < low + (2 * cfg.maxExtractions - 1)
      {
        if low + 2 * cfg.maxExtractions - 1 <= k {
          FarApart(cfg, s.grants, low, k);
        }
      }
      RangeSize(span, low, 2 * cfg.maxExtractions - 1);
    }
  }

  ghost function Least(indices: set<nat>): (low: nat)
    requires indices != {}
    ensures low in indices && forall k :: k in indices ==> low <= k
  {
    var some :| some in indices;
    if indices == {some} then some else
    assert indices == {some} + (indices - {some});
    var rest := Least(indices - {some});
    if some < rest then some else rest
  }

  /** At every moment of every run at most maxConcurrency permits are out and unexpired. */
  lemma ConcurrencyBound(cfg: Config, start: int, events: seq<Event>)
    requires cfg.Valid()
    ensures |Outstanding(cfg, Run(cfg, start, events))| <= cfg.maxConcurrency
  {
    var s := Run(cfg, start, events);
    RunKeepsInv(cfg, start, events);
    assert Outstanding(cfg, s) <= InFlight(s.keys, s.now).Keys;
    SubsetSize(Outstanding(cfg, s), InFlight(s.keys, s.now).Keys);
  }

  /** The script counts exactly the slots that are held. */
  lemma InFlightIsHeld(cfg: Config, s: System)
    requires cfg.Valid() && Inv(cfg, s)
    ensures InFlight(s.keys, s.now).Keys == Held(cfg, s)
  {
    forall token | token in InFlight(s.keys, s.now)
      ensures token in Held(cfg, s)
    {
      var i: nat :| Behind(cfg, s, token, i);
      assert IsHeld(cfg, s, i);
    }
  }

  /**
   What a request meets at any moment of any run: it is granted if and only if the newest window has
   closed or has room, fewer than maxConcurrency slots are held, and the newest grant is minIntervalMs
   or a whole window ago. (A grant at or before time zero is not waited for.)
   */
  lemma GrantedIff(cfg: Config, start: int, events: seq<Event>)
    requires cfg.Valid()
    ensures var s := Run(cfg, start, events); var n := |s.grants|;
            Admits(cfg, s.keys, s.now) <==>
              && (n == 0 || s.grants[n - 1].closes <= s.now || s.grants[n - 1].number < cfg.maxExtractions)
              && |Held(cfg, s)| < cfg.maxConcurrency
              && (n == 0 || s.grants[n - 1].at <= 0
                  || s.grants[n - 1].at + cfg.minIntervalMs <= s.now || s.grants[n - 1].at + cfg.windowMs <= s.now)
  {
    var s := Run(cfg, start, events);
    RunKeepsInv(cfg, start, events);
    InFlightIsHeld(cfg, s);
    assert |InFlight(s.keys, s.now)| == |InFlight(s.keys, s.now).Keys|;
  }

  lemma {:induction false} ClosesInOrder(cfg: Config, grants: seq<Grant>, i: nat, j: nat)
    requires cfg.Valid() && Ledger(cfg, grants) && i <= j < |grants|
    ensures grants[i].closes <= grants[j].closes
  {
    if i < j {
      LedgerPrefix(cfg, grants, j);
      LedgerPrefix(cfg, grants, j + 1);
      assert grants[..j + 1][..j] == grants[..j];
      ClosesInOrder(cfg, grants[..j], i, j - 1);
    }
  }

  /** Grants counted until the same moment are fewer than maxExtractions apart. */
  lemma WindowIsNarrow(cfg: Config, grants: seq<Grant>, low: nat, k: nat)
    requires cfg.Valid() && Ledger(cfg, grants) && low <= k < |grants| && grants[low].closes == grants[k].closes
    ensures k < low + cfg.maxExtractions
  {
    WindowOpening(cfg, grants, k);
    var first := k + 1 - grants[k].number;
    if low < first {
      OpensAfterClose(cfg, grants, first);
      ClosesInOrder(cfg, grants, low, first - 1);
    }
  }

  /** One lifetime of the counter key never sees more than maxExtractions grants. */
  lemma WindowBound(cfg: Config, start: int, events: seq<Event>, closes: int)
    requires cfg.Valid()
    ensures var s := Run(cfg, start, events);
            |set k: nat | k < |s.grants| && s.grants[k].closes == closes| <= cfg.maxExtractions
  {
    var s := Run(cfg, start, events);
    RunKeepsInv(cfg, start, events);
    var window := set k: nat | k < |s.grants| && s.grants[k].closes == closes;
    if window != {} {
      var low := Least(window);
      forall k | k in window
        ensures low <= k < low + cfg.maxExtractions
      {
        WindowIsNarrow(cfg, s.grants, low, k);
      }
      RangeSize(window, low, cfg.maxExtractions);
    }
  }

  predicate SpacedBy(gap: int, s: System) {
    forall i, j :: 0 <= i < j < |s.grants| ==> s.grants[i].at + gap <= s.grants[j].at
  }

  predicate WellSpaced(cfg: Config, s: System) {
    SpacedBy(cfg.minIntervalMs, s)
  }

  lemma StepKeepsSpacing(cfg: Config, gap: int, s: System, e: Event)
    requires 0 <= gap <= cfg.windowMs && gap <= cfg.minIntervalMs && 0 < s.now
    requires LastAgrees(cfg, s) && SpacedBy(gap, s) && (s.grants != [] ==> 0 < s.grants[|s.grants| - 1].at)
    ensures var t := Step(cfg, s, e); SpacedBy(gap, t) && (t.grants != [] ==> 0 < t.grants[|t.grants| - 1].at)
  {
    var t := Step(cfg, s, e);
    if e.Ask? && Enabled(s, e) && Admits(cfg, s.keys, s.now) {
      forall i, j | 0 <= i < j < |t.grants|
        ensures t.grants[i].at + gap <= t.grants[j].at
      {
        if j == |s.grants| {
          assert s.grants[i].at <= s.grants[j - 1].at;
        }
      }
    }
  }

  /** Grants are apart by the interval, or by the window if that is shorter. */
  lemma {:induction false} SpacingHolds(cfg: Config, gap: int, start: int, events: seq<Event>)
    requires cfg.Valid() && 0 <= gap <= cfg.windowMs && gap <= cfg.minIntervalMs && 0 < start
    ensures var s := Run(cfg, start, events);
            SpacedBy(gap, s) && 0 < s.now && (s.grants != [] ==> 0 < s.grants[|s.grants| - 1].at)
  {
    if events != [] {
      SpacingHolds(cfg, gap, start, events[..|events| - 1]);
      RunAgrees(cfg, start, events[..|events| - 1]);
      StepKeepsSpacing(cfg, gap, Run(cfg, start, events[..|events| - 1]), events[|events| - 1]);
    }
  }

  lemma RunAppends(cfg: Config, start: int, events: seq<Event>, e: Event)
    ensures Run(cfg, start, events + [e]) == Step(cfg, Run(cfg, start, events), e)
  {
    assert (events + [e])[..|events|] == events;
  }

  /** With no live key and nobody in flight, a request is granted and opens a window. */
  lemma IdleGrants(cfg: Config, s: System, token: Token)
    requires cfg.Valid() && !WasGranted(s, token)
    requires !s.keys.count.LiveAt(s.now) && !s.keys.last.LiveAt(s.now) && InFlight(s.keys, s.now) == map[]
    ensures var t := Step(cfg, s, Ask(token));
            && t.now == s.now && t.released == s.released
            && t.grants == s.grants + [Grant(s.now, token, 1, s.now + cfg.windowMs)]
            && t.keys.count.deadline == t.keys.last.deadline == s.now + cfg.windowMs
            && t.keys.count.Present? && t.keys.last.Present?
            && t.keys.active == Present(map[token := s.now + cfg.LeaseMs()], s.now + cfg.LeaseMs())
  {
  }

  /** Two grants one window apart: the spacing key has expired together with the window. */
  lemma SpacingFails(cfg: Config) returns (events: seq<Event>)
    requires cfg.Valid() && cfg.windowMs < cfg.minIntervalMs
    ensures !WellSpaced(cfg, Run(cfg, 1, events))
  {
    var wait := Wait(cfg.windowMs);
    var s1 := Step(cfg, Init(1), Ask("a"));
    IdleGrants(cfg, Init(1), "a");
    assert s1.grants[0].token == "a";
    var s2 := Step(cfg, s1, GiveBack("a"));
    assert s2.keys.active.value == map[];
    var s3 := Step(cfg, s2, wait);
    assert !WasGranted(s3, "b");
    IdleGrants(cfg, s3, "b");
    var s4 := Step(cfg, s3, Ask("b"));
    assert s4.grants[1].at == s4.grants[0].at + cfg.windowMs;
    events := [Ask("a"), GiveBack("a"), wait, Ask("b")];
    RunOfFour(cfg, 1, Ask("a"), GiveBack("a"), wait, Ask("b"));
  }

  lemma RunOfFour(cfg: Config, start: int, a: Event, b: Event, c: Event, d: Event)
    ensures Run(cfg, start, [a, b, c, d])
            == Step(cfg, Step(cfg, Step(cfg, Step(cfg, Init(start), a), b), c), d)
  {
    RunAppends(cfg, start, [], a);
    RunAppends(cfg, start, [a], b);
    RunAppends(cfg, start, [a, b], c);
    RunAppends(cfg, start, [a, b, c], d);
    assert [a, b, c] + [d] == [a, b, c, d] && [a, b] + [c] == [a, b, c] && [a] + [b] == [a, b] && [] + [a] == [a];
  }

  /**
   Successive grants are minIntervalMs apart in every run exactly when the spacing key outlives
   the interval. Both settings are accepted by the constructor's clamps, so neither case is idle.
   */
  lemma SpacingIffWindowCoversInterval(cfg: Config)
    requires cfg.Valid()
    ensures (forall start, events :: 0 < start ==> WellSpaced(cfg, Run(cfg, start, events)))
            <==> cfg.minIntervalMs <= cfg.windowMs
  {
    if cfg.minIntervalMs <= cfg.windowMs {
      forall start, events | 0 < start
        ensures WellSpaced(cfg, Run(cfg, start, events))
      {
        SpacingHolds(cfg, cfg.minIntervalMs, start, events);
      }
    } else {
      var events := SpacingFails(cfg);
    }
  }

  /** One extraction: reserve, give the slot back, let time pass. */
  function Cycle(token: Token, ms: nat): seq<Event> {
    [Ask(token), GiveBack(token), Wait(ms)]
  }

  lemma ReserveAndGiveBack(cfg: Config, s: System, token: Token)
    requires cfg.Valid() && !WasGranted(s, token) && token !in s.released
    requires InFlight(s.keys, s.now) == map[] && Admits(cfg, s.keys, s.now)
    ensures var t := Step(cfg, Step(cfg, s, Ask(token)), GiveBack(token));
            && t.now == s.now && t.released == s.released + {token}
            && t.grants == s.grants + [NewGrant(cfg, s, token)]
            && t.keys.count == Granted(cfg, s.keys, s.now, token).count
            && t.keys.last == Present(s.now, s.now + cfg.windowMs)
            && t.keys.active.Present? && t.keys.active.value == map[]
  {
    var s1 := Step(cfg, s, Ask(token));
    assert s1.grants[|s1.grants| - 1].token == token;
    assert s1.keys.active.value - {token} == map[];
  }

  lemma CycleGrants(cfg: Config, start: int, events: seq<Event>, token: Token, ms: nat)
    requires cfg.Valid()
    requires var s := Run(cfg, start, events);
             && !WasGranted(s, token) && token !in s.released
             && InFlight(s.keys, s.now) == map[] && Admits(cfg, s.keys, s.now)
    ensures var s := Run(cfg, start, events); var t := Run(cfg, start, events + Cycle(token, ms));
            && t.now == s.now + ms && t.released == s.released + {token}
            && t.grants == s.grants + [NewGrant(cfg, s, token)]
            && t.keys.count == Granted(cfg, s.keys, s.now, token).count
            && t.keys.last == Present(s.now, s.now + cfg.windowMs)
            && InFlight(t.keys, t.now) == map[]
  {
    RunAppends(cfg, start, events, Ask(token));
    RunAppends(cfg, start, events + [Ask(token)], GiveBack(token));
    RunAppends(cfg, start, events + [Ask(token)] + [GiveBack(token)], Wait(ms));
    assert events + Cycle(token, ms) == events + [Ask(token)] + [GiveBack(token)] + [Wait(ms)];
    ReserveAndGiveBack(cfg, Run(cfg, start, events), token);
  }

  // ----- when the bound is reached

  /** Distinct tokens, told apart by their length. */
  function TokenFor(n: nat): (token: Token)
    ensures |token| == n
  {
    seq(n, i => 'x')
  }

  /** A system that some run leads to. */
  ghost predicate Reached(cfg: Config, s: System) {
    exists events :: Run(cfg, 1, events) == s
  }

  /** `made` extractions were made and given back; the last one was counted as `number` in a window that closes. */
  predicate Stands(cfg: Config, s: System, now: int, made: nat, number: nat, closes: int, last: int) {
    && s.now == now && |s.grants| == made && InFlight(s.keys, s.now) == map[]
    && s.keys.count == Present(number, closes) && s.keys.last == Present(last, last + cfg.windowMs)
    && TokensShort(s)
  }

  /** Every token used so far is shorter than the next one. */
  predicate TokensShort(s: System) {
    && (forall grant :: grant in s.grants ==> |grant.token| < |s.grants|)
    && (forall token :: token in s.released ==> |token| < |s.grants|)
  }

  lemma NextTokenUnused(s: System)
    requires TokensShort(s)
    ensures var token := TokenFor(|s.grants|); !WasGranted(s, token) && token !in s.released
  {
  }

  lemma TokensStayShort(s: System, t: System, grant: Grant)
    requires TokensShort(s) && |grant.token| == |s.grants|
    requires t.grants == s.grants + [grant] && t.released == s.released + {grant.token}
    ensures TokensShort(t)
  {
  }

  /** One extraction with a token of its own, and a wait after it. */
  lemma ExtractOnce(cfg: Config, s: System, ms: nat) returns (t: System)
    requires cfg.Valid() && Reached(cfg, s) && TokensShort(s) && InFlight(s.keys, s.now) == map[]
    requires Admits(cfg, s.keys, s.now)
    ensures Reached(cfg, t) && TokensShort(t) && InFlight(t.keys, t.now) == map[]
    ensures t.now == s.now + ms && t.grants == s.grants + [NewGrant(cfg, s, TokenFor(|s.grants|))]
    ensures t.keys.count == Granted(cfg, s.keys, s.now, TokenFor(|s.grants|)).count
    ensures t.keys.last == Present(s.now, s.now + cfg.windowMs)
  {
    var token := TokenFor(|s.grants|);
    var events :| Run(cfg, 1, events) == s;
    NextTokenUnused(s);
    CycleGrants(cfg, 1, events, token, ms);
    t := Run(cfg, 1, events + Cycle(token, ms));
    TokensStayShort(s, t, NewGrant(cfg, s, token));
  }

  lemma FirstExtraction(cfg: Config, ms: nat) returns (t: System)
    requires cfg.Valid()
    ensures Reached(cfg, t) && Stands(cfg, t, 1 + ms, 1, 1, 1 + cfg.windowMs, 1) && t.grants[0].at == 1
  {
    assert Run(cfg, 1, []) == Init(1);
    t := ExtractOnce(cfg, Init(1), ms);
  }

  lemma NextExtraction(cfg: Config, s: System, now: int, made: nat, number: nat, closes: int, last: int, ms: nat)
    returns (t: System)
    requires cfg.Valid() && Reached(cfg, s) && Stands(cfg, s, now, made, number, closes, last)
    requires (closes <= now || number < cfg.maxExtractions) && last + cfg.minIntervalMs <= now
    ensures Reached(cfg, t)
    ensures Stands(cfg, t, now + ms, made + 1, if now < closes then number + 1 else 1,
                   if now < closes then closes else now + cfg.windowMs, now)
    ensures s.grants <= t.grants && t.grants[made].at == now
  {
    t := ExtractOnce(cfg, s, ms);
  }

  /** How long `n` intervals take. */
  function Apart(n: nat, ms: nat): nat {
    if n == 0 then 0 else Apart(n - 1, ms) + ms
  }

  lemma {:induction false} ApartIsProduct(n: nat, ms: nat)
    ensures Apart(n, ms) == n * ms
  {
    if n > 0 {
      ApartIsProduct(n - 1, ms);
    }
  }

  /** One extraction and `rest` more in the same window, one interval apart, the wait after the last being `tail`. */
  lemma {:induction false} MoreExtractions(cfg: Config, s: System, now: int, made: nat, number: nat, closes: int,
                                           last: int, rest: nat, tail: nat)
    returns (t: System)
    requires cfg.Valid() && Reached(cfg, s) && Stands(cfg, s, now, made, number, closes, last)
    requires number + rest + 1 <= cfg.maxExtractions && last + cfg.minIntervalMs <= now
    requires now + Apart(rest, cfg.minIntervalMs) < closes
    ensures Reached(cfg, t)
    ensures var end := now + Apart(rest, cfg.minIntervalMs);
            |t.grants| == made + rest + 1 && Stands(cfg, t, end + tail, |t.grants|, number + rest + 1, closes, end)
            && t.grants[made + rest].at == end
    ensures s.grants <= t.grants && t.grants[made].at == now
    decreases rest
  {
    if rest == 0 {
      t := NextExtraction(cfg, s, now, made, number, closes, last, tail);
    } else {
      var ms := cfg.minIntervalMs;
      var one := NextExtraction(cfg, s, now, made, number, closes, last, ms);
      t := MoreExtractions(cfg, one, now + ms, made + 1, number + 1, closes, now, rest - 1, tail);
    }
  }

  /** There is room in one window for a full allowance and what is left of the one before. */
  predicate HasRoom(cfg: Config) {
    2 * (cfg.maxExtractions - 1) * cfg.minIntervalMs < cfg.windowMs
  }

  /** The last wait before a window closes: no shorter than the interval, and never nothing. */
  function Tail(cfg: Config): nat
    requires cfg.Valid()
  {
    if cfg.minIntervalMs < 1 then 1 else cfg.minIntervalMs
  }

  /** How long all but the first extraction of a window take. */
  function Spread(cfg: Config): nat
    requires cfg.Valid() && 2 <= cfg.maxExtractions
  {
    Apart(cfg.maxExtractions - 2, cfg.minIntervalMs)
  }

  lemma RoomAdds(cfg: Config)
    requires cfg.Valid() && HasRoom(cfg) && 2 <= cfg.maxExtractions
    ensures 2 * Spread(cfg) + cfg.minIntervalMs + Tail(cfg) < cfg.windowMs
  {
    var n, ms := cfg.maxExtractions, cfg.minIntervalMs;
    ApartIsProduct(n - 2, ms);
    assert 2 * (n - 1) * ms == 2 * ((n - 2) * ms) + 2 * ms;
    if ms == 0 {
      assert (n - 2) * ms == 0;
    }
  }

  /** The first window is used up just before it closes. */
  lemma FirstWindowUsed(cfg: Config) returns (t: System)
    requires cfg.Valid() && 2 <= cfg.maxExtractions
    requires 2 * Spread(cfg) + cfg.minIntervalMs + Tail(cfg) < cfg.windowMs
    ensures Reached(cfg, t)
    ensures var n, end := cfg.maxExtractions, 1 + cfg.windowMs;
            Stands(cfg, t, end, n, n, end, end - Tail(cfg)) && t.grants[1].at == end - Tail(cfg) - Spread(cfg)
  {
    var wait := cfg.windowMs - Tail(cfg) - Spread(cfg);
    var one := FirstExtraction(cfg, wait);
    t := MoreExtractions(cfg, one, 1 + wait, 1, 1, 1 + cfg.windowMs, 1, cfg.maxExtractions - 2, Tail(cfg));
  }

  /** The second one opens at once. */
  lemma SecondWindowOpens(cfg: Config, used: System) returns (t: System)
    requires cfg.Valid() && 2 <= cfg.maxExtractions
    requires var n, end := cfg.maxExtractions, 1 + cfg.windowMs;
             Reached(cfg, used) && Stands(cfg, used, end, n, n, end, end - Tail(cfg))
    ensures Reached(cfg, t)
    ensures var n, end := cfg.maxExtractions, 1 + cfg.windowMs;
            && Stands(cfg, t, end + cfg.minIntervalMs, n + 1, 1, end + cfg.windowMs, end)
            && used.grants <= t.grants
  {
    var n, end := cfg.maxExtractions, 1 + cfg.windowMs;
    t := NextExtraction(cfg, used, end, n, n, end, end - Tail(cfg), cfg.minIntervalMs);
  }

  /** And is used up right after. */
  lemma SecondWindowUsed(cfg: Config, used: System) returns (t: System)
    requires cfg.Valid() && 2 <= cfg.maxExtractions && cfg.minIntervalMs + Spread(cfg) < cfg.windowMs
    requires var n, end := cfg.maxExtractions, 1 + cfg.windowMs;
             Reached(cfg, used) && Stands(cfg, used, end, n, n, end, end - Tail(cfg))
    ensures Reached(cfg, t) && |t.grants| == 2 * cfg.maxExtractions && used.grants <= t.grants
    ensures t.grants[2 * cfg.maxExtractions - 1].at == 1 + cfg.windowMs + cfg.minIntervalMs + Spread(cfg)
  {
    var n, end, ms := cfg.maxExtractions, 1 + cfg.windowMs, cfg.minIntervalMs;
    var next := SecondWindowOpens(cfg, used);
    t := MoreExtractions(cfg, next, end + ms, n + 1, 1, end + cfg.windowMs, end, n - 2, 0);
  }

  lemma RoomReachesBound(cfg: Config) returns (events: seq<Event>, from: int)
    requires cfg.Valid() && HasRoom(cfg) && 2 <= cfg.maxExtractions
    ensures |GrantsInSpan(cfg, Run(cfg, 1, events), from)| == 2 * cfg.maxExtractions - 1
  {
    RoomAdds(cfg);
    var used := FirstWindowUsed(cfg);
    var t := SecondWindowUsed(cfg, used);
    from := used.grants[1].at;
    events :| Run(cfg, 1, events) == t;
    SpanFilled(cfg, events, from, cfg.maxExtractions);
  }

  lemma SpanFilled(cfg: Config, events: seq<Event>, from: int, n: nat)
    requires cfg.Valid() && n == cfg.maxExtractions && 2 <= n
    requires var grants := Run(cfg, 1, events).grants;
             |grants| == 2 * n && grants[1].at == from && grants[2 * n - 1].at < from + cfg.windowMs
    ensures |GrantsInSpan(cfg, Run(cfg, 1, events), from)| == 2 * n - 1
  {
    var s := Run(cfg, 1, events);
    RunKeepsInv(cfg, 1, events);
    forall k: nat | 1 <= k < 2 * n ensures k in GrantsInSpan(cfg, s, from) {
      GrantsInOrder(cfg, s.grants, 1, k);
      GrantsInOrder(cfg, s.grants, k, 2 * n - 1);
    }
    RangeThere(GrantsInSpan(cfg, s, from), 1, 2 * n - 1);
    SlidingWindowBound(cfg, 1, events, from);
  }

  lemma {:induction false} RangeThere(indices: set<nat>, low: nat, size: nat)
    requires forall k: nat :: low <= k < low + size ==> k in indices
    ensures size <= |indices|
  {
    if size > 0 {
      RangeThere(indices - {low + size - 1}, low, size - 1);
    }
  }

  lemma {:induction false} SpacedChain(gap: int, s: System, i: nat, j: nat)
    requires SpacedBy(gap, s) && i <= j < |s.grants|
    ensures s.grants[i].at + (j - i) * gap <= s.grants[j].at
  {
    if i < j {
      SpacedChain(gap, s, i, j - 1);
      assert (j - i) * gap == (j - 1 - i) * gap + gap;
      assert s.grants[j - 1].at + gap <= s.grants[j].at;
    }
  }

  lemma BoundNeedsRoom(cfg: Config, start: int, events: seq<Event>, from: int)
    requires cfg.Valid() && 0 < start && 2 <= cfg.maxExtractions
    requires |GrantsInSpan(cfg, Run(cfg, start, events), from)| == 2 * cfg.maxExtractions - 1
    ensures HasRoom(cfg)
  {
    var s, most := Run(cfg, start, events), 2 * cfg.maxExtractions - 2;
    var span := GrantsInSpan(cfg, s, from);
    var low := Least(span);
    if forall k :: k in span ==> low <= k < low + most {
      RangeSize(span, low, most);
    } else {
      var k :| k in span && !(low <= k < low + most);
      var gap := if cfg.minIntervalMs <= cfg.windowMs then cfg.minIntervalMs else cfg.windowMs;
      SpacingHolds(cfg, gap, start, events);
      WideApart(gap, s, low, k, most);
      RoomFollows(cfg, most, gap);
    }
  }

  lemma RoomFollows(cfg: Config, most: nat, gap: int)
    requires cfg.Valid() && 2 <= cfg.maxExtractions && most == 2 * cfg.maxExtractions - 2
    requires gap == (if cfg.minIntervalMs <= cfg.windowMs then cfg.minIntervalMs else cfg.windowMs)
    requires most * gap < cfg.windowMs
    ensures HasRoom(cfg)
  {
    MoreTakesLonger(1, most, gap);
    assert gap < cfg.windowMs;
  }

  lemma MoreTakesLonger(fewer: nat, more: nat, gap: int)
    requires fewer <= more && 0 <= gap
    ensures fewer * gap <= more * gap
  {
  }

  lemma WideApart(gap: int, s: System, low: nat, k: nat, most: nat)
    requires 0 <= gap && SpacedBy(gap, s) && low + most <= k < |s.grants|
    ensures s.grants[low].at + most * gap <= s.grants[k].at
  {
    SpacedChain(gap, s, low, k);
    MoreTakesLonger(most, k - low, gap);
  }

  lemma SingleReachesBound(cfg: Config) returns (events: seq<Event>)
    requires cfg.Valid() && cfg.maxExtractions == 1
    ensures |GrantsInSpan(cfg, Run(cfg, 1, events), 1)| == 1
  {
    var t := FirstExtraction(cfg, 0);
    events :| Run(cfg, 1, events) == t;
    assert GrantsInSpan(cfg, t, 1) == {0};
  }

  /**
   The bound of `SlidingWindowBound` is reached by some run exactly when a full allowance and the rest of
   the one before it, spaced as they must be, fit into one window length.
   */
  lemma SlidingWindowBoundReachedIff(cfg: Config)
    requires cfg.Valid()
    ensures (exists start, events, from ::
               0 < start && |GrantsInSpan(cfg, Run(cfg, start, events), from)| == 2 * cfg.maxExtractions - 1)
            <==> HasRoom(cfg)
  {
    if cfg.maxExtractions == 1 {
      var events := SingleReachesBound(cfg);
      assert 2 * (cfg.maxExtractions - 1) * cfg.minIntervalMs == 0;
    } else if HasRoom(cfg) {
      var events, from := RoomReachesBound(cfg);
    } else {
      forall start, events, from | 0 < start
        ensures |GrantsInSpan(cfg, Run(cfg, start, events), from)| != 2 * cfg.maxExtractions - 1
      {
        if |GrantsInSpan(cfg, Run(cfg, start, events), from)| == 2 * cfg.maxExtractions - 1 {
          BoundNeedsRoom(cfg, start, events, from);
        }
      }
    }
  }

  /** The default settings, two extractions in six hours, let three of them happen within six hours. */
  lemma SlidingWindowBoundReached() returns (events: seq<Event>, from: int)
    ensures |GrantsInSpan(DEFAULT_CONFIG, Run(DEFAULT_CONFIG, 1, events), from)| == 3
  {
    events, from := RoomReachesBound(DEFAULT_CONFIG);
  }
}
