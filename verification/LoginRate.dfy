/**
 The login rate limit of apps/admin-api/src/auth.ts: failure counters per user and overall, one pair for
 each quarter hour, checked before a password is looked at and raised after it was found wrong.
 */
module LoginRate {
  import opened Redis

  type User = string

  const BUCKET_MS := 900_000
  const USER_LIMIT: nat := 5
  const GLOBAL_LIMIT: nat := 50

  function Bucket(now: nat): nat {
    now / BUCKET_MS
  }

  datatype Slot = ForUser(user: User, bucket: nat) | Global(bucket: nat)

  type Counters = map<Slot, Key<nat>>

  function KeyAt(counters: Counters, slot: Slot): Key<nat> {
    if slot in counters then counters[slot] else Absent
  }

  /** INCR, and EXPIRE when the counter has just been created. */
  function Raised(counters: Counters, slot: Slot, now: nat): Counters {
    var value := KeyAt(counters, slot).ReadAt(now, 0) + 1;
    counters[slot := if value == 1 then Present(1, now + BUCKET_MS) else counters[slot].(value := value)]
  }

  predicate Allowed(counters: Counters, user: User, now: nat) {
    && KeyAt(counters, ForUser(user, Bucket(now))).ReadAt(now, 0) < USER_LIMIT
    && KeyAt(counters, Global(Bucket(now))).ReadAt(now, 0) < GLOBAL_LIMIT
  }

  class LoginCounters {
    var counters: Counters

    constructor ()
      ensures counters == map[]
    {
      counters := map[];
    }

    method CheckRateLimit(user: User, now: nat) returns (allowed: bool)
      ensures allowed <==> Allowed(counters, user, now)
    {
      var failures := KeyAt(counters, ForUser(user, Bucket(now))).ReadAt(now, 0);
      var all := KeyAt(counters, Global(Bucket(now))).ReadAt(now, 0);
      allowed := !(failures >= USER_LIMIT || all >= GLOBAL_LIMIT);
    }

    method Increment(slot: Slot, now: nat) returns (value: nat)
      modifies this
      ensures counters == Raised(old(counters), slot, now) && value == KeyAt(counters, slot).value
    {
      value := KeyAt(counters, slot).ReadAt(now, 0) + 1;
      counters := counters[slot := if value == 1 then Present(1, now + BUCKET_MS) else counters[slot].(value := value)];
    }

    method RecordFailure(user: User, now: nat)
      modifies this
      ensures counters == Raised(Raised(old(counters), ForUser(user, Bucket(now)), now), Global(Bucket(now)), now)
    {
      var _ := Increment(ForUser(user, Bucket(now)), now);
      var _ := Increment(Global(Bucket(now)), now);
    }
  }

  // ----- every interleaving of logins

  /** A login that was found wrong, and when. */
  datatype Failure = Failure(user: User, at: nat)

  datatype System = System(now: nat, counters: Counters, checking: multiset<User>, failures: seq<Failure>)

  /** Time passes; a login passes or does not pass the check; one that passed turns out wrong or right. */
  datatype Event = Tick(elapsed: nat) | Check(user: User) | Wrong(user: User) | Right(user: User)

  function Next(s: System, e: Event): System {
    match e
    case Tick(elapsed) => s.(now := s.now + elapsed)
    case Check(user) => if Allowed(s.counters, user, s.now) then s.(checking := s.checking + multiset{user}) else s
    case Right(user) => s.(checking := s.checking - multiset{user})
    case Wrong(user) =>
      if user !in s.checking then s
      else s.(counters := Raised(Raised(s.counters, ForUser(user, Bucket(s.now)), s.now), Global(Bucket(s.now)), s.now),
              checking := s.checking - multiset{user},
              failures := s.failures + [Failure(user, s.now)])
  }

  function Exec(events: seq<Event>): System {
    if events == [] then System(0, map[], multiset{}, [])
    else Next(Exec(events[..|events| - 1]), events[|events| - 1])
  }

  /** At most `width` logins are between their check and their outcome at any time. */
  predicate Parallel(width: nat, events: seq<Event>) {
    |Exec(events).checking| <= width && (events != [] ==> Parallel(width, events[..|events| - 1]))
  }

  predicate In(slot: Slot, f: Failure) {
    match slot
    case ForUser(user, bucket) => f.user == user && Bucket(f.at) == bucket
    case Global(bucket) => Bucket(f.at) == bucket
  }

  /** Failures that belong to a slot. */
  function Tally(failures: seq<Failure>, slot: Slot): nat {
    if failures == [] then 0
    else Tally(failures[..|failures| - 1], slot) + if In(slot, failures[|failures| - 1]) then 1 else 0
  }

  lemma TallySnoc(failures: seq<Failure>, f: Failure, slot: Slot)
    ensures Tally(failures + [f], slot) == Tally(failures, slot) + if In(slot, f) then 1 else 0
  {
    assert (failures + [f])[..|failures|] == failures;
  }

  // ----- counters count

  /** The stored number is the tally, and a counter outlives its own quarter hour. */
  predicate CounterTells(s: System, slot: Slot) {
    var key := KeyAt(s.counters, slot);
    && Tally(s.failures, slot) == (if key.Present? then key.value else 0)
    && (key.Present? ==> key.value > 0 && key.deadline >= (slot.bucket + 1) * BUCKET_MS)
    && (slot.bucket > Bucket(s.now) ==> key.Absent?)
  }

  lemma ReadingIsTally(s: System, slot: Slot)
    requires CounterTells(s, slot) && slot.bucket == Bucket(s.now)
    ensures KeyAt(s.counters, slot).ReadAt(s.now, 0) == Tally(s.failures, slot)
  {
  }

  lemma RaisedTells(s: System, user: User, slot: Slot)
    requires forall other: Slot :: CounterTells(s, other)
    ensures CounterTells(Next(s, Wrong(user)), slot)
  {
    var b := Bucket(s.now);
    if user in s.checking {
      TallySnoc(s.failures, Failure(user, s.now), slot);
      assert CounterTells(s, slot) && CounterTells(s, ForUser(user, b)) && CounterTells(s, Global(b));
      ReadingIsTally(s, ForUser(user, b));
      ReadingIsTally(s, Global(b));
    } else {
      assert CounterTells(s, slot);
    }
  }

  /** After every run each counter holds exactly the failures of its quarter hour. */
  lemma {:induction false} CountersTell(events: seq<Event>, slot: Slot)
    ensures CounterTells(Exec(events), slot)
  {
    if events != [] {
      var before := events[..|events| - 1];
      CountersTell(before, slot);
      var e := events[|events| - 1];
      if e.Wrong? {
        forall other: Slot ensures CounterTells(Exec(before), other) {
          CountersTell(before, other);
        }
        RaisedTells(Exec(before), e.user, slot);
      }
    }
  }

  // ----- who may try

  /** The moment at which the current quarter hour began. */
  function QuarterStart(now: nat): nat {
    now - now % (15 * 60 * 1000)
  }

  /** A failure from then on, of one user or of anyone. */
  predicate Matters(f: Failure, from: nat, user: User, anyone: bool) {
    from <= f.at && (anyone || f.user == user)
  }

  function FailuresSince(failures: seq<Failure>, from: nat, user: User, anyone: bool): set<nat> {
    set i: nat | i < |failures| && Matters(failures[i], from, user, anyone)
  }

  lemma FailuresGrow(failures: seq<Failure>, f: Failure, from: nat, user: User, anyone: bool)
    ensures |FailuresSince(failures + [f], from, user, anyone)|
         == |FailuresSince(failures, from, user, anyone)| + if Matters(f, from, user, anyone) then 1 else 0
  {
    var before := FailuresSince(failures, from, user, anyone);
    assert FailuresSince(failures + [f], from, user, anyone)
        == before + if Matters(f, from, user, anyone) then {|failures|} else {};
  }

  lemma SameQuarter(at: nat, now: nat)
    requires at <= now
    ensures QuarterStart(now) <= at <==> Bucket(at) == Bucket(now)
  {
  }

  /** The counter that belongs to these failures. */
  function CurrentSlot(now: nat, user: User, anyone: bool): Slot {
    if anyone then Global(Bucket(now)) else ForUser(user, Bucket(now))
  }

  lemma {:induction false} TallyCounts(failures: seq<Failure>, now: nat, user: User, anyone: bool)
    requires forall f :: f in failures ==> f.at <= now
    ensures Tally(failures, CurrentSlot(now, user, anyone))
         == |FailuresSince(failures, QuarterStart(now), user, anyone)|
  {
    if failures != [] {
      var before, f := failures[..|failures| - 1], failures[|failures| - 1];
      TallyCounts(before, now, user, anyone);
      SameQuarter(f.at, now);
      assert failures == before + [f];
      FailuresGrow(before, f, QuarterStart(now), user, anyone);
    }
  }

  lemma {:induction false} FailuresArePast(events: seq<Event>)
    ensures var s := Exec(events); forall f :: f in s.failures ==> f.at <= s.now
  {
    if events != [] {
      FailuresArePast(events[..|events| - 1]);
    }
  }

  /**
   In every run a login may go on if and only if its user has failed fewer than five times, and all users
   together fewer than fifty times, since the current quarter hour began.
   */
  lemma AllowedIff(events: seq<Event>, user: User)
    ensures var s := Exec(events);
            Allowed(s.counters, user, s.now) <==>
              && |FailuresSince(s.failures, QuarterStart(s.now), user, false)| < 5
              && |FailuresSince(s.failures, QuarterStart(s.now), user, true)| < 50
  {
    var s := Exec(events);
    FailuresArePast(events);
    CountersTell(events, ForUser(user, Bucket(s.now)));
    CountersTell(events, Global(Bucket(s.now)));
    TallyCounts(s.failures, s.now, user, false);
    TallyCounts(s.failures, s.now, user, true);
  }

  // ----- the bound

  function Limit(slot: Slot): nat {
    if slot.ForUser? then USER_LIMIT else GLOBAL_LIMIT
  }

  /** Logins that can still fail in the slot: those of its user, or all, while its quarter hour lasts. */
  function Pending(s: System, slot: Slot): nat {
    if slot.bucket < Bucket(s.now) then 0
    else if slot.ForUser? then s.checking[slot.user]
    else |s.checking|
  }

  predicate Bounded(width: nat, s: System, slot: Slot) {
    Tally(s.failures, slot) < Limit(slot) || Tally(s.failures, slot) + Pending(s, slot) <= Limit(slot) - 1 + width
  }

  lemma MultiplicityIsPart(m: multiset<User>, user: User)
    ensures m[user] <= |m|
  {
    assert multiset{} <= m;
    var rest := m[user := 0];
    assert m == rest + multiset{}[user := m[user]];
    assert |multiset{}[user := m[user]]| == m[user];
  }

  lemma WrongKeepsBound(width: nat, s: System, user: User, slot: Slot)
    requires Bounded(width, s, slot) && |s.checking| <= width
    ensures Bounded(width, Next(s, Wrong(user)), slot)
  {
    if user in s.checking {
      TallySnoc(s.failures, Failure(user, s.now), slot);
      if slot.ForUser? {
        MultiplicityIsPart(s.checking - multiset{user}, slot.user);
      }
    }
  }

  lemma CheckKeepsBound(width: nat, s: System, user: User, slot: Slot)
    requires Bounded(width, s, slot) && CounterTells(s, slot) && (slot.bucket > Bucket(s.now) ==>
        Tally(s.failures, slot) == 0)
    ensures Bounded(width, Next(s, Check(user)), slot)
  {
    if slot.bucket == Bucket(s.now) {
      ReadingIsTally(s, slot);
    }
  }

  lemma {:induction false} FailuresBounded(width: nat, events: seq<Event>, slot: Slot)
    requires Parallel(width, events)
    ensures Bounded(width, Exec(events), slot)
  {
    if events != [] {
      var before := events[..|events| - 1];
      FailuresBounded(width, before, slot);
      CountersTell(before, slot);
      match events[|events| - 1] {
        case Wrong(user) => WrongKeepsBound(width, Exec(before), user, slot);
        case Check(user) => CheckKeepsBound(width, Exec(before), user, slot);
        case Right(_) =>
        case Tick(_) =>
      }
    }
  }

  /**
   In every quarter hour one user fails at most four times more than there are logins in progress at
   once, five times when logins come one by one; all users together at most forty-nine times more.
   */
  lemma FailuresPerQuarterHour(width: nat, events: seq<Event>, user: User, bucket: nat)
    requires width >= 1 && Parallel(width, events)
    ensures Tally(Exec(events).failures, ForUser(user, bucket)) <= USER_LIMIT - 1 + width
    ensures Tally(Exec(events).failures, Global(bucket)) <= GLOBAL_LIMIT - 1 + width
  {
    FailuresBounded(width, events, ForUser(user, bucket));
    FailuresBounded(width, events, Global(bucket));
  }

  // ----- and the bound is reached

  ghost predicate Stands(width: nat, events: seq<Event>, user: User, pending: nat, failed: nat) {
    var s := Exec(events);
    && Parallel(width, events)
    && s.now == 0 && s.checking == multiset{}[user := pending]
    && Tally(s.failures, ForUser(user, 0)) == failed && Tally(s.failures, Global(0)) == failed
  }

  lemma OneMoreCheck(width: nat, events: seq<Event>, user: User, pending: nat, failed: nat)
    requires Stands(width, events, user, pending, failed) && pending < width && failed < USER_LIMIT
    ensures Stands(width, events + [Check(user)], user, pending + 1, failed)
  {
    assert (events + [Check(user)])[..|events|] == events;
    CountersTell(events, ForUser(user, 0));
    CountersTell(events, Global(0));
    ReadingIsTally(Exec(events), ForUser(user, 0));
    ReadingIsTally(Exec(events), Global(0));
    assert |multiset{}[user := pending + 1]| == pending + 1;
  }

  lemma OneMoreWrong(width: nat, events: seq<Event>, user: User, pending: nat, failed: nat)
    requires Stands(width, events, user, pending, failed) && 0 < pending <= width
    ensures Stands(width, events + [Wrong(user)], user, pending - 1, failed + 1)
  {
    assert (events + [Wrong(user)])[..|events|] == events;
    TallySnoc(Exec(events).failures, Failure(user, 0), ForUser(user, 0));
    TallySnoc(Exec(events).failures, Failure(user, 0), Global(0));
    assert |multiset{}[user := pending - 1]| == pending - 1;
  }

  /** For every number of logins in progress there is a run in which one user fails that often. */
  lemma FailuresReached(width: nat, user: User) returns (events: seq<Event>)
    requires width >= 1
    ensures Parallel(width, events)
    ensures Tally(Exec(events).failures, ForUser(user, 0)) == USER_LIMIT - 1 + width
  {
    events := [];
    var failed, pending := 0, 0;
    while failed < USER_LIMIT - 1
      invariant failed <= USER_LIMIT - 1 && Stands(width, events, user, 0, failed)
    {
      OneMoreCheck(width, events, user, 0, failed);
      OneMoreWrong(width, events + [Check(user)], user, 1, failed);
      events := events + [Check(user)] + [Wrong(user)];
      failed := failed + 1;
    }
    while pending < width
      invariant pending <= width && Stands(width, events, user, pending, failed)
    {
      OneMoreCheck(width, events, user, pending, failed);
      events := events + [Check(user)];
      pending := pending + 1;
    }
    while 0 < pending
      invariant 0 <= pending <= width && failed + pending == USER_LIMIT - 1 + width
      invariant Stands(width, events, user, pending, failed)
    {
      OneMoreWrong(width, events, user, pending, failed);
      events := events + [Wrong(user)];
      pending, failed := pending - 1, failed + 1;
    }
  }

  /** As many different users as it takes. */
  function Fresh(n: nat): User {
    seq(n, i => 'u')
  }

  /** Users `base`, `base + 1`, ... `base + pending - 1`. */
  function Waiting(base: nat, pending: nat): (users: multiset<User>)
    ensures |users| == pending
  {
    if pending == 0 then multiset{} else Waiting(base, pending - 1) + multiset{Fresh(base + pending - 1)}
  }

  /** A state that some run leads to. */
  ghost predicate Reachable(width: nat, s: System) {
    exists events :: Parallel(width, events) && Exec(events) == s
  }

  lemma ReachesNext(width: nat, s: System, e: Event)
    requires Reachable(width, s) && |Next(s, e).checking| <= width
    ensures Reachable(width, Next(s, e))
  {
    var events :| Parallel(width, events) && Exec(events) == s;
    var more := events + [e];
    assert more[..|events|] == events && more[|events|] == e;
    assert Parallel(width, more) && Exec(more) == Next(s, e);
  }

  lemma ReachableTells(width: nat, s: System, slot: Slot)
    requires Reachable(width, s)
    ensures CounterTells(s, slot)
  {
    var events :| Parallel(width, events) && Exec(events) == s;
    CountersTell(events, slot);
  }

  predicate StandsOverall(s: System, base: nat, pending: nat, failed: nat) {
    s.now == 0 && s.checking == Waiting(base, pending) && Tally(s.failures, Global(0)) == failed
  }

  lemma {:induction false} NeverFailed(failures: seq<Failure>, user: User)
    requires forall f :: f in failures ==> f.user != user
    ensures Tally(failures, ForUser(user, 0)) == 0
  {
    if failures != [] {
      assert failures[|failures| - 1] in failures;
      NeverFailed(failures[..|failures| - 1], user);
    }
  }

  predicate UsersBelow(failures: seq<Failure>, n: nat) {
    forall f :: f in failures ==> |f.user| < n
  }

  lemma OneMoreFresh(width: nat, s: System, base: nat, pending: nat, failed: nat) returns (t: System)
    requires Reachable(width, s) && StandsOverall(s, base, pending, failed) && pending < width && failed < GLOBAL_LIMIT
    requires UsersBelow(s.failures, base)
    ensures Reachable(width, t) && StandsOverall(t, base, pending + 1, failed) && t.failures == s.failures
  {
    var user := Fresh(base + pending);
    NeverFailed(s.failures, user);
    ReachableTells(width, s, ForUser(user, 0));
    ReachableTells(width, s, Global(0));
    ReadingIsTally(s, ForUser(user, 0));
    ReadingIsTally(s, Global(0));
    t := Next(s, Check(user));
    ReachesNext(width, s, Check(user));
  }

  lemma LastFreshFails(width: nat, s: System, base: nat, left: nat, failed: nat) returns (t: System)
    requires Reachable(width, s) && StandsOverall(s, base, left + 1, failed) && left < width
    ensures Reachable(width, t) && StandsOverall(t, base, left, failed + 1)
    ensures t.failures == s.failures + [Failure(Fresh(base + left), 0)]
  {
    var user := Fresh(base + left);
    assert Waiting(base, left + 1) - multiset{user} == Waiting(base, left);
    TallySnoc(s.failures, Failure(user, 0), Global(0));
    t := Next(s, Wrong(user));
    ReachesNext(width, s, Wrong(user));
  }

  lemma OneByItself(width: nat, s: System, n: nat) returns (t: System)
    requires 1 <= width && n < GLOBAL_LIMIT
    requires Reachable(width, s) && StandsOverall(s, n, 0, n) && UsersBelow(s.failures, n)
    ensures Reachable(width, t) && StandsOverall(t, n + 1, 0, n + 1) && UsersBelow(t.failures, n + 1)
  {
    t := OneMoreFresh(width, s, n, 0, n);
    t := LastFreshFails(width, t, n, 0, n);
  }

  /** One after the other, each with another user. */
  lemma {:induction false} OneByOne(width: nat, count: nat) returns (t: System)
    requires 1 <= width && count <= GLOBAL_LIMIT - 1
    ensures Reachable(width, t) && StandsOverall(t, count, 0, count) && UsersBelow(t.failures, count)
  {
    if count == 0 {
      assert Parallel(width, []);
      t := Exec([]);
    } else {
      t := OneByOne(width, count - 1);
      t := OneByItself(width, t, count - 1);
    }
  }

  /** That many are let in at once. */
  lemma {:induction false} AllLetIn(width: nat, s: System, base: nat, pending: nat) returns (t: System)
    requires Reachable(width, s) && StandsOverall(s, base, 0, base) && base < GLOBAL_LIMIT && pending <= width
    requires UsersBelow(s.failures, base)
    ensures Reachable(width, t) && StandsOverall(t, base, pending, base) && t.failures == s.failures
  {
    t := s;
    if pending > 0 {
      t := AllLetIn(width, s, base, pending - 1);
      t := OneMoreFresh(width, t, base, pending - 1, base);
    }
  }

  /** And all of them turn out wrong. */
  lemma {:induction false} AllFail(width: nat, s: System, base: nat, pending: nat, failed: nat) returns (t: System)
    requires Reachable(width, s) && StandsOverall(s, base, pending, failed) && pending <= width
    ensures Reachable(width, t) && StandsOverall(t, base, 0, failed + pending)
    decreases pending
  {
    t := s;
    if pending > 0 {
      t := LastFreshFails(width, s, base, pending - 1, failed);
      t := AllFail(width, t, base, pending - 1, failed + 1);
    }
  }

  /** For every number of logins in progress there is a run in which that many fail in one quarter hour. */
  lemma FailuresReachedOverall(width: nat) returns (events: seq<Event>)
    requires width >= 1
    ensures Parallel(width, events)
    ensures Tally(Exec(events).failures, Global(0)) == GLOBAL_LIMIT - 1 + width
  {
    var s := OneByOne(width, GLOBAL_LIMIT - 1);
    s := AllLetIn(width, s, GLOBAL_LIMIT - 1, width);
    s := AllFail(width, s, GLOBAL_LIMIT - 1, width, GLOBAL_LIMIT - 1);
    events :| Parallel(width, events) && Exec(events) == s;
  }
}
