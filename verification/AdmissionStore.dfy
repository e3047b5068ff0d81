/**
 The anonymous task quota of packages/admission-control/src/redis.ts: two request counters, two
 sets of active permits, and per permit the set of references that keep it alive. A request that
 repeats an idempotency key shares the permit of the first one through a reference of its own.
 */
module AdmissionStore {
  import opened Redis
  import opened Wrappers

  type Identity = string
  type Permit = string
  type Reference = string

  datatype Policy = Policy(
    clientRequestLimit: nat,
    globalRequestLimit: nat,
    requestWindowMs: nat,
    clientActiveLimit: nat,
    globalActiveLimit: nat)

  type Members = map<Permit, int>

  datatype Keys = Keys(
    clientRate: map<Identity, Key<nat>>,
    globalRate: Key<nat>,
    clientActive: map<Identity, Key<Members>>,
    globalActive: Key<Members>,
    permits: map<Permit, Key<Identity>>,
    references: map<Permit, Key<set<Reference>>>)

  function Lookup<T>(keys: map<string, Key<T>>, name: string): Key<T> {
    if name in keys then keys[name] else Absent
  }

  datatype Decision = Accepted | RateLimited | ConcurrencyLimited

  function Bumped(rate: Key<nat>, now: int, windowMs: nat): Key<nat> {
    if rate.LiveAt(now) then Present(rate.value + 1, rate.deadline) else Present(1, now + windowMs)
  }

  function Active(members: Key<Members>, now: int): Members {
    Prune(members.ReadAt(now, map[]), now)
  }

  /** ZADD, then PEXPIRE unless the set already lives longer than the new member. */
  function Joined(members: Key<Members>, now: int, permit: Permit, ttlMs: nat): Key<Members> {
    Present(members.ReadAt(now, map[])[permit := now + ttlMs],
            if members.LiveAt(now) && now + ttlMs <= members.deadline then members.deadline else now + ttlMs)
  }

  predicate RateExhausted(policy: Policy, k: Keys, now: int, client: Identity) {
    || policy.clientRequestLimit <= Lookup(k.clientRate, client).ReadAt(now, 0)
    || policy.globalRequestLimit <= k.globalRate.ReadAt(now, 0)
  }

  function Counted(policy: Policy, k: Keys, now: int, client: Identity): Keys {
    k.(clientRate := k.clientRate[client := Bumped(Lookup(k.clientRate, client), now, policy.requestWindowMs)],
       globalRate := Bumped(k.globalRate, now, policy.requestWindowMs))
  }

  predicate PermitLive(k: Keys, now: int, permit: Permit) {
    Lookup(k.permits, permit).LiveAt(now)
  }

  /** References that keep `permit` alive. */
  function References(k: Keys, now: int, permit: Permit): set<Reference> {
    Lookup(k.references, permit).ReadAt(now, {})
  }

  predicate SlotsFull(policy: Policy, k: Keys, now: int, client: Identity) {
    || policy.clientActiveLimit <= |Active(Lookup(k.clientActive, client), now)|
    || policy.globalActiveLimit <= |Active(k.globalActive, now)|
  }

  function Decide(policy: Policy, k: Keys, now: int, client: Identity, permit: Permit): Decision {
    if RateExhausted(policy, k, now, client) then RateLimited
    else if PermitLive(k, now, permit) then Accepted
    else if SlotsFull(policy, k, now, client) then ConcurrencyLimited
    else Accepted
  }

  /** An accepted request under a permit that is already alive only adds its reference. */
  function Shared(k: Keys, now: int, permit: Permit, reference: Reference): Keys
    requires PermitLive(k, now, permit)
  {
    var members := References(k, now, permit) + {reference};
    k.(references := k.references[permit := Present(members, k.permits[permit].deadline)])
  }

  function Opened(k: Keys, now: int, client: Identity, permit: Permit, reference: Reference, ttlMs: nat): Keys {
    k.(clientActive := k.clientActive[client := Joined(Lookup(k.clientActive, client), now, permit, ttlMs)],
       globalActive := Joined(k.globalActive, now, permit, ttlMs),
       permits := k.permits[permit := Present(client, now + ttlMs)],
       references := k.references[permit := Present(References(k, now, permit) + {reference}, now + ttlMs)])
  }

  /** ZREMRANGEBYSCORE on both sets: expired members are forgotten, nothing else. */
  function Pruned(k: Keys, now: int, client: Identity): Keys {
    k.(clientActive := if client in k.clientActive && k.clientActive[client].LiveAt(now)
                       then k.clientActive[client :=
                           Present(Active(k.clientActive[client], now), k.clientActive[client].deadline)]
                       else k.clientActive,
       globalActive := if k.globalActive.LiveAt(now) then Present(Active(k.globalActive, now), k.globalActive.deadline)
                       else k.globalActive)
  }

  function Admitted(policy: Policy, k: Keys, now: int, client: Identity, permit: Permit, reference: Reference,
                    ttlMs: nat): Keys {
    if RateExhausted(policy, k, now, client) then k else
    var counted := Counted(policy, k, now, client);
    if PermitLive(k, now, permit) then Shared(counted, now, permit, reference)
    else
      var pruned := Pruned(counted, now, client);
      if SlotsFull(policy, k, now, client) then pruned else Opened(pruned, now, client, permit, reference, ttlMs)
  }

  lemma PrunedRead(k: Keys, now: int, client: Identity)
    ensures var pruned := Pruned(k, now, client);
            && Lookup(pruned.clientActive, client).ReadAt(now, map[]) == Active(Lookup(k.clientActive, client), now)
            && pruned.globalActive.ReadAt(now, map[]) == Active(k.globalActive, now)
  {
  }

  function Left(members: Key<Members>, permit: Permit): Key<Members> {
    if members.Present? then Present(members.value - {permit}, members.deadline) else Absent
  }

  /** The last reference takes the permit and its two slots with it; any other only itself. */
  function Released(k: Keys, now: int, permit: Permit, reference: Reference): Keys {
    if !PermitLive(k, now, permit) || reference !in References(k, now, permit) then k else
    var rest := References(k, now, permit) - {reference};
    if rest != {} then k.(references := k.references[permit := Present(rest, k.references[permit].deadline)]) else
    var client := k.permits[permit].value;
    k.(clientActive := k.clientActive[client := Left(Lookup(k.clientActive, client), permit)],
       globalActive := Left(k.globalActive, permit),
       permits := k.permits - {permit},
       references := k.references - {permit})
  }

  /** The scripts on the stored keys. */
  class RedisAdmissionStore {
    const policy: Policy
    var clientRate: map<Identity, Key<nat>>
    var globalRate: Key<nat>
    var clientActive: map<Identity, Key<Members>>
    var globalActive: Key<Members>
    var permits: map<Permit, Key<Identity>>
    var references: map<Permit, Key<set<Reference>>>

    ghost function Contents(): Keys
      reads this
    {
      Keys(clientRate, globalRate, clientActive, globalActive, permits, references)
    }

    constructor (policy: Policy)
      ensures this.policy == policy && Contents() == Keys(map[], Absent, map[], Absent, map[], map[])
    {
      this.policy := policy;
      clientRate, globalRate, clientActive, globalActive, permits, references :=
          map[], Absent, map[], Absent, map[], map[];
    }

    /** The request counters: refused without effect when one is used up, counted otherwise. */
    method CountRequest(now: int, client: Identity) returns (ok: bool)
      modifies this`clientRate, this`globalRate
      ensures ok == !RateExhausted(policy, old(Contents()), now, client)
      ensures Contents() == if ok then Counted(policy, old(Contents()), now, client) else old(Contents())
    {
      var mine := Lookup(clientRate, client);
      if mine.ReadAt(now, 0) >= policy.clientRequestLimit || globalRate.ReadAt(now, 0) >= policy.globalRequestLimit {
        return false;
      }
      clientRate := clientRate[client := Bumped(mine, now, policy.requestWindowMs)];
      globalRate := Bumped(globalRate, now, policy.requestWindowMs);
      return true;
    }

    /** Both ZREMRANGEBYSCORE commands of the admission script. */
    method PruneActive(now: int, client: Identity)
      modifies this`clientActive, this`globalActive
      ensures Contents() == Pruned(old(Contents()), now, client)
    {
      if client in clientActive && clientActive[client].LiveAt(now) {
        clientActive := clientActive[client :=
            Present(Prune(clientActive[client].value, now), clientActive[client].deadline)];
      }
      if globalActive.LiveAt(now) {
        globalActive := Present(Prune(globalActive.value, now), globalActive.deadline);
      }
    }

    /** Takes a slot in both sets for a permit that is not alive. */
    method OpenPermit(now: int, client: Identity, permit: Permit, reference: Reference,
                      ttlMs: nat) returns (success: bool)
      modifies this`clientActive, this`globalActive, this`permits, this`references
      ensures success == !SlotsFull(policy, old(Contents()), now, client)
      ensures var pruned := Pruned(old(Contents()), now, client);
              Contents() == if success then Opened(pruned, now, client, permit, reference, ttlMs) else pruned
    {
      PruneActive(now, client);
      var ours := Lookup(clientActive, client).ReadAt(now, map[]);
      var all := globalActive.ReadAt(now, map[]);
      PrunedRead(old(Contents()), now, client);
      if |ours| >= policy.clientActiveLimit || |all| >= policy.globalActiveLimit {
        return false;
      }
      var members := Lookup(references, permit).ReadAt(now, {});
      clientActive := clientActive[client := Joined(Lookup(clientActive, client), now, permit, ttlMs)];
      globalActive := Joined(globalActive, now, permit, ttlMs);
      permits := permits[permit := Present(client, now + ttlMs)];
      references := references[permit := Present(members + {reference}, now + ttlMs)];
      return true;
    }

    /** The admission script. */
    method AdmitTask(now: int, client: Identity, permit: Permit, reference: Reference,
                     ttlMs: nat) returns (decision: Decision)
      modifies this
      ensures decision == Decide(policy, old(Contents()), now, client, permit)
      ensures Contents() == Admitted(policy, old(Contents()), now, client, permit, reference, ttlMs)
    {
      var counted := CountRequest(now, client);
      if !counted {
        return RateLimited;
      }
      if permit in permits && permits[permit].LiveAt(now) {
        var members := Lookup(references, permit).ReadAt(now, {});
        references := references[permit := Present(members + {reference}, permits[permit].deadline)];
        return Accepted;
      }
      var success := OpenPermit(now, client, permit, reference, ttlMs);
      decision := if success then Accepted else ConcurrencyLimited;
    }

    /** The release script. */
    method ReleaseTask(now: int, permit: Permit, reference: Reference)
      modifies this
      ensures Contents() == Released(old(Contents()), now, permit, reference)
    {
      if permit !in permits || !permits[permit].LiveAt(now) {
        return;
      }
      if permit !in references || !references[permit].LiveAt(now) || reference !in references[permit].value {
        return;
      }
      var rest := references[permit].value - {reference};
      if rest != {} {
        references := references[permit := Present(rest, references[permit].deadline)];
        return;
      }
      var client := permits[permit].value;
      clientActive := clientActive[client := Left(Lookup(clientActive, client), permit)];
      globalActive := Left(globalActive, permit);
      permits := permits - {permit};
      references := references - {permit};
    }
  }

  // ----- runs

  /** An accepted reference that has not been released: its permit, and when that permit runs out. */
  datatype Lease = Lease(permit: Permit, until: int)

  /** A request that was counted, that is, one that was not refused for its rate. */
  datatype Request = Request(client: Identity, at: int)

  datatype System = System(now: int, keys: Keys, held: map<Reference, Lease>, seen: set<Reference>,
                           counted: seq<Request>)

  datatype Event =
    | Wait(ms: nat)
    | Admit(client: Identity, permit: Permit, reference: Reference, ttlMs: nat)
    | Release(permit: Permit, reference: Reference)

  /** References are random, so no two requests share one; permit lives are at least a second long. */
  predicate Enabled(s: System, e: Event) {
    match e
    case Admit(_, _, reference, ttlMs) => reference !in s.seen && 1_000 <= ttlMs
    case _ => true
  }

  function Step(policy: Policy, s: System, e: Event): System {
    if !Enabled(s, e) then s else
    match e
    case Wait(ms) => s.(now := s.now + ms)
    case Admit(client, permit, reference, ttlMs) =>
      var keys := Admitted(policy, s.keys, s.now, client, permit, reference, ttlMs);
      var until := Until(s.keys, s.now, permit, ttlMs);
      System(s.now, keys,
             if Decide(policy, s.keys, s.now, client, permit) == Accepted
             then s.held[reference := Lease(permit, until)]
             else s.held,
             s.seen + {reference},
             if Decide(policy, s.keys, s.now, client, permit) == RateLimited then s.counted
             else s.counted + [Request(client, s.now)])
    case Release(permit, reference) =>
      s.(keys := Released(s.keys, s.now, permit, reference),
         held := if reference in s.held && s.held[reference].permit == permit then s.held - {reference} else s.held)
  }

  function Init(start: int): System {
    System(start, Keys(map[], Absent, map[], Absent, map[], map[]), map[], {}, [])
  }

  function Run(policy: Policy, start: int, events: seq<Event>): System {
    if events == [] then Init(start)
    else Step(policy, Run(policy, start, events[..|events| - 1]), events[|events| - 1])
  }

  /** A permit and its reference set are stored together, with one deadline, and the set is not empty. */
  predicate Paired(k: Keys) {
    && k.permits.Keys == k.references.Keys
    && forall p :: p in k.permits ==>
         && k.permits[p].Present? && k.references[p].Present?
         && k.permits[p].deadline == k.references[p].deadline
         && k.references[p].value != {}
  }

  type Permits = map<Permit, Key<Identity>>

  /** `permit` is alive and counts for `who`: one client, or everybody. */
  predicate CountsFor(permits: Permits, now: int, who: Option<Identity>, permit: Permit) {
    && permit in permits && permits[permit].LiveAt(now)
    && (who.Some? ==> permits[permit].value == who.value)
  }

  /** `members` holds exactly the permits that count for `who`, each until its own deadline. */
  predicate Tracks(permits: Permits, now: int, members: Key<Members>, who: Option<Identity>) {
    && (forall p :: p in permits && CountsFor(permits, now, who, p) ==>
          members.Present? && p in members.value && members.value[p] == permits[p].deadline <= members.deadline)
    && (members.Present? ==> forall p :: p in members.value && now < members.value[p] ==>
          CountsFor(permits, now, who, p) && members.value[p] == permits[p].deadline)
  }

  function SlotKey(k: Keys, who: Option<Identity>): Key<Members> {
    match who
    case None => k.globalActive
    case Some(client) => Lookup(k.clientActive, client)
  }

  ghost predicate TracksAll(k: Keys, now: int) {
    forall who :: Tracks(k.permits, now, SlotKey(k, who), who)
  }

  /** The permits that occupy a slot of `who` are exactly the ones that are alive and count for it. */
  lemma TracksMeaning(permits: Permits, now: int, members: Key<Members>, who: Option<Identity>, p: Permit)
    requires Tracks(permits, now, members, who)
    ensures p in Active(members, now) <==> CountsFor(permits, now, who, p)
  {
  }

  lemma TracksLater(permits: Permits, now: int, later: int, members: Key<Members>, who: Option<Identity>)
    requires Tracks(permits, now, members, who) && now <= later
    ensures Tracks(permits, later, members, who)
  {
    forall p | p in permits && CountsFor(permits, later, who, p)
      ensures CountsFor(permits, now, who, p)
    {
    }
  }

  lemma TracksPruned(permits: Permits, now: int, members: Key<Members>, who: Option<Identity>)
    requires Tracks(permits, now, members, who) && members.LiveAt(now)
    ensures Tracks(permits, now, Present(Active(members, now), members.deadline), who)
  {
  }

  lemma TracksJoined(permits: Permits, now: int, members: Key<Members>, who: Option<Identity>,
                     client: Identity, permit: Permit, ttlMs: nat)
    requires Tracks(permits, now, members, who) && !Lookup(permits, permit).LiveAt(now) && 0 < ttlMs
    ensures var grown := permits[permit := Present(client, now + ttlMs)];
            Tracks(grown, now,
                   if who in {None, Some(client)} then Joined(members, now, permit, ttlMs) else members, who)
  {
    var grown := permits[permit := Present(client, now + ttlMs)];
    forall p | p in grown && p != permit
      ensures CountsFor(grown, now, who, p) == CountsFor(permits, now, who, p)
    {
    }
  }

  lemma TracksLeft(permits: Permits, now: int, members: Key<Members>, who: Option<Identity>, permit: Permit)
    requires Tracks(permits, now, members, who) && permit in permits && permits[permit].LiveAt(now)
    ensures Tracks(permits - {permit}, now,
                   if who in {None, Some(permits[permit].value)} then Left(members, permit) else members, who)
  {
    forall p | p in permits - {permit}
      ensures CountsFor(permits - {permit}, now, who, p) == CountsFor(permits, now, who, p)
    {
    }
  }

  ghost predicate KeysOk(k: Keys, now: int) {
    Paired(k) && TracksAll(k, now)
  }

  lemma SharedKeepsKeys(k: Keys, now: int, permit: Permit, reference: Reference)
    requires KeysOk(k, now) && PermitLive(k, now, permit)
    ensures KeysOk(Shared(k, now, permit, reference), now)
  {
    var t := Shared(k, now, permit, reference);
    forall who ensures Tracks(t.permits, now, SlotKey(t, who), who) {
      assert Tracks(k.permits, now, SlotKey(k, who), who);
    }
  }

  lemma PrunedKeepsKeys(k: Keys, now: int, client: Identity)
    requires KeysOk(k, now)
    ensures KeysOk(Pruned(k, now, client), now)
  {
    var t := Pruned(k, now, client);
    forall who ensures Tracks(t.permits, now, SlotKey(t, who), who) {
      assert Tracks(k.permits, now, SlotKey(k, who), who);
      if SlotKey(k, who).LiveAt(now) {
        TracksPruned(k.permits, now, SlotKey(k, who), who);
      }
    }
  }

  lemma OpenedKeepsKeys(k: Keys, now: int, client: Identity, permit: Permit, reference: Reference, ttlMs: nat)
    requires KeysOk(k, now) && !PermitLive(k, now, permit) && 0 < ttlMs
    ensures KeysOk(Opened(k, now, client, permit, reference, ttlMs), now)
  {
    var t := Opened(k, now, client, permit, reference, ttlMs);
    forall who ensures Tracks(t.permits, now, SlotKey(t, who), who) {
      assert Tracks(k.permits, now, SlotKey(k, who), who);
      TracksJoined(k.permits, now, SlotKey(k, who), who, client, permit, ttlMs);
    }
    assert reference in t.references[permit].value;
  }

  lemma ReleasedKeepsKeys(k: Keys, now: int, permit: Permit, reference: Reference)
    requires KeysOk(k, now)
    ensures KeysOk(Released(k, now, permit, reference), now)
  {
    var t := Released(k, now, permit, reference);
    forall who ensures Tracks(t.permits, now, SlotKey(t, who), who) {
      assert Tracks(k.permits, now, SlotKey(k, who), who);
      if PermitLive(k, now, permit) {
        TracksLeft(k.permits, now, SlotKey(k, who), who, permit);
      }
    }
  }

  lemma StepKeepsKeys(policy: Policy, s: System, e: Event)
    requires KeysOk(s.keys, s.now)
    ensures var t := Step(policy, s, e); KeysOk(t.keys, t.now)
  {
    match e {
      case Wait(ms) =>
        forall who ensures Tracks(s.keys.permits, s.now + ms, SlotKey(s.keys, who), who) {
          assert Tracks(s.keys.permits, s.now, SlotKey(s.keys, who), who);
          TracksLater(s.keys.permits, s.now, s.now + ms, SlotKey(s.keys, who), who);
        }
      case Admit(client, permit, reference, ttlMs) =>
        if Enabled(s, e) && !RateExhausted(policy, s.keys, s.now, client) {
          var counted := Counted(policy, s.keys, s.now, client);
          CountedKeepsKeys(policy, s.keys, s.now, client);
          PrunedKeepsKeys(counted, s.now, client);
          if PermitLive(counted, s.now, permit) {
            SharedKeepsKeys(counted, s.now, permit, reference);
          } else {
            OpenedKeepsKeys(Pruned(counted, s.now, client), s.now, client, permit, reference, ttlMs);
          }
        }
      case Release(permit, reference) => ReleasedKeepsKeys(s.keys, s.now, permit, reference);
    }
  }

  lemma CountedKeepsKeys(policy: Policy, k: Keys, now: int, client: Identity)
    requires KeysOk(k, now)
    ensures KeysOk(Counted(policy, k, now, client), now)
  {
    var t := Counted(policy, k, now, client);
    forall who ensures Tracks(t.permits, now, SlotKey(t, who), who) {
      assert Tracks(k.permits, now, SlotKey(k, who), who);
    }
  }

  // ----- references

  /** The reference set of a permit is what was accepted for it and not released. */
  predicate RefersTo(s: System, permit: Permit, reference: Reference) {
    PermitLive(s.keys, s.now, permit) && reference in References(s.keys, s.now, permit)
  }

  predicate HeldFor(s: System, permit: Permit, reference: Reference) {
    reference in s.held && s.held[reference].permit == permit && s.now < s.held[reference].until
  }

  ghost predicate LedgerOk(s: System) {
    && s.held.Keys <= s.seen
    && (forall permit, reference :: RefersTo(s, permit, reference) <==> HeldFor(s, permit, reference))
    && (forall permit, reference :: HeldFor(s, permit, reference) ==>
        s.held[reference].until == s.keys.permits[permit].deadline)
  }

  /** When the permit of an accepted request runs out. */
  function Until(k: Keys, now: int, permit: Permit, ttlMs: nat): int {
    if PermitLive(k, now, permit) then k.permits[permit].deadline else now + ttlMs
  }

  /** `permit` gains a reference and runs out at `until`; no other permit or reference set changes. */
  predicate Gains(k: Keys, t: Keys, now: int, permit: Permit, reference: Reference, until: int) {
    && t.permits.Keys == k.permits.Keys + {permit} && t.references.Keys == k.references.Keys + {permit}
    && (forall p :: p in k.permits && p in k.references && p != permit ==>
          t.permits[p] == k.permits[p] && t.references[p] == k.references[p])
    && t.permits[permit].Present? && t.permits[permit].deadline == until
    && t.references[permit] == Present(References(k, now, permit) + {reference}, until)
  }

  lemma SharedGains(k: Keys, now: int, permit: Permit, reference: Reference)
    requires Paired(k) && PermitLive(k, now, permit)
    ensures Gains(k, Shared(k, now, permit, reference), now, permit, reference, k.permits[permit].deadline)
  {
    var t := Shared(k, now, permit, reference);
    assert t.permits.Keys == k.permits.Keys + {permit};
  }

  lemma OpenedGains(k: Keys, now: int, client: Identity, permit: Permit, reference: Reference, ttlMs: nat)
    requires Paired(k)
    ensures Gains(k, Opened(k, now, client, permit, reference, ttlMs), now, permit, reference, now + ttlMs)
  {
  }

  /** Counting and pruning leave permits and references as they are. */
  lemma PreparedSame(policy: Policy, k: Keys, now: int, client: Identity)
    ensures var counted := Counted(policy, k, now, client); var pruned := Pruned(counted, now, client);
            && counted.permits == k.permits && counted.references == k.references
            && pruned.permits == k.permits && pruned.references == k.references
  {
  }

  /** A refused request changes neither permits nor references. */
  lemma RefusedEffect(policy: Policy, k: Keys, now: int, client: Identity, permit: Permit, reference: Reference,
                      ttlMs: nat)
    requires Decide(policy, k, now, client, permit) != Accepted
    ensures var t := Admitted(policy, k, now, client, permit, reference, ttlMs);
            t.permits == k.permits && t.references == k.references
  {
    PreparedSame(policy, k, now, client);
  }

  /** An accepted request gains its reference, whichever branch of the script it takes. */
  lemma AcceptedEffect(policy: Policy, k: Keys, now: int, client: Identity, permit: Permit, reference: Reference,
                       ttlMs: nat)
    requires Paired(k) && Decide(policy, k, now, client, permit) == Accepted
    ensures Gains(k, Admitted(policy, k, now, client, permit, reference, ttlMs), now, permit, reference,
                  Until(k, now, permit, ttlMs))
  {
    var counted := Counted(policy, k, now, client);
    PreparedSame(policy, k, now, client);
    if PermitLive(k, now, permit) {
      SharedGains(counted, now, permit, reference);
      GainsSame(k, counted, Shared(counted, now, permit, reference), now, permit, reference,
          k.permits[permit].deadline);
    } else {
      var pruned := Pruned(counted, now, client);
      OpenedGains(pruned, now, client, permit, reference, ttlMs);
      GainsSame(k, pruned, Opened(pruned, now, client, permit, reference, ttlMs), now, permit, reference, now + ttlMs);
    }
  }

  lemma GainsSame(k: Keys, k': Keys, t: Keys, now: int, permit: Permit, reference: Reference, until: int)
    requires k'.permits == k.permits && k'.references == k.references && Gains(k', t, now, permit, reference, until)
    ensures Gains(k, t, now, permit, reference, until)
  {
  }

  lemma AdmitKeepsLedger(policy: Policy, s: System, client: Identity, permit: Permit, reference: Reference, ttlMs: nat)
    requires Paired(s.keys) && LedgerOk(s) && Enabled(s, Admit(client, permit, reference, ttlMs))
    ensures LedgerOk(Step(policy, s, Admit(client, permit, reference, ttlMs)))
  {
    var t := Step(policy, s, Admit(client, permit, reference, ttlMs));
    var k := Admitted(policy, s.keys, s.now, client, permit, reference, ttlMs);
    assert t.keys == k && t.now == s.now;
    if Decide(policy, s.keys, s.now, client, permit) == Accepted {
      AcceptedEffect(policy, s.keys, s.now, client, permit, reference, ttlMs);
      assert !PermitLive(s.keys, s.now, permit) ==> References(s.keys, s.now, permit) == {};
      var held := s.held[reference := Lease(permit, Until(s.keys, s.now, permit, ttlMs))];
      AcceptedKeepsLedger(s, System(s.now, k, held, s.seen + {reference}, t.counted), permit, reference,
                          Until(s.keys, s.now, permit, ttlMs));
    } else {
      RefusedEffect(policy, s.keys, s.now, client, permit, reference, ttlMs);
      RefusedKeepsLedger(s, System(s.now, k, s.held, s.seen + {reference}, t.counted));
    }
  }

  lemma RefusedKeepsLedger(s: System, t: System)
    requires LedgerOk(s) && t.now == s.now && t.held == s.held && s.seen <= t.seen
    requires t.keys.permits == s.keys.permits && t.keys.references == s.keys.references
    ensures LedgerOk(t)
  {
    forall p, r
      ensures RefersTo(t, p, r) <==> HeldFor(t, p, r)
      ensures HeldFor(t, p, r) ==> t.held[r].until == t.keys.permits[p].deadline
    {
      assert RefersTo(s, p, r) <==> HeldFor(s, p, r);
    }
  }

  lemma AcceptedKeepsLedger(s: System, t: System, permit: Permit, reference: Reference, until: int)
    requires LedgerOk(s) && reference !in s.seen && t.now == s.now < until
    requires s.keys.permits.Keys == s.keys.references.Keys
    requires t.held == s.held[reference := Lease(permit, until)] && t.seen == s.seen + {reference}
    requires Gains(s.keys, t.keys, s.now, permit, reference, until)
    requires PermitLive(s.keys, s.now, permit) ==> s.keys.permits[permit].deadline == until
    requires !PermitLive(s.keys, s.now, permit) ==> References(s.keys, s.now, permit) == {}
    ensures LedgerOk(t)
  {
    forall p, r
      ensures RefersTo(t, p, r) <==> HeldFor(t, p, r)
      ensures HeldFor(t, p, r) ==> t.held[r].until == t.keys.permits[p].deadline
    {
      assert RefersTo(s, p, r) <==> HeldFor(s, p, r);
      if p == permit {
        assert RefersTo(t, p, r) <==> r == reference || r in References(s.keys, s.now, permit);
      }
    }
  }

  lemma ReleaseKeepsLedger(policy: Policy, s: System, permit: Permit, reference: Reference)
    requires Paired(s.keys) && LedgerOk(s)
    ensures LedgerOk(Step(policy, s, Release(permit, reference)))
  {
    var t := Step(policy, s, Release(permit, reference));
    forall p, r
      ensures RefersTo(t, p, r) <==> HeldFor(t, p, r)
      ensures HeldFor(t, p, r) ==> t.held[r].until == t.keys.permits[p].deadline
    {
      assert RefersTo(s, p, r) <==> HeldFor(s, p, r);
      assert RefersTo(s, permit, reference) <==> HeldFor(s, permit, reference);
    }
  }

  lemma WaitKeepsLedger(policy: Policy, s: System, ms: nat)
    requires Paired(s.keys) && LedgerOk(s)
    ensures LedgerOk(Step(policy, s, Wait(ms)))
  {
    var t := Step(policy, s, Wait(ms));
    forall p, r
      ensures RefersTo(t, p, r) <==> HeldFor(t, p, r)
      ensures HeldFor(t, p, r) ==> t.held[r].until == t.keys.permits[p].deadline
    {
      assert RefersTo(s, p, r) <==> HeldFor(s, p, r);
    }
  }

  // ----- limits

  function Limit(policy: Policy, who: Option<Identity>): nat {
    if who.None? then policy.globalActiveLimit else policy.clientActiveLimit
  }

  ghost predicate WithinLimits(policy: Policy, k: Keys, now: int) {
    forall who :: |Active(SlotKey(k, who), now)| <= Limit(policy, who)
  }

  lemma SubmapSize(small: Members, large: Members)
    requires small.Keys <= large.Keys
    ensures |small| <= |large|
  {
    assert large.Keys == small.Keys + (large.Keys - small.Keys);
  }

  lemma JoinedSize(members: Key<Members>, now: int, permit: Permit, ttlMs: nat)
    ensures |Active(Joined(members, now, permit, ttlMs), now)| <= |members.ReadAt(now, map[])| + 1
  {
    var m := members.ReadAt(now, map[]);
    assert m[permit := now + ttlMs].Keys == m.Keys + {permit};
    SubmapSize(Active(Joined(members, now, permit, ttlMs), now), m[permit := now + ttlMs]);
  }

  lemma OpenedKeepsLimits(policy: Policy, k: Keys, now: int, client: Identity, permit: Permit, reference: Reference,
                          ttlMs: nat)
    requires WithinLimits(policy, k, now) && !SlotsFull(policy, k, now, client)
    ensures WithinLimits(policy, Opened(Pruned(k, now, client), now, client, permit, reference, ttlMs), now)
  {
    var pruned := Pruned(k, now, client);
    PrunedRead(k, now, client);
    var t := Opened(pruned, now, client, permit, reference, ttlMs);
    forall who ensures |Active(SlotKey(t, who), now)| <= Limit(policy, who) {
      if who in {None, Some(client)} {
        JoinedSize(SlotKey(pruned, who), now, permit, ttlMs);
      } else {
        assert SlotKey(t, who) == SlotKey(k, who);
      }
    }
  }

  lemma PrunedKeepsLimits(policy: Policy, k: Keys, now: int, client: Identity)
    requires WithinLimits(policy, k, now)
    ensures WithinLimits(policy, Pruned(k, now, client), now)
  {
    var t := Pruned(k, now, client);
    forall who ensures |Active(SlotKey(t, who), now)| <= Limit(policy, who) {
      SubmapSize(Active(SlotKey(t, who), now), Active(SlotKey(k, who), now));
    }
  }

  lemma ReleasedKeepsLimits(policy: Policy, k: Keys, now: int, permit: Permit, reference: Reference)
    requires WithinLimits(policy, k, now)
    ensures WithinLimits(policy, Released(k, now, permit, reference), now)
  {
    var t := Released(k, now, permit, reference);
    forall who ensures |Active(SlotKey(t, who), now)| <= Limit(policy, who) {
      SubmapSize(Active(SlotKey(t, who), now), Active(SlotKey(k, who), now));
    }
  }

  /** Moving the clock or touching only counters, permits and references. */
  lemma SameSlotsKeepLimits(policy: Policy, k: Keys, now: int, t: Keys, later: int)
    requires WithinLimits(policy, k, now) && now <= later
    requires t.clientActive == k.clientActive && t.globalActive == k.globalActive
    ensures WithinLimits(policy, t, later)
  {
    forall who ensures |Active(SlotKey(t, who), later)| <= Limit(policy, who) {
      SubmapSize(Active(SlotKey(t, who), later), Active(SlotKey(k, who), now));
    }
  }

  lemma AdmittedKeepsLimits(policy: Policy, k: Keys, now: int, client: Identity, permit: Permit,
                            reference: Reference, ttlMs: nat)
    requires WithinLimits(policy, k, now)
    ensures WithinLimits(policy, Admitted(policy, k, now, client, permit, reference, ttlMs), now)
  {
    if !RateExhausted(policy, k, now, client) {
      var counted := Counted(policy, k, now, client);
      SameSlotsKeepLimits(policy, k, now, counted, now);
      if PermitLive(counted, now, permit) {
        SameSlotsKeepLimits(policy, counted, now, Shared(counted, now, permit, reference), now);
      } else if SlotsFull(policy, counted, now, client) {
        PrunedKeepsLimits(policy, counted, now, client);
      } else {
        OpenedKeepsLimits(policy, counted, now, client, permit, reference, ttlMs);
      }
    }
  }

  lemma StepKeepsLimits(policy: Policy, s: System, e: Event)
    requires WithinLimits(policy, s.keys, s.now)
    ensures var t := Step(policy, s, e); WithinLimits(policy, t.keys, t.now)
  {
    match e {
      case Wait(ms) => SameSlotsKeepLimits(policy, s.keys, s.now, s.keys, s.now + ms);
      case Admit(client, permit, reference, ttlMs) =>
        AdmittedKeepsLimits(policy, s.keys, s.now, client, permit, reference, ttlMs);
      case Release(permit, reference) => ReleasedKeepsLimits(policy, s.keys, s.now, permit, reference);
    }
  }

  ghost predicate Inv(policy: Policy, s: System) {
    KeysOk(s.keys, s.now) && LedgerOk(s) && WithinLimits(policy, s.keys, s.now)
  }

  lemma {:induction false} RunKeepsInv(policy: Policy, start: int, events: seq<Event>)
    ensures Inv(policy, Run(policy, start, events))
  {
    if events == [] {
      assert forall who :: Active(SlotKey(Init(start).keys, who), start) == map[];
    } else {
      var s := Run(policy, start, events[..|events| - 1]);
      var e := events[|events| - 1];
      RunKeepsInv(policy, start, events[..|events| - 1]);
      StepKeepsKeys(policy, s, e);
      StepKeepsLimits(policy, s, e);
      if Enabled(s, e) {
        match e {
          case Wait(ms) => WaitKeepsLedger(policy, s, ms);
          case Admit(client, permit, reference, ttlMs) => AdmitKeepsLedger(policy, s, client, permit, reference, ttlMs);
          case Release(permit, reference) => ReleaseKeepsLedger(policy, s, permit, reference);
        }
      }
    }
  }

  // ----- the main results, for every run

  /**
   A permit is alive exactly as long as some accepted reference to it has neither been released nor
   run out, and exactly then it occupies one global slot and one slot of the client that opened it.
   So giving back one reference never frees the slot under another one.
   */
  lemma SlotHeldIffReferenced(policy: Policy, start: int, events: seq<Event>, permit: Permit)
    ensures var s := Run(policy, start, events);
            && (PermitLive(s.keys, s.now, permit) <==> exists reference :: HeldFor(s, permit, reference))
            && (PermitLive(s.keys, s.now, permit) <==> permit in Active(s.keys.globalActive, s.now))
            && (forall client ::
                  permit in Active(Lookup(s.keys.clientActive, client), s.now)
                  <==> (PermitLive(s.keys, s.now, permit) && s.keys.permits[permit].value == client))
  {
    var s := Run(policy, start, events);
    RunKeepsInv(policy, start, events);
    if PermitLive(s.keys, s.now, permit) {
      var reference :| reference in References(s.keys, s.now, permit);
      assert RefersTo(s, permit, reference);
    }
    forall reference | HeldFor(s, permit, reference) ensures PermitLive(s.keys, s.now, permit) {
      assert RefersTo(s, permit, reference);
    }
    forall who
      ensures permit in Active(SlotKey(s.keys, who), s.now) <==> CountsFor(s.keys.permits, s.now, who, permit)
    {
      assert Tracks(s.keys.permits, s.now, SlotKey(s.keys, who), who);
      TracksMeaning(s.keys.permits, s.now, SlotKey(s.keys, who), who, permit);
    }
    assert permit in Active(SlotKey(s.keys, None), s.now) <==> CountsFor(s.keys.permits, s.now, None, permit);
    forall client
      ensures permit in Active(Lookup(s.keys.clientActive, client), s.now)
              <==> PermitLive(s.keys, s.now, permit) && s.keys.permits[permit].value == client
    {
      assert permit in Active(SlotKey(s.keys, Some(client)), s.now) <==>
          CountsFor(s.keys.permits, s.now, Some(client), permit);
    }
  }

  /** At every moment no more permits are alive than the policy allows, per client and in all. */
  lemma ActivePermitsWithinLimits(policy: Policy, start: int, events: seq<Event>, who: Option<Identity>)
    ensures var s := Run(policy, start, events);
            |set p | p in s.keys.permits && CountsFor(s.keys.permits, s.now, who, p)| <= Limit(policy, who)
  {
    var s := Run(policy, start, events);
    RunKeepsInv(policy, start, events);
    var live := set p | p in s.keys.permits && CountsFor(s.keys.permits, s.now, who, p);
    assert Tracks(s.keys.permits, s.now, SlotKey(s.keys, who), who);
    var slots := Active(SlotKey(s.keys, who), s.now);
    forall p | p in live ensures p in slots.Keys {
      TracksMeaning(s.keys.permits, s.now, SlotKey(s.keys, who), who, p);
    }
    assert slots.Keys == live + (slots.Keys - live);
    assert |Active(SlotKey(s.keys, who), s.now)| <= Limit(policy, who);
  }

  /** Releasing a reference again changes nothing, even when the permit has been opened anew meanwhile. */
  lemma ReleaseIdempotent(policy: Policy, start: int, before: seq<Event>, between: seq<Event>, permit: Permit,
                          reference: Reference)
    requires reference in Run(policy, start, before).seen
    requires reference !in Run(policy, start, before).held
    ensures var s := Run(policy, start, before + between);
            reference in s.seen && reference !in s.held && Released(s.keys, s.now, permit, reference) == s.keys
    decreases |between|
  {
    var s := Run(policy, start, before + between);
    if between == [] {
      assert before + between == before;
    } else {
      assert (before + between)[..|before + between| - 1] == before + between[..|between| - 1];
      ReleaseIdempotent(policy, start, before, between[..|between| - 1], permit, reference);
    }
    RunKeepsInv(policy, start, before + between);
    assert !HeldFor(s, permit, reference);
    assert !RefersTo(s, permit, reference);
  }

  // ----- requests per window

  /** The request counts for one client, or for all of them. */
  predicate Concerns(who: Option<Identity>, r: Request) {
    who.None? || r.client == who.value
  }

  /** When the last window was opened, and how many requests have been counted in it. */
  datatype Window = Window(start: int, count: nat)

  /** A counted request opens a window unless the last one is still open. */
  function NextWindow(last: Option<Window>, who: Option<Identity>, r: Request, windowMs: nat): Option<Window> {
    if !Concerns(who, r) then last
    else if last.Some? && r.at < last.value.start + windowMs then Some(Window(last.value.start, last.value.count + 1))
    else Some(Window(r.at, 1))
  }

  function LastWindow(counted: seq<Request>, who: Option<Identity>, windowMs: nat): Option<Window> {
    if counted == [] then None
    else NextWindow(LastWindow(counted[..|counted| - 1], who, windowMs), who, counted[|counted| - 1], windowMs)
  }

  /** Counted requests of `who` from a moment on. */
  function CountedFrom(counted: seq<Request>, who: Option<Identity>, from: int): nat {
    if counted == [] then 0
    else
      var r := counted[|counted| - 1];
      CountedFrom(counted[..|counted| - 1], who, from) + if Concerns(who, r) && from <= r.at then 1 else 0
  }

  /** Counted requests of `who` in the window that is open now. */
  function UsedNow(s: System, who: Option<Identity>, windowMs: nat): nat {
    var last := LastWindow(s.counted, who, windowMs);
    if last.Some? && s.now < last.value.start + windowMs then CountedFrom(s.counted, who, last.value.start) else 0
  }

  function RateKey(k: Keys, who: Option<Identity>): Key<nat> {
    match who
    case None => k.globalRate
    case Some(client) => Lookup(k.clientRate, client)
  }

  /** A counter is a window: its count and its end. */
  predicate IsWindow(key: Key<nat>, last: Option<Window>, windowMs: nat) {
    match key
    case Absent => last == None
    case Present(value, deadline) => last == Some(Window(deadline - windowMs, value))
  }

  predicate CounterTells(policy: Policy, s: System, who: Option<Identity>) {
    IsWindow(RateKey(s.keys, who), LastWindow(s.counted, who, policy.requestWindowMs), policy.requestWindowMs)
  }

  lemma BumpedIsNext(key: Key<nat>, last: Option<Window>, who: Option<Identity>, r: Request, windowMs: nat)
    requires IsWindow(key, last, windowMs) && Concerns(who, r)
    ensures IsWindow(Bumped(key, r.at, windowMs), NextWindow(last, who, r, windowMs), windowMs)
  {
  }

  lemma CountedMoves(policy: Policy, k: Keys, now: int, client: Identity, permit: Permit, reference: Reference,
                     ttlMs: nat, who: Option<Identity>)
    ensures var t := Admitted(policy, k, now, client, permit, reference, ttlMs);
            RateKey(t, who)
            == if Decide(policy, k, now, client, permit) == RateLimited || !Concerns(who, Request(client, now))
               then RateKey(k, who)
               else Bumped(RateKey(k, who), now, policy.requestWindowMs)
  {
  }

  lemma LastWindowNext(counted: seq<Request>, r: Request, who: Option<Identity>, windowMs: nat)
    ensures LastWindow(counted + [r], who, windowMs) == NextWindow(LastWindow(counted, who, windowMs), who, r, windowMs)
  {
    assert (counted + [r])[..|counted|] == counted;
  }

  lemma StepTells(policy: Policy, s: System, e: Event, who: Option<Identity>)
    requires CounterTells(policy, s, who)
    ensures CounterTells(policy, Step(policy, s, e), who)
  {
    if Enabled(s, e) && e.Admit? {
      var r, windowMs := Request(e.client, s.now), policy.requestWindowMs;
      CountedMoves(policy, s.keys, s.now, e.client, e.permit, e.reference, e.ttlMs, who);
      LastWindowNext(s.counted, r, who, windowMs);
      if Concerns(who, r) {
        BumpedIsNext(RateKey(s.keys, who), LastWindow(s.counted, who, windowMs), who, r, windowMs);
      }
    }
  }

  /** After every run each counter holds exactly what was counted in the window that opened last. */
  lemma {:induction false} CountersTell(policy: Policy, start: int, events: seq<Event>, who: Option<Identity>)
    ensures CounterTells(policy, Run(policy, start, events), who)
  {
    if events != [] {
      CountersTell(policy, start, events[..|events| - 1], who);
      StepTells(policy, Run(policy, start, events[..|events| - 1]), events[|events| - 1], who);
    }
  }

  predicate OneAfterAnother(counted: seq<Request>) {
    forall i, j :: 0 <= i < j < |counted| ==> counted[i].at <= counted[j].at
  }

  lemma {:induction false} RunInOrder(policy: Policy, start: int, events: seq<Event>)
    ensures var s := Run(policy, start, events);
            OneAfterAnother(s.counted) && forall r :: r in s.counted ==> r.at <= s.now
  {
    if events != [] {
      RunInOrder(policy, start, events[..|events| - 1]);
    }
  }

  lemma {:induction false} NoneSince(counted: seq<Request>, who: Option<Identity>, from: int)
    requires forall r :: r in counted && Concerns(who, r) ==> r.at < from
    ensures CountedFrom(counted, who, from) == 0
  {
    if counted != [] {
      var n := |counted| - 1;
      assert counted[n] in counted;
      NoneSince(counted[..n], who, from);
    }
  }

  /** The window was opened by one of these requests, and none of them came after its end. */
  predicate HoldsLatest(counted: seq<Request>, who: Option<Identity>, w: Window, windowMs: nat) {
    && (exists r :: r in counted && Concerns(who, r) && r.at == w.start)
    && (forall r :: r in counted && Concerns(who, r) ==> r.at < w.start + windowMs)
    && w.count == CountedFrom(counted, who, w.start)
  }

  lemma OthersKeepWindow(counted: seq<Request>, who: Option<Identity>, r: Request, w: Window, windowMs: nat)
    requires HoldsLatest(counted, who, w, windowMs) && !Concerns(who, r)
    ensures HoldsLatest(counted + [r], who, w, windowMs)
  {
    assert (counted + [r])[..|counted|] == counted;
    var first :| first in counted && Concerns(who, first) && first.at == w.start;
    assert first in counted + [r];
  }

  lemma WindowStaysOpen(counted: seq<Request>, who: Option<Identity>, r: Request, w: Window, windowMs: nat)
    requires HoldsLatest(counted, who, w, windowMs) && Concerns(who, r) && w.start <= r.at < w.start + windowMs
    ensures HoldsLatest(counted + [r], who, Window(w.start, w.count + 1), windowMs)
  {
    assert (counted + [r])[..|counted|] == counted;
    var first :| first in counted && Concerns(who, first) && first.at == w.start;
    assert first in counted + [r];
  }

  lemma WindowOpens(counted: seq<Request>, who: Option<Identity>, r: Request, windowMs: nat)
    requires Concerns(who, r) && 0 < windowMs
    requires forall q :: q in counted && Concerns(who, q) ==> q.at < r.at
    ensures HoldsLatest(counted + [r], who, Window(r.at, 1), windowMs)
  {
    assert (counted + [r])[..|counted|] == counted;
    NoneSince(counted, who, r.at);
    assert r in counted + [r];
  }

  /** What the last window is for these requests, if there is one. */
  predicate IsLatest(counted: seq<Request>, who: Option<Identity>, last: Option<Window>, windowMs: nat) {
    if last.Some? then HoldsLatest(counted, who, last.value, windowMs)
    else forall r :: r in counted ==> !Concerns(who, r)
  }

  lemma NextIsLatest(counted: seq<Request>, who: Option<Identity>, r: Request, last: Option<Window>, windowMs: nat)
    requires 0 < windowMs && IsLatest(counted, who, last, windowMs) && forall q :: q in counted ==> q.at <= r.at
    ensures IsLatest(counted + [r], who, NextWindow(last, who, r, windowMs), windowMs)
  {
    if !Concerns(who, r) {
      if last.Some? {
        OthersKeepWindow(counted, who, r, last.value, windowMs);
      }
    } else if last.Some? && r.at < last.value.start + windowMs {
      WindowStaysOpen(counted, who, r, last.value, windowMs);
    } else {
      WindowOpens(counted, who, r, windowMs);
    }
  }

  /**
   The last window was opened by a counted request, holds all that came from then on, and ends before any
   that could have opened another: so its count is that of the requests since its start.
   */
  lemma {:induction false} WindowCounts(counted: seq<Request>, who: Option<Identity>, windowMs: nat)
    requires 0 < windowMs && OneAfterAnother(counted)
    ensures IsLatest(counted, who, LastWindow(counted, who, windowMs), windowMs)
  {
    if counted != [] {
      var before, r := counted[..|counted| - 1], counted[|counted| - 1];
      WindowCounts(before, who, windowMs);
      NextIsLatest(before, who, r, LastWindow(before, who, windowMs), windowMs);
      assert counted == before + [r];
    }
  }

  function RequestLimit(policy: Policy, who: Option<Identity>): nat {
    if who.None? then policy.globalRequestLimit else policy.clientRequestLimit
  }

  lemma UsedIsRead(policy: Policy, start: int, events: seq<Event>, who: Option<Identity>)
    requires 0 < policy.requestWindowMs
    ensures var s := Run(policy, start, events);
            RateKey(s.keys, who).ReadAt(s.now, 0) == UsedNow(s, who, policy.requestWindowMs)
  {
    CountersTell(policy, start, events, who);
    RunInOrder(policy, start, events);
    WindowCounts(Run(policy, start, events).counted, who, policy.requestWindowMs);
  }

  /**
   In every run a request is refused for its rate if and only if, in the windows that are open now, its client
   or all clients together have had as many counted requests as the policy allows.
   */
  lemma RateLimitedIff(policy: Policy, start: int, events: seq<Event>, client: Identity, permit: Permit)
    requires 0 < policy.requestWindowMs
    ensures var s := Run(policy, start, events);
            Decide(policy, s.keys, s.now, client, permit) == RateLimited
            <==> || policy.clientRequestLimit <= UsedNow(s, Some(client), policy.requestWindowMs)
                 || policy.globalRequestLimit <= UsedNow(s, None, policy.requestWindowMs)
  {
    UsedIsRead(policy, start, events, Some(client));
    UsedIsRead(policy, start, events, None);
  }

  lemma StepWithinLimit(policy: Policy, s: System, e: Event, who: Option<Identity>)
    requires CounterTells(policy, s, who)
    requires var last := LastWindow(s.counted, who, policy.requestWindowMs);
             last.Some? ==> last.value.count <= RequestLimit(policy, who)
    ensures var last := LastWindow(Step(policy, s, e).counted, who, policy.requestWindowMs);
            last.Some? ==> last.value.count <= RequestLimit(policy, who)
  {
    if Enabled(s, e) && e.Admit? {
      var more := s.counted + [Request(e.client, s.now)];
      assert more[..|more| - 1] == s.counted && more[|more| - 1] == Request(e.client, s.now);
    }
  }

  lemma {:induction false} LastWithinLimit(policy: Policy, start: int, events: seq<Event>, who: Option<Identity>)
    ensures var last := LastWindow(Run(policy, start, events).counted, who, policy.requestWindowMs);
            last.Some? ==> last.value.count <= RequestLimit(policy, who)
  {
    if events != [] {
      LastWithinLimit(policy, start, events[..|events| - 1], who);
      CountersTell(policy, start, events[..|events| - 1], who);
      StepWithinLimit(policy, Run(policy, start, events[..|events| - 1]), events[|events| - 1], who);
    }
  }

  /** No window ever counts more requests than the policy allows: of one client, or of all. */
  lemma WindowWithinLimit(policy: Policy, start: int, events: seq<Event>, who: Option<Identity>)
    requires 0 < policy.requestWindowMs
    ensures var counted := Run(policy, start, events).counted;
            var last := LastWindow(counted, who, policy.requestWindowMs);
            last.Some? ==> CountedFrom(counted, who, last.value.start) <= RequestLimit(policy, who)
  {
    RunInOrder(policy, start, events);
    WindowCounts(Run(policy, start, events).counted, who, policy.requestWindowMs);
    LastWithinLimit(policy, start, events, who);
  }

  /** Permits that are alive and count for `who`. */
  function LivePermits(s: System, who: Option<Identity>): set<Permit> {
    set p | p in s.keys.permits && CountsFor(s.keys.permits, s.now, who, p)
  }

  lemma SlotsAreLivePermits(policy: Policy, start: int, events: seq<Event>, who: Option<Identity>)
    ensures var s := Run(policy, start, events); |Active(SlotKey(s.keys, who), s.now)| == |LivePermits(s, who)|
  {
    var s := Run(policy, start, events);
    RunKeepsInv(policy, start, events);
    assert Tracks(s.keys.permits, s.now, SlotKey(s.keys, who), who);
    forall p ensures p in Active(SlotKey(s.keys, who), s.now) <==> p in LivePermits(s, who) {
      TracksMeaning(s.keys.permits, s.now, SlotKey(s.keys, who), who, p);
    }
    assert Active(SlotKey(s.keys, who), s.now).Keys == LivePermits(s, who);
  }

  /**
   In every run a request whose rate is in order is refused if and only if its permit is not held by anybody
   and the client, or all clients together, already have as many permits alive as the policy allows.
   */
  lemma ConcurrencyLimitedIff(policy: Policy, start: int, events: seq<Event>, client: Identity, permit: Permit)
    ensures var s := Run(policy, start, events);
            Decide(policy, s.keys, s.now, client, permit) == ConcurrencyLimited
            <==> && Decide(policy, s.keys, s.now, client, permit) != RateLimited
                 && !(exists reference :: HeldFor(s, permit, reference))
                 && (policy.clientActiveLimit <= |LivePermits(s, Some(client))|
                     || policy.globalActiveLimit <= |LivePermits(s, None)|)
  {
    var s := Run(policy, start, events);
    SlotHeldIffReferenced(policy, start, events, permit);
    SlotsAreLivePermits(policy, start, events, Some(client));
    SlotsAreLivePermits(policy, start, events, None);
  }
}
