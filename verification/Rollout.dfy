/**
 Rollout rules: the allocation the administration view shows (apps/admin-api/src/read-service.ts)
 and the decision the router takes (packages/rollout-control/src/decision.ts), which share the rule
 selection and differ in one guard case.
 */
module Rollout {
  import opened Wrappers

  /** `id` is the rule's position in the collation order of rule ids, so distinct ids differ. */
  datatype Rule = Rule(
    id: nat,
    providerId: string,
    platform: string,
    region: string,
    enabled: bool,
    allocationBps: nat,
    activatesAt: int,
    expiresAt: Option<int>)

  datatype Route = Route(providerId: string, platform: string, region: string)

  predicate IsActive(rule: Rule, now: int) {
    rule.activatesAt <= now && (rule.expiresAt == None || now < rule.expiresAt.value)
  }

  predicate Matches(rule: Rule, route: Route) {
    && (rule.providerId == "*" || rule.providerId == route.providerId)
    && (rule.platform == "*" || rule.platform == route.platform)
    && (rule.region == "*" || rule.region == route.region)
  }

  predicate Applies(rule: Rule, route: Route, now: int) {
    IsActive(rule, now) && Matches(rule, route)
  }

  function Specificity(rule: Rule): nat {
    (if rule.providerId != "*" then 1 else 0)
    + (if rule.platform != "*" then 1 else 0)
    + (if rule.region != "*" then 1 else 0)
  }

  /** Sorted to the front: more specific first, then the smaller id. */
  predicate Ahead(left: Rule, right: Rule) {
    Specificity(right) < Specificity(left) || (Specificity(left) == Specificity(right) && left.id <= right.id)
  }

  function Where(rules: seq<Rule>, route: Route, now: int, enabled: bool): (kept: seq<Rule>)
    ensures forall r :: r in kept <==> r in rules && Applies(r, route, now) && r.enabled == enabled
  {
    if rules == [] then []
    else if Applies(rules[0], route, now) && rules[0].enabled == enabled
      then [rules[0]] + Where(rules[1..], route, now, enabled)
    else Where(rules[1..], route, now, enabled)
  }

  function Insert(rule: Rule, sorted: seq<Rule>): (r: seq<Rule>)
    ensures multiset(r) == multiset(sorted) + multiset{rule}
  {
    if sorted == [] || Ahead(rule, sorted[0]) then [rule] + sorted
    else
      assert sorted == [sorted[0]] + sorted[1..];
      [sorted[0]] + Insert(rule, sorted[1..])
  }

  function Sort(rules: seq<Rule>): (r: seq<Rule>)
    ensures multiset(r) == multiset(rules)
  {
    if rules == [] then []
    else
      assert rules == [rules[0]] + rules[1..];
      Insert(rules[0], Sort(rules[1..]))
  }

  predicate IsSorted(rules: seq<Rule>) {
    forall i, j :: 0 <= i < j < |rules| ==> Ahead(rules[i], rules[j])
  }

  lemma {:induction false} InsertSorts(rule: Rule, sorted: seq<Rule>)
    requires IsSorted(sorted)
    ensures IsSorted(Insert(rule, sorted))
  {
    if sorted != [] && !Ahead(rule, sorted[0]) {
      InsertSorts(rule, sorted[1..]);
      var tail := Insert(rule, sorted[1..]);
      forall j | 0 <= j < |tail| ensures Ahead(sorted[0], tail[j]) {
        assert tail[j] in multiset(tail);
        assert tail[j] == rule || tail[j] in sorted[1..];
      }
    }
  }

  lemma {:induction false} SortSorts(rules: seq<Rule>)
    ensures IsSorted(Sort(rules))
  {
    if rules != [] {
      SortSorts(rules[1..]);
      InsertSorts(rules[0], Sort(rules[1..]));
    }
  }

  /** `sort(...)[0]` */
  function First(rules: seq<Rule>): Option<Rule> {
    var sorted := Sort(rules);
    if sorted == [] then None else Some(sorted[0])
  }

  /** `allocationFor` */
  function AllocationFor(snapshot: Option<seq<Rule>>, route: Route, now: int): nat {
    if snapshot == None then 0
    else if Where(snapshot.value, route, now, false) != [] then 0
    else
      match First(Where(snapshot.value, route, now, true))
      case None => 0
      case Some(grant) => grant.allocationBps
  }

  predicate DistinctIds(rules: seq<Rule>) {
    forall r, s :: r in rules && s in rules && r.id == s.id ==> r == s
  }

  /** The one grant that decides: it applies, it is enabled, and nothing enabled that applies goes ahead of it. */
  predicate Decides(grant: Rule, rules: seq<Rule>, route: Route, now: int) {
    && grant in rules && grant.enabled && Applies(grant, route, now)
    && forall r :: r in rules && r.enabled && Applies(r, route, now) ==> Ahead(grant, r)
  }

  lemma FirstDecides(rules: seq<Rule>, route: Route, now: int)
    ensures var first := First(Where(rules, route, now, true));
            && (first.Some? ==> Decides(first.value, rules, route, now))
            && (first.None? ==> forall r :: r in rules && Applies(r, route, now) ==> !r.enabled)
  {
    var kept := Where(rules, route, now, true);
    var sorted := Sort(kept);
    SortSorts(kept);
    forall r | r in kept ensures r in sorted {
      assert r in multiset(kept);
    }
    if sorted != [] {
      assert sorted[0] in multiset(kept);
      forall r | r in sorted ensures Ahead(sorted[0], r) {
        var j :| 0 <= j < |sorted| && sorted[j] == r;
      }
    }
  }

  // ----- the selection told from the fields

  datatype Field = ProviderField | PlatformField | RegionField

  /** What a rule says about a field, and what the route has there. */
  function Said(rule: Rule, field: Field): string {
    match field
    case ProviderField => rule.providerId
    case PlatformField => rule.platform
    case RegionField => rule.region
  }

  function Asked(route: Route, field: Field): string {
    match field
    case ProviderField => route.providerId
    case PlatformField => route.platform
    case RegionField => route.region
  }

  /** The fields a rule names. */
  function Named(rule: Rule): set<Field> {
    set field | field in {ProviderField, PlatformField, RegionField} && Said(rule, field) != "*"
  }

  /** From its activation until before its expiry a rule covers the routes that have what it names. */
  ghost predicate Covers(rule: Rule, route: Route, now: int) {
    && rule.activatesAt <= now && (rule.expiresAt.Some? ==> now < rule.expiresAt.value)
    && forall field :: field in Named(rule) ==> Said(rule, field) == Asked(route, field)
  }

  lemma AppliesIffCovers(rule: Rule, route: Route, now: int)
    ensures Applies(rule, route, now) <==> Covers(rule, route, now)
  {
    var named := Named(rule);
    assert ProviderField in named <==> rule.providerId != "*";
    assert PlatformField in named <==> rule.platform != "*";
    assert RegionField in named <==> rule.region != "*";
  }

  /** A field alone, if the rule names it. */
  function IfNamed(rule: Rule, field: Field): (one: set<Field>)
    ensures |one| == if Said(rule, field) != "*" then 1 else 0
  {
    if Said(rule, field) != "*" then {field} else {}
  }

  lemma DisjointSize(a: set<Field>, b: set<Field>)
    requires a !! b
    ensures |a + b| == |a| + |b|
  {
  }

  /** A rule is as specific as the number of fields it names. */
  lemma SpecificityCountsFields(rule: Rule)
    ensures Specificity(rule) == |Named(rule)|
  {
    var provider := IfNamed(rule, ProviderField);
    var platform := IfNamed(rule, PlatformField);
    var region := IfNamed(rule, RegionField);
    DisjointSize(provider, platform);
    DisjointSize(provider + platform, region);
    assert Named(rule) == provider + platform + region;
  }

  ghost predicate DeniedBy(rule: Rule, rules: seq<Rule>, route: Route, now: int) {
    rule in rules && Covers(rule, route, now) && !rule.enabled
  }

  ghost predicate Denied(rules: seq<Rule>, route: Route, now: int) {
    exists r :: DeniedBy(r, rules, route, now)
  }

  ghost predicate GrantedBy(rule: Rule, rules: seq<Rule>, route: Route, now: int) {
    rule in rules && Covers(rule, route, now) && rule.enabled
  }

  /** A grant that covers the route while no other one names more fields, or as many under a smaller id. */
  ghost predicate Strongest(grant: Rule, rules: seq<Rule>, route: Route, now: int) {
    && GrantedBy(grant, rules, route, now)
    && forall r :: GrantedBy(r, rules, route, now) ==>
         |Named(r)| < |Named(grant)| || (|Named(r)| == |Named(grant)| && grant.id <= r.id)
  }

  lemma FirstIsStrongest(rules: seq<Rule>, route: Route, now: int)
    ensures var first := First(Where(rules, route, now, true));
            && (first.Some? ==> Strongest(first.value, rules, route, now))
            && (first.None? ==> forall r :: !GrantedBy(r, rules, route, now))
  {
    FirstDecides(rules, route, now);
    forall r
      ensures Applies(r, route, now) <==> Covers(r, route, now)
      ensures Specificity(r) == |Named(r)|
    {
      AppliesIffCovers(r, route, now);
      SpecificityCountsFields(r);
    }
  }

  lemma DenyFound(rules: seq<Rule>, route: Route, now: int)
    ensures Where(rules, route, now, false) != [] <==> Denied(rules, route, now)
  {
    var denied := Where(rules, route, now, false);
    if denied != [] {
      AppliesIffCovers(denied[0], route, now);
      assert denied[0] in denied;
      assert DeniedBy(denied[0], rules, route, now);
    }
    forall r | DeniedBy(r, rules, route, now)
      ensures r in denied
    {
      AppliesIffCovers(r, route, now);
    }
  }

  /** No rules or a deny that covers the route force zero; otherwise the strongest grant gives the allocation. */
  lemma AllocationMeaning(rules: seq<Rule>, route: Route, now: int)
    requires DistinctIds(rules)
    ensures AllocationFor(None, route, now) == 0
    ensures var bps := AllocationFor(Some(rules), route, now);
            && (Denied(rules, route, now) ==> bps == 0)
            && ((forall r :: !GrantedBy(r, rules, route, now)) ==> bps == 0)
            && forall grant :: Strongest(grant, rules, route, now) && !Denied(rules, route, now) ==>
                 bps == grant.allocationBps
  {
    FirstIsStrongest(rules, route, now);
    DenyFound(rules, route, now);
  }

  /** For distinct ids, whether a deny applies and which grant decides do not depend on the order of the rules. */
  lemma SelectionOrderIndependent(rules: seq<Rule>, shuffled: seq<Rule>, route: Route, now: int)
    requires multiset(rules) == multiset(shuffled) && DistinctIds(rules)
    ensures First(Where(rules, route, now, true)) == First(Where(shuffled, route, now, true))
    ensures Where(rules, route, now, false) == [] <==> Where(shuffled, route, now, false) == []
    ensures First(Where(rules, route, now, false)) == None <==> First(Where(shuffled, route, now, false)) == None
  {
    forall r ensures r in rules <==> r in shuffled {
      assert r in multiset(rules) <==> r in multiset(shuffled);
    }
    FirstDecides(rules, route, now);
    FirstDecides(shuffled, route, now);
    FirstOfSame(Where(rules, route, now, false), Where(shuffled, route, now, false));
  }

  /** The allocation is the same for every order of the rules. */
  lemma AllocationOrderIndependent(rules: seq<Rule>, shuffled: seq<Rule>, route: Route, now: int)
    requires multiset(rules) == multiset(shuffled) && DistinctIds(rules)
    ensures AllocationFor(Some(rules), route, now) == AllocationFor(Some(shuffled), route, now)
  {
    SelectionOrderIndependent(rules, shuffled, route, now);
  }

  lemma SameEmptiness(a: seq<Rule>, b: seq<Rule>)
    requires forall r :: r in a <==> r in b
    ensures a == [] <==> b == []
  {
    if a != [] { assert a[0] in b; }
    if b != [] { assert b[0] in a; }
  }

  // ----- the automatic guard

  datatype Guard = Guard(route: Route, capBps: nat, expiresAt: int)

  datatype GuardSnapshot = GuardSnapshot(generatedAt: int, guards: seq<Guard>)

  /** `find` of the route's guard, unless it has expired. */
  function CurrentGuard(guards: seq<Guard>, route: Route, now: int): Option<Guard> {
    if guards == [] then None
    else if guards[0].route == route then (if guards[0].expiresAt <= now then None else Some(guards[0]))
    else CurrentGuard(guards[1..], route, now)
  }

  predicate Stale(snapshot: GuardSnapshot, now: int, maximumStaleMs: int) {
    var age := now - snapshot.generatedAt;
    age < -5_000 || maximumStaleMs < age
  }

  datatype Guarded = Guarded(allocationBps: nat, unavailable: bool)

  /** `guardedAllocation` */
  function GuardedAllocation(allocationBps: nat, snapshot: Option<GuardSnapshot>, route: Route, now: int,
                             required: bool, maximumStaleMs: int): (g: Guarded)
    ensures g.allocationBps <= allocationBps
    ensures g.unavailable ==> g.allocationBps == 0
  {
    if !required && snapshot == None then Guarded(allocationBps, false)
    else if snapshot == None then Guarded(0, true)
    else if Stale(snapshot.value, now, maximumStaleMs) then Guarded(0, true)
    else
      match CurrentGuard(snapshot.value.guards, route, now)
      case None => if required then Guarded(0, true) else Guarded(allocationBps, false)
      case Some(guard) => Guarded(if guard.capBps < allocationBps then guard.capBps else allocationBps, false)
  }

  /** The first guard of the route. */
  predicate GuardAt(guards: seq<Guard>, route: Route, i: nat) {
    i < |guards| && guards[i].route == route && forall j :: 0 <= j < i ==> guards[j].route != route
  }

  lemma {:induction false} CurrentGuardIff(guards: seq<Guard>, route: Route, now: int, guard: Guard)
    ensures CurrentGuard(guards, route, now) == Some(guard)
            <==> now < guard.expiresAt && exists i: nat :: GuardAt(guards, route, i) && guards[i] == guard
  {
    if guards != [] {
      if guards[0].route == route {
        assert GuardAt(guards, route, 0);
      } else {
        CurrentGuardIff(guards[1..], route, now, guard);
        if i: nat :| GuardAt(guards[1..], route, i) && guards[1..][i] == guard {
          assert GuardAt(guards, route, i + 1);
        }
        if i: nat :| GuardAt(guards, route, i) && guards[i] == guard {
          assert forall j :: 0 <= j < i - 1 ==> guards[1..][j] == guards[j + 1];
          assert GuardAt(guards[1..], route, i - 1);
        }
      }
    }
  }

  /** The route's first guard has not run out and caps it. */
  ghost predicate CappedAt(snapshot: GuardSnapshot, route: Route, now: int, capBps: nat) {
    exists i: nat ::
      GuardAt(snapshot.guards, route, i) && now < snapshot.guards[i].expiresAt && snapshot.guards[i].capBps == capBps
  }

  /** Generated no more than five seconds ahead and no longer ago than the limit. */
  predicate Fresh(snapshot: GuardSnapshot, now: int, maximumStaleMs: int) {
    snapshot.generatedAt <= now + 5 * 1000 && now <= snapshot.generatedAt + maximumStaleMs
  }

  lemma CapIffGuard(snapshot: GuardSnapshot, route: Route, now: int, capBps: nat)
    ensures CappedAt(snapshot, route, now, capBps) <==>
              var guard := CurrentGuard(snapshot.guards, route, now); guard.Some? && guard.value.capBps == capBps
  {
    var guard := CurrentGuard(snapshot.guards, route, now);
    if guard.Some? {
      CurrentGuardIff(snapshot.guards, route, now, guard.value);
      if i: nat :| GuardAt(snapshot.guards, route, i) && now < snapshot.guards[i].expiresAt {
        CurrentGuardIff(snapshot.guards, route, now, snapshot.guards[i]);
      }
    } else if i: nat :| GuardAt(snapshot.guards, route, i) && now < snapshot.guards[i].expiresAt {
      CurrentGuardIff(snapshot.guards, route, now, snapshot.guards[i]);
    }
  }

  /**
   An allocation is unavailable exactly when the guards are required and missing, are not fresh, or are
   required and have none for the route; otherwise the smaller of cap and allocation is left.
   */
  lemma GuardedMeaning(allocationBps: nat, snapshot: Option<GuardSnapshot>, route: Route, now: int, required: bool,
                       maximumStaleMs: int)
    ensures var g := GuardedAllocation(allocationBps, snapshot, route, now, required, maximumStaleMs);
            && (g.unavailable <==>
                  || (snapshot.None? && required)
                  || (snapshot.Some? && !Fresh(snapshot.value, now, maximumStaleMs))
                  || (snapshot.Some? && required && forall cap: nat :: !CappedAt(snapshot.value, route, now, cap)))
            && (!g.unavailable ==>
                  && (forall cap: nat :: snapshot.Some? && CappedAt(snapshot.value, route, now, cap) ==>
                        g.allocationBps == if cap <= allocationBps then cap else allocationBps)
                  && (snapshot.None? || (forall cap: nat :: !CappedAt(snapshot.value, route, now, cap)) ==>
                        g.allocationBps == allocationBps))
  {
    if snapshot.Some? {
      forall cap: nat
        ensures CappedAt(snapshot.value, route, now, cap) <==>
                  var guard := CurrentGuard(snapshot.value.guards, route, now);
                  guard.Some? && guard.value.capBps == cap
      {
        CapIffGuard(snapshot.value, route, now, cap);
      }
      var guard := CurrentGuard(snapshot.value.guards, route, now);
      if guard.Some? {
        assert CappedAt(snapshot.value, route, now, guard.value.capBps);
      }
    }
  }

  // ----- the view's state

  datatype CircuitState = Closed | Open | HalfOpen

  datatype Circuit = Circuit(insufficientData: bool, calculatedAt: int, state: CircuitState, successRate: real)

  datatype RouteState = Paused | Unavailable | InsufficientData | StaleData | OpenCircuit | Warning | Healthy

  /** `stateFor` */
  function StateFor(manifestEnabled: bool, allocationBps: nat, rolloutFailed: bool, guardUnavailable: bool,
                    circuitsFailed: bool, circuit: Option<Circuit>, now: int, freshnessMs: int): RouteState {
    if !manifestEnabled then Paused
    else if rolloutFailed || guardUnavailable || circuitsFailed then Unavailable
    else if allocationBps == 0 then Paused
    else if circuit == None || circuit.value.insufficientData then InsufficientData
    else if freshnessMs < now - circuit.value.calculatedAt then StaleData
    else if circuit.value.state == Open then OpenCircuit
    else if circuit.value.successRate < 0.9 then Warning
    else Healthy
  }

  /** A circuit that has enough data, as old as that. */
  predicate Measured(circuit: Option<Circuit>) {
    circuit.Some? && !circuit.value.insufficientData
  }

  /** Each state told apart from the others, by what the manifest, the allocation and the circuit are. */
  lemma StateMeaning(manifestEnabled: bool, allocationBps: nat, rolloutFailed: bool, guardUnavailable: bool,
                     circuitsFailed: bool, circuit: Option<Circuit>, now: int, freshnessMs: int)
    ensures var state := StateFor(manifestEnabled, allocationBps, rolloutFailed, guardUnavailable, circuitsFailed,
                                  circuit, now, freshnessMs);
            var failed := rolloutFailed || guardUnavailable || circuitsFailed;
            var served := manifestEnabled && !failed && allocationBps > 0;
            && (state == Paused <==> !manifestEnabled || (!failed && allocationBps == 0))
            && (state == Unavailable <==> manifestEnabled && failed)
            && (state == InsufficientData <==> served && (circuit.Some? ==> circuit.value.insufficientData))
            && (state == StaleData <==>
                  served && Measured(circuit) && circuit.value.calculatedAt + freshnessMs < now)
            && (state == OpenCircuit <==>
                  && served && Measured(circuit) && now <= circuit.value.calculatedAt + freshnessMs
                  && circuit.value.state == Open)
            && (state == Warning <==>
                  && served && Measured(circuit) && now <= circuit.value.calculatedAt + freshnessMs
                  && circuit.value.state != Open && circuit.value.successRate * 10.0 < 9.0)
            && (state == Healthy <==>
                  && served && Measured(circuit) && now <= circuit.value.calculatedAt + freshnessMs
                  && circuit.value.state != Open && 9.0 <= circuit.value.successRate * 10.0)
  {
  }

  /** A route shown as healthy has a deciding grant, no matching deny, and no guard cap of zero. */
  lemma HealthyIsServed(rules: seq<Rule>, guards: Option<GuardSnapshot>, route: Route, now: int, required: bool,
                        staleMs: int, circuit: Option<Circuit>, freshnessMs: int)
    requires var g := GuardedAllocation(AllocationFor(Some(rules), route, now), guards, route, now, required, staleMs);
             StateFor(true, g.allocationBps, false, g.unavailable, false, circuit, now, freshnessMs) == Healthy
    ensures var g := GuardedAllocation(AllocationFor(Some(rules), route, now), guards, route, now, required, staleMs);
            g.allocationBps > 0
    ensures exists grant :: Strongest(grant, rules, route, now) && grant.allocationBps > 0
    ensures !Denied(rules, route, now)
    ensures guards.Some? ==> !CappedAt(guards.value, route, now, 0)
  {
    FirstIsStrongest(rules, route, now);
    DenyFound(rules, route, now);
    if guards.Some? {
      CapIffGuard(guards.value, route, now, 0);
    }
  }

  // ----- the router's decision

  datatype Reason = MockDenied | MatchingDeny | NoMatchingRule | OutsideAllocation | GuardUnavailable | StaleGuard
                  | GuardDenied | OutsideGuardAllocation | Allowed

  /** The decision once the rules are selected. */
  function DecisionFor(isMock: bool, denied: bool, selected: Option<Rule>, route: Route, now: int, bucketOf: nat -> nat,
                       guards: Option<GuardSnapshot>, required: bool, maximumStaleMs: int): Reason {
    if isMock then MockDenied
    else if denied then MatchingDeny
    else
      match selected
      case None => NoMatchingRule
      case Some(grant) =>
        var bucket := bucketOf(grant.id);
        if grant.allocationBps <= bucket then OutsideAllocation
        else if !required && guards == None then Allowed
        else if guards == None then GuardUnavailable
        else if Stale(guards.value, now, maximumStaleMs) then StaleGuard
        else
          match CurrentGuard(guards.value.guards, route, now)
          case None => GuardUnavailable
          case Some(guard) =>
            if guard.capBps == 0 then GuardDenied
            else if guard.capBps <= bucket then OutsideGuardAllocation
            else Allowed
  }

  /** `evaluateRollout`; `bucketOf` stands for the keyed hash of rule id and task id. */
  function Decision(isMock: bool, rules: seq<Rule>, route: Route, now: int, bucketOf: nat -> nat,
                    guards: Option<GuardSnapshot>, required: bool, maximumStaleMs: int): Reason {
    DecisionFor(isMock, First(Where(rules, route, now, false)) != None, First(Where(rules, route, now, true)),
                route, now, bucketOf, guards, required, maximumStaleMs)
  }

  lemma FirstOfNone(rules: seq<Rule>)
    ensures First(rules) == None <==> rules == []
  {
    assert |multiset(Sort(rules))| == |Sort(rules)| && |multiset(rules)| == |rules|;
  }

  /** The answers that no guard can change. */
  lemma RulesDecide(isMock: bool, denied: bool, selected: Option<Rule>, route: Route, now: int, bucketOf: nat -> nat,
                    guards: Option<GuardSnapshot>, required: bool, staleMs: int)
    ensures var reason := DecisionFor(isMock, denied, selected, route, now, bucketOf, guards, required, staleMs);
            && (reason == MockDenied <==> isMock)
            && (reason == MatchingDeny <==> !isMock && denied)
            && (reason == NoMatchingRule <==> !isMock && !denied && selected == None)
  {
  }

  /** When the router answers without asking a grant. */
  lemma SelectionDecides(isMock: bool, rules: seq<Rule>, route: Route, now: int, bucketOf: nat -> nat,
                         guards: Option<GuardSnapshot>, required: bool, staleMs: int)
    ensures var reason := Decision(isMock, rules, route, now, bucketOf, guards, required, staleMs);
            && (reason == MockDenied <==> isMock)
            && (reason == MatchingDeny <==> !isMock && Denied(rules, route, now))
            && (reason == NoMatchingRule <==>
                  !isMock && !Denied(rules, route, now) && forall r :: !GrantedBy(r, rules, route, now))
  {
    FirstIsStrongest(rules, route, now);
    DenyFound(rules, route, now);
    FirstOfNone(Where(rules, route, now, false));
    var denied := First(Where(rules, route, now, false)) != None;
    var selected := First(Where(rules, route, now, true));
    assert selected == None <==> forall r :: !GrantedBy(r, rules, route, now);
    RulesDecide(isMock, denied, selected, route, now, bucketOf, guards, required, staleMs);
  }

  ghost predicate Capless(snapshot: GuardSnapshot, route: Route, now: int) {
    forall cap: nat :: !CappedAt(snapshot, route, now, cap)
  }

  lemma CaplessIffNoGuard(snapshot: GuardSnapshot, route: Route, now: int)
    ensures Capless(snapshot, route, now) <==> CurrentGuard(snapshot.guards, route, now).None?
  {
    var guard := CurrentGuard(snapshot.guards, route, now);
    if guard.Some? {
      CapIffGuard(snapshot, route, now, guard.value.capBps);
    } else if cap: nat :| CappedAt(snapshot, route, now, cap) {
      CapIffGuard(snapshot, route, now, cap);
    }
  }

  lemma GuardsDecide(grant: Rule, route: Route, now: int, bucketOf: nat -> nat, guards: Option<GuardSnapshot>,
                     required: bool, staleMs: int)
    ensures var reason := DecisionFor(false, false, Some(grant), route, now, bucketOf, guards, required, staleMs);
            var bucket := bucketOf(grant.id);
            var within, recent := bucket < grant.allocationBps, guards.Some? && Fresh(guards.value, now, staleMs);
            && (reason == OutsideAllocation <==> !within)
            && (reason == StaleGuard <==> within && guards.Some? && !recent)
            && (reason == GuardUnavailable <==>
                  within && ((guards.None? && required) || (recent && Capless(guards.value, route, now))))
            && (reason == GuardDenied <==> within && recent && CappedAt(guards.value, route, now, 0))
            && (reason == OutsideGuardAllocation <==>
                  within && recent && exists cap: nat :: 0 < cap <= bucket && CappedAt(guards.value, route, now, cap))
            && (reason == Allowed <==>
                  within && ((guards.None? && !required)
                             || (recent && exists cap: nat :: bucket < cap && CappedAt(guards.value, route, now, cap))))
  {
    if guards.Some? {
      CaplessIffNoGuard(guards.value, route, now);
      var guard := CurrentGuard(guards.value.guards, route, now);
      forall cap: nat
        ensures CappedAt(guards.value, route, now, cap) <==> guard.Some? && guard.value.capBps == cap
      {
        CapIffGuard(guards.value, route, now, cap);
      }
      if guard.Some? {
        assert CappedAt(guards.value, route, now, guard.value.capBps);
      }
    }
  }

  lemma SelectionIsStrongest(rules: seq<Rule>, route: Route, now: int, grant: Rule)
    requires DistinctIds(rules) && Strongest(grant, rules, route, now)
    ensures First(Where(rules, route, now, true)) == Some(grant)
    ensures First(Where(rules, route, now, false)) == None <==> !Denied(rules, route, now)
  {
    FirstIsStrongest(rules, route, now);
    DenyFound(rules, route, now);
    FirstOfNone(Where(rules, route, now, false));
  }

  /**
   What the strongest grant comes to: the bucket must lie below its allocation and then, where guards are
   required or there are any, below the cap of a guard that is fresh and has not run out.
   */
  lemma GrantDecides(rules: seq<Rule>, route: Route, now: int, bucketOf: nat -> nat, guards: Option<GuardSnapshot>,
                     required: bool, staleMs: int, grant: Rule)
    requires DistinctIds(rules) && Strongest(grant, rules, route, now) && !Denied(rules, route, now)
    ensures var reason := Decision(false, rules, route, now, bucketOf, guards, required, staleMs);
            var bucket := bucketOf(grant.id);
            var within, recent := bucket < grant.allocationBps, guards.Some? && Fresh(guards.value, now, staleMs);
            && (reason == OutsideAllocation <==> !within)
            && (reason == StaleGuard <==> within && guards.Some? && !recent)
            && (reason == GuardUnavailable <==>
                  within && ((guards.None? && required) || (recent && Capless(guards.value, route, now))))
            && (reason == GuardDenied <==> within && recent && CappedAt(guards.value, route, now, 0))
            && (reason == OutsideGuardAllocation <==>
                  within && recent && exists cap: nat :: 0 < cap <= bucket && CappedAt(guards.value, route, now, cap))
            && (reason == Allowed <==>
                  within && ((guards.None? && !required)
                             || (recent && exists cap: nat :: bucket < cap && CappedAt(guards.value, route, now, cap))))
  {
    SelectionIsStrongest(rules, route, now, grant);
    GuardsDecide(grant, route, now, bucketOf, guards, required, staleMs);
  }

  /** An optional guard source that answers freshly but holds no current guard for the route. */
  predicate GuardGap(guards: Option<GuardSnapshot>, route: Route, now: int, required: bool, staleMs: int) {
    && !required && guards.Some? && !Stale(guards.value, now, staleMs)
    && CurrentGuard(guards.value.guards, route, now) == None
  }

  /** The bucket the router compares, when a grant decides. */
  function BucketOf(rules: seq<Rule>, route: Route, now: int, bucketOf: nat -> nat): nat {
    match First(Where(rules, route, now, true))
    case None => 0
    case Some(grant) => bucketOf(grant.id)
  }

  /**
   On the same data the router lets a task through exactly when its bucket is below the allocation
   the view shows, except in a guard gap: there the view shows the whole grant and the router refuses.
   */
  lemma RouterMatchesView(rules: seq<Rule>, route: Route, now: int, bucketOf: nat -> nat,
                          guards: Option<GuardSnapshot>, required: bool, staleMs: int)
    ensures var allocation := AllocationFor(Some(rules), route, now);
            var shown := GuardedAllocation(allocation, guards, route, now, required, staleMs);
            Decision(false, rules, route, now, bucketOf, guards, required, staleMs) == Allowed
            <==> && BucketOf(rules, route, now, bucketOf) < shown.allocationBps
                 && !GuardGap(guards, route, now, required, staleMs)
  {
    FirstOfNone(Where(rules, route, now, false));
  }

  /** For every task at once: view and router agree if and only if there is no guard gap under a positive grant. */
  lemma ViewExactIffNoGap(rules: seq<Rule>, route: Route, now: int, guards: Option<GuardSnapshot>, required: bool,
                          staleMs: int)
    ensures (forall bucketOf: nat -> nat ::
               (Decision(false, rules, route, now, bucketOf, guards, required, staleMs) == Allowed
                <==> BucketOf(rules, route, now, bucketOf)
                     < GuardedAllocation(AllocationFor(Some(rules), route, now), guards, route, now, required,
                         staleMs).allocationBps))
            <==> !(GuardGap(guards, route, now, required, staleMs) && AllocationFor(Some(rules), route, now) > 0)
  {
    forall bucketOf: nat -> nat
      ensures Decision(false, rules, route, now, bucketOf, guards, required, staleMs) == Allowed
              <==> BucketOf(rules, route, now, bucketOf)
                   < GuardedAllocation(AllocationFor(Some(rules), route, now), guards, route, now, required,
                       staleMs).allocationBps
                   && !GuardGap(guards, route, now, required, staleMs)
    {
      RouterMatchesView(rules, route, now, bucketOf, guards, required, staleMs);
    }
    if GuardGap(guards, route, now, required, staleMs) && AllocationFor(Some(rules), route, now) > 0 {
      var zero: nat -> nat := (id: nat) => 0;
      assert BucketOf(rules, route, now, zero) == 0;
    }
  }

  /** A router decision, too, is the same for every order of the rules. */
  lemma DecisionOrderIndependent(isMock: bool, rules: seq<Rule>, shuffled: seq<Rule>, route: Route, now: int,
                                 bucketOf: nat -> nat, guards: Option<GuardSnapshot>, required: bool, staleMs: int)
    requires multiset(rules) == multiset(shuffled) && DistinctIds(rules)
    ensures Decision(isMock, rules, route, now, bucketOf, guards, required, staleMs)
            == Decision(isMock, shuffled, route, now, bucketOf, guards, required, staleMs)
  {
    SelectionOrderIndependent(rules, shuffled, route, now);
  }

  lemma FirstOfSame(a: seq<Rule>, b: seq<Rule>)
    requires forall r :: r in a <==> r in b
    ensures a == [] <==> b == []
    ensures First(a) == None <==> First(b) == None
  {
    SameEmptiness(a, b);
    FirstOfNone(a);
    FirstOfNone(b);
  }

  /**
   A guard gap: the guards are optional, their source answers, and it has none for the route. The view
   shows the whole grant of any single active rule, the router refuses every request.
   */
  lemma GapShowsWhatIsRefused(grant: Rule, route: Route, now: int, bucketOf: nat -> nat, staleMs: int)
    requires grant.enabled && grant.allocationBps > 0 && Applies(grant, route, now) && 0 <= staleMs
    ensures var guards := Some(GuardSnapshot(now, []));
            && GuardGap(guards, route, now, false, staleMs)
            && GuardedAllocation(AllocationFor(Some([grant]), route, now), guards, route, now, false, staleMs)
               == Guarded(grant.allocationBps, false)
            && Decision(false, [grant], route, now, bucketOf, guards, false, staleMs) != Allowed
  {
    assert Where([grant], route, now, true) == [grant];
    assert Where([grant], route, now, false) == [];
  }
}
