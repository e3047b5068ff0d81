/**
 The guest-session gate of apps/ytdlp-runner/src/admission.ts and the two handlers of
 apps/ytdlp-runner/src/app.ts that share it with one map of used request ids.
 */
module YtDlpRunner {
  import opened Wrappers

  datatype Platform = YouTube | Dailymotion

  /** The closure a caller of the gate holds. It has no memory of its own. */
  datatype Release = NoEffect | FreesGate

  datatype Gate = Gate(active: bool, nextAllowedAt: int)

  function Granted(gate: Gate, platform: Platform, now: int): Option<Release> {
    if platform != YouTube then Some(NoEffect)
    else if gate.active || now < gate.nextAllowedAt then None
    else Some(FreesGate)
  }

  function Held(gate: Gate, platform: Platform, now: int): Gate {
    if Granted(gate, platform, now) == Some(FreesGate) then gate.(active := true) else gate
  }

  function Freed(gate: Gate, release: Release, now: int, interval: nat): Gate {
    if release == FreesGate && gate.active then Gate(false, now + interval) else gate
  }

  class YtDlpAdmissionGate {
    var active: bool
    var nextAllowedAt: int
    const interval: nat

    constructor (minimumIntervalMs: int)
      ensures State() == Gate(false, 0) && interval == if minimumIntervalMs < 0 then 0 else minimumIntervalMs
    {
      active, nextAllowedAt := false, 0;
      interval := if minimumIntervalMs < 0 then 0 else minimumIntervalMs;
    }

    function State(): Gate
      reads this
    {
      Gate(active, nextAllowedAt)
    }

    method TryAcquire(platform: Platform, now: int) returns (release: Option<Release>)
      modifies this
      ensures release == Granted(old(State()), platform, now)
      ensures State() == Held(old(State()), platform, now)
    {
      if platform != YouTube {
        return Some(NoEffect);
      }
      if active || now < nextAllowedAt {
        return None;
      }
      active := true;
      return Some(FreesGate);
    }

    /** Calling a closure that the gate handed out. */
    method Call(release: Release, now: int)
      modifies this
      ensures State() == Freed(old(State()), release, now, interval)
    {
      if release.NoEffect? || !active {
        return;
      }
      active := false;
      nextAllowedAt := now + interval;
    }
  }

  // ----- the handlers

  datatype Kind = Extraction | Artifact

  function Retention(kind: Kind): nat {
    if kind.Extraction? then 60_000 else 5 * 60_000
  }

  type Used = map<string, int>

  function Unexpired(used: Used, now: int): Used {
    map id | id in used && now < used[id] :: used[id]
  }

  datatype Request = Request(kind: Kind, id: string, platform: Platform, authentic: bool)

  datatype Answer =
    | InvalidSignature
    | ArtifactRuntimeUnavailable
    | RequestReplayed
    | RateLimited
    | Running(release: Release)

  /** What the synchronous part of a handler decides. */
  function Decided(used: Used, gate: Gate, preparer: bool, r: Request, now: int): Answer {
    if !r.authentic then InvalidSignature
    else if r.kind.Artifact? && !preparer then ArtifactRuntimeUnavailable
    else if r.id in Unexpired(used, now) then RequestReplayed
    else
      match Granted(gate, r.platform, now)
      case None => RateLimited
      case Some(release) => Running(release)
  }

  /** The id is taken before the gate is asked. */
  function UsedAfter(used: Used, preparer: bool, r: Request, now: int): Used {
    if !r.authentic || (r.kind.Artifact? && !preparer) then used
    else if r.id in Unexpired(used, now) then Unexpired(used, now)
    else Unexpired(used, now)[r.id := now + Retention(r.kind)]
  }

  function GateAfter(used: Used, gate: Gate, preparer: bool, r: Request, now: int): Gate {
    if Decided(used, gate, preparer, r, now).Running? then Held(gate, r.platform, now) else gate
  }

  class YtDlpRunnerApp {
    var usedRequests: Used
    const gate: YtDlpAdmissionGate
    const preparer: bool

    constructor (gate: YtDlpAdmissionGate, preparer: bool)
      ensures this.gate == gate && this.preparer == preparer && usedRequests == map[]
    {
      this.gate, this.preparer, usedRequests := gate, preparer, map[];
    }

    /** The purge loop: forgets exactly the expired ids. */
    method Purge(now: int)
      modifies `usedRequests
      ensures usedRequests == Unexpired(old(usedRequests), now)
    {
      var before := usedRequests;
      var ids := usedRequests.Keys;
      while ids != {}
        invariant ids <= before.Keys
        invariant forall id :: id in usedRequests <==> id in before && (id in ids || now < before[id])
        invariant forall id :: id in usedRequests ==> usedRequests[id] == before[id]
        decreases ids
      {
        var id :| id in ids;
        ids := ids - {id};
        if before[id] <= now {
          usedRequests := usedRequests - {id};
        }
      }
    }

    /** Either POST handler up to its first await. */
    method Begin(r: Request, now: int) returns (answer: Answer)
      modifies `usedRequests, gate
      ensures answer == Decided(old(usedRequests), old(gate.State()), preparer, r, now)
      ensures usedRequests == UsedAfter(old(usedRequests), preparer, r, now)
      ensures gate.State() == GateAfter(old(usedRequests), old(gate.State()), preparer, r, now)
    {
      if !r.authentic {
        return InvalidSignature;
      }
      if r.kind.Artifact? && !preparer {
        return ArtifactRuntimeUnavailable;
      }
      Purge(now);
      if r.id in usedRequests {
        return RequestReplayed;
      }
      usedRequests := usedRequests[r.id := now + Retention(r.kind)];
      var release := gate.TryAcquire(r.platform, now);
      if release.None? {
        return RateLimited;
      }
      return Running(release.value);
    }

    /** The `finally` of either handler, whatever the extraction did. */
    method End(release: Release, now: int)
      modifies gate
      ensures gate.State() == Freed(old(gate.State()), release, now, gate.interval)
    {
      gate.Call(release, now);
    }
  }

  // ----- every interleaving

  /** An id taken at `at` by a request of this kind. */
  datatype Taken = Taken(id: string, kind: Kind, at: int) {
    function Until(): int {
      at + Retention(kind)
    }
  }

  /** One operation that passed the gate; it is in flight until it has an end. */
  datatype Flight = Flight(platform: Platform, start: int, end: Option<int>)

  datatype Config = Config(interval: nat, preparer: bool)

  datatype System = System(now: int, used: Used, gate: Gate, taken: seq<Taken>, flights: seq<Flight>)

  /** A handler starts, a handler ends, time passes, or someone calls a closure it should no longer call. */
  datatype Event = Tick(elapsed: nat) | Arrive(request: Request) | Finish(flight: nat) | Stray(release: Release)

  const IDLE: System := System(0, map[], Gate(false, 0), [], [])

  predicate InFlight(s: System, k: nat) {
    k < |s.flights| && s.flights[k].end.None?
  }

  function ReleaseOf(f: Flight): Release {
    if f.platform == YouTube then FreesGate else NoEffect
  }

  function Next(c: Config, s: System, e: Event): System {
    match e
    case Tick(elapsed) => s.(now := s.now + elapsed)
    case Stray(release) => s.(gate := Freed(s.gate, release, s.now, c.interval))
    case Finish(k) =>
      if !InFlight(s, k) then s
      else s.(gate := Freed(s.gate, ReleaseOf(s.flights[k]), s.now, c.interval),
              flights := s.flights[k := s.flights[k].(end := Some(s.now))])
    case Arrive(r) =>
      var answer := Decided(s.used, s.gate, c.preparer, r, s.now);
      s.(used := UsedAfter(s.used, c.preparer, r, s.now),
         gate := GateAfter(s.used, s.gate, c.preparer, r, s.now),
         taken := if answer.Running? || answer.RateLimited?
             then s.taken + [Taken(r.id, r.kind, s.now)] else s.taken,
         flights := if answer.Running? then s.flights + [Flight(r.platform, s.now, None)] else s.flights)
  }

  function Exec(c: Config, events: seq<Event>): System {
    if events == [] then IDLE else Next(c, Exec(c, events[..|events| - 1]), events[|events| - 1])
  }

  /** No closure is called out of turn while the gate is held. */
  predicate Orderly(c: Config, events: seq<Event>) {
    events != [] ==>
      && Orderly(c, events[..|events| - 1])
      && (events[|events| - 1] == Stray(FreesGate) ==> !Exec(c, events[..|events| - 1]).gate.active)
  }

  // ----- flights

  /** A YouTube flight starts at least the interval after every earlier one has ended. */
  predicate Spaced(c: Config, flights: seq<Flight>) {
    forall i, j :: 0 <= i < j < |flights| && flights[i].platform == YouTube && flights[j].platform == YouTube ==>
      flights[i].end.Some? && flights[i].end.value + c.interval <= flights[j].start
  }

  predicate GateTells(c: Config, s: System) {
    && (s.gate.active <==> exists k ::
        0 <= k < |s.flights| && s.flights[k].platform == YouTube && s.flights[k].end.None?)
    && forall k :: 0 <= k < |s.flights| && s.flights[k].platform == YouTube && s.flights[k].end.Some? ==>
         s.flights[k].end.value + c.interval <= s.gate.nextAllowedAt
  }

  predicate PastOnly(s: System) {
    forall k :: 0 <= k < |s.flights| ==>
      s.flights[k].start <= s.now && (s.flights[k].end.Some? ==> s.flights[k].start <= s.flights[k].end.value <= s.now)
  }

  predicate FlightInv(c: Config, s: System) {
    Spaced(c, s.flights) && GateTells(c, s) && PastOnly(s)
  }

  lemma ArriveKeepsFlights(c: Config, s: System, r: Request)
    requires FlightInv(c, s)
    ensures FlightInv(c, Next(c, s, Arrive(r)))
  {
    var t := Next(c, s, Arrive(r));
    if Decided(s.used, s.gate, c.preparer, r, s.now).Running? {
      assert forall k :: 0 <= k < |s.flights| ==> t.flights[k] == s.flights[k];
      if s.gate.active {
        var k :| 0 <= k < |s.flights| && s.flights[k].platform == YouTube && s.flights[k].end.None?;
        assert t.flights[k].end.None?;
      }
      if r.platform == YouTube {
        assert t.flights[|s.flights|].end.None?;
      }
    }
  }

  lemma FinishKeepsFlights(c: Config, s: System, k: nat)
    requires FlightInv(c, s)
    ensures FlightInv(c, Next(c, s, Finish(k)))
  {
    var t := Next(c, s, Finish(k));
    if InFlight(s, k) {
      assert forall i :: 0 <= i < |s.flights| && i != k ==> t.flights[i] == s.flights[i];
      if s.flights[k].platform == YouTube {
        assert s.gate.active;
        forall i | 0 <= i < |s.flights| && i != k && s.flights[i].platform == YouTube ensures s.flights[i].end.Some? {
          assert i < k || k < i;
        }
      } else if s.gate.active {
        var i :| 0 <= i < |s.flights| && s.flights[i].platform == YouTube && s.flights[i].end.None?;
        assert t.flights[i].end.None?;
      }
    }
  }

  lemma {:induction false} RunKeepsFlights(c: Config, events: seq<Event>)
    requires Orderly(c, events)
    ensures FlightInv(c, Exec(c, events))
  {
    if events != [] {
      var s := Exec(c, events[..|events| - 1]);
      RunKeepsFlights(c, events[..|events| - 1]);
      match events[|events| - 1] {
        case Arrive(r) => ArriveKeepsFlights(c, s, r);
        case Finish(k) => FinishKeepsFlights(c, s, k);
        case Tick(_) =>
        case Stray(_) =>
      }
    }
  }

  /**
   Over every interleaving of both handlers at most one YouTube operation is in flight, and each starts
   at least the interval after the one before it was released.
   */
  lemma OneAtATimeAndSpaced(c: Config, events: seq<Event>, i: nat, j: nat)
    requires Orderly(c, events)
    requires var flights := Exec(c, events).flights;
             i < j < |flights| && flights[i].platform == YouTube && flights[j].platform == YouTube
    ensures var flights := Exec(c, events).flights;
            && flights[i].end.Some?
            && flights[i].start <= flights[i].end.value
            && flights[i].end.value + c.interval <= flights[j].start
  {
    RunKeepsFlights(c, events);
  }

  /** A closure called again does nothing exactly when no YouTube operation is in flight. */
  lemma StrayHarmlessIffNothingInFlight(c: Config, events: seq<Event>)
    requires Orderly(c, events)
    ensures var s := Exec(c, events);
            Next(c, s, Stray(FreesGate)) == s <==> forall k: nat :: InFlight(s, k) ==> s.flights[k].platform != YouTube
  {
    RunKeepsFlights(c, events);
    var s := Exec(c, events);
    if s.gate.active {
      var k :| 0 <= k < |s.flights| && s.flights[k].platform == YouTube && s.flights[k].end.None?;
      assert InFlight(s, k);
      assert !Next(c, s, Stray(FreesGate)).gate.active;
    }
  }

  /** Called out of turn, it lets a second operation in beside the first. */
  lemma StrayBreaksSingleFlight(c: Config) returns (events: seq<Event>)
    ensures !Orderly(c, events)
    ensures InFlight(Exec(c, events), 0) && InFlight(Exec(c, events), 1)
    ensures Exec(c, events).flights[0].platform == YouTube && Exec(c, events).flights[1].platform == YouTube
  {
    var one := Arrive(Request(Extraction, "a", YouTube, true));
    var two := Arrive(Request(Extraction, "b", YouTube, true));
    var wait := Tick(c.interval);
    var e1, e2, e3 := [one], [one, Stray(FreesGate)], [one, Stray(FreesGate), wait];
    events := [one, Stray(FreesGate), wait, two];
    var s1 := Next(c, IDLE, one);
    var s2 := Next(c, s1, Stray(FreesGate));
    var s3 := Next(c, s2, wait);
    assert e1[..0] == [] && e2[..1] == e1 && e3[..2] == e2 && events[..3] == e3;
    assert Exec(c, e1) == s1 && Exec(c, e2) == s2 && Exec(c, e3) == s3 && Exec(c, events) == Next(c, s3, two);
    assert s1.gate.active;
    assert !Orderly(c, e2) && !Orderly(c, e3);
    assert s3.gate == Gate(false, c.interval) && s3.now == c.interval && s3.flights == [Flight(YouTube, 0, None)];
    assert "b" !in s3.used;
  }

  // ----- request ids

  /** No id is taken again while an earlier taking of it is retained. */
  predicate TakenOnce(taken: seq<Taken>) {
    forall i, j :: 0 <= i < j < |taken| && taken[i].id == taken[j].id ==> taken[i].Until() <= taken[j].at
  }

  predicate RetainedAreMapped(s: System) {
    forall k :: 0 <= k < |s.taken| && s.now < s.taken[k].Until() ==>
      s.taken[k].id in s.used && s.used[s.taken[k].id] == s.taken[k].Until()
  }

  predicate MappedAreRetained(s: System) {
    forall id :: id in s.used && s.now < s.used[id] ==> RetainedAt(s, id)
  }

  predicate MapTells(s: System) {
    RetainedAreMapped(s) && MappedAreRetained(s)
  }

  /** Some taking of the id has not run out. */
  predicate RetainedAt(s: System, id: string) {
    exists k :: 0 <= k < |s.taken| && s.taken[k].id == id && s.now < s.taken[k].Until()
  }

  /** The takings after a request: one more, of an id that nobody retains, or none. */
  lemma ArriveTakes(c: Config, s: System, r: Request)
    requires MapTells(s)
    ensures var t := Next(c, s, Arrive(r));
            || (t.taken == s.taken && (t.used == s.used || t.used == Unexpired(s.used, s.now)))
            || (&& !RetainedAt(s, r.id)
                && t.taken == s.taken + [Taken(r.id, r.kind, s.now)]
                && t.used == Unexpired(s.used, s.now)[r.id := s.now + Retention(r.kind)])
  {
  }

  lemma ArriveKeepsTakenOnce(c: Config, s: System, r: Request)
    requires TakenOnce(s.taken) && MapTells(s)
    ensures TakenOnce(Next(c, s, Arrive(r)).taken)
  {
    ArriveTakes(c, s, r);
    forall i | 0 <= i < |s.taken| && s.taken[i].id == r.id && !RetainedAt(s, r.id) ensures s.taken[i].Until() <= s.now {
    }
  }

  lemma ArriveKeepsMap(c: Config, s: System, r: Request)
    requires MapTells(s)
    ensures MapTells(Next(c, s, Arrive(r)))
  {
    var t := Next(c, s, Arrive(r));
    ArriveTakes(c, s, r);
    if t.taken != s.taken {
      assert forall k :: 0 <= k < |s.taken| ==> t.taken[k] == s.taken[k];
      assert t.taken[|s.taken|].id == r.id;
      forall id | id in t.used && t.now < t.used[id] && id != r.id ensures RetainedAt(t, id) {
        assert RetainedAt(s, id);
      }
      assert RetainedAt(t, r.id);
    } else {
      assert forall id :: RetainedAt(s, id) ==> RetainedAt(t, id);
    }
  }

  lemma {:induction false} RunKeepsIds(c: Config, events: seq<Event>)
    ensures TakenOnce(Exec(c, events).taken) && MapTells(Exec(c, events))
  {
    if events != [] {
      var s := Exec(c, events[..|events| - 1]);
      RunKeepsIds(c, events[..|events| - 1]);
      match events[|events| - 1] {
        case Arrive(r) =>
          ArriveKeepsTakenOnce(c, s, r);
          ArriveKeepsMap(c, s, r);
        case Finish(_) => assert forall id :: RetainedAt(s, id) ==> RetainedAt(Next(c, s, events[|events| - 1]), id);
        case Tick(elapsed) =>
          forall id | id in s.used && s.now + elapsed < s.used[id] ensures RetainedAt(s.(now := s.now + elapsed), id) {
            assert RetainedAt(s, id);
          }
        case Stray(_) => assert forall id :: RetainedAt(s, id) ==> RetainedAt(Next(c, s, events[|events| - 1]), id);
      }
    }
  }

  /** Taken within the last minute, or within the last five minutes by an artifact request. */
  predicate RecentlyTaken(s: System, k: nat, id: string) {
    && k < |s.taken| && s.taken[k].id == id
    && (s.now < s.taken[k].at + 60 * 1000
        || (s.taken[k].kind == Artifact && s.now < s.taken[k].at + 5 * 60 * 1000))
  }

  ghost predicate Retained(s: System, id: string) {
    exists k: nat :: RecentlyTaken(s, k, id)
  }

  lemma RetainedMeans(s: System, id: string)
    ensures RetainedAt(s, id) <==> Retained(s, id)
  {
    if RetainedAt(s, id) {
      var k :| 0 <= k < |s.taken| && s.taken[k].id == id && s.now < s.taken[k].Until();
      assert RecentlyTaken(s, k, id);
    }
  }

  /**
   After any run an authentic request is refused as a replay exactly when its id was taken within the
   last minute by an extraction or within the last five by an artifact request; purging never forgets
   one, and a refusal by the gate takes the id too.
   */
  lemma ReplayedIffRetained(c: Config, events: seq<Event>, r: Request)
    requires r.authentic && (r.kind.Extraction? || c.preparer)
    ensures var s := Exec(c, events);
            Decided(s.used, s.gate, c.preparer, r, s.now) == RequestReplayed <==> Retained(s, r.id)
    ensures TakenOnce(Exec(c, events).taken)
  {
    RunKeepsIds(c, events);
    RetainedMeans(Exec(c, events), r.id);
  }

  // ----- every answer

  /** A YouTube operation is in flight, or one has ended less than the interval ago. */
  predicate Occupies(c: Config, s: System, k: nat) {
    && k < |s.flights| && s.flights[k].platform == YouTube
    && (s.flights[k].end.None? || s.now < s.flights[k].end.value + c.interval)
  }

  ghost predicate Busy(c: Config, s: System) {
    exists k: nat :: Occupies(c, s, k)
  }

  /** The pause of the gate was started by the end of a YouTube operation. */
  predicate PausedBy(c: Config, s: System, k: nat) {
    && k < |s.flights| && s.flights[k].platform == YouTube && s.flights[k].end.Some?
    && s.gate.nextAllowedAt == s.flights[k].end.value + c.interval
  }

  ghost predicate PauseTells(c: Config, s: System) {
    0 <= s.now && (s.gate.nextAllowedAt <= 0 || exists k: nat :: PausedBy(c, s, k))
  }

  lemma NextKeepsPause(c: Config, s: System, e: Event)
    requires FlightInv(c, s) && PauseTells(c, s)
    requires e == Stray(FreesGate) ==> !s.gate.active
    ensures PauseTells(c, Next(c, s, e))
  {
    var t := Next(c, s, e);
    if 0 < t.gate.nextAllowedAt {
      if e.Finish? && InFlight(s, e.flight) && s.flights[e.flight].platform == YouTube {
        assert PausedBy(c, t, e.flight);
      } else {
        var k: nat :| PausedBy(c, s, k);
        assert PausedBy(c, t, k);
      }
    }
  }

  lemma {:induction false} RunKeepsPause(c: Config, events: seq<Event>)
    requires Orderly(c, events)
    ensures PauseTells(c, Exec(c, events))
  {
    if events != [] {
      var before := events[..|events| - 1];
      RunKeepsPause(c, before);
      RunKeepsFlights(c, before);
      NextKeepsPause(c, Exec(c, before), events[|events| - 1]);
    }
  }

  lemma GateIsBusy(c: Config, events: seq<Event>)
    requires Orderly(c, events)
    ensures var s := Exec(c, events);
            s.gate.active || s.now < s.gate.nextAllowedAt <==> Busy(c, s)
  {
    RunKeepsPause(c, events);
    RunKeepsFlights(c, events);
    var s := Exec(c, events);
    if s.gate.active {
      var k :| 0 <= k < |s.flights| && s.flights[k].platform == YouTube && s.flights[k].end.None?;
      assert Occupies(c, s, k);
    } else if s.now < s.gate.nextAllowedAt {
      var k: nat :| PausedBy(c, s, k);
      assert Occupies(c, s, k);
    }
  }

  /** What either handler answers after any orderly run, told from the history alone. */
  lemma AnswerIff(c: Config, events: seq<Event>, r: Request)
    requires Orderly(c, events)
    ensures var s := Exec(c, events);
            var answer := Decided(s.used, s.gate, c.preparer, r, s.now);
            && (answer == InvalidSignature <==> !r.authentic)
            && (answer == ArtifactRuntimeUnavailable <==> r.authentic && r.kind == Artifact && !c.preparer)
            && (answer == RequestReplayed <==>
                  r.authentic && (r.kind == Artifact ==> c.preparer) && Retained(s, r.id))
            && (answer == RateLimited <==>
                  && r.authentic && (r.kind == Artifact ==> c.preparer) && !Retained(s, r.id)
                  && r.platform == YouTube && Busy(c, s))
            && (answer.Running? <==>
                  && r.authentic && (r.kind == Artifact ==> c.preparer) && !Retained(s, r.id)
                  && (r.platform == YouTube ==> !Busy(c, s)))
  {
    RunKeepsIds(c, events);
    RetainedMeans(Exec(c, events), r.id);
    GateIsBusy(c, events);
  }
}
