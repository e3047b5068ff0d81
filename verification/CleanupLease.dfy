/**
 The cleanup lease of apps/cleanup/src/lease.ts, contended for by any number of runner processes
 of apps/cleanup/src/runner.ts: SET NX PX to take it, compare-and-delete to give it back, and a
 time budget that is tested before every stage.
 */
module CleanupLease {
  import opened Redis

  type Owner = string

  function SetIfAbsent(lease: Key<Owner>, now: int, owner: Owner, ttlMs: int): Key<Owner> {
    if lease.LiveAt(now) then lease else Present(owner, now + ttlMs)
  }

  function DeleteIfOwned(lease: Key<Owner>, now: int, owner: Owner): Key<Owner> {
    if lease.LiveAt(now) && lease.value == owner then Absent else lease
  }

  /** The stored lease key and the two commands the processes send to it. */
  class LeaseStore {
    var lease: Key<Owner>

    constructor ()
      ensures lease == Absent
    {
      lease := Absent;
    }

    method Acquire(now: int, owner: Owner, ttlMs: int) returns (acquired: bool)
      modifies this
      ensures acquired == !old(lease).LiveAt(now)
      ensures lease == SetIfAbsent(old(lease), now, owner, ttlMs)
    {
      if lease.LiveAt(now) {
        return false;
      }
      lease := Present(owner, now + ttlMs);
      return true;
    }

    /** Gives back only what `owner` holds: a newer owner's lease survives a late release. */
    method Release(now: int, owner: Owner)
      modifies this
      ensures lease == DeleteIfOwned(old(lease), now, owner)
      ensures old(lease).Present? && old(lease).value != owner ==> lease == old(lease)
      ensures !(lease.LiveAt(now) && lease.value == owner)
    {
      if lease.ReadAt(now, "") == owner && lease.LiveAt(now) {
        lease := Absent;
      }
    }
  }

  // ----- any number of contending processes

  /** `stageMs` bounds one stage, from the budget test before it to its return. */
  datatype Config = Config(ttlMs: int, budgetMs: int, stageMs: int) {
    predicate Valid() {
      0 < ttlMs && 0 < budgetMs && 0 <= stageMs
    }
  }

  datatype Phase =
    | Idle
    | Started(at: int)
    | Between(owner: Owner, at: int)
    | InStage(owner: Owner, at: int, testedAt: int)
  {
    predicate Holds() {
      Between? || InStage?
    }
  }

  type Process = nat

  datatype System = System(now: int, lease: Key<Owner>, phases: map<Process, Phase>, used: set<Owner>) {
    function At(p: Process): Phase {
      if p in phases then phases[p] else Idle
    }
  }

  datatype Event =
    | Wait(ms: nat)
    | Start(p: Process)
    | Acquire(p: Process, owner: Owner)
    | BeginStage(p: Process)
    | EndStage(p: Process)
    | Release(p: Process)
    | Abandon(p: Process)

  /** Owners are drawn afresh; a stage starts only inside the budget and takes at most `stageMs`. */
  predicate Enabled(cfg: Config, s: System, e: Event) {
    match e
    case Wait(ms) => forall p :: p in s.phases && s.phases[p].InStage? ==>
        s.now + ms <= s.phases[p].testedAt + cfg.stageMs
    case Start(p) => s.At(p).Idle?
    case Acquire(p, owner) => s.At(p).Started? && owner !in s.used
    case BeginStage(p) => s.At(p).Between? && s.now - s.At(p).at < cfg.budgetMs
    case EndStage(p) => s.At(p).InStage?
    case Release(p) => s.At(p).Between?
    case Abandon(p) => s.At(p).Between?
  }

  function Step(cfg: Config, s: System, e: Event): System {
    if !Enabled(cfg, s, e) then s else
    match e
    case Wait(ms) => s.(now := s.now + ms)
    case Start(p) => s.(phases := s.phases[p := Started(s.now)])
    case Acquire(p, owner) =>
      s.(lease := SetIfAbsent(s.lease, s.now, owner, cfg.ttlMs),
         phases := s.phases[p := if s.lease.LiveAt(s.now) then Idle else Between(owner, s.At(p).at)],
         used := s.used + {owner})
    case BeginStage(p) => s.(phases := s.phases[p := InStage(s.At(p).owner, s.At(p).at, s.now)])
    case EndStage(p) => s.(phases := s.phases[p := Between(s.At(p).owner, s.At(p).at)])
    case Release(p) =>
      s.(lease := DeleteIfOwned(s.lease, s.now, s.At(p).owner), phases := s.phases[p := Idle])
    case Abandon(p) => s.(phases := s.phases[p := Idle])
  }

  function Init(start: int): System {
    System(start, Absent, map[], {})
  }

  function Run(cfg: Config, start: int, events: seq<Event>): System {
    if events == [] then Init(start)
    else Step(cfg, Run(cfg, start, events[..|events| - 1]), events[|events| - 1])
  }

  predicate MutualExclusion(s: System) {
    forall p, q :: p in s.phases && q in s.phases && s.phases[p].InStage? && s.phases[q].InStage? ==> p == q
  }

  /** A process that took the lease still has it until `ttlMs` after it read its starting clock. */
  predicate Covered(cfg: Config, s: System, phase: Phase)
    requires phase.Holds()
  {
    || phase.at + cfg.ttlMs <= s.now
    || (s.lease.Present? && s.lease.value == phase.owner && phase.at + cfg.ttlMs <= s.lease.deadline)
  }

  predicate Inv(cfg: Config, s: System) {
    && (s.lease.Present? ==> s.lease.value in s.used)
    && (forall p :: p in s.phases && s.phases[p].Started? ==> s.phases[p].at <= s.now)
    && (forall p :: p in s.phases && s.phases[p].Holds() ==>
        s.phases[p].owner in s.used && Covered(cfg, s, s.phases[p]))
    && (forall p, q ::
          && p in s.phases && s.phases[p].Holds()
          && q in s.phases && s.phases[q].Holds()
          && s.phases[p].owner == s.phases[q].owner
          ==> p == q)
    && (forall p :: p in s.phases && s.phases[p].InStage? ==>
          && s.phases[p].testedAt - s.phases[p].at < cfg.budgetMs
          && s.phases[p].testedAt <= s.now <= s.phases[p].testedAt + cfg.stageMs)
  }

  lemma AcquireKeepsInv(cfg: Config, s: System, p: Process, owner: Owner)
    requires cfg.Valid() && Inv(cfg, s)
    ensures Inv(cfg, Step(cfg, s, Acquire(p, owner)))
  {
  }

  lemma ReleaseKeepsInv(cfg: Config, s: System, p: Process)
    requires cfg.Valid() && Inv(cfg, s)
    ensures Inv(cfg, Step(cfg, s, Release(p)))
  {
  }

  lemma BeginKeepsInv(cfg: Config, s: System, p: Process)
    requires cfg.Valid() && Inv(cfg, s)
    ensures Inv(cfg, Step(cfg, s, BeginStage(p)))
  {
  }

  lemma EndKeepsInv(cfg: Config, s: System, p: Process)
    requires cfg.Valid() && Inv(cfg, s)
    ensures Inv(cfg, Step(cfg, s, EndStage(p)))
  {
  }

  lemma WaitKeepsInv(cfg: Config, s: System, ms: nat)
    requires cfg.Valid() && Inv(cfg, s)
    ensures Inv(cfg, Step(cfg, s, Wait(ms)))
  {
  }

  lemma StepKeepsInv(cfg: Config, s: System, e: Event)
    requires cfg.Valid() && Inv(cfg, s)
    ensures Inv(cfg, Step(cfg, s, e))
  {
    match e {
      case Acquire(p, owner) => AcquireKeepsInv(cfg, s, p, owner);
      case Release(p) => ReleaseKeepsInv(cfg, s, p);
      case BeginStage(p) => BeginKeepsInv(cfg, s, p);
      case EndStage(p) => EndKeepsInv(cfg, s, p);
      case Wait(ms) => WaitKeepsInv(cfg, s, ms);
      case Start(_) =>
      case Abandon(_) =>
    }
  }

  lemma {:induction false} RunKeepsInv(cfg: Config, start: int, events: seq<Event>)
    requires cfg.Valid()
    ensures Inv(cfg, Run(cfg, start, events))
  {
    if events != [] {
      RunKeepsInv(cfg, start, events[..|events| - 1]);
      StepKeepsInv(cfg, Run(cfg, start, events[..|events| - 1]), events[|events| - 1]);
    }
  }

  lemma InvExcludes(cfg: Config, s: System)
    requires cfg.Valid() && Inv(cfg, s) && cfg.budgetMs + cfg.stageMs <= cfg.ttlMs
    ensures MutualExclusion(s)
  {
  }

  lemma RunAppends(cfg: Config, start: int, events: seq<Event>, e: Event)
    ensures Run(cfg, start, events + [e]) == Step(cfg, Run(cfg, start, events), e)
  {
    assert (events + [e])[..|events|] == events;
  }

  /** The lease of one process that began a stage in the last budgeted millisecond. */
  function LoneStage(cfg: Config, owner: Owner): System
    requires cfg.Valid()
  {
    System(cfg.budgetMs - 1, Present(owner, cfg.ttlMs), map[0 := InStage(owner, 0, cfg.budgetMs - 1)], {owner})
  }

  lemma LoneStageReached(cfg: Config, owner: Owner)
    requires cfg.Valid()
    ensures Run(cfg, 0, [] + [Start(0)] + [Acquire(0, owner)] + [Wait(cfg.budgetMs - 1)] + [BeginStage(0)]) ==
        LoneStage(cfg, owner)
  {
    var one := [] + [Start(0)];
    var two := one + [Acquire(0, owner)];
    var three := two + [Wait(cfg.budgetMs - 1)];
    RunAppends(cfg, 0, [], Start(0));
    var started := System(0, Absent, map[0 := Started(0)], {});
    assert Run(cfg, 0, one) == started;
    RunAppends(cfg, 0, one, Acquire(0, owner));
    var acquired := System(0, Present(owner, cfg.ttlMs), map[0 := Between(owner, 0)], {owner});
    assert Run(cfg, 0, two) == acquired;
    RunAppends(cfg, 0, two, Wait(cfg.budgetMs - 1));
    assert Run(cfg, 0, three) == acquired.(now := cfg.budgetMs - 1);
    RunAppends(cfg, 0, three, BeginStage(0));
  }

  /** That lease expires inside the stage, and another process begins one of its own. */
  lemma SecondStageBegins(cfg: Config, first: Owner, second: Owner, events: seq<Event>)
    requires cfg.Valid() && cfg.ttlMs < cfg.budgetMs + cfg.stageMs && first != second
    requires Run(cfg, 0, events) == LoneStage(cfg, first)
    ensures var late := if cfg.ttlMs <= cfg.budgetMs - 1 then 0 else cfg.ttlMs - (cfg.budgetMs - 1);
            !MutualExclusion(Run(cfg, 0, events + [Wait(late)] + [Start(1)] + [Acquire(1, second)] + [BeginStage(1)]))
  {
    var late := if cfg.ttlMs <= cfg.budgetMs - 1 then 0 else cfg.ttlMs - (cfg.budgetMs - 1);
    var one := events + [Wait(late)];
    var two := one + [Start(1)];
    var three := two + [Acquire(1, second)];
    RunAppends(cfg, 0, events, Wait(late));
    RunAppends(cfg, 0, one, Start(1));
    RunAppends(cfg, 0, two, Acquire(1, second));
    RunAppends(cfg, 0, three, BeginStage(1));
    var s := Run(cfg, 0, three + [BeginStage(1)]);
    assert s.phases[0].InStage? && s.phases[1].InStage?;
  }

  /** A lease that a budget and one stage can outlast lets two processes into a stage together. */
  lemma ShortLeaseOverlaps(cfg: Config) returns (events: seq<Event>)
    requires cfg.Valid() && cfg.ttlMs < cfg.budgetMs + cfg.stageMs
    ensures !MutualExclusion(Run(cfg, 0, events))
  {
    var late := if cfg.ttlMs <= cfg.budgetMs - 1 then 0 else cfg.ttlMs - (cfg.budgetMs - 1);
    events := [] + [Start(0)] + [Acquire(0, "a")] + [Wait(cfg.budgetMs - 1)] + [BeginStage(0)];
    LoneStageReached(cfg, "a");
    SecondStageBegins(cfg, "a", "b", events);
    events := events + [Wait(late)] + [Start(1)] + [Acquire(1, "b")] + [BeginStage(1)];
  }

  /**
   No two processes are ever inside a stage together, in any run, exactly when the lease outlives
   the time budget plus one stage.
   */
  lemma ExclusionIffLeaseOutlivesBudget(cfg: Config)
    requires cfg.Valid()
    ensures (forall start, events :: MutualExclusion(Run(cfg, start, events)))
            <==> cfg.budgetMs + cfg.stageMs <= cfg.ttlMs
  {
    if cfg.budgetMs + cfg.stageMs <= cfg.ttlMs {
      forall start, events
        ensures MutualExclusion(Run(cfg, start, events))
      {
        RunKeepsInv(cfg, start, events);
        InvExcludes(cfg, Run(cfg, start, events));
      }
    } else {
      var events := ShortLeaseOverlaps(cfg);
    }
  }

  /** What the loader accepts, as far as the lease is concerned. */
  datatype Loaded = Loaded(statementTimeoutMs: int, timeBudgetMs: int, leaseTtlMs: int) {
    predicate Accepted() {
      && 100 <= statementTimeoutMs <= 60_000 && 500 <= timeBudgetMs <= 300_000 && 2_000 <= leaseTtlMs <= 600_000
      && timeBudgetMs + 5_000 <= leaseTtlMs
    }

    /** Stages that take as long as their statement may. */
    function Slowest(): Config {
      Config(leaseTtlMs, timeBudgetMs, statementTimeoutMs)
    }
  }

  /**
   The loader's margin of five seconds covers a statement time-out exactly up to five seconds: for a longer
   one it accepts a configuration in which two processes can be inside a stage together.
   */
  lemma MarginCoversTimeoutIff(statementTimeoutMs: int)
    requires 100 <= statementTimeoutMs <= 60_000
    ensures (forall loaded: Loaded, start, events ::
               loaded.Accepted() && loaded.statementTimeoutMs == statementTimeoutMs ==>
                 MutualExclusion(Run(loaded.Slowest(), start, events)))
            <==> statementTimeoutMs <= 5_000
  {
    if statementTimeoutMs <= 5_000 {
      forall loaded: Loaded, start, events | loaded.Accepted() && loaded.statementTimeoutMs == statementTimeoutMs
        ensures MutualExclusion(Run(loaded.Slowest(), start, events))
      {
        RunKeepsInv(loaded.Slowest(), start, events);
        InvExcludes(loaded.Slowest(), Run(loaded.Slowest(), start, events));
      }
    } else {
      var loaded := Loaded(statementTimeoutMs, 5_000, 10_000);
      var events := ShortLeaseOverlaps(loaded.Slowest());
      assert loaded.Accepted() && !MutualExclusion(Run(loaded.Slowest(), 0, events));
    }
  }

  /** A release that comes after the lease went to somebody else leaves that lease alone. */
  lemma LateReleaseHarmless(cfg: Config, start: int, events: seq<Event>, p: Process, q: Process)
    requires cfg.Valid() && p != q
    requires var s := Run(cfg, start, events);
             s.At(p).Between? && s.At(q).Holds() && s.lease.Present? && s.lease.value == s.At(q).owner
    ensures Run(cfg, start, events + [Release(p)]).lease == Run(cfg, start, events).lease
  {
    RunKeepsInv(cfg, start, events);
    RunAppends(cfg, start, events, Release(p));
  }
}
