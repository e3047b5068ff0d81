/**
 The qualification ladder of apps/admin-api/src/qualification-service.ts over the review rows of
 packages/persistence/src/admin-qualification.ts.
 */
module Qualification {
  import opened Wrappers

  /** Stages in ladder order: candidate, fixture-ready, canary-ready, internal, limited, stable. */
  type Stage = n: nat | n <= 5

  const CANDIDATE: Stage := 0
  const CANARY_READY: Stage := 2
  const INTERNAL: Stage := 3
  const LIMITED: Stage := 4

  // ----- what a review looks at

  datatype Day = Day(utcDay: int, sealed: bool, revision: nat, tasks: nat)

  datatype Proposal = Proposal(
    id: nat, revision: nat, open: bool, dayRevisions: seq<nat>, minimumSamples: nat, policy: nat)

  datatype GuardAction = HoldGuard | ReduceGuard | DenyGuard | EligibleForReview

  /** Manifest, canary, evidence, proposal, policy and guard as they stand at one moment. */
  datatype Facts = Facts(
    declared: bool, enabled: bool, region: bool, fixtures: bool, delivery: bool,
    canary: Option<int>, freshnessMs: int, now: int,
    days: seq<Day>, proposal: Option<Proposal>, policyExpiresAt: Option<int>,
    guard: Option<GuardAction>, evidenceExact: bool)

  /** `days.every(...)`: sealed, and one day after the one before. */
  predicate Consecutive(days: seq<Day>) {
    && |days| == 3
    && forall i :: 0 <= i < |days| ==> days[i].sealed && (i == 0 || days[i].utcDay - days[i - 1].utcDay == 1)
  }

  predicate CalibrationComplete(facts: Facts) {
    && Consecutive(facts.days)
    && facts.proposal.Some?
    && facts.proposal.value.dayRevisions
       == seq(|facts.days|, i requires 0 <= i < |facts.days| => facts.days[i].revision)
    && forall d :: d in facts.days ==> d.tasks >= facts.proposal.value.minimumSamples
  }

  /** The eight prerequisites in the order of the source; `canary` is the time of a successful measurement. */
  function Prerequisites(facts: Facts): (list: seq<bool>)
    ensures |list| == 8
  {
    [facts.declared, facts.enabled, facts.region, facts.fixtures, facts.delivery,
     facts.canary.Some? && facts.now - facts.canary.value <= facts.freshnessMs,
     CalibrationComplete(facts),
     facts.policyExpiresAt.Some? && facts.policyExpiresAt.value > facts.now]
  }

  function RequiredCount(target: Stage): nat {
    if target <= 1 then 4 else if target <= 3 then 6 else 8
  }

  /** What an approval of `target` asks of the facts. */
  predicate Earned(facts: Facts, target: Stage) {
    && (forall i :: 0 <= i < RequiredCount(target) ==> Prerequisites(facts)[i])
    && (target >= LIMITED ==> facts.guard == Some(EligibleForReview))
  }

  // ----- the same said of the facts, day by day

  /** Three sealed days in a row, as the proposal cites them, each with enough samples. */
  predicate ThreeDays(facts: Facts) {
    && |facts.days| == 3
    && facts.days[0].sealed && facts.days[1].sealed && facts.days[2].sealed
    && facts.days[1].utcDay == facts.days[0].utcDay + 1 && facts.days[2].utcDay == facts.days[0].utcDay + 2
    && facts.proposal.Some?
    && var cited, least := facts.proposal.value.dayRevisions, facts.proposal.value.minimumSamples;
    && cited == [facts.days[0].revision, facts.days[1].revision, facts.days[2].revision]
    && least <= facts.days[0].tasks && least <= facts.days[1].tasks && least <= facts.days[2].tasks
  }

  /** What each rung asks for: fixtures first, a delivery mode and a canary next, and calibration, policy and guard. */
  predicate Evidence(facts: Facts, target: Stage) {
    && facts.declared && facts.enabled && facts.region && facts.fixtures
    && (target >= 2 ==>
          facts.delivery && facts.canary.Some? && facts.now <= facts.canary.value + facts.freshnessMs)
    && (target >= 4 ==>
          && ThreeDays(facts)
          && facts.policyExpiresAt.Some? && facts.now < facts.policyExpiresAt.value
          && facts.guard == Some(EligibleForReview))
  }

  lemma CompleteIffThreeDays(facts: Facts)
    ensures CalibrationComplete(facts) <==> ThreeDays(facts)
  {
    if CalibrationComplete(facts) {
      var revisions := seq(|facts.days|, i requires 0 <= i < |facts.days| => facts.days[i].revision);
      assert facts.days[0].sealed && facts.days[1].sealed && facts.days[2].sealed;
      assert revisions == [facts.days[0].revision, facts.days[1].revision, facts.days[2].revision];
      assert facts.days[0] in facts.days && facts.days[1] in facts.days && facts.days[2] in facts.days;
    }
  }

  /** The list of prerequisites, cut at the count for a stage, asks for exactly the evidence of that stage. */
  lemma EarnedIffEvidence(facts: Facts, target: Stage)
    ensures Earned(facts, target) <==> Evidence(facts, target)
  {
    CompleteIffThreeDays(facts);
    var list := Prerequisites(facts);
    assert list[0] == facts.declared && list[1] == facts.enabled && list[2] == facts.region
           && list[3] == facts.fixtures && list[4] == facts.delivery;
    if Earned(facts, target) {
      assert list[0] && list[1] && list[2] && list[3];
      assert target >= 2 ==> list[4] && list[5];
      assert target >= 4 ==> list[6] && list[7];
    }
  }

  // ----- the view

  function Blockers(facts: Facts): set<nat> {
    (set i | 0 <= i < 8 && !Prerequisites(facts)[i])
    + (if facts.guard.Some? && facts.guard.value != EligibleForReview then {8} else {})
  }

  predicate PromotionEligible(facts: Facts) {
    Blockers(facts) == {}
  }

  /**
   The view calls a promotion eligible without a guard; the review of the two upper stages does not.
   The two agree about those stages exactly when a guard is there.
   */
  lemma EligibleNeedsGuard(facts: Facts, target: Stage)
    requires target >= LIMITED
    ensures Earned(facts, target) <==> PromotionEligible(facts) && facts.guard.Some?
  {
    if PromotionEligible(facts) && facts.guard.Some? {
      forall i: nat | i < 8 ensures Prerequisites(facts)[i] {
        assert i !in Blockers(facts);
      }
      assert 8 !in Blockers(facts);
    }
  }

  // ----- rows and commands

  datatype Row = Row(stage: Stage, paused: bool, policy: Option<nat>, revision: nat)

  function StageOf(row: Option<Row>): Stage {
    if row.Some? then row.value.stage else CANDIDATE
  }

  function RevisionOf(row: Option<Row>): Option<nat> {
    if row.Some? then Some(row.value.revision) else None
  }

  function NextRevision(row: Option<Row>): nat {
    if row.Some? then row.value.revision + 1 else 1
  }

  datatype Decision = Approve | Hold | Deny

  datatype Command =
    | Review(decision: Decision, target: Stage, expected: Option<nat>)
    | LockPolicy(expected: Option<nat>, proposalId: nat, proposalRevision: nat)

  datatype Refusal =
    | StaleRevision
    | StageNotPreserved
    | NotOneStep
    | PrerequisiteMissing(index: nat)
    | GuardBlocks
    | ProposalNotLockable
    | EvidenceChanged

  predicate ReviewAccepted(row: Option<Row>, facts: Facts, decision: Decision, target: Stage, expected: Option<nat>) {
    && expected == RevisionOf(row)
    && if decision == Approve then target as nat == StageOf(row) as nat + 1 && Earned(facts, target)
       else target == StageOf(row)
  }

  predicate Lockable(facts: Facts, proposalId: nat, proposalRevision: nat) {
    && CalibrationComplete(facts)
    && facts.proposal.value.open
    && facts.proposal.value.id == proposalId
    && facts.proposal.value.revision == proposalRevision
  }

  predicate Accepted(row: Option<Row>, facts: Facts, command: Command) {
    match command
    case Review(decision, target, expected) => ReviewAccepted(row, facts, decision, target, expected)
    case LockPolicy(expected, id, revision) =>
        expected == RevisionOf(row) && Lockable(facts, id, revision) && facts.evidenceExact
  }

  /** The row after an accepted command. A lock without a row inserts one at the internal stage. */
  function After(row: Option<Row>, facts: Facts, command: Command): Row
    requires Accepted(row, facts, command)
  {
    match command
    case Review(decision, target, _) =>
      Row(target, decision != Approve, if row.Some? then row.value.policy else None, NextRevision(row))
    case LockPolicy(_, _, _) =>
      Row(if row.Some? then row.value.stage else INTERNAL,
          if row.Some? then row.value.paused else true,
          Some(facts.proposal.value.policy), NextRevision(row))
  }

  /** The review row of one (provider, platform, region) and the commands of the service. */
  class QualificationRepository {
    var row: Option<Row>

    constructor ()
      ensures row == None
    {
      row := None;
    }

    /** `review`: the refusal is that of the first check that fails. */
    method Review(facts: Facts, decision: Decision, target: Stage,
                  expected: Option<nat>) returns (refused: Option<Refusal>)
      modifies this
      ensures decision == Approve ==>
                (refused.None? <==>
                  && expected == (if old(row).Some? then Some(old(row).value.revision) else None)
                  && target as nat == (if old(row).Some? then old(row).value.stage as nat else 0) + 1
                  && facts.declared && facts.enabled && facts.region && facts.fixtures
                  && (target >= 2 ==>
                        facts.delivery && facts.canary.Some? && facts.now <= facts.canary.value + facts.freshnessMs)
                  && (target >= 4 ==>
                        && ThreeDays(facts)
                        && facts.policyExpiresAt.Some? && facts.now < facts.policyExpiresAt.value
                        && facts.guard == Some(EligibleForReview)))
      ensures decision != Approve ==>
                (refused.None? <==>
                  && expected == (if old(row).Some? then Some(old(row).value.revision) else None)
                  && target == (if old(row).Some? then old(row).value.stage else 0))
      ensures refused.None? ==>
                && row.Some? && row.value.stage == target && (row.value.paused <==> decision != Approve)
                && row.value.policy == (if old(row).Some? then old(row).value.policy else None)
                && row.value.revision == (if old(row).Some? then old(row).value.revision + 1 else 1)
      ensures refused.None? <==> Accepted(old(row), facts, Command.Review(decision, target, expected))
      ensures refused.None? ==> row == Some(After(old(row), facts, Command.Review(decision, target, expected)))
      ensures refused.Some? ==> row == old(row)
      ensures refused == Some(StaleRevision) <==> expected != RevisionOf(old(row))
      ensures refused == Some(StageNotPreserved) <==>
                expected == RevisionOf(old(row)) && decision != Approve && target != StageOf(old(row))
      ensures refused == Some(NotOneStep) <==>
                expected == RevisionOf(old(row)) && decision == Approve && target as nat != StageOf(old(row)) as nat + 1
      ensures refused == Some(GuardBlocks) ==>
                && target >= LIMITED && facts.guard != Some(EligibleForReview)
                && forall i :: 0 <= i < RequiredCount(target) ==> Prerequisites(facts)[i]
      ensures refused.Some? && refused.value.PrerequisiteMissing? ==>
                && refused.value.index < RequiredCount(target) && !Prerequisites(facts)[refused.value.index]
                && forall i :: 0 <= i < refused.value.index ==> Prerequisites(facts)[i]
    {
      EarnedIffEvidence(facts, target);
      var current := StageOf(row);
      if expected != RevisionOf(row) {
        return Some(StaleRevision);
      }
      if decision != Approve && target != current {
        return Some(StageNotPreserved);
      }
      if decision == Approve {
        if target as nat != current as nat + 1 {
          return Some(NotOneStep);
        }
        var prerequisites := Prerequisites(facts);
        for i := 0 to RequiredCount(target)
          invariant forall j :: 0 <= j < i ==> prerequisites[j]
        {
          if !prerequisites[i] {
            return Some(PrerequisiteMissing(i));
          }
        }
        if target >= LIMITED && facts.guard != Some(EligibleForReview) {
          return Some(GuardBlocks);
        }
      }
      row := Some(Row(target, decision != Approve, if row.Some? then row.value.policy else None, NextRevision(row)));
      return None;
    }

    /** `lockPolicy` */
    method Lock(facts: Facts, expected: Option<nat>, proposalId: nat,
                proposalRevision: nat) returns (refused: Option<Refusal>)
      modifies this
      ensures refused.None? <==>
                && expected == (if old(row).Some? then Some(old(row).value.revision) else None)
                && ThreeDays(facts) && facts.proposal.value.open
                && facts.proposal.value.id == proposalId && facts.proposal.value.revision == proposalRevision
                && facts.evidenceExact
      ensures refused.None? ==>
                && row.Some? && row.value.policy == Some(facts.proposal.value.policy)
                && row.value.stage == (if old(row).Some? then old(row).value.stage else 3)
                && (row.value.paused <==> old(row).Some? ==> old(row).value.paused)
                && row.value.revision == (if old(row).Some? then old(row).value.revision + 1 else 1)
      ensures refused.None? <==> Accepted(old(row), facts, LockPolicy(expected, proposalId, proposalRevision))
      ensures refused.None? ==> row == Some(After(old(row), facts, LockPolicy(expected, proposalId, proposalRevision)))
      ensures refused == Some(StaleRevision) <==> expected != RevisionOf(old(row))
      ensures refused == Some(EvidenceChanged) <==>
                expected == RevisionOf(old(row)) && Lockable(facts, proposalId, proposalRevision)
                    && !facts.evidenceExact
      ensures refused.Some? ==> row == old(row)
    {
      CompleteIffThreeDays(facts);
      if expected != RevisionOf(row) {
        return Some(StaleRevision);
      }
      if !Lockable(facts, proposalId, proposalRevision) {
        return Some(ProposalNotLockable);
      }
      if !facts.evidenceExact {
        return Some(EvidenceChanged);
      }
      var policy := Some(facts.proposal.value.policy);
      row := match row
        case Some(previous) => Some(previous.(policy := policy, revision := NextRevision(row)))
        case None => Some(Row(INTERNAL, true, policy, NextRevision(row)));
      return None;
    }
  }

  // ----- histories

  /** One command together with the facts it met. */
  datatype Step = Step(facts: Facts, command: Command)

  predicate Counts(row: Option<Row>, step: Step) {
    Accepted(row, step.facts, step.command)
  }

  /** The row after any sequence of commands; refused ones leave it as it is. */
  function Run(steps: seq<Step>): Option<Row> {
    if steps == [] then None
    else
      var row := Run(steps[..|steps| - 1]);
      var step := steps[|steps| - 1];
      if Counts(row, step) then Some(After(row, step.facts, step.command)) else row
  }

  /** The `i`-th command was an accepted approval of stage `j` with the evidence that rung asks for. */
  predicate ApprovedAt(steps: seq<Step>, i: nat, j: Stage) {
    && i < |steps|
    && steps[i].command.Review? && steps[i].command.decision == Approve && steps[i].command.target == j
    && Counts(Run(steps[..i]), steps[i])
    && Evidence(steps[i].facts, j)
  }

  ghost predicate Approved(steps: seq<Step>, j: Stage) {
    exists i: nat :: ApprovedAt(steps, i, j)
  }

  /** Every rung up to the current stage was approved on its own evidence. */
  ghost predicate LadderClimbed(steps: seq<Step>) {
    forall j: Stage :: 1 <= j <= StageOf(Run(steps)) ==> Approved(steps, j)
  }

  /** The `i`-th command was accepted while no review row existed. */
  predicate FirstAccepted(steps: seq<Step>, i: nat) {
    i < |steps| && Run(steps[..i]).None? && Counts(Run(steps[..i]), steps[i])
  }

  /** A policy was locked before any review was recorded. */
  ghost predicate LockedFirst(steps: seq<Step>) {
    exists i: nat :: FirstAccepted(steps, i) && steps[i].command.LockPolicy?
  }

  lemma PrefixRuns(steps: seq<Step>, n: nat, i: nat)
    requires i < n <= |steps|
    ensures steps[..n][..i] == steps[..i] && steps[..n][i] == steps[i]
  {
  }

  lemma ApprovedLater(steps: seq<Step>, j: Stage)
    requires steps != [] && Approved(steps[..|steps| - 1], j)
    ensures Approved(steps, j)
  {
    var n := |steps| - 1;
    var i: nat :| ApprovedAt(steps[..n], i, j);
    PrefixRuns(steps, n, i);
    assert ApprovedAt(steps, i, j);
  }

  lemma ApprovedBefore(steps: seq<Step>, j: Stage)
    requires steps != [] && Approved(steps, j) && !ApprovedAt(steps, |steps| - 1, j)
    ensures Approved(steps[..|steps| - 1], j)
  {
    var n := |steps| - 1;
    var i: nat :| ApprovedAt(steps, i, j);
    PrefixRuns(steps, n, i);
    assert ApprovedAt(steps[..n], i, j);
  }

  lemma LockedFirstLater(steps: seq<Step>)
    requires steps != [] && LockedFirst(steps[..|steps| - 1])
    ensures LockedFirst(steps)
  {
    var n := |steps| - 1;
    var i: nat :| FirstAccepted(steps[..n], i) && steps[..n][i].command.LockPolicy?;
    PrefixRuns(steps, n, i);
    assert FirstAccepted(steps, i);
  }

  lemma LockedFirstBefore(steps: seq<Step>)
    requires steps != [] && LockedFirst(steps)
    requires !(FirstAccepted(steps, |steps| - 1) && steps[|steps| - 1].command.LockPolicy?)
    ensures LockedFirst(steps[..|steps| - 1])
  {
    var n := |steps| - 1;
    var i: nat :| FirstAccepted(steps, i) && steps[i].command.LockPolicy?;
    PrefixRuns(steps, n, i);
    assert FirstAccepted(steps[..n], i);
  }

  /** A climb by approvals: if no lock came first, each rung below the current stage was approved. */
  lemma {:induction false} ReviewedFirstClimbs(steps: seq<Step>)
    requires !LockedFirst(steps)
    ensures LadderClimbed(steps)
  {
    if steps != [] {
      var n := |steps| - 1;
      if LockedFirst(steps[..n]) {
        LockedFirstLater(steps);
      }
      ReviewedFirstClimbs(steps[..n]);
      assert steps[..n + 1] == steps;
      assert !(FirstAccepted(steps, n) && steps[n].command.LockPolicy?);
      forall j: Stage | 1 <= j <= StageOf(Run(steps)) ensures Approved(steps, j) {
        if j <= StageOf(Run(steps[..n])) {
          ApprovedLater(steps, j);
        } else {
          EarnedIffEvidence(steps[n].facts, j);
          assert ApprovedAt(steps, n, j);
        }
      }
    }
  }

  /** After a lock that came first the row is at least internal and the three lower rungs stay unapproved. */
  lemma {:induction false} LockedFirstSkips(steps: seq<Step>)
    ensures LockedFirst(steps) ==> Run(steps).Some? && StageOf(Run(steps)) >= INTERNAL && !Approved(steps, CANARY_READY)
    ensures Run(steps).None? ==> !Approved(steps, CANARY_READY)
  {
    if steps != [] {
      var n := |steps| - 1;
      LockedFirstSkips(steps[..n]);
      if LockedFirst(steps) && !LockedFirst(steps[..n]) {
        if !(FirstAccepted(steps, n) && steps[n].command.LockPolicy?) {
          LockedFirstBefore(steps);
        }
      }
      if Approved(steps, CANARY_READY) && !ApprovedAt(steps, n, CANARY_READY) {
        ApprovedBefore(steps, CANARY_READY);
      }
    }
  }

  /**
   Over every sequence of commands: each rung up to the current stage was approved, one step at a time
   and on the evidence that rung asks for, exactly when no policy was locked before the first review.
   */
  lemma LadderIffReviewedFirst(steps: seq<Step>)
    ensures LadderClimbed(steps) <==> !LockedFirst(steps)
  {
    if LockedFirst(steps) {
      LockedFirstSkips(steps);
      assert 1 <= CANARY_READY <= StageOf(Run(steps));
    } else {
      ReviewedFirstClimbs(steps);
    }
  }

  /** The two upper stages are always approved ones, whatever came first. */
  lemma {:induction false} UpperStagesApproved(steps: seq<Step>, j: Stage)
    requires LIMITED <= j <= StageOf(Run(steps))
    ensures Approved(steps, j)
  {
    var n := |steps| - 1;
    assert steps != [];
    if j <= StageOf(Run(steps[..n])) {
      UpperStagesApproved(steps[..n], j);
      ApprovedLater(steps, j);
    } else {
      EarnedIffEvidence(steps[n].facts, j);
      assert ApprovedAt(steps, n, j);
    }
  }

  /** Accepted approvals among the commands. */
  function Approvals(steps: seq<Step>): nat {
    if steps == [] then 0
    else
      var last := steps[|steps| - 1];
      Approvals(steps[..|steps| - 1])
      + if Counts(Run(steps[..|steps| - 1]), last) && last.command.Review? && last.command.decision == Approve
        then 1 else 0
  }

  /**
   The stage is the number of approvals accepted so far, hold, deny and later locks adding nothing; only
   a lock that came first puts the count three ahead.
   */
  lemma {:induction false} StageIsApprovalCount(steps: seq<Step>)
    ensures StageOf(Run(steps)) as nat == Approvals(steps) + if LockedFirst(steps) then INTERNAL as nat else 0
    ensures Run(steps).None? ==> !LockedFirst(steps)
  {
    if steps != [] {
      var n := |steps| - 1;
      StageIsApprovalCount(steps[..n]);
      assert steps[..n + 1] == steps;
      if LockedFirst(steps[..n]) {
        LockedFirstLater(steps);
      } else if LockedFirst(steps) && !(FirstAccepted(steps, n) && steps[n].command.LockPolicy?) {
        LockedFirstBefore(steps);
      }
      assert FirstAccepted(steps, n) && steps[n].command.LockPolicy? ==> LockedFirst(steps);
    }
  }

  lemma {:induction false} StageNeverFalls(steps: seq<Step>, n: nat)
    requires n <= |steps|
    ensures StageOf(Run(steps[..n])) <= StageOf(Run(steps))
  {
    if n == |steps| {
      assert steps[..n] == steps;
    } else {
      var last := |steps| - 1;
      StageNeverFalls(steps[..last], n);
      assert steps[..last][..n] == steps[..n];
    }
  }

  // ----- the conditions do arise

  /** Everything in order but for the guard: three sealed days, a matching proposal, a current policy. */
  const READY: Facts := Facts(
    true, true, true, true, true, Some(0), 1_000, 0,
    [Day(1, true, 1, 10), Day(2, true, 1, 10), Day(3, true, 1, 10)],
    Some(Proposal(7, 1, true, [1, 1, 1], 10, 5)), Some(1), None, true)

  lemma ReadyIsCalibrated()
    ensures CalibrationComplete(READY)
  {
    assert READY.days[1].utcDay - READY.days[0].utcDay == 1 && READY.days[2].utcDay - READY.days[1].utcDay == 1;
  }

  /** The view shows a promotion to the limited stage as eligible that the review refuses. */
  lemma EligibleYetRefused()
    ensures PromotionEligible(READY) && !Earned(READY, LIMITED)
  {
    ReadyIsCalibrated();
    forall i: nat | i < 8 ensures Prerequisites(READY)[i] {
    }
  }

  /** A provider nobody has reviewed gets a policy locked, and stands at the internal stage. */
  lemma LockReachesInternal() returns (steps: seq<Step>)
    ensures LockedFirst(steps) && StageOf(Run(steps)) == INTERNAL && Approvals(steps) == 0 && !LadderClimbed(steps)
  {
    ReadyIsCalibrated();
    steps := [Step(READY, LockPolicy(None, 7, 1))];
    assert steps[..0] == [];
    assert FirstAccepted(steps, 0);
    LadderIffReviewedFirst(steps);
  }
}
