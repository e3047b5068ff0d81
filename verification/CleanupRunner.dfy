/**
 One cleanup run, apps/cleanup/src/runner.ts: passes over fourteen stages under a batch budget and
 a time budget, with the lease given back on every path.

 The database, the clock and the lease service are classes whose methods may answer anything their
 contracts allow; their ghost logs let the contract of `RunCleanup` speak about what was called.
 */
module CleanupRunner {
  import opened CleanupRows
  import opened Wrappers

  datatype Configuration = Configuration(timeBudgetMs: int, maxBatches: nat, batchSize: nat) {
    predicate Valid() {
      500 <= timeBudgetMs && 1 <= maxBatches && 1 <= batchSize
    }
  }

  /** A stage query that was sent: its answer, the clock reading that allowed it, the rows before and after it. */
  datatype Call = Call(stage: nat, answer: Option<nat>, testedAt: int, before: Tables, after: Tables) {
    predicate Valid() {
      stage < STAGES && |before| == |after| == STAGES && forall i :: 0 <= i < STAGES ==> |after[i]| <= |before[i]|
    }

    /** Rows of stage `i` that the query took away. */
    function Lost(i: nat): nat
      requires Valid() && i < STAGES
    {
      |before[i]| - |after[i]|
    }

    /** Those among them that its answer does not tell. */
    function Unseen(i: nat): nat
      requires Valid() && i < STAGES
    {
      if i == stage && answer.Some? then 0 else Lost(i)
    }

    /** What the answer adds to the count of stage `i`. */
    function Told(i: nat): nat {
      if i == stage && answer.Some? then answer.value else 0
    }
  }

  /** An answer is the number of rows removed; a failed query may have removed rows all the same. */
  predicate CallOk(c: Call, batchSize: nat) {
    && c.Valid() && c.Lost(c.stage) <= batchSize
    && (c.answer.Some? ==> c.answer.value == c.Lost(c.stage))
    && forall i :: 0 <= i < STAGES && i != c.stage && c.Lost(i) > 0 ==> Descends(i, c.stage) && c.Lost(c.stage) > 0
  }

  /** A query that found no row locked took a whole batch; a failed one may not have committed. */
  predicate TakesBatch(c: Call, batchSize: nat) {
    && c.Valid()
    && (c.after == Drained(c.before, c.stage, batchSize) || (c.answer.None? && c.after == c.before))
  }

  /** A clock that never runs backwards. */
  class Clock {
    var time: int

    method Now() returns (reading: int)
      modifies this
      ensures reading == time && old(time) <= time
    {
      reading :| time <= reading;
      time := reading;
    }
  }

  /** The eligible rows, and how many others have added to each stage and taken away from it so far. */
  datatype Books = Books(rows: Tables, arrived: seq<nat>, departed: seq<nat>) {
    predicate Valid() {
      TablesOk(rows) && |arrived| == |departed| == STAGES
    }
  }

  /** The eligible rows. Unless `quiet`, others make rows eligible and take eligible ones away. */
  class Repository {
    const quiet: bool
    /** No eligible row is locked by somebody else, so a query takes the first rows, a whole batch of them. */
    const drains: bool
    const batchSize: nat
    var rows: Tables
    ghost var arrived: seq<nat>
    ghost var departed: seq<nat>
    ghost var calls: seq<Call>

    ghost predicate Valid()
      reads this
    {
      Now().Valid()
    }

    ghost function Now(): Books
      reads this
    {
      Books(rows, arrived, departed)
    }

    /** What others do between two queries; a query is one transaction, so they never act inside it. */
    method OthersAct()
      requires Valid()
      modifies `rows, `arrived, `departed
      ensures Valid()
      ensures forall i :: 0 <= i < STAGES ==>
                && old(arrived)[i] <= arrived[i] && old(departed)[i] <= departed[i]
                && |rows[i]| + departed[i] - old(departed)[i] == |old(rows)[i]| + arrived[i] - old(arrived)[i]
      ensures quiet ==> rows == old(rows) && arrived == old(arrived) && departed == old(departed)
    {
      var next: Tables, more: seq<nat>, fewer: seq<nat> := *, *, *;
      if !quiet && TablesOk(next) && |more| == |fewer| == STAGES
         && forall i :: 0 <= i < STAGES ==> |next[i]| + fewer[i] == |rows[i]| + more[i] {
        ghost var sofar, gone := arrived, departed;
        rows := next;
        arrived := seq(STAGES, i requires 0 <= i < STAGES => sofar[i] + more[i]);
        departed := seq(STAGES, i requires 0 <= i < STAGES => gone[i] + fewer[i]);
      }
    }

    /**
     One stage query: the rows it removed, with all that hangs on them, and what it reports. A query that
     fails may have removed rows all the same.
     */
    method ProcessStage(stage: nat, ghost testedAt: int)
      returns (answer: Option<nat>, ghost call: Call, ghost gone: set<Row>)
      requires Valid() && stage < STAGES
      modifies `rows, `calls
      ensures Valid() && calls == old(calls) + [call]
      ensures call == Call(stage, answer, testedAt, old(rows), rows) && CallOk(call, batchSize)
      ensures gone <= RowSet(old(rows)[stage]) && rows == AfterQuery(old(rows), stage, gone)
      ensures drains ==> TakesBatch(call, batchSize)
    {
      var chosen: set<Row> := *;
      if drains || !(chosen <= RowSet(rows[stage])) || |Without(rows[stage], chosen)| + batchSize < |rows[stage]| {
        chosen := RowSet(rows[stage][..Least(batchSize, |rows[stage]|)]);
      }
      var how: nat := *;
      if how == 0 {
        chosen := {};  // the transaction did not commit
      }
      QueryRemoves(rows, stage, chosen, batchSize, drains);
      var before := rows;
      rows := AfterQuery(rows, stage, chosen);
      answer := if how < 2 then None else Some(|before[stage]| - |rows[stage]|);
      gone := chosen;
      call := Call(stage, answer, testedAt, before, rows);
      calls := calls + [call];
    }

    /** The read-only count of a dry run. */
    method CountEligible() returns (counts: Option<seq<nat>>)
      requires Valid()
      ensures counts.Some? ==> counts.value == Sizes(rows)
    {
      var fails: bool := *;
      counts := if fails then None else Some(Sizes(rows));
    }
  }

  predicate Shrunk(before: Tables, after: Tables) {
    |before| == |after| == STAGES && forall i :: 0 <= i < STAGES ==> |after[i]| <= |before[i]|
  }

  lemma QueryRemoves(t: Tables, stage: nat, gone: set<Row>, batchSize: nat, drains: bool)
    requires TablesOk(t) && stage < STAGES && gone <= RowSet(t[stage])
    requires gone == RowSet(t[stage][..Least(batchSize, |t[stage]|)])
          || (!drains && |t[stage]| <= |Without(t[stage], gone)| + batchSize) || gone == {}
    ensures var after := AfterQuery(t, stage, gone);
            && TablesOk(after) && Shrunk(t, after) && |t[stage]| - |after[stage]| <= batchSize
            && (gone == {} ==> after == t)
            && forall i :: 0 <= i < STAGES && i != stage && |after[i]| != |t[i]| ==>
                 Descends(i, stage) && |after[stage]| < |t[stage]|
  {
    var after := AfterQuery(t, stage, gone);
    QueryKeepsOk(t, stage, gone);
    DrainedTakesBatch(t, stage, batchSize);
    forall i | 0 <= i < STAGES
      ensures |after[i]| <= |t[i]| && (gone == {} ==> after[i] == t[i])
      ensures i != stage && |after[i]| != |t[i]| ==> Descends(i, stage) && gone != {}
    {
      var lost := GoneFrom(t, stage, gone, i);
      WithoutMeaning(t[i], lost);
      if lost == {} {
        WithoutFirst(t[i], lost, 0);
      } else if i != stage {
        GoneDescends(t, stage, gone, i);
      }
    }
    if gone != {} {
      var row :| row in gone;
      WithoutMeaning(t[stage], gone);
      assert row in t[stage] && row !in after[stage];
    }
  }

  datatype AcquireAnswer = Acquired | Unavailable | AcquireThrew

  /** The lease service and how often a held lease was given back. */
  class LeaseSource {
    ghost var acquired: nat
    ghost var releaseCalls: nat

    method Acquire() returns (answer: AcquireAnswer)
      modifies this
      ensures acquired == old(acquired) + (if answer == Acquired then 1 else 0)
      ensures releaseCalls == old(releaseCalls)
    {
      var pick: int := *;
      answer := if pick == 0 then Acquired else if pick == 1 then Unavailable else AcquireThrew;
      acquired := acquired + (if answer == Acquired then 1 else 0);
    }

    method Release() returns (ok: bool)
      modifies this
      ensures releaseCalls == old(releaseCalls) + 1 && acquired == old(acquired)
    {
      ok := *;
      releaseCalls := releaseCalls + 1;
    }
  }

  datatype Failure = AtLease | AtCount | AtStage(stage: nat)

  datatype Reason = Complete | LeaseUnavailable | TimeBudget | BatchBudget | Error

  datatype Metrics = Metrics(
    leaseAcquired: bool,
    startedAt: int,
    durationMs: int,
    batches: nat,
    rows: seq<nat>,
    errors: nat,
    failedStage: Option<Failure>,
    stoppedReason: Reason)

  function NoRows(): (rows: seq<nat>)
    ensures |rows| == STAGES && forall i :: 0 <= i < STAGES ==> rows[i] == 0
  {
    seq(STAGES, i => 0)
  }

  // ----- counting rows

  /** Rows of stage `i` that the metrics count. */
  function Counted(calls: seq<Call>, i: nat): nat {
    if calls == [] then 0 else Counted(calls[..|calls| - 1], i) + calls[|calls| - 1].Told(i)
  }

  predicate AllValid(calls: seq<Call>) {
    forall c :: c in calls ==> c.Valid()
  }

  /** Rows that were removed and not counted: those that fell with parents or went in a query that failed. */
  function Uncounted(calls: seq<Call>, i: nat): nat
    requires i < STAGES && AllValid(calls)
  {
    if calls == [] then 0 else Uncounted(calls[..|calls| - 1], i) + calls[|calls| - 1].Unseen(i)
  }

  /** All calls are ones a repository with this batch size makes. */
  predicate AllOk(calls: seq<Call>, batchSize: nat) {
    forall c :: c in calls ==> CallOk(c, batchSize)
  }

  lemma {:induction false} CountsJoin(a: seq<Call>, b: seq<Call>, batchSize: nat, i: nat)
    requires i < STAGES && AllOk(a, batchSize) && AllOk(b, batchSize)
    ensures AllOk(a + b, batchSize)
    ensures Counted(a + b, i) == Counted(a, i) + Counted(b, i)
    ensures Uncounted(a + b, i) == Uncounted(a, i) + Uncounted(b, i)
  {
    if b == [] {
      assert a + b == a;
    } else {
      CountsJoin(a, b[..|b| - 1], batchSize, i);
      assert (a + b)[..|a + b| - 1] == a + b[..|b| - 1];
    }
  }

  /** Nothing of stage `i` went uncounted exactly when no call of the log kept any of it back. */
  lemma {:induction false} NoneUnseenIff(calls: seq<Call>, i: nat)
    requires i < STAGES && AllValid(calls)
    ensures Uncounted(calls, i) == 0 <==> forall c :: c in calls ==> c.Unseen(i) == 0
  {
    if calls != [] {
      NoneUnseenIff(calls[..|calls| - 1], i);
      assert calls == calls[..|calls| - 1] + [calls[|calls| - 1]];
    }
  }

  /** `calls` are stages 0, 1, 2, ... in order, and none of them removed a row. */
  ghost predicate Idle(calls: seq<Call>) {
    forall j :: 0 <= j < |calls| ==> calls[j].stage == j && calls[j].answer == Some(0)
  }

  /** The last fourteen calls are one whole pass in stage order, and none of them removed a row. */
  ghost predicate EndsWithIdlePass(calls: seq<Call>) {
    STAGES <= |calls| && Idle(calls[|calls| - STAGES..])
  }

  /** What every stage query of a run satisfies: all before the last were answered, all in time. */
  ghost predicate GoodCalls(calls: seq<Call>, started: int, budgetMs: int) {
    forall k :: 0 <= k < |calls| ==>
      && calls[k].stage < STAGES
      && started <= calls[k].testedAt < started + budgetMs
      && (k < |calls| - 1 ==> calls[k].answer.Some?)
  }

  /** `done` stages were answered, and the one in `failed`, if any, threw after them. */
  ghost predicate Answered(calls: seq<Call>, cfg: Configuration, started: int, done: nat, failed: Option<nat>) {
    && GoodCalls(calls, started, cfg.timeBudgetMs)
    && |calls| == done + (if failed.Some? then 1 else 0)
    && (failed.Some? ==> calls[done].stage == failed.value && calls[done].answer.None?)
    && (failed.None? && calls != [] ==> calls[|calls| - 1].answer.Some?)
  }

  lemma AnsweredJoin(a: seq<Call>, b: seq<Call>, cfg: Configuration, started: int, m: nat, n: nat, failed: Option<nat>)
    requires Answered(a, cfg, started, m, None) && Answered(b, cfg, started, n, failed)
    ensures Answered(a + b, cfg, started, m + n, failed)
  {
  }

  /** Every row of stage `i` that was or became eligible is counted, uncounted, still there, or taken by others. */
  ghost predicate BalancedAt(calls: seq<Call>, from: Books, to: Books, i: nat)
    requires from.Valid() && to.Valid() && i < STAGES && AllValid(calls)
  {
    && from.arrived[i] <= to.arrived[i] && from.departed[i] <= to.departed[i]
    && Counted(calls, i) + Uncounted(calls, i) + |to.rows[i]| + (to.departed[i] - from.departed[i])
       == |from.rows[i]| + (to.arrived[i] - from.arrived[i])
  }

  ghost predicate Balanced(repo: Repository, calls: seq<Call>, from: Books)
    reads repo
    requires repo.Valid() && from.Valid()
  {
    && AllOk(calls, repo.batchSize)
    && (forall i :: 0 <= i < STAGES ==> BalancedAt(calls, from, repo.Now(), i))
    && (repo.quiet ==> repo.arrived == from.arrived && repo.departed == from.departed)
  }

  /** The metrics report exactly what was counted, on top of `rows0`. */
  ghost predicate Reported(rows0: seq<nat>, rows: seq<nat>, calls: seq<Call>) {
    |rows| == |rows0| == STAGES && forall i :: 0 <= i < STAGES ==> rows[i] == rows0[i] + Counted(calls, i)
  }

  lemma ReportOne(rows0: seq<nat>, rows: seq<nat>, calls: seq<Call>, call: Call)
    requires Reported(rows0, rows, calls) && call.stage < STAGES && call.answer.Some?
    ensures Reported(rows0, rows[call.stage := rows[call.stage] + call.answer.value], calls + [call])
  {
    assert (calls + [call])[..|calls|] == calls;
  }

  lemma ReportNone(rows0: seq<nat>, rows: seq<nat>, calls: seq<Call>, call: Call)
    requires Reported(rows0, rows, calls) && call.answer.None?
    ensures Reported(rows0, rows, calls + [call])
  {
    assert (calls + [call])[..|calls|] == calls;
  }

  lemma ReportJoin(rows0: seq<nat>, rows1: seq<nat>, rows2: seq<nat>, a: seq<Call>, b: seq<Call>, batchSize: nat)
    requires Reported(rows0, rows1, a) && Reported(rows1, rows2, b) && AllOk(a, batchSize) && AllOk(b, batchSize)
    ensures Reported(rows0, rows2, a + b)
  {
    forall i | 0 <= i < STAGES ensures Counted(a + b, i) == Counted(a, i) + Counted(b, i) {
      CountsJoin(a, b, batchSize, i);
    }
  }

  lemma OneMoreCall(calls: seq<Call>, c: Call, batchSize: nat, i: nat)
    requires i < STAGES && AllOk(calls, batchSize) && CallOk(c, batchSize)
    ensures AllOk(calls + [c], batchSize)
    ensures Counted(calls + [c], i) == Counted(calls, i) + c.Told(i)
    ensures Uncounted(calls + [c], i) == Uncounted(calls, i) + c.Unseen(i)
    ensures c.Told(i) + c.Unseen(i) == c.Lost(i)
  {
    assert (calls + [c])[..|calls|] == calls;
  }

  // ----- runs that nobody disturbs

  /** The stages take turns. */
  predicate Turned(calls: seq<Call>) {
    forall k :: 0 <= k < |calls| ==> TurnAt(calls, k)
  }

  predicate TurnAt(calls: seq<Call>, k: nat)
    requires k < |calls|
  {
    calls[k].stage == if k == 0 then 0 else Following(calls[k - 1].stage)
  }

  function Following(stage: nat): nat {
    if stage == STAGES - 1 then 0 else stage + 1
  }

  /** The next call is one of the first stage. */
  predicate WholePasses(calls: seq<Call>) {
    calls != [] ==> calls[|calls| - 1].stage == STAGES - 1
  }

  /** Each call found the rows that the one before it had left. */
  predicate Chained(from: Tables, calls: seq<Call>, to: Tables) {
    && (calls == [] ==> to == from)
    && (calls != [] ==> calls[0].before == from && calls[|calls| - 1].after == to)
    && forall k :: 0 < k < |calls| ==> calls[k].before == calls[k - 1].after
  }

  predicate AllTakeBatches(calls: seq<Call>, batchSize: nat) {
    forall c :: c in calls ==> TakesBatch(c, batchSize)
  }

  /** When nobody else acts the calls are a chain, and without locked rows each takes a whole batch. */
  ghost predicate AsPromised(repo: Repository, from: Tables, calls: seq<Call>)
    reads repo
  {
    && (repo.quiet ==> Chained(from, calls, repo.rows))
    && (repo.drains ==> AllTakeBatches(calls, repo.batchSize))
  }

  lemma ChainGrows(from: Tables, calls: seq<Call>, now: Tables, c: Call)
    requires Chained(from, calls, now) && c.before == now
    ensures Chained(from, calls + [c], c.after)
  {
  }

  lemma ChainJoins(from: Tables, a: seq<Call>, middle: Tables, b: seq<Call>, to: Tables)
    requires Chained(from, a, middle) && Chained(middle, b, to)
    ensures Chained(from, a + b, to)
  {
    var all := a + b;
    forall k | 0 < k < |all| ensures all[k].before == all[k - 1].after {
      if k > |a| {
        assert b[k - |a|].before == b[k - |a| - 1].after;
      }
    }
  }

  lemma TurnsJoin(a: seq<Call>, b: seq<Call>)
    requires Turned(a) && WholePasses(a) && forall k :: 0 <= k < |b| ==> b[k].stage == k
    requires |b| <= STAGES
    ensures Turned(a + b) && (|b| == STAGES ==> WholePasses(a + b))
  {
    var all := a + b;
    forall k | 0 <= k < |all| ensures TurnAt(all, k) {
      if k < |a| {
        assert TurnAt(a, k);
      } else if k > |a| {
        assert all[k] == b[k - |a|] && all[k - 1] == b[k - |a| - 1];
      }
    }
  }

  lemma PromiseJoins(repo: Repository, from: Tables, a: seq<Call>, middle: Tables, b: seq<Call>)
    requires repo.quiet ==> Chained(from, a, middle)
    requires repo.drains ==> AllTakeBatches(a, repo.batchSize)
    requires AsPromised(repo, middle, b)
    ensures AsPromised(repo, from, a + b)
  {
    if repo.quiet {
      ChainJoins(from, a, middle, b, repo.rows);
    }
  }

  /** All answered but perhaps the last, which then is one of stage `failed`. */
  predicate AnsweredBut(calls: seq<Call>, failed: Option<nat>) {
    && (forall k :: 0 <= k < |calls| - 1 ==> calls[k].answer.Some?)
    && (calls != [] && calls[|calls| - 1].answer.None? ==> failed == Some(calls[|calls| - 1].stage))
  }

  /** A run of queries without locked rows that nobody disturbs. */
  predicate Undisturbed(from: Tables, calls: seq<Call>, batchSize: nat, to: Tables) {
    && Turned(calls) && Chained(from, calls, to) && AllOk(calls, batchSize) && AllTakeBatches(calls, batchSize)
    && AnsweredBut(calls, if calls == [] then None else Some(calls[|calls| - 1].stage))
  }

  function StagesOf(calls: seq<Call>): seq<nat> {
    seq(|calls|, k requires 0 <= k < |calls| => calls[k].stage)
  }

  lemma FrontUndisturbed(from: Tables, calls: seq<Call>, batchSize: nat, to: Tables)
    requires calls != [] && Undisturbed(from, calls, batchSize, to)
    ensures Undisturbed(from, calls[..|calls| - 1], batchSize, calls[|calls| - 1].before)
    ensures StagesOf(calls)[..|calls| - 1] == StagesOf(calls[..|calls| - 1])
    ensures forall c :: c in calls[..|calls| - 1] ==> c.answer.Some?
    ensures calls[|calls| - 1] in calls
  {
    var front, last := calls[..|calls| - 1], calls[|calls| - 1];
    assert forall c :: c in front ==> c in calls;
    assert Chained(from, front, last.before);
    assert forall k :: 0 <= k < |front| ==> front[k].answer.Some?;
    forall k | 0 <= k < |front| ensures TurnAt(front, k) {
      assert TurnAt(calls, k);
    }
  }

  lemma TurnedInTurn(calls: seq<Call>)
    requires calls != [] && Turned(calls) && InTurn(StagesOf(calls)[..|calls| - 1])
    ensures InTurn(StagesOf(calls))
  {
    var n := |calls| - 1;
    assert n > 0 ==> StagesOf(calls)[..n][n - 1] == calls[n - 1].stage;
    assert TurnAt(calls, n);
  }

  lemma LastIsPlayed(from: Tables, stages: seq<nat>, c: Call, batchSize: nat)
    requires |from| == STAGES && Stages(stages) && TakesBatch(c, batchSize)
    requires c.before == Played(from, batchSize, stages)
    ensures Stages(stages + [c.stage])
    ensures c.answer.Some? ==> c.after == Played(from, batchSize, stages + [c.stage])
  {
    PlayedNext(from, batchSize, stages, c.stage);
  }

  /** Such a run is told by the rows at its start. */
  lemma {:induction false} AnsweredIsPlayed(from: Tables, calls: seq<Call>, batchSize: nat, to: Tables)
    requires |from| == STAGES && Undisturbed(from, calls, batchSize, to)
    requires forall c :: c in calls ==> c.answer.Some?
    ensures InTurn(StagesOf(calls)) && to == Played(from, batchSize, StagesOf(calls))
  {
    if calls != [] {
      var front, c := calls[..|calls| - 1], calls[|calls| - 1];
      FrontUndisturbed(from, calls, batchSize, to);
      AnsweredIsPlayed(from, front, batchSize, c.before);
      TurnedInTurn(calls);
      LastIsPlayed(from, StagesOf(front), c, batchSize);
      assert StagesOf(calls) == StagesOf(front) + [c.stage];
    }
  }

  lemma RunIsPlayed(from: Tables, calls: seq<Call>, batchSize: nat, to: Tables)
    requires |from| == STAGES && Undisturbed(from, calls, batchSize, to)
    ensures InTurn(StagesOf(calls))
    ensures calls != [] ==> calls[|calls| - 1].before == Played(from, batchSize, StagesOf(calls)[..|calls| - 1])
  {
    if calls != [] {
      FrontUndisturbed(from, calls, batchSize, to);
      AnsweredIsPlayed(from, calls[..|calls| - 1], batchSize, calls[|calls| - 1].before);
      TurnedInTurn(calls);
    }
  }

  /** Every row these calls removed was counted. */
  predicate AllCounted(calls: seq<Call>) {
    AllValid(calls) && forall i :: 0 <= i < STAGES ==> Uncounted(calls, i) == 0
  }

  /** The last of these stages takes no row along. */
  predicate LastTakesNone(t: Tables, batchSize: nat, stages: seq<nat>)
    requires |t| == STAGES && Stages(stages)
  {
    forall i :: 0 <= i < STAGES ==> !Falls(t, batchSize, stages, i)
  }

  /** The answer tells all the rows that the query removed. */
  predicate TellsAll(c: Call) {
    c.Valid() && forall i :: 0 <= i < STAGES ==> c.Unseen(i) == 0
  }

  lemma LastCounted(from: Tables, calls: seq<Call>, batchSize: nat, c: Call)
    requires |from| == STAGES && calls != [] && calls[|calls| - 1] == c && c.answer.Some? && c.Valid()
    requires Stages(StagesOf(calls)) && StagesOf(calls)[|calls| - 1] == c.stage
    requires c.before == Played(from, batchSize, StagesOf(calls)[..|calls| - 1])
    requires c.after == Played(from, batchSize, StagesOf(calls))
    ensures TellsAll(c) <==> LastTakesNone(from, batchSize, StagesOf(calls))
  {
    assert forall i :: 0 <= i < STAGES ==> (c.Unseen(i) == 0 <==> !Falls(from, batchSize, StagesOf(calls), i));
  }

  lemma AllCountedStep(calls: seq<Call>)
    requires calls != [] && AllValid(calls)
    ensures AllCounted(calls) <==> AllCounted(calls[..|calls| - 1]) && TellsAll(calls[|calls| - 1])
  {
    var front, c := calls[..|calls| - 1], calls[|calls| - 1];
    assert c in calls && forall d :: d in front ==> d in calls;
    assert forall i :: 0 <= i < STAGES ==> Uncounted(calls, i) == Uncounted(front, i) + c.Unseen(i);
  }

  /** Of answered calls nothing went uncounted exactly when nothing fell. */
  lemma {:induction false} CountedIffNothingFalls(from: Tables, calls: seq<Call>, batchSize: nat, to: Tables)
    requires |from| == STAGES && Undisturbed(from, calls, batchSize, to)
    requires forall c :: c in calls ==> c.answer.Some?
    ensures InTurn(StagesOf(calls)) && (AllCounted(calls) <==> NothingFalls(from, batchSize, StagesOf(calls)))
  {
    AnsweredIsPlayed(from, calls, batchSize, to);
    if calls != [] {
      var c := calls[|calls| - 1];
      FrontUndisturbed(from, calls, batchSize, to);
      RunIsPlayed(from, calls, batchSize, to);
      CountedIffNothingFalls(from, calls[..|calls| - 1], batchSize, c.before);
      LastCounted(from, calls, batchSize, c);
      AllCountedStep(calls);
    }
  }

  /**
   A run that nobody disturbs and that has emptied all stages counted every row it removed, if and only if
   at its start no row came in a later batch than the row it hangs on.
   */
  lemma EveryRowCountedIff(from: Tables, calls: seq<Call>, batchSize: nat, to: Tables)
    requires TablesOk(from) && 1 <= batchSize && Undisturbed(from, calls, batchSize, to)
    requires (forall c :: c in calls ==> c.answer.Some?) && AllEmpty(to)
    ensures AllCounted(calls) <==> InStep(from, batchSize)
  {
    AnsweredIsPlayed(from, calls, batchSize, to);
    CountedIffNothingFalls(from, calls, batchSize, to);
    NothingFallsIffInStep(from, batchSize, StagesOf(calls));
  }

  /** And wherever such a run stops, it has counted every row except those its last, failed query removed. */
  lemma InStepCounted(from: Tables, calls: seq<Call>, batchSize: nat, to: Tables, i: nat)
    requires TablesOk(from) && 1 <= batchSize && Undisturbed(from, calls, batchSize, to) && InStep(from, batchSize)
    requires i < STAGES && !(calls != [] && calls[|calls| - 1].answer.None? && calls[|calls| - 1].stage == i)
    ensures Uncounted(calls, i) == 0
  {
    if calls != [] {
      var front, last := calls[..|calls| - 1], calls[|calls| - 1];
      FrontUndisturbed(from, calls, batchSize, to);
      RunIsPlayed(from, calls, batchSize, to);
      CountedIffNothingFalls(from, front, batchSize, last.before);
      InStepNothingFalls(from, batchSize, StagesOf(calls));
      assert !Falls(from, batchSize, StagesOf(calls), i);
    }
  }

  /** From rows in step every removal was counted, but for what a failed query removed itself. */
  ghost predicate CountedInStep(from: Tables, calls: seq<Call>, batchSize: nat, failed: Option<nat>)
    requires |from| == STAGES && 1 <= batchSize
  {
    InStep(from, batchSize) ==>
      AllValid(calls) && forall i :: 0 <= i < STAGES && failed != Some(i) ==> Uncounted(calls, i) == 0
  }

  lemma RunCountedInStep(from: Tables, calls: seq<Call>, batchSize: nat, to: Tables, failed: Option<nat>)
    requires TablesOk(from) && 1 <= batchSize && Undisturbed(from, calls, batchSize, to) && AnsweredBut(calls, failed)
    ensures CountedInStep(from, calls, batchSize, failed)
  {
    if InStep(from, batchSize) {
      forall i | 0 <= i < STAGES && failed != Some(i) ensures Uncounted(calls, i) == 0 {
        InStepCounted(from, calls, batchSize, to, i);
      }
    }
  }

  function AnsweredCall(now: Tables, stage: nat, batchSize: nat): (c: Call)
    requires TablesOk(now) && stage < STAGES
    ensures CallOk(c, batchSize) && TakesBatch(c, batchSize) && TablesOk(c.after)
  {
    var after := Drained(now, stage, batchSize);
    QueryRemoves(now, stage, RowSet(now[stage][..Least(batchSize, |now[stage]|)]), batchSize, true);
    Call(stage, Some(|now[stage]| - |after[stage]|), 0, now, after)
  }

  lemma ThreeCalls(c0: Call, c1: Call, c2: Call, batchSize: nat, i: nat)
    requires i < STAGES && CallOk(c0, batchSize) && CallOk(c1, batchSize) && CallOk(c2, batchSize)
    ensures AllOk([c0, c1, c2], batchSize)
    ensures Counted([c0, c1, c2], i) == c0.Told(i) + c1.Told(i) + c2.Told(i)
    ensures Uncounted([c0, c1, c2], i) == c0.Unseen(i) + c1.Unseen(i) + c2.Unseen(i)
  {
    OneMoreCall([], c0, batchSize, i);
    OneMoreCall([c0], c1, batchSize, i);
    OneMoreCall([c0, c1], c2, batchSize, i);
    assert [] + [c0] == [c0] && [c0] + [c1] == [c0, c1] && [c0, c1] + [c2] == [c0, c1, c2];
  }

  /**
   One ticket more than a batch, all of one expired candidate: three queries in, a batch of them is counted
   and the last one has gone with its candidate.
   */
  lemma TicketGoesUncounted(batchSize: nat) returns (c0: Call, c1: Call, c2: Call)
    requires 1 <= batchSize
    ensures TablesOk(TicketsOfOne(batchSize)) && !InStep(TicketsOfOne(batchSize), batchSize)
    ensures Undisturbed(TicketsOfOne(batchSize), [c0, c1, c2], batchSize, c2.after)
    ensures c0.answer == Some(batchSize) && c1.answer == Some(0) && c2.answer == Some(1)
    ensures Counted([c0, c1, c2], DELIVERY_TICKETS) == batchSize && Uncounted([c0, c1, c2], DELIVERY_TICKETS) == 1
  {
    TicketIsLeft(batchSize);
    LastTicketIsLate(batchSize);
    c0 := AnsweredCall(TicketsOfOne(batchSize), 0, batchSize);
    c1 := AnsweredCall(c0.after, 1, batchSize);
    c2 := AnsweredCall(c1.after, 2, batchSize);
    LastTicketGoes(c1.after, batchSize);
    ThreeCalls(c0, c1, c2, batchSize, DELIVERY_TICKETS);
    ThreeUndisturbed(TicketsOfOne(batchSize), c0, c1, c2, batchSize);
  }

  lemma ThreeUndisturbed(from: Tables, c0: Call, c1: Call, c2: Call, batchSize: nat)
    requires c0.before == from && c1.before == c0.after && c2.before == c1.after
    requires c0.stage == 0 && c1.stage == 1 && c2.stage == 2
    requires CallOk(c0, batchSize) && CallOk(c1, batchSize) && CallOk(c2, batchSize)
    requires TakesBatch(c0, batchSize) && TakesBatch(c1, batchSize) && TakesBatch(c2, batchSize)
    requires c0.answer.Some? && c1.answer.Some? && c2.answer.Some?
    ensures Undisturbed(from, [c0, c1, c2], batchSize, c2.after)
  {
  }

  /** One iteration of the stage loop after its budget tests: others act, then the query is sent. */
  method Query(repo: Repository, stage: nat, testedAt: int, ghost calls: seq<Call>, ghost from: Books)
    returns (answer: Option<nat>, ghost call: Call)
    requires repo.Valid() && stage < STAGES && from.Valid()
    requires Balanced(repo, calls, from) && AsPromised(repo, from.rows, calls)
    modifies repo
    ensures repo.Valid() && repo.calls == old(repo.calls) + [call]
    ensures call.stage == stage && call.answer == answer && call.testedAt == testedAt && CallOk(call, repo.batchSize)
    ensures Balanced(repo, calls + [call], from) && AsPromised(repo, from.rows, calls + [call])
    ensures repo.quiet && repo.drains && answer == Some(0) && 1 <= repo.batchSize ==>
              repo.rows[stage] == [] && forall i :: 0 <= i < STAGES ==> |repo.rows[i]| == |old(repo.rows)[i]|
  {
    ghost var before := repo.Now();
    repo.OthersAct();
    ghost var gone;
    ghost var now := repo.rows;
    answer, call, gone := repo.ProcessStage(stage, testedAt);
    forall i | 0 <= i < STAGES
      ensures BalancedAt(calls + [call], from, repo.Now(), i)
    {
      assert BalancedAt(calls, from, before, i);
      OneMoreCall(calls, call, repo.batchSize, i);
    }
    if repo.quiet {
      ChainGrows(from.rows, calls, now, call);
    }
    if repo.drains {
      DrainedTakesBatch(now, stage, repo.batchSize);
    }
    if answer == Some(0) {
      forall i | 0 <= i < STAGES ensures |repo.rows[i]| == |now[i]| {
        assert call.Lost(i) == 0;
      }
    }
  }

  /** One more query, sent in time and either answered or failed. */
  lemma AnsweredOne(calls: seq<Call>, call: Call, cfg: Configuration, started: int, done: nat)
    requires Answered(calls, cfg, started, done, None)
    requires call.stage < STAGES && started <= call.testedAt < started + cfg.timeBudgetMs
    ensures call.answer.Some? ==> Answered(calls + [call], cfg, started, done + 1, None)
    ensures call.answer.None? ==> Answered(calls + [call], cfg, started, done, Some(call.stage))
  {
  }

  /** What a pass without changes has shown about the stages so far. */
  ghost predicate Quiescent(repo: Repository, calls: seq<Call>, stages: nat)
    reads repo
    requires repo.Valid() && stages <= STAGES
  {
    Idle(calls) && (repo.quiet && repo.drains ==> forall i :: 0 <= i < stages ==> repo.rows[i] == [])
  }

  /** One iteration of the stage loop after its budget tests. */
  method RunStage(repo: Repository, cfg: Configuration, started: int, stage: nat, reading: int, rows: seq<nat>,
                  ghost rows0: seq<nat>, ghost calls: seq<Call>, ghost from: Books)
    returns (answer: Option<nat>, counted: seq<nat>, ghost call: Call)
    requires repo.Valid() && cfg.Valid() && repo.batchSize == cfg.batchSize && from.Valid() && stage < STAGES
    requires started <= reading < started + cfg.timeBudgetMs
    requires Balanced(repo, calls, from) && Reported(rows0, rows, calls) && Answered(calls, cfg, started, stage, None)
    requires AsPromised(repo, from.rows, calls)
    modifies repo
    ensures repo.Valid() && repo.calls == old(repo.calls) + [call] && call.stage == stage
    ensures Balanced(repo, calls + [call], from) && Reported(rows0, counted, calls + [call])
    ensures AsPromised(repo, from.rows, calls + [call])
    ensures answer.Some? ==> Answered(calls + [call], cfg, started, stage + 1, None)
    ensures answer.None? ==> Answered(calls + [call], cfg, started, stage, Some(stage))
    ensures answer == Some(0) && |calls| == stage && old(Quiescent(repo, calls, stage)) ==>
              Quiescent(repo, calls + [call], stage + 1)
  {
    answer, call := Query(repo, stage, reading, calls, from);
    AnsweredOne(calls, call, cfg, started, stage);
    if answer.None? {
      ReportNone(rows0, rows, calls, call);
      return answer, rows, call;
    }
    ReportOne(rows0, rows, calls, call);
    counted := rows[stage := rows[stage] + answer.value];
  }

  /** One pass over the stages, from `batches0` batches on; `stop` is why it did not reach the end. */
  method Pass(repo: Repository, clock: Clock, cfg: Configuration, started: int, batches0: nat, rows0: seq<nat>)
    returns (batches: nat, rows: seq<nat>, changedInPass: nat, stop: Option<Reason>, failed: Option<nat>,
        ghost calls: seq<Call>)
    requires repo.Valid() && cfg.Valid() && repo.batchSize == cfg.batchSize
    requires started <= clock.time && batches0 <= cfg.maxBatches && |rows0| == STAGES
    modifies repo, clock
    ensures batches0 <= batches <= cfg.maxBatches
    ensures repo.Valid() && old(clock.time) <= clock.time && repo.calls == old(repo.calls) + calls
    ensures Answered(calls, cfg, started, batches - batches0, failed)
    ensures Reported(rows0, rows, calls)
    ensures Balanced(repo, calls, old(repo.Now()))
    ensures stop.None? ==> |calls| == STAGES && (changedInPass == 0 ==> Idle(calls))
    ensures AsPromised(repo, old(repo.rows), calls) && |calls| <= STAGES
    ensures forall k :: 0 <= k < |calls| ==> calls[k].stage == k
    ensures stop.None? && changedInPass == 0 && repo.quiet && repo.drains ==>
              AllEmpty(repo.rows)
    ensures failed.Some? <==> stop == Some(Error)
    ensures stop.Some? ==> stop.value in {TimeBudget, BatchBudget, Error}
    ensures stop == Some(BatchBudget) ==> batches == cfg.maxBatches
    ensures stop == Some(TimeBudget) ==> started + cfg.timeBudgetMs <= clock.time
  {
    batches, rows, changedInPass, stop, failed, calls := batches0, rows0, 0, None, None, [];
    for stage := 0 to STAGES
      invariant batches == batches0 + stage <= cfg.maxBatches
      invariant repo.Valid() && old(clock.time) <= clock.time && repo.calls == old(repo.calls) + calls
      invariant Answered(calls, cfg, started, stage, None)
      invariant Reported(rows0, rows, calls)
      invariant Balanced(repo, calls, old(repo.Now()))
      invariant |calls| == stage && (changedInPass == 0 ==> Quiescent(repo, calls, stage))
      invariant AsPromised(repo, old(repo.rows), calls)
      invariant forall k :: 0 <= k < |calls| ==> calls[k].stage == k
    {
      var reading := clock.Now();
      if reading - started >= cfg.timeBudgetMs {
        stop := Some(TimeBudget);
        return;
      }
      if batches >= cfg.maxBatches {
        stop := Some(BatchBudget);
        return;
      }
      var answer;
      ghost var call;
      answer, rows, call := RunStage(repo, cfg, started, stage, reading, rows, rows0, calls, old(repo.Now()));
      calls := calls + [call];
      if answer.None? {
        stop, failed := Some(Error), Some(stage);
        return;
      }
      batches := batches + 1;
      changedInPass := changedInPass + answer.value;
    }
  }

  lemma BalanceJoins(repo: Repository, a: seq<Call>, b: seq<Call>, from: Books, middle: Books)
    requires repo.Valid() && from.Valid() && middle.Valid() && AllOk(a, repo.batchSize)
    requires repo.quiet ==> middle.arrived == from.arrived && middle.departed == from.departed
    requires forall i :: 0 <= i < STAGES ==> BalancedAt(a, from, middle, i)
    requires Balanced(repo, b, middle)
    ensures Balanced(repo, a + b, from)
  {
    CountsJoin(a, b, repo.batchSize, 0);
    forall i | 0 <= i < STAGES
      ensures BalancedAt(a + b, from, repo.Now(), i)
    {
      CountsJoin(a, b, repo.batchSize, i);
      assert BalancedAt(a, from, middle, i) && BalancedAt(b, middle, repo.Now(), i);
    }
  }

  lemma IdlePassEnds(before: seq<Call>, calls: seq<Call>)
    requires |calls| == STAGES && Idle(calls)
    ensures EndsWithIdlePass(before + calls)
  {
    assert calls == (before + calls)[|before + calls| - STAGES..];
  }

  /** One more pass after the calls of the passes before. */
  method NextPass(repo: Repository, clock: Clock, cfg: Configuration, started: int, batches0: nat, rows0: seq<nat>,
                  ghost before: seq<Call>, ghost from: Books)
    returns (batches: nat, rows: seq<nat>, changedInPass: nat, stop: Option<Reason>, failed: Option<nat>,
             ghost calls: seq<Call>)
    requires repo.Valid() && cfg.Valid() && repo.batchSize == cfg.batchSize && from.Valid()
    requires started <= clock.time && batches0 <= cfg.maxBatches
    requires Answered(before, cfg, started, batches0, None) && Reported(NoRows(), rows0, before)
    requires Balanced(repo, before, from)
    requires AsPromised(repo, from.rows, before) && Turned(before) && WholePasses(before)
    modifies repo, clock
    ensures batches0 <= batches <= cfg.maxBatches
    ensures repo.Valid() && old(clock.time) <= clock.time && repo.calls == old(repo.calls) + calls
    ensures Answered(before + calls, cfg, started, batches, failed) && Reported(NoRows(), rows, before + calls)
    ensures Balanced(repo, before + calls, from)
    ensures stop.None? ==> batches0 < batches && (changedInPass == 0 ==> EndsWithIdlePass(before + calls))
    ensures AsPromised(repo, from.rows, before + calls) && Turned(before + calls)
    ensures stop.None? ==> WholePasses(before + calls)
    ensures stop.None? && changedInPass == 0 && repo.quiet && repo.drains ==>
              AllEmpty(repo.rows)
    ensures failed.Some? <==> stop == Some(Error)
    ensures stop.Some? ==> stop.value in {TimeBudget, BatchBudget, Error}
    ensures stop == Some(BatchBudget) ==> batches == cfg.maxBatches
    ensures stop == Some(TimeBudget) ==> started + cfg.timeBudgetMs <= clock.time
  {
    ghost var middle := repo.Now();
    batches, rows, changedInPass, stop, failed, calls := Pass(repo, clock, cfg, started, batches0, rows0);
    AnsweredJoin(before, calls, cfg, started, batches0, batches - batches0, failed);
    BalanceJoins(repo, before, calls, from, middle);
    ReportJoin(NoRows(), rows0, rows, before, calls, repo.batchSize);
    PromiseJoins(repo, from.rows, before, middle.rows, calls);
    TurnsJoin(before, calls);
    if stop.None? && changedInPass == 0 {
      IdlePassEnds(before, calls);
    }
  }

  /** What the calls of a sweep have counted, if nobody disturbed them. */
  lemma SweepCounts(repo: Repository, from: Tables, calls: seq<Call>, cfg: Configuration, started: int, batches: nat,
                    failed: Option<nat>)
    requires TablesOk(from) && cfg.Valid() && repo.batchSize == cfg.batchSize
    requires Turned(calls) && AsPromised(repo, from, calls) && AllOk(calls, cfg.batchSize)
    requires Answered(calls, cfg, started, batches, failed)
    ensures repo.quiet && repo.drains ==> CountedInStep(from, calls, cfg.batchSize, failed)
    ensures repo.quiet && repo.drains && failed.None? && AllEmpty(repo.rows) ==>
              (AllCounted(calls) <==> InStep(from, cfg.batchSize))
  {
    if repo.quiet && repo.drains {
      RunCountedInStep(from, calls, cfg.batchSize, repo.rows, failed);
      if failed.None? && AllEmpty(repo.rows) {
        EveryRowCountedIff(from, calls, cfg.batchSize, repo.rows);
      }
    }
  }

  /** The pass loop. `failed` is the stage whose query threw. */
  method Sweep(repo: Repository, clock: Clock, cfg: Configuration, started: int)
    returns (batches: nat, rows: seq<nat>, reason: Reason, failed: Option<nat>, ghost calls: seq<Call>)
    requires repo.Valid() && cfg.Valid() && repo.batchSize == cfg.batchSize && started <= clock.time
    modifies repo, clock
    ensures batches <= cfg.maxBatches
    ensures repo.Valid() && old(clock.time) <= clock.time && repo.calls == old(repo.calls) + calls
    ensures Answered(calls, cfg, started, batches, failed)
    ensures Reported(NoRows(), rows, calls)
    ensures Balanced(repo, calls, old(repo.Now()))
    ensures failed.Some? <==> reason == Error
    ensures reason in {Complete, TimeBudget, BatchBudget, Error}
    ensures reason == Complete ==> EndsWithIdlePass(calls)
    ensures reason == BatchBudget ==> batches == cfg.maxBatches
    ensures reason == TimeBudget ==> started + cfg.timeBudgetMs <= clock.time
    ensures reason == Complete && repo.quiet && repo.drains ==> AllEmpty(repo.rows)
    ensures Turned(calls) && AsPromised(repo, old(repo.rows), calls)
    ensures repo.quiet && repo.drains ==> CountedInStep(old(repo.rows), calls, cfg.batchSize, failed)
    ensures reason == Complete && repo.quiet && repo.drains ==>
              (AllCounted(calls) <==> InStep(old(repo.rows), cfg.batchSize))
  {
    batches, rows, failed, calls := 0, NoRows(), None, [];
    while batches < cfg.maxBatches
      invariant batches <= cfg.maxBatches
      invariant repo.Valid() && old(clock.time) <= clock.time && repo.calls == old(repo.calls) + calls
      invariant failed.None? && Answered(calls, cfg, started, batches, None)
      invariant Reported(NoRows(), rows, calls)
      invariant Balanced(repo, calls, old(repo.Now()))
      invariant AsPromised(repo, old(repo.rows), calls) && Turned(calls) && WholePasses(calls)
      decreases cfg.maxBatches - batches
    {
      var changedInPass, stop;
      ghost var more;
      batches, rows, changedInPass, stop, failed, more :=
        NextPass(repo, clock, cfg, started, batches, rows, calls, old(repo.Now()));
      calls := calls + more;
      SweepCounts(repo, old(repo.rows), calls, cfg, started, batches, failed);
      if stop.Some? {
        reason := stop.value;
        return;
      }
      if changedInPass == 0 {
        reason := Complete;
        return;
      }
    }
    reason := BatchBudget;
    SweepCounts(repo, old(repo.rows), calls, cfg, started, batches, failed);
  }

  /** `runCleanup`: take the lease, count or sweep, and give the lease back whatever happened. */
  method RunCleanup(repo: Repository, clock: Clock, leases: LeaseSource, cfg: Configuration, dryRun: bool)
    returns (m: Metrics, ghost calls: seq<Call>, ghost failed: Option<nat>)
    requires repo.Valid() && cfg.Valid() && repo.batchSize == cfg.batchSize
    modifies repo, clock, leases
    ensures repo.Valid() && |m.rows| == STAGES && repo.calls == old(repo.calls) + calls
    // a lease that was acquired is given back exactly once, and no other lease is
    ensures leases.acquired == old(leases.acquired) + (if m.leaseAcquired then 1 else 0)
    ensures leases.releaseCalls - old(leases.releaseCalls) == leases.acquired - old(leases.acquired)
    // without the lease, and in a dry run, nothing is removed
    ensures !m.leaseAcquired || dryRun ==> calls == [] && m.batches == 0 && repo.rows == old(repo.rows)
    ensures !m.leaseAcquired ==> m.rows == NoRows() && m.stoppedReason in {LeaseUnavailable, Error}
    ensures m.leaseAcquired && dryRun && m.stoppedReason == Complete ==> m.rows == Sizes(repo.rows)
    // a sweep reports what was counted, accounts for every row and stays within both budgets
    ensures !dryRun ==> Reported(NoRows(), m.rows, calls)
    ensures Balanced(repo, calls, old(repo.Now()))
    ensures m.batches <= cfg.maxBatches
    ensures Answered(calls, cfg, m.startedAt, m.batches, failed)
    ensures failed.Some? ==> m.stoppedReason == Error && m.failedStage in {Some(AtStage(failed.value)), Some(AtLease)}
    // why it stopped
    ensures m.stoppedReason == Error <==> m.errors > 0
    ensures m.errors > 0 <==> m.failedStage.Some?
    ensures m.stoppedReason == LeaseUnavailable ==> !m.leaseAcquired
    ensures m.stoppedReason == BatchBudget ==> m.batches == cfg.maxBatches
    ensures m.stoppedReason == TimeBudget ==> cfg.timeBudgetMs <= m.durationMs
    ensures !dryRun && m.stoppedReason == Complete ==> m.leaseAcquired && EndsWithIdlePass(calls)
    ensures !dryRun && m.stoppedReason == Complete && repo.quiet && repo.drains ==> AllEmpty(repo.rows)
    // the stages take turns; undisturbed, it counts every row it removes exactly when the rows are in step
    ensures Turned(calls)
    ensures repo.quiet && repo.drains ==> CountedInStep(old(repo.rows), calls, cfg.batchSize, failed)
    ensures !dryRun && m.stoppedReason == Complete && repo.quiet && repo.drains ==>
              (AllCounted(calls) <==> InStep(old(repo.rows), cfg.batchSize))
    ensures 0 <= m.durationMs
  {
    calls, failed := [], None;
    var started := clock.Now();
    m := Metrics(false, started, 0, 0, NoRows(), 0, None, Complete);
    var answer := leases.Acquire();
    if answer == Unavailable {
      m := m.(stoppedReason := LeaseUnavailable);
    } else if answer == AcquireThrew {
      m := m.(errors := 1, failedStage := Some(AtLease), stoppedReason := Error);
    } else if dryRun {
      m := m.(leaseAcquired := true);
      var counts := repo.CountEligible();
      if counts.Some? {
        m := m.(rows := counts.value);
      } else {
        m := m.(errors := 1, failedStage := Some(AtCount), stoppedReason := Error);
      }
    } else {
      var batches, rows, reason, stage;
      batches, rows, reason, stage, calls := Sweep(repo, clock, cfg, started);
      failed := stage;
      m := Metrics(true, started, 0, batches, rows, if stage.Some? then 1 else 0,
                   if stage.Some? then Some(AtStage(stage.value)) else None, reason);
    }
    // finally
    if answer == Acquired {
      var ok := leases.Release();
      if !ok {
        m := m.(errors := m.errors + 1, failedStage := Some(AtLease), stoppedReason := Error);
      }
    }
    var finished := clock.Now();
    m := m.(durationMs := if finished - started < 0 then 0 else finished - started);
  }

  /** A configuration with fewer than fourteen batches can never report a finished cleanup. */
  lemma CompleteNeedsFullPass(calls: seq<Call>, cfg: Configuration, started: int, batches: nat, failed: Option<nat>)
    requires Answered(calls, cfg, started, batches, failed) && EndsWithIdlePass(calls) && batches <= cfg.maxBatches
    ensures STAGES <= cfg.maxBatches && failed.None?
  {
    assert calls[|calls| - STAGES..][STAGES - 1] == calls[|calls| - 1];
  }

  /** A call took rows of stage `i` along with those it deleted. */
  predicate TookAlong(c: Call, i: nat) {
    c.Valid() && c.Lost(c.stage) > 0 && Descends(i, c.stage)
  }

  /**
   In a run, rows of a stage go uncounted only when a deleting stage took them along or when the query of
   that very stage removed them and then failed, which ends the run; all other stages are counted exactly.
   */
  lemma UncountedOnlyAlongOrFailed(calls: seq<Call>, cfg: Configuration, started: int, batches: nat,
                                   failed: Option<nat>, i: nat)
    requires i < STAGES && AllOk(calls, cfg.batchSize) && Answered(calls, cfg, started, batches, failed)
    requires Uncounted(calls, i) > 0
    ensures (exists c :: c in calls && TookAlong(c, i)) || (failed == Some(i) && calls[|calls| - 1].Lost(i) > 0)
  {
    NoneUnseenIff(calls, i);
    var c :| c in calls && c.Unseen(i) > 0;
    if c.stage != i {
      assert TookAlong(c, i);
    } else {
      var k :| 0 <= k < |calls| && calls[k] == c;
      assert k == |calls| - 1;
    }
  }
}
