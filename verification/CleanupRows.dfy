/**
 The rows a cleanup run works through (packages/persistence/src/cleanup.ts), with the foreign keys that
 delete rows along with their parents (infra/migrations/0003_delivery_candidates.sql,
 infra/migrations/0006_task_admission.sql).

 When nobody else acts, the queries of a run decide everything: which rows go with their parents before
 their own stage has come to them can be told from the tables before the run.
 */
module CleanupRows {
  import opened Wrappers

  /** Number of cleanup stages. */
  const STAGES: nat := 14

  const DELIVERY_TICKETS: nat := 0
  const DELIVERY_CANDIDATES: nat := 2
  const IDEMPOTENCY_RECORDS: nat := 10
  const ACTIVE_SOURCES: nat := 11
  const EXPIRED_TASKS: nat := 12
  const HARD_DELETED_TASKS: nat := 13

  /** A row and the row it hangs on. A task that is still to be marked expired hangs on itself. */
  datatype Row = Row(id: nat, parent: nat)

  /** The eligible rows of each stage, in the order in which its query takes them. */
  type Tables = seq<seq<Row>>

  /** The stage whose deletions take rows of stage `i` along. */
  function ParentStage(i: nat): (p: Option<nat>)
    ensures p.Some? ==> i < p.value < STAGES
  {
    if i == DELIVERY_TICKETS then Some(DELIVERY_CANDIDATES)
    else if i in {DELIVERY_CANDIDATES, IDEMPOTENCY_RECORDS, ACTIVE_SOURCES, EXPIRED_TASKS} then Some(HARD_DELETED_TASKS)
    else None
  }

  /** Rows of stage `i` can go with rows of `stage`, directly or through rows between them. */
  predicate Descends(i: nat, stage: nat)
    decreases STAGES - i
  {
    match ParentStage(i)
    case None => false
    case Some(p) => p == stage || Descends(p, stage)
  }

  predicate Distinct(rows: seq<Row>) {
    forall j, k :: 0 <= j < k < |rows| ==> rows[j].id != rows[k].id
  }

  predicate TablesOk(t: Tables) {
    |t| == STAGES && forall i :: 0 <= i < STAGES ==> Distinct(t[i])
  }

  function Sizes(t: Tables): (sizes: seq<nat>)
    requires |t| == STAGES
    ensures |sizes| == STAGES && forall i :: 0 <= i < STAGES ==> sizes[i] == |t[i]|
  {
    seq(STAGES, i requires 0 <= i < STAGES => |t[i]|)
  }

  // ----- one query

  function Without(rows: seq<Row>, gone: set<Row>): seq<Row> {
    if rows == [] then []
    else (if rows[0] in gone then [] else [rows[0]]) + Without(rows[1..], gone)
  }

  function RowSet(rows: seq<Row>): set<Row> {
    set row | row in rows
  }

  /** The rows that hang on one of `parents`. */
  function Fallen(rows: seq<Row>, parents: set<Row>): set<Row> {
    set row | row in rows && exists parent :: parent in parents && row.parent == parent.id
  }

  /** What stage `i` loses when the query of `stage` removes the rows `gone`. */
  function GoneFrom(t: Tables, stage: nat, gone: set<Row>, i: nat): set<Row>
    requires |t| == STAGES && i < STAGES
    decreases STAGES - i
  {
    if i == stage then gone
    else
      match ParentStage(i)
      case None => {}
      case Some(p) => Fallen(t[i], GoneFrom(t, stage, gone, p))
  }

  function AfterQuery(t: Tables, stage: nat, gone: set<Row>): (after: Tables)
    requires |t| == STAGES
    ensures |after| == STAGES
  {
    seq(STAGES, i requires 0 <= i < STAGES => Without(t[i], GoneFrom(t, stage, gone, i)))
  }

  lemma {:induction false} WithoutMeaning(rows: seq<Row>, gone: set<Row>)
    ensures |Without(rows, gone)| <= |rows|
    ensures forall row :: row in Without(rows, gone) <==> row in rows && row !in gone
    ensures |Without(rows, gone)| == |rows| <==> Without(rows, gone) == rows
    ensures Distinct(rows) ==> Distinct(Without(rows, gone))
  {
    if rows != [] {
      var rest := Without(rows[1..], gone);
      WithoutMeaning(rows[1..], gone);
      assert rows == [rows[0]] + rows[1..];
      if Distinct(rows) {
        assert forall row :: row in rows[1..] ==> row.id != rows[0].id;
        assert forall k :: 0 <= k < |rest| ==> rest[k] in rest;
      }
    }
  }

  /** A set that holds exactly the first `n` rows takes away exactly those. */
  lemma {:induction false} WithoutFirst(rows: seq<Row>, gone: set<Row>, n: nat)
    requires n <= |rows| && forall k :: 0 <= k < |rows| ==> (rows[k] in gone <==> k < n)
    ensures Without(rows, gone) == rows[n..]
  {
    if rows != [] {
      WithoutFirst(rows[1..], gone, if n == 0 then 0 else n - 1);
    }
  }

  lemma {:induction false} GoneDescends(t: Tables, stage: nat, gone: set<Row>, i: nat)
    requires |t| == STAGES && i < STAGES && i != stage && GoneFrom(t, stage, gone, i) != {}
    ensures Descends(i, stage) && gone != {}
    decreases STAGES - i
  {
    var p := ParentStage(i).value;
    var row :| row in GoneFrom(t, stage, gone, i);
    var parent :| parent in GoneFrom(t, stage, gone, p) && row.parent == parent.id;
    if p != stage {
      GoneDescends(t, stage, gone, p);
    }
  }

  lemma QueryKeepsOk(t: Tables, stage: nat, gone: set<Row>)
    requires TablesOk(t)
    ensures TablesOk(AfterQuery(t, stage, gone))
  {
    forall i | 0 <= i < STAGES ensures Distinct(AfterQuery(t, stage, gone)[i]) {
      WithoutMeaning(t[i], GoneFrom(t, stage, gone, i));
    }
  }

  // ----- queries of a run that nobody disturbs

  function Least(a: nat, b: nat): nat {
    if a < b then a else b
  }

  /** A query that finds no row locked takes the first rows, as many as a batch allows. */
  function Drained(t: Tables, stage: nat, batch: nat): (after: Tables)
    requires |t| == STAGES && stage < STAGES
    ensures |after| == STAGES
  {
    AfterQuery(t, stage, RowSet(t[stage][..Least(batch, |t[stage]|)]))
  }

  lemma DrainedTakesBatch(t: Tables, stage: nat, batch: nat)
    requires TablesOk(t) && stage < STAGES
    ensures TablesOk(Drained(t, stage, batch))
    ensures Drained(t, stage, batch)[stage] == t[stage][Least(batch, |t[stage]|)..]
  {
    var rows, n := t[stage], Least(batch, |t[stage]|);
    QueryKeepsOk(t, stage, RowSet(rows[..n]));
    assert forall k :: 0 <= k < n ==> rows[..n][k] == rows[k];
    assert forall k :: n <= k < |rows| ==> rows[k] !in rows[..n];
    WithoutFirst(rows, RowSet(rows[..n]), n);
  }

  predicate Stages(stages: seq<nat>) {
    forall k :: 0 <= k < |stages| ==> stages[k] < STAGES
  }

  /** The tables after queries of these stages. */
  function Played(t: Tables, batch: nat, stages: seq<nat>): (after: Tables)
    requires |t| == STAGES && Stages(stages)
    ensures |after| == STAGES
  {
    if stages == [] then t
    else Drained(Played(t, batch, stages[..|stages| - 1]), stages[|stages| - 1], batch)
  }

  lemma PlayedNext(t: Tables, batch: nat, stages: seq<nat>, s: nat)
    requires |t| == STAGES && Stages(stages) && s < STAGES
    ensures Played(t, batch, stages + [s]) == Drained(Played(t, batch, stages), s, batch)
  {
    assert (stages + [s])[..|stages|] == stages;
  }

  lemma {:induction false} PlayedOk(t: Tables, batch: nat, stages: seq<nat>)
    requires TablesOk(t) && Stages(stages)
    ensures TablesOk(Played(t, batch, stages))
  {
    if stages != [] {
      var before, s := stages[..|stages| - 1], stages[|stages| - 1];
      PlayedOk(t, batch, before);
      DrainedTakesBatch(Played(t, batch, before), s, batch);
    }
  }

  lemma {:induction false} PlayedJoins(t: Tables, batch: nat, a: seq<nat>, b: seq<nat>)
    requires |t| == STAGES && Stages(a) && Stages(b)
    ensures Played(t, batch, a + b) == Played(Played(t, batch, a), batch, b)
  {
    if b == [] {
      assert a + b == a;
    } else {
      var n := |b| - 1;
      PlayedJoins(t, batch, a, b[..n]);
      assert a + b == a + b[..n] + [b[n]] && b == b[..n] + [b[n]];
      PlayedNext(t, batch, a + b[..n], b[n]);
    }
  }

  // ----- which rows go with their parents

  /** The stage whose turn it is. */
  function Next(stages: seq<nat>): (s: nat)
    requires Stages(stages)
    ensures s < STAGES
  {
    if stages == [] || stages[|stages| - 1] == STAGES - 1 then 0 else stages[|stages| - 1] + 1
  }

  /** The stages take turns, as they do in a run. */
  predicate InTurn(stages: seq<nat>) {
    && Stages(stages)
    && (stages != [] ==> InTurn(stages[..|stages| - 1]) && stages[|stages| - 1] == Next(stages[..|stages| - 1]))
  }

  function Turns(stages: seq<nat>, i: nat): nat {
    if stages == [] then 0
    else Turns(stages[..|stages| - 1], i) + if stages[|stages| - 1] == i then 1 else 0
  }

  lemma {:induction false} TurnsAgree(stages: seq<nat>, i: nat)
    requires InTurn(stages) && i < STAGES
    ensures Turns(stages, i) == Turns(stages, STAGES - 1) + if i < Next(stages) then 1 else 0
  {
    if stages != [] {
      TurnsAgree(stages[..|stages| - 1], i);
    }
  }

  /** The last query takes rows of stage `i` along. */
  predicate Falls(t: Tables, batch: nat, stages: seq<nat>, i: nat)
    requires |t| == STAGES && Stages(stages) && i < STAGES
  {
    && stages != [] && i != stages[|stages| - 1]
    && |Played(t, batch, stages)[i]| != |Played(t, batch, stages[..|stages| - 1])[i]|
  }

  /** Neither the last query nor any before it takes rows along. */
  predicate NothingFalls(t: Tables, batch: nat, stages: seq<nat>)
    requires |t| == STAGES && Stages(stages)
  {
    && (forall i :: 0 <= i < STAGES ==> !Falls(t, batch, stages, i))
    && (stages != [] ==> NothingFalls(t, batch, stages[..|stages| - 1]))
  }

  /** No row comes in a later batch than the row it hangs on. */
  ghost predicate InStep(t: Tables, batch: nat)
    requires |t| == STAGES && 1 <= batch
  {
    forall i, k, m :: 0 <= i < STAGES && Hangs(t, i, k, m) ==> k / batch <= m / batch
  }

  /** Row `k` of stage `i` hangs on row `m` of its parent stage. */
  predicate Hangs(t: Tables, i: nat, k: int, m: int)
    requires |t| == STAGES && i < STAGES
  {
    && ParentStage(i).Some? && 0 <= k < |t[i]| && 0 <= m < |t[ParentStage(i).value]|
    && t[i][k].parent == t[ParentStage(i).value][m].id
  }

  /** How many rows a stage has taken after so many turns, if there were enough. */
  function Taken(batch: nat, turns: nat): nat {
    if turns == 0 then 0 else Taken(batch, turns - 1) + batch
  }

  /** What is left of the rows when only their own stage has taken some. */
  function Rest(rows: seq<Row>, taken: nat): seq<Row> {
    rows[Least(taken, |rows|)..]
  }

  ghost predicate OnlyTurns(t: Tables, batch: nat, stages: seq<nat>)
    requires |t| == STAGES && Stages(stages)
  {
    forall i :: 0 <= i < STAGES ==> Played(t, batch, stages)[i] == Rest(t[i], Taken(batch, Turns(stages, i)))
  }

  lemma RestOfRest(rows: seq<Row>, taken: nat, batch: nat)
    ensures var rest := Rest(rows, taken); rest[Least(batch, |rest|)..] == Rest(rows, taken + batch)
  {
  }

  /** A stage loses rows to another one exactly when the lengths say so. */
  lemma LossShows(t: Tables, batch: nat, s: nat, i: nat)
    requires |t| == STAGES && s < STAGES && i < STAGES && i != s
    ensures |Drained(t, s, batch)[i]| == |t[i]| <==> Drained(t, s, batch)[i] == t[i]
  {
    WithoutMeaning(t[i], GoneFrom(t, s, RowSet(t[s][..Least(batch, |t[s]|)]), i));
  }

  lemma OwnTurn(t: Tables, batch: nat, before: Tables, turns: nat, s: nat)
    requires |t| == STAGES && TablesOk(before) && s < STAGES && before[s] == Rest(t[s], Taken(batch, turns))
    ensures Drained(before, s, batch)[s] == Rest(t[s], Taken(batch, turns + 1))
  {
    DrainedTakesBatch(before, s, batch);
    RestOfRest(t[s], Taken(batch, turns), batch);
  }

  lemma TurnKeeps(t: Tables, batch: nat, now: Tables, turns: nat, s: nat, i: nat)
    requires |t| == STAGES && TablesOk(now) && s < STAGES && i < STAGES && now[i] == Rest(t[i], Taken(batch, turns))
    requires i != s ==> |Drained(now, s, batch)[i]| == |now[i]|
    ensures Drained(now, s, batch)[i] == Rest(t[i], Taken(batch, turns + if i == s then 1 else 0))
  {
    if i == s {
      OwnTurn(t, batch, now, turns, s);
    } else {
      LossShows(now, batch, s, i);
    }
  }

  lemma LengthsStay(t: Tables, batch: nat, stages: seq<nat>)
    requires |t| == STAGES && Stages(stages) && stages != [] && NothingFalls(t, batch, stages)
    ensures var now, s := Played(t, batch, stages[..|stages| - 1]), stages[|stages| - 1];
            && Played(t, batch, stages) == Drained(now, s, batch)
            && forall i :: 0 <= i < STAGES && i != s ==> |Drained(now, s, batch)[i]| == |now[i]|
  {
    var now, s := Played(t, batch, stages[..|stages| - 1]), stages[|stages| - 1];
    forall i | 0 <= i < STAGES && i != s ensures |Drained(now, s, batch)[i]| == |now[i]| {
      assert !Falls(t, batch, stages, i);
    }
  }

  /** As long as nothing falls, every stage has lost a batch for each of its turns. */
  lemma {:induction false} NothingFallsOnlyTurns(t: Tables, batch: nat, stages: seq<nat>)
    requires TablesOk(t) && Stages(stages) && NothingFalls(t, batch, stages)
    ensures OnlyTurns(t, batch, stages)
  {
    if stages != [] {
      var before, s := stages[..|stages| - 1], stages[|stages| - 1];
      NothingFallsOnlyTurns(t, batch, before);
      var now := Played(t, batch, before);
      PlayedOk(t, batch, before);
      LengthsStay(t, batch, stages);
      forall i | 0 <= i < STAGES ensures Drained(now, s, batch)[i] == Rest(t[i], Taken(batch, Turns(stages, i))) {
        TurnKeeps(t, batch, now, Turns(before, i), s, i);
      }
    }
  }

  lemma Grows(batch: nat, a: nat, b: nat)
    requires a <= b
    ensures batch * a <= batch * b
  {
  }

  lemma {:induction false} TakenIsProduct(batch: nat, turns: nat)
    ensures Taken(batch, turns) == batch * turns
  {
    if turns > 0 {
      TakenIsProduct(batch, turns - 1);
    }
  }

  lemma {:induction false} TakenEnough(batch: nat, turns: nat)
    requires 1 <= batch
    ensures turns <= Taken(batch, turns)
  {
    if turns > 0 {
      TakenEnough(batch, turns - 1);
    }
  }

  lemma DivisionBounds(k: nat, batch: nat)
    requires 1 <= batch
    ensures batch * (k / batch) <= k < batch * (k / batch) + batch
  {
  }

  lemma QuotientAtMost(k: nat, batch: nat, q: nat)
    requires 1 <= batch && k < batch * q + batch
    ensures k / batch <= q
  {
    DivisionBounds(k, batch);
    if k / batch > q {
      Grows(batch, q + 1, k / batch);
      assert false;
    }
  }

  lemma QuotientAtLeast(k: nat, batch: nat, q: nat)
    requires 1 <= batch && batch * q <= k
    ensures q <= k / batch
  {
    DivisionBounds(k, batch);
    if k / batch < q {
      Grows(batch, k / batch + 1, q);
      assert false;
    }
  }

  /** Two positions with the end of a batch between them. */
  lemma SplitByTurn(k: nat, m: nat, batch: nat, turns: nat)
    requires 1 <= batch && m < Taken(batch, turns + 1) <= k
    ensures m / batch < k / batch
  {
    TakenIsProduct(batch, turns);
    TakenIsProduct(batch, turns + 1);
    QuotientAtMost(m, batch, turns);
    QuotientAtLeast(k, batch, turns + 1);
  }

  /** The other way round: a position of a later batch lies behind the end of this one. */
  lemma BehindBatch(k: nat, m: nat, batch: nat, turns: nat)
    requires 1 <= batch && Taken(batch, turns) <= m < Taken(batch, turns + 1) && m / batch < k / batch
    ensures Taken(batch, turns + 1) <= k
  {
    TakenIsProduct(batch, turns);
    QuotientAtLeast(m, batch, turns);
    if k < Taken(batch, turns + 1) {
      QuotientAtMost(k, batch, turns);
      assert false;
    }
  }

  lemma StillThere(rows: seq<Row>, taken: nat, k: nat)
    requires taken <= k < |rows|
    ensures rows[k] in Rest(rows, taken)
  {
    assert Rest(rows, taken)[k - taken] == rows[k];
  }

  lemma IndexInRest(rows: seq<Row>, taken: nat, row: Row) returns (k: nat)
    requires row in Rest(rows, taken)
    ensures taken <= k < |rows| && rows[k] == row
  {
    var j :| 0 <= j < |Rest(rows, taken)| && Rest(rows, taken)[j] == row;
    k := taken + j;
  }

  lemma IndexInBatch(rows: seq<Row>, taken: nat, batch: nat, row: Row) returns (m: nat)
    requires var left := Rest(rows, taken); row in left[..Least(batch, |left|)]
    ensures taken <= m < taken + batch && m < |rows| && rows[m] == row
  {
    var left := Rest(rows, taken);
    var j :| 0 <= j < Least(batch, |left|) && left[j] == row;
    m := taken + j;
  }

  /** In step, rows that are left after one turn more hang on none of the parents that come next. */
  lemma RestsApart(t: Tables, batch: nat, i: nat, turns: nat, row: Row, parent: Row)
    requires |t| == STAGES && 1 <= batch && InStep(t, batch) && i < STAGES && ParentStage(i).Some?
    requires row in Rest(t[i], Taken(batch, turns + 1))
    requires var left := Rest(t[ParentStage(i).value], Taken(batch, turns)); parent in left[..Least(batch, |left|)]
    ensures row.parent != parent.id
  {
    var k := IndexInRest(t[i], Taken(batch, turns + 1), row);
    var m := IndexInBatch(t[ParentStage(i).value], Taken(batch, turns), batch, parent);
    SplitByTurn(k, m, batch, turns);
    assert !Hangs(t, i, k, m);
  }

  /** In step, the rows a query removes have no rows left that hang on them. */
  lemma {:induction false} NoneHangs(t: Tables, batch: nat, stages: seq<nat>, i: nat)
    requires TablesOk(t) && 1 <= batch && InStep(t, batch)
    requires InTurn(stages) && OnlyTurns(t, batch, stages) && i < STAGES && i != Next(stages)
    ensures var now, s := Played(t, batch, stages), Next(stages);
            GoneFrom(now, s, RowSet(now[s][..Least(batch, |now[s]|)]), i) == {}
    decreases STAGES - i
  {
    var now, s := Played(t, batch, stages), Next(stages);
    var first := now[s][..Least(batch, |now[s]|)];
    if ParentStage(i).Some? {
      var p := ParentStage(i).value;
      if p != s {
        NoneHangs(t, batch, stages, p);
      } else {
        TurnsAgree(stages, i);
        TurnsAgree(stages, s);
        forall row: Row, parent: Row | row in now[i] && parent in first ensures row.parent != parent.id {
          RestsApart(t, batch, i, Turns(stages, s), row, parent);
        }
      }
    }
  }

  lemma QueryTakesNoneAlong(t: Tables, batch: nat, stages: seq<nat>, i: nat)
    requires TablesOk(t) && 1 <= batch && InStep(t, batch)
    requires InTurn(stages) && OnlyTurns(t, batch, stages) && i < STAGES && i != Next(stages)
    ensures Drained(Played(t, batch, stages), Next(stages), batch)[i] == Played(t, batch, stages)[i]
  {
    NoneHangs(t, batch, stages, i);
    WithoutFirst(Played(t, batch, stages)[i], {}, 0);
  }

  lemma {:induction false} InStepNothingFalls(t: Tables, batch: nat, stages: seq<nat>)
    requires TablesOk(t) && 1 <= batch && InStep(t, batch) && InTurn(stages)
    ensures NothingFalls(t, batch, stages)
  {
    if stages != [] {
      var before := stages[..|stages| - 1];
      InStepNothingFalls(t, batch, before);
      NothingFallsOnlyTurns(t, batch, before);
      forall i | 0 <= i < STAGES ensures !Falls(t, batch, stages, i) {
        if i != Next(before) {
          QueryTakesNoneAlong(t, batch, before, i);
        }
      }
    }
  }

  /** A row whose parent is among those taken now does not survive the query. */
  lemma ChildGoes(t: Tables, batch: nat, i: nat, row: Row, parent: Row)
    requires TablesOk(t) && i < STAGES && ParentStage(i).Some?
    requires var left := t[ParentStage(i).value]; parent in left[..Least(batch, |left|)]
    requires row.parent == parent.id
    ensures row !in Drained(t, ParentStage(i).value, batch)[i]
  {
    var p := ParentStage(i).value;
    var gone := RowSet(t[p][..Least(batch, |t[p]|)]);
    assert parent in GoneFrom(t, p, gone, p);
    WithoutMeaning(t[i], GoneFrom(t, p, gone, i));
  }

  lemma OutOfStepGoes(t: Tables, batch: nat, now: Tables, turns: nat, i: nat, k: nat, m: nat)
    requires |t| == STAGES && TablesOk(now) && i < STAGES && Hangs(t, i, k, m)
    requires Taken(batch, turns) <= m < Taken(batch, turns + 1)
    requires now[ParentStage(i).value] == Rest(t[ParentStage(i).value], Taken(batch, turns))
    ensures t[i][k] !in Drained(now, ParentStage(i).value, batch)[i]
  {
    var p := ParentStage(i).value;
    assert now[p][..Least(batch, |now[p]|)][m - Taken(batch, turns)] == t[p][m];
    ChildGoes(now, batch, i, t[i][k], t[p][m]);
  }

  /** The turn in which the parent comes: the child is still there before it, and not after it. */
  lemma ParentsTurn(t: Tables, batch: nat, before: seq<nat>, i: nat, k: nat, m: nat)
    requires TablesOk(t) && 1 <= batch && InTurn(before) && i < STAGES && Hangs(t, i, k, m) && m / batch < k / batch
    requires Next(before) == ParentStage(i).value && OnlyTurns(t, batch, before)
    requires Taken(batch, Turns(before, Next(before))) <= m < Taken(batch, Turns(before, Next(before)) + 1)
    ensures Drained(Played(t, batch, before), Next(before), batch)[i] != Played(t, batch, before)[i]
  {
    var turns := Turns(before, Next(before));
    PlayedOk(t, batch, before);
    TurnsAgree(before, i);
    TurnsAgree(before, Next(before));
    BehindBatch(k, m, batch, turns);
    OutOfStepGoes(t, batch, Played(t, batch, before), turns, i, k, m);
    StillThere(t[i], Taken(batch, turns + 1), k);
  }

  /** Out of step, the query that takes the parent takes the child along. */
  lemma {:induction false} OutOfStepFalls(t: Tables, batch: nat, stages: seq<nat>, i: nat, k: nat, m: nat)
    requires TablesOk(t) && 1 <= batch && InTurn(stages) && i < STAGES && Hangs(t, i, k, m) && m / batch < k / batch
    requires m < Taken(batch, Turns(stages, ParentStage(i).value))
    ensures !NothingFalls(t, batch, stages)
  {
    if stages != [] && NothingFalls(t, batch, stages) {
      var before := stages[..|stages| - 1];
      if m < Taken(batch, Turns(before, ParentStage(i).value)) {
        OutOfStepFalls(t, batch, before, i, k, m);
      } else {
        NothingFallsOnlyTurns(t, batch, before);
        ParentsTurn(t, batch, before, i, k, m);
        assert !Falls(t, batch, stages, i);
        LossShows(Played(t, batch, before), batch, Next(before), i);
      }
    }
  }

  predicate AllEmpty(t: Tables) {
    forall i :: 0 <= i < |t| ==> t[i] == []
  }

  /**
   When a run has emptied all stages and nobody else acted: no row has gone with its parent if and only if
   no row came in a later batch than the row it hangs on.
   */
  lemma NothingFallsIffInStep(t: Tables, batch: nat, stages: seq<nat>)
    requires TablesOk(t) && 1 <= batch && InTurn(stages) && AllEmpty(Played(t, batch, stages))
    ensures NothingFalls(t, batch, stages) <==> InStep(t, batch)
  {
    if InStep(t, batch) {
      InStepNothingFalls(t, batch, stages);
    } else if NothingFalls(t, batch, stages) {
      var i, k, m :| 0 <= i < STAGES && Hangs(t, i, k, m) && k / batch > m / batch;
      var p := ParentStage(i).value;
      NothingFallsOnlyTurns(t, batch, stages);
      assert Rest(t[p], Taken(batch, Turns(stages, p))) == [];
      OutOfStepFalls(t, batch, stages, i, k, m);
    }
  }

  /** A run can be as long as it takes. */
  lemma {:induction false} LongRun(turns: nat) returns (stages: seq<nat>)
    ensures InTurn(stages) && Next(stages) == 0 && forall i :: 0 <= i < STAGES ==> Turns(stages, i) == turns
  {
    stages := [];
    if turns > 0 {
      stages := LongRun(turns - 1);
      for s := 0 to STAGES
        invariant InTurn(stages) && Next(stages) == s % STAGES
        invariant forall i :: 0 <= i < STAGES ==> Turns(stages, i) == if i < s then turns else turns - 1
      {
        assert (stages + [s])[..|stages|] == stages;
        stages := stages + [s];
      }
    }
  }

  /** Over all runs: rows can go with their parents exactly when some row comes in a later batch than its own. */
  lemma NeverFallsIffInStep(t: Tables, batch: nat)
    requires TablesOk(t) && 1 <= batch
    ensures (forall stages :: InTurn(stages) ==> NothingFalls(t, batch, stages)) <==> InStep(t, batch)
  {
    if InStep(t, batch) {
      forall stages | InTurn(stages) ensures NothingFalls(t, batch, stages) {
        InStepNothingFalls(t, batch, stages);
      }
    } else {
      var i, k, m :| 0 <= i < STAGES && Hangs(t, i, k, m) && k / batch > m / batch;
      var stages := LongRun(m + 1);
      TakenEnough(batch, m + 1);
      OutOfStepFalls(t, batch, stages, i, k, m);
    }
  }

  // ----- when rows are in step

  /** Children that fit into one batch are always in step: they come before the rows they hang on. */
  lemma OneBatchInStep(t: Tables, batch: nat)
    requires |t| == STAGES && 1 <= batch
    requires forall i :: 0 <= i < STAGES && ParentStage(i).Some? ==> |t[i]| <= batch
    ensures InStep(t, batch)
  {
    forall i, k, m | 0 <= i < STAGES && Hangs(t, i, k, m) ensures k / batch <= m / batch {
      DivisionBounds(k, batch);
      DivisionBounds(m, batch);
      if k / batch >= 1 {
        Grows(batch, 1, k / batch);
      }
    }
  }

  datatype Task = Task(id: nat, marked: bool)

  /** `WHERE status <> 'expired'` */
  function Unmarked(tasks: seq<Task>): seq<Row> {
    if tasks == [] then []
    else
      var last := tasks[|tasks| - 1];
      Unmarked(tasks[..|tasks| - 1]) + if last.marked then [] else [Row(last.id, last.id)]
  }

  /** The expired tasks in the order of their expiry; the first `hard` of them are past their retention. */
  ghost predicate HoldsTasks(t: Tables, tasks: seq<Task>, hard: nat)
    requires |t| == STAGES
  {
    && (forall j, k :: 0 <= j < k < |tasks| ==> tasks[j].id != tasks[k].id)
    && t[EXPIRED_TASKS] == Unmarked(tasks)
    && hard == |t[HARD_DELETED_TASKS]| <= |tasks|
    && forall k :: 0 <= k < hard ==> t[HARD_DELETED_TASKS][k].id == tasks[k].id
  }

  lemma {:induction false} UnmarkedAreEarlier(tasks: seq<Task>, k: nat, m: nat)
    requires forall i, j :: 0 <= i < j < |tasks| ==> tasks[i].id != tasks[j].id
    requires k < |Unmarked(tasks)| && m < |tasks| && Unmarked(tasks)[k].id == tasks[m].id
    ensures k <= m
    decreases |tasks|
  {
    var n := |tasks| - 1;
    UnmarkedAreTasks(tasks[..n]);
    if k < |Unmarked(tasks[..n])| {
      assert Unmarked(tasks[..n])[k] in Unmarked(tasks[..n]);
      UnmarkedAreEarlier(tasks[..n], k, m);
    }
  }

  lemma {:induction false} UnmarkedAreTasks(tasks: seq<Task>)
    ensures |Unmarked(tasks)| <= |tasks|
    ensures forall row :: row in Unmarked(tasks) ==>
              row.parent == row.id && exists k :: 0 <= k < |tasks| && tasks[k].id == row.id
  {
    if tasks != [] {
      var n := |tasks| - 1;
      UnmarkedAreTasks(tasks[..n]);
      forall row | row in Unmarked(tasks[..n]) ensures exists k :: 0 <= k < |tasks| && tasks[k].id == row.id {
        var k :| 0 <= k < n && tasks[..n][k].id == row.id;
        assert tasks[k].id == row.id;
      }
      assert tasks[n].id == tasks[n].id;
    }
  }

  lemma EarlierBatch(k: nat, m: nat, batch: nat)
    requires 1 <= batch && k <= m
    ensures k / batch <= m / batch
  {
    DivisionBounds(m, batch);
    QuotientAtMost(k, batch, m / batch);
  }

  /** Tasks are marked and deleted in one order, so none is deleted before it could be marked. */
  lemma MarkedBeforeDeleted(t: Tables, batch: nat, tasks: seq<Task>, hard: nat, k: nat, m: nat)
    requires |t| == STAGES && 1 <= batch && HoldsTasks(t, tasks, hard) && Hangs(t, EXPIRED_TASKS, k, m)
    ensures k / batch <= m / batch
  {
    UnmarkedAreTasks(tasks);
    assert t[EXPIRED_TASKS][k] in t[EXPIRED_TASKS];
    UnmarkedAreEarlier(tasks, k, m);
    EarlierBatch(k, m, batch);
  }

  /** One more ticket than a batch holds, all of one expired candidate: the last ticket goes uncounted. */
  function TicketsOfOne(batch: nat): (t: Tables)
    ensures |t| == STAGES
  {
    seq(STAGES, i => if i == DELIVERY_TICKETS then seq(batch + 1, k requires 0 <= k => Row(k, 0))
                     else if i == DELIVERY_CANDIDATES then [Row(0, 0)] else [])
  }

  lemma OthersKeepRows(t: Tables, batch: nat, s: nat, i: nat)
    requires |t| == STAGES && s < STAGES && i < STAGES && i != s && !Descends(i, s)
    ensures Drained(t, s, batch)[i] == t[i]
  {
    var gone := RowSet(t[s][..Least(batch, |t[s]|)]);
    if GoneFrom(t, s, gone, i) != {} {
      GoneDescends(t, s, gone, i);
    }
    WithoutFirst(t[i], {}, 0);
  }

  /** After two queries the last ticket is left, and its candidate. */
  lemma TicketIsLeft(batch: nat)
    requires 1 <= batch
    ensures var left := Drained(Drained(TicketsOfOne(batch), 0, batch), 1, batch);
            && TablesOk(TicketsOfOne(batch)) && TablesOk(left)
            && Drained(TicketsOfOne(batch), 0, batch)[1] == []
            && Drained(TicketsOfOne(batch), 0, batch)[DELIVERY_TICKETS] == [Row(batch, 0)]
            && left[DELIVERY_TICKETS] == [Row(batch, 0)] && left[DELIVERY_CANDIDATES] == [Row(0, 0)]
  {
    var t := TicketsOfOne(batch);
    DrainedTakesBatch(t, 0, batch);
    OthersKeepRows(t, batch, 0, 1);
    OthersKeepRows(t, batch, 0, 2);
    var t1 := Drained(t, 0, batch);
    DrainedTakesBatch(t1, 1, batch);
    OthersKeepRows(t1, batch, 1, 0);
    OthersKeepRows(t1, batch, 1, 2);
  }

  lemma LastTicketGoes(t: Tables, batch: nat)
    requires TablesOk(t) && 1 <= batch
    requires t[DELIVERY_TICKETS] == [Row(batch, 0)] && t[DELIVERY_CANDIDATES] == [Row(0, 0)]
    ensures Drained(t, DELIVERY_CANDIDATES, batch)[DELIVERY_TICKETS] == []
    ensures Drained(t, DELIVERY_CANDIDATES, batch)[DELIVERY_CANDIDATES] == []
  {
    DrainedTakesBatch(t, DELIVERY_CANDIDATES, batch);
    assert t[2][..Least(batch, 1)][0] == Row(0, 0);
    ChildGoes(t, batch, 0, Row(batch, 0), Row(0, 0));
    WithoutMeaning(t[0], GoneFrom(t, 2, RowSet(t[2][..Least(batch, 1)]), 0));
  }

  /** That ticket comes in a later batch than its candidate. */
  lemma LastTicketIsLate(batch: nat)
    requires 1 <= batch
    ensures !InStep(TicketsOfOne(batch), batch)
  {
    SplitByTurn(batch, 0, batch, 0);
    assert Hangs(TicketsOfOne(batch), DELIVERY_TICKETS, batch, 0);
  }
}
