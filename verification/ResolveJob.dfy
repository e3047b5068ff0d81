/**
 The life of one resolve job: the API handler that takes a quota reference and queues the job
 (apps/api/src/server.ts), the worker that processes it (apps/worker/src/resolve-job-processor.ts)
 and the handler of exhausted jobs, with the queue retrying an attempt unless it failed for good.

 Every call to the task table, the quota store and the queue may work, may be lost, or may take
 effect and still report an error. The scripts of faults are parameters; the lemmas quantify over
 all of them.
 */
module ResolveJob {
  import opened Wrappers

  type TaskId = string
  type Reference = string

  datatype Status = Queued | Detecting | Resolving | Succeeded | Failed | Expired {
    predicate Terminal() {
      this in {Succeeded, Failed, Expired}
    }
  }

  /** How a call to another service goes. */
  datatype Fault = Works | Lost | LateError

  /** A stored task; `live` as long as its `expires_at` lies ahead. */
  datatype Row = Row(status: Status, live: bool)

  /** Task rows, quota references held, task ids put on the queue, and the ids of tasks a provider has answered. */
  datatype World = World(tasks: map<TaskId, Row>, held: set<Reference>, queued: set<TaskId>, resolved: seq<TaskId>)

  function RowOf(w: World, id: TaskId): Option<Row> {
    if id in w.tasks then Some(w.tasks[id]) else None
  }

  /** The row can still be found by the queries that ask for `expires_at > NOW()`. */
  predicate Alive(row: Option<Row>) {
    row.Some? && row.value.live
  }

  predicate Open(row: Option<Row>) {
    Alive(row) && !row.value.status.Terminal()
  }

  function WithStatus(w: World, id: TaskId, status: Status): World {
    if Alive(RowOf(w, id)) then w.(tasks := w.tasks[id := Row(status, true)]) else w
  }

  /** The deadline of the row has passed. */
  function Lapsed(w: World, id: TaskId): World {
    if id in w.tasks then w.(tasks := w.tasks[id := w.tasks[id].(live := false)]) else w
  }

  function WithoutReference(w: World, reference: Reference): World {
    w.(held := w.held - {reference})
  }

  function Effect(fault: Fault, before: World, after: World): World {
    if fault == Lost then before else after
  }

  /** The outside world, changed in place by the calls below. */
  class Services {
    var tasks: map<TaskId, Row>
    var held: set<Reference>
    var queued: set<TaskId>
    var resolved: seq<TaskId>

    ghost function Now(): World
      reads this
    {
      World(tasks, held, queued, resolved)
    }

    constructor (tasks: map<TaskId, Row>, held: set<Reference>)
      ensures Now() == World(tasks, held, {}, [])
    {
      this.tasks, this.held, queued, resolved := tasks, held, {}, [];
    }

    /** An UPDATE of an unexpired row, whatever its status: markResolving and fail. */
    method Update(id: TaskId, status: Status, fault: Fault) returns (ok: bool)
      modifies this`tasks
      ensures ok == (fault == Works)
      ensures Now() == Effect(fault, old(Now()), WithStatus(old(Now()), id, status))
    {
      if fault != Lost && id in tasks && tasks[id].live {
        tasks := tasks[id := Row(status, true)];
      }
      ok := fault == Works;
    }

    /** A deadline passes while a job is at work. */
    method TimePasses(id: TaskId, lapses: bool)
      modifies this`tasks
      ensures Now() == if lapses then Lapsed(old(Now()), id) else old(Now())
    {
      if lapses && id in tasks {
        tasks := tasks[id := tasks[id].(live := false)];
      }
    }

    /** completeWithResolution: a missing or expired row makes it throw. */
    method Complete(id: TaskId, fault: Fault) returns (ok: bool)
      modifies this`tasks
      ensures ok == (fault == Works && Alive(RowOf(old(Now()), id)))
      ensures Now() == Effect(fault, old(Now()), WithStatus(old(Now()), id, Succeeded))
    {
      ok := fault == Works && id in tasks && tasks[id].live;
      if fault != Lost && id in tasks && tasks[id].live {
        tasks := tasks[id := Row(Succeeded, true)];
      }
    }

    /** failAfterProviderResolution and failIfNonTerminal: terminal rows are left alone. */
    method FailUnlessTerminal(id: TaskId, fault: Fault) returns (ok: bool, failed: bool)
      modifies this`tasks
      ensures ok == (fault == Works)
      ensures failed == Open(RowOf(old(Now()), id))
      ensures Now() == Effect(fault, old(Now()), FailedUnlessTerminal(old(Now()), id))
    {
      failed := id in tasks && tasks[id].live && !tasks[id].status.Terminal();
      if fault != Lost && failed {
        tasks := tasks[id := Row(Failed, true)];
      }
      ok := fault == Works;
    }

    method ReleaseReference(reference: Reference, fault: Fault)
      modifies this`held
      ensures Now() == Effect(fault, old(Now()), WithoutReference(old(Now()), reference))
    {
      if fault != Lost {
        held := held - {reference};
      }
    }
  }

  function FailedUnlessTerminal(w: World, id: TaskId): World {
    if Open(RowOf(w, id)) then WithStatus(w, id, Failed) else w
  }

  // ----- one attempt of the worker

  datatype Platform = SamePlatform | Mismatch | DetectionError

  /** What router.resolve does; a routing error may or may not be retried by the queue. */
  datatype Routing = Resolved | RoutingError(automaticRetry: bool) | OtherError

  /** Everything an attempt does not decide itself; `lapses` when the row's deadline passes during it. */
  datatype Attempt = Attempt(
    mark: Fault,
    lapses: bool,
    platform: Platform,
    routing: Routing,
    record: Fault,
    fail: Fault,
    prepareOk: bool,
    complete: Fault,
    failAfter: Fault,
    release: Fault)

  /** How the attempt ends for the queue. */
  datatype Outcome = Completed | Retryable | Unrecoverable

  datatype Job = Job(taskId: TaskId, reference: Reference)

  /** tasks.fail, then the reference, then UnrecoverableError; a fail that throws leaves a plain error. */
  function Terminate(w: World, job: Job, a: Attempt): (World, Outcome) {
    var failed := Effect(a.fail, w, WithStatus(w, job.taskId, Failed));
    if a.fail == Works then (Effect(a.release, failed, WithoutReference(failed, job.reference)), Unrecoverable)
    else (failed, Retryable)
  }

  /** What happens behind the no-replay boundary. */
  function Finish(w: World, job: Job, a: Attempt): (World, Outcome) {
    var completed := if a.prepareOk then Effect(a.complete, w, WithStatus(w, job.taskId, Succeeded)) else w;
    if a.prepareOk && a.complete == Works && Alive(RowOf(w, job.taskId))
    then (Effect(a.release, completed, WithoutReference(completed, job.reference)), Completed)
    else
      var failed := Effect(a.failAfter, completed, FailedUnlessTerminal(completed, job.taskId));
      (Effect(a.release, failed, WithoutReference(failed, job.reference)), Unrecoverable)
  }

  /** After markResolving, and after the deadline if it passes now. */
  function Marked(w: World, job: Job, a: Attempt): World {
    var marked := Effect(a.mark, w, WithStatus(w, job.taskId, Resolving));
    if a.lapses then Lapsed(marked, job.taskId) else marked
  }

  function Processed(w: World, job: Job, a: Attempt): (World, Outcome) {
    var marked := Marked(w, job, a);
    if a.mark != Works || a.platform == DetectionError then (marked, Retryable)
    else if a.platform == Mismatch then Terminate(marked, job, a)
    else
      match a.routing
      case Resolved => Finish(marked.(resolved := marked.resolved + [job.taskId]), job, a)
      case OtherError => (marked, Retryable)
      case RoutingError(automaticRetry) =>
        if a.record != Works || automaticRetry then (marked, Retryable) else Terminate(marked, job, a)
  }

  method PersistPostProviderFailure(s: Services, job: Job, a: Attempt)
    modifies s
    ensures s.Now() == var failed := Effect(a.failAfter, old(s.Now()), FailedUnlessTerminal(old(s.Now()), job.taskId));
                       Effect(a.release, failed, WithoutReference(failed, job.reference))
  {
    var _, _ := s.FailUnlessTerminal(job.taskId, a.failAfter);
    s.ReleaseReference(job.reference, a.release);
  }

  /** `processResolveJob` */
  method ProcessResolveJob(s: Services, job: Job, a: Attempt) returns (outcome: Outcome)
    modifies s
    ensures (s.Now(), outcome) == Processed(old(s.Now()), job, a)
  {
    var marked := s.Update(job.taskId, Resolving, a.mark);
    s.TimePasses(job.taskId, a.lapses);
    if !marked {
      return Retryable;
    }
    if a.platform == DetectionError {
      return Retryable;
    }
    if a.platform == Mismatch {
      var stored := s.Update(job.taskId, Failed, a.fail);
      if !stored {
        return Retryable;
      }
      s.ReleaseReference(job.reference, a.release);
      return Unrecoverable;
    }
    match a.routing {
      case OtherError => return Retryable;
      case RoutingError(automaticRetry) =>
        if a.record != Works || automaticRetry {
          return Retryable;
        }
        var stored := s.Update(job.taskId, Failed, a.fail);
        if !stored {
          return Retryable;
        }
        s.ReleaseReference(job.reference, a.release);
        return Unrecoverable;
      case Resolved =>
        s.resolved := s.resolved + [job.taskId];
    }
    if !a.prepareOk {
      PersistPostProviderFailure(s, job, a);
      return Unrecoverable;
    }
    var completed := s.Complete(job.taskId, a.complete);
    if !completed {
      PersistPostProviderFailure(s, job, a);
      return Unrecoverable;
    }
    s.ReleaseReference(job.reference, a.release);
    return Completed;
  }

  // ----- the handler of exhausted jobs

  datatype Handler = Handler(get: Fault, failIf: Fault, release: Fault)

  function Exhausted(w: World, job: Job, attemptsMade: nat, limit: nat, h: Handler): World {
    if attemptsMade < limit || h.get != Works || !Open(RowOf(w, job.taskId)) then w else
    var failed := Effect(h.failIf, w, WithStatus(w, job.taskId, Failed));
    if h.failIf != Works then failed else Effect(h.release, failed, WithoutReference(failed, job.reference))
  }

  /** `handleExhaustedResolveJob`, called by the queue after every failed attempt. */
  method HandleExhaustedResolveJob(s: Services, job: Job, attemptsMade: nat, limit: nat, h: Handler)
    modifies s
    ensures s.Now() == Exhausted(old(s.Now()), job, attemptsMade, limit, h)
  {
    if attemptsMade < limit {
      return;
    }
    if h.get != Works {
      return;
    }
    if job.taskId !in s.tasks || !s.tasks[job.taskId].live || s.tasks[job.taskId].status.Terminal() {
      return;
    }
    var ok, failed := s.FailUnlessTerminal(job.taskId, h.failIf);
    if !ok || !failed {
      return;
    }
    s.ReleaseReference(job.reference, h.release);
  }

  // ----- the API handler

  /** The quota store's answer; a call that throws may have taken the reference all the same. */
  datatype Quota = Accept | Reject | QuotaError(taken: bool)

  /** What the task table makes of the request. */
  datatype Admission = Created | Duplicate | Replayed | Conflict | AdmissionError(inserted: bool)

  datatype Request = Request(quota: Quota, admission: Admission, add: Fault, fail: Fault, release: Fault)

  function WithReference(w: World, reference: Reference): World {
    w.(held := w.held + {reference})
  }

  function WithTask(w: World, id: TaskId): World {
    w.(tasks := w.tasks[id := Row(Queued, true)])
  }

  function WithJob(w: World, id: TaskId): World {
    w.(queued := w.queued + {id})
  }

  /** The world after POST /v1/resolve-tasks, and the status code. */
  function Posted(w: World, job: Job, r: Request): (World, int) {
    if r.quota == Reject then (w, 429)
    else
      var taken := if r.quota == QuotaError(false) then w else WithReference(w, job.reference);
      if r.quota.QuotaError? then (Effect(r.release, taken, WithoutReference(taken, job.reference)), 503)
      else
        var admitted := if r.admission in {Created, AdmissionError(true)} then WithTask(taken, job.taskId) else taken;
        if r.admission != Created then
          (Effect(r.release, admitted, WithoutReference(admitted, job.reference)),
           match r.admission case Duplicate => 429 case Replayed => 202 case Conflict => 409 case _ => 503)
        else
          var added := Effect(r.add, admitted, WithJob(admitted, job.taskId));
          if r.add == Works then (added, 202)
          else
            var failed := Effect(r.fail, added, WithStatus(added, job.taskId, Failed));
            (Effect(r.release, failed, WithoutReference(failed, job.reference)), if r.fail == Works then 503 else 500)
  }

  method HandlePost(s: Services, job: Job, r: Request) returns (code: int)
    modifies s
    ensures (s.Now(), code) == Posted(old(s.Now()), job, r)
    ensures code == 202 <==>
              r.quota == Accept && (r.admission == Replayed || (r.admission == Created && r.add == Works))
    ensures code == 409 <==> r.quota == Accept && r.admission == Conflict
    ensures code == 429 <==> r.quota == Reject || (r.quota == Accept && r.admission == Duplicate)
    ensures code == 500 <==> r.quota == Accept && r.admission == Created && r.add != Works && r.fail != Works
    ensures code == 503 <==>
              || r.quota.QuotaError? || (r.quota == Accept && r.admission.AdmissionError?)
              || (r.quota == Accept && r.admission == Created && r.add != Works && r.fail == Works)
  {
    match r.quota {
      case Reject => return 429;
      case QuotaError(taken) =>
        if taken {
          s.held := s.held + {job.reference};
        }
        s.ReleaseReference(job.reference, r.release);
        return 503;
      case Accept => s.held := s.held + {job.reference};
    }
    match r.admission {
      case Conflict => s.ReleaseReference(job.reference, r.release); return 409;
      case AdmissionError(inserted) =>
        if inserted {
          s.tasks := s.tasks[job.taskId := Row(Queued, true)];
        }
        s.ReleaseReference(job.reference, r.release);
        return 503;
      case Duplicate => s.ReleaseReference(job.reference, r.release); return 429;
      case Replayed => s.ReleaseReference(job.reference, r.release); return 202;
      case Created => s.tasks := s.tasks[job.taskId := Row(Queued, true)];
    }
    if r.add != Lost {
      s.queued := s.queued + {job.taskId};
    }
    if r.add == Works {
      return 202;
    }
    var stored := s.Update(job.taskId, Failed, r.fail);
    s.ReleaseReference(job.reference, r.release);  // finally
    code := if stored then 503 else 500;
  }

  /**
   When releases work, the handler leaves the reference held exactly when its own job is on the
   queue, unless the queue took the job and still reported an error.
   */
  lemma PostKeepsReferenceWithJob(w: World, job: Job, r: Request)
    requires job.reference !in w.held && job.taskId !in w.queued && r.release != Lost
    ensures var t := Posted(w, job, r).0;
            && t.held - {job.reference} == w.held && t.queued - {job.taskId} == w.queued
            && ((job.reference in t.held <==> job.taskId in t.queued)
                <==> !(r.quota == Accept && r.admission == Created && r.add == LateError))
            && (job.reference in t.held ==> t.tasks == w.tasks[job.taskId := Row(Queued, true)])
  {
  }

  /**
   The row of the task after the request: queued when its job was, failed once the queue has thrown, and
   nothing else touched; a failed insertion that was committed all the same leaves a queued row.
   */
  lemma PostTellsRow(w: World, job: Job, r: Request)
    requires job.taskId !in w.tasks
    ensures var row := RowOf(Posted(w, job, r).0, job.taskId);
            && (row == Some(Row(Queued, true)) <==>
                  r.quota == Accept && (r.admission == AdmissionError(true)
                                        || (r.admission == Created && (r.add == Works || r.fail == Lost))))
            && (row == Some(Row(Failed, true)) <==>
                  r.quota == Accept && r.admission == Created && r.add != Works && r.fail != Lost)
            && (row == None <==> r.quota != Accept || r.admission !in {Created, AdmissionError(true)})
  {
  }

  // ----- one round of the queue: an attempt, and the failure handler

  datatype Round = Round(attempt: Attempt, handler: Handler)

  datatype Progress = Again | Ended(outcome: Outcome)

  /** The queue runs a job again after a plain error while attempts are left. */
  function Played(w: World, job: Job, made: nat, limit: nat, r: Round): (World, Progress) {
    var (after, outcome) := Processed(w, job, r.attempt);
    if outcome == Completed then (after, Ended(Completed))
    else
      (Exhausted(after, job, made + 1, limit, r.handler),
       if outcome == Retryable && made + 1 < limit then Again else Ended(outcome))
  }

  /** A provider answer is always followed by the end of the job, whatever else fails. */
  lemma ResolvedEnds(w: World, job: Job, made: nat, limit: nat, r: Round)
    ensures var (t, progress) := Played(w, job, made, limit, r);
            && t.resolved in {w.resolved, w.resolved + [job.taskId]}
            && (t.resolved != w.resolved ==> progress.Ended? && progress.outcome != Retryable)
  {
    assert |w.resolved + [job.taskId]| == |w.resolved| + 1;
  }

  /** `t` differs from `w` at most in the job's own task, its own reference and the provider log. */
  predicate LocalTo(w: World, t: World, job: Job) {
    && t.held - {job.reference} == w.held - {job.reference}
    && t.tasks.Keys == w.tasks.Keys && t.queued == w.queued
    && (forall id :: id in w.tasks && id != job.taskId ==> t.tasks[id] == w.tasks[id])
  }

  lemma ProcessedIsLocal(w: World, job: Job, a: Attempt)
    ensures LocalTo(w, Processed(w, job, a).0, job)
  {
    var marked := Marked(w, job, a);
    assert LocalTo(w, marked, job);
    if a.mark == Works && a.platform == SamePlatform && a.routing == Resolved {
      var log := marked.(resolved := marked.resolved + [job.taskId]);
      assert LocalTo(w, log, job);
      FinishIsLocal(log, job, a);
    }
  }

  lemma FinishIsLocal(w: World, job: Job, a: Attempt)
    ensures LocalTo(w, Finish(w, job, a).0, job)
  {
  }

  /** A round touches only its own task and reference. */
  lemma RoundIsLocal(w: World, job: Job, made: nat, limit: nat, r: Round)
    ensures LocalTo(w, Played(w, job, made, limit, r).0, job)
  {
    ProcessedIsLocal(w, job, r.attempt);
  }

  /** The exhausted-job handler finds an open task and its own calls work. */
  predicate HandlerActs(w: World, job: Job, h: Handler) {
    h.get == Works && h.failIf == Works && Open(RowOf(w, job.taskId))
  }

  /**
   When releases work: a job that will be tried again keeps its reference; a job that has ended has
   given it back, except exactly when it ran out of attempts and the handler could not act because a
   call of its own failed or because the task was already terminal, expired or gone.
   */
  lemma ReferenceGoneIffEnded(w: World, job: Job, made: nat, limit: nat, r: Round)
    requires job.reference in w.held && r.attempt.release != Lost && r.handler.release != Lost
    ensures var (t, progress) := Played(w, job, made, limit, r);
            && (progress == Again ==> job.reference in t.held)
            && (progress.Ended? ==>
                  (job.reference !in t.held
                   <==> progress.outcome != Retryable || HandlerActs(Processed(w, job, r.attempt).0, job, r.handler)))
  {
  }

  // ----- every run of requests and rounds

  /** A job on the queue: queued, running or waiting for its next attempt. */
  datatype Active = Active(reference: Reference, made: nat, limit: nat)

  datatype System = System(world: World, jobs: map<TaskId, Active>, ids: set<TaskId>, references: set<Reference>)

  /**
   Requests and rounds, and what time brings: a row's deadline passes, the cleanup marks an expired row or
   deletes it, and a reference reaches the end of its own lifetime.
   */
  datatype Event =
    | Post(job: Job, limit: nat, request: Request)
    | Work(id: TaskId, round: Round)
    | Expire(id: TaskId)
    | Mark(id: TaskId)
    | Delete(id: TaskId)
    | Drop(reference: Reference)

  /** Task ids and references are random; the queue runs only jobs it still has; the cleanup takes expired rows. */
  predicate Enabled(s: System, e: Event) {
    match e
    case Post(job, limit, _) => job.taskId !in s.ids && job.reference !in s.references && 1 <= limit
    case Work(id, _) => id in s.jobs
    case Expire(id) => id in s.world.tasks
    case Mark(id) => id in s.world.tasks && !s.world.tasks[id].live
    case Delete(id) => id in s.world.tasks && !s.world.tasks[id].live
    case Drop(_) => true
  }

  function Step(s: System, e: Event): System {
    if !Enabled(s, e) then s else
    match e
    case Post(job, limit, request) =>
      var w := Posted(s.world, job, request).0;
      System(w, if job.taskId in w.queued then s.jobs[job.taskId := Active(job.reference, 0, limit)] else s.jobs,
             s.ids + {job.taskId}, s.references + {job.reference})
    case Work(id, round) =>
      var active := s.jobs[id];
      var (w, progress) := Played(s.world, Job(id, active.reference), active.made, active.limit, round);
      System(w, if progress == Again then s.jobs[id := active.(made := active.made + 1)] else s.jobs - {id},
             s.ids, s.references)
    case Expire(id) => s.(world := Lapsed(s.world, id))
    case Mark(id) => s.(world := s.world.(tasks := s.world.tasks[id := Row(Expired, false)]))
    case Delete(id) => s.(world := s.world.(tasks := s.world.tasks - {id}))
    case Drop(reference) => s.(world := WithoutReference(s.world, reference))
  }

  const START := System(World(map[], {}, {}, []), map[], {}, {})

  function Run(events: seq<Event>): System {
    if events == [] then START else Step(Run(events[..|events| - 1]), events[|events| - 1])
  }

  lemma RunAppends(events: seq<Event>, e: Event)
    ensures Run(events + [e]) == Step(Run(events), e)
  {
    var longer := events + [e];
    assert longer[..|longer| - 1] == events && longer[|longer| - 1] == e;
  }

  /** Nobody's provider call has returned while its job is still on the queue, nor twice. */
  predicate LogOk(s: System) {
    && s.jobs.Keys <= s.ids && s.world.queued <= s.ids
    && (forall i :: 0 <= i < |s.world.resolved| ==> s.world.resolved[i] in s.ids && s.world.resolved[i] !in s.jobs)
    && (forall i, j :: 0 <= i < j < |s.world.resolved| ==> s.world.resolved[i] != s.world.resolved[j])
  }

  lemma PostIsQuiet(w: World, job: Job, r: Request)
    ensures var t := Posted(w, job, r).0;
            t.resolved == w.resolved && t.queued <= w.queued + {job.taskId}
  {
  }

  lemma StepKeepsLog(s: System, e: Event)
    requires LogOk(s)
    ensures LogOk(Step(s, e))
  {
    if Enabled(s, e) {
      match e {
        case Post(job, limit, request) => PostIsQuiet(s.world, job, request);
        case Work(id, round) =>
          var job := Job(id, s.jobs[id].reference);
          ResolvedEnds(s.world, job, s.jobs[id].made, s.jobs[id].limit, round);
          RoundIsLocal(s.world, job, s.jobs[id].made, s.jobs[id].limit, round);
        case _ =>
      }
    }
  }

  lemma {:induction false} RunKeepsLog(events: seq<Event>)
    ensures LogOk(Run(events))
  {
    if events != [] {
      RunKeepsLog(events[..|events| - 1]);
      StepKeepsLog(Run(events[..|events| - 1]), events[|events| - 1]);
    }
  }

  /** In every run, under every fault, a provider answers each task at most once. */
  lemma NoProviderReplay(events: seq<Event>, i: nat, j: nat)
    requires i < j < |Run(events).world.resolved|
    ensures Run(events).world.resolved[i] != Run(events).world.resolved[j]
  {
    RunKeepsLog(events);
  }

  // ----- what every run keeps

  /** Jobs on the queue have references of their own, and none of their tasks has succeeded. */
  predicate Sound(s: System) {
    && s.world.queued <= s.ids && s.jobs.Keys <= s.ids && s.world.tasks.Keys <= s.ids
    && s.world.held <= s.references
    && (forall id :: id in s.jobs ==>
          && s.jobs[id].reference in s.references
          && (id in s.world.tasks ==> s.world.tasks[id].status != Succeeded))
    && (forall a, b :: a in s.jobs && b in s.jobs && s.jobs[a].reference == s.jobs[b].reference ==> a == b)
  }

  /** A request touches its own task, reference and job only; a job it queues has an open or failed task. */
  lemma PostIsLocal(w: World, job: Job, r: Request)
    requires job.taskId !in w.queued
    ensures var t := Posted(w, job, r).0;
            && t.held - {job.reference} == w.held - {job.reference}
            && t.queued - {job.taskId} == w.queued
            && w.tasks.Keys <= t.tasks.Keys <= w.tasks.Keys + {job.taskId}
            && (forall id :: id in w.tasks && id != job.taskId ==> t.tasks[id] == w.tasks[id])
            && (job.taskId in t.queued ==> job.taskId in t.tasks && t.tasks[job.taskId].status in {Queued, Failed})
  {
  }

  /** The attempt ends in an error that the queue answers with another attempt, if one is left. */
  predicate FailsPlainly(a: Attempt) {
    || a.mark != Works || a.platform == DetectionError
    || (FailReached(a) && a.fail != Works)
    || (!FailReached(a) && a.platform == SamePlatform && a.routing != Resolved)
  }

  /** The attempt comes to `tasks.fail`. */
  predicate FailReached(a: Attempt) {
    && a.mark == Works
    && (a.platform == Mismatch || (a.platform == SamePlatform && a.routing == RoutingError(false) && a.record == Works))
  }

  /** The provider answered. */
  predicate Answered(a: Attempt) {
    a.mark == Works && a.platform == SamePlatform && a.routing == Resolved
  }

  /** How the attempt ends, told from its faults and the row it finds. */
  function OutcomeOf(row: Option<Row>, a: Attempt): Outcome {
    if FailsPlainly(a) then Retryable
    else if Answered(a) && a.prepareOk && a.complete == Works && Alive(row) && !a.lapses then Completed
    else Unrecoverable
  }

  /** The task's row after the attempt: an expired one is left alone. */
  function RowAfter(row: Option<Row>, a: Attempt): Option<Row> {
    if !Alive(row) then row
    else
      var status := if a.mark == Lost then row.value.status else Resolving;
      if a.lapses then Some(Row(status, false))
      else if FailReached(a) then Some(Row(if a.fail == Lost then status else Failed, true))
      else if Answered(a) then
        Some(Row(if a.prepareOk && a.complete != Lost then Succeeded
                 else if a.failAfter != Lost then Failed else status, true))
      else Some(Row(status, true))
  }

  lemma FinishTold(w: World, job: Job, a: Attempt)
    ensures var (t, outcome) := Finish(w, job, a);
            var row := RowOf(w, job.taskId);
            && outcome == (if a.prepareOk && a.complete == Works && Alive(row) then Completed else Unrecoverable)
            && RowOf(t, job.taskId) == (
                 if !Alive(row) then row
                 else if a.prepareOk && a.complete != Lost then Some(Row(Succeeded, true))
                 else if a.failAfter != Lost && Open(row) then Some(Row(Failed, true))
                 else row)
            && t.held == if a.release != Lost then w.held - {job.reference} else w.held
  {
  }

  lemma TerminateTold(w: World, job: Job, a: Attempt)
    ensures var (t, outcome) := Terminate(w, job, a);
            var row := RowOf(w, job.taskId);
            && outcome == (if a.fail == Works then Unrecoverable else Retryable)
            && RowOf(t, job.taskId) == (if Alive(row) && a.fail != Lost then Some(Row(Failed, true)) else row)
            && t.held == if a.fail == Works && a.release != Lost then w.held - {job.reference} else w.held
  {
  }

  lemma MarkedTold(w: World, job: Job, a: Attempt)
    ensures var t, row := Marked(w, job, a), RowOf(w, job.taskId);
            && t.held == w.held
            && RowOf(t, job.taskId) == (
                 if !Alive(row) then row
                 else Some(Row(if a.mark == Lost then row.value.status else Resolving, !a.lapses)))
  {
  }

  lemma AttemptTold(w: World, job: Job, a: Attempt)
    ensures var (t, outcome) := Processed(w, job, a);
            && outcome == OutcomeOf(RowOf(w, job.taskId), a)
            && RowOf(t, job.taskId) == RowAfter(RowOf(w, job.taskId), a)
            && t.held == if outcome != Retryable && a.release != Lost then w.held - {job.reference} else w.held
  {
    var marked := Marked(w, job, a);
    MarkedTold(w, job, a);
    TerminateTold(marked, job, a);
    FinishTold(marked.(resolved := marked.resolved + [job.taskId]), job, a);
  }

  /** The exhausted-job handler comes to fail this task, and the failure is stored. */
  predicate HandlerCloses(row: Option<Row>, made: nat, limit: nat, r: Round) {
    && OutcomeOf(row, r.attempt) != Completed && limit <= made + 1
    && r.handler.get == Works && Open(RowAfter(row, r.attempt)) && r.handler.failIf != Lost
  }

  /** The attempt or the handler gives the reference back. */
  predicate GivenBack(row: Option<Row>, made: nat, limit: nat, r: Round) {
    || (OutcomeOf(row, r.attempt) != Retryable && r.attempt.release != Lost)
    || (HandlerCloses(row, made, limit, r) && r.handler.failIf == Works && r.handler.release != Lost)
  }

  /** The row after a whole round. */
  function RowAfterRound(row: Option<Row>, made: nat, limit: nat, r: Round): Option<Row> {
    if HandlerCloses(row, made, limit, r) then Some(Row(Failed, true)) else RowAfter(row, r.attempt)
  }

  lemma RoundTold(w: World, job: Job, made: nat, limit: nat, r: Round)
    ensures var (t, progress) := Played(w, job, made, limit, r);
            var row := RowOf(w, job.taskId);
            && (progress == Again <==> FailsPlainly(r.attempt) && made + 1 < limit)
            && RowOf(t, job.taskId) == RowAfterRound(row, made, limit, r)
            && t.held == (if GivenBack(row, made, limit, r) then w.held - {job.reference} else w.held)
  {
    AttemptTold(w, job, r.attempt);
  }

  lemma PostKeepsSound(s: System, e: Event)
    requires Sound(s) && e.Post?
    ensures Sound(Step(s, e))
  {
    if Enabled(s, e) {
      PostIsLocal(s.world, e.job, e.request);
      assert Posted(s.world, e.job, e.request).0.held <= s.world.held + {e.job.reference};
    }
  }

  lemma WorkKeepsSound(s: System, e: Event)
    requires Sound(s) && e.Work?
    ensures Sound(Step(s, e))
  {
    if Enabled(s, e) {
      var active := s.jobs[e.id];
      var job := Job(e.id, active.reference);
      RoundTold(s.world, job, active.made, active.limit, e.round);
      RoundIsLocal(s.world, job, active.made, active.limit, e.round);
    }
  }

  lemma {:induction false} RunIsSound(events: seq<Event>)
    ensures Sound(Run(events))
  {
    if events != [] {
      RunIsSound(events[..|events| - 1]);
      var s, e := Run(events[..|events| - 1]), events[|events| - 1];
      if e.Post? {
        PostKeepsSound(s, e);
      } else if e.Work? {
        WorkKeepsSound(s, e);
      }
    }
  }

  // ----- references over runs

  function ReferencesOf(jobs: map<TaskId, Active>): set<Reference> {
    set id | id in jobs :: jobs[id].reference
  }

  /** The references held are exactly those of the jobs on the queue. */
  predicate Conserved(s: System) {
    s.world.held == ReferencesOf(s.jobs)
  }

  /** The step parts a reference from its job: one of the two stays without the other. */
  predicate Separates(s: System, e: Event) {
    Enabled(s, e) &&
    match e
    case Post(_, _, r) =>
      if r.quota == Accept && r.admission == Created && r.add == LateError then r.release != Lost
      else r.release == Lost && TakenInVain(r)
    case Work(id, round) =>
      && (!FailsPlainly(round.attempt) || s.jobs[id].limit <= s.jobs[id].made + 1)
      && !GivenBack(RowOf(s.world, id), s.jobs[id].made, s.jobs[id].limit, round)
    case Drop(reference) => reference in ReferencesOf(s.jobs)
    case _ => false
  }

  /** A reference was taken for a request that queues no job. */
  predicate TakenInVain(r: Request) {
    r.quota == QuotaError(true) || (r.quota == Accept && (r.admission != Created || r.add == Lost))
  }

  lemma PostTold(w: World, job: Job, r: Request)
    requires job.reference !in w.held && job.taskId !in w.queued
    ensures var t := Posted(w, job, r).0;
            && (job.taskId in t.queued <==> r.quota == Accept && r.admission == Created && r.add != Lost)
            && (job.reference in t.held <==>
                  if r.quota == Accept && r.admission == Created && r.add == Works then true
                  else if r.quota == Accept && r.admission == Created && r.add == LateError then r.release == Lost
                  else r.release == Lost && TakenInVain(r))
  {
  }

  /** A set of references that differs from those of the jobs in nothing but `reference`. */
  lemma HeldByOthers(held: set<Reference>, jobs: map<TaskId, Active>, id: TaskId, reference: Reference,
                     held': set<Reference>, jobs': map<TaskId, Active>)
    requires held == ReferencesOf(jobs)
    requires held' - {reference} == held - {reference}
    requires jobs'.Keys - {id} == jobs.Keys - {id}
    requires forall a :: a in jobs && a != id ==> a in jobs' && jobs'[a].reference == jobs[a].reference != reference
    requires id in jobs ==> jobs[id].reference == reference
    requires id in jobs' ==> jobs'[id].reference == reference
    ensures held' == ReferencesOf(jobs') <==> (reference in held' <==> id in jobs')
  {
    forall other | other != reference ensures other in held' <==> other in ReferencesOf(jobs') {
      if other in held' {
        assert other in held' - {reference};
        assert other in ReferencesOf(jobs);
        var a :| a in jobs && jobs[a].reference == other;
        assert a in jobs'.Keys - {id};
      }
      if other in ReferencesOf(jobs') {
        var a :| a in jobs' && jobs'[a].reference == other;
        assert a in jobs.Keys - {id};
        assert other in held - {reference};
      }
    }
    assert reference in ReferencesOf(jobs') <==> id in jobs' by {
      if reference in ReferencesOf(jobs') {
        var a :| a in jobs' && jobs'[a].reference == reference;
        assert a != id ==> a in jobs.Keys - {id};
      }
    }
  }

  lemma PostConservesIff(s: System, e: Event)
    requires Sound(s) && Conserved(s) && e.Post?
    ensures Conserved(Step(s, e)) <==> !Separates(s, e)
  {
    if Enabled(s, e) {
      var t := Step(s, e);
      PostIsLocal(s.world, e.job, e.request);
      PostTold(s.world, e.job, e.request);
      HeldByOthers(s.world.held, s.jobs, e.job.taskId, e.job.reference, t.world.held, t.jobs);
    }
  }

  lemma WorkConservesIff(s: System, e: Event)
    requires Sound(s) && Conserved(s) && e.Work?
    ensures Conserved(Step(s, e)) <==> !Separates(s, e)
  {
    if Enabled(s, e) {
      var t := Step(s, e);
      var active := s.jobs[e.id];
      var job := Job(e.id, active.reference);
      RoundTold(s.world, job, active.made, active.limit, e.round);
      RoundIsLocal(s.world, job, active.made, active.limit, e.round);
      assert active.reference in ReferencesOf(s.jobs);
      HeldByOthers(s.world.held, s.jobs, e.id, active.reference, t.world.held, t.jobs);
    }
  }

  /** After every step of the run. */
  predicate AlwaysConserved(events: seq<Event>) {
    Conserved(Run(events)) && (events != [] ==> AlwaysConserved(events[..|events| - 1]))
  }

  /** No step of the run separates. */
  predicate NeverSeparates(events: seq<Event>) {
    events != [] ==>
      var before := events[..|events| - 1];
      NeverSeparates(before) && !Separates(Run(before), events[|events| - 1])
  }

  /**
   In every run, under every fault: after every step the references held are exactly those of the jobs
   that are queued or wait for another attempt, if and only if no step separates a reference from its job.
   */
  lemma {:induction false} ReferencesConserved(events: seq<Event>)
    ensures AlwaysConserved(events) <==> NeverSeparates(events)
  {
    if events != [] {
      var before, e := events[..|events| - 1], events[|events| - 1];
      ReferencesConserved(before);
      RunIsSound(before);
      if Conserved(Run(before)) {
        if e.Post? {
          PostConservesIff(Run(before), e);
        } else if e.Work? {
          WorkConservesIff(Run(before), e);
        }
      }
    }
  }

  /** Releases take effect and the exhausted-job handler's calls work. */
  predicate CallsWork(e: Event) {
    match e
    case Post(_, _, request) => request.release != Lost
    case Work(_, round) =>
      && round.attempt.release != Lost && round.handler.release != Lost
      && round.handler.get == Works && round.handler.failIf == Works
    case _ => true
  }

  /** What the handler finds after the last attempt is no open task: it expired, is gone or is terminal already. */
  predicate NothingToClose(row: Option<Row>, a: Attempt) {
    || !Alive(row) || a.lapses
    || (FailReached(a) && a.fail == LateError)
    || (a.mark == Lost && row.value.status.Terminal())
  }

  /**
   When those calls work, three things are left that separate: the queue reports an error for a job it has
   accepted; the reference of a job outlives its permit; and a last attempt fails plainly over a row that
   has expired or is gone, or over a task that is terminal, either because its own `tasks.fail` reported an
   error after taking effect, or because an earlier one did and the new attempt was not even marked.
   */
  lemma SeparatesDespiteWorkingCalls(s: System, e: Event)
    requires Sound(s) && Enabled(s, e) && CallsWork(e)
    ensures Separates(s, e) <==>
              match e
              case Post(_, _, r) => r.quota == Accept && r.admission == Created && r.add == LateError
              case Work(id, round) =>
                && s.jobs[id].limit <= s.jobs[id].made + 1 && FailsPlainly(round.attempt)
                && NothingToClose(RowOf(s.world, id), round.attempt)
              case Drop(reference) => reference in ReferencesOf(s.jobs)
              case _ => false
  {
  }

  const WORKING := Handler(Works, Works, Works)

  lemma PostedAndQueued(limit: nat)
    requires 1 <= limit
    ensures var post := Post(Job("t", "r"), limit, Request(Accept, Created, Works, Works, Works));
            Run([post]) == System(World(map["t" := Row(Queued, true)], {"r"}, {"t"}, []),
                                  map["t" := Active("r", 0, limit)], {"t"}, {"r"})
  {
    var post := Post(Job("t", "r"), limit, Request(Accept, Created, Works, Works, Works));
    RunAppends([], post);
    assert [] + [post] == [post];
  }

  /** The late failure of a last attempt: the job is over, its task failed, its reference still held. */
  lemma LateFailureKeepsReference() returns (post: Event, work: Event)
    ensures CallsWork(post) && CallsWork(work)
    ensures var s := Run([post, work]);
            s.jobs == map[] && s.world.tasks == map["t" := Row(Failed, true)] && s.world.held == {"r"}
  {
    post := Post(Job("t", "r"), 1, Request(Accept, Created, Works, Works, Works));
    var attempt :=
      Attempt(Works, false, SamePlatform, RoutingError(false), Works, LateError, true, Works, Works, Works);
    work := Work("t", Round(attempt, WORKING));
    PostedAndQueued(1);
    RunAppends([post], work);
    assert [post] + [work] == [post, work];
  }

  /** The same when the row's deadline passes while the last attempt runs: no call fails, and nobody releases. */
  lemma LapseKeepsReference() returns (post: Event, work: Event)
    ensures CallsWork(post) && CallsWork(work) && work.Work?
    ensures work.round.attempt.mark == Works && work.round.attempt.record == Works && work.round.attempt.fail == Works
    ensures var s := Run([post, work]);
            s.jobs == map[] && s.world.tasks == map["t" := Row(Resolving, false)] && s.world.held == {"r"}
  {
    post := Post(Job("t", "r"), 1, Request(Accept, Created, Works, Works, Works));
    var attempt := Attempt(Works, true, SamePlatform, RoutingError(true), Works, Works, true, Works, Works, Works);
    work := Work("t", Round(attempt, WORKING));
    PostedAndQueued(1);
    RunAppends([post], work);
    assert [post] + [work] == [post, work];
  }

  /** A held reference that belongs to no job. */
  predicate Leaked(s: System, reference: Reference) {
    reference in s.world.held && reference in s.references && reference !in ReferencesOf(s.jobs)
  }

  lemma StepKeepsLeak(s: System, e: Event, reference: Reference)
    requires Sound(s) && Leaked(s, reference)
    ensures if e == Drop(reference) then reference !in Step(s, e).world.held else Leaked(Step(s, e), reference)
    ensures reference in Step(s, e).references && reference !in ReferencesOf(Step(s, e).jobs)
  {
    if Enabled(s, e) {
      match e {
        case Post(job, _, request) =>
          PostIsLocal(s.world, job, request);
          assert reference in s.world.held - {job.reference};
        case Work(id, round) =>
          assert s.jobs[id].reference in ReferencesOf(s.jobs);
          RoundIsLocal(s.world, Job(id, s.jobs[id].reference), s.jobs[id].made, s.jobs[id].limit, round);
          assert reference in s.world.held - {s.jobs[id].reference};
        case _ =>
      }
    }
  }

  lemma StepKeepsLoss(s: System, e: Event, reference: Reference)
    requires Sound(s) && reference in s.references && reference !in ReferencesOf(s.jobs) && reference !in s.world.held
    ensures var t := Step(s, e);
            reference in t.references && reference !in ReferencesOf(t.jobs) && reference !in t.world.held
  {
    if Enabled(s, e) {
      match e {
        case Post(job, _, request) =>
          PostIsLocal(s.world, job, request);
          assert reference !in s.world.held - {job.reference};
        case Work(id, round) =>
          assert s.jobs[id].reference in ReferencesOf(s.jobs);
          RoundIsLocal(s.world, Job(id, s.jobs[id].reference), s.jobs[id].made, s.jobs[id].limit, round);
          assert reference !in s.world.held - {s.jobs[id].reference};
        case _ =>
      }
    }
  }

  /** Nothing but its own lifetime ends a reference that has lost its job. */
  lemma {:induction false} LeakedUntilDropped(before: seq<Event>, after: seq<Event>, reference: Reference)
    requires Leaked(Run(before), reference)
    ensures var t := Run(before + after);
            && (reference in t.world.held <==> Drop(reference) !in after)
            && reference in t.references && reference !in ReferencesOf(t.jobs)
  {
    if after == [] {
      assert before + after == before;
    } else {
      var n := |after| - 1;
      LeakedUntilDropped(before, after[..n], reference);
      assert before + after == before + after[..n] + [after[n]] && after == after[..n] + [after[n]];
      RunAppends(before + after[..n], after[n]);
      RunIsSound(before + after[..n]);
      if Drop(reference) in after[..n] {
        StepKeepsLoss(Run(before + after[..n]), after[n], reference);
      } else {
        StepKeepsLeak(Run(before + after[..n]), after[n], reference);
      }
    }
  }

  // ----- every open task is somebody's work

  /** Every task that can be found and is not terminal has a job on the queue. */
  predicate Attended(s: System) {
    forall id :: id in s.world.tasks && Open(RowOf(s.world, id)) ==> id in s.jobs
  }

  /**
   The step leaves an open task without a job: an insertion that reported an error after it was committed, a
   queue call and the failure write behind it both lost, or the end of a job whose closing writes were lost.
   */
  predicate Orphans(s: System, e: Event) {
    Enabled(s, e) &&
    match e
    case Post(_, _, r) =>
      r.quota == Accept && (r.admission == AdmissionError(true)
                            || (r.admission == Created && r.add == Lost && r.fail == Lost))
    case Work(id, round) =>
      && Alive(RowOf(s.world, id)) && !round.attempt.lapses
      && (!FailsPlainly(round.attempt) || s.jobs[id].limit <= s.jobs[id].made + 1)
      && LeftOpen(s.world.tasks[id], s.jobs[id].made, s.jobs[id].limit, round)
    case _ => false
  }

  lemma PostAttends(s: System, e: Event)
    requires Sound(s) && Attended(s) && e.Post?
    ensures Attended(Step(s, e)) <==> !Orphans(s, e)
  {
    if Enabled(s, e) {
      var t, id := Step(s, e), e.job.taskId;
      PostIsLocal(s.world, e.job, e.request);
      PostTold(s.world, e.job, e.request);
      PostTellsRow(s.world, e.job, e.request);
      assert Open(RowOf(t.world, id)) && id !in t.jobs <==> Orphans(s, e);
      forall other | other in t.world.tasks && other != id && Open(RowOf(t.world, other)) ensures other in t.jobs {
        assert RowOf(t.world, other) == RowOf(s.world, other);
      }
    }
  }

  lemma WorkAttends(s: System, e: Event)
    requires Sound(s) && Attended(s) && e.Work?
    ensures Attended(Step(s, e)) <==> !Orphans(s, e)
  {
    if Enabled(s, e) {
      var t := Step(s, e);
      var active := s.jobs[e.id];
      var job := Job(e.id, active.reference);
      RoundTold(s.world, job, active.made, active.limit, e.round);
      RoundIsLocal(s.world, job, active.made, active.limit, e.round);
      assert Open(RowOf(t.world, e.id)) && e.id !in t.jobs <==> Orphans(s, e);
      forall other | other in t.world.tasks && other != e.id && Open(RowOf(t.world, other)) ensures other in t.jobs {
        assert RowOf(t.world, other) == RowOf(s.world, other);
      }
    }
  }

  predicate AlwaysAttended(events: seq<Event>) {
    Attended(Run(events)) && (events != [] ==> AlwaysAttended(events[..|events| - 1]))
  }

  predicate NeverOrphans(events: seq<Event>) {
    events != [] ==>
      var before := events[..|events| - 1];
      NeverOrphans(before) && !Orphans(Run(before), events[|events| - 1])
  }

  /**
   In every run, under every fault: after every step each task that can be found and is not terminal is
   queued, running or waiting for another attempt, if and only if no step leaves one behind.
   */
  lemma {:induction false} TasksAttended(events: seq<Event>)
    ensures AlwaysAttended(events) <==> NeverOrphans(events)
  {
    if events != [] {
      var before, e := events[..|events| - 1], events[|events| - 1];
      TasksAttended(before);
      RunIsSound(before);
      if Attended(Run(before)) {
        if e.Post? {
          PostAttends(Run(before), e);
        } else if e.Work? {
          WorkAttends(Run(before), e);
        }
      }
    }
  }

  // ----- tasks over runs

  /** The store writes that could have closed the task were lost or came too late, or nobody was left to make them. */
  predicate LeftOpen(row: Row, made: nat, limit: nat, r: Round) {
    var a := r.attempt;
    var unmarked := a.mark == Lost && row.status.Terminal();
    if !row.live then !row.status.Terminal()
    else if a.lapses then !unmarked
    else if Answered(a) then
      !(a.prepareOk && a.complete != Lost) && a.failAfter == Lost && !HandlerWrites(made, limit, r.handler)
    else
      !(FailReached(a) && a.fail != Lost) && !unmarked && !HandlerWrites(made, limit, r.handler)
  }

  predicate HandlerWrites(made: nat, limit: nat, h: Handler) {
    limit <= made + 1 && h.get == Works && h.failIf != Lost
  }

  /** What time alone makes of a row. */
  function Fate(row: Option<Row>, events: seq<Event>, id: TaskId): Option<Row> {
    if events == [] then row
    else FateStep(Fate(row, events[..|events| - 1], id), events[|events| - 1], id)
  }

  function FateStep(row: Option<Row>, e: Event, id: TaskId): Option<Row> {
    if row == None then None
    else if e == Expire(id) then Some(row.value.(live := false))
    else if e == Mark(id) && !row.value.live then Some(Row(Expired, false))
    else if e == Delete(id) && !row.value.live then None
    else row
  }

  /** Time changes a status only to expired, and only after the deadline. */
  lemma {:induction false} FateTold(row: Option<Row>, events: seq<Event>, id: TaskId)
    ensures var fate := Fate(row, events, id);
            && (fate.Some? ==> row.Some? && (fate.value.live ==> row.value.live))
            && (fate.Some? && fate.value.live ==> fate == row)
            && (fate.Some? && fate.value.status != row.value.status ==> fate.value.status == Expired)
            && (row.Some? && row.value.live && Expire(id) !in events ==> fate == row)
            && (fate.Some? && Mark(id) !in events ==> fate.value.status == row.value.status)
  {
    if events != [] {
      FateTold(row, events[..|events| - 1], id);
      assert events == events[..|events| - 1] + [events[|events| - 1]];
    }
  }

  /** The task is known, and no job is left that could find its row. */
  predicate Settled(s: System, id: TaskId) {
    id in s.ids && (id !in s.jobs || !Alive(RowOf(s.world, id)))
  }

  lemma StepKeepsSettled(s: System, e: Event, id: TaskId)
    requires Sound(s) && Settled(s, id)
    ensures Settled(Step(s, e), id) && RowOf(Step(s, e).world, id) == FateStep(RowOf(s.world, id), e, id)
  {
    if Enabled(s, e) {
      match e {
        case Post(job, _, request) => PostIsLocal(s.world, job, request);
        case Work(other, round) =>
          var job := Job(other, s.jobs[other].reference);
          RoundIsLocal(s.world, job, s.jobs[other].made, s.jobs[other].limit, round);
          RoundTold(s.world, job, s.jobs[other].made, s.jobs[other].limit, round);
        case _ =>
      }
    }
  }

  lemma {:induction false} OnlyTimeIsLeft(before: seq<Event>, after: seq<Event>, id: TaskId)
    requires Settled(Run(before), id)
    ensures Settled(Run(before + after), id)
    ensures RowOf(Run(before + after).world, id) == Fate(RowOf(Run(before).world, id), after, id)
  {
    if after == [] {
      assert before + after == before;
    } else {
      var n := |after| - 1;
      OnlyTimeIsLeft(before, after[..n], id);
      assert before + after == before + after[..n] + [after[n]];
      RunAppends(before + after[..n], after[n]);
      RunIsSound(before + after[..n]);
      StepKeepsSettled(Run(before + after[..n]), after[n], id);
    }
  }

  /**
   In every run: when a job has ended for good, its stored task is terminal except exactly when the closing
   writes were lost or the row had expired before them; from then on only time changes the row. So an open
   task stays open until the cleanup marks it.
   */
  lemma TaskClosedIffWriteReached(before: seq<Event>, id: TaskId, round: Round, after: seq<Event>)
    requires id in Run(before).jobs && id !in Step(Run(before), Work(id, round)).jobs
    requires id in Run(before).world.tasks
    ensures var s, ended := Run(before), Run(before + [Work(id, round)]);
            && id in ended.world.tasks
            && (ended.world.tasks[id].status.Terminal() <==>
                !LeftOpen(s.world.tasks[id], s.jobs[id].made, s.jobs[id].limit, round))
            && RowOf(Run(before + [Work(id, round)] + after).world, id)
               == Fate(Some(ended.world.tasks[id]), after, id)
  {
    var s, e := Run(before), Work(id, round);
    RunIsSound(before);
    RoundTold(s.world, Job(id, s.jobs[id].reference), s.jobs[id].made, s.jobs[id].limit, round);
    RunAppends(before, e);
    OnlyTimeIsLeft(before + [e], after, id);
  }

  /** The stored status is this one, or time has made it expired. */
  predicate KeptOrExpired(row: Option<Row>, status: Status) {
    row.Some? ==> row.value.status == status || row.value.status == Expired
  }

  /**
   A terminal status, once stored, is replaced by no other than expired, whatever comes, exactly when the
   task has no job on the queue any more or its row has expired.
   */
  lemma TerminalFinalIffJobGone(events: seq<Event>, id: TaskId)
    requires id in Run(events).world.tasks && Run(events).world.tasks[id].status.Terminal()
    ensures (forall after: seq<Event> ::
               KeptOrExpired(RowOf(Run(events + after).world, id), Run(events).world.tasks[id].status))
            <==> (id !in Run(events).jobs || !Run(events).world.tasks[id].live)
  {
    var s := Run(events);
    RunIsSound(events);
    if Settled(s, id) {
      forall after: seq<Event> ensures KeptOrExpired(RowOf(Run(events + after).world, id), s.world.tasks[id].status) {
        OnlyTimeIsLeft(events, after, id);
        FateTold(Some(s.world.tasks[id]), after, id);
      }
    } else {
      var attempt := Attempt(LateError, false, SamePlatform, OtherError, Works, Works, true, Works, Works, Works);
      var e := Work(id, Round(attempt, Handler(Lost, Works, Works)));
      RunAppends(events, e);
      RoundTold(s.world, Job(id, s.jobs[id].reference), s.jobs[id].made, s.jobs[id].limit, e.round);
      assert !KeptOrExpired(RowOf(Run(events + [e]).world, id), s.world.tasks[id].status);
    }
  }

  /**
   A task that succeeded has no job any more: until its deadline its row stays as it is, whatever comes, and
   after it only the cleanup marks the row as expired or deletes it.
   */
  lemma SucceededIsFinal(events: seq<Event>, after: seq<Event>, id: TaskId)
    requires id in Run(events).world.tasks && Run(events).world.tasks[id].status == Succeeded
    ensures var row := Run(events).world.tasks[id];
            && RowOf(Run(events + after).world, id) == Fate(Some(row), after, id)
            && (row.live && Expire(id) !in after ==> RowOf(Run(events + after).world, id) == Some(row))
            && KeptOrExpired(RowOf(Run(events + after).world, id), Succeeded)
  {
    RunIsSound(events);
    OnlyTimeIsLeft(events, after, id);
    FateTold(Some(Run(events).world.tasks[id]), after, id);
  }

  /**
   With attempts left, an unrecoverable end skips the exhausted-job handler: if the one write of the
   worker is lost, the task stays open although every call of the handler would have worked, and in every
   continuation only time changes it.
   */
  lemma LostWriteLeavesTaskOpen(after: seq<Event>) returns (post: Event, work: Event)
    ensures CallsWork(post) && CallsWork(work)
    ensures var s := Run([post, work]);
            s.jobs == map[] && s.world.tasks == map["t" := Row(Resolving, true)] && s.world.held == {}
    ensures var row := RowOf(Run([post, work] + after).world, "t");
            && row == Fate(Some(Row(Resolving, true)), after, "t")
            && (row.Some? && Mark("t") !in after ==> row.value.status == Resolving)
  {
    post := Post(Job("t", "r"), 3, Request(Accept, Created, Works, Works, Works));
    var attempt := Attempt(Works, false, SamePlatform, Resolved, Works, Works, true, Lost, Lost, Works);
    work := Work("t", Round(attempt, WORKING));
    PostedAndQueued(3);
    RunAppends([post], work);
    assert [post] + [work] == [post, work];
    OnlyTimeIsLeft([post, work], after, "t");
    FateTold(Some(Row(Resolving, true)), after, "t");
  }

  /** A failed task is not final: after a late queue error the job runs all the same, and the task succeeds. */
  lemma FailedTaskSucceeds() returns (post: Event, work: Event)
    ensures Run([post]).world.tasks == map["t" := Row(Failed, true)]
    ensures Run([post, work]).world.tasks == map["t" := Row(Succeeded, true)]
  {
    post := Post(Job("t", "r"), 1, Request(Accept, Created, LateError, Works, Works));
    var attempt := Attempt(Works, false, SamePlatform, Resolved, Works, Works, true, Works, Works, Works);
    work := Work("t", Round(attempt, WORKING));
    assert [post][..0] == [] && [post, work][..1] == [post];
    assert Run([post])
        == System(World(map["t" := Row(Failed, true)], {}, {"t"}, []), map["t" := Active("r", 0, 1)], {"t"}, {"r"});
  }
}
