/**
  backend/core/execution.py: worker leases, reclaiming the jobs of dead workers, and the
  two-phase cancellation of jobs.  Each committed transaction is one atomic step.
 */
module Execution {
  import opened Wrappers

  type WorkerId = string
  type JobId = string

  datatype LeaseStatus = Active | Released | Dead

  datatype Lease = Lease(
    hostname: string, pid: int, startedAt: int, lastHeartbeat: int, status: LeaseStatus,
    currentJob: Option<JobId>, currentNode: Option<string>)

  /** Statuses other than these four are written by code outside this model. */
  datatype JobStatus = Pending | Running | Cancelling | Cancelled | Other(name: string)

  datatype Job = Job(status: JobStatus, updatedAt: int)

  datatype Fleet = Fleet(leases: map<WorkerId, Lease>, jobs: map<JobId, Job>)

  function AcquireLease(f: Fleet, worker: WorkerId, hostname: string, pid: int, now: int): Fleet {
    f.(leases := f.leases[worker := Lease(hostname, pid, now, now, Active, None, None)])
  }

  function Heartbeat(f: Fleet, worker: WorkerId, job: Option<JobId>, node: Option<string>, now: int): Fleet {
    if worker in f.leases && f.leases[worker].status == Active then
      f.(leases := f.leases[worker := f.leases[worker].(lastHeartbeat := now, currentJob := job, currentNode := node)])
    else f
  }

  function ReleaseLease(f: Fleet, worker: WorkerId, now: int): Fleet {
    if worker !in f.leases then f
    else
      f.(leases := f.leases[worker := f.leases[worker].(
           status := Released, currentJob := None, currentNode := None, lastHeartbeat := now)])
  }

  function FindDeadWorkers(f: Fleet, timeout: int, now: int): set<WorkerId> {
    set w | w in f.leases && f.leases[w].status == Active && f.leases[w].lastHeartbeat < now - timeout
  }

  /** The job a worker is recorded as processing; the empty id counts as none. */
  function HeldJob(f: Fleet, worker: WorkerId): Option<JobId> {
    if worker in f.leases && f.leases[worker].currentJob.Some? && f.leases[worker].currentJob.value != "" then
      f.leases[worker].currentJob
    else None
  }

  function ResetIfRunning(jobs: map<JobId, Job>, job: JobId, now: int): map<JobId, Job> {
    if job in jobs && jobs[job].status == Running then jobs[job := Job(Pending, now)] else jobs
  }

  function Bury(leases: map<WorkerId, Lease>, worker: WorkerId): map<WorkerId, Lease> {
    if worker in leases then leases[worker := leases[worker].(status := Dead, currentJob := None, currentNode := None)]
    else leases
  }

  function ClaimOne(f: Fleet, worker: WorkerId, now: int): Fleet {
    var job := HeldJob(f, worker);
    Fleet(Bury(f.leases, worker), if job.Some? then ResetIfRunning(f.jobs, job.value, now) else f.jobs)
  }

  function Reclaimed(f: Fleet, workers: seq<WorkerId>, now: int): seq<JobId>
    decreases workers
  {
    if workers == [] then []
    else (if HeldJob(f, workers[0]).Some? then [HeldJob(f, workers[0]).value] else [])
         + Reclaimed(ClaimOne(f, workers[0], now), workers[1..], now)
  }

  function ClaimEach(f: Fleet, workers: seq<WorkerId>, now: int): Fleet
    decreases workers
  {
    if workers == [] then f else ClaimEach(ClaimOne(f, workers[0], now), workers[1..], now)
  }

  function RequestCancellation(f: Fleet, job: JobId, now: int): Fleet {
    if job in f.jobs && (f.jobs[job].status == Pending || f.jobs[job].status == Running) then
      f.(jobs := f.jobs[job := Job(Cancelling, now)])
    else f
  }

  /** Whatever the status was. */
  function CompleteCancellation(f: Fleet, job: JobId, now: int): Fleet {
    if job in f.jobs then f.(jobs := f.jobs[job := Job(Cancelled, now)]) else f
  }

  // ---------------------------------------------------------------- the class

  /** The two managers share one database. */
  class ExecutionStore {
    var leases: map<WorkerId, Lease>
    var jobs: map<JobId, Job>

    ghost function State(): Fleet
      reads this
    {
      Fleet(leases, jobs)
    }

    constructor (jobs: map<JobId, Job>)
      ensures State() == Fleet(map[], jobs)
    {
      this.leases, this.jobs := map[], jobs;
    }

    method Acquire(worker: WorkerId, hostname: string, pid: int, now: int)
      modifies this
      ensures State() == AcquireLease(old(State()), worker, hostname, pid, now)
    {
      leases := leases[worker := Lease(hostname, pid, now, now, Active, None, None)];
    }

    method Beat(worker: WorkerId, job: Option<JobId>, node: Option<string>, now: int)
      modifies this
      ensures State() == Heartbeat(old(State()), worker, job, node, now)
    {
      if worker in leases && leases[worker].status == Active {
        leases := leases[worker := leases[worker].(lastHeartbeat := now, currentJob := job, currentNode := node)];
      }
    }

    method Release(worker: WorkerId, now: int)
      modifies this
      ensures State() == ReleaseLease(old(State()), worker, now)
    {
      if worker in leases {
        leases := leases[worker := leases[worker].(
          status := Released, currentJob := None, currentNode := None, lastHeartbeat := now)];
      }
    }

    method ClaimOrphanedJobs(workers: seq<WorkerId>, now: int) returns (reclaimed: seq<JobId>)
      modifies this
      ensures State() == ClaimEach(old(State()), workers, now)
      ensures reclaimed == Reclaimed(old(State()), workers, now)
    {
      reclaimed := [];
      for i := 0 to |workers|
        invariant ClaimEach(State(), workers[i..], now) == ClaimEach(old(State()), workers, now)
        invariant reclaimed + Reclaimed(State(), workers[i..], now) == Reclaimed(old(State()), workers, now)
      {
        var worker := workers[i];
        ghost var before, done := State(), reclaimed;
        ghost var rest := Reclaimed(ClaimOne(before, worker, now), workers[i + 1..], now);
        assert workers[i..][1..] == workers[i + 1..];
        var held: seq<JobId> := [];
        if worker in leases && leases[worker].currentJob.Some? && leases[worker].currentJob.value != "" {
          var job := leases[worker].currentJob.value;
          if job in jobs && jobs[job].status == Running {
            jobs := jobs[job := Job(Pending, now)];
          }
          held := [job];
        }
        reclaimed := reclaimed + held;
        if worker in leases {
          leases := leases[worker := leases[worker].(status := Dead, currentJob := None, currentNode := None)];
        }
        assert State() == ClaimOne(before, worker, now);
        assert Reclaimed(before, workers[i..], now) == held + rest;
        assert (done + held) + rest == done + (held + rest);
      }
      assert workers[|workers|..] == [] && reclaimed + [] == reclaimed;
    }

    method Request(job: JobId, now: int)
      modifies this
      ensures State() == RequestCancellation(old(State()), job, now)
      ensures forall j :: j in old(jobs) && j != job ==> j in jobs && jobs[j] == old(jobs)[j]
    {
      if job in jobs && (jobs[job].status == Pending || jobs[job].status == Running) {
        jobs := jobs[job := Job(Cancelling, now)];
      }
    }

    method Complete(job: JobId, now: int)
      modifies this
      ensures State() == CompleteCancellation(old(State()), job, now)
      ensures forall j :: j in old(jobs) && j != job ==> j in jobs && jobs[j] == old(jobs)[j]
    {
      if job in jobs {
        jobs := jobs[job := Job(Cancelled, now)];
      }
    }
  }

  // --------------------------------------------------- the loop and its order

  predicate HeldByOneOf(f: Fleet, workers: set<WorkerId>, job: JobId) {
    exists w :: w in workers && HeldJob(f, w) == Some(job)
  }

  /** All listed workers at once: bury them, and reset the running jobs that they hold. */
  function ClaimTogether(f: Fleet, workers: set<WorkerId>, now: int): Fleet {
    Fleet(
      map w | w in f.leases ::
        if w in workers then f.leases[w].(status := Dead, currentJob := None, currentNode := None) else f.leases[w],
      map j | j in f.jobs ::
        if f.jobs[j].status == Running && HeldByOneOf(f, workers, j) then Job(Pending, now) else f.jobs[j])
  }

  function AsSet(workers: seq<WorkerId>): set<WorkerId> {
    set w | w in workers
  }

  lemma HeldAfterOne(f: Fleet, first: WorkerId, rest: set<WorkerId>, job: JobId, now: int)
    ensures HeldJob(f, first) == Some(job) || HeldByOneOf(ClaimOne(f, first, now), rest, job)
            <==> HeldByOneOf(f, rest + {first}, job)
  {
    var g := ClaimOne(f, first, now);
    forall w ensures w != first ==> HeldJob(g, w) == HeldJob(f, w) {}
    assert HeldJob(g, first) == None;
    if HeldByOneOf(f, rest + {first}, job) && HeldJob(f, first) != Some(job) {
      var w :| w in rest + {first} && HeldJob(f, w) == Some(job);
      assert w in rest && HeldJob(g, w) == Some(job);
    }
    if HeldByOneOf(g, rest, job) {
      var w :| w in rest && HeldJob(g, w) == Some(job);
      assert w in rest + {first} && HeldJob(f, w) == Some(job);
    }
  }

  lemma OneThenTogether(f: Fleet, first: WorkerId, rest: set<WorkerId>, now: int)
    ensures ClaimTogether(ClaimOne(f, first, now), rest, now) == ClaimTogether(f, rest + {first}, now)
  {
    var g := ClaimOne(f, first, now);
    var a, b := ClaimTogether(g, rest, now), ClaimTogether(f, rest + {first}, now);
    assert a.leases == b.leases;
    assert g.jobs.Keys == f.jobs.Keys;
    forall j | j in f.jobs ensures a.jobs[j] == b.jobs[j] {
      HeldAfterOne(f, first, rest, j, now);
    }
    assert a.jobs == b.jobs;
  }

  /** The loop is one simultaneous update, so the order of the workers and repetitions do not matter. */
  lemma {:induction false} LoopIsSimultaneous(f: Fleet, workers: seq<WorkerId>, now: int)
    ensures ClaimEach(f, workers, now) == ClaimTogether(f, AsSet(workers), now)
    decreases workers
  {
    if workers == [] {
      assert ClaimTogether(f, {}, now).leases == f.leases;
      assert ClaimTogether(f, {}, now).jobs == f.jobs;
    } else {
      LoopIsSimultaneous(ClaimOne(f, workers[0], now), workers[1..], now);
      OneThenTogether(f, workers[0], AsSet(workers[1..]), now);
      assert workers == [workers[0]] + workers[1..];
      assert AsSet(workers) == AsSet(workers[1..]) + {workers[0]};
    }
  }

  lemma ClaimOrderIrrelevant(f: Fleet, a: seq<WorkerId>, b: seq<WorkerId>, now: int)
    requires forall w :: w in a <==> w in b
    ensures ClaimEach(f, a, now) == ClaimEach(f, b, now)
  {
    LoopIsSimultaneous(f, a, now);
    LoopIsSimultaneous(f, b, now);
    assert AsSet(a) == AsSet(b);
  }

  /** The returned ids are the jobs that listed workers held, whether or not they were running. */
  lemma {:induction false} ReclaimedAreHeld(f: Fleet, workers: seq<WorkerId>, now: int, job: JobId)
    ensures job in Reclaimed(f, workers, now) <==> HeldByOneOf(f, AsSet(workers), job)
    decreases workers
  {
    if workers != [] {
      ReclaimedAreHeld(ClaimOne(f, workers[0], now), workers[1..], now, job);
      HeldAfterOne(f, workers[0], AsSet(workers[1..]), job, now);
      assert workers == [workers[0]] + workers[1..];
      assert AsSet(workers) == AsSet(workers[1..]) + {workers[0]};
    }
  }

  /** Exactly the running jobs held by a listed worker change; every changed job is reported. */
  lemma ClaimChangesExactly(f: Fleet, workers: seq<WorkerId>, now: int, job: JobId)
    requires job in f.jobs
    ensures var g := ClaimEach(f, workers, now);
            && job in g.jobs
            && g.jobs[job] == (if f.jobs[job].status == Running && HeldByOneOf(f, AsSet(workers), job)
                               then Job(Pending, now) else f.jobs[job])
            && (g.jobs[job] != f.jobs[job] ==> job in Reclaimed(f, workers, now))
  {
    LoopIsSimultaneous(f, workers, now);
    ReclaimedAreHeld(f, workers, now, job);
  }

  /** One pass of the reaper over what it found dead leaves nothing for the next pass. */
  lemma ReaperFinishes(f: Fleet, workers: seq<WorkerId>, timeout: int, now: int)
    requires AsSet(workers) == FindDeadWorkers(f, timeout, now)
    ensures var g := ClaimEach(f, workers, now);
            && FindDeadWorkers(g, timeout, now) == {}
            && (forall w :: w in f.leases && w !in workers ==> w in g.leases && g.leases[w] == f.leases[w])
            && (forall w :: w in workers ==> HeldJob(g, w) == None)
            && (forall w :: w in workers && w in f.leases ==>
                  w in g.leases && g.leases[w] == f.leases[w].(status := Dead, currentJob := None, currentNode := None))
  {
    LoopIsSimultaneous(f, workers, now);
  }

  // -------------------------------------------------------------------- runs

  datatype Op =
    | DoAcquire(worker: WorkerId, hostname: string, pid: int, now: int)
    | DoHeartbeat(worker: WorkerId, holding: Option<JobId>, node: Option<string>, now: int)
    | DoRelease(worker: WorkerId, now: int)
    | DoClaim(workers: seq<WorkerId>, now: int)
    | DoRequest(job: JobId, now: int)
    | DoComplete(job: JobId, now: int)

  function Step(f: Fleet, op: Op): Fleet {
    match op
    case DoAcquire(worker, hostname, pid, now) => AcquireLease(f, worker, hostname, pid, now)
    case DoHeartbeat(worker, holding, node, now) => Heartbeat(f, worker, holding, node, now)
    case DoRelease(worker, now) => ReleaseLease(f, worker, now)
    case DoClaim(workers, now) => ClaimEach(f, workers, now)
    case DoRequest(job, now) => RequestCancellation(f, job, now)
    case DoComplete(job, now) => CompleteCancellation(f, job, now)
  }

  function Run(f: Fleet, ops: seq<Op>): Fleet
    decreases ops
  {
    if ops == [] then f else Run(Step(f, ops[0]), ops[1..])
  }

  ghost predicate IdleUnlessActive(f: Fleet) {
    forall w :: w in f.leases && f.leases[w].status != Active ==>
      f.leases[w].currentJob == None && f.leases[w].currentNode == None
  }

  /** Over any interleaving a lease that is not active holds no job. */
  lemma {:induction false} RunKeepsIdle(f: Fleet, ops: seq<Op>)
    requires IdleUnlessActive(f)
    ensures IdleUnlessActive(Run(f, ops))
    decreases ops
  {
    if ops != [] {
      if ops[0].DoClaim? {
        LoopIsSimultaneous(f, ops[0].workers, ops[0].now);
      }
      RunKeepsIdle(Step(f, ops[0]), ops[1..]);
    }
  }

  predicate NeverReacquires(ops: seq<Op>, worker: WorkerId) {
    forall op :: op in ops ==> !(op.DoAcquire? && op.worker == worker)
  }

  /** Until it acquires again, a worker that lost its lease gets no job, whatever it reports. */
  lemma {:induction false} InactiveIgnoresHeartbeats(f: Fleet, ops: seq<Op>, worker: WorkerId)
    requires IdleUnlessActive(f) && worker in f.leases && f.leases[worker].status != Active
    requires NeverReacquires(ops, worker)
    ensures var g := Run(f, ops);
            && worker in g.leases && g.leases[worker].status != Active
            && HeldJob(g, worker) == None
            && forall job, node, now :: Heartbeat(g, worker, job, node, now) == g
    decreases ops
  {
    if ops != [] {
      assert ops[0] in ops && forall op :: op in ops[1..] ==> op in ops;
      if ops[0].DoClaim? {
        LoopIsSimultaneous(f, ops[0].workers, ops[0].now);
      }
      InactiveIgnoresHeartbeats(Step(f, ops[0]), ops[1..], worker);
    }
  }

  predicate AtLeastCancelling(s: JobStatus) { s == Cancelling || s == Cancelled }

  lemma StepKeepsCancellation(f: Fleet, op: Op, job: JobId)
    requires job in f.jobs && AtLeastCancelling(f.jobs[job].status)
    ensures var g := Step(f, op);
            && job in g.jobs
            && (f.jobs[job].status == Cancelled ==> g.jobs[job].status == Cancelled)
            && (f.jobs[job].status == Cancelling ==>
                  g.jobs[job].status == (if op.DoComplete? && op.job == job then Cancelled else Cancelling))
  {
    if op.DoClaim? {
      LoopIsSimultaneous(f, op.workers, op.now);
    }
  }

  /** A cancelling job is only ever cancelled, by its completion; a cancelled job stays cancelled. */
  lemma {:induction false} CancellationIsFinal(f: Fleet, ops: seq<Op>, job: JobId)
    requires job in f.jobs && AtLeastCancelling(f.jobs[job].status)
    ensures var g := Run(f, ops);
            && job in g.jobs
            && (g.jobs[job].status == Cancelled <==>
                  f.jobs[job].status == Cancelled || exists op :: op in ops && op.DoComplete? && op.job == job)
            && (g.jobs[job].status != Cancelled ==> g.jobs[job].status == Cancelling)
    decreases ops
  {
    if ops != [] {
      StepKeepsCancellation(f, ops[0], job);
      CancellationIsFinal(Step(f, ops[0]), ops[1..], job);
      assert ops == [ops[0]] + ops[1..];
    }
  }

  lemma StepKeepsOther(f: Fleet, op: Op, job: JobId)
    requires job in f.jobs && f.jobs[job].status.Other? && !(op.DoComplete? && op.job == job)
    ensures job in Step(f, op).jobs && Step(f, op).jobs[job] == f.jobs[job]
  {
    if op.DoClaim? {
      LoopIsSimultaneous(f, op.workers, op.now);
    }
  }

  lemma StepKeepsJob(f: Fleet, op: Op, job: JobId)
    requires job in f.jobs
    ensures var g := Step(f, op);
            && job in g.jobs
            && (g.jobs[job].status == Cancelled <==>
                  f.jobs[job].status == Cancelled || (op.DoComplete? && op.job == job))
  {
    if op.DoClaim? {
      LoopIsSimultaneous(f, op.workers, op.now);
    }
  }

  predicate Completes(ops: seq<Op>, job: JobId) {
    exists op :: op in ops && op.DoComplete? && op.job == job
  }

  /**
    Over any run a job ends up cancelled exactly when it was so before or its cancellation is
    completed in the run, requested or not, even if it had finished; finished jobs are otherwise
    left alone.
   */
  lemma {:induction false} CancelledIffCompleted(f: Fleet, ops: seq<Op>, job: JobId)
    requires job in f.jobs
    ensures var g := Run(f, ops);
            && job in g.jobs
            && (g.jobs[job].status == Cancelled <==> f.jobs[job].status == Cancelled || Completes(ops, job))
            && (f.jobs[job].status.Other? && !Completes(ops, job) ==> g.jobs[job] == f.jobs[job])
    decreases ops
  {
    if ops != [] {
      StepKeepsJob(f, ops[0], job);
      CancelledIffCompleted(Step(f, ops[0]), ops[1..], job);
      assert ops == [ops[0]] + ops[1..];
      assert Completes(ops, job) <==> (ops[0].DoComplete? && ops[0].job == job) || Completes(ops[1..], job);
      if f.jobs[job].status.Other? && !Completes(ops, job) {
        StepKeepsOther(f, ops[0], job);
      }
    }
  }

  /**
    A request takes hold of pending and running jobs only, and for good: no reclaim brings such a
    job back, it is cancelling until its completion and cancelled from then on.
   */
  lemma RequestedNeverRunsAgain(f: Fleet, job: JobId, now: int, ops: seq<Op>)
    requires job in f.jobs && f.jobs[job].status in {Pending, Running}
    ensures var g := Run(RequestCancellation(f, job, now), ops);
            job in g.jobs && g.jobs[job].status == if Completes(ops, job) then Cancelled else Cancelling
  {
    CancellationIsFinal(RequestCancellation(f, job, now), ops, job);
  }

  predicate Requests(ops: seq<Op>, job: JobId) {
    exists op :: op in ops && op.DoRequest? && op.job == job
  }

  lemma StepOfWaiting(f: Fleet, op: Op, job: JobId)
    requires job in f.jobs && f.jobs[job].status in {Pending, Running}
    requires !(op.DoComplete? && op.job == job)
    ensures var g := Step(f, op);
            && job in g.jobs
            && (op.DoRequest? && op.job == job ==> g.jobs[job] == Job(Cancelling, op.now))
            && (!(op.DoRequest? && op.job == job) ==> g.jobs[job].status in {Pending, Running})
  {
    if op.DoClaim? {
      LoopIsSimultaneous(f, op.workers, op.now);
    }
  }

  /** A pending or running job starts cancelling exactly when a request names it. */
  lemma {:induction false} CancellingIffRequested(f: Fleet, ops: seq<Op>, job: JobId)
    requires job in f.jobs && f.jobs[job].status in {Pending, Running} && !Completes(ops, job)
    ensures var g := Run(f, ops);
            && job in g.jobs
            && (g.jobs[job].status == Cancelling <==> Requests(ops, job))
            && (g.jobs[job].status != Cancelling ==> g.jobs[job].status in {Pending, Running})
    decreases ops
  {
    if ops != [] {
      var op := ops[0];
      assert ops == [op] + ops[1..];
      assert Requests(ops, job) <==> (op.DoRequest? && op.job == job) || Requests(ops[1..], job);
      assert op in ops && !Completes(ops[1..], job);
      StepOfWaiting(f, op, job);
      if op.DoRequest? && op.job == job {
        CancellationIsFinal(Step(f, op), ops[1..], job);
      } else {
        CancellingIffRequested(Step(f, op), ops[1..], job);
      }
    }
  }

  /** No operation names the job, and no reclaim finds it running in the hands of a listed worker. */
  predicate Spares(f: Fleet, ops: seq<Op>, job: JobId)
    decreases ops
  {
    ops != [] ==>
      && !(ops[0].DoRequest? && ops[0].job == job) && !(ops[0].DoComplete? && ops[0].job == job)
      && (ops[0].DoClaim? && job in f.jobs && f.jobs[job].status == Running ==>
            !HeldByOneOf(f, AsSet(ops[0].workers), job))
      && Spares(Step(f, ops[0]), ops[1..], job)
  }

  /** A job that is spared is left exactly as it was, its time of update included. */
  lemma {:induction false} SparedJobsUnchanged(f: Fleet, ops: seq<Op>, job: JobId)
    requires job in f.jobs && Spares(f, ops, job)
    ensures job in Run(f, ops).jobs && Run(f, ops).jobs[job] == f.jobs[job]
    decreases ops
  {
    if ops != [] {
      if ops[0].DoClaim? {
        ClaimChangesExactly(f, ops[0].workers, ops[0].now, job);
      }
      SparedJobsUnchanged(Step(f, ops[0]), ops[1..], job);
    }
  }

  /** A request or a completion is recorded with its time, and stays so while the job is spared. */
  lemma CancellationIsRecorded(f: Fleet, job: JobId, now: int, ops: seq<Op>)
    requires job in f.jobs
    ensures f.jobs[job].status in {Pending, Running} && Spares(RequestCancellation(f, job, now), ops, job) ==>
              var g := Run(RequestCancellation(f, job, now), ops);
              job in g.jobs && g.jobs[job] == Job(Cancelling, now)
    ensures Spares(CompleteCancellation(f, job, now), ops, job) ==>
              var g := Run(CompleteCancellation(f, job, now), ops);
              job in g.jobs && g.jobs[job] == Job(Cancelled, now)
  {
    if f.jobs[job].status in {Pending, Running} && Spares(RequestCancellation(f, job, now), ops, job) {
      SparedJobsUnchanged(RequestCancellation(f, job, now), ops, job);
    }
    if Spares(CompleteCancellation(f, job, now), ops, job) {
      SparedJobsUnchanged(CompleteCancellation(f, job, now), ops, job);
    }
  }

  /** The jobs known to the table never change, and neither does its set of workers but by acquiring. */
  lemma {:induction false} TablesKeepKeys(f: Fleet, ops: seq<Op>)
    ensures Run(f, ops).jobs.Keys == f.jobs.Keys
    ensures forall w :: w in Run(f, ops).leases <==>
              w in f.leases || exists op :: op in ops && op.DoAcquire? && op.worker == w
    decreases ops
  {
    if ops != [] {
      assert ops == [ops[0]] + ops[1..];
      if ops[0].DoClaim? {
        LoopIsSimultaneous(f, ops[0].workers, ops[0].now);
      }
      TablesKeepKeys(Step(f, ops[0]), ops[1..]);
    }
  }

  // ------------------------------------------------------- who is found dead

  /** Nothing in the run is about this worker's lease. */
  predicate LeavesAlone(ops: seq<Op>, worker: WorkerId) {
    forall op :: op in ops ==>
      match op
      case DoAcquire(w, _, _, _) => w != worker
      case DoHeartbeat(w, _, _, _) => w != worker
      case DoRelease(w, _) => w != worker
      case DoClaim(ws, _) => worker !in ws
      case _ => true
  }

  lemma {:induction false} LeaseKept(f: Fleet, ops: seq<Op>, worker: WorkerId)
    requires worker in f.leases && LeavesAlone(ops, worker)
    ensures worker in Run(f, ops).leases && Run(f, ops).leases[worker] == f.leases[worker]
    decreases ops
  {
    if ops != [] {
      assert ops[0] in ops && forall op :: op in ops[1..] ==> op in ops;
      if ops[0].DoClaim? {
        LoopIsSimultaneous(f, ops[0].workers, ops[0].now);
      }
      LeaseKept(Step(f, ops[0]), ops[1..], worker);
    }
  }

  /** A worker that falls silent after acquiring is found dead exactly once the timeout has passed. */
  lemma SilentAfterAcquire(f: Fleet, worker: WorkerId, hostname: string, pid: int, now: int, ops: seq<Op>,
                           timeout: int, t: int)
    requires LeavesAlone(ops, worker)
    ensures var g := Run(AcquireLease(f, worker, hostname, pid, now), ops);
            && (worker in FindDeadWorkers(g, timeout, t) <==> now + timeout < t)
            && HeldJob(g, worker) == None
            && worker in g.leases && g.leases[worker] == Lease(hostname, pid, now, now, Active, None, None)
  {
    LeaseKept(AcquireLease(f, worker, hostname, pid, now), ops, worker);
  }

  /**
    A worker that falls silent after a heartbeat is found dead exactly once the timeout has passed
    since then, if its lease was active, and with the job it reported; otherwise never.
   */
  lemma SilentAfterHeartbeat(f: Fleet, worker: WorkerId, job: Option<JobId>, node: Option<string>, now: int,
                             ops: seq<Op>, timeout: int, t: int)
    requires worker in f.leases && LeavesAlone(ops, worker)
    ensures var g := Run(Heartbeat(f, worker, job, node, now), ops);
            && (worker in FindDeadWorkers(g, timeout, t) <==> f.leases[worker].status == Active && now + timeout < t)
            && worker in g.leases
            && (f.leases[worker].status == Active ==>
                  && HeldJob(g, worker) == (if job == Some("") then None else job)
                  && g.leases[worker].currentNode == node && g.leases[worker].lastHeartbeat == now
                  && g.leases[worker].hostname == f.leases[worker].hostname
                  && g.leases[worker].pid == f.leases[worker].pid
                  && g.leases[worker].startedAt == f.leases[worker].startedAt)
            && (f.leases[worker].status != Active ==> g.leases[worker] == f.leases[worker])
  {
    LeaseKept(Heartbeat(f, worker, job, node, now), ops, worker);
  }

  /** A released worker is never found dead and has no job to reclaim, until it acquires again. */
  lemma ReleasedIsNeverDead(f: Fleet, worker: WorkerId, now: int, ops: seq<Op>, timeout: int, t: int)
    requires IdleUnlessActive(f) && NeverReacquires(ops, worker)
    requires worker in f.leases
    ensures var g := Run(ReleaseLease(f, worker, now), ops);
            worker !in FindDeadWorkers(g, timeout, t) && HeldJob(g, worker) == None
    ensures var r := ReleaseLease(f, worker, now).leases[worker];
            && r.status == Released && r.lastHeartbeat == now && r.startedAt == f.leases[worker].startedAt
            && r.hostname == f.leases[worker].hostname && r.pid == f.leases[worker].pid
  {
    InactiveIgnoresHeartbeats(ReleaseLease(f, worker, now), ops, worker);
  }
}
