/** The hub's job pool (firmware/hub_nrf54l15_ble/src/job_executor/job_executor.c): sixteen slots
    searched from the front, never freed. Line 82 unlocks node_mutex; the model takes job_mutex to
    be meant, so that every call is one step. */
module JobExecutor {
  import opened Options

  const MAX_JOBS: nat := 16
  const ENOMEM: int := 12
  const UINT32_LIMIT: nat := 0x1_0000_0000

  datatype JobType = PushConfig | PullDiagnostics | UpdateFirmware | RebootNode

  datatype JobState = QUEUED | RUNNING | COMPLETED | FAILED

  datatype Job = Job(valid: bool, jobId: nat, kind: JobType, state: JobState, target: nat,
                     payload: Option<seq<bv8>>, queuedTime: nat, startTime: nat, endTime: nat,
                     resultCode: int)

  /** A slot after memset. */
  const BLANK: Job := Job(false, 0, PushConfig, QUEUED, 0, None, 0, 0, 0, 0)

  /** The arguments of a queue call; granted says whether k_malloc delivers. */
  datatype Request = Request(kind: JobType, target: nat, payload: Option<seq<bv8>>, granted: bool, time: nat)

  predicate IsPending(j: Job) { j.valid && j.state == QUEUED }

  /** The first slot never used, or the size of the pool. */
  function FirstInvalid(jobs: seq<Job>): (i: nat)
    ensures i <= |jobs|
    ensures i < |jobs| ==> !jobs[i].valid
    ensures forall j :: 0 <= j < i ==> jobs[j].valid
  {
    if jobs == [] || !jobs[0].valid then 0 else 1 + FirstInvalid(jobs[1..])
  }

  /** The first job waiting, or the size of the pool. */
  function FirstPending(jobs: seq<Job>): (i: nat)
    ensures i <= |jobs|
    ensures i < |jobs| ==> IsPending(jobs[i])
    ensures forall j :: 0 <= j < i ==> !IsPending(jobs[j])
  {
    if jobs == [] || IsPending(jobs[0]) then 0 else 1 + FirstPending(jobs[1..])
  }

  function PendingCount(jobs: seq<Job>): nat {
    if jobs == [] then 0 else PendingCount(jobs[1..]) + (if IsPending(jobs[0]) then 1 else 0)
  }

  function Queued(r: Request, id: nat): Job {
    var kept := r.payload.Some? && r.payload.value != [] && r.granted;
    BLANK.(valid := true, jobId := id, kind := r.kind, state := QUEUED, target := r.target,
           queuedTime := r.time, payload := if kept then r.payload else None)
  }

  function Completed(j: Job, start: nat, end: nat): Job {
    j.(state := COMPLETED, startTime := start, endTime := end, resultCode := 0)
  }

  // ------------------------------------------------------------------------- runs

  datatype Pool = Pool(jobs: seq<Job>, nextId: nat)

  datatype Op = Submit(request: Request) | Process(start: nat, end: nat)

  function Blanks(n: nat): (jobs: seq<Job>)
    ensures |jobs| == n && forall i :: 0 <= i < n ==> jobs[i] == BLANK
  {
    if n == 0 then [] else Blanks(n - 1) + [BLANK]
  }

  function Boot(): Pool { Pool(Blanks(MAX_JOBS), 1) }

  function Increment(id: nat): nat { (id + 1) % UINT32_LIMIT }

  /** One call: the pool after it and what it returns. */
  function Call(p: Pool, op: Op): (Pool, int) {
    match op
    case Submit(r) =>
      var i := FirstInvalid(p.jobs);
      if i == |p.jobs| then (p, -ENOMEM)
      else (Pool(p.jobs[i := Queued(r, p.nextId)], Increment(p.nextId)), p.nextId)
    case Process(start, end) =>
      var i := FirstPending(p.jobs);
      if i == |p.jobs| then (p, 0)
      else (p.(jobs := p.jobs[i := Completed(p.jobs[i], start, end)]), p.jobs[i].jobId)
  }

  function After(ops: seq<Op>): Pool {
    if ops == [] then Boot() else Call(After(ops[..|ops| - 1]), ops[|ops| - 1]).0
  }

  function Extend<T>(s: seq<T>, more: bool, x: T): seq<T> { if more then s + [x] else s }

  /** The ids returned by the queue calls of a run that were accepted, in order. */
  function AcceptedIds(ops: seq<Op>): seq<int> {
    if ops == [] then []
    else
      var before := ops[..|ops| - 1];
      var reply := Call(After(before), ops[|ops| - 1]).1;
      Extend(AcceptedIds(before), ops[|ops| - 1].Submit? && reply > 0, reply)
  }

  /** The ids returned by the process calls of a run that found a job, in order. */
  function ProcessedIds(ops: seq<Op>): seq<int> {
    if ops == [] then []
    else
      var before := ops[..|ops| - 1];
      var reply := Call(After(before), ops[|ops| - 1]).1;
      Extend(ProcessedIds(before), ops[|ops| - 1].Process? && reply != 0, reply)
  }

  /** The requests that were accepted, in order. */
  function AcceptedRequests(ops: seq<Op>): seq<Request> {
    if ops == [] then []
    else
      var before := ops[..|ops| - 1];
      var op := ops[|ops| - 1];
      if op.Submit? then Extend(AcceptedRequests(before), Call(After(before), op).1 > 0, op.request)
      else AcceptedRequests(before)
  }

  /** The times of the process calls of a run that found a job, in order. */
  function ProcessedAt(ops: seq<Op>): seq<Times> {
    if ops == [] then []
    else
      var before, op := ops[..|ops| - 1], ops[|ops| - 1];
      if op.Process? then Extend(ProcessedAt(before), Call(After(before), op).1 != 0, Times(op.start, op.end))
      else ProcessedAt(before)
  }

  // ------------------------------------------------ the pool is a bounded FIFO queue

  /** Slot i holds request i with id i + 1; the first of them are completed, at the given times. */
  predicate IsFifo(p: Pool, accepted: seq<Request>, done: seq<Times>) {
    && |p.jobs| == 16
    && |done| <= |accepted| <= 16
    && p.nextId == |accepted| + 1
    && (forall i :: 0 <= i < |done| ==> p.jobs[i] == JobOf(accepted[i], i + 1, COMPLETED, done[i]))
    && (forall i :: |done| <= i < |accepted| ==> p.jobs[i] == JobOf(accepted[i], i + 1, QUEUED, Times(0, 0)))
    && (forall i :: |accepted| <= i < 16 ==> !p.jobs[i].valid)
  }

  datatype Times = Times(start: nat, end: nat)

  /** Every field of the job of a request: its payload is kept when it is not empty and there was
      memory for it. */
  function JobOf(r: Request, id: nat, state: JobState, times: Times): Job {
    var payload := if r.payload != None && |r.payload.value| > 0 && r.granted then r.payload else None;
    Job(true, id, r.kind, state, r.target, payload, r.time, times.start, times.end, 0)
  }

  lemma FifoSearches(p: Pool, accepted: seq<Request>, done: seq<Times>)
    requires IsFifo(p, accepted, done)
    ensures FirstInvalid(p.jobs) == |accepted|
    ensures FirstPending(p.jobs) == if |done| < |accepted| then |done| else 16
  {
    forall j | 0 <= j < |accepted|
      ensures p.jobs[j].valid && (p.jobs[j].state == QUEUED <==> |done| <= j)
    {
      assert p.jobs[j] == JobOf(accepted[j], j + 1, if j < |done| then COMPLETED else QUEUED,
                                if j < |done| then done[j] else Times(0, 0));
    }
    if |accepted| < 16 {
      assert !p.jobs[|accepted|].valid;
    }
    if |done| < |accepted| {
      assert IsPending(p.jobs[|done|]);
    }
  }

  lemma SubmitStep(p: Pool, accepted: seq<Request>, done: seq<Times>, r: Request)
    requires IsFifo(p, accepted, done)
    ensures var (p', reply) := Call(p, Submit(r));
            if |accepted| < 16 then reply == |accepted| + 1 && IsFifo(p', accepted + [r], done)
            else reply == -12 && p' == p
  {
    FifoSearches(p, accepted, done);
  }

  lemma ProcessStep(p: Pool, accepted: seq<Request>, done: seq<Times>, start: nat, end: nat)
    requires IsFifo(p, accepted, done)
    ensures var (p', reply) := Call(p, Process(start, end));
            if |done| < |accepted| then reply == |done| + 1 && IsFifo(p', accepted, done + [Times(start, end)])
            else reply == 0 && p' == p
  {
    FifoSearches(p, accepted, done);
  }

  /** The numbers 1, 2, 3 and so on. */
  predicate Counting(ids: seq<int>) { forall i :: 0 <= i < |ids| ==> ids[i] == i + 1 }

  lemma CountingSnoc(ids: seq<int>)
    requires Counting(ids)
    ensures Counting(ids + [|ids| + 1])
  {
  }

  /** One more call, seen from the run. */
  lemma Snoc(ops: seq<Op>)
    requires ops != []
    ensures var before, op := ops[..|ops| - 1], ops[|ops| - 1];
            var (p', reply) := Call(After(before), op);
            && After(ops) == p'
            && AcceptedIds(ops) == Extend(AcceptedIds(before), op.Submit? && reply > 0, reply)
            && (op.Submit? ==>
                  AcceptedRequests(ops) == Extend(AcceptedRequests(before), reply > 0, op.request) &&
                  ProcessedAt(ops) == ProcessedAt(before))
            && (op.Process? ==>
                  AcceptedRequests(ops) == AcceptedRequests(before) &&
                  ProcessedAt(ops) == Extend(ProcessedAt(before), reply != 0, Times(op.start, op.end)))
            && ProcessedIds(ops) == Extend(ProcessedIds(before), op.Process? && reply != 0, reply)
  {
    hide Call;
  }

  predicate RunIsFifo(p: Pool, accepted: seq<Request>, ids: seq<int>, done: seq<int>, times: seq<Times>) {
    |accepted| == |ids| && |done| == |times| && Counting(ids) && Counting(done) && IsFifo(p, accepted, times)
  }

  lemma RunStep(p: Pool, accepted: seq<Request>, ids: seq<int>, done: seq<int>, times: seq<Times>, op: Op)
    requires RunIsFifo(p, accepted, ids, done, times)
    ensures var (p', reply) := Call(p, op);
            if op.Submit? then
              RunIsFifo(p', Extend(accepted, reply > 0, op.request), Extend(ids, reply > 0, reply), done, times)
            else
              RunIsFifo(p', accepted, ids, Extend(done, reply != 0, reply),
                        Extend(times, reply != 0, Times(op.start, op.end)))
  {
    hide IsFifo, Call, Counting;
    FifoBounds(p, accepted, times);
    CountingSnoc(ids);
    CountingSnoc(done);
    match op
    case Submit(r) => SubmitStep(p, accepted, times, r);
    case Process(start, end) => ProcessStep(p, accepted, times, start, end);
  }

  /** Over every run the pool is a queue of at most sixteen: used slots are a prefix, the processed
      ones first, and each holds the request accepted in its turn with every field, its id, and the
      times of the call that processed it. */
  lemma {:induction false} EveryRunIsFifo(ops: seq<Op>)
    ensures |AcceptedRequests(ops)| == |AcceptedIds(ops)| <= 16 && |ProcessedAt(ops)| == |ProcessedIds(ops)|
    ensures Counting(AcceptedIds(ops)) && Counting(ProcessedIds(ops))
    ensures IsFifo(After(ops), AcceptedRequests(ops), ProcessedAt(ops))
    ensures RunIsFifo(After(ops), AcceptedRequests(ops), AcceptedIds(ops), ProcessedIds(ops), ProcessedAt(ops))
  {
    if ops == [] {
      BootIsFifo();
    } else {
      hide IsFifo, Counting, Call, After, AcceptedIds, AcceptedRequests, ProcessedIds, ProcessedAt;
      var before, op := ops[..|ops| - 1], ops[|ops| - 1];
      EveryRunIsFifo(before);
      Snoc(ops);
      RunStep(After(before), AcceptedRequests(before), AcceptedIds(before), ProcessedIds(before),
              ProcessedAt(before), op);
      FifoBounds(After(ops), AcceptedRequests(ops), ProcessedAt(ops));
    }
  }

  lemma BootIsFifo()
    ensures IsFifo(Boot(), [], [])
  {
    hide Blanks;
  }

  lemma FifoBounds(p: Pool, accepted: seq<Request>, done: seq<Times>)
    requires IsFifo(p, accepted, done)
    ensures |done| <= |accepted| <= 16
  {
  }

  /** First in, first out over whole runs: the k-th successful process call returns the id of the
      k-th accepted job, ids strictly increase, a job is accepted exactly while fewer than sixteen
      were, what is pending is what was accepted and not processed, and a process call finds a job
      exactly when something is pending. */
  lemma FirstInFirstOut(ops: seq<Op>, r: Request, start: nat, end: nat)
    ensures ProcessedIds(ops) <= AcceptedIds(ops)
    ensures forall i, j :: 0 <= i < j < |AcceptedIds(ops)| ==> AcceptedIds(ops)[i] < AcceptedIds(ops)[j]
    ensures |AcceptedIds(ops)| <= 16
    ensures Call(After(ops), Submit(r)).1 == if |AcceptedIds(ops)| < 16 then |AcceptedIds(ops)| + 1 else -12
    ensures PendingCount(After(ops).jobs) == |AcceptedIds(ops)| - |ProcessedIds(ops)|
    ensures Call(After(ops), Process(start, end)).1 ==
            if |ProcessedIds(ops)| < |AcceptedIds(ops)| then AcceptedIds(ops)[|ProcessedIds(ops)|] else 0
  {
    hide Call, IsFifo, After, AcceptedIds, AcceptedRequests, ProcessedIds, ProcessedAt, PendingCount;
    EveryRunIsFifo(ops);
    var p, accepted, done := After(ops), AcceptedRequests(ops), ProcessedAt(ops);
    FifoBounds(p, accepted, done);
    SubmitStep(p, accepted, done, r);
    ProcessStep(p, accepted, done, start, end);
    PendingInFifo(p, accepted, done);
  }

  lemma PendingInFifo(p: Pool, accepted: seq<Request>, done: seq<Times>)
    requires IsFifo(p, accepted, done)
    ensures PendingCount(p.jobs) == |accepted| - |done|
  {
    CountRun(p.jobs, |done|, |accepted|);
  }

  lemma {:induction false} CountRun(jobs: seq<Job>, from: nat, to: nat)
    requires from <= to <= |jobs|
    requires forall i :: 0 <= i < |jobs| ==> (IsPending(jobs[i]) <==> from <= i < to)
    ensures PendingCount(jobs) == to - from
  {
    if jobs != [] {
      CountRun(jobs[1..], if from > 0 then from - 1 else 0, if to > 0 then to - 1 else 0);
    }
  }

  /** A used slot keeps its id for ever, so an id read after the mutex is given back is still the
      one of the call. */
  lemma {:induction false} SlotsKeepTheirIds(ops: seq<Op>, more: seq<Op>, i: nat)
    requires i < |AcceptedRequests(ops)|
    ensures |AcceptedRequests(ops)| <= |AcceptedRequests(ops + more)| <= 16
    ensures |After(ops + more).jobs| == 16
    ensures After(ops + more).jobs[i].valid && After(ops + more).jobs[i].jobId == i + 1
  {
    EveryRunIsFifo(ops + more);
    if more == [] {
      assert ops + more == ops;
    } else {
      var less := more[..|more| - 1];
      assert (ops + more)[..|ops + more| - 1] == ops + less;
      SlotsKeepTheirIds(ops, less, i);
    }
  }

  // -------------------------------------------------------------------- the module

  class Executor {
    const jobs: array<Job>
    var nextJobId: nat

    ghost predicate Valid()
      reads this
    {
      jobs.Length == MAX_JOBS
    }

    ghost function Contents(): Pool
      reads this, jobs
    {
      Pool(jobs[..], nextJobId)
    }

    constructor ()
      ensures Valid() && fresh(jobs) && Contents() == Boot()
    {
      jobs := new Job[MAX_JOBS](_ => BLANK);
      nextJobId := 1;
    }

    method Queue(r: Request) returns (reply: int)
      requires Valid()
      modifies this, jobs
      ensures Valid() && (Contents(), reply) == Call(old(Contents()), Submit(r))
    {
      var index := -1;
      for i := 0 to MAX_JOBS
        invariant index == -1 && forall j :: 0 <= j < i ==> jobs[j].valid
      {
        if !jobs[i].valid {
          index := i;
          break;
        }
      }
      if index < 0 {
        return -ENOMEM;
      }
      var job := BLANK;
      job := job.(valid := true, jobId := nextJobId, kind := r.kind, state := QUEUED);
      job := job.(target := r.target, queuedTime := r.time);
      if r.payload.Some? && |r.payload.value| > 0 && r.granted {
        job := job.(payload := r.payload);
      }
      jobs[index] := job;
      nextJobId := Increment(nextJobId);
      return job.jobId;
    }

    method Process(start: nat, end: nat) returns (reply: int)
      requires Valid()
      modifies jobs
      ensures Valid() && (Contents(), reply) == Call(old(Contents()), Op.Process(start, end))
    {
      for i := 0 to MAX_JOBS
        invariant jobs[..] == old(jobs[..]) && forall j :: 0 <= j < i ==> !IsPending(jobs[j])
      {
        if jobs[i].valid && jobs[i].state == QUEUED {
          jobs[i] := jobs[i].(state := RUNNING, startTime := start);
          jobs[i] := jobs[i].(state := COMPLETED, endTime := end, resultCode := 0);
          assert jobs[..] == old(jobs[..])[i := Completed(old(jobs[..])[i], start, end)];
          assert i == FirstPending(old(jobs[..]));
          return jobs[i].jobId;
        }
      }
      return 0;
    }

    method GetPendingCount() returns (count: nat)
      requires Valid()
      ensures count == PendingCount(jobs[..])
    {
      count := 0;
      for i := 0 to MAX_JOBS
        invariant count + PendingCount(jobs[i..]) == PendingCount(jobs[..])
      {
        assert jobs[i..][0] == jobs[i] && jobs[i..][1..] == jobs[i + 1..];
        if jobs[i].valid && jobs[i].state == QUEUED {
          count := count + 1;
        }
      }
    }
  }
}
