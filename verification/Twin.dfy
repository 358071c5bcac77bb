/** Jobs, topology and policies written to a hub's device twin by read-modify-write
    (backend/api/src/modules/iot-hub/iot-hub.service.ts). Every write carries the etag '*', so
    nothing stops two calls from interleaving: each is a read step and a later commit step.
    The registry's updateTwin is an atomic merge of top-level properties. */
module Twin {
  import opened Options

  datatype Job = Job(jobId: string, kind: string, targetNode: Option<string>, payload: string,
                     createdAt: nat, timeoutSeconds: nat)

  /** The desired properties: the three this service writes and whatever else is there. */
  datatype Desired = Desired(jobs: Option<seq<Job>>, topology: Option<string>, policies: Option<string>,
                             rest: map<string, string>)

  datatype Op = AddJob(job: Job) | SetTopology(topology: string) | SetPolicies(policies: string)

  function JobsOf(d: Desired): seq<Job> { if d.jobs.Some? then d.jobs.value else [] }

  function Override<T>(current: Option<T>, patch: Option<T>): Option<T> { if patch.Some? then patch else current }

  /** updateTwin: properties of the patch replace, absent ones stay. */
  function Merge(current: Desired, patch: Desired): Desired {
    Desired(Override(current.jobs, patch.jobs), Override(current.topology, patch.topology),
            Override(current.policies, patch.policies), current.rest + patch.rest)
  }

  /** What an operation makes of the properties it read. */
  function Extended(op: Op, d: Desired): Desired {
    match op
    case AddJob(job) => d.(jobs := Some(JobsOf(d) + [job]))
    case SetTopology(t) => d.(topology := Some(t))
    case SetPolicies(p) => d.(policies := Some(p))
  }

  /** What was read under one property is absent or still there. */
  predicate Still<T(==)>(read: Option<T>, now: Option<T>) { read.None? || read == now }

  /** Nothing the operation copies back has changed since it was read. */
  predicate Current(op: Op, snapshot: Desired, now: Desired) {
    && JobsCurrent(op, snapshot, now)
    && (op.SetTopology? || Still(snapshot.topology, now.topology))
    && (op.SetPolicies? || Still(snapshot.policies, now.policies))
    && forall k :: k in snapshot.rest ==> k in now.rest && now.rest[k] == snapshot.rest[k]
  }

  predicate JobsCurrent(op: Op, snapshot: Desired, now: Desired) {
    if op.AddJob? then JobsOf(snapshot) == JobsOf(now) else Still(snapshot.jobs, now.jobs)
  }

  /** A commit does what its operation means to the present twin exactly when nothing it copies
      back is stale. */
  lemma CommitIsIntendedIff(op: Op, snapshot: Desired, now: Desired)
    ensures Merge(now, Extended(op, snapshot)) == Extended(op, now) <==> Current(op, snapshot, now)
  {
    var stored, wanted := Merge(now, Extended(op, snapshot)), Extended(op, now);
    assert stored.jobs == wanted.jobs <==> JobsCurrent(op, snapshot, now) by {
      if op.AddJob? && stored.jobs == wanted.jobs {
        assert JobsOf(snapshot) == (JobsOf(snapshot) + [op.job])[..|JobsOf(snapshot)|];
        assert JobsOf(now) == (JobsOf(now) + [op.job])[..|JobsOf(now)|];
      }
    }
    if stored.rest == wanted.rest {
      forall k | k in snapshot.rest
        ensures k in now.rest && now.rest[k] == snapshot.rest[k]
      {
        assert k in stored.rest && stored.rest[k] == snapshot.rest[k];
      }
    }
  }

  /** A commit right after its own read is always intended. */
  lemma FreshIsCurrent(op: Op, d: Desired)
    ensures Current(op, d, d)
  {
  }

  // ------------------------------------------------------------------ subsequences

  /** a, in order, with some elements of b left out. */
  predicate Subsequence<T(==)>(a: seq<T>, b: seq<T>)
    decreases |b|
  {
    a == [] ||
    (b != [] &&
     (Subsequence(a, b[..|b| - 1]) ||
      (a[|a| - 1] == b[|b| - 1] && Subsequence(a[..|a| - 1], b[..|b| - 1]))))
  }

  predicate Distinct<T(==)>(s: seq<T>) { forall i, j :: 0 <= i < j < |s| ==> s[i] != s[j] }

  lemma {:induction false} SubsequenceRefl<T>(a: seq<T>)
    ensures Subsequence(a, a)
  {
    if a != [] {
      SubsequenceRefl(a[..|a| - 1]);
    }
  }

  lemma SubsequenceGrows<T>(a: seq<T>, b: seq<T>, x: T)
    requires Subsequence(a, b)
    ensures Subsequence(a, b + [x]) && Subsequence(a + [x], b + [x])
  {
    assert (b + [x])[..|b|] == b && (a + [x])[..|a|] == a;
  }

  lemma {:induction false} SubsequenceMembers<T>(a: seq<T>, b: seq<T>)
    requires Subsequence(a, b)
    ensures forall x :: x in a ==> x in b
    decreases |b|
  {
    if a != [] {
      if Subsequence(a, b[..|b| - 1]) {
        SubsequenceMembers(a, b[..|b| - 1]);
      } else {
        SubsequenceMembers(a[..|a| - 1], b[..|b| - 1]);
        assert a == a[..|a| - 1] + [a[|a| - 1]];
      }
    }
  }

  lemma {:induction false} SubsequenceDistinct<T>(a: seq<T>, b: seq<T>)
    requires Subsequence(a, b) && Distinct(b)
    ensures Distinct(a)
    decreases |b|
  {
    if a != [] {
      var last := |b| - 1;
      if Subsequence(a, b[..last]) {
        SubsequenceDistinct(a, b[..last]);
      } else {
        SubsequenceDistinct(a[..|a| - 1], b[..last]);
        SubsequenceMembers(a[..|a| - 1], b[..last]);
        forall i | 0 <= i < |a| - 1
          ensures a[i] != a[|a| - 1]
        {
          assert a[i] in a[..|a| - 1];
        }
      }
    }
  }

  // ------------------------------------------------------------------ interleavings

  datatype Step = Read(task: nat, op: Op) | Commit(task: nat) | Abandon(task: nat)

  datatype Pending = Pending(op: Op, snapshot: Desired)

  /** committed: the operations whose write was stored, in the order of their writes;
      created: every job ever handed to addJobToTwin or present at the start. */
  datatype State = State(initial: Desired, twin: Desired, pending: map<nat, Pending>,
                         committed: seq<Op>, created: set<Job>)

  function Start(d: Desired): State { State(d, d, map[], [], set j | j in JobsOf(d)) }

  /** A call starts with a job of its own; a write or a failure ends a call in progress. */
  predicate Enabled(s: State, step: Step) {
    match step
    case Read(task, op) => task !in s.pending && (op.AddJob? ==> op.job !in s.created)
    case Commit(task) => task in s.pending
    case Abandon(task) => task in s.pending
  }

  function Next(s: State, step: Step): State {
    if !Enabled(s, step) then s
    else match step
      case Read(task, op) =>
        s.(pending := s.pending[task := Pending(op, s.twin)],
           created := if op.AddJob? then s.created + {op.job} else s.created)
      case Commit(task) =>
        var p := s.pending[task];
        s.(twin := Merge(s.twin, Extended(p.op, p.snapshot)),
           pending := s.pending - {task},
           committed := s.committed + [p.op])
      case Abandon(task) =>
        s.(pending := s.pending - {task})
  }

  function After(d: Desired, steps: seq<Step>): State {
    if steps == [] then Start(d) else Next(After(d, steps[..|steps| - 1]), steps[|steps| - 1])
  }

  lemma AfterStep(d: Desired, steps: seq<Step>, k: nat)
    requires k < |steps|
    ensures After(d, steps[..k + 1]) == Next(After(d, steps[..k]), steps[k])
  {
    assert steps[..k + 1][..k] == steps[..k];
  }

  /** The operations one after the other, each on what the one before left. */
  function Sequential(d: Desired, ops: seq<Op>): Desired {
    if ops == [] then d else Extended(ops[|ops| - 1], Sequential(d, ops[..|ops| - 1]))
  }

  function Added(ops: seq<Op>): seq<Job> {
    if ops == [] then []
    else
      var last := ops[|ops| - 1];
      Added(ops[..|ops| - 1]) + (if last.AddJob? then [last.job] else [])
  }

  /** Every job there ever was: those at the start, then those committed. */
  function Log(s: State): seq<Job> { JobsOf(s.initial) + Added(s.committed) }

  lemma LogGrows(s: State, step: Step)
    requires step.Commit? && Enabled(s, step)
    ensures var op := s.pending[step.task].op;
            Log(Next(s, step)) == if op.AddJob? then Log(s) + [op.job] else Log(s)
  {
    var op := s.pending[step.task].op;
    assert (s.committed + [op])[..|s.committed|] == s.committed;
  }

  // --------------------------------------------------- what every interleaving keeps

  ghost predicate PendingSafe(s: State) {
    && (forall t :: t in s.pending ==> Subsequence(JobsOf(s.pending[t].snapshot), Log(s)))
    && (forall t :: t in s.pending && s.pending[t].op.AddJob? ==>
          s.pending[t].op.job in s.created && s.pending[t].op.job !in Log(s))
    && (forall t, u :: t in s.pending && u in s.pending && t != u ==>
          (s.pending[t].op.AddJob? && s.pending[u].op.AddJob? ==> s.pending[t].op.job != s.pending[u].op.job))
  }

  ghost predicate Safe(s: State) {
    && Distinct(Log(s))
    && (forall j :: j in Log(s) ==> j in s.created)
    && Subsequence(JobsOf(s.twin), Log(s))
    && PendingSafe(s)
  }

  lemma ReadKeeps(s: State, step: Step)
    requires Safe(s) && step.Read? && Enabled(s, step)
    ensures Safe(Next(s, step))
  {
    hide Subsequence, JobsOf, Added;
  }

  lemma CommitKeeps(s: State, step: Step)
    requires Safe(s) && step.Commit? && Enabled(s, step)
    ensures Safe(Next(s, step))
  {
    hide Subsequence, Added, Log;
    var s' := Next(s, step);
    var p := s.pending[step.task];
    LogGrows(s, step);
    assert Subsequence(JobsOf(s.twin), Log(s)) && Subsequence(JobsOf(p.snapshot), Log(s));
    if p.op.AddJob? {
      SubsequenceGrows(JobsOf(p.snapshot), Log(s), p.op.job);
      assert JobsOf(s'.twin) == JobsOf(p.snapshot) + [p.op.job];
      forall t | t in s'.pending
        ensures Subsequence(JobsOf(s'.pending[t].snapshot), Log(s'))
      {
        SubsequenceGrows(JobsOf(s.pending[t].snapshot), Log(s), p.op.job);
      }
    }
  }

  /** Every jobs list ever stored is, in commit order and without duplicates, a selection of the
      jobs committed so far. */
  lemma {:induction false} EveryRunIsSafe(d: Desired, steps: seq<Step>)
    requires Distinct(JobsOf(d))
    ensures Safe(After(d, steps))
    ensures var s := After(d, steps);
            Distinct(JobsOf(s.twin)) && Subsequence(JobsOf(s.twin), Log(s))
  {
    if steps == [] {
      LogAtStart(d);
      SubsequenceRefl(JobsOf(d));
    } else {
      EveryRunIsSafe(d, steps[..|steps| - 1]);
      var s, step := After(d, steps[..|steps| - 1]), steps[|steps| - 1];
      if Enabled(s, step) {
        match step
        case Read(_, _) => ReadKeeps(s, step);
        case Commit(_) => CommitKeeps(s, step);
        case Abandon(_) => AbandonKeeps(s, step);
      }
    }
    var s := After(d, steps);
    SubsequenceDistinct(JobsOf(s.twin), Log(s));
  }

  lemma AbandonKeeps(s: State, step: Step)
    requires Safe(s) && step.Abandon? && Enabled(s, step)
    ensures Safe(Next(s, step))
  {
    hide Subsequence, JobsOf, Added;
  }

  // --------------------------------------------------------- when nothing is lost

  /** What a step about to be taken may find stale. */
  predicate StepCurrent(s: State, step: Step) {
    step.Commit? && Enabled(s, step) ==>
      Current(s.pending[step.task].op, s.pending[step.task].snapshot, s.twin)
  }

  /** The jobs a commit copies back, if any, are those stored now. */
  predicate StepJobsCurrent(s: State, step: Step) {
    step.Commit? && Enabled(s, step) ==>
      var p := s.pending[step.task];
      (!p.op.AddJob? && p.snapshot.jobs.None?) || JobsOf(p.snapshot) == JobsOf(s.twin)
  }

  ghost predicate Serial(d: Desired, steps: seq<Step>) {
    forall k :: 0 <= k <= |steps| ==>
      After(d, steps[..k]).twin == Sequential(d, After(d, steps[..k]).committed)
  }

  ghost predicate Complete(d: Desired, steps: seq<Step>) {
    forall k :: 0 <= k <= |steps| ==> JobsOf(After(d, steps[..k]).twin) == Log(After(d, steps[..k]))
  }

  lemma StepSerialIff(s: State, step: Step)
    requires s.twin == Sequential(s.initial, s.committed)
    ensures var s' := Next(s, step);
            s'.initial == s.initial &&
            (s'.twin == Sequential(s.initial, s'.committed) <==> StepCurrent(s, step))
  {
    hide Merge, Extended, Current;
    if step.Commit? && Enabled(s, step) {
      var p := s.pending[step.task];
      assert (s.committed + [p.op])[..|s.committed|] == s.committed;
      CommitIsIntendedIff(p.op, p.snapshot, s.twin);
    }
  }

  lemma StepCompleteIff(s: State, step: Step)
    requires JobsOf(s.twin) == Log(s)
    ensures JobsOf(Next(s, step).twin) == Log(Next(s, step)) <==> StepJobsCurrent(s, step)
  {
    if step.Commit? && Enabled(s, step) {
      hide Log, Added;
      var p := s.pending[step.task];
      LogGrows(s, step);
      if p.op.AddJob? {
        var a, b := JobsOf(p.snapshot), JobsOf(s.twin);
        assert JobsOf(Next(s, step).twin) == a + [p.op.job];
        assert (a + [p.op.job])[..|a|] == a && (b + [p.op.job])[..|b|] == b;
      }
    } else {
      assert Log(Next(s, step)) == Log(s);
    }
  }

  lemma {:induction false} InitialStays(d: Desired, steps: seq<Step>)
    ensures After(d, steps).initial == d
  {
    if steps != [] {
      InitialStays(d, steps[..|steps| - 1]);
    }
  }

  lemma {:induction false} SerialUpTo(d: Desired, steps: seq<Step>, n: nat)
    requires n <= |steps|
    requires forall k :: 0 <= k < |steps| ==> StepCurrent(After(d, steps[..k]), steps[k])
    ensures After(d, steps[..n]).twin == Sequential(d, After(d, steps[..n]).committed)
  {
    if n > 0 {
      SerialUpTo(d, steps, n - 1);
      AfterStep(d, steps, n - 1);
      InitialStays(d, steps[..n - 1]);
      StepSerialIff(After(d, steps[..n - 1]), steps[n - 1]);
    }
  }

  /** A run is at every moment what its operations in commit order mean, exactly when no commit
      copies back anything stale: then no job, topology or policy update is lost. */
  lemma SerialIff(d: Desired, steps: seq<Step>)
    ensures Serial(d, steps) <==>
            forall k :: 0 <= k < |steps| ==> StepCurrent(After(d, steps[..k]), steps[k])
  {
    hide After, Sequential, StepCurrent;
    if Serial(d, steps) {
      forall k | 0 <= k < |steps|
        ensures StepCurrent(After(d, steps[..k]), steps[k])
      {
        AfterStep(d, steps, k);
        InitialStays(d, steps[..k]);
        StepSerialIff(After(d, steps[..k]), steps[k]);
      }
    } else if forall k :: 0 <= k < |steps| ==> StepCurrent(After(d, steps[..k]), steps[k]) {
      forall k | 0 <= k <= |steps|
        ensures After(d, steps[..k]).twin == Sequential(d, After(d, steps[..k]).committed)
      {
        SerialUpTo(d, steps, k);
      }
    }
  }

  lemma {:induction false} CompleteUpTo(d: Desired, steps: seq<Step>, n: nat)
    requires n <= |steps|
    requires forall k :: 0 <= k < |steps| ==> StepJobsCurrent(After(d, steps[..k]), steps[k])
    ensures JobsOf(After(d, steps[..n]).twin) == Log(After(d, steps[..n]))
  {
    hide After, Log, StepJobsCurrent;
    if n > 0 {
      CompleteUpTo(d, steps, n - 1);
      AfterStep(d, steps, n - 1);
      StepCompleteIff(After(d, steps[..n - 1]), steps[n - 1]);
    } else {
      LogAtStart(d);
      assert steps[..0] == [];
    }
  }

  lemma LogAtStart(d: Desired)
    ensures JobsOf(After(d, []).twin) == Log(After(d, []))
  {
    assert Log(Start(d)) == JobsOf(d);
  }

  /** The stored list holds all jobs ever committed, at every moment of a run, exactly when the
      jobs every commit had read were still the stored ones. */
  lemma CompleteIff(d: Desired, steps: seq<Step>)
    ensures Complete(d, steps) <==>
            forall k :: 0 <= k < |steps| ==> StepJobsCurrent(After(d, steps[..k]), steps[k])
  {
    hide After, Log, StepJobsCurrent;
    if Complete(d, steps) {
      forall k | 0 <= k < |steps|
        ensures StepJobsCurrent(After(d, steps[..k]), steps[k])
      {
        AfterStep(d, steps, k);
        StepCompleteIff(After(d, steps[..k]), steps[k]);
      }
    } else if forall k :: 0 <= k < |steps| ==> StepJobsCurrent(After(d, steps[..k]), steps[k]) {
      forall k | 0 <= k <= |steps|
        ensures JobsOf(After(d, steps[..k]).twin) == Log(After(d, steps[..k]))
      {
        CompleteUpTo(d, steps, k);
      }
    }
  }

  // ----------------------------------------------------- what a pending call has read

  predicate Ends(step: Step, task: nat) { (step.Commit? || step.Abandon?) && step.task == task }

  /** Step k of the run is the read of this pending call: what it holds is its operation and the
      twin stored at that moment, and nothing has ended it since. */
  ghost predicate ReadAt(d: Desired, steps: seq<Step>, task: nat, k: nat, p: Pending) {
    && k < |steps|
    && steps[k] == Read(task, p.op)
    && p.snapshot == After(d, steps[..k]).twin
    && forall m :: k < m < |steps| ==> !Ends(steps[m], task)
  }

  lemma ReadAtGrows(d: Desired, steps: seq<Step>, step: Step, task: nat, k: nat, p: Pending)
    requires ReadAt(d, steps, task, k, p) && !Ends(step, task)
    ensures ReadAt(d, steps + [step], task, k, p)
  {
    assert (steps + [step])[..k] == steps[..k];
  }

  lemma NewRead(d: Desired, steps: seq<Step>, task: nat, op: Op)
    ensures ReadAt(d, steps + [Read(task, op)], task, |steps|, Pending(op, After(d, steps).twin))
  {
    assert (steps + [Read(task, op)])[..|steps|] == steps;
  }

  /** Only a read by that task, when it is not pending, starts a call; only its own end removes it. */
  lemma StepPending(s: State, step: Step, task: nat)
    ensures task in Next(s, step).pending <==>
            (task in s.pending && !Ends(step, task)) ||
            (task !in s.pending && step.Read? && step.task == task && (step.op.AddJob? ==> step.op.job !in s.created))
    ensures task in s.pending && task in Next(s, step).pending ==> Next(s, step).pending[task] == s.pending[task]
    ensures task !in s.pending && task in Next(s, step).pending ==>
              Next(s, step).pending[task] == Pending(step.op, s.twin)
  {
  }

  /** At every moment of every run, each pending call holds the twin that was stored when it read. */
  lemma {:induction false} PendingIsItsRead(d: Desired, steps: seq<Step>, task: nat) returns (k: nat)
    requires task in After(d, steps).pending
    ensures ReadAt(d, steps, task, k, After(d, steps).pending[task])
  {
    var n := |steps| - 1;
    var before, step := steps[..n], steps[n];
    var s := After(d, before);
    assert steps == before + [step];
    StepPending(s, step, task);
    hide After, Next, ReadAt;
    AfterStep(d, steps, n);
    assert steps[..n + 1] == steps;
    if task in s.pending {
      k := PendingIsItsRead(d, before, task);
      ReadAtGrows(d, before, step, task, k, s.pending[task]);
    } else {
      k := n;
      NewRead(d, before, task, step.op);
    }
  }

  /** Calls that do not overlap: every write directly follows its own read, and no task reads twice. */
  ghost predicate NoOverlap(steps: seq<Step>) {
    && (forall k :: 0 <= k < |steps| && steps[k].Commit? ==>
          k > 0 && steps[k - 1].Read? && steps[k - 1].task == steps[k].task)
    && (forall j, k :: 0 <= j < k < |steps| && steps[j].Read? && steps[k].Read? ==> steps[j].task != steps[k].task)
  }

  lemma CommitAfterOwnRead(d: Desired, steps: seq<Step>, k: nat)
    requires NoOverlap(steps) && k < |steps| && steps[k].Commit? && Enabled(After(d, steps[..k]), steps[k])
    ensures After(d, steps[..k]).pending[steps[k].task].snapshot == After(d, steps[..k]).twin
  {
    var task := steps[k].task;
    var before := steps[..k - 1];
    AfterStep(d, steps, k - 1);
    var s := After(d, before);
    StepPending(s, steps[k - 1], task);
    if task in s.pending {
      var _ := PendingIsItsRead(d, before, task);
      assert false;
    }
  }

  /** Calls that do not overlap lose nothing: the stored twin is at every moment what the calls
      mean one after the other, and the list holds every job committed. */
  lemma NoOverlapLosesNothing(d: Desired, steps: seq<Step>)
    requires NoOverlap(steps)
    ensures Serial(d, steps) && Complete(d, steps)
  {
    hide After, Serial, Complete, NoOverlap;
    forall k | 0 <= k < |steps| && steps[k].Commit? && Enabled(After(d, steps[..k]), steps[k])
      ensures After(d, steps[..k]).pending[steps[k].task].snapshot == After(d, steps[..k]).twin
    {
      CommitAfterOwnRead(d, steps, k);
    }
    FreshCommitsLoseNothing(d, steps);
  }

  // ----------------------------------------------- what operations in a row amount to

  function LastTopology(ops: seq<Op>, start: Option<string>): Option<string> {
    if ops == [] then start
    else
      var last := ops[|ops| - 1];
      if last.SetTopology? then Some(last.topology) else LastTopology(ops[..|ops| - 1], start)
  }

  function LastPolicies(ops: seq<Op>, start: Option<string>): Option<string> {
    if ops == [] then start
    else
      var last := ops[|ops| - 1];
      if last.SetPolicies? then Some(last.policies) else LastPolicies(ops[..|ops| - 1], start)
  }

  /** One after the other, operations append their jobs in order, leave the last topology and the
      last policies, and touch nothing else. */
  lemma {:induction false} SequentialMeans(d: Desired, ops: seq<Op>)
    ensures var r := Sequential(d, ops);
            && JobsOf(r) == JobsOf(d) + Added(ops)
            && r.topology == LastTopology(ops, d.topology)
            && r.policies == LastPolicies(ops, d.policies)
            && r.rest == d.rest
  {
    if ops != [] {
      SequentialMeans(d, ops[..|ops| - 1]);
    }
  }

  /** Calls whose snapshot is still the stored twin when they write lose nothing: an etag taken from
      the snapshot would enforce this. */
  lemma FreshCommitsLoseNothing(d: Desired, steps: seq<Step>)
    requires forall k :: 0 <= k < |steps| ==>
               var s := After(d, steps[..k]);
               steps[k].Commit? && Enabled(s, steps[k]) ==> s.pending[steps[k].task].snapshot == s.twin
    ensures Serial(d, steps) && Complete(d, steps)
  {
    hide After, Serial, Complete;
    SerialIff(d, steps);
    CompleteIff(d, steps);
  }

  /** Two overlapping calls on an empty twin: the second write erases the first job. */
  lemma OverlapLosesAJob(d: Desired, first: Job, second: Job)
    requires d.jobs.None? && first != second
    ensures var s := After(d, [Read(0, AddJob(first)), Read(1, AddJob(second)), Commit(0), Commit(1)]);
            JobsOf(s.twin) == [second] && Log(s) == [first, second]
  {
    var steps := [Read(0, AddJob(first)), Read(1, AddJob(second)), Commit(0), Commit(1)];
    AfterStep(d, steps, 0);
    AfterStep(d, steps, 1);
    AfterStep(d, steps, 2);
    AfterStep(d, steps, 3);
    assert steps[..0] == [] && steps[..4] == steps;
    var s2 := After(d, steps[..2]);
    assert s2.twin == d && s2.pending[0].op == AddJob(first) && s2.pending[1].op == AddJob(second);
    var s3 := After(d, steps[..3]);
    LogGrows(s2, Commit(0));
    LogGrows(s3, Commit(1));
  }

  // ------------------------------------------------------------------- the service

  /** The service and the registry it writes to. The flags say whether the registry answers. */
  class IotHubService {
    var twins: map<string, Desired>

    constructor (twins: map<string, Desired>)
      ensures this.twins == twins
    {
      this.twins := twins;
    }

    method GetDeviceTwin(deviceId: string, reachable: bool) returns (twin: Option<Desired>)
      ensures twin == if reachable && deviceId in twins then Some(twins[deviceId]) else None
    {
      if reachable && deviceId in twins {
        return Some(twins[deviceId]);
      }
      return None;
    }

    method UpdateTwinDesiredProperties(deviceId: string, patch: Desired, reachable: bool) returns (ok: bool)
      modifies this
      ensures ok <==> reachable && deviceId in old(twins)
      ensures twins == if ok then old(twins)[deviceId := Merge(old(twins)[deviceId], patch)] else old(twins)
    {
      if !reachable || deviceId !in twins {
        return false;
      }
      twins := twins[deviceId := Merge(twins[deviceId], patch)];
      return true;
    }

    /** One of the three operations with nothing in between: all or nothing. */
    method Perform(deviceId: string, op: Op, canRead: bool, canWrite: bool) returns (ok: bool)
      modifies this
      ensures ok <==> canRead && canWrite && deviceId in old(twins)
      ensures twins == if ok then old(twins)[deviceId := Extended(op, old(twins)[deviceId])] else old(twins)
    {
      var twin := GetDeviceTwin(deviceId, canRead);
      if twin.None? {
        return false;
      }
      ok := UpdateTwinDesiredProperties(deviceId, Extended(op, twin.value), canWrite);
      FreshIsCurrent(op, twin.value);
      CommitIsIntendedIff(op, twin.value, twin.value);
    }

    method AddJobToTwin(deviceId: string, job: Job, canRead: bool, canWrite: bool) returns (ok: bool)
      modifies this
      ensures ok <==> canRead && canWrite && deviceId in old(twins)
      ensures twins == if ok then old(twins)[deviceId := Extended(AddJob(job), old(twins)[deviceId])] else old(twins)
    {
      ok := Perform(deviceId, AddJob(job), canRead, canWrite);
    }

    method UpdateTopologyMapping(deviceId: string, topology: string, canRead: bool, canWrite: bool) returns (ok: bool)
      modifies this
      ensures ok <==> canRead && canWrite && deviceId in old(twins)
      ensures twins ==
              if ok then old(twins)[deviceId := old(twins)[deviceId].(topology := Some(topology))] else old(twins)
    {
      ok := Perform(deviceId, SetTopology(topology), canRead, canWrite);
    }

    method UpdateHubPolicies(deviceId: string, policies: string, canRead: bool, canWrite: bool) returns (ok: bool)
      modifies this
      ensures ok <==> canRead && canWrite && deviceId in old(twins)
      ensures twins ==
              if ok then old(twins)[deviceId := old(twins)[deviceId].(policies := Some(policies))] else old(twins)
    {
      ok := Perform(deviceId, SetPolicies(policies), canRead, canWrite);
    }
  }
}
