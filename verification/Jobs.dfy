/** The jobs table and its hand-over to the hubs' device twins
    (backend/api/src/modules/jobs/jobs.service.ts). Calls do not overlap here; module Twin treats
    overlapping twin writes. Ids, error texts and the clock are parameters. */
module Jobs {
  import opened Options
  import Twin

  datatype Status = Queued | Running | Succeeded | Failed | Timeout | Cancelled

  datatype JobData = JobData(kind: string, hubId: Option<string>, nodeId: Option<string>, payload: string,
                             timeoutSeconds: Option<nat>, createdBy: string)

  datatype Row = Row(data: JobData, status: Status, createdAt: nat, updatedAt: nat,
                     startedAt: Option<nat>, completedAt: Option<nat>,
                     errorCode: Option<string>, errorMessage: Option<string>, result: Option<string>)

  const DEFAULT_TIMEOUT: nat := 300

  // a missing or empty string is false in a condition
  predicate Truthy(s: Option<string>) { s.Some? && s.value != "" }

  function NewRow(data: JobData, now: nat): Row {
    Row(data, Queued, now, now, None, None, None, None, None)
  }

  function PayloadOf(id: string, row: Row): Twin.Job {
    var t := row.data.timeoutSeconds;
    Twin.Job(id, row.data.kind, row.data.nodeId, row.data.payload, row.createdAt,
             if t.Some? && t.value != 0 then t.value else DEFAULT_TIMEOUT)
  }

  /** updateJobStatus on the row it found. */
  function Updated(row: Row, status: Status, change: Change, now: nat): Row {
    row.(status := status,
         updatedAt := now,
         startedAt := if status.Running? && row.startedAt.None? then Some(now) else row.startedAt,
         completedAt := if status.Succeeded? || status.Failed? || status.Timeout? then Some(now) else row.completedAt,
         errorCode := if Truthy(change.errorCode) then change.errorCode else row.errorCode,
         errorMessage := if Truthy(change.errorMessage) then change.errorMessage else row.errorMessage,
         result := if change.result.Some? then change.result else row.result)
  }

  datatype Change = Change(errorCode: Option<string>, errorMessage: Option<string>, result: Option<string>)

  const NOTHING: Change := Change(None, None, None)

  /** A comparison with NULL is unknown in SQL, and WHERE takes only what is known to be true. */
  function SqlLess(a: Option<nat>, b: int): Option<bool> { if a.None? then None else Some(a.value < b) }

  predicate Expired(row: Row, cutoff: int) {
    (row.status.Succeeded? || row.status.Failed? || row.status.Timeout? || row.status.Cancelled?) &&
    SqlLess(row.completedAt, cutoff) == Some(true)
  }

  function Kept(rows: map<string, Row>, cutoff: int): map<string, Row> {
    map id | id in rows && !Expired(rows[id], cutoff) :: rows[id]
  }

  // ------------------------------------------------------------------------- runs

  /** What became of the hand-over of a created job. */
  datatype Outcome = NoHub | Sent(hub: string) | SendFailed

  /** outcomes: every id ever created, also those cleaned up since. */
  datatype World = World(rows: map<string, Row>, twins: map<string, Twin.Desired>, outcomes: map<string, Outcome>)

  datatype Op =
    | Create(id: string, data: JobData, now: nat, canRead: bool, canWrite: bool, failure: string)
    | Update(id: string, status: Status, change: Change, now: nat)
    | Cleanup(cutoff: int)
    | Configure(hub: string, op: Twin.Op)

  function Apply(w: World, op: Op): World {
    match op
    case Create(id, data, now, canRead, canWrite, failure) =>
      var row := NewRow(data, now);
      if id in w.outcomes then w
      else if !Truthy(data.hubId) then
        w.(rows := w.rows[id := row], outcomes := w.outcomes[id := NoHub])
      else if canRead && canWrite && data.hubId.value in w.twins then
        var hub := data.hubId.value;
        World(w.rows[id := row],
              w.twins[hub := Twin.Extended(Twin.AddJob(PayloadOf(id, row)), w.twins[hub])],
              w.outcomes[id := Sent(hub)])
      else
        w.(rows := w.rows[id := row.(status := Failed, errorMessage := Some(failure))],
           outcomes := w.outcomes[id := SendFailed])
    case Update(id, status, change, now) =>
      if id in w.rows then w.(rows := w.rows[id := Updated(w.rows[id], status, change, now)]) else w
    case Cleanup(cutoff) =>
      w.(rows := Kept(w.rows, cutoff))
    case Configure(hub, o) =>
      if hub in w.twins && !o.AddJob? then w.(twins := w.twins[hub := Twin.Extended(o, w.twins[hub])]) else w
  }

  function Start(twins: map<string, Twin.Desired>): World { World(map[], twins, map[]) }

  function After(twins: map<string, Twin.Desired>, ops: seq<Op>): World {
    if ops == [] then Start(twins) else Apply(After(twins, ops[..|ops| - 1]), ops[|ops| - 1])
  }

  // ------------------------------------------------------- a row is its own history

  datatype Report = Report(status: Status, change: Change, now: nat)

  /** The first call that created a job of this id. */
  function Creation(ops: seq<Op>, id: string): (c: Option<Op>)
    ensures c.Some? ==> c.value.Create? && c.value.id == id
  {
    if ops == [] then None
    else
      var before, op := Creation(ops[..|ops| - 1], id), ops[|ops| - 1];
      if before.None? && op.Create? && op.id == id then Some(op) else before
  }

  /** The status reports on a job since it was created. */
  function Reports(ops: seq<Op>, id: string): seq<Report> {
    if ops == [] then []
    else
      var before, op := Reports(ops[..|ops| - 1], id), ops[|ops| - 1];
      match op
      case Create(i, _, _, _, _, _) => if i == id && Creation(ops[..|ops| - 1], id).None? then [] else before
      case Update(i, status, change, now) => if i == id then before + [Report(status, change, now)] else before
      case _ => before
  }

  function FirstRunning(reports: seq<Report>): Option<nat> {
    if reports == [] then None
    else if reports[0].status == Running then Some(reports[0].now)
    else FirstRunning(reports[1..])
  }

  /** When the job was last reported succeeded, failed or timed out. */
  function LastEnd(reports: seq<Report>): Option<nat> {
    if reports == [] then None
    else
      var last := reports[|reports| - 1];
      if last.status in {Succeeded, Failed, Timeout} then Some(last.now) else LastEnd(reports[..|reports| - 1])
  }

  /** The last error code, message and result that were given at all, or what was there before. */
  function LastCode(reports: seq<Report>): Option<string> {
    if reports == [] then None
    else
      var code := reports[|reports| - 1].change.errorCode;
      if code != None && code.value != "" then code else LastCode(reports[..|reports| - 1])
  }

  function LastMessage(reports: seq<Report>, start: Option<string>): Option<string> {
    if reports == [] then start
    else
      var message := reports[|reports| - 1].change.errorMessage;
      if message != None && message.value != "" then message else LastMessage(reports[..|reports| - 1], start)
  }

  function LastResult(reports: seq<Report>): Option<string> {
    if reports == [] then None
    else
      var result := reports[|reports| - 1].change.result;
      if result != None then result else LastResult(reports[..|reports| - 1])
  }

  function LastStatus(reports: seq<Report>, outcome: Outcome): Status {
    if reports != [] then reports[|reports| - 1].status else if outcome == SendFailed then Failed else Queued
  }

  lemma {:induction false} FirstRunningSnoc(reports: seq<Report>, r: Report)
    ensures FirstRunning(reports + [r]) ==
            if FirstRunning(reports).Some? then FirstRunning(reports)
            else if r.status.Running? then Some(r.now) else None
  {
    if reports != [] {
      assert (reports + [r])[1..] == reports[1..] + [r];
      FirstRunningSnoc(reports[1..], r);
    }
  }

  /** Every column of a row, from the call that created it and the reports since. */
  predicate Faithful(row: Row, creation: Op, reports: seq<Report>, outcome: Outcome)
    requires creation.Create?
  {
    && row.data == creation.data
    && row.createdAt == creation.now
    && row.updatedAt == (if reports == [] then creation.now else reports[|reports| - 1].now)
    && row.status == LastStatus(reports, outcome)
    && row.startedAt == FirstRunning(reports)
    && row.completedAt == LastEnd(reports)
    && row.errorCode == LastCode(reports)
    && row.errorMessage == LastMessage(reports, if outcome == SendFailed then Some(creation.failure) else None)
    && row.result == LastResult(reports)
  }

  lemma UpdateFaithful(row: Row, creation: Op, reports: seq<Report>, outcome: Outcome,
                       status: Status, change: Change, now: nat)
    requires creation.Create? && Faithful(row, creation, reports, outcome)
    ensures Faithful(Updated(row, status, change, now), creation, reports + [Report(status, change, now)], outcome)
  {
    var r := Report(status, change, now);
    FirstRunningSnoc(reports, r);
    assert (reports + [r])[..|reports|] == reports;
  }

  lemma {:induction false} OutcomesAreCreations(twins: map<string, Twin.Desired>, ops: seq<Op>, id: string)
    ensures id in After(twins, ops).outcomes <==> Creation(ops, id).Some?
    ensures id in After(twins, ops).rows ==> id in After(twins, ops).outcomes
  {
    if ops != [] {
      OutcomesAreCreations(twins, ops[..|ops| - 1], id);
    }
  }

  lemma NewRowFaithful(w: World, op: Op)
    requires op.Create? && op.id !in w.outcomes
    ensures op.id in Apply(w, op).rows && op.id in Apply(w, op).outcomes
    ensures Faithful(Apply(w, op).rows[op.id], op, [], Apply(w, op).outcomes[op.id])
  {
  }

  lemma OtherRowsStay(w: World, op: Op, id: string)
    requires id in w.rows && id in w.outcomes && id in Apply(w, op).rows && !(op.Update? && op.id == id)
    ensures Apply(w, op).rows[id] == w.rows[id]
    ensures id in Apply(w, op).outcomes && Apply(w, op).outcomes[id] == w.outcomes[id]
  {
    hide Expired, Truthy;
  }

  lemma NoOtherNewRows(w: World, op: Op, id: string)
    requires id !in w.rows && id in Apply(w, op).rows
    ensures op.Create? && op.id == id && id !in w.outcomes
  {
    hide Expired, Truthy;
  }

  lemma RowUpdated(w: World, op: Op)
    requires op.Update? && op.id in w.rows
    ensures var w' := Apply(w, op);
            op.id in w'.rows && w'.rows[op.id] == Updated(w.rows[op.id], op.status, op.change, op.now) &&
            w'.outcomes == w.outcomes
  {
    hide Updated;
  }

  /** Over any run, a row still in the table shows in every column exactly what its creation and
      its reports say. */
  lemma {:induction false} RowIsItsHistory(twins: map<string, Twin.Desired>, ops: seq<Op>, id: string)
    requires id in After(twins, ops).rows
    ensures id in After(twins, ops).outcomes && Creation(ops, id).Some?
    ensures var w := After(twins, ops);
            Faithful(w.rows[id], Creation(ops, id).value, Reports(ops, id), w.outcomes[id])
  {
    hide Apply, Faithful, Updated;
    var before, op := ops[..|ops| - 1], ops[|ops| - 1];
    var w := After(twins, before);
    OutcomesAreCreations(twins, ops, id);
    OutcomesAreCreations(twins, before, id);
    if id in w.rows {
      RowIsItsHistory(twins, before, id);
      if op.Update? && op.id == id {
        RowUpdated(w, op);
        UpdateFaithful(w.rows[id], Creation(before, id).value, Reports(before, id), w.outcomes[id],
                       op.status, op.change, op.now);
      } else {
        OtherRowsStay(w, op, id);
      }
    } else {
      NoOtherNewRows(w, op, id);
      NewRowFaithful(w, op);
    }
  }

  /** Over any run, whether a created job was sent: not without a hub, and otherwise exactly when
      the registry answered both times and knows the hub. */
  lemma {:induction false} OutcomeIsDecided(twins: map<string, Twin.Desired>, ops: seq<Op>, id: string)
    requires Creation(ops, id).Some?
    ensures id in After(twins, ops).outcomes
    ensures var (c, outcome) := (Creation(ops, id).value, After(twins, ops).outcomes[id]);
            if c.data.hubId == None || c.data.hubId.value == "" then outcome == NoHub
            else if c.canRead && c.canWrite && c.data.hubId.value in twins then outcome == Sent(c.data.hubId.value)
            else outcome == SendFailed
  {
    var before, op := ops[..|ops| - 1], ops[|ops| - 1];
    var w := After(twins, before);
    OutcomesAreCreations(twins, before, id);
    HubsStay(twins, before);
    hide Apply;
    if Creation(before, id).Some? {
      OutcomeIsDecided(twins, before, id);
      StepRemembers(w, op, id);
    } else {
      DecidedAtCreation(w, op);
      assert forall h :: h in w.twins <==> h in twins;
    }
  }

  lemma DecidedAtCreation(w: World, op: Op)
    requires op.Create? && op.id !in w.outcomes
    ensures op.id in Apply(w, op).outcomes
    ensures var outcome := Apply(w, op).outcomes[op.id];
            if op.data.hubId == None || op.data.hubId.value == "" then outcome == NoHub
            else if op.canRead && op.canWrite && op.data.hubId.value in w.twins then
              outcome == Sent(op.data.hubId.value)
            else outcome == SendFailed
  {
  }

  lemma {:induction false} HubsStay(twins: map<string, Twin.Desired>, ops: seq<Op>)
    ensures After(twins, ops).twins.Keys == twins.Keys
  {
    if ops != [] {
      HubsStay(twins, ops[..|ops| - 1]);
      StepKeepsHubs(After(twins, ops[..|ops| - 1]), ops[|ops| - 1]);
    }
  }

  lemma StepKeepsHubs(w: World, op: Op)
    ensures Apply(w, op).twins.Keys == w.twins.Keys
  {
    hide Truthy, Expired;
  }

  /** Once set, the start time of a row in the table never changes. */
  lemma {:induction false} StartedOnce(twins: map<string, Twin.Desired>, ops: seq<Op>, more: seq<Op>, id: string)
    requires id in After(twins, ops).rows && After(twins, ops).rows[id].startedAt.Some?
    requires id in After(twins, ops + more).rows
    ensures After(twins, ops + more).rows[id].startedAt == After(twins, ops).rows[id].startedAt
  {
    if more == [] {
      assert ops + more == ops;
    } else {
      var less := more[..|more| - 1];
      assert (ops + more)[..|ops + more| - 1] == ops + less;
      OutcomesAreCreations(twins, ops, id);
      KnownForever(twins, ops, less, id);
      StartedOnce(twins, ops, less, id);
    }
  }

  lemma StepRemembers(w: World, op: Op, id: string)
    requires id in w.outcomes
    ensures id in Apply(w, op).outcomes && Apply(w, op).outcomes[id] == w.outcomes[id]
  {
  }

  lemma {:induction false} KnownForever(twins: map<string, Twin.Desired>, ops: seq<Op>, more: seq<Op>, id: string)
    requires id in After(twins, ops).outcomes
    ensures id in After(twins, ops + more).outcomes
    ensures After(twins, ops + more).outcomes[id] == After(twins, ops).outcomes[id]
  {
    hide Apply;
    if more == [] {
      assert ops + more == ops;
    } else {
      var less := more[..|more| - 1];
      assert (ops + more)[..|ops + more| - 1] == ops + less;
      KnownForever(twins, ops, less, id);
      StepRemembers(After(twins, ops + less), more[|more| - 1], id);
    }
  }

  // ---------------------------------------------------------------------- cleanup

  /** A created job is missing exactly when some cleanup came when the job's last reported status
      was removable and its last reported end lay before the cutoff. */
  ghost predicate Removed(twins: map<string, Twin.Desired>, ops: seq<Op>, id: string) {
    exists k :: 0 <= k < |ops| && RemovedBy(twins, ops[..k], ops[k], id)
  }

  predicate RemovedBy(twins: map<string, Twin.Desired>, before: seq<Op>, op: Op, id: string) {
    var w, ended := After(twins, before), LastEnd(Reports(before, id));
    && op.Cleanup?
    && id in w.outcomes
    && LastStatus(Reports(before, id), w.outcomes[id]) in {Succeeded, Failed, Timeout, Cancelled}
    && ended != None
    && ended.value < op.cutoff
  }

  lemma RemovedSnoc(twins: map<string, Twin.Desired>, ops: seq<Op>, id: string)
    requires ops != []
    ensures Removed(twins, ops, id) <==>
            Removed(twins, ops[..|ops| - 1], id) || RemovedBy(twins, ops[..|ops| - 1], ops[|ops| - 1], id)
  {
    hide RemovedBy;
    var n := |ops| - 1;
    if Removed(twins, ops, id) {
      var k :| 0 <= k < |ops| && RemovedBy(twins, ops[..k], ops[k], id);
      assert k < n ==> ops[..n][..k] == ops[..k] && ops[..n][k] == ops[k];
    }
    if Removed(twins, ops[..n], id) {
      var k :| 0 <= k < n && RemovedBy(twins, ops[..n][..k], ops[..n][k], id);
      assert ops[..n][..k] == ops[..k] && ops[..n][k] == ops[k];
    }
  }

  /** What one cleanup does to the table: a row goes exactly when its status is one of the four, it
      has a completion time, and that time lies before the cutoff. Whatever stays is unchanged. */
  lemma CleanupRemoves(rows: map<string, Row>, cutoff: int, id: string)
    ensures id in Kept(rows, cutoff) ==> id in rows && Kept(rows, cutoff)[id] == rows[id]
    ensures id in rows ==>
              (id !in Kept(rows, cutoff) <==>
               rows[id].status in {Succeeded, Failed, Timeout, Cancelled} && rows[id].completedAt != None &&
               rows[id].completedAt.value < cutoff)
  {
  }

  /** A second cleanup with the same or an earlier cutoff removes nothing. */
  lemma CleanupAgain(rows: map<string, Row>, cutoff: int, earlier: int)
    requires earlier <= cutoff
    ensures Kept(Kept(rows, cutoff), earlier) == Kept(rows, cutoff)
  {
    hide Kept;
    forall id
      ensures id in Kept(Kept(rows, cutoff), earlier) <==> id in Kept(rows, cutoff)
    {
      CleanupRemoves(rows, cutoff, id);
      CleanupRemoves(Kept(rows, cutoff), earlier, id);
    }
    forall id | id in Kept(rows, cutoff)
      ensures Kept(Kept(rows, cutoff), earlier)[id] == Kept(rows, cutoff)[id]
    {
      CleanupRemoves(Kept(rows, cutoff), earlier, id);
    }
  }

  /** What one more call does to a row that is there, or that is not there any more. */
  lemma StepMissing(w: World, op: Op, id: string)
    ensures id in w.rows ==>
              (id !in Apply(w, op).rows <==>
               op.Cleanup? && w.rows[id].status in {Succeeded, Failed, Timeout, Cancelled} &&
               w.rows[id].completedAt != None && w.rows[id].completedAt.value < op.cutoff)
    ensures id in w.outcomes && id !in w.rows ==> id !in Apply(w, op).rows
    ensures id !in w.outcomes && id in Apply(w, op).outcomes ==> op.Create? && id in Apply(w, op).rows
  {
    hide Kept;
    if op.Cleanup? {
      CleanupRemoves(w.rows, op.cutoff, id);
    }
  }

  /** Over any run, a created job is missing exactly when some cleanup found it so. */
  lemma {:induction false} MissingIff(twins: map<string, Twin.Desired>, ops: seq<Op>, id: string)
    requires id in After(twins, ops).outcomes
    ensures id !in After(twins, ops).rows <==> Removed(twins, ops, id)
  {
    hide Apply, Removed, Reports;
    var before, op := ops[..|ops| - 1], ops[|ops| - 1];
    var w := After(twins, before);
    RemovedSnoc(twins, ops, id);
    StepMissing(w, op, id);
    if id in w.outcomes {
      MissingIff(twins, before, id);
      if id in w.rows {
        RowIsItsHistory(twins, before, id);
      }
    } else {
      NotRemovedYet(twins, before, id);
      OutcomesAreCreations(twins, before, id);
    }
  }

  lemma {:induction false} NotRemovedYet(twins: map<string, Twin.Desired>, ops: seq<Op>, id: string)
    requires id !in After(twins, ops).outcomes
    ensures !Removed(twins, ops, id)
  {
    if ops != [] {
      RemovedSnoc(twins, ops, id);
      NotRemovedYet(twins, ops[..|ops| - 1], id);
    }
  }

  lemma {:induction false} NoEndReported(ops: seq<Op>, id: string)
    requires forall k :: 0 <= k < |ops| ==>
               !(ops[k].Update? && ops[k].id == id && ops[k].status in {Succeeded, Failed, Timeout})
    ensures LastEnd(Reports(ops, id)).None?
  {
    if ops != [] {
      var before, op := ops[..|ops| - 1], ops[|ops| - 1];
      NoEndReported(before, id);
      if op.Update? && op.id == id {
        var reports := Reports(before, id);
        assert (reports + [Report(op.status, op.change, op.now)])[..|reports|] == reports;
      }
    }
  }

  /** A job never reported as ended stays for ever: also one whose sending failed, and one only
      ever cancelled, since neither sets the completion time. */
  lemma NeverCleaned(twins: map<string, Twin.Desired>, ops: seq<Op>, id: string)
    requires id in After(twins, ops).outcomes
    requires forall k :: 0 <= k < |ops| ==>
               !(ops[k].Update? && ops[k].id == id && ops[k].status in {Succeeded, Failed, Timeout})
    ensures id in After(twins, ops).rows
  {
    MissingIff(twins, ops, id);
    if Removed(twins, ops, id) {
      var k :| 0 <= k < |ops| && RemovedBy(twins, ops[..k], ops[k], id);
      NoEndReported(ops[..k], id);
    }
  }

  // ------------------------------------------------------------- database and twins

  function Copies(jobs: seq<Twin.Job>, id: string): nat {
    if jobs == [] then 0
    else Copies(jobs[..|jobs| - 1], id) + (if jobs[|jobs| - 1].jobId == id then 1 else 0)
  }

  function Listed(twins: map<string, Twin.Desired>, hub: string, id: string): nat
    requires hub in twins
  {
    Copies(Twin.JobsOf(twins[hub]), id)
  }

  lemma CopiesSnoc(jobs: seq<Twin.Job>, job: Twin.Job, id: string)
    ensures Copies(jobs + [job], id) == Copies(jobs, id) + (if job.jobId == id then 1 else 0)
  {
    assert (jobs + [job])[..|jobs|] == jobs;
  }

  /** Agreement over every run: a created job is in its hub's list once more than at the start if
      it was sent there, and in no other list; a job that could not be sent is in none. */
  lemma {:induction false} TwinsAgree(twins: map<string, Twin.Desired>, ops: seq<Op>, hub: string, id: string)
    requires hub in twins
    ensures var w := After(twins, ops);
            && hub in w.twins
            && Listed(w.twins, hub, id) ==
               Listed(twins, hub, id) + (if id in w.outcomes && w.outcomes[id] == Sent(hub) then 1 else 0)
  {
    if ops != [] {
      var before, op := ops[..|ops| - 1], ops[|ops| - 1];
      TwinsAgree(twins, before, hub, id);
      StepAgrees(After(twins, before), op, hub, id);
    }
  }

  predicate Sends(w: World, op: Op, hub: string, id: string) {
    && op.Create? && op.id == id && id !in w.outcomes
    && Truthy(op.data.hubId) && op.canRead && op.canWrite && op.data.hubId.value == hub
  }

  lemma StepAgrees(w: World, op: Op, hub: string, id: string)
    requires hub in w.twins
    ensures var w' := Apply(w, op);
            && hub in w'.twins
            && Listed(w'.twins, hub, id) == Listed(w.twins, hub, id) + (if Sends(w, op, hub, id) then 1 else 0)
            && (id in w'.outcomes && w'.outcomes[id] == Sent(hub) <==>
                (id in w.outcomes && w.outcomes[id] == Sent(hub)) || Sends(w, op, hub, id))
            && !(id in w.outcomes && Sends(w, op, hub, id))
  {
    if op.Create? {
      CreateAgrees(w, op, hub, id);
    }
  }

  lemma CreateAgrees(w: World, op: Op, hub: string, id: string)
    requires hub in w.twins && op.Create?
    ensures var w' := Apply(w, op);
            && hub in w'.twins
            && Listed(w'.twins, hub, id) == Listed(w.twins, hub, id) + (if Sends(w, op, hub, id) then 1 else 0)
            && (id in w'.outcomes && w'.outcomes[id] == Sent(hub) <==>
                (id in w.outcomes && w.outcomes[id] == Sent(hub)) || Sends(w, op, hub, id))
  {
    hide Copies;
    var job := PayloadOf(op.id, NewRow(op.data, op.now));
    CopiesSnoc(Twin.JobsOf(w.twins[hub]), job, id);
    if op.id !in w.outcomes && Truthy(op.data.hubId) && op.canRead && op.canWrite && op.data.hubId.value in w.twins {
      assert Apply(w, op).outcomes == w.outcomes[op.id := Sent(op.data.hubId.value)];
    }
  }

  /** What a hub is told about a created job. */
  function Ticket(creation: Op): Twin.Job
    requires creation.Create?
  {
    Twin.Job(creation.id, creation.data.kind, creation.data.nodeId, creation.data.payload, creation.now,
             if creation.data.timeoutSeconds in {None, Some(0)} then 300 else creation.data.timeoutSeconds.value)
  }

  lemma StepLists(w: World, op: Op, hub: string, job: Twin.Job)
    requires hub in w.twins
    ensures hub in Apply(w, op).twins
    ensures job in Twin.JobsOf(w.twins[hub]) ==> job in Twin.JobsOf(Apply(w, op).twins[hub])
    ensures op.Create? && op.id !in w.outcomes && op.id in Apply(w, op).outcomes &&
            Apply(w, op).outcomes[op.id] == Sent(hub) ==>
              Ticket(op) in Twin.JobsOf(Apply(w, op).twins[hub])
  {
    if op.Create? {
      CreateLists(w, op, hub, job);
    }
  }

  lemma CreateLists(w: World, op: Op, hub: string, job: Twin.Job)
    requires hub in w.twins && op.Create?
    ensures hub in Apply(w, op).twins
    ensures job in Twin.JobsOf(w.twins[hub]) ==> job in Twin.JobsOf(Apply(w, op).twins[hub])
    ensures op.id !in w.outcomes && op.id in Apply(w, op).outcomes && Apply(w, op).outcomes[op.id] == Sent(hub) ==>
              Ticket(op) in Twin.JobsOf(Apply(w, op).twins[hub])
  {
    var jobs, ticket := Twin.JobsOf(w.twins[hub]), PayloadOf(op.id, NewRow(op.data, op.now));
    assert ticket == Ticket(op);
    hide PayloadOf, NewRow, Ticket, Truthy;
    assert ticket in jobs + [ticket];
    assert job in jobs ==> job in jobs + [ticket];
  }

  /** What was sent is what was created: a job sent to a hub is, from then on, in the hub's list with
      the type, target, payload and creation time it was created with, and its timeout or 300. */
  lemma {:induction false} SentAsCreated(twins: map<string, Twin.Desired>, ops: seq<Op>, hub: string, id: string)
    requires hub in twins && id in After(twins, ops).outcomes && After(twins, ops).outcomes[id] == Sent(hub)
    ensures hub in After(twins, ops).twins && Creation(ops, id).Some?
    ensures Ticket(Creation(ops, id).value) in Twin.JobsOf(After(twins, ops).twins[hub])
  {
    hide Apply, Ticket;
    var before, op := ops[..|ops| - 1], ops[|ops| - 1];
    var w := After(twins, before);
    OutcomesAreCreations(twins, ops, id);
    OutcomesAreCreations(twins, before, id);
    HubsStay(twins, before);
    if id in w.outcomes {
      StepRemembers(w, op, id);
      SentAsCreated(twins, before, hub, id);
      StepLists(w, op, hub, Ticket(Creation(before, id).value));
    } else {
      StepLists(w, op, hub, PayloadOf(id, NewRow(Creation(ops, id).value.data, 0)));
    }
  }

  /** A created job still queued without any report is listed exactly once at its hub, one marked
      failed without any report is listed nowhere. */
  lemma UnreportedAgree(twins: map<string, Twin.Desired>, ops: seq<Op>, hub: string, id: string)
    requires hub in twins && Listed(twins, hub, id) == 0
    requires id in After(twins, ops).rows && Reports(ops, id) == []
    ensures id in After(twins, ops).outcomes && hub in After(twins, ops).twins
    ensures var w := After(twins, ops);
            && (w.rows[id].status == Failed <==> w.outcomes[id] == SendFailed)
            && (w.rows[id].status == Failed ==> Listed(w.twins, hub, id) == 0)
            && (w.rows[id].status == Queued && w.rows[id].data.hubId != None && w.rows[id].data.hubId.value != "" ==>
                  Listed(w.twins, hub, id) == if w.rows[id].data.hubId.value == hub then 1 else 0)
  {
    RowIsItsHistory(twins, ops, id);
    OutcomeIsDecided(twins, ops, id);
    TwinsAgree(twins, ops, hub, id);
  }

  // ------------------------------------------------------------------- statistics

  function WithStatus(rows: map<string, Row>, status: Status): set<string> {
    set id | id in rows && rows[id].status == status
  }

  function Count(rows: map<string, Row>, status: Status): nat { |WithStatus(rows, status)| }

  function Rank(status: Status): nat {
    match status
    case Queued => 0
    case Running => 1
    case Succeeded => 2
    case Failed => 3
    case Timeout => 4
    case Cancelled => 5
  }

  function RankedBelow(rows: map<string, Row>, k: nat): set<string> {
    set id | id in rows && Rank(rows[id].status) < k
  }

  lemma CountNext(rows: map<string, Row>, status: Status)
    ensures |RankedBelow(rows, Rank(status) + 1)| == |RankedBelow(rows, Rank(status))| + Count(rows, status)
  {
    var less, same := RankedBelow(rows, Rank(status)), WithStatus(rows, status);
    assert less !! same;
    assert RankedBelow(rows, Rank(status) + 1) == less + same;
  }

  /** The four reported counts, the timed-out and the cancelled jobs make up the total. */
  lemma StatisticsAddUp(rows: map<string, Row>)
    ensures |rows| == Count(rows, Queued) + Count(rows, Running) + Count(rows, Succeeded) + Count(rows, Failed) +
                      Count(rows, Timeout) + Count(rows, Cancelled)
  {
    assert RankedBelow(rows, 0) == {} && RankedBelow(rows, 6) == rows.Keys;
    hide Count, RankedBelow;
    CountNext(rows, Queued);
    CountNext(rows, Running);
    CountNext(rows, Succeeded);
    CountNext(rows, Failed);
    CountNext(rows, Timeout);
    CountNext(rows, Cancelled);
  }

  // ------------------------------------------------------------------- the service

  datatype Statistics = Statistics(total: nat, queued: nat, running: nat, succeeded: nat, failed: nat)

  class JobsService {
    var rows: map<string, Row>
    const hub: Twin.IotHubService
    ghost var outcomes: map<string, Outcome>

    ghost function Model(): World
      reads this, hub
    {
      World(rows, hub.twins, outcomes)
    }

    constructor (hub: Twin.IotHubService)
      ensures this.hub == hub && Model() == Start(hub.twins)
    {
      this.hub := hub;
      rows := map[];
      outcomes := map[];
    }

    method CreateJob(id: string, data: JobData, now: nat, canRead: bool, canWrite: bool, failure: string)
      returns (row: Row)
      requires id !in outcomes
      modifies this, hub
      ensures Model() == Apply(old(Model()), Create(id, data, now, canRead, canWrite, failure))
      ensures id in rows && row == rows[id]
    {
      hide PayloadOf, Twin.Extended;
      row := NewRow(data, now);
      rows := rows[id := row];
      outcomes := outcomes[id := NoHub];
      if Truthy(row.data.hubId) {
        var sent := SendJobToHub(id, row, canRead, canWrite);
        if sent {
          outcomes := outcomes[id := Sent(row.data.hubId.value)];
        } else {
          row := row.(status := Failed, errorMessage := Some(failure));
          rows := rows[id := row];
          outcomes := outcomes[id := SendFailed];
          assert rows == old(rows)[id := row];
        }
        assert outcomes == old(outcomes)[id := if sent then Sent(row.data.hubId.value) else SendFailed];
      }
    }

    method SendJobToHub(id: string, row: Row, canRead: bool, canWrite: bool) returns (sent: bool)
      requires row.data.hubId.Some?
      modifies hub
      ensures sent <==> canRead && canWrite && row.data.hubId.value in old(hub.twins)
      ensures var h := row.data.hubId.value;
              hub.twins ==
              if sent then old(hub.twins)[h := Twin.Extended(Twin.AddJob(PayloadOf(id, row)), old(hub.twins)[h])]
              else old(hub.twins)
    {
      sent := hub.AddJobToTwin(row.data.hubId.value, PayloadOf(id, row), canRead, canWrite);
    }

    method UpdateJobStatus(id: string, status: Status, change: Change, now: nat) returns (updated: Option<Row>)
      modifies this
      ensures Model() == Apply(old(Model()), Update(id, status, change, now))
      ensures updated == if id in rows then Some(rows[id]) else None
    {
      if id !in rows {
        return None;
      }
      var job := rows[id];
      job := job.(status := status, updatedAt := now);
      if status == Running && job.startedAt.None? {
        job := job.(startedAt := Some(now));
      }
      if status == Succeeded || status == Failed || status == Timeout {
        job := job.(completedAt := Some(now));
      }
      if Truthy(change.errorCode) {
        job := job.(errorCode := change.errorCode);
      }
      if Truthy(change.errorMessage) {
        job := job.(errorMessage := change.errorMessage);
      }
      if change.result.Some? {
        job := job.(result := change.result);
      }
      rows := rows[id := job];
      return Some(job);
    }

    method CancelJob(id: string, now: nat) returns (updated: Option<Row>)
      modifies this
      ensures Model() == Apply(old(Model()), Update(id, Cancelled, NOTHING, now))
      ensures updated == if id in rows then Some(rows[id]) else None
    {
      updated := UpdateJobStatus(id, Cancelled, NOTHING, now);
    }

    method GetJobStatistics() returns (s: Statistics)
      ensures s == Statistics(|rows|, Count(rows, Queued), Count(rows, Running), Count(rows, Succeeded),
                              Count(rows, Failed))
      ensures s.total == s.queued + s.running + s.succeeded + s.failed + Count(rows, Timeout) + Count(rows, Cancelled)
    {
      StatisticsAddUp(rows);
      s := Statistics(|rows|, Count(rows, Queued), Count(rows, Running), Count(rows, Succeeded), Count(rows, Failed));
    }

    method CleanupOldJobs(cutoff: int) returns (affected: nat)
      modifies this
      ensures Model() == Apply(old(Model()), Cleanup(cutoff))
      ensures affected == |old(rows)| - |rows|
      ensures forall id :: id in old(rows) ==>
                (id !in rows <==>
                 old(rows)[id].status in {Succeeded, Failed, Timeout, Cancelled} &&
                 old(rows)[id].completedAt != None && old(rows)[id].completedAt.value < cutoff)
      ensures forall id :: id in rows ==> id in old(rows) && rows[id] == old(rows)[id]
    {
      var gone := set id | id in rows && Expired(rows[id], cutoff);
      affected := |gone|;
      assert Kept(rows, cutoff).Keys == rows.Keys - gone;
      rows := Kept(rows, cutoff);
    }
  }
}
