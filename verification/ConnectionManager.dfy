/** The hub's pool of BLE connections (firmware/hub_nrf54l15_ble/src/ble_central/
    connection_manager.c). A connect call takes the mutex twice: to reserve a slot, and, after the
    stack has been asked for a connection, to release the slot or to publish the connection in
    it. Between the two anything may happen. */
module ConnectionManager {
  import opened Options

  const MAX_CONNECTIONS: nat := 3

  // connection objects of the stack are numbers here
  datatype Slot = Slot(conn: Option<nat>, inUse: bool)

  const FREE: Slot := Slot(None, false)

  /** The first free slot, or the size of the table. */
  function FirstFree(slots: seq<Slot>): (i: nat)
    ensures i <= |slots|
    ensures i < |slots| ==> !slots[i].inUse
    ensures forall j :: 0 <= j < i ==> slots[j].inUse
  {
    if slots == [] || !slots[0].inUse then 0 else 1 + FirstFree(slots[1..])
  }

  /** The first slot of a connection, or the size of the table. */
  function FirstWith(slots: seq<Slot>, conn: nat): (i: nat)
    ensures i <= |slots|
    ensures i < |slots| ==> slots[i].conn == Some(conn)
    ensures forall j :: 0 <= j < i ==> slots[j].conn != Some(conn)
  {
    if slots == [] || slots[0].conn == Some(conn) then 0 else 1 + FirstWith(slots[1..], conn)
  }

  // ---------------------------------------------------------------- interleavings

  /** A connect call between its critical sections. */
  datatype Call = Reserved(slot: nat) | Created(slot: nat, conn: nat)

  /** What a slot is used for: by a call waiting for the stack, by a call that has an object to
      publish, or by a published connection; and whether the connection may still end with a
      callback. */
  datatype Use = Free | Waiting(call: nat) | Made(call: nat, conn: nat, alive: bool) | Open(conn: nat, alive: bool)

  predicate Holds(u: Use, conn: nat) { (u.Made? || u.Open?) && u.conn == conn }

  /** The table entry that belongs to a use. */
  function Entry(u: Use): Slot {
    match u
    case Free => FREE
    case Waiting(_) => Slot(None, true)
    case Made(_, _, _) => Slot(None, true)
    case Open(c, _) => Slot(Some(c), true)
  }

  function Holder(uses: seq<Use>, conn: nat): (i: nat)
    ensures i <= |uses|
    ensures i < |uses| ==> Holds(uses[i], conn)
    ensures forall j :: 0 <= j < i ==> !Holds(uses[j], conn)
  {
    if uses == [] || Holds(uses[0], conn) then 0 else 1 + Holder(uses[1..], conn)
  }

  /** slots and calls are what the program has; uses is a ghost record beside them. */
  datatype State = State(slots: seq<Slot>, calls: map<nat, Call>, uses: seq<Use>)

  const BOOT: State := State([FREE, FREE, FREE], map[], [Free, Free, Free])

  datatype Step =
    | Reserve(call: nat)               // first critical section of a connect call
    | CreateFailed(call: nat)          // the stack refuses; the slot is released
    | CreateSucceeded(call: nat, conn: nat)
    | Publish(call: nat)               // last critical section
    | EstablishFailed(conn: nat)       // connected_cb with an error
    | Disconnected(conn: nat)          // disconnected_cb

  /** The stack hands out objects nobody holds, and ends each connection once. */
  predicate Enabled(s: State, step: Step) {
    match step
    case Reserve(t) => t !in s.calls
    case CreateFailed(t) => t in s.calls && s.calls[t].Reserved?
    case CreateSucceeded(t, c) => t in s.calls && s.calls[t].Reserved? && Holder(s.uses, c) == |s.uses|
    case Publish(t) => t in s.calls && s.calls[t].Created?
    case EstablishFailed(c) => var i := Holder(s.uses, c); i < |s.uses| && s.uses[i].alive
    case Disconnected(c) => var i := Holder(s.uses, c); i < |s.uses| ==> s.uses[i].alive
  }

  function Cleared(slots: seq<Slot>, conn: nat): seq<Slot> {
    var i := FirstWith(slots, conn);
    if i < |slots| then slots[i := FREE] else slots
  }

  /** How a use changes when its connection is over. */
  function Over(u: Use): Use
    requires u.Made? || u.Open?
  {
    match u
    case Made(t, c, _) => Made(t, c, false)
    case Open(_, _) => Free
  }

  ghost predicate Sized(s: State) {
    && |s.slots| == |s.uses| == MAX_CONNECTIONS
    && forall t :: t in s.calls ==> s.calls[t].slot < MAX_CONNECTIONS
  }

  function Next(s: State, step: Step): State
    requires Sized(s)
  {
    if !Enabled(s, step) then s
    else match step
      case Reserve(t) =>
        var i := FirstFree(s.slots);
        if i == |s.slots| then s
        else State(s.slots[i := s.slots[i].(inUse := true)], s.calls[t := Reserved(i)], s.uses[i := Waiting(t)])
      case CreateFailed(t) =>
        var i := s.calls[t].slot;
        State(s.slots[i := s.slots[i].(inUse := false)], s.calls - {t}, s.uses[i := Free])
      case CreateSucceeded(t, c) =>
        var i := s.calls[t].slot;
        s.(calls := s.calls[t := Created(i, c)], uses := s.uses[i := Made(t, c, true)])
      case Publish(t) =>
        var i, c := s.calls[t].slot, s.calls[t].conn;
        var alive := s.uses[i].Made? && s.uses[i].alive;
        State(s.slots[i := s.slots[i].(conn := Some(c))], s.calls - {t}, s.uses[i := Open(c, alive)])
      case EstablishFailed(c) =>
        var i := Holder(s.uses, c);
        s.(uses := s.uses[i := s.uses[i].(alive := false)])
      case Disconnected(c) =>
        var i := Holder(s.uses, c);
        s.(slots := Cleared(s.slots, c), uses := if i < |s.uses| then s.uses[i := Over(s.uses[i])] else s.uses)
  }

  // ------------------------------------------------------- what every step keeps

  /** The table shows exactly what its slots are used for. */
  ghost predicate TableFits(s: State)
    requires Sized(s)
  {
    forall i :: 0 <= i < MAX_CONNECTIONS ==> s.slots[i] == Entry(s.uses[i])
  }

  predicate Serves(u: Use, t: nat, call: Call) {
    match call
    case Reserved(_) => u == Waiting(t)
    case Created(_, c) => u.Made? && u.call == t && u.conn == c
  }

  /** A call in progress is the user of its slot. */
  ghost predicate CallsFit(s: State)
    requires Sized(s)
  {
    forall t :: t in s.calls ==> Serves(s.uses[s.calls[t].slot], t, s.calls[t])
  }

  /** A slot used by a call is the slot of a call in progress. */
  ghost predicate UsersInProgress(s: State)
    requires Sized(s)
  {
    forall i :: 0 <= i < MAX_CONNECTIONS && (s.uses[i].Waiting? || s.uses[i].Made?) ==>
      s.uses[i].call in s.calls && s.calls[s.uses[i].call].slot == i
  }

  predicate SameConn(u: Use, v: Use) { (u.Made? || u.Open?) && Holds(v, u.conn) }

  ghost predicate ConnsApart(s: State) {
    forall i, j :: 0 <= i < j < |s.uses| ==> !SameConn(s.uses[i], s.uses[j])
  }

  ghost predicate Safe(s: State) {
    Sized(s) && TableFits(s) && CallsFit(s) && UsersInProgress(s) && ConnsApart(s)
  }

  lemma FirstFreeIsFree(s: State)
    requires Safe(s) && FirstFree(s.slots) < MAX_CONNECTIONS
    ensures s.uses[FirstFree(s.slots)].Free?
  {
  }

  /** The table finds a connection where it is published, and nowhere before that. */
  lemma FoundWherePublished(s: State, c: nat)
    requires Safe(s)
    ensures var i := Holder(s.uses, c);
            FirstWith(s.slots, c) == if i < MAX_CONNECTIONS && s.uses[i].Open? then i else MAX_CONNECTIONS
  {
    var i, k := Holder(s.uses, c), FirstWith(s.slots, c);
    assert k < MAX_CONNECTIONS ==> Holds(s.uses[k], c);
    assert i < MAX_CONNECTIONS ==> s.slots[i] == Entry(s.uses[i]);
  }

  /** Only one use holds a connection. */
  lemma HolderIs(s: State, i: nat, c: nat)
    requires ConnsApart(s) && i < |s.uses| && Holds(s.uses[i], c)
    ensures Holder(s.uses, c) == i
  {
    forall j | 0 <= j < i
      ensures !Holds(s.uses[j], c)
    {
      assert !SameConn(s.uses[j], s.uses[i]);
    }
  }

  lemma ReserveKeeps(s: State, t: nat)
    requires Safe(s) && Enabled(s, Reserve(t))
    ensures Safe(Next(s, Reserve(t)))
  {
    hide FirstFree, Holder;
    if FirstFree(s.slots) < MAX_CONNECTIONS {
      FirstFreeIsFree(s);
    }
  }

  lemma CreateFailedKeeps(s: State, t: nat)
    requires Safe(s) && Enabled(s, CreateFailed(t))
    ensures Safe(Next(s, CreateFailed(t)))
  {
    hide FirstFree, Holder;
  }

  lemma PublishKeeps(s: State, t: nat)
    requires Safe(s) && Enabled(s, Publish(t))
    ensures Safe(Next(s, Publish(t)))
  {
    hide FirstFree, Holder;
  }

  lemma MadeApart(s: State, i: nat, t: nat, c: nat)
    requires ConnsApart(s) && i < |s.uses| && Holder(s.uses, c) == |s.uses|
    ensures ConnsApart(s.(uses := s.uses[i := Made(t, c, true)]))
  {
    var u := Made(t, c, true);
    forall j | 0 <= j < |s.uses| && j != i
      ensures !SameConn(s.uses[j], u) && !SameConn(u, s.uses[j])
    {
      assert !Holds(s.uses[j], c);
    }
  }

  lemma CreateSucceededKeeps(s: State, t: nat, c: nat)
    requires Safe(s) && Enabled(s, CreateSucceeded(t, c))
    ensures Safe(Next(s, CreateSucceeded(t, c)))
  {
    hide FirstFree, Holder, ConnsApart;
    MadeApart(s, s.calls[t].slot, t, c);
    ConnsOnly(s.(uses := s.uses[s.calls[t].slot := Made(t, c, true)]), Next(s, CreateSucceeded(t, c)));
  }

  lemma ConnsOnly(s: State, s': State)
    requires ConnsApart(s) && s'.uses == s.uses
    ensures ConnsApart(s')
  {
  }

  lemma EstablishFailedKeeps(s: State, c: nat)
    requires Safe(s) && Enabled(s, EstablishFailed(c))
    ensures Safe(Next(s, EstablishFailed(c)))
  {
    hide FirstFree;
  }

  /** The state when the connection in a slot is over. */
  function Ended(s: State, i: nat): State
    requires Sized(s) && i < MAX_CONNECTIONS && (s.uses[i].Made? || s.uses[i].Open?)
  {
    State(if s.uses[i].Open? then s.slots[i := FREE] else s.slots, s.calls, s.uses[i := Over(s.uses[i])])
  }

  lemma DisconnectedIsEnd(s: State, c: nat)
    requires Safe(s) && Enabled(s, Disconnected(c))
    ensures var i := Holder(s.uses, c);
            Next(s, Disconnected(c)) == if i < MAX_CONNECTIONS then Ended(s, i) else s
  {
    FoundWherePublished(s, c);
  }

  lemma EndedKeeps(s: State, i: nat)
    requires Safe(s) && i < MAX_CONNECTIONS && (s.uses[i].Made? || s.uses[i].Open?)
    ensures Safe(Ended(s, i))
  {
  }

  lemma DisconnectedKeeps(s: State, c: nat)
    requires Safe(s) && Enabled(s, Disconnected(c))
    ensures Safe(Next(s, Disconnected(c)))
  {
    DisconnectedIsEnd(s, c);
    if Holder(s.uses, c) < MAX_CONNECTIONS {
      EndedKeeps(s, Holder(s.uses, c));
    }
  }

  lemma StepKeeps(s: State, step: Step)
    requires Safe(s)
    ensures Safe(Next(s, step))
  {
    hide Safe;
    if Enabled(s, step) {
      match step
      case Reserve(t) => ReserveKeeps(s, t);
      case CreateFailed(t) => CreateFailedKeeps(s, t);
      case CreateSucceeded(t, c) => CreateSucceededKeeps(s, t, c);
      case Publish(t) => PublishKeeps(s, t);
      case EstablishFailed(c) => EstablishFailedKeeps(s, c);
      case Disconnected(c) => DisconnectedKeeps(s, c);
    }
  }

  lemma BootIsSafe()
    ensures Safe(BOOT)
  {
  }

  /** The state after any interleaving of connect calls and callbacks. */
  ghost function After(steps: seq<Step>): (s: State)
    ensures Safe(s)
  {
    if steps == [] then
      BootIsSafe();
      BOOT
    else
      var before := After(steps[..|steps| - 1]);
      var step := steps[|steps| - 1];
      StepKeeps(before, step);
      Next(before, step)
  }

  /** No two connect calls in progress hold the same slot, theirs are in use and empty, and a
      published connection is in use and in one slot only. */
  lemma CallsNeverShare(steps: seq<Step>)
    ensures var s := After(steps);
            && (forall t, u :: t in s.calls && u in s.calls && t != u ==> s.calls[t].slot != s.calls[u].slot)
            && (forall t :: t in s.calls ==> s.slots[s.calls[t].slot] == Slot(None, true))
            && (forall i :: 0 <= i < |s.slots| && s.slots[i].conn.Some? ==> s.slots[i].inUse)
            && (forall i, j :: 0 <= i < j < |s.slots| && s.slots[i].conn.Some? ==> s.slots[i].conn != s.slots[j].conn)
  {
    var s := After(steps);
    assert TableFits(s) && CallsFit(s) && ConnsApart(s);
    forall i, j | 0 <= i < j < |s.slots| && s.slots[i].conn.Some?
      ensures s.slots[i].conn != s.slots[j].conn
    {
      assert !SameConn(s.uses[i], s.uses[j]);
      assert s.slots[j] == Entry(s.uses[j]);
    }
  }

  // ----------------------------------------------------------------- slot accounting

  /** Attempts waiting for the stack to give them an object. */
  function WaitingCount(uses: seq<Use>): nat {
    if uses == [] then 0 else WaitingCount(uses[1..]) + (if uses[0].Waiting? then 1 else 0)
  }

  /** Connections that may still end with a callback. */
  function AliveCount(uses: seq<Use>): nat {
    if uses == [] then 0
    else AliveCount(uses[1..]) + (if (uses[0].Made? || uses[0].Open?) && uses[0].alive then 1 else 0)
  }

  /** Connections that are over but still hold their slot: nothing will ever free it. */
  function LeakedCount(uses: seq<Use>): nat {
    if uses == [] then 0
    else LeakedCount(uses[1..]) + (if (uses[0].Made? || uses[0].Open?) && !uses[0].alive then 1 else 0)
  }

  /** connection_manager_get_count. */
  function InUse(slots: seq<Slot>): (n: nat)
    ensures n <= |slots|
    ensures n == |slots| <==> FirstFree(slots) == |slots|
  {
    if slots == [] then 0 else InUse(slots[1..]) + (if slots[0].inUse then 1 else 0)
  }

  lemma {:induction false} Accounted(slots: seq<Slot>, uses: seq<Use>)
    requires |slots| == |uses| && forall i :: 0 <= i < |slots| ==> slots[i] == Entry(uses[i])
    ensures InUse(slots) == WaitingCount(uses) + AliveCount(uses) + LeakedCount(uses)
  {
    if slots != [] {
      Accounted(slots[1..], uses[1..]);
    }
  }

  lemma {:induction false} InUseUpdate(slots: seq<Slot>, i: nat, x: Slot)
    requires i < |slots|
    ensures InUse(slots[i := x]) == InUse(slots) - (if slots[i].inUse then 1 else 0) + (if x.inUse then 1 else 0)
  {
    if i == 0 {
      assert slots[0 := x][1..] == slots[1..];
    } else {
      assert slots[i := x][1..] == slots[1..][i - 1 := x];
      InUseUpdate(slots[1..], i - 1, x);
    }
  }

  // ------------------------------------------------------------- what each step does

  /** A connect call is given a slot exactly while fewer than three are in use: the first free one,
      which is then in use and empty. Otherwise nothing changes. */
  lemma ReserveDoes(s: State, t: nat)
    requires Safe(s) && t !in s.calls
    ensures var r := Next(s, Reserve(t));
            && (t in r.calls <==> InUse(s.slots) < 3)
            && (t !in r.calls ==> r == s)
            && (t in r.calls ==>
                  r.calls[t].Reserved? && var i := r.calls[t].slot;
                  && i < |s.slots| && !s.slots[i].inUse
                  && (forall j :: 0 <= j < i ==> s.slots[j].inUse)
                  && r.slots == s.slots[i := Slot(None, true)]
                  && r.calls == s.calls[t := Reserved(i)]
                  && InUse(r.slots) == InUse(s.slots) + 1)
  {
    var i := FirstFree(s.slots);
    if i < |s.slots| {
      InUseUpdate(s.slots, i, Slot(None, true));
      assert s.slots[i] == Entry(s.uses[i]);
    }
    hide InUse, FirstFree;
  }

  /** A refused call is over, its slot is free again, and the count is one lower. */
  lemma CreateFailedDoes(s: State, t: nat)
    requires Safe(s) && Enabled(s, CreateFailed(t))
    ensures var (r, i) := (Next(s, CreateFailed(t)), s.calls[t].slot);
            && r.calls == s.calls - {t}
            && r.slots == s.slots[i := Slot(None, false)]
            && InUse(r.slots) == InUse(s.slots) - 1
  {
    var i := s.calls[t].slot;
    InUseUpdate(s.slots, i, Slot(None, false));
    hide InUse;
    assert s.slots[i] == Entry(s.uses[i]) == Slot(None, true);
  }

  /** A created object belongs to its call and is not in the table yet. */
  lemma CreateSucceededDoes(s: State, t: nat, c: nat)
    requires Safe(s) && Enabled(s, CreateSucceeded(t, c))
    ensures var r := Next(s, CreateSucceeded(t, c));
            r.slots == s.slots && r.calls == s.calls[t := Created(s.calls[t].slot, c)]
  {
  }

  /** A published call is over and its connection is in its slot; the count stays. */
  lemma PublishDoes(s: State, t: nat)
    requires Safe(s) && Enabled(s, Publish(t))
    ensures var (r, i, c) := (Next(s, Publish(t)), s.calls[t].slot, s.calls[t].conn);
            && r.calls == s.calls - {t}
            && r.slots == s.slots[i := Slot(Some(c), true)]
            && InUse(r.slots) == InUse(s.slots)
  {
    var i := s.calls[t].slot;
    InUseUpdate(s.slots, i, Slot(Some(s.calls[t].conn), true));
    hide InUse;
    assert s.slots[i] == Entry(s.uses[i]) == Slot(None, true);
  }

  /** A failed attempt changes neither table nor calls. */
  lemma EstablishFailedDoes(s: State, c: nat)
    requires Safe(s) && Enabled(s, EstablishFailed(c))
    ensures var r := Next(s, EstablishFailed(c)); r.slots == s.slots && r.calls == s.calls
  {
  }

  /** A published connection that ends frees its slot and lowers the count; any other changes
      nothing in the table. Afterwards no slot holds it. */
  lemma DisconnectedDoes(s: State, c: nat)
    requires Safe(s) && Enabled(s, Disconnected(c))
    ensures var r := Next(s, Disconnected(c));
            && r.calls == s.calls
            && (forall i :: 0 <= i < |s.slots| && s.slots[i].conn == Some(c) ==>
                  r.slots == s.slots[i := Slot(None, false)] && InUse(r.slots) == InUse(s.slots) - 1)
            && ((forall i :: 0 <= i < |s.slots| ==> s.slots[i].conn != Some(c)) ==> r.slots == s.slots)
            && (forall i :: 0 <= i < |r.slots| ==> r.slots[i].conn != Some(c))
  {
    var r, k := Next(s, Disconnected(c)), Holder(s.uses, c);
    DisconnectedIsEnd(s, c);
    FoundWherePublished(s, c);
    forall i | 0 <= i < |s.slots| && s.slots[i].conn == Some(c)
      ensures r.slots == s.slots[i := Slot(None, false)] && InUse(r.slots) == InUse(s.slots) - 1
      ensures i == k && s.uses[k].Open?
    {
      assert s.slots[i] == Entry(s.uses[i]);
      HolderIs(s, i, c);
      InUseUpdate(s.slots, i, Slot(None, false));
    }
    hide InUse, Holder, FirstWith;
    assert k < |s.slots| ==> s.slots[k] == Entry(s.uses[k]);
  }

  /** The two ways a slot is lost: a connection that ends before it is published, and an attempt
      that fails after the stack had accepted it. */
  predicate Leaks(s: State, step: Step) {
    Enabled(s, step) &&
    (step.EstablishFailed? ||
     (step.Disconnected? && var i := Holder(s.uses, step.conn); i < |s.uses| && s.uses[i].Made?))
  }

  predicate Dead(u: Use) { (u.Made? || u.Open?) && !u.alive }

  lemma {:induction false} LeakedCountUpdate(uses: seq<Use>, i: nat, u: Use)
    requires i < |uses|
    ensures LeakedCount(uses[i := u]) ==
            LeakedCount(uses) - (if Dead(uses[i]) then 1 else 0) + (if Dead(u) then 1 else 0)
  {
    if i == 0 {
      assert uses[0 := u][1..] == uses[1..];
    } else {
      assert uses[i := u][1..] == uses[1..][i - 1 := u];
      LeakedCountUpdate(uses[1..], i - 1, u);
    }
  }

  lemma StepLeaks(s: State, step: Step)
    requires Safe(s)
    ensures LeakedCount(Next(s, step).uses) == LeakedCount(s.uses) + (if Leaks(s, step) then 1 else 0)
  {
    hide LeakedCount;
    var s' := Next(s, step);
    var i := match step
      case Reserve(t) => FirstFree(s.slots)
      case EstablishFailed(c) => Holder(s.uses, c)
      case Disconnected(c) => Holder(s.uses, c)
      case _ => if step.call in s.calls then s.calls[step.call].slot else 0;
    if i < MAX_CONNECTIONS {
      LeakedCountUpdate(s.uses, i, s'.uses[i]);
      assert s'.uses == s.uses[i := s'.uses[i]];
    }
  }

  ghost function LeakSteps(steps: seq<Step>): nat
  {
    if steps == [] then 0
    else
      var before := steps[..|steps| - 1];
      LeakSteps(before) + (if Leaks(After(before), steps[|steps| - 1]) then 1 else 0)
  }

  lemma {:induction false} LeaksAreForever(steps: seq<Step>)
    ensures LeakedCount(After(steps).uses) == LeakSteps(steps)
  {
    if steps == [] {
      assert BOOT.uses[1..] == [Free, Free] && BOOT.uses[1..][1..] == [Free];
    } else {
      var before := steps[..|steps| - 1];
      LeaksAreForever(before);
      StepLeaks(After(before), steps[|steps| - 1]);
    }
  }

  /** Exact accounting over every run: each slot in use is one attempt waiting for the stack, one
      connection that may still end, or one of the two leaking events of the run. Without such
      events no slot is lost. */
  lemma CountOverRuns(steps: seq<Step>)
    ensures var s := After(steps);
            InUse(s.slots) == WaitingCount(s.uses) + AliveCount(s.uses) + LeakSteps(steps) <= MAX_CONNECTIONS
  {
    LeaksAreForever(steps);
    var s := After(steps);
    assert Sized(s) && TableFits(s);
    Accounted(s.slots, s.uses);
  }

  /** After three leaking events no connect call ever gets a slot again. */
  lemma ThreeLeaksBlockForever(steps: seq<Step>, more: seq<Step>, call: nat)
    requires LeakSteps(steps) == MAX_CONNECTIONS
    ensures FirstFree(After(steps + more).slots) == MAX_CONNECTIONS
    ensures Next(After(steps + more), Reserve(call)) == After(steps + more)
  {
    LeakStepsGrow(steps, more);
    CountOverRuns(steps + more);
    var s := After(steps + more);
    assert Sized(s) && InUse(s.slots) == MAX_CONNECTIONS;
  }

  lemma {:induction false} LeakStepsGrow(steps: seq<Step>, more: seq<Step>)
    ensures LeakSteps(steps) <= LeakSteps(steps + more)
  {
    if more == [] {
      assert steps + more == steps;
    } else {
      var less := more[..|more| - 1];
      assert (steps + more)[..|steps + more| - 1] == steps + less;
      LeakStepsGrow(steps, less);
    }
  }

  /** Whenever a connection drops before its call publishes it, the call then fills its slot with
      a connection that is over, and the slot is lost. */
  lemma DropBeforePublishLeaks(s: State, t: nat)
    requires Safe(s) && t in s.calls && s.calls[t].Created? && s.uses[s.calls[t].slot].Made? &&
             s.uses[s.calls[t].slot].alive
    ensures var (i, c) := (s.calls[t].slot, s.calls[t].conn);
            var dropped := Next(s, Disconnected(c));
            && Safe(dropped)
            && var r := Next(dropped, Publish(t));
               r.slots[i] == Slot(Some(c), true) && t !in r.calls &&
               LeakedCount(r.uses) == LeakedCount(s.uses) + 1
  {
    hide LeakedCount;
    var i, c := s.calls[t].slot, s.calls[t].conn;
    CallIsHolder(s, t);
    FoundWherePublished(s, c);
    StepKeeps(s, Disconnected(c));
    StepLeaks(s, Disconnected(c));
    StepLeaks(Next(s, Disconnected(c)), Publish(t));
  }

  lemma CallIsHolder(s: State, t: nat)
    requires Safe(s) && t in s.calls && s.calls[t].Created?
    ensures Holder(s.uses, s.calls[t].conn) == s.calls[t].slot
  {
    assert Serves(s.uses[s.calls[t].slot], t, s.calls[t]);
    HolderIs(s, s.calls[t].slot, s.calls[t].conn);
  }

  // -------------------------------------------------------------- critical sections

  class Connections {
    const slots: array<Slot>
    ghost var model: State

    ghost predicate Valid()
      reads this, slots
    {
      Safe(model) && slots[..] == model.slots
    }

    constructor ()
      ensures Valid() && fresh(slots) && model == BOOT
    {
      slots := new Slot[MAX_CONNECTIONS](_ => FREE);
      model := BOOT;
      new;
      BootIsSafe();
    }

    /** First critical section of a connect call: reserves the first free slot; -1 when there is none. */
    method Reserve(ghost call: nat) returns (slot: int)
      requires Valid() && Enabled(model, Step.Reserve(call))
      modifies this, slots
      ensures Valid() && model == Next(old(model), Step.Reserve(call))
      ensures if call in model.calls then slot >= 0 && model.calls[call] == Reserved(slot) else slot == -1
      ensures slot == -1 <==> forall i :: 0 <= i < 3 ==> old(slots[..])[i].inUse
      ensures slot != -1 ==> 0 <= slot < 3 && !old(slots[..])[slot].inUse &&
                             forall i :: 0 <= i < slot ==> old(slots[..])[i].inUse
      ensures slots[..] == if slot == -1 then old(slots[..]) else old(slots[..])[slot := Slot(None, true)]
    {
      slot := -1;
      for i := 0 to MAX_CONNECTIONS
        invariant Valid() && model == old(model) && slot == -1
        invariant forall j :: 0 <= j < i ==> slots[j].inUse
      {
        if !slots[i].inUse {
          slot := i;
          break;
        }
      }
      StepKeeps(model, Step.Reserve(call));
      model := Next(model, Step.Reserve(call));
      if slot >= 0 {
        slots[slot] := slots[slot].(inUse := true);
      }
    }

    /** The stack refused: the slot is given back. */
    method Release(slot: nat, ghost call: nat)
      requires Valid() && Enabled(model, CreateFailed(call)) && model.calls[call] == Reserved(slot)
      modifies this, slots
      ensures Valid() && model == Next(old(model), CreateFailed(call))
      ensures slots[..] == old(slots[..])[slot := Slot(None, false)]
    {
      StepKeeps(model, CreateFailed(call));
      model := Next(model, CreateFailed(call));
      slots[slot] := slots[slot].(inUse := false);
    }

    /** The stack hands out a connection object, outside any critical section. */
    ghost method NoteCreated(call: nat, conn: nat)
      requires Valid() && Enabled(model, CreateSucceeded(call, conn))
      modifies this`model
      ensures Valid() && model == Next(old(model), CreateSucceeded(call, conn))
    {
      StepKeeps(model, CreateSucceeded(call, conn));
      model := Next(model, CreateSucceeded(call, conn));
    }

    /** Last critical section of a connect call. */
    method Publish(slot: nat, conn: nat, ghost call: nat)
      requires Valid() && Enabled(model, Step.Publish(call)) && model.calls[call] == Created(slot, conn)
      modifies this, slots
      ensures Valid() && model == Next(old(model), Step.Publish(call))
      ensures slots[..] == old(slots[..])[slot := Slot(Some(conn), true)]
    {
      StepKeeps(model, Step.Publish(call));
      model := Next(model, Step.Publish(call));
      slots[slot] := slots[slot].(conn := Some(conn));
    }

    /** connected_cb: an error is logged and nothing else is done. */
    method OnConnected(conn: nat, err: nat)
      requires Valid() && (err != 0 ==> Enabled(model, EstablishFailed(conn)))
      modifies this`model
      ensures Valid() && model == if err != 0 then Next(old(model), EstablishFailed(conn)) else old(model)
    {
      if err != 0 {
        StepKeeps(model, EstablishFailed(conn));
        model := Next(model, EstablishFailed(conn));
        return;
      }
    }

    method OnDisconnected(conn: nat)
      requires Valid() && Enabled(model, Disconnected(conn))
      modifies this, slots
      ensures Valid() && model == Next(old(model), Disconnected(conn))
      ensures forall i :: 0 <= i < 3 ==>
                slots[i] == if old(slots[..])[i].conn == Some(conn) then Slot(None, false) else old(slots[..])[i]
    {
      StepKeeps(model, Disconnected(conn));
      model := Next(model, Disconnected(conn));
      for i := 0 to MAX_CONNECTIONS
        invariant slots[..] == old(slots[..]) && model == Next(old(model), Disconnected(conn))
        invariant forall j :: 0 <= j < i ==> slots[j].conn != Some(conn)
      {
        if slots[i].conn == Some(conn) {
          slots[i] := FREE;
          break;
        }
      }
    }

    method GetCount() returns (count: nat)
      requires Valid()
      ensures count == InUse(model.slots)
      ensures count == (if slots[0].inUse then 1 else 0) + (if slots[1].inUse then 1 else 0) +
                       (if slots[2].inUse then 1 else 0)
    {
      assert slots[..][1..] == [slots[1], slots[2]] && slots[..][1..][1..] == [slots[2]];
      count := 0;
      for i := 0 to MAX_CONNECTIONS
        invariant count + InUse(slots[i..]) == InUse(slots[..])
      {
        assert slots[i..][0] == slots[i] && slots[i..][1..] == slots[i + 1..];
        if slots[i].inUse {
          count := count + 1;
        }
      }
    }
  }
}
