/** The bounded retry queue of common/protocol/ipc-protocol.ts, with a ledger of every message
    it ever accepted. Messages are identified in the ledger by the order of acceptance. */
module IpcQueue {
  import opened Options

  datatype Message = Message(correlationId: string, content: string)

  datatype Entry = Entry(message: Message, retries: nat)

  const MAX_RETRIES: nat := 3
  const MAX_QUEUE_SIZE: nat := 100

  /** Array.findIndex on the correlation id. */
  function FindIndex(queue: seq<Entry>, correlationId: string): (i: nat)
    ensures i <= |queue|
    ensures i < |queue| ==> queue[i].message.correlationId == correlationId
    ensures forall j :: 0 <= j < i ==> queue[j].message.correlationId != correlationId
  {
    if queue == [] || queue[0].message.correlationId == correlationId then 0
    else 1 + FindIndex(queue[1..], correlationId)
  }

  // ------------------------------------------------------------------------ ledger

  datatype Op = Enqueue(message: Message) | Dequeue | Requeue(correlationId: string) | Clear

  datatype Reply = Accepted(ok: bool) | Delivered(message: Option<Message>) | Done

  ghost predicate Increasing(s: seq<nat>) { forall i, j :: 0 <= i < j < |s| ==> s[i] < s[j] }

  /** accepted: every message ever let in, in order; hits: how often each was requeued.
      The other fields are serial numbers, that is positions in accepted. */
  datatype Ledger = Ledger(
    accepted: seq<Message>, hits: seq<nat>,
    queued: seq<nat>, delivered: seq<nat>, dropped: seq<nat>, cleared: seq<nat>)
  {
    /** Where serial number s is, counted with multiplicity. */
    function Places(s: nat): nat {
      multiset(delivered)[s] + multiset(dropped)[s] + multiset(cleared)[s] + multiset(queued)[s]
    }

    predicate Shaped() {
      && |hits| == |accepted|
      && |queued| <= MAX_QUEUE_SIZE
      && forall i :: 0 <= i < |queued| ==> queued[i] < |accepted|
    }

    /** Everything accepted is in exactly one place, and nothing else is anywhere. */
    ghost predicate Conserved() { forall s: nat :: Places(s) == if s < |accepted| then 1 else 0 }

    /** Deliveries follow acceptance, and what waits was accepted after all of them. */
    ghost predicate Ordered() { Increasing(delivered + queued) }

    /** A message is dropped exactly when it has been requeued three times. */
    ghost predicate Counted()
      requires Shaped()
    {
      forall s :: 0 <= s < |hits| ==> hits[s] <= MAX_RETRIES && (hits[s] == MAX_RETRIES <==> s in dropped)
    }

    ghost predicate Valid() { Shaped() && Conserved() && Ordered() && Counted() }

    /** The queue the program sees. */
    function Queue(): (q: seq<Entry>)
      requires Shaped()
      ensures |q| == |queued|
    {
      seq(|queued|, i requires 0 <= i < |queued| => Entry(accepted[queued[i]], hits[queued[i]]))
    }
  }

  const EMPTY: Ledger := Ledger([], [], [], [], [], [])

  function Apply(l: Ledger, op: Op): (Ledger, Reply)
    requires l.Shaped()
  {
    match op
    case Enqueue(m) =>
      if |l.queued| >= MAX_QUEUE_SIZE then (l, Accepted(false))
      else
        (l.(accepted := l.accepted + [m], hits := l.hits + [0], queued := l.queued + [|l.accepted|]), Accepted(true))
    case Dequeue =>
      if l.queued == [] then (l, Delivered(None))
      else
        (l.(queued := l.queued[1..], delivered := l.delivered + [l.queued[0]]),
         Delivered(Some(l.accepted[l.queued[0]])))
    case Requeue(id) =>
      var i := FindIndex(l.Queue(), id);
      if i == |l.queued| then (l, Accepted(false))
      else
        var s := l.queued[i];
        var hits := l.hits[s := l.hits[s] + 1];
        if hits[s] >= MAX_RETRIES then
          (l.(hits := hits, queued := l.queued[..i] + l.queued[i + 1..], dropped := l.dropped + [s]), Accepted(false))
        else
          (l.(hits := hits), Accepted(true))
    case Clear =>
      (l.(queued := [], cleared := l.cleared + l.queued), Done)
  }

  // ------------------------------------------------------------- what every step keeps

  lemma QueuedIsLive(l: Ledger, i: nat)
    requires l.Valid() && i < |l.queued|
    ensures l.queued[i] !in l.dropped && l.hits[l.queued[i]] < MAX_RETRIES
  {
    var s := l.queued[i];
    assert l.Places(s) == 1;
    assert multiset(l.queued)[s] >= 1;
  }

  lemma RemoveAt(q: seq<nat>, i: nat)
    requires i < |q|
    ensures multiset(q) == multiset(q[..i] + q[i + 1..]) + multiset{q[i]}
  {
    assert q == q[..i] + [q[i]] + q[i + 1..];
  }

  lemma RemoveFirst(q: seq<nat>)
    requires q != []
    ensures multiset(q) == multiset(q[1..]) + multiset{q[0]}
  {
    assert q == [q[0]] + q[1..];
  }

  lemma IncreasingWithout(d: seq<nat>, q: seq<nat>, i: nat)
    requires i < |q| && Increasing(d + q)
    ensures Increasing(d + (q[..i] + q[i + 1..]))
  {
    var before, after := d + q, d + (q[..i] + q[i + 1..]);
    forall j, k | 0 <= j < k < |after|
      ensures after[j] < after[k]
    {
      var j', k' := if j < |d| + i then j else j + 1, if k < |d| + i then k else k + 1;
      assert after[j] == before[j'] && after[k] == before[k'];
    }
  }

  lemma EnqueueConserves(l: Ledger, m: Message)
    requires l.Valid()
    ensures Apply(l, Enqueue(m)).0.Conserved()
  {
    var l' := Apply(l, Enqueue(m)).0;
    forall s: nat
      ensures l'.Places(s) == if s < |l'.accepted| then 1 else 0
    {
      assert l.Places(s) == if s < |l.accepted| then 1 else 0;
    }
  }

  lemma EnqueueKeeps(l: Ledger, m: Message)
    requires l.Valid()
    ensures Apply(l, Enqueue(m)).0.Valid()
  {
    EnqueueConserves(l, m);
    if |l.queued| < MAX_QUEUE_SIZE {
      var l', n := Apply(l, Enqueue(m)).0, |l.accepted|;
      assert l'.delivered + l'.queued == (l.delivered + l.queued) + [n];
      assert forall i :: 0 <= i < |l.delivered| ==> l.delivered[i] < n by {
        forall i | 0 <= i < |l.delivered|
          ensures l.delivered[i] < n
        {
          assert l.Places(l.delivered[i]) >= multiset(l.delivered)[l.delivered[i]] >= 1;
        }
      }
      assert n !in l.dropped by {
        assert l.Places(n) == 0;
      }
    }
  }

  lemma DequeueConserves(l: Ledger)
    requires l.Valid() && l.queued != []
    ensures l.(queued := l.queued[1..], delivered := l.delivered + [l.queued[0]]).Conserved()
  {
    var l' := l.(queued := l.queued[1..], delivered := l.delivered + [l.queued[0]]);
    RemoveFirst(l.queued);
    forall s: nat
      ensures l'.Places(s) == if s < |l'.accepted| then 1 else 0
    {
      assert l.Places(s) == if s < |l.accepted| then 1 else 0;
    }
  }

  lemma DequeueKeeps(l: Ledger)
    requires l.Valid()
    ensures Apply(l, Dequeue).0.Valid()
  {
    if l.queued != [] {
      DequeueConserves(l);
      assert l.delivered + [l.queued[0]] + l.queued[1..] == l.delivered + l.queued;
    }
  }

  /** Dropping the entry at position i. */
  lemma DropConserves(l: Ledger, i: nat, hits: seq<nat>)
    requires l.Valid() && i < |l.queued| && |hits| == |l.hits|
    ensures
      var l' := l.(hits := hits, queued := l.queued[..i] + l.queued[i + 1..], dropped := l.dropped + [l.queued[i]]);
      l'.Conserved() && l'.Ordered() && l'.Shaped()
  {
    var s := l.queued[i];
    var l' := l.(hits := hits, queued := l.queued[..i] + l.queued[i + 1..], dropped := l.dropped + [s]);
    RemoveAt(l.queued, i);
    forall t: nat
      ensures l'.Places(t) == if t < |l'.accepted| then 1 else 0
    {
      assert l.Places(t) == if t < |l.accepted| then 1 else 0;
    }
    IncreasingWithout(l.delivered, l.queued, i);
  }

  lemma HitConserves(l: Ledger, hits: seq<nat>)
    requires l.Valid() && |hits| == |l.hits|
    ensures l.(hits := hits).Conserved()
  {
    forall t: nat
      ensures l.(hits := hits).Places(t) == if t < |l.accepted| then 1 else 0
    {
      assert l.Places(t) == if t < |l.accepted| then 1 else 0;
    }
  }

  lemma HitCounts(l: Ledger, s: nat, dropped: seq<nat>)
    requires l.Valid() && s < |l.hits| && s !in l.dropped && l.hits[s] < MAX_RETRIES
    requires dropped == if l.hits[s] + 1 >= MAX_RETRIES then l.dropped + [s] else l.dropped
    ensures
      var hits := l.hits[s := l.hits[s] + 1];
      forall t :: 0 <= t < |hits| ==> hits[t] <= MAX_RETRIES && (hits[t] == MAX_RETRIES <==> t in dropped)
  {
  }

  lemma RequeueKeeps(l: Ledger, id: string)
    requires l.Valid()
    ensures Apply(l, Requeue(id)).0.Valid()
  {
    var i := FindIndex(l.Queue(), id);
    if i < |l.queued| {
      QueuedIsLive(l, i);
      var s := l.queued[i];
      var hits := l.hits[s := l.hits[s] + 1];
      var l' := Apply(l, Requeue(id)).0;
      HitCounts(l, s, l'.dropped);
      if hits[s] >= MAX_RETRIES {
        DropConserves(l, i, hits);
      } else {
        HitConserves(l, hits);
      }
    }
  }

  lemma ClearKeeps(l: Ledger)
    requires l.Valid()
    ensures Apply(l, Clear).0.Valid()
  {
    var l' := Apply(l, Clear).0;
    forall s: nat
      ensures l'.Places(s) == if s < |l'.accepted| then 1 else 0
    {
      assert l.Places(s) == if s < |l.accepted| then 1 else 0;
    }
    assert forall i :: 0 <= i < |l.delivered| ==> (l.delivered + l.queued)[i] == l.delivered[i];
  }

  lemma ApplyKeeps(l: Ledger, op: Op)
    requires l.Valid()
    ensures Apply(l, op).0.Valid()
  {
    match op
    case Enqueue(m) => EnqueueKeeps(l, m);
    case Dequeue => DequeueKeeps(l);
    case Requeue(id) => RequeueKeeps(l, id);
    case Clear => ClearKeeps(l);
  }

  // -------------------------------------------------------------------- whole runs

  lemma EmptyIsValid()
    ensures EMPTY.Valid()
  {
    forall s: nat
      ensures EMPTY.Places(s) == 0
    {
    }
  }

  /** The ledger after any run of operations on a new queue; every step keeps it valid. */
  ghost function After(ops: seq<Op>): (l: Ledger)
    ensures l.Valid()
  {
    if ops == [] then
      EmptyIsValid();
      EMPTY
    else
      var l := After(ops[..|ops| - 1]);
      ApplyKeeps(l, ops[|ops| - 1]);
      Apply(l, ops[|ops| - 1]).0
  }

  /** The messages behind a list of serial numbers. */
  function Messages(accepted: seq<Message>, serials: seq<nat>): (ms: seq<Message>)
    requires forall i :: 0 <= i < |serials| ==> serials[i] < |accepted|
    ensures |ms| == |serials|
  {
    seq(|serials|, i requires 0 <= i < |serials| => accepted[serials[i]])
  }

  ghost predicate InRange(serials: seq<nat>, n: nat) { forall i :: 0 <= i < |serials| ==> serials[i] < n }

  ghost predicate EachOnce(serials: seq<nat>, n: nat) {
    forall s: nat :: multiset(serials)[s] == if s < n then 1 else 0
  }

  lemma WithoutLast(serials: seq<nat>, n: nat, i: nat)
    requires EachOnce(serials, n + 1) && i < |serials| && serials[i] == n
    ensures EachOnce(serials[..i] + serials[i + 1..], n)
  {
    var rest: seq<nat> := serials[..i] + serials[i + 1..];
    RemoveAt(serials, i);
    forall s: nat
      ensures multiset(rest)[s] == if s < n then 1 else 0
    {
      assert multiset(serials)[s] == if s < n + 1 then 1 else 0;
    }
  }

  lemma EachOnceInRange(serials: seq<nat>, n: nat)
    requires EachOnce(serials, n)
    ensures InRange(serials, n)
  {
    forall i | 0 <= i < |serials|
      ensures serials[i] < n
    {
      assert multiset(serials)[serials[i]] >= 1;
    }
  }

  /** Serial numbers that use each of 0..n once stand for exactly the first n messages. */
  lemma {:induction false} SerialsCover(accepted: seq<Message>, serials: seq<nat>)
    requires EachOnce(serials, |accepted|) && InRange(serials, |accepted|)
    ensures multiset(Messages(accepted, serials)) == multiset(accepted)
    decreases |accepted|
  {
    if accepted == [] {
      assert serials == [];
    } else {
      var n := |accepted| - 1;
      assert n in multiset(serials);
      var i :| 0 <= i < |serials| && serials[i] == n;
      var rest: seq<nat> := serials[..i] + serials[i + 1..];
      WithoutLast(serials, n, i);
      EachOnceInRange(rest, n);
      SerialsCover(accepted[..n], rest);
      MessagesWithout(accepted, serials, i);
      assert accepted == accepted[..n] + [accepted[n]];
    }
  }

  lemma MessagesWithout(accepted: seq<Message>, serials: seq<nat>, i: nat)
    requires accepted != [] && i < |serials| && serials[i] == |accepted| - 1 && InRange(serials, |accepted|)
    requires InRange(serials[..i] + serials[i + 1..], |accepted| - 1)
    ensures multiset(Messages(accepted, serials)) ==
            multiset(Messages(accepted[..|accepted| - 1], serials[..i] + serials[i + 1..])) +
            multiset{accepted[|accepted| - 1]}
  {
    var ms := Messages(accepted, serials);
    assert ms == ms[..i] + [accepted[|accepted| - 1]] + ms[i + 1..];
    assert Messages(accepted[..|accepted| - 1], serials[..i] + serials[i + 1..]) == ms[..i] + ms[i + 1..];
  }

  lemma PlacesInRange(l: Ledger, place: seq<nat>)
    requires l.Valid() && (place == l.delivered || place == l.dropped || place == l.cleared || place == l.queued)
    ensures InRange(place, |l.accepted|)
  {
    forall i | 0 <= i < |place|
      ensures place[i] < |l.accepted|
    {
      assert multiset(place)[place[i]] >= 1;
      assert l.Places(place[i]) >= 1;
    }
  }

  /** Conservation over any run: the accepted messages are, as a multiset, the delivered, the
      dropped, the cleared and the waiting ones. */
  lemma MessagesConserved(ops: seq<Op>)
    ensures
      var l := After(ops);
      && InRange(l.delivered, |l.accepted|) && InRange(l.dropped, |l.accepted|)
      && InRange(l.cleared, |l.accepted|) && InRange(l.queued, |l.accepted|)
      && multiset(l.accepted) ==
         multiset(Messages(l.accepted, l.delivered)) + multiset(Messages(l.accepted, l.dropped))
         + multiset(Messages(l.accepted, l.cleared)) + multiset(Messages(l.accepted, l.queued))
  {
    var l := After(ops);
    PlacesInRange(l, l.delivered);
    PlacesInRange(l, l.dropped);
    PlacesInRange(l, l.cleared);
    PlacesInRange(l, l.queued);
    LedgerConserves(l);
  }

  lemma LedgerConserves(l: Ledger)
    requires l.Valid()
    requires InRange(l.delivered, |l.accepted|) && InRange(l.dropped, |l.accepted|)
    requires InRange(l.cleared, |l.accepted|) && InRange(l.queued, |l.accepted|)
    ensures multiset(l.accepted) ==
      multiset(Messages(l.accepted, l.delivered)) + multiset(Messages(l.accepted, l.dropped))
      + multiset(Messages(l.accepted, l.cleared)) + multiset(Messages(l.accepted, l.queued))
  {
    var done: seq<nat> := l.delivered + l.dropped;
    var rest: seq<nat> := l.cleared + l.queued;
    var all: seq<nat> := done + rest;
    assert EachOnce(all, |l.accepted|) by {
      forall s: nat
        ensures multiset(all)[s] == if s < |l.accepted| then 1 else 0
      {
        assert multiset(all)[s] == l.Places(s);
      }
    }
    EachOnceInRange(all, |l.accepted|);
    SerialsCover(l.accepted, all);
    MessagesConcat(l.accepted, done, rest);
    MessagesConcat(l.accepted, l.delivered, l.dropped);
    MessagesConcat(l.accepted, l.cleared, l.queued);
  }

  lemma MessagesConcat(accepted: seq<Message>, a: seq<nat>, b: seq<nat>)
    requires InRange(a, |accepted|) && InRange(b, |accepted|)
    ensures InRange(a + b, |accepted|)
    ensures Messages(accepted, a + b) == Messages(accepted, a) + Messages(accepted, b)
    ensures multiset(Messages(accepted, a + b)) == multiset(Messages(accepted, a)) + multiset(Messages(accepted, b))
  {
    assert Messages(accepted, a + b) == Messages(accepted, a) + Messages(accepted, b);
  }

  /** Delivery order: earlier deliveries were accepted earlier, and nothing still waiting was
      accepted before a delivered message. */
  lemma DeliveriesFollowAcceptance(ops: seq<Op>, i: nat, j: nat)
    requires i < j < |After(ops).delivered + After(ops).queued|
    ensures (After(ops).delivered + After(ops).queued)[i] < (After(ops).delivered + After(ops).queued)[j]
  {
    assert After(ops).Ordered();
  }

  /** A waiting message has been requeued at most twice. */
  lemma WaitingRetriesBelowThree(ops: seq<Op>, i: nat)
    requires i < |After(ops).queued|
    ensures After(ops).Queue()[i].retries <= 2
  {
    QueuedIsLive(After(ops), i);
  }

  /** The third requeue of a message drops it, and no other requeue drops anything. */
  lemma DroppedOnThirdRequeue(l: Ledger, id: string)
    requires l.Valid()
    ensures
      var i, dropped := FindIndex(l.Queue(), id), Apply(l, Requeue(id)).0.dropped;
      if i < |l.queued| && l.Queue()[i].retries == 2 then dropped == l.dropped + [l.queued[i]]
      else dropped == l.dropped
  {
    var i := FindIndex(l.Queue(), id);
    if i < |l.queued| {
      QueuedIsLive(l, i);
      assert l.Queue()[i].retries == l.hits[l.queued[i]];
    }
  }

  // ----------------------------------------------- what callers see of the queue

  /** An enqueue is answered true exactly when fewer than a hundred wait, and then goes to the end. */
  lemma EnqueueOnQueue(l: Ledger, m: Message)
    requires l.Valid()
    ensures Apply(l, Enqueue(m)).0.Valid()
    ensures var (q, (l', reply)) := (l.Queue(), Apply(l, Enqueue(m)));
            if |q| < 100 then reply == Accepted(true) && l'.Queue() == q + [Entry(m, 0)]
            else reply == Accepted(false) && l'.Queue() == q
  {
    hide Ledger.Conserved, Ledger.Ordered, Ledger.Counted;
    ApplyKeeps(l, Enqueue(m));
  }

  /** A dequeue answers with the first message waiting and takes it away, or with nothing. */
  lemma DequeueOnQueue(l: Ledger)
    requires l.Valid()
    ensures Apply(l, Dequeue).0.Valid()
    ensures var (q, (l', reply)) := (l.Queue(), Apply(l, Dequeue));
            if q == [] then reply == Delivered(None) && l'.Queue() == []
            else reply == Delivered(Some(q[0].message)) && l'.Queue() == q[1..]
  {
    hide Ledger.Conserved, Ledger.Ordered, Ledger.Counted;
    ApplyKeeps(l, Dequeue);
  }

  lemma ClearOnQueue(l: Ledger)
    requires l.Valid()
    ensures Apply(l, Clear).0.Valid()
    ensures Apply(l, Clear).0.Queue() == [] && Apply(l, Clear).1 == Done
  {
    hide Ledger.Conserved, Ledger.Ordered, Ledger.Counted;
    ApplyKeeps(l, Clear);
  }

  /** The messages handed out by the dequeues of a run, in order. */
  ghost function HandedOut(ops: seq<Op>): seq<Message> {
    if ops == [] then []
    else
      var before, op := ops[..|ops| - 1], ops[|ops| - 1];
      var reply := Apply(After(before), op).1;
      if op.Dequeue? && reply.Delivered? && reply.message.Some? then HandedOut(before) + [reply.message.value]
      else HandedOut(before)
  }

  /** The messages whose enqueue was answered true, in order. */
  ghost function LetIn(ops: seq<Op>): seq<Message> {
    if ops == [] then []
    else
      var before, op := ops[..|ops| - 1], ops[|ops| - 1];
      if op.Enqueue? && Apply(After(before), op).1 == Accepted(true) then LetIn(before) + [op.message]
      else LetIn(before)
  }

  ghost predicate TellsHistory(l: Ledger, letIn: seq<Message>, handedOut: seq<Message>) {
    l.accepted == letIn && InRange(l.delivered, |l.accepted|) && handedOut == Messages(l.accepted, l.delivered)
  }

  lemma DequeueTells(l: Ledger, letIn: seq<Message>, handedOut: seq<Message>)
    requires l.Valid() && TellsHistory(l, letIn, handedOut)
    ensures var (l', reply) := Apply(l, Dequeue);
            && reply.Delivered?
            && TellsHistory(l', letIn, if reply.message.Some? then handedOut + [reply.message.value] else handedOut)
  {
    hide Ledger.Conserved, Ledger.Ordered, Ledger.Counted;
  }

  lemma EnqueueTells(l: Ledger, m: Message, letIn: seq<Message>, handedOut: seq<Message>)
    requires l.Valid() && TellsHistory(l, letIn, handedOut)
    ensures var (l', reply) := Apply(l, Enqueue(m));
            TellsHistory(l', if reply == Accepted(true) then letIn + [m] else letIn, handedOut)
  {
    hide Ledger.Conserved, Ledger.Ordered, Ledger.Counted;
  }

  /** The replies of a run are its history: the messages let in are the accepted ones, and what the
      dequeues handed out is, in order, exactly what the ledger records as delivered. */
  lemma {:induction false} RepliesTellHistory(ops: seq<Op>)
    ensures TellsHistory(After(ops), LetIn(ops), HandedOut(ops))
  {
    if ops != [] {
      var before, op := ops[..|ops| - 1], ops[|ops| - 1];
      RepliesTellHistory(before);
      match op {
        case Enqueue(m) => EnqueueTells(After(before), m, LetIn(before), HandedOut(before));
        case Dequeue => DequeueTells(After(before), LetIn(before), HandedOut(before));
        case Requeue(id) => OtherTells(After(before), op, LetIn(before), HandedOut(before));
        case Clear => OtherTells(After(before), op, LetIn(before), HandedOut(before));
      }
    }
  }

  lemma OtherTells(l: Ledger, op: Op, letIn: seq<Message>, handedOut: seq<Message>)
    requires l.Valid() && TellsHistory(l, letIn, handedOut) && (op.Requeue? || op.Clear?)
    ensures TellsHistory(Apply(l, op).0, letIn, handedOut)
  {
    hide Ledger.Conserved, Ledger.Ordered, Ledger.Counted;
  }

  function Waiting(q: seq<Entry>): (ms: seq<Message>)
    ensures |ms| == |q| && forall i :: 0 <= i < |q| ==> ms[i] == q[i].message
  {
    if q == [] then [] else [q[0].message] + Waiting(q[1..])
  }

  lemma WaitingGrows(q: seq<Entry>, e: Entry)
    ensures Waiting(q + [e]) == Waiting(q) + [e.message]
  {
  }

  lemma WaitingShrinks(q: seq<Entry>)
    ensures q != [] ==> Waiting(q) == [q[0].message] + Waiting(q[1..])
  {
  }

  lemma PlainEnqueue(l: Ledger, m: Message, letIn: seq<Message>, handedOut: seq<Message>)
    requires l.Valid() && handedOut + Waiting(l.Queue()) == letIn
    ensures var (l', reply) := Apply(l, Enqueue(m));
            && l'.Valid()
            && handedOut + Waiting(l'.Queue()) == if reply == Accepted(true) then letIn + [m] else letIn
  {
    hide Apply, Ledger.Queue, Waiting, Ledger.Conserved, Ledger.Ordered, Ledger.Counted;
    EnqueueOnQueue(l, m);
    WaitingGrows(l.Queue(), Entry(m, 0));
    assert handedOut + (Waiting(l.Queue()) + [m]) == handedOut + Waiting(l.Queue()) + [m];
  }

  lemma PlainDequeue(l: Ledger, letIn: seq<Message>, handedOut: seq<Message>)
    requires l.Valid() && handedOut + Waiting(l.Queue()) == letIn
    ensures var (l', reply) := Apply(l, Dequeue);
            && l'.Valid() && reply.Delivered?
            && (if reply.message.Some? then handedOut + [reply.message.value] else handedOut) +
               Waiting(l'.Queue()) == letIn
  {
    hide Apply, Ledger.Queue, Waiting, Ledger.Conserved, Ledger.Ordered, Ledger.Counted;
    var q := l.Queue();
    DequeueOnQueue(l);
    WaitingShrinks(q);
    if q != [] {
      assert handedOut + ([q[0].message] + Waiting(q[1..])) == handedOut + [q[0].message] + Waiting(q[1..]);
    }
  }

  /** First in, first out: on every run without requeues and clears, what was handed out followed by
      what waits is what was let in. */
  lemma {:induction false} FirstInFirstOut(ops: seq<Op>)
    requires forall i :: 0 <= i < |ops| ==> ops[i].Enqueue? || ops[i].Dequeue?
    ensures HandedOut(ops) + Waiting(After(ops).Queue()) == LetIn(ops)
  {
    hide Apply, Ledger.Queue, Ledger.Valid;
    if ops == [] {
      NothingWaits();
    } else {
      var before, op := ops[..|ops| - 1], ops[|ops| - 1];
      FirstInFirstOut(before);
      if op.Enqueue? {
        PlainEnqueue(After(before), op.message, LetIn(before), HandedOut(before));
      } else {
        PlainDequeue(After(before), LetIn(before), HandedOut(before));
      }
    }
  }

  lemma NothingWaits()
    ensures After([]).Queue() == []
  {
  }

  // ---------------------------------------------------------------------- the class

  class IPCMessageQueue {
    var queue: seq<Entry>
    ghost var ledger: Ledger

    ghost predicate Valid()
      reads this
    {
      ledger.Valid() && queue == ledger.Queue()
    }

    constructor ()
      ensures Valid() && ledger == EMPTY
    {
      queue, ledger := [], EMPTY;
      EmptyIsValid();
    }

    method EnqueueMessage(message: Message) returns (ok: bool)
      requires Valid()
      modifies this
      ensures Valid() && (ledger, Accepted(ok)) == Apply(old(ledger), Enqueue(message))
      ensures ok <==> |old(queue)| < 100
      ensures queue == if ok then old(queue) + [Entry(message, 0)] else old(queue)
    {
      ghost var before := ledger;
      ApplyKeeps(before, Enqueue(message));
      ledger := Apply(before, Enqueue(message)).0;
      if |queue| >= MAX_QUEUE_SIZE {
        return false;
      }
      queue := queue + [Entry(message, 0)];
      return true;
    }

    method DequeueMessage() returns (message: Option<Message>)
      requires Valid()
      modifies this
      ensures Valid() && (ledger, Delivered(message)) == Apply(old(ledger), Dequeue)
      ensures if old(queue) == [] then message == None && queue == []
              else message == Some(old(queue)[0].message) && queue == old(queue)[1..]
    {
      ghost var before := ledger;
      ApplyKeeps(before, Dequeue);
      ledger := Apply(before, Dequeue).0;
      if queue == [] {
        return None;
      }
      var item := queue[0];
      queue := queue[1..];
      return Some(item.message);
    }

    method RequeueMessage(correlationId: string) returns (ok: bool)
      requires Valid()
      modifies this
      ensures Valid() && (ledger, Accepted(ok)) == Apply(old(ledger), Requeue(correlationId))
    {
      ghost var before := ledger;
      ApplyKeeps(before, Requeue(correlationId));
      ledger := Apply(before, Requeue(correlationId)).0;
      var index := FindIndex(queue, correlationId);
      if index == |queue| {
        return false;
      }
      QueuedDistinct(before, index);
      queue := queue[index := queue[index].(retries := queue[index].retries + 1)];
      if queue[index].retries >= MAX_RETRIES {
        queue := queue[..index] + queue[index + 1..];
        return false;
      }
      return true;
    }

    method Size() returns (n: nat)
      requires Valid()
      ensures n == |queue| <= 100
    {
      n := |queue|;
    }

    method ClearAll()
      requires Valid()
      modifies this
      ensures Valid() && ledger == Apply(old(ledger), Clear).0 && queue == []
    {
      ApplyKeeps(ledger, Clear);
      ledger := Apply(ledger, Clear).0;
      queue := [];
    }
  }

  /** No two waiting entries share a serial number. */
  lemma QueuedDistinct(l: Ledger, i: nat)
    requires l.Valid() && i < |l.queued|
    ensures forall j :: 0 <= j < |l.queued| && j != i ==> l.queued[j] != l.queued[i]
  {
    var order, d := l.delivered + l.queued, |l.delivered|;
    forall j | 0 <= j < |l.queued| && j != i
      ensures l.queued[j] != l.queued[i]
    {
      assert order[d + j] == l.queued[j] && order[d + i] == l.queued[i];
    }
  }

  /** What a requeue does to the entries the program sees: the first entry of that id gets one more
      retry in its place, or leaves at its third; all others stay, in order. */
  lemma RequeueOnQueue(l: Ledger, id: string)
    requires l.Valid()
    ensures Apply(l, Requeue(id)).0.Valid()
    ensures
      var q, i := l.Queue(), FindIndex(l.Queue(), id);
      var (l', reply) := Apply(l, Requeue(id));
      && reply == Accepted(i < |q| && q[i].retries < 2)
      && l'.Queue() == if i == |q| then q
                       else if q[i].retries == 2 then q[..i] + q[i + 1..]
                       else q[i := Entry(q[i].message, q[i].retries + 1)]
  {
    hide Ledger.Conserved, Ledger.Ordered;
    ApplyKeeps(l, Requeue(id));
    var i := FindIndex(l.Queue(), id);
    if i < |l.queued| {
      QueuedIsLive(l, i);
      QueuedDistinct(l, i);
      assert l.Queue()[i].retries == l.hits[l.queued[i]];
    }
  }
}
