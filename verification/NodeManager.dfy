/** The hub's table of sensor nodes (firmware/hub_nrf54l15_ble/src/node_manager/node_manager.c):
    thirty-two slots searched linearly, refining a bounded map from addresses to node records. */
module NodeManager {
  import opened Options

  const MAX_NODES: nat := 32
  const NODE_ID_LEN: nat := 16
  const ENOMEM: int := 12
  const ENOENT: int := 2

  datatype NodeState = Discovered | Connected | Bound | Faulted | Disconnected

  // addresses and connection objects are numbers here; a missing connection is NULL
  datatype Node = Node(nodeId: seq<bv8>, addr: nat, state: NodeState, conn: Option<nat>, rssi: int,
                       lastSeen: nat, battery: nat, reading: real, bound: bool)

  datatype Slot = Slot(valid: bool, node: Node)

  // an id after memset
  const NO_ID: seq<bv8> := [0, 0, 0, 0, 0, 0, 0, 0, 0, 0, 0, 0, 0, 0, 0, 0]

  function Fresh(addr: nat): Node {
    Node(NO_ID, addr, Discovered, None, 0, 0, 0, 0.0, false)
  }

  // ------------------------------------------------------------ the map it refines

  datatype Op =
    | Add(rssi: int, advData: Option<seq<bv8>>, now: nat)
    | UpdateConnection(conn: Option<nat>)
    | UpdateReading(reading: real, now: nat)
    | UpdateBattery(battery: nat)
    | Bind

  /** memcpy of the first bytes over the id. */
  function Overwritten(id: seq<bv8>, data: seq<bv8>): (r: seq<bv8>)
    requires |id| == NODE_ID_LEN
    ensures |r| == NODE_ID_LEN
  {
    var n := if |data| < NODE_ID_LEN then |data| else NODE_ID_LEN;
    data[..n] + id[n..]
  }

  /** A connected node has a connection, a bound one is bound to the hub. */
  predicate WellFormed(n: Node) {
    && |n.nodeId| == NODE_ID_LEN
    && (n.state == Connected ==> n.conn.Some?)
    && (n.state == Bound ==> n.bound)
  }

  /** What an operation does to the record of its address. */
  function Changed(n: Node, op: Op): (r: Node)
    requires WellFormed(n)
    ensures WellFormed(r) && r.addr == n.addr
  {
    match op
    case Add(rssi, data, now) =>
      n.(rssi := rssi, lastSeen := now,
         nodeId := if data.Some? && data.value != [] then Overwritten(n.nodeId, data.value) else n.nodeId)
    case UpdateConnection(c) => n.(conn := c, state := if c.Some? then Connected else Disconnected)
    case UpdateReading(reading, now) => n.(reading := reading, lastSeen := now)
    case UpdateBattery(battery) => n.(battery := battery)
    case Bind => n.(bound := true, state := Bound)
  }

  ghost predicate GoodMap(m: map<nat, Node>) {
    |m| <= MAX_NODES && forall a :: a in m ==> m[a].addr == a && WellFormed(m[a])
  }

  /** The bounded map: only an addition makes a new record, and only while there is room. */
  function Apply(m: map<nat, Node>, addr: nat, op: Op): (map<nat, Node>, bool)
    requires GoodMap(m)
  {
    if addr in m then (m[addr := Changed(m[addr], op)], true)
    else if op.Add? && |m| < MAX_NODES then (m[addr := Changed(Fresh(addr), op)], true)
    else (m, false)
  }

  lemma SetKeeps(m: map<nat, Node>, n: Node)
    requires GoodMap(m) && WellFormed(n) && (n.addr in m || |m| < MAX_NODES)
    ensures GoodMap(m[n.addr := n]) && m[n.addr := n].Keys == m.Keys + {n.addr}
  {
    hide WellFormed;
    assert m[n.addr := n].Keys == m.Keys + {n.addr};
    assert n.addr in m ==> m.Keys + {n.addr} == m.Keys;
    assert |m[n.addr := n]| == |m[n.addr := n].Keys| && |m| == |m.Keys|;
  }

  lemma ApplyKeeps(m: map<nat, Node>, addr: nat, op: Op)
    requires GoodMap(m)
    ensures GoodMap(Apply(m, addr, op).0)
    ensures Apply(m, addr, op).0.Keys == if Apply(m, addr, op).1 then m.Keys + {addr} else m.Keys
  {
    if addr in m {
      assert WellFormed(m[addr]);
      SetKeeps(m, Changed(m[addr], op));
    } else if op.Add? && |m| < MAX_NODES {
      SetKeeps(m, Changed(Fresh(addr), op));
    }
  }

  // --------------------------------------------------------------------- the table

  predicate Occupied(s: Slot, addr: nat) { s.valid && s.node.addr == addr }

  /** find_node_by_addr; the size of the table stands for -1. */
  function Find(t: seq<Slot>, addr: nat): (i: nat)
    ensures i <= |t|
    ensures i < |t| ==> Occupied(t[i], addr)
    ensures forall j :: 0 <= j < i ==> !Occupied(t[j], addr)
  {
    if t == [] || Occupied(t[0], addr) then 0 else 1 + Find(t[1..], addr)
  }

  function FirstInvalid(t: seq<Slot>): (i: nat)
    ensures i <= |t|
    ensures i < |t| ==> !t[i].valid
    ensures forall j :: 0 <= j < i ==> t[j].valid
  {
    if t == [] || !t[0].valid then 0 else 1 + FirstInvalid(t[1..])
  }

  ghost predicate GoodTable(t: seq<Slot>) {
    && |t| == MAX_NODES
    && (forall i :: 0 <= i < |t| && t[i].valid ==> WellFormed(t[i].node))
    && Distinct(t)
  }

  /** Valid slots have pairwise different addresses. */
  ghost predicate Distinct(t: seq<Slot>) {
    forall i, j :: 0 <= i < j < |t| && t[i].valid && t[j].valid ==> t[i].node.addr != t[j].node.addr
  }

  /** The map a table stands for: the same records under the same addresses. */
  ghost predicate Stands(t: seq<Slot>, m: map<nat, Node>) {
    && (forall i :: 0 <= i < |t| && t[i].valid ==> t[i].node.addr in m && m[t[i].node.addr] == t[i].node)
    && (forall a :: a in m ==> Find(t, a) < |t|)
  }

  /** What a call does to the table, and its return value: an index, zero or an error. */
  function Call(t: seq<Slot>, addr: nat, op: Op): (seq<Slot>, int)
    requires GoodTable(t)
  {
    var i := Find(t, addr);
    if i < |t| then (t[i := Slot(true, Changed(t[i].node, op))], if op.Add? then i else 0)
    else if !op.Add? then (t, -ENOENT)
    else
      var j := FirstInvalid(t);
      if j == |t| then (t, -ENOMEM) else (t[j := Slot(true, Changed(Fresh(addr), op))], j)
  }

  function Count(t: seq<Slot>): (n: nat)
    ensures n <= |t|
    ensures n == |t| <==> FirstInvalid(t) == |t|
  {
    if t == [] then 0 else Count(t[..|t| - 1]) + (if t[|t| - 1].valid then 1 else 0)
  }

  function ConnectedCount(t: seq<Slot>): nat {
    if t == [] then 0
    else ConnectedCount(t[..|t| - 1]) + (if t[|t| - 1].valid && t[|t| - 1].node.state == Connected then 1 else 0)
  }

  // -------------------------------------------------------------------- refinement

  function Addresses(t: seq<Slot>): set<nat> { set i | 0 <= i < |t| && t[i].valid :: t[i].node.addr }

  lemma {:induction false} CountIsDistinctAddresses(t: seq<Slot>)
    requires Distinct(t)
    ensures Count(t) == |Addresses(t)|
  {
    if t == [] {
      assert Addresses(t) == {};
    } else {
      var less, last := t[..|t| - 1], t[|t| - 1];
      CountIsDistinctAddresses(less);
      AddressesSnoc(t);
      assert last.valid ==> last.node.addr !in Addresses(less);
    }
  }

  lemma AddressesSnoc(t: seq<Slot>)
    requires t != []
    ensures var less, last := t[..|t| - 1], t[|t| - 1];
            Addresses(t) == if last.valid then Addresses(less) + {last.node.addr} else Addresses(less)
  {
    var less, last := t[..|t| - 1], t[|t| - 1];
    forall a | a in Addresses(less)
      ensures a in Addresses(t)
    {
      var i :| 0 <= i < |less| && less[i].valid && less[i].node.addr == a;
      assert t[i] == less[i];
    }
    forall a | a in Addresses(t)
      ensures a in Addresses(less) || (last.valid && a == last.node.addr)
    {
      var i :| 0 <= i < |t| && t[i].valid && t[i].node.addr == a;
      assert i < |t| - 1 ==> less[i] == t[i];
    }
  }

  lemma StandsForAddresses(t: seq<Slot>, m: map<nat, Node>)
    requires GoodTable(t) && Stands(t, m)
    ensures m.Keys == Addresses(t) && Count(t) == |m|
  {
    forall a | a in m
      ensures a in Addresses(t)
    {
      assert Occupied(t[Find(t, a)], a);
    }
    CountIsDistinctAddresses(t);
  }

  lemma FindIffKnown(t: seq<Slot>, m: map<nat, Node>, a: nat)
    requires Stands(t, m)
    ensures Find(t, a) < |t| <==> a in m
    ensures a in m ==> m[a] == t[Find(t, a)].node
  {
  }

  /** Writing a slot under an address it already has, or that nobody has, moves no other. */
  lemma WriteKeepsOthers(t: seq<Slot>, i: nat, n: Node, b: nat)
    requires GoodTable(t) && i < |t| && b != n.addr && (t[i].valid ==> t[i].node.addr == n.addr)
    ensures Find(t[i := Slot(true, n)], b) == Find(t, b)
  {
    var t' := t[i := Slot(true, n)];
    var k, k' := Find(t, b), Find(t', b);
    assert forall j :: 0 <= j < |t| ==> (Occupied(t'[j], b) <==> Occupied(t[j], b));
  }

  lemma WriteFound(t: seq<Slot>, i: nat, n: Node)
    requires GoodTable(t) && i < |t|
    requires if t[i].valid then t[i].node.addr == n.addr else Find(t, n.addr) == |t|
    ensures Find(t[i := Slot(true, n)], n.addr) == i
  {
    var t' := t[i := Slot(true, n)];
    assert Occupied(t'[i], n.addr);
    forall j | 0 <= j < i
      ensures !Occupied(t'[j], n.addr)
    {
      assert t'[j] == t[j];
    }
  }

  lemma WriteKeepsGood(t: seq<Slot>, i: nat, n: Node)
    requires GoodTable(t) && i < |t| && WellFormed(n)
    requires if t[i].valid then t[i].node.addr == n.addr else Find(t, n.addr) == |t|
    ensures GoodTable(t[i := Slot(true, n)])
  {
    var t' := t[i := Slot(true, n)];
    forall j | 0 <= j < |t| && j != i && t[j].valid
      ensures t[j].node.addr != n.addr
    {
      assert !t[i].valid ==> !Occupied(t[j], n.addr);
    }
  }

  lemma WriteStands(t: seq<Slot>, m: map<nat, Node>, i: nat, n: Node)
    requires GoodTable(t) && Stands(t, m) && i < |t| && WellFormed(n)
    requires if t[i].valid then t[i].node.addr == n.addr else Find(t, n.addr) == |t|
    ensures Stands(t[i := Slot(true, n)], m[n.addr := n])
  {
    hide WellFormed;
    var t', m' := t[i := Slot(true, n)], m[n.addr := n];
    WriteFound(t, i, n);
    forall a | a in m'
      ensures Find(t', a) < |t'|
    {
      if a != n.addr {
        WriteKeepsOthers(t, i, n, a);
      }
    }
    forall j | 0 <= j < |t'| && t'[j].valid
      ensures t'[j].node.addr in m' && m'[t'[j].node.addr] == t'[j].node
    {
      if j != i {
        assert t'[j] == t[j];
        assert t[i].valid || !Occupied(t[j], n.addr);
      }
    }
  }

  lemma ChangedKeeps(n: Node, op: Op)
    requires WellFormed(n)
    ensures WellFormed(Changed(n, op)) && Changed(n, op).addr == n.addr
  {
  }

  /** One call of the table is one step of the map: it succeeds exactly when the map's does, fails
      with the right code otherwise, and every known address keeps its index. */
  lemma CallRefines(t: seq<Slot>, m: map<nat, Node>, addr: nat, op: Op, b: nat)
    requires GoodTable(t) && GoodMap(m) && Stands(t, m)
    ensures var ((t', reply), (m', ok)) := (Call(t, addr, op), Apply(m, addr, op));
            && GoodTable(t') && GoodMap(m') && Stands(t', m')
            && (ok <==> reply >= 0)
            && (!ok ==> reply == if op.Add? then -ENOMEM else -ENOENT)
            && (ok && op.Add? ==> reply == Find(t', addr))
            && (b in m ==> Find(t', b) == Find(t, b))
  {
    hide Changed, WellFormed, Stands, Addresses;
    StandsForAddresses(t, m);
    FindIffKnown(t, m, addr);
    FindIffKnown(t, m, b);
    ApplyKeeps(m, addr, op);
    var i, j := Find(t, addr), FirstInvalid(t);
    if i < |t| {
      Write(t, m, i, t[i].node, op, b);
    } else if op.Add? && j < |t| {
      FreshIsWellFormed(addr);
      Write(t, m, j, Fresh(addr), op, b);
    }
  }

  lemma FreshIsWellFormed(addr: nat)
    ensures WellFormed(Fresh(addr))
  {
  }

  lemma Write(t: seq<Slot>, m: map<nat, Node>, i: nat, n: Node, op: Op, b: nat)
    requires GoodTable(t) && Stands(t, m) && i < |t| && WellFormed(n)
    requires if t[i].valid then t[i].node.addr == n.addr else Find(t, n.addr) == |t|
    ensures var t' := t[i := Slot(true, Changed(n, op))];
            && GoodTable(t') && Stands(t', m[n.addr := Changed(n, op)])
            && Find(t', n.addr) == i
            && (b != n.addr ==> Find(t', b) == Find(t, b))
  {
    hide Changed, WellFormed, GoodTable, Stands;
    ChangedKeeps(n, op);
    WriteKeepsGood(t, i, Changed(n, op));
    WriteStands(t, m, i, Changed(n, op));
    WriteFound(t, i, Changed(n, op));
    if b != n.addr {
      WriteKeepsOthers(t, i, Changed(n, op), b);
    }
  }

  // -------------------------------------------------------------------------- runs

  datatype Request = Request(addr: nat, op: Op)

  function Empty(n: nat): (t: seq<Slot>)
    ensures |t| == n && forall i :: 0 <= i < n ==> !t[i].valid
  {
    if n == 0 then [] else Empty(n - 1) + [Slot(false, Fresh(0))]
  }

  /** The table and the map after a run from initialisation. */
  ghost function After(run: seq<Request>): (r: (seq<Slot>, map<nat, Node>))
    ensures GoodTable(r.0) && GoodMap(r.1) && Stands(r.0, r.1)
  {
    if run == [] then (Empty(MAX_NODES), map[])
    else
      var (t, m) := After(run[..|run| - 1]);
      var last := run[|run| - 1];
      CallRefines(t, m, last.addr, last.op, last.addr);
      (Call(t, last.addr, last.op).0, Apply(m, last.addr, last.op).0)
  }

  /** The addresses whose addition was accepted at some time in a run. */
  ghost function Accepted(run: seq<Request>): set<nat> {
    if run == [] then {}
    else
      var before, last := run[..|run| - 1], run[|run| - 1];
      if last.op.Add? && Call(After(before).0, last.addr, last.op).1 >= 0 then Accepted(before) + {last.addr}
      else Accepted(before)
  }

  lemma {:induction false} KnownIsAccepted(run: seq<Request>)
    ensures After(run).1.Keys == Accepted(run)
  {
    if run != [] {
      var before, last := run[..|run| - 1], run[|run| - 1];
      KnownIsAccepted(before);
      var (t, m) := After(before);
      CallRefines(t, m, last.addr, last.op, last.addr);
      ApplyKeeps(m, last.addr, last.op);
    }
  }

  /** Over every run: valid addresses are pairwise distinct, the reported count is the number of
      distinct addresses ever accepted, an addition fails exactly when its address is new and
      thirty-two others are present, and any other call exactly when its address is unknown. */
  lemma TableIsBoundedMap(run: seq<Request>, addr: nat, op: Op)
    ensures var t := After(run).0;
            && GoodTable(t)
            && (forall i :: 0 <= i < 32 && t[i].valid ==>
                  (t[i].node.state == Connected ==> t[i].node.conn.Some?) &&
                  (t[i].node.state == Bound ==> t[i].node.bound))
            && Count(t) == |Accepted(run)| <= 32
            && (op.Add? ==>
                  (Call(t, addr, op).1 == -12 <==> addr !in Accepted(run) && |Accepted(run)| == 32))
            && (!op.Add? ==> (Call(t, addr, op).1 == -2 <==> addr !in Accepted(run)))
  {
    var (t, m) := After(run);
    KnownIsAccepted(run);
    StandsForAddresses(t, m);
    CallRefines(t, m, addr, op, addr);
  }

  /** A known address keeps its index on every later call. */
  lemma {:induction false} IndexIsStable(run: seq<Request>, more: seq<Request>, a: nat)
    requires a in Accepted(run)
    ensures a in Accepted(run + more)
    ensures Find(After(run + more).0, a) == Find(After(run).0, a) < MAX_NODES
  {
    if more == [] {
      assert run + more == run;
    } else {
      var less, last := more[..|more| - 1], more[|more| - 1];
      assert (run + more)[..|run + more| - 1] == run + less;
      IndexIsStable(run, less, a);
      var (t, m) := After(run + less);
      KnownIsAccepted(run + less);
      CallRefines(t, m, last.addr, last.op, a);
    }
    KnownIsAccepted(run);
    FindIffKnown(After(run).0, After(run).1, a);
  }

  // ------------------------------------------------------- a record is its own history

  /** The calls made for an address from its accepted addition on. */
  ghost function Log(run: seq<Request>, a: nat): seq<Op> {
    if run == [] then []
    else
      var before, last := run[..|run| - 1], run[|run| - 1];
      var log := Log(before, a);
      if last.addr == a && (log != [] || (last.op.Add? && Call(After(before).0, a, last.op).1 >= 0)) then
        log + [last.op]
      else log
  }

  function LastConn(log: seq<Op>): Option<nat> {
    if log == [] then None
    else
      var op := log[|log| - 1];
      if op.UpdateConnection? then op.conn else LastConn(log[..|log| - 1])
  }

  function LastState(log: seq<Op>): NodeState {
    if log == [] then Discovered
    else
      match log[|log| - 1]
      case UpdateConnection(None) => Disconnected
      case UpdateConnection(Some(_)) => Connected
      case Bind => Bound
      case _ => LastState(log[..|log| - 1])
  }

  function LastReading(log: seq<Op>): real {
    if log == [] then 0.0
    else
      var op := log[|log| - 1];
      if op.UpdateReading? then op.reading else LastReading(log[..|log| - 1])
  }

  function LastBattery(log: seq<Op>): nat {
    if log == [] then 0
    else
      var op := log[|log| - 1];
      if op.UpdateBattery? then op.battery else LastBattery(log[..|log| - 1])
  }

  function LastRssi(log: seq<Op>): int {
    if log == [] then 0
    else
      var op := log[|log| - 1];
      if op.Add? then op.rssi else LastRssi(log[..|log| - 1])
  }

  /** An advertisement or a reading is a sign of life. */
  function LastSeen(log: seq<Op>): nat {
    if log == [] then 0
    else
      match log[|log| - 1]
      case Add(_, _, now) => now
      case UpdateReading(_, now) => now
      case _ => LastSeen(log[..|log| - 1])
  }

  /** Byte j of the id: from the last advertisement long enough to have it. */
  function IdByte(log: seq<Op>, j: nat): bv8 {
    if log == [] then 0
    else
      var op := log[|log| - 1];
      if op.Add? && op.advData != None && j < |op.advData.value| then op.advData.value[j]
      else IdByte(log[..|log| - 1], j)
  }

  ghost predicate RecordFits(n: Node, a: nat, log: seq<Op>) {
    && n.addr == a
    && n.conn == LastConn(log)
    && n.state == LastState(log)
    && (n.bound <==> Bind in log)
    && n.reading == LastReading(log)
    && n.battery == LastBattery(log)
    && n.rssi == LastRssi(log)
    && n.lastSeen == LastSeen(log)
    && |n.nodeId| == 16
    && forall j :: 0 <= j < 16 ==> n.nodeId[j] == IdByte(log, j)
  }

  lemma FreshFits(a: nat)
    ensures RecordFits(Fresh(a), a, [])
  {
  }

  lemma ChangedFits(n: Node, a: nat, log: seq<Op>, op: Op)
    requires WellFormed(n) && RecordFits(n, a, log)
    ensures RecordFits(Changed(n, op), a, log + [op])
  {
    var longer := log + [op];
    assert longer[..|log|] == log;
    assert Bind in longer <==> Bind in log || op == Bind;
    forall j | 0 <= j < 16
      ensures Changed(n, op).nodeId[j] == IdByte(longer, j)
    {
      assert IdByte(log, j) == n.nodeId[j];
    }
  }

  /** Over every run, each field of a known node is what the calls for its address since it was
      added say, and a node is known exactly when there are such calls. */
  lemma {:induction false} RecordIsItsHistory(run: seq<Request>, a: nat)
    ensures a in After(run).1 <==> Log(run, a) != []
    ensures a in After(run).1 ==> RecordFits(After(run).1[a], a, Log(run, a))
  {
    if run != [] {
      var before, last := run[..|run| - 1], run[|run| - 1];
      RecordIsItsHistory(before, a);
      var (t, m) := After(before);
      CallRefines(t, m, last.addr, last.op, a);
      hide Changed, RecordFits, WellFormed, Call;
      if last.addr == a {
        if a in m {
          ChangedFits(m[a], a, Log(before, a), last.op);
        } else {
          FreshFits(a);
          FreshIsWellFormed(a);
          ChangedFits(Fresh(a), a, [], last.op);
          assert [] + [last.op] == [last.op];
        }
      }
    }
  }

  /** The slots in use are a prefix of the table. */
  ghost predicate Prefix(t: seq<Slot>, n: nat) { n <= |t| && forall i :: 0 <= i < |t| ==> (t[i].valid <==> i < n) }

  lemma PrefixSearch(t: seq<Slot>, n: nat)
    requires Prefix(t, n)
    ensures FirstInvalid(t) == n
  {
    var i := FirstInvalid(t);
    if n < |t| {
      assert !t[n].valid;
    }
  }

  lemma WritePrefix(t: seq<Slot>, n: nat, i: nat, x: Node)
    requires Prefix(t, n) && i <= n && i < |t|
    ensures Prefix(t[i := Slot(true, x)], if i == n then n + 1 else n)
  {
  }

  lemma CallPrefix(t: seq<Slot>, m: map<nat, Node>, addr: nat, op: Op)
    requires GoodTable(t) && GoodMap(m) && Stands(t, m) && Prefix(t, |m|)
    ensures Prefix(Call(t, addr, op).0, |Apply(m, addr, op).0|)
    ensures addr !in m && op.Add? && |m| < 32 ==> Call(t, addr, op).1 == |m|
    ensures addr in m && op.Add? ==> Call(t, addr, op).1 == Find(t, addr)
  {
    hide Changed, WellFormed, Stands, Prefix;
    var i, n := Find(t, addr), |m|;
    FindIffKnown(t, m, addr);
    PrefixSearch(t, n);
    SizeGrows(m, addr, op);
    PrefixBounds(t, n, i);
    if i < |t| {
      WritePrefix(t, n, i, Changed(t[i].node, op));
    } else if op.Add? && n < |t| {
      FreshIsWellFormed(addr);
      WritePrefix(t, n, n, Changed(Fresh(addr), op));
    }
  }

  lemma PrefixBounds(t: seq<Slot>, n: nat, i: nat)
    requires Prefix(t, n)
    ensures n <= |t| && (i < |t| && t[i].valid ==> i < n)
  {
  }

  lemma {:induction false} TableIsPrefix(run: seq<Request>)
    ensures Prefix(After(run).0, |After(run).1|)
  {
    hide Prefix, Call, Apply, GoodTable, GoodMap, Stands;
    if run == [] {
      EmptyIsPrefix();
    } else {
      var before, last := run[..|run| - 1], run[|run| - 1];
      TableIsPrefix(before);
      CallPrefix(After(before).0, After(before).1, last.addr, last.op);
    }
  }

  lemma EmptyIsPrefix()
    ensures Prefix(After([]).0, |After([]).1|)
  {
    hide Empty;
  }

  lemma SizeGrows(m: map<nat, Node>, addr: nat, op: Op)
    requires GoodMap(m)
    ensures var (m', ok) := Apply(m, addr, op);
            |m'| == if ok && addr !in m then |m| + 1 else |m|
  {
    hide Changed;
    ApplyKeeps(m, addr, op);
    var (m', ok) := Apply(m, addr, op);
    assert |m'| == |m'.Keys| && |m| == |m.Keys|;
    assert addr in m ==> m.Keys + {addr} == m.Keys;
  }

  /** Indices are given out in the order of acceptance: the next new address gets the number of
      addresses accepted before it, and every known one keeps its own. */
  lemma IndicesInOrder(run: seq<Request>, addr: nat, op: Op)
    requires op.Add?
    ensures var (t, reply) := Call(After(run).0, addr, op);
            && (addr !in Accepted(run) && |Accepted(run)| < 32 ==> reply == |Accepted(run)|)
            && (addr in Accepted(run) ==> reply == Find(After(run).0, addr))
  {
    hide Call, Prefix, GoodTable, GoodMap, Stands, Accepted;
    TableIsPrefix(run);
    KnownIsAccepted(run);
    KeysSize(After(run).1);
    CallPrefix(After(run).0, After(run).1, addr, op);
  }

  lemma KeysSize(m: map<nat, Node>)
    ensures |m| == |m.Keys|
  {
  }

  // --------------------------------------------------------------- connected nodes

  function ConnectedAddresses(t: seq<Slot>): set<nat> {
    set i | 0 <= i < |t| && t[i].valid && t[i].node.state == Connected :: t[i].node.addr
  }

  lemma ConnectedSnoc(t: seq<Slot>)
    requires t != []
    ensures var less, last := t[..|t| - 1], t[|t| - 1];
            ConnectedAddresses(t) ==
            if last.valid && last.node.state == Connected then ConnectedAddresses(less) + {last.node.addr}
            else ConnectedAddresses(less)
  {
    var less, last := t[..|t| - 1], t[|t| - 1];
    forall a | a in ConnectedAddresses(less)
      ensures a in ConnectedAddresses(t)
    {
      var i :| 0 <= i < |less| && less[i].valid && less[i].node.state == Connected && less[i].node.addr == a;
      assert t[i] == less[i];
    }
    forall a | a in ConnectedAddresses(t)
      ensures a in ConnectedAddresses(less) || (last.valid && last.node.state == Connected && a == last.node.addr)
    {
      var i :| 0 <= i < |t| && t[i].valid && t[i].node.state == Connected && t[i].node.addr == a;
      assert i < |t| - 1 ==> less[i] == t[i];
    }
  }

  lemma {:induction false} ConnectedCountIs(t: seq<Slot>)
    requires Distinct(t)
    ensures ConnectedCount(t) == |ConnectedAddresses(t)|
  {
    if t == [] {
      assert ConnectedAddresses(t) == {};
    } else {
      var less, last := t[..|t| - 1], t[|t| - 1];
      ConnectedCountIs(less);
      ConnectedSnoc(t);
      assert last.valid ==> last.node.addr !in ConnectedAddresses(less);
    }
  }

  /** The accepted addresses whose calls last left them connected. */
  ghost function LeftConnected(run: seq<Request>): set<nat> {
    set a | a in Accepted(run) && LastState(Log(run, a)) == Connected
  }

  /** Over every run, the connected count is the number of those addresses. */
  lemma ConnectedOverRuns(run: seq<Request>)
    ensures ConnectedCount(After(run).0) == |LeftConnected(run)|
  {
    var t := After(run).0;
    ConnectedCountIs(t);
    forall a
      ensures a in LeftConnected(run) <==> a in ConnectedAddresses(t)
    {
      hide ConnectedAddresses;
      ConnectedIff(run, a);
    }
    assert LeftConnected(run) == ConnectedAddresses(t) by {
      hide *;
    }
  }

  lemma ConnectedIff(run: seq<Request>, a: nat)
    ensures a in ConnectedAddresses(After(run).0) <==> a in Accepted(run) && LastState(Log(run, a)) == Connected
  {
    hide Log, LastState, Accepted;
    var t, m := After(run).0, After(run).1;
    KnownIsAccepted(run);
    RecordIsItsHistory(run, a);
    InConnected(t, m, a);
  }

  lemma InConnected(t: seq<Slot>, m: map<nat, Node>, a: nat)
    requires GoodTable(t) && Stands(t, m)
    ensures a in ConnectedAddresses(t) <==> a in m && m[a].state == Connected
  {
    FindIffKnown(t, m, a);
    if a in m {
      assert Occupied(t[Find(t, a)], a);
    }
  }

  // -------------------------------------------------------------------- the module

  class Nodes {
    const slots: array<Slot>

    ghost predicate Valid()
      reads this, slots
    {
      GoodTable(slots[..])
    }

    constructor ()
      ensures Valid() && fresh(slots) && Count(slots[..]) == 0
    {
      slots := new Slot[MAX_NODES](_ => Slot(false, Fresh(0)));
      new;
      NothingValid(slots[..]);
    }

    method FindNodeByAddr(addr: nat) returns (index: int)
      ensures index == if Find(slots[..], addr) < slots.Length then Find(slots[..], addr) else -1
    {
      for i := 0 to slots.Length
        invariant forall j :: 0 <= j < i ==> !Occupied(slots[j], addr)
      {
        if slots[i].valid && slots[i].node.addr == addr {
          return i;
        }
      }
      return -1;
    }

    method AddNode(addr: nat, rssi: int, advData: Option<seq<bv8>>, now: nat) returns (reply: int)
      requires Valid()
      modifies slots
      ensures Valid() && (slots[..], reply) == Call(old(slots[..]), addr, Add(rssi, advData, now))
    {
      var index := FindNodeByAddr(addr);
      if index < 0 {
        for i := 0 to MAX_NODES
          invariant index == -1 && slots[..] == old(slots[..])
          invariant forall j :: 0 <= j < i ==> slots[j].valid
        {
          if !slots[i].valid {
            index := i;
            break;
          }
        }
        if index < 0 {
          return -ENOMEM;
        }
        slots[index] := Slot(true, Fresh(addr));
      }
      ghost var base := slots[index].node;
      assert WellFormed(base);
      var node := slots[index].node.(rssi := rssi, lastSeen := now);
      if advData.Some? && |advData.value| > 0 {
        node := node.(nodeId := Overwritten(node.nodeId, advData.value));
      }
      slots[index] := Slot(true, node);
      Settle(old(slots[..]), addr, Add(rssi, advData, now), slots[..], index, base);
      return index;
    }

    method UpdateConnection(addr: nat, conn: Option<nat>) returns (reply: int)
      requires Valid()
      modifies slots
      ensures Valid() && (slots[..], reply) == Call(old(slots[..]), addr, Op.UpdateConnection(conn))
    {
      var index := FindNodeByAddr(addr);
      if index >= 0 {
        ghost var base := slots[index].node;
        assert WellFormed(base);
        slots[index] := slots[index].(node := slots[index].node.(conn := conn));
        var state := if conn.Some? then Connected else Disconnected;
        slots[index] := slots[index].(node := slots[index].node.(state := state));
        Settle(old(slots[..]), addr, Op.UpdateConnection(conn), slots[..], index, base);
      }
      return if index >= 0 then 0 else -ENOENT;
    }

    method UpdateReading(addr: nat, reading: real, now: nat) returns (reply: int)
      requires Valid()
      modifies slots
      ensures Valid() && (slots[..], reply) == Call(old(slots[..]), addr, Op.UpdateReading(reading, now))
    {
      var index := FindNodeByAddr(addr);
      if index >= 0 {
        ghost var base := slots[index].node;
        assert WellFormed(base);
        slots[index] := slots[index].(node := slots[index].node.(reading := reading, lastSeen := now));
        Settle(old(slots[..]), addr, Op.UpdateReading(reading, now), slots[..], index, base);
      }
      return if index >= 0 then 0 else -ENOENT;
    }

    method UpdateBattery(addr: nat, battery: nat) returns (reply: int)
      requires Valid()
      modifies slots
      ensures Valid() && (slots[..], reply) == Call(old(slots[..]), addr, Op.UpdateBattery(battery))
    {
      var index := FindNodeByAddr(addr);
      if index >= 0 {
        ghost var base := slots[index].node;
        assert WellFormed(base);
        slots[index] := slots[index].(node := slots[index].node.(battery := battery));
        Settle(old(slots[..]), addr, Op.UpdateBattery(battery), slots[..], index, base);
      }
      return if index >= 0 then 0 else -ENOENT;
    }

    method BindNode(addr: nat) returns (reply: int)
      requires Valid()
      modifies slots
      ensures Valid() && (slots[..], reply) == Call(old(slots[..]), addr, Bind)
    {
      var index := FindNodeByAddr(addr);
      if index >= 0 {
        ghost var base := slots[index].node;
        assert WellFormed(base);
        slots[index] := slots[index].(node := slots[index].node.(bound := true, state := Bound));
        Settle(old(slots[..]), addr, Bind, slots[..], index, base);
      }
      return if index >= 0 then 0 else -ENOENT;
    }

    method GetCount() returns (count: nat)
      requires Valid()
      ensures count == Count(slots[..]) == |Addresses(slots[..])|
    {
      count := 0;
      for i := 0 to MAX_NODES
        invariant count == Count(slots[..i])
      {
        assert slots[..i + 1][..i] == slots[..i];
        if slots[i].valid {
          count := count + 1;
        }
      }
      assert slots[..MAX_NODES] == slots[..];
      CountIsDistinctAddresses(slots[..]);
    }

    method GetConnectedCount() returns (count: nat)
      requires Valid()
      ensures count == ConnectedCount(slots[..]) == |ConnectedAddresses(slots[..])|
    {
      count := 0;
      for i := 0 to MAX_NODES
        invariant count == ConnectedCount(slots[..i])
      {
        assert slots[..i + 1][..i] == slots[..i];
        if slots[i].valid && slots[i].node.state == Connected {
          count := count + 1;
        }
      }
      assert slots[..MAX_NODES] == slots[..];
      ConnectedCountIs(slots[..]);
    }
  }

  lemma {:induction false} NothingValid(t: seq<Slot>)
    requires forall i :: 0 <= i < |t| ==> !t[i].valid
    ensures Count(t) == 0
  {
    if t != [] {
      NothingValid(t[..|t| - 1]);
    }
  }

  lemma Settle(t: seq<Slot>, addr: nat, op: Op, t': seq<Slot>, i: nat, base: Node)
    requires GoodTable(t) && i < |t| && WellFormed(base)
    requires t' == t[i := Slot(true, Changed(base, op))]
    requires if Find(t, addr) < |t| then i == Find(t, addr) && base == t[i].node
             else op.Add? && i == FirstInvalid(t) && base == Fresh(addr)
    ensures GoodTable(t') && t' == Call(t, addr, op).0
  {
    hide Changed, WellFormed;
    ChangedKeeps(base, op);
    WriteKeepsGood(t, i, Changed(base, op));
  }
}
