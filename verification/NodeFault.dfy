/** The node's sampling and fault states (firmware/node_nrf54l15/src/main.c and
    firmware/node_nrf54l15/src/diagnostics/diagnostics.c). What a sensor read returns, whether the
    configuration loads and whether an initialisation step fails are parameters. */
module NodeFault {

  datatype AppState = Factory | Uncommissioned | Commissioning | Operational | Maintenance | Fault

  const FAULT_LIMIT: nat := 5

  /** pending: the delayable work item is scheduled; faults: the counter of diagnostics.c. */
  datatype Node = Node(app: AppState, pending: bool, faults: nat, advertising: bool)

  /** Sampled: the time of the work item comes, and the read succeeds or not. */
  datatype Event = Sampled(ok: bool) | Connected(err: nat) | Disconnected

  /** main: an initialisation step that fails ends it before anything is scheduled. */
  function Boot(configLoaded: bool, initialised: bool): Node {
    var app := if configLoaded then Operational else Uncommissioned;
    Node(app, initialised && app.Operational?, 0, initialised)
  }

  function Recorded(n: Node, ok: bool): Node {
    if ok then n.(faults := 0)
    else n.(faults := n.faults + 1, app := if n.faults + 1 > FAULT_LIMIT then Fault else n.app)
  }

  function Next(n: Node, e: Event): Node {
    match e
    case Sampled(ok) =>
      if !n.pending then n
      else var m := Recorded(n, ok); m.(pending := m.app.Operational?)
    case Connected(err) => if err != 0 then n else n.(advertising := false)
    case Disconnected => if n.app.Operational? then n.(advertising := true) else n
  }

  function After(n: Node, events: seq<Event>): Node {
    if events == [] then n else Next(After(n, events[..|events| - 1]), events[|events| - 1])
  }

  /** The outcomes of the reads actually made. */
  function History(n: Node, events: seq<Event>): seq<bool> {
    if events == [] then []
    else
      var before, e := events[..|events| - 1], events[|events| - 1];
      if e.Sampled? && After(n, before).pending then History(n, before) + [e.ok] else History(n, before)
  }

  /** The outcomes reads would have at every due time. */
  function Outcomes(events: seq<Event>): seq<bool> {
    if events == [] then []
    else
      var before, e := events[..|events| - 1], events[|events| - 1];
      if e.Sampled? then Outcomes(before) + [e.ok] else Outcomes(before)
  }

  // -------------------------------------------------------------- failure windows

  const WINDOW: nat := 6

  /** The last six reads all failed. */
  predicate EndsInFailures(h: seq<bool>) { |h| >= WINDOW && forall i :: |h| - WINDOW <= i < |h| ==> !h[i] }

  predicate NoEarlierWindow(h: seq<bool>) { forall k :: 0 <= k < |h| ==> !EndsInFailures(h[..k]) }

  /** How many of the latest reads failed in a row. */
  function Trailing(h: seq<bool>): (n: nat)
    ensures n <= |h|
    ensures forall i :: |h| - n <= i < |h| ==> !h[i]
    ensures n < |h| ==> h[|h| - n - 1]
  {
    if h == [] || h[|h| - 1] then 0 else Trailing(h[..|h| - 1]) + 1
  }

  lemma WindowIffTrailing(h: seq<bool>)
    ensures EndsInFailures(h) <==> Trailing(h) >= WINDOW
  {
    var n := Trailing(h);
    if n < WINDOW && EndsInFailures(h) {
      assert false;
    }
  }

  /** What holds of a node started operational and the reads it has made. */
  ghost predicate Tracks(n: Node, h: seq<bool>) {
    && n.faults == Trailing(h)
    && (n.app == Fault <==> EndsInFailures(h))
    && (n.app == Operational <==> !EndsInFailures(h))
    && (n.pending <==> n.app == Operational)
    && NoEarlierWindow(h)
  }

  lemma ReadTracks(n: Node, h: seq<bool>, ok: bool)
    requires Tracks(n, h) && n.pending
    ensures Tracks(Next(n, Sampled(ok)), h + [ok])
  {
    var longer := h + [ok];
    assert longer[..|h|] == h;
    WindowIffTrailing(h);
    WindowIffTrailing(longer);
    forall k | 0 <= k < |longer|
      ensures !EndsInFailures(longer[..k])
    {
      if k < |h| {
        assert longer[..k] == h[..k];
      }
    }
  }

  lemma {:induction false} EveryRunTracks(events: seq<Event>)
    ensures Tracks(After(Boot(true, true), events), History(Boot(true, true), events))
  {
    if events != [] {
      var before, e := events[..|events| - 1], events[|events| - 1];
      EveryRunTracks(before);
      var n, h := After(Boot(true, true), before), History(Boot(true, true), before);
      if e.Sampled? && n.pending {
        ReadTracks(n, h, e.ok);
      }
    }
  }

  /** On every run of a node started operational: it is in FAULT exactly when its reads end in six
      failures in a row, which never happened before; while it is operational the counter is the
      number of failures in a row so far and a sample is pending; and a sample that would come
      due later in FAULT is not taken. */
  lemma FaultIff(events: seq<Event>, ok: bool)
    ensures var (n, h) := (After(Boot(true, true), events), History(Boot(true, true), events));
            && (n.app == Fault <==> EndsInFailures(h))
            && NoEarlierWindow(h)
            && n.app in {Operational, Fault}
            && (n.app == Operational ==> n.faults == Trailing(h) <= 5 && n.pending)
            && (n.app == Fault ==> History(Boot(true, true), events + [Sampled(ok)]) == h)
  {
    EveryRunTracks(events);
    WindowIffTrailing(History(Boot(true, true), events));
    assert (events + [Sampled(ok)])[..|events|] == events;
  }

  /** The reads made are the outcomes up to the first window of six failures. */
  lemma {:induction false} HistoryIsCutOutcomes(events: seq<Event>)
    ensures var h := History(Boot(true, true), events);
            h <= Outcomes(events) && (h == Outcomes(events) || EndsInFailures(h)) && NoEarlierWindow(h)
  {
    if events != [] {
      var before := events[..|events| - 1];
      HistoryIsCutOutcomes(before);
      EveryRunTracks(before);
      EveryRunTracks(events);
    }
  }

  /** FAULT is for ever, and a node in FAULT that a hub has connected to never advertises again. */
  lemma {:induction false} FaultIsSilent(n: Node, events: seq<Event>)
    requires n.app == Fault && !n.pending
    ensures After(n, events).app == Fault && !After(n, events).pending
    ensures History(n, events) == []
    ensures !n.advertising || Connected(0) in events ==> !After(n, events).advertising
  {
    if events != [] {
      var before, e := events[..|events| - 1], events[|events| - 1];
      FaultIsSilent(n, before);
      assert events == before + [e];
    }
  }

  /** On every run of a node started operational it advertises exactly when every connection was
      followed by a disconnection before which no six reads in a row had failed. */
  lemma {:induction false} AdvertisesIff(events: seq<Event>)
    ensures After(Boot(true, true), events).advertising <==>
            forall k :: 0 <= k < |events| && events[k] == Connected(0) ==> ResumedAfter(events, k)
  {
    if events != [] {
      var before, e := events[..|events| - 1], events[|events| - 1];
      AdvertisesIff(before);
      EveryRunTracks(before);
      ResumedSnoc(events);
      if e == Connected(0) {
        assert !ResumedAfter(events, |events| - 1);
      }
    }
  }

  /** After event k the link went down at a time when the node was not in FAULT. */
  ghost predicate ResumedAfter(events: seq<Event>, k: nat) {
    exists m :: k < m < |events| && ResumedAt(events, m)
  }

  ghost predicate ResumedAt(events: seq<Event>, m: nat)
    requires m < |events|
  {
    events[m] == Disconnected && !EndsInFailures(History(Boot(true, true), events[..m]))
  }

  lemma ResumedSnoc(events: seq<Event>)
    requires events != []
    ensures var before := events[..|events| - 1];
            forall k :: 0 <= k < |before| ==>
              (ResumedAfter(events, k) <==> ResumedAfter(before, k) || ResumedAt(events, |events| - 1))
  {
    var before := events[..|events| - 1];
    forall m | 0 <= m < |before|
      ensures ResumedAt(events, m) <==> ResumedAt(before, m)
    {
      assert before[..m] == events[..m];
    }
    hide ResumedAt;
  }

  /** A node whose configuration did not load, or whose start-up failed, never takes a sample. */
  lemma {:induction false} UnscheduledNeverSamples(configLoaded: bool, initialised: bool, events: seq<Event>)
    ensures History(Boot(configLoaded, initialised), events) == [] || (configLoaded && initialised)
    ensures !(configLoaded && initialised) ==> !After(Boot(configLoaded, initialised), events).pending
    ensures !(configLoaded && initialised) ==>
              After(Boot(configLoaded, initialised), events).app == if configLoaded then Operational else Uncommissioned
  {
    if events != [] {
      UnscheduledNeverSamples(configLoaded, initialised, events[..|events| - 1]);
    }
  }

  /** A node that waits for its configuration advertises until something has connected. */
  lemma {:induction false} UncommissionedAdvertises(events: seq<Event>)
    ensures After(Boot(false, true), events).app == Uncommissioned
    ensures After(Boot(false, true), events).advertising <==> Connected(0) !in events
  {
    if events != [] {
      var before := events[..|events| - 1];
      UncommissionedAdvertises(before);
      UnscheduledNeverSamples(false, true, before);
      assert events == before + [events[|events| - 1]];
    }
  }

  // ---------------------------------------------------------------------- the node

  class Diagnostics {
    var faultCount: nat

    constructor ()
      ensures faultCount == 0
    {
      faultCount := 0;
    }

    method RecordFault()
      modifies this
      ensures faultCount == old(faultCount) + 1
    {
      faultCount := faultCount + 1;
    }

    method GetFaultCount() returns (n: nat)
      ensures n == faultCount
    {
      n := faultCount;
    }

    method ClearFaultCount()
      modifies this
      ensures faultCount == 0
    {
      faultCount := 0;
    }
  }

  class Application {
    var appState: AppState
    var samplePending: bool
    var advertising: bool
    const diagnostics: Diagnostics

    ghost function Model(): Node
      reads this, diagnostics
    {
      Node(appState, samplePending, diagnostics.faultCount, advertising)
    }

    /** main, up to its loop. */
    constructor (configLoaded: bool, initialised: bool)
      ensures fresh(diagnostics) && Model() == Boot(configLoaded, initialised)
    {
      diagnostics := new Diagnostics();
      appState := Uncommissioned;
      samplePending := false;
      advertising := false;
      new;
      if configLoaded {
        appState := Operational;
      }
      if initialised {
        advertising := true;
        if appState == Operational {
          samplePending := true;
        }
      }
    }

    /** The work item runs when it is due; it is no longer pending then. */
    method SampleWorkHandler(readOk: bool)
      requires samplePending
      modifies this, diagnostics
      ensures Model() == Next(old(Model()), Sampled(readOk))
    {
      samplePending := false;
      if !readOk {
        diagnostics.RecordFault();
        var count := diagnostics.GetFaultCount();
        if count > FAULT_LIMIT {
          appState := Fault;
        }
      } else {
        diagnostics.ClearFaultCount();
      }
      if appState == Operational {
        samplePending := true;
      }
    }

    method OnConnected(err: nat)
      modifies this
      ensures Model() == Next(old(Model()), Connected(err))
    {
      if err != 0 {
        return;
      }
      advertising := false;
    }

    method OnDisconnected()
      modifies this
      ensures Model() == Next(old(Model()), Disconnected)
    {
      if appState == Operational {
        advertising := true;
      }
    }
  }
}
