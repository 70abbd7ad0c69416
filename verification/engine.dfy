/** The whole program as a state machine: the monitor thread's ticks and the
    tray menu's actions on the whitelist, interleaved one whole action at a
    time. The state is the monitor's connected set and the whitelist. */
module Engine {
  import opened Devices
  import opened TrustStore
  import opened Monitor
  import Operator
  import SystemProfiler

  datatype State = State(connected: set<Serial>, store: Store)

  /** One thing that can happen: a monitor tick over a fresh snapshot, the
      operator's "Add All to Whitelist" over the snapshot it enumerates, or
      "Remove from Whitelist" with the answer typed into the prompt. */
  datatype Action =
    | Poll(snapshot: Snapshot)
    | TrustAllCurrent(current: Snapshot)
    | Revoke(answer: Option<string>)

  datatype Outcome = Outcome(state: State, events: seq<Classified>)

  /** The final state and, per action, the connect events it raised. */
  datatype Trace = Trace(state: State, log: seq<seq<Classified>>)

  /** Process start: connected_serials is empty, the whitelist is whatever the
      database file holds. */
  function Start(store: Store): State
  {
    State({}, store)
  }

  /** One action. A tick reads the store and never writes it; an operator
      action writes the store and neither touches the connected set nor raises
      connect events. */
  function Step(st: State, a: Action): (r: Outcome)
    ensures a.Poll? ==>
              && r.state.store == st.store
              && r.state.connected == Serials(a.snapshot)
              && FirstSightings(r.events, st.connected, st.store, a.snapshot)
    ensures !a.Poll? ==> r.state.connected == st.connected && r.events == []
  {
    match a
    case Poll(snap) =>
      var t := Tick(st.connected, st.store, snap);
      Outcome(State(t.connected, st.store), t.events)
    case TrustAllCurrent(snap) =>
      Outcome(st.(store := Operator.AddAll(st.store, snap)), [])
    case Revoke(answer) =>
      Outcome(st.(store := Operator.RemovePrompted(st.store, answer)), [])
  }

  /** A sequence of actions from a given state. */
  function Run(st: State, actions: seq<Action>): (r: Trace)
    ensures |r.log| == |actions|
    ensures forall i :: 0 <= i < |actions| && !actions[i].Poll? ==> r.log[i] == []
    decreases |actions|
  {
    if |actions| == 0 then Trace(st, [])
    else
      var o := Step(st, actions[0]);
      var rest := Run(o.state, actions[1..]);
      Trace(rest.state, [o.events] + rest.log)
  }

  /** Connect events raised for serial `x` over a whole log. */
  function TotalAlerts(log: seq<seq<Classified>>, x: Serial): nat
  {
    if |log| == 0 then 0 else AlertsFor(log[0], x) + TotalAlerts(log[1..], x)
  }

  predicate HasPoll(actions: seq<Action>)
  {
    exists i :: 0 <= i < |actions| && actions[i].Poll?
  }

  /** While a device stays attached, that is, every tick's snapshot shows its
      serial, it raises exactly one connect event in all, at the first tick,
      unless the connected set already held it, whatever the operator does
      in between. */
  lemma {:induction false} OneAlertPerAttachment(st: State, actions: seq<Action>, x: Serial)
    requires forall i :: 0 <= i < |actions| && actions[i].Poll? ==> x in Serials(actions[i].snapshot)
    ensures TotalAlerts(Run(st, actions).log, x) == if x !in st.connected && HasPoll(actions) then 1 else 0
    decreases |actions|
  {
    if |actions| > 0 {
      var a := actions[0];
      var o := Step(st, a);
      var tail := actions[1..];
      assert forall i :: 0 <= i < |tail| ==> tail[i] == actions[i + 1];
      OneAlertPerAttachment(o.state, tail, x);
      assert Run(st, actions).log == [o.events] + Run(o.state, tail).log;
      assert HasPoll(tail) ==> HasPoll(actions) by {
        if HasPoll(tail) {
          var i :| 0 <= i < |tail| && tail[i].Poll?;
          assert actions[i + 1].Poll?;
        }
      }
      if a.Poll? {
        AlertOnlyOnArrival(st.connected, st.store, a.snapshot, x);
        assert HasPoll(actions) by {
          assert actions[0].Poll?;
        }
      } else {
        assert HasPoll(actions) ==> HasPoll(tail) by {
          if HasPoll(actions) {
            var i :| 0 <= i < |actions| && actions[i].Poll?;
            assert i > 0 && tail[i - 1].Poll?;
          }
        }
      }
    }
  }

  /** After the operator removes serial `x`, the next tick that sees `x`
      arrive raises one connect event for it, and classifies it untrusted
      even if it was trusted before. */
  lemma RevokeThenReconnectUntrusted(st: State, x: Serial, snap: Snapshot)
    requires x != "" && x in Serials(snap) && x !in st.connected
    ensures var revoked := Step(st, Revoke(Some(x))).state;
            var ev := Step(revoked, Poll(snap)).events;
            && AlertsFor(ev, x) == 1
            && forall e :: e in ev && e.device.serial == x ==> !e.trusted
  {
    var revoked := Step(st, Revoke(Some(x))).state;
    AlertOnlyOnArrival(revoked.connected, revoked.store, snap, x);
    assert !IsTrusted(revoked.store, x);
  }

  /** An example drive: SanDisk vendor 0781, product 5567, serial SN123. */
  const DriveE: DeviceRecord := DeviceRecord("Drive E", "0781", "5567", "SN123")

  /** The whitelist once DriveE is trusted. */
  const TrustedE: Store := map["SN123" := DriveE]

  /** Empty whitelist; the drive is attached (untrusted alert); the operator
      trusts all; the drive stays (silence); it is unplugged (silence); it is
      plugged back (trusted event). */
  lemma DriveEScenario()
    ensures Run(Start(Empty), [Poll([DriveE]), TrustAllCurrent([DriveE]), Poll([DriveE]), Poll([]), Poll([DriveE])]).log
            == [[Classified(DriveE, false)], [], [], [], [Classified(DriveE, true)]]
  {
    var snap := [DriveE];
    var s1 := State({"SN123"}, Empty);
    var s2 := State({"SN123"}, TrustedE);
    var s4 := State({}, TrustedE);
    DriveEAttach();
    DriveETrust();
    DriveEStays();
    DriveEUnplug();
    DriveEReplug();
    var actions := [Poll(snap), TrustAllCurrent(snap), Poll(snap), Poll([]), Poll(snap)];
    assert Run(s4, actions[4..]).log == [[Classified(DriveE, true)]];
    assert Run(s2, actions[3..]).log == [[], [Classified(DriveE, true)]];
    assert Run(s2, actions[2..]).log == [[], [], [Classified(DriveE, true)]];
    assert Run(s1, actions[1..]).log == [[], [], [], [Classified(DriveE, true)]];
  }

  lemma DriveESerials()
    ensures Serials([DriveE]) == {"SN123"}
  {
    SerialsCons([DriveE]);
    assert [DriveE][1..] == [];
  }

  lemma DriveEAttach()
    ensures Step(Start(Empty), Poll([DriveE])) == Outcome(State({"SN123"}, Empty), [Classified(DriveE, false)])
  {
    DriveESerials();
    SingleArrival({}, Empty, DriveE);
  }

  lemma DriveETrust()
    ensures Step(State({"SN123"}, Empty), TrustAllCurrent([DriveE])) == Outcome(State({"SN123"}, TrustedE), [])
  {
    DriveESerials();
    assert Operator.AddAll(Empty, [DriveE]) == TrustedE;
  }

  lemma DriveEStays()
    ensures Step(State({"SN123"}, TrustedE), Poll([DriveE])) == Outcome(State({"SN123"}, TrustedE), [])
  {
    DriveESerials();
    QuietWhenNothingNew({"SN123"}, TrustedE, [DriveE]);
  }

  lemma DriveEUnplug()
    ensures Step(State({"SN123"}, TrustedE), Poll([])) == Outcome(State({}, TrustedE), [])
  {
    assert Serials([]) == {};
  }

  lemma DriveEReplug()
    ensures Step(State({}, TrustedE), Poll([DriveE])) == Outcome(State({"SN123"}, TrustedE), [Classified(DriveE, true)])
  {
    DriveESerials();
    SingleArrival({}, TrustedE, DriveE);
  }

  /** A lone new device raises exactly one event, about itself. */
  lemma SingleArrival(connected: set<Serial>, store: Store, d: DeviceRecord)
    requires d.serial !in connected
    ensures Tick(connected, store, [d]).events == [Classify(store, d)]
  {
    var ev := Tick(connected, store, [d]).events;
    assert Serials([d]) == {d.serial};
    SightingsDistinct(ev, store, [d]);
    DistinctEventsCount(ev);
    assert |ev| == 1;
    assert ev[0] == Classify(store, [d][0]);
  }

  /** On the corrected macOS provider, a record without identity never gets
      that far: no connect event is about the empty serial, and "Add All to
      Whitelist" never stores it. */
  lemma DarwinDevicesHaveIdentity(connected: set<Serial>, store: Store, lines: seq<string>)
    ensures forall e :: e in Tick(connected, store, SystemProfiler.DarwinSnapshot(lines)).events ==>
              e.device.serial != ""
    ensures "" in Operator.AddAll(store, SystemProfiler.DarwinSnapshot(lines)) ==> "" in store
  {
    var snap := SystemProfiler.DarwinSnapshot(lines);
    SystemProfiler.DarwinSnapshotKeepsComplete(lines);
    assert "" !in Serials(snap);
    var ev := Tick(connected, store, snap).events;
    forall e | e in ev
      ensures e.device.serial != ""
    {
      var a :| 0 <= a < |ev| && ev[a] == e;
      assert e.device.serial in EventSerials(ev);
    }
  }
}
