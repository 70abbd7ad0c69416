/** One iteration of the monitor loop: walk the snapshot, raise a connect
    event for every serial not yet in the connected set, then forget the
    serials the snapshot no longer shows. */
module Monitor {
  import opened Devices
  import opened TrustStore

  /** The state left by the walk over the snapshot: the grown connected set and
      the connect events raised, in order. */
  datatype Walked = Walked(seen: set<Serial>, events: seq<Classified>)

  /** The connected set after the tick and the connect events of the tick. */
  datatype TickResult = TickResult(connected: set<Serial>, events: seq<Classified>)

  /** The serials the events are about. */
  function EventSerials(ev: seq<Classified>): set<Serial>
  {
    set a | 0 <= a < |ev| :: ev[a].device.serial
  }

  /** Number of connect events raised for serial `x`. */
  function AlertsFor(ev: seq<Classified>, x: Serial): nat
  {
    if |ev| == 0 then 0
    else (if ev[0].device.serial == x then 1 else 0) + AlertsFor(ev[1..], x)
  }

  /** Each event is the first record of `snap` carrying its serial, classified
      against `store`, and the events follow the order in which their serials
      first appear in the snapshot. */
  ghost predicate InFirstSightingOrder(ev: seq<Classified>, store: Store, snap: Snapshot)
  {
    && (forall a :: 0 <= a < |ev| ==>
          && FirstIndex(snap, ev[a].device.serial) < |snap|
          && ev[a] == Classify(store, snap[FirstIndex(snap, ev[a].device.serial)]))
    && (forall a, b :: 0 <= a < b < |ev| ==>
          FirstIndex(snap, ev[a].device.serial) < FirstIndex(snap, ev[b].device.serial))
  }

  /** `ev` announces exactly the serials of `snap` missing from `connected`,
      each once, by the first record carrying it, classified against `store`,
      in the order the serials first appear in the snapshot. */
  ghost predicate FirstSightings(ev: seq<Classified>, connected: set<Serial>, store: Store, snap: Snapshot)
  {
    && EventSerials(ev) == Serials(snap) - connected
    && InFirstSightingOrder(ev, store, snap)
  }

  /** The `for dev in devices` loop: a serial outside the connected set is
      classified, announced, and added at once, so a later record with the
      same serial stays silent. */
  function Walk(seen: set<Serial>, store: Store, snap: Snapshot): (r: Walked)
    ensures r.seen == seen + Serials(snap)
    decreases |snap|
  {
    if |snap| == 0 then Walked(seen, [])
    else
      var d := snap[0];
      SerialsCons(snap);
      if d.serial in seen then Walk(seen, store, snap[1..])
      else
        var rest := Walk(seen + {d.serial}, store, snap[1..]);
        Walked(rest.seen, [Classify(store, d)] + rest.events)
  }

  lemma EventSerialsCons(e: Classified, ev: seq<Classified>)
    ensures EventSerials([e] + ev) == {e.device.serial} + EventSerials(ev)
  {
    var ev' := [e] + ev;
    assert ev'[0] == e;
    forall x | x in EventSerials(ev')
      ensures x in {e.device.serial} + EventSerials(ev)
    {
      var a :| 0 <= a < |ev'| && ev'[a].device.serial == x;
      if a > 0 {
        assert ev[a - 1].device.serial == x;
      }
    }
    forall x | x in EventSerials(ev)
      ensures x in EventSerials(ev')
    {
      var a :| 0 <= a < |ev| && ev[a].device.serial == x;
      assert ev'[a + 1].device.serial == x;
    }
  }

  /** Events about the tail of a snapshot, none about its first serial, keep
      their meaning for the whole snapshot. */
  lemma ShiftPastHead(rest: seq<Classified>, store: Store, snap: Snapshot)
    requires |snap| > 0
    requires snap[0].serial !in EventSerials(rest)
    requires InFirstSightingOrder(rest, store, snap[1..])
    ensures InFirstSightingOrder(rest, store, snap)
    ensures forall a :: 0 <= a < |rest| ==> FirstIndex(snap, rest[a].device.serial) > 0
  {
  }

  /** Announcing the first record before events about the tail. */
  lemma AnnounceHead(rest: seq<Classified>, store: Store, snap: Snapshot)
    requires |snap| > 0
    requires snap[0].serial !in EventSerials(rest)
    requires InFirstSightingOrder(rest, store, snap[1..])
    ensures InFirstSightingOrder([Classify(store, snap[0])] + rest, store, snap)
  {
    ShiftPastHead(rest, store, snap);
    var ev := [Classify(store, snap[0])] + rest;
    forall a | 0 <= a < |ev|
      ensures FirstIndex(snap, ev[a].device.serial) < |snap|
      ensures ev[a] == Classify(store, snap[FirstIndex(snap, ev[a].device.serial)])
    {
      if a > 0 {
        assert ev[a] == rest[a - 1];
      }
    }
    forall a, b | 0 <= a < b < |ev|
      ensures FirstIndex(snap, ev[a].device.serial) < FirstIndex(snap, ev[b].device.serial)
    {
      assert ev[b] == rest[b - 1];
      if a > 0 {
        assert ev[a] == rest[a - 1];
      }
    }
  }

  /** The walk announces exactly the first sightings of new serials. */
  lemma {:induction false} WalkFindsFirstSightings(seen: set<Serial>, store: Store, snap: Snapshot)
    ensures FirstSightings(Walk(seen, store, snap).events, seen, store, snap)
    decreases |snap|
  {
    if |snap| > 0 {
      var d := snap[0];
      var tail := snap[1..];
      SerialsCons(snap);
      var seen' := seen + {d.serial};
      WalkFindsFirstSightings(seen', store, tail);
      var rest := Walk(seen', store, tail).events;
      assert d.serial !in EventSerials(rest);
      if d.serial in seen {
        assert seen' == seen;
        assert Walk(seen, store, snap).events == rest;
        ShiftPastHead(rest, store, snap);
      } else {
        assert Walk(seen, store, snap).events == [Classify(store, d)] + rest;
        EventSerialsCons(Classify(store, d), rest);
        AnnounceHead(rest, store, snap);
      }
    }
  }

  /** One tick of monitor_usb for a given snapshot: the connect events, and
      the connected set after the disconnected serials are dropped. */
  function Tick(connected: set<Serial>, store: Store, snap: Snapshot): (r: TickResult)
    ensures r.connected == Serials(snap)
    ensures FirstSightings(r.events, connected, store, snap)
  {
    var current := Serials(snap);
    var w := Walk(connected, store, snap);
    WalkFindsFirstSightings(connected, store, snap);
    var disconnected := w.seen - current;
    TickResult(w.seen - disconnected, w.events)
  }

  /** First sightings never repeat a serial. */
  lemma SightingsDistinct(ev: seq<Classified>, store: Store, snap: Snapshot)
    requires InFirstSightingOrder(ev, store, snap)
    ensures forall a, b :: 0 <= a < b < |ev| ==> ev[a].device.serial != ev[b].device.serial
  {
  }

  /** Distinct serials are counted once each. */
  lemma {:induction false} AlertsForDistinct(ev: seq<Classified>, x: Serial)
    requires forall a, b :: 0 <= a < b < |ev| ==> ev[a].device.serial != ev[b].device.serial
    ensures AlertsFor(ev, x) == if x in EventSerials(ev) then 1 else 0
  {
    if |ev| > 0 {
      assert ev == [ev[0]] + ev[1..];
      EventSerialsCons(ev[0], ev[1..]);
      AlertsForDistinct(ev[1..], x);
      if ev[0].device.serial == x {
        assert x !in EventSerials(ev[1..]);
      }
    }
  }

  /** A tick raises one event for a serial when the snapshot shows it and the
      connected set lacks it, and none otherwise; in particular two records
      with one serial raise at most one event. */
  lemma AlertOnlyOnArrival(connected: set<Serial>, store: Store, snap: Snapshot, x: Serial)
    ensures AlertsFor(Tick(connected, store, snap).events, x)
              == if x in Serials(snap) && x !in connected then 1 else 0
  {
    var ev := Tick(connected, store, snap).events;
    assert FirstSightings(ev, connected, store, snap);
    SightingsDistinct(ev, store, snap);
    AlertsForDistinct(ev, x);
  }

  /** A serial present in two consecutive snapshots raises nothing on the
      second tick, whatever the store did in between. */
  lemma NoRealertWhilePresent(c0: set<Serial>, st1: Store, s1: Snapshot, st2: Store, s2: Snapshot, x: Serial)
    requires x in Serials(s1) && x in Serials(s2)
    ensures AlertsFor(Tick(Tick(c0, st1, s1).connected, st2, s2).events, x) == 0
  {
    AlertOnlyOnArrival(Tick(c0, st1, s1).connected, st2, s2, x);
  }

  /** Appear, vanish, reappear: the vanishing tick is silent and the
      reappearing tick raises exactly one event. */
  lemma ReconnectAlertsOnce(c0: set<Serial>, st1: Store, s1: Snapshot, st2: Store, s2: Snapshot,
                            st3: Store, s3: Snapshot, x: Serial)
    requires x in Serials(s1) && x !in Serials(s2) && x in Serials(s3)
    ensures AlertsFor(Tick(Tick(c0, st1, s1).connected, st2, s2).events, x) == 0
    ensures AlertsFor(Tick(Tick(Tick(c0, st1, s1).connected, st2, s2).connected, st3, s3).events, x) == 1
  {
    var c1 := Tick(c0, st1, s1).connected;
    AlertOnlyOnArrival(c1, st2, s2, x);
    AlertOnlyOnArrival(Tick(c1, st2, s2).connected, st3, s3, x);
  }

  /** A serial set with n elements as the image of n distinct serials. */
  lemma {:induction false} DistinctEventsCount(ev: seq<Classified>)
    requires forall a, b :: 0 <= a < b < |ev| ==> ev[a].device.serial != ev[b].device.serial
    ensures |EventSerials(ev)| == |ev|
  {
    if |ev| > 0 {
      assert ev == [ev[0]] + ev[1..];
      EventSerialsCons(ev[0], ev[1..]);
      DistinctEventsCount(ev[1..]);
      assert ev[0].device.serial !in EventSerials(ev[1..]);
    }
  }

  /** With an empty connected set, as at process start, the first tick
      announces every distinct serial attached, once each. */
  lemma StartupAlertsEveryDevice(store: Store, snap: Snapshot)
    ensures |Tick({}, store, snap).events| == |Serials(snap)|
  {
    var ev := Tick({}, store, snap).events;
    SightingsDistinct(ev, store, snap);
    DistinctEventsCount(ev);
  }

  /** A tick whose snapshot shows only connected serials raises nothing. */
  lemma QuietWhenNothingNew(connected: set<Serial>, store: Store, snap: Snapshot)
    requires Serials(snap) <= connected
    ensures Tick(connected, store, snap).events == []
  {
    var ev := Tick(connected, store, snap).events;
    SightingsDistinct(ev, store, snap);
    DistinctEventsCount(ev);
  }
}
