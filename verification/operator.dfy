/** The tray menu's actions on the whitelist and the device list, once the
    dialogs are taken away: each is a pure function of the store and of the
    snapshot (or the typed answer) it works on. */
module Operator {
  import opened Devices
  import opened TrustStore
  import Monitor

  /** What "Show Devices" displays: the no-devices notice, or one line per
      enumerated device with its status. */
  datatype Listing = NoDevices | Listed(rows: seq<Classified>)

  /** on_show_devices: every record of the snapshot, duplicates included, in
      order, each classified by whether the store holds its serial. */
  function ShowDevices(store: Store, snap: Snapshot): (r: Listing)
    ensures r.NoDevices? <==> |snap| == 0
    ensures r.Listed? ==> |r.rows| == |snap|
    ensures r.Listed? ==> forall i :: 0 <= i < |snap| ==>
              && r.rows[i].device == snap[i]
              && (r.rows[i].trusted <==> exists row :: row in store.Values && row.serial == snap[i].serial)
  {
    if |snap| == 0 then NoDevices
    else Listed(seq(|snap|, i requires 0 <= i < |snap| => Classify(store, snap[i])))
  }

  /** on_add_whitelist: walk the snapshot and insert each device the store
      does not yet trust. Every serial shown ends up trusted; rows already
      stored keep their record; a new row holds the first record of the
      snapshot with that serial. */
  function AddAll(store: Store, snap: Snapshot): (r: Store)
    ensures r.Keys == store.Keys + Serials(snap)
    ensures forall k :: k in store ==> r[k] == store[k]
    ensures forall k :: k in r && k !in store ==> r[k] == snap[FirstIndex(snap, k)]
    decreases |snap|
  {
    if |snap| == 0 then store
    else
      var d := snap[0];
      var next := if IsTrusted(store, d.serial) then store else Add(store, d).store;
      var r := AddAll(next, snap[1..]);
      AddAllKeys(store, snap, next, r);
      assert forall k :: k in store ==> k in next && next[k] == store[k];
      forall k | k in r && k !in store
        ensures r[k] == snap[FirstIndex(snap, k)]
      {
        AddAllNewRow(snap, next, r, k);
      }
      r
  }

  /** The keys after the first record plus the keys the rest of the walk adds. */
  lemma AddAllKeys(store: Store, snap: Snapshot, next: Store, r: Store)
    requires |snap| > 0
    requires next.Keys == store.Keys + {snap[0].serial}
    requires r.Keys == next.Keys + Serials(snap[1..])
    ensures r.Keys == store.Keys + Serials(snap)
  {
    SerialsCons(snap);
  }

  /** A key the store lacked holds the first record carrying it: either it is
      the first record's serial, inserted at this step, or the rest of the
      walk inserted it. */
  lemma AddAllNewRow(snap: Snapshot, next: Store, r: Store, k: Serial)
    requires |snap| > 0 && k in r && snap[0].serial in next
    requires k in next ==> k == snap[0].serial && r[k] == snap[0]
    requires k !in next ==> k in Serials(snap[1..]) && r[k] == snap[1..][FirstIndex(snap[1..], k)]
    ensures r[k] == snap[FirstIndex(snap, k)]
  {
    if k != snap[0].serial {
      assert FirstIndex(snap, k) == 1 + FirstIndex(snap[1..], k);
    }
  }

  /** on_remove_whitelist with the answer typed into the prompt: a cancelled
      or empty answer leaves the store alone; any other answer deletes that
      serial and nothing else. */
  function RemovePrompted(store: Store, answer: Option<string>): (r: Store)
    ensures answer.None? || answer.value == "" ==> r == store
    ensures answer.Some? && answer.value != "" ==>
              && !IsTrusted(r, answer.value)
              && r.Keys == store.Keys - {answer.value}
              && forall k :: k in r ==> r[k] == store[k]
  {
    match answer
    case Some(serial) => if serial != "" then Remove(store, serial) else store
    case None => store
  }

  /** Trusting everything twice is trusting it once. */
  lemma AddAllIdempotent(store: Store, snap: Snapshot)
    ensures AddAll(AddAll(store, snap), snap) == AddAll(store, snap)
  {
    var once := AddAll(store, snap);
    var twice := AddAll(once, snap);
    assert twice.Keys == once.Keys;
  }

  /** After "Add All to Whitelist", a tick over the same devices classifies
      every connect event as trusted. */
  lemma AddAllThenTickTrusted(connected: set<Serial>, store: Store, snap: Snapshot)
    ensures forall e :: e in Monitor.Tick(connected, AddAll(store, snap), snap).events ==> e.trusted
  {
    var trusted := AddAll(store, snap);
    var ev := Monitor.Tick(connected, trusted, snap).events;
    forall e | e in ev
      ensures e.trusted
    {
      var a :| 0 <= a < |ev| && ev[a] == e;
      assert e.device.serial in Serials(snap);
      assert e.device.serial in trusted;
    }
  }

  /** The device list and the monitor agree: every connect event of a tick
      appears, with the same status, among the rows listed for the same
      snapshot and store. */
  lemma ShowDevicesAgreesWithTick(connected: set<Serial>, store: Store, snap: Snapshot)
    ensures forall e :: e in Monitor.Tick(connected, store, snap).events ==>
              ShowDevices(store, snap).Listed? && e in ShowDevices(store, snap).rows
  {
    var ev := Monitor.Tick(connected, store, snap).events;
    var rows := ShowDevices(store, snap);
    forall e | e in ev
      ensures rows.Listed? && e in rows.rows
    {
      var a :| 0 <= a < |ev| && ev[a] == e;
      var i := FirstIndex(snap, e.device.serial);
      assert rows.rows[i] == e;
    }
  }
}
