/** Shared vocabulary of the USB monitor: the device record every enumeration
    produces, snapshots of the attached devices, and the serials they show. */
module Devices {

  /** A value that may be absent: a dictionary key that was never set, or a
      dialog the operator cancelled. */
  datatype Option<+T> = None | Some(value: T)

  /** The vendor-reported serial number, the sole identity of a device. */
  type Serial = string

  /** One device as a dictionary with the keys name, vendor_id, product_id and
      serial; the trust store keeps the same four fields as one row. */
  datatype DeviceRecord = DeviceRecord(name: string, vendorId: string, productId: string, serial: Serial)

  /** The devices one enumeration call reports, in the order it reports them. */
  type Snapshot = seq<DeviceRecord>

  /** The set of serials a snapshot shows; duplicates collapse. */
  function Serials(snap: Snapshot): set<Serial>
  {
    set i | 0 <= i < |snap| :: snap[i].serial
  }

  /** The position of the first record carrying serial `x`, or |snap| when
      no record carries it. */
  function FirstIndex(snap: Snapshot, x: Serial): (r: nat)
    ensures r <= |snap|
    ensures r < |snap| ==> snap[r].serial == x
    ensures forall j :: 0 <= j < r ==> snap[j].serial != x
    ensures r < |snap| <==> x in Serials(snap)
  {
    if |snap| == 0 then 0
    else if snap[0].serial == x then 0
    else 1 + FirstIndex(snap[1..], x)
  }

  /** Peeling the first record off a snapshot. */
  lemma SerialsCons(snap: Snapshot)
    requires |snap| > 0
    ensures Serials(snap) == {snap[0].serial} + Serials(snap[1..])
  {
    forall x | x in Serials(snap)
      ensures x in {snap[0].serial} + Serials(snap[1..])
    {
      var i :| 0 <= i < |snap| && snap[i].serial == x;
      if i > 0 {
        assert snap[1..][i - 1].serial == x;
      }
    }
    forall x | x in Serials(snap[1..])
      ensures x in Serials(snap)
    {
      var i :| 0 <= i < |snap| - 1 && snap[1..][i].serial == x;
      assert snap[i + 1].serial == x;
    }
  }
}
