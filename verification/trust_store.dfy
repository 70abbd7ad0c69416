/** The whitelist: the trusted_devices table, whose primary key is the
    serial_number column. Every operation here is the table logic of one
    Python function with the database engine, the commit and the message
    boxes taken away. */
module TrustStore {
  import opened Devices

  /** The table as a map from primary key to row; the key always equals the
      row's serial column. */
  type Store = m: map<Serial, DeviceRecord> | forall k :: k in m ==> m[k].serial == k
    witness map[]

  /** A freshly created table. */
  const Empty: Store := map[]

  /** A device together with its classification against the store. */
  datatype Classified = Classified(device: DeviceRecord, trusted: bool)

  /** Whether an INSERT went through or hit the primary-key constraint. */
  datatype AddOutcome = Inserted | AlreadyExists

  datatype AddResult = AddResult(store: Store, outcome: AddOutcome)

  /** is_trusted: the SELECT by serial_number finds a row. */
  function IsTrusted(store: Store, serial: Serial): (b: bool)
    ensures b <==> exists row :: row in store.Values && row.serial == serial
  {
    if serial in store then
      assert store[serial] in store.Values;
      true
    else
      false
  }

  /** Classification of one device, as the monitor and the device list do it. */
  function Classify(store: Store, d: DeviceRecord): Classified
  {
    Classified(d, IsTrusted(store, d.serial))
  }

  /** add_to_whitelist: INSERT the row; an IntegrityError on the primary key
      leaves the table as it was. */
  function Add(store: Store, row: DeviceRecord): (r: AddResult)
    ensures r.outcome == AlreadyExists <==> IsTrusted(store, row.serial)
    ensures r.outcome == AlreadyExists ==> r.store == store
    ensures r.outcome == Inserted ==>
              && r.store.Keys == store.Keys + {row.serial}
              && r.store[row.serial] == row
              && forall k :: k in store ==> r.store[k] == store[k]
    ensures IsTrusted(r.store, row.serial)
  {
    if row.serial in store then AddResult(store, AlreadyExists)
    else AddResult(store[row.serial := row], Inserted)
  }

  /** remove_from_whitelist: DELETE by serial_number; deleting an absent key
      changes nothing. */
  function Remove(store: Store, serial: Serial): (r: Store)
    ensures !IsTrusted(r, serial)
    ensures r.Keys == store.Keys - {serial}
    ensures forall k :: k in r ==> r[k] == store[k]
    ensures !IsTrusted(store, serial) ==> r == store
  {
    store - {serial}
  }

  /** Trusting the same device twice stores it once: the second insert reports
      AlreadyExists and keeps the first row, whatever the second row says. */
  lemma AddTwiceKeepsFirst(store: Store, row: DeviceRecord, again: DeviceRecord)
    requires again.serial == row.serial
    ensures Add(Add(store, row).store, again) == AddResult(Add(store, row).store, AlreadyExists)
    ensures !IsTrusted(store, row.serial) ==> Add(Add(store, again).store, row).store[row.serial] == again
  {
  }

  /** Removing what was just inserted gives back the original table. */
  lemma RemoveUndoesAdd(store: Store, row: DeviceRecord)
    requires !IsTrusted(store, row.serial)
    ensures Remove(Add(store, row).store, row.serial) == store
  {
    assert Remove(Add(store, row).store, row.serial).Keys == store.Keys;
  }

  /** Re-inserting a removed row gives back the original table. */
  lemma AddUndoesRemove(store: Store, serial: Serial)
    requires IsTrusted(store, serial)
    ensures Add(Remove(store, serial), store[serial]).store == store
  {
    assert Add(Remove(store, serial), store[serial]).store.Keys == store.Keys;
  }
}
