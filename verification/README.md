# USB tray monitor: a Dafny model of its trust logic

`usb_tray_monitor.py` is a tray application. It polls the attached USB devices every five
seconds. When a serial number appears that it has not seen since that serial was last attached,
it raises a connect event, classified "Trusted" or "Untrusted" against a whitelist. The
whitelist is an SQLite table `trusted_devices` keyed by `serial_number`. The tray menu lets the
operator:

- list the attached devices with their status;
- trust every attached device at once;
- remove one serial from the whitelist.

On macOS, the device list comes from parsing the text output of `system_profiler SPUSBDataType`.

This project models that logic as pure functions and proves what it promises.

| module | file | what it models |
|---|---|---|
| `Devices` | devices.dfy | the device dictionary (`name`, `vendor_id`, `product_id`, `serial`), snapshots of one enumeration, the serial set of a snapshot |
| `TrustStore` | trust_store.dfy | the `trusted_devices` table as a map from primary key to row: `is_trusted`, `add_to_whitelist`, `remove_from_whitelist` |
| `Monitor` | monitor.dfy | one iteration of the `monitor_usb` loop over a given snapshot |
| `Operator` | operator.dfy | `on_show_devices`, `on_add_whitelist`, `on_remove_whitelist` on a given snapshot or prompt answer |
| `Engine` | engine.dfy | the program as a state machine: ticks and menu actions interleaved, one whole action at a time |
| `PyText` | py_text.dfy | the Python `str` methods the parser uses: `strip()`, `strip("()")`, `split(":")`, `split()`, `replace("0x", "")` |
| `SystemProfiler` | system_profiler.dfy | the macOS branch of `get_connected_devices`, as written and as corrected |

A few behaviours are easy to misread, so the model states them as the code has them:

- A tick does not skip records whose serial is empty. On macOS the parser never yields one (`SystemProfiler.ParseFrom`).
- A failing enumeration is not caught. The exception ends the monitor thread, so the model has
  no "tick failed" outcome.
- Removing a serial the whitelist does not hold leaves the table unchanged. The program still shows
  "Device removed from whitelist." (usb_tray_monitor.py:51); messages are not modelled.
- The code has no fail-closed path for store errors, so the model has none either.
- On macOS the `current` dictionary is never reset between devices, so a device inherits any field
  its own block does not set. The name is the last word of the vendor string; the corrected provider
  keeps the whole vendor name (see Findings).

## Model

| member | source | states |
|---|---|---|
| TrustStore.IsTrusted | usb_tray_monitor.py:36-38 | the lookup answers true exactly when some stored row has that serial |
| TrustStore.Add | usb_tray_monitor.py:40-46 | the insert reports AlreadyExists exactly when the serial is already trusted, and then leaves the table untouched; otherwise exactly the new row is added and every other row keeps its value; afterwards the serial is trusted either way |
| TrustStore.Remove | usb_tray_monitor.py:48-51 | after the delete the serial is untrusted; exactly that key is gone and every other row is unchanged; deleting an absent serial changes nothing |
| TrustStore.AddTwiceKeepsFirst | usb_tray_monitor.py:26-33 | the primary key makes a second insert with the same serial fail and keep the first row's name, vendor and product |
| TrustStore.RemoveUndoesAdd | usb_tray_monitor.py:40-51 | deleting a serial just inserted gives back the original table |
| TrustStore.AddUndoesRemove | usb_tray_monitor.py:40-51 | re-inserting the row just deleted gives back the original table |
| Monitor.Walk | usb_tray_monitor.py:106-119 | the loop over the devices leaves the connected set grown by exactly the serials of the snapshot |
| Monitor.WalkFindsFirstSightings | usb_tray_monitor.py:106-119 | the loop announces exactly the serials outside the connected set, each by the first record carrying it, classified against the store, in the order of first appearance |
| Monitor.Tick | usb_tray_monitor.py:103-122 | after a tick the connected set equals the snapshot's serial set, and the events are exactly the first sightings of the serials that were not connected before |
| Monitor.AlertOnlyOnArrival | usb_tray_monitor.py:106-119 | a tick raises one event for a serial if the snapshot shows it and the connected set lacks it, and none otherwise, however many records share that serial |
| Monitor.NoRealertWhilePresent | usb_tray_monitor.py:104-122 | a serial present in two consecutive snapshots is silent on the second tick |
| Monitor.ReconnectAlertsOnce | usb_tray_monitor.py:104-122 | a serial that vanishes is silent on the tick that drops it, and raises exactly one event on the tick that sees it again |
| Monitor.StartupAlertsEveryDevice | usb_tray_monitor.py:99-122 | the first tick after start, when nothing is connected yet, raises one event per distinct serial attached |
| Monitor.QuietWhenNothingNew | usb_tray_monitor.py:106-108 | a tick whose snapshot shows only connected serials raises no event at all |
| Monitor.SightingsDistinct | usb_tray_monitor.py:108-119 | no tick announces the same serial twice |
| Operator.ShowDevices | usb_tray_monitor.py:143-153 | the no-devices notice appears exactly when the enumeration is empty; otherwise there is one row per record, duplicates included, in order, each trusted exactly when the store holds its serial |
| Operator.AddAll | usb_tray_monitor.py:155-159 | afterwards the whitelist holds exactly its old keys plus every serial shown; old rows keep their values; each new row is the first record carrying its serial |
| Operator.RemovePrompted | usb_tray_monitor.py:161-164 | a cancelled or empty answer leaves the whitelist alone; any other answer deletes that serial and nothing else |
| Operator.AddAllIdempotent | usb_tray_monitor.py:155-159 | choosing "Add All to Whitelist" twice over the same devices is the same as choosing it once |
| Operator.AddAllThenTickTrusted | usb_tray_monitor.py:108-110 | after "Add All to Whitelist", every connect event a tick raises over the same devices is trusted |
| Operator.ShowDevicesAgreesWithTick | usb_tray_monitor.py:150-152 | every connect event of a tick appears, with the same status, among the rows the device list shows for the same snapshot and store |
| Engine.Step | usb_tray_monitor.py:101-122 | a tick leaves the whitelist unchanged, sets the connected set to the snapshot's serials and raises the first sightings; a menu action leaves the connected set unchanged and raises nothing |
| Engine.Run | usb_tray_monitor.py:101-164 | a run logs one event list per action, and the one logged for a menu action is empty |
| Engine.OneAlertPerAttachment | usb_tray_monitor.py:104-122 | while a device stays attached across every tick of a run, it raises one event in total if it was not already connected and the run ticks at all, and none otherwise, whatever the operator does in between |
| Engine.RevokeThenReconnectUntrusted | usb_tray_monitor.py:48-51 | after the operator removes a serial, the next tick that sees it arrive raises exactly one event for it, classified untrusted |
| Engine.DriveEScenario | usb_tray_monitor.py:101-122 | from an empty whitelist: attach gives an untrusted event; trust-all, staying attached and unplugging give nothing; plugging back gives a trusted event |
| Engine.SingleArrival | usb_tray_monitor.py:106-119 | a lone device that is not connected yet raises exactly one event, about itself |
| Engine.DarwinDevicesHaveIdentity | usb_tray_monitor.py:70-73 | with the corrected macOS provider, no event is about an empty serial, and "Add All to Whitelist" never stores one |
| PyText.Trim | usb_tray_monitor.py:63 | stripping removes junk characters at both ends only, leaves no junk at either end, and the result sits inside the input |
| PyText.TrimIdempotent | usb_tray_monitor.py:63 | stripping twice equals stripping once |
| PyText.IndexOf | usb_tray_monitor.py:65 | the position is that of the first occurrence of the character, or the length when the character is absent |
| PyText.SplitOn | usb_tray_monitor.py:65 | `split(":")` returns at least one piece, more than one exactly when the separator occurs, no piece containing it, and joining the pieces gives the input back |
| PyText.SplitOnCount | usb_tray_monitor.py:71 | `split(":")` yields one piece more than there are separators |
| PyText.SplitJoin | usb_tray_monitor.py:65 | splitting a joined list of separator-free pieces gives the list back |
| PyText.TrimEnds | usb_tray_monitor.py:63 | stripping a text made of junk, a core that neither starts nor ends with junk, and junk, gives exactly that core |
| PyText.Words | usb_tray_monitor.py:67 | `split()` yields non-empty whitespace-free words whose concatenation is the input without its whitespace |
| PyText.WordsCons | usb_tray_monitor.py:67 | after any leading whitespace, the first word `split()` yields is the whole maximal run of non-space characters, and the rest come from what follows it |
| PyText.WordsBlank | usb_tray_monitor.py:67 | a text of whitespace only splits into no words |
| PyText.WordsJoin | usb_tray_monitor.py:67 | joining words with spaces, after any leading whitespace, and splitting again gives the same words back |
| PyText.DeleteAll | usb_tray_monitor.py:65 | `replace("0x", "")` never lengthens the text, and leaves it unchanged exactly when "0x" does not occur in it |
| PyText.DeleteAllFirst | usb_tray_monitor.py:65 | `replace` works left to right: the text before the first "0x" is kept, that "0x" is deleted, and the pass goes on right after it |
| SystemProfiler.SecondField | usb_tray_monitor.py:65 | the field read after a label is the colon-free text right after the first colon, up to the next colon or the end of the line |
| SystemProfiler.SecondFieldIsSplit | usb_tray_monitor.py:71 | that field is exactly the second piece `split(":")` yields |
| PyText.StartsWithIsPrefix | usb_tray_monitor.py:64-70 | `startswith` holds exactly when the label is a prefix of the line |
| SystemProfiler.ParseLine | usb_tray_monitor.py:62-73 | a Product ID line sets only product_id, to the second `split(":")` piece stripped and without "0x"; a Vendor ID line sets only vendor_id, to the third word or "Unknown", and name, from the words after it or "Unknown"; any other line changes no field; a device is appended exactly for a "Serial Number:" line with a non-empty value, and carries the fields held so far |
| SystemProfiler.ProductLineExample | usb_tray_monitor.py:64-65 | "Product ID: 0x5567" sets product_id to "5567" and changes nothing else |
| SystemProfiler.VendorLineLastWord | usb_tray_monitor.py:66-69 | as written, a Vendor ID line gives the right vendor_id but names the device after the last word of the vendor name only |
| SystemProfiler.VendorLineKeepsName | usb_tray_monitor.py:66-69 | corrected, a Vendor ID line names the device with the whole vendor name inside the parentheses |
| SystemProfiler.SanDiskNamedCorporation | usb_tray_monitor.py:66-69 | as written, "Vendor ID: 0x0781  (SanDisk Corporation)" sets vendor_id "0x0781" and name "Corporation" |
| SystemProfiler.SanDiskNamedInFull | usb_tray_monitor.py:66-69 | corrected, the same line sets name "SanDisk Corporation" |
| SystemProfiler.NamingKeepsDevices | usb_tray_monitor.py:61-73 | how the name is read changes no device, serial, vendor_id, product_id or missing key |
| SystemProfiler.ParseFrom | usb_tray_monitor.py:61-73 | no device has an empty serial; there is at most one device per serial line; started with every field set, every device has every field |
| SystemProfiler.ParseFromSerials | usb_tray_monitor.py:70-73 | the serials of the devices are exactly the non-empty serial values of the lines, in line order |
| SystemProfiler.SerialLineKeepsCurrent | usb_tray_monitor.py:61-73 | `current` is never cleared: a serial line appends a device with the fields held so far and passes the same fields on to the next line |
| SystemProfiler.SerialFirstLacksKeys | usb_tray_monitor.py:61-73 | a serial line before any Product ID or Vendor ID line yields a device with no name, vendor_id or product_id key |
| SystemProfiler.SerialOnlyOutputLacksKeys | usb_tray_monitor.py:61-73 | the output line "Serial Number: SN1" alone yields one device, SN1, lacking the keys lines 152 and 159 read |
| SystemProfiler.SerialLineExample | usb_tray_monitor.py:70-71 | "Serial Number: SN1" announces serial "SN1" |
| SystemProfiler.ParseFromFill | usb_tray_monitor.py:68-69 | starting the loop from "Unknown" placeholders differs from the loop started empty only in the missing keys, which read "Unknown" |
| SystemProfiler.DarwinSnapshot | usb_tray_monitor.py:58-73 | the corrected provider reports the same devices, serials and order as the loop as written; each id is the value that loop read, or "Unknown" where it left the key missing; the name is the whole vendor name, or "Unknown" |
| SystemProfiler.DarwinSnapshotKeepsComplete | usb_tray_monitor.py:58-73 | wherever the corrected loop filled every key, the provider reports exactly its record; no serial is empty |

## Left out

- I/O is not modelled: running `system_profiler`, sleeping between ticks, the SQLite connection and commits, message boxes, the prompt dialog and console output. The snapshot, the prompt answer and the table contents are parameters.
- The message text of events and of the device list is not modelled. A row records only the device and its status.
- The Windows branch of `get_connected_devices` (usb_tray_monitor.py:75-84) is left out. It depends on psutil's partition list, which is foreign code.
- `output.splitlines()` is not modelled. The parser takes the output already split into lines.
- Threads are not modelled. The monitor thread and the tray callbacks are interleaved one whole action at a time. Python's sqlite3 refuses by default to use the connection, which is created on the main thread, from the monitor thread. That failure is not modelled.
- `auto_eject`, `create_icon`, `on_exit`, `setup_tray` and the start-up code are left out: they hold no trust logic.
- Exceptions raised by the enumeration are not modelled. The source does not catch them; one ends the monitor thread.

## Findings

| source | as written | input that shows it | evidently intended | confidence | as-written member | corrected member |
|---|---|---|---|---|---|---|
| usb_tray_monitor.py:61-73 | `current` starts as an empty dict. A "Serial Number:" line met before any "Product ID:" or "Vendor ID:" line appends a device without the `name`, `vendor_id` and `product_id` keys. `on_show_devices` then raises KeyError at line 152 and `on_add_whitelist` at line 159. The monitor loop would raise at line 112 as well, once the sqlite call at line 109 works from its thread. | system_profiler output whose first relevant line is `Serial Number: SN1` | every device carries all four keys, with the "Unknown" placeholder of lines 68-69 where a value is missing | low; not executed. system_profiler normally prints the IDs before the serial. | SystemProfiler.SerialOnlyOutputLacksKeys | SystemProfiler.DarwinSnapshot |
| usb_tray_monitor.py:66-69 | The name is `parts[-1].strip("()")`, the last word of the line. For a vendor name of several words it keeps only the last one. | `Vendor ID: 0x0781  (SanDisk Corporation)` gives the name "Corporation" | the name is the whole vendor name in parentheses, "SanDisk Corporation" | medium; not executed. | SystemProfiler.SanDiskNamedCorporation | SystemProfiler.VendorLineKeepsName |
