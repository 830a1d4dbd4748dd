# tecancavro transport core, modelled in Dafny

tecancavro drives Tecan Cavro syringe pumps over the OEM serial protocol.
Several pumps can be daisy-chained on one physical port. This project models
the sequential logic that the transport layer builds around that port:

- **Port registry** (`registry.dfy`, module `Registry`). `ser_mapping` is a
  class-level dictionary. It maps a port name to three things: the serial
  parameters the port was opened with, the one open handle, and the ordered
  list of ids of the devices sharing it. `_registerSer` either creates an
  entry, appends to one, or raises a conflict. It writes the new entry and its
  parameters before it opens the port, so a port that fails to open leaves a
  *stranded* entry holding only the parameters. `__del__` removes the
  device's id; when the last id is gone it closes the handle and drops the
  entry. The
  pure functions `Register` and `Deregister` give each step's outcome.
  `PortRegistry` holds the dictionary as a `map` and updates it in place:
  its `RegisterSer` and `Del` methods are proved against those functions.
  `handlesOpened` counts the handles opened so far. A ghost log `closed`
  records every handle that has been closed.
- **Send/receive retry loop** (`dispatch.dfy`, module `Dispatch`). This is
  `sendRcv` of both device classes, plus the byte accumulation of
  `TecanAPISerial._receiveFrame`.
- **Discovery** (`discovery.dfy`, module `Discovery`). This is
  `findSerialPumps`, a port-major, address-minor scan.
- **Frame checksum** (`checksum.dfy`, module `Checksum`). This is
  `_buildChecksum` of `serial_test.py`, an XOR fold written as a loop and
  proved equal to a left fold.

Inputs from outside the program are given to the model as parameters:

- Device ids are values of an opaque type `DeviceId`; the caller supplies
  them.
- Timeouts are values of an opaque type `Timeout` that supports only
  equality.
- The outcome of each attempt of `sendRcv` is a function `transport`.
- The result of each `read()` is a sequence `chunks`.
- Whether opening a new port succeeds is a boolean `opens`.
- The outcome of each discovery probe is a function `probe` of the port's
  and the address's positions in their lists.
- The list of candidate ports is a sequence.

Error behaviour worth knowing:

- Deregistering an id that its port does not list raises `ValueError`; it is
  not a no-op.
- Deregistering on an unregistered port raises `KeyError` from the lookup
  outside the `try`.
- Deregistering on a stranded port is a no-op: the missing `_devices` key
  raises the `KeyError` that `except KeyError` swallows.
- The frame `serial_test.py` sends ends in a byte that is not the checksum
  `_buildChecksum` computes for it (see Findings).

## Model

| member | source | states |
|---|---|---|
| Checksum.BuildChecksum | serial_test.py:4-17 | the loop returns the left XOR fold of the partial frame, starting from 0 |
| Checksum.ChecksumEmpty | serial_test.py:14-17 | the checksum of an empty partial frame is 0 |
| Checksum.ChecksumSnoc | serial_test.py:14-16 | appending a byte XORs it into the previous checksum |
| Checksum.ChecksumIsByte | serial_test.py:14-17 | over byte values the checksum is below 256 |
| Checksum.SealedFrameFoldsToZero | serial_test.py:14-17 | folding a partial frame with its own checksum appended gives 0 |
| Checksum.ChecksumDetectsOneCorruptByte | serial_test.py:14-17 | changing any single byte of a partial frame changes its checksum |
| Checksum.OemCommandChecksumMismatch | serial_test.py:36-37 | the fold of 02 31 31 3F 37 36 03 is 0x3F, which differs from the frame's last byte 0x63 |
| Checksum.OemCommandChecksum | serial_test.py:36-37 | the partial frame's checksum is 0x3F; the frame ending in 0x3F carries its checksum and folds to 0 |
| Registry.SharedItems | tecancavro/transport.py:319-320 | the item-set intersection has at most 3 elements, and exactly 3 iff baud, timeout and max_attempts all agree |
| Registry.Register | tecancavro/transport.py:302-326 | new port that opens: the entry holds the device's info, a freshly opened handle and exactly [id]. New port whose open fails: the open's exception, and an entry holding only the info. Known port: success iff the info matches and the entry is not stranded; on success id is appended and info and handle are kept; otherwise a conflict, or KeyError on a stranded entry, with nothing changed. On success the result is the port's shared handle (the micro class at 166-200 does the same on its own table) |
| Registry.IndexOf | tecancavro/transport.py:335 | `list.index` finds the id and no earlier position holds it |
| Registry.Deregister | tecancavro/transport.py:328-341 | missing port gives KeyError and missing id gives ValueError, both leaving the table unchanged; a stranded entry's swallowed KeyError changes nothing. Otherwise exactly the first occurrence of the id is removed, the rest keep their order, and the handle is closed and the entry dropped iff the list becomes empty |
| Registry.RegisterPreservesWellFormed | tecancavro/transport.py:311-326 | every entry in use stays non-empty and holds a handle opened for its own port with its own settings; stranded entries may appear |
| Registry.DeregisterPreservesWellFormed | tecancavro/transport.py:332-341 | deregistration keeps every entry in use non-empty and bound to its own handle |
| Registry.RegisterKeepsIdsDistinct | tecancavro/transport.py:317-325 | registering an id that is not yet listed keeps all listed ids distinct |
| Registry.DeregisterRemovesId | tecancavro/transport.py:334-339 | with distinct ids, after deregistration the id is listed nowhere and ids stay distinct |
| Registry.RegisterKeepsConsistent | tecancavro/transport.py:311-317 | a handle is opened only for a new port whose open succeeds, numbered after all earlier ones, and no open handle is in the closed log |
| Registry.DeregisterKeepsConsistent | tecancavro/transport.py:337-339 | the handle closed was open and not closed before, so no handle is closed twice |
| Registry.SharedPortScenario | tecancavro/transport.py:311-326 | two devices with equal settings get the same handle and list [a, b]; a third with other settings is refused and leaves the table unchanged |
| Registry.RegisterThree | tecancavro/transport.py:311-325 | three registrations with equal settings on a new port yield one entry with one handle and list [a, b, c] |
| Registry.TeardownThree | tecancavro/transport.py:332-341 | removing three members in order closes nothing for the first two and closes the handle for the third, restoring the table |
| Registry.ReferenceCountedTeardown | tecancavro/transport.py:302-341 | three devices then two deregistrations leave the handle open; the third closes that same handle and restores the table |
| Registry.StrandedIsPermanent | tecancavro/transport.py:312-325 | on a stranded port every registration raises something other than an open failure and changes nothing, and no deregistration removes the entry |
| Registry.FailedOpenStrandsPort | tecancavro/transport.py:311-341 | after a failed open the failed device's `__del__` leaves the stranded entry, and a second device with equal settings gets KeyError at 325 even though its open would succeed |
| Registry.RegisterAtomic | tecancavro/transport.py:311-317 | `_registerSer` with the entry written only after the port opens: a failed open leaves the table unchanged; otherwise as `Register` |
| Registry.AtomicRegisterKeepsSettled | tecancavro/transport.py:311-317 | with the atomic write no registration strands an entry |
| Registry.DeregisterKeepsSettled | tecancavro/transport.py:332-339 | no deregistration strands an entry |
| Registry.AtomicFailedOpenCanRetry | tecancavro/transport.py:311-317 | with the atomic write a failed open leaves nothing behind, and a second device with equal settings opens the port afresh |
| Registry.MicroDeregisterAsWritten | tecancavro/transport.py:202-215 | `TecanAPIMicro.__del__` never touches the micro table it registered in; on a port missing from `TecanAPISerial.ser_mapping` it raises KeyError from the lookup at 206, closing nothing and leaving that table as it was |
| Registry.MicroDeregisterLeavesPortOpen | tecancavro/transport.py:202-215 | `TecanAPIMicro.__del__` looks in `TecanAPISerial.ser_mapping`, raises KeyError, and after the call the micro table is the one registration produced, with the device still listed and its UART open |
| Registry.MicroDeregisterFromOwnTableCloses | tecancavro/transport.py:202-215 | deregistering from the table the micro device registered in closes its UART and restores the table |
| Registry.PortRegistry.constructor | tecancavro/transport.py:225 | the registry starts empty, with no handles opened or closed |
| Registry.PortRegistry.RegisterSer | tecancavro/transport.py:302-326 | updates the table in place as `Register` says, writing the stranded entry first and completing it only when the port opens; counts a handle only for a new port that opens, and keeps the registry invariant |
| Registry.PortRegistry.Del | tecancavro/transport.py:328-341 | updates the table in place as `Deregister` says, appends the closed handle to the log exactly once, and keeps the registry invariant |
| Dispatch.SendRcv | tecancavro/transport.py:270-288 | at most max(0, max_attempts) attempts; the first calls emitFrame(cmd) and the later ones emitRepeat(); every attempt before the last got no data or a caught exception (SerialException for the serial class, anything for the micro class at 131-155); returns the first truthy reply; times out iff every allowed attempt was made and none stopped the loop |
| Dispatch.SilentTransportTimesOut | tecancavro/transport.py:270-288 | a transport that never answers makes exactly max(0, max_attempts) attempts, the first building a fresh frame, and times out |
| Dispatch.ReceiveFrame | tecancavro/transport.py:294-300 | reads until the first empty read (included in the count) and parses the concatenation of all reads before it |
| Dispatch.ConcatOfSingleBytes | tecancavro/transport.py:296-299 | when every read delivers one byte, the accumulated data is exactly those bytes in order |
| Discovery.FindSerialPumps | tecancavro/transport.py:227-254 | the nested loops compute the port-major, address-minor scan `Scan` (the micro class's loops at 92-114 are the same) |
| Discovery.ScanSucceedsIff | tecancavro/transport.py:242-252 | a list is returned iff no probe fails with anything but a timeout or errno 16 |
| Discovery.ScanHits | tecancavro/transport.py:245-247 | a tuple is in the result iff some probed (port, address) position answered both queries with that configuration and firmware |
| Discovery.ScanRaisesFirst | tecancavro/transport.py:248-250 | an escaping error is the probe error of the first failing pair in port-major, address-minor order |
| Discovery.ScanExtendsPrefix | tecancavro/transport.py:237-247 | port-major order: the result for the first i ports is a prefix of the whole result |
| Discovery.RepeatedAddressProbedAgain | tecancavro/transport.py:239-247 | an address listed twice is probed twice: a timeout on the first probe does not keep the second from being found |

## Left out

- `listSerialPorts` (tecancavro/transport.py:33-68) opens and closes OS serial ports. The port list is a parameter of `FindSerialPumps` instead.
- The `serial.Serial`, `UART` and `Pin` construction and the `int(port[-1])` UART numbering are hardware bindings. A handle is an opaque token, numbered in the order the registry opened handles and carrying the port and settings it was opened with.
- The micro variant raises a plain `Exception` on a conflict and the serial variant a `serial.SerialException`. Both are `Conflict`.
- All `sleep` calls — the settle delay and the backoff — are wall-clock timing and are not modelled.
- `emitFrame`, `emitRepeat`, `parseFrame` and `TecanAPITimeout` live in `tecancavro/tecanapi.py`, which is not part of this model. `SendRcv` records which of the first two each attempt uses. The parsed outcome of each attempt is an input. `ReceiveFrame` receives `parseFrame` as a function parameter.
- `_sendFrame` is a serial write (I/O) and is not modelled. The `sent` log of `SendRcv` records which frame-building call each attempt makes, not what reached the port. When `emitFrame`, `emitRepeat` or `_sendFrame` raises a caught exception, nothing is written, yet the log still holds that attempt's call and the next attempt still calls `emitRepeat()`.
- `TecanAPIMicro._receiveFrame` (tecancavro/transport.py:161-164) is a single `read(50)` followed by `parseFrame`. That is I/O with no loop, and it is covered by the per-attempt outcome.
- Discovery's transient device construction, its registration and `sendRcv` calls are folded into one probe outcome per pair. So is the finalisation of the previous device.
- `__del__` runs when Python finalises an object, and an exception raised there is printed and ignored. The model makes deregistration an explicit call that returns the exception.
- `except KeyError: pass` (tecancavro/transport.py:340-341, and 214-215) is modelled only for the KeyError a stranded entry raises at 334. `close()` or `deinit()` raising is not modelled.
- Python compares an int and a float as equal (`9600 == 9600.0`). Parameter equality is modelled as equality of the three fields.
- `XorChecksum` is defined on non-negative integers. Python's `^` also accepts negative ints in a list, which a bytestring never yields.
- ReceiveFrame: requires that some read comes back empty; without one the source loop never ends.
- Status-byte decoding and frame encoding/decoding do not appear in the modelled files.
- `test.py`, `testMicro.py`, `tecancavro/__init__.py` and the script body of `serial_test.py` other than lines 36-37 are hardware harnesses or imports.

## Findings

| source | as written | input that shows it | evidently intended | confidence | as-written member | corrected member |
|---|---|---|---|---|---|---|
| serial_test.py:36-37 | the frame sent ends with the byte `c` (0x63) | partial frame 02 31 31 3F 37 36 03: `_buildChecksum` gives 0x3F | the last byte is the XOR checksum 0x3F of the bytes before it | not executed; high for the arithmetic, medium for the intent | Checksum.OemCommandChecksumMismatch | Checksum.OemCommandChecksum |
| tecancavro/transport.py:311-325 | the entry and its `info` are written (312-313) before `serial.Serial(...)` opens the port (314); the same at 179-190 | a device whose `serial.Serial(...)` raises leaves the info-only entry, its own `__del__` swallows the KeyError at 334, and a second device with equal settings then raises `KeyError` at 325 although the port would now open. A likely route in practice: `findSerialPumps` on a port busy at the first address, if that open raises errno 16, which the scan skips, so the next address ends the scan with `KeyError` | write the entry only after the open has succeeded, so a failed open can be retried | not executed; high for the stranded entry, medium for errno 16 reaching the scan from the open | Registry.FailedOpenStrandsPort | Registry.AtomicFailedOpenCanRetry |
| tecancavro/transport.py:202-215 | `TecanAPIMicro.__del__` reads and deletes from `TecanAPISerial.ser_mapping` | one `TecanAPIMicro` device on `uart0`, then its `__del__`: KeyError, and the UART is never released | deregister from `TecanAPIMicro.ser_mapping`, where the device registered | not executed; high | Registry.MicroDeregisterLeavesPortOpen | Registry.MicroDeregisterFromOwnTableCloses |

`PortRegistry` keeps the code's write order, because the rest of the library meets the registry as written. `RegisterAtomic` is the corrected step, and the properties the atomic write restores (`AtomicRegisterKeepsSettled`, `AtomicFailedOpenCanRetry`) are proved about it.
