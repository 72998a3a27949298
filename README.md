# ST-Link USB transport, modelled in Dafny

This project models the USB transport of `stlink-rs`, a host-side driver
for ST-Link debug probes. The transport lives in `src/lib/usb_interface.rs`
and has four parts:

- the **device catalog**, a fixed table from USB product id to probe
  metadata: firmware generation name, product id, and the addresses of the
  command-out, response-in and trace (SWV) endpoints;
- the **device matcher**, which filters a USB enumeration down to devices
  with ST's vendor id `0x0483` and a catalogued product id;
- the **session lifecycle** of `STLinkUSBDevice`: `open` opens the device,
  claims interface 0 and checks that the three catalog endpoints exist;
  `close` releases the interface and drops the handle;
- the **framed transfer protocol**: `write` pads a command with zeros to a
  16-byte frame, then runs up to three bulk phases (command, data out,
  data in), each of which must move exactly its own length. `read` and
  `read_swv` are single bulk reads.

Files and modules:

- `usb_types.dfy` (`UsbTypes`): byte widths, libusb's error kinds, the
  `Option` and `Result` wrappers, and the descriptors the transport reads.
  A USB device is a value, `UsbDevice`. It holds the fixed answer to every
  libusb query that is made before any transfer: reading the device
  descriptor, opening the device, claiming interface 0, reading the active
  configuration, and releasing interface 0.
- `libusb.dfy` (`Libusb`): bulk transfers. The class `UsbBus` holds what
  the probe will answer, as one queue of replies for OUT transfers and one
  for IN transfers. Each transfer consumes one reply. An empty queue stands
  for a probe that never answers, so the transfer times out. A log records
  every transfer issued. The reported count is never more than the length
  offered, as libusb guarantees. An IN transfer writes the received bytes
  over the head of the caller's buffer.
- `catalog.dfy` (`Catalog`): `CMD_LEN`, `USB_VID`, `STLinkInfo` and the
  table `USB_PID_EP_MAP`. `STLinkInfo::new` is the datatype's constructor.
- `matcher.dfy` (`Matcher`): `usb_match` and the filter/collect pipeline of
  `get_all_plugged_devices`, as pure functions over the enumeration.
- `framing.dfy` (`Framing`): the command frame, the padding loop, the
  phase-by-phase specification `WriteSpec` of one exchange, and the
  specification `TraceRead` of a read from the trace endpoint.
- `session.dfy` (`Session`): the class `STLinkUSBDevice`. Its handle is an
  `Option` field that `Open` and `Close` update. It also holds the endpoint
  scan, the functions `OpenStep` and `CloseStep` that specify what open and
  close report and leave behind, and `GetAllPluggedDevices`, which
  allocates one probe object per matching device.

The code is modelled as written, including these quirks:

- the result of claiming interface 0 is ignored;
- when `open` fails after the device was opened, the handle stays set.
  This includes the `NotFound` result for a missing endpoint. The interface
  may also stay claimed, so a later `close` can succeed on that handle. A
  `NotFound` result therefore does not mean the interface was released;
- `read` drops the outcome of its transfer, so it always returns `Ok` with
  a buffer of exactly `size` bytes, even without a handle. It never reports
  `Timeout`, although `flush_rx` (src/lib/usb_interface.rs:144-150) loops
  until a read does;
- the endpoint scan is an if/else-if chain, so an address is recorded only
  for the first of command-out, response-in and trace that it equals. For
  catalogued probes the three addresses differ, so this makes no
  difference (`ScanFindsCatalogEndpoints`);
- a command longer than 16 bytes makes `CMD_LEN - cmd.len()` underflow.
  A longer command is not rejected before transmission; the model makes
  `|cmd| <= CMD_LEN` a precondition of `Write`;
- `write` and `read_swv` unwrap the handle, so they require an open
  handle. Looking up a product id outside the catalog aborts the program,
  so `open` and `new` require a catalogued product id when the descriptor
  is readable.

## Model

| member | source | states |
|---|---|---|
| `Catalog.CatalogSize` | src/lib/usb_interface.rs:20-33 | the table holds exactly seven product ids: 0x3748, 0x374b, 0x374a, 0x3742, 0x374e, 0x374f and 0x3753 |
| `Catalog.CatalogWellFormed` | src/lib/usb_interface.rs:24-30 | every entry is filed under its own product id, names three different endpoint addresses, and is of generation V2, V2-1 or V3 |
| `Matcher.UsbMatch` | src/lib/usb_interface.rs:64-72 | a device matches exactly when its descriptor is readable, its vendor id is 0x0483 and its product id is a catalog key; an unreadable descriptor is no match; building the probe for a matching device cannot fail and picks the entry of its product id |
| `Matcher.NewCandidate` | src/lib/usb_interface.rs:83-91 | building an unopened probe fails with the descriptor's own error exactly when the descriptor cannot be read; otherwise it pairs the device with the catalog entry for its product id, whose `usbPid` is that id and whose endpoints are distinct |
| `Matcher.MatchFilter` | src/lib/usb_interface.rs:64-77 | every device kept has a readable descriptor, vendor id 0x0483 and a catalogued product id, and every such device of the enumeration is kept; an unreadable descriptor means no match rather than an error |
| `Matcher.MatchFilterAppend` | src/lib/usb_interface.rs:76-77 | matching distributes over concatenation, so the enumeration order is preserved |
| `Matcher.MatchFilterStep` | src/lib/usb_interface.rs:76-77 | one more device in the enumeration adds that device to the end of the matches exactly when it matches, and nothing otherwise |
| `Matcher.MatchFilterIdempotent` | src/lib/usb_interface.rs:76-77 | matching an already matched list returns it unchanged |
| `Matcher.CollectNew` | src/lib/usb_interface.rs:78-79 | collecting the fallible constructions succeeds exactly when every descriptor is readable, giving one probe per device in order; otherwise it fails with the error of the first unreadable device |
| `Matcher.PluggedDevices` | src/lib/usb_interface.rs:74-80 | an enumeration error is returned as is; otherwise discovery always succeeds and gives one candidate per matching device, in enumeration order, each with the catalog entry of its product id |
| `Session.STLinkUSBDevice.New` | src/lib/usb_interface.rs:83-91 | a fresh probe with no handle and the catalog entry for its product id, or the descriptor's error |
| `Session.GetAllPluggedDevices` | src/lib/usb_interface.rs:74-80 | one fresh probe object per candidate of `PluggedDevices`, in order, each without a handle and no two the same object; an enumeration error is passed on |
| `Session.ScanEndpoints` | src/lib/usb_interface.rs:101-117 | the scan records the command-out endpoint when present, the response-in endpoint when present and different from command-out, and the trace endpoint when present and different from both |
| `Session.ScanFindsCatalogEndpoints` | src/lib/usb_interface.rs:105-129 | for a catalogued probe the scan records all three endpoints exactly when all three addresses occur in the first alternate setting of the first interface |
| `Session.OpenStep` | src/lib/usb_interface.rs:93-135 | open succeeds exactly when the device opens, its configuration and descriptor can be read and all three catalog endpoints are present; a failed device open keeps the old handle and reports its error; any later failure keeps the new handle; an unreadable configuration or descriptor is reported with its own error; with both read, every failure is `NotFound` |
| `Session.STLinkUSBDevice.Open` | src/lib/usb_interface.rs:93-135 | the result and the new handle are those of `OpenStep`; on success exactly one drain read of 1000 bytes from the response endpoint was issued; on failure no transfer was issued |
| `Session.MissingEndpointKeepsHandle` | src/lib/usb_interface.rs:93-141 | a probe missing a catalog endpoint is reported `NotFound` with its handle still set, and a later close succeeds exactly when the interface was claimed and can be released |
| `Session.ReleaseInterface` | src/lib/usb_interface.rs:138 | releasing interface 0 succeeds exactly when it was claimed through the handle and libusb reports no error; releasing an unclaimed interface is `NotFound`; a release error is passed on |
| `Session.CloseStep` | src/lib/usb_interface.rs:137-141 | close succeeds exactly when there is a handle whose interface can be released, and then drops the handle; without a handle, or with the interface unclaimed, it is `NotFound`; a release error is passed on; a failed close keeps the handle |
| `Session.STLinkUSBDevice.Close` | src/lib/usb_interface.rs:137-141 | the result and the new handle are those of `CloseStep` |
| `Session.CloseTwiceFails` | src/lib/usb_interface.rs:137-141 | after a successful close, a second close fails with `NotFound` and changes nothing |
| `Session.OpenThenClose` | src/lib/usb_interface.rs:93-141 | after a successful open, close succeeds exactly when interface 0 was claimed and can be released, and then leaves no handle |
| `Session.STLinkUSBDevice.Read` | src/lib/usb_interface.rs:152-157 | read always returns `Ok` with exactly `size` bytes; without a handle they are zeros and no transfer is issued; with a handle one IN transfer of `size` bytes is issued and the received bytes overwrite the head of the zeroed buffer |
| `Framing.CommandFrame` | src/lib/usb_interface.rs:161-163 | the frame of a command of at most 16 bytes has exactly 16 bytes, starts with the command and is zero after it |
| `Framing.PadCommand` | src/lib/usb_interface.rs:161-163 | appending zero bytes one at a time yields such a frame |
| `Framing.FrameUnique` | src/lib/usb_interface.rs:161-163 | a command has only one frame |
| `Framing.WriteSpec` | src/lib/usb_interface.rs:159-190 | the exchange starts with the 16-byte frame and has at most three transfers; it succeeds exactly when the frame, the data out (if any) and the response (if any) are each moved in full; a short frame is `Io` and nothing else is sent; a short data-out phase is `Io` and no data-in phase runs; a short data-in phase is `Io`; a transfer error in any phase is passed on and ends the exchange; the data phases run only when non-empty; the response buffer changes only through a data-in phase |
| `Session.STLinkUSBDevice.Write` | src/lib/usb_interface.rs:159-190 | the outcome, the transfers issued, the replies consumed and the response buffer afterwards are those of `WriteSpec` applied to the padded frame |
| `Framing.TraceRead` | src/lib/usb_interface.rs:192-201 | a trace read succeeds exactly when the transfer into a buffer of the capacity reports the requested size, and then returns that buffer as filled by the transfer; any other count is `Io`; a transfer error is passed on; a probe that never answers gives `Timeout` |
| `Session.STLinkUSBDevice.ReadSwv` | src/lib/usb_interface.rs:192-201 | as written, the read goes into a zero-length buffer: it issues one IN transfer of 0 bytes on the trace endpoint and fails for every positive size |
| `Framing.TraceReadIntoEmptyFails` | src/lib/usb_interface.rs:194-197 | with a zero-length buffer a read of a positive size never succeeds; when the transfer itself succeeds it is `Io` |
| `Framing.TraceReadIntoSizedBuffer` | src/lib/usb_interface.rs:192-201 | with a buffer of `size` bytes the read succeeds exactly when the probe sends at least `size` bytes, and returns the first `size` of them |
| `Session.STLinkUSBDevice.ReadTrace` | src/lib/usb_interface.rs:192-201 | the corrected trace read: one IN transfer of `size` bytes, succeeding exactly when all of them arrive, returning them |
| `Framing.TraceReadExample` | src/lib/usb_interface.rs:194-196 | four bytes offered: the as-written read gives `Io`, the corrected read returns the four bytes |

## Left out

- libusb itself: enumeration, descriptor parsing, opening, claiming and the
  bulk I/O are foreign calls. Their outcomes are inputs (`UsbDevice` fields
  and the reply queues of `UsbBus`), not modelled behaviour.
- A device's descriptor is one value, so `usb_match` and `new` always read
  the same descriptor. Inside discovery, the construction error of `new`
  therefore cannot happen. `CollectNew` models how such an error would
  abort the collection.
- Replacing an existing handle in `open` drops the old libusb handle. That
  release of the old handle is not modelled.
- Timeouts and `Duration` (`TIMEOUT` and the per-call timeouts): there is
  no notion of time. A timeout appears only as the `Timeout` error of an
  unanswered transfer.
- `flush_rx`: its only call is commented out. It would also never stop,
  because `read` never reports `Timeout`.
- `src/lib/debug_probe.rs` and `src/lib/dap_access.rs` declare interfaces
  without behaviour. The Closed/Open/Attached probe state machine and the
  identification-register decoder are not part of this model: no file
  shown here implements them.
- `src/cli/main.rs` is the command-line front end, and the `STLink` type
  it calls is not part of this model.
- The `lazy_static` global and the Rust lifetimes: the table is a constant
  map, and ownership is plain.
- Session.STLinkUSBDevice.Write: requires `|cmd| <= CMD_LEN` and an open
  handle, because a longer command underflows `CMD_LEN - cmd.len()`
  (src/lib/usb_interface.rs:161) and a missing handle is unwrapped
  (src/lib/usb_interface.rs:168, 176, 184); both abort the program.
- Session.STLinkUSBDevice.ReadSwv: requires an open handle, because a
  missing one is unwrapped (src/lib/usb_interface.rs:195) and aborts.
- Session.STLinkUSBDevice.Open: requires a catalogued product id when the
  descriptor is readable, because the table index
  (src/lib/usb_interface.rs:99) aborts on any other id.
- Session.OpenStep: requires the same, as the specification of `open`.
- Session.STLinkUSBDevice.ReadTrace: requires an open handle, like the
  `read_swv` it corrects.
- Session.STLinkUSBDevice.New: requires the same, for the table index at
  src/lib/usb_interface.rs:85.
- Concurrent use of one session; the code is single-threaded and
  blocking.

## Findings

| source | as written | input that shows it | evidently intended | confidence | as-written member | corrected member |
|---|---|---|---|---|---|---|
| src/lib/usb_interface.rs:194-195 | `read_swv` reads into `Vec::with_capacity(size)`. That vector has capacity `size` but length zero, so the bulk read can deliver no byte, and every read of a positive size fails: with `Io` when the transfer reports a count, otherwise with the transfer's error | `size = 4` and a probe that sends `[1, 2, 3, 4]`: the result is `Err(Io)` (`Framing.TraceReadExample`) | a buffer of length `size`, returned when all `size` bytes arrive | high; not executed | `Session.STLinkUSBDevice.ReadSwv` | `Session.STLinkUSBDevice.ReadTrace` |
