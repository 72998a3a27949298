/** The transport session: one ST-Link probe, its open handle, and the
    transfers made through it. */
module Session {
  import opened UsbTypes
  import opened Catalog
  import opened Libusb
  import opened Matcher
  import opened Framing

  /** An open libusb handle; it remembers whether interface 0 was claimed
      through it. */
  datatype DeviceHandle = DeviceHandle(interfaceClaimed: bool)

  /** All three catalog endpoints of `info` are among `eps`. */
  predicate AllEndpointsPresent(eps: seq<EndpointDescriptor>, info: STLinkInfo)
  {
    HasEndpoint(eps, info.epOut) && HasEndpoint(eps, info.epIn) && HasEndpoint(eps, info.epSwv)
  }

  /** The scan over the endpoints of the first alternate setting. An
      address is compared with the command-out, then the response-in, then
      the trace endpoint, and only the first that matches is recorded. */
  method ScanEndpoints(eps: seq<EndpointDescriptor>, info: STLinkInfo)
    returns (foundOut: bool, foundIn: bool, foundSwv: bool)
    ensures foundOut == HasEndpoint(eps, info.epOut)
    ensures foundIn == (HasEndpoint(eps, info.epIn) && info.epIn != info.epOut)
    ensures foundSwv == (HasEndpoint(eps, info.epSwv) && info.epSwv != info.epOut && info.epSwv != info.epIn)
  {
    foundOut, foundIn, foundSwv := false, false, false;
    for k := 0 to |eps|
      invariant foundOut == HasEndpoint(eps[..k], info.epOut)
      invariant foundIn == (HasEndpoint(eps[..k], info.epIn) && info.epIn != info.epOut)
      invariant foundSwv == (HasEndpoint(eps[..k], info.epSwv) && info.epSwv != info.epOut && info.epSwv != info.epIn)
    {
      HasEndpointExtend(eps, k, info.epOut);
      HasEndpointExtend(eps, k, info.epIn);
      HasEndpointExtend(eps, k, info.epSwv);
      var address := eps[k].address;
      if address == info.epOut {
        foundOut := true;
      } else if address == info.epIn {
        foundIn := true;
      } else if address == info.epSwv {
        foundSwv := true;
      }
    }
    assert eps[..|eps|] == eps;
  }

  lemma HasEndpointExtend(eps: seq<EndpointDescriptor>, k: nat, address: u8)
    requires k < |eps|
    ensures HasEndpoint(eps[..k + 1], address) <==> HasEndpoint(eps[..k], address) || eps[k].address == address
  {
    if HasEndpoint(eps[..k + 1], address) && eps[k].address != address {
      var j :| 0 <= j < k + 1 && eps[..k + 1][j].address == address;
      assert eps[..k][j].address == address;
    }
    if eps[k].address == address {
      assert eps[..k + 1][k].address == address;
    }
    if HasEndpoint(eps[..k], address) {
      var j :| 0 <= j < k && eps[..k][j].address == address;
      assert eps[..k + 1][j].address == address;
    }
  }

  /** For a catalogued probe the three endpoints are distinct, so the scan
      finds all three exactly when all three are present. */
  lemma ScanFindsCatalogEndpoints(eps: seq<EndpointDescriptor>, pid: u16)
    requires pid in USB_PID_EP_MAP
    ensures var info := USB_PID_EP_MAP[pid];
            (HasEndpoint(eps, info.epOut)
             && (HasEndpoint(eps, info.epIn) && info.epIn != info.epOut)
             && (HasEndpoint(eps, info.epSwv) && info.epSwv != info.epOut && info.epSwv != info.epIn))
            <==> AllEndpointsPresent(eps, info)
  {
    CatalogWellFormed(pid);
  }

  /** What `open` reports and what handle it leaves behind, starting from
      the handle `handle`. Opening the device replaces the handle; claiming
      interface 0 may fail unnoticed; from then on every failure returns with
      the new handle still set. */
  function OpenStep(device: UsbDevice, handle: Option<DeviceHandle>): (r: (Result<()>, Option<DeviceHandle>))
    requires LookupDefined(device)
    ensures r.0.Ok? <==>
              && device.openError.None? && device.activeConfig.Ok? && device.descriptor.Ok?
              && AllEndpointsPresent(FirstAltEndpoints(device.activeConfig.value),
                                     USB_PID_EP_MAP[device.descriptor.value.productId])
    ensures device.openError.Some? ==> r == (Err(device.openError.value), handle)
    ensures device.openError.None? ==> r.1 == Some(DeviceHandle(device.claimError.None?))
    ensures device.openError.None? && device.activeConfig.Err? ==>
              r.0 == Err(device.activeConfig.error)
    ensures device.openError.None? && device.activeConfig.Ok? && device.descriptor.Err? ==>
              r.0 == Err(device.descriptor.error)
    ensures device.openError.None? && device.activeConfig.Ok? && device.descriptor.Ok? && r.0.Err? ==>
              r.0 == Err(NotFound)
  {
    if device.openError.Some? then (Err(device.openError.value), handle)
    else
      var newHandle := Some(DeviceHandle(device.claimError.None?));
      if device.activeConfig.Err? then (Err(device.activeConfig.error), newHandle)
      else if device.descriptor.Err? then (Err(device.descriptor.error), newHandle)
      else
        var eps := FirstAltEndpoints(device.activeConfig.value);
        if !AllEndpointsPresent(eps, USB_PID_EP_MAP[device.descriptor.value.productId])
        then (Err(NotFound), newHandle)
        else (Ok(()), newHandle)
  }

  /** libusb's release of interface 0: an interface that was not claimed
      through the handle cannot be released. */
  function ReleaseInterface(device: UsbDevice, h: DeviceHandle): (r: Result<()>)
    ensures r.Ok? <==> h.interfaceClaimed && device.releaseError.None?
    ensures !h.interfaceClaimed ==> r == Err(NotFound)
    ensures h.interfaceClaimed && device.releaseError.Some? ==> r == Err(device.releaseError.value)
  {
    if !h.interfaceClaimed then Err(NotFound)
    else if device.releaseError.Some? then Err(device.releaseError.value)
    else Ok(())
  }

  /** What `close` reports and what handle it leaves behind. */
  function CloseStep(device: UsbDevice, handle: Option<DeviceHandle>): (r: (Result<()>, Option<DeviceHandle>))
    ensures r.0.Ok? <==> handle.Some? && handle.value.interfaceClaimed && device.releaseError.None?
    ensures r.0.Ok? ==> r.1 == None
    ensures r.0.Err? ==> r.1 == handle
    ensures handle.None? ==> r.0 == Err(NotFound)
    ensures handle.Some? && !handle.value.interfaceClaimed ==> r.0 == Err(NotFound)
    ensures handle.Some? && handle.value.interfaceClaimed && device.releaseError.Some? ==>
              r.0 == Err(device.releaseError.value)
  {
    match handle
    case None => (Err(NotFound), None)
    case Some(h) =>
      var released := ReleaseInterface(device, h);
      if released.Err? then (released, handle) else (Ok(()), None)
  }

  /** Closing twice: the second close always fails. */
  lemma CloseTwiceFails(device: UsbDevice, handle: Option<DeviceHandle>)
    requires CloseStep(device, handle).0.Ok?
    ensures CloseStep(device, CloseStep(device, handle).1) == (Err(NotFound), None)
  {
  }

  /** A probe that lacks one of its endpoints is reported as not found,
      yet its handle stays set, and when interface 0 was claimed and can be
      released, a later close succeeds on it. */
  lemma MissingEndpointKeepsHandle(device: UsbDevice, handle: Option<DeviceHandle>)
    requires LookupDefined(device)
    requires device.openError.None? && device.activeConfig.Ok? && device.descriptor.Ok?
    requires !AllEndpointsPresent(FirstAltEndpoints(device.activeConfig.value),
                                  USB_PID_EP_MAP[device.descriptor.value.productId])
    ensures OpenStep(device, handle).0 == Err(NotFound)
    ensures OpenStep(device, handle).1.Some?
    ensures CloseStep(device, OpenStep(device, handle).1).0.Ok? <==>
              device.claimError.None? && device.releaseError.None?
  {
  }

  /** A successful open followed by close leaves no handle, provided the
      interface could be claimed and released. */
  lemma OpenThenClose(device: UsbDevice, handle: Option<DeviceHandle>)
    requires LookupDefined(device)
    requires OpenStep(device, handle).0.Ok?
    ensures CloseStep(device, OpenStep(device, handle).1).0.Ok? <==>
              device.claimError.None? && device.releaseError.None?
    ensures device.claimError.None? && device.releaseError.None? ==>
              CloseStep(device, OpenStep(device, handle).1) == (Ok(()), None)
  {
  }

  /** One ST-Link probe: the device, its catalog entry, and the handle
      that is present while the device is open. */
  class STLinkUSBDevice {
    const bus: UsbBus
    const device: UsbDevice
    const info: STLinkInfo
    var deviceHandle: Option<DeviceHandle>

    constructor (bus: UsbBus, candidate: Candidate)
      ensures this.bus == bus && device == candidate.device && info == candidate.info
      ensures deviceHandle == None
    {
      this.bus := bus;
      device := candidate.device;
      info := candidate.info;
      deviceHandle := None;
    }

    /** A probe for `d`, unopened, with the catalog entry of its product
        id; fails when the descriptor cannot be read. */
    static method New(bus: UsbBus, d: UsbDevice) returns (r: Result<STLinkUSBDevice>)
      requires LookupDefined(d)
      ensures r.Err? <==> d.descriptor.Err?
      ensures r.Err? ==> r.error == d.descriptor.error
      ensures r.Ok? ==> fresh(r.value) && r.value.bus == bus && r.value.device == d
                        && r.value.info == USB_PID_EP_MAP[d.descriptor.value.productId]
                        && r.value.deviceHandle == None
    {
      match NewCandidate(d)
      case Err(e) =>
        r := Err(e);
      case Ok(candidate) =>
        var probe := new STLinkUSBDevice(bus, candidate);
        r := Ok(probe);
    }

    /** Opens the device, claims interface 0 (without checking that this
        worked), checks that the three catalog endpoints exist, and drains
        the response endpoint once. */
    method Open() returns (r: Result<()>)
      requires LookupDefined(device)
      modifies this, bus
      ensures (r, deviceHandle) == OpenStep(device, old(deviceHandle))
      ensures r.Ok? ==> && bus.log == old(bus.log) + [BulkIn(info.epIn, 1000)]
                        && bus.inReplies == Rest(old(bus.inReplies))
                        && bus.outReplies == old(bus.outReplies)
      ensures r.Err? ==> unchanged(bus)
    {
      if device.openError.Some? {
        return Err(device.openError.value);
      }
      // the outcome of claiming interface 0 is not looked at
      deviceHandle := Some(DeviceHandle(device.claimError.None?));
      if device.activeConfig.Err? {
        return Err(device.activeConfig.error);
      }
      var config := device.activeConfig.value;
      if device.descriptor.Err? {
        return Err(device.descriptor.error);
      }
      var pid := device.descriptor.value.productId;
      var catalogInfo := USB_PID_EP_MAP[pid];
      var foundOut, foundIn, foundSwv := ScanEndpoints(FirstAltEndpoints(config), catalogInfo);
      ScanFindsCatalogEndpoints(FirstAltEndpoints(config), pid);
      if !foundOut {
        return Err(NotFound);
      }
      if !foundIn {
        return Err(NotFound);
      }
      if !foundSwv {
        return Err(NotFound);
      }
      // `Read` always succeeds, so this drain cannot make `open` fail
      var drained := Read(1000);
      return Ok(());
    }

    /** Releases interface 0 and drops the handle; fails, keeping the
        handle, when there is none or the release fails. */
    method Close() returns (r: Result<()>)
      modifies this
      ensures (r, deviceHandle) == CloseStep(device, old(deviceHandle))
    {
      var released := if deviceHandle.None? then Err(NotFound) else ReleaseInterface(device, deviceHandle.value);
      if released.Err? {
        return released;
      }
      deviceHandle := None;
      return Ok(());
    }

    /** Reads up to `size` bytes from the response endpoint into a zeroed
        buffer. The outcome of the transfer is dropped: the buffer is
        returned in every case, and without a handle nothing is read. */
    method Read(size: u16) returns (r: Result<seq<u8>>)
      modifies bus
      ensures r.Ok? && |r.value| == size
      ensures deviceHandle.None? ==> r.value == Zeros(size) && unchanged(bus)
      ensures deviceHandle.Some? ==>
                && r.value == InFill(old(bus.inReplies), Zeros(size))
                && bus.log == old(bus.log) + [BulkIn(info.epIn, size)]
                && bus.inReplies == Rest(old(bus.inReplies))
                && bus.outReplies == old(bus.outReplies)
    {
      var buf := new u8[size](_ => 0);
      assert buf[..] == Zeros(size);
      if deviceHandle.Some? {
        var dropped := bus.ReadBulk(info.epIn, buf);
      }
      return Ok(buf[..]);
    }

    /** One framed exchange: `cmd` padded to a frame, then the optional
        data-out and data-in phases, as `WriteSpec` describes. */
    method Write(cmd: seq<u8>, writeData: seq<u8>, readData: array<u8>) returns (r: Result<()>)
      requires |cmd| <= CMD_LEN
      requires deviceHandle.Some?
      modifies bus, readData
      ensures var run := WriteSpec(CommandFrame(cmd), writeData, old(readData[..]),
                                   old(bus.outReplies), old(bus.inReplies), info.epOut, info.epIn);
              && r == run.result
              && bus.log == old(bus.log) + run.transfers
              && bus.outReplies == run.outLeft
              && bus.inReplies == run.inLeft
              && readData[..] == run.readBuf
    {
      var frame := PadCommand(cmd);
      FrameUnique(cmd, frame, CommandFrame(cmd));
      var written := bus.WriteBulk(info.epOut, frame);
      if written.Err? {
        return Err(written.error);
      }
      if written.value != CMD_LEN {
        return Err(Io);
      }
      if |writeData| > 0 {
        written := bus.WriteBulk(info.epOut, writeData);
        if written.Err? {
          return Err(written.error);
        }
        if written.value != |writeData| {
          return Err(Io);
        }
      }
      if readData.Length > 0 {
        var received := bus.ReadBulk(info.epIn, readData);
        if received.Err? {
          return Err(received.error);
        }
        if received.value != readData.Length {
          return Err(Io);
        }
      }
      return Ok(());
    }

    /** Reads trace data as the code does: into a buffer that has room for
        `size` bytes but length zero, so that no byte can arrive. */
    method ReadSwv(size: nat) returns (r: Result<seq<u8>>)
      requires deviceHandle.Some?
      modifies bus
      ensures r == TraceRead(old(bus.inReplies), size, 0)
      ensures size > 0 ==> r.Err?
      ensures bus.log == old(bus.log) + [BulkIn(info.epSwv, 0)]
      ensures bus.inReplies == Rest(old(bus.inReplies)) && bus.outReplies == old(bus.outReplies)
    {
      var buf := new u8[0];
      var received := bus.ReadBulk(info.epSwv, buf);
      if received.Err? {
        return Err(received.error);
      }
      if received.value != size {
        return Err(Io);
      }
      return Ok(buf[..]);
    }

    /** Reads trace data into a buffer of `size` bytes, succeeding exactly
        when all `size` bytes arrive. */
    method ReadTrace(size: nat) returns (r: Result<seq<u8>>)
      requires deviceHandle.Some?
      modifies bus
      ensures r == TraceRead(old(bus.inReplies), size, size)
      ensures r.Ok? <==> old(bus.inReplies) != [] && old(bus.inReplies)[0].Ok?
                         && |old(bus.inReplies)[0].value| >= size
      ensures r.Ok? ==> r.value == old(bus.inReplies)[0].value[..size]
      ensures bus.log == old(bus.log) + [BulkIn(info.epSwv, size)]
      ensures bus.inReplies == Rest(old(bus.inReplies)) && bus.outReplies == old(bus.outReplies)
    {
      TraceReadIntoSizedBuffer(bus.inReplies, size);
      var buf := new u8[size](_ => 0);
      assert buf[..] == Zeros(size);
      var received := bus.ReadBulk(info.epSwv, buf);
      if received.Err? {
        return Err(received.error);
      }
      if received.value != size {
        return Err(Io);
      }
      return Ok(buf[..]);
    }
  }

  /** Discovery with probe objects: one fresh, unopened probe per
      catalogued device of the enumeration, in enumeration order. */
  method GetAllPluggedDevices(bus: UsbBus, devices: Result<seq<UsbDevice>>)
    returns (r: Result<seq<STLinkUSBDevice>>)
    ensures r.Err? <==> PluggedDevices(devices).Err?
    ensures r.Err? ==> r.error == PluggedDevices(devices).error
    ensures r.Ok? ==> var cs := PluggedDevices(devices).value;
              && |r.value| == |cs|
              && forall i :: 0 <= i < |cs| ==>
                   && fresh(r.value[i]) && r.value[i].bus == bus
                   && r.value[i].device == cs[i].device && r.value[i].info == cs[i].info
                   && r.value[i].deviceHandle == None
    ensures r.Ok? ==> forall i, j :: 0 <= i < j < |r.value| ==> r.value[i] != r.value[j]
  {
    if devices.Err? {
      return Err(devices.error);
    }
    var ds := devices.value;
    var probes: seq<STLinkUSBDevice> := [];
    for k := 0 to |ds|
      invariant |probes| == |MatchFilter(ds[..k])|
      invariant forall i :: 0 <= i < |probes| ==>
                  && fresh(probes[i]) && probes[i].bus == bus
                  && probes[i].device == MatchFilter(ds[..k])[i]
                  && UsbMatch(probes[i].device)
                  && probes[i].info == USB_PID_EP_MAP[probes[i].device.descriptor.value.productId]
                  && probes[i].deviceHandle == None
      invariant forall i, j :: 0 <= i < j < |probes| ==> probes[i] != probes[j]
    {
      MatchFilterStep(ds, k);
      if UsbMatch(ds[k]) {
        // cannot fail: a matched device's descriptor was readable
        var made := STLinkUSBDevice.New(bus, ds[k]);
        var probe := made.value;
        assert forall i :: 0 <= i < |probes| ==> probes[i] != probe;
        probes := probes + [probe];
      }
    }
    assert ds[..|ds|] == ds;
    return Ok(probes);
  }
}
