/** Discovery: filtering a USB enumeration down to the catalogued probes
    and pairing each with its catalog entry. */
module Matcher {
  import opened UsbTypes
  import opened Catalog

  /** A matched probe that has not been opened: the device and the catalog
      entry of its product id. */
  datatype Candidate = Candidate(device: UsbDevice, info: STLinkInfo)

  /** A device is an ST-Link when its descriptor can be read, carries the
      ST vendor id and a catalogued product id. An unreadable descriptor
      is no match (and no error). */
  predicate UsbMatch(d: UsbDevice): (matched: bool)
    ensures matched <==> d.descriptor.Ok? && d.descriptor.value.vendorId == USB_VID
                         && d.descriptor.value.productId in USB_PID_EP_MAP
    ensures d.descriptor.Err? ==> !matched
    ensures matched ==> LookupDefined(d) && NewCandidate(d).Ok?
                        && NewCandidate(d).value.info.usbPid == d.descriptor.value.productId
  {
    d.descriptor.Ok? && d.descriptor.value.vendorId == USB_VID
    && d.descriptor.value.productId in USB_PID_EP_MAP
  }

  /** The devices whose catalog lookup cannot fail: an unreadable
      descriptor is reported as an error, a readable one must carry a
      catalogued product id (looking up any other one aborts the program). */
  predicate LookupDefined(d: UsbDevice)
  {
    d.descriptor.Ok? ==> d.descriptor.value.productId in USB_PID_EP_MAP
  }

  /** Building the unopened probe for a device: read its descriptor and
      take the catalog entry of its product id. */
  function NewCandidate(d: UsbDevice): (r: Result<Candidate>)
    requires LookupDefined(d)
    ensures r.Err? <==> d.descriptor.Err?
    ensures r.Err? ==> r.error == d.descriptor.error
    ensures r.Ok? ==> r.value.device == d
    ensures r.Ok? ==> r.value.info == USB_PID_EP_MAP[d.descriptor.value.productId]
    ensures r.Ok? ==> r.value.info.usbPid == d.descriptor.value.productId
    ensures r.Ok? ==> DistinctEndpoints(r.value.info)
  {
    match d.descriptor
    case Err(e) => Err(e)
    case Ok(descriptor) =>
      CatalogWellFormed(descriptor.productId);
      Ok(Candidate(d, USB_PID_EP_MAP[descriptor.productId]))
  }

  /** The matching devices of an enumeration, in enumeration order. */
  function MatchFilter(ds: seq<UsbDevice>): (r: seq<UsbDevice>)
    ensures |r| <= |ds|
    ensures forall d :: d in r ==> d in ds && UsbMatch(d)
    ensures forall d :: d in ds && UsbMatch(d) ==> d in r
  {
    if ds == [] then []
    else if UsbMatch(ds[0]) then [ds[0]] + MatchFilter(ds[1..])
    else MatchFilter(ds[1..])
  }

  /** Filtering distributes over concatenation, so the relative order of
      the enumeration is kept. */
  lemma {:induction false} MatchFilterAppend(a: seq<UsbDevice>, b: seq<UsbDevice>)
    ensures MatchFilter(a + b) == MatchFilter(a) + MatchFilter(b)
  {
    if a == [] {
      assert a + b == b;
    } else {
      assert (a + b)[1..] == a[1..] + b;
      MatchFilterAppend(a[1..], b);
    }
  }

  /** Extending the enumeration by one device extends the matches by that
      device exactly when it matches. */
  lemma MatchFilterStep(ds: seq<UsbDevice>, k: nat)
    requires k < |ds|
    ensures MatchFilter(ds[..k + 1]) == MatchFilter(ds[..k]) + (if UsbMatch(ds[k]) then [ds[k]] else [])
  {
    assert ds[..k + 1] == ds[..k] + [ds[k]];
    MatchFilterAppend(ds[..k], [ds[k]]);
    assert [ds[k]][1..] == [];
  }

  /** Matching an already matched list changes nothing. */
  lemma {:induction false} MatchFilterIdempotent(ds: seq<UsbDevice>)
    ensures MatchFilter(MatchFilter(ds)) == MatchFilter(ds)
  {
    if ds != [] {
      MatchFilterIdempotent(ds[1..]);
      if UsbMatch(ds[0]) {
        var rest := MatchFilter(ds[1..]);
        assert ([ds[0]] + rest)[1..] == rest;
      }
    }
  }

  /** Building the probe for every device in order, stopping at the first
      device whose descriptor cannot be read and reporting its error. */
  function CollectNew(ds: seq<UsbDevice>): (r: Result<seq<Candidate>>)
    requires forall d :: d in ds ==> LookupDefined(d)
    ensures r.Ok? <==> forall i :: 0 <= i < |ds| ==> ds[i].descriptor.Ok?
    ensures r.Ok? ==> |r.value| == |ds|
    ensures r.Ok? ==> forall i :: 0 <= i < |ds| ==> Ok(r.value[i]) == NewCandidate(ds[i])
    ensures r.Err? ==> exists i :: 0 <= i < |ds| && ds[i].descriptor.Err?
                          && r.error == ds[i].descriptor.error
                          && forall j :: 0 <= j < i ==> ds[j].descriptor.Ok?
  {
    if ds == [] then Ok([])
    else match NewCandidate(ds[0])
      case Err(e) => Err(e)
      case Ok(c) =>
        match CollectNew(ds[1..])
        case Err(e) =>
          assert exists i :: 0 <= i < |ds| - 1 && ds[1..][i].descriptor.Err?
                             && e == ds[1..][i].descriptor.error
                             && forall j :: 0 <= j < i ==> ds[1..][j].descriptor.Ok?;
          var i :| 0 <= i < |ds| - 1 && ds[1..][i].descriptor.Err?
                   && e == ds[1..][i].descriptor.error
                   && forall j :: 0 <= j < i ==> ds[1..][j].descriptor.Ok?;
          assert forall j :: 0 <= j < i + 1 ==> ds[j].descriptor.Ok? by {
            forall j | 0 <= j < i + 1 ensures ds[j].descriptor.Ok? {
              if j > 0 { assert ds[j] == ds[1..][j - 1]; }
            }
          }
          Err(e)
        case Ok(cs) => Ok([c] + cs)
  }

  /** Discovery over an enumeration: an enumeration error aborts, otherwise
      one unopened probe per matching device, in enumeration order, each
      with the catalog entry of its product id. */
  function PluggedDevices(devices: Result<seq<UsbDevice>>): (r: Result<seq<Candidate>>)
    ensures devices.Err? ==> r == Err(devices.error)
    ensures devices.Ok? ==> r.Ok? && |r.value| == |MatchFilter(devices.value)|
    ensures devices.Ok? ==> forall i :: 0 <= i < |r.value| ==>
              && r.value[i].device == MatchFilter(devices.value)[i]
              && UsbMatch(r.value[i].device)
              && r.value[i].info == USB_PID_EP_MAP[r.value[i].device.descriptor.value.productId]
  {
    match devices
    case Err(e) => Err(e)
    case Ok(ds) =>
      var matched := MatchFilter(ds);
      assert forall i :: 0 <= i < |matched| ==> matched[i] in matched;
      CollectNew(matched)
  }
}
