/** The fixed table of known ST-Link probe variants. */
module Catalog {
  import opened UsbTypes

  /** The size of a command frame in bytes. */
  const CMD_LEN: nat := 16

  /** The USB vendor id of every ST-Link probe. */
  const USB_VID: u16 := 0x0483

  /** Per-variant metadata: firmware generation name, product id, and the
      addresses of the command-out, response-in and trace (SWV) endpoints. */
  datatype STLinkInfo = STLinkInfo(versionName: string, usbPid: u16, epOut: u8, epIn: u8, epSwv: u8)

  /** Product id to probe metadata. */
  const USB_PID_EP_MAP: map<u16, STLinkInfo> := map[
    0x3748 := STLinkInfo("V2",   0x3748, 0x02, 0x81, 0x83),
    0x374b := STLinkInfo("V2-1", 0x374b, 0x01, 0x81, 0x82),
    0x374a := STLinkInfo("V2-1", 0x374a, 0x01, 0x81, 0x82),  // audio
    0x3742 := STLinkInfo("V2-1", 0x3742, 0x01, 0x81, 0x82),  // no mass storage
    0x374e := STLinkInfo("V3",   0x374e, 0x01, 0x81, 0x82),
    0x374f := STLinkInfo("V3",   0x374f, 0x01, 0x81, 0x82),  // bridge
    0x3753 := STLinkInfo("V3",   0x3753, 0x01, 0x81, 0x82)   // two virtual COM ports
  ]

  /** The three endpoints of a variant are three different addresses. */
  predicate DistinctEndpoints(info: STLinkInfo)
  {
    info.epOut != info.epIn && info.epOut != info.epSwv && info.epIn != info.epSwv
  }

  /** The table knows exactly seven product ids. */
  lemma CatalogSize()
    ensures USB_PID_EP_MAP.Keys == {0x3748, 0x374b, 0x374a, 0x3742, 0x374e, 0x374f, 0x3753}
    ensures |USB_PID_EP_MAP| == 7
  {
    var keys: set<u16> := {0x3748, 0x374b, 0x374a, 0x3742, 0x374e, 0x374f, 0x3753};
    assert USB_PID_EP_MAP.Keys == keys;
    assert |keys| == 7;
  }

  /** Every entry is filed under its own product id, and names three
      different endpoints. */
  lemma CatalogWellFormed(pid: u16)
    requires pid in USB_PID_EP_MAP
    ensures USB_PID_EP_MAP[pid].usbPid == pid
    ensures DistinctEndpoints(USB_PID_EP_MAP[pid])
    ensures USB_PID_EP_MAP[pid].versionName in {"V2", "V2-1", "V3"}
  {
  }
}
