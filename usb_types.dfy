/** Values exchanged with the USB subsystem: integer widths, libusb's error
    kinds, the result wrappers, and the descriptors the transport reads. */
module UsbTypes {

  type u8 = x: int | 0 <= x < 0x100
  type u16 = x: int | 0 <= x < 0x1_0000

  /** The error kinds of the libusb binding. */
  datatype UsbError =
    | Io | InvalidParam | Access | NoDevice | NotFound | Busy | Timeout
    | Overflow | Pipe | Interrupted | NoMem | NotSupported | Other

  datatype Option<T> = None | Some(value: T)

  /** A libusb result: a value or one of libusb's errors. */
  datatype Result<T> = Ok(value: T) | Err(error: UsbError)

  /** The identity part of a USB device descriptor. */
  datatype DeviceDescriptor = DeviceDescriptor(vendorId: u16, productId: u16)

  datatype EndpointDescriptor = EndpointDescriptor(address: u8)

  /** One alternate setting of an interface. */
  datatype InterfaceDescriptor = InterfaceDescriptor(endpoints: seq<EndpointDescriptor>)

  /** An interface with its alternate settings, in descriptor order. */
  datatype Interface = Interface(descriptors: seq<InterfaceDescriptor>)

  datatype ConfigDescriptor = ConfigDescriptor(interfaces: seq<Interface>)

  /** A device as the USB subsystem reports it. Every libusb query the
      transport makes on an unopened device has a fixed answer here:
      reading the device descriptor, opening it, claiming interface 0,
      reading the active configuration and releasing interface 0. */
  datatype UsbDevice = UsbDevice(
    descriptor: Result<DeviceDescriptor>,
    openError: Option<UsbError>,
    claimError: Option<UsbError>,
    activeConfig: Result<ConfigDescriptor>,
    releaseError: Option<UsbError>)

  /** The endpoints of the first alternate setting of the first interface,
      or none when either is absent. */
  function FirstAltEndpoints(config: ConfigDescriptor): seq<EndpointDescriptor>
  {
    if config.interfaces == [] then []
    else if config.interfaces[0].descriptors == [] then []
    else config.interfaces[0].descriptors[0].endpoints
  }

  /** Whether some endpoint of `eps` has address `address`. */
  predicate HasEndpoint(eps: seq<EndpointDescriptor>, address: u8)
  {
    exists j :: 0 <= j < |eps| && eps[j].address == address
  }

  /** `n` zero bytes. */
  function Zeros(n: nat): (z: seq<u8>)
    ensures |z| == n
    ensures forall i :: 0 <= i < n ==> z[i] == 0
  {
    seq(n, _ => 0)
  }

  function Min(a: nat, b: nat): nat
  {
    if a <= b then a else b
  }
}
