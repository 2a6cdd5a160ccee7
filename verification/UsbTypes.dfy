/** Fixed-width integers and the device tree shared by the parser, the parcel codec and the policy engine.
    The tree is stored by value, as the source stores it in `std::vector`s. */
module UsbTypes {

  datatype Option<+T> = None | Some(value: T)

  const TWO_31: nat := 0x8000_0000
  const TWO_32: nat := 0x1_0000_0000

  type uint8 = n: int | 0 <= n < 0x100
  type uint16 = n: int | 0 <= n < 0x1_0000
  type uint32 = n: int | 0 <= n < 0x1_0000_0000
  type int32 = n: int | -0x8000_0000 <= n < 0x8000_0000

  const INT32_MAX: int32 := 0x7FFF_FFFF
  const UINT8_MAX: uint8 := 0xFF

  /** A transfer endpoint; `interfaceId` names the interface the exclusive-claim guard looks up. */
  datatype Endpoint = Endpoint(
    address: uint32, attributes: uint32, interval: int32, maxPacketSize: int32, interfaceId: uint8)

  /** `authorized` is service-side state and never crosses a process boundary. */
  datatype Interface = Interface(
    id: int32, protocol: int32, klass: int32, subClass: int32, alternateSetting: int32,
    name: string, iInterface: uint8, endpoints: seq<Endpoint>, authorized: bool)

  datatype Config = Config(
    id: int32, attributes: uint32, maxPower: int32, iConfiguration: uint8, name: string,
    interfaces: seq<Interface>)

  datatype AuthorizeStatus = Disabled | Enabled | NewArrived

  datatype Device = Device(
    busNum: uint8, devAddr: uint8, vendorId: int32, productId: int32,
    baseClass: int32, subClass: int32, protocol: int32,
    iManufacturer: uint8, iProduct: uint8, iSerialNumber: uint8, maxPacketSize0: uint8,
    bcdUSB: uint16, bcdDevice: uint16,
    name: string, manufacturerName: string, productName: string, version: string, serial: string,
    configs: seq<Config>, descConfigCount: uint8, status: AuthorizeStatus)
}
