/** How devices cross process boundaries: device, configurations, interfaces and endpoints are written to a parcel
    with a count before each list, and read back.  At most 128 elements of each list travel.

    A parcel is a sequence of cells with a read cursor: 32-bit words, in which shorter integers travel too, and
    strings. A read that finds no cell of its kind yields zero or "" and does not move. */
module ParcelCodec {
  import opened UsbTypes

  const LIST_MAX: uint32 := 128

  datatype Cell = Word(n: uint32) | Text(s: string)

  /** The cells still unread, first one first. */
  datatype Cells = End | Next(cell: Cell, rest: Cells)

  /** A loop over a list of `count` elements stops at the cap. */
  function Cap(count: uint32): (n: nat)
    ensures n <= count
  {
    if count < LIST_MAX then count else LIST_MAX
  }

  /** The number of elements of a list that travel: its size is first cast to 32 bits. */
  function Kept(size: nat): (n: nat)
    ensures n <= size
  {
    Cap(size % TWO_32)
  }

  function Signed(n: uint32): int32 {
    if n < TWO_31 then n else n - TWO_32
  }

  // ---- Lists, whatever their elements --------------------------------------------------------------------

  function PutList<T>(put: (T, Cells) -> Cells, xs: seq<T>, rest: Cells): Cells {
    if xs == [] then rest else put(xs[0], PutList(put, xs[1..], rest))
  }

  function GetList<T>(get: Cells -> (T, Cells), n: nat, cs: Cells): (seq<T>, Cells) {
    if n == 0 then ([], cs)
    else
      var (x, cs1) := get(cs);
      var (xs, cs2) := GetList(get, n - 1, cs1);
      ([x] + xs, cs2)
  }

  function CutList<T>(cut: T -> T, xs: seq<T>): seq<T> {
    if xs == [] then [] else [cut(xs[0])] + CutList(cut, xs[1..])
  }

  ghost predicate Inverse<T(!new)>(put: (T, Cells) -> Cells, get: Cells -> (T, Cells), cut: T -> T) {
    forall x, rest :: get(put(x, rest)) == (cut(x), rest)
  }

  lemma {:induction false} ListRoundTrip<T(!new)>(
      put: (T, Cells) -> Cells, get: Cells -> (T, Cells), cut: T -> T, xs: seq<T>, rest: Cells)
    requires Inverse(put, get, cut)
    ensures GetList(get, |xs|, PutList(put, xs, rest)) == (CutList(cut, xs), rest)
  {
    if xs != [] {
      ListRoundTrip(put, get, cut, xs[1..], rest);
    }
  }

  /** What a loop that has read `before` still has to find: the rest of the list, and then the rest of the parcel. */
  ghost predicate StillToRead<T(!new)>(get: Cells -> (T, Cells), before: seq<T>, n: nat, cs: Cells,
                                       all: (seq<T>, Cells))
  {
    all == (before + GetList(get, n, cs).0, GetList(get, n, cs).1)
  }

  lemma ReadNone<T(!new)>(get: Cells -> (T, Cells), n: nat, cs: Cells)
    ensures StillToRead(get, [], n, cs, GetList(get, n, cs))
  {
    assert [] + GetList(get, n, cs).0 == GetList(get, n, cs).0;
  }

  lemma ReadOneMore<T(!new)>(get: Cells -> (T, Cells), before: seq<T>, n: nat, cs: Cells, x: T,
                             cs1: Cells, all: (seq<T>, Cells))
    requires n > 0 && StillToRead(get, before, n, cs, all) && get(cs) == (x, cs1)
    ensures StillToRead(get, before + [x], n - 1, cs1, all)
  {
    assert before + ([x] + GetList(get, n - 1, cs1).0) == before + [x] + GetList(get, n - 1, cs1).0;
  }

  lemma ReadAll<T(!new)>(get: Cells -> (T, Cells), before: seq<T>, cs: Cells, all: (seq<T>, Cells))
    requires StillToRead(get, before, 0, cs, all)
    ensures all == (before, cs)
  {
    assert before + [] == before;
  }

  lemma {:induction false} CutListIdentity<T>(cut: T -> T, xs: seq<T>)
    requires forall k :: 0 <= k < |xs| ==> cut(xs[k]) == xs[k]
    ensures CutList(cut, xs) == xs
  {
    if xs != [] {
      CutListIdentity(cut, xs[1..]);
    }
  }

  // ---- What is written, in front of whatever follows ------------------------------------------------------

  function Unsigned(v: int32): uint32 {
    if v < 0 then v + TWO_32 else v
  }

  function PutUint(n: uint32, rest: Cells): Cells {
    Next(Word(n), rest)
  }

  function PutInt(v: int32, rest: Cells): Cells {
    Next(Word(Unsigned(v)), rest)
  }

  function PutText(s: string, rest: Cells): Cells {
    Next(Text(s), rest)
  }

  function PutEndpoint(e: Endpoint, rest: Cells): Cells {
    PutUint(e.address, PutUint(e.attributes, PutInt(e.interval, PutInt(e.maxPacketSize, PutUint(e.interfaceId, rest)))))
  }

  function PutClass(i: Interface, rest: Cells): Cells {
    PutInt(i.id, PutInt(i.protocol, PutInt(i.klass, PutInt(i.subClass, PutInt(i.alternateSetting, rest)))))
  }

  function PutInterface(i: Interface, rest: Cells): Cells {
    PutClass(i, PutText(i.name, PutUint(i.iInterface, PutUint(|i.endpoints| % TWO_32,
      PutList(PutEndpoint, i.endpoints[..Kept(|i.endpoints|)], rest)))))
  }

  function PutHeader(c: Config, rest: Cells): Cells {
    PutInt(c.id, PutUint(c.attributes, PutInt(c.maxPower, PutUint(c.iConfiguration, PutText(c.name, rest)))))
  }

  function PutConfig(c: Config, rest: Cells): Cells {
    PutHeader(c, PutUint(|c.interfaces| % TWO_32, PutList(PutInterface, c.interfaces[..Kept(|c.interfaces|)], rest)))
  }

  function PutIds(d: Device, rest: Cells): Cells {
    PutUint(d.busNum, PutUint(d.devAddr, PutInt(d.vendorId, PutInt(d.productId, PutInt(d.baseClass,
      PutInt(d.subClass, PutInt(d.protocol, rest)))))))
  }

  function PutIndices(d: Device, rest: Cells): Cells {
    PutUint(d.iManufacturer, PutUint(d.iProduct, PutUint(d.iSerialNumber, PutUint(d.maxPacketSize0,
      PutUint(d.bcdUSB, PutUint(d.bcdDevice, rest))))))
  }

  function PutTexts(d: Device, rest: Cells): Cells {
    PutText(d.name, PutText(d.manufacturerName, PutText(d.productName, PutText(d.version, PutText(d.serial, rest)))))
  }

  /** The count of configurations is written as a signed and read as an unsigned word; both are its low 32 bits. */
  function PutDevice(d: Device, rest: Cells): Cells {
    PutIds(d, PutIndices(d, PutTexts(d,
      PutUint(|d.configs| % TWO_32, PutList(PutConfig, d.configs[..Kept(|d.configs|)], rest)))))
  }

  // ---- What is read ---------------------------------------------------------------------------------------

  function GetWord(cs: Cells): (uint32, Cells) {
    if cs.Next? && cs.cell.Word? then (cs.cell.n, cs.rest) else (0, cs)
  }

  function GetInt32(cs: Cells): (int32, Cells) {
    var (n, rest) := GetWord(cs);
    (Signed(n), rest)
  }

  function GetUint16(cs: Cells): (uint16, Cells) {
    var (n, rest) := GetWord(cs);
    (n % 0x1_0000, rest)
  }

  function GetUint8(cs: Cells): (uint8, Cells) {
    var (n, rest) := GetWord(cs);
    (n % 0x100, rest)
  }

  function GetText(cs: Cells): (string, Cells) {
    if cs.Next? && cs.cell.Text? then (cs.cell.s, cs.rest) else ("", cs)
  }

  function GetEndpoint(cs0: Cells): (Endpoint, Cells) {
    var (address, cs1) := GetWord(cs0);
    var (attributes, cs2) := GetWord(cs1);
    var (interval, cs3) := GetInt32(cs2);
    var (maxPacketSize, cs4) := GetInt32(cs3);
    var (interfaceId, cs5) := GetUint8(cs4);
    (Endpoint(address, attributes, interval, maxPacketSize, interfaceId), cs5)
  }

  /** An interface as its default constructor leaves it. */
  const BLANK_INTERFACE: Interface :=
    Interface(INT32_MAX, INT32_MAX, INT32_MAX, INT32_MAX, INT32_MAX, "", UINT8_MAX, [], true)

  function GetClass(i: Interface, cs0: Cells): (Interface, Cells) {
    var (id, cs1) := GetInt32(cs0);
    var (protocol, cs2) := GetInt32(cs1);
    var (klass, cs3) := GetInt32(cs2);
    var (subClass, cs4) := GetInt32(cs3);
    var (alternateSetting, cs5) := GetInt32(cs4);
    (i.(id := id, protocol := protocol, klass := klass, subClass := subClass, alternateSetting := alternateSetting),
     cs5)
  }

  function GetInterface(cs0: Cells): (Interface, Cells) {
    var (i, cs1) := GetClass(BLANK_INTERFACE, cs0);
    var (name, cs2) := GetText(cs1);
    var (iInterface, cs3) := GetUint8(cs2);
    var (count, cs4) := GetWord(cs3);
    var (endpoints, cs5) := GetList(GetEndpoint, Cap(count), cs4);
    (i.(name := name, iInterface := iInterface, endpoints := endpoints), cs5)
  }

  function GetHeader(cs0: Cells): (Config, Cells) {
    var (id, cs1) := GetInt32(cs0);
    var (attributes, cs2) := GetWord(cs1);
    var (maxPower, cs3) := GetInt32(cs2);
    var (iConfiguration, cs4) := GetUint8(cs3);
    var (name, cs5) := GetText(cs4);
    (Config(id, attributes, maxPower, iConfiguration, name, []), cs5)
  }

  function GetConfig(cs0: Cells): (Config, Cells) {
    var (c, cs1) := GetHeader(cs0);
    var (count, cs2) := GetWord(cs1);
    var (interfaces, cs3) := GetList(GetInterface, Cap(count), cs2);
    (c.(interfaces := interfaces), cs3)
  }

  /** A device as its default constructor leaves it. */
  const BLANK: Device := Device(UINT8_MAX, UINT8_MAX, -1, -1, -1, -1, -1, UINT8_MAX, UINT8_MAX, UINT8_MAX, UINT8_MAX,
                                0xFFFF, 0xFFFF, "", "", "", "", "", [], UINT8_MAX, Enabled)

  function GetIds(d: Device, cs0: Cells): (Device, Cells) {
    var (busNum, cs1) := GetUint8(cs0);
    var (devAddr, cs2) := GetUint8(cs1);
    var (vendorId, cs3) := GetInt32(cs2);
    var (productId, cs4) := GetInt32(cs3);
    var (baseClass, cs5) := GetInt32(cs4);
    var (subClass, cs6) := GetInt32(cs5);
    var (protocol, cs7) := GetInt32(cs6);
    (d.(busNum := busNum, devAddr := devAddr, vendorId := vendorId, productId := productId, baseClass := baseClass,
        subClass := subClass, protocol := protocol), cs7)
  }

  function GetIndices(d: Device, cs0: Cells): (Device, Cells) {
    var (iManufacturer, cs1) := GetUint8(cs0);
    var (iProduct, cs2) := GetUint8(cs1);
    var (iSerialNumber, cs3) := GetUint8(cs2);
    var (maxPacketSize0, cs4) := GetUint8(cs3);
    var (bcdUSB, cs5) := GetUint16(cs4);
    var (bcdDevice, cs6) := GetUint16(cs5);
    (d.(iManufacturer := iManufacturer, iProduct := iProduct, iSerialNumber := iSerialNumber,
        maxPacketSize0 := maxPacketSize0, bcdUSB := bcdUSB, bcdDevice := bcdDevice), cs6)
  }

  function GetTexts(d: Device, cs0: Cells): (Device, Cells) {
    var (name, cs1) := GetText(cs0);
    var (manufacturerName, cs2) := GetText(cs1);
    var (productName, cs3) := GetText(cs2);
    var (version, cs4) := GetText(cs3);
    var (serial, cs5) := GetText(cs4);
    (d.(name := name, manufacturerName := manufacturerName, productName := productName, version := version,
        serial := serial), cs5)
  }

  function GetDevice(cs0: Cells): (Device, Cells) {
    var (d1, cs1) := GetIds(BLANK, cs0);
    var (d2, cs2) := GetIndices(d1, cs1);
    var (d3, cs3) := GetTexts(d2, cs2);
    var (count, cs4) := GetWord(cs3);
    var (configs, cs5) := GetList(GetConfig, Cap(count), cs4);
    (d3.(configs := configs), cs5)
  }

  // ---- What survives the journey --------------------------------------------------------------------------

  function CutEndpoint(e: Endpoint): Endpoint {
    e
  }

  function CutInterface(i: Interface): Interface {
    i.(endpoints := i.endpoints[..Kept(|i.endpoints|)], authorized := true)
  }

  function CutConfig(c: Config): Config {
    c.(interfaces := CutList(CutInterface, c.interfaces[..Kept(|c.interfaces|)]))
  }

  /** The first 128 of every list; authorisation and the descriptor's configuration count are not carried. */
  function CutDevice(d: Device): Device {
    d.(configs := CutList(CutConfig, d.configs[..Kept(|d.configs|)]), descConfigCount := UINT8_MAX, status := Enabled)
  }

  // ---- What a full encoding takes -------------------------------------------------------------------------

  function Length(cs: Cells): nat {
    if cs.End? then 0 else 1 + Length(cs.rest)
  }

  function Total<T>(cost: T -> nat, xs: seq<T>): nat {
    if xs == [] then 0 else cost(xs[0]) + Total(cost, xs[1..])
  }

  lemma {:induction false} TotalAppend<T>(cost: T -> nat, xs: seq<T>, x: T)
    ensures Total(cost, xs + [x]) == Total(cost, xs) + cost(x)
  {
    if xs != [] {
      assert (xs + [x])[1..] == xs[1..] + [x];
      TotalAppend(cost, xs[1..], x);
    }
  }

  function EndpointCost(e: Endpoint): nat {
    5
  }

  function InterfaceCost(i: Interface): nat {
    8 + Total(EndpointCost, i.endpoints[..Kept(|i.endpoints|)])
  }

  function ConfigCost(c: Config): nat {
    6 + Total(InterfaceCost, c.interfaces[..Kept(|c.interfaces|)])
  }

  /** The number of writes of a device of which none is refused. */
  function DeviceCost(d: Device): nat {
    19 + Total(ConfigCost, d.configs[..Kept(|d.configs|)])
  }

  ghost predicate Costs<T(!new)>(put: (T, Cells) -> Cells, cost: T -> nat) {
    forall x, rest :: Length(put(x, rest)) == cost(x) + Length(rest)
  }

  lemma {:induction false} ListLength<T(!new)>(put: (T, Cells) -> Cells, cost: T -> nat, xs: seq<T>, rest: Cells)
    requires Costs(put, cost)
    ensures Length(PutList(put, xs, rest)) == Total(cost, xs) + Length(rest)
  {
    if xs != [] {
      ListLength(put, cost, xs[1..], rest);
    }
  }

  lemma OneLonger()
    ensures forall c, rest :: Length(Next(c, rest)) == 1 + Length(rest)
  {
  }

  lemma EndpointLength(e: Endpoint, rest: Cells)
    ensures Length(PutEndpoint(e, rest)) == EndpointCost(e) + Length(rest)
  {
    OneLonger();
  }

  lemma InterfaceLength(i: Interface, rest: Cells)
    ensures Length(PutInterface(i, rest)) == InterfaceCost(i) + Length(rest)
  {
    OneLonger();
    assert Costs(PutEndpoint, EndpointCost) by {
      forall e, r ensures Length(PutEndpoint(e, r)) == EndpointCost(e) + Length(r) { EndpointLength(e, r); }
    }
    ListLength(PutEndpoint, EndpointCost, i.endpoints[..Kept(|i.endpoints|)], rest);
  }

  lemma ConfigLength(c: Config, rest: Cells)
    ensures Length(PutConfig(c, rest)) == ConfigCost(c) + Length(rest)
  {
    OneLonger();
    assert Costs(PutInterface, InterfaceCost) by {
      forall i, r ensures Length(PutInterface(i, r)) == InterfaceCost(i) + Length(r) { InterfaceLength(i, r); }
    }
    ListLength(PutInterface, InterfaceCost, c.interfaces[..Kept(|c.interfaces|)], rest);
  }

  lemma DeviceLength(d: Device, rest: Cells)
    ensures Length(PutDevice(d, rest)) == DeviceCost(d) + Length(rest)
  {
    OneLonger();
    assert Costs(PutConfig, ConfigCost) by {
      forall c, r ensures Length(PutConfig(c, r)) == ConfigCost(c) + Length(r) { ConfigLength(c, r); }
    }
    ListLength(PutConfig, ConfigCost, d.configs[..Kept(|d.configs|)], rest);
  }

  // ---- Round trip -----------------------------------------------------------------------------------------

  lemma EndpointRoundTrip(e: Endpoint, rest: Cells)
    ensures GetEndpoint(PutEndpoint(e, rest)) == (e, rest)
  {
  }

  lemma ClassRoundTrip(i0: Interface, i: Interface, rest: Cells)
    ensures GetClass(i0, PutClass(i, rest))
            == (i0.(id := i.id, protocol := i.protocol, klass := i.klass, subClass := i.subClass,
                    alternateSetting := i.alternateSetting), rest)
  {
  }

  lemma InterfaceRoundTrip(i: Interface, rest: Cells)
    ensures GetInterface(PutInterface(i, rest)) == (CutInterface(i), rest)
  {
    var kept := i.endpoints[..Kept(|i.endpoints|)];
    var count := |i.endpoints| % TWO_32;
    ClassRoundTrip(BLANK_INTERFACE, i,
                   PutText(i.name, PutUint(i.iInterface, PutUint(count, PutList(PutEndpoint, kept, rest)))));
    assert Inverse(PutEndpoint, GetEndpoint, CutEndpoint) by {
      forall e, r ensures GetEndpoint(PutEndpoint(e, r)) == (CutEndpoint(e), r) { EndpointRoundTrip(e, r); }
    }
    ListRoundTrip(PutEndpoint, GetEndpoint, CutEndpoint, kept, rest);
    CutListIdentity(CutEndpoint, kept);
  }

  lemma HeaderRoundTrip(c: Config, rest: Cells)
    ensures GetHeader(PutHeader(c, rest)) == (c.(interfaces := []), rest)
  {
  }

  lemma ConfigRoundTrip(c: Config, rest: Cells)
    ensures GetConfig(PutConfig(c, rest)) == (CutConfig(c), rest)
  {
    HeaderRoundTrip(c, PutUint(|c.interfaces| % TWO_32,
                               PutList(PutInterface, c.interfaces[..Kept(|c.interfaces|)], rest)));
    assert Inverse(PutInterface, GetInterface, CutInterface) by {
      forall i, r ensures GetInterface(PutInterface(i, r)) == (CutInterface(i), r) { InterfaceRoundTrip(i, r); }
    }
    ListRoundTrip(PutInterface, GetInterface, CutInterface, c.interfaces[..Kept(|c.interfaces|)], rest);
  }

  lemma IdsRoundTrip(d0: Device, d: Device, rest: Cells)
    ensures GetIds(d0, PutIds(d, rest))
            == (d0.(busNum := d.busNum, devAddr := d.devAddr, vendorId := d.vendorId, productId := d.productId,
                    baseClass := d.baseClass, subClass := d.subClass, protocol := d.protocol), rest)
  {
  }

  lemma IndicesRoundTrip(d0: Device, d: Device, rest: Cells)
    ensures GetIndices(d0, PutIndices(d, rest))
            == (d0.(iManufacturer := d.iManufacturer, iProduct := d.iProduct, iSerialNumber := d.iSerialNumber,
                    maxPacketSize0 := d.maxPacketSize0, bcdUSB := d.bcdUSB, bcdDevice := d.bcdDevice), rest)
  {
  }

  lemma TextsRoundTrip(d0: Device, d: Device, rest: Cells)
    ensures GetTexts(d0, PutTexts(d, rest))
            == (d0.(name := d.name, manufacturerName := d.manufacturerName, productName := d.productName,
                    version := d.version, serial := d.serial), rest)
  {
  }

  /** Reading what was written gives the device, cut to what travels, and leaves exactly the rest unread. */
  lemma DeviceRoundTrip(d: Device, rest: Cells)
    ensures GetDevice(PutDevice(d, rest)) == (CutDevice(d), rest)
  {
    var kept := d.configs[..Kept(|d.configs|)];
    var cells := PutUint(|d.configs| % TWO_32, PutList(PutConfig, kept, rest));
    IdsRoundTrip(BLANK, d, PutIndices(d, PutTexts(d, cells)));
    var d1 := GetIds(BLANK, PutDevice(d, rest)).0;
    IndicesRoundTrip(d1, d, PutTexts(d, cells));
    TextsRoundTrip(GetIndices(d1, PutIndices(d, PutTexts(d, cells))).0, d, cells);
    assert Inverse(PutConfig, GetConfig, CutConfig) by {
      forall c, r ensures GetConfig(PutConfig(c, r)) == (CutConfig(c), r) { ConfigRoundTrip(c, r); }
    }
    ListRoundTrip(PutConfig, GetConfig, CutConfig, kept, rest);
  }

  ghost predicate FitsConfig(c: Config) {
    |c.interfaces| <= LIST_MAX
    && forall k :: 0 <= k < |c.interfaces| ==> |c.interfaces[k].endpoints| <= LIST_MAX && c.interfaces[k].authorized
  }

  lemma CutConfigIdentity(c: Config)
    requires FitsConfig(c)
    ensures CutConfig(c) == c
  {
    assert c.interfaces[..Kept(|c.interfaces|)] == c.interfaces;
    forall k | 0 <= k < |c.interfaces| ensures CutInterface(c.interfaces[k]) == c.interfaces[k] {
      assert c.interfaces[k].endpoints[..Kept(|c.interfaces[k].endpoints|)] == c.interfaces[k].endpoints;
    }
    CutListIdentity(CutInterface, c.interfaces);
  }

  /** Within the limits, only the two fields that are not carried change. */
  lemma CutIsIdentity(d: Device)
    requires |d.configs| <= LIST_MAX && forall k :: 0 <= k < |d.configs| ==> FitsConfig(d.configs[k])
    ensures CutDevice(d) == d.(descConfigCount := UINT8_MAX, status := Enabled)
  {
    assert d.configs[..Kept(|d.configs|)] == d.configs;
    forall k | 0 <= k < |d.configs| ensures CutConfig(d.configs[k]) == d.configs[k] { CutConfigIdentity(d.configs[k]); }
    CutListIdentity(CutConfig, d.configs);
  }

  // ---- What arrives, index by index -----------------------------------------------------------------------

  /** The size of a list on arrival. */
  function Arriving(size: nat): nat {
    if size % 0x1_0000_0000 < 128 then size % 0x1_0000_0000 else 128
  }

  ghost predicate ArrivesAs(c: Config, c': Config) {
    && c' == c.(interfaces := c'.interfaces) && |c'.interfaces| == Arriving(|c.interfaces|)
    && forall k :: 0 <= k < |c'.interfaces| ==>
         var i := c.interfaces[k];
         c'.interfaces[k] == i.(endpoints := i.endpoints[..Arriving(|i.endpoints|)], authorized := true)
  }

  lemma {:induction false} CutListAt<T>(cut: T -> T, xs: seq<T>)
    ensures |CutList(cut, xs)| == |xs| && forall k :: 0 <= k < |xs| ==> CutList(cut, xs)[k] == cut(xs[k])
  {
    if xs != [] {
      CutListAt(cut, xs[1..]);
    }
  }

  /** Of every list, at every level, the first 128 elements arrive in their places, of a list whose size does not fit in
      32 bits as many as its low bits say; all else arrives as it was, save the three fields that are not carried. */
  lemma DeviceArrives(d: Device, rest: Cells)
    ensures var (d', unread) := GetDevice(PutDevice(d, rest));
            && unread == rest && d' == d.(configs := d'.configs, descConfigCount := 0xFF, status := Enabled)
            && |d'.configs| == Arriving(|d.configs|)
            && forall k :: 0 <= k < |d'.configs| ==> ArrivesAs(d.configs[k], d'.configs[k])
  {
    DeviceRoundTrip(d, rest);
    CutListAt(CutConfig, d.configs[..Kept(|d.configs|)]);
    forall c: Config ensures ArrivesAs(c, CutConfig(c)) {
      CutListAt(CutInterface, c.interfaces[..Kept(|c.interfaces|)]);
    }
  }

  // ---- The order on the wire ------------------------------------------------------------------------------

  /** The cell `k` places further on; an empty text where there is none. */
  function CellAt(cs: Cells, k: nat): Cell {
    if cs.End? then Text("") else if k == 0 then cs.cell else CellAt(cs.rest, k - 1)
  }

  /** A signed integer travels as its low 32 bits. */
  function Bits(v: int32): Cell {
    Word(v % 0x1_0000_0000)
  }

  lemma UnsignedIsBits()
    ensures forall v: int32 :: Word(Unsigned(v)) == Bits(v)
  {
  }

  lemma NextCell()
    ensures forall c, rest :: CellAt(Next(c, rest), 0) == c
    ensures forall c, rest, k: nat :: k > 0 ==> CellAt(Next(c, rest), k) == CellAt(rest, k - 1)
  {
  }

  /** The places of a device's own fields; its configurations follow. */
  lemma DeviceOnTheWire(d: Device, rest: Cells)
    ensures var cs := PutDevice(d, rest);
            && CellAt(cs, 0) == Word(d.busNum) && CellAt(cs, 1) == Word(d.devAddr) && CellAt(cs, 2) == Bits(d.vendorId)
            && CellAt(cs, 3) == Bits(d.productId) && CellAt(cs, 4) == Bits(d.baseClass)
            && CellAt(cs, 5) == Bits(d.subClass)
            && CellAt(cs, 6) == Bits(d.protocol) && CellAt(cs, 7) == Word(d.iManufacturer)
            && CellAt(cs, 8) == Word(d.iProduct)
            && CellAt(cs, 9) == Word(d.iSerialNumber) && CellAt(cs, 10) == Word(d.maxPacketSize0)
            && CellAt(cs, 11) == Word(d.bcdUSB)
            && CellAt(cs, 12) == Word(d.bcdDevice) && CellAt(cs, 13) == Text(d.name)
            && CellAt(cs, 14) == Text(d.manufacturerName)
            && CellAt(cs, 15) == Text(d.productName) && CellAt(cs, 16) == Text(d.version)
            && CellAt(cs, 17) == Text(d.serial)
            && CellAt(cs, 18) == Word(|d.configs| % 0x1_0000_0000)
  {
    UnsignedIsBits();
    NextCell();
  }

  lemma ConfigOnTheWire(c: Config, rest: Cells)
    ensures var cs := PutConfig(c, rest);
            && CellAt(cs, 0) == Bits(c.id) && CellAt(cs, 1) == Word(c.attributes) && CellAt(cs, 2) == Bits(c.maxPower)
            && CellAt(cs, 3) == Word(c.iConfiguration) && CellAt(cs, 4) == Text(c.name)
            && CellAt(cs, 5) == Word(|c.interfaces| % 0x1_0000_0000)
  {
    UnsignedIsBits();
    NextCell();
  }

  lemma InterfaceOnTheWire(i: Interface, rest: Cells)
    ensures var cs := PutInterface(i, rest);
            && CellAt(cs, 0) == Bits(i.id) && CellAt(cs, 1) == Bits(i.protocol) && CellAt(cs, 2) == Bits(i.klass)
            && CellAt(cs, 3) == Bits(i.subClass) && CellAt(cs, 4) == Bits(i.alternateSetting)
            && CellAt(cs, 5) == Text(i.name)
            && CellAt(cs, 6) == Word(i.iInterface) && CellAt(cs, 7) == Word(|i.endpoints| % 0x1_0000_0000)
  {
    UnsignedIsBits();
    NextCell();
  }

  lemma EndpointOnTheWire(e: Endpoint, rest: Cells)
    ensures var cs := PutEndpoint(e, rest);
            && CellAt(cs, 0) == Word(e.address) && CellAt(cs, 1) == Word(e.attributes)
            && CellAt(cs, 2) == Bits(e.interval)
            && CellAt(cs, 3) == Bits(e.maxPacketSize) && CellAt(cs, 4) == Word(e.interfaceId)
  {
    UnsignedIsBits();
    NextCell();
  }
}
