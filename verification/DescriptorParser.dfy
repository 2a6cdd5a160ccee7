/** The configuration-descriptor parser: a cursor over length-prefixed records that builds a three-level tree.
    Record layouts are those of sections 9.6.1, 9.6.3, 9.6.5 and 9.6.6 of the USB 2.0 specification. */
module DescriptorParser {
  import opened UsbTypes

  type Bytes = seq<uint8>

  const CONFIG_TYPE: uint8 := 2
  const INTERFACE_TYPE: uint8 := 4
  const ENDPOINT_TYPE: uint8 := 5

  const HEADER_SIZE := 2
  const DEVICE_SIZE := 18
  const CONFIG_SIZE := 9
  const INTERFACE_SIZE := 9
  const ENDPOINT_SIZE := 7
  const AUDIO_ENDPOINT_SIZE := 9

  datatype Code = Ok | InvalidValue

  function Word(low: uint8, high: uint8): uint16 {
    low + 0x100 * high
  }

  // ---- One record ----------------------------------------------------------------------------------------

  /** The record at the front of `b` is whole. */
  predicate Framed(b: Bytes) {
    |b| >= HEADER_SIZE && HEADER_SIZE <= b[0] <= |b|
  }

  predicate IsRecord(f: Bytes) {
    |f| >= HEADER_SIZE && f[0] == |f|
  }

  predicate InterfaceOpen(configs: seq<Config>) {
    configs != [] && configs[|configs| - 1].interfaces != []
  }

  function ReadConfig(f: Bytes): Config
    requires |f| >= CONFIG_SIZE
  {
    Config(f[5], f[7], f[8], f[6], "", [])
  }

  function ReadInterface(f: Bytes): Interface
    requires |f| >= INTERFACE_SIZE
  {
    Interface(f[2], f[7], f[5], f[6], f[3], "", f[8], [], true)
  }

  /** The endpoint remembers the low byte of its interface's id. */
  function ReadEndpoint(f: Bytes, interfaceId: int32): Endpoint
    requires |f| >= ENDPOINT_SIZE
  {
    Endpoint(f[2], f[3], f[6], Word(f[4], f[5]), interfaceId % 0x100)
  }

  /** The interfaces of the configuration read last, and the tree with others in their place. */
  function LastFaces(configs: seq<Config>): seq<Interface>
    requires configs != []
  {
    configs[|configs| - 1].interfaces
  }

  function WithFaces(configs: seq<Config>, faces: seq<Interface>): seq<Config>
    requires configs != []
  {
    var n := |configs| - 1;
    configs[n := configs[n].(interfaces := faces)]
  }

  function PushInterface(configs: seq<Config>, i: Interface): seq<Config>
    requires configs != []
  {
    WithFaces(configs, LastFaces(configs) + [i])
  }

  function PushEndpoint(configs: seq<Config>, f: Bytes): seq<Config>
    requires InterfaceOpen(configs) && |f| >= ENDPOINT_SIZE
  {
    var faces := LastFaces(configs);
    var i := faces[|faces| - 1];
    WithFaces(configs, faces[|faces| - 1 := i.(endpoints := i.endpoints + [ReadEndpoint(f, i.id)])])
  }

  /** What one record does to the tree built so far. Unknown types are skipped. */
  function Take(f: Bytes, configs: seq<Config>): (Code, seq<Config>)
    requires IsRecord(f)
  {
    if f[1] == CONFIG_TYPE then
      if |f| != CONFIG_SIZE then (InvalidValue, configs) else (Ok, configs + [ReadConfig(f)])
    else if f[1] == INTERFACE_TYPE then
      if |f| != INTERFACE_SIZE || configs == [] then (InvalidValue, configs)
      else (Ok, PushInterface(configs, ReadInterface(f)))
    else if f[1] == ENDPOINT_TYPE then
      if (|f| != ENDPOINT_SIZE && |f| != AUDIO_ENDPOINT_SIZE) || !InterfaceOpen(configs) then (InvalidValue, configs)
      else (Ok, PushEndpoint(configs, f))
    else (Ok, configs)
  }

  function Parse(b: Bytes, configs: seq<Config>): (Code, seq<Config>)
    decreases |b|
  {
    if !Framed(b) then (Ok, configs)
    else
      var (code, configs') := Take(b[..b[0]], configs);
      if code != Ok then (code, configs') else Parse(b[b[0]..], configs')
  }

  /** The device descriptor fills the identification fields of a device record. */
  function ParseDevice(b: Bytes, dev: Device): (Code, Device) {
    if |b| < DEVICE_SIZE || b[0] != DEVICE_SIZE then (InvalidValue, dev)
    else (Ok, dev.(
      vendorId := Word(b[8], b[9]), productId := Word(b[10], b[11]), baseClass := b[4], subClass := b[5],
      protocol := b[6], descConfigCount := b[17], maxPacketSize0 := b[7], bcdDevice := Word(b[12], b[13]),
      bcdUSB := Word(b[2], b[3]), iManufacturer := b[14], iProduct := b[15], iSerialNumber := b[16]))
  }

  // ---- The tree in document order -------------------------------------------------------------------------

  /** A descriptor on its own: without what it contains, and an endpoint without the mark of its interface. */
  datatype Node = ConfigNode(config: Config) | InterfaceNode(interface: Interface) | EndpointNode(endpoint: Endpoint)

  function EndpointNodes(es: seq<Endpoint>): seq<Node> {
    if es == [] then []
    else EndpointNodes(es[..|es| - 1]) + [EndpointNode(es[|es| - 1].(interfaceId := 0))]
  }

  function InterfaceNodes(faces: seq<Interface>): seq<Node> {
    if faces == [] then []
    else
      var i := faces[|faces| - 1];
      InterfaceNodes(faces[..|faces| - 1]) + ([InterfaceNode(i.(endpoints := []))] + EndpointNodes(i.endpoints))
  }

  function Preorder(configs: seq<Config>): seq<Node> {
    if configs == [] then []
    else
      var c := configs[|configs| - 1];
      Preorder(configs[..|configs| - 1]) + ([ConfigNode(c.(interfaces := []))] + InterfaceNodes(c.interfaces))
  }

  lemma ConfigGrows(configs: seq<Config>, c: Config)
    requires c.interfaces == []
    ensures Preorder(configs + [c]) == Preorder(configs) + [ConfigNode(c)]
  {
    assert (configs + [c])[..|configs|] == configs;
    assert c.(interfaces := []) == c;
  }

  lemma FacesGrow(configs: seq<Config>, faces: seq<Interface>, more: seq<Node>)
    requires configs != [] && InterfaceNodes(faces) == InterfaceNodes(LastFaces(configs)) + more
    ensures Preorder(WithFaces(configs, faces)) == Preorder(configs) + more
  {
    var n := |configs| - 1;
    var configs' := WithFaces(configs, faces);
    assert configs'[..n] == configs[..n] && configs'[n].(interfaces := []) == configs[n].(interfaces := []);
    var head := [ConfigNode(configs[n].(interfaces := []))];
    assert head + InterfaceNodes(faces) == head + InterfaceNodes(LastFaces(configs)) + more;
  }

  lemma InterfaceGrows(configs: seq<Config>, i: Interface)
    requires configs != [] && i.endpoints == []
    ensures Preorder(PushInterface(configs, i)) == Preorder(configs) + [InterfaceNode(i)]
  {
    var faces := LastFaces(configs);
    assert (faces + [i])[..|faces|] == faces && i.(endpoints := []) == i;
    assert [InterfaceNode(i)] + EndpointNodes(i.endpoints) == [InterfaceNode(i)];
    FacesGrow(configs, faces + [i], [InterfaceNode(i)]);
  }

  lemma EndpointGrows(configs: seq<Config>, f: Bytes)
    requires InterfaceOpen(configs) && |f| >= ENDPOINT_SIZE
    ensures Preorder(PushEndpoint(configs, f)) == Preorder(configs) + [EndpointNode(ReadEndpoint(f, 0))]
  {
    var faces := LastFaces(configs);
    var m := |faces| - 1;
    var i := faces[m];
    var e := ReadEndpoint(f, i.id);
    var i' := i.(endpoints := i.endpoints + [e]);
    var node := EndpointNode(ReadEndpoint(f, 0));
    assert (i.endpoints + [e])[..|i.endpoints|] == i.endpoints && e.(interfaceId := 0) == ReadEndpoint(f, 0);
    assert faces[m := i'][..m] == faces[..m] && i'.(endpoints := []) == i.(endpoints := []);
    var head := [InterfaceNode(i.(endpoints := []))];
    assert InterfaceNodes(faces[..m]) + (head + (EndpointNodes(i.endpoints) + [node]))
           == InterfaceNodes(faces[..m]) + (head + EndpointNodes(i.endpoints)) + [node];
    FacesGrow(configs, faces[m := i'], [node]);
  }

  // ---- The loop ------------------------------------------------------------------------------------------

  class ConfigVector {
    var items: seq<Config>

    constructor ()
      ensures items == []
    {
      items := [];
    }

    method AddConfig(f: Bytes) returns (ret: Code)
      requires |f| >= CONFIG_SIZE
      modifies this
      ensures ret == Ok && items == old(items) + [ReadConfig(f)]
      ensures Preorder(items) == Preorder(old(items)) + [ConfigNode(ReadConfig(f))]
    {
      ConfigGrows(items, ReadConfig(f));
      items := items + [ReadConfig(f)];
      ret := Ok;
    }

    /** In document order the tree grows by just this interface, and its last configuration is what grew. */
    method AddInterface(f: Bytes) returns (ret: Code)
      requires |f| >= INTERFACE_SIZE
      modifies this
      ensures if old(items) == [] then ret == InvalidValue && items == []
              else ret == Ok && items == PushInterface(old(items), ReadInterface(f))
      ensures ret == Ok ==>
                && Preorder(items) == Preorder(old(items)) + [InterfaceNode(ReadInterface(f))]
                && |items| == |old(items)| && items[..|items| - 1] == old(items)[..|items| - 1]
                && LastFaces(items)[..|LastFaces(items)| - 1] == LastFaces(old(items))
    {
      if items == [] {
        return InvalidValue;
      }
      InterfaceGrows(items, ReadInterface(f));
      items := PushInterface(items, ReadInterface(f));
      ret := Ok;
    }

    /** In document order the tree grows by just this endpoint, which carries the low byte of its interface's id. */
    method AddEndpoint(f: Bytes) returns (ret: Code)
      requires |f| >= ENDPOINT_SIZE
      modifies this
      ensures if !InterfaceOpen(old(items)) then ret == InvalidValue && items == old(items)
              else ret == Ok && items == PushEndpoint(old(items), f)
      ensures ret == Ok ==>
                && Preorder(items) == Preorder(old(items)) + [EndpointNode(ReadEndpoint(f, 0))]
                && InterfaceOpen(items)
                && var i := LastFaces(items)[|LastFaces(items)| - 1];
                   i.endpoints != [] && i.endpoints[|i.endpoints| - 1].interfaceId == i.id % 0x100
    {
      if items == [] || items[|items| - 1].interfaces == [] {
        return InvalidValue;
      }
      EndpointGrows(items, f);
      items := PushEndpoint(items, f);
      ret := Ok;
    }
  }

  /** The switch over the record's type. */
  method TakeRecord(f: Bytes, bDescriptorType: uint8, bLength: uint8, configs: ConfigVector) returns (ret: Code)
    requires IsRecord(f) && f[0] == bLength && f[1] == bDescriptorType
    modifies configs
    ensures (ret, configs.items) == Take(f, old(configs.items))
  {
    ret := Ok;
    if bDescriptorType == CONFIG_TYPE {
      if bLength != CONFIG_SIZE {
        return InvalidValue;
      }
      ret := configs.AddConfig(f);
    } else if bDescriptorType == INTERFACE_TYPE {
      if bLength != INTERFACE_SIZE {
        return InvalidValue;
      }
      ret := configs.AddInterface(f);
    } else if bDescriptorType == ENDPOINT_TYPE {
      if bLength != ENDPOINT_SIZE && bLength != AUDIO_ENDPOINT_SIZE {
        return InvalidValue;
      }
      ret := configs.AddEndpoint(f);
    }
  }

  lemma Slices(b: Bytes, low: nat, middle: nat, high: nat)
    requires low <= middle <= high <= |b|
    ensures b[low..high][..middle - low] == b[low..middle] && b[low..high][middle - low..] == b[middle..high]
  {
  }

  /** `length` is the vector's size cast to 32 bits. Every read is below it, and the cursor moves at every turn. */
  method ParseConfigDescriptors(descriptor: array<uint8>, offset: uint32, configs: ConfigVector) returns (ret: Code)
    modifies configs
    ensures var length := descriptor.Length % TWO_32;
            if offset <= length then (ret, configs.items) == Parse(descriptor[offset..length], old(configs.items))
            else ret == Ok && configs.items == old(configs.items)
  {
    var length := descriptor.Length % TWO_32;
    var cursor := offset;
    ghost var all := descriptor[..];
    assert offset <= length ==> descriptor[offset..length] == all[offset..length];
    ret := Ok;
    while cursor < length
      invariant offset <= cursor && (offset <= length ==> cursor <= length)
      invariant offset > length ==> configs.items == old(configs.items)
      invariant ret == Ok
      invariant offset <= length ==>
        Parse(all[cursor..length], configs.items) == Parse(all[offset..length], old(configs.items))
      decreases length - cursor
    {
      if length - cursor < HEADER_SIZE {
        break;
      }
      var bLength, bDescriptorType := descriptor[cursor], descriptor[cursor + 1];
      if bLength < HEADER_SIZE || bLength > length - cursor {
        break;
      }
      var f := descriptor[cursor..cursor + bLength];
      assert f == all[cursor..cursor + bLength];
      Slices(all, cursor, cursor + bLength, length);
      ret := TakeRecord(f, bDescriptorType, bLength, configs);
      if ret != Ok {
        return;
      }
      cursor := cursor + bLength;
    }
  }

  // ---- Framing -------------------------------------------------------------------------------------------

  /** The whole records at the front of a buffer, and what is left when no whole record follows. */
  function Frames(b: Bytes): seq<Bytes>
    decreases |b|
  {
    if Framed(b) then [b[..b[0]]] + Frames(b[b[0]..]) else []
  }

  function Tail(b: Bytes): Bytes
    decreases |b|
  {
    if Framed(b) then Tail(b[b[0]..]) else b
  }

  function Concat(fs: seq<Bytes>): Bytes {
    if fs == [] then [] else fs[0] + Concat(fs[1..])
  }

  ghost predicate Records(fs: seq<Bytes>) {
    forall k :: 0 <= k < |fs| ==> IsRecord(fs[k])
  }

  lemma ConcatFirst(f: Bytes, fs: seq<Bytes>)
    ensures Concat([f] + fs) == f + Concat(fs)
    ensures IsRecord(f) && Records(fs) ==> Records([f] + fs)
  {
    assert ([f] + fs)[1..] == fs;
  }

  /** Framing loses nothing. */
  lemma {:induction false} FramesCover(b: Bytes)
    ensures Records(Frames(b)) && Concat(Frames(b)) + Tail(b) == b && !Framed(Tail(b))
    decreases |b|
  {
    if Framed(b) {
      var rest := b[b[0]..];
      FramesCover(rest);
      ConcatFirst(b[..b[0]], Frames(rest));
      assert b == b[..b[0]] + (Concat(Frames(rest)) + Tail(rest));
    }
  }

  /** A buffer has one framing only. */
  lemma {:induction false} FramesUnique(fs: seq<Bytes>, tail: Bytes)
    requires Records(fs) && !Framed(tail)
    ensures Frames(Concat(fs) + tail) == fs && Tail(Concat(fs) + tail) == tail
  {
    var b := Concat(fs) + tail;
    if fs == [] {
      assert b == tail;
    } else {
      FramesUnique(fs[1..], tail);
      assert b[0] == |fs[0]| && b[..b[0]] == fs[0] && b[b[0]..] == Concat(fs[1..]) + tail;
      assert fs == [fs[0]] + fs[1..];
    }
  }

  lemma {:induction false} ConcatAppend(fs: seq<Bytes>, gs: seq<Bytes>)
    ensures Concat(fs + gs) == Concat(fs) + Concat(gs)
  {
    if fs == [] {
      assert fs + gs == gs;
    } else {
      ConcatAppend(fs[1..], gs);
      assert fs + gs == [fs[0]] + (fs[1..] + gs);
      ConcatFirst(fs[0], fs[1..] + gs);
      assert fs[0] + (Concat(fs[1..]) + Concat(gs)) == (fs[0] + Concat(fs[1..])) + Concat(gs);
    }
  }

  // ---- Reading a list of records -------------------------------------------------------------------------

  function Interpret(fs: seq<Bytes>, configs: seq<Config>): (Code, seq<Config>)
    requires Records(fs)
  {
    if fs == [] then (Ok, configs)
    else
      var (code, configs') := Take(fs[0], configs);
      if code != Ok then (code, configs') else Interpret(fs[1..], configs')
  }

  lemma {:induction false} ParseReadsFrames(b: Bytes, configs: seq<Config>)
    ensures Records(Frames(b)) && Parse(b, configs) == Interpret(Frames(b), configs)
    decreases |b|
  {
    FramesCover(b);
    if Framed(b) {
      assert Frames(b)[1..] == Frames(b[b[0]..]);
      ParseReadsFrames(b[b[0]..], Take(b[..b[0]], configs).1);
    }
  }

  lemma {:induction false} InterpretAppend(fs: seq<Bytes>, gs: seq<Bytes>, configs: seq<Config>)
    requires Records(fs) && Records(gs)
    ensures var (code, configs') := Interpret(fs, configs);
            Records(fs + gs)
            && Interpret(fs + gs, configs) == if code != Ok then (code, configs') else Interpret(gs, configs')
  {
    if fs == [] {
      assert fs + gs == gs;
    } else {
      assert (fs + gs)[1..] == fs[1..] + gs;
      InterpretAppend(fs[1..], gs, Take(fs[0], configs).1);
    }
  }
}
