/** What the descriptor parser promises about every buffer, and its round trip with the standard's encoding.  Records
    are described here as the standard has them, without the parser's names: types 2 (configuration), 4 (interface)
    and 5 (endpoint), of 9, 9, and 7 or 9 bytes. */
module DescriptorTheorems {
  import opened UsbTypes
  import opened DescriptorParser

  // ---- Broken tails and unknown records ------------------------------------------------------------------

  /** `p` is made of whole records only. */
  predicate WholeRecords(p: Bytes) {
    Tail(p) == []
  }

  lemma {:induction false} FramesOfAppend(p: Bytes, rest: Bytes)
    requires WholeRecords(p)
    ensures Frames(p + rest) == Frames(p) + Frames(rest) && Tail(p + rest) == Tail(rest)
  {
    FramesCover(p);
    FramesCover(rest);
    var fs := Frames(p) + Frames(rest);
    ConcatAppend(Frames(p), Frames(rest));
    assert Concat(Frames(p)) == p;
    assert p + rest == Concat(fs) + Tail(rest);
    FramesUnique(fs, Tail(rest));
  }

  /** The whole records at the front decide the parse; a broken or cut-off tail does not matter. */
  lemma TailIgnored(b: Bytes, configs: seq<Config>)
    ensures var n := |b| - |Tail(b)|;
            n >= 0 && WholeRecords(b[..n]) && Parse(b, configs) == Parse(b[..n], configs)
  {
    FramesCover(b);
    var n := |b| - |Tail(b)|;
    assert b[..n] == Concat(Frames(b)) + [];
    FramesUnique(Frames(b), []);
    ParseReadsFrames(b, configs);
    ParseReadsFrames(b[..n], configs);
  }

  lemma TailFits(b: Bytes)
    ensures |Tail(b)| <= |b|
  {
    FramesCover(b);
    assert |Concat(Frames(b)) + Tail(b)| == |b|;
  }

  /** No longer prefix is made of whole records. */
  lemma TailIsShortest(b: Bytes, m: nat)
    requires |b| - |Tail(b)| < m <= |b|
    ensures !WholeRecords(b[..m])
  {
    var front, rest := b[..m], b[m..];
    TailFits(rest);
    assert b == front + rest;
    if WholeRecords(front) {
      FramesOfAppend(front, rest);
    }
  }

  /** A record of a type the parser does not know can stand anywhere between records. */
  lemma UnknownRecordIgnored(p: Bytes, u: Bytes, rest: Bytes, configs: seq<Config>)
    requires WholeRecords(p) && |u| >= 2 && u[0] == |u| && u[1] !in {2, 4, 5}
    ensures Parse(p + u + rest, configs) == Parse(p + rest, configs)
  {
    FramesUnique([u], []);
    assert Concat([u]) + [] == u;
    assert p + u + rest == p + (u + rest);
    FramesOfAppend(p, u + rest);
    FramesOfAppend(u, rest);
    FramesOfAppend(p, rest);
    var fs, gs := Frames(p), Frames(rest);
    FramesCover(p);
    FramesCover(rest);
    ParseReadsFrames(p + u + rest, configs);
    ParseReadsFrames(p + rest, configs);
    InterpretAppend(fs, gs, configs);
    InterpretAppend(fs, [u] + gs, configs);
    InterpretAppend([u], gs, Interpret(fs, configs).1);
    assert Interpret([u], Interpret(fs, configs).1) == (Ok, Interpret(fs, configs).1) by {
      assert [u][1..] == [];
    }
  }

  // ---- Exactly the well-nested record lists parse --------------------------------------------------------

  predicate LegalSize(f: Bytes)
    requires IsRecord(f)
  {
    && (f[1] == 2 ==> |f| == 9)
    && (f[1] == 4 ==> |f| == 9)
    && (f[1] == 5 ==> |f| == 7 || |f| == 9)
  }

  predicate TypeAt(fs: seq<Bytes>, k: nat, t: uint8) {
    k < |fs| && |fs[k]| > 1 && fs[k][1] == t
  }

  /** Before record `k` there is a configuration to add to. */
  ghost predicate ConfigBefore(fs: seq<Bytes>, k: nat, configs: seq<Config>) {
    configs != [] || exists j: nat :: j < k && TypeAt(fs, j, 2)
  }

  /** Before record `k` there is an interface to add to: one that was opened after the latest configuration. */
  ghost predicate InterfaceBefore(fs: seq<Bytes>, k: nat, configs: seq<Config>) {
    || (exists j: nat :: j < k && TypeAt(fs, j, 4)
                         && forall m: nat :: j < m < k ==> !TypeAt(fs, m, 2))
    || (InterfaceOpen(configs) && forall m: nat :: m < k ==> !TypeAt(fs, m, 2))
  }

  ghost predicate WellNested(fs: seq<Bytes>, configs: seq<Config>)
    requires Records(fs)
  {
    forall k: nat :: k < |fs| ==>
      && LegalSize(fs[k])
      && (TypeAt(fs, k, 4) ==> ConfigBefore(fs, k, configs))
      && (TypeAt(fs, k, 5) ==> InterfaceBefore(fs, k, configs))
  }

  lemma InterpretSnoc(fs: seq<Bytes>, f: Bytes, configs: seq<Config>)
    requires Records(fs) && IsRecord(f)
    ensures var (code, configs') := Interpret(fs, configs);
            Records(fs + [f])
            && Interpret(fs + [f], configs) == if code != Ok then (code, configs') else Take(f, configs')
  {
    InterpretAppend(fs, [f], configs);
    assert [f][1..] == [];
    var (code, configs') := Take(f, Interpret(fs, configs).1);
    assert Interpret([f], Interpret(fs, configs).1) == (code, configs');
  }

  lemma BeforeSnoc(fs: seq<Bytes>, f: Bytes, configs: seq<Config>)
    requires IsRecord(f)
    ensures forall k: nat :: k <= |fs| ==> (ConfigBefore(fs + [f], k, configs) <==> ConfigBefore(fs, k, configs))
    ensures forall k: nat :: k <= |fs| ==> (InterfaceBefore(fs + [f], k, configs) <==> InterfaceBefore(fs, k, configs))
    ensures ConfigBefore(fs + [f], |fs| + 1, configs) <==> f[1] == 2 || ConfigBefore(fs, |fs|, configs)
    ensures InterfaceBefore(fs + [f], |fs| + 1, configs) <==>
            f[1] == 4 || (f[1] != 2 && InterfaceBefore(fs, |fs|, configs))
  {
    var gs := fs + [f];
    assert forall j: nat, t :: j < |fs| ==> (TypeAt(gs, j, t) <==> TypeAt(fs, j, t));
    assert TypeAt(gs, |fs|, 2) <==> f[1] == 2;
    assert TypeAt(gs, |fs|, 4) <==> f[1] == 4;
  }

  lemma WellNestedSnoc(fs: seq<Bytes>, f: Bytes, configs: seq<Config>)
    requires Records(fs) && IsRecord(f)
    ensures Records(fs + [f])
    ensures WellNested(fs + [f], configs) <==>
      WellNested(fs, configs) && LegalSize(f)
      && (f[1] == 4 ==> ConfigBefore(fs, |fs|, configs))
      && (f[1] == 5 ==> InterfaceBefore(fs, |fs|, configs))
  {
    var gs := fs + [f];
    BeforeSnoc(fs, f, configs);
    assert forall k: nat :: k < |fs| ==> gs[k] == fs[k];
    assert forall k: nat, t :: k < |fs| ==> (TypeAt(gs, k, t) <==> TypeAt(fs, k, t));
    assert gs[|fs|] == f;
    assert TypeAt(gs, |fs|, 4) <==> f[1] == 4;
    assert TypeAt(gs, |fs|, 5) <==> f[1] == 5;
  }

  lemma {:induction false} ParsesIffWellNested(fs: seq<Bytes>, configs: seq<Config>)
    requires Records(fs)
    ensures Interpret(fs, configs).0 == Ok <==> WellNested(fs, configs)
    ensures WellNested(fs, configs) ==>
              (Interpret(fs, configs).1 != [] <==> ConfigBefore(fs, |fs|, configs))
              && (InterfaceOpen(Interpret(fs, configs).1) <==> InterfaceBefore(fs, |fs|, configs))
  {
    if fs != [] {
      var n := |fs| - 1;
      var front, f := fs[..n], fs[n];
      assert fs == front + [f];
      ParsesIffWellNested(front, configs);
      InterpretSnoc(front, f, configs);
      BeforeSnoc(front, f, configs);
      WellNestedSnoc(front, f, configs);
    }
  }

  /** A buffer is accepted exactly when its whole records are well nested. */
  lemma AcceptedIffWellNested(b: Bytes, configs: seq<Config>)
    ensures Records(Frames(b))
    ensures Parse(b, configs).0 == Ok <==> WellNested(Frames(b), configs)
  {
    ParseReadsFrames(b, configs);
    ParsesIffWellNested(Frames(b), configs);
  }

  // ---- Counting ------------------------------------------------------------------------------------------

  function CountType(fs: seq<Bytes>, t: uint8): nat {
    if fs == [] then 0 else CountType(fs[..|fs| - 1], t) + (if TypeAt(fs, |fs| - 1, t) then 1 else 0)
  }

  function InterfaceTotal(configs: seq<Config>): nat {
    if configs == [] then 0 else InterfaceTotal(configs[..|configs| - 1]) + |configs[|configs| - 1].interfaces|
  }

  function EndpointsOf(faces: seq<Interface>): nat {
    if faces == [] then 0 else EndpointsOf(faces[..|faces| - 1]) + |faces[|faces| - 1].endpoints|
  }

  function EndpointTotal(configs: seq<Config>): nat {
    if configs == [] then 0
    else EndpointTotal(configs[..|configs| - 1]) + EndpointsOf(configs[|configs| - 1].interfaces)
  }

  lemma TakeCounts(f: Bytes, configs: seq<Config>)
    requires IsRecord(f) && Take(f, configs).0 == Ok
    ensures var configs' := Take(f, configs).1;
            && |configs'| == |configs| + (if f[1] == 2 then 1 else 0)
            && InterfaceTotal(configs') == InterfaceTotal(configs) + (if f[1] == 4 then 1 else 0)
            && EndpointTotal(configs') == EndpointTotal(configs) + (if f[1] == 5 then 1 else 0)
  {
    var configs' := Take(f, configs).1;
    if f[1] == 2 {
      assert configs'[..|configs|] == configs;
    } else if configs != [] {
      var n := |configs| - 1;
      assert configs'[..n] == configs[..n];
      var faces, faces' := configs[n].interfaces, configs'[n].interfaces;
      if f[1] == 4 {
        assert faces'[..|faces|] == faces;
      } else if f[1] == 5 {
        assert faces'[..|faces| - 1] == faces[..|faces| - 1];
      }
    }
  }

  lemma {:induction false} InterpretCounts(fs: seq<Bytes>, configs: seq<Config>)
    requires Records(fs) && Interpret(fs, configs).0 == Ok
    ensures var configs' := Interpret(fs, configs).1;
            && |configs'| == |configs| + CountType(fs, 2)
            && InterfaceTotal(configs') == InterfaceTotal(configs) + CountType(fs, 4)
            && EndpointTotal(configs') == EndpointTotal(configs) + CountType(fs, 5)
  {
    if fs != [] {
      var front, f := fs[..|fs| - 1], fs[|fs| - 1];
      assert fs == front + [f];
      InterpretSnoc(front, f, configs);
      InterpretCounts(front, configs);
      TakeCounts(f, Interpret(front, configs).1);
    }
  }

  /** On success every level gained one node per whole record of its type. */
  lemma ParseCounts(b: Bytes, configs: seq<Config>)
    requires Parse(b, configs).0 == Ok
    ensures var configs' := Parse(b, configs).1;
            && |configs'| == |configs| + CountType(Frames(b), 2)
            && InterfaceTotal(configs') == InterfaceTotal(configs) + CountType(Frames(b), 4)
            && EndpointTotal(configs') == EndpointTotal(configs) + CountType(Frames(b), 5)
  {
    ParseReadsFrames(b, configs);
    InterpretCounts(Frames(b), configs);
  }

  // ---- Document order -------------------------------------------------------------------------------------

  /** What a record is about, taken by itself. */
  function NodeOf(f: Bytes): seq<Node>
    requires IsRecord(f) && LegalSize(f)
  {
    if f[1] == 2 then [ConfigNode(ReadConfig(f))]
    else if f[1] == 4 then [InterfaceNode(ReadInterface(f))]
    else if f[1] == 5 then [EndpointNode(ReadEndpoint(f, 0))]
    else []
  }

  function NodesOf(fs: seq<Bytes>): seq<Node>
    requires forall k :: 0 <= k < |fs| ==> IsRecord(fs[k]) && LegalSize(fs[k])
  {
    if fs == [] then [] else NodesOf(fs[..|fs| - 1]) + NodeOf(fs[|fs| - 1])
  }

  lemma TakeInOrder(f: Bytes, configs: seq<Config>)
    requires IsRecord(f) && Take(f, configs).0 == Ok
    ensures LegalSize(f) && Preorder(Take(f, configs).1) == Preorder(configs) + NodeOf(f)
  {
    if f[1] == 2 {
      ConfigGrows(configs, ReadConfig(f));
    } else if f[1] == 4 {
      InterfaceGrows(configs, ReadInterface(f));
    } else if f[1] == 5 {
      EndpointGrows(configs, f);
    }
  }

  lemma {:induction false} InterpretInOrder(fs: seq<Bytes>, configs: seq<Config>)
    requires Records(fs) && Interpret(fs, configs).0 == Ok
    ensures forall k :: 0 <= k < |fs| ==> LegalSize(fs[k])
    ensures Preorder(Interpret(fs, configs).1) == Preorder(configs) + NodesOf(fs)
  {
    if fs != [] {
      var front, f := fs[..|fs| - 1], fs[|fs| - 1];
      assert fs == front + [f];
      InterpretSnoc(front, f, configs);
      InterpretInOrder(front, configs);
      TakeInOrder(f, Interpret(front, configs).1);
      assert Preorder(configs) + NodesOf(front) + NodeOf(f) == Preorder(configs) + (NodesOf(front) + NodeOf(f));
      forall k | 0 <= k < |fs| ensures LegalSize(fs[k]) {
        assert k < |front| ==> fs[k] == front[k];
      }
    }
  }

  /** On success the tree, read in document order, has gained exactly what the whole records say, one by one and in
      their order: nothing is lost, added, repeated or moved. */
  lemma ParseInDocumentOrder(b: Bytes, configs: seq<Config>)
    requires Parse(b, configs).0 == Ok
    ensures forall k :: 0 <= k < |Frames(b)| ==> IsRecord(Frames(b)[k]) && LegalSize(Frames(b)[k])
    ensures Preorder(Parse(b, configs).1) == Preorder(configs) + NodesOf(Frames(b))
  {
    ParseReadsFrames(b, configs);
    InterpretInOrder(Frames(b), configs);
  }

  // ---- Endpoints know their interface --------------------------------------------------------------------

  ghost predicate Tagged(i: Interface) {
    0 <= i.id < 0x100 && forall k :: 0 <= k < |i.endpoints| ==> i.endpoints[k].interfaceId == i.id
  }

  ghost predicate AllTagged(configs: seq<Config>) {
    forall c, k :: 0 <= c < |configs| && 0 <= k < |configs[c].interfaces| ==> Tagged(configs[c].interfaces[k])
  }

  /** Whatever the buffer and wherever parsing stops, every endpoint carries the id of the interface it is in. */
  lemma {:induction false} EndpointsAlwaysTagged(b: Bytes, configs: seq<Config>)
    requires AllTagged(configs)
    ensures AllTagged(Parse(b, configs).1)
    decreases |b|
  {
    if Framed(b) {
      assert AllTagged(Take(b[..b[0]], configs).1);
      EndpointsAlwaysTagged(b[b[0]..], Take(b[..b[0]], configs).1);
    }
  }

  // ---- Round trip ----------------------------------------------------------------------------------------

  /** Standard descriptors, field by field. An endpoint record may carry two more bytes (audio class). */
  datatype EndpointDesc = EndpointDesc(
    address: uint8, attributes: uint8, maxPacketLow: uint8, maxPacketHigh: uint8, interval: uint8,
    audio: Option<(uint8, uint8)>)

  datatype InterfaceDesc = InterfaceDesc(
    number: uint8, alternate: uint8, numEndpoints: uint8, klass: uint8, subClass: uint8, protocol: uint8,
    text: uint8, endpoints: seq<EndpointDesc>)

  datatype ConfigDesc = ConfigDesc(
    totalLow: uint8, totalHigh: uint8, numInterfaces: uint8, value: uint8, text: uint8, attributes: uint8,
    maxPower: uint8, interfaces: seq<InterfaceDesc>)

  function EndpointRecord(e: EndpointDesc): Bytes {
    match e.audio
    case None => [7, 5, e.address, e.attributes, e.maxPacketLow, e.maxPacketHigh, e.interval]
    case Some((refresh, synch)) =>
      [9, 5, e.address, e.attributes, e.maxPacketLow, e.maxPacketHigh, e.interval, refresh, synch]
  }

  function EndpointRecords(es: seq<EndpointDesc>): seq<Bytes> {
    if es == [] then [] else EndpointRecords(es[..|es| - 1]) + [EndpointRecord(es[|es| - 1])]
  }

  function InterfaceRecords(i: InterfaceDesc): seq<Bytes> {
    [[9, 4, i.number, i.alternate, i.numEndpoints, i.klass, i.subClass, i.protocol, i.text]]
    + EndpointRecords(i.endpoints)
  }

  function AllInterfaceRecords(faces: seq<InterfaceDesc>): seq<Bytes> {
    if faces == [] then [] else AllInterfaceRecords(faces[..|faces| - 1]) + InterfaceRecords(faces[|faces| - 1])
  }

  function ConfigRecords(c: ConfigDesc): seq<Bytes> {
    [[9, 2, c.totalLow, c.totalHigh, c.numInterfaces, c.value, c.text, c.attributes, c.maxPower]]
    + AllInterfaceRecords(c.interfaces)
  }

  function TreeRecords(cs: seq<ConfigDesc>): seq<Bytes> {
    if cs == [] then [] else TreeRecords(cs[..|cs| - 1]) + ConfigRecords(cs[|cs| - 1])
  }

  /** The bytes a device sends for a descriptor tree. */
  function Encode(cs: seq<ConfigDesc>): Bytes {
    Concat(TreeRecords(cs))
  }

  // The tree the service should end up with.

  function EndpointOf(e: EndpointDesc, interfaceId: uint8): Endpoint {
    Endpoint(e.address, e.attributes, e.interval, e.maxPacketLow + 0x100 * e.maxPacketHigh, interfaceId)
  }

  function EndpointList(es: seq<EndpointDesc>, interfaceId: uint8): seq<Endpoint> {
    if es == [] then [] else EndpointList(es[..|es| - 1], interfaceId) + [EndpointOf(es[|es| - 1], interfaceId)]
  }

  function InterfaceOf(i: InterfaceDesc): Interface {
    Interface(i.number, i.protocol, i.klass, i.subClass, i.alternate, "", i.text,
              EndpointList(i.endpoints, i.number), true)
  }

  function InterfaceList(faces: seq<InterfaceDesc>): seq<Interface> {
    if faces == [] then [] else InterfaceList(faces[..|faces| - 1]) + [InterfaceOf(faces[|faces| - 1])]
  }

  function ConfigOf(c: ConfigDesc): Config {
    Config(c.value, c.attributes, c.maxPower, c.text, "", InterfaceList(c.interfaces))
  }

  function TreeOf(cs: seq<ConfigDesc>): seq<Config> {
    if cs == [] then [] else TreeOf(cs[..|cs| - 1]) + [ConfigOf(cs[|cs| - 1])]
  }

  lemma WithFacesTwice(configs: seq<Config>, faces: seq<Interface>, faces': seq<Interface>)
    requires configs != []
    ensures LastFaces(WithFaces(configs, faces)) == faces
    ensures WithFaces(WithFaces(configs, faces), faces') == WithFaces(configs, faces')
    ensures WithFaces(configs, LastFaces(configs)) == configs
  {
  }

  lemma {:induction false} ReadEndpoints(es: seq<EndpointDesc>, configs: seq<Config>, faces: seq<Interface>,
                                         i: Interface)
    requires configs != [] && i.endpoints == [] && 0 <= i.id < 0x100
    ensures Records(EndpointRecords(es))
    ensures Interpret(EndpointRecords(es), WithFaces(configs, faces + [i]))
            == (Ok, WithFaces(configs, faces + [i.(endpoints := EndpointList(es, i.id))]))
  {
    if es != [] {
      var front, e := es[..|es| - 1], es[|es| - 1];
      ReadEndpoints(front, configs, faces, i);
      InterpretSnoc(EndpointRecords(front), EndpointRecord(e), WithFaces(configs, faces + [i]));
      var j, j' := i.(endpoints := EndpointList(front, i.id)), i.(endpoints := EndpointList(es, i.id));
      assert ReadEndpoint(EndpointRecord(e), i.id) == EndpointOf(e, i.id);
      WithFacesTwice(configs, faces + [j], faces + [j']);
      assert (faces + [j])[|faces| := j'] == faces + [j'];
    }
  }

  lemma ReadInterfaceGroup(i: InterfaceDesc, configs: seq<Config>)
    requires configs != []
    ensures Records(InterfaceRecords(i))
    ensures Interpret(InterfaceRecords(i), configs) == (Ok, PushInterface(configs, InterfaceOf(i)))
  {
    var head: Bytes := [9, 4, i.number, i.alternate, i.numEndpoints, i.klass, i.subClass, i.protocol,
                        i.text];
    ReadEndpoints(i.endpoints, configs, LastFaces(configs), ReadInterface(head));
    assert InterfaceRecords(i)[1..] == EndpointRecords(i.endpoints);
    assert Take(head, configs) == (Ok, PushInterface(configs, ReadInterface(head)));
  }

  lemma {:induction false} ReadInterfaces(faces: seq<InterfaceDesc>, configs: seq<Config>)
    requires configs != [] && LastFaces(configs) == []
    ensures Records(AllInterfaceRecords(faces))
    ensures Interpret(AllInterfaceRecords(faces), configs) == (Ok, WithFaces(configs, InterfaceList(faces)))
  {
    WithFacesTwice(configs, [], []);
    if faces != [] {
      var front, i := faces[..|faces| - 1], faces[|faces| - 1];
      ReadInterfaces(front, configs);
      ReadInterfaceGroup(i, WithFaces(configs, InterfaceList(front)));
      InterpretAppend(AllInterfaceRecords(front), InterfaceRecords(i), configs);
      WithFacesTwice(configs, InterfaceList(front), InterfaceList(faces));
    }
  }

  lemma ReadConfigGroup(c: ConfigDesc, configs: seq<Config>)
    ensures Records(ConfigRecords(c))
    ensures Interpret(ConfigRecords(c), configs) == (Ok, configs + [ConfigOf(c)])
  {
    var head: Bytes := [9, 2, c.totalLow, c.totalHigh, c.numInterfaces, c.value, c.text, c.attributes,
                        c.maxPower];
    var grown := configs + [ReadConfig(head)];
    ReadInterfaces(c.interfaces, grown);
    assert ConfigRecords(c)[1..] == AllInterfaceRecords(c.interfaces);
    assert Take(head, configs) == (Ok, grown);
    assert WithFaces(grown, InterfaceList(c.interfaces)) == configs + [ConfigOf(c)];
  }

  lemma {:induction false} ReadTree(cs: seq<ConfigDesc>, configs: seq<Config>)
    ensures Records(TreeRecords(cs))
    ensures Interpret(TreeRecords(cs), configs) == (Ok, configs + TreeOf(cs))
  {
    if cs == [] {
      assert configs + TreeOf(cs) == configs;
    } else {
      var m := |cs| - 1;
      ReadTree(cs[..m], configs);
      ReadConfigGroup(cs[m], configs + TreeOf(cs[..m]));
      InterpretAppend(TreeRecords(cs[..m]), ConfigRecords(cs[m]), configs);
      assert configs + TreeOf(cs[..m]) + [ConfigOf(cs[m])] == configs + TreeOf(cs);
    }
  }

  /** Parsing the encoding of a tree, with any broken tail behind it, gives the tree back. */
  lemma RoundTrip(cs: seq<ConfigDesc>, tail: Bytes, configs: seq<Config>)
    requires |tail| < 2 || tail[0] < 2 || tail[0] > |tail|
    ensures Parse(Encode(cs) + tail, configs) == (Ok, configs + TreeOf(cs))
  {
    ReadTree(cs, configs);
    FramesUnique(TreeRecords(cs), tail);
    ParseReadsFrames(Encode(cs) + tail, configs);
  }

  // ---- The device descriptor -----------------------------------------------------------------------------

  datatype DeviceDesc = DeviceDesc(
    bcdUSB: uint16, klass: uint8, subClass: uint8, protocol: uint8, maxPacketSize0: uint8, vendor: uint16,
    product: uint16, bcdDevice: uint16, manufacturerText: uint8, productText: uint8, serialText: uint8,
    numConfigurations: uint8)

  function Low(n: uint16): uint8 { n % 0x100 }

  function High(n: uint16): uint8 { n / 0x100 }

  /** Section 9.6.1; the parser looks at the length byte but not at the type byte. */
  function EncodeDevice(d: DeviceDesc, typeByte: uint8): Bytes {
    [18, typeByte, Low(d.bcdUSB), High(d.bcdUSB), d.klass, d.subClass, d.protocol, d.maxPacketSize0,
     Low(d.vendor), High(d.vendor), Low(d.product), High(d.product), Low(d.bcdDevice), High(d.bcdDevice),
     d.manufacturerText, d.productText, d.serialText, d.numConfigurations]
  }

  lemma WordParts(low: uint8, high: uint8)
    ensures Low(Word(low, high)) == low && High(Word(low, high)) == high
  {
  }

  lemma DeviceRecordOf(b: Bytes) returns (d: DeviceDesc)
    requires |b| >= 18 && b[0] == 18
    ensures b == EncodeDevice(d, b[1]) + b[18..]
  {
    d := DeviceDesc(Word(b[2], b[3]), b[4], b[5], b[6], b[7], Word(b[8], b[9]), Word(b[10], b[11]),
                    Word(b[12], b[13]), b[14], b[15], b[16], b[17]);
    forall low: uint8, high: uint8 ensures Low(Word(low, high)) == low && High(Word(low, high)) == high {
      WordParts(low, high);
    }
    assert b[..18] == EncodeDevice(d, b[1]);
  }

  /** Exactly the buffers that begin with such a record are accepted; any other leaves the device as it was. */
  lemma DeviceAcceptedIff(b: Bytes, dev: Device)
    ensures ParseDevice(b, dev).0 == Ok <==> exists d, typeByte, rest :: b == EncodeDevice(d, typeByte) + rest
    ensures ParseDevice(b, dev).0 != Ok ==> ParseDevice(b, dev).1 == dev
  {
    if |b| >= 18 && b[0] == 18 {
      var d := DeviceRecordOf(b);
    }
    if d, typeByte, rest :| b == EncodeDevice(d, typeByte) + rest {
      DeviceRoundTrip(d, typeByte, rest, dev);
    }
  }

  lemma DeviceRoundTrip(d: DeviceDesc, typeByte: uint8, rest: Bytes, dev: Device)
    ensures ParseDevice(EncodeDevice(d, typeByte) + rest, dev) == (Ok, dev.(
      vendorId := d.vendor, productId := d.product, baseClass := d.klass, subClass := d.subClass,
      protocol := d.protocol, descConfigCount := d.numConfigurations, maxPacketSize0 := d.maxPacketSize0,
      bcdDevice := d.bcdDevice, bcdUSB := d.bcdUSB, iManufacturer := d.manufacturerText,
      iProduct := d.productText, iSerialNumber := d.serialText))
  {
    var b := EncodeDevice(d, typeByte) + rest;
    assert b[..DEVICE_SIZE] == EncodeDevice(d, typeByte);
    assert forall k :: 0 <= k < DEVICE_SIZE ==> b[k] == b[..DEVICE_SIZE][k];
  }
}
