/** The marshalling methods as they run: field by field into a parcel, in loops over the lists. */
module ParcelService {
  import opened UsbTypes
  import opened ParcelCodec

  /** What was written, in front of `rest`. */
  ghost function Before(written: seq<Cell>, rest: Cells): Cells {
    if written == [] then rest else Before(written[..|written| - 1], Next(written[|written| - 1], rest))
  }

  ghost function From(cells: seq<Cell>, k: nat): Cells
    decreases |cells| - k
  {
    if k >= |cells| then End else Next(cells[k], From(cells, k + 1))
  }

  lemma WriteOne(written: seq<Cell>, c: Cell)
    ensures forall rest :: Before(written, Next(c, rest)) == Before(written + [c], rest)
  {
    assert (written + [c])[..|written|] == written;
  }

  lemma {:induction false} BeforeIsFrom(cells: seq<Cell>, k: nat)
    requires k <= |cells|
    ensures Before(cells[..k], From(cells, k)) == From(cells, 0)
  {
    if k > 0 {
      assert cells[..k][..k - 1] == cells[..k - 1];
      BeforeIsFrom(cells, k - 1);
    }
  }

  /** None of the `n` writes from the one numbered `from` is refused. */
  ghost predicate Accepted(refuses: nat -> bool, from: nat, n: nat) {
    forall k :: from <= k < from + n ==> !refuses(k)
  }

  /** How many writes were tried and how many cells are there. */
  datatype Mark = Mark(writes: nat, cells: nat)

  /** Something that takes `cost` writes was written: all of it if none of them is refused, and less otherwise. */
  ghost predicate Took(refuses: nat -> bool, before: Mark, now: Mark, cost: nat) {
    && before.writes <= now.writes <= before.writes + cost
    && if Accepted(refuses, before.writes, cost) then now == Mark(before.writes + cost, before.cells + cost)
       else now.cells < before.cells + cost
  }

  /** What was first written short stays short, whatever follows. */
  lemma TookBoth(refuses: nat -> bool, before: Mark, mid: Mark, now: Mark, m: nat, n: nat)
    requires Took(refuses, before, mid, m) && Took(refuses, mid, now, n)
    ensures Took(refuses, before, now, m + n)
    ensures Accepted(refuses, before.writes, m + n) ==>
              Accepted(refuses, before.writes, m) && Accepted(refuses, mid.writes, n)
  {
  }

  lemma TookOneMore<T>(refuses: nat -> bool, before: Mark, mid: Mark, now: Mark, cost: T -> nat, xs: seq<T>, n: nat)
    requires n < |xs|
    requires Took(refuses, before, mid, Total(cost, xs[..n])) && Took(refuses, mid, now, cost(xs[n]))
    ensures Took(refuses, before, now, Total(cost, xs[..n + 1]))
    ensures Accepted(refuses, before.writes, Total(cost, xs[..n + 1])) ==>
              Accepted(refuses, before.writes, Total(cost, xs[..n])) && Accepted(refuses, mid.writes, cost(xs[n]))
  {
    assert xs[..n + 1] == xs[..n] + [xs[n]];
    TotalAppend(cost, xs[..n], xs[n]);
    TookBoth(refuses, before, mid, now, Total(cost, xs[..n]), cost(xs[n]));
  }

  lemma {:induction false} BeforeLength(written: seq<Cell>, rest: Cells)
    ensures Length(Before(written, rest)) == |written| + Length(rest)
  {
    if written != [] {
      BeforeLength(written[..|written| - 1], Next(written[|written| - 1], rest));
    }
  }

  class Parcel {
    /** Which writes, counted from the first, find no room. */
    const refuses: nat -> bool
    var writes: nat
    var cells: seq<Cell>
    var cursor: nat
    ghost var unread: Cells

    ghost function Here(): Mark
      reads this
    {
      Mark(writes, |cells|)
    }

    constructor (refuses: nat -> bool)
      ensures cells == [] && Valid() && writes == 0 && this.refuses == refuses
    {
      this.refuses := refuses;
      writes := 0;
      cells, cursor, unread := [], 0, End;
    }

    ghost predicate Valid()
      reads this
    {
      cursor <= |cells| && unread == From(cells, cursor)
    }

    /** Moves the read cursor to the front. */
    method Rewind()
      modifies this`cursor, this`unread
      ensures Valid() && unread == Before(cells, End)
    {
      cursor, unread := 0, From(cells, 0);
      BeforeIsFrom(cells, |cells|);
      assert cells[..|cells|] == cells;
    }

    method WriteUint32(n: uint32) returns (ok: bool)
      modifies this`cells, this`writes
      ensures writes == old(writes) + 1 && ok == !refuses(old(writes))
      ensures |cells| == old(|cells|) + if ok then 1 else 0
      ensures if ok then forall rest :: Before(old(cells), PutUint(n, rest)) == Before(cells, rest)
              else cells == old(cells)
    {
      ok := !refuses(writes);
      writes := writes + 1;
      if !ok {
        return;
      }
      WriteOne(cells, Word(n));
      cells := cells + [Word(n)];
    }

    method WriteInt32(v: int32) returns (ok: bool)
      modifies this`cells, this`writes
      ensures writes == old(writes) + 1 && ok == !refuses(old(writes))
      ensures |cells| == old(|cells|) + if ok then 1 else 0
      ensures if ok then forall rest :: Before(old(cells), PutInt(v, rest)) == Before(cells, rest)
              else cells == old(cells)
    {
      ok := !refuses(writes);
      writes := writes + 1;
      if !ok {
        return;
      }
      WriteOne(cells, Word(Unsigned(v)));
      cells := cells + [Word(Unsigned(v))];
    }

    method WriteString(s: string) returns (ok: bool)
      modifies this`cells, this`writes
      ensures writes == old(writes) + 1 && ok == !refuses(old(writes))
      ensures |cells| == old(|cells|) + if ok then 1 else 0
      ensures if ok then forall rest :: Before(old(cells), PutText(s, rest)) == Before(cells, rest)
              else cells == old(cells)
    {
      ok := !refuses(writes);
      writes := writes + 1;
      if !ok {
        return;
      }
      WriteOne(cells, Text(s));
      cells := cells + [Text(s)];
    }

    method ReadUint32() returns (n: uint32)
      requires Valid()
      modifies this`cursor, this`unread
      ensures Valid() && (n, unread) == GetWord(old(unread))
    {
      if cursor < |cells| && cells[cursor].Word? {
        n := cells[cursor].n;
        cursor, unread := cursor + 1, unread.rest;
      } else {
        n := 0;
      }
    }

    method ReadInt32() returns (v: int32)
      requires Valid()
      modifies this`cursor, this`unread
      ensures Valid() && (v, unread) == GetInt32(old(unread))
    {
      var n := ReadUint32();
      v := Signed(n);
    }

    method ReadUint16() returns (v: uint16)
      requires Valid()
      modifies this`cursor, this`unread
      ensures Valid() && (v, unread) == GetUint16(old(unread))
    {
      var n := ReadUint32();
      v := n % 0x1_0000;
    }

    method ReadUint8() returns (v: uint8)
      requires Valid()
      modifies this`cursor, this`unread
      ensures Valid() && (v, unread) == GetUint8(old(unread))
    {
      var n := ReadUint32();
      v := n % 0x100;
    }

    method ReadString() returns (s: string)
      requires Valid()
      modifies this`cursor, this`unread
      ensures Valid() && (s, unread) == GetText(old(unread))
    {
      if cursor < |cells| && cells[cursor].Text? {
        s := cells[cursor].s;
        cursor, unread := cursor + 1, unread.rest;
      } else {
        s := "";
      }
    }
  }

  /** Fewer cells than the device takes cannot be its encoding. */
  lemma InFullIfLongEnough(was: seq<Cell>, now: seq<Cell>, d: Device)
    ensures Before(was, PutDevice(d, End)) == Before(now, End) ==> |now| == |was| + DeviceCost(d)
  {
    DeviceLength(d, End);
    BeforeLength(was, PutDevice(d, End));
    BeforeLength(now, End);
  }

  /** The first `n` elements of a list. */
  ghost predicate Written<T(!new)>(was: seq<Cell>, put: (T, Cells) -> Cells, xs: seq<T>, n: nat, now: seq<Cell>)
    requires n <= |xs|
  {
    forall rest :: Before(was, PutList(put, xs, rest)) == Before(now, PutList(put, xs[n..], rest))
  }

  lemma WrittenAll<T(!new)>(was: seq<Cell>, put: (T, Cells) -> Cells, xs: seq<T>, now: seq<Cell>)
    requires Written(was, put, xs, |xs|, now)
    ensures forall rest :: Before(was, PutList(put, xs, rest)) == Before(now, rest)
  {
    assert xs[|xs|..] == [];
    forall rest ensures Before(was, PutList(put, xs, rest)) == Before(now, rest) {
      assert PutList(put, xs[|xs|..], rest) == rest;
    }
  }

  lemma WrittenOneMore<T(!new)>(was: seq<Cell>, put: (T, Cells) -> Cells, xs: seq<T>, n: nat, mid: seq<Cell>,
                                now: seq<Cell>)
    requires n < |xs| && Written(was, put, xs, n, mid)
    requires forall rest :: Before(mid, put(xs[n], rest)) == Before(now, rest)
    ensures Written(was, put, xs, n + 1, now)
  {
    forall rest ensures Before(was, PutList(put, xs, rest)) == Before(now, PutList(put, xs[n + 1..], rest)) {
      assert xs[n..][1..] == xs[n + 1..];
      assert Before(mid, put(xs[n], PutList(put, xs[n + 1..], rest))) == Before(now, PutList(put, xs[n + 1..], rest));
    }
  }

  // ---- Writing --------------------------------------------------------------------------------------------

  method MarshalEndpoint(e: Endpoint, p: Parcel) returns (ok: bool)
    modifies p`cells, p`writes
    ensures ok <==> Accepted(p.refuses, old(p.writes), 5)
    ensures Took(p.refuses, old(p.Here()), p.Here(), 5)
    ensures ok ==> forall rest :: Before(old(p.cells), PutEndpoint(e, rest)) == Before(p.cells, rest)
  {
    ok := p.WriteUint32(e.address);
    if !ok {
      return;
    }
    ok := p.WriteUint32(e.attributes);
    if !ok {
      return;
    }
    ok := p.WriteInt32(e.interval);
    if !ok {
      return;
    }
    ok := p.WriteInt32(e.maxPacketSize);
    if !ok {
      return;
    }
    ok := p.WriteUint32(e.interfaceId);
  }

  /** What the nested calls answer is not looked at. */
  method MarshalEndpoints(es: seq<Endpoint>, count: uint32, p: Parcel)
    requires count == |es| % TWO_32
    modifies p`cells, p`writes
    ensures Took(p.refuses, old(p.Here()), p.Here(), Total(EndpointCost, es[..Kept(|es|)]))
    ensures Accepted(p.refuses, old(p.writes), Total(EndpointCost, es[..Kept(|es|)])) ==>
              forall rest ::
                Before(old(p.cells), PutList(PutEndpoint, es[..Kept(|es|)], rest)) == Before(p.cells, rest)
  {
    ghost var kept := es[..Kept(|es|)];
    ghost var start := p.cells;
    var n := 0;
    while n < count && n < LIST_MAX
      invariant n <= |kept|
      invariant Took(p.refuses, old(p.Here()), p.Here(), Total(EndpointCost, kept[..n]))
      invariant Accepted(p.refuses, old(p.writes), Total(EndpointCost, kept[..n])) ==>
        Written(start, PutEndpoint, kept, n, p.cells)
    {
      ghost var mid, cells := p.Here(), p.cells;
      var _ := MarshalEndpoint(es[n], p);
      TookOneMore(p.refuses, old(p.Here()), mid, p.Here(), EndpointCost, kept, n);
      if Accepted(p.refuses, old(p.writes), Total(EndpointCost, kept[..n + 1])) {
        WrittenOneMore(start, PutEndpoint, kept, n, cells, p.cells);
      }
      n := n + 1;
    }
    assert kept[..n] == kept;
    if Accepted(p.refuses, old(p.writes), Total(EndpointCost, kept)) {
      WrittenAll(start, PutEndpoint, kept, p.cells);
    }
  }

  method MarshalClass(i: Interface, p: Parcel) returns (ok: bool)
    modifies p`cells, p`writes
    ensures ok <==> Accepted(p.refuses, old(p.writes), 5)
    ensures Took(p.refuses, old(p.Here()), p.Here(), 5)
    ensures ok ==> forall rest :: Before(old(p.cells), PutClass(i, rest)) == Before(p.cells, rest)
  {
    ok := p.WriteInt32(i.id);
    if !ok {
      return;
    }
    ok := p.WriteInt32(i.protocol);
    if !ok {
      return;
    }
    ok := p.WriteInt32(i.klass);
    if !ok {
      return;
    }
    ok := p.WriteInt32(i.subClass);
    if !ok {
      return;
    }
    ok := p.WriteInt32(i.alternateSetting);
  }

  method MarshalInterface(i: Interface, p: Parcel) returns (ok: bool)
    modifies p`cells, p`writes
    ensures ok <==> Accepted(p.refuses, old(p.writes), 8)
    ensures Took(p.refuses, old(p.Here()), p.Here(), InterfaceCost(i))
    ensures Accepted(p.refuses, old(p.writes), InterfaceCost(i)) ==>
              forall rest :: Before(old(p.cells), PutInterface(i, rest)) == Before(p.cells, rest)
  {
    ok := MarshalClass(i, p);
    if !ok {
      return;
    }
    ok := p.WriteString(i.name);
    if !ok {
      return;
    }
    ok := p.WriteUint32(i.iInterface);
    if !ok {
      return;
    }
    var epCount: uint32 := |i.endpoints| % TWO_32;
    ok := p.WriteUint32(epCount);
    if !ok {
      return;
    }
    ghost var mid := p.Here();
    MarshalEndpoints(i.endpoints, epCount, p);
    TookBoth(p.refuses, old(p.Here()), mid, p.Here(), 8, InterfaceCost(i) - 8);
    ok := true;
  }

  /** What the nested calls answer is not looked at. */
  method MarshalInterfaces(faces: seq<Interface>, count: uint32, p: Parcel)
    requires count == |faces| % TWO_32
    modifies p`cells, p`writes
    ensures Took(p.refuses, old(p.Here()), p.Here(), Total(InterfaceCost, faces[..Kept(|faces|)]))
    ensures Accepted(p.refuses, old(p.writes), Total(InterfaceCost, faces[..Kept(|faces|)])) ==>
              forall rest ::
                Before(old(p.cells), PutList(PutInterface, faces[..Kept(|faces|)], rest)) == Before(p.cells, rest)
  {
    ghost var kept := faces[..Kept(|faces|)];
    ghost var start := p.cells;
    var n := 0;
    while n < count && n < LIST_MAX
      invariant n <= |kept|
      invariant Took(p.refuses, old(p.Here()), p.Here(), Total(InterfaceCost, kept[..n]))
      invariant Accepted(p.refuses, old(p.writes), Total(InterfaceCost, kept[..n])) ==>
        Written(start, PutInterface, kept, n, p.cells)
    {
      ghost var mid, cells := p.Here(), p.cells;
      var _ := MarshalInterface(faces[n], p);
      TookOneMore(p.refuses, old(p.Here()), mid, p.Here(), InterfaceCost, kept, n);
      if Accepted(p.refuses, old(p.writes), Total(InterfaceCost, kept[..n + 1])) {
        WrittenOneMore(start, PutInterface, kept, n, cells, p.cells);
      }
      n := n + 1;
    }
    assert kept[..n] == kept;
    if Accepted(p.refuses, old(p.writes), Total(InterfaceCost, kept)) {
      WrittenAll(start, PutInterface, kept, p.cells);
    }
  }

  method MarshalHeader(c: Config, p: Parcel) returns (ok: bool)
    modifies p`cells, p`writes
    ensures ok <==> Accepted(p.refuses, old(p.writes), 5)
    ensures Took(p.refuses, old(p.Here()), p.Here(), 5)
    ensures ok ==> forall rest :: Before(old(p.cells), PutHeader(c, rest)) == Before(p.cells, rest)
  {
    ok := p.WriteInt32(c.id);
    if !ok {
      return;
    }
    ok := p.WriteUint32(c.attributes);
    if !ok {
      return;
    }
    ok := p.WriteInt32(c.maxPower);
    if !ok {
      return;
    }
    ok := p.WriteUint32(c.iConfiguration);
    if !ok {
      return;
    }
    ok := p.WriteString(c.name);
  }

  method MarshalConfig(c: Config, p: Parcel) returns (ok: bool)
    modifies p`cells, p`writes
    ensures ok <==> Accepted(p.refuses, old(p.writes), 6)
    ensures Took(p.refuses, old(p.Here()), p.Here(), ConfigCost(c))
    ensures Accepted(p.refuses, old(p.writes), ConfigCost(c)) ==>
              forall rest :: Before(old(p.cells), PutConfig(c, rest)) == Before(p.cells, rest)
  {
    ok := MarshalHeader(c, p);
    if !ok {
      return;
    }
    var infCount: uint32 := |c.interfaces| % TWO_32;
    ok := p.WriteUint32(infCount);
    if !ok {
      return;
    }
    ghost var mid := p.Here();
    MarshalInterfaces(c.interfaces, infCount, p);
    TookBoth(p.refuses, old(p.Here()), mid, p.Here(), 6, ConfigCost(c) - 6);
    ok := true;
  }

  /** What the nested calls answer is not looked at. */
  method MarshalConfigs(cs: seq<Config>, count: uint32, p: Parcel)
    requires count == |cs| % TWO_32
    modifies p`cells, p`writes
    ensures Took(p.refuses, old(p.Here()), p.Here(), Total(ConfigCost, cs[..Kept(|cs|)]))
    ensures Accepted(p.refuses, old(p.writes), Total(ConfigCost, cs[..Kept(|cs|)])) ==>
              forall rest ::
                Before(old(p.cells), PutList(PutConfig, cs[..Kept(|cs|)], rest)) == Before(p.cells, rest)
  {
    ghost var kept := cs[..Kept(|cs|)];
    ghost var start := p.cells;
    var n := 0;
    while n < count && n < LIST_MAX
      invariant n <= |kept|
      invariant Took(p.refuses, old(p.Here()), p.Here(), Total(ConfigCost, kept[..n]))
      invariant Accepted(p.refuses, old(p.writes), Total(ConfigCost, kept[..n])) ==>
        Written(start, PutConfig, kept, n, p.cells)
    {
      ghost var mid, cells := p.Here(), p.cells;
      var _ := MarshalConfig(cs[n], p);
      TookOneMore(p.refuses, old(p.Here()), mid, p.Here(), ConfigCost, kept, n);
      if Accepted(p.refuses, old(p.writes), Total(ConfigCost, kept[..n + 1])) {
        WrittenOneMore(start, PutConfig, kept, n, cells, p.cells);
      }
      n := n + 1;
    }
    assert kept[..n] == kept;
    if Accepted(p.refuses, old(p.writes), Total(ConfigCost, kept)) {
      WrittenAll(start, PutConfig, kept, p.cells);
    }
  }

  method MarshalIds(d: Device, p: Parcel) returns (ok: bool)
    modifies p`cells, p`writes
    ensures ok <==> Accepted(p.refuses, old(p.writes), 7)
    ensures Took(p.refuses, old(p.Here()), p.Here(), 7)
    ensures ok ==> forall rest :: Before(old(p.cells), PutIds(d, rest)) == Before(p.cells, rest)
  {
    ok := p.WriteUint32(d.busNum);
    if !ok {
      return;
    }
    ok := p.WriteUint32(d.devAddr);
    if !ok {
      return;
    }
    ok := p.WriteInt32(d.vendorId);
    if !ok {
      return;
    }
    ok := p.WriteInt32(d.productId);
    if !ok {
      return;
    }
    ok := p.WriteInt32(d.baseClass);
    if !ok {
      return;
    }
    ok := p.WriteInt32(d.subClass);
    if !ok {
      return;
    }
    ok := p.WriteInt32(d.protocol);
  }

  method MarshalIndices(d: Device, p: Parcel) returns (ok: bool)
    modifies p`cells, p`writes
    ensures ok <==> Accepted(p.refuses, old(p.writes), 6)
    ensures Took(p.refuses, old(p.Here()), p.Here(), 6)
    ensures ok ==> forall rest :: Before(old(p.cells), PutIndices(d, rest)) == Before(p.cells, rest)
  {
    ok := p.WriteUint32(d.iManufacturer);
    if !ok {
      return;
    }
    ok := p.WriteUint32(d.iProduct);
    if !ok {
      return;
    }
    ok := p.WriteUint32(d.iSerialNumber);
    if !ok {
      return;
    }
    ok := p.WriteUint32(d.maxPacketSize0);
    if !ok {
      return;
    }
    ok := p.WriteUint32(d.bcdUSB);
    if !ok {
      return;
    }
    ok := p.WriteUint32(d.bcdDevice);
  }

  method MarshalTexts(d: Device, p: Parcel) returns (ok: bool)
    modifies p`cells, p`writes
    ensures ok <==> Accepted(p.refuses, old(p.writes), 5)
    ensures Took(p.refuses, old(p.Here()), p.Here(), 5)
    ensures ok ==> forall rest :: Before(old(p.cells), PutTexts(d, rest)) == Before(p.cells, rest)
  {
    ok := p.WriteString(d.name);
    if !ok {
      return;
    }
    ok := p.WriteString(d.manufacturerName);
    if !ok {
      return;
    }
    ok := p.WriteString(d.productName);
    if !ok {
      return;
    }
    ok := p.WriteString(d.version);
    if !ok {
      return;
    }
    ok := p.WriteString(d.serial);
  }

  /** The device's own 19 fields, the last of them the number of its configurations. */
  method MarshalFields(d: Device, p: Parcel) returns (ok: bool)
    modifies p`cells, p`writes
    ensures ok <==> Accepted(p.refuses, old(p.writes), 19)
    ensures Took(p.refuses, old(p.Here()), p.Here(), 19)
    ensures ok ==> forall rest ::
              Before(old(p.cells), PutIds(d, PutIndices(d, PutTexts(d, PutUint(|d.configs| % TWO_32, rest)))))
              == Before(p.cells, rest)
  {
    ok := MarshalIds(d, p);
    if !ok {
      return;
    }
    ok := MarshalIndices(d, p);
    if !ok {
      return;
    }
    ok := MarshalTexts(d, p);
    if !ok {
      return;
    }
    ok := p.WriteUint32(|d.configs| % TWO_32);
  }

  /** The answer speaks of the device's own 19 writes only; the encoding is there in full exactly if none of all the
      device's writes is refused. */
  method MarshalDevice(d: Device, p: Parcel) returns (ok: bool)
    modifies p`cells, p`writes
    ensures ok <==> Accepted(p.refuses, old(p.writes), 19)
    ensures Took(p.refuses, old(p.Here()), p.Here(), DeviceCost(d))
    ensures (forall rest :: Before(old(p.cells), PutDevice(d, rest)) == Before(p.cells, rest))
            <==> Accepted(p.refuses, old(p.writes), DeviceCost(d))
  {
    ok := MarshalFields(d, p);
    if ok {
      ghost var mid := p.Here();
      MarshalConfigs(d.configs, |d.configs| % TWO_32, p);
      TookBoth(p.refuses, old(p.Here()), mid, p.Here(), 19, DeviceCost(d) - 19);
    }
    InFullIfLongEnough(old(p.cells), p.cells, d);
  }

  // ---- Reading --------------------------------------------------------------------------------------------

  method UnmarshalEndpoint(p: Parcel) returns (e: Endpoint)
    requires p.Valid()
    modifies p`cursor, p`unread
    ensures p.Valid() && (e, p.unread) == GetEndpoint(old(p.unread))
  {
    var address := p.ReadUint32();
    var attributes := p.ReadUint32();
    var interval := p.ReadInt32();
    var maxPacketSize := p.ReadInt32();
    var interfaceId := p.ReadUint8();
    e := Endpoint(address, attributes, interval, maxPacketSize, interfaceId);
  }

  method UnmarshalEndpoints(count: uint32, p: Parcel) returns (es: seq<Endpoint>)
    requires p.Valid()
    modifies p`cursor, p`unread
    ensures p.Valid() && (es, p.unread) == GetList(GetEndpoint, Cap(count), old(p.unread))
  {
    es := [];
    ghost var all := GetList(GetEndpoint, Cap(count), p.unread);
    ReadNone(GetEndpoint, Cap(count), p.unread);
    var n := 0;
    while n < count && n < LIST_MAX
      invariant p.Valid() && n <= Cap(count)
      invariant StillToRead(GetEndpoint, es, Cap(count) - n, p.unread, all)
    {
      ghost var cells := p.unread;
      var item := UnmarshalEndpoint(p);
      ReadOneMore(GetEndpoint, es, Cap(count) - n, cells, item, p.unread, all);
      es := es + [item];
      n := n + 1;
    }
    ReadAll(GetEndpoint, es, p.unread, all);
  }

  method UnmarshalInterface(p: Parcel) returns (i: Interface)
    requires p.Valid()
    modifies p`cursor, p`unread
    ensures p.Valid() && (i, p.unread) == GetInterface(old(p.unread))
  {
    var id := p.ReadInt32();
    var protocol := p.ReadInt32();
    var klass := p.ReadInt32();
    var subClass := p.ReadInt32();
    var alternateSetting := p.ReadInt32();
    var name := p.ReadString();
    var iInterface := p.ReadUint8();
    var epCount := p.ReadUint32();
    var endpoints := UnmarshalEndpoints(epCount, p);
    i := Interface(id, protocol, klass, subClass, alternateSetting, name, iInterface, endpoints, true);
  }

  method UnmarshalInterfaces(count: uint32, p: Parcel) returns (faces: seq<Interface>)
    requires p.Valid()
    modifies p`cursor, p`unread
    ensures p.Valid() && (faces, p.unread) == GetList(GetInterface, Cap(count), old(p.unread))
  {
    faces := [];
    ghost var all := GetList(GetInterface, Cap(count), p.unread);
    ReadNone(GetInterface, Cap(count), p.unread);
    var n := 0;
    while n < count && n < LIST_MAX
      invariant p.Valid() && n <= Cap(count)
      invariant StillToRead(GetInterface, faces, Cap(count) - n, p.unread, all)
    {
      ghost var cells := p.unread;
      var item := UnmarshalInterface(p);
      ReadOneMore(GetInterface, faces, Cap(count) - n, cells, item, p.unread, all);
      faces := faces + [item];
      n := n + 1;
    }
    ReadAll(GetInterface, faces, p.unread, all);
  }

  method UnmarshalConfig(p: Parcel) returns (c: Config)
    requires p.Valid()
    modifies p`cursor, p`unread
    ensures p.Valid() && (c, p.unread) == GetConfig(old(p.unread))
  {
    var id := p.ReadInt32();
    var attributes := p.ReadUint32();
    var maxPower := p.ReadInt32();
    var iConfiguration := p.ReadUint8();
    var name := p.ReadString();
    var infCount := p.ReadUint32();
    var interfaces := UnmarshalInterfaces(infCount, p);
    c := Config(id, attributes, maxPower, iConfiguration, name, interfaces);
  }

  method UnmarshalConfigs(count: uint32, p: Parcel) returns (cs: seq<Config>)
    requires p.Valid()
    modifies p`cursor, p`unread
    ensures p.Valid() && (cs, p.unread) == GetList(GetConfig, Cap(count), old(p.unread))
  {
    cs := [];
    ghost var all := GetList(GetConfig, Cap(count), p.unread);
    ReadNone(GetConfig, Cap(count), p.unread);
    var n := 0;
    while n < count && n < LIST_MAX
      invariant p.Valid() && n <= Cap(count)
      invariant StillToRead(GetConfig, cs, Cap(count) - n, p.unread, all)
    {
      ghost var cells := p.unread;
      var item := UnmarshalConfig(p);
      ReadOneMore(GetConfig, cs, Cap(count) - n, cells, item, p.unread, all);
      cs := cs + [item];
      n := n + 1;
    }
    ReadAll(GetConfig, cs, p.unread, all);
  }

  method UnmarshalIds(d0: Device, p: Parcel) returns (d: Device)
    requires p.Valid()
    modifies p`cursor, p`unread
    ensures p.Valid() && (d, p.unread) == GetIds(d0, old(p.unread))
  {
    var busNum := p.ReadUint8();
    var devAddr := p.ReadUint8();
    var vendorId := p.ReadInt32();
    var productId := p.ReadInt32();
    var baseClass := p.ReadInt32();
    var subClass := p.ReadInt32();
    var protocol := p.ReadInt32();
    d := d0.(busNum := busNum, devAddr := devAddr, vendorId := vendorId, productId := productId,
             baseClass := baseClass, subClass := subClass, protocol := protocol);
  }

  method UnmarshalIndices(d0: Device, p: Parcel) returns (d: Device)
    requires p.Valid()
    modifies p`cursor, p`unread
    ensures p.Valid() && (d, p.unread) == GetIndices(d0, old(p.unread))
  {
    var iManufacturer := p.ReadUint8();
    var iProduct := p.ReadUint8();
    var iSerialNumber := p.ReadUint8();
    var maxPacketSize0 := p.ReadUint8();
    var bcdUSB := p.ReadUint16();
    var bcdDevice := p.ReadUint16();
    d := d0.(iManufacturer := iManufacturer, iProduct := iProduct, iSerialNumber := iSerialNumber,
             maxPacketSize0 := maxPacketSize0, bcdUSB := bcdUSB, bcdDevice := bcdDevice);
  }

  method UnmarshalTexts(d0: Device, p: Parcel) returns (d: Device)
    requires p.Valid()
    modifies p`cursor, p`unread
    ensures p.Valid() && (d, p.unread) == GetTexts(d0, old(p.unread))
  {
    var name := p.ReadString();
    var manufacturerName := p.ReadString();
    var productName := p.ReadString();
    var version := p.ReadString();
    var serial := p.ReadString();
    d := d0.(name := name, manufacturerName := manufacturerName, productName := productName, version := version,
             serial := serial);
  }

  method UnmarshalDevice(p: Parcel) returns (d: Device)
    requires p.Valid()
    modifies p`cursor, p`unread
    ensures p.Valid() && (d, p.unread) == GetDevice(old(p.unread))
  {
    d := UnmarshalIds(BLANK, p);
    d := UnmarshalIndices(d, p);
    d := UnmarshalTexts(d, p);
    var configCount := p.ReadUint32();
    var configs := UnmarshalConfigs(configCount, p);
    d := d.(configs := configs);
  }

  /** A device and whatever else the message carries. */
  method WriteMessage(d: Device, after: string, p: Parcel) returns (ok: bool)
    modifies p`cells, p`writes
    ensures ok ==> Accepted(p.refuses, old(p.writes), 19)
    ensures if Accepted(p.refuses, old(p.writes), DeviceCost(d) + 1)
            then ok && Before(old(p.cells), PutDevice(d, PutText(after, End))) == Before(p.cells, End)
            else |p.cells| <= |old(p.cells)| + DeviceCost(d)
  {
    ok := MarshalDevice(d, p);
    if ok {
      ok := p.WriteString(after);
      assert PutText(after, End) == Next(Text(after), End);
    }
  }

  /** If no write is refused, a device sent and received is the device cut to what travels, and what was sent after it
      is still unread; otherwise cells are missing from the parcel, even if all is reported as written. */
  method SendDevice(d: Device, after: string, refuses: nat -> bool) returns (received: Device, ok: bool, p: Parcel)
    ensures fresh(p) && p.Valid() && p.refuses == refuses && (ok ==> Accepted(refuses, 0, 19))
    ensures if Accepted(refuses, 0, DeviceCost(d) + 1)
            then ok && received == CutDevice(d) && p.unread == PutText(after, End)
            else |p.cells| <= DeviceCost(d)
  {
    p := new Parcel(refuses);
    ok := WriteMessage(d, after, p);
    p.Rewind();
    received := UnmarshalDevice(p);
    DeviceRoundTrip(d, PutText(after, End));
  }

  lemma ConfigsCost(d: Device)
    requires 0 < |d.configs| < TWO_32
    ensures DeviceCost(d) > 19
  {
    assert Total(ConfigCost, d.configs[..Kept(|d.configs|)]) >= ConfigCost(d.configs[0]);
  }

  /** A device with a configuration is reported as written although part of it is missing. */
  method LoseSilently(d: Device) returns (ok: bool, p: Parcel)
    requires 0 < |d.configs| < TWO_32
    ensures fresh(p) && ok && |p.cells| < DeviceCost(d) && Before(p.cells, End) != PutDevice(d, End)
  {
    p := new Parcel(n => n == 19);
    ok := MarshalDevice(d, p);
    ConfigsCost(d);
    assert p.refuses(19);
    InFullIfLongEnough([], p.cells, d);
  }
}
