/** The host manager: its device table, changed in place by nested loops over devices, interfaces, rules and the
    unordered pattern tables.  Each loop is proved to be the pass that `HostPolicy` defines for one device. */
module HostManager {
  import opened UsbTypes
  import opened DeviceKeys
  import opened KeyedMaps
  import opened TypeTables
  import opened HostPolicy
  import opened HostBroadcasts
  import opened HostTables
  import opened HostTrust
  import opened HostReviews
  import opened HostRuns
  import opened KeyOrder

  datatype Reply = Ok | InvalidValue | HalError | ExecutePolicyFailed

  lemma NameInjective(name: UsbDev -> string)
    requires forall u :: name(u) == DeviceKey(u.busNum, u.devAddr)
    ensures Injective(name)
  {
    forall u, v | name(u) == name(v) ensures u == v {
      DeviceKeyInjective(u.busNum, u.devAddr, v.busNum, v.devAddr);
    }
  }

  // ---- The loops over interfaces and rules ----------------------------------------------------------------

  method AuthorizeFaces(p: Pattern, disable: bool, faces: seq<Interface>) returns (faces': seq<Interface>)
    ensures faces' == FacesStep(p, disable, faces)
  {
    faces' := faces;
    for k := 0 to |faces|
      invariant |faces'| == |faces|
      invariant forall j :: 0 <= j < k ==> faces'[j] == FaceStep(p, disable, faces[j])
      invariant forall j :: k <= j < |faces| ==> faces'[j] == faces[j]
    {
      if CoversFace(p, faces'[k]) {
        faces' := faces'[k := faces'[k].(authorized := !disable)];
      }
    }
  }

  method IsMatched(types: seq<Rule>, baseClass: int32, subClass: int32, protocol: int32) returns (matched: bool)
    ensures matched <==> Matches(types, baseClass, subClass, protocol)
  {
    for k := 0 to |types|
      invariant forall j :: 0 <= j < k ==> !RuleCovers(types[j], baseClass, subClass, protocol)
    {
      if RuleCovers(types[k], baseClass, subClass, protocol) {
        return true;
      }
    }
    matched := false;
  }

  method AuthorizeUsbFaces(types: seq<Rule>, disable: bool, faces: seq<Interface>) returns (faces': seq<Interface>)
    ensures faces' == UsbTypeFaces(types, disable, faces)
  {
    faces' := faces;
    for k := 0 to |faces|
      invariant |faces'| == |faces|
      invariant forall j :: 0 <= j < k ==> faces'[j] == UsbTypeFace(types, disable, faces[j])
      invariant forall j :: k <= j < |faces| ==> faces'[j] == faces[j]
    {
      var matched := IsMatched(types, faces'[k].klass, faces'[k].subClass, faces'[k].protocol);
      faces' := faces'[k := faces'[k].(authorized := if matched then !disable else disable)];
    }
  }

  method EnableFaces(faces: seq<Interface>) returns (faces': seq<Interface>)
    ensures faces' == AllFaces(true, faces)
  {
    faces' := faces;
    for k := 0 to |faces|
      invariant |faces'| == |faces|
      invariant forall j :: 0 <= j < k ==> faces'[j] == faces[j].(authorized := true)
      invariant forall j :: k <= j < |faces| ==> faces'[j] == faces[j]
    {
      faces' := faces'[k := faces'[k].(authorized := true)];
    }
  }

  /** Splits the rules into those for devices and those for interfaces. */
  method SplitRules(rules: seq<Rule>) returns (deviceTypes: seq<Rule>, interfaceTypes: seq<Rule>)
    ensures deviceTypes == DeviceRules(rules) && interfaceTypes == FaceRules(rules)
  {
    deviceTypes, interfaceTypes := [], [];
    for k := 0 to |rules|
      invariant deviceTypes == DeviceRules(rules[..k]) && interfaceTypes == FaceRules(rules[..k])
    {
      assert rules[..k + 1][..k] == rules[..k];
      var r := rules[k];
      if r.isDeviceTypeAllMatch {
        deviceTypes, interfaceTypes := deviceTypes + [r], interfaceTypes + [r];
      } else if r.isDeviceType {
        deviceTypes := deviceTypes + [r];
      } else {
        interfaceTypes := interfaceTypes + [r];
      }
    }
    assert rules[..|rules|] == rules;
  }

  method InTrustList(list: seq<DeviceId>, d: Device) returns (trusted: bool)
    ensures trusted <==> Trusted(list, d)
  {
    for k := 0 to |list|
      invariant forall j :: 0 <= j < k ==> !(d.productId == list[j].productId && d.vendorId == list[j].vendorId)
    {
      if d.productId == list[k].productId && d.vendorId == list[k].vendorId {
        return true;
      }
    }
    trusted := false;
  }

  /** For each rule the first pattern it falls under, in whatever order the table yields them. As no rule falls under
      two patterns, the first is the only one. */
  method FindMatchingTypes(table: TypeTable, order: seq<InterfaceType>, isDev: bool, rules: seq<Rule>)
    returns (matching: seq<InterfaceType>)
    requires Enumerates(order, table) && Disjoint(table)
    ensures forall t :: t in table ==> (t in matching <==> Selected(table, rules, isDev, t))
  {
    matching := [];
    for j := 0 to |rules|
      invariant forall t :: t in table ==> (t in matching <==> Selected(table, rules[..j], isDev, t))
    {
      var r := rules[j];
      ghost var before := matching;
      assert rules[..j + 1] == rules[..j] + [r];
      if r.isDeviceType == isDev {
        var k := 0;
        while k < |order| && !Covers(table[order[k]], r.baseClass, r.subClass, r.protocol)
          invariant k <= |order|
          invariant forall i :: 0 <= i < k ==> !Covers(table[order[i]], r.baseClass, r.subClass, r.protocol)
        {
          k := k + 1;
        }
        if k < |order| {
          matching := matching + [order[k]];
        }
        SelectedSnoc(table, order, rules[..j], r, isDev, before, matching, k);
      } else {
        forall t | t in table
          ensures Selected(table, rules[..j] + [r], isDev, t) <==> Selected(table, rules[..j], isDev, t) {}
      }
    }
    assert rules[..|rules|] == rules;
  }

  lemma SelectedSnoc(table: TypeTable, order: seq<InterfaceType>, rules: seq<Rule>, r: Rule, isDev: bool,
                     before: seq<InterfaceType>, matching: seq<InterfaceType>, k: nat)
    requires Enumerates(order, table) && Disjoint(table) && r.isDeviceType == isDev && k <= |order|
    requires forall t :: t in table ==> (t in before <==> Selected(table, rules, isDev, t))
    requires forall i :: 0 <= i < k ==> !Covers(table[order[i]], r.baseClass, r.subClass, r.protocol)
    requires k < |order| ==> Covers(table[order[k]], r.baseClass, r.subClass, r.protocol)
    requires matching == before + if k < |order| then [order[k]] else []
    ensures forall t :: t in table ==> (t in matching <==> Selected(table, rules + [r], isDev, t))
  {
    forall t | t in table
      ensures t in matching <==> Selected(table, rules + [r], isDev, t)
    {
      var i :| 0 <= i < |order| && order[i] == t;
      if Selected(table, rules, isDev, t) {
        var q :| q in rules && q.isDeviceType == isDev && Covers(table[t], q.baseClass, q.subClass, q.protocol);
        assert q in rules + [r];
      }
      if Covers(table[t], r.baseClass, r.subClass, r.protocol) {
        assert r in rules + [r] && k <= i;
      }
    }
  }

  /** The order in which an unordered map happens to yield its keys. */
  method Enumerate(table: TypeTable) returns (order: seq<InterfaceType>)
    ensures Enumerates(order, table)
  {
    order := [];
    var rest := table.Keys;
    while rest != {}
      invariant rest <= table.Keys
      invariant forall t :: t in order <==> t in table && t !in rest
      invariant forall j, k :: 0 <= j < k < |order| ==> order[j] != order[k]
    {
      var t :| t in rest;
      rest := rest - {t};
      order := order + [t];
    }
  }

  function TableOf(t: Tables, isDev: bool): TypeTable {
    if isDev then t.device else t.face
  }

  function OrderOf(t: Tables, isDev: bool): seq<InterfaceType> {
    if isDev then t.deviceOrder else t.faceOrder
  }

  class UsbHostManager {
    const name: UsbDev -> string
    const leq: (string, string) -> bool
    const tables: Tables
    var devices: map<string, Device>
    var serialDevices: seq<UsbDev>
    ghost var traces: map<string, seq<Action>>

    ghost function Snapshot(): Hosts
      reads this
    {
      Hosts(devices, traces)
    }

    /** The manager as `HostRuns` sees it. */
    ghost function State(): Host
      reads this
    {
      Host(Snapshot(), serialDevices)
    }

    ghost function Fixed(): Setup {
      Setup(name, leq, tables)
    }

    ghost predicate Valid()
      reads this
    {
      Structured(Snapshot(), serialDevices, name)
    }

    constructor ()
      ensures Valid() && ValidSetup(Fixed()) && State() == NO_DEVICES
      ensures tables.device == DeviceTable() && tables.face == InterfaceTable()
      ensures forall u :: name(u) == DeviceKey(u.busNum, u.devAddr)
      ensures forall a, b :: leq(a, b) == Leq(a, b)
    {
      DeviceTableDisjoint();
      InterfaceTableDisjoint();
      var device, face := DeviceTable(), InterfaceTable();
      var deviceOrder := Enumerate(device);
      var faceOrder := Enumerate(face);
      name := (u: UsbDev) => DeviceKey(u.busNum, u.devAddr);
      leq := (a: string, b: string) => Leq(a, b);
      tables := Tables(device, deviceOrder, face, faceOrder);
      devices, serialDevices, traces := map[], [], map[];
      new;
      NameInjective(name);
      LeqIsTotalOrder(leq);
    }

    /** The scan finds the device that a look-up by name would. */
    method GetTargetDevice(u: UsbDev) returns (d: Option<Device>)
      requires Valid() && ValidSetup(Fixed())
      ensures d == if name(u) in devices then Some(devices[name(u)]) else None
      ensures d.Some? ==> DevOf(d.value) == u
    {
      var rest := devices.Keys;
      while rest != {}
        invariant rest <= devices.Keys
        invariant forall n :: n in devices && n !in rest ==> DevOf(devices[n]) != u
      {
        var n :| n in rest;
        if DevOf(devices[n]) == u {
          return Some(devices[n]);
        }
        rest := rest - {n};
      }
      d := None;
    }

    method IsUsbSerialDevice(d: Device) returns (serial: bool)
      ensures serial <==> DevOf(d) in serialDevices
    {
      for k := 0 to |serialDevices|
        invariant DevOf(d) !in serialDevices[..k]
      {
        if serialDevices[k].busNum == d.busNum && serialDevices[k].devAddr == d.devAddr {
          return true;
        }
      }
      serial := false;
    }

    method UsbDeviceAuthorize(u: UsbDev, authorized: bool, hal: string -> DeviceHal) returns (ret: Reply)
      requires name(u) in devices ==> name(u) in traces
      modifies this`devices, this`traces
      ensures name(u) !in old(devices) ==> ret == InvalidValue && Snapshot() == old(Snapshot())
      ensures name(u) in old(devices) ==>
                && Snapshot() == Put(old(Snapshot()), name(u),
                                     Authorize(old(At(Snapshot(), name(u))), authorized, hal(name(u)).authorize))
                && ret == (if hal(name(u)).authorize || authorized == (old(devices)[name(u)].status != Disabled) then Ok
                           else HalError)
                && (ret == Ok ==> authorized == (devices[name(u)].status != Disabled))
    {
      var n := name(u);
      if n !in devices {
        return InvalidValue;
      }
      var status := devices[n].status;
      if (authorized && status != Disabled) || (!authorized && status == Disabled) {
        PutSame(Snapshot(), n);
        return Ok;
      }
      traces := traces[n := traces[n] + [HalAuthorize(authorized, hal(n).authorize)]];
      if !hal(n).authorize {
        assert devices[n := devices[n]] == devices;
        return HalError;
      }
      if status != NewArrived {
        traces := traces[n := traces[n] + [if authorized then Attached else Detached]];
      } else {
        assert old(traces)[n] + [HalAuthorize(authorized, true)] + [] == traces[n];
      }
      devices := devices[n := devices[n].(status := if authorized then Enabled else Disabled)];
      ret := Ok;
    }

    // One loop over the device table is one pass.

    /** The loop body of `ManageDeviceTypeImpl` for one device. */
    method ManageDeviceOfType(n: string, p: Pattern, disable: bool, serialOff: bool, hal: string -> DeviceHal)
      requires n in devices && n in traces && name(DevOf(devices[n])) == n
      modifies this`devices, this`traces
      ensures Snapshot() == old(Put(Snapshot(), n,
                                        DeviceTypeStep(p, disable, serialOff && DevOf(devices[n]) in serialDevices,
                                                       hal(n), At(Snapshot(), n))))
    {
      PutSame(Snapshot(), n);
      var d := devices[n];
      var serial := IsUsbSerialDevice(d);
      if !(serialOff && serial) && CoversDevice(p, d) && hal(n).open {
        var _ := UsbDeviceAuthorize(DevOf(d), !disable, hal);
      }
    }

    method ManageDeviceTypeImpl(t: InterfaceType, disable: bool, serialOff: bool, hal: string -> DeviceHal)
      returns (ret: Reply)
      requires Valid()
      modifies this`devices, this`traces
      ensures Valid()
      ensures t !in tables.device ==> ret == InvalidValue && Snapshot() == old(Snapshot())
      ensures t in tables.device ==>
                && ret == Ok
                && Passed(old(Snapshot()), Snapshot(), DeviceTypePass(tables.device[t], disable),
                          Env(serialOff, serialDevices, hal), {})
    {
      if t !in tables.device {
        return InvalidValue;
      }
      var p := tables.device[t];
      ghost var was := Snapshot();
      ghost var pass, env := DeviceTypePass(p, disable), Env(serialOff, serialDevices, hal);
      var rest := devices.Keys;
      while rest != {}
        invariant rest <= was.devices.Keys && Passed(was, Snapshot(), pass, env, rest)
      {
        var n :| n in rest;
        ghost var before := Snapshot();
        assert At(before, n) == At(was, n);
        ManageDeviceOfType(n, p, disable, serialOff, hal);
        PassedOne(was, before, Snapshot(), pass, env, rest, n);
        rest := rest - {n};
      }
      PassedKeeps(was, Snapshot(), pass, env, {});
      SameDevicesKeepStructure(was, Snapshot(), serialDevices, name);
      ret := Ok;
    }

    /** The loop body of `ManageInterfaceTypeImpl` for one device. */
    method ManageFacesOfType(n: string, p: Pattern, disable: bool, hal: string -> DeviceHal)
      requires n in devices && n in traces && name(DevOf(devices[n])) == n
      modifies this`devices, this`traces
      ensures Snapshot() == old(Put(Snapshot(), n,
                                        At(Snapshot(), n).(dev := InterfaceTypeStep(p, disable, hal(n), devices[n]))))
    {
      PutSame(Snapshot(), n);
      var d := devices[n];
      if d.baseClass != BASE_CLASS_HUB && d.status != Disabled && hal(n).activeConfig.Some? {
        var index := (hal(n).activeConfig.value - 1) % 0x100;
        if index < |d.configs| {
          var faces := AuthorizeFaces(p, disable, d.configs[index].interfaces);
          devices := devices[n := WithFaces(d, index, faces)];
        }
      }
    }

    method ManageInterfaceTypeImpl(t: InterfaceType, disable: bool, serialOff: bool, hal: string -> DeviceHal)
      returns (ret: Reply)
      requires Valid()
      modifies this`devices, this`traces
      ensures Valid()
      ensures t !in tables.face ==> ret == InvalidValue && Snapshot() == old(Snapshot())
      ensures t in tables.face ==>
                && ret == Ok
                && Passed(old(Snapshot()), Snapshot(), FaceTypePass(tables.face[t], disable),
                          Env(serialOff, serialDevices, hal), {})
    {
      if t !in tables.face {
        return InvalidValue;
      }
      var p := tables.face[t];
      ghost var was := Snapshot();
      ghost var pass, env := FaceTypePass(p, disable), Env(serialOff, serialDevices, hal);
      var rest := devices.Keys;
      while rest != {}
        invariant rest <= was.devices.Keys && Passed(was, Snapshot(), pass, env, rest)
      {
        var n :| n in rest;
        ghost var before := Snapshot();
        assert At(before, n) == At(was, n);
        ManageFacesOfType(n, p, disable, hal);
        PassedOne(was, before, Snapshot(), pass, env, rest, n);
        rest := rest - {n};
      }
      PassedKeeps(was, Snapshot(), pass, env, {});
      SameDevicesKeepStructure(was, Snapshot(), serialDevices, name);
      ret := Ok;
    }

    /** The loop body of `ManageUsbTypeDeviceImpl` for one device. */
    method ManageUsbDevice(n: string, types: seq<Rule>, disable: bool, serialOff: bool, hal: string -> DeviceHal)
      requires n in devices && n in traces && name(DevOf(devices[n])) == n
      modifies this`devices, this`traces
      ensures Snapshot() == old(Put(Snapshot(), n,
                                        UsbTypeDevice(types, disable, serialOff && DevOf(devices[n]) in serialDevices,
                                                      hal(n), At(Snapshot(), n))))
    {
      PutSame(Snapshot(), n);
      var d := devices[n];
      var serial := IsUsbSerialDevice(d);
      if !(serialOff && serial) {
        var matched := IsMatched(types, d.baseClass, d.subClass, d.protocol);
        if matched {
          var _ := UsbDeviceAuthorize(DevOf(d), !disable, hal);
        } else {
          var _ := UsbDeviceAuthorize(DevOf(d), disable, hal);
        }
      }
    }

    method ManageUsbTypeDeviceImpl(types: seq<Rule>, disable: bool, serialOff: bool, hal: string -> DeviceHal)
      requires Valid()
      modifies this`devices, this`traces
      ensures Valid()
      ensures Passed(old(Snapshot()), Snapshot(), UsbDevicePass(types, disable), Env(serialOff, serialDevices, hal), {})
    {
      ghost var was := Snapshot();
      ghost var pass, env := UsbDevicePass(types, disable), Env(serialOff, serialDevices, hal);
      var rest := devices.Keys;
      while rest != {}
        invariant rest <= was.devices.Keys && Passed(was, Snapshot(), pass, env, rest)
      {
        var n :| n in rest;
        ghost var before := Snapshot();
        assert At(before, n) == At(was, n);
        ManageUsbDevice(n, types, disable, serialOff, hal);
        PassedOne(was, before, Snapshot(), pass, env, rest, n);
        rest := rest - {n};
      }
      PassedKeeps(was, Snapshot(), pass, env, {});
      SameDevicesKeepStructure(was, Snapshot(), serialDevices, name);
    }

    /** The loop body of `ManageUsbTypeInterfaceImpl` for one device. */
    method ManageUsbFaces(n: string, types: seq<Rule>, disable: bool, hal: string -> DeviceHal)
      requires n in devices && n in traces && name(DevOf(devices[n])) == n
      modifies this`devices, this`traces
      ensures Snapshot() == old(Put(Snapshot(), n,
                                        At(Snapshot(), n).(dev := UsbTypeInterfaces(types, disable, hal(n),
                                                                                    devices[n]))))
    {
      PutSame(Snapshot(), n);
      var d := devices[n];
      if d.baseClass != BASE_CLASS_HUB && d.status != Disabled && hal(n).activeConfig.Some? {
        var index := (hal(n).activeConfig.value - 1) % 0x100;
        if index < |d.configs| {
          var faces := AuthorizeUsbFaces(types, disable, d.configs[index].interfaces);
          devices := devices[n := WithFaces(d, index, faces)];
        }
      }
    }

    method ManageUsbTypeInterfaceImpl(types: seq<Rule>, disable: bool, serialOff: bool, hal: string -> DeviceHal)
      requires Valid()
      modifies this`devices, this`traces
      ensures Valid()
      ensures Passed(old(Snapshot()), Snapshot(), UsbFacePass(types, disable), Env(serialOff, serialDevices, hal), {})
    {
      ghost var was := Snapshot();
      ghost var pass, env := UsbFacePass(types, disable), Env(serialOff, serialDevices, hal);
      var rest := devices.Keys;
      while rest != {}
        invariant rest <= was.devices.Keys && Passed(was, Snapshot(), pass, env, rest)
      {
        var n :| n in rest;
        ghost var before := Snapshot();
        assert At(before, n) == At(was, n);
        ManageUsbFaces(n, types, disable, hal);
        PassedOne(was, before, Snapshot(), pass, env, rest, n);
        rest := rest - {n};
      }
      PassedKeeps(was, Snapshot(), pass, env, {});
      SameDevicesKeepStructure(was, Snapshot(), serialDevices, name);
    }

    /** The loop body of `ManageGlobalInterfaceImpl` for one device. */
    method ManageGlobally(n: string, disable: bool, serialOff: bool, hal: string -> DeviceHal)
      requires n in devices && n in traces && name(DevOf(devices[n])) == n
      modifies this`devices, this`traces
      ensures Snapshot() == old(Put(Snapshot(), n,
                                        Global(disable, serialOff && DevOf(devices[n]) in serialDevices, hal(n),
                                               At(Snapshot(), n))))
    {
      PutSame(Snapshot(), n);
      var d := devices[n];
      var serial := IsUsbSerialDevice(d);
      if !((disable && d.baseClass != BASE_CLASS_HUB) || (serialOff && serial)) {
        var _ := UsbDeviceAuthorize(DevOf(d), !disable, hal);
        if !disable {
          EnableActiveFaces(n, hal);
        }
      }
    }

    /** Enables all interfaces of the active configuration, if there is one. */
    method EnableActiveFaces(n: string, hal: string -> DeviceHal)
      requires n in devices
      modifies this`devices
      ensures devices == old(devices)[n := GlobalFaces(hal(n), old(devices)[n])]
    {
      assert devices[n := devices[n]] == devices;
      if hal(n).open && hal(n).activeConfig.Some? && hal(n).activeConfig.value >= 1 {
        var index := hal(n).activeConfig.value - 1;
        if index < |devices[n].configs| {
          var faces := EnableFaces(devices[n].configs[index].interfaces);
          devices := devices[n := WithFaces(devices[n], index, faces)];
        }
      }
    }

    method ManageGlobalInterfaceImpl(disable: bool, serialOff: bool, hal: string -> DeviceHal)
      requires Valid()
      modifies this`devices, this`traces
      ensures Valid()
      ensures Passed(old(Snapshot()), Snapshot(), GlobalPass(disable), Env(serialOff, serialDevices, hal), {})
    {
      ghost var was := Snapshot();
      ghost var pass, env := GlobalPass(disable), Env(serialOff, serialDevices, hal);
      var rest := devices.Keys;
      while rest != {}
        invariant rest <= was.devices.Keys && Passed(was, Snapshot(), pass, env, rest)
      {
        var n :| n in rest;
        ghost var before := Snapshot();
        assert At(before, n) == At(was, n);
        ManageGlobally(n, disable, serialOff, hal);
        PassedOne(was, before, Snapshot(), pass, env, rest, n);
        rest := rest - {n};
      }
      PassedKeeps(was, Snapshot(), pass, env, {});
      SameDevicesKeepStructure(was, Snapshot(), serialDevices, name);
    }

    // ---- The policies ---------------------------------------------------------------------------------------

    method ManageTypeImpl(t: InterfaceType, disable: bool, isDev: bool, serialOff: bool, hal: string -> DeviceHal)
      requires Valid() && t in TableOf(tables, isDev)
      modifies this`devices, this`traces
      ensures Valid()
      ensures Passed(old(Snapshot()), Snapshot(), TypePass(TableOf(tables, isDev)[t], disable, isDev),
                     Env(serialOff, serialDevices, hal), {})
    {
      if isDev {
        var _ := ManageDeviceTypeImpl(t, disable, serialOff, hal);
      } else {
        var _ := ManageInterfaceTypeImpl(t, disable, serialOff, hal);
      }
    }

    /** The loop body of `ExecuteManageDeviceType`, after the patterns in `front`. */
    method ManageMatched(t: InterfaceType, matching: seq<InterfaceType>, ghost rules: seq<Rule>, disable: bool,
                         isDev: bool, serialOff: bool, hal: string -> DeviceHal, ghost was: Hosts,
                         ghost front: seq<InterfaceType>)
      requires Valid() && t in TableOf(tables, isDev)
      requires forall u :: u in front ==> u in TableOf(tables, isDev)
      requires t in matching <==> Selected(TableOf(tables, isDev), rules, isDev, t)
      requires Walked(was, Snapshot(), TableOf(tables, isDev), front, rules, disable, isDev,
                      Env(serialOff, serialDevices, hal))
      modifies this`devices, this`traces
      ensures Valid()
      ensures Walked(was, Snapshot(), TableOf(tables, isDev), front + [t], rules, disable, isDev,
                     Env(serialOff, serialDevices, hal))
    {
      ghost var before := Snapshot();
      var execDisable := if t in matching then disable else !disable;
      ManageTypeImpl(t, execDisable, isDev, serialOff, hal);
      WalkStep(was, before, Snapshot(), TableOf(tables, isDev), front, t, rules, disable, isDev,
               Env(serialOff, serialDevices, hal));
    }

    /** The loop of `ExecuteManageDeviceType`. */
    method ManageInOrder(order: seq<InterfaceType>, matching: seq<InterfaceType>, ghost rules: seq<Rule>,
                         disable: bool, isDev: bool, serialOff: bool, hal: string -> DeviceHal)
      requires Valid() && forall t :: t in order ==> t in TableOf(tables, isDev)
      requires forall t :: t in order ==> (t in matching <==> Selected(TableOf(tables, isDev), rules, isDev, t))
      modifies this`devices, this`traces
      ensures Valid()
      ensures Walked(old(Snapshot()), Snapshot(), TableOf(tables, isDev), order, rules, disable, isDev,
                     Env(serialOff, serialDevices, hal))
    {
      ghost var was := Snapshot();
      WalkStarts(was, TableOf(tables, isDev), rules, disable, isDev, Env(serialOff, serialDevices, hal));
      for k := 0 to |order|
        invariant Valid() && forall t :: t in order[..k] ==> t in TableOf(tables, isDev)
        invariant Walked(was, Snapshot(), TableOf(tables, isDev), order[..k], rules, disable, isDev,
                         Env(serialOff, serialDevices, hal))
      {
        assert order[k] in order && order[..k + 1] == order[..k] + [order[k]];
        ManageMatched(order[k], matching, rules, disable, isDev, serialOff, hal, was, order[..k]);
      }
      assert order[..|order|] == order;
    }

    /** Walks one of the two tables: patterns that some rule selects get `disable`, the others its opposite. */
    method ExecuteManageDeviceType(rules: seq<Rule>, disable: bool, isDev: bool, serialOff: bool,
                                   hal: string -> DeviceHal)
      requires Valid() && ValidTables(tables)
      modifies this`devices, this`traces
      ensures Valid()
      ensures Walked(old(Snapshot()), Snapshot(), TableOf(tables, isDev), OrderOf(tables, isDev), rules, disable, isDev,
                     Env(serialOff, serialDevices, hal))
    {
      var matching := FindMatchingTypes(TableOf(tables, isDev), OrderOf(tables, isDev), isDev, rules);
      ManageInOrder(OrderOf(tables, isDev), matching, rules, disable, isDev, serialOff, hal);
    }

    /** All devices are opened before and closed after; that some cannot be is only logged. */
    method ExecuteManageInterfaceType(rules: seq<Rule>, disable: bool, serialOff: bool, hal: string -> DeviceHal)
      requires Valid() && ValidTables(tables)
      modifies this`devices, this`traces
      ensures Valid()
      ensures TypePolicyDone(old(Snapshot()), Snapshot(), tables, rules, disable, Env(serialOff, serialDevices, hal))
    {
      ghost var was := Snapshot();
      ExecuteManageDeviceType(rules, disable, true, serialOff, hal);
      ghost var mid := Snapshot();
      ExecuteManageDeviceType(rules, disable, false, serialOff, hal);
      TypePolicyTwoWalks(was, mid, Snapshot(), tables, rules, disable, Env(serialOff, serialDevices, hal));
    }

    method ExecuteManageUsbType(rules: seq<Rule>, disable: bool, serialOff: bool, hal: string -> DeviceHal)
      requires Valid()
      modifies this`devices, this`traces
      ensures Valid()
      ensures UsbTypeDone(old(Snapshot()), Snapshot(), rules, disable, Env(serialOff, serialDevices, hal))
    {
      ghost var was := Snapshot();
      var deviceTypes, interfaceTypes := SplitRules(rules);
      ManageUsbTypeDeviceImpl(deviceTypes, disable, serialOff, hal);
      ghost var mid := Snapshot();
      ManageUsbTypeInterfaceImpl(interfaceTypes, disable, serialOff, hal);
      UsbTypeTwoPasses(was, mid, Snapshot(), rules, disable, Env(serialOff, serialDevices, hal));
    }

    /** The loop body of `ManageDeviceImpl` for the next device. */
    method ManageIfWanted(n: string, vendorId: int32, productId: int32, disable: bool, hal: string -> DeviceHal,
                          ghost was: Hosts, ghost touched: set<string>, ghost rest: set<string>)
      returns (ret: Reply, ghost touched': set<string>, ghost stop: Option<string>)
      requires Sweeping(was, Snapshot(), hal, leq, vendorId, productId, disable, touched, rest, None)
      requires Least(leq, rest, n) && name(DevOf(was.devices[n])) == n
      modifies this`devices, this`traces
      ensures Sweeping(was, Snapshot(), hal, leq, vendorId, productId, disable, touched', rest - {n}, stop)
      ensures ret == if stop.None? then Ok else HalError
    {
      SweepOne(was, hal, leq, vendorId, productId, touched, rest, n);
      assert At(Snapshot(), n) == At(was, n);
      ret, touched', stop := Ok, touched, None;
      var d := devices[n];
      if d.baseClass != BASE_CLASS_HUB && d.vendorId == vendorId && d.productId == productId {
        if !hal(n).open {
          return HalError, touched, Some(n);
        }
        ghost var before := Snapshot();
        var _ := UsbDeviceAuthorize(DevOf(d), !disable, hal);
        AuthorizedOne(was, before, Snapshot(), disable, hal, touched, n);
        touched' := touched + {n};
      }
    }

    /** Walks the devices in the order of their keys and gives up on the first with these ids that cannot be opened. */
    method ManageDeviceImpl(vendorId: int32, productId: int32, disable: bool, hal: string -> DeviceHal)
      returns (ret: Reply)
      requires Valid() && TotalOrder(leq)
      modifies this`devices, this`traces
      ensures Valid() && AuthorizedById(old(Snapshot()), Snapshot(), vendorId, productId, disable, hal, leq)
      ensures ret == if Openable(old(Snapshot()), hal, vendorId, productId) then Ok else HalError
    {
      ghost var was, touched, stop := Snapshot(), {}, None;
      ret := Ok;
      var rest := devices.Keys;
      SweepStarts(was, hal, leq, vendorId, productId, disable);
      while rest != {} && ret == Ok
        invariant Sweeping(was, Snapshot(), hal, leq, vendorId, productId, disable, touched, rest, stop)
        invariant ret == if stop.None? then Ok else HalError
        decreases |rest|
      {
        LeastExists(leq, rest);
        var n :| n in rest && Least(leq, rest, n);
        ret, touched, stop := ManageIfWanted(n, vendorId, productId, disable, hal, was, touched, rest);
        rest := rest - {n};
      }
      SweepDone(was, Snapshot(), hal, leq, vendorId, productId, disable, touched, rest, stop);
      SameDevicesKeepStructure(was, Snapshot(), serialDevices, name);
    }

    /** The loop body of `ExecuteManageDevicePolicy` for one device. */
    method ManageByTrustList(n: string, list: seq<DeviceId>, hal: string -> DeviceHal) returns (ret: Reply)
      requires Valid() && TotalOrder(leq) && n in devices
      modifies this`devices, this`traces
      ensures Valid()
      ensures AuthorizedById(old(Snapshot()), Snapshot(), old(devices)[n].vendorId, old(devices)[n].productId,
                             !(Trusted(list, old(devices)[n]) || list == []), hal, leq)
      ensures ret == if Openable(old(Snapshot()), hal, old(devices)[n].vendorId, old(devices)[n].productId) then Ok
                     else HalError
    {
      var d := devices[n];
      var inTrustList := InTrustList(list, d);
      if inTrustList || list == [] {
        ret := ManageDeviceImpl(d.vendorId, d.productId, false, hal);
      } else {
        ret := ManageDeviceImpl(d.vendorId, d.productId, true, hal);
      }
    }

    /** The same, in the middle of the pass. */
    method ManageNextByTrustList(n: string, list: seq<DeviceId>, hal: string -> DeviceHal, ghost was: Hosts,
                                 ghost rest: set<string>) returns (ret: Reply)
      requires Valid() && TotalOrder(leq) && n in rest && n in was.devices
      requires TrustPart(was, Snapshot(), list, hal, leq, rest)
      modifies this`devices, this`traces
      ensures Valid() && TrustPart(was, Snapshot(), list, hal, leq, rest - {n})
      ensures ret == if Openable(was, hal, was.devices[n].vendorId, was.devices[n].productId) then Ok else HalError
    {
      ghost var before := Snapshot();
      IdsKept(was, before, n);
      ReachesKept(was, before, hal, leq, was.devices[n].vendorId, was.devices[n].productId, n);
      TrustedKept(was, before, list, n);
      ret := ManageByTrustList(n, list, hal);
      TrustTurn(was, before, Snapshot(), list, hal, leq, rest, n);
    }

    /** Quadratic, in the order of the keys.  The answer speaks of the devices with the ids of the last one only. */
    method ExecuteManageDevicePolicy(list: seq<DeviceId>, hal: string -> DeviceHal) returns (ret: Reply)
      requires Valid() && TotalOrder(leq)
      modifies this`devices, this`traces
      ensures Valid() && TrustDone(old(Snapshot()), Snapshot(), list, hal, leq)
      ensures ret in {Ok, ExecutePolicyFailed}
      ensures ret == ExecutePolicyFailed <==>
              exists n :: Greatest(old(Snapshot()), leq, n)
                          && !Openable(old(Snapshot()), hal, old(devices)[n].vendorId, old(devices)[n].productId)
    {
      ghost var was := Snapshot();
      ret := Ok;
      var rest := devices.Keys;
      TrustStarts(was, list, hal, leq);
      while rest != {}
        invariant Valid() && TrustPart(was, Snapshot(), list, hal, leq, rest)
        invariant AnswersForLast(was, hal, leq, rest, ret)
      {
        LeastExists(leq, rest);
        var n :| n in rest && Least(leq, rest, n);
        ret := ManageNextByTrustList(n, list, hal, was, rest);
        AnswerMoves(was, hal, leq, rest, n, ret);
        rest := rest - {n};
      }
      TrustEnds(was, Snapshot(), list, hal, leq);
      AnswerStands(was, hal, leq, ret);
      ret := if ret != Ok then ExecutePolicyFailed else Ok;
    }

    /** The loop of `ManageUsbSerialDevice`. */
    method AuthorizeSerialDevices(disable: bool, hal: string -> DeviceHal)
      requires Valid()
      modifies this`devices, this`traces
      ensures Valid()
      ensures forall serialOff ::
                Passed(old(Snapshot()), Snapshot(), SerialPass(disable), Env(serialOff, serialDevices, hal), {})
    {
      ghost var was := Snapshot();
      ghost var pass, env := SerialPass(disable), Env(true, serialDevices, hal);
      ghost var rest := set n | n in devices && DevOf(devices[n]) in serialDevices;
      var list := serialDevices;
      for k := 0 to |list|
        invariant forall n :: n in rest <==> n in was.devices && DevOf(was.devices[n]) in list[k..]
        invariant Passed(was, Snapshot(), pass, env, rest)
      {
        ghost var before, n := Snapshot(), name(list[k]);
        NextSerial(was, list, name, rest, k);
        assert At(before, n) == At(was, n);
        var _ := UsbDeviceAuthorize(list[k], !disable, hal);
        PassedOne(was, before, Snapshot(), pass, env, rest, n);
        rest := rest - {n};
      }
      assert rest == {};
      PassedKeeps(was, Snapshot(), pass, env, {});
      SameDevicesKeepStructure(was, Snapshot(), serialDevices, name);
    }

    /** `mid` is the state between the serial devices and the strategy. */
    method ManageUsbSerialDevice(disable: bool, p: Policy, hal: string -> DeviceHal) returns (ghost mid: Host)
      requires Valid() && ValidSetup(Fixed())
      modifies this`devices, this`traces
      ensures Valid() && Step(Fixed(), old(State()), Manage(SerialPass(disable), p.serialDisable, hal), mid)
      ensures if disable then State() == mid else Step(Fixed(), mid, RunStrategy(p, hal), State())
    {
      AuthorizeSerialDevices(disable, hal);
      mid := State();
      if !disable {
        ExecuteStrategy(p, hal);
      }
    }

    /** What a strategy run of this manager depends on. */
    ghost function Setting(p: Policy, hal: string -> DeviceHal): Review
      reads this
    {
      Review(p, tables, serialDevices, hal, leq)
    }

    /** Every device goes through `Strategy`. */
    method ExecuteStrategy(p: Policy, hal: string -> DeviceHal)
      requires Valid() && ValidSetup(Fixed())
      modifies this`devices, this`traces
      ensures Valid() && Step(Fixed(), old(State()), RunStrategy(p, hal), State())
    {
      ghost var was, r := Snapshot(), Setting(p, hal);
      if !p.edm || !p.obtained {
        Unreviewed(was, r);
        return;
      }
      if p.globalDisabled {
        ManageGlobalInterfaceImpl(true, p.serialDisable, hal);
        ReviewedGlobally(was, Snapshot(), r);
        return;
      }
      Prepare(p, hal);
      if p.rules != [] {
        ManageByRules(was, p, hal);
      } else {
        ManageByTrust(was, p, hal);
      }
    }

    /** The type policy, permissive or by patterns. */
    method ManageByRules(ghost was: Hosts, p: Policy, hal: string -> DeviceHal)
      requires Valid() && ValidSetup(Fixed())
      requires p.edm && p.obtained && !p.globalDisabled && p.rules != []
      requires Prepared(was, Snapshot(), p, serialDevices, hal)
      modifies this`devices, this`traces
      ensures Valid() && Reviewed(was, Snapshot(), Setting(p, hal))
    {
      ghost var mid := Snapshot();
      if p.permType {
        ExecuteManageUsbType(p.rules, true, p.serialDisable, hal);
        ReviewedByUsbType(was, mid, Snapshot(), Setting(p, hal));
      } else {
        ExecuteManageInterfaceType(p.rules, true, p.serialDisable, hal);
        ReviewedByTypePolicy(was, mid, Snapshot(), Setting(p, hal));
      }
    }

    /** The trust list; an empty one disables nothing. */
    method ManageByTrust(ghost was: Hosts, p: Policy, hal: string -> DeviceHal)
      requires Valid() && ValidSetup(Fixed())
      requires p.edm && p.obtained && !p.globalDisabled && p.rules == []
      requires Prepared(was, Snapshot(), p, serialDevices, hal)
      modifies this`devices, this`traces
      ensures Valid() && Reviewed(was, Snapshot(), Setting(p, hal))
    {
      ghost var mid := Snapshot();
      if p.trust != [] {
        var _ := ExecuteManageDevicePolicy(p.trust, hal);
      }
      ReviewedByTrust(was, mid, Snapshot(), Setting(p, hal));
    }

    /** The serial policy goes first. */
    method Prepare(p: Policy, hal: string -> DeviceHal)
      requires Valid()
      modifies this`devices, this`traces
      ensures Valid() && Prepared(old(Snapshot()), Snapshot(), p, serialDevices, hal)
    {
      ghost var was := Snapshot();
      if p.serialDisable {
        AuthorizeSerialDevices(true, hal);
        ghost var env := Env(true, serialDevices, hal);
        PassedKeeps(was, Snapshot(), SerialPass(true), env, {});
        assert forall n :: n in was.devices ==> At(Snapshot(), n) == StepAt(was, SerialPass(true), env, n);
      }
    }

    // ---- The requests of the device-management service ------------------------------------------------------

    method ManageGlobalInterface(disable: bool, serialOff: bool, hal: string -> DeviceHal)
      requires Valid() && ValidSetup(Fixed())
      modifies this`devices, this`traces
      ensures Valid() && Step(Fixed(), old(State()), Manage(GlobalPass(disable), serialOff, hal), State())
    {
      ManageGlobalInterfaceImpl(disable, serialOff, hal);
    }

    method ManageDevice(vendorId: int32, productId: int32, disable: bool, hal: string -> DeviceHal) returns (ret: Reply)
      requires Valid() && ValidSetup(Fixed())
      modifies this`devices, this`traces
      ensures Valid() && Step(Fixed(), old(State()), ManageIds(vendorId, productId, disable, hal), State())
      ensures ret == if Openable(old(Snapshot()), hal, vendorId, productId) then Ok else HalError
      ensures ret == Ok <==>
              forall n :: n in old(devices) ==>
                var d := old(devices)[n];
                d.baseClass != 9 && d.vendorId == vendorId && d.productId == productId ==> hal(n).open
    {
      ret := ManageDeviceImpl(vendorId, productId, disable, hal);
    }

    method ManageDevicePolicy(trustList: seq<DeviceId>, hal: string -> DeviceHal) returns (ret: Reply)
      requires Valid() && ValidSetup(Fixed())
      modifies this`devices, this`traces
      ensures Valid() && Step(Fixed(), old(State()), ManageTrustList(trustList, hal), State())
      ensures ret in {Ok, ExecutePolicyFailed}
      ensures ret == ExecutePolicyFailed <==>
              exists n :: Greatest(old(Snapshot()), leq, n)
                          && !Openable(old(Snapshot()), hal, old(devices)[n].vendorId, old(devices)[n].productId)
    {
      ret := ExecuteManageDevicePolicy(trustList, hal);
    }

    method ManageInterfaceType(rules: seq<Rule>, disable: bool, serialOff: bool, hal: string -> DeviceHal)
      requires Valid() && ValidSetup(Fixed())
      modifies this`devices, this`traces
      ensures Valid() && Step(Fixed(), old(State()), ManageTypes(rules, disable, serialOff, hal), State())
    {
      ExecuteManageInterfaceType(rules, disable, serialOff, hal);
    }

    method ManageUsbType(rules: seq<Rule>, disable: bool, serialOff: bool, hal: string -> DeviceHal)
      requires Valid() && ValidSetup(Fixed())
      modifies this`devices, this`traces
      ensures Valid() && Step(Fixed(), old(State()), ManageUsbTypes(rules, disable, serialOff, hal), State())
    {
      ExecuteManageUsbType(rules, disable, serialOff, hal);
    }

    // ---- Arrivals and removals ------------------------------------------------------------------------------

    /** `ports` is what the serial manager lists, if it answers. */
    method AddUsbSerialDevice(u: UsbDev, ports: Option<seq<UsbDev>>)
      requires Valid() && name(u) in devices && DevOf(devices[name(u)]) == u
      modifies this`serialDevices
      ensures Valid() && serialDevices == WithSerial(old(serialDevices), u, ports)
    {
      if ports.None? {
        return;
      }
      for k := 0 to |ports.value|
        invariant u !in ports.value[..k] && serialDevices == old(serialDevices)
      {
        if ports.value[k] == u {
          assert u in ports.value;
          var j := 0;
          while j < |serialDevices| && serialDevices[j] != u
            invariant j <= |serialDevices| && u !in serialDevices[..j] && serialDevices == old(serialDevices)
          {
            j := j + 1;
          }
          if j == |serialDevices| {
            assert serialDevices[..j] == serialDevices;
            serialDevices := serialDevices + [u];
          }
          return;
        }
      }
    }

    /** A device that is there already goes without a word. */
    method Place(n: string, d: Device)
      modifies this`devices, this`traces
      ensures Snapshot() == Placed(old(Snapshot()), n, d)
    {
      if n in devices {
        devices := devices - {n};
      }
      traces := traces[n := TraceAt(Snapshot(), n) + [Appeared]];
      devices := devices[n := d.(status := NewArrived)];
    }

    /** Enables and announces a device that the strategy did not disable. */
    method Publish(n: string)
      requires n in devices && n in traces
      modifies this`devices, this`traces
      ensures Snapshot() == old(Put(Snapshot(), n, Published(At(Snapshot(), n))))
    {
      PutSame(Snapshot(), n);
      if devices[n].status != Disabled {
        devices := devices[n := devices[n].(status := Enabled)];
        traces := traces[n := traces[n] + [Attached]];
      }
    }

    /** The device takes its place, whatever was there; the strategy runs over all devices; then the new device is
        published unless it was disabled. */
    method AddDevice(d: Device, ports: Option<seq<UsbDev>>, p: Policy, hal: string -> DeviceHal) returns (ok: bool)
      requires Valid() && ValidSetup(Fixed())
      modifies this
      ensures Valid() && ok && Step(Fixed(), old(State()), Arrive(d, ports, p, hal), State())
    {
      ghost var start, was := State(), Snapshot();
      var n := name(DevOf(d));
      Place(n, d);
      ghost var placed := Snapshot();
      PlacedStructured(was, placed, d, serialDevices, name);
      AddUsbSerialDevice(DevOf(d), ports);
      ExecuteStrategy(p, hal);
      ghost var reviewed := Snapshot();
      Publish(n);
      ArrivedInAll(was, placed, reviewed, Snapshot(), d, n, Setting(p, hal));
      StepStructured(Fixed(), start, Arrive(d, ports, p, hal), State());
      ok := true;
    }

    /** Announces the removal of an enabled device only. */
    method DelDevice(u: UsbDev) returns (found: bool)
      requires Valid() && ValidSetup(Fixed())
      modifies this
      ensures Valid() && found == (name(u) in old(devices)) && Step(Fixed(), old(State()), Leave(u), State())
    {
      ghost var start := State();
      var n := name(u);
      if n !in devices {
        return false;
      }
      var d := devices[n];
      if d.status == Enabled {
        traces := traces[n := traces[n] + [Detached]];
      } else {
        assert Departure(At(Snapshot(), n)) == traces[n];
        assert traces[n := traces[n]] == traces;
      }
      var k := 0;
      while k < |serialDevices| && serialDevices[k] != DevOf(d)
        invariant k <= |serialDevices| && DevOf(d) !in serialDevices[..k]
      {
        k := k + 1;
      }
      SerialErased(serialDevices, DevOf(d), k);
      if k < |serialDevices| {
        serialDevices := serialDevices[..k] + serialDevices[k + 1..];
      }
      devices := devices - {n};
      StepStructured(Fixed(), start, Leave(u), State());
      found := true;
    }
  }

  lemma SerialErased(serials: seq<UsbDev>, u: UsbDev, k: nat)
    requires forall i, j :: 0 <= i < j < |serials| ==> serials[i] != serials[j]
    requires k <= |serials| && u !in serials[..k] && (k < |serials| ==> serials[k] == u)
    ensures k == |serials| ==> u !in serials
    ensures k < |serials| ==>
              var left := serials[..k] + serials[k + 1..];
              && (forall v :: v in left <==> v in serials && v != u)
              && forall i, j :: 0 <= i < j < |left| ==> left[i] != left[j]
  {
    if k < |serials| {
      var left := serials[..k] + serials[k + 1..];
      forall v ensures v in left <==> v in serials && v != u {
        if v in serials && v != u {
          var i :| 0 <= i < |serials| && serials[i] == v;
          assert v == if i < k then left[i] else left[i - 1];
        }
      }
    } else {
      assert serials[..k] == serials;
    }
  }

  // ---- The answer of the trust-list pass ------------------------------------------------------------------

  /** `ret` speaks of the device that the walk came to last. */
  ghost predicate AnswersForLast(h: Hosts, hal: string -> DeviceHal, leq: (string, string) -> bool, rest: set<string>,
                                 ret: Reply)
  {
    && rest <= h.devices.Keys && ret in {Ok, HalError}
    && (forall k, m :: k in h.devices && k !in rest && m in rest ==> leq(k, m))
    && (rest == h.devices.Keys ==> ret == Ok)
    && (rest != h.devices.Keys ==>
          exists n :: LastOf(h, leq, rest, n)
                      && (ret == Ok <==> Openable(h, hal, h.devices[n].vendorId, h.devices[n].productId)))
  }

  ghost predicate LastOf(h: Hosts, leq: (string, string) -> bool, rest: set<string>, n: string) {
    n in h.devices && n !in rest && forall k :: k in h.devices && k !in rest ==> leq(k, n)
  }

  lemma AnswerMoves(h: Hosts, hal: string -> DeviceHal, leq: (string, string) -> bool, rest: set<string>, n: string,
                    ret: Reply)
    requires TotalOrder(leq) && Least(leq, rest, n) && rest <= h.devices.Keys
    requires forall k, m :: k in h.devices && k !in rest && m in rest ==> leq(k, m)
    requires ret == if Openable(h, hal, h.devices[n].vendorId, h.devices[n].productId) then Ok else HalError
    ensures AnswersForLast(h, hal, leq, rest - {n}, ret)
  {
    assert Lawful(leq, n, n, n);
    assert LastOf(h, leq, rest - {n}, n);
  }

  lemma AnswerStands(h: Hosts, hal: string -> DeviceHal, leq: (string, string) -> bool, ret: Reply)
    requires TotalOrder(leq) && AnswersForLast(h, hal, leq, {}, ret)
    ensures ret != Ok <==>
            exists n :: Greatest(h, leq, n) && !Openable(h, hal, h.devices[n].vendorId, h.devices[n].productId)
  {
    if h.devices.Keys != {} {
      var n :| LastOf(h, leq, {}, n)
               && (ret == Ok <==> Openable(h, hal, h.devices[n].vendorId, h.devices[n].productId));
      assert Greatest(h, leq, n);
      forall m | Greatest(h, leq, m) ensures m == n {
        assert Lawful(leq, m, n, m);
      }
    }
  }

  // ---- What an arrival does at every address --------------------------------------------------------------

  lemma PlacedStructured(was: Hosts, placed: Hosts, d: Device, serials: seq<UsbDev>, name: UsbDev -> string)
    requires Structured(was, serials, name) && Injective(name)
    requires placed == Placed(was, name(DevOf(d)), d)
    ensures Structured(placed, serials, name)
  {
  }

  lemma {:induction false} ArrivedInAll(was: Hosts, placed: Hosts, reviewed: Hosts, now: Hosts, d: Device, n: string,
                                        r: Review)
    requires ValidReview(r) && was.devices.Keys <= was.traces.Keys
    requires placed == Placed(was, n, d) && Reviewed(placed, reviewed, r)
    requires now == Put(reviewed, n, Published(At(reviewed, n)))
    ensures Arrived(was, now, d, n, r)
  {
    PublishedNames(was, placed, reviewed, now, n, d);
    PublishedAt(was, placed, reviewed, now, d, n, r);
    forall m | m in was.devices && m != n ensures At(now, m) == ReviewAt(placed, r, m) {
      ElsewhereReviewed(placed, reviewed, now, n, r, m);
    }
  }

  lemma PublishedNames(was: Hosts, placed: Hosts, reviewed: Hosts, now: Hosts, n: string, d: Device)
    requires was.devices.Keys <= was.traces.Keys && placed == Placed(was, n, d) && SameNames(placed, reviewed)
    requires now == Put(reviewed, n, Published(At(reviewed, n)))
    ensures now.devices.Keys == was.devices.Keys + {n} && now.traces.Keys == was.traces.Keys + {n}
    ensures forall m :: m in was.traces && m !in was.devices && m != n ==> now.traces[m] == was.traces[m]
  {
  }

  lemma PublishedAt(was: Hosts, placed: Hosts, reviewed: Hosts, now: Hosts, d: Device, n: string, r: Review)
    requires ValidReview(r) && placed == Placed(was, n, d) && Reviewed(placed, reviewed, r)
    requires now == Put(reviewed, n, Published(At(reviewed, n)))
    ensures At(now, n) == Arrival(r.policy, r.tables, DevOf(d) in r.serials, r.hal(n),
                                  RoundsAt(placed, r.hal, r.leq, n), d, TraceAt(was, n))
  {
    assert At(placed, n) == Appearance(d, TraceAt(was, n));
    assert At(reviewed, n) == ReviewAt(placed, r, n);
  }

  lemma ElsewhereReviewed(placed: Hosts, reviewed: Hosts, now: Hosts, n: string, r: Review, m: string)
    requires ValidReview(r) && Reviewed(placed, reviewed, r) && n in placed.devices
    requires now == Put(reviewed, n, Published(At(reviewed, n))) && m in placed.devices && m != n
    ensures At(now, m) == ReviewAt(placed, r, m)
  {
    assert At(reviewed, m) == ReviewAt(placed, r, m);
  }

  // ---- Two runs of a real manager -------------------------------------------------------------------------

  /** A serial device that is on the trust list is announced twice on its first arrival. */
  method AnnounceTwice(d: Device) returns (m: UsbHostManager)
    requires d.baseClass != BASE_CLASS_HUB
    ensures fresh(m) && Present(m.Snapshot(), m.name(DevOf(d))) == 1
    ensures Balance(TraceAt(m.Snapshot(), m.name(DevOf(d)))) == 2
  {
    m := new UsbHostManager();
    var _ := m.AddDevice(d, Some([DevOf(d)]), SerialYetTrusted(d), Willing());
    TwiceAnnounced(m.Fixed(), d, m.State());
  }

  /** A device that arrives where an enabled one is leaves the first one's end unannounced. */
  method ReplaceSilently(d: Device) returns (m: UsbHostManager)
    ensures fresh(m) && Present(m.Snapshot(), m.name(DevOf(d))) == 1
    ensures Balance(TraceAt(m.Snapshot(), m.name(DevOf(d)))) == 2
  {
    m := new UsbHostManager();
    var _ := m.AddDevice(d, None, UNMANAGED, Willing());
    ghost var s1 := m.State();
    var _ := m.AddDevice(d, None, UNMANAGED, Willing());
    ReplacedSilently(m.Fixed(), d, s1, m.State());
  }

  method AddTwo(d1: Device, d2: Device) returns (m: UsbHostManager)
    requires DevOf(d1) != DevOf(d2) && Leq(DeviceKey(d1.busNum, d1.devAddr), DeviceKey(d2.busNum, d2.devAddr))
    ensures fresh(m) && m.Valid() && ValidSetup(m.Fixed()) && TwoEnabled(m.Fixed(), m.Snapshot(), d1, d2)
  {
    m := new UsbHostManager();
    var _ := m.AddDevice(d1, None, UNMANAGED, Willing());
    ghost var s1 := m.State();
    UnmanagedArrival(m.Fixed(), NO_DEVICES, d1, s1);
    var _ := m.AddDevice(d2, None, UNMANAGED, Willing());
    UnmanagedArrival(m.Fixed(), s1, d2, m.State());
  }

  /** The trust list is reported as enforced although the first of two devices, which is not on it, stays enabled. */
  method EnforceInName(d1: Device, d2: Device) returns (m: UsbHostManager, ret: Reply)
    requires DevOf(d1) != DevOf(d2) && Leq(DeviceKey(d1.busNum, d1.devAddr), DeviceKey(d2.busNum, d2.devAddr))
    requires IdOf(d1) != IdOf(d2) && d1.baseClass != BASE_CLASS_HUB
    ensures fresh(m) && ret == Ok
    ensures !Trusted([IdOf(d2)], d1) && Present(m.Snapshot(), m.name(DevOf(d1))) == 1
  {
    m := AddTwo(d1, d2);
    ghost var was := m.Snapshot();
    ret := m.ManageDevicePolicy([IdOf(d2)], ShutOnly(m.name(DevOf(d1))));
    UntrustedStays(m.Fixed(), was, m.Snapshot(), d1, d2);
  }
}
