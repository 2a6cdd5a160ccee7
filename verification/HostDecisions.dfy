/** What every request decides for every device, in terms of the request, the HAL's answers and the device before.
    Classes, ids and places of configurations are spelled out here, independently of how the passes are defined. */
module HostDecisions {
  import opened UsbTypes
  import opened TypeTables
  import opened HostPolicy
  import opened HostTables
  import opened HostTrust
  import opened HostRuns
  import opened KeyOrder

  // ---- Terms ----------------------------------------------------------------------------------------------

  /** A class triple with -1 for "any" takes in another one. */
  predicate Fits(baseClass: int, subClass: int, protocol: int, b: int, s: int, p: int) {
    baseClass == b && (subClass == -1 || subClass == s) && (protocol == -1 || protocol == p)
  }

  predicate FitsDevice(p: Pattern, d: Device) {
    Fits(p.baseClass, p.subClass, p.protocol, d.baseClass, d.subClass, d.protocol)
  }

  predicate FitsFace(p: Pattern, i: Interface) {
    Fits(p.baseClass, p.subClass, p.protocol, i.klass, i.subClass, i.protocol)
  }

  /** A rule for devices, or for interfaces, falls under the pattern. */
  ghost predicate Ruled(p: Pattern, rules: seq<Rule>, isDev: bool) {
    exists r :: r in rules && r.isDeviceType == isDev
                && Fits(p.baseClass, p.subClass, p.protocol, r.baseClass, r.subClass, r.protocol)
  }

  ghost predicate DeviceMatched(rules: seq<Rule>, d: Device) {
    exists r :: r in rules && (r.isDeviceType || r.isDeviceTypeAllMatch)
                && Fits(r.baseClass, r.subClass, r.protocol, d.baseClass, d.subClass, d.protocol)
  }

  ghost predicate FaceMatched(rules: seq<Rule>, i: Interface) {
    exists r :: r in rules && (!r.isDeviceType || r.isDeviceTypeAllMatch)
                && Fits(r.baseClass, r.subClass, r.protocol, i.klass, i.subClass, i.protocol)
  }

  /** Nothing but the status, and flags of interfaces of configuration `k`, has changed. */
  ghost predicate OnlyFlags(d: Device, d': Device, k: nat) {
    && d' == d.(status := d'.status, configs := d'.configs) && |d'.configs| == |d.configs|
    && (forall j :: 0 <= j < |d.configs| && j != k ==> d'.configs[j] == d.configs[j])
    && (k < |d.configs| ==>
          var faces, faces' := d.configs[k].interfaces, d'.configs[k].interfaces;
          && d'.configs[k] == d.configs[k].(interfaces := faces') && |faces'| == |faces|
          && forall i :: 0 <= i < |faces| ==> faces'[i] == faces[i].(authorized := faces'[i].authorized))
  }

  predicate OnlyStatus(d: Device, d': Device) {
    d' == d.(status := d'.status)
  }

  // ---- Global ban -----------------------------------------------------------------------------------------

  /** A ban disables a hub that is not held, if the HAL agrees, and nothing else. */
  ghost predicate Banned(d: Device, d': Device, held: bool, h: DeviceHal) {
    && OnlyStatus(d, d')
    && (d'.status == Disabled <==> d.status == Disabled || (d.baseClass == 9 && !held && h.authorize))
  }

  /** Lifting it enables a device that is not held, if the HAL agrees; and authorises every interface of the active
      configuration, which is counted from one, of a device that is not held and opens. */
  ghost predicate Lifted(d: Device, d': Device, held: bool, h: DeviceHal) {
    && (d'.status == Disabled <==> d.status == Disabled && (held || !h.authorize))
    && if !held && h.open && h.activeConfig.Some? && 1 <= h.activeConfig.value <= |d.configs| then
         var k := h.activeConfig.value - 1;
         && OnlyFlags(d, d', k)
         && forall i :: 0 <= i < |d'.configs[k].interfaces| ==> d'.configs[k].interfaces[i].authorized
       else OnlyStatus(d, d')
  }

  lemma GlobalDecides(disable: bool, held: bool, h: DeviceHal, s: Slot)
    ensures var d' := Global(disable, held, h, s).dev;
            if disable then Banned(s.dev, d', held, h) else Lifted(s.dev, d', held, h)
  {
  }

  /** A global request bans, or lifts the ban, for every device on its own. */
  lemma GlobalRequestDecides(c: Setup, s: Host, disable: bool, serialOff: bool, hal: string -> DeviceHal, s': Host,
                             n: string)
    requires ValidSetup(c) && Step(c, s, Manage(GlobalPass(disable), serialOff, hal), s') && n in s.table.devices
    ensures n in s'.table.devices
    ensures var d, d' := s.table.devices[n], s'.table.devices[n];
            var held := serialOff && UsbDev(d.busNum, d.devAddr) in s.serials;
            if disable then Banned(d, d', held, hal(n)) else Lifted(d, d', held, hal(n))
  {
    GlobalDecides(disable, serialOff && DevOf(s.table.devices[n]) in s.serials, hal(n), At(s.table, n));
    assert At(s'.table, n) == StepAt(s.table, GlobalPass(disable), Env(serialOff, s.serials, hal), n);
  }

  // ---- The serial policy, ids and the trust list ----------------------------------------------------------

  /** The serial policy decides exactly the serial devices whose HAL agrees. */
  lemma SerialPolicyDecides(c: Setup, s: Host, disable: bool, serialOff: bool, hal: string -> DeviceHal, s': Host,
                            n: string)
    requires ValidSetup(c) && Step(c, s, Manage(SerialPass(disable), serialOff, hal), s') && n in s.table.devices
    ensures n in s'.table.devices
    ensures var d, d' := s.table.devices[n], s'.table.devices[n];
            && OnlyStatus(d, d')
            && (d'.status == Disabled <==>
                  if UsbDev(d.busNum, d.devAddr) in s.serials && hal(n).authorize then disable
                  else d.status == Disabled)
  {
    assert At(s'.table, n) == StepAt(s.table, SerialPass(disable), Env(serialOff, s.serials, hal), n);
  }

  /** A device, and no hub, with the ids of `n`, at or before it. */
  predicate Before(devices: map<string, Device>, leq: (string, string) -> bool, m: string, n: string)
    requires m in devices && n in devices
  {
    && devices[m].baseClass != 9 && leq(m, n)
    && devices[m].vendorId == devices[n].vendorId && devices[m].productId == devices[n].productId
  }

  /** The walk by ids comes to `n`: neither it nor any device with its ids before it fails to open. */
  ghost predicate ComesTo(devices: map<string, Device>, hal: string -> DeviceHal, leq: (string, string) -> bool,
                          n: string)
    requires n in devices
  {
    devices[n].baseClass != 9 && forall m :: m in devices && Before(devices, leq, m, n) ==> hal(m).open
  }

  /** The request by ids decides exactly the devices with these ids that the walk comes to and whose HAL agrees. */
  lemma IdsDecide(c: Setup, s: Host, vendorId: int32, productId: int32, disable: bool, hal: string -> DeviceHal,
                  s': Host, n: string)
    requires ValidSetup(c) && Step(c, s, ManageIds(vendorId, productId, disable, hal), s') && n in s.table.devices
    ensures n in s'.table.devices
    ensures var d, d' := s.table.devices[n], s'.table.devices[n];
            && OnlyStatus(d, d')
            && (d'.status == Disabled <==>
                  if d.vendorId == vendorId && d.productId == productId && ComesTo(s.table.devices, hal, c.leq, n)
                     && hal(n).authorize then disable
                  else d.status == Disabled)
  {
    var d := s.table.devices[n];
    assert At(s'.table, n) == if Wanted(d, vendorId, productId) && Reaches(s.table, hal, c.leq, vendorId, productId, n)
                              then Authorize(At(s.table, n), !disable, hal(n).authorize) else At(s.table, n);
  }

  lemma ComesToIff(h: Hosts, hal: string -> DeviceHal, leq: (string, string) -> bool, n: string)
    requires TotalOrder(leq) && n in h.devices
    ensures RoundsAt(h, hal, leq, n) > 0 <==> ComesTo(h.devices, hal, leq, n)
    ensures ComesTo(h.devices, hal, leq, n) ==> hal(n).open
  {
    ReachedIff(h, hal, leq, n);
    assert Lawful(leq, n, n, n);
    if ComesTo(h.devices, hal, leq, n) {
      assert Before(h.devices, leq, n, n);
      assert Reachable(h, hal, leq, n);
    }
    if Reachable(h, hal, leq, n) {
      forall m | m in h.devices && Before(h.devices, leq, m, n) ensures hal(m).open {
        assert Wanted(h.devices[m], h.devices[n].vendorId, h.devices[n].productId);
      }
    }
  }

  lemma TrustDecides(list: seq<DeviceId>, h: DeviceHal, rounds: nat, s: Slot)
    requires rounds > 0 ==> s.dev.baseClass != 9 && h.open
    ensures var d' := TrustRounds(list, h, rounds, s).dev;
            && OnlyStatus(s.dev, d')
            && (d'.status == Disabled <==>
                  if rounds > 0 && h.authorize then list != [] && DeviceId(s.dev.productId, s.dev.vendorId) !in list
                  else s.dev.status == Disabled)
  {
    if rounds > 0 {
      RoundsSettle(list, h, rounds, s);
      assert Trusted(list, s.dev) <==> DeviceId(s.dev.productId, s.dev.vendorId) in list;
    }
  }

  /** A trust list that is not empty disables what is not on it and enables what is, wherever the walk comes and the HAL
      agrees; the empty list trusts everything. */
  lemma TrustListRequestDecides(c: Setup, s: Host, list: seq<DeviceId>, hal: string -> DeviceHal, s': Host, n: string)
    requires ValidSetup(c) && Step(c, s, ManageTrustList(list, hal), s') && n in s.table.devices
    ensures n in s'.table.devices
    ensures var d, d' := s.table.devices[n], s'.table.devices[n];
            && OnlyStatus(d, d')
            && (d'.status == Disabled <==>
                  if ComesTo(s.table.devices, hal, c.leq, n) && hal(n).authorize
                  then list != [] && DeviceId(d.productId, d.vendorId) !in list
                  else d.status == Disabled)
  {
    ComesToIff(s.table, hal, c.leq, n);
    TrustDecides(list, hal(n), RoundsAt(s.table, hal, c.leq, n), At(s.table, n));
    assert At(s'.table, n) == TrustRounds(list, hal(n), RoundsAt(s.table, hal, c.leq, n), At(s.table, n));
  }

  /** A device with the ids of `d`, and no hub, that cannot be opened. */
  predicate ShutTwin(d: Device, e: Device, h: DeviceHal) {
    e.baseClass != 9 && e.vendorId == d.vendorId && e.productId == d.productId && !h.open
  }

  /** What makes the trust-list pass answer that it failed: a shut device with the ids of the last one in the table. */
  lemma FailureIff(h: Hosts, hal: string -> DeviceHal, leq: (string, string) -> bool)
    ensures (exists n :: Greatest(h, leq, n) && !Openable(h, hal, h.devices[n].vendorId, h.devices[n].productId))
            <==> exists n, m :: n in h.devices && m in h.devices && (forall k :: k in h.devices ==> leq(k, n))
                                && ShutTwin(h.devices[n], h.devices[m], hal(m))
  {
    if n, m :| n in h.devices && m in h.devices && (forall k :: k in h.devices ==> leq(k, n))
               && ShutTwin(h.devices[n], h.devices[m], hal(m)) {
      assert Greatest(h, leq, n);
      assert Wanted(h.devices[m], h.devices[n].vendorId, h.devices[n].productId) && !hal(m).open;
    }
  }

  // ---- The type policies ----------------------------------------------------------------------------------

  /** Interfaces are looked at on devices that are no hubs, not disabled, and have their active configuration; it is
      counted from one, in eight bits. */
  predicate LooksInto(d: Device, h: DeviceHal) {
    d.baseClass != 9 && d.status != Disabled && h.activeConfig.Some? && Active(h) < |d.configs|
  }

  function Active(h: DeviceHal): nat
    requires h.activeConfig.Some?
  {
    (h.activeConfig.value + 255) % 256
  }

  /** The pattern that an interface falls under decides it: whether some rule falls under the pattern, too. */
  ghost predicate TypedFace(table: TypeTable, rules: seq<Rule>, disable: bool, i: Interface, i': Interface) {
    && (forall t :: t in table && FitsFace(table[t], i) ==> i'.authorized == (Ruled(table[t], rules, false) != disable))
    && ((forall t :: t in table ==> !FitsFace(table[t], i)) ==> i' == i)
  }

  ghost predicate TypedFaces(table: TypeTable, rules: seq<Rule>, disable: bool, h: DeviceHal, d: Device, d': Device) {
    if LooksInto(d', h) then
      && OnlyFlags(d, d', Active(h))
      && forall k :: 0 <= k < |d.configs[Active(h)].interfaces| ==>
           TypedFace(table, rules, disable, d.configs[Active(h)].interfaces[k], d'.configs[Active(h)].interfaces[k])
    else OnlyStatus(d, d')
  }

  /** So for the device itself, unless it is held, does not open, or the HAL refuses. */
  ghost predicate Typed(table: TypeTable, rules: seq<Rule>, disable: bool, held: bool, h: DeviceHal, d: Device,
                        d': Device)
  {
    && (forall t :: t in table && FitsDevice(table[t], d) ==>
          (d'.status == Disabled <==>
             if held || !h.open || !h.authorize then d.status == Disabled
             else Ruled(table[t], rules, true) == disable))
    && ((forall t :: t in table ==> !FitsDevice(table[t], d)) ==> d'.status == d.status)
  }

  lemma RuledIff(table: TypeTable, rules: seq<Rule>, isDev: bool, t: InterfaceType)
    requires t in table
    ensures Selected(table, rules, isDev, t) <==> Ruled(table[t], rules, isDev)
  {
  }

  lemma TypedDevice(t: Tables, rules: seq<Rule>, disable: bool, held: bool, h: DeviceHal, s: Slot)
    requires ValidTables(t)
    ensures var d' := DeviceTypeWalk(t.device, t.deviceOrder, rules, disable, held, h, s).dev;
            OnlyStatus(s.dev, d') && Typed(t.device, rules, disable, held, h, s.dev, d')
  {
    WalkDecidesDevice(t.device, t.deviceOrder, rules, disable, held, h, s);
    forall u | u in t.device
      ensures Selected(t.device, rules, true, u) <==> Ruled(t.device[u], rules, true)
      ensures CoversDevice(t.device[u], s.dev) <==> FitsDevice(t.device[u], s.dev)
    {
      RuledIff(t.device, rules, true, u);
    }
  }

  lemma SamePlace(d: Device, h: DeviceHal)
    ensures Reached(d, h) <==> LooksInto(d, h)
    ensures Reached(d, h) ==> ActiveIndex(d, h) == Some(Active(h))
  {
  }

  lemma FacesReplaced(d: Device, k: nat, faces: seq<Interface>)
    requires k < |d.configs| && |faces| == |d.configs[k].interfaces|
    requires forall i :: 0 <= i < |faces| ==>
               faces[i] == d.configs[k].interfaces[i].(authorized := faces[i].authorized)
    ensures OnlyFlags(d, WithFaces(d, k, faces), k) && WithFaces(d, k, faces).configs[k].interfaces == faces
  {
  }

  lemma TypedWalk(t: Tables, rules: seq<Rule>, disable: bool, h: DeviceHal, d: Device)
    requires ValidTables(t)
    ensures TypedFaces(t.face, rules, disable, h, d, InterfaceTypeWalk(t.face, t.faceOrder, rules, disable, h, d))
    ensures InterfaceTypeWalk(t.face, t.faceOrder, rules, disable, h, d).status == d.status
  {
    WalkOfFaces(t.face, t.faceOrder, rules, disable, h, d);
    SamePlace(d, h);
    if LooksInto(d, h) {
      TypedInterfaces(t, rules, disable, d.configs[Active(h)].interfaces);
      FacesReplaced(d, Active(h), FacesWalk(t.face, t.faceOrder, rules, disable, d.configs[Active(h)].interfaces));
    }
  }

  lemma TypedInterfaces(t: Tables, rules: seq<Rule>, disable: bool, faces: seq<Interface>)
    requires ValidTables(t)
    ensures var faces' := FacesWalk(t.face, t.faceOrder, rules, disable, faces);
            forall k :: 0 <= k < |faces| ==>
              && faces'[k] == faces[k].(authorized := faces'[k].authorized)
              && TypedFace(t.face, rules, disable, faces[k], faces'[k])
  {
    var faces' := FacesWalk(t.face, t.faceOrder, rules, disable, faces);
    WalkDecidesFaces(t.face, t.faceOrder, rules, disable, faces);
    forall k | 0 <= k < |faces| ensures TypedFace(t.face, rules, disable, faces[k], faces'[k]) {
      TypedOne(t, rules, disable, faces[k], faces'[k]);
    }
  }

  lemma TypedOne(t: Tables, rules: seq<Rule>, disable: bool, i: Interface, i': Interface)
    requires ValidTables(t) && FaceWalked(t.face, t.faceOrder, rules, disable, i, i')
    ensures TypedFace(t.face, rules, disable, i, i')
  {
    forall u | u in t.face
      ensures Selected(t.face, rules, false, u) <==> Ruled(t.face[u], rules, false)
      ensures CoversFace(t.face[u], i) <==> FitsFace(t.face[u], i)
    {
      RuledIff(t.face, rules, false, u);
    }
  }

  lemma TypesDecide(t: Tables, rules: seq<Rule>, disable: bool, held: bool, h: DeviceHal, s: Slot)
    requires ValidTables(t)
    ensures var d' := TypePolicy(t, rules, disable, held, h, s).dev;
            Typed(t.device, rules, disable, held, h, s.dev, d') && TypedFaces(t.face, rules, disable, h, s.dev, d')
  {
    TypedDevice(t, rules, disable, held, h, s);
    TypedWalk(t, rules, disable, h, DeviceTypeWalk(t.device, t.deviceOrder, rules, disable, held, h, s).dev);
  }

  /** The type policy decides every device by its pattern, and every interface it looks at by its own. */
  lemma TypeRequestDecides(c: Setup, s: Host, rules: seq<Rule>, disable: bool, serialOff: bool,
                           hal: string -> DeviceHal, s': Host, n: string)
    requires ValidSetup(c) && Step(c, s, ManageTypes(rules, disable, serialOff, hal), s') && n in s.table.devices
    ensures n in s'.table.devices
    ensures var d, d' := s.table.devices[n], s'.table.devices[n];
            && Typed(c.tables.device, rules, disable, serialOff && UsbDev(d.busNum, d.devAddr) in s.serials, hal(n), d,
                     d')
            && TypedFaces(c.tables.face, rules, disable, hal(n), d, d')
  {
    var held := serialOff && DevOf(s.table.devices[n]) in s.serials;
    TypesDecide(c.tables, rules, disable, held, hal(n), At(s.table, n));
    assert At(s'.table, n) == TypePolicy(c.tables, rules, disable, held, hal(n), At(s.table, n));
  }

  // The permissive policy, without the tables.

  ghost predicate MatchedFaces(rules: seq<Rule>, disable: bool, h: DeviceHal, d: Device, d': Device) {
    if LooksInto(d', h) then
      && OnlyFlags(d, d', Active(h))
      && forall k :: 0 <= k < |d.configs[Active(h)].interfaces| ==>
           d'.configs[Active(h)].interfaces[k].authorized
           == (FaceMatched(rules, d.configs[Active(h)].interfaces[k]) != disable)
    else OnlyStatus(d, d')
  }

  ghost predicate Matched(rules: seq<Rule>, disable: bool, held: bool, h: DeviceHal, d: Device, d': Device) {
    d'.status == Disabled <==>
      if held || !h.authorize then d.status == Disabled else DeviceMatched(rules, d) == disable
  }

  lemma FacesMatch(rules: seq<Rule>, disable: bool, h: DeviceHal, d: Device)
    ensures MatchedFaces(rules, disable, h, d, UsbTypeInterfaces(FaceRules(rules), disable, h, d))
    ensures UsbTypeInterfaces(FaceRules(rules), disable, h, d).status == d.status
  {
    forall i: Interface
      ensures Matches(FaceRules(rules), i.klass, i.subClass, i.protocol) <==> FaceMatched(rules, i)
    {
    }
  }

  lemma MatchesDecide(rules: seq<Rule>, disable: bool, held: bool, h: DeviceHal, s: Slot)
    ensures var d' := UsbType(rules, disable, held, h, s).dev;
            Matched(rules, disable, held, h, s.dev, d') && MatchedFaces(rules, disable, h, s.dev, d')
  {
    var s1 := UsbTypeDevice(DeviceRules(rules), disable, held, h, s);
    assert Matches(DeviceRules(rules), s.dev.baseClass, s.dev.subClass, s.dev.protocol)
           <==> DeviceMatched(rules, s.dev);
    FacesMatch(rules, disable, h, s1.dev);
  }

  /** The permissive policy decides every device and every interface it looks at by whether a rule matches it. */
  lemma UsbTypeRequestDecides(c: Setup, s: Host, rules: seq<Rule>, disable: bool, serialOff: bool,
                              hal: string -> DeviceHal, s': Host, n: string)
    requires ValidSetup(c) && Step(c, s, ManageUsbTypes(rules, disable, serialOff, hal), s') && n in s.table.devices
    ensures n in s'.table.devices
    ensures var d, d' := s.table.devices[n], s'.table.devices[n];
            && Matched(rules, disable, serialOff && UsbDev(d.busNum, d.devAddr) in s.serials, hal(n), d, d')
            && MatchedFaces(rules, disable, hal(n), d, d')
  {
    var held := serialOff && DevOf(s.table.devices[n]) in s.serials;
    MatchesDecide(rules, disable, held, hal(n), At(s.table, n));
    assert At(s'.table, n) == UsbType(rules, disable, held, hal(n), At(s.table, n));
  }
}
