/** The state of the host manager: its device table, and for each name what was done at that address.  A pass over the
    table does to every device what `HostPolicy` says it does to one. */
module HostTables {
  import opened UsbTypes
  import opened TypeTables
  import opened HostPolicy

  datatype UsbDev = UsbDev(busNum: uint8, devAddr: uint8)

  datatype Hosts = Hosts(devices: map<string, Device>, traces: map<string, seq<Action>>)

  function DevOf(d: Device): UsbDev {
    UsbDev(d.busNum, d.devAddr)
  }

  /** Every key is the name of its device; serial devices are listed once and are present. */
  ghost predicate Structured(h: Hosts, serials: seq<UsbDev>, name: UsbDev -> string) {
    && h.devices.Keys <= h.traces.Keys
    && (forall n :: n in h.devices ==> name(DevOf(h.devices[n])) == n)
    && (forall j, k :: 0 <= j < k < |serials| ==> serials[j] != serials[k])
    && (forall u :: u in serials ==> name(u) in h.devices && DevOf(h.devices[name(u)]) == u)
  }

  function At(h: Hosts, n: string): Slot
    requires n in h.devices && n in h.traces
  {
    Slot(h.devices[n], h.traces[n])
  }

  function TraceAt(h: Hosts, n: string): seq<Action> {
    if n in h.traces then h.traces[n] else []
  }

  function Put(h: Hosts, n: string, s: Slot): Hosts {
    Hosts(h.devices[n := s.dev], h.traces[n := s.trace])
  }

  lemma PutSame(h: Hosts, n: string)
    requires n in h.devices && n in h.traces
    ensures Put(h, n, At(h, n)) == h
  {
    assert h.devices[n := h.devices[n]] == h.devices;
    assert h.traces[n := h.traces[n]] == h.traces;
  }

  /** Same names; nothing happens at an address without a device. */
  ghost predicate SameNames(was: Hosts, now: Hosts) {
    && was.devices.Keys <= was.traces.Keys
    && now.devices.Keys == was.devices.Keys && now.traces.Keys == was.traces.Keys
    && (forall n :: n in was.traces && n !in was.devices ==> now.traces[n] == was.traces[n])
  }

  /** What a pass depends on beside the table: whether serial devices are left out, which those are, and the HAL. */
  datatype Env = Env(serialOff: bool, serials: seq<UsbDev>, hal: string -> DeviceHal)

  function StepAt(was: Hosts, pass: Pass, env: Env, n: string): Slot
    requires n in was.devices && n in was.traces
  {
    PassStep(pass, env.serialOff, DevOf(was.devices[n]) in env.serials, env.hal(n), At(was, n))
  }

  /** The pass has been made over all names outside `rest`. */
  ghost predicate Passed(was: Hosts, now: Hosts, pass: Pass, env: Env, rest: set<string>) {
    && SameNames(was, now)
    && forall n :: n in was.devices ==> At(now, n) == if n in rest then At(was, n) else StepAt(was, pass, env, n)
  }

  lemma PassedOne(was: Hosts, before: Hosts, now: Hosts, pass: Pass, env: Env, rest: set<string>, n: string)
    requires Passed(was, before, pass, env, rest) && n in rest && n in was.devices
    requires now == Put(before, n, StepAt(was, pass, env, n))
    ensures Passed(was, now, pass, env, rest - {n})
  {
  }

  ghost predicate SameDevices(was: Hosts, now: Hosts) {
    SameNames(was, now) && forall n :: n in was.devices ==> Kept(At(was, n), At(now, n))
  }

  lemma PassedKeeps(was: Hosts, now: Hosts, pass: Pass, env: Env, rest: set<string>)
    requires Passed(was, now, pass, env, rest)
    ensures SameDevices(was, now)
  {
    forall n | n in was.devices ensures Kept(At(was, n), At(now, n)) {
      PassKeepsImbalance(pass, env.serialOff, DevOf(was.devices[n]) in env.serials, env.hal(n), At(was, n));
    }
  }

  lemma SameDevicesTwice(a: Hosts, b: Hosts, c: Hosts)
    requires SameDevices(a, b) && SameDevices(b, c)
    ensures SameDevices(a, c)
  {
    forall n | n in a.devices ensures Kept(At(a, n), At(c, n)) {
      assert n in b.devices;
      KeptTwice(At(a, n), At(b, n), At(c, n));
    }
  }

  lemma SameDevicesKeepStructure(was: Hosts, now: Hosts, serials: seq<UsbDev>, name: UsbDev -> string)
    requires SameDevices(was, now) && Structured(was, serials, name)
    ensures Structured(now, serials, name)
    ensures forall n :: n in was.devices ==> DevOf(now.devices[n]) == DevOf(was.devices[n])
  {
    forall n | n in was.devices ensures DevOf(now.devices[n]) == DevOf(was.devices[n]) {
      assert Kept(At(was, n), At(now, n));
    }
  }

  // ---- Walking a table of patterns ------------------------------------------------------------------------

  ghost function TypeWalk(table: TypeTable, order: seq<InterfaceType>, rules: seq<Rule>, disable: bool, isDev: bool,
                          held: bool, h: DeviceHal, s: Slot): Slot
    requires forall t :: t in order ==> t in table
  {
    if isDev then DeviceTypeWalk(table, order, rules, disable, held, h, s)
    else s.(dev := InterfaceTypeWalk(table, order, rules, disable, h, s.dev))
  }

  lemma TypeWalkSnoc(table: TypeTable, front: seq<InterfaceType>, t: InterfaceType, rules: seq<Rule>, disable: bool,
                     isDev: bool, serialOff: bool, serial: bool, h: DeviceHal, s: Slot)
    requires t in table && forall u :: u in front ==> u in table
    ensures TypeWalk(table, front + [t], rules, disable, isDev, serialOff && serial, h, s)
            == PassStep(TypePass(table[t], ExecDisable(table, rules, isDev, t, disable), isDev), serialOff, serial, h,
                        TypeWalk(table, front, rules, disable, isDev, serialOff && serial, h, s))
  {
    assert (front + [t])[..|front|] == front;
  }

  ghost function WalkAt(was: Hosts, table: TypeTable, order: seq<InterfaceType>, rules: seq<Rule>, disable: bool,
                        isDev: bool, env: Env, n: string): Slot
    requires n in was.devices && n in was.traces && forall t :: t in order ==> t in table
  {
    TypeWalk(table, order, rules, disable, isDev, env.serialOff && DevOf(was.devices[n]) in env.serials, env.hal(n),
             At(was, n))
  }

  ghost predicate Walked(was: Hosts, now: Hosts, table: TypeTable, order: seq<InterfaceType>, rules: seq<Rule>,
                         disable: bool, isDev: bool, env: Env)
    requires forall t :: t in order ==> t in table
  {
    SameDevices(was, now)
    && forall n :: n in was.devices ==> At(now, n) == WalkAt(was, table, order, rules, disable, isDev, env, n)
  }

  function TypePass(p: Pattern, disable: bool, isDev: bool): Pass {
    if isDev then DeviceTypePass(p, disable) else FaceTypePass(p, disable)
  }

  lemma WalkStarts(h: Hosts, table: TypeTable, rules: seq<Rule>, disable: bool, isDev: bool, env: Env)
    requires h.devices.Keys <= h.traces.Keys
    ensures Walked(h, h, table, [], rules, disable, isDev, env)
  {
  }

  lemma WalkStep(was: Hosts, before: Hosts, now: Hosts, table: TypeTable, front: seq<InterfaceType>, t: InterfaceType,
                 rules: seq<Rule>, disable: bool, isDev: bool, env: Env)
    requires t in table && forall u :: u in front ==> u in table
    requires Walked(was, before, table, front, rules, disable, isDev, env)
    requires Passed(before, now, TypePass(table[t], ExecDisable(table, rules, isDev, t, disable), isDev), env, {})
    ensures Walked(was, now, table, front + [t], rules, disable, isDev, env)
  {
    var pass := TypePass(table[t], ExecDisable(table, rules, isDev, t, disable), isDev);
    PassedKeeps(before, now, pass, env, {});
    SameDevicesTwice(was, before, now);
    forall n | n in was.devices
      ensures At(now, n) == WalkAt(was, table, front + [t], rules, disable, isDev, env, n)
    {
      assert Kept(At(was, n), At(before, n));
      TypeWalkSnoc(table, front, t, rules, disable, isDev, env.serialOff, DevOf(was.devices[n]) in env.serials,
                   env.hal(n), At(was, n));
      assert At(now, n) == StepAt(before, pass, env, n);
    }
  }

  /** The serial devices still to be visited, as names. */
  lemma NextSerial(h: Hosts, serials: seq<UsbDev>, name: UsbDev -> string, rest: set<string>, k: nat)
    requires Structured(h, serials, name) && k < |serials|
    requires forall n :: n in rest <==> n in h.devices && DevOf(h.devices[n]) in serials[k..]
    ensures name(serials[k]) in rest && DevOf(h.devices[name(serials[k])]) == serials[k]
    ensures forall n :: n in rest - {name(serials[k])} <==> n in h.devices && DevOf(h.devices[n]) in serials[k + 1..]
  {
    var u := serials[k];
    assert u in serials && serials[k..] == [u] + serials[k + 1..];
    assert u !in serials[k + 1..];
  }
}
