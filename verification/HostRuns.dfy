/** The host manager over whole runs of requests: every reachable state is well structured, and the broadcasts of every
    address add up. `HostManager` proves that its methods are the steps taken here. */
module HostRuns {
  import opened UsbTypes
  import opened KeyedMaps
  import opened HostPolicy
  import opened HostBroadcasts
  import opened HostTables
  import opened HostTrust
  import opened HostReviews
  import opened KeyOrder

  /** The device table and the list of serial devices. */
  datatype Host = Host(table: Hosts, serials: seq<UsbDev>)

  const NO_DEVICES: Host := Host(Hosts(map[], map[]), [])

  /** What does not change: how devices are named, how names are ordered, and the two pattern tables. */
  datatype Setup = Setup(name: UsbDev -> string, leq: (string, string) -> bool, tables: Tables)

  ghost predicate ValidSetup(c: Setup) {
    Injective(c.name) && TotalOrder(c.leq) && ValidTables(c.tables)
  }

  /** Requests, each with the answers of the HAL and of the services it asks. */
  datatype Event =
    | Manage(pass: Pass, serialOff: bool, hal: string -> DeviceHal)
    | ManageTypes(rules: seq<Rule>, disable: bool, serialOff: bool, hal: string -> DeviceHal)
    | ManageUsbTypes(rules: seq<Rule>, disable: bool, serialOff: bool, hal: string -> DeviceHal)
    | ManageIds(vendorId: int32, productId: int32, disable: bool, hal: string -> DeviceHal)
    | ManageTrustList(trust: seq<DeviceId>, hal: string -> DeviceHal)
    | RunStrategy(policy: Policy, hal: string -> DeviceHal)
    | Arrive(dev: Device, ports: Option<seq<UsbDev>>, policy: Policy, hal: string -> DeviceHal)
    | Leave(address: UsbDev)

  function WithSerial(serials: seq<UsbDev>, u: UsbDev, ports: Option<seq<UsbDev>>): seq<UsbDev> {
    if ports.Some? && u in ports.value && u !in serials then serials + [u] else serials
  }

  /** A new device takes its place, whatever was there. */
  function Placed(h: Hosts, n: string, d: Device): Hosts {
    Put(h, n, Appearance(d, TraceAt(h, n)))
  }

  /** The new device goes through its arrival, every other through a review. */
  ghost predicate Arrived(was: Hosts, now: Hosts, d: Device, n: string, r: Review)
    requires ValidReview(r)
  {
    && was.devices.Keys <= was.traces.Keys
    && now.devices.Keys == was.devices.Keys + {n} && now.traces.Keys == was.traces.Keys + {n}
    && At(now, n) == Arrival(r.policy, r.tables, DevOf(d) in r.serials, r.hal(n),
                             RoundsAt(Placed(was, n, d), r.hal, r.leq, n), d, TraceAt(was, n))
    && (forall m :: m in was.devices && m != n ==> At(now, m) == ReviewAt(Placed(was, n, d), r, m))
    && (forall m :: m in was.traces && m !in was.devices && m != n ==> now.traces[m] == was.traces[m])
  }

  /** A removal announces an enabled device only. */
  ghost predicate Left(s: Host, n: string, s': Host) {
    if n in s.table.devices && n in s.table.traces then
      && s'.table == Hosts(s.table.devices - {n}, s.table.traces[n := Departure(At(s.table, n))])
      && (forall v :: v in s'.serials <==> v in s.serials && v != DevOf(s.table.devices[n]))
      && (forall j, k :: 0 <= j < k < |s'.serials| ==> s'.serials[j] != s'.serials[k])
    else s' == s
  }

  ghost predicate Managed(c: Setup, s: Host, e: Event, now: Hosts)
    requires ValidSetup(c)
  {
    match e
    case Manage(pass, serialOff, hal) => Passed(s.table, now, pass, Env(serialOff, s.serials, hal), {})
    case ManageTypes(rules, disable, serialOff, hal) =>
      TypePolicyDone(s.table, now, c.tables, rules, disable, Env(serialOff, s.serials, hal))
    case ManageUsbTypes(rules, disable, serialOff, hal) =>
      UsbTypeDone(s.table, now, rules, disable, Env(serialOff, s.serials, hal))
    case ManageIds(vendorId, productId, disable, hal) =>
      AuthorizedById(s.table, now, vendorId, productId, disable, hal, c.leq)
    case ManageTrustList(list, hal) => TrustDone(s.table, now, list, hal, c.leq)
    case RunStrategy(p, hal) => Reviewed(s.table, now, Review(p, c.tables, s.serials, hal, c.leq))
    case Arrive(_, _, _, _) => false
    case Leave(_) => false
  }

  ghost predicate Step(c: Setup, s: Host, e: Event, s': Host)
    requires ValidSetup(c)
  {
    if e.Arrive? then
      s'.serials == WithSerial(s.serials, DevOf(e.dev), e.ports)
      && Arrived(s.table, s'.table, e.dev, c.name(DevOf(e.dev)), Review(e.policy, c.tables, s'.serials, e.hal, c.leq))
    else if e.Leave? then Left(s, c.name(e.address), s')
    else s'.serials == s.serials && Managed(c, s, e, s'.table)
  }

  // ---- Structure ------------------------------------------------------------------------------------------

  ghost predicate WellStructured(c: Setup, s: Host) {
    Structured(s.table, s.serials, c.name)
  }

  lemma ManagedSame(c: Setup, s: Host, e: Event, now: Hosts)
    requires ValidSetup(c) && Managed(c, s, e, now)
    ensures SameDevices(s.table, now)
  {
    match e
    case Manage(pass, serialOff, hal) => PassedKeeps(s.table, now, pass, Env(serialOff, s.serials, hal), {});
    case ManageIds(v, p, disable, hal) => AuthorizedByIdKeeps(s.table, now, v, p, disable, hal, c.leq);
    case RunStrategy(p, hal) => ReviewedKeeps(s.table, now, Review(p, c.tables, s.serials, hal, c.leq));
    case _ =>
  }

  lemma ArrivalAddresses(was: Hosts, now: Hosts, d: Device, n: string, r: Review, m: string)
    requires ValidReview(r) && Arrived(was, now, d, n, r) && m in now.devices
    ensures DevOf(now.devices[m]) == if m == n then DevOf(d) else DevOf(was.devices[m])
  {
    var placed := Placed(was, n, d);
    if m == n {
      ArrivalImbalance(r.policy, r.tables, DevOf(d) in r.serials, r.hal(n), RoundsAt(placed, r.hal, r.leq, n), d,
                       TraceAt(was, n));
    } else {
      assert At(now, m) == ReviewAt(placed, r, m);
      StrategyKeepsImbalance(r.policy, r.tables, DevOf(placed.devices[m]) in r.serials, r.hal(m),
                             RoundsAt(placed, r.hal, r.leq, m), At(placed, m));
    }
  }

  lemma SerialsStayPresent(c: Setup, s: Host, e: Event, devices: map<string, Device>)
    requires ValidSetup(c) && WellStructured(c, s) && e.Arrive?
    requires devices.Keys == s.table.devices.Keys + {c.name(DevOf(e.dev))}
    requires forall m :: m in devices ==>
               DevOf(devices[m]) == if m == c.name(DevOf(e.dev)) then DevOf(e.dev) else DevOf(s.table.devices[m])
    ensures var serials := WithSerial(s.serials, DevOf(e.dev), e.ports);
            && (forall j, k :: 0 <= j < k < |serials| ==> serials[j] != serials[k])
            && (forall u :: u in serials ==> c.name(u) in devices && DevOf(devices[c.name(u)]) == u)
  {
  }

  lemma ArrivalStructured(c: Setup, s: Host, e: Event, s': Host)
    requires ValidSetup(c) && WellStructured(c, s) && e.Arrive? && Step(c, s, e, s')
    ensures WellStructured(c, s')
  {
    var n, r := c.name(DevOf(e.dev)), Review(e.policy, c.tables, s'.serials, e.hal, c.leq);
    ArrivalKeepsAddresses(s.table, s'.table, e.dev, n, r);
    NamesStay(c, s, e.dev, s'.table.devices);
    SerialsStayPresent(c, s, e, s'.table.devices);
  }

  lemma ArrivalKeepsAddresses(was: Hosts, now: Hosts, d: Device, n: string, r: Review)
    requires ValidReview(r) && Arrived(was, now, d, n, r)
    ensures forall m :: m in now.devices ==>
              DevOf(now.devices[m]) == if m == n then DevOf(d) else DevOf(was.devices[m])
  {
    forall m | m in now.devices
      ensures DevOf(now.devices[m]) == if m == n then DevOf(d) else DevOf(was.devices[m])
    {
      ArrivalAddresses(was, now, d, n, r, m);
    }
  }

  lemma NamesStay(c: Setup, s: Host, d: Device, devices: map<string, Device>)
    requires WellStructured(c, s) && devices.Keys == s.table.devices.Keys + {c.name(DevOf(d))}
    requires forall m :: m in devices ==>
               DevOf(devices[m]) == if m == c.name(DevOf(d)) then DevOf(d) else DevOf(s.table.devices[m])
    ensures forall m :: m in devices ==> c.name(DevOf(devices[m])) == m
  {
  }

  lemma DepartureStructured(c: Setup, s: Host, e: Event, s': Host)
    requires ValidSetup(c) && WellStructured(c, s) && e.Leave? && Step(c, s, e, s')
    ensures WellStructured(c, s')
  {
    var n := c.name(e.address);
    if n in s.table.devices {
      forall u | u in s'.serials ensures c.name(u) in s'.table.devices && DevOf(s'.table.devices[c.name(u)]) == u {
        assert u in s.serials;
      }
    }
  }

  lemma StepStructured(c: Setup, s: Host, e: Event, s': Host)
    requires ValidSetup(c) && WellStructured(c, s) && Step(c, s, e, s')
    ensures WellStructured(c, s')
  {
    if e.Arrive? {
      ArrivalStructured(c, s, e, s');
    } else if e.Leave? {
      DepartureStructured(c, s, e, s');
    } else {
      ManagedSame(c, s, e, s'.table);
      SameDevicesKeepStructure(s.table, s'.table, s.serials, c.name);
    }
  }

  // ---- The books of one step ------------------------------------------------------------------------------

  function Present(h: Hosts, n: string): int {
    if n in h.devices then EnabledCount(h.devices[n].status) else 0
  }

  /** Zero when attached minus detached broadcasts of an address is one exactly while it holds an enabled device. */
  function Books(h: Hosts, n: string): int {
    Balance(TraceAt(h, n)) - Present(h, n)
  }

  /** The two ways in which an arrival upsets the books: it replaces an enabled device unannounced, or it announces a
      device that the trust list did already.  All of this can be told before the arrival. */
  ghost function Upset(c: Setup, s: Host, e: Event, n: string): int {
    if e.Arrive? && n == c.name(DevOf(e.dev)) then
      Present(s.table, n) + if AnnouncedTwice(c, s, e, n) then 1 else 0
    else 0
  }

  ghost predicate AnnouncedTwice(c: Setup, s: Host, e: Event, n: string)
    requires e.Arrive?
  {
    Republished(e.policy, DevOf(e.dev) in WithSerial(s.serials, DevOf(e.dev), e.ports), e.hal(n),
                Reachable(Placed(s.table, n, e.dev), e.hal, c.leq, n), e.dev)
  }

  lemma SameDevicesBooks(was: Hosts, now: Hosts, n: string)
    requires SameDevices(was, now)
    ensures Books(now, n) == Books(was, n)
  {
    if n in was.devices {
      assert Kept(At(was, n), At(now, n));
    }
  }

  lemma ArrivalBooks(c: Setup, s: Host, e: Event, s': Host, n: string)
    requires ValidSetup(c) && WellStructured(c, s) && e.Arrive? && Step(c, s, e, s')
    ensures Books(s'.table, n) == Books(s.table, n) + Upset(c, s, e, n)
  {
    var a, r := c.name(DevOf(e.dev)), Review(e.policy, c.tables, s'.serials, e.hal, c.leq);
    if n == a {
      ArrivalHere(s.table, s'.table, e.dev, n, r);
    } else if n in s.table.devices {
      ArrivalElsewhere(s.table, s'.table, e.dev, a, r, n);
    }
  }

  lemma ArrivalHere(was: Hosts, now: Hosts, d: Device, n: string, r: Review)
    requires ValidReview(r) && Arrived(was, now, d, n, r)
    ensures Books(now, n)
            == Balance(TraceAt(was, n))
               + if Republished(r.policy, DevOf(d) in r.serials, r.hal(n),
                                Reachable(Placed(was, n, d), r.hal, r.leq, n), d) then 1 else 0
    ensures AsksForChange(TraceAt(was, n)) ==> Honest(At(now, n))
  {
    var placed := Placed(was, n, d);
    ReachedIff(placed, r.hal, r.leq, n);
    ArrivalImbalance(r.policy, r.tables, DevOf(d) in r.serials, r.hal(n), RoundsAt(placed, r.hal, r.leq, n), d,
                     TraceAt(was, n));
    assert Books(now, n) == Imbalance(At(now, n));
  }

  lemma ArrivalElsewhere(was: Hosts, now: Hosts, d: Device, n: string, r: Review, m: string)
    requires ValidReview(r) && Arrived(was, now, d, n, r) && m in was.devices && m != n
    ensures Kept(At(was, m), At(now, m)) && Books(now, m) == Books(was, m)
  {
    var placed := Placed(was, n, d);
    assert At(placed, m) == At(was, m);
    assert At(now, m) == ReviewAt(placed, r, m);
    StrategyKeepsImbalance(r.policy, r.tables, DevOf(placed.devices[m]) in r.serials, r.hal(m),
                           RoundsAt(placed, r.hal, r.leq, m), At(placed, m));
  }

  lemma DepartureBooks(c: Setup, s: Host, e: Event, s': Host, n: string)
    requires ValidSetup(c) && WellStructured(c, s) && e.Leave? && Step(c, s, e, s')
    ensures Books(s'.table, n) == Books(s.table, n)
  {
    if n == c.name(e.address) && n in s.table.devices {
      DepartureBalance(At(s.table, n));
    }
  }

  /** Any request moves the books of any address by exactly its upset there. */
  lemma StepBooks(c: Setup, s: Host, e: Event, s': Host, n: string)
    requires ValidSetup(c) && WellStructured(c, s) && Step(c, s, e, s')
    ensures Books(s'.table, n) == Books(s.table, n) + Upset(c, s, e, n)
  {
    if e.Arrive? {
      ArrivalBooks(c, s, e, s', n);
    } else if e.Leave? {
      DepartureBooks(c, s, e, s', n);
    } else {
      ManagedSame(c, s, e, s'.table);
      SameDevicesBooks(s.table, s'.table, n);
    }
  }

  // ---- Whole runs -----------------------------------------------------------------------------------------

  ghost predicate IsRun(c: Setup, run: seq<Host>, es: seq<Event>)
    requires ValidSetup(c)
  {
    |run| == |es| + 1 && run[0] == NO_DEVICES && forall k :: 0 <= k < |es| ==> Step(c, run[k], es[k], run[k + 1])
  }

  ghost function Upsets(c: Setup, run: seq<Host>, es: seq<Event>, n: string): int
    requires |run| == |es| + 1
  {
    if es == [] then 0
    else Upsets(c, run[..|es|], es[..|es| - 1], n) + Upset(c, run[|es| - 1], es[|es| - 1], n)
  }

  lemma Shorter(c: Setup, run: seq<Host>, es: seq<Event>)
    requires ValidSetup(c) && IsRun(c, run, es) && es != []
    ensures IsRun(c, run[..|es|], es[..|es| - 1]) && run[..|es|][|es| - 1] == run[|es| - 1]
    ensures Step(c, run[|es| - 1], es[|es| - 1], run[|es|])
  {
    var k := |es| - 1;
    forall j | 0 <= j < k ensures Step(c, run[..k + 1][j], es[..k][j], run[..k + 1][j + 1]) {
      assert Step(c, run[j], es[j], run[j + 1]);
    }
  }

  /** In every reachable state each key is the name of its device, and serial devices are listed once and present. */
  lemma {:induction false} StructuredAlways(c: Setup, run: seq<Host>, es: seq<Event>)
    requires ValidSetup(c) && IsRun(c, run, es)
    ensures WellStructured(c, run[|es|])
  {
    if es != [] {
      var k := |es| - 1;
      Shorter(c, run, es);
      StructuredAlways(c, run[..k + 1], es[..k]);
      StepStructured(c, run[k], es[k], run[k + 1]);
    }
  }

  /** Over every run and at every address, attached minus detached broadcasts exceed the enabled devices by exactly the
      upsets. */
  lemma {:induction false} BooksOverRuns(c: Setup, run: seq<Host>, es: seq<Event>, n: string)
    requires ValidSetup(c) && IsRun(c, run, es)
    ensures Balance(TraceAt(run[|es|].table, n)) == Present(run[|es|].table, n) + Upsets(c, run, es, n)
  {
    if es != [] {
      var k := |es| - 1;
      Shorter(c, run, es);
      BooksOverRuns(c, run[..k + 1], es[..k], n);
      StructuredAlways(c, run[..k + 1], es[..k]);
      StepBooks(c, run[k], es[k], run[k + 1], n);
    }
  }

  lemma {:induction false} UpsetsNeverCancel(c: Setup, run: seq<Host>, es: seq<Event>, n: string)
    requires |run| == |es| + 1
    ensures Upsets(c, run, es, n) >= 0
    ensures Upsets(c, run, es, n) == 0 <==> forall k :: 0 <= k < |es| ==> Upset(c, run[k], es[k], n) == 0
  {
    if es != [] {
      var last := |es| - 1;
      var front, past := es[..last], run[..last + 1];
      UpsetsNeverCancel(c, past, front, n);
      assert forall k :: 0 <= k < last ==> past[k] == run[k] && front[k] == es[k];
    }
  }

  /** The balance of an address is one exactly while it holds an enabled device, if and only if no arrival there
      replaced an enabled device or was announced twice. */
  lemma {:induction false} BroadcastsBalancedIff(c: Setup, run: seq<Host>, es: seq<Event>, n: string)
    requires ValidSetup(c) && IsRun(c, run, es)
    ensures Balance(TraceAt(run[|es|].table, n)) == Present(run[|es|].table, n)
            <==> forall k :: 0 <= k < |es| && es[k].Arrive? && c.name(DevOf(es[k].dev)) == n ==>
                   Present(run[k].table, n) == 0 && !AnnouncedTwice(c, run[k], es[k], n)
  {
    BooksOverRuns(c, run, es, n);
    UpsetsNeverCancel(c, run, es, n);
  }

  // ---- Runs that fail -------------------------------------------------------------------------------------

  /** A HAL that grants everything. */
  function Willing(): string -> DeviceHal {
    n => DeviceHal(true, true, None)
  }

  /** Serial devices are disabled, but this one is on the trust list. */
  function SerialYetTrusted(d: Device): Policy {
    Policy(true, true, false, true, [], false, [DeviceId(d.productId, d.vendorId)])
  }

  const UNMANAGED: Policy := Policy(false, false, false, false, [], false, [])

  /** The first arrival of a serial device that is on the trust list is announced twice. */
  lemma TwiceAnnounced(c: Setup, d: Device, s': Host)
    requires ValidSetup(c) && d.baseClass != BASE_CLASS_HUB
    requires Step(c, NO_DEVICES, Arrive(d, Some([DevOf(d)]), SerialYetTrusted(d), Willing()), s')
    ensures Present(s'.table, c.name(DevOf(d))) == 1 && Balance(TraceAt(s'.table, c.name(DevOf(d)))) == 2
  {
    var n, e := c.name(DevOf(d)), Arrive(d, Some([DevOf(d)]), SerialYetTrusted(d), Willing());
    StepBooks(c, NO_DEVICES, e, s', n);
    assert DeviceId(d.productId, d.vendorId) in e.policy.trust;
    assert Reachable(Placed(NO_DEVICES.table, n, d), e.hal, c.leq, n);
    assert AnnouncedTwice(c, NO_DEVICES, e, n);
    ArrivalPresent(c, NO_DEVICES, e, s');
  }

  /** An arrival that is announced twice ends with the device enabled. */
  lemma ArrivalPresent(c: Setup, s: Host, e: Event, s': Host)
    requires ValidSetup(c) && WellStructured(c, s) && e.Arrive? && Step(c, s, e, s')
    requires AnnouncedTwice(c, s, e, c.name(DevOf(e.dev))) || !e.policy.edm
    ensures Present(s'.table, c.name(DevOf(e.dev))) == 1
  {
    var n, r := c.name(DevOf(e.dev)), Review(e.policy, c.tables, s'.serials, e.hal, c.leq);
    var placed := Placed(s.table, n, e.dev);
    ReachedIff(placed, r.hal, r.leq, n);
    PublishedIff(r.policy, r.tables, DevOf(e.dev) in r.serials, r.hal(n), RoundsAt(placed, r.hal, r.leq, n),
                 Appearance(e.dev, TraceAt(s.table, n)));
  }

  /** A second arrival at the address of an enabled device is announced, the end of the first device is not. */
  lemma ReplacedSilently(c: Setup, d: Device, s1: Host, s2: Host)
    requires ValidSetup(c)
    requires Step(c, NO_DEVICES, Arrive(d, None, UNMANAGED, Willing()), s1)
    requires Step(c, s1, Arrive(d, None, UNMANAGED, Willing()), s2)
    ensures Present(s2.table, c.name(DevOf(d))) == 1 && Balance(TraceAt(s2.table, c.name(DevOf(d)))) == 2
  {
    var n, e := c.name(DevOf(d)), Arrive(d, None, UNMANAGED, Willing());
    StepBooks(c, NO_DEVICES, e, s1, n);
    StepStructured(c, NO_DEVICES, e, s1);
    StepBooks(c, s1, e, s2, n);
    ArrivalPresent(c, NO_DEVICES, e, s1);
    ArrivalPresent(c, s1, e, s2);
  }

  lemma UnmanagedArrival(c: Setup, s: Host, d: Device, s': Host)
    requires ValidSetup(c) && WellStructured(c, s) && Step(c, s, Arrive(d, None, UNMANAGED, Willing()), s')
    ensures s'.table.devices == s.table.devices[c.name(DevOf(d)) := d.(status := Enabled)]
  {
    var n, r := c.name(DevOf(d)), Review(UNMANAGED, c.tables, s'.serials, Willing(), c.leq);
    forall m | m in s.table.devices && m != n ensures s'.table.devices[m] == s.table.devices[m] {
      UnmanagedElsewhere(s.table, s'.table, d, n, r, m);
    }
  }

  lemma UnmanagedElsewhere(was: Hosts, now: Hosts, d: Device, n: string, r: Review, m: string)
    requires ValidReview(r) && !r.policy.edm && Arrived(was, now, d, n, r) && m in was.devices && m != n
    ensures now.devices[m] == was.devices[m]
  {
    assert At(now, m) == ReviewAt(Placed(was, n, d), r, m);
  }

  /** Only the device named `n` cannot be opened. */
  function ShutOnly(n: string): string -> DeviceHal {
    m => DeviceHal(m != n, true, None)
  }

  function IdOf(d: Device): DeviceId {
    DeviceId(d.productId, d.vendorId)
  }

  /** The table of two enabled devices, in the order of their names. */
  ghost predicate TwoEnabled(c: Setup, h: Hosts, d1: Device, d2: Device) {
    && var n1, n2 := c.name(DevOf(d1)), c.name(DevOf(d2));
       n1 != n2 && c.leq(n1, n2) && h.devices == map[n1 := d1.(status := Enabled), n2 := d2.(status := Enabled)]
  }

  lemma SecondIsGreatest(c: Setup, h: Hosts, d1: Device, d2: Device)
    requires TotalOrder(c.leq) && TwoEnabled(c, h, d1, d2)
    ensures forall n :: Greatest(h, c.leq, n) ==> n == c.name(DevOf(d2))
  {
    assert Lawful(c.leq, c.name(DevOf(d1)), c.name(DevOf(d2)), c.name(DevOf(d1)));
  }

  /** A trust list names the second of two enabled devices; the first is not on it, and cannot be opened. The pass
      leaves it enabled, and the devices that the answer speaks of can all be opened. */
  lemma UntrustedStays(c: Setup, was: Hosts, now: Hosts, d1: Device, d2: Device)
    requires TotalOrder(c.leq) && TwoEnabled(c, was, d1, d2) && IdOf(d1) != IdOf(d2) && d1.baseClass != BASE_CLASS_HUB
    requires TrustDone(was, now, [IdOf(d2)], ShutOnly(c.name(DevOf(d1))), c.leq)
    ensures !Trusted([IdOf(d2)], d1) && Present(now, c.name(DevOf(d1))) == 1
    ensures forall n :: Greatest(was, c.leq, n) ==>
              Openable(was, ShutOnly(c.name(DevOf(d1))), was.devices[n].vendorId, was.devices[n].productId)
  {
    var n1, n2, hal := c.name(DevOf(d1)), c.name(DevOf(d2)), ShutOnly(c.name(DevOf(d1)));
    SecondIsGreatest(c, was, d1, d2);
    assert Lawful(c.leq, n1, n1, n1);
    assert Wanted(was.devices[n1], d1.vendorId, d1.productId) && !hal(n1).open;
    assert !Reachable(was, hal, c.leq, n1);
    assert At(now, n1) == TrustRounds([IdOf(d2)], hal(n1), 0, At(was, n1));
  }
}
