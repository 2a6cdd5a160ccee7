/** What passes, arrivals and removals do to the broadcasts at one address, and what the serial policy and a newly
    arrived device can count on.  `HostRuns` follows all addresses over whole runs. */
module HostBroadcasts {
  import opened UsbTypes
  import opened TypeTables
  import opened HostPolicy

  lemma {:induction false} WalkKeepsImbalance(table: TypeTable, order: seq<InterfaceType>, rules: seq<Rule>,
                                              disable: bool, held: bool, h: DeviceHal, s: Slot)
    requires forall t :: t in order ==> t in table
    ensures Kept(s, DeviceTypeWalk(table, order, rules, disable, held, h, s))
  {
    if order != [] {
      var front, last := order[..|order| - 1], order[|order| - 1];
      var s1 := DeviceTypeWalk(table, front, rules, disable, held, h, s);
      WalkKeepsImbalance(table, front, rules, disable, held, h, s);
      var exec := ExecDisable(table, rules, true, last, disable);
      AuthorizeKeeps(s1, !exec, h.authorize);
      KeptTwice(s, s1, DeviceTypeStep(table[last], exec, held, h, s1));
    }
  }

  lemma TypePolicyKeepsImbalance(t: Tables, rules: seq<Rule>, disable: bool, held: bool, h: DeviceHal, s: Slot)
    requires ValidTables(t)
    ensures Kept(s, TypePolicy(t, rules, disable, held, h, s))
  {
    var s1 := DeviceTypeWalk(t.device, t.deviceOrder, rules, disable, held, h, s);
    WalkKeepsImbalance(t.device, t.deviceOrder, rules, disable, held, h, s);
    WalkOfFaces(t.face, t.faceOrder, rules, disable, h, s1.dev);
    if Reached(s1.dev, h) {
      var index := ActiveIndex(s1.dev, h).value;
      var faces := FacesWalk(t.face, t.faceOrder, rules, disable, s1.dev.configs[index].interfaces);
      FacesKeep(s1, index, faces);
      KeptTwice(s, s1, s1.(dev := WithFaces(s1.dev, index, faces)));
    }
  }

  lemma UsbTypeKeepsImbalance(rules: seq<Rule>, disable: bool, held: bool, h: DeviceHal, s: Slot)
    ensures Kept(s, UsbType(rules, disable, held, h, s))
  {
    var s1 := UsbTypeDevice(DeviceRules(rules), disable, held, h, s);
    UsbDeviceKeeps(DeviceRules(rules), disable, held, h, s);
    UsbFacesKeep(FaceRules(rules), disable, h, s1);
    KeptTwice(s, s1, s1.(dev := UsbTypeInterfaces(FaceRules(rules), disable, h, s1.dev)));
  }

  lemma {:induction false} RoundsKeep(list: seq<DeviceId>, h: DeviceHal, rounds: nat, s: Slot)
    ensures Kept(s, TrustRounds(list, h, rounds, s))
  {
    if rounds > 0 {
      RoundsKeep(list, h, rounds - 1, s);
      var s1 := TrustRounds(list, h, rounds - 1, s);
      AuthorizeKeeps(s1, Trusted(list, s1.dev) || list == [], h.authorize);
      KeptTwice(s, s1, TrustRounds(list, h, rounds, s));
    }
  }

  lemma StrategyKeepsImbalance(p: Policy, t: Tables, serial: bool, h: DeviceHal, rounds: nat, s: Slot)
    requires ValidTables(t)
    ensures Kept(s, Strategy(p, t, serial, h, rounds, s))
  {
    if p.edm && p.obtained {
      var held := SerialHeld(p, serial);
      if p.globalDisabled {
        GlobalKeeps(true, held, h, s);
      } else {
        var s1 := if p.serialDisable then Serial(true, serial, h, s) else s;
        AuthorizeKeeps(s, false, h.authorize);
        if p.rules == [] {
          RoundsKeep(p.trust, h, rounds, s1);
          KeptTwice(s, s1, TrustRounds(p.trust, h, rounds, s1));
        } else if p.permType {
          UsbTypeKeepsImbalance(p.rules, true, held, h, s1);
          KeptTwice(s, s1, UsbType(p.rules, true, held, h, s1));
        } else {
          TypePolicyKeepsImbalance(t, p.rules, true, held, h, s1);
          KeptTwice(s, s1, TypePolicy(t, p.rules, true, held, h, s1));
        }
      }
    }
  }

  // ---- The serial policy ----------------------------------------------------------------------------------

  /** The trust list is the one policy that looks past the serial policy. `reached`: the trust-list pass comes to the
      device. */
  predicate TrustOverrides(p: Policy, h: DeviceHal, reached: bool, d: Device) {
    && p.rules == [] && p.trust != [] && reached && h.open && h.authorize
    && d.baseClass != BASE_CLASS_HUB && Trusted(p.trust, d)
  }

  /** With the serial policy on, a strategy run leaves a serial device disabled whatever the type rules, and fails to
      exactly when the trust list enables it again. A global ban, or a HAL that refuses, leaves it as it was. */
  lemma SerialDisabledIff(p: Policy, t: Tables, h: DeviceHal, rounds: nat, s: Slot)
    requires ValidTables(t) && p.edm && p.obtained && p.serialDisable
    ensures Strategy(p, t, true, h, rounds, s).dev.status == Disabled
            <==> if p.globalDisabled || !h.authorize then s.dev.status == Disabled
                 else !TrustOverrides(p, h, rounds > 0, s.dev)
  {
    var s1 := Serial(true, true, h, s);
    assert s1.dev.status == if h.authorize then Disabled else s.dev.status;
    if rounds > 0 {
      RoundsSettle(p.trust, h, rounds, s1);
    }
    if !p.globalDisabled && p.rules != [] && !p.permType {
      HeldWalk(t.device, t.deviceOrder, p.rules, true, h, s1);
      WalkOfFaces(t.face, t.faceOrder, p.rules, true, h, s1.dev);
    }
  }

  lemma {:induction false} HeldWalk(table: TypeTable, order: seq<InterfaceType>, rules: seq<Rule>, disable: bool,
                                    h: DeviceHal, s: Slot)
    requires forall t :: t in order ==> t in table
    ensures DeviceTypeWalk(table, order, rules, disable, true, h, s) == s
  {
    if order != [] {
      HeldWalk(table, order[..|order| - 1], rules, disable, h, s);
    }
  }

  // ---- Arrivals -------------------------------------------------------------------------------------------

  /** The serial policy disables the new device and the trust list enables, and so publishes, it again. */
  predicate Republished(p: Policy, serial: bool, h: DeviceHal, reached: bool, d: Device) {
    p.edm && p.obtained && !p.globalDisabled && p.serialDisable && serial && TrustOverrides(p, h, reached, d)
  }

  /** The patterns are disjoint, so that the type policy authorises a device at most once: it may disable one that has
      just arrived, but not enable it again. */
  lemma TypePolicyPublishesNothing(t: Tables, rules: seq<Rule>, disable: bool, held: bool, h: DeviceHal, s: Slot)
    requires ValidTables(t) && (s.dev.status == NewArrived || (held && s.dev.status == Disabled))
    ensures TypePolicy(t, rules, disable, held, h, s).dev.status != Enabled
  {
    WalkDecidesDevice(t.device, t.deviceOrder, rules, disable, held, h, s);
    var s1 := DeviceTypeWalk(t.device, t.deviceOrder, rules, disable, held, h, s);
    WalkOfFaces(t.face, t.faceOrder, rules, disable, h, s1.dev);
    if u :| u in t.deviceOrder && CoversDevice(t.device[u], s.dev) {
      assert s1.dev.status != Enabled;
    }
  }

  /** No strategy run publishes a newly arrived device, save in that one case. */
  lemma PublishedIff(p: Policy, t: Tables, serial: bool, h: DeviceHal, rounds: nat, s: Slot)
    requires ValidTables(t) && s.dev.status == NewArrived
    ensures Strategy(p, t, serial, h, rounds, s).dev.status == Enabled
            <==> Republished(p, serial, h, rounds > 0, s.dev)
  {
    if p.edm && p.obtained && !p.globalDisabled {
      var s1 := if p.serialDisable then Serial(true, serial, h, s) else s;
      if p.rules != [] {
        if !p.permType {
          TypePolicyPublishesNothing(t, p.rules, true, SerialHeld(p, serial), h, s1);
        }
      } else if rounds > 0 {
        RoundsSettle(p.trust, h, rounds, s1);
      }
    }
  }

  /** A device that has just taken its place, after what was done at its address before. */
  function Appearance(d: Device, trace: seq<Action>): Slot {
    Slot(d.(status := NewArrived), trace + [Appeared])
  }

  /** What an arrival makes of the new device. */
  ghost function Arrival(p: Policy, t: Tables, serial: bool, h: DeviceHal, rounds: nat, d: Device,
                         trace: seq<Action>): Slot
    requires ValidTables(t)
  {
    Published(Strategy(p, t, serial, h, rounds, Appearance(d, trace)))
  }

  /** A device that the strategy did not disable is enabled and announced. */
  function Published(s: Slot): Slot {
    if s.dev.status == Disabled then s else Slot(s.dev.(status := Enabled), s.trace + [Attached])
  }

  lemma ArrivalImbalance(p: Policy, t: Tables, serial: bool, h: DeviceHal, rounds: nat, d: Device,
                         trace: seq<Action>)
    requires ValidTables(t)
    ensures Imbalance(Arrival(p, t, serial, h, rounds, d, trace))
            == Balance(trace) + if Republished(p, serial, h, rounds > 0, d) then 1 else 0
    ensures SameDevice(d, Arrival(p, t, serial, h, rounds, d, trace).dev)
    ensures AsksForChange(trace) ==> Honest(Arrival(p, t, serial, h, rounds, d, trace))
  {
    var fresh0 := Appearance(d, trace);
    BalanceSnoc(trace, Appeared);
    OnSnoc(trace, Appeared);
    var s := Strategy(p, t, serial, h, rounds, fresh0);
    StrategyKeepsImbalance(p, t, serial, h, rounds, fresh0);
    PublishedIff(p, t, serial, h, rounds, fresh0);
    BalanceSnoc(s.trace, Attached);
    OnSnoc(s.trace, Attached);
  }

  /** What a removal adds to the trace of an address. */
  function Departure(s: Slot): seq<Action> {
    s.trace + if s.dev.status == Enabled then [Detached] else []
  }

  lemma DepartureBalance(s: Slot)
    ensures Balance(Departure(s)) == Imbalance(s)
    ensures AsksForChange(s.trace) ==> AsksForChange(Departure(s))
  {
    BalanceSnoc(s.trace, Detached);
    OnSnoc(s.trace, Detached);
    assert s.trace + [] == s.trace;
  }
}
