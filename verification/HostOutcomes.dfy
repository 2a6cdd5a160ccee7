/** What a run of the strategy, an arrival and a removal come to for every device, in the terms of `HostDecisions`. */
module HostOutcomes {
  import opened UsbTypes
  import opened HostPolicy
  import opened HostBroadcasts
  import opened HostTables
  import opened HostTrust
  import opened HostReviews
  import opened HostRuns
  import opened HostDecisions

  /** The device once the serial policy, if it is on, has disabled the serial devices. */
  function AfterSerials(p: Policy, serial: bool, h: DeviceHal, d: Device): Device {
    if p.serialDisable && serial && h.authorize then d.(status := Disabled) else d
  }

  /** A ban comes before everything else; then the serial policy; then the rules, by tables or by themselves; and only
      where there are no rules, the trust list, if it is not empty. */
  ghost predicate StrategyOutcome(p: Policy, t: Tables, serial: bool, h: DeviceHal, reached: bool, d: Device,
                                  d': Device)
  {
    var held, mid := p.serialDisable && serial, AfterSerials(p, serial, h, d);
    if !p.edm || !p.obtained then d' == d
    else if p.globalDisabled then Banned(d, d', held, h)
    else if p.rules != [] then
      if p.permType then Matched(p.rules, true, held, h, mid, d') && MatchedFaces(p.rules, true, h, mid, d')
      else Typed(t.device, p.rules, true, held, h, mid, d') && TypedFaces(t.face, p.rules, true, h, mid, d')
    else
      && OnlyStatus(d, d')
      && (d'.status == Disabled <==>
            if p.trust != [] && reached && h.authorize then DeviceId(d.productId, d.vendorId) !in p.trust
            else mid.status == Disabled)
  }

  lemma SerialsFirst(p: Policy, serial: bool, h: DeviceHal, s: Slot)
    ensures (if p.serialDisable then Serial(true, serial, h, s) else s).dev == AfterSerials(p, serial, h, s.dev)
  {
  }

  lemma StrategyDecides(p: Policy, t: Tables, serial: bool, h: DeviceHal, rounds: nat, s: Slot)
    requires ValidTables(t) && (rounds > 0 ==> s.dev.baseClass != 9 && h.open)
    ensures StrategyOutcome(p, t, serial, h, rounds > 0, s.dev, Strategy(p, t, serial, h, rounds, s).dev)
  {
    var held := p.serialDisable && serial;
    if p.edm && p.obtained {
      if p.globalDisabled {
        GlobalDecides(true, held, h, s);
      } else {
        var s1 := if p.serialDisable then Serial(true, serial, h, s) else s;
        SerialsFirst(p, serial, h, s);
        StrategyBySteps(p, t, serial, h, rounds, s, s1);
        if p.rules == [] {
          TrustDecides(p.trust, h, rounds, s1);
        } else if p.permType {
          MatchesDecide(p.rules, true, held, h, s1);
        } else {
          TypesDecide(t, p.rules, true, held, h, s1);
        }
      }
    }
  }

  lemma ReviewDecides(was: Hosts, r: Review, n: string)
    requires ValidReview(r) && n in was.devices && n in was.traces
    ensures StrategyOutcome(r.policy, r.tables, DevOf(was.devices[n]) in r.serials, r.hal(n),
                            ComesTo(was.devices, r.hal, r.leq, n), was.devices[n], ReviewAt(was, r, n).dev)
  {
    ComesToIff(was, r.hal, r.leq, n);
    StrategyDecides(r.policy, r.tables, DevOf(was.devices[n]) in r.serials, r.hal(n), RoundsAt(was, r.hal, r.leq, n),
                    At(was, n));
  }

  /** A run of the strategy comes to its outcome for every device. */
  lemma StrategyRequestDecides(c: Setup, s: Host, p: Policy, hal: string -> DeviceHal, s': Host, n: string)
    requires ValidSetup(c) && Step(c, s, RunStrategy(p, hal), s') && n in s.table.devices
    ensures n in s'.table.devices
    ensures StrategyOutcome(p, c.tables, DevOf(s.table.devices[n]) in s.serials, hal(n),
                            ComesTo(s.table.devices, hal, c.leq, n), s.table.devices[n], s'.table.devices[n])
  {
    var r := Review(p, c.tables, s.serials, hal, c.leq);
    ReviewDecides(s.table, r, n);
    assert At(s'.table, n) == ReviewAt(s.table, r, n);
  }

  // ---- Arrivals and removals ------------------------------------------------------------------------------

  /** Enabled in the end, unless disabled. */
  predicate EnabledUnlessDisabled(d: Device, d': Device) {
    d' == d.(status := if d.status == Disabled then Disabled else Enabled)
  }

  ghost predicate NewOutcome(p: Policy, t: Tables, serial: bool, h: DeviceHal, reached: bool, d: Device, d': Device) {
    exists mid :: StrategyOutcome(p, t, serial, h, reached, d.(status := NewArrived), mid)
                  && EnabledUnlessDisabled(mid, d')
  }

  /** The new device takes its place, and the strategy runs over all devices with it among them; if that does not
      disable it, it is enabled. It counts as a serial device if its port is listed. */
  lemma ArrivalDecides(c: Setup, s: Host, d: Device, ports: Option<seq<UsbDev>>, p: Policy,
                       hal: string -> DeviceHal, s': Host, n: string)
    requires ValidSetup(c) && WellStructured(c, s) && Step(c, s, Arrive(d, ports, p, hal), s')
    requires n in s'.table.devices
    ensures var u := UsbDev(d.busNum, d.devAddr);
            var here := c.name(u);
            var devices := s.table.devices[here := d.(status := NewArrived)];
            && s'.table.devices.Keys == devices.Keys
            && (forall v :: v in s'.serials <==> v in s.serials || (v == u && ports.Some? && v in ports.value))
            && if n == here then
                 NewOutcome(p, c.tables, u in s'.serials, hal(n), ComesTo(devices, hal, c.leq, n), d,
                            s'.table.devices[n])
               else
                 StrategyOutcome(p, c.tables, DevOf(s.table.devices[n]) in s'.serials, hal(n),
                                 ComesTo(devices, hal, c.leq, n), s.table.devices[n], s'.table.devices[n])
  {
    var here, r := c.name(UsbDev(d.busNum, d.devAddr)), Review(p, c.tables, s'.serials, hal, c.leq);
    var placed := Placed(s.table, here, d);
    assert placed.devices == s.table.devices[here := d.(status := NewArrived)];
    ReviewDecides(placed, r, n);
    if n == here {
      assert s'.table.devices[n] == Published(ReviewAt(placed, r, n)).dev;
      assert EnabledUnlessDisabled(ReviewAt(placed, r, n).dev, s'.table.devices[n]);
    } else {
      assert At(s'.table, n) == ReviewAt(placed, r, n);
    }
  }

  /** A removal takes exactly the device at the address, announces it if it was enabled, and takes it off the serial
      list. */
  lemma RemovalDecides(c: Setup, s: Host, u: UsbDev, s': Host)
    requires ValidSetup(c) && WellStructured(c, s) && Step(c, s, Leave(u), s')
    ensures s'.table.devices == s.table.devices - {c.name(u)}
    ensures c.name(u) in s.table.devices ==>
              && (forall v :: v in s'.serials <==> v in s.serials && v != u)
              && s'.table.traces[c.name(u)]
                 == s.table.traces[c.name(u)] + if s.table.devices[c.name(u)].status == Enabled then [Detached] else []
    ensures c.name(u) !in s.table.devices ==> s' == s
  {
  }
}
