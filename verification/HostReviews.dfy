/** Whole policies over the device table: the type policy, the permissive policy, and a run of the strategy. */
module HostReviews {
  import opened UsbTypes
  import opened HostPolicy
  import opened HostBroadcasts
  import opened HostTables
  import opened HostTrust
  import opened KeyOrder

  ghost predicate TypePolicyDone(was: Hosts, now: Hosts, t: Tables, rules: seq<Rule>, disable: bool, env: Env)
    requires ValidTables(t)
  {
    SameDevices(was, now)
    && forall n :: n in was.devices ==>
         At(now, n) == TypePolicy(t, rules, disable, env.serialOff && DevOf(was.devices[n]) in env.serials, env.hal(n),
                                  At(was, n))
  }

  ghost predicate UsbTypeDone(was: Hosts, now: Hosts, rules: seq<Rule>, disable: bool, env: Env) {
    SameDevices(was, now)
    && forall n :: n in was.devices ==>
         At(now, n) == UsbType(rules, disable, env.serialOff && DevOf(was.devices[n]) in env.serials, env.hal(n),
                               At(was, n))
  }

  lemma TypePolicyTwoWalks(was: Hosts, mid: Hosts, now: Hosts, t: Tables, rules: seq<Rule>, disable: bool, env: Env)
    requires ValidTables(t)
    requires Walked(was, mid, t.device, t.deviceOrder, rules, disable, true, env)
    requires Walked(mid, now, t.face, t.faceOrder, rules, disable, false, env)
    ensures TypePolicyDone(was, now, t, rules, disable, env)
  {
    SameDevicesTwice(was, mid, now);
    forall n | n in was.devices
      ensures At(now, n) == TypePolicy(t, rules, disable, env.serialOff && DevOf(was.devices[n]) in env.serials,
                                       env.hal(n), At(was, n))
    {
      assert n in mid.devices;
      assert At(mid, n) == WalkAt(was, t.device, t.deviceOrder, rules, disable, true, env, n);
      assert At(now, n) == WalkAt(mid, t.face, t.faceOrder, rules, disable, false, env, n);
    }
  }

  lemma UsbTypeIsTwoPasses(rules: seq<Rule>, disable: bool, serialOff: bool, serial: bool, serial': bool, h: DeviceHal,
                           s: Slot)
    ensures UsbType(rules, disable, serialOff && serial, h, s)
            == PassStep(UsbFacePass(FaceRules(rules), disable), serialOff, serial', h,
                        PassStep(UsbDevicePass(DeviceRules(rules), disable), serialOff, serial, h, s))
  {
  }

  lemma UsbTypeTwoPasses(was: Hosts, mid: Hosts, now: Hosts, rules: seq<Rule>, disable: bool, env: Env)
    requires Passed(was, mid, UsbDevicePass(DeviceRules(rules), disable), env, {})
    requires Passed(mid, now, UsbFacePass(FaceRules(rules), disable), env, {})
    ensures UsbTypeDone(was, now, rules, disable, env)
  {
    PassedKeeps(was, mid, UsbDevicePass(DeviceRules(rules), disable), env, {});
    PassedKeeps(mid, now, UsbFacePass(FaceRules(rules), disable), env, {});
    SameDevicesTwice(was, mid, now);
    forall n | n in was.devices
      ensures At(now, n) == UsbType(rules, disable, env.serialOff && DevOf(was.devices[n]) in env.serials, env.hal(n),
                                    At(was, n))
    {
      UsbTypeIsTwoPasses(rules, disable, env.serialOff, DevOf(was.devices[n]) in env.serials,
                         DevOf(mid.devices[n]) in env.serials, env.hal(n), At(was, n));
      assert At(mid, n) == StepAt(was, UsbDevicePass(DeviceRules(rules), disable), env, n);
    }
  }

  // ---- A run of the strategy ------------------------------------------------------------------------------

  /** Everything that a run of the strategy depends on beside the table. */
  datatype Review = Review(policy: Policy, tables: Tables, serials: seq<UsbDev>, hal: string -> DeviceHal,
                           leq: (string, string) -> bool)

  ghost predicate ValidReview(r: Review) {
    ValidTables(r.tables) && TotalOrder(r.leq)
  }

  ghost function ReviewAt(was: Hosts, r: Review, n: string): Slot
    requires ValidReview(r) && n in was.devices && n in was.traces
  {
    Strategy(r.policy, r.tables, DevOf(was.devices[n]) in r.serials, r.hal(n), RoundsAt(was, r.hal, r.leq, n),
             At(was, n))
  }

  /** Every device has been put through the strategy. */
  ghost predicate Reviewed(was: Hosts, now: Hosts, r: Review)
    requires ValidReview(r)
  {
    && SameNames(was, now)
    && forall n :: n in was.devices ==> At(now, n) == ReviewAt(was, r, n)
  }

  lemma ReviewedKeeps(was: Hosts, now: Hosts, r: Review)
    requires ValidReview(r) && Reviewed(was, now, r)
    ensures SameDevices(was, now)
  {
    forall n | n in was.devices ensures Kept(At(was, n), At(now, n)) {
      StrategyKeepsImbalance(r.policy, r.tables, DevOf(was.devices[n]) in r.serials, r.hal(n),
                             RoundsAt(was, r.hal, r.leq, n), At(was, n));
    }
  }

  /** The serial policy, if it is on, has been applied to the serial devices. */
  ghost predicate Prepared(was: Hosts, now: Hosts, p: Policy, serials: seq<UsbDev>, hal: string -> DeviceHal) {
    SameDevices(was, now)
    && forall n :: n in was.devices ==>
         At(now, n) == if p.serialDisable then Serial(true, DevOf(was.devices[n]) in serials, hal(n), At(was, n))
                       else At(was, n)
  }

  lemma Unreviewed(h: Hosts, r: Review)
    requires ValidReview(r) && h.devices.Keys <= h.traces.Keys && (!r.policy.edm || !r.policy.obtained)
    ensures Reviewed(h, h, r)
  {
  }

  lemma ReviewedGlobally(was: Hosts, now: Hosts, r: Review)
    requires ValidReview(r) && r.policy.edm && r.policy.obtained && r.policy.globalDisabled
    requires Passed(was, now, GlobalPass(true), Env(r.policy.serialDisable, r.serials, r.hal), {})
    ensures Reviewed(was, now, r)
  {
    var env := Env(r.policy.serialDisable, r.serials, r.hal);
    forall n | n in was.devices ensures At(now, n) == ReviewAt(was, r, n) {
      assert At(now, n) == StepAt(was, GlobalPass(true), env, n);
    }
  }

  lemma StrategyBySteps(p: Policy, t: Tables, serial: bool, h: DeviceHal, rounds: nat, s: Slot, s1: Slot)
    requires ValidTables(t) && p.edm && p.obtained && !p.globalDisabled
    requires s1 == if p.serialDisable then Serial(true, serial, h, s) else s
    ensures Strategy(p, t, serial, h, rounds, s)
            == if p.rules == [] then if p.trust == [] then s1 else TrustRounds(p.trust, h, rounds, s1)
               else if p.permType then UsbType(p.rules, true, p.serialDisable && serial, h, s1)
               else TypePolicy(t, p.rules, true, p.serialDisable && serial, h, s1)
  {
  }

  lemma ReviewedByUsbType(was: Hosts, mid: Hosts, now: Hosts, r: Review)
    requires ValidReview(r) && r.policy.edm && r.policy.obtained && !r.policy.globalDisabled
    requires r.policy.rules != [] && r.policy.permType && Prepared(was, mid, r.policy, r.serials, r.hal)
    requires UsbTypeDone(mid, now, r.policy.rules, true, Env(r.policy.serialDisable, r.serials, r.hal))
    ensures Reviewed(was, now, r)
  {
    forall n | n in was.devices ensures At(now, n) == ReviewAt(was, r, n) {
      assert n in mid.devices && Kept(At(was, n), At(mid, n));
      StrategyBySteps(r.policy, r.tables, DevOf(was.devices[n]) in r.serials, r.hal(n),
                      RoundsAt(was, r.hal, r.leq, n), At(was, n), At(mid, n));
    }
  }

  lemma ReviewedByTypePolicy(was: Hosts, mid: Hosts, now: Hosts, r: Review)
    requires ValidReview(r) && r.policy.edm && r.policy.obtained && !r.policy.globalDisabled
    requires r.policy.rules != [] && !r.policy.permType && Prepared(was, mid, r.policy, r.serials, r.hal)
    requires TypePolicyDone(mid, now, r.tables, r.policy.rules, true, Env(r.policy.serialDisable, r.serials, r.hal))
    ensures Reviewed(was, now, r)
  {
    forall n | n in was.devices ensures At(now, n) == ReviewAt(was, r, n) {
      assert n in mid.devices && Kept(At(was, n), At(mid, n));
      StrategyBySteps(r.policy, r.tables, DevOf(was.devices[n]) in r.serials, r.hal(n),
                      RoundsAt(was, r.hal, r.leq, n), At(was, n), At(mid, n));
    }
  }

  lemma ReviewedByTrust(was: Hosts, mid: Hosts, now: Hosts, r: Review)
    requires ValidReview(r) && r.policy.edm && r.policy.obtained && !r.policy.globalDisabled && r.policy.rules == []
    requires Prepared(was, mid, r.policy, r.serials, r.hal)
    requires if r.policy.trust == [] then now == mid else TrustDone(mid, now, r.policy.trust, r.hal, r.leq)
    ensures Reviewed(was, now, r)
  {
    forall n | n in was.devices ensures At(now, n) == ReviewAt(was, r, n) {
      assert n in mid.devices;
      RoundsKept(was, mid, r.hal, r.leq, n);
      StrategyBySteps(r.policy, r.tables, DevOf(was.devices[n]) in r.serials, r.hal(n),
                      RoundsAt(was, r.hal, r.leq, n), At(was, n), At(mid, n));
    }
  }

  /** With the serial policy on, a strategy run that takes a type policy leaves every serial device disabled that the
      HAL does not refuse to disable, whatever the rules. */
  lemma {:induction false} SerialsDisabled(was: Hosts, now: Hosts, r: Review, n: string)
    requires ValidReview(r) && Reviewed(was, now, r)
    requires r.policy.edm && r.policy.obtained && r.policy.serialDisable && !r.policy.globalDisabled
    requires r.policy.rules != [] && n in was.devices && DevOf(was.devices[n]) in r.serials
    ensures now.devices[n].status == Disabled <==> r.hal(n).authorize || was.devices[n].status == Disabled
  {
    SerialDisabledIff(r.policy, r.tables, r.hal(n), RoundsAt(was, r.hal, r.leq, n), At(was, n));
    assert At(now, n) == ReviewAt(was, r, n);
  }
}
