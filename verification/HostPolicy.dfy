/** What the policies do to one device: its authorise status, the flags of its interfaces, and the HAL calls and
    broadcasts that concern it.  `HostManager` proves that the nested loops over the device table do exactly this to
    every device; here is what it amounts to. */
module HostPolicy {
  import opened UsbTypes
  import opened TypeTables

  const BASE_CLASS_HUB: int := 9

  /** `Appeared`: a device took its place at the address; the others are HAL calls and broadcasts. */
  datatype Action = Appeared | HalAuthorize(authorized: bool, ok: bool) | Attached | Detached

  /** A device and everything that was done about its address so far. */
  datatype Slot = Slot(dev: Device, trace: seq<Action>)

  /** How the HAL answers for one device: opening it, authorising it, and its active configuration. */
  datatype DeviceHal = DeviceHal(open: bool, authorize: bool, activeConfig: Option<uint8>)

  datatype Rule = Rule(baseClass: int32, subClass: int32, protocol: int32, isDeviceType: bool,
                       isDeviceTypeAllMatch: bool)

  datatype DeviceId = DeviceId(productId: int32, vendorId: int32)

  // ---- Authorising one device -----------------------------------------------------------------------------

  function Authorize(s: Slot, authorized: bool, ok: bool): Slot {
    if authorized == (s.dev.status != Disabled) then s
    else if !ok then s.(trace := s.trace + [HalAuthorize(authorized, false)])
    else
      Slot(s.dev.(status := if authorized then Enabled else Disabled),
           s.trace + [HalAuthorize(authorized, true)]
           + if s.dev.status == NewArrived then [] else [if authorized then Attached else Detached])
  }

  function Weight(a: Action): int {
    match a
    case Attached => 1
    case Detached => -1
    case _ => 0
  }

  /** Attached minus detached broadcasts. */
  function Balance(trace: seq<Action>): int {
    if trace == [] then 0 else Balance(trace[..|trace| - 1]) + Weight(trace[|trace| - 1])
  }

  function EnabledCount(status: AuthorizeStatus): int {
    if status == Enabled then 1 else 0
  }

  /** Zero when attached broadcasts minus detached broadcasts is one exactly for an enabled device. */
  function Imbalance(s: Slot): int {
    Balance(s.trace) - EnabledCount(s.dev.status)
  }

  lemma BalanceSnoc(trace: seq<Action>, a: Action)
    ensures Balance(trace + [a]) == Balance(trace) + Weight(a)
  {
    assert (trace + [a])[..|trace|] == trace;
  }

  lemma BalanceTwice(trace: seq<Action>, a: Action, b: Action)
    ensures Balance(trace + [a] + [b]) == Balance(trace) + Weight(a) + Weight(b)
  {
    BalanceSnoc(trace, a);
    BalanceSnoc(trace + [a], b);
  }

  lemma AuthorizeTrace(s: Slot, authorized: bool, ok: bool)
    requires authorized != (s.dev.status != Disabled)
    ensures var called := s.trace + [HalAuthorize(authorized, ok)];
            Authorize(s, authorized, ok).trace
            == if ok && s.dev.status != NewArrived then called + [if authorized then Attached else Detached] else called
  {
    assert s.trace + [HalAuthorize(authorized, ok)] + [] == s.trace + [HalAuthorize(authorized, ok)];
  }

  /** Whatever the HAL answers, authorising keeps the books balanced. */
  lemma AuthorizeKeepsImbalance(s: Slot, authorized: bool, ok: bool)
    ensures Imbalance(Authorize(s, authorized, ok)) == Imbalance(s)
  {
    if authorized != (s.dev.status != Disabled) {
      AuthorizeTrace(s, authorized, ok);
      BalanceSnoc(s.trace, HalAuthorize(authorized, ok));
      BalanceTwice(s.trace, HalAuthorize(authorized, ok), if authorized then Attached else Detached);
    }
  }

  // What the HAL was told, and what the service believes.

  /** Whether the device is on, going by the HAL: it is when it appears, and then as the last successful call said. */
  function On(trace: seq<Action>): bool {
    if trace == [] then true
    else
      match trace[|trace| - 1]
      case Appeared => true
      case HalAuthorize(authorized, ok) => if ok then authorized else On(trace[..|trace| - 1])
      case _ => On(trace[..|trace| - 1])
  }

  /** Every HAL call, refused or not, asked for the opposite of what was. */
  predicate AsksForChange(trace: seq<Action>) {
    trace == []
    || (AsksForChange(trace[..|trace| - 1])
        && (trace[|trace| - 1].HalAuthorize? ==> trace[|trace| - 1].authorized != On(trace[..|trace| - 1])))
  }

  /** The status says what the HAL was told last. */
  predicate Honest(s: Slot) {
    On(s.trace) == (s.dev.status != Disabled) && AsksForChange(s.trace)
  }

  lemma OnSnoc(trace: seq<Action>, a: Action)
    ensures On(trace + [a]) == match a
                               case Appeared => true
                               case HalAuthorize(authorized, ok) => if ok then authorized else On(trace)
                               case _ => On(trace)
    ensures AsksForChange(trace + [a]) <==>
            AsksForChange(trace) && (a.HalAuthorize? ==> a.authorized != On(trace))
  {
    assert (trace + [a])[..|trace|] == trace;
  }

  lemma {:induction false} AsksAt(trace: seq<Action>, k: nat)
    requires AsksForChange(trace) && k < |trace| && trace[k].HalAuthorize?
    ensures trace[k].authorized != On(trace[..k])
  {
    if k < |trace| - 1 {
      AsksAt(trace[..|trace| - 1], k);
      assert trace[..|trace| - 1][..k] == trace[..k];
    }
  }

  lemma AuthorizeStaysHonest(s: Slot, authorized: bool, ok: bool)
    requires Honest(s)
    ensures Honest(Authorize(s, authorized, ok))
  {
    if authorized != (s.dev.status != Disabled) {
      AuthorizeTrace(s, authorized, ok);
      OnSnoc(s.trace, HalAuthorize(authorized, ok));
      OnSnoc(s.trace + [HalAuthorize(authorized, ok)], if authorized then Attached else Detached);
    }
  }

  // ---- Interfaces of the active configuration -------------------------------------------------------------

  /** The index is computed in eight bits, so configuration 0 is looked for in place 255. */
  function ActiveIndex(d: Device, h: DeviceHal): Option<nat> {
    if h.activeConfig.None? then None
    else
      var index := (h.activeConfig.value - 1) % 0x100;
      if index < |d.configs| then Some(index) else None
  }

  /** Interfaces are looked at on devices that are neither hubs nor disabled. */
  predicate Reached(d: Device, h: DeviceHal) {
    d.baseClass != BASE_CLASS_HUB && d.status != Disabled && ActiveIndex(d, h).Some?
  }

  function WithFaces(d: Device, index: nat, faces: seq<Interface>): Device
    requires index < |d.configs|
  {
    d.(configs := d.configs[index := d.configs[index].(interfaces := faces)])
  }

  // ---- The type policy: two tables of patterns ------------------------------------------------------------

  predicate CoversDevice(p: Pattern, d: Device) {
    Covers(p, d.baseClass, d.subClass, d.protocol)
  }

  predicate CoversFace(p: Pattern, i: Interface) {
    Covers(p, i.klass, i.subClass, i.protocol)
  }

  /** Some rule of the right kind falls under the pattern of `t`. */
  predicate Selected(table: TypeTable, rules: seq<Rule>, isDev: bool, t: InterfaceType)
    requires t in table
  {
    exists r :: r in rules && r.isDeviceType == isDev && Covers(table[t], r.baseClass, r.subClass, r.protocol)
  }

  function ExecDisable(table: TypeTable, rules: seq<Rule>, isDev: bool, t: InterfaceType, disable: bool): bool
    requires t in table
  {
    if Selected(table, rules, isDev, t) then disable else !disable
  }

  function DeviceTypeStep(p: Pattern, disable: bool, held: bool, h: DeviceHal, s: Slot): Slot {
    if held || !CoversDevice(p, s.dev) || !h.open then s else Authorize(s, !disable, h.authorize)
  }

  function FaceStep(p: Pattern, disable: bool, i: Interface): Interface {
    if CoversFace(p, i) then i.(authorized := !disable) else i
  }

  function FacesStep(p: Pattern, disable: bool, faces: seq<Interface>): (faces': seq<Interface>)
    ensures |faces'| == |faces| && forall k :: 0 <= k < |faces| ==> faces'[k] == FaceStep(p, disable, faces[k])
  {
    if faces == [] then [] else FacesStep(p, disable, faces[..|faces| - 1]) + [FaceStep(p, disable, faces[|faces| - 1])]
  }

  function InterfaceTypeStep(p: Pattern, disable: bool, h: DeviceHal, d: Device): Device {
    if !Reached(d, h) then d
    else
      var index := ActiveIndex(d, h).value;
      WithFaces(d, index, FacesStep(p, disable, d.configs[index].interfaces))
  }

  /** The table walked in the order in which the unordered map happens to yield its keys. */
  function DeviceTypeWalk(table: TypeTable, order: seq<InterfaceType>, rules: seq<Rule>, disable: bool, held: bool,
                          h: DeviceHal, s: Slot): Slot
    requires forall t :: t in order ==> t in table
  {
    if order == [] then s
    else
      var last := order[|order| - 1];
      DeviceTypeStep(table[last], ExecDisable(table, rules, true, last, disable), held, h,
                     DeviceTypeWalk(table, order[..|order| - 1], rules, disable, held, h, s))
  }

  function InterfaceTypeWalk(table: TypeTable, order: seq<InterfaceType>, rules: seq<Rule>, disable: bool,
                             h: DeviceHal, d: Device): Device
    requires forall t :: t in order ==> t in table
  {
    if order == [] then d
    else
      var last := order[|order| - 1];
      InterfaceTypeStep(table[last], ExecDisable(table, rules, false, last, disable), h,
                        InterfaceTypeWalk(table, order[..|order| - 1], rules, disable, h, d))
  }

  ghost predicate Enumerates(order: seq<InterfaceType>, table: TypeTable) {
    && (forall t :: t in order <==> t in table)
    && (forall j, k :: 0 <= j < k < |order| ==> order[j] != order[k])
  }

  // The rule that the walks amount to, without any order.

  /** A device in no pattern, held by the serial policy or not to be opened is left alone; otherwise the pattern it
      falls under decides. */
  ghost predicate DeviceDecided(table: TypeTable, rules: seq<Rule>, disable: bool, held: bool, h: DeviceHal,
                                s: Slot, s': Slot) {
    && (forall t :: t in table && CoversDevice(table[t], s.dev) ==>
          s' == DeviceTypeStep(table[t], ExecDisable(table, rules, true, t, disable), held, h, s))
    && ((forall t :: t in table ==> !CoversDevice(table[t], s.dev)) ==> s' == s)
  }

  ghost predicate FaceDecided(table: TypeTable, rules: seq<Rule>, disable: bool, i: Interface, i': Interface) {
    && (forall t :: t in table && CoversFace(table[t], i) ==>
          i' == i.(authorized := !ExecDisable(table, rules, false, t, disable)))
    && ((forall t :: t in table ==> !CoversFace(table[t], i)) ==> i' == i)
  }

  lemma {:induction false} WalkDecidesDevice(table: TypeTable, order: seq<InterfaceType>, rules: seq<Rule>,
                                             disable: bool, held: bool, h: DeviceHal, s: Slot)
    requires Disjoint(table)
    requires forall t :: t in order ==> t in table
    requires forall j, k :: 0 <= j < k < |order| ==> order[j] != order[k]
    ensures var s' := DeviceTypeWalk(table, order, rules, disable, held, h, s);
            && s'.dev == s.dev.(status := s'.dev.status)
            && (forall t :: t in order && CoversDevice(table[t], s.dev) ==>
                  s' == DeviceTypeStep(table[t], ExecDisable(table, rules, true, t, disable), held, h, s))
            && ((forall t :: t in order ==> !CoversDevice(table[t], s.dev)) ==> s' == s)
  {
    if order != [] {
      var front, last := order[..|order| - 1], order[|order| - 1];
      assert order == front + [last];
      WalkDecidesDevice(table, front, rules, disable, held, h, s);
      assert last !in front;
    }
  }

  /** The order of the table makes no difference to a device. */
  lemma DeviceWalkOrderFree(order: seq<InterfaceType>, rules: seq<Rule>, disable: bool, held: bool, h: DeviceHal,
                            s: Slot)
    requires Enumerates(order, DeviceTable())
    ensures DeviceDecided(DeviceTable(), rules, disable, held, h, s,
                          DeviceTypeWalk(DeviceTable(), order, rules, disable, held, h, s))
  {
    DeviceTableDisjoint();
    WalkDecidesDevice(DeviceTable(), order, rules, disable, held, h, s);
  }

  function FacesWalk(table: TypeTable, order: seq<InterfaceType>, rules: seq<Rule>, disable: bool,
                     faces: seq<Interface>): (faces': seq<Interface>)
    requires forall t :: t in order ==> t in table
    ensures |faces'| == |faces|
  {
    if order == [] then faces
    else
      var last := order[|order| - 1];
      FacesStep(table[last], ExecDisable(table, rules, false, last, disable),
                FacesWalk(table, order[..|order| - 1], rules, disable, faces))
  }

  /** A step over the interfaces leaves the device as reachable as it was. */
  lemma FacesThenStep(p: Pattern, disable: bool, h: DeviceHal, d: Device, index: nat, faces: seq<Interface>)
    requires Reached(d, h) && ActiveIndex(d, h) == Some(index)
    ensures InterfaceTypeStep(p, disable, h, WithFaces(d, index, faces))
            == WithFaces(d, index, FacesStep(p, disable, faces))
  {
    var d' := WithFaces(d, index, faces);
    assert Reached(d', h) && ActiveIndex(d', h) == Some(index) && d'.configs[index].interfaces == faces;
    var faces' := FacesStep(p, disable, faces);
    assert d'.configs[index := d'.configs[index].(interfaces := faces')]
           == d.configs[index := d.configs[index].(interfaces := faces')];
  }

  /** Walking the table over a device is walking it over the interfaces of its active configuration. */
  lemma {:induction false} WalkOfFaces(table: TypeTable, order: seq<InterfaceType>, rules: seq<Rule>, disable: bool,
                                       h: DeviceHal, d: Device)
    requires forall t :: t in order ==> t in table
    ensures InterfaceTypeWalk(table, order, rules, disable, h, d)
            == if !Reached(d, h) then d
               else
                 var index := ActiveIndex(d, h).value;
                 WithFaces(d, index, FacesWalk(table, order, rules, disable, d.configs[index].interfaces))
  {
    if order != [] {
      var front, last := order[..|order| - 1], order[|order| - 1];
      WalkOfFaces(table, front, rules, disable, h, d);
      if Reached(d, h) {
        var index := ActiveIndex(d, h).value;
        FacesThenStep(table[last], ExecDisable(table, rules, false, last, disable), h, d, index,
                      FacesWalk(table, front, rules, disable, d.configs[index].interfaces));
      }
    } else if Reached(d, h) {
      var index := ActiveIndex(d, h).value;
      assert WithFaces(d, index, d.configs[index].interfaces) == d;
    }
  }

  lemma {:induction false} WalkDecidesFaces(table: TypeTable, order: seq<InterfaceType>, rules: seq<Rule>,
                                            disable: bool, faces: seq<Interface>)
    requires Disjoint(table)
    requires forall t :: t in order ==> t in table
    requires forall j, k :: 0 <= j < k < |order| ==> order[j] != order[k]
    ensures forall k :: 0 <= k < |faces| ==>
      FaceWalked(table, order, rules, disable, faces[k], FacesWalk(table, order, rules, disable, faces)[k])
  {
    if order != [] {
      var front, last := order[..|order| - 1], order[|order| - 1];
      assert order == front + [last] && last !in front;
      WalkDecidesFaces(table, front, rules, disable, faces);
    }
  }

  ghost predicate FaceWalked(table: TypeTable, order: seq<InterfaceType>, rules: seq<Rule>, disable: bool,
                             i: Interface, i': Interface)
    requires forall t :: t in order ==> t in table
  {
    && i' == i.(authorized := i'.authorized)
    && (forall t :: t in order && CoversFace(table[t], i) ==>
          i'.authorized == !ExecDisable(table, rules, false, t, disable))
    && ((forall t :: t in order ==> !CoversFace(table[t], i)) ==> i' == i)
  }

  /** The order of the table makes no difference to the interfaces of a device either: each interface of the active
      configuration is decided by its pattern, and nothing else changes. */
  lemma InterfaceWalkOrderFree(order: seq<InterfaceType>, rules: seq<Rule>, disable: bool, h: DeviceHal, d: Device)
    requires Enumerates(order, InterfaceTable())
    ensures !Reached(d, h) ==> InterfaceTypeWalk(InterfaceTable(), order, rules, disable, h, d) == d
    ensures Reached(d, h) ==>
              var index := ActiveIndex(d, h).value;
              var faces := FacesWalk(InterfaceTable(), order, rules, disable, d.configs[index].interfaces);
              && InterfaceTypeWalk(InterfaceTable(), order, rules, disable, h, d) == WithFaces(d, index, faces)
              && forall k :: 0 <= k < |faces| ==>
                   FaceDecided(InterfaceTable(), rules, disable, d.configs[index].interfaces[k], faces[k])
  {
    WalkOfFaces(InterfaceTable(), order, rules, disable, h, d);
    InterfaceTableDisjoint();
    if Reached(d, h) {
      WalkDecidesFaces(InterfaceTable(), order, rules, disable, d.configs[ActiveIndex(d, h).value].interfaces);
    }
  }

  // ---- The permissive type policy -------------------------------------------------------------------------

  predicate RuleCovers(r: Rule, baseClass: int, subClass: int, protocol: int) {
    Covers(Pattern(r.baseClass, r.subClass, r.protocol), baseClass, subClass, protocol)
  }

  predicate Matches(types: seq<Rule>, baseClass: int, subClass: int, protocol: int) {
    exists r :: r in types && RuleCovers(r, baseClass, subClass, protocol)
  }

  /** Rules that match everything are used for devices and for interfaces. */
  predicate ForDevices(r: Rule) {
    r.isDeviceTypeAllMatch || r.isDeviceType
  }

  predicate ForFaces(r: Rule) {
    r.isDeviceTypeAllMatch || !r.isDeviceType
  }

  function DeviceRules(rules: seq<Rule>): (types: seq<Rule>)
    ensures forall r :: r in types <==> r in rules && ForDevices(r)
  {
    if rules == [] then []
    else
      var last := rules[|rules| - 1];
      DeviceRules(rules[..|rules| - 1]) + if ForDevices(last) then [last] else []
  }

  function FaceRules(rules: seq<Rule>): (types: seq<Rule>)
    ensures forall r :: r in types <==> r in rules && ForFaces(r)
  {
    if rules == [] then []
    else
      var last := rules[|rules| - 1];
      FaceRules(rules[..|rules| - 1]) + if ForFaces(last) then [last] else []
  }

  function UsbTypeDevice(types: seq<Rule>, disable: bool, held: bool, h: DeviceHal, s: Slot): Slot {
    if held then s
    else
      Authorize(s, Matches(types, s.dev.baseClass, s.dev.subClass, s.dev.protocol) != disable, h.authorize)
  }

  function UsbTypeFace(types: seq<Rule>, disable: bool, i: Interface): Interface {
    i.(authorized := Matches(types, i.klass, i.subClass, i.protocol) != disable)
  }

  function UsbTypeFaces(types: seq<Rule>, disable: bool, faces: seq<Interface>): (faces': seq<Interface>)
    ensures |faces'| == |faces|
    ensures forall k :: 0 <= k < |faces| ==> faces'[k] == UsbTypeFace(types, disable, faces[k])
  {
    if faces == [] then []
    else UsbTypeFaces(types, disable, faces[..|faces| - 1]) + [UsbTypeFace(types, disable, faces[|faces| - 1])]
  }

  function UsbTypeInterfaces(types: seq<Rule>, disable: bool, h: DeviceHal, d: Device): Device {
    if !Reached(d, h) then d
    else
      var index := ActiveIndex(d, h).value;
      WithFaces(d, index, UsbTypeFaces(types, disable, d.configs[index].interfaces))
  }

  function UsbType(rules: seq<Rule>, disable: bool, held: bool, h: DeviceHal, s: Slot): Slot {
    var s1 := UsbTypeDevice(DeviceRules(rules), disable, held, h, s);
    s1.(dev := UsbTypeInterfaces(FaceRules(rules), disable, h, s1.dev))
  }

  ghost predicate SomeRuleForDevice(rules: seq<Rule>, d: Device) {
    exists r :: r in rules && ForDevices(r) && RuleCovers(r, d.baseClass, d.subClass, d.protocol)
  }

  ghost predicate SomeRuleForFace(rules: seq<Rule>, i: Interface) {
    exists r :: r in rules && ForFaces(r) && RuleCovers(r, i.klass, i.subClass, i.protocol)
  }

  /** A device ends disabled exactly when being matched is what disables, unless the serial policy holds it or the HAL
      refuses; and so does every interface of the active configuration of a device that is looked into. */
  lemma UsbTypeExact(rules: seq<Rule>, disable: bool, held: bool, h: DeviceHal, s: Slot)
    ensures var d := UsbType(rules, disable, held, h, s).dev;
            && (d.status == Disabled <==>
                  if held || !h.authorize then s.dev.status == Disabled
                  else SomeRuleForDevice(rules, s.dev) == disable)
            && (Reached(d, h) ==>
                  var index := ActiveIndex(d, h).value;
                  forall k :: 0 <= k < |d.configs[index].interfaces| ==>
                    var i := d.configs[index].interfaces[k];
                    !i.authorized <==> (SomeRuleForFace(rules, i) == disable))
  {
  }

  lemma FacesSettle(types: seq<Rule>, disable: bool, faces: seq<Interface>)
    ensures var faces' := UsbTypeFaces(types, disable, faces); UsbTypeFaces(types, disable, faces') == faces'
  {
    var faces' := UsbTypeFaces(types, disable, faces);
    assert forall k :: 0 <= k < |faces| ==> UsbTypeFace(types, disable, faces'[k]) == faces'[k];
  }

  lemma InterfacesSettle(types: seq<Rule>, disable: bool, h: DeviceHal, d: Device)
    ensures var d' := UsbTypeInterfaces(types, disable, h, d); UsbTypeInterfaces(types, disable, h, d') == d'
    ensures var d' := UsbTypeInterfaces(types, disable, h, d); d' == d.(configs := d'.configs)
  {
    if Reached(d, h) {
      var index := ActiveIndex(d, h).value;
      var faces := UsbTypeFaces(types, disable, d.configs[index].interfaces);
      FacesSettle(types, disable, d.configs[index].interfaces);
      var d' := WithFaces(d, index, faces);
      assert d'.configs[index].interfaces == faces;
      assert d'.configs[index := d'.configs[index].(interfaces := faces)] == d'.configs;
    }
  }

  /** Doing it again does nothing, no HAL call for the device, no broadcast, no change, unless the HAL refused and is
      asked again. */
  lemma UsbTypeIdempotentIff(rules: seq<Rule>, disable: bool, held: bool, h: DeviceHal, s: Slot)
    ensures UsbType(rules, disable, held, h, UsbType(rules, disable, held, h, s)) == UsbType(rules, disable, held, h, s)
            <==> held || h.authorize
                 || (SomeRuleForDevice(rules, s.dev) == disable) == (s.dev.status == Disabled)
  {
    var types := DeviceRules(rules);
    assert Matches(types, s.dev.baseClass, s.dev.subClass, s.dev.protocol) == SomeRuleForDevice(rules, s.dev);
    var s1 := UsbTypeDevice(types, disable, held, h, s);
    InterfacesSettle(FaceRules(rules), disable, h, s1.dev);
    var s2 := UsbType(rules, disable, held, h, s);
    var s3 := UsbTypeDevice(types, disable, held, h, s2);
    if s3 != s2 {
      assert |s3.trace| > |s2.trace|;
    }
  }

  // ---- The other policies ---------------------------------------------------------------------------------

  predicate Trusted(list: seq<DeviceId>, d: Device) {
    exists id :: id in list && id.productId == d.productId && id.vendorId == d.vendorId
  }

  function Trust(list: seq<DeviceId>, h: DeviceHal, s: Slot): Slot {
    if s.dev.baseClass == BASE_CLASS_HUB || !h.open then s
    else Authorize(s, Trusted(list, s.dev) || list == [], h.authorize)
  }

  function TrustRounds(list: seq<DeviceId>, h: DeviceHal, rounds: nat, s: Slot): Slot {
    if rounds == 0 then s else Trust(list, h, TrustRounds(list, h, rounds - 1, s))
  }

  /** Coming back to a device changes nothing, unless the HAL refuses it each time. */
  lemma {:induction false} RoundsSettle(list: seq<DeviceId>, h: DeviceHal, rounds: nat, s: Slot)
    requires rounds > 0
    ensures h.authorize ==> TrustRounds(list, h, rounds, s) == Trust(list, h, s)
    ensures TrustRounds(list, h, rounds, s).dev == Trust(list, h, s).dev
  {
    if rounds > 1 {
      RoundsSettle(list, h, rounds - 1, s);
    }
  }

  function AllFaces(authorized: bool, faces: seq<Interface>): (faces': seq<Interface>)
    ensures |faces'| == |faces|
    ensures forall k :: 0 <= k < |faces| ==> faces'[k] == faces[k].(authorized := authorized)
  {
    if faces == [] then []
    else AllFaces(authorized, faces[..|faces| - 1]) + [faces[|faces| - 1].(authorized := authorized)]
  }

  /** All interfaces of the active configuration enabled; here configuration 0 counts as none. */
  function GlobalFaces(h: DeviceHal, d: Device): Device {
    if !h.open || ActiveIndex(d, h).None? || h.activeConfig.value < 1 then d
    else
      var index := ActiveIndex(d, h).value;
      WithFaces(d, index, AllFaces(true, d.configs[index].interfaces))
  }

  /** Disabling globally acts on hubs only; enabling also enables the interfaces of the active configuration. */
  function Global(disable: bool, held: bool, h: DeviceHal, s: Slot): Slot {
    if (disable && s.dev.baseClass != BASE_CLASS_HUB) || held then s
    else
      var s1 := Authorize(s, !disable, h.authorize);
      if disable then s1 else s1.(dev := GlobalFaces(h, s1.dev))
  }

  function Serial(disable: bool, serial: bool, h: DeviceHal, s: Slot): Slot {
    if serial then Authorize(s, !disable, h.authorize) else s
  }

  // ---- One pass over the device table ---------------------------------------------------------------------

  datatype Pass =
    | GlobalPass(disable: bool)
    | SerialPass(disable: bool)
    | DeviceTypePass(pattern: Pattern, disable: bool)
    | FaceTypePass(pattern: Pattern, disable: bool)
    | UsbDevicePass(types: seq<Rule>, disable: bool)
    | UsbFacePass(types: seq<Rule>, disable: bool)

  /** `serialOff`: the serial policy is on, so that serial devices are left to it. */
  function PassStep(pass: Pass, serialOff: bool, serial: bool, h: DeviceHal, s: Slot): Slot {
    var held := serialOff && serial;
    match pass
    case GlobalPass(disable) => Global(disable, held, h, s)
    case SerialPass(disable) => Serial(disable, serial, h, s)
    case DeviceTypePass(p, disable) => DeviceTypeStep(p, disable, held, h, s)
    case FaceTypePass(p, disable) => s.(dev := InterfaceTypeStep(p, disable, h, s.dev))
    case UsbDevicePass(types, disable) => UsbTypeDevice(types, disable, held, h, s)
    case UsbFacePass(types, disable) => s.(dev := UsbTypeInterfaces(types, disable, h, s.dev))
  }

  /** By all that names or classifies it, it is the same device. */
  predicate SameDevice(d: Device, d': Device) {
    && d'.busNum == d.busNum && d'.devAddr == d.devAddr
    && d'.vendorId == d.vendorId && d'.productId == d.productId
    && d'.baseClass == d.baseClass && d'.subClass == d.subClass && d'.protocol == d.protocol
  }

  /** The books are as they were, it is the same device, and the HAL has been told what its status says. */
  predicate Kept(s: Slot, s': Slot) {
    Imbalance(s') == Imbalance(s) && SameDevice(s.dev, s'.dev) && (Honest(s) ==> Honest(s'))
  }

  lemma AuthorizeKeeps(s: Slot, authorized: bool, ok: bool)
    ensures Kept(s, Authorize(s, authorized, ok))
  {
    AuthorizeKeepsImbalance(s, authorized, ok);
    if Honest(s) {
      AuthorizeStaysHonest(s, authorized, ok);
    }
  }

  lemma FacesKeep(s: Slot, index: nat, faces: seq<Interface>)
    requires index < |s.dev.configs|
    ensures Kept(s, s.(dev := WithFaces(s.dev, index, faces)))
  {
  }

  lemma KeptTwice(s: Slot, s': Slot, s'': Slot)
    requires Kept(s, s') && Kept(s', s'')
    ensures Kept(s, s'')
  {
  }

  lemma GlobalFacesKeep(h: DeviceHal, s: Slot)
    ensures Kept(s, s.(dev := GlobalFaces(h, s.dev)))
  {
    if ActiveIndex(s.dev, h).Some? {
      var index := ActiveIndex(s.dev, h).value;
      FacesKeep(s, index, AllFaces(true, s.dev.configs[index].interfaces));
    }
  }

  lemma GlobalKeeps(disable: bool, held: bool, h: DeviceHal, s: Slot)
    ensures Kept(s, Global(disable, held, h, s))
  {
    var s1 := Authorize(s, !disable, h.authorize);
    AuthorizeKeeps(s, !disable, h.authorize);
    GlobalFacesKeep(h, s1);
    KeptTwice(s, s1, s1.(dev := GlobalFaces(h, s1.dev)));
  }

  lemma FaceTypeKeeps(p: Pattern, disable: bool, h: DeviceHal, s: Slot)
    ensures Kept(s, s.(dev := InterfaceTypeStep(p, disable, h, s.dev)))
  {
    if Reached(s.dev, h) {
      var index := ActiveIndex(s.dev, h).value;
      FacesKeep(s, index, FacesStep(p, disable, s.dev.configs[index].interfaces));
    }
  }

  lemma UsbFacesKeep(types: seq<Rule>, disable: bool, h: DeviceHal, s: Slot)
    ensures Kept(s, s.(dev := UsbTypeInterfaces(types, disable, h, s.dev)))
  {
    if Reached(s.dev, h) {
      var index := ActiveIndex(s.dev, h).value;
      FacesKeep(s, index, UsbTypeFaces(types, disable, s.dev.configs[index].interfaces));
    }
  }

  lemma UsbDeviceKeeps(types: seq<Rule>, disable: bool, held: bool, h: DeviceHal, s: Slot)
    ensures Kept(s, UsbTypeDevice(types, disable, held, h, s))
  {
    AuthorizeKeeps(s, Matches(types, s.dev.baseClass, s.dev.subClass, s.dev.protocol) != disable, h.authorize);
  }

  /** Whatever the HAL answers, every pass keeps the books balanced. */
  lemma PassKeepsImbalance(pass: Pass, serialOff: bool, serial: bool, h: DeviceHal, s: Slot)
    ensures Kept(s, PassStep(pass, serialOff, serial, h, s))
  {
    match pass
    case GlobalPass(disable) => GlobalKeeps(disable, serialOff && serial, h, s);
    case SerialPass(disable) => AuthorizeKeeps(s, !disable, h.authorize);
    case DeviceTypePass(_, disable) => AuthorizeKeeps(s, !disable, h.authorize);
    case FaceTypePass(p, disable) => FaceTypeKeeps(p, disable, h, s);
    case UsbDevicePass(types, disable) => UsbDeviceKeeps(types, disable, serialOff && serial, h, s);
    case UsbFacePass(types, disable) => UsbFacesKeep(types, disable, h, s);
  }

  // ---- The strategy ---------------------------------------------------------------------------------------

  /** What the device-management service answers. `obtained` is false when it cannot be reached in time. */
  datatype Policy = Policy(
    edm: bool, obtained: bool, globalDisabled: bool, serialDisable: bool, rules: seq<Rule>, permType: bool,
    trust: seq<DeviceId>)

  /** The two unordered tables, each with the order in which it happens to be walked. */
  datatype Tables = Tables(device: TypeTable, deviceOrder: seq<InterfaceType>,
                           face: TypeTable, faceOrder: seq<InterfaceType>)

  ghost predicate ValidTables(t: Tables) {
    && Enumerates(t.deviceOrder, t.device) && Disjoint(t.device)
    && Enumerates(t.faceOrder, t.face) && Disjoint(t.face)
  }

  predicate SerialHeld(p: Policy, serial: bool) {
    p.edm && p.serialDisable && serial
  }

  ghost function TypePolicy(t: Tables, rules: seq<Rule>, disable: bool, held: bool, h: DeviceHal, s: Slot): Slot
    requires ValidTables(t)
  {
    var s1 := DeviceTypeWalk(t.device, t.deviceOrder, rules, disable, held, h, s);
    s1.(dev := InterfaceTypeWalk(t.face, t.faceOrder, rules, disable, h, s1.dev))
  }

  /** `rounds`: how often the trust-list pass came to this device. It comes once for every device with the same ids,
      and not at all when it gave up on one of those. */
  ghost function Strategy(p: Policy, t: Tables, serial: bool, h: DeviceHal, rounds: nat, s: Slot): Slot
    requires ValidTables(t)
  {
    if !p.edm || !p.obtained then s
    else if p.globalDisabled then Global(true, SerialHeld(p, serial), h, s)
    else
      var s1 := if p.serialDisable then Serial(true, serial, h, s) else s;
      if p.rules != [] then
        if p.permType then UsbType(p.rules, true, SerialHeld(p, serial), h, s1)
        else TypePolicy(t, p.rules, true, SerialHeld(p, serial), h, s1)
      else if p.trust == [] then s1
      else TrustRounds(p.trust, h, rounds, s1)
  }

  // The type policy does not depend on the order of the tables.

  lemma {:induction false} WalksAgree(table: TypeTable, order: seq<InterfaceType>, order': seq<InterfaceType>,
                                      rules: seq<Rule>, disable: bool, held: bool, h: DeviceHal, s: Slot)
    requires Disjoint(table) && Enumerates(order, table) && Enumerates(order', table)
    ensures DeviceTypeWalk(table, order, rules, disable, held, h, s)
            == DeviceTypeWalk(table, order', rules, disable, held, h, s)
  {
    WalkDecidesDevice(table, order, rules, disable, held, h, s);
    WalkDecidesDevice(table, order', rules, disable, held, h, s);
    if t :| t in order && CoversDevice(table[t], s.dev) {
      assert t in order';
    } else {
      assert forall t :: t in order' ==> t in order;
    }
  }

  lemma FacesAgree(table: TypeTable, order: seq<InterfaceType>, order': seq<InterfaceType>, rules: seq<Rule>,
                   disable: bool, faces: seq<Interface>)
    requires Disjoint(table) && Enumerates(order, table) && Enumerates(order', table)
    ensures FacesWalk(table, order, rules, disable, faces) == FacesWalk(table, order', rules, disable, faces)
  {
    var a, b := FacesWalk(table, order, rules, disable, faces), FacesWalk(table, order', rules, disable, faces);
    WalkDecidesFaces(table, order, rules, disable, faces);
    WalkDecidesFaces(table, order', rules, disable, faces);
    forall k | 0 <= k < |faces| ensures a[k] == b[k] {
      FaceOutcomeUnique(table, order, order', rules, disable, faces[k], a[k], b[k]);
    }
  }

  lemma FaceOutcomeUnique(table: TypeTable, order: seq<InterfaceType>, order': seq<InterfaceType>, rules: seq<Rule>,
                          disable: bool, i: Interface, a: Interface, b: Interface)
    requires Enumerates(order, table) && Enumerates(order', table)
    requires FaceWalked(table, order, rules, disable, i, a) && FaceWalked(table, order', rules, disable, i, b)
    ensures a == b
  {
    if t :| t in order && CoversFace(table[t], i) {
      assert t in order';
    } else {
      assert forall t :: t in order' ==> t in order;
    }
  }

  /** The whole type policy ends in the same state whatever order the two unordered tables yield. */
  lemma TypePolicyOrderFree(t: Tables, u: Tables, rules: seq<Rule>, disable: bool, held: bool, h: DeviceHal, s: Slot)
    requires ValidTables(t) && ValidTables(u) && t.device == u.device && t.face == u.face
    ensures TypePolicy(t, rules, disable, held, h, s) == TypePolicy(u, rules, disable, held, h, s)
  {
    WalksAgree(t.device, t.deviceOrder, u.deviceOrder, rules, disable, held, h, s);
    var d := DeviceTypeWalk(t.device, t.deviceOrder, rules, disable, held, h, s).dev;
    WalkOfFaces(t.face, t.faceOrder, rules, disable, h, d);
    WalkOfFaces(t.face, u.faceOrder, rules, disable, h, d);
    if Reached(d, h) {
      FacesAgree(t.face, t.faceOrder, u.faceOrder, rules, disable, d.configs[ActiveIndex(d, h).value].interfaces);
    }
  }

  /** A device the pass handles that falls in pattern `t` ends disabled exactly when (some rule selects the pattern)
      equals `disable`; a device in no pattern keeps its status. */
  lemma PatternDecides(tables: Tables, rules: seq<Rule>, disable: bool, h: DeviceHal, s: Slot, t: InterfaceType)
    requires ValidTables(tables) && h.open && h.authorize
    requires t in tables.device && CoversDevice(tables.device[t], s.dev)
    ensures TypePolicy(tables, rules, disable, false, h, s).dev.status == Disabled
            <==> (Selected(tables.device, rules, true, t) == disable)
  {
    WalkDecidesDevice(tables.device, tables.deviceOrder, rules, disable, false, h, s);
    var d := DeviceTypeWalk(tables.device, tables.deviceOrder, rules, disable, false, h, s).dev;
    WalkOfFaces(tables.face, tables.faceOrder, rules, disable, h, d);
  }
}
