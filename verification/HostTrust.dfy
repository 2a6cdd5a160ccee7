/** The trust-list pass: for every device it has all devices with the same ids authorised or not, in the order of the
    keys, and gives those up at the first that cannot be opened.  So it comes to a device as often as there are devices
    with its ids, or never. */
module HostTrust {
  import opened UsbTypes
  import opened HostPolicy
  import opened HostTables
  import opened KeyOrder

  // ---- Devices by their ids -------------------------------------------------------------------------------

  predicate SameIds(d: Device, vendorId: int32, productId: int32) {
    d.vendorId == vendorId && d.productId == productId
  }

  predicate Wanted(d: Device, vendorId: int32, productId: int32) {
    d.baseClass != BASE_CLASS_HUB && SameIds(d, vendorId, productId)
  }

  /** All devices with these ids can be opened. */
  ghost predicate Openable(h: Hosts, hal: string -> DeviceHal, vendorId: int32, productId: int32) {
    forall m :: m in h.devices && Wanted(h.devices[m], vendorId, productId) ==> hal(m).open
  }

  /** Those at or before `n` can. */
  ghost predicate Reaches(h: Hosts, hal: string -> DeviceHal, leq: (string, string) -> bool, vendorId: int32,
                          productId: int32, n: string)
  {
    forall m :: m in h.devices && Wanted(h.devices[m], vendorId, productId) && leq(m, n) ==> hal(m).open
  }

  /** A walk over the devices with these ids up to the first that cannot be opened. */
  ghost predicate AuthorizedById(was: Hosts, now: Hosts, vendorId: int32, productId: int32, disable: bool,
                                 hal: string -> DeviceHal, leq: (string, string) -> bool)
  {
    && SameNames(was, now)
    && forall n :: n in was.devices ==>
         At(now, n) == if Wanted(was.devices[n], vendorId, productId) && Reaches(was, hal, leq, vendorId, productId, n)
                       then Authorize(At(was, n), !disable, hal(n).authorize)
                       else At(was, n)
  }

  lemma AuthorizedByIdKeeps(was: Hosts, now: Hosts, vendorId: int32, productId: int32, disable: bool,
                            hal: string -> DeviceHal, leq: (string, string) -> bool)
    requires AuthorizedById(was, now, vendorId, productId, disable, hal, leq)
    ensures SameDevices(was, now)
  {
    forall n | n in was.devices ensures Kept(At(was, n), At(now, n)) {
      AuthorizeKeeps(At(was, n), !disable, hal(n).authorize);
    }
  }

  // ---- The walk over one set of ids -----------------------------------------------------------------------

  ghost predicate Authorized(was: Hosts, now: Hosts, disable: bool, hal: string -> DeviceHal, touched: set<string>) {
    && SameNames(was, now) && touched <= was.devices.Keys
    && forall n :: n in was.devices ==>
         At(now, n) == if n in touched then Authorize(At(was, n), !disable, hal(n).authorize) else At(was, n)
  }

  lemma AuthorizedOne(was: Hosts, before: Hosts, now: Hosts, disable: bool, hal: string -> DeviceHal,
                      touched: set<string>, n: string)
    requires Authorized(was, before, disable, hal, touched) && n in was.devices && n !in touched
    requires now == Put(before, n, Authorize(At(was, n), !disable, hal(n).authorize))
    ensures Authorized(was, now, disable, hal, touched + {n})
  {
  }

  /** The keys outside `rest` have been walked in order: the wanted ones among them are `touched`, save the one that
      the walk stopped at. */
  ghost predicate Swept(h: Hosts, hal: string -> DeviceHal, leq: (string, string) -> bool, vendorId: int32,
                        productId: int32, touched: set<string>, rest: set<string>, stop: Option<string>)
  {
    && rest <= h.devices.Keys && touched <= h.devices.Keys - rest
    && (forall k :: k in touched ==> Wanted(h.devices[k], vendorId, productId) && hal(k).open)
    && (forall k :: k in h.devices && k !in rest && k !in touched && Wanted(h.devices[k], vendorId, productId)
          ==> stop == Some(k))
    && (forall k, m :: k in touched && m in rest ==> leq(k, m))
    && (stop.Some? ==>
          && stop.value in h.devices && stop.value !in rest && stop.value !in touched
          && Wanted(h.devices[stop.value], vendorId, productId) && !hal(stop.value).open
          && (forall k :: k in touched ==> leq(k, stop.value))
          && (forall m :: m in rest ==> leq(stop.value, m)))
  }

  lemma SweepOne(h: Hosts, hal: string -> DeviceHal, leq: (string, string) -> bool, vendorId: int32, productId: int32,
                 touched: set<string>, rest: set<string>, n: string)
    requires Swept(h, hal, leq, vendorId, productId, touched, rest, None) && Least(leq, rest, n)
    ensures var wanted := Wanted(h.devices[n], vendorId, productId);
            Swept(h, hal, leq, vendorId, productId, if wanted && hal(n).open then touched + {n} else touched,
                  rest - {n}, if wanted && !hal(n).open then Some(n) else None)
  {
  }

  lemma SweepEnds(h: Hosts, hal: string -> DeviceHal, leq: (string, string) -> bool, vendorId: int32, productId: int32,
                  touched: set<string>, rest: set<string>, stop: Option<string>)
    requires Swept(h, hal, leq, vendorId, productId, touched, rest, stop) && (rest == {} || stop.Some?)
    requires TotalOrder(leq)
    ensures stop.None? <==> Openable(h, hal, vendorId, productId)
    ensures forall n :: n in h.devices ==>
              (n in touched <==> Wanted(h.devices[n], vendorId, productId)
                                 && Reaches(h, hal, leq, vendorId, productId, n))
  {
    forall n | n in h.devices && Wanted(h.devices[n], vendorId, productId)
      ensures n in touched <==> Reaches(h, hal, leq, vendorId, productId, n)
    {
      if n in touched {
        forall m | m in h.devices && Wanted(h.devices[m], vendorId, productId) && leq(m, n) ensures hal(m).open {
          assert Lawful(leq, m, n, m);
        }
      } else {
        var x := stop.value;
        assert Lawful(leq, x, x, x);
        assert leq(x, n);
      }
    }
  }

  lemma AuthorizedReached(was: Hosts, now: Hosts, vendorId: int32, productId: int32, disable: bool,
                          hal: string -> DeviceHal, leq: (string, string) -> bool, touched: set<string>)
    requires Authorized(was, now, disable, hal, touched)
    requires forall n :: n in was.devices ==>
               (n in touched <==> Wanted(was.devices[n], vendorId, productId)
                                  && Reaches(was, hal, leq, vendorId, productId, n))
    ensures AuthorizedById(was, now, vendorId, productId, disable, hal, leq)
  {
  }

  /** In the middle of the walk. */
  ghost predicate Sweeping(was: Hosts, now: Hosts, hal: string -> DeviceHal, leq: (string, string) -> bool,
                           vendorId: int32, productId: int32, disable: bool, touched: set<string>, rest: set<string>,
                           stop: Option<string>)
  {
    && Authorized(was, now, disable, hal, touched)
    && Swept(was, hal, leq, vendorId, productId, touched, rest, stop)
  }

  lemma SweepStarts(h: Hosts, hal: string -> DeviceHal, leq: (string, string) -> bool, vendorId: int32,
                    productId: int32, disable: bool)
    requires h.devices.Keys <= h.traces.Keys
    ensures Sweeping(h, h, hal, leq, vendorId, productId, disable, {}, h.devices.Keys, None)
  {
  }

  lemma SweepDone(was: Hosts, now: Hosts, hal: string -> DeviceHal, leq: (string, string) -> bool, vendorId: int32,
                  productId: int32, disable: bool, touched: set<string>, rest: set<string>, stop: Option<string>)
    requires Sweeping(was, now, hal, leq, vendorId, productId, disable, touched, rest, stop)
    requires TotalOrder(leq) && (rest == {} || stop.Some?)
    ensures AuthorizedById(was, now, vendorId, productId, disable, hal, leq) && SameDevices(was, now)
    ensures stop.None? <==> Openable(was, hal, vendorId, productId)
  {
    SweepEnds(was, hal, leq, vendorId, productId, touched, rest, stop);
    AuthorizedReached(was, now, vendorId, productId, disable, hal, leq, touched);
    AuthorizedByIdKeeps(was, now, vendorId, productId, disable, hal, leq);
  }

  // ---- The quadratic pass ---------------------------------------------------------------------------------

  function Twins(h: Hosts, n: string): set<string>
    requires n in h.devices
  {
    set m | m in h.devices && SameIds(h.devices[m], h.devices[n].vendorId, h.devices[n].productId)
  }

  /** Whether the pass comes to `n` at all, which can be told beforehand. */
  ghost predicate Reachable(h: Hosts, hal: string -> DeviceHal, leq: (string, string) -> bool, n: string)
    requires n in h.devices
  {
    h.devices[n].baseClass != BASE_CLASS_HUB
    && Reaches(h, hal, leq, h.devices[n].vendorId, h.devices[n].productId, n)
  }

  /** How often it has come to `n` when it is through with the devices outside `rest`. */
  ghost function RoundsOutside(h: Hosts, hal: string -> DeviceHal, leq: (string, string) -> bool, n: string,
                               rest: set<string>): nat
    requires n in h.devices
  {
    if Reachable(h, hal, leq, n) then |Twins(h, n) - rest| else 0
  }

  ghost function RoundsAt(h: Hosts, hal: string -> DeviceHal, leq: (string, string) -> bool, n: string): nat
    requires n in h.devices
  {
    if Reachable(h, hal, leq, n) then |Twins(h, n)| else 0
  }

  lemma ReachedIff(h: Hosts, hal: string -> DeviceHal, leq: (string, string) -> bool, n: string)
    requires n in h.devices
    ensures RoundsAt(h, hal, leq, n) > 0 <==> Reachable(h, hal, leq, n)
  {
    assert n in Twins(h, n);
  }

  ghost predicate TrustPart(was: Hosts, now: Hosts, list: seq<DeviceId>, hal: string -> DeviceHal,
                            leq: (string, string) -> bool, rest: set<string>)
  {
    && SameDevices(was, now)
    && forall n :: n in was.devices ==>
         At(now, n) == TrustRounds(list, hal(n), RoundsOutside(was, hal, leq, n, rest), At(was, n))
  }

  ghost predicate TrustDone(was: Hosts, now: Hosts, list: seq<DeviceId>, hal: string -> DeviceHal,
                            leq: (string, string) -> bool)
  {
    && SameDevices(was, now)
    && forall n :: n in was.devices ==>
         At(now, n) == TrustRounds(list, hal(n), RoundsAt(was, hal, leq, n), At(was, n))
  }

  lemma TrustStarts(h: Hosts, list: seq<DeviceId>, hal: string -> DeviceHal, leq: (string, string) -> bool)
    requires h.devices.Keys <= h.traces.Keys
    ensures TrustPart(h, h, list, hal, leq, h.devices.Keys)
  {
    forall n | n in h.devices ensures RoundsOutside(h, hal, leq, n, h.devices.Keys) == 0 {
      assert Twins(h, n) - h.devices.Keys == {};
    }
  }

  lemma TrustEnds(was: Hosts, now: Hosts, list: seq<DeviceId>, hal: string -> DeviceHal,
                  leq: (string, string) -> bool)
    requires TrustPart(was, now, list, hal, leq, {})
    ensures TrustDone(was, now, list, hal, leq)
  {
    forall n | n in was.devices ensures RoundsOutside(was, hal, leq, n, {}) == RoundsAt(was, hal, leq, n) {
      assert Twins(was, n) - {} == Twins(was, n);
    }
  }

  lemma OneTwinLess(h: Hosts, rest: set<string>, n: string, m: string)
    requires n in rest && n in h.devices && m in h.devices
    ensures |Twins(h, m) - (rest - {n})| == |Twins(h, m) - rest| + if n in Twins(h, m) then 1 else 0
  {
    if n in Twins(h, m) {
      assert Twins(h, m) - (rest - {n}) == (Twins(h, m) - rest) + {n};
    } else {
      assert Twins(h, m) - (rest - {n}) == Twins(h, m) - rest;
    }
  }

  // Ids do not change, and with them what the walk comes to.

  lemma IdsKept(was: Hosts, now: Hosts, n: string)
    requires SameDevices(was, now) && n in was.devices
    ensures now.devices[n].vendorId == was.devices[n].vendorId
    ensures now.devices[n].productId == was.devices[n].productId
    ensures now.devices[n].baseClass == was.devices[n].baseClass
  {
    assert Kept(At(was, n), At(now, n));
  }

  lemma TrustedKept(was: Hosts, now: Hosts, list: seq<DeviceId>, n: string)
    requires SameDevices(was, now) && n in was.devices
    ensures Trusted(list, now.devices[n]) == Trusted(list, was.devices[n])
  {
    IdsKept(was, now, n);
  }

  lemma ReachesKept(was: Hosts, now: Hosts, hal: string -> DeviceHal, leq: (string, string) -> bool, vendorId: int32,
                    productId: int32, n: string)
    requires SameDevices(was, now)
    ensures Reaches(now, hal, leq, vendorId, productId, n) <==> Reaches(was, hal, leq, vendorId, productId, n)
    ensures Openable(now, hal, vendorId, productId) <==> Openable(was, hal, vendorId, productId)
  {
    forall m | m in was.devices
      ensures Wanted(now.devices[m], vendorId, productId) <==> Wanted(was.devices[m], vendorId, productId)
    {
      IdsKept(was, now, m);
    }
  }

  lemma RoundsKept(was: Hosts, now: Hosts, hal: string -> DeviceHal, leq: (string, string) -> bool, n: string)
    requires SameDevices(was, now) && n in was.devices
    ensures RoundsAt(now, hal, leq, n) == RoundsAt(was, hal, leq, n)
  {
    IdsKept(was, now, n);
    ReachesKept(was, now, hal, leq, was.devices[n].vendorId, was.devices[n].productId, n);
    forall m | m in was.devices ensures m in Twins(now, n) <==> m in Twins(was, n) {
      IdsKept(was, now, m);
    }
    assert Twins(now, n) == Twins(was, n);
  }

  /** The list decides by ids alone, so deciding for one device is deciding for all with its ids. */
  lemma TrustByIds(list: seq<DeviceId>, d: Device, h: DeviceHal, s: Slot)
    requires Wanted(s.dev, d.vendorId, d.productId) && h.open
    ensures Authorize(s, !!(Trusted(list, d) || list == []), h.authorize) == Trust(list, h, s)
  {
    assert Trusted(list, s.dev) == Trusted(list, d);
  }

  /** The walk for the ids of `n` is one more step of the trust list for each device that it comes to. */
  lemma TrustTurn(was: Hosts, before: Hosts, now: Hosts, list: seq<DeviceId>, hal: string -> DeviceHal,
                  leq: (string, string) -> bool, rest: set<string>, n: string)
    requires TrustPart(was, before, list, hal, leq, rest) && n in rest && n in was.devices && TotalOrder(leq)
    requires AuthorizedById(before, now, was.devices[n].vendorId, was.devices[n].productId,
                            !(Trusted(list, was.devices[n]) || list == []), hal, leq)
    ensures TrustPart(was, now, list, hal, leq, rest - {n})
  {
    var d := was.devices[n];
    AuthorizedByIdKeeps(before, now, d.vendorId, d.productId, !(Trusted(list, d) || list == []), hal, leq);
    SameDevicesTwice(was, before, now);
    forall m | m in was.devices
      ensures At(now, m) == TrustRounds(list, hal(m), RoundsOutside(was, hal, leq, m, rest - {n}), At(was, m))
    {
      TrustTurnAt(was, before, now, list, hal, leq, rest, n, m);
    }
  }

  lemma TrustTurnAt(was: Hosts, before: Hosts, now: Hosts, list: seq<DeviceId>, hal: string -> DeviceHal,
                    leq: (string, string) -> bool, rest: set<string>, n: string, m: string)
    requires SameDevices(was, before) && m in was.devices && n in rest && n in was.devices && TotalOrder(leq)
    requires At(before, m) == TrustRounds(list, hal(m), RoundsOutside(was, hal, leq, m, rest), At(was, m))
    requires AuthorizedById(before, now, was.devices[n].vendorId, was.devices[n].productId,
                            !(Trusted(list, was.devices[n]) || list == []), hal, leq)
    ensures At(now, m) == TrustRounds(list, hal(m), RoundsOutside(was, hal, leq, m, rest - {n}), At(was, m))
  {
    var d := was.devices[n];
    IdsKept(was, before, m);
    ReachesKept(was, before, hal, leq, d.vendorId, d.productId, m);
    OneTwinLess(was, rest, n, m);
    assert n in Twins(was, m) <==> SameIds(was.devices[m], d.vendorId, d.productId);
    if Wanted(before.devices[m], d.vendorId, d.productId) && Reaches(was, hal, leq, d.vendorId, d.productId, m) {
      assert Lawful(leq, m, m, m);
      TrustByIds(list, d, hal(m), At(before, m));
    }
  }

  /** The pass decides every device that it comes to by the list alone, and leaves every other as it was. */
  lemma TrustListDecides(was: Hosts, now: Hosts, list: seq<DeviceId>, hal: string -> DeviceHal,
                         leq: (string, string) -> bool, n: string)
    requires TrustDone(was, now, list, hal, leq) && TotalOrder(leq) && n in was.devices
    ensures now.devices[n].status == Disabled
            <==> if Reachable(was, hal, leq, n) && hal(n).authorize then list != [] && !Trusted(list, was.devices[n])
                 else was.devices[n].status == Disabled
  {
    ReachedIff(was, hal, leq, n);
    assert At(now, n) == TrustRounds(list, hal(n), RoundsAt(was, hal, leq, n), At(was, n));
    if Reachable(was, hal, leq, n) {
      assert Lawful(leq, n, n, n);
      assert Wanted(was.devices[n], was.devices[n].vendorId, was.devices[n].productId);
      RoundsSettle(list, hal(n), RoundsAt(was, hal, leq, n), At(was, n));
    }
  }

  /** The key that the walk over the whole table ends with. */
  ghost predicate Greatest(h: Hosts, leq: (string, string) -> bool, n: string) {
    n in h.devices && forall m :: m in h.devices ==> leq(m, n)
  }
}
