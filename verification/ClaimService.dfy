/** The claim handlers of the service, over the string-keyed map they really use.  `world` is the view of that
    map on (bus, device, interface) triples; every handler is proved to be the step of `ClaimProtocol`. */
module ClaimService {
  import opened UsbTypes
  import opened DeviceKeys
  import opened KeyedMaps
  import opened ClaimProtocol

  function Key(i: Iface): string {
    ClaimKey(i.bus, i.addr, i.id)
  }

  lemma KeyInjective()
    ensures Injective(Key)
  {
    forall i, j | Key(i) == Key(j) ensures i == j {
      ClaimKeyInjective(i.bus, i.addr, i.id, j.bus, j.addr, j.id);
    }
  }

  lemma ScanIsFilter(i: Iface, bus: uint8, addr: uint8)
    ensures DevicePrefix(bus, addr) <= Key(i) <==> OnDevice(i, bus, addr)
  {
    PrefixScanExact(bus, addr, i.bus, i.addr, i.id);
  }

  /** What a scan for one device leaves of an entry; `None` erases it. The owner is `None` for a detach. */
  function Scanned(hit: bool, c: Claim, owner: Option<Token>): Option<Claim> {
    if !hit then Some(c)
    else match owner
      case None => None
      case Some(t) => if c.owner != t then Some(c) else if c.normal then Some(Disowned(c)) else None
  }

  /** The keys outside `rest` have been visited. */
  ghost predicate ScannedMap(was: map<string, Claim>, now: map<string, Claim>, rest: set<string>,
                             prefix: string, owner: Option<Token>)
  {
    && now.Keys <= was.Keys && rest <= was.Keys
    && (forall k :: k in rest ==> k in now && now[k] == was[k])
    && (forall k :: k in was.Keys - rest ==>
          var left := Scanned(prefix <= k, was[k], owner);
          (k in now <==> left.Some?) && (k in now ==> now[k] == left.value))
  }

  /** A string scan over all keys is the corresponding filter on the triples. */
  lemma {:induction false} ScanRepresents(was: map<string, Claim>, now: map<string, Claim>, claims: map<Iface, Claim>,
                                          claims': map<Iface, Claim>, bus: uint8, addr: uint8, owner: Option<Token>)
    requires Represents(Key, was, claims) && ScannedMap(was, now, {}, DevicePrefix(bus, addr), owner)
    requires claims' == match owner case None => DetachClaims(claims, bus, addr)
                                    case Some(t) => CloseClaims(claims, bus, addr, t)
    ensures Represents(Key, now, claims')
  {
    var prefix := DevicePrefix(bus, addr);
    forall i: Iface ensures prefix <= Key(i) <==> OnDevice(i, bus, addr) { ScanIsFilter(i, bus, addr); }
    ScanAgrees(was, now, claims, claims', prefix, bus, addr, owner);
    Refilter(Key, was, claims, now, claims');
  }

  lemma ScanAgrees(was: map<string, Claim>, now: map<string, Claim>, claims: map<Iface, Claim>,
                   claims': map<Iface, Claim>, prefix: string, bus: uint8, addr: uint8, owner: Option<Token>)
    requires Represents(Key, was, claims) && ScannedMap(was, now, {}, prefix, owner)
    requires forall i: Iface :: prefix <= Key(i) <==> OnDevice(i, bus, addr)
    requires claims' == match owner case None => DetachClaims(claims, bus, addr)
                                    case Some(t) => CloseClaims(claims, bus, addr, t)
    ensures forall i :: i in claims ==> (i in claims' <==> Key(i) in now)
    ensures forall i :: i in claims' ==> claims'[i] == now[Key(i)]
  {
    forall i | i in claims
      ensures i in claims' <==> Key(i) in now
      ensures i in claims' ==> claims'[i] == now[Key(i)]
    {
      ScanAgreesAt(was, now, claims, claims', prefix, bus, addr, owner, i);
    }
  }

  lemma ScanAgreesAt(was: map<string, Claim>, now: map<string, Claim>, claims: map<Iface, Claim>,
                     claims': map<Iface, Claim>, prefix: string, bus: uint8, addr: uint8, owner: Option<Token>,
                     i: Iface)
    requires Represents(Key, was, claims) && ScannedMap(was, now, {}, prefix, owner) && i in claims
    requires prefix <= Key(i) <==> OnDevice(i, bus, addr)
    requires claims' == match owner case None => DetachClaims(claims, bus, addr)
                                    case Some(t) => CloseClaims(claims, bus, addr, t)
    ensures i in claims' <==> Key(i) in now
    ensures i in claims' ==> claims'[i] == now[Key(i)]
  {
    assert Key(i) in was.Keys - {};
  }

  class UsbService {
    var claimStateMap: map<string, Claim>
    ghost var world: World

    ghost predicate Valid()
      reads this
    {
      Represents(Key, claimStateMap, world.claims)
    }

    constructor ()
      ensures Valid() && world == EMPTY
    {
      claimStateMap := map[];
      world := EMPTY;
    }

    method ClaimInterface(i: Iface, t: Token, hal: HalReply) returns (ret: Reply, notified: Option<nat>)
      requires Valid()
      modifies this
      ensures Valid() && world == Apply(old(world), Normal(i, t, hal))
      ensures ret == Answer(old(world), Normal(i, t, hal))
      ensures notified == ConflictNotice(old(world), i, t, hal)
    {
      notified := None;
      if !hal.HalOk? {
        return ClaimReply(hal), None;
      }
      notified := NotifyExclusiveOwner(i, t);
      world := World(world.claims, world.hal + {i});
      ret := Ok;
    }

    method NotifyExclusiveOwner(i: Iface, t: Token) returns (notifyCb: Option<nat>)
      requires Valid()
      modifies this
      ensures Valid() && world.hal == old(world.hal)
      ensures world.claims == NormalStep(old(world), i, HalOk).claims
      ensures notifyCb == ConflictNotice(old(world), i, t, HalOk)
    {
      var key := Key(i);
      KeyInjective();
      Lookup(Key, claimStateMap, world.claims, i);
      var entry := if key in claimStateMap then claimStateMap[key] else NO_CLAIM;
      Store(Key, claimStateMap, world.claims, i, entry.(normal := true));
      claimStateMap := claimStateMap[key := entry.(normal := true)];
      world := world.(claims := world.claims[i := entry.(normal := true)]);
      notifyCb := None;
      if entry.owner != 0 && entry.owner != t {
        notifyCb := entry.callback;
      }
    }

    method CheckExclusiveTransfer(i: Iface, t: Token) returns (ret: Reply)
      requires Valid()
      ensures ret == GuardTransfer(world.claims, i, t)
    {
      KeyInjective();
      Lookup(Key, claimStateMap, world.claims, i);
      if Key(i) !in claimStateMap {
        return Ok;
      }
      var entry := claimStateMap[Key(i)];
      if entry.owner != 0 && !entry.normal && entry.owner != t {
        return IoException;
      }
      ret := Ok;
    }

    method ClaimInterfaceExclusive(i: Iface, t: Token, cb: Option<nat>, linked: bool, hal: HalReply)
      returns (ret: Reply)
      requires Valid()
      modifies this
      ensures Valid() && world == Apply(old(world), Exclusive(i, t, cb, linked, hal))
      ensures ret == Answer(old(world), Exclusive(i, t, cb, linked, hal))
    {
      var key := Key(i);
      var isRepeat := false;
      KeyInjective();
      Lookup(Key, claimStateMap, world.claims, i);
      if key in claimStateMap {
        var entry := claimStateMap[key];
        if entry.owner == t {
          isRepeat := true;
        } else if entry.owner != 0 {
          return Busy;
        } else if entry.normal {
          return Busy;
        }
      }
      if !hal.HalOk? {
        return ClaimReply(hal);
      }
      world := World(world.claims, world.hal + {i});
      RegisterExclusiveCallback(i, t, cb, linked, isRepeat);
      ret := Ok;
    }

    method RegisterExclusiveCallback(i: Iface, t: Token, cb: Option<nat>, linked: bool, isRepeat: bool)
      requires Valid()
      modifies this
      ensures Valid() && world.hal == old(world.hal)
      ensures world.claims == if Registers(cb, linked) then Record(old(world.claims), i, t, cb.value, isRepeat)
                              else old(world.claims)
    {
      if cb.None? || !linked {
        return;
      }
      KeyInjective();
      Lookup(Key, claimStateMap, world.claims, i);
      var state := if Key(i) in claimStateMap then claimStateMap[Key(i)] else NO_CLAIM;
      if !isRepeat {
        state := state.(owner := t);
      }
      state := state.(callback := cb, recipient := Some(Recipient(i, t)));
      Store(Key, claimStateMap, world.claims, i, state);
      claimStateMap := claimStateMap[Key(i) := state];
      world := world.(claims := world.claims[i := state]);
    }

    method ReleaseClaimState(i: Iface, t: Token) returns (ret: Reply, releaseToHdi: bool)
      requires Valid()
      modifies this
      ensures Valid() && world.hal == old(world.hal)
      ensures var outcome := ReleaseState(old(world.claims), i, t);
              && ret == (if outcome.Denied? then InvalidOperation else Ok)
              && (releaseToHdi <==> !outcome.KeepHal?)
              && world.claims == (if outcome.Denied? then old(world.claims) else outcome.claims)
    {
      releaseToHdi := true;
      var key := Key(i);
      KeyInjective();
      Lookup(Key, claimStateMap, world.claims, i);
      if key !in claimStateMap {
        return Ok, true;
      }
      var entry := claimStateMap[key];
      if entry.owner == t {
        entry := Disowned(entry);
        if entry.normal {
          Store(Key, claimStateMap, world.claims, i, entry);
          claimStateMap := claimStateMap[key := entry];
          world := world.(claims := world.claims[i := entry]);
          return Ok, false;
        }
        Erase(Key, claimStateMap, world.claims, i);
        claimStateMap := claimStateMap - {key};
        world := world.(claims := world.claims - {i});
        return Ok, true;
      }
      if entry.owner != 0 {
        if entry.normal {
          entry := entry.(normal := false);
          Store(Key, claimStateMap, world.claims, i, entry);
          claimStateMap := claimStateMap[key := entry];
          world := world.(claims := world.claims[i := entry]);
          return Ok, false;
        }
        return InvalidOperation, true;
      }
      if entry.normal {
        Erase(Key, claimStateMap, world.claims, i);
        claimStateMap := claimStateMap - {key};
        world := world.(claims := world.claims - {i});
      }
      ret := Ok;
    }

    method ReleaseInterface(i: Iface, t: Token, hal: HalReply) returns (ret: Reply)
      requires Valid()
      modifies this
      ensures Valid() && world == Apply(old(world), Release(i, t, hal))
      ensures ret == Answer(old(world), Release(i, t, hal))
    {
      var stateRet, releaseToHdi := ReleaseClaimState(i, t);
      if stateRet != Ok {
        return stateRet;
      }
      if !releaseToHdi {
        return Ok;
      }
      if hal.HalOk? {
        world := world.(hal := world.hal - {i});
      }
      if hal == HalErrOp {
        return InvalidOperation;
      }
      ret := ClaimReply(hal);
    }

    /** `ClaimDeathRecipient::OnRemoteDied` of the recipient `r`. */
    method OnRemoteDied(r: Recipient, hal: HalReply)
      requires Valid()
      modifies this
      ensures Valid() && world == Apply(old(world), Died(r, hal))
    {
      var key := Key(r.iface);
      KeyInjective();
      Lookup(Key, claimStateMap, world.claims, r.iface);
      if key !in claimStateMap || claimStateMap[key].owner != r.token {
        return;
      }
      var entry := Disowned(claimStateMap[key]);
      if entry.normal {
        Store(Key, claimStateMap, world.claims, r.iface, entry);
        claimStateMap := claimStateMap[key := entry];
        world := world.(claims := world.claims[r.iface := entry]);
      } else {
        Erase(Key, claimStateMap, world.claims, r.iface);
        claimStateMap := claimStateMap - {key};
        world := World(world.claims - {r.iface}, if hal.HalOk? then world.hal - {r.iface} else world.hal);
      }
    }

    /** The loop of the two device scans: it visits the keys in some order, and erasing an entry does not disturb
        the rest of the visit. */
    method ScanDevice(prefix: string, owner: Option<Token>)
      modifies this`claimStateMap
      ensures ScannedMap(old(claimStateMap), claimStateMap, {}, prefix, owner)
    {
      var was := claimStateMap;
      var rest := claimStateMap.Keys;
      while rest != {}
        invariant ScannedMap(was, claimStateMap, rest, prefix, owner)
      {
        var k :| k in rest;
        rest := rest - {k};
        var entry := claimStateMap[k];
        if prefix <= k && (owner.None? || entry.owner == owner.value) {
          if owner.Some? && entry.normal {
            claimStateMap := claimStateMap[k := Disowned(entry)];
          } else {
            claimStateMap := claimStateMap - {k};
          }
        }
      }
    }

    method RemoveExclusiveClaimByDevice(bus: uint8, addr: uint8, t: Token)
      requires Valid()
      modifies this
      ensures Valid() && world == Apply(old(world), Close(bus, addr, t))
    {
      ghost var was, claims' := claimStateMap, CloseClaims(world.claims, bus, addr, t);
      ScanDevice(DevicePrefix(bus, addr), Some(t));
      ScanRepresents(was, claimStateMap, world.claims, claims', bus, addr, Some(t));
      world := world.(claims := claims');
    }

    method RemoveAllClaimByDevice(bus: uint8, addr: uint8)
      requires Valid()
      modifies this
      ensures Valid() && world == Apply(old(world), Detach(bus, addr))
    {
      ghost var was, claims' := claimStateMap, DetachClaims(world.claims, bus, addr);
      ScanDevice(DevicePrefix(bus, addr), None);
      ScanRepresents(was, claimStateMap, world.claims, claims', bus, addr, None);
      world := world.(claims := claims');
    }
  }
}
