/** The connection handlers of the service over the map keyed by "bus-device" strings.  `View` is their state on
    addresses, together with what each listener's callback has been called with. */
module ConnectionService {
  import opened UsbTypes
  import opened DeviceKeys
  import opened KeyedMaps
  import opened ConnectionRegistry

  function AddrKey(a: Addr): string {
    DeviceKey(a.bus, a.addr)
  }

  lemma AddrKeyInjective()
    ensures Injective(AddrKey)
  {
    forall a, b | AddrKey(a) == AddrKey(b) ensures a == b {
      DeviceKeyInjective(a.bus, a.addr, b.bus, b.addr);
    }
  }

  datatype RegisterReply = Registered | AlreadyExists | AddDeathRecipientFailed

  /** Of the listeners in `told`, each has heard `e` on top of `before`. */
  ghost predicate ToldSome(before: map<nat, seq<Event>>, now: map<nat, seq<Event>>, told: seq<nat>, e: Event) {
    && now.Keys == before.Keys
    && forall l :: l in before ==> now[l] == if l in told then before[l] + [e] else before[l]
  }

  lemma ToldOneMore(before: map<nat, seq<Event>>, now: map<nat, seq<Event>>, listeners: seq<nat>, n: nat, e: Event)
    requires n < |listeners| && forall l :: l in listeners <==> l in before
    requires forall j, k :: 0 <= j < k < |listeners| ==> listeners[j] != listeners[k]
    requires ToldSome(before, now, listeners[..n], e)
    ensures listeners[n] in now
    ensures ToldSome(before, now[listeners[n] := now[listeners[n]] + [e]], listeners[..n + 1], e)
  {
    var l := listeners[n];
    assert l in listeners && l !in listeners[..n];
    assert listeners[..n + 1] == listeners[..n] + [l];
  }

  lemma TellMore(heard: map<nat, seq<Event>>, es: seq<Event>, e: Event)
    ensures TellAll(TellAll(heard, es), [e]) == TellAll(heard, es + [e])
  {
    assert forall l :: l in heard ==> (heard[l] + es) + [e] == heard[l] + (es + [e]);
  }

  lemma TellNothing(heard: map<nat, seq<Event>>)
    ensures TellAll(heard, []) == heard
  {
    assert forall l :: l in heard ==> heard[l] + [] == heard[l];
  }

  function Greetings(o: Opened): set<Event> {
    set u | u in o.apps :: Connect(o.device, u, o.apps[u])
  }

  /** The device whose key comes next in the walk over the map. */
  lemma NextDevice(stored: map<string, Opened>, conns: map<Addr, Opened>, left: set<Addr>, rest: set<string>,
                   key: string)
    returns (a: Addr)
    requires Represents(AddrKey, stored, conns) && SameLeft(AddrKey, conns.Keys, left, rest)
    requires key in rest && key in stored
    ensures a in conns && a in left && stored[key] == conns[a] && left == (left - {a}) + {a}
    ensures SameLeft(AddrKey, conns.Keys, left - {a}, rest - {key})
  {
    a :| a in conns && AddrKey(a) == key;
    AddrKeyInjective();
    VisitNext(AddrKey, conns.Keys, left, rest, a);
  }

  /** `pending` is the replay of the devices outside `left`. */
  ghost predicate Collected(pending: seq<Event>, conns: map<Addr, Opened>, left: set<Addr>) {
    && (forall e :: e in pending <==> e in Replay(conns) && Subject(e).0 !in left)
    && (forall j, k :: 0 <= j < k < |pending| ==> pending[j] != pending[k])
  }

  lemma NothingCollected(conns: map<Addr, Opened>)
    requires forall b :: b in conns ==> AddrOf(conns[b].device) == b
    ensures Collected([], conns, conns.Keys)
  {
  }

  lemma AllCollected(pending: seq<Event>, conns: map<Addr, Opened>)
    requires Collected(pending, conns, {})
    ensures OnceEach(pending, Replay(conns))
  {
  }

  lemma CloseRepresents(stored: map<string, Opened>, conns: map<Addr, Opened>, a: Addr, uid: int32)
    requires Injective(AddrKey) && Represents(AddrKey, stored, conns) && a in conns
    ensures var record := conns[a];
            var apps := record.apps - {uid};
            Represents(AddrKey,
                       if apps == map[] then stored - {AddrKey(a)} else stored[AddrKey(a) := record.(apps := apps)],
                       CloseConns(conns, a, uid))
  {
    Store(AddrKey, stored, conns, a, conns[a].(apps := conns[a].apps - {uid}));
    Erase(AddrKey, stored, conns, a);
  }

  lemma AppendReplay(pending: seq<Event>, infos: seq<Event>, conns: map<Addr, Opened>, left: set<Addr>, a: Addr)
    requires a in conns && a !in left && OnceEach(infos, Greetings(conns[a]))
    requires forall b :: b in conns ==> AddrOf(conns[b].device) == b
    requires Collected(pending, conns, left + {a})
    ensures Collected(pending + infos, conns, left)
  {
    forall e ensures e in Greetings(conns[a]) <==> e in Replay(conns) && Subject(e).0 == a {}
    assert forall k :: 0 <= k < |pending| ==> pending[k] in pending;
    assert forall k :: 0 <= k < |infos| ==> infos[k] in infos;
  }

  lemma ToldAll(before: map<nat, seq<Event>>, now: map<nat, seq<Event>>, told: seq<nat>, e: Event)
    requires ToldSome(before, now, told, e) && forall l :: l in before ==> l in told
    ensures now == TellAll(before, [e])
  {
  }

  class ConnectionTracker {
    var deviceConnectionMap: map<string, Opened>
    var deviceListeners: seq<nat>
    ghost var conns: map<Addr, Opened>
    ghost var heard: map<nat, seq<Event>>

    ghost function View(): Registry
      reads this
    {
      Registry(conns, deviceListeners, heard)
    }

    ghost predicate Valid()
      reads this
    {
      Represents(AddrKey, deviceConnectionMap, conns) && Consistent(View())
    }

    constructor ()
      ensures Valid() && View() == NOBODY
    {
      deviceConnectionMap, deviceListeners := map[], [];
      conns, heard := map[], map[];
    }

    /** Calls every listener registered now, one after the other. */
    method NotifyDeviceConnection(e: Event)
      requires forall l :: l in deviceListeners <==> l in heard
      requires forall j, k :: 0 <= j < k < |deviceListeners| ==> deviceListeners[j] != deviceListeners[k]
      modifies this`heard
      ensures heard == TellAll(old(heard), [e])
    {
      for n := 0 to |deviceListeners|
        invariant ToldSome(old(heard), heard, deviceListeners[..n], e)
      {
        var l := deviceListeners[n];
        ToldOneMore(old(heard), heard, deviceListeners, n, e);
        heard := heard[l := heard[l] + [e]];
      }
      assert deviceListeners[..|deviceListeners|] == deviceListeners;
      ToldAll(old(heard), heard, deviceListeners, e);
    }

    method NotifyAll(infos: seq<Event>)
      requires forall l :: l in deviceListeners <==> l in heard
      requires forall j, k :: 0 <= j < k < |deviceListeners| ==> deviceListeners[j] != deviceListeners[k]
      modifies this`heard
      ensures heard == TellAll(old(heard), infos)
    {
      TellNothing(heard);
      for n := 0 to |infos|
        invariant heard == TellAll(old(heard), infos[..n])
      {
        NotifyDeviceConnection(infos[n]);
        TellMore(old(heard), infos[..n], infos[n]);
        assert infos[..n + 1] == infos[..n] + [infos[n]];
      }
      assert infos[..|infos|] == infos;
    }

    /** Calls one new listener with the replay. */
    method ReplayTo(l: nat, pending: seq<Event>)
      modifies this`heard
      ensures heard == old(heard)[l := pending]
    {
      heard := heard[l := []];
      for n := 0 to |pending|
        invariant heard == old(heard)[l := pending[..n]]
      {
        heard := heard[l := heard[l] + [pending[n]]];
        assert pending[..n + 1] == pending[..n] + [pending[n]];
      }
      assert pending[..|pending|] == pending;
    }

    /** After a successful HAL open: `AddDeviceConnection`. */
    method OpenDevice(a: Addr, uid: int32, bundle: Option<string>, info: Option<Device>, ok: bool)
      requires Valid() && (info.Some? ==> AddrOf(info.value) == a)
      modifies this
      ensures Valid() && Step(old(View()), Open(a, uid, bundle, info, ok), View())
    {
      if !ok || info.None? || bundle.None? {
        return;
      }
      var key := AddrKey(a);
      AddrKeyInjective();
      Lookup(AddrKey, deviceConnectionMap, conns, a);
      var apps := if key in deviceConnectionMap then deviceConnectionMap[key].apps else map[];
      var record := Opened(info.value, apps[uid := bundle.value]);
      Store(AddrKey, deviceConnectionMap, conns, a, record);
      deviceConnectionMap := deviceConnectionMap[key := record];
      conns := conns[a := record];
      NotifyDeviceConnection(Connect(info.value, uid, bundle.value));
      StepKeeps(old(View()), Open(a, uid, bundle, info, ok), View());
    }

    /** After a HAL close: `RemoveDeviceConnection`. */
    method CloseDevice(a: Addr, uid: int32, bundle: Option<string>, ok: bool)
      requires Valid()
      modifies this
      ensures Valid() && Step(old(View()), Close(a, uid, bundle, ok), View())
    {
      if !ok || bundle.None? {
        return;
      }
      var key := AddrKey(a);
      AddrKeyInjective();
      Lookup(AddrKey, deviceConnectionMap, conns, a);
      if key !in deviceConnectionMap {
        return;
      }
      var record := deviceConnectionMap[key];
      if uid !in record.apps {
        return;
      }
      var apps := record.apps - {uid};
      CloseRepresents(deviceConnectionMap, conns, a, uid);
      deviceConnectionMap := if apps == map[] then deviceConnectionMap - {key}
                             else deviceConnectionMap[key := record.(apps := apps)];
      conns := CloseConns(conns, a, uid);
      NotifyDeviceConnection(Disconnect(record.device, uid, bundle.value));
      StepKeeps(old(View()), Close(a, uid, bundle, ok), View());
    }

    /** On detach: `RemoveAllDeviceConnections`. */
    method RemoveAllDeviceConnections(a: Addr)
      requires Valid()
      modifies this
      ensures Valid() && Step(old(View()), Detach(a), View())
    {
      var key := AddrKey(a);
      AddrKeyInjective();
      Lookup(AddrKey, deviceConnectionMap, conns, a);
      if key !in deviceConnectionMap {
        return;
      }
      var record := deviceConnectionMap[key];
      var infos := Collect(record, false);
      Erase(AddrKey, deviceConnectionMap, conns, a);
      deviceConnectionMap := deviceConnectionMap - {key};
      conns := conns - {a};
      NotifyAll(infos);
      StepKeeps(old(View()), Detach(a), View());
    }

    /** The walk over the apps of one device, for a replay or for its farewells. */
    static method Collect(record: Opened, connect: bool) returns (infos: seq<Event>)
      ensures OnceEach(infos, if connect then Greetings(record) else Farewells(record))
    {
      infos := [];
      var rest := record.apps.Keys;
      while rest != {}
        invariant rest <= record.apps.Keys
        invariant forall e :: e in infos <==>
          e in (if connect then Greetings(record) else Farewells(record)) && e.uid !in rest
        invariant forall j, k :: 0 <= j < k < |infos| ==> infos[j] != infos[k]
      {
        var u :| u in rest;
        rest := rest - {u};
        var e := if connect then Connect(record.device, u, record.apps[u])
                 else Disconnect(record.device, u, record.apps[u]);
        assert e !in infos;
        infos := infos + [e];
      }
    }

    method RegisterConnectionListener(l: nat, linked: bool) returns (ret: RegisterReply)
      requires Valid()
      modifies this
      ensures Valid() && Step(old(View()), Register(l, linked), View())
      ensures ret == if l in old(deviceListeners) then AlreadyExists
                     else if linked then Registered else AddDeathRecipientFailed
    {
      for n := 0 to |deviceListeners|
        invariant l !in deviceListeners[..n]
      {
        if deviceListeners[n] == l {
          return AlreadyExists;
        }
      }
      if !linked {
        return AddDeathRecipientFailed;
      }
      deviceListeners := deviceListeners + [l];
      var pending := CollectReplay();
      ReplayTo(l, pending);
      StepKeeps(old(View()), Register(l, linked), View());
      ret := Registered;
    }

    /** The walk over all devices that fills the replay. */
    method CollectReplay() returns (pending: seq<Event>)
      requires Represents(AddrKey, deviceConnectionMap, conns)
      requires forall a :: a in conns ==> AddrOf(conns[a].device) == a
      ensures OnceEach(pending, Replay(conns))
    {
      pending := [];
      var rest := deviceConnectionMap.Keys;
      ghost var left := conns.Keys;
      NothingCollected(conns);
      while rest != {}
        invariant rest <= deviceConnectionMap.Keys && left <= conns.Keys
        invariant SameLeft(AddrKey, conns.Keys, left, rest)
        invariant Collected(pending, conns, left)
      {
        var key :| key in rest;
        ghost var a := NextDevice(deviceConnectionMap, conns, left, rest, key);
        rest := rest - {key};
        var infos := Collect(deviceConnectionMap[key], true);
        left := left - {a};
        AppendReplay(pending, infos, conns, left, a);
        pending := pending + infos;
      }
      AllCollected(pending, conns);
    }

    method UnRegisterConnectionListener(l: nat)
      requires Valid()
      modifies this
      ensures Valid() && Step(old(View()), Unregister(l), View())
    {
      ghost var after := Registry(conns, Without(deviceListeners, l), heard - {l});
      StepKeeps(View(), Unregister(l), after);
      var n := 0;
      while n < |deviceListeners| && deviceListeners[n] != l
        invariant n <= |deviceListeners| && l !in deviceListeners[..n]
      {
        n := n + 1;
      }
      if n < |deviceListeners| {
        WithoutAt(deviceListeners, l, n);
        deviceListeners := deviceListeners[..n] + deviceListeners[n + 1..];
      } else {
        assert deviceListeners[..n] == deviceListeners;
      }
      heard := heard - {l};
    }
  }
}
