/** The registry of open device connections and the listeners that follow it.  A listener hears a replay of the
    open connections when it registers and one event per change after that; the theorem is that what it has heard
    always adds up to the registry. */
module ConnectionRegistry {
  import opened UsbTypes

  datatype Addr = Addr(bus: uint8, addr: uint8)

  /** An open device: its descriptor as last read, and the apps (uid to bundle name) that hold it open. */
  datatype Opened = Opened(device: Device, apps: map<int32, string>)

  datatype Event =
    | Connect(device: Device, uid: int32, bundle: string)
    | Disconnect(device: Device, uid: int32, bundle: string)

  /** `heard` is what each registered listener has been told since it registered. Listeners are remote objects. */
  datatype Registry = Registry(conns: map<Addr, Opened>, listeners: seq<nat>, heard: map<nat, seq<Event>>)

  const NOBODY: Registry := Registry(map[], [], map[])

  function AddrOf(d: Device): Addr {
    Addr(d.busNum, d.devAddr)
  }

  /** Requests with the answers they get from outside: `bundle` is the caller's bundle name if it can be found,
      `info` the device descriptor if it can be read, `ok` the HAL's verdict. */
  datatype Op =
    | Open(a: Addr, uid: int32, bundle: Option<string>, info: Option<Device>, ok: bool)
    | Close(a: Addr, uid: int32, bundle: Option<string>, ok: bool)
    | Detach(a: Addr)
    | Register(l: nat, linked: bool)
    | Unregister(l: nat)

  /** A descriptor that is read for a device is stamped with that device's address. */
  predicate Stamped(op: Op) {
    op.Open? && op.info.Some? ==> AddrOf(op.info.value) == op.a
  }

  // ---- Steps ---------------------------------------------------------------------------------------------

  function TellAll(heard: map<nat, seq<Event>>, es: seq<Event>): map<nat, seq<Event>> {
    map l | l in heard :: heard[l] + es
  }

  function Apps(conns: map<Addr, Opened>, a: Addr): map<int32, string> {
    if a in conns then conns[a].apps else map[]
  }

  function Without(listeners: seq<nat>, l: nat): (rest: seq<nat>)
    ensures l !in listeners ==> rest == listeners
  {
    if listeners == [] then [] else if listeners[0] == l then listeners[1..]
    else [listeners[0]] + Without(listeners[1..], l)
  }

  /** `es` names every event of `events` exactly once, in any order. */
  ghost predicate OnceEach(es: seq<Event>, events: set<Event>) {
    && (forall e :: e in es <==> e in events)
    && (forall j, k :: 0 <= j < k < |es| ==> es[j] != es[k])
  }

  function Farewells(o: Opened): set<Event> {
    set u | u in o.apps :: Disconnect(o.device, u, o.apps[u])
  }

  function Replay(conns: map<Addr, Opened>): set<Event> {
    set a, u | a in conns && u in conns[a].apps :: Connect(conns[a].device, u, conns[a].apps[u])
  }

  function CloseConns(conns: map<Addr, Opened>, a: Addr, uid: int32): map<Addr, Opened>
    requires a in conns
  {
    var apps := conns[a].apps - {uid};
    if apps == map[] then conns - {a} else conns[a := conns[a].(apps := apps)]
  }

  /** One request; replay and farewells come in the order the maps are walked, which is left open. */
  ghost predicate Step(r: Registry, op: Op, r': Registry) {
    match op
    case Open(a, uid, bundle, info, ok) =>
      if ok && info.Some? && bundle.Some? then
        r' == Registry(r.conns[a := Opened(info.value, Apps(r.conns, a)[uid := bundle.value])], r.listeners,
                       TellAll(r.heard, [Connect(info.value, uid, bundle.value)]))
      else r' == r
    case Close(a, uid, bundle, ok) =>
      if ok && bundle.Some? && uid in Apps(r.conns, a) then
        r' == Registry(CloseConns(r.conns, a, uid), r.listeners,
                       TellAll(r.heard, [Disconnect(r.conns[a].device, uid, bundle.value)]))
      else r' == r
    case Detach(a) =>
      if a in r.conns then
        exists es :: OnceEach(es, Farewells(r.conns[a]))
                     && r' == Registry(r.conns - {a}, r.listeners, TellAll(r.heard, es))
      else r' == r
    case Register(l, linked) =>
      if linked && l !in r.listeners then
        exists es :: OnceEach(es, Replay(r.conns)) && r' == Registry(r.conns, r.listeners + [l], r.heard[l := es])
      else r' == r
    case Unregister(l) =>
      r' == Registry(r.conns, Without(r.listeners, l), r.heard - {l})
  }

  // ---- What a listener makes of its events ---------------------------------------------------------------

  type View = map<(Addr, int32), string>

  function Subject(e: Event): (Addr, int32) {
    (AddrOf(e.device), e.uid)
  }

  function Hear(v: View, e: Event): View {
    if e.Connect? then v[Subject(e) := e.bundle] else v - {Subject(e)}
  }

  function Fold(es: seq<Event>): View {
    if es == [] then map[] else Hear(Fold(es[..|es| - 1]), es[|es| - 1])
  }

  /** The view names exactly the open (device, uid) pairs, with the right bundle names. */
  ghost predicate Agrees(v: View, conns: map<Addr, Opened>) {
    && (forall a, u :: (a, u) in v <==> u in Apps(conns, a))
    && (forall a, u :: (a, u) in v ==> v[(a, u)] == conns[a].apps[u])
  }

  /** Nobody is told of the end of a connection it was not told of before. */
  ghost predicate Justified(es: seq<Event>) {
    forall k :: 0 <= k < |es| && es[k].Disconnect? ==> Subject(es[k]) in Fold(es[..k])
  }

  ghost predicate Consistent(r: Registry) {
    && (forall a :: a in r.conns ==> r.conns[a].apps != map[] && AddrOf(r.conns[a].device) == a)
    && (forall l :: l in r.listeners <==> l in r.heard)
    && (forall j, k :: 0 <= j < k < |r.listeners| ==> r.listeners[j] != r.listeners[k])
    && (forall l :: l in r.heard ==> Agrees(Fold(r.heard[l]), r.conns) && Justified(r.heard[l]))
  }

  // ---- Proof ---------------------------------------------------------------------------------------------

  lemma FoldSnoc(h: seq<Event>, e: Event)
    ensures Fold(h + [e]) == Hear(Fold(h), e)
    ensures Justified(h) && (e.Disconnect? ==> Subject(e) in Fold(h)) ==> Justified(h + [e])
  {
    assert (h + [e])[..|h|] == h;
    assert forall k :: 0 <= k <= |h| ==> (h + [e])[..k] == h[..k];
  }

  /** `v` has the connections that `es` names, as they are in `conns`. */
  ghost predicate Shows(v: View, es: seq<Event>, conns: map<Addr, Opened>) {
    && (forall s :: s in v <==> Names(es, s))
    && (forall s :: s in v ==> s.1 in Apps(conns, s.0) && v[s] == conns[s.0].apps[s.1])
  }

  lemma ShowsSnoc(v: View, front: seq<Event>, e: Event, conns: map<Addr, Opened>)
    requires forall a :: a in conns ==> AddrOf(conns[a].device) == a
    requires e in Replay(conns) && Shows(v, front, conns)
    ensures Shows(Hear(v, e), front + [e], conns)
  {
    NamesSnoc(front, e);
  }

  /** Replaying distinct open connections builds the view of what has been replayed so far. */
  lemma {:induction false} FoldReplay(es: seq<Event>, conns: map<Addr, Opened>)
    requires forall a :: a in conns ==> AddrOf(conns[a].device) == a
    requires forall e :: e in es ==> e in Replay(conns)
    ensures Shows(Fold(es), es, conns) && Justified(es)
  {
    if es != [] {
      var front, e := es[..|es| - 1], es[|es| - 1];
      assert es == front + [e] && e in es;
      FoldReplay(front, conns);
      FoldSnoc(front, e);
      ShowsSnoc(Fold(front), front, e, conns);
    }
  }

  ghost predicate Names(es: seq<Event>, s: (Addr, int32)) {
    exists k :: 0 <= k < |es| && Subject(es[k]) == s
  }

  /** `after` is `before` without the connections that `es` names. */
  ghost predicate Minus(before: View, es: seq<Event>, after: View) {
    && (forall s :: s in after <==> s in before && !Names(es, s))
    && (forall s :: s in after ==> after[s] == before[s])
  }

  lemma MinusSnoc(before: View, front: seq<Event>, e: Event, after: View)
    requires Minus(before, front, after) && e.Disconnect?
    ensures Minus(before, front + [e], Hear(after, e))
  {
    NamesSnoc(front, e);
  }

  /** Distinct farewells to one device take exactly the connections they name out of the view. */
  lemma {:induction false} FoldFarewells(h: seq<Event>, es: seq<Event>, o: Opened)
    requires Justified(h)
    requires forall e :: e in es ==> e in Farewells(o)
    requires forall j, k :: 0 <= j < k < |es| ==> es[j] != es[k]
    requires forall u :: u in o.apps ==> (AddrOf(o.device), u) in Fold(h)
    ensures Minus(Fold(h), es, Fold(h + es)) && Justified(h + es)
  {
    if es == [] {
      assert h + es == h;
    } else {
      var front, e := es[..|es| - 1], es[|es| - 1];
      assert es == front + [e] && e in es;
      FoldFarewells(h, front, o);
      FarewellsDiffer(front, e, o) by {
        assert forall k :: 0 <= k < |front| ==> front[k] == es[k] && es[k] in es;
      }
      assert h + es == (h + front) + [e];
      assert Subject(e) in Fold(h);
      FoldSnoc(h + front, e);
      MinusSnoc(Fold(h), front, e, Fold(h + front));
    }
  }

  lemma FarewellsDiffer(front: seq<Event>, e: Event, o: Opened)
    requires e in Farewells(o) && e !in front && forall f :: f in front ==> f in Farewells(o)
    ensures !Names(front, Subject(e))
  {
    forall k | 0 <= k < |front| ensures Subject(front[k]) != Subject(e) {
      assert front[k] in front;
    }
  }

  lemma NamesSnoc(front: seq<Event>, e: Event)
    ensures forall s :: Names(front + [e], s) <==> Names(front, s) || s == Subject(e)
  {
    forall s ensures Names(front + [e], s) <==> Names(front, s) || s == Subject(e) {
      if Names(front, s) {
        var k :| 0 <= k < |front| && Subject(front[k]) == s;
        assert (front + [e])[k] == front[k];
      }
      assert (front + [e])[|front|] == e;
    }
  }

  lemma OpenKeeps(v: View, r: Registry, a: Addr, uid: int32, bundle: string, info: Device)
    requires Consistent(r) && Agrees(v, r.conns) && AddrOf(info) == a
    ensures Agrees(Hear(v, Connect(info, uid, bundle)),
                   r.conns[a := Opened(info, Apps(r.conns, a)[uid := bundle])])
  {
  }

  lemma CloseKeeps(v: View, r: Registry, a: Addr, uid: int32, bundle: string)
    requires Consistent(r) && Agrees(v, r.conns) && uid in Apps(r.conns, a)
    ensures Agrees(Hear(v, Disconnect(r.conns[a].device, uid, bundle)), CloseConns(r.conns, a, uid))
  {
    var apps := r.conns[a].apps - {uid};
    forall u | u in r.conns[a].apps && u != uid ensures u in apps {}
  }

  lemma {:induction false} DetachKeeps(h: seq<Event>, r: Registry, a: Addr, es: seq<Event>)
    requires Consistent(r) && Agrees(Fold(h), r.conns) && Justified(h)
    requires a in r.conns && OnceEach(es, Farewells(r.conns[a]))
    ensures Agrees(Fold(h + es), r.conns - {a}) && Justified(h + es)
  {
    var o := r.conns[a];
    forall u | u in o.apps ensures (AddrOf(o.device), u) in Fold(h) { assert u in Apps(r.conns, a); }
    FoldFarewells(h, es, o);
    FarewellNames(es, o);
    TakenOut(Fold(h), es, Fold(h + es), r.conns, a);
  }

  lemma FarewellNames(es: seq<Event>, o: Opened)
    requires OnceEach(es, Farewells(o))
    ensures forall s :: Names(es, s) <==> s.0 == AddrOf(o.device) && s.1 in o.apps
  {
    forall s ensures Names(es, s) <==> s.0 == AddrOf(o.device) && s.1 in o.apps {
      if s.0 == AddrOf(o.device) && s.1 in o.apps {
        var e := Disconnect(o.device, s.1, o.apps[s.1]);
        assert e in Farewells(o) && e in es;
        var k :| 0 <= k < |es| && es[k] == e;
      }
      if Names(es, s) {
        var k :| 0 <= k < |es| && Subject(es[k]) == s;
        assert es[k] in es;
      }
    }
  }

  lemma TakenOut(v: View, es: seq<Event>, v': View, conns: map<Addr, Opened>, a: Addr)
    requires Agrees(v, conns) && Minus(v, es, v') && a in conns
    requires forall s :: Names(es, s) <==> s.0 == a && s.1 in conns[a].apps
    ensures Agrees(v', conns - {a})
  {
    forall b, u ensures (b, u) in v' <==> u in Apps(conns - {a}, b) {
      assert (b, u) in v <==> u in Apps(conns, b);
      assert Names(es, (b, u)) <==> b == a && u in conns[a].apps;
    }
  }

  lemma RegisterKeeps(r: Registry, es: seq<Event>)
    requires Consistent(r) && OnceEach(es, Replay(r.conns))
    ensures Agrees(Fold(es), r.conns) && Justified(es)
  {
    FoldReplay(es, r.conns);
    forall a, u | u in Apps(r.conns, a) ensures Names(es, (a, u)) {
      var e := Connect(r.conns[a].device, u, r.conns[a].apps[u]);
      assert e in Replay(r.conns) && e in es;
      var k :| 0 <= k < |es| && es[k] == e;
      assert Subject(es[k]) == (a, u);
    }
  }

  lemma {:induction false} WithoutAt(listeners: seq<nat>, l: nat, n: nat)
    requires n < |listeners| && listeners[n] == l && l !in listeners[..n]
    ensures Without(listeners, l) == listeners[..n] + listeners[n + 1..]
  {
    if n > 0 {
      assert listeners[0] == listeners[..n][0];
      assert listeners[1..][..n - 1] == listeners[..n][1..];
      WithoutAt(listeners[1..], l, n - 1);
      assert listeners[..n] + listeners[n + 1..] == [listeners[0]] + (listeners[1..][..n - 1] + listeners[1..][n..]);
    }
  }

  lemma OneErased(ls: seq<nat>, l: nat, n: nat)
    requires n < |ls| && ls[n] == l && forall j, k :: 0 <= j < k < |ls| ==> ls[j] != ls[k]
    ensures var rest := ls[..n] + ls[n + 1..];
            && (forall m :: m in rest <==> m in ls && m != l)
            && forall j, k :: 0 <= j < k < |rest| ==> rest[j] != rest[k]
  {
    var rest := ls[..n] + ls[n + 1..];
    forall m ensures m in rest <==> m in ls && m != l {
      if m in ls && m != l {
        var i :| 0 <= i < |ls| && ls[i] == m;
        assert m == if i < n then rest[i] else rest[i - 1];
      }
    }
  }

  lemma WithoutExact(ls: seq<nat>, l: nat)
    requires forall j, k :: 0 <= j < k < |ls| ==> ls[j] != ls[k]
    ensures forall m :: m in Without(ls, l) <==> m in ls && m != l
    ensures forall j, k :: 0 <= j < k < |Without(ls, l)| ==> Without(ls, l)[j] != Without(ls, l)[k]
  {
    if n :| 0 <= n < |ls| && ls[n] == l {
      WithoutAt(ls, l, n);
      OneErased(ls, l, n);
    }
  }

  lemma OpenHeard(h: seq<Event>, r: Registry, a: Addr, uid: int32, bundle: string, info: Device)
    requires Consistent(r) && Agrees(Fold(h), r.conns) && Justified(h) && AddrOf(info) == a
    ensures var h' := h + [Connect(info, uid, bundle)];
            Agrees(Fold(h'), r.conns[a := Opened(info, Apps(r.conns, a)[uid := bundle])]) && Justified(h')
  {
    FoldSnoc(h, Connect(info, uid, bundle));
    OpenKeeps(Fold(h), r, a, uid, bundle, info);
  }

  lemma OpenLeavesNoEmpty(r: Registry, a: Addr, uid: int32, bundle: string, info: Device)
    requires Consistent(r) && AddrOf(info) == a
    ensures var conns := r.conns[a := Opened(info, Apps(r.conns, a)[uid := bundle])];
            forall b :: b in conns ==> conns[b].apps != map[] && AddrOf(conns[b].device) == b
  {
    assert uid in Apps(r.conns, a)[uid := bundle];
  }

  lemma OpenStep(r: Registry, op: Op, r': Registry)
    requires Consistent(r) && Stamped(op) && op.Open? && Step(r, op, r')
    ensures Consistent(r')
  {
    if op.ok && op.info.Some? && op.bundle.Some? {
      var info, bundle := op.info.value, op.bundle.value;
      forall l | l in r'.heard ensures Agrees(Fold(r'.heard[l]), r'.conns) && Justified(r'.heard[l]) {
        OpenHeard(r.heard[l], r, op.a, op.uid, bundle, info);
        assert r'.heard[l] == r.heard[l] + [Connect(info, op.uid, bundle)];
      }
      OpenLeavesNoEmpty(r, op.a, op.uid, bundle, info);
      assert r'.heard.Keys == r.heard.Keys;
    }
  }

  lemma CloseLeavesNoEmpty(r: Registry, a: Addr, uid: int32)
    requires Consistent(r) && a in r.conns
    ensures var conns := CloseConns(r.conns, a, uid);
            forall b :: b in conns ==> conns[b].apps != map[] && AddrOf(conns[b].device) == b
  {
  }

  lemma CloseStep(r: Registry, op: Op, r': Registry)
    requires Consistent(r) && op.Close? && Step(r, op, r')
    ensures Consistent(r')
  {
    if op.ok && op.bundle.Some? && op.uid in Apps(r.conns, op.a) {
      var e := Disconnect(r.conns[op.a].device, op.uid, op.bundle.value);
      forall l | l in r.heard ensures Agrees(Fold(r'.heard[l]), r'.conns) && Justified(r'.heard[l]) {
        FoldSnoc(r.heard[l], e);
        CloseKeeps(Fold(r.heard[l]), r, op.a, op.uid, op.bundle.value);
      }
      CloseLeavesNoEmpty(r, op.a, op.uid);
    }
  }

  lemma {:induction false} DetachStep(r: Registry, op: Op, r': Registry)
    requires Consistent(r) && op.Detach? && Step(r, op, r')
    ensures Consistent(r')
  {
    if op.a in r.conns {
      var es :| OnceEach(es, Farewells(r.conns[op.a]))
                && r' == Registry(r.conns - {op.a}, r.listeners, TellAll(r.heard, es));
      forall l | l in r.heard ensures Agrees(Fold(r'.heard[l]), r'.conns) && Justified(r'.heard[l]) {
        DetachKeeps(r.heard[l], r, op.a, es);
      }
    }
  }

  lemma RegisterStep(r: Registry, op: Op, r': Registry)
    requires Consistent(r) && op.Register? && Step(r, op, r')
    ensures Consistent(r')
  {
    if op.linked && op.l !in r.listeners {
      var es :| OnceEach(es, Replay(r.conns))
                && r' == Registry(r.conns, r.listeners + [op.l], r.heard[op.l := es]);
      RegisterKeeps(r, es);
    }
  }

  lemma StepKeeps(r: Registry, op: Op, r': Registry)
    requires Consistent(r) && Stamped(op) && Step(r, op, r')
    ensures Consistent(r')
  {
    match op
    case Open(_, _, _, _, _) => OpenStep(r, op, r');
    case Close(_, _, _, _) => CloseStep(r, op, r');
    case Detach(_) => DetachStep(r, op, r');
    case Register(_, _) => RegisterStep(r, op, r');
    case Unregister(l) => WithoutExact(r.listeners, l);
  }

  /** After any run of requests, what any listener has heard adds up to the registry, and no open device is left
      without an app that holds it open. */
  lemma {:induction false} ListenersAgreeAlways(run: seq<Registry>, ops: seq<Op>)
    requires |run| == |ops| + 1 && run[0] == NOBODY
    requires forall k :: 0 <= k < |ops| ==> Stamped(ops[k]) && Step(run[k], ops[k], run[k + 1])
    ensures Consistent(run[|ops|])
  {
    var n := |ops|;
    if n > 0 {
      ListenersAgreeAlways(run[..n], ops[..n - 1]);
      StepKeeps(run[n - 1], ops[n - 1], run[n]);
    }
  }
}
