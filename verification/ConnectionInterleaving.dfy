/** Registration as it really runs: whether the listener is new, its entry in the list, the snapshot of the open
    connections and the replay of that snapshot are four sections with nothing locked in between, and other requests
    get in between them. So a listener can be listed twice, and be told of a connection that is over. */
module ConnectionInterleaving {
  import opened UsbTypes
  import opened ConnectionRegistry

  /** How far a thread has come with registering `l`; `es` is the snapshot it is about to replay. */
  datatype Stage = Checked(l: nat) | Pushed(l: nat) | Snapped(l: nat, es: seq<Event>)

  /** `heard` is what each listed listener has been told since it was first listed. */
  datatype Machine = Machine(conns: map<Addr, Opened>, listeners: seq<nat>, heard: map<nat, seq<Event>>,
                             inside: map<nat, Stage>)

  const START: Machine := Machine(map[], [], map[], map[])

  /** Requests other than registrations come whole; `es` is the order of a detach's farewells. `Abandon`: the listener
      cannot be watched for death, so it is not listed. */
  datatype Move =
    | Whole(op: Op, es: seq<Event>)
    | Check(thread: nat, l: nat)
    | Abandon(thread: nat)
    | Push(thread: nat)
    | Snapshot(thread: nat, es: seq<Event>)
    | Deliver(thread: nat)

  ghost predicate Possible(m: Machine, v: Move) {
    match v
    case Whole(op, es) =>
      !op.Register? && Stamped(op) && (op.Detach? && op.a in m.conns ==> OnceEach(es, Farewells(m.conns[op.a])))
    case Check(thread, l) => thread !in m.inside && l !in m.listeners
    case Abandon(thread) => thread in m.inside && m.inside[thread].Checked?
    case Push(thread) => thread in m.inside && m.inside[thread].Checked?
    case Snapshot(thread, es) => thread in m.inside && m.inside[thread].Pushed? && OnceEach(es, Replay(m.conns))
    case Deliver(thread) => thread in m.inside && m.inside[thread].Snapped?
  }

  predicate Opens(op: Op) {
    op.Open? && op.ok && op.info.Some? && op.bundle.Some?
  }

  predicate Closes(conns: map<Addr, Opened>, op: Op) {
    op.Close? && op.ok && op.bundle.Some? && op.uid in Apps(conns, op.a)
  }

  function Changed(conns: map<Addr, Opened>, op: Op): map<Addr, Opened> {
    if Opens(op) then conns[op.a := Opened(op.info.value, Apps(conns, op.a)[op.uid := op.bundle.value])]
    else if Closes(conns, op) then CloseConns(conns, op.a, op.uid)
    else if op.Detach? then conns - {op.a}
    else conns
  }

  function News(conns: map<Addr, Opened>, op: Op, es: seq<Event>): seq<Event> {
    if Opens(op) then [Connect(op.info.value, op.uid, op.bundle.value)]
    else if Closes(conns, op) then [Disconnect(conns[op.a].device, op.uid, op.bundle.value)]
    else if op.Detach? && op.a in conns then es
    else []
  }

  function Listings(listeners: seq<nat>, l: nat): nat {
    multiset(listeners)[l]
  }

  function Times(e: Event, n: nat): seq<Event> {
    seq(n, _ => e)
  }

  /** Every event is told `n` times before the next one is. */
  function Repeated(es: seq<Event>, n: nat): seq<Event> {
    if es == [] then [] else Repeated(es[..|es| - 1], n) + Times(es[|es| - 1], n)
  }

  /** A listener is told as often as it is listed. */
  function Tell(heard: map<nat, seq<Event>>, listeners: seq<nat>, es: seq<Event>): map<nat, seq<Event>> {
    map l | l in heard :: heard[l] + Repeated(es, Listings(listeners, l))
  }

  /** A move that is not possible changes nothing. */
  ghost function Next(m: Machine, v: Move): Machine {
    if !Possible(m, v) then m
    else
      match v
      case Whole(op, es) =>
        if op.Unregister? then
          var listeners := Without(m.listeners, op.l);
          m.(listeners := listeners, heard := if op.l in listeners then m.heard else m.heard - {op.l})
        else
          m.(conns := Changed(m.conns, op), heard := Tell(m.heard, m.listeners, News(m.conns, op, es)))
      case Check(thread, l) => m.(inside := m.inside[thread := Checked(l)])
      case Abandon(thread) => m.(inside := m.inside - {thread})
      case Push(thread) =>
        var l := m.inside[thread].l;
        m.(listeners := m.listeners + [l], heard := if l in m.heard then m.heard else m.heard[l := []],
           inside := m.inside[thread := Pushed(l)])
      case Snapshot(thread, es) => m.(inside := m.inside[thread := Snapped(m.inside[thread].l, es)])
      case Deliver(thread) =>
        var stage := m.inside[thread];
        m.(heard := if stage.l in m.heard then m.heard[stage.l := m.heard[stage.l] + stage.es] else m.heard,
           inside := m.inside - {thread})
  }

  ghost function Moves(vs: seq<Move>): Machine {
    if vs == [] then START else Next(Moves(vs[..|vs| - 1]), vs[|vs| - 1])
  }

  // ---- The view and the registry, one connection at a time -------------------------------------------------

  type Subject = (Addr, int32)

  function Look(v: View, s: Subject): Option<string> {
    if s in v then Some(v[s]) else None
  }

  function Now(conns: map<Addr, Opened>, s: Subject): Option<string> {
    if s.1 in Apps(conns, s.0) then Some(conns[s.0].apps[s.1]) else None
  }

  lemma AgreesIffSame(v: View, conns: map<Addr, Opened>)
    ensures Agrees(v, conns) <==> forall s :: Look(v, s) == Now(conns, s)
  {
    if Agrees(v, conns) {
      forall s ensures Look(v, s) == Now(conns, s) {
        assert s == (s.0, s.1);
      }
    }
    if forall s :: Look(v, s) == Now(conns, s) {
      forall a, u ensures (a, u) in v <==> u in Apps(conns, a) { assert Look(v, (a, u)) == Now(conns, (a, u)); }
      forall a, u | (a, u) in v ensures v[(a, u)] == conns[a].apps[u] { assert Look(v, (a, u)) == Now(conns, (a, u)); }
    }
  }

  /** The request is about this connection, and succeeds. */
  predicate Speaks(conns: map<Addr, Opened>, op: Op, s: Subject) {
    if Opens(op) || Closes(conns, op) then s == (op.a, op.uid)
    else op.Detach? && s.0 == op.a && s.1 in Apps(conns, op.a)
  }

  // ---- What telling does to a view -------------------------------------------------------------------------

  lemma {:induction false} FoldTimes(h: seq<Event>, e: Event, n: nat)
    requires n > 0
    ensures Fold(h + Times(e, n)) == Hear(Fold(h), e)
  {
    if n == 1 {
      assert h + Times(e, n) == h + [e];
      FoldSnoc(h, e);
    } else {
      FoldTimes(h, e, n - 1);
      assert h + Times(e, n) == h + Times(e, n - 1) + [e];
      FoldSnoc(h + Times(e, n - 1), e);
    }
  }

  /** Being told everything several times is no different from being told it once. */
  lemma {:induction false} FoldRepeated(h: seq<Event>, es: seq<Event>, n: nat)
    requires n > 0
    ensures Fold(h + Repeated(es, n)) == Fold(h + es)
  {
    if es == [] {
      assert h + Repeated(es, n) == h + es;
    } else {
      var front, e := es[..|es| - 1], es[|es| - 1];
      FoldRepeated(h, front, n);
      assert h + Repeated(es, n) == h + Repeated(front, n) + Times(e, n);
      FoldTimes(h + Repeated(front, n), e, n);
      assert h + es == h + front + [e];
      FoldSnoc(h + front, e);
    }
  }

  predicate AllConnect(es: seq<Event>) {
    forall k :: 0 <= k < |es| ==> es[k].Connect?
  }

  lemma HearOver(v: View, w: View, e: Event)
    requires e.Connect?
    ensures Hear(v + w, e) == v + Hear(w, e)
  {
  }

  lemma {:induction false} FoldConnects(h: seq<Event>, es: seq<Event>)
    requires AllConnect(es)
    ensures Fold(h + es) == Fold(h) + Fold(es)
  {
    if es == [] {
      assert h + es == h;
    } else {
      var front, e := es[..|es| - 1], es[|es| - 1];
      FoldConnects(h, front);
      assert h + es == h + front + [e];
      FoldSnoc(h + front, e);
      HearOver(Fold(h), Fold(front), e);
    }
  }

  lemma {:induction false} FoldDisconnects(h: seq<Event>, es: seq<Event>)
    requires forall k :: 0 <= k < |es| ==> es[k].Disconnect?
    ensures Minus(Fold(h), es, Fold(h + es))
  {
    if es == [] {
      assert h + es == h;
    } else {
      var front, e := es[..|es| - 1], es[|es| - 1];
      FoldDisconnects(h, front);
      assert h + es == h + front + [e] && es == front + [e];
      FoldSnoc(h + front, e);
      MinusSnoc(Fold(h), front, e, Fold(h + front));
    }
  }

  /** Whatever a listener believed, after the news of a request it is right about the connections that the request is
      about, and nothing changes about the others, in its view or in the registry. */
  lemma NewsExact(h: seq<Event>, conns: map<Addr, Opened>, op: Op, es: seq<Event>, s: Subject)
    requires WellKept(conns) && !op.Register? && Stamped(op)
    requires op.Detach? && op.a in conns ==> OnceEach(es, Farewells(conns[op.a]))
    ensures var v := Fold(h + News(conns, op, es));
            if Speaks(conns, op, s) then Look(v, s) == Now(Changed(conns, op), s)
            else Look(v, s) == Look(Fold(h), s) && Now(Changed(conns, op), s) == Now(conns, s)
  {
    var news := News(conns, op, es);
    if Opens(op) || Closes(conns, op) {
      FoldSnoc(h, news[0]);
    } else if op.Detach? && op.a in conns {
      forall k | 0 <= k < |es| ensures es[k].Disconnect? { assert es[k] in es; }
      FoldDisconnects(h, es);
      FarewellNames(es, conns[op.a]);
      assert Names(es, s) <==> Speaks(conns, op, s);
    } else {
      assert h + news == h;
    }
  }

  // ---- What holds in every state ---------------------------------------------------------------------------

  ghost predicate WellKept(conns: map<Addr, Opened>) {
    Consistent(Registry(conns, [], map[]))
  }

  lemma ChangedWellKept(conns: map<Addr, Opened>, op: Op, es: seq<Event>)
    requires WellKept(conns) && !op.Register? && Stamped(op)
    requires op.Detach? && op.a in conns ==> OnceEach(es, Farewells(conns[op.a]))
    ensures WellKept(Changed(conns, op))
  {
    var r, r' := Registry(conns, [], map[]), Registry(Changed(conns, op), [], map[]);
    assert TellAll(map[], News(conns, op, es)) == map[];
    if op.Detach? && op.a !in conns {
      assert Changed(conns, op) == conns;
    }
    assert Step(r, op, r');
    StepKeeps(r, op, r');
  }

  /** The listener does not know of an open connection. */
  predicate Missing(m: Machine, l: nat, s: Subject) {
    l in m.heard && Look(Fold(m.heard[l]), s).None? && Now(m.conns, s).Some?
  }

  /** The listener believes of a connection what is not so. */
  predicate Stale(m: Machine, l: nat, s: Subject) {
    l in m.heard && Look(Fold(m.heard[l]), s).Some? && Look(Fold(m.heard[l]), s) != Now(m.conns, s)
  }

  predicate Registering(m: Machine, thread: nat, l: nat) {
    thread in m.inside && !m.inside[thread].Checked? && m.inside[thread].l == l
  }

  /** The thread has yet to tell `l` of the connection, as it is. */
  predicate OnTheWay(m: Machine, thread: nat, l: nat, s: Subject) {
    Registering(m, thread, l)
    && (m.inside[thread].Snapped? ==> Look(Fold(m.inside[thread].es), s) == Now(m.conns, s))
  }

  ghost predicate Comes(m: Machine, l: nat, s: Subject) {
    exists thread :: OnTheWay(m, thread, l, s)
  }

  ghost predicate Sound(m: Machine) {
    && WellKept(m.conns)
    && (forall l :: l in m.listeners <==> l in m.heard)
    && (forall thread :: thread in m.inside && m.inside[thread].Snapped? ==> AllConnect(m.inside[thread].es))
    && (forall l, s :: Missing(m, l, s) ==> Comes(m, l, s))
  }

  lemma {:induction false} WithoutOthers(ls: seq<nat>, l: nat)
    ensures forall m :: m != l ==> (m in Without(ls, l) <==> m in ls)
    ensures l in Without(ls, l) ==> l in ls
  {
    if ls != [] && ls[0] != l {
      WithoutOthers(ls[1..], l);
    }
  }

  lemma WholeView(m: Machine, op: Op, es: seq<Event>, l: nat)
    requires Sound(m) && Possible(m, Whole(op, es)) && !op.Unregister? && l in m.heard
    ensures var m' := Next(m, Whole(op, es));
            l in m'.heard && Fold(m'.heard[l]) == Fold(m.heard[l] + News(m.conns, op, es))
  {
    assert Listings(m.listeners, l) > 0;
    FoldRepeated(m.heard[l], News(m.conns, op, es), Listings(m.listeners, l));
  }

  lemma WholeExact(m: Machine, op: Op, es: seq<Event>, l: nat, s: Subject)
    requires Sound(m) && Possible(m, Whole(op, es)) && !op.Unregister? && l in m.heard
    ensures var m' := Next(m, Whole(op, es));
            l in m'.heard
            && var v, v' := Fold(m.heard[l]), Fold(m'.heard[l]);
               if Speaks(m.conns, op, s) then Look(v', s) == Now(m'.conns, s)
               else Look(v', s) == Look(v, s) && Now(m'.conns, s) == Now(m.conns, s)
  {
    WholeView(m, op, es, l);
    NewsExact(m.heard[l], m.conns, op, es, s);
  }

  lemma DeliverExact(m: Machine, thread: nat, s: Subject)
    requires Sound(m) && Possible(m, Deliver(thread)) && m.inside[thread].l in m.heard
    ensures var m', l, told := Next(m, Deliver(thread)), m.inside[thread].l, Fold(m.inside[thread].es);
            l in m'.heard
            && Look(Fold(m'.heard[l]), s) == if s in told then Look(told, s) else Look(Fold(m.heard[l]), s)
  {
    FoldConnects(m.heard[m.inside[thread].l], m.inside[thread].es);
  }

  // ---- Nothing goes missing --------------------------------------------------------------------------------

  lemma SnapshotShows(conns: map<Addr, Opened>, es: seq<Event>)
    requires WellKept(conns) && OnceEach(es, Replay(conns))
    ensures AllConnect(es) && forall s :: Look(Fold(es), s) == Now(conns, s)
  {
    RegisterKeeps(Registry(conns, [], map[]), es);
    AgreesIffSame(Fold(es), conns);
    forall k | 0 <= k < |es| ensures es[k].Connect? { assert es[k] in es; }
  }

  lemma WholeSound(m: Machine, op: Op, es: seq<Event>)
    requires Sound(m) && Possible(m, Whole(op, es))
    ensures Sound(Next(m, Whole(op, es)))
  {
    var m' := Next(m, Whole(op, es));
    if op.Unregister? {
      WithoutOthers(m.listeners, op.l);
      forall l, s | Missing(m', l, s) ensures Comes(m', l, s) {
        assert Missing(m, l, s);
        var thread :| OnTheWay(m, thread, l, s);
        assert OnTheWay(m', thread, l, s);
      }
    } else {
      ChangedWellKept(m.conns, op, es);
      forall l, s | Missing(m', l, s) ensures Comes(m', l, s) {
        WholeExact(m, op, es, l, s);
        assert Missing(m, l, s);
        var thread :| OnTheWay(m, thread, l, s);
        assert OnTheWay(m', thread, l, s);
      }
    }
  }

  lemma PushSound(m: Machine, thread: nat)
    requires Sound(m) && Possible(m, Push(thread))
    ensures Sound(Next(m, Push(thread)))
  {
    var m' := Next(m, Push(thread));
    forall l, s | Missing(m', l, s) ensures Comes(m', l, s) {
      if l == m.inside[thread].l {
        assert OnTheWay(m', thread, l, s);
      } else {
        assert Missing(m, l, s);
        var other :| OnTheWay(m, other, l, s);
        assert OnTheWay(m', other, l, s);
      }
    }
  }

  lemma SnapshotSound(m: Machine, thread: nat, es: seq<Event>)
    requires Sound(m) && Possible(m, Snapshot(thread, es))
    ensures Sound(Next(m, Snapshot(thread, es)))
  {
    var m' := Next(m, Snapshot(thread, es));
    SnapshotShows(m.conns, es);
    forall l, s | Missing(m', l, s) ensures Comes(m', l, s) {
      assert Missing(m, l, s);
      var other :| OnTheWay(m, other, l, s);
      assert OnTheWay(m', other, l, s);
    }
  }

  lemma DeliverSound(m: Machine, thread: nat)
    requires Sound(m) && Possible(m, Deliver(thread))
    ensures Sound(Next(m, Deliver(thread)))
  {
    var m' := Next(m, Deliver(thread));
    forall l, s | Missing(m', l, s) ensures Comes(m', l, s) {
      if l == m.inside[thread].l {
        DeliverExact(m, thread, s);
      }
      assert Missing(m, l, s);
      var other :| OnTheWay(m, other, l, s);
      assert OnTheWay(m', other, l, s);
    }
  }

  lemma IdleSound(m: Machine, v: Move)
    requires Sound(m) && Possible(m, v) && (v.Check? || v.Abandon?)
    ensures Sound(Next(m, v))
  {
    var m' := Next(m, v);
    forall l, s | Missing(m', l, s) ensures Comes(m', l, s) {
      assert Missing(m, l, s);
      var other :| OnTheWay(m, other, l, s);
      assert OnTheWay(m', other, l, s);
    }
  }

  /** In every state of every run: an open connection that a listed listener does not know of is in the hands of a
      thread that is still registering that listener. */
  lemma {:induction false} SoundAlways(vs: seq<Move>)
    ensures Sound(Moves(vs))
  {
    if vs != [] {
      SoundAlways(vs[..|vs| - 1]);
      SoundKept(Moves(vs[..|vs| - 1]), vs[|vs| - 1]);
    }
  }

  lemma SoundKept(m: Machine, v: Move)
    requires Sound(m)
    ensures Sound(Next(m, v))
  {
    if Possible(m, v) {
      match v
      case Whole(op, es) => WholeSound(m, op, es);
      case Push(thread) => PushSound(m, thread);
      case Snapshot(thread, es) => SnapshotSound(m, thread, es);
      case Deliver(thread) => DeliverSound(m, thread);
      case _ => IdleSound(m, v);
    }
  }

  // ---- What can be stale -----------------------------------------------------------------------------------

  /** The replay tells `l` of a connection that has ended, or changed, since the snapshot. */
  predicate Outdated(m: Machine, v: Move, l: nat, s: Subject) {
    && v.Deliver? && Registering(m, v.thread, l) && m.inside[v.thread].Snapped? && l in m.heard
    && var told := Look(Fold(m.inside[v.thread].es), s); told.Some? && told != Now(m.conns, s)
  }

  /** The move tells `l` of the connection, or takes `l` off the list. */
  ghost predicate Settles(m: Machine, v: Move, l: nat, s: Subject) {
    Possible(m, v)
    && match v
       case Whole(op, _) =>
         if op.Unregister? then op.l == l && l !in Without(m.listeners, l) else Speaks(m.conns, op, s)
       case Deliver(thread) => m.inside[thread].l == l && s in Fold(m.inside[thread].es)
       case _ => false
  }

  lemma StaleAfterWhole(m: Machine, op: Op, es: seq<Event>, l: nat, s: Subject)
    requires Sound(m) && Possible(m, Whole(op, es))
    ensures Stale(Next(m, Whole(op, es)), l, s) <==> Stale(m, l, s) && !Settles(m, Whole(op, es), l, s)
  {
    if op.Unregister? {
      WithoutOthers(m.listeners, op.l);
    } else if l in m.heard {
      WholeExact(m, op, es, l, s);
    }
  }

  lemma StaleAfterDelivery(m: Machine, thread: nat, l: nat, s: Subject)
    requires Sound(m) && Possible(m, Deliver(thread))
    ensures var v := Deliver(thread);
            Stale(Next(m, v), l, s) <==> Outdated(m, v, l, s) || (Stale(m, l, s) && !Settles(m, v, l, s))
  {
    if l == m.inside[thread].l && l in m.heard {
      DeliverExact(m, thread, s);
    }
  }

  lemma StaleStep(m: Machine, v: Move, l: nat, s: Subject)
    requires Sound(m)
    ensures Stale(Next(m, v), l, s) <==> Outdated(m, v, l, s) || (Stale(m, l, s) && !Settles(m, v, l, s))
  {
    if Possible(m, v) {
      match v
      case Whole(op, es) => StaleAfterWhole(m, op, es, l, s);
      case Deliver(thread) => StaleAfterDelivery(m, thread, l, s);
      case _ =>
    }
  }

  /** Move `k` was such a replay, and nothing has been told of the connection since. */
  ghost predicate StaleSince(vs: seq<Move>, k: nat, l: nat, s: Subject)
    requires k < |vs|
  {
    && Outdated(Moves(vs[..k]), vs[k], l, s)
    && forall j :: k < j < |vs| ==> !Settles(Moves(vs[..j]), vs[j], l, s)
  }

  ghost predicate LeftStale(vs: seq<Move>, l: nat, s: Subject) {
    exists k :: 0 <= k < |vs| && StaleSince(vs, k, l, s)
  }

  lemma SinceSnoc(front: seq<Move>, v: Move, k: nat, l: nat, s: Subject)
    requires k < |front|
    ensures StaleSince(front + [v], k, l, s) <==> StaleSince(front, k, l, s) && !Settles(Moves(front), v, l, s)
  {
    var vs := front + [v];
    forall j | 0 <= j < |front| ensures vs[..j] == front[..j] && vs[j] == front[j] {}
    assert vs[..|front|] == front && vs[|front|] == v;
    if StaleSince(vs, k, l, s) {
      forall j | k < j < |front| ensures !Settles(Moves(front[..j]), front[j], l, s) {
        assert !Settles(Moves(vs[..j]), vs[j], l, s);
      }
    }
  }

  lemma LeftSnoc(front: seq<Move>, v: Move, l: nat, s: Subject)
    ensures var m := Moves(front);
            LeftStale(front + [v], l, s)
            <==> Outdated(m, v, l, s) || (LeftStale(front, l, s) && !Settles(m, v, l, s))
  {
    var vs, n, m := front + [v], |front|, Moves(front);
    assert vs[..n] == front;
    assert StaleSince(vs, n, l, s) <==> Outdated(m, v, l, s);
    if LeftStale(vs, l, s) {
      var k :| 0 <= k < |vs| && StaleSince(vs, k, l, s);
      if k < n {
        SinceSnoc(front, v, k, l, s);
      }
    }
    if LeftStale(front, l, s) && !Settles(m, v, l, s) {
      var k :| 0 <= k < n && StaleSince(front, k, l, s);
      SinceSnoc(front, v, k, l, s);
    }
  }

  /** Over every run: a listener believes what is not so exactly if a replay told it of a connection that had ended or
      changed since the snapshot, and it has been told nothing of that connection since. */
  lemma {:induction false} StaleIff(vs: seq<Move>, l: nat, s: Subject)
    ensures Stale(Moves(vs), l, s) <==> LeftStale(vs, l, s)
  {
    if vs != [] {
      var front, v := vs[..|vs| - 1], vs[|vs| - 1];
      assert vs == front + [v];
      StaleIff(front, l, s);
      SoundAlways(front);
      StaleStep(Moves(front), v, l, s);
      LeftSnoc(front, v, l, s);
    }
  }

  /** A listener whose registrations are all over agrees with the registry exactly if no replay has left it stale. */
  lemma AgreeIff(vs: seq<Move>, l: nat)
    requires l in Moves(vs).heard && forall thread :: !Registering(Moves(vs), thread, l)
    ensures Agrees(Fold(Moves(vs).heard[l]), Moves(vs).conns) <==> forall s :: !LeftStale(vs, l, s)
  {
    var m := Moves(vs);
    SoundAlways(vs);
    AgreesIffSame(Fold(m.heard[l]), m.conns);
    forall s ensures Look(Fold(m.heard[l]), s) == Now(m.conns, s) <==> !LeftStale(vs, l, s) {
      StaleIff(vs, l, s);
      assert Missing(m, l, s) ==> Comes(m, l, s);
    }
  }

  ghost predicate Mine(m: Machine, thread: nat, l: nat, es: seq<Event>) {
    && l in m.heard && thread in m.inside && m.inside[thread] == Snapped(l, es)
    && forall other :: Registering(m, other, l) ==> other == thread
  }

  /** The thread is about to replay `es` to `l`, which nothing has left stale and no other thread is registering. */
  ghost predicate Alone(vs: seq<Move>, thread: nat, l: nat, es: seq<Event>) {
    && Mine(Moves(vs), thread, l, es)
    && forall s :: !LeftStale(vs, l, s)
  }

  lemma Delivered(m: Machine, thread: nat, l: nat, es: seq<Event>)
    requires Mine(m, thread, l, es)
    ensures var m' := Next(m, Deliver(thread));
            l in m'.heard && m'.conns == m.conns && forall other :: !Registering(m', other, l)
  {
    var m' := Next(m, Deliver(thread));
    forall other ensures !Registering(m', other, l) {
      assert Registering(m', other, l) ==> Registering(m, other, l);
    }
  }

  lemma AloneIff(vs: seq<Move>, thread: nat, l: nat, es: seq<Event>)
    requires Alone(vs, thread, l, es)
    ensures var after := Moves(vs + [Deliver(thread)]);
            && l in after.heard && after.conns == Moves(vs).conns
            && (Agrees(Fold(after.heard[l]), after.conns)
                <==> forall s :: !Outdated(Moves(vs), Deliver(thread), l, s))
  {
    MovesSnoc(vs, Deliver(thread));
    forall s ensures LeftStale(vs + [Deliver(thread)], l, s) <==> Outdated(Moves(vs), Deliver(thread), l, s) {
      LeftSnoc(vs, Deliver(thread), l, s);
    }
    Delivered(Moves(vs), thread, l, es);
    AgreeIff(vs + [Deliver(thread)], l);
  }

  /** A listener that no other registration has touched agrees with the registry after its replay exactly if every
      connection that was open at the snapshot is still open, with the same bundle, at the replay. */
  lemma ReplayInTimeIff(front: seq<Move>, thread: nat, l: nat, es: seq<Event>, mid: seq<Move>)
    requires Possible(Moves(front), Snapshot(thread, es)) && Moves(front).inside[thread].l == l
    requires Alone(front + [Snapshot(thread, es)] + mid, thread, l, es)
    ensures var conns := Moves(front).conns;
            var after := Moves(front + [Snapshot(thread, es)] + mid + [Deliver(thread)]);
            && l in after.heard
            && (Agrees(Fold(after.heard[l]), after.conns) <==> StillOpen(conns, after.conns))
  {
    var vs := front + [Snapshot(thread, es)] + mid;
    SoundAlways(front);
    SnapshotShows(Moves(front).conns, es);
    AloneIff(vs, thread, l, es);
    forall s ensures Outdated(Moves(vs), Deliver(thread), l, s) <==> !Kept(Moves(front).conns, Moves(vs).conns, s) {
      assert Look(Fold(es), s) == Now(Moves(front).conns, s);
    }
  }

  predicate Kept(before: map<Addr, Opened>, after: map<Addr, Opened>, s: Subject) {
    Now(before, s).Some? ==> Now(after, s) == Now(before, s)
  }

  ghost predicate StillOpen(before: map<Addr, Opened>, after: map<Addr, Opened>) {
    forall s :: Kept(before, after, s)
  }

  lemma MovesSnoc(vs: seq<Move>, v: Move)
    ensures Moves(vs + [v]) == Next(Moves(vs), v)
  {
    assert (vs + [v])[..|vs|] == vs;
  }

  // ---- Whole requests --------------------------------------------------------------------------------------

  function RegistryOf(m: Machine): Registry {
    Registry(m.conns, m.listeners, m.heard)
  }

  ghost predicate Distinct(listeners: seq<nat>) {
    forall j, k :: 0 <= j < k < |listeners| ==> listeners[j] != listeners[k]
  }

  lemma {:induction false} DistinctListings(listeners: seq<nat>, l: nat)
    requires Distinct(listeners)
    ensures Listings(listeners, l) == if l in listeners then 1 else 0
  {
    if listeners != [] {
      var front, last := listeners[..|listeners| - 1], listeners[|listeners| - 1];
      assert listeners == front + [last];
      DistinctListings(front, l);
    }
  }

  lemma {:induction false} RepeatedOnce(es: seq<Event>)
    ensures Repeated(es, 1) == es
  {
    if es != [] {
      RepeatedOnce(es[..|es| - 1]);
    }
  }

  lemma ToldOnce(m: Machine, news: seq<Event>)
    requires Sound(m) && Distinct(m.listeners)
    ensures Tell(m.heard, m.listeners, news) == TellAll(m.heard, news)
    ensures TellAll(m.heard, []) == m.heard
  {
    RepeatedOnce(news);
    forall l | l in m.heard ensures Listings(m.listeners, l) == 1 && m.heard[l] + [] == m.heard[l] {
      DistinctListings(m.listeners, l);
    }
  }

  /** While no listener is listed twice, a request that comes whole is the registry's step. */
  lemma WholeIsStep(m: Machine, op: Op, es: seq<Event>)
    requires Sound(m) && Distinct(m.listeners) && Possible(m, Whole(op, es))
    ensures Step(RegistryOf(m), op, RegistryOf(Next(m, Whole(op, es))))
  {
    ToldOnce(m, News(m.conns, op, es));
    if op.Unregister? {
      WithoutExact(m.listeners, op.l);
    }
    assert op.Detach? && op.a !in m.conns ==> m.conns - {op.a} == m.conns;
  }

  lemma ReadyToReplay(m: Machine, thread: nat, l: nat, es: seq<Event>)
    requires Sound(m) && thread !in m.inside && l !in m.listeners && OnceEach(es, Replay(m.conns))
    ensures Next(Next(Next(m, Check(thread, l)), Push(thread)), Snapshot(thread, es))
            == Machine(m.conns, m.listeners + [l], m.heard[l := []], m.inside[thread := Snapped(l, es)])
  {
    var checked := Next(m, Check(thread, l));
    var pushed := Next(checked, Push(thread));
    assert pushed == Machine(m.conns, m.listeners + [l], m.heard[l := []], m.inside[thread := Pushed(l)]);
  }

  /** A registration with nothing in between is the registry's step. */
  lemma UndisturbedIsStep(m: Machine, thread: nat, l: nat, es: seq<Event>)
    requires Sound(m) && thread !in m.inside && l !in m.listeners && OnceEach(es, Replay(m.conns))
    ensures var m' := Next(Next(Next(Next(m, Check(thread, l)), Push(thread)), Snapshot(thread, es)), Deliver(thread));
            Step(RegistryOf(m), Register(l, true), RegistryOf(m')) && m'.inside == m.inside
  {
    ReadyToReplay(m, thread, l, es);
    var ready := Machine(m.conns, m.listeners + [l], m.heard[l := []], m.inside[thread := Snapped(l, es)]);
    var m' := Next(ready, Deliver(thread));
    assert [] + es == es;
    assert m'.heard == m.heard[l := es];
    assert m'.inside == m.inside;
  }

  ghost predicate DistinctAfter(vs: seq<Move>, n: nat)
    requires n <= |vs|
  {
    Distinct(Moves(vs[..n]).listeners)
  }

  ghost predicate AddsNewAt(vs: seq<Move>, n: nat)
    requires n < |vs|
  {
    AddsNew(Moves(vs[..n]), vs[n])
  }

  /** No listener is ever listed twice exactly if none is listed already when its entry is added. */
  lemma {:induction false} DistinctIff(vs: seq<Move>, n: nat)
    requires n <= |vs|
    ensures (forall k :: 0 <= k <= n ==> DistinctAfter(vs, k)) <==> forall k :: 0 <= k < n ==> AddsNewAt(vs, k)
  {
    if n > 0 {
      DistinctIff(vs, n - 1);
      assert vs[..n][..n - 1] == vs[..n - 1];
      if DistinctAfter(vs, n - 1) {
        DistinctStep(Moves(vs[..n - 1]), vs[n - 1]);
        assert DistinctAfter(vs, n) <==> AddsNewAt(vs, n - 1);
      }
    }
  }

  ghost predicate AddsNew(m: Machine, v: Move) {
    v.Push? && Possible(m, v) ==> m.inside[v.thread].l !in m.listeners
  }

  lemma DistinctStep(m: Machine, v: Move)
    requires Distinct(m.listeners)
    ensures Distinct(Next(m, v).listeners) <==> AddsNew(m, v)
  {
    if Possible(m, v) {
      if v.Whole? && v.op.Unregister? {
        WithoutExact(m.listeners, v.op.l);
      } else if v.Push? {
        var l := m.inside[v.thread].l;
        if k :| 0 <= k < |m.listeners| && m.listeners[k] == l {
          assert (m.listeners + [l])[k] == (m.listeners + [l])[|m.listeners|];
        }
      }
    }
  }

  // ---- What goes wrong -------------------------------------------------------------------------------------

  function Single(d: Device, uid: int32, bundle: string): map<Addr, Opened> {
    map[AddrOf(d) := Opened(d, map[uid := bundle])]
  }

  lemma OneOpen(d: Device, uid: int32, bundle: string)
    ensures Next(START, Whole(Open(AddrOf(d), uid, Some(bundle), Some(d), true), []))
            == Machine(Single(d, uid, bundle), [], map[], map[])
  {
    assert map[][uid := bundle] == map[uid := bundle];
    assert map[][AddrOf(d) := Opened(d, map[uid := bundle])] == Single(d, uid, bundle);
    assert Tell(map[], [], [Connect(d, uid, bundle)]) == map[];
  }

  lemma OneReplayed(d: Device, uid: int32, bundle: string)
    ensures OnceEach([Connect(d, uid, bundle)], Replay(Single(d, uid, bundle)))
  {
    var conns := Single(d, uid, bundle);
    assert AddrOf(d) in conns && uid in conns[AddrOf(d)].apps;
    assert Connect(d, uid, bundle) in Replay(conns);
  }

  lemma LastClosed(d: Device, uid: int32, bundle: string, m: Machine, l: nat)
    requires m.conns == Single(d, uid, bundle) && m.listeners == [l] && m.heard == map[l := []]
    ensures Next(m, Whole(Close(AddrOf(d), uid, Some(bundle), true), []))
            == m.(conns := map[], heard := map[l := [Disconnect(d, uid, bundle)]])
  {
    var news := [Disconnect(d, uid, bundle)];
    RepeatedOnce(news);
    assert map[uid := bundle] - {uid} == map[];
    assert m.conns - {AddrOf(d)} == map[];
    assert Tell(m.heard, [l], news) == map[l := news];
  }

  /** An open connection, and a thread that has taken its snapshot. */
  lemma SnapshotTaken(l: nat, d: Device, uid: int32, bundle: string) returns (vs: seq<Move>)
    ensures vs == [Whole(Open(AddrOf(d), uid, Some(bundle), Some(d), true), [])] + [Check(1, l)] + [Push(1)]
                  + [Snapshot(1, [Connect(d, uid, bundle)])]
    ensures Moves(vs)
            == Machine(Single(d, uid, bundle), [l], map[l := []], map[1 := Snapped(l, [Connect(d, uid, bundle)])])
  {
    var conns, e := Single(d, uid, bundle), Connect(d, uid, bundle);
    OneOpen(d, uid, bundle);
    OneReplayed(d, uid, bundle);
    vs := Go([], Whole(Open(AddrOf(d), uid, Some(bundle), Some(d), true), []), Machine(conns, [], map[], map[]));
    vs := Go(vs, Check(1, l), Machine(conns, [], map[], map[1 := Checked(l)]));
    vs := Go(vs, Push(1), Machine(conns, [l], map[l := []], map[1 := Pushed(l)]));
    vs := Go(vs, Snapshot(1, [e]), Machine(conns, [l], map[l := []], map[1 := Snapped(l, [e])]));
  }

  /** The last app closes between the snapshot and its replay: the listener is left with a connection that is over. */
  lemma StaleReplay(l: nat, d: Device, uid: int32, bundle: string) returns (vs: seq<Move>)
    ensures vs == [Whole(Open(AddrOf(d), uid, Some(bundle), Some(d), true), [])] + [Check(1, l)] + [Push(1)]
                  + [Snapshot(1, [Connect(d, uid, bundle)])] + [Whole(Close(AddrOf(d), uid, Some(bundle), true), [])]
                  + [Deliver(1)]
    ensures var m := Moves(vs);
            && m.conns == map[] && m.listeners == [l] && l in m.heard
            && Fold(m.heard[l]) == map[(AddrOf(d), uid) := bundle]
  {
    var e, gone := Connect(d, uid, bundle), Disconnect(d, uid, bundle);
    vs := SnapshotTaken(l, d, uid, bundle);
    LastClosed(d, uid, bundle, Moves(vs), l);
    vs := Go(vs, Whole(Close(AddrOf(d), uid, Some(bundle), true), []),
             Machine(map[], [l], map[l := [gone]], map[1 := Snapped(l, [e])]));
    DeliveredLate(l, gone, e);
    vs := Go(vs, Deliver(1), Machine(map[], [l], map[l := [gone] + [e]], map[]));
  }

  lemma DeliveredLate(l: nat, gone: Event, e: Event)
    requires gone.Disconnect? && e.Connect?
    ensures Next(Machine(map[], [l], map[l := [gone]], map[1 := Snapped(l, [e])]), Deliver(1))
            == Machine(map[], [l], map[l := [gone] + [e]], map[])
    ensures Fold([gone] + [e]) == map[(AddrOf(e.device), e.uid) := e.bundle]
  {
    FoldSnoc([], gone);
    FoldSnoc([gone], e);
    assert [] + [gone] == [gone];
  }

  lemma Go(vs: seq<Move>, v: Move, m: Machine) returns (vs': seq<Move>)
    requires Next(Moves(vs), v) == m
    ensures vs' == vs + [v] && Moves(vs') == m
  {
    MovesSnoc(vs, v);
    vs' := vs + [v];
  }

  /** Two threads register one listener: it is listed twice, and is still listed after it has unregistered. */
  lemma ListedTwice(l: nat) returns (vs: seq<Move>)
    ensures vs == [Check(1, l)] + [Check(2, l)] + [Push(1)] + [Push(2)] + [Whole(Unregister(l), [])]
    ensures Moves(vs[..4]).listeners == [l, l] && Moves(vs).listeners == [l]
  {
    vs := Go([], Check(1, l), Machine(map[], [], map[], map[1 := Checked(l)]));
    vs := Go(vs, Check(2, l), Machine(map[], [], map[], map[1 := Checked(l), 2 := Checked(l)]));
    vs := Go(vs, Push(1), Machine(map[], [l], map[l := []], map[1 := Pushed(l), 2 := Checked(l)]));
    vs := Go(vs, Push(2), Machine(map[], [l, l], map[l := []], map[1 := Pushed(l), 2 := Pushed(l)]));
    var before := vs;
    vs := Go(vs, Whole(Unregister(l), []), Machine(map[], [l], map[l := []], map[1 := Pushed(l), 2 := Pushed(l)]));
    assert vs[..4] == before;
  }
}
