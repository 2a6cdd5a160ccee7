/** The open connections as facts about the history of requests, and what exactly is told when a device leaves. */
module ConnectionHistory {
  import opened UsbTypes
  import opened ConnectionRegistry

  ghost predicate IsRun(run: seq<Registry>, ops: seq<Op>) {
    && |run| == |ops| + 1 && run[0] == NOBODY
    && forall k :: 0 <= k < |ops| ==> Stamped(ops[k]) && Step(run[k], ops[k], run[k + 1])
  }

  lemma Shorter(run: seq<Registry>, ops: seq<Op>)
    requires IsRun(run, ops) && ops != []
    ensures IsRun(run[..|ops|], ops[..|ops| - 1]) && run[..|ops|][|ops| - 1] == run[|ops| - 1]
    ensures Stamped(ops[|ops| - 1]) && Step(run[|ops| - 1], ops[|ops| - 1], run[|ops|])
  {
    var n := |ops|;
    forall k | 0 <= k < n - 1 ensures Stamped(ops[k]) && Step(run[..n][k], ops[k], run[..n][k + 1]) {
      assert Stamped(ops[k]) && Step(run[k], ops[k], run[k + 1]);
    }
  }

  // ---- Who holds what open --------------------------------------------------------------------------------

  /** The app opens the device under this bundle name, and the HAL agrees. */
  predicate OpensAs(op: Op, a: Addr, uid: int32, bundle: string) {
    op.Open? && op.a == a && op.uid == uid && op.ok && op.info.Some? && op.bundle == Some(bundle)
  }

  predicate OpensAgain(op: Op, a: Addr, uid: int32) {
    op.Open? && op.bundle.Some? && OpensAs(op, a, uid, op.bundle.value)
  }

  /** The app closes it, or the device leaves. */
  predicate Ends(op: Op, a: Addr, uid: int32) {
    (op.Close? && op.a == a && op.uid == uid && op.ok && op.bundle.Some?) || op == Detach(a)
  }

  predicate Holds(conns: map<Addr, Opened>, a: Addr, uid: int32, bundle: string) {
    a in conns && uid in conns[a].apps && conns[a].apps[uid] == bundle
  }

  lemma HoldsStep(r: Registry, op: Op, r': Registry, a: Addr, uid: int32, bundle: string)
    requires Step(r, op, r')
    ensures Holds(r'.conns, a, uid, bundle) <==>
            OpensAs(op, a, uid, bundle)
            || (Holds(r.conns, a, uid, bundle) && !OpensAgain(op, a, uid) && !Ends(op, a, uid))
  {
    if op.Close? && op.a == a && uid != op.uid && uid in Apps(r.conns, a) {
      assert uid in Apps(r.conns, a) - {op.uid};
    }
  }

  ghost predicate OpenedAt(ops: seq<Op>, k: nat, a: Addr, uid: int32, bundle: string) {
    && k < |ops| && OpensAs(ops[k], a, uid, bundle)
    && forall j :: k < j < |ops| ==> !OpensAgain(ops[j], a, uid) && !Ends(ops[j], a, uid)
  }

  /** Over every run: an app holds a device open under a bundle name if and only if it opened it so, and has neither
      opened it again nor closed it since, and the device has not left. */
  lemma {:induction false} OpenIsHistory(run: seq<Registry>, ops: seq<Op>, a: Addr, uid: int32, bundle: string)
    requires IsRun(run, ops)
    ensures Holds(run[|ops|].conns, a, uid, bundle) <==> exists k :: OpenedAt(ops, k, a, uid, bundle)
  {
    if ops != [] {
      var n := |ops| - 1;
      var front, op := ops[..n], ops[n];
      Shorter(run, ops);
      OpenIsHistory(run[..n + 1], front, a, uid, bundle);
      HoldsStep(run[n], op, run[n + 1], a, uid, bundle);
      assert forall k: nat :: k < n ==>
        (OpenedAt(ops, k, a, uid, bundle) <==>
         OpenedAt(front, k, a, uid, bundle) && !OpensAgain(op, a, uid) && !Ends(op, a, uid));
      assert OpenedAt(ops, n, a, uid, bundle) <==> OpensAs(op, a, uid, bundle);
    }
  }

  // ---- The descriptor that events carry -------------------------------------------------------------------

  predicate Reads(op: Op, a: Addr) {
    op.Open? && op.a == a && op.ok && op.info.Some? && op.bundle.Some?
  }

  ghost predicate LastRead(ops: seq<Op>, k: nat, a: Addr, d: Device) {
    && k < |ops| && Reads(ops[k], a) && ops[k].info == Some(d)
    && forall j :: k < j < |ops| ==> !Reads(ops[j], a)
  }

  /** The descriptor kept for an open device is the one read last for its address. */
  lemma {:induction false} DeviceIsHistory(run: seq<Registry>, ops: seq<Op>, a: Addr) returns (k: nat)
    requires IsRun(run, ops) && a in run[|ops|].conns
    ensures LastRead(ops, k, a, run[|ops|].conns[a].device)
  {
    var n := |ops| - 1;
    Shorter(run, ops);
    if Reads(ops[n], a) {
      k := n;
    } else {
      assert a in run[n].conns && run[n].conns[a].device == run[n + 1].conns[a].device;
      k := DeviceIsHistory(run[..n + 1], ops[..n], a);
    }
  }

  // ---- What is told of a detach ---------------------------------------------------------------------------

  /** The end of a connection that the listener knows of, to the device at `a`, under the name it knows. */
  predicate Farewell(e: Event, v: View, a: Addr, d: Device) {
    && e.Disconnect? && e.device == d
    && (a, e.uid) in v && e.bundle == v[(a, e.uid)]
  }

  lemma FarewellsAreKnown(v: View, r: Registry, a: Addr, e: Event)
    requires Consistent(r) && Agrees(v, r.conns) && a in r.conns
    ensures e in Farewells(r.conns[a]) <==> Farewell(e, v, a, r.conns[a].device)
  {
    assert (a, e.uid) in v <==> e.uid in Apps(r.conns, a);
  }

  /** A detach tells every listener, once each, of the end of exactly the connections to the device that it knows of,
      with the descriptor on record and the bundle names that it knows. */
  lemma DetachTells(r: Registry, a: Addr, r': Registry, l: nat) returns (es: seq<Event>)
    requires Consistent(r) && Step(r, Detach(a), r') && l in r.heard && a in r.conns
    ensures l in r'.heard && r'.heard[l] == r.heard[l] + es
    ensures forall e :: e in es <==> Farewell(e, Fold(r.heard[l]), a, r.conns[a].device)
    ensures forall j, k :: 0 <= j < k < |es| ==> es[j] != es[k]
  {
    es :| OnceEach(es, Farewells(r.conns[a])) && r' == Registry(r.conns - {a}, r.listeners, TellAll(r.heard, es));
    forall e ensures e in es <==> Farewell(e, Fold(r.heard[l]), a, r.conns[a].device) {
      FarewellsAreKnown(Fold(r.heard[l]), r, a, e);
    }
  }

  /** An open that succeeds tells every listener of that one connection, with the descriptor just read. */
  lemma OpenTells(r: Registry, op: Op, r': Registry, l: nat)
    requires op.Open? && Step(r, op, r') && l in r.heard
    ensures l in r'.heard
            && r'.heard[l] == r.heard[l] + if Reads(op, op.a)
                                           then [Connect(op.info.value, op.uid, op.bundle.value)] else []
  {
    assert r.heard[l] + [] == r.heard[l];
  }

  /** A new listener is told, once each, of exactly the open connections. */
  lemma RegisterTells(r: Registry, l: nat, r': Registry)
    requires Consistent(r) && Step(r, Register(l, true), r') && l !in r.listeners
    ensures r'.listeners == r.listeners + [l] && l in r'.heard
    ensures forall e :: e in r'.heard[l] <==>
              e.Connect? && Holds(r.conns, AddrOf(e.device), e.uid, e.bundle)
              && e.device == r.conns[AddrOf(e.device)].device
    ensures forall j, k :: 0 <= j < k < |r'.heard[l]| ==> r'.heard[l][j] != r'.heard[l][k]
  {
    forall e ensures e in Replay(r.conns) <==>
                     e.Connect? && Holds(r.conns, AddrOf(e.device), e.uid, e.bundle)
                     && e.device == r.conns[AddrOf(e.device)].device
    {
    }
  }

  /** A close tells of the end of that one connection, under the name that the caller closes it with. */
  lemma CloseTells(r: Registry, a: Addr, uid: int32, bundle: Option<string>, ok: bool, r': Registry, l: nat)
    requires Consistent(r) && Step(r, Close(a, uid, bundle, ok), r') && l in r.heard
    ensures l in r'.heard
            && r'.heard[l] == r.heard[l] + if ok && bundle.Some? && (a, uid) in Fold(r.heard[l])
                                           then [Disconnect(r.conns[a].device, uid, bundle.value)] else []
  {
    assert (a, uid) in Fold(r.heard[l]) <==> uid in Apps(r.conns, a);
    assert r.heard[l] + [] == r.heard[l];
  }
}
