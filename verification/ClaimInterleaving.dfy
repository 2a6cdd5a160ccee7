/** Exclusive claims as they really run: the map lock is dropped between the check and the record, while the HAL
    claims the interface and the death recipient is attached.  Every other request is one lock section.

    The machine keeps the claim map and, per service thread, the exclusive claim it is in the middle of. */
module ClaimInterleaving {
  import opened UsbTypes
  import opened ClaimProtocol
  import opened ClaimRuns

  datatype Pending = Pending(i: Iface, t: Token, isRepeat: bool)

  datatype Machine = Machine(claims: map<Iface, Claim>, pending: map<nat, Pending>)

  const START: Machine := Machine(map[], map[])

  /** `Abandon`: the HAL refused, or the callback is missing or cannot be watched, so nothing is recorded. */
  datatype Step =
    | Begin(thread: nat, i: Iface, t: Token)
    | Commit(thread: nat, cb: nat)
    | Abandon(thread: nat)
    | Whole(q: Request)

  predicate RealStep(s: Step) {
    match s
    case Begin(_, _, t) => t != 0
    case Whole(q) => !q.Exclusive? && RealToken(q)
    case _ => true
  }

  /** A thread that is in the middle of a claim cannot begin another; steps that cannot happen change nothing. */
  function Next(m: Machine, s: Step): Machine {
    match s
    case Begin(thread, i, t) =>
      var verdict := Check(m.claims, i, t);
      if thread in m.pending || verdict.Refuse? then m
      else m.(pending := m.pending[thread := Pending(i, t, verdict.isRepeat)])
    case Commit(thread, cb) =>
      if thread !in m.pending then m
      else
        var p := m.pending[thread];
        Machine(Record(m.claims, p.i, p.t, cb, p.isRepeat), m.pending - {thread})
    case Abandon(thread) => m.(pending := m.pending - {thread})
    case Whole(q) => m.(claims := Apply(World(m.claims, {}), q).claims)
  }

  function Interleave(m: Machine, steps: seq<Step>): Machine {
    if steps == [] then m else Next(Interleave(m, steps[..|steps| - 1]), steps[|steps| - 1])
  }

  // ---- What survives -------------------------------------------------------------------------------------

  predicate Paired(i: Iface, c: Claim) {
    && (c.callback.Some? <==> c.recipient.Some?)
    && (c.owner != 0 ==> c.callback.Some?)
    && (c.recipient.Some? ==> c.recipient.value.iface == i && c.recipient.value.token != 0)
  }

  ghost predicate AllPaired(m: Machine) {
    && (forall i :: i in m.claims ==> Paired(i, m.claims[i]))
    && (forall thread :: thread in m.pending ==> m.pending[thread].t != 0)
  }

  /** Callback and recipient come and go together, and an owner always has both. */
  lemma {:induction false} PairedAlways(steps: seq<Step>)
    requires forall k :: 0 <= k < |steps| ==> RealStep(steps[k])
    ensures AllPaired(Interleave(START, steps))
  {
    if steps != [] {
      PairedAlways(steps[..|steps| - 1]);
      PairedKept(Interleave(START, steps[..|steps| - 1]), steps[|steps| - 1]);
    }
  }

  lemma PairedKept(m: Machine, s: Step)
    requires AllPaired(m) && RealStep(s)
    ensures AllPaired(Next(m, s))
  {
  }

  /** A death notice, however late, takes ownership only from the token it is about. */
  lemma DeathHitsOnlyItsToken(m: Machine, r: Recipient, hal: HalReply, i: Iface)
    ensures var before := Entry(m.claims, i);
            var after := Entry(Next(m, Whole(Died(r, hal))).claims, i);
            after != before ==> i == r.iface && before.owner == r.token && after.owner == 0
  {
  }

  // ---- What does not, and exactly when -------------------------------------------------------------------

  /** A commit that does what a whole exclusive claim promises: its token owns the interface, nobody else lost it,
      and it is not shared unless the token owned it already. */
  predicate Sound(before: Claim, after: Claim, t: Token) {
    && after.owner == t
    && (before.owner == 0 || before.owner == t)
    && (after.normal ==> before.owner == t)
  }

  /** The check section, asked again just before the record. */
  predicate Recheck(claims: map<Iface, Claim>, p: Pending) {
    var verdict := Check(claims, p.i, p.t);
    verdict.Proceed? && (p.isRepeat ==> verdict.isRepeat)
  }

  lemma CommitSoundIff(m: Machine, thread: nat, cb: nat)
    requires AllPaired(m) && thread in m.pending
    ensures var p := m.pending[thread];
            Sound(Entry(m.claims, p.i), Entry(Next(m, Commit(thread, cb)).claims, p.i), p.t)
            <==> Recheck(m.claims, p)
  {
  }

  /** A commit that passes the recheck is a whole exclusive claim. */
  lemma RecheckedCommitIsWhole(m: Machine, thread: nat, cb: nat)
    requires thread in m.pending && Recheck(m.claims, m.pending[thread])
    ensures var p := m.pending[thread];
            Next(m, Commit(thread, cb)).claims
            == Apply(World(m.claims, {}), Exclusive(p.i, p.t, Some(cb), true, HalOk)).claims
  {
  }

  // ---- Runs in which every commit would pass the check again ----------------------------------------------

  /** The whole requests that took effect, in the order in which they did. */
  function WholeRequests(steps: seq<Step>): seq<Request> {
    if steps == [] then []
    else
      var front, last := steps[..|steps| - 1], steps[|steps| - 1];
      WholeRequests(front) + Effect(Interleave(START, front), last)
  }

  function Effect(m: Machine, s: Step): seq<Request> {
    match s
    case Commit(thread, cb) =>
      if thread in m.pending then
        [Exclusive(m.pending[thread].i, m.pending[thread].t, Some(cb), true, HalOk)]
      else []
    case Whole(q) => [q]
    case _ => []
  }

  predicate Rechecked(m: Machine, s: Step) {
    s.Commit? && s.thread in m.pending ==> Recheck(m.claims, m.pending[s.thread])
  }

  lemma ClaimsIgnoreHal(w: World, w': World, q: Request)
    requires w.claims == w'.claims
    ensures Apply(w, q).claims == Apply(w', q).claims
  {
  }

  lemma RunSnoc(qs: seq<Request>, q: Request)
    ensures Run(EMPTY, qs + [q]) == Apply(Run(EMPTY, qs), q)
  {
    assert (qs + [q])[..|qs|] == qs;
  }

  /** However requests interleave, if every commit would pass the check again, the run is one of whole requests; so
      all that holds of those holds here. */
  lemma {:induction false} RecheckedRunIsWhole(steps: seq<Step>)
    requires forall k :: 0 <= k < |steps| ==> RealStep(steps[k])
    requires forall k :: 0 <= k < |steps| ==> Rechecked(Interleave(START, steps[..k]), steps[k])
    ensures RealTokens(WholeRequests(steps))
    ensures Run(EMPTY, WholeRequests(steps)).claims == Interleave(START, steps).claims
  {
    if steps != [] {
      var n := |steps| - 1;
      var front, last := steps[..n], steps[n];
      assert forall k :: 0 <= k < n ==> front[..k] == steps[..k];
      RecheckedRunIsWhole(front);
      PairedAlways(front);
      var m, qs := Interleave(START, front), WholeRequests(front);
      var effect := Effect(m, last);
      if effect == [] {
        assert qs + effect == qs;
      } else {
        RunSnoc(qs, effect[0]);
        ClaimsIgnoreHal(Run(EMPTY, qs), World(m.claims, {}), effect[0]);
        if last.Commit? {
          RecheckedCommitIsWhole(m, last.thread, last.cb);
        }
      }
    }
  }

  /** So there too an owner is exactly a token with a standing grant, and every entry is well shaped. */
  lemma RecheckedOwnershipIsHistory(steps: seq<Step>, i: Iface, a: Token)
    requires a != 0 && forall k :: 0 <= k < |steps| ==> RealStep(steps[k])
    requires forall k :: 0 <= k < |steps| ==> Rechecked(Interleave(START, steps[..k]), steps[k])
    ensures Entry(Interleave(START, steps).claims, i).owner == a <==> GrantedSince(WholeRequests(steps), i, a)
    ensures i in Interleave(START, steps).claims ==> WellShaped(i, Interleave(START, steps).claims[i])
  {
    RecheckedRunIsWhole(steps);
    OwnershipIsHistory(WholeRequests(steps), i, a);
    ShapeAlways(WholeRequests(steps));
  }

  // ---- Windows in which nobody touches the interface ------------------------------------------------------

  /** Steps that may change the entry of `i`. */
  predicate Touches(m: Machine, s: Step, i: Iface) {
    match s
    case Begin(_, _, _) => false
    case Commit(thread, _) => thread in m.pending && m.pending[thread].i == i
    case Abandon(_) => false
    case Whole(q) =>
      (match q
       case Normal(j, _, hal) => j == i && hal.HalOk?
       case Exclusive(j, _, _, _, _) => j == i
       case Release(j, _, _) => j == i
       case Close(bus, addr, _) => OnDevice(i, bus, addr)
       case Detach(bus, addr) => OnDevice(i, bus, addr)
       case Died(r, _) => r.iface == i)
  }

  ghost predicate QuietFor(m: Machine, steps: seq<Step>, i: Iface, thread: nat) {
    forall k :: 0 <= k < |steps| ==>
      !Touches(Interleave(m, steps[..k]), steps[k], i) && steps[k] != Abandon(thread)
  }

  lemma QuietStep(m: Machine, s: Step, i: Iface, thread: nat)
    requires thread in m.pending && m.pending[thread].i == i && !Touches(m, s, i) && s != Abandon(thread)
    ensures var m' := Next(m, s);
            thread in m'.pending && m'.pending[thread] == m.pending[thread]
            && (i in m'.claims <==> i in m.claims) && Entry(m'.claims, i) == Entry(m.claims, i)
  {
  }

  lemma {:induction false} QuietKeepsEntry(m: Machine, steps: seq<Step>, i: Iface, thread: nat)
    requires thread in m.pending && m.pending[thread].i == i && QuietFor(m, steps, i, thread)
    ensures var m' := Interleave(m, steps);
            thread in m'.pending && m'.pending[thread] == m.pending[thread]
            && (i in m'.claims <==> i in m.claims) && Entry(m'.claims, i) == Entry(m.claims, i)
  {
    if steps != [] {
      var n := |steps| - 1;
      var front := steps[..n];
      assert forall k :: 0 <= k < n ==> front[..k] == steps[..k];
      QuietKeepsEntry(m, front, i, thread);
      assert !Touches(Interleave(m, steps[..n]), steps[n], i);
      QuietStep(Interleave(m, front), steps[n], i, thread);
    }
  }

  /** However other requests interleave, a claim during which nobody touches its interface is atomic: it takes
      effect as one whole request at the moment it records. */
  lemma {:induction false} QuietWindowIsAtomic(m: Machine, thread: nat, i: Iface, t: Token, window: seq<Step>, cb: nat)
    requires thread !in m.pending && Check(m.claims, i, t).Proceed?
    requires QuietFor(Next(m, Begin(thread, i, t)), window, i, thread)
    ensures var late := Interleave(Next(m, Begin(thread, i, t)), window);
            Next(late, Commit(thread, cb)).claims
            == Apply(World(late.claims, {}), Exclusive(i, t, Some(cb), true, HalOk)).claims
    ensures var late := Interleave(Next(m, Begin(thread, i, t)), window);
            Entry(Next(late, Commit(thread, cb)).claims, i).owner == t
  {
    var m1 := Next(m, Begin(thread, i, t));
    QuietKeepsEntry(m1, window, i, thread);
    RecheckedCommitIsWhole(Interleave(m1, window), thread, cb);
  }

  // ---- Runs that show how a late commit goes wrong -------------------------------------------------------

  lemma RunThen(m: Machine, steps: seq<Step>, s: Step)
    ensures Interleave(m, steps + [s]) == Next(Interleave(m, steps), s)
  {
    assert (steps + [s])[..|steps|] == steps;
  }

  /** Two tokens are both granted the same interface; the first is then refused its own transfers. */
  lemma TwoGrants(i: Iface, a: Token, b: Token, cb: nat) returns (steps: seq<Step>)
    requires a != 0 && b != 0 && a != b
    ensures steps == [Begin(1, i, a), Begin(2, i, b)] + [Commit(1, cb)] + [Commit(2, cb)]
    ensures Entry(Interleave(START, steps[..3]).claims, i).owner == a
    ensures GuardTransfer(Interleave(START, steps).claims, i, a) == IoException
  {
    steps := [] + [Begin(1, i, a)];
    RunThen(START, [], Begin(1, i, a));
    RunThen(START, steps, Begin(2, i, b));
    steps := steps + [Begin(2, i, b)];
    RunThen(START, steps, Commit(1, cb));
    steps := steps + [Commit(1, cb)];
    RunThen(START, steps, Commit(2, cb));
    assert (steps + [Commit(2, cb)])[..3] == steps;
    steps := steps + [Commit(2, cb)];
  }

  /** A repeat that commits after its own token released leaves a callback and a recipient without an owner, and
      the token's next release does not remove them. */
  lemma OrphanEntry(i: Iface, a: Token, cb: nat, hal: HalReply) returns (steps: seq<Step>)
    requires a != 0
    ensures forall k :: 0 <= k < |steps| ==> RealStep(steps[k])
    ensures var m := Interleave(START, steps);
            i in m.claims && m.claims[i] == Claim(0, false, Some(cb), Some(Recipient(i, a)))
            && Next(m, Whole(Release(i, a, hal))) == m
  {
    steps := [] + [Begin(1, i, a)];
    RunThen(START, [], Begin(1, i, a));
    RunThen(START, steps, Commit(1, cb));
    steps := steps + [Commit(1, cb)];
    RunThen(START, steps, Begin(1, i, a));
    steps := steps + [Begin(1, i, a)];
    RunThen(START, steps, Whole(Release(i, a, hal)));
    steps := steps + [Whole(Release(i, a, hal))];
    RunThen(START, steps, Commit(1, cb));
    steps := steps + [Commit(1, cb)];
  }
}
