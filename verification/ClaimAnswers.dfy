/** What callers are answered, and whose callback is told, read off the history of requests: here nothing speaks of the
    entries of the claim map. */
module ClaimAnswers {
  import opened UsbTypes
  import opened ClaimProtocol
  import opened ClaimRuns
  import opened ClaimInterleaving

  // ---- Answers --------------------------------------------------------------------------------------------

  /** Another token's grant stands. */
  ghost predicate OwnedByOther(qs: seq<Request>, i: Iface, t: Token) {
    exists a: Token :: a != 0 && a != t && GrantedSince(qs, i, a)
  }

  lemma OwnerIsKnown(qs: seq<Request>, i: Iface, t: Token)
    requires RealTokens(qs) && t != 0
    ensures var c := Entry(Run(EMPTY, qs).claims, i);
            && (OwnedByOther(qs, i, t) <==> c.owner != 0 && c.owner != t)
            && (GrantedSince(qs, i, t) <==> c.owner == t)
            && (NormalSince(qs, i) <==> c.normal)
  {
    var owner := Entry(Run(EMPTY, qs).claims, i).owner;
    forall a: Token | a != 0 ensures GrantedSince(qs, i, a) <==> owner == a {
      OwnershipIsHistory(qs, i, a);
    }
    NormalClaimIsHistory(qs, i);
    assert owner != 0 && owner != t ==> GrantedSince(qs, i, owner);
  }

  /** An exclusive claim is refused as busy exactly while another token's grant stands, or a normal claim does and the
      caller has no grant; otherwise the caller hears what the HAL says. */
  lemma ExclusiveAnswer(qs: seq<Request>, i: Iface, t: Token, cb: Option<nat>, linked: bool, hal: HalReply)
    requires RealTokens(qs) && t != 0
    ensures Answer(Run(EMPTY, qs), Exclusive(i, t, cb, linked, hal))
            == if OwnedByOther(qs, i, t) || (NormalSince(qs, i) && !GrantedSince(qs, i, t)) then Busy
               else if hal == HalOk then Ok else Hal(hal)
  {
    OwnerIsKnown(qs, i, t);
  }

  /** A release is refused exactly while another token's sole grant stands; it succeeds without the HAL when it leaves
      somebody else's claim, and is the HAL's to answer otherwise. */
  lemma ReleaseAnswer(qs: seq<Request>, i: Iface, t: Token, hal: HalReply)
    requires RealTokens(qs) && t != 0
    ensures Answer(Run(EMPTY, qs), Release(i, t, hal))
            == if OwnedByOther(qs, i, t) && !NormalSince(qs, i) then InvalidOperation
               else if NormalSince(qs, i) && (OwnedByOther(qs, i, t) || GrantedSince(qs, i, t)) then Ok
               else match hal
                    case HalOk => Ok
                    case HalErrOp => InvalidOperation
                    case HalError(code) => Hal(HalError(code))
  {
    OwnerIsKnown(qs, i, t);
  }

  // ---- Whose callback -------------------------------------------------------------------------------------

  /** An exclusive claim of `i` by `a` that the HAL grants, with a callback that can be watched. */
  predicate Registered(q: Request, i: Iface, a: Token) {
    q.Exclusive? && q.i == i && q.t == a && q.hal.HalOk? && q.cb.Some? && q.linked
  }

  /** Request `k` is the last such claim, and carried `cb`. */
  ghost predicate LastCarried(qs: seq<Request>, k: nat, i: Iface, a: Token, cb: nat) {
    && k < |qs| && Registered(qs[k], i, a) && qs[k].cb == Some(cb)
    && forall j :: k < j < |qs| ==> !Registered(qs[j], i, a)
  }

  lemma CallbackStep(w: World, q: Request, i: Iface, a: Token)
    requires Shape(w) && RealToken(q) && a != 0 && Entry(Apply(w, q).claims, i).owner == a
    ensures if Registered(q, i, a) then Entry(Apply(w, q).claims, i).callback == q.cb
            else Entry(w.claims, i).owner == a && Entry(Apply(w, q).claims, i).callback == Entry(w.claims, i).callback
  {
  }

  /** The callback of an owner is the one that came with its last registered claim. */
  lemma {:induction false} CallbackIsHistory(qs: seq<Request>, i: Iface, a: Token) returns (k: nat)
    requires RealTokens(qs) && a != 0 && Entry(Run(EMPTY, qs).claims, i).owner == a
    ensures Entry(Run(EMPTY, qs).claims, i).callback.Some?
    ensures LastCarried(qs, k, i, a, Entry(Run(EMPTY, qs).claims, i).callback.value)
  {
    var n := |qs| - 1;
    var front, q := qs[..n], qs[n];
    ShapeAlways(front);
    CallbackStep(Run(EMPTY, front), q, i, a);
    if Registered(q, i, a) {
      k := n;
    } else {
      k := CallbackIsHistory(front, i, a);
    }
  }

  /** Over every run: a successful normal claim tells `cb` if and only if the grant of another token stands whose last
      registered claim carried `cb`. */
  lemma NoticeIsHistory(qs: seq<Request>, i: Iface, t: Token, hal: HalReply, cb: nat)
    requires RealTokens(qs) && t != 0
    ensures ConflictNotice(Run(EMPTY, qs), i, t, hal) == Some(cb) <==>
            hal == HalOk
            && exists a: Token, k :: a != 0 && a != t && GrantedSince(qs, i, a) && LastCarried(qs, k, i, a, cb)
  {
    var c := Entry(Run(EMPTY, qs).claims, i);
    forall a: Token | a != 0 ensures GrantedSince(qs, i, a) <==> c.owner == a {
      OwnershipIsHistory(qs, i, a);
    }
    if c.owner != 0 {
      var k := CallbackIsHistory(qs, i, c.owner);
      assert forall m, d :: LastCarried(qs, m, i, c.owner, d) ==> m == k;
    }
  }

  /** A repeated claim replaces the callback: the second is told. */
  lemma RepeatIsTold(i: Iface, a: Token, b: Token, first: nat, second: nat)
    requires a != 0 && b != 0 && a != b
    ensures var qs := [Exclusive(i, a, Some(first), true, HalOk)] + [Exclusive(i, a, Some(second), true, HalOk)];
            ConflictNotice(Run(EMPTY, qs), i, b, HalOk) == Some(second)
  {
    var q := Exclusive(i, a, Some(first), true, HalOk);
    RunSnoc([], q);
    RunSnoc([q], Exclusive(i, a, Some(second), true, HalOk));
    assert [] + [q] == [q];
  }

  // ---- The stored callback, however requests interleave ---------------------------------------------------

  /** The step records a claim of `i`, with `cb`. */
  predicate CommitsWith(m: Machine, s: Step, i: Iface, cb: nat) {
    s.Commit? && s.cb == cb && s.thread in m.pending && m.pending[s.thread].i == i
  }

  predicate CommitsSome(m: Machine, s: Step, i: Iface) {
    s.Commit? && CommitsWith(m, s, i, s.cb)
  }

  /** The owner lets go, dies or closes the device, or the device leaves; where nobody owns the interface, the last
      normal claim of it is released. */
  predicate DropsCallback(m: Machine, s: Step, i: Iface) {
    var c := Entry(m.claims, i);
    s.Whole? && ((c.owner != 0 && EndsOwnership(s.q, i, c.owner))
                 || (s.q.Detach? && OnDevice(i, s.q.bus, s.q.addr))
                 || (s.q.Release? && s.q.i == i && c.owner == 0 && c.normal))
  }

  lemma StoredStep(m: Machine, s: Step, i: Iface, cb: nat)
    requires AllPaired(m) && RealStep(s)
    ensures Entry(Next(m, s).claims, i).callback == Some(cb) <==>
            CommitsWith(m, s, i, cb)
            || (Entry(m.claims, i).callback == Some(cb) && !CommitsSome(m, s, i) && !DropsCallback(m, s, i))
  {
    if s.Whole? {
      StoredWhole(m, s.q, i);
    }
  }

  lemma StoredWhole(m: Machine, q: Request, i: Iface)
    requires AllPaired(m) && RealStep(Whole(q))
    ensures Entry(Next(m, Whole(q)).claims, i).callback
            == if DropsCallback(m, Whole(q), i) then None else Entry(m.claims, i).callback
  {
  }

  ghost predicate StoredSince(steps: seq<Step>, k: nat, i: Iface, cb: nat)
    requires k < |steps|
  {
    && CommitsWith(Interleave(START, steps[..k]), steps[k], i, cb)
    && forall j :: k < j < |steps| ==> Spared(steps, j, i)
  }

  ghost predicate Spared(steps: seq<Step>, j: nat, i: Iface)
    requires j < |steps|
  {
    var m := Interleave(START, steps[..j]);
    !CommitsSome(m, steps[j], i) && !DropsCallback(m, steps[j], i)
  }

  /** Over every interleaving: the stored callback is the one of the last record, unless it has been dropped since. */
  lemma {:induction false} StoredIsHistory(steps: seq<Step>, i: Iface, cb: nat)
    requires forall k :: 0 <= k < |steps| ==> RealStep(steps[k])
    ensures Entry(Interleave(START, steps).claims, i).callback == Some(cb) <==>
            exists k :: 0 <= k < |steps| && StoredSince(steps, k, i, cb)
  {
    if steps != [] {
      var n := |steps| - 1;
      var front, s := steps[..n], steps[n];
      StoredIsHistory(front, i, cb);
      PairedAlways(front);
      StoredStep(Interleave(START, front), s, i, cb);
      forall k | 0 <= k < n
        ensures StoredSince(steps, k, i, cb) <==> StoredSince(front, k, i, cb) && Spared(steps, n, i)
      {
        StoredSnoc(steps, n, k, i, cb);
      }
      assert StoredSince(steps, n, i, cb) <==> CommitsWith(Interleave(START, front), s, i, cb);
    }
  }

  lemma StoredSnoc(steps: seq<Step>, n: nat, k: nat, i: Iface, cb: nat)
    requires k < n == |steps| - 1
    ensures StoredSince(steps, k, i, cb) <==> StoredSince(steps[..n], k, i, cb) && Spared(steps, n, i)
  {
    assert forall j :: 0 <= j < n ==> steps[..n][..j] == steps[..j];
    assert forall j :: 0 <= j < n ==> (Spared(steps[..n], j, i) <==> Spared(steps, j, i));
  }
}
