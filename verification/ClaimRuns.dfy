/** What every run of whole claim requests keeps. */
module ClaimRuns {
  import opened UsbTypes
  import opened ClaimProtocol

  ghost predicate RealTokens(qs: seq<Request>) {
    forall k :: 0 <= k < |qs| ==> RealToken(qs[k])
  }

  // ---- Shape of the entries ------------------------------------------------------------------------------

  /** An entry is there for someone, and callback and recipient are there exactly for an owner. */
  predicate WellShaped(i: Iface, c: Claim) {
    && (c.owner != 0 || c.normal)
    && (c.callback.Some? <==> c.owner != 0)
    && c.recipient == (if c.owner != 0 then Some(Recipient(i, c.owner)) else None)
  }

  ghost predicate Shape(w: World) {
    forall i :: i in w.claims ==> WellShaped(i, w.claims[i])
  }

  lemma ShapeKept(w: World, q: Request)
    requires Shape(w) && RealToken(q)
    ensures Shape(Apply(w, q))
  {
  }

  lemma {:induction false} ShapeAlways(qs: seq<Request>)
    requires RealTokens(qs)
    ensures Shape(Run(EMPTY, qs))
  {
    if qs != [] {
      ShapeAlways(qs[..|qs| - 1]);
      ShapeKept(Run(EMPTY, qs[..|qs| - 1]), qs[|qs| - 1]);
    }
  }

  // ---- Agreement with the HAL ----------------------------------------------------------------------------

  ghost predicate HalAgrees(w: World) {
    w.hal == w.claims.Keys
  }

  /** The requests that split the claim map from the HAL: an accepted exclusive claim of a free interface whose
      callback is missing or cannot be watched, and a full release or an owner death the HAL refuses to follow. */
  predicate Splits(w: World, q: Request) {
    match q
    case Exclusive(i, t, cb, linked, hal) => i !in w.claims && hal.HalOk? && !Registers(cb, linked)
    case Release(i, t, hal) =>
      i in w.claims && !hal.HalOk? && w.claims[i].normal == (w.claims[i].owner == 0)
      && (w.claims[i].owner == 0 || w.claims[i].owner == t)
    case Died(r, hal) =>
      r.iface in w.claims && w.claims[r.iface].owner == r.token && !w.claims[r.iface].normal && !hal.HalOk?
    case _ => false
  }

  /** Closing and detaching act on the HAL through the device handle, which is outside this model. */
  predicate ClaimTraffic(q: Request) {
    !q.Close? && !q.Detach?
  }

  lemma HalStepExact(w: World, q: Request)
    requires Shape(w) && HalAgrees(w) && RealToken(q) && ClaimTraffic(q)
    ensures HalAgrees(Apply(w, q)) <==> !Splits(w, q)
  {
  }

  ghost predicate AgreesAt(qs: seq<Request>, k: nat)
    requires k <= |qs|
  {
    HalAgrees(Run(EMPTY, qs[..k]))
  }

  ghost predicate SplitsAt(qs: seq<Request>, k: nat)
    requires k < |qs|
  {
    Splits(Run(EMPTY, qs[..k]), qs[k])
  }

  /** Along a run of claim traffic map and HAL agree all the time if and only if no request splits them. */
  lemma {:induction false} AgreesThroughoutIff(qs: seq<Request>)
    requires RealTokens(qs) && forall k :: 0 <= k < |qs| ==> ClaimTraffic(qs[k])
    ensures (forall k :: 0 <= k <= |qs| ==> AgreesAt(qs, k)) <==> (forall k :: 0 <= k < |qs| ==> !SplitsAt(qs, k))
  {
    var n := |qs|;
    assert qs[..n] == qs;
    if n == 0 {
      assert AgreesAt(qs, 0);
    } else {
      var front, q := qs[..n - 1], qs[n - 1];
      AgreesThroughoutIff(front);
      forall k | 0 <= k < n ensures AgreesAt(front, k) <==> AgreesAt(qs, k) { assert front[..k] == qs[..k]; }
      forall k | 0 <= k < n - 1 ensures SplitsAt(front, k) <==> SplitsAt(qs, k) { assert front[..k] == qs[..k]; }
      ShapeAlways(front);
      if AgreesAt(qs, n - 1) {
        HalStepExact(Run(EMPTY, front), q);
        assert AgreesAt(qs, n) <==> !SplitsAt(qs, n - 1);
      }
    }
  }

  /** The first request can split them: an exclusive claim without a callback. */
  lemma SplitAtOnce(i: Iface, t: Token)
    ensures var qs := [Exclusive(i, t, None, false, HalOk)];
            SplitsAt(qs, 0) && i in Run(EMPTY, qs).hal && i !in Run(EMPTY, qs).claims
  {
    var qs := [Exclusive(i, t, None, false, HalOk)];
    assert qs[..0] == [];
    assert Run(EMPTY, qs) == Apply(Run(EMPTY, qs[..0]), qs[0]);
  }

  /** A HAL that always succeeds and callbacks that always register. */
  predicate Smooth(q: Request) {
    match q
    case Normal(_, _, hal) => hal.HalOk?
    case Exclusive(_, _, cb, linked, hal) => hal.HalOk? && Registers(cb, linked)
    case Release(_, _, hal) => hal.HalOk?
    case Died(_, hal) => hal.HalOk?
    case _ => false
  }

  lemma {:induction false} HalAgreesAlways(qs: seq<Request>)
    requires RealTokens(qs) && forall k :: 0 <= k < |qs| ==> Smooth(qs[k])
    ensures HalAgrees(Run(EMPTY, qs)) && Shape(Run(EMPTY, qs))
  {
    ShapeAlways(qs);
    if qs != [] {
      var front, q := qs[..|qs| - 1], qs[|qs| - 1];
      HalAgreesAlways(front);
      HalStepExact(Run(EMPTY, front), q);
    }
  }

  // ---- Ownership as a fact about the history -------------------------------------------------------------

  /** `q`, met in world `w`, makes `a` the exclusive owner of `i`, who was not the owner before. */
  predicate Grants(w: World, q: Request, i: Iface, a: Token) {
    q.Exclusive? && q.i == i && q.t == a && q.hal.HalOk? && Registers(q.cb, q.linked)
    && Check(w.claims, i, a) == Proceed(false)
  }

  predicate EndsOwnership(q: Request, i: Iface, a: Token) {
    match q
    case Release(j, t, _) => j == i && t == a
    case Close(bus, addr, t) => OnDevice(i, bus, addr) && t == a
    case Detach(bus, addr) => OnDevice(i, bus, addr)
    case Died(r, _) => r == Recipient(i, a)
    case _ => false
  }

  /** Some past request granted `i` to `a`, and nothing after it ended that. */
  ghost predicate GrantedSince(qs: seq<Request>, i: Iface, a: Token) {
    exists k :: 0 <= k < |qs| && GrantedAt(qs, k, i, a)
  }

  ghost predicate GrantedAt(qs: seq<Request>, k: nat, i: Iface, a: Token)
    requires k < |qs|
  {
    && Grants(Run(EMPTY, qs[..k]), qs[k], i, a)
    && forall j :: k < j < |qs| ==> !EndsOwnership(qs[j], i, a)
  }

  lemma OwnerStep(w: World, q: Request, i: Iface, a: Token)
    requires Shape(w) && RealToken(q) && a != 0
    ensures Entry(Apply(w, q).claims, i).owner == a <==>
            Grants(w, q, i, a) || (Entry(w.claims, i).owner == a && !EndsOwnership(q, i, a))
  {
  }

  lemma {:induction false} OwnershipIsHistory(qs: seq<Request>, i: Iface, a: Token)
    requires RealTokens(qs) && a != 0
    ensures Entry(Run(EMPTY, qs).claims, i).owner == a <==> GrantedSince(qs, i, a)
  {
    if qs != [] {
      var n := |qs| - 1;
      var front, q := qs[..n], qs[n];
      OwnershipIsHistory(front, i, a);
      ShapeAlways(front);
      OwnerStep(Run(EMPTY, front), q, i, a);
      assert forall k :: 0 <= k < n ==> qs[..k] == front[..k];
      assert forall k :: 0 <= k < n ==>
        (GrantedAt(qs, k, i, a) <==> GrantedAt(front, k, i, a) && !EndsOwnership(q, i, a));
      assert GrantedAt(qs, n, i, a) <==> Grants(Run(EMPTY, front), q, i, a);
    }
  }

  // ---- Normal claims as a fact about the history ---------------------------------------------------------

  /** A release by someone who is not the owner takes the (shared) normal claim away, whoever made it. */
  predicate ClearsNormal(w: World, q: Request, i: Iface) {
    match q
    case Release(j, t, _) => j == i && Entry(w.claims, i).owner != t
    case Detach(bus, addr) => OnDevice(i, bus, addr)
    case _ => false
  }

  predicate ClaimsNormally(q: Request, i: Iface) {
    q.Normal? && q.i == i && q.hal.HalOk?
  }

  ghost predicate NormalAt(qs: seq<Request>, k: nat, i: Iface)
    requires k < |qs|
  {
    && ClaimsNormally(qs[k], i)
    && forall j :: k < j < |qs| ==> !ClearsNormal(Run(EMPTY, qs[..j]), qs[j], i)
  }

  ghost predicate NormalSince(qs: seq<Request>, i: Iface) {
    exists k :: 0 <= k < |qs| && NormalAt(qs, k, i)
  }

  lemma NormalStepExact(w: World, q: Request, i: Iface)
    requires Shape(w) && RealToken(q)
    ensures Entry(Apply(w, q).claims, i).normal <==>
            ClaimsNormally(q, i) || (Entry(w.claims, i).normal && !ClearsNormal(w, q, i))
  {
  }

  lemma NormalSnoc(qs: seq<Request>, n: nat, k: nat, i: Iface)
    requires k < n == |qs| - 1
    ensures NormalAt(qs, k, i) <==> NormalAt(qs[..n], k, i) && !ClearsNormal(Run(EMPTY, qs[..n]), qs[n], i)
  {
    assert forall j :: 0 <= j < n ==> qs[..n][..j] == qs[..j];
  }

  lemma {:induction false} NormalClaimIsHistory(qs: seq<Request>, i: Iface)
    requires RealTokens(qs)
    ensures Entry(Run(EMPTY, qs).claims, i).normal <==> NormalSince(qs, i)
  {
    if qs != [] {
      var n := |qs| - 1;
      var front, q := qs[..n], qs[n];
      NormalClaimIsHistory(front, i);
      ShapeAlways(front);
      NormalStepExact(Run(EMPTY, front), q, i);
      forall k | 0 <= k < n
        ensures NormalAt(qs, k, i) <==> NormalAt(front, k, i) && !ClearsNormal(Run(EMPTY, front), q, i)
      {
        NormalSnoc(qs, n, k, i);
      }
      assert NormalAt(qs, n, i) <==> ClaimsNormally(q, i);
    }
  }

  // ---- Exclusivity ---------------------------------------------------------------------------------------

  /** The transfer guard, read off the history: a transfer of `b` is refused exactly while someone else's grant
      stands and no normal claim does. */
  lemma GuardIsHistory(qs: seq<Request>, i: Iface, b: Token)
    requires RealTokens(qs) && b != 0
    ensures GuardTransfer(Run(EMPTY, qs).claims, i, b) == IoException <==>
            (exists a: Token :: a != 0 && a != b && GrantedSince(qs, i, a)) && !NormalSince(qs, i)
  {
    var owner := Entry(Run(EMPTY, qs).claims, i).owner;
    forall a: Token | a != 0 ensures GrantedSince(qs, i, a) <==> owner == a {
      OwnershipIsHistory(qs, i, a);
    }
    NormalClaimIsHistory(qs, i);
    assert owner != 0 && owner != b ==> GrantedSince(qs, i, owner);
  }

  /** `a` owns `i` and shares it with nobody. */
  predicate Held(w: World, i: Iface, a: Token) {
    a != 0 && Entry(w.claims, i).owner == a && !Entry(w.claims, i).normal
  }

  /** From a fresh grant until the owner lets go, the device leaves or a normal claim lands, every other token is
      refused, and its refused requests change nothing. */
  lemma {:induction false} ExclusivityHolds(before: seq<Request>, grant: Request, after: seq<Request>, i: Iface,
                                            a: Token)
    requires RealTokens(before) && RealToken(grant) && RealTokens(after)
    requires Grants(Run(EMPTY, before), grant, i, a)
    requires forall k :: 0 <= k < |after| ==> !EndsOwnership(after[k], i, a) && !ClaimsNormally(after[k], i)
    ensures Held(Run(Apply(Run(EMPTY, before), grant), after), i, a)
    ensures OthersRefused(Run(Apply(Run(EMPTY, before), grant), after), i, a)
  {
    ShapeAlways(before);
    var w := Apply(Run(EMPTY, before), grant);
    ShapeKept(Run(EMPTY, before), grant);
    StaysHeld(w, after, i, a);
    HeldRefusesOthers(Run(w, after), i, a);
  }

  lemma HeldRefusesOthers(w: World, i: Iface, a: Token)
    requires Held(w, i, a)
    ensures OthersRefused(w, i, a)
  {
    forall b: Token, cb, linked, hal | b != 0 && b != a ensures Refused(w, i, b, cb, linked, hal) {
      assert Check(w.claims, i, b) == Refuse;
      assert ReleaseState(w.claims, i, b) == Denied;
    }
  }

  /** A guarded transfer, an exclusive claim and a release by `b` are each refused and change nothing. */
  ghost predicate Refused(w: World, i: Iface, b: Token, cb: Option<nat>, linked: bool, hal: HalReply) {
    && GuardTransfer(w.claims, i, b) == IoException
    && Answer(w, Exclusive(i, b, cb, linked, hal)) == Busy
    && Apply(w, Exclusive(i, b, cb, linked, hal)) == w
    && Answer(w, Release(i, b, hal)) == InvalidOperation
    && Apply(w, Release(i, b, hal)) == w
  }

  ghost predicate OthersRefused(w: World, i: Iface, a: Token) {
    forall b: Token, cb, linked, hal :: b != 0 && b != a ==> Refused(w, i, b, cb, linked, hal)
  }

  lemma {:induction false} StaysHeld(w: World, qs: seq<Request>, i: Iface, a: Token)
    requires Shape(w) && RealTokens(qs) && Held(w, i, a)
    requires forall k :: 0 <= k < |qs| ==> !EndsOwnership(qs[k], i, a) && !ClaimsNormally(qs[k], i)
    ensures Shape(Run(w, qs)) && Held(Run(w, qs), i, a)
  {
    if qs != [] {
      var front, q := qs[..|qs| - 1], qs[|qs| - 1];
      StaysHeld(w, front, i, a);
      ShapeKept(Run(w, front), q);
      OwnerStep(Run(w, front), q, i, a);
      NormalStepExact(Run(w, front), q, i);
    }
  }

  /** A normal claim tells exactly the standing owner, unless the owner makes it. */
  lemma NoticeReachesTheOwner(qs: seq<Request>, i: Iface, t: Token, hal: HalReply)
    requires RealTokens(qs) && t != 0 && hal.HalOk?
    ensures ConflictNotice(Run(EMPTY, qs), i, t, hal).Some? <==>
            exists a: Token :: a != 0 && a != t && GrantedSince(qs, i, a)
  {
    ShapeAlways(qs);
    var owner := Entry(Run(EMPTY, qs).claims, i).owner;
    forall a: Token | a != 0 ensures GrantedSince(qs, i, a) <==> owner == a {
      OwnershipIsHistory(qs, i, a);
    }
    assert owner != 0 && owner != t ==> GrantedSince(qs, i, owner);
  }
}
