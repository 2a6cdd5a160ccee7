/** Which owners are still watched for death.  An exclusive claim attaches its death recipient before it records the
    owner, so a notice can come too early, find no owner, and be spent. Here every recipient has a number of its own. */
module ClaimNotices {
  import opened UsbTypes
  import opened ClaimProtocol
  import opened ClaimInterleaving

  /** Beside the machine: the recipients made so far, the one that each thread is about to record, the one recorded for
      each interface, and those whose notice has been delivered. */
  datatype Watch = Watch(m: Machine, made: seq<Recipient>, inHand: map<nat, nat>, recorded: map<Iface, nat>,
                         spent: set<nat>)

  const NO_WATCH: Watch := Watch(START, [], map[], map[], {})

  /** Owner deaths come as notices of particular recipients, of any that was ever made; everything else is a step. */
  datatype Move = Take(s: Step) | Notice(number: nat, hal: HalReply)

  predicate RealMove(v: Move) {
    v.Take? ==> RealStep(v.s) && !(v.s.Whole? && v.s.q.Died?)
  }

  function Turn(w: Watch, v: Move): Watch {
    match v
    case Notice(number, hal) =>
      if number >= |w.made| then w
      else w.(m := Next(w.m, Whole(Died(w.made[number], hal))), spent := w.spent + {number})
    case Take(s) =>
      var m := Next(w.m, s);
      match s
      case Begin(thread, i, t) =>
        if thread in w.m.pending || thread !in m.pending then w.(m := m)
        else w.(m := m, made := w.made + [Recipient(i, t)], inHand := w.inHand[thread := |w.made|])
      case Commit(thread, _) =>
        if thread !in w.m.pending || thread !in w.inHand then w.(m := m)
        else w.(m := m, recorded := w.recorded[w.m.pending[thread].i := w.inHand[thread]])
      case _ => w.(m := m)
  }

  function Turns(w: Watch, vs: seq<Move>): Watch {
    if vs == [] then w else Turn(Turns(w, vs[..|vs| - 1]), vs[|vs| - 1])
  }

  // ---- Bookkeeping ----------------------------------------------------------------------------------------

  predicate Held(w: Watch, thread: nat) {
    thread in w.m.pending && thread in w.inHand && w.inHand[thread] < |w.made|
    && w.made[w.inHand[thread]] == Recipient(w.m.pending[thread].i, w.m.pending[thread].t)
  }

  predicate Recorded(w: Watch, i: Iface) {
    i in w.m.claims && i in w.recorded && w.recorded[i] < |w.made|
    && w.m.claims[i].recipient == Some(w.made[w.recorded[i]])
  }

  ghost predicate Numbered(w: Watch) {
    && AllPaired(w.m)
    && (forall thread :: thread in w.m.pending ==> Held(w, thread))
    && (forall i :: i in w.m.claims && w.m.claims[i].recipient.Some? ==> Recorded(w, i))
  }

  lemma NumberedKept(w: Watch, v: Move)
    requires Numbered(w) && RealMove(v)
    ensures Numbered(Turn(w, v))
  {
    match v
    case Take(s) =>
      PairedKept(w.m, s);
      if s.Whole? {
        NumberedWhole(w, s.q);
      } else {
        NumberedClaim(w, s);
      }
    case Notice(number, hal) =>
      if number < |w.made| {
        NumberedNotice(w, number, hal);
      }
  }

  lemma NumberedNotice(w: Watch, number: nat, hal: HalReply)
    requires Numbered(w) && number < |w.made|
    ensures Numbered(Turn(w, Notice(number, hal)))
  {
  }

  lemma NumberedWhole(w: Watch, q: Request)
    requires Numbered(w) && RealMove(Take(Whole(q)))
    ensures Numbered(Turn(w, Take(Whole(q))))
  {
    PairedKept(w.m, Whole(q));
  }

  lemma NumberedClaim(w: Watch, s: Step)
    requires Numbered(w) && RealMove(Take(s)) && !s.Whole?
    ensures Numbered(Turn(w, Take(s)))
  {
    PairedKept(w.m, s);
  }

  lemma {:induction false} NumberedAlways(vs: seq<Move>)
    requires forall k :: 0 <= k < |vs| ==> RealMove(vs[k])
    ensures Numbered(Turns(NO_WATCH, vs))
  {
    if vs != [] {
      NumberedAlways(vs[..|vs| - 1]);
      NumberedKept(Turns(NO_WATCH, vs[..|vs| - 1]), vs[|vs| - 1]);
    }
  }

  // ---- Unwatched owners -----------------------------------------------------------------------------------

  /** The owner's death would clear the entry: the recorded recipient is about the owner, and its notice is to come. */
  predicate Watched(w: Watch, i: Iface) {
    && i in w.m.claims && i in w.recorded
    && w.m.claims[i].recipient == Some(Recipient(i, w.m.claims[i].owner))
    && w.recorded[i] !in w.spent
  }

  predicate Unwatched(w: Watch, i: Iface) {
    Entry(w.m.claims, i).owner != 0 && !Watched(w, i)
  }

  /** The thread is in the middle of a claim of `i`. */
  predicate CommitsOn(w: Watch, v: Move, i: Iface) {
    v.Take? && v.s.Commit? && v.s.thread in w.m.pending && w.m.pending[v.s.thread].i == i
  }

  /** A commit that leaves an owner nobody watches: its own notice has come already, or it repeats a claim that is not
      its token's any more, and puts its recipient in the place of the owner's. */
  predicate CommitsUnwatched(w: Watch, v: Move, i: Iface) {
    CommitsOn(w, v, i)
    && var p := w.m.pending[v.s.thread];
       var owner := if p.isRepeat then Entry(w.m.claims, i).owner else p.t;
       owner != 0 && (owner != p.t || (v.s.thread in w.inHand && w.inHand[v.s.thread] in w.spent))
  }

  /** The owner of `i` lets go, the device leaves, or a notice about the owner comes. */
  predicate EndsOwner(w: Watch, v: Move, i: Iface) {
    var a := Entry(w.m.claims, i).owner;
    match v
    case Notice(number, _) => number < |w.made| && w.made[number] == Recipient(i, a)
    case Take(s) =>
      s.Whole? && match s.q
                  case Release(j, t, _) => j == i && t == a
                  case Close(bus, addr, t) => OnDevice(i, bus, addr) && t == a
                  case Detach(bus, addr) => OnDevice(i, bus, addr)
                  case _ => false
  }

  lemma UnwatchedStep(w: Watch, v: Move, i: Iface)
    requires Numbered(w) && RealMove(v)
    ensures Unwatched(Turn(w, v), i)
            <==> CommitsUnwatched(w, v, i) || (Unwatched(w, i) && !CommitsOn(w, v, i) && !EndsOwner(w, v, i))
  {
    match v
    case Notice(number, hal) => UnwatchedAfterNotice(w, number, hal, i);
    case Take(s) =>
      if CommitsOn(w, v, i) {
        assert Held(w, s.thread);
      } else if s.Whole? {
        UnwatchedAfterWhole(w, s.q, i);
      }
  }

  lemma UnwatchedAfterNotice(w: Watch, number: nat, hal: HalReply, i: Iface)
    requires Numbered(w)
    ensures Unwatched(Turn(w, Notice(number, hal)), i) <==> Unwatched(w, i) && !EndsOwner(w, Notice(number, hal), i)
  {
  }

  lemma UnwatchedAfterWhole(w: Watch, q: Request, i: Iface)
    requires Numbered(w) && RealMove(Take(Whole(q)))
    ensures Unwatched(Turn(w, Take(Whole(q))), i) <==> Unwatched(w, i) && !EndsOwner(w, Take(Whole(q)), i)
  {
  }

  /** Move `k` left an owner unwatched, and nothing since recorded another claim or ended that ownership. */
  ghost predicate UnwatchedSince(vs: seq<Move>, k: nat, i: Iface)
    requires k < |vs|
  {
    && CommitsUnwatched(Turns(NO_WATCH, vs[..k]), vs[k], i)
    && forall j :: k < j < |vs| ==> Leaves(Turns(NO_WATCH, vs[..j]), vs[j], i)
  }

  predicate Leaves(w: Watch, v: Move, i: Iface) {
    !CommitsOn(w, v, i) && !EndsOwner(w, v, i)
  }

  lemma SinceSnoc(front: seq<Move>, v: Move, k: nat, i: Iface)
    requires k < |front|
    ensures UnwatchedSince(front + [v], k, i)
            <==> UnwatchedSince(front, k, i) && Leaves(Turns(NO_WATCH, front), v, i)
  {
    var vs := front + [v];
    forall j | 0 <= j < |front| ensures vs[..j] == front[..j] && vs[j] == front[j] {}
    assert vs[..|front|] == front;
    if UnwatchedSince(vs, k, i) {
      assert Leaves(Turns(NO_WATCH, vs[..|front|]), vs[|front|], i);
      forall j | k < j < |front| ensures Leaves(Turns(NO_WATCH, front[..j]), front[j], i) {
        assert Leaves(Turns(NO_WATCH, vs[..j]), vs[j], i);
      }
    }
  }

  ghost predicate LeftUnwatched(vs: seq<Move>, i: Iface) {
    exists k :: 0 <= k < |vs| && UnwatchedSince(vs, k, i)
  }

  lemma LeftSnoc(front: seq<Move>, v: Move, i: Iface)
    ensures var w := Turns(NO_WATCH, front);
            LeftUnwatched(front + [v], i)
            <==> CommitsUnwatched(w, v, i) || (LeftUnwatched(front, i) && Leaves(w, v, i))
  {
    var vs, n, w := front + [v], |front|, Turns(NO_WATCH, front);
    assert vs[..n] == front;
    assert UnwatchedSince(vs, n, i) <==> CommitsUnwatched(w, v, i);
    if LeftUnwatched(vs, i) {
      var k :| 0 <= k < |vs| && UnwatchedSince(vs, k, i);
      if k < n {
        SinceSnoc(front, v, k, i);
      }
    }
    if LeftUnwatched(front, i) && Leaves(w, v, i) {
      var k :| 0 <= k < n && UnwatchedSince(front, k, i);
      SinceSnoc(front, v, k, i);
    }
  }

  /** Over every run: an owner is unwatched if and only if its claim was recorded after its notice was spent, or over
      the head of an owner by a stale repeat, and still stands. */
  lemma {:induction false} UnwatchedIff(vs: seq<Move>, i: Iface)
    requires forall k :: 0 <= k < |vs| ==> RealMove(vs[k])
    ensures Unwatched(Turns(NO_WATCH, vs), i) <==> LeftUnwatched(vs, i)
  {
    if vs != [] {
      var front, v := vs[..|vs| - 1], vs[|vs| - 1];
      assert vs == front + [v];
      UnwatchedIff(front, i);
      NumberedAlways(front);
      UnwatchedStep(Turns(NO_WATCH, front), v, i);
      LeftSnoc(front, v, i);
    }
  }

  lemma RecordedNotice(w: Watch, i: Iface, hal: HalReply)
    requires Numbered(w) && Entry(w.m.claims, i).owner != 0 && i in w.recorded && w.recorded[i] !in w.spent
    ensures var after := Entry(Turn(w, Notice(w.recorded[i], hal)).m.claims, i);
            if Unwatched(w, i) then after == Entry(w.m.claims, i) else after.owner == 0
  {
    assert Recorded(w, i);
  }

  /** Over every run: when the recipient recorded for an owned interface brings its notice, the ownership ends, unless
      the owner was left unwatched; then nothing changes. */
  lemma NoticeEndsUnlessUnwatched(vs: seq<Move>, i: Iface, hal: HalReply)
    requires forall k :: 0 <= k < |vs| ==> RealMove(vs[k])
    requires var w := Turns(NO_WATCH, vs);
             Entry(w.m.claims, i).owner != 0 && i in w.recorded && w.recorded[i] !in w.spent
    ensures var w := Turns(NO_WATCH, vs);
            var after := Entry(Turn(w, Notice(w.recorded[i], hal)).m.claims, i);
            if LeftUnwatched(vs, i) then after == Entry(w.m.claims, i) else after.owner == 0
  {
    NumberedAlways(vs);
    UnwatchedIff(vs, i);
    RecordedNotice(Turns(NO_WATCH, vs), i, hal);
  }

  lemma TurnsSnoc(vs: seq<Move>, v: Move)
    ensures Turns(NO_WATCH, vs + [v]) == Turn(Turns(NO_WATCH, vs), v)
  {
    assert (vs + [v])[..|vs|] == vs;
  }

  /** The early notice: the process dies between the check and the record, and is recorded as the owner. */
  lemma EarlyNotice(i: Iface, a: Token, cb: nat, hal: HalReply) returns (vs: seq<Move>)
    requires a != 0
    ensures vs == [Take(Begin(1, i, a))] + [Notice(0, hal)] + [Take(Commit(1, cb))]
    ensures var w := Turns(NO_WATCH, vs); Entry(w.m.claims, i).owner == a && Unwatched(w, i)
  {
    vs := [] + [Take(Begin(1, i, a))];
    TurnsSnoc([], Take(Begin(1, i, a)));
    TurnsSnoc(vs, Notice(0, hal));
    vs := vs + [Notice(0, hal)];
    TurnsSnoc(vs, Take(Commit(1, cb)));
    vs := vs + [Take(Commit(1, cb))];
  }
}
