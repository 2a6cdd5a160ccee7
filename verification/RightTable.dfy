/** The table of access rights: who may use which device, since when and for how long.
    Times and periods are in whatever unit the clock counts; the columns are signed 64-bit. */
module RightTable {
  import opened UsbTypes

  type Time = n: int | 0 <= n < 0x8000_0000_0000_0000

  const PERIOD_TEMPORARY: Time := 0
  const PERIOD_FOREVER: Time := 0xFFFF_FFFF
  const PERIOD_SET: Time := 0x0FFF_FFFF

  const CONSOLE: int32 := 0

  datatype Key = Key(uid: int32, device: string, bundle: string, token: string)

  datatype Row = Row(key: Key, installTime: Time, updateTime: Time, requestTime: Time, validPeriod: Time)

  // ---- Expiry ---------------------------------------------------------------------------------------------

  predicate Expired(r: Row, now: Time) {
    if now < r.requestTime then true
    else if r.validPeriod == PERIOD_TEMPORARY || r.validPeriod == PERIOD_FOREVER then false
    else now - r.requestTime >= r.validPeriod
  }

  predicate HasRight(t: seq<Row>, k: Key, now: Time) {
    k.uid == CONSOLE || exists r :: r in t && r.key == k && !Expired(r, now)
  }

  /** A row gives the right from its request on: for good if it is temporary (0) or permanent (0xFFFFFFFF), and for its
      period otherwise. */
  lemma HasRightIff(t: seq<Row>, k: Key, now: Time)
    ensures HasRight(t, k, now) <==>
            k.uid == 0
            || exists r :: r in t && r.key == k && r.requestTime <= now
                           && (r.validPeriod in {0, 0xFFFF_FFFF} || now < r.requestTime + r.validPeriod)
  {
    if r :| r in t && r.key == k && !Expired(r, now) {
      assert r.validPeriod in {0, 0xFFFF_FFFF} || now < r.requestTime + r.validPeriod;
    }
    if r :| r in t && r.key == k && r.requestTime <= now
            && (r.validPeriod in {0, 0xFFFF_FFFF} || now < r.requestTime + r.validPeriod) {
      assert !Expired(r, now);
    }
  }

  // ---- Statements -----------------------------------------------------------------------------------------

  /** The where-clauses the service deletes by. */
  datatype Where =
    | ByKey(k: Key)
    | ByUser(uid: int32)
    | ByApps(uid: int32, bundles: seq<string>)
    | ByUserDevice(uid: int32, device: string)
    | ByPeriod(period: Time, device: string)
    | RequestedBefore(uid: int32, time: Time)

  predicate Selects(w: Where, r: Row) {
    match w
    case ByKey(k) => r.key == k
    case ByUser(uid) => r.key.uid == uid
    case ByApps(uid, bundles) => r.key.uid == uid && r.key.bundle in bundles
    case ByUserDevice(uid, device) => r.key.uid == uid && r.key.device == device
    case ByPeriod(period, device) => r.validPeriod == period && r.key.device == device
    case RequestedBefore(uid, time) =>
      r.key.uid == uid && r.requestTime < time
      && r.validPeriod != PERIOD_TEMPORARY && r.validPeriod != PERIOD_FOREVER
  }

  function Delete(t: seq<Row>, w: Where): (left: seq<Row>)
    ensures forall r :: r in left <==> r in t && !Selects(w, r)
  {
    if t == [] then []
    else if Selects(w, t[|t| - 1]) then Delete(t[..|t| - 1], w)
    else Delete(t[..|t| - 1], w) + [t[|t| - 1]]
  }

  predicate KeyIn(t: seq<Row>, k: Key) {
    exists r :: r in t && r.key == k
  }

  /** An update writes every row of the key. */
  function Update(t: seq<Row>, row: Row): (t': seq<Row>)
    ensures |t'| == |t|
    ensures forall n :: 0 <= n < |t| ==> t'[n] == if t[n].key == row.key then row else t[n]
  {
    if t == [] then []
    else Update(t[..|t| - 1], row) + [if t[|t| - 1].key == row.key then row else t[|t| - 1]]
  }

  function Upsert(t: seq<Row>, row: Row): seq<Row> {
    if KeyIn(t, row.key) then Update(t, row) else t + [row]
  }

  /** The oldest request time that normal clean-up spares. */
  function Threshold(now: Time): Time {
    if now <= PERIOD_SET then 0 else now - PERIOD_SET
  }

  // ---- Requests, whole ------------------------------------------------------------------------------------

  /** A grant, or one of the deletions; `ok` is false when a store call failed on the way. */
  datatype Op =
    | Grant(k: Key, installTime: Time, updateTime: Time, now: Time, ok: bool)
    | Remove(w: Where, ok: bool)
    | CleanExpired(uid: int32, now: Time, ok: bool)

  function GrantRow(k: Key, installTime: Time, updateTime: Time, now: Time): Row {
    Row(k, installTime, updateTime, now, PERIOD_SET)
  }

  function Apply(t: seq<Row>, op: Op): seq<Row> {
    match op
    case Grant(k, installTime, updateTime, now, ok) =>
      if ok && k.uid != CONSOLE then Upsert(t, GrantRow(k, installTime, updateTime, now)) else t
    case Remove(w, ok) => if ok then Delete(t, w) else t
    case CleanExpired(uid, now, ok) => if ok then Delete(t, RequestedBefore(uid, Threshold(now))) else t
  }

  function Run(t: seq<Row>, ops: seq<Op>): seq<Row> {
    if ops == [] then t else Apply(Run(t, ops[..|ops| - 1]), ops[|ops| - 1])
  }

  // ---- One row per key ------------------------------------------------------------------------------------

  ghost predicate UniqueKeys(t: seq<Row>) {
    forall m, n :: 0 <= m < n < |t| ==> t[m].key != t[n].key
  }

  lemma {:induction false} DeleteUnique(t: seq<Row>, w: Where)
    requires UniqueKeys(t)
    ensures UniqueKeys(Delete(t, w))
  {
    if t != [] {
      var front, last := t[..|t| - 1], t[|t| - 1];
      DeleteUnique(front, w);
      forall r | r in Delete(front, w) ensures r.key != last.key {
        var n :| 0 <= n < |front| && front[n] == r;
        assert t[n] == r;
      }
    }
  }

  lemma UpsertUnique(t: seq<Row>, row: Row)
    requires UniqueKeys(t)
    ensures UniqueKeys(Upsert(t, row))
  {
    if !KeyIn(t, row.key) {
      forall n | 0 <= n < |t| ensures t[n].key != row.key { assert t[n] in t; }
    }
  }

  lemma {:induction false} UniqueAlways(ops: seq<Op>)
    ensures UniqueKeys(Run([], ops))
  {
    if ops != [] {
      var front, op := ops[..|ops| - 1], ops[|ops| - 1];
      UniqueAlways(front);
      match op {
        case Grant(k, i, u, now, ok) => UpsertUnique(Run([], front), GrantRow(k, i, u, now));
        case Remove(w, ok) => DeleteUnique(Run([], front), w);
        case CleanExpired(uid, now, ok) => DeleteUnique(Run([], front), RequestedBefore(uid, Threshold(now)));
      }
    }
  }

  // ---- Normal clean-up is not visible ---------------------------------------------------------------------

  /** The periods that normal clean-up handles without anyone noticing. */
  predicate Tame(period: Time) {
    period == 0xFFFF_FFFF || period <= 0x1000_0000
  }

  /** Only rows that are expired now, and stay expired, are selected: exactly for the tame periods. */
  lemma SelectsOnlyDeadIff(period: Time)
    ensures Tame(period) <==>
            forall r: Row, now: Time, later: Time ::
              r.validPeriod == period && now <= later && Selects(RequestedBefore(r.key.uid, Threshold(now)), r)
              ==> Expired(r, later)
  {
    if !Tame(period) {
      var r := Row(Key(1, "", "", ""), 0, 0, 0, period);
      var now: Time := PERIOD_SET + 1;
      assert Selects(RequestedBefore(r.key.uid, Threshold(now)), r) && !Expired(r, now);
    }
  }

  /** Cleaning up at `now` changes no answer from `now` on, whether or not `now` exceeds the standard period. */
  lemma CleanUpInvisible(t: seq<Row>, uid: int32, now: Time, k: Key, later: Time)
    requires forall r :: r in t ==> Tame(r.validPeriod)
    requires now <= later
    ensures HasRight(Apply(t, CleanExpired(uid, now, true)), k, later) <==> HasRight(t, k, later)
  {
    forall r | r in t && Selects(RequestedBefore(uid, Threshold(now)), r) ensures Expired(r, later) {
      SelectsOnlyDeadIff(r.validPeriod);
    }
  }

  /** Any other period gives a table whose answers clean-up changes. */
  lemma CleanUpVisible(period: Time, k: Key)
    requires !Tame(period) && k.uid != CONSOLE
    ensures var t := [Row(k, 0, 0, 0, period)];
            var now: Time := PERIOD_SET + 1;
            HasRight(t, k, now) && !HasRight(Apply(t, CleanExpired(k.uid, now, true)), k, now)
  {
    var r := Row(k, 0, 0, 0, period);
    assert r in [r] && !Expired(r, PERIOD_SET + 1);
    assert Selects(RequestedBefore(k.uid, Threshold(PERIOD_SET + 1)), r);
  }

  // ---- What a grant is worth ------------------------------------------------------------------------------

  /** The request neither rewrites nor deletes `row`. */
  predicate Keeps(op: Op, row: Row) {
    match op
    case Grant(k, _, _, _, ok) => ok && k.uid != CONSOLE ==> k != row.key
    case Remove(w, ok) => ok ==> !Selects(w, row)
    case CleanExpired(uid, now, ok) => ok ==> !Selects(RequestedBefore(uid, Threshold(now)), row)
  }

  predicate Grants(op: Op, row: Row) {
    && op.Grant? && op.ok && op.k.uid != CONSOLE && row == GrantRow(op.k, op.installTime, op.updateTime, op.now)
  }

  lemma UpsertExact(t: seq<Row>, row: Row, r: Row)
    ensures r in Upsert(t, row) <==> r == row || (r in t && r.key != row.key)
  {
    var t' := Upsert(t, row);
    if KeyIn(t, row.key) {
      var found :| found in t && found.key == row.key;
      var n :| 0 <= n < |t| && t[n] == found;
      assert t'[n] == row;
      if r in t' {
        var m :| 0 <= m < |t'| && t'[m] == r;
        assert t[m] in t;
      }
      if r in t && r.key != row.key {
        var m :| 0 <= m < |t| && t[m] == r;
        assert t'[m] == r;
      }
    }
  }

  /** The request number `g` granted `row`, and none since has rewritten or deleted it. */
  ghost predicate GrantedAt(ops: seq<Op>, g: nat, row: Row) {
    g < |ops| && Grants(ops[g], row) && forall n :: g < n < |ops| ==> Keeps(ops[n], row)
  }

  lemma {:induction false} RowIsHistory(ops: seq<Op>, row: Row)
    ensures row in Run([], ops) <==> exists g :: GrantedAt(ops, g, row)
  {
    if ops != [] {
      var front, last := ops[..|ops| - 1], |ops| - 1;
      RowIsHistory(front, row);
      if Grants(ops[last], row) {
        assert GrantedAt(ops, last, row);
      }
      assert forall g: nat :: g < last ==>
        (GrantedAt(ops, g, row) <==> GrantedAt(front, g, row) && Keeps(ops[last], row));
      if ops[last].Grant? && ops[last].ok && ops[last].k.uid != CONSOLE {
        var op := ops[last];
        UpsertExact(Run([], front), GrantRow(op.k, op.installTime, op.updateTime, op.now), row);
      }
    }
  }

  /** Whoever has a right has it from a grant less than the standard period ago that no request has undone since. */
  lemma RightIsHistory(ops: seq<Op>, k: Key, now: Time)
    ensures HasRight(Run([], ops), k, now)
            <==> k.uid == CONSOLE
                 || exists g, row :: GrantedAt(ops, g, row) && row.key == k
                                     && row.requestTime <= now < row.requestTime + 0x0FFF_FFFF
  {
    var t := Run([], ops);
    if r :| r in t && r.key == k && !Expired(r, now) {
      RowIsHistory(ops, r);
    }
    if g, row :| GrantedAt(ops, g, row) && row.key == k && row.requestTime <= now < row.requestTime + PERIOD_SET {
      RowIsHistory(ops, row);
      assert !Expired(row, now);
    }
  }

  /** After any requests from an empty table, normal clean-up changes no answer from `now` on. */
  lemma CleanUpInvisibleAlways(ops: seq<Op>, uid: int32, now: Time, k: Key, later: Time)
    requires now <= later
    ensures HasRight(Run([], ops + [CleanExpired(uid, now, true)]), k, later) <==> HasRight(Run([], ops), k, later)
  {
    forall r | r in Run([], ops) ensures Tame(r.validPeriod) {
      RowIsHistory(ops, r);
    }
    CleanUpInvisible(Run([], ops), uid, now, k, later);
    assert (ops + [CleanExpired(uid, now, true)])[..|ops|] == ops;
  }

  /** Requests that neither rewrite nor delete `row`, except that clean-up may run while the clock has not passed
      `until`. */
  predicate Spares(op: Op, row: Row, until: Time) {
    Keeps(op, row) || (op.CleanExpired? && op.now <= until)
  }

  /** The only row of `k` that can be there is `row`, and it can only have gone because its time was over. */
  ghost predicate Stands(t: seq<Row>, row: Row, until: Time) {
    && (forall r :: r in t && r.key == row.key ==> r == row)
    && (row in t || until - row.requestTime >= PERIOD_SET)
  }

  lemma StandsKept(t: seq<Row>, op: Op, row: Row, until: Time)
    requires Stands(t, row, until) && Spares(op, row, until) && row.validPeriod == PERIOD_SET
    ensures Stands(Apply(t, op), row, until)
  {
    if op.Grant? && op.ok && op.k.uid != CONSOLE {
      var other := GrantRow(op.k, op.installTime, op.updateTime, op.now);
      var t' := Upsert(t, other);
      forall r | r in t' && r.key == row.key ensures r == row {
        var n :| 0 <= n < |t'| && t'[n] == r;
        assert n < |t| ==> t[n] in t;
      }
      if row in t {
        var n :| 0 <= n < |t| && t[n] == row;
        assert t'[n] == row;
      }
    }
  }

  lemma {:induction false} StandsThrough(t: seq<Row>, ops: seq<Op>, row: Row, until: Time)
    requires Stands(t, row, until) && row.validPeriod == PERIOD_SET
    requires forall n :: 0 <= n < |ops| ==> Spares(ops[n], row, until)
    ensures Stands(Run(t, ops), row, until)
  {
    if ops != [] {
      StandsThrough(t, ops[..|ops| - 1], row, until);
      StandsKept(Run(t, ops[..|ops| - 1]), ops[|ops| - 1], row, until);
    }
  }

  /** A grant at `now` is good exactly for the standard period from then on, whatever else happens to the table. */
  lemma {:induction false} GrantWindow(before: seq<Op>, k: Key, installTime: Time, updateTime: Time, now: Time,
                                       after: seq<Op>, until: Time)
    requires k.uid != CONSOLE
    requires forall n :: 0 <= n < |after| ==> Spares(after[n], GrantRow(k, installTime, updateTime, now), until)
    ensures var t := Apply(Run([], before), Grant(k, installTime, updateTime, now, true));
            HasRight(Run(t, after), k, until) <==> now <= until < now + 0x0FFF_FFFF
  {
    var t0, row := Run([], before), GrantRow(k, installTime, updateTime, now);
    var t := Upsert(t0, row);
    forall r | r in t && r.key == k ensures r == row {
      var n :| 0 <= n < |t| && t[n] == r;
      assert n < |t0| ==> t0[n] in t0;
    }
    assert row in t by {
      if KeyIn(t0, k) {
        var r :| r in t0 && r.key == k;
        var n :| 0 <= n < |t0| && t0[n] == r;
        assert t[n] == row;
      }
    }
    StandsThrough(t, after, row, until);
  }

  // ---- Installing an app again ----------------------------------------------------------------------------

  /** Every row of the app was granted under this installation. */
  ghost predicate Current(t: seq<Row>, uid: int32, bundle: string, installTime: Time) {
    forall s :: s in t && s.key.uid == uid && s.key.bundle == bundle ==> s.installTime == installTime
  }

  /** What is left when the rows of the user's apps go by app, unless all of them are current. */
  ghost predicate CurrentOnly(t: seq<Row>, uid: int32, installed: map<string, Time>, left: seq<Row>) {
    forall r :: r in left <==>
      && r in t
      && (r.key.uid == uid ==>
            r.key.bundle in installed && Current(t, uid, r.key.bundle, installed[r.key.bundle]))
  }

  /** After such a clean-up a grant is still good, within its time, if and only if the app has not been installed again
      since, and no older row of it is from another installation. */
  lemma GrantOutlivesCleanUpIff(before: seq<Row>, granted: seq<Row>, left: seq<Row>, k: Key, installTime: Time,
                                updateTime: Time, now: Time, installed: map<string, Time>, later: Time)
    requires k.uid != 0 && k.bundle in installed && CurrentOnly(granted, k.uid, installed, left)
    requires forall r :: r in granted <==>
               r == Row(k, installTime, updateTime, now, 0x0FFF_FFFF) || (r in before && r.key != k)
    ensures HasRight(left, k, later) <==>
            now <= later < now + 0x0FFF_FFFF && installTime == installed[k.bundle]
            && forall s :: s in before && s.key != k && s.key.uid == k.uid && s.key.bundle == k.bundle ==>
                 s.installTime == installTime
  {
    var row := Row(k, installTime, updateTime, now, 0x0FFF_FFFF);
    HasRightIff(left, k, later);
    assert row in granted;
    assert forall r :: r in left && r.key == k ==> r == row;
    assert row in left <==> Current(granted, k.uid, k.bundle, installed[k.bundle]);
  }

  /** A removal ends the right at once, at whatever time one asks. */
  lemma RemovalRevokes(t: seq<Row>, k: Key, now: Time)
    requires k.uid != CONSOLE
    ensures !HasRight(Apply(t, Remove(ByKey(k), true)), k, now)
  {
  }
}
