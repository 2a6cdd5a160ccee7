/** The right manager over a transactional store.  Any store call may fail; a failed call rolls the transaction back.
    Each operation is proved to have done its whole work on the table of `RightTable`, or nothing. */
module RightStore {
  import opened UsbTypes
  import opened RightTable

  const USB_RIGHT_OK := 0
  const USB_RIGHT_FAILURE := -1
  const USB_RIGHT_RDB_EXECUTE_FAILURE := -2
  const USB_RIGHT_RDB_EMPTY := -4
  const USB_RIGHT_NOP := -6

  /** Which store calls succeed during one operation, the row id an insertion is given, whether the shape of a result
      can be read, and which of its rows cannot. */
  datatype Faults = Faults(begin: bool, query: bool, write: bool, commit: bool, rollback: bool, rowId: Time,
                           table: bool, unread: set<Row>)

  /** A 64-bit value stored in a 32-bit variable. */
  function Narrow(n: Time): int32 {
    var low := n % TWO_32;
    if low < TWO_31 then low else low - TWO_32
  }

  /** The store: committed rows plus, inside a transaction, the rows to go back to. */
  class RightDatabase {
    var rows: seq<Row>
    var snapshot: Option<seq<Row>>

    constructor ()
      ensures rows == [] && Closed()
    {
      rows, snapshot := [], None;
    }

    predicate Closed()
      reads this
    {
      snapshot.None?
    }

    method BeginTransaction(ok: bool) returns (ret: int)
      modifies this
      ensures rows == old(rows)
      ensures if ok && old(Closed()) then ret == USB_RIGHT_OK && snapshot == Some(old(rows))
              else ret == USB_RIGHT_RDB_EXECUTE_FAILURE && snapshot == old(snapshot)
    {
      if !ok || snapshot.Some? {
        return USB_RIGHT_RDB_EXECUTE_FAILURE;
      }
      snapshot := Some(rows);
      ret := USB_RIGHT_OK;
    }

    method Commit(ok: bool) returns (ret: int)
      modifies this
      ensures rows == old(rows)
      ensures if ok then ret == USB_RIGHT_OK && Closed()
              else ret == USB_RIGHT_RDB_EXECUTE_FAILURE && snapshot == old(snapshot)
    {
      if !ok {
        return USB_RIGHT_RDB_EXECUTE_FAILURE;
      }
      snapshot := None;
      ret := USB_RIGHT_OK;
    }

    method RollBack(ok: bool) returns (ret: int)
      requires snapshot.Some?
      modifies this
      ensures if ok then ret == USB_RIGHT_OK && Closed() && rows == old(snapshot).value
              else ret == USB_RIGHT_RDB_EXECUTE_FAILURE && snapshot == old(snapshot) && rows == old(rows)
    {
      if !ok {
        return USB_RIGHT_RDB_EXECUTE_FAILURE;
      }
      rows, snapshot := snapshot.value, None;
      ret := USB_RIGHT_OK;
    }

    /** An operation can begin: the store agrees, and no failed rollback has left a transaction open. */
    predicate Begins(f: Faults)
      reads this
    {
      f.begin && Closed()
    }

    /** An operation that failed: untouched if it never began, else back to where it started if the rollback works. */
    twostate predicate Undone(f: Faults)
      reads this
    {
      if !old(Begins(f)) then rows == old(rows) && snapshot == old(snapshot)
      else if f.rollback then Closed() && rows == old(rows)
      else snapshot == Some(old(rows))
    }

    /** A question: the table stays, and a transaction is left open only by one whose rollback fails. */
    twostate predicate Asked(f: Faults)
      reads this
    {
      && rows == old(rows)
      && if f.rollback || !old(Begins(f)) || (f.query && f.commit) then snapshot == old(snapshot)
         else snapshot == Some(old(rows))
    }

    method Delete(w: Where, ok: bool) returns (ret: int, changedRows: int)
      modifies this`rows
      ensures if ok then ret == USB_RIGHT_OK && rows == RightTable.Delete(old(rows), w)
                         && changedRows == |old(rows)| - |rows|
              else ret == USB_RIGHT_RDB_EXECUTE_FAILURE && rows == old(rows) && changedRows == 0
    {
      if !ok {
        return USB_RIGHT_RDB_EXECUTE_FAILURE, 0;
      }
      var before := |rows|;
      rows := RightTable.Delete(rows, w);
      ret, changedRows := USB_RIGHT_OK, before - |rows|;
    }

    method Insert(row: Row, ok: bool, rowId: Time) returns (ret: int)
      modifies this`rows
      ensures if ok then ret == rowId && rows == old(rows) + [row]
              else ret == USB_RIGHT_RDB_EXECUTE_FAILURE && rows == old(rows)
    {
      if !ok {
        return USB_RIGHT_RDB_EXECUTE_FAILURE;
      }
      rows := rows + [row];
      ret := rowId;
    }

    method Update(row: Row, ok: bool) returns (ret: int)
      modifies this`rows
      ensures if ok then ret == USB_RIGHT_OK && rows == RightTable.Update(old(rows), row)
              else ret == USB_RIGHT_RDB_EXECUTE_FAILURE && rows == old(rows)
    {
      if !ok {
        return USB_RIGHT_RDB_EXECUTE_FAILURE;
      }
      rows := RightTable.Update(rows, row);
      ret := USB_RIGHT_OK;
    }
  }

  class RightManager {
    const db: RightDatabase

    constructor ()
      ensures fresh(db) && db.rows == [] && db.Closed()
    {
      db := new RightDatabase();
    }

    /** `AddOrUpdateRightRecord`: the row id of an insertion comes back through a 32-bit variable, and a negative
        one counts as a failure. */
    method AddOrUpdateRightRecord(row: Row, f: Faults) returns (ret: int)
      modifies db
      ensures ret >= 0 ==> db.Closed() && db.rows == Upsert(old(db.rows), row)
      ensures ret < 0 ==> db.Undone(f)
      ensures ret >= 0 <==> old(db.Begins(f)) && f.query && f.write && f.commit
                            && (KeyIn(old(db.rows), row.key) || f.rowId % 0x1_0000_0000 < 0x8000_0000)
    {
      ret := db.BeginTransaction(f.begin);
      if ret < USB_RIGHT_OK {
        return;
      }
      if !f.query {
        var _ := db.RollBack(f.rollback);
        return USB_RIGHT_RDB_EXECUTE_FAILURE;
      }
      var isUpdate := KeyIn(db.rows, row.key);
      if isUpdate {
        ret := db.Update(row, f.write);
      } else {
        ret := db.Insert(row, f.write, f.rowId);
        if f.write {
          ret := Narrow(ret);
        }
      }
      if ret < USB_RIGHT_OK {
        var _ := db.RollBack(f.rollback);
        return;
      }
      ret := db.Commit(f.commit);
      if ret < USB_RIGHT_OK {
        var _ := db.RollBack(f.rollback);
      }
    }

    /** `DeleteAndNoOtherOperation` with a where-clause: deleting nothing is reported as an error too. */
    method DeleteAndNoOtherOperation(w: Where, f: Faults) returns (ret: int)
      modifies db
      ensures ret == DeleteReply(old(db.Begins(f)), f, exists r :: r in old(db.rows) && Selects(w, r))
      ensures if old(db.Begins(f)) && f.write && f.commit then db.Closed() && db.rows == Delete(old(db.rows), w)
              else db.Undone(f)
    {
      DeletesIff(db.rows, w);
      DeleteShrinks(db.rows, w);
      ret := db.BeginTransaction(f.begin);
      if ret < USB_RIGHT_OK {
        return;
      }
      var changedRows;
      ret, changedRows := db.Delete(w, f.write);
      if ret < USB_RIGHT_OK {
        var _ := db.RollBack(f.rollback);
        return;
      }
      ret := db.Commit(f.commit);
      if ret < USB_RIGHT_OK {
        var _ := db.RollBack(f.rollback);
      }
      if changedRows <= 0 {
        return USB_RIGHT_RDB_EMPTY;
      }
    }

    /** The deletion by app list, which does not report empty deletions. */
    method DeleteAppsRightRecord(uid: int32, bundles: seq<string>, f: Faults) returns (ret: int)
      modifies db
      ensures if old(db.Begins(f)) && f.write && f.commit then
                && ret == USB_RIGHT_OK && db.Closed() && db.rows == Delete(old(db.rows), ByApps(uid, bundles))
                && forall r :: r in db.rows <==>
                               r in old(db.rows) && !(r.key.uid == uid && r.key.bundle in bundles)
              else
                ret < 0 && db.Undone(f)
    {
      ret := db.BeginTransaction(f.begin);
      if ret < USB_RIGHT_OK {
        return;
      }
      var changedRows;
      ret, changedRows := db.Delete(ByApps(uid, bundles), f.write);
      if ret < USB_RIGHT_OK {
        var _ := db.RollBack(f.rollback);
        return;
      }
      ret := db.Commit(f.commit);
      if ret < USB_RIGHT_OK {
        var _ := db.RollBack(f.rollback);
      }
    }

    // ---- Queries --------------------------------------------------------------------------------------------

    /** `QueryAndGetResult`: a transaction of its own, and then the rows of the result that can be read. */
    method QueryAndGetResult(w: Where, f: Faults) returns (infos: seq<Row>, ret: int)
      modifies db
      ensures db.Asked(f)
      ensures if old(db.Begins(f)) && f.query && f.commit && f.table then
                ret == |infos| && forall r :: r in infos <==> r in db.rows && Selects(w, r) && r !in f.unread
              else ret < 0
    {
      infos := [];
      ret := db.BeginTransaction(f.begin);
      if ret < USB_RIGHT_OK {
        return;
      }
      if !f.query {
        var _ := db.RollBack(f.rollback);
        return [], USB_RIGHT_RDB_EXECUTE_FAILURE;
      }
      ret := db.Commit(f.commit);
      if ret < USB_RIGHT_OK {
        var _ := db.RollBack(f.rollback);
        return;
      }
      if !f.table {
        return [], USB_RIGHT_RDB_EXECUTE_FAILURE;
      }
      infos := ReadRows(db.rows, w, f.unread);
      ret := |infos|;
    }

    /** The loop of `GetResultRightRecordEx`; a row that cannot be read is left out. */
    static method ReadRows(rows: seq<Row>, w: Where, unread: set<Row>) returns (infos: seq<Row>)
      ensures forall r :: r in infos <==> r in rows && Selects(w, r) && r !in unread
    {
      infos := [];
      for n := 0 to |rows|
        invariant forall r :: r in infos <==> r in rows[..n] && Selects(w, r) && r !in unread
      {
        assert rows[..n + 1] == rows[..n] + [rows[n]];
        if Selects(w, rows[n]) && rows[n] !in unread {
          infos := infos + [rows[n]];
        }
      }
      assert rows[..|rows|] == rows;
    }

    // ---- Manager operations ---------------------------------------------------------------------------------

    method AddDeviceRight(k: Key, installTime: Time, updateTime: Time, now: Time, f: Faults) returns (granted: bool)
      modifies db
      ensures granted <==> k.uid == CONSOLE
                           || (old(db.Begins(f)) && f.query && f.write && f.commit
                               && (KeyIn(old(db.rows), k) || f.rowId % 0x1_0000_0000 < 0x8000_0000))
      ensures if k.uid == CONSOLE then unchanged(db) else granted ==> db.Closed()
      ensures granted || f.rollback || !old(db.Begins(f)) ==>
                db.rows == Apply(old(db.rows), Grant(k, installTime, updateTime, now, granted))
      ensures k.uid != CONSOLE && granted ==>
                forall r :: r in db.rows <==>
                  r == Row(k, installTime, updateTime, now, 0x0FFF_FFFF) || (r in old(db.rows) && r.key != k)
      ensures !granted ==> db.Undone(f)
    {
      if k.uid == CONSOLE {
        return true;
      }
      var row := GrantRow(k, installTime, updateTime, now);
      ghost var was := db.rows;
      var ret := AddOrUpdateRightRecord(row, f);
      granted := ret >= 0;
      forall r ensures r in Upsert(was, row) <==> r == row || (r in was && r.key != row.key) {
        UpsertExact(was, row, r);
      }
    }

    method RemoveDeviceRight(k: Key, f: Faults) returns (removed: bool)
      modifies db
      ensures removed <==> k.uid == CONSOLE
                           || (old(db.Begins(f)) && f.write && f.commit && KeyIn(old(db.rows), k))
      ensures if k.uid == CONSOLE then unchanged(db)
              else if old(db.Begins(f)) && f.write && f.commit then
                && db.Closed() && db.rows == Apply(old(db.rows), Remove(ByKey(k), true))
                && forall r :: r in db.rows <==> r in old(db.rows) && r.key != k
              else db.Undone(f)
      ensures !removed && (f.rollback || !old(db.Begins(f)) || (f.write && f.commit)) ==>
                db.rows == old(db.rows) && db.snapshot == old(db.snapshot)
    {
      if k.uid == CONSOLE {
        return true;
      }
      DeletesIff(db.rows, ByKey(k));
      var ret := DeleteAndNoOtherOperation(ByKey(k), f);
      removed := ret >= 0;
    }

    method CleanUpRightNormalExpired(uid: int32, now: Time, f: Faults) returns (ret: int)
      modifies db
      ensures ret == DeleteReply(old(db.Begins(f)), f,
                                 exists r :: r in old(db.rows) && Selects(RequestedBefore(uid, Threshold(now)), r))
      ensures if old(db.Begins(f)) && f.write && f.commit then
                && db.Closed() && db.rows == Apply(old(db.rows), CleanExpired(uid, now, true))
                && forall r :: r in db.rows <==>
                     r in old(db.rows) && !(r.key.uid == uid && r.requestTime < now - 0x0FFF_FFFF
                                            && r.validPeriod !in {0, 0xFFFF_FFFF})
              else db.Undone(f)
    {
      ret := DeleteAndNoOtherOperation(RequestedBefore(uid, Threshold(now)), f);
    }

    method CleanUpRightTemporaryExpired(device: string, f: Faults) returns (ret: int)
      modifies db
      ensures ret == DeleteReply(old(db.Begins(f)), f,
                                 exists r :: r in old(db.rows) && Selects(ByPeriod(PERIOD_TEMPORARY, device), r))
      ensures if old(db.Begins(f)) && f.write && f.commit then
                && db.Closed() && db.rows == Apply(old(db.rows), Remove(ByPeriod(PERIOD_TEMPORARY, device), true))
                && forall r :: r in db.rows <==> r in old(db.rows) && !(r.validPeriod == 0 && r.key.device == device)
              else db.Undone(f)
    {
      ret := DeleteAndNoOtherOperation(ByPeriod(PERIOD_TEMPORARY, device), f);
    }

    method CleanUpRightUserStopped(uid: int32, f: Faults) returns (ret: int)
      modifies db
      ensures ret == DeleteReply(old(db.Begins(f)), f, exists r :: r in old(db.rows) && Selects(ByUser(uid), r))
      ensures if old(db.Begins(f)) && f.write && f.commit then
                && db.Closed() && db.rows == Apply(old(db.rows), Remove(ByUser(uid), true))
                && forall r :: r in db.rows <==> r in old(db.rows) && r.key.uid != uid
              else db.Undone(f)
    {
      ret := DeleteAndNoOtherOperation(ByUser(uid), f);
    }

    /** The answer goes by the rows that the query could read; if it failed, the answer is no. */
    method HasRight(k: Key, now: Time, f: Faults) returns (has: bool)
      modifies db
      ensures if k.uid == CONSOLE then unchanged(db) else db.Asked(f)
      ensures has <==> k.uid == CONSOLE
                       || (old(db.Begins(f)) && f.query && f.commit && f.table
                           && exists r :: r in db.rows && r.key == k && r !in f.unread && !Expired(r, now))
      ensures old(db.Begins(f)) && f.query && f.commit && f.table && f.unread == {} ==>
                has == RightTable.HasRight(old(db.rows), k, now)
    {
      if k.uid == CONSOLE {
        return true;
      }
      var infos, ret := QueryRightRecord(k, f);
      if ret <= 0 {
        return false;
      }
      for n := 0 to |infos|
        invariant forall m :: 0 <= m < n ==> Expired(infos[m], now)
      {
        if !Expired(infos[n], now) {
          assert infos[n] in infos;
          return true;
        }
      }
      has := false;
    }

    method QueryRightRecord(k: Key, f: Faults) returns (infos: seq<Row>, ret: int)
      modifies db
      ensures db.Asked(f)
      ensures if old(db.Begins(f)) && f.query && f.commit && f.table then
                ret == |infos| && forall r :: r in infos <==> r in db.rows && r.key == k && r !in f.unread
              else ret < 0
    {
      infos, ret := QueryAndGetResult(ByKey(k), f);
    }

    /** The apps of a user, each once, as far as their names can be read. */
    method QueryRightRecordApps(uid: int32, f: Faults) returns (apps: set<string>, ret: int)
      modifies db
      ensures db.Asked(f)
      ensures if old(db.Begins(f)) && f.query && f.commit && f.table then
                ret == |apps| && apps == set r | r in db.rows && r.key.uid == uid && r !in f.unread :: r.key.bundle
              else ret < 0
    {
      var infos;
      infos, ret := QueryAndGetResult(ByUser(uid), f);
      apps := set r | r in infos :: r.key.bundle;
      if ret >= 0 {
        assert apps == set r | r in db.rows && r.key.uid == uid && r !in f.unread :: r.key.bundle;
        ret := |apps|;
      }
    }

    /** Whether an app has a row from before its current installation, as far as its rows can be read. */
    method IsStale(uid: int32, bundle: string, installTime: Time, f: Faults) returns (stale: bool, ret: int)
      modifies db
      ensures db.Asked(f)
      ensures ret >= 0 <==> old(db.Begins(f)) && f.query && f.commit && f.table
      ensures ret >= 0 ==>
                (stale <==> exists r :: r in db.rows && r !in f.unread && OutOfDate(r, uid, bundle, installTime))
    {
      var infos;
      infos, ret := QueryAndGetResult(ByApps(uid, [bundle]), f);
      stale := false;
      for n := 0 to |infos|
        invariant stale <==> exists m :: 0 <= m < n && OutOfDate(infos[m], uid, bundle, installTime)
      {
        if OutOfDate(infos[n], uid, bundle, installTime) {
          stale := true;
        }
      }
      if ret >= 0 {
        forall r | r in db.rows && r !in f.unread && OutOfDate(r, uid, bundle, installTime) ensures r in infos {
          assert Selects(ByApps(uid, [bundle]), r);
        }
        assert stale ==> exists r :: r in infos && OutOfDate(r, uid, bundle, installTime);
      }
    }

    /** Rows of apps that were installed again since the grant are dropped, all rows of such an app together.
        `installed` gives the current installation times; an app it does not know, or whose rows cannot be queried,
        stops the clean-up. `list` is the weather of the query for the apps, `each` that of the query for one app. */
    method CleanUpRightAppReinstalled(uid: int32, installed: map<string, Time>, list: Faults, each: string -> Faults,
                                      f: Faults) returns (ret: int)
      modifies db
      ensures ret == USB_RIGHT_OK ==>
                db.Closed()
                && forall r :: r in db.rows
                               <==> r in old(db.rows) && !Dropped(old(db.rows), uid, installed, list, each, r)
      ensures ret == USB_RIGHT_OK && AllReadable(list, each) ==>
                CurrentOnly(old(db.rows), uid, installed, db.rows)
      ensures ret == USB_RIGHT_OK ==>
                exists bundles :: db.rows == Apply(old(db.rows), Remove(ByApps(uid, bundles), true))
      ensures ret != USB_RIGHT_OK && f.rollback ==> db.rows == old(db.rows)
      ensures ret != USB_RIGHT_OK ==>
                (db.rows == old(db.rows) && db.snapshot == old(db.snapshot))
                || (db.snapshot == Some(old(db.rows)) && SomeRollbackFails(list, each, f))
      ensures old(db.Begins(list)) && list.query && list.commit && list.table
              && f.begin && f.write && f.commit && AppsOf(old(db.rows), uid) <= installed.Keys
              && (forall b :: b in AppsOf(old(db.rows), uid) ==> Answers(each(b))) ==>
                ret == USB_RIGHT_OK || (ret == USB_RIGHT_NOP && Found(old(db.rows), uid, list) == {})
    {
      var apps;
      apps, ret := QueryRightRecordApps(uid, list);
      if ret <= 0 {
        return USB_RIGHT_NOP;
      }
      var deleteBundleNames: seq<string> := [];
      var rest := apps;
      while rest != {}
        invariant rest <= apps && db.rows == old(db.rows) && apps == Found(old(db.rows), uid, list)
        invariant apps - rest <= installed.Keys
        invariant forall b :: b in apps - rest ==> Answers(each(b))
        invariant db.Closed()
        invariant forall b :: b in deleteBundleNames <==>
                    b in apps - rest && SeenStale(db.rows, uid, b, installed[b], each(b))
      {
        var bundleName :| bundleName in rest;
        if bundleName !in installed {
          return USB_RIGHT_FAILURE;
        }
        var stale;
        stale, ret := IsStale(uid, bundleName, installed[bundleName], each(bundleName));
        if ret < 0 {
          return USB_RIGHT_FAILURE;
        }
        rest := rest - {bundleName};
        if stale {
          deleteBundleNames := deleteBundleNames + [bundleName];
        }
      }
      ret := DeleteAppsRightRecord(uid, deleteBundleNames, f);
      assert ret == USB_RIGHT_OK ==>
        db.rows == Apply(old(db.rows), Remove(ByApps(uid, deleteBundleNames), true));
      if ret == USB_RIGHT_OK && AllReadable(list, each) {
        DroppedUnlessCurrent(old(db.rows), db.rows, uid, installed, list, each);
      }
    }
  }

  ghost predicate AllReadable(list: Faults, each: string -> Faults) {
    list.unread == {} && forall b :: each(b).unread == {}
  }

  lemma DroppedUnlessCurrent(t: seq<Row>, left: seq<Row>, uid: int32, installed: map<string, Time>, list: Faults,
                             each: string -> Faults)
    requires AllReadable(list, each) && Found(t, uid, list) <= installed.Keys
    requires forall r :: r in left <==> r in t && !Dropped(t, uid, installed, list, each, r)
    ensures CurrentOnly(t, uid, installed, left)
  {
    forall r | r in t && r.key.uid == uid
      ensures r.key.bundle in installed
      ensures Dropped(t, uid, installed, list, each, r)
              <==> !Current(t, uid, r.key.bundle, installed[r.key.bundle])
    {
      assert r.key.bundle in Found(t, uid, list);
      if s :| s in t && s.key.uid == uid && s.key.bundle == r.key.bundle
              && s.installTime != installed[r.key.bundle] {
        assert SeenStale(t, uid, r.key.bundle, installed[r.key.bundle], each(r.key.bundle));
      }
    }
  }

  /** Every call of the store succeeds and every row can be read. */
  predicate FairWeather(f: Faults) {
    f.begin && f.query && f.write && f.commit && f.rollback && f.table && f.unread == {}
    && f.rowId % 0x1_0000_0000 < 0x8000_0000
  }

  /** A grant, a clean-up after an installation, and a question. */
  method AskAfterInstallation(m: RightManager, k: Key, installTime: Time, updateTime: Time, now: Time,
                              installed: map<string, Time>, later: Time, f: Faults) returns (has: bool)
    requires m.db.Closed() && FairWeather(f) && k.uid != 0 && k.bundle in installed
    requires forall r :: r in m.db.rows && r.key.uid == k.uid ==> r.key.bundle in installed
    modifies m.db
    ensures has <==>
            now <= later < now + 0x0FFF_FFFF && installTime == installed[k.bundle]
            && forall s :: s in old(m.db.rows) && s.key != k && s.key.uid == k.uid && s.key.bundle == k.bundle ==>
                 s.installTime == installTime
  {
    ghost var before := m.db.rows;
    var _ := m.AddDeviceRight(k, installTime, updateTime, now, f);
    ghost var granted := m.db.rows;
    assert Row(k, installTime, updateTime, now, 0x0FFF_FFFF) in granted;
    var ret := m.CleanUpRightAppReinstalled(k.uid, installed, f, (b: string) => f, f);
    assert k.bundle in Found(granted, k.uid, f);
    has := m.HasRight(k, later, f);
    GrantOutlivesCleanUpIff(before, granted, m.db.rows, k, installTime, updateTime, now, installed, later);
  }

  /** The code of a deletion. */
  function DeleteReply(began: bool, f: Faults, selected: bool): int {
    if !began || !f.write then USB_RIGHT_RDB_EXECUTE_FAILURE
    else if !selected then USB_RIGHT_RDB_EMPTY
    else if !f.commit then USB_RIGHT_RDB_EXECUTE_FAILURE
    else USB_RIGHT_OK
  }

  /** A query in a store with no open transaction succeeds. */
  predicate Answers(f: Faults) {
    f.begin && f.query && f.commit && f.table
  }

  ghost predicate SomeRollbackFails(list: Faults, each: string -> Faults, f: Faults) {
    !list.rollback || !f.rollback || !forall b :: each(b).rollback
  }

  function Found(t: seq<Row>, uid: int32, list: Faults): set<string> {
    set r | r in t && r.key.uid == uid && r !in list.unread :: r.key.bundle
  }

  function AppsOf(t: seq<Row>, uid: int32): set<string> {
    set r | r in t && r.key.uid == uid :: r.key.bundle
  }

  predicate OutOfDate(r: Row, uid: int32, bundle: string, installTime: Time) {
    r.key.uid == uid && r.key.bundle == bundle && r.installTime != installTime
  }

  predicate SeenStale(t: seq<Row>, uid: int32, bundle: string, installTime: Time, f: Faults) {
    exists r :: r in t && r !in f.unread && OutOfDate(r, uid, bundle, installTime)
  }

  /** `r` belongs to an app of the user that was found and has a readable row from before its current installation. */
  predicate Dropped(t: seq<Row>, uid: int32, installed: map<string, Time>, list: Faults, each: string -> Faults,
                    r: Row)
  {
    && r.key.uid == uid && r.key.bundle in Found(t, uid, list) && r.key.bundle in installed
    && SeenStale(t, uid, r.key.bundle, installed[r.key.bundle], each(r.key.bundle))
  }

  /** A deletion deletes nothing exactly when nothing is selected. */
  lemma {:induction false} DeletesIff(t: seq<Row>, w: Where)
    ensures |Delete(t, w)| == |t| <==> Delete(t, w) == t
    ensures Delete(t, w) == t <==> forall r :: r in t ==> !Selects(w, r)
  {
    if t != [] {
      DeletesIff(t[..|t| - 1], w);
      DeleteShrinks(t[..|t| - 1], w);
      assert t == t[..|t| - 1] + [t[|t| - 1]];
    }
  }

  lemma {:induction false} DeleteShrinks(t: seq<Row>, w: Where)
    ensures |Delete(t, w)| <= |t|
  {
    if t != [] {
      DeleteShrinks(t[..|t| - 1], w);
    }
  }
}
