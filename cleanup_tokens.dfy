/**
 * The maintenance script that purges expired refresh tokens: count the
 * expired rows, delete them if there are any, then report the total and the
 * still-active counts. The script's separate clock readings are one `now`.
 */
module CleanupTokens {
  import opened RefreshTokenSchema
  import opened Query
  import opened SessionStore

  /** The figures the script logs. `deletedCount` is 0 when no deletion ran. */
  datatype SweepReport = SweepReport(expiredCount: nat, deletedCount: nat, totalTokens: nat, activeTokens: nat)

  /** `cleanupExpiredTokens`, as a function of the table before it runs. */
  function Sweep(db: Db, now: Time): (r: (SweepReport, Db))
    ensures r.0.deletedCount == r.0.expiredCount
    ensures r.0.totalTokens == |r.1.rows| && r.0.activeTokens <= r.0.totalTokens
    ensures forall s :: s in r.1.rows ==> s in db.rows
    ensures r.1.nextId == db.nextId
  {
    var expiredCount := |Where(db.rows, ExpiresBefore(now))|;
    var swept := if expiredCount == 0 then (0, db) else DeleteWhere(db, ExpiresBefore(now));
    var after := swept.1;
    (SweepReport(expiredCount, swept.0, |after.rows|, |Where(after.rows, ExpiresAfter(now))|), after)
  }

  method CleanupExpiredTokens(store: Store, now: Time) returns (report: SweepReport)
    requires store.Valid()
    modifies store
    ensures store.Valid()
    ensures (report, store.State()) == Sweep(old(store.State()), now)
  {
    var expiredCount := store.Count(ExpiresBefore(now));
    var deletedCount := 0;
    if expiredCount != 0 {
      deletedCount := store.Destroy(ExpiresBefore(now));
    }
    var totalTokens := store.CountAll();
    var activeTokens := store.Count(ExpiresAfter(now));
    report := SweepReport(expiredCount, deletedCount, totalTokens, activeTokens);
  }

  /**
   * The sweep deletes exactly the rows that expired strictly before `now`;
   * every other row, including one expiring at `now`, is kept unchanged.
   */
  lemma SweepDeletesExactlyExpired(db: Db, now: Time)
    requires Consistent(db)
    ensures var after := Sweep(db, now).1;
      && Consistent(after)
      && after.nextId == db.nextId
      && (forall s :: s in after.rows <==> s in db.rows && s.expiresAt >= now)
  {
    NothingExpiredLeft(db, now);
  }

  /** Whether or not the deletion ran, no row expiring before `now` is left. */
  lemma NothingExpiredLeft(db: Db, now: Time)
    ensures forall s :: s in Sweep(db, now).1.rows ==> s in db.rows && s.expiresAt >= now
  {
    if |Where(db.rows, ExpiresBefore(now))| == 0 {
      assert Where(db.rows, ExpiresBefore(now)) == [];
    }
  }

  /**
   * The number deleted is the number counted beforehand, and the total left
   * is the total before less the number deleted.
   */
  lemma SweepCountsAgree(db: Db, now: Time)
    ensures var r := Sweep(db, now);
      && r.0.expiredCount == |Where(db.rows, ExpiresBefore(now))|
      && r.0.deletedCount == r.0.expiredCount
      && r.0.totalTokens + r.0.deletedCount == |db.rows|
  {
  }

  /** When nothing has expired, no deletion runs and the table is untouched. */
  lemma SweepWithNothingExpired(db: Db, now: Time)
    requires forall s :: s in db.rows ==> s.expiresAt >= now
    ensures var r := Sweep(db, now);
      r.0.expiredCount == 0 && r.0.deletedCount == 0 && r.1 == db && r.0.totalTokens == |db.rows|
  {
    WhereNone(db.rows, ExpiresBefore(now));
  }

  /** A second sweep at the same `now` deletes nothing and changes nothing. */
  lemma SweepIsIdempotent(db: Db, now: Time)
    ensures var first := Sweep(db, now);
      var second := Sweep(first.1, now);
      second.0.deletedCount == 0 && second.1 == first.1
  {
    var first := Sweep(db, now);
    NothingExpiredLeft(db, now);
    SweepWithNothingExpired(first.1, now);
  }

  /**
   * "Active" counts rows expiring strictly after `now` while the sweep only
   * deletes rows expiring strictly before it: the rows left but not counted
   * active are exactly those expiring at `now`, so the active count equals
   * the total exactly when no row expires at `now`.
   */
  lemma SweepActiveBoundary(db: Db, now: Time)
    ensures var r := Sweep(db, now);
      && r.0.activeTokens <= r.0.totalTokens
      && r.0.totalTokens - r.0.activeTokens == |Where(r.1.rows, Not(ExpiresAfter(now)))|
      && (forall s :: s in r.1.rows && !Matches(s, ExpiresAfter(now)) ==> s.expiresAt == now)
      && (r.0.activeTokens == r.0.totalTokens <==> forall s :: s in db.rows ==> s.expiresAt != now)
  {
    var r := Sweep(db, now);
    WherePartition(r.1.rows, ExpiresAfter(now));
    NothingExpiredLeft(db, now);
    if forall s :: s in db.rows ==> s.expiresAt != now {
      WhereNone(r.1.rows, Not(ExpiresAfter(now)));
    } else {
      var s :| s in db.rows && s.expiresAt == now;
      assert s in r.1.rows;
      assert s in Where(r.1.rows, Not(ExpiresAfter(now)));
    }
  }
}
