/**
 * The persistent `refresh_tokens` table as the controllers and the cleanup
 * script see it through the ORM: `create`, `findOne`, `findAll`, `destroy`
 * and `count`, each a single statement against the table.
 */
module SessionStore {
  import opened Wrappers
  import opened RefreshTokenSchema
  import opened Query

  /** The table's rows and the id the next insert receives. */
  datatype Db = Db(rows: seq<Session>, nextId: nat)

  ghost predicate Consistent(db: Db) {
    WellFormed(db.rows, db.nextId)
  }

  /** What `create` yields: the new row, or the unique-index violation it raises. */
  datatype Created = Created(record: Session) | UniqueViolation

  /**
   * `RefreshToken.create`: appends a row with a fresh id and `created_at`
   * set to `now`, unless the token is already stored.
   */
  function InsertRow(db: Db, userId: UserId, token: Token, expiresAt: Time,
                     deviceInfo: Option<string>, now: Time): (r: (Created, Db))
    ensures r.0.Created? <==> forall s :: s in db.rows ==> s.token != token
    ensures r.0.UniqueViolation? ==> r.1 == db
    ensures r.0.Created? ==>
      var s := r.0.record;
      && r.1.rows == db.rows + [s]
      && s.userId == userId && s.token == token && s.expiresAt == expiresAt
      && s.deviceInfo == deviceInfo && s.createdAt == now
      && (Consistent(db) ==> forall old_s :: old_s in db.rows ==> old_s.id != s.id)
    ensures Consistent(db) ==> Consistent(r.1)
  {
    if FindFirst(db.rows, TokenIs(token)).Some? then (UniqueViolation, db)
    else
      var s := Session(db.nextId, userId, token, expiresAt, deviceInfo, now);
      AppendKeepsConsistent(db, s);
      (Created(s), Db(db.rows + [s], db.nextId + 1))
  }

  lemma AppendKeepsConsistent(db: Db, s: Session)
    requires s.id == db.nextId && forall x :: x in db.rows ==> x.token != s.token
    ensures Consistent(db) ==> Consistent(Db(db.rows + [s], db.nextId + 1))
  {
    if Consistent(db) {
      var rows := db.rows + [s];
      forall i, j | 0 <= i < j < |rows|
        ensures rows[i].token != rows[j].token && rows[i].id != rows[j].id
      {
        assert rows[i] == db.rows[i];
        if j == |db.rows| {
          assert rows[i] in db.rows;
        } else {
          assert rows[j] == db.rows[j];
        }
      }
    }
  }

  /**
   * `RefreshToken.destroy({ where })`: removes exactly the rows matching the
   * clause and yields how many it removed.
   */
  function DeleteWhere(db: Db, where: Cond): (r: (nat, Db))
    ensures forall s :: s in r.1.rows <==> s in db.rows && !Matches(s, where)
    ensures r.0 + |r.1.rows| == |db.rows|
    ensures r.0 == |Where(db.rows, where)|
    ensures r.1.nextId == db.nextId
    ensures Consistent(db) ==> Consistent(r.1)
  {
    WherePartition(db.rows, where);
    DeleteKeepsConsistent(db, Not(where));
    (|Where(db.rows, where)|, Db(Where(db.rows, Not(where)), db.nextId))
  }

  lemma DeleteKeepsConsistent(db: Db, keep: Cond)
    ensures Consistent(db) ==> Consistent(Db(Where(db.rows, keep), db.nextId))
  {
    if Consistent(db) {
      WhereKeepsKeys(db.rows, keep);
    }
  }

  /** The shared table, updated in place by every operation. */
  class Store {
    var rows: seq<Session>
    var nextId: nat

    function State(): Db
      reads this
    {
      Db(rows, nextId)
    }

    ghost predicate Valid()
      reads this
    {
      Consistent(State())
    }

    constructor ()
      ensures Valid() && State() == Db([], 0)
    {
      rows := [];
      nextId := 0;
    }

    method Create(userId: UserId, token: Token, expiresAt: Time,
                  deviceInfo: Option<string>, now: Time) returns (c: Created)
      requires Valid()
      modifies this
      ensures Valid()
      ensures (c, State()) == InsertRow(old(State()), userId, token, expiresAt, deviceInfo, now)
    {
      var clash := FindOne(TokenIs(token));
      if clash.Some? {
        return UniqueViolation;
      }
      var s := Session(nextId, userId, token, expiresAt, deviceInfo, now);
      AppendKeepsConsistent(State(), s);
      rows := rows + [s];
      nextId := nextId + 1;
      c := Created(s);
    }

    method FindOne(where: Cond) returns (r: Option<Session>)
      ensures r == FindFirst(rows, where)
      ensures r.Some? ==> r.value in rows && Matches(r.value, where)
      ensures r.None? <==> forall s :: s in rows ==> !Matches(s, where)
    {
      r := FindFirst(rows, where);
    }

    method FindAll(where: Cond) returns (r: seq<Session>)
      ensures r == Where(rows, where)
    {
      r := Where(rows, where);
    }

    method Count(where: Cond) returns (n: nat)
      ensures n == |Where(rows, where)|
    {
      n := |Where(rows, where)|;
    }

    method CountAll() returns (n: nat)
      ensures n == |rows|
    {
      n := |rows|;
    }

    method Destroy(where: Cond) returns (n: nat)
      requires Valid()
      modifies this
      ensures Valid()
      ensures (n, State()) == DeleteWhere(old(State()), where)
    {
      var r := DeleteWhere(State(), where);
      n := r.0;
      rows := r.1.rows;
    }
  }
}
