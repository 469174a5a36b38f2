/**
 * What each controller of the authentication layer does to the
 * `refresh_tokens` table, as functions from the table before the request to
 * the response and the table after it. The controllers in AuthController
 * perform the same steps one store call at a time and are proved equal to
 * these functions.
 *
 * JWT signing is a `TokenPair` the caller supplies; JWT verification of a
 * refresh token is the oracle `verify`, which yields the user id in the
 * token's payload or `None` for a bad signature or an expired claim. User
 * existence (`User.findByPk`) is membership in `users`.
 */
module Lifecycle {
  import opened Wrappers
  import opened RefreshTokenSchema
  import opened Query
  import opened SessionStore

  /** The freshly signed access and refresh tokens a successful request hands out. */
  datatype TokenPair = TokenPair(accessToken: Token, refreshToken: Token)

  /** Responses of `register` and `login`. */
  datatype AuthOutcome =
    | Authenticated(userId: UserId, tokens: TokenPair)
    | ValidationFailed       // 400: express-validator errors
    | EmailInUse             // 400: register with an email already taken
    | InvalidCredentials     // 401: unknown email or wrong password
    | AuthServerError        // 500: the insert raised

  /** Responses of `refreshToken`. */
  datatype RefreshOutcome =
    | Refreshed(tokens: TokenPair)
    | TokenRequired          // 400: no token in the body
    | RefreshInvalid         // 401: bad signature or expired claim
    | TokenRevoked           // 401: signed but not stored; all sessions invalidated
    | UserNotFound           // 401: the token's user is gone
    | RefreshServerError     // 500: the insert raised

  /** The body carries no token, or an empty one; both are refused as missing. */
  predicate Missing(presented: Option<Token>) {
    presented.None? || presented.value == ""
  }

  /**
   * The device recorded for a new session: the request's user agent, where an
   * absent or empty header is recorded as no device at all.
   */
  function DeviceOf(userAgent: Option<string>): (r: Option<string>)
    ensures r != Some("")
    ensures r.Some? ==> r == userAgent
    ensures userAgent != Some("") ==> r == userAgent
  {
    if userAgent.Some? && userAgent.value != "" then userAgent else None
  }

  /**
   * The device recorded on rotation: the request's device when it names one,
   * otherwise the device of the session being consumed.
   */
  function CarriedDevice(userAgent: Option<string>, previous: Option<string>): (r: Option<string>)
    ensures DeviceOf(userAgent).Some? ==> r == DeviceOf(userAgent)
    ensures DeviceOf(userAgent).None? ==> r == previous
  {
    if userAgent.Some? && userAgent.value != "" then userAgent else previous
  }

  /** `saveRefreshToken`: one insert that expires seven days after `now`. */
  function Save(db: Db, userId: UserId, token: Token, deviceInfo: Option<string>, now: Time): (r: (Created, Db))
    ensures r.0.Created? <==> forall s :: s in db.rows ==> s.token != token
    ensures r.0.Created? ==> r.0.record.createdAt == now && r.0.record.expiresAt == now + RefreshLifetime
    ensures r.0.UniqueViolation? ==> r.1 == db
  {
    InsertRow(db, userId, token, now + RefreshLifetime, deviceInfo, now)
  }

  /** Stores the new session and reports the outcome of an authentication. */
  function Issue(db: Db, userId: UserId, issued: TokenPair, deviceInfo: Option<string>, now: Time): (r: (AuthOutcome, Db))
    ensures r.0 == Authenticated(userId, issued) || r.0 == AuthServerError
    ensures r.0.AuthServerError? ==> r.1 == db
    ensures r.0.Authenticated? ==>
      && |r.1.rows| == |db.rows| + 1
      && r.1.rows[..|db.rows|] == db.rows
      && r.1.rows[|db.rows|].userId == userId
      && r.1.rows[|db.rows|].token == issued.refreshToken
  {
    var saved := Save(db, userId, issued.refreshToken, deviceInfo, now);
    (if saved.0.Created? then Authenticated(userId, issued) else AuthServerError, saved.1)
  }

  /**
   * `register`: `valid` is the validator's verdict, `emailInUse` the result of
   * the lookup by email, `newUser` the id `User.create` assigned.
   */
  function Register(db: Db, valid: bool, emailInUse: bool, newUser: UserId,
                    issued: TokenPair, userAgent: Option<string>, now: Time): (r: (AuthOutcome, Db))
    ensures r.0 == ValidationFailed <==> !valid
    ensures r.0 == EmailInUse <==> valid && emailInUse
    ensures r.0 != InvalidCredentials
    ensures r.0 == ValidationFailed || r.0 == EmailInUse ==> r.1 == db
  {
    if !valid then (ValidationFailed, db)
    else if emailInUse then (EmailInUse, db)
    else Issue(db, newUser, issued, DeviceOf(userAgent), now)
  }

  /**
   * `login`: `account` is the user found by email, `passwordMatches` the
   * verdict of `validatePassword` on it.
   */
  function Login(db: Db, valid: bool, account: Option<UserId>, passwordMatches: bool,
                 issued: TokenPair, userAgent: Option<string>, now: Time): (r: (AuthOutcome, Db))
    ensures r.0 == ValidationFailed <==> !valid
    ensures r.0 == InvalidCredentials <==> valid && (account.None? || !passwordMatches)
    ensures r.0 != EmailInUse
    ensures r.0 == ValidationFailed || r.0 == InvalidCredentials ==> r.1 == db
  {
    if !valid then (ValidationFailed, db)
    else if account.None? then (InvalidCredentials, db)
    else if !passwordMatches then (InvalidCredentials, db)
    else Issue(db, account.value, issued, DeviceOf(userAgent), now)
  }

  /** `refreshToken`: verify, look up, check the user, then rotate. */
  function Refresh(db: Db, users: set<UserId>, presented: Option<Token>,
                   verify: Token -> Option<UserId>, issued: TokenPair,
                   userAgent: Option<string>, now: Time): (r: (RefreshOutcome, Db))
    ensures r.0 == TokenRequired <==> Missing(presented)
    ensures r.0 == TokenRequired ==> r.1 == db
    ensures r.0.Refreshed? ==> r.0.tokens == issued
    ensures forall s :: s in r.1.rows ==>
      || s in db.rows
      || (r.0.Refreshed? && s.token == issued.refreshToken
          && s.createdAt == now && s.expiresAt == now + RefreshLifetime)
  {
    if Missing(presented) then (TokenRequired, db)
    else
      var t := presented.value;
      match verify(t)
      case None => (RefreshInvalid, DeleteWhere(db, TokenIs(t)).1)
      case Some(u) =>
        match FindFirst(db.rows, TokenIs(t))
        case None => (TokenRevoked, DeleteWhere(db, UserIs(u)).1)
        case Some(stored) =>
          if u !in users then (UserNotFound, DeleteWhere(db, UserIs(u)).1)
          else
            var consumed := DeleteWhere(db, IdIs(stored.id)).1;
            var saved := Save(consumed, u, issued.refreshToken,
                              CarriedDevice(userAgent, stored.deviceInfo), now);
            (if saved.0.Created? then Refreshed(issued) else RefreshServerError, saved.1)
  }

  /** `logout`: deletes the presented token if there is one; always succeeds. */
  function Logout(db: Db, presented: Option<Token>): (r: Db)
    ensures Missing(presented) ==> r == db
    ensures !Missing(presented) ==> forall s :: s in r.rows ==> s.token != presented.value
    ensures forall s :: s in r.rows ==> s in db.rows
    ensures r.nextId == db.nextId
  {
    if presented.Some? && presented.value != "" then DeleteWhere(db, TokenIs(presented.value)).1
    else db
  }

  /** `logoutAll`, and the first step of `deleteAccount`: deletes the user's rows and counts them. */
  function LogoutAll(db: Db, userId: UserId): (r: (nat, Db))
    ensures forall s :: s in r.1.rows ==> s in db.rows && s.userId != userId
    ensures r.0 + |r.1.rows| == |db.rows|
  {
    DeleteWhere(db, UserIs(userId))
  }

  /** What `getSessions` exposes of a row: everything but the token. */
  datatype SessionView = SessionView(id: RecordId, deviceInfo: Option<string>, expiresAt: Time, createdAt: Time)

  function ViewOf(s: Session): SessionView {
    SessionView(s.id, s.deviceInfo, s.expiresAt, s.createdAt)
  }

  function Views(rows: seq<Session>): (r: seq<SessionView>)
    ensures |r| == |rows|
    ensures forall i :: 0 <= i < |rows| ==> r[i] == ViewOf(rows[i])
  {
    if rows == [] then [] else [ViewOf(rows[0])] + Views(rows[1..])
  }

  /** Ordered by creation time, newest first. */
  ghost predicate NewestFirst(vs: seq<SessionView>) {
    forall i, j :: 0 <= i < j < |vs| ==> vs[i].createdAt >= vs[j].createdAt
  }

  /** Places `v` before the first view that is not newer than it. */
  function InsertNewest(v: SessionView, vs: seq<SessionView>): (r: seq<SessionView>)
    ensures multiset(r) == multiset(vs) + multiset{v}
  {
    if vs == [] || v.createdAt >= vs[0].createdAt then [v] + vs
    else
      assert vs == [vs[0]] + vs[1..];
      [vs[0]] + InsertNewest(v, vs[1..])
  }

  lemma {:induction false} InsertNewestKeepsOrder(v: SessionView, vs: seq<SessionView>)
    requires NewestFirst(vs)
    ensures NewestFirst(InsertNewest(v, vs))
    decreases |vs|
  {
    var r := InsertNewest(v, vs);
    if vs == [] || v.createdAt >= vs[0].createdAt {
      forall i, j | 0 <= i < j < |r| ensures r[i].createdAt >= r[j].createdAt {
        assert r[j] == vs[j - 1];
        if i == 0 {
          assert j - 1 == 0 || vs[0].createdAt >= vs[j - 1].createdAt;
        } else {
          assert r[i] == vs[i - 1];
        }
      }
    } else {
      var head, tail := vs[0], vs[1..];
      assert NewestFirst(tail) by {
        forall i, j | 0 <= i < j < |tail| ensures tail[i].createdAt >= tail[j].createdAt {
          assert tail[i] == vs[i + 1] && tail[j] == vs[j + 1];
        }
      }
      InsertNewestKeepsOrder(v, tail);
      var rest := InsertNewest(v, tail);
      assert r == [head] + rest;
      forall i, j | 0 <= i < j < |r| ensures r[i].createdAt >= r[j].createdAt {
        var x := r[j];
        assert x == rest[j - 1];
        if i == 0 {
          assert x in multiset(rest);
          if x != v {
            assert x in multiset(tail);
            var k :| 0 <= k < |tail| && tail[k] == x;
            assert vs[k + 1] == x;
          }
        } else {
          assert r[i] == rest[i - 1];
        }
      }
    }
  }

  /** Orders the views newest first by creation time, by insertion. */
  function SortNewestFirst(vs: seq<SessionView>): (r: seq<SessionView>)
    ensures multiset(r) == multiset(vs)
  {
    if vs == [] then []
    else
      assert vs == [vs[0]] + vs[1..];
      InsertNewest(vs[0], SortNewestFirst(vs[1..]))
  }

  lemma {:induction false} SortedNewestFirst(vs: seq<SessionView>)
    ensures NewestFirst(SortNewestFirst(vs))
    decreases |vs|
  {
    if vs != [] {
      SortedNewestFirst(vs[1..]);
      InsertNewestKeepsOrder(vs[0], SortNewestFirst(vs[1..]));
    }
  }

  /** The `where` clause of `getSessions`: the user's rows still active at `now`. */
  function ActiveOf(userId: UserId, now: Time): Cond {
    And(UserIs(userId), ExpiresAfter(now))
  }

  /**
   * `getSessions`: the caller's rows expiring strictly after `now`, newest
   * first, without their tokens.
   */
  function ActiveSessions(rows: seq<Session>, userId: UserId, now: Time): (r: seq<SessionView>)
    ensures NewestFirst(r)
    ensures multiset(r) == multiset(Views(Where(rows, ActiveOf(userId, now))))
  {
    SortedNewestFirst(Views(Where(rows, ActiveOf(userId, now))));
    SortNewestFirst(Views(Where(rows, ActiveOf(userId, now))))
  }

  /** Every listed session is one of the caller's rows that is still active. */
  lemma ListedAreOwnActive(rows: seq<Session>, userId: UserId, now: Time, v: SessionView)
    requires v in ActiveSessions(rows, userId, now)
    ensures exists s :: s in rows && s.userId == userId && s.expiresAt > now && ViewOf(s) == v
  {
    var hits := Where(rows, ActiveOf(userId, now));
    var listed := ActiveSessions(rows, userId, now);
    var views := Views(hits);
    assert multiset(listed) == multiset(views);
    assert v in multiset(listed);
    assert v in multiset(views);
    assert v in views;
    var i :| 0 <= i < |views| && views[i] == v;
    var s := hits[i];
    assert s in hits && ViewOf(s) == v;
    assert s in rows && Matches(s, ActiveOf(userId, now));
    assert Matches(s, UserIs(userId)) && Matches(s, ExpiresAfter(now));
  }

  /** Every one of the caller's active rows is listed. */
  lemma ActiveAreListed(rows: seq<Session>, userId: UserId, now: Time, s: Session)
    requires s in rows && s.userId == userId && s.expiresAt > now
    ensures ViewOf(s) in ActiveSessions(rows, userId, now)
  {
    var hits := Where(rows, ActiveOf(userId, now));
    assert Matches(s, UserIs(userId)) && Matches(s, ExpiresAfter(now));
    assert Matches(s, And(UserIs(userId), ExpiresAfter(now)));
    assert s in hits;
    var i :| 0 <= i < |hits| && hits[i] == s;
    assert Views(hits)[i] == ViewOf(s);
    assert ViewOf(s) in multiset(Views(hits));
  }
}
