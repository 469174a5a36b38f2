/**
 * Properties of the session lifecycle: what each request may and may not do
 * to the `refresh_tokens` table, and how requests compose.
 */
module LifecycleProperties {
  import opened Wrappers
  import opened RefreshTokenSchema
  import opened Query
  import opened SessionStore
  import opened Lifecycle

  /**
   * `after` is `before` with exactly one row appended: the session of `userId`
   * holding `token`, created at `now` and expiring seven days later.
   */
  ghost predicate IssuedOne(before: seq<Session>, after: seq<Session>, userId: UserId,
                            token: Token, deviceInfo: Option<string>, now: Time)
  {
    && |after| == |before| + 1
    && after[..|before|] == before
    && var s := after[|before|];
    && s.userId == userId && s.token == token && s.deviceInfo == deviceInfo
    && s.createdAt == now && s.expiresAt == now + RefreshLifetime
  }

  /**
   * Every stored token that still verifies names the user whose row holds
   * it; a token whose claim has expired verifies to nothing and is allowed.
   */
  ghost predicate SignedForOwners(rows: seq<Session>, verify: Token -> Option<UserId>) {
    forall s :: s in rows && verify(s.token).Some? ==> verify(s.token) == Some(s.userId)
  }

  /** A table without rows of the user lists no sessions for that user. */
  lemma NoRowsNoSessions(rows: seq<Session>, userId: UserId, now: Time)
    requires forall s :: s in rows ==> s.userId != userId
    ensures ActiveSessions(rows, userId, now) == []
  {
    forall s | s in rows ensures !Matches(s, ActiveOf(userId, now)) {
      assert !Matches(s, UserIs(userId));
    }
    WhereNone(rows, ActiveOf(userId, now));
  }

  /**
   * Deleting every row of one user leaves that user with no sessions and
   * every other user's session list exactly as it was.
   */
  lemma PurgeIsConfinedToUser(db: Db, userId: UserId, now: Time)
    ensures var after := DeleteWhere(db, UserIs(userId)).1;
      && (forall s :: s in after.rows <==> s in db.rows && s.userId != userId)
      && after.nextId == db.nextId
      && |Where(after.rows, UserIs(userId))| == 0
      && ActiveSessions(after.rows, userId, now) == []
      && forall other :: other != userId ==>
           ActiveSessions(after.rows, other, now) == ActiveSessions(db.rows, other, now)
  {
    var after := DeleteWhere(db, UserIs(userId)).1;
    NoRowsNoSessions(after.rows, userId, now);
    WhereNone(after.rows, UserIs(userId));
    forall other | other != userId
      ensures ActiveSessions(after.rows, other, now) == ActiveSessions(db.rows, other, now)
    {
      forall s | s in db.rows && Matches(s, ActiveOf(other, now))
        ensures Matches(s, Not(UserIs(userId)))
      {
        assert Matches(s, UserIs(other));
      }
      WhereNarrow(db.rows, Not(UserIs(userId)), ActiveOf(other, now));
    }
  }

  /**
   * `saveRefreshToken` with a token not yet stored adds exactly one row, and
   * one more session for its user.
   */
  lemma SaveAddsOneRow(db: Db, userId: UserId, token: Token, deviceInfo: Option<string>, now: Time)
    requires Consistent(db)
    requires forall s :: s in db.rows ==> s.token != token
    ensures var r := Save(db, userId, token, deviceInfo, now);
      && r.0.Created?
      && Consistent(r.1)
      && IssuedOne(db.rows, r.1.rows, userId, token, deviceInfo, now)
      && |Where(r.1.rows, UserIs(userId))| == |Where(db.rows, UserIs(userId))| + 1
  {
    var r := Save(db, userId, token, deviceInfo, now);
    WhereAppend(db.rows, r.0.record, UserIs(userId));
    assert r.1.rows[..|db.rows|] == db.rows;
  }

  /**
   * `register` writes to the table only when it succeeds, and then adds the
   * one session of the new user; every failing path leaves the table as it was.
   */
  lemma RegisterIssuesOnlyOnSuccess(db: Db, valid: bool, emailInUse: bool, newUser: UserId,
                                    issued: TokenPair, userAgent: Option<string>, now: Time)
    requires Consistent(db)
    ensures var r := Register(db, valid, emailInUse, newUser, issued, userAgent, now);
      && (r.0.Authenticated? <==>
            valid && !emailInUse && forall s :: s in db.rows ==> s.token != issued.refreshToken)
      && (r.0.Authenticated? ==>
            r.0 == Authenticated(newUser, issued)
            && IssuedOne(db.rows, r.1.rows, newUser, issued.refreshToken, DeviceOf(userAgent), now))
      && (!r.0.Authenticated? ==> r.1 == db)
  {
    if valid && !emailInUse && forall s :: s in db.rows ==> s.token != issued.refreshToken {
      SaveAddsOneRow(db, newUser, issued.refreshToken, DeviceOf(userAgent), now);
    }
  }

  /**
   * `login` writes to the table only when the email is known and the password
   * matches; unknown email and wrong password leave the table as it was.
   */
  lemma LoginIssuesOnlyOnSuccess(db: Db, valid: bool, account: Option<UserId>, passwordMatches: bool,
                                 issued: TokenPair, userAgent: Option<string>, now: Time)
    requires Consistent(db)
    ensures var r := Login(db, valid, account, passwordMatches, issued, userAgent, now);
      && (r.0.Authenticated? <==>
            valid && account.Some? && passwordMatches
            && forall s :: s in db.rows ==> s.token != issued.refreshToken)
      && (r.0.Authenticated? ==>
            r.0 == Authenticated(account.value, issued)
            && IssuedOne(db.rows, r.1.rows, account.value, issued.refreshToken, DeviceOf(userAgent), now))
      && (!r.0.Authenticated? ==> r.1 == db)
  {
    if valid && account.Some? && passwordMatches
       && forall s :: s in db.rows ==> s.token != issued.refreshToken
    {
      SaveAddsOneRow(db, account.value, issued.refreshToken, DeviceOf(userAgent), now);
    }
  }

  /** A refresh request without a token changes nothing. */
  lemma RefreshWithoutTokenChangesNothing(db: Db, users: set<UserId>, presented: Option<Token>,
                                          verify: Token -> Option<UserId>, issued: TokenPair,
                                          userAgent: Option<string>, now: Time)
    requires Missing(presented)
    ensures Refresh(db, users, presented, verify, issued, userAgent, now) == (TokenRequired, db)
  {
  }

  /**
   * A token whose signature does not verify is refused; the only change is
   * that the one row holding exactly that token, if any, is deleted.
   */
  lemma InvalidSignatureDropsOnlyThatToken(db: Db, users: set<UserId>, t: Token,
                                           verify: Token -> Option<UserId>, issued: TokenPair,
                                           userAgent: Option<string>, now: Time)
    requires Consistent(db)
    requires t != "" && verify(t).None?
    ensures var r := Refresh(db, users, Some(t), verify, issued, userAgent, now);
      && r.0 == RefreshInvalid
      && (forall s :: s in r.1.rows <==> s in db.rows && s.token != t)
      && |db.rows| - |r.1.rows| <= 1
      && r.1.nextId == db.nextId
  {
    AtMostOneWithToken(db.rows, t);
  }

  /**
   * Theft detection: a correctly signed token that is not stored revokes every
   * session of the user it names, no one else's, and issues nothing.
   */
  lemma ReusedTokenRevokesAllOfUser(db: Db, users: set<UserId>, t: Token,
                                    verify: Token -> Option<UserId>, issued: TokenPair,
                                    userAgent: Option<string>, now: Time, later: Time)
    requires t != "" && verify(t).Some?
    requires forall s :: s in db.rows ==> s.token != t
    ensures var u := verify(t).value;
      var r := Refresh(db, users, Some(t), verify, issued, userAgent, now);
      && r.0 == TokenRevoked
      && (forall s :: s in r.1.rows <==> s in db.rows && s.userId != u)
      && r.1.nextId == db.nextId
      && ActiveSessions(r.1.rows, u, later) == []
      && forall other :: other != u ==>
           ActiveSessions(r.1.rows, other, later) == ActiveSessions(db.rows, other, later)
  {
    PurgeIsConfinedToUser(db, verify(t).value, later);
  }

  /**
   * A stored, correctly signed token of a user who no longer exists revokes
   * all of that user's sessions and issues nothing.
   */
  lemma VanishedUserRevokesAllOfUser(db: Db, users: set<UserId>, t: Token,
                                     verify: Token -> Option<UserId>, issued: TokenPair,
                                     userAgent: Option<string>, now: Time, later: Time)
    requires t != "" && verify(t).Some? && verify(t).value !in users
    requires exists s :: s in db.rows && s.token == t
    ensures var u := verify(t).value;
      var r := Refresh(db, users, Some(t), verify, issued, userAgent, now);
      && r.0 == UserNotFound
      && (forall s :: s in r.1.rows <==> s in db.rows && s.userId != u)
      && r.1.nextId == db.nextId
      && ActiveSessions(r.1.rows, u, later) == []
  {
    PurgeIsConfinedToUser(db, verify(t).value, later);
  }

  /**
   * Successful rotation: the consumed row is gone, every other row stays,
   * exactly one row is added for the token's user, carrying the request's
   * user agent or else the consumed row's device, and that user keeps the
   * same number of sessions whenever the consumed row is that user's.
   */
  lemma RotationReplacesConsumedToken(db: Db, users: set<UserId>, t: Token,
                                      verify: Token -> Option<UserId>, issued: TokenPair,
                                      userAgent: Option<string>, now: Time, stored: Session)
    requires Consistent(db)
    requires t != "" && stored in db.rows && stored.token == t
    requires verify(t).Some? && verify(t).value in users
    requires forall s :: s in db.rows ==> s.token != issued.refreshToken
    ensures var u := verify(t).value;
      var r := Refresh(db, users, Some(t), verify, issued, userAgent, now);
      && r.0 == Refreshed(issued)
      && Consistent(r.1)
      && (forall s :: s in r.1.rows ==> s.token != t)
      && |r.1.rows| == |db.rows|
      && (forall s :: s in r.1.rows[..|db.rows| - 1] <==> s in db.rows && s != stored)
      && IssuedOne(r.1.rows[..|db.rows| - 1], r.1.rows, u, issued.refreshToken,
                   CarriedDevice(userAgent, stored.deviceInfo), now)
      && (stored.userId == u ==> |Where(r.1.rows, UserIs(u))| == |Where(db.rows, UserIs(u))|)
  {
    var u := verify(t).value;
    var found := FindFirst(db.rows, TokenIs(t));
    SameTokenSameRow(db.rows, found.value, stored);
    var consumed := DeleteWhere(db, IdIs(stored.id)).1;
    forall s | s in db.rows && s != stored ensures s in consumed.rows {
      if s.id == stored.id {
        SameIdSameRow(db.rows, s, stored);
      }
    }
    DeleteOneCount(db.rows, stored, TokenIs(t));
    if stored.userId == u {
      DeleteOneCount(db.rows, stored, UserIs(u));
    }
    var device := CarriedDevice(userAgent, stored.deviceInfo);
    SaveAddsOneRow(consumed, u, issued.refreshToken, device, now);
    var r := Refresh(db, users, Some(t), verify, issued, userAgent, now);
    assert r.1 == Save(consumed, u, issued.refreshToken, device, now).1;
    assert r.1.rows[..|db.rows| - 1] == consumed.rows;
    forall s | s in consumed.rows ensures s.token != t {
      if s.token == t {
        SameTokenSameRow(db.rows, s, stored);
      }
    }
  }

  /**
   * Every insert stores a token signed for the user it is stored under, so
   * each stored token that still verifies names its own row's user. Under that invariant a
   * successful rotation keeps the user's number of sessions unchanged, and
   * the invariant holds again afterwards.
   */
  lemma RotationKeepsSessionCount(db: Db, users: set<UserId>, t: Token,
                                  verify: Token -> Option<UserId>, issued: TokenPair,
                                  userAgent: Option<string>, now: Time, stored: Session)
    requires Consistent(db)
    requires t != "" && stored in db.rows && stored.token == t
    requires verify(t).Some? && verify(t).value in users
    requires forall s :: s in db.rows ==> s.token != issued.refreshToken
    requires SignedForOwners(db.rows, verify)
    requires verify(issued.refreshToken) == verify(t)
    ensures var u := verify(t).value;
      var r := Refresh(db, users, Some(t), verify, issued, userAgent, now);
      && r.0 == Refreshed(issued)
      && |Where(r.1.rows, UserIs(u))| == |Where(db.rows, UserIs(u))|
      && SignedForOwners(r.1.rows, verify)
  {
    assert verify(stored.token) == Some(stored.userId);
    RotationReplacesConsumedToken(db, users, t, verify, issued, userAgent, now, stored);
  }

  /**
   * The consumed row is deleted before the new one is inserted: when the
   * insert is refused because another row already holds the new token, the
   * request fails, nothing is added, and the consumed row is gone anyway.
   */
  lemma FailedRotationStillConsumes(db: Db, users: set<UserId>, t: Token,
                                    verify: Token -> Option<UserId>, issued: TokenPair,
                                    userAgent: Option<string>, now: Time, stored: Session, holder: Session)
    requires Consistent(db)
    requires t != "" && stored in db.rows && stored.token == t
    requires verify(t).Some? && verify(t).value in users
    requires holder in db.rows && holder.token == issued.refreshToken && holder != stored
    ensures var r := Refresh(db, users, Some(t), verify, issued, userAgent, now);
      && r.0 == RefreshServerError
      && r.1.nextId == db.nextId
      && (forall s :: s in r.1.rows <==> s in db.rows && s != stored)
  {
    var found := FindFirst(db.rows, TokenIs(t));
    SameTokenSameRow(db.rows, found.value, stored);
    var consumed := DeleteWhere(db, IdIs(stored.id)).1;
    forall s | s in db.rows && s != stored ensures s in consumed.rows {
      if s.id == stored.id {
        SameIdSameRow(db.rows, s, stored);
      }
    }
    assert holder in consumed.rows;
  }

  /**
   * Single use: once a token has been rotated, presenting it again, with its
   * signature still valid, is treated as theft and leaves its user with no
   * session at all.
   */
  lemma RotatedTokenIsSingleUse(db: Db, users: set<UserId>, t: Token,
                                verify: Token -> Option<UserId>, issued: TokenPair,
                                userAgent: Option<string>, now: Time, stored: Session,
                                usersLater: set<UserId>, reissued: TokenPair,
                                userAgentLater: Option<string>, later: Time)
    requires Consistent(db)
    requires t != "" && stored in db.rows && stored.token == t
    requires verify(t).Some? && verify(t).value in users
    requires forall s :: s in db.rows ==> s.token != issued.refreshToken
    ensures var u := verify(t).value;
      var first := Refresh(db, users, Some(t), verify, issued, userAgent, now);
      var second := Refresh(first.1, usersLater, Some(t), verify, reissued, userAgentLater, later);
      && first.0 == Refreshed(issued)
      && second.0 == TokenRevoked
      && |Where(second.1.rows, UserIs(u))| == 0
      && ActiveSessions(second.1.rows, u, later) == []
  {
    RotationReplacesConsumedToken(db, users, t, verify, issued, userAgent, now, stored);
    var first := Refresh(db, users, Some(t), verify, issued, userAgent, now);
    ReusedTokenRevokesAllOfUser(first.1, usersLater, t, verify, reissued, userAgentLater, later, later);
    PurgeIsConfinedToUser(first.1, verify(t).value, later);
  }

  /**
   * A rotation succeeds exactly when the token is present, verifies, is
   * stored, names an existing user, and the newly signed token is not held by
   * any row other than the consumed one.
   */
  lemma RefreshSucceedsExactlyWhen(db: Db, users: set<UserId>, presented: Option<Token>,
                                   verify: Token -> Option<UserId>, issued: TokenPair,
                                   userAgent: Option<string>, now: Time)
    requires Consistent(db)
    ensures Refresh(db, users, presented, verify, issued, userAgent, now).0.Refreshed?
      <==> && !Missing(presented)
           && verify(presented.value).Some? && verify(presented.value).value in users
           && (exists s :: s in db.rows && s.token == presented.value)
           && forall s :: s in db.rows && s.token == issued.refreshToken ==> s.token == presented.value
  {
    var r := Refresh(db, users, presented, verify, issued, userAgent, now);
    if Missing(presented) {
      return;
    }
    var t := presented.value;
    if verify(t).None? {
      assert r.0 == RefreshInvalid;
      return;
    }
    var u := verify(t).value;
    var found := FindFirst(db.rows, TokenIs(t));
    if found.None? {
      assert r.0 == TokenRevoked;
      assert forall s :: s in db.rows ==> s.token != t;
      return;
    }
    var stored := found.value;
    assert stored in db.rows && stored.token == t;
    if u !in users {
      assert r.0 == UserNotFound;
      return;
    }
    var consumed := DeleteWhere(db, IdIs(stored.id)).1;
    var saved := Save(consumed, u, issued.refreshToken, CarriedDevice(userAgent, stored.deviceInfo), now);
    assert r.0 == (if saved.0.Created? then Refreshed(issued) else RefreshServerError);
    if forall s :: s in db.rows && s.token == issued.refreshToken ==> s.token == t {
      forall s | s in consumed.rows ensures s.token != issued.refreshToken {
        if s.token == issued.refreshToken {
          SameTokenSameRow(db.rows, s, stored);
        }
      }
      assert saved.0.Created?;
    } else {
      var s :| s in db.rows && s.token == issued.refreshToken && s.token != t;
      assert s in consumed.rows;
      assert !saved.0.Created?;
    }
  }

  /**
   * Every refresh request keeps the table invariant, keeps every row owned
   * by an existing user, and keeps every row's seven-day lifetime.
   */
  lemma RefreshKeepsInvariants(db: Db, users: set<UserId>, presented: Option<Token>,
                               verify: Token -> Option<UserId>, issued: TokenPair,
                               userAgent: Option<string>, now: Time)
    requires Consistent(db) && OwnersExist(db.rows, users) && LifetimesHold(db.rows)
    ensures var after := Refresh(db, users, presented, verify, issued, userAgent, now).1;
      Consistent(after) && OwnersExist(after.rows, users) && LifetimesHold(after.rows)
  {
  }

  /** Logging out twice with the same token is the same as logging out once. */
  lemma LogoutIsIdempotent(db: Db, presented: Option<Token>)
    ensures Logout(Logout(db, presented), presented) == Logout(db, presented)
  {
    if presented.Some? && presented.value != "" {
      WhereTwice(db.rows, Not(TokenIs(presented.value)));
    }
  }

  /** Logout deletes at most the one row holding the presented token, and nothing else. */
  lemma LogoutDeletesAtMostThatToken(db: Db, presented: Option<Token>)
    requires Consistent(db)
    ensures var after := Logout(db, presented);
      && Consistent(after)
      && |db.rows| - |after.rows| <= 1
      && forall s :: s in after.rows <==> s in db.rows && (Missing(presented) || s.token != presented.value)
  {
    if !Missing(presented) {
      AtMostOneWithToken(db.rows, presented.value);
    }
  }

  /**
   * `logoutAll` deletes exactly the user's rows, reports how many, leaves that
   * user with no sessions and every other user's sessions as they were.
   */
  lemma LogoutAllIsConfinedToUser(db: Db, userId: UserId, now: Time)
    requires Consistent(db)
    ensures var r := LogoutAll(db, userId);
      && r.0 == |Where(db.rows, UserIs(userId))|
      && r.0 + |r.1.rows| == |db.rows|
      && Consistent(r.1)
      && (forall s :: s in r.1.rows <==> s in db.rows && s.userId != userId)
      && ActiveSessions(r.1.rows, userId, now) == []
      && forall other :: other != userId ==>
           ActiveSessions(r.1.rows, other, now) == ActiveSessions(db.rows, other, now)
  {
    PurgeIsConfinedToUser(db, userId, now);
  }

  /**
   * `register` and `login` store a session only for an existing user, so
   * neither leaves a row pointing at a missing user.
   */
  lemma AuthenticationKeepsOwners(db: Db, users: set<UserId>, valid: bool, emailInUse: bool,
                                  newUser: UserId, account: Option<UserId>, passwordMatches: bool,
                                  issued: TokenPair, userAgent: Option<string>, now: Time)
    requires OwnersExist(db.rows, users)
    requires newUser in users
    requires account.Some? ==> account.value in users
    ensures OwnersExist(Register(db, valid, emailInUse, newUser, issued, userAgent, now).1.rows, users)
    ensures OwnersExist(Login(db, valid, account, passwordMatches, issued, userAgent, now).1.rows, users)
  {
  }

  /**
   * Revoking a user's sessions before the user is deleted, as `deleteAccount`
   * does, leaves no row pointing at a missing user.
   */
  lemma DeleteAccountLeavesNoOrphans(db: Db, users: set<UserId>, userId: UserId)
    requires OwnersExist(db.rows, users)
    ensures OwnersExist(LogoutAll(db, userId).1.rows, users - {userId})
  {
  }

  /**
   * Single use rests on the newly signed token differing from the one
   * presented: if the signer hands back the very token being consumed, the
   * rotation still succeeds and that token is stored again for its user.
   */
  lemma ReissuedSameTokenStaysStored(db: Db, users: set<UserId>, t: Token,
                                     verify: Token -> Option<UserId>, accessToken: Token,
                                     userAgent: Option<string>, now: Time, stored: Session)
    requires Consistent(db)
    requires t != "" && stored in db.rows && stored.token == t
    requires verify(t).Some? && verify(t).value in users
    ensures var issued := TokenPair(accessToken, t);
      var r := Refresh(db, users, Some(t), verify, issued, userAgent, now);
      && r.0 == Refreshed(issued)
      && exists s :: s in r.1.rows && s.token == t && s.userId == verify(t).value
  {
    var issued := TokenPair(accessToken, t);
    RefreshSucceedsExactlyWhen(db, users, Some(t), verify, issued, userAgent, now);
    var r := Refresh(db, users, Some(t), verify, issued, userAgent, now);
    var found := FindFirst(db.rows, TokenIs(t));
    var consumed := DeleteWhere(db, IdIs(found.value.id)).1;
    var saved := Save(consumed, verify(t).value, t, CarriedDevice(userAgent, found.value.deviceInfo), now);
    assert r.1 == saved.1;
    assert saved.0.record in r.1.rows;
  }
}
