/**
 * The request handlers of the authentication controller, restricted to what
 * they do to `refresh_tokens`. Each handler issues its store calls in the
 * order the controller does and is proved to leave the table, and to answer,
 * exactly as the matching function of Lifecycle says.
 */
module AuthController {
  import opened Wrappers
  import opened RefreshTokenSchema
  import opened Query
  import opened SessionStore
  import Lifecycle

  /** `saveRefreshToken`: the row expires seven days after `now`. */
  method SaveRefreshToken(store: Store, userId: UserId, token: Token,
                          deviceInfo: Option<string>, now: Time) returns (c: Created)
    requires store.Valid()
    modifies store
    ensures store.Valid()
    ensures (c, store.State()) == Lifecycle.Save(old(store.State()), userId, token, deviceInfo, now)
  {
    var expiresAt := now + RefreshLifetime;
    c := store.Create(userId, token, expiresAt, deviceInfo, now);
  }

  method Register(store: Store, valid: bool, emailInUse: bool, newUser: UserId,
                  issued: Lifecycle.TokenPair, userAgent: Option<string>, now: Time)
    returns (outcome: Lifecycle.AuthOutcome)
    requires store.Valid()
    modifies store
    ensures store.Valid()
    ensures (outcome, store.State())
         == Lifecycle.Register(old(store.State()), valid, emailInUse, newUser, issued, userAgent, now)
  {
    if !valid {
      return Lifecycle.ValidationFailed;
    }
    if emailInUse {
      return Lifecycle.EmailInUse;
    }
    var deviceInfo := Lifecycle.DeviceOf(userAgent);
    var saved := SaveRefreshToken(store, newUser, issued.refreshToken, deviceInfo, now);
    if saved.UniqueViolation? {
      return Lifecycle.AuthServerError;
    }
    outcome := Lifecycle.Authenticated(newUser, issued);
  }

  method Login(store: Store, valid: bool, account: Option<UserId>, passwordMatches: bool,
               issued: Lifecycle.TokenPair, userAgent: Option<string>, now: Time)
    returns (outcome: Lifecycle.AuthOutcome)
    requires store.Valid()
    modifies store
    ensures store.Valid()
    ensures (outcome, store.State())
         == Lifecycle.Login(old(store.State()), valid, account, passwordMatches, issued, userAgent, now)
  {
    if !valid {
      return Lifecycle.ValidationFailed;
    }
    if account.None? || !passwordMatches {
      return Lifecycle.InvalidCredentials;
    }
    var deviceInfo := Lifecycle.DeviceOf(userAgent);
    var saved := SaveRefreshToken(store, account.value, issued.refreshToken, deviceInfo, now);
    if saved.UniqueViolation? {
      return Lifecycle.AuthServerError;
    }
    outcome := Lifecycle.Authenticated(account.value, issued);
  }

  /** `refreshToken`: signature, then store lookup, then user, then rotation. */
  method RefreshToken(store: Store, users: set<UserId>, presented: Option<Token>,
                      verify: Token -> Option<UserId>, issued: Lifecycle.TokenPair,
                      userAgent: Option<string>, now: Time)
    returns (outcome: Lifecycle.RefreshOutcome)
    requires store.Valid()
    modifies store
    ensures store.Valid()
    ensures (outcome, store.State())
         == Lifecycle.Refresh(old(store.State()), users, presented, verify, issued, userAgent, now)
  {
    if Lifecycle.Missing(presented) {
      return Lifecycle.TokenRequired;
    }
    var t := presented.value;
    var decoded := verify(t);
    if decoded.None? {
      var _ := store.Destroy(TokenIs(t));
      return Lifecycle.RefreshInvalid;
    }
    var u := decoded.value;
    var storedToken := store.FindOne(TokenIs(t));
    if storedToken.None? {
      var _ := store.Destroy(UserIs(u));
      return Lifecycle.TokenRevoked;
    }
    if u !in users {
      var _ := store.Destroy(UserIs(u));
      return Lifecycle.UserNotFound;
    }
    var stored := storedToken.value;
    var _ := store.Destroy(IdIs(stored.id));
    var deviceInfo := Lifecycle.CarriedDevice(userAgent, stored.deviceInfo);
    var saved := SaveRefreshToken(store, u, issued.refreshToken, deviceInfo, now);
    if saved.UniqueViolation? {
      return Lifecycle.RefreshServerError;
    }
    outcome := Lifecycle.Refreshed(issued);
  }

  /** `logout`: always reports success. */
  method Logout(store: Store, presented: Option<Token>) returns (success: bool)
    requires store.Valid()
    modifies store
    ensures store.Valid()
    ensures success
    ensures store.State() == Lifecycle.Logout(old(store.State()), presented)
  {
    if presented.Some? && presented.value != "" {
      var _ := store.Destroy(TokenIs(presented.value));
    }
    success := true;
  }

  /** `logoutAll`: reports how many sessions it invalidated. */
  method LogoutAll(store: Store, userId: UserId) returns (deletedCount: nat)
    requires store.Valid()
    modifies store
    ensures store.Valid()
    ensures (deletedCount, store.State()) == Lifecycle.LogoutAll(old(store.State()), userId)
  {
    deletedCount := store.Destroy(UserIs(userId));
  }

  /** The first step of `deleteAccount`: revoke every session of the user. */
  method DeleteAccount(store: Store, userId: UserId)
    requires store.Valid()
    modifies store
    ensures store.Valid()
    ensures store.State() == Lifecycle.LogoutAll(old(store.State()), userId).1
  {
    var _ := store.Destroy(UserIs(userId));
  }

  /** `getSessions`: reads the table only. */
  method GetSessions(store: Store, userId: UserId, now: Time) returns (sessions: seq<Lifecycle.SessionView>)
    ensures Lifecycle.NewestFirst(sessions)
    ensures sessions == Lifecycle.ActiveSessions(store.rows, userId, now)
  {
    var rows := store.FindAll(Lifecycle.ActiveOf(userId, now));
    sessions := Lifecycle.SortNewestFirst(Lifecycle.Views(rows));
    Lifecycle.SortedNewestFirst(Lifecycle.Views(rows));
  }
}
