/**
 * The `refresh_tokens` table: one row per issued refresh token.
 *
 * Non-null columns (`user_id`, `token`, `expires_at`) are plain fields;
 * the nullable `device_info` is an `Option`. The uniqueness constraint on
 * `token` and the primary key `id` are the predicates below, which the
 * store keeps as its invariant.
 */
module RefreshTokenSchema {
  import opened Wrappers

  type UserId = nat
  type RecordId = nat
  type Token = string
  /** Milliseconds since the epoch, as a JavaScript `Date` holds them. */
  type Time = int

  /** Seven days in milliseconds: the lifetime of a stored refresh token. */
  const RefreshLifetime: int := 7 * 24 * 60 * 60 * 1000

  /** A row of `refresh_tokens`; `createdAt` is the `created_at` timestamp column. */
  datatype Session = Session(
    id: RecordId,
    userId: UserId,
    token: Token,
    expiresAt: Time,
    deviceInfo: Option<string>,
    createdAt: Time)

  /** The unique index on `token`. */
  ghost predicate TokensUnique(rows: seq<Session>) {
    forall i, j :: 0 <= i < j < |rows| ==> rows[i].token != rows[j].token
  }

  /** `id` is the primary key. */
  ghost predicate IdsUnique(rows: seq<Session>) {
    forall i, j :: 0 <= i < j < |rows| ==> rows[i].id != rows[j].id
  }

  /** Every id in use was handed out before `nextId`, so `nextId` is fresh. */
  ghost predicate IdsBelow(rows: seq<Session>, nextId: nat) {
    forall s :: s in rows ==> s.id < nextId
  }

  /** The table invariant: both keys unique and the next id fresh. */
  ghost predicate WellFormed(rows: seq<Session>, nextId: nat) {
    TokensUnique(rows) && IdsUnique(rows) && IdsBelow(rows, nextId)
  }

  /** The foreign key `user_id` -> `users.id`. */
  ghost predicate OwnersExist(rows: seq<Session>, users: set<UserId>) {
    forall s :: s in rows ==> s.userId in users
  }

  /** Every row was saved with `expires_at` seven days after its creation. */
  ghost predicate LifetimesHold(rows: seq<Session>) {
    forall s :: s in rows ==> s.expiresAt == s.createdAt + RefreshLifetime
  }
}
