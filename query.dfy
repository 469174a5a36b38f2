/**
 * The `where` clauses the core issues against `refresh_tokens`, and the
 * selection of the rows a clause matches.
 */
module Query {
  import opened Wrappers
  import opened RefreshTokenSchema

  datatype Cond =
    | TokenIs(token: Token)
    | UserIs(userId: UserId)
    | IdIs(id: RecordId)
    /** `expires_at < time` (`Op.lt`). */
    | ExpiresBefore(time: Time)
    /** `expires_at > time` (`Op.gt`). */
    | ExpiresAfter(time: Time)
    | And(left: Cond, right: Cond)
    | Not(negated: Cond)

  predicate Matches(s: Session, c: Cond) {
    match c
    case TokenIs(t) => s.token == t
    case UserIs(u) => s.userId == u
    case IdIs(id) => s.id == id
    case ExpiresBefore(time) => s.expiresAt < time
    case ExpiresAfter(time) => s.expiresAt > time
    case And(l, r) => Matches(s, l) && Matches(s, r)
    case Not(n) => !Matches(s, n)
  }

  /** The rows matching `c`, in table order. */
  function Where(rows: seq<Session>, c: Cond): (r: seq<Session>)
    ensures |r| <= |rows|
    ensures forall s :: s in r <==> s in rows && Matches(s, c)
    decreases |rows|
  {
    if rows == [] then []
    else if Matches(rows[0], c) then [rows[0]] + Where(rows[1..], c)
    else Where(rows[1..], c)
  }

  /** `findOne`: some row matching `c`, if there is one. */
  function FindFirst(rows: seq<Session>, c: Cond): (r: Option<Session>)
    ensures r.Some? ==> r.value in rows && Matches(r.value, c)
    ensures r.None? <==> forall s :: s in rows ==> !Matches(s, c)
  {
    var hits := Where(rows, c);
    if hits == [] then None else Some(hits[0])
  }

  /** Every row matches `c` or its negation, never both. */
  lemma {:induction false} WherePartition(rows: seq<Session>, c: Cond)
    ensures |Where(rows, c)| + |Where(rows, Not(c))| == |rows|
    decreases |rows|
  {
    if rows != [] {
      WherePartition(rows[1..], c);
    }
  }

  /** A clause every row satisfies selects the whole table, in order. */
  lemma {:induction false} WhereAll(rows: seq<Session>, c: Cond)
    requires forall s :: s in rows ==> Matches(s, c)
    ensures Where(rows, c) == rows
    decreases |rows|
  {
    if rows != [] {
      assert rows[0] in rows;
      assert forall s :: s in rows[1..] ==> s in rows;
      WhereAll(rows[1..], c);
      assert rows == [rows[0]] + rows[1..];
    }
  }

  /** A clause no row satisfies selects nothing. */
  lemma {:induction false} WhereNone(rows: seq<Session>, c: Cond)
    requires forall s :: s in rows ==> !Matches(s, c)
    ensures Where(rows, c) == []
    decreases |rows|
  {
    if rows != [] {
      assert rows[0] in rows;
      assert forall s :: s in rows[1..] ==> s in rows;
      WhereNone(rows[1..], c);
    }
  }

  /** Selecting twice with the same clause selects nothing new. */
  lemma WhereTwice(rows: seq<Session>, c: Cond)
    ensures Where(Where(rows, c), c) == Where(rows, c)
  {
    WhereAll(Where(rows, c), c);
  }

  /** Selection distributes over appending one row. */
  lemma {:induction false} WhereAppend(rows: seq<Session>, x: Session, c: Cond)
    ensures Where(rows + [x], c) == Where(rows, c) + (if Matches(x, c) then [x] else [])
    decreases |rows|
  {
    if rows == [] {
      assert rows + [x] == [x];
    } else {
      assert (rows + [x])[0] == rows[0];
      assert (rows + [x])[1..] == rows[1..] + [x];
      WhereAppend(rows[1..], x, c);
    }
  }

  /** Selection keeps the table's keys unique. */
  lemma {:induction false} WhereKeepsKeys(rows: seq<Session>, c: Cond)
    requires TokensUnique(rows) && IdsUnique(rows)
    ensures TokensUnique(Where(rows, c)) && IdsUnique(Where(rows, c))
    decreases |rows|
  {
    if rows != [] {
      var tail := rows[1..];
      assert TokensUnique(tail) && IdsUnique(tail) by {
        forall i, j | 0 <= i < j < |tail|
          ensures tail[i].token != tail[j].token && tail[i].id != tail[j].id
        {
          assert tail[i] == rows[i + 1] && tail[j] == rows[j + 1];
        }
      }
      WhereKeepsKeys(tail, c);
      if Matches(rows[0], c) {
        var rest := Where(tail, c);
        var r := [rows[0]] + rest;
        forall i, j | 0 <= i < j < |r|
          ensures r[i].token != r[j].token && r[i].id != r[j].id
        {
          if i == 0 {
            assert r[j] in tail;
            var k :| 0 <= k < |tail| && tail[k] == r[j];
            assert rows[k + 1] == r[j];
          } else {
            assert r[i] == rest[i - 1] && r[j] == rest[j - 1];
          }
        }
      }
    }
  }

  /** Under the unique index, at most one row holds a given token. */
  lemma {:induction false} AtMostOneWithToken(rows: seq<Session>, t: Token)
    requires TokensUnique(rows)
    ensures |Where(rows, TokenIs(t))| <= 1
  {
    if rows != [] {
      var tail := rows[1..];
      if rows[0].token == t {
        forall s | s in tail ensures !Matches(s, TokenIs(t)) {
          var k :| 0 <= k < |tail| && tail[k] == s;
          assert rows[k + 1] == s;
        }
        WhereNone(tail, TokenIs(t));
      } else {
        assert TokensUnique(tail) by {
          forall i, j | 0 <= i < j < |tail| ensures tail[i].token != tail[j].token {
            assert tail[i] == rows[i + 1] && tail[j] == rows[j + 1];
          }
        }
        AtMostOneWithToken(tail, t);
      }
    }
  }

  /**
   * Deleting one row by its primary key lowers the number of rows matching
   * any clause that row matches by exactly one.
   */
  lemma {:induction false} DeleteOneCount(rows: seq<Session>, x: Session, c: Cond)
    requires IdsUnique(rows) && x in rows && Matches(x, c)
    ensures |Where(Where(rows, Not(IdIs(x.id))), c)| + 1 == |Where(rows, c)|
    ensures |Where(rows, Not(IdIs(x.id)))| + 1 == |rows|
    decreases |rows|
  {
    var tail := rows[1..];
    var other := Not(IdIs(x.id));
    assert IdsUnique(tail) by {
      forall i, j | 0 <= i < j < |tail| ensures tail[i].id != tail[j].id {
        assert tail[i] == rows[i + 1] && tail[j] == rows[j + 1];
      }
    }
    if rows[0] == x {
      forall s | s in tail ensures Matches(s, other) {
        var k :| 0 <= k < |tail| && tail[k] == s;
        assert rows[k + 1] == s;
      }
      WhereAll(tail, other);
      assert !Matches(rows[0], other);
      assert Where(rows, other) == Where(tail, other) == tail;
      assert Where(rows, c) == [x] + Where(tail, c);
    } else {
      assert x in tail;
      var k :| 0 <= k < |tail| && tail[k] == x;
      assert rows[k + 1] == x;
      assert Matches(rows[0], other);
      var kept := Where(tail, other);
      assert Where(rows, other) == [rows[0]] + kept;
      DeleteOneCount(tail, x, c);
      if Matches(rows[0], c) {
        assert Where([rows[0]] + kept, c) == [rows[0]] + Where(kept, c) by {
          assert ([rows[0]] + kept)[0] == rows[0];
          assert ([rows[0]] + kept)[1..] == kept;
        }
        assert Where(rows, c) == [rows[0]] + Where(tail, c);
      } else {
        assert Where([rows[0]] + kept, c) == Where(kept, c) by {
          assert ([rows[0]] + kept)[0] == rows[0];
          assert ([rows[0]] + kept)[1..] == kept;
        }
        assert Where(rows, c) == Where(tail, c);
      }
    }
  }

  /** Under the primary key, a row is determined by its id. */
  lemma SameIdSameRow(rows: seq<Session>, a: Session, b: Session)
    requires IdsUnique(rows) && a in rows && b in rows && a.id == b.id
    ensures a == b
  {
    var i :| 0 <= i < |rows| && rows[i] == a;
    var j :| 0 <= j < |rows| && rows[j] == b;
  }

  /** Under the unique index, a row is determined by its token. */
  lemma SameTokenSameRow(rows: seq<Session>, a: Session, b: Session)
    requires TokensUnique(rows) && a in rows && b in rows && a.token == b.token
    ensures a == b
  {
    var i :| 0 <= i < |rows| && rows[i] == a;
    var j :| 0 <= j < |rows| && rows[j] == b;
  }

  /**
   * Filtering first by a weaker clause changes nothing about what a
   * stronger clause selects.
   */
  lemma {:induction false} WhereNarrow(rows: seq<Session>, weaker: Cond, stronger: Cond)
    requires forall s :: s in rows && Matches(s, stronger) ==> Matches(s, weaker)
    ensures Where(Where(rows, weaker), stronger) == Where(rows, stronger)
    decreases |rows|
  {
    if rows != [] {
      var tail := rows[1..];
      assert forall s :: s in tail ==> s in rows;
      WhereNarrow(tail, weaker, stronger);
      var w := Where(tail, weaker);
      if Matches(rows[0], weaker) {
        assert ([rows[0]] + w)[0] == rows[0] && ([rows[0]] + w)[1..] == w;
      } else {
        assert rows[0] in rows;
      }
    }
  }
}
