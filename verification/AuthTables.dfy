/**
 The two tables behind authentication, `refresh_tokens` and `sessions`, and one function or
 relation for each SQL statement the service sends. A statement is one atomic step. The UNIQUE
 hash column is the key of each map; a row deleted "by id" is found through its `id` field.
 */
module AuthTables {
  type UserId = nat
  type RowId = nat
  type Hash = string
  type Time = int

  datatype TokenRow = TokenRow(id: RowId, user: UserId, expiresAt: Time)

  datatype SessionRow = SessionRow(user: UserId, lastAccessed: Time)

  datatype Db = Db(tokens: map<Hash, TokenRow>, sessions: map<Hash, SessionRow>, nextId: RowId)

  function InsertToken(db: Db, h: Hash, user: UserId, expiresAt: Time): Db {
    db.(tokens := db.tokens[h := TokenRow(db.nextId, user, expiresAt)], nextId := db.nextId + 1)
  }

  function InsertSession(db: Db, h: Hash, user: UserId, now: Time): Db {
    db.(sessions := db.sessions[h := SessionRow(user, now)])
  }

  function DeleteSessionByHash(db: Db, h: Hash): Db {
    db.(sessions := db.sessions - {h})
  }

  function DeleteTokenByHash(db: Db, h: Hash): Db {
    db.(tokens := db.tokens - {h})
  }

  function DeleteTokenById(db: Db, id: RowId): Db {
    db.(tokens := map h | h in db.tokens && db.tokens[h].id != id :: db.tokens[h])
  }

  function UserSessions(db: Db, user: UserId): set<Hash> {
    set h | h in db.sessions && db.sessions[h].user == user
  }

  /** `db'` is a possible outcome of deleting the user's sessions outside the `limit` most
      recently accessed ones. ORDER BY leaves the choice among equal timestamps open, so this is
      a relation and not a function. */
  predicate Trimmed(db: Db, db': Db, user: UserId, limit: nat) {
    && db' == db.(sessions := db'.sessions)
    && (forall h :: h in db'.sessions ==> h in db.sessions && db'.sessions[h] == db.sessions[h])
    && (forall h :: h in db.sessions && db.sessions[h].user != user ==> h in db'.sessions)
    && |UserSessions(db', user)| == Min(limit, |UserSessions(db, user)|)
    && (forall kept, gone :: kept in UserSessions(db', user) && gone in UserSessions(db, user) - UserSessions(db', user)
                             ==> db.sessions[gone].lastAccessed <= db.sessions[kept].lastAccessed)
  }

  /** The clean-up of unexpired refresh tokens that no session of the user names. */
  function DeleteOrphans(db: Db, user: UserId, now: Time): Db {
    db.(tokens := map h | h in db.tokens
                          && !(db.tokens[h].user == user && h !in UserSessions(db, user)
                               && db.tokens[h].expiresAt > now)
                      :: db.tokens[h])
  }

  function Min(a: nat, b: nat): nat {
    if a <= b then a else b
  }

  /** A database can always execute the trim: keeping the newest rows is possible whatever the
      timestamps are. */
  lemma {:induction false} TrimPossible(db: Db, user: UserId, limit: nat)
    ensures exists sessions :: Trimmed(db, db.(sessions := sessions), user, limit)
    decreases |UserSessions(db, user)|
  {
    var mine := UserSessions(db, user);
    if |mine| <= limit {
      assert Trimmed(db, db.(sessions := db.sessions), user, limit);
    } else {
      var oldest := OldestOf(db, mine);
      var smaller := DeleteSessionByHash(db, oldest);
      assert UserSessions(smaller, user) == mine - {oldest};
      TrimPossible(smaller, user, limit);
      var kept :| Trimmed(smaller, smaller.(sessions := kept), user, limit);
      TrimAfterOldest(db, oldest, kept, user, limit);
    }
  }

  lemma OldestOf(db: Db, mine: set<Hash>) returns (oldest: Hash)
    requires mine != {} && mine <= db.sessions.Keys
    ensures oldest in mine
    ensures forall h :: h in mine ==> db.sessions[oldest].lastAccessed <= db.sessions[h].lastAccessed
    decreases mine
  {
    oldest :| oldest in mine;
    if mine != {oldest} {
      var other := OldestOf(db, mine - {oldest});
      if db.sessions[other].lastAccessed < db.sessions[oldest].lastAccessed {
        oldest := other;
      }
    }
  }

  lemma TrimAfterOldest(db: Db, oldest: Hash, kept: map<Hash, SessionRow>, user: UserId, limit: nat)
    requires oldest in UserSessions(db, user) && limit < |UserSessions(db, user)|
    requires forall h :: h in UserSessions(db, user)
                         ==> db.sessions[oldest].lastAccessed <= db.sessions[h].lastAccessed
    requires var smaller := DeleteSessionByHash(db, oldest);
             Trimmed(smaller, smaller.(sessions := kept), user, limit)
    ensures Trimmed(db, db.(sessions := kept), user, limit)
  {
    var smaller := DeleteSessionByHash(db, oldest);
    var db' := db.(sessions := kept);
    assert UserSessions(smaller, user) == UserSessions(db, user) - {oldest};
    assert UserSessions(db', user) == UserSessions(smaller.(sessions := kept), user);
    assert UserSessions(db', user) <= UserSessions(smaller, user);
  }

  /** The trim touches one user only and never drops a session newer than one it keeps. */
  lemma TrimKeepsStrictlyNewest(db: Db, db': Db, user: UserId, limit: nat, newest: Hash)
    requires Trimmed(db, db', user, limit) && 0 < limit
    requires newest in UserSessions(db, user)
    requires forall h :: h in UserSessions(db, user) && h != newest
                         ==> db.sessions[h].lastAccessed < db.sessions[newest].lastAccessed
    ensures newest in UserSessions(db', user)
  {
  }
}
