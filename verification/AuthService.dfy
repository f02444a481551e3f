/**
 The authentication service: Login and Register (their common tail), RefreshToken and Logout as
 sequences of SQL statements over the two tables. Each whole operation happens at one instant
 `now`; what the environment decides (does an INSERT succeed, does the user still exist, which
 fresh hash does token generation produce) is a parameter.
 */
module AuthService {
  import opened AuthTables

  datatype Config = Config(maxSessions: int, refreshTtl: int)

  /** Do the signing of the two tokens and each of the two INSERT statements succeed? */
  datatype Answers = Answers(signed: bool, tokenOk: bool, sessionOk: bool)

  datatype Error = InvalidToken | TokenExpired | UserNotFound | SigningFailed | StoreFailed

  datatype Reply = Issued(hash: Hash, expiresAt: Time) | Rejected(error: Error) | Done

  /** The limit the configuration loader hands to the service. */
  function LoadedLimit(configured: int): (limit: int)
    ensures 0 < limit
    ensures 0 < configured ==> limit == configured
    ensures configured <= 0 ==> limit == 2
  {
    if configured <= 0 then 2 else configured
  }

  // ---------------------------------------------------------------------------------------
  // What each operation does to the tables, composed from the statements
  // ---------------------------------------------------------------------------------------

  predicate LimitEnforced(cfg: Config, db: Db, db': Db, user: UserId, now: Time) {
    if cfg.maxSessions <= 0 then
      db' == db
    else
      var trimmed := db.(sessions := db'.sessions);
      && Trimmed(db, trimmed, user, cfg.maxSessions)
      && db' == DeleteOrphans(trimmed, user, now)
  }

  /** The tables after the two INSERTs and before the limit is enforced. */
  function Inserted(cfg: Config, db: Db, user: UserId, h: Hash, now: Time, sessionOk: bool): Db {
    var db1 := InsertToken(db, h, user, now + cfg.refreshTtl);
    if sessionOk && h !in db1.sessions then InsertSession(db1, h, user, now) else db1
  }

  predicate Generates(cfg: Config, db: Db, db': Db, user: UserId, h: Hash, now: Time, answers: Answers,
                      reply: Reply)
  {
    if !answers.signed then
      db' == db && reply == Rejected(SigningFailed)
    else if !answers.tokenOk || h in db.tokens then
      db' == db && reply == Rejected(StoreFailed)
    else
      && LimitEnforced(cfg, Inserted(cfg, db, user, h, now, answers.sessionOk), db', user, now)
      && reply == Issued(h, now + cfg.refreshTtl)
  }

  /** The tables after a presented token has been revoked, session first. */
  function Revoked(db: Db, h: Hash): Db
    requires h in db.tokens
  {
    DeleteTokenById(DeleteSessionByHash(db, h), db.tokens[h].id)
  }

  predicate Refreshes(cfg: Config, db: Db, db': Db, h: Hash, userFound: bool, newHash: Hash, now: Time,
                      answers: Answers, reply: Reply)
  {
    if h !in db.tokens then
      db' == db && reply == Rejected(InvalidToken)
    else if now > db.tokens[h].expiresAt then
      db' == DeleteTokenById(db, db.tokens[h].id) && reply == Rejected(TokenExpired)
    else if !userFound then
      db' == Revoked(db, h) && reply == Rejected(UserNotFound)
    else
      Generates(cfg, Revoked(db, h), db', db.tokens[h].user, newHash, now, answers, reply)
  }

  function LoggedOut(db: Db, h: Hash): Db {
    DeleteTokenByHash(DeleteSessionByHash(db, h), h)
  }

  // ---------------------------------------------------------------------------------------
  // The service
  // ---------------------------------------------------------------------------------------

  class Service {
    const cfg: Config
    var tokens: map<Hash, TokenRow>
    var sessions: map<Hash, SessionRow>
    var nextId: RowId

    constructor (cfg: Config)
      ensures this.cfg == cfg && Tables() == Db(map[], map[], 0)
    {
      this.cfg := cfg;
      tokens, sessions, nextId := map[], map[], 0;
    }

    ghost function Tables(): Db
      reads this
    {
      Db(tokens, sessions, nextId)
    }

    method EnforceSessionLimit(user: UserId, now: Time)
      modifies this
      ensures LimitEnforced(cfg, old(Tables()), Tables(), user, now)
    {
      if cfg.maxSessions <= 0 {
        return;
      }
      var db := Db(tokens, sessions, nextId);
      TrimPossible(db, user, cfg.maxSessions);
      var kept :| Trimmed(db, db.(sessions := kept), user, cfg.maxSessions);
      sessions := kept;
      tokens := DeleteOrphans(Db(tokens, sessions, nextId), user, now).tokens;
    }

    method GenerateTokens(user: UserId, h: Hash, now: Time, answers: Answers) returns (reply: Reply)
      modifies this
      ensures Generates(cfg, old(Tables()), Tables(), user, h, now, answers, reply)
    {
      if !answers.signed {
        return Rejected(SigningFailed);
      }
      var refreshExp := now + cfg.refreshTtl;
      if !answers.tokenOk || h in tokens {
        return Rejected(StoreFailed);
      }
      tokens, nextId := tokens[h := TokenRow(nextId, user, refreshExp)], nextId + 1;
      if answers.sessionOk && h !in sessions {
        sessions := sessions[h := SessionRow(user, now)];
      }
      assert Tables() == Inserted(cfg, old(Tables()), user, h, now, answers.sessionOk);
      EnforceSessionLimit(user, now);
      return Issued(h, refreshExp);
    }

    method RefreshToken(h: Hash, userFound: bool, newHash: Hash, now: Time, answers: Answers) returns (reply: Reply)
      modifies this
      ensures Refreshes(cfg, old(Tables()), Tables(), h, userFound, newHash, now, answers, reply)
    {
      if h !in tokens {
        return Rejected(InvalidToken);
      }
      var row := tokens[h];
      if now > row.expiresAt {
        tokens := map x | x in tokens && tokens[x].id != row.id :: tokens[x];
        return Rejected(TokenExpired);
      }
      sessions := sessions - {h};
      tokens := map x | x in tokens && tokens[x].id != row.id :: tokens[x];
      if !userFound {
        return Rejected(UserNotFound);
      }
      reply := GenerateTokens(row.user, newHash, now, answers);
    }

    /** The refresh-token half of a logout; an empty token is ignored. */
    method Logout(h: Hash, now: Time) returns (reply: Reply)
      modifies this
      ensures Tables() == if h != "" then LoggedOut(old(Tables()), h) else old(Tables())
      ensures reply == Done
    {
      if h != "" {
        sessions := sessions - {h};
        tokens := tokens - {h};
      }
      reply := Done;
    }

    /** SessionRepository.UpdateLastAccessed, the session being named by its unique hash. */
    method UpdateLastAccessed(h: Hash, now: Time)
      modifies this
      ensures Tables() == Touched(old(Tables()), h, now)
    {
      if h in sessions {
        sessions := sessions[h := sessions[h].(lastAccessed := now)];
      }
    }
  }

  function Touched(db: Db, h: Hash, now: Time): Db {
    if h in db.sessions then db.(sessions := db.sessions[h := db.sessions[h].(lastAccessed := now)]) else db
  }
}
