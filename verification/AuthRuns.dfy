/**
 Runs of whole authentication operations under a strictly increasing clock. `issued` remembers
 every refresh token that was ever stored, with its owner and its expiry; the code keeps no such
 record, the theorems need it to speak about tokens whose rows are gone.
 */
module AuthRuns {
  import opened Collections
  import opened AuthTables
  import opened AuthService

  datatype Issue = Issue(user: UserId, expiresAt: Time)

  datatype World = World(db: Db, issued: map<Hash, Issue>, clock: Time)

  datatype Op =
    | Generate(user: UserId, newHash: Hash, answers: Answers)
    | Refresh(token: Hash, userFound: bool, newHash: Hash, answers: Answers)
    | Logout(token: Hash)
    | Touch(session: Hash)

  datatype Event = Event(now: Time, op: Op, reply: Reply)

  predicate TablesStep(cfg: Config, db: Db, e: Event, db': Db) {
    match e.op
    case Generate(user, newHash, answers) => Generates(cfg, db, db', user, newHash, e.now, answers, e.reply)
    case Refresh(token, userFound, newHash, answers) =>
      Refreshes(cfg, db, db', token, userFound, newHash, e.now, answers, e.reply)
    case Logout(token) => db' == (if token != "" then LoggedOut(db, token) else db) && e.reply == Done
    case Touch(session) => db' == Touched(db, session, e.now) && e.reply == Done
  }

  /** The owner of the token an operation generates. */
  function Owner(db: Db, op: Op): UserId
    requires op.Generate? || (op.Refresh? && op.token in db.tokens)
  {
    if op.Generate? then op.user else db.tokens[op.token].user
  }

  predicate FreshHash(w: World, op: Op) {
    op.Generate? || op.Refresh? ==> op.newHash !in w.issued && op.newHash != ""
  }

  predicate Step(cfg: Config, w: World, e: Event, w': World) {
    && w.clock < e.now == w'.clock
    && FreshHash(w, e.op)
    && TablesStep(cfg, w.db, e, w'.db)
    && w'.issued == if e.reply.Issued?
                    then w.issued[e.reply.hash := Issue(Owner(w.db, e.op), e.reply.expiresAt)]
                    else w.issued
  }

  predicate Run(cfg: Config, worlds: seq<World>, events: seq<Event>) {
    && |worlds| == |events| + 1
    && forall i :: 0 <= i < |events| ==> Step(cfg, worlds[i], events[i], worlds[i + 1])
  }

  const EMPTY := World(Db(map[], map[], 0), map[], 0)

  // ---------------------------------------------------------------------------------------
  // The invariant
  // ---------------------------------------------------------------------------------------

  predicate AccessedApart(rows: map<Hash, SessionRow>) {
    forall g, h :: g in rows && h in rows && rows[g].lastAccessed == rows[h].lastAccessed ==> g == h
  }

  /** Every row agrees with the record of what was issued, and row ids are unique. */
  predicate Consistent(w: World) {
    && (forall h :: h in w.db.tokens
                    ==> h in w.issued && w.issued[h] == Issue(w.db.tokens[h].user, w.db.tokens[h].expiresAt))
    && (forall h :: h in w.db.sessions ==> h in w.issued && w.issued[h].user == w.db.sessions[h].user)
    && (forall h :: h in w.db.tokens ==> w.db.tokens[h].id < w.db.nextId)
    && (forall g, h :: g in w.db.tokens && h in w.db.tokens && w.db.tokens[g].id == w.db.tokens[h].id ==> g == h)
    && (forall h :: h in w.db.sessions ==> w.db.sessions[h].lastAccessed <= w.clock)
    && AccessedApart(w.db.sessions)
    && "" !in w.issued
  }

  /** An unexpired token has a row exactly when it has a session. */
  predicate TablesAgree(w: World) {
    forall h :: h in w.issued && w.issued[h].expiresAt > w.clock ==> (h in w.db.tokens <==> h in w.db.sessions)
  }

  ghost predicate WithinLimit(cfg: Config, db: Db) {
    forall user: UserId :: |UserSessions(db, user)| <= cfg.maxSessions
  }

  ghost predicate Inv(cfg: Config, w: World) {
    Consistent(w) && TablesAgree(w) && WithinLimit(cfg, w.db)
  }

  lemma RevokedRemovesBothRows(w: World, h: Hash)
    requires Consistent(w) && h in w.db.tokens
    ensures Revoked(w.db, h) == LoggedOut(w.db, h)
  {
  }

  lemma RevokingKeepsInv(cfg: Config, w: World, h: Hash, now: Time)
    requires Inv(cfg, w) && w.clock < now
    ensures Inv(cfg, w.(db := LoggedOut(w.db, h), clock := now))
  {
    forall user: UserId
      ensures |UserSessions(LoggedOut(w.db, h), user)| <= cfg.maxSessions
    {
      SubsetCardinality(UserSessions(LoggedOut(w.db, h), user), UserSessions(w.db, user));
    }
  }

  /** TablesAgree, except that the given user may have unexpired tokens without a session. */
  predicate TablesAgreeButOrphansOf(w: World, user: UserId) {
    forall h :: h in w.issued && w.issued[h].expiresAt > w.clock
                ==> (h in w.db.sessions ==> h in w.db.tokens)
                    && (w.issued[h].user != user ==> (h in w.db.tokens ==> h in w.db.sessions))
  }

  lemma InsertingTokenLeavesOneOrphan(w: World, w': World, user: UserId, h: Hash, expiresAt: Time)
    requires Consistent(w) && TablesAgree(w) && h !in w.issued && h != ""
    requires w'.db == InsertToken(w.db, h, user, expiresAt)
    requires w'.issued == w.issued[h := Issue(user, expiresAt)] && w'.clock == w.clock
    ensures Consistent(w') && TablesAgreeButOrphansOf(w', user) && h !in w'.db.sessions
  {
  }

  lemma InsertingSessionKeepsConsistent(w: World, w': World, user: UserId, h: Hash)
    requires Consistent(w) && TablesAgreeButOrphansOf(w, user)
    requires h in w.db.tokens && w.db.tokens[h].user == user && h !in w.db.sessions
    requires forall g :: g in w.db.sessions ==> w.db.sessions[g].lastAccessed < w.clock
    requires w' == w.(db := InsertSession(w.db, h, user, w.clock))
    ensures Consistent(w') && TablesAgreeButOrphansOf(w', user)
  {
  }

  lemma EnforcingRemovesOrphans(cfg: Config, w: World, w': World, user: UserId)
    requires 0 < cfg.maxSessions && Consistent(w) && TablesAgreeButOrphansOf(w, user)
    requires LimitEnforced(cfg, w.db, w'.db, user, w.clock) && w'.issued == w.issued && w'.clock == w.clock
    ensures Consistent(w') && TablesAgree(w')
    ensures |UserSessions(w'.db, user)| <= cfg.maxSessions
    ensures forall other: UserId :: other != user ==> UserSessions(w'.db, other) == UserSessions(w.db, other)
  {
  }

  lemma InsertingConcernsOneUser(cfg: Config, db: Db, user: UserId, h: Hash, now: Time, sessionOk: bool)
    requires h in db.sessions ==> db.sessions[h].user == user
    ensures var db' := Inserted(cfg, db, user, h, now, sessionOk);
            forall other: UserId :: other != user ==> UserSessions(db', other) == UserSessions(db, other)
  {
  }

  lemma InsertingLeavesOrphansOfOne(cfg: Config, w: World, w': World, user: UserId, h: Hash, sessionOk: bool)
    requires Consistent(w) && TablesAgree(w) && h !in w.issued && h != ""
    requires forall g :: g in w.db.sessions ==> w.db.sessions[g].lastAccessed < w.clock
    requires w'.db == Inserted(cfg, w.db, user, h, w.clock, sessionOk)
    requires w'.issued == w.issued[h := Issue(user, w.clock + cfg.refreshTtl)] && w'.clock == w.clock
    ensures Consistent(w') && TablesAgreeButOrphansOf(w', user)
  {
    var stored := w'.(db := InsertToken(w.db, h, user, w.clock + cfg.refreshTtl));
    InsertingTokenLeavesOneOrphan(w, stored, user, h, w.clock + cfg.refreshTtl);
    if sessionOk {
      InsertingSessionKeepsConsistent(stored, w', user, h);
    }
  }

  lemma GeneratingKeepsInv(cfg: Config, w: World, w': World, user: UserId, h: Hash, answers: Answers, reply: Reply)
    requires 0 < cfg.maxSessions && Inv(cfg, w) && h !in w.issued && h != ""
    requires forall g :: g in w.db.sessions ==> w.db.sessions[g].lastAccessed < w.clock
    requires Generates(cfg, w.db, w'.db, user, h, w.clock, answers, reply)
    requires w'.issued == (if reply.Issued? then w.issued[h := Issue(user, reply.expiresAt)] else w.issued)
             && w'.clock == w.clock
    ensures Inv(cfg, w')
  {
    if reply.Issued? {
      var inserted := w'.(db := Inserted(cfg, w.db, user, h, w.clock, answers.sessionOk));
      InsertingConcernsOneUser(cfg, w.db, user, h, w.clock, answers.sessionOk);
      InsertingLeavesOrphansOfOne(cfg, w, inserted, user, h, answers.sessionOk);
      EnforcingRemovesOrphans(cfg, inserted, w', user);
    }
  }

  lemma RefreshingKeepsInv(cfg: Config, w: World, e: Event, w': World)
    requires 0 < cfg.maxSessions && Inv(cfg, w) && Step(cfg, w, e, w') && e.op.Refresh? && e.op.token in w.db.tokens
    ensures Inv(cfg, w')
  {
    var token := e.op.token;
    if e.now > w.db.tokens[token].expiresAt {
      assert forall user: UserId :: UserSessions(w'.db, user) == UserSessions(w.db, user);
    } else {
      RevokedRemovesBothRows(w, token);
      RevokingKeepsInv(cfg, w, token, e.now);
      if e.op.userFound {
        var revoked := w.(db := LoggedOut(w.db, token), clock := e.now);
        GeneratingKeepsInv(cfg, revoked, w', w.db.tokens[token].user, e.op.newHash, e.op.answers, e.reply);
      }
    }
  }

  lemma StepKeepsInv(cfg: Config, w: World, e: Event, w': World)
    requires 0 < cfg.maxSessions && Inv(cfg, w) && Step(cfg, w, e, w')
    ensures Inv(cfg, w')
  {
    match e.op
    case Generate(user, newHash, answers) =>
      GeneratingKeepsInv(cfg, w.(clock := e.now), w', user, newHash, answers, e.reply);
    case Refresh(token, _, _, _) =>
      if token in w.db.tokens {
        RefreshingKeepsInv(cfg, w, e, w');
      }
    case Logout(token) =>
      RevokingKeepsInv(cfg, w, token, e.now);
    case Touch(session) =>
      assert forall user: UserId :: UserSessions(w'.db, user) == UserSessions(w.db, user);
  }

  /** The invariant holds in every world of every run from the empty database. */
  lemma {:induction false} RunKeepsInv(cfg: Config, worlds: seq<World>, events: seq<Event>, i: nat)
    requires 0 < cfg.maxSessions && Run(cfg, worlds, events) && worlds[0] == EMPTY && i < |worlds|
    ensures Inv(cfg, worlds[i])
  {
    if i == 0 {
      assert forall user: UserId :: UserSessions(EMPTY.db, user) == {};
    } else {
      RunKeepsInv(cfg, worlds, events, i - 1);
      StepKeepsInv(cfg, worlds[i - 1], events[i - 1], worlds[i]);
    }
  }

  // ---------------------------------------------------------------------------------------
  // Theorems
  // ---------------------------------------------------------------------------------------

  function LiveTokens(w: World, user: UserId): set<Hash> {
    set h | h in w.db.tokens && w.db.tokens[h].user == user && w.db.tokens[h].expiresAt > w.clock
  }

  function LiveSessions(w: World, user: UserId): set<Hash> {
    set h | h in UserSessions(w.db, user) && h in w.issued && w.issued[h].expiresAt > w.clock
  }

  /** In every world of every run, a user's unexpired refresh tokens are those of the user's
      sessions whose token has not expired, and the session limit holds. */
  lemma LiveTokensAreLiveSessions(cfg: Config, worlds: seq<World>, events: seq<Event>, i: nat, user: UserId)
    requires 0 < cfg.maxSessions && Run(cfg, worlds, events) && worlds[0] == EMPTY && i < |worlds|
    ensures LiveTokens(worlds[i], user) == LiveSessions(worlds[i], user)
    ensures |UserSessions(worlds[i].db, user)| <= cfg.maxSessions
  {
    RunKeepsInv(cfg, worlds, events, i);
  }

  /** The service recognizes the token when it is presented at `now`. */
  predicate Honoured(w: World, h: Hash, now: Time) {
    h in w.db.tokens && now <= w.db.tokens[h].expiresAt
  }

  /** At any later instant a token is honoured exactly while its session exists and its expiry
      has not passed. */
  lemma HonouredIffSession(cfg: Config, worlds: seq<World>, events: seq<Event>, i: nat, h: Hash, now: Time)
    requires 0 < cfg.maxSessions && Run(cfg, worlds, events) && worlds[0] == EMPTY && i < |worlds|
    requires worlds[i].clock < now
    ensures Honoured(worlds[i], h, now)
       <==> h in worlds[i].db.sessions && h in worlds[i].issued && now <= worlds[i].issued[h].expiresAt
  {
    RunKeepsInv(cfg, worlds, events, i);
  }

  /** A token that was issued and whose row is gone or expired. */
  predicate Dead(w: World, h: Hash) {
    h in w.issued && (h in w.db.tokens ==> w.db.tokens[h].expiresAt <= w.clock)
  }

  lemma GeneratingAddsOnlyNewToken(cfg: Config, db: Db, db': Db, user: UserId, h: Hash, now: Time, answers: Answers,
                                   reply: Reply, g: Hash)
    requires Generates(cfg, db, db', user, h, now, answers, reply)
    requires g in db'.tokens && g != h
    ensures g in db.tokens && db'.tokens[g] == db.tokens[g]
  {
  }

  lemma DeadStaysDead(cfg: Config, w: World, e: Event, w': World, h: Hash)
    requires Step(cfg, w, e, w') && Dead(w, h)
    ensures Dead(w', h)
  {
  }

  /** The three ways in which a token is retired: exchanged, logged out, its session evicted. */
  predicate Retires(w: World, e: Event, w': World, h: Hash) {
    || (e.op.Refresh? && e.op.token == h && e.reply.Issued?)
    || (e.op.Logout? && e.op.token == h && h in w.issued)
    || (h in w.db.sessions && h !in w'.db.sessions)
  }

  lemma RetiredIsDead(cfg: Config, w: World, e: Event, w': World, h: Hash)
    requires 0 < cfg.maxSessions && Inv(cfg, w) && Step(cfg, w, e, w') && Retires(w, e, w', h)
    ensures Dead(w', h)
  {
    StepKeepsInv(cfg, w, e, w');
    if e.op.Refresh? && e.op.token == h && e.reply.Issued? && h in w'.db.tokens {
      GeneratingAddsOnlyNewToken(cfg, Revoked(w.db, h), w'.db, w.db.tokens[h].user, e.op.newHash, e.now, e.op.answers,
                                 e.reply, h);
    }
  }

  lemma DeadIsRefused(cfg: Config, w: World, e: Event, w': World)
    requires Step(cfg, w, e, w') && e.op.Refresh? && Dead(w, e.op.token)
    ensures e.reply in {Rejected(InvalidToken), Rejected(TokenExpired)}
  {
  }

  lemma {:induction false} DeadThroughRun(cfg: Config, worlds: seq<World>, events: seq<Event>, i: nat, j: nat,
                                          h: Hash)
    requires Run(cfg, worlds, events) && i <= j < |worlds| && Dead(worlds[i], h)
    ensures Dead(worlds[j], h)
  {
    if i < j {
      DeadThroughRun(cfg, worlds, events, i, j - 1, h);
      DeadStaysDead(cfg, worlds[j - 1], events[j - 1], worlds[j], h);
    }
  }

  lemma RetiredInRunIsDead(cfg: Config, worlds: seq<World>, events: seq<Event>, i: nat, h: Hash)
    requires 0 < cfg.maxSessions && Run(cfg, worlds, events) && worlds[0] == EMPTY
    requires i < |events| && Retires(worlds[i], events[i], worlds[i + 1], h)
    ensures Dead(worlds[i + 1], h)
  {
    var w, e, w' := worlds[i], events[i], worlds[i + 1];
    assert Step(cfg, w, e, w');
    RunKeepsInv(cfg, worlds, events, i);
    RetiredIsDead(cfg, w, e, w', h);
  }

  lemma DeadIsRefusedInRun(cfg: Config, worlds: seq<World>, events: seq<Event>, i: nat, j: nat)
    requires Run(cfg, worlds, events) && i <= j < |events|
    requires events[j].op.Refresh? && Dead(worlds[i], events[j].op.token)
    ensures events[j].reply in {Rejected(InvalidToken), Rejected(TokenExpired)}
  {
    DeadThroughRun(cfg, worlds, events, i, j, events[j].op.token);
    var w, e, w' := worlds[j], events[j], worlds[j + 1];
    assert Step(cfg, w, e, w');
    DeadIsRefused(cfg, w, e, w');
  }

  /** Once a refresh token has been exchanged, logged out or evicted, every later attempt to use
      it is refused. In particular no token is exchanged twice. */
  lemma RetiredTokenNeverHonoured(cfg: Config, worlds: seq<World>, events: seq<Event>, i: nat, j: nat, h: Hash)
    requires 0 < cfg.maxSessions && Run(cfg, worlds, events) && worlds[0] == EMPTY
    requires i < j < |events| && Retires(worlds[i], events[i], worlds[i + 1], h)
    requires events[j].op.Refresh? && events[j].op.token == h
    ensures events[j].reply in {Rejected(InvalidToken), Rejected(TokenExpired)}
  {
    RetiredInRunIsDead(cfg, worlds, events, i, h);
    DeadIsRefusedInRun(cfg, worlds, events, i + 1, j);
  }

  /** An exchange succeeds exactly when the presented token's session exists, the token has not
      expired, its owner still exists and the new token can be signed and stored. */
  lemma ExchangeSucceedsIff(cfg: Config, worlds: seq<World>, events: seq<Event>, i: nat)
    requires 0 < cfg.maxSessions && Run(cfg, worlds, events) && worlds[0] == EMPTY
    requires i < |events| && events[i].op.Refresh?
    ensures events[i].reply.Issued?
       <==> && events[i].op.token in worlds[i].db.sessions && events[i].op.token in worlds[i].issued
            && events[i].now <= worlds[i].issued[events[i].op.token].expiresAt
            && events[i].op.userFound && events[i].op.answers.signed && events[i].op.answers.tokenOk
  {
    RunKeepsInv(cfg, worlds, events, i);
    assert Step(cfg, worlds[i], events[i], worlds[i + 1]);
  }

  /** A presented refresh token never stays in the table, whatever the outcome. Its session goes
      with it, except that a token that has expired leaves its session behind. */
  lemma PresentedTokenIsSpent(cfg: Config, worlds: seq<World>, events: seq<Event>, i: nat)
    requires 0 < cfg.maxSessions && Run(cfg, worlds, events) && worlds[0] == EMPTY
    requires i < |events| && events[i].op.Refresh? && events[i].op.token in worlds[i].db.tokens
    ensures events[i].op.token !in worlds[i + 1].db.tokens
    ensures events[i].op.token in worlds[i + 1].db.sessions
       <==> events[i].op.token in worlds[i].db.sessions && events[i].reply == Rejected(TokenExpired)
  {
    RunKeepsInv(cfg, worlds, events, i);
    var w, e, w' := worlds[i], events[i], worlds[i + 1];
    assert Step(cfg, w, e, w');
    if e.now <= w.db.tokens[e.op.token].expiresAt {
      RevokedRemovesBothRows(w, e.op.token);
      if e.op.userFound {
        GeneratingTouchesOneUser(cfg, Revoked(w.db, e.op.token), w'.db, w.db.tokens[e.op.token].user, e.op.newHash,
                                 e.now, e.op.answers, e.reply, e.op.token);
      }
    }
  }

  /** The token of a successful reply can be used next exactly when its session row was stored:
      the service reports success even if that INSERT failed, and then sweeps the token away. */
  lemma ReturnedTokenValidIffSessionStored(cfg: Config, worlds: seq<World>, events: seq<Event>, i: nat, now: Time)
    requires 0 < cfg.maxSessions && Run(cfg, worlds, events) && worlds[0] == EMPTY && i < |events|
    requires events[i].reply.Issued? && events[i].now < now <= events[i].reply.expiresAt
    ensures events[i].op.Generate? || (events[i].op.Refresh? && events[i].op.token in worlds[i].db.tokens)
    ensures Honoured(worlds[i + 1], events[i].reply.hash, now) <==> events[i].op.answers.sessionOk
    ensures Honoured(worlds[i + 1], events[i].reply.hash, now)
            ==> && worlds[i + 1].db.tokens[events[i].reply.hash].user == Owner(worlds[i].db, events[i].op)
                && worlds[i + 1].db.tokens[events[i].reply.hash].expiresAt == events[i].now + cfg.refreshTtl
  {
    RunKeepsInv(cfg, worlds, events, i);
    RunKeepsInv(cfg, worlds, events, i + 1);
    var w, e, w' := worlds[i], events[i], worlds[i + 1];
    assert Step(cfg, w, e, w');
    var db := if e.op.Generate? then w.db else Revoked(w.db, e.op.token);
    NewSessionStoredIff(cfg, db, w'.db, Owner(w.db, e.op), e.op.newHash, e.now, e.op.answers, e.reply);
  }

  /** Such a run: the very first login replies with a token that is never honoured. */
  lemma UselessTokenIssued(cfg: Config, user: UserId, h: Hash, now: Time)
    returns (worlds: seq<World>, events: seq<Event>)
    requires 0 < cfg.maxSessions && 0 < cfg.refreshTtl && h != "" && 0 < now
    ensures Run(cfg, worlds, events) && worlds[0] == EMPTY
    ensures events == [Event(now, Generate(user, h, Answers(true, true, false)), Issued(h, now + cfg.refreshTtl))]
    ensures forall later :: !Honoured(worlds[1], h, later)
  {
    var event := Event(now, Generate(user, h, Answers(true, true, false)), Issued(h, now + cfg.refreshTtl));
    var world := World(Db(map[], map[], 1), map[h := Issue(user, now + cfg.refreshTtl)], now);
    worlds, events := [EMPTY, world], [event];
    var inserted := Inserted(cfg, EMPTY.db, user, h, now, false);
    assert UserSessions(inserted, user) == {};
    assert Trimmed(inserted, inserted, user, cfg.maxSessions);
    assert DeleteOrphans(inserted, user, now) == world.db;
    assert Step(cfg, EMPTY, event, world);
  }

  lemma NewSessionStoredIff(cfg: Config, db: Db, db': Db, user: UserId, h: Hash, now: Time, answers: Answers,
                            reply: Reply)
    requires 0 < cfg.maxSessions && Generates(cfg, db, db', user, h, now, answers, reply) && reply.Issued?
    requires h !in db.sessions
    requires forall g :: g in db.sessions ==> db.sessions[g].lastAccessed < now
    ensures h in db'.sessions <==> answers.sessionOk
  {
    if answers.sessionOk {
      var inserted := Inserted(cfg, db, user, h, now, answers.sessionOk);
      TrimKeepsStrictlyNewest(inserted, inserted.(sessions := db'.sessions), user, cfg.maxSessions, h);
    }
  }

  /** The user's sessions that were accessed after session `h`. */
  function NewerThan(db: Db, user: UserId, h: Hash): set<Hash>
    requires h in db.sessions
  {
    set g | g in UserSessions(db, user) && db.sessions[g].lastAccessed > db.sessions[h].lastAccessed
  }

  lemma InsertedApart(cfg: Config, db: Db, user: UserId, h: Hash, now: Time, sessionOk: bool)
    requires AccessedApart(db.sessions) && forall g :: g in db.sessions ==> db.sessions[g].lastAccessed < now
    ensures AccessedApart(Inserted(cfg, db, user, h, now, sessionOk).sessions)
  {
  }

  lemma SurvivorRank(db: Db, db': Db, user: UserId, limit: nat, g: Hash)
    requires 0 < limit && Trimmed(db, db', user, limit) && g in UserSessions(db, user)
    requires AccessedApart(db.sessions)
    ensures g in db'.sessions <==> |NewerThan(db, user, g)| < limit
  {
    var all, left, newer := UserSessions(db, user), UserSessions(db', user), NewerThan(db, user, g);
    assert left <= all;
    if g in left {
      assert newer <= left - {g};
      SubsetCardinality(newer, left - {g});
    } else {
      SubsetCardinality(left, all);
      assert left <= newer;
      SubsetCardinality(left, newer);
    }
  }

  lemma GeneratingTouchesOneUser(cfg: Config, db: Db, db': Db, user: UserId, h: Hash, now: Time, answers: Answers,
                                 reply: Reply, g: Hash)
    requires Generates(cfg, db, db', user, h, now, answers, reply) && h !in db.tokens && h !in db.sessions
    ensures g in db.sessions && db.sessions[g].user != user ==> g in db'.sessions
    ensures g in db'.sessions && g != h ==> g in db.sessions && db'.sessions[g] == db.sessions[g]
    ensures g in db.tokens && db.tokens[g].user != user ==> g in db'.tokens
    ensures g in db'.tokens && g != h ==> g in db.tokens && db'.tokens[g] == db.tokens[g]
    ensures h in db'.tokens ==> db'.tokens[h].user == user
    ensures h in db'.sessions ==> db'.sessions[h].user == user
  {
  }

  /** The tables an operation hands to token generation. */
  function BeforeGeneration(db: Db, op: Op): Db
    requires op.Generate? || (op.Refresh? && op.token in db.tokens)
  {
    if op.Generate? then db else Revoked(db, op.token)
  }

  /** An operation that issues a token keeps a session of the user exactly when fewer than
      `maxSessions` of the user's sessions, the new one included, were accessed after it. */
  lemma SurvivorsAreTheNewest(cfg: Config, worlds: seq<World>, events: seq<Event>, i: nat, g: Hash)
    requires 0 < cfg.maxSessions && Run(cfg, worlds, events) && worlds[0] == EMPTY && i < |events|
    requires events[i].reply.Issued?
    ensures events[i].op.Generate? || (events[i].op.Refresh? && events[i].op.token in worlds[i].db.tokens)
    ensures var e, user := events[i], Owner(worlds[i].db, events[i].op);
            var inserted := Inserted(cfg, BeforeGeneration(worlds[i].db, e.op), user, e.op.newHash, e.now,
                                     e.op.answers.sessionOk);
            && (g in UserSessions(inserted, user)
                ==> (g in worlds[i + 1].db.sessions <==> |NewerThan(inserted, user, g)| < cfg.maxSessions))
            && (e.op.answers.sessionOk ==> e.reply.hash in UserSessions(worlds[i + 1].db, user))
  {
    RunKeepsInv(cfg, worlds, events, i);
    var w, e, w' := worlds[i], events[i], worlds[i + 1];
    assert Step(cfg, w, e, w');
    var user, db := Owner(w.db, e.op), BeforeGeneration(w.db, e.op);
    var inserted := Inserted(cfg, db, user, e.op.newHash, e.now, e.op.answers.sessionOk);
    NewSessionStoredIff(cfg, db, w'.db, user, e.op.newHash, e.now, e.op.answers, e.reply);
    GeneratingTouchesOneUser(cfg, db, w'.db, user, e.op.newHash, e.now, e.op.answers, e.reply, e.op.newHash);
    if g in UserSessions(inserted, user) {
      InsertedApart(cfg, db, user, e.op.newHash, e.now, e.op.answers.sessionOk);
      SurvivorRank(inserted, inserted.(sessions := w'.db.sessions), user, cfg.maxSessions, g);
    }
  }

  /** The user an event acts for: the owner of the account or of the token it presents. */
  predicate ActsFor(w: World, op: Op, user: UserId) {
    match op
    case Generate(owner, _, _) => owner == user
    case Refresh(token, _, _, _) => token in w.issued && w.issued[token].user == user
    case Logout(token) => token in w.issued && w.issued[token].user == user
    case Touch(session) => session in w.issued && w.issued[session].user == user
  }

  /** Whatever one user's operations do, every other user's sessions and tokens stay as they are. */
  lemma OtherUsersUntouched(cfg: Config, worlds: seq<World>, events: seq<Event>, i: nat, user: UserId, g: Hash)
    requires 0 < cfg.maxSessions && Run(cfg, worlds, events) && worlds[0] == EMPTY && i < |events|
    requires !ActsFor(worlds[i], events[i].op, user)
    ensures var db, db' := worlds[i].db, worlds[i + 1].db;
            && (g in UserSessions(db, user) <==> g in UserSessions(db', user))
            && (g in UserSessions(db, user) ==> db'.sessions[g] == db.sessions[g])
            && ((g in db.tokens && db.tokens[g].user == user) <==> (g in db'.tokens && db'.tokens[g].user == user))
            && (g in db.tokens && db.tokens[g].user == user ==> db'.tokens[g] == db.tokens[g])
  {
    RunKeepsInv(cfg, worlds, events, i);
    var w, e, w' := worlds[i], events[i], worlds[i + 1];
    assert Step(cfg, w, e, w');
    match e.op
    case Generate(owner, newHash, answers) =>
      GeneratingTouchesOneUser(cfg, w.db, w'.db, owner, newHash, e.now, answers, e.reply, g);
    case Refresh(token, userFound, newHash, answers) =>
      if token in w.db.tokens && e.now <= w.db.tokens[token].expiresAt {
        RevokedRemovesBothRows(w, token);
        if userFound {
          GeneratingTouchesOneUser(cfg, Revoked(w.db, token), w'.db, w.db.tokens[token].user, newHash, e.now, answers,
                                   e.reply, g);
        }
      }
    case Logout(token) =>
    case Touch(session) =>
  }

  // ---------------------------------------------------------------------------------------
  // When rows go
  // ---------------------------------------------------------------------------------------

  /** The event hands this refresh token in, to exchange it or to log out. */
  predicate Presents(e: Event, h: Hash) {
    (e.op.Refresh? || e.op.Logout?) && e.op.token == h
  }

  lemma GeneratingSweepsIff(cfg: Config, db: Db, db': Db, user: UserId, h: Hash, now: Time, answers: Answers,
                            reply: Reply, g: Hash)
    requires 0 < cfg.maxSessions && Generates(cfg, db, db', user, h, now, answers, reply)
    requires g in db.tokens && (g in db.sessions ==> db.sessions[g].user == db.tokens[g].user)
    requires g !in db.sessions ==> db.tokens[g].expiresAt <= now || db.tokens[g].user != user
    ensures g !in db'.tokens <==> now < db.tokens[g].expiresAt && g in db.sessions && g !in db'.sessions
    ensures g in db'.tokens ==> db'.tokens[g] == db.tokens[g]
  {
  }

  /** A refresh token's row goes in an event exactly if the event presents the token, or evicts its
      session while the token has not expired. In particular the rows of expired tokens stay until
      they are presented. */
  lemma TokenRowLeavesIff(cfg: Config, worlds: seq<World>, events: seq<Event>, i: nat, h: Hash)
    requires 0 < cfg.maxSessions && Run(cfg, worlds, events) && worlds[0] == EMPTY
    requires i < |events| && h in worlds[i].db.tokens
    ensures h !in worlds[i + 1].db.tokens
       <==> || Presents(events[i], h)
            || (&& events[i].now < worlds[i].db.tokens[h].expiresAt
                && h in worlds[i].db.sessions && h !in worlds[i + 1].db.sessions)
    ensures h in worlds[i + 1].db.tokens ==> worlds[i + 1].db.tokens[h] == worlds[i].db.tokens[h]
  {
    RunKeepsInv(cfg, worlds, events, i);
    var w, e, w' := worlds[i], events[i], worlds[i + 1];
    assert Step(cfg, w, e, w');
    match e.op
    case Generate(user, newHash, answers) =>
      GeneratingSweepsIff(cfg, w.db, w'.db, user, newHash, e.now, answers, e.reply, h);
    case Refresh(token, userFound, newHash, answers) =>
      if token == h {
        PresentedTokenIsSpent(cfg, worlds, events, i);
      } else if token in w.db.tokens && e.now <= w.db.tokens[token].expiresAt {
        RevokedRemovesBothRows(w, token);
        if userFound {
          GeneratingSweepsIff(cfg, Revoked(w.db, token), w'.db, w.db.tokens[token].user, newHash, e.now, answers,
                              e.reply, h);
        }
      }
    case Logout(_) =>
    case Touch(_) =>
  }

  /** The reply to a refresh that issues nothing says what was wrong. */
  lemma RefreshRefusals(cfg: Config, worlds: seq<World>, events: seq<Event>, j: nat)
    requires Run(cfg, worlds, events) && j < |events| && events[j].op.Refresh?
    ensures events[j].reply == Rejected(InvalidToken) <==> events[j].op.token !in worlds[j].db.tokens
    ensures events[j].reply == Rejected(TokenExpired)
       <==> && events[j].op.token in worlds[j].db.tokens
            && worlds[j].db.tokens[events[j].op.token].expiresAt < events[j].now
    ensures events[j].reply == Rejected(UserNotFound)
       <==> && events[j].op.token in worlds[j].db.tokens
            && events[j].now <= worlds[j].db.tokens[events[j].op.token].expiresAt && !events[j].op.userFound
  {
    assert Step(cfg, worlds[j], events[j], worlds[j + 1]);
  }

  lemma {:induction false} ExpiredRowStays(cfg: Config, worlds: seq<World>, events: seq<Event>, i: nat, j: nat, h: Hash)
    requires 0 < cfg.maxSessions && Run(cfg, worlds, events) && worlds[0] == EMPTY
    requires i <= j < |worlds| && h in worlds[i].db.tokens
    requires forall m :: i <= m < j ==> worlds[i].db.tokens[h].expiresAt <= events[m].now && !Presents(events[m], h)
    ensures h in worlds[j].db.tokens && worlds[j].db.tokens[h] == worlds[i].db.tokens[h]
  {
    if i < j {
      ExpiredRowStays(cfg, worlds, events, i, j - 1, h);
      TokenRowLeavesIff(cfg, worlds, events, j - 1, h);
    }
  }

  /** A token whose row outlived its expiry is answered "expired" when it is presented for the first
      time after that, and "invalid" ever after, whoever logged in meanwhile. */
  lemma FirstPresentationAfterExpiry(cfg: Config, worlds: seq<World>, events: seq<Event>, i: nat, j: nat, h: Hash)
    requires 0 < cfg.maxSessions && Run(cfg, worlds, events) && worlds[0] == EMPTY
    requires i <= j < |events| && h in worlds[i].db.tokens
    requires forall m :: i <= m < j ==> worlds[i].db.tokens[h].expiresAt <= events[m].now && !Presents(events[m], h)
    requires events[j].op.Refresh? && events[j].op.token == h && worlds[i].db.tokens[h].expiresAt < events[j].now
    ensures events[j].reply == Rejected(TokenExpired)
    ensures forall n :: j < n < |events| && events[n].op.Refresh? && events[n].op.token == h
                        ==> events[n].reply == Rejected(InvalidToken)
  {
    ExpiredRowStays(cfg, worlds, events, i, j, h);
    RefreshRefusals(cfg, worlds, events, j);
    PresentedTokenIsSpent(cfg, worlds, events, j);
    RunKeepsInv(cfg, worlds, events, j);
    assert Step(cfg, worlds[j], events[j], worlds[j + 1]);
    forall n | j < n < |events| && events[n].op.Refresh? && events[n].op.token == h
      ensures events[n].reply == Rejected(InvalidToken)
    {
      GoneStaysGone(cfg, worlds, events, j + 1, n, h);
      RefreshRefusals(cfg, worlds, events, n);
    }
  }

  lemma GoneIsNotStored(cfg: Config, w: World, e: Event, w': World, h: Hash)
    requires Step(cfg, w, e, w') && h in w.issued && h !in w.db.tokens
    ensures h in w'.issued && h !in w'.db.tokens
  {
    if h in w'.db.tokens {
      match e.op
      case Generate(user, newHash, answers) =>
        GeneratingAddsOnlyNewToken(cfg, w.db, w'.db, user, newHash, e.now, answers, e.reply, h);
      case Refresh(token, userFound, newHash, answers) =>
        if token in w.db.tokens && e.now <= w.db.tokens[token].expiresAt && userFound {
          GeneratingAddsOnlyNewToken(cfg, Revoked(w.db, token), w'.db, w.db.tokens[token].user, newHash, e.now, answers,
                                     e.reply, h);
        }
      case _ =>
    }
  }

  lemma {:induction false} GoneStaysGone(cfg: Config, worlds: seq<World>, events: seq<Event>, i: nat, j: nat, h: Hash)
    requires Run(cfg, worlds, events) && i <= j < |worlds| && h in worlds[i].issued && h !in worlds[i].db.tokens
    ensures h in worlds[j].issued && h !in worlds[j].db.tokens
  {
    if i < j {
      GoneStaysGone(cfg, worlds, events, i, j - 1, h);
      assert Step(cfg, worlds[j - 1], events[j - 1], worlds[j]);
      GoneIsNotStored(cfg, worlds[j - 1], events[j - 1], worlds[j], h);
    }
  }

  /** The event stores the session, or marks it as used. */
  predicate Uses(e: Event, g: Hash) {
    (e.reply.Issued? && e.reply.hash == g) || (e.op.Touch? && e.op.session == g)
  }

  lemma StepKeepsAccessTimes(cfg: Config, w: World, e: Event, w': World, g: Hash)
    requires 0 < cfg.maxSessions && Inv(cfg, w) && Step(cfg, w, e, w') && g in w'.db.sessions
    ensures if Uses(e, g) then w'.db.sessions[g].lastAccessed == e.now
            else g in w.db.sessions && w'.db.sessions[g] == w.db.sessions[g]
  {
    match e.op
    case Generate(user, newHash, answers) =>
      GeneratingTouchesOneUser(cfg, w.db, w'.db, user, newHash, e.now, answers, e.reply, g);
    case Refresh(token, userFound, newHash, answers) =>
      if token in w.db.tokens && e.now <= w.db.tokens[token].expiresAt && userFound {
        RevokedRemovesBothRows(w, token);
        GeneratingTouchesOneUser(cfg, Revoked(w.db, token), w'.db, w.db.tokens[token].user, newHash, e.now, answers,
                                 e.reply, g);
      }
    case _ =>
  }

  lemma EventKeepsAccessTimes(cfg: Config, worlds: seq<World>, events: seq<Event>, m: nat, g: Hash)
    requires 0 < cfg.maxSessions && Run(cfg, worlds, events) && worlds[0] == EMPTY
    requires m < |events| && g in worlds[m + 1].db.sessions
    ensures if Uses(events[m], g) then worlds[m + 1].db.sessions[g].lastAccessed == events[m].now
            else g in worlds[m].db.sessions && worlds[m + 1].db.sessions[g] == worlds[m].db.sessions[g]
  {
    var w, e, w' := worlds[m], events[m], worlds[m + 1];
    RunKeepsInv(cfg, worlds, events, m);
    assert Step(cfg, w, e, w');
    StepKeepsAccessTimes(cfg, w, e, w', g);
  }

  /** A session's access time is the time of the last event that stored it or marked it as used. */
  lemma {:induction false} AccessTimeIsLastUse(cfg: Config, worlds: seq<World>, events: seq<Event>, i: nat, g: Hash)
    returns (m: nat)
    requires 0 < cfg.maxSessions && Run(cfg, worlds, events) && worlds[0] == EMPTY
    requires i < |worlds| && g in worlds[i].db.sessions
    ensures m < i && Uses(events[m], g) && worlds[i].db.sessions[g].lastAccessed == events[m].now
    ensures forall n :: m < n < i ==> !Uses(events[n], g)
  {
    m := i - 1;
    EventKeepsAccessTimes(cfg, worlds, events, m, g);
    if !Uses(events[m], g) {
      m := AccessTimeIsLastUse(cfg, worlds, events, m, g);
    }
  }

  /** The sessions of the same user that were used after `g`, apart from one that is being exchanged. */
  function NewerThanLeft(db: Db, e: Event, g: Hash): set<Hash>
    requires g in db.sessions
  {
    set f | && f in db.sessions && db.sessions[f].user == db.sessions[g].user
            && db.sessions[f].lastAccessed > db.sessions[g].lastAccessed && !(e.op.Refresh? && f == e.op.token)
  }

  /** The event stores a token for this user, and possibly its session, and too many others are newer. */
  predicate Evicts(cfg: Config, db: Db, e: Event, user: UserId, g: Hash)
    requires (e.op.Generate? || e.op.Refresh?) && g in db.sessions
  {
    && db.sessions[g].user == user
    && |NewerThanLeft(db, e, g)| + (if e.op.answers.sessionOk then 1 else 0) >= cfg.maxSessions
  }

  lemma NewerAfterInserting(cfg: Config, db: Db, e: Event, g: Hash)
    requires e.op.Generate? || (e.op.Refresh? && e.op.token in db.tokens)
    requires g in db.sessions && (e.op.Refresh? ==> e.op.token != g)
    requires e.op.newHash !in db.sessions && db.sessions[g].lastAccessed < e.now
    ensures var before := BeforeGeneration(db, e.op);
            var inserted := Inserted(cfg, before, db.sessions[g].user, e.op.newHash, e.now, e.op.answers.sessionOk);
            && g in UserSessions(inserted, db.sessions[g].user)
            && |NewerThan(inserted, db.sessions[g].user, g)|
            == |NewerThanLeft(db, e, g)| + if e.op.answers.sessionOk then 1 else 0
  {
    var before, user, newer := BeforeGeneration(db, e.op), db.sessions[g].user, NewerThanLeft(db, e, g);
    assert NewerThan(before, user, g) == newer;
    NewerThanInserted(cfg, before, user, e.op.newHash, e.now, e.op.answers.sessionOk, g);
  }

  lemma NewerThanInserted(cfg: Config, db: Db, user: UserId, h: Hash, now: Time, sessionOk: bool, g: Hash)
    requires g in db.sessions && db.sessions[g].user == user && h !in db.sessions && db.sessions[g].lastAccessed < now
    ensures g in Inserted(cfg, db, user, h, now, sessionOk).sessions
    ensures |NewerThan(Inserted(cfg, db, user, h, now, sessionOk), user, g)|
         == |NewerThan(db, user, g)| + if sessionOk then 1 else 0
  {
    var newer, newer' := NewerThan(db, user, g), NewerThan(Inserted(cfg, db, user, h, now, sessionOk), user, g);
    assert newer' == if sessionOk then newer + {h} else newer;
  }

  /** A session goes in an event exactly if the event logs it out, exchanges its token before the
      expiry (even if no new token results), or stores a token for its user while at least
      `maxSessions` sessions of the user, the new one included, are newer. */
  lemma SessionLeavesIff(cfg: Config, worlds: seq<World>, events: seq<Event>, i: nat, g: Hash)
    requires 0 < cfg.maxSessions && Run(cfg, worlds, events) && worlds[0] == EMPTY
    requires i < |events| && g in worlds[i].db.sessions
    ensures var e := events[i];
            g !in worlds[i + 1].db.sessions
            <==> || (e.op.Logout? && e.op.token == g)
                 || (e.op.Refresh? && e.op.token == g && e.reply !in {Rejected(InvalidToken), Rejected(TokenExpired)})
                 || (e.reply.Issued? && (e.op.Generate? || e.op.Refresh?) && e.reply.hash in worlds[i + 1].issued
                     && Evicts(cfg, worlds[i].db, e, worlds[i + 1].issued[e.reply.hash].user, g))
  {
    RunKeepsInv(cfg, worlds, events, i);
    var w, e, w' := worlds[i], events[i], worlds[i + 1];
    assert Step(cfg, w, e, w');
    if e.op.Refresh? && e.op.token == g {
      if g in w.db.tokens {
        PresentedTokenIsSpent(cfg, worlds, events, i);
      }
    } else if e.reply.Issued? {
      var user, db := Owner(w.db, e.op), BeforeGeneration(w.db, e.op);
      if w.db.sessions[g].user == user {
        NewerAfterInserting(cfg, w.db, e, g);
        SurvivorsAreTheNewest(cfg, worlds, events, i, g);
      } else {
        GeneratingTouchesOneUser(cfg, db, w'.db, user, e.op.newHash, e.now, e.op.answers, e.reply, g);
      }
    }
  }
}
