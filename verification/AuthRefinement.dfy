/**
 The two models of authentication agree: when the statements of one operation run without any
 other operation in between, they do to the tables what the whole operation does.
 */
module AuthRefinement {
  import opened AuthTables
  import opened AuthService
  import opened AuthInterleaving

  /** A stretch of a run in which only `op` moves, until it has finished. */
  predicate Alone(limit: nat, states: seq<Sys>, steps: seq<Step>, op: OpId) {
    && |states| == |steps| + 1
    && (forall i :: 0 <= i < |steps|
                    ==> steps[i].Advance? && steps[i].op == op && Next(limit, states[i], steps[i], states[i + 1]))
    && op in states[0].ops && op !in states[|steps|].ops
  }

  lemma AloneGoesOn(limit: nat, states: seq<Sys>, steps: seq<Step>, op: OpId)
    requires Alone(limit, states, steps, op)
    ensures 0 < |steps| && Advances(limit, states[0], op, steps[0].answer, states[1])
            && states[1].clock == states[0].clock
    ensures if op in states[1].ops then Alone(limit, states[1..], steps[1..], op) else |steps| == 1
  {
    assert Next(limit, states[0], steps[0], states[1]);
    assert 1 < |steps| ==> Next(limit, states[1], steps[1], states[2]);
  }

  lemma AloneEnforces(cfg: Config, states: seq<Sys>, steps: seq<Step>, op: OpId)
    requires 0 < cfg.maxSessions && Alone(cfg.maxSessions, states, steps, op) && states[0].ops[op].Trimming?
    ensures LimitEnforced(cfg, states[0].db, states[|steps|].db, states[0].ops[op].user, states[0].clock)
  {
    AloneGoesOn(cfg.maxSessions, states, steps, op);
    AloneGoesOn(cfg.maxSessions, states[1..], steps[1..], op);
    assert states[1].db == states[0].db.(sessions := states[2].db.sessions);
  }

  /** Both INSERTs, when the first one does not end the operation. */
  lemma AloneInserts(cfg: Config, states: seq<Sys>, steps: seq<Step>, op: OpId)
    requires 0 < cfg.maxSessions && Alone(cfg.maxSessions, states, steps, op) && 1 < |steps|
    requires states[0].ops[op].InsertingToken? && states[0].ops[op].expiresAt == states[0].clock + cfg.refreshTtl
    ensures 2 < |steps| && Alone(cfg.maxSessions, states[2..], steps[2..], op)
    ensures var pc, db := states[0].ops[op], states[0].db;
            && pc.hash !in db.tokens && states[2].ops[op] == Trimming(pc.user) && states[2].clock == states[0].clock
            && states[2].db == Inserted(cfg, db, pc.user, pc.hash, states[0].clock, !steps[1].answer.Failure?)
  {
    AloneGoesOn(cfg.maxSessions, states, steps, op);
    var pc := states[0].ops[op];
    assert states[1].ops[op] == InsertingSession(pc.user, pc.hash);
    AloneGoesOn(cfg.maxSessions, states[1..], steps[1..], op);
    assert states[1..][1..] == states[2..] && steps[1..][1..] == steps[2..];
  }

  lemma AloneGenerates(cfg: Config, states: seq<Sys>, steps: seq<Step>, op: OpId)
    returns (answers: Answers, reply: Reply)
    requires 0 < cfg.maxSessions && Alone(cfg.maxSessions, states, steps, op)
    requires states[0].ops[op].InsertingToken? && states[0].ops[op].expiresAt == states[0].clock + cfg.refreshTtl
    ensures var pc := states[0].ops[op];
            Generates(cfg, states[0].db, states[|steps|].db, pc.user, pc.hash, states[0].clock, answers, reply)
  {
    AloneGoesOn(cfg.maxSessions, states, steps, op);
    var pc := states[0].ops[op];
    if |steps| == 1 {
      answers, reply := Answers(true, false, false), Rejected(StoreFailed);
    } else {
      AloneInserts(cfg, states, steps, op);
      answers, reply := Answers(true, true, !steps[1].answer.Failure?), Issued(pc.hash, pc.expiresAt);
      AloneEnforces(cfg, states[2..], steps[2..], op);
    }
  }

  lemma AloneRefreshes(cfg: Config, states: seq<Sys>, steps: seq<Step>, op: OpId)
    returns (userFound: bool, newHash: Hash, answers: Answers, reply: Reply)
    requires 0 < cfg.maxSessions && Alone(cfg.maxSessions, states, steps, op) && states[0].ops[op].Looking?
    requires forall i :: 0 <= i < |steps| && steps[i].answer.UserFound?
                         ==> steps[i].answer.expiresAt == states[0].clock + cfg.refreshTtl
    ensures Refreshes(cfg, states[0].db, states[|steps|].db, states[0].ops[op].hash, userFound, newHash,
                      states[0].clock, answers, reply)
  {
    var limit, h, db := cfg.maxSessions, states[0].ops[op].hash, states[0].db;
    userFound, newHash, answers, reply := false, "", Answers(true, false, false), Rejected(UserNotFound);
    AloneGoesOn(limit, states, steps, op);
    if h !in db.tokens {
      reply := Rejected(InvalidToken);
    } else if states[0].clock > db.tokens[h].expiresAt {
      AloneGoesOn(limit, states[1..], steps[1..], op);
      reply := Rejected(TokenExpired);
    } else {
      AloneGoesOn(limit, states[1..], steps[1..], op);
      AloneGoesOn(limit, states[2..], steps[2..], op);
      assert states[3].db == Revoked(db, h);
      AloneGoesOn(limit, states[3..], steps[3..], op);
      if steps[3].answer.UserFound? {
        userFound, newHash := true, steps[3].answer.hash;
        answers, reply := AloneGenerates(cfg, states[4..], steps[4..], op);
      }
    }
  }

  lemma AloneLogsOut(limit: nat, states: seq<Sys>, steps: seq<Step>, op: OpId)
    requires Alone(limit, states, steps, op) && states[0].ops[op].LogoutSession?
    ensures states[|steps|].db == LoggedOut(states[0].db, states[0].ops[op].hash)
  {
    AloneGoesOn(limit, states, steps, op);
    AloneGoesOn(limit, states[1..], steps[1..], op);
  }
}
