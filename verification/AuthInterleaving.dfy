/**
 The same operations with every SQL statement a step of its own and any number of operations in
 flight. There is no transaction around an operation, so the statements of different operations
 interleave arbitrarily. A program counter says which statement an operation sends next, with
 the local data that statement needs.
 */
module AuthInterleaving {
  import opened Collections
  import opened AuthTables

  type OpId = nat

  datatype Pc =
    | InsertingToken(user: UserId, hash: Hash, expiresAt: Time)
    | InsertingSession(user: UserId, hash: Hash)
    | Trimming(user: UserId)
    | Sweeping(user: UserId)
    | Looking(hash: Hash)
    | DroppingExpired(id: RowId)
    | DroppingSession(user: UserId, hash: Hash, id: RowId)
    | DroppingToken(user: UserId, id: RowId)
    | FindingUser(user: UserId)
    | LogoutSession(hash: Hash)
    | LogoutToken(hash: Hash)

  /** `owner` records who each refresh token was generated for. */
  datatype Sys = Sys(db: Db, owner: map<Hash, UserId>, ops: map<OpId, Pc>, clock: Time)

  /** How the environment answers the next statement of an operation: it may refuse an INSERT,
      and the user lookup of a refresh may find the user, for whom a fresh token is generated. */
  datatype Answer = Success | Failure | UserFound(hash: Hash, expiresAt: Time)

  datatype Step =
    | Tick(now: Time)
    | StartGenerate(op: OpId, user: UserId, hash: Hash, expiresAt: Time)  // Login, Register
    | StartRefresh(op: OpId, hash: Hash)
    | StartLogout(op: OpId, hash: Hash)
    | Advance(op: OpId, answer: Answer)

  function Goto(s: Sys, op: OpId, pc: Pc): Sys {
    s.(ops := s.ops[op := pc])
  }

  function Finish(s: Sys, op: OpId): Sys {
    s.(ops := s.ops - {op})
  }

  function AfterLook(s: Sys, op: OpId, h: Hash): Sys {
    if h !in s.db.tokens then
      Finish(s, op)
    else if s.clock > s.db.tokens[h].expiresAt then
      Goto(s, op, DroppingExpired(s.db.tokens[h].id))
    else
      Goto(s, op, DroppingSession(s.db.tokens[h].user, h, s.db.tokens[h].id))
  }

  /** The operation sends its next statement. */
  predicate Advances(limit: nat, s: Sys, op: OpId, answer: Answer, s': Sys)
    requires op in s.ops
  {
    match s.ops[op]
    case InsertingToken(user, h, expiresAt) =>
      s' == if answer.Failure? || h in s.db.tokens
            then Finish(s, op)
            else Goto(s.(db := InsertToken(s.db, h, user, expiresAt)), op, InsertingSession(user, h))
    case InsertingSession(user, h) =>
      s' == if answer.Failure? || h in s.db.sessions
            then Goto(s, op, Trimming(user))
            else Goto(s.(db := InsertSession(s.db, h, user, s.clock)), op, Trimming(user))
    case Trimming(user) =>
      Trimmed(s.db, s'.db, user, limit) && s' == Goto(s.(db := s'.db), op, Sweeping(user))
    case Sweeping(user) => s' == Finish(s.(db := DeleteOrphans(s.db, user, s.clock)), op)
    case Looking(h) => s' == AfterLook(s, op, h)
    case DroppingExpired(id) => s' == Finish(s.(db := DeleteTokenById(s.db, id)), op)
    case DroppingSession(user, h, id) => s' == Goto(s.(db := DeleteSessionByHash(s.db, h)), op, DroppingToken(user, id))
    case DroppingToken(user, id) => s' == Goto(s.(db := DeleteTokenById(s.db, id)), op, FindingUser(user))
    case FindingUser(user) =>
      if answer.UserFound?
      then StartsGenerating(s, op, user, answer.hash, answer.expiresAt, s')
      else s' == Finish(s, op)
    case LogoutSession(h) => s' == Goto(s.(db := DeleteSessionByHash(s.db, h)), op, LogoutToken(h))
    case LogoutToken(h) => s' == Finish(s.(db := DeleteTokenByHash(s.db, h)), op)
  }

  /** A token is generated; its hash has never been seen before. */
  predicate StartsGenerating(s: Sys, op: OpId, user: UserId, h: Hash, expiresAt: Time, s': Sys) {
    h !in s.owner && s' == Goto(s.(owner := s.owner[h := user]), op, InsertingToken(user, h, expiresAt))
  }

  predicate Next(limit: nat, s: Sys, step: Step, s': Sys) {
    match step
    case Tick(now) => s.clock < now && s' == s.(clock := now)
    case StartGenerate(op, user, h, expiresAt) => op !in s.ops && StartsGenerating(s, op, user, h, expiresAt, s')
    case StartRefresh(op, h) => op !in s.ops && s' == Goto(s, op, Looking(h))
    case StartLogout(op, h) => op !in s.ops && h != "" && s' == Goto(s, op, LogoutSession(h))
    case Advance(op, answer) => op in s.ops && Advances(limit, s, op, answer, s')
  }

  predicate Run(limit: nat, states: seq<Sys>, steps: seq<Step>) {
    && |states| == |steps| + 1
    && states[0].db == Db(map[], map[], 0) && states[0].ops == map[] && states[0].owner == map[]
    && forall i :: 0 <= i < |steps| ==> Next(limit, states[i], steps[i], states[i + 1])
  }

  // ---------------------------------------------------------------------------------------
  // The session limit
  // ---------------------------------------------------------------------------------------

  /** The user's operations that are between storing a session and trimming. */
  function AboutToTrim(s: Sys, user: UserId): set<OpId> {
    set op | op in s.ops && s.ops[op] == Trimming(user)
  }

  ghost predicate LimitInv(limit: nat, s: Sys) {
    forall user: UserId :: |UserSessions(s.db, user)| <= limit + |AboutToTrim(s, user)|
  }

  /** Covers every step that neither stores a session nor leaves `Trimming`. */
  lemma LimitKeptIfNothingGrows(limit: nat, s: Sys, s': Sys)
    requires LimitInv(limit, s)
    requires forall user: UserId :: UserSessions(s'.db, user) <= UserSessions(s.db, user)
    requires forall user: UserId :: AboutToTrim(s, user) <= AboutToTrim(s', user)
    ensures LimitInv(limit, s')
  {
    forall user: UserId
      ensures |UserSessions(s'.db, user)| <= limit + |AboutToTrim(s', user)|
    {
      SubsetCardinality(UserSessions(s'.db, user), UserSessions(s.db, user));
      SubsetCardinality(AboutToTrim(s, user), AboutToTrim(s', user));
    }
  }

  lemma StoredSessionCounts(db: Db, h: Hash, user: UserId, now: Time)
    requires h !in db.sessions
    ensures |UserSessions(InsertSession(db, h, user, now), user)| == |UserSessions(db, user)| + 1
    ensures forall other: UserId :: other != user
                                    ==> UserSessions(InsertSession(db, h, user, now), other) == UserSessions(db, other)
  {
    assert UserSessions(InsertSession(db, h, user, now), user) == UserSessions(db, user) + {h};
  }

  lemma ArrivalCounts(s: Sys, s': Sys, op: OpId, user: UserId)
    requires op in s.ops && !s.ops[op].Trimming? && s'.ops == s.ops[op := Trimming(user)]
    ensures |AboutToTrim(s', user)| == |AboutToTrim(s, user)| + 1
    ensures forall other: UserId :: other != user ==> AboutToTrim(s', other) == AboutToTrim(s, other)
  {
    assert AboutToTrim(s', user) == AboutToTrim(s, user) + {op};
  }

  lemma StoringKeepsLimit(limit: nat, s: Sys, step: Step, s': Sys)
    requires step.Advance? && step.op in s.ops && s.ops[step.op].InsertingSession? && LimitInv(limit, s)
             && Next(limit, s, step, s')
    ensures LimitInv(limit, s')
  {
    var pc := s.ops[step.op];
    if step.answer.Failure? || pc.hash in s.db.sessions {
      LimitKeptIfNothingGrows(limit, s, s');
    } else {
      StoredSessionCounts(s.db, pc.hash, pc.user, s.clock);
      ArrivalCounts(s, s', step.op, pc.user);
    }
  }

  lemma TrimmingKeepsLimit(limit: nat, s: Sys, step: Step, s': Sys)
    requires step.Advance? && step.op in s.ops && s.ops[step.op].Trimming? && LimitInv(limit, s)
             && Next(limit, s, step, s')
    ensures LimitInv(limit, s')
  {
    forall user: UserId
      ensures |UserSessions(s'.db, user)| <= limit + |AboutToTrim(s', user)|
    {
      if user != s.ops[step.op].user {
        assert UserSessions(s'.db, user) == UserSessions(s.db, user);
        assert AboutToTrim(s', user) == AboutToTrim(s, user);
      }
    }
  }

  lemma StepKeepsLimit(limit: nat, s: Sys, step: Step, s': Sys)
    requires LimitInv(limit, s) && Next(limit, s, step, s')
    ensures LimitInv(limit, s')
  {
    if step.Advance? && s.ops[step.op].InsertingSession? {
      StoringKeepsLimit(limit, s, step, s');
    } else if step.Advance? && s.ops[step.op].Trimming? {
      TrimmingKeepsLimit(limit, s, step, s');
    } else {
      LimitKeptIfNothingGrows(limit, s, s');
    }
  }

  /** Under every interleaving a user has at most `limit` sessions more than the number of that
      user's operations between storing a session and trimming. */
  lemma {:induction false} SessionsBounded(limit: nat, states: seq<Sys>, steps: seq<Step>, i: nat, user: UserId)
    requires Run(limit, states, steps) && i < |states|
    ensures |UserSessions(states[i].db, user)| <= limit + |AboutToTrim(states[i], user)|
    ensures states[i].ops == map[] ==> |UserSessions(states[i].db, user)| <= limit
  {
    LimitThroughRun(limit, states, steps, i);
    if states[i].ops == map[] {
      assert AboutToTrim(states[i], user) == {};
    }
  }

  lemma {:induction false} LimitThroughRun(limit: nat, states: seq<Sys>, steps: seq<Step>, i: nat)
    requires Run(limit, states, steps) && i < |states|
    ensures LimitInv(limit, states[i])
  {
    if i == 0 {
      assert forall user: UserId :: UserSessions(states[0].db, user) == {};
    } else {
      LimitThroughRun(limit, states, steps, i - 1);
      StepKeepsLimit(limit, states[i - 1], steps[i - 1], states[i]);
    }
  }

  // ---------------------------------------------------------------------------------------
  // Orphans
  // ---------------------------------------------------------------------------------------

  predicate Orphan(s: Sys, h: Hash) {
    h in s.db.tokens && h !in s.db.sessions && s.db.tokens[h].expiresAt > s.clock
  }

  /** The operation at `pc` will still give token `h` a session or delete it. */
  predicate WillSettle(s: Sys, pc: Pc, h: Hash)
    requires h in s.db.tokens
  {
    var row := s.db.tokens[h];
    match pc
    case InsertingSession(user, hash) => hash == h && user == row.user
    case Trimming(user) => user == row.user
    case Sweeping(user) => user == row.user
    case DroppingToken(user, id) => id == row.id && user == row.user
    case LogoutToken(hash) => hash == h
    case _ => false
  }

  predicate Settled(s: Sys, h: Hash)
    requires h in s.db.tokens
  {
    exists op :: op in s.ops && WillSettle(s, s.ops[op], h)
  }

  /** Rows agree on owners, and row ids are unique. */
  predicate RowsOwned(s: Sys) {
    && (forall h :: h in s.db.tokens
                    ==> h in s.owner && s.owner[h] == s.db.tokens[h].user && s.db.tokens[h].id < s.db.nextId)
    && (forall h :: h in s.db.sessions ==> h in s.owner && s.owner[h] == s.db.sessions[h].user)
    && (forall g, h :: g in s.db.tokens && h in s.db.tokens && s.db.tokens[g].id == s.db.tokens[h].id ==> g == h)
  }

  /** What an operation remembers is still right when it uses it. */
  predicate PcOwned(s: Sys, pc: Pc) {
    match pc
    case InsertingToken(user, h, _) => h in s.owner && s.owner[h] == user && h !in s.db.tokens
    case InsertingSession(user, h) => h in s.owner && s.owner[h] == user
    case DroppingSession(user, h, id) =>
      && h in s.owner && s.owner[h] == user && id < s.db.nextId
      && (h in s.db.tokens ==> s.db.tokens[h].id == id)
    case DroppingToken(user, id) => id < s.db.nextId
    case DroppingExpired(id) => id < s.db.nextId
    case _ => true
  }

  /** Nobody else knows a hash that is about to be stored. */
  predicate Apart(pc: Pc, other: Pc) {
    pc.InsertingToken? && (other.InsertingToken? || other.DroppingSession?) ==> pc.hash != other.hash
  }

  predicate OpsOwned(s: Sys) {
    && (forall op :: op in s.ops ==> PcOwned(s, s.ops[op]))
    && (forall op, other :: op in s.ops && other in s.ops && op != other ==> Apart(s.ops[op], s.ops[other]))
  }

  ghost predicate OrphanInv(s: Sys) {
    RowsOwned(s) && OpsOwned(s) && forall h :: Orphan(s, h) ==> Settled(s, h)
  }

  /** Is this step the INSERT of a token, or of a session, under hash `h`? */
  predicate StoresToken(s: Sys, step: Step, h: Hash) {
    step.Advance? && step.op in s.ops && s.ops[step.op].InsertingToken? && s.ops[step.op].hash == h
  }

  predicate StoresSession(s: Sys, step: Step, h: Hash) {
    step.Advance? && step.op in s.ops && s.ops[step.op].InsertingSession? && s.ops[step.op].hash == h
  }

  /** Every row after a step was there before, or is the one row the step stored. */
  lemma TokensComeFromInserts(limit: nat, s: Sys, step: Step, s': Sys, h: Hash)
    requires Next(limit, s, step, s') && h in s'.db.tokens
    ensures || (h in s.db.tokens && s'.db.tokens[h] == s.db.tokens[h])
            || (StoresToken(s, step, h) && s'.db.tokens[h].user == s.ops[step.op].user
                && s'.db.tokens[h].id == s.db.nextId < s'.db.nextId)
  {
  }

  lemma SessionsComeFromInserts(limit: nat, s: Sys, step: Step, s': Sys, h: Hash)
    requires Next(limit, s, step, s') && h in s'.db.sessions
    ensures || (h in s.db.sessions && s'.db.sessions[h] == s.db.sessions[h])
            || (StoresSession(s, step, h) && s'.db.sessions[h].user == s.ops[step.op].user)
  {
  }

  lemma OwnersAreKept(limit: nat, s: Sys, step: Step, s': Sys)
    requires Next(limit, s, step, s')
    ensures forall h :: h in s.owner ==> h in s'.owner && s'.owner[h] == s.owner[h]
    ensures s.db.nextId <= s'.db.nextId
  {
  }

  lemma StepKeepsRowsOwned(limit: nat, s: Sys, step: Step, s': Sys)
    requires RowsOwned(s) && OpsOwned(s) && Next(limit, s, step, s')
    ensures RowsOwned(s')
  {
    assert step.Advance? ==> PcOwned(s, s.ops[step.op]);
    OwnersAreKept(limit, s, step, s');
    forall h | h in s'.db.tokens
      ensures h in s'.owner && s'.owner[h] == s'.db.tokens[h].user && s'.db.tokens[h].id < s'.db.nextId
    {
      TokensComeFromInserts(limit, s, step, s', h);
    }
    forall h | h in s'.db.sessions
      ensures h in s'.owner && s'.owner[h] == s'.db.sessions[h].user
    {
      SessionsComeFromInserts(limit, s, step, s', h);
    }
    forall g, h | g in s'.db.tokens && h in s'.db.tokens && s'.db.tokens[g].id == s'.db.tokens[h].id
      ensures g == h
    {
      TokensComeFromInserts(limit, s, step, s', g);
      TokensComeFromInserts(limit, s, step, s', h);
    }
  }

  lemma StepKeepsOtherOps(limit: nat, s: Sys, step: Step, s': Sys, other: OpId)
    requires Next(limit, s, step, s') && other in s.ops && (!step.Tick? ==> other != step.op)
    ensures other in s'.ops && s'.ops[other] == s.ops[other]
  {
  }

  /** The rows an operation relies on only go away, except for a token stored under a hash that
      nobody else knows. */
  lemma StepKeepsOtherPcOwned(limit: nat, s: Sys, step: Step, s': Sys, other: OpId)
    requires RowsOwned(s) && OpsOwned(s) && Next(limit, s, step, s')
    requires other in s.ops && (!step.Tick? ==> other != step.op)
    ensures other in s'.ops && s'.ops[other] == s.ops[other] && PcOwned(s', s.ops[other])
  {
    StepKeepsOtherOps(limit, s, step, s', other);
    var pc := s.ops[other];
    assert PcOwned(s, pc);
    assert step.Advance? ==> Apart(s.ops[step.op], pc);
    OwnersAreKept(limit, s, step, s');
    if (pc.InsertingToken? || pc.DroppingSession?) && pc.hash in s'.db.tokens {
      TokensComeFromInserts(limit, s, step, s', pc.hash);
    }
  }

  lemma StepKeepsOwnPcOwned(limit: nat, s: Sys, step: Step, s': Sys)
    requires RowsOwned(s) && OpsOwned(s) && Next(limit, s, step, s') && !step.Tick? && step.op in s'.ops
    ensures PcOwned(s', s'.ops[step.op])
  {
    assert step.Advance? ==> PcOwned(s, s.ops[step.op]);
  }

  /** A newly generated hash is in nobody's hands. */
  lemma StepKeepsOwnPcApart(limit: nat, s: Sys, step: Step, s': Sys, other: OpId)
    requires RowsOwned(s) && OpsOwned(s) && Next(limit, s, step, s') && !step.Tick? && step.op in s'.ops
    requires other in s.ops && other != step.op
    ensures Apart(s'.ops[step.op], s.ops[other]) && Apart(s.ops[other], s'.ops[step.op])
  {
    assert PcOwned(s, s.ops[other]);
  }

  lemma OnlyOwnOpMoves(limit: nat, s: Sys, step: Step, s': Sys, op: OpId)
    requires Next(limit, s, step, s') && op in s'.ops
    ensures step.Tick? || op != step.op ==> op in s.ops && s'.ops[op] == s.ops[op]
  {
  }

  lemma StepKeepsOpsOwned(limit: nat, s: Sys, step: Step, s': Sys)
    requires RowsOwned(s) && OpsOwned(s) && Next(limit, s, step, s')
    ensures OpsOwned(s')
  {
    forall op | op in s'.ops
      ensures PcOwned(s', s'.ops[op])
    {
      OnlyOwnOpMoves(limit, s, step, s', op);
      if step.Tick? || op != step.op {
        StepKeepsOtherPcOwned(limit, s, step, s', op);
      } else {
        StepKeepsOwnPcOwned(limit, s, step, s');
      }
    }
    forall op, other | op in s'.ops && other in s'.ops && op != other
      ensures Apart(s'.ops[op], s'.ops[other])
    {
      OnlyOwnOpMoves(limit, s, step, s', op);
      OnlyOwnOpMoves(limit, s, step, s', other);
      if !step.Tick? && op == step.op {
        StepKeepsOwnPcApart(limit, s, step, s', other);
      } else if !step.Tick? && other == step.op {
        StepKeepsOwnPcApart(limit, s, step, s', op);
      }
    }
  }

  /** An orphan that was there before the step: its settler either still has to act or has just
      started the clean-up that will. */
  lemma OldOrphanStaysSettled(limit: nat, s: Sys, step: Step, s': Sys, h: Hash)
    requires OrphanInv(s) && Next(limit, s, step, s') && Orphan(s', h) && Orphan(s, h)
    ensures Settled(s', h)
  {
    var op :| op in s.ops && WillSettle(s, s.ops[op], h);
    TokensComeFromInserts(limit, s, step, s', h);
    assert PcOwned(s, s.ops[op]);
    if step.Tick? || step.op != op {
      StepKeepsOtherOps(limit, s, step, s', op);
      assert WillSettle(s', s'.ops[op], h);
    } else {
      SettlerSettles(limit, s, step, s', h);
    }
  }

  /** When the settler itself moves, the orphan is gone or the settler still has a clean-up ahead. */
  lemma SettlerSettles(limit: nat, s: Sys, step: Step, s': Sys, h: Hash)
    requires RowsOwned(s) && Next(limit, s, step, s') && Orphan(s, h) && Orphan(s', h)
    requires step.Advance? && step.op in s.ops && WillSettle(s, s.ops[step.op], h)
    ensures step.op in s'.ops && WillSettle(s', s'.ops[step.op], h)
  {
  }

  /** A token that this step turned into an orphan is settled by the operation that did so. */
  lemma NewOrphanIsSettled(limit: nat, s: Sys, step: Step, s': Sys, h: Hash)
    requires OrphanInv(s) && Next(limit, s, step, s') && Orphan(s', h) && !Orphan(s, h)
    ensures Settled(s', h)
  {
    assert PcOwned(s, s.ops[step.op]);
    assert step.op in s'.ops && WillSettle(s', s'.ops[step.op], h);
  }

  lemma {:induction false} OrphanInvThroughRun(limit: nat, states: seq<Sys>, steps: seq<Step>, i: nat)
    requires Run(limit, states, steps) && i < |states|
    ensures OrphanInv(states[i])
  {
    if 0 < i {
      OrphanInvThroughRun(limit, states, steps, i - 1);
      var s, step, s' := states[i - 1], steps[i - 1], states[i];
      StepKeepsRowsOwned(limit, s, step, s');
      StepKeepsOpsOwned(limit, s, step, s');
      forall h | Orphan(s', h)
        ensures Settled(s', h)
      {
        if Orphan(s, h) {
          OldOrphanStaysSettled(limit, s, step, s', h);
        } else {
          NewOrphanIsSettled(limit, s, step, s', h);
        }
      }
    }
  }

  /** Under every interleaving, with INSERTs failing at will, an unexpired refresh token without a
      session is waiting for an operation in flight that deletes it or gives it a session. With
      nothing in flight every unexpired refresh token has a session of its owner. */
  lemma OrphansAreSettled(limit: nat, states: seq<Sys>, steps: seq<Step>, i: nat, h: Hash)
    requires Run(limit, states, steps) && i < |states| && h in states[i].db.tokens
    requires states[i].clock < states[i].db.tokens[h].expiresAt
    ensures h in states[i].db.sessions
            || exists op :: op in states[i].ops && WillSettle(states[i], states[i].ops[op], h)
    ensures states[i].ops == map[] ==> h in UserSessions(states[i].db, states[i].db.tokens[h].user)
  {
    OrphanInvThroughRun(limit, states, steps, i);
    if h !in states[i].db.sessions {
      assert Orphan(states[i], h);
    }
  }

  // ---------------------------------------------------------------------------------------
  // When token rows go
  // ---------------------------------------------------------------------------------------

  /** The next statement of this operation deletes the row of token `h`, by its id, by its hash, or
      as an unexpired orphan of the user. */
  predicate Deletes(s: Sys, pc: Pc, h: Hash)
    requires h in s.db.tokens
  {
    var row := s.db.tokens[h];
    match pc
    case DroppingExpired(id) => id == row.id
    case DroppingToken(_, id) => id == row.id
    case LogoutToken(hash) => hash == h
    case Sweeping(user) => user == row.user && s.clock < row.expiresAt && h !in s.db.sessions
    case _ => false
  }

  lemma StepDeletesIff(limit: nat, s: Sys, step: Step, s': Sys, h: Hash)
    requires RowsOwned(s) && OpsOwned(s) && Next(limit, s, step, s') && h in s.db.tokens
    ensures h !in s'.db.tokens <==> step.Advance? && Deletes(s, s.ops[step.op], h)
    ensures h in s'.db.tokens ==> s'.db.tokens[h] == s.db.tokens[h]
  {
    assert step.Advance? ==> PcOwned(s, s.ops[step.op]);
  }

  /** Under every interleaving a token row goes exactly with a statement that deletes it; the row of
      an expired token goes only when it was presented, never in a sweep. */
  lemma TokenRowLeavesIff(limit: nat, states: seq<Sys>, steps: seq<Step>, i: nat, h: Hash)
    requires Run(limit, states, steps) && i < |steps| && h in states[i].db.tokens
    ensures h !in states[i + 1].db.tokens
       <==> steps[i].Advance? && steps[i].op in states[i].ops && Deletes(states[i], states[i].ops[steps[i].op], h)
    ensures h in states[i + 1].db.tokens ==> states[i + 1].db.tokens[h] == states[i].db.tokens[h]
    ensures states[i].db.tokens[h].expiresAt <= states[i].clock && h !in states[i + 1].db.tokens
            ==> !states[i].ops[steps[i].op].Sweeping?
  {
    OrphanInvThroughRun(limit, states, steps, i);
    assert Next(limit, states[i], steps[i], states[i + 1]);
    StepDeletesIff(limit, states[i], steps[i], states[i + 1], h);
  }
}
