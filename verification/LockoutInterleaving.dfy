/**
 The brute-force guard with every Redis command a step of its own: any number of logins for one
 e-mail address interleave, and time may pass between the INCR and the EXPIRE of a failed attempt.
 */
module LockoutInterleaving {
  import opened Collections
  import opened RenewedCounter
  import opened Lockout

  type LoginId = nat

  /** The counter of failed attempts: INCR creates it without an expiry. */
  datatype Counter = Gone | Counting(count: nat, expiry: Option<Time>)

  predicate Alive(c: Counter, now: Time) {
    c.Counting? && (c.expiry.Some? ==> now < c.expiry.value)
  }

  function Incr(c: Counter, now: Time): Counter {
    if Alive(c, now) then c.(count := c.count + 1) else Counting(1, None)
  }

  /** EXPIRE does nothing to a key that is gone. */
  function Expire(c: Counter, now: Time): Counter {
    if Alive(c, now) then c.(expiry := Some(now + LOCK_MS)) else c
  }

  datatype Pc =
    | Checking
    | Verifying
    | Recording                // INCR
    | Renewing(attempts: nat)  // EXPIRE, after INCR answered with this number
    | Locking
    | ForgettingAttempts
    | ForgettingLock

  datatype Sys = Sys(attempts: Counter, lockedUntil: Option<Time>, logins: map<LoginId, Pc>, clock: Time)

  /** What the credentials are matters to a login that is verifying them. */
  datatype Step = Tick(now: Time) | Arrive(id: LoginId) | Advance(id: LoginId, credentials: Credentials)

  const INITIAL := Sys(Gone, None, map[], 0)

  predicate Enabled(s: Sys, step: Step) {
    match step
    case Tick(now) => s.clock <= now
    case Arrive(id) => id !in s.logins
    case Advance(id, _) => id in s.logins
  }

  function Goto(s: Sys, id: LoginId, pc: Pc): Sys {
    s.(logins := s.logins[id := pc])
  }

  function Finish(s: Sys, id: LoginId): Sys {
    s.(logins := s.logins - {id})
  }

  predicate Locked(s: Sys) {
    s.lockedUntil.Some? && s.clock < s.lockedUntil.value
  }

  function Moved(s: Sys, id: LoginId, credentials: Credentials): Sys
    requires id in s.logins
  {
    match s.logins[id]
    case Checking => if Locked(s) then Finish(s, id) else Goto(s, id, Verifying)
    case Verifying =>
      (match credentials
       case NoSuchUser => Goto(s, id, Recording)
       case AccountDisabled => Finish(s, id)
       case WrongPassword => Goto(s, id, Recording)
       case Correct => Goto(s, id, ForgettingAttempts))
    case Recording =>
      var attempts := Incr(s.attempts, s.clock);
      Goto(s.(attempts := attempts), id, Renewing(attempts.count))
    case Renewing(attempts) =>
      var renewed := s.(attempts := Expire(s.attempts, s.clock));
      if attempts >= MAX_ATTEMPTS then Goto(renewed, id, Locking) else Finish(renewed, id)
    case Locking => Finish(s.(lockedUntil := Some(s.clock + LOCK_MS)), id)
    case ForgettingAttempts => Goto(s.(attempts := Gone), id, ForgettingLock)
    case ForgettingLock => Finish(s.(lockedUntil := None), id)
  }

  function Apply(s: Sys, step: Step): Sys {
    if !Enabled(s, step) then s else
    match step
    case Tick(now) => s.(clock := now)
    case Arrive(id) => Goto(s, id, Checking)
    case Advance(id, credentials) => Moved(s, id, credentials)
  }

  function Exec(s: Sys, steps: seq<Step>): Sys {
    if steps == [] then s else var n := |steps| - 1; Apply(Exec(s, steps[..n]), steps[n])
  }

  /** Every step is enabled, and at most `k` logins are in flight at any time. */
  predicate Legal(k: nat, s: Sys, steps: seq<Step>) {
    if steps == [] then |s.logins| <= k
    else
      var n := |steps| - 1;
      Legal(k, s, steps[..n]) && Enabled(Exec(s, steps[..n]), steps[n]) && |Exec(s, steps).logins| <= k
  }

  predicate MovesAt(s: Sys, step: Step, pc: Pc) {
    step.Advance? && step.id in s.logins && s.logins[step.id] == pc
  }

  /** The number of failed attempts that are recorded. */
  function Failures(s: Sys, steps: seq<Step>): nat {
    if steps == [] then 0
    else
      var n := |steps| - 1;
      Failures(s, steps[..n]) + if MovesAt(Exec(s, steps[..n]), steps[n], Recording) then 1 else 0
  }

  /** No successful login deletes a key. */
  predicate NothingForgotten(s: Sys, steps: seq<Step>) {
    steps == [] ||
    var n := |steps| - 1;
    var before := Exec(s, steps[..n]);
    && NothingForgotten(s, steps[..n])
    && !MovesAt(before, steps[n], ForgettingAttempts) && !MovesAt(before, steps[n], ForgettingLock)
  }

  // ---------------------------------------------------------------------------------------
  // Logins in flight
  // ---------------------------------------------------------------------------------------

  datatype Group = AboutToRecord | AboutToRenew | AboutToLock

  predicate Belongs(pc: Pc, group: Group) {
    match group
    case AboutToRecord => pc.Verifying? || pc.Recording?
    case AboutToRenew => pc.Renewing?
    case AboutToLock => pc.Locking? || (pc.Renewing? && pc.attempts >= MAX_ATTEMPTS)
  }

  function Members(logins: map<LoginId, Pc>, group: Group): set<LoginId> {
    set id | id in logins && Belongs(logins[id], group)
  }

  lemma LeavingGroup(logins: map<LoginId, Pc>, id: LoginId, group: Group)
    requires id in logins
    ensures |Members(logins - {id}, group)| == |Members(logins, group)| - if Belongs(logins[id], group) then 1 else 0
  {
    assert Members(logins - {id}, group) == Members(logins, group) - {id};
  }

  lemma MovingGroup(logins: map<LoginId, Pc>, id: LoginId, pc: Pc, group: Group)
    ensures |Members(logins[id := pc], group)|
         == |Members(logins, group)| + (if Belongs(pc, group) then 1 else 0)
            - (if id in logins && Belongs(logins[id], group) then 1 else 0)
  {
    if Belongs(pc, group) {
      assert Members(logins[id := pc], group) == Members(logins, group) + {id};
    } else {
      assert Members(logins[id := pc], group) == Members(logins, group) - {id};
    }
  }

  lemma GroupsFit(logins: map<LoginId, Pc>)
    ensures |Members(logins, AboutToRecord)| + |Members(logins, AboutToLock)| <= |logins|
    ensures |Members(logins, AboutToRenew)| <= |logins|
  {
    var recording, locking := Members(logins, AboutToRecord), Members(logins, AboutToLock);
    assert |recording + locking| == |recording| + |locking|;
    SubsetCardinality(recording + locking, logins.Keys);
    SubsetCardinality(Members(logins, AboutToRenew), logins.Keys);
    assert |logins.Keys| == |logins|;
  }

  // ---------------------------------------------------------------------------------------
  // A stretch of fifteen minutes
  // ---------------------------------------------------------------------------------------

  /** Attempts that a counter can lose: it expires between their INCR and their EXPIRE. At least
      one attempt was recorded before, so at most three of them are below the limit. */
  function Lost(k: nat): nat {
    if k <= MAX_ATTEMPTS - 2 then k else MAX_ATTEMPTS - 2
  }

  function Limit(k: nat): nat {
    MAX_ATTEMPTS - 1 + k + Lost(k)
  }

  /** Attempts whose INCR answered with less than the limit. */
  function LowFailures(s: Sys, steps: seq<Step>): nat {
    if steps == [] then 0
    else
      var n := |steps| - 1;
      var before := Exec(s, steps[..n]);
      var low := MovesAt(before, steps[n], Recording) && Incr(before.attempts, before.clock).count < MAX_ATTEMPTS;
      LowFailures(s, steps[..n]) + if low then 1 else 0
  }

  predicate LockSet(s: Sys, steps: seq<Step>) {
    steps != [] && var n := |steps| - 1; LockSet(s, steps[..n]) || MovesAt(Exec(s, steps[..n]), steps[n], Locking)
  }

  /** The counter outlives the stretch that began at `start`. */
  predicate Durable(c: Counter, start: Time) {
    c.Counting? && (c.expiry.Some? ==> start + LOCK_MS <= c.expiry.value)
  }

  predicate CounterPositive(c: Counter) {
    c.Counting? ==> 1 <= c.count
  }

  /** How many low attempts there can have been: as long as the counter is the one found at the
      start and nobody renewed it, all of them still have to renew it. */
  predicate LowInv(k: nat, start: Time, s: Sys, low: nat) {
    var c := s.attempts;
    if Durable(c, start) then
      low <= Lost(k) + (if c.count < MAX_ATTEMPTS then c.count else MAX_ATTEMPTS - 1)
    else if Alive(c, s.clock) then
      low <= |Members(s.logins, AboutToRenew)| && low <= MAX_ATTEMPTS - 2 && low + 1 <= c.count
    else
      low <= Lost(k)
  }

  predicate Inv(k: nat, start: Time, s: Sys, failures: nat, low: nat, lockSet: bool) {
    && |s.logins| <= k && start <= s.clock && CounterPositive(s.attempts)
    && LowInv(k, start, s, low)
    && if lockSet
       then && s.lockedUntil.Some? && start + LOCK_MS <= s.lockedUntil.value
            && failures + |Members(s.logins, AboutToRecord)| <= Limit(k)
       else failures <= low + |Members(s.logins, AboutToLock)|
  }

  lemma MoveKeepsLowInv(k: nat, start: Time, s: Sys, id: LoginId, credentials: Credentials, low: nat)
    requires id in s.logins && |s.logins| <= k && start <= s.clock < start + LOCK_MS
    requires LowInv(k, start, s, low) && CounterPositive(s.attempts) && s.logins[id] != ForgettingAttempts
    ensures var records := s.logins[id] == Recording && Incr(s.attempts, s.clock).count < MAX_ATTEMPTS;
            LowInv(k, start, Moved(s, id, credentials), low + if records then 1 else 0)
  {
    var s' := Moved(s, id, credentials);
    GroupsFit(s.logins);
    if id in s'.logins {
      MovingGroup(s.logins, id, s'.logins[id], AboutToRenew);
      assert s'.logins == s.logins[id := s'.logins[id]];
    } else {
      LeavingGroup(s.logins, id, AboutToRenew);
      assert s'.logins == s.logins - {id};
    }
  }

  lemma MoveKeepsInv(k: nat, start: Time, s: Sys, id: LoginId, credentials: Credentials, failures: nat, low: nat,
                     lockSet: bool)
    requires id in s.logins && Inv(k, start, s, failures, low, lockSet) && s.clock < start + LOCK_MS
    requires s.logins[id] != ForgettingAttempts && s.logins[id] != ForgettingLock
    requires |Moved(s, id, credentials).logins| <= k
    ensures var records := s.logins[id] == Recording;
            var recordsLow := records && Incr(s.attempts, s.clock).count < MAX_ATTEMPTS;
            Inv(k, start, Moved(s, id, credentials), failures + (if records then 1 else 0),
                low + (if recordsLow then 1 else 0),
                lockSet || s.logins[id] == Locking)
  {
    var s' := Moved(s, id, credentials);
    MoveKeepsLowInv(k, start, s, id, credentials, low);
    GroupsFit(s.logins);
    if id in s'.logins {
      assert s'.logins == s.logins[id := s'.logins[id]];
      MovingGroup(s.logins, id, s'.logins[id], AboutToRecord);
      MovingGroup(s.logins, id, s'.logins[id], AboutToLock);
    } else {
      assert s'.logins == s.logins - {id};
      LeavingGroup(s.logins, id, AboutToRecord);
      LeavingGroup(s.logins, id, AboutToLock);
    }
  }

  lemma StepKeepsInv(k: nat, start: Time, s: Sys, step: Step, failures: nat, low: nat, lockSet: bool)
    requires Inv(k, start, s, failures, low, lockSet) && Enabled(s, step)
    requires |Apply(s, step).logins| <= k && Apply(s, step).clock < start + LOCK_MS
    requires !MovesAt(s, step, ForgettingAttempts) && !MovesAt(s, step, ForgettingLock)
    ensures var records := MovesAt(s, step, Recording);
            var recordsLow := records && Incr(s.attempts, s.clock).count < MAX_ATTEMPTS;
            Inv(k, start, Apply(s, step), failures + (if records then 1 else 0), low + (if recordsLow then 1 else 0),
                lockSet || MovesAt(s, step, Locking))
  {
    match step
    case Tick(now) => GroupsFit(s.logins);
    case Arrive(id) =>
      MovingGroup(s.logins, id, Checking, AboutToRecord);
      MovingGroup(s.logins, id, Checking, AboutToRenew);
      MovingGroup(s.logins, id, Checking, AboutToLock);
    case Advance(id, credentials) => MoveKeepsInv(k, start, s, id, credentials, failures, low, lockSet);
  }

  lemma {:induction false} CounterStaysPositive(s: Sys, steps: seq<Step>)
    requires CounterPositive(s.attempts)
    ensures CounterPositive(Exec(s, steps).attempts)
  {
    if steps != [] {
      CounterStaysPositive(s, steps[..|steps| - 1]);
    }
  }

  lemma {:induction false} StretchKeepsInv(k: nat, s: Sys, steps: seq<Step>)
    requires Legal(k, s, steps) && CounterPositive(s.attempts) && NothingForgotten(s, steps)
    requires Exec(s, steps).clock < s.clock + LOCK_MS
    ensures Inv(k, s.clock, Exec(s, steps), Failures(s, steps), LowFailures(s, steps), LockSet(s, steps))
  {
    if steps != [] {
      var n := |steps| - 1;
      var before := Exec(s, steps[..n]);
      assert before.clock <= Exec(s, steps).clock;
      StretchKeepsInv(k, s, steps[..n]);
      StepKeepsInv(k, s.clock, before, steps[n], Failures(s, steps[..n]), LowFailures(s, steps[..n]),
                   LockSet(s, steps[..n]));
    }
  }

  /** Whatever happened before, a stretch shorter than fifteen minutes without a successful login
      has at most `4 + k + min(k, 3)` recorded failures when at most `k` logins are in flight. */
  lemma FailuresBounded(k: nat, before: seq<Step>, during: seq<Step>)
    requires var s := Exec(INITIAL, before);
             Legal(k, s, during) && NothingForgotten(s, during) && Exec(s, during).clock < s.clock + 900_000
    ensures Failures(Exec(INITIAL, before), during) <= 4 + k + if k <= 3 then k else 3
  {
    var s := Exec(INITIAL, before);
    CounterStaysPositive(INITIAL, before);
    StretchKeepsInv(k, s, during);
    GroupsFit(Exec(s, during).logins);
  }

  // ---------------------------------------------------------------------------------------
  // The bound is exact
  // ---------------------------------------------------------------------------------------

  /** These steps lead from `s` to `s'` and record this many failures, none of them forgotten. */
  predicate Reaches(k: nat, s: Sys, steps: seq<Step>, s': Sys, failures: nat) {
    Legal(k, s, steps) && NothingForgotten(s, steps) && Exec(s, steps) == s' && Failures(s, steps) == failures
  }

  lemma OneMore(k: nat, s: Sys, steps: seq<Step>, s': Sys, failures: nat, step: Step) returns (longer: seq<Step>)
    requires Reaches(k, s, steps, s', failures) && Enabled(s', step) && |Apply(s', step).logins| <= k
    requires !MovesAt(s', step, ForgettingAttempts) && !MovesAt(s', step, ForgettingLock)
    ensures Reaches(k, s, longer, Apply(s', step), failures + if MovesAt(s', step, Recording) then 1 else 0)
  {
    longer := steps + [step];
    assert longer[..|steps|] == steps;
  }

  /** One step that records a failure or not. */
  predicate Leads(k: nat, s: Sys, step: Step, s': Sys, records: bool) {
    && Enabled(s, step) && Apply(s, step) == s' && |s'.logins| <= k
    && !MovesAt(s, step, ForgettingAttempts) && !MovesAt(s, step, ForgettingLock)
    && (MovesAt(s, step, Recording) <==> records)
  }

  /** The logins 0, 1, 2, ... take one step each. */
  lemma {:induction false} Follow(k: nat, s: Sys, steps: seq<Step>, states: seq<Sys>, failures: nat, records: bool)
    returns (longer: seq<Step>)
    requires states != [] && Reaches(k, s, steps, states[0], failures)
    requires forall m: nat :: m + 1 < |states| ==> Leads(k, states[m], Advance(m, NoSuchUser), states[m + 1], records)
    ensures Reaches(k, s, longer, states[|states| - 1], failures + if records then |states| - 1 else 0)
  {
    var n := |states| - 1;
    longer := steps;
    if 0 < n {
      longer := Follow(k, s, steps, states[..n], failures, records);
      assert Leads(k, states[n - 1], Advance(n - 1, NoSuchUser), states[n], records);
      longer := OneMore(k, s, longer, states[n - 1], failures + (if records then n - 1 else 0),
                        Advance(n - 1, NoSuchUser));
    }
  }

  lemma PassOne(k: nat, s: Sys, steps: seq<Step>, s': Sys, failures: nat, id: LoginId) returns (longer: seq<Step>)
    requires Reaches(k, s, steps, s', failures) && id !in s'.logins && |s'.logins| < k && !Locked(s')
    ensures Reaches(k, s, longer, Goto(s', id, Recording), failures)
  {
    var checking, verifying := Goto(s', id, Checking), Goto(s', id, Verifying);
    longer := OneMore(k, s, steps, s', failures, Arrive(id));
    longer := OneMore(k, s, longer, checking, failures, Advance(id, NoSuchUser));
    assert Goto(checking, id, Verifying) == verifying;
    longer := OneMore(k, s, longer, verifying, failures, Advance(id, NoSuchUser));
    assert Goto(verifying, id, Recording) == Goto(s', id, Recording);
  }

  /** The logins `lo` to `hi`, those before `next` recorded with the numbers from `first` on. */
  function Flight(lo: nat, next: nat, hi: nat, first: nat): map<LoginId, Pc> {
    map id | id in Ids(lo, hi) :: if id < next then Renewing(first + id) else Recording
  }

  lemma FlightSize(lo: nat, next: nat, hi: nat, first: nat)
    requires lo <= hi
    ensures |Flight(lo, next, hi, first)| == hi - lo
  {
    assert Flight(lo, next, hi, first).Keys == Ids(lo, hi);
    assert |Flight(lo, next, hi, first).Keys| == |Flight(lo, next, hi, first)|;
  }

  lemma NothingRecorded(n: nat, first: nat)
    ensures Flight(0, 0, n, first) == Flight(0, 0, n, 0)
  {
  }

  lemma PassInFlight(n: nat)
    requires 0 < n
    ensures Flight(0, 0, n - 1, 0)[n - 1 := Recording] == Flight(0, 0, n, 0) && n - 1 !in Flight(0, 0, n - 1, 0)
    ensures |Flight(0, 0, n - 1, 0)| == n - 1
  {
    FlightSize(0, 0, n - 1, 0);
  }

  /** One more login of a flight records its failure. */
  lemma RecordInFlight(k: nat, count: nat, expiry: Option<Time>, m: nat, n: nat, clock: Time)
    requires m < n <= k && Alive(Counting(count, expiry), clock)
    ensures Leads(k, Recorded(count, expiry, m, n, clock), Advance(m, NoSuchUser),
                  Recorded(count, expiry, m + 1, n, clock), true)
  {
    FlightSize(0, m + 1, n, count + 1);
    assert Flight(0, m, n, count + 1)[m := Renewing(count + m + 1)] == Flight(0, m + 1, n, count + 1);
  }

  /** The first `m` of `n` logins have been counted on top of `count`. */
  function Recorded(count: nat, expiry: Option<Time>, m: nat, n: nat, clock: Time): Sys {
    Sys(Counting(count + m, expiry), None, Flight(0, m, n, count + 1), clock)
  }

  lemma FlightWithoutFirst(m: nat, n: nat, first: nat)
    requires m < n
    ensures Flight(m, n, n, first) - {m} == Flight(m + 1, n, n, first)
    ensures m in Flight(m, n, n, first) && Flight(m, n, n, first)[m] == Renewing(first + m)
  {
  }

  lemma LeaveFlight(m: nat, n: nat, first: nat)
    requires m < n
    ensures Flight(m, n, n, first) - {m} == Flight(m + 1, n, n, first) && |Flight(m + 1, n, n, first)| == n - m - 1
    ensures m in Flight(m, n, n, first) && Flight(m, n, n, first)[m] == Renewing(first + m)
  {
    FlightWithoutFirst(m, n, first);
    FlightSize(m + 1, n, n, first);
  }

  lemma LeavesInVain(k: nat, c: Counter, logins: map<LoginId, Pc>, clock: Time, id: LoginId, attempts: nat)
    requires id in logins && logins[id] == Renewing(attempts) && attempts < MAX_ATTEMPTS
    requires !Alive(c, clock) && |logins - {id}| <= k
    ensures Leads(k, Sys(c, None, logins, clock), Advance(id, NoSuchUser), Sys(c, None, logins - {id}, clock), false)
  {
  }

  /** One more login of a flight finds nothing to renew. */
  lemma RenewInVain(k: nat, c: Counter, first: nat, m: nat, n: nat, clock: Time)
    requires m < n <= k && !Alive(c, clock) && first + n <= MAX_ATTEMPTS
    ensures Leads(k, Unrenewed(c, first, m, n, clock), Advance(m, NoSuchUser), Unrenewed(c, first, m + 1, n, clock),
                  false)
  {
    LeaveFlight(m, n, first);
    LeavesInVain(k, c, Flight(m, n, n, first), clock, m, first + m);
  }

  lemma {:induction false} AllPass(k: nat, s: Sys, steps: seq<Step>, c: Counter, failures: nat, n: nat, clock: Time)
    returns (longer: seq<Step>)
    requires Reaches(k, s, steps, Sys(c, None, map[], clock), failures) && n <= k
    ensures Reaches(k, s, longer, Sys(c, None, Flight(0, 0, n, 0), clock), failures)
  {
    if n == 0 {
      longer := steps;
      assert Flight(0, 0, 0, 0) == map[];
    } else {
      longer := AllPass(k, s, steps, c, failures, n - 1, clock);
      PassInFlight(n);
      longer := PassOne(k, s, longer, Sys(c, None, Flight(0, 0, n - 1, 0), clock), failures, n - 1);
    }
  }

  lemma RecordingStates(k: nat, count: nat, expiry: Option<Time>, n: nat, clock: Time) returns (states: seq<Sys>)
    requires n <= k && Alive(Counting(count, expiry), clock)
    ensures |states| == n + 1
    ensures states[0] == Recorded(count, expiry, 0, n, clock) && states[n] == Recorded(count, expiry, n, n, clock)
    ensures forall m: nat :: m + 1 < |states| ==> Leads(k, states[m], Advance(m, NoSuchUser), states[m + 1], true)
  {
    states := seq(n + 1, m requires 0 <= m <= n => Recorded(count, expiry, m, n, clock));
    forall m: nat | m + 1 < |states|
      ensures Leads(k, states[m], Advance(m, NoSuchUser), states[m + 1], true)
    {
      RecordInFlight(k, count, expiry, m, n, clock);
    }
  }

  /** All logins of a flight record their failures, one after the other. */
  lemma AllRecord(k: nat, s: Sys, steps: seq<Step>, count: nat, expiry: Option<Time>, failures: nat, n: nat,
                  clock: Time)
    returns (longer: seq<Step>)
    requires Reaches(k, s, steps, Sys(Counting(count, expiry), None, Flight(0, 0, n, 0), clock), failures)
    requires n <= k && Alive(Counting(count, expiry), clock)
    ensures Reaches(k, s, longer, Recorded(count, expiry, n, n, clock), failures + n)
  {
    NothingRecorded(n, count + 1);
    var states := RecordingStates(k, count, expiry, n, clock);
    longer := Follow(k, s, steps, states, failures, true);
  }

  /** The first `m` of `n` logins have found nothing to renew. */
  function Unrenewed(c: Counter, first: nat, m: nat, n: nat, clock: Time): Sys {
    Sys(c, None, Flight(m, n, n, first), clock)
  }

  lemma RenewingStates(k: nat, c: Counter, first: nat, n: nat, clock: Time) returns (states: seq<Sys>)
    requires n <= k && !Alive(c, clock) && first + n <= MAX_ATTEMPTS
    ensures |states| == n + 1
    ensures states[0] == Unrenewed(c, first, 0, n, clock) && states[n] == Unrenewed(c, first, n, n, clock)
    ensures forall m: nat :: m + 1 < |states| ==> Leads(k, states[m], Advance(m, NoSuchUser), states[m + 1], false)
  {
    states := seq(n + 1, m requires 0 <= m <= n => Unrenewed(c, first, m, n, clock));
    forall m: nat | m + 1 < |states|
      ensures Leads(k, states[m], Advance(m, NoSuchUser), states[m + 1], false)
    {
      RenewInVain(k, c, first, m, n, clock);
    }
  }

  /** The counter is gone before the logins renew it. */
  lemma AllRenewInVain(k: nat, s: Sys, steps: seq<Step>, c: Counter, failures: nat, first: nat, n: nat, clock: Time)
    returns (longer: seq<Step>)
    requires Reaches(k, s, steps, Sys(c, None, Flight(0, n, n, first), clock), failures) && n <= k
    requires !Alive(c, clock) && first + n <= MAX_ATTEMPTS
    ensures Reaches(k, s, longer, Sys(c, None, map[], clock), failures)
  {
    var states := RenewingStates(k, c, first, n, clock);
    longer := Follow(k, s, steps, states, failures, false);
    NobodyLeft(n, first);
  }

  lemma NobodyLeft(n: nat, first: nat)
    ensures Flight(n, n, n, first) == map[]
  {
  }

  /** One login fails while no other is in flight. */
  lemma FailAlone(k: nat, s: Sys, steps: seq<Step>, c: Counter, failures: nat, clock: Time)
    returns (longer: seq<Step>)
    requires Reaches(k, s, steps, Sys(c, None, map[], clock), failures) && 1 <= k
             && Incr(c, clock).count < MAX_ATTEMPTS
    ensures Reaches(k, s, longer, Sys(Expire(Incr(c, clock), clock), None, map[], clock), failures + 1)
  {
    var attempts := Incr(c, clock);
    longer := PassOne(k, s, steps, Sys(c, None, map[], clock), failures, 0);
    longer := OneMore(k, s, longer, Sys(c, None, map[0 := Recording], clock), failures, Advance(0, NoSuchUser));
    var recorded := Sys(attempts, None, map[0 := Renewing(attempts.count)], clock);
    longer := OneMore(k, s, longer, recorded, failures + 1, Advance(0, NoSuchUser));
    assert recorded.logins - {0} == map[];
  }

  lemma {:induction false} FailOneByOne(k: nat, s: Sys, steps: seq<Step>, c: Counter, failures: nat, n: nat,
                                        clock: Time)
    returns (longer: seq<Step>)
    requires Reaches(k, s, steps, Sys(c, None, map[], clock), failures) && 1 <= k && !Alive(c, clock)
             && 1 <= n < MAX_ATTEMPTS
    ensures Reaches(k, s, longer, Sys(Counting(n, Some(clock + LOCK_MS)), None, map[], clock), failures + n)
  {
    if n == 1 {
      longer := FailAlone(k, s, steps, c, failures, clock);
    } else {
      longer := FailOneByOne(k, s, steps, c, failures, n - 1, clock);
      longer := FailAlone(k, s, longer, Counting(n - 1, Some(clock + LOCK_MS)), failures + n - 1, clock);
    }
  }

  /** One old failure whose record is about to lapse. */
  const LAPSING := Sys(Counting(1, Some(LOCK_MS)), None, map[], LOCK_MS - 1)

  lemma ReachLapsing(k: nat) returns (steps: seq<Step>)
    requires 1 <= k
    ensures Legal(k, INITIAL, steps) && Exec(INITIAL, steps) == LAPSING
  {
    steps := FailAlone(k, INITIAL, [], Gone, 0, 0);
    steps := OneMore(k, INITIAL, steps, Sys(LAPSING.attempts, None, map[], 0), 1, Tick(LOCK_MS - 1));
  }

  /** Some logins count their failures on the old record, which lapses before they renew it. */
  lemma LoseSome(k: nat, n: nat) returns (steps: seq<Step>)
    requires n <= Lost(k)
    ensures Reaches(k, LAPSING, steps, Sys(Counting(n + 1, Some(LOCK_MS)), None, map[], LOCK_MS), n)
  {
    steps := AllPass(k, LAPSING, [], LAPSING.attempts, 0, n, LAPSING.clock);
    steps := AllRecord(k, LAPSING, steps, 1, Some(LOCK_MS), 0, n, LAPSING.clock);
    var c := Counting(n + 1, Some(LOCK_MS));
    FlightSize(0, n, n, 2);
    steps := OneMore(k, LAPSING, steps, Sys(c, None, Flight(0, n, n, 2), LAPSING.clock), n, Tick(LOCK_MS));
    steps := AllRenewInVain(k, LAPSING, steps, c, n, 2, n, LOCK_MS);
  }

  /** For every `k` some schedule reaches the bound: a single login at a time can fail six times
      within fifteen minutes. */
  lemma FailuresAttained(k: nat) returns (before: seq<Step>, during: seq<Step>)
    requires 1 <= k
    ensures Legal(k, INITIAL, before)
    ensures var s := Exec(INITIAL, before);
            && Legal(k, s, during) && NothingForgotten(s, during) && Exec(s, during).clock < s.clock + 900_000
            && Failures(s, during) == 4 + k + if k <= 3 then k else 3
  {
    before := ReachLapsing(k);
    var lost, most := Lost(k), MAX_ATTEMPTS - 1;
    var renewed := Some(2 * LOCK_MS);
    during := LoseSome(k, lost);
    during := FailOneByOne(k, LAPSING, during, Counting(lost + 1, Some(LOCK_MS)), lost, most, LOCK_MS);
    during := AllPass(k, LAPSING, during, Counting(most, renewed), lost + most, k, LOCK_MS);
    during := AllRecord(k, LAPSING, during, most, renewed, lost + most, k, LOCK_MS);
  }

  // ---------------------------------------------------------------------------------------
  // One login by itself
  // ---------------------------------------------------------------------------------------

  function StepsLeft(pc: Pc): nat {
    match pc
    case Checking => 5
    case Verifying => 4
    case Recording => 3
    case Renewing(_) => 2
    case ForgettingAttempts => 2
    case Locking => 1
    case ForgettingLock => 1
  }

  /** A login that nobody interrupts takes its steps at one instant. */
  function Alone(s: Sys, id: LoginId, credentials: Credentials): Sys
    decreases if id in s.logins then StepsLeft(s.logins[id]) else 0
  {
    if id in s.logins then Alone(Moved(s, id, credentials), id, credentials) else s
  }

  /** What the whole-login model sees; between logins every counter has an expiry. */
  function GuardOf(s: Sys): Guard
    requires s.attempts.Counting? ==> s.attempts.expiry.Some?
  {
    Guard(if s.attempts.Counting? then Present(s.attempts.count, s.attempts.expiry.value) else Absent,
          if s.lockedUntil.Some? then Present(1, s.lockedUntil.value) else Absent)
  }

  lemma AloneRecords(s: Sys, id: LoginId, credentials: Credentials)
    requires id in s.logins && s.logins[id] == Recording && (s.attempts.Counting? ==> s.attempts.expiry.Some?)
    ensures var s' := Alone(s, id, credentials);
            && s'.logins == s.logins - {id} && s'.clock == s.clock
            && (s'.attempts.Counting? ==> s'.attempts.expiry.Some?)
            && GuardOf(s') == RecordFailure(GuardOf(s), s.clock)
  {
    var recorded := Moved(s, id, credentials);
    var renewed := Moved(recorded, id, credentials);
    assert Alone(s, id, credentials) == Alone(renewed, id, credentials);
    if id in renewed.logins {
      assert Alone(renewed, id, credentials) == Moved(renewed, id, credentials);
    }
  }

  lemma AloneForgets(s: Sys, id: LoginId, credentials: Credentials)
    requires id in s.logins && s.logins[id] == ForgettingAttempts
    ensures Alone(s, id, credentials) == s.(attempts := Gone, lockedUntil := None, logins := s.logins - {id})
  {
    var halfway := Moved(s, id, credentials);
    assert Alone(s, id, credentials) == Alone(halfway, id, credentials);
    assert Alone(halfway, id, credentials) == Moved(halfway, id, credentials);
  }

  /** The steps of a login that arrives and that nobody interrupts do what the whole login does. */
  lemma AloneLogsIn(s: Sys, id: LoginId, credentials: Credentials)
    requires id !in s.logins && (s.attempts.Counting? ==> s.attempts.expiry.Some?)
    ensures var s' := Alone(Goto(s, id, Checking), id, credentials);
            && s'.logins == s.logins && s'.clock == s.clock && (s'.attempts.Counting? ==> s'.attempts.expiry.Some?)
            && GuardOf(s') == AfterLogin(GuardOf(s), credentials, s.clock)
  {
    var checking := Goto(s, id, Checking);
    var checked := Moved(checking, id, credentials);
    if !Locked(s) {
      var verified := Moved(checked, id, credentials);
      assert Alone(checking, id, credentials) == Alone(verified, id, credentials);
      match credentials
      case NoSuchUser => AloneRecords(verified, id, credentials);
      case WrongPassword => AloneRecords(verified, id, credentials);
      case AccountDisabled =>
      case Correct => AloneForgets(verified, id, credentials);
    }
  }
}
