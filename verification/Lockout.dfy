/**
 The brute-force guard of Login: a counter of failed attempts and a lock, both Redis keys that
 live for fifteen minutes. Whole logins for one e-mail address are atomic; addresses have
 separate keys.
 */
module Lockout {
  import opened RenewedCounter

  const LOCK_MS: int := 15 * 60 * 1000
  const MAX_ATTEMPTS: nat := 5

  datatype Guard = Guard(attempts: Cell, lock: Cell)

  datatype Credentials = NoSuchUser | AccountDisabled | WrongPassword | Correct

  datatype Reply = Locked | Invalid | Disabled | Proceeds

  const UNLOCKED := Guard(Absent, Absent)

  predicate IsLocked(g: Guard, now: Time) {
    g.lock.Present? && now < g.lock.expiresAt
  }

  function RecordFailure(g: Guard, now: Time): Guard {
    var attempts := Increment(g.attempts, now, LOCK_MS);
    Guard(attempts, if attempts.Present? && attempts.count >= MAX_ATTEMPTS then Present(1, now + LOCK_MS) else g.lock)
  }

  function LoginReply(g: Guard, credentials: Credentials, now: Time): Reply {
    if IsLocked(g, now) then Locked
    else match credentials
      case NoSuchUser => Invalid
      case AccountDisabled => Disabled
      case WrongPassword => Invalid
      case Correct => Proceeds
  }

  function AfterLogin(g: Guard, credentials: Credentials, now: Time): Guard {
    match LoginReply(g, credentials, now)
    case Locked => g
    case Invalid => RecordFailure(g, now)
    case Disabled => g
    case Proceeds => UNLOCKED
  }

  class LoginGuard {
    var attempts: map<string, Cell>
    var locks: map<string, Cell>

    constructor ()
      ensures attempts == map[] && locks == map[]
    {
      attempts, locks := map[], map[];
    }

    function GuardOf(email: string): Guard
      reads this
    {
      Guard(if email in attempts then attempts[email] else Absent, if email in locks then locks[email] else Absent)
    }

    method CheckLoginAttempts(email: string, now: Time) returns (ok: bool)
      ensures ok <==> !IsLocked(GuardOf(email), now)
    {
      ok := !(email in locks && locks[email].Present? && now < locks[email].expiresAt);
    }

    method RecordFailedAttempt(email: string, now: Time)
      modifies this
      ensures GuardOf(email) == RecordFailure(old(GuardOf(email)), now)
      ensures forall other :: other != email ==> GuardOf(other) == old(GuardOf(other))
    {
      var cell := Increment(if email in attempts then attempts[email] else Absent, now, LOCK_MS);
      attempts := attempts[email := cell];
      if cell.count >= MAX_ATTEMPTS {
        locks := locks[email := Present(1, now + LOCK_MS)];
      }
    }

    method Login(email: string, credentials: Credentials, now: Time) returns (reply: Reply)
      modifies this
      ensures reply == LoginReply(old(GuardOf(email)), credentials, now)
      ensures GuardOf(email) == AfterLogin(old(GuardOf(email)), credentials, now)
      ensures forall other :: other != email ==> GuardOf(other) == old(GuardOf(other))
    {
      var ok := CheckLoginAttempts(email, now);
      if !ok {
        return Locked;
      }
      if credentials == NoSuchUser {
        RecordFailedAttempt(email, now);
        return Invalid;
      }
      if credentials == AccountDisabled {
        return Disabled;
      }
      if credentials == WrongPassword {
        RecordFailedAttempt(email, now);
        return Invalid;
      }
      attempts := attempts - {email};
      locks := locks - {email};
      return Proceeds;
    }
  }

  // ---------------------------------------------------------------------------------------
  // Runs of logins for one address
  // ---------------------------------------------------------------------------------------

  datatype Attempt = Attempt(now: Time, credentials: Credentials)

  /** `failures` lists the failures recorded since the last successful login. */
  datatype History = History(guard: Guard, failures: seq<Time>, clock: Time)

  function Apply(h: History, a: Attempt): History {
    History(AfterLogin(h.guard, a.credentials, a.now),
            match LoginReply(h.guard, a.credentials, a.now)
            case Invalid => h.failures + [a.now]
            case Proceeds => []
            case _ => h.failures,
            a.now)
  }

  function Exec(attempts: seq<Attempt>): History {
    if attempts == [] then History(UNLOCKED, [], 0)
    else var n := |attempts| - 1; Apply(Exec(attempts[..n]), attempts[n])
  }

  predicate InOrder(attempts: seq<Attempt>) {
    && (forall i :: 0 <= i < |attempts| ==> 0 <= attempts[i].now)
    && (forall i, j :: 0 <= i <= j < |attempts| ==> attempts[i].now <= attempts[j].now)
  }

  predicate Inv(h: History) {
    && Ordered(h.failures) && (h.failures != [] ==> h.failures[|h.failures| - 1] <= h.clock)
    && h.guard.attempts == CellAfter(h.failures, LOCK_MS)
    && (h.guard.attempts.Present? && h.guard.attempts.count >= MAX_ATTEMPTS
        ==> h.guard.lock.Present? && h.guard.lock.expiresAt == h.guard.attempts.expiresAt)
    && (h.guard.lock.Present? ==> h.guard.attempts.Present? && h.guard.lock.expiresAt <= h.guard.attempts.expiresAt)
    && (IsLocked(h.guard, h.clock) ==> h.guard.lock.expiresAt == h.guard.attempts.expiresAt)
    && (h.guard.lock.Present? && h.guard.lock.expiresAt == h.guard.attempts.expiresAt
        ==> h.guard.attempts.count >= MAX_ATTEMPTS)
    && Bounded(h.failures, LOCK_MS, MAX_ATTEMPTS)
  }

  lemma FailureKeepsInv(h: History, now: Time)
    requires Inv(h) && h.clock <= now && !IsLocked(h.guard, now)
    ensures Inv(History(RecordFailure(h.guard, now), h.failures + [now], now))
  {
    IncrementKeepsBounded(h.failures, LOCK_MS, MAX_ATTEMPTS, now);
  }

  lemma {:induction false} RunKeepsInv(attempts: seq<Attempt>)
    requires InOrder(attempts)
    ensures Inv(Exec(attempts)) && Exec(attempts).clock == if attempts == [] then 0 else attempts[|attempts| - 1].now
  {
    if attempts != [] {
      var n := |attempts| - 1;
      RunKeepsInv(attempts[..n]);
      var h, a := Exec(attempts[..n]), attempts[n];
      if LoginReply(h.guard, a.credentials, a.now) == Invalid {
        FailureKeepsInv(h, a.now);
      }
    }
  }

  /** Whenever an address is not locked, at most four failed attempts are on record, and the record
      is the chain of recent failures. */
  lemma {:induction false} UnlockedMeansFewAttempts(attempts: seq<Attempt>, now: Time)
    requires InOrder(attempts) && Exec(attempts).clock <= now
    requires !IsLocked(Exec(attempts).guard, now)
    ensures Value(Exec(attempts).guard.attempts, now) <= 4
    ensures Value(Exec(attempts).guard.attempts, now) == Chain(Exec(attempts).failures, LOCK_MS, now)
  {
    RunKeepsInv(attempts);
    ValueIsChain(Exec(attempts).failures, LOCK_MS, now);
  }

  /** An interval shorter than fifteen minutes without a successful login contains at most five
      recorded failures. */
  lemma FailuresInWindow(attempts: seq<Attempt>, i: nat, j: nat)
    requires InOrder(attempts)
    requires var times := Exec(attempts).failures; i <= j < |times| && times[j] - times[i] < 900_000
    ensures j - i + 1 <= 5
  {
    RunKeepsInv(attempts);
    BoundedWindow(Exec(attempts).failures, LOCK_MS, MAX_ATTEMPTS, i, j);
  }

  /** A failure locks the address exactly when four failures are on record already, and then for
      fifteen minutes from that failure. */
  lemma FailureLocksIff(attempts: seq<Attempt>, now: Time)
    requires InOrder(attempts) && Exec(attempts).clock <= now && !IsLocked(Exec(attempts).guard, now)
    ensures IsLocked(RecordFailure(Exec(attempts).guard, now), now)
       <==> Chain(Exec(attempts).failures, LOCK_MS, now) == MAX_ATTEMPTS - 1
    ensures IsLocked(RecordFailure(Exec(attempts).guard, now), now)
            ==> var guard := RecordFailure(Exec(attempts).guard, now);
                forall later :: now <= later ==> (IsLocked(guard, later) <==> later < now + LOCK_MS)
  {
    RunKeepsInv(attempts);
    ValueIsChain(Exec(attempts).failures, LOCK_MS, now);
  }

  /** A lock that has lapsed leaves nothing on record: all five attempts are available again. */
  lemma {:induction false} LapsedLockLeavesNothing(attempts: seq<Attempt>, lockedAt: Time, now: Time)
    requires InOrder(attempts) && Exec(attempts).clock <= lockedAt <= now
    requires IsLocked(Exec(attempts).guard, lockedAt)
    ensures !IsLocked(Exec(attempts).guard, now) <==> Value(Exec(attempts).guard.attempts, now) == 0
  {
    RunKeepsInv(attempts);
  }

  /** The reply to the next login, by the history of the address: locked exactly while the chain of
      recorded failures has reached five, and else what the credentials deserve. */
  lemma RepliesByHistory(attempts: seq<Attempt>, credentials: Credentials, now: Time)
    requires InOrder(attempts) && Exec(attempts).clock <= now
    ensures LoginReply(Exec(attempts).guard, credentials, now)
         == if Chain(Exec(attempts).failures, 900_000, now) >= 5 then Locked
            else match credentials
                 case NoSuchUser => Invalid
                 case WrongPassword => Invalid
                 case AccountDisabled => Disabled
                 case Correct => Proceeds
  {
    RunKeepsInv(attempts);
    ValueIsChain(Exec(attempts).failures, LOCK_MS, now);
  }

  /** Failed attempts at one instant, of either kind. */
  function Failing(credentials: seq<Credentials>, now: Time): seq<Attempt> {
    seq(|credentials|, i requires 0 <= i < |credentials| => Attempt(now, credentials[i]))
  }

  /** The guard after this many failures at one instant. */
  function GuardAfter(failures: nat, now: Time): Guard {
    Guard(if failures == 0 then Absent else Present(failures, now + 900_000),
          if failures < 5 then Absent else Present(1, now + 900_000))
  }

  lemma FailureCounted(guard: Guard, n: nat, credentials: Credentials, now: Time)
    requires n < 5 && guard == GuardAfter(n, now) && credentials in {NoSuchUser, WrongPassword}
    ensures LoginReply(guard, credentials, now) == Invalid
    ensures AfterLogin(guard, credentials, now) == GuardAfter(n + 1, now)
  {
  }

  lemma {:induction false} FailingRecorded(credentials: seq<Credentials>, now: Time)
    requires 0 <= now && |credentials| <= 5
    requires forall i :: 0 <= i < |credentials| ==> credentials[i] in {NoSuchUser, WrongPassword}
    ensures InOrder(Failing(credentials, now))
    ensures var h := Exec(Failing(credentials, now));
            && h.failures == seq(|credentials|, _ => now) && (credentials != [] ==> h.clock == now)
            && h.guard == GuardAfter(|credentials|, now)
  {
    if credentials != [] {
      var n := |credentials| - 1;
      FailingRecorded(credentials[..n], now);
      assert Failing(credentials, now)[..n] == Failing(credentials[..n], now);
      FailureCounted(Exec(Failing(credentials[..n], now)).guard, n, credentials[n], now);
    }
  }

  /** Four failures at one instant leave the address open; the fifth locks it for fifteen minutes. */
  lemma FifthFailureLocks(credentials: seq<Credentials>, now: Time, later: Time)
    requires 0 <= now <= later && |credentials| <= 5
    requires forall i :: 0 <= i < |credentials| ==> credentials[i] in {NoSuchUser, WrongPassword}
    ensures LoginReply(Exec(Failing(credentials, now)).guard, Correct, later)
         == if |credentials| == 5 && later < now + 900_000 then Locked else Proceeds
  {
    FailingRecorded(credentials, now);
  }
}
