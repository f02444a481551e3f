# Verified model of the enterprise API starter

The repository is a Go web template. Its hard logic lies in a few small stateful protocols that
have to keep guarantees over whole runs. This project models those protocols in Dafny and proves
the guarantees. `dafny verify dfyconfig.toml` checks everything.

| file | what it models |
|---|---|
| `AuthTables.dfy`, `AuthService.dfy`, `AuthRuns.dfy` | sessions and refresh tokens; whole operations, and runs of them |
| `AuthInterleaving.dfy`, `AuthRefinement.dfy` | the same operations statement by statement, interleaved; the link between the two models |
| `TokenCache.dfy`, `CacheRuns.dfy` | the in-memory TTL cache and how long an entry can be relied on |
| `AuthMiddleware.dfy` | the bearer check: cache in front of validation and blacklist; whole requests, and runs of them |
| `BearerInterleaving.dfy` | the same check step by step, with requests and logouts interleaved |
| `RenewedCounter.dfy`, `RateLimiter.dfy`, `Lockout.dfy` | Redis counters whose expiry is renewed at each increment, and their two users |
| `LockoutInterleaving.dfy` | the login lockout command by command, with logins interleaved |
| `Throttler.dfy` | token buckets that are discarded when idle |
| `WorkerPool.dfy` | the bounded worker pool |
| `GoStrings.dfy`, `SqlRewriter.dfy`, `Migrations.dfy` | the SQL rewriter and the migration runner |
| `Rbac.dfy`, `RbacDecisions.dfy` | users, roles, permissions, cascades, the permission join and the seed; what each operation does to decisions |
| `LoadTest.dfy` | the statistics of the load tester |
| `Collections.dfy` | shared definitions |

## How the model reads the code

- One SQL statement, one Redis command and one channel operation is one atomic step. Except where
  a parameter says otherwise, statements succeed and Redis is available.
- An operation that is modelled as a whole happens at one instant. Runs of whole authentication
  operations have a strictly increasing clock: a token that expires at the very instant of a sweep
  is not swept (`expires_at > now()`), yet still accepted (`After`), so with ties an evicted token
  could be accepted once more at that instant.
- Token generation returns hashes never seen before; SHA-256 is injective. Text of an IP address is
  opaque: whether an INSERT accepts it is the environment's answer. Register passes an empty
  address, so its INSERT may be refused after the user has been created.
- Rows are found by their UNIQUE hash; `DELETE ... WHERE id` goes through the row id. ORDER BY with
  equal timestamps may choose any row, so the trim is a relation.
- Where the code updates state in place, a class with the same steps is proved against a function
  or relation of the old state, and the theorems are about that function or relation. Go map
  iteration picks keys in an arbitrary order.

## Where the code differs from what it says

- The template's feature list calls the rate limiter a sliding window. The counter is not one: it
  counts the whole chain of admissions with gaps below the window (`RateLimiter.CounterIsChain`).
  It never admits what a sliding window refuses (`RateLimiter.StricterThanWindow`), but it refuses
  a steady client that a sliding window admits (`RateLimiter.SteadyClientRefused`). The two agree
  exactly if the limit is one request or the window one tick (`RateLimiter.DecidesAsWindowIff`).
- The fifth failed attempt locks an account, but INCR and EXPIRE are separate commands. The record
  can lapse between them, so that one login at a time can fail six times within fifteen minutes;
  with `k` logins in flight the exact bound is `4 + k + min(k, 3)`
  (`LockoutInterleaving.FailuresBounded`, `LockoutInterleaving.FailuresAttained`).
- A refresh or login reports success although the session row could not be stored; the returned
  refresh token is then swept away at once (`AuthRuns.ReturnedTokenValidIffSessionStored`, with
  the first login of `AuthRuns.UselessTokenIssued`).
- The eviction loop of the cache uses the empty key as a sentinel, so the single oldest entry is
  not evicted in every iteration order if its key is empty (`TokenCache.EvictsOldestIff`, with the
  two entries of `TokenCache.YoungerEvicted`).
- A revoked access token is accepted again from its expiry to the end of the 30 s leeway
  (`AuthMiddleware.RevokedIsAcceptedIff`, with the run of `AuthMiddleware.RevokedAcceptedAtExpiry`).
- Discarding idle throttle buckets is visible to clients if ten minutes do not refill the burst
  (`Throttler.DiscardingUnobservableIff`).
- `create table` in small letters is trimmed but not guarded (`SqlRewriter.StatementOutcome`, with
  the statement of `SqlRewriter.LowerCaseNotGuarded`).
- Replacing a user's roles by the empty list succeeds for a user that does not exist
  (`Rbac.Repository.SetRoles`).
- Seeding onto some of the base permissions leaves the admin role with the new ones only
  (`Rbac.SeedCarriesAllIff`, with the database of `Rbac.PartialSeedLosesRight`).

## Model

| member | source | states |
|---|---|---|
| `AuthTables.TrimPossible` | internal/modules/auth/service/auth_service.go:201-204 | the DELETE outside the newest N always has an outcome, ties included |
| `AuthTables.TrimKeepsStrictlyNewest` | internal/modules/auth/service/auth_service.go:201-204 | the strictly newest session of the user survives every outcome of the trim |
| `AuthService.LoadedLimit` | internal/config/config.go:114-116 | the session limit the service receives is positive: the configured one if that is, else 2 |
| `AuthService.Service.EnforceSessionLimit` | internal/modules/auth/service/auth_service.go:195-216 | trim to the newest N, then sweep unexpired tokens without a session of the user; nothing for a limit that is not positive |
| `AuthService.Service.GenerateTokens` | internal/modules/auth/service/auth_service.go:151-193 | the new tables and reply for every combination of signing and INSERT failures |
| `AuthService.Service.RefreshToken` | internal/modules/auth/service/auth_service.go:108-131 | the new tables and reply on every path: unknown, expired, owner gone, not signed, not stored, issued |
| `AuthService.Service.Logout` | internal/modules/auth/service/auth_service.go:143-147 | session and token of a non-empty refresh token are removed, nothing else |
| `AuthService.Service.UpdateLastAccessed` | internal/modules/auth/repository/session_repo.go:57-60 | one session gets the new access time |
| `AuthRuns.StepKeepsInv` | internal/modules/auth/service/auth_service.go:108-216 | every operation keeps: rows agree on owners, unexpired tokens and sessions correspond, the limit holds |
| `AuthRuns.RunKeepsInv` | internal/modules/auth/service/auth_service.go:108-216 | the invariant holds in every world of every run from empty tables |
| `AuthRuns.LiveTokensAreLiveSessions` | internal/modules/auth/service/auth_service.go:118-124 | in every run a user's unexpired token hashes equal those of the user's sessions with an unexpired token, and sessions stay within the limit |
| `AuthRuns.HonouredIffSession` | internal/modules/auth/service/auth_service.go:108-131 | a token is recognized exactly while its session exists and its expiry has not passed |
| `AuthRuns.ExchangeSucceedsIff` | internal/modules/auth/service/auth_service.go:108-131 | a refresh issues a token exactly if the session exists, the token has not expired, the owner is found and the new token can be signed and stored |
| `AuthRuns.PresentedTokenIsSpent` | internal/modules/auth/service/auth_service.go:118-124 | a presented token leaves the table on every path; its session stays only on the expired path |
| `AuthRuns.DeadStaysDead` | internal/modules/auth/service/auth_service.go:161-168 | no operation revives an issued token whose row is gone or expired |
| `AuthRuns.RetiredTokenNeverHonoured` | internal/modules/auth/service/auth_service.go:108-131 | an exchanged, logged-out or evicted token is refused for ever; no token is exchanged twice |
| `AuthRuns.ReturnedTokenValidIffSessionStored` | internal/modules/auth/service/auth_service.go:177-192 | the returned token is usable next exactly if its session row was stored; then it belongs to the same owner and lives for the configured time |
| `AuthRuns.UselessTokenIssued` | internal/modules/auth/service/auth_service.go:177-192 | a login of a fresh system that replies with a token which is never recognized |
| `AuthRuns.SurvivorsAreTheNewest` | internal/modules/auth/service/auth_service.go:200-204 | a session survives exactly if fewer than N of the user's sessions are newer; the new session survives |
| `AuthRuns.OtherUsersUntouched` | internal/modules/auth/service/auth_service.go:195-216 | no operation changes sessions or tokens of a user it does not act for |
| `AuthRuns.TokenRowLeavesIff` | internal/modules/auth/service/auth_service.go:207-215 | a token row goes in an event exactly if the event presents the token or evicts its session before the expiry; expired rows survive every sweep |
| `AuthRuns.RefreshRefusals` | internal/modules/auth/service/auth_service.go:108-129 | exactly when a refresh answers invalid, expired or user not found |
| `AuthRuns.FirstPresentationAfterExpiry` | internal/modules/auth/service/auth_service.go:108-121 | whoever logs in meanwhile, a row that outlived its expiry answers expired at the first presentation and invalid ever after |
| `AuthRuns.SessionLeavesIff` | internal/modules/auth/service/auth_service.go:123-124 | a session goes in an event exactly if it is logged out, exchanged before its expiry, or at least N sessions of its user, the new one included, are newer |
| `AuthRuns.AccessTimeIsLastUse` | internal/modules/auth/repository/session_repo.go:57-60 | a session's access time is that of the last event that stored or used it |
| `AuthInterleaving.StepKeepsLimit` | internal/modules/auth/service/auth_service.go:177-207 | every statement keeps the bound on sessions |
| `AuthInterleaving.SessionsBounded` | internal/modules/auth/service/auth_service.go:151-206 | under every interleaving a user has at most N sessions plus the operations between session INSERT and trim; at most N with nothing in flight |
| `AuthInterleaving.OldOrphanStaysSettled` | internal/modules/auth/service/auth_service.go:123-124 | an orphaned token keeps an operation that will deal with it |
| `AuthInterleaving.NewOrphanIsSettled` | internal/modules/auth/service/auth_service.go:163-181 | a statement that orphans a token belongs to an operation that will deal with it |
| `AuthInterleaving.OrphansAreSettled` | internal/modules/auth/service/auth_service.go:143-215 | under every interleaving with failing INSERTs an unexpired token without session has an operation in flight that deletes it or gives it one; with nothing in flight it has a session of its owner |
| `AuthInterleaving.TokenRowLeavesIff` | internal/modules/auth/service/auth_service.go:207-215 | under every interleaving a token row goes exactly with a statement that deletes it by id or hash, or as an unexpired orphan; never an expired row in a sweep |
| `AuthRefinement.AloneEnforces` | internal/modules/auth/service/auth_service.go:195-216 | trim and sweep without interference are the whole limit enforcement |
| `AuthRefinement.AloneGenerates` | internal/modules/auth/service/auth_service.go:151-193 | the statements of token generation without interference are the whole operation |
| `AuthRefinement.AloneRefreshes` | internal/modules/auth/service/auth_service.go:108-131 | the same for a refresh |
| `AuthRefinement.AloneLogsOut` | internal/modules/auth/service/auth_service.go:143-147 | the same for a logout |
| `TokenCache.Cache.constructor` | internal/shared/utils/cache.go:22-27 | an empty cache with the given limits |
| `TokenCache.Cache.Get` | internal/shared/utils/cache.go:45-59 | the stored data until the expiry, and an expired entry is removed |
| `TokenCache.Cache.Set` | internal/shared/utils/cache.go:61-77 | for the order in which the loop saw the map: at most one eviction, then the new entry |
| `TokenCache.Cache.Delete` | internal/shared/utils/cache.go:79-83 | exactly that key goes |
| `TokenCache.Cache.Cleanup` | internal/shared/utils/cache.go:32-39 | exactly the expired entries go |
| `TokenCache.ExpiryIsUnobservable` | internal/shared/utils/cache.go:32-59 | removing expired entries never changes a later lookup, and a clean-up leaves exactly what can be read |
| `TokenCache.EvictsOldestIff` | internal/shared/utils/cache.go:64-75 | the evicted entry has minimal expiry in every iteration order exactly if the empty key is not the single oldest of several |
| `TokenCache.SetDropsIff` | internal/shared/utils/cache.go:61-77 | a Set drops another entry exactly if the cache is full, also when the key is present already, and that entry is the oldest |
| `TokenCache.YoungerEvicted` | internal/shared/utils/cache.go:64-75 | two entries of which the younger one is evicted, because the older one has the empty key |
| `TokenCache.SetKeepsSize` | internal/shared/utils/cache.go:61-77 | Set keeps the size within max(1, maxSize) |
| `CacheRuns.SizeBounded` | internal/shared/utils/cache.go:61-77 | the size is at most max(1, maxSize) in every run |
| `CacheRuns.EntryRetrievable` | internal/shared/utils/cache.go:45-83 | an entry stays retrievable with its last data until expiry or Delete while fewer than maxSize Sets followed |
| `CacheRuns.ReadWasSet` | internal/shared/utils/cache.go:45-83 | what can be read was Set at most ttl ago and neither deleted nor Set to anything else since |
| `AuthMiddleware.Middleware.AuthRequired` | internal/middleware/auth.go:17-58 | reply and new cache for header errors, hit, invalid, revoked and accepted; without `Bearer ` a refusal that touches nothing |
| `AuthMiddleware.Middleware.Revoke` | internal/modules/auth/service/auth_service.go:134-142 | a valid token with lifetime left is blacklisted for the rest of it |
| `AuthMiddleware.NoSchemeRefused` | internal/middleware/auth.go:19-23 | a header that does not start with `Bearer ` is refused and the cache left alone |
| `AuthMiddleware.BearerDecided` | internal/middleware/auth.go:24-57 | after `Bearer ` comes the token: a fresh entry answers, else it is let through exactly if signed, in its lifetime within 30 s and not known as revoked, and is then cached for ttl |
| `AuthMiddleware.BlacklistedIffLoggedOut` | internal/modules/auth/service/auth_service.go:134-142 | in every run the blacklist holds exactly the valid tokens logged out before their expiry, each until its expiry |
| `AuthMiddleware.CachedWasChecked` | internal/middleware/auth.go:51-52 | every cached entry stems from a successful full check, ttl before its expiry |
| `AuthMiddleware.AcceptedWasCheckedRecently` | internal/middleware/auth.go:27-56 | an accepted request has the claims of a full check of the same token at most ttl earlier |
| `AuthMiddleware.CheckedIsAccepted` | internal/middleware/auth.go:27-56 | whoever passes the full check is accepted with the same claims |
| `AuthMiddleware.NeverAcceptedLongAfterExpiry` | internal/middleware/auth.go:27-56 | no acceptance at or after expiry + 30 s + ttl (expiry as in section 4.1.4 of RFC 7519), and the claims are the token's own |
| `AuthMiddleware.RevocationLasts` | internal/modules/auth/service/auth_service.go:134-141 | the blacklist entry stays until the token's expiry |
| `AuthMiddleware.RevokedIsRefused` | internal/middleware/auth.go:44-49 | a token revoked at L is not accepted in (L + ttl, expiry) |
| `AuthMiddleware.RevokedIsAcceptedIff` | internal/middleware/auth.go:27-56 | in every run, later than L + ttl and before the end of the leeway, a request with a token revoked at L is accepted exactly if the token has expired |
| `AuthMiddleware.RevokedAcceptedAtExpiry` | internal/shared/utils/jwt.go:108-114 | a run in which a revoked token is accepted, at its expiry |
| `AuthMiddleware.FreshTokenValidIff` | internal/shared/utils/jwt.go:73-89 | a generated token validates from now on until its expiry in whole seconds plus 30 s, for the user and address it was generated for |
| `BearerInterleaving.AcceptedWasChecked` | internal/middleware/auth.go:27-56 | with requests and logouts interleaved, an accepted request has claims that were validated for the same token, and then cleared with Redis, at most ttl + d earlier, where d bounds the time from validation to caching |
| `BearerInterleaving.ArrivesIff` | internal/middleware/auth.go:19-24 | a request gets as far as the cache exactly if its header starts with `Bearer `, with the rest as the token |
| `BearerInterleaving.NeverAcceptedLongAfterExpiry` | internal/middleware/auth.go:27-56 | under every interleaving no acceptance at or after expiry + 30 s + ttl + d |
| `BearerInterleaving.RevokedIsRefused` | internal/middleware/auth.go:44-52 | under every interleaving a token revoked at L is not accepted in (L + ttl + d, expiry), also if the logout falls between blacklist look-up and caching |
| `BearerInterleaving.StalenessAttained` | internal/middleware/auth.go:44-52 | a run for every d in which a token is accepted exactly ttl + d after it was revoked |
| `BearerInterleaving.AloneHandles` | internal/middleware/auth.go:17-58 | the steps of a request without interference are the whole request |
| `RenewedCounter.ValueIsChain` | internal/middleware/rate_limiter.go:28-30 | the counter is the length of the chain of increments with gaps below the expiry |
| `RenewedCounter.WindowAndChain` | internal/middleware/rate_limiter.go:24-30 | the chain holds at least the increments in the window, and one is empty exactly if the other is |
| `RenewedCounter.BoundedWindow` | internal/middleware/rate_limiter.go:24-30 | a limit checked against the counter bounds every window |
| `RateLimiter.Limiter.Handle` | internal/middleware/rate_limiter.go:18-36 | admitted, refused or failed with Redis, in that order of checks; an admission renews this client's counter, nothing else changes |
| `RateLimiter.RepliesByOwnHistory` | internal/middleware/rate_limiter.go:18-36 | with the requests of many clients mixed, a request is one too many exactly if the chain of its own client's admissions has reached the limit |
| `RateLimiter.OwnAdmissionsInWindow` | internal/middleware/rate_limiter.go:18-36 | so each client has at most maxReqs admissions in any interval shorter than the window |
| `RateLimiter.UninterruptedHandler` | internal/middleware/rate_limiter.go:18-36 | the steps of one handler without interference are the whole handler |
| `RateLimiter.OvershootBounded` | internal/middleware/rate_limiter.go:19-31 | with at most k handlers in flight, counter plus handlers past the check is at most maxReqs + k - 1 |
| `RateLimiter.OvershootAttained` | internal/middleware/rate_limiter.go:19-31 | for every limit and k some schedule drives the counter to maxReqs + k - 1 |
| `RateLimiter.AdmissionsInWindow` | internal/middleware/rate_limiter.go:19-36 | any interval shorter than the window has at most maxReqs + k - 1 admissions, maxReqs for one handler at a time |
| `RateLimiter.CounterIsChain` | internal/middleware/rate_limiter.go:19-36 | what a check reads is the length of the current chain of admissions |
| `RateLimiter.StricterThanWindow` | internal/middleware/rate_limiter.go:19-31 | whatever is let through, a sliding window would let through |
| `RateLimiter.DecidesAsWindowIff` | internal/middleware/rate_limiter.go:19-36 | every check of every run decides as a sliding window exactly if maxReqs <= 1 or the window is at most one tick, for any number of handlers in flight |
| `RateLimiter.SteadyClientRefused` | internal/middleware/rate_limiter.go:19-36 | for every larger limit and window, a run of one handler at a time that is refused although a sliding window admits it: admissions at 0, then 1, and a check at the window's end |
| `RateLimiter.BlockEndsAfterLastAdmission` | internal/middleware/rate_limiter.go:24-30 | a block ends exactly one window after the last admission; refusals never prolong it |
| `Lockout.LoginGuard.CheckLoginAttempts` | internal/modules/auth/service/auth_service.go:86-94 | refusal exactly while the lock key lives |
| `Lockout.LoginGuard.RecordFailedAttempt` | internal/modules/auth/service/auth_service.go:96-106 | the address's counter and lock after a failure; other addresses keep theirs |
| `Lockout.LoginGuard.Login` | internal/modules/auth/service/auth_service.go:60-81 | reply and guard for lock, unknown user, disabled account, wrong password, success |
| `Lockout.UnlockedMeansFewAttempts` | internal/modules/auth/service/auth_service.go:60-106 | not locked implies at most four attempts on record, in every run |
| `Lockout.FailuresInWindow` | internal/modules/auth/service/auth_service.go:96-106 | any interval below fifteen minutes without success has at most five recorded failures |
| `Lockout.FailureLocksIff` | internal/modules/auth/service/auth_service.go:101-103 | a failure locks exactly as the fifth of its chain, for fifteen minutes |
| `Lockout.LapsedLockLeavesNothing` | internal/modules/auth/service/auth_service.go:96-106 | the lock lapses exactly when the record does: five attempts are available again |
| `Lockout.RepliesByHistory` | internal/modules/auth/service/auth_service.go:60-94 | locked exactly while the chain of recorded failures has reached five in 900000 ms gaps, else the reply the credentials deserve |
| `Lockout.FifthFailureLocks` | internal/modules/auth/service/auth_service.go:96-106 | four failures at one instant, of either kind, leave the address open; the fifth locks it for 900000 ms |
| `LockoutInterleaving.FailuresBounded` | internal/modules/auth/service/auth_service.go:60-106 | under every interleaving with at most k logins in flight, a stretch below fifteen minutes without a successful login has at most 4 + k + min(k, 3) recorded failures |
| `LockoutInterleaving.FailuresAttained` | internal/modules/auth/service/auth_service.go:96-106 | for every k some schedule reaches that number |
| `LockoutInterleaving.AloneLogsIn` | internal/modules/auth/service/auth_service.go:60-106 | the commands of a login without interference are the whole login |
| `Throttler.Registry.GetLimiter` | internal/middleware/throttler.go:31-39 | the stored bucket or a full one, with the time of this request |
| `Throttler.Registry.Throttle` | internal/middleware/throttler.go:58-67 | decision and new bucket of this client; other clients keep theirs |
| `Throttler.Registry.CleanupIdle` | internal/middleware/throttler.go:46-53 | exactly the clients idle for more than 600 s are discarded |
| `Throttler.RunsStaySimilar` | internal/middleware/throttler.go:31-67 | with and without discarding, every decision is the same if ten minutes refill the burst |
| `Throttler.DiscardingUnobservableIff` | internal/middleware/throttler.go:31-67 | discarding is unobservable in every run exactly if 600 * rate >= burst |
| `Throttler.KeptWithinRate` | internal/middleware/throttler.go:58-67 | a kept bucket admits at most burst + rate * T in any interval of length T |
| `Throttler.AdmissionsWithinRate` | internal/middleware/throttler.go:41-67 | the same bound for the code with its clean-ups |
| `Throttler.KeptAdmitsIff` | internal/middleware/throttler.go:58-67 | a kept bucket admits a request exactly if that stays within burst and rate, counted from every earlier admission |
| `Throttler.AdmitsIff` | internal/middleware/throttler.go:31-67 | so does the code with its clean-ups, if ten minutes refill the burst |
| `Throttler.SpacedNeverRefused` | internal/middleware/throttler.go:31-67 | a client whose requests are at least 1/rate apart is never refused, clean-ups or not |
| `WorkerPool.ConcretePool.constructor` | internal/shared/utils/worker.go:18-41 | an open pool with idle workers and an empty queue |
| `WorkerPool.ConcretePool.Submit` | internal/shared/utils/worker.go:43-49 | with no worker waiting the task is queued, or dropped exactly if the queue is full |
| `WorkerPool.ConcretePool.HandOver` | internal/shared/utils/worker.go:43-49 | a worker that waits on the empty queue gets the task directly |
| `WorkerPool.ConcretePool.Receive` | internal/shared/utils/worker.go:29-33 | an idle worker takes the head of the queue |
| `WorkerPool.ConcretePool.Finish` | internal/shared/utils/worker.go:33 | the worker's task is done and the worker idle |
| `WorkerPool.ConcretePool.Leave` | internal/shared/utils/worker.go:34-35 | an idle worker leaves after the signal |
| `WorkerPool.ConcretePool.CloseSignal` | internal/shared/utils/worker.go:51-52 | shutdown closes the signal |
| `WorkerPool.ConcretePool.Wait` | internal/shared/utils/worker.go:53 | Shutdown returns exactly when all workers have left |
| `WorkerPool.TasksConserved` | internal/shared/utils/worker.go:18-54 | every submitted task is in exactly one place: dropped, queued, running or done |
| `WorkerPool.DroppedIff` | internal/shared/utils/worker.go:43-49 | a task is dropped exactly if the queue was full when it was submitted |
| `WorkerPool.SubmissionQueuedIff` | internal/shared/utils/worker.go:43-49 | with room the task is the last of the queue, without it nothing moves |
| `WorkerPool.NobodyLeavesEarly` | internal/shared/utils/worker.go:28-37 | no worker leaves before Shutdown closes the signal |
| `WorkerPool.StartedInOrder` | internal/shared/utils/worker.go:28-49 | tasks start in submission order at most once; queue and running tasks stay within their bounds |
| `WorkerPool.ShutdownStepDecreases` | internal/shared/utils/worker.go:28-37 | each step after the signal uses up work |
| `WorkerPool.ShutdownTerminates` | internal/shared/utils/worker.go:51-54 | after the signal, without submissions, the number of steps is bounded |
| `WorkerPool.ShutdownProgresses` | internal/shared/utils/worker.go:51-54 | until Shutdown has returned some step is possible |
| `WorkerPool.NothingStartsAfterShutdown` | internal/shared/utils/worker.go:51-54 | after Shutdown has returned no task starts or finishes |
| `GoStrings.SplitJoin` | internal/database/migrate.go:161-175 | splitting undoes joining when no part holds the separator |
| `GoStrings.JoinSplit` | internal/database/migrate.go:161-175 | joining undoes splitting |
| `GoStrings.TrimSpaceCutsSpaces` | internal/database/migrate.go:164 | trimming cuts white space at both ends, all of it and nothing else |
| `GoStrings.SpaceCodes` | internal/database/migrate.go:164 | white space is the ASCII codes 9 to 13 and 32 |
| `GoStrings.UpperLetters` | internal/database/migrate.go:169 | upper case changes the codes 97 to 122 by 32 and nothing else |
| `SqlRewriter.FixCreateTableStatements` | internal/database/migrate.go:159-176 | the loop rewrites each statement by itself and joins them again |
| `SqlRewriter.StatementOutcome` | internal/database/migrate.go:163-173 | untouched unless it creates a table without guard; else guarded exactly if the keyword is in capitals, right behind it |
| `SqlRewriter.CapitalIsGuarded` | internal/database/migrate.go:169-172 | text around the first capital CREATE TABLE, wherever it stands, gets the guard right behind it unless it says IF NOT EXISTS |
| `SqlRewriter.OtherTextUntouched` | internal/database/migrate.go:164-172 | text without CREATE TABLE, or with IF NOT EXISTS, in any letter case, or blank, is left to the letter |
| `SqlRewriter.LowerCaseNotGuarded` | internal/database/migrate.go:169-172 | a lower-case statement that needs the guard and does not get it |
| `SqlRewriter.StatementsPreserved` | internal/database/migrate.go:159-176 | number and places of the statements are preserved |
| `SqlRewriter.FixSqlIdempotent` | internal/database/migrate.go:159-176 | rewriting twice is rewriting once |
| `SqlRewriter.GuardedTextUntouched` | internal/database/migrate.go:164-172 | text in which nothing needs a guard is returned to the letter |
| `Migrations.VersionOfPath` | internal/database/migrate.go:133-141 | the version is the file name without directory and suffix |
| `Migrations.VersionsDistinct` | internal/database/migrate.go:133-141 | different migration files have different versions |
| `Migrations.MigrationFilesDistinct` | internal/database/migrate.go:39-47 | the files of the embedded directory have distinct versions |
| `Migrations.Migrator.RunMigrations` | internal/database/migrate.go:24-99 | the tables and the result of one run: skips, transactions and early returns |
| `Migrations.RunResumes` | internal/database/migrate.go:46-98 | a run continues after the applied files up to the first refused one, and succeeds exactly if none is |
| `Migrations.RunExecutes` | internal/database/migrate.go:46-98 | a run executes the rewritten text of each pending file once and in order, up to the first refused one, and records exactly those |
| `Migrations.AlwaysAPrefix` | internal/database/migrate.go:32-98 | after any interrupted runs: the versions of a prefix, and the schema that executing the rewritten texts of exactly that prefix builds |
| `Migrations.CleanRunCompletes` | internal/database/migrate.go:32-98 | a clean run after any history has executed and recorded all files, like one straight run; a further run changes nothing |
| `Rbac.Repository.SetRoles` | internal/modules/admin/repository/admin_user_repo.go:114-133 | exact success condition; success gives exactly the requested set, failure changes nothing |
| `Rbac.Repository.AssignPermissions` | internal/modules/admin/repository/role_repo.go:93-112 | the same for a role's permissions, duplicates allowed |
| `Rbac.Repository.AssignRole` | internal/modules/admin/repository/admin_user_repo.go:83-87 | success exactly for existing ids or an existing row |
| `Rbac.Repository.RemoveRole` | internal/modules/admin/repository/admin_user_repo.go:89-92 | exactly that row goes |
| `Rbac.Repository.DeleteRole` | internal/modules/admin/repository/role_repo.go:88-91 | the role and, by cascade, every row that names it |
| `Rbac.Repository.DeletePermission` | internal/modules/admin/repository/permission_repo.go:77-80 | the permission and, by cascade, every row that names it |
| `Rbac.Repository.CreatePermission` | internal/modules/admin/repository/permission_repo.go:21-26 | success exactly for a new name |
| `Rbac.Repository.SeedPermissions` | internal/modules/admin/service/admin_service.go:112-149 | creates what is missing and assigns exactly what it created |
| `Rbac.Repository.SeedDefaultAdmin` | internal/modules/admin/service/admin_service.go:42-110 | nothing if the account exists; else role, permissions, account and assignment |
| `Rbac.IntegrityKept` | internal/database/migrations/000004_create_role_permissions.up.sql:2-4 | referential integrity after every sequence of operations |
| `Rbac.NamesStayUnique` | internal/database/migrations/000002_create_permissions.up.sql:3 | addresses, role names and permission names stay unique over every sequence of operations |
| `Rbac.GrantedThrough` | internal/middleware/rbac.go:24-30 | the join grants exactly what some role of the user carries |
| `Rbac.OnlyAffectedDecisionsChange` | internal/middleware/rbac.go:24-30 | an operation changes decisions only for the users it affects |
| `RbacDecisions.GrantedIff` | internal/middleware/rbac.go:24-30 | a user is let through exactly if some role of the user carries the right |
| `RbacDecisions.RoleReplacementDecides` | internal/modules/admin/repository/admin_user_repo.go:114-133 | exactly the listed roles decide afterwards if user and roles exist and none is repeated, or none is listed; else nothing changes |
| `RbacDecisions.RepeatedRoleFails` | internal/modules/admin/repository/admin_user_repo.go:114-133 | a repeated role fails the whole replacement |
| `RbacDecisions.PermissionReplacementDecides` | internal/modules/admin/repository/role_repo.go:93-112 | the role carries exactly the listed permissions afterwards, repeated or not, if all exist; else nothing changes |
| `RbacDecisions.AssignedRoleDecides` | internal/modules/admin/repository/admin_user_repo.go:83-87 | assigning adds what the role carries and no more |
| `RbacDecisions.RemovedRoleDecides` | internal/modules/admin/repository/admin_user_repo.go:89-92 | exactly the user's other roles decide afterwards |
| `RbacDecisions.DeletedPermissionDecides` | internal/modules/admin/repository/permission_repo.go:77-80 | a deleted permission is gone and exactly the others decide |
| `RbacDecisions.DeletedRoleIsGone` | internal/modules/admin/repository/role_repo.go:88-91 | a deleted role is gone with all its assignments and permissions |
| `RbacDecisions.UpdatedPermissionDecides` | internal/modules/admin/repository/permission_repo.go:69-75 | roles carry the changed permission as it is now; a taken name changes nothing |
| `RbacDecisions.CreatedIff` | internal/modules/admin/repository/permission_repo.go:21-26 | a user, role or permission is created exactly if its name is free |
| `Rbac.JoinsReadEverything` | internal/modules/admin/repository/role_repo.go:114-133 | the reading joins lose no row |
| `Rbac.ReplacementsReadBack` | internal/modules/admin/repository/admin_user_repo.go:94-133 | a successful replacement is read back as requested, other owners keep theirs |
| `Rbac.DeletedRoleGrantsNothing` | internal/database/migrations/000005_create_user_roles.up.sql:2-4 | after deleting a role exactly the grants through other roles remain |
| `Rbac.SeedCarriesAllIff` | internal/modules/admin/service/admin_service.go:129-148 | the seeded role has all base rights exactly if no base name was taken, or all were and it had them |
| `Rbac.PartialSeedLosesRight` | internal/modules/admin/service/admin_service.go:129-148 | a reachable database in which seeding takes away a base right the admin role had |
| `Rbac.AdminGetsEverything` | internal/modules/admin/service/admin_service.go:42-110 | a first start-up without base permissions grants the administrator every base right |
| `RbacDecisions.AdminRights` | internal/modules/admin/service/admin_service.go:112-127 | the eight rights of the first administrator, spelled out |
| `LoadTest.Metrics.Record` | cmd/loadtest/main.go:37-49 | one sample more, all counters in step |
| `LoadTest.Metrics.Snapshot` | cmd/loadtest/main.go:51-77 | counters and figures in terms of the recorded samples; min <= p50 <= p90 <= p99 <= p999 <= max, min <= avg <= max |
| `LoadTest.Avg` | cmd/loadtest/main.go:109-118 | the mean, zero for no values |
| `LoadTest.PercentileIsNearestRank` | cmd/loadtest/main.go:95-107 | at least p percent of the samples are at most the result, fewer than p percent strictly below |
| `LoadTest.PercentileMonotone` | cmd/loadtest/main.go:95-107 | percentiles grow with p and lie between the extremes |
| `LoadTest.SummaryAddsUp` | cmd/loadtest/main.go:37-49 | total = success + failed = number of latencies = sum of the status counts |
| `LoadTest.SummaryInPlainTerms` | cmd/loadtest/main.go:37-107 | over the recorded samples: 200 to 499 are successes, each status is counted, and each percentile is a recorded duration in milliseconds with nearest rank |

## Left out

- HTTP handlers, routes, request mapping, CORS, security headers, compression, list pagination: plumbing without an invariant.
- RSA, bcrypt, JWT encoding and key loading: foreign calls; kept are injectivity of hashes, freshness of tokens and the expiry arithmetic.
- The inside of PostgreSQL, Redis and golang.org/x/time/rate: each is a small specification (atomic statement or transaction, key with expiry, bucket that starts full and whose refusals change nothing). Failing statements other than the two INSERTs of token generation, Redis errors in the lockout, and commits of unknown outcome are not modelled.
- Single use of a refresh token under statement-level interleaving: the code reads and then deletes without looking at the deleted row count, so it is claimed for whole operations only.
- A throttled request that races with the idle clean-up between its check and its delete: claimed for atomic handlers only.
- The minutes in the lockout message, and the text of every other error message.
- Double-closing of the worker pool (a panic in Go), and the exit of a worker through a closed task channel, which the code never closes.
- Creating the schema_migrations table, the recorded names and times, and sorting the embedded file list: the sorted list is the input of a run.
- Non-ASCII white space and letters in the SQL rewriter.
- Wrap-around of 64-bit counters and float rounding in the statistics: integers are unbounded and latencies exact reals.
- The aliasing of the status map that a summary shares with the metrics.
- Storage backends, log writer, incident module, websocket placeholders, deployment files and scripts: thin or without an invariant.
- AuthService.Service.GenerateTokens: the access token and the user data in the reply, which are computed before the first statement and stored nowhere.
- AuthMiddleware.Middleware.AuthRequired: one request at one instant, which is what the whole-request theorems of AuthMiddleware speak about; BearerInterleaving takes the steps apart.
- Migrations.Migrator.RunMigrations: starts when the version table exists, its rows have been read and the files are listed; an error before that point returns without touching any file.
- Rbac.Repository.SeedDefaultAdmin: statements do not fail, so the early returns that leave a seed half done are not taken.
- LoadTest.Metrics.Snapshot: the rate per second and the elapsed time, which for an elapsed time of zero are float infinities.
