/**
 The bearer check with each of its steps apart: the cache look-up, the validation, the blacklist
 look-up and the caching of the claims. Any number of requests and logouts interleave, and time
 may pass between the steps of one request. What a request remembers of the times of its own
 steps is there for the theorems only.
 */
module BearerInterleaving {
  import opened Collections
  import opened TokenCache
  import opened AuthMiddleware

  type RequestId = nat

  datatype Pc =
    | Getting(token: TokenStr)
    | Validating(token: TokenStr)
    | Asking(token: TokenStr, claims: Claims, validatedAt: Time)
    | Storing(token: TokenStr, claims: Claims, validatedAt: Time, askedAt: Time)

  datatype Sys = Sys(cache: Entries<Claims>, blacklist: Blacklist, requests: map<RequestId, Pc>, clock: Time)

  /** `order` is the order in which the eviction loop sees the cache, if the step stores claims. */
  datatype Step =
    | Tick(now: Time)
    | Arrive(id: RequestId, header: string)
    | Advance(id: RequestId, redisUp: bool, order: seq<Key>)
    | Revoke(token: TokenStr)
    | Evict(key: Key)  // Delete, or the late removal by a Get that raced with a Set
    | Sweep

  function Goto(s: Sys, id: RequestId, pc: Pc): Sys {
    s.(requests := s.requests[id := pc])
  }

  function Finish(s: Sys, id: RequestId): Sys {
    s.(requests := s.requests - {id})
  }

  /** The request takes its next step. */
  ghost predicate Advances(cfg: Config, crypto: Crypto, s: Sys, step: Step, s': Sys)
    requires step.Advance? && step.id in s.requests
  {
    var id := step.id;
    match s.requests[id]
    case Getting(token) =>
      s' == if Lookup(s.cache, crypto.hash(token), s.clock).Some?
            then Finish(s, id)
            else Goto(s.(cache := AfterGet(s.cache, crypto.hash(token), s.clock)), id, Validating(token))
    case Validating(token) =>
      var claims := ValidateAccessToken(crypto, token, s.clock);
      s' == if claims.None? then Finish(s, id) else Goto(s, id, Asking(token, claims.value, s.clock))
    case Asking(token, claims, validatedAt) =>
      s' == if step.redisUp && Revoked(s.blacklist, crypto.hash(token), s.clock)
            then Finish(s, id)
            else Goto(s, id, Storing(token, claims, validatedAt, s.clock))
    case Storing(token, claims, _, _) =>
      && Enumerates(step.order, s.cache)
      && var cache := AfterSet(s.cache, cfg.maxSize, step.order, crypto.hash(token), claims, s.clock + cfg.ttl);
         s' == Finish(s.(cache := cache), id)
  }

  ghost predicate Next(cfg: Config, crypto: Crypto, s: Sys, step: Step, s': Sys) {
    match step
    case Tick(now) => s.clock <= now && s' == s.(clock := now)
    case Arrive(id, header) =>
      id !in s.requests && BearerToken(header).Some? && s' == Goto(s, id, Getting(BearerToken(header).value))
    case Advance(id, _, _) => id in s.requests && Advances(cfg, crypto, s, step, s')
    case Revoke(token) => s' == s.(blacklist := AfterLogout(crypto, s.blacklist, token, s.clock))
    case Evict(key) => s' == s.(cache := s.cache - {key})
    case Sweep => s' == s.(cache := AfterCleanup(s.cache, s.clock))
  }

  ghost predicate Run(cfg: Config, crypto: Crypto, states: seq<Sys>, steps: seq<Step>) {
    && |states| == |steps| + 1
    && states[0].cache == map[] && states[0].blacklist == map[] && states[0].requests == map[]
    && forall i :: 0 <= i < |steps| ==> Next(cfg, crypto, states[i], steps[i], states[i + 1])
  }

  /** The claims with which this step lets its request through, if it does. */
  function Accepted(crypto: Crypto, s: Sys, step: Step): Option<Claims> {
    if step.Advance? && step.id in s.requests then
      match s.requests[step.id]
      case Getting(token) => Lookup(s.cache, crypto.hash(token), s.clock)
      case Storing(_, claims, _, _) => Some(claims)
      case _ => None
    else None
  }

  /** Claims are stored at most `d` after their validation. */
  predicate Prompt(d: nat, states: seq<Sys>, steps: seq<Step>) {
    forall n :: 0 <= n < |steps| && n < |states| && steps[n].Advance? && steps[n].id in states[n].requests
                && states[n].requests[steps[n].id].Storing?
                ==> states[n].clock <= states[n].requests[steps[n].id].validatedAt + d
  }

  /** Step `i` validates the token with these claims. */
  predicate Validates(crypto: Crypto, states: seq<Sys>, steps: seq<Step>, i: nat, token: TokenStr, claims: Claims) {
    && i < |steps| && i < |states| && steps[i].Advance? && steps[i].id in states[i].requests
    && states[i].requests[steps[i].id] == Validating(token)
    && ValidateAccessToken(crypto, token, states[i].clock) == Some(claims)
  }

  /** Step `m` asks Redis about the token, for a request that validated it at `validatedAt`, and is
      not told that the token has been revoked. */
  predicate Clears(crypto: Crypto, states: seq<Sys>, steps: seq<Step>, m: nat, token: TokenStr, claims: Claims,
                   validatedAt: Time)
  {
    && m < |steps| && m < |states| && steps[m].Advance? && steps[m].id in states[m].requests
    && states[m].requests[steps[m].id] == Asking(token, claims, validatedAt)
    && !(steps[m].redisUp && Revoked(states[m].blacklist, crypto.hash(token), states[m].clock))
  }

  /** A request takes its first step exactly if its header has the scheme; what follows the scheme is
      the token. All others get their refusal without touching anything. */
  lemma ArrivesIff(cfg: Config, crypto: Crypto, s: Sys, id: RequestId, header: string, s': Sys)
    requires id !in s.requests
    ensures Next(cfg, crypto, s, Arrive(id, header), s')
       <==> "Bearer " <= header && s' == s.(requests := s.requests[id := Getting(header[7..])])
  {
    assert |"Bearer "| == 7;
  }

  // ---------------------------------------------------------------------------------------
  // Where accepted claims come from
  // ---------------------------------------------------------------------------------------

  lemma {:induction false} ClockRuns(cfg: Config, crypto: Crypto, states: seq<Sys>, steps: seq<Step>, i: nat, j: nat)
    requires Run(cfg, crypto, states, steps) && i <= j < |states|
    ensures states[i].clock <= states[j].clock
  {
    if i < j {
      ClockRuns(cfg, crypto, states, steps, i, j - 1);
      assert Next(cfg, crypto, states[j - 1], steps[j - 1], states[j]);
    }
  }

  lemma StepKeepsOtherRequests(cfg: Config, crypto: Crypto, s: Sys, step: Step, s': Sys, id: RequestId)
    requires Next(cfg, crypto, s, step, s') && id in s'.requests
    requires !(step.Advance? && step.id == id) && !(step.Arrive? && step.id == id)
    ensures id in s.requests && s'.requests[id] == s.requests[id]
  {
  }

  lemma {:induction false} AskingWasValidated(cfg: Config, crypto: Crypto, states: seq<Sys>, steps: seq<Step>,
                                              j: nat, id: RequestId)
    returns (i: nat)
    requires Run(cfg, crypto, states, steps) && j < |states| && id in states[j].requests
             && states[j].requests[id].Asking?
    ensures i < j && steps[i].Advance? && steps[i].id == id
    ensures Validates(crypto, states, steps, i, states[j].requests[id].token, states[j].requests[id].claims)
    ensures states[i].clock == states[j].requests[id].validatedAt
  {
    i := j - 1;
    assert Next(cfg, crypto, states[i], steps[i], states[j]);
    if !(steps[i].Advance? && steps[i].id == id) {
      StepKeepsOtherRequests(cfg, crypto, states[i], steps[i], states[j], id);
      i := AskingWasValidated(cfg, crypto, states, steps, i, id);
    }
  }

  lemma {:induction false} StoringWasCleared(cfg: Config, crypto: Crypto, states: seq<Sys>, steps: seq<Step>, j: nat,
                                             id: RequestId)
    returns (m: nat)
    requires Run(cfg, crypto, states, steps) && j < |states| && id in states[j].requests
             && states[j].requests[id].Storing?
    ensures var pc := states[j].requests[id];
            && m < j && steps[m].Advance? && steps[m].id == id
            && Clears(crypto, states, steps, m, pc.token, pc.claims, pc.validatedAt)
            && states[m].clock == pc.askedAt
  {
    m := j - 1;
    assert Next(cfg, crypto, states[m], steps[m], states[j]);
    if !(steps[m].Advance? && steps[m].id == id) {
      StepKeepsOtherRequests(cfg, crypto, states[m], steps[m], states[j], id);
      m := StoringWasCleared(cfg, crypto, states, steps, m, id);
    }
  }

  /** What puts an entry into the cache. */
  predicate Stores(cfg: Config, crypto: Crypto, s: Sys, step: Step, key: Key, entry: Entry<Claims>) {
    && step.Advance? && step.id in s.requests && s.requests[step.id].Storing?
    && crypto.hash(s.requests[step.id].token) == key
    && entry == Entry(s.requests[step.id].claims, s.clock + cfg.ttl)
  }

  lemma OnlyStoringStores(cfg: Config, crypto: Crypto, s: Sys, step: Step, s': Sys, key: Key)
    requires Next(cfg, crypto, s, step, s') && key in s'.cache && !(key in s.cache && s.cache[key] == s'.cache[key])
    ensures Stores(cfg, crypto, s, step, key, s'.cache[key])
  {
    assert !step.Evict? && !step.Sweep?;
  }

  lemma {:induction false} CachedWasStored(cfg: Config, crypto: Crypto, states: seq<Sys>, steps: seq<Step>, j: nat,
                                           key: Key)
    returns (n: nat)
    requires Run(cfg, crypto, states, steps) && j < |states| && key in states[j].cache
    ensures n < j && Stores(cfg, crypto, states[n], steps[n], key, states[j].cache[key])
  {
    n := j - 1;
    assert Next(cfg, crypto, states[n], steps[n], states[j]);
    if key in states[n].cache && states[n].cache[key] == states[j].cache[key] {
      n := CachedWasStored(cfg, crypto, states, steps, n, key);
    } else {
      OnlyStoringStores(cfg, crypto, states[n], steps[n], states[j], key);
    }
  }

  /** The validation and the blacklist look-up behind claims that are about to be stored. */
  lemma StoringWasChecked(cfg: Config, crypto: Crypto, states: seq<Sys>, steps: seq<Step>, n: nat, id: RequestId)
    returns (i: nat, m: nat)
    requires Run(cfg, crypto, states, steps) && n < |states| && id in states[n].requests
             && states[n].requests[id].Storing?
    ensures var pc := states[n].requests[id];
            && i < m < n && Validates(crypto, states, steps, i, pc.token, pc.claims)
            && Clears(crypto, states, steps, m, pc.token, pc.claims, pc.validatedAt)
            && states[i].clock == pc.validatedAt <= states[m].clock <= states[n].clock
  {
    m := StoringWasCleared(cfg, crypto, states, steps, n, id);
    i := AskingWasValidated(cfg, crypto, states, steps, m, id);
    ClockRuns(cfg, crypto, states, steps, i, m);
    ClockRuns(cfg, crypto, states, steps, m, n);
  }

  /** Bounded staleness: whoever is let through has claims that some request validated for the same
      token, and then cleared with Redis, at most `ttl + d` earlier. */
  lemma AcceptedWasChecked(cfg: Config, crypto: Crypto, d: nat, states: seq<Sys>, steps: seq<Step>, j: nat)
    returns (i: nat, m: nat)
    requires 0 <= cfg.ttl && CollisionFree(crypto) && Run(cfg, crypto, states, steps) && Prompt(d, states, steps)
    requires j < |steps| && Accepted(crypto, states[j], steps[j]).Some?
    ensures var token, claims := states[j].requests[steps[j].id].token, Accepted(crypto, states[j], steps[j]).value;
            && i < m < j && Validates(crypto, states, steps, i, token, claims)
            && Clears(crypto, states, steps, m, token, claims, states[i].clock)
            && states[j].clock - cfg.ttl - d <= states[i].clock <= states[m].clock <= states[j].clock
  {
    var pc, n := states[j].requests[steps[j].id], j;
    if pc.Getting? {
      n := CachedWasStored(cfg, crypto, states, steps, j, crypto.hash(pc.token));
      ClockRuns(cfg, crypto, states, steps, n, j);
    }
    i, m := StoringWasChecked(cfg, crypto, states, steps, n, steps[n].id);
  }

  /** No request is let through `ttl + d` or more after expiry and leeway have passed. */
  lemma NeverAcceptedLongAfterExpiry(cfg: Config, crypto: Crypto, d: nat, states: seq<Sys>, steps: seq<Step>, j: nat)
    requires 0 <= cfg.ttl && CollisionFree(crypto) && Run(cfg, crypto, states, steps) && Prompt(d, states, steps)
    requires j < |steps| && Accepted(crypto, states[j], steps[j]).Some?
    ensures crypto.decode(states[j].requests[steps[j].id].token) == Accepted(crypto, states[j], steps[j])
    ensures states[j].clock < Accepted(crypto, states[j], steps[j]).value.expiresAt + 30_000 + cfg.ttl + d
  {
    var i, m := AcceptedWasChecked(cfg, crypto, d, states, steps, j);
  }

  lemma {:induction false} RevocationLasts(cfg: Config, crypto: Crypto, states: seq<Sys>, steps: seq<Step>, l: nat,
                                           m: nat)
    requires CollisionFree(crypto) && Run(cfg, crypto, states, steps) && l < m < |states| && steps[l].Revoke?
    requires ValidateAccessToken(crypto, steps[l].token, states[l].clock).Some?
    requires states[l].clock < crypto.decode(steps[l].token).value.expiresAt
    ensures var key := crypto.hash(steps[l].token);
            key in states[m].blacklist && states[m].blacklist[key] == crypto.decode(steps[l].token).value.expiresAt
  {
    assert Next(cfg, crypto, states[m - 1], steps[m - 1], states[m]);
    if l + 1 < m {
      RevocationLasts(cfg, crypto, states, steps, l, m - 1);
    }
  }

  /** A token revoked at `L` is not let through at any time after `L + ttl + d` and before its
      expiry, whatever was cached, and whichever requests were on their way, when that happened. */
  lemma RevokedIsRefused(cfg: Config, crypto: Crypto, d: nat, states: seq<Sys>, steps: seq<Step>, l: nat, j: nat)
    requires 0 <= cfg.ttl && CollisionFree(crypto) && Run(cfg, crypto, states, steps) && Prompt(d, states, steps)
    requires forall n :: 0 <= n < |steps| && steps[n].Advance? ==> steps[n].redisUp
    requires l < |steps| && steps[l].Revoke? && ValidateAccessToken(crypto, steps[l].token, states[l].clock).Some?
    requires j < |steps| && steps[j].Advance? && steps[j].id in states[j].requests
    requires states[j].requests[steps[j].id].token == steps[l].token
    requires states[l].clock + cfg.ttl + d < states[j].clock < crypto.decode(steps[l].token).value.expiresAt
    ensures Accepted(crypto, states[j], steps[j]) == None
  {
    if Accepted(crypto, states[j], steps[j]).Some? {
      var i, m := AcceptedWasChecked(cfg, crypto, d, states, steps, j);
      if m <= l {
        ClockRuns(cfg, crypto, states, steps, m, l);
      } else {
        RevocationLasts(cfg, crypto, states, steps, l, m);
      }
    }
  }

  // ---------------------------------------------------------------------------------------
  // The bound is exact
  // ---------------------------------------------------------------------------------------

  /** A request is cleared, its token is revoked, and `d` later it has not stored its claims yet. */
  lemma ClearedThenRevoked(cfg: Config, crypto: Crypto, d: nat, token: TokenStr, claims: Claims)
    returns (states: seq<Sys>, steps: seq<Step>)
    requires crypto.decode(token) == Some(claims) && claims.notBefore - 30_000 <= 0 < claims.expiresAt
    ensures Run(cfg, crypto, states, steps) && |steps| == 6 && steps[4] == Revoke(token) && states[4].clock == 0
    ensures forall n :: 0 <= n < |steps| && steps[n].Advance? ==> steps[n] == Advance(0, true, [])
    ensures forall n :: 0 <= n < |steps| && steps[n].Advance? && 0 in states[n].requests
                        ==> !states[n].requests[0].Storing?
    ensures states[6].cache == map[] && states[6].requests == map[0 := Storing(token, claims, 0, 0)]
            && states[6].clock == d
  {
    var s0 := Sys(map[], map[], map[], 0);
    var s1 := Goto(s0, 0, Getting(token));
    var s2 := Goto(s1, 0, Validating(token));
    var s3 := Goto(s2, 0, Asking(token, claims, 0));
    var s4 := Goto(s3, 0, Storing(token, claims, 0, 0));
    var s5 := s4.(blacklist := AfterLogout(crypto, map[], token, 0));
    var s6 := s5.(clock := d);
    var ask := Advance(0, true, []);
    HeaderOf(token);
    states := [s0, s1, s2, s3, s4, s5, s6];
    steps := [Arrive(0, "Bearer " + token), ask, ask, ask, Revoke(token), Tick(d)];
    assert Next(cfg, crypto, s0, Arrive(0, "Bearer " + token), s1);
    assert Next(cfg, crypto, s1, ask, s2);
    assert Next(cfg, crypto, s2, ask, s3);
    assert Next(cfg, crypto, s3, ask, s4);
  }

  lemma StoresIntoEmpty(cfg: Config, crypto: Crypto, s: Sys, token: TokenStr, claims: Claims)
    requires s.cache == map[] && 0 in s.requests && s.requests[0] == Storing(token, claims, 0, 0)
    ensures var cache := map[crypto.hash(token) := Entry(claims, s.clock + cfg.ttl)];
            Next(cfg, crypto, s, Advance(0, true, []), Finish(s.(cache := cache), 0))
  {
    var order: seq<Key> := [];
    assert Enumerates(order, s.cache);
    assert AfterSet(s.cache, cfg.maxSize, order, crypto.hash(token), claims, s.clock + cfg.ttl)
        == map[crypto.hash(token) := Entry(claims, s.clock + cfg.ttl)];
  }

  /** It stores the claims, and `ttl` later another request gets them. */
  lemma StoredThenFound(cfg: Config, crypto: Crypto, token: TokenStr, claims: Claims, s: Sys)
    returns (states: seq<Sys>, steps: seq<Step>)
    requires 0 <= cfg.ttl && s.cache == map[] && s.requests == map[0 := Storing(token, claims, 0, 0)]
    ensures |steps| == 4 && |states| == 5 && states[0] == s
    ensures forall n :: 0 <= n < |steps| ==> Next(cfg, crypto, states[n], steps[n], states[n + 1])
    ensures forall n :: 0 <= n < |steps| && steps[n].Advance? ==> steps[n] == Advance(0, true, [])
    ensures forall n :: 0 < n < |steps| && 0 in states[n].requests ==> states[n].requests[0].Getting?
    ensures steps[3].Advance? && states[3].requests == map[0 := Getting(token)]
            && states[3].clock == s.clock + cfg.ttl
    ensures Accepted(crypto, states[3], steps[3]) == Some(claims)
  {
    var s1 := Finish(s.(cache := map[crypto.hash(token) := Entry(claims, s.clock + cfg.ttl)]), 0);
    var s2 := s1.(clock := s.clock + cfg.ttl);
    var s3 := Goto(s2, 0, Getting(token));
    var s4 := Finish(s3, 0);
    var get := Advance(0, true, []);
    HeaderOf(token);
    states, steps := [s, s1, s2, s3, s4], [get, Tick(s.clock + cfg.ttl), Arrive(0, "Bearer " + token), get];
    StoresIntoEmpty(cfg, crypto, s, token, claims);
    assert Next(cfg, crypto, s2, Arrive(0, "Bearer " + token), s3);
    assert Next(cfg, crypto, s3, get, s4);
  }

  lemma RunGoesOn(cfg: Config, crypto: Crypto, states: seq<Sys>, steps: seq<Step>, after: seq<Sys>, more: seq<Step>)
    requires Run(cfg, crypto, states, steps) && |after| == |more| + 1 && after[0] == states[|steps|]
    requires forall n :: 0 <= n < |more| ==> Next(cfg, crypto, after[n], more[n], after[n + 1])
    ensures Run(cfg, crypto, states + after[1..], steps + more)
  {
    var longer, all, k := states + after[1..], steps + more, |steps|;
    forall n | 0 <= n < |all|
      ensures Next(cfg, crypto, longer[n], all[n], longer[n + 1])
    {
      if n < k {
        assert Next(cfg, crypto, states[n], steps[n], states[n + 1]);
      } else {
        assert Next(cfg, crypto, after[n - k], more[n - k], after[n - k + 1]);
      }
    }
  }

  /** The bounds cannot be improved: some run lets a token through `ttl + d` after it was revoked. */
  lemma StalenessAttained(cfg: Config, crypto: Crypto, d: nat, token: TokenStr, claims: Claims)
    returns (states: seq<Sys>, steps: seq<Step>, l: nat, j: nat)
    requires 0 <= cfg.ttl && crypto.decode(token) == Some(claims) && claims.notBefore - 30_000 <= 0 < claims.expiresAt
    ensures Run(cfg, crypto, states, steps) && Prompt(d, states, steps)
    ensures forall n :: 0 <= n < |steps| && steps[n].Advance? ==> steps[n].redisUp
    ensures l < j < |steps| && steps[l] == Revoke(token)
    ensures steps[j].Advance? && steps[j].id in states[j].requests && states[j].requests[steps[j].id].token == token
    ensures Accepted(crypto, states[j], steps[j]) == Some(claims) && states[j].clock == states[l].clock + cfg.ttl + d
  {
    var before, first := ClearedThenRevoked(cfg, crypto, d, token, claims);
    var after, second := StoredThenFound(cfg, crypto, token, claims, before[6]);
    states, steps, l, j := before + after[1..], first + second, 4, 9;
    RunGoesOn(cfg, crypto, before, first, after, second);
    assert forall n :: 6 <= n < |steps| ==> states[n] == after[n - 6] && steps[n] == second[n - 6];
  }

  // ---------------------------------------------------------------------------------------
  // One request by itself
  // ---------------------------------------------------------------------------------------

  ghost predicate Proceeds(cfg: Config, crypto: Crypto, s: Sys, step: Step, s': Sys, id: RequestId, redisUp: bool) {
    step.Advance? && step.id == id && step.redisUp == redisUp && Next(cfg, crypto, s, step, s')
  }

  /** A stretch in which only this request moves, until it has its reply. */
  ghost predicate Alone(cfg: Config, crypto: Crypto, states: seq<Sys>, steps: seq<Step>, id: RequestId,
                        redisUp: bool)
  {
    && |states| == |steps| + 1
    && (forall i :: 0 <= i < |steps| ==> Proceeds(cfg, crypto, states[i], steps[i], states[i + 1], id, redisUp))
    && id in states[0].requests && id !in states[|steps|].requests
  }

  /** The claims with which the stretch ends. */
  function Reply(crypto: Crypto, states: seq<Sys>, steps: seq<Step>): Option<Claims>
    requires |states| == |steps| + 1 && 0 < |steps|
  {
    Accepted(crypto, states[|steps| - 1], steps[|steps| - 1])
  }

  lemma AloneGoesOn(cfg: Config, crypto: Crypto, states: seq<Sys>, steps: seq<Step>, id: RequestId, redisUp: bool)
    requires Alone(cfg, crypto, states, steps, id, redisUp)
    ensures 0 < |steps| && steps[0].Advance? && steps[0].id == id && steps[0].redisUp == redisUp
    ensures Advances(cfg, crypto, states[0], steps[0], states[1])
    ensures if id in states[1].requests then Alone(cfg, crypto, states[1..], steps[1..], id, redisUp) else |steps| == 1
    ensures 1 < |steps| ==> Reply(crypto, states, steps) == Reply(crypto, states[1..], steps[1..])
  {
    assert Proceeds(cfg, crypto, states[0], steps[0], states[1], id, redisUp);
    if 1 < |steps| {
      assert Proceeds(cfg, crypto, states[1], steps[1], states[2], id, redisUp);
    }
  }

  lemma AloneStores(cfg: Config, crypto: Crypto, states: seq<Sys>, steps: seq<Step>, id: RequestId, redisUp: bool)
    returns (order: seq<Key>)
    requires Alone(cfg, crypto, states, steps, id, redisUp) && states[0].requests[id].Storing?
    ensures |steps| == 1 && Reply(crypto, states, steps) == Some(states[0].requests[id].claims)
    ensures var s, pc := states[0], states[0].requests[id];
            && Enumerates(order, s.cache)
            && states[|steps|].cache == AfterSet(s.cache, cfg.maxSize, order, crypto.hash(pc.token), pc.claims,
                                                 s.clock + cfg.ttl)
  {
    AloneGoesOn(cfg, crypto, states, steps, id, redisUp);
    order := steps[0].order;
  }

  lemma AloneLooksUp(cfg: Config, crypto: Crypto, states: seq<Sys>, steps: seq<Step>, id: RequestId, token: TokenStr,
                     redisUp: bool)
    requires Alone(cfg, crypto, states, steps, id, redisUp) && states[0].requests[id] == Getting(token)
    ensures 0 < |steps|
    ensures var s, key := states[0], crypto.hash(token);
            if Lookup(s.cache, key, s.clock).Some?
            then |steps| == 1 && Reply(crypto, states, steps) == Lookup(s.cache, key, s.clock)
                && states[1].cache == s.cache
            else && Alone(cfg, crypto, states[1..], steps[1..], id, redisUp)
                 && states[1] == Goto(s.(cache := AfterGet(s.cache, key, s.clock)), id, Validating(token))
                 && 1 < |steps| && Reply(crypto, states, steps) == Reply(crypto, states[1..], steps[1..])
  {
    AloneGoesOn(cfg, crypto, states, steps, id, redisUp);
  }

  lemma AloneChecks(cfg: Config, crypto: Crypto, states: seq<Sys>, steps: seq<Step>, id: RequestId, token: TokenStr,
                    redisUp: bool)
    returns (order: seq<Key>)
    requires Alone(cfg, crypto, states, steps, id, redisUp) && states[0].requests[id] == Validating(token)
    ensures 0 < |steps|
            && Reply(crypto, states, steps) == FullCheck(crypto, states[0].blacklist, token, states[0].clock, redisUp)
    ensures var reply, s := Reply(crypto, states, steps), states[0];
            Cached(cfg, crypto, s.cache, s.clock, token, reply, order, states[|steps|].cache)
  {
    order := [];
    AloneGoesOn(cfg, crypto, states, steps, id, redisUp);
    if 1 < |steps| {
      AloneGoesOn(cfg, crypto, states[1..], steps[1..], id, redisUp);
      if 2 < |steps| {
        order := AloneStores(cfg, crypto, states[2..], steps[2..], id, redisUp);
      }
    }
  }

  /** The cache after a full check with this reply. */
  ghost predicate Cached(cfg: Config, crypto: Crypto, cache: Entries<Claims>, now: Time, token: TokenStr,
                         reply: Option<Claims>,
                         order: seq<Key>, cache': Entries<Claims>)
  {
    if reply.None? then cache' == cache
    else && Enumerates(order, cache)
         && cache' == AfterSet(cache, cfg.maxSize, order, crypto.hash(token), reply.value, now + cfg.ttl)
  }

  lemma HandlesMiss(cfg: Config, crypto: Crypto, s: Sys, header: string, redisUp: bool, order: seq<Key>,
                    cache': Entries<Claims>,
                    reply: Option<Claims>)
    requires BearerToken(header).Some? && Lookup(s.cache, crypto.hash(BearerToken(header).value), s.clock).None?
    requires reply == FullCheck(crypto, s.blacklist, BearerToken(header).value, s.clock, redisUp)
    requires var missed := AfterGet(s.cache, crypto.hash(BearerToken(header).value), s.clock);
             Cached(cfg, crypto, missed, s.clock, BearerToken(header).value, reply, order, cache')
    ensures Handles(cfg, crypto, s.cache, s.blacklist, header, s.clock, redisUp, cache', reply)
  {
  }

  /** The steps of a request that arrives and that nobody interrupts do what the whole request
      does. */
  lemma AloneHandles(cfg: Config, crypto: Crypto, s: Sys, states: seq<Sys>, steps: seq<Step>, id: RequestId,
                     header: string, redisUp: bool)
    requires states != [] && Next(cfg, crypto, s, Arrive(id, header), states[0])
    requires Alone(cfg, crypto, states, steps, id, redisUp)
    ensures 0 < |steps|
    ensures Handles(cfg, crypto, s.cache, s.blacklist, header, s.clock, redisUp, states[|steps|].cache,
                    Reply(crypto, states, steps))
  {
    var token := BearerToken(header).value;
    AloneLooksUp(cfg, crypto, states, steps, id, token, redisUp);
    if Lookup(s.cache, crypto.hash(token), s.clock).None? {
      var order := AloneChecks(cfg, crypto, states[1..], steps[1..], id, token, redisUp);
      HandlesMiss(cfg, crypto, s, header, redisUp, order, states[|steps|].cache, Reply(crypto, states, steps));
    }
  }
}
