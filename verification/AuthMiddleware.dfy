/**
 The bearer-token check: a cache of validated claims in front of signature, expiry and blacklist.
 Time is counted in milliseconds. A request is handled at one instant.
 */
module AuthMiddleware {
  import opened Collections
  import opened TokenCache

  type TokenStr = string

  const LEEWAY: Time := 30_000
  const PREFIX: string := "Bearer "

  datatype Claims = Claims(userId: nat, email: string, expiresAt: Time, notBefore: Time)

  /** What the model does not look into: SHA-256, and parsing with signature verification. */
  datatype Crypto = Crypto(hash: TokenStr -> Key, decode: TokenStr -> Option<Claims>)

  ghost predicate CollisionFree(crypto: Crypto) {
    forall a, b :: crypto.hash(a) == crypto.hash(b) ==> a == b
  }

  /** RFC 7519 stores instants in whole seconds. */
  function NumericDate(t: Time): Time {
    t - t % 1000
  }

  function AccessClaims(userId: nat, email: string, ttl: int, now: Time): Claims {
    Claims(userId, email, NumericDate(now + ttl), NumericDate(now - LEEWAY))
  }

  function ValidateAccessToken(crypto: Crypto, token: TokenStr, now: Time): Option<Claims> {
    match crypto.decode(token)
    case None => None
    case Some(claims) =>
      if now < claims.expiresAt + LEEWAY && now >= claims.notBefore - LEEWAY then Some(claims) else None
  }

  type Blacklist = map<Key, Time>

  /** EXISTS on a Redis key with an expiry. */
  predicate Revoked(blacklist: Blacklist, key: Key, now: Time) {
    key in blacklist && now < blacklist[key]
  }

  /** The check the cache stands in for. An unreachable Redis does not refuse anybody. */
  function FullCheck(crypto: Crypto, blacklist: Blacklist, token: TokenStr, now: Time,
                     redisUp: bool): Option<Claims>
  {
    match ValidateAccessToken(crypto, token, now)
    case None => None
    case Some(claims) =>
      if redisUp && Revoked(blacklist, crypto.hash(token), now) then None else Some(claims)
  }

  /** The blacklist after a logout, which revokes a valid token for the rest of its lifetime. */
  function AfterLogout(crypto: Crypto, blacklist: Blacklist, token: TokenStr, now: Time): Blacklist {
    match ValidateAccessToken(crypto, token, now)
    case None => blacklist
    case Some(claims) =>
      var remaining := claims.expiresAt - now;
      if remaining > 0 then blacklist[crypto.hash(token) := now + remaining] else blacklist
  }

  function BearerToken(header: string): Option<TokenStr> {
    if header == "" || !(PREFIX <= header) then None else Some(header[|PREFIX|..])
  }

  /** One request: the reply and the cache it leaves behind. */
  ghost predicate Handles(cfg: Config, crypto: Crypto, cache: Entries<Claims>, blacklist: Blacklist, header: string,
                          now: Time, redisUp: bool, cache': Entries<Claims>, reply: Option<Claims>)
  {
    match BearerToken(header)
    case None => reply == None && cache' == cache
    case Some(token) =>
      var key := crypto.hash(token);
      var hit := Lookup(cache, key, now);
      if hit.Some? then
        reply == hit && cache' == cache
      else
        var missed := AfterGet(cache, key, now);
        && reply == FullCheck(crypto, blacklist, token, now, redisUp)
        && if reply.None? then cache' == missed
           else exists order :: Enumerates(order, missed)
                                && cache' == AfterSet(missed, cfg.maxSize, order, key, reply.value, now + cfg.ttl)
  }

  class Middleware {
    const crypto: Crypto
    const tokenCache: Cache<Claims>
    var blacklist: Blacklist

    constructor (crypto: Crypto, ttl: int, maxSize: int)
      ensures this.crypto == crypto && tokenCache.ttl == ttl && tokenCache.maxSize == maxSize
      ensures fresh(tokenCache) && tokenCache.entries == map[] && blacklist == map[]
    {
      this.crypto := crypto;
      tokenCache := new Cache<Claims>(ttl, maxSize);
      blacklist := map[];
    }

    method AuthRequired(header: string, now: Time, redisUp: bool) returns (reply: Option<Claims>)
      modifies tokenCache
      ensures Handles(Config(tokenCache.ttl, tokenCache.maxSize), crypto, old(tokenCache.entries), blacklist, header,
                      now, redisUp,
                      tokenCache.entries, reply)
      ensures !("Bearer " <= header) ==> reply == None && tokenCache.entries == old(tokenCache.entries)
    {
      if header == "" || !(PREFIX <= header) {
        return None;
      }
      var tokenStr := header[|PREFIX|..];
      var tokenHash := crypto.hash(tokenStr);
      var cached := tokenCache.Get(tokenHash, now);
      if cached.Some? {
        return cached;
      }
      var claims := ValidateAccessToken(crypto, tokenStr, now);
      if claims.None? {
        return None;
      }
      if redisUp && Revoked(blacklist, tokenHash, now) {
        return None;
      }
      ghost var order := tokenCache.Set(tokenHash, claims.value, now);
      return claims;
    }

    /** The access-token half of a logout. */
    method Revoke(accessToken: TokenStr, now: Time)
      modifies this`blacklist
      ensures blacklist == AfterLogout(crypto, old(blacklist), accessToken, now)
    {
      var claims := ValidateAccessToken(crypto, accessToken, now);
      if claims.Some? {
        var remaining := claims.value.expiresAt - now;
        if remaining > 0 {
          blacklist := blacklist[crypto.hash(accessToken) := now + remaining];
        }
      }
    }
  }

  // ---------------------------------------------------------------------------------------
  // One request
  // ---------------------------------------------------------------------------------------

  /** Without the scheme nobody gets in, whatever else the header says. */
  lemma NoSchemeRefused(cfg: Config, crypto: Crypto, cache: Entries<Claims>, blacklist: Blacklist, header: string,
                        now: Time, redisUp: bool, cache': Entries<Claims>, reply: Option<Claims>)
    requires Handles(cfg, crypto, cache, blacklist, header, now, redisUp, cache', reply)
    requires !("Bearer " <= header)
    ensures reply == None && cache' == cache
  {
  }

  /** The token is cached and the entry has not expired. */
  predicate Fresh(cache: Entries<Claims>, key: Key, now: Time) {
    key in cache && now <= cache[key].expiresAt
  }

  /** The token is signed, in its lifetime give or take 30 s, and Redis does not say it is revoked. */
  predicate InOrder(crypto: Crypto, blacklist: Blacklist, token: TokenStr, now: Time, redisUp: bool) {
    && crypto.decode(token).Some?
    && crypto.decode(token).value.notBefore - 30_000 <= now < crypto.decode(token).value.expiresAt + 30_000
    && !(redisUp && crypto.hash(token) in blacklist && now < blacklist[crypto.hash(token)])
  }

  /** With the scheme, what follows it is the token: a fresh entry answers for it, and else it is let
      through exactly if it is in order, with its own claims, which are then cached for `ttl`. */
  lemma BearerDecided(cfg: Config, crypto: Crypto, cache: Entries<Claims>, blacklist: Blacklist, token: TokenStr,
                      now: Time, redisUp: bool, cache': Entries<Claims>, reply: Option<Claims>)
    requires Handles(cfg, crypto, cache, blacklist, "Bearer " + token, now, redisUp, cache', reply)
    ensures Fresh(cache, crypto.hash(token), now) ==> reply == Some(cache[crypto.hash(token)].data) && cache' == cache
    ensures !Fresh(cache, crypto.hash(token), now)
            ==> reply == if InOrder(crypto, blacklist, token, now, redisUp) then crypto.decode(token) else None
    ensures !Fresh(cache, crypto.hash(token), now) && reply == None ==> cache' == cache - {crypto.hash(token)}
    ensures !Fresh(cache, crypto.hash(token), now) && reply != None
            ==> crypto.hash(token) in cache' && cache'[crypto.hash(token)] == Entry(reply.value, now + cfg.ttl)
  {
    HeaderOf(token);
    FullCheckIsInOrder(crypto, blacklist, token, now, redisUp);
  }

  lemma FullCheckIsInOrder(crypto: Crypto, blacklist: Blacklist, token: TokenStr, now: Time, redisUp: bool)
    ensures FullCheck(crypto, blacklist, token, now, redisUp)
         == if InOrder(crypto, blacklist, token, now, redisUp) then crypto.decode(token) else None
  {
  }

  lemma HeaderOf(token: TokenStr)
    ensures BearerToken("Bearer " + token) == Some(token)
  {
  }

  // ---------------------------------------------------------------------------------------
  // Runs
  // ---------------------------------------------------------------------------------------

  datatype State = State(cache: Entries<Claims>, blacklist: Blacklist)

  datatype Op =
    | Request(header: string, redisUp: bool, reply: Option<Claims>)
    | Logout(token: TokenStr)
    | Forget(key: Key)  // Delete, or the late removal by a Get that raced with a Set
    | Cleanup

  datatype Event = Event(now: Time, op: Op)

  ghost predicate Step(cfg: Config, crypto: Crypto, s: State, e: Event, s': State) {
    match e.op
    case Request(header, redisUp, reply) =>
      Handles(cfg, crypto, s.cache, s.blacklist, header, e.now, redisUp, s'.cache, reply) && s'.blacklist == s.blacklist
    case Logout(token) => s' == s.(blacklist := AfterLogout(crypto, s.blacklist, token, e.now))
    case Forget(key) => s' == s.(cache := s.cache - {key})
    case Cleanup => s' == s.(cache := AfterCleanup(s.cache, e.now))
  }

  ghost predicate Run(cfg: Config, crypto: Crypto, states: seq<State>, events: seq<Event>) {
    && |states| == |events| + 1 && states[0] == State(map[], map[])
    && (forall i :: 0 <= i < |events| ==> Step(cfg, crypto, states[i], events[i], states[i + 1]))
    && (forall i, j :: 0 <= i <= j < |events| ==> events[i].now <= events[j].now)
  }

  /** Event `i` is a request for this token for which the full check succeeds with these claims. */
  predicate FullyChecked(crypto: Crypto, states: seq<State>, events: seq<Event>, i: nat, key: Key, claims: Claims)
    requires |states| == |events| + 1 && i < |events|
  {
    var e := events[i];
    && e.op.Request? && BearerToken(e.op.header).Some?
    && var token := BearerToken(e.op.header).value;
       && crypto.hash(token) == key
       && FullCheck(crypto, states[i].blacklist, token, e.now, e.op.redisUp) == Some(claims)
  }

  /** Only a request that passed the full check puts anything into the cache. */
  lemma OnlyFullChecksStore(cfg: Config, crypto: Crypto, s: State, e: Event, s': State, key: Key)
    requires Step(cfg, crypto, s, e, s') && key in s'.cache && !(key in s.cache && s.cache[key] == s'.cache[key])
    ensures e.op.Request? && BearerToken(e.op.header).Some?
    ensures crypto.hash(BearerToken(e.op.header).value) == key
    ensures FullCheck(crypto, s.blacklist, BearerToken(e.op.header).value, e.now, e.op.redisUp)
            == Some(s'.cache[key].data)
    ensures s'.cache[key].expiresAt == e.now + cfg.ttl
  {
    assert !e.op.Forget? && !e.op.Cleanup?;
  }

  /** Every cached entry goes back to a successful full check, `ttl` before the entry expires. */
  lemma {:induction false} CachedWasChecked(cfg: Config, crypto: Crypto, states: seq<State>, events: seq<Event>,
                                            j: nat, key: Key)
    returns (i: nat)
    requires Run(cfg, crypto, states, events) && j < |states| && key in states[j].cache
    ensures i < j && FullyChecked(crypto, states, events, i, key, states[j].cache[key].data)
    ensures states[j].cache[key].expiresAt == events[i].now + cfg.ttl
  {
    var s, e, s' := states[j - 1], events[j - 1], states[j];
    assert Step(cfg, crypto, s, e, s');
    if key in s.cache && s.cache[key] == s'.cache[key] {
      i := CachedWasChecked(cfg, crypto, states, events, j - 1, key);
    } else {
      OnlyFullChecksStore(cfg, crypto, s, e, s', key);
      i := j - 1;
    }
  }

  /** Bounded staleness: an accepted request carries the claims of a full check of the same token
      that succeeded at most `ttl` earlier. */
  lemma AcceptedWasCheckedRecently(cfg: Config, crypto: Crypto, states: seq<State>, events: seq<Event>,
                                   j: nat) returns (i: nat)
    requires 0 <= cfg.ttl && CollisionFree(crypto) && Run(cfg, crypto, states, events)
    requires j < |events| && events[j].op.Request? && events[j].op.reply.Some?
    ensures i <= j && events[i].op.Request? && events[j].now - cfg.ttl <= events[i].now <= events[j].now
    ensures BearerToken(events[j].op.header).Some?
            && BearerToken(events[i].op.header) == BearerToken(events[j].op.header)
    ensures FullCheck(crypto, states[i].blacklist, BearerToken(events[i].op.header).value, events[i].now,
                      events[i].op.redisUp)
         == events[j].op.reply
  {
    assert Step(cfg, crypto, states[j], events[j], states[j + 1]);
    var key := crypto.hash(BearerToken(events[j].op.header).value);
    if Lookup(states[j].cache, key, events[j].now).Some? {
      i := CachedWasChecked(cfg, crypto, states, events, j, key);
    } else {
      i := j;
    }
  }

  /** The cache refuses nobody: a request that passes the full check is accepted, with its claims. */
  lemma CheckedIsAccepted(cfg: Config, crypto: Crypto, states: seq<State>, events: seq<Event>, j: nat)
    requires 0 <= cfg.ttl && CollisionFree(crypto) && Run(cfg, crypto, states, events)
    requires j < |events| && events[j].op.Request? && BearerToken(events[j].op.header).Some?
    requires FullCheck(crypto, states[j].blacklist, BearerToken(events[j].op.header).value, events[j].now,
                       events[j].op.redisUp).Some?
    ensures events[j].op.reply
         == FullCheck(crypto, states[j].blacklist, BearerToken(events[j].op.header).value, events[j].now,
                      events[j].op.redisUp)
  {
    assert Step(cfg, crypto, states[j], events[j], states[j + 1]);
    if events[j].op.reply.Some? {
      var i := AcceptedWasCheckedRecently(cfg, crypto, states, events, j);
    }
  }

  /** No token is accepted `ttl` or more after its expiry and leeway have passed. */
  lemma NeverAcceptedLongAfterExpiry(cfg: Config, crypto: Crypto, states: seq<State>, events: seq<Event>, j: nat)
    requires 0 <= cfg.ttl && CollisionFree(crypto) && Run(cfg, crypto, states, events)
    requires j < |events| && events[j].op.Request? && events[j].op.reply.Some?
    ensures BearerToken(events[j].op.header).Some?
            && crypto.decode(BearerToken(events[j].op.header).value) == events[j].op.reply
    ensures events[j].now < events[j].op.reply.value.expiresAt + 30_000 + cfg.ttl
  {
    var i := AcceptedWasCheckedRecently(cfg, crypto, states, events, j);
  }

  lemma {:induction false} RevocationLasts(cfg: Config, crypto: Crypto, states: seq<State>, events: seq<Event>,
                                           l: nat, m: nat)
    requires CollisionFree(crypto) && Run(cfg, crypto, states, events) && l < m < |states|
    requires events[l].op.Logout?
    requires ValidateAccessToken(crypto, events[l].op.token, events[l].now).Some?
    requires events[l].now < crypto.decode(events[l].op.token).value.expiresAt
    ensures var key := crypto.hash(events[l].op.token);
            key in states[m].blacklist && states[m].blacklist[key] == crypto.decode(events[l].op.token).value.expiresAt
  {
    assert Step(cfg, crypto, states[m - 1], events[m - 1], states[m]);
    if l + 1 < m {
      RevocationLasts(cfg, crypto, states, events, l, m - 1);
    }
  }

  /** A valid token was logged out in this event, before its expiry. */
  predicate LoggedOut(crypto: Crypto, e: Event, token: TokenStr) {
    && e.op.Logout? && e.op.token == token && crypto.decode(token).Some?
    && crypto.decode(token).value.notBefore - 30_000 <= e.now < crypto.decode(token).value.expiresAt
  }

  /** The blacklist holds the tokens that have been logged out, each until its expiry, and nothing
      else. */
  lemma {:induction false} BlacklistedIffLoggedOut(cfg: Config, crypto: Crypto, states: seq<State>, events: seq<Event>,
                                                   j: nat, token: TokenStr, now: Time)
    requires CollisionFree(crypto) && Run(cfg, crypto, states, events) && j < |states| && crypto.decode(token).Some?
    ensures crypto.hash(token) in states[j].blacklist && now < states[j].blacklist[crypto.hash(token)]
       <==> && now < crypto.decode(token).value.expiresAt
            && exists l :: 0 <= l < j && LoggedOut(crypto, events[l], token)
  {
    if 0 < j {
      BlacklistedIffLoggedOut(cfg, crypto, states, events, j - 1, token, now);
      var e := events[j - 1];
      assert Step(cfg, crypto, states[j - 1], e, states[j]);
      assert LoggedOut(crypto, e, token) ==> crypto.hash(token) in states[j].blacklist;
    }
  }

  /** A token revoked by a logout at `L` is not accepted at any time after `L + ttl` and before its
      expiry, whatever was cached when the logout happened. */
  lemma RevokedIsRefused(cfg: Config, crypto: Crypto, states: seq<State>, events: seq<Event>, l: nat, j: nat)
    requires 0 <= cfg.ttl && CollisionFree(crypto) && Run(cfg, crypto, states, events)
    requires forall i :: 0 <= i < |events| && events[i].op.Request? ==> events[i].op.redisUp
    requires l < |events| && events[l].op.Logout?
    requires ValidateAccessToken(crypto, events[l].op.token, events[l].now).Some?
    requires j < |events| && events[j].op.Request? && BearerToken(events[j].op.header) == Some(events[l].op.token)
    requires events[l].now + cfg.ttl < events[j].now < crypto.decode(events[l].op.token).value.expiresAt
    ensures events[j].op.reply == None
  {
    if events[j].op.reply.Some? {
      var i := AcceptedWasCheckedRecently(cfg, crypto, states, events, j);
      RevocationLasts(cfg, crypto, states, events, l, i);
    }
  }

  lemma FullCheckOfRevoked(crypto: Crypto, blacklist: Blacklist, token: TokenStr, now: Time)
    requires crypto.decode(token).Some? && crypto.hash(token) in blacklist
    requires blacklist[crypto.hash(token)] == crypto.decode(token).value.expiresAt
    requires crypto.decode(token).value.notBefore - LEEWAY <= now
    ensures FullCheck(crypto, blacklist, token, now, true).Some?
       <==> crypto.decode(token).value.expiresAt <= now < crypto.decode(token).value.expiresAt + LEEWAY
  {
  }

  /** The blacklist lets go of a token when it expires, the validation 30 s later. So a token that
      was logged out before its expiry is accepted again, once the cache has forgotten it, exactly
      from its expiry to the end of the leeway. */
  lemma RevokedIsAcceptedIff(cfg: Config, crypto: Crypto, states: seq<State>, events: seq<Event>, l: nat, j: nat)
    requires 0 <= cfg.ttl && CollisionFree(crypto) && Run(cfg, crypto, states, events)
    requires forall i :: 0 <= i < |events| && events[i].op.Request? ==> events[i].op.redisUp
    requires l < |events| && events[l].op.Logout?
    requires ValidateAccessToken(crypto, events[l].op.token, events[l].now).Some?
    requires events[l].now < crypto.decode(events[l].op.token).value.expiresAt
    requires j < |events| && events[j].op.Request? && BearerToken(events[j].op.header) == Some(events[l].op.token)
    requires events[l].now + cfg.ttl < events[j].now < crypto.decode(events[l].op.token).value.expiresAt + 30_000
    ensures events[j].op.reply.Some? <==> crypto.decode(events[l].op.token).value.expiresAt <= events[j].now
  {
    if crypto.decode(events[l].op.token).value.expiresAt <= events[j].now {
      assert l < j;
      RevocationLasts(cfg, crypto, states, events, l, j);
      FullCheckOfRevoked(crypto, states[j].blacklist, events[l].op.token, events[j].now);
      CheckedIsAccepted(cfg, crypto, states, events, j);
    } else {
      RevokedIsRefused(cfg, crypto, states, events, l, j);
    }
  }

  lemma HandlesUncached(cfg: Config, crypto: Crypto, blacklist: Blacklist, token: TokenStr, now: Time, claims: Claims)
    requires FullCheck(crypto, blacklist, token, now, true) == Some(claims)
    ensures Handles(cfg, crypto, map[], blacklist, "Bearer " + token, now, true,
                    map[crypto.hash(token) := Entry(claims, now + cfg.ttl)], Some(claims))
  {
    HeaderOf(token);
    var cache: Entries<Claims>, order: seq<Key> := map[], [];
    assert Enumerates(order, cache) && AfterGet(cache, crypto.hash(token), now) == cache;
    assert AfterSet(cache, cfg.maxSize, order, crypto.hash(token), claims, now + cfg.ttl)
        == map[crypto.hash(token) := Entry(claims, now + cfg.ttl)];
  }

  /** Such a run: a logout and, at the moment the token expires, a request with it. */
  lemma RevokedAcceptedAtExpiry(cfg: Config, crypto: Crypto, token: TokenStr, claims: Claims, loggedOut: Time)
    returns (states: seq<State>, events: seq<Event>)
    requires crypto.decode(token) == Some(claims) && claims.notBefore - 30_000 <= loggedOut < claims.expiresAt
    ensures Run(cfg, crypto, states, events)
    ensures events == [Event(loggedOut, Logout(token)),
                       Event(claims.expiresAt, Request("Bearer " + token, true, Some(claims)))]
  {
    var revoked := State(map[], AfterLogout(crypto, map[], token, loggedOut));
    var stored := revoked.(cache := map[crypto.hash(token) := Entry(claims, claims.expiresAt + cfg.ttl)]);
    states := [State(map[], map[]), revoked, stored];
    events := [Event(loggedOut, Logout(token)),
               Event(claims.expiresAt, Request("Bearer " + token, true, Some(claims)))];
    FullCheckOfRevoked(crypto, revoked.blacklist, token, claims.expiresAt);
    HandlesUncached(cfg, crypto, revoked.blacklist, token, claims.expiresAt, claims);
    assert Step(cfg, crypto, revoked, events[1], stored);
  }

  /** A token is good from the moment it is generated until its lifetime, cut to whole seconds,
      and the leeway are over. */
  lemma FreshTokenValidIff(crypto: Crypto, token: TokenStr, userId: nat, email: string, ttl: int, issued: Time,
                           now: Time)
    requires crypto.decode(token) == Some(AccessClaims(userId, email, ttl, issued)) && issued <= now
    ensures ValidateAccessToken(crypto, token, now).Some? <==> now < issued + ttl - (issued + ttl) % 1000 + 30_000
    ensures ValidateAccessToken(crypto, token, now).Some?
            ==> && ValidateAccessToken(crypto, token, now).value.userId == userId
                && ValidateAccessToken(crypto, token, now).value.email == email
  {
  }
}
