/**
 The Redis rate limiter. A handler reads the counter of its client and, if the limit is not
 reached, increments and re-expires it. Reading and counting are separate Redis round trips, so
 handlers of one client interleave; clients use different keys and do not affect each other.
 */
module RateLimiter {
  import opened Collections
  import opened RenewedCounter

  datatype Config = Config(maxReqs: int, window: int)

  datatype Reply = Admitted | TooManyRequests | RedisError

  /** A client at its limit is refused whatever the transaction would have answered. */
  function Decision(cfg: Config, count: nat, getOk: bool, execOk: bool): Reply {
    if getOk && count >= cfg.maxReqs then TooManyRequests
    else if getOk && execOk then Admitted
    else RedisError
  }

  type Counters = map<string, Cell>

  /** A request for the client with this key, and how Redis answers it. */
  datatype Hit = Hit(key: string, now: Time, getOk: bool, execOk: bool)

  function AfterHit(cfg: Config, counters: Counters, hit: Hit): (Counters, Reply) {
    var cell := CellOf(counters, hit.key);
    var reply := Decision(cfg, Value(cell, hit.now), hit.getOk, hit.execOk);
    (if reply == Admitted then counters[hit.key := Increment(cell, hit.now, cfg.window)] else counters, reply)
  }

  function CellOf(counters: Counters, key: string): Cell {
    if key in counters then counters[key] else Absent
  }

  class Limiter {
    const cfg: Config
    var counters: Counters

    constructor (cfg: Config)
      ensures this.cfg == cfg && counters == map[]
    {
      this.cfg := cfg;
      counters := map[];
    }

    /** One request handled at one instant. Redis answers the GET, and the transaction of INCR and
        EXPIRE, or it does not. */
    method Handle(key: string, now: Time, getOk: bool, execOk: bool) returns (reply: Reply)
      modifies this
      ensures (counters, reply) == AfterHit(cfg, old(counters), Hit(key, now, getOk, execOk))
    {
      if !getOk {
        return RedisError;
      }
      var cell := if key in counters then counters[key] else Absent;
      var val := Value(cell, now);
      if val >= cfg.maxReqs {
        return TooManyRequests;
      }
      if !execOk {
        return RedisError;
      }
      counters := counters[key := Increment(cell, now, cfg.window)];
      return Admitted;
    }
  }

  // ---------------------------------------------------------------------------------------
  // Whole requests of many clients
  // ---------------------------------------------------------------------------------------

  /** The counters and the replies after these requests, from no counters at all. */
  function AfterHits(cfg: Config, hits: seq<Hit>): (Counters, seq<Reply>) {
    if hits == [] then (map[], [])
    else
      var n := |hits| - 1;
      var (counters, replies) := AfterHits(cfg, hits[..n]);
      var (counters', reply) := AfterHit(cfg, counters, hits[n]);
      (counters', replies + [reply])
  }

  /** When the client's requests were admitted. */
  function Admissions(hits: seq<Hit>, replies: seq<Reply>, key: string): seq<Time>
    requires |hits| == |replies|
  {
    if hits == [] then []
    else
      var n := |hits| - 1;
      Admissions(hits[..n], replies[..n], key)
      + if hits[n].key == key && replies[n] == Admitted then [hits[n].now] else []
  }

  predicate InOrder(hits: seq<Hit>) {
    forall i, j :: 0 <= i <= j < |hits| ==> hits[i].now <= hits[j].now
  }

  lemma {:induction false} OneReplyEach(cfg: Config, hits: seq<Hit>, n: nat)
    requires n <= |hits|
    ensures |AfterHits(cfg, hits).1| == |hits| && AfterHits(cfg, hits).1[..n] == AfterHits(cfg, hits[..n]).1
  {
    if hits != [] {
      var last := |hits| - 1;
      OneReplyEach(cfg, hits[..last], last);
      if n < |hits| {
        OneReplyEach(cfg, hits[..last], n);
        assert hits[..last][..n] == hits[..n];
      } else {
        assert hits[..n] == hits;
      }
    }
  }

  /** The cell that admissions at these times, all up to `now`, leave. */
  predicate CellOfOwn(cfg: Config, own: seq<Time>, cell: Cell, now: Time) {
    Ordered(own) && (own != [] ==> own[|own| - 1] <= now) && cell == CellAfter(own, cfg.window)
  }

  lemma AdmissionKeepsOwn(cfg: Config, own: seq<Time>, cell: Cell, earlier: Time, now: Time)
    requires CellOfOwn(cfg, own, cell, earlier) && earlier <= now
    ensures CellOfOwn(cfg, own + [now], Increment(cell, now, cfg.window), now)
  {
    assert (own + [now])[..|own|] == own;
  }

  lemma HitKeepsOwn(cfg: Config, counters: Counters, hit: Hit, key: string, own: seq<Time>, earlier: Time)
    requires CellOfOwn(cfg, own, CellOf(counters, key), earlier) && earlier <= hit.now
    ensures var (counters', reply) := AfterHit(cfg, counters, hit);
            var own' := own + if hit.key == key && reply == Admitted then [hit.now] else [];
            CellOfOwn(cfg, own', CellOf(counters', key), hit.now)
  {
    assert own + [] == own;
    AdmissionKeepsOwn(cfg, own, CellOf(counters, key), earlier, hit.now);
  }

  lemma AdmissionsOfOneMore(hits: seq<Hit>, replies: seq<Reply>, hit: Hit, reply: Reply, key: string)
    requires |hits| == |replies|
    ensures Admissions(hits + [hit], replies + [reply], key)
         == Admissions(hits, replies, key) + if hit.key == key && reply == Admitted then [hit.now] else []
  {
    assert (hits + [hit])[..|hits|] == hits && (replies + [reply])[..|hits|] == replies;
  }

  function LastTime(hits: seq<Hit>, now: Time): Time {
    if hits == [] then now else hits[|hits| - 1].now
  }

  /** What the limiter keeps for a client is what the client's own admissions leave. */
  lemma {:induction false} CountersCountOwn(cfg: Config, hits: seq<Hit>, key: string, now: Time)
    requires InOrder(hits)
    ensures |AfterHits(cfg, hits).1| == |hits|
    ensures var own := Admissions(hits, AfterHits(cfg, hits).1, key);
            CellOfOwn(cfg, own, CellOf(AfterHits(cfg, hits).0, key), LastTime(hits, now))
  {
    if hits != [] {
      var n := |hits| - 1;
      var before, hit := hits[..n], hits[n];
      CountersCountOwn(cfg, before, key, hit.now);
      var (counters, replies) := AfterHits(cfg, before);
      var own, reply := Admissions(before, replies, key), AfterHit(cfg, counters, hit).1;
      HitKeepsOwn(cfg, counters, hit, key, own, LastTime(before, hit.now));
      AdmissionsOfOneMore(before, replies, hit, reply, key);
      assert before + [hit] == hits;
    }
  }

  /** A request's reply is decided by the client's own history: it is refused as one too many exactly
      when the current chain of the client's own admissions has reached the limit. */
  lemma RepliesByOwnHistory(cfg: Config, hits: seq<Hit>, n: nat)
    requires InOrder(hits) && n < |hits|
    ensures |AfterHits(cfg, hits).1| == |hits|
    ensures var replies, hit := AfterHits(cfg, hits).1, hits[n];
            var chain := Chain(Admissions(hits[..n], replies[..n], hit.key), cfg.window, hit.now);
            && (replies[n] == TooManyRequests <==> hit.getOk && chain >= cfg.maxReqs)
            && (replies[n] == Admitted <==> hit.getOk && hit.execOk && chain < cfg.maxReqs)
  {
    var before, hit := hits[..n], hits[n];
    OneReplyEach(cfg, hits, n);
    OneReplyEach(cfg, hits, n + 1);
    assert hits[..n + 1][..n] == before;
    OwnHistoryDecides(cfg, before, hit);
  }

  lemma OwnHistoryDecides(cfg: Config, hits: seq<Hit>, hit: Hit)
    requires InOrder(hits) && (hits != [] ==> hits[|hits| - 1].now <= hit.now)
    ensures |AfterHits(cfg, hits).1| == |hits|
    ensures var (counters, replies) := AfterHits(cfg, hits);
            var chain := Chain(Admissions(hits, replies, hit.key), cfg.window, hit.now);
            AfterHit(cfg, counters, hit).1 == Decision(cfg, chain, hit.getOk, hit.execOk)
  {
    CountersCountOwn(cfg, hits, hit.key, hit.now);
    ValueIsChain(Admissions(hits, AfterHits(cfg, hits).1, hit.key), cfg.window, hit.now);
  }

  lemma {:induction false} OwnAdmissionsBounded(cfg: Config, hits: seq<Hit>, key: string)
    requires InOrder(hits)
    ensures |AfterHits(cfg, hits).1| == |hits|
    ensures Ordered(Admissions(hits, AfterHits(cfg, hits).1, key))
    ensures Bounded(Admissions(hits, AfterHits(cfg, hits).1, key), cfg.window, cfg.maxReqs)
  {
    OneReplyEach(cfg, hits, |hits|);
    if hits != [] {
      var n := |hits| - 1;
      OwnAdmissionsBounded(cfg, hits[..n], key);
      CountersCountOwn(cfg, hits[..n], key, hits[n].now);
      var replies, replies' := AfterHits(cfg, hits[..n]).1, AfterHits(cfg, hits).1;
      assert replies'[..n] == replies;
      var own, own' := Admissions(hits[..n], replies, key), Admissions(hits, replies', key);
      if own' != own {
        assert own' == own + [hits[n].now];
        IncrementKeepsBounded(own, cfg.window, cfg.maxReqs, hits[n].now);
      }
    }
  }

  /** So no client gets more than `maxReqs` admissions in any interval shorter than the window,
      however the requests of all clients are mixed. */
  lemma OwnAdmissionsInWindow(cfg: Config, hits: seq<Hit>, key: string, i: nat, j: nat)
    requires InOrder(hits)
    ensures |AfterHits(cfg, hits).1| == |hits|
    ensures var own := Admissions(hits, AfterHits(cfg, hits).1, key);
            i <= j < |own| && own[j] - own[i] < cfg.window ==> j - i + 1 <= cfg.maxReqs
  {
    OwnAdmissionsBounded(cfg, hits, key);
    var own := Admissions(hits, AfterHits(cfg, hits).1, key);
    if i <= j < |own| && own[j] - own[i] < cfg.window {
      BoundedWindow(own, cfg.window, cfg.maxReqs, i, j);
    }
  }

  // ---------------------------------------------------------------------------------------
  // One client's handlers, interleaved
  // ---------------------------------------------------------------------------------------

  type HandlerId = nat

  /** `admitted` lists the times at which requests were counted and let through. */
  datatype Sys = Sys(cell: Cell, arrived: set<HandlerId>, passed: set<HandlerId>, admitted: seq<Time>, clock: Time)

  datatype Step =
    | Tick(now: Time)
    | Arrive(id: HandlerId)
    | Check(id: HandlerId)
    | Count(id: HandlerId)
    | Abort(id: HandlerId)  // a Redis error ends the handler

  const INITIAL := Sys(Absent, {}, {}, [], 0)

  predicate Enabled(s: Sys, step: Step) {
    match step
    case Tick(now) => s.clock <= now
    case Arrive(id) => id !in s.arrived + s.passed
    case Check(id) => id in s.arrived
    case Count(id) => id in s.passed
    case Abort(id) => id in s.arrived + s.passed
  }

  /** What a check made now decides. */
  predicate LetsThrough(cfg: Config, s: Sys) {
    Value(s.cell, s.clock) < cfg.maxReqs
  }

  function Apply(cfg: Config, s: Sys, step: Step): Sys {
    match step
    case Tick(now) => s.(clock := now)
    case Arrive(id) => s.(arrived := s.arrived + {id})
    case Check(id) =>
      var left := s.(arrived := s.arrived - {id});
      if LetsThrough(cfg, s) then left.(passed := s.passed + {id}) else left
    case Count(id) =>
      s.(cell := Increment(s.cell, s.clock, cfg.window), passed := s.passed - {id}, admitted := s.admitted + [s.clock])
    case Abort(id) => s.(arrived := s.arrived - {id}, passed := s.passed - {id})
  }

  /** A handler that nobody interrupts does what Limiter.Handle does. */
  lemma UninterruptedHandler(cfg: Config, s: Sys, id: HandlerId)
    requires id !in s.arrived + s.passed
    ensures var checked := Apply(cfg, Apply(cfg, s, Arrive(id)), Check(id));
            && (id in checked.passed <==> Decision(cfg, Value(s.cell, s.clock), true, true) == Admitted)
            && (id !in checked.passed ==> checked == s)
            && (id in checked.passed ==> Apply(cfg, checked, Count(id))
                                         == s.(cell := Increment(s.cell, s.clock, cfg.window),
                                               admitted := s.admitted + [s.clock]))
  {
    assert s.arrived + {id} - {id} == s.arrived && s.passed + {id} - {id} == s.passed;
  }

  function Exec(cfg: Config, steps: seq<Step>): Sys {
    if steps == [] then INITIAL
    else var n := |steps| - 1; Apply(cfg, Exec(cfg, steps[..n]), steps[n])
  }

  /** Every step is enabled, and at most `k` handlers are in flight at any time. */
  predicate Legal(cfg: Config, k: nat, steps: seq<Step>) {
    steps == [] ||
    var n := |steps| - 1;
    && Legal(cfg, k, steps[..n]) && Enabled(Exec(cfg, steps[..n]), steps[n])
    && var s := Exec(cfg, steps); |s.arrived| + |s.passed| <= k
  }

  /** The history determines the counter; nobody was counted beyond the bound. */
  predicate Inv(cfg: Config, k: nat, s: Sys) {
    && s.arrived !! s.passed && |s.arrived| + |s.passed| <= k
    && Ordered(s.admitted) && (s.admitted != [] ==> s.admitted[|s.admitted| - 1] <= s.clock)
    && s.cell == CellAfter(s.admitted, cfg.window)
    && Value(s.cell, s.clock) + |s.passed| <= cfg.maxReqs + k - 1
    && Bounded(s.admitted, cfg.window, cfg.maxReqs + k - 1)
  }

  lemma IncrementAddsAtMostOne(cell: Cell, now: Time, ttl: int)
    ensures Value(Increment(cell, now, ttl), now) <= Value(cell, now) + 1
  {
  }

  lemma CountKeepsInv(cfg: Config, k: nat, s: Sys, id: HandlerId)
    requires Inv(cfg, k, s) && id in s.passed
    ensures Inv(cfg, k, Apply(cfg, s, Count(id)))
  {
    RemoveCardinality(s.passed, id);
    IncrementAddsAtMostOne(s.cell, s.clock, cfg.window);
    IncrementKeepsBounded(s.admitted, cfg.window, cfg.maxReqs + k - 1, s.clock);
  }

  lemma {:induction false} LegalRunKeepsInv(cfg: Config, k: nat, steps: seq<Step>)
    requires 1 <= cfg.maxReqs && 1 <= k && Legal(cfg, k, steps)
    ensures Inv(cfg, k, Exec(cfg, steps))
  {
    if steps != [] {
      var n := |steps| - 1;
      LegalRunKeepsInv(cfg, k, steps[..n]);
      var s := Exec(cfg, steps[..n]);
      if steps[n].Count? {
        CountKeepsInv(cfg, k, s, steps[n].id);
      }
    }
  }

  /** With at most `k` handlers of a client in flight, the counter and the handlers that have
      passed the check never exceed `maxReqs + k - 1` together. */
  lemma {:induction false} OvershootBounded(cfg: Config, k: nat, steps: seq<Step>)
    requires 1 <= cfg.maxReqs && 1 <= k && Legal(cfg, k, steps)
    ensures var s := Exec(cfg, steps); Value(s.cell, s.clock) + |s.passed| <= cfg.maxReqs + k - 1
  {
    LegalRunKeepsInv(cfg, k, steps);
  }

  /** Sliding window: an interval shorter than the window contains at most `maxReqs + k - 1`
      admissions, hence at most `maxReqs` when requests are handled one at a time. */
  lemma AdmissionsInWindow(cfg: Config, k: nat, steps: seq<Step>, i: nat, j: nat)
    requires 1 <= cfg.maxReqs && 1 <= k && Legal(cfg, k, steps)
    requires var times := Exec(cfg, steps).admitted; i <= j < |times| && times[j] - times[i] < cfg.window
    ensures j - i + 1 <= cfg.maxReqs + k - 1
  {
    LegalRunKeepsInv(cfg, k, steps);
    BoundedWindow(Exec(cfg, steps).admitted, cfg.window, cfg.maxReqs + k - 1, i, j);
  }

  /** The counter a check reads is the length of the current chain of admissions. */
  lemma CounterIsChain(cfg: Config, k: nat, steps: seq<Step>)
    requires 1 <= cfg.maxReqs && 1 <= k && Legal(cfg, k, steps)
    ensures var s := Exec(cfg, steps); Value(s.cell, s.clock) == Chain(s.admitted, cfg.window, s.clock)
  {
    LegalRunKeepsInv(cfg, k, steps);
    var s := Exec(cfg, steps);
    ValueIsChain(s.admitted, cfg.window, s.clock);
  }

  /** A true sliding window would let this check through. */
  predicate WindowLetsThrough(cfg: Config, s: Sys) {
    InWindow(s.admitted, cfg.window, s.clock) < cfg.maxReqs
  }

  /** The limiter never lets through what a sliding window would refuse. */
  lemma StricterThanWindow(cfg: Config, k: nat, steps: seq<Step>)
    requires 1 <= k && Legal(cfg, k, steps) && LetsThrough(cfg, Exec(cfg, steps))
    ensures WindowLetsThrough(cfg, Exec(cfg, steps))
  {
    LegalRunKeepsInv(cfg, k, steps);
    CounterIsChain(cfg, k, steps);
    WindowAndChain(Exec(cfg, steps).admitted, cfg.window, Exec(cfg, steps).clock);
  }

  /** In no run does a check differ from that of a sliding window. */
  ghost predicate DecidesAsWindow(cfg: Config, k: nat) {
    forall steps :: Legal(cfg, k, steps) && Exec(cfg, steps).arrived != {}
                    ==> (LetsThrough(cfg, Exec(cfg, steps)) <==> WindowLetsThrough(cfg, Exec(cfg, steps)))
  }

  lemma TrivialLimitDecidesAsWindow(cfg: Config, k: nat, steps: seq<Step>)
    requires 1 <= k && Legal(cfg, k, steps) && (cfg.maxReqs <= 1 || cfg.window <= 1)
    ensures LetsThrough(cfg, Exec(cfg, steps)) <==> WindowLetsThrough(cfg, Exec(cfg, steps))
  {
    if 1 <= cfg.maxReqs {
      LegalRunKeepsInv(cfg, k, steps);
      CounterIsChain(cfg, k, steps);
      var s := Exec(cfg, steps);
      WindowAndChain(s.admitted, cfg.window, s.clock);
      if cfg.window <= 1 {
        ShortWindowIsChain(s.admitted, cfg.window, s.clock);
      }
    }
  }

  /** The limiter decides every check as a sliding window would exactly if it admits one request
      at a time or its window is a single tick; how many handlers interleave does not matter. */
  lemma DecidesAsWindowIff(cfg: Config, k: nat)
    requires 1 <= k
    ensures DecidesAsWindow(cfg, k) <==> cfg.maxReqs <= 1 || cfg.window <= 1
  {
    if cfg.maxReqs <= 1 || cfg.window <= 1 {
      forall steps | Legal(cfg, k, steps) && Exec(cfg, steps).arrived != {}
        ensures LetsThrough(cfg, Exec(cfg, steps)) <==> WindowLetsThrough(cfg, Exec(cfg, steps))
      {
        TrivialLimitDecidesAsWindow(cfg, k, steps);
      }
    } else {
      var steps := SteadyClientRefused(cfg, k);
    }
  }

  /** Only admissions move the end of a block: a blocked client is let through again exactly when
      `window` has passed since its last admission, however often it was refused meanwhile. */
  lemma {:induction false} BlockEndsAfterLastAdmission(cfg: Config, k: nat, steps: seq<Step>, refusedAt: Time,
                                                       now: Time)
    requires 1 <= cfg.maxReqs && 1 <= k && Legal(cfg, k, steps)
    requires var s := Exec(cfg, steps); s.clock <= refusedAt <= now && Value(s.cell, refusedAt) >= cfg.maxReqs
    ensures Exec(cfg, steps).admitted != []
    ensures var s := Exec(cfg, steps);
            Value(s.cell, now) < cfg.maxReqs <==> now - s.admitted[|s.admitted| - 1] >= cfg.window
  {
    LegalRunKeepsInv(cfg, k, steps);
  }

  // ---------------------------------------------------------------------------------------
  // The bound is exact
  // ---------------------------------------------------------------------------------------

  lemma Extend(cfg: Config, k: nat, steps: seq<Step>, step: Step)
    requires Legal(cfg, k, steps) && Enabled(Exec(cfg, steps), step)
    requires var s' := Apply(cfg, Exec(cfg, steps), step); |s'.arrived| + |s'.passed| <= k
    ensures Legal(cfg, k, steps + [step]) && Exec(cfg, steps + [step]) == Apply(cfg, Exec(cfg, steps), step)
  {
    assert (steps + [step])[..|steps|] == steps;
  }

  /** A handler that nobody interrupts is let through. */
  lemma AdmitOne(cfg: Config, k: nat, steps: seq<Step>) returns (longer: seq<Step>)
    requires 1 <= k && Legal(cfg, k, steps)
    requires var s := Exec(cfg, steps); s.arrived == {} && s.passed == {} && LetsThrough(cfg, s)
    ensures Legal(cfg, k, longer)
    ensures var s := Exec(cfg, steps);
            Exec(cfg, longer) == s.(cell := Increment(s.cell, s.clock, cfg.window), admitted := s.admitted + [s.clock])
  {
    Extend(cfg, k, steps, Arrive(0));
    longer := steps + [Arrive(0)];
    Extend(cfg, k, longer, Check(0));
    longer := longer + [Check(0)];
    Extend(cfg, k, longer, Count(0));
    longer := longer + [Count(0)];
  }

  /** One admission at 0 and `n` at 1. */
  lemma {:induction false} SteadyAdmissions(cfg: Config, k: nat, n: nat) returns (steps: seq<Step>)
    requires 1 <= k && 2 <= cfg.window && n < cfg.maxReqs
    ensures Legal(cfg, k, steps)
    ensures var s := Exec(cfg, steps);
            && s.clock == 1 && s.arrived == {} && s.passed == {}
            && s.cell == Present(n + 1, cfg.window + if n == 0 then 0 else 1)
            && s.admitted == [0] + seq(n, _ => 1)
  {
    if n == 0 {
      steps := AdmitOne(cfg, k, []);
      Extend(cfg, k, steps, Tick(1));
      steps := steps + [Tick(1)];
    } else {
      var before := SteadyAdmissions(cfg, k, n - 1);
      steps := AdmitOne(cfg, k, before);
    }
  }

  lemma {:induction false} OnesInWindow(window: int, n: nat)
    requires 2 <= window
    ensures InWindow([0] + seq(n, _ => 1), window, window) == n
  {
    var times := [0] + seq(n, _ => 1);
    if n == 0 {
      assert times[..0] == [];
    } else {
      OnesInWindow(window, n - 1);
      assert times[..n] == [0] + seq(n - 1, _ => 1);
    }
  }

  /** One admission at 0 and `maxReqs - 1` at 1: at `window` the first one has left the window, but
      the chain still holds it. */
  lemma SteadyClientRefused(cfg: Config, k: nat) returns (steps: seq<Step>)
    requires 1 <= k && 2 <= cfg.maxReqs && 2 <= cfg.window
    ensures Legal(cfg, k, steps) && Exec(cfg, steps).arrived != {}
    ensures Exec(cfg, steps).admitted == [0] + seq(cfg.maxReqs - 1, _ => 1) && Exec(cfg, steps).clock == cfg.window
    ensures !LetsThrough(cfg, Exec(cfg, steps)) && WindowLetsThrough(cfg, Exec(cfg, steps))
  {
    steps := SteadyAdmissions(cfg, k, cfg.maxReqs - 1);
    Extend(cfg, k, steps, Tick(cfg.window));
    steps := steps + [Tick(cfg.window)];
    Extend(cfg, k, steps, Arrive(0));
    steps := steps + [Arrive(0)];
    OnesInWindow(cfg.window, cfg.maxReqs - 1);
  }

  predicate At(s: Sys, count: nat, passed: set<HandlerId>) {
    s.clock == 0 && Value(s.cell, 0) == count && s.arrived == {} && s.passed == passed
  }

  lemma {:induction false} OneByOne(cfg: Config, k: nat, n: nat) returns (steps: seq<Step>)
    requires 1 <= k && 1 <= cfg.window && n < cfg.maxReqs
    ensures Legal(cfg, k, steps) && At(Exec(cfg, steps), n, {})
  {
    steps := [];
    if 0 < n {
      var before := OneByOne(cfg, k, n - 1);
      steps := AdmitOne(cfg, k, before);
    }
  }

  lemma {:induction false} AllPass(cfg: Config, k: nat, n: nat) returns (steps: seq<Step>)
    requires 1 <= k && 1 <= cfg.window && 1 <= cfg.maxReqs && n <= k
    ensures Legal(cfg, k, steps) && At(Exec(cfg, steps), cfg.maxReqs - 1, Ids(0, n))
  {
    if n == 0 {
      steps := OneByOne(cfg, k, cfg.maxReqs - 1);
    } else {
      steps := AllPass(cfg, k, n - 1);
      Extend(cfg, k, steps, Arrive(n - 1));
      steps := steps + [Arrive(n - 1)];
      Extend(cfg, k, steps, Check(n - 1));
      steps := steps + [Check(n - 1)];
    }
  }

  lemma CountFirst(cfg: Config, s: Sys, count: nat, lo: nat, hi: nat)
    requires At(s, count, Ids(lo, hi)) && lo < hi && 1 <= cfg.window
    ensures Enabled(s, Count(lo)) && At(Apply(cfg, s, Count(lo)), count + 1, Ids(lo + 1, hi))
    ensures |Apply(cfg, s, Count(lo)).arrived| + |Apply(cfg, s, Count(lo)).passed| <= hi
  {
  }

  lemma CountNext(cfg: Config, k: nat, steps: seq<Step>, count: nat, lo: nat) returns (longer: seq<Step>)
    requires 1 <= cfg.window && lo < k && Legal(cfg, k, steps) && At(Exec(cfg, steps), count, Ids(lo, k))
    ensures Legal(cfg, k, longer) && At(Exec(cfg, longer), count + 1, Ids(lo + 1, k))
  {
    CountFirst(cfg, Exec(cfg, steps), count, lo, k);
    Extend(cfg, k, steps, Count(lo));
    longer := steps + [Count(lo)];
  }

  lemma {:induction false} AllCount(cfg: Config, k: nat, n: nat) returns (steps: seq<Step>)
    requires 1 <= k && 1 <= cfg.window && 1 <= cfg.maxReqs && n <= k
    ensures Legal(cfg, k, steps) && At(Exec(cfg, steps), cfg.maxReqs - 1 + n, Ids(n, k))
  {
    if n == 0 {
      steps := AllPass(cfg, k, k);
    } else {
      var before := AllCount(cfg, k, n - 1);
      steps := CountNext(cfg, k, before, cfg.maxReqs + n - 2, n - 1);
    }
  }

  /** For every limit and every `k` some schedule of at most `k` handlers drives the counter to
      `maxReqs + k - 1`: the overshoot is exactly `k - 1`. */
  lemma OvershootAttained(cfg: Config, k: nat) returns (steps: seq<Step>)
    requires 1 <= k && 1 <= cfg.window && 1 <= cfg.maxReqs
    ensures Legal(cfg, k, steps)
    ensures Value(Exec(cfg, steps).cell, Exec(cfg, steps).clock) == cfg.maxReqs + k - 1
  {
    steps := AllCount(cfg, k, k);
  }
}
