/**
 Per-client token buckets that are thrown away after ten idle minutes and recreated full. The
 bucket is the published behaviour of golang.org/x/time/rate over exact reals; time is in
 seconds, `lastSeen` in whole seconds.
 */
module Throttler {
  import opened Collections

  datatype Limit = Limit(rate: real, burst: int)

  datatype Bucket = Bucket(tokens: real, last: real)

  const IDLE: int := 600

  function Full(limit: Limit, now: real): Bucket {
    Bucket(limit.burst as real, now)
  }

  /** The tokens the rate adds between two instants. */
  function Refill(limit: Limit, earlier: real, later: real): real {
    (later - earlier) * limit.rate
  }

  lemma RefillAtOnce(limit: Limit, now: real)
    ensures Refill(limit, now, now) == 0.0
  {
  }

  lemma RefillAdds(limit: Limit, a: real, b: real, c: real)
    ensures Refill(limit, a, b) + Refill(limit, b, c) == Refill(limit, a, c)
  {
  }

  lemma RefillGrows(limit: Limit, earlier: real, now: real, later: real)
    requires 0.0 < limit.rate && now <= later
    ensures Refill(limit, earlier, now) <= Refill(limit, earlier, later)
  {
    RefillAdds(limit, earlier, now, later);
  }

  /** The tokens in the bucket at `now`. */
  function Level(limit: Limit, bucket: Bucket, now: real): real {
    var filled := bucket.tokens + Refill(limit, bucket.last, now);
    if filled > limit.burst as real then limit.burst as real else filled
  }

  predicate Allows(limit: Limit, bucket: Bucket, now: real) {
    1 <= limit.burst && Level(limit, bucket, now) >= 1.0
  }

  /** A refused request leaves the bucket as it is. */
  function Take(limit: Limit, bucket: Bucket, now: real): Bucket {
    if Allows(limit, bucket, now) then Bucket(Level(limit, bucket, now) - 1.0, now) else bucket
  }

  datatype Client = Client(bucket: Bucket, lastSeen: int)

  type Slot = Option<Client>

  predicate Idle(client: Client, now: real) {
    now.Floor - client.lastSeen > IDLE
  }

  function BucketIn(limit: Limit, slot: Slot, now: real): Bucket {
    if slot.Some? then slot.value.bucket else Full(limit, now)
  }

  function SlotAfterRequest(limit: Limit, slot: Slot, now: real): Slot {
    Some(Client(Take(limit, BucketIn(limit, slot, now), now), now.Floor))
  }

  function SlotAfterCleanup(slot: Slot, now: real): Slot {
    if slot.Some? && Idle(slot.value, now) then None else slot
  }

  class Registry {
    const limit: Limit
    var clients: map<string, Client>

    constructor (limit: Limit)
      ensures this.limit == limit && clients == map[]
    {
      this.limit := limit;
      clients := map[];
    }

    function SlotOf(key: string): Slot
      reads this
    {
      if key in clients then Some(clients[key]) else None
    }

    method GetLimiter(key: string, now: real) returns (bucket: Bucket)
      modifies this
      ensures bucket == BucketIn(limit, old(SlotOf(key)), now)
      ensures clients == old(clients)[key := Client(bucket, now.Floor)]
    {
      if key !in clients {
        clients := clients[key := Client(Full(limit, now), now.Floor)];
      }
      clients := clients[key := clients[key].(lastSeen := now.Floor)];
      bucket := clients[key].bucket;
    }

    method Throttle(key: string, now: real) returns (ok: bool)
      modifies this
      ensures ok == Allows(limit, BucketIn(limit, old(SlotOf(key)), now), now)
      ensures SlotOf(key) == SlotAfterRequest(limit, old(SlotOf(key)), now)
      ensures forall other :: other != key ==> SlotOf(other) == old(SlotOf(other))
    {
      var bucket := GetLimiter(key, now);
      ok := Allows(limit, bucket, now);
      clients := clients[key := clients[key].(bucket := Take(limit, bucket, now))];
    }

    method CleanupIdle(now: real)
      modifies this
      ensures forall key :: SlotOf(key) == SlotAfterCleanup(old(SlotOf(key)), now)
    {
      ghost var before := clients;
      var rest := clients.Keys;
      while rest != {}
        invariant rest <= clients.Keys <= before.Keys
        invariant forall k :: k in clients ==> clients[k] == before[k]
        invariant forall k :: k in before && k !in rest ==> (k in clients <==> !Idle(before[k], now))
        decreases rest
      {
        var k :| k in rest;
        if Idle(clients[k], now) {
          clients := clients - {k};
        }
        rest := rest - {k};
      }
    }
  }

  // ---------------------------------------------------------------------------------------
  // Runs of one client's requests, with and without clean-up
  // ---------------------------------------------------------------------------------------

  datatype Event = Request(now: real) | Cleanup(now: real)

  /** What an observer sees: each decision, and when the admitted requests came. */
  datatype Trace = Trace(decisions: seq<bool>, admitted: seq<real>)

  function Decide(trace: Trace, ok: bool, now: real): Trace {
    Trace(trace.decisions + [ok], if ok then trace.admitted + [now] else trace.admitted)
  }

  datatype Run<S> = Run(state: S, trace: Trace)

  /** The code: buckets are discarded by clean-ups. */
  function Discarding(limit: Limit, events: seq<Event>): Run<Slot> {
    if events == [] then Run(None, Trace([], []))
    else
      var n := |events| - 1;
      var r := Discarding(limit, events[..n]);
      match events[n]
      case Request(now) =>
        Run(SlotAfterRequest(limit, r.state, now),
            Decide(r.trace, Allows(limit, BucketIn(limit, r.state, now), now), now))
      case Cleanup(now) => Run(SlotAfterCleanup(r.state, now), r.trace)
  }

  /** The ideal: a client's bucket is kept for ever. */
  function Keeping(limit: Limit, events: seq<Event>): Run<Option<Bucket>> {
    if events == [] then Run(None, Trace([], []))
    else
      var n := |events| - 1;
      var r := Keeping(limit, events[..n]);
      match events[n]
      case Request(now) =>
        var bucket := if r.state.Some? then r.state.value else Full(limit, now);
        Run(Some(Take(limit, bucket, now)), Decide(r.trace, Allows(limit, bucket, now), now))
      case Cleanup(_) => r
  }

  predicate InOrder(events: seq<Event>) {
    forall i, j :: 0 <= i <= j < |events| ==> events[i].now <= events[j].now
  }

  /** A bucket that has been idle long enough is full, and stays full. */
  predicate FullFrom(limit: Limit, bucket: Bucket, now: real) {
    bucket.tokens + Refill(limit, bucket.last, now) >= limit.burst as real
  }

  lemma FullStaysFull(limit: Limit, bucket: Bucket, now: real, later: real)
    requires 0.0 < limit.rate && now <= later && FullFrom(limit, bucket, now)
    ensures Level(limit, bucket, later) == limit.burst as real
  {
    RefillGrows(limit, bucket.last, now, later);
  }

  /** The discarded and the kept bucket cannot be told apart from `now` on. */
  predicate Similar(limit: Limit, slot: Slot, kept: Option<Bucket>, now: real) {
    match slot
    case Some(client) =>
      && kept == Some(client.bucket) && 0.0 <= client.bucket.tokens
      && client.bucket.last < client.lastSeen as real + 1.0 && client.bucket.last <= now
    case None => kept.Some? ==> FullFrom(limit, kept.value, now)
  }

  lemma RequestKeepsSimilar(limit: Limit, slot: Slot, kept: Option<Bucket>, before: real, now: real)
    requires 0.0 < limit.rate && 1 <= limit.burst && before <= now && Similar(limit, slot, kept, before)
    ensures var bucket := if kept.Some? then kept.value else Full(limit, now);
            && Allows(limit, BucketIn(limit, slot, now), now) == Allows(limit, bucket, now)
            && Similar(limit, SlotAfterRequest(limit, slot, now), Some(Take(limit, bucket, now)), now)
  {
    if slot.None? && kept.Some? {
      FullStaysFull(limit, kept.value, before, now);
    }
  }

  lemma IdleIsLong(client: Client, now: real)
    requires Idle(client, now) && client.bucket.last < client.lastSeen as real + 1.0
    ensures IDLE as real <= now - client.bucket.last
  {
    assert (client.lastSeen + IDLE + 1) as real <= now.Floor as real <= now;
  }

  lemma RefilledWhenIdle(limit: Limit, bucket: Bucket, now: real)
    requires 0.0 < limit.rate && IDLE as real * limit.rate >= limit.burst as real
    requires 0.0 <= bucket.tokens && IDLE as real <= now - bucket.last
    ensures FullFrom(limit, bucket, now)
  {
    RefillGrows(limit, bucket.last, bucket.last + IDLE as real, now);
  }

  lemma FullFromLater(limit: Limit, bucket: Bucket, before: real, now: real)
    requires 0.0 < limit.rate && before <= now && FullFrom(limit, bucket, before)
    ensures FullFrom(limit, bucket, now)
  {
    RefillGrows(limit, bucket.last, before, now);
  }

  lemma CleanupKeepsSimilar(limit: Limit, slot: Slot, kept: Option<Bucket>, before: real, now: real)
    requires 0.0 < limit.rate && IDLE as real * limit.rate >= limit.burst as real && before <= now
    requires Similar(limit, slot, kept, before)
    ensures Similar(limit, SlotAfterCleanup(slot, now), kept, now)
  {
    if slot.None? {
      if kept.Some? {
        FullFromLater(limit, kept.value, before, now);
      }
    } else if Idle(slot.value, now) {
      IdleIsLong(slot.value, now);
      RefilledWhenIdle(limit, slot.value.bucket, now);
    }
  }

  lemma {:induction false} RunsStaySimilar(limit: Limit, events: seq<Event>)
    requires 0.0 < limit.rate && 1 <= limit.burst && IDLE as real * limit.rate >= limit.burst as real
             && InOrder(events)
    ensures Discarding(limit, events).trace == Keeping(limit, events).trace
    ensures events != []
            ==> Similar(limit, Discarding(limit, events).state, Keeping(limit, events).state, events[|events| - 1].now)
  {
    if events != [] {
      var n := |events| - 1;
      RunsStaySimilar(limit, events[..n]);
      var slot, kept := Discarding(limit, events[..n]).state, Keeping(limit, events[..n]).state;
      var before := if n == 0 then events[n].now else events[n - 1].now;
      if events[n].Request? {
        RequestKeepsSimilar(limit, slot, kept, before, events[n].now);
      } else {
        CleanupKeepsSimilar(limit, slot, kept, before, events[n].now);
      }
    }
  }

  lemma {:induction false} NothingWithoutBurst(limit: Limit, events: seq<Event>)
    requires limit.burst < 1
    ensures Discarding(limit, events).trace == Keeping(limit, events).trace
  {
    if events != [] {
      NothingWithoutBurst(limit, events[..|events| - 1]);
    }
  }

  // ---------------------------------------------------------------------------------------
  // How much a client gets
  // ---------------------------------------------------------------------------------------

  /** What is left in the bucket accounts for everything admitted since the `i`-th admission. */
  predicate Accounted(limit: Limit, bucket: Bucket, admitted: seq<real>, i: nat)
    requires i < |admitted|
  {
    bucket.tokens <= limit.burst as real + Refill(limit, admitted[i], bucket.last) - (|admitted| - i) as real
  }

  predicate KeepingInv(limit: Limit, r: Run<Option<Bucket>>) {
    match r.state
    case None => r.trace.admitted == []
    case Some(bucket) =>
      && 0.0 <= bucket.tokens
      && (r.trace.admitted != [] ==> bucket.last == r.trace.admitted[|r.trace.admitted| - 1])
      && forall i :: 0 <= i < |r.trace.admitted| ==> Accounted(limit, bucket, r.trace.admitted, i)
  }

  lemma TakingAccounts(limit: Limit, bucket: Bucket, admitted: seq<real>, i: nat, now: real)
    requires Allows(limit, bucket, now) && i < |admitted| && Accounted(limit, bucket, admitted, i)
    ensures Accounted(limit, Take(limit, bucket, now), admitted + [now], i)
  {
    RefillAdds(limit, admitted[i], bucket.last, now);
  }

  lemma FirstIsAccounted(limit: Limit, bucket: Bucket, admitted: seq<real>, now: real)
    requires Allows(limit, bucket, now)
    ensures Accounted(limit, Take(limit, bucket, now), admitted + [now], |admitted|)
  {
    RefillAtOnce(limit, now);
  }

  lemma RequestKeepsAccounts(limit: Limit, r: Run<Option<Bucket>>, now: real, bucket: Bucket)
    requires KeepingInv(limit, r) && 1 <= limit.burst
    requires bucket == if r.state.Some? then r.state.value else Full(limit, now)
    ensures KeepingInv(limit, Run(Some(Take(limit, bucket, now)), Decide(r.trace, Allows(limit, bucket, now), now)))
  {
    if Allows(limit, bucket, now) {
      FirstIsAccounted(limit, bucket, r.trace.admitted, now);
      forall i | 0 <= i < |r.trace.admitted|
        ensures Accounted(limit, Take(limit, bucket, now), r.trace.admitted + [now], i)
      {
        TakingAccounts(limit, bucket, r.trace.admitted, i, now);
      }
    }
  }

  lemma {:induction false} KeepingIsAccounted(limit: Limit, events: seq<Event>)
    requires 1 <= limit.burst
    ensures KeepingInv(limit, Keeping(limit, events))
  {
    if events != [] {
      var n := |events| - 1;
      KeepingIsAccounted(limit, events[..n]);
      if events[n].Request? {
        var r := Keeping(limit, events[..n]);
        RequestKeepsAccounts(limit, r, events[n].now,
                             if r.state.Some? then r.state.value else Full(limit, events[n].now));
      }
    }
  }

  lemma {:induction false} NothingAdmittedWithoutBurst(limit: Limit, events: seq<Event>)
    requires limit.burst < 1
    ensures Keeping(limit, events).trace.admitted == []
  {
    if events != [] {
      NothingAdmittedWithoutBurst(limit, events[..|events| - 1]);
    }
  }

  /** From the `i`-th to the `j`-th admission, both included, there are at most the burst and what
      the rate adds in the meantime. */
  predicate PairWithinRate(limit: Limit, admitted: seq<real>, i: nat, j: nat)
    requires i <= j < |admitted|
  {
    (j - i + 1) as real <= limit.burst as real + Refill(limit, admitted[i], admitted[j])
  }

  predicate WithinRate(limit: Limit, admitted: seq<real>) {
    forall i, j :: 0 <= i <= j < |admitted| ==> PairWithinRate(limit, admitted, i, j)
  }

  lemma AccountedWithinRate(limit: Limit, bucket: Bucket, admitted: seq<real>, i: nat)
    requires i < |admitted| && Accounted(limit, bucket, admitted, i)
    requires 0.0 <= bucket.tokens && bucket.last == admitted[|admitted| - 1]
    ensures PairWithinRate(limit, admitted, i, |admitted| - 1)
  {
    assert |admitted| - 1 - i + 1 == |admitted| - i;
  }

  lemma AppendWithinRate(limit: Limit, admitted: seq<real>, bucket: Bucket, now: real)
    requires WithinRate(limit, admitted) && 0.0 <= bucket.tokens && bucket.last == now
    requires forall i :: 0 <= i < |admitted| + 1 ==> Accounted(limit, bucket, admitted + [now], i)
    ensures WithinRate(limit, admitted + [now])
  {
    forall i, j | 0 <= i <= j < |admitted| + 1
      ensures PairWithinRate(limit, admitted + [now], i, j)
    {
      if j < |admitted| {
        assert PairWithinRate(limit, admitted, i, j);
      } else {
        AccountedWithinRate(limit, bucket, admitted + [now], i);
      }
    }
  }

  lemma {:induction false} KeptWithinRate(limit: Limit, events: seq<Event>)
    requires 0.0 < limit.rate && InOrder(events)
    ensures WithinRate(limit, Keeping(limit, events).trace.admitted)
  {
    if limit.burst < 1 {
      NothingAdmittedWithoutBurst(limit, events);
    } else if events != [] {
      var n := |events| - 1;
      KeptWithinRate(limit, events[..n]);
      KeepingIsAccounted(limit, events);
      var earlier, r := Keeping(limit, events[..n]).trace.admitted, Keeping(limit, events);
      if r.trace.admitted != earlier {
        assert r.trace.admitted == earlier + [events[n].now];
        AppendWithinRate(limit, earlier, r.state.value, events[n].now);
      }
    }
  }

  /** A client never gets more than its burst and its rate, clean-ups or not. */
  lemma AdmissionsWithinRate(limit: Limit, events: seq<Event>)
    requires 0.0 < limit.rate && IDLE as real * limit.rate >= limit.burst as real && InOrder(events)
    ensures WithinRate(limit, Discarding(limit, events).trace.admitted)
  {
    if limit.burst < 1 {
      NothingWithoutBurst(limit, events);
    } else {
      RunsStaySimilar(limit, events);
    }
    KeptWithinRate(limit, events);
  }

  // ---------------------------------------------------------------------------------------
  // Nobody gets less
  // ---------------------------------------------------------------------------------------

  /** The accounts are tight: some admission explains exactly what is left. */
  predicate Tight(limit: Limit, bucket: Bucket, admitted: seq<real>, i: nat)
    requires i < |admitted|
  {
    bucket.tokens == limit.burst as real + Refill(limit, admitted[i], bucket.last) - (|admitted| - i) as real
  }

  ghost predicate TightInv(limit: Limit, r: Run<Option<Bucket>>) {
    r.state.Some? ==> exists i :: 0 <= i < |r.trace.admitted| && Tight(limit, r.state.value, r.trace.admitted, i)
  }

  lemma TakingStaysTight(limit: Limit, bucket: Bucket, admitted: seq<real>, i: nat, now: real) returns (k: nat)
    requires Allows(limit, bucket, now) && i < |admitted| && Tight(limit, bucket, admitted, i)
    ensures k <= |admitted| && Tight(limit, Take(limit, bucket, now), admitted + [now], k)
  {
    if FullFrom(limit, bucket, now) {
      RefillAtOnce(limit, now);
      k := |admitted|;
    } else {
      RefillAdds(limit, admitted[i], bucket.last, now);
      k := i;
    }
  }

  lemma RequestStaysTight(limit: Limit, r: Run<Option<Bucket>>, now: real, bucket: Bucket)
    requires TightInv(limit, r) && 1 <= limit.burst
    requires bucket == if r.state.Some? then r.state.value else Full(limit, now)
    ensures TightInv(limit, Run(Some(Take(limit, bucket, now)), Decide(r.trace, Allows(limit, bucket, now), now)))
  {
    var admitted := r.trace.admitted;
    RefillAtOnce(limit, now);
    if r.state.None? {
      assert Tight(limit, Take(limit, bucket, now), admitted + [now], |admitted|);
    } else {
      var i :| 0 <= i < |admitted| && Tight(limit, bucket, admitted, i);
      if Allows(limit, bucket, now) {
        var k := TakingStaysTight(limit, bucket, admitted, i, now);
      }
    }
  }

  lemma {:induction false} KeepingIsTight(limit: Limit, events: seq<Event>)
    requires 1 <= limit.burst
    ensures TightInv(limit, Keeping(limit, events))
  {
    if events != [] {
      var n := |events| - 1;
      KeepingIsTight(limit, events[..n]);
      if events[n].Request? {
        var r := Keeping(limit, events[..n]);
        RequestStaysTight(limit, r, events[n].now, if r.state.Some? then r.state.value else Full(limit, events[n].now));
      }
    }
  }

  lemma RefusedWouldExceed(limit: Limit, bucket: Bucket, admitted: seq<real>, i: nat, now: real)
    requires 1 <= limit.burst && !Allows(limit, bucket, now) && i < |admitted| && Tight(limit, bucket, admitted, i)
    ensures !WithinRate(limit, admitted + [now])
  {
    RefillAdds(limit, admitted[i], bucket.last, now);
    assert !PairWithinRate(limit, admitted + [now], i, |admitted|);
  }

  /** A kept bucket admits a request exactly if that stays within burst and rate, counted from every
      earlier admission. */
  lemma KeptAdmitsIff(limit: Limit, events: seq<Event>, now: real)
    requires 0.0 < limit.rate && InOrder(events + [Request(now)])
    ensures var before, after := Keeping(limit, events).trace, Keeping(limit, events + [Request(now)]).trace;
            after == Decide(before, WithinRate(limit, before.admitted + [now]), now)
  {
    var all, r := events + [Request(now)], Keeping(limit, events);
    assert all[..|events|] == events;
    var bucket := if r.state.Some? then r.state.value else Full(limit, now);
    var ok := Allows(limit, bucket, now);
    assert Keeping(limit, all).trace == Decide(r.trace, ok, now);
    KeptWithinRate(limit, all);
    if limit.burst < 1 {
      RefillAtOnce(limit, now);
      assert !PairWithinRate(limit, r.trace.admitted + [now], |r.trace.admitted|, |r.trace.admitted|);
    } else if !ok {
      KeepingIsTight(limit, events);
      RefillAtOnce(limit, now);
      var i :| 0 <= i < |r.trace.admitted| && Tight(limit, bucket, r.trace.admitted, i);
      RefusedWouldExceed(limit, bucket, r.trace.admitted, i, now);
    }
  }

  /** So does the code with its clean-ups, if ten minutes refill the burst. */
  lemma AdmitsIff(limit: Limit, events: seq<Event>, now: real)
    requires 0.0 < limit.rate && 600.0 * limit.rate >= limit.burst as real && InOrder(events + [Request(now)])
    ensures var before, after := Discarding(limit, events).trace, Discarding(limit, events + [Request(now)]).trace;
            after == Decide(before, WithinRate(limit, before.admitted + [now]), now)
  {
    var all := events + [Request(now)];
    assert all[..|events|] == events;
    assert InOrder(events) by {
      assert forall i :: 0 <= i < |events| ==> all[i] == events[i];
    }
    if limit.burst < 1 {
      NothingWithoutBurst(limit, events);
      NothingWithoutBurst(limit, all);
    } else {
      RunsStaySimilar(limit, events);
      RunsStaySimilar(limit, all);
    }
    KeptAdmitsIff(limit, events, now);
  }

  /** Any two requests are at least the time of one token apart. */
  predicate Spaced(limit: Limit, events: seq<Event>) {
    forall i, j :: 0 <= i < j < |events| && events[i].Request? && events[j].Request?
                   ==> Refill(limit, events[i].now, events[j].now) >= 1.0
  }

  predicate AllAdmitted(decisions: seq<bool>) {
    forall k :: 0 <= k < |decisions| ==> decisions[k]
  }

  /** A client that keeps this distance is never refused, clean-ups or not, whatever the rate. */
  lemma {:induction false} SpacedNeverRefused(limit: Limit, events: seq<Event>)
    requires 1 <= limit.burst && Spaced(limit, events)
    ensures AllAdmitted(Discarding(limit, events).trace.decisions)
    ensures Discarding(limit, events).state.Some?
            ==> var bucket := Discarding(limit, events).state.value.bucket;
                && 0.0 <= bucket.tokens
                && exists i :: 0 <= i < |events| && events[i].Request? && events[i].now == bucket.last
  {
    if events != [] {
      var n := |events| - 1;
      SpacedNeverRefused(limit, events[..n]);
      var r, r' := Discarding(limit, events[..n]), Discarding(limit, events);
      if events[n].Request? {
        if r.state.Some? {
          var i :| 0 <= i < n && events[..n][i].Request? && events[..n][i].now == r.state.value.bucket.last;
          assert Refill(limit, events[i].now, events[n].now) >= 1.0;
        } else {
          RefillAtOnce(limit, events[n].now);
        }
        assert r'.trace.decisions == r.trace.decisions + [true];
        assert r'.state.value.bucket.last == events[n].now;
      } else if r'.state.Some? {
        var i :| 0 <= i < n && events[..n][i].Request? && events[..n][i].now == r'.state.value.bucket.last;
        assert events[i].Request?;
      }
    }
  }

  // ---------------------------------------------------------------------------------------
  // When discarding is unobservable
  // ---------------------------------------------------------------------------------------

  function Requests(n: nat, now: real): seq<Event> {
    seq(n, _ => Request(now))
  }

  lemma OneMoreAdmitted(limit: Limit, events: seq<Event>, now: real, left: int)
    requires 1 <= left <= limit.burst
    requires BucketIn(limit, Discarding(limit, events).state, now) == Bucket(left as real, now)
    ensures var r, r' := Discarding(limit, events), Discarding(limit, events + [Request(now)]);
            && r'.trace.admitted == r.trace.admitted + [now]
            && r'.state == Some(Client(Bucket((left - 1) as real, now), now.Floor))
  {
  }

  /** A client without a bucket can spend its whole burst at once. */
  lemma {:induction false} BurstAdmitted(limit: Limit, events: seq<Event>, n: nat, now: real, all: seq<Event>)
    requires n <= limit.burst && Discarding(limit, events).state == None && all == events + Requests(n, now)
    ensures var r, r' := Discarding(limit, events), Discarding(limit, all);
            && r.trace.admitted <= r'.trace.admitted && |r'.trace.admitted| == |r.trace.admitted| + n
            && (0 < n ==> && r'.trace.admitted[|r.trace.admitted|] == now
                          && r'.trace.admitted[|r'.trace.admitted| - 1] == now)
            && r'.state == if n == 0 then None else Some(Client(Bucket((limit.burst - n) as real, now), now.Floor))
  {
    if n == 0 {
      assert all == events;
    } else {
      var fewer := events + Requests(n - 1, now);
      BurstAdmitted(limit, events, n - 1, now, fewer);
      OneMoreAdmitted(limit, fewer, now, limit.burst - n + 1);
      assert all == fewer + [Request(now)];
    }
  }

  lemma CleanupDiscards(limit: Limit, events: seq<Event>, now: real)
    requires Discarding(limit, events).state.Some? && Idle(Discarding(limit, events).state.value, now)
    ensures Discarding(limit, events + [Cleanup(now)]).state == None
    ensures Discarding(limit, events + [Cleanup(now)]).trace == Discarding(limit, events).trace
  {
    assert (events + [Cleanup(now)])[..|events|] == events;
  }

  /** A client that empties its bucket, waits until it has just been discarded and comes back. */
  function EmptyTwice(burst: nat, first: real, second: real): seq<Event> {
    Requests(burst, first) + [Cleanup(second)] + Requests(burst, second)
  }

  lemma EmptiedAndDiscarded(limit: Limit, first: real, second: real, cleaned: seq<Event>)
    requires 1 <= limit.burst && second.Floor - first.Floor > IDLE
    requires cleaned == Requests(limit.burst, first) + [Cleanup(second)]
    ensures var r := Discarding(limit, cleaned);
            r.state == None && |r.trace.admitted| == limit.burst && r.trace.admitted[0] == first
  {
    var before := Requests(limit.burst, first);
    assert [] + before == before;
    BurstAdmitted(limit, [], limit.burst, first, before);
    CleanupDiscards(limit, before, second);
  }

  lemma EmptyTwiceAdmitted(limit: Limit, first: real, second: real)
    requires 1 <= limit.burst && second.Floor - first.Floor > IDLE
    ensures var admitted := Discarding(limit, EmptyTwice(limit.burst, first, second)).trace.admitted;
            |admitted| == 2 * limit.burst && admitted[0] == first && admitted[2 * limit.burst - 1] == second
  {
    var cleaned := Requests(limit.burst, first) + [Cleanup(second)];
    EmptiedAndDiscarded(limit, first, second, cleaned);
    BurstAdmitted(limit, cleaned, limit.burst, second, EmptyTwice(limit.burst, first, second));
  }

  lemma DiscardingShows(limit: Limit)
    requires 0.0 < limit.rate && IDLE as real * limit.rate < limit.burst as real
    ensures exists events :: InOrder(events) && Discarding(limit, events).trace != Keeping(limit, events).trace
  {
    var wait := WaitJustAbove(limit);
    var first, second := 601.0 - wait, 601.0;
    assert first.Floor == 0 && second.Floor == 601;
    var events := EmptyTwice(limit.burst, first, second);
    EmptyTwiceAdmitted(limit, first, second);
    TooManyForRate(limit, Discarding(limit, events).trace.admitted, wait);
    KeptWithinRate(limit, events);
    assert InOrder(events);
  }

  lemma TooManyForRate(limit: Limit, admitted: seq<real>, wait: real)
    requires 1 <= limit.burst && |admitted| == 2 * limit.burst && wait * limit.rate < limit.burst as real
    requires admitted[|admitted| - 1] - admitted[0] == wait
    ensures !WithinRate(limit, admitted)
  {
    assert !PairWithinRate(limit, admitted, 0, |admitted| - 1);
  }

  lemma ScaleMonotone(a: real, b: real, rate: real)
    requires a <= b && 0.0 < rate
    ensures a * rate <= b * rate
  {
  }

  /** A wait above ten minutes in which the rate does not refill the bucket. */
  lemma WaitJustAbove(limit: Limit) returns (wait: real)
    requires 0.0 < limit.rate && IDLE as real * limit.rate < limit.burst as real
    ensures 600.0 < wait <= 600.5 && wait * limit.rate < limit.burst as real
  {
    var slack := (limit.burst as real - 600.0 * limit.rate) / (2.0 * limit.rate);
    wait := 600.0 + if slack < 0.5 then slack else 0.5;
    assert slack * limit.rate == (limit.burst as real - 600.0 * limit.rate) / 2.0;
    ScaleMonotone(wait, 600.0 + slack, limit.rate);
    assert (600.0 + slack) * limit.rate == 600.0 * limit.rate + slack * limit.rate;
  }

  /** Throwing idle buckets away is unobservable, in every run, exactly when ten minutes refill the
      whole burst. */
  lemma DiscardingUnobservableIff(limit: Limit)
    requires 0.0 < limit.rate
    ensures (forall events :: InOrder(events) ==> Discarding(limit, events).trace == Keeping(limit, events).trace)
       <==> 600.0 * limit.rate >= limit.burst as real
  {
    if IDLE as real * limit.rate >= limit.burst as real {
      forall events | InOrder(events)
        ensures Discarding(limit, events).trace == Keeping(limit, events).trace
      {
        if limit.burst < 1 {
          NothingWithoutBurst(limit, events);
        } else {
          RunsStaySimilar(limit, events);
        }
      }
    } else {
      DiscardingShows(limit);
    }
  }
}
