/**
 A Redis counter whose expiry is renewed at every increment (INCR followed by EXPIRE), and what
 it counts: the length of the current chain of increments that lie less than the expiry apart.
 */
module RenewedCounter {

  type Time = int

  datatype Cell = Absent | Present(count: nat, expiresAt: Time)

  function Value(cell: Cell, now: Time): nat {
    if cell.Present? && now < cell.expiresAt then cell.count else 0
  }

  /** INCR, then EXPIRE; an expiry that is not positive deletes the key. */
  function Increment(cell: Cell, now: Time, ttl: int): Cell {
    if ttl <= 0 then Absent else Present(Value(cell, now) + 1, now + ttl)
  }

  /** The cell after increments at these times. */
  function CellAfter(times: seq<Time>, ttl: int): Cell {
    if times == [] then Absent
    else var n := |times| - 1; Increment(CellAfter(times[..n], ttl), times[n], ttl)
  }

  /** How many of the latest increments form a chain, with gaps below `ttl`, that reaches `now`. */
  function Chain(times: seq<Time>, ttl: int, now: Time): nat {
    if times == [] || now - times[|times| - 1] >= ttl then 0
    else var n := |times| - 1; 1 + Chain(times[..n], ttl, times[n])
  }

  predicate Ordered(times: seq<Time>) {
    forall i, j :: 0 <= i <= j < |times| ==> times[i] <= times[j]
  }

  /** The counter equals the length of the chain. */
  lemma {:induction false} ValueIsChain(times: seq<Time>, ttl: int, now: Time)
    requires Ordered(times) && (times == [] || times[|times| - 1] <= now)
    ensures Value(CellAfter(times, ttl), now) == Chain(times, ttl, now)
  {
    if times != [] {
      var n := |times| - 1;
      ValueIsChain(times[..n], ttl, times[n]);
    }
  }

  /** Increments that fit into a window shorter than `ttl` all belong to one chain. */
  lemma {:induction false} WindowWithinChain(times: seq<Time>, ttl: int, i: nat, j: nat)
    requires Ordered(times) && i <= j < |times| && times[j] - times[i] < ttl
    ensures Chain(times[..j], ttl, times[j]) >= j - i
  {
    if i < j {
      WindowWithinChain(times, ttl, i, j - 1);
      assert times[..j][..j - 1] == times[..j - 1];
    }
  }

  /** How many increments lie in the window that ends at `now`. */
  function InWindow(times: seq<Time>, window: int, now: Time): nat {
    if times == [] then 0
    else var n := |times| - 1; InWindow(times[..n], window, now) + if now - times[n] < window then 1 else 0
  }

  lemma {:induction false} InWindowEmpty(times: seq<Time>, window: int, now: Time)
    requires forall i :: 0 <= i < |times| ==> now - times[i] >= window
    ensures InWindow(times, window, now) == 0
  {
    if times != [] {
      InWindowEmpty(times[..|times| - 1], window, now);
    }
  }

  /** As the window moves on, increments only leave it. */
  lemma {:induction false} WindowMovesOn(times: seq<Time>, window: int, earlier: Time, now: Time)
    requires earlier <= now
    ensures InWindow(times, window, now) <= InWindow(times, window, earlier)
  {
    if times != [] {
      WindowMovesOn(times[..|times| - 1], window, earlier, now);
    }
  }

  /** The chain holds at least the window, and both are empty at the same times. */
  lemma {:induction false} WindowAndChain(times: seq<Time>, window: int, now: Time)
    requires Ordered(times) && (times == [] || times[|times| - 1] <= now)
    ensures InWindow(times, window, now) <= Chain(times, window, now)
    ensures InWindow(times, window, now) == 0 <==> Chain(times, window, now) == 0
  {
    if times != [] {
      var n := |times| - 1;
      if now - times[n] >= window {
        InWindowEmpty(times, window, now);
      } else {
        WindowAndChain(times[..n], window, times[n]);
        WindowMovesOn(times[..n], window, times[n], now);
      }
    }
  }

  /** Within one tick of the clock there is no difference. */
  lemma {:induction false} ShortWindowIsChain(times: seq<Time>, window: int, now: Time)
    requires Ordered(times) && (times == [] || times[|times| - 1] <= now) && window <= 1
    ensures InWindow(times, window, now) == Chain(times, window, now)
  {
    if times != [] {
      var n := |times| - 1;
      if now - times[n] >= window {
        InWindowEmpty(times, window, now);
      } else {
        ShortWindowIsChain(times[..n], window, times[n]);
      }
    }
  }

  /** Every increment found fewer than `limit` increments in its chain. */
  predicate Bounded(times: seq<Time>, ttl: int, limit: int) {
    forall n :: 0 <= n < |times| ==> Chain(times[..n], ttl, times[n]) < limit
  }

  lemma IncrementKeepsBounded(times: seq<Time>, ttl: int, limit: int, now: Time)
    requires Ordered(times) && (times == [] || times[|times| - 1] <= now)
    requires Bounded(times, ttl, limit) && Value(CellAfter(times, ttl), now) < limit
    ensures Ordered(times + [now]) && Bounded(times + [now], ttl, limit)
    ensures CellAfter(times + [now], ttl) == Increment(CellAfter(times, ttl), now, ttl)
  {
    var longer := times + [now];
    assert longer[..|times|] == times;
    ValueIsChain(times, ttl, now);
    forall n | 0 <= n < |longer|
      ensures Chain(longer[..n], ttl, longer[n]) < limit
    {
      if n < |times| {
        assert longer[..n] == times[..n];
      }
    }
  }

  /** A bound that each increment checks against the counter bounds every window. */
  lemma BoundedWindow(times: seq<Time>, ttl: int, limit: int, i: nat, j: nat)
    requires Ordered(times) && Bounded(times, ttl, limit)
    requires i <= j < |times| && times[j] - times[i] < ttl
    ensures j - i + 1 <= limit
  {
    WindowWithinChain(times, ttl, i, j);
  }
}
