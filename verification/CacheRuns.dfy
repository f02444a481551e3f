/**
 Runs of the token cache: how long an entry can be relied on. Delete also stands for the late
 removal by a Get that saw an expired entry and took the write lock after somebody else's Set.
 */
module CacheRuns {
  import opened Collections
  import opened TokenCache

  datatype Op<V> =
    | Set(key: Key, data: V, order: seq<Key>)
    | Get(key: Key)
    | Delete(key: Key)
    | Cleanup

  datatype Event<V> = Event(now: Time, op: Op<V>)

  ghost predicate Step<V(!new)>(cfg: Config, entries: Entries<V>, e: Event<V>, entries': Entries<V>) {
    match e.op
    case Set(key, data, order) =>
      && Enumerates(order, entries)
      && entries' == AfterSet(entries, cfg.maxSize, order, key, data, e.now + cfg.ttl)
    case Get(key) => entries' == AfterGet(entries, key, e.now)
    case Delete(key) => entries' == entries - {key}
    case Cleanup => entries' == AfterCleanup(entries, e.now)
  }

  /** A run from the empty cache, under a strictly increasing clock. */
  ghost predicate Run<V(!new)>(cfg: Config, states: seq<Entries<V>>, events: seq<Event<V>>) {
    && |states| == |events| + 1 && states[0] == map[]
    && (forall i :: 0 <= i < |events| ==> Step(cfg, states[i], events[i], states[i + 1]))
    && (forall i, j :: 0 <= i < j < |events| ==> events[i].now < events[j].now)
  }

  function SetCount<V>(events: seq<Event<V>>): nat {
    if events == [] then 0 else SetCount(events[..|events| - 1]) + (if events[|events| - 1].op.Set? then 1 else 0)
  }

  /** Entries are younger than the clock allows, all of different age, and named. */
  predicate Orderly<V>(entries: Entries<V>, latest: Time) {
    && (forall k :: k in entries ==> k != "" && entries[k].expiresAt <= latest)
    && (forall j, k :: j in entries && k in entries && entries[j].expiresAt == entries[k].expiresAt ==> j == k)
  }

  ghost predicate NamedKeys<V(!new)>(events: seq<Event<V>>) {
    forall i :: 0 <= i < |events| && events[i].op.Set? ==> events[i].op.key != ""
  }

  /** The cache never outgrows its limit, whatever the clock does and whatever the keys are. */
  lemma {:induction false} SizeBounded<V(!new)>(cfg: Config, states: seq<Entries<V>>, events: seq<Event<V>>, i: nat)
    requires |states| == |events| + 1 && states[0] == map[]
    requires forall j :: 0 <= j < |events| ==> Step(cfg, states[j], events[j], states[j + 1])
    requires i < |states|
    ensures |states[i]| <= if cfg.maxSize < 1 then 1 else cfg.maxSize
  {
    if 0 < i {
      SizeBounded(cfg, states, events, i - 1);
      var entries, e, entries' := states[i - 1], events[i - 1], states[i];
      assert Step(cfg, entries, e, entries');
      if e.op.Set? {
        SetKeepsSize(entries, cfg.maxSize, e.op.order, e.op.key, e.op.data, e.now + cfg.ttl);
      } else {
        SubmapCardinality(entries', entries);
      }
    }
  }

  lemma SubmapCardinality<V>(a: Entries<V>, b: Entries<V>)
    requires a.Keys <= b.Keys
    ensures |a| <= |b|
  {
    SubsetCardinality(a.Keys, b.Keys);
    assert |a.Keys| == |a| && |b.Keys| == |b|;
  }

  lemma {:induction false} RunIsOrderly<V(!new)>(cfg: Config, states: seq<Entries<V>>, events: seq<Event<V>>, i: nat)
    requires Run(cfg, states, events) && NamedKeys(events) && 0 < i < |states|
    ensures Orderly(states[i], events[i - 1].now + cfg.ttl)
  {
    if 1 < i {
      RunIsOrderly(cfg, states, events, i - 1);
    }
    assert Step(cfg, states[i - 1], events[i - 1], states[i]);
  }

  function Younger<V>(entries: Entries<V>, expiresAt: Time): set<Key> {
    set k | k in entries && entries[k].expiresAt > expiresAt
  }

  /** `key` holds `data`, and at most `sets` entries are younger. */
  predicate Retained<V(==)>(entries: Entries<V>, key: Key, entry: Entry<V>, sets: nat) {
    key in entries && entries[key] == entry && |Younger(entries, entry.expiresAt)| <= sets
  }

  lemma EvictedIsOlderThanAllOthers<V(!new)>(entries: Entries<V>, order: seq<Key>, latest: Time)
    requires Enumerates(order, entries) && Orderly(entries, latest) && entries != map[]
    ensures Scan(entries, order) in entries
    ensures |Younger(entries, entries[Scan(entries, order)].expiresAt)| == |entries| - 1
  {
    EvictsOldestIff(entries);
    var key := Scan(entries, order);
    assert Oldest(entries, key);
    assert entries.Keys == Younger(entries, entries[key].expiresAt) + {key};
    assert |entries.Keys| == |entries|;
  }

  lemma SetRetains<V(!new)>(cfg: Config, entries: Entries<V>, e: Event<V>, entries': Entries<V>, key: Key,
                     entry: Entry<V>, sets: nat, latest: Time)
    requires Step(cfg, entries, e, entries') && e.op.Set? && e.op.key != key
    requires Orderly(entries, latest) && Retained(entries, key, entry, sets) && sets + 1 < cfg.maxSize
    ensures Retained(entries', key, entry, sets + 1)
  {
    var younger := Younger(entries, entry.expiresAt);
    EvictedIsOlderThanAllOthers(entries, e.op.order, latest);
    var younger' := Younger(entries', entry.expiresAt);
    SubsetCardinality(younger', younger + {e.op.key});
  }

  lemma OtherOpsRetain<V(!new)>(cfg: Config, entries: Entries<V>, e: Event<V>, entries': Entries<V>, key: Key,
                         entry: Entry<V>, sets: nat)
    requires Step(cfg, entries, e, entries') && !e.op.Set? && e.op != Delete(key)
    requires e.now <= entry.expiresAt && Retained(entries, key, entry, sets)
    ensures Retained(entries', key, entry, sets)
  {
    var younger, younger' := Younger(entries, entry.expiresAt), Younger(entries', entry.expiresAt);
    SubsetCardinality(younger', younger);
  }

  /** One step that neither deletes nor sets the key, before the entry expires. */
  lemma StepRetains<V(!new)>(cfg: Config, entries: Entries<V>, e: Event<V>, entries': Entries<V>, key: Key,
                      entry: Entry<V>, sets: nat, latest: Time)
    requires Step(cfg, entries, e, entries') && e.op != Delete(key) && (e.op.Set? ==> e.op.key != key)
    requires e.now <= entry.expiresAt && Orderly(entries, latest) && Retained(entries, key, entry, sets)
    requires e.op.Set? ==> sets + 1 < cfg.maxSize
    ensures Retained(entries', key, entry, sets + if e.op.Set? then 1 else 0)
  {
    if e.op.Set? {
      SetRetains(cfg, entries, e, entries', key, entry, sets, latest);
    } else {
      OtherOpsRetain(cfg, entries, e, entries', key, entry, sets);
    }
  }

  lemma FreshlySetIsRetained<V(!new)>(cfg: Config, entries: Entries<V>, e: Event<V>, entries': Entries<V>)
    requires Step(cfg, entries, e, entries') && e.op.Set? && Orderly(entries', e.now + cfg.ttl)
    ensures Retained(entries', e.op.key, Entry(e.op.data, e.now + cfg.ttl), 0)
  {
    assert Younger(entries', e.now + cfg.ttl) == {};
  }

  lemma SetCountStep<V>(events: seq<Event<V>>, i: nat, j: nat)
    requires i < j <= |events|
    ensures SetCount(events[i..j]) == SetCount(events[i..j - 1]) + if events[j - 1].op.Set? then 1 else 0
  {
    assert events[i..j][..j - i - 1] == events[i..j - 1];
  }

  /** Between the events `i` and `j` the key is neither deleted nor set. */
  ghost predicate LeftAlone<V(!new)>(events: seq<Event<V>>, key: Key, i: nat, j: nat) {
    forall m :: i < m < j && m < |events|
                ==> events[m].op != Delete(key) && (events[m].op.Set? ==> events[m].op.key != key)
  }

  /** The clock between two neighbouring events, and the step between their states. */
  lemma RunStep<V(!new)>(cfg: Config, states: seq<Entries<V>>, events: seq<Event<V>>, j: nat)
    requires Run(cfg, states, events) && 0 < j < |states|
    ensures Step(cfg, states[j - 1], events[j - 1], states[j])
    ensures 1 < j ==> events[j - 2].now <= events[j - 1].now
  {
  }

  lemma RetainedIsRead<V>(entries: Entries<V>, key: Key, entry: Entry<V>, sets: nat)
    requires Retained(entries, key, entry, sets)
    ensures forall now :: now <= entry.expiresAt ==> Lookup(entries, key, now) == Some(entry.data)
  {
  }

  /** Clause by clause, what the next step needs of the run. */
  lemma RetainedStep<V(!new)>(cfg: Config, states: seq<Entries<V>>, events: seq<Event<V>>, j: nat, key: Key,
                       entry: Entry<V>, sets: nat)
    requires Run(cfg, states, events) && NamedKeys(events) && 1 < j < |states|
    requires events[j - 1].op != Delete(key)
    requires events[j - 1].op.Set? ==> events[j - 1].op.key != key && sets + 1 < cfg.maxSize
    requires events[j - 1].now <= entry.expiresAt && Retained(states[j - 1], key, entry, sets)
    ensures Retained(states[j], key, entry, sets + if events[j - 1].op.Set? then 1 else 0)
  {
    var entries, e, entries' := states[j - 1], events[j - 1], states[j];
    RunStep(cfg, states, events, j);
    RunIsOrderly(cfg, states, events, j - 1);
    var latest := events[j - 2].now + cfg.ttl;
    StepRetains(cfg, entries, e, entries', key, entry, sets, latest);
  }

  /** Fewer than `maxSize` Sets after an entry was Set leave it in place with its data until it
      expires or is deleted, whatever else happened and in whatever order the evictions saw the map. */
  lemma {:induction false} EntryRetained<V(!new)>(cfg: Config, states: seq<Entries<V>>, events: seq<Event<V>>,
                                           i: nat, j: nat)
    requires Run(cfg, states, events) && NamedKeys(events)
    requires i < j < |states| && events[i].op.Set? && LeftAlone(events, events[i].op.key, i, j)
    requires SetCount(events[i + 1..j]) < cfg.maxSize
    requires events[j - 1].now <= events[i].now + cfg.ttl
    ensures Retained(states[j], events[i].op.key, Entry(events[i].op.data, events[i].now + cfg.ttl),
                     SetCount(events[i + 1..j]))
    decreases j
  {
    var key, entry := events[i].op.key, Entry(events[i].op.data, events[i].now + cfg.ttl);
    RunStep(cfg, states, events, j);
    if i + 1 == j {
      RunIsOrderly(cfg, states, events, j);
      FreshlySetIsRetained(cfg, states[i], events[i], states[j]);
    } else {
      SetCountStep(events, i + 1, j);
      EntryRetained(cfg, states, events, i, j - 1);
      RetainedStep(cfg, states, events, j, key, entry, SetCount(events[i + 1..j - 1]));
    }
  }

  /** So a Get by then returns that data. */
  lemma EntryRetrievable<V(!new)>(cfg: Config, states: seq<Entries<V>>, events: seq<Event<V>>, i: nat, j: nat)
    requires Run(cfg, states, events) && NamedKeys(events)
    requires i < j < |states| && events[i].op.Set? && LeftAlone(events, events[i].op.key, i, j)
    requires SetCount(events[i + 1..j]) < cfg.maxSize
    requires events[j - 1].now <= events[i].now + cfg.ttl
    ensures forall now :: now <= events[i].now + cfg.ttl
                          ==> Lookup(states[j], events[i].op.key, now) == Some(events[i].op.data)
  {
    EntryRetained(cfg, states, events, i, j);
    RetainedIsRead(states[j], events[i].op.key, Entry(events[i].op.data, events[i].now + cfg.ttl),
                   SetCount(events[i + 1..j]));
  }

  /** Conversely, whatever can be read was Set not longer than `ttl` ago, and neither deleted nor
      Set to anything else since. */
  lemma {:induction false} ReadWasSet<V(!new)>(cfg: Config, states: seq<Entries<V>>, events: seq<Event<V>>, j: nat,
                                               key: Key) returns (i: nat)
    requires Run(cfg, states, events) && j < |states| && key in states[j]
    ensures i < j && events[i].op.Set? && events[i].op.key == key && LeftAlone(events, key, i, j)
    ensures forall now :: Lookup(states[j], key, now)
                          == if now <= events[i].now + cfg.ttl then Some(events[i].op.data) else None
  {
    var last := j - 1;
    var e := events[last];
    assert Step(cfg, states[last], e, states[j]);
    if e.op.Set? && e.op.key == key {
      i := last;
    } else {
      assert key in states[last] && states[last][key] == states[j][key] && e.op != Delete(key);
      i := ReadWasSet(cfg, states, events, last, key);
      assert forall now :: Lookup(states[j], key, now) == Lookup(states[last], key, now);
    }
  }
}
