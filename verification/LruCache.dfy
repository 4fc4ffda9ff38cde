/** A cache that evicts the entry with the oldest access time and logs its writes, beside a
    cache that keeps a list in the order of use. */
module LruCache {
  import opened Options

  // ---- The order of use ----

  predicate NoRepeats(s: seq<string>) {
    forall i, j :: 0 <= i < j < |s| ==> s[i] != s[j]
  }

  function Without(order: seq<string>, key: string): (r: seq<string>)
    ensures |r| <= |order| && forall k :: k in r <==> k in order && k != key
  {
    if order == [] then []
    else if order[0] == key then Without(order[1..], key)
    else [order[0]] + Without(order[1..], key)
  }

  /** `key` becomes the most recently used, which stands last. */
  function Touched(order: seq<string>, key: string): seq<string> {
    Without(order, key) + [key]
  }

  /** Make room before the insertion, as the logging cache does. */
  function EvictThenInsert(order: seq<string>, key: string, limit: nat): seq<string> {
    if key in order then Touched(order, key)
    else (if |order| >= limit && order != [] then order[1..] else order) + [key]
  }

  /** Insert and then shorten, as the list cache does. */
  function InsertThenEvict(order: seq<string>, key: string, limit: nat): seq<string> {
    var o := Touched(order, key);
    if |o| > limit then o[1..] else o
  }

  lemma {:induction false} WithoutAbsent(order: seq<string>, key: string)
    requires key !in order
    ensures Without(order, key) == order
  {
    if order != [] {
      WithoutAbsent(order[1..], key);
    }
  }

  lemma {:induction false} WithoutPresent(order: seq<string>, key: string)
    requires NoRepeats(order)
    ensures NoRepeats(Without(order, key)) && |Without(order, key)| == if key in order then |order| - 1 else |order|
  {
    if order != [] {
      var rest := order[1..];
      assert forall i :: 0 <= i < |rest| ==> rest[i] == order[i + 1];
      WithoutPresent(rest, key);
      var w := Without(rest, key);
      forall i | 0 <= i < |w| ensures w[i] != order[0] {
        assert w[i] in rest;
      }
      assert key in order <==> order[0] == key || key in rest;
      assert order[0] == key ==> key !in rest;
    }
  }

  /** Both ways of eviction keep the same keys in the same order, exactly as long as the
      cache may hold anything at all. */
  lemma EvictionsAgreeExactly(limit: nat)
    ensures (forall order, key :: NoRepeats(order) && |order| <= limit ==>
               EvictThenInsert(order, key, limit) == InsertThenEvict(order, key, limit)) <==> limit >= 1
  {
    if limit >= 1 {
      forall order, key | NoRepeats(order) && |order| <= limit
        ensures EvictThenInsert(order, key, limit) == InsertThenEvict(order, key, limit)
      {
        WithoutPresent(order, key);
        if key !in order {
          WithoutAbsent(order, key);
        }
      }
    } else {
      assert EvictThenInsert([], "k", 0) == ["k"];
      assert Touched([], "k") == ["k"] && InsertThenEvict([], "k", 0) == [];
      assert NoRepeats([]);
    }
  }

  // ---- Entries and the log ----

  datatype CacheEntry = CacheEntry(value: string, expiresAt: Option<nat>, accessedAt: nat) {
    predicate IsExpired(now: nat) {
      expiresAt.Some? && now >= expiresAt.value
    }
  }

  datatype AofRecord =
    | SetRecord(key: string, value: string, ttl: Option<nat>)
    | DelRecord(key: string)
    | ExpireRecord(key: string, ttlSecs: nat)

  /** What a record does to the values. */
  function Applied(values: map<string, string>, r: AofRecord): map<string, string> {
    match r
    case SetRecord(key, value, _) => values[key := value]
    case DelRecord(key) => values - {key}
    case ExpireRecord(_, _) => values
  }

  /** The values that a replay of the log ends with. */
  function Replay(log: seq<AofRecord>): map<string, string> {
    if log == [] then map[] else Applied(Replay(log[..|log| - 1]), log[|log| - 1])
  }

  /** The keys that a replay leaves, in the order in which they were last set. */
  function ReplayOrder(log: seq<AofRecord>): seq<string> {
    if log == [] then [] else AppliedOrder(ReplayOrder(log[..|log| - 1]), log[|log| - 1])
  }

  function AppliedOrder(order: seq<string>, r: AofRecord): seq<string> {
    match r
    case SetRecord(key, _, _) => Touched(order, key)
    case DelRecord(key) => Without(order, key)
    case ExpireRecord(_, _) => order
  }

  lemma {:induction false} ReplayOneMore(log: seq<AofRecord>, r: AofRecord)
    ensures Replay(log + [r]) == Applied(Replay(log), r)
  {
    assert (log + [r])[..|log|] == log;
  }

  /** The time to live is counted from when the record is replayed. */
  predicate ReplayedDeadline(r: AofRecord, now: nat, expiresAt: Option<nat>) {
    && (r.SetRecord? && r.ttl.Some? ==> expiresAt == Some(now + r.ttl.value))
    && (r.SetRecord? && r.ttl.None? ==> expiresAt == None)
    && (r.ExpireRecord? ==> expiresAt == Some(now + r.ttlSecs))
  }

  /** So does the last record of every key. */
  ghost predicate DeadlinesReplayed(log: seq<AofRecord>, now: nat, store: map<string, CacheEntry>) {
    forall i :: 0 <= i < |log| && log[i].key in store && (forall j :: i < j < |log| ==> log[j].key != log[i].key) ==>
      ReplayedDeadline(log[i], now + i, store[log[i].key].expiresAt)
  }

  function Values(store: map<string, CacheEntry>): map<string, string> {
    map k | k in store :: store[k].value
  }

  ghost predicate Extends(big: map<string, string>, small: map<string, string>) {
    forall k :: k in small ==> k in big && big[k] == small[k]
  }

  /** `order` lists the keys, each once, in the order of their access times, all of them
      before `clock`. */
  ghost predicate InOrder(store: map<string, CacheEntry>, order: seq<string>, clock: nat) {
    && NoRepeats(order) && (forall k :: k in order <==> k in store)
    && (forall i :: 0 <= i < |order| ==> order[i] in store && store[order[i]].accessedAt < clock)
    && (forall i, j :: 0 <= i < j < |order| ==> store[order[i]].accessedAt < store[order[j]].accessedAt)
  }

  lemma {:induction false} WithoutInOrder(store: map<string, CacheEntry>, order: seq<string>, clock: nat, key: string)
    requires InOrder(store, order, clock)
    ensures InOrder(store - {key}, Without(order, key), clock)
  {
    WithoutPresent(order, key);
    var r := Without(order, key);
    forall i, j | 0 <= i < j < |r| ensures store[r[i]].accessedAt < store[r[j]].accessedAt {
      WithoutMonotone(order, key, i, j);
    }
    forall i | 0 <= i < |r| ensures r[i] in store - {key} && store[r[i]].accessedAt < clock {
      assert r[i] in r;
    }
  }

  /** What is left keeps its order. */
  lemma {:induction false} WithoutMonotone(order: seq<string>, key: string, i: nat, j: nat)
    requires i < j < |Without(order, key)|
    ensures exists a, b :: 0 <= a < b < |order| && order[a] == Without(order, key)[i] && order[b] == Without(order, key)[j]
    decreases |order|
  {
    var rest := order[1..];
    assert forall k :: 0 <= k < |rest| ==> rest[k] == order[k + 1];
    if order[0] == key {
      WithoutMonotone(rest, key, i, j);
      var a, b :| 0 <= a < b < |rest| && rest[a] == Without(rest, key)[i] && rest[b] == Without(rest, key)[j];
      assert order[a + 1] == Without(order, key)[i] && order[b + 1] == Without(order, key)[j];
    } else if i > 0 {
      WithoutMonotone(rest, key, i - 1, j - 1);
      var a, b :| 0 <= a < b < |rest| && rest[a] == Without(rest, key)[i - 1] && rest[b] == Without(rest, key)[j - 1];
      assert order[a + 1] == Without(order, key)[i] && order[b + 1] == Without(order, key)[j];
    } else {
      assert Without(order, key)[j] in rest;
      var b :| 0 <= b < |rest| && rest[b] == Without(order, key)[j];
      assert order[0] == Without(order, key)[0] && order[b + 1] == Without(order, key)[j];
    }
  }

  lemma TouchedInOrder(store: map<string, CacheEntry>, order: seq<string>, clock: nat, key: string, entry: CacheEntry)
    requires InOrder(store, order, clock) && entry.accessedAt == clock
    ensures InOrder(store[key := entry], Touched(order, key), clock + 1)
  {
    WithoutInOrder(store, order, clock, key);
    var w := Without(order, key);
    var r := w + [key];
    assert forall i :: 0 <= i < |w| ==> w[i] in w;
  }

  lemma {:induction false} CountKeys<V>(store: map<string, V>, order: seq<string>)
    requires NoRepeats(order) && forall k :: k in order <==> k in store
    ensures |store| == |order|
    decreases |order|
  {
    if order == [] {
      assert store == map[];
    } else {
      var last := |order| - 1;
      var k := order[last];
      assert order == order[..last] + [k];
      CountKeys(store - {k}, order[..last]);
      assert store.Keys == (store - {k}).Keys + {k};
      assert |store| == |store.Keys| && |store - {k}| == |(store - {k}).Keys|;
    }
  }

  lemma FirstKey(store: map<string, CacheEntry>, order: seq<string>, clock: nat, i: nat)
    requires InOrder(store, order, clock) && i < |order|
    ensures order[0] in store && order[i] in store
    ensures i > 0 ==> store[order[0]].accessedAt < store[order[i]].accessedAt
  {
  }

  lemma OrderFacts(store: map<string, CacheEntry>, order: seq<string>, clock: nat)
    requires InOrder(store, order, clock)
    ensures NoRepeats(order) && forall k :: k in order <==> k in store
    ensures |store| == |order| && (store == map[] <==> order == [])
  {
    CountKeys(store, order);
    assert store == map[] ==> |store| == 0;
    assert |store| == 0 ==> store.Keys == {};
  }

  /** The oldest entry is the first in the order of use. */
  lemma OldestIsFirst(store: map<string, CacheEntry>, order: seq<string>, clock: nat, key: string)
    requires InOrder(store, order, clock) && key in store
    requires forall k :: k in store ==> store[key].accessedAt <= store[k].accessedAt
    ensures order != [] && order[0] == key
    ensures InOrder(store - {key}, order[1..], clock)
  {
    hide InOrder;
    OrderFacts(store, order, clock);
    var i :| 0 <= i < |order| && order[i] == key;
    FirstKey(store, order, clock, i);
    var rest := order[1..];
    forall j | 0 <= j < |rest| ensures rest[j] != key {
      assert rest[j] == order[j + 1];
    }
    WithoutAbsent(rest, key);
    WithoutInOrder(store, order, clock, key);
  }

  // ---- The log against the store ----

  lemma SetLogged(values: map<string, string>, store: map<string, CacheEntry>, key: string, entry: CacheEntry, ttl: Option<nat>)
    requires Extends(values, Values(store))
    ensures Extends(Applied(values, SetRecord(key, entry.value, ttl)), Values(store[key := entry]))
    ensures Values(store[key := entry]) == Values(store)[key := entry.value]
  {
  }

  lemma Removed(values: map<string, string>, store: map<string, CacheEntry>, key: string)
    requires Extends(values, Values(store))
    ensures Extends(values, Values(store - {key})) && Extends(Applied(values, DelRecord(key)), Values(store - {key}))
    ensures Values(store - {key}) == Values(store) - {key}
  {
  }

  lemma SameValue(store: map<string, CacheEntry>, key: string, entry: CacheEntry)
    requires key in store && entry.value == store[key].value
    ensures Values(store[key := entry]) == Values(store)
  {
  }

  /** The log, if there is one, replays to at least the live values. */
  ghost predicate Recorded(logged: bool, log: seq<AofRecord>, store: map<string, CacheEntry>) {
    if logged then Extends(Replay(log), Values(store)) else log == []
  }

  lemma SetRecorded(logged: bool, log: seq<AofRecord>, store: map<string, CacheEntry>, key: string, entry: CacheEntry, ttl: Option<nat>)
    requires Recorded(logged, log, store)
    ensures Recorded(logged, if logged then log + [SetRecord(key, entry.value, ttl)] else log, store[key := entry])
  {
    hide Replay, Extends, Values, Applied;
    if logged {
      SetLogged(Replay(log), store, key, entry, ttl);
      ReplayOneMore(log, SetRecord(key, entry.value, ttl));
    }
  }

  /** An entry may go with or without a record of that. */
  lemma DropRecorded(logged: bool, log: seq<AofRecord>, store: map<string, CacheEntry>, key: string)
    requires Recorded(logged, log, store)
    ensures Recorded(logged, log, store - {key})
    ensures logged ==> Recorded(logged, log + [DelRecord(key)], store - {key})
  {
    hide Replay, Extends, Values, Applied;
    if logged {
      Removed(Replay(log), store, key);
      ReplayOneMore(log, DelRecord(key));
    }
  }

  lemma SameRecorded(logged: bool, log: seq<AofRecord>, store: map<string, CacheEntry>, key: string, entry: CacheEntry)
    requires Recorded(logged, log, store) && key in store && entry.value == store[key].value
    ensures Recorded(logged, log, store[key := entry])
  {
    hide Replay, Extends, Values;
    SameValue(store, key, entry);
  }

  lemma ExpireRecorded(logged: bool, log: seq<AofRecord>, store: map<string, CacheEntry>, key: string, ttl: nat)
    requires Recorded(logged, log, store)
    ensures logged ==> Recorded(logged, log + [ExpireRecord(key, ttl)], store)
  {
    hide Replay, Extends, Values;
    ReplayOneMore(log, ExpireRecord(key, ttl));
  }

  class Cache {
    const maxKeys: nat
    /** Whether there is a log file; a cache in memory has none. */
    const logged: bool
    var store: map<string, CacheEntry>
    var log: seq<AofRecord>

    /** The keys in the order of use, and a time after every access so far. */
    ghost var order: seq<string>
    ghost var clock: nat

    ghost predicate Valid()
      reads this
    {
      InOrder(store, order, clock) && Recorded(logged, log, store)
    }

    constructor InMemory(maxKeys: nat)
      ensures Valid() && this.maxKeys == maxKeys && !logged
      ensures store == map[] && order == [] && log == [] && clock == 0
    {
      this.maxKeys, logged := maxKeys, false;
      store, log, order, clock := map[], [], [], 0;
    }

    /** Insert or overwrite at time `now`, evicting before when a new key finds no room. */
    method Set(key: string, value: string, ttl: Option<nat>, now: nat)
      requires Valid() && clock <= now
      modifies this
      ensures Valid() && clock == now + 1
      ensures order == EvictThenInsert(old(order), key, maxKeys)
      ensures key in store && store[key] == CacheEntry(value, if ttl.Some? then Some(now + ttl.value) else None, now)
      ensures forall k :: k in store && k != key ==> k in old(store) && store[k] == old(store)[k]
      ensures log == old(log) + if logged then [SetRecord(key, value, ttl)] else []
    {
      hide InOrder, Replay, Without, Touched, EvictThenInsert, Recorded, NoRepeats;
      LaterClock(store, order, clock, now);
      MakeRoom(key);
      var expiresAt := if ttl.Some? then Some(now + ttl.value) else None;
      var entry := CacheEntry(value, expiresAt, now);
      ghost var evicted := order;
      LaterClock(store, order, clock, now);
      TouchedInOrder(store, order, now, key, entry);
      SetRecorded(logged, log, store, key, entry, ttl);
      store := store[key := entry];
      order, clock := Touched(order, key), now + 1;
      if logged {
        log := log + [SetRecord(key, value, ttl)];
      }
      InsertedOrder(old(order), evicted, key, maxKeys);
    }

    method MakeRoom(key: string)
      requires Valid()
      modifies this`store, this`order
      ensures Valid()
      ensures order == if key !in old(order) && |old(order)| >= maxKeys && old(order) != [] then old(order)[1..] else old(order)
      ensures forall k :: k in store ==> k in old(store) && store[k] == old(store)[k]
    {
      hide InOrder, Recorded, NoRepeats;
      OrderFacts(store, order, clock);
      if key !in store && |store| >= maxKeys {
        EvictLru();
      }
    }

    /** Remove the entry with the oldest access time, by a scan in any order. */
    method EvictLru()
      requires Valid()
      modifies this`store, this`order
      ensures Valid()
      ensures old(store) == map[] ==> store == map[] && order == []
      ensures old(store) != map[] ==>
                && old(order) != [] && order == old(order)[1..]
                && old(order)[0] in old(store) && store == old(store) - {old(order)[0]}
    {
      hide InOrder, Recorded;
      OrderFacts(store, order, clock);
      var lru := OldestKey();
      if lru.Some? {
        OldestIsFirst(store, order, clock, lru.value);
        DropRecorded(logged, log, store, lru.value);
        order := order[1..];
        store := store - {lru.value};
      }
    }

    /** The key with the least access time. */
    method OldestKey() returns (lru: Option<string>)
      ensures lru.None? <==> store == map[]
      ensures lru.Some? ==> lru.value in store && forall k :: k in store ==> store[lru.value].accessedAt <= store[k].accessedAt
    {
      var keys := store.Keys;
      lru := None;
      while keys != {}
        invariant keys <= store.Keys && (lru.None? ==> keys == store.Keys)
        invariant lru.Some? ==> lru.value in store && forall k :: k in store.Keys - keys ==> store[lru.value].accessedAt <= store[k].accessedAt
        decreases |keys|
      {
        var k :| k in keys;
        keys := keys - {k};
        if lru.None? || store[k].accessedAt < store[lru.value].accessedAt {
          lru := Some(k);
        }
      }
    }

    method Get(key: string, now: nat) returns (r: Option<string>)
      requires Valid() && clock <= now
      modifies this`store, this`order, this`clock
      ensures Valid() && clock == now + 1
      ensures r.Some? <==> key in old(store) && (old(store)[key].expiresAt.None? || now < old(store)[key].expiresAt.value)
      ensures r.Some? ==> r.value == old(store)[key].value
      ensures order == if key !in old(store) then old(order)
                       else if r.None? then Without(old(order), key) else Touched(old(order), key)
      ensures store == if key !in old(store) then old(store)
                       else if r.None? then old(store) - {key}
                       else old(store)[key := old(store)[key].(accessedAt := now)]
    {
      hide InOrder, Without, Recorded;
      LaterClock(store, order, clock, now);
      LaterClock(store, order, clock, now + 1);
      clock := now + 1;
      if key !in store { return None; }
      var entry := store[key];
      if entry.IsExpired(now) {
        WithoutInOrder(store, order, clock, key);
        DropRecorded(logged, log, store, key);
        store := store - {key};
        order := Without(order, key);
        return None;
      }
      TouchedInOrder(store, order, now, key, entry.(accessedAt := now));
      SameRecorded(logged, log, store, key, entry.(accessedAt := now));
      store := store[key := entry.(accessedAt := now)];
      order := Touched(order, key);
      r := Some(entry.value);
    }

    /** Delete; only the deletion of a live entry is logged. */
    method Del(key: string, now: nat) returns (existed: bool)
      requires Valid()
      modifies this
      ensures Valid() && clock == old(clock)
      ensures existed <==> key in old(store) && (old(store)[key].expiresAt.None? || now < old(store)[key].expiresAt.value)
      ensures store == old(store) - {key} && order == Without(old(order), key)
      ensures log == old(log) + if existed && logged then [DelRecord(key)] else []
    {
      hide InOrder, Without, Recorded;
      WithoutInOrder(store, order, clock, key);
      DropRecorded(logged, log, store, key);
      existed := key in store && !store[key].IsExpired(now);
      store := store - {key};
      order := Without(order, key);
      if existed && logged {
        log := log + [DelRecord(key)];
      }
    }

    /** A new deadline for a live entry. */
    method Expire(key: string, ttl: nat, now: nat) returns (found: bool)
      requires Valid()
      modifies this
      ensures Valid() && clock == old(clock) && order == old(order)
      ensures found <==> key in old(store) && (old(store)[key].expiresAt.None? || now < old(store)[key].expiresAt.value)
      ensures store == if found then old(store)[key := old(store)[key].(expiresAt := Some(now + ttl))] else old(store)
      ensures log == old(log) + if found && logged then [ExpireRecord(key, ttl)] else []
    {
      hide Without, Recorded, InOrder;
      found := key in store && !store[key].IsExpired(now);
      if found {
        SameRecorded(logged, log, store, key, store[key].(expiresAt := Some(now + ttl)));
        NewDeadline(store, order, clock, key, store[key].(expiresAt := Some(now + ttl)));
        ExpireRecorded(logged, log, store[key := store[key].(expiresAt := Some(now + ttl))], key, ttl);
        store := store[key := store[key].(expiresAt := Some(now + ttl))];
        if logged {
          log := log + [ExpireRecord(key, ttl)];
        }
      }
    }

    /** Open a log: replay it, entry by entry, each stamped with the next time. */
    constructor Open(log: seq<AofRecord>, maxKeys: nat, now: nat)
      ensures Valid() && this.maxKeys == maxKeys && logged && this.log == log
      ensures Values(store) == Replay(log) && order == ReplayOrder(log) && clock == now + |log|
      ensures DeadlinesReplayed(log, now, store)
    {
      hide InOrder, Applied, AppliedOrder, Values, Recorded, DeadlinesReplayed;
      this.maxKeys, logged := maxKeys, true;
      this.log := log;
      store, order, clock := map[], [], now;
      new;
      assert log[..0] == [];
      NothingReplayed(now);
      for i := 0 to |log|
        invariant this.log == log
        invariant InOrder(store, order, clock) && clock == now + i
        invariant Values(store) == Replay(log[..i]) && order == ReplayOrder(log[..i])
        invariant DeadlinesReplayed(log[..i], now, store)
      {
        assert log[..i + 1][..i] == log[..i];
        ghost var before := store;
        ReplayStep(log[i], now + i);
        OneReplayed(log[..i], log[i], now, before, store);
        assert log[..i] + [log[i]] == log[..i + 1];
      }
      assert log[..|log|] == log;
      OpenRecorded(log, store);
    }

    method ReplayStep(r: AofRecord, now: nat)
      requires InOrder(store, order, clock) && clock == now
      modifies this`store, this`order, this`clock
      ensures InOrder(store, order, clock) && clock == now + 1
      ensures Values(store) == Applied(Values(old(store)), r) && order == AppliedOrder(old(order), r)
      ensures r.key in store ==> ReplayedDeadline(r, now, store[r.key].expiresAt)
      ensures forall k :: k in store && k != r.key ==> k in old(store) && store[k] == old(store)[k]
    {
      hide Without, InOrder, Values;
      LaterClock(store, order, clock, now + 1);
      clock := now + 1;
      match r {
        case SetRecord(key, value, ttl) =>
          var entry := CacheEntry(value, if ttl.Some? then Some(now + ttl.value) else None, now);
          TouchedInOrder(store, order, now, key, entry);
          SetLogged(Values(store), store, key, entry, ttl);
          store := store[key := entry];
          order := Touched(order, key);
        case DelRecord(key) =>
          WithoutInOrder(store, order, now + 1, key);
          Removed(Values(store), store, key);
          store := store - {key};
          order := Without(order, key);
        case ExpireRecord(key, ttl) =>
          if key in store {
            SameValue(store, key, store[key].(expiresAt := Some(now + ttl)));
            NewDeadline(store, order, now + 1, key, store[key].(expiresAt := Some(now + ttl)));
            store := store[key := store[key].(expiresAt := Some(now + ttl))];
          }
      }
    }
  }

  lemma NothingReplayed(now: nat)
    ensures InOrder(map[], [], now) && Values(map[]) == map[] && DeadlinesReplayed([], now, map[])
  {
  }

  lemma OneReplayed(log: seq<AofRecord>, r: AofRecord, now: nat, before: map<string, CacheEntry>, after: map<string, CacheEntry>)
    requires DeadlinesReplayed(log, now, before)
    requires r.key in after ==> ReplayedDeadline(r, now + |log|, after[r.key].expiresAt)
    requires forall k :: k in after && k != r.key ==> k in before && after[k] == before[k]
    ensures DeadlinesReplayed(log + [r], now, after)
  {
    hide ReplayedDeadline;
    var log' := log + [r];
    forall i | 0 <= i < |log'| && log'[i].key in after && (forall j :: i < j < |log'| ==> log'[j].key != log'[i].key)
      ensures ReplayedDeadline(log'[i], now + i, after[log'[i].key].expiresAt)
    {
      if i < |log| {
        assert log'[|log|] == r && log'[i] == log[i];
        assert forall j :: i < j < |log| ==> log'[j].key != log'[i].key && log'[j] == log[j];
      }
    }
  }

  lemma OpenRecorded(log: seq<AofRecord>, store: map<string, CacheEntry>)
    requires Values(store) == Replay(log)
    ensures Recorded(true, log, store)
  {
  }

  lemma LaterClock(store: map<string, CacheEntry>, order: seq<string>, clock: nat, later: nat)
    requires InOrder(store, order, clock) && clock <= later
    ensures InOrder(store, order, later) && forall k :: k in order <==> k in store
  {
  }

  lemma NewDeadline(store: map<string, CacheEntry>, order: seq<string>, clock: nat, key: string, entry: CacheEntry)
    requires InOrder(store, order, clock) && key in store && entry.accessedAt == store[key].accessedAt
    ensures InOrder(store[key := entry], order, clock)
  {
  }

  lemma InsertedOrder(order: seq<string>, evicted: seq<string>, key: string, limit: nat)
    requires evicted == if key !in order && |order| >= limit && order != [] then order[1..] else order
    ensures Touched(evicted, key) == EvictThenInsert(order, key, limit)
  {
    if key !in order {
      WithoutAbsent(evicted, key);
    }
  }

  // ---- The list cache ----

  class EmbeddingCache {
    const maxSize: nat
    var entries: map<string, string>
    /** The keys of the ordered dictionary, most recently used last. */
    var order: seq<string>
    var hits: nat
    var misses: nat

    ghost predicate Valid()
      reads this
    {
      NoRepeats(order) && |order| <= maxSize && forall k :: k in order <==> k in entries
    }

    constructor (maxSize: nat)
      ensures Valid() && this.maxSize == maxSize && entries == map[] && order == []
    {
      this.maxSize := maxSize;
      entries, order, hits, misses := map[], [], 0, 0;
    }

    method Get(key: string) returns (r: Option<string>)
      requires Valid()
      modifies this
      ensures Valid() && entries == old(entries)
      ensures r == if key in entries then Some(entries[key]) else None
      ensures order == if key in entries then Touched(old(order), key) else old(order)
      ensures hits + misses == old(hits + misses) + 1 && (hits == old(hits) <==> r == None)
    {
      WithoutPresent(order, key);
      if key in entries {
        order := Touched(order, key);
        hits := hits + 1;
        return Some(entries[key]);
      }
      misses := misses + 1;
      r := None;
    }

    method Put(key: string, value: string)
      requires Valid()
      modifies this`entries, this`order
      ensures Valid() && order == InsertThenEvict(old(order), key, maxSize)
      ensures forall k :: k in entries ==> if k == key then entries[k] == value else k in old(entries) && entries[k] == old(entries)[k]
    {
      WithoutPresent(order, key);
      WithoutAbsentIf(order, key);
      if key in entries {
        order := Touched(order, key);
      } else {
        order := order + [key];
      }
      entries := entries[key := value];
      if |order| > maxSize {
        var oldest := order[0];
        FirstDropped(order);
        order := order[1..];
        entries := entries - {oldest};
      }
    }
  }

  lemma WithoutAbsentIf(order: seq<string>, key: string)
    ensures key !in order ==> Without(order, key) == order
  {
    if key !in order {
      WithoutAbsent(order, key);
    }
  }

  lemma FirstDropped(order: seq<string>)
    requires NoRepeats(order) && order != []
    ensures NoRepeats(order[1..]) && forall k :: k in order[1..] <==> k in order && k != order[0]
  {
    assert order == [order[0]] + order[1..];
    assert forall i :: 0 <= i < |order[1..]| ==> order[1..][i] == order[i + 1];
  }
}
