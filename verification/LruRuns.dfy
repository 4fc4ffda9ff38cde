/** Runs of the caches: what is kept, what is evicted, and what a log replays to. */
module LruRuns {
  import opened Options
  import opened LruCache

  /** Operations without a time to live. */
  datatype Op = PutOp(key: string, value: string) | GetOp(key: string) | DelOp(key: string)

  datatype Answer = Stored | Looked(value: Option<string>) | Deleted(existed: bool)

  // ---- The specification ----

  /** The live values in the order of their use, and those evicted and not put again. */
  datatype Recency = Recency(order: seq<string>, live: map<string, string>, lost: map<string, string>)

  const NOTHING := Recency([], map[], map[])

  /** The key that has to make room for `key`. */
  function Victims(order: seq<string>, key: string, limit: nat): set<string> {
    if key !in order && |order| >= limit && order != [] then {order[0]} else {}
  }

  function Did(s: Recency, op: Op, limit: nat): Recency {
    match op
    case PutOp(key, value) =>
      var victims := Victims(s.order, key, limit);
      Recency(EvictThenInsert(s.order, key, limit),
              (s.live - victims)[key := value],
              (s.lost + (s.live - (s.live.Keys - victims))) - {key})
    case GetOp(key) => if key in s.live then s.(order := Touched(s.order, key)) else s
    case DelOp(key) => s.(order := Without(s.order, key), live := s.live - {key})
  }

  function After(ops: seq<Op>, limit: nat): Recency {
    if ops == [] then NOTHING else Did(After(ops[..|ops| - 1], limit), ops[|ops| - 1], limit)
  }

  function AnswerOf(s: Recency, op: Op): Answer {
    match op
    case PutOp(_, _) => Stored
    case GetOp(key) => Looked(if key in s.live then Some(s.live[key]) else None)
    case DelOp(key) => Deleted(key in s.live)
  }

  lemma AfterOneMore(ops: seq<Op>, i: nat, limit: nat)
    requires i < |ops|
    ensures After(ops[..i + 1], limit) == Did(After(ops[..i], limit), ops[i], limit)
  {
    assert ops[..i + 1][..i] == ops[..i];
  }

  ghost predicate Consistent(s: Recency, limit: nat) {
    && NoRepeats(s.order) && (forall k :: k in s.order <==> k in s.live)
    && (|s.order| <= limit || |s.order| <= 1)
    && s.live.Keys !! s.lost.Keys
  }

  lemma DidConsistent(s: Recency, op: Op, limit: nat)
    requires Consistent(s, limit)
    ensures Consistent(Did(s, op, limit), limit)
  {
    match op
    case PutOp(key, _) =>
      WithoutPresent(s.order, key);
      if s.order != [] { FirstDropped(s.order); }
    case GetOp(key) => WithoutPresent(s.order, key);
    case DelOp(key) => WithoutPresent(s.order, key);
  }

  /** No more than the limit is ever live, but for the one entry that a limit of 0 lets in;
      and what is lost is not live. */
  lemma {:induction false} AfterConsistent(ops: seq<Op>, limit: nat)
    ensures Consistent(After(ops, limit), limit)
    ensures |After(ops, limit).order| == |After(ops, limit).live|
  {
    if ops != [] {
      AfterConsistent(ops[..|ops| - 1], limit);
      DidConsistent(After(ops[..|ops| - 1], limit), ops[|ops| - 1], limit);
    }
    CountKeys(After(ops, limit).live, After(ops, limit).order);
  }

  // ---- Evictions ----

  /** The values that a cache without a limit would hold. */
  function AllPut(ops: seq<Op>): map<string, string> {
    if ops == [] then map[] else Unlimited(AllPut(ops[..|ops| - 1]), ops[|ops| - 1])
  }

  function Unlimited(values: map<string, string>, op: Op): map<string, string> {
    match op
    case PutOp(key, value) => values[key := value]
    case GetOp(_) => values
    case DelOp(key) => values - {key}
  }

  predicate Evicts(s: Recency, op: Op, limit: nat) {
    op.PutOp? && Victims(s.order, op.key, limit) != {}
  }

  predicate EverEvicts(ops: seq<Op>, limit: nat) {
    exists i :: 0 <= i < |ops| && Evicts(After(ops[..i], limit), ops[i], limit)
  }

  predicate NoDeletions(ops: seq<Op>) {
    forall i :: 0 <= i < |ops| ==> !ops[i].DelOp?
  }

  /** Something is evicted exactly if at some time there was more to hold than fits. */
  lemma {:induction false} EvictsExactly(ops: seq<Op>, limit: nat)
    requires limit >= 1
    ensures EverEvicts(ops, limit) <==> exists i :: 0 <= i <= |ops| && |AllPut(ops[..i])| > limit
    ensures !EverEvicts(ops, limit) ==> After(ops, limit).live == AllPut(ops) && After(ops, limit).lost == map[]
  {
    hide After, AllPut;
    if ops == [] {
      NothingDone(limit);
      assert ops[..0] == ops;
    } else {
      var n := |ops| - 1;
      var before := ops[..n];
      EvictsExactly(before, limit);
      PrefixEvicts(ops, limit);
      assert ops[..|ops|] == ops;
      assert forall i :: 0 <= i <= n ==> ops[..i] == before[..i];
      AfterConsistent(before, limit);
      if !EverEvicts(before, limit) {
        assert before[..n] == before;
        assert |AllPut(before)| <= limit;
        FirstEviction(ops, limit);
      } else {
        var i :| 0 <= i <= n && |AllPut(before[..i])| > limit;
        assert |AllPut(ops[..i])| > limit;
      }
      if i :| 0 <= i <= |ops| && |AllPut(ops[..i])| > limit && i <= n {
        assert |AllPut(before[..i])| > limit;
      }
    }
  }

  lemma NothingDone(limit: nat)
    ensures After([], limit) == NOTHING && AllPut([]) == map[]
  {
  }

  lemma PrefixEvicts(ops: seq<Op>, limit: nat)
    requires ops != []
    ensures var n := |ops| - 1;
            EverEvicts(ops, limit) <==> EverEvicts(ops[..n], limit) || Evicts(After(ops[..n], limit), ops[n], limit)
  {
    hide After, Evicts;
    var n := |ops| - 1;
    assert forall i :: 0 <= i < n ==> ops[..i] == ops[..n][..i] && ops[i] == ops[..n][i];
    if EverEvicts(ops[..n], limit) {
      var i :| 0 <= i < n && Evicts(After(ops[..n][..i], limit), ops[..n][i], limit);
      assert Evicts(After(ops[..i], limit), ops[i], limit);
    }
    if EverEvicts(ops, limit) {
      var i :| 0 <= i < |ops| && Evicts(After(ops[..i], limit), ops[i], limit);
      if i < n {
        assert Evicts(After(ops[..n][..i], limit), ops[..n][i], limit);
      }
    }
  }

  /** As long as nothing was evicted, the next operation evicts exactly if it makes too many. */
  lemma FirstEviction(ops: seq<Op>, limit: nat)
    requires ops != [] && limit >= 1
    requires var s := After(ops[..|ops| - 1], limit);
             Consistent(s, limit) && |s.order| == |s.live| && s.live == AllPut(ops[..|ops| - 1]) && s.lost == map[]
    ensures var n := |ops| - 1;
            && (Evicts(After(ops[..n], limit), ops[n], limit) <==> |AllPut(ops)| > limit)
            && (!Evicts(After(ops[..n], limit), ops[n], limit) ==> After(ops, limit).live == AllPut(ops) && After(ops, limit).lost == map[])
  {
    hide Consistent, EvictThenInsert, Victims, Without, Touched;
    var n := |ops| - 1;
    FirstEvictionBy(After(ops[..n], limit), ops[n], limit);
  }

  lemma FirstEvictionBy(s: Recency, op: Op, limit: nat)
    requires Consistent(s, limit) && limit >= 1 && |s.order| == |s.live| && s.lost == map[]
    ensures var all := Unlimited(s.live, op);
            && (Evicts(s, op, limit) <==> |all| > limit)
            && (!Evicts(s, op, limit) ==> Did(s, op, limit).live == all && Did(s, op, limit).lost == map[])
  {
    hide Consistent, EvictThenInsert, Victims, Without, Touched;
    SizesAgree(s, limit);
    match op
    case PutOp(key, value) => FirstPut(s, key, value, limit);
    case GetOp(_) =>
    case DelOp(key) => CountAfterDel(s.live, key);
  }

  lemma FirstPut(s: Recency, key: string, value: string, limit: nat)
    requires Consistent(s, limit) && limit >= 1 && |s.order| == |s.live| && s.lost == map[]
    ensures Victims(s.order, key, limit) != {} <==> |s.live[key := value]| > limit
    ensures Victims(s.order, key, limit) == {} ==>
              Did(s, PutOp(key, value), limit).live == s.live[key := value] && Did(s, PutOp(key, value), limit).lost == map[]
  {
    hide Consistent, EvictThenInsert, Victims;
    CountAfterPut(s.live, key, value);
    VictimsExactly(s, key, limit);
    if Victims(s.order, key, limit) == {} {
      NoVictims(s.live, s.lost, key, value);
    }
  }

  lemma SizesAgree(s: Recency, limit: nat)
    requires Consistent(s, limit) && limit >= 1 && |s.order| == |s.live|
    ensures |s.live| <= limit
  {
  }

  lemma VictimsExactly(s: Recency, key: string, limit: nat)
    requires Consistent(s, limit) && limit >= 1 && |s.order| == |s.live|
    ensures Victims(s.order, key, limit) != {} <==> key !in s.live && |s.live| == limit
    ensures |s.live| <= limit && Victims(s.order, key, limit) <= s.live.Keys && key !in Victims(s.order, key, limit)
  {
  }

  lemma NoVictims(live: map<string, string>, lost: map<string, string>, key: string, value: string)
    requires lost == map[]
    ensures (live - {})[key := value] == live[key := value] && (lost + (live - (live.Keys - {}))) - {key} == map[]
  {
    assert live - {} == live && live - live.Keys == map[];
  }

  lemma VictimsAreLive(s: Recency, key: string, limit: nat)
    requires Consistent(s, limit)
    ensures s.live.Keys !! s.lost.Keys && Victims(s.order, key, limit) <= s.live.Keys && key !in Victims(s.order, key, limit)
  {
  }

  /** Evicted values only change places. */
  lemma PutUnion(live: map<string, string>, lost: map<string, string>, victims: set<string>, key: string, value: string)
    requires live.Keys !! lost.Keys && victims <= live.Keys && key !in victims
    ensures (live - victims)[key := value] + ((lost + (live - (live.Keys - victims))) - {key}) == (live + lost)[key := value]
  {
  }

  lemma CountAfterPut(m: map<string, string>, key: string, value: string)
    ensures |m[key := value]| == if key in m then |m| else |m| + 1
  {
    assert m[key := value].Keys == m.Keys + {key};
  }

  lemma CountAfterDel(m: map<string, string>, key: string)
    ensures |m - {key}| <= |m|
  {
    assert (m - {key}).Keys == m.Keys - {key};
  }

  /** Without deletions, what is live and what is lost make up all that was put, and
      something is lost exactly if more keys were put than fit. */
  lemma {:induction false} LostExactly(ops: seq<Op>, limit: nat)
    requires NoDeletions(ops) && limit >= 1
    ensures After(ops, limit).live + After(ops, limit).lost == AllPut(ops)
    ensures After(ops, limit).lost == map[] <==> |AllPut(ops)| <= limit
  {
    hide After, AllPut;
    LiveAndLost(ops, limit);
    AfterConsistent(ops, limit);
    EvictsExactly(ops, limit);
    var s := After(ops, limit);
    SizesAgree(s, limit);
    assert s.lost == map[] ==> s.live + s.lost == s.live;
    forall i | 0 <= i <= |ops| ensures |AllPut(ops[..i])| <= |AllPut(ops)| {
      PutsOnlyGrow(ops, i);
    }
  }

  lemma {:induction false} LiveAndLost(ops: seq<Op>, limit: nat)
    requires NoDeletions(ops)
    ensures After(ops, limit).live + After(ops, limit).lost == AllPut(ops)
  {
    hide Did, Unlimited, Consistent;
    if ops == [] {
      NothingDone(limit);
    } else {
      var n := |ops| - 1;
      LiveAndLost(ops[..n], limit);
      AfterConsistent(ops[..n], limit);
      DidUnion(After(ops[..n], limit), ops[n], limit);
    }
  }

  lemma DidUnion(s: Recency, op: Op, limit: nat)
    requires Consistent(s, limit) && !op.DelOp?
    ensures Did(s, op, limit).live + Did(s, op, limit).lost == Unlimited(s.live + s.lost, op)
  {
    hide Consistent, Victims, EvictThenInsert, Touched;
    if op.PutOp? {
      VictimsAreLive(s, op.key, limit);
      PutUnion(s.live, s.lost, Victims(s.order, op.key, limit), op.key, op.value);
    }
  }

  lemma {:induction false} PutsOnlyGrow(ops: seq<Op>, i: nat)
    requires NoDeletions(ops) && i <= |ops|
    ensures |AllPut(ops[..i])| <= |AllPut(ops)|
    decreases |ops|
  {
    hide Unlimited;
    if i == |ops| {
      assert ops[..i] == ops;
    } else {
      var n := |ops| - 1;
      assert ops[..n][..i] == ops[..i];
      PutsOnlyGrow(ops[..n], i);
      OneOnlyGrows(AllPut(ops[..n]), ops[n]);
    }
  }

  lemma OneOnlyGrows(values: map<string, string>, op: Op)
    requires !op.DelOp?
    ensures |values| <= |Unlimited(values, op)|
  {
    if op.PutOp? {
      CountAfterPut(values, op.key, op.value);
    }
  }

  // ---- The logging cache ----

  /** The values of a store without deadlines. */
  ghost predicate Holds(store: map<string, CacheEntry>, live: map<string, string>) {
    Values(store) == live && forall k :: k in store ==> store[k].expiresAt == None
  }

  /** What a cache and its log stand for. */
  ghost predicate Follows(logged: bool, log: seq<AofRecord>, store: map<string, CacheEntry>, order: seq<string>, s: Recency) {
    && order == s.order && Holds(store, s.live)
    && (logged ==> Replay(log) == s.live + s.lost)
  }

  method Perform(a: Cache, op: Op, now: nat, ghost s: Recency) returns (answer: Answer)
    requires a.Valid() && a.clock <= now && Consistent(s, a.maxKeys) && Follows(a.logged, a.log, a.store, a.order, s)
    modifies a
    ensures a.Valid() && a.clock <= now + 1 && answer == AnswerOf(s, op)
    ensures Follows(a.logged, a.log, a.store, a.order, Did(s, op, a.maxKeys))
  {
    hide InOrder, Recorded, Replay, EvictThenInsert, Without, Touched, Consistent, Follows, Did;
    match op {
      case PutOp(key, value) =>
        a.Set(key, value, None, now);
        LaterClock(a.store, a.order, a.clock, a.clock);
        PutFollows(a.logged, old(a.log), old(a.store), old(a.order), s, key, value, a.maxKeys, a.store, now);
        answer := Stored;
      case GetOp(key) =>
        GetFollows(a.logged, a.log, a.store, a.order, s, key, now);
        var r := a.Get(key, now);
        answer := Looked(r);
      case DelOp(key) =>
        VictimsAreLive(s, key, a.maxKeys);
        DelFollows(a.logged, a.log, a.store, a.order, s, key, now);
        var existed := a.Del(key, now);
        answer := Deleted(existed);
    }
  }

  lemma PutFollows(logged: bool, log: seq<AofRecord>, store: map<string, CacheEntry>, order: seq<string>, s: Recency, key: string, value: string,
                   limit: nat, store': map<string, CacheEntry>, now: nat)
    requires Consistent(s, limit) && Follows(logged, log, store, order, s)
    requires key in store' && store'[key] == CacheEntry(value, None, now)
    requires forall k :: k in store' && k != key ==> k in store && store'[k] == store[k]
    requires forall k :: k in EvictThenInsert(order, key, limit) <==> k in store'
    ensures Follows(logged, log + if logged then [SetRecord(key, value, None)] else [], store', EvictThenInsert(order, key, limit),
                    Did(s, PutOp(key, value), limit))
  {
    hide Replay, Consistent, EvictThenInsert, Victims;
    var s', victims := Did(s, PutOp(key, value), limit), Victims(s.order, key, limit);
    VictimsAreLive(s, key, limit);
    KeysAfterPut(s, key, value, limit);
    assert Values(store') == s'.live;
    if logged {
      ReplayOneMore(log, SetRecord(key, value, None));
      PutUnion(s.live, s.lost, victims, key, value);
    } else {
      assert log + [] == log;
    }
  }

  lemma KeysAfterPut(s: Recency, key: string, value: string, limit: nat)
    requires Consistent(s, limit)
    ensures forall k :: k in EvictThenInsert(s.order, key, limit) <==> k in Did(s, PutOp(key, value), limit).live
  {
    DidConsistent(s, PutOp(key, value), limit);
  }

  lemma GetFollows(logged: bool, log: seq<AofRecord>, store: map<string, CacheEntry>, order: seq<string>, s: Recency, key: string, now: nat)
    requires Follows(logged, log, store, order, s)
    ensures key in store <==> key in s.live
    ensures key in store ==> store[key].value == s.live[key] && !store[key].IsExpired(now)
    ensures var store' := if key in store then store[key := store[key].(accessedAt := now)] else store;
            Follows(logged, log, store', if key in store then Touched(order, key) else order, Did(s, GetOp(key), 0))
    ensures forall limit :: Did(s, GetOp(key), limit) == Did(s, GetOp(key), 0)
  {
    hide Replay;
    assert key in Values(store) <==> key in store;
    if key in store {
      SameValue(store, key, store[key].(accessedAt := now));
    }
  }

  lemma DelFollows(logged: bool, log: seq<AofRecord>, store: map<string, CacheEntry>, order: seq<string>, s: Recency, key: string, now: nat)
    requires Follows(logged, log, store, order, s)
    requires s.live.Keys !! s.lost.Keys
    ensures key in store <==> key in s.live
    ensures key in store ==> !store[key].IsExpired(now)
    ensures forall limit :: Follows(logged, log + if key in store && logged then [DelRecord(key)] else [], store - {key}, Without(order, key), Did(s, DelOp(key), limit))
  {
    hide Replay;
    assert key in Values(store) <==> key in store;
    assert Values(store - {key}) == s.live - {key};
    if logged && key in store {
      ReplayOneMore(log, DelRecord(key));
      assert (s.live - {key}) + s.lost == (s.live + s.lost) - {key};
    } else if key !in store {
      assert s.live - {key} == s.live && log + [] == log;
    }
  }

  lemma NothingLogged()
    ensures Replay([]) == map[] && ReplayOrder([]) == [] && Values(map[]) == map[]
  {
  }

  lemma LostShows(live: map<string, string>, lost: map<string, string>)
    requires live.Keys !! lost.Keys
    ensures live + lost == live <==> lost == map[]
    ensures |live + lost| == |live| + |lost|
  {
    assert (live + lost).Keys == live.Keys + lost.Keys;
    assert lost != map[] ==> exists k :: k in lost;
    if k :| k in lost {
      assert k in live + lost && k !in live;
    }
  }

  /** Any run of the logging cache keeps and answers what a recency list would, in memory or
      with a log. The log replays to the live values and those that were evicted and not put
      again, which are the same exactly if there are none of these. */
  method RunCache(ops: seq<Op>, limit: nat, logged: bool) returns (a: Cache, answers: seq<Answer>)
    ensures fresh(a) && a.Valid() && a.logged == logged && a.maxKeys == limit
    ensures |answers| == |ops| && forall i :: 0 <= i < |ops| ==> answers[i] == AnswerOf(After(ops[..i], limit), ops[i])
    ensures a.order == After(ops, limit).order && Values(a.store) == After(ops, limit).live
    ensures |a.store| <= limit || |a.store| <= 1
    ensures logged ==> Replay(a.log) == After(ops, limit).live + After(ops, limit).lost
    ensures logged ==> (Values(a.store) == Replay(a.log) <==> After(ops, limit).lost == map[])
    ensures logged && limit >= 1 && !EverEvicts(ops, limit) ==> Values(a.store) == Replay(a.log) == AllPut(ops)
  {
    hide InOrder, Recorded, Replay, ReplayOrder, After, AllPut, Did, Consistent, EverEvicts, Values, Follows, AnswerOf;
    NothingLogged();
    NothingDone(limit);
    NothingFollows(logged);
    if logged {
      a := new Cache.Open([], limit, 0);
      EmptyStore(a.store);
    } else {
      a := new Cache.InMemory(limit);
    }
    answers := [];
    assert ops[..0] == [];
    for i := 0 to |ops|
      invariant fresh(a) && a.Valid() && a.clock <= i && a.logged == logged && a.maxKeys == limit
      invariant |answers| == i && forall k :: 0 <= k < i ==> answers[k] == AnswerOf(After(ops[..k], limit), ops[k])
      invariant Follows(logged, a.log, a.store, a.order, After(ops[..i], limit))
    {
      AfterConsistent(ops[..i], limit);
      AfterOneMore(ops, i, limit);
      var answer := Perform(a, ops[i], i, After(ops[..i], limit));
      answers := answers + [answer];
    }
    assert ops[..|ops|] == ops;
    RunMeans(ops, limit, logged, a.log, a.store, a.order);
  }

  lemma RunMeans(ops: seq<Op>, limit: nat, logged: bool, log: seq<AofRecord>, store: map<string, CacheEntry>, order: seq<string>)
    requires Follows(logged, log, store, order, After(ops, limit))
    ensures order == After(ops, limit).order && Values(store) == After(ops, limit).live
    ensures |store| <= limit || |store| <= 1
    ensures logged ==> Replay(log) == After(ops, limit).live + After(ops, limit).lost
    ensures logged ==> (Values(store) == Replay(log) <==> After(ops, limit).lost == map[])
    ensures logged && limit >= 1 && !EverEvicts(ops, limit) ==> Values(store) == Replay(log) == AllPut(ops)
  {
    hide Replay, After, AllPut, Consistent, EverEvicts, Values;
    AfterConsistent(ops, limit);
    VictimsAreLive(After(ops, limit), "", limit);
    LostShows(After(ops, limit).live, After(ops, limit).lost);
    SizeIs(store, After(ops, limit), limit);
    if limit >= 1 { EvictsExactly(ops, limit); }
  }

  lemma NothingFollows(logged: bool)
    ensures Follows(logged, [], map[], [], NOTHING)
  {
  }

  lemma EmptyStore(store: map<string, CacheEntry>)
    requires Values(store) == map[]
    ensures store == map[]
  {
    assert Values(store).Keys == store.Keys;
  }

  lemma SizeIs(store: map<string, CacheEntry>, s: Recency, limit: nat)
    requires Values(store) == s.live && Consistent(s, limit) && |s.order| == |s.live|
    ensures |store| == |s.live| && (|store| <= limit || |store| <= 1)
  {
    SameCount(store);
  }

  lemma SameCount(store: map<string, CacheEntry>)
    ensures |Values(store)| == |store|
  {
    assert Values(store).Keys == store.Keys;
  }

  /** A lookup finds the last value put, unless that was deleted or evicted since; and nothing
      but an eviction makes the cache forget. */
  lemma {:induction false} OnlyEvictionForgets(ops: seq<Op>, limit: nat)
    ensures var s := After(ops, limit);
            Extends(AllPut(ops), s.live) && Extends(s.live + s.lost, AllPut(ops))
  {
    hide Did, Unlimited, Consistent, Extends;
    if ops == [] {
      NothingForgotten();
    } else {
      var n := |ops| - 1;
      OnlyEvictionForgets(ops[..n], limit);
      AfterConsistent(ops[..n], limit);
      OneForgets(AllPut(ops[..n]), After(ops[..n], limit), ops[n], limit);
    }
  }

  lemma OneForgets(all: map<string, string>, s: Recency, op: Op, limit: nat)
    requires Consistent(s, limit) && Extends(all, s.live) && Extends(s.live + s.lost, all)
    ensures var s' := Did(s, op, limit);
            Extends(Unlimited(all, op), s'.live) && Extends(s'.live + s'.lost, Unlimited(all, op))
  {
    hide Consistent, Victims, EvictThenInsert, Without, Touched, Extends;
    match op
    case PutOp(key, value) =>
      VictimsAreLive(s, key, limit);
      PutForgets(all, s.live, s.lost, Victims(s.order, key, limit), key, value);
    case GetOp(_) =>
    case DelOp(key) => DelForgets(all, s.live, s.lost, key);
  }

  lemma NothingForgotten()
    ensures Extends(map[], map[]) && Extends(map[] + map[], map[])
  {
  }

  lemma PutForgets(all: map<string, string>, live: map<string, string>, lost: map<string, string>, victims: set<string>, key: string, value: string)
    requires live.Keys !! lost.Keys && victims <= live.Keys && key !in victims
    requires Extends(all, live) && Extends(live + lost, all)
    ensures var live', lost' := (live - victims)[key := value], (lost + (live - (live.Keys - victims))) - {key};
            Extends(all[key := value], live') && Extends(live' + lost', all[key := value])
  {
    PutUnion(live, lost, victims, key, value);
  }

  lemma DelForgets(all: map<string, string>, live: map<string, string>, lost: map<string, string>, key: string)
    requires Extends(all, live) && Extends(live + lost, all)
    ensures Extends(all - {key}, live - {key}) && Extends((live - {key}) + lost, all - {key})
  {
  }

  // ---- Both caches side by side ----

  method RunEmbedding(ops: seq<Op>, limit: nat) returns (b: EmbeddingCache, answers: seq<Answer>)
    requires limit >= 1 && NoDeletions(ops)
    ensures fresh(b) && b.Valid()
    ensures |answers| == |ops| && forall i :: 0 <= i < |ops| ==> answers[i] == AnswerOf(After(ops[..i], limit), ops[i])
    ensures b.order == After(ops, limit).order && b.entries == After(ops, limit).live
  {
    hide After, NoRepeats, Consistent, InsertThenEvict, EvictThenInsert, Touched;
    NothingDone(limit);
    b := new EmbeddingCache(limit);
    answers := [];
    assert ops[..0] == [];
    for i := 0 to |ops|
      invariant fresh(b) && b.Valid() && b.maxSize == limit
      invariant |answers| == i && forall k :: 0 <= k < i ==> answers[k] == AnswerOf(After(ops[..k], limit), ops[k])
      invariant b.order == After(ops[..i], limit).order && b.entries == After(ops[..i], limit).live
    {
      AfterConsistent(ops[..i], limit);
      AfterOneMore(ops, i, limit);
      match ops[i] {
        case PutOp(key, value) =>
          ghost var before := b.entries;
          EvictionsAgree(b.order, key, limit);
          KeysAfterPut(After(ops[..i], limit), key, value, limit);
          b.Put(key, value);
          assert b.entries == After(ops[..i + 1], limit).live;
          answers := answers + [Stored];
        case GetOp(key) =>
          var r := b.Get(key);
          answers := answers + [Looked(r)];
        case DelOp(_) =>
          assert false;
      }
    }
    assert ops[..|ops|] == ops;
  }

  lemma EvictionsAgree(order: seq<string>, key: string, limit: nat)
    requires limit >= 1 && NoRepeats(order) && |order| <= limit
    ensures EvictThenInsert(order, key, limit) == InsertThenEvict(order, key, limit)
  {
    EvictionsAgreeExactly(limit);
  }

  /** Eviction by the oldest access time is eviction from a list in the order of use: any
      run of both gives the same answers and leaves the same entries. The log replays to all
      that was put, which is what is live exactly as long as no more keys were put than fit. */
  method RunBoth(ops: seq<Op>, limit: nat) returns (a: Cache, b: EmbeddingCache, answers: seq<Answer>, others: seq<Answer>)
    requires limit >= 1 && NoDeletions(ops)
    ensures answers == others && |answers| == |ops|
    ensures fresh(a) && fresh(b) && a.Valid() && b.Valid()
    ensures a.order == b.order && Values(a.store) == b.entries && |a.order| <= limit
    ensures Replay(a.log) == AllPut(ops)
    ensures Values(a.store) == Replay(a.log) <==> |AllPut(ops)| <= limit
  {
    hide InOrder, Recorded, Replay, After, AllPut, EverEvicts, Values, NoDeletions, NoRepeats;
    a, answers := RunCache(ops, limit, true);
    b, others := RunEmbedding(ops, limit);
    AfterConsistent(ops, limit);
    LostExactly(ops, limit);
  }

  /** What a cache that is opened from the log of a run holds: the live entries, and with them
      all that was evicted and not put again. */
  method ReopenAfter(ops: seq<Op>, limit: nat, now: nat) returns (again: Cache)
    ensures fresh(again) && again.Valid() && again.maxKeys == limit
    ensures Values(again.store) == After(ops, limit).live + After(ops, limit).lost
    ensures |again.store| == |After(ops, limit).live| + |After(ops, limit).lost|
    ensures NoDeletions(ops) && limit >= 1 ==>
              Values(again.store) == AllPut(ops) && (|again.store| <= limit <==> |AllPut(ops)| <= limit)
  {
    hide InOrder, Recorded, Replay, ReplayOrder, After, AllPut, EverEvicts, Values, NoDeletions, Consistent;
    var a, answers := RunCache(ops, limit, true);
    again := new Cache.Open(a.log, limit, now);
    AfterConsistent(ops, limit);
    VictimsAreLive(After(ops, limit), "", limit);
    LostShows(After(ops, limit).live, After(ops, limit).lost);
    SameCount(again.store);
    if NoDeletions(ops) && limit >= 1 { LostExactly(ops, limit); }
  }
}
