/** Runs of the logging cache with times and deadlines: how long an entry answers, and what
    a replay of the log brings back. */
module LruDeadlines {
  import opened Options
  import opened LruCache
  import LruRuns

  datatype Op =
    | SetOp(key: string, value: string, ttl: Option<nat>)
    | GetOp(key: string)
    | DelOp(key: string)
    | ExpireOp(key: string, seconds: nat)

  datatype Call = Call(op: Op, at: nat)

  datatype Answer = Stored | Looked(value: Option<string>) | Deleted(existed: bool) | Renewed(found: bool)

  // ---- The specification ----

  datatype Held = Held(value: string, deadline: Option<nat>)

  /** The entries in the order of their use. An expired one stays until it is looked up,
      deleted or evicted. */
  datatype Kept = Kept(order: seq<string>, held: map<string, Held>)

  predicate Alive(s: Kept, key: string, now: nat) {
    key in s.held && (s.held[key].deadline.None? || now < s.held[key].deadline.value)
  }

  function EvictedBy(s: Kept, op: Op, limit: nat): set<string> {
    if op.SetOp? then LruRuns.Victims(s.order, op.key, limit) else {}
  }

  function Did(s: Kept, c: Call, limit: nat): Kept {
    match c.op
    case SetOp(key, value, ttl) =>
      Kept(EvictThenInsert(s.order, key, limit),
           (s.held - EvictedBy(s, c.op, limit))[key := Held(value, if ttl.Some? then Some(c.at + ttl.value) else None)])
    case GetOp(key) =>
      if Alive(s, key, c.at) then s.(order := Touched(s.order, key))
      else Kept(Without(s.order, key), s.held - {key})
    case DelOp(key) => Kept(Without(s.order, key), s.held - {key})
    case ExpireOp(key, seconds) =>
      if Alive(s, key, c.at) then s.(held := s.held[key := s.held[key].(deadline := Some(c.at + seconds))]) else s
  }

  function After(calls: seq<Call>, limit: nat): Kept {
    if calls == [] then Kept([], map[]) else Did(After(calls[..|calls| - 1], limit), calls[|calls| - 1], limit)
  }

  function AnswerOf(s: Kept, c: Call): Answer {
    match c.op
    case SetOp(_, _, _) => Stored
    case GetOp(key) => Looked(if Alive(s, key, c.at) then Some(s.held[key].value) else None)
    case DelOp(key) => Deleted(Alive(s, key, c.at))
    case ExpireOp(key, _) => Renewed(Alive(s, key, c.at))
  }

  /** What is written to the log. */
  function RecordOf(op: Op, answer: Answer): seq<AofRecord> {
    match op
    case SetOp(key, value, ttl) => [SetRecord(key, value, ttl)]
    case GetOp(_) => []
    case DelOp(key) => if answer == Deleted(true) then [DelRecord(key)] else []
    case ExpireOp(key, seconds) => if answer == Renewed(true) then [ExpireRecord(key, seconds)] else []
  }

  function LogAfter(calls: seq<Call>, limit: nat): seq<AofRecord> {
    if calls == [] then []
    else
      var n := |calls| - 1;
      LogAfter(calls[..n], limit) + RecordOf(calls[n].op, AnswerAt(calls, limit, n))
  }

  function AnswerAt(calls: seq<Call>, limit: nat, i: nat): Answer
    requires i < |calls|
  {
    AnswerOf(After(calls[..i], limit), calls[i])
  }

  ghost predicate Timed(calls: seq<Call>) {
    forall i, j :: 0 <= i < j < |calls| ==> calls[i].at < calls[j].at
  }

  lemma {:induction false} OneMore(calls: seq<Call>, i: nat, limit: nat)
    requires i < |calls|
    ensures After(calls[..i + 1], limit) == Did(After(calls[..i], limit), calls[i], limit)
    ensures LogAfter(calls[..i + 1], limit) == LogAfter(calls[..i], limit) + RecordOf(calls[i].op, AnswerAt(calls, limit, i))
  {
    var more := calls[..i + 1];
    assert more[..i] == calls[..i] && more[i] == calls[i];
  }

  // ---- How long an entry answers ----

  predicate IsSet(c: Call, key: string) {
    c.op.SetOp? && c.op.key == key
  }

  /** A deadline is set anew: by a write, or by an `ExpireOp` that was answered with success. */
  predicate Renews(calls: seq<Call>, limit: nat, key: string, m: nat)
    requires m < |calls|
  {
    IsSet(calls[m], key) || (calls[m].op.ExpireOp? && calls[m].op.key == key && AnswerAt(calls, limit, m) == Renewed(true))
  }

  /** No later write, deletion or eviction of the key before the call `i`. */
  ghost predicate Stays(calls: seq<Call>, limit: nat, key: string, j: nat, i: nat)
    requires i <= |calls|
  {
    forall k :: j < k < i ==> !IsSet(calls[k], key) && !Drops(calls, limit, key, k)
  }

  predicate Drops(calls: seq<Call>, limit: nat, key: string, k: nat)
    requires k < |calls|
  {
    calls[k].op == DelOp(key) || key in EvictedBy(After(calls[..k], limit), calls[k].op, limit)
  }

  ghost predicate LastRenewal(calls: seq<Call>, limit: nat, key: string, m: nat, i: nat)
    requires i <= |calls|
  {
    m < i && Renews(calls, limit, key, m) && forall k :: m < k < i ==> !Renews(calls, limit, key, k)
  }

  /** The value was written by the call `j` and stays, and its deadline was last set by `m`. */
  ghost predicate Stands(calls: seq<Call>, limit: nat, key: string, j: int, m: int, i: nat)
    requires i <= |calls|
  {
    0 <= j <= m < i && IsSet(calls[j], key) && Stays(calls, limit, key, j, i) && LastRenewal(calls, limit, key, m, i)
  }

  predicate TimeLeft(renewal: Call, now: nat) {
    match renewal.op
    case SetOp(_, _, ttl) => ttl.Some? ==> now < renewal.at + ttl.value
    case ExpireOp(_, seconds) => now < renewal.at + seconds
    case _ => false
  }

  /** While nothing writes or drops the key, what it holds is what was written. */
  lemma {:induction false} ValueStays(calls: seq<Call>, limit: nat, key: string, j: nat, i: nat)
    requires j < i <= |calls| && IsSet(calls[j], key) && Stays(calls, limit, key, j, i)
    ensures var s := After(calls[..i], limit); key in s.held ==> s.held[key].value == calls[j].op.value
  {
    hide After, EvictThenInsert, Without, Touched;
    OneMore(calls, i - 1, limit);
    if j < i - 1 {
      ValueStays(calls, limit, key, j, i - 1);
    }
  }

  /** While nothing sets another deadline or drops the key, it holds the deadline that was set,
      or that deadline has passed. */
  lemma {:induction false} DeadlineStays(calls: seq<Call>, limit: nat, key: string, m: nat, i: nat)
    requires i <= |calls| && Timed(calls) && LastRenewal(calls, limit, key, m, i) && Stays(calls, limit, key, m, i)
    ensures var s := After(calls[..i], limit);
            if key in s.held then forall now :: Alive(s, key, now) <==> TimeLeft(calls[m], now)
            else !TimeLeft(calls[m], calls[i - 1].at)
  {
    hide After, EvictThenInsert, Without, Touched;
    OneMore(calls, i - 1, limit);
    if m < i - 1 {
      DeadlineStays(calls, limit, key, m, i - 1);
      assert !Renews(calls, limit, key, i - 1) && !Drops(calls, limit, key, i - 1);
      OtherCall(After(calls[..i - 1], limit), calls[i - 1], limit, key);
      assert calls[i - 2].at < calls[i - 1].at;
    }
  }

  /** A call that neither writes nor drops the key nor sets its deadline. */
  lemma OtherCall(s: Kept, c: Call, limit: nat, key: string)
    requires !IsSet(c, key) && c.op != DelOp(key) && key !in EvictedBy(s, c.op, limit)
    requires !(c.op.ExpireOp? && c.op.key == key && Alive(s, key, c.at))
    ensures var s' := Did(s, c, limit);
            && (key in s'.held <==> key in s.held && (c.op == GetOp(key) ==> Alive(s, key, c.at)))
            && (key in s'.held ==> s'.held[key] == s.held[key])
  {
    hide EvictThenInsert, Without, Touched;
  }

  /** A key that is held was written, and stays since then. */
  lemma {:induction false} HeldMeansStands(calls: seq<Call>, limit: nat, key: string, i: nat) returns (j: nat, m: nat)
    requires i <= |calls| && key in After(calls[..i], limit).held
    ensures Stands(calls, limit, key, j, m, i)
  {
    hide After, Did, Stands;
    NothingDone(limit);
    assert calls[..0] == [];
    OneMore(calls, i - 1, limit);
    if IsSet(calls[i - 1], key) {
      j, m := i - 1, i - 1;
      WriteStands(calls, limit, key, i - 1);
    } else {
      StillHeld(After(calls[..i - 1], limit), calls[i - 1], limit, key);
      j, m := HeldMeansStands(calls, limit, key, i - 1);
      StandsOneMore(calls, limit, key, j, m, i - 1);
      if Renews(calls, limit, key, i - 1) {
        m := i - 1;
      }
    }
  }

  lemma StillHeld(s: Kept, c: Call, limit: nat, key: string)
    requires key in Did(s, c, limit).held && !IsSet(c, key)
    ensures key in s.held && c.op != DelOp(key) && key !in EvictedBy(s, c.op, limit)
  {
    hide EvictThenInsert, Without, Touched;
  }

  lemma WriteStands(calls: seq<Call>, limit: nat, key: string, i: nat)
    requires i < |calls| && IsSet(calls[i], key)
    ensures Stands(calls, limit, key, i, i, i + 1)
  {
    hide AnswerAt;
  }

  lemma StandsOneMore(calls: seq<Call>, limit: nat, key: string, j: nat, m: nat, i: nat)
    requires i < |calls| && Stands(calls, limit, key, j, m, i)
    requires !IsSet(calls[i], key) && !Drops(calls, limit, key, i)
    ensures Stands(calls, limit, key, j, if Renews(calls, limit, key, i) then i else m, i + 1)
  {
    hide AnswerAt, Drops, Renews;
  }

  lemma NothingDone(limit: nat)
    ensures After([], limit) == Kept([], map[]) && LogAfter([], limit) == []
  {
  }

  /** A lookup, a deletion or a new deadline meets an entry exactly if a write of the key
      stands and there is time left since its deadline was last set; a lookup answers the
      value of that write. */
  lemma AnsweredExactly(calls: seq<Call>, limit: nat, i: nat)
    requires i < |calls| && Timed(calls) && !calls[i].op.SetOp?
    ensures var key := calls[i].op.key;
            var met := exists j, m :: Stands(calls, limit, key, j, m, i) && TimeLeft(calls[m], calls[i].at);
            match calls[i].op
            case GetOp(_) => AnswerAt(calls, limit, i).Looked? && (AnswerAt(calls, limit, i).value.Some? <==> met)
            case DelOp(_) => AnswerAt(calls, limit, i) == Deleted(met)
            case ExpireOp(_, _) => AnswerAt(calls, limit, i) == Renewed(met)
    ensures forall j, m :: calls[i].op.GetOp? && Stands(calls, limit, calls[i].op.key, j, m, i) && TimeLeft(calls[m], calls[i].at) ==>
              AnswerAt(calls, limit, i) == Looked(Some(calls[j].op.value))
  {
    hide After, Stays, LastRenewal, TimeLeft, Timed, Alive;
    var key, s := calls[i].op.key, After(calls[..i], limit);
    forall j, m | Stands(calls, limit, key, j, m, i)
      ensures Alive(s, key, calls[i].at) <==> TimeLeft(calls[m], calls[i].at)
      ensures key in s.held ==> s.held[key].value == calls[j].op.value
    {
      StandingAnswers(calls, limit, key, j, m, i);
    }
    AliveIsHeld(s, key, calls[i].at);
    if key in s.held {
      var j, m := HeldMeansStands(calls, limit, key, i);
    }
  }

  lemma AliveIsHeld(s: Kept, key: string, now: nat)
    ensures Alive(s, key, now) ==> key in s.held
  {
  }

  lemma StandingAnswers(calls: seq<Call>, limit: nat, key: string, j: nat, m: nat, i: nat)
    requires i < |calls| && Timed(calls) && Stands(calls, limit, key, j, m, i)
    ensures Alive(After(calls[..i], limit), key, calls[i].at) <==> TimeLeft(calls[m], calls[i].at)
    ensures var s := After(calls[..i], limit); key in s.held ==> s.held[key].value == calls[j].op.value
  {
    hide After, Renews;
    ValueStays(calls, limit, key, j, i);
    DeadlineStays(calls, limit, key, m, i);
    assert calls[i - 1].at < calls[i].at;
  }

  // ---- What the log brings back ----

  /** A write of the key whose record no later record of a write or deletion undoes. */
  ghost predicate LastLogged(calls: seq<Call>, limit: nat, key: string, j: int) {
    && 0 <= j < |calls| && IsSet(calls[j], key)
    && forall k :: j < k < |calls| ==> !IsSet(calls[k], key) && !(calls[k].op == DelOp(key) && AnswerAt(calls, limit, k) == Deleted(true))
  }

  /** A replay brings back exactly the writes that were not overwritten or deleted while live:
      what expired or was evicted comes back, because neither is logged. */
  lemma {:induction false} ReplayExactly(calls: seq<Call>, limit: nat, key: string)
    ensures key in Replay(LogAfter(calls, limit)) <==> exists j :: LastLogged(calls, limit, key, j)
    ensures forall j :: LastLogged(calls, limit, key, j) ==>
              key in Replay(LogAfter(calls, limit)) && Replay(LogAfter(calls, limit))[key] == calls[j].op.value
  {
    hide After, Replay, LogAfter, LastLogged, AnswerAt;
    if calls == [] {
      NothingDone(limit);
      NothingLogged();
      NoWrites(limit, key);
    } else {
      var n := |calls| - 1;
      var before := calls[..n];
      ReplayExactly(before, limit, key);
      assert calls[..n + 1] == calls;
      OneMore(calls, n, limit);
      SameAnswers(calls, limit);
      LastOneMore(calls, limit, key);
      RecordReplayed(LogAfter(before, limit), calls[n].op, AnswerAt(calls, limit, n), key);
      assert IsSet(calls[n], key) ==> LastLogged(calls, limit, key, n);
      if key in Replay(LogAfter(calls, limit)) && !IsSet(calls[n], key) {
        var j :| LastLogged(before, limit, key, j);
        assert LastLogged(calls, limit, key, j);
      }
    }
  }

  lemma NoWrites(limit: nat, key: string)
    ensures forall j :: !LastLogged([], limit, key, j)
  {
  }

  lemma SameAnswers(calls: seq<Call>, limit: nat)
    requires calls != []
    ensures var before := calls[..|calls| - 1]; forall j :: 0 <= j < |before| ==> AnswerAt(before, limit, j) == AnswerAt(calls, limit, j)
  {
    hide After;
    assert forall j :: 0 <= j < |calls| - 1 ==> calls[..|calls| - 1][..j] == calls[..j];
  }

  lemma LastOneMore(calls: seq<Call>, limit: nat, key: string)
    requires calls != []
    ensures forall j :: LastLogged(calls[..|calls| - 1], limit, key, j) ==> 0 <= j < |calls| - 1 && calls[..|calls| - 1][j] == calls[j]
    requires var before := calls[..|calls| - 1]; forall j :: 0 <= j < |before| ==> AnswerAt(before, limit, j) == AnswerAt(calls, limit, j)
    ensures var n := |calls| - 1;
            forall j :: LastLogged(calls, limit, key, j) <==>
              if IsSet(calls[n], key) then j == n
              else LastLogged(calls[..n], limit, key, j) && !(calls[n].op == DelOp(key) && AnswerAt(calls, limit, n) == Deleted(true))
  {
    hide AnswerAt;
    var before := calls[..|calls| - 1];
    forall j | LastLogged(before, limit, key, j) ensures 0 <= j < |before| && before[j] == calls[j] {
    }
  }

  lemma RecordReplayed(log: seq<AofRecord>, op: Op, answer: Answer, key: string)
    ensures var before, after := Replay(log), Replay(log + RecordOf(op, answer));
            if op.SetOp? && op.key == key then key in after && after[key] == op.value
            else if op == DelOp(key) && answer == Deleted(true) then key !in after
            else (key in after <==> key in before) && (key in after ==> after[key] == before[key])
  {
    hide Replay;
    if RecordOf(op, answer) == [] {
      assert log + [] == log;
    } else {
      ReplayOneMore(log, RecordOf(op, answer)[0]);
    }
  }

  lemma NothingLogged()
    ensures Replay([]) == map[] && Values(map[]) == map[]
  {
  }

  /** An entry that has expired is not found, and yet a replay brings it back. */
  lemma ExpiredComesBack()
    ensures var calls := [Call(SetOp("k", "v", Some(10)), 0), Call(GetOp("k"), 20)];
            && AnswerAt(calls, 5, 1) == Looked(None) && "k" !in After(calls, 5).held
            && Replay(LogAfter(calls, 5)) == map["k" := "v"]
  {
    hide After, LogAfter, Replay, Without, Touched, EvictThenInsert;
    var set1, get := Call(SetOp("k", "v", Some(10)), 0), Call(GetOp("k"), 20);
    var calls := [set1, get];
    assert calls[..0] == [] && calls[..1] == [set1] && calls[..2] == calls;
    NothingDone(5);
    NothingLogged();
    assert LogAfter(calls[..1], 5) == [SetRecord("k", "v", Some(10))] by { OneMore(calls, 0, 5); }
    OneMore(calls, 0, 5);
    OneMore(calls, 1, 5);
    ReplayOneMore([], SetRecord("k", "v", Some(10)));
    assert [] + [SetRecord("k", "v", Some(10))] == [SetRecord("k", "v", Some(10))];
    assert LogAfter(calls, 5) == LogAfter(calls[..1], 5) + [];
    assert LogAfter(calls, 5) == [SetRecord("k", "v", Some(10))];
  }

  // ---- Runs without deadlines ----

  function Untimed(calls: seq<Call>): (ops: seq<LruRuns.Op>)
    requires forall i :: 0 <= i < |calls| ==> !calls[i].op.ExpireOp?
    ensures |ops| == |calls|
  {
    seq(|calls|, i requires 0 <= i < |calls| => UntimedOp(calls[i].op))
  }

  function UntimedOp(op: Op): LruRuns.Op
    requires !op.ExpireOp?
  {
    match op
    case SetOp(key, value, _) => LruRuns.PutOp(key, value)
    case GetOp(key) => LruRuns.GetOp(key)
    case DelOp(key) => LruRuns.DelOp(key)
  }

  ghost predicate SameKept(s: Kept, r: LruRuns.Recency) {
    && s.order == r.order && s.held.Keys == r.live.Keys
    && forall k :: k in s.held ==> s.held[k] == Held(r.live[k], None)
  }

  /** When nothing has a deadline, time plays no part. */
  lemma {:induction false} WithoutDeadlines(calls: seq<Call>, limit: nat)
    requires forall i :: 0 <= i < |calls| ==> !calls[i].op.ExpireOp? && (calls[i].op.SetOp? ==> calls[i].op.ttl == None)
    ensures SameKept(After(calls, limit), LruRuns.After(Untimed(calls), limit))
  {
    hide SameKept, Did, LruRuns.Did, LruRuns.Consistent;
    if calls == [] {
      NothingKept();
    } else {
      var n := |calls| - 1;
      WithoutDeadlines(calls[..n], limit);
      assert Untimed(calls)[..n] == Untimed(calls[..n]);
      LruRuns.AfterConsistent(Untimed(calls[..n]), limit);
      SameStep(After(calls[..n], limit), LruRuns.After(Untimed(calls[..n]), limit), calls[n], limit);
    }
  }

  lemma NothingKept()
    ensures SameKept(Kept([], map[]), LruRuns.NOTHING)
  {
  }

  lemma SameStep(s: Kept, r: LruRuns.Recency, c: Call, limit: nat)
    requires SameKept(s, r) && LruRuns.Consistent(r, limit) && !c.op.ExpireOp? && (c.op.SetOp? ==> c.op.ttl == None)
    ensures SameKept(Did(s, c, limit), LruRuns.Did(r, UntimedOp(c.op), limit))
  {
    hide EvictThenInsert, Without, Touched;
    AbsentKey(s.order, c.op.key);
  }

  // ---- The cache ----

  ghost predicate Follows(store: map<string, CacheEntry>, order: seq<string>, s: Kept) {
    && order == s.order && store.Keys == s.held.Keys
    && forall k :: k in store ==> store[k].value == s.held[k].value && store[k].expiresAt == s.held[k].deadline
  }

  method Perform(a: Cache, c: Call, ghost s: Kept) returns (answer: Answer)
    requires a.Valid() && a.clock <= c.at && Follows(a.store, a.order, s)
    modifies a
    ensures a.Valid() && a.clock <= c.at + 1 && answer == AnswerOf(s, c)
    ensures Follows(a.store, a.order, Did(s, c, a.maxKeys))
    ensures a.log == old(a.log) + if a.logged then RecordOf(c.op, answer) else []
  {
    hide Recorded, EvictThenInsert, Without, Touched, NoRepeats, InOrder, Follows, Did;
    LaterClock(a.store, a.order, a.clock, a.clock);
    ghost var store, order := a.store, a.order;
    match c.op {
      case SetOp(key, value, ttl) =>
        KeysInOrder(a.store, a.order, a.clock);
        a.Set(key, value, ttl, c.at);
        KeysInOrder(a.store, a.order, a.clock);
        SetFollows(store, order, s, c, a.maxKeys, a.store);
        answer := Stored;
      case GetOp(key) =>
        GetFollows(store, order, s, c, a.maxKeys);
        var r := a.Get(key, c.at);
        answer := Looked(r);
      case DelOp(key) =>
        DelFollows(store, order, s, c, a.maxKeys);
        var existed := a.Del(key, c.at);
        answer := Deleted(existed);
      case ExpireOp(key, seconds) =>
        ExpireFollows(store, order, s, c, a.maxKeys);
        var found := a.Expire(key, seconds, c.at);
        answer := Renewed(found);
    }
  }

  lemma SetFollows(store: map<string, CacheEntry>, order: seq<string>, s: Kept, c: Call, limit: nat, store': map<string, CacheEntry>)
    requires Follows(store, order, s) && c.op.SetOp? && NoRepeats(order)
    requires forall k :: k in order <==> k in store
    requires forall k :: k in EvictThenInsert(order, c.op.key, limit) <==> k in store'
    requires c.op.key in store' && store'[c.op.key].value == c.op.value
    requires store'[c.op.key].expiresAt == if c.op.ttl.Some? then Some(c.at + c.op.ttl.value) else None
    requires forall k :: k in store' && k != c.op.key ==> k in store && store'[k] == store[k]
    ensures Follows(store', EvictThenInsert(order, c.op.key, limit), Did(s, c, limit))
  {
    hide EvictThenInsert, NoRepeats;
    KeysAfterSet(order, c.op.key, limit);
    var s' := Did(s, c, limit);
    assert forall k :: k in store' <==> k in s'.held;
  }

  lemma GetFollows(store: map<string, CacheEntry>, order: seq<string>, s: Kept, c: Call, limit: nat)
    requires Follows(store, order, s) && c.op.GetOp?
    requires forall k :: k in order <==> k in store
    ensures var key := c.op.key;
            && (Alive(s, key, c.at) <==> key in store && (store[key].expiresAt.None? || c.at < store[key].expiresAt.value))
            && (Alive(s, key, c.at) ==> store[key].value == s.held[key].value
                                        && Follows(store[key := store[key].(accessedAt := c.at)], Touched(order, key), Did(s, c, limit)))
            && (!Alive(s, key, c.at) ==> Follows(store - {key}, Without(order, key), Did(s, c, limit)))
            && (key !in store ==> Follows(store, order, Did(s, c, limit)))
  {
    hide Without, Touched;
    AbsentKey(order, c.op.key);
    assert c.op.key !in store ==> store - {c.op.key} == store;
  }

  lemma DelFollows(store: map<string, CacheEntry>, order: seq<string>, s: Kept, c: Call, limit: nat)
    requires Follows(store, order, s) && c.op.DelOp?
    ensures var key := c.op.key;
            && (Alive(s, key, c.at) <==> key in store && (store[key].expiresAt.None? || c.at < store[key].expiresAt.value))
            && Follows(store - {key}, Without(order, key), Did(s, c, limit))
  {
    hide Without, Touched;
  }

  lemma ExpireFollows(store: map<string, CacheEntry>, order: seq<string>, s: Kept, c: Call, limit: nat)
    requires Follows(store, order, s) && c.op.ExpireOp?
    ensures var key := c.op.key;
            && (Alive(s, key, c.at) <==> key in store && (store[key].expiresAt.None? || c.at < store[key].expiresAt.value))
            && (Alive(s, key, c.at) ==> Follows(store[key := store[key].(expiresAt := Some(c.at + c.op.seconds))], order, Did(s, c, limit)))
            && (!Alive(s, key, c.at) ==> Follows(store, order, Did(s, c, limit)))
  {
  }

  lemma KeysInOrder(store: map<string, CacheEntry>, order: seq<string>, clock: nat)
    requires InOrder(store, order, clock)
    ensures NoRepeats(order) && forall k :: k in order <==> k in store
  {
  }

  lemma KeysAfterSet(order: seq<string>, key: string, limit: nat)
    requires NoRepeats(order)
    ensures forall k :: k in EvictThenInsert(order, key, limit) <==> k == key || (k in order && k !in LruRuns.Victims(order, key, limit))
  {
    if order != [] {
      FirstDropped(order);
    }
  }

  lemma AbsentKey(order: seq<string>, key: string)
    ensures key !in order ==> Without(order, key) == order
  {
    WithoutAbsentIf(order, key);
  }

  /** Every run of the cache, with times that increase, keeps and answers what the
      specification says, and logs its writes and the deletions and deadlines that succeeded. */
  method RunTimed(calls: seq<Call>, limit: nat, logged: bool) returns (a: Cache, answers: seq<Answer>)
    requires Timed(calls)
    ensures fresh(a) && a.Valid() && a.logged == logged && a.maxKeys == limit
    ensures |answers| == |calls| && forall i :: 0 <= i < |calls| ==> answers[i] == AnswerAt(calls, limit, i)
    ensures Follows(a.store, a.order, After(calls, limit))
    ensures a.log == if logged then LogAfter(calls, limit) else []
  {
    hide InOrder, Recorded, Replay, ReplayOrder, After, LogAfter, Did, Follows, AnswerOf, RecordOf;
    NothingDone(limit);
    NothingFollows();
    if logged {
      a := new Cache.Open([], limit, 0);
      NoValues(a.store);
    } else {
      a := new Cache.InMemory(limit);
    }
    answers := [];
    assert calls[..0] == [];
    for i := 0 to |calls|
      invariant fresh(a) && a.Valid() && a.logged == logged && a.maxKeys == limit
      invariant i > 0 ==> a.clock <= calls[i - 1].at + 1
      invariant i == 0 ==> a.clock == 0
      invariant |answers| == i && forall k :: 0 <= k < i ==> answers[k] == AnswerAt(calls, limit, k)
      invariant Follows(a.store, a.order, After(calls[..i], limit))
      invariant a.log == if logged then LogAfter(calls[..i], limit) else []
    {
      OneMore(calls, i, limit);
      var answer := Perform(a, calls[i], After(calls[..i], limit));
      answers := answers + [answer];
    }
    assert calls[..|calls|] == calls;
  }

  lemma NothingFollows()
    ensures Follows(map[], [], Kept([], map[])) && Replay([]) == map[] && ReplayOrder([]) == []
  {
  }

  lemma NoValues(store: map<string, CacheEntry>)
    requires Values(store) == map[]
    ensures store == map[]
  {
    assert Values(store).Keys == store.Keys;
  }
}
