/** Continuous batching: requests wait in a priority queue, share the batch, and leave it
    when they are complete. */
module BatchEngine {
  import opened Options
  import opened PagedCache

  /** How far a request has come: its tokens, whether the model's state for them is kept,
      and whether it is complete. */
  datatype Progress = Progress(tokens: seq<int>, prefilled: bool, complete: bool)

  class InferenceRequest {
    const requestId: RequestId
    const maxTokens: int
    const priority: int
    const hasCallback: bool
    var generated: seq<int>
    var prefilled: bool
    var isComplete: bool

    constructor (requestId: RequestId, maxTokens: int, priority: int, hasCallback: bool)
      ensures this.requestId == requestId && this.maxTokens == maxTokens
      ensures this.priority == priority && this.hasCallback == hasCallback
      ensures Now() == NOT_STARTED
    {
      this.requestId, this.maxTokens, this.priority, this.hasCallback := requestId, maxTokens, priority, hasCallback;
      generated, prefilled, isComplete := [], false, false;
    }

    ghost function Now(): Progress
      reads this
    {
      Progress(generated, prefilled, isComplete)
    }

    /** At least one token is always generated. */
    ghost function Budget(): nat {
      if maxTokens < 1 then 1 else maxTokens
    }
  }

  const NOT_STARTED: Progress := Progress([], false, false)

  ghost predicate Running(r: InferenceRequest, p: Progress, eos: int) {
    && |p.tokens| < r.Budget() && eos !in p.tokens
    && (p.prefilled <==> p.tokens != []) && !p.complete
  }

  ghost predicate Done(r: InferenceRequest, p: Progress, eos: int) {
    Whole(r, p.tokens, eos) && p.complete && !p.prefilled
  }

  /** The last token ended the text, or the tokens are as many as allowed. */
  ghost predicate Whole(r: InferenceRequest, tokens: seq<int>, eos: int) {
    && 0 < |tokens| <= r.Budget() && eos !in tokens[..|tokens| - 1]
    && (tokens[|tokens| - 1] == eos || |tokens| == r.Budget())
  }

  predicate LastToken(r: InferenceRequest, tokens: seq<int>, eos: int) {
    tokens != [] && (tokens[|tokens| - 1] == eos || |tokens| >= r.maxTokens)
  }

  // ---- The queue ----

  datatype Entry = Entry(priority: int, arrival: nat, request: InferenceRequest)

  /** Lower priority numbers first, and among equals the earlier arrival. */
  predicate Before(a: Entry, b: Entry) {
    a.priority < b.priority || (a.priority == b.priority && a.arrival < b.arrival)
  }

  function RequestsIn(heap: seq<Entry>): (r: seq<InferenceRequest>)
    ensures |r| == |heap| && forall i :: 0 <= i < |r| ==> r[i] == heap[i].request
  {
    if heap == [] then [] else [heap[0].request] + RequestsIn(heap[1..])
  }

  class RequestQueue {
    /** The entries of the heap in the order of their arrival; how the heap arranges them
        is not modelled. */
    var heap: seq<Entry>
    var counter: nat

    ghost predicate Valid()
      reads this
    {
      && (forall i :: 0 <= i < |heap| ==> heap[i].arrival < counter)
      && (forall i, j :: 0 <= i < j < |heap| ==> heap[i].arrival < heap[j].arrival)
      && (forall i :: 0 <= i < |heap| ==> heap[i].priority == heap[i].request.priority)
    }

    constructor ()
      ensures Valid() && heap == []
    {
      heap, counter := [], 0;
    }

    method Push(request: InferenceRequest)
      requires Valid()
      modifies this
      ensures Valid() && heap == old(heap) + [Entry(request.priority, old(counter), request)] && counter == old(counter) + 1
    {
      heap := heap + [Entry(request.priority, counter, request)];
      counter := counter + 1;
    }

    /** An entry of the lowest priority number, and of these the one that came first. */
    method Pop() returns (request: Option<InferenceRequest>, ghost at: nat)
      requires Valid()
      modifies this
      ensures Valid()
      ensures request.None? <==> old(heap) == []
      ensures request.None? ==> heap == old(heap)
      ensures request.Some? ==>
                && at < |old(heap)| && request.value == old(heap)[at].request
                && heap == old(heap)[..at] + old(heap)[at + 1..]
                && (forall e :: e in heap ==> old(heap)[at].priority <= e.priority)
                && (forall e :: e in heap && e.priority == old(heap)[at].priority ==> old(heap)[at].arrival < e.arrival)
      ensures counter == old(counter)
    {
      at := 0;
      if heap == [] { return None, 0; }
      var least := 0;
      for i := 1 to |heap|
        invariant 0 <= least < i && heap == old(heap) && counter == old(counter)
        invariant forall j :: 0 <= j < i && j != least ==> Before(heap[least], heap[j])
      {
        if Before(heap[i], heap[least]) {
          least := i;
        }
      }
      request, at := Some(heap[least].request), least;
      heap := heap[..least] + heap[least + 1..];
    }
  }

  /** By priority number, and among equals by arrival. */
  ghost predicate InOrder(es: seq<Entry>) {
    forall i, j :: 0 <= i < j < |es| ==>
      es[i].priority < es[j].priority || (es[i].priority == es[j].priority && es[i].arrival < es[j].arrival)
  }

  ghost predicate Precede(es: seq<Entry>, rest: seq<Entry>) {
    forall e, e' :: e in es && e' in rest ==>
      e.priority < e'.priority || (e.priority == e'.priority && e.arrival < e'.arrival)
  }

  /** `taken` and `rest` are what there was, each entry once. */
  ghost predicate Parted(was: seq<Entry>, taken: seq<Entry>, rest: seq<Entry>) {
    && (forall e :: e in was ==> e in taken || e in rest)
    && (forall e :: e in taken ==> e in was)
    && (forall e :: e in rest ==> e in was)
    && (forall e :: e in taken ==> e !in rest)
    && (forall i, j :: 0 <= i < j < |rest| ==> rest[i].arrival < rest[j].arrival)
  }

  ghost predicate OneTaken(before: seq<Entry>, e: Entry, after: seq<Entry>) {
    && (forall e' :: e' in before ==> e' in after || e' == e)
    && (forall e' :: e' in after ==> e' in before)
    && e in before
    && (forall e' :: e' in after ==> e.priority < e'.priority || (e.priority == e'.priority && e.arrival < e'.arrival))
    && (forall i, j :: 0 <= i < j < |after| ==> after[i].arrival < after[j].arrival)
  }

  lemma OneAdmitted(was: seq<Entry>, es: seq<Entry>, e: Entry, before: seq<Entry>, after: seq<Entry>)
    requires InOrder(es) && Precede(es, before) && Parted(was, es, before) && OneTaken(before, e, after)
    ensures InOrder(es + [e]) && Precede(es + [e], after) && Parted(was, es + [e], after)
  {
    assert e in before;
    OneMoreInOrder(es, e, before);
    hide InOrder;
    assert forall e' :: e' in es + [e] <==> e' in es || e' == e;
  }

  lemma OneMoreInOrder(es: seq<Entry>, e: Entry, before: seq<Entry>)
    requires InOrder(es) && Precede(es, before) && e in before
    ensures InOrder(es + [e])
  {
    assert forall i :: 0 <= i < |es| ==> es[i] in es;
  }

  function PlaceIn(was: seq<Entry>, e: Entry): (k: nat)
    requires e in was
    ensures k < |was| && was[k] == e
  {
    if was[0] == e then 0 else 1 + PlaceIn(was[1..], e)
  }

  function PlacesIn(was: seq<Entry>, es: seq<Entry>): (places: seq<nat>)
    requires forall e :: e in es ==> e in was
    ensures |places| == |es|
    ensures forall k :: 0 <= k < |es| ==> places[k] < |was| && was[places[k]] == es[k]
  {
    seq(|es|, k requires 0 <= k < |es| => assert es[k] in es; PlaceIn(was, es[k]))
  }

  /** The requests `taken` had stood at `places` among those waiting, which are in the order
      of their priority numbers, and among equals of submission; those at `others` come
      later, and keep their order. */
  ghost predicate AdmittedFirst(was: seq<InferenceRequest>, taken: seq<InferenceRequest>, rest: seq<InferenceRequest>, places: seq<nat>, others: seq<nat>) {
    && |places| == |taken| && |others| == |rest|
    && (forall k :: 0 <= k < |places| ==> places[k] < |was| && taken[k] == was[places[k]])
    && (forall k :: 0 <= k < |others| ==> others[k] < |was| && rest[k] == was[others[k]])
    && (forall i :: 0 <= i < |was| ==> (i in places <==> i !in others))
    && (forall k, l :: 0 <= k < l < |places| ==>
          taken[k].priority < taken[l].priority || (taken[k].priority == taken[l].priority && places[k] < places[l]))
    && (forall k, l :: 0 <= k < |places| && 0 <= l < |others| ==>
          taken[k].priority < rest[l].priority || (taken[k].priority == rest[l].priority && places[k] < others[l]))
    && (forall k, l :: 0 <= k < l < |others| ==> others[k] < others[l])
  }

  lemma PlacesOf(was: seq<Entry>, taken: seq<Entry>, rest: seq<Entry>)
    requires forall i, j :: 0 <= i < j < |was| ==> was[i].arrival < was[j].arrival
    requires forall i :: 0 <= i < |was| ==> was[i].priority == was[i].request.priority
    requires InOrder(taken) && Precede(taken, rest) && Parted(was, taken, rest)
    ensures AdmittedFirst(RequestsIn(was), RequestsIn(taken), RequestsIn(rest), PlacesIn(was, taken), PlacesIn(was, rest))
  {
    hide InOrder, Precede, Parted, PlacesIn, RequestsIn;
    PlacesFound(was, taken, rest);
    var places, others := PlacesIn(was, taken), PlacesIn(was, rest);
    RequestsPlaced(was, taken);
    RequestsPlaced(was, rest);
    forall i | 0 <= i < |was| ensures i in places <==> i !in others {
      EitherPlace(was, taken, rest, i);
    }
    forall k, l | 0 <= k < |taken| && 0 <= l < |rest|
      ensures taken[k].priority < rest[l].priority || (taken[k].priority == rest[l].priority && places[k] < others[l])
    {
      PlacesApart(was, taken, rest, k, l);
    }
    forall k, l | 0 <= k < l < |taken|
      ensures taken[k].priority < taken[l].priority || (taken[k].priority == taken[l].priority && places[k] < places[l])
    {
      PlacesInOrder(was, taken, k, l);
    }
    forall k, l | 0 <= k < l < |rest| ensures others[k] < others[l] {
      assert was[others[k]].arrival < was[others[l]].arrival;
    }
  }

  lemma RequestsPlaced(was: seq<Entry>, es: seq<Entry>)
    requires forall e :: e in es ==> e in was
    ensures forall k :: 0 <= k < |es| ==> PlacesIn(was, es)[k] < |was| && RequestsIn(es)[k] == RequestsIn(was)[PlacesIn(was, es)[k]]
  {
    hide PlacesIn;
  }

  lemma PlacesApart(was: seq<Entry>, taken: seq<Entry>, rest: seq<Entry>, k: nat, l: nat)
    requires forall i, j :: 0 <= i < j < |was| ==> was[i].arrival < was[j].arrival
    requires Precede(taken, rest) && Parted(was, taken, rest) && k < |taken| && l < |rest|
    ensures taken[k].priority <= rest[l].priority
    ensures taken[k].priority == rest[l].priority ==> PlacesIn(was, taken)[k] < PlacesIn(was, rest)[l]
  {
    hide PlacesIn;
    assert taken[k] in taken && rest[l] in rest;
  }

  lemma PlacesInOrder(was: seq<Entry>, taken: seq<Entry>, k: nat, l: nat)
    requires forall i, j :: 0 <= i < j < |was| ==> was[i].arrival < was[j].arrival
    requires InOrder(taken) && (forall e :: e in taken ==> e in was) && k < l < |taken|
    ensures taken[k].priority <= taken[l].priority
    ensures taken[k].priority == taken[l].priority ==> PlacesIn(was, taken)[k] < PlacesIn(was, taken)[l]
  {
    hide PlacesIn;
  }

  lemma PlacesFound(was: seq<Entry>, taken: seq<Entry>, rest: seq<Entry>)
    requires Parted(was, taken, rest)
    ensures (forall e :: e in taken ==> e in was) && (forall e :: e in rest ==> e in was)
    ensures forall k, l :: 0 <= k < l < |rest| ==> rest[k].arrival < rest[l].arrival
  {
  }

  lemma EitherPlace(was: seq<Entry>, taken: seq<Entry>, rest: seq<Entry>, i: nat)
    requires forall i, j :: 0 <= i < j < |was| ==> was[i].arrival < was[j].arrival
    requires Parted(was, taken, rest) && i < |was|
    ensures i in PlacesIn(was, taken) <==> i !in PlacesIn(was, rest)
  {
    var places, others := PlacesIn(was, taken), PlacesIn(was, rest);
    assert was[i] in was;
    assert i in places ==> was[i] in taken;
    assert i in others ==> was[i] in rest;
    if was[i] in taken {
      var k :| 0 <= k < |taken| && taken[k] == was[i];
      assert places[k] == i;
    } else {
      var k :| 0 <= k < |rest| && rest[k] == was[i];
      assert others[k] == i;
    }
  }

  // ---- Who is where ----

  ghost predicate SeparateIds(s: set<InferenceRequest>) {
    forall r, r' :: r in s && r' in s && r.requestId == r'.requestId ==> r == r'
  }

  /** Each of the submitted requests is in one of three lists, once. */
  ghost predicate Placed(submitted: set<InferenceRequest>, active: seq<InferenceRequest>, waiting: seq<InferenceRequest>, finished: seq<InferenceRequest>) {
    && SeparateIds(submitted)
    && (forall r :: r in submitted ==> r in active || r in waiting || r in finished)
    && (forall r :: r in active ==> r in submitted)
    && (forall r :: r in waiting ==> r in submitted)
    && (forall r :: r in finished ==> r in submitted)
    && Distinct(active) && Distinct(waiting) && Distinct(finished)
    && (forall r :: r in active ==> r !in waiting && r !in finished)
    && (forall r :: r in waiting ==> r !in finished)
  }

  /** The engine's requests and how far they are. */
  datatype State = State(
    submitted: set<InferenceRequest>, progress: map<InferenceRequest, Progress>,
    active: seq<InferenceRequest>, waiting: seq<InferenceRequest>, finished: seq<InferenceRequest>,
    holders: set<RequestId>, calls: seq<Call>)

  /** One call of a callback: the request and the tokens of its text. */
  datatype Call = Call(id: RequestId, tokens: seq<int>)

  /** Every submitted request is waiting, active or finished, and only one of these; only
      active requests hold pages; each finished one has been called back once. The one
      request that `between` may name is between two of these states. */
  ghost predicate Consistent(s: State, maxBatchSize: int, eos: int, between: Option<InferenceRequest>) {
    && Placed(s.submitted, s.active, s.waiting, s.finished)
    && s.progress.Keys == s.submitted
    && (forall r :: r in s.active && between != Some(r) ==> Running(r, s.progress[r], eos))
    && (forall r :: r in s.waiting ==> s.progress[r] == NOT_STARTED)
    && (forall r :: r in s.finished ==> Done(r, s.progress[r], eos))
    && (s.active == [] || |s.active| <= maxBatchSize)
    && (forall id :: id in s.holders ==> HasId(s.active, id))
    && s.calls == CallsFor(s.finished, s.progress)
  }

  ghost predicate HasId(s: seq<InferenceRequest>, id: RequestId) {
    exists r :: r in s && r.requestId == id
  }

  
  /** Tokens that may still have to be generated for a request. */
  ghost function Left(r: InferenceRequest, progress: map<InferenceRequest, Progress>): int {
    if r in progress then r.Budget() - |progress[r].tokens| else 0
  }

  ghost function Work(s: seq<InferenceRequest>, progress: map<InferenceRequest, Progress>): int {
    if s == [] then 0 else Left(s[0], progress) + Work(s[1..], progress)
  }

  lemma {:induction false} WorkConcat(a: seq<InferenceRequest>, b: seq<InferenceRequest>, progress: map<InferenceRequest, Progress>)
    ensures Work(a + b, progress) == Work(a, progress) + Work(b, progress)
  {
    if a == [] {
      assert a + b == b;
    } else {
      assert (a + b)[1..] == a[1..] + b;
      WorkConcat(a[1..], b, progress);
    }
  }

  lemma {:induction false} WorkOfOthers(s: seq<InferenceRequest>, progress: map<InferenceRequest, Progress>, r: InferenceRequest, p: Progress)
    requires r !in s
    ensures Work(s, progress[r := p]) == Work(s, progress)
  {
    if s != [] {
      WorkOfOthers(s[1..], progress, r, p);
    }
  }

  lemma WorkAround(s: seq<InferenceRequest>, at: nat, progress: map<InferenceRequest, Progress>)
    requires at < |s|
    ensures Work(s, progress) == Work(s[..at] + s[at + 1..], progress) + Left(s[at], progress)
  {
    var r := s[at];
    assert s == s[..at] + ([r] + s[at + 1..]);
    WorkConcat(s[..at], [r] + s[at + 1..], progress);
    WorkConcat([r], s[at + 1..], progress);
    WorkConcat(s[..at], s[at + 1..], progress);
    assert [r][1..] == [];
  }

  lemma WorkOfOneMore(s: seq<InferenceRequest>, r: InferenceRequest, progress: map<InferenceRequest, Progress>)
    ensures Work(s + [r], progress) == Work(s, progress) + Left(r, progress)
  {
    WorkConcat(s, [r], progress);
    assert [r][1..] == [];
  }

  /** While each request has a token left, there is at least so much to do. */
  lemma {:induction false} WorkLeft(s: seq<InferenceRequest>, progress: map<InferenceRequest, Progress>)
    requires forall r :: r in s ==> Left(r, progress) > 0
    ensures Work(s, progress) >= |s|
  {
    if s != [] {
      WorkLeft(s[1..], progress);
    }
  }

  /** The first request equal to `r` is taken out; requests with different ids differ. */
  function Without(s: seq<InferenceRequest>, r: InferenceRequest): seq<InferenceRequest> {
    if s == [] then []
    else if s[0].requestId == r.requestId then s[1..]
    else [s[0]] + Without(s[1..], r)
  }

  lemma {:induction false} WithoutMiddle(kept: seq<InferenceRequest>, r: InferenceRequest, rest: seq<InferenceRequest>)
    requires forall k :: k in kept ==> k.requestId != r.requestId
    ensures Without(kept + ([r] + rest), r) == kept + rest
  {
    var tail := [r] + rest;
    if kept == [] {
      assert kept + tail == tail && tail[1..] == rest && kept + rest == rest;
    } else {
      assert (kept + tail)[1..] == kept[1..] + tail;
      WithoutMiddle(kept[1..], r, rest);
      assert [kept[0]] + (kept[1..] + rest) == kept + rest;
    }
  }

  /** The calls for the finished requests that have a callback, in their order. */
  ghost function CallsFor(s: seq<InferenceRequest>, progress: map<InferenceRequest, Progress>): seq<Call> {
    if s == [] then []
    else
      var last := s[|s| - 1];
      CallsFor(s[..|s| - 1], progress) + if last.hasCallback && last in progress then [Call(last.requestId, progress[last].tokens)] else []
  }

  lemma CallsForOneMore(s: seq<InferenceRequest>, r: InferenceRequest, progress: map<InferenceRequest, Progress>)
    requires r in progress
    ensures CallsFor(s + [r], progress) == CallsFor(s, progress) + if r.hasCallback then [Call(r.requestId, progress[r].tokens)] else []
  {
    assert (s + [r])[..|s|] == s;
  }

  lemma {:induction false} CallsForOthers(s: seq<InferenceRequest>, progress: map<InferenceRequest, Progress>, r: InferenceRequest, p: Progress)
    requires r !in s
    ensures CallsFor(s, progress[r := p]) == CallsFor(s, progress)
  {
    if s != [] {
      CallsForOthers(s[..|s| - 1], progress, r, p);
    }
  }

  // ---- What each step keeps ----

  ghost function TotalWork(s: State): int {
    Work(s.active, s.progress) + Work(s.waiting, s.progress)
  }

  lemma SubmitKeeps(s: State, maxBatchSize: int, eos: int, r: InferenceRequest)
    requires Consistent(s, maxBatchSize, eos, None)
    requires r !in s.submitted && SeparateIds(s.submitted + {r})
    ensures Consistent(s.(submitted := s.submitted + {r}, progress := s.progress[r := NOT_STARTED], waiting := s.waiting + [r]), maxBatchSize, eos, None)
  {
    hide CallsFor, Placed, SeparateIds, Running, Done;
    PlacedSubmitted(s.submitted, s.active, s.waiting, s.finished, r);
    CallsForOthers(s.finished, s.progress, r, NOT_STARTED);
  }

  lemma PlacedSubmitted(submitted: set<InferenceRequest>, active: seq<InferenceRequest>, waiting: seq<InferenceRequest>, finished: seq<InferenceRequest>, r: InferenceRequest)
    requires Placed(submitted, active, waiting, finished) && r !in submitted && SeparateIds(submitted + {r})
    ensures Placed(submitted + {r}, active, waiting + [r], finished)
    ensures r !in active && r !in waiting && r !in finished
  {
    hide SeparateIds;
  }

  lemma AdmitKeeps(s: State, maxBatchSize: int, eos: int, at: nat, holders: set<RequestId>)
    requires Consistent(s, maxBatchSize, eos, None) && at < |s.waiting| && |s.active| < maxBatchSize
    requires holders <= s.holders + {s.waiting[at].requestId}
    ensures var s' := s.(active := s.active + [s.waiting[at]], waiting := s.waiting[..at] + s.waiting[at + 1..], holders := holders);
            Consistent(s', maxBatchSize, eos, None) && TotalWork(s') == TotalWork(s)
    ensures s.waiting[at].requestId !in s.holders && s.waiting[at] in s.submitted
  {
    hide CallsFor, Work;
    var r := s.waiting[at];
    PlacedAdmitted(s.submitted, s.active, s.waiting, s.finished, at);
    WorkAround(s.waiting, at, s.progress);
    WorkOfOneMore(s.active, r, s.progress);
    HasIdOfOneMore(s.active, r);
  }

  lemma TokenKeeps(s: State, maxBatchSize: int, eos: int, at: nat, token: int, holders: set<RequestId>)
    requires Consistent(s, maxBatchSize, eos, None) && at < |s.active|
    requires holders <= s.holders + {s.active[at].requestId}
    ensures s.active[at] in s.progress && s.active[at] in s.submitted && !s.progress[s.active[at]].complete
    ensures var r := s.active[at];
            var tokens := s.progress[r].tokens + [token];
            var s' := s.(progress := s.progress[r := Progress(tokens, true, false)], holders := holders);
            && Consistent(s', maxBatchSize, eos, if LastToken(r, tokens, eos) then Some(r) else None)
            && TotalWork(s') == TotalWork(s) - 1 && (LastToken(r, tokens, eos) ==> Whole(r, tokens, eos))
  {
    hide CallsFor, Work, Placed;
    var r := s.active[at];
    PlacedFinished(s.submitted, s.active, s.waiting, s.finished, at);
    var p := Progress(s.progress[r].tokens + [token], true, false);
    CallsForOthers(s.finished, s.progress, r, p);
    WorkAround(s.active, at, s.progress);
    WorkAround(s.active, at, s.progress[r := p]);
    WorkOfOthers(s.active[..at] + s.active[at + 1..], s.progress, r, p);
    WorkOfOthers(s.waiting, s.progress, r, p);
  }

  lemma FinishKeeps(s: State, maxBatchSize: int, eos: int, at: nat)
    requires at < |s.active| && Consistent(s, maxBatchSize, eos, Some(s.active[at])) && s.active[at] in s.progress
    requires var r := s.active[at]; Whole(r, s.progress[r].tokens, eos)
    ensures var r := s.active[at];
            var p := s.progress[r].(prefilled := false, complete := true);
            var s' := s.(progress := s.progress[r := p], active := s.active[..at] + s.active[at + 1..],
                         finished := s.finished + [r], holders := s.holders - {r.requestId},
                         calls := s.calls + if r.hasCallback then [Call(r.requestId, p.tokens)] else []);
            && Consistent(s', maxBatchSize, eos, None) && TotalWork(s') <= TotalWork(s)
            && Without(s.active, r) == s'.active && r in s.submitted
  {
    hide CallsFor, Work, Placed, Without;
    var r := s.active[at];
    var p := s.progress[r].(prefilled := false, complete := true);
    var others := s.active[..at] + s.active[at + 1..];
    PlacedFinished(s.submitted, s.active, s.waiting, s.finished, at);
    CallsForOthers(s.finished, s.progress, r, p);
    CallsForOneMore(s.finished, r, s.progress[r := p]);
    WorkAround(s.active, at, s.progress);
    WorkOfOthers(others, s.progress, r, p);
    WorkOfOthers(s.waiting, s.progress, r, p);
    WithoutMiddle(s.active[..at], r, s.active[at + 1..]);
    forall id | id in s.holders - {r.requestId} ensures HasId(others, id) {
      assert HasId(s.active, id);
    }
  }

  lemma HasIdOfOneMore(s: seq<InferenceRequest>, r: InferenceRequest)
    ensures HasId(s + [r], r.requestId)
    ensures forall id :: HasId(s, id) ==> HasId(s + [r], id)
  {
    assert r in s + [r];
    forall id | HasId(s, id) ensures HasId(s + [r], id) {
      var q :| q in s && q.requestId == id;
      assert q in s + [r];
    }
  }

  lemma PlacedAdmitted(submitted: set<InferenceRequest>, active: seq<InferenceRequest>, waiting: seq<InferenceRequest>, finished: seq<InferenceRequest>, at: nat)
    requires Placed(submitted, active, waiting, finished) && at < |waiting|
    ensures Placed(submitted, active + [waiting[at]], waiting[..at] + waiting[at + 1..], finished)
    ensures forall r :: r in waiting[..at] + waiting[at + 1..] ==> r in waiting
    ensures waiting[at] in submitted && waiting[at] !in active && !HasId(active, waiting[at].requestId)
  {
    var r := waiting[at];
    var rest := waiting[..at] + waiting[at + 1..];
    assert r in waiting;
    forall r' ensures r' in waiting <==> r' in rest || r' == r {
      if r' in waiting {
        var i :| 0 <= i < |waiting| && waiting[i] == r';
        assert i != at ==> r' == rest[if i < at then i else i - 1];
      }
    }
  }

  lemma PlacedFinished(submitted: set<InferenceRequest>, active: seq<InferenceRequest>, waiting: seq<InferenceRequest>, finished: seq<InferenceRequest>, at: nat)
    requires Placed(submitted, active, waiting, finished) && at < |active|
    ensures var r, others := active[at], active[..at] + active[at + 1..];
            && Placed(submitted, others, waiting, finished + [r])
            && r in submitted && r !in others && r !in waiting && r !in finished
            && (forall r' :: r' in active <==> r' in others || r' == r)
            && (forall r' :: r' in others ==> r'.requestId != r.requestId)
            && active == active[..at] + ([r] + active[at + 1..])
  {
    var r := active[at];
    var others := active[..at] + active[at + 1..];
    assert r in active;
    forall r' ensures r' in active <==> r' in others || r' == r {
      if r' in active {
        var i :| 0 <= i < |active| && active[i] == r';
        assert i != at ==> r' == others[if i < at then i else i - 1];
      }
    }
  }

  /** `r` got one token more, and nobody else did. */
  ghost predicate OneToken(before: map<InferenceRequest, Progress>, after: map<InferenceRequest, Progress>, r: InferenceRequest) {
    && r in before && r in after && after == before[r := after[r]]
    && before[r].tokens <= after[r].tokens && |after[r].tokens| == |before[r].tokens| + 1
  }

  /** Each request of the batch got one token more, and nobody else did. */
  ghost predicate Stepped(before: map<InferenceRequest, Progress>, after: map<InferenceRequest, Progress>, batch: seq<InferenceRequest>) {
    && after.Keys == before.Keys
    && (forall r :: r in before && r !in batch ==> after[r] == before[r])
    && (forall r :: r in before && r in batch ==>
          before[r].tokens <= after[r].tokens && |after[r].tokens| == |before[r].tokens| + 1)
  }

  lemma NothingStepped(progress: map<InferenceRequest, Progress>)
    ensures Stepped(progress, progress, [])
  {
  }

  lemma OneStepped(first: map<InferenceRequest, Progress>, before: map<InferenceRequest, Progress>, after: map<InferenceRequest, Progress>,
                   batch: seq<InferenceRequest>, r: InferenceRequest)
    requires Stepped(first, before, batch) && OneToken(before, after, r) && r !in batch
    ensures Stepped(first, after, batch + [r])
  {
  }

  // ---- The engine ----

  class BatchedEngine {
    const maxBatchSize: int
    const eos: int
    const queue: RequestQueue
    const cache: PagedKVCache
    var active: seq<InferenceRequest>
    var totalTokens: nat

    ghost var submitted: set<InferenceRequest>
    ghost var progress: map<InferenceRequest, Progress>
    ghost var finished: seq<InferenceRequest>
    ghost var calls: seq<Call>

    ghost function Snapshot(): State
      reads this, queue, cache
    {
      State(submitted, progress, active, RequestsIn(queue.heap), finished, cache.requestPages.Keys, calls)
    }

    ghost predicate Valid()
      reads this, queue, cache, submitted
    {
      ValidBut(None)
    }

    ghost predicate ValidBut(between: Option<InferenceRequest>)
      reads this, queue, cache, submitted
    {
      && queue.Valid() && cache.Valid() && cache.AllPacked()
      && Consistent(Snapshot(), maxBatchSize, eos, between)
      && (forall r :: r in submitted ==> r in progress && r.Now() == progress[r])
    }

    constructor (maxBatchSize: int, totalPages: nat, eos: int)
      ensures Valid() && fresh(queue) && fresh(cache)
      ensures this.maxBatchSize == maxBatchSize && this.eos == eos && |cache.pages| == totalPages
      ensures submitted == {} && active == [] && finished == []
    {
      this.maxBatchSize, this.eos := maxBatchSize, eos;
      queue := new RequestQueue();
      cache := new PagedKVCache(totalPages);
      active, totalTokens := [], 0;
      submitted, progress, finished, calls := {}, map[], [], [];
    }

    method Submit(request: InferenceRequest)
      requires Valid() && request.Now() == NOT_STARTED
      requires request !in submitted && SeparateIds(submitted + {request})
      modifies this, queue
      ensures Valid()
      ensures Snapshot() == old(Snapshot()).(submitted := old(submitted) + {request},
                                             progress := old(progress)[request := NOT_STARTED],
                                             waiting := old(Snapshot().waiting) + [request])
    {
      hide Consistent, SeparateIds;
      SubmitKeeps(Snapshot(), maxBatchSize, eos, request);
      RequestsAppend(queue.heap, Entry(request.priority, queue.counter, request));
      queue.Push(request);
      submitted, progress := submitted + {request}, progress[request := NOT_STARTED];
    }

    /** Move waiting requests into the batch while it has room. */
    method Admit() returns (ghost places: seq<nat>, ghost others: seq<nat>)
      requires Valid()
      modifies this, queue, cache
      ensures Valid() && submitted == old(submitted) && finished == old(finished) && progress == old(progress)
      ensures |cache.pages| == old(|cache.pages|) && old(active) <= active
      ensures TotalWork(Snapshot()) == old(TotalWork(Snapshot()))
      ensures active == [] ==> maxBatchSize <= 0 || (old(active) == [] && old(queue.heap) == [])
      ensures |active| >= maxBatchSize || queue.heap == []
      ensures AdmittedFirst(old(Snapshot().waiting), active[|old(active)|..], Snapshot().waiting, places, others)
    {
      hide Valid, InOrder, Precede, Parted, RequestsIn, PlacesIn, TotalWork, AdmittedFirst;
      ghost var was, batch := queue.heap, active;
      ghost var admitted: seq<Entry> := [];
      QueueFacts();
      assert active == batch + RequestsIn([]);
      while |active| < maxBatchSize && |queue.heap| > 0
        invariant Valid() && submitted == old(submitted) && finished == old(finished) && progress == old(progress)
        invariant |cache.pages| == old(|cache.pages|) && old(active) <= active
        invariant TotalWork(Snapshot()) == old(TotalWork(Snapshot()))
        invariant |active| - |old(active)| == |old(queue.heap)| - |queue.heap|
        invariant active == batch + RequestsIn(admitted)
        invariant InOrder(admitted) && Precede(admitted, queue.heap) && Parted(was, admitted, queue.heap)
        decreases |queue.heap|
      {
        ghost var heap := queue.heap;
        ghost var e := AdmitNext();
        OneAdmitted(was, admitted, e, heap, queue.heap);
        RequestsAppend(admitted, e);
        assert batch + RequestsIn(admitted) + [e.request] == batch + (RequestsIn(admitted) + [e.request]);
        admitted := admitted + [e];
      }
      PlacesOf(was, admitted, queue.heap);
      places, others := PlacesIn(was, admitted), PlacesIn(was, queue.heap);
      assert active[|batch|..] == RequestsIn(admitted);
    }

    lemma QueueFacts()
      requires Valid()
      ensures forall i, j :: 0 <= i < j < |queue.heap| ==> queue.heap[i].arrival < queue.heap[j].arrival
      ensures forall i :: 0 <= i < |queue.heap| ==> queue.heap[i].priority == queue.heap[i].request.priority
      ensures InOrder([]) && Precede([], queue.heap) && Parted(queue.heap, [], queue.heap)
    {
    }

    /** Move the first waiting request into the batch, and try to give it a page. */
    method AdmitNext() returns (ghost e: Entry)
      requires Valid() && |active| < maxBatchSize && |queue.heap| > 0
      modifies this, queue, cache
      ensures Valid() && submitted == old(submitted) && finished == old(finished) && progress == old(progress)
      ensures |cache.pages| == old(|cache.pages|)
      ensures |active| == |old(active)| + 1 && old(active) <= active && |queue.heap| == |old(queue.heap)| - 1
      ensures active == old(active) + [e.request] && OneTaken(old(queue.heap), e, queue.heap)
      ensures TotalWork(Snapshot()) == old(TotalWork(Snapshot()))
    {
      hide Consistent, TotalWork, RequestsIn, Before;
      ghost var heap, s := queue.heap, Snapshot();
      var request, at := queue.Pop();
      e := heap[at];
      assert heap == heap[..at] + [e] + heap[at + 1..];
      var req := request.value;
      assert heap[at] in heap;
      EntryTaken(heap, at);
      AdmitKeeps(s, maxBatchSize, eos, at, {});
      active := active + [req];
      var page := cache.AllocatePage(req.requestId);
      AdmitKeeps(s, maxBatchSize, eos, at, cache.requestPages.Keys);
    }

    /** One token for the active request `req`, which leaves the batch if it is the last. */
    method Advance(req: InferenceRequest, ghost at: nat) returns (completed: bool)
      requires Valid() && at < |active| && active[at] == req
      modifies this, cache, req
      ensures Valid() && submitted == old(submitted) && |cache.pages| == old(|cache.pages|)
      ensures OneToken(old(progress), progress, req)
      ensures active == old(if completed then active[..at] + active[at + 1..] else active)
      ensures finished == old(finished) + if completed then [req] else []
      ensures TotalWork(Snapshot()) < old(TotalWork(Snapshot()))
    {
      hide Consistent, TotalWork, LastToken, Whole;
      var nextToken := Generate(req, at);
      var isEos := nextToken == eos;
      var isMaxLen := |req.generated| >= req.maxTokens;
      completed := isEos || isMaxLen;
      LastTokenIs(req, nextToken, eos);
      if completed {
        Complete(req, at);
      }
    }

    /** Ask the model for the next token, and count it. */
    method Generate(req: InferenceRequest, ghost at: nat) returns (nextToken: int)
      requires Valid() && at < |active| && active[at] == req
      modifies `totalTokens, `progress, cache, req
      ensures ValidBut(if LastToken(req, req.generated, eos) then Some(req) else None)
      ensures OneToken(old(progress), progress, req) && progress[req].tokens == req.generated
      ensures req.generated == old(req.generated) + [nextToken] && req in submitted
      ensures LastToken(req, req.generated, eos) ==> Whole(req, req.generated, eos)
      ensures |cache.pages| == old(|cache.pages|)
      ensures TotalWork(Snapshot()) == old(TotalWork(Snapshot())) - 1
    {
      hide Consistent, TotalWork, LastToken, Whole, Returned, OthersKeep, TokensOf, Accounted, Held, Packed;
      ghost var s := Snapshot();
      TokenKeeps(s, maxBatchSize, eos, at, 0, {});
      // The model's answer to the prompt and the tokens so far may be any token.
      nextToken := *;
      req.prefilled := true;
      req.generated := req.generated + [nextToken];
      var recorded := cache.RecordToken(req.requestId);
      totalTokens := totalTokens + 1;
      progress := progress[req := Progress(req.generated, true, false)];
      assert req.generated == s.progress[req].tokens + [nextToken];
      TokenKeeps(s, maxBatchSize, eos, at, nextToken, cache.requestPages.Keys);
      assert Snapshot() == s.(progress := progress, holders := cache.requestPages.Keys);
    }

    /** Free the pages, call back, and take the request out of the batch. */
    method Complete(req: InferenceRequest, ghost at: nat)
      requires at < |active| && active[at] == req && ValidBut(Some(req)) && req in submitted
      requires Whole(req, req.generated, eos)
      modifies this, cache, req
      ensures Valid() && submitted == old(submitted) && |cache.pages| == old(|cache.pages|)
      ensures req.generated == old(req.generated) && req.isComplete
      ensures req in old(progress) && progress == old(progress)[req := old(progress[req]).(prefilled := false, complete := true)]
      ensures active == old(active[..at] + active[at + 1..]) && finished == old(finished) + [req]
      ensures TotalWork(Snapshot()) <= old(TotalWork(Snapshot()))
    {
      hide Consistent, TotalWork, LastToken, Whole, Without, Returned, OthersKeep, TokensOf, Accounted, Held, Packed;
      ghost var s := Snapshot();
      assert req.Now() == progress[req];
      FinishKeeps(s, maxBatchSize, eos, at);
      req.isComplete := true;
      req.prefilled := false;
      var n := cache.FreeRequest(req.requestId);
      if req.hasCallback {
        calls := calls + [Call(req.requestId, req.generated)];
      }
      active := Without(active, req);
      finished := finished + [req];
      progress := progress[req := progress[req].(prefilled := false, complete := true)];
      assert s.calls + [] == s.calls;
    }

    /** Admit, then one token for each request of the batch. */
    method SchedulerStep() returns (completed: seq<InferenceRequest>, ghost batch: seq<InferenceRequest>)
      requires Valid()
      modifies this, queue, cache, submitted
      ensures Valid() && submitted == old(submitted) && |cache.pages| == old(|cache.pages|)
      ensures finished == old(finished) + completed
      ensures old(active) <= batch && Stepped(old(progress), progress, batch)
      ensures TotalWork(Snapshot()) <= old(TotalWork(Snapshot()))
      ensures maxBatchSize > 0 && old(active != [] || queue.heap != []) ==> TotalWork(Snapshot()) < old(TotalWork(Snapshot()))
    {
      hide Valid, TotalWork, Distinct, Stepped, AdmittedFirst, RequestsIn, OneToken, Snapshot;
      ghost var places, others := Admit();
      completed, batch := [], active;
      NothingStepped(progress);
      if active == [] { return; }
      var requests := active;
      BatchFacts();
      ghost var kept := 0;
      for i := 0 to |requests|
        invariant Valid() && submitted == old(submitted) && |cache.pages| == old(|cache.pages|)
        invariant finished == old(finished) + completed
        invariant kept <= |active| && active[kept..] == requests[i..]
        invariant TotalWork(Snapshot()) + i <= old(TotalWork(Snapshot()))
        invariant Stepped(old(progress), progress, requests[..i])
      {
        var req := requests[i];
        NextInBatch(requests, i, active, kept);
        ghost var before := progress;
        var done := Advance(req, kept);
        OneStepped(old(progress), before, progress, requests[..i], req);
        if done {
          completed := completed + [req];
        } else {
          kept := kept + 1;
        }
      }
      assert requests[..|requests|] == requests;
    }

    lemma BatchFacts()
      requires Valid()
      ensures Distinct(active) && forall r :: r in active ==> r in submitted
    {
    }

    /** Step until nothing is left to do, or the steps run out. */
    method RunUntilEmpty(maxSteps: nat)
      requires Valid()
      modifies this, queue, cache, submitted
      ensures Valid() && submitted == old(submitted) && |cache.pages| == old(|cache.pages|)
      ensures maxBatchSize > 0 && old(TotalWork(Snapshot())) <= maxSteps ==>
                && active == [] && queue.heap == []
                && (forall r :: r in submitted ==> r in finished) && Distinct(finished)
                && (forall p :: p in cache.freePageIds <==> 0 <= p < |cache.pages|)
                && calls == CallsFor(finished, progress)
      ensures forall r :: r in finished ==>
                && r in submitted && r.isComplete && 0 < |r.generated| <= r.Budget()
                && eos !in r.generated[..|r.generated| - 1]
                && (r.generated[|r.generated| - 1] == eos || |r.generated| == r.Budget())
    {
      hide Valid, TotalWork, Stepped;
      var step := 0;
      WorkIsLeft();
      while (active != [] || |queue.heap| > 0) && step < maxSteps
        invariant Valid() && submitted == old(submitted) && |cache.pages| == old(|cache.pages|)
        invariant step <= maxSteps
        invariant TotalWork(Snapshot()) >= 0
        invariant active != [] || queue.heap != [] ==> TotalWork(Snapshot()) > 0
        invariant maxBatchSize > 0 ==> TotalWork(Snapshot()) + step <= old(TotalWork(Snapshot()))
      {
        var completed, batch := SchedulerStep();
        WorkIsLeft();
        step := step + 1;
      }
      if active == [] && queue.heap == [] {
        Drained();
      }
      FinishedAreWhole();
    }

    lemma FinishedAreWhole()
      requires Valid()
      ensures forall r :: r in finished ==>
                && r in submitted && r.isComplete && 0 < |r.generated| <= r.Budget()
                && eos !in r.generated[..|r.generated| - 1]
                && (r.generated[|r.generated| - 1] == eos || |r.generated| == r.Budget())
    {
    }

    lemma WorkIsLeft()
      requires Valid()
      ensures TotalWork(Snapshot()) >= |active| + |queue.heap|
    {
      var s := Snapshot();
      WorkLeft(s.active, s.progress);
      WorkLeft(s.waiting, s.progress);
    }

    lemma Drained()
      requires Valid() && active == [] && queue.heap == []
      ensures (forall r :: r in submitted ==> r in finished) && (forall r :: r in finished ==> r in submitted) && Distinct(finished)
      ensures forall p :: p in cache.freePageIds <==> 0 <= p < |cache.pages|
      ensures calls == CallsFor(finished, progress)
    {
      assert Snapshot().waiting == [];
      forall id ensures id !in cache.requestPages {
        assert id in Snapshot().holders ==> HasId(active, id);
      }
      NoListsMeansAllFree(cache.pages, cache.freePageIds, cache.requestPages);
    }
  }

  lemma LastTokenIs(r: InferenceRequest, token: int, eos: int)
    requires r.generated != [] && r.generated[|r.generated| - 1] == token
    ensures LastToken(r, r.generated, eos) <==> token == eos || |r.generated| >= r.maxTokens
  {
  }

  lemma NextInBatch(batch: seq<InferenceRequest>, i: nat, active: seq<InferenceRequest>, kept: nat)
    requires i < |batch| && kept <= |active| && active[kept..] == batch[i..] && Distinct(batch)
    ensures kept < |active| && active[kept] == batch[i] && batch[i] !in batch[..i]
    ensures batch[..i + 1] == batch[..i] + [batch[i]]
    ensures active[kept + 1..] == batch[i + 1..]
    ensures (active[..kept] + active[kept + 1..])[kept..] == batch[i + 1..]
  {
    assert active[kept..][0] == batch[i];
    assert active[kept..][1..] == batch[i..][1..];
  }

  lemma {:induction false} RequestsAppend(heap: seq<Entry>, e: Entry)
    ensures RequestsIn(heap + [e]) == RequestsIn(heap) + [e.request]
  {
  }

  lemma {:induction false} EntryTaken(heap: seq<Entry>, at: nat)
    requires at < |heap|
    ensures RequestsIn(heap[..at] + heap[at + 1..]) == RequestsIn(heap)[..at] + RequestsIn(heap)[at + 1..]
  {
  }
}
