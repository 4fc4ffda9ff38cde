/** The plain specification that the key-value stores refine: strictly sorted
    sequences of entries, and the finite maps they stand for. */
module SortedEntries {
  import opened ByteStrings
  import opened Options

  datatype Entry<V> = Entry(key: Bytes, value: V)

  ghost predicate Sorted<V>(s: seq<Entry<V>>) {
    forall i, j :: 0 <= i < j < |s| ==> Less(s[i].key, s[j].key)
  }

  ghost predicate AllBelow<V>(s: seq<Entry<V>>, key: Bytes) {
    forall i :: 0 <= i < |s| ==> Less(s[i].key, key)
  }

  ghost predicate AllAbove<V>(s: seq<Entry<V>>, key: Bytes) {
    forall i :: 0 <= i < |s| ==> Less(key, s[i].key)
  }

  function Below<V>(s: seq<Entry<V>>, key: Bytes): seq<Entry<V>> {
    if s == [] then []
    else if Less(s[0].key, key) then [s[0]] + Below(s[1..], key)
    else Below(s[1..], key)
  }

  function Above<V>(s: seq<Entry<V>>, key: Bytes): seq<Entry<V>> {
    if s == [] then []
    else if Less(key, s[0].key) then [s[0]] + Above(s[1..], key)
    else Above(s[1..], key)
  }

  /** `s` with `key` bound to `value`. */
  function Put<V>(s: seq<Entry<V>>, key: Bytes, value: V): seq<Entry<V>> {
    Below(s, key) + [Entry(key, value)] + Above(s, key)
  }

  /** `s` without `key`. */
  function Remove<V>(s: seq<Entry<V>>, key: Bytes): seq<Entry<V>> {
    Below(s, key) + Above(s, key)
  }

  function Lookup<V>(s: seq<Entry<V>>, key: Bytes): Option<V> {
    if s == [] then None
    else if s[0].key == key then Some(s[0].value)
    else Lookup(s[1..], key)
  }

  /** The entries whose keys lie in the closed interval from `low` to `high`. */
  function Between<V>(s: seq<Entry<V>>, low: Bytes, high: Bytes): seq<Entry<V>> {
    if s == [] then []
    else if AtMost(low, s[0].key) && AtMost(s[0].key, high) then [s[0]] + Between(s[1..], low, high)
    else Between(s[1..], low, high)
  }

  /** The map that `s` stands for. */
  function Content<V>(s: seq<Entry<V>>): map<Bytes, V> {
    if s == [] then map[] else Content(s[1..])[s[0].key := s[0].value]
  }

  // ---- The filters distribute over concatenation ----

  lemma {:induction false} BelowConcat<V>(a: seq<Entry<V>>, b: seq<Entry<V>>, key: Bytes)
    ensures Below(a + b, key) == Below(a, key) + Below(b, key)
  {
    if a == [] {
      assert a + b == b;
    } else {
      assert (a + b)[1..] == a[1..] + b;
      BelowConcat(a[1..], b, key);
    }
  }

  lemma {:induction false} AboveConcat<V>(a: seq<Entry<V>>, b: seq<Entry<V>>, key: Bytes)
    ensures Above(a + b, key) == Above(a, key) + Above(b, key)
  {
    if a == [] {
      assert a + b == b;
    } else {
      assert (a + b)[1..] == a[1..] + b;
      AboveConcat(a[1..], b, key);
    }
  }

  lemma {:induction false} BetweenConcat<V>(a: seq<Entry<V>>, b: seq<Entry<V>>, low: Bytes, high: Bytes)
    ensures Between(a + b, low, high) == Between(a, low, high) + Between(b, low, high)
  {
    if a == [] {
      assert a + b == b;
    } else {
      assert (a + b)[1..] == a[1..] + b;
      BetweenConcat(a[1..], b, low, high);
    }
  }

  lemma {:induction false} LookupConcat<V>(a: seq<Entry<V>>, b: seq<Entry<V>>, key: Bytes)
    ensures Lookup(a + b, key) == if Lookup(a, key).Some? then Lookup(a, key) else Lookup(b, key)
  {
    if a == [] {
      assert a + b == b;
    } else {
      assert (a + b)[1..] == a[1..] + b;
      LookupConcat(a[1..], b, key);
    }
  }

  lemma {:induction false} FiltersOfAllBelow<V>(s: seq<Entry<V>>, key: Bytes)
    requires AllBelow(s, key)
    ensures Below(s, key) == s && Above(s, key) == [] && Lookup(s, key) == None
  {
    if s != [] {
      LessAsymmetric(s[0].key, key);
      FiltersOfAllBelow(s[1..], key);
    }
  }

  lemma {:induction false} FiltersOfAllAbove<V>(s: seq<Entry<V>>, key: Bytes)
    requires AllAbove(s, key)
    ensures Below(s, key) == [] && Above(s, key) == s && Lookup(s, key) == None
  {
    if s != [] {
      LessAsymmetric(key, s[0].key);
      FiltersOfAllAbove(s[1..], key);
    }
  }

  lemma BelowAround<V>(a: seq<Entry<V>>, b: seq<Entry<V>>, c: seq<Entry<V>>, key: Bytes)
    requires AllBelow(a, key) && AllAbove(c, key)
    ensures Below(a + b + c, key) == a + Below(b, key)
  {
    FiltersOfAllBelow(a, key);
    FiltersOfAllAbove(c, key);
    BelowConcat(a + b, c, key);
    BelowConcat(a, b, key);
  }

  lemma AboveAround<V>(a: seq<Entry<V>>, b: seq<Entry<V>>, c: seq<Entry<V>>, key: Bytes)
    requires AllBelow(a, key) && AllAbove(c, key)
    ensures Above(a + b + c, key) == Above(b, key) + c
  {
    FiltersOfAllBelow(a, key);
    FiltersOfAllAbove(c, key);
    AboveConcat(a + b, c, key);
    AboveConcat(a, b, key);
  }

  lemma LookupAround<V>(a: seq<Entry<V>>, b: seq<Entry<V>>, c: seq<Entry<V>>, key: Bytes)
    requires AllBelow(a, key) && AllAbove(c, key)
    ensures Lookup(a + b + c, key) == Lookup(b, key)
  {
    FiltersOfAllBelow(a, key);
    FiltersOfAllAbove(c, key);
    LookupConcat(a + b, c, key);
    LookupConcat(a, b, key);
  }

  lemma JoinAround<T>(a: seq<T>, b: seq<T>, x: seq<T>, d: seq<T>, c: seq<T>)
    ensures (a + b) + x + (d + c) == a + (b + x + d) + c
    ensures (a + b) + (d + c) == a + (b + d) + c
  {
  }

  /** An operation on `key` only looks at the part of the entries that can hold it. */
  lemma OnlyTheMiddleMatters<V>(a: seq<Entry<V>>, b: seq<Entry<V>>, c: seq<Entry<V>>, key: Bytes, value: V)
    requires AllBelow(a, key) && AllAbove(c, key)
    ensures Put(a + b + c, key, value) == a + Put(b, key, value) + c
    ensures Remove(a + b + c, key) == a + Remove(b, key) + c
    ensures Lookup(a + b + c, key) == Lookup(b, key)
  {
    BelowAround(a, b, c, key);
    AboveAround(a, b, c, key);
    LookupAround(a, b, c, key);
    JoinAround(a, Below(b, key), [Entry(key, value)], Above(b, key), c);
  }

  /** In a sequence cut around `key`, the operations act at the cut. */
  lemma OperationsAtCut<V>(s: seq<Entry<V>>, p: nat, q: nat, key: Bytes, value: V)
    requires p <= q <= |s| && q <= p + 1
    requires AllBelow(s[..p], key) && AllAbove(s[q..], key)
    requires p < q ==> s[p].key == key
    ensures Put(s, key, value) == s[..p] + [Entry(key, value)] + s[q..]
    ensures Remove(s, key) == s[..p] + s[q..]
    ensures Lookup(s, key) == if p < q then Some(s[p].value) else None
  {
    var b := s[p..q];
    assert s == s[..p] + b + s[q..];
    OnlyTheMiddleMatters(s[..p], b, s[q..], key, value);
    OperationsOnOne(b, key, value);
  }

  lemma OperationsOnOne<V>(b: seq<Entry<V>>, key: Bytes, value: V)
    requires |b| <= 1 && (b != [] ==> b[0].key == key)
    ensures Put(b, key, value) == [Entry(key, value)]
    ensures Remove(b, key) == []
    ensures Lookup(b, key) == if b == [] then None else Some(b[0].value)
  {
    if b != [] {
      assert b[1..] == [];
      if Less(key, key) { LessAsymmetric(key, key); }
    }
  }

  // ---- Sorted sequences stand for maps ----

  lemma {:induction false} ContentKeys<V>(s: seq<Entry<V>>, key: Bytes)
    ensures key in Content(s) <==> exists i :: 0 <= i < |s| && s[i].key == key
  {
    if s != [] {
      ContentKeys(s[1..], key);
      assert forall i :: 0 <= i < |s| - 1 ==> s[1..][i] == s[i + 1];
      if key in Content(s) && key != s[0].key {
        var i :| 0 <= i < |s| - 1 && s[1..][i].key == key;
        assert s[i + 1].key == key;
      }
      if i :| 0 <= i < |s| && s[i].key == key && i > 0 {
        assert s[1..][i - 1].key == key;
      }
    }
  }

  lemma {:induction false} LookupIsContent<V>(s: seq<Entry<V>>, key: Bytes)
    ensures Lookup(s, key) == if key in Content(s) then Some(Content(s)[key]) else None
  {
    if s != [] {
      LookupIsContent(s[1..], key);
    }
  }

  lemma {:induction false} ContentSize<V>(s: seq<Entry<V>>)
    requires Sorted(s)
    ensures |Content(s)| == |s|
  {
    if s != [] {
      ContentSize(s[1..]);
      ContentKeys(s[1..], s[0].key);
      if s[0].key in Content(s[1..]) {
        var i :| 0 <= i < |s| - 1 && s[1..][i].key == s[0].key;
        assert Less(s[0].key, s[i + 1].key);
        LessAsymmetric(s[0].key, s[i + 1].key);
      }
    }
  }

  lemma {:induction false} LookupInSorted<V>(s: seq<Entry<V>>, i: nat)
    requires Sorted(s) && i < |s|
    ensures Lookup(s, s[i].key) == Some(s[i].value)
  {
    if i > 0 {
      assert Less(s[0].key, s[i].key);
      if s[0].key == s[i].key { LessAsymmetric(s[0].key, s[i].key); }
      LookupInSorted(s[1..], i - 1);
    }
  }

  /** Where a key falls in a sorted sequence. */
  lemma {:induction false} CutOf<V>(s: seq<Entry<V>>, key: Bytes) returns (p: nat, q: nat)
    requires Sorted(s)
    ensures p <= q <= |s| && q <= p + 1
    ensures AllBelow(s[..p], key) && AllAbove(s[q..], key)
    ensures p < q ==> s[p].key == key
  {
    if s == [] {
      p, q := 0, 0;
    } else if Less(s[0].key, key) {
      p, q := CutOf(s[1..], key);
      p, q := p + 1, q + 1;
      assert s[..p] == [s[0]] + s[1..][..p - 1];
      assert s[q..] == s[1..][q - 1..];
    } else {
      LessConnected(s[0].key, key);
      p, q := 0, if s[0].key == key then 1 else 0;
      forall i | q <= i < |s| ensures Less(key, s[i].key) {
        if i > 0 {
          assert Less(s[0].key, s[i].key);
          if s[0].key != key { LessTransitive(key, s[0].key, s[i].key); }
        }
      }
    }
  }

  lemma SortedAroundCut<V>(s: seq<Entry<V>>, p: nat, q: nat, key: Bytes, value: V)
    requires Sorted(s) && p <= q <= |s|
    requires AllBelow(s[..p], key) && AllAbove(s[q..], key)
    ensures Sorted(s[..p] + [Entry(key, value)] + s[q..])
    ensures Sorted(s[..p] + s[q..])
  {
    var a, c := s[..p], s[q..];
    forall i, j | 0 <= i < |a| && 0 <= j < |c| ensures Less(a[i].key, c[j].key) {
      LessTransitive(a[i].key, key, c[j].key);
    }
  }

  /** Put and Remove are map update and map removal, and keep the order. */
  lemma PutRemoveContent<V>(s: seq<Entry<V>>, key: Bytes, value: V)
    requires Sorted(s)
    ensures Sorted(Put(s, key, value)) && Content(Put(s, key, value)) == Content(s)[key := value]
    ensures Sorted(Remove(s, key)) && Content(Remove(s, key)) == Content(s) - {key}
  {
    var p, q := CutOf(s, key);
    SortedAroundCut(s, p, q, key, value);
    OperationsAtCut(s, p, q, key, value);
    forall k: Bytes
      ensures Lookup(Put(s, key, value), k) == if k == key then Some(value) else Lookup(s, k)
      ensures Lookup(Remove(s, key), k) == if k == key then None else Lookup(s, k)
    {
      LookupAtCut(s, p, q, key, value, k);
    }
    forall k: Bytes ensures Lookup(s, k) == if k in Content(s) then Some(Content(s)[k]) else None {
      LookupIsContent(s, k);
    }
    ContentByLookup(Put(s, key, value), Content(s)[key := value]);
    ContentByLookup(Remove(s, key), Content(s) - {key});
  }

  lemma LookupAtCut<V>(s: seq<Entry<V>>, p: nat, q: nat, key: Bytes, value: V, k: Bytes)
    requires p <= q <= |s| && q <= p + 1
    requires AllBelow(s[..p], key) && AllAbove(s[q..], key)
    requires p < q ==> s[p].key == key
    ensures Lookup(s[..p] + [Entry(key, value)] + s[q..], k) == if k == key then Some(value) else Lookup(s, k)
    ensures Lookup(s[..p] + s[q..], k) == if k == key then None else Lookup(s, k)
  {
    var a, b, c, d := s[..p], s[p..q], s[q..], [Entry(key, value)];
    assert s == a + b + c;
    LookupConcat(a + b, c, k);
    LookupConcat(a, b, k);
    LookupConcat(a + d, c, k);
    LookupConcat(a, d, k);
    LookupConcat(a, c, k);
    assert d[1..] == [];
    assert b != [] ==> b[1..] == [];
    if k == key {
      FiltersOfAllBelow(a, key);
      FiltersOfAllAbove(c, key);
    }
  }

  lemma ContentByLookup<V>(t: seq<Entry<V>>, m: map<Bytes, V>)
    requires forall k :: Lookup(t, k) == if k in m then Some(m[k]) else None
    ensures Content(t) == m
  {
    forall k: Bytes
      ensures k in Content(t) <==> k in m
      ensures k in m ==> Content(t)[k] == m[k]
    {
      assert Lookup(t, k) == if k in m then Some(m[k]) else None;
      LookupIsContent(t, k);
    }
  }

  // ---- Intervals ----

  lemma {:induction false} BetweenOutside<V>(s: seq<Entry<V>>, low: Bytes, high: Bytes)
    requires AllBelow(s, low) || AllAbove(s, high)
    ensures Between(s, low, high) == []
  {
    if s != [] {
      assert AllBelow(s, low) ==> Less(s[0].key, low);
      assert AllAbove(s, high) ==> Less(high, s[0].key);
      BetweenOutside(s[1..], low, high);
    }
  }

  lemma {:induction false} BetweenMember<V>(s: seq<Entry<V>>, low: Bytes, high: Bytes, e: Entry<V>)
    ensures e in Between(s, low, high) <==> e in s && AtMost(low, e.key) && AtMost(e.key, high)
  {
    if s != [] {
      assert s == [s[0]] + s[1..];
      BetweenMember(s[1..], low, high, e);
    }
  }

  lemma {:induction false} BetweenSorted<V>(s: seq<Entry<V>>, low: Bytes, high: Bytes)
    requires Sorted(s)
    ensures Sorted(Between(s, low, high))
  {
    if s != [] {
      var r := Between(s[1..], low, high);
      BetweenSorted(s[1..], low, high);
      forall i | 0 <= i < |r| ensures Less(s[0].key, r[i].key) {
        BetweenMember(s[1..], low, high, r[i]);
        assert r[i] in r;
        var j :| 0 <= j < |s[1..]| && s[1..][j] == r[i];
        assert s[j + 1] == r[i];
      }
    }
  }

  lemma MemberIsBinding<V>(s: seq<Entry<V>>, e: Entry<V>)
    requires Sorted(s)
    ensures e in s <==> e.key in Content(s) && Content(s)[e.key] == e.value
  {
    LookupIsContent(s, e.key);
    ContentKeys(s, e.key);
    if i :| 0 <= i < |s| && s[i].key == e.key {
      LookupInSorted(s, i);
      if e in s {
        var j :| 0 <= j < |s| && s[j] == e;
        LookupInSorted(s, j);
      }
    }
  }

  /** An interval query returns, in key order, exactly the bindings of the map whose
      keys lie in the interval. */
  lemma BetweenMeaning<V>(s: seq<Entry<V>>, low: Bytes, high: Bytes)
    requires Sorted(s)
    ensures Sorted(Between(s, low, high))
    ensures forall e :: e in Between(s, low, high) <==>
              e.key in Content(s) && Content(s)[e.key] == e.value && AtMost(low, e.key) && AtMost(e.key, high)
  {
    BetweenSorted(s, low, high);
    forall e ensures e in Between(s, low, high) <==>
              e.key in Content(s) && Content(s)[e.key] == e.value && AtMost(low, e.key) && AtMost(e.key, high)
    {
      BetweenMember(s, low, high, e);
      MemberIsBinding(s, e);
    }
  }
}
