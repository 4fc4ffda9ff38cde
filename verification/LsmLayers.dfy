/** What the layers of the store mean together, and how large a memtable can be. */
module LsmLayers {
  import opened ByteStrings
  import opened Options
  import opened SortedEntries
  import opened LittleEndian
  import opened SsTable

  // ---- Newer layers over older ones ----

  ghost function LiveOf(c: map<Bytes, Value>): map<Bytes, Bytes> {
    map k | k in c && c[k].Live? :: c[k].bytes
  }

  /** The map `m` seen through the records of a newer layer. */
  ghost function Overlay(m: map<Bytes, Bytes>, s: seq<Record>): map<Bytes, Bytes> {
    (m - Content(s).Keys) + LiveOf(Content(s))
  }

  /** The map that layers, newest first, stand for. */
  ghost function ModelOf(layers: seq<seq<Record>>): map<Bytes, Bytes> {
    if layers == [] then map[] else Overlay(ModelOf(layers[1..]), layers[0])
  }

  function BytesOf(v: Value): Option<Bytes> {
    match v
    case Live(b) => Some(b)
    case Tombstone => None
  }

  ghost function Answer(m: map<Bytes, Bytes>, key: Bytes): Option<Bytes> {
    if key in m then Some(m[key]) else None
  }

  /** A key is answered by the newest layer that mentions it. */
  lemma OverlayAnswer(m: map<Bytes, Bytes>, s: seq<Record>, key: Bytes)
    ensures Answer(Overlay(m, s), key) ==
            match Lookup(s, key)
            case Some(v) => BytesOf(v)
            case None => Answer(m, key)
  {
    LookupIsContent(s, key);
  }

  lemma OverlayPut(m: map<Bytes, Bytes>, s: seq<Record>, key: Bytes, bytes: Bytes)
    requires Sorted(s)
    ensures Overlay(m, Put(s, key, Live(bytes))) == Overlay(m, s)[key := bytes]
    ensures Sorted(Put(s, key, Live(bytes)))
  {
    hide Put, Content;
    PutRemoveContent(s, key, Live(bytes));
  }

  lemma OverlayDelete(m: map<Bytes, Bytes>, s: seq<Record>, key: Bytes)
    requires Sorted(s)
    ensures Overlay(m, Put(s, key, Tombstone)) == Overlay(m, s) - {key}
    ensures Sorted(Put(s, key, Tombstone))
  {
    hide Put, Content;
    PutRemoveContent(s, key, Tombstone);
  }

  // ---- Sizes ----

  function RecordWeight(r: Record): nat {
    |r.key| + if r.value.Live? then |r.value.bytes| else 0
  }

  function Weight(s: seq<Record>): nat {
    if s == [] then 0 else RecordWeight(s[0]) + Weight(s[1..])
  }

  lemma {:induction false} WeightConcat(a: seq<Record>, b: seq<Record>)
    ensures Weight(a + b) == Weight(a) + Weight(b)
  {
    if a == [] {
      assert a + b == b;
    } else {
      assert (a + b)[1..] == a[1..] + b;
      WeightConcat(a[1..], b);
    }
  }

  lemma {:induction false} WeightOfParts(s: seq<Record>, key: Bytes)
    ensures Weight(Below(s, key)) + Weight(Above(s, key)) <= Weight(s)
    ensures |Below(s, key)| + |Above(s, key)| <= |s|
  {
    if s != [] {
      WeightOfParts(s[1..], key);
      if Less(s[0].key, key) { LessAsymmetric(s[0].key, key); }
      assert ([s[0]] + Below(s[1..], key))[1..] == Below(s[1..], key);
      assert ([s[0]] + Above(s[1..], key))[1..] == Above(s[1..], key);
    }
  }

  /** Writing a record adds at most its own weight. */
  lemma WeightOfPut(s: seq<Record>, key: Bytes, value: Value)
    ensures Weight(Put(s, key, value)) <= Weight(s) + RecordWeight(Entry(key, value))
    ensures 0 < |Put(s, key, value)| <= |s| + 1
  {
    var r := [Entry(key, value)];
    WeightOfParts(s, key);
    WeightConcat(Below(s, key) + r, Above(s, key));
    WeightConcat(Below(s, key), r);
    assert r[1..] == [];
  }

  /** Distinct keys have at least one byte each, but for one. */
  lemma {:induction false} CountBound(s: seq<Record>)
    requires Sorted(s)
    ensures |s| <= Weight(s) + 1
  {
    if s != [] {
      CountNonEmpty(s[1..], s[0].key);
    }
  }

  lemma {:induction false} CountNonEmpty(s: seq<Record>, below: Bytes)
    requires AllAbove(s, below)
    ensures |s| <= Weight(s)
  {
    if s != [] {
      assert Less(below, s[0].key);
      forall i | 0 <= i < |s[1..]| ensures Less(below, s[1..][i].key) {
        assert s[1..][i] == s[i + 1];
      }
      CountNonEmpty(s[1..], below);
    }
  }

  lemma {:induction false} EncodedSize(s: seq<Record>)
    ensures |EncodeData(s)| <= Weight(s) + 9 * |s|
  {
    if s != [] {
      EncodedSize(s[1..]);
    }
  }

  /** Every record of a put of a fitting record fits. */
  lemma PutFits(s: seq<Record>, key: Bytes, value: Value)
    requires forall i :: 0 <= i < |s| ==> RecordFits(s[i])
    requires RecordFits(Entry(key, value))
    ensures var t := Put(s, key, value); forall i :: 0 <= i < |t| ==> RecordFits(t[i])
  {
    PartsAreMembers(s, key);
    var t := Put(s, key, value);
    forall i | 0 <= i < |t| ensures RecordFits(t[i]) {
      assert t[i] in Below(s, key) || t[i] == Entry(key, value) || t[i] in Above(s, key);
    }
  }

  lemma {:induction false} PartsAreMembers(s: seq<Record>, key: Bytes)
    ensures forall r :: r in Below(s, key) || r in Above(s, key) ==> r in s
  {
    if s != [] {
      PartsAreMembers(s[1..], key);
      assert s == [s[0]] + s[1..];
    }
  }

  /** A memtable below the flush threshold can take one more record and still be written
      as a table. */
  lemma StillFits(s: seq<Record>, t: seq<Record>, bytes: nat)
    requires Sorted(s) && Weight(s) <= bytes < 0x40_0000
    requires forall i :: 0 <= i < |t| ==> RecordFits(t[i])
    requires |t| <= |s| + 1 && Weight(t) < bytes + 2 * TWO_TO_THE_32
    ensures Fits(t)
  {
    CountBound(s);
    EncodedSize(t);
  }
}
