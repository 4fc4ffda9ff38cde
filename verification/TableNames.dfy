/** The names of table files, and the order in which they are found again. */
module TableNames {
  import opened ByteStrings
  import opened Options
  import opened Decimal
  import opened LittleEndian

  const NAME_WIDTH: nat := 9
  const NAMES_IN_ORDER: nat := 1_000_000_000

  /** ".sst" */
  const SUFFIX: Bytes := [46, 115, 115, 116]

  /** The sequence number, padded with zeros to nine digits when it is shorter. */
  function Stem(seqNo: nat): (s: Bytes)
    ensures AllDigits(s) && s != []
  {
    if seqNo < NAMES_IN_ORDER then Fixed(seqNo, NAME_WIDTH) else Digits(seqNo)
  }

  function FileName(seqNo: nat): Bytes {
    Stem(seqNo) + SUFFIX
  }

  predicate IsTableName(name: Bytes) {
    |name| > |SUFFIX| && name[|name| - |SUFFIX|..] == SUFFIX
  }

  /** A number as Rust's `u64` parser accepts it: digits with an optional plus sign, and
      no more than 64 bits. */
  function ParseU64(s: Bytes): Option<nat> {
    var digits := if |s| > 1 && s[0] == 43 then s[1..] else s;
    if digits == [] || !AllDigits(digits) then None
    else if 0 <= ValueOf(digits) < TWO_TO_THE_64 then Some(ValueOf(digits)) else None
  }

  function SeqNoOf(name: Bytes): Option<nat>
    requires IsTableName(name)
  {
    ParseU64(name[..|name| - |SUFFIX|])
  }

  lemma TenToTheNine()
    ensures Pow10(NAME_WIDTH) == NAMES_IN_ORDER
  {
    assert Pow10(3) == 1000;
    assert Pow10(6) == 1000 * Pow10(3);
    assert Pow10(9) == 1000 * Pow10(6);
  }

  lemma {:induction false} ValueOfStem(seqNo: nat)
    ensures ValueOf(Stem(seqNo)) == seqNo
  {
    TenToTheNine();
    if seqNo < NAMES_IN_ORDER {
      ValueOfFixed(seqNo, NAME_WIDTH);
    } else {
      ValueOfDigits(seqNo);
    }
  }

  /** A table name gives its number back. */
  lemma {:induction false} SeqNoRoundTrip(seqNo: nat)
    requires seqNo < TWO_TO_THE_64
    ensures IsTableName(FileName(seqNo)) && SeqNoOf(FileName(seqNo)) == Some(seqNo)
  {
    ValueOfStem(seqNo);
    var name := FileName(seqNo);
    assert name[..|name| - |SUFFIX|] == Stem(seqNo);
    assert name[|name| - |SUFFIX|..] == SUFFIX;
    assert IsDigit(Stem(seqNo)[0]);
  }

  lemma {:induction false} NamesInOrder(m: nat, n: nat)
    requires m < NAMES_IN_ORDER && n < NAMES_IN_ORDER
    ensures Less(FileName(m), FileName(n)) <==> m < n
  {
    TenToTheNine();
    FixedOrder(m, n, NAME_WIDTH);
    LessSuffix(Stem(m), Stem(n), SUFFIX);
  }

  /** The first ten-digit name sorts before the last nine-digit one. */
  lemma {:induction false} NamesOutOfOrder()
    ensures Less(FileName(NAMES_IN_ORDER), FileName(NAMES_IN_ORDER - 1))
  {
    var a, b := FileName(NAMES_IN_ORDER), FileName(NAMES_IN_ORDER - 1);
    FirstDigit();
    assert a[0] == 49 && b[0] == 57;
  }

  lemma {:induction false} FirstDigit()
    ensures Stem(NAMES_IN_ORDER)[0] == 49 && Stem(NAMES_IN_ORDER - 1)[0] == 57
  {
    TenToTheNine();
    LeadingOne(NAME_WIDTH);
    LeadingNine(NAME_WIDTH);
  }

  lemma {:induction false} LeadingOne(k: nat)
    ensures Digits(Pow10(k))[0] == 49
  {
    if k > 0 {
      LeadingOne(k - 1);
      assert Pow10(k) / 10 == Pow10(k - 1);
    }
  }

  lemma {:induction false} LeadingNine(k: nat)
    requires k > 0
    ensures Pow10(k) > 0 && Fixed(Pow10(k) - 1, k)[0] == 57
  {
    if k > 1 {
      LeadingNine(k - 1);
      assert (Pow10(k) - 1) / 10 == Pow10(k - 1) - 1;
    } else {
      assert Pow10(1) == 10 && Fixed(0, 0) == [];
    }
  }

  /** The store's names come back in the order of their numbers exactly as long as the
      numbers have at most nine digits. */
  lemma NamesInOrderExactly(next: nat)
    ensures (forall m, n :: 1 <= m < n < next ==> Less(FileName(m), FileName(n))) <==> next <= NAMES_IN_ORDER
  {
    if next <= NAMES_IN_ORDER {
      forall m, n | 1 <= m < n < next ensures Less(FileName(m), FileName(n)) {
        NamesInOrder(m, n);
      }
    } else {
      NamesOutOfOrder();
      LessAsymmetric(FileName(NAMES_IN_ORDER), FileName(NAMES_IN_ORDER - 1));
    }
  }

  // ---- Sorting a directory listing ----

  ghost predicate StrictlySorted(s: seq<Bytes>) {
    forall i, j :: 0 <= i < j < |s| ==> Less(s[i], s[j])
  }

  function Inserted(s: seq<Bytes>, x: Bytes): seq<Bytes> {
    if s == [] || Less(x, s[0]) then [x] + s else [s[0]] + Inserted(s[1..], x)
  }

  function SortNames(s: seq<Bytes>): seq<Bytes> {
    if s == [] then [] else Inserted(SortNames(s[1..]), s[0])
  }

  lemma {:induction false} InsertedMembers(s: seq<Bytes>, x: Bytes)
    ensures forall y :: y in Inserted(s, x) <==> y in s || y == x
  {
    if s != [] && !Less(x, s[0]) {
      InsertedMembers(s[1..], x);
      assert s == [s[0]] + s[1..];
    }
  }

  lemma {:induction false} InsertedSorted(s: seq<Bytes>, x: Bytes)
    requires StrictlySorted(s) && x !in s
    ensures StrictlySorted(Inserted(s, x))
  {
    LessIsStrictTotalOrder();
    if s == [] {
    } else if Less(x, s[0]) {
      forall i | 0 <= i < |s| ensures Less(x, s[i]) {
        assert i > 0 ==> Less(s[0], s[i]);
      }
    } else {
      assert s == [s[0]] + s[1..];
      InsertedSorted(s[1..], x);
      InsertedMembers(s[1..], x);
      var r := Inserted(s[1..], x);
      forall i | 0 <= i < |r| ensures Less(s[0], r[i]) {
        assert r[i] in r;
        if r[i] in s[1..] {
          var j :| 0 <= j < |s[1..]| && s[1..][j] == r[i];
          assert Less(s[0], s[j + 1]);
        }
      }
    }
  }

  lemma {:induction false} SortNamesSorts(s: seq<Bytes>)
    requires forall i, j :: 0 <= i < j < |s| ==> s[i] != s[j]
    ensures StrictlySorted(SortNames(s))
    ensures forall y :: y in SortNames(s) <==> y in s
  {
    if s != [] {
      SortNamesSorts(s[1..]);
      assert s == [s[0]] + s[1..];
      assert s[0] !in s[1..];
      InsertedSorted(SortNames(s[1..]), s[0]);
      InsertedMembers(SortNames(s[1..]), s[0]);
    }
  }

  /** There is one strictly sorted list of given names. */
  lemma {:induction false} SortedUnique(a: seq<Bytes>, b: seq<Bytes>)
    requires StrictlySorted(a) && StrictlySorted(b)
    requires forall y :: y in a <==> y in b
    ensures a == b
  {
    SameEmptiness(a, b);
    if a != [] {
      Least(a, b[0]);
      Least(b, a[0]);
      if a[0] != b[0] { LessAsymmetric(a[0], b[0]); }
      var a', b' := a[1..], b[1..];
      assert a == [a[0]] + a' && b == [b[0]] + b';
      forall y ensures y in a' <==> y in b' {
        TailMembers(a, y);
        TailMembers(b, y);
      }
      SortedUnique(a', b');
    }
  }

  lemma SameEmptiness(a: seq<Bytes>, b: seq<Bytes>)
    requires forall y :: y in a <==> y in b
    ensures a == [] <==> b == []
    ensures a != [] ==> a[0] in b && b[0] in a
  {
    if a != [] { assert a[0] in b; }
    if b != [] { assert b[0] in a; }
  }

  lemma Least(s: seq<Bytes>, x: Bytes)
    requires StrictlySorted(s) && x in s
    ensures x == s[0] || Less(s[0], x)
  {
  }

  lemma TailMembers(s: seq<Bytes>, y: Bytes)
    requires StrictlySorted(s) && s != []
    ensures y in s[1..] <==> y in s && y != s[0]
  {
    assert s == [s[0]] + s[1..];
    if y in s[1..] {
      var i :| 0 <= i < |s[1..]| && s[1..][i] == y;
      assert Less(s[0], s[i + 1]);
      if y == s[0] { LessAsymmetric(y, y); }
    }
  }
}
