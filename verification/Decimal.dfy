/** Decimal numerals as byte strings. */
module Decimal {
  import opened ByteStrings
  import opened Options

  const ZERO: byte := 48

  predicate IsDigit(b: byte) {
    48 <= b <= 57
  }

  predicate AllDigits(s: Bytes) {
    forall i :: 0 <= i < |s| ==> IsDigit(s[i])
  }

  function DigitOf(d: nat): byte
    requires d < 10
  {
    48 + d
  }

  /** The number that a run of digits stands for. */
  function ValueOf(s: Bytes): int {
    if s == [] then 0 else 10 * ValueOf(s[..|s| - 1]) + s[|s| - 1] as int - 48
  }

  /** The shortest numeral of `n`. */
  function Digits(n: nat): (s: Bytes)
    ensures s != [] && AllDigits(s)
  {
    if n < 10 then [DigitOf(n)] else Digits(n / 10) + [DigitOf(n % 10)]
  }

  /** The last `k` digits of `n`, with leading zeros. */
  function Fixed(n: nat, k: nat): (s: Bytes)
    ensures |s| == k && AllDigits(s)
    decreases k
  {
    if k == 0 then [] else Fixed(n / 10, k - 1) + [DigitOf(n % 10)]
  }

  function Pow10(k: nat): nat {
    if k == 0 then 1 else 10 * Pow10(k - 1)
  }

  lemma {:induction false} ValueOfDigits(n: nat)
    ensures ValueOf(Digits(n)) == n
  {
    if n >= 10 {
      ValueOfDigits(n / 10);
      var s := Digits(n);
      assert s[..|s| - 1] == Digits(n / 10);
    }
  }

  lemma {:induction false} ValueOfFixed(n: nat, k: nat)
    requires n < Pow10(k)
    ensures ValueOf(Fixed(n, k)) == n
    decreases k
  {
    if k > 0 {
      ValueOfFixed(n / 10, k - 1);
      var s := Fixed(n, k);
      assert s[..|s| - 1] == Fixed(n / 10, k - 1);
    }
  }

  lemma {:induction false} ValueOfNonNegative(s: Bytes)
    requires AllDigits(s)
    ensures ValueOf(s) >= 0
  {
    if s != [] {
      ValueOfNonNegative(s[..|s| - 1]);
    }
  }

  // ---- The order of numerals ----

  lemma {:induction false} LessSnoc(a: Bytes, b: Bytes, x: byte, y: byte)
    requires |a| == |b|
    ensures Less(a + [x], b + [y]) <==> Less(a, b) || (a == b && x < y)
  {
    if a == [] {
      assert [x][1..] == [] && [y][1..] == [];
    } else {
      assert (a + [x])[1..] == a[1..] + [x] && (b + [y])[1..] == b[1..] + [y];
      LessSnoc(a[1..], b[1..], x, y);
      assert a == [a[0]] + a[1..] && b == [b[0]] + b[1..];
    }
  }

  lemma {:induction false} LessSuffix(a: Bytes, b: Bytes, s: Bytes)
    requires |a| == |b|
    ensures Less(a + s, b + s) <==> Less(a, b)
    decreases |s|
  {
    if s == [] {
      assert a + s == a && b + s == b;
    } else {
      LessSnoc(a, b, s[0], s[0]);
      LessSuffix(a + [s[0]], b + [s[0]], s[1..]);
      assert a + s == (a + [s[0]]) + s[1..] && b + s == (b + [s[0]]) + s[1..];
    }
  }

  /** Numerals of one width are ordered like their numbers. */
  lemma {:induction false} FixedOrder(m: nat, n: nat, k: nat)
    requires m < Pow10(k) && n < Pow10(k)
    ensures Less(Fixed(m, k), Fixed(n, k)) <==> m < n
    decreases k
  {
    if k > 0 {
      FixedOrder(m / 10, n / 10, k - 1);
      FixedOrder(n / 10, m / 10, k - 1);
      LessSnoc(Fixed(m / 10, k - 1), Fixed(n / 10, k - 1), DigitOf(m % 10), DigitOf(n % 10));
      ValueOfFixed(m / 10, k - 1);
      ValueOfFixed(n / 10, k - 1);
    }
  }
}
