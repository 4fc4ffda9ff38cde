/** Fixed-width little-endian integers in byte strings. */
module LittleEndian {
  import opened ByteStrings
  import opened Arithmetic

  function Pow256(k: nat): (p: nat)
    ensures p > 0
  {
    if k == 0 then 1 else 256 * Pow256(k - 1)
  }

  const TWO_TO_THE_32: nat := 0x1_0000_0000
  const TWO_TO_THE_64: nat := 0x1_0000_0000_0000_0000

  /** The low `k` bytes of `n`, least significant first: what a cast to `k` bytes keeps. */
  function ToBytes(n: nat, k: nat): (r: Bytes)
    ensures |r| == k
    decreases k
  {
    if k == 0 then [] else [n % 256] + ToBytes(n / 256, k - 1)
  }

  function FromBytes(b: Bytes): nat {
    if b == [] then 0 else b[0] + 256 * FromBytes(b[1..])
  }

  lemma {:induction false} FromToBytes(n: nat, k: nat)
    requires n < Pow256(k)
    ensures FromBytes(ToBytes(n, k)) == n
    decreases k
  {
    if k > 0 {
      FromToBytes(n / 256, k - 1);
      assert ToBytes(n, k)[1..] == ToBytes(n / 256, k - 1);
    }
  }

  /** Byte `i` is the digit of 256 to the power `i`. */
  lemma {:induction false} LeastFirst(n: nat, k: nat, i: nat)
    requires i < k
    ensures ToBytes(n, k)[i] == (n / Pow256(i)) % 256
    decreases k
  {
    if i > 0 {
      LeastFirst(n / 256, k - 1, i - 1);
      DivideTwice(n, Pow256(i - 1));
    }
  }

  lemma DivideTwice(n: nat, d: nat)
    requires d > 0
    ensures n / 256 / d == n / (256 * d)
  {
    var q, r := n / 256 / d, (n / 256) % d;
    assert n / 256 == q * d + r;
    assert n == q * (256 * d) + (256 * r + n % 256);
    DivisionIsUnique(n, 256 * d, q, 256 * r + n % 256);
  }

  lemma {:induction false} FromBytesBound(b: Bytes)
    ensures FromBytes(b) < Pow256(|b|)
  {
    if b != [] {
      FromBytesBound(b[1..]);
    }
  }

  lemma Widths()
    ensures Pow256(4) == TWO_TO_THE_32 && Pow256(8) == TWO_TO_THE_64
  {
    assert Pow256(2) == 65536;
    assert Pow256(4) == 256 * 256 * Pow256(2);
    assert Pow256(6) == 256 * 256 * Pow256(4);
    assert Pow256(8) == 256 * 256 * Pow256(6);
  }

  /** A length survives its four-byte field exactly when it is below 2 to the 32. */
  lemma Length32Exactly(n: nat)
    ensures FromBytes(ToBytes(n, 4)) == n <==> n < TWO_TO_THE_32
  {
    Widths();
    FromBytesBound(ToBytes(n, 4));
    if n < TWO_TO_THE_32 {
      FromToBytes(n, 4);
    }
  }

  lemma Offset64(n: nat)
    requires n < TWO_TO_THE_64
    ensures FromBytes(ToBytes(n, 8)) == n
  {
    Widths();
    FromToBytes(n, 8);
  }

  /** The 64-bit pattern of a signed number. */
  function Pattern(n: int): nat {
    n % TWO_TO_THE_64
  }

  function SignedOf(u: nat): int {
    if u < TWO_TO_THE_64 / 2 then u else u - TWO_TO_THE_64
  }

  lemma {:induction false} NumberRoundTrip(n: int)
    requires 0 - TWO_TO_THE_64 / 2 <= n < TWO_TO_THE_64 / 2
    ensures SignedOf(FromBytes(ToBytes(Pattern(n), 8))) == n
  {
    Offset64(Pattern(n));
  }

  lemma {:induction false} Width16(n: nat)
    requires n < 65536
    ensures FromBytes(ToBytes(n, 2)) == n
  {
    assert Pow256(2) == 65536;
    FromToBytes(n, 2);
  }
}
