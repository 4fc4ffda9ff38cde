/** Packing integers into a given number of bits each, most significant bit first. */
module BitPacking {
  import opened Arithmetic
  import opened ByteStrings

  function Pow2(k: nat): (p: nat)
    ensures p > 0
  {
    if k == 0 then 1 else 2 * Pow2(k - 1)
  }

  /** Bit `k` of a number in two's complement. */
  function Bit(v: int, k: nat): (b: nat)
    ensures b < 2
  {
    (v / Pow2(k)) % 2
  }

  // ---- The width of a maximum ----

  /** The number of bits of a positive number: the position after its highest one. */
  function BitLength(n: nat): nat {
    if n == 0 then 0 else 1 + BitLength(n / 2)
  }

  function BitsNeeded(maxVal: int): nat {
    if maxVal <= 0 then 1 else BitLength(maxVal)
  }

  lemma {:induction false} BitLengthBounds(n: nat)
    requires n > 0
    ensures BitLength(n) > 0 && Pow2(BitLength(n) - 1) <= n < Pow2(BitLength(n))
  {
    if n > 1 {
      BitLengthBounds(n / 2);
      assert Pow2(BitLength(n) - 1) == 2 * Pow2(BitLength(n / 2) - 1);
    } else {
      assert BitLength(1) == 1 + BitLength(0);
    }
  }

  lemma {:induction false} Pow2Monotone(j: nat, k: nat)
    requires j <= k
    ensures Pow2(j) <= Pow2(k)
    decreases k
  {
    if j < k {
      Pow2Monotone(j, k - 1);
    }
  }

  /** The least positive width that fits the maximum, and with it every value below. */
  lemma BitsNeededIsLeast(maxVal: int, width: nat)
    requires maxVal >= 0
    ensures maxVal < Pow2(width) && width > 0 <==> width >= BitsNeeded(maxVal)
  {
    if maxVal == 0 {
      if width > 0 { Pow2Monotone(0, width); }
    } else {
      BitLengthBounds(maxVal);
      if width >= BitsNeeded(maxVal) {
        Pow2Monotone(BitLength(maxVal), width);
      } else {
        Pow2Monotone(width, BitLength(maxVal) - 1);
      }
    }
  }

  // ---- Streams of bits ----

  /** The lowest `width` bits of `v`, the highest of them first. */
  function BitsOf(v: int, width: nat): (r: seq<nat>)
    ensures |r| == width && forall i :: 0 <= i < width ==> r[i] == Bit(v, width - 1 - i)
  {
    seq(width, i requires 0 <= i < width => Bit(v, width - 1 - i))
  }

  function Stream(values: seq<int>, width: nat): seq<nat> {
    if values == [] then [] else Stream(values[..|values| - 1], width) + BitsOf(values[|values| - 1], width)
  }

  /** What a run of bits stands for, the first being the highest. */
  function FromBits(bits: seq<nat>): nat {
    if bits == [] then 0 else 2 * FromBits(bits[..|bits| - 1]) + bits[|bits| - 1]
  }

  lemma {:induction false} FromBitsOf(v: int, width: nat)
    ensures FromBits(BitsOf(v, width)) == v % Pow2(width)
    decreases width
  {
    if width > 0 {
      var half := v / 2;
      FromBitsOf(half, width - 1);
      var bits := BitsOf(v, width);
      forall i | 0 <= i < width - 1 ensures bits[i] == BitsOf(half, width - 1)[i] {
        ShiftedBit(v, width - 2 - i);
      }
      assert bits[..width - 1] == BitsOf(half, width - 1);
      assert bits[width - 1] == Bit(v, 0) == v % 2;
      SplitModulus(v, Pow2(width - 1));
    }
  }

  lemma ShiftedBit(v: int, k: nat)
    ensures Bit(v / 2, k) == Bit(v, k + 1)
  {
    DivideTwice(v, Pow2(k));
  }

  lemma DivideTwice(v: int, m: nat)
    requires m > 0
    ensures v / 2 / m == v / (2 * m)
  {
    var q, r := v / 2 / m, v / 2 % m;
    assert v / 2 == q * m + r;
    var low := v % 2;
    assert v == 2 * (v / 2) + low;
    assert v == q * (2 * m) + (2 * r + low);
    DivisionIsUnique(v, 2 * m, q, 2 * r + low);
  }

  lemma SplitModulus(v: int, m: nat)
    requires m > 0
    ensures 2 * (v / 2 % m) + v % 2 == v % (2 * m)
  {
    var q, r := v / 2 / m, v / 2 % m;
    assert v / 2 == q * m + r;
    assert v == q * (2 * m) + (2 * r + v % 2);
    DivisionIsUnique(v, 2 * m, q, 2 * r + v % 2);
  }

  // ---- Setting bits ----

  /** Setting a clear bit adds its weight and changes no other bit. */
  lemma {:induction false} SetBit(b: nat, j: nat, n: nat)
    requires Bit(b, j) == 0 && j < n && b < Pow2(n)
    ensures b + Pow2(j) < Pow2(n)
    ensures Bit(b + Pow2(j), j) == 1
    ensures forall i: nat :: i != j ==> Bit(b + Pow2(j), i) == Bit(b, i)
    decreases j
  {
    var c := b + Pow2(j);
    assert Pow2(n) == 2 * Pow2(n - 1);
    if j == 0 {
      BitsByHalves(b, c);
    } else {
      ShiftedBit(b, j - 1);
      SetBit(b / 2, j - 1, n - 1);
      assert c / 2 == b / 2 + Pow2(j - 1) && c % 2 == b % 2;
      ShiftedBit(c, j - 1);
      BitsByHalves(b, c);
    }
  }

  /** Two numbers have the same bit at `i` if they have it at the bottom, or if their halves
      have it one place lower. */
  lemma BitsByHalves(b: nat, c: nat)
    ensures b % 2 == c % 2 ==> Bit(b, 0) == Bit(c, 0)
    ensures forall i: nat :: i > 0 && Bit(b / 2, i - 1) == Bit(c / 2, i - 1) ==> Bit(b, i) == Bit(c, i)
  {
    forall i: nat | i > 0 ensures Bit(b, i) == Bit(b / 2, i - 1) && Bit(c, i) == Bit(c / 2, i - 1) {
      ShiftedBit(c, i - 1);
      ShiftedBit(b, i - 1);
    }
  }

  /** Bit `p` of a string of bytes. */
  function BitAt(packed: Bytes, p: nat): nat
    requires p < 8 * |packed|
  {
    Bit(packed[p / 8], 7 - p % 8)
  }

  /** The first bits are `bits`, and all others are clear. */
  ghost predicate Packed(packed: Bytes, bits: seq<nat>) {
    && |bits| <= 8 * |packed|
    && forall p :: 0 <= p < 8 * |packed| ==> BitAt(packed, p) == if p < |bits| then bits[p] else 0
  }

  /** One bit more, or-ed into its byte. */
  lemma OneBitMore(packed: Bytes, bits: seq<nat>, bit: nat)
    requires Packed(packed, bits) && |bits| < 8 * |packed| && bit < 2
    ensures var p := |bits|;
            var orred := packed[p / 8] + (if bit == 1 then Pow2(7 - p % 8) else 0);
            orred < 256 && Packed(packed[p / 8 := orred], bits + [bit])
  {
    hide Bit;
    var p := |bits|;
    assert Pow2(8) == 256;
    assert BitAt(packed, p) == 0;
    SetBit(packed[p / 8], 7 - p % 8, 8);
    var orred := packed[p / 8] + (if bit == 1 then Pow2(7 - p % 8) else 0);
    var packed' := packed[p / 8 := orred];
    forall q | 0 <= q < 8 * |packed'| ensures BitAt(packed', q) == if q < p then bits[q] else if q == p then bit else 0 {
      assert BitAt(packed, q) == if q < p then bits[q] else 0;
      if q / 8 == p / 8 && q != p {
        assert 7 - q % 8 != 7 - p % 8;
      }
    }
  }

  lemma {:induction false} StreamSize(values: seq<int>, width: nat)
    ensures |Stream(values, width)| == |values| * width
  {
    if values != [] {
      StreamSize(values[..|values| - 1], width);
      Distribute(|values| - 1, width);
    }
  }

  lemma Distribute(n: nat, width: nat)
    ensures (n + 1) * width == n * width + width
  {
  }

  /** Pack the values; the last byte is filled up with zeros. */
  method Bitpack(values: seq<int>, bits: nat) returns (output: array<byte>)
    requires bits <= 64
    ensures fresh(output) && output.Length == (|values| * bits + 7) / 8
    ensures Packed(output[..], Stream(values, bits))
  {
    hide Bit, Packed, Stream, BitsOf;
    var totalBits := |values| * bits;
    var byteCount := (totalBits + 7) / 8;
    output := new byte[byteCount](_ => 0);
    NothingPacked(output[..]);
    StreamSize(values, bits);
    var bitPos := 0;
    EmptyStream(bits);
    for k := 0 to |values|
      invariant bitPos == |Stream(values[..k], bits)|
      invariant Packed(output[..], Stream(values[..k], bits))
    {
      ghost var done := Stream(values[..k], bits);
      OneValueMore(values, k, bits);
      BitsOfValue(values[k], bits);
      ghost var vbits := BitsOf(values[k], bits);
      assert done + vbits[..0] == done;
      for i := 0 to bits
        invariant bitPos == |done| + i && |done| + bits <= totalBits
        invariant Packed(output[..], done + vbits[..i])
      {
        var bitIdx := bits - 1 - i;
        var bit := Bit(values[k], bitIdx);
        OneBitMore(output[..], done + vbits[..i], bit);
        assert done + vbits[..i] + [bit] == done + vbits[..i + 1];
        var byteIdx := bitPos / 8;
        ghost var before := output[..];
        output[byteIdx] := output[byteIdx] + if bit == 1 then Pow2(7 - bitPos % 8) else 0;
        assert output[..] == before[byteIdx := output[byteIdx]];
        bitPos := bitPos + 1;
      }
      assert vbits[..bits] == vbits;
    }
    assert values[..|values|] == values;
  }

  lemma NothingPacked(packed: Bytes)
    requires forall i :: 0 <= i < |packed| ==> packed[i] == 0
    ensures Packed(packed, [])
  {
    forall p | 0 <= p < 8 * |packed| ensures BitAt(packed, p) == 0 {
      assert packed[p / 8] == 0;
    }
  }

  lemma EmptyStream(width: nat)
    ensures Stream([], width) == []
  {
  }

  lemma OneValueMore(values: seq<int>, k: nat, width: nat)
    requires k < |values|
    ensures Stream(values[..k + 1], width) == Stream(values[..k], width) + BitsOf(values[k], width)
    ensures |Stream(values[..k], width)| + width <= |values| * width
  {
    assert values[..k + 1][..k] == values[..k];
    StreamSize(values[..k], width);
    Distribute(k, width);
    ProductMonotone(k + 1, |values|, width);
  }

  lemma ProductMonotone(a: nat, b: nat, width: nat)
    requires a <= b
    ensures a * width <= b * width
  {
  }

  lemma BitsOfValue(v: int, width: nat)
    ensures |BitsOf(v, width)| == width && forall i :: 0 <= i < width ==> BitsOf(v, width)[i] == Bit(v, width - 1 - i)
  {
  }

  // ---- Unpacking ----

  predicate IsI64(v: int) {
    0 - Pow2(63) <= v < Pow2(63)
  }

  /** A pattern of 64 bits as a signed number. */
  function AsI64(u: nat): int {
    if u < Pow2(63) then u else u - Pow2(64)
  }

  function Unpacked(bits: seq<nat>, width: nat, len: nat): seq<int>
    requires len * width <= |bits|
    decreases len
  {
    if len == 0 then []
    else
      Distribute(len - 1, width);
      Unpacked(bits, width, len - 1) + [AsI64(FromBits(bits[(len - 1) * width..len * width]))]
  }

  lemma {:induction false} ScaledSum(bits: seq<nat>, k: nat, width: nat)
    requires k < width && width <= |bits|
    ensures FromBits(bits[..k + 1]) * Pow2(width - k - 1) == FromBits(bits[..k]) * Pow2(width - k) + bits[k] * Pow2(width - k - 1)
  {
    assert bits[..k + 1][..k] == bits[..k];
    var f, p := FromBits(bits[..k]), Pow2(width - k - 1);
    assert Pow2(width - k) == 2 * p;
    assert (2 * f + bits[k]) * p == f * (2 * p) + bits[k] * p;
  }

  method Bitunpack(packed: Bytes, bits: nat, len: nat, ghost stream: seq<nat>) returns (result: seq<int>)
    requires bits <= 64 && len * bits <= 8 * |packed|
    requires |stream| == 8 * |packed| && forall p :: 0 <= p < |stream| ==> stream[p] == BitAt(packed, p)
    ensures result == Unpacked(stream, bits, len)
  {
    hide Bit, FromBits, Pow2;
    result := [];
    var bitPos := 0;
    for k := 0 to len
      invariant bitPos == k * bits
      invariant k * bits <= |stream| && result == Unpacked(stream, bits, k)
    {
      Distribute(k, bits);
      ProductMonotone(k + 1, len, bits);
      ghost var mine := stream[k * bits..(k + 1) * bits];
      assert forall i :: 0 <= i < bits ==> mine[i] == BitAt(packed, bitPos + i);
      var val := ReadValue(packed, bits, bitPos, mine);
      bitPos := bitPos + bits;
      result := result + [AsI64(val)];
    }
  }

  /** The bits of one value, from the highest to the lowest. */
  method ReadValue(packed: Bytes, bits: nat, start: nat, ghost mine: seq<nat>) returns (val: nat)
    requires start + bits <= 8 * |packed|
    requires |mine| == bits && forall i :: 0 <= i < bits ==> mine[i] == BitAt(packed, start + i)
    ensures val == FromBits(mine)
  {
    hide Bit, FromBits;
    val := 0;
    var bitPos := start;
    NoBits(mine, bits);
    for i := 0 to bits
      invariant bitPos == start + i
      invariant val == FromBits(mine[..i]) * Pow2(bits - i)
    {
      var bitIdx: nat := bits - 1 - i;
      var bit := Bit(packed[bitPos / 8], 7 - bitPos % 8);
      assert mine[i] == BitAt(packed, start + i) == bit;
      ScaledSum(mine, i, bits);
      val := val + bit * Pow2(bitIdx);
      bitPos := bitPos + 1;
    }
    assert mine[..bits] == mine && FromBits(mine) * Pow2(0) == FromBits(mine);
  }

  lemma NoBits(bits: seq<nat>, width: nat)
    ensures FromBits(bits[..0]) * Pow2(width) == 0
  {
  }

  // ---- The round trip ----

  /** The value that comes back for one value: exactly itself if it fits the width, or if
      the width is that of the type. */
  lemma ValueRoundTripExactly(v: int, width: nat)
    requires width <= 64 && IsI64(v)
    ensures AsI64(v % Pow2(width)) == v <==> width == 64 || 0 <= v < Pow2(width)
  {
    hide Pow2;
    assert Pow2(64) == 2 * Pow2(63) by { Doubled(63); }
    if width == 64 {
      DivisionIsUnique(v, Pow2(64), if v < 0 then -1 else 0, if v < 0 then v + Pow2(64) else v);
    } else {
      Pow2Monotone(width, 63);
      var r := v % Pow2(width);
      assert 0 <= r < Pow2(width) <= Pow2(63);
      if 0 <= v < Pow2(width) {
        DivisionIsUnique(v, Pow2(width), 0, v);
      }
    }
  }

  lemma Doubled(k: nat)
    ensures Pow2(k + 1) == 2 * Pow2(k)
  {
  }

  lemma {:induction false} StreamUnpacked(values: seq<int>, width: nat, stream: seq<nat>)
    requires Stream(values, width) <= stream
    ensures |values| * width <= |stream|
    ensures |Unpacked(stream, width, |values|)| == |values|
    ensures forall i :: 0 <= i < |values| ==> Unpacked(stream, width, |values|)[i] == AsI64(values[i] % Pow2(width))
    decreases |values|
  {
    hide BitsOf, FromBits, Bit;
    StreamSize(values, width);
    if values != [] {
      var last := |values| - 1;
      var before := Stream(values[..last], width);
      StreamSize(values[..last], width);
      Distribute(last, width);
      assert before <= stream;
      StreamUnpacked(values[..last], width, stream);
      assert stream[last * width..(last + 1) * width] == Stream(values, width)[last * width..(last + 1) * width] == BitsOf(values[last], width);
      FromBitsOf(values[last], width);
    }
  }

  /** Packing and unpacking gives every value back, exactly if each fits the width (or the
      width is 64). */
  method RoundTrip(values: seq<int>, bits: nat) returns (back: seq<int>)
    requires bits <= 64 && forall i :: 0 <= i < |values| ==> IsI64(values[i])
    ensures back == values <==> bits == 64 || forall i :: 0 <= i < |values| ==> 0 <= values[i] < Pow2(bits)
  {
    hide Bit, Stream, FromBits, Unpacked, AsI64;
    var packed := Bitpack(values, bits);
    ghost var stream := BitsIn(packed[..]);
    StreamSize(values, bits);
    PackedStream(packed[..], Stream(values, bits), stream);
    back := Bitunpack(packed[..], bits, |values|, stream);
    StreamUnpacked(values, bits, stream);
    forall i | 0 <= i < |values| ensures back[i] == values[i] <==> bits == 64 || 0 <= values[i] < Pow2(bits) {
      ValueRoundTripExactly(values[i], bits);
    }
    assert back == values <==> forall i :: 0 <= i < |values| ==> back[i] == values[i];
  }

  ghost function BitsIn(packed: Bytes): (r: seq<nat>)
    ensures |r| == 8 * |packed| && forall p :: 0 <= p < |r| ==> r[p] == BitAt(packed, p)
  {
    seq(8 * |packed|, p requires 0 <= p < 8 * |packed| => BitAt(packed, p))
  }

  lemma PackedStream(packed: Bytes, bits: seq<nat>, stream: seq<nat>)
    requires Packed(packed, bits) && |stream| == 8 * |packed| && forall p :: 0 <= p < |stream| ==> stream[p] == BitAt(packed, p)
    ensures bits <= stream
  {
  }
}
