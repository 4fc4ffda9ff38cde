/** Byte strings in the order that Rust's `Vec<u8>` comparison uses. */
module ByteStrings {

  type byte = x: int | 0 <= x < 256

  type Bytes = seq<byte>

  /** Lexicographic order, a proper prefix being the smaller. */
  predicate Less(a: Bytes, b: Bytes) {
    if b == [] then false
    else if a == [] then true
    else a[0] < b[0] || (a[0] == b[0] && Less(a[1..], b[1..]))
  }

  predicate AtMost(a: Bytes, b: Bytes) {
    !Less(b, a)
  }

  lemma {:induction false} LessTransitive(a: Bytes, b: Bytes, c: Bytes)
    requires Less(a, b) && Less(b, c)
    ensures Less(a, c)
  {
    if a != [] && a[0] == b[0] == c[0] {
      LessTransitive(a[1..], b[1..], c[1..]);
    }
  }

  lemma {:induction false} LessAsymmetric(a: Bytes, b: Bytes)
    requires Less(a, b)
    ensures !Less(b, a)
  {
    if a != [] && a[0] == b[0] {
      LessAsymmetric(a[1..], b[1..]);
    }
  }

  lemma {:induction false} LessConnected(a: Bytes, b: Bytes)
    ensures Less(a, b) || a == b || Less(b, a)
  {
    if a != [] && b != [] && a[0] == b[0] {
      LessConnected(a[1..], b[1..]);
      assert a == [a[0]] + a[1..] && b == [b[0]] + b[1..];
    }
  }

  /** `Less` is a strict total order. */
  lemma LessIsStrictTotalOrder()
    ensures forall a: Bytes :: !Less(a, a)
    ensures forall a: Bytes, b: Bytes, c: Bytes :: Less(a, b) && Less(b, c) ==> Less(a, c)
    ensures forall a: Bytes, b: Bytes :: Less(a, b) || a == b || Less(b, a)
  {
    forall a: Bytes ensures !Less(a, a) {
      if Less(a, a) { LessAsymmetric(a, a); }
    }
    forall a: Bytes, b: Bytes, c: Bytes | Less(a, b) && Less(b, c) ensures Less(a, c) {
      LessTransitive(a, b, c);
    }
    forall a: Bytes, b: Bytes ensures Less(a, b) || a == b || Less(b, a) {
      LessConnected(a, b);
    }
  }

  // ---- Strings within strings ----

  /** The bytes of `e` stand in `data` from `pos` on. */
  ghost predicate At(data: Bytes, pos: nat, e: Bytes) {
    pos + |e| <= |data| && data[pos..pos + |e|] == e
  }

  /** And so does any part of `e`. */
  lemma Stands(data: Bytes, pos: nat, e: Bytes, i: nat, j: nat)
    requires At(data, pos, e) && i <= j <= |e|
    ensures pos + |e| <= |data| && data[pos + i..pos + j] == e[i..j]
    ensures At(data, pos + i, e[i..])
    ensures i < |e| ==> data[pos + i] == e[i]
  {
    assert forall k :: i <= k < |e| ==> e[k] == data[pos..pos + |e|][k] == data[pos + k];
    assert data[pos + i..pos + j] == e[i..j];
    assert data[pos + i..pos + |e|] == e[i..];
  }

  /** Two strings that stand behind each other. */
  lemma Apart(data: Bytes, pos: nat, a: Bytes, b: Bytes)
    requires At(data, pos, a + b)
    ensures At(data, pos, a) && At(data, pos + |a|, b)
  {
    assert data[pos..pos + |a|] == (a + b)[..|a|];
    assert data[pos + |a|..pos + |a| + |b|] == (a + b)[|a|..];
  }
}
