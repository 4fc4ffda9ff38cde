/** UTF-8 as the encoding of Unicode scalar values. */
module Utf8Scalars {
  import opened ByteStrings
  import opened Utf8

  /** A code point that is not a surrogate. */
  predicate IsScalar(c: nat) {
    c < 0xD800 || 0xE000 <= c < 0x11_0000
  }

  /** Six bits to every byte but the first (section 3 of RFC 3629). */
  function EncodeScalar(c: nat): (s: Bytes)
    requires IsScalar(c)
    ensures 1 <= |s| <= 4
  {
    if c < 0x80 then [c]
    else if c < 0x800 then [0xC0 + c / 64, 0x80 + c % 64]
    else if c < 0x1_0000 then [0xE0 + c / 64 / 64, 0x80 + c / 64 % 64, 0x80 + c % 64]
    else [0xF0 + c / 64 / 64 / 64, 0x80 + c / 64 / 64 % 64, 0x80 + c / 64 % 64, 0x80 + c % 64]
  }

  ghost predicate AllScalars(cs: seq<nat>) {
    forall i :: 0 <= i < |cs| ==> IsScalar(cs[i])
  }

  function EncodeScalars(cs: seq<nat>): Bytes
    requires forall i :: 0 <= i < |cs| ==> IsScalar(cs[i])
  {
    if cs == [] then [] else EncodeScalar(cs[0]) + EncodeScalars(cs[1..])
  }

  lemma ScalarIsChar(c: nat, more: Bytes)
    requires IsScalar(c)
    ensures CharSize(EncodeScalar(c) + more) == |EncodeScalar(c)|
  {
    hide CharSize;
    var s := EncodeScalar(c) + more;
    if c < 0x80 {
      OneByte(s);
    } else if c < 0x800 {
      TwoBytes(s, c / 64, c % 64);
    } else if c < 0x1_0000 {
      ThreeBytes(s, c / 64 / 64, c / 64 % 64, c % 64);
    } else {
      FourBytes(s, c / 64 / 64 / 64, c / 64 / 64 % 64, c / 64 % 64, c % 64);
    }
  }

  lemma OneByte(s: Bytes)
    requires s != [] && s[0] < 0x80
    ensures CharSize(s) == 1
  {
  }

  lemma TwoBytes(s: Bytes, a: nat, b: nat)
    requires |s| >= 2 && s[0] == 0xC0 + a && s[1] == 0x80 + b && b < 64
    ensures CharSize(s) == 2 <==> 0x80 <= 64 * a + b < 0x800
  {
  }

  lemma ThreeBytes(s: Bytes, a: nat, b: nat, c: nat)
    requires |s| >= 3 && s[0] == 0xE0 + a && s[1] == 0x80 + b && s[2] == 0x80 + c && b < 64 && c < 64
    ensures CharSize(s) == 3 <==> 0x800 <= 64 * (64 * a + b) + c < 0x1_0000 && IsScalar(64 * (64 * a + b) + c)
  {
  }

  lemma FourBytes(s: Bytes, a: nat, b: nat, c: nat, d: nat)
    requires |s| >= 4 && s[0] == 0xF0 + a && s[1] == 0x80 + b && s[2] == 0x80 + c && s[3] == 0x80 + d && b < 64 && c < 64 && d < 64
    ensures CharSize(s) == 4 <==> 0x1_0000 <= 64 * (64 * (64 * a + b) + c) + d < 0x11_0000
  {
  }

  /** The bits of a character, six by six from the last byte on. */
  lemma CharBytes(s: Bytes)
    requires CharSize(s) > 0
    ensures CharSize(s) == 1 ==> s[0] < 0x80
    ensures CharSize(s) == 2 ==> 0xC0 <= s[0]
    ensures CharSize(s) == 3 ==> 0xE0 <= s[0]
    ensures CharSize(s) == 4 ==> 0xF0 <= s[0]
    ensures forall i :: 1 <= i < CharSize(s) ==> 0x80 <= s[i] < 0xC0
  {
  }

  lemma EncodedTwo(a: nat, b: nat)
    requires b < 64 && 0x80 <= 64 * a + b < 0x800
    ensures EncodeScalar(64 * a + b) == [0xC0 + a, 0x80 + b]
  {
  }

  lemma EncodedThree(a: nat, b: nat, c: nat)
    requires b < 64 && c < 64 && 0x800 <= 64 * (64 * a + b) + c < 0x1_0000 && IsScalar(64 * (64 * a + b) + c)
    ensures EncodeScalar(64 * (64 * a + b) + c) == [0xE0 + a, 0x80 + b, 0x80 + c]
  {
    assert (64 * (64 * a + b) + c) / 64 == 64 * a + b;
  }

  lemma EncodedFour(a: nat, b: nat, c: nat, d: nat)
    requires b < 64 && c < 64 && d < 64 && 0x1_0000 <= 64 * (64 * (64 * a + b) + c) + d < 0x11_0000
    ensures EncodeScalar(64 * (64 * (64 * a + b) + c) + d) == [0xF0 + a, 0x80 + b, 0x80 + c, 0x80 + d]
  {
    var q := 64 * (64 * a + b) + c;
    assert (64 * q + d) / 64 == q && q / 64 == 64 * a + b;
  }

  /** The scalar value of a character. */
  lemma CharIsScalar(s: Bytes) returns (c: nat)
    requires CharSize(s) > 0
    ensures IsScalar(c) && s[..CharSize(s)] == EncodeScalar(c)
  {
    hide CharSize, EncodeScalar;
    var n := CharSize(s);
    CharBytes(s);
    if n == 1 {
      c := s[0];
      EncodedOne(c);
    } else if n == 2 {
      var x, y: nat := s[0] as int - 0xC0, s[1] as int - 0x80;
      TwoBytes(s, x, y);
      EncodedTwo(x, y);
      c := 64 * x + y;
    } else if n == 3 {
      var x, y, z: nat := s[0] as int - 0xE0, s[1] as int - 0x80, s[2] as int - 0x80;
      ThreeBytes(s, x, y, z);
      EncodedThree(x, y, z);
      c := 64 * (64 * x + y) + z;
    } else {
      var w, x, y, z: nat := s[0] as int - 0xF0, s[1] as int - 0x80, s[2] as int - 0x80, s[3] as int - 0x80;
      FourBytes(s, w, x, y, z);
      EncodedFour(w, x, y, z);
      c := 64 * (64 * (64 * w + x) + y) + z;
    }
  }

  lemma EncodedOne(c: nat)
    requires c < 0x80
    ensures EncodeScalar(c) == [c]
  {
  }

  lemma {:induction false} EncodedIsValid(cs: seq<nat>)
    requires AllScalars(cs)
    ensures ValidUtf8(EncodeScalars(cs))
  {
    hide CharSize, EncodeScalar;
    if cs != [] {
      var e, rest := EncodeScalar(cs[0]), EncodeScalars(cs[1..]);
      EncodedIsValid(cs[1..]);
      ScalarIsChar(cs[0], rest);
      assert (e + rest)[|e|..] == rest;
    }
  }

  lemma {:induction false} ValidIsEncoded(s: Bytes) returns (cs: seq<nat>)
    requires ValidUtf8(s)
    ensures AllScalars(cs) && EncodeScalars(cs) == s
  {
    hide CharSize, EncodeScalar;
    if s == [] {
      cs := [];
    } else {
      var n := CharSize(s);
      var c := CharIsScalar(s);
      var rest := ValidIsEncoded(s[n..]);
      cs := [c] + rest;
      assert cs[1..] == rest && s == s[..n] + s[n..];
    }
  }

  /** Exactly the encodings of sequences of scalar values are UTF-8. */
  lemma ValidExactly(s: Bytes)
    ensures ValidUtf8(s) <==> exists cs :: AllScalars(cs) && EncodeScalars(cs) == s
  {
    if ValidUtf8(s) {
      var cs := ValidIsEncoded(s);
    }
    forall cs | AllScalars(cs) && EncodeScalars(cs) == s ensures ValidUtf8(s) {
      EncodedIsValid(cs);
    }
  }
}
