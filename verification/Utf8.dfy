/** The byte strings that Rust's `String` may hold, and its notion of white space. */
module Utf8 {
  import opened ByteStrings

  predicate ByteIn(s: Bytes, i: nat, low: byte, high: byte) {
    i < |s| && low <= s[i] <= high
  }

  /** The size of the well-formed character at the front of `s`, or 0 if there is none
      (table 3-7 of the Unicode Standard). */
  function CharSize(s: Bytes): (n: nat)
    ensures n <= |s| && n <= 4
  {
    if s == [] then 0
    else if s[0] < 0x80 then 1
    else if 0xC2 <= s[0] <= 0xDF && ByteIn(s, 1, 0x80, 0xBF) then 2
    else if ByteIn(s, 2, 0x80, 0xBF) && ThreeByteHead(s) then 3
    else if ByteIn(s, 2, 0x80, 0xBF) && ByteIn(s, 3, 0x80, 0xBF) && FourByteHead(s) then 4
    else 0
  }

  predicate ThreeByteHead(s: Bytes)
    requires s != []
  {
    || (s[0] == 0xE0 && ByteIn(s, 1, 0xA0, 0xBF))
    || ((0xE1 <= s[0] <= 0xEC || 0xEE <= s[0] <= 0xEF) && ByteIn(s, 1, 0x80, 0xBF))
    || (s[0] == 0xED && ByteIn(s, 1, 0x80, 0x9F))
  }

  predicate FourByteHead(s: Bytes)
    requires s != []
  {
    || (s[0] == 0xF0 && ByteIn(s, 1, 0x90, 0xBF))
    || (0xF1 <= s[0] <= 0xF3 && ByteIn(s, 1, 0x80, 0xBF))
    || (s[0] == 0xF4 && ByteIn(s, 1, 0x80, 0x8F))
  }

  predicate ValidUtf8(s: Bytes) {
    s == [] || (CharSize(s) > 0 && ValidUtf8(s[CharSize(s)..]))
  }

  predicate Ascii(s: Bytes) {
    forall i :: 0 <= i < |s| ==> s[i] < 0x80
  }

  lemma {:induction false} AsciiIsUtf8(s: Bytes)
    requires Ascii(s)
    ensures ValidUtf8(s)
  {
    if s != [] {
      AsciiIsUtf8(s[1..]);
    }
  }

  lemma {:induction false} Utf8Concat(a: Bytes, b: Bytes)
    requires ValidUtf8(a) && ValidUtf8(b)
    ensures ValidUtf8(a + b)
  {
    if a == [] {
      assert a + b == b;
    } else {
      var n := CharSize(a);
      assert CharSize(a + b) == n;
      assert (a + b)[n..] == a[n..] + b;
      Utf8Concat(a[n..], b);
    }
  }

  // ---- What can still become a text ----

  /** The beginning of a character that has not wholly arrived. */
  predicate CharPrefix(s: Bytes) {
    || (|s| == 1 && 0xC2 <= s[0] <= 0xF4)
    || (|s| == 2 && (ThreeByteHead(s) || FourByteHead(s)))
    || (|s| == 3 && ByteIn(s, 2, 0x80, 0xBF) && FourByteHead(s))
  }

  predicate Utf8Prefix(s: Bytes) {
    s == [] || (if CharSize(s) > 0 then Utf8Prefix(s[CharSize(s)..]) else CharPrefix(s))
  }

  /** The bytes that make a character of its beginning. */
  function CharRest(s: Bytes): Bytes
    requires CharPrefix(s)
  {
    if |s| == 1 then
      if s[0] <= 0xDF then [0x80]
      else if s[0] == 0xE0 then [0xA0, 0x80]
      else if s[0] <= 0xEF then [0x80, 0x80]
      else if s[0] == 0xF0 then [0x90, 0x80, 0x80]
      else [0x80, 0x80, 0x80]
    else if |s| == 2 && FourByteHead(s) then [0x80, 0x80]
    else [0x80]
  }

  lemma CharCompletes(s: Bytes)
    requires CharPrefix(s)
    ensures CharSize(s + CharRest(s)) == |s + CharRest(s)|
    ensures forall i :: 0 <= i < |CharRest(s)| ==> CharRest(s)[i] >= 0x80
  {
    var t := s + CharRest(s);
    assert forall i :: 0 <= i < |s| ==> t[i] == s[i];
    assert forall i :: |s| <= i < |t| ==> t[i] == CharRest(s)[i - |s|];
  }

  /** What may become UTF-8 does with a few bytes, none of them ASCII. */
  lemma {:induction false} Utf8Completes(s: Bytes) returns (rest: Bytes)
    requires Utf8Prefix(s)
    ensures ValidUtf8(s + rest) && forall i :: 0 <= i < |rest| ==> rest[i] >= 0x80
  {
    if s == [] {
      rest := [];
      assert s + rest == [];
    } else if CharSize(s) > 0 {
      var n := CharSize(s);
      rest := Utf8Completes(s[n..]);
      SameChar(s, rest);
      assert (s + rest)[n..] == s[n..] + rest;
    } else {
      rest := CharRest(s);
      CharCompletes(s);
      assert (s + rest)[|s + rest|..] == [];
    }
  }

  lemma SameChar(s: Bytes, more: Bytes)
    requires CharSize(s) > 0
    ensures CharSize(s + more) == CharSize(s)
  {
    assert forall i :: 0 <= i < |s| ==> (s + more)[i] == s[i];
  }

  lemma CharCut(s: Bytes, more: Bytes)
    requires s != [] && CharSize(s + more) > 0
    ensures CharSize(s + more) <= |s| ==> CharSize(s) == CharSize(s + more)
    ensures CharSize(s + more) > |s| ==> CharSize(s) == 0 && CharPrefix(s)
  {
    assert forall i :: 0 <= i < |s| ==> (s + more)[i] == s[i];
  }

  /** And nothing else does. */
  lemma {:induction false} OnlyPrefixesComplete(s: Bytes, more: Bytes)
    requires ValidUtf8(s + more)
    ensures Utf8Prefix(s)
    decreases |s|
  {
    if s != [] {
      CharCut(s, more);
      var n := CharSize(s + more);
      if n <= |s| {
        assert (s + more)[n..] == s[n..] + more;
        OnlyPrefixesComplete(s[n..], more);
      }
    }
  }

  /** The size of the white space character at the front of `s`, or 0 if there is none.
      (The characters with the White_Space property; every other byte that can stand
      inside a character is 0x80 or above and begins none of these.) */
  function SpaceSize(s: Bytes): (n: nat)
    ensures n <= |s|
  {
    if s == [] then 0
    else if 0x09 <= s[0] <= 0x0D || s[0] == 0x20 then 1
    else if s[0] == 0xC2 && (ByteIn(s, 1, 0x85, 0x85) || ByteIn(s, 1, 0xA0, 0xA0)) then 2
    else if ByteIn(s, 2, 0x80, 0xBF) && WideSpace(s[0], s[1], s[2]) then 3
    else 0
  }

  /** U+1680, U+2000 to U+200A, U+2028, U+2029, U+202F, U+205F and U+3000. */
  predicate WideSpace(a: byte, b: byte, c: byte) {
    || (a == 0xE1 && b == 0x9A && c == 0x80)
    || (a == 0xE2 && b == 0x80 && (c <= 0x8A || c == 0xA8 || c == 0xA9 || c == 0xAF))
    || (a == 0xE2 && b == 0x81 && c == 0x9F)
    || (a == 0xE3 && b == 0x80 && c == 0x80)
  }

  /** How many bytes come before the first white space. */
  function WordSize(s: Bytes): (n: nat)
    ensures n <= |s|
    ensures n == 0 <==> s == [] || SpaceSize(s) > 0
  {
    if s == [] || SpaceSize(s) > 0 then 0 else 1 + WordSize(s[1..])
  }

  /** The words of a line: its longest pieces without white space. */
  function Words(s: Bytes): seq<Bytes> {
    if s == [] then []
    else if SpaceSize(s) > 0 then Words(s[SpaceSize(s)..])
    else [s[..WordSize(s)]] + Words(s[WordSize(s)..])
  }

  predicate IsWord(w: Bytes) {
    w != [] && WordSize(w) == |w|
  }

  /** The words with one space between neighbours. */
  function Spaced(words: seq<Bytes>): Bytes {
    if words == [] then []
    else if |words| == 1 then words[0]
    else words[0] + [0x20] + Spaced(words[1..])
  }

  lemma {:induction false} WordEndsAtSpace(w: Bytes, rest: Bytes)
    requires WordSize(w) == |w| && (rest == [] || rest[0] == 0x20)
    ensures WordSize(w + rest) == |w|
  {
    if w == [] {
      assert w + rest == rest;
    } else {
      assert SpaceSize(w) == 0;
      assert SpaceSize(w + rest) == 0;
      assert (w + rest)[1..] == w[1..] + rest;
      WordEndsAtSpace(w[1..], rest);
    }
  }

  /** Splitting undoes spacing. */
  lemma {:induction false} WordsOfSpaced(words: seq<Bytes>)
    requires forall i :: 0 <= i < |words| ==> IsWord(words[i])
    ensures Words(Spaced(words)) == words
  {
    if words != [] {
      var w := words[0];
      var rest := if |words| == 1 then [] else [0x20] + Spaced(words[1..]);
      var s := Spaced(words);
      assert s == w + rest;
      WordEndsAtSpace(w, rest);
      assert s[..|w|] == w && s[|w|..] == rest;
      WordsOfSpaced(words[1..]);
      if |words| > 1 {
        assert rest[1..] == Spaced(words[1..]);
      }
    }
  }
}
