/** Reading commands of the Redis serialization protocol (RESP2) from a buffer that may
    end in the middle of one. */
module Resp {
  import opened ByteStrings
  import opened Options
  import opened Decimal
  import opened Utf8

  const CR: byte := 13
  const LF: byte := 10
  const CRLF: Bytes := [13, 10]
  const STAR: byte := 42
  const DOLLAR: byte := 36
  const PLUS: byte := 43
  const MINUS: byte := 45
  const TWO_TO_THE_63: int := 0x8000_0000_0000_0000

  type Command = seq<Bytes>

  datatype Fault =
    | InvalidArrayLength(text: Bytes)
    | InvalidBulkLength(text: Bytes)
    | NonUtf8Argument
    | ExpectedBulkString

  datatype ParseResult =
    | Complete(args: Command, consumed: nat)
    | Incomplete
    | Error(fault: Fault)

  // ---- Lines and numbers ----

  /** Where the first CR LF at or after `i` begins. */
  function FindCrlf(buf: Bytes, i: nat): (r: Option<nat>)
    requires i <= |buf|
    ensures r.Some? ==> i <= r.value && r.value + 2 <= |buf|
    decreases |buf| - i
  {
    if i + 1 >= |buf| then None
    else if buf[i] == CR && buf[i + 1] == LF then Some(i)
    else FindCrlf(buf, i + 1)
  }

  /** The text up to the next CR LF and the position after it; a text that is not UTF-8
      reads as no line at all. */
  function ReadLine(buf: Bytes, start: nat): (r: Option<(Bytes, nat)>)
    requires start <= |buf|
    ensures r.Some? ==> start + 2 <= r.value.1 <= |buf|
  {
    match FindCrlf(buf, start)
    case None => None
    case Some(at) => if ValidUtf8(buf[start..at]) then Some((buf[start..at], at + 2)) else None
  }

  /** A number as Rust's `i64` parser accepts it. */
  function ParseI64(s: Bytes): Option<int> {
    var signed := |s| > 1 && (s[0] == PLUS || s[0] == MINUS);
    var digits := if signed then s[1..] else s;
    if digits == [] || !AllDigits(digits) then None
    else
      var n := if signed && s[0] == MINUS then -ValueOf(digits) else ValueOf(digits);
      if -TWO_TO_THE_63 <= n < TWO_TO_THE_63 then Some(n) else None
  }

  // ---- Commands ----

  /** One argument of an array, from the byte that must be a dollar sign. */
  function ParseArg(buf: Bytes, pos: nat): (r: ParseResult)
    requires pos <= |buf|
    ensures r.Complete? ==> |r.args| == 1 && pos < r.consumed <= |buf|
  {
    if pos >= |buf| then Incomplete
    else if buf[pos] != DOLLAR then Error(ExpectedBulkString)
    else match ReadLine(buf, pos + 1)
      case None => Incomplete
      case Some((text, afterDollar)) =>
        match ParseI64(text)
        case None => Error(InvalidBulkLength(text))
        case Some(len) =>
          if len < 0 then Complete([[]], afterDollar)
          else if |buf| < afterDollar + len + 2 then Incomplete
          else if !ValidUtf8(buf[afterDollar..afterDollar + len]) then Error(NonUtf8Argument)
          else Complete([buf[afterDollar..afterDollar + len]], afterDollar + len + 2)
  }

  /** `count` arguments from `pos` on. */
  function ParseArgs(buf: Bytes, pos: nat, count: nat): (r: ParseResult)
    requires pos <= |buf|
    ensures r.Complete? ==> pos <= r.consumed <= |buf| && |r.args| == count
    decreases count
  {
    if count == 0 then Complete([], pos)
    else match ParseArg(buf, pos)
      case Incomplete => Incomplete
      case Error(fault) => Error(fault)
      case Complete(arg, next) =>
        match ParseArgs(buf, next, count - 1)
        case Incomplete => Incomplete
        case Error(fault) => Error(fault)
        case Complete(args, end) => Complete(arg + args, end)
  }

  function Array(buf: Bytes): (r: ParseResult)
    requires buf != []
    ensures r.Complete? ==> 0 < r.consumed <= |buf|
  {
    match ReadLine(buf, 1)
    case None => Incomplete
    case Some((text, afterStar)) =>
      match ParseI64(text)
      case None => Error(InvalidArrayLength(text))
      case Some(count) =>
        if count < 0 then Complete([], afterStar) else ParseArgs(buf, afterStar, count)
  }

  function ParseInline(buf: Bytes): (r: ParseResult)
    ensures r.Complete? ==> 0 < r.consumed <= |buf|
  {
    match ReadLine(buf, 0)
    case None => Incomplete
    case Some((line, consumed)) => Complete(Words(line), consumed)
  }

  function Parse(buf: Bytes): (r: ParseResult)
    ensures r.Complete? ==> 0 < r.consumed <= |buf|
  {
    if buf == [] then Incomplete
    else if buf[0] == STAR then Array(buf)
    else ParseInline(buf)
  }

  /** What `r` becomes when `args` come before it. */
  function After(args: Command, r: ParseResult): ParseResult {
    match r
    case Complete(rest, end) => Complete(args + rest, end)
    case _ => r
  }

  lemma OneMore(buf: Bytes, pos: nat, count: nat, args: Command)
    requires pos <= |buf| && count > 0
    ensures After(args, ParseArgs(buf, pos, count)) ==
            match ParseArg(buf, pos)
            case Complete(arg, next) => After(args + arg, ParseArgs(buf, next, count - 1))
            case r => r
  {
    hide ParseArg;
    match ParseArg(buf, pos)
    case Complete(arg, next) =>
      var rest := ParseArgs(buf, next, count - 1);
      assert rest.Complete? ==> args + (arg + rest.args) == (args + arg) + rest.args;
    case _ =>
  }

  lemma NothingMore(buf: Bytes, pos: nat, count: nat)
    requires pos <= |buf|
    ensures ParseArgs(buf, pos, 0) == Complete([], pos)
    ensures After([], ParseArgs(buf, pos, count)) == ParseArgs(buf, pos, count)
  {
    var r := ParseArgs(buf, pos, count);
    assert r.Complete? ==> [] + r.args == r.args;
  }

  /** The array form, argument by argument. */
  method ParseArray(buf: Bytes) returns (r: ParseResult)
    requires buf != []
    ensures r == Array(buf)
  {
    hide ReadLine, ParseI64, ValidUtf8, ParseArgs;
    var head := ReadLine(buf, 1);
    if head == None { return Incomplete; }
    var (text, afterStar) := head.value;
    var parsed := ParseI64(text);
    if parsed == None { return Error(InvalidArrayLength(text)); }
    var count := parsed.value;
    if count < 0 { return Complete([], afterStar); }
    var args: Command := [];
    var pos := afterStar;
    NothingMore(buf, pos, count);
    for i := 0 to count
      invariant pos <= |buf|
      invariant ParseArgs(buf, afterStar, count) == After(args, ParseArgs(buf, pos, count - i))
    {
      OneMore(buf, pos, count - i, args);
      ghost var first := ParseArg(buf, pos);
      if pos >= |buf| { return Incomplete; }
      if buf[pos] != DOLLAR { return Error(ExpectedBulkString); }
      var line := ReadLine(buf, pos + 1);
      if line == None { return Incomplete; }
      var (lenText, afterDollar) := line.value;
      var len := ParseI64(lenText);
      if len == None { return Error(InvalidBulkLength(lenText)); }
      var s: Bytes := [];
      if len.value < 0 {
        pos := afterDollar;
      } else {
        var end := afterDollar + len.value;
        if |buf| < end + 2 { return Incomplete; }
        if !ValidUtf8(buf[afterDollar..end]) { return Error(NonUtf8Argument); }
        s := buf[afterDollar..end];
        pos := end + 2;
      }
      assert first == Complete([s], pos);
      args := args + [s];
    }
    NothingMore(buf, pos, 0);
    r := Complete(args, pos);
  }

  method ParseCommand(buf: Bytes) returns (r: ParseResult)
    ensures r == Parse(buf)
  {
    if buf == [] { return Incomplete; }
    if buf[0] == STAR {
      r := ParseArray(buf);
    } else {
      r := ParseInline(buf);
    }
  }

  // ---- More input never changes an answer ----

  lemma {:induction false} CrlfStays(buf: Bytes, more: Bytes, i: nat)
    requires i <= |buf| && FindCrlf(buf, i).Some?
    ensures FindCrlf(buf + more, i) == FindCrlf(buf, i)
    decreases |buf| - i
  {
    if !(buf[i] == CR && buf[i + 1] == LF) {
      CrlfStays(buf, more, i + 1);
    }
  }

  lemma LineStays(buf: Bytes, more: Bytes, start: nat)
    requires start <= |buf| && ReadLine(buf, start).Some?
    ensures ReadLine(buf + more, start) == ReadLine(buf, start)
  {
    hide ValidUtf8;
    CrlfStays(buf, more, start);
    var at := FindCrlf(buf, start).value;
    assert (buf + more)[start..at] == buf[start..at];
  }

  lemma ArgStays(buf: Bytes, more: Bytes, pos: nat)
    requires pos <= |buf| && ParseArg(buf, pos) != Incomplete
    ensures ParseArg(buf + more, pos) == ParseArg(buf, pos)
  {
    hide ReadLine, ParseI64, ValidUtf8;
    if buf[pos] == DOLLAR {
      LineStays(buf, more, pos + 1);
      var (text, afterDollar) := ReadLine(buf, pos + 1).value;
      var len := ParseI64(text);
      if len.Some? && 0 <= len.value {
        assert (buf + more)[afterDollar..afterDollar + len.value] == buf[afterDollar..afterDollar + len.value];
      }
    }
  }

  lemma {:induction false} ArgsStay(buf: Bytes, more: Bytes, pos: nat, count: nat)
    requires pos <= |buf| && ParseArgs(buf, pos, count) != Incomplete
    ensures ParseArgs(buf + more, pos, count) == ParseArgs(buf, pos, count)
    decreases count
  {
    hide ParseArg;
    if count > 0 {
      ArgStays(buf, more, pos);
      if ParseArg(buf, pos).Complete? {
        ArgsStay(buf, more, ParseArg(buf, pos).consumed, count - 1);
      }
    }
  }

  /** A command or an error, once found, is found whatever follows. */
  lemma AnswerStays(buf: Bytes, more: Bytes)
    requires Parse(buf) != Incomplete
    ensures Parse(buf + more) == Parse(buf)
  {
    hide ReadLine, ParseI64, ParseArgs, Words;
    if buf[0] == STAR {
      LineStays(buf, more, 1);
      var (text, afterStar) := ReadLine(buf, 1).value;
      var count := ParseI64(text);
      if count.Some? && 0 <= count.value {
        ArgsStay(buf, more, afterStar, count.value);
      }
    } else {
      LineStays(buf, more, 0);
    }
  }

  // ---- A command needs no more than the bytes that it takes ----

  lemma {:induction false} CrlfCut(buf: Bytes, m: nat, i: nat)
    requires i <= |buf| && FindCrlf(buf, i).Some? && FindCrlf(buf, i).value + 2 <= m <= |buf|
    ensures FindCrlf(buf[..m], i) == FindCrlf(buf, i)
    decreases |buf| - i
  {
    if !(buf[i] == CR && buf[i + 1] == LF) {
      CrlfCut(buf, m, i + 1);
    }
  }

  lemma LineCut(buf: Bytes, m: nat, start: nat)
    requires start <= |buf| && ReadLine(buf, start).Some? && ReadLine(buf, start).value.1 <= m <= |buf|
    ensures ReadLine(buf[..m], start) == ReadLine(buf, start)
  {
    hide ValidUtf8;
    CrlfCut(buf, m, start);
    var at := FindCrlf(buf, start).value;
    assert buf[..m][start..at] == buf[start..at];
  }

  lemma ArgCut(buf: Bytes, m: nat, pos: nat)
    requires pos <= |buf| && ParseArg(buf, pos).Complete? && ParseArg(buf, pos).consumed <= m <= |buf|
    ensures ParseArg(buf[..m], pos) == ParseArg(buf, pos)
  {
    hide ReadLine, ParseI64, ValidUtf8;
    LineCut(buf, m, pos + 1);
    var (text, afterDollar) := ReadLine(buf, pos + 1).value;
    var len := ParseI64(text).value;
    if 0 <= len {
      assert buf[..m][afterDollar..afterDollar + len] == buf[afterDollar..afterDollar + len];
    }
  }

  lemma {:induction false} ArgsCut(buf: Bytes, m: nat, pos: nat, count: nat)
    requires pos <= |buf| && ParseArgs(buf, pos, count).Complete? && ParseArgs(buf, pos, count).consumed <= m <= |buf|
    ensures ParseArgs(buf[..m], pos, count) == ParseArgs(buf, pos, count)
    decreases count
  {
    hide ParseArg;
    if count > 0 {
      ArgCut(buf, m, pos);
      ArgsCut(buf, m, ParseArg(buf, pos).consumed, count - 1);
    }
  }

  lemma ConsumedSuffices(buf: Bytes, m: nat)
    requires Parse(buf).Complete? && Parse(buf).consumed <= m <= |buf|
    ensures Parse(buf[..m]) == Parse(buf)
  {
    hide ReadLine, ParseI64, ParseArgs, Words;
    if buf[0] == STAR {
      LineCut(buf, m, 1);
      var (text, afterStar) := ReadLine(buf, 1).value;
      var count := ParseI64(text).value;
      if 0 <= count {
        ArgsCut(buf, m, afterStar, count);
      }
    } else {
      LineCut(buf, m, 0);
    }
  }

  // ---- Encoding ----

  function Bulk(s: Bytes): Bytes {
    [DOLLAR] + Digits(|s|) + CRLF + s + CRLF
  }

  function Bulks(args: Command): Bytes {
    if args == [] then [] else Bulk(args[0]) + Bulks(args[1..])
  }

  /** A command as clients send it: an array of bulk strings. */
  function Encode(args: Command): Bytes {
    [STAR] + Digits(|args|) + CRLF + Bulks(args)
  }

  /** Strings of UTF-8, with sizes that fit the numbers of the protocol. */
  predicate Sendable(args: Command) {
    && |args| < TWO_TO_THE_63
    && forall i :: 0 <= i < |args| ==> |args[i]| < TWO_TO_THE_63 && ValidUtf8(args[i])
  }

  lemma {:induction false} CrlfAfterText(buf: Bytes, start: nat, at: nat)
    requires start <= at && at + 2 <= |buf| && buf[at] == CR && buf[at + 1] == LF
    requires forall i :: start <= i < at ==> buf[i] != CR
    ensures FindCrlf(buf, start) == Some(at)
    decreases at - start
  {
    if start < at {
      CrlfAfterText(buf, start + 1, at);
    }
  }

  lemma NumeralLine(buf: Bytes, start: nat, n: nat)
    requires At(buf, start, Digits(n) + CRLF) && n < TWO_TO_THE_63
    ensures ReadLine(buf, start) == Some((Digits(n), start + |Digits(n)| + 2))
    ensures ParseI64(Digits(n)) == Some(n)
  {
    hide Digits, ValueOf;
    var d := Digits(n);
    var at := start + |d|;
    assert (d + CRLF)[|d|] == CR && (d + CRLF)[|d| + 1] == LF;
    assert forall i :: 0 <= i < |d| + 2 ==> (d + CRLF)[i] == buf[start..start + |d| + 2][i] == buf[start + i];
    assert forall i :: start <= i < at ==> buf[i] == d[i - start] && IsDigit(d[i - start]);
    CrlfAfterText(buf, start, at);
    assert buf[start..at] == d;
    AsciiIsUtf8(d);
    ValueOfDigits(n);
    assert IsDigit(d[0]);
  }

  lemma BulkParses(buf: Bytes, pos: nat, s: Bytes)
    requires At(buf, pos, Bulk(s)) && |s| < TWO_TO_THE_63 && ValidUtf8(s)
    ensures ParseArg(buf, pos) == Complete([s], pos + |Bulk(s)|)
  {
    hide Digits, ValidUtf8, ReadLine, ParseI64;
    BulkStands(buf, pos, s);
    NumeralLine(buf, pos + 1, |s|);
  }

  /** Where the parts of a bulk string stand. */
  lemma BulkStands(buf: Bytes, pos: nat, s: Bytes)
    requires At(buf, pos, Bulk(s))
    ensures var from := pos + 1 + |Digits(|s|)| + 2;
            && pos < |buf| && buf[pos] == DOLLAR && At(buf, pos + 1, Digits(|s|) + CRLF) && At(buf, from, s)
            && from + |s| + 2 == pos + |Bulk(s)| <= |buf|
  {
    hide Digits;
    var d := Digits(|s|);
    assert Bulk(s) == [DOLLAR] + ((d + CRLF) + (s + CRLF));
    Stands(buf, pos, Bulk(s), 0, 1);
    Apart(buf, pos, [DOLLAR], (d + CRLF) + (s + CRLF));
    Apart(buf, pos + 1, d + CRLF, s + CRLF);
    Apart(buf, pos + 1 + |d| + 2, s, CRLF);
  }

  lemma {:induction false} BulksParse(buf: Bytes, pos: nat, args: Command)
    requires At(buf, pos, Bulks(args)) && Sendable(args)
    ensures ParseArgs(buf, pos, |args|) == Complete(args, pos + |Bulks(args)|)
    decreases |args|
  {
    hide Bulk, ParseArg, ValidUtf8;
    if args != [] {
      var b, bs := Bulk(args[0]), Bulks(args[1..]);
      Apart(buf, pos, b, bs);
      BulkParses(buf, pos, args[0]);
      BulksParse(buf, pos + |b|, args[1..]);
      assert args == [args[0]] + args[1..];
    }
  }

  /** A full encoding is read back, with its exact length, whatever follows it. */
  lemma EncodingParses(args: Command, rest: Bytes)
    requires Sendable(args)
    ensures Parse(Encode(args) + rest) == Complete(args, |Encode(args)|)
  {
    hide Digits, Bulks, ReadLine, ParseI64, ParseArgs, Sendable;
    assert |args| < TWO_TO_THE_63 by { SendableCount(args); }
    var d := Digits(|args|);
    var buf := Encode(args) + rest;
    assert buf[1..] == (d + CRLF) + (Bulks(args) + rest);
    NumeralLine(buf, 1, |args|);
    var from := 1 + |d| + 2;
    assert buf[from..] == Bulks(args) + rest;
    BulksParse(buf, from, args);
  }

  lemma SendableCount(args: Command)
    requires Sendable(args)
    ensures |args| < TWO_TO_THE_63
  {
  }

  /** Until its last byte arrives, an encoding is neither a command nor an error. */
  lemma PrefixIsIncomplete(args: Command, n: nat)
    requires Sendable(args) && n < |Encode(args)|
    ensures Parse(Encode(args)[..n]) == Incomplete
  {
    hide Parse, Encode, Sendable;
    var e := Encode(args);
    EncodingParses(args, []);
    assert e + [] == e;
    assert e[..n] + e[n..] == e;
    if Parse(e[..n]) != Incomplete {
      AnswerStays(e[..n], e[n..]);
    }
  }

  /** A line of words is read as those words. */
  lemma InlineParses(words: Command, rest: Bytes)
    requires words != [] && words[0] != [] && words[0][0] != STAR
    requires forall i :: 0 <= i < |words| ==> IsWord(words[i]) && ValidUtf8(words[i])
    ensures Parse(Spaced(words) + CRLF + rest) == Complete(words, |Spaced(words)| + 2)
  {
    hide ValidUtf8, Words, IsWord;
    var line := Spaced(words);
    var buf := line + CRLF + rest;
    SpacedIsALine(words);
    assert buf[0] == words[0][0];
    CrlfAfterText(buf, 0, |line|);
    assert buf[0..|line|] == line;
    WordsOfSpaced(words);
  }

  lemma {:induction false} SpacedIsALine(words: Command)
    requires forall i :: 0 <= i < |words| ==> IsWord(words[i]) && ValidUtf8(words[i])
    ensures ValidUtf8(Spaced(words)) && CR !in Spaced(words)
    ensures words != [] ==> words[0] <= Spaced(words)
  {
    if words != [] {
      NoReturnInWord(words[0]);
      if |words| > 1 {
        SpacedIsALine(words[1..]);
        AsciiIsUtf8([0x20]);
        Utf8Concat([0x20], Spaced(words[1..]));
        Utf8Concat(words[0], [0x20] + Spaced(words[1..]));
        assert words[0] + [0x20] + Spaced(words[1..]) == words[0] + ([0x20] + Spaced(words[1..]));
      }
    }
  }

  lemma {:induction false} NoReturnInWord(w: Bytes)
    requires WordSize(w) == |w|
    ensures CR !in w
  {
    if w != [] {
      NoReturnInWord(w[1..]);
      assert SpaceSize(w) == 0;
    }
  }
}
