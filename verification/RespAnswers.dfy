/** What the reader answers to null values, to lengths that are not numbers, and to
    arguments that are not strings. */
module RespAnswers {
  import opened ByteStrings
  import opened Options
  import opened Decimal
  import opened Utf8
  import opened Resp

  // ---- Numbers ----

  /** Decimal numerals with or without a sign are read as the numbers that they name, as far
      as these have 64 bits. */
  lemma SignedNumbers(d: Bytes)
    requires d != [] && AllDigits(d)
    ensures ParseI64(d) == if ValueOf(d) < TWO_TO_THE_63 then Some(ValueOf(d)) else None
    ensures ParseI64([PLUS] + d) == if ValueOf(d) < TWO_TO_THE_63 then Some(ValueOf(d)) else None
    ensures ParseI64([MINUS] + d) == if ValueOf(d) <= TWO_TO_THE_63 then Some(-ValueOf(d)) else None
  {
    hide ValueOf;
    ValueOfNonNegative(d);
    assert IsDigit(d[0]);
    assert ([PLUS] + d)[1..] == d && ([MINUS] + d)[1..] == d;
  }

  /** Nothing at all, a sign alone, or a character that is neither a digit nor a sign in front. */
  predicate NotANumber(text: Bytes) {
    || text == [] || text == [PLUS] || text == [MINUS]
    || exists i :: 0 <= i < |text| && !IsDigit(text[i]) && (i > 0 || (text[0] != PLUS && text[0] != MINUS))
  }

  lemma NotANumberIsRefused(text: Bytes)
    requires NotANumber(text)
    ensures ParseI64(text) == None
  {
    hide ValueOf;
    var signed := |text| > 1 && (text[0] == PLUS || text[0] == MINUS);
    var digits := if signed then text[1..] else text;
    if i :| 0 <= i < |text| && !IsDigit(text[i]) && (i > 0 || (text[0] != PLUS && text[0] != MINUS)) {
      assert digits[if signed then i - 1 else i] == text[i];
      assert !AllDigits(digits);
    }
  }

  // ---- Lines ----

  predicate IsLine(text: Bytes) {
    CR !in text && ValidUtf8(text)
  }

  lemma TextLine(buf: Bytes, start: nat, text: Bytes)
    requires At(buf, start, text + CRLF) && IsLine(text)
    ensures ReadLine(buf, start) == Some((text, start + |text| + 2))
  {
    hide ValidUtf8;
    var at := start + |text|;
    assert (text + CRLF)[|text|] == CR && (text + CRLF)[|text| + 1] == LF;
    assert forall i :: 0 <= i < |text| + 2 ==> (text + CRLF)[i] == buf[start..start + |text| + 2][i] == buf[start + i];
    assert forall i :: start <= i < at ==> buf[i] == text[i - start];
    CrlfAfterText(buf, start, at);
    assert buf[start..at] == text;
  }

  lemma SignedLine(n: nat)
    ensures IsLine([MINUS] + Digits(n)) && IsLine(Digits(n))
  {
    hide Digits, ValidUtf8;
    var d := Digits(n);
    assert forall i :: 0 <= i < |d| ==> IsDigit(d[i]);
    AsciiIsUtf8(d);
    AsciiIsUtf8([MINUS] + d);
  }

  // ---- Arguments ----

  /** An argument as it may come: a string, or a null written with a negative length. */
  datatype Argument = Text(s: Bytes) | NullText(minus: nat)

  predicate Sent(a: Argument) {
    match a
    case Text(s) => |s| < TWO_TO_THE_63 && ValidUtf8(s)
    case NullText(minus) => 0 < minus <= TWO_TO_THE_63
  }

  function Wire(a: Argument): Bytes {
    match a
    case Text(s) => Bulk(s)
    case NullText(minus) => [DOLLAR] + ([MINUS] + Digits(minus) + CRLF)
  }

  function WireAll(args: seq<Argument>): Bytes {
    if args == [] then [] else Wire(args[0]) + WireAll(args[1..])
  }

  /** A null argument is read as the empty string. */
  function Strings(args: seq<Argument>): (r: Command)
    ensures |r| == |args|
    ensures forall i :: 0 <= i < |r| ==> r[i] == if args[i].Text? then args[i].s else []
  {
    if args == [] then [] else [if args[0].Text? then args[0].s else []] + Strings(args[1..])
  }

  lemma ArgumentParses(buf: Bytes, pos: nat, a: Argument)
    requires At(buf, pos, Wire(a)) && Sent(a)
    ensures ParseArg(buf, pos) == Complete([if a.Text? then a.s else []], pos + |Wire(a)|)
  {
    hide Digits, ReadLine, ParseI64, ValidUtf8, IsLine, ParseArg, At, Bulk;
    match a
    case Text(s) => BulkParses(buf, pos, s);
    case NullText(minus) => NullParses(buf, pos, minus);
  }

  lemma NullParses(buf: Bytes, pos: nat, minus: nat)
    requires At(buf, pos, [DOLLAR] + ([MINUS] + Digits(minus) + CRLF)) && 0 < minus <= TWO_TO_THE_63
    ensures ParseArg(buf, pos) == Complete([[]], pos + |Digits(minus)| + 4)
  {
    hide Digits, ReadLine, ParseI64, ValidUtf8, IsLine, At;
    var text := [MINUS] + Digits(minus);
    DollarLine(buf, pos, text);
    SignedLine(minus);
    SignedNumbers(Digits(minus));
    ValueOfDigits(minus);
    TextLine(buf, pos + 1, text);
  }

  lemma DollarLine(buf: Bytes, pos: nat, text: Bytes)
    requires At(buf, pos, [DOLLAR] + (text + CRLF))
    ensures pos < |buf| && buf[pos] == DOLLAR && At(buf, pos + 1, text + CRLF)
  {
    Apart(buf, pos, [DOLLAR], text + CRLF);
    Stands(buf, pos, [DOLLAR], 0, 1);
  }

  lemma {:induction false} ArgumentsParse(buf: Bytes, pos: nat, args: seq<Argument>, more: nat)
    requires At(buf, pos, WireAll(args)) && forall i :: 0 <= i < |args| ==> Sent(args[i])
    ensures var end := pos + |WireAll(args)|;
            ParseArgs(buf, pos, |args| + more) == After(Strings(args), ParseArgs(buf, end, more))
    decreases |args|
  {
    hide Wire, ParseArg, ParseArgs, Sent, After;
    if args == [] {
      NothingMore(buf, pos, more);
    } else {
      var b, bs := Wire(args[0]), WireAll(args[1..]);
      Apart(buf, pos, b, bs);
      ArgumentParses(buf, pos, args[0]);
      ArgumentsParse(buf, pos + |b|, args[1..], more);
      var first := Strings(args)[..1];
      ParseOne(buf, pos, first, pos + |b|, |args| + more);
      AfterAfter(first, Strings(args[1..]), ParseArgs(buf, pos + |b| + |bs|, more));
      assert Strings(args) == first + Strings(args[1..]);
    }
  }

  lemma ParseOne(buf: Bytes, pos: nat, first: Command, next: nat, count: nat)
    requires pos <= |buf| && next <= |buf| && ParseArg(buf, pos) == Complete(first, next) && count > 0
    ensures ParseArgs(buf, pos, count) == After(first, ParseArgs(buf, next, count - 1))
  {
    hide ParseArg;
  }

  lemma AfterAfter(a: Command, b: Command, r: ParseResult)
    ensures After(a, After(b, r)) == After(a + b, r)
  {
    assert r.Complete? ==> a + (b + r.args) == (a + b) + r.args;
  }

  // ---- Arrays ----

  function Head(count: nat): Bytes {
    [STAR] + (Digits(count) + CRLF)
  }

  /** An array of strings and nulls is read as those strings, with an empty one for each null. */
  lemma NullsAreEmpty(args: seq<Argument>, rest: Bytes)
    requires |args| < TWO_TO_THE_63 && forall i :: 0 <= i < |args| ==> Sent(args[i])
    ensures Parse(Head(|args|) + (WireAll(args) + rest)) == Complete(Strings(args), |Head(|args|)| + |WireAll(args)|)
  {
    hide Head, WireAll, Sent, ParseArgs, Parse;
    var buf := Head(|args|) + (WireAll(args) + rest);
    var from := |Head(|args|)|;
    ArrayFrom(buf, |args|, WireAll(args) + rest);
    StandsBehind(buf, Head(|args|), WireAll(args), rest);
    AllParsed(buf, from, args);
  }

  lemma StandsBehind(buf: Bytes, a: Bytes, b: Bytes, c: Bytes)
    requires buf == a + (b + c)
    ensures At(buf, |a|, b)
  {
    assert buf[|a|..|a| + |b|] == b;
  }

  lemma AllParsed(buf: Bytes, pos: nat, args: seq<Argument>)
    requires At(buf, pos, WireAll(args)) && forall i :: 0 <= i < |args| ==> Sent(args[i])
    ensures ParseArgs(buf, pos, |args|) == Complete(Strings(args), pos + |WireAll(args)|)
  {
    hide WireAll, Sent, ParseArgs;
    ArgumentsParse(buf, pos, args, 0);
    NothingMore(buf, pos + |WireAll(args)|, 0);
    assert Strings(args) + [] == Strings(args);
  }

  lemma ArrayFrom(buf: Bytes, count: nat, body: Bytes)
    requires buf == Head(count) + body && count < TWO_TO_THE_63
    ensures |Head(count)| <= |buf| && Parse(buf) == ParseArgs(buf, |Head(count)|, count)
  {
    hide Digits, ReadLine, ParseI64, ParseArgs;
    assert buf[1..] == (Digits(count) + CRLF) + body;
    NumeralLine(buf, 1, count);
  }

  /** What can go wrong with an argument. */
  datatype Wrong = NoDollar(b: byte) | BadLength(text: Bytes) | NotText(s: Bytes)

  predicate IsWrong(w: Wrong) {
    match w
    case NoDollar(b) => b != DOLLAR
    case BadLength(text) => IsLine(text) && NotANumber(text)
    case NotText(s) => |s| < TWO_TO_THE_63 && !ValidUtf8(s)
  }

  function WrongWire(w: Wrong): Bytes {
    match w
    case NoDollar(b) => [b]
    case BadLength(text) => [DOLLAR] + (text + CRLF)
    case NotText(s) => Bulk(s)
  }

  function FaultOf(w: Wrong): Fault {
    match w
    case NoDollar(_) => ExpectedBulkString
    case BadLength(text) => InvalidBulkLength(text)
    case NotText(_) => NonUtf8Argument
  }

  lemma WrongArgument(buf: Bytes, pos: nat, w: Wrong)
    requires At(buf, pos, WrongWire(w)) && IsWrong(w)
    ensures ParseArg(buf, pos) == Error(FaultOf(w))
  {
    hide ReadLine, ParseI64, ValidUtf8, IsLine, NotANumber, ParseArg, At, Bulk;
    match w
    case NoDollar(b) => OtherByte(buf, pos, b);
    case BadLength(text) => BadLengthRefused(buf, pos, text);
    case NotText(s) => NotTextRefused(buf, pos, s);
  }

  lemma OtherByte(buf: Bytes, pos: nat, b: byte)
    requires At(buf, pos, [b]) && b != DOLLAR
    ensures ParseArg(buf, pos) == Error(ExpectedBulkString)
  {
    hide ReadLine, ParseI64;
    Stands(buf, pos, [b], 0, 1);
  }

  lemma BadLengthRefused(buf: Bytes, pos: nat, text: Bytes)
    requires At(buf, pos, [DOLLAR] + (text + CRLF)) && IsLine(text) && NotANumber(text)
    ensures ParseArg(buf, pos) == Error(InvalidBulkLength(text))
  {
    hide ReadLine, ParseI64, IsLine, NotANumber, At;
    DollarLine(buf, pos, text);
    TextLine(buf, pos + 1, text);
    NotANumberIsRefused(text);
  }

  lemma NotTextRefused(buf: Bytes, pos: nat, s: Bytes)
    requires At(buf, pos, Bulk(s)) && |s| < TWO_TO_THE_63 && !ValidUtf8(s)
    ensures ParseArg(buf, pos) == Error(NonUtf8Argument)
  {
    hide Digits, ReadLine, ParseI64, ValidUtf8, At, Bulk;
    var from := BulkRead(buf, pos, s);
  }

  lemma BulkRead(buf: Bytes, pos: nat, s: Bytes) returns (from: nat)
    requires At(buf, pos, Bulk(s)) && |s| < TWO_TO_THE_63
    ensures pos < |buf| && buf[pos] == DOLLAR && from + |s| + 2 <= |buf| && buf[from..from + |s|] == s
    ensures ReadLine(buf, pos + 1) == Some((Digits(|s|), from)) && ParseI64(Digits(|s|)) == Some(|s|)
  {
    hide Digits, ReadLine, ParseI64, Bulk;
    BulkStands(buf, pos, s);
    NumeralLine(buf, pos + 1, |s|);
    from := pos + 1 + |Digits(|s|)| + 2;
  }

  lemma FaultFound(buf: Bytes, pos: nat, args: seq<Argument>, w: Wrong, count: nat)
    requires At(buf, pos, WireAll(args)) && At(buf, pos + |WireAll(args)|, WrongWire(w))
    requires |args| < count && IsWrong(w) && forall i :: 0 <= i < |args| ==> Sent(args[i])
    ensures ParseArgs(buf, pos, count) == Error(FaultOf(w))
  {
    hide WireAll, Sent, IsWrong, WrongWire, FaultOf, ParseArg;
    var end := pos + |WireAll(args)|;
    ArgumentsParse(buf, pos, args, count - |args|);
    WrongArgument(buf, end, w);
    assert ParseArgs(buf, end, count - |args|) == Error(FaultOf(w));
  }

  /** The first argument that is wrong decides the answer, whatever stands before and behind. */
  lemma FirstFaultAnswers(args: seq<Argument>, w: Wrong, count: nat, rest: Bytes)
    requires |args| < count < TWO_TO_THE_63 && IsWrong(w) && forall i :: 0 <= i < |args| ==> Sent(args[i])
    ensures Parse(Head(count) + (WireAll(args) + (WrongWire(w) + rest))) == Error(FaultOf(w))
  {
    hide Head, WireAll, Sent, IsWrong, WrongWire, FaultOf, Parse, ParseArgs;
    var body := WireAll(args) + (WrongWire(w) + rest);
    var buf := Head(count) + body;
    ArrayFrom(buf, count, body);
    Standing(buf, Head(count), WireAll(args), WrongWire(w), rest);
    FaultFound(buf, |Head(count)|, args, w, count);
  }

  lemma Standing(buf: Bytes, a: Bytes, b: Bytes, c: Bytes, d: Bytes)
    requires buf == a + (b + (c + d))
    ensures At(buf, |a|, b) && At(buf, |a| + |b|, c)
  {
    assert buf[|a|..|a| + |b|] == b;
    assert buf[|a| + |b|..|a| + |b| + |c|] == c;
  }

  /** A null array is an empty command; a length that is no number is an error. */
  lemma ArrayLengths(minus: nat, text: Bytes, rest: Bytes)
    ensures 0 < minus <= TWO_TO_THE_63 ==>
              Parse([STAR] + ([MINUS] + Digits(minus) + CRLF) + rest) == Complete([], 4 + |Digits(minus)|)
    ensures IsLine(text) && NotANumber(text) ==>
              Parse([STAR] + (text + CRLF) + rest) == Error(InvalidArrayLength(text))
  {
    hide Digits, ReadLine, ParseI64, ParseArgs, IsLine, NotANumber;
    SignedLine(minus);
    SignedNumbers(Digits(minus));
    ValueOfDigits(minus);
    HeadLine([MINUS] + Digits(minus), rest);
    if IsLine(text) && NotANumber(text) {
      HeadLine(text, rest);
      NotANumberIsRefused(text);
    }
  }

  lemma HeadLine(text: Bytes, rest: Bytes)
    requires IsLine(text)
    ensures ReadLine([STAR] + (text + CRLF) + rest, 1) == Some((text, |text| + 3))
  {
    hide ReadLine, IsLine;
    var buf := [STAR] + (text + CRLF) + rest;
    assert buf[1..1 + |text| + 2] == text + CRLF;
    TextLine(buf, 1, text);
  }
}
