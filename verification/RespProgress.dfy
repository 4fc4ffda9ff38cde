/** Which beginnings of a command can still be answered. */
module RespProgress {
  import opened ByteStrings
  import opened Options
  import opened Utf8
  import opened Resp

  // ---- Lines ----

  /** The line from `start` on has arrived as, or begins with, bytes that no UTF-8 extends. */
  predicate DeadLine(buf: Bytes, start: nat)
    requires start <= |buf|
  {
    match FindCrlf(buf, start)
    case Some(at) => !ValidUtf8(buf[start..at])
    case None => !Utf8Prefix(buf[start..])
  }

  lemma {:induction false} NoCrlfBefore(buf: Bytes, more: Bytes, start: nat)
    requires start <= |buf| && FindCrlf(buf, start).None? && FindCrlf(buf + more, start).Some?
    ensures FindCrlf(buf + more, start).value + 1 >= |buf|
    ensures var at := FindCrlf(buf + more, start).value; (buf + more)[at] == CR
    decreases |buf| - start
  {
    CrlfIsThere(buf + more, start);
    if start + 1 < |buf| {
      NoCrlfBefore(buf, more, start + 1);
    }
  }

  lemma {:induction false} CrlfIsThere(buf: Bytes, start: nat)
    requires start <= |buf| && FindCrlf(buf, start).Some?
    ensures var at := FindCrlf(buf, start).value; buf[at] == CR && buf[at + 1] == LF
    decreases |buf| - start
  {
    if !(buf[start] == CR && buf[start + 1] == LF) {
      CrlfIsThere(buf, start + 1);
    }
  }

  lemma {:induction false} CrIsUtf8()
    ensures ValidUtf8([CR])
  {
    AsciiIsUtf8([CR]);
  }

  /** A dead line is never read, whatever follows. */
  lemma DeadLineIsNotRead(buf: Bytes, more: Bytes, start: nat)
    requires start <= |buf| && DeadLine(buf, start)
    ensures ReadLine(buf + more, start) == None
  {
    hide ValidUtf8, Utf8Prefix;
    if FindCrlf(buf, start).Some? {
      CrlfStays(buf, more, start);
      var at := FindCrlf(buf, start).value;
      assert (buf + more)[start..at] == buf[start..at];
    } else if FindCrlf(buf + more, start).Some? {
      NoCrlfBefore(buf, more, start);
      var at := FindCrlf(buf + more, start).value;
      var text, s := (buf + more)[start..at], buf[start..];
      if ValidUtf8(text) {
        if at >= |buf| {
          assert text == s + text[|s|..];
          OnlyPrefixesComplete(s, text[|s|..]);
        } else {
          CrIsUtf8();
          Utf8Concat(text, [CR]);
          assert text + [CR] == s + [];
          OnlyPrefixesComplete(s, []);
        }
      }
    }
  }

  lemma {:induction false} CrlfBehind(buf: Bytes, rest: Bytes, start: nat)
    requires start <= |buf| && FindCrlf(buf, start).None?
    requires forall i :: 0 <= i < |rest| ==> rest[i] >= 0x80
    ensures FindCrlf(buf + rest + CRLF, start) == Some(|buf| + |rest|)
    decreases |buf| - start
  {
    var b := buf + rest + CRLF;
    assert b[|buf| + |rest|] == CR && b[|buf| + |rest| + 1] == LF;
    assert forall i :: 0 <= i < |buf| ==> b[i] == buf[i];
    assert forall i :: |buf| <= i < |buf| + |rest| ==> b[i] == rest[i - |buf|];
    if start == |buf| {
      CrlfAfterText(b, start, |buf| + |rest|);
    } else {
      CrlfBehind(buf, rest, start + 1);
    }
  }

  /** Any other line can be brought to its end. */
  lemma LineCompletes(buf: Bytes, start: nat) returns (more: Bytes)
    requires start <= |buf| && !DeadLine(buf, start)
    ensures ReadLine(buf + more, start).Some?
    ensures if ReadLine(buf, start).Some? then more == [] else ReadLine(buf + more, start).value.1 == |buf + more|
  {
    hide ValidUtf8, Utf8Prefix;
    if FindCrlf(buf, start).Some? {
      more := [];
      assert buf + more == buf;
    } else {
      var rest := Utf8Completes(buf[start..]);
      more := rest + CRLF;
      CrlfBehind(buf, rest, start);
      EndOfLine(buf, rest, start);
    }
  }

  lemma EndOfLine(buf: Bytes, rest: Bytes, start: nat)
    requires start <= |buf|
    ensures buf + (rest + CRLF) == buf + rest + CRLF
    ensures (buf + rest + CRLF)[start..|buf| + |rest|] == buf[start..] + rest
  {
  }

  // ---- Commands ----

  /** The length line of the argument that is being read is dead. */
  predicate StuckArgs(buf: Bytes, pos: nat, count: nat)
    requires pos <= |buf|
    decreases count
  {
    count > 0 &&
    match ParseArg(buf, pos)
    case Complete(_, next) => StuckArgs(buf, next, count - 1)
    case Error(_) => false
    case Incomplete => pos < |buf| && DeadLine(buf, pos + 1)
  }

  predicate Stuck(buf: Bytes) {
    buf != [] &&
    if buf[0] != STAR then DeadLine(buf, 0)
    else match ReadLine(buf, 1)
      case None => DeadLine(buf, 1)
      case Some((text, afterStar)) =>
        var count := ParseI64(text);
        count.Some? && count.value >= 0 && StuckArgs(buf, afterStar, count.value)
  }

  lemma {:induction false} StuckArgsStay(buf: Bytes, more: Bytes, pos: nat, count: nat)
    requires pos <= |buf| && StuckArgs(buf, pos, count)
    ensures ParseArgs(buf + more, pos, count) == Incomplete
    decreases count
  {
    hide DeadLine, ReadLine, ParseI64, ValidUtf8;
    match ParseArg(buf, pos)
    case Complete(_, next) =>
      ArgStays(buf, more, pos);
      StuckArgsStay(buf, more, next, count - 1);
    case Error(_) =>
    case Incomplete =>
      DeadLineIsNotRead(buf, more, pos + 1);
      DollarFirst(buf, pos);
  }

  lemma DollarFirst(buf: Bytes, pos: nat)
    requires pos < |buf| && ParseArg(buf, pos) == Incomplete
    ensures buf[pos] == DOLLAR
  {
  }

  /** An argument that waits can be brought to its end, unless its length line is dead. */
  lemma ArgCompletes(buf: Bytes, pos: nat) returns (more: Bytes)
    requires pos <= |buf| && ParseArg(buf, pos) == Incomplete
    requires pos < |buf| ==> !DeadLine(buf, pos + 1)
    ensures ParseArg(buf + more, pos) != Incomplete
    ensures ParseArg(buf + more, pos).Complete? ==> ParseArg(buf + more, pos).consumed == |buf + more|
  {
    hide DeadLine, ReadLine, ParseI64, ValidUtf8;
    if pos == |buf| {
      more := [STAR];
      assert (buf + more)[pos] == STAR;
    } else {
      DollarFirst(buf, pos);
      var line := LineCompletes(buf, pos + 1);
      var b := buf + line;
      var (text, afterDollar) := ReadLine(b, pos + 1).value;
      var len := ParseI64(text);
      var end := if len.Some? && len.value >= 0 then afterDollar + len.value + 2 else 0;
      var fill := Filler(if end > |b| then end - |b| else 0);
      more := line + fill;
      if ReadLine(buf, pos + 1).Some? { assert b == buf; }
      assert buf + more == b + fill;
      LineStays(b, fill, pos + 1);
    }
  }

  function Filler(n: nat): (r: Bytes)
    ensures |r| == n
  {
    seq(n, i => STAR)
  }

  lemma {:induction false} ArgsComplete(buf: Bytes, pos: nat, count: nat) returns (more: Bytes)
    requires pos <= |buf| && !StuckArgs(buf, pos, count)
    ensures ParseArgs(buf + more, pos, count) != Incomplete
    decreases count
  {
    hide DeadLine, ReadLine, ParseI64, ValidUtf8, ParseArg;
    if count == 0 {
      more := [];
    } else {
      match ParseArg(buf, pos) {
        case Complete(_, next) =>
          more := ArgsComplete(buf, next, count - 1);
          ArgStays(buf, more, pos);
        case Error(_) =>
          more := [];
          ArgStays(buf, more, pos);
        case Incomplete =>
          var first := ArgCompletes(buf, pos);
          var b := buf + first;
          more := first + [STAR];
          assert buf + more == b + [STAR];
          ArgStays(b, [STAR], pos);
          if count > 1 {
            NextIsNoArg(b, count - 1);
          }
      }
    }
  }

  lemma NextIsNoArg(b: Bytes, count: nat)
    requires count > 0
    ensures ParseArgs(b + [STAR], |b|, count) == Error(ExpectedBulkString)
  {
    assert (b + [STAR])[|b|] == STAR;
  }

  lemma StuckIsNotAnswered(buf: Bytes, more: Bytes)
    requires Stuck(buf)
    ensures Parse(buf + more) == Incomplete
  {
    hide DeadLine, ReadLine, ParseI64, ParseArgs, StuckArgs;
    if buf[0] != STAR {
      DeadLineIsNotRead(buf, more, 0);
    } else if ReadLine(buf, 1) == None {
      DeadLineIsNotRead(buf, more, 1);
    } else {
      LineStays(buf, more, 1);
      var (text, afterStar) := ReadLine(buf, 1).value;
      StuckArgsStay(buf, more, afterStar, ParseI64(text).value);
    }
  }

  lemma AnswerComes(buf: Bytes) returns (more: Bytes)
    requires !Stuck(buf)
    ensures Parse(buf + more) != Incomplete
  {
    hide DeadLine, ReadLine, ParseI64, ParseArgs, StuckArgs;
    if buf == [] {
      more := EmptyLine();
      assert buf + more == more;
    } else if buf[0] != STAR {
      more := LineCompletes(buf, 0);
    } else if ReadLine(buf, 1) == None {
      var line := LineCompletes(buf, 1);
      var b := buf + line;
      var (text, afterStar) := ReadLine(b, 1).value;
      var count := ParseI64(text);
      more := line + [STAR];
      assert buf + more == b + [STAR];
      LineStays(b, [STAR], 1);
      if count.Some? && count.value >= 0 {
        NoneOrNoArg(b, count.value);
      }
    } else {
      var (text, afterStar) := ReadLine(buf, 1).value;
      var count := ParseI64(text);
      if count.Some? && count.value >= 0 {
        more := ArgsComplete(buf, afterStar, count.value);
      } else {
        more := [];
      }
      LineStays(buf, more, 1);
    }
  }

  lemma EmptyLine() returns (more: Bytes)
    ensures more != [] && more[0] != STAR && ReadLine(more, 0).Some?
  {
    more := CRLF;
    assert more[0..0] == [];
  }

  lemma NoneOrNoArg(b: Bytes, count: nat)
    ensures ParseArgs(b + [STAR], |b|, count) != Incomplete
  {
    if count > 0 {
      NextIsNoArg(b, count);
    }
  }

  /** More input can bring an answer exactly if the buffer is not stuck in a line, the first or
      the length line of an argument, that is not and cannot become UTF-8. */
  lemma AnsweredExactly(buf: Bytes)
    ensures (exists more :: Parse(buf + more) != Incomplete) <==> !Stuck(buf)
  {
    hide Parse, Stuck;
    if Stuck(buf) {
      forall more ensures Parse(buf + more) == Incomplete {
        StuckIsNotAnswered(buf, more);
      }
    } else {
      var more := AnswerComes(buf);
      assert Parse(buf + more) != Incomplete;
    }
  }

  /** Both kinds of line occur. */
  lemma StuckLines()
    ensures Stuck([0xFF]) && Stuck([STAR, 49, CR, LF, DOLLAR, 0xFF, CR, LF])
  {
    var buf: Bytes := [STAR, 49, CR, LF, DOLLAR, 0xFF, CR, LF];
    CrlfAfterText(buf, 1, 2);
    assert buf[1..2] == [49];
    AsciiIsUtf8([49]);
    assert [49][..0] == [];
    CrlfAfterText(buf, 5, 6);
    assert buf[5..6] == [0xFF];
    assert ParseI64([49]) == Some(1);
    assert ParseArg(buf, 4) == Incomplete;
  }
}
