/** One client connection: bytes arrive in pieces of any size, and each complete command
    is dispatched as soon as it is there. */
module RespConnection {
  import opened ByteStrings
  import opened Resp

  /** What the connection does that the client or the cache can see. */
  datatype Event =
    | Dispatched(args: Command)
    | Refused(fault: Fault)

  /** The end of a connection: closed by the client, or by the panic of a drain past the
      end of the buffer. */
  datatype Outcome = Outcome(events: seq<Event>, buf: Bytes, panicked: bool)

  // ---- What one buffer yields ----

  /** The commands at the front of a buffer, the bytes they take, and whether an error
      follows them (which is then the last event). */
  datatype Yield = Yield(events: seq<Event>, pos: nat, failed: bool)

  function Drain(buf: Bytes): (y: Yield)
    ensures y.pos <= |buf|
    decreases |buf|
  {
    match Parse(buf)
    case Incomplete => Yield([], 0, false)
    case Error(fault) => Yield([Refused(fault)], 0, true)
    case Complete(args, n) =>
      Then(Yield([Dispatched(args)], n, false), Drain(buf[n..]))
  }

  /** One yield after another. */
  function Then(y: Yield, rest: Yield): Yield {
    Yield(y.events + rest.events, y.pos + rest.pos, rest.failed)
  }

  lemma ThenIsAssociative(a: Yield, b: Yield, c: Yield)
    ensures Then(a, Then(b, c)) == Then(Then(a, b), c)
  {
    assert a.events + (b.events + c.events) == (a.events + b.events) + c.events;
  }

  /** One read: everything that can be parsed is, and the rest is kept. An error drops the
      buffer, and the drain that follows then panics if a command came before the error. */
  function Round(buf: Bytes): Outcome {
    var y := Drain(buf);
    if y.failed then Outcome(y.events, [], y.pos > 0) else Outcome(y.events, buf[y.pos..], false)
  }

  function Rounds(buf: Bytes, chunks: seq<Bytes>): Outcome
    decreases |chunks|
  {
    if chunks == [] || chunks[0] == [] then Outcome([], buf, false)
    else
      var first := Round(buf + chunks[0]);
      if first.panicked then first
      else
        var rest := Rounds(first.buf, chunks[1..]);
        rest.(events := first.events + rest.events)
  }

  /** The connection's loop; a read of no bytes means that the client has gone. */
  method HandleConnection(chunks: seq<Bytes>) returns (r: Outcome)
    ensures r == Rounds([], chunks)
  {
    hide Drain;
    var buf: Bytes := [];
    var events: seq<Event> := [];
    var next := 0;
    assert chunks[0..] == chunks;
    ghost var all := Rounds([], chunks);
    assert events + all.events == all.events;
    while next < |chunks|
      invariant next <= |chunks|
      invariant var rest := Rounds(buf, chunks[next..]);
                all == rest.(events := events + rest.events)
    {
      var chunk := chunks[next];
      if chunk == [] { break; }
      assert chunks[next..][1..] == chunks[next + 1..];
      ghost var seen := events;
      buf := buf + chunk;
      ghost var y := Drain(buf);
      ghost var rest := Rounds(Round(buf).buf, chunks[next + 1..]);
      assert seen + (y.events + rest.events) == (seen + y.events) + rest.events;
      var pos, cleared;
      buf, pos, cleared, events := DrainBuffer(buf, events);
      next := next + 1;
      if pos > 0 {
        if cleared { return Outcome(events, buf, true); }
        buf := buf[pos..];
      }
    }
    assert events + [] == events;
    r := Outcome(events, buf, false);
  }

  /** The inner loop: parse and dispatch until the buffer holds no further command. */
  method DrainBuffer(start: Bytes, before: seq<Event>) returns (buf: Bytes, pos: nat, cleared: bool, events: seq<Event>)
    ensures var y := Drain(start);
            && events == before + y.events && pos == y.pos && cleared == y.failed
            && buf == if y.failed then [] else start
  {
    hide Parse;
    buf, pos, events, cleared := start, 0, before, false;
    ghost var y := Drain(start);
    assert buf[0..] == start && before + y.events == events + y.events;
    while true
      invariant pos <= |buf| && buf == start && !cleared
      invariant var rest := Drain(buf[pos..]);
                before + y.events == events + rest.events && y.pos == pos + rest.pos && y.failed == rest.failed
      decreases |buf| - pos
    {
      ghost var rest := Drain(buf[pos..]);
      var parsed := ParseCommand(buf[pos..]);
      match parsed {
        case Complete(args, consumed) =>
          assert buf[pos..][consumed..] == buf[pos + consumed..];
          ghost var later := Drain(buf[pos + consumed..]);
          assert events + ([Dispatched(args)] + later.events) == (events + [Dispatched(args)]) + later.events;
          events := events + [Dispatched(args)];
          pos := pos + consumed;
        case Incomplete =>
          assert events + [] == events;
          break;
        case Error(fault) =>
          events := events + [Refused(fault)];
          buf := [];
          cleared := true;
          break;
      }
    }
  }

  // ---- The cutting of the stream does not matter ----

  function Concat(chunks: seq<Bytes>): Bytes {
    if chunks == [] then [] else chunks[0] + Concat(chunks[1..])
  }

  /** Draining what has come so far and going on with the rest is draining it all. */
  lemma {:induction false} DrainAppend(buf: Bytes, more: Bytes)
    ensures var y := Drain(buf);
            Drain(buf + more) == if y.failed then y else Then(y, Drain(buf[y.pos..] + more))
    decreases |buf|
  {
    hide Parse, Then;
    match Parse(buf)
    case Incomplete =>
      assert buf[0..] == buf;
      NothingThen(Drain(buf + more));
    case Error(_) => AnswerStays(buf, more);
    case Complete(args, n) =>
      AnswerStays(buf, more);
      DrainAppend(buf[n..], more);
      assert (buf + more)[n..] == buf[n..] + more;
      var first, tail := Yield([Dispatched(args)], n, false), Drain(buf[n..]);
      ThenParts(first, tail);
      assert buf[n..][tail.pos..] == buf[n + tail.pos..];
      ThenIsAssociative(first, tail, Drain(buf[n + tail.pos..] + more));
  }

  lemma ThenParts(y: Yield, rest: Yield)
    ensures Then(y, rest).pos == y.pos + rest.pos && Then(y, rest).failed == rest.failed
  {
  }

  lemma NothingThen(y: Yield)
    ensures Then(Yield([], 0, false), y) == y
  {
    assert [] + y.events == y.events;
  }

  /** A drained buffer holds nothing more. */
  lemma {:induction false} DrainLeavesNothing(buf: Bytes)
    requires !Drain(buf).failed
    ensures Drain(buf[Drain(buf).pos..]) == Yield([], 0, false)
    decreases |buf|
  {
    hide Parse;
    assert buf[0..] == buf;
    if Parse(buf).Complete? {
      var n := Parse(buf).consumed;
      DrainLeavesNothing(buf[n..]);
      assert buf[n..][Drain(buf[n..]).pos..] == buf[Drain(buf).pos..];
    }
  }

  /** However a stream is cut, up to its first error the connection does what the whole
      stream would have it do at once; without an error, that is all that it does, and
      the same bytes are left over. */
  lemma {:induction false} AnyCutting(buf: Bytes, chunks: seq<Bytes>)
    requires [] !in chunks && Drain(buf) == Yield([], 0, false)
    ensures var y, r := Drain(buf + Concat(chunks)), Rounds(buf, chunks);
            && y.events <= r.events
            && (!y.failed ==> r == Outcome(y.events, (buf + Concat(chunks))[y.pos..], false))
    decreases |chunks|
  {
    hide Drain;
    if chunks == [] {
      assert buf + [] == buf;
    } else {
      var here, more := buf + chunks[0], Concat(chunks[1..]);
      assert buf + Concat(chunks) == here + more;
      var y := Drain(here);
      DrainAppend(here, more);
      if !y.failed {
        DrainLeavesNothing(here);
        var left := here[y.pos..];
        AnyCutting(left, chunks[1..]);
        assert left + more == (here + more)[y.pos..];
      }
    }
  }

  /** Two cuttings of one stream that holds no error come to the same thing. */
  lemma CuttingsAgree(chunks: seq<Bytes>, others: seq<Bytes>)
    requires [] !in chunks && [] !in others && Concat(chunks) == Concat(others)
    requires !Drain(Concat(chunks)).failed
    ensures Rounds([], chunks) == Rounds([], others)
  {
    hide Drain, Rounds;
    EmptyYieldsNothing();
    assert [] + Concat(chunks) == Concat(chunks);
    AnyCutting([], chunks);
    AnyCutting([], others);
  }

  lemma EmptyYieldsNothing()
    ensures Drain([]) == Yield([], 0, false)
  {
  }

  // ---- When errors make the cutting matter ----

  /** All ways of cutting `s` into reads come to the same thing. */
  ghost predicate AllCuttingsAgree(s: Bytes) {
    forall chunks, others :: [] !in chunks && [] !in others && Concat(chunks) == Concat(others) == s ==>
      Rounds([], chunks) == Rounds([], others)
  }

  /** No strict beginning of `s` is answered. */
  predicate AnsweredAtItsEnd(s: Bytes) {
    forall n :: 0 <= n < |s| ==> Parse(s[..n]) == Incomplete
  }

  /** Until its last byte is read, a stream that is answered at its end yields nothing. */
  lemma {:induction false} QuietCutting(s: Bytes, n: nat, chunks: seq<Bytes>)
    requires Parse(s).Error? && AnsweredAtItsEnd(s) && n < |s|
    requires [] !in chunks && s[..n] + Concat(chunks) == s
    ensures Rounds(s[..n], chunks) == Outcome([Refused(Parse(s).fault)], [], false)
    decreases |chunks|
  {
    hide Parse;
    if chunks != [] {
      var chunk, rest := chunks[0], Concat(chunks[1..]);
      var m := n + |chunk|;
      assert chunk in chunks;
      assert s == (s[..n] + chunk) + rest;
      assert s[..n] + chunk == s[..m];
      if m < |s| {
        assert Parse(s[..m]) == Incomplete;
        assert s[..m][0..] == s[..m];
        QuietCutting(s, m, chunks[1..]);
        var later := Rounds(s[..m], chunks[1..]);
        assert [] + later.events == later.events;
      } else {
        assert s[..m] == s;
        NothingBehind(chunks[1..]);
        assert [Refused(Parse(s).fault)] + [] == [Refused(Parse(s).fault)];
      }
    }
  }

  lemma NothingBehind(chunks: seq<Bytes>)
    requires [] !in chunks && Concat(chunks) == []
    ensures chunks == []
  {
  }

  /** The commands before an error come without it; the error follows at once. */
  lemma {:induction false} CommandsBeforeError(s: Bytes)
    requires Drain(s).failed
    ensures var n := Drain(s).pos;
            && !Drain(s[..n]).failed && Drain(s[..n]).pos == n
            && Drain(s[n..]).failed && Drain(s[n..]).pos == 0 && n < |s|
    decreases |s|
  {
    hide Parse;
    match Parse(s)
    case Incomplete =>
    case Error(_) =>
      assert s[0..] == s;
      EmptyYieldsNothing();
    case Complete(args, c) =>
      CommandsBeforeError(s[c..]);
      var n := Drain(s).pos;
      ConsumedSuffices(s, n);
      assert s[..n][c..] == s[c..][..n - c];
      assert s[n..] == s[c..][n - c..];
  }

  lemma OneRead(s: Bytes)
    requires s != []
    ensures Rounds([], [s]) == Round(s)
    ensures [] !in [s] && Concat([s]) == s
  {
    assert [] + s == s && [s][1..] == [];
    var r := Round(s);
    assert r.events + [] == r.events;
    assert Concat([s][1..]) == [] && s + [] == s;
  }

  lemma TwoReads(s: Bytes, n: nat)
    requires 0 < n < |s| && !Round(s[..n]).panicked && Round(s[..n]).buf == []
    ensures Rounds([], [s[..n], s[n..]]).events == Round(s[..n]).events + Round(s[n..]).events
    ensures Rounds([], [s[..n], s[n..]]).buf == Round(s[n..]).buf
    ensures Rounds([], [s[..n], s[n..]]).panicked == Round(s[n..]).panicked
    ensures [] !in [s[..n], s[n..]] && Concat([s[..n], s[n..]]) == s
  {
    hide Drain, Round;
    assert [] + s[..n] == s[..n] && [s[..n], s[n..]][1..] == [s[n..]];
    OneRead(s[n..]);
    assert Concat([s[..n], s[n..]]) == s[..n] + s[n..];
  }

  /** An error behind a command ends the connection if both are read at once, and not if the
      error is read on its own. */
  lemma CommandThenErrorDiffers(s: Bytes)
    requires Drain(s).failed && Drain(s).pos > 0
    ensures !AllCuttingsAgree(s)
  {
    hide Parse, Drain, Rounds, Concat;
    CommandsBeforeError(s);
    var n := Drain(s).pos;
    assert s[..n][n..] == [];
    OneRead(s);
    TwoReads(s, n);
    assert Rounds([], [s]).panicked && !Rounds([], [s[..n], s[n..]]).panicked;
  }

  /** An error drops what was read with it, and not what is read later. */
  lemma EarlyErrorDiffers(s: Bytes, n: nat)
    requires Parse(s).Error? && n < |s| && Parse(s[..n]) != Incomplete
    ensures !AllCuttingsAgree(s)
  {
    hide Parse, Rounds, Concat;
    AnswerStays(s[..n], s[n..]);
    assert s[..n] + s[n..] == s;
    NotEmpty(s[..n]);
    OneRead(s);
    TwoReads(s, n);
    var y, first, r := Drain(s[n..]), Rounds([], [s]), Rounds([], [s[..n], s[n..]]);
    assert first == Outcome([Refused(Parse(s).fault)], [], false);
    assert r.events == [Refused(Parse(s).fault)] + y.events;
    if y.events == [] {
      NoEventsNothingTaken(s[n..]);
      assert s[n..][0..] == s[n..];
      assert r.buf == s[n..];
    } else {
      assert |r.events| > |first.events|;
    }
  }

  lemma NotEmpty(b: Bytes)
    requires Parse(b) != Incomplete
    ensures b != []
  {
  }

  lemma {:induction false} NoEventsNothingTaken(b: Bytes)
    requires Drain(b).events == []
    ensures Drain(b) == Yield([], 0, false)
  {
    hide Parse;
  }

  /** The cutting of a stream does not matter exactly if it holds no error, or is one error and
      no more than that. */
  lemma CuttingsAgreeExactly(s: Bytes)
    ensures AllCuttingsAgree(s) <==> !Drain(s).failed || (Drain(s).pos == 0 && AnsweredAtItsEnd(s))
  {
    hide Parse, Drain, Rounds, Concat, AnsweredAtItsEnd;
    if !Drain(s).failed {
      forall chunks, others | [] !in chunks && [] !in others && Concat(chunks) == Concat(others) == s
        ensures Rounds([], chunks) == Rounds([], others)
      {
        CuttingsAgree(chunks, others);
      }
    } else if Drain(s).pos > 0 {
      CommandThenErrorDiffers(s);
    } else {
      ErrorAtOnce(s);
      if AnsweredAtItsEnd(s) {
        forall chunks, others | [] !in chunks && [] !in others && Concat(chunks) == Concat(others) == s
          ensures Rounds([], chunks) == Rounds([], others)
        {
          assert s[..0] == [] && s[..0] + Concat(chunks) == s && s[..0] + Concat(others) == s;
          QuietCutting(s, 0, chunks);
          QuietCutting(s, 0, others);
        }
      } else {
        var n := AnsweredEarlier(s);
        EarlyErrorDiffers(s, n);
      }
    }
  }

  lemma ErrorAtOnce(s: Bytes)
    requires Drain(s).failed && Drain(s).pos == 0
    ensures Parse(s).Error? && s != []
  {
    hide Parse;
    if Parse(s) == Incomplete { assert false; }
    NotEmpty(s);
  }

  lemma AnsweredEarlier(s: Bytes) returns (n: nat)
    requires !AnsweredAtItsEnd(s)
    ensures n < |s| && Parse(s[..n]) != Incomplete
  {
    hide Parse;
    n :| n < |s| && Parse(s[..n]) != Incomplete;
  }

  /** An array length that is no number, alone, before and behind a command: only alone does
      the cutting not matter. In one read the command behind the error is lost, and with the
      command first the connection ends. */
  lemma ErrorsDependOnTheCutting()
    ensures var bad: Bytes := [STAR, 120, CR, LF];
            var ping: Bytes := [80, CR, LF];
            && AllCuttingsAgree(bad) && !AllCuttingsAgree(bad + ping) && !AllCuttingsAgree(ping + bad)
            && Round(bad + ping) == Outcome([Refused(InvalidArrayLength([120]))], [], false)
            && Round(ping + bad) == Outcome([Dispatched([[80]]), Refused(InvalidArrayLength([120]))], [], true)
  {
    hide Parse;
    var bad: Bytes := [STAR, 120, CR, LF];
    var ping: Bytes := [80, CR, LF];
    BadAndPing(bad, ping);
    AnswerStays(bad, ping);
    AnswerStays(ping, bad);
    assert ping[3..] == [] && (ping + bad)[3..] == bad;
    assert Drain(bad) == Drain(bad + ping) == Yield([Refused(InvalidArrayLength([120]))], 0, true);
    assert Drain(ping + bad) == Yield([Dispatched([[80]]), Refused(InvalidArrayLength([120]))], 3, true);
    BadIsOneError(bad);
    assert (bad + ping)[..4] == bad;
    CuttingsAgreeExactly(bad);
    CuttingsAgreeExactly(bad + ping);
    CuttingsAgreeExactly(ping + bad);
  }

  lemma BadIsOneError(bad: Bytes)
    requires bad == [STAR, 120, CR, LF]
    ensures AnsweredAtItsEnd(bad)
  {
    forall n | 0 <= n < |bad| ensures Parse(bad[..n]) == Incomplete {
      assert forall i :: 0 <= i < n ==> bad[..n][i] == bad[i];
    }
  }

  lemma BadAndPing(bad: Bytes, ping: Bytes)
    requires bad == [STAR, 120, CR, LF] && ping == [80, CR, LF]
    ensures Parse(bad) == Error(InvalidArrayLength([120]))
    ensures Parse(ping) == Complete([[80]], 3)
  {
    CrlfAfterText(bad, 1, 2);
    assert bad[1..2] == [120];
    Utf8.AsciiIsUtf8([120]);
    assert [120][0] == 120;
    Utf8.AsciiIsUtf8([80]);
    assert Utf8.IsWord([80]);
    assert Utf8.Spaced([[80]]) == [80];
    InlineParses([[80]], []);
    assert Utf8.Spaced([[80]]) + CRLF + [] == ping;
  }

  // ---- Commands that clients send ----

  function EncodeAll(commands: seq<Command>): Bytes {
    if commands == [] then [] else Encode(commands[0]) + EncodeAll(commands[1..])
  }

  function Dispatches(commands: seq<Command>): seq<Event> {
    if commands == [] then [] else [Dispatched(commands[0])] + Dispatches(commands[1..])
  }

  lemma {:induction false} PipelineDrains(commands: seq<Command>, rest: Bytes)
    requires forall i :: 0 <= i < |commands| ==> Sendable(commands[i])
    requires Parse(rest) == Incomplete
    ensures Drain(EncodeAll(commands) + rest) == Yield(Dispatches(commands), |EncodeAll(commands)|, false)
    decreases |commands|
  {
    hide Encode, Sendable, Parse;
    if commands == [] {
      assert [] + rest == rest;
    } else {
      var e, es := Encode(commands[0]), EncodeAll(commands[1..]);
      EncodingParses(commands[0], es + rest);
      PipelineDrains(commands[1..], rest);
      assert EncodeAll(commands) + rest == e + (es + rest);
      assert (e + (es + rest))[|e|..] == es + rest;
    }
  }

  /** Any sequence of commands, cut into reads in any way, is dispatched exactly as sent;
      and while the last command is still on its way, so are all those before it. */
  lemma CommandsAreDispatched(commands: seq<Command>, last: Command, n: nat, chunks: seq<Bytes>)
    requires forall i :: 0 <= i < |commands| ==> Sendable(commands[i])
    requires Sendable(last) && n < |Encode(last)|
    requires [] !in chunks && Concat(chunks) == EncodeAll(commands) + Encode(last)[..n]
    ensures Rounds([], chunks) == Outcome(Dispatches(commands), Encode(last)[..n], false)
  {
    hide Drain, Rounds, Parse, Sendable, Encode;
    PrefixIsIncomplete(last, n);
    PipelineDrains(commands, Encode(last)[..n]);
    EmptyYieldsNothing();
    assert [] + Concat(chunks) == Concat(chunks);
    AnyCutting([], chunks);
    assert Concat(chunks)[|EncodeAll(commands)|..] == Encode(last)[..n];
  }
}
