/** The bounded line reader of client/telemetry.py, lines 24-32, against the framing of the publisher. The
    stream is the text after decoding and newline translation. */
module Framing {
  import opened Sequences
  import opened Publisher

  const LINE_LIMIT := 2048
  const READ_BUDGET := 100

  /** Length of the first line including its newline, or of the whole text if it has none. */
  function LineLength(stream: string): (n: nat)
    ensures n <= |stream|
    ensures forall i :: 0 <= i < n - 1 ==> stream[i] != '\n'
    ensures n < |stream| ==> n > 0 && stream[n - 1] == '\n'
  {
    if stream == "" then 0
    else if stream[0] == '\n' then 1
    else 1 + LineLength(stream[1..])
  }

  /** What `readline(2048)` returns. */
  function ReadLine(stream: string): (line: string)
    ensures line <= stream && |line| <= LINE_LIMIT
  {
    stream[..Minimum(LineLength(stream), LINE_LIMIT)]
  }

  /** The lines sent within a number of reads; reads at the end of the stream return nothing to send. */
  function Lines(stream: string, budget: nat): seq<string>
    decreases budget
  {
    if budget == 0 then []
    else
      var line := ReadLine(stream);
      (if line != "" then [line] else []) + Lines(stream[|line|..], budget - 1)
  }

  function Join(lines: seq<string>): string
  {
    if lines == [] then "" else lines[0] + Join(lines[1..])
  }

  lemma NothingRead(stream: string)
    ensures Lines(stream, 0) == [] && Join([]) == ""
  {
  }

  lemma LinesStep(stream: string, budget: nat)
    requires budget > 0
    ensures var line := ReadLine(stream);
            Lines(stream, budget) == (if line != "" then [line] else []) + Lines(stream[|line|..], budget - 1)
  {
  }

  /** The reader's inner loop. */
  method ReadSession(stream: string) returns (sent: seq<string>)
    ensures sent == Lines(stream, READ_BUDGET)
  {
    hide ReadLine, Lines;
    var rest := stream;
    sent := [];
    var i := 0;
    while i < READ_BUDGET
      invariant i <= READ_BUDGET
      invariant sent + Lines(rest, READ_BUDGET - i) == Lines(stream, READ_BUDGET)
    {
      LinesStep(rest, READ_BUDGET - i);
      var line := ReadLine(rest);
      rest := rest[|line|..];
      i := i + 1;
      if line != "" {
        sent := sent + [line];
      }
    }
    NothingRead(rest);
  }

  ghost predicate IsChunk(line: string)
  {
    0 < |line| <= LINE_LIMIT && forall i :: 0 <= i < |line| - 1 ==> line[i] != '\n'
  }

  lemma ReadLineIsChunk(stream: string)
    ensures var line := ReadLine(stream);
            stream == line + stream[|line|..] && (line != "" ==> IsChunk(line))
  {
  }

  lemma {:induction false} LinesAreChunks(stream: string, budget: nat)
    ensures |Lines(stream, budget)| <= budget
    ensures forall k :: 0 <= k < |Lines(stream, budget)| ==> IsChunk(Lines(stream, budget)[k])
    decreases budget
  {
    if budget == 0 {
    } else {
      hide ReadLine, IsChunk;
      ReadLineIsChunk(stream);
      LinesAreChunks(stream[|ReadLine(stream)|..], budget - 1);
    }
  }

  lemma JoinCons(line: string, others: seq<string>)
    ensures Join([line] + others) == line + Join(others)
  {
    assert ([line] + others)[1..] == others;
  }

  lemma {:induction false} LinesJoin(stream: string, budget: nat)
    ensures Join(Lines(stream, budget)) <= stream
    decreases budget
  {
    hide ReadLine, Lines, Join, IsChunk;
    if budget == 0 {
      NothingRead(stream);
    } else {
      var line := ReadLine(stream);
      var others := Lines(stream[|line|..], budget - 1);
      LinesStep(stream, budget);
      ReadLineIsChunk(stream);
      LinesJoin(stream[|line|..], budget - 1);
      JoinCons(line, others);
      assert (if line != "" then [line] else []) + others == if line != "" then [line] + others else others;
    }
  }

  /** For arbitrary content: the lines sent are a prefix of the stream, cut into at most `budget` pieces of at
      most 2048 characters, each with a newline at its end or not at all. */
  lemma LinesPartition(stream: string, budget: nat)
    ensures Join(Lines(stream, budget)) <= stream
    ensures |Lines(stream, budget)| <= budget
    ensures forall k :: 0 <= k < |Lines(stream, budget)| ==> IsChunk(Lines(stream, budget)[k])
  {
    LinesAreChunks(stream, budget);
    LinesJoin(stream, budget);
  }

  /** A piece is as long as it can be: it ends its line, or fills the limit, or ends the stream. */
  ghost predicate IsFull(line: string, after: string)
  {
    line != "" && (line[|line| - 1] == '\n' || |line| == 2048 || after == "")
  }

  /** Every piece is followed in the stream by the pieces after it and what is left unread. */
  ghost predicate AllFull(lines: seq<string>, left: string)
  {
    forall k :: 0 <= k < |lines| ==> IsFull(lines[k], Join(lines[k + 1..]) + left)
  }

  lemma ReadLineIsFull(stream: string)
    requires stream != ""
    ensures ReadLine(stream) != "" && IsFull(ReadLine(stream), stream[|ReadLine(stream)|..])
  {
  }

  lemma AllFullCons(line: string, others: seq<string>, left: string)
    requires IsFull(line, Join(others) + left) && AllFull(others, left)
    ensures AllFull([line] + others, left)
  {
    hide IsFull, Join;
    var lines := [line] + others;
    forall k | 0 <= k < |lines|
      ensures IsFull(lines[k], Join(lines[k + 1..]) + left)
    {
      assert lines[k + 1..] == if k == 0 then others else others[k..];
    }
  }

  lemma JoinLeft(stream: string, line: string, joined: string, left: string)
    requires line <= stream && stream[|line|..] == joined + left
    ensures stream == (line + joined) + left
  {
  }

  /** No piece is shorter than it has to be, and if fewer pieces than the budget were read, everything was. */
  lemma {:induction false} LinesAreFull(stream: string, budget: nat) returns (left: string)
    ensures stream == Join(Lines(stream, budget)) + left
    ensures AllFull(Lines(stream, budget), left)
    ensures |Lines(stream, budget)| < budget ==> left == ""
    decreases budget
  {
    hide ReadLine, Lines, Join, IsChunk, IsFull;
    if budget == 0 {
      NothingRead(stream);
      left := stream;
    } else if stream == "" {
      LinesOfNothing(budget);
      NothingRead("");
      left := "";
    } else {
      var line := ReadLine(stream);
      ReadLineIsChunk(stream);
      ReadLineIsFull(stream);
      LinesStep(stream, budget);
      left := LinesAreFull(stream[|line|..], budget - 1);
      var others := Lines(stream[|line|..], budget - 1);
      JoinCons(line, others);
      JoinLeft(stream, line, Join(others), left);
      AllFullCons(line, others, left);
    }
  }

  ghost predicate NewlineFree(message: string)
  {
    forall i :: 0 <= i < |message| ==> message[i] != '\n'
  }

  function Terminated(messages: seq<string>): (r: seq<string>)
    ensures |r| == |messages|
  {
    seq(|messages|, k requires 0 <= k < |messages| => messages[k] + "\n")
  }

  lemma {:induction false} LineLengthOfMessage(message: string, rest: string)
    requires NewlineFree(message)
    ensures LineLength(message + "\n" + rest) == |message| + 1
  {
    var stream := message + "\n" + rest;
    if message == "" {
      assert stream[0] == '\n';
    } else {
      LineLengthOfMessage(message[1..], rest);
      assert stream[0] == message[0];
      assert stream[1..] == message[1..] + "\n" + rest;
    }
  }

  lemma FrameSnoc(messages: seq<string>, message: string)
    ensures Frame(messages + [message]) == Frame(messages) + (message + "\n")
  {
    assert DropLast(messages + [message]) == messages;
  }

  lemma {:induction false} FrameCons(messages: seq<string>)
    requires messages != []
    ensures Frame(messages) == messages[0] + "\n" + Frame(messages[1..])
  {
    hide Frame;
    var front, last := DropLast(messages), Last(messages);
    assert messages == front + [last];
    FrameSnoc(front, last);
    if front == [] {
      FrameEmpty();
      assert messages[1..] == [] && front == [];
    } else {
      FrameCons(front);
      FrameSnoc(front[1..], last);
      assert messages[1..] == front[1..] + [last];
    }
  }

  lemma FrameEmpty()
    ensures Frame([]) == ""
  {
  }

  lemma FrameOne(message: string)
    ensures Frame([message]) == message + "\n"
  {
    hide Frame;
    FrameSnoc([], message);
    FrameEmpty();
    assert [] + [message] == [message] && "" + (message + "\n") == message + "\n";
  }

  lemma ReadFramed(messages: seq<string>, tail: string)
    requires messages != [] && NewlineFree(messages[0]) && |messages[0]| < LINE_LIMIT
    ensures ReadLine(Frame(messages) + tail) == messages[0] + "\n"
    ensures (Frame(messages) + tail)[|messages[0]| + 1..] == Frame(messages[1..]) + tail
  {
    hide LineLength, Frame;
    FrameCons(messages);
    var rest := Frame(messages[1..]) + tail;
    assert Frame(messages) + tail == messages[0] + "\n" + rest;
    LineLengthOfMessage(messages[0], rest);
  }

  lemma {:induction false} LineLengthOfTail(tail: string)
    requires NewlineFree(tail)
    ensures LineLength(tail) == |tail|
  {
    if tail == "" {
    } else {
      LineLengthOfTail(tail[1..]);
    }
  }

  lemma {:induction false} LinesOfNothing(budget: nat)
    ensures Lines("", budget) == []
    decreases budget
  {
    if budget == 0 {
    } else {
      LinesOfNothing(budget - 1);
    }
  }

  lemma LinesOfTail(tail: string, budget: nat)
    requires NewlineFree(tail) && |tail| <= LINE_LIMIT && budget > 0
    ensures Lines(tail, budget) == Fragment(tail)
  {
    LineLengthOfTail(tail);
    assert ReadLine(tail) == tail && tail[|tail|..] == "";
    LinesStep(tail, budget);
    LinesOfNothing(budget - 1);
  }

  lemma TerminatedCons(messages: seq<string>)
    requires messages != []
    ensures Terminated(messages) == [messages[0] + "\n"] + Terminated(messages[1..])
  {
  }

  /** What an unterminated rest of the stream is read as. */
  function Fragment(tail: string): seq<string>
  {
    if tail == "" then [] else [tail]
  }

  /** What is read of framed messages and an unterminated rest: as many messages as the budget allows, each with
      its newline, and then, if there is budget left, the rest as a piece of its own. */
  function Expected(messages: seq<string>, tail: string, budget: nat): seq<string>
  {
    if |messages| < budget then Terminated(messages) + Fragment(tail) else Terminated(messages[..budget])
  }

  lemma ExpectedCons(messages: seq<string>, tail: string, budget: nat)
    requires messages != [] && budget > 0
    ensures Expected(messages, tail, budget) == [messages[0] + "\n"] + Expected(messages[1..], tail, budget - 1)
  {
    if |messages| < budget {
      TerminatedCons(messages);
    } else {
      TerminatedCons(messages[..budget]);
      assert messages[..budget][1..] == messages[1..][..budget - 1];
    }
  }

  predicate Short(message: string) { |message| < LINE_LIMIT }

  lemma {:induction false} LinesOfStream(messages: seq<string>, tail: string, budget: nat)
    requires forall m :: m in messages ==> NewlineFree(m) && Short(m)
    requires NewlineFree(tail) && |tail| <= LINE_LIMIT
    ensures Lines(Frame(messages) + tail, budget) == Expected(messages, tail, budget)
    decreases budget
  {
    hide ReadLine, Frame, Lines, NewlineFree, Expected, Terminated, Fragment;
    if budget == 0 {
      NothingRead(Frame(messages) + tail);
      NothingExpected(messages, tail);
    } else if messages == [] {
      FrameEmpty();
      assert "" + tail == tail;
      LinesOfTail(tail, budget);
      OnlyTheRestExpected(tail, budget);
    } else {
      LinesStep(Frame(messages) + tail, budget);
      ReadFramed(messages, tail);
      assert |messages[0] + "\n"| == |messages[0]| + 1;
      LinesOfStream(messages[1..], tail, budget - 1);
      ExpectedCons(messages, tail, budget);
    }
  }

  lemma NothingExpected(messages: seq<string>, tail: string)
    ensures Expected(messages, tail, 0) == []
  {
  }

  lemma OnlyTheRestExpected(tail: string, budget: nat)
    requires budget > 0
    ensures Expected([], tail, budget) == Fragment(tail)
  {
  }

  lemma LinesOfFrame(messages: seq<string>, budget: nat)
    requires forall m :: m in messages ==> NewlineFree(m) && Short(m)
    ensures Lines(Frame(messages), budget) == Terminated(if |messages| < budget then messages else messages[..budget])
  {
    hide Lines, Frame;
    LinesOfStream(messages, "", budget);
    assert Frame(messages) + "" == Frame(messages);
  }

  /** The round trip, and exactly when it holds: reading the framed messages returns each with its newline iff
      there are at most 100 of them, each shorter than 2048 characters. */
  lemma RoundTripExactly(messages: seq<string>)
    requires forall m :: m in messages ==> NewlineFree(m)
    ensures Lines(Frame(messages), READ_BUDGET) == Terminated(messages) <==>
            |messages| <= 100 && forall m :: m in messages ==> |m| < 2048
  {
    hide Lines, Frame, NewlineFree;
    LinesPartition(Frame(messages), READ_BUDGET);
    if |messages| <= 100 && forall m :: m in messages ==> |m| < 2048 {
      LinesOfFrame(messages, READ_BUDGET);
      assert |messages| == 100 ==> messages[..100] == messages;
    }
    if Lines(Frame(messages), READ_BUDGET) == Terminated(messages) {
      forall m | m in messages
        ensures |m| < 2048
      {
        var k :| 0 <= k < |messages| && messages[k] == m;
        assert Terminated(messages)[k] == m + "\n";
        assert IsChunk(Lines(Frame(messages), READ_BUDGET)[k]);
      }
    }
  }

  /** The first limit bites: of more than 100 messages exactly the first 100 are read. */
  lemma MessageLimit(messages: seq<string>)
    requires |messages| > 100 && forall m :: m in messages ==> NewlineFree(m) && Short(m)
    ensures Lines(Frame(messages), READ_BUDGET) == Terminated(messages[..100]) != Terminated(messages)
  {
    hide Lines, Frame, NewlineFree;
    LinesOfFrame(messages, READ_BUDGET);
  }

  /** So does the second: a message of 2048 characters comes without its newline, which follows as a piece of
      its own. */
  lemma LengthLimit(long: string)
    requires NewlineFree(long) && |long| == 2048
    ensures Lines(Frame([long]), READ_BUDGET) == [long, "\n"] != Terminated([long])
  {
    hide Lines, Frame, NewlineFree, LineLength;
    FrameOne(long);
    var stream := long + "\n" + "";
    assert Frame([long]) == stream;
    LineLengthOfMessage(long, "");
    assert ReadLine(stream) == long && stream[|long|..] == "\n";
    LinesStep(stream, 100);
    NewlineAlone(99);
    assert Terminated([long])[0] == long + "\n";
  }

  lemma NewlineAlone(budget: nat)
    requires budget > 0
    ensures Lines("\n", budget) == ["\n"]
  {
    assert ReadLine("\n") == "\n" && "\n"[1..] == "";
    LinesStep("\n", budget);
    LinesOfNothing(budget - 1);
  }

  lemma LimitsExample()
    ensures Lines(Frame(Copies("{}", 101)), READ_BUDGET) == Terminated(Copies("{}", 101)[..100])
    ensures Lines(Frame([Copies('x', 2048)]), READ_BUDGET) == [Copies('x', 2048), "\n"]
  {
    hide Lines, Frame;
    assert forall i :: 0 <= i < 2048 ==> Copies('x', 2048)[i] in Copies('x', 2048);
    MessageLimit(Copies("{}", 101));
    LengthLimit(Copies('x', 2048));
  }
}
