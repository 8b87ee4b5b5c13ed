/** Exactly when published messages are not read as themselves: when a session tears a message and a later one
    gets a message across. */
module Gluing {
  import opened Sequences
  import opened Publisher
  import opened Framing
  import opened Tearing

  /** A write fails right after the text of a message that is not empty. */
  predicate Tears(s: State, step: Step)
  {
    && IsSession(s, step)
    && step.pipe.writes % 2 == 1 && step.pipe.writes / 2 < Target(s) && s.jsonQueue[step.pipe.writes / 2] != ""
  }

  /** A session gets at least one message across. */
  predicate Delivers(s: State, step: Step)
  {
    IsSession(s, step) && step.pipe.writes >= 2
  }

  lemma TearsAndDelivers(s: State, step: Step)
    ensures Tears(s, step) <==> TornBy(s, step) != ""
    ensures Delivers(s, step) <==> SentBy(s, step) != []
  {
  }

  function StateAt(s: State, steps: seq<Step>, i: nat): State
    requires i <= |steps|
  {
    Run(s, steps[..i])
  }

  ghost predicate DeliversLater(s: State, steps: seq<Step>)
  {
    exists j :: 0 <= j < |steps| && Delivers(StateAt(s, steps, j), steps[j])
  }

  /** Some session tears a message, and a later one gets a message across. */
  ghost predicate Glues(s: State, steps: seq<Step>)
  {
    exists i, j :: 0 <= i < j < |steps| &&
      Tears(StateAt(s, steps, i), steps[i]) && Delivers(StateAt(s, steps, j), steps[j])
  }

  lemma ShiftState(s: State, steps: seq<Step>, i: nat)
    requires 0 < i <= |steps|
    ensures StateAt(s, steps, i) == StateAt(Next(s, steps[0]), steps[1..], i - 1)
    ensures StateAt(s, steps, 0) == s
  {
    assert steps[..i][1..] == steps[1..][..i - 1];
  }

  lemma DeliversLaterStep(s: State, steps: seq<Step>)
    requires steps != []
    ensures DeliversLater(s, steps) <==> Delivers(s, steps[0]) || DeliversLater(Next(s, steps[0]), steps[1..])
  {
    hide Next, Delivers, StateAt;
    var s', others := Next(s, steps[0]), steps[1..];
    ShiftState(s, steps, 1);
    if j :| 0 < j < |steps| && Delivers(StateAt(s, steps, j), steps[j]) {
      ShiftState(s, steps, j);
      assert Delivers(StateAt(s', others, j - 1), others[j - 1]);
    }
    if j :| 0 <= j < |others| && Delivers(StateAt(s', others, j), others[j]) {
      ShiftState(s, steps, j + 1);
      assert Delivers(StateAt(s, steps, j + 1), steps[j + 1]);
    }
    if Delivers(s, steps[0]) {
      assert Delivers(StateAt(s, steps, 0), steps[0]);
    }
  }

  lemma GluesStep(s: State, steps: seq<Step>)
    requires steps != []
    ensures Glues(s, steps) <==>
            (Tears(s, steps[0]) && DeliversLater(Next(s, steps[0]), steps[1..])) || Glues(Next(s, steps[0]), steps[1..])
  {
    hide Next, Delivers, Tears, StateAt;
    var s', others := Next(s, steps[0]), steps[1..];
    ShiftState(s, steps, 1);
    if i, j :|
      0 <= i < j < |steps| && Tears(StateAt(s, steps, i), steps[i]) && Delivers(StateAt(s, steps, j), steps[j]) {
      ShiftState(s, steps, j);
      assert Delivers(StateAt(s', others, j - 1), others[j - 1]);
      if i > 0 {
        ShiftState(s, steps, i);
        assert Tears(StateAt(s', others, i - 1), others[i - 1]);
      }
    }
    if i, j :|
      0 <= i < j < |others| && Tears(StateAt(s', others, i), others[i]) && Delivers(StateAt(s', others, j), others[j]) {
      ShiftState(s, steps, i + 1);
      ShiftState(s, steps, j + 1);
      assert Tears(StateAt(s, steps, i + 1), steps[i + 1]) && Delivers(StateAt(s, steps, j + 1), steps[j + 1]);
    }
    if j :| 0 <= j < |others| && Delivers(StateAt(s', others, j), others[j]) {
      ShiftState(s, steps, j + 1);
      assert Delivers(StateAt(s, steps, j + 1), steps[j + 1]);
      assert StateAt(s, steps, 0) == s;
    }
  }

  ghost predicate AllEmpty(tears: seq<string>)
  {
    forall t :: t in tears ==> t == ""
  }

  lemma AllEmptyConcat(a: seq<string>, b: seq<string>)
    ensures AllEmpty(a + b) <==> AllEmpty(a) && AllEmpty(b)
  {
    forall t | AllEmpty(a + b) && (t in a || t in b)
      ensures t == ""
    {
      assert t in a + b;
    }
  }

  lemma NewTearsEmpty(rest: string, n: nat)
    ensures AllEmpty(NewTears(rest, n)) <==> rest == "" || n == 0
  {
    if n > 0 {
      AllEmptyConcat([rest], Copies("", n - 1));
      assert [rest][0] in [rest];
    }
  }

  /** No message of a run is glued to anything exactly if the run does not glue, and does not deliver at all if
      there was an unfinished rest before. */
  lemma {:induction false} TearsExactly(s: State, steps: seq<Step>, rest: string)
    ensures AllEmpty(TearsOf(s, steps, rest)) <==> !Glues(s, steps) && (rest == "" || !DeliversLater(s, steps))
    decreases |steps|
  {
    hide Next, AllEmpty, NewTears, Tears, Delivers, SentBy, TornBy, Glues, DeliversLater;
    if steps == [] {
      NothingHappens(s);
    } else {
      var step, rest' := steps[0], RestAfter(s, steps[0], rest);
      TearsAndDelivers(s, step);
      NewTearsEmpty(rest, |SentBy(s, step)|);
      AllEmptyConcat(NewTears(rest, |SentBy(s, step)|), TearsOf(Next(s, step), steps[1..], rest'));
      DeliversLaterStep(s, steps);
      GluesStep(s, steps);
      TearsExactly(Next(s, step), steps[1..], rest');
      assert rest' == "" <==> !Tears(s, step) && (rest == "" || Delivers(s, step));
    }
  }

  lemma NothingHappens(s: State)
    ensures AllEmpty([]) && !Glues(s, []) && !DeliversLater(s, [])
  {
  }

  // ---------- How the stream is read ----------

  /** Messages are JSON texts of one line. */
  ghost predicate OneLine(step: Step)
  {
    step.Enqueue? ==> NewlineFree(step.message)
  }

  ghost predicate OneLiners(messages: seq<string>)
  {
    forall m :: m in messages ==> NewlineFree(m)
  }

  ghost predicate Clean(s: State)
  {
    OneLiners(s.telemetryQueue) && OneLiners(Held(s)) && OneLiners(s.jsonQueue) && OneLiners(s.published)
  }

  lemma StepKeepsClean(s: State, step: Step)
    requires Clean(s) && OneLine(step)
    ensures Clean(Next(s, step)) && NewlineFree(TornBy(s, step))
  {
    hide Frame, NewlineFree;
    NewlineFreeEmpty();
  }

  lemma NewlineFreeConcat(a: string, b: string)
    requires NewlineFree(a) && NewlineFree(b)
    ensures NewlineFree(a + b)
  {
  }

  lemma OneLinersConcat(a: seq<string>, b: seq<string>)
    requires OneLiners(a) && OneLiners(b)
    ensures OneLiners(a + b)
  {
  }

  lemma {:induction false} RunKeepsClean(s: State, steps: seq<Step>, rest: string)
    requires Clean(s) && NewlineFree(rest) && forall step :: step in steps ==> OneLine(step)
    ensures Clean(Run(s, steps)) && OneLiners(TearsOf(s, steps, rest))
    decreases |steps|
  {
    hide Next, Clean, OneLine, NewlineFree, SentBy, TornBy;
    if steps == [] {
    } else {
      var step := steps[0];
      NewlineFreeEmpty();
      StepKeepsClean(s, step);
      NewlineFreeConcat(if SentBy(s, step) == [] then rest else "", TornBy(s, step));
      RunKeepsClean(Next(s, step), steps[1..], RestAfter(s, step, rest));
      OneLinersConcat(NewTears(rest, |SentBy(s, step)|), TearsOf(Next(s, step), steps[1..], RestAfter(s, step, rest)));
    }
  }

  /** Without fragments, gluing does nothing. */
  lemma GlueEmpty(tears: seq<string>, messages: seq<string>)
    requires |tears| == |messages| && AllEmpty(tears)
    ensures Glue(tears, messages) == messages
  {
    forall k | 0 <= k < |messages|
      ensures tears[k] + messages[k] == messages[k]
    {
      assert tears[k] in tears && "" + messages[k] == messages[k];
    }
  }

  lemma FirstLineUntorn(tear: string, message: string, others: string, stream: string)
    requires NewlineFree(tear) && NewlineFree(message) && message + "\n" <= stream
    requires stream == (tear + message) + "\n" + others
    ensures tear == "" && stream[|message| + 1..] == others
  {
    hide LineLength, NewlineFree;
    NewlineFreeConcat(tear, message);
    LineLengthOfMessage(tear + message, others);
    LineLengthOfMessage(message, stream[|message| + 1..]);
    assert stream == message + "\n" + stream[|message| + 1..];
  }

  /** If the stream starts with the framed messages themselves, no message has a fragment in front of it. */
  lemma {:induction false} PrefixMeansUntorn(tears: seq<string>, messages: seq<string>, rest: string)
    requires |tears| == |messages| && OneLiners(tears) && OneLiners(messages)
    requires Frame(messages) <= Frame(Glue(tears, messages)) + rest
    ensures AllEmpty(tears)
  {
    hide Frame, NewlineFree, LineLength;
    if messages == [] {
    } else {
      var glued := Glue(tears, messages);
      var stream, others := Frame(glued) + rest, Frame(glued[1..]) + rest;
      FrameCons(messages);
      FrameCons(glued);
      assert stream == (tears[0] + messages[0]) + "\n" + others;
      var first := messages[0] + "\n";
      assert Frame(messages)[..|first|] == first && first <= stream;
      FirstLineUntorn(tears[0], messages[0], others, stream);
      assert Frame(messages[1..]) == Frame(messages)[|first|..] <= stream[|first|..];
      assert glued[1..] == Glue(tears[1..], messages[1..]);
      PrefixMeansUntorn(tears[1..], messages[1..], rest);
      AllEmptyConcat([tears[0]], tears[1..]);
      assert tears == [tears[0]] + tears[1..];
    }
  }

  lemma JoinConcat(a: seq<string>, b: seq<string>)
    ensures Join(a) <= Join(a + b)
  {
    if a == [] {
    } else {
      assert (a + b)[1..] == a[1..] + b;
      JoinConcat(a[1..], b);
    }
  }

  lemma {:induction false} JoinTerminated(messages: seq<string>)
    ensures Join(Terminated(messages)) == Frame(messages)
  {
    hide Frame, Join;
    if messages == [] {
      FrameEmpty();
      NothingRead("");
    } else {
      TerminatedCons(messages);
      JoinCons(messages[0] + "\n", Terminated(messages[1..]));
      FrameCons(messages);
      JoinTerminated(messages[1..]);
    }
  }

  /** Framed messages are read first, whatever follows them. */
  lemma {:induction false} FramedReadFirst(messages: seq<string>, tail: string, budget: nat)
    requires |messages| <= budget && forall m :: m in messages ==> NewlineFree(m) && Short(m)
    ensures Lines(Frame(messages) + tail, budget) == Terminated(messages) + Lines(tail, budget - |messages|)
    decreases budget
  {
    hide ReadLine, Frame, Lines, NewlineFree;
    if messages == [] {
      FrameEmpty();
      assert "" + tail == tail && Terminated(messages) + Lines(tail, budget) == Lines(tail, budget);
    } else {
      LinesStep(Frame(messages) + tail, budget);
      ReadFramed(messages, tail);
      assert |messages[0] + "\n"| == |messages[0]| + 1;
      FramedReadFirst(messages[1..], tail, budget - 1);
      TerminatedCons(messages);
    }
  }

  /** The limits of the reader are met: a read for every message, and none longer than a line. */
  predicate FullyRead(s: State, budget: nat)
  {
    |s.published| <= budget && forall m :: m in s.published ==> Short(m)
  }

  lemma ReadMeansUntorn(stream: string, tears: seq<string>, messages: seq<string>, rest: string, budget: nat)
    requires |tears| == |messages| && OneLiners(tears) && OneLiners(messages)
    requires stream == Frame(Glue(tears, messages)) + rest && Terminated(messages) <= Lines(stream, budget)
    ensures AllEmpty(tears) && |messages| <= budget && forall m :: m in messages ==> Short(m)
  {
    hide Frame, Lines, NewlineFree, Glue, Join;
    var lines := Lines(stream, budget);
    LinesPartition(stream, budget);
    forall m | m in messages
      ensures Short(m)
    {
      var k :| 0 <= k < |messages| && messages[k] == m;
      assert lines[k] == Terminated(messages)[k] == m + "\n" && IsChunk(lines[k]);
    }
    JoinConcat(Terminated(messages), lines[|messages|..]);
    assert Terminated(messages) + lines[|messages|..] == lines;
    JoinTerminated(messages);
    PrefixMeansUntorn(tears, messages, rest);
  }

  /** What is read starts with the published messages, each as itself, if and only if there is one read for each,
      each is short enough, and no session tore a message before a later one delivered. What follows is read from
      the unfinished rest. */
  lemma ReadAsPublishedExactly(steps: seq<Step>, budget: nat)
    requires forall step :: step in steps ==> OneLine(step)
    ensures var s, rest := Run(Init(), steps), RestOf(Init(), steps, "");
            && (Terminated(s.published) <= Lines(s.stream, budget) <==> FullyRead(s, budget) && !Glues(Init(), steps))
            && (FullyRead(s, budget) && !Glues(Init(), steps) ==>
                  Lines(s.stream, budget) == Terminated(s.published) + Lines(rest, budget - |s.published|))
  {
    hide Run, Frame, Lines, NewlineFree, Glues, AllEmpty, Glue, Torn, TearsOf, RestOf, OneLine;
    var s, tears, rest := Run(Init(), steps), TearsOf(Init(), steps, ""), RestOf(Init(), steps, "");
    StreamOverRun(steps);
    TearsExactly(Init(), steps, "");
    NewlineFreeEmpty();
    RunKeepsClean(Init(), steps, "");
    if Terminated(s.published) <= Lines(s.stream, budget) {
      ReadMeansUntorn(s.stream, tears, s.published, rest, budget);
    }
    if FullyRead(s, budget) && !Glues(Init(), steps) {
      GlueEmpty(tears, s.published);
      FramedReadFirst(s.published, rest, budget);
    }
  }

  // ---------- A run that glues ----------

  /** Two messages go through the queues; the first session loses "a" before its newline, the second publishes
      "b". */
  function ExampleRun(): seq<Step>
  {
    Feed() + [Publish(Opened(1)), Publish(Opened(2))]
  }

  function Feed(): seq<Step>
  {
    [Enqueue("a"), Enqueue("b"), ParserGet, ParserPut, ParserGet, ParserPut]
  }

  lemma Fed()
    ensures Run(Init(), Feed()) == Init().(jsonQueue := ["a", "b"], enqueued := ["a", "b"])
  {
    var s1 := Next(Init(), Enqueue("a"));
    var s2 := Next(s1, Enqueue("b"));
    var s3 := Next(s2, ParserGet);
    var s4 := Next(s3, ParserPut);
    var s5 := Next(s4, ParserGet);
    var s6 := Next(s5, ParserPut);
    assert s2.telemetryQueue == ["a", "b"] && s2.enqueued == ["a", "b"];
    assert s6 == Init().(jsonQueue := ["a", "b"], enqueued := ["a", "b"]);
    RunCons(s5, ParserPut, []);
    RunCons(s4, ParserGet, [ParserPut]);
    RunCons(s3, ParserPut, [ParserGet, ParserPut]);
    RunCons(s2, ParserGet, [ParserPut, ParserGet, ParserPut]);
    RunCons(s1, Enqueue("b"), [ParserGet, ParserPut, ParserGet, ParserPut]);
    RunCons(Init(), Enqueue("a"), [Enqueue("b"), ParserGet, ParserPut, ParserGet, ParserPut]);
  }

  lemma RunCons(s: State, step: Step, steps: seq<Step>)
    ensures Run(s, [step] + steps) == Run(Next(s, step), steps)
  {
    assert ([step] + steps)[1..] == steps;
  }

  lemma {:induction false} RunConcat(s: State, a: seq<Step>, b: seq<Step>)
    ensures Run(s, a + b) == Run(Run(s, a), b)
    decreases |a|
  {
    if a == [] {
      assert a + b == b;
    } else {
      hide Next;
      RunConcat(Next(s, a[0]), a[1..], b);
      assert (a + b)[1..] == a[1..] + b;
    }
  }

  /** Counterexample: "b" counts as published, and is never read as itself. */
  lemma TornMessageExample()
    ensures var s := Run(Init(), ExampleRun());
            && s.enqueued == ["a", "b"] && s.published == ["b"] && s.stream == "ab\n" && s.failedSessions == 1
            && Lines(s.stream, READ_BUDGET) == ["ab\n"] != Terminated(s.published)
    ensures Glues(Init(), ExampleRun())
  {
    hide Frame, Lines, Session, Run, Glues, Feed, NewlineFree;
    var s0 := Run(Init(), Feed());
    var s1 := Session(s0, 1);
    var s2 := Session(s1, 2);
    Fed();
    TornSession(s0);
    NextSession(s1);
    RunConcat(Init(), Feed(), [Publish(Opened(1)), Publish(Opened(2))]);
    RunCons(s1, Publish(Opened(2)), []);
    RunCons(s0, Publish(Opened(1)), [Publish(Opened(2))]);
    NoSteps(s2);
    assert [Publish(Opened(1))] + [Publish(Opened(2))] == [Publish(Opened(1)), Publish(Opened(2))];
    assert [Publish(Opened(2))] + [] == [Publish(Opened(2))];
    assert Run(Init(), ExampleRun()) == s2;
    FrameOne("b");
    FrameOne("ab");
    NewlineFreeExample();
    LinesOfFrame(["ab"], 100);
    assert Terminated(["ab"])[0] == "ab\n" && Terminated(["b"])[0] == "b\n";
    ExampleSteps();
    ReadAsPublishedExactly(ExampleRun(), READ_BUDGET);
  }

  lemma NoSteps(s: State)
    ensures Run(s, []) == s
  {
  }

  lemma NewlineFreeExample()
    ensures NewlineFree("a") && NewlineFree("b") && NewlineFree("ab")
  {
  }

  lemma ExampleSteps()
    ensures forall step :: step in ExampleRun() ==> OneLine(step)
  {
    NewlineFreeExample();
  }

  lemma TornSession(s: State)
    requires s == Init().(jsonQueue := ["a", "b"], enqueued := ["a", "b"])
    ensures Session(s, 1) == Init().(jsonQueue := ["b"], enqueued := ["a", "b"], failedSessions := 1, stream := "a")
  {
    hide Frame;
    FrameEmpty();
    assert ["a", "b"][..0] == [] && ["a", "b"][1..] == ["b"];
  }

  lemma NextSession(s: State)
    requires s == Init().(jsonQueue := ["b"], enqueued := ["a", "b"], failedSessions := 1, stream := "a")
    ensures Session(s, 2) == s.(jsonQueue := [], published := ["b"], stream := "a" + Frame(["b"]))
  {
    hide Frame;
    assert ["b"][..1] == ["b"];
  }
}
