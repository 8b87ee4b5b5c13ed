/** The telemetry side of client/controller.py, lines 30-60: two queues feeding publish sessions over a FIFO.
    A message is identified with its JSON text. */
module Publisher {
  import opened Sequences
  import opened Options

  const SESSION_LIMIT := 100

  /** How opening the FIFO and writing to it go: without a reader the open raises; otherwise the first
      `writes` calls of `os.write` succeed and the next one raises. */
  datatype Pipe = NoReader | Opened(writes: nat)

  /** The queues, the message the parser holds between its get and its put, and the history of what was
      enqueued, what was completely published, and how many sessions failed. */
  datatype State = State(
    telemetryQueue: seq<string>, holding: Option<string>, jsonQueue: seq<string>,
    enqueued: seq<string>, published: seq<string>, failedSessions: nat, stream: string)

  function Init(): State
  {
    State([], None, [], [], [], 0, "")
  }

  function Minimum(a: nat, b: nat): nat { if a < b then a else b }

  /** The text a list of messages becomes: each followed by a newline. */
  function Frame(messages: seq<string>): string
  {
    if messages == [] then "" else Frame(DropLast(messages)) + Last(messages) + "\n"
  }

  function Target(s: State): nat
  {
    Minimum(|s.jsonQueue|, SESSION_LIMIT)
  }

  /** Messages a session gets across: every message takes two writes, its text and its newline. */
  function Completed(s: State, writes: nat): nat
  {
    Minimum(Target(s), writes / 2)
  }

  /** A session against an open pipe. If a write raises, the message it belonged to has left the queue; its
      text is in the stream if only the newline failed. */
  function Session(s: State, writes: nat): State
  {
    var n := Completed(s, writes);
    if n == Target(s) then
      s.(jsonQueue := s.jsonQueue[n..], published := s.published + s.jsonQueue[..n],
         stream := s.stream + Frame(s.jsonQueue[..n]))
    else
      s.(jsonQueue := s.jsonQueue[n + 1..], published := s.published + s.jsonQueue[..n],
         stream := s.stream + Frame(s.jsonQueue[..n]) + (if writes % 2 == 1 then s.jsonQueue[n] else ""),
         failedSessions := s.failedSessions + 1)
  }

  datatype Step = Enqueue(message: string) | ParserGet | ParserPut | Publish(pipe: Pipe)

  /** Coroutines switch only at their awaits, so a session runs in one piece. A step that cannot be taken waits. */
  function Next(s: State, step: Step): State
  {
    match step
    case Enqueue(message) => s.(telemetryQueue := s.telemetryQueue + [message], enqueued := s.enqueued + [message])
    case ParserGet =>
      if s.holding.Some? || s.telemetryQueue == [] then s
      else s.(holding := Some(s.telemetryQueue[0]), telemetryQueue := s.telemetryQueue[1..])
    case ParserPut =>
      if s.holding.None? then s
      else s.(holding := None, jsonQueue := s.jsonQueue + [s.holding.value])
    case Publish(pipe) =>
      if s.jsonQueue == [] || pipe.NoReader? then s else Session(s, pipe.writes)
  }

  function Run(s: State, steps: seq<Step>): State
    decreases |steps|
  {
    if steps == [] then s else Run(Next(s, steps[0]), steps[1..])
  }

  /** The controller's queues as objects. */
  class Telemetry {
    var telemetryQueue: seq<string>
    var holding: Option<string>
    var jsonQueue: seq<string>
    var stream: string
    ghost var enqueued: seq<string>
    ghost var published: seq<string>
    ghost var failedSessions: nat

    ghost function View(): State
      reads this
    {
      State(telemetryQueue, holding, jsonQueue, enqueued, published, failedSessions, stream)
    }

    constructor ()
      ensures View() == Init()
    {
      telemetryQueue, holding, jsonQueue, stream := [], None, [], "";
      enqueued, published, failedSessions := [], [], 0;
    }

    /** A monitor's `put`. */
    method Put(message: string)
      modifies this
      ensures View() == Next(old(View()), Enqueue(message))
      ensures telemetryQueue == old(telemetryQueue) + [message]
      ensures holding == old(holding) && jsonQueue == old(jsonQueue)
    {
      telemetryQueue := telemetryQueue + [message];
      enqueued := enqueued + [message];
    }

    /** The two halves of a turn of `queue_parser`. */
    method ParserTakes()
      requires holding == None && telemetryQueue != []
      modifies this
      ensures View() == Next(old(View()), ParserGet)
      ensures old(telemetryQueue) == [holding.value] + telemetryQueue && jsonQueue == old(jsonQueue)
    {
      holding := Some(telemetryQueue[0]);
      telemetryQueue := telemetryQueue[1..];
    }

    method ParserHandsOn()
      requires holding.Some?
      modifies this
      ensures View() == Next(old(View()), ParserPut)
      ensures jsonQueue == old(jsonQueue) + [old(holding).value]
      ensures holding == None && telemetryQueue == old(telemetryQueue)
    {
      jsonQueue := jsonQueue + [holding.value];
      holding := None;
    }

    /** One turn of `pub_telemetry`. */
    method PubTelemetry(pipe: Pipe)
      modifies this
      ensures View() == Next(old(View()), Publish(pipe))
    {
      if jsonQueue == [] || pipe.NoReader? {
        return;
      }
      hide Progress, Session, Frame;
      ghost var s := View();
      ProgressStarts(s, pipe.writes);
      var writes := 0;
      var raised := false;
      var i := 0;
      while jsonQueue != [] && i < SESSION_LIMIT && !raised
        invariant if raised then i == Completed(s, pipe.writes) < Target(s)
                  else i <= Target(s) && writes == 2 * i <= pipe.writes
        invariant View() == Progress(s, pipe.writes, i, raised)
        invariant |jsonQueue| == |s.jsonQueue| - i - if raised then 1 else 0
      {
        ProgressContinues(s, pipe.writes, i);
        var msg := jsonQueue[0];
        jsonQueue := jsonQueue[1..];
        if writes < pipe.writes {
          stream := stream + msg;
          writes := writes + 1;
          if writes < pipe.writes {
            stream := stream + "\n";
            writes := writes + 1;
            i := i + 1;
            published := published + [msg];
          } else {
            raised := true;
            failedSessions := failedSessions + 1;
          }
        } else {
          raised := true;
          failedSessions := failedSessions + 1;
        }
      }
      ProgressEnds(s, pipe.writes);
    }
  }

  /** A session after `i` complete messages, and possibly a failed one. */
  ghost function Progress(s: State, writes: nat, i: nat, raised: bool): State
    requires i <= |s.jsonQueue| && (raised ==> i < |s.jsonQueue|)
  {
    var t := s.(published := s.published + s.jsonQueue[..i], jsonQueue := s.jsonQueue[i..],
                stream := s.stream + Frame(s.jsonQueue[..i]));
    if raised
    then t.(jsonQueue := s.jsonQueue[i + 1..], failedSessions := s.failedSessions + 1,
            stream := t.stream + if writes % 2 == 1 then s.jsonQueue[i] else "")
    else t
  }

  lemma ProgressStarts(s: State, writes: nat)
    ensures Progress(s, writes, 0, false) == s
  {
    assert s.published + [] == s.published && s.stream + "" == s.stream;
  }

  lemma ProgressContinues(s: State, writes: nat, i: nat)
    requires i < |s.jsonQueue|
    ensures var t, msg := Progress(s, writes, i, false), s.jsonQueue[i];
            && t.jsonQueue == [msg] + t.jsonQueue[1..]
            && Progress(s, writes, i + 1, false)
               == t.(published := t.published + [msg], jsonQueue := t.jsonQueue[1..], stream := t.stream + msg + "\n")
            && Progress(s, writes, i, true)
               == t.(jsonQueue := t.jsonQueue[1..], failedSessions := t.failedSessions + 1,
                     stream := t.stream + if writes % 2 == 1 then msg else "")
  {
    var done := s.jsonQueue[..i + 1];
    assert DropLast(done) == s.jsonQueue[..i] && done == s.jsonQueue[..i] + [s.jsonQueue[i]];
    var a, b, c := s.stream, Frame(s.jsonQueue[..i]), s.jsonQueue[i];
    assert a + (b + c + "\n") == a + b + c + "\n";
  }

  lemma ProgressEnds(s: State, writes: nat)
    ensures Session(s, writes) == Progress(s, writes, Completed(s, writes), Completed(s, writes) < Target(s))
  {
  }

  // ---------- The loss bound ----------

  function Held(s: State): seq<string>
  {
    if s.holding.Some? then [s.holding.value] else []
  }

  /** All messages that are published or still on their way, oldest first. */
  function Flow(s: State): seq<string>
  {
    s.published + s.jsonQueue + (Held(s) + s.telemetryQueue)
  }

  /** Everything enqueued is accounted for, in order, except one message per failed session. */
  ghost predicate Accounted(s: State)
  {
    Subseq(Flow(s), s.enqueued) && |s.enqueued| == |Flow(s)| + s.failedSessions
  }

  lemma MoveMessages(published: seq<string>, queue: seq<string>, n: nat, tail: seq<string>)
    requires n <= |queue|
    ensures (published + queue[..n]) + queue[n..] + tail == published + queue + tail
  {
    assert queue == queue[..n] + queue[n..];
  }

  lemma DropMessage(published: seq<string>, queue: seq<string>, n: nat, tail: seq<string>)
    requires n < |queue|
    ensures Subseq((published + queue[..n]) + queue[n + 1..] + tail, published + queue + tail)
  {
    hide Subseq;
    var front, back := published + queue[..n], queue[n + 1..] + tail;
    SubseqDrop(front, [queue[n]], back);
    assert front + [queue[n]] + back == published + queue + tail;
    assert front + queue[n + 1..] + tail == front + back;
  }

  lemma SessionAccounts(s: State, writes: nat)
    requires Accounted(s)
    ensures Accounted(Session(s, writes))
  {
    hide Subseq;
    var n, s', tail := Completed(s, writes), Session(s, writes), Held(s) + s.telemetryQueue;
    if n == Target(s) {
      MoveMessages(s.published, s.jsonQueue, n, tail);
    } else {
      DropMessage(s.published, s.jsonQueue, n, tail);
      SubseqTrans(Flow(s'), Flow(s), s.enqueued);
    }
  }

  lemma StepAccounts(s: State, step: Step)
    requires Accounted(s)
    ensures Accounted(Next(s, step))
  {
    hide Subseq;
    match step {
      case Enqueue(message) =>
        SubseqRefl([message]);
        SubseqConcat(Flow(s), s.enqueued, [message], [message]);
        assert Flow(Next(s, step)) == Flow(s) + [message];
      case ParserGet =>
        assert Held(Next(s, step)) + Next(s, step).telemetryQueue == Held(s) + s.telemetryQueue;
      case ParserPut =>
        assert Flow(Next(s, step)) == Flow(s);
      case Publish(pipe) =>
        if s.jsonQueue != [] && pipe.Opened? {
          SessionAccounts(s, pipe.writes);
        }
    }
  }

  /** Over every run: published messages, both queues and the parser's message together are the enqueued
      messages in order, with exactly one missing per failed session. */
  lemma {:induction false} LossBound(s: State, steps: seq<Step>)
    requires Accounted(s)
    ensures Accounted(Run(s, steps))
    decreases |steps|
  {
    if steps == [] {
    } else {
      hide Next, Accounted;
      StepAccounts(s, steps[0]);
      LossBound(Next(s, steps[0]), steps[1..]);
    }
  }

  lemma LossBoundFromStart(steps: seq<Step>)
    ensures var s := Run(Init(), steps);
            Subseq(Flow(s), s.enqueued) && |s.enqueued| == |Flow(s)| + s.failedSessions
  {
    LossBound(Init(), steps);
  }

  /** No session publishes more than 100 messages; without a reader nothing moves at all; and a session loses a
      message only if a write raised before it reached its target. */
  lemma SessionLimits(s: State, pipe: Pipe)
    ensures var s' := Next(s, Publish(pipe));
            && |s'.published| <= |s.published| + 100
            && s.published <= s'.published
            && (pipe.NoReader? ==> s' == s)
            && (pipe.Opened? ==>
                  (s'.failedSessions == s.failedSessions + 1 <==> pipe.writes / 2 < Minimum(|s.jsonQueue|, 100)))
            && (s'.failedSessions == s.failedSessions ==> Flow(s') == Flow(s))
  {
    if s.jsonQueue != [] && pipe.Opened? {
      var n := Completed(s, pipe.writes);
      assert s.jsonQueue == s.jsonQueue[..n] + s.jsonQueue[n..];
    }
  }

  // ---------- What a session gets across ----------

  /** A session publishes the front of its queue: as many messages as there are, up to a hundred, as long as both
      their writes succeed. The next one is lost if a write raises, and stays if not. */
  lemma SessionPublishes(s: State, writes: nat) returns (n: nat)
    ensures n <= |s.jsonQueue| && n <= 100 && 2 * n <= writes
    ensures n == |s.jsonQueue| || n == 100 || writes < 2 * n + 2
    ensures var s' := Session(s, writes);
            && s'.published == s.published + s.jsonQueue[..n]
            && s'.telemetryQueue == s.telemetryQueue && s'.holding == s.holding && s'.enqueued == s.enqueued
            && if n == |s.jsonQueue| || n == 100
               then s'.jsonQueue == s.jsonQueue[n..] && s'.failedSessions == s.failedSessions
               else s'.jsonQueue == s.jsonQueue[n + 1..] && s'.failedSessions == s.failedSessions + 1
  {
    n := Completed(s, writes);
  }

  /** Messages that are not published yet. */
  function Waiting(s: State): nat
  {
    3 * |s.telemetryQueue| + 2 * |Held(s)| + |s.jsonQueue|
  }

  /** The next thing that happens when the parser and a reader are at work. */
  function Onward(s: State): Step
  {
    if s.holding.Some? then ParserPut
    else if s.telemetryQueue != [] then ParserGet
    else Publish(Opened(200))
  }

  lemma OnwardProgresses(s: State)
    requires Waiting(s) > 0
    ensures var s' := Next(s, Onward(s));
            && Waiting(s') < Waiting(s) && Flow(s') == Flow(s)
            && s'.failedSessions == s.failedSessions && s'.enqueued == s.enqueued
  {
    if Onward(s).Publish? {
      var n := SessionPublishes(s, 200);
      MoveMessages(s.published, s.jsonQueue, n, []);
    }
  }

  /** From any state, with the parser and a reader at work, everything on its way is published, in order. */
  lemma {:induction false} CanPublishAll(s: State) returns (steps: seq<Step>)
    ensures forall step :: step in steps ==> !step.Enqueue?
    ensures var s' := Run(s, steps);
            && s'.published == Flow(s) && Waiting(s') == 0
            && s'.failedSessions == s.failedSessions && s'.enqueued == s.enqueued
    decreases Waiting(s)
  {
    if Waiting(s) == 0 {
      steps := [];
    } else {
      hide Next, Onward;
      OnwardProgresses(s);
      OnwardAddsNothing(s);
      var others := CanPublishAll(Next(s, Onward(s)));
      steps := [Onward(s)] + others;
      assert steps[1..] == others;
    }
  }

  lemma OnwardAddsNothing(s: State)
    ensures !Onward(s).Enqueue?
  {
  }
}
