/** What the server reads of the publisher's stream when writes fail: a session that dies between a message's
    text and its newline leaves the text at the end of the stream, where the next message is glued to it. */
module Tearing {
  import opened Sequences
  import opened Publisher
  import opened Framing

  /** The messages a session gets across, and the text it leaves without a newline. */
  function Sent(s: State, writes: nat): seq<string>
  {
    s.jsonQueue[..Completed(s, writes)]
  }

  function TornText(s: State, writes: nat): string
  {
    var n := Completed(s, writes);
    if n < Target(s) && writes % 2 == 1 then s.jsonQueue[n] else ""
  }

  lemma SessionWrites(s: State, writes: nat)
    ensures var s' := Session(s, writes);
            && s'.published == s.published + Sent(s, writes)
            && s'.stream == s.stream + (Frame(Sent(s, writes)) + TornText(s, writes))
            && s'.failedSessions == s.failedSessions + (if Completed(s, writes) < Target(s) then 1 else 0)
            && (TornText(s, writes) != "" ==> Completed(s, writes) < Target(s))
  {
  }

  /** From queue to server, whatever write fails: what a session adds to the stream is read, in one pass, as
      exactly the messages it published, followed by the torn text if there is one. */
  lemma SessionReadBack(s: State, writes: nat)
    requires forall m :: m in s.jsonQueue ==> NewlineFree(m) && Short(m)
    ensures var s' := Session(s, writes);
            && s.stream <= s'.stream && s'.published == s.published + Sent(s, writes)
            && Lines(s'.stream[|s.stream|..], READ_BUDGET)
               == Terminated(Sent(s, writes)) + Fragment(TornText(s, writes))
  {
    hide Lines, Frame, NewlineFree;
    SessionWrites(s, writes);
    var sent, torn := Sent(s, writes), TornText(s, writes);
    assert Session(s, writes).stream[|s.stream|..] == Frame(sent) + torn;
    NewlineFreeEmpty();
    LinesOfStream(sent, torn, READ_BUDGET);
    assert |sent| == 100 ==> sent[..100] == sent && torn == "" && Terminated(sent) + Fragment(torn) == Terminated(sent);
  }

  lemma NewlineFreeEmpty()
    ensures NewlineFree("")
  {
  }

  // ---------- Over whole runs ----------

  /** Each message behind the fragment it was glued to. */
  function Glue(tears: seq<string>, messages: seq<string>): (r: seq<string>)
    requires |tears| == |messages|
    ensures |r| == |messages|
  {
    seq(|messages|, k requires 0 <= k < |messages| => tears[k] + messages[k])
  }

  predicate NonEmpty(text: string) { text != "" }

  function Torn(tears: seq<string>): nat
  {
    |Filter(NonEmpty, tears)|
  }

  /** The stream consists of one line per published message, with the fragment the message was glued to in
      front of it, and an unfinished rest; not more texts are torn than sessions have failed. */
  ghost predicate StreamAccount(s: State, tears: seq<string>, rest: string)
  {
    && |tears| == |s.published|
    && s.stream == Frame(Glue(tears, s.published)) + rest
    && Torn(tears) + |Fragment(rest)| <= s.failedSessions
  }

  lemma FrameSnocConcat(a: seq<string>, front: seq<string>, last: string)
    requires Frame(a + front) == Frame(a) + Frame(front)
    ensures Frame(a + (front + [last])) == Frame(a) + Frame(front + [last])
  {
    hide Frame;
    assert a + (front + [last]) == (a + front) + [last];
    FrameSnoc(a + front, last);
    FrameSnoc(front, last);
    Associate(Frame(a), Frame(front), last + "\n");
  }

  lemma {:induction false} FrameConcat(a: seq<string>, b: seq<string>)
    ensures Frame(a + b) == Frame(a) + Frame(b)
  {
    if b == [] {
      assert a + b == a && Frame(a) + "" == Frame(a);
    } else {
      var front, last := DropLast(b), Last(b);
      FrameConcat(a, front);
      assert b == front + [last];
      FrameSnocConcat(a, front, last);
    }
  }

  /** The fragments in front of the messages of one session: what was left over, then none. */
  function NewTears(rest: string, n: nat): (tears: seq<string>)
    ensures |tears| == n
  {
    if n == 0 then [] else [rest] + Copies("", n - 1)
  }

  lemma Associate(a: string, b: string, c: string)
    ensures (a + b) + c == a + (b + c)
  {
  }

  lemma NewGlued(rest: string, sent: seq<string>)
    requires sent != []
    ensures Glue(NewTears(rest, |sent|), sent) == [rest + sent[0]] + sent[1..]
  {
    forall k | 0 < k < |sent|
      ensures NewTears(rest, |sent|)[k] + sent[k] == sent[k]
    {
      assert Copies("", |sent| - 1)[k - 1] in Copies("", |sent| - 1);
      assert "" + sent[k] == sent[k];
    }
  }

  lemma GlueNew(rest: string, sent: seq<string>)
    requires sent != []
    ensures Frame(Glue(NewTears(rest, |sent|), sent)) == rest + Frame(sent)
  {
    hide Frame, Glue, NewTears;
    NewGlued(rest, sent);
    var glued := Glue(NewTears(rest, |sent|), sent);
    var first, others := sent[0] + "\n", Frame(sent[1..]);
    FrameCons(sent);
    FrameCons(glued);
    assert glued[1..] == sent[1..];
    Associate(rest, sent[0], "\n");
    Associate(rest, first, others);
  }

  lemma GlueConcat(tears: seq<string>, messages: seq<string>, tears': seq<string>, messages': seq<string>)
    requires |tears| == |messages| && |tears'| == |messages'|
    ensures Glue(tears + tears', messages + messages') == Glue(tears, messages) + Glue(tears', messages')
  {
  }

  lemma {:induction false} NoTears(n: nat)
    ensures Filter(NonEmpty, Copies("", n)) == []
  {
    if n == 0 {
    } else {
      NoTears(n - 1);
      assert Copies("", n)[1..] == Copies("", n - 1);
    }
  }

  lemma TornConcat(tears: seq<string>, rest: string, n: nat)
    ensures Torn(tears + NewTears(rest, n)) == Torn(tears) + if n == 0 then 0 else |Fragment(rest)|
  {
    hide Filter;
    FilterConcat(NonEmpty, tears, NewTears(rest, n));
    if n > 0 {
      FilterConcat(NonEmpty, [rest], Copies("", n - 1));
      FilterOne(NonEmpty, rest);
      NoTears(n - 1);
    } else {
      assert tears + [] == tears;
    }
  }

  /** How a session continues the account. */
  lemma SessionTears(s: State, writes: nat, tears: seq<string>, rest: string)
    returns (tears': seq<string>, rest': string)
    requires StreamAccount(s, tears, rest)
    ensures StreamAccount(Session(s, writes), tears', rest')
    ensures tears' == tears + NewTears(rest, |Sent(s, writes)|)
    ensures rest' == (if Sent(s, writes) == [] then rest else "") + TornText(s, writes)
  {
    hide Frame, Session, Torn, NewTears, Sent, TornText;
    var sent, torn, s' := Sent(s, writes), TornText(s, writes), Session(s, writes);
    SessionWrites(s, writes);
    tears' := tears + NewTears(rest, |sent|);
    rest' := (if sent == [] then rest else "") + torn;
    TornConcat(tears, rest, |sent|);
    StreamContinues(s.stream, tears, s.published, rest, sent, torn);
  }

  lemma StreamContinues(stream: string, tears: seq<string>, published: seq<string>, rest: string,
                        sent: seq<string>, torn: string)
    requires |tears| == |published| && stream == Frame(Glue(tears, published)) + rest
    ensures stream + (Frame(sent) + torn) ==
            Frame(Glue(tears + NewTears(rest, |sent|), published + sent)) + ((if sent == [] then rest else "") + torn)
  {
    hide Frame, Glue, NewTears;
    var before := Frame(Glue(tears, published));
    if sent == [] {
      FrameEmpty();
      NoNewTears(tears, rest);
      assert published + sent == published;
      Shift(before, rest, "", torn);
    } else {
      GlueConcat(tears, published, NewTears(rest, |sent|), sent);
      FrameConcat(Glue(tears, published), Glue(NewTears(rest, |sent|), sent));
      GlueNew(rest, sent);
      Shift(before, rest, Frame(sent), torn);
    }
  }

  lemma Shift(a: string, b: string, c: string, d: string)
    ensures (a + b) + (c + d) == (a + (b + c)) + ("" + d)
    ensures c == "" ==> (a + b) + (c + d) == a + (b + d)
  {
    assert "" + d == d;
  }

  lemma NoNewTears(tears: seq<string>, rest: string)
    ensures tears + NewTears(rest, 0) == tears
  {
  }

  // ---------- What a run leaves in front of its messages ----------

  predicate IsSession(s: State, step: Step)
  {
    step.Publish? && s.jsonQueue != [] && step.pipe.Opened?
  }

  /** The messages a step gets across, and the text it leaves without a newline. */
  function SentBy(s: State, step: Step): seq<string>
  {
    if IsSession(s, step) then Sent(s, step.pipe.writes) else []
  }

  function TornBy(s: State, step: Step): string
  {
    if IsSession(s, step) then TornText(s, step.pipe.writes) else ""
  }

  /** The unfinished end of the stream after a step. */
  function RestAfter(s: State, step: Step, rest: string): string
  {
    (if SentBy(s, step) == [] then rest else "") + TornBy(s, step)
  }

  /** The unfinished end of the stream after a run. */
  function RestOf(s: State, steps: seq<Step>, rest: string): string
    decreases |steps|
  {
    if steps == [] then rest else RestOf(Next(s, steps[0]), steps[1..], RestAfter(s, steps[0], rest))
  }

  /** For every message a run publishes, the fragment it is glued to. */
  function TearsOf(s: State, steps: seq<Step>, rest: string): seq<string>
    decreases |steps|
  {
    if steps == [] then []
    else
      NewTears(rest, |SentBy(s, steps[0])|) + TearsOf(Next(s, steps[0]), steps[1..], RestAfter(s, steps[0], rest))
  }

  lemma StepTears(s: State, step: Step, tears: seq<string>, rest: string)
    requires StreamAccount(s, tears, rest)
    ensures StreamAccount(Next(s, step), tears + NewTears(rest, |SentBy(s, step)|), RestAfter(s, step, rest))
  {
    hide StreamAccount, Session, Sent, TornText, NewTears;
    if IsSession(s, step) {
      var tears', rest' := SessionTears(s, step.pipe.writes, tears, rest);
    } else {
      NoNewTears(tears, rest);
      assert rest + "" == rest;
      OtherStepsWriteNothing(s, step, tears, rest);
    }
  }

  lemma OtherStepsWriteNothing(s: State, step: Step, tears: seq<string>, rest: string)
    requires StreamAccount(s, tears, rest) && !IsSession(s, step)
    ensures StreamAccount(Next(s, step), tears, rest)
  {
  }

  lemma {:induction false} RunTears(s: State, steps: seq<Step>, tears: seq<string>, rest: string)
    requires StreamAccount(s, tears, rest)
    ensures StreamAccount(Run(s, steps), tears + TearsOf(s, steps, rest), RestOf(s, steps, rest))
    decreases |steps|
  {
    hide Next, StreamAccount, NewTears, RestAfter, SentBy;
    if steps == [] {
      assert tears + [] == tears;
    } else {
      var s', rest', now := Next(s, steps[0]), RestAfter(s, steps[0], rest), NewTears(rest, |SentBy(s, steps[0])|);
      StepTears(s, steps[0], tears, rest);
      RunTears(s', steps[1..], tears + now, rest');
      assert (tears + now) + TearsOf(s', steps[1..], rest') == tears + (now + TearsOf(s', steps[1..], rest'));
    }
  }

  /** Over every run there is one line in the stream per published message: the message, behind the fragment it
      was glued to. Fragments, in front of a message or at the end, are at most as many as sessions have failed. */
  lemma StreamOverRun(steps: seq<Step>)
    ensures var s, tears, rest := Run(Init(), steps), TearsOf(Init(), steps, ""), RestOf(Init(), steps, "");
            && |tears| == |s.published|
            && s.stream == Frame(Glue(tears, s.published)) + rest
            && Torn(tears) + |Fragment(rest)| <= s.failedSessions
  {
    assert Glue([], []) == [];
    assert StreamAccount(Init(), [], "");
    RunTears(Init(), steps, [], "");
    assert [] + TearsOf(Init(), steps, "") == TearsOf(Init(), steps, "");
  }

  /** How such a stream is read: line by line, a message whose fragment is empty as itself. */
  lemma ReadTornStream(s: State, tears: seq<string>, rest: string, budget: nat)
    requires StreamAccount(s, tears, rest) && |s.published| < budget
    requires forall m :: m in Glue(tears, s.published) + [rest] ==> NewlineFree(m) && Short(m)
    ensures Lines(s.stream, budget) == Terminated(Glue(tears, s.published)) + Fragment(rest)
    ensures forall k :: 0 <= k < |s.published| && tears[k] == "" ==> Lines(s.stream, budget)[k] == s.published[k] + "\n"
  {
    hide Lines, Frame, NewlineFree;
    var glued := Glue(tears, s.published);
    assert forall m :: m in glued ==> m in glued + [rest];
    assert (glued + [rest])[|glued|] == rest;
    LinesOfStream(glued, rest, budget);
    forall k | 0 <= k < |glued| && tears[k] == ""
      ensures Terminated(glued)[k] == s.published[k] + "\n"
    {
      assert "" + s.published[k] == s.published[k];
    }
  }
}
