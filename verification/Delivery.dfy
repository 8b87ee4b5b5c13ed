/** Liveness meets safety: a command posted in a quiet, lossless period is executed exactly once, and last. */
module Delivery {
  import opened Sequences
  import opened Options
  import opened Commands
  import opened Protocol
  import opened Safety
  import opened Losses
  import opened Convergence

  /** A run without posts, failures and losses. */
  ghost predicate Calm(steps: seq<Step>)
  {
    AllQuiet(steps) && Lossless(steps)
  }

  /** Nothing is on its way to the drone. */
  predicate Drained(s: State)
  {
    s.pipe == [] && QueuedBytes(s.queue) == []
  }

  predicate Names(b: Byte, row: nat)
  {
    b.origin == FromServer(row)
  }

  /** Without a failure of the poller, what is written carries the number of failures so far. */
  lemma {:induction false} QuietLives(s: State, steps: seq<Step>)
    requires Valid(s, steps) && AllQuiet(steps)
    ensures Run(s, steps).failures == s.failures
    ensures forall b :: b in Added(s, steps) ==> b.life == s.failures
    decreases |steps|
  {
    hide Next;
    if steps == [] {
    } else {
      assert Quiet(steps[0]) && AllQuiet(steps[1..]);
      QuietStepLives(s, steps[0]);
      QuietLives(Next(s, steps[0]), steps[1..]);
    }
  }

  lemma QuietStepLives(s: State, step: Step)
    requires Enabled(s, step) && Quiet(step)
    ensures Next(s, step).failures == s.failures
    ensures forall b :: b in WrittenBy(s, step) ==> b.life == s.failures
  {
  }

  /** The newest command was written: the poller is about to acknowledge it, or at rest. */
  ghost predicate WroteNewest(s: State)
  {
    s.rows != [] && (AtRest(s) || s.poller == Acknowledging(|s.rows| - 1))
  }

  lemma WroteNewestStep(s: State, step: Step)
    requires Enabled(s, step) && Quiet(step) && NewestIsUnique(s.rows) && WroteNewest(s)
    ensures WroteNewest(Next(s, step)) && WrittenBy(s, step) == []
  {
    if step.Fetch? {
      NewestRow(s.rows, step.row);
    }
  }

  /** After the newest command nothing more is written. */
  lemma {:induction false} SilentOnceWritten(s: State, steps: seq<Step>)
    requires Valid(s, steps) && AllQuiet(steps) && NewestIsUnique(s.rows) && WroteNewest(s)
    ensures Added(s, steps) == []
    decreases |steps|
  {
    hide Next, NewestIsUnique, WroteNewest;
    if steps == [] {
    } else {
      assert Quiet(steps[0]) && AllQuiet(steps[1..]);
      WroteNewestStep(s, steps[0]);
      QuietStepKeeps(s, steps[0]);
      SilentOnceWritten(Next(s, steps[0]), steps[1..]);
    }
  }

  /** A byte of the newest command is the only one its step writes, and leaves the poller to acknowledge it. */
  lemma WritesNewest(s: State, step: Step, b: Byte)
    requires Inv(s) && Enabled(s, step) && b in WrittenBy(s, step) && s.rows != [] && Names(b, |s.rows| - 1)
    ensures WrittenBy(s, step) == [b] && WroteNewest(Next(s, step))
  {
    hide Inv;
    PollerInvariant(s);
  }

  /** So if the newest command is written at all, it is written last. */
  lemma {:induction false} NewestIsWrittenLast(s: State, steps: seq<Step>, b: Byte)
    requires Inv(s) && Valid(s, steps) && AllQuiet(steps) && NewestIsUnique(s.rows)
    requires s.rows != [] && Names(b, |s.rows| - 1) && b in Added(s, steps)
    ensures Last(Added(s, steps)) == b
    decreases |steps|
  {
    hide Inv, Next, NewestIsUnique, WroteNewest, WrittenBy;
    assert Quiet(steps[0]) && AllQuiet(steps[1..]);
    var s', now, later := Next(s, steps[0]), WrittenBy(s, steps[0]), Added(Next(s, steps[0]), steps[1..]);
    StepKeepsInv(s, steps[0]);
    QuietStepKeeps(s, steps[0]);
    if b in now {
      WritesNewest(s, steps[0], b);
      SilentOnceWritten(s', steps[1..]);
      assert now + later == [b];
    } else {
      assert b in later;
      NewestIsWrittenLast(s', steps[1..], b);
      assert Last(now + later) == Last(later);
    }
  }

  /** In a quiet, lossless run that converges and ends with nothing on its way, a newest command that was not
      written before is executed exactly once, and is the last thing the drone does. */
  lemma NewestIsExecutedOnce(onError: string, clock: int, before: seq<Step>, s: State, steps: seq<Step>)
    requires Reaches(onError, clock, before, s) && NewestIsUnique(s.rows) && s.rows != []
    requires var newest := |s.rows| - 1; ActionNamed(s.rows[newest].command).Some? && !WasWritten(s, newest)
    requires Valid(s, steps) && Calm(steps) && (Cycles(s, steps) >= 2 || PollerSteps(steps) >= 5)
    requires Drained(Run(s, steps))
    ensures var actions, newest := Run(s, steps).actions, |s.rows| - 1;
            && actions != [] && Names(Last(actions).byte, newest)
            && Last(actions).action == ActionNamed(s.rows[newest].command).value
            && forall k :: 0 <= k < |actions| - 1 ==> !Names(actions[k].byte, newest)
  {
    hide Next, Inv, NewestIsUnique, Added;
    var s', newest, added := Run(s, steps), |s.rows| - 1, Added(s, steps);
    ReachedInv(onError, clock, before, s);
    LosslessRun(s, steps);
    RunKeepsInv(s, steps);
    CodesCarryActions(s.rows[newest].command);
    NewestIsWritten(onError, clock, before, s, steps);
    var b :| b in added && Names(b, newest);
    NewestIsWrittenLast(s, steps, b);
    assert ExecutedBytes(s'.actions) == Trail(s') == Trail(s) + added;
    assert Last(ExecutedBytes(s'.actions)) == b;
    LastActionIsNamed(s', newest, s.rows[newest].command);
    forall k | 0 <= k < |s'.actions| - 1
      ensures !Names(s'.actions[k].byte, newest)
    {
      assert ExecutedBytes(s'.actions)[k] == (Trail(s) + added)[k] == s'.actions[k].byte;
      if k < |Trail(s)| {
        NotOnTheTrail(s, newest, Trail(s)[k]);
      } else {
        OnlyOnce(s, steps, newest, k - |Trail(s)|);
      }
    }
  }

  lemma NewestIsWritten(onError: string, clock: int, before: seq<Step>, s: State, steps: seq<Step>)
    requires Reaches(onError, clock, before, s) && NewestIsUnique(s.rows) && s.rows != []
    requires ActionNamed(s.rows[|s.rows| - 1].command).Some? && !WasWritten(s, |s.rows| - 1)
    requires Valid(s, steps) && Calm(steps) && (Cycles(s, steps) >= 2 || PollerSteps(steps) >= 5)
    ensures exists b :: b in Added(s, steps) && Names(b, |s.rows| - 1)
    ensures |Run(s, steps).rows| == |s.rows| && Run(s, steps).rows[|s.rows| - 1].command == s.rows[|s.rows| - 1].command
  {
    hide Next, Inv, NewestIsUnique, Added;
    var newest := |s.rows| - 1;
    Converges(onError, clock, before, s, steps);
    DoneNeverReverts(s, steps);
    CodesCarryActions(s.rows[newest].command);
    ReachedInv(onError, clock, before, s);
    LosslessRun(s, steps);
    var b :| b in Run(s, steps).written && b.origin == FromServer(newest);
    assert b !in s.written;
    assert Names(b, newest);
  }

  lemma NotOnTheTrail(s: State, row: nat, b: Byte)
    requires Inv(s) && !WasWritten(s, row) && b in Trail(s)
    ensures !Names(b, row)
  {
    assert ChannelOk(s);
    SubseqMember(Trail(s), s.written, b);
  }

  lemma LastActionIsNamed(s: State, row: nat, command: string)
    requires Inv(s) && s.actions != [] && Names(Last(s.actions).byte, row)
    requires row < |s.rows| && s.rows[row].command == command
    ensures ActionNamed(command) == Some(Last(s.actions).action)
  {
    var e, executed := Last(s.actions), ExecutedBytes(s.actions);
    assert e in s.actions && Last(executed) == e.byte;
    assert Trail(s)[|executed| - 1] == e.byte;
    SubseqMember(Trail(s), s.written, e.byte);
    assert CarriesItsCommand(s, e.byte);
    CodesCarryActions(command);
  }

  lemma OnceInvariant(s: State)
    requires Inv(s)
    ensures OnceOk(s)
  {
  }

  /** Two bytes of one command would need a failure in between. */
  lemma OnlyOnce(s: State, steps: seq<Step>, row: nat, k: nat)
    requires Inv(s) && Valid(s, steps) && Calm(steps) && k < |Added(s, steps)| - 1
    requires Names(Last(Added(s, steps)), row)
    ensures !Names(Added(s, steps)[k], row)
  {
    hide Next, Inv, Added;
    var added, n := Added(s, steps), |s.written|;
    LosslessRun(s, steps);
    RunKeepsInv(s, steps);
    OnceInvariant(Run(s, steps));
    QuietLives(s, steps);
    var written := Run(s, steps).written;
    assert written[n + k] == added[k] && written[n + |added| - 1] == Last(added);
    assert added[k] in added && Last(added) in added;
  }

  /** From posting to execution: whatever happened before, a recognised command posted in a second of its own. */
  lemma PostedCommandIsExecutedOnce(onError: string, clock: int, before: seq<Step>, s: State, command: string,
                                    steps: seq<Step>)
    requires Reaches(onError, clock, before, s) && forall i :: 0 <= i < |s.rows| ==> s.rows[i].createdAt < s.clock
    requires ActionNamed(command).Some?
    requires var s1 := Next(s, Post(command));
             && Valid(s1, steps) && Calm(steps) && (Cycles(s1, steps) >= 2 || PollerSteps(steps) >= 5)
             && Drained(Run(s1, steps))
    ensures var actions := Run(Next(s, Post(command)), steps).actions;
            && actions != [] && Last(actions).action == ActionNamed(command).value
            && forall k :: 0 <= k < |actions| ==> (Names(actions[k].byte, |s.rows|) <==> k == |actions| - 1)
  {
    hide Valid, Run, Inv;
    var s1 := Next(s, Post(command));
    ReachedInv(onError, clock, before, s);
    NotYetWritten(s);
    ReachOneMore(onError, clock, before, s, Post(command));
    NewestIsExecutedOnce(onError, clock, before + [Post(command)], s1, steps);
  }

  lemma NotYetWritten(s: State)
    requires Inv(s)
    ensures !WasWritten(s, |s.rows|)
  {
    forall b | b in s.written
      ensures b.origin != FromServer(|s.rows|)
    {
      assert CarriesItsCommand(s, b);
    }
  }

  lemma ReachOneMore(onError: string, clock: int, before: seq<Step>, s: State, step: Step)
    requires Reaches(onError, clock, before, s) && Enabled(s, step)
    ensures Reaches(onError, clock, before + [step], Next(s, step))
  {
    hide Next;
    RunOne(s, step);
    RunConcat(Init(onError, clock), before, [step]);
  }

  /** From any state, the channel can be drained without posts, failures and losses, and without the poller. */
  lemma {:induction false} CanDrain(s: State) returns (steps: seq<Step>)
    ensures Valid(s, steps) && Calm(steps) && (forall i :: 0 <= i < |steps| ==> !IsPollerStep(steps[i]))
    ensures Drained(Run(s, steps)) && Run(s, steps).written == s.written
    decreases 2 * |s.pipe| + |s.queue|
  {
    if s.pipe == [] && s.queue == [] {
      steps := [];
    } else {
      var step := if s.pipe != [] then ReadQueue else Process;
      var others := CanDrain(Next(s, step));
      RunCons(s, step, others);
      steps := [step] + others;
    }
  }

  lemma {:induction false} CanPoll(s: State, n: nat) returns (steps: seq<Step>)
    ensures Valid(s, steps) && Calm(steps) && PollerSteps(steps) == n
    decreases n
  {
    if n == 0 {
      steps := [];
    } else {
      var step := PollerCanStep(s);
      var others := CanPoll(Next(s, step), n - 1);
      RunCons(s, step, others);
      steps := [step] + others;
      assert steps[1..] == others;
    }
  }

  lemma {:induction false} PollerStepsConcat(a: seq<Step>, b: seq<Step>)
    ensures PollerSteps(a + b) == PollerSteps(a) + PollerSteps(b)
  {
    if a == [] {
      assert a + b == b;
    } else {
      PollerStepsConcat(a[1..], b);
      assert (a + b)[1..] == a[1..] + b;
    }
  }

  /** Such a period is always possible: every state has a quiet, lossless run that converges and drains. */
  lemma CanDeliver(s: State) returns (steps: seq<Step>)
    ensures Valid(s, steps) && Calm(steps) && PollerSteps(steps) >= 5 && Drained(Run(s, steps))
  {
    hide Next;
    var polling := CanPoll(s, 5);
    var draining := CanDrain(Run(s, polling));
    RunConcat(s, polling, draining);
    PollerStepsConcat(polling, draining);
    steps := polling + draining;
  }
}
