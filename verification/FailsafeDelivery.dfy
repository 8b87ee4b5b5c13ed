/** A poll that cannot connect makes the drone do what `on_error` names: the byte is written, counted and executed. */
module FailsafeDelivery {
  import opened Sequences
  import opened Options
  import opened Commands
  import opened Protocol
  import opened Safety
  import opened Losses
  import opened Convergence
  import opened Delivery

  predicate FromFailedPoll(b: Byte)
  {
    b.origin == Failsafe
  }

  /** The poller has the failsafe command in hand. */
  predicate HasFailsafe(s: State)
  {
    s.poller.Fetched? && s.poller.origin == Failsafe
  }

  /** One byte goes into the pipe, and the controller's table makes it the action `on_error` names; none does if
      that is no command. */
  lemma FailsafeIsWritten(onError: string, clock: int, before: seq<Step>, s: State)
    requires Reaches(onError, clock, before, s) && HasFailsafe(s)
    ensures var s' := Next(s, Write);
            && s' == s.(poller := Idle, written := s'.written, pipe := s'.pipe)
            && if ActionNamed(onError).Some?
               then
                 && |s'.written| == |s.written| + 1 && s.written <= s'.written
                 && s'.pipe == s.pipe + [Last(s'.written)] && FromFailedPoll(Last(s'.written))
                 && ActionFor([Last(s'.written).code]) == ActionNamed(onError)
               else s'.written == s.written && s'.pipe == s.pipe
  {
    ReachedInv(onError, clock, before, s);
    CodesCarryActions(onError);
  }

  // ---------- Over runs ----------

  /** How many failed polls of a run get to write: those not followed by a crash before the next write. */
  function Served(steps: seq<Step>, pending: bool): nat
  {
    if steps == [] then 0
    else
      (if steps[0].Write? && pending then 1 else 0)
      + Served(steps[1..], steps[0].ConnectionError? || (pending && !IsPollerStep(steps[0])))
  }

  function FailsafeBytes(bytes: seq<Byte>): nat
  {
    |Filter(FromFailedPoll, bytes)|
  }

  lemma FailsafeStep(s: State, step: Step)
    requires Inv(s) && Enabled(s, step)
    ensures HasFailsafe(Next(s, step)) <==> step.ConnectionError? || (HasFailsafe(s) && !IsPollerStep(step))
    ensures FailsafeBytes(Next(s, step).written) == FailsafeBytes(s.written) +
              if step.Write? && HasFailsafe(s) && ActionNamed(s.onError).Some? then 1 else 0
    ensures Next(s, step).onError == s.onError
  {
    hide Inv, Filter;
    PollerInvariant(s);
    if step.Write? {
      CodesCarryActions(s.onError);
      FilterConcat(FromFailedPoll, s.written, BytesFor(s));
      FailsafeCode(s.poller.command, s.poller.origin, s.failures);
    }
  }

  lemma FailsafeCode(command: string, origin: Origin, life: nat)
    ensures FailsafeBytes(CodeBytes(command, origin, life))
            == if origin == Failsafe && CodeOf(command).Some? then 1 else 0
  {
    if CodeOf(command).Some? {
      FilterOne(FromFailedPoll, Byte(CodeOf(command).value, origin, life));
    }
  }

  /** Of any run: one failsafe byte is written for every failed poll that gets to write, if `on_error` is a command,
      and none otherwise. */
  lemma {:induction false} FailsafeCount(s: State, steps: seq<Step>)
    requires Inv(s) && Valid(s, steps)
    ensures FailsafeBytes(Run(s, steps).written) == FailsafeBytes(s.written) +
              if ActionNamed(s.onError).Some? then Served(steps, HasFailsafe(s)) else 0
    decreases |steps|
  {
    hide Inv, Next, HasFailsafe, FailsafeBytes;
    if steps == [] {
    } else {
      StepKeepsInv(s, steps[0]);
      FailsafeStep(s, steps[0]);
      FailsafeCount(Next(s, steps[0]), steps[1..]);
    }
  }

  lemma FailsafeCountFromStart(onError: string, clock: int, steps: seq<Step>, s: State)
    requires Reaches(onError, clock, steps, s)
    ensures FailsafeBytes(s.written) == if ActionNamed(onError).Some? then Served(steps, false) else 0
  {
    hide Inv;
    InitInv(onError, clock);
    FailsafeCount(Init(onError, clock), steps);
  }

  // ---------- Execution ----------

  lemma {:induction false} NoMoreFailsafe(s: State, steps: seq<Step>)
    requires Inv(s) && Valid(s, steps) && AllQuiet(steps) && !HasFailsafe(s)
    ensures forall b :: b in Added(s, steps) ==> !FromFailedPoll(b)
    decreases |steps|
  {
    hide Inv, Next;
    if steps == [] {
    } else {
      assert Quiet(steps[0]) && AllQuiet(steps[1..]);
      StepKeepsInv(s, steps[0]);
      FailsafeStep(s, steps[0]);
      NoMoreFailsafe(Next(s, steps[0]), steps[1..]);
    }
  }

  lemma QuietFailsafeStep(s: State, step: Step)
    requires Inv(s) && Enabled(s, step) && Quiet(step) && HasFailsafe(s) && ActionNamed(s.onError).Some?
    ensures if IsPollerStep(step)
            then |WrittenBy(s, step)| == 1 && FromFailedPoll(WrittenBy(s, step)[0]) && !HasFailsafe(Next(s, step))
            else WrittenBy(s, step) == [] && HasFailsafe(Next(s, step))
  {
    hide Inv;
    PollerInvariant(s);
    CodesCarryActions(s.onError);
  }

  /** In a quiet run the failsafe command in hand is written first, and no other follows. */
  lemma {:induction false} FailsafeIsWrittenFirst(s: State, steps: seq<Step>)
    requires Inv(s) && Valid(s, steps) && AllQuiet(steps) && HasFailsafe(s) && ActionNamed(s.onError).Some?
    requires PollerSteps(steps) >= 1
    ensures var added := Added(s, steps);
            && added != [] && FromFailedPoll(added[0])
            && forall k :: 0 < k < |added| ==> !FromFailedPoll(added[k])
    decreases |steps|
  {
    hide Inv, Next, HasFailsafe, FromFailedPoll, WrittenBy;
    assert Quiet(steps[0]) && AllQuiet(steps[1..]);
    var s', now, later := Next(s, steps[0]), WrittenBy(s, steps[0]), Added(Next(s, steps[0]), steps[1..]);
    StepKeepsInv(s, steps[0]);
    FailsafeStep(s, steps[0]);
    QuietFailsafeStep(s, steps[0]);
    if IsPollerStep(steps[0]) {
      NoMoreFailsafe(s', steps[1..]);
      forall k | 0 < k < |now + later|
        ensures !FromFailedPoll((now + later)[k])
      {
        assert (now + later)[k] == later[k - 1] && later[k - 1] in later;
      }
    } else {
      FailsafeIsWrittenFirst(s', steps[1..]);
      assert now + later == later;
    }
  }

  /** The failsafe command in hand is executed exactly once in a quiet, lossless run that lets the poller act and
      ends with nothing on its way: right after what was on its way before, and never again. */
  lemma FailsafeIsExecutedOnce(onError: string, clock: int, before: seq<Step>, s: State, steps: seq<Step>)
    requires Reaches(onError, clock, before, s) && HasFailsafe(s) && ActionNamed(onError).Some?
    requires Valid(s, steps) && Calm(steps) && PollerSteps(steps) >= 1 && Drained(Run(s, steps))
    ensures var actions, n := Run(s, steps).actions, |Trail(s)|;
            && n < |actions| && ExecutedBytes(actions)[..n] == Trail(s)
            && FromFailedPoll(actions[n].byte) && actions[n].action == ActionNamed(onError).value
            && forall k :: n < k < |actions| ==> !FromFailedPoll(actions[k].byte)
  {
    hide Next, Inv, Added, HasFailsafe;
    var s', n, added := Run(s, steps), |Trail(s)|, Added(s, steps);
    ReachedInv(onError, clock, before, s);
    LosslessRun(s, steps);
    RunKeepsInv(s, steps);
    RunKeepsConfiguration(s, steps);
    FailsafeIsWrittenFirst(s, steps);
    var executed := ExecutedBytes(s'.actions);
    assert executed == Trail(s') == Trail(s) + added;
    assert s'.actions[n].byte == executed[n] == added[0];
    FailsafeActionIsNamed(s', n);
    forall k | n < k < |s'.actions|
      ensures !FromFailedPoll(s'.actions[k].byte)
    {
      assert s'.actions[k].byte == executed[k] == added[k - n];
    }
  }

  lemma FailsafeActionIsNamed(s: State, n: nat)
    requires Inv(s) && n < |s.actions| && FromFailedPoll(s.actions[n].byte)
    ensures ActionNamed(s.onError) == Some(s.actions[n].action)
  {
    var e := s.actions[n];
    assert e in s.actions && Trail(s)[n] == e.byte;
    SubseqMember(Trail(s), s.written, e.byte);
    assert CarriesItsCommand(s, e.byte);
    CodesCarryActions(s.onError);
  }

  /** From the failed poll on, whatever happened before. */
  lemma FailedPollIsExecutedOnce(onError: string, clock: int, before: seq<Step>, s: State, steps: seq<Step>)
    requires Reaches(onError, clock, before, s) && s.poller == Idle && ActionNamed(onError).Some?
    requires var s1 := Next(s, ConnectionError);
             Valid(s1, steps) && Calm(steps) && PollerSteps(steps) >= 1 && Drained(Run(s1, steps))
    ensures var actions, n := Run(Next(s, ConnectionError), steps).actions, |Trail(s)|;
            && n < |actions| && ExecutedBytes(actions)[..n] == Trail(s)
            && FromFailedPoll(actions[n].byte) && actions[n].action == ActionNamed(onError).value
            && forall k :: n < k < |actions| ==> !FromFailedPoll(actions[k].byte)
  {
    hide Valid, Run, Inv;
    ReachOneMore(onError, clock, before, s, ConnectionError);
    FailsafeIsExecutedOnce(onError, clock, before + [ConnectionError], Next(s, ConnectionError), steps);
  }
}
