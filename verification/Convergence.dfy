/** Once the operator is quiet and nothing fails, the newest command gets through. */
module Convergence {
  import opened Commands
  import opened Protocol
  import opened Safety

  /** No new command, no failed poll, no poller failure. The FIFO may still lose bytes, and the controller may crash. */
  predicate Quiet(step: Step)
  {
    !(step.Post? || step.ConnectionError? || step.ReplyLost? || step.Crash?)
  }

  predicate AllQuiet(steps: seq<Step>)
  {
    forall i :: 0 <= i < |steps| ==> Quiet(steps[i])
  }

  /** The newest command's timestamp is not shared. */
  ghost predicate NewestIsUnique(rows: seq<Row>)
  {
    forall i :: 0 <= i < |rows| - 1 ==> rows[i].createdAt < rows[|rows| - 1].createdAt
  }

  ghost predicate NewestDone(s: State)
  {
    s.rows == [] || s.rows[|s.rows| - 1].done
  }

  /** The step brings the poller back to the head of its loop. */
  ghost predicate EndsCycle(s: State, step: Step)
    requires Enabled(s, step)
  {
    IsPollerStep(step) && Next(s, step).poller == Idle
  }

  ghost function Cycles(s: State, steps: seq<Step>): nat
    requires Valid(s, steps)
    decreases |steps|
  {
    if steps == [] then 0
    else (if EndsCycle(s, steps[0]) then 1 else 0) + Cycles(Next(s, steps[0]), steps[1..])
  }

  ghost function PollerSteps(steps: seq<Step>): nat
  {
    if steps == [] then 0 else (if IsPollerStep(steps[0]) then 1 else 0) + PollerSteps(steps[1..])
  }

  ghost predicate WorksOnNewest(s: State)
  {
    match s.poller
    case Fetched(_, FromServer(row)) => row == |s.rows| - 1
    case Acknowledging(row) => row == |s.rows| - 1
    case _ => false
  }

  /** The newest command is done, and the poller has no other command in hand. */
  ghost predicate AtRest(s: State)
  {
    NewestDone(s) && s.poller == Idle
  }

  /** How many cycles it takes to come to rest. */
  ghost function CyclesLeft(s: State): nat
  {
    if AtRest(s) then 0
    else if NewestDone(s) || s.poller == Idle || WorksOnNewest(s) then 1
    else 2
  }

  /** How many steps of the poller it takes to come to rest. */
  ghost function StepsLeft(s: State): nat
  {
    var afterwards := if NewestDone(s) then 0 else 3;
    match s.poller
    case Idle => afterwards
    case Fetched(_, FromServer(_)) => if WorksOnNewest(s) then 2 else 2 + afterwards
    case Fetched(_, Failsafe) => 1 + afterwards
    case Acknowledging(_) => if WorksOnNewest(s) then 1 else 1 + afterwards
  }

  lemma NewestRow(rows: seq<Row>, row: nat)
    requires NewestIsUnique(rows) && IsNewest(rows, row)
    ensures row == |rows| - 1
  {
    assert rows[|rows| - 1].createdAt <= rows[row].createdAt;
  }

  lemma QuietStepKeeps(s: State, step: Step)
    requires Enabled(s, step) && Quiet(step)
    ensures var s' := Next(s, step);
            && |s'.rows| == |s.rows|
            && (NewestIsUnique(s.rows) ==> NewestIsUnique(s'.rows))
            && (NewestDone(s) ==> NewestDone(s'))
            && (!IsPollerStep(step) ==> s'.poller == s.poller && s'.rows == s.rows && s'.written == s.written)
  {
  }

  /** Ranking: every poller step, and every end of a cycle, brings the system closer to rest. */
  lemma QuietStepProgresses(s: State, step: Step)
    requires Inv(s) && Enabled(s, step) && Quiet(step) && NewestIsUnique(s.rows)
    ensures var s' := Next(s, step);
            && StepsLeft(s') <= StepsLeft(s)
            && CyclesLeft(s') <= CyclesLeft(s)
            && (IsPollerStep(step) && !AtRest(s) ==> StepsLeft(s') < StepsLeft(s))
            && (EndsCycle(s, step) && !AtRest(s) ==> CyclesLeft(s') < CyclesLeft(s))
  {
    hide Inv;
    PollerInvariant(s);
    if step.Fetch? {
      NewestRow(s.rows, step.row);
    }
  }

  /** At rest the poller writes nothing and changes nothing. */
  lemma {:induction false} StaysAtRest(s: State, steps: seq<Step>)
    requires Valid(s, steps) && AllQuiet(steps) && NewestIsUnique(s.rows) && AtRest(s)
    ensures var s' := Run(s, steps); AtRest(s') && s'.rows == s.rows && s'.written == s.written
    decreases |steps|
  {
    if steps == [] {
    } else {
      hide NewestIsUnique;
      assert Quiet(steps[0]);
      if steps[0].Fetch? {
        NewestRow(s.rows, steps[0].row);
      }
      QuietStepKeeps(s, steps[0]);
      assert AllQuiet(steps[1..]);
      StaysAtRest(Next(s, steps[0]), steps[1..]);
    }
  }

  lemma {:induction false} QuietRunProgresses(s: State, steps: seq<Step>)
    requires Inv(s) && Valid(s, steps) && AllQuiet(steps) && NewestIsUnique(s.rows)
    ensures AtRest(Run(s, steps)) || StepsLeft(Run(s, steps)) + PollerSteps(steps) <= StepsLeft(s)
    ensures AtRest(Run(s, steps)) || CyclesLeft(Run(s, steps)) + Cycles(s, steps) <= CyclesLeft(s)
    ensures |Run(s, steps).rows| == |s.rows| && NewestIsUnique(Run(s, steps).rows)
    decreases |steps|
  {
    if steps == [] {
    } else {
      hide Inv, Next, StepsLeft, CyclesLeft, EndsCycle, NewestIsUnique, IsPollerStep, AtRest;
      var s' := Next(s, steps[0]);
      assert Quiet(steps[0]);
      StepKeepsInv(s, steps[0]);
      QuietStepKeeps(s, steps[0]);
      QuietStepProgresses(s, steps[0]);
      assert AllQuiet(steps[1..]);
      QuietRunProgresses(s', steps[1..]);
      if AtRest(s) {
        StaysAtRest(s, steps);
      }
    }
  }

  lemma {:induction false} DoneStaysDone(s: State, steps: seq<Step>)
    requires Valid(s, steps) && AllQuiet(steps) && NewestDone(s)
    ensures NewestDone(Run(s, steps))
    decreases |steps|
  {
    if steps == [] {
    } else {
      hide Next, NewestIsUnique;
      assert Quiet(steps[0]);
      QuietStepKeeps(s, steps[0]);
      assert AllQuiet(steps[1..]);
      DoneStaysDone(Next(s, steps[0]), steps[1..]);
    }
  }

  /** Two quiet cycles, or five quiet steps of the poller, from any reachable state: the newest command is
      done, its code was written if it has one, and the poller is at the head of its loop. */
  lemma Converges(onError: string, clock: int, before: seq<Step>, s: State, steps: seq<Step>)
    requires Reaches(onError, clock, before, s) && NewestIsUnique(s.rows) && s.rows != []
    requires Valid(s, steps) && AllQuiet(steps)
    requires Cycles(s, steps) >= 2 || PollerSteps(steps) >= 5
    ensures var s', newest := Run(s, steps), |s.rows| - 1;
            && |s'.rows| == |s.rows| && s'.rows[newest].done && s'.poller == Idle && NewestIsUnique(s'.rows)
            && (CodeOf(s'.rows[newest].command).Some? ==> WasWritten(s', newest))
  {
    hide Next;
    ReachedInv(onError, clock, before, s);
    QuietRunProgresses(s, steps);
    RunKeepsInv(s, steps);
  }

  /** From then on nothing more happens: whatever quiet run follows leaves the table and what was written as
      they are. */
  lemma SilentAfterConvergence(onError: string, clock: int, before: seq<Step>, s: State, steps: seq<Step>,
                               later: seq<Step>)
    requires Reaches(onError, clock, before, s) && NewestIsUnique(s.rows)
    requires Valid(s, steps) && AllQuiet(steps) && (Cycles(s, steps) >= 2 || PollerSteps(steps) >= 5)
    requires Valid(Run(s, steps), later) && AllQuiet(later)
    ensures var s', s'' := Run(s, steps), Run(Run(s, steps), later);
            s''.rows == s'.rows && s''.written == s'.written && s''.poller == Idle
  {
    hide Next;
    ReachedInv(onError, clock, before, s);
    QuietRunProgresses(s, steps);
    StaysAtRest(Run(s, steps), later);
  }

  /** The poller is never stuck: some quiet step of its own is always possible. */
  lemma PollerCanStep(s: State) returns (step: Step)
    ensures Enabled(s, step) && Quiet(step) && IsPollerStep(step)
  {
    match s.poller {
      case Idle =>
        if s.rows == [] {
          step := FetchEmpty;
        } else {
          NewestExists(s.rows);
          var row: nat :| IsNewest(s.rows, row);
          step := Fetch(row);
        }
      case Fetched(_, _) => step := Write;
      case Acknowledging(_) => step := Acknowledge;
    }
  }

  /** A command with a later one on record is never fetched again, whatever happens. */
  lemma SupersededNeverFetched(s: State, steps: seq<Step>, row: nat, later: nat)
    requires Valid(s, steps) && row < |s.rows| && later < |s.rows| && s.rows[row].createdAt < s.rows[later].createdAt
    ensures !Enabled(Run(s, steps), Fetch(row))
  {
    DoneNeverReverts(s, steps);
  }

  // ---------- Tied timestamps ----------

  function Repeat(step: Step, n: nat): (steps: seq<Step>)
    ensures |steps| == n
  {
    if n == 0 then [] else [step] + Repeat(step, n - 1)
  }

  /** Fetching a done row of maximal timestamp is a cycle that changes nothing, as often as it happens. */
  lemma {:induction false} FetchingDoneForever(s: State, row: nat, n: nat)
    requires s.poller == Idle && IsNewest(s.rows, row) && s.rows[row].done
    ensures var steps := Repeat(Fetch(row), n);
            AllQuiet(steps) && Valid(s, steps) && Run(s, steps) == s && Cycles(s, steps) == n
  {
    if n == 0 {
    } else {
      FetchingDoneForever(s, row, n - 1);
      assert Repeat(Fetch(row), n)[1..] == Repeat(Fetch(row), n - 1);
    }
  }

  lemma {:induction false} CyclesConcat(s: State, a: seq<Step>, b: seq<Step>)
    requires Valid(s, a) && Valid(Run(s, a), b)
    ensures Valid(s, a + b) && Cycles(s, a + b) == Cycles(s, a) + Cycles(Run(s, a), b)
    decreases |a|
  {
    if a == [] {
      assert a + b == b;
    } else {
      hide Next;
      CyclesConcat(Next(s, a[0]), a[1..], b);
      assert (a + b)[1..] == a[1..] + b;
    }
  }

  /** What the poller still has to do in its current turn. */
  function RestOfTurn(s: State): seq<Step>
  {
    match s.poller
    case Idle => []
    case Fetched(_, FromServer(_)) => [Write, Acknowledge]
    case Fetched(_, Failsafe) => [Write]
    case Acknowledging(_) => [Acknowledge]
  }

  /** Finishing a turn that is not about the newest command leaves that command, and all timestamps, alone. */
  lemma FinishTurn(s: State)
    requires Inv(s) && !WorksOnNewest(s)
    ensures var steps := RestOfTurn(s);
            && AllQuiet(steps) && Valid(s, steps)
            && Run(s, steps).poller == Idle && NewestDone(Run(s, steps)) == NewestDone(s)
            && |Run(s, steps).rows| == |s.rows|
            && forall i :: 0 <= i < |s.rows| ==> Run(s, steps).rows[i].createdAt == s.rows[i].createdAt
  {
    hide Inv;
    PollerInvariant(s);
    match s.poller {
      case Idle =>
      case Fetched(_, Failsafe) => RunOne(s, Write);
      case Fetched(_, FromServer(_)) =>
        RunOne(Next(s, Write), Acknowledge);
        RunCons(s, Write, [Acknowledge]);
      case Acknowledging(_) => RunOne(s, Acknowledge);
    }
  }

  lemma RunOne(s: State, step: Step)
    requires Enabled(s, step)
    ensures Valid(s, [step]) && Run(s, [step]) == Next(s, step)
  {
    assert [step][1..] == [];
  }

  lemma RunCons(s: State, step: Step, steps: seq<Step>)
    requires Enabled(s, step) && Valid(Next(s, step), steps)
    ensures Valid(s, [step] + steps) && Run(s, [step] + steps) == Run(Next(s, step), steps)
  {
    assert ([step] + steps)[1..] == steps;
  }

  /** A poller that always gets the other of two tied rows never reaches the newest command, unless it has it
      in hand already. */
  lemma TiedNewestCanStarve(s: State, other: nat, n: nat) returns (steps: seq<Step>)
    requires Inv(s) && !NewestDone(s) && !WorksOnNewest(s)
    requires IsNewest(s.rows, other) && other < |s.rows| - 1
    ensures AllQuiet(steps) && Valid(s, steps) && Cycles(s, steps) >= n && !NewestDone(Run(s, steps))
  {
    hide Inv, Next;
    FinishTurn(s);
    var s0 := Run(s, RestOfTurn(s));
    var later := StarveFromIdle(s0, other, n);
    RunConcat(s, RestOfTurn(s), later);
    CyclesConcat(s, RestOfTurn(s), later);
    steps := RestOfTurn(s) + later;
  }

  lemma StarveFromIdle(s: State, other: nat, n: nat) returns (steps: seq<Step>)
    requires s.poller == Idle && IsNewest(s.rows, other) && other < |s.rows| - 1 && !NewestDone(s)
    ensures AllQuiet(steps) && Valid(s, steps) && Cycles(s, steps) >= n && !NewestDone(Run(s, steps))
  {
    var first: seq<Step> := if s.rows[other].done then [] else [Fetch(other), Write, Acknowledge];
    ServeOne(s, other);
    var s1 := Run(s, first);
    FetchingDoneForever(s1, other, n);
    RunConcat(s, first, Repeat(Fetch(other), n));
    CyclesConcat(s, first, Repeat(Fetch(other), n));
    steps := first + Repeat(Fetch(other), n);
  }

  lemma ServeOne(s: State, other: nat)
    requires s.poller == Idle && IsNewest(s.rows, other)
    ensures var steps: seq<Step> := if s.rows[other].done then [] else [Fetch(other), Write, Acknowledge];
            && AllQuiet(steps) && Valid(s, steps)
            && Run(s, steps).poller == Idle
            && Run(s, steps).rows == s.rows[other := s.rows[other].(done := true)]
  {
    if !s.rows[other].done {
      var s1 := Next(s, Fetch(other));
      RunOne(Next(s1, Write), Acknowledge);
      RunCons(s1, Write, [Acknowledge]);
      assert [Fetch(other), Write, Acknowledge] == [Fetch(other)] + [Write, Acknowledge];
      RunCons(s, Fetch(other), [Write, Acknowledge]);
    }
  }

  ghost predicate AlwaysConverges(s: State)
  {
    forall steps | Valid(s, steps) && AllQuiet(steps) && Cycles(s, steps) >= 2 :: NewestDone(Run(s, steps))
  }

  /** A turn that is about the newest command ends with it done, ties or not. */
  lemma {:induction false} TurnInHandFinishes(s: State, steps: seq<Step>)
    requires Inv(s) && Valid(s, steps) && AllQuiet(steps) && WorksOnNewest(s) && Cycles(s, steps) >= 1
    ensures NewestDone(Run(s, steps))
    decreases |steps|
  {
    hide Inv, Next, NewestIsUnique;
    var s' := Next(s, steps[0]);
    assert Quiet(steps[0]) && AllQuiet(steps[1..]);
    StepKeepsInv(s, steps[0]);
    TurnInHandStep(s, steps[0]);
    if NewestDone(s') {
      DoneStaysDone(s', steps[1..]);
    } else {
      TurnInHandFinishes(s', steps[1..]);
    }
  }

  lemma TurnInHandStep(s: State, step: Step)
    requires Inv(s) && WorksOnNewest(s) && Enabled(s, step) && Quiet(step)
    ensures NewestDone(Next(s, step)) || (WorksOnNewest(Next(s, step)) && !EndsCycle(s, step))
  {
    hide Inv;
    PollerInvariant(s);
  }

  /** The exact condition, for every reachable state: the newest command is already done, or no other command
      shares its timestamp, or the poller has it in hand. */
  lemma ConvergesExactly(onError: string, clock: int, before: seq<Step>, s: State)
    requires Reaches(onError, clock, before, s)
    ensures AlwaysConverges(s) <==> NewestDone(s) || NewestIsUnique(s.rows) || WorksOnNewest(s)
  {
    hide Next, Valid, Cycles, Run, WorksOnNewest;
    ReachedInv(onError, clock, before, s);
    if NewestDone(s) || NewestIsUnique(s.rows) || WorksOnNewest(s) {
      forall steps | Valid(s, steps) && AllQuiet(steps) && Cycles(s, steps) >= 2
        ensures NewestDone(Run(s, steps))
      {
        if NewestDone(s) {
          DoneStaysDone(s, steps);
        } else if NewestIsUnique(s.rows) {
          QuietRunProgresses(s, steps);
        } else {
          TurnInHandFinishes(s, steps);
        }
      }
    } else {
      var other: nat :| other < |s.rows| - 1 && s.rows[other].createdAt >= s.rows[|s.rows| - 1].createdAt;
      TableInOrder(s);
      var steps := TiedNewestCanStarve(s, other, 2);
    }
  }

  /** Two commands in the same second: a reachable run after which the later one can be starved for any number of
      cycles. */
  lemma TiedPostsExample(n: nat) returns (s: State, steps: seq<Step>)
    ensures Reaches("loiter", 0, [Post("rtl"), Post("land")], s) && s.rows[1].command == "land"
    ensures AllQuiet(steps) && Valid(s, steps) && Cycles(s, steps) >= n && !NewestDone(Run(s, steps))
  {
    var s0 := Init("loiter", 0);
    var s1 := Next(s0, Post("rtl"));
    s := Next(s1, Post("land"));
    assert [Post("rtl"), Post("land")][1..] == [Post("land")];
    assert Valid(s1, [Post("land")]) && Run(s1, [Post("land")]) == s;
    steps := StarveFromIdle(s, 0, n);
  }

  lemma TableInOrder(s: State)
    requires Inv(s)
    ensures TableOk(s)
  {
  }
}
