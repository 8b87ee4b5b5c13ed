/** Polls that fail to connect are transparent to everything but the failsafe bytes they write. */
module FailsafePolls {
  import opened Sequences
  import opened Commands
  import opened Protocol

  predicate IsReal(b: Byte) { b.origin != Failsafe }

  predicate IsRealItem(item: Item) { item.Text? ==> IsReal(item.byte) }

  predicate IsRealAction(e: Executed) { IsReal(e.byte) }

  /** The state without anything that stems from a failed poll. */
  function Erase(s: State): State
  {
    s.(written := Filter(IsReal, s.written), pipe := Filter(IsReal, s.pipe), queue := Filter(IsRealItem, s.queue),
       actions := Filter(IsRealAction, s.actions),
       poller := if s.poller.Fetched? && s.poller.origin == Failsafe then Idle else s.poller)
  }

  predicate HandlesFailsafe(s: State, step: Step)
  {
    match step
    case ConnectionError => true
    case Write => s.poller.Fetched? && s.poller.origin == Failsafe
    case ReadDiscard => s.pipe != [] && s.pipe[0].origin == Failsafe
    case ReadQueue => s.pipe != [] && s.pipe[0].origin == Failsafe
    case Lose(i) => i < |s.pipe| && s.pipe[i].origin == Failsafe
    case Process => s.queue != [] && s.queue[0].Text? && s.queue[0].byte.origin == Failsafe
    case _ => false
  }

  /** What is left of a step: nothing if it handles a failsafe byte, and positions in the FIFO are recounted. */
  function EraseStep(s: State, step: Step): (steps: seq<Step>)
    ensures |steps| <= 1 && (steps != [] ==> !steps[0].ConnectionError?)
  {
    if HandlesFailsafe(s, step) then []
    else match step
         case Lose(i) => if i < |s.pipe| then [Lose(|Filter(IsReal, s.pipe[..i])|)] else []
         case _ => [step]
  }

  ghost function EraseRun(s: State, steps: seq<Step>): (erased: seq<Step>)
    requires Valid(s, steps)
    ensures forall i :: 0 <= i < |erased| ==> !erased[i].ConnectionError?
    decreases |steps|
  {
    if steps == [] then [] else EraseStep(s, steps[0]) + EraseRun(Next(s, steps[0]), steps[1..])
  }

  /** Removing one byte from the FIFO and erasing commute. */
  lemma RemoveReal(pipe: seq<Byte>, i: nat)
    requires i < |pipe|
    ensures var left, k := Filter(IsReal, pipe), |Filter(IsReal, pipe[..i])|;
            if pipe[i].origin == Failsafe
            then Filter(IsReal, pipe[..i] + pipe[i + 1..]) == left
            else k < |left| && left[k] == pipe[i]
                 && Filter(IsReal, pipe[..i] + pipe[i + 1..]) == left[..k] + left[k + 1..]
  {
    hide Filter;
    assert pipe == pipe[..i] + [pipe[i]] + pipe[i + 1..];
    FilterConcat(IsReal, pipe[..i] + [pipe[i]], pipe[i + 1..]);
    FilterConcat(IsReal, pipe[..i], [pipe[i]]);
    FilterConcat(IsReal, pipe[..i], pipe[i + 1..]);
    FilterOne(IsReal, pipe[i]);
  }

  ghost predicate Simulates(s: State, step: Step)
    requires Enabled(s, step)
  {
    var left := EraseStep(s, step);
    if left == [] then Erase(Next(s, step)) == Erase(s)
    else Enabled(Erase(s), left[0]) && Next(Erase(s), left[0]) == Erase(Next(s, step))
  }

  lemma PollerSimulates(s: State, step: Step)
    requires Enabled(s, step) && (step.Post? || step.Tick? || IsPollerStep(step))
    ensures Simulates(s, step)
  {
    hide Filter;
    if step.Write? {
      FilterCodeBytes(s.poller.command, s.poller.origin, s.failures);
      FilterConcat(IsReal, s.pipe, BytesFor(s));
      FilterConcat(IsReal, s.written, BytesFor(s));
    }
  }

  lemma FilterCodeBytes(command: string, origin: Origin, life: nat)
    ensures Filter(IsReal, CodeBytes(command, origin, life))
            == if origin == Failsafe then [] else CodeBytes(command, origin, life)
  {
    if CodeOf(command).Some? {
      FilterOne(IsReal, Byte(CodeOf(command).value, origin, life));
    }
  }

  lemma ReaderSimulates(s: State, step: Step)
    requires Enabled(s, step) && (step.ReadDiscard? || step.ReadQueue? || step.ReadEof?)
    ensures Simulates(s, step)
  {
    hide Filter;
    if step.ReadEof? {
      FilterConcat(IsRealItem, s.queue, [EndOfFile]);
      FilterOne(IsRealItem, EndOfFile);
    } else {
      FilterHead(IsReal, s.pipe);
      FilterConcat(IsRealItem, s.queue, [Text(s.pipe[0])]);
      FilterOne(IsRealItem, Text(s.pipe[0]));
    }
  }

  lemma LossSimulates(s: State, i: nat)
    requires Enabled(s, Lose(i))
    ensures Simulates(s, Lose(i))
  {
    hide Filter;
    RemoveReal(s.pipe, i);
  }

  lemma NothingLeft()
    ensures Filter(IsRealItem, []) == []
  {
  }

  lemma ControllerSimulates(s: State, step: Step)
    requires Enabled(s, step) && (step.Process? || step.ControllerCrash?)
    ensures Simulates(s, step)
  {
    NothingLeft();
    hide Filter;
    if step.Process? {
      FilterHead(IsRealItem, s.queue);
      if s.queue[0].Text? {
        var byte := s.queue[0].byte;
        var action := ActionFor([byte.code]);
        if action.Some? {
          FilterConcat(IsRealAction, s.actions, [Executed(action.value, byte)]);
          FilterOne(IsRealAction, Executed(action.value, byte));
        }
      }
    }
  }

  lemma StepSimulates(s: State, step: Step)
    requires Enabled(s, step)
    ensures Simulates(s, step)
  {
    hide Simulates;
    match step {
      case ReadDiscard => ReaderSimulates(s, step);
      case ReadQueue => ReaderSimulates(s, step);
      case ReadEof => ReaderSimulates(s, step);
      case Lose(i) => LossSimulates(s, i);
      case Process => ControllerSimulates(s, step);
      case ControllerCrash => ControllerSimulates(s, step);
      case _ => PollerSimulates(s, step);
    }
  }

  /** Erasing every failed poll, and every later trace of it, from any run leaves a run in which no poll
      fails to connect. It ends with the same table, clock and poller failures, and with exactly the
      server-originated part of what was written, is in flight, and was executed. */
  lemma {:induction false} FailsafeTransparent(s: State, steps: seq<Step>)
    requires Valid(s, steps)
    ensures Valid(Erase(s), EraseRun(s, steps))
    ensures Run(Erase(s), EraseRun(s, steps)) == Erase(Run(s, steps))
    decreases |steps|
  {
    if steps == [] {
    } else {
      hide Next, Erase, EraseStep, Enabled;
      var s', left := Next(s, steps[0]), EraseStep(s, steps[0]);
      StepSimulates(s, steps[0]);
      FailsafeTransparent(s', steps[1..]);
      if left == [] {
        assert EraseRun(s, steps) == EraseRun(s', steps[1..]);
      } else {
        assert EraseRun(s, steps)[0] == left[0] && EraseRun(s, steps)[1..] == EraseRun(s', steps[1..]);
      }
    }
  }

  /** In particular, from the start: the erased run is a run of the same deployment. */
  lemma FailsafeTransparentFromStart(onError: string, clock: int, steps: seq<Step>)
    requires Valid(Init(onError, clock), steps)
    ensures var erased := EraseRun(Init(onError, clock), steps);
            && Valid(Init(onError, clock), erased)
            && (forall i :: 0 <= i < |erased| ==> !erased[i].ConnectionError?)
            && Run(Init(onError, clock), erased).rows == Run(Init(onError, clock), steps).rows
            && Run(Init(onError, clock), erased).actions
               == Filter(IsRealAction, Run(Init(onError, clock), steps).actions)
            && Run(Init(onError, clock), erased).written == Filter(IsReal, Run(Init(onError, clock), steps).written)
  {
    hide Next, EraseRun;
    FailsafeTransparent(Init(onError, clock), steps);
    assert Erase(Init(onError, clock)) == Init(onError, clock);
  }
}
