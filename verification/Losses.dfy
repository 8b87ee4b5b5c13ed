/** The exact account of the command channel: every byte written is executed, on its way, or was dropped by
    one of three kinds of step. */
module Losses {
  import opened Sequences
  import opened Commands
  import opened Protocol
  import opened Safety

  /** The steps that can lose a command on its way. */
  predicate Drops(step: Step)
  {
    step.ReadDiscard? || step.Lose? || step.ControllerCrash?
  }

  /** The bytes a step takes out of the channel without executing them. */
  function DroppedBy(s: State, step: Step): seq<Byte>
  {
    match step
    case ReadDiscard => s.pipe[..if s.pipe == [] then 0 else 1]
    case Lose(position) => if position < |s.pipe| then [s.pipe[position]] else []
    case ControllerCrash => QueuedBytes(s.queue)
    case _ => []
  }

  ghost function Dropped(s: State, steps: seq<Step>): seq<Byte>
    requires Valid(s, steps)
    decreases |steps|
  {
    if steps == [] then [] else DroppedBy(s, steps[0]) + Dropped(Next(s, steps[0]), steps[1..])
  }

  /** What a step adds to the history of written bytes. */
  ghost function WrittenBy(s: State, step: Step): seq<Byte>
    requires Enabled(s, step)
  {
    if step.Write? then BytesFor(s) else []
  }

  /** A queued byte always names an action: the controller never drops a command as unknown. */
  lemma QueuedTextIsExecuted(s: State)
    requires Inv(s) && s.queue != [] && s.queue[0].Text?
    ensures ActionFor([s.queue[0].byte.code]).Some?
    ensures Next(s, Process).actions == s.actions + [Executed(ActionFor([s.queue[0].byte.code]).value, s.queue[0].byte)]
  {
    var byte := s.queue[0].byte;
    var n := |ExecutedBytes(s.actions)|;
    assert QueuedBytes(s.queue)[0] == byte;
    assert Trail(s)[n] == byte;
    SubseqMember(Trail(s), s.written, byte);
    assert CarriesItsCommand(s, byte);
    CodesCarryActions(CommandOf(s, byte).value);
  }

  ghost predicate StepAccount(s: State, step: Step)
    requires Enabled(s, step)
  {
    multiset(Trail(s)) + multiset(WrittenBy(s, step)) == multiset(Trail(Next(s, step))) + multiset(DroppedBy(s, step))
  }

  lemma BagOfSplit(all: seq<Byte>, a: seq<Byte>, b: seq<Byte>, c: seq<Byte>)
    requires all == a + b + c
    ensures multiset(all) == multiset(a + c) + multiset(b)
  {
  }

  /** It is enough to know where in the trail the dropped bytes stood. */
  lemma AccountOfSplit(s: State, step: Step, a: seq<Byte>, b: seq<Byte>, c: seq<Byte>)
    requires Enabled(s, step)
    requires Trail(s) + WrittenBy(s, step) == a + b + c
    requires Trail(Next(s, step)) == a + c && DroppedBy(s, step) == b
    ensures StepAccount(s, step)
  {
    hide Enabled, Next, Trail, WrittenBy, DroppedBy;
    assert multiset(Trail(s) + WrittenBy(s, step)) == multiset(Trail(s)) + multiset(WrittenBy(s, step));
    BagOfSplit(Trail(s) + WrittenBy(s, step), a, b, c);
  }

  lemma LossAccount(s: State, i: nat)
    requires i < |s.pipe|
    ensures StepAccount(s, Lose(i))
  {
    hide StepAccount;
    var front := ExecutedBytes(s.actions) + QueuedBytes(s.queue);
    assert s.pipe == s.pipe[..i] + [s.pipe[i]] + s.pipe[i + 1..];
    AccountOfSplit(s, Lose(i), front + s.pipe[..i], [s.pipe[i]], s.pipe[i + 1..]);
  }

  lemma DiscardAccount(s: State)
    requires s.pipe != []
    ensures StepAccount(s, ReadDiscard)
  {
    hide StepAccount;
    var front := ExecutedBytes(s.actions) + QueuedBytes(s.queue);
    assert s.pipe == s.pipe[..1] + s.pipe[1..];
    AccountOfSplit(s, ReadDiscard, front, s.pipe[..1], s.pipe[1..]);
  }

  lemma CrashAccount(s: State)
    ensures StepAccount(s, ControllerCrash)
  {
    hide StepAccount;
    AccountOfSplit(s, ControllerCrash, ExecutedBytes(s.actions), QueuedBytes(s.queue), s.pipe);
  }

  lemma WriteExtendsTrail(s: State)
    requires s.poller.Fetched?
    ensures Trail(Next(s, Write)) == Trail(s) + BytesFor(s)
  {
  }

  lemma WriteAccount(s: State)
    requires s.poller.Fetched?
    ensures StepAccount(s, Write)
  {
    hide StepAccount;
    WriteExtendsTrail(s);
    AccountOfSplit(s, Write, Trail(s), [], BytesFor(s));
  }

  lemma MoveAccount(s: State, step: Step)
    requires Enabled(s, step) && Trail(Next(s, step)) == Trail(s)
    requires !step.Write? && !Drops(step)
    ensures StepAccount(s, step)
  {
    hide StepAccount, Enabled, Next, Trail;
    AccountOfSplit(s, step, Trail(s), [], []);
  }

  lemma ReadKeepsTrail(s: State, step: Step)
    requires Enabled(s, step) && (step.ReadQueue? || step.ReadEof?)
    ensures Trail(Next(s, step)) == Trail(s)
  {
    hide QueuedBytes;
    QueuedSnoc(s.queue, if step.ReadQueue? then Text(s.pipe[0]) else EndOfFile);
  }

  lemma ProcessKeepsTrail(s: State)
    requires Inv(s) && s.queue != []
    ensures Trail(Next(s, Process)) == Trail(s)
  {
    hide Inv;
    if s.queue[0].Text? {
      QueuedTextIsExecuted(s);
      assert ExecutedBytes(Next(s, Process).actions) == ExecutedBytes(s.actions) + [s.queue[0].byte];
      assert QueuedBytes(s.queue) == [s.queue[0].byte] + QueuedBytes(s.queue[1..]);
    }
  }

  lemma OthersKeepTrail(s: State, step: Step)
    requires Enabled(s, step)
    requires step.Post? || step.Tick? || (IsPollerStep(step) && !step.Write?)
    ensures Trail(Next(s, step)) == Trail(s)
  {
  }

  lemma EveryStepAccounts(s: State, step: Step)
    requires Inv(s) && Enabled(s, step)
    ensures StepAccount(s, step)
  {
    hide Inv, StepAccount, Next, Trail;
    match step {
      case Write => WriteAccount(s);
      case ReadDiscard => DiscardAccount(s);
      case Lose(i) => LossAccount(s, i);
      case ControllerCrash => CrashAccount(s);
      case ReadQueue => ReadKeepsTrail(s, step); MoveAccount(s, step);
      case ReadEof => ReadKeepsTrail(s, step); MoveAccount(s, step);
      case Process => ProcessKeepsTrail(s); MoveAccount(s, step);
      case _ => OthersKeepTrail(s, step); MoveAccount(s, step);
    }
  }

  lemma WrittenStep(s: State, step: Step)
    requires Enabled(s, step)
    ensures Next(s, step).written == s.written + WrittenBy(s, step)
  {
  }

  ghost predicate Accounted(s: State, dropped: multiset<Byte>)
  {
    multiset(s.written) == multiset(Trail(s)) + dropped
  }

  lemma CarryOver(a: multiset<Byte>, b: multiset<Byte>, c: multiset<Byte>, d: multiset<Byte>, before: multiset<Byte>)
    requires a + b == c + d
    ensures a + before + b == c + (before + d)
  {
    forall x
      ensures (a + before + b)[x] == (c + (before + d))[x]
    {
      assert (a + b)[x] == (c + d)[x];
    }
  }

  lemma AccountCarries(s: State, step: Step, before: multiset<Byte>)
    requires Enabled(s, step) && Accounted(s, before) && StepAccount(s, step)
    ensures Accounted(Next(s, step), before + multiset(DroppedBy(s, step)))
  {
    hide Enabled, Next, Trail, DroppedBy, WrittenBy;
    WrittenStep(s, step);
    var trail, trail', added, dropped :=
      multiset(Trail(s)), multiset(Trail(Next(s, step))), multiset(WrittenBy(s, step)), multiset(DroppedBy(s, step));
    assert trail + added == trail' + dropped;
    assert Next(s, step).written == s.written + WrittenBy(s, step);
    assert multiset(Next(s, step).written) == multiset(s.written) + added == trail + before + added;
    CarryOver(trail, added, trail', dropped, before);
  }

  lemma {:induction false} RunAccounts(s: State, steps: seq<Step>, before: multiset<Byte>)
    requires Inv(s) && Valid(s, steps) && Accounted(s, before)
    ensures Accounted(Run(s, steps), before + multiset(Dropped(s, steps)))
    decreases |steps|
  {
    if steps == [] {
      assert before + multiset(Dropped(s, steps)) == before;
    } else {
      hide Inv, Next, Accounted, StepAccount, DroppedBy;
      var s', now := Next(s, steps[0]), DroppedBy(s, steps[0]);
      EveryStepAccounts(s, steps[0]);
      StepKeepsInv(s, steps[0]);
      AccountCarries(s, steps[0], before);
      RunAccounts(s', steps[1..], before + multiset(now));
      var later := Dropped(s', steps[1..]);
      assert before + multiset(now + later) == before + multiset(now) + multiset(later);
    }
  }

  /** In every run, counting occurrences: what the poller wrote is what was executed, what is queued or in the
      pipe, and what was dropped. */
  lemma EveryByteAccounted(onError: string, clock: int, steps: seq<Step>, s: State)
    requires Reaches(onError, clock, steps, s)
    ensures multiset(s.written) ==
            multiset(ExecutedBytes(s.actions)) + multiset(QueuedBytes(s.queue)) + multiset(s.pipe)
            + multiset(Dropped(Init(onError, clock), steps))
  {
    hide Inv, Dropped, Next;
    InitInv(onError, clock);
    assert Accounted(Init(onError, clock), multiset{});
    RunAccounts(Init(onError, clock), steps, multiset{});
    var dropped := multiset(Dropped(Init(onError, clock), steps));
    assert multiset{} + dropped == dropped;
    assert multiset(Trail(s)) == multiset(ExecutedBytes(s.actions)) + multiset(QueuedBytes(s.queue)) + multiset(s.pipe);
  }

  // ---------- What a drop takes ----------

  /** A discarding read takes the first byte of the pipe and a loss one byte, wherever it is; a controller crash
      takes what is queued. Everything else stays, in place. */
  lemma DropsExactly(s: State, i: nat)
    ensures s.pipe != [] ==> Next(s, ReadDiscard) == s.(pipe := s.pipe[1..])
    ensures i < |s.pipe| ==>
              var s' := Next(s, Lose(i));
              && s' == s.(pipe := s'.pipe) && |s'.pipe| == |s.pipe| - 1
              && (forall k :: 0 <= k < i ==> s'.pipe[k] == s.pipe[k])
              && (forall k :: i <= k < |s'.pipe| ==> s'.pipe[k] == s.pipe[k + 1])
    ensures Next(s, ControllerCrash) == s.(queue := [])
  {
  }

  // ---------- Where nothing is dropped ----------

  ghost predicate Lossless(steps: seq<Step>)
  {
    forall i :: 0 <= i < |steps| ==> !Drops(steps[i])
  }

  /** What a run adds to the history of written bytes. */
  ghost function Added(s: State, steps: seq<Step>): seq<Byte>
    requires Valid(s, steps)
    decreases |steps|
  {
    if steps == [] then [] else WrittenBy(s, steps[0]) + Added(Next(s, steps[0]), steps[1..])
  }

  lemma LosslessStep(s: State, step: Step)
    requires Inv(s) && Enabled(s, step) && !Drops(step)
    ensures Trail(Next(s, step)) == Trail(s) + WrittenBy(s, step)
  {
    hide Inv, Next, Trail;
    match step {
      case Write => WriteExtendsTrail(s);
      case ReadQueue => ReadKeepsTrail(s, step);
      case ReadEof => ReadKeepsTrail(s, step);
      case Process => ProcessKeepsTrail(s);
      case _ => OthersKeepTrail(s, step);
    }
    assert !step.Write? ==> Trail(s) + WrittenBy(s, step) == Trail(s);
  }

  /** Whatever was lost before: without a discarding read, a loss in the pipe or a controller crash, exactly what
      is written enters the channel, and in order. */
  lemma {:induction false} LosslessRun(s: State, steps: seq<Step>)
    requires Inv(s) && Valid(s, steps) && Lossless(steps)
    ensures Run(s, steps).written == s.written + Added(s, steps)
    ensures Trail(Run(s, steps)) == Trail(s) + Added(s, steps)
    decreases |steps|
  {
    hide Inv, Next, Enabled, Trail, WrittenBy;
    if steps == [] {
      assert s.written + [] == s.written && Trail(s) + [] == Trail(s);
    } else {
      var s', now := Next(s, steps[0]), WrittenBy(s, steps[0]);
      assert !Drops(steps[0]) && Lossless(steps[1..]);
      LosslessStep(s, steps[0]);
      WrittenStep(s, steps[0]);
      StepKeepsInv(s, steps[0]);
      LosslessRun(s', steps[1..]);
      var later := Added(s', steps[1..]);
      assert s.written + now + later == s.written + (now + later);
      assert Trail(s) + now + later == Trail(s) + (now + later);
    }
  }

  /** From the start, the drone has executed exactly what was written, in order, but for what is on its way. */
  lemma LosslessRunExecutesAll(onError: string, clock: int, steps: seq<Step>, s: State)
    requires Reaches(onError, clock, steps, s) && Lossless(steps)
    ensures s.written == ExecutedBytes(s.actions) + QueuedBytes(s.queue) + s.pipe
  {
    hide Next, Inv;
    InitInv(onError, clock);
    LosslessRun(Init(onError, clock), steps);
    assert [] + Added(Init(onError, clock), steps) == Trail(s);
  }
}
