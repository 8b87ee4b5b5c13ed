/** What every run of the delivery protocol keeps. */
module Safety {
  import opened Sequences
  import opened Options
  import opened Commands
  import opened Protocol

  // ---------- The invariant, clause by clause ----------

  /** Timestamps follow the insertion order and never lie in the future. */
  ghost predicate TableOk(s: State)
  {
    && (forall i, j :: 0 <= i <= j < |s.rows| ==> s.rows[i].createdAt <= s.rows[j].createdAt)
    && (forall i :: 0 <= i < |s.rows| ==> s.rows[i].createdAt <= s.clock)
  }

  ghost predicate CarriesItsCommand(s: State, b: Byte)
  {
    && b.life <= s.failures
    && match b.origin
       case FromServer(row) => row < |s.rows| && CodeOf(s.rows[row].command) == Some(b.code)
       case Failsafe => CodeOf(s.onError) == Some(b.code)
  }

  ghost predicate WrittenOk(s: State)
  {
    forall b :: b in s.written ==> CarriesItsCommand(s, b)
  }

  ghost predicate WasWritten(s: State, row: nat)
  {
    exists b :: b in s.written && b.origin == FromServer(row)
  }

  ghost predicate PollerOk(s: State)
  {
    match s.poller
    case Idle => true
    case Fetched(command, Failsafe) => command == s.onError
    case Fetched(command, FromServer(row)) =>
      && row < |s.rows| && command == s.rows[row].command && !s.rows[row].done
      && forall b :: b in s.written && b.origin.FromServer? && b.origin.row < |s.rows| ==>
           s.rows[b.origin.row].createdAt <= s.rows[row].createdAt
    case Acknowledging(row) =>
      row < |s.rows| && (CodeOf(s.rows[row].command).Some? ==> WasWritten(s, row))
  }

  /** Server commands in `bytes` are in the order of their timestamps. */
  ghost predicate Chronological(rows: seq<Row>, bytes: seq<Byte>)
  {
    forall i, j :: 0 <= i < j < |bytes| && bytes[i].origin.FromServer? && bytes[j].origin.FromServer? ==>
      bytes[i].origin.row < |rows| && bytes[j].origin.row < |rows| &&
      rows[bytes[i].origin.row].createdAt <= rows[bytes[j].origin.row].createdAt
  }

  function ExecutedBytes(actions: seq<Executed>): (bytes: seq<Byte>)
    ensures |bytes| == |actions|
  {
    seq(|actions|, i requires 0 <= i < |actions| => actions[i].byte)
  }

  function QueuedBytes(queue: seq<Item>): seq<Byte>
  {
    if queue == [] then []
    else (match queue[0]
          case Text(byte) => [byte]
          case EndOfFile => []) + QueuedBytes(queue[1..])
  }

  /** Everything still on its way or already executed, oldest first. */
  function Trail(s: State): seq<Byte>
  {
    ExecutedBytes(s.actions) + QueuedBytes(s.queue) + s.pipe
  }

  ghost predicate ChannelOk(s: State)
  {
    Subseq(Trail(s), s.written)
  }

  ghost predicate ExecutedOk(s: State)
  {
    forall e :: e in s.actions ==> ActionFor([e.byte.code]) == Some(e.action)
  }

  /** A recognised command is marked done only after its code went into the pipe. */
  ghost predicate DoneOk(s: State)
  {
    forall row :: 0 <= row < |s.rows| && s.rows[row].done && CodeOf(s.rows[row].command).Some? ==> WasWritten(s, row)
  }

  /** What the poller is not about to acknowledge is done, or its writer has failed since. */
  ghost predicate SettledOk(s: State)
  {
    forall b :: b in s.written && b.origin.FromServer? && b.origin.row < |s.rows| ==>
      s.rows[b.origin.row].done || b.life < s.failures || s.poller == Acknowledging(b.origin.row)
  }

  /** Two bytes of one server command. */
  predicate SameCommand(a: Byte, b: Byte)
  {
    a.origin.FromServer? && a.origin == b.origin
  }

  /** A command is written again only by a poller that has failed since. */
  ghost predicate OnceOk(s: State)
  {
    forall i, j :: 0 <= i < j < |s.written| && SameCommand(s.written[i], s.written[j]) ==>
      s.written[i].life < s.written[j].life
  }

  ghost predicate Inv(s: State)
  {
    && TableOk(s) && WrittenOk(s) && PollerOk(s) && Chronological(s.rows, s.written)
    && ChannelOk(s) && ExecutedOk(s) && DoneOk(s) && SettledOk(s) && OnceOk(s)
  }

  // ---------- How a step may change the table ----------

  /** Rows are only appended, and an existing row changes at most by becoming done. */
  ghost predicate TableGrows(rows: seq<Row>, rows': seq<Row>)
  {
    && |rows| <= |rows'|
    && forall i :: 0 <= i < |rows| ==>
         && rows'[i].command == rows[i].command && rows'[i].createdAt == rows[i].createdAt
         && (rows[i].done ==> rows'[i].done)
  }

  lemma StepGrowsTable(s: State, step: Step)
    requires Enabled(s, step)
    ensures TableGrows(s.rows, Next(s, step).rows)
  {
  }

  lemma StepKeepsTable(s: State, step: Step)
    requires TableOk(s) && Enabled(s, step)
    ensures TableOk(Next(s, step))
  {
  }

  lemma StepKeepsWritten(s: State, step: Step)
    requires WrittenOk(s) && PollerOk(s) && Enabled(s, step)
    ensures WrittenOk(Next(s, step))
    ensures s.written <= Next(s, step).written && s.failures <= Next(s, step).failures
  {
    var s' := Next(s, step);
    StepGrowsTable(s, step);
    forall b | b in s'.written
      ensures CarriesItsCommand(s', b)
    {
      if b in s.written {
        assert CarriesItsCommand(s, b);
      }
    }
  }

  lemma StepKeepsPoller(s: State, step: Step)
    requires TableOk(s) && WrittenOk(s) && PollerOk(s) && Chronological(s.rows, s.written) && Enabled(s, step)
    ensures PollerOk(Next(s, step))
  {
    var s' := Next(s, step);
    StepGrowsTable(s, step);
    if step.Write? && s.poller.origin.FromServer? && CodeOf(s.poller.command).Some? {
      assert BytesFor(s)[0] in s'.written;
    }
  }

  lemma StepKeepsChronology(s: State, step: Step)
    requires WrittenOk(s) && PollerOk(s) && Chronological(s.rows, s.written) && Enabled(s, step)
    ensures Chronological(Next(s, step).rows, Next(s, step).written)
  {
    var s' := Next(s, step);
    StepGrowsTable(s, step);
    forall i, j | 0 <= i < j < |s'.written| && s'.written[i].origin.FromServer? && s'.written[j].origin.FromServer?
      ensures s'.written[i].origin.row < |s'.rows| && s'.written[j].origin.row < |s'.rows|
      ensures s'.rows[s'.written[i].origin.row].createdAt <= s'.rows[s'.written[j].origin.row].createdAt
    {
      assert s'.written[i] == s.written[i] && s.written[i] in s.written;
      assert CarriesItsCommand(s, s.written[i]);
    }
  }

  lemma StepKeepsExecuted(s: State, step: Step)
    requires ExecutedOk(s) && Enabled(s, step)
    ensures ExecutedOk(Next(s, step))
  {
  }

  lemma StepKeepsDone(s: State, step: Step)
    requires WrittenOk(s) && PollerOk(s) && DoneOk(s) && Enabled(s, step)
    ensures DoneOk(Next(s, step))
  {
    var s' := Next(s, step);
    StepKeepsWritten(s, step);
    forall row | 0 <= row < |s'.rows| && s'.rows[row].done && CodeOf(s'.rows[row].command).Some?
      ensures WasWritten(s', row)
    {
      assert WasWritten(s, row);
      var b :| b in s.written && b.origin == FromServer(row);
      assert b in s'.written;
    }
  }

  lemma StepKeepsSettled(s: State, step: Step)
    requires WrittenOk(s) && PollerOk(s) && SettledOk(s) && Enabled(s, step)
    ensures SettledOk(Next(s, step))
  {
    var s' := Next(s, step);
    StepGrowsTable(s, step);
    forall b | b in s'.written && b.origin.FromServer? && b.origin.row < |s'.rows|
      ensures s'.rows[b.origin.row].done || b.life < s'.failures || s'.poller == Acknowledging(b.origin.row)
    {
      if b in s.written {
        assert CarriesItsCommand(s, b);
      }
    }
  }

  lemma StepKeepsOnce(s: State, step: Step)
    requires WrittenOk(s) && PollerOk(s) && SettledOk(s) && OnceOk(s) && Enabled(s, step)
    ensures OnceOk(Next(s, step))
  {
    var s' := Next(s, step);
    if step.Write? {
      forall i, j | 0 <= i < j < |s'.written| && SameCommand(s'.written[i], s'.written[j])
        ensures s'.written[i].life < s'.written[j].life
      {
        assert s'.written[i] == s.written[i] && s.written[i] in s.written;
        assert CarriesItsCommand(s, s.written[i]);
      }
    }
  }

  // ---------- The channel ----------

  lemma {:induction false} QueuedSnoc(queue: seq<Item>, item: Item)
    ensures QueuedBytes(queue + [item]) == QueuedBytes(queue) + if item.Text? then [item.byte] else []
  {
    if queue == [] {
      assert queue + [item] == [item];
      assert QueuedBytes([item]) == (if item.Text? then [item.byte] else []) + QueuedBytes([]);
    } else {
      QueuedSnoc(queue[1..], item);
      assert (queue + [item])[1..] == queue[1..] + [item];
    }
  }

  /** No step reorders or duplicates what was written: the trail only loses elements or moves them along. */
  lemma StepKeepsChannel(s: State, step: Step)
    requires ChannelOk(s) && Enabled(s, step)
    ensures ChannelOk(Next(s, step))
  {
    hide ChannelOk, Next;
    match step {
      case Write => WriteKeepsChannel(s);
      case ReadDiscard => LoseKeepsChannel(s, 0); DiscardIsLoss(s);
      case Lose(i) => LoseKeepsChannel(s, i);
      case ReadQueue => ReadKeepsChannel(s, step);
      case ReadEof => ReadKeepsChannel(s, step);
      case Process => ProcessKeepsChannel(s);
      case ControllerCrash => CrashKeepsChannel(s);
      case _ => OthersKeepChannel(s, step);
    }
  }

  lemma DiscardIsLoss(s: State)
    requires s.pipe != []
    ensures Next(s, ReadDiscard) == Next(s, Lose(0))
  {
    assert s.pipe[..0] + s.pipe[0 + 1..] == s.pipe[1..];
  }

  lemma ReadKeepsChannel(s: State, step: Step)
    requires ChannelOk(s) && Enabled(s, step) && (step.ReadQueue? || step.ReadEof?)
    ensures ChannelOk(Next(s, step))
  {
    hide Subseq, QueuedBytes;
    QueuedSnoc(s.queue, if step.ReadQueue? then Text(s.pipe[0]) else EndOfFile);
    assert Trail(Next(s, step)) == Trail(s);
  }

  lemma OthersKeepChannel(s: State, step: Step)
    requires ChannelOk(s) && Enabled(s, step)
    requires step.Post? || step.Tick? || (IsPollerStep(step) && !step.Write?)
    ensures ChannelOk(Next(s, step))
  {
    assert Next(s, step).written == s.written && Trail(Next(s, step)) == Trail(s);
  }

  lemma WriteKeepsChannel(s: State)
    requires ChannelOk(s) && s.poller.Fetched?
    ensures ChannelOk(Next(s, Write))
  {
    hide Subseq;
    SubseqRefl(BytesFor(s));
    SubseqConcat(Trail(s), s.written, BytesFor(s), BytesFor(s));
    assert Trail(Next(s, Write)) == Trail(s) + BytesFor(s);
  }

  lemma LoseKeepsChannel(s: State, i: nat)
    requires ChannelOk(s) && i < |s.pipe|
    ensures ChannelOk(Next(s, Lose(i)))
  {
    hide Subseq;
    var front := ExecutedBytes(s.actions) + QueuedBytes(s.queue);
    assert s.pipe == s.pipe[..i] + s.pipe[i..i + 1] + s.pipe[i + 1..];
    DropFromTrail(s, front + s.pipe[..i], s.pipe[i..i + 1], s.pipe[i + 1..], Trail(Next(s, Lose(i))));
  }

  lemma ProcessKeepsChannel(s: State)
    requires ChannelOk(s) && s.queue != []
    ensures ChannelOk(Next(s, Process))
  {
    hide Subseq;
    var s', executed, rest := Next(s, Process), ExecutedBytes(s.actions), QueuedBytes(s.queue[1..]);
    var head := if s.queue[0].Text? then [s.queue[0].byte] else [];
    assert QueuedBytes(s.queue) == head + rest;
    if |s'.actions| > |s.actions| {
      assert ExecutedBytes(s'.actions) == executed + head;
      assert Trail(s') == Trail(s);
    } else {
      DropFromTrail(s, executed, head, rest + s.pipe, Trail(s'));
    }
  }

  lemma CrashKeepsChannel(s: State)
    requires ChannelOk(s)
    ensures ChannelOk(Next(s, ControllerCrash))
  {
    hide Subseq;
    DropFromTrail(s, ExecutedBytes(s.actions), QueuedBytes(s.queue), s.pipe, Trail(Next(s, ControllerCrash)));
  }

  lemma DropFromTrail(s: State, a: seq<Byte>, b: seq<Byte>, c: seq<Byte>, left: seq<Byte>)
    requires ChannelOk(s) && Trail(s) == a + b + c && left == a + c
    ensures Subseq(left, s.written)
  {
    hide Subseq;
    SubseqDrop(a, b, c);
    SubseqTrans(a + c, a + b + c, s.written);
  }

  // ---------- Every run ----------

  lemma StepKeepsInv(s: State, step: Step)
    requires Inv(s) && Enabled(s, step)
    ensures Inv(Next(s, step))
  {
    hide TableOk, WrittenOk, PollerOk, Chronological, ChannelOk, ExecutedOk, DoneOk, SettledOk, OnceOk;
    hide Next, Enabled, Subseq, Trail, CarriesItsCommand, WasWritten, IsNewest;
    StepKeepsTable(s, step);
    StepKeepsWritten(s, step);
    StepKeepsPoller(s, step);
    StepKeepsChronology(s, step);
    StepKeepsChannel(s, step);
    StepKeepsExecuted(s, step);
    StepKeepsDone(s, step);
    StepKeepsSettled(s, step);
    StepKeepsOnce(s, step);
  }

  lemma {:induction false} RunKeepsInv(s: State, steps: seq<Step>)
    requires Inv(s) && Valid(s, steps)
    ensures Inv(Run(s, steps))
    decreases |steps|
  {
    hide Inv, Next;
    if steps == [] {
    } else {
      StepKeepsInv(s, steps[0]);
      RunKeepsInv(Next(s, steps[0]), steps[1..]);
    }
  }

  /** The states a deployment can be in. */
  ghost predicate Reaches(onError: string, clock: int, steps: seq<Step>, s: State)
  {
    Valid(Init(onError, clock), steps) && Run(Init(onError, clock), steps) == s
  }

  lemma InitInv(onError: string, clock: int)
    ensures Inv(Init(onError, clock)) && Init(onError, clock).onError == onError
  {
  }

  lemma ReachedInv(onError: string, clock: int, steps: seq<Step>, s: State)
    requires Reaches(onError, clock, steps, s)
    ensures Inv(s) && s.onError == onError
  {
    hide Inv, Init, Next;
    InitInv(onError, clock);
    RunKeepsInv(Init(onError, clock), steps);
    RunKeepsConfiguration(Init(onError, clock), steps);
  }

  lemma {:induction false} RunKeepsConfiguration(s: State, steps: seq<Step>)
    requires Valid(s, steps)
    ensures Run(s, steps).onError == s.onError
    decreases |steps|
  {
    if steps == [] {
    } else {
      assert Next(s, steps[0]).onError == s.onError;
      RunKeepsConfiguration(Next(s, steps[0]), steps[1..]);
    }
  }

  // ---------- End-to-end safety ----------

  lemma {:induction false} ChronologicalSubseq(rows: seq<Row>, a: seq<Byte>, b: seq<Byte>)
    requires Subseq(a, b) && Chronological(rows, b)
    ensures Chronological(rows, a)
  {
    if a == [] {
    } else {
      assert Chronological(rows, b[1..]);
      if a[0] == b[0] && Subseq(a[1..], b[1..]) {
        ChronologicalSubseq(rows, a[1..], b[1..]);
        forall j | 0 < j < |a| && a[0].origin.FromServer? && a[j].origin.FromServer?
          ensures a[0].origin.row < |rows| && a[j].origin.row < |rows|
          ensures rows[a[0].origin.row].createdAt <= rows[a[j].origin.row].createdAt
        {
          assert a[1..][j - 1] == a[j];
          SubseqMember(a[1..], b[1..], a[j]);
          var k :| 0 <= k < |b[1..]| && b[1..][k] == a[j];
          assert b[k + 1] == a[j];
        }
      } else {
        ChronologicalSubseq(rows, a, b[1..]);
      }
    }
  }

  ghost predicate DistinctTimes(rows: seq<Row>)
  {
    forall i, j :: 0 <= i < j < |rows| ==> rows[i].createdAt != rows[j].createdAt
  }

  /** The command an executed action goes back to. */
  function CommandOf(s: State, b: Byte): Option<string>
  {
    match b.origin
    case FromServer(row) => if row < |s.rows| then Some(s.rows[row].command) else None
    case Failsafe => Some(s.onError)
  }

  /** In every run the drone executes a subsequence of the bytes the poller wrote (no reordering, no
      duplication), each action being the one its command names; server commands are executed in the order of
      their timestamps, and of their ids when timestamps are distinct. */
  lemma EndToEndSafety(onError: string, clock: int, steps: seq<Step>, s: State)
    requires Reaches(onError, clock, steps, s)
    ensures Subseq(ExecutedBytes(s.actions), s.written)
    ensures forall e :: e in s.actions ==>
              CommandOf(s, e.byte).Some? && ActionNamed(CommandOf(s, e.byte).value) == Some(e.action)
    ensures Chronological(s.rows, ExecutedBytes(s.actions))
    ensures DistinctTimes(s.rows) ==>
              forall i, j | 0 <= i < j < |s.actions|
                            && s.actions[i].byte.origin.FromServer? && s.actions[j].byte.origin.FromServer? ::
                s.actions[i].byte.origin.row <= s.actions[j].byte.origin.row
  {
    ReachedInv(onError, clock, steps, s);
    var executed := ExecutedBytes(s.actions);
    SubseqDrop(executed, QueuedBytes(s.queue) + s.pipe, []);
    assert executed + [] == executed && executed + (QueuedBytes(s.queue) + s.pipe) + [] == Trail(s);
    SubseqTrans(executed, Trail(s), s.written);
    ChronologicalSubseq(s.rows, executed, s.written);
    forall e | e in s.actions
      ensures CommandOf(s, e.byte).Some? && ActionNamed(CommandOf(s, e.byte).value) == Some(e.action)
    {
      var k :| 0 <= k < |s.actions| && s.actions[k] == e;
      assert executed[k] == e.byte;
      SubseqMember(executed, s.written, e.byte);
      assert CarriesItsCommand(s, e.byte);
      CodesCarryActions(CommandOf(s, e.byte).value);
    }
    if DistinctTimes(s.rows) {
      IdsInOrder(s);
    }
  }

  lemma IdsInOrder(s: State)
    requires TableOk(s) && DistinctTimes(s.rows) && Chronological(s.rows, ExecutedBytes(s.actions))
    ensures forall i, j | 0 <= i < j < |s.actions|
                          && s.actions[i].byte.origin.FromServer? && s.actions[j].byte.origin.FromServer? ::
              s.actions[i].byte.origin.row <= s.actions[j].byte.origin.row
  {
    var executed := ExecutedBytes(s.actions);
    forall i, j | 0 <= i < j < |s.actions|
                  && s.actions[i].byte.origin.FromServer? && s.actions[j].byte.origin.FromServer?
      ensures s.actions[i].byte.origin.row <= s.actions[j].byte.origin.row
    {
      assert executed[i].origin == s.actions[i].byte.origin && executed[j].origin == s.actions[j].byte.origin;
    }
  }

  // ---------- Posts ----------

  /** A post appends its command at the time of the clock, not done; a post without a command changes nothing, and
      so supersedes nothing. */
  lemma PostExactly(s: State, command: string)
    ensures Next(s, Post("")) == s
    ensures command != "" ==> Next(s, Post(command)) == s.(rows := s.rows + [Row(command, false, s.clock)])
  {
  }

  function Seconds(steps: seq<Step>): nat
  {
    if steps == [] then 0 else (if steps[0].Tick? then steps[0].seconds else 0) + Seconds(steps[1..])
  }

  /** The clock, and with it the timestamps, moves with the seconds that pass and with nothing else. */
  lemma {:induction false} ClockExactly(s: State, steps: seq<Step>)
    requires Valid(s, steps)
    ensures Run(s, steps).clock == s.clock + Seconds(steps)
    decreases |steps|
  {
    if steps == [] {
    } else {
      ClockExactly(Next(s, steps[0]), steps[1..]);
    }
  }

  // ---------- Acknowledgement ----------

  /** A recognised command is done only if its code was written; and the same command is written twice only
      by pollers with a failure in between. */
  lemma AcknowledgedOnlyIfWritten(onError: string, clock: int, steps: seq<Step>, s: State)
    requires Reaches(onError, clock, steps, s)
    ensures forall row :: 0 <= row < |s.rows| && s.rows[row].done && CodeOf(s.rows[row].command).Some? ==>
              exists b :: b in s.written && b.origin == FromServer(row) && CodeOf(s.rows[row].command) == Some(b.code)
    ensures forall i, j :: 0 <= i < j < |s.written| && SameCommand(s.written[i], s.written[j]) ==>
              s.written[i].life < s.written[j].life <= s.failures
  {
    ReachedInv(onError, clock, steps, s);
    forall row | 0 <= row < |s.rows| && s.rows[row].done && CodeOf(s.rows[row].command).Some?
      ensures exists b :: b in s.written && b.origin == FromServer(row) && CodeOf(s.rows[row].command) == Some(b.code)
    {
      assert WasWritten(s, row);
      var b :| b in s.written && b.origin == FromServer(row);
      assert CarriesItsCommand(s, b);
    }
    forall j | 0 <= j < |s.written|
      ensures s.written[j].life <= s.failures
    {
      assert CarriesItsCommand(s, s.written[j]);
    }
  }

  /** The one row a step can mark is the row the poller fetched and, if recognised, has written. */
  lemma OnlyTheFetchedRowIsMarked(s: State, step: Step, row: nat)
    requires Inv(s) && Enabled(s, step)
    requires row < |s.rows| && !s.rows[row].done && Next(s, step).rows[row].done
    ensures s.poller == Acknowledging(row) && (step == Acknowledge || step == ReplyLost)
    ensures CodeOf(s.rows[row].command).Some? ==> WasWritten(s, row)
    ensures Next(s, step).rows == s.rows[row := s.rows[row].(done := true)]
  {
  }

  ghost predicate IsTarget(s: State, row: nat)
  {
    row < |s.rows| &&
    (s.rows[row].done || s.poller == Acknowledging(row) || (s.poller.Fetched? && s.poller.origin == FromServer(row)))
  }

  lemma TargetNeedsFetch(s: State, step: Step, row: nat)
    requires PollerOk(s) && Enabled(s, step) && IsTarget(Next(s, step), row) && !IsTarget(s, row)
    ensures step == Fetch(row) && IsNewest(s.rows, row)
  {
  }

  lemma {:induction false} TargetsWereFetched(s: State, steps: seq<Step>, row: nat) returns (i: nat)
    requires Inv(s) && Valid(s, steps) && IsTarget(Run(s, steps), row) && !IsTarget(s, row)
    ensures i < |steps| && steps[i] == Fetch(row)
    ensures Valid(s, steps[..i]) && IsNewest(Run(s, steps[..i]).rows, row)
    decreases |steps|
  {
    hide Inv, Next, IsTarget;
    assert Run(s, []) == s;
    var s' := Next(s, steps[0]);
    StepKeepsInv(s, steps[0]);
    if IsTarget(s', row) {
      PollerInvariant(s);
      TargetNeedsFetch(s, steps[0], row);
      i := 0;
    } else {
      i := TargetsWereFetched(s', steps[1..], row);
      assert steps[..i + 1][1..] == steps[1..][..i];
      i := i + 1;
    }
  }

  lemma PollerInvariant(s: State)
    requires Inv(s)
    ensures PollerOk(s)
  {
  }

  /** In every run, a done command was fetched at a moment when no command on record was newer. */
  lemma DoneOnlyIfFetched(onError: string, clock: int, steps: seq<Step>, s: State, row: nat) returns (i: nat)
    requires Reaches(onError, clock, steps, s) && row < |s.rows| && s.rows[row].done
    ensures i < |steps| && steps[i] == Fetch(row)
    ensures Valid(Init(onError, clock), steps[..i]) && IsNewest(Run(Init(onError, clock), steps[..i]).rows, row)
  {
    ReachedInv(onError, clock, [], Init(onError, clock));
    i := TargetsWereFetched(Init(onError, clock), steps, row);
  }

  /** Over any run the table only grows, and a done command stays done. */
  lemma {:induction false} DoneNeverReverts(s: State, steps: seq<Step>)
    requires Valid(s, steps)
    ensures TableGrows(s.rows, Run(s, steps).rows)
    decreases |steps|
  {
    if steps == [] {
    } else {
      hide Next;
      StepGrowsTable(s, steps[0]);
      DoneNeverReverts(Next(s, steps[0]), steps[1..]);
    }
  }
}
