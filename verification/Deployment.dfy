/** The programs behind the protocol's steps: the server's handlers, the poller's loop and the controller's
    two command coroutines. Each method is shown to perform steps of the protocol. */
module Deployment {
  import opened Options
  import opened Commands
  import opened Protocol

  /** The commands table behind server/cherum/__init__.py. */
  class CommandTable {
    var rows: seq<Row>
    var pings: seq<int>  // one timestamp for every answered fetch

    constructor ()
      ensures rows == [] && pings == []
    {
      rows, pings := [], [];
    }

    method Command(command: string, now: int)
      modifies this`rows
      ensures rows == Insert(old(rows), command, now)
      ensures rows == if command == "" then old(rows) else old(rows) + [Row(command, false, now)]
    {
      if command != "" {
        rows := rows + [Row(command, false, now)];
      }
    }

    /** The reply names a newest row, or is a done command without id when there is none; the visit is recorded. */
    method Fetch(now: int) returns (id: Option<int>, command: string, done: bool)
      modifies this`pings
      ensures pings == old(pings) + [now]
      ensures rows == [] ==> id == None && command == "" && done
      ensures rows != [] ==>
                && id.Some? && 1 <= id.value && IsNewest(rows, id.value - 1)
                && command == rows[id.value - 1].command && done == rows[id.value - 1].done
    {
      if rows == [] {
        id, command, done := None, "", true;
      } else {
        NewestExists(rows);
        ghost var newest: nat :| IsNewest(rows, newest);
        assert 0 <= newest < |rows| && forall j :: 0 <= j < |rows| ==> rows[j].createdAt <= rows[newest].createdAt;
        var row :| 0 <= row < |rows| && forall j :: 0 <= j < |rows| ==> rows[j].createdAt <= rows[row].createdAt;
        id, command, done := Some(row + 1), rows[row].command, rows[row].done;
      }
      pings := pings + [now];
    }

    method Done(id: int)
      modifies this`rows
      ensures rows == MarkDone(old(rows), id)
      ensures |rows| == |old(rows)|
      ensures forall i :: 0 <= i < |rows| ==>
                rows[i] == if i == id - 1 then old(rows)[i].(done := true) else old(rows)[i]
    {
      if 1 <= id <= |rows| {
        rows := rows[id - 1 := rows[id - 1].(done := true)];
      }
    }
  }

  /** The named pipe, with the history of what was written to it. */
  class Fifo {
    var bytes: seq<Byte>
    ghost var written: seq<Byte>

    constructor ()
      ensures bytes == [] && written == []
    {
      bytes, written := [], [];
    }
  }

  /** The letter of the command is added at the end, or nothing if it has none. */
  predicate Adds(before: seq<Byte>, after: seq<Byte>, command: string, origin: Origin, life: nat)
  {
    match command
    case "land" => after == before + [Byte('l', origin, life)]
    case "loiter" => after == before + [Byte('h', origin, life)]
    case "rtl" => after == before + [Byte('r', origin, life)]
    case _ => after == before
  }

  datatype Acknowledgement = Delivered | RequestLost | ReplyLost

  /** client/poller.py. */
  class Poller {
    const table: CommandTable
    const fifo: Fifo
    const onError: string
    var failures: nat  // bookkeeping: uncaught failures so far

    constructor (table: CommandTable, fifo: Fifo, onError: string)
      ensures this.table == table && this.fifo == fifo && this.onError == onError && failures == 0
    {
      this.table, this.fifo, this.onError, failures := table, fifo, onError, 0;
    }

    /** The protocol state around this poller: what it shares is its own, the rest comes from the context. */
    ghost function View(context: State): State
      reads this, table, fifo
    {
      context.(rows := table.rows, failures := failures, onError := onError,
               written := fifo.written, pipe := fifo.bytes)
    }

    // The three sections of the loop. Each is one step of the protocol from any state the poller can find when
    // it gets there, so others may act in between.

    method Poll(connected: bool, now: int, ghost context: State)
      returns (id: Option<int>, command: string, done: bool, ghost polled: Step)
      requires context.poller == Idle
      modifies table`pings
      ensures !connected ==> polled == ConnectionError && id == None && command == onError && !done
      ensures connected && table.rows == [] ==> polled == FetchEmpty && id == None && done
      ensures connected && table.rows != [] ==>
                && id.Some? && 1 <= id.value && IsNewest(table.rows, id.value - 1) && polled == Fetch(id.value - 1)
                && command == table.rows[id.value - 1].command && done == table.rows[id.value - 1].done
      ensures Enabled(View(context), polled)
      ensures Next(View(context), polled)
              == View(context).(poller := if done then Idle else Fetched(command, OriginOf(id)))
    {
      if connected {
        id, command, done := table.Fetch(now);
        polled := if id.Some? then Step.Fetch(id.value - 1) else FetchEmpty;
      } else {
        id, command, done, polled := None, onError, false, ConnectionError;
      }
    }

    /** The body of the `with` block: the code of the command, if it has one. */
    method WriteCode(command: string, origin: Origin, ghost context: State)
      requires context.poller == Fetched(command, origin)
      modifies fifo
      ensures Adds(old(fifo.bytes), fifo.bytes, command, origin, failures)
      ensures Adds(old(fifo.written), fifo.written, command, origin, failures)
      ensures Next(old(View(context)), Write)
              == View(context).(poller := if origin.FromServer? then Acknowledging(origin.row) else Idle)
    {
      var code := CodeOf(command);
      if code.Some? {
        fifo.bytes := fifo.bytes + [Byte(code.value, origin, failures)];
        fifo.written := fifo.written + [Byte(code.value, origin, failures)];
      }
    }

    method AcknowledgeRow(id: int, acknowledgement: Acknowledgement, ghost context: State) returns (alive: bool)
      requires id >= 1 && context.poller == Acknowledging(id - 1)
      modifies this, table`rows
      ensures table.rows == if acknowledgement == RequestLost then old(table.rows) else MarkDone(old(table.rows), id)
      ensures alive <==> acknowledgement == Delivered
      ensures failures == old(failures) + if alive then 0 else 1
      ensures Next(old(View(context)), LastStep(acknowledgement)) == View(context).(poller := Idle)
    {
      if acknowledgement != RequestLost {
        table.Done(id);
      }
      alive := acknowledgement == Delivered;
      if !alive {
        failures := failures + 1;
      }
    }

    /** One turn of the loop in `main` when nobody else acts. The steps it performs, given how the poll went, are
        a valid run of the protocol from the state before to the state after. `alive` tells whether it ended
        without an uncaught failure. */
    method Turn(connected: bool, now: int, writable: bool, acknowledgement: Acknowledgement, ghost context: State)
      returns (alive: bool, ghost steps: seq<Step>)
      requires context.poller == Idle
      modifies this, table, fifo
      ensures Valid(old(View(context)), steps)
      ensures Run(old(View(context)), steps) == View(context)
      ensures steps != [] && if connected then steps[0].Fetch? || steps[0].FetchEmpty? else steps[0].ConnectionError?
      ensures Enabled(old(View(context)), steps[0])
      ensures steps == TurnSteps(old(View(context)), steps[0], writable, acknowledgement)
      ensures alive <==> failures == old(failures)
    {
      hide Valid, Run, Adds, CodeBytes;
      ghost var s := View(context);
      var id, command, done;
      ghost var polled;
      id, command, done, polled := Poll(connected, now, context);
      if done {
        OneStep(s, polled);
        return true, [polled];
      }
      if !writable {
        failures := failures + 1;
        TwoSteps(s, polled, Crash);
        return false, [polled, Crash];
      }
      var origin := OriginOf(id);
      WriteCode(command, origin, context.(poller := Fetched(command, origin)));
      if id == None {
        TwoSteps(s, polled, Write);
        return true, [polled, Write];
      }
      alive := AcknowledgeRow(id.value, acknowledgement, context.(poller := Acknowledging(id.value - 1)));
      steps := [polled, Write, LastStep(acknowledgement)];
      ThreeSteps(s, polled, Write, LastStep(acknowledgement));
    }
  }

  function OriginOf(id: Option<int>): Origin
    requires id.Some? ==> id.value >= 1
  {
    if id.Some? then FromServer(id.value - 1) else Failsafe
  }

  function LastStep(acknowledgement: Acknowledgement): Step
  {
    match acknowledgement
    case Delivered => Acknowledge
    case RequestLost => Crash
    case ReplyLost => Step.ReplyLost
  }

  /** Nothing but the poller's own steps moves the poller: in particular, a command posted between fetch and
      acknowledgement does not change which row is going to be marked. */
  lemma OnlyThePollerMovesThePoller(s: State, step: Step)
    requires Enabled(s, step) && !IsPollerStep(step)
    ensures var s' := Next(s, step); s'.poller == s.poller && s'.failures == s.failures && s'.onError == s.onError
  {
  }

  /** While others act, the poller keeps its place: the section it is about to run stays enabled. */
  lemma {:induction false} OthersLeaveThePollerItsTurn(s: State, others: seq<Step>)
    requires Valid(s, others) && forall i :: 0 <= i < |others| ==> !IsPollerStep(others[i])
    ensures var s' := Run(s, others); s'.poller == s.poller && s'.failures == s.failures && s'.onError == s.onError
    ensures s.poller.Fetched? ==> Enabled(Run(s, others), Write)
    ensures s.poller.Acknowledging? ==> Enabled(Run(s, others), Acknowledge)
    decreases |others|
  {
    hide Next;
    if others == [] {
    } else {
      assert !IsPollerStep(others[0]);
      OnlyThePollerMovesThePoller(s, others[0]);
      OthersLeaveThePollerItsTurn(Next(s, others[0]), others[1..]);
    }
  }

  /** The steps of a turn after a given poll: nothing more if the command is done, otherwise the write and,
      for a server command, the acknowledgement. */
  ghost function TurnSteps(s: State, polled: Step, writable: bool, acknowledgement: Acknowledgement): seq<Step>
    requires Enabled(s, polled)
  {
    match Next(s, polled).poller
    case Fetched(_, origin) =>
      if !writable then [polled, Crash]
      else if origin == Failsafe then [polled, Write]
      else [polled, Write, LastStep(acknowledgement)]
    case _ => [polled]
  }

  lemma OneStep(s: State, a: Step)
    requires Enabled(s, a)
    ensures Valid(s, [a]) && Run(s, [a]) == Next(s, a)
  {
    assert [a][1..] == [];
  }

  lemma TwoSteps(s: State, a: Step, b: Step)
    requires Enabled(s, a) && Enabled(Next(s, a), b)
    ensures Valid(s, [a, b]) && Run(s, [a, b]) == Next(Next(s, a), b)
  {
    hide Next;
    OneStep(Next(s, a), b);
    assert [a, b][1..] == [b];
  }

  lemma ThreeSteps(s: State, a: Step, b: Step, c: Step)
    requires Enabled(s, a) && Enabled(Next(s, a), b) && Enabled(Next(Next(s, a), b), c)
    ensures Valid(s, [a, b, c]) && Run(s, [a, b, c]) == Next(Next(Next(s, a), b), c)
  {
    hide Next;
    TwoSteps(Next(s, a), b, c);
    assert [a, b, c][1..] == [b, c];
  }

  /** How a turn of `read_pipe` finds the FIFO. */
  datatype Reading = ByteAtOnce | NoWriter | ByteAfterBlocking | EndAfterBlocking

  function StepFor(reading: Reading): Step
  {
    match reading
    case ByteAtOnce => ReadDiscard
    case NoWriter => Tick(0)
    case ByteAfterBlocking => ReadQueue
    case EndAfterBlocking => ReadEof
  }

  predicate Does(item: Item, code: char)
  {
    item.Text? && item.byte.code == code
  }

  /** client/controller.py, the command side. */
  class Controller {
    const fifo: Fifo
    var queue: seq<Item>
    var actions: seq<Executed>

    constructor (fifo: Fifo)
      ensures this.fifo == fifo && queue == [] && actions == []
    {
      this.fifo, queue, actions := fifo, [], [];
    }

    ghost function View(context: State): State
      reads this, fifo
    {
      context.(pipe := fifo.bytes, written := fifo.written, queue := queue, actions := actions)
    }

    /** One turn of `read_pipe`: only what the second, blocking read returns is queued. */
    method ReadPipe(reading: Reading, ghost context: State)
      requires reading == ByteAtOnce || reading == ByteAfterBlocking ==> fifo.bytes != []
      modifies this, fifo
      ensures Enabled(old(View(context)), StepFor(reading))
      ensures Next(old(View(context)), StepFor(reading)) == View(context)
      ensures fifo.written == old(fifo.written) && actions == old(actions)
      ensures fifo.bytes == if reading == ByteAtOnce || reading == ByteAfterBlocking
                            then old(fifo.bytes)[1..] else old(fifo.bytes)
      ensures reading == ByteAfterBlocking ==> queue == old(queue) + [Text(old(fifo.bytes)[0])]
      ensures reading == EndAfterBlocking ==> queue == old(queue) + [EndOfFile]
      ensures reading == ByteAtOnce || reading == NoWriter ==> queue == old(queue)
    {
      match reading {
        case ByteAtOnce =>
          fifo.bytes := fifo.bytes[1..];
        case NoWriter => // the read returns nothing
        case ByteAfterBlocking =>
          queue := queue + [Text(fifo.bytes[0])];
          fifo.bytes := fifo.bytes[1..];
        case EndAfterBlocking =>
          queue := queue + [EndOfFile];
      }
    }

    /** One turn of `process_commands`. */
    method ProcessCommand(ghost context: State)
      requires queue != []
      modifies this
      ensures Enabled(old(View(context)), Process) && Next(old(View(context)), Process) == View(context)
      ensures queue == old(queue)[1..] && fifo.bytes == old(fifo.bytes)
      ensures Does(old(queue)[0], 'l') ==> actions == old(actions) + [Executed(Land, old(queue)[0].byte)]
      ensures Does(old(queue)[0], 'h') ==> actions == old(actions) + [Executed(Hold, old(queue)[0].byte)]
      ensures Does(old(queue)[0], 'r') ==> actions == old(actions) + [Executed(ReturnToLaunch, old(queue)[0].byte)]
      ensures !Does(old(queue)[0], 'l') && !Does(old(queue)[0], 'h') && !Does(old(queue)[0], 'r') ==>
                actions == old(actions)
    {
      var item := queue[0];
      queue := queue[1..];
      var command := if item.Text? then [item.byte.code] else "";
      if command == "l" {
        actions := actions + [Executed(Land, item.byte)];
      } else if command == "h" {
        actions := actions + [Executed(Hold, item.byte)];
      } else if command == "r" {
        actions := actions + [Executed(ReturnToLaunch, item.byte)];
      }
    }
  }
}
