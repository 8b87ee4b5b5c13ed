/** Delivery of emergency commands from the server's table to the drone, as a system of interleaved steps:
    the operator, the server, the poller, the FIFO and the controller. */
module Protocol {
  import opened Commands

  datatype Origin = FromServer(row: nat) | Failsafe

  /** A byte in the FIFO. `origin` and `life` (how often the poller had failed before) are bookkeeping that
      no step looks at. */
  datatype Byte = Byte(code: char, origin: Origin, life: nat)

  /** An entry of the controller's command queue: the text read, or the empty text of an end of file. */
  datatype Item = Text(byte: Byte) | EndOfFile

  datatype Executed = Executed(action: Action, byte: Byte)

  /** Where the poller's loop stands: at its head, before opening the FIFO, or before `mark_done`. */
  datatype Poller = Idle | Fetched(command: string, origin: Origin) | Acknowledging(row: nat)

  datatype State = State(
    rows: seq<Row>, clock: int,
    poller: Poller, failures: nat, onError: string,
    written: seq<Byte>, pipe: seq<Byte>, queue: seq<Item>, actions: seq<Executed>)

  function Init(onError: string, clock: int): State
  {
    State([], clock, Idle, 0, onError, [], [], [], [])
  }

  datatype Step =
    | Post(command: string)   // the operator submits a command
    | Tick(seconds: nat)
    | Fetch(row: nat)         // the server answers with a newest row
    | FetchEmpty              // the server answers that there is none
    | ConnectionError         // the poll fails and yields the failsafe command
    | Write                   // the poller writes the code, if the command has one
    | Acknowledge
    | ReplyLost               // the row is marked, but the poller dies on the missing reply
    | Crash                   // any other uncaught failure of the poller, which is then restarted
    | ReadDiscard             // the first, non-blocking read returns a byte, which is not queued
    | ReadQueue               // the blocking read returns a byte
    | ReadEof                 // the blocking read meets the end of the file
    | Lose(position: nat)     // the FIFO drops a byte nobody read
    | Process                 // the controller handles the head of its queue
    | ControllerCrash

  ghost predicate Enabled(s: State, step: Step)
  {
    match step
    case Fetch(row) => s.poller == Idle && IsNewest(s.rows, row)
    case FetchEmpty => s.poller == Idle && s.rows == []
    case ConnectionError => s.poller == Idle
    case Write => s.poller.Fetched?
    case Acknowledge => s.poller.Acknowledging?
    case ReplyLost => s.poller.Acknowledging?
    case ReadDiscard => s.pipe != []
    case ReadQueue => s.pipe != []
    case Lose(position) => position < |s.pipe|
    case Process => s.queue != []
    case _ => true
  }

  /** What the poller writes for a command: its code, or nothing. */
  function CodeBytes(command: string, origin: Origin, life: nat): seq<Byte>
  {
    match CodeOf(command)
    case Some(code) => [Byte(code, origin, life)]
    case None => []
  }

  function BytesFor(s: State): seq<Byte>
    requires s.poller.Fetched?
  {
    CodeBytes(s.poller.command, s.poller.origin, s.failures)
  }

  function PollerNext(s: State, step: Step): State
    requires Enabled(s, step)
  {
    match step
    case Fetch(row) =>
      if s.rows[row].done then s else s.(poller := Fetched(s.rows[row].command, FromServer(row)))
    case ConnectionError => s.(poller := Fetched(s.onError, Failsafe))
    case Write =>
      s.(pipe := s.pipe + BytesFor(s), written := s.written + BytesFor(s),
         poller := if s.poller.origin.FromServer? then Acknowledging(s.poller.origin.row) else Idle)
    case Acknowledge => s.(rows := MarkDone(s.rows, s.poller.row + 1), poller := Idle)
    case ReplyLost => s.(rows := MarkDone(s.rows, s.poller.row + 1), poller := Idle, failures := s.failures + 1)
    case Crash => s.(poller := Idle, failures := s.failures + 1)
    case _ => s
  }

  function ChannelNext(s: State, step: Step): State
    requires Enabled(s, step)
  {
    match step
    case ReadDiscard => s.(pipe := s.pipe[1..])
    case ReadQueue => s.(pipe := s.pipe[1..], queue := s.queue + [Text(s.pipe[0])])
    case ReadEof => s.(queue := s.queue + [EndOfFile])
    case Lose(position) => s.(pipe := s.pipe[..position] + s.pipe[position + 1..])
    case Process =>
      var rest := s.(queue := s.queue[1..]);
      (match s.queue[0]
       case Text(byte) =>
         (match ActionFor([byte.code])
          case Some(action) => rest.(actions := s.actions + [Executed(action, byte)])
          case None => rest)
       case EndOfFile => rest)
    case ControllerCrash => s.(queue := [])
    case _ => s
  }

  predicate IsPollerStep(step: Step)
  {
    || step.Fetch? || step.FetchEmpty? || step.ConnectionError?
    || step.Write? || step.Acknowledge? || step.ReplyLost? || step.Crash?
  }

  function Next(s: State, step: Step): State
    requires Enabled(s, step)
  {
    match step
    case Post(command) => s.(rows := Insert(s.rows, command, s.clock))
    case Tick(seconds) => s.(clock := s.clock + seconds)
    case _ => if IsPollerStep(step) then PollerNext(s, step) else ChannelNext(s, step)
  }

  /** The steps can be taken one after the other. */
  ghost predicate Valid(s: State, steps: seq<Step>)
    decreases |steps|
  {
    steps == [] || (Enabled(s, steps[0]) && Valid(Next(s, steps[0]), steps[1..]))
  }

  ghost function Run(s: State, steps: seq<Step>): State
    requires Valid(s, steps)
    decreases |steps|
  {
    if steps == [] then s else Run(Next(s, steps[0]), steps[1..])
  }

  lemma {:induction false} RunConcat(s: State, a: seq<Step>, b: seq<Step>)
    requires Valid(s, a) && Valid(Run(s, a), b)
    ensures Valid(s, a + b) && Run(s, a + b) == Run(Run(s, a), b)
    decreases |a|
  {
    if a == [] {
      assert a + b == b;
    } else {
      RunConcat(Next(s, a[0]), a[1..], b);
      assert (a + b)[1..] == a[1..] + b;
    }
  }
}
