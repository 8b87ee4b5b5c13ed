/** Command names, pipe codes and drone actions, and the commands table the server keeps. */
module Commands {
  import opened Options

  datatype Action = Land | Hold | ReturnToLaunch

  /** The byte the poller writes for a command (client/poller.py, lines 42-47); other commands write nothing. */
  function CodeOf(command: string): Option<char>
  {
    if command == "land" then Some('l')
    else if command == "loiter" then Some('h')
    else if command == "rtl" then Some('r')
    else None
  }

  /** What the controller does on a queued text (client/controller.py, lines 123-133). */
  function ActionFor(text: string): Option<Action>
  {
    if text == "l" then Some(Land)
    else if text == "h" then Some(Hold)
    else if text == "r" then Some(ReturnToLaunch)
    else None
  }

  /** The action a command name stands for in the operator's vocabulary. */
  function ActionNamed(command: string): Option<Action>
  {
    match command
    case "land" => Some(Land)
    case "loiter" => Some(Hold)
    case "rtl" => Some(ReturnToLaunch)
    case _ => None
  }

  /** The poller's table and the controller's table are inverse to each other. */
  lemma CodesCarryActions(command: string)
    ensures CodeOf(command).Some? <==> ActionNamed(command).Some?
    ensures CodeOf(command).Some? ==> ActionFor([CodeOf(command).value]) == ActionNamed(command)
  {
  }

  /** A row of the commands table. Ids count up from 1 and rows are never deleted, so row `i` has id `i + 1`. */
  datatype Row = Row(command: string, done: bool, createdAt: int)

  /** A possible answer of `ORDER BY created_at DESC LIMIT 1`: ties are broken arbitrarily. */
  ghost predicate IsNewest(rows: seq<Row>, row: nat)
  {
    row < |rows| && forall j :: 0 <= j < |rows| ==> rows[j].createdAt <= rows[row].createdAt
  }

  /** POST /command: an empty command is ignored. */
  function Insert(rows: seq<Row>, command: string, now: int): seq<Row>
  {
    if command == "" then rows else rows + [Row(command, false, now)]
  }

  /** POST /done/id: an id that matches no row changes nothing. */
  function MarkDone(rows: seq<Row>, id: int): seq<Row>
  {
    if 1 <= id <= |rows| then rows[id - 1 := rows[id - 1].(done := true)] else rows
  }

  lemma {:induction false} NewestExists(rows: seq<Row>)
    requires rows != []
    ensures exists row: nat :: IsNewest(rows, row)
  {
    if |rows| == 1 {
      assert IsNewest(rows, 0);
    } else {
      var n := |rows| - 1;
      NewestExists(rows[..n]);
      var row: nat :| IsNewest(rows[..n], row);
      forall j | 0 <= j < |rows|
        ensures rows[j].createdAt <= rows[if rows[n].createdAt > rows[row].createdAt then n else row].createdAt
      {
        if j < n {
          assert rows[..n][j] == rows[j];
        }
      }
      assert IsNewest(rows, if rows[n].createdAt > rows[row].createdAt then n else row);
    }
  }
}
