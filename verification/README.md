# Verified model of Cherum

Cherum connects a drone to an operator's browser. A server keeps a table of emergency commands and stores
telemetry; a poller and a controller next to the drone carry commands down and telemetry up through named
pipes; the web page runs an object detector over the video. This project models the three parts of that code
that carry an algorithm or a protocol, and proves what they guarantee:

* **Detection post-processing** (`server/cherum/static/js/video.js`): decoding the column-major tensor, the
  stable sort, greedy suppression by overlap, the letterbox and its inverse, the planar conversion and the
  frame-rate meter. Modules `JsNumbers`, `Reals`, `BoxGeometry`, `Suppression`, `Sorting`, `Detection`,
  `Letterbox`, `Planar`, `FpsMeter`.
* **Emergency commands** (`server/cherum/__init__.py`, `client/poller.py`, `client/controller.py`): a system of
  interleaved steps of the operator, the server, the poller, the FIFO and the controller, with crashes, lost
  replies, failed connections and lost bytes. Theorems range over all runs. Modules `Commands`, `Protocol`,
  `Safety`, `Losses`, `Convergence`, `Delivery`, `FailsafePolls`, `FailsafeDelivery`; `Deployment` holds the programs themselves as
  classes and shows that they perform steps of the protocol.
* **Telemetry** (`client/controller.py`, `client/telemetry.py`, `server/cherum/telemetry_store.py`): the queues and
  publish sessions, the bounded line reader, the messages and their dispatch, and the batching store. Modules
  `Publisher`, `Framing`, `Tearing`, `Gluing`, `Messages`, `TelemetryStore`, `Pacing`.

`Sequences` and `Options` hold what they share. To verify the project: `dafny verify dfyconfig.toml`.

## Reading the model

* Numbers of the page are exact reals extended by NaN and the infinities (`JsNumbers`). A union of zero can meet
  a non-zero intersection only as a difference of equal non-zero numbers, which is `+0` in IEEE arithmetic, so
  leaving out signed zeros does not change a verdict.
* `Array.prototype.sort` is a stable sort; `Sorting.StableOrderUnique` shows that stability and the comparator
  determine the result, so nothing else is assumed about it.
* Row `i` of the commands table has id `i + 1`. Timestamps have a resolution of one second, and a fetch may
  return any row of maximal timestamp. The clock is monotone, there is one poller, and only it calls `/done`.
* A byte in the pipe carries its origin and the number of poller failures before it was written. These are
  history: no step of the model looks at them.
* In `read_pipe` only the byte of the second, blocking read is queued; a byte returned by the first read is
  dropped, and the FIFO may drop bytes of its own. The end of the file is queued as an empty text.
* Opening the pipe for writing blocks the poller until there is a reader; in the model the write happens later.
* Times of the store are microseconds. A write is accepted when the call returns, and fails when it raises.
* A text of a telemetry message carries what `float` makes of it; how texts are parsed is not modelled.
* Coroutines of the controller switch only at their awaits, so a publish session runs in one piece. A message is
  identified with its JSON text.

Where the code does less than its shape suggests, the model keeps the code and states the exact condition:
`BoxGeometry.VerdictAgreesExactly` (the intersection is not clamped), `Convergence.ConvergesExactly` (tied
timestamps), `TelemetryStore.TriggerExact`, `TelemetryStore.FreshExactly` and the three limits of `Pacing`
(`timedelta.seconds` drops whole days), `Framing.RoundTripExactly` (the reader's limits) and
`Gluing.ReadAsPublishedExactly` (sessions that die between a message and its newline).

## Model

| member | source | states |
|---|---|---|
| BoxGeometry.KeepsSymmetric | server/cherum/static/js/video.js:198-218 | the ratio, and with it the `< 0.7` verdict, does not depend on the order of the two boxes |
| BoxGeometry.NeverKeepsItself | server/cherum/static/js/video.js:193-200 | a box of any shape never passes its own filter: its ratio is 1, or NaN for an empty area |
| BoxGeometry.ScaleInvariant | server/cherum/static/js/video.js:182-218 | stretching the axes by independent positive factors leaves the ratio and the verdict of any two boxes unchanged |
| BoxGeometry.IntersectionScale | server/cherum/static/js/video.js:210-218 | the intersection is multiplied by the product of the axis factors |
| BoxGeometry.UnionScale | server/cherum/static/js/video.js:202-208 | the union is multiplied by the same product |
| BoxGeometry.OverlapIsExtent | server/cherum/static/js/video.js:210-218 | for ordered boxes the code's extent along an axis is the length of the longest stretch both boxes share on it, or, if they share none, minus the distance between them, and nothing else is |
| BoxGeometry.KeepsByCoordinates | server/cherum/static/js/video.js:198-218 | for boxes of any shape: the `< 0.7` verdict as an inequality between coordinates, without a division |
| BoxGeometry.IouIsGeometric | server/cherum/static/js/video.js:198-218 | for ordered boxes, not both empty and not apart on both axes: positive union, ratio at most 1, the standard ratio of what they share if they meet, and the standard verdict: shared less than seven tenths of what they cover together |
| BoxGeometry.VerdictAgreesExactly | server/cherum/static/js/video.js:198-218 | over all ordered boxes, the code agrees with that standard verdict if and only if a condition on the areas and the extents holds |
| BoxGeometry.DiagonalSquaresSuppressEachOther | server/cherum/static/js/video.js:217 | counterexample: unit squares at (0,0) and (2,2) get ratio 1 and suppress each other |
| Suppression.SurvivorsShrink | server/cherum/static/js/video.js:191-194 | the filter by the first box strictly shortens the list, so the loop ends |
| Suppression.NmsUnfold | server/cherum/static/js/video.js:191-194 | one turn of the loop: the head is kept, the rest of the run is the run on its survivors |
| Suppression.NmsSnoc | server/cherum/static/js/video.js:189-195 | a worst-scored extra box is appended to the result if and only if everything selected spares it |
| Suppression.NmsIsSelection | server/cherum/static/js/video.js:189-195 | the shrinking-list loop returns exactly the positions a single pass from the front keeps |
| Suppression.KeptIsKernel | server/cherum/static/js/video.js:189-195 | a position is kept if and only if every kept earlier position spares it |
| Suppression.KernelUnique | server/cherum/static/js/video.js:189-195 | any selection with that property is the loop's selection |
| Suppression.PrefixStable | server/cherum/static/js/video.js:189-195 | suppressing the first n elements alone is the whole result cut to them, and a prefix of it |
| Suppression.NmsSound | server/cherum/static/js/video.js:189-195 | no two elements of the result suppress each other, in either argument order |
| Suppression.NmsComplete | server/cherum/static/js/video.js:189-195 | every discarded position is suppressed by a kept one in front of it |
| Suppression.NmsIdempotent | server/cherum/static/js/video.js:189-195 | suppressing a result again changes nothing |
| Suppression.KeptCongruent | server/cherum/static/js/video.js:189-195 | the kept positions depend on nothing but the pairwise verdicts |
| Sorting.StableOrderExists | server/cherum/static/js/video.js:189 | the order used lists every position, larger score first, equal scores in their original order |
| Sorting.SortsStably | server/cherum/static/js/video.js:189 | it lists every position once, never a smaller score in front of a larger one, equal scores by position |
| Sorting.StableOrderUnique | server/cherum/static/js/video.js:189 | it is the only such order, whatever the sorting algorithm |
| Detection.CellsDistinct | server/cherum/static/js/video.js:170-181 | the tensor has 529200 cells; the index arithmetic stays inside it exactly for 63 rows of 8400, and different (row, column) pairs have different cells |
| Detection.EveryCellIsRead | server/cherum/static/js/video.js:172-186 | decoding reads every cell of the tensor, for exactly one column: as the centre or extent of its box, or as a class score that becomes its class and score as soon as it exceeds the score it has |
| Detection.DecodeExactly | server/cherum/static/js/video.js:172-186 | a box is decoded from a column if and only if its centre and extents are the scaled coordinate cells, and its class is the first with the highest of the 59 class cells and its score that cell, or class 0 with score 0 if none is positive |
| Detection.BestIsFirstMaximum | server/cherum/static/js/video.js:172-174 | the reduce returns the first class attaining the maximal score if some score is positive, and class 0 with score 0 otherwise |
| Detection.DecodedRectangle | server/cherum/static/js/video.js:178-186 | the box has the predicted centre and extents, scaled from the model square to the image, and is ordered for non-negative extents |
| Detection.VerdictLaws | server/cherum/static/js/video.js:193-218 | the overlap verdict is irreflexive and symmetric, so every suppression law applies to it |
| Detection.Suppress | server/cherum/static/js/video.js:190-195 | the loop ends, and returns the selection at every solution of the kernel equation; there is one |
| Detection.SuppressionLaws | server/cherum/static/js/video.js:189-195 | for boxes: the best n alone give the first part of the result, and suppression is idempotent |
| Detection.ProcessOutput | server/cherum/static/js/video.js:168-196 | the result is, at the kept positions, the 8400 boxes that the cells of their columns describe: mutually compatible, best score first, and every other box is suppressed by a returned one of no smaller probability |
| Detection.KeptPositionsUnique | server/cherum/static/js/video.js:189-195 | any stable order together with any kernel of the sorted list gives the returned positions, for any verdict |
| Detection.DetectionsCompatible | server/cherum/static/js/video.js:189-195 | sorting and suppressing under any irreflexive symmetric verdict returns boxes that do not suppress each other in either argument order |
| Detection.DetectionsDescending | server/cherum/static/js/video.js:189-195 | they are a subsequence of the sorted list, with non-increasing probability |
| Detection.DetectionsComplete | server/cherum/static/js/video.js:189-195 | every box not returned is suppressed by a returned one of no smaller probability |
| Detection.DetectionsCorrect | server/cherum/static/js/video.js:189-218 | all three for the overlap verdict of the source, with no assumption left |
| Detection.RescalingInvariance | server/cherum/static/js/video.js:168-196 | the returned columns and their order are the same for all positive image widths and heights |
| Letterbox.PlacementFits | server/cherum/static/js/video.js:66-80 | the picture keeps its aspect ratio, its longer side is 640, and it is centred in the 640 square |
| Letterbox.DrawBoxesUndoesLetterbox | server/cherum/static/js/video.js:66-106 | a video point drawn into the square and mapped back by drawBoxes has the same relative position on the canvas, in both aspect branches |
| Letterbox.MapsKeepProportions | server/cherum/static/js/video.js:66-106 | each of the two maps alone keeps proportions: a point is as far into the picture as into the video, and as far onto the canvas as into the picture |
| Planar.PrepareInput | server/cherum/static/js/video.js:152-158 | the input is the red, green and blue planes of the pixels divided by 255, with all values in [0, 1] |
| Planar.PlanarCell | server/cherum/static/js/video.js:152-158 | cell c*n+p times 255 is channel c of pixel p |
| Planar.ColoursRecoverable | server/cherum/static/js/video.js:152-158 | two buffers with the same planar form agree on every colour byte |
| FpsMeter.Meter.constructor | server/cherum/static/js/video.js:3-4 | a fresh meter has seen no frame and shown nothing |
| FpsMeter.Meter.Frame | server/cherum/static/js/video.js:49-64 | after every frame the counter and accumulator are those of the rates since the last complete window, and what was shown so far is the means of the consecutive windows of 11 rates |
| FpsMeter.RateAdded | server/cherum/static/js/video.js:54-63 | a new rate completes a window exactly when ten are pending; otherwise it joins them |
| FpsMeter.RateOfFrame | server/cherum/static/js/video.js:49-56 | a frame after a non-zero timestamp adds the rate 1000 over the milliseconds passed, infinite if none passed; any other frame adds none |
| FpsMeter.ShownIsMean | server/cherum/static/js/video.js:58-63 | one value is shown per eleven rates; eleven times that value is the sum of those rates, and it is infinite if one of them is |
| FpsMeter.ShownSnoc | server/cherum/static/js/video.js:58-63 | the windows tile the rates: a new rate leaves the earlier windows as they are |
| FpsMeter.RateAt | server/cherum/static/js/video.js:53-56 | for increasing non-zero timestamps there is one finite rate per pair of consecutive frames |
| FpsMeter.SumOfRates | server/cherum/static/js/video.js:53-56 | for any n consecutive rates: their sum times the time they took is at least n squared |
| FpsMeter.ShownAtLeastTrueRate | server/cherum/static/js/video.js:58-63 | every value shown is at least 11 divided by the time of its window |
| FpsMeter.ShownOfFrames | server/cherum/static/js/video.js:49-64 | for increasing timestamps: eleven times the k-th value shown is the sum of the eleven rates between its twelve frames |
| FpsMeter.ShownWithinBounds | server/cherum/static/js/video.js:58-63 | and it lies between any bounds of those rates |
| Commands.CodesCarryActions | client/poller.py:42-47 | the poller's codes and the controller's table compose to the action the command names, and other commands have no code |
| Commands.NewestExists | server/cherum/__init__.py:123-125 | a non-empty table has a row of maximal timestamp |
| Safety.StepKeepsInv | client/poller.py:35-49 | every step of operator, server, poller, FIFO and controller keeps the invariant |
| Safety.StepKeepsChannel | client/controller.py:11-27 | no step reorders or duplicates bytes between the poller's writes and the drone's actions |
| Safety.EndToEndSafety | client/controller.py:118-133 | in every run the actions are an order-preserving, non-duplicating subsequence of the bytes written, each the action its command names; server commands execute in timestamp order, and in id order when timestamps are distinct |
| Safety.AcknowledgedOnlyIfWritten | client/poller.py:37-49 | in every reachable state a recognised command is done only if its own code was written, and the same command is written twice only with a poller failure in between |
| Safety.OnlyTheFetchedRowIsMarked | server/cherum/__init__.py:136-145 | the only row a step can mark is the one being acknowledged, already written if recognised; no other row changes |
| Safety.DoneOnlyIfFetched | server/cherum/__init__.py:119-129 | in every run a done command was fetched at a moment when no command on record was newer |
| Safety.DoneNeverReverts | server/cherum/__init__.py:108-117 | over every run rows are only appended, keep their command and timestamp, and stay done once done |
| Safety.ClockExactly | server/cherum/schema.sql:4-9 | over every run the clock that stamps commands moves with the seconds that pass and with nothing else |
| Safety.PostExactly | server/cherum/__init__.py:108-117 | a post appends its command with the time of the clock, undone; a post without a command changes nothing |
| Losses.QueuedTextIsExecuted | client/controller.py:120-133 | in every reachable state the controller executes each queued command; it never takes one for unknown |
| Losses.EveryByteAccounted | client/controller.py:11-27 | in every run, counting occurrences, the bytes written are those executed, those queued or in the pipe, and those dropped by a discarding read, a loss in the pipe or a controller crash |
| Losses.DropsExactly | client/controller.py:11-27 | a discarding read takes the first byte, a loss one byte wherever it is, a controller crash what is queued; everything else stays in place |
| Losses.LosslessRun | client/controller.py:11-27 | from any state a run can be in, whatever was lost before: during a run without such steps exactly what is written enters the channel, in order |
| Losses.LosslessRunExecutesAll | client/controller.py:11-27 | without such steps from the start, what was executed, queued and in the pipe is exactly what was written, in order |
| Convergence.QuietStepProgresses | client/poller.py:35-49 | ranking: without posts and failures every poller step, and every finished cycle, brings the system strictly closer to rest: newest command done, poller at its loop head |
| Convergence.Converges | client/poller.py:35-49 | from every reachable state two quiet cycles, or five quiet poller steps, make the uniquely newest command done, with its code written if it has one, and leave the poller at its loop head |
| Convergence.PollerCanStep | client/poller.py:35-49 | the poller always has a quiet step to take |
| Convergence.SilentAfterConvergence | client/poller.py:39-40 | from every reachable state, after those two cycles or five steps, any further quiet run leaves the table and the written bytes as they are |
| Convergence.SupersededNeverFetched | server/cherum/__init__.py:123-125 | a command with a later one on record is not fetched in any continuation, failures included |
| Convergence.TiedNewestCanStarve | server/cherum/schema.sql:4-9 | wherever the poller is in its turn: if another row shares the newest timestamp and the newest command is neither done nor in hand, some quiet run of any number of cycles leaves it undone |
| Convergence.TurnInHandFinishes | client/poller.py:37-49 | a turn that is already about the newest command ends with it done, ties or not |
| Convergence.TiedPostsExample | server/cherum/schema.sql:4-9 | such a state is reached by two posts within one second |
| Convergence.ConvergesExactly | server/cherum/__init__.py:119-129 | for every reachable state: all quiet runs of two cycles finish the newest command if and only if it is done already, or shares its timestamp with no other, or the poller has it in hand |
| Delivery.NewestIsExecutedOnce | client/poller.py:35-49 | from every reachable state: if the newest command is recognised, alone in its second and not written yet, a quiet run without losses that converges and drains the channel executes it exactly once, as the drone's last action |
| Delivery.PostedCommandIsExecutedOnce | client/controller.py:118-133 | hence a recognised command posted in any reachable state, later than all others, is executed exactly once, and last |
| Delivery.CanDeliver | client/poller.py:35-49 | from every state such a run exists |
| FailsafePolls.StepSimulates | client/poller.py:8-16 | erasing what stems from failed polls turns each step into the same step, or none, of the erased system |
| FailsafePolls.FailsafeTransparent | client/poller.py:8-49 | erasing the failed polls from any run leaves a valid run without connection errors, ending in the erased state |
| FailsafePolls.FailsafeTransparentFromStart | client/poller.py:8-49 | from the start: same table, and exactly the server-originated writes and actions |
| FailsafeDelivery.FailsafeIsWritten | client/poller.py:8-47 | in every reachable state with the failsafe command in hand, the write appends one byte of that origin, which the controller's table makes the action `on_error` names, or nothing if it names none |
| FailsafeDelivery.FailsafeCount | client/poller.py:8-47 | over every run: one failsafe byte is written per failed poll that gets to its write, if `on_error` is a command, and none otherwise |
| FailsafeDelivery.FailsafeCountFromStart | client/poller.py:8-47 | the same from the start: their number, or none |
| FailsafeDelivery.FailsafeIsExecutedOnce | client/controller.py:118-133 | from every reachable state with the failsafe command in hand, a quiet run without losses that drains the channel executes it exactly once, right after what was on its way before |
| FailsafeDelivery.FailedPollIsExecutedOnce | client/poller.py:8-16 | hence a poll that fails to connect in any reachable state makes the drone do what `on_error` names, once |
| Deployment.CommandTable.Command | server/cherum/__init__.py:108-117 | a post appends an undone row at the current time; an empty command leaves the table as it is |
| Deployment.CommandTable.Fetch | server/cherum/__init__.py:119-134 | the reply is some row of maximal timestamp, or a done command without id on an empty table, and a ping is recorded |
| Deployment.CommandTable.Done | server/cherum/__init__.py:136-145 | exactly the row with that id becomes done; an unknown id changes nothing |
| Deployment.Poller.Poll | client/poller.py:8-16 | the server's reply, or the failsafe command without id on a connection error; one polling step of the protocol from any state with the poller at its loop head |
| Deployment.Poller.WriteCode | client/poller.py:41-47 | exactly "l", "h" or "r" for land, loiter or rtl, wherever the command comes from, or nothing, is appended to the pipe; the write step of the protocol from any state the poller can be in there |
| Deployment.Poller.AcknowledgeRow | client/poller.py:19-23 | the row is marked unless the request is lost, and the poller survives only a delivered reply; the last step of the turn from any state the poller can be in there |
| Deployment.Poller.Turn | client/poller.py:35-49 | one turn of the loop without interference, with any failures, is the valid run of protocol steps its poll calls for |
| Deployment.OthersLeaveThePollerItsTurn | client/poller.py:35-49 | whatever others do between two sections of the loop, the next section's step stays enabled |
| Deployment.Controller.ReadPipe | client/controller.py:11-27 | one turn is one reading step of the protocol: a byte read leaves the pipe, and only what the blocking read returns is queued |
| Deployment.Controller.ProcessCommand | client/controller.py:118-133 | one turn is the processing step of the protocol: the head of the queue goes, and "l", "h" or "r" lands, holds or returns; anything else does nothing |
| Publisher.Telemetry.PubTelemetry | client/controller.py:38-60 | the session loop, with a write failing anywhere, has the effect of the closed-form session: the messages published, the one lost, the stream written |
| Publisher.SessionAccounts | client/controller.py:38-60 | a session keeps the account: everything in order, one message missing if it failed |
| Publisher.LossBound | client/controller.py:30-60 | over every run, published, queued and held messages are the enqueued ones in order, with exactly one missing per failed session |
| Publisher.LossBoundFromStart | client/controller.py:30-60 | the same from the initial state |
| Publisher.SessionLimits | client/controller.py:43-57 | at most 100 messages per session; nothing moves without a reader; a session fails exactly when a write raised before its target; otherwise nothing is lost |
| Publisher.SessionPublishes | client/controller.py:43-57 | a session publishes exactly the front of its queue: as many messages as there are, up to 100, as long as both their writes succeed; if a write raises, the next message is gone |
| Publisher.CanPublishAll | client/controller.py:30-60 | from every state, with the parser and a reader at work, everything on its way is published, in order and without loss |
| Framing.ReadSession | client/telemetry.py:24-32 | the loop of 100 reads sends the non-empty lines of the stream |
| Framing.LinesPartition | client/telemetry.py:26-32 | for any content the pieces sent join to a prefix of the stream, at most 100 of them, each at most 2048 characters with a newline only at its end |
| Framing.LinesAreFull | client/telemetry.py:24-32 | for any content: every piece ends its line, fills 2048 characters or ends the stream; if fewer pieces than the budget are read, everything is |
| Framing.RoundTripExactly | client/telemetry.py:24-32 | newline-free messages are read back exactly, each with its newline, if and only if there are at most 100 and each is shorter than 2048 |
| Framing.MessageLimit | client/telemetry.py:24-26 | of more than 100 messages exactly the first 100 are read |
| Framing.LengthLimit | client/telemetry.py:26 | a message of 2048 characters is read without its newline, which follows as a piece of its own |
| Framing.LimitsExample | client/telemetry.py:24-26 | inputs on which the round trip fails: 101 messages, and one message of 2048 characters |
| Framing.LinesOfStream | client/telemetry.py:24-32 | framed messages with an unterminated rest are read as the messages the budget allows, then the rest as a piece of its own |
| Tearing.SessionReadBack | client/controller.py:45-52 | whichever write of a session fails, what it adds to the stream is read in one pass as exactly the messages it published, followed by the torn text if there is one |
| Tearing.SessionTears | client/controller.py:45-59 | a session's first message is glued to what an earlier session left unfinished, the others are lines of their own, and a torn text becomes the new unfinished rest |
| Tearing.StreamOverRun | client/controller.py:38-60 | over every run the stream has one line per published message, behind the fragment the steps leave in front of it; fragments, in front of a message or at the end, are at most as many as sessions have failed |
| Tearing.ReadTornStream | client/telemetry.py:24-32 | such a stream is read line by line; a message with no fragment in front of it is read as itself |
| Gluing.TearsExactly | client/controller.py:45-59 | no message of a run has a fragment in front of it if and only if no session that dies between text and newline is followed by one that gets a message across |
| Gluing.ReadAsPublishedExactly | client/telemetry.py:24-32 | over every run of one-line messages: what is read starts with the published messages, each as itself, if and only if there is a read for each, each is shorter than 2048, and no session tears before a later one delivers; what follows is read from the unfinished rest |
| Gluing.TornMessageExample | client/controller.py:48-52 | counterexample, as a run from the start: "a" loses its newline, "b" is published, and the reader gets "ab" |
| TelemetryStore.PointBuffer.StorePoint | server/cherum/telemetry_store.py:119-169 | a store appends the point and flushes when due |
| TelemetryStore.PointBuffer.CheckFlush | server/cherum/telemetry_store.py:171-176 | the flush is attempted exactly at 100 points or five seconds by `.seconds` |
| TelemetryStore.PointBuffer.FlushBuffer | server/cherum/telemetry_store.py:178-187 | an accepted write empties the buffer and restarts the clock; a failed one changes neither; an empty buffer is not written |
| TelemetryStore.StoreExactly | server/cherum/telemetry_store.py:119-187 | a store writes exactly when five seconds, not counting whole days, have passed since the last flush or a hundred points wait; what an accepted, a failed and no write leave |
| TelemetryStore.WriteAttemptedExactly | server/cherum/telemetry_store.py:173-176 | less than a day after the last flush: the write is attempted if and only if 5000000 microseconds have passed or 100 points wait |
| TelemetryStore.PointBuffer.Request | server/cherum/__init__.py:180-227 | a telemetry request, whatever is posted, stores the reading it is understood as, if any, answers with the handler's status, stores nothing unless it confirms, and closes in any case |
| Messages.MonitorsAreUnderstood | client/controller.py:63-115 | every monitor's message is confirmed by the server and recorded with the values it was built from |
| Messages.RefusedExactly | server/cherum/__init__.py:180-185 | what is turned down and with which status: no token, no JSON, an empty body, one without a type, and values other than objects |
| Messages.RecordedExactly | server/cherum/__init__.py:187-227 | an object with a type is recorded exactly as its fields say, for the drone they name or the default one; a known type whose fields say nothing is an error, an unknown type is confirmed without a record |
| TelemetryStore.StoreSafe | server/cherum/telemetry_store.py:119-187 | every sequence of store, flush and close keeps conservation and the buffer bound, whatever writes fail |
| TelemetryStore.StoreSafeFromStart | server/cherum/telemetry_store.py:119-187 | accepted batches followed by the buffer are exactly the points stored, and the buffer holds at most 99 plus the failed writes since the last accepted one |
| TelemetryStore.RequestBound | server/cherum/__init__.py:55 | with the teardown the buffer between requests holds at most one point per failed write, and none after an accepted one; nothing is lost or duplicated |
| TelemetryStore.RequestsBounded | server/cherum/__init__.py:55 | the same over every sequence of requests, whose points are exactly the readings their bodies are understood as |
| TelemetryStore.BufferedSinceLastFlush | server/cherum/telemetry_store.py:171-187 | under a monotone clock every buffered point arrived at or after the last flush, in order |
| TelemetryStore.TriggerExact | server/cherum/telemetry_store.py:173-176 | the time trigger means five elapsed seconds exactly unless a day has passed with a remainder below five seconds |
| TelemetryStore.FreshExactly | server/cherum/telemetry_store.py:171-187 | after a store without a failed write all waiting points are under five seconds old if and only if the stale condition fails, and it always fails within a day of the last flush |
| TelemetryStore.FreshAfterStore | server/cherum/telemetry_store.py:171-187 | over every run, failed writes included: a store without a failed write less than a day after the last flush leaves every waiting point under five seconds old |
| Pacing.GapKeepsFreshExactly | server/cherum/telemetry_store.py:173-176 | while writes are accepted: a bound on the gap between stores keeps every waiting point under five seconds old (plus the latency of the call that stored it) after every store, over all runs, if and only if it is at most a day less five seconds |
| Pacing.GapFromStartExactly | server/cherum/telemetry_store.py:171-187 | whatever writes fail: a bound on the gaps from the store's creation on keeps all waiting points under five seconds old after every store without a failed write, over all runs, if and only if 99 gaps are less than a day |
| Pacing.GapAloneExactly | server/cherum/telemetry_store.py:171-187 | whatever writes fail and whenever the first store comes: a bound on the gap between stores does so if and only if 98 gaps are less than five seconds |
| Pacing.GapBelowADayLeavesStalePoint | server/cherum/telemetry_store.py:173 | counterexample: stores at 4 seconds and at a day and 2 seconds, every write accepted, leave the first point waiting |
| TelemetryStore.DayGapLeavesStalePoint | server/cherum/telemetry_store.py:173 | counterexample: a gap of one day and two seconds leaves the earlier point waiting |

## Left out

- Floating-point rounding, NaN or infinite tensor entries, and tensors of another shape: the model works on exact reals.
- The live frame path's stride-6 rows, canvas drawing, WebRTC, WebGPU, the network itself, the map and all other page code.
- HTTP, routing, SQLite and InfluxDB internals, Flux queries and the read-only queries, time zones and page rendering.
- Tokens of the poller: its requests are taken as authorised; the reply without `done` to an unauthorised fetch is a poller failure, and an unauthorised acknowledgement is not modelled.
- MAVSDK and argument parsing: telemetry is an arbitrary sequence of messages.
- Partial writes to a pipe: every small write happens as a whole or raises. The FIFO is an ordered channel that may lose any byte.
- Text of the telemetry stream that a reader closing early leaves behind: the stream is what was written.
- Outcomes of asynchronous database writes after the call returned, two flushes at once, and the closing of the database client.
- Deployment.Poller.Turn: runs without interference from others; with interference, each of its three sections is one protocol step from any state (their own rows), and the protocol's runs interleave those steps.
- TelemetryStore.FreshAfterStore: assumes less than a day since the last flush, which callers do not see; in terms of the gaps between stores, with and without failing writes, the guarantees are the three limits of Pacing.
