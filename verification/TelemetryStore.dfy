/** The batching buffer of server/cherum/telemetry_store.py. Times are microseconds; a point carries the
    moment it entered the buffer. */
module TelemetryStore {
  import opened Options
  import opened Messages

  datatype Point = Point(reading: Reading, arrived: int)

  const BUFFER_SIZE := 100
  const FLUSH_INTERVAL := 5
  const SECOND: int := 1_000_000
  const DAY: int := 86_400 * SECOND

  /** The buffer with its history: the batches the database accepted, everything stored, and the failed writes
      since the last accepted one. */
  datatype State = State(buffer: seq<Point>, lastFlush: int, accepted: seq<seq<Point>>, stored: seq<Point>, failed: nat)

  function Init(now: int): State
  {
    State([], now, [], [], 0)
  }

  /** `(now - last_flush).seconds`: a timedelta's whole days are not counted. */
  function SecondsSince(lastFlush: int, now: int): int
  {
    (now - lastFlush) % DAY / SECOND
  }

  predicate FlushDue(s: State, now: int)
  {
    |s.buffer| >= BUFFER_SIZE || SecondsSince(s.lastFlush, now) >= FLUSH_INTERVAL
  }

  /** `ok` tells whether the write call returns or raises. An empty buffer is not written at all. */
  function Flush(s: State, ok: bool, now: int): State
  {
    if s.buffer == [] then s
    else if ok then s.(buffer := [], lastFlush := now, accepted := s.accepted + [s.buffer], failed := 0)
    else s.(failed := s.failed + 1)
  }

  /** Any `store_*` call: the point enters at `p.arrived`, the clock is read at `check`, and again at `flush`
      after a successful write. */
  function Store(s: State, p: Point, check: int, ok: bool, flush: int): State
  {
    var t := s.(buffer := s.buffer + [p], stored := s.stored + [p]);
    if FlushDue(t, check) then Flush(t, ok, flush) else t
  }

  /** `close` flushes; closing the client is outside this model. */
  datatype Op =
    | StoreOp(p: Point, check: int, ok: bool, flush: int)
    | FlushOp(ok: bool, now: int)
    | CloseOp(ok: bool, now: int)

  function Apply(s: State, op: Op): State
  {
    match op
    case StoreOp(p, check, ok, flush) => Store(s, p, check, ok, flush)
    case FlushOp(ok, now) => Flush(s, ok, now)
    case CloseOp(ok, now) => Flush(s, ok, now)
  }

  function ApplyAll(s: State, ops: seq<Op>): State
    decreases |ops|
  {
    if ops == [] then s else ApplyAll(Apply(s, ops[0]), ops[1..])
  }

  /** The store class. `accepted`, `stored` and `failed` are history. */
  class PointBuffer {
    var buffer: seq<Point>
    var lastFlush: int
    ghost var accepted: seq<seq<Point>>
    ghost var stored: seq<Point>
    ghost var failed: nat

    ghost function View(): State
      reads this
    {
      State(buffer, lastFlush, accepted, stored, failed)
    }

    constructor (now: int)
      ensures View() == Init(now)
    {
      buffer, lastFlush, accepted, stored, failed := [], now, [], [], 0;
    }

    method FlushBuffer(ok: bool, now: int)
      modifies this
      ensures View() == Flush(old(View()), ok, now) == Apply(old(View()), FlushOp(ok, now))
      ensures old(buffer) == [] ==> View() == old(View())
      ensures old(buffer) != [] && ok ==>
                buffer == [] && lastFlush == now && accepted == old(accepted) + [old(buffer)] && failed == 0
      ensures old(buffer) != [] && !ok ==>
                buffer == old(buffer) && lastFlush == old(lastFlush) && accepted == old(accepted)
                && failed == old(failed) + 1
      ensures stored == old(stored)
    {
      if buffer != [] {
        if ok {
          accepted := accepted + [buffer];
          buffer := [];
          lastFlush := now;
          failed := 0;
        } else {
          failed := failed + 1;
        }
      }
    }

    method CheckFlush(check: int, ok: bool, flush: int)
      modifies this
      ensures View() == if FlushDue(old(View()), check) then Flush(old(View()), ok, flush) else old(View())
    {
      var timeSinceFlush := SecondsSince(lastFlush, check);
      if |buffer| >= BUFFER_SIZE || timeSinceFlush >= FLUSH_INTERVAL {
        FlushBuffer(ok, flush);
      }
    }

    method StorePoint(p: Point, check: int, ok: bool, flush: int)
      modifies this
      ensures View() == Store(old(View()), p, check, ok, flush) == Apply(old(View()), StoreOp(p, check, ok, flush))
    {
      buffer := buffer + [p];
      stored := stored + [p];
      CheckFlush(check, ok, flush);
    }

    method Close(ok: bool, now: int)
      modifies this
      ensures View() == Flush(old(View()), ok, now) == Apply(old(View()), CloseOp(ok, now))
    {
      FlushBuffer(ok, now);
    }

    /** A telemetry request: the handler stores what it understands, and the teardown closes in any case. */
    method Request(post: Post, arrived: int, check: int, ok: bool, flush: int, closeOk: bool, close: int)
      returns (status: int)
      modifies this
      ensures status == Dispatch(post).status
      ensures View() == ServeRequest(old(View()), PointOf(post, arrived), check, ok, flush, closeOk, close)
                     == Serve(old(View()), Call(post, arrived, check, ok, flush, closeOk, close))
      ensures status != CONFIRMED ==> stored == old(stored)
      ensures Dispatch(post).reading.Some? ==> stored == old(stored) + [Point(Dispatch(post).reading.value, arrived)]
    {
      OnlyConfirmedReadings(post);
      var reply := Dispatch(post);
      if reply.reading.Some? {
        StorePoint(Point(reply.reading.value, arrived), check, ok, flush);
      }
      Close(closeOk, close);
      status := reply.status;
    }
  }

  // ---------- Conservation ----------

  function Flatten(batches: seq<seq<Point>>): seq<Point>
  {
    if batches == [] then [] else Flatten(batches[..|batches| - 1]) + batches[|batches| - 1]
  }

  /** Accepted batches followed by the buffer are exactly what was stored, in order and once each. */
  ghost predicate Conserved(s: State)
  {
    Flatten(s.accepted) + s.buffer == s.stored
  }

  lemma FlushConserves(s: State, ok: bool, now: int)
    requires Conserved(s)
    ensures Conserved(Flush(s, ok, now))
  {
    assert (s.accepted + [s.buffer])[..|s.accepted|] == s.accepted;
  }

  lemma ApplyConserves(s: State, op: Op)
    requires Conserved(s)
    ensures Conserved(Apply(s, op))
  {
    match op {
      case StoreOp(p, check, ok, flush) =>
        var t := s.(buffer := s.buffer + [p], stored := s.stored + [p]);
        assert Flatten(s.accepted) + (s.buffer + [p]) == (Flatten(s.accepted) + s.buffer) + [p];
        FlushConserves(t, ok, flush);
      case FlushOp(ok, now) => FlushConserves(s, ok, now);
      case CloseOp(ok, now) => FlushConserves(s, ok, now);
    }
  }

  /** Not more than 99 points wait, plus one for every failed write since the last accepted one. */
  ghost predicate Bounded(s: State)
  {
    |s.buffer| <= BUFFER_SIZE - 1 + s.failed
  }

  /** Over every sequence of operations, whatever writes fail: nothing is lost, duplicated or reordered, and
      the buffer stays bounded. */
  lemma {:induction false} StoreSafe(s: State, ops: seq<Op>)
    requires Conserved(s) && Bounded(s)
    ensures Conserved(ApplyAll(s, ops)) && Bounded(ApplyAll(s, ops))
    decreases |ops|
  {
    if ops == [] {
    } else {
      ApplyConserves(s, ops[0]);
      StoreSafe(Apply(s, ops[0]), ops[1..]);
    }
  }

  function StoredBy(ops: seq<Op>): seq<Point>
  {
    if ops == [] then [] else (if ops[0].StoreOp? then [ops[0].p] else []) + StoredBy(ops[1..])
  }

  lemma ApplyStores(s: State, op: Op)
    ensures Apply(s, op).stored == s.stored + if op.StoreOp? then [op.p] else []
  {
  }

  lemma {:induction false} StoredIsWhatWasCalled(s: State, ops: seq<Op>)
    ensures ApplyAll(s, ops).stored == s.stored + StoredBy(ops)
    decreases |ops|
  {
    hide Apply;
    if ops == [] {
      assert s.stored + [] == s.stored;
    } else {
      var now, later := if ops[0].StoreOp? then [ops[0].p] else [], StoredBy(ops[1..]);
      ApplyStores(s, ops[0]);
      StoredIsWhatWasCalled(Apply(s, ops[0]), ops[1..]);
      assert s.stored + now + later == s.stored + (now + later);
    }
  }

  lemma StoreSafeFromStart(now: int, ops: seq<Op>)
    ensures var s := ApplyAll(Init(now), ops);
            Flatten(s.accepted) + s.buffer == StoredBy(ops) && |s.buffer| <= 99 + s.failed
  {
    StoreSafe(Init(now), ops);
    StoredIsWhatWasCalled(Init(now), ops);
  }

  // ---------- Requests ----------

  function PointOf(post: Post, arrived: int): Option<Point>
  {
    match Dispatch(post).reading
    case Some(reading) => Some(Point(reading, arrived))
    case None => None
  }

  function ServeRequest(s: State, store: Option<Point>, check: int, ok: bool, flush: int, closeOk: bool, close: int)
    : State
  {
    Flush(if store.None? then s else Store(s, store.value, check, ok, flush), closeOk, close)
  }

  datatype Call = Call(post: Post, arrived: int, check: int, ok: bool, flush: int, closeOk: bool, close: int)

  function Serve(s: State, c: Call): State
  {
    ServeRequest(s, PointOf(c.post, c.arrived), c.check, c.ok, c.flush, c.closeOk, c.close)
  }

  function ServeAll(s: State, calls: seq<Call>): State
    decreases |calls|
  {
    if calls == [] then s else ServeAll(Serve(s, calls[0]), calls[1..])
  }

  /** The points the requests bring: one for every request the handler understands. */
  function PointsOf(calls: seq<Call>): seq<Point>
  {
    if calls == [] then []
    else
      (match PointOf(calls[0].post, calls[0].arrived)
       case Some(p) => [p]
       case None => []) + PointsOf(calls[1..])
  }

  /** With the teardown in place the buffer between requests holds at most one point per failed write since
      the last accepted one; in particular it is empty when writes succeed. */
  lemma RequestBound(s: State, c: Call)
    requires |s.buffer| <= s.failed && Conserved(s)
    ensures var s' := Serve(s, c);
            && |s'.buffer| <= s'.failed && Conserved(s')
            && (c.closeOk ==> s'.buffer == [])
            && s'.stored == s.stored + PointsOf([c])
  {
    hide Dispatch;
    assert [c][1..] == [];
    var store := PointOf(c.post, c.arrived);
    if store.Some? {
      ApplyConserves(s, StoreOp(store.value, c.check, c.ok, c.flush));
      FlushConserves(Store(s, store.value, c.check, c.ok, c.flush), c.closeOk, c.close);
    } else {
      FlushConserves(s, c.closeOk, c.close);
    }
  }

  /** The same over every sequence of requests: what the handler understood is accepted or still buffered, in
      order and once each. */
  lemma {:induction false} RequestsBounded(s: State, calls: seq<Call>)
    requires |s.buffer| <= s.failed && Conserved(s)
    ensures var s' := ServeAll(s, calls);
            && |s'.buffer| <= s'.failed && Conserved(s')
            && s'.stored == s.stored + PointsOf(calls)
    decreases |calls|
  {
    hide Serve, PointsOf, PointOf, Conserved;
    if calls == [] {
      NoPoints();
      assert s.stored + [] == s.stored;
    } else {
      var s' := Serve(s, calls[0]);
      RequestBound(s, calls[0]);
      RequestsBounded(s', calls[1..]);
      PointsCons(calls);
      assert s.stored + PointsOf([calls[0]]) + PointsOf(calls[1..]) == s.stored + PointsOf(calls);
    }
  }

  lemma NoPoints()
    ensures PointsOf([]) == []
  {
  }

  lemma PointsCons(calls: seq<Call>)
    requires calls != []
    ensures PointsOf(calls) == PointsOf([calls[0]]) + PointsOf(calls[1..])
  {
    assert [calls[0]][1..] == [];
  }

  // ---------- Freshness ----------

  /** Clock readings of the operations, in the order they are taken, from a given moment on. */
  ghost predicate Monotone(now: int, ops: seq<Op>)
    decreases |ops|
  {
    ops == [] || match ops[0]
                 case StoreOp(p, check, _, flush) => now <= p.arrived <= check <= flush && Monotone(flush, ops[1..])
                 case FlushOp(_, t) => now <= t && Monotone(t, ops[1..])
                 case CloseOp(_, t) => now <= t && Monotone(t, ops[1..])
  }

  /** Everything buffered arrived at or after the last flush, in order, and before `now`. */
  ghost predicate ArrivedSince(s: State, now: int)
  {
    && s.lastFlush <= now
    && (forall i :: 0 <= i < |s.buffer| ==> s.lastFlush <= s.buffer[i].arrived <= now)
    && (forall i, j :: 0 <= i < j < |s.buffer| ==> s.buffer[i].arrived <= s.buffer[j].arrived)
  }

  /** The clock after the operations. */
  function ClockAfter(now: int, ops: seq<Op>): int
  {
    if ops == [] then now
    else match ops[|ops| - 1]
         case StoreOp(_, _, _, flush) => flush
         case FlushOp(_, t) => t
         case CloseOp(_, t) => t
  }

  lemma {:induction false} BufferedSinceLastFlush(s: State, now: int, ops: seq<Op>)
    requires ArrivedSince(s, now) && Monotone(now, ops)
    ensures ArrivedSince(ApplyAll(s, ops), ClockAfter(now, ops))
    decreases |ops|
  {
    if ops == [] {
    } else {
      var t := ClockAfter(now, ops[..1]);
      assert ArrivedSince(Apply(s, ops[0]), t);
      BufferedSinceLastFlush(Apply(s, ops[0]), t, ops[1..]);
    }
  }

  ghost predicate Fresh(s: State, now: int)
  {
    forall p :: p in s.buffer ==> now - p.arrived < 5_000_000
  }

  lemma SecondsThreshold(lastFlush: int, now: int)
    ensures SecondsSince(lastFlush, now) >= FLUSH_INTERVAL <==> (now - lastFlush) % 86_400_000_000 >= 5_000_000
    ensures lastFlush <= now && now - lastFlush < DAY ==> (now - lastFlush) % DAY == now - lastFlush
  {
  }

  /** What a store does, in microseconds: it writes if five seconds, not counting whole days, have passed since the
      last flush, or the buffer now holds a hundred points. An accepted write takes everything, a failed one nothing. */
  lemma StoreExactly(s: State, p: Point, check: int, ok: bool, flush: int)
    ensures var s', points := Store(s, p, check, ok, flush), s.buffer + [p];
            && s'.stored == s.stored + [p]
            && if (check - s.lastFlush) % 86_400_000_000 >= 5_000_000 || |points| >= 100
               then
                 if ok
                 then s'.buffer == [] && s'.accepted == s.accepted + [points] && s'.lastFlush == flush && s'.failed == 0
                 else s'.buffer == points && s'.accepted == s.accepted && s'.lastFlush == s.lastFlush
                      && s'.failed == s.failed + 1
               else s'.buffer == points && s'.accepted == s.accepted && s'.lastFlush == s.lastFlush
                    && s'.failed == s.failed
  {
    hide SecondsSince;
    SecondsThreshold(s.lastFlush, check);
  }

  /** Less than a day after the last flush, the write is attempted exactly after five seconds or at a hundred points. */
  lemma WriteAttemptedExactly(s: State, p: Point, check: int, flush: int)
    requires 0 <= check - s.lastFlush < 86_400_000_000
    ensures Store(s, p, check, true, flush).buffer == [] <==> check - s.lastFlush >= 5_000_000 || |s.buffer| + 1 >= 100
    ensures Store(s, p, check, false, flush).failed == s.failed + 1
            <==> check - s.lastFlush >= 5_000_000 || |s.buffer| + 1 >= 100
  {
    hide Store;
    StoreExactly(s, p, check, true, flush);
    StoreExactly(s, p, check, false, flush);
  }

  /** The time trigger fires for an interval of five seconds or more exactly when dropping the whole days
      leaves five seconds or more. */
  lemma TriggerExact(lastFlush: int, now: int)
    requires lastFlush <= now
    ensures (SecondsSince(lastFlush, now) >= FLUSH_INTERVAL <==> now - lastFlush >= 5_000_000)
            <==> !(now - lastFlush >= 86_400_000_000 && (now - lastFlush) % 86_400_000_000 < 5_000_000)
  {
    var gap := now - lastFlush;
    if gap < DAY {
      assert gap % DAY == gap;
    }
  }

  /** When a store without a failed write leaves a stale point behind: exactly when nothing triggers the flush
      although the oldest waiting point is five seconds old. */
  ghost predicate LeavesStale(s: State, check: int)
  {
    && s.buffer != [] && check - s.buffer[0].arrived >= 5_000_000
    && |s.buffer| + 1 < 100 && (check - s.lastFlush) % 86_400_000_000 < 5_000_000
  }

  /** A buffer in arrival order is fresh exactly when its oldest point is. */
  lemma FreshIfOldestIs(s: State, now: int)
    requires forall i, j :: 0 <= i < j < |s.buffer| ==> s.buffer[i].arrived <= s.buffer[j].arrived
    ensures Fresh(s, now) <==> s.buffer == [] || now - s.buffer[0].arrived < 5_000_000
  {
    if s.buffer != [] {
      assert s.buffer[0] in s.buffer;
    }
  }

  lemma FreshExactly(s: State, now: int, p: Point, check: int, ok: bool, flush: int)
    requires ArrivedSince(s, now) && now <= p.arrived <= check <= flush && check - p.arrived < 5_000_000
    requires Store(s, p, check, ok, flush).failed <= s.failed
    ensures Fresh(Store(s, p, check, ok, flush), check) <==> !LeavesStale(s, check)
    ensures check - s.lastFlush < 86_400_000_000 ==> !LeavesStale(s, check)
  {
    hide SecondsSince, Fresh;
    SecondsThreshold(s.lastFlush, check);
    FreshIfOldestIs(Store(s, p, check, ok, flush), check);
  }

  /** The freshness guarantee over a run: after a store without a failed write, at most a day after the last
      flush, every waiting point is less than five seconds old. */
  lemma FreshAfterStore(start: int, ops: seq<Op>, p: Point, check: int, ok: bool, flush: int)
    requires Monotone(start, ops) && ClockAfter(start, ops) <= p.arrived <= check <= flush
    requires check - p.arrived < 5_000_000
    requires var s := ApplyAll(Init(start), ops);
             check - s.lastFlush < 86_400_000_000 && Store(s, p, check, ok, flush).failed <= s.failed
    ensures Fresh(Store(ApplyAll(Init(start), ops), p, check, ok, flush), check)
  {
    assert ArrivedSince(Init(start), start);
    BufferedSinceLastFlush(Init(start), start, ops);
    FreshExactly(ApplyAll(Init(start), ops), ClockAfter(start, ops), p, check, ok, flush);
  }

  /** A gap of one day and two seconds does not trigger a flush: a point from the first second still waits. */
  lemma DayGapLeavesStalePoint(a: Reading, b: Reading)
    ensures var first, second := Point(a, 0), Point(b, DAY + 2 * SECOND);
            var s := Store(Init(0), first, 0, true, 0);
            var s' := Store(s, second, DAY + 2 * SECOND, true, DAY + 2 * SECOND);
            s'.buffer == [first, second] && s'.failed == 0 && !Fresh(s', DAY + 2 * SECOND)
  {
    assert Point(a, 0) in [Point(a, 0), Point(b, DAY + 2 * SECOND)];
  }
}
