/** How often points must be stored for the time trigger of server/cherum/telemetry_store.py to keep them
    fresh, although it does not count whole days. */
module Pacing {
  import opened Options
  import opened Messages
  import opened TelemetryStore

  const INTERVAL: int := 5_000_000

  predicate Accepted(op: Op)
  {
    op.ok
  }

  /** Every write is accepted. */
  ghost predicate AllAccepted(ops: seq<Op>)
  {
    forall op :: op in ops ==> Accepted(op)
  }

  /** No store takes longer than `latency` from appending its point to reading the clock. */
  ghost predicate Prompt(ops: seq<Op>, latency: int)
  {
    forall op :: op in ops && op.StoreOp? ==> op.check - op.p.arrived <= latency
  }

  /** Consecutive stores read the clock at most `gap` apart; `last` is the reading before the first of them. */
  ghost predicate Paced(last: Option<int>, ops: seq<Op>, gap: int)
    decreases |ops|
  {
    ops == [] ||
    match ops[0]
    case StoreOp(_, check, _, _) => (last.Some? ==> check - last.value <= gap) && Paced(Some(check), ops[1..], gap)
    case _ => Paced(last, ops[1..], gap)
  }

  /** Every point waiting is less than five seconds old, not counting the latency of the call that stored it. */
  ghost predicate FreshWithin(s: State, now: int, latency: int)
  {
    forall p :: p in s.buffer ==> now - p.arrived < 5_000_000 + latency
  }

  /** Every store of the run leaves the buffer fresh. */
  ghost predicate StaysFresh(s: State, ops: seq<Op>, latency: int)
    decreases |ops|
  {
    ops != [] ==>
      && (ops[0].StoreOp? ==> FreshWithin(Apply(s, ops[0]), ops[0].check, latency))
      && StaysFresh(Apply(s, ops[0]), ops[1..], latency)
  }

  /** The last store read the clock within five seconds after a whole number of days since the last flush, and
      everything waiting arrived since that moment. */
  ghost predicate InWindow(s: State, last: Option<int>, latency: int)
  {
    s.buffer != [] ==>
      && last.Some?
      && (last.value - s.lastFlush) % DAY < INTERVAL
      && forall p :: p in s.buffer ==> p.arrived >= last.value - (last.value - s.lastFlush) % DAY - latency
  }

  lemma SameDay(position: int, gap: int)
    requires position % DAY < INTERVAL && 0 <= gap <= DAY - INTERVAL
    ensures (position + gap) % DAY == position % DAY + gap
  {
    var days := position / DAY;
    assert position + gap == days * DAY + (position % DAY + gap);
    assert 0 <= position % DAY + gap < DAY;
  }

  lemma StoreStaysInWindow(s: State, last: Option<int>, latency: int, p: Point, check: int, flush: int)
    requires InWindow(s, last, latency) && latency >= 0
    requires p.arrived <= check && check - p.arrived <= latency
    requires last.Some? ==> 0 <= check - last.value <= DAY - INTERVAL
    ensures InWindow(Store(s, p, check, true, flush), Some(check), latency)
    ensures FreshWithin(Store(s, p, check, true, flush), check, latency)
  {
    hide SecondsSince;
    SecondsThreshold(s.lastFlush, check);
    if s.buffer != [] {
      SameDay(last.value - s.lastFlush, check - last.value);
    }
  }

  lemma {:induction false} PacedRunStaysFresh(s: State, now: int, last: Option<int>, ops: seq<Op>, latency: int)
    requires InWindow(s, last, latency) && latency >= 0 && (last.Some? ==> last.value <= now)
    requires Monotone(now, ops) && AllAccepted(ops) && Prompt(ops, latency) && Paced(last, ops, DAY - INTERVAL)
    ensures StaysFresh(s, ops, latency)
    decreases |ops|
  {
    if ops == [] {
    } else {
      hide InWindow, FreshWithin, Store;
      var op, rest := ops[0], ops[1..];
      assert op in ops && Accepted(op);
      assert AllAccepted(rest) && Prompt(rest, latency);
      match op {
        case StoreOp(p, check, ok, flush) =>
          StoreStaysInWindow(s, last, latency, p, check, flush);
          PacedRunStaysFresh(Store(s, p, check, ok, flush), flush, Some(check), rest, latency);
        case FlushOp(ok, t) =>
          FlushEmpties(s, t, last, latency);
          PacedRunStaysFresh(Flush(s, ok, t), t, last, rest, latency);
        case CloseOp(ok, t) =>
          FlushEmpties(s, t, last, latency);
          PacedRunStaysFresh(Flush(s, ok, t), t, last, rest, latency);
      }
    }
  }

  lemma FlushEmpties(s: State, now: int, last: Option<int>, latency: int)
    ensures InWindow(Flush(s, true, now), last, latency)
  {
  }

  /** Stores at most `gap` apart keep the buffer fresh, over every run in which writes are accepted. */
  ghost predicate GapKeepsFresh(gap: int)
  {
    forall start: int, ops: seq<Op>, latency: int ::
      latency >= 0 && Monotone(start, ops) && AllAccepted(ops) && Prompt(ops, latency) && Paced(None, ops, gap) ==>
        StaysFresh(Init(start), ops, latency)
  }

  /** Two stores, both inside a window the trigger does not see, with nothing flushed in between. */
  lemma TwoStores(x: Reading, y: Reading, first: int, second: int)
    requires 0 <= first < INTERVAL && first + INTERVAL <= second && second % DAY < INTERVAL
    ensures var a, b := Point(x, first), Point(y, second);
            var ops := [StoreOp(a, first, true, first), StoreOp(b, second, true, second)];
            && Monotone(0, ops) && AllAccepted(ops) && Prompt(ops, 0) && Paced(None, ops, second - first)
            && ApplyAll(Init(0), ops).buffer == [a, b] && ApplyAll(Init(0), ops).failed == 0
            && !StaysFresh(Init(0), ops, 0)
  {
    hide SecondsSince;
    var a, b := Point(x, first), Point(y, second);
    var op, op' := StoreOp(a, first, true, first), StoreOp(b, second, true, second);
    SecondsThreshold(0, first);
    SecondsThreshold(0, second);
    var s1 := Apply(Init(0), op);
    assert s1.buffer == [a] && s1.lastFlush == 0;
    var s2 := Apply(s1, op');
    assert s2.buffer == [a, b];
    assert a in s2.buffer && second - a.arrived >= INTERVAL;
    assert !FreshWithin(s2, second, 0);
    assert [op, op'][1..] == [op'] && [op'][1..] == [];
    assert ApplyAll(s1, [op']) == s2;
    assert !StaysFresh(s1, [op'], 0);
    assert Monotone(first, [op']) && Paced(Some(first), [op'], second - first);
  }

  /** A gap below a day is not enough: with stores at 4 seconds and at a day and 2 seconds after the start, every
      write accepted, the first point still waits. */
  lemma GapBelowADayLeavesStalePoint(x: Reading, y: Reading)
    ensures var ops := [StoreOp(Point(x, 4 * SECOND), 4 * SECOND, true, 4 * SECOND),
                        StoreOp(Point(y, DAY + 2 * SECOND), DAY + 2 * SECOND, true, DAY + 2 * SECOND)];
            && Monotone(0, ops) && AllAccepted(ops) && Paced(None, ops, DAY - 2 * SECOND)
            && |ApplyAll(Init(0), ops).buffer| == 2 && !StaysFresh(Init(0), ops, 0)
  {
    TwoStores(x, y, 4 * SECOND, DAY + 2 * SECOND);
  }

  lemma WiderPace(last: Option<int>, ops: seq<Op>, gap: int, gap': int)
    requires Paced(last, ops, gap) && gap <= gap'
    ensures Paced(last, ops, gap')
    decreases |ops|
  {
    if ops == [] {
    } else {
      WiderPace(if ops[0].StoreOp? then Some(ops[0].check) else last, ops[1..], gap, gap');
    }
  }

  // ---------- Writes may fail ----------

  /** Every store of the run without a failed write leaves the buffer fresh. */
  ghost predicate StaysFreshUnlessFailed(s: State, ops: seq<Op>, latency: int)
    decreases |ops|
  {
    ops != [] ==>
      var s' := Apply(s, ops[0]);
      && (ops[0].StoreOp? && s'.failed <= s.failed ==> FreshWithin(s', ops[0].check, latency))
      && StaysFreshUnlessFailed(s', ops[1..], latency)
  }

  lemma FewerGaps(n: nat, most: nat, gap: int)
    requires n <= most && gap >= 0
    ensures n * gap <= most * gap
  {
  }

  /** Measured from the last flush: at most one gap has passed per waiting point. */
  ghost predicate CountsGaps(s: State, last: int, gap: int)
  {
    last <= s.lastFlush + |s.buffer| * gap
  }

  lemma StoreCountsGaps(s: State, now: int, last: int, p: Point, check: int, ok: bool, flush: int, gap: int)
    requires CountsGaps(s, last, gap) && ArrivedSince(s, now) && last <= now <= p.arrived <= check <= flush
    requires check - last <= gap
    ensures var s' := Store(s, p, check, ok, flush); CountsGaps(s', check, gap) && ArrivedSince(s', flush)
  {
    hide FlushDue;
    assert (|s.buffer| + 1) * gap == |s.buffer| * gap + gap;
  }

  /** A store below a hundred points comes less than a day after the last flush, so the trigger sees the time. */
  lemma StoreLeavesFresh(s: State, now: int, last: int, p: Point, check: int, ok: bool, flush: int, gap: int)
    requires CountsGaps(s, last, gap) && ArrivedSince(s, now) && last <= now <= p.arrived <= check <= flush
    requires check - last <= gap && 99 * gap < DAY
    ensures var s' := Store(s, p, check, ok, flush); s'.failed <= s.failed ==> FreshWithin(s', check, 0)
  {
    hide SecondsSince;
    var n := |s.buffer|;
    SecondsThreshold(s.lastFlush, check);
    if n + 1 < BUFFER_SIZE {
      assert check - s.lastFlush <= n * gap + gap == (n + 1) * gap;
      FewerGaps(n + 1, 99, gap);
    }
  }

  lemma FlushCountsGaps(s: State, now: int, last: int, ok: bool, t: int, gap: int)
    requires CountsGaps(s, last, gap) && ArrivedSince(s, now) && last <= now <= t
    ensures CountsGaps(Flush(s, ok, t), last, gap) && ArrivedSince(Flush(s, ok, t), t)
  {
  }

  lemma {:induction false} FreshFromTheLastFlush(s: State, now: int, last: int, ops: seq<Op>, gap: int)
    requires CountsGaps(s, last, gap) && ArrivedSince(s, now) && last <= now
    requires Monotone(now, ops) && Paced(Some(last), ops, gap) && 99 * gap < DAY
    ensures StaysFreshUnlessFailed(s, ops, 0)
    decreases |ops|
  {
    hide CountsGaps, ArrivedSince, FreshWithin, Store, Flush;
    if ops == [] {
    } else {
      match ops[0] {
        case StoreOp(p, check, ok, flush) =>
          StoreCountsGaps(s, now, last, p, check, ok, flush, gap);
          StoreLeavesFresh(s, now, last, p, check, ok, flush, gap);
          FreshFromTheLastFlush(Store(s, p, check, ok, flush), flush, check, ops[1..], gap);
        case FlushOp(ok, t) =>
          FlushCountsGaps(s, now, last, ok, t, gap);
          FreshFromTheLastFlush(Flush(s, ok, t), t, last, ops[1..], gap);
        case CloseOp(ok, t) =>
          FlushCountsGaps(s, now, last, ok, t, gap);
          FreshFromTheLastFlush(Flush(s, ok, t), t, last, ops[1..], gap);
      }
    }
  }

  /** Measured from the oldest waiting point: at most one gap has passed per later point. */
  ghost predicate SpansGaps(s: State, last: Option<int>, gap: int, latency: int)
  {
    s.buffer != [] ==>
      last.Some? && forall p :: p in s.buffer ==> last.value - p.arrived <= (|s.buffer| - 1) * gap + latency
  }

  /** A store below a hundred points comes less than five seconds after the oldest of them. */
  lemma StoreSpansGaps(s: State, last: Option<int>, p: Point, check: int, ok: bool, flush: int, gap: int, latency: int)
    requires SpansGaps(s, last, gap, latency) && latency >= 0 && 98 * gap < INTERVAL
    requires check - p.arrived <= latency && (last.Some? ==> 0 <= check - last.value <= gap)
    ensures var s' := Store(s, p, check, ok, flush);
            && SpansGaps(s', Some(check), gap, latency)
            && (s'.failed <= s.failed ==> FreshWithin(s', check, latency))
  {
    hide SecondsSince;
    var n, s' := |s.buffer|, Store(s, p, check, ok, flush);
    assert s'.buffer == [] || s'.buffer == s.buffer + [p];
    if n > 0 {
      assert n * gap == (n - 1) * gap + gap;
      FewerGaps(0, n, gap);
      if n + 1 < BUFFER_SIZE {
        FewerGaps(n, 98, gap);
      }
    } else {
      assert n * gap == 0;
    }
  }

  lemma FlushSpansGaps(s: State, last: Option<int>, ok: bool, t: int, gap: int, latency: int)
    requires SpansGaps(s, last, gap, latency)
    ensures SpansGaps(Flush(s, ok, t), last, gap, latency)
  {
  }

  lemma {:induction false} FreshFromTheOldest(s: State, now: int, last: Option<int>, ops: seq<Op>, gap: int,
                                              latency: int)
    requires SpansGaps(s, last, gap, latency) && latency >= 0 && (last.Some? ==> last.value <= now)
    requires Monotone(now, ops) && Prompt(ops, latency) && Paced(last, ops, gap) && 98 * gap < INTERVAL
    ensures StaysFreshUnlessFailed(s, ops, latency)
    decreases |ops|
  {
    hide SpansGaps, FreshWithin, Store, Flush;
    if ops == [] {
    } else {
      var op, rest := ops[0], ops[1..];
      assert op in ops && Prompt(rest, latency);
      match op {
        case StoreOp(p, check, ok, flush) =>
          StoreSpansGaps(s, last, p, check, ok, flush, gap, latency);
          FreshFromTheOldest(Store(s, p, check, ok, flush), flush, Some(check), rest, gap, latency);
        case FlushOp(ok, t) =>
          FlushSpansGaps(s, last, ok, t, gap, latency);
          FreshFromTheOldest(Flush(s, ok, t), t, last, rest, gap, latency);
        case CloseOp(ok, t) =>
          FlushSpansGaps(s, last, ok, t, gap, latency);
          FreshFromTheOldest(Flush(s, ok, t), t, last, rest, gap, latency);
      }
    }
  }

  // ---------- Stores that all fail until a window of the trigger ----------

  function Earlier(a: int, b: int): int { if a < b then a else b }

  /** Stores whose write would fail, `gap` apart until a moment `top`. */
  function Ramp(x: Reading, from: int, gap: int, top: int, n: nat): seq<Op>
    decreases n
  {
    if n == 0 then []
    else
      var t := Earlier(from, top);
      [StoreOp(Point(x, t), t, false, t)] + Ramp(x, from + gap, gap, top, n - 1)
  }

  lemma {:induction false} RampIsPaced(x: Reading, from: int, gap: int, top: int, n: nat, now: int, last: Option<int>)
    requires gap >= 0 && now <= Earlier(from, top) && (last.Some? ==> Earlier(from, top) - last.value <= gap)
    ensures var ops := Ramp(x, from, gap, top, n); Monotone(now, ops) && Prompt(ops, 0) && Paced(last, ops, gap)
    decreases n
  {
    if n == 0 {
    } else {
      var t, rest := Earlier(from, top), Ramp(x, from + gap, gap, top, n - 1);
      RampIsPaced(x, from + gap, gap, top, n - 1, t, Some(t));
      assert Ramp(x, from, gap, top, n)[1..] == rest;
    }
  }

  /** With an old point waiting, the last of ninety-nine stores falls into a window the trigger does not see. */
  lemma {:induction false} RampGoesStale(s: State, first: Point, x: Reading, from: int, gap: int, top: int, n: nat)
    requires 0 < n <= 99 && |s.buffer| == 99 - n && gap >= 0
    requires from + (n - 1) * gap >= top && (top - s.lastFlush) % DAY < INTERVAL
    requires if n == 99 then first == Point(x, Earlier(from, top)) else first in s.buffer
    requires top - first.arrived >= INTERVAL
    ensures !StaysFreshUnlessFailed(s, Ramp(x, from, gap, top, n), 0)
    decreases n
  {
    hide SecondsSince;
    var t, rest := Earlier(from, top), Ramp(x, from + gap, gap, top, n - 1);
    var op := StoreOp(Point(x, t), t, false, t);
    var s' := Apply(s, op);
    assert Ramp(x, from, gap, top, n)[0] == op && Ramp(x, from, gap, top, n)[1..] == rest;
    assert s'.buffer == s.buffer + [Point(x, t)] && s'.lastFlush == s.lastFlush;
    assert first in s'.buffer;
    if n == 1 {
      SecondsThreshold(s.lastFlush, top);
      assert t == top && s'.failed == s.failed;
      assert !FreshWithin(s', top, 0);
    } else {
      assert (n - 1) * gap == gap + (n - 2) * gap;
      RampGoesStale(s', first, x, from + gap, gap, top, n - 1);
    }
  }

  // ---------- The exact limits ----------

  /** The same from the creation of the store, which counts as a reading of the clock, whatever writes fail. */
  ghost predicate GapFromStartKeepsFresh(gap: int)
  {
    forall start: int, ops: seq<Op> | Monotone(start, ops) && Paced(Some(start), ops, gap) ::
      StaysFreshUnlessFailed(Init(start), ops, 0)
  }

  /** The same when the first store may come at any time, whatever writes fail. */
  ghost predicate GapAloneKeepsFresh(gap: int)
  {
    forall start: int, ops: seq<Op>, latency: int ::
      latency >= 0 && Monotone(start, ops) && Prompt(ops, latency) && Paced(None, ops, gap) ==>
        StaysFreshUnlessFailed(Init(start), ops, latency)
  }

  /** With accepted writes, stores keep the buffer fresh if they are at most a day less five seconds apart, and no
      larger gap is enough. */
  lemma GapKeepsFreshExactly(gap: int)
    ensures GapKeepsFresh(gap) <==> gap <= 86_395_000_000
  {
    if gap <= DAY - INTERVAL {
      forall start: int, ops: seq<Op>, latency: int
        | latency >= 0 && Monotone(start, ops) && AllAccepted(ops) && Prompt(ops, latency) && Paced(None, ops, gap)
        ensures StaysFresh(Init(start), ops, latency)
      {
        WiderPace(None, ops, gap, DAY - INTERVAL);
        PacedRunStaysFresh(Init(start), start, None, ops, latency);
      }
    } else {
      var x, y := Armed(Text("", None), Bool(true)), Armed(Text("", None), Bool(false));
      var a, b := Point(x, INTERVAL - 1), Point(y, DAY);
      var ops := [StoreOp(a, INTERVAL - 1, true, INTERVAL - 1), StoreOp(b, DAY, true, DAY)];
      TwoStores(x, y, INTERVAL - 1, DAY);
      WiderPace(None, ops, DAY - INTERVAL + 1, gap);
    }
  }

  /** With failing writes, ninety-nine gaps since the last flush must be less than a day: the hundredth point is
      seen by the size trigger. */
  lemma GapFromStartExactly(gap: int)
    ensures GapFromStartKeepsFresh(gap) <==> 99 * gap < 86_400_000_000
  {
    hide Monotone, Paced, StaysFreshUnlessFailed, Ramp;
    if 99 * gap < DAY {
      forall start: int, ops: seq<Op> | Monotone(start, ops) && Paced(Some(start), ops, gap)
        ensures StaysFreshUnlessFailed(Init(start), ops, 0)
      {
        FreshFromTheLastFlush(Init(start), start, start, ops, gap);
      }
    } else {
      var x, least := Armed(Text("", None), Bool(true)), 872_727_273;
      var ops := Ramp(x, least, least, DAY, 99);
      RampIsPaced(x, least, least, DAY, 99, 0, Some(0));
      RampGoesStale(Init(0), Point(x, least), x, least, least, DAY, 99);
      WiderPace(Some(0), ops, least, gap);
    }
  }

  /** If the first store may come at any time, ninety-eight gaps must be less than five seconds. */
  lemma GapAloneExactly(gap: int)
    ensures GapAloneKeepsFresh(gap) <==> 98 * gap < 5_000_000
  {
    hide Monotone, Prompt, Paced, StaysFreshUnlessFailed, Ramp;
    if 98 * gap < INTERVAL {
      forall start: int, ops: seq<Op>, latency: int
        | latency >= 0 && Monotone(start, ops) && Prompt(ops, latency) && Paced(None, ops, gap)
        ensures StaysFreshUnlessFailed(Init(start), ops, latency)
      {
        FreshFromTheOldest(Init(start), start, None, ops, gap, latency);
      }
    } else {
      var x, from := Armed(Text("", None), Bool(true)), DAY - 1;
      RampIsPaced(x, from, gap, from + INTERVAL, 99, 0, None);
      RampGoesStale(Init(0), Point(x, from), x, from, gap, from + INTERVAL, 99);
    }
  }
}
