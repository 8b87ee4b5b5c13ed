/** The frame-rate meter of server/cherum/static/js/video.js, lines 49-64. */
module FpsMeter {
  import opened Sequences
  import opened JsNumbers
  import opened Reals

  /** `1 / ((now - last) / 1000)`: the instantaneous rate between two frames. */
  function Rate(last: real, now: real): Number
  {
    Divide(1.0, (now - last) / 1000.0)
  }

  /** All rates of a run. The source tests the previous timestamp for truth, so a frame that follows a
      timestamp of zero (or no timestamp) restarts the clock without producing a rate. */
  function Rates(times: seq<real>): seq<Number>
  {
    if |times| < 2 then []
    else
      var before := DropLast(times);
      Rates(before) + if Last(before) == 0.0 then [] else [Rate(Last(before), Last(times))]
  }

  function Sum(rates: seq<Number>): Number
  {
    if rates == [] then Finite(0.0) else Add(Sum(DropLast(rates)), Last(rates))
  }

  const WINDOW := 11

  function Mean(rates: seq<Number>): Number
    requires rates != []
  {
    Scale(Sum(rates), |rates| as real)
  }

  /** Everything a run shows: the means of its consecutive windows of 11 rates, in order. */
  function Shown(rates: seq<Number>): (shown: seq<Number>)
    ensures |shown| == |rates| / WINDOW
  {
    seq(|rates| / WINDOW, k requires 0 <= k < |rates| / WINDOW => Mean(rates[WINDOW * k..WINDOW * k + WINDOW]))
  }

  /** The rates since the last complete window. */
  function Pending(rates: seq<Number>): seq<Number>
  {
    rates[|rates| - |rates| % WINDOW..]
  }

  /** The meter's state is determined by the timestamps seen so far: its windows tile the rates. */
  ghost predicate Describes(times: seq<real>, lastCalledTime: real, frameCounter: nat, accumFps: Number,
                            shown: seq<Number>)
  {
    var rates := Rates(times);
    && lastCalledTime == (if times == [] then 0.0 else Last(times))
    && frameCounter == |rates| % WINDOW
    && accumFps == Sum(Pending(rates))
    && shown == Shown(rates)
  }

  /** The globals the frame handler updates. `lastCalledTime` is 0 while undefined. */
  class Meter {
    var lastCalledTime: real
    var fps: Number
    var accumFps: Number
    var frameCounter: nat
    ghost var times: seq<real>
    ghost var shown: seq<Number>

    ghost predicate Valid()
      reads this
    {
      Describes(times, lastCalledTime, frameCounter, accumFps, shown)
    }

    constructor ()
      ensures Valid() && times == [] && shown == []
    {
      hide Describes;
      lastCalledTime := 0.0;
      fps := Finite(0.0);
      accumFps := Finite(0.0);
      frameCounter := 0;
      times := [];
      shown := [];
      NoFrames();
    }

    method Frame(now: real)
      requires Valid()
      modifies this
      ensures Valid() && times == old(times) + [now]
      ensures |shown| > |old(shown)| ==> fps == Last(shown)
      ensures |shown| == |old(shown)| ==> fps == if old(lastCalledTime) == 0.0 then Finite(0.0) else old(fps)
    {
      hide Rates, Sum, Shown, Add, Scale, Pending;
      ghost var rates := Rates(times);
      times := times + [now];
      RatesSnoc(old(times), now);
      if lastCalledTime == 0.0 {
        lastCalledTime := now;
        fps := Finite(0.0);
        assert Rates(times) == rates;
      } else {
        RateAdded(rates, Rate(lastCalledTime, now));
        var delta := (now - lastCalledTime) / 1000.0;
        lastCalledTime := now;
        accumFps := Add(accumFps, Divide(1.0, delta));
        var count := frameCounter;
        frameCounter := frameCounter + 1;
        if count >= 10 {
          fps := Scale(accumFps, frameCounter as real);
          frameCounter := 0;
          accumFps := Finite(0.0);
          shown := shown + [fps];
        }
      }
    }
  }

  lemma NoFrames()
    ensures Describes([], 0.0, 0, Finite(0.0), [])
  {
  }

  /** A new rate joins the pending ones; it completes a window exactly when ten were pending. */
  lemma RateAdded(rates: seq<Number>, rate: Number)
    ensures var n, all := |rates| % WINDOW, rates + [rate];
            var sum := Add(Sum(Pending(rates)), rate);
            && |all| % WINDOW == (if n == WINDOW - 1 then 0 else n + 1)
            && Sum(Pending(all)) == (if n == WINDOW - 1 then Finite(0.0) else sum)
            && Shown(all) == Shown(rates) + if n == WINDOW - 1 then [Scale(sum, 11.0)] else []
  {
    var n, all := |rates| % WINDOW, rates + [rate];
    SumSnoc(Pending(rates), rate);
    ShownSnoc(rates, rate);
    if n == WINDOW - 1 {
      assert Pending(all) == [];
    } else {
      assert Pending(all) == Pending(rates) + [rate];
    }
  }

  lemma RatesSnoc(times: seq<real>, now: real)
    ensures Rates(times + [now]) ==
            Rates(times) + if times == [] || Last(times) == 0.0 then [] else [Rate(Last(times), now)]
  {
    assert DropLast(times + [now]) == times;
  }

  lemma SumSnoc(rates: seq<Number>, rate: Number)
    ensures Sum(rates + [rate]) == Add(Sum(rates), rate)
  {
    assert DropLast(rates + [rate]) == rates;
  }

  /** A new rate completes a window exactly when ten are pending, and leaves the earlier windows alone. */
  lemma ShownSnoc(rates: seq<Number>, rate: Number)
    ensures var n := |rates| % WINDOW;
            Shown(rates + [rate]) ==
              Shown(rates) + if n == WINDOW - 1 then [Mean(Pending(rates) + [rate])] else []
  {
    var n, all := |rates| % WINDOW, rates + [rate];
    forall k | 0 <= k < |rates| / WINDOW
      ensures Shown(all)[k] == Shown(rates)[k]
    {
      assert all[WINDOW * k..WINDOW * k + WINDOW] == rates[WINDOW * k..WINDOW * k + WINDOW];
    }
    if n == WINDOW - 1 {
      var k := |rates| / WINDOW;
      assert all[WINDOW * k..WINDOW * k + WINDOW] == Pending(rates) + [rate];
    }
  }

  // ---------- What is shown, in plain arithmetic ----------

  lemma ReciprocalOfThousandth(delta: real)
    requires delta != 0.0
    ensures 1.0 / (delta / 1000.0) == 1000.0 / delta
  {
    var d, r := delta / 1000.0, 1000.0 / delta;
    assert r * delta == 1000.0;
    assert d * r == 1.0;
    assert 1.0 / d == (d * r) / d == r;
  }

  lemma RateBetween(last: real, now: real)
    ensures Rate(last, now) == if now - last == 0.0 then Infinite(false) else Finite(1000.0 / (now - last))
  {
    if now - last != 0.0 {
      ReciprocalOfThousandth(now - last);
      assert (now - last) / 1000.0 != 0.0;
    }
  }

  /** A new timestamp gives one rate, unless it follows none or a zero: a thousand over the milliseconds passed,
      infinite if none passed. */
  lemma RateOfFrame(times: seq<real>, now: real)
    ensures times == [] || Last(times) == 0.0 ==> Rates(times + [now]) == Rates(times)
    ensures times != [] && Last(times) != 0.0 ==>
              var delta := now - Last(times);
              Rates(times + [now]) == Rates(times) + [if delta == 0.0 then Infinite(false) else Finite(1000.0 / delta)]
  {
    hide Rates, Rate;
    RatesSnoc(times, now);
    if times != [] {
      RateBetween(Last(times), now);
    }
  }

  ghost predicate AllFinite(rates: seq<Number>)
  {
    forall i :: 0 <= i < |rates| ==> rates[i].Finite?
  }

  /** Rates of frames are finite or plus infinity. */
  ghost predicate AreRates(rates: seq<Number>)
  {
    forall i :: 0 <= i < |rates| ==> rates[i].Finite? || rates[i] == Infinite(false)
  }

  lemma {:induction false} RatesAreRates(times: seq<real>)
    ensures AreRates(Rates(times))
  {
    if |times| < 2 {
    } else {
      RatesAreRates(DropLast(times));
      RateOfFrame(DropLast(times), Last(times));
      assert times == DropLast(times) + [Last(times)];
    }
  }

  lemma {:induction false} InfiniteSum(rates: seq<Number>)
    requires AreRates(rates)
    ensures if AllFinite(rates) then Sum(rates).Finite? else Sum(rates) == Infinite(false)
  {
    if rates == [] {
    } else {
      InfiniteSum(DropLast(rates));
      assert AllFinite(rates) <==> AllFinite(DropLast(rates)) && Last(rates).Finite?;
    }
  }

  lemma SumOne(rates: seq<Number>, n: nat)
    requires n < |rates| && AllFinite(rates)
    requires Sum(rates[..n]).Finite?
    ensures Sum(rates[..n + 1]) == Finite(Sum(rates[..n]).value + rates[n].value)
  {
    assert rates[..n + 1] == rates[..n] + [rates[n]];
    SumSnoc(rates[..n], rates[n]);
  }

  /** Eleven rates, added up. */
  lemma SumOfEleven(r: seq<Number>)
    requires |r| == 11 && AllFinite(r)
    ensures Sum(r) == Finite(r[0].value + r[1].value + r[2].value + r[3].value + r[4].value + r[5].value
                             + r[6].value + r[7].value + r[8].value + r[9].value + r[10].value)
  {
    hide Sum;
    SumOfNone(r);
    SumOne(r, 0);
    SumOne(r, 1);
    SumOne(r, 2);
    SumOne(r, 3);
    SumOne(r, 4);
    SumOne(r, 5);
    SumOne(r, 6);
    SumOne(r, 7);
    SumOne(r, 8);
    SumOne(r, 9);
    SumOne(r, 10);
    assert r[..11] == r;
  }

  lemma SumOfNone(r: seq<Number>)
    ensures Sum(r[..0]) == Finite(0.0)
  {
  }

  /** A value is shown for every eleven rates. Eleven times the value shown is the sum of its rates; it is infinite
      if one of them is. */
  lemma ShownIsMean(rates: seq<Number>, k: nat)
    requires AreRates(rates)
    ensures |Shown(rates)| == |rates| / 11
    ensures k < |rates| / 11 ==>
              var r, shown := rates[11 * k..11 * k + 11], Shown(rates)[k];
              if AllFinite(r)
              then shown.Finite? &&
                   11.0 * shown.value == r[0].value + r[1].value + r[2].value + r[3].value + r[4].value + r[5].value
                                         + r[6].value + r[7].value + r[8].value + r[9].value + r[10].value
              else shown == Infinite(false)
  {
    hide Sum;
    if k < |rates| / 11 {
      var r := rates[11 * k..11 * k + 11];
      InfiniteSum(r);
      if AllFinite(r) {
        SumOfEleven(r);
      }
    }
  }

  // ---------- Strictly increasing timestamps ----------

  ghost predicate Increasing(times: seq<real>)
  {
    forall i, j :: 0 <= i < j < |times| ==> times[i] < times[j]
  }

  /** A running clock that is never zero gives one finite rate per pair of consecutive frames. */
  lemma {:induction false} RateAt(times: seq<real>, i: nat)
    requires Increasing(times) && |times| > 0 && times[0] > 0.0
    ensures |Rates(times)| == |times| - 1
    ensures i + 1 < |times| ==> Rates(times)[i] == Finite(1000.0 / (times[i + 1] - times[i]))
  {
    if |times| <= 1 {
    } else {
      var before := DropLast(times);
      RateAt(before, i);
      assert Last(before) > 0.0;
      var delta := Last(times) - Last(before);
      Reciprocal(delta);
    }
  }

  lemma Reciprocal(delta: real)
    requires delta > 0.0
    ensures (delta / 1000.0) * (1000.0 / delta) == 1.0
    ensures 1.0 / (delta / 1000.0) == 1000.0 / delta
  {
    ReciprocalOfThousandth(delta);
    assert (1000.0 / delta) * delta == 1000.0;
  }

  lemma TwiceRoot(x: real, y: real, n: real)
    requires x >= 0.0 && y >= 0.0 && n >= 0.0 && x * y >= n * n
    ensures x + y >= 2.0 * n
  {
    assert (x + y) * (x + y) - 4.0 * (x * y) == (x - y) * (x - y) >= 0.0;
    assert (2.0 * n) * (2.0 * n) == 4.0 * (n * n);
    SquareOrder(x + y, 2.0 * n);
  }

  /** Adding one more rate `r` of duration `d` to `n` rates that satisfy the mean inequality. */
  lemma MeanStep(sum: real, elapsed: real, r: real, d: real, n: real)
    requires d > 0.0 && r > 0.0 && r * d == 1.0 && elapsed >= 0.0 && sum >= 0.0 && n >= 0.0
    requires sum * elapsed >= n * n
    ensures (sum + r) * (elapsed + d) >= (n + 1.0) * (n + 1.0)
  {
    var x, y := sum * d, r * elapsed;
    assert x * y == (sum * elapsed) * (r * d) by { Regroup(sum, d, elapsed, r); }
    TwiceRoot(x, y, n);
    Expand(sum, r, elapsed, d);
    assert (n + 1.0) * (n + 1.0) == n * n + 2.0 * n + 1.0;
  }

  lemma Expand(a: real, b: real, c: real, d: real)
    ensures (a + b) * (c + d) == a * c + a * d + b * c + b * d
  {
  }

  /** Sum of `n` rates times the time they took. */
  ghost predicate MeanInequality(sum: Number, elapsed: real, n: nat)
  {
    sum.Finite? && sum.value >= 0.0 && sum.value * elapsed >= n as real * n as real
  }

  lemma MeanInequalityStep(sum: Number, a: real, b: real, c: real, n: nat)
    requires a <= b < c && MeanInequality(sum, (b - a) / 1000.0, n)
    ensures MeanInequality(Add(sum, Finite(1000.0 / (c - b))), (c - a) / 1000.0, n + 1)
  {
    Reciprocal(c - b);
    var r, d := 1000.0 / (c - b), (c - b) / 1000.0;
    OrderByProduct(0.0, r, d);
    MeanStep(sum.value, (b - a) / 1000.0, r, d, n as real);
    assert (c - a) / 1000.0 == (b - a) / 1000.0 + d;
    assert (n + 1) as real == n as real + 1.0;
  }

  lemma {:induction false} SumFrom(times: seq<real>, from: nat, n: nat)
    requires Increasing(times) && times != [] && times[0] > 0.0 && from + n < |times|
    requires |Rates(times)| == |times| - 1
    ensures MeanInequality(Sum(Rates(times)[from..from + n]), (times[from + n] - times[from]) / 1000.0, n)
  {
    hide Rates, Sum, Add, MeanInequality;
    var rates := Rates(times);
    if n == 0 {
      assert rates[from..from] == [];
      MeanInequalityEmpty(times[from]);
    } else {
      var m := from + n - 1;
      SumFrom(times, from, n - 1);
      RateAt(times, m);
      SumSnoc(rates[from..m], rates[m]);
      assert rates[from..m] + [rates[m]] == rates[from..from + n];
      assert times[from] <= times[m] < times[m + 1];
      MeanInequalityStep(Sum(rates[from..m]), times[from], times[m], times[m + 1], n - 1);
    }
  }

  /** The inequality between the arithmetic and the harmonic mean, over any number of consecutive rates:
      the differences between timestamps telescope. */
  lemma SumOfRates(times: seq<real>, from: nat, n: nat)
    requires Increasing(times) && times != [] && times[0] > 0.0 && from + n < |times|
    ensures |Rates(times)| == |times| - 1
    ensures MeanInequality(Sum(Rates(times)[from..from + n]), (times[from + n] - times[from]) / 1000.0, n)
  {
    hide Rates, Sum, MeanInequality;
    RateAt(times, 0);
    SumFrom(times, from, n);
  }

  lemma MeanInequalityEmpty(a: real)
    ensures MeanInequality(Sum([]), (a - a) / 1000.0, 0)
  {
  }

  /** Every value shown is at least 11 frames over the time its window took, and windows share endpoints. */
  lemma ShownAtLeastTrueRate(times: seq<real>, k: nat)
    requires Increasing(times) && times != [] && times[0] > 0.0
    requires k < |Shown(Rates(times))|
    ensures WINDOW * k + WINDOW < |times|
    ensures var elapsed := (times[WINDOW * k + WINDOW] - times[WINDOW * k]) / 1000.0;
            elapsed > 0.0 && Shown(Rates(times))[k].Finite? && Shown(Rates(times))[k].value >= 11.0 / elapsed
  {
    hide Rates, Sum;
    RateAt(times, 0);
    SumOfRates(times, WINDOW * k, WINDOW);
    var elapsed := (times[WINDOW * k + WINDOW] - times[WINDOW * k]) / 1000.0;
    assert times[WINDOW * k] < times[WINDOW * k + WINDOW];
    MeanBound(Sum(Rates(times)[WINDOW * k..WINDOW * k + WINDOW]).value, elapsed);
  }

  lemma MeanBound(sum: real, elapsed: real)
    requires elapsed > 0.0 && sum * elapsed >= 121.0
    ensures sum / 11.0 >= 11.0 / elapsed
  {
    var q := 11.0 / elapsed;
    assert q * elapsed == 11.0;
    OrderByProduct(sum, 11.0 * q, elapsed);
  }

  /** The rate between frames `i` and `i + 1` of an increasing clock, in frames per second. */
  function FrameRate(times: seq<real>, i: nat): real
    requires Increasing(times) && i + 1 < |times|
  {
    1000.0 / (times[i + 1] - times[i])
  }

  lemma WindowOfFrames(times: seq<real>, k: nat, i: nat)
    requires Increasing(times) && times != [] && times[0] > 0.0 && 11 * k + 11 < |times| && i < 11
    ensures |Rates(times)| == |times| - 1
    ensures Rates(times)[11 * k..11 * k + 11][i] == Finite(FrameRate(times, 11 * k + i))
  {
    hide Rates;
    RateAt(times, 11 * k + i);
  }

  /** For increasing timestamps: eleven times the `k`-th value shown is the sum of the eleven rates between its
      twelve frames. */
  lemma ShownOfFrames(times: seq<real>, k: nat)
    requires Increasing(times) && times != [] && times[0] > 0.0
    ensures |Shown(Rates(times))| == (|times| - 1) / 11
    ensures k < (|times| - 1) / 11 ==>
              var n := 11 * k;
              && Shown(Rates(times))[k].Finite?
              && 11.0 * Shown(Rates(times))[k].value
                 == FrameRate(times, n) + FrameRate(times, n + 1) + FrameRate(times, n + 2) + FrameRate(times, n + 3)
                    + FrameRate(times, n + 4) + FrameRate(times, n + 5) + FrameRate(times, n + 6)
                    + FrameRate(times, n + 7) + FrameRate(times, n + 8) + FrameRate(times, n + 9)
                    + FrameRate(times, n + 10)
  {
    hide Rates, Shown, FrameRate, AreRates, Increasing;
    RateAt(times, 0);
    RatesAreRates(times);
    ShownIsMean(Rates(times), k);
    if k < (|times| - 1) / 11 {
      WindowOfFrames(times, k, 0);
      WindowOfFrames(times, k, 1);
      WindowOfFrames(times, k, 2);
      WindowOfFrames(times, k, 3);
      WindowOfFrames(times, k, 4);
      WindowOfFrames(times, k, 5);
      WindowOfFrames(times, k, 6);
      WindowOfFrames(times, k, 7);
      WindowOfFrames(times, k, 8);
      WindowOfFrames(times, k, 9);
      WindowOfFrames(times, k, 10);
      assert AllFinite(Rates(times)[11 * k..11 * k + 11]);
    }
  }

  /** And it lies between any bounds of them. */
  lemma ShownWithinBounds(times: seq<real>, k: nat, lo: real, hi: real)
    requires Increasing(times) && times != [] && times[0] > 0.0 && 11 * k + 11 < |times|
    requires forall i :: 11 * k <= i < 11 * k + 11 ==> lo <= FrameRate(times, i) <= hi
    ensures k < |Shown(Rates(times))| && Shown(Rates(times))[k].Finite? && lo <= Shown(Rates(times))[k].value <= hi
  {
    hide Rates, Shown, FrameRate, Increasing;
    ShownOfFrames(times, k);
  }
}
