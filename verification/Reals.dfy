/** Small facts of real arithmetic, stated once so that proofs elsewhere stay linear. */
module Reals {

  lemma OrderByProduct(a: real, b: real, c: real)
    requires c > 0.0
    ensures a < b <==> a * c < b * c
    ensures a == b <==> a * c == b * c
  {
    if a < b {
      assert (b - a) * c > 0.0;
    } else {
      assert (a - b) * c >= 0.0;
      if a > b {
        assert (a - b) * c > 0.0;
      }
    }
  }

  lemma QuotientTimes(a: real, b: real)
    requires b != 0.0
    ensures a / b * b == a
  {
  }

  lemma QuotientOrder(a: real, b: real, c: real)
    requires b > 0.0
    ensures a / b < c <==> a < c * b
    ensures a / b > c <==> a > c * b
  {
    var q := a / b;
    assert q * b == a;
    OrderByProduct(q, c, b);
    OrderByProduct(c, q, b);
  }

  lemma Distribute(a: real, b: real, s: real)
    ensures a * s - b * s == (a - b) * s
  {
  }

  lemma Regroup(a: real, b: real, c: real, d: real)
    ensures (a * b) * (c * d) == (a * c) * (b * d)
  {
    calc {
      (a * b) * (c * d);
      a * (b * (c * d));
      { assert b * (c * d) == c * (b * d); }
      a * (c * (b * d));
      (a * c) * (b * d);
    }
  }

  lemma ProductMonotone(w: real, h: real, w': real, h': real)
    requires 0.0 <= w <= w' && 0.0 <= h <= h'
    ensures 0.0 <= w * h <= w' * h'
  {
    assert (w' - w) * h >= 0.0;
    assert w' * (h' - h) >= 0.0;
  }

  lemma SquareOrder(s: real, t: real)
    requires s >= 0.0 && t >= 0.0
    ensures s < t ==> s * s < t * t
  {
    if s < t {
      var p, q := t - s, t + s;
      assert p * q == t * t - s * s;
      assert p > 0.0 && q > 0.0;
      assert p * q > 0.0;
    }
  }
}
