/** The overlap measure of server/cherum/static/js/video.js and what it says about rectangles. */
module BoxGeometry {
  import opened JsNumbers
  import opened Reals

  datatype Box = Box(x1: real, y1: real, x2: real, y2: real, classId: nat, prob: real)

  function Max(a: real, b: real): real { if a < b then b else a }

  function Min(a: real, b: real): real { if b < a then b else a }

  /** Overlap extents along each axis: negative when the boxes are apart on it. */
  function OverlapX(a: Box, b: Box): real { Min(a.x2, b.x2) - Max(a.x1, b.x1) }

  function OverlapY(a: Box, b: Box): real { Min(a.y2, b.y2) - Max(a.y1, b.y1) }

  function Area(b: Box): real { (b.x2 - b.x1) * (b.y2 - b.y1) }

  /** As in the source, the extents are not clamped at zero. */
  function Intersection(a: Box, b: Box): real { OverlapX(a, b) * OverlapY(a, b) }

  function Union(a: Box, b: Box): real { Area(a) + Area(b) - Intersection(a, b) }

  function Iou(a: Box, b: Box): Number { Divide(Intersection(a, b), Union(a, b)) }

  /** The filter's test `iou(a, b) < 0.7`: `b` survives the selection of `a`. */
  predicate Keeps(a: Box, b: Box) { Less(Iou(a, b), 0.7) }

  lemma KeepsSymmetric(a: Box, b: Box)
    ensures Iou(a, b) == Iou(b, a)
    ensures Keeps(a, b) <==> Keeps(b, a)
  {
    hide OverlapX, OverlapY;
    OverlapSymmetric(a, b);
    assert Intersection(a, b) == Intersection(b, a);
    assert Union(a, b) == Union(b, a);
  }

  lemma OverlapSymmetric(a: Box, b: Box)
    ensures OverlapX(a, b) == OverlapX(b, a) && OverlapY(a, b) == OverlapY(b, a)
  {
  }

  /** Whatever its shape, a box never survives its own selection: its ratio is 1, or 0/0 for an empty area. */
  lemma NeverKeepsItself(b: Box)
    ensures Iou(b, b) == if Area(b) == 0.0 then NaN else Finite(1.0)
    ensures !Keeps(b, b)
  {
    assert Intersection(b, b) == Area(b) == Union(b, b);
  }

  // ---------- Scaling ----------

  function Scaled(b: Box, sx: real, sy: real): Box
  {
    Box(b.x1 * sx, b.y1 * sy, b.x2 * sx, b.y2 * sy, b.classId, b.prob)
  }

  lemma MaxMinScale(a: real, b: real, sa: real, sb: real, s: real)
    requires s > 0.0 && sa == a * s && sb == b * s
    ensures Max(sa, sb) == Max(a, b) * s
    ensures Min(sa, sb) == Min(a, b) * s
  {
    if a < b {
      assert (b - a) * s > 0.0;
    } else if b < a {
      assert (a - b) * s > 0.0;
    }
  }

  lemma DivideScale(n: real, d: real, k: real)
    requires k > 0.0
    ensures Divide(n * k, d * k) == Divide(n, d)
  {
    if d != 0.0 {
      assert d * k != 0.0;
      var q := n / d;
      assert q * d == n;
      assert q * (d * k) == n * k;
      assert (n * k) / (d * k) == q;
    } else {
      assert d * k == 0.0;
      if n > 0.0 {
        assert n * k > 0.0;
      } else if n < 0.0 {
        assert (-n) * k > 0.0;
      }
    }
  }

  lemma OverlapScale(a: Box, b: Box, sx: real, sy: real)
    requires sx > 0.0 && sy > 0.0
    ensures OverlapX(Scaled(a, sx, sy), Scaled(b, sx, sy)) == OverlapX(a, b) * sx
    ensures OverlapY(Scaled(a, sx, sy), Scaled(b, sx, sy)) == OverlapY(a, b) * sy
  {
    hide Max, Min;
    var sa, sb := Scaled(a, sx, sy), Scaled(b, sx, sy);
    MaxMinScale(a.x1, b.x1, sa.x1, sb.x1, sx);
    MaxMinScale(a.x2, b.x2, sa.x2, sb.x2, sx);
    Distribute(Min(a.x2, b.x2), Max(a.x1, b.x1), sx);
    MaxMinScale(a.y1, b.y1, sa.y1, sb.y1, sy);
    MaxMinScale(a.y2, b.y2, sa.y2, sb.y2, sy);
    Distribute(Min(a.y2, b.y2), Max(a.y1, b.y1), sy);
  }

  lemma IntersectionScale(a: Box, b: Box, sx: real, sy: real)
    requires sx > 0.0 && sy > 0.0
    ensures Intersection(Scaled(a, sx, sy), Scaled(b, sx, sy)) == Intersection(a, b) * (sx * sy)
  {
    hide OverlapX, OverlapY, Scaled;
    OverlapScale(a, b, sx, sy);
    Regroup(OverlapX(a, b), sx, OverlapY(a, b), sy);
  }

  lemma AreaScale(b: Box, sx: real, sy: real)
    ensures Area(Scaled(b, sx, sy)) == Area(b) * (sx * sy)
  {
    assert b.x2 * sx - b.x1 * sx == (b.x2 - b.x1) * sx;
    assert b.y2 * sy - b.y1 * sy == (b.y2 - b.y1) * sy;
    Regroup(b.x2 - b.x1, sx, b.y2 - b.y1, sy);
  }

  lemma DistributeUnion(p: real, q: real, r: real, k: real)
    ensures p * k + q * k - r * k == (p + q - r) * k
  {
  }

  lemma UnionScale(a: Box, b: Box, sx: real, sy: real)
    requires sx > 0.0 && sy > 0.0
    ensures Union(Scaled(a, sx, sy), Scaled(b, sx, sy)) == Union(a, b) * (sx * sy)
  {
    hide Area, Intersection, Scaled;
    AreaScale(a, sx, sy);
    AreaScale(b, sx, sy);
    IntersectionScale(a, b, sx, sy);
    DistributeUnion(Area(a), Area(b), Intersection(a, b), sx * sy);
  }

  /** Stretching both axes by positive factors multiplies intersection and union alike, so the
      ratio, and with it every verdict, stays the same. */
  lemma ScaleInvariant(a: Box, b: Box, sx: real, sy: real)
    requires sx > 0.0 && sy > 0.0
    ensures Iou(Scaled(a, sx, sy), Scaled(b, sx, sy)) == Iou(a, b)
    ensures Keeps(Scaled(a, sx, sy), Scaled(b, sx, sy)) == Keeps(a, b)
  {
    IntersectionScale(a, b, sx, sy);
    UnionScale(a, b, sx, sy);
    DivideScale(Intersection(a, b), Union(a, b), sx * sy);
  }

  // ---------- The geometric meaning ----------

  predicate Ordered(b: Box) { b.x1 <= b.x2 && b.y1 <= b.y2 }

  predicate Within(lo: real, hi: real, p: real) { lo <= p <= hi }

  /** Both ends of a stretch lie in both of two intervals. */
  predicate InBoth(lo: real, hi: real, lo': real, hi': real, from: real, to: real)
  {
    Within(lo, hi, from) && Within(lo, hi, to) && Within(lo', hi', from) && Within(lo', hi', to)
  }

  /** The longest stretch two intervals have in common has the given length. */
  ghost predicate Share(lo: real, hi: real, lo': real, hi': real, length: real)
  {
    && (exists from, to :: InBoth(lo, hi, lo', hi', from, to) && from <= to && to - from == length)
    && (forall from, to :: InBoth(lo, hi, lo', hi', from, to) ==> to - from <= length)
  }

  function Distance(p: real, q: real): real { if p < q then q - p else p - q }

  /** The nearest points of two intervals are the given distance apart. */
  ghost predicate Apart(lo: real, hi: real, lo': real, hi': real, distance: real)
  {
    && distance > 0.0
    && (exists p, q :: Within(lo, hi, p) && Within(lo', hi', q) && Distance(p, q) == distance)
    && (forall p, q :: Within(lo, hi, p) && Within(lo', hi', q) ==> Distance(p, q) >= distance)
  }

  /** What two intervals share, or minus the distance between them. */
  ghost predicate IsExtent(lo: real, hi: real, lo': real, hi': real, extent: real)
  {
    Share(lo, hi, lo', hi', extent) || Apart(lo, hi, lo', hi', -extent)
  }

  /** The extents of two boxes along both axes, told from their coordinates alone. */
  ghost predicate Extents(a: Box, b: Box, ex: real, ey: real)
  {
    IsExtent(a.x1, a.x2, b.x1, b.x2, ex) && IsExtent(a.y1, a.y2, b.y1, b.y2, ey)
  }

  lemma ExtentExists(lo: real, hi: real, lo': real, hi': real)
    requires lo <= hi && lo' <= hi'
    ensures IsExtent(lo, hi, lo', hi', Min(hi, hi') - Max(lo, lo'))
  {
    var from, to := Max(lo, lo'), Min(hi, hi');
    if from <= to {
      assert InBoth(lo, hi, lo', hi', from, to);
    } else {
      var p, q := if hi < lo' then hi else lo, if hi < lo' then lo' else hi';
      assert Within(lo, hi, p) && Within(lo', hi', q) && Distance(p, q) == from - to;
    }
  }

  lemma SharingIsNotApart(lo: real, hi: real, lo': real, hi': real, length: real, distance: real)
    requires Share(lo, hi, lo', hi', length)
    ensures !Apart(lo, hi, lo', hi', distance)
  {
    var from, to :| InBoth(lo, hi, lo', hi', from, to) && from <= to && to - from == length;
    assert Within(lo, hi, from) && Within(lo', hi', from) && Distance(from, from) == 0.0;
  }

  lemma SameShare(lo: real, hi: real, lo': real, hi': real, e: real, e': real)
    requires Share(lo, hi, lo', hi', e) && Share(lo, hi, lo', hi', e')
    ensures e == e'
  {
  }

  lemma SameDistance(lo: real, hi: real, lo': real, hi': real, d: real, d': real)
    requires Apart(lo, hi, lo', hi', d) && Apart(lo, hi, lo', hi', d')
    ensures d == d'
  {
  }

  lemma ExtentUnique(lo: real, hi: real, lo': real, hi': real, e: real, e': real)
    requires IsExtent(lo, hi, lo', hi', e) && IsExtent(lo, hi, lo', hi', e')
    ensures e == e'
  {
    if Share(lo, hi, lo', hi', e) && Apart(lo, hi, lo', hi', -e') {
      SharingIsNotApart(lo, hi, lo', hi', e, -e');
    } else if Apart(lo, hi, lo', hi', -e) && Share(lo, hi, lo', hi', e') {
      SharingIsNotApart(lo, hi, lo', hi', e', -e);
    } else if Share(lo, hi, lo', hi', e) {
      SameShare(lo, hi, lo', hi', e, e');
    } else {
      SameDistance(lo, hi, lo', hi', -e, -e');
    }
  }

  /** The code's overlap extents are those of the coordinates, for all ordered boxes. */
  lemma OverlapIsExtent(a: Box, b: Box, ex: real, ey: real)
    requires Ordered(a) && Ordered(b)
    ensures Extents(a, b, ex, ey) <==> ex == OverlapX(a, b) && ey == OverlapY(a, b)
  {
    hide IsExtent, Max, Min;
    ExtentExists(a.x1, a.x2, b.x1, b.x2);
    ExtentExists(a.y1, a.y2, b.y1, b.y2);
    if Extents(a, b, ex, ey) {
      ExtentUnique(a.x1, a.x2, b.x1, b.x2, ex, OverlapX(a, b));
      ExtentUnique(a.y1, a.y2, b.y1, b.y2, ey, OverlapY(a, b));
    }
  }

  function Clamp(extent: real): real { if extent > 0.0 then extent else 0.0 }

  function TotalArea(a: Box, b: Box): real
  {
    (a.x2 - a.x1) * (a.y2 - a.y1) + (b.x2 - b.x1) * (b.y2 - b.y1)
  }

  /** The usual verdict: what the boxes share is less than seven tenths of what they cover together. For two
      empty boxes it is false, like that of 0/0. */
  predicate StandardKeeps(a: Box, b: Box, ex: real, ey: real)
  {
    10.0 * (Clamp(ex) * Clamp(ey)) < 7.0 * (TotalArea(a, b) - Clamp(ex) * Clamp(ey))
  }

  /** When the missing clamp is harmless. The product of two distances counts as overlap, and two empty boxes
      that are apart get a ratio of -1 where the standard one is 0/0. */
  predicate ClampIrrelevant(a: Box, b: Box, ex: real, ey: real)
  {
    if TotalArea(a, b) > 0.0
    then ex < 0.0 && ey < 0.0 ==> 17.0 * (ex * ey) < 7.0 * TotalArea(a, b) || TotalArea(a, b) < ex * ey
    else ex * ey == 0.0
  }

  /** On overlapping ordered boxes the intersection is at most either area. */
  lemma OverlapWithinAreas(a: Box, b: Box)
    requires Ordered(a) && Ordered(b) && OverlapX(a, b) >= 0.0 && OverlapY(a, b) >= 0.0
    ensures 0.0 <= Intersection(a, b) <= Area(a)
    ensures Intersection(a, b) <= Area(b)
  {
    ProductMonotone(OverlapX(a, b), OverlapY(a, b), a.x2 - a.x1, a.y2 - a.y1);
    ProductMonotone(OverlapX(a, b), OverlapY(a, b), b.x2 - b.x1, b.y2 - b.y1);
  }

  lemma AreasNonNegative(a: Box, b: Box)
    requires Ordered(a) && Ordered(b)
    ensures Area(a) >= 0.0 && Area(b) >= 0.0 && TotalArea(a, b) == Area(a) + Area(b)
  {
  }

  /** The product of the extents by their signs, with and without the clamp. */
  lemma Products(ex: real, ey: real)
    ensures ex >= 0.0 && ey >= 0.0 ==> Clamp(ex) * Clamp(ey) == ex * ey
    ensures ex < 0.0 || ey < 0.0 ==> Clamp(ex) * Clamp(ey) == 0.0
    ensures ex < 0.0 && ey < 0.0 ==> ex * ey > 0.0
    ensures (ex < 0.0) != (ey < 0.0) ==> ex * ey <= 0.0
  {
  }

  /** The verdict on two boxes with a given overlap and total area. */
  lemma VerdictOf(gap: real, total: real)
    ensures Less(Divide(gap, total - gap), 0.7) <==>
            if total > gap then 17.0 * gap < 7.0 * total
            else if total == gap then gap < 0.0
            else 17.0 * gap > 7.0 * total
  {
    if total > gap {
      QuotientOrder(gap, total - gap, 0.7);
    } else if total < gap {
      assert gap / (total - gap) == (-gap) / (gap - total);
      QuotientOrder(-gap, gap - total, 0.7);
    }
  }

  /** The verdict in terms of the code's extents. */
  lemma KeepsByProducts(a: Box, b: Box)
    ensures var gap, total := OverlapX(a, b) * OverlapY(a, b), TotalArea(a, b);
            Keeps(a, b) <==>
            if total > gap then 17.0 * gap < 7.0 * total
            else if total == gap then gap < 0.0
            else 17.0 * gap > 7.0 * total
  {
    hide Less, Divide;
    VerdictOf(Intersection(a, b), Area(a) + Area(b));
  }

  /** The least of the four differences between an upper and a lower bound of two intervals, ordered or not. */
  predicate IsLeastDifference(lo: real, hi: real, lo': real, hi': real, e: real)
  {
    && e in {hi - lo, hi - lo', hi' - lo, hi' - lo'}
    && e <= hi - lo && e <= hi - lo' && e <= hi' - lo && e <= hi' - lo'
  }

  /** The verdict on boxes of any shape, with negative widths and heights, without a division. */
  lemma KeepsByCoordinates(a: Box, b: Box, ex: real, ey: real)
    requires IsLeastDifference(a.x1, a.x2, b.x1, b.x2, ex) && IsLeastDifference(a.y1, a.y2, b.y1, b.y2, ey)
    ensures var gap, total := ex * ey, TotalArea(a, b);
            Keeps(a, b) <==>
            if total > gap then 17.0 * gap < 7.0 * total
            else if total == gap then gap < 0.0
            else 17.0 * gap > 7.0 * total
  {
    hide Keeps, TotalArea;
    assert ex == OverlapX(a, b) && ey == OverlapY(a, b);
    KeepsByProducts(a, b);
  }

  /** Unless they are apart on both axes, ordered boxes that are not both empty have a positive union and a ratio
      of at most 1, which is the standard one if they meet, and the code gives the standard verdict. */
  lemma IouIsGeometric(a: Box, b: Box, ex: real, ey: real)
    requires Ordered(a) && Ordered(b) && TotalArea(a, b) > 0.0 && Extents(a, b, ex, ey)
    requires ex >= 0.0 || ey >= 0.0
    ensures Union(a, b) > 0.0
    ensures Iou(a, b).Finite? && Iou(a, b).value <= 1.0
    ensures ex >= 0.0 && ey >= 0.0 ==> Iou(a, b).value * (TotalArea(a, b) - ex * ey) == ex * ey
    ensures Keeps(a, b) <==> StandardKeeps(a, b, ex, ey)
  {
    hide Extents, OverlapX, OverlapY, Area, TotalArea, Less, Clamp;
    OverlapIsExtent(a, b, ex, ey);
    AreasNonNegative(a, b);
    Products(ex, ey);
    KeepsByProducts(a, b);
    if ex >= 0.0 && ey >= 0.0 {
      OverlapWithinAreas(a, b);
    }
    QuotientOrder(Intersection(a, b), Union(a, b), 1.0);
    QuotientTimes(Intersection(a, b), Union(a, b));
  }

  /** The exact extent of agreement, over all ordered boxes. */
  lemma VerdictAgreesExactly(a: Box, b: Box, ex: real, ey: real)
    requires Ordered(a) && Ordered(b) && Extents(a, b, ex, ey)
    ensures (Keeps(a, b) <==> StandardKeeps(a, b, ex, ey)) <==> ClampIrrelevant(a, b, ex, ey)
  {
    hide Extents, OverlapX, OverlapY, Area, TotalArea, Keeps, Clamp;
    OverlapIsExtent(a, b, ex, ey);
    AreasNonNegative(a, b);
    Products(ex, ey);
    KeepsByProducts(a, b);
    if ex >= 0.0 && ey >= 0.0 {
      OverlapWithinAreas(a, b);
    }
  }

  /** Two unit squares that only meet diagonally across a gap are reported as identical. */
  lemma DiagonalSquaresSuppressEachOther(classId: nat, prob: real)
    ensures var a, b := Box(0.0, 0.0, 1.0, 1.0, classId, prob), Box(2.0, 2.0, 3.0, 3.0, classId, prob);
            && Extents(a, b, -1.0, -1.0) && Iou(a, b) == Finite(1.0)
            && !Keeps(a, b) && StandardKeeps(a, b, -1.0, -1.0)
  {
    hide Extents;
    OverlapIsExtent(Box(0.0, 0.0, 1.0, 1.0, classId, prob), Box(2.0, 2.0, 3.0, 3.0, classId, prob), -1.0, -1.0);
  }
}
