/** `processOutput` of server/cherum/static/js/video.js: decoding the network's column-major tensor,
    sorting by score and suppressing overlaps. */
module Detection {
  import opened Sequences
  import opened BoxGeometry
  import opened Suppression
  import opened Sorting

  const MODEL_INPUT_SIZE: int := 640
  const NUM_PREDICTIONS: int := 8400  // 21 times the square of MODEL_INPUT_SIZE / 32
  const NUM_CLASSES: int := 59

  /** The network's output: four coordinate rows and one row per class, each NUM_PREDICTIONS long. */
  predicate IsTensor(output: seq<real>)
  {
    |output| == NUM_PREDICTIONS * (NUM_CLASSES + 4)
  }

  function Cell(row: nat, column: nat): nat
  {
    NUM_PREDICTIONS * row + column
  }

  /** The index arithmetic stays in bounds exactly for the rows there are, and no cell has two names. */
  lemma CellsDistinct(output: seq<real>, row: nat, column: nat, row': nat, column': nat)
    requires IsTensor(output) && column < NUM_PREDICTIONS && column' < NUM_PREDICTIONS
    ensures |output| == 529_200 && Cell(row, column) == 8400 * row + column
    ensures Cell(row, column) < |output| <==> row < 63
    ensures Cell(row, column) == Cell(row', column') <==> row == row' && column == column'
  {
  }

  function Scores(output: seq<real>, column: nat): (s: seq<real>)
    requires IsTensor(output) && column < NUM_PREDICTIONS
  {
    seq(NUM_CLASSES, c requires 0 <= c < NUM_CLASSES => output[Cell(c + 4, column)])
  }

  /** The reduce over [class, score] pairs, started at [0, 0]. */
  function Best(scores: seq<real>): (r: (nat, real))
  {
    if scores == [] then (0, 0.0)
    else
      var best := Best(DropLast(scores));
      if Last(scores) > best.1 then (|scores| - 1, Last(scores)) else best
  }

  /** The first class with the highest score when some score is positive, otherwise class 0 with score 0. */
  lemma {:induction false} BestIsFirstMaximum(scores: seq<real>)
    ensures var (c, p) := Best(scores);
            if exists k :: 0 <= k < |scores| && scores[k] > 0.0
            then c < |scores| && p == scores[c] > 0.0
                 && (forall k :: 0 <= k < |scores| ==> scores[k] <= p)
                 && (forall k :: 0 <= k < c ==> scores[k] < p)
            else c == 0 && p == 0.0
  {
    if scores == [] {
    } else {
      var front := DropLast(scores);
      BestIsFirstMaximum(front);
      assert forall k :: 0 <= k < |front| ==> front[k] == scores[k];
      if exists k :: 0 <= k < |front| && front[k] > 0.0 {
        var k :| 0 <= k < |front| && front[k] > 0.0;
        assert scores[k] > 0.0;
      }
    }
  }

  function Decode(output: seq<real>, column: nat, imgWidth: real, imgHeight: real): Box
    requires IsTensor(output) && column < NUM_PREDICTIONS
  {
    var (classId, prob) := Best(Scores(output, column));
    var xc := output[column];
    var yc := output[NUM_PREDICTIONS + column];
    var w := output[2 * NUM_PREDICTIONS + column];
    var h := output[3 * NUM_PREDICTIONS + column];
    var size := MODEL_INPUT_SIZE as real;
    Box((xc - w / 2.0) / size * imgWidth, (yc - h / 2.0) / size * imgHeight,
        (xc + w / 2.0) / size * imgWidth, (yc + h / 2.0) / size * imgHeight, classId, prob)
  }

  // ---------- What decoding means, on the cells ----------

  /** The score of a class for a column. */
  function ClassCell(output: seq<real>, column: nat, c: nat): real
    requires |output| == 529_200 && column < 8400 && c < 59
  {
    output[8400 * (c + 4) + column]
  }

  /** The first class with the highest score if some score of the column is positive, otherwise class 0, score 0. */
  ghost predicate IsBestClass(output: seq<real>, column: nat, classId: nat, prob: real)
    requires |output| == 529_200 && column < 8400
  {
    if exists c :: 0 <= c < 59 && ClassCell(output, column, c) > 0.0
    then
      && classId < 59 && prob == ClassCell(output, column, classId) > 0.0
      && (forall c :: 0 <= c < 59 ==> ClassCell(output, column, c) <= prob)
      && (forall c :: 0 <= c < classId ==> ClassCell(output, column, c) < prob)
    else classId == 0 && prob == 0.0
  }

  /** Centre and extents of the box are the four coordinate cells of the column, taken from the model's input
      square to the image; class and score are those of its class cells. */
  ghost predicate IsDecoded(output: seq<real>, column: nat, imgWidth: real, imgHeight: real, b: Box)
    requires |output| == 529_200 && column < 8400
  {
    && (b.x1 + b.x2) / 2.0 == output[column] / 640.0 * imgWidth
    && (b.y1 + b.y2) / 2.0 == output[8400 + column] / 640.0 * imgHeight
    && b.x2 - b.x1 == output[16_800 + column] / 640.0 * imgWidth
    && b.y2 - b.y1 == output[25_200 + column] / 640.0 * imgHeight
    && IsBestClass(output, column, b.classId, b.prob)
  }

  lemma CentreAndExtent(centre: real, extent: real, scale: real)
    ensures var lo, hi := (centre - extent / 2.0) / 640.0 * scale, (centre + extent / 2.0) / 640.0 * scale;
            && (lo + hi) / 2.0 == centre / 640.0 * scale
            && hi - lo == extent / 640.0 * scale
            && (scale >= 0.0 && extent >= 0.0 ==> lo <= hi)
  {
    var a, b := centre / 640.0, extent / 1280.0;
    assert (centre - extent / 2.0) / 640.0 == a - b;
    assert (centre + extent / 2.0) / 640.0 == a + b;
    assert (a - b) * scale + (a + b) * scale == 2.0 * (a * scale);
    assert (a + b) * scale - (a - b) * scale == (2.0 * b) * scale;
    if scale >= 0.0 && extent >= 0.0 {
      assert (2.0 * b) * scale >= 0.0;
    }
  }

  /** The decoded rectangle is the predicted one: its centre and extents are the four coordinate rows,
      taken from the model's input square to the image. */
  lemma DecodedRectangle(output: seq<real>, column: nat, imgWidth: real, imgHeight: real)
    requires IsTensor(output) && column < NUM_PREDICTIONS
    ensures var b := Decode(output, column, imgWidth, imgHeight);
            && (b.x1 + b.x2) / 2.0 == output[Cell(0, column)] / 640.0 * imgWidth
            && (b.y1 + b.y2) / 2.0 == output[Cell(1, column)] / 640.0 * imgHeight
            && b.x2 - b.x1 == output[Cell(2, column)] / 640.0 * imgWidth
            && b.y2 - b.y1 == output[Cell(3, column)] / 640.0 * imgHeight
            && (imgWidth >= 0.0 && imgHeight >= 0.0 && output[Cell(2, column)] >= 0.0 && output[Cell(3, column)] >= 0.0
                ==> Ordered(b))
  {
    CentreAndExtent(output[Cell(0, column)], output[Cell(2, column)], imgWidth);
    CentreAndExtent(output[Cell(1, column)], output[Cell(3, column)], imgHeight);
  }

  lemma DecodedClass(output: seq<real>, column: nat, imgWidth: real, imgHeight: real)
    requires IsTensor(output) && column < NUM_PREDICTIONS
    ensures var b := Decode(output, column, imgWidth, imgHeight); IsBestClass(output, column, b.classId, b.prob)
  {
    hide Best;
    var scores := Scores(output, column);
    BestIsFirstMaximum(scores);
    assert forall c :: 0 <= c < 59 ==> scores[c] == ClassCell(output, column, c);
    if c :| 0 <= c < 59 && ClassCell(output, column, c) > 0.0 {
      assert scores[c] > 0.0;
    }
  }

  lemma BestClassUnique(output: seq<real>, column: nat, c: nat, p: real, c': nat, p': real)
    requires |output| == 529_200 && column < 8400
    requires IsBestClass(output, column, c, p) && IsBestClass(output, column, c', p')
    ensures c == c' && p == p'
  {
    hide ClassCell;
    if exists d :: 0 <= d < 59 && ClassCell(output, column, d) > 0.0 {
      assert ClassCell(output, column, c) <= p' && ClassCell(output, column, c') <= p;
    }
  }

  lemma SameEnds(a1: real, a2: real, b1: real, b2: real)
    requires (a1 + a2) / 2.0 == (b1 + b2) / 2.0 && a2 - a1 == b2 - b1
    ensures a1 == b1 && a2 == b2
  {
  }

  /** A box is decoded from a column exactly if its cells describe it. */
  lemma DecodeExactly(output: seq<real>, column: nat, imgWidth: real, imgHeight: real, b: Box)
    requires IsTensor(output) && column < NUM_PREDICTIONS
    ensures b == Decode(output, column, imgWidth, imgHeight) <==> IsDecoded(output, column, imgWidth, imgHeight, b)
  {
    hide Decode, IsBestClass;
    var d := Decode(output, column, imgWidth, imgHeight);
    DecodedRectangle(output, column, imgWidth, imgHeight);
    DecodedClass(output, column, imgWidth, imgHeight);
    if IsDecoded(output, column, imgWidth, imgHeight, b) {
      SameEnds(b.x1, b.x2, d.x1, d.x2);
      SameEnds(b.y1, b.y2, d.y1, d.y2);
      BestClassUnique(output, column, b.classId, b.prob, d.classId, d.prob);
    }
  }

  /** Every cell of the tensor is read for one column: as the centre or extent of its box, or as a score of one of
      its classes, which wins as soon as it exceeds the score of the box. */
  lemma EveryCellIsRead(output: seq<real>, k: nat, score: real)
    requires IsTensor(output) && k < |output|
    ensures var row, column := k / 8400, k % 8400;
            var b := Decode(output, column, 1.0, 1.0);
            var b' := Decode(output[k := score], column, 1.0, 1.0);
            && row < 63
            && match row
               case 0 => output[k] == (b.x1 + b.x2) / 2.0 * 640.0
               case 1 => output[k] == (b.y1 + b.y2) / 2.0 * 640.0
               case 2 => output[k] == (b.x2 - b.x1) * 640.0
               case 3 => output[k] == (b.y2 - b.y1) * 640.0
               case _ => score > b.prob ==> b'.classId == row - 4 && b'.prob == score
  {
    hide Decode, IsBestClass;
    var row, column := k / 8400, k % 8400;
    assert k == 8400 * row + column;
    DecodedRectangle(output, column, 1.0, 1.0);
    if row >= 4 && score > Decode(output, column, 1.0, 1.0).prob {
      var b, b' := Decode(output, column, 1.0, 1.0), Decode(output[k := score], column, 1.0, 1.0);
      DecodedClass(output, column, 1.0, 1.0);
      DecodedClass(output[k := score], column, 1.0, 1.0);
      HigherScoreWins(output, column, row - 4, score, b.classId, b.prob);
      BestClassUnique(output[k := score], column, b'.classId, b'.prob, row - 4, score);
    }
  }

  lemma HigherScoreWins(output: seq<real>, column: nat, c: nat, score: real, classId: nat, prob: real)
    requires |output| == 529_200 && column < 8400 && c < 59
    requires IsBestClass(output, column, classId, prob) && score > prob
    ensures IsBestClass(output[8400 * (c + 4) + column := score], column, c, score)
  {
    var output' := output[8400 * (c + 4) + column := score];
    forall d | 0 <= d < 59
      ensures ClassCell(output', column, d) == if d == c then score else ClassCell(output, column, d)
    {
    }
  }

  function Decoded(output: seq<real>, imgWidth: real, imgHeight: real): (boxes: seq<Box>)
    requires IsTensor(output)
  {
    seq(NUM_PREDICTIONS, c requires 0 <= c < NUM_PREDICTIONS => Decode(output, c, imgWidth, imgHeight))
  }

  lemma ColumnsAreDecoded(output: seq<real>, imgWidth: real, imgHeight: real)
    requires IsTensor(output)
    ensures var boxes := Decoded(output, imgWidth, imgHeight);
            |boxes| == 8400 && forall c :: 0 <= c < 8400 ==> IsDecoded(output, c, imgWidth, imgHeight, boxes[c])
  {
    hide Decode, IsDecoded;
    forall c | 0 <= c < 8400
      ensures IsDecoded(output, c, imgWidth, imgHeight, Decoded(output, imgWidth, imgHeight)[c])
    {
      DecodeExactly(output, c, imgWidth, imgHeight, Decode(output, c, imgWidth, imgHeight));
    }
  }

  function Probs(boxes: seq<Box>): (keys: seq<real>)
    ensures |keys| == |boxes|
  {
    seq(|boxes|, i requires 0 <= i < |boxes| => boxes[i].prob)
  }

  function Arranged(boxes: seq<Box>, order: seq<nat>): (r: seq<Box>)
    requires forall i :: 0 <= i < |order| ==> order[i] < |boxes|
    ensures |r| == |order|
  {
    seq(|order|, i requires 0 <= i < |order| => boxes[order[i]])
  }

  /** The list the suppression loop works on. */
  function Sorted(boxes: seq<Box>): (r: seq<Box>)
    ensures |r| == |boxes|
  {
    Arranged(boxes, StableOrder(Probs(boxes)))
  }

  type Verdict = (Box, Box) -> bool

  /** The positions of `boxes` that are returned, in the order they are returned, under a given verdict. */
  ghost function KeptPositions(spares: Verdict, boxes: seq<Box>): (positions: seq<nat>)
    ensures forall k :: 0 <= k < |positions| ==> positions[k] < |boxes|
  {
    Select(StableOrder(Probs(boxes)), Kept(spares, Sorted(boxes)))
  }

  /** Selecting from an arranged list is arranging by the selected positions. */
  lemma {:induction false} SelectArranged(boxes: seq<Box>, order: seq<nat>, flags: seq<bool>)
    requires |order| == |flags| && forall i :: 0 <= i < |order| ==> order[i] < |boxes|
    ensures Select(Arranged(boxes, order), flags) == Arranged(boxes, Select(order, flags))
  {
    if order == [] {
    } else {
      SelectArranged(boxes, DropLast(order), DropLast(flags));
      assert DropLast(Arranged(boxes, order)) == Arranged(boxes, DropLast(order));
    }
  }

  // ---------- Sorting and suppressing, for any verdict ----------

  /** The result does not depend on how the sort is implemented, nor on how the kept positions are found. */
  lemma KeptPositionsUnique(spares: Verdict, boxes: seq<Box>, order: seq<nat>, kept: seq<bool>)
    requires IsStableOrder(Probs(boxes), order) && IsKernel(spares, Arranged(boxes, order), kept)
    ensures KeptPositions(spares, boxes) == Select(order, kept)
  {
    StableOrderUnique(Probs(boxes), order);
    KernelUnique(spares, Sorted(boxes), kept);
  }

  /** The boxes returned do not suppress each other, in either argument order. */
  lemma DetectionsCompatible(spares: Verdict, boxes: seq<Box>)
    requires Irreflexive(spares) && Symmetric(spares)
    ensures MutuallySpared(spares, Arranged(boxes, KeptPositions(spares, boxes)))
  {
    hide StableOrder, Probs, MutuallySpared;
    var s := Sorted(boxes);
    SelectArranged(boxes, StableOrder(Probs(boxes)), Kept(spares, s));
    NmsIsSelection(spares, s);
    NmsSound(spares, s);
  }

  ghost predicate DescendingProb(s: seq<Box>)
  {
    forall i, j :: 0 <= i < j < |s| ==> s[i].prob >= s[j].prob
  }

  /** They are a subsequence of the score-sorted list, best score first. */
  lemma DetectionsDescending(spares: Verdict, boxes: seq<Box>)
    ensures Subseq(Arranged(boxes, KeptPositions(spares, boxes)), Sorted(boxes))
    ensures DescendingProb(Arranged(boxes, KeptPositions(spares, boxes)))
  {
    hide StableOrder;
    var s := Sorted(boxes);
    SelectArranged(boxes, StableOrder(Probs(boxes)), Kept(spares, s));
    SelectSubseq(s, Kept(spares, s));
    SortedDescending(boxes);
    DescendingSubseq(Select(s, Kept(spares, s)), s);
  }

  lemma SortedDescending(boxes: seq<Box>)
    ensures DescendingProb(Sorted(boxes))
  {
    StableOrderExists(Probs(boxes));
    var order := StableOrder(Probs(boxes));
    assert forall i, j :: 0 <= i < j < |order| ==> Before(Probs(boxes), order[i], order[j]);
  }

  lemma {:induction false} DescendingSubseq(r: seq<Box>, s: seq<Box>)
    requires Subseq(r, s) && DescendingProb(s)
    ensures DescendingProb(r)
  {
    if r == [] {
    } else {
      if r[0] == s[0] && Subseq(r[1..], s[1..]) {
        DescendingSubseq(r[1..], s[1..]);
        forall j | 0 < j < |r|
          ensures r[0].prob >= r[j].prob
        {
          assert r[1..][j - 1] == r[j];
          SubseqMember(r[1..], s[1..], r[j]);
        }
      } else {
        DescendingSubseq(r, s[1..]);
      }
    }
  }

  /** A position that is not returned, and a returned one of no smaller score that suppresses it. */
  ghost predicate Suppresses(spares: Verdict, boxes: seq<Box>, winner: nat, position: nat)
    requires position < |boxes|
  {
    && winner in KeptPositions(spares, boxes) && winner < |boxes|
    && !spares(boxes[winner], boxes[position]) && boxes[winner].prob >= boxes[position].prob
  }

  /** Every position that is not returned is suppressed by a returned one of no smaller score. */
  lemma DetectionsComplete(spares: Verdict, boxes: seq<Box>, position: nat)
    requires position < |boxes| && position !in KeptPositions(spares, boxes)
    ensures exists winner :: Suppresses(spares, boxes, winner, position)
  {
    hide StableOrder;
    var order, s := StableOrder(Probs(boxes)), Sorted(boxes);
    var kept := Kept(spares, s);
    StableOrderExists(Probs(boxes));
    assert position in order;
    var i :| 0 <= i < |order| && order[i] == position;
    SelectMember(order, kept, position);
    NmsComplete(spares, s, i);
    var j :| 0 <= j < i && kept[j] && !spares(s[j], s[i]);
    SelectMember(order, kept, order[j]);
    assert Before(Probs(boxes), order[j], order[i]);
    assert Suppresses(spares, boxes, order[j], position);
  }

  // ---------- The overlap verdict ----------

  /** The overlap verdict satisfies what the suppression laws ask for. */
  lemma VerdictLaws()
    ensures Irreflexive(Keeps) && Symmetric(Keeps)
  {
    forall b: Box
      ensures !Keeps(b, b)
    {
      NeverKeepsItself(b);
    }
    forall a: Box, b: Box
      ensures Keeps(a, b) <==> Keeps(b, a)
    {
      KeepsSymmetric(a, b);
    }
  }

  /** What the suppression loop makes of a sorted list of boxes. */
  ghost function Suppressed(sorted: seq<Box>): seq<Box>
  {
    VerdictLaws();
    Nms(Keeps, sorted)
  }

  /** Suppressing the best `n` boxes alone gives the first part of the whole result, and suppressing a result
      again changes nothing. */
  lemma SuppressionLaws(sorted: seq<Box>, n: nat)
    requires n <= |sorted|
    ensures Suppressed(sorted[..n]) == Select(sorted[..n], Kept(Keeps, sorted)[..n])
    ensures Suppressed(sorted[..n]) <= Suppressed(sorted)
    ensures Suppressed(Suppressed(sorted)) == Suppressed(sorted)
  {
    hide Keeps;
    VerdictLaws();
    PrefixStable(Keeps, sorted, n);
    NmsIdempotent(Keeps, sorted);
  }

  /** The suppression loop. Its result is the selection at any solution of the kernel equation, and there is one. */
  method Suppress(sorted: seq<Box>) returns (result: seq<Box>)
    ensures result == Suppressed(sorted)
    ensures IsKernel(Keeps, sorted, Kept(Keeps, sorted))
    ensures forall kept :: IsKernel(Keeps, sorted, kept) ==> result == Select(sorted, kept)
  {
    hide Keeps, IsKernel, Kept, Select;
    VerdictLaws();
    var boxes := sorted;
    result := [];
    while |boxes| > 0
      invariant result + Nms(Keeps, boxes) == Nms(Keeps, sorted)
      decreases |boxes|
    {
      SurvivorsShrink(Keeps, boxes);
      result := result + [boxes[0]];
      boxes := Survivors(Keeps, boxes[0], boxes);
    }
    SuppressedIsKernel(sorted);
  }

  lemma SuppressedIsKernel(sorted: seq<Box>)
    ensures IsKernel(Keeps, sorted, Kept(Keeps, sorted))
    ensures forall kept :: IsKernel(Keeps, sorted, kept) ==> Suppressed(sorted) == Select(sorted, kept)
  {
    hide Keeps, Kept, Nms, Select;
    VerdictLaws();
    NmsIsSelection(Keeps, sorted);
    KeptIsKernel(Keeps, sorted);
    forall kept | IsKernel(Keeps, sorted, kept)
      ensures Suppressed(sorted) == Select(sorted, kept)
    {
      KernelUnique(Keeps, sorted, kept);
    }
  }

  /** `processOutput`. The boxes returned are the decoded ones at the kept positions; they do not suppress each
      other, they come best score first, and each of the others is suppressed by a better one among them. */
  method ProcessOutput(output: seq<real>, imgWidth: real, imgHeight: real) returns (result: seq<Box>)
    requires IsTensor(output)
    ensures var boxes := Decoded(output, imgWidth, imgHeight);
            && |boxes| == 8400 && (forall c :: 0 <= c < 8400 ==> IsDecoded(output, c, imgWidth, imgHeight, boxes[c]))
            && result == Arranged(boxes, KeptPositions(Keeps, boxes))
            && (forall p: nat :: p < |boxes| && p !in KeptPositions(Keeps, boxes) ==>
                  exists winner :: Suppresses(Keeps, boxes, winner, p))
    ensures MutuallySpared(Keeps, result) && DescendingProb(result)
  {
    hide Keeps, Decode, IsDecoded;
    var boxes: seq<Box> := [];
    for index := 0 to NUM_PREDICTIONS
      invariant |boxes| == index
      invariant forall c :: 0 <= c < index ==> boxes[c] == Decode(output, c, imgWidth, imgHeight)
    {
      boxes := boxes + [Decode(output, index, imgWidth, imgHeight)];
    }
    assert boxes == Decoded(output, imgWidth, imgHeight);
    ColumnsAreDecoded(output, imgWidth, imgHeight);
    ghost var decoded := boxes;
    boxes := Sorted(boxes);
    result := Suppress(boxes);
    SelectArranged(decoded, StableOrder(Probs(decoded)), Kept(Keeps, boxes));
    DetectionsCorrect(decoded);
  }

  lemma DetectionsCorrect(boxes: seq<Box>)
    ensures MutuallySpared(Keeps, Arranged(boxes, KeptPositions(Keeps, boxes)))
    ensures DescendingProb(Arranged(boxes, KeptPositions(Keeps, boxes)))
    ensures forall p: nat :: p < |boxes| && p !in KeptPositions(Keeps, boxes) ==>
              exists winner :: Suppresses(Keeps, boxes, winner, p)
  {
    hide Keeps, KeptPositions, Suppresses;
    VerdictLaws();
    DetectionsCompatible(Keeps, boxes);
    DetectionsDescending(Keeps, boxes);
    forall p: nat | p < |boxes| && p !in KeptPositions(Keeps, boxes)
      ensures exists winner :: Suppresses(Keeps, boxes, winner, p)
    {
      DetectionsComplete(Keeps, boxes, p);
    }
  }

  // ---------- Rescaling ----------

  lemma DecodeScales(output: seq<real>, column: nat, imgWidth: real, imgHeight: real)
    requires IsTensor(output) && column < NUM_PREDICTIONS
    ensures Decode(output, column, imgWidth, imgHeight) == Scaled(Decode(output, column, 1.0, 1.0), imgWidth, imgHeight)
    ensures Decode(output, column, imgWidth, imgHeight).prob == Decode(output, column, 1.0, 1.0).prob
  {
  }

  /** Rescaling the image never changes which columns are returned, nor their order. */
  lemma RescalingInvariance(output: seq<real>, w: real, h: real, w': real, h': real)
    requires IsTensor(output) && w > 0.0 && h > 0.0 && w' > 0.0 && h' > 0.0
    ensures KeptPositions(Keeps, Decoded(output, w, h)) == KeptPositions(Keeps, Decoded(output, w', h'))
  {
    KeptAtUnitScale(output, w, h);
    KeptAtUnitScale(output, w', h');
  }

  lemma KeptAtUnitScale(output: seq<real>, w: real, h: real)
    requires IsTensor(output) && w > 0.0 && h > 0.0
    ensures KeptPositions(Keeps, Decoded(output, w, h)) == KeptPositions(Keeps, Decoded(output, 1.0, 1.0))
  {
    hide Keeps, Decode, Scaled;
    var unit, boxes := Decoded(output, 1.0, 1.0), Decoded(output, w, h);
    forall c | 0 <= c < NUM_PREDICTIONS
      ensures boxes[c] == Scaled(unit[c], w, h) && boxes[c].prob == unit[c].prob
    {
      DecodeScales(output, c, w, h);
    }
    assert Probs(boxes) == Probs(unit);
    var s, t := Sorted(boxes), Sorted(unit);
    forall i, j | 0 <= i < j < |s|
      ensures Keeps(s[i], s[j]) <==> Keeps(t[i], t[j])
    {
      assert s[i] == Scaled(t[i], w, h) && s[j] == Scaled(t[j], w, h);
      ScaleInvariant(t[i], t[j], w, h);
    }
    KeptCongruent(Keeps, s, Keeps, t);
  }
}
