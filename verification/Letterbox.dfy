/** The letterbox of server/cherum/static/js/video.js: fitting a video frame into the model's square
    (lines 66-80) and mapping model coordinates back to the canvas (lines 95-108). */
module Letterbox {
  import opened Reals

  const MODEL_INPUT_SIZE: real := 640.0

  datatype Placement = Placement(width: real, height: real, offsetX: real, offsetY: real)

  function Place(videoWidth: real, videoHeight: real): Placement
    requires videoWidth > 0.0 && videoHeight > 0.0
  {
    var aspect := videoWidth / videoHeight;
    var width := if aspect > 1.0 then MODEL_INPUT_SIZE else MODEL_INPUT_SIZE * aspect;
    var height := if aspect > 1.0 then MODEL_INPUT_SIZE / aspect else MODEL_INPUT_SIZE;
    Placement(width, height, (MODEL_INPUT_SIZE - width) / 2.0, (MODEL_INPUT_SIZE - height) / 2.0)
  }

  /** Where a source coordinate lands when a source extent is stretched over a target extent. */
  function Stretch(offset: real, target: real, source: real, x: real): real
    requires source > 0.0
  {
    offset + x / source * target
  }

  /** The inverse map `drawBoxes` applies on one axis. */
  function OnCanvas(offset: real, target: real, canvas: real, x: real): real
    requires target > 0.0
  {
    (x - offset) * (canvas / target)
  }

  /** The picture keeps its proportions, its longer side fills the square, and it is centred. */
  lemma PlacementFits(videoWidth: real, videoHeight: real)
    requires videoWidth > 0.0 && videoHeight > 0.0
    ensures var p := Place(videoWidth, videoHeight);
            && p.width * videoHeight == p.height * videoWidth
            && 0.0 < p.width <= 640.0 && 0.0 < p.height <= 640.0
            && (if videoWidth > videoHeight then p.width == 640.0 else p.height == 640.0)
            && p.offsetX >= 0.0 && p.offsetX + p.width + p.offsetX == 640.0
            && p.offsetY >= 0.0 && p.offsetY + p.height + p.offsetY == 640.0
  {
    var aspect := videoWidth / videoHeight;
    QuotientTimes(videoWidth, videoHeight);
    QuotientOrder(videoWidth, videoHeight, 1.0);
    QuotientOrder(videoWidth, videoHeight, 0.0);
    assert aspect > 1.0 <==> videoWidth > videoHeight;
    if aspect > 1.0 {
      var height := 640.0 / aspect;
      QuotientTimes(640.0, aspect);
      OrderByProduct(0.0, height, aspect);
      OrderByProduct(640.0, height, aspect);
      assert height * videoWidth == height * (aspect * videoHeight) == (height * aspect) * videoHeight;
    } else {
      OrderByProduct(1.0, aspect, 640.0);
      OrderByProduct(0.0, aspect, 640.0);
    }
  }

  lemma StretchInverse(offset: real, target: real, source: real, canvas: real, x: real)
    requires target > 0.0 && source > 0.0
    ensures OnCanvas(offset, target, canvas, Stretch(offset, target, source, x)) == x / source * canvas
  {
    var share, scale := x / source, canvas / target;
    assert scale * target == canvas;
    assert (share * target) * scale == share * (scale * target);
  }

  /** Each map alone: a point is as far into the picture as into the video, in proportion to their extents, and a
      point of the picture is as far onto the canvas. */
  lemma MapsKeepProportions(offset: real, target: real, source: real, canvas: real, x: real)
    requires target > 0.0 && source > 0.0
    ensures (Stretch(offset, target, source, x) - offset) * source == x * target
    ensures OnCanvas(offset, target, canvas, x) * target == (x - offset) * canvas
  {
    var share, scale := x / source, canvas / target;
    assert share * source == x && scale * target == canvas;
    assert (share * target) * source == (share * source) * target;
    assert ((x - offset) * scale) * target == (x - offset) * (scale * target);
  }

  /** A video point drawn into the square and mapped back sits at the same relative position of the canvas,
      whichever way the frame is letterboxed. */
  lemma DrawBoxesUndoesLetterbox(videoWidth: real, videoHeight: real, canvasWidth: real, canvasHeight: real, x: real,
                                 y: real)
    requires videoWidth > 0.0 && videoHeight > 0.0 && canvasWidth > 0.0 && canvasHeight > 0.0
    ensures var p := Place(videoWidth, videoHeight);
            && p.width > 0.0 && p.height > 0.0
            && OnCanvas(p.offsetX, p.width, canvasWidth, Stretch(p.offsetX, p.width, videoWidth, x))
               == x / videoWidth * canvasWidth
            && OnCanvas(p.offsetY, p.height, canvasHeight, Stretch(p.offsetY, p.height, videoHeight, y))
               == y / videoHeight * canvasHeight
  {
    PlacementFits(videoWidth, videoHeight);
    var p := Place(videoWidth, videoHeight);
    StretchInverse(p.offsetX, p.width, videoWidth, canvasWidth, x);
    StretchInverse(p.offsetY, p.height, videoHeight, canvasHeight, y);
  }
}
