/** `prepareInput` of server/cherum/static/js/video.js, lines 140-158: interleaved RGBA bytes to planar reals. */
module Planar {

  newtype byte = b: int | 0 <= b < 256

  /** The planes one after the other, alpha dropped, values scaled into [0, 1]. */
  ghost predicate IsPlanar(pixels: seq<byte>, input: seq<real>)
    requires |pixels| % 4 == 0
  {
    var n := |pixels| / 4;
    && |input| == 3 * n
    && forall p :: 0 <= p < n ==>
         && input[p] == pixels[4 * p] as real / 255.0
         && input[n + p] == pixels[4 * p + 1] as real / 255.0
         && input[2 * n + p] == pixels[4 * p + 2] as real / 255.0
  }

  method PrepareInput(pixels: seq<byte>) returns (input: seq<real>)
    requires |pixels| % 4 == 0
    ensures IsPlanar(pixels, input)
    ensures forall i :: 0 <= i < |input| ==> 0.0 <= input[i] <= 1.0
  {
    hide IsPlane, IsPlanar;
    PlanesEmpty();
    var red: seq<real>, green: seq<real>, blue: seq<real> := [], [], [];
    var index := 0;
    while index < |pixels|
      invariant index % 4 == 0 && index <= |pixels|
      invariant IsPlane(pixels[..index], 0, red)
      invariant IsPlane(pixels[..index], 1, green)
      invariant IsPlane(pixels[..index], 2, blue)
    {
      PlaneSnoc(pixels[..index], pixels[index..index + 4], 0, red);
      PlaneSnoc(pixels[..index], pixels[index..index + 4], 1, green);
      PlaneSnoc(pixels[..index], pixels[index..index + 4], 2, blue);
      assert pixels[..index + 4] == pixels[..index] + pixels[index..index + 4];
      red := red + [pixels[index] as real / 255.0];
      green := green + [pixels[index + 1] as real / 255.0];
      blue := blue + [pixels[index + 2] as real / 255.0];
      index := index + 4;
    }
    assert pixels[..index] == pixels;
    input := red + green + blue;
    PlanesJoin(pixels, red, green, blue);
  }

  /** `plane` holds channel `c` of every pixel. */
  ghost predicate IsPlane(pixels: seq<byte>, c: nat, plane: seq<real>)
    requires |pixels| % 4 == 0 && c < 4
  {
    && |plane| == |pixels| / 4
    && forall p :: 0 <= p < |plane| ==> plane[p] == pixels[4 * p + c] as real / 255.0
  }

  lemma PlanesEmpty()
    ensures IsPlane([], 0, []) && IsPlane([], 1, []) && IsPlane([], 2, [])
  {
  }

  lemma PlaneSnoc(pixels: seq<byte>, pixel: seq<byte>, c: nat, plane: seq<real>)
    requires |pixels| % 4 == 0 && |pixel| == 4 && c < 4 && IsPlane(pixels, c, plane)
    ensures IsPlane(pixels + pixel, c, plane + [pixel[c] as real / 255.0])
  {
    assert 4 * |plane| == |pixels|;
  }

  lemma PlanesJoin(pixels: seq<byte>, red: seq<real>, green: seq<real>, blue: seq<real>)
    requires |pixels| % 4 == 0
    requires IsPlane(pixels, 0, red) && IsPlane(pixels, 1, green) && IsPlane(pixels, 2, blue)
    ensures IsPlanar(pixels, red + green + blue)
    ensures forall i :: 0 <= i < |red + green + blue| ==> 0.0 <= (red + green + blue)[i] <= 1.0
  {
    var n, input := |pixels| / 4, red + green + blue;
    forall p | 0 <= p < n
      ensures input[p] == red[p] && input[n + p] == green[p] && input[2 * n + p] == blue[p]
    {
    }
    forall i | 0 <= i < |input|
      ensures 0.0 <= input[i] <= 1.0
    {
      assert input[i] == if i < n then red[i] else if i < 2 * n then green[i - n] else blue[i - 2 * n];
    }
  }

  /** The colour content survives: two pixel buffers with the same planar form differ at most in alpha. */
  lemma ColoursRecoverable(pixels: seq<byte>, pixels': seq<byte>, input: seq<real>)
    requires |pixels| % 4 == 0 && |pixels'| % 4 == 0
    requires IsPlanar(pixels, input) && IsPlanar(pixels', input)
    ensures |pixels| == |pixels'|
    ensures forall i :: 0 <= i < |pixels| && i % 4 != 3 ==> pixels[i] == pixels'[i]
  {
    forall i | 0 <= i < |pixels| && i % 4 != 3
      ensures pixels[i] == pixels'[i]
    {
      PlanarCell(pixels, input, i % 4, i / 4);
      PlanarCell(pixels', input, i % 4, i / 4);
    }
  }

  /** Cell `c * n + p` is channel `c` of pixel `p`; times 255 it is the byte it came from. */
  lemma PlanarCell(pixels: seq<byte>, input: seq<real>, c: nat, p: nat)
    requires |pixels| % 4 == 0 && IsPlanar(pixels, input) && c < 3 && p < |pixels| / 4
    ensures c * (|pixels| / 4) + p < |input|
    ensures input[c * (|pixels| / 4) + p] * 255.0 == pixels[4 * p + c] as real
  {
    assert c == 0 || c == 1 || c == 2;
  }
}
