/** Square cropping of one image (`crop_to_square` in collage.py).
    An image is represented by its dimensions; cropping to a box yields an
    image whose dimensions are the box's extent. */
module Crop {

  /** An in-memory raster, reduced to its size in pixels. */
  datatype Image = Image(width: nat, height: nat)

  /** A crop box in the imaging library's convention: left/top inclusive,
      right/bottom exclusive. */
  datatype Box = Box(left: int, top: int, right: int, bottom: int)

  /** Gravity used when the caller gives none. */
  const DefaultGravity: real := 0.5

  function Min(a: int, b: int): (r: int)
    ensures r <= a && r <= b && (r == a || r == b)
  {
    if a <= b then a else b
  }

  /** Gravity clamped to [0, 1], as `max(0.0, min(1.0, gravity))`. */
  function ClampGravity(gravity: real): (r: real)
    ensures 0.0 <= r <= 1.0
    ensures 0.0 <= gravity <= 1.0 ==> r == gravity
    ensures gravity < 0.0 ==> r == 0.0
    ensures gravity > 1.0 ==> r == 1.0
  {
    var upper := if 1.0 <= gravity then 1.0 else gravity;
    if 0.0 >= upper then 0.0 else upper
  }

  /** The offset of the crop along the longer axis: the largest amount that
      can be cut, scaled by the clamped gravity and truncated to an integer.
      The product is never negative, so truncation is the floor. */
  function Offset(maxOffset: nat, gravity: real): (r: nat)
    ensures r <= maxOffset
    ensures r as real <= maxOffset as real * ClampGravity(gravity) < r as real + 1.0
    ensures ClampGravity(gravity) == 0.0 ==> r == 0
    ensures ClampGravity(gravity) == 1.0 ==> r == maxOffset
  {
    var g := ClampGravity(gravity);
    var scaled := maxOffset as real * g;
    assert 0.0 <= scaled <= maxOffset as real by {
      ScaleBounds(maxOffset as real, g);
    }
    scaled.Floor
  }

  lemma ScaleBounds(m: real, g: real)
    requires 0.0 <= m && 0.0 <= g <= 1.0
    ensures 0.0 <= m * g <= m
  {
    assert m * g <= m * 1.0;
  }

  /** Whether a box lies inside an image of the given size. */
  predicate InsideImage(b: Box, img: Image)
  {
    0 <= b.left <= b.right <= img.width && 0 <= b.top <= b.bottom <= img.height
  }

  /** The crop box of a non-square image: a square of side min(width, height)
      placed along the longer axis by gravity, spanning the shorter axis. */
  function CropBox(img: Image, gravity: real): (b: Box)
    requires img.width != img.height
    ensures InsideImage(b, img)
    ensures b.right - b.left == Min(img.width, img.height)
    ensures b.bottom - b.top == Min(img.width, img.height)
    ensures img.width > img.height ==>
              b.top == 0 && b.bottom == img.height &&
              b.left == Offset(img.width - img.height, gravity)
    ensures img.width < img.height ==>
              b.left == 0 && b.right == img.width &&
              b.top == Offset(img.height - img.width, gravity)
  {
    var minDim := Min(img.width, img.height);
    if img.width > img.height then
      var left := Offset(img.width - minDim, gravity);
      Box(left, 0, left + minDim, minDim)
    else
      var top := Offset(img.height - minDim, gravity);
      Box(0, top, minDim, top + minDim)
  }

  /** The image that cropping to a box inside it produces. */
  function Cropped(img: Image, b: Box): (r: Image)
    requires InsideImage(b, img)
    ensures r.width <= img.width && r.height <= img.height
  {
    Image(b.right - b.left, b.bottom - b.top)
  }

  /** `crop_to_square`: a square image comes back unchanged; any other is
      cropped to the square box chosen by gravity. */
  function CropToSquare(img: Image, gravity: real): (r: Image)
    ensures r.width == r.height == Min(img.width, img.height)
    ensures img.width == img.height ==> r == img
  {
    if img.width == img.height then img
    else Cropped(img, CropBox(img, gravity))
  }

  /** Cropping twice is cropping once: the first result is already square. */
  lemma CropToSquareIdempotent(img: Image, g1: real, g2: real)
    ensures CropToSquare(CropToSquare(img, g1), g2) == CropToSquare(img, g1)
  {
  }

  /** A larger gravity never moves the crop towards the top/left edge. */
  lemma OffsetMonotone(maxOffset: nat, g1: real, g2: real)
    requires g1 <= g2
    ensures Offset(maxOffset, g1) <= Offset(maxOffset, g2)
  {
    var c1, c2 := ClampGravity(g1), ClampGravity(g2);
    assert c1 <= c2;
    assert maxOffset as real * c1 <= maxOffset as real * c2 by {
      assert maxOffset as real * (c2 - c1) >= 0.0;
    }
    var r1, r2 := Offset(maxOffset, g1), Offset(maxOffset, g2);
    assert r1 as real < r2 as real + 1.0;
  }

  /** The worked examples for a 600 x 800 portrait image: gravity 0, 1 and
      0.5 select the top, bottom and middle squares. */
  lemma PortraitExamples()
    ensures CropBox(Image(600, 800), 0.0) == Box(0, 0, 600, 600)
    ensures CropBox(Image(600, 800), 1.0) == Box(0, 200, 600, 800)
    ensures CropBox(Image(600, 800), 0.5) == Box(0, 100, 600, 700)
  {
    assert Offset(200, 0.5) == 100 by {
      assert 200.0 * 0.5 == 100.0;
    }
  }
}
