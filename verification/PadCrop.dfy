/**
The crop for presentation attack detection in `apps/biometric-verifier/src/pad.rs`: a scaled face box,
shifted into the image rather than cut off, copied row by row and resized to 80 by 80.
*/
module PadCrop {
  import opened Wrappers
  import opened PixelGeometry

  const INPUT_SIZE: nat := 80

  datatype Box = Box(x: real, y: real, w: real, h: real)

  // The corners of the box after shifting.
  datatype Corners = Corners(left: real, top: real, right: real, bottom: real)

  function Least(a: real, b: real): real {
    if a <= b then a else b
  }

  /** The requested scale, or less so that the box fits the image. */
  function BoundedScale(img: Image, box: Box, scale: real): real
    requires box.w > 0.0 && box.h > 0.0
  {
    Least(Least((img.height as real - 1.0) / box.h, (img.width as real - 1.0) / box.w), scale)
  }

  lemma ScaledFits(limit: real, size: real, scale: real)
    requires size > 0.0 && 0.0 < scale <= limit / size
    ensures 0.0 < size * scale <= limit
  {
    var ratio := limit / size;
    assert ratio * size == limit;
    assert (ratio - scale) * size >= 0.0;
    assert (ratio - scale) * size == ratio * size - scale * size;
  }

  /** An interval moved, by no more than it must be, to lie between 0 and `limit`. */
  ghost predicate NearestInside(start: real, size: real, limit: real, left: real, right: real) {
    && 0.0 <= left <= right <= limit && right - left == size
    && forall other: real | 0.0 <= other <= limit - size :: Distance(left, start) <= Distance(other, start)
  }

  function Distance(a: real, b: real): real {
    if a <= b then b - a else a - b
  }

  /** Where the two shifts leave the start of an interval. */
  function Shifted(start: real, size: real, limit: real): real {
    var left := if start < 0.0 then 0.0 else start;
    if left + size > limit then limit - size else left
  }

  lemma ShiftIsNearest(start: real, size: real, limit: real)
    requires 0.0 < size <= limit
    ensures NearestInside(start, size, limit, Shifted(start, size, limit), Shifted(start, size, limit) + size)
  {
  }

  /** The bounded scale is not positive exactly when the requested one is not; otherwise the box fits. */
  lemma BoundedScaleFits(img: Image, box: Box, scale: real)
    requires img.width > 1 && img.height > 1 && box.w > 0.0 && box.h > 0.0
    ensures BoundedScale(img, box, scale) <= 0.0 <==> scale <= 0.0
    ensures BoundedScale(img, box, scale) <= scale
    ensures scale > 0.0 ==> 0.0 < ScaledSize(box.w, BoundedScale(img, box, scale)) <= img.width as real - 1.0
    ensures scale > 0.0 ==> 0.0 < ScaledSize(box.h, BoundedScale(img, box, scale)) <= img.height as real - 1.0
  {
    var srcW, srcH := img.width as real, img.height as real;
    RatioPositive(srcH - 1.0, box.h);
    RatioPositive(srcW - 1.0, box.w);
    if scale > 0.0 {
      ScaledFits(srcW - 1.0, box.w, BoundedScale(img, box, scale));
      ScaledFits(srcH - 1.0, box.h, BoundedScale(img, box, scale));
    }
  }

  method ShiftedBox(img: Image, box: Box, scale: real) returns (r: Option<Corners>)
    requires img.width > 1 && img.height > 1 && box.w > 0.0 && box.h > 0.0
    ensures r == None <==> scale <= 0.0
    ensures r.Some? ==> IsShiftedBox(img, box, scale, r.value)
  {
    hide BoundedScale, NearestInside, ScaledSize, IsShiftedBox, IsGreatestScale;
    var srcW, srcH := img.width as real, img.height as real;
    var boundedScale := BoundedScale(img, box, scale);
    BoundedScaleFits(img, box, scale);
    if boundedScale <= 0.0 {
      return None;
    }
    var newW, newH := ScaledSize(box.w, boundedScale), ScaledSize(box.h, boundedScale);
    var cx, cy := box.w / 2.0 + box.x, box.h / 2.0 + box.y;
    var ltX, ltY := cx - newW / 2.0, cy - newH / 2.0;
    var rbX, rbY := cx + newW / 2.0, cy + newH / 2.0;
    ghost var startX, startY := ScaledStart(box.x, box.w, boundedScale), ScaledStart(box.y, box.h, boundedScale);
    ShiftIsNearest(startX, newW, srcW - 1.0);
    ShiftIsNearest(startY, newH, srcH - 1.0);
    if ltX < 0.0 {
      rbX := rbX - ltX;
      ltX := 0.0;
    }
    if ltY < 0.0 {
      rbY := rbY - ltY;
      ltY := 0.0;
    }
    if rbX > srcW - 1.0 {
      ltX := ltX - (rbX - (srcW - 1.0));
      rbX := srcW - 1.0;
    }
    if rbY > srcH - 1.0 {
      ltY := ltY - (rbY - (srcH - 1.0));
      rbY := srcH - 1.0;
    }
    assert ltX == Shifted(startX, newW, srcW - 1.0) && rbX == ltX + newW;
    assert ltY == Shifted(startY, newH, srcH - 1.0) && rbY == ltY + newH;
    BoundedIsGreatest(img, box, scale);
    r := Some(Corners(ltX, ltY, rbX, rbY));
    ShiftedIs(img, box, scale, boundedScale, r.value);
  }

  function ScaledSize(size: real, scale: real): real {
    size * scale
  }

  /** Where an interval starts that is scaled around its middle. */
  function ScaledStart(start: real, size: real, scale: real): real {
    size / 2.0 + start - ScaledSize(size, scale) / 2.0
  }

  /** The box scaled by `k` fits the image. */
  ghost predicate Fits(img: Image, box: Box, k: real) {
    box.w * k <= img.width as real - 1.0 && box.h * k <= img.height as real - 1.0
  }

  /** The greatest scale, up to the requested one, at which the box fits. */
  ghost predicate IsGreatestScale(img: Image, box: Box, scale: real, k: real) {
    0.0 < k <= scale && Fits(img, box, k) && forall other: real | other <= scale && Fits(img, box, other) :: other <= k
  }

  /**
  The box, at the greatest scale, on each axis in the image and nearest to the place that has the face's
  centre in its middle.
  */
  ghost predicate IsShiftedBox(img: Image, box: Box, scale: real, c: Corners) {
    exists k: real ::
      && IsGreatestScale(img, box, scale, k)
      && IsNearest(box.x, box.w, k, img.width as real - 1.0, c.left, c.right)
      && IsNearest(box.y, box.h, k, img.height as real - 1.0, c.top, c.bottom)
  }

  /** Nearest to the interval of `k` times the size around the middle of the given one. */
  ghost predicate IsNearest(start: real, size: real, k: real, limit: real, left: real, right: real) {
    NearestInside(start + size / 2.0 - size * k / 2.0, size * k, limit, left, right)
  }

  lemma NearestIs(start: real, size: real, k: real, limit: real, left: real, right: real)
    requires NearestInside(ScaledStart(start, size, k), ScaledSize(size, k), limit, left, right)
    ensures IsNearest(start, size, k, limit, left, right)
  {
    hide NearestInside;
    assert ScaledStart(start, size, k) == start + size / 2.0 - size * k / 2.0;
  }

  /** Whatever scale fits is at most the limit over the size. */
  lemma FitsBelowRatio(limit: real, size: real, k: real)
    requires size > 0.0
    ensures size * k <= limit <==> k <= limit / size
  {
    var ratio := limit / size;
    assert ratio * size == limit;
    if k <= ratio {
      assert (ratio - k) * size >= 0.0;
    } else {
      assert (k - ratio) * size > 0.0;
    }
    assert (ratio - k) * size == ratio * size - k * size;
  }

  lemma BoundedIsGreatest(img: Image, box: Box, scale: real)
    requires img.width > 1 && img.height > 1 && box.w > 0.0 && box.h > 0.0 && scale > 0.0
    ensures IsGreatestScale(img, box, scale, BoundedScale(img, box, scale))
  {
    BoundedScaleFits(img, box, scale);
    FitsBelowRatio(img.width as real - 1.0, box.w, BoundedScale(img, box, scale));
    FitsBelowRatio(img.height as real - 1.0, box.h, BoundedScale(img, box, scale));
    forall other: real | other <= scale && Fits(img, box, other) ensures other <= BoundedScale(img, box, scale) {
      FitsBelowRatio(img.width as real - 1.0, box.w, other);
      FitsBelowRatio(img.height as real - 1.0, box.h, other);
    }
  }

  lemma ShiftedIs(img: Image, box: Box, scale: real, k: real, c: Corners)
    requires IsGreatestScale(img, box, scale, k)
    requires var limit := img.width as real - 1.0;
             NearestInside(ScaledStart(box.x, box.w, k), ScaledSize(box.w, k), limit, c.left, c.right)
    requires var limit := img.height as real - 1.0;
             NearestInside(ScaledStart(box.y, box.h, k), ScaledSize(box.h, k), limit, c.top, c.bottom)
    ensures IsShiftedBox(img, box, scale, c)
  {
    hide IsNearest, IsGreatestScale;
    NearestIs(box.x, box.w, k, img.width as real - 1.0, c.left, c.right);
    NearestIs(box.y, box.h, k, img.height as real - 1.0, c.top, c.bottom);
  }

  lemma RatioPositive(a: real, b: real)
    requires a > 0.0 && b > 0.0
    ensures a / b > 0.0
  {
  }

  /** Two intervals nearest to the same start are the same: the shift is determined. */
  lemma NearestIsUnique(start: real, size: real, limit: real, l: real, r: real, m: real, s: real)
    requires NearestInside(start, size, limit, l, r) && NearestInside(start, size, limit, m, s)
    ensures l == m && r == s
  {
    assert Distance(l, start) <= Distance(m, start) && Distance(m, start) <= Distance(l, start);
    var middle := (l + m) / 2.0;
    assert Distance(l, start) <= Distance(middle, start);
  }

  /** The pixels of `img` from (`x0`, `y0`) to (`x1`, `y1`), both included. */
  ghost predicate IsCrop(crop: Image, img: Image, x0: nat, y0: nat, x1: nat, y1: nat)
    requires Packed(img)
  {
    && x0 <= x1 < img.width && y0 <= y1 < img.height
    && crop.width == x1 + 1 - x0 && crop.height == y1 + 1 - y0 && Packed(crop)
    && forall x: nat, y: nat, ch: nat | x < crop.width && y < crop.height && ch < 3 ::
         At(crop, x, y, ch) == At(img, x0 + x, y0 + y, ch)
  }

  method CopyCrop(img: Image, x0: nat, y0: nat, x1: nat, y1: nat) returns (crop: Image)
    requires Packed(img) && x0 <= x1 < img.width && y0 <= y1 < img.height
    ensures IsCrop(crop, img, x0, y0, x1, y1)
  {
    hide Flat, At, Filled, IsCrop, Window, SampleBgr;
    var cropW, cropH := x1 + 1 - x0, y1 + 1 - y0;
    var stride, cropStride := img.width * 3, cropW * 3;
    var pixels: seq<byte> := [];
    ghost var raster := Window(img, x0, y0);
    NoRows(cropW, raster);
    FlatSteps(0, 0, 0, cropW);
    for row := 0 to cropH
      invariant |pixels| == Flat(0, row, 0, cropW)
      invariant Filled(pixels, cropW, row, |pixels|, raster)
    {
      var srcOff := (y0 + row) * stride + x0 * 3;
      FlatIs(x0, y0 + row, 0, img.width);
      RowInside(img.width, img.height, x0, y0 + row, cropW);
      RowCount(cropW, row);
      var line := img.pixels[srcOff..srcOff + cropStride];
      RowAppended(img, pixels, line, x0, y0, cropW, row);
      pixels := pixels + line;
    }
    crop := Image(cropW, cropH, pixels);
    CropFilled(crop, img, x0, y0, x1, y1);
  }

  /** The samples of `img` as seen from (`x0`, `y0`), black outside. */
  ghost function Window(img: Image, x0: nat, y0: nat): Raster
    requires Packed(img)
  {
    (x: nat, y: nat, ch: nat) => SampleBgr(img, x0 + x, y0 + y, ch)
  }

  lemma CropFilled(crop: Image, img: Image, x0: nat, y0: nat, x1: nat, y1: nat)
    requires Packed(img) && x0 <= x1 < img.width && y0 <= y1 < img.height
    requires crop.width == x1 + 1 - x0 && crop.height == y1 + 1 - y0
    requires Filled(crop.pixels, crop.width, crop.height, |crop.pixels|, Window(img, x0, y0))
    ensures IsCrop(crop, img, x0, y0, x1, y1)
  {
    hide Filled, At;
    FilledIsImage(crop, Window(img, x0, y0));
    forall x: nat, y: nat, ch: nat | x < crop.width && y < crop.height && ch < 3
      ensures At(crop, x, y, ch) == At(img, x0 + x, y0 + y, ch)
    {
      assert Window(img, x0, y0)(x, y, ch) == SampleBgr(img, x0 + x, y0 + y, ch);
      SampleInside(img, x0 + x, y0 + y, ch);
    }
  }

  lemma CropIsImage(crop: Image, img: Image, x0: nat, y0: nat, x1: nat, y1: nat)
    requires Packed(img) && x0 <= x1 < img.width && y0 <= y1 < img.height && IsCrop(crop, img, x0, y0, x1, y1)
    ensures Packed(crop) && crop.width > 0 && crop.height > 0
  {
  }

  lemma NoRows(cropW: nat, raster: Raster)
    ensures Filled([], cropW, 0, 0, raster)
  {
  }

  /** The row of the crop ends where the image has it. */
  lemma RowInside(width: nat, height: nat, x0: nat, y: nat, cropW: nat)
    requires y < height && x0 + cropW <= width && cropW > 0
    ensures Flat(x0, y, 0, width) + cropW * 3 <= width * height * 3
  {
    FlatBelow(x0 + cropW - 1, y, 2, width, height);
  }

  lemma FlatIs(x: nat, y: nat, ch: nat, width: nat)
    ensures Flat(x, y, ch, width) == y * (width * 3) + x * 3 + ch
  {
    assert y * (width * 3) == y * width * 3;
  }

  lemma WindowAt(img: Image, x0: nat, y0: nat, x: nat, y: nat, ch: nat)
    requires Packed(img) && x0 + x < img.width && y0 + y < img.height && ch < 3
    ensures Flat(x0 + x, y0 + y, ch, img.width) < |img.pixels|
    ensures Window(img, x0, y0)(x, y, ch) == img.pixels[Flat(x0 + x, y0 + y, ch, img.width)]
  {
    hide Flat;
    FlatBelow(x0 + x, y0 + y, ch, img.width, img.height);
    assert Window(img, x0, y0)(x, y, ch) == SampleBgr(img, x0 + x, y0 + y, ch);
  }

  /** One more row of the crop is one more row of the window. */
  lemma RowAppended(img: Image, pixels: seq<byte>, line: seq<byte>, x0: nat, y0: nat, cropW: nat, row: nat)
    requires Packed(img) && 0 < cropW && x0 + cropW <= img.width && y0 + row < img.height
    requires Filled(pixels, cropW, row, |pixels|, Window(img, x0, y0)) && |pixels| == Flat(0, row, 0, cropW)
    requires var off := Flat(x0, y0 + row, 0, img.width);
             off + cropW * 3 <= |img.pixels| && line == img.pixels[off..off + cropW * 3]
    ensures |pixels + line| == Flat(0, row + 1, 0, cropW)
    ensures Filled(pixels + line, cropW, row + 1, |pixels + line|, Window(img, x0, y0))
  {
    hide Flat, Window;
    RowCount(cropW, row);
    var off := Flat(x0, y0 + row, 0, img.width);
    forall x: nat, y: nat, ch: nat | x < cropW && y < row + 1 && ch < 3
      ensures Flat(x, y, ch, cropW) < |pixels + line|
      ensures (pixels + line)[Flat(x, y, ch, cropW)] == Window(img, x0, y0)(x, y, ch)
    {
      if y < row {
        FlatBelow(x, y, ch, cropW, row);
      } else {
        FlatFromStart(0, x, row, ch, cropW);
        FlatFromStart(x0, x, y0 + row, ch, img.width);
        WindowAt(img, x0, y0, x, row, ch);
        assert (pixels + line)[Flat(x, row, ch, cropW)] == line[x * 3 + ch] == img.pixels[off + x * 3 + ch];
      }
    }
  }

  lemma FlatFromStart(x0: nat, x: nat, y: nat, ch: nat, width: nat)
    ensures Flat(x0 + x, y, ch, width) == Flat(x0, y, 0, width) + x * 3 + ch
  {
  }

  lemma RowCount(cropW: nat, row: nat)
    ensures Flat(0, row, 0, cropW) == cropW * row * 3
    ensures Flat(0, row + 1, 0, cropW) == cropW * (row + 1) * 3 == Flat(0, row, 0, cropW) + cropW * 3
  {
    FlatEnd(cropW, row);
    FlatEnd(cropW, row + 1);
    FlatSteps(0, row, 0, cropW);
  }

  /** `r` is the crop of `img` between the whole-pixel corners `c`, resized to 80 by 80. */
  ghost predicate IsResizedCrop(img: Image, c: Corners, crop: Image, r: Image)
    requires Packed(img)
  {
    && 0 <= c.left.Floor < c.right.Floor < img.width && 0 <= c.top.Floor < c.bottom.Floor < img.height
    && Packed(crop) && crop.width > 0 && crop.height > 0
    && IsCrop(crop, img, c.left.Floor, c.top.Floor, c.right.Floor, c.bottom.Floor)
    && r.width == 80 && r.height == 80
    && Filled(r.pixels, 80, 80, |r.pixels|, Resized(crop, 80, 80))
  }

  predicate Usable(img: Image, box: Box, scale: real) {
    img.width > 1 && img.height > 1 && box.w > 0.0 && box.h > 0.0 && scale > 0.0
  }

  /**
  The crop resized to 80 by 80: none for a tiny image, a box without area, a scale that is not
  positive, or a box that covers less than two rows or columns of whole pixels.
  */
  method CropFaceForPad(img: Image, box: Box, scale: real) returns (r: Option<Image>)
    requires Packed(img)
    ensures !Usable(img, box, scale) ==> r == None
    ensures Usable(img, box, scale) ==>
              exists c ::
                && IsShiftedBox(img, box, scale, c)
                && (r == None <==> c.right.Floor <= c.left.Floor || c.bottom.Floor <= c.top.Floor)
                && (r.Some? ==> exists crop :: IsResizedCrop(img, c, crop, r.value))
  {
    hide BoundedScale, Flat, At, Filled, IsCrop, IsShiftedBox;
    if img.width <= 1 || img.height <= 1 {
      return None;
    }
    if box.w <= 0.0 || box.h <= 0.0 {
      return None;
    }
    var shifted := ShiftedBox(img, box, scale);
    if shifted == None {
      return None;
    }
    var c := shifted.value;
    CornersInside(img, box, scale, c);
    var x0, y0, x1, y1 := c.left.Floor, c.top.Floor, c.right.Floor, c.bottom.Floor;
    if x1 <= x0 || y1 <= y0 {
      return None;
    }
    var crop := CopyCrop(img, x0, y0, x1, y1);
    CropIsImage(crop, img, x0, y0, x1, y1);
    var resized := ResizeBilinearBgr(crop, INPUT_SIZE, INPUT_SIZE);
    r := Some(resized);
    assert IsResizedCrop(img, c, crop, r.value);
  }

  lemma CornersInside(img: Image, box: Box, scale: real, c: Corners)
    requires box.w > 0.0 && box.h > 0.0 && img.width > 1 && img.height > 1 && IsShiftedBox(img, box, scale, c)
    ensures 0 <= c.left.Floor && 0 <= c.top.Floor && c.right.Floor < img.width && c.bottom.Floor < img.height
  {
  }
}
