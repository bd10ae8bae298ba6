/**
Resampling in `apps/biometric-verifier/src/affine.rs`: affine maps, bilinear warp and bilinear resize
of packed BGR images.  Coordinates are reals.
*/
module PixelGeometry {
  import opened Wrappers

  // ---- Packed images ----

  datatype Image = Image(width: nat, height: nat, pixels: seq<byte>)

  ghost predicate Packed(img: Image) {
    |img.pixels| == img.width * img.height * 3
  }

  /** Where channel `ch` of pixel (`x`, `y`) is. */
  function Flat(x: nat, y: nat, ch: nat, width: nat): nat {
    (y * width + x) * 3 + ch
  }

  lemma FlatBelow(x: nat, y: nat, ch: nat, width: nat, height: nat)
    requires x < width && y < height && ch < 3
    ensures Flat(x, y, ch, width) < width * height * 3
  {
    RowsBelow(x, y, width, height);
  }

  lemma RowsBelow(x: nat, y: nat, width: nat, height: nat)
    requires x < width && y < height
    ensures y * width + x < width * height
  {
    assert (height - 1 - y) * width >= 0;
    assert (height - 1 - y) * width == height * width - width - y * width;
  }

  lemma RowsApart(x: nat, y: nat, v: nat, width: nat)
    requires x < width && y < v
    ensures y * width + x < v * width
  {
    RowsBelow(x, y, width, v);
  }

  /** No two samples share a place. */
  lemma FlatInjective(x: nat, y: nat, ch: nat, u: nat, v: nat, k: nat, width: nat)
    requires x < width && u < width && ch < 3 && k < 3
    ensures Flat(x, y, ch, width) == Flat(u, v, k, width) <==> x == u && y == v && ch == k
  {
    if y < v {
      RowsApart(x, y, v, width);
    } else if v < y {
      RowsApart(u, v, y, width);
    }
  }

  function At(img: Image, x: nat, y: nat, ch: nat): byte
    requires Packed(img) && x < img.width && y < img.height && ch < 3
  {
    FlatBelow(x, y, ch, img.width, img.height);
    img.pixels[Flat(x, y, ch, img.width)]
  }

  /** Black outside the image. */
  function SampleBgr(img: Image, x: int, y: int, ch: nat): byte
    requires Packed(img)
  {
    if x < 0 || y < 0 || x >= img.width || y >= img.height || ch >= 3 then 0 else At(img, x, y, ch)
  }

  // The samples of an image as a function of column, row and channel.
  type Raster = (nat, nat, nat) -> byte

  /** The first `n` bytes of an image of the given size are those of the raster. */
  ghost predicate Filled(pixels: seq<byte>, width: nat, height: nat, n: nat, raster: Raster) {
    && |pixels| == width * height * 3
    && forall x: nat, y: nat, ch: nat | x < width && y < height && ch < 3 && Flat(x, y, ch, width) < n ::
         Flat(x, y, ch, width) < |pixels| && pixels[Flat(x, y, ch, width)] == raster(x, y, ch)
  }

  lemma FillNext(before: seq<byte>, after: seq<byte>, x: nat, y: nat, ch: nat, width: nat, height: nat, raster: Raster)
    requires x < width && y < height && ch < 3
    requires Filled(before, width, height, Flat(x, y, ch, width), raster)
    requires Flat(x, y, ch, width) < |before|
    requires after == before[Flat(x, y, ch, width) := raster(x, y, ch)]
    ensures Filled(after, width, height, Flat(x, y, ch, width) + 1, raster)
  {
    hide Flat;
    forall u: nat, v: nat, k: nat | u < width && v < height && k < 3 && Flat(u, v, k, width) < Flat(x, y, ch, width) + 1
      ensures Flat(u, v, k, width) < |after| && after[Flat(u, v, k, width)] == raster(u, v, k)
    {
      FlatInjective(x, y, ch, u, v, k, width);
    }
  }

  lemma FlatSteps(x: nat, y: nat, ch: nat, width: nat)
    ensures Flat(x, y, ch + 1, width) == Flat(x, y, ch, width) + 1
    ensures Flat(x, y, 3, width) == Flat(x + 1, y, 0, width)
    ensures Flat(width, y, 0, width) == Flat(0, y + 1, 0, width)
    ensures Flat(0, 0, 0, width) == 0
  {
    assert (y + 1) * width == y * width + width;
  }

  lemma FilledIsImage(r: Image, raster: Raster)
    requires Filled(r.pixels, r.width, r.height, |r.pixels|, raster)
    ensures Packed(r)
    ensures forall x: nat, y: nat, ch: nat | x < r.width && y < r.height && ch < 3 ::
              At(r, x, y, ch) == raster(x, y, ch)
  {
    hide Flat;
    forall x: nat, y: nat, ch: nat | x < r.width && y < r.height && ch < 3 ensures At(r, x, y, ch) == raster(x, y, ch) {
      FlatBelow(x, y, ch, r.width, r.height);
    }
  }

  /** Two packed images with the same samples are the same. */
  lemma SamePixels(a: Image, b: Image)
    requires Packed(a) && Packed(b) && a.width == b.width && a.height == b.height
    requires forall x: nat, y: nat, ch: nat | x < a.width && y < a.height && ch < 3 ::
               At(a, x, y, ch) == At(b, x, y, ch)
    ensures a == b
  {
    forall p | 0 <= p < |a.pixels| ensures a.pixels[p] == b.pixels[p] {
      var x, y, ch := Unflat(p, a.width, a.height);
      assert At(a, x, y, ch) == At(b, x, y, ch);
    }
  }

  lemma Unflat(p: nat, width: nat, height: nat) returns (x: nat, y: nat, ch: nat)
    requires p < width * height * 3
    ensures x < width && y < height && ch < 3 && Flat(x, y, ch, width) == p
  {
    x, y := ColumnRow(p / 3, width, height);
    ch := p % 3;
  }

  lemma ColumnRow(q: nat, width: nat, height: nat) returns (x: nat, y: nat)
    requires q < width * height
    ensures x < width && y < height && y * width + x == q
  {
    assert width > 0;
    x, y := q % width, q / width;
    RowOrder(height, y, width);
  }

  lemma RowOrder(a: nat, b: nat, width: nat)
    ensures a <= b ==> a * width <= b * width
  {
    if a <= b {
      assert (b - a) * width >= 0;
      assert (b - a) * width == b * width - a * width;
    }
  }

  // ---- Interpolation ----

  function Lerp(a: real, b: real, f: real): real {
    a * (1.0 - f) + b * f
  }

  function Blend(p00: byte, p01: byte, p10: byte, p11: byte, fx: real, fy: real): real {
    Lerp(Lerp(p00 as real, p01 as real, fx), Lerp(p10 as real, p11 as real, fx), fy)
  }

  function Clamp(v: real, low: real, high: real): real {
    if v < low then low else if v > high then high else v
  }

  /** To the nearest byte, halves up. */
  function RoundByte(v: real): byte {
    (Clamp(v, 0.0, 255.0) + 0.5).Floor
  }

  lemma Weighted(a: real, b: real, f: real, c: real)
    ensures Lerp(a, b, f) == c + (a - c) * (1.0 - f) + (b - c) * f
  {
  }

  lemma Signs(a: real, b: real)
    requires a >= 0.0 && b >= 0.0
    ensures a * b >= 0.0
  {
  }

  lemma LerpBetween(a: real, b: real, f: real, low: real, high: real)
    requires 0.0 <= f <= 1.0 && low <= a <= high && low <= b <= high
    ensures low <= Lerp(a, b, f) <= high
  {
    Weighted(a, b, f, low);
    Weighted(a, b, f, high);
    var g := 1.0 - f;
    Signs(a - low, g);
    Signs(b - low, f);
    Signs(high - a, g);
    Signs(high - b, f);
    assert (a - high) * g == -((high - a) * g);
    assert (b - high) * f == -((high - b) * f);
  }

  /** A blend lies between any bounds of its four samples. */
  lemma BlendBetween(p00: byte, p01: byte, p10: byte, p11: byte, fx: real, fy: real, low: byte, high: byte)
    requires 0.0 <= fx <= 1.0 && 0.0 <= fy <= 1.0
    requires low <= p00 <= high && low <= p01 <= high && low <= p10 <= high && low <= p11 <= high
    ensures low <= RoundByte(Blend(p00, p01, p10, p11, fx, fy)) <= high
  {
    hide Lerp;
    LerpBetween(p00 as real, p01 as real, fx, low as real, high as real);
    LerpBetween(p10 as real, p11 as real, fx, low as real, high as real);
    LerpBetween(Lerp(p00 as real, p01 as real, fx), Lerp(p10 as real, p11 as real, fx), fy, low as real, high as real);
    RoundBetween(Blend(p00, p01, p10, p11, fx, fy), low, high);
  }

  lemma RoundBetween(v: real, low: byte, high: byte)
    requires low as real <= v <= high as real
    ensures low <= RoundByte(v) <= high
  {
  }

  lemma BlendAtCorner(p00: byte, p01: byte, p10: byte, p11: byte)
    ensures RoundByte(Blend(p00, p01, p10, p11, 0.0, 0.0)) == p00
  {
    assert Blend(p00, p01, p10, p11, 0.0, 0.0) == p00 as real;
  }

  // ---- Resize ----

  /** Where output position `p` falls on a side of `size` samples: pixel centres, clamped to the side. */
  function Coordinate(p: nat, size: nat, outSize: nat): real
    requires size > 0 && outSize > 0
  {
    Clamp((p as real + 0.5) * (size as real / outSize as real) - 0.5, 0.0, (size - 1) as real)
  }

  function ResizedByte(src: Image, outWidth: nat, outHeight: nat, x: nat, y: nat, ch: nat): byte
    requires Packed(src) && src.width > 0 && src.height > 0 && outWidth > 0 && outHeight > 0
  {
    var sx, sy := Coordinate(x, src.width, outWidth), Coordinate(y, src.height, outHeight);
    var x0, y0 := sx.Floor, sy.Floor;
    var x1, y1 := Next(x0, src.width), Next(y0, src.height);
    RoundByte(Blend(SampleBgr(src, x0, y0, ch), SampleBgr(src, x1, y0, ch), SampleBgr(src, x0, y1, ch),
                    SampleBgr(src, x1, y1, ch), sx - x0 as real, sy - y0 as real))
  }

  /** The neighbour behind `i`, or `i` itself at the edge. */
  function Next(i: int, size: nat): int {
    if i + 1 < size - 1 then i + 1 else size - 1
  }

  ghost function Resized(src: Image, outWidth: nat, outHeight: nat): Raster
    requires Packed(src) && src.width > 0 && src.height > 0 && outWidth > 0 && outHeight > 0
  {
    (x: nat, y: nat, ch: nat) => ResizedByte(src, outWidth, outHeight, x, y, ch)
  }

  /** Both neighbours are on the side, at most one apart. */
  lemma CoordinateOnSide(p: nat, size: nat, outSize: nat)
    requires size > 0 && outSize > 0
    ensures var s := Coordinate(p, size, outSize);
            0 <= s.Floor < size && 0 <= Next(s.Floor, size) < size && 0.0 <= s - s.Floor as real < 1.0
  {
    var s := Coordinate(p, size, outSize);
    assert 0.0 <= s <= (size - 1) as real;
  }

  method ResizeBilinearBgr(src: Image, outWidth: nat, outHeight: nat) returns (r: Image)
    requires Packed(src)
    ensures r.width == outWidth && r.height == outHeight && Packed(r)
    ensures src.width > 0 && src.height > 0 && outWidth > 0 && outHeight > 0 ==>
              Filled(r.pixels, outWidth, outHeight, |r.pixels|, Resized(src, outWidth, outHeight))
    ensures src.width == 0 || src.height == 0 ==> forall p | 0 <= p < |r.pixels| :: r.pixels[p] == 0
  {
    hide Blend, RoundByte, Flat, Filled, Coordinate, At;
    var n := outWidth * outHeight * 3;
    var out := new byte[n](_ => 0);
    if src.width == 0 || src.height == 0 || outWidth == 0 || outHeight == 0 {
      return Image(outWidth, outHeight, out[..]);
    }
    ghost var raster := Resized(src, outWidth, outHeight);
    NothingFilled(out[..], outWidth, outHeight, raster);
    FlatSteps(0, 0, 0, outWidth);
    for y := 0 to outHeight
      invariant Filled(out[..], outWidth, outHeight, Flat(0, y, 0, outWidth), raster)
    {
      CoordinateOnSide(y, src.height, outHeight);
      var sy := Coordinate(y, src.height, outHeight);
      var iy0 := sy.Floor;
      var fy := sy - iy0 as real;
      var iy1 := Next(iy0, src.height);
      for x := 0 to outWidth
        invariant Filled(out[..], outWidth, outHeight, Flat(x, y, 0, outWidth), raster)
      {
        CoordinateOnSide(x, src.width, outWidth);
        var sx := Coordinate(x, src.width, outWidth);
        var ix0 := sx.Floor;
        var fx := sx - ix0 as real;
        var ix1 := Next(ix0, src.width);
        for ch := 0 to 3
          invariant Filled(out[..], outWidth, outHeight, Flat(x, y, ch, outWidth), raster)
        {
          var value := RoundByte(Blend(At(src, ix0, iy0, ch), At(src, ix1, iy0, ch), At(src, ix0, iy1, ch),
                                       At(src, ix1, iy1, ch), fx, fy));
          FlatBelow(x, y, ch, outWidth, outHeight);
          FlatSteps(x, y, ch, outWidth);
          ghost var before := out[..];
          out[Flat(x, y, ch, outWidth)] := value;
          FillNext(before, out[..], x, y, ch, outWidth, outHeight, raster);
        }
        FlatSteps(x, y, 0, outWidth);
      }
      FlatSteps(outWidth, y, 0, outWidth);
    }
    FlatEnd(outWidth, outHeight);
    r := Image(outWidth, outHeight, out[..]);
  }

  lemma NothingFilled(pixels: seq<byte>, width: nat, height: nat, raster: Raster)
    requires |pixels| == width * height * 3
    ensures Filled(pixels, width, height, 0, raster)
  {
  }

  lemma FlatEnd(width: nat, height: nat)
    ensures Flat(0, height, 0, width) == width * height * 3
  {
  }

  /** Every output sample lies within any bounds of its channel in the source. */
  lemma ResizeStaysBetween(src: Image, outWidth: nat, outHeight: nat, x: nat, y: nat, ch: nat, low: byte, high: byte)
    requires Packed(src) && src.width > 0 && src.height > 0 && outWidth > 0 && outHeight > 0 && ch < 3
    requires forall u: nat, v: nat | u < src.width && v < src.height :: low <= At(src, u, v, ch) <= high
    ensures low <= ResizedByte(src, outWidth, outHeight, x, y, ch) <= high
  {
    hide Blend, RoundByte, Coordinate, At;
    CoordinateOnSide(x, src.width, outWidth);
    CoordinateOnSide(y, src.height, outHeight);
    var sx, sy := Coordinate(x, src.width, outWidth), Coordinate(y, src.height, outHeight);
    var x0, y0 := sx.Floor, sy.Floor;
    var x1, y1 := Next(x0, src.width), Next(y0, src.height);
    BlendBetween(At(src, x0, y0, ch), At(src, x1, y0, ch), At(src, x0, y1, ch), At(src, x1, y1, ch),
                 sx - x0 as real, sy - y0 as real, low, high);
  }

  lemma WholeRatio(x: real)
    requires x > 0.0
    ensures x / x == 1.0
  {
  }

  lemma SameCoordinate(p: nat, size: nat)
    requires p < size
    ensures Coordinate(p, size, size) == p as real && (p as real).Floor == p
  {
    WholeRatio(size as real);
  }

  /** Resizing to the same size changes nothing. */
  lemma ResizeToSameSize(src: Image, r: Image)
    requires Packed(src) && src.width > 0 && src.height > 0
    requires r.width == src.width && r.height == src.height
    requires Filled(r.pixels, r.width, r.height, |r.pixels|, Resized(src, r.width, r.height))
    ensures r == src
  {
    hide Blend, RoundByte, Coordinate, At, Filled;
    FilledIsImage(r, Resized(src, r.width, r.height));
    forall x: nat, y: nat, ch: nat | x < src.width && y < src.height && ch < 3
      ensures ResizedByte(src, src.width, src.height, x, y, ch) == At(src, x, y, ch)
    {
      SameCoordinate(x, src.width);
      SameCoordinate(y, src.height);
      BlendAtCorner(At(src, x, y, ch), SampleBgr(src, Next(x, src.width), y, ch),
                    SampleBgr(src, x, Next(y, src.height), ch),
                    SampleBgr(src, Next(x, src.width), Next(y, src.height), ch));
    }
    SamePixels(r, src);
  }

  // ---- Affine maps ----

  /** `x' = a x + b y + tx` and `y' = c x + d y + ty` */
  datatype Affine = Affine(a: real, b: real, tx: real, c: real, d: real, ty: real) {
    function ApplyX(x: real, y: real): real {
      a * x + b * y + tx
    }

    function ApplyY(x: real, y: real): real {
      c * x + d * y + ty
    }

    function Determinant(): real {
      a * d - b * c
    }

    /** None when the linear part is singular, or nearly so. */
    function Invert(): Option<Affine> {
      var det := Determinant();
      if -0.000000000001 < det < 0.000000000001 then None
      else
        var inv := 1.0 / det;
        var p, q, r, s := d * inv, -b * inv, -c * inv, a * inv;
        Some(Affine(p, q, -(p * tx + q * ty), r, s, -(r * tx + s * ty)))
    }
  }

  lemma Reciprocal(det: real)
    requires det != 0.0
    ensures det * (1.0 / det) == 1.0
  {
  }

  /** The inverse of the linear part, on one column. */
  lemma LinearInverse(a: real, b: real, c: real, d: real, k: real, x: real, y: real)
    requires (a * d - b * c) * k == 1.0
    ensures (d * k) * (a * x + b * y) + (-b * k) * (c * x + d * y) == x
    ensures (-c * k) * (a * x + b * y) + (a * k) * (c * x + d * y) == y
    ensures a * ((d * k) * x + (-b * k) * y) + b * ((-c * k) * x + (a * k) * y) == x
    ensures c * ((d * k) * x + (-b * k) * y) + d * ((-c * k) * x + (a * k) * y) == y
  {
    var one := (a * d - b * c) * k;
    assert (d * k) * (a * x + b * y) + (-b * k) * (c * x + d * y) == one * x;
    assert (-c * k) * (a * x + b * y) + (a * k) * (c * x + d * y) == one * y;
    assert a * ((d * k) * x + (-b * k) * y) + b * ((-c * k) * x + (a * k) * y) == one * x;
    assert c * ((d * k) * x + (-b * k) * y) + d * ((-c * k) * x + (a * k) * y) == one * y;
  }

  lemma ShiftedCombination(p: real, q: real, u: real, v: real, tx: real, ty: real)
    ensures p * (u + tx) + q * (v + ty) - (p * tx + q * ty) == p * u + q * v
    ensures p * (u - tx) + q * (v - ty) == (p * u + q * v) - (p * tx + q * ty)
  {
  }

  lemma InvertDefined(m: Affine)
    ensures m.Invert().Some? <==> m.Determinant() >= 0.000000000001 || m.Determinant() <= -0.000000000001
  {
  }

  lemma InverseIs(m: Affine, k: real, p: real, q: real, r: real, s: real)
    requires m.Invert().Some? && k == 1.0 / m.Determinant()
    requires p == m.d * k && q == -m.b * k && r == -m.c * k && s == m.a * k
    ensures m.Invert().value == Affine(p, q, -(p * m.tx + q * m.ty), r, s, -(r * m.tx + s * m.ty))
  {
  }

  lemma SameProduct(a: real, b: real, c: real, d: real)
    requires a == c && b == d
    ensures a * b == c * d
  {
  }

  lemma ApplyIs(m: Affine, a: real, b: real, tx: real, c: real, d: real, ty: real, x: real, y: real)
    requires m == Affine(a, b, tx, c, d, ty)
    ensures m.ApplyX(x, y) == a * x + b * y + tx && m.ApplyY(x, y) == c * x + d * y + ty
  {
    SameProduct(m.a, x, a, x);
    SameProduct(m.b, y, b, y);
    SameProduct(m.c, x, c, x);
    SameProduct(m.d, y, d, y);
  }

  lemma Undone(p: real, q: real, X: real, Y: real, u: real, v: real, tx: real, ty: real, x: real)
    requires X == u + tx && Y == v + ty && p * u + q * v == x
    ensures p * X + q * Y + -(p * tx + q * ty) == x
  {
    SameProduct(p, X, p, u + tx);
    SameProduct(q, Y, q, v + ty);
    ShiftedCombination(p, q, u, v, tx, ty);
  }

  /** The inverse undoes the map. */
  lemma InverseUndoes(m: Affine, x: real, y: real)
    requires m.Invert().Some?
    ensures m.Invert().value.ApplyX(m.ApplyX(x, y), m.ApplyY(x, y)) == x
    ensures m.Invert().value.ApplyY(m.ApplyX(x, y), m.ApplyY(x, y)) == y
  {
    hide Affine.Invert, Affine.ApplyX, Affine.ApplyY, Affine.Determinant;
    InvertDefined(m);
    var k := 1.0 / m.Determinant();
    Reciprocal(m.Determinant());
    var p, q, r, s := m.d * k, -m.b * k, -m.c * k, m.a * k;
    var u, v := m.a * x + m.b * y, m.c * x + m.d * y;
    InverseIs(m, k, p, q, r, s);
    ApplyIs(m, m.a, m.b, m.tx, m.c, m.d, m.ty, x, y);
    var X, Y := m.ApplyX(x, y), m.ApplyY(x, y);
    ApplyIs(m.Invert().value, p, q, -(p * m.tx + q * m.ty), r, s, -(r * m.tx + s * m.ty), X, Y);
    CombinedBack(m, k, p, q, r, s, u, v, x, y);
    Undone(p, q, X, Y, u, v, m.tx, m.ty, x);
    Undone(r, s, X, Y, u, v, m.tx, m.ty, y);
  }

  lemma CombinedBack(m: Affine, k: real, p: real, q: real, r: real, s: real, u: real, v: real, x: real, y: real)
    requires m.Determinant() * k == 1.0
    requires p == m.d * k && q == -m.b * k && r == -m.c * k && s == m.a * k
    requires u == m.a * x + m.b * y && v == m.c * x + m.d * y
    ensures p * u + q * v == x && r * u + s * v == y
  {
    LinearInverse(m.a, m.b, m.c, m.d, k, x, y);
    SameProduct(p, u, m.d * k, m.a * x + m.b * y);
    SameProduct(q, v, -m.b * k, m.c * x + m.d * y);
    SameProduct(r, u, -m.c * k, m.a * x + m.b * y);
    SameProduct(s, v, m.a * k, m.c * x + m.d * y);
  }

  /** The map undoes its inverse. */
  lemma InverseIsUndone(m: Affine, x: real, y: real)
    requires m.Invert().Some?
    ensures m.ApplyX(m.Invert().value.ApplyX(x, y), m.Invert().value.ApplyY(x, y)) == x
    ensures m.ApplyY(m.Invert().value.ApplyX(x, y), m.Invert().value.ApplyY(x, y)) == y
  {
    hide Affine.Invert, Affine.ApplyX, Affine.ApplyY, Affine.Determinant;
    InvertDefined(m);
    var k := 1.0 / m.Determinant();
    Reciprocal(m.Determinant());
    var p, q, r, s := m.d * k, -m.b * k, -m.c * k, m.a * k;
    var ux, uy := p * x + q * y, r * x + s * y;
    var vx, vy := p * m.tx + q * m.ty, r * m.tx + s * m.ty;
    InverseIs(m, k, p, q, r, s);
    ApplyIs(m.Invert().value, p, q, -vx, r, s, -vy, x, y);
    var X, Y := m.Invert().value.ApplyX(x, y), m.Invert().value.ApplyY(x, y);
    ApplyIs(m, m.a, m.b, m.tx, m.c, m.d, m.ty, X, Y);
    Combined(m, k, p, q, r, s, ux, uy, x, y);
    Combined(m, k, p, q, r, s, vx, vy, m.tx, m.ty);
    Redone(m.a, m.b, X, Y, ux, uy, vx, vy, m.tx, x);
    Redone(m.c, m.d, X, Y, ux, uy, vx, vy, m.ty, y);
  }

  lemma Redone(a: real, b: real, X: real, Y: real, u: real, v: real, tu: real, tv: real, t: real, x: real)
    requires X == u - tu && Y == v - tv && a * u + b * v == x && a * tu + b * tv == t
    ensures a * X + b * Y + t == x
  {
    SameProduct(a, X, a, u - tu);
    SameProduct(b, Y, b, v - tv);
    ShiftedCombination(a, b, u, v, tu, tv);
  }

  lemma Combined(m: Affine, k: real, p: real, q: real, r: real, s: real, u: real, v: real, x: real, y: real)
    requires m.Determinant() * k == 1.0
    requires p == m.d * k && q == -m.b * k && r == -m.c * k && s == m.a * k
    requires u == p * x + q * y && v == r * x + s * y
    ensures m.a * u + m.b * v == x && m.c * u + m.d * v == y
  {
    LinearInverse(m.a, m.b, m.c, m.d, k, x, y);
    SameProduct(p, x, m.d * k, x);
    SameProduct(q, y, -m.b * k, y);
    SameProduct(r, x, -m.c * k, x);
    SameProduct(s, y, m.a * k, y);
    var t, w := (m.d * k) * x + (-m.b * k) * y, (-m.c * k) * x + (m.a * k) * y;
    SameProduct(m.a, u, m.a, t);
    SameProduct(m.b, v, m.b, w);
    SameProduct(m.c, u, m.c, t);
    SameProduct(m.d, v, m.d, w);
  }

  // ---- Warp ----

  /** The source, black outside, interpolated where the inverse map puts an output pixel. */
  function WarpedByte(src: Image, inverse: Affine, x: nat, y: nat, ch: nat): byte
    requires Packed(src)
  {
    var sx, sy := inverse.ApplyX(x as real, y as real), inverse.ApplyY(x as real, y as real);
    var x0, y0 := sx.Floor, sy.Floor;
    RoundByte(Blend(SampleBgr(src, x0, y0, ch), SampleBgr(src, x0 + 1, y0, ch), SampleBgr(src, x0, y0 + 1, ch),
                    SampleBgr(src, x0 + 1, y0 + 1, ch), sx - x0 as real, sy - y0 as real))
  }

  ghost function Warped(src: Image, inverse: Affine): Raster
    requires Packed(src)
  {
    (x: nat, y: nat, ch: nat) => WarpedByte(src, inverse, x, y, ch)
  }

  const I32_MAX: int := 0x7fff_ffff

  /** A whole number cast to 32 bits, which saturates. */
  function SaturatedI32(v: int): int {
    if v < -I32_MAX - 1 then -I32_MAX - 1 else if v > I32_MAX then I32_MAX else v
  }

  /** Adding one in 32 bits, which wraps around. */
  function NextI32(i: int): int {
    if i == I32_MAX then -I32_MAX - 1 else i + 1
  }

  method WarpAffineBgr(src: Image, transform: Affine, outWidth: nat, outHeight: nat) returns (r: Image)
    requires Packed(src)
    ensures r.width == outWidth && r.height == outHeight && Packed(r)
    ensures match transform.Invert()
            case None => forall p | 0 <= p < |r.pixels| :: r.pixels[p] == 0
            case Some(inverse) =>
              src.width <= I32_MAX && src.height <= I32_MAX ==>
                Filled(r.pixels, outWidth, outHeight, |r.pixels|, Warped(src, inverse))
  {
    hide Blend, RoundByte, Flat, Filled, SampleBgr;
    var n := outWidth * outHeight * 3;
    var out := new byte[n](_ => 0);
    var inverted := transform.Invert();
    if inverted == None {
      return Image(outWidth, outHeight, out[..]);
    }
    var inverse := inverted.value;
    ghost var raster := Warped(src, inverse);
    ghost var small := src.width <= I32_MAX && src.height <= I32_MAX;
    NothingFilled(out[..], outWidth, outHeight, raster);
    FlatSteps(0, 0, 0, outWidth);
    for y := 0 to outHeight
      invariant small ==> Filled(out[..], outWidth, outHeight, Flat(0, y, 0, outWidth), raster)
      invariant forall p | Flat(0, y, 0, outWidth) <= p < n :: out[p] == 0
    {
      for x := 0 to outWidth
        invariant small ==> Filled(out[..], outWidth, outHeight, Flat(x, y, 0, outWidth), raster)
        invariant forall p | Flat(x, y, 0, outWidth) <= p < n :: out[p] == 0
      {
        var sx, sy := inverse.ApplyX(x as real, y as real), inverse.ApplyY(x as real, y as real);
        var x0, y0 := sx.Floor, sy.Floor;
        var fx, fy := sx - x0 as real, sy - y0 as real;
        var ix0, iy0 := SaturatedI32(x0), SaturatedI32(y0);
        var ix1, iy1 := NextI32(ix0), NextI32(iy0);
        var outside := ix1 < 0 || iy1 < 0 || ix0 >= src.width || iy0 >= src.height;
        for ch := 0 to 3
          invariant small ==> Filled(out[..], outWidth, outHeight, Flat(x, y, ch, outWidth), raster)
          invariant forall p | Flat(x, y, ch, outWidth) <= p < n :: out[p] == 0
        {
          FlatBelow(x, y, ch, outWidth, outHeight);
          FlatSteps(x, y, ch, outWidth);
          ghost var before := out[..];
          if !outside {
            var value := RoundByte(Blend(SampleBgr(src, ix0, iy0, ch), SampleBgr(src, ix1, iy0, ch),
                                         SampleBgr(src, ix0, iy1, ch), SampleBgr(src, ix1, iy1, ch), fx, fy));
            out[Flat(x, y, ch, outWidth)] := value;
          } else {
            if small {
              BlackOutside(src, x0, y0, ch, fx, fy);
            }
            assert out[..] == before[Flat(x, y, ch, outWidth) := 0];
          }
          if small {
            FillNext(before, out[..], x, y, ch, outWidth, outHeight, raster);
          }
        }
        FlatSteps(x, y, 0, outWidth);
      }
      FlatSteps(outWidth, y, 0, outWidth);
    }
    FlatEnd(outWidth, outHeight);
    r := Image(outWidth, outHeight, out[..]);
  }

  lemma BlackOutside(src: Image, x0: int, y0: int, ch: nat, fx: real, fy: real)
    requires Packed(src) && (x0 + 1 < 0 || y0 + 1 < 0 || x0 >= src.width || y0 >= src.height)
    ensures RoundByte(Blend(SampleBgr(src, x0, y0, ch), SampleBgr(src, x0 + 1, y0, ch), SampleBgr(src, x0, y0 + 1, ch),
                            SampleBgr(src, x0 + 1, y0 + 1, ch), fx, fy)) == 0
  {
    hide At;
    assert Blend(0, 0, 0, 0, fx, fy) == 0.0;
  }

  /** Warping by a whole number of pixels shifts the image, black where nothing is shifted in. */
  lemma TranslationShifts(src: Image, dx: int, dy: int, x: nat, y: nat, ch: nat)
    requires Packed(src)
    ensures Affine(1.0, 0.0, dx as real, 0.0, 1.0, dy as real).Invert()
         == Some(Affine(1.0, 0.0, -dx as real, 0.0, 1.0, -dy as real))
    ensures WarpedByte(src, Affine(1.0, 0.0, -dx as real, 0.0, 1.0, -dy as real), x, y, ch)
         == SampleBgr(src, x - dx, y - dy, ch)
  {
    hide Blend, RoundByte, SampleBgr;
    var inverse := Affine(1.0, 0.0, -dx as real, 0.0, 1.0, -dy as real);
    assert inverse.ApplyX(x as real, y as real) == (x - dx) as real;
    assert inverse.ApplyY(x as real, y as real) == (y - dy) as real;
    FloorOfWhole(x - dx);
    FloorOfWhole(y - dy);
    BlendAtCorner(SampleBgr(src, x - dx, y - dy, ch), SampleBgr(src, x - dx + 1, y - dy, ch),
                  SampleBgr(src, x - dx, y - dy + 1, ch), SampleBgr(src, x - dx + 1, y - dy + 1, ch));
  }

  lemma FloorOfWhole(n: int)
    ensures (n as real).Floor == n && n as real - (n as real).Floor as real == 0.0
  {
  }

  /** Warping by the identity to the same size changes nothing. */
  lemma IdentityWarpCopies(src: Image, r: Image)
    requires Packed(src) && r.width == src.width && r.height == src.height
    requires Filled(r.pixels, r.width, r.height, |r.pixels|, Warped(src, Affine(1.0, 0.0, 0.0, 0.0, 1.0, 0.0)))
    ensures r == src
  {
    hide WarpedByte, SampleBgr, Warped, Filled, At, Packed;
    var identity := Affine(1.0, 0.0, 0.0, 0.0, 1.0, 0.0);
    FilledIsImage(r, Warped(src, identity));
    forall x: nat, y: nat, ch: nat | x < src.width && y < src.height && ch < 3
      ensures At(r, x, y, ch) == At(src, x, y, ch)
    {
      IdentityAt(src, identity, x, y, ch);
    }
    SamePixels(r, src);
  }

  lemma IdentityAt(src: Image, identity: Affine, x: nat, y: nat, ch: nat)
    requires Packed(src) && identity == Affine(1.0, 0.0, 0.0, 0.0, 1.0, 0.0)
    requires x < src.width && y < src.height && ch < 3
    ensures Warped(src, identity)(x, y, ch) == At(src, x, y, ch)
  {
    hide WarpedByte, SampleBgr, Warped, At, Packed, Affine.Invert;
    TranslationShifts(src, 0, 0, x, y, ch);
    WarpedAt(src, identity, x, y, ch);
    SampleInside(src, x, y, ch);
  }

  lemma WarpedAt(src: Image, inverse: Affine, x: nat, y: nat, ch: nat)
    requires Packed(src)
    ensures Warped(src, inverse)(x, y, ch) == WarpedByte(src, inverse, x, y, ch)
  {
  }

  lemma SampleInside(src: Image, x: nat, y: nat, ch: nat)
    requires Packed(src) && x < src.width && y < src.height && ch < 3
    ensures SampleBgr(src, x, y, ch) == At(src, x, y, ch)
  {
  }

  /** A warp never leaves the range of its channel, widened to black. */
  lemma WarpStaysBelow(src: Image, inverse: Affine, x: nat, y: nat, ch: nat, high: byte)
    requires Packed(src) && ch < 3
    requires forall u: nat, v: nat | u < src.width && v < src.height :: At(src, u, v, ch) <= high
    ensures WarpedByte(src, inverse, x, y, ch) <= high
  {
    hide Blend, RoundByte, At;
    var sx, sy := inverse.ApplyX(x as real, y as real), inverse.ApplyY(x as real, y as real);
    var x0, y0 := sx.Floor, sy.Floor;
    BlendBetween(SampleBgr(src, x0, y0, ch), SampleBgr(src, x0 + 1, y0, ch), SampleBgr(src, x0, y0 + 1, ch),
                 SampleBgr(src, x0 + 1, y0 + 1, ch), sx - x0 as real, sy - y0 as real, 0, high);
  }
}
