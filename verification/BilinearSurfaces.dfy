/**
What the warp and the resize of `PixelGeometry` compute, on every image: between four neighbouring samples
the value is that of the bilinear surface through them, which any four samples have.
*/
module BilinearSurfaces {
  import opened Wrappers
  import opened PixelGeometry

  datatype Surface = Surface(a: real, b: real, c: real, d: real)

  function Height(s: Surface, u: real, v: real): real {
    s.a + s.b * u + s.c * v + s.d * (u * v)
  }

  /** Half up. */
  function Rounded(v: real): int {
    (v + 0.5).Floor
  }

  // ---- Surfaces ----

  function Line(p: real, q: real, x: real): real {
    p + q * x
  }

  lemma LerpOfLine(p: real, q: real, x: real, f: real)
    ensures Lerp(Line(p, q, x), Line(p, q, x + 1.0), f) == Line(p, q, x + f)
  {
  }

  lemma AlongRow(s: Surface, u: real, v: real)
    ensures Height(s, u, v) == Line(s.a + s.c * v, s.b + s.d * v, u)
  {
    assert s.d * (u * v) == (s.d * v) * u;
    assert (s.b + s.d * v) * u == s.b * u + (s.d * v) * u;
  }

  lemma AlongColumn(s: Surface, u: real, v: real)
    ensures Height(s, u, v) == Line(s.a + s.b * u, s.c + s.d * u, v)
  {
    assert s.d * (u * v) == (s.d * u) * v;
    assert (s.c + s.d * u) * v == s.c * v + (s.d * u) * v;
  }

  lemma LerpRow(s: Surface, k: real, f: real, v: real)
    ensures Lerp(Height(s, k, v), Height(s, k + 1.0, v), f) == Height(s, k + f, v)
  {
    hide Lerp, Height, Line;
    AlongRow(s, k, v);
    AlongRow(s, k + 1.0, v);
    AlongRow(s, k + f, v);
    LerpOfLine(s.a + s.c * v, s.b + s.d * v, k, f);
  }

  lemma LerpColumn(s: Surface, u: real, l: real, f: real)
    ensures Lerp(Height(s, u, l), Height(s, u, l + 1.0), f) == Height(s, u, l + f)
  {
    hide Lerp, Height, Line;
    AlongColumn(s, u, l);
    AlongColumn(s, u, l + 1.0);
    AlongColumn(s, u, l + f);
    LerpOfLine(s.a + s.b * u, s.c + s.d * u, l, f);
  }

  lemma NoLerp(p: real, q: real)
    ensures Lerp(p, q, 0.0) == p
  {
  }

  /** Which of the four samples matter, and that they are on the surface. */
  ghost predicate OnSurface(
    s: Surface, p00: real, p01: real, p10: real, p11: real, k: int, l: int, fx: real, fy: real)
  {
    && p00 == Height(s, k as real, l as real)
    && (fx != 0.0 ==> p01 == Height(s, k as real + 1.0, l as real))
    && (fy != 0.0 ==> p10 == Height(s, k as real, l as real + 1.0))
    && (fx != 0.0 && fy != 0.0 ==> p11 == Height(s, k as real + 1.0, l as real + 1.0))
  }

  lemma LerpOnSurface(
    s: Surface, p00: real, p01: real, p10: real, p11: real, k: int, l: int, fx: real, fy: real)
    requires OnSurface(s, p00, p01, p10, p11, k, l, fx, fy)
    ensures Lerp(Lerp(p00, p01, fx), Lerp(p10, p11, fx), fy) == Height(s, k as real + fx, l as real + fy)
  {
    hide Lerp, Height;
    var u, l0 := k as real + fx, l as real;
    if fx == 0.0 {
      NoLerp(p00, p01);
      NoLerp(p10, p11);
    } else {
      LerpRow(s, k as real, fx, l0);
    }
    assert Lerp(p00, p01, fx) == Height(s, u, l0);
    if fy == 0.0 {
      NoLerp(Lerp(p00, p01, fx), Lerp(p10, p11, fx));
    } else {
      LerpRow(s, k as real, fx, l0 + 1.0);
      LerpColumn(s, u, l0, fy);
    }
  }

  lemma BlendOnSurface(
    s: Surface, p00: byte, p01: byte, p10: byte, p11: byte, k: int, l: int, fx: real, fy: real)
    requires 0.0 <= fx <= 1.0 && 0.0 <= fy <= 1.0
    requires OnSurface(s, p00 as real, p01 as real, p10 as real, p11 as real, k, l, fx, fy)
    ensures RoundByte(Blend(p00, p01, p10, p11, fx, fy)) == Rounded(Height(s, k as real + fx, l as real + fy))
  {
    hide Lerp, Height, OnSurface;
    LerpOnSurface(s, p00 as real, p01 as real, p10 as real, p11 as real, k, l, fx, fy);
    LerpBetween(p00 as real, p01 as real, fx, 0.0, 255.0);
    LerpBetween(p10 as real, p11 as real, fx, 0.0, 255.0);
    LerpBetween(Lerp(p00 as real, p01 as real, fx), Lerp(p10 as real, p11 as real, fx), fy, 0.0, 255.0);
  }

  // ---- Resize ----

  /**
  `u` is the place on a side of `size` samples that the centre of output sample `p` of `outSize` falls
  on, counted from the centre of sample 0, or the end of the side nearest to it.
  */
  ghost predicate IsCentre(p: nat, size: nat, outSize: nat, u: real) {
    var place, centre := (u + 0.5) * outSize as real, (p as real + 0.5) * size as real;
    && 0.0 <= u <= size as real - 1.0
    && (place == centre || (u == 0.0 && centre < place) || (u == size as real - 1.0 && centre > place))
  }

  lemma ScaleOrder(x: real, y: real, c: real)
    requires c > 0.0
    ensures x * c < y * c <==> x < y
    ensures x * c == y * c <==> x == y
  {
    assert (y - x) * c == y * c - x * c;
  }

  lemma RatioOfProduct(a: real, b: real, c: real)
    requires c != 0.0
    ensures (a * (b / c)) * c == a * b
  {
    var q := b / c;
    assert q * c == b;
    assert a * q * c == a * (q * c);
  }

  lemma CentreIs(p: nat, size: nat, outSize: nat, u: real)
    requires size > 0 && outSize > 0 && IsCentre(p, size, outSize, u)
    ensures Coordinate(p, size, outSize) == u && 0.0 <= u <= size as real - 1.0
  {
    var a, b, c := p as real + 0.5, size as real, outSize as real;
    RatioOfProduct(a, b, c);
    ScaleOrder(u + 0.5, a * (b / c), c);
    ScaleOrder(a * (b / c), u + 0.5, c);
    assert Coordinate(p, size, outSize) == Clamp(a * (b / c) - 0.5, 0.0, (size - 1) as real);
  }

  lemma WholePart(u: real, k: int)
    requires k as real <= u < k as real + 1.0
    ensures u.Floor == k
  {
  }

  /**
  Every resized sample: the height, half up, of the surface through the source's samples around the
  place its centre falls on.
  */
  lemma ResizeInterpolates(
    src: Image, outWidth: nat, outHeight: nat, x: nat, y: nat, ch: nat, u: real, v: real, k: nat, l: nat, s: Surface)
    requires Packed(src) && src.width > 0 && src.height > 0 && outWidth > 0 && outHeight > 0 && ch < 3
    requires IsCentre(x, src.width, outWidth, u) && IsCentre(y, src.height, outHeight, v)
    requires k as real <= u < k as real + 1.0 && l as real <= v < l as real + 1.0
    requires forall i: nat, j: nat | k <= i <= k + 1 && i < src.width && l <= j <= l + 1 && j < src.height ::
               At(src, i, j, ch) as real == Height(s, i as real, j as real)
    ensures ResizedByte(src, outWidth, outHeight, x, y, ch) == Rounded(Height(s, u, v))
  {
    hide Blend, RoundByte, Coordinate, At, Height, Rounded, IsCentre, Flat;
    CentreIs(x, src.width, outWidth, u);
    CentreIs(y, src.height, outHeight, v);
    CoordinateOnSide(x, src.width, outWidth);
    CoordinateOnSide(y, src.height, outHeight);
    WholePart(u, k);
    WholePart(v, l);
    var k1, l1 := Next(k, src.width), Next(l, src.height);
    OnSide(u, k, src.width);
    OnSide(v, l, src.height);
    BlendOnSurface(s, At(src, k, l, ch), At(src, k1, l, ch), At(src, k, l1, ch), At(src, k1, l1, ch),
                   k, l, u - k as real, v - l as real);
  }

  lemma OnSide(u: real, k: nat, size: nat)
    requires k as real <= u <= size as real - 1.0
    ensures k < size && (u - k as real != 0.0 ==> k + 1 < size && Next(k, size) == k + 1)
  {
  }

  // ---- Warp ----

  /** The surface goes through the sample at a column and row, black outside the image. */
  ghost predicate GoesThrough(s: Surface, src: Image, i: int, j: int, ch: nat)
    requires Packed(src) && ch < 3
  {
    var inside := 0 <= i < src.width && 0 <= j < src.height;
    Height(s, i as real, j as real) == if inside then At(src, i, j, ch) as real else 0.0
  }

  lemma PlaceOf(m: Affine, x: real, y: real, u: real, v: real)
    requires m.Invert().Some? && m.a * u + m.b * v + m.tx == x && m.c * u + m.d * v + m.ty == y
    ensures m.Invert().value.ApplyX(x, y) == u && m.Invert().value.ApplyY(x, y) == v
  {
    hide Affine.Invert;
    InverseUndoes(m, u, v);
    assert m.ApplyX(u, v) == x && m.ApplyY(u, v) == y;
  }

  lemma WarpedAtPlace(
    src: Image, inverse: Affine, x: nat, y: nat, ch: nat, u: real, v: real, k: int, l: int)
    requires Packed(src)
    requires inverse.ApplyX(x as real, y as real) == u && inverse.ApplyY(x as real, y as real) == v
    requires k as real <= u < k as real + 1.0 && l as real <= v < l as real + 1.0
    ensures WarpedByte(src, inverse, x, y, ch)
         == RoundByte(Blend(SampleBgr(src, k, l, ch), SampleBgr(src, k + 1, l, ch), SampleBgr(src, k, l + 1, ch),
                            SampleBgr(src, k + 1, l + 1, ch), u - k as real, v - l as real))
  {
    hide Blend, RoundByte, SampleBgr, Affine.ApplyX, Affine.ApplyY;
    WholePart(u, k);
    WholePart(v, l);
  }

  /**
  Every warped sample: the height, half up, of the surface through the source's samples, black outside,
  around the place that the map takes to it.
  */
  lemma WarpInterpolates(
    src: Image, m: Affine, x: nat, y: nat, ch: nat, u: real, v: real, k: int, l: int, s: Surface)
    requires Packed(src) && ch < 3 && m.Invert().Some?
    requires m.a * u + m.b * v + m.tx == x as real && m.c * u + m.d * v + m.ty == y as real
    requires k as real <= u < k as real + 1.0 && l as real <= v < l as real + 1.0
    requires forall i: int, j: int | k <= i <= k + 1 && l <= j <= l + 1 ::
               GoesThrough(s, src, i, j, ch)
    ensures WarpedByte(src, m.Invert().value, x, y, ch) == Rounded(Height(s, u, v))
  {
    hide Blend, RoundByte, At, Height, Rounded, WarpedByte, Affine.Invert, Affine.ApplyX, Affine.ApplyY, Flat;
    PlaceOf(m, x as real, y as real, u, v);
    WarpedAtPlace(src, m.Invert().value, x, y, ch, u, v, k, l);
    assert GoesThrough(s, src, k, l, ch);
    assert GoesThrough(s, src, k + 1, l, ch);
    assert GoesThrough(s, src, k, l + 1, ch);
    assert GoesThrough(s, src, k + 1, l + 1, ch);
    assert (k + 1) as real == k as real + 1.0 && (l + 1) as real == l as real + 1.0;
    BlendOnSurface(s, SampleBgr(src, k, l, ch), SampleBgr(src, k + 1, l, ch), SampleBgr(src, k, l + 1, ch),
                   SampleBgr(src, k + 1, l + 1, ch), k, l, u - k as real, v - l as real);
  }

  // ---- Every four samples have a surface ----

  lemma SurfaceThrough(k: int, l: int, p00: real, p01: real, p10: real, p11: real) returns (s: Surface)
    ensures Height(s, k as real, l as real) == p00 && Height(s, k as real + 1.0, l as real) == p01
    ensures Height(s, k as real, l as real + 1.0) == p10 && Height(s, k as real + 1.0, l as real + 1.0) == p11
  {
    var x, y := k as real, l as real;
    var b, c, d := p01 - p00, p10 - p00, p11 - p10 - p01 + p00;
    s := Surface(p00 - b * x - c * y + d * (x * y), b - d * y, c - d * x, d);
    hide Height;
    HeightFrom(s, p00, b, c, d, x, y, 0.0, 0.0);
    HeightFrom(s, p00, b, c, d, x, y, 1.0, 0.0);
    HeightFrom(s, p00, b, c, d, x, y, 0.0, 1.0);
    HeightFrom(s, p00, b, c, d, x, y, 1.0, 1.0);
  }

  lemma HeightFrom(s: Surface, p: real, b: real, c: real, d: real, x: real, y: real, f: real, g: real)
    requires s == Surface(p - b * x - c * y + d * (x * y), b - d * y, c - d * x, d)
    ensures Height(s, x + f, y + g) == p + b * f + c * g + d * (f * g)
  {
    assert s.b * (x + f) == b * x + b * f - d * y * x - d * y * f;
    assert s.c * (y + g) == c * y + c * g - d * x * y - d * x * g;
    assert (x + f) * (y + g) == x * y + x * g + f * y + f * g;
    assert s.d * ((x + f) * (y + g)) == d * (x * y) + d * x * g + d * y * f + d * (f * g);
  }
}
