/**
The challenge nonce of `apps/biometric-verifier/src/nonce.rs`: 32 squares, bright for one and dark for
zero, stamped into every frame of a clip and read back from the middle of each square.
*/
module ChallengeNonce {
  import opened Wrappers

  const EXPECTED_WIDTH: nat := 720
  const EXPECTED_HEIGHT: nat := 1280
  const ROW_BYTES: nat := 2160
  const PATCH_X: nat := 16
  const PATCH_Y: nat := 1120
  const COLUMNS: nat := 8
  const SQUARE_SIZE: nat := 24
  const PITCH: nat := 32
  const THRESHOLD: nat := 127
  const NONCE_BYTES: nat := 4

  const FRAME_BYTES: nat := 2764800

  datatype Frame = Frame(width: nat, height: nat, pixels: seq<byte>)

  predicate RightSize(f: Frame) {
    f.width == EXPECTED_WIDTH && f.height == EXPECTED_HEIGHT
  }

  // The pixels of a frame are packed: three bytes each, row after row.
  predicate Packed(f: Frame) {
    RightSize(f) ==> |f.pixels| == FRAME_BYTES
  }

  // ---- Bits ----

  /** `1 << k` */
  function Mask(k: nat): bv8
    requires k < 8
  {
    if k == 0 then 1 else if k == 1 then 2 else if k == 2 then 4 else if k == 3 then 8
    else if k == 4 then 16 else if k == 5 then 32 else if k == 6 then 64 else 128
  }

  predicate HasBit(b: bv8, k: nat)
    requires k < 8
  {
    b & Mask(k) != 0
  }

  /** Bit `i` of the nonce, the most significant bit of each byte first. */
  predicate Bit(nonce: seq<bv8>, i: nat)
    requires |nonce| == NONCE_BYTES && i < 32
  {
    HasBit(nonce[i / 8], 7 - i % 8)
  }

  lemma SetBit(b: bv8, k: nat, j: nat)
    requires k < 8 && j < 8
    ensures HasBit(b | Mask(k), j) <==> HasBit(b, j) || j == k
  {
  }

  lemma ZeroHasNoBit(k: nat)
    requires k < 8
    ensures !HasBit(0, k)
  {
  }

  lemma BitsMakeByte(a: bv8, b: bv8)
    requires forall k | 0 <= k < 8 :: HasBit(a, k) == HasBit(b, k)
    ensures a == b
  {
    assert HasBit(a, 0) == HasBit(b, 0) && HasBit(a, 1) == HasBit(b, 1) && HasBit(a, 2) == HasBit(b, 2);
    assert HasBit(a, 3) == HasBit(b, 3) && HasBit(a, 4) == HasBit(b, 4) && HasBit(a, 5) == HasBit(b, 5);
    assert HasBit(a, 6) == HasBit(b, 6) && HasBit(a, 7) == HasBit(b, 7);
  }

  lemma BitsMakeNonce(a: seq<bv8>, b: seq<bv8>)
    requires |a| == |b| == NONCE_BYTES
    requires forall i | 0 <= i < 32 :: Bit(a, i) == Bit(b, i)
    ensures a == b
  {
    hide HasBit;
    forall n | 0 <= n < 4 ensures a[n] == b[n] {
      forall k | 0 <= k < 8 ensures HasBit(a[n], k) == HasBit(b[n], k) {
        assert Bit(a, n * 8 + (7 - k)) == Bit(b, n * 8 + (7 - k));
      }
      BitsMakeByte(a[n], b[n]);
    }
  }

  // ---- Squares ----

  function SquareX(i: nat): nat {
    PATCH_X + i % COLUMNS * PITCH
  }

  function SquareY(i: nat): nat {
    PATCH_Y + i / COLUMNS * PITCH
  }

  /** The byte at `p` belongs to square `i`. */
  predicate InSquare(p: nat, i: nat) {
    && SquareY(i) <= p / ROW_BYTES < SquareY(i) + SQUARE_SIZE
    && SquareX(i) * 3 <= p % ROW_BYTES < (SquareX(i) + SQUARE_SIZE) * 3
  }

  lemma SquaresDisjoint(p: nat, i: nat, j: nat)
    requires i < 32 && j < 32 && InSquare(p, i) && InSquare(p, j)
    ensures i == j
  {
  }

  lemma SquaresInFrame(p: nat, i: nat)
    requires i < 32 && InSquare(p, i)
    ensures p < FRAME_BYTES
  {
  }

  /** The squares by pixel: eight in a row, from column 16 and line 1120 on, 24 wide and 32 apart. */
  lemma SquareByPixel(x: nat, y: nat, ch: nat, i: nat)
    requires x < 720 && ch < 3 && i < 32
    ensures InSquare((y * 720 + x) * 3 + ch, i) <==>
              && 16 + 32 * (i % 8) <= x < 16 + 32 * (i % 8) + 24
              && 1120 + 32 * (i / 8) <= y < 1120 + 32 * (i / 8) + 24
  {
    var p := (y * 720 + x) * 3 + ch;
    assert p / 2160 == y && p % 2160 == x * 3 + ch;
  }

  /** The bits by byte, from the most significant of the first. */
  lemma BitByByte(nonce: seq<bv8>, i: nat)
    requires |nonce| == NONCE_BYTES && i < 32
    ensures Bit(nonce, i) <==> (nonce[i / 8] >> (7 - i % 8)) & 1 == 1
  {
    var b, k := nonce[i / 8], 7 - i % 8;
    if k == 0 {
    } else if k == 1 {
    } else if k == 2 {
    } else if k == 3 {
    } else if k == 4 {
    } else if k == 5 {
    } else if k == 6 {
    } else {
    }
  }

  function Color(nonce: seq<bv8>, i: nat): byte
    requires |nonce| == NONCE_BYTES && i < 32
  {
    if Bit(nonce, i) then 255 else 0
  }

  /** `after` is `before` with the squares below `n` in the colours of the nonce, and nothing else changed. */
  ghost predicate Stamped(before: seq<byte>, after: seq<byte>, nonce: seq<bv8>, n: nat)
    requires |nonce| == NONCE_BYTES && n <= 32
  {
    && |after| == |before|
    && (forall p, i | 0 <= p < |after| && 0 <= i < n && InSquare(p, i) :: after[p] == Color(nonce, i))
    && (forall p | 0 <= p < |after| && (forall i | 0 <= i < n :: !InSquare(p, i)) :: after[p] == before[p])
  }

  /** One row of a square. */
  method FillRow(pixels: array<byte>, start: nat, color: byte)
    requires start + SQUARE_SIZE * 3 <= pixels.Length
    modifies pixels
    ensures forall p | 0 <= p < pixels.Length ::
              pixels[p] == if start <= p < start + SQUARE_SIZE * 3 then color else old(pixels[p])
  {
    for sx := 0 to SQUARE_SIZE
      invariant forall p | 0 <= p < pixels.Length ::
                  pixels[p] == if start <= p < start + sx * 3 then color else old(pixels[p])
    {
      var off := start + sx * 3;
      pixels[off] := color;
      pixels[off + 1] := color;
      pixels[off + 2] := color;
    }
  }

  method FillSquare(pixels: array<byte>, i: nat, color: byte)
    requires pixels.Length == FRAME_BYTES && i < 32
    modifies pixels
    ensures forall p | 0 <= p < pixels.Length ::
              pixels[p] == if InSquare(p, i) then color else old(pixels[p])
  {
    hide InSquare;
    var y0 := SquareY(i);
    forall p | 0 <= p < pixels.Length && InSquare(p, i) ensures y0 <= p / ROW_BYTES < y0 + SQUARE_SIZE {
      RowOfSquare(p, i, y0);
    }
    for sy := y0 to y0 + SQUARE_SIZE
      invariant forall p | 0 <= p < pixels.Length ::
                  pixels[p] == if InSquare(p, i) && p / ROW_BYTES < sy then color else old(pixels[p])
    {
      var start := sy * ROW_BYTES + SquareX(i) * 3;
      FillRow(pixels, start, color);
      forall p | 0 <= p < pixels.Length
        ensures start <= p < start + SQUARE_SIZE * 3 <==> InSquare(p, i) && p / ROW_BYTES == sy
      {
        RowOfSquare(p, i, sy);
      }
    }
  }

  lemma RowOfSquare(p: nat, i: nat, sy: nat)
    requires i < 32 && SquareY(i) <= sy < SquareY(i) + SQUARE_SIZE
    ensures sy * ROW_BYTES + SquareX(i) * 3 <= p < sy * ROW_BYTES + SquareX(i) * 3 + SQUARE_SIZE * 3
       <==> InSquare(p, i) && p / ROW_BYTES == sy
    ensures InSquare(p, i) ==> SquareY(i) <= p / ROW_BYTES < SquareY(i) + SQUARE_SIZE
  {
  }

  method Stamp(pixels: array<byte>, nonce: seq<bv8>)
    requires pixels.Length == FRAME_BYTES && |nonce| == NONCE_BYTES
    modifies pixels
    ensures Stamped(old(pixels[..]), pixels[..], nonce, 32)
  {
    hide InSquare, Bit;
    for i := 0 to 32
      invariant Stamped(old(pixels[..]), pixels[..], nonce, i)
    {
      ghost var before := pixels[..];
      FillSquare(pixels, i, Color(nonce, i));
      StampedNext(old(pixels[..]), before, pixels[..], nonce, i);
    }
  }

  lemma StampedNext(start: seq<byte>, before: seq<byte>, after: seq<byte>, nonce: seq<bv8>, n: nat)
    requires |nonce| == NONCE_BYTES && n < 32 && Stamped(start, before, nonce, n)
    requires |after| == |before|
    requires forall p | 0 <= p < |after| :: after[p] == if InSquare(p, n) then Color(nonce, n) else before[p]
    ensures Stamped(start, after, nonce, n + 1)
  {
    hide InSquare, Bit;
    forall p, i | 0 <= p < |after| && 0 <= i < n + 1 && InSquare(p, i) ensures after[p] == Color(nonce, i) {
      if InSquare(p, n) {
        SquaresDisjoint(p, i, n);
      }
    }
  }

  // ---- Reading a frame ----

  function PixelSum(pixels: seq<byte>, off: nat): nat
    requires off + 3 <= |pixels|
  {
    (pixels[off] as nat) + (pixels[off + 1] as nat) + (pixels[off + 2] as nat)
  }

  /** The first `n` pixels of a row of a sample window. */
  function RowSum(pixels: seq<byte>, off: nat, n: nat): nat
    requires off + n * 3 <= |pixels|
  {
    if n == 0 then 0 else RowSum(pixels, off, n - 1) + PixelSum(pixels, off + (n - 1) * 3)
  }

  /** The first `rows` rows, of four pixels each. */
  function WindowSum(pixels: seq<byte>, off: nat, rows: nat): nat
    requires rows > 0 ==> off + (rows - 1) * ROW_BYTES + 12 <= |pixels|
  {
    if rows == 0 then 0 else WindowSum(pixels, off, rows - 1) + RowSum(pixels, off + (rows - 1) * ROW_BYTES, 4)
  }

  /** The first byte of the window of four by four pixels in the middle of square `i`. */
  function WindowStart(i: nat): nat {
    (SquareY(i) + 10) * ROW_BYTES + (SquareX(i) + 10) * 3
  }

  /** The mean of the 48 samples is above the threshold. */
  predicate Bright(pixels: seq<byte>, i: nat)
    requires |pixels| == FRAME_BYTES && i < 32
  {
    WindowSum(pixels, WindowStart(i), 4) > THRESHOLD * 48
  }

  method SampleSum(pixels: seq<byte>, cx: nat, cy: nat) returns (sum: nat, count: nat)
    requires 2 <= cx && 2 <= cy && cx + 2 <= EXPECTED_WIDTH && cy + 2 <= EXPECTED_HEIGHT && |pixels| == FRAME_BYTES
    ensures sum == WindowSum(pixels, (cy - 2) * ROW_BYTES + (cx - 2) * 3, 4) && count == 48
  {
    sum, count := 0, 0;
    ghost var start := (cy - 2) * ROW_BYTES + (cx - 2) * 3;
    for sy := cy - 2 to cy + 2
      invariant sum == WindowSum(pixels, start, sy - (cy - 2)) && count == (sy - (cy - 2)) * 12
    {
      ghost var before := sum;
      ghost var rowStart := start + (sy - (cy - 2)) * ROW_BYTES;
      for sx := cx - 2 to cx + 2
        invariant sum == before + RowSum(pixels, rowStart, sx - (cx - 2))
        invariant count == (sy - (cy - 2)) * 12 + (sx - (cx - 2)) * 3
      {
        var off := sy * ROW_BYTES + sx * 3;
        assert off == rowStart + (sx - (cx - 2)) * 3;
        sum := sum + ((pixels[off] as nat) + (pixels[off + 1] as nat) + (pixels[off + 2] as nat));
        count := count + 3;
      }
    }
  }

  /** What a frame decodes to: the nonce whose one bits are the bright squares. */
  ghost predicate Decodes(f: Frame, nonce: seq<bv8>)
    requires Packed(f)
  {
    RightSize(f) && |nonce| == NONCE_BYTES && forall i | 0 <= i < 32 :: Bit(nonce, i) == Bright(f.pixels, i)
  }

  lemma SetNonceBit(bits: seq<bv8>, i: nat, j: nat)
    requires |bits| == NONCE_BYTES && i < 32 && j < 32
    ensures Bit(bits[i / 8 := bits[i / 8] | Mask(7 - i % 8)], j) <==> Bit(bits, j) || j == i
  {
    hide HasBit;
    SetBit(bits[i / 8], 7 - i % 8, 7 - j % 8);
  }

  method ExtractNonceFromFrame(frame: Frame) returns (r: Option<seq<bv8>>)
    requires Packed(frame)
    ensures r == None <==> !RightSize(frame)
    ensures r.Some? ==> Decodes(frame, r.value)
  {
    hide Bit, WindowSum, HasBit;
    if frame.width != EXPECTED_WIDTH || frame.height != EXPECTED_HEIGHT {
      return None;
    }
    var bits: seq<bv8> := [0, 0, 0, 0];
    forall i | 0 <= i < 32 ensures !Bit(bits, i) {
      NoBit(bits, i);
    }
    for bitIndex := 0 to 32
      invariant |bits| == NONCE_BYTES
      invariant forall i | 0 <= i < 32 :: Bit(bits, i) == (i < bitIndex && Bright(frame.pixels, i))
    {
      var cx := SquareX(bitIndex) + SQUARE_SIZE / 2;
      var cy := SquareY(bitIndex) + SQUARE_SIZE / 2;
      // The window lies inside the frame, so the source's bounds test never fails.
      assert 2 <= cx && 2 <= cy && cx + 2 <= frame.width && cy + 2 <= frame.height;
      var sum, count := SampleSum(frame.pixels, cx, cy);
      var mean := sum as real / count as real;
      MeanAbove(sum);
      assert mean > THRESHOLD as real <==> Bright(frame.pixels, bitIndex);
      if mean > THRESHOLD as real {
        ghost var before := bits;
        bits := bits[bitIndex / 8 := bits[bitIndex / 8] | Mask(7 - bitIndex % 8)];
        forall j | 0 <= j < 32 ensures Bit(bits, j) == (j < bitIndex + 1 && Bright(frame.pixels, j)) {
          SetNonceBit(before, bitIndex, j);
        }
      } else {
        forall j | 0 <= j < 32 ensures Bit(bits, j) == (j < bitIndex + 1 && Bright(frame.pixels, j)) {
          assert j == bitIndex ==> !Bright(frame.pixels, j);
        }
      }
    }
    r := Some(bits);
  }

  lemma NoBit(bits: seq<bv8>, i: nat)
    requires bits == [0, 0, 0, 0] && i < 32
    ensures !Bit(bits, i)
  {
    ZeroHasNoBit(7 - i % 8);
  }

  lemma MeanAbove(sum: nat)
    ensures sum as real / 48 as real > THRESHOLD as real <==> sum > THRESHOLD * 48
  {
  }

  /** A frame decodes to one nonce at most. */
  lemma DecodesOnce(f: Frame, a: seq<bv8>, b: seq<bv8>)
    requires Packed(f) && Decodes(f, a) && Decodes(f, b)
    ensures a == b
  {
    hide Bit, WindowSum;
    BitsMakeNonce(a, b);
  }

  // ---- Reading back what was stamped ----

  predicate AllBright(pixels: seq<byte>, off: nat, n: nat)
    requires off + n <= |pixels|
  {
    forall p | off <= p < off + n :: pixels[p] >= 128
  }

  predicate AllDark(pixels: seq<byte>, off: nat, n: nat)
    requires off + n <= |pixels|
  {
    forall p | off <= p < off + n :: pixels[p] <= 127
  }

  lemma {:induction false} RowOfOne(pixels: seq<byte>, off: nat, n: nat)
    requires off + n * 3 <= |pixels|
    ensures AllBright(pixels, off, n * 3) ==> RowSum(pixels, off, n) >= 384 * n
    ensures AllDark(pixels, off, n * 3) ==> RowSum(pixels, off, n) <= 381 * n
  {
    if n > 0 {
      RowOfOne(pixels, off, n - 1);
    }
  }

  lemma {:induction false} WindowOfOne(pixels: seq<byte>, off: nat, rows: nat)
    requires rows > 0 ==> off + (rows - 1) * ROW_BYTES + 12 <= |pixels|
    ensures (forall k: nat | k < rows :: AllBright(pixels, off + k * ROW_BYTES, 12)) ==>
              WindowSum(pixels, off, rows) >= 1536 * rows
    ensures (forall k: nat | k < rows :: AllDark(pixels, off + k * ROW_BYTES, 12)) ==>
              WindowSum(pixels, off, rows) <= 1524 * rows
  {
    hide AllBright, AllDark, RowSum;
    if rows > 0 {
      WindowOfOne(pixels, off, rows - 1);
      RowOfOne(pixels, off + (rows - 1) * ROW_BYTES, 4);
    }
  }

  /** The sample window by pixel: four by four, ten pixels into the square. */
  lemma WindowByPixel(x: nat, y: nat, ch: nat, i: nat, k: nat)
    requires x < 720 && ch < 3 && i < 32 && k < 4
    ensures WindowStart(i) + k * 2160 <= (y * 720 + x) * 3 + ch < WindowStart(i) + k * 2160 + 12 <==>
              && 16 + 32 * (i % 8) + 10 <= x < 16 + 32 * (i % 8) + 14
              && y == 1120 + 32 * (i / 8) + 10 + k
  {
    var row, column := 1120 + 32 * (i / 8) + 10 + k, 16 + 32 * (i % 8) + 10;
    assert WindowStart(i) + k * 2160 == row * 2160 + column * 3;
    RowOfByte(y, x * 3 + ch, row, column * 3);
  }

  lemma RowOfByte(y: nat, a: nat, row: nat, b: nat)
    requires a < 2160 && b + 12 <= 2160
    ensures row * 2160 + b <= y * 2160 + a < row * 2160 + b + 12 <==> y == row && b <= a < b + 12
  {
  }

  lemma WindowInSquare(i: nat, k: nat, p: nat)
    requires i < 32 && k < 4 && WindowStart(i) + k * ROW_BYTES <= p < WindowStart(i) + k * ROW_BYTES + 12
    ensures InSquare(p, i)
  {
  }

  /** No sample is off by more than 127. */
  predicate Near(a: seq<byte>, b: seq<byte>) {
    |a| == |b| && forall p | 0 <= p < |a| :: a[p] as int - 127 <= b[p] as int <= a[p] as int + 127
  }

  /**
  Whatever the background, a stamped frame decodes to its nonce, even when compression has moved every
  sample by up to 127.
  */
  lemma StampedFrameDecodes(background: seq<byte>, stamped: seq<byte>, received: seq<byte>, nonce: seq<bv8>)
    requires |background| == FRAME_BYTES && |nonce| == NONCE_BYTES
    requires Stamped(background, stamped, nonce, 32) && Near(stamped, received)
    ensures Decodes(Frame(EXPECTED_WIDTH, EXPECTED_HEIGHT, received), nonce)
  {
    hide Bit, WindowSum, InSquare;
    forall i | 0 <= i < 32 ensures Bit(nonce, i) == Bright(received, i) {
      var start := WindowStart(i);
      forall k: nat | k < 4
        ensures if Bit(nonce, i) then AllBright(received, start + k * ROW_BYTES, 12)
                else AllDark(received, start + k * ROW_BYTES, 12)
      {
        forall p: nat | start + k * ROW_BYTES <= p < start + k * ROW_BYTES + 12
          ensures if Bit(nonce, i) then received[p] >= 128 else received[p] <= 127
        {
          WindowInSquare(i, k, p);
          assert stamped[p] == Color(nonce, i);
        }
      }
      WindowOfOne(received, start, 4);
    }
  }

  // ---- The vote ----

  datatype NonceVerification =
    NonceVerification(matched: bool, framesTotal: nat, framesDecoded: nat, framesMatched: nat)

  ghost predicate AllPacked(frames: seq<Frame>) {
    forall i | 0 <= i < |frames| :: Packed(frames[i])
  }

  /** The frames among the first `n` that decode to `expected`. */
  ghost function MatchCount(frames: seq<Frame>, expected: seq<bv8>, n: nat): (r: nat)
    requires AllPacked(frames) && n <= |frames|
    ensures r <= n
  {
    if n == 0 then 0 else MatchCount(frames, expected, n - 1) + if Decodes(frames[n - 1], expected) then 1 else 0
  }

  ghost function SizedCount(frames: seq<Frame>, n: nat): nat
    requires n <= |frames|
  {
    if n == 0 then 0 else SizedCount(frames, n - 1) + if RightSize(frames[n - 1]) then 1 else 0
  }

  method VerifyChallengeNonce(frames: seq<Frame>, expected: seq<bv8>) returns (r: NonceVerification)
    requires AllPacked(frames)
    ensures r.framesTotal == |frames| && r.framesDecoded == SizedCount(frames, |frames|)
    ensures r.framesMatched == MatchCount(frames, expected, |frames|)
    ensures r.matched <==> r.framesMatched > |frames| / 2
  {
    hide Decodes;
    var decoded, matched := 0, 0;
    for i := 0 to |frames|
      invariant decoded == SizedCount(frames, i) && matched == MatchCount(frames, expected, i)
    {
      var candidate := ExtractNonceFromFrame(frames[i]);
      WrongSizeDecodesNothing(frames[i], expected);
      if candidate.Some? {
        decoded := decoded + 1;
        if candidate.value == expected {
          matched := matched + 1;
        } else {
          OtherDecodesNot(frames[i], candidate.value, expected);
        }
      }
    }
    r := NonceVerification(matched > |frames| / 2, |frames|, decoded, matched);
  }

  lemma WrongSizeDecodesNothing(f: Frame, nonce: seq<bv8>)
    requires Packed(f)
    ensures Decodes(f, nonce) ==> RightSize(f)
  {
  }

  lemma OtherDecodesNot(f: Frame, a: seq<bv8>, b: seq<bv8>)
    requires Packed(f) && Decodes(f, a) && a != b
    ensures !Decodes(f, b)
  {
    hide Decodes;
    if Decodes(f, b) {
      DecodesOnce(f, a, b);
    }
  }

  lemma {:induction false} CountsAddUp(frames: seq<Frame>, a: seq<bv8>, b: seq<bv8>, n: nat)
    requires AllPacked(frames) && n <= |frames| && a != b
    ensures MatchCount(frames, a, n) + MatchCount(frames, b, n) <= n
  {
    hide Decodes;
    if n > 0 {
      CountsAddUp(frames, a, b, n - 1);
      if Decodes(frames[n - 1], a) {
        OtherDecodesNot(frames[n - 1], a, b);
      }
    }
  }

  /** Of two different nonces at most one wins the vote over the same clip. */
  lemma AtMostOneWins(frames: seq<Frame>, a: seq<bv8>, b: seq<bv8>)
    requires AllPacked(frames) && a != b
    ensures !(MatchCount(frames, a, |frames|) > |frames| / 2 && MatchCount(frames, b, |frames|) > |frames| / 2)
  {
    CountsAddUp(frames, a, b, |frames|);
  }

  /** The frame shows `nonce` stamped on some background, each sample moved by at most 127. */
  ghost predicate Shows(f: Frame, nonce: seq<bv8>)
    requires |nonce| == NONCE_BYTES
  {
    && RightSize(f) && |f.pixels| == FRAME_BYTES
    && exists background: seq<byte>, stamped: seq<byte> ::
         |background| == FRAME_BYTES && Stamped(background, stamped, nonce, 32) && Near(stamped, f.pixels)
  }

  ghost function ShowingCount(frames: seq<Frame>, nonce: seq<bv8>, n: nat): nat
    requires |nonce| == NONCE_BYTES && n <= |frames|
  {
    if n == 0 then 0 else ShowingCount(frames, nonce, n - 1) + if Shows(frames[n - 1], nonce) then 1 else 0
  }

  lemma {:induction false} ShowingFramesMatch(frames: seq<Frame>, nonce: seq<bv8>, n: nat)
    requires AllPacked(frames) && |nonce| == NONCE_BYTES && n <= |frames|
    ensures ShowingCount(frames, nonce, n) <= MatchCount(frames, nonce, n)
  {
    hide Decodes, Stamped, Near;
    if n > 0 {
      ShowingFramesMatch(frames, nonce, n - 1);
      var f := frames[n - 1];
      if Shows(f, nonce) {
        var background: seq<byte>, stamped: seq<byte> :|
          |background| == FRAME_BYTES && Stamped(background, stamped, nonce, 32) && Near(stamped, f.pixels);
        StampedFrameDecodes(background, stamped, f.pixels, nonce);
        assert f == Frame(EXPECTED_WIDTH, EXPECTED_HEIGHT, f.pixels);
      }
    }
  }

  /** A clip most of whose frames show a nonce wins with that nonce and with no other. */
  lemma ShownNonceWins(frames: seq<Frame>, nonce: seq<bv8>, other: seq<bv8>)
    requires AllPacked(frames) && |nonce| == NONCE_BYTES && ShowingCount(frames, nonce, |frames|) > |frames| / 2
    ensures MatchCount(frames, nonce, |frames|) > |frames| / 2
    ensures other != nonce ==> MatchCount(frames, other, |frames|) <= |frames| / 2
  {
    hide MatchCount, ShowingCount;
    ShowingFramesMatch(frames, nonce, |frames|);
    if other != nonce {
      AtMostOneWins(frames, nonce, other);
    }
  }
}
