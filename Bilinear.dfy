/**
  Pure part of the Q8.8 fixed-point bilinear downscaler: integer clamping,
  edge-replicating pixel access, output dimensions, the fixed-point inverse
  scale, the four bilinear weights, one interpolated output pixel, the whole
  resampled image as a function of its inputs, and the read sets that the
  chunked resampler charges for.

  Fixed-point conventions: for a Q8.8 value `v`, the source takes the integer
  part with an arithmetic `v >> 8` and the fraction with `v & 0xFF`.  On
  unbounded integers these are `v / 256` and `v % 256` (Dafny's division by a
  positive constant rounds toward minus infinity, as an arithmetic shift does,
  and its remainder is the low eight bits of the two's-complement value).
*/
module Bilinear {

  /** One 8-bit unsigned sample (`uint8_t`). */
  type Byte = b: int | 0 <= b < 256

  function Min(a: int, b: int): int { if a <= b then a else b }
  function Max(a: int, b: int): int { if a <= b then b else a }

  // ---------------------------------------------------------------------
  // clamp_int
  // ---------------------------------------------------------------------

  /** `clamp_int`: `lo` below the range, `hi` above it, `v` itself inside. */
  function Clamp(v: int, lo: int, hi: int): (r: int)
    ensures lo <= hi ==> lo <= r <= hi
    ensures lo <= v <= hi ==> r == v
    ensures r == v || r == lo || r == hi
  {
    if v < lo then lo else if v > hi then hi else v
  }

  // ---------------------------------------------------------------------
  // Row-major indexing
  // ---------------------------------------------------------------------

  /** Multiplying by a non-negative factor keeps the order. */
  lemma MulMonotone(a: int, b: int, c: int)
    ensures a <= b && c >= 0 ==> a * c <= b * c
  {
    assert b * c - a * c == (b - a) * c;
  }

  /** Row y of a w-by-h grid stored row by row ends at y*w + w, within
      the grid, where row y + 1 starts. */
  lemma NextRow(y: int, w: int, h: int)
    requires 0 <= y < h && w >= 0
    ensures y * w + w == (y + 1) * w <= w * h
  {
    MulMonotone(y + 1, h, w);
  }

  /** Position (y, x) of a w-by-h grid stored row by row lies in the grid. */
  lemma GridBound(y: int, x: int, w: int, h: int)
    requires 0 <= y < h && 0 <= x < w
    ensures 0 <= y * w + x < w * h
  {
    MulMonotone(y, h - 1, w);
    MulMonotone(0, y, w);
    assert (h - 1) * w + w == h * w;
  }

  /** Position (y, x) of a w-by-h grid stored row by row, and back. */
  lemma RowMajor(y: int, x: int, w: int, h: int)
    requires 0 <= y < h && 0 <= x < w
    ensures 0 <= y * w + x < w * h
    ensures (y * w + x) / w == y && (y * w + x) % w == x
  {
    GridBound(y, x, w, h);
    var i := y * w + x;
    var q, r := i / w, i % w;
    assert i == q * w + r && 0 <= r < w;
    assert (y - q) * w == r - x;
    MulMonotone(1, y - q, w);
    MulMonotone(1, q - y, w);
    assert (q - y) * w == x - r;
  }

  // ---------------------------------------------------------------------
  // pix_get_clamp
  // ---------------------------------------------------------------------

  /** The index `pix_get_clamp` reads: both coordinates clamped to the grid,
      so it always lies inside an image of w*h samples. */
  function PixIndex(w: int, h: int, y: int, x: int): (i: nat)
    requires w >= 1 && h >= 1
    ensures i < w * h
  {
    var cx := Clamp(x, 0, w - 1);
    var cy := Clamp(y, 0, h - 1);
    RowMajor(cy, cx, w, h);
    cy * w + cx
  }

  /** The index read is the row-major index of the clamped coordinates:
      its row is y clamped to [0, h-1] and its column x clamped to [0, w-1]. */
  lemma PixIndexCoords(w: int, h: int, y: int, x: int)
    requires w >= 1 && h >= 1
    ensures PixIndex(w, h, y, x) / w == Clamp(y, 0, h - 1)
    ensures PixIndex(w, h, y, x) % w == Clamp(x, 0, w - 1)
  {
    RowMajor(Clamp(y, 0, h - 1), Clamp(x, 0, w - 1), w, h);
  }

  /** `pix_get_clamp`: the sample at (y, x) with the replicate-edge policy. */
  function PixGetClamp(img: seq<Byte>, w: int, h: int, y: int, x: int): Byte
    requires w >= 1 && h >= 1 && |img| == w * h
  {
    img[PixIndex(w, h, y, x)]
  }

  /** Inside the grid the accessor reads the sample at (y, x) itself;
      outside, a row or column beyond an edge reads the same sample as the
      edge itself. */
  lemma PixGetClampEdges(img: seq<Byte>, w: int, h: int, y: int, x: int)
    requires w >= 1 && h >= 1 && |img| == w * h
    ensures 0 <= y < h && 0 <= x < w ==> PixIndex(w, h, y, x) == y * w + x
    ensures y >= h ==> PixGetClamp(img, w, h, y, x) == PixGetClamp(img, w, h, h - 1, x)
    ensures y < 0 ==> PixGetClamp(img, w, h, y, x) == PixGetClamp(img, w, h, 0, x)
    ensures x >= w ==> PixGetClamp(img, w, h, y, x) == PixGetClamp(img, w, h, y, w - 1)
    ensures x < 0 ==> PixGetClamp(img, w, h, y, x) == PixGetClamp(img, w, h, y, 0)
  {
  }

  // ---------------------------------------------------------------------
  // out_dims and the fixed-point inverse scale
  // ---------------------------------------------------------------------

  /** `out_dims` for the scale num/den: each side is the floor of the
      scaled side, and at least 1. */
  function OutDims(wIn: int, hIn: int, num: int, den: int): (d: (int, int))
    requires 0 < num && 0 < den
    ensures d.0 >= 1 && d.1 >= 1
    ensures num <= den ==> d.0 <= Max(1, wIn) && d.1 <= Max(1, hIn)
    ensures num == den && wIn >= 1 && hIn >= 1 ==> d == (wIn, hIn)
  {
    ScaledFloor(wIn, num, den);
    ScaledFloor(hIn, num, den);
    (Max(1, wIn * num / den), Max(1, hIn * num / den))
  }

  /** Away from the lower clamp each output dimension is the floor of the
      input dimension times num/den: d*den <= n*num < (d+1)*den. */
  lemma OutDimsFloor(wIn: int, hIn: int, num: int, den: int)
    requires 0 < num && 0 < den
    ensures var d := OutDims(wIn, hIn, num, den);
      (wIn * num >= den ==> d.0 * den <= wIn * num < (d.0 + 1) * den)
      && (hIn * num >= den ==> d.1 * den <= hIn * num < (d.1 + 1) * den)
  {
    ScaledFloor(wIn, num, den);
    ScaledFloor(hIn, num, den);
  }

  /** Floor of n*num/den, and that it does not exceed n when num <= den. */
  lemma ScaledFloor(n: int, num: int, den: int)
    requires 0 < num && 0 < den
    ensures (n * num / den) * den <= n * num < (n * num / den + 1) * den
    ensures num <= den && n >= 0 ==> n * num / den <= n
    ensures num == den ==> n * num / den == n
  {
    var f := n * num / den;
    assert n * num == f * den + n * num % den;
    assert (f + 1) * den == f * den + den;
    // f * den <= n * num <= n * den whenever num <= den and n >= 0
    MulMonotone(num, den, n);
    assert num * n == n * num && den * n == n * den;
    // (f - n) * den < den, so f - n < 1
    assert (f - n) * den == f * den - n * den;
    MulMonotone(1, f - n, den);
    // when num == den, also (n - f) * den < den
    assert (n - f) * den == n * den - f * den;
    MulMonotone(1, n - f, den);
  }

  /** `inv_scale_q`: 256*den/num rounded to the nearest integer, halves
      away from zero (`std::llround`). */
  function InvScaleQ(num: int, den: int): (q: int)
    requires 0 < num && 0 < den
    ensures num <= den ==> q >= 256
    ensures num == den ==> q == 256
  {
    NearestQuotient(num, den);
    (512 * den + num) / (2 * num)
  }

  /** `inv_scale_q` is the integer nearest to 256*den/num:
      |q - 256*den/num| <= 1/2, stated without fractions. */
  lemma InvScaleQNearest(num: int, den: int)
    requires 0 < num && 0 < den
    ensures var q := InvScaleQ(num, den);
      -num < 2 * q * num - 512 * den <= num
  {
    NearestQuotient(num, den);
  }

  /** Rounding 256*den/num half away from zero by a floor division. */
  lemma NearestQuotient(num: int, den: int)
    requires 0 < num && 0 < den
    ensures var q := (512 * den + num) / (2 * num);
      -num < 2 * q * num - 512 * den <= num
      && (num <= den ==> q >= 256) && (num == den ==> q == 256)
  {
    var q := (512 * den + num) / (2 * num);
    assert 2 * q * num <= 512 * den + num < 2 * q * num + 2 * num by {
      assert 512 * den + num == q * (2 * num) + (512 * den + num) % (2 * num);
      assert q * (2 * num) == 2 * q * num;
    }
    // q <= 255 would give 2*q*num + 2*num <= 512*num <= 512*den
    MulMonotone(q, 255, 2 * num);
    assert q * (2 * num) == 2 * q * num;
    // q >= 257 would give 2*q*num >= 514*num
    MulMonotone(257, q, 2 * num);
  }

  // ---------------------------------------------------------------------
  // Bilinear weights
  // ---------------------------------------------------------------------

  /** The four rounded Q0.8 weights of the neighbours
      (y, x), (y, x+1), (y+1, x), (y+1, x+1). */
  datatype Weights = Weights(w00: int, w01: int, w10: int, w11: int)
  {
    function Sum(): int { w00 + w01 + w10 + w11 }
  }

  /** The exact products t00..t11 of the complement trick: none exceeds
      65536, the two in column x and the two in column x+1 add up to
      multiples of 256, and together they are exactly 65536 (one in Q0.16). */
  lemma Products(fx: int, fy: int)
    requires 0 <= fx < 256 && 0 <= fy < 256
    ensures 0 <= (256 - fx) * (256 - fy) <= 65536
    ensures 0 <= fx * (256 - fy) <= 65536 && 0 <= (256 - fx) * fy <= 65536
    ensures 0 <= fx * fy <= 65536
    ensures (256 - fx) * (256 - fy) + (256 - fx) * fy == 256 * (256 - fx)
    ensures fx * (256 - fy) + fx * fy == 256 * fx
  {
    var gx, gy := 256 - fx, 256 - fy;
    MulMonotone(gx, 256, gy);
    MulMonotone(gy, 256, 256);
    MulMonotone(fx, 256, gy);
    MulMonotone(gx, 256, fy);
    MulMonotone(fx, 256, fy);
    MulMonotone(fy, 256, 256);
    MulMonotone(0, gx, gy);
    MulMonotone(0, fx, gy);
    MulMonotone(0, gx, fy);
    MulMonotone(0, fx, fy);
    assert gx * gy + gx * fy == gx * (gy + fy);
    assert fx * gy + fx * fy == fx * (gy + fy);
  }

  /** Two non-negative products whose sum is 256*k round, each by
      `(t + 128) >> 8`, to k + 1 in total exactly when the first leaves
      remainder 128 modulo 256, and to k otherwise. */
  lemma RoundedPair(a: int, b: int, k: int)
    requires a >= 0 && b >= 0 && a + b == 256 * k
    ensures (a + 128) / 256 + (b + 128) / 256 == if a % 256 == 128 then k + 1 else k
  {
    var r := a % 256;
    assert a == 256 * (a / 256) + r;
    assert b == 256 * (k - a / 256) - r;
    if r == 0 {
      assert (b + 128) / 256 == k - a / 256;
    } else {
      assert b == 256 * (k - a / 256 - 1) + (256 - r);
      assert (a + 128) / 256 == a / 256 + (if r >= 128 then 1 else 0);
      assert (b + 128) / 256 == k - a / 256 - 1 + (if 256 - r >= 128 then 1 else 0);
    }
  }

  /** t00 = (256-fx)(256-fy) is fx*fy plus a multiple of 256, and
      t01 = fx(256-fy) is a multiple of 256 minus fx*fy, so the first pair
      leaves remainder 128 exactly when the second does. */
  lemma RemaindersAgree(fx: int, fy: int)
    ensures ((256 - fx) * (256 - fy)) % 256 == 128 <==> (fx * (256 - fy)) % 256 == 128
  {
    var m := fx * fy;
    assert (256 - fx) * (256 - fy) == m + 256 * (256 - fx - fy);
    assert fx * (256 - fy) == 256 * fx - m;
  }

  /** The four neighbour weights for the fraction (fx, fy): the products
      of the fractions and their complements to 256, each rounded back from
      Q0.16 to Q0.8 by adding half and shifting right by 8.  Because the
      two column pairs round up together or not at all, the weights add up
      to 256 or to 258, never to 257. */
  function WeightsOf(fx: int, fy: int): (w: Weights)
    requires 0 <= fx < 256 && 0 <= fy < 256
    ensures 0 <= w.w00 <= 256 && 0 <= w.w01 <= 256
    ensures 0 <= w.w10 <= 256 && 0 <= w.w11 <= 256
    ensures w.Sum() == 256 || w.Sum() == 258
    ensures fx == 0 && fy == 0 ==> w == Weights(256, 0, 0, 0)
  {
    var t00 := (256 - fx) * (256 - fy);
    var t01 := fx * (256 - fy);
    var t10 := (256 - fx) * fy;
    var t11 := fx * fy;
    Products(fx, fy);
    RoundedPair(t00, t10, 256 - fx);
    RoundedPair(t01, t11, fx);
    RemaindersAgree(fx, fy);
    Weights((t00 + 128) / 256, (t01 + 128) / 256, (t10 + 128) / 256, (t11 + 128) / 256)
  }

  // ---------------------------------------------------------------------
  // One output pixel
  // ---------------------------------------------------------------------

  /** Source column/row index of a Q8.8 coordinate (`>> 8`). */
  function IntPart(vq: int): int { vq / 256 }

  /** Fraction of a Q8.8 coordinate (`& 0xFF`). */
  function Frac(vq: int): int { vq % 256 }

  /** Weighted sum of four samples by four weights. */
  function Accumulate(p00: int, p01: int, p10: int, p11: int, w: Weights): int
  {
    p00 * w.w00 + p01 * w.w01 + p10 * w.w10 + p11 * w.w11
  }

  /** Bounds of the weighted sum: every sample lies in [lo, hi] and the
      weights are non-negative and sum to s, so the sum lies in [lo*s, hi*s]. */
  lemma AccumulateBounds(p00: int, p01: int, p10: int, p11: int, w: Weights, lo: int, hi: int)
    requires w.w00 >= 0 && w.w01 >= 0 && w.w10 >= 0 && w.w11 >= 0
    requires lo <= p00 <= hi && lo <= p01 <= hi && lo <= p10 <= hi && lo <= p11 <= hi
    ensures lo * w.Sum() <= Accumulate(p00, p01, p10, p11, w) <= hi * w.Sum()
  {
    assert lo * w.w00 <= p00 * w.w00 <= hi * w.w00 by { Mono(lo, p00, hi, w.w00); }
    assert lo * w.w01 <= p01 * w.w01 <= hi * w.w01 by { Mono(lo, p01, hi, w.w01); }
    assert lo * w.w10 <= p10 * w.w10 <= hi * w.w10 by { Mono(lo, p10, hi, w.w10); }
    assert lo * w.w11 <= p11 * w.w11 <= hi * w.w11 by { Mono(lo, p11, hi, w.w11); }
    SumTimes(lo, w);
    SumTimes(hi, w);
  }

  lemma SumTimes(c: int, w: Weights)
    ensures c * w.Sum() == c * w.w00 + c * w.w01 + c * w.w10 + c * w.w11
  {
  }

  lemma Mono(lo: int, p: int, hi: int, c: int)
    requires lo <= p <= hi && c >= 0
    ensures lo * c <= p * c <= hi * c
  {
    MulMonotone(lo, p, c);
    MulMonotone(p, hi, c);
  }

  function Min4(a: int, b: int, c: int, d: int): int { Min(Min(a, b), Min(c, d)) }
  function Max4(a: int, b: int, c: int, d: int): int { Max(Max(a, b), Max(c, d)) }

  /** The output sample from its four neighbours and the Q8.8 fraction
      (fx, fy): the weighted sum, rounded with `(acc + 128) >> 8` and
      clamped to a byte. */
  function Blend(p00: int, p01: int, p10: int, p11: int, fx: int, fy: int): (r: int)
    requires 0 <= fx < 256 && 0 <= fy < 256
    ensures 0 <= r <= 255
  {
    var acc := Accumulate(p00, p01, p10, p11, WeightsOf(fx, fy));
    Clamp((acc + 128) / 256, 0, 255)
  }

  /** A blended sample is never darker than the darkest of its four
      neighbours and at most two levels brighter than the brightest (the
      rounded weights may sum to 258); with no fraction it is p00 itself. */
  lemma BlendBounds(p00: Byte, p01: Byte, p10: Byte, p11: Byte, fx: int, fy: int)
    requires 0 <= fx < 256 && 0 <= fy < 256
    ensures Min4(p00, p01, p10, p11) <= Blend(p00, p01, p10, p11, fx, fy) <= Max4(p00, p01, p10, p11) + 2
    ensures fx == 0 && fy == 0 ==> Blend(p00, p01, p10, p11, fx, fy) == p00
  {
    var wt := WeightsOf(fx, fy);
    var lo, hi := Min4(p00, p01, p10, p11), Max4(p00, p01, p10, p11);
    AccumulateBounds(p00, p01, p10, p11, wt, lo, hi);
    MulMonotone(256, wt.Sum(), lo);
    MulMonotone(wt.Sum(), 258, hi);
    assert lo * wt.Sum() == wt.Sum() * lo && hi * wt.Sum() == wt.Sum() * hi;
  }

  /** The output sample for the Q8.8 source position (sxq, syq): the
      blend of the four clamped neighbours (iy, ix), (iy, ix+1),
      (iy+1, ix), (iy+1, ix+1). */
  function Interpolate(img: seq<Byte>, w: int, h: int, sxq: int, syq: int): Byte
    requires w >= 1 && h >= 1 && |img| == w * h
  {
    var ix, iy := IntPart(sxq), IntPart(syq);
    Blend(PixGetClamp(img, w, h, iy, ix), PixGetClamp(img, w, h, iy, ix + 1),
          PixGetClamp(img, w, h, iy + 1, ix), PixGetClamp(img, w, h, iy + 1, ix + 1),
          Frac(sxq), Frac(syq))
  }

  /** An interpolated sample lies between the darkest of its four
      neighbours and two levels above the brightest; at an integral source
      position it is the neighbour (iy, ix) itself. */
  lemma InterpolateBounds(img: seq<Byte>, w: int, h: int, sxq: int, syq: int)
    requires w >= 1 && h >= 1 && |img| == w * h
    ensures var ix, iy := IntPart(sxq), IntPart(syq);
      var p00, p01 := PixGetClamp(img, w, h, iy, ix), PixGetClamp(img, w, h, iy, ix + 1);
      var p10, p11 := PixGetClamp(img, w, h, iy + 1, ix), PixGetClamp(img, w, h, iy + 1, ix + 1);
      var r := Interpolate(img, w, h, sxq, syq);
      Min4(p00, p01, p10, p11) <= r <= Max4(p00, p01, p10, p11) + 2
      && (Frac(sxq) == 0 && Frac(syq) == 0 ==> r == p00)
  {
    var ix, iy := IntPart(sxq), IntPart(syq);
    BlendBounds(PixGetClamp(img, w, h, iy, ix), PixGetClamp(img, w, h, iy, ix + 1),
                PixGetClamp(img, w, h, iy + 1, ix), PixGetClamp(img, w, h, iy + 1, ix + 1),
                Frac(sxq), Frac(syq));
  }

  // ---------------------------------------------------------------------
  // The whole resampled image
  // ---------------------------------------------------------------------

  /** Q8.8 source position of output column or row `o` (`o * inv_scale_q`). */
  function SourceQ(o: int, q: int): int { o * q }

  /** The row-major image of `rows` rows of `w` pixels whose pixel
      (y, x) is px(y, x): row 0 first, each row left to right. */
  function Grid(px: (int, int) -> Byte, w: nat, rows: nat): (r: seq<Byte>)
    ensures |r| == w * rows
  {
    if rows == 0 then [] else Grid(px, w, rows - 1) + seq(w, x => px(rows - 1, x))
  }

  /** Pixel (y, x) of a grid sits at index y*w + x. */
  lemma {:induction false} GridAt(px: (int, int) -> Byte, w: nat, h: nat, y: int, x: int)
    requires 0 <= y < h && 0 <= x < w
    ensures 0 <= y * w + x < w * h
    ensures Grid(px, w, h)[y * w + x] == px(y, x)
  {
    GridBound(y, x, w, h);
    if y < h - 1 {
      GridAt(px, w, h - 1, y, x);
    } else {
      assert y * w == w * (h - 1);
    }
  }

  /** The first `rows` rows of the row-major sequence a, w pixels each,
      are those of px. */
  ghost predicate RowsDone(a: seq<Byte>, px: (int, int) -> Byte, w: nat, rows: nat)
  {
    forall y, x :: 0 <= y < rows && 0 <= x < w ==> 0 <= y * w + x < |a| && a[y * w + x] == px(y, x)
  }

  /** Writing row y of px into a, and nothing before it, extends the rows
      of px that a holds from y to y + 1. */
  lemma KeepRows(prev: seq<Byte>, a: seq<Byte>, px: (int, int) -> Byte, w: nat, y: nat)
    requires RowsDone(prev, px, w, y) && |a| == |prev| && y * w + w <= |a|
    requires forall i :: 0 <= i < y * w ==> a[i] == prev[i]
    requires forall x :: 0 <= x < w ==> a[y * w + x] == px(y, x)
    ensures RowsDone(a, px, w, y + 1)
  {
    forall yy, x | 0 <= yy < y + 1 && 0 <= x < w
      ensures 0 <= yy * w + x < |a| && a[yy * w + x] == px(yy, x)
    {
      if yy < y {
        GridBound(yy, x, w, y);
        assert w * y == y * w;
      }
    }
  }

  /** Row y of a sequence that holds the first y + 1 rows of px. */
  lemma RowAt(a: seq<Byte>, px: (int, int) -> Byte, w: nat, h: nat, y: nat)
    requires y < h && |a| == w * h && RowsDone(a, px, w, h)
    ensures y * w + w <= |a| && a[y * w..y * w + w] == seq(w, x => px(y, x))
  {
    NextRow(y, w, h);
    forall x | 0 <= x < w
      ensures a[y * w..y * w + w][x] == px(y, x)
    {
      assert a[y * w + x] == px(y, x);
    }
  }

  /** The first `rows` rows of a sequence that holds all h rows of px are
      the grid of those rows. */
  lemma {:induction false} GridPrefix(a: seq<Byte>, px: (int, int) -> Byte, w: nat, h: nat, rows: nat)
    requires rows <= h && |a| == w * h && RowsDone(a, px, w, h)
    ensures rows * w <= |a| && a[..rows * w] == Grid(px, w, rows)
  {
    if rows > 0 {
      var top := (rows - 1) * w;
      GridPrefix(a, px, w, h, rows - 1);
      RowAt(a, px, w, h, rows - 1);
      assert top + w == rows * w;
      assert a[..rows * w] == a[..top] + a[top..top + w];
    }
  }

  /** A sequence of w*h pixels that holds all h rows of px is their grid. */
  lemma GridFromRows(a: seq<Byte>, px: (int, int) -> Byte, w: nat, h: nat)
    requires |a| == w * h && RowsDone(a, px, w, h)
    ensures a == Grid(px, w, h)
  {
    GridPrefix(a, px, w, h, h);
    assert a[..h * w] == a;
  }

  /** Output pixel (oy, ox): the sample interpolated at the Q8.8 source
      position (ox*q, oy*q). */
  function Sampler(img: seq<Byte>, wIn: int, hIn: int, q: int): (int, int) -> Byte
    requires wIn >= 1 && hIn >= 1 && |img| == wIn * hIn
  {
    (oy, ox) => Interpolate(img, wIn, hIn, SourceQ(ox, q), SourceQ(oy, q))
  }

  /** px is the sampler of img at inverse scale q.  The equation for a
      pixel is used only where the interpolated sample of that pixel is
      in view, so code that merely moves pixels around never unfolds the
      interpolation. */
  ghost predicate Samples(px: (int, int) -> Byte, img: seq<Byte>, wIn: int, hIn: int, q: int)
    requires wIn >= 1 && hIn >= 1 && |img| == wIn * hIn
  {
    forall oy: int, ox: int {:trigger Interpolate(img, wIn, hIn, SourceQ(ox, q), SourceQ(oy, q))} ::
      px(oy, ox) == Interpolate(img, wIn, hIn, SourceQ(ox, q), SourceQ(oy, q))
  }

  lemma SamplerSamples(img: seq<Byte>, wIn: int, hIn: int, q: int)
    requires wIn >= 1 && hIn >= 1 && |img| == wIn * hIn
    ensures Samples(Sampler(img, wIn, hIn, q), img, wIn, hIn, q)
  {
  }

  /** The image both resamplers produce: hOut rows of wOut output pixels,
      row-major. */
  function Resample(img: seq<Byte>, wIn: int, hIn: int, wOut: nat, hOut: nat, q: int): (r: seq<Byte>)
    requires wIn >= 1 && hIn >= 1 && |img| == wIn * hIn
    ensures |r| == wOut * hOut
  {
    Grid(Sampler(img, wIn, hIn, q), wOut, hOut)
  }

  /** Pixel (ox, oy) of the resampled image sits at index oy*wOut + ox and
      is interpolated at (ox*q, oy*q). */
  lemma ResampleAt(img: seq<Byte>, wIn: int, hIn: int, wOut: nat, hOut: nat, q: int, oy: int, ox: int)
    requires wIn >= 1 && hIn >= 1 && |img| == wIn * hIn
    requires 0 <= oy < hOut && 0 <= ox < wOut
    ensures |Resample(img, wIn, hIn, wOut, hOut, q)| == wOut * hOut
    ensures 0 <= oy * wOut + ox < wOut * hOut
    ensures Resample(img, wIn, hIn, wOut, hOut, q)[oy * wOut + ox]
         == Interpolate(img, wIn, hIn, SourceQ(ox, q), SourceQ(oy, q))
  {
    GridAt(Sampler(img, wIn, hIn, q), wOut, hOut, oy, ox);
  }

  /** A sampler of img at inverse scale 256 reproduces the first `rows`
      rows of img. */
  lemma {:induction false} IdentityRows(img: seq<Byte>, px: (int, int) -> Byte, w: nat, h: nat, rows: nat)
    requires w >= 1 && h >= 1 && |img| == w * h && Samples(px, img, w, h, 256)
    requires rows <= h
    ensures RowsDone(img, px, w, rows)
  {
    if rows > 0 {
      var y := rows - 1;
      IdentityRows(img, px, w, h, y);
      NextRow(y, w, h);
      forall x | 0 <= x < w
        ensures img[y * w + x] == px(y, x)
      {
        IdentityAt(img, px, w, h, y, x);
      }
      KeepRows(img, img, px, w, y);
    }
  }

  /** ... and, pixel by pixel, img's own sample at (y, x). */
  lemma IdentityAt(img: seq<Byte>, px: (int, int) -> Byte, w: int, h: int, y: int, x: int)
    requires w >= 1 && h >= 1 && |img| == w * h && Samples(px, img, w, h, 256)
    requires 0 <= y < h && 0 <= x < w
    ensures 0 <= y * w + x < |img| && img[y * w + x] == px(y, x)
  {
    InterpolateAtGrid(img, w, h, y, x);
  }

  /** At an integral source position the interpolated sample is the
      input sample there: the weights are (256, 0, 0, 0). */
  lemma InterpolateAtGrid(img: seq<Byte>, w: int, h: int, y: int, x: int)
    requires w >= 1 && h >= 1 && |img| == w * h
    requires 0 <= y < h && 0 <= x < w
    ensures 0 <= y * w + x < w * h
    ensures Interpolate(img, w, h, SourceQ(x, 256), SourceQ(y, 256)) == img[y * w + x]
  {
    RowMajor(y, x, w, h);
    InterpolateBounds(img, w, h, SourceQ(x, 256), SourceQ(y, 256));
    assert Frac(SourceQ(x, 256)) == 0 && IntPart(SourceQ(x, 256)) == x;
    assert Frac(SourceQ(y, 256)) == 0 && IntPart(SourceQ(y, 256)) == y;
    PixGetClampEdges(img, w, h, y, x);
  }

  /** At scale 1 (inverse scale 256 and the same dimensions) every source
      position is integral, so the resampled image is the input. */
  lemma ResampleIdentity(img: seq<Byte>, w: int, h: int)
    requires w >= 1 && h >= 1 && |img| == w * h
    ensures Resample(img, w, h, w, h, 256) == img
  {
    var px := Sampler(img, w, h, 256);
    SamplerSamples(img, w, h, 256);
    IdentityRows(img, px, w, h, h);
    GridFromRows(img, px, w, h);
  }

  /** At an integral inverse scale q = 256*k (a downscale by the whole
      factor k) every output pixel lands exactly on an input pixel, so
      output pixel (ox, oy) copies input pixel (k*ox, k*oy). */
  lemma IntegralStep(img: seq<Byte>, wIn: int, hIn: int, wOut: nat, hOut: nat, k: nat, oy: int, ox: int)
    requires wIn >= 1 && hIn >= 1 && |img| == wIn * hIn
    requires 0 <= oy < hOut && 0 <= ox < wOut
    requires k * oy < hIn && k * ox < wIn
    ensures 0 <= oy * wOut + ox < wOut * hOut
    ensures 0 <= (k * oy) * wIn + k * ox < |img|
    ensures Resample(img, wIn, hIn, wOut, hOut, 256 * k)[oy * wOut + ox] == img[(k * oy) * wIn + k * ox]
  {
    ResampleAt(img, wIn, hIn, wOut, hOut, 256 * k, oy, ox);
    MulMonotone(0, k, ox);
    MulMonotone(0, k, oy);
    InterpolateAtGrid(img, wIn, hIn, k * oy, k * ox);
    ScaleStep(ox, k);
    ScaleStep(oy, k);
  }

  /** Source position of `o` at inverse scale 256*k is that of k*o at 256. */
  lemma ScaleStep(o: int, k: int)
    ensures SourceQ(o, 256 * k) == SourceQ(k * o, 256)
  {
    calc {
      o * (256 * k);
      (o * k) * 256;
      (k * o) * 256;
    }
  }
  /** Scale 1/2: each output side is half the input side, rounded down
      and at least 1, and the inverse scale is exactly 2.0 (512 in Q8.8), so
      `IntegralStep` with k = 2 applies: output pixel (oy, ox) copies input
      pixel (2*oy, 2*ox). */
  lemma HalfScale(wIn: int, hIn: int)
    ensures OutDims(wIn, hIn, 1, 2) == (Max(1, wIn / 2), Max(1, hIn / 2))
    ensures InvScaleQ(1, 2) == 256 * 2
    ensures forall o :: 0 <= o < Max(1, hIn / 2) && hIn >= 1 ==> 2 * o < hIn
  {
  }
}
