/**
 * Forward conversion of an interleaved 8-bit RGB/BGR/RGBA/BGRA image to a
 * bi-planar NV image (a luma plane and one interleaved U/V plane): the scalar
 * path of `rgbx_to_nv`.
 *
 * Luma is computed for every pixel the row tail visits on a chroma row and
 * for the second pixel of every pair on the other rows; chroma is computed
 * per pixel (4:4:4) or from the rounded average of a horizontal pixel pair
 * (4:2:2, 4:2:0), and in 4:2:0 only on even rows. The integer coefficients
 * of the forward transform at precision 8 are parameters.
 */
module RgbaToNv {
  import opened Numerics
  import opened Wrappers
  import opened YuvSupport
  import opened Planes

  /** The forward transform quantised at precision 8. */
  datatype ForwardTransform = ForwardTransform(
    yr: int, yg: int, yb: int,
    cbR: int, cbG: int, cbB: int,
    crR: int, crG: int, crB: int)

  /** The const-generic choices and the per-call parameters of one conversion. */
  datatype NvForward = NvForward(
    channels: YuvSourceChannels,
    order: YuvNVOrder,
    sampling: YuvChromaSample,
    range: YuvRange,
    t: ForwardTransform)

  /** Strides and size of one image; all strides are in bytes. */
  datatype NvFrame = NvFrame(
    yStride: nat,
    uvStride: nat,
    rgbaStride: nat,
    width: nat,
    height: nat)

  // ------------------------------------------------------------ pixel math

  /** `(c0 + c1 + 1) >> 1`, the horizontal box filter of a pixel pair (the
      operands are non-negative, so the shift is a division by 2): the result
      lies between the two samples and rounds halves up. */
  function Average(c0: int, c1: int): (a: int)
    ensures (if c0 <= c1 then c0 else c1) <= a <= (if c0 <= c1 then c1 else c0)
    ensures 2 * a == c0 + c1 || 2 * a == c0 + c1 + 1
  {
    (c0 + c1 + 1) / 2
  }

  function AveragePixel(p: Colour, q: Colour): Colour
  {
    Colour(Average(p.r, q.r), Average(p.g, q.g), Average(p.b, q.b))
  }

  /** The 8-bit range the kernel works with (equal to `get_yuv_range(8, range)`
      by `Range8IsDepth8`). */
  function Range8(range: YuvRange): YuvChromaRange
  {
    if range == TV then YuvChromaRange(16, 128, 219, 224, TV) else YuvChromaRange(0, 128, 255, 255, Full)
  }

  lemma Range8IsDepth8(range: YuvRange)
    ensures Range8(range) == GetYuvRange(8, range)
  {
    RangesAt8();
  }

  /** Luma of one pixel, clamped to [bias_y, bias_y + range_y] of the 8-bit
      range; the `>> 8` of the rounded accumulator floors, as `/ 256` does. */
  function LumaOf(p: Colour, c: NvForward): u8
  {
    var cr := Range8(c.range);
    Clamp((p.r * c.t.yr + p.g * c.t.yg + p.b * c.t.yb + cr.biasY * 256 + 128) / 256,
          cr.biasY, cr.biasY + cr.rangeY) as u8
  }

  /** Cb of one pixel or pair average; the lower clamp is bias_y, not 0. */
  function CbOf(p: Colour, c: NvForward): u8
  {
    var cr := Range8(c.range);
    Clamp((p.r * c.t.cbR + p.g * c.t.cbG + p.b * c.t.cbB + cr.biasUV * 256 + 128) / 256,
          cr.biasY, cr.biasY + cr.rangeUV) as u8
  }

  /** Cr of one pixel or pair average; the lower clamp is bias_y, not 0. */
  function CrOf(p: Colour, c: NvForward): u8
  {
    var cr := Range8(c.range);
    Clamp((p.r * c.t.crR + p.g * c.t.crG + p.b * c.t.crB + cr.biasUV * 256 + 128) / 256,
          cr.biasY, cr.biasY + cr.rangeUV) as u8
  }

  /** Luma never leaves [bias_y, bias_y + range_y] and chroma never leaves
      [bias_y, bias_y + range_uv], so at 8 bits every output fits a byte. */
  lemma PixelMathBounds(p: Colour, c: NvForward)
    ensures c.range == TV ==> 16 <= LumaOf(p, c) <= 235 && 16 <= CbOf(p, c) <= 240 && 16 <= CrOf(p, c) <= 240
    ensures c.range == Full ==> 0 <= LumaOf(p, c) <= 255 && 0 <= CbOf(p, c) <= 255 && 0 <= CrOf(p, c) <= 255
  {
    RangesAt8();
  }

  /** A grey pixel maps to the neutral chroma value bias_uv (128) whenever
      each row of chroma coefficients sums to zero, whatever its level. */
  lemma GreyHasNeutralChroma(k: int, c: NvForward)
    requires c.t.cbR + c.t.cbG + c.t.cbB == 0
    requires c.t.crR + c.t.crG + c.t.crB == 0
    ensures CbOf(Colour(k, k, k), c) == 128 && CrOf(Colour(k, k, k), c) == 128
  {
    RangesAt8();
    assert Pow2(8) == 256;
    assert k * c.t.cbR + k * c.t.cbG + k * c.t.cbB == k * (c.t.cbR + c.t.cbG + c.t.cbB) == 0;
    assert k * c.t.crR + k * c.t.crG + k * c.t.crB == k * (c.t.crR + c.t.crG + c.t.crB) == 0;
    DivModOf(128, 128, 256);
  }

  // ------------------------------------------------------- reading a pixel

  /** A row of `width` pixels of `ch` bytes starting at `offset` is inside `rgba`. */
  predicate RowFits(rgba: seq<u8>, offset: nat, width: nat, ch: nat)
  {
    offset + Offset(width, ch) <= |rgba|
  }

  lemma PixelFits(rgba: seq<u8>, offset: nat, width: nat, ch: nat, x: nat)
    requires RowFits(rgba, offset, width, ch) && x < width
    ensures offset + Offset(x, ch) + ch <= |rgba|
  {
    OffsetMonotone(x, width, ch);
  }

  /** Pixel `x` of the row at `offset`, its channels taken at the layout's
      offsets (black past the end of the buffer, where the kernel never reads). */
  function PixelAt(rgba: seq<u8>, offset: nat, x: nat, ch: YuvSourceChannels): Colour
  {
    var px := offset + Offset(x, ch.ChannelsCount());
    if px + ch.ChannelsCount() <= |rgba|
    then Colour(rgba[px + ch.ROffset()] as int, rgba[px + ch.GOffset()] as int, rgba[px + ch.BOffset()] as int)
    else Colour(0, 0, 0)
  }

  /** The second pixel of the pair that starts at `x`: the next pixel in
      4:2:2/4:2:0 when there is one, otherwise the pixel itself. */
  function PairMate(x: nat, width: nat, s: YuvChromaSample): nat
  {
    if s != YUV444 && x + 1 < width then x + 1 else x
  }

  /** The colour that feeds the chroma of the pair starting at `x`. */
  function PairColour(rgba: seq<u8>, offset: nat, width: nat, x: nat, c: NvForward): Colour
  {
    if c.sampling == YUV444 then PixelAt(rgba, offset, x, c.channels)
    else AveragePixel(PixelAt(rgba, offset, x, c.channels), PixelAt(rgba, offset, PairMate(x, width, c.sampling), c.channels))
  }

  // ------------------------------------------------------------- row tail

  /** The luma of every pixel of a source row. */
  function RowLumas(rgba: seq<u8>, offset: nat, width: nat, c: NvForward): (l: seq<u8>)
    ensures |l| == width
  {
    seq(width, x requires 0 <= x => LumaOf(PixelAt(rgba, offset, x, c.channels), c))
  }

  /** The Cb of the pair that starts at every column of a source row. */
  function RowCbs(rgba: seq<u8>, offset: nat, width: nat, c: NvForward): (l: seq<u8>)
    ensures |l| == width
  {
    seq(width, x requires 0 <= x => CbOf(PairColour(rgba, offset, width, x, c), c))
  }

  /** The Cr of the pair that starts at every column of a source row. */
  function RowCrs(rgba: seq<u8>, offset: nat, width: nat, c: NvForward): (l: seq<u8>)
    ensures |l| == width
  {
    seq(width, x requires 0 <= x => CrOf(PairColour(rgba, offset, width, x, c), c))
  }

  /** The luma stores of the iteration at column `x` of a row whose pixels
      have the lumas `lumas`: the second pixel of the pair first (4:2:2 and
      4:2:0, when it exists), then the pixel itself on a chroma row. */
  function LumaStep(ys: seq<u8>, yOffset: nat, lumas: seq<u8>, s: YuvChromaSample, computeUV: bool, x: nat): (r: seq<u8>)
    ensures |r| == |ys|
  {
    var second := if s != YUV444 && x + 1 < |lumas| then Store(ys, yOffset + x + 1, lumas[x + 1]) else ys;
    if computeUV && x < |lumas| then Store(second, yOffset + x, lumas[x]) else second
  }

  /** The luma plane after the first `n` iterations of a row tail from `cx0`. */
  function LumaTail(ys: seq<u8>, yOffset: nat, lumas: seq<u8>, s: YuvChromaSample, computeUV: bool,
                    cx0: nat, n: nat): (r: seq<u8>)
    ensures |r| == |ys|
  {
    if n == 0 then ys
    else
      LumaStep(LumaTail(ys, yOffset, lumas, s, computeUV, cx0, n - 1), yOffset, lumas, s, computeUV, ColumnOf(cx0, n - 1, s))
  }

  /** The chroma stores of the iteration at column `x`, at chroma byte
      `uvPos`: the pair's Cb at the order's u_position and its Cr at its
      v_position. */
  function ChromaStep(uvs: seq<u8>, uvPos: nat, cbs: seq<u8>, crs: seq<u8>, order: YuvNVOrder, x: nat): (r: seq<u8>)
    ensures |r| == |uvs|
  {
    if x < |cbs| && x < |crs|
    then Store(Store(uvs, uvPos + order.UPosition(), cbs[x]), uvPos + order.VPosition(), crs[x])
    else uvs
  }

  /** The chroma plane after the first `n` iterations of a chroma row tail
      whose first pair lands at byte `uvBase`; iteration k writes at uvBase + 2k. */
  function ChromaTail(uvs: seq<u8>, uvBase: nat, cbs: seq<u8>, crs: seq<u8>, order: YuvNVOrder, s: YuvChromaSample,
                      cx0: nat, n: nat): (r: seq<u8>)
    ensures |r| == |uvs|
  {
    if n == 0 then uvs
    else
      ChromaStep(ChromaTail(uvs, uvBase, cbs, crs, order, s, cx0, n - 1), uvBase + 2 * (n - 1), cbs, crs, order,
                 ColumnOf(cx0, n - 1, s))
  }

  lemma {:induction false} LumaTailNext(ys: seq<u8>, yOffset: nat, lumas: seq<u8>, s: YuvChromaSample, computeUV: bool, cx0: nat, n: nat)
    ensures LumaTail(ys, yOffset, lumas, s, computeUV, cx0, n + 1) ==
      LumaStep(LumaTail(ys, yOffset, lumas, s, computeUV, cx0, n), yOffset, lumas, s, computeUV, ColumnOf(cx0, n, s))
  {
  }

  lemma {:induction false} ChromaTailNext(uvs: seq<u8>, uvBase: nat, cbs: seq<u8>, crs: seq<u8>, order: YuvNVOrder, s: YuvChromaSample,
                       cx0: nat, n: nat)
    ensures ChromaTail(uvs, uvBase, cbs, crs, order, s, cx0, n + 1) ==
      ChromaStep(ChromaTail(uvs, uvBase, cbs, crs, order, s, cx0, n), uvBase + 2 * n, cbs, crs, order, ColumnOf(cx0, n, s))
  {
  }

  /** The luma columns a row tail writes: from its start column on, the
      second pixel of every pair always, the others only on a chroma row. */
  predicate LumaWritten(s: YuvChromaSample, x: nat, cx0: nat, width: nat, computeUV: bool)
  {
    cx0 <= x < width && (computeUV || (s != YUV444 && (x - cx0) % 2 == 1))
  }

  /** After `n` iterations, the columns before the tail's current column hold
      their pixel's luma where `LumaWritten` says so, and everything else
      holds its old value. */
  lemma {:induction false} LumaTailPrefix(ys: seq<u8>, yOffset: nat, lumas: seq<u8>, s: YuvChromaSample, computeUV: bool,
                                          cx0: nat, n: nat, i: nat)
    requires n <= Iterations(cx0, |lumas|, s) && i < |ys|
    ensures LumaTail(ys, yOffset, lumas, s, computeUV, cx0, n)[i] ==
      if yOffset <= i && LumaWritten(s, i - yOffset, cx0, Min(ColumnOf(cx0, n, s), |lumas|), computeUV)
      then lumas[i - yOffset] else ys[i]
  {
    if n > 0 {
      var k := n - 1;
      var x := ColumnOf(cx0, k, s);
      IterationColumns(cx0, |lumas|, s, k);
      LumaTailPrefix(ys, yOffset, lumas, s, computeUV, cx0, k, i);
      assert LumaTail(ys, yOffset, lumas, s, computeUV, cx0, n) ==
        LumaStep(LumaTail(ys, yOffset, lumas, s, computeUV, cx0, k), yOffset, lumas, s, computeUV, x);
      LumaStepAt(LumaTail(ys, yOffset, lumas, s, computeUV, cx0, k), yOffset, lumas, s, computeUV, x, i);
      if s != YUV444 {
        assert (x - cx0) % 2 == 0 && (x + 1 - cx0) % 2 == 1;
      }
    }
  }

  /** One iteration's luma stores set the pair's second pixel (4:2:2 and
      4:2:0, when it exists) and, on a chroma row, the pixel itself. */
  lemma LumaStepAt(ys: seq<u8>, yOffset: nat, lumas: seq<u8>, s: YuvChromaSample, computeUV: bool, x: nat, i: nat)
    requires i < |ys|
    ensures LumaStep(ys, yOffset, lumas, s, computeUV, x)[i] ==
      if computeUV && x < |lumas| && i == yOffset + x then lumas[x]
      else if s != YUV444 && x + 1 < |lumas| && i == yOffset + x + 1 then lumas[x + 1]
      else ys[i]
  {
  }

  /** A whole row tail: column x of the row holds the luma of pixel x exactly
      where `LumaWritten` says so; every other byte of the plane is unchanged. */
  lemma LumaTailAt(ys: seq<u8>, yOffset: nat, lumas: seq<u8>, s: YuvChromaSample, computeUV: bool, cx0: nat, i: nat)
    requires cx0 <= |lumas| && i < |ys|
    ensures LumaTail(ys, yOffset, lumas, s, computeUV, cx0, Iterations(cx0, |lumas|, s))[i] ==
      if yOffset <= i && LumaWritten(s, i - yOffset, cx0, |lumas|, computeUV) then lumas[i - yOffset] else ys[i]
  {
    IterationColumns(cx0, |lumas|, s, 0);
    LumaTailPrefix(ys, yOffset, lumas, s, computeUV, cx0, Iterations(cx0, |lumas|, s), i);
  }

  /** One chroma store sets the pair's two bytes and nothing else. */
  lemma ChromaStepAt(uvs: seq<u8>, uvPos: nat, cbs: seq<u8>, crs: seq<u8>, order: YuvNVOrder, x: nat, i: nat)
    requires x < |cbs| && x < |crs| && uvPos + 2 <= |uvs| && i < |uvs|
    ensures ChromaStep(uvs, uvPos, cbs, crs, order, x)[i] ==
      if i == uvPos + order.UPosition() then cbs[x]
      else if i == uvPos + order.VPosition() then crs[x]
      else uvs[i]
  {
    NvPositions(order);
  }

  /** A chroma store leaves every byte before its pair as it was. */
  lemma ChromaStepBelow(uvs: seq<u8>, uvPos: nat, cbs: seq<u8>, crs: seq<u8>, order: YuvNVOrder, x: nat, i: nat)
    requires i < uvPos && i < |uvs|
    ensures ChromaStep(uvs, uvPos, cbs, crs, order, x)[i] == uvs[i]
  {
  }

  /** Iterations from `m` on store at or after uvBase + 2m, so the bytes
      before it are as the first `m` iterations left them. */
  lemma {:induction false} ChromaTailLater(uvs: seq<u8>, uvBase: nat, cbs: seq<u8>, crs: seq<u8>, order: YuvNVOrder,
                                           s: YuvChromaSample, cx0: nat, n: nat, m: nat, i: nat)
    requires m <= n && i < uvBase + 2 * m && i < |uvs|
    ensures ChromaTail(uvs, uvBase, cbs, crs, order, s, cx0, n)[i] == ChromaTail(uvs, uvBase, cbs, crs, order, s, cx0, m)[i]
  {
    if m < n {
      ChromaTailLater(uvs, uvBase, cbs, crs, order, s, cx0, n - 1, m, i);
      ChromaStepBelow(ChromaTail(uvs, uvBase, cbs, crs, order, s, cx0, n - 1), uvBase + 2 * (n - 1), cbs, crs, order,
                      ColumnOf(cx0, n - 1, s), i);
    }
  }

  /** After `n` iterations of a chroma row tail, every iteration k < n whose
      column lies inside the row has put the Cb and the Cr of its pair at
      bytes uvBase + 2k + u_position and uvBase + 2k + v_position. */
  lemma {:induction false} ChromaTailPair(uvs: seq<u8>, uvBase: nat, cbs: seq<u8>, crs: seq<u8>, order: YuvNVOrder,
                       s: YuvChromaSample, cx0: nat, n: nat, k: nat)
    requires |crs| == |cbs| && k < n && ColumnOf(cx0, k, s) < |cbs| && uvBase + 2 * n <= |uvs|
    ensures ChromaTail(uvs, uvBase, cbs, crs, order, s, cx0, n)[uvBase + 2 * k + order.UPosition()] == cbs[ColumnOf(cx0, k, s)]
    ensures ChromaTail(uvs, uvBase, cbs, crs, order, s, cx0, n)[uvBase + 2 * k + order.VPosition()] == crs[ColumnOf(cx0, k, s)]
  {
    NvPositions(order);
    ChromaTailPairByte(uvs, uvBase, cbs, crs, order, s, cx0, n, k, uvBase + 2 * k + order.UPosition());
    ChromaTailPairByte(uvs, uvBase, cbs, crs, order, s, cx0, n, k, uvBase + 2 * k + order.VPosition());
  }

  /** A byte of iteration k's pair keeps, after `n` iterations, what
      iteration k stored there. */
  lemma {:induction false} ChromaTailPairByte(uvs: seq<u8>, uvBase: nat, cbs: seq<u8>, crs: seq<u8>, order: YuvNVOrder,
                                              s: YuvChromaSample, cx0: nat, n: nat, k: nat, i: nat)
    requires |crs| == |cbs| && k < n && ColumnOf(cx0, k, s) < |cbs| && uvBase + 2 * n <= |uvs|
    requires uvBase + 2 * k <= i < uvBase + 2 * k + 2
    ensures ChromaTail(uvs, uvBase, cbs, crs, order, s, cx0, n)[i] ==
      if i == uvBase + 2 * k + order.UPosition() then cbs[ColumnOf(cx0, k, s)]
      else if i == uvBase + 2 * k + order.VPosition() then crs[ColumnOf(cx0, k, s)]
      else ChromaTail(uvs, uvBase, cbs, crs, order, s, cx0, k)[i]
  {
    ChromaTailLater(uvs, uvBase, cbs, crs, order, s, cx0, n, k + 1, i);
    ChromaTailStepAt(uvs, uvBase, cbs, crs, order, s, cx0, k, i);
  }

  /** Iteration `k` of a chroma row tail sets the two bytes of its pair and
      leaves every other byte as the first `k` iterations left it. */
  lemma {:induction false} ChromaTailStepAt(uvs: seq<u8>, uvBase: nat, cbs: seq<u8>, crs: seq<u8>, order: YuvNVOrder,
                         s: YuvChromaSample, cx0: nat, k: nat, i: nat)
    requires ColumnOf(cx0, k, s) < |cbs| == |crs| && uvBase + 2 * k + 2 <= |uvs| && i < |uvs|
    ensures ChromaTail(uvs, uvBase, cbs, crs, order, s, cx0, k + 1)[i] ==
      if i == uvBase + 2 * k + order.UPosition() then cbs[ColumnOf(cx0, k, s)]
      else if i == uvBase + 2 * k + order.VPosition() then crs[ColumnOf(cx0, k, s)]
      else ChromaTail(uvs, uvBase, cbs, crs, order, s, cx0, k)[i]
  {
    ChromaTailNext(uvs, uvBase, cbs, crs, order, s, cx0, k);
    ChromaStepAt(ChromaTail(uvs, uvBase, cbs, crs, order, s, cx0, k), uvBase + 2 * k, cbs, crs, order, ColumnOf(cx0, k, s), i);
  }

  /** A chroma row tail of `n` iterations leaves every byte outside
      [uvBase, uvBase + 2n) unchanged. */
  lemma {:induction false} ChromaTailOutside(uvs: seq<u8>, uvBase: nat, cbs: seq<u8>, crs: seq<u8>, order: YuvNVOrder,
                                             s: YuvChromaSample, cx0: nat, n: nat, i: nat)
    requires i < |uvs| && (i < uvBase || uvBase + 2 * n <= i)
    ensures ChromaTail(uvs, uvBase, cbs, crs, order, s, cx0, n)[i] == uvs[i]
  {
    if n > 0 {
      NvPositions(order);
      ChromaTailOutside(uvs, uvBase, cbs, crs, order, s, cx0, n - 1, i);
    }
  }

  /** One iteration of the row tail at column `x` with its chroma pair at
      byte `uvPos`: its stores are exactly `LumaStep` and, on a chroma row,
      `ChromaStep`, over the row's lumas and chroma. */
  method RgbxToNvStep(yPlane: array<u8>, yOffset: nat, uvPlane: array<u8>, uvPos: nat,
                      rgba: seq<u8>, rgbaOffset: nat, width: nat, c: NvForward,
                      computeUV: bool, x: nat)
    requires yPlane != uvPlane
    requires yOffset + width <= yPlane.Length
    requires RowFits(rgba, rgbaOffset, width, c.channels.ChannelsCount()) && x < width
    requires computeUV ==> uvPos + 2 <= uvPlane.Length
    modifies yPlane, uvPlane
    ensures yPlane[..] == LumaStep(old(yPlane[..]), yOffset, RowLumas(rgba, rgbaOffset, width, c), c.sampling, computeUV, x)
    ensures computeUV ==>
      uvPlane[..] == ChromaStep(old(uvPlane[..]), uvPos, RowCbs(rgba, rgbaOffset, width, c), RowCrs(rgba, rgbaOffset, width, c), c.order, x)
    ensures !computeUV ==> uvPlane[..] == old(uvPlane[..])
  {
    var p0 := LoadPixel(rgba, rgbaOffset, width, x, c.channels);
    var p1 := PairSecondLuma(yPlane, yOffset, rgba, rgbaOffset, width, c, x, p0);
    if computeUV {
      var p := if c.sampling == YUV444 then p0 else AveragePixel(p0, p1);
      assert p == PairColour(rgba, rgbaOffset, width, x, c);
      ChromaStores(yPlane, yOffset, uvPlane, uvPos, rgba, rgbaOffset, width, c, x, p0, p);
    }
  }

  /** The luma store of the pair's second pixel (4:2:2 and 4:2:0, when the
      row has a pixel after `x`); returns the pair's second pixel. */
  method PairSecondLuma(yPlane: array<u8>, yOffset: nat, rgba: seq<u8>, rgbaOffset: nat, width: nat, c: NvForward,
                        x: nat, p0: Colour) returns (p1: Colour)
    requires yOffset + width <= yPlane.Length
    requires RowFits(rgba, rgbaOffset, width, c.channels.ChannelsCount()) && x < width
    requires p0 == PixelAt(rgba, rgbaOffset, x, c.channels)
    modifies yPlane
    ensures p1 == PixelAt(rgba, rgbaOffset, PairMate(x, width, c.sampling), c.channels)
    ensures yPlane[..] ==
      if c.sampling != YUV444 && x + 1 < width
      then Store(old(yPlane[..]), yOffset + x + 1, RowLumas(rgba, rgbaOffset, width, c)[x + 1])
      else old(yPlane[..])
  {
    p1 := p0;
    if c.sampling != YUV444 && x + 1 < width {
      ghost var y0 := yPlane[..];
      p1 := LoadPixel(rgba, rgbaOffset, width, x + 1, c.channels);
      yPlane[yOffset + x + 1] := LumaOf(p1, c);
      assert yPlane[..] == Store(y0, yOffset + x + 1, RowLumas(rgba, rgbaOffset, width, c)[x + 1]);
    }
  }

  /** The stores of a chroma row's iteration: luma of the pixel itself, then
      the pair's Cb and Cr at the order's two positions. */
  method ChromaStores(yPlane: array<u8>, yOffset: nat, uvPlane: array<u8>, uvPos: nat,
                      rgba: seq<u8>, rgbaOffset: nat, width: nat, c: NvForward, x: nat, p0: Colour, p: Colour)
    requires yPlane != uvPlane
    requires yOffset + width <= yPlane.Length && uvPos + 2 <= uvPlane.Length
    requires RowFits(rgba, rgbaOffset, width, c.channels.ChannelsCount()) && x < width
    requires p0 == PixelAt(rgba, rgbaOffset, x, c.channels) && p == PairColour(rgba, rgbaOffset, width, x, c)
    modifies yPlane, uvPlane
    ensures yPlane[..] == Store(old(yPlane[..]), yOffset + x, RowLumas(rgba, rgbaOffset, width, c)[x])
    ensures uvPlane[..] ==
      ChromaStep(old(uvPlane[..]), uvPos, RowCbs(rgba, rgbaOffset, width, c), RowCrs(rgba, rgbaOffset, width, c), c.order, x)
  {
    NvPositions(c.order);
    ghost var uv0 := uvPlane[..];
    yPlane[yOffset + x] := LumaOf(p0, c);
    uvPlane[uvPos + c.order.UPosition()] := CbOf(p, c);
    ghost var uv1 := uvPlane[..];
    assert uv1 == Store(uv0, uvPos + c.order.UPosition(), CbOf(p, c));
    uvPlane[uvPos + c.order.VPosition()] := CrOf(p, c);
    assert uvPlane[..] == Store(uv1, uvPos + c.order.VPosition(), CrOf(p, c));
  }

  /** Reads the R, G and B bytes of pixel `x` at the layout's channel offsets. */
  method LoadPixel(rgba: seq<u8>, rgbaOffset: nat, width: nat, x: nat, ch: YuvSourceChannels) returns (p: Colour)
    requires RowFits(rgba, rgbaOffset, width, ch.ChannelsCount()) && x < width
    ensures p == PixelAt(rgba, rgbaOffset, x, ch)
  {
    ChannelLayout(ch);
    PixelFits(rgba, rgbaOffset, width, ch.ChannelsCount(), x);
    OffsetIsProduct(x, ch.ChannelsCount());
    var px := rgbaOffset + x * ch.ChannelsCount();
    p := Colour(rgba[px + ch.ROffset()] as int, rgba[px + ch.GOffset()] as int, rgba[px + ch.BOffset()] as int);
  }

  /** The scalar tail of one row, from column `cx0` and chroma byte `ux0` on
      (the columns before are the vector prefix's). */
  method RgbxToNvRow(yPlane: array<u8>, yOffset: nat, uvPlane: array<u8>, uvOffset: nat,
                     rgba: seq<u8>, rgbaOffset: nat, width: nat, c: NvForward,
                     cx0: nat, ux0: nat, computeUV: bool)
    requires yPlane != uvPlane
    requires yOffset + width <= yPlane.Length
    requires RowFits(rgba, rgbaOffset, width, c.channels.ChannelsCount())
    requires computeUV ==> uvOffset + ux0 + 2 * Iterations(cx0, width, c.sampling) <= uvPlane.Length
    modifies yPlane, uvPlane
    ensures yPlane[..] == LumaTail(old(yPlane[..]), yOffset, RowLumas(rgba, rgbaOffset, width, c), c.sampling, computeUV,
                                   cx0, Iterations(cx0, width, c.sampling))
    ensures computeUV ==>
      uvPlane[..] == ChromaTail(old(uvPlane[..]), uvOffset + ux0, RowCbs(rgba, rgbaOffset, width, c), RowCrs(rgba, rgbaOffset, width, c),
                                c.order, c.sampling, cx0, Iterations(cx0, width, c.sampling))
    ensures !computeUV ==> uvPlane[..] == old(uvPlane[..])
  {
    var step := ColumnStep(c.sampling);
    ghost var lumas, cbs, crs := RowLumas(rgba, rgbaOffset, width, c), RowCbs(rgba, rgbaOffset, width, c), RowCrs(rgba, rgbaOffset, width, c);
    ghost var y0, uv0 := yPlane[..], uvPlane[..];
    var x := cx0;
    var ux := ux0;
    ghost var k := 0;
    while x < width
      invariant x == ColumnOf(cx0, k, c.sampling) && ux == ux0 + 2 * k
      invariant k <= Iterations(cx0, width, c.sampling)
      invariant yPlane[..] == LumaTail(y0, yOffset, lumas, c.sampling, computeUV, cx0, k)
      invariant computeUV ==> uvPlane[..] == ChromaTail(uv0, uvOffset + ux0, cbs, crs, c.order, c.sampling, cx0, k)
      invariant !computeUV ==> uvPlane[..] == uv0
    {
      IterationColumns(cx0, width, c.sampling, k);
      LumaTailNext(y0, yOffset, lumas, c.sampling, computeUV, cx0, k);
      ChromaTailNext(uv0, uvOffset + ux0, cbs, crs, c.order, c.sampling, cx0, k);
      assert uvOffset + ux == uvOffset + ux0 + 2 * k;
      RgbxToNvStep(yPlane, yOffset, uvPlane, uvOffset + ux, rgba, rgbaOffset, width, c, computeUV, x);
      ux := ux + 2;
      x := x + step;
      k := k + 1;
    }
    IterationColumns(cx0, width, c.sampling, k);
    assert k == Iterations(cx0, width, c.sampling);
  }

  /** The iteration at column `x` as the vector rows do it: the pixel's own
      luma is stored on every row, and only the chroma waits for a chroma row. */
  method RgbxToNvStepCorrected(yPlane: array<u8>, yOffset: nat, uvPlane: array<u8>, uvPos: nat,
                               rgba: seq<u8>, rgbaOffset: nat, width: nat, c: NvForward,
                               computeUV: bool, x: nat)
    requires yPlane != uvPlane
    requires yOffset + width <= yPlane.Length
    requires RowFits(rgba, rgbaOffset, width, c.channels.ChannelsCount()) && x < width
    requires computeUV ==> uvPos + 2 <= uvPlane.Length
    modifies yPlane, uvPlane
    ensures yPlane[..] == LumaStep(old(yPlane[..]), yOffset, RowLumas(rgba, rgbaOffset, width, c), c.sampling, true, x)
    ensures computeUV ==>
      uvPlane[..] == ChromaStep(old(uvPlane[..]), uvPos, RowCbs(rgba, rgbaOffset, width, c), RowCrs(rgba, rgbaOffset, width, c), c.order, x)
    ensures !computeUV ==> uvPlane[..] == old(uvPlane[..])
  {
    var p0 := LoadPixel(rgba, rgbaOffset, width, x, c.channels);
    var p1 := PairSecondLuma(yPlane, yOffset, rgba, rgbaOffset, width, c, x, p0);
    if computeUV {
      var p := if c.sampling == YUV444 then p0 else AveragePixel(p0, p1);
      assert p == PairColour(rgba, rgbaOffset, width, x, c);
      ChromaStores(yPlane, yOffset, uvPlane, uvPos, rgba, rgbaOffset, width, c, x, p0, p);
    } else {
      ghost var y1 := yPlane[..];
      yPlane[yOffset + x] := LumaOf(p0, c);
      assert yPlane[..] == Store(y1, yOffset + x, RowLumas(rgba, rgbaOffset, width, c)[x]);
    }
  }

  /** The row tail with every visited pixel's luma stored: every column from
      `cx0` to the row's end holds its pixel's luma on every row, whether or
      not the row computes chroma; the chroma stores are the row tail's. */
  method RgbxToNvRowCorrected(yPlane: array<u8>, yOffset: nat, uvPlane: array<u8>, uvOffset: nat,
                              rgba: seq<u8>, rgbaOffset: nat, width: nat, c: NvForward,
                              cx0: nat, ux0: nat, computeUV: bool)
    requires yPlane != uvPlane
    requires yOffset + width <= yPlane.Length
    requires RowFits(rgba, rgbaOffset, width, c.channels.ChannelsCount())
    requires computeUV ==> uvOffset + ux0 + 2 * Iterations(cx0, width, c.sampling) <= uvPlane.Length
    modifies yPlane, uvPlane
    ensures forall x :: cx0 <= x < width ==> yPlane[yOffset + x] == LumaOf(PixelAt(rgba, rgbaOffset, x, c.channels), c)
    ensures forall i :: 0 <= i < yPlane.Length && (i < yOffset + cx0 || yOffset + width <= i) ==> yPlane[i] == old(yPlane[i])
    ensures computeUV ==>
      uvPlane[..] == ChromaTail(old(uvPlane[..]), uvOffset + ux0, RowCbs(rgba, rgbaOffset, width, c), RowCrs(rgba, rgbaOffset, width, c),
                                c.order, c.sampling, cx0, Iterations(cx0, width, c.sampling))
    ensures !computeUV ==> uvPlane[..] == old(uvPlane[..])
  {
    var step := ColumnStep(c.sampling);
    var lumaEvery := true;
    ghost var lumas, cbs, crs := RowLumas(rgba, rgbaOffset, width, c), RowCbs(rgba, rgbaOffset, width, c), RowCrs(rgba, rgbaOffset, width, c);
    ghost var y0, uv0 := yPlane[..], uvPlane[..];
    var x := cx0;
    var ux := ux0;
    ghost var k := 0;
    while x < width
      invariant x == ColumnOf(cx0, k, c.sampling) && ux == ux0 + 2 * k
      invariant k <= Iterations(cx0, width, c.sampling)
      invariant yPlane[..] == LumaTail(y0, yOffset, lumas, c.sampling, lumaEvery, cx0, k)
      invariant computeUV ==> uvPlane[..] == ChromaTail(uv0, uvOffset + ux0, cbs, crs, c.order, c.sampling, cx0, k)
      invariant !computeUV ==> uvPlane[..] == uv0
    {
      IterationColumns(cx0, width, c.sampling, k);
      LumaTailNext(y0, yOffset, lumas, c.sampling, lumaEvery, cx0, k);
      ChromaTailNext(uv0, uvOffset + ux0, cbs, crs, c.order, c.sampling, cx0, k);
      assert uvOffset + ux == uvOffset + ux0 + 2 * k;
      RgbxToNvStepCorrected(yPlane, yOffset, uvPlane, uvOffset + ux, rgba, rgbaOffset, width, c, computeUV, x);
      ux := ux + 2;
      x := x + step;
      k := k + 1;
    }
    IterationColumns(cx0, width, c.sampling, k);
    assert k == Iterations(cx0, width, c.sampling);
    if cx0 <= width {
      forall i | 0 <= i < yPlane.Length
        ensures yPlane[i] == if yOffset <= i && LumaWritten(c.sampling, i - yOffset, cx0, width, lumaEvery) then lumas[i - yOffset] else y0[i]
      {
        LumaTailAt(y0, yOffset, lumas, c.sampling, lumaEvery, cx0, i);
      }
      forall x | cx0 <= x < width
        ensures yPlane[yOffset + x] == LumaOf(PixelAt(rgba, rgbaOffset, x, c.channels), c)
      {
        assert yOffset + x - yOffset == x;
      }
    }
  }

  // ---------------------------------------------------------- whole image

  /** Row `y` computes chroma: always in 4:4:4 and 4:2:2, on even rows in 4:2:0. */
  predicate ComputeUvRow(s: YuvChromaSample, y: nat)
  {
    s == YUV444 || s == YUV422 || y % 2 == 0
  }

  /** The image row whose chroma lands in chroma row `cr`. */
  function ChromaWriter(s: YuvChromaSample, cr: nat): nat
  {
    if s == YUV420 then 2 * cr else cr
  }

  /** Chroma row `cr` is written by exactly one image row, its writer, which
      computes chroma and maps back to `cr`; the rows before it cover the
      chroma rows before `cr`, and a 4:2:0 row that computes no chroma maps
      to the chroma row its predecessor wrote. */
  lemma ChromaRowsWritten(s: YuvChromaSample, y: nat)
    ensures ComputeUvRow(s, y) ==> ChromaWriter(s, ChromaRow(s, y)) == y && ChromaRows(s, y) == ChromaRow(s, y)
    ensures ComputeUvRow(s, y) <==> ChromaRows(s, y + 1) == ChromaRows(s, y) + 1
    ensures !ComputeUvRow(s, y) ==> ChromaRows(s, y + 1) == ChromaRows(s, y)
    ensures ChromaRow(s, y) < ChromaRows(s, y + 1)
  {
  }

  /** The bytes of one chroma row: two per iteration. */
  function UvRowBytes(width: nat, s: YuvChromaSample): nat
  {
    2 * Iterations(0, width, s)
  }

  /** The buffers hold every row the kernel touches and rows do not overlap. */
  predicate FrameFits(yLen: nat, uvLen: nat, rgba: seq<u8>, f: NvFrame, c: NvForward)
  {
    && f.width <= f.yStride
    && UvRowBytes(f.width, c.sampling) <= f.uvStride
    && (f.height > 0 ==> Offset(f.height - 1, f.yStride) + f.width <= yLen)
    && (f.height > 0 ==> Offset(ChromaRows(c.sampling, f.height) - 1, f.uvStride) + UvRowBytes(f.width, c.sampling) <= uvLen)
    && SourceFits(rgba, f, c)
  }

  /** Every source row of the image is inside `rgba`. */
  predicate SourceFits(rgba: seq<u8>, f: NvFrame, c: NvForward)
  {
    f.height > 0 ==> RowFits(rgba, Offset(f.height - 1, f.rgbaStride), f.width, c.channels.ChannelsCount())
  }

  lemma SourceRowFits(rgba: seq<u8>, f: NvFrame, c: NvForward, y: nat)
    requires SourceFits(rgba, f, c) && y < f.height
    ensures RowFits(rgba, Offset(y, f.rgbaStride), f.width, c.channels.ChannelsCount())
  {
    if y < f.height - 1 {
      OffsetMonotone(y, f.height - 1, f.rgbaStride);
    }
  }

  /** Byte x of luma row r once row r is converted: the luma of pixel x
      where the row tail writes it (`LumaWritten` from column 0), its old
      value elsewhere. */
  function LumaPlane(before: seq<u8>, rgba: seq<u8>, f: NvFrame, c: NvForward): (nat, nat) -> int
  {
    (r: nat, x: nat) =>
      if LumaWritten(c.sampling, x, 0, f.width, ComputeUvRow(c.sampling, r))
      then LumaOf(PixelAt(rgba, Offset(r, f.rgbaStride), x, c.channels), c) as int
      else ByteAt(before, Offset(r, f.yStride) + x)
  }

  /** Byte j of chroma row cr: pair j / 2 of the row that writes it, at
      column step·(j / 2); its Cb at the order's u_position, its Cr at the
      other byte. */
  function UvPlane(rgba: seq<u8>, f: NvFrame, c: NvForward): (nat, nat) -> int
  {
    (cr: nat, j: nat) =>
      var p := PairColour(rgba, Offset(ChromaWriter(c.sampling, cr), f.rgbaStride), f.width, ColumnOf(0, j / 2, c.sampling), c);
      if j % 2 == c.order.UPosition() then CbOf(p, c) as int else CrOf(p, c) as int
  }

  /** A luma row tail from column 0 on row `y`, over a plane whose first `y`
      rows already hold, makes the first `y + 1` rows hold and changes no
      byte outside row y's first `width` bytes. */
  lemma {:induction false} LumaRowHolds(before: seq<u8>, mid: seq<u8>, after: seq<u8>, rgba: seq<u8>, f: NvFrame, c: NvForward, y: nat)
    requires PlaneRowsHold(mid, before, f.yStride, f.width, y, LumaPlane(before, rgba, f, c))
    requires f.width <= f.yStride && Offset(y, f.yStride) + f.width <= |mid|
    requires after == LumaTail(mid, Offset(y, f.yStride), RowLumas(rgba, Offset(y, f.rgbaStride), f.width, c), c.sampling,
                               ComputeUvRow(c.sampling, y), 0, Iterations(0, f.width, c.sampling))
    ensures PlaneRowsHold(after, before, f.yStride, f.width, y + 1, LumaPlane(before, rgba, f, c))
  {
    var e := LumaPlane(before, rgba, f, c);
    var lo := Offset(y, f.yStride);
    LumaRowWritten(before, mid, after, rgba, f, c, y);
    LumaRowOutside(mid, after, rgba, f, c, y);
    PlaneRowsHoldNext(before, mid, after, f.yStride, f.width, y, y, e, e);
  }

  /** Row y's luma bytes after its tail: the pixel's luma where written,
      the byte from before the conversion elsewhere. */
  lemma {:induction false} LumaRowWritten(before: seq<u8>, mid: seq<u8>, after: seq<u8>, rgba: seq<u8>, f: NvFrame, c: NvForward, y: nat)
    requires |mid| == |before| && Kept(mid, before, Offset(y, f.yStride), |mid|)
    requires Offset(y, f.yStride) + f.width <= |mid|
    requires after == LumaTail(mid, Offset(y, f.yStride), RowLumas(rgba, Offset(y, f.rgbaStride), f.width, c), c.sampling,
                               ComputeUvRow(c.sampling, y), 0, Iterations(0, f.width, c.sampling))
    ensures RowHolds(after, Offset(y, f.yStride), f.width, LumaPlane(before, rgba, f, c), y)
  {
    var lo := Offset(y, f.yStride);
    forall x: nat | x < f.width
      ensures after[lo + x] as int == LumaPlane(before, rgba, f, c)(y, x)
    {
      assert mid[lo + x] == before[lo + x];
      LumaByteHolds(before, mid, rgba, f, c, y, x);
    }
  }

  /** Column x of row y after the row's luma tail: the pixel's luma where
      the tail writes it, otherwise the byte the plane held before the
      conversion. */
  lemma {:induction false} LumaByteHolds(before: seq<u8>, mid: seq<u8>, rgba: seq<u8>, f: NvFrame, c: NvForward, y: nat, x: nat)
    requires x < f.width && Offset(y, f.yStride) + f.width <= |mid| == |before|
    requires mid[Offset(y, f.yStride) + x] == before[Offset(y, f.yStride) + x]
    ensures LumaTail(mid, Offset(y, f.yStride), RowLumas(rgba, Offset(y, f.rgbaStride), f.width, c), c.sampling,
                     ComputeUvRow(c.sampling, y), 0, Iterations(0, f.width, c.sampling))[Offset(y, f.yStride) + x] as int
      == LumaPlane(before, rgba, f, c)(y, x)
  {
    var lo := Offset(y, f.yStride);
    var lumas := RowLumas(rgba, Offset(y, f.rgbaStride), f.width, c);
    var computeUV := ComputeUvRow(c.sampling, y);
    LumaTailAt(mid, lo, lumas, c.sampling, computeUV, 0, lo + x);
    assert lo + x - lo == x;
    assert lumas[x] == LumaOf(PixelAt(rgba, Offset(y, f.rgbaStride), x, c.channels), c);
    assert ByteAt(before, lo + x) == before[lo + x] as int;
  }

  /** Row y's luma tail changes no byte outside the row's first `width` bytes. */
  lemma {:induction false} LumaRowOutside(mid: seq<u8>, after: seq<u8>, rgba: seq<u8>, f: NvFrame, c: NvForward, y: nat)
    requires after == LumaTail(mid, Offset(y, f.yStride), RowLumas(rgba, Offset(y, f.rgbaStride), f.width, c), c.sampling,
                               ComputeUvRow(c.sampling, y), 0, Iterations(0, f.width, c.sampling))
    ensures SameOutside(mid, after, Offset(y, f.yStride), Offset(y, f.yStride) + f.width)
  {
    var lo := Offset(y, f.yStride);
    var lumas := RowLumas(rgba, Offset(y, f.rgbaStride), f.width, c);
    forall i | 0 <= i < |mid| && (i < lo || lo + f.width <= i)
      ensures mid[i] == after[i]
    {
      LumaTailAt(mid, lo, lumas, c.sampling, ComputeUvRow(c.sampling, y), 0, i);
    }
  }

  /** A chroma row tail from column 0 on a row `y` that computes chroma
      writes its chroma row, the next one, and changes no other byte. */
  lemma {:induction false} UvRowHolds(before: seq<u8>, mid: seq<u8>, after: seq<u8>, rgba: seq<u8>, f: NvFrame, c: NvForward, y: nat)
    requires ComputeUvRow(c.sampling, y)
    requires PlaneRowsHold(mid, before, f.uvStride, UvRowBytes(f.width, c.sampling), ChromaRows(c.sampling, y), UvPlane(rgba, f, c))
    requires UvRowBytes(f.width, c.sampling) <= f.uvStride
    requires Offset(ChromaRow(c.sampling, y), f.uvStride) + UvRowBytes(f.width, c.sampling) <= |mid|
    requires after == ChromaTail(mid, Offset(ChromaRow(c.sampling, y), f.uvStride),
                                 RowCbs(rgba, Offset(y, f.rgbaStride), f.width, c), RowCrs(rgba, Offset(y, f.rgbaStride), f.width, c),
                                 c.order, c.sampling, 0, Iterations(0, f.width, c.sampling))
    ensures PlaneRowsHold(after, before, f.uvStride, UvRowBytes(f.width, c.sampling), ChromaRows(c.sampling, y + 1), UvPlane(rgba, f, c))
  {
    ChromaRowsWritten(c.sampling, y);
    var e := UvPlane(rgba, f, c);
    var cr := ChromaRow(c.sampling, y);
    UvRowWritten(mid, after, rgba, f, c, y);
    UvRowOutside(mid, after, rgba, f, c, y);
    PlaneRowsHoldNext(before, mid, after, f.uvStride, UvRowBytes(f.width, c.sampling), cr, cr, e, e);
  }

  /** The chroma row that row `y` writes holds `UvPlane`'s bytes after the
      row's chroma tail. */
  lemma {:induction false} UvRowWritten(mid: seq<u8>, after: seq<u8>, rgba: seq<u8>, f: NvFrame, c: NvForward, y: nat)
    requires ComputeUvRow(c.sampling, y)
    requires Offset(ChromaRow(c.sampling, y), f.uvStride) + UvRowBytes(f.width, c.sampling) <= |mid|
    requires after == ChromaTail(mid, Offset(ChromaRow(c.sampling, y), f.uvStride),
                                 RowCbs(rgba, Offset(y, f.rgbaStride), f.width, c), RowCrs(rgba, Offset(y, f.rgbaStride), f.width, c),
                                 c.order, c.sampling, 0, Iterations(0, f.width, c.sampling))
    ensures RowHolds(after, Offset(ChromaRow(c.sampling, y), f.uvStride), UvRowBytes(f.width, c.sampling), UvPlane(rgba, f, c),
                     ChromaRow(c.sampling, y))
  {
    var lo := Offset(ChromaRow(c.sampling, y), f.uvStride);
    forall j: nat | j < UvRowBytes(f.width, c.sampling)
      ensures after[lo + j] as int == UvPlane(rgba, f, c)(ChromaRow(c.sampling, y), j)
    {
      UvByteHolds(mid, rgba, f, c, y, j);
    }
  }

  /** Row y's chroma tail changes no UV byte outside its chroma row's bytes. */
  lemma {:induction false} UvRowOutside(mid: seq<u8>, after: seq<u8>, rgba: seq<u8>, f: NvFrame, c: NvForward, y: nat)
    requires after == ChromaTail(mid, Offset(ChromaRow(c.sampling, y), f.uvStride),
                                 RowCbs(rgba, Offset(y, f.rgbaStride), f.width, c), RowCrs(rgba, Offset(y, f.rgbaStride), f.width, c),
                                 c.order, c.sampling, 0, Iterations(0, f.width, c.sampling))
    ensures SameOutside(mid, after, Offset(ChromaRow(c.sampling, y), f.uvStride),
                        Offset(ChromaRow(c.sampling, y), f.uvStride) + UvRowBytes(f.width, c.sampling))
  {
    var lo := Offset(ChromaRow(c.sampling, y), f.uvStride);
    var n := Iterations(0, f.width, c.sampling);
    forall i | 0 <= i < |mid| && (i < lo || lo + 2 * n <= i)
      ensures mid[i] == after[i]
    {
      ChromaTailOutside(mid, lo, RowCbs(rgba, Offset(y, f.rgbaStride), f.width, c), RowCrs(rgba, Offset(y, f.rgbaStride), f.width, c),
                        c.order, c.sampling, 0, n, i);
    }
  }

  /** Byte j of the chroma row that row `y` writes holds `UvPlane`'s value
      once the row's chroma tail has run. */
  lemma {:induction false} UvByteHolds(mid: seq<u8>, rgba: seq<u8>, f: NvFrame, c: NvForward, y: nat, j: nat)
    requires ComputeUvRow(c.sampling, y) && j < UvRowBytes(f.width, c.sampling)
    requires Offset(ChromaRow(c.sampling, y), f.uvStride) + UvRowBytes(f.width, c.sampling) <= |mid|
    ensures ChromaTail(mid, Offset(ChromaRow(c.sampling, y), f.uvStride),
                       RowCbs(rgba, Offset(y, f.rgbaStride), f.width, c), RowCrs(rgba, Offset(y, f.rgbaStride), f.width, c),
                       c.order, c.sampling, 0, Iterations(0, f.width, c.sampling))[Offset(ChromaRow(c.sampling, y), f.uvStride) + j] as int
      == UvPlane(rgba, f, c)(ChromaRow(c.sampling, y), j)
  {
    ChromaRowsWritten(c.sampling, y);
    var src := Offset(y, f.rgbaStride);
    var cbs, crs := RowCbs(rgba, src, f.width, c), RowCrs(rgba, src, f.width, c);
    var x := ColumnOf(0, j / 2, c.sampling);
    IterationColumns(0, f.width, c.sampling, j / 2);
    ChromaTailByte(mid, Offset(ChromaRow(c.sampling, y), f.uvStride), cbs, crs, c.order, c.sampling,
                   Iterations(0, f.width, c.sampling), j);
    assert cbs[x] == CbOf(PairColour(rgba, src, f.width, x, c), c);
    assert crs[x] == CrOf(PairColour(rgba, src, f.width, x, c), c);
  }

  /** Byte j of a chroma row tail from column 0 is the Cb (at u_position)
      or the Cr of pair j / 2. */
  lemma {:induction false} ChromaTailByte(uvs: seq<u8>, uvBase: nat, cbs: seq<u8>, crs: seq<u8>, order: YuvNVOrder,
                                          s: YuvChromaSample, n: nat, j: nat)
    requires |crs| == |cbs| && j < 2 * n && ColumnOf(0, j / 2, s) < |cbs| && uvBase + 2 * n <= |uvs|
    ensures ChromaTail(uvs, uvBase, cbs, crs, order, s, 0, n)[uvBase + j] ==
      if j % 2 == order.UPosition() then cbs[ColumnOf(0, j / 2, s)] else crs[ColumnOf(0, j / 2, s)]
  {
    NvPositions(order);
    var k := j / 2;
    assert j == 2 * k + j % 2;
    ChromaTailPair(uvs, uvBase, cbs, crs, order, s, 0, n, k);
  }

  lemma RowBounds(yLen: nat, uvLen: nat, rgba: seq<u8>, f: NvFrame, c: NvForward, y: nat)
    requires FrameFits(yLen, uvLen, rgba, f, c) && y < f.height
    ensures Offset(y, f.yStride) + f.width <= yLen
    ensures Offset(ChromaRow(c.sampling, y), f.uvStride) + UvRowBytes(f.width, c.sampling) <= uvLen
  {
    if y < f.height - 1 {
      OffsetMonotone(y, f.height - 1, f.yStride);
    }
    assert ChromaRow(c.sampling, y) <= ChromaRows(c.sampling, f.height) - 1;
    if ChromaRow(c.sampling, y) < ChromaRows(c.sampling, f.height) - 1 {
      OffsetMonotone(ChromaRow(c.sampling, y), ChromaRows(c.sampling, f.height) - 1, f.uvStride);
    }
  }

  /** Row `y` of `rgbx_to_nv`: one scalar row tail from column 0, with
      chroma on the rows that compute it, makes one more luma row hold and,
      on a chroma row, one more chroma row. */
  method RgbxToNvImageRow(yPlane: array<u8>, uvPlane: array<u8>, rgba: seq<u8>, f: NvFrame, c: NvForward,
                          ghost y0: seq<u8>, ghost uv0: seq<u8>, y: nat, yOffset: nat, uvOffset: nat, rgbaOffset: nat)
    requires yPlane != uvPlane
    requires yOffset == Offset(y, f.yStride) && rgbaOffset == Offset(y, f.rgbaStride)
    requires uvOffset == Offset(ChromaRow(c.sampling, y), f.uvStride)
    requires f.width <= f.yStride && UvRowBytes(f.width, c.sampling) <= f.uvStride
    requires yOffset + f.width <= yPlane.Length && RowFits(rgba, rgbaOffset, f.width, c.channels.ChannelsCount())
    requires uvOffset + UvRowBytes(f.width, c.sampling) <= uvPlane.Length
    requires PlaneRowsHold(yPlane[..], y0, f.yStride, f.width, y, LumaPlane(y0, rgba, f, c))
    requires PlaneRowsHold(uvPlane[..], uv0, f.uvStride, UvRowBytes(f.width, c.sampling), ChromaRows(c.sampling, y), UvPlane(rgba, f, c))
    modifies yPlane, uvPlane
    ensures PlaneRowsHold(yPlane[..], y0, f.yStride, f.width, y + 1, LumaPlane(y0, rgba, f, c))
    ensures PlaneRowsHold(uvPlane[..], uv0, f.uvStride, UvRowBytes(f.width, c.sampling), ChromaRows(c.sampling, y + 1), UvPlane(rgba, f, c))
  {
    var computeUV := ComputeUvRow(c.sampling, y);
    var cx0, ux0 := 0, 0;
    ghost var yBefore, uvBefore := yPlane[..], uvPlane[..];
    RgbxToNvRow(yPlane, yOffset, uvPlane, uvOffset, rgba, rgbaOffset, f.width, c, cx0, ux0, computeUV);
    LumaRowHolds(y0, yBefore, yPlane[..], rgba, f, c, y);
    if computeUV {
      assert uvOffset + ux0 == uvOffset;
      UvRowHolds(uv0, uvBefore, uvPlane[..], rgba, f, c, y);
    } else {
      ChromaRowsWritten(c.sampling, y);
    }
  }

  /** After row `y` the luma and source offsets advance by their strides, and
      the chroma offset by its stride except after an even 4:2:0 row. */
  method NextRowOffsets(f: NvFrame, s: YuvChromaSample, y: nat, yOffset: nat, uvOffset: nat, rgbaOffset: nat)
    returns (yNext: nat, uvNext: nat, rgbaNext: nat)
    requires yOffset == Offset(y, f.yStride) && rgbaOffset == Offset(y, f.rgbaStride)
    requires uvOffset == Offset(ChromaRow(s, y), f.uvStride)
    ensures yNext == Offset(y + 1, f.yStride) && rgbaNext == Offset(y + 1, f.rgbaStride)
    ensures uvNext == Offset(ChromaRow(s, y + 1), f.uvStride)
  {
    yNext := yOffset + f.yStride;
    rgbaNext := rgbaOffset + f.rgbaStride;
    ChromaOffsetNext(s, y, f.uvStride);
    if s == YUV420 {
      uvNext := if y % 2 == 1 then uvOffset + f.uvStride else uvOffset;
    } else {
      uvNext := uvOffset + f.uvStride;
    }
  }

  /** The chroma row offset advances by one stride after every row, except
      after an even row in 4:2:0, whose odd successor shares its chroma row. */
  lemma ChromaOffsetNext(s: YuvChromaSample, y: nat, stride: nat)
    ensures Offset(ChromaRow(s, y + 1), stride) ==
      Offset(ChromaRow(s, y), stride) + (if s == YUV420 && y % 2 == 0 then 0 else stride)
  {
    if s == YUV420 && y % 2 == 0 {
      assert ChromaRow(s, y + 1) == ChromaRow(s, y);
    } else {
      assert ChromaRow(s, y + 1) == ChromaRow(s, y) + 1;
    }
  }

  /** `rgbx_to_nv` with every row running the scalar tail from column 0:
      column x of luma row y holds the luma of pixel (y, x) wherever the
      tail writes it; chroma row cr holds, pair by pair, the Cb and Cr of
      the row that writes it (row cr, or row 2·cr in 4:2:0) at the order's
      positions; every other byte of both planes is unchanged. */
  method RgbxToNv(yPlane: array<u8>, uvPlane: array<u8>, rgba: seq<u8>, f: NvFrame, c: NvForward)
    requires yPlane != uvPlane
    requires FrameFits(yPlane.Length, uvPlane.Length, rgba, f, c)
    modifies yPlane, uvPlane
    ensures PlaneRowsHold(yPlane[..], old(yPlane[..]), f.yStride, f.width, f.height, LumaPlane(old(yPlane[..]), rgba, f, c))
    ensures PlaneRowsHold(uvPlane[..], old(uvPlane[..]), f.uvStride, UvRowBytes(f.width, c.sampling), ChromaRows(c.sampling, f.height),
                          UvPlane(rgba, f, c))
  {
    ghost var y0, uv0 := yPlane[..], uvPlane[..];
    PlaneRowsHoldNone(y0, f.yStride, f.width, LumaPlane(y0, rgba, f, c));
    PlaneRowsHoldNone(uv0, f.uvStride, UvRowBytes(f.width, c.sampling), UvPlane(rgba, f, c));
    var yOffset: nat := 0;
    var uvOffset: nat := 0;
    var rgbaOffset: nat := 0;
    var y: nat := 0;
    while y < f.height
      invariant y <= f.height
      invariant yOffset == Offset(y, f.yStride) && rgbaOffset == Offset(y, f.rgbaStride)
      invariant uvOffset == Offset(ChromaRow(c.sampling, y), f.uvStride)
      invariant PlaneRowsHold(yPlane[..], y0, f.yStride, f.width, y, LumaPlane(y0, rgba, f, c))
      invariant PlaneRowsHold(uvPlane[..], uv0, f.uvStride, UvRowBytes(f.width, c.sampling), ChromaRows(c.sampling, y), UvPlane(rgba, f, c))
    {
      RowBounds(yPlane.Length, uvPlane.Length, rgba, f, c, y);
      SourceRowFits(rgba, f, c, y);
      RgbxToNvImageRow(yPlane, uvPlane, rgba, f, c, y0, uv0, y, yOffset, uvOffset, rgbaOffset);
      yOffset, uvOffset, rgbaOffset := NextRowOffsets(f, c.sampling, y, yOffset, uvOffset, rgbaOffset);
      y := y + 1;
    }
  }

  /** As written, the row tail stores a pixel's own luma only on rows that
      compute chroma: in 4:2:0 an odd row gets the luma of its odd columns
      (the second pixel of each pair) and keeps its old bytes at every even
      column. */
  lemma {:induction false} OddRowEvenLumaKept(after: seq<u8>, before: seq<u8>, rgba: seq<u8>, f: NvFrame, c: NvForward, r: nat, x: nat)
    requires c.sampling == YUV420 && r % 2 == 1 && x % 2 == 0 && r < f.height && x < f.width
    requires PlaneRowsHold(after, before, f.yStride, f.width, f.height, LumaPlane(before, rgba, f, c))
    ensures Offset(r, f.yStride) + x < |before| && after[Offset(r, f.yStride) + x] == before[Offset(r, f.yStride) + x]
  {
    var e := LumaPlane(before, rgba, f, c);
    assert RowHolds(after, Offset(r, f.yStride), f.width, e, r);
    assert after[Offset(r, f.yStride) + x] as int == e(r, x);
  }

  /** A two-row, one-column 4:2:0 image: the luma of pixel (1, 0) is never
      stored. */
  lemma OddRowLumaSkippedExample(after: seq<u8>, before: seq<u8>, rgba: seq<u8>, c: NvForward)
    requires c.sampling == YUV420
    requires PlaneRowsHold(after, before, 1, 1, 2, LumaPlane(before, rgba, NvFrame(1, 2, 4, 1, 2), c))
    ensures after[1] == before[1]
  {
    var r, x := 1, 0;
    assert Offset(r, 1) == 1;
    OddRowEvenLumaKept(after, before, rgba, NvFrame(1, 2, 4, 1, 2), c, r, x);
  }
}
