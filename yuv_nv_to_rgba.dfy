/**
 * Decoding of an 8-bit bi-planar NV image (a luma plane and one interleaved
 * chroma plane) into an interleaved RGB/BGR/RGBA/BGRA image: the scalar path
 * of `yuv_nv12_to_rgbx`.
 *
 * The destination is walked in rows of `bgra_stride` bytes
 * (`chunks_exact_mut`), so the number of rows is the destination length
 * divided by its stride; the height argument is not used. In 4:2:2 and
 * 4:2:0 both pixels of a horizontal pair decode with the same chroma pair,
 * and in 4:2:0 two consecutive rows share a chroma row.
 */
module YuvNvToRgba {
  import opened Numerics
  import opened YuvSupport
  import opened Planes
  import opened InverseTransforms

  /** Fixed-point precision of the 8-bit decoder. */
  const Precision: nat := 6

  /** `((sum + (1 << 5)) >> 6).min(255).max(0)`. */
  const Decode8: Quantiser := Quantiser(32, Precision, 255)

  /** The const-generic choices and the per-call parameters of one conversion. */
  datatype NvInverse = NvInverse(
    order: YuvNVOrder,
    channels: YuvSourceChannels,
    sampling: YuvChromaSample,
    range: YuvRange,
    t: InverseTransform)

  /** Strides (bytes) and width of one conversion. */
  datatype NvImage = NvImage(yStride: nat, uvStride: nat, bgraStride: nat, width: nat)

  /** The chroma pair that feeds column `x` of a row tail started at `cx0`:
      the tail reads pair k in its k-th iteration. */
  function PairIndex(cx0: nat, x: nat, s: YuvChromaSample): nat
  {
    if x < cx0 then 0 else (x - cx0) / ColumnStep(s)
  }

  /** Column `x` of a row tail whose chroma starts at byte `ux0` of the
      chroma row at `uvOffset` decodes luma byte `yOffset + x` with the
      chroma pair of its iteration, at `uvOffset + ux0 + 2 * PairIndex`. */
  function NvPixel(yPlane: seq<u8>, yOffset: nat, uvPlane: seq<u8>, uvOffset: nat, ux0: nat, cx0: nat, x: nat, c: NvInverse): Colour
  {
    var r := GetYuvRange(8, c.range);
    var pos := uvOffset + ux0 + 2 * PairIndex(cx0, x, c.sampling);
    DecodePixel(ByteAt(yPlane, yOffset + x), ByteAt(uvPlane, pos + c.order.UPosition()), ByteAt(uvPlane, pos + c.order.VPosition()),
                r.biasY, r.biasUV, c.t, Decode8)
  }

  /** The pixel the kernel decodes from the bytes it reads is `NvPixel`. */
  lemma NvPixelFromBytes(yPlane: seq<u8>, yOffset: nat, uvPlane: seq<u8>, uvOffset: nat, ux0: nat, cx0: nat, x: nat, c: NvInverse,
                         uvPos: nat)
    requires uvPos == uvOffset + ux0 + 2 * PairIndex(cx0, x, c.sampling) && uvPos + 2 <= |uvPlane| && yOffset + x < |yPlane|
    ensures NvPixel(yPlane, yOffset, uvPlane, uvOffset, ux0, cx0, x, c) ==
      DecodePixel(yPlane[yOffset + x] as int, uvPlane[uvPos + c.order.UPosition()] as int, uvPlane[uvPos + c.order.VPosition()] as int,
                  GetYuvRange(8, c.range).biasY, GetYuvRange(8, c.range).biasUV, c.t, Decode8)
  {
    NvPositions(c.order);
  }

  /** Columns [lo, hi) of the row tail hold their decoded pixels. */
  ghost predicate TailDone(a: seq<u8>, dstBase: nat, yPlane: seq<u8>, yOffset: nat, uvPlane: seq<u8>, uvOffset: nat, ux0: nat,
                           cx0: nat, c: NvInverse, lo: nat, hi: nat)
  {
    forall x: nat :: lo <= x < hi ==>
      PixelStored(a, dstBase, x, c.channels, NvPixel(yPlane, yOffset, uvPlane, uvOffset, ux0, cx0, x, c))
  }

  /** Pixel (y, x) of the decoded image: luma (y, x), and the chroma pair
      x / step of chroma row y / 2 (4:2:0) or y (4:2:2, 4:4:4). */
  function NvImagePixel(yPlane: seq<u8>, uvPlane: seq<u8>, f: NvImage, c: NvInverse, y: nat, x: nat): Colour
  {
    var r := GetYuvRange(8, c.range);
    var pos := Offset(ChromaRow(c.sampling, y), f.uvStride) + 2 * (x / ColumnStep(c.sampling));
    DecodePixel(ByteAt(yPlane, Offset(y, f.yStride) + x),
                ByteAt(uvPlane, pos + c.order.UPosition()), ByteAt(uvPlane, pos + c.order.VPosition()),
                r.biasY, r.biasUV, c.t, Decode8)
  }

  /** The colours the whole image should hold. */
  function NvExpected(yPlane: seq<u8>, uvPlane: seq<u8>, f: NvImage, c: NvInverse): (nat, nat) -> Colour
  {
    (y: nat, x: nat) => NvImagePixel(yPlane, uvPlane, f, c, y, x)
  }

  // ---------------------------------------------------------- properties

  /** A row tail started at column 0 with no chroma consumed decodes the
      image's pixels. */
  lemma RowTailFromStart(yPlane: seq<u8>, uvPlane: seq<u8>, f: NvImage, c: NvInverse, y: nat, x: nat)
    ensures NvPixel(yPlane, Offset(y, f.yStride), uvPlane, Offset(ChromaRow(c.sampling, y), f.uvStride), 0, 0, x, c)
            == NvImagePixel(yPlane, uvPlane, f, c, y, x)
  {
  }

  /** In 4:2:2 and 4:2:0 the two pixels of a pair decode with the same
      chroma, so equal luma gives equal colour. */
  lemma PairSharesChroma(yPlane: seq<u8>, uvPlane: seq<u8>, f: NvImage, c: NvInverse, y: nat, x: nat)
    requires c.sampling != YUV444 && x % 2 == 0
    requires ByteAt(yPlane, Offset(y, f.yStride) + x) == ByteAt(yPlane, Offset(y, f.yStride) + x + 1)
    ensures NvImagePixel(yPlane, uvPlane, f, c, y, x) == NvImagePixel(yPlane, uvPlane, f, c, y, x + 1)
  {
    assert x / 2 == (x + 1) / 2;
  }

  /** In 4:2:0 rows 2r and 2r + 1 decode with the same chroma row, so equal
      luma gives equal colour. */
  lemma RowPairSharesChroma(yPlane: seq<u8>, uvPlane: seq<u8>, f: NvImage, c: NvInverse, r: nat, x: nat)
    requires c.sampling == YUV420
    requires ByteAt(yPlane, Offset(2 * r, f.yStride) + x) == ByteAt(yPlane, Offset(2 * r + 1, f.yStride) + x)
    ensures NvImagePixel(yPlane, uvPlane, f, c, 2 * r, x) == NvImagePixel(yPlane, uvPlane, f, c, 2 * r + 1, x)
  {
    assert ChromaRow(c.sampling, 2 * r) == ChromaRow(c.sampling, 2 * r + 1) == r;
  }

  /** Neutral chroma (128, 128) decodes to grey, whatever the luma. */
  lemma NeutralChromaDecodesGrey(yPlane: seq<u8>, uvPlane: seq<u8>, f: NvImage, c: NvInverse, y: nat, x: nat)
    requires var pos := Offset(ChromaRow(c.sampling, y), f.uvStride) + 2 * (x / ColumnStep(c.sampling));
      ByteAt(uvPlane, pos) == 128 && ByteAt(uvPlane, pos + 1) == 128
    ensures NvImagePixel(yPlane, uvPlane, f, c, y, x).r == NvImagePixel(yPlane, uvPlane, f, c, y, x).g
    ensures NvImagePixel(yPlane, uvPlane, f, c, y, x).g == NvImagePixel(yPlane, uvPlane, f, c, y, x).b
  {
    RangesAt8();
    NvPositions(c.order);
    NeutralChromaIsGrey(ByteAt(yPlane, Offset(y, f.yStride) + x), GetYuvRange(8, c.range).biasY, 128, c.t, Decode8);
  }

  // ------------------------------------------------------------- row tail

  /** The tail's k-th iteration starts at a column whose pair index is k,
      and in 4:2:2/4:2:0 its second pixel has the same pair index. */
  lemma PairIndexOf(cx0: nat, k: nat, s: YuvChromaSample)
    ensures PairIndex(cx0, ColumnOf(cx0, k, s), s) == k
    ensures s != YUV444 ==> PairIndex(cx0, ColumnOf(cx0, k, s) + 1, s) == k
  {
    if s != YUV444 {
      DivModOf(k, 0, 2);
      DivModOf(k, 1, 2);
    }
  }

  /** One iteration at column `x` with its chroma pair at byte `uvPos`:
      pixel x, and in 4:2:2/4:2:0 pixel x + 1 when it exists, decode with
      that pair; nothing outside those pixels changes. */
  method Nv12ToRgbxStep(yPlane: seq<u8>, yOffset: nat, uvPlane: seq<u8>, uvOffset: nat, ux0: nat, bgra: array<u8>, dstBase: nat,
                        width: nat, c: NvInverse, cx0: nat, x: nat, uvPos: nat)
    requires cx0 <= x < width && yOffset + width <= |yPlane|
    requires uvPos == uvOffset + ux0 + 2 * PairIndex(cx0, x, c.sampling) && uvPos + 2 <= |uvPlane|
    requires c.sampling != YUV444 ==> PairIndex(cx0, x + 1, c.sampling) == PairIndex(cx0, x, c.sampling)
    requires dstBase + Offset(width, c.channels.ChannelsCount()) <= bgra.Length
    modifies bgra
    ensures TailDone(bgra[..], dstBase, yPlane, yOffset, uvPlane, uvOffset, ux0, cx0, c, x, Min(x + ColumnStep(c.sampling), width))
    ensures SameOutside(old(bgra[..]), bgra[..], dstBase + Offset(x, c.channels.ChannelsCount()),
                        dstBase + Offset(Min(x + ColumnStep(c.sampling), width), c.channels.ChannelsCount()))
  {
    var n := c.channels.ChannelsCount();
    ghost var b0 := bgra[..];
    var u := uvPlane[uvPos + c.order.UPosition()] as int;
    var v := uvPlane[uvPos + c.order.VPosition()] as int;
    ghost var p := NvPixel(yPlane, yOffset, uvPlane, uvOffset, ux0, cx0, x, c);
    NvPixelFromBytes(yPlane, yOffset, uvPlane, uvOffset, ux0, cx0, x, c, uvPos);
    OffsetLe(x + 1, width, n);
    DecodeStore(yPlane[yOffset + x] as int, u, v, bgra, dstBase, x, c, p);
    if c.sampling != YUV444 && x + 1 < width {
      ghost var b1 := bgra[..];
      Nv12ToRgbxSecond(yPlane, yOffset, uvPlane, uvOffset, ux0, bgra, dstBase, width, c, cx0, x, uvPos, u, v);
      SameOutsideTrans(b0, b1, bgra[..], dstBase + Offset(x, n), dstBase + Offset(x + 1, n),
                       dstBase + Offset(x + 1, n), dstBase + Offset(x + 2, n), dstBase + Offset(x, n), dstBase + Offset(x + 2, n));
      assert Min(x + ColumnStep(c.sampling), width) == x + 2;
    } else {
      assert Min(x + ColumnStep(c.sampling), width) == x + 1;
      TailDoneSingle(bgra[..], dstBase, yPlane, yOffset, uvPlane, uvOffset, ux0, cx0, c, x);
    }
  }

  /** The second pixel of a 4:2:2/4:2:0 pair decodes with the chroma `u`,
      `v` already read for the first. */
  method Nv12ToRgbxSecond(yPlane: seq<u8>, yOffset: nat, uvPlane: seq<u8>, uvOffset: nat, ux0: nat, bgra: array<u8>, dstBase: nat,
                          width: nat, c: NvInverse, cx0: nat, x: nat, uvPos: nat, u: int, v: int)
    requires c.sampling != YUV444 && x + 1 < width && yOffset + width <= |yPlane|
    requires uvPos == uvOffset + ux0 + 2 * PairIndex(cx0, x + 1, c.sampling) && uvPos + 2 <= |uvPlane|
    requires u == uvPlane[uvPos + c.order.UPosition()] as int && v == uvPlane[uvPos + c.order.VPosition()] as int
    requires dstBase + Offset(width, c.channels.ChannelsCount()) <= bgra.Length
    requires PixelStored(bgra[..], dstBase, x, c.channels, NvPixel(yPlane, yOffset, uvPlane, uvOffset, ux0, cx0, x, c))
    modifies bgra
    ensures TailDone(bgra[..], dstBase, yPlane, yOffset, uvPlane, uvOffset, ux0, cx0, c, x, x + 2)
    ensures SameOutside(old(bgra[..]), bgra[..], dstBase + Offset(x + 1, c.channels.ChannelsCount()),
                        dstBase + Offset(x + 2, c.channels.ChannelsCount()))
  {
    var n := c.channels.ChannelsCount();
    ghost var b1 := bgra[..];
    ghost var q := NvPixel(yPlane, yOffset, uvPlane, uvOffset, ux0, cx0, x + 1, c);
    NvPixelFromBytes(yPlane, yOffset, uvPlane, uvOffset, ux0, cx0, x + 1, c, uvPos);
    OffsetLe(x + 2, width, n);
    DecodeStore(yPlane[yOffset + x + 1] as int, u, v, bgra, dstBase, x + 1, c, q);
    PixelKept(b1, bgra[..], dstBase, x, c.channels, NvPixel(yPlane, yOffset, uvPlane, uvOffset, ux0, cx0, x, c),
              dstBase + Offset(x + 1, n), dstBase + Offset(x + 2, n));
    TailDonePair(bgra[..], dstBase, yPlane, yOffset, uvPlane, uvOffset, ux0, cx0, c, x);
  }

  /** Decodes one pixel from the samples read and stores it at column `x`;
      `want` names the decoded colour for the caller. */
  method DecodeStore(ys: int, us: int, vs: int, bgra: array<u8>, dstBase: nat, x: nat, c: NvInverse, ghost want: Colour)
    requires dstBase + Offset(x + 1, c.channels.ChannelsCount()) <= bgra.Length
    requires want == DecodePixel(ys, us, vs, GetYuvRange(8, c.range).biasY, GetYuvRange(8, c.range).biasUV, c.t, Decode8)
    modifies bgra
    ensures PixelStored(bgra[..], dstBase, x, c.channels, want)
    ensures SameOutside(old(bgra[..]), bgra[..], dstBase + Offset(x, c.channels.ChannelsCount()),
                        dstBase + Offset(x + 1, c.channels.ChannelsCount()))
  {
    var r := GetYuvRange(8, c.range);
    var p := DecodePixel(ys, us, vs, r.biasY, r.biasUV, c.t, Decode8);
    StorePixel(bgra, dstBase, x, c.channels, p);
  }

  lemma TailDoneSingle(a: seq<u8>, dstBase: nat, yPlane: seq<u8>, yOffset: nat, uvPlane: seq<u8>, uvOffset: nat, ux0: nat,
                       cx0: nat, c: NvInverse, x: nat)
    requires PixelStored(a, dstBase, x, c.channels, NvPixel(yPlane, yOffset, uvPlane, uvOffset, ux0, cx0, x, c))
    ensures TailDone(a, dstBase, yPlane, yOffset, uvPlane, uvOffset, ux0, cx0, c, x, x + 1)
  {
  }

  lemma TailDonePair(a: seq<u8>, dstBase: nat, yPlane: seq<u8>, yOffset: nat, uvPlane: seq<u8>, uvOffset: nat, ux0: nat,
                     cx0: nat, c: NvInverse, x: nat)
    requires PixelStored(a, dstBase, x, c.channels, NvPixel(yPlane, yOffset, uvPlane, uvOffset, ux0, cx0, x, c))
    requires PixelStored(a, dstBase, x + 1, c.channels, NvPixel(yPlane, yOffset, uvPlane, uvOffset, ux0, cx0, x + 1, c))
    ensures TailDone(a, dstBase, yPlane, yOffset, uvPlane, uvOffset, ux0, cx0, c, x, x + 2)
  {
  }

  /** Pixels done before an iteration stay done through it: the iteration
      only changes bytes from pixel `x` on. */
  lemma TailDoneKept(a: seq<u8>, b: seq<u8>, dstBase: nat, yPlane: seq<u8>, yOffset: nat, uvPlane: seq<u8>, uvOffset: nat, ux0: nat,
                     cx0: nat, c: NvInverse, x: nat, hi: int)
    requires TailDone(a, dstBase, yPlane, yOffset, uvPlane, uvOffset, ux0, cx0, c, cx0, x)
    requires SameOutside(a, b, dstBase + Offset(x, c.channels.ChannelsCount()), hi)
    ensures TailDone(b, dstBase, yPlane, yOffset, uvPlane, uvOffset, ux0, cx0, c, cx0, x)
  {
    forall x': nat | cx0 <= x' < x
      ensures PixelStored(b, dstBase, x', c.channels, NvPixel(yPlane, yOffset, uvPlane, uvOffset, ux0, cx0, x', c))
    {
      OffsetLe(x' + 1, x, c.channels.ChannelsCount());
      PixelKept(a, b, dstBase, x', c.channels, NvPixel(yPlane, yOffset, uvPlane, uvOffset, ux0, cx0, x', c),
                dstBase + Offset(x, c.channels.ChannelsCount()), hi);
    }
  }

  /** Done ranges [lo, mid) and [mid, hi) make [lo, hi). */
  lemma TailDoneJoin(a: seq<u8>, dstBase: nat, yPlane: seq<u8>, yOffset: nat, uvPlane: seq<u8>, uvOffset: nat, ux0: nat,
                     cx0: nat, c: NvInverse, lo: nat, mid: nat, hi: nat)
    requires TailDone(a, dstBase, yPlane, yOffset, uvPlane, uvOffset, ux0, cx0, c, lo, mid)
    requires TailDone(a, dstBase, yPlane, yOffset, uvPlane, uvOffset, ux0, cx0, c, mid, hi)
    ensures TailDone(a, dstBase, yPlane, yOffset, uvPlane, uvOffset, ux0, cx0, c, lo, hi)
  {
  }

  /** The scalar tail of one row from column `cx0` and chroma byte `ux0` on
      (the columns before are the vector prefix's): every column from cx0 to
      the width decodes its luma with the chroma pair of its iteration, and
      no byte outside those pixels changes. */
  method Nv12ToRgbxRow(yPlane: seq<u8>, yOffset: nat, uvPlane: seq<u8>, uvOffset: nat, bgra: array<u8>, dstBase: nat,
                       width: nat, c: NvInverse, cx0: nat, ux0: nat)
    requires yOffset + width <= |yPlane|
    requires uvOffset + ux0 + 2 * Iterations(cx0, width, c.sampling) <= |uvPlane|
    requires dstBase + Offset(width, c.channels.ChannelsCount()) <= bgra.Length
    modifies bgra
    ensures TailDone(bgra[..], dstBase, yPlane, yOffset, uvPlane, uvOffset, ux0, cx0, c, cx0, width)
    ensures SameOutside(old(bgra[..]), bgra[..], dstBase + Offset(cx0, c.channels.ChannelsCount()),
                        dstBase + Offset(width, c.channels.ChannelsCount()))
  {
    var n := c.channels.ChannelsCount();
    var step := ColumnStep(c.sampling);
    ghost var b0 := bgra[..];
    var x := cx0;
    var ux := ux0;
    ghost var k := 0;
    while x < width
      invariant x == ColumnOf(cx0, k, c.sampling) && ux == ux0 + 2 * k
      invariant k <= Iterations(cx0, width, c.sampling)
      invariant TailDone(bgra[..], dstBase, yPlane, yOffset, uvPlane, uvOffset, ux0, cx0, c, cx0, Min(x, width))
      invariant SameOutside(b0, bgra[..], dstBase + Offset(cx0, n), dstBase + Offset(Min(x, width), n))
    {
      IterationColumns(cx0, width, c.sampling, k);
      PairIndexOf(cx0, k, c.sampling);
      ghost var b1 := bgra[..];
      Nv12ToRgbxStep(yPlane, yOffset, uvPlane, uvOffset, ux0, bgra, dstBase, width, c, cx0, x, uvOffset + ux);
      ghost var hi := Min(x + step, width);
      TailDoneKept(b1, bgra[..], dstBase, yPlane, yOffset, uvPlane, uvOffset, ux0, cx0, c, x, dstBase + Offset(hi, n));
      TailDoneJoin(bgra[..], dstBase, yPlane, yOffset, uvPlane, uvOffset, ux0, cx0, c, cx0, x, hi);
      OffsetLe(cx0, x, n);
      OffsetLe(x, hi, n);
      SameOutsideTrans(b0, b1, bgra[..], dstBase + Offset(cx0, n), dstBase + Offset(x, n), dstBase + Offset(x, n),
                       dstBase + Offset(hi, n), dstBase + Offset(cx0, n), dstBase + Offset(hi, n));
      ux := ux + 2;
      x := x + step;
      k := k + 1;
    }
    IterationColumns(cx0, width, c.sampling, k);
  }

  // ---------------------------------------------------------- whole image

  /** The planes hold every row the destination has, and each destination
      row holds its pixels. */
  predicate ImageFits(yLen: nat, uvLen: nat, bgraLen: nat, f: NvImage, c: NvInverse)
  {
    && f.bgraStride > 0
    && Offset(f.width, c.channels.ChannelsCount()) <= f.bgraStride
    && (bgraLen / f.bgraStride > 0 ==>
          && Offset(bgraLen / f.bgraStride - 1, f.yStride) + f.width <= yLen
          && Offset(ChromaRow(c.sampling, bgraLen / f.bgraStride - 1), f.uvStride) + 2 * Iterations(0, f.width, c.sampling) <= uvLen)
  }

  lemma RowBounds(yLen: nat, uvLen: nat, bgraLen: nat, f: NvImage, c: NvInverse, y: nat)
    requires ImageFits(yLen, uvLen, bgraLen, f, c) && y < bgraLen / f.bgraStride
    ensures Offset(y, f.yStride) + f.width <= yLen
    ensures Offset(ChromaRow(c.sampling, y), f.uvStride) + 2 * Iterations(0, f.width, c.sampling) <= uvLen
    ensures Offset(y + 1, f.bgraStride) <= bgraLen
  {
    var last := bgraLen / f.bgraStride - 1;
    OffsetLe(y, last, f.yStride);
    OffsetLe(ChromaRow(c.sampling, y), ChromaRow(c.sampling, last), f.uvStride);
    RowsFit(bgraLen, f.bgraStride, y);
  }

  /** Row `y` of `yuv_nv12_to_rgbx`: the scalar tail from column 0 decodes
      every pixel of the row. */
  method Nv12ToRgbxImageRow(yPlane: seq<u8>, uvPlane: seq<u8>, bgra: array<u8>, f: NvImage, c: NvInverse, y: nat)
    requires ImageFits(|yPlane|, |uvPlane|, bgra.Length, f, c) && y < bgra.Length / f.bgraStride
    modifies bgra
    ensures RowPixels(bgra[..], Offset(y, f.bgraStride), f.width, c.channels, NvExpected(yPlane, uvPlane, f, c), y)
    ensures SameOutside(old(bgra[..]), bgra[..], Offset(y, f.bgraStride),
                        Offset(y, f.bgraStride) + Offset(f.width, c.channels.ChannelsCount()))
  {
    RowBounds(|yPlane|, |uvPlane|, bgra.Length, f, c, y);
    var yOffset := y * f.yStride;
    var uvOffset := if c.sampling == YUV420 then (y / 2) * f.uvStride else y * f.uvStride;
    var dstBase := y * f.bgraStride;
    OffsetIsProduct(y, f.yStride);
    OffsetIsProduct(ChromaRow(c.sampling, y), f.uvStride);
    OffsetIsProduct(y, f.bgraStride);
    OffsetLe(f.width, f.width, c.channels.ChannelsCount());
    Nv12ToRgbxRow(yPlane, yOffset, uvPlane, uvOffset, bgra, dstBase, f.width, c, 0, 0);
    forall x: nat | x < f.width
      ensures PixelStored(bgra[..], dstBase, x, c.channels, NvExpected(yPlane, uvPlane, f, c)(y, x))
    {
      RowTailFromStart(yPlane, uvPlane, f, c, y, x);
      assert PixelStored(bgra[..], dstBase, x, c.channels, NvPixel(yPlane, yOffset, uvPlane, uvOffset, 0, 0, x, c));
    }
  }

  /** `yuv_nv12_to_rgbx` with every row running the scalar tail from column
      0: every row of the destination (length / stride of them) holds its
      decoded pixels, and every other byte is unchanged. */
  method Nv12ToRgbx(yPlane: seq<u8>, uvPlane: seq<u8>, bgra: array<u8>, f: NvImage, c: NvInverse)
    requires ImageFits(|yPlane|, |uvPlane|, bgra.Length, f, c)
    modifies bgra
    ensures RowsHold(bgra[..], old(bgra[..]), f.bgraStride, f.width, c.channels, bgra.Length / f.bgraStride,
                     NvExpected(yPlane, uvPlane, f, c))
  {
    var rows := bgra.Length / f.bgraStride;
    ghost var expected := NvExpected(yPlane, uvPlane, f, c);
    ghost var b0 := bgra[..];
    RowsHoldNone(b0, f.bgraStride, f.width, c.channels, expected);
    var y := 0;
    while y < rows
      invariant y <= rows
      invariant RowsHold(bgra[..], b0, f.bgraStride, f.width, c.channels, y, expected)
    {
      ghost var mid := bgra[..];
      RowBounds(|yPlane|, |uvPlane|, bgra.Length, f, c, y);
      Nv12ToRgbxImageRow(yPlane, uvPlane, bgra, f, c, y);
      RowsHoldNext(b0, mid, bgra[..], f.bgraStride, f.width, c.channels, y, expected);
      y := y + 1;
    }
  }
}
