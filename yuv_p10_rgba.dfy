/**
 * Decoding of a high-bit-depth planar image (three planes of 16-bit
 * samples) into an 8-bit interleaved RGB/BGR/RGBA/BGRA image: the scalar
 * path of `yuv_p16_to_image_impl`.
 *
 * Each plane is modelled as the bytes it occupies in memory, two per
 * sample, because the kernel reads a sample as two unaligned bytes and
 * applies `from_be` or `from_le` to them: the sample's value then depends
 * on the declared endianness only, not on the host's. When the significant
 * bits sit at the top of the 16 bits (`MostSignificantBytes`) the value is
 * shifted down by 16 - bit_depth. Strides count samples; the kernel doubles
 * them into byte strides.
 *
 * The row loop visits pixel pairs. As written it stores the second pixel
 * of a pair only when the pixel after it exists, and it advances the chroma
 * index by one per pair in every sampling, 4:4:4 included; both are
 * modelled as written, and `P16ToRgbaRowCorrected` is the row as evidently
 * intended.
 */
module YuvP10Rgba {
  import opened Numerics
  import opened Wrappers
  import opened YuvSupport
  import opened Planes
  import opened InverseTransforms

  /** Fixed-point precision of the transform. */
  const Precision: nat := 6

  /** The const-generic choices and the per-call parameters of one conversion. */
  datatype P16Inverse = P16Inverse(
    channels: YuvSourceChannels,
    sampling: YuvChromaSample,
    endianness: YuvEndianness,
    packing: YuvBytesPacking,
    range: YuvRange,
    t: InverseTransform,
    bitDepth: nat)

  /** The bit depths the kernel accepts without a panic: `get_yuv_range`
      shifts by depth - 8 (limited range) or depth - 1, and `16 - bit_depth`
      is computed on an unsigned integer. */
  predicate DepthOk(c: P16Inverse)
  {
    RangeDepthOk(c.bitDepth, c.range) && c.bitDepth <= 16
  }

  /** The offsets and range of the conversion (a placeholder range outside
      `DepthOk`, where no kernel runs). */
  function RangeOf(c: P16Inverse): YuvChromaRange
  {
    if RangeDepthOk(c.bitDepth, c.range) then GetYuvRange(c.bitDepth, c.range) else YuvChromaRange(0, 0, 0, 0, c.range)
  }

  /** `msb_shift = 16 - bit_depth`. */
  function MsbShift(depth: nat): nat
  {
    if depth <= 16 then 16 - depth else 0
  }

  /** `store_shift = PRECISION + bit_depth.saturating_sub(8)`: the shift
      that brings a bit_depth-bit result down to 8 bits. */
  function StoreShift(depth: nat): nat
  {
    Precision + (if depth >= 8 then depth - 8 else 0)
  }

  /** Round with 1 << 5, shift by store_shift, `.min(255).max(0)`. */
  function Quant(c: P16Inverse): Quantiser
  {
    Quantiser(32, StoreShift(c.bitDepth), 255)
  }

  // ------------------------------------------------------------- samples

  /** The value of a sample whose two bytes in memory are `b0`, `b1`:
      `u16::from_be`/`from_le` of the unaligned read, then `>>= msb_shift`
      for most-significant packing. */
  function SampleValue(b0: int, b1: int, c: P16Inverse): int
  {
    var v := if c.endianness == BigEndian then b0 * 256 + b1 else b1 * 256 + b0;
    if c.packing == MostSignificantBytes then Shr(v, MsbShift(c.bitDepth)) else v
  }

  /** Sample `i` of the plane row that starts at byte `offset`. */
  function SampleAt(plane: seq<u8>, offset: nat, i: nat, c: P16Inverse): int
  {
    SampleValue(ByteAt(plane, offset + 2 * i), ByteAt(plane, offset + 2 * i + 1), c)
  }

  /** The 16-bit word a producer stores for sample value `s`: shifted to
      the top of the word for most-significant packing. */
  function StoredWord(s: nat, c: P16Inverse): int
  {
    if c.packing == MostSignificantBytes then s * Pow2(MsbShift(c.bitDepth)) else s
  }

  /** The two bytes, in memory order, that a producer writes for sample
      value `s`: its stored word laid out in the declared endianness. */
  function EncodeSample(s: nat, c: P16Inverse): (int, int)
  {
    var w := StoredWord(s, c);
    if c.endianness == BigEndian then (w / 256, w % 256) else (w % 256, w / 256)
  }

  /** A bit_depth-bit sample's stored word fits 16 bits, and the kernel's
      `>>= msb_shift` undoes the producer's shift. */
  lemma StoredWordFits(s: nat, c: P16Inverse)
    requires c.bitDepth <= 16 && s < Pow2(c.bitDepth)
    ensures 0 <= StoredWord(s, c) < 65536
    ensures (if c.packing == MostSignificantBytes then Shr(StoredWord(s, c), MsbShift(c.bitDepth)) else StoredWord(s, c)) == s
  {
    var sh := MsbShift(c.bitDepth);
    var top, unit := Pow2(c.bitDepth), Pow2(sh);
    assert c.bitDepth + sh == 16;
    Pow2Add(c.bitDepth, sh);
    Pow2Sixteen();
    assert top * unit == 65536;
    if c.packing == MostSignificantBytes {
      MulMonotone(s + 1, top, unit);
      assert s * unit + unit == (s + 1) * unit;
      DivModOf(s, 0, unit);
      assert StoredWord(s, c) == s * unit;
    } else {
      Pow2Monotone(c.bitDepth, 16);
    }
  }

  /** A 16-bit word splits into a high and a low byte that recombine to it. */
  lemma WordBytes(w: int)
    requires 0 <= w < 65536
    ensures 0 <= w / 256 < 256 && 0 <= w % 256 < 256 && (w / 256) * 256 + w % 256 == w
  {
  }

  /** Reading back a sample of bit_depth bits written by `EncodeSample`
      gives the sample, for every endianness and packing; the two bytes are
      bytes. */
  lemma SampleRoundTrip(s: nat, c: P16Inverse)
    requires c.bitDepth <= 16 && s < Pow2(c.bitDepth)
    ensures 0 <= EncodeSample(s, c).0 < 256 && 0 <= EncodeSample(s, c).1 < 256
    ensures SampleValue(EncodeSample(s, c).0, EncodeSample(s, c).1, c) == s
  {
    StoredWordFits(s, c);
    WordBytes(StoredWord(s, c));
  }

  /** With most-significant packing every sample fits bit_depth bits; with
      least-significant packing it fits 16 bits (the kernel does not mask
      the unused top bits). */
  lemma SampleFits(b0: u8, b1: u8, c: P16Inverse)
    requires c.bitDepth <= 16
    ensures c.packing == MostSignificantBytes ==> 0 <= SampleValue(b0 as int, b1 as int, c) < Pow2(c.bitDepth)
    ensures c.packing == LeastSignificantBytes ==> 0 <= SampleValue(b0 as int, b1 as int, c) < 65536
  {
    var v := if c.endianness == BigEndian then b0 as int * 256 + b1 as int else b1 as int * 256 + b0 as int;
    assert 0 <= v < 65536;
    if c.packing == MostSignificantBytes {
      var sh := MsbShift(c.bitDepth);
      var top, unit, q := Pow2(c.bitDepth), Pow2(sh), Shr(v, sh);
      assert c.bitDepth + sh == 16;
      Pow2Add(c.bitDepth, sh);
      Pow2Sixteen();
      assert top * unit == 65536;
      ShrBrackets(v, sh);
      assert q * unit <= v < q * unit + unit;
      assert 0 <= q by {
        if q < 0 { MulMonotone(q, -1, unit); }
      }
      assert q < top by {
        if q >= top { MulMonotone(top, q, unit); }
      }
      assert SampleValue(b0 as int, b1 as int, c) == q;
    }
  }

  /** The two endiannesses read the same value from swapped bytes. */
  lemma EndiannessSwaps(b0: int, b1: int, c: P16Inverse)
    ensures SampleValue(b0, b1, c.(endianness := BigEndian)) == SampleValue(b1, b0, c.(endianness := LittleEndian))
  {
  }

  // --------------------------------------------------------------- pixels

  /** Pixel `x` decoded from luma sample x and chroma sample `ci`. */
  function P16Pixel(src: RowSource, x: nat, ci: nat, c: P16Inverse): Colour
  {
    DecodePixel(SampleAt(src.y, src.yOffset, x, c), SampleAt(src.u, src.uOffset, ci, c), SampleAt(src.v, src.vOffset, ci, c),
                RangeOf(c).biasY, RangeOf(c).biasUV, c.t, Quant(c))
  }

  /** The chroma sample the row loop reads for pixel `x` when it starts at
      pixel `x0` and chroma sample `cx0` and moves `per` pixels per chroma
      sample: as written `per` is 2 in every sampling. */
  function ChromaIndex(x0: nat, cx0: nat, x: nat, per: nat): nat
  {
    if x < x0 || per == 0 then cx0 else cx0 + (x - x0) / per
  }

  /** Columns [lo, hi) of the row at `dstBase` hold their decoded pixels. */
  ghost predicate RowDone(a: seq<u8>, dstBase: nat, src: RowSource, x0: nat, cx0: nat, per: nat, c: P16Inverse, lo: nat, hi: nat)
  {
    forall x: nat :: lo <= x < hi ==> PixelStored(a, dstBase, x, c.channels, P16Pixel(src, x, ChromaIndex(x0, cx0, x, per), c))
  }

  lemma RowDoneJoin(a: seq<u8>, dstBase: nat, src: RowSource, x0: nat, cx0: nat, per: nat, c: P16Inverse, lo: nat, mid: nat, hi: nat)
    requires RowDone(a, dstBase, src, x0, cx0, per, c, lo, mid) && RowDone(a, dstBase, src, x0, cx0, per, c, mid, hi)
    ensures RowDone(a, dstBase, src, x0, cx0, per, c, lo, hi)
  {
  }

  /** Columns done before a store stay done: the store only changes bytes
      from pixel `x` on. */
  lemma RowDoneKept(a: seq<u8>, b: seq<u8>, dstBase: nat, src: RowSource, x0: nat, cx0: nat, per: nat, c: P16Inverse,
                    lo: nat, x: nat, hi: int)
    requires RowDone(a, dstBase, src, x0, cx0, per, c, lo, x)
    requires SameOutside(a, b, dstBase + Offset(x, c.channels.ChannelsCount()), hi)
    ensures RowDone(b, dstBase, src, x0, cx0, per, c, lo, x)
  {
    forall x': nat | lo <= x' < x
      ensures PixelStored(b, dstBase, x', c.channels, P16Pixel(src, x', ChromaIndex(x0, cx0, x', per), c))
    {
      OffsetLe(x' + 1, x, c.channels.ChannelsCount());
      PixelKept(a, b, dstBase, x', c.channels, P16Pixel(src, x', ChromaIndex(x0, cx0, x', per), c),
                dstBase + Offset(x, c.channels.ChannelsCount()), hi);
    }
  }

  /** The kernel's decode of the samples it reads is `P16Pixel`. */
  lemma P16PixelFromBytes(src: RowSource, x: nat, ci: nat, c: P16Inverse)
    requires src.yOffset + 2 * x + 2 <= |src.y| && src.uOffset + 2 * ci + 2 <= |src.u| && src.vOffset + 2 * ci + 2 <= |src.v|
    ensures P16Pixel(src, x, ci, c) ==
      DecodePixel(SampleValue(src.y[src.yOffset + 2 * x] as int, src.y[src.yOffset + 2 * x + 1] as int, c),
                  SampleValue(src.u[src.uOffset + 2 * ci] as int, src.u[src.uOffset + 2 * ci + 1] as int, c),
                  SampleValue(src.v[src.vOffset + 2 * ci] as int, src.v[src.vOffset + 2 * ci + 1] as int, c),
                  RangeOf(c).biasY, RangeOf(c).biasUV, c.t, Quant(c))
  {
  }

  /** Reads pixel `x`'s samples (luma x, chroma ci) and stores its colour;
      `want` names that colour for the caller. */
  method DecodeStore(src: RowSource, x: nat, ci: nat, rgba: array<u8>, dstBase: nat, c: P16Inverse, ghost want: Colour)
    requires src.yOffset + 2 * x + 2 <= |src.y| && src.uOffset + 2 * ci + 2 <= |src.u| && src.vOffset + 2 * ci + 2 <= |src.v|
    requires dstBase + Offset(x + 1, c.channels.ChannelsCount()) <= rgba.Length
    requires want == P16Pixel(src, x, ci, c)
    modifies rgba
    ensures PixelStored(rgba[..], dstBase, x, c.channels, want)
    ensures SameOutside(old(rgba[..]), rgba[..], dstBase + Offset(x, c.channels.ChannelsCount()),
                        dstBase + Offset(x + 1, c.channels.ChannelsCount()))
  {
    P16PixelFromBytes(src, x, ci, c);
    var ys := SampleValue(src.y[src.yOffset + 2 * x] as int, src.y[src.yOffset + 2 * x + 1] as int, c);
    var us := SampleValue(src.u[src.uOffset + 2 * ci] as int, src.u[src.uOffset + 2 * ci + 1] as int, c);
    var vs := SampleValue(src.v[src.vOffset + 2 * ci] as int, src.v[src.vOffset + 2 * ci + 1] as int, c);
    var p := DecodePixel(ys, us, vs, RangeOf(c).biasY, RangeOf(c).biasUV, c.t, Quant(c));
    StorePixel(rgba, dstBase, x, c.channels, p);
  }

  // ---------------------------------------------------- the row, as written

  /** The column after the last one the row loop stores, started at `x0`:
      the second pixel of the last pair is never stored, so when width - x0
      is even and positive the last column is left as it was. */
  function WrittenEnd(x0: nat, width: nat): nat
  {
    if width <= x0 then x0 else if (width - x0) % 2 == 0 then width - 1 else width
  }

  /** The number of pairs the row loop visits from `x0`. */
  function Pairs(x0: nat, width: nat): nat
  {
    if width <= x0 then 0 else (width - x0 + 1) / 2
  }

  /** Stores pixel x + 1 of a pair whose pixel x is already stored, with
      chroma sample `ci`: pixels x and x + 1 are then done. */
  method StoreSecond(src: RowSource, rgba: array<u8>, dstBase: nat, width: nat, c: P16Inverse, x0: nat, cx0: nat, per: nat,
                     x: nat, ci: nat)
    requires x + 2 <= width && ci == ChromaIndex(x0, cx0, x + 1, per)
    requires src.yOffset + 2 * width <= |src.y| && src.uOffset + 2 * ci + 2 <= |src.u| && src.vOffset + 2 * ci + 2 <= |src.v|
    requires dstBase + Offset(width, c.channels.ChannelsCount()) <= rgba.Length
    requires RowDone(rgba[..], dstBase, src, x0, cx0, per, c, x, x + 1)
    modifies rgba
    ensures RowDone(rgba[..], dstBase, src, x0, cx0, per, c, x, x + 2)
    ensures SameOutside(old(rgba[..]), rgba[..], dstBase + Offset(x + 1, c.channels.ChannelsCount()),
                        dstBase + Offset(x + 2, c.channels.ChannelsCount()))
  {
    var n := c.channels.ChannelsCount();
    ghost var a1 := rgba[..];
    ghost var p := P16Pixel(src, x, ChromaIndex(x0, cx0, x, per), c);
    assert PixelStored(a1, dstBase, x, c.channels, p);
    OffsetLe(x + 2, width, n);
    DecodeStore(src, x + 1, ci, rgba, dstBase, c, P16Pixel(src, x + 1, ci, c));
    PixelKept(a1, rgba[..], dstBase, x, c.channels, p, dstBase + Offset(x + 1, n), dstBase + Offset(x + 2, n));
  }

  /** A row done over [x0, x) and then over [x, hi), each change confined
      to its own columns, is done over [x0, hi) with only those columns
      changed. */
  lemma RowDoneExtend(a0: seq<u8>, a1: seq<u8>, a2: seq<u8>, dstBase: nat, src: RowSource, x0: nat, cx0: nat, per: nat,
                      c: P16Inverse, x: nat, hi: nat)
    requires x0 <= x <= hi
    requires RowDone(a1, dstBase, src, x0, cx0, per, c, x0, x)
    requires SameOutside(a0, a1, dstBase + Offset(x0, c.channels.ChannelsCount()), dstBase + Offset(x, c.channels.ChannelsCount()))
    requires RowDone(a2, dstBase, src, x0, cx0, per, c, x, hi)
    requires SameOutside(a1, a2, dstBase + Offset(x, c.channels.ChannelsCount()), dstBase + Offset(hi, c.channels.ChannelsCount()))
    ensures RowDone(a2, dstBase, src, x0, cx0, per, c, x0, hi)
    ensures SameOutside(a0, a2, dstBase + Offset(x0, c.channels.ChannelsCount()), dstBase + Offset(hi, c.channels.ChannelsCount()))
  {
    var n := c.channels.ChannelsCount();
    RowDoneKept(a1, a2, dstBase, src, x0, cx0, per, c, x0, x, dstBase + Offset(hi, n));
    RowDoneJoin(a2, dstBase, src, x0, cx0, per, c, x0, x, hi);
    OffsetLe(x0, x, n);
    OffsetLe(x, hi, n);
    SameOutsideTrans(a0, a1, a2, dstBase + Offset(x0, n), dstBase + Offset(x, n), dstBase + Offset(x, n),
                     dstBase + Offset(hi, n), dstBase + Offset(x0, n), dstBase + Offset(hi, n));
  }

  /** The row loop's iteration at pixel `x` and chroma sample `cx`: pixel
      x, then pixel x + 1 only when x + 2 < width, both with chroma cx; it
      returns the column after the last one stored. */
  method P16ToRgbaPair(src: RowSource, rgba: array<u8>, dstBase: nat, width: nat, c: P16Inverse, x0: nat, cx0: nat,
                       x: nat, cx: nat) returns (next: nat)
    requires x0 <= x < width && (x - x0) % 2 == 0 && cx == ChromaIndex(x0, cx0, x, 2)
    requires src.yOffset + 2 * width <= |src.y| && src.uOffset + 2 * cx + 2 <= |src.u| && src.vOffset + 2 * cx + 2 <= |src.v|
    requires dstBase + Offset(width, c.channels.ChannelsCount()) <= rgba.Length
    modifies rgba
    ensures next == if x + 2 < width then x + 2 else x + 1
    ensures RowDone(rgba[..], dstBase, src, x0, cx0, 2, c, x, next)
    ensures SameOutside(old(rgba[..]), rgba[..], dstBase + Offset(x, c.channels.ChannelsCount()),
                        dstBase + Offset(next, c.channels.ChannelsCount()))
  {
    var n := c.channels.ChannelsCount();
    ghost var a0 := rgba[..];
    OffsetLe(x + 1, width, n);
    DecodeStore(src, x, cx, rgba, dstBase, c, P16Pixel(src, x, cx, c));
    next := x + 1;
    if x + 2 < width {
      ghost var a1 := rgba[..];
      assert ChromaIndex(x0, cx0, x + 1, 2) == cx by {
        DivModOf((x - x0) / 2, 1, 2);
      }
      StoreSecond(src, rgba, dstBase, width, c, x0, cx0, 2, x, cx);
      next := x + 2;
      SameOutsideTrans(a0, a1, rgba[..], dstBase + Offset(x, n), dstBase + Offset(x + 1, n),
                       dstBase + Offset(x + 1, n), dstBase + Offset(x + 2, n), dstBase + Offset(x, n), dstBase + Offset(x + 2, n));
    }
  }

  /** The scalar loop of one row from pixel `x0` and chroma sample `cx0`
      (the pixels before are the vector prefix's): pixel x from x0 on holds
      the decode of luma x with chroma sample cx0 + (x - x0) / 2, up to
      `WrittenEnd`; no other byte changes. */
  method P16ToRgbaRow(src: RowSource, rgba: array<u8>, dstBase: nat, width: nat, c: P16Inverse, x0: nat, cx0: nat)
    requires src.yOffset + 2 * width <= |src.y|
    requires src.uOffset + 2 * (cx0 + Pairs(x0, width)) <= |src.u| && src.vOffset + 2 * (cx0 + Pairs(x0, width)) <= |src.v|
    requires dstBase + Offset(width, c.channels.ChannelsCount()) <= rgba.Length
    modifies rgba
    ensures RowDone(rgba[..], dstBase, src, x0, cx0, 2, c, x0, WrittenEnd(x0, width))
    ensures SameOutside(old(rgba[..]), rgba[..], dstBase + Offset(x0, c.channels.ChannelsCount()),
                        dstBase + Offset(WrittenEnd(x0, width), c.channels.ChannelsCount()))
  {
    var n := c.channels.ChannelsCount();
    ghost var a0 := rgba[..];
    var x := x0;
    var cx := cx0;
    ghost var k: nat := 0;
    ghost var done := x0;
    while x < width
      invariant x == x0 + 2 * k && cx == cx0 + k
      invariant k > 0 ==> x0 < width && x <= width + 1
      invariant done == (if x < width || k == 0 then x else x - 1)
      invariant RowDone(rgba[..], dstBase, src, x0, cx0, 2, c, x0, done)
      invariant SameOutside(a0, rgba[..], dstBase + Offset(x0, n), dstBase + Offset(done, n))
    {
      ghost var a1 := rgba[..];
      PairWalk(x0, cx0, width, k);
      var next := P16ToRgbaPair(src, rgba, dstBase, width, c, x0, cx0, x, cx);
      RowDoneExtend(a0, a1, rgba[..], dstBase, src, x0, cx0, 2, c, x, next);
      x := x + 2;
      cx := cx + 1;
      k := k + 1;
      done := next;
    }
    if k > 0 {
      WalkEnd(x0, width, k);
    }
  }

  /** Iteration k of the row loop starts at an even distance from x0, reads
      chroma sample cx0 + k, and that sample lies inside the chroma row. */
  lemma PairWalk(x0: nat, cx0: nat, width: nat, k: nat)
    requires x0 + 2 * k < width
    ensures (2 * k) % 2 == 0 && ChromaIndex(x0, cx0, x0 + 2 * k, 2) == cx0 + k && k < Pairs(x0, width)
  {
    DivModOf(k, 0, 2);
  }

  /** The loop stops on the first even step at or past the width: one
      column past the last stored one. */
  lemma WalkEnd(x0: nat, width: nat, k: nat)
    requires x0 < width <= x0 + 2 * k <= width + 1
    ensures x0 + 2 * k - 1 == WrittenEnd(x0, width)
  {
    DivModOf(k, 0, 2);
  }

  /** From column 0 the loop leaves exactly the last column of an
      even-width row unwritten, and writes every column of an odd-width
      row. */
  lemma WrittenEndFromStart(width: nat)
    ensures width % 2 == 0 && width > 0 ==> WrittenEnd(0, width) == width - 1
    ensures width % 2 == 1 ==> WrittenEnd(0, width) == width
  {
  }

  /** In 4:4:4, as written, the two pixels of a pair read the same chroma
      sample, so pixel 1 decodes with chroma sample 0 rather than its own. */
  lemma Chroma444AsWritten()
    ensures ChromaIndex(0, 0, 1, 2) == 0 && ChromaIndex(0, 0, 3, 2) == 1
  {
  }

  // ------------------------------------------------------------ the image

  /** The three planes (bytes in memory order), their strides in samples,
      and the width. */
  datatype P16Planes = P16Planes(y: seq<u8>, yStride: nat, u: seq<u8>, uStride: nat, v: seq<u8>, vStride: nat, width: nat)

  /** The plane rows image row `y` reads: luma row y, chroma row y / 2
      (4:2:0) or y; byte strides are twice the sample strides. */
  function RowSourceOf(img: P16Planes, s: YuvChromaSample, y: nat): RowSource
  {
    RowSource(img.y, Offset(y, 2 * img.yStride), img.u, Offset(ChromaRow(s, y), 2 * img.uStride),
              img.v, Offset(ChromaRow(s, y), 2 * img.vStride))
  }

  /** Pixel (y, x) of the image as written: luma (y, x) with chroma sample
      x / 2 of the row's chroma rows, in every sampling. */
  function P16Expected(img: P16Planes, c: P16Inverse): (nat, nat) -> Colour
  {
    (y: nat, x: nat) => P16Pixel(RowSourceOf(img, c.sampling, y), x, x / 2, c)
  }

  /** Every destination row (length / stride of them) reads plane rows that
      exist, and holds its pixels. */
  predicate ImageFits(img: P16Planes, rgbaLen: nat, rgbaStride: nat, c: P16Inverse)
  {
    && rgbaStride > 0
    && Offset(img.width, c.channels.ChannelsCount()) <= rgbaStride
    && (rgbaLen / rgbaStride > 0 ==>
          var last := rgbaLen / rgbaStride - 1;
          && Offset(last, 2 * img.yStride) + 2 * img.width <= |img.y|
          && Offset(ChromaRow(c.sampling, last), 2 * img.uStride) + 2 * Pairs(0, img.width) <= |img.u|
          && Offset(ChromaRow(c.sampling, last), 2 * img.vStride) + 2 * Pairs(0, img.width) <= |img.v|)
  }

  lemma RowBounds(img: P16Planes, rgbaLen: nat, rgbaStride: nat, c: P16Inverse, y: nat)
    requires ImageFits(img, rgbaLen, rgbaStride, c) && y < rgbaLen / rgbaStride
    ensures var src := RowSourceOf(img, c.sampling, y);
      && src.yOffset + 2 * img.width <= |src.y|
      && src.uOffset + 2 * Pairs(0, img.width) <= |src.u| && src.vOffset + 2 * Pairs(0, img.width) <= |src.v|
    ensures Offset(y + 1, rgbaStride) <= rgbaLen
  {
    var last := rgbaLen / rgbaStride - 1;
    OffsetLe(y, last, 2 * img.yStride);
    OffsetLe(ChromaRow(c.sampling, y), ChromaRow(c.sampling, last), 2 * img.uStride);
    OffsetLe(ChromaRow(c.sampling, y), ChromaRow(c.sampling, last), 2 * img.vStride);
    RowsFit(rgbaLen, rgbaStride, y);
  }

  /** Row `y` of the image: the row loop from pixel 0 and chroma sample 0. */
  method P16ToRgbaImageRow(img: P16Planes, rgba: array<u8>, rgbaStride: nat, c: P16Inverse, y: nat)
    requires ImageFits(img, rgba.Length, rgbaStride, c) && y < rgba.Length / rgbaStride
    modifies rgba
    ensures RowPixels(rgba[..], Offset(y, rgbaStride), WrittenEnd(0, img.width), c.channels, P16Expected(img, c), y)
    ensures SameOutside(old(rgba[..]), rgba[..], Offset(y, rgbaStride),
                        Offset(y, rgbaStride) + Offset(WrittenEnd(0, img.width), c.channels.ChannelsCount()))
  {
    RowBounds(img, rgba.Length, rgbaStride, c, y);
    var yOffset := y * (2 * img.yStride);
    var uOffset := if c.sampling == YUV420 then (y / 2) * (2 * img.uStride) else y * (2 * img.uStride);
    var vOffset := if c.sampling == YUV420 then (y / 2) * (2 * img.vStride) else y * (2 * img.vStride);
    var dstBase := y * rgbaStride;
    OffsetIsProduct(y, 2 * img.yStride);
    OffsetIsProduct(ChromaRow(c.sampling, y), 2 * img.uStride);
    OffsetIsProduct(ChromaRow(c.sampling, y), 2 * img.vStride);
    OffsetIsProduct(y, rgbaStride);
    var src := RowSource(img.y, yOffset, img.u, uOffset, img.v, vOffset);
    assert src == RowSourceOf(img, c.sampling, y);
    P16ToRgbaRow(src, rgba, dstBase, img.width, c, 0, 0);
    forall x: nat | x < WrittenEnd(0, img.width)
      ensures PixelStored(rgba[..], dstBase, x, c.channels, P16Expected(img, c)(y, x))
    {
      assert PixelStored(rgba[..], dstBase, x, c.channels, P16Pixel(src, x, ChromaIndex(0, 0, x, 2), c));
    }
  }

  /** `yuv_p16_to_image_impl` with every row running the scalar loop from
      pixel 0. `check` is the outcome of `check_constraints` on the planar
      image, whose definition is not part of this model: its error is
      returned before anything is written. Otherwise every row of the
      destination holds its decoded pixels up to `WrittenEnd(0, width)`, and
      every other byte, the last column of an even-width image included, is
      unchanged. */
  method YuvP16ToImage<E>(img: P16Planes, rgba: array<u8>, rgbaStride: nat, c: P16Inverse, check: Result<(), E>)
    returns (r: Result<(), E>)
    requires DepthOk(c)
    requires check.Ok? ==> ImageFits(img, rgba.Length, rgbaStride, c)
    modifies rgba
    ensures check.Err? ==> r == check && rgba[..] == old(rgba[..])
    ensures check.Ok? ==> r.Ok? && RowsHold(rgba[..], old(rgba[..]), rgbaStride, WrittenEnd(0, img.width), c.channels,
                                            rgba.Length / rgbaStride, P16Expected(img, c))
  {
    if check.Err? {
      return check;
    }
    var rows := rgba.Length / rgbaStride;
    ghost var expected := P16Expected(img, c);
    ghost var a0 := rgba[..];
    var width' := WrittenEnd(0, img.width);
    RowsHoldNone(a0, rgbaStride, width', c.channels, expected);
    OffsetLe(width', img.width, c.channels.ChannelsCount());
    var y := 0;
    while y < rows
      invariant y <= rows
      invariant RowsHold(rgba[..], a0, rgbaStride, width', c.channels, y, expected)
    {
      ghost var mid := rgba[..];
      RowBounds(img, rgba.Length, rgbaStride, c, y);
      P16ToRgbaImageRow(img, rgba, rgbaStride, c, y);
      RowsHoldNext(a0, mid, rgba[..], rgbaStride, width', c.channels, y, expected);
      y := y + 1;
    }
    r := Ok(());
  }

  // --------------------------------------------- the row, as evidently intended

  /** The corrected loop's iteration: pixel x with chroma cx, then pixel
      x + 1 whenever it exists, with chroma cx + 1 in 4:4:4 and cx
      otherwise. */
  method P16ToRgbaPairCorrected(src: RowSource, rgba: array<u8>, dstBase: nat, width: nat, c: P16Inverse, x0: nat, cx0: nat,
                                x: nat, cx: nat)
    requires x0 <= x < width && (x - x0) % 2 == 0 && cx == ChromaIndex(x0, cx0, x, ColumnStep(c.sampling))
    requires src.yOffset + 2 * width <= |src.y|
    requires src.uOffset + 2 * cx0 + 2 * Iterations(x0, width, c.sampling) <= |src.u|
    requires src.vOffset + 2 * cx0 + 2 * Iterations(x0, width, c.sampling) <= |src.v|
    requires dstBase + Offset(width, c.channels.ChannelsCount()) <= rgba.Length
    modifies rgba
    ensures RowDone(rgba[..], dstBase, src, x0, cx0, ColumnStep(c.sampling), c, x, Min(x + 2, width))
    ensures SameOutside(old(rgba[..]), rgba[..], dstBase + Offset(x, c.channels.ChannelsCount()),
                        dstBase + Offset(Min(x + 2, width), c.channels.ChannelsCount()))
  {
    var n := c.channels.ChannelsCount();
    var per := ColumnStep(c.sampling);
    ghost var a0 := rgba[..];
    ChromaReadable(x0, cx0, x, width, c.sampling);
    OffsetLe(x + 1, width, n);
    DecodeStore(src, x, cx, rgba, dstBase, c, P16Pixel(src, x, cx, c));
    if x + 1 < width {
      SecondCorrected(src, rgba, dstBase, width, c, x0, cx0, x, cx, a0);
    }
  }

  /** The second pixel of the corrected iteration: pixel x + 1 with chroma
      cx + 1 in 4:4:4 and cx otherwise, after pixel x. */
  method SecondCorrected(src: RowSource, rgba: array<u8>, dstBase: nat, width: nat, c: P16Inverse, x0: nat, cx0: nat,
                         x: nat, cx: nat, ghost a0: seq<u8>)
    requires x0 <= x && x + 1 < width && (x - x0) % 2 == 0 && cx == ChromaIndex(x0, cx0, x, ColumnStep(c.sampling))
    requires src.yOffset + 2 * width <= |src.y|
    requires src.uOffset + 2 * cx0 + 2 * Iterations(x0, width, c.sampling) <= |src.u|
    requires src.vOffset + 2 * cx0 + 2 * Iterations(x0, width, c.sampling) <= |src.v|
    requires dstBase + Offset(width, c.channels.ChannelsCount()) <= rgba.Length
    requires RowDone(rgba[..], dstBase, src, x0, cx0, ColumnStep(c.sampling), c, x, x + 1)
    requires SameOutside(a0, rgba[..], dstBase + Offset(x, c.channels.ChannelsCount()), dstBase + Offset(x + 1, c.channels.ChannelsCount()))
    modifies rgba
    ensures RowDone(rgba[..], dstBase, src, x0, cx0, ColumnStep(c.sampling), c, x, x + 2)
    ensures SameOutside(a0, rgba[..], dstBase + Offset(x, c.channels.ChannelsCount()), dstBase + Offset(x + 2, c.channels.ChannelsCount()))
  {
    var n := c.channels.ChannelsCount();
    var per := ColumnStep(c.sampling);
    ghost var a1 := rgba[..];
    var cx1 := if c.sampling == YUV444 then cx + 1 else cx;
    ChromaReadable(x0, cx0, x + 1, width, c.sampling);
    assert ChromaIndex(x0, cx0, x + 1, per) == cx1 by {
      DivModOf((x - x0) / 2, 1, 2);
    }
    StoreSecond(src, rgba, dstBase, width, c, x0, cx0, per, x, cx1);
    SameOutsideTrans(a0, a1, rgba[..], dstBase + Offset(x, n), dstBase + Offset(x + 1, n),
                     dstBase + Offset(x + 1, n), dstBase + Offset(x + 2, n), dstBase + Offset(x, n), dstBase + Offset(x + 2, n));
  }

  /** Every pixel of the row reads a chroma sample inside the chroma row. */
  lemma ChromaReadable(x0: nat, cx0: nat, x: nat, width: nat, s: YuvChromaSample)
    requires x0 <= x < width
    ensures ChromaIndex(x0, cx0, x, ColumnStep(s)) < cx0 + Iterations(x0, width, s)
  {
  }

  /** The row loop as evidently intended: every pixel from x0 to the width
      is stored, and pixel x decodes with chroma sample
      cx0 + (x - x0) / step, one per pixel in 4:4:4 and one per pair
      otherwise. */
  method P16ToRgbaRowCorrected(src: RowSource, rgba: array<u8>, dstBase: nat, width: nat, c: P16Inverse, x0: nat, cx0: nat)
    requires src.yOffset + 2 * width <= |src.y|
    requires src.uOffset + 2 * cx0 + 2 * Iterations(x0, width, c.sampling) <= |src.u|
    requires src.vOffset + 2 * cx0 + 2 * Iterations(x0, width, c.sampling) <= |src.v|
    requires dstBase + Offset(width, c.channels.ChannelsCount()) <= rgba.Length
    modifies rgba
    ensures RowDone(rgba[..], dstBase, src, x0, cx0, ColumnStep(c.sampling), c, x0, width)
    ensures SameOutside(old(rgba[..]), rgba[..], dstBase + Offset(x0, c.channels.ChannelsCount()),
                        dstBase + Offset(width, c.channels.ChannelsCount()))
  {
    var n := c.channels.ChannelsCount();
    var per := ColumnStep(c.sampling);
    var advance := if c.sampling == YUV444 then 2 else 1;
    ghost var a0 := rgba[..];
    var x := x0;
    var cx := cx0;
    ghost var k: nat := 0;
    while x < width
      invariant x == x0 + 2 * k && cx == cx0 + advance * k
      invariant x0 <= width ==> x <= width + 1
      invariant RowDone(rgba[..], dstBase, src, x0, cx0, per, c, x0, if x0 <= width then Min(x, width) else x0)
      invariant SameOutside(a0, rgba[..], dstBase + Offset(x0, n), dstBase + Offset(if x0 <= width then Min(x, width) else x0, n))
    {
      ghost var a1 := rgba[..];
      assert (x - x0) % 2 == 0 && cx == ChromaIndex(x0, cx0, x, per) by {
        DivModOf(k, 0, 2);
      }
      P16ToRgbaPairCorrected(src, rgba, dstBase, width, c, x0, cx0, x, cx);
      RowDoneExtend(a0, a1, rgba[..], dstBase, src, x0, cx0, per, c, x, Min(x + 2, width));
      x := x + 2;
      cx := cx + advance;
      k := k + 1;
    }
  }

  /** The corrected row gives every pixel of a 4:4:4 row its own chroma
      sample, and both pixels of a 4:2:2/4:2:0 pair the pair's sample. */
  lemma CorrectedChroma(x: nat, s: YuvChromaSample)
    ensures s == YUV444 ==> ChromaIndex(0, 0, x, ColumnStep(s)) == x
    ensures s != YUV444 ==> ChromaIndex(0, 0, x, ColumnStep(s)) == x / 2
  {
  }
}
