/**
 * The generic 4:2:2 planar -> RGBA reference of the `yuvs` crate
 * (`yuv422_to_rgba`). Samples are values of an unsigned type V that is
 * `sampleBits` wide; they are widened to i32 exactly, and each output value
 * is cast back to V, which keeps its low `sampleBits` bits.
 *
 * The function first checks the plane lengths, then derives the range and
 * the transform, then checks the RGBA length; only then does it write. Rows
 * are walked as zipped `chunks_exact` iterators: a row pair loop over
 * `chunks_exact(2)` of the luma stride row, and a tail for the leftover
 * luma sample, which takes the last chroma sample of the chroma stride row.
 */
module Yuv422 {
  import opened Numerics
  import opened Wrappers
  import opened YuvSupport
  import opened Planes
  import opened InverseTransforms

  datatype ConvertError =
    | LumaLength(expected: nat, got: nat)
    | ULength(expected: nat, got: nat)
    | VLength(expected: nat, got: nat)
    | TransformFailed(message: string)
    | RgbLength(expected: nat, got: nat)

  /** The three planes with their strides (in samples) and the image size. */
  datatype Planar = Planar(y: seq<int>, yStride: nat, u: seq<int>, uStride: nat, v: seq<int>, vStride: nat,
                           width: nat, height: nat)

  /** What one conversion fixes: the range biases, the transform, the
      largest value `(1 << bit_depth) - 1` and the width of V in bits. */
  datatype Decoder = Decoder(biasY: int, biasUV: int, t: InverseTransform, maxValue: nat, sampleBits: nat)

  /** The three samples one output pixel is decoded from. */
  datatype Samples = Samples(y: int, u: int, v: int)

  const Precision: nat := 11

  /** `(acc + (1 << 10)) >> 11`, clamped to [0, max_value]. */
  function Quant(dec: Decoder): Quantiser
  {
    Quantiser(Pow2(Precision - 1), Precision, dec.maxValue)
  }

  /** Every plane is exactly `stride * height` samples long. */
  predicate PlanesMatch(img: Planar)
  {
    && |img.y| == img.yStride * img.height
    && |img.u| == img.uStride * img.height
    && |img.v| == img.vStride * img.height
  }

  /** The checks of `yuv422_to_rgba` in their order: the three plane
      lengths, the transform derivation (`transform` is its outcome), the
      RGBA length. */
  function Validate(img: Planar, rgbLen: nat, bitDepth: nat, range: YuvRange, sampleBits: nat,
                    transform: Result<InverseTransform, string>): (r: Result<Decoder, ConvertError>)
    requires PlanesMatch(img) ==> RangeDepthOk(bitDepth, range) && bitDepth <= 30
    ensures r.Ok? <==> PlanesMatch(img) && transform.Ok? && rgbLen == img.width * img.height * 4
    ensures |img.y| != img.yStride * img.height ==> r == Err(LumaLength(img.yStride * img.height, |img.y|))
    ensures r.Err? && r.error.RgbLength? ==> PlanesMatch(img) && transform.Ok?
    ensures r.Ok? ==> r.value.maxValue == Pow2(bitDepth) - 1 && r.value.t == transform.value
    ensures r.Ok? ==> r.value.biasY == GetYuvRange(bitDepth, range).biasY && r.value.biasUV == GetYuvRange(bitDepth, range).biasUV
  {
    if |img.y| != img.yStride * img.height then Err(LumaLength(img.yStride * img.height, |img.y|))
    else if |img.u| != img.uStride * img.height then Err(ULength(img.uStride * img.height, |img.u|))
    else if |img.v| != img.vStride * img.height then Err(VLength(img.vStride * img.height, |img.v|))
    else
      var chromaRange := GetYuvRange(bitDepth, range);
      match transform
      case Err(message) => Err(TransformFailed(message))
      case Ok(t) =>
        if rgbLen != img.width * img.height * 4 then Err(RgbLength(img.width * img.height * 4, rgbLen))
        else Ok(Decoder(chromaRange.biasY, chromaRange.biasUV, t, Pow2(bitDepth) - 1, sampleBits))
  }

  // ------------------------------------------------------------ which pixels

  /** Pair iterations per row: the zip of the luma stride row's pairs, the
      chroma stride rows and the RGBA row's 8-value chunks stops at the
      shortest. */
  function Pairs(img: Planar): nat
  {
    Min(Min(img.yStride / 2, img.uStride), Min(img.vStride, img.width / 2))
  }

  /** The tail runs when the luma stride row leaves one sample over and the
      RGBA row leaves one 4-value chunk over. */
  predicate HasTail(img: Planar)
  {
    img.yStride % 2 == 1 && img.width % 2 == 1
  }

  function At(s: seq<int>, i: int): int
  {
    if 0 <= i < |s| then s[i] else 0
  }

  /** The samples pixel x of row r is decoded from, or None when the kernel
      leaves that pixel unwritten. The tail takes the last sample of each
      stride row. */
  function PixelSource(img: Planar, r: nat, x: nat): Option<Samples>
  {
    if x < 2 * Pairs(img) then
      Some(Samples(At(img.y, Offset(r, img.yStride) + x), At(img.u, Offset(r, img.uStride) + x / 2),
                   At(img.v, Offset(r, img.vStride) + x / 2)))
    else if HasTail(img) && x + 1 == img.width then
      Some(Samples(At(img.y, Offset(r, img.yStride) + img.yStride - 1), At(img.u, Offset(r, img.uStride) + img.uStride - 1),
                   At(img.v, Offset(r, img.vStride) + img.vStride - 1)))
    else None
  }

  function Decoded(dec: Decoder, smp: Samples): Colour
  {
    DecodePixel(smp.y, smp.u, smp.v, dec.biasY, dec.biasUV, dec.t, Quant(dec))
  }

  /** `v.as_()` into V: the low `bits` bits. */
  function Cast(v: int, bits: nat): int
  {
    v % Pow2(bits)
  }

  /** Values at..at + 4 hold R, G, B and max_value, each cast to V. */
  ghost predicate PixelHolds(a: seq<int>, at: nat, dec: Decoder, c: Colour)
  {
    && at + 4 <= |a|
    && a[at] == Cast(c.r, dec.sampleBits) && a[at + 1] == Cast(c.g, dec.sampleBits)
    && a[at + 2] == Cast(c.b, dec.sampleBits) && a[at + 3] == Cast(dec.maxValue, dec.sampleBits)
  }

  /** Pixel x of row r (rows are width * 4 values apart) holds its decoded
      colour, or, when the kernel does not write it, its value in `before`. */
  ghost predicate PixelDone(a: seq<int>, before: seq<int>, img: Planar, dec: Decoder, r: nat, x: nat)
  {
    var at := Offset(r, 4 * img.width) + 4 * x;
    && |a| == |before| && at + 4 <= |a|
    && match PixelSource(img, r, x)
       case Some(smp) => PixelHolds(a, at, dec, Decoded(dec, smp))
       case None => a[at] == before[at] && a[at + 1] == before[at + 1] && a[at + 2] == before[at + 2] && a[at + 3] == before[at + 3]
  }

  // ------------------------------------------------------------- properties

  /** Both pixels of a pair are decoded from the pair's one chroma sample. */
  lemma PairSharesChroma(img: Planar, r: nat, i: nat)
    requires i < Pairs(img)
    ensures PixelSource(img, r, 2 * i).Some? && PixelSource(img, r, 2 * i + 1).Some?
    ensures PixelSource(img, r, 2 * i).value.u == PixelSource(img, r, 2 * i + 1).value.u
    ensures PixelSource(img, r, 2 * i).value.v == PixelSource(img, r, 2 * i + 1).value.v
  {
    DivModOf(i, 0, 2);
    DivModOf(i, 1, 2);
  }

  /** When V holds bit_depth bits, the cast keeps every channel exactly,
      each lies in [0, max_value], and alpha is max_value. */
  lemma StoredExactly(a: seq<int>, at: nat, dec: Decoder, smp: Samples)
    requires PixelHolds(a, at, dec, Decoded(dec, smp)) && dec.maxValue < Pow2(dec.sampleBits)
    ensures a[at] == Decoded(dec, smp).r && a[at + 1] == Decoded(dec, smp).g && a[at + 2] == Decoded(dec, smp).b
    ensures a[at + 3] == dec.maxValue
    ensures 0 <= a[at] <= dec.maxValue && 0 <= a[at + 1] <= dec.maxValue && 0 <= a[at + 2] <= dec.maxValue
  {
    var c := Decoded(dec, smp);
    DivModOf(0, c.r, Pow2(dec.sampleBits));
    DivModOf(0, c.g, Pow2(dec.sampleBits));
    DivModOf(0, c.b, Pow2(dec.sampleBits));
    DivModOf(0, dec.maxValue, Pow2(dec.sampleBits));
  }

  /** The samples an output pixel evidently should come from: luma x and
      chroma x / 2 of its rows. */
  function IntendedSource(img: Planar, r: nat, x: nat): Samples
  {
    Samples(At(img.y, Offset(r, img.yStride) + x), At(img.u, Offset(r, img.uStride) + x / 2),
            At(img.v, Offset(r, img.vStride) + x / 2))
  }

  /** With tight strides (luma stride = width, chroma stride = ceil(width / 2))
      every pixel is written from its intended samples, the tail included. */
  lemma TightStridesAsIntended(img: Planar, r: nat, x: nat)
    requires img.yStride == img.width && img.uStride == (img.width + 1) / 2 && img.vStride == img.uStride
    requires x < img.width
    ensures PixelSource(img, r, x) == Some(IntendedSource(img, r, x))
  {
  }

  /** With an odd width and an even luma stride the last column is never
      written: the luma stride row has no leftover sample. */
  lemma LastColumnSkipped(img: Planar, r: nat)
    requires img.width % 2 == 1 && img.yStride % 2 == 0
    ensures PixelSource(img, r, img.width - 1) == None
  {
  }

  /** One image of that kind: a 1 x 1 image with a luma stride of 2. */
  lemma LastColumnSkippedExample()
    ensures PixelSource(Planar([16, 0], 2, [128], 1, [128], 1, 1, 1), 0, 0) == None
  {
    LastColumnSkipped(Planar([16, 0], 2, [128], 1, [128], 1, 1, 1), 0);
  }

  // ------------------------------------------------------------- the kernel

  /** The bounds every pass of the row loop relies on. */
  predicate RowFits(img: Planar, rgbLen: nat, r: nat)
  {
    && PlanesMatch(img) && rgbLen == img.width * img.height * 4 && r < img.height
    && img.yStride > 0 && img.uStride > 0 && img.vStride > 0 && img.width > 0
  }

  lemma InRow(r: nat, k: nat, stride: nat, height: nat)
    requires r < height && k < stride
    ensures Offset(r, stride) + k < stride * height
  {
    OffsetIsProduct(r, stride);
    MulMonotone(r + 1, height, stride);
  }

  /** Writes one pixel's four values. */
  method StoreRgba(a: array<int>, at: nat, dec: Decoder, c: Colour)
    requires at + 4 <= a.Length
    modifies a
    ensures PixelHolds(a[..], at, dec, c)
    ensures SameOutside(old(a[..]), a[..], at, at + 4)
  {
    a[at] := Cast(c.r, dec.sampleBits);
    a[at + 1] := Cast(c.g, dec.sampleBits);
    a[at + 2] := Cast(c.b, dec.sampleBits);
    a[at + 3] := Cast(dec.maxValue, dec.sampleBits);
  }

  /** A pixel whose four values lie outside the changed range stays done. */
  lemma PixelDoneKept(a: seq<int>, b: seq<int>, before: seq<int>, img: Planar, dec: Decoder, r: nat, x: nat, lo: int, hi: int)
    requires PixelDone(a, before, img, dec, r, x) && SameOutside(a, b, lo, hi)
    requires Offset(r, 4 * img.width) + 4 * x + 4 <= lo || hi <= Offset(r, 4 * img.width) + 4 * x
    ensures PixelDone(b, before, img, dec, r, x)
  {
    var at := Offset(r, 4 * img.width) + 4 * x;
    assert a[at] == b[at] && a[at + 1] == b[at + 1] && a[at + 2] == b[at + 2] && a[at + 3] == b[at + 3];
  }

  /** Pixels [0, lo) stay done while [lo, hi) is written. */
  lemma PixelsDoneKept(a: seq<int>, b: seq<int>, before: seq<int>, img: Planar, dec: Decoder, r: nat, lo: nat, hi: int)
    requires forall x: nat :: x < lo ==> PixelDone(a, before, img, dec, r, x)
    requires SameOutside(a, b, Offset(r, 4 * img.width) + 4 * lo, hi)
    ensures forall x: nat :: x < lo ==> PixelDone(b, before, img, dec, r, x)
  {
    forall x: nat | x < lo
      ensures PixelDone(b, before, img, dec, r, x)
    {
      PixelDoneKept(a, b, before, img, dec, r, x, Offset(r, 4 * img.width) + 4 * lo, hi);
    }
  }

  /** Writes pixel x from its samples `smp`, extending the done prefix of
      the row by one. */
  method DecodeAt(img: Planar, dec: Decoder, rgb: array<int>, r: nat, base: nat, x: nat, ys: int, us: int, vs: int,
                  ghost a0: seq<int>)
    requires base == Offset(r, 4 * img.width) && base + 4 * x + 4 <= rgb.Length && |a0| == rgb.Length
    requires PixelSource(img, r, x) == Some(Samples(ys, us, vs))
    requires forall x': nat :: x' < x ==> PixelDone(rgb[..], a0, img, dec, r, x')
    requires SameOutside(a0, rgb[..], base, base + 4 * x)
    modifies rgb
    ensures forall x': nat :: x' < x + 1 ==> PixelDone(rgb[..], a0, img, dec, r, x')
    ensures SameOutside(a0, rgb[..], base, base + 4 * x + 4)
  {
    ghost var a1 := rgb[..];
    StoreRgba(rgb, base + 4 * x, dec, DecodePixel(ys, us, vs, dec.biasY, dec.biasUV, dec.t, Quant(dec)));
    PixelsDoneKept(a1, rgb[..], a0, img, dec, r, x, base + 4 * x + 4);
    assert PixelDone(rgb[..], a0, img, dec, r, x);
    SameOutsideTrans(a0, a1, rgb[..], base, base + 4 * x, base + 4 * x, base + 4 * x + 4, base, base + 4 * x + 4);
  }

  /** Pass i of the pair loop: pixels 2i and 2i + 1 from luma 2i, 2i + 1 and
      chroma i of the stride rows. */
  method DecodePair(img: Planar, dec: Decoder, rgb: array<int>, r: nat, base: nat, i: nat, ghost a0: seq<int>)
    requires RowFits(img, rgb.Length, r) && base == Offset(r, 4 * img.width) && i < Pairs(img) && |a0| == rgb.Length
    requires forall x: nat :: x < 2 * i ==> PixelDone(rgb[..], a0, img, dec, r, x)
    requires SameOutside(a0, rgb[..], base, base + 8 * i)
    modifies rgb
    ensures forall x: nat :: x < 2 * i + 2 ==> PixelDone(rgb[..], a0, img, dec, r, x)
    ensures SameOutside(a0, rgb[..], base, base + 8 * i + 8)
  {
    InRow(r, 2 * i + 1, img.yStride, img.height);
    InRow(r, i, img.uStride, img.height);
    InRow(r, i, img.vStride, img.height);
    PairBound(r, i, img);
    var yRow, uRow, vRow := Offset(r, img.yStride), Offset(r, img.uStride), Offset(r, img.vStride);
    var us, vs := img.u[uRow + i], img.v[vRow + i];
    DivModOf(i, 0, 2);
    DivModOf(i, 1, 2);
    DecodeAt(img, dec, rgb, r, base, 2 * i, img.y[yRow + 2 * i], us, vs, a0);
    DecodeAt(img, dec, rgb, r, base, 2 * i + 1, img.y[yRow + 2 * i + 1], us, vs, a0);
  }

  /** The pair's eight values lie inside row r of the RGBA image. */
  lemma PairBound(r: nat, i: nat, img: Planar)
    requires r < img.height && i < img.width / 2
    ensures Offset(r, 4 * img.width) + 8 * i + 8 <= img.width * img.height * 4
  {
    InRow(r, 8 * i + 7, 4 * img.width, img.height);
    assert 4 * img.width * img.height == img.width * img.height * 4;
  }

  /** Pixels [lo, hi) that the kernel leaves unwritten are done once nothing
      in them changed. */
  lemma UnwrittenDone(a: seq<int>, a0: seq<int>, img: Planar, dec: Decoder, r: nat, hi: nat)
    requires forall x: nat :: x < 2 * Pairs(img) ==> PixelDone(a, a0, img, dec, r, x)
    requires SameOutside(a0, a, Offset(r, 4 * img.width), Offset(r, 4 * img.width) + 8 * Pairs(img))
    requires Offset(r, 4 * img.width) + 4 * hi <= |a| && 2 * Pairs(img) <= hi <= img.width
    requires HasTail(img) ==> hi < img.width
    ensures forall x: nat :: x < hi ==> PixelDone(a, a0, img, dec, r, x)
  {
    forall x: nat | 2 * Pairs(img) <= x < hi
      ensures PixelDone(a, a0, img, dec, r, x)
    {
      assert PixelSource(img, r, x) == None;
    }
  }

  /** One row of `yuv422_to_rgba`: the pair loop, then the tail when the
      luma stride row has a leftover sample and the width is odd. Every
      pixel of the row is done and nothing outside the row changes. */
  method ConvertRow(img: Planar, dec: Decoder, rgb: array<int>, r: nat, base: nat)
    requires RowFits(img, rgb.Length, r) && base == Offset(r, 4 * img.width)
    modifies rgb
    ensures forall x: nat :: x < img.width ==> PixelDone(rgb[..], old(rgb[..]), img, dec, r, x)
    ensures SameOutside(old(rgb[..]), rgb[..], base, base + 4 * img.width)
  {
    ghost var a0 := rgb[..];
    InRow(r, 4 * img.width - 1, 4 * img.width, img.height);
    assert 4 * img.width * img.height == img.width * img.height * 4;
    var n := Min(Min(img.yStride / 2, img.uStride), Min(img.vStride, img.width / 2));
    var i := 0;
    while i < n
      invariant i <= n
      invariant forall x: nat :: x < 2 * i ==> PixelDone(rgb[..], a0, img, dec, r, x)
      invariant SameOutside(a0, rgb[..], base, base + 8 * i)
    {
      DecodePair(img, dec, rgb, r, base, i, a0);
      i := i + 1;
    }
    if img.yStride % 2 == 1 && img.width % 2 == 1 {
      UnwrittenDone(rgb[..], a0, img, dec, r, img.width - 1);
      InRow(r, img.yStride - 1, img.yStride, img.height);
      InRow(r, img.uStride - 1, img.uStride, img.height);
      InRow(r, img.vStride - 1, img.vStride, img.height);
      var yRow, uRow, vRow := Offset(r, img.yStride), Offset(r, img.uStride), Offset(r, img.vStride);
      DecodeAt(img, dec, rgb, r, base, img.width - 1, img.y[yRow + img.yStride - 1], img.u[uRow + img.uStride - 1],
               img.v[vRow + img.vStride - 1], a0);
    } else {
      UnwrittenDone(rgb[..], a0, img, dec, r, img.width);
    }
  }

  /** Rows [0, r) stay done while row r is written, and row r, done against
      the image before it, is done against the image before the first row. */
  lemma {:induction false} RowsDoneNext(a0: seq<int>, mid: seq<int>, after: seq<int>, img: Planar, dec: Decoder, r: nat)
    requires forall r': nat, x: nat :: r' < r && x < img.width ==> PixelDone(mid, a0, img, dec, r', x)
    requires SameOutside(a0, mid, 0, Offset(r, 4 * img.width))
    requires forall x: nat :: x < img.width ==> PixelDone(after, mid, img, dec, r, x)
    requires SameOutside(mid, after, Offset(r, 4 * img.width), Offset(r, 4 * img.width) + 4 * img.width)
    ensures forall r': nat, x: nat :: r' < r + 1 && x < img.width ==> PixelDone(after, a0, img, dec, r', x)
    ensures SameOutside(a0, after, 0, Offset(r + 1, 4 * img.width))
  {
    var base := Offset(r, 4 * img.width);
    forall r': nat, x: nat | r' < r + 1 && x < img.width
      ensures PixelDone(after, a0, img, dec, r', x)
    {
      if r' < r {
        OffsetLe(r' + 1, r, 4 * img.width);
        PixelDoneKept(mid, after, a0, img, dec, r', x, base, base + 4 * img.width);
      } else {
        PixelDoneRebased(after, mid, a0, img, dec, r, x);
      }
    }
  }

  /** A pixel of row r done against `mid` is done against `a0` when `mid`
      differs from `a0` only before the row. */
  lemma PixelDoneRebased(a: seq<int>, mid: seq<int>, a0: seq<int>, img: Planar, dec: Decoder, r: nat, x: nat)
    requires PixelDone(a, mid, img, dec, r, x) && SameOutside(a0, mid, 0, Offset(r, 4 * img.width))
    ensures PixelDone(a, a0, img, dec, r, x)
  {
    var at := Offset(r, 4 * img.width) + 4 * x;
    assert mid[at] == a0[at] && mid[at + 1] == a0[at + 1] && mid[at + 2] == a0[at + 2] && mid[at + 3] == a0[at + 3];
  }

  /** `yuv422_to_rgba`: on a failed check the error is returned and nothing
      is written; otherwise every pixel of every row is done: decoded from
      the samples the kernel reads, or left as it was where the kernel does
      not reach. */
  method Yuv422ToRgba(img: Planar, rgb: array<int>, bitDepth: nat, sampleBits: nat, range: YuvRange,
                      transform: Result<InverseTransform, string>) returns (result: Result<(), ConvertError>)
    requires PlanesMatch(img) ==> RangeDepthOk(bitDepth, range) && bitDepth <= 30
    requires Validate(img, rgb.Length, bitDepth, range, sampleBits, transform).Ok? ==>
      img.yStride > 0 && img.uStride > 0 && img.vStride > 0 && img.width > 0
    modifies rgb
    ensures result.Err? <==> Validate(img, rgb.Length, bitDepth, range, sampleBits, transform).Err?
    ensures result.Err? ==>
      result.error == Validate(img, rgb.Length, bitDepth, range, sampleBits, transform).error && rgb[..] == old(rgb[..])
    ensures result.Ok? ==> forall r: nat, x: nat :: r < img.height && x < img.width ==>
      PixelDone(rgb[..], old(rgb[..]), img, Validate(img, rgb.Length, bitDepth, range, sampleBits, transform).value, r, x)
  {
    var check := Validate(img, rgb.Length, bitDepth, range, sampleBits, transform);
    if check.Err? {
      return Err(check.error);
    }
    var dec := check.value;
    ghost var a0 := rgb[..];
    var base := 0;
    var r := 0;
    while r < img.height
      invariant r <= img.height && base == Offset(r, 4 * img.width)
      invariant forall r': nat, x: nat :: r' < r && x < img.width ==> PixelDone(rgb[..], a0, img, dec, r', x)
      invariant SameOutside(a0, rgb[..], 0, base)
    {
      ghost var mid := rgb[..];
      ConvertRow(img, dec, rgb, r, base);
      RowsDoneNext(a0, mid, rgb[..], img, dec, r);
      base := base + 4 * img.width;
      r := r + 1;
    }
    return Ok(());
  }

  // -------------------------------------------------- the intended last pixel

  /** Pixels x < width of the row at `base` hold the colours of their
      intended samples. */
  ghost predicate RowAsIntended(a: seq<int>, base: nat, img: Planar, dec: Decoder, r: nat)
  {
    forall x: nat :: x < img.width ==> PixelHolds(a, base + 4 * x, dec, Decoded(dec, IntendedSource(img, r, x)))
  }

  /** The row as evidently intended: the pair loop, then, for an odd width,
      the last pixel from luma width - 1 and chroma (width - 1) / 2 of the
      row, whatever the strides' parity. With strides that hold the row, every
      pixel holds its intended colour. */
  method ConvertRowCorrected(img: Planar, dec: Decoder, rgb: array<int>, r: nat, base: nat)
    requires RowFits(img, rgb.Length, r) && base == Offset(r, 4 * img.width)
    requires img.width <= img.yStride && (img.width + 1) / 2 <= img.uStride && (img.width + 1) / 2 <= img.vStride
    modifies rgb
    ensures RowAsIntended(rgb[..], base, img, dec, r)
    ensures SameOutside(old(rgb[..]), rgb[..], base, base + 4 * img.width)
  {
    ghost var a0 := rgb[..];
    InRow(r, 4 * img.width - 1, 4 * img.width, img.height);
    assert 4 * img.width * img.height == img.width * img.height * 4;
    var n := img.width / 2;
    assert n == Pairs(img);
    var i := 0;
    while i < n
      invariant i <= n
      invariant forall x: nat :: x < 2 * i ==> PixelDone(rgb[..], a0, img, dec, r, x)
      invariant SameOutside(a0, rgb[..], base, base + 8 * i)
    {
      DecodePair(img, dec, rgb, r, base, i, a0);
      i := i + 1;
    }
    PairsAsIntended(rgb[..], a0, img, dec, r, base);
    if img.width % 2 == 1 {
      DecodeLastIntended(img, dec, rgb, r, base, a0);
    }
  }

  /** The last pixel of an odd-width row from luma width - 1 and chroma
      (width - 1) / 2 of the row. */
  method DecodeLastIntended(img: Planar, dec: Decoder, rgb: array<int>, r: nat, base: nat, ghost a0: seq<int>)
    requires RowFits(img, rgb.Length, r) && base == Offset(r, 4 * img.width) && img.width % 2 == 1
    requires img.width <= img.yStride && (img.width + 1) / 2 <= img.uStride && (img.width + 1) / 2 <= img.vStride
    requires base + 4 * img.width <= rgb.Length
    requires forall x: nat :: x < img.width - 1 ==> PixelHolds(rgb[..], base + 4 * x, dec, Decoded(dec, IntendedSource(img, r, x)))
    requires SameOutside(a0, rgb[..], base, base + 4 * (img.width - 1))
    modifies rgb
    ensures RowAsIntended(rgb[..], base, img, dec, r)
    ensures SameOutside(a0, rgb[..], base, base + 4 * img.width)
  {
    var x := img.width - 1;
    InRow(r, x, img.yStride, img.height);
    InRow(r, x / 2, img.uStride, img.height);
    InRow(r, x / 2, img.vStride, img.height);
    var c := DecodePixel(img.y[Offset(r, img.yStride) + x], img.u[Offset(r, img.uStride) + x / 2],
                         img.v[Offset(r, img.vStride) + x / 2], dec.biasY, dec.biasUV, dec.t, Quant(dec));
    assert IntendedSource(img, r, x) ==
      Samples(img.y[Offset(r, img.yStride) + x], img.u[Offset(r, img.uStride) + x / 2], img.v[Offset(r, img.vStride) + x / 2]);
    assert c == Decoded(dec, IntendedSource(img, r, x));
    ghost var a1 := rgb[..];
    StoreRgba(rgb, base + 4 * x, dec, c);
    IntendedKept(a1, rgb[..], base, img, dec, r, x);
    SameOutsideTrans(a0, a1, rgb[..], base, base + 4 * x, base + 4 * x, base + 4 * x + 4, base, base + 4 * img.width);
  }

  /** Pair pixels, done by the kernel, hold their intended colours. */
  lemma PairsAsIntended(a: seq<int>, a0: seq<int>, img: Planar, dec: Decoder, r: nat, base: nat)
    requires base == Offset(r, 4 * img.width)
    requires forall x: nat :: x < 2 * Pairs(img) ==> PixelDone(a, a0, img, dec, r, x)
    ensures forall x: nat :: x < 2 * Pairs(img) ==> PixelHolds(a, base + 4 * x, dec, Decoded(dec, IntendedSource(img, r, x)))
  {
    forall x: nat | x < 2 * Pairs(img)
      ensures PixelHolds(a, base + 4 * x, dec, Decoded(dec, IntendedSource(img, r, x)))
    {
      assert PixelDone(a, a0, img, dec, r, x);
    }
  }

  /** Writing pixel x after pixels [0, x) hold their intended colours. */
  lemma IntendedKept(a: seq<int>, b: seq<int>, base: nat, img: Planar, dec: Decoder, r: nat, x: nat)
    requires forall x': nat :: x' < x ==> PixelHolds(a, base + 4 * x', dec, Decoded(dec, IntendedSource(img, r, x')))
    requires SameOutside(a, b, base + 4 * x, base + 4 * x + 4)
    requires PixelHolds(b, base + 4 * x, dec, Decoded(dec, IntendedSource(img, r, x)))
    ensures forall x': nat :: x' < x + 1 ==> PixelHolds(b, base + 4 * x', dec, Decoded(dec, IntendedSource(img, r, x')))
  {
    forall x': nat | x' < x
      ensures PixelHolds(b, base + 4 * x', dec, Decoded(dec, IntendedSource(img, r, x')))
    {
      assert PixelHolds(a, base + 4 * x', dec, Decoded(dec, IntendedSource(img, r, x')));
    }
  }
}
