/**
 * Decoding of a high-bit-depth planar image (three planes of 16-bit
 * samples) into AR30/RA30: one 32-bit word per pixel holding three 10-bit
 * components and a 2-bit alpha. This is the scalar path of
 * `yuv_p16_to_image_ar30` and the depth dispatch of
 * `yuv_p16_to_image_ar30_impl`.
 *
 * Three helpers whose code is not part of this model are parameters:
 * `to_ne` (the stored word normalised for endianness and the MSB shift),
 * `qrshr` (a rounding shift by the precision, saturating to a component
 * depth) and `Rgb30::pack` followed by `to_ne_bytes` (the four bytes of the
 * packed word, in the chosen layout and byte order).
 *
 * A 4:4:4 row converts as many pixels as the shortest of its four rows
 * allows. A halved-chroma row (4:2:2, 4:2:0) converts the first `width`
 * samples: pixel pairs that share one chroma sample, then a lone last pixel
 * when the width is odd. The first pixel of a pair is saturated at 10 bits,
 * the second one and the lone last pixel at the bit depth. In 4:2:0 two
 * luma rows share one chroma row, and an odd last row is converted on its
 * own with the last chroma row.
 */
module YuvP16Ar30 {
  import opened Numerics
  import opened Wrappers
  import opened YuvSupport
  import opened Planes
  import opened InverseTransforms

  /** The component depth of the first pixel of a pair. */
  const Ar30Depth: nat := 10

  /** The fixed-point precision of the transform. */
  const Precision: nat := 13

  datatype Rgb30ByteOrder = Host | Network

  /** The four bytes of a packed pixel, in the order they are stored. */
  datatype Word = Word(b0: u8, b1: u8, b2: u8, b3: u8)
  {
    function Byte(p: nat): u8
    {
      if p == 0 then b0 else if p == 1 then b1 else if p == 2 then b2 else b3
    }
  }

  /** The helpers whose definitions are not part of this model:
      `toNe(v, msbShift)` is `to_ne::<ENDIANNESS, BYTES_POSITION>`,
      `qrshr(v, depth)` is `qrshr::<13, depth>`, and `pack(store, r, g, b)`
      is `Rgb30::pack::<store>(r, g, b).to_ne_bytes()` for the layout of the
      conversion. */
  datatype Ar30Helpers = Ar30Helpers(
    toNe: (u16, nat) -> u16,
    qrshr: (int, nat) -> int,
    pack: (Rgb30ByteOrder, int, int, int) -> Word)

  /** What one monomorphised kernel fixes: its helpers, its byte order, the
      offsets of its range at its bit depth, and its transform. */
  datatype Ar30Kernel = Ar30Kernel(
    helpers: Ar30Helpers,
    store: Rgb30ByteOrder,
    biasY: int,
    biasUV: int,
    t: InverseTransform,
    bitDepth: nat)
  {
    /** `msb_shift = 16 - BIT_DEPTH`. */
    function MsbShift(): nat
    {
      if bitDepth <= 16 then 16 - bitDepth else 0
    }
  }

  // ------------------------------------------------------------- dispatch

  /** `yuv_p16_to_image_ar30_impl`: the kernel for bit depth 10 or 12 and
      the requested byte order, with the range offsets of that depth and the
      transform `transformFor` gives for it; None where the source stops with
      `unimplemented!`. */
  function KernelFor(bitDepth: nat, store: Rgb30ByteOrder, range: YuvRange, helpers: Ar30Helpers,
                     transformFor: nat -> InverseTransform): (k: Option<Ar30Kernel>)
    ensures k.Some? <==> bitDepth == 10 || bitDepth == 12
    ensures k.Some? ==> && k.value.bitDepth == bitDepth && k.value.store == store
                        && k.value.t == transformFor(bitDepth) && k.value.MsbShift() == 16 - bitDepth
                        && 2 * k.value.biasUV == Pow2(bitDepth)
                        && (range == Full ==> k.value.biasY == 0)
                        && (range == TV ==> k.value.biasY * 16 == Pow2(bitDepth))
  {
    if bitDepth == 10 || bitDepth == 12 then
      var r := GetYuvRange(bitDepth, range);
      RangeFitsDepth(bitDepth, range);
      assert range == TV ==> r.biasY * 16 == Pow2(bitDepth) by {
        if range == TV {
          Pow2Add(bitDepth - 8, 4);
          assert Pow2(4) == 16;
          assert bitDepth - 8 + 4 == bitDepth - 4;
          assert Pow2(bitDepth - 4) == 16 * Pow2(bitDepth - 8) by {
            Pow2Add(bitDepth - 8, 4);
          }
          assert Pow2(bitDepth) == 16 * Pow2(bitDepth - 4) by {
            Pow2Add(bitDepth - 4, 4);
            assert bitDepth - 4 + 4 == bitDepth;
          }
        }
      }
      Some(Ar30Kernel(helpers, store, r.biasY, r.biasUV, transformFor(bitDepth), bitDepth))
    else
      None
  }

  /** The offsets the two supported depths decode against: TV range puts
      black at 64 (10-bit) or 256 (12-bit), and chroma is centred at 512 or
      2048 in both ranges. */
  lemma KernelOffsets(store: Rgb30ByteOrder, range: YuvRange, helpers: Ar30Helpers, transformFor: nat -> InverseTransform)
    ensures var k := KernelFor(10, store, range, helpers, transformFor).value;
      k.biasUV == 512 && k.biasY == (if range == TV then 64 else 0)
    ensures var k := KernelFor(12, store, range, helpers, transformFor).value;
      k.biasUV == 2048 && k.biasY == (if range == TV then 256 else 0)
  {
    assert Pow2(10) == 1024;
    assert Pow2(12) == 4096;
  }

  // ---------------------------------------------------------------- pixels

  /** The three saturated components of a pixel decoded from stored samples
      `ys`, `us`, `vs` at component depth `depth`, in the order r, g, b. */
  function Components(k: Ar30Kernel, ys: u16, us: u16, vs: u16, depth: nat): (int, int, int)
  {
    var yValue := (k.helpers.toNe(ys, k.MsbShift()) as int - k.biasY) * k.t.yCoef;
    var cb := k.helpers.toNe(us, k.MsbShift()) as int - k.biasUV;
    var cr := k.helpers.toNe(vs, k.MsbShift()) as int - k.biasUV;
    (k.helpers.qrshr(yValue + k.t.crCoef * cr, depth),
     k.helpers.qrshr(yValue - k.t.gCoeff1 * cr - k.t.gCoeff2 * cb, depth),
     k.helpers.qrshr(yValue + k.t.cbCoef * cb, depth))
  }

  /** The packed word of a pixel. */
  function Ar30Pixel(k: Ar30Kernel, ys: u16, us: u16, vs: u16, depth: nat): Word
  {
    var c := Components(k, ys, us, vs, depth);
    k.helpers.pack(k.store, c.0, c.1, c.2)
  }

  /** Sample `i` of a plane, 0 past its end (never read by the kernels). */
  function At16(plane: seq<u16>, i: nat): u16
  {
    if i < |plane| then plane[i] else 0
  }

  /** Where the samples of one row start in the three planes. */
  datatype Row16 = Row16(y: seq<u16>, yOffset: nat, u: seq<u16>, uOffset: nat, v: seq<u16>, vOffset: nat)

  /** Pixel `x` of a 4:4:4 row: luma, u and v sample x, at the bit depth. */
  function FullPixel(k: Ar30Kernel, src: Row16, x: nat): Word
  {
    Ar30Pixel(k, At16(src.y, src.yOffset + x), At16(src.u, src.uOffset + x), At16(src.v, src.vOffset + x), k.bitDepth)
  }

  /** The component depth of pixel `x` of a halved-chroma row of `width`
      pixels: 10 bits for the first pixel of a pair, the bit depth for the
      second one and for the lone last pixel of an odd width. */
  function HalvedDepth(k: Ar30Kernel, width: nat, x: nat): nat
  {
    if x % 2 == 0 && x + 1 < width then Ar30Depth else k.bitDepth
  }

  /** Pixel `x` of a halved-chroma row: luma sample x and chroma sample
      x / 2. For the lone last pixel of an odd width these are the last
      samples of the luma row and of the (width + 1) / 2 chroma samples. */
  function HalvedPixel(k: Ar30Kernel, src: Row16, width: nat, x: nat): Word
  {
    Ar30Pixel(k, At16(src.y, src.yOffset + x), At16(src.u, src.uOffset + x / 2), At16(src.v, src.vOffset + x / 2),
              HalvedDepth(k, width, x))
  }

  function FullFn(k: Ar30Kernel, src: Row16): nat -> Word
  {
    (x: nat) => FullPixel(k, src, x)
  }

  function HalvedFn(k: Ar30Kernel, src: Row16, width: nat): nat -> Word
  {
    (x: nat) => HalvedPixel(k, src, width, x)
  }

  /** The chroma of a halved row spread to one sample per pixel. */
  function Upsampled(src: Row16, width: nat): (r: Row16)
    ensures |r.u| == |r.v| == width && r.uOffset == r.vOffset == 0
  {
    Row16(src.y, src.yOffset,
          seq(width, x requires 0 <= x => At16(src.u, src.uOffset + x / 2)), 0,
          seq(width, x requires 0 <= x => At16(src.v, src.vOffset + x / 2)), 0)
  }

  /** A halved row decodes like a 4:4:4 row whose chroma is the halved
      chroma repeated for both pixels of a pair, except that the first pixel
      of a pair is saturated at 10 bits: the two coincide on every pixel at
      bit depth 10, and at every depth on the second pixel of each pair and
      on the lone last pixel. */
  lemma HalvedIsUpsampledFull(k: Ar30Kernel, src: Row16, width: nat, x: nat)
    requires x < width
    ensures (k.bitDepth == Ar30Depth || x % 2 == 1 || x + 1 == width) ==>
              HalvedPixel(k, src, width, x) == FullPixel(k, Upsampled(src, width), x)
    ensures HalvedPixel(k, src, width, x) == Ar30Pixel(k, At16(src.y, src.yOffset + x), At16(Upsampled(src, width).u, x),
                                                       At16(Upsampled(src, width).v, x), HalvedDepth(k, width, x))
  {
  }

  /** The two pixels of a pair read the same chroma sample. */
  lemma PairSharesChroma(k: Ar30Kernel, src: Row16, width: nat, i: nat)
    requires 2 * i + 1 < width
    ensures HalvedDepth(k, width, 2 * i) == Ar30Depth && HalvedDepth(k, width, 2 * i + 1) == k.bitDepth
    ensures HalvedPixel(k, src, width, 2 * i) == Ar30Pixel(k, At16(src.y, src.yOffset + 2 * i), At16(src.u, src.uOffset + i), At16(src.v, src.vOffset + i), Ar30Depth)
    ensures HalvedPixel(k, src, width, 2 * i + 1) == Ar30Pixel(k, At16(src.y, src.yOffset + 2 * i + 1), At16(src.u, src.uOffset + i), At16(src.v, src.vOffset + i), k.bitDepth)
  {
    assert (2 * i) / 2 == i && (2 * i) % 2 == 0;
    assert (2 * i + 1) / 2 == i && (2 * i + 1) % 2 == 1;
  }

  /** With `qrshr` saturating to its depth, the first pixel of a pair gets
      10-bit components whatever the bit depth; the others get components
      of the bit depth. */
  lemma ComponentBounds(k: Ar30Kernel, src: Row16, width: nat, x: nat)
    requires forall v: int, d: nat :: 0 <= k.helpers.qrshr(v, d) < Pow2(d)
    requires x < width
    ensures var c := Components(k, At16(src.y, src.yOffset + x), At16(src.u, src.uOffset + x / 2),
                                At16(src.v, src.vOffset + x / 2), HalvedDepth(k, width, x));
      var max := if x % 2 == 0 && x + 1 < width then Pow2(Ar30Depth) else Pow2(k.bitDepth);
      0 <= c.0 < max && 0 <= c.1 < max && 0 <= c.2 < max
  {
  }

  // ------------------------------------------------------------ row bytes

  /** The four bytes at `at` hold the word `w`. */
  ghost predicate WordStored(a: seq<u8>, at: nat, w: Word)
  {
    at + 4 <= |a| && a[at] == w.b0 && a[at + 1] == w.b1 && a[at + 2] == w.b2 && a[at + 3] == w.b3
  }

  /** Pixels 0..n of the row at `base` hold the words `f` gives. */
  ghost predicate WordsDone(a: seq<u8>, base: nat, f: nat -> Word, n: nat)
  {
    && base + 4 * n <= |a|
    && forall x: nat :: x < n ==> WordStored(a, base + 4 * x, f(x))
  }

  /** Copy the four bytes of a packed word into the destination. */
  method StoreWord(rgba: array<u8>, at: nat, w: Word)
    requires at + 4 <= rgba.Length
    modifies rgba
    ensures WordStored(rgba[..], at, w)
    ensures SameOutside(old(rgba[..]), rgba[..], at, at + 4)
  {
    rgba[at] := w.b0;
    rgba[at + 1] := w.b1;
    rgba[at + 2] := w.b2;
    rgba[at + 3] := w.b3;
  }

  /** Store pixel `x` of a row whose pixels 0..x are already stored. */
  method StorePixel(rgba: array<u8>, base: nat, x: nat, w: Word, ghost f: nat -> Word, ghost a0: seq<u8>)
    requires base + 4 * x + 4 <= rgba.Length && w == f(x)
    requires WordsDone(rgba[..], base, f, x) && SameOutside(a0, rgba[..], base, base + 4 * x)
    modifies rgba
    ensures WordsDone(rgba[..], base, f, x + 1) && SameOutside(a0, rgba[..], base, base + 4 * x + 4)
  {
    ghost var mid := rgba[..];
    StoreWord(rgba, base + 4 * x, w);
    forall x': nat | x' < x
      ensures WordStored(rgba[..], base + 4 * x', f(x'))
    {
      assert WordStored(mid, base + 4 * x', f(x'));
    }
  }

  /** The inner zip of the 4:4:4 walk: pixel x of the row from luma, u and
      v sample x, for the first `n` pixels. */
  method FullRow(k: Ar30Kernel, src: Row16, n: nat, rgba: array<u8>, base: nat)
    requires src.yOffset + n <= |src.y| && src.uOffset + n <= |src.u| && src.vOffset + n <= |src.v|
    requires base + 4 * n <= rgba.Length
    modifies rgba
    ensures WordsDone(rgba[..], base, FullFn(k, src), n)
    ensures SameOutside(old(rgba[..]), rgba[..], base, base + 4 * n)
  {
    ghost var a0 := rgba[..];
    ghost var f := FullFn(k, src);
    var x := 0;
    while x < n
      invariant x <= n
      invariant WordsDone(rgba[..], base, f, x) && SameOutside(a0, rgba[..], base, base + 4 * x)
    {
      var w := Ar30Pixel(k, src.y[src.yOffset + x], src.u[src.uOffset + x], src.v[src.vOffset + x], k.bitDepth);
      StorePixel(rgba, base, x, w, f, a0);
      x := x + 1;
    }
  }

  /** `process_halved_chroma_row` on the first `width` luma samples, the
      first (width + 1) / 2 chroma samples and the first 4 * width bytes of
      the destination row: the pairs, then the lone last pixel of an odd
      width. */
  method HalvedChromaRow(k: Ar30Kernel, src: Row16, width: nat, rgba: array<u8>, base: nat)
    requires src.yOffset + width <= |src.y|
    requires src.uOffset + (width + 1) / 2 <= |src.u| && src.vOffset + (width + 1) / 2 <= |src.v|
    requires base + 4 * width <= rgba.Length
    modifies rgba
    ensures WordsDone(rgba[..], base, HalvedFn(k, src, width), width)
    ensures SameOutside(old(rgba[..]), rgba[..], base, base + 4 * width)
  {
    ghost var a0 := rgba[..];
    HalvedPairs(k, src, width, rgba, base);
    var h := width / 2;
    if width % 2 != 0 {
      assert 2 * h == width - 1 && 8 * h == 4 * (width - 1);
      HalvedLast(k, src, width, rgba, base, a0);
    } else {
      assert 2 * h == width && 8 * h == 4 * width;
    }
  }

  /** The pair loop of `process_halved_chroma_row`: pixels 0 .. 2 * (width / 2). */
  method HalvedPairs(k: Ar30Kernel, src: Row16, width: nat, rgba: array<u8>, base: nat)
    requires src.yOffset + width <= |src.y|
    requires src.uOffset + (width + 1) / 2 <= |src.u| && src.vOffset + (width + 1) / 2 <= |src.v|
    requires base + 4 * width <= rgba.Length
    modifies rgba
    ensures WordsDone(rgba[..], base, HalvedFn(k, src, width), 2 * (width / 2))
    ensures SameOutside(old(rgba[..]), rgba[..], base, base + 8 * (width / 2))
  {
    ghost var a0 := rgba[..];
    ghost var f := HalvedFn(k, src, width);
    var i := 0;
    while i < width / 2
      invariant i <= width / 2
      invariant WordsDone(rgba[..], base, f, 2 * i) && SameOutside(a0, rgba[..], base, base + 8 * i)
    {
      HalvedPair(k, src, width, rgba, base, i, a0);
      i := i + 1;
    }
  }

  /** The lone last pixel of an odd width: the last luma sample with the
      last of the (width + 1) / 2 chroma samples, at the bit depth. */
  method HalvedLast(k: Ar30Kernel, src: Row16, width: nat, rgba: array<u8>, base: nat, ghost a0: seq<u8>)
    requires width % 2 != 0 && src.yOffset + width <= |src.y|
    requires src.uOffset + (width + 1) / 2 <= |src.u| && src.vOffset + (width + 1) / 2 <= |src.v|
    requires base + 4 * width <= rgba.Length
    requires WordsDone(rgba[..], base, HalvedFn(k, src, width), width - 1)
    requires SameOutside(a0, rgba[..], base, base + 4 * (width - 1))
    modifies rgba
    ensures WordsDone(rgba[..], base, HalvedFn(k, src, width), width) && SameOutside(a0, rgba[..], base, base + 4 * width)
  {
    var x := width - 1;
    assert x / 2 == (width + 1) / 2 - 1 && HalvedDepth(k, width, x) == k.bitDepth;
    assert HalvedPixel(k, src, width, x) ==
      Ar30Pixel(k, At16(src.y, src.yOffset + x), At16(src.u, src.uOffset + x / 2), At16(src.v, src.vOffset + x / 2), k.bitDepth);
    HalvedStore(k, src, width, rgba, base, x, x / 2, k.bitDepth, a0);
  }

  /** Pair `i` of a halved-chroma row: luma samples 2i and 2i + 1 with
      chroma sample i, the first pixel saturated at 10 bits, the second at
      the bit depth, into bytes 8i..8i + 8 of the row. */
  method HalvedPair(k: Ar30Kernel, src: Row16, width: nat, rgba: array<u8>, base: nat, i: nat, ghost a0: seq<u8>)
    requires 2 * i + 2 <= width && src.yOffset + width <= |src.y|
    requires src.uOffset + i < |src.u| && src.vOffset + i < |src.v|
    requires base + 4 * width <= rgba.Length
    requires WordsDone(rgba[..], base, HalvedFn(k, src, width), 2 * i) && SameOutside(a0, rgba[..], base, base + 8 * i)
    modifies rgba
    ensures WordsDone(rgba[..], base, HalvedFn(k, src, width), 2 * i + 2) && SameOutside(a0, rgba[..], base, base + 8 * i + 8)
  {
    var x := 2 * i;
    HalvedPairPixels(k, src, width, i);
    assert base + 8 * i == base + 4 * x;
    HalvedStore(k, src, width, rgba, base, x, i, Ar30Depth, a0);
    assert base + 4 * x + 4 == base + 4 * (x + 1) && base + 4 * (x + 1) + 4 == base + 8 * i + 8;
    HalvedStore(k, src, width, rgba, base, x + 1, i, k.bitDepth, a0);
  }

  /** Pixel `x` of a halved-chroma row from luma sample x and chroma sample
      `ci` at `depth`, after pixels 0..x. */
  method HalvedStore(k: Ar30Kernel, src: Row16, width: nat, rgba: array<u8>, base: nat, x: nat, ci: nat, depth: nat,
                     ghost a0: seq<u8>)
    requires x < width && src.yOffset + width <= |src.y| && src.uOffset + ci < |src.u| && src.vOffset + ci < |src.v|
    requires HalvedPixel(k, src, width, x) ==
      Ar30Pixel(k, At16(src.y, src.yOffset + x), At16(src.u, src.uOffset + ci), At16(src.v, src.vOffset + ci), depth)
    requires base + 4 * width <= rgba.Length
    requires WordsDone(rgba[..], base, HalvedFn(k, src, width), x) && SameOutside(a0, rgba[..], base, base + 4 * x)
    modifies rgba
    ensures WordsDone(rgba[..], base, HalvedFn(k, src, width), x + 1) && SameOutside(a0, rgba[..], base, base + 4 * x + 4)
  {
    var w := Ar30Pixel(k, src.y[src.yOffset + x], src.u[src.uOffset + ci], src.v[src.vOffset + ci], depth);
    StorePixel(rgba, base, x, w, HalvedFn(k, src, width), a0);
  }

  /** Both pixels of pair i share chroma sample i; the first is saturated
      at 10 bits, the second at the bit depth. */
  lemma HalvedPairPixels(k: Ar30Kernel, src: Row16, width: nat, i: nat)
    requires 2 * i + 2 <= width
    ensures HalvedPixel(k, src, width, 2 * i) ==
      Ar30Pixel(k, At16(src.y, src.yOffset + 2 * i), At16(src.u, src.uOffset + i), At16(src.v, src.vOffset + i), Ar30Depth)
    ensures HalvedPixel(k, src, width, 2 * i + 1) ==
      Ar30Pixel(k, At16(src.y, src.yOffset + (2 * i + 1)), At16(src.u, src.uOffset + i), At16(src.v, src.vOffset + i), k.bitDepth)
  {
    assert (2 * i) / 2 == i && HalvedDepth(k, width, 2 * i) == Ar30Depth;
    assert (2 * i + 1) / 2 == i && HalvedDepth(k, width, 2 * i + 1) == k.bitDepth;
  }

  // ----------------------------------------------------------------- image

  /** The planar source: three planes of 16-bit samples with their strides
      (in samples) and the image size. */
  datatype Planar16 = Planar16(
    y: seq<u16>, yStride: nat,
    u: seq<u16>, uStride: nat,
    v: seq<u16>, vStride: nat,
    width: nat, height: nat)

  /** The samples of image row `r`: luma row r and chroma row
      `ChromaRow(s, r)`. */
  function RowSourceOf(img: Planar16, s: YuvChromaSample, r: nat): Row16
  {
    Row16(img.y, Offset(r, img.yStride), img.u, Offset(ChromaRow(s, r), img.uStride),
          img.v, Offset(ChromaRow(s, r), img.vStride))
  }

  /** The pixels each destination row receives: in 4:4:4 the shortest of
      the four zipped rows (rgba_stride / 4 chunks against the three plane
      strides), otherwise `width`. */
  function RowWidth(img: Planar16, s: YuvChromaSample, rgbaStride: nat): nat
  {
    if s == YUV444 then Min(Min(rgbaStride / 4, img.yStride), Min(img.uStride, img.vStride)) else img.width
  }

  function PixelFn(img: Planar16, s: YuvChromaSample, k: Ar30Kernel, r: nat): nat -> Word
  {
    if s == YUV444 then FullFn(k, RowSourceOf(img, s, r)) else HalvedFn(k, RowSourceOf(img, s, r), img.width)
  }

  /** Byte j of destination row r: byte j % 4 of the word of pixel j / 4. */
  function Ar30Image(img: Planar16, s: YuvChromaSample, k: Ar30Kernel): (nat, nat) -> int
  {
    (r: nat, j: nat) => PixelFn(img, s, k, r)(j / 4).Byte(j % 4) as int
  }

  /** In 4:2:0 the two rows of a pair decode against the same chroma row,
      and an odd last row against the last chroma row. */
  lemma Yuv420RowsShareChroma(img: Planar16, p: nat)
    ensures RowSourceOf(img, YUV420, 2 * p).uOffset == RowSourceOf(img, YUV420, 2 * p + 1).uOffset == Offset(p, img.uStride)
    ensures RowSourceOf(img, YUV420, 2 * p).vOffset == RowSourceOf(img, YUV420, 2 * p + 1).vOffset == Offset(p, img.vStride)
    ensures img.height % 2 == 1 ==> ChromaRow(YUV420, img.height - 1) == ChromaRows(YUV420, img.height) - 1
  {
    assert ChromaRow(YUV420, 2 * p) == p && ChromaRow(YUV420, 2 * p + 1) == p;
  }

  /** The layout the conversion runs on: positive strides (`chunks_exact`
      panics on zero), every buffer holding exactly the complete rows of the
      image, and in the halved samplings rows long enough for the
      `[0..width]`, `[0..width.div_ceil(2)]` and `[0..width * 4]` slices. */
  predicate ImageFits(img: Planar16, s: YuvChromaSample, rgbaLen: nat, rgbaStride: nat)
  {
    && rgbaStride > 0 && img.yStride > 0 && img.uStride > 0 && img.vStride > 0
    && rgbaLen / rgbaStride == img.height
    && |img.y| / img.yStride == img.height
    && |img.u| / img.uStride == ChromaRows(s, img.height)
    && |img.v| / img.vStride == ChromaRows(s, img.height)
    && (s != YUV444 ==>
          && 4 * img.width <= rgbaStride && img.width <= img.yStride
          && (img.width + 1) / 2 <= img.uStride && (img.width + 1) / 2 <= img.vStride)
  }

  /** Row r of a fitting image lies inside every buffer. */
  lemma RowBounds(img: Planar16, s: YuvChromaSample, rgbaLen: nat, rgbaStride: nat, r: nat)
    requires ImageFits(img, s, rgbaLen, rgbaStride) && r < img.height
    ensures var src := RowSourceOf(img, s, r);
      && src.yOffset + img.yStride <= |src.y|
      && src.uOffset + img.uStride <= |src.u|
      && src.vOffset + img.vStride <= |src.v|
    ensures Offset(r, rgbaStride) + rgbaStride <= rgbaLen
    ensures 4 * RowWidth(img, s, rgbaStride) <= rgbaStride
  {
    RowsFit(|img.y|, img.yStride, r);
    RowsFit(|img.u|, img.uStride, ChromaRow(s, r));
    RowsFit(|img.v|, img.vStride, ChromaRow(s, r));
    RowsFit(rgbaLen, rgbaStride, r);
  }

  /** Stored words are the row's bytes. */
  lemma WordsAreRow(a: seq<u8>, base: nat, img: Planar16, s: YuvChromaSample, k: Ar30Kernel, r: nat, n: nat)
    requires WordsDone(a, base, PixelFn(img, s, k, r), n)
    ensures RowHolds(a, base, 4 * n, Ar30Image(img, s, k), r)
  {
    var f := PixelFn(img, s, k, r);
    forall j: nat | j < 4 * n
      ensures a[base + j] as int == Ar30Image(img, s, k)(r, j)
    {
      var x := j / 4;
      assert WordStored(a, base + 4 * x, f(x));
      assert base + j == base + 4 * x + j % 4;
    }
  }

  /** One destination row: the 4:4:4 inner zip or the halved-chroma row,
      on the row's samples `src` and the destination row at `base`. */
  method ImageRow(img: Planar16, s: YuvChromaSample, k: Ar30Kernel, rgba: array<u8>, rgbaStride: nat, r: nat, src: Row16, base: nat)
    requires ImageFits(img, s, rgba.Length, rgbaStride) && r < img.height
    requires src == RowSourceOf(img, s, r) && base == Offset(r, rgbaStride)
    modifies rgba
    ensures RowHolds(rgba[..], base, 4 * RowWidth(img, s, rgbaStride), Ar30Image(img, s, k), r)
    ensures SameOutside(old(rgba[..]), rgba[..], base, base + 4 * RowWidth(img, s, rgbaStride))
  {
    RowBounds(img, s, rgba.Length, rgbaStride, r);
    var n := RowWidth(img, s, rgbaStride);
    if s == YUV444 {
      FullRow(k, src, n, rgba, base);
    } else {
      HalvedChromaRow(k, src, img.width, rgba, base);
    }
    WordsAreRow(rgba[..], base, img, s, k, r, n);
  }

  /** Row `r` of the image, after rows 0..r: rows 0..r + 1 hold. */
  method NextRow(img: Planar16, s: YuvChromaSample, k: Ar30Kernel, rgba: array<u8>, rgbaStride: nat, r: nat,
                 src: Row16, base: nat, ghost a0: seq<u8>)
    requires ImageFits(img, s, rgba.Length, rgbaStride) && r < img.height
    requires src == RowSourceOf(img, s, r) && base == Offset(r, rgbaStride)
    requires PlaneRowsHold(rgba[..], a0, rgbaStride, 4 * RowWidth(img, s, rgbaStride), r, Ar30Image(img, s, k))
    modifies rgba
    ensures PlaneRowsHold(rgba[..], a0, rgbaStride, 4 * RowWidth(img, s, rgbaStride), r + 1, Ar30Image(img, s, k))
  {
    ghost var mid := rgba[..];
    RowBounds(img, s, rgba.Length, rgbaStride, r);
    ImageRow(img, s, k, rgba, rgbaStride, r, src, base);
    PlaneRowsHoldNext(a0, mid, rgba[..], rgbaStride, 4 * RowWidth(img, s, rgbaStride), r, r,
                      Ar30Image(img, s, k), Ar30Image(img, s, k));
  }

  /** Where row `r` starts in each buffer. */
  method RowStart(img: Planar16, s: YuvChromaSample, rgbaStride: nat, r: nat) returns (src: Row16, base: nat)
    ensures src == RowSourceOf(img, s, r) && base == Offset(r, rgbaStride)
  {
    var cr := if s == YUV420 then r / 2 else r;
    OffsetIsProduct(r, img.yStride);
    OffsetIsProduct(cr, img.uStride);
    OffsetIsProduct(cr, img.vStride);
    OffsetIsProduct(r, rgbaStride);
    src := Row16(img.y, r * img.yStride, img.u, cr * img.uStride, img.v, cr * img.vStride);
    base := r * rgbaStride;
  }

  /** `yuv_p16_to_image_ar30` for one kernel. `constraints` and
      `destination` are the outcomes of `check_constraints` and
      `check_rgba_destination`, whose definitions are not part of this model:
      the first error is returned before anything is written. Otherwise
      every destination row holds its packed pixels in its first
      4 * RowWidth bytes and every other byte is unchanged. */
  method YuvP16ToAr30<E>(img: Planar16, s: YuvChromaSample, k: Ar30Kernel, rgba: array<u8>, rgbaStride: nat,
                         constraints: Result<(), E>, destination: Result<(), E>)
    returns (result: Result<(), E>)
    requires constraints.Ok? && destination.Ok? ==> ImageFits(img, s, rgba.Length, rgbaStride)
    modifies rgba
    ensures constraints.Err? ==> result == constraints && rgba[..] == old(rgba[..])
    ensures constraints.Ok? && destination.Err? ==> result == destination && rgba[..] == old(rgba[..])
    ensures constraints.Ok? && destination.Ok? ==>
              && result.Ok?
              && PlaneRowsHold(rgba[..], old(rgba[..]), rgbaStride, 4 * RowWidth(img, s, rgbaStride), img.height,
                               Ar30Image(img, s, k))
  {
    if constraints.Err? {
      return constraints;
    }
    if destination.Err? {
      return destination;
    }
    if s != YUV420 {
      RowWalk(img, s, k, rgba, rgbaStride);
    } else {
      PairWalk(img, k, rgba, rgbaStride);
    }
    result := Ok(());
  }

  /** The 4:4:4 and 4:2:2 walk: one destination row per zipped row of the
      three planes. */
  method RowWalk(img: Planar16, s: YuvChromaSample, k: Ar30Kernel, rgba: array<u8>, rgbaStride: nat)
    requires s != YUV420 && ImageFits(img, s, rgba.Length, rgbaStride)
    modifies rgba
    ensures PlaneRowsHold(rgba[..], old(rgba[..]), rgbaStride, 4 * RowWidth(img, s, rgbaStride), img.height,
                          Ar30Image(img, s, k))
  {
    ghost var a0 := rgba[..];
    PlaneRowsHoldNone(a0, rgbaStride, 4 * RowWidth(img, s, rgbaStride), Ar30Image(img, s, k));
    var r := 0;
    while r < img.height
      invariant r <= img.height
      invariant PlaneRowsHold(rgba[..], a0, rgbaStride, 4 * RowWidth(img, s, rgbaStride), r, Ar30Image(img, s, k))
    {
      var src, base := RowStart(img, s, rgbaStride, r);
      NextRow(img, s, k, rgba, rgbaStride, r, src, base, a0);
      r := r + 1;
    }
  }

  /** The 4:2:0 walk: two destination and luma rows per chroma row, then
      the odd last row on its own. */
  method PairWalk(img: Planar16, k: Ar30Kernel, rgba: array<u8>, rgbaStride: nat)
    requires ImageFits(img, YUV420, rgba.Length, rgbaStride)
    modifies rgba
    ensures PlaneRowsHold(rgba[..], old(rgba[..]), rgbaStride, 4 * img.width, img.height, Ar30Image(img, YUV420, k))
  {
    ghost var a0 := rgba[..];
    ghost var e := Ar30Image(img, YUV420, k);
    assert RowWidth(img, YUV420, rgbaStride) == img.width;
    PlaneRowsHoldNone(a0, rgbaStride, 4 * img.width, e);
    var p := 0;
    while p < img.height / 2
      invariant p <= img.height / 2
      invariant PlaneRowsHold(rgba[..], a0, rgbaStride, 4 * img.width, 2 * p, e)
    {
      RowPair(img, k, rgba, rgbaStride, p, a0);
      p := p + 1;
    }
    if img.height % 2 != 0 {
      var src, base := LastChunks(img, rgba.Length, rgbaStride);
      NextRow(img, YUV420, k, rgba, rgbaStride, img.height - 1, src, base, a0);
    }
  }

  /** Pair `p` of the 4:2:0 walk: rows 2p and 2p + 1 of the destination
      and of the luma plane, both with chroma row p. */
  method RowPair(img: Planar16, k: Ar30Kernel, rgba: array<u8>, rgbaStride: nat, p: nat, ghost a0: seq<u8>)
    requires ImageFits(img, YUV420, rgba.Length, rgbaStride) && 2 * p + 2 <= img.height
    requires PlaneRowsHold(rgba[..], a0, rgbaStride, 4 * img.width, 2 * p, Ar30Image(img, YUV420, k))
    modifies rgba
    ensures PlaneRowsHold(rgba[..], a0, rgbaStride, 4 * img.width, 2 * p + 2, Ar30Image(img, YUV420, k))
  {
    assert RowWidth(img, YUV420, rgbaStride) == img.width;
    var src, base := RowStart(img, YUV420, rgbaStride, 2 * p);
    NextRow(img, YUV420, k, rgba, rgbaStride, 2 * p, src, base, a0);
    src, base := RowStart(img, YUV420, rgbaStride, 2 * p + 1);
    NextRow(img, YUV420, k, rgba, rgbaStride, 2 * p + 1, src, base, a0);
  }

  /** The `.last()` chunk of every buffer in an odd-height 4:2:0 image: the
      last complete row of each, which is image row height - 1 and chroma
      row (height - 1) / 2. */
  method LastChunks(img: Planar16, rgbaLen: nat, rgbaStride: nat) returns (src: Row16, base: nat)
    requires ImageFits(img, YUV420, rgbaLen, rgbaStride) && img.height % 2 == 1
    ensures src == RowSourceOf(img, YUV420, img.height - 1) && base == Offset(img.height - 1, rgbaStride)
  {
    var yLast := |img.y| / img.yStride - 1;
    var uLast := |img.u| / img.uStride - 1;
    var vLast := |img.v| / img.vStride - 1;
    var rgbaLast := rgbaLen / rgbaStride - 1;
    OffsetIsProduct(yLast, img.yStride);
    OffsetIsProduct(uLast, img.uStride);
    OffsetIsProduct(vLast, img.vStride);
    OffsetIsProduct(rgbaLast, rgbaStride);
    src := Row16(img.y, yLast * img.yStride, img.u, uLast * img.uStride, img.v, vLast * img.vStride);
    base := rgbaLast * rgbaStride;
  }

  /** `yuv_p16_to_image_ar30_impl`: the kernel of the requested bit depth
      (10 or 12; any other depth stops with `unimplemented!`) and byte order
      runs on the image. */
  method YuvP16ToAr30Impl<E>(img: Planar16, s: YuvChromaSample, rgba: array<u8>, rgbaStride: nat,
                             store: Rgb30ByteOrder, range: YuvRange, helpers: Ar30Helpers,
                             transformFor: nat -> InverseTransform, bitDepth: nat,
                             constraints: Result<(), E>, destination: Result<(), E>)
    returns (result: Result<(), E>)
    requires bitDepth == 10 || bitDepth == 12
    requires constraints.Ok? && destination.Ok? ==> ImageFits(img, s, rgba.Length, rgbaStride)
    modifies rgba
    ensures constraints.Err? ==> result == constraints && rgba[..] == old(rgba[..])
    ensures constraints.Ok? && destination.Err? ==> result == destination && rgba[..] == old(rgba[..])
    ensures constraints.Ok? && destination.Ok? ==>
              && result.Ok?
              && PlaneRowsHold(rgba[..], old(rgba[..]), rgbaStride, 4 * RowWidth(img, s, rgbaStride), img.height,
                               Ar30Image(img, s, KernelFor(bitDepth, store, range, helpers, transformFor).value))
  {
    var k := KernelFor(bitDepth, store, range, helpers, transformFor);
    result := YuvP16ToAr30(img, s, k.value, rgba, rgbaStride, constraints, destination);
  }
}
