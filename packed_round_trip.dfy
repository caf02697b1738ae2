/**
 * Packing a planar row into packed 4:2:2 (`yuv_to_yuy2_impl`) and unpacking
 * it again (`yuy2_to_yuv_impl`) with the same layout: the four byte
 * positions of a layout are a permutation, so luma always comes back, and
 * chroma comes back whenever the packer copied it (4:2:0, 4:2:2, and the
 * odd-width tail). In 4:4:4 a pair group keeps one rounded average, so a
 * chroma pair comes back exactly when its two samples are equal.
 */
module PackedRoundTrip {
  import opened Numerics
  import opened YuvSupport
  import opened Planes
  import opened YuvToYuy2
  import opened Yuy2ToYuv

  /** Byte p of group g of a packed row is the group's component of p's role. */
  lemma PackedComponent(a: seq<u8>, base: nat, src: RowSource, s: YuvChromaSample, d: Yuy2Description, width: nat,
                        g: nat, p: nat)
    requires PackedRow(a, base, src, s, d, width) && g < Groups(width) && p < 4
    ensures ByteAt(a, base + 4 * g + p) == GroupOf(src, s, width, g).Component(d.Role(p))
  {
    var j := 4 * g + p;
    DivModOf(g, p, 4);
    assert a[base + j] as int == PackedByte(src, s, d, width, j);
  }

  /** Every luma sample of a packed row unpacks to the planar sample it was
      packed from, for every width and every chroma sampling. */
  lemma LumaRoundTrip(a: seq<u8>, base: nat, src: RowSource, s: YuvChromaSample, d: Yuy2Description, width: nat, i: nat)
    requires PackedRow(a, base, src, s, d, width) && i < width
    ensures LumaFromPacked(a, base, d, i) == ByteAt(src.y, src.yOffset + i)
  {
    Yuy2Positions(d);
    if i % 2 == 0 {
      PackedComponent(a, base, src, s, d, width, i / 2, d.FirstYPosition());
    } else {
      PackedComponent(a, base, src, s, d, width, i / 2, d.SecondYPosition());
    }
  }

  /** In 4:2:0 and 4:2:2 every chroma sample of a packed row unpacks to the
      planar sample it was packed from, the odd-width tail included. */
  lemma ChromaRoundTrip(a: seq<u8>, base: nat, src: RowSource, s: YuvChromaSample, d: Yuy2Description, width: nat, k: nat)
    requires s != YUV444 && PackedRow(a, base, src, s, d, width) && k < ChromaWidth(s, width)
    ensures ChromaFromPacked(a, base, s, d.UPosition(), k) == ByteAt(src.u, src.uOffset + k)
    ensures ChromaFromPacked(a, base, s, d.VPosition(), k) == ByteAt(src.v, src.vOffset + k)
  {
    Yuy2Positions(d);
    PackedComponent(a, base, src, s, d, width, k, d.UPosition());
    PackedComponent(a, base, src, s, d, width, k, d.VPosition());
  }

  /** In 4:4:4 both chroma samples of a pair come back exactly when they are
      equal: the group holds `(c0 + c1 + 1) >> 1`, written to both. */
  lemma Chroma444PairRoundTrip(a: seq<u8>, base: nat, src: RowSource, d: Yuy2Description, width: nat, g: nat)
    requires PackedRow(a, base, src, YUV444, d, width) && g < width / 2
    ensures var c0, c1 := ByteAt(src.u, src.uOffset + 2 * g), ByteAt(src.u, src.uOffset + 2 * g + 1);
      (&& ChromaFromPacked(a, base, YUV444, d.UPosition(), 2 * g) == c0
       && ChromaFromPacked(a, base, YUV444, d.UPosition(), 2 * g + 1) == c1) <==> c0 == c1
  {
    Yuy2Positions(d);
    DivModOf(g, 0, 2);
    DivModOf(g, 1, 2);
    PackedComponent(a, base, src, YUV444, d, width, g, d.UPosition());
  }

  /** In 4:4:4 with an odd width the last chroma sample is copied, not
      averaged, so it comes back. */
  lemma Chroma444TailRoundTrip(a: seq<u8>, base: nat, src: RowSource, d: Yuy2Description, width: nat)
    requires PackedRow(a, base, src, YUV444, d, width) && width % 2 == 1
    ensures ChromaFromPacked(a, base, YUV444, d.UPosition(), width - 1) == ByteAt(src.u, src.uOffset + width - 1)
    ensures ChromaFromPacked(a, base, YUV444, d.VPosition(), width - 1) == ByteAt(src.v, src.vOffset + width - 1)
  {
    Yuy2Positions(d);
    var g := width / 2;
    DivModOf(g, 0, 2);
    PackedComponent(a, base, src, YUV444, d, width, g, d.UPosition());
    PackedComponent(a, base, src, YUV444, d, width, g, d.VPosition());
  }

  /** Row y of a packed store that `YuvToYuy2` filled is the packed row of
      planar row y. */
  lemma ImageRowIsPackedRow(a: seq<u8>, before: seq<u8>, stride: nat, img: Planar, s: YuvChromaSample, d: Yuy2Description,
                            rows: nat, y: nat)
    requires PlaneRowsHold(a, before, stride, 4 * Groups(img.width), rows, PackedImage(img, s, d)) && y < rows
    ensures PackedRow(a, Offset(y, stride), SourceOf(img, s, y), s, d, img.width)
  {
    var base := Offset(y, stride);
    assert RowHolds(a, base, 4 * Groups(img.width), PackedImage(img, s, d), y);
    forall j: nat | j < 4 * Groups(img.width)
      ensures a[base + j] as int == PackedByte(SourceOf(img, s, y), s, d, img.width, j)
    {
      assert a[base + j] as int == PackedImage(img, s, d)(y, j);
    }
  }

  /** Unpacking the store that packing filled gives back every luma sample
      of the image. */
  lemma ImageLumaRoundTrip(a: seq<u8>, before: seq<u8>, stride: nat, img: Planar, s: YuvChromaSample, d: Yuy2Description,
                           rows: nat, y: nat, i: nat)
    requires PlaneRowsHold(a, before, stride, 4 * Groups(img.width), rows, PackedImage(img, s, d))
    requires y < rows && i < img.width
    ensures LumaImage(a, stride, d)(y, i) == ByteAt(img.y, Offset(y, img.yStride) + i)
  {
    ImageRowIsPackedRow(a, before, stride, img, s, d, rows, y);
    LumaRoundTrip(a, Offset(y, stride), SourceOf(img, s, y), s, d, img.width, i);
  }

  /** In 4:2:0 and 4:2:2 unpacking the store that packing filled gives back
      every chroma sample of the image: in 4:2:0 chroma row r is unpacked
      from packed row 2r + 1 (or the last row), which was packed from chroma
      row r. */
  lemma ImageChromaRoundTrip(a: seq<u8>, before: seq<u8>, stride: nat, img: Planar, s: YuvChromaSample, d: Yuy2Description,
                             rows: nat, r: nat, k: nat)
    requires s != YUV444 && PlaneRowsHold(a, before, stride, 4 * Groups(img.width), rows, PackedImage(img, s, d))
    requires r < ChromaRows(s, rows) && k < ChromaWidth(s, img.width)
    ensures ChromaImage(a, stride, s, d.UPosition(), rows)(r, k) == ByteAt(img.u, Offset(r, img.uStride) + k)
    ensures ChromaImage(a, stride, s, d.VPosition(), rows)(r, k) == ByteAt(img.v, Offset(r, img.vStride) + k)
  {
    var y := SourceRowOf(s, r, rows);
    assert y < rows && ChromaRow(s, y) == r;
    ImageRowIsPackedRow(a, before, stride, img, s, d, rows, y);
    ChromaRoundTrip(a, Offset(y, stride), SourceOf(img, s, y), s, d, img.width, k);
  }
}
