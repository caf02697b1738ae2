/**
 * Packing of an 8-bit planar image (4:2:0, 4:2:2 or 4:4:4) into packed
 * 4:2:2 (YUYV, UYVY, YVYU or VYUY): the scalar loop of `yuv_to_yuy2_impl`.
 *
 * Every destination row is a sequence of 4-byte groups; group g holds the
 * luma of pixels 2g and 2g + 1 and one chroma pair at the layout's four
 * byte positions. A 4:4:4 source gives each group the rounded average of
 * its two chroma samples. For an odd width the last group holds the last
 * luma, a second luma of 0 and chroma copied without averaging.
 */
module YuvToYuy2 {
  import opened Numerics
  import opened YuvSupport
  import opened Planes

  /** The four components of one packed group. */
  datatype Group = Group(y0: int, u: int, y1: int, v: int)
  {
    /** The component a byte of role `role` (see `Yuy2Description.Role`) holds. */
    function Component(role: nat): int
    {
      if role == 0 then y0 else if role == 1 then u else if role == 2 then y1 else v
    }
  }

  /** Groups per packed row: one per pixel pair, plus a last one for an odd width. */
  function Groups(width: nat): nat
  {
    (width + 1) / 2
  }

  /** Chroma samples per planar chroma row: one per pixel in 4:4:4, one per
      pixel pair (the last one alone for an odd width) otherwise. */
  function ChromaWidth(s: YuvChromaSample, width: nat): nat
  {
    if s == YUV444 then width else (width + 1) / 2
  }

  /** How far the planar chroma index moves per group: two samples in
      4:4:4, one otherwise. */
  function ChromaAdvance(s: YuvChromaSample): nat
  {
    if s == YUV444 then 2 else 1
  }

  /** The packed chroma of a pair group whose planar chroma index is `ci`:
      `(c0 + c1 + 1) >> 1` in 4:4:4, the sample itself otherwise. */
  function PackChroma(plane: seq<u8>, offset: nat, ci: nat, s: YuvChromaSample): int
  {
    if s == YUV444 then (ByteAt(plane, offset + ci) + ByteAt(plane, offset + ci + 1) + 1) / 2 else ByteAt(plane, offset + ci)
  }

  /** Group `g` of the packed row made from `src`. */
  function GroupOf(src: RowSource, s: YuvChromaSample, width: nat, g: nat): Group
  {
    var ci := ChromaAdvance(s) * g;
    if g < width / 2 then
      Group(ByteAt(src.y, src.yOffset + 2 * g), PackChroma(src.u, src.uOffset, ci, s),
            ByteAt(src.y, src.yOffset + 2 * g + 1), PackChroma(src.v, src.vOffset, ci, s))
    else
      Group(ByteAt(src.y, src.yOffset + 2 * g), ByteAt(src.u, src.uOffset + ci), 0, ByteAt(src.v, src.vOffset + ci))
  }

  /** Byte `j` of the packed row made from `src`. */
  function PackedByte(src: RowSource, s: YuvChromaSample, d: Yuy2Description, width: nat, j: nat): int
  {
    GroupOf(src, s, width, j / 4).Component(d.Role(j % 4))
  }

  /** Every component of a packed group is a byte. */
  lemma GroupFits(src: RowSource, s: YuvChromaSample, width: nat, g: nat)
    ensures var grp := GroupOf(src, s, width, g);
      0 <= grp.y0 < 256 && 0 <= grp.u < 256 && 0 <= grp.y1 < 256 && 0 <= grp.v < 256
  {
  }

  /** Bytes 4g..4g + 4 of the row at `base` hold group `grp` in layout `d`. */
  predicate GroupStored(a: seq<u8>, base: nat, g: nat, d: Yuy2Description, grp: Group)
  {
    && base + 4 * g + 4 <= |a|
    && a[base + 4 * g + d.FirstYPosition()] as int == grp.y0
    && a[base + 4 * g + d.UPosition()] as int == grp.u
    && a[base + 4 * g + d.SecondYPosition()] as int == grp.y1
    && a[base + 4 * g + d.VPosition()] as int == grp.v
  }

  /** Groups [0, hi) of the row at `base` hold the packed row of `src`. */
  ghost predicate GroupsDone(a: seq<u8>, base: nat, src: RowSource, s: YuvChromaSample, d: Yuy2Description, width: nat, hi: nat)
  {
    forall g: nat :: g < hi ==> GroupStored(a, base, g, d, GroupOf(src, s, width, g))
  }

  /** The packed row of `src` is stored byte for byte at `base`. */
  ghost predicate PackedRow(a: seq<u8>, base: nat, src: RowSource, s: YuvChromaSample, d: Yuy2Description, width: nat)
  {
    && base + 4 * Groups(width) <= |a|
    && forall j: nat :: j < 4 * Groups(width) ==> a[base + j] as int == PackedByte(src, s, d, width, j)
  }

  /** Writes one group in the kernel's order: first luma, U, second luma, V. */
  method StoreGroup(a: array<u8>, base: nat, g: nat, d: Yuy2Description, grp: Group)
    requires base + 4 * g + 4 <= a.Length
    requires 0 <= grp.y0 < 256 && 0 <= grp.u < 256 && 0 <= grp.y1 < 256 && 0 <= grp.v < 256
    modifies a
    ensures GroupStored(a[..], base, g, d, grp)
    ensures SameOutside(old(a[..]), a[..], base + 4 * g, base + 4 * g + 4)
  {
    Yuy2Positions(d);
    var dst := base + 4 * g;
    a[dst + d.FirstYPosition()] := grp.y0 as u8;
    a[dst + d.UPosition()] := grp.u as u8;
    a[dst + d.SecondYPosition()] := grp.y1 as u8;
    a[dst + d.VPosition()] := grp.v as u8;
  }

  /** Byte `p` of a group stored in layout `d` holds the component of its role. */
  lemma GroupByte(a: seq<u8>, base: nat, g: nat, d: Yuy2Description, grp: Group, p: nat)
    requires GroupStored(a, base, g, d, grp) && p < 4
    ensures a[base + 4 * g + p] as int == grp.Component(d.Role(p))
  {
    Yuy2Positions(d);
  }

  /** Byte `j` of a row whose groups are all stored is the packed row's byte j. */
  lemma GroupsGiveByte(a: seq<u8>, base: nat, src: RowSource, s: YuvChromaSample, d: Yuy2Description, width: nat, j: nat)
    requires GroupsDone(a, base, src, s, d, width, Groups(width)) && j < 4 * Groups(width)
    ensures base + j < |a|
    ensures a[base + j] as int == PackedByte(src, s, d, width, j)
  {
    var g, p := j / 4, j % 4;
    assert j == 4 * g + p;
    assert GroupStored(a, base, g, d, GroupOf(src, s, width, g));
    GroupByte(a, base, g, d, GroupOf(src, s, width, g), p);
  }

  /** Groups stored one by one are the packed row byte for byte. */
  lemma GroupsArePackedRow(a: seq<u8>, base: nat, src: RowSource, s: YuvChromaSample, d: Yuy2Description, width: nat)
    requires GroupsDone(a, base, src, s, d, width, Groups(width)) && base + 4 * Groups(width) <= |a|
    ensures PackedRow(a, base, src, s, d, width)
  {
    forall j: nat | j < 4 * Groups(width)
      ensures a[base + j] as int == PackedByte(src, s, d, width, j)
    {
      GroupsGiveByte(a, base, src, s, d, width, j);
    }
  }

  /** Groups stored before a change that starts after them stay stored. */
  lemma GroupsDoneKept(a: seq<u8>, b: seq<u8>, base: nat, src: RowSource, s: YuvChromaSample, d: Yuy2Description, width: nat,
                       hi: nat, top: int)
    requires GroupsDone(a, base, src, s, d, width, hi) && SameOutside(a, b, base + 4 * hi, top)
    ensures GroupsDone(b, base, src, s, d, width, hi)
  {
    forall g: nat | g < hi
      ensures GroupStored(b, base, g, d, GroupOf(src, s, width, g))
    {
      assert GroupStored(a, base, g, d, GroupOf(src, s, width, g));
      Yuy2Positions(d);
      var q := base + 4 * g;
      assert a[q + d.FirstYPosition()] == b[q + d.FirstYPosition()];
      assert a[q + d.UPosition()] == b[q + d.UPosition()];
      assert a[q + d.SecondYPosition()] == b[q + d.SecondYPosition()];
      assert a[q + d.VPosition()] == b[q + d.VPosition()];
    }
  }

  /** One pair group of the loop: reads luma 2g, 2g + 1 and chroma index
      `ci` (with ci + 1 in 4:4:4) and stores the group. */
  method PackPair(src: RowSource, a: array<u8>, base: nat, width: nat, s: YuvChromaSample, d: Yuy2Description, g: nat, ci: nat)
    requires g < width / 2 && ci == ChromaAdvance(s) * g
    requires src.yOffset + width <= |src.y|
    requires src.uOffset + ChromaWidth(s, width) <= |src.u| && src.vOffset + ChromaWidth(s, width) <= |src.v|
    requires base + 4 * Groups(width) <= a.Length
    modifies a
    ensures GroupStored(a[..], base, g, d, GroupOf(src, s, width, g))
    ensures SameOutside(old(a[..]), a[..], base + 4 * g, base + 4 * g + 4)
  {
    var uValue, vValue;
    if s == YUV444 {
      uValue := (src.u[src.uOffset + ci] as int + src.u[src.uOffset + ci + 1] as int + 1) / 2;
      vValue := (src.v[src.vOffset + ci] as int + src.v[src.vOffset + ci + 1] as int + 1) / 2;
    } else {
      uValue := src.u[src.uOffset + ci] as int;
      vValue := src.v[src.vOffset + ci] as int;
    }
    var firstY := src.y[src.yOffset + 2 * g] as int;
    var secondY := src.y[src.yOffset + 2 * g + 1] as int;
    var grp := Group(firstY, uValue, secondY, vValue);
    assert grp == GroupOf(src, s, width, g);
    StoreGroup(a, base, g, d, grp);
  }

  /** The scalar loop of one row from group 0: every group of the packed
      row, and the odd-width last group, holds `GroupOf`; no byte outside
      the row's groups changes. */
  method YuvToYuy2Row(src: RowSource, a: array<u8>, base: nat, width: nat, s: YuvChromaSample, d: Yuy2Description)
    requires src.yOffset + width <= |src.y|
    requires src.uOffset + ChromaWidth(s, width) <= |src.u| && src.vOffset + ChromaWidth(s, width) <= |src.v|
    requires base + 4 * Groups(width) <= a.Length
    modifies a
    ensures PackedRow(a[..], base, src, s, d, width)
    ensures SameOutside(old(a[..]), a[..], base, base + 4 * Groups(width))
  {
    ghost var a0 := a[..];
    var cx, uvX := PackPairs(src, a, base, width, s, d);
    if width % 2 == 1 {
      PackTail(src, a, base, width, s, d, uvX, cx, a0);
    } else {
      assert Groups(width) == width / 2;
    }
    GroupsArePackedRow(a[..], base, src, s, d, width);
  }

  /** The loop over the row's pairs: groups 0 .. width / 2 hold `GroupOf`,
      nothing outside them changes, and the luma and chroma cursors end at
      the odd-width tail's columns. */
  method PackPairs(src: RowSource, a: array<u8>, base: nat, width: nat, s: YuvChromaSample, d: Yuy2Description)
    returns (cx: nat, uvX: nat)
    requires src.yOffset + width <= |src.y|
    requires src.uOffset + ChromaWidth(s, width) <= |src.u| && src.vOffset + ChromaWidth(s, width) <= |src.v|
    requires base + 4 * Groups(width) <= a.Length
    modifies a
    ensures cx == 2 * (width / 2) && uvX == ChromaAdvance(s) * (width / 2)
    ensures GroupsDone(a[..], base, src, s, d, width, width / 2)
    ensures SameOutside(old(a[..]), a[..], base, base + 4 * (width / 2))
  {
    ghost var a0 := a[..];
    uvX := 0;
    cx := 0;
    var x := 0;
    while x < width / 2
      invariant x <= width / 2 && cx == 2 * x && uvX == ChromaAdvance(s) * x
      invariant GroupsDone(a[..], base, src, s, d, width, x)
      invariant SameOutside(a0, a[..], base, base + 4 * x)
    {
      ghost var a1 := a[..];
      PackPair(src, a, base, width, s, d, x, uvX);
      GroupsDoneKept(a1, a[..], base, src, s, d, width, x, base + 4 * x + 4);
      GroupsDoneExtend(a[..], base, src, s, d, width, x);
      SameOutsideTrans(a0, a1, a[..], base, base + 4 * x, base + 4 * x, base + 4 * x + 4, base, base + 4 * x + 4);
      uvX := uvX + ChromaAdvance(s);
      cx := cx + 2;
      x := x + 1;
    }
  }

  lemma GroupsDoneExtend(a: seq<u8>, base: nat, src: RowSource, s: YuvChromaSample, d: Yuy2Description, width: nat, hi: nat)
    requires GroupsDone(a, base, src, s, d, width, hi) && GroupStored(a, base, hi, d, GroupOf(src, s, width, hi))
    ensures GroupsDone(a, base, src, s, d, width, hi + 1)
  {
  }

  /** The odd-width last group: luma `cx`, chroma `ci` copied, second luma 0.
      After the pair groups it completes the row's groups. */
  method PackTail(src: RowSource, a: array<u8>, base: nat, width: nat, s: YuvChromaSample, d: Yuy2Description, ci: nat, cx: nat,
                  ghost a0: seq<u8>)
    requires width % 2 == 1 && ci == ChromaAdvance(s) * (width / 2) && cx == 2 * (width / 2)
    requires src.yOffset + width <= |src.y|
    requires src.uOffset + ChromaWidth(s, width) <= |src.u| && src.vOffset + ChromaWidth(s, width) <= |src.v|
    requires base + 4 * Groups(width) <= a.Length
    requires GroupsDone(a[..], base, src, s, d, width, width / 2) && SameOutside(a0, a[..], base, base + 4 * (width / 2))
    modifies a
    ensures GroupStored(a[..], base, width / 2, d, GroupOf(src, s, width, width / 2))
    ensures SameOutside(old(a[..]), a[..], base + 4 * (width / 2), base + 4 * (width / 2) + 4)
    ensures GroupsDone(a[..], base, src, s, d, width, Groups(width)) && SameOutside(a0, a[..], base, base + 4 * Groups(width))
  {
    ghost var a1 := a[..];
    var g := (width - 1) / 2;
    assert g == width / 2 && width == 2 * g + 1;
    assert ci < ChromaWidth(s, width) by {
      if s == YUV444 { assert ci == 2 * g; } else { assert ci == g; }
    }
    var uValue := src.u[src.uOffset + ci];
    var vValue := src.v[src.vOffset + ci];
    var firstY := src.y[src.yOffset + cx];
    var grp := Group(firstY as int, uValue as int, 0, vValue as int);
    assert grp == GroupOf(src, s, width, g);
    StoreGroup(a, base, g, d, grp);
    GroupsDoneKept(a1, a[..], base, src, s, d, width, g, base + 4 * g + 4);
    GroupsDoneExtend(a[..], base, src, s, d, width, g);
    SameOutsideTrans(a0, a1, a[..], base, base + 4 * g, base + 4 * g, base + 4 * g + 4, base, base + 4 * g + 4);
  }

  // ------------------------------------------------------------ the image

  /** The three planes, their strides and the width. */
  datatype Planar = Planar(y: seq<u8>, yStride: nat, u: seq<u8>, uStride: nat, v: seq<u8>, vStride: nat, width: nat)

  /** The plane rows image row `y` reads: luma row y, chroma row y >> 1
      (4:2:0) or y. */
  function SourceOf(img: Planar, s: YuvChromaSample, y: nat): RowSource
  {
    RowSource(img.y, Offset(y, img.yStride), img.u, Offset(ChromaRow(s, y), img.uStride),
              img.v, Offset(ChromaRow(s, y), img.vStride))
  }

  /** Byte j of packed row y. */
  function PackedImage(img: Planar, s: YuvChromaSample, d: Yuy2Description): (nat, nat) -> int
  {
    (y: nat, j: nat) => PackedByte(SourceOf(img, s, y), s, d, img.width, j)
  }

  /** Every packed row (length / stride of them) holds its groups and reads
      plane rows that exist. */
  predicate ImageFits(img: Planar, len: nat, stride: nat, s: YuvChromaSample)
  {
    && stride > 0
    && 4 * Groups(img.width) <= stride
    && (len / stride > 0 ==>
          var last := len / stride - 1;
          && Offset(last, img.yStride) + img.width <= |img.y|
          && Offset(ChromaRow(s, last), img.uStride) + ChromaWidth(s, img.width) <= |img.u|
          && Offset(ChromaRow(s, last), img.vStride) + ChromaWidth(s, img.width) <= |img.v|)
  }

  lemma RowBounds(img: Planar, len: nat, stride: nat, s: YuvChromaSample, y: nat)
    requires ImageFits(img, len, stride, s) && y < len / stride
    ensures var src := SourceOf(img, s, y);
      && src.yOffset + img.width <= |src.y|
      && src.uOffset + ChromaWidth(s, img.width) <= |src.u| && src.vOffset + ChromaWidth(s, img.width) <= |src.v|
    ensures Offset(y + 1, stride) <= len
  {
    var last := len / stride - 1;
    OffsetLe(y, last, img.yStride);
    OffsetLe(ChromaRow(s, y), ChromaRow(s, last), img.uStride);
    OffsetLe(ChromaRow(s, y), ChromaRow(s, last), img.vStride);
    RowsFit(len, stride, y);
  }

  /** `yuv_to_yuy2_impl`: every row of the packed store (length / stride
      of them; the height is not used) holds the packed bytes of its planar
      rows in its first 4 * ceil(width / 2) bytes, and every other byte is
      unchanged. */
  method YuvToYuy2(img: Planar, yuy2: array<u8>, yuy2Stride: nat, s: YuvChromaSample, d: Yuy2Description)
    requires ImageFits(img, yuy2.Length, yuy2Stride, s)
    modifies yuy2
    ensures PlaneRowsHold(yuy2[..], old(yuy2[..]), yuy2Stride, 4 * Groups(img.width), yuy2.Length / yuy2Stride,
                          PackedImage(img, s, d))
  {
    var rows := yuy2.Length / yuy2Stride;
    ghost var expected := PackedImage(img, s, d);
    ghost var a0 := yuy2[..];
    PlaneRowsHoldNone(a0, yuy2Stride, 4 * Groups(img.width), expected);
    var y := 0;
    while y < rows
      invariant y <= rows
      invariant PlaneRowsHold(yuy2[..], a0, yuy2Stride, 4 * Groups(img.width), y, expected)
    {
      ghost var mid := yuy2[..];
      RowBounds(img, yuy2.Length, yuy2Stride, s, y);
      var yOffset := y * img.yStride;
      var uOffset := if s == YUV420 then (y / 2) * img.uStride else y * img.uStride;
      var vOffset := if s == YUV420 then (y / 2) * img.vStride else y * img.vStride;
      OffsetIsProduct(y, img.yStride);
      OffsetIsProduct(ChromaRow(s, y), img.uStride);
      OffsetIsProduct(ChromaRow(s, y), img.vStride);
      OffsetIsProduct(y, yuy2Stride);
      var src := RowSource(img.y, yOffset, img.u, uOffset, img.v, vOffset);
      assert src == SourceOf(img, s, y);
      YuvToYuy2Row(src, yuy2, y * yuy2Stride, img.width, s, d);
      PlaneRowsHoldNext(a0, mid, yuy2[..], yuy2Stride, 4 * Groups(img.width), y, y, expected, expected);
      y := y + 1;
    }
  }

  /** In 4:4:4 a pair group holds the rounded average of the pair's two
      chroma samples, which lies between them. */
  lemma AveragedChromaBetween(src: RowSource, width: nat, g: nat)
    requires g < width / 2
    ensures var c0, c1 := ByteAt(src.u, src.uOffset + 2 * g), ByteAt(src.u, src.uOffset + 2 * g + 1);
      Min(c0, c1) <= GroupOf(src, YUV444, width, g).u <= if c0 <= c1 then c1 else c0
    ensures ByteAt(src.u, src.uOffset + 2 * g) == ByteAt(src.u, src.uOffset + 2 * g + 1) ==>
      GroupOf(src, YUV444, width, g).u == ByteAt(src.u, src.uOffset + 2 * g)
  {
  }

  /** For an odd width the last group holds the last luma sample, a second
      luma of 0, and chroma copied without averaging even in 4:4:4. */
  lemma OddTailGroup(src: RowSource, s: YuvChromaSample, width: nat)
    requires width % 2 == 1
    ensures GroupOf(src, s, width, width / 2) ==
      Group(ByteAt(src.y, src.yOffset + width - 1), ByteAt(src.u, src.uOffset + ChromaAdvance(s) * (width / 2)), 0,
            ByteAt(src.v, src.vOffset + ChromaAdvance(s) * (width / 2)))
    ensures s == YUV444 ==> ChromaAdvance(s) * (width / 2) == width - 1
  {
  }
}
