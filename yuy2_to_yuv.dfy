/**
 * Unpacking of packed 4:2:2 (YUYV, UYVY, YVYU or VYUY) into an 8-bit planar
 * image (4:2:0, 4:2:2 or 4:4:4): the scalar loop of `yuy2_to_yuv_impl`.
 *
 * Group g of a packed row gives luma 2g and 2g + 1 and one chroma sample;
 * in 4:4:4 the chroma sample is written to two neighbouring positions. In
 * 4:2:0 the chroma offsets advance only after odd rows, so both rows of a
 * pair write the same chroma row and the odd row's values are the ones left.
 */
module Yuy2ToYuv {
  import opened Numerics
  import opened YuvSupport
  import opened Planes
  import opened YuvToYuy2

  /** Luma sample `i` of the packed row at `pOffset`: the first or second
      luma of group i / 2. */
  function LumaFromPacked(p: seq<u8>, pOffset: nat, d: Yuy2Description, i: nat): int
  {
    ByteAt(p, pOffset + 4 * (i / 2) + (if i % 2 == 0 then d.FirstYPosition() else d.SecondYPosition()))
  }

  /** The packed group a planar chroma sample `k` comes from: k / 2 in
      4:4:4, where each group's chroma fills two samples, and k otherwise. */
  function ChromaGroup(s: YuvChromaSample, k: nat): nat
  {
    if s == YUV444 then k / 2 else k
  }

  /** Chroma sample `k` (the byte at `pos` of its group) of the packed row
      at `pOffset`. */
  function ChromaFromPacked(p: seq<u8>, pOffset: nat, s: YuvChromaSample, pos: nat, k: nat): int
  {
    ByteAt(p, pOffset + 4 * ChromaGroup(s, k) + pos)
  }

  /** Luma samples [lo, hi) of the planar row at `offset` are unpacked. */
  ghost predicate LumaUnpacked(a: seq<u8>, offset: nat, p: seq<u8>, pOffset: nat, d: Yuy2Description, lo: nat, hi: nat)
  {
    && offset + hi <= |a|
    && forall i: nat :: lo <= i < hi ==> a[offset + i] as int == LumaFromPacked(p, pOffset, d, i)
  }

  /** Chroma samples [lo, hi) of the planar row at `offset` are unpacked. */
  ghost predicate ChromaUnpacked(a: seq<u8>, offset: nat, p: seq<u8>, pOffset: nat, s: YuvChromaSample, pos: nat,
                                 lo: nat, hi: nat)
  {
    && offset + hi <= |a|
    && forall k: nat :: lo <= k < hi ==> a[offset + k] as int == ChromaFromPacked(p, pOffset, s, pos, k)
  }

  /** Extends an unpacked prefix [0, mid) by [mid, hi), each change confined
      to its own range. */
  lemma LumaExtend(a0: seq<u8>, a1: seq<u8>, a2: seq<u8>, offset: nat, p: seq<u8>, pOffset: nat, d: Yuy2Description,
                   mid: nat, hi: nat)
    requires mid <= hi
    requires LumaUnpacked(a1, offset, p, pOffset, d, 0, mid) && SameOutside(a0, a1, offset, offset + mid)
    requires LumaUnpacked(a2, offset, p, pOffset, d, mid, hi) && SameOutside(a1, a2, offset + mid, offset + hi)
    ensures LumaUnpacked(a2, offset, p, pOffset, d, 0, hi) && SameOutside(a0, a2, offset, offset + hi)
  {
    forall i: nat | i < mid
      ensures a2[offset + i] as int == LumaFromPacked(p, pOffset, d, i)
    {
      assert a1[offset + i] as int == LumaFromPacked(p, pOffset, d, i);
    }
  }

  lemma ChromaExtend(a0: seq<u8>, a1: seq<u8>, a2: seq<u8>, offset: nat, p: seq<u8>, pOffset: nat, s: YuvChromaSample, pos: nat,
                     mid: nat, hi: nat)
    requires mid <= hi
    requires ChromaUnpacked(a1, offset, p, pOffset, s, pos, 0, mid) && SameOutside(a0, a1, offset, offset + mid)
    requires ChromaUnpacked(a2, offset, p, pOffset, s, pos, mid, hi) && SameOutside(a1, a2, offset + mid, offset + hi)
    ensures ChromaUnpacked(a2, offset, p, pOffset, s, pos, 0, hi) && SameOutside(a0, a2, offset, offset + hi)
  {
    forall k: nat | k < mid
      ensures a2[offset + k] as int == ChromaFromPacked(p, pOffset, s, pos, k)
    {
      assert a1[offset + k] as int == ChromaFromPacked(p, pOffset, s, pos, k);
    }
  }

  /** Writes the chroma of group `g` (byte `pos`) at chroma index `ci`, and
      again at ci + 1 in 4:4:4, extending the unpacked prefix of the row. */
  method UnpackChroma(p: seq<u8>, pOffset: nat, a: array<u8>, offset: nat, s: YuvChromaSample, pos: nat, g: nat, ci: nat,
                      ghost a0: seq<u8>)
    requires pos < 4 && pOffset + 4 * g + 4 <= |p|
    requires ci == ChromaAdvance(s) * g && offset + ci + ChromaAdvance(s) <= a.Length
    requires ChromaUnpacked(a[..], offset, p, pOffset, s, pos, 0, ci) && SameOutside(a0, a[..], offset, offset + ci)
    modifies a
    ensures ChromaUnpacked(a[..], offset, p, pOffset, s, pos, 0, ci + ChromaAdvance(s))
    ensures SameOutside(a0, a[..], offset, offset + ci + ChromaAdvance(s))
  {
    ghost var a1 := a[..];
    var value := p[pOffset + 4 * g + pos];
    a[offset + ci] := value;
    if s == YUV444 {
      a[offset + ci + 1] := value;
      assert ChromaGroup(s, ci + 1) == g by {
        DivModOf(g, 1, 2);
      }
    }
    assert ChromaGroup(s, ci) == g by {
      DivModOf(g, 0, 2);
    }
    assert ChromaUnpacked(a[..], offset, p, pOffset, s, pos, ci, ci + ChromaAdvance(s));
    ChromaExtend(a0, a1, a[..], offset, p, pOffset, s, pos, ci, ci + ChromaAdvance(s));
  }

  /** Writes the two luma samples of group `g`, extending the unpacked
      prefix of the row. */
  method UnpackLuma(p: seq<u8>, pOffset: nat, a: array<u8>, offset: nat, d: Yuy2Description, g: nat, ghost a0: seq<u8>)
    requires pOffset + 4 * g + 4 <= |p| && offset + 2 * g + 2 <= a.Length
    requires LumaUnpacked(a[..], offset, p, pOffset, d, 0, 2 * g) && SameOutside(a0, a[..], offset, offset + 2 * g)
    modifies a
    ensures LumaUnpacked(a[..], offset, p, pOffset, d, 0, 2 * g + 2) && SameOutside(a0, a[..], offset, offset + 2 * g + 2)
  {
    Yuy2Positions(d);
    ghost var a1 := a[..];
    a[offset + 2 * g] := p[pOffset + 4 * g + d.FirstYPosition()];
    a[offset + 2 * g + 1] := p[pOffset + 4 * g + d.SecondYPosition()];
    assert (2 * g) / 2 == g && (2 * g + 1) / 2 == g && (2 * g + 1) % 2 == 1;
    assert LumaUnpacked(a[..], offset, p, pOffset, d, 2 * g, 2 * g + 2);
    LumaExtend(a0, a1, a[..], offset, p, pOffset, d, 2 * g, 2 * g + 2);
  }

  /** The odd-width tail's chroma: one copy at `ci`. */
  method UnpackChromaTail(p: seq<u8>, pOffset: nat, a: array<u8>, offset: nat, s: YuvChromaSample, pos: nat, g: nat, ci: nat,
                          ghost a0: seq<u8>)
    requires pos < 4 && pOffset + 4 * g + 4 <= |p|
    requires ci == ChromaAdvance(s) * g && offset + ci + 1 <= a.Length
    requires ChromaUnpacked(a[..], offset, p, pOffset, s, pos, 0, ci) && SameOutside(a0, a[..], offset, offset + ci)
    modifies a
    ensures ChromaUnpacked(a[..], offset, p, pOffset, s, pos, 0, ci + 1) && SameOutside(a0, a[..], offset, offset + ci + 1)
  {
    ghost var a1 := a[..];
    a[offset + ci] := p[pOffset + 4 * g + pos];
    assert ChromaGroup(s, ci) == g by {
      DivModOf(g, 0, 2);
    }
    assert ChromaUnpacked(a[..], offset, p, pOffset, s, pos, ci, ci + 1);
    ChromaExtend(a0, a1, a[..], offset, p, pOffset, s, pos, ci, ci + 1);
  }

  /** The odd-width tail's luma: the first luma of group `g` at 2g. */
  method UnpackLumaTail(p: seq<u8>, pOffset: nat, a: array<u8>, offset: nat, d: Yuy2Description, g: nat, ghost a0: seq<u8>)
    requires pOffset + 4 * g + 4 <= |p| && offset + 2 * g + 1 <= a.Length
    requires LumaUnpacked(a[..], offset, p, pOffset, d, 0, 2 * g) && SameOutside(a0, a[..], offset, offset + 2 * g)
    modifies a
    ensures LumaUnpacked(a[..], offset, p, pOffset, d, 0, 2 * g + 1) && SameOutside(a0, a[..], offset, offset + 2 * g + 1)
  {
    Yuy2Positions(d);
    ghost var a1 := a[..];
    a[offset + 2 * g] := p[pOffset + 4 * g + d.FirstYPosition()];
    assert (2 * g) / 2 == g && (2 * g) % 2 == 0;
    assert LumaUnpacked(a[..], offset, p, pOffset, d, 2 * g, 2 * g + 1);
    LumaExtend(a0, a1, a[..], offset, p, pOffset, d, 2 * g, 2 * g + 1);
  }

  /** The planar rows one packed row is written to. */
  datatype Targets = Targets(y: array<u8>, yOffset: nat, u: array<u8>, uOffset: nat, v: array<u8>, vOffset: nat)

  /** The three planes are distinct buffers and every row write of `width`
      pixels stays inside them. */
  predicate TargetsFit(t: Targets, s: YuvChromaSample, width: nat)
  {
    && t.y != t.u && t.y != t.v && t.u != t.v
    && t.yOffset + width <= t.y.Length
    && t.uOffset + ChromaWidth(s, width) <= t.u.Length && t.vOffset + ChromaWidth(s, width) <= t.v.Length
  }

  /** The scalar loop of one row from group 0: luma [0, width) and chroma
      [0, ChromaWidth) of the planar rows hold the unpacked packed row at
      `pOffset`, and nothing else in the three planes changes. */
  method Yuy2ToYuvRow(p: seq<u8>, pOffset: nat, t: Targets, width: nat, s: YuvChromaSample, d: Yuy2Description)
    requires TargetsFit(t, s, width) && pOffset + 4 * Groups(width) <= |p|
    modifies t.y, t.u, t.v
    ensures LumaUnpacked(t.y[..], t.yOffset, p, pOffset, d, 0, width)
    ensures ChromaUnpacked(t.u[..], t.uOffset, p, pOffset, s, d.UPosition(), 0, ChromaWidth(s, width))
    ensures ChromaUnpacked(t.v[..], t.vOffset, p, pOffset, s, d.VPosition(), 0, ChromaWidth(s, width))
    ensures SameOutside(old(t.y[..]), t.y[..], t.yOffset, t.yOffset + width)
    ensures SameOutside(old(t.u[..]), t.u[..], t.uOffset, t.uOffset + ChromaWidth(s, width))
    ensures SameOutside(old(t.v[..]), t.v[..], t.vOffset, t.vOffset + ChromaWidth(s, width))
  {
    ghost var y0, u0, v0 := t.y[..], t.u[..], t.v[..];
    UnpackPairs(p, pOffset, t, width, s, d);
    if width % 2 == 1 {
      UnpackTail(p, pOffset, t, width, s, d, y0, u0, v0);
    } else {
      var h := width / 2;
      assert 2 * h == width && ChromaAdvance(s) * h == ChromaWidth(s, width);
    }
  }

  /** The loop over the row's pairs: groups [0, width / 2) are unpacked. */
  method UnpackPairs(p: seq<u8>, pOffset: nat, t: Targets, width: nat, s: YuvChromaSample, d: Yuy2Description)
    requires TargetsFit(t, s, width) && pOffset + 4 * Groups(width) <= |p|
    modifies t.y, t.u, t.v
    ensures PairsUnpacked(p, pOffset, t, s, d, width / 2, old(t.y[..]), old(t.u[..]), old(t.v[..]))
  {
    ghost var y0, u0, v0 := t.y[..], t.u[..], t.v[..];
    var adv := ChromaAdvance(s);
    var uvX := 0;
    var cx := 0;
    var x := 0;
    while x < width / 2
      invariant x <= width / 2 && cx == 2 * x && uvX == adv * x
      invariant PairsUnpacked(p, pOffset, t, s, d, x, y0, u0, v0)
    {
      UnpackPair(p, pOffset, t, width, s, d, x, y0, u0, v0);
      uvX := uvX + adv;
      cx := cx + 2;
      x := x + 1;
    }
  }

  /** The planes after groups [0, g) of the row are unpacked. */
  ghost predicate PairsUnpacked(p: seq<u8>, pOffset: nat, t: Targets, s: YuvChromaSample, d: Yuy2Description, g: nat,
                                y0: seq<u8>, u0: seq<u8>, v0: seq<u8>)
    reads t.y, t.u, t.v
  {
    && LumaUnpacked(t.y[..], t.yOffset, p, pOffset, d, 0, 2 * g) && SameOutside(y0, t.y[..], t.yOffset, t.yOffset + 2 * g)
    && ChromaUnpacked(t.u[..], t.uOffset, p, pOffset, s, d.UPosition(), 0, ChromaAdvance(s) * g)
    && SameOutside(u0, t.u[..], t.uOffset, t.uOffset + ChromaAdvance(s) * g)
    && ChromaUnpacked(t.v[..], t.vOffset, p, pOffset, s, d.VPosition(), 0, ChromaAdvance(s) * g)
    && SameOutside(v0, t.v[..], t.vOffset, t.vOffset + ChromaAdvance(s) * g)
  }

  /** One pair group of the loop: luma 2g, 2g + 1 and the group's chroma. */
  method UnpackPair(p: seq<u8>, pOffset: nat, t: Targets, width: nat, s: YuvChromaSample, d: Yuy2Description, g: nat,
                    ghost y0: seq<u8>, ghost u0: seq<u8>, ghost v0: seq<u8>)
    requires TargetsFit(t, s, width) && pOffset + 4 * Groups(width) <= |p| && g < width / 2
    requires PairsUnpacked(p, pOffset, t, s, d, g, y0, u0, v0)
    modifies t.y, t.u, t.v
    ensures PairsUnpacked(p, pOffset, t, s, d, g + 1, y0, u0, v0)
  {
    Yuy2Positions(d);
    var group := pOffset + g * 4;
    var ci := ChromaAdvance(s) * g;
    assert 2 * g + 2 == 2 * (g + 1) <= width && 4 * g + 4 <= 4 * Groups(width);
    assert ci + ChromaAdvance(s) == ChromaAdvance(s) * (g + 1) <= ChromaWidth(s, width) by {
      if s == YUV444 { assert ci == 2 * g; } else { assert ci == g; }
    }
    UnpackLuma(p, pOffset, t.y, t.yOffset, d, g, y0);
    UnpackChroma(p, pOffset, t.u, t.uOffset, s, d.UPosition(), g, ci, u0);
    UnpackChroma(p, pOffset, t.v, t.vOffset, s, d.VPosition(), g, ci, v0);
  }

  /** The odd-width last group: its first luma and its chroma, once. */
  method UnpackTail(p: seq<u8>, pOffset: nat, t: Targets, width: nat, s: YuvChromaSample, d: Yuy2Description,
                    ghost y0: seq<u8>, ghost u0: seq<u8>, ghost v0: seq<u8>)
    requires TargetsFit(t, s, width) && pOffset + 4 * Groups(width) <= |p| && width % 2 == 1
    requires PairsUnpacked(p, pOffset, t, s, d, width / 2, y0, u0, v0)
    modifies t.y, t.u, t.v
    ensures LumaUnpacked(t.y[..], t.yOffset, p, pOffset, d, 0, width) && SameOutside(y0, t.y[..], t.yOffset, t.yOffset + width)
    ensures ChromaUnpacked(t.u[..], t.uOffset, p, pOffset, s, d.UPosition(), 0, ChromaWidth(s, width))
    ensures SameOutside(u0, t.u[..], t.uOffset, t.uOffset + ChromaWidth(s, width))
    ensures ChromaUnpacked(t.v[..], t.vOffset, p, pOffset, s, d.VPosition(), 0, ChromaWidth(s, width))
    ensures SameOutside(v0, t.v[..], t.vOffset, t.vOffset + ChromaWidth(s, width))
  {
    Yuy2Positions(d);
    var g := (width - 1) / 2;
    assert 2 * g + 1 == width && Groups(width) == g + 1;
    assert ChromaAdvance(s) * g + 1 == ChromaWidth(s, width) by {
      if s == YUV444 { assert ChromaAdvance(s) * g == 2 * g; } else { assert ChromaAdvance(s) * g == g; }
    }
    UnpackLumaTail(p, pOffset, t.y, t.yOffset, d, g, y0);
    UnpackChromaTail(p, pOffset, t.u, t.uOffset, s, d.UPosition(), g, ChromaAdvance(s) * g, u0);
    UnpackChromaTail(p, pOffset, t.v, t.vOffset, s, d.VPosition(), g, ChromaAdvance(s) * g, v0);
  }

  // ------------------------------------------------------------ whole image

  /** The packed row whose chroma chroma row `r` holds once `rows` packed
      rows are unpacked: in 4:2:0 the odd row 2r + 1 of the pair, or the last
      row when the pair is cut short; row r otherwise. */
  function SourceRowOf(s: YuvChromaSample, r: nat, rows: nat): nat
  {
    if s != YUV420 then r
    else if 2 * r + 1 < rows then 2 * r + 1
    else if rows > 0 then rows - 1
    else 0
  }

  /** Luma sample (r, i) of the planar image unpacked from `packed`. */
  function LumaImage(packed: seq<u8>, packedStride: nat, d: Yuy2Description): (nat, nat) -> int
  {
    (r: nat, i: nat) => LumaFromPacked(packed, Offset(r, packedStride), d, i)
  }

  /** Chroma sample (r, k) (byte `pos` of each group) of the planar image
      unpacked from the first `rows` rows of `packed`. */
  function ChromaImage(packed: seq<u8>, packedStride: nat, s: YuvChromaSample, pos: nat, rows: nat): (nat, nat) -> int
  {
    (r: nat, k: nat) => ChromaFromPacked(packed, Offset(SourceRowOf(s, r, rows), packedStride), s, pos, k)
  }

  /** Which chroma row packed row y writes, and how the chroma rows filled
      grow with it. */
  lemma ChromaRowStep(s: YuvChromaSample, y: nat)
    ensures ChromaRow(s, y) == ChromaRows(s, y) || ChromaRow(s, y) + 1 == ChromaRows(s, y)
    ensures ChromaRows(s, y + 1) == ChromaRow(s, y) + 1
    ensures SourceRowOf(s, ChromaRow(s, y), y + 1) == y
    ensures forall r: nat :: r < ChromaRow(s, y) ==> SourceRowOf(s, r, y + 1) == SourceRowOf(s, r, y)
  {
  }

  /** An unpacked luma row is row y of the luma image. */
  lemma LumaRowHolds(a: seq<u8>, offset: nat, packed: seq<u8>, packedStride: nat, d: Yuy2Description, width: nat, y: nat)
    requires LumaUnpacked(a, offset, packed, Offset(y, packedStride), d, 0, width)
    ensures RowHolds(a, offset, width, LumaImage(packed, packedStride, d), y)
  {
    forall i: nat | i < width
      ensures a[offset + i] as int == LumaImage(packed, packedStride, d)(y, i)
    {
      assert a[offset + i] as int == LumaFromPacked(packed, Offset(y, packedStride), d, i);
    }
  }

  lemma LumaPlaneNext(before: seq<u8>, mid: seq<u8>, after: seq<u8>, stride: nat, packed: seq<u8>, packedStride: nat,
                      d: Yuy2Description, width: nat, y: nat)
    requires PlaneRowsHold(mid, before, stride, width, y, LumaImage(packed, packedStride, d)) && width <= stride
    requires LumaUnpacked(after, Offset(y, stride), packed, Offset(y, packedStride), d, 0, width)
    requires SameOutside(mid, after, Offset(y, stride), Offset(y, stride) + width)
    ensures PlaneRowsHold(after, before, stride, width, y + 1, LumaImage(packed, packedStride, d))
  {
    var e := LumaImage(packed, packedStride, d);
    LumaRowHolds(after, Offset(y, stride), packed, packedStride, d, width, y);
    PlaneRowsHoldNext(before, mid, after, stride, width, y, y, e, e);
  }

  lemma ChromaPlaneNext(before: seq<u8>, mid: seq<u8>, after: seq<u8>, stride: nat, packed: seq<u8>, packedStride: nat,
                        s: YuvChromaSample, pos: nat, n: nat, y: nat)
    requires PlaneRowsHold(mid, before, stride, n, ChromaRows(s, y), ChromaImage(packed, packedStride, s, pos, y)) && n <= stride
    requires ChromaUnpacked(after, Offset(ChromaRow(s, y), stride), packed, Offset(y, packedStride), s, pos, 0, n)
    requires SameOutside(mid, after, Offset(ChromaRow(s, y), stride), Offset(ChromaRow(s, y), stride) + n)
    ensures PlaneRowsHold(after, before, stride, n, ChromaRows(s, y + 1), ChromaImage(packed, packedStride, s, pos, y + 1))
  {
    ChromaRowStep(s, y);
    ChromaRowHolds(after, stride, packed, packedStride, s, pos, n, y);
    var e1, e2 := ChromaImage(packed, packedStride, s, pos, y), ChromaImage(packed, packedStride, s, pos, y + 1);
    ChromaImageKeepsEarlier(packed, packedStride, s, pos, n, y, e1, e2);
    PlaneRowsHoldNext(before, mid, after, stride, n, ChromaRows(s, y), ChromaRow(s, y), e1, e2);
  }

  /** The chroma row packed row y writes is that row of the chroma image
      once y + 1 rows are unpacked. */
  lemma ChromaRowHolds(a: seq<u8>, stride: nat, packed: seq<u8>, packedStride: nat, s: YuvChromaSample, pos: nat, n: nat, y: nat)
    requires ChromaUnpacked(a, Offset(ChromaRow(s, y), stride), packed, Offset(y, packedStride), s, pos, 0, n)
    ensures RowHolds(a, Offset(ChromaRow(s, y), stride), n, ChromaImage(packed, packedStride, s, pos, y + 1), ChromaRow(s, y))
  {
    var r, e := ChromaRow(s, y), ChromaImage(packed, packedStride, s, pos, y + 1);
    ChromaRowStep(s, y);
    forall k: nat | k < n
      ensures a[Offset(r, stride) + k] as int == e(r, k)
    {
      assert a[Offset(r, stride) + k] as int == ChromaFromPacked(packed, Offset(y, packedStride), s, pos, k);
    }
  }

  /** Unpacking packed row y changes no chroma row before the one it writes. */
  lemma ChromaImageKeepsEarlier(packed: seq<u8>, packedStride: nat, s: YuvChromaSample, pos: nat, n: nat, y: nat,
                                 e1: (nat, nat) -> int, e2: (nat, nat) -> int)
    requires e1 == ChromaImage(packed, packedStride, s, pos, y) && e2 == ChromaImage(packed, packedStride, s, pos, y + 1)
    ensures forall r': nat, k: nat :: r' < ChromaRow(s, y) && k < n ==> e2(r', k) == e1(r', k)
  {
    ChromaRowStep(s, y);
    forall r': nat, k: nat | r' < ChromaRow(s, y) && k < n
      ensures e2(r', k) == e1(r', k)
    {
      assert SourceRowOf(s, r', y + 1) == SourceRowOf(s, r', y);
    }
  }

  /** The three destination planes and their strides. */
  datatype PlanarImage = Planes(y: array<u8>, yStride: nat, u: array<u8>, uStride: nat, v: array<u8>, vStride: nat)

  /** Packed rows [0, rows) are unpacked into the planes, which started as
      y0, u0 and v0. */
  ghost predicate ImageUnpacked(packed: seq<u8>, packedStride: nat, pl: PlanarImage, width: nat, s: YuvChromaSample,
                                d: Yuy2Description, rows: nat, y0: seq<u8>, u0: seq<u8>, v0: seq<u8>)
    reads pl.y, pl.u, pl.v
  {
    && PlaneRowsHold(pl.y[..], y0, pl.yStride, width, rows, LumaImage(packed, packedStride, d))
    && PlaneRowsHold(pl.u[..], u0, pl.uStride, ChromaWidth(s, width), ChromaRows(s, rows),
                     ChromaImage(packed, packedStride, s, d.UPosition(), rows))
    && PlaneRowsHold(pl.v[..], v0, pl.vStride, ChromaWidth(s, width), ChromaRows(s, rows),
                     ChromaImage(packed, packedStride, s, d.VPosition(), rows))
  }

  /** One pass of the image loop: packed row y into luma row y and chroma
      row ChromaRow(y). */
  method UnpackImageRow(packed: seq<u8>, packedStride: nat, pl: PlanarImage, t: Targets, width: nat, s: YuvChromaSample,
                        d: Yuy2Description, y: nat, ghost y0: seq<u8>, ghost u0: seq<u8>, ghost v0: seq<u8>)
    requires t.y == pl.y && t.u == pl.u && t.v == pl.v && TargetsFit(t, s, width)
    requires t.yOffset == Offset(y, pl.yStride) && t.uOffset == Offset(ChromaRow(s, y), pl.uStride)
    requires t.vOffset == Offset(ChromaRow(s, y), pl.vStride)
    requires width <= pl.yStride && ChromaWidth(s, width) <= pl.uStride && ChromaWidth(s, width) <= pl.vStride
    requires Offset(y, packedStride) + 4 * Groups(width) <= |packed|
    requires ImageUnpacked(packed, packedStride, pl, width, s, d, y, y0, u0, v0)
    modifies pl.y, pl.u, pl.v
    ensures ImageUnpacked(packed, packedStride, pl, width, s, d, y + 1, y0, u0, v0)
  {
    ghost var ym, um, vm := pl.y[..], pl.u[..], pl.v[..];
    Yuy2ToYuvRow(packed, Offset(y, packedStride), t, width, s, d);
    LumaPlaneNext(y0, ym, pl.y[..], pl.yStride, packed, packedStride, d, width, y);
    ChromaPlaneNext(u0, um, pl.u[..], pl.uStride, packed, packedStride, s, d.UPosition(), ChromaWidth(s, width), y);
    ChromaPlaneNext(v0, vm, pl.v[..], pl.vStride, packed, packedStride, s, d.VPosition(), ChromaWidth(s, width), y);
  }

  /** `yuy2_to_yuv_impl`: every packed row y is unpacked into luma row y and
      chroma row ChromaRow(y); each plane's rows hold the unpacked samples
      (in 4:2:0 a chroma row holds the later row of its pair) and nothing
      else in the planes changes. */
  method Yuy2ToYuv(packed: seq<u8>, packedStride: nat, yPlane: array<u8>, yStride: nat, uPlane: array<u8>, uStride: nat,
                   vPlane: array<u8>, vStride: nat, width: nat, height: nat, s: YuvChromaSample, d: Yuy2Description)
    requires yPlane != uPlane && yPlane != vPlane && uPlane != vPlane
    requires width <= yStride && ChromaWidth(s, width) <= uStride && ChromaWidth(s, width) <= vStride
    requires height > 0 ==>
      && Offset(height - 1, packedStride) + 4 * Groups(width) <= |packed|
      && Offset(height - 1, yStride) + width <= yPlane.Length
      && Offset(ChromaRow(s, height - 1), uStride) + ChromaWidth(s, width) <= uPlane.Length
      && Offset(ChromaRow(s, height - 1), vStride) + ChromaWidth(s, width) <= vPlane.Length
    modifies yPlane, uPlane, vPlane
    ensures PlaneRowsHold(yPlane[..], old(yPlane[..]), yStride, width, height, LumaImage(packed, packedStride, d))
    ensures PlaneRowsHold(uPlane[..], old(uPlane[..]), uStride, ChromaWidth(s, width), ChromaRows(s, height),
                          ChromaImage(packed, packedStride, s, d.UPosition(), height))
    ensures PlaneRowsHold(vPlane[..], old(vPlane[..]), vStride, ChromaWidth(s, width), ChromaRows(s, height),
                          ChromaImage(packed, packedStride, s, d.VPosition(), height))
  {
    ghost var y0, u0, v0 := yPlane[..], uPlane[..], vPlane[..];
    var cw := ChromaWidth(s, width);
    PlaneRowsHoldNone(y0, yStride, width, LumaImage(packed, packedStride, d));
    PlaneRowsHoldNone(u0, uStride, cw, ChromaImage(packed, packedStride, s, d.UPosition(), 0));
    PlaneRowsHoldNone(v0, vStride, cw, ChromaImage(packed, packedStride, s, d.VPosition(), 0));
    var pl := Planes(yPlane, yStride, uPlane, uStride, vPlane, vStride);
    var yOffset, uOffset, vOffset, packedOffset := 0, 0, 0, 0;
    var y := 0;
    while y < height
      invariant y <= height
      invariant yOffset == Offset(y, yStride) && packedOffset == Offset(y, packedStride)
      invariant uOffset == Offset(ChromaRow(s, y), uStride) && vOffset == Offset(ChromaRow(s, y), vStride)
      invariant ImageUnpacked(packed, packedStride, pl, width, s, d, y, y0, u0, v0)
    {
      UnpackBounds(packedStride, yStride, uStride, vStride, s, y, height);
      UnpackImageRow(packed, packedStride, pl, Targets(yPlane, yOffset, uPlane, uOffset, vPlane, vOffset), width, s, d, y,
                     y0, u0, v0);
      yOffset, packedOffset, uOffset, vOffset := NextOffsets(yOffset, yStride, packedOffset, packedStride, uOffset, uStride,
                                                             vOffset, vStride, s, y);
      y := y + 1;
    }
  }

  /** The offsets of the next row: luma and packed rows advance by their
      strides; chroma rows advance after every row, except in 4:2:0, where
      they advance only after odd rows. */
  method NextOffsets(yOffset: nat, yStride: nat, packedOffset: nat, packedStride: nat, uOffset: nat, uStride: nat,
                     vOffset: nat, vStride: nat, s: YuvChromaSample, y: nat)
    returns (yNext: nat, packedNext: nat, uNext: nat, vNext: nat)
    requires yOffset == Offset(y, yStride) && packedOffset == Offset(y, packedStride)
    requires uOffset == Offset(ChromaRow(s, y), uStride) && vOffset == Offset(ChromaRow(s, y), vStride)
    ensures yNext == Offset(y + 1, yStride) && packedNext == Offset(y + 1, packedStride)
    ensures uNext == Offset(ChromaRow(s, y + 1), uStride) && vNext == Offset(ChromaRow(s, y + 1), vStride)
  {
    yNext := yOffset + yStride;
    packedNext := packedOffset + packedStride;
    uNext, vNext := uOffset, vOffset;
    if s == YUV420 {
      if y % 2 == 1 {
        uNext := uOffset + uStride;
        vNext := vOffset + vStride;
      }
    } else {
      uNext := uOffset + uStride;
      vNext := vOffset + vStride;
    }
  }

  /** Row y of the loop lies no further than the last row. */
  lemma UnpackBounds(packedStride: nat, yStride: nat, uStride: nat, vStride: nat, s: YuvChromaSample, y: nat, height: nat)
    requires y < height
    ensures Offset(y, packedStride) <= Offset(height - 1, packedStride) && Offset(y, yStride) <= Offset(height - 1, yStride)
    ensures Offset(ChromaRow(s, y), uStride) <= Offset(ChromaRow(s, height - 1), uStride)
    ensures Offset(ChromaRow(s, y), vStride) <= Offset(ChromaRow(s, height - 1), vStride)
  {
    OffsetLe(y, height - 1, packedStride);
    OffsetLe(y, height - 1, yStride);
    OffsetLe(ChromaRow(s, y), ChromaRow(s, height - 1), uStride);
    OffsetLe(ChromaRow(s, y), ChromaRow(s, height - 1), vStride);
  }
}
