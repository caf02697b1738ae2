/**
 * Stores into a caller-owned plane or interleaved image. Every kernel of the
 * library writes its destination element by element with unchecked
 * indexing, walks a row with `(cx..width).step_by(step)` or a `while` loop,
 * and walks the image with `chunks_exact_mut(stride)`. This module says how
 * those walks map to buffer indices and what "pixel x of row y holds this
 * colour, and nothing else changed" means for an interleaved image.
 */
module Planes {
  import opened Numerics
  import opened YuvSupport

  /** One store `s[i] = v`; an index outside the buffer leaves it alone (the
      kernels' preconditions keep their own stores inside). */
  function Store<T>(s: seq<T>, i: int, v: T): (r: seq<T>)
    ensures |r| == |s|
  {
    if 0 <= i < |s| then s[i := v] else s
  }

  /** Byte `i` of a plane as an integer; 0 past its end, where the kernels'
      preconditions keep them from reading. */
  function ByteAt(s: seq<u8>, i: int): int
  {
    if 0 <= i < |s| then s[i] as int else 0
  }

  /** The plane rows one image row reads: the start of its luma row and of
      its two chroma rows, each inside its own plane. */
  datatype RowSource = RowSource(y: seq<u8>, yOffset: nat, u: seq<u8>, uOffset: nat, v: seq<u8>, vOffset: nat)

  /** The three colour components of one pixel (or of a pair average). */
  datatype Colour = Colour(r: int, g: int, b: int)

  /** Every component of `p` lies in [0, max]. */
  predicate ColourFits(p: Colour, max: int)
  {
    0 <= p.r <= max && 0 <= p.g <= max && 0 <= p.b <= max
  }

  // ---------------------------------------------------- walking a row tail

  /** The column of iteration `k` of a row tail that starts at `cx0` and
      steps by one column (4:4:4) or by a pixel pair (4:2:2, 4:2:0). */
  function ColumnOf(cx0: nat, k: nat, s: YuvChromaSample): nat
  {
    if s == YUV444 then cx0 + k else cx0 + 2 * k
  }

  /** How many iterations `(cx0..width).step_by(step)` makes. */
  function Iterations(cx0: nat, width: nat, s: YuvChromaSample): nat
  {
    if width <= cx0 then 0
    else if s == YUV444 then width - cx0
    else (width - cx0 + 1) / 2
  }

  /** Iteration `k` of the tail starts inside the row, the next one starts
      one column step later, and the iteration after the last starts at or
      past the row's end. */
  lemma IterationColumns(cx0: nat, width: nat, s: YuvChromaSample, k: nat)
    ensures k < Iterations(cx0, width, s) <==> ColumnOf(cx0, k, s) < width
    ensures ColumnOf(cx0, k + 1, s) == ColumnOf(cx0, k, s) + ColumnStep(s)
    ensures cx0 <= width ==> Min(ColumnOf(cx0, Iterations(cx0, width, s), s), width) == width
  {
  }

  // ------------------------------------------ pixels of an interleaved image

  /** Pixel `x` of the row at `base` holds the colour `p` at the layout's R,
      G and B offsets, and 255 at its alpha offset when it has one. */
  predicate PixelStored(a: seq<u8>, base: nat, x: nat, ch: YuvSourceChannels, p: Colour)
  {
    ChannelLayout(ch);
    var px := base + Offset(x, ch.ChannelsCount());
    && px + ch.ChannelsCount() <= |a|
    && a[px + ch.ROffset()] as int == p.r
    && a[px + ch.GOffset()] as int == p.g
    && a[px + ch.BOffset()] as int == p.b
    && (ch.HasAlpha() ==> a[px + ch.AOffset()] == 255)
  }

  /** `a` and `b` have the same length and agree outside [lo, hi). */
  predicate SameOutside<T(==)>(a: seq<T>, b: seq<T>, lo: int, hi: int)
  {
    |a| == |b| && forall i :: 0 <= i < |a| && (i < lo || hi <= i) ==> a[i] == b[i]
  }

  /** Two changes confined to ranges inside [lo, hi) change nothing outside it. */
  lemma SameOutsideTrans<T>(a: seq<T>, b: seq<T>, c: seq<T>, lo1: int, hi1: int, lo2: int, hi2: int, lo: int, hi: int)
    requires SameOutside(a, b, lo1, hi1) && SameOutside(b, c, lo2, hi2)
    requires lo <= lo1 && lo <= lo2 && hi1 <= hi && hi2 <= hi
    ensures SameOutside(a, c, lo, hi)
  {
  }

  /** A pixel that lies wholly outside the changed range keeps its colour. */
  lemma PixelKept(a: seq<u8>, b: seq<u8>, base: nat, x: nat, ch: YuvSourceChannels, p: Colour, lo: int, hi: int)
    requires PixelStored(a, base, x, ch, p) && SameOutside(a, b, lo, hi)
    requires base + Offset(x + 1, ch.ChannelsCount()) <= lo || hi <= base + Offset(x, ch.ChannelsCount())
    ensures PixelStored(b, base, x, ch, p)
  {
    ChannelLayout(ch);
    var px := base + Offset(x, ch.ChannelsCount());
    assert a[px + ch.ROffset()] == b[px + ch.ROffset()];
    assert a[px + ch.GOffset()] == b[px + ch.GOffset()];
    assert a[px + ch.BOffset()] == b[px + ch.BOffset()];
    if ch.HasAlpha() {
      assert a[px + ch.AOffset()] == b[px + ch.AOffset()];
    }
  }

  /** Writes one pixel in the order the kernels do: B, G, R, then an opaque
      alpha when the layout has one. */
  method StorePixel(a: array<u8>, base: nat, x: nat, ch: YuvSourceChannels, p: Colour)
    requires base + Offset(x + 1, ch.ChannelsCount()) <= a.Length
    requires ColourFits(p, 255)
    modifies a
    ensures PixelStored(a[..], base, x, ch, p)
    ensures SameOutside(old(a[..]), a[..], base + Offset(x, ch.ChannelsCount()), base + Offset(x + 1, ch.ChannelsCount()))
  {
    ChannelLayout(ch);
    OffsetIsProduct(x, ch.ChannelsCount());
    var px := base + x * ch.ChannelsCount();
    a[px + ch.BOffset()] := p.b as u8;
    a[px + ch.GOffset()] := p.g as u8;
    a[px + ch.ROffset()] := p.r as u8;
    if ch.HasAlpha() {
      a[px + ch.AOffset()] := 255;
    }
  }

  // ------------------------------------------------ rows of an interleaved image

  /** Columns 0..width of the row at `base` hold the colours `expected(y, x)`. */
  ghost predicate RowPixels(a: seq<u8>, base: nat, width: nat, ch: YuvSourceChannels, expected: (nat, nat) -> Colour, y: nat)
  {
    forall x: nat :: x < width ==> PixelStored(a, base, x, ch, expected(y, x))
  }

  /** Every byte of `a` in [lo, hi) is as in `before`. */
  predicate Kept(a: seq<u8>, before: seq<u8>, lo: int, hi: int)
  {
    forall i :: lo <= i < hi && 0 <= i < |a| && i < |before| ==> a[i] == before[i]
  }

  /** Rows 0..rows of an image whose rows start `stride` bytes apart hold the
      colour `expected(y, x)` at column x < width of row y; the bytes between
      a row's last pixel and the next row, and every byte from row `rows` on,
      are as in `before`. */
  ghost predicate RowsHold(a: seq<u8>, before: seq<u8>, stride: nat, width: nat, ch: YuvSourceChannels, rows: nat,
                           expected: (nat, nat) -> Colour)
  {
    && |a| == |before|
    && (forall y: nat :: y < rows ==>
          && RowPixels(a, Offset(y, stride), width, ch, expected, y)
          && Kept(a, before, Offset(y, stride) + Offset(width, ch.ChannelsCount()), Offset(y, stride) + stride))
    && Kept(a, before, Offset(rows, stride), |a|)
  }

  /** Nothing written yet: no rows hold, and every byte is as before. */
  lemma RowsHoldNone(a: seq<u8>, stride: nat, width: nat, ch: YuvSourceChannels, expected: (nat, nat) -> Colour)
    ensures RowsHold(a, a, stride, width, ch, 0, expected)
  {
  }

  /** A row whose pixels end before the changed range keeps its colours. */
  lemma RowKept(a: seq<u8>, b: seq<u8>, base: nat, width: nat, ch: YuvSourceChannels, expected: (nat, nat) -> Colour, y: nat,
                lo: int, hi: int)
    requires RowPixels(a, base, width, ch, expected, y) && SameOutside(a, b, lo, hi)
    requires base + Offset(width, ch.ChannelsCount()) <= lo
    ensures RowPixels(b, base, width, ch, expected, y)
  {
    forall x: nat | x < width
      ensures PixelStored(b, base, x, ch, expected(y, x))
    {
      OffsetLe(x + 1, width, ch.ChannelsCount());
      PixelKept(a, b, base, x, ch, expected(y, x), lo, hi);
    }
  }

  /** Bytes kept in [plo, phi) stay kept when only [lo, hi) changes
      and [plo', phi') lies inside [plo, phi) (or [plo, phi) runs to the
      end of the buffer) and outside [lo, hi). */
  lemma KeptMoved(mid: seq<u8>, after: seq<u8>, before: seq<u8>, plo: int, phi: int, plo': int, phi': int, lo: int, hi: int)
    requires Kept(mid, before, plo, phi) && SameOutside(mid, after, lo, hi)
    requires plo <= plo' && (phi' <= phi || |mid| <= phi) && (phi' <= lo || hi <= plo')
    ensures Kept(after, before, plo', phi')
  {
  }

  /** Writing every pixel of row `y`, and nothing outside that row's pixels,
      extends the rows that hold by one. */
  lemma {:induction false} RowsHoldNext(before: seq<u8>, mid: seq<u8>, after: seq<u8>, stride: nat, width: nat,
                                        ch: YuvSourceChannels, y: nat, expected: (nat, nat) -> Colour)
    requires RowsHold(mid, before, stride, width, ch, y, expected)
    requires Offset(width, ch.ChannelsCount()) <= stride && Offset(y + 1, stride) <= |mid|
    requires RowPixels(after, Offset(y, stride), width, ch, expected, y)
    requires SameOutside(mid, after, Offset(y, stride), Offset(y, stride) + Offset(width, ch.ChannelsCount()))
    ensures RowsHold(after, before, stride, width, ch, y + 1, expected)
  {
    var n := ch.ChannelsCount();
    var lo, hi := Offset(y, stride), Offset(y, stride) + Offset(width, n);
    forall r: nat | r < y + 1
      ensures RowPixels(after, Offset(r, stride), width, ch, expected, r)
      ensures Kept(after, before, Offset(r, stride) + Offset(width, n), Offset(r, stride) + stride)
    {
      if r < y {
        OffsetMonotone(r, y, stride);
        RowKept(mid, after, Offset(r, stride), width, ch, expected, r, lo, hi);
        KeptMoved(mid, after, before, Offset(r, stride) + Offset(width, n), Offset(r, stride) + stride,
                  Offset(r, stride) + Offset(width, n), Offset(r, stride) + stride, lo, hi);
      } else {
        KeptMoved(mid, after, before, Offset(y, stride), |mid|,
                  Offset(y, stride) + Offset(width, n), Offset(y, stride) + stride, lo, hi);
      }
    }
    KeptMoved(mid, after, before, Offset(y, stride), |mid|, Offset(y + 1, stride), |mid|, lo, hi);
  }

  /** Every row below `len / stride` lies inside a buffer of `len` bytes. */
  lemma RowsFit(len: nat, stride: nat, y: nat)
    requires stride > 0 && y < len / stride
    ensures Offset(y + 1, stride) <= len
  {
    OffsetIsProduct(y + 1, stride);
    MulMonotone(y + 1, len / stride, stride);
  }

  // ------------------------------------------------------ rows of a byte plane

  /** Bytes 0..rowLen of the row at `base` hold `expected(r, i)`. */
  ghost predicate RowHolds(a: seq<u8>, base: nat, rowLen: nat, expected: (nat, nat) -> int, r: nat)
  {
    && base + rowLen <= |a|
    && forall i: nat :: i < rowLen ==> a[base + i] as int == expected(r, i)
  }

  /** Rows 0..rows of a plane whose rows start `stride` bytes apart hold
      `expected(r, i)` in their first rowLen bytes; every other byte is as in
      `before`. */
  ghost predicate PlaneRowsHold(a: seq<u8>, before: seq<u8>, stride: nat, rowLen: nat, rows: nat, expected: (nat, nat) -> int)
  {
    && |a| == |before|
    && (forall r: nat :: r < rows ==>
          && RowHolds(a, Offset(r, stride), rowLen, expected, r)
          && Kept(a, before, Offset(r, stride) + rowLen, Offset(r, stride) + stride))
    && Kept(a, before, Offset(rows, stride), |a|)
  }

  lemma PlaneRowsHoldNone(a: seq<u8>, stride: nat, rowLen: nat, expected: (nat, nat) -> int)
    ensures PlaneRowsHold(a, a, stride, rowLen, 0, expected)
  {
  }

  /** A row whose bytes end before the changed range keeps its values. */
  lemma RowHoldsKept(a: seq<u8>, b: seq<u8>, base: nat, rowLen: nat, expected: (nat, nat) -> int, r: nat, lo: int, hi: int)
    requires RowHolds(a, base, rowLen, expected, r) && SameOutside(a, b, lo, hi)
    requires base + rowLen <= lo
    ensures RowHolds(b, base, rowLen, expected, r)
  {
    forall i: nat | i < rowLen
      ensures b[base + i] as int == expected(r, i)
    {
      assert a[base + i] as int == expected(r, i);
    }
  }

  /** Writing row `r` (the next row, or the last one again) and nothing
      outside its first rowLen bytes gives a plane whose rows hold the new
      expectation `e2`, provided `e2` agrees with the old one on the other
      rows. */
  lemma {:induction false} PlaneRowsHoldNext(before: seq<u8>, mid: seq<u8>, after: seq<u8>, stride: nat, rowLen: nat,
                                             rows: nat, r: nat, e1: (nat, nat) -> int, e2: (nat, nat) -> int)
    requires PlaneRowsHold(mid, before, stride, rowLen, rows, e1)
    requires r == rows || r + 1 == rows
    requires rowLen <= stride
    requires forall r': nat, i: nat :: r' < r && i < rowLen ==> e2(r', i) == e1(r', i)
    requires RowHolds(after, Offset(r, stride), rowLen, e2, r)
    requires SameOutside(mid, after, Offset(r, stride), Offset(r, stride) + rowLen)
    ensures PlaneRowsHold(after, before, stride, rowLen, r + 1, e2)
  {
    var lo, hi := Offset(r, stride), Offset(r, stride) + rowLen;
    forall r': nat | r' < r + 1
      ensures RowHolds(after, Offset(r', stride), rowLen, e2, r')
      ensures Kept(after, before, Offset(r', stride) + rowLen, Offset(r', stride) + stride)
    {
      if r' < r {
        OffsetMonotone(r', r, stride);
        RowHoldsKept(mid, after, Offset(r', stride), rowLen, e1, r', lo, hi);
        KeptMoved(mid, after, before, Offset(r', stride) + rowLen, Offset(r', stride) + stride,
                  Offset(r', stride) + rowLen, Offset(r', stride) + stride, lo, hi);
      } else if r == rows {
        KeptMoved(mid, after, before, Offset(r, stride), |mid|, Offset(r, stride) + rowLen, Offset(r, stride) + stride, lo, hi);
      } else {
        KeptMoved(mid, after, before, Offset(r, stride) + rowLen, Offset(r, stride) + stride,
                  Offset(r, stride) + rowLen, Offset(r, stride) + stride, lo, hi);
      }
    }
    if r == rows {
      KeptMoved(mid, after, before, Offset(r, stride), |mid|, Offset(r + 1, stride), |mid|, lo, hi);
    } else {
      KeptMoved(mid, after, before, Offset(rows, stride), |mid|, Offset(r + 1, stride), |mid|, lo, hi);
    }
  }
}
