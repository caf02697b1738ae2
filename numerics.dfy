/**
 * Integer helpers shared by every kernel: the machine integer ranges the
 * buffers hold, powers of two, the arithmetic right shift of `i32`, clamping,
 * and the division facts that let a flat buffer index be read as a
 * (row, column) or (pixel, channel) pair.
 */
module Numerics {

  /** A byte of a caller-owned buffer. */
  newtype u8 = x: int | 0 <= x < 0x100

  /** A 16-bit stored sample of a high-bit-depth plane. */
  newtype u16 = x: int | 0 <= x < 0x1_0000

  function Pow2(n: nat): (p: int)
    ensures p >= 1
  {
    if n == 0 then 1 else 2 * Pow2(n - 1)
  }

  /** `v >> n` on a signed integer: Rust's arithmetic shift rounds toward
      negative infinity, which is Dafny's Euclidean division by 2^n. */
  function Shr(v: int, n: nat): int
  {
    v / Pow2(n)
  }

  /** `v.clamp(lo, hi)`, and equally `v.min(hi).max(lo)` when lo <= hi. */
  function Clamp(v: int, lo: int, hi: int): (r: int)
    requires lo <= hi
    ensures lo <= r <= hi
    ensures lo <= v <= hi ==> r == v
    ensures v < lo ==> r == lo
    ensures hi < v ==> r == hi
  {
    if v < lo then lo else if hi < v then hi else v
  }

  function Min(a: int, b: int): int
  {
    if a <= b then a else b
  }

  /** `n.div_ceil(2)`. */
  function HalfUp(n: nat): nat
  {
    (n + 1) / 2
  }

  /** The start of row (or pixel) `y` of a buffer whose rows (pixels) are
      `stride` apart. The kernels advance their offsets by adding the stride
      once per row, and this is that sum; `OffsetIsProduct` shows it is
      y * stride. */
  function Offset(y: nat, stride: nat): nat
  {
    if y == 0 then 0 else Offset(y - 1, stride) + stride
  }

  lemma {:induction false} OffsetIsProduct(y: nat, stride: nat)
    ensures Offset(y, stride) == y * stride
  {
    if y > 0 {
      OffsetIsProduct(y - 1, stride);
    }
  }

  /** A later row starts at least one stride after an earlier one. */
  lemma {:induction false} OffsetMonotone(a: nat, b: nat, stride: nat)
    requires a < b
    ensures Offset(a, stride) + stride <= Offset(b, stride)
  {
    if a + 1 < b {
      OffsetMonotone(a, b - 1, stride);
    }
  }

  lemma OffsetLe(a: nat, b: nat, stride: nat)
    requires a <= b
    ensures Offset(a, stride) <= Offset(b, stride)
  {
    if a < b {
      OffsetMonotone(a, b, stride);
    }
  }

  /** Index `Offset(y, s) + x` with `x < s` lies in row y at column x. */
  lemma OffsetDecodes(y: nat, x: nat, s: nat)
    requires x < s
    ensures (Offset(y, s) + x) / s == y && (Offset(y, s) + x) % s == x
  {
    OffsetIsProduct(y, s);
    DivModOf(y, x, s);
  }

  lemma Pow2Add(a: nat, b: nat)
    ensures Pow2(a + b) == Pow2(a) * Pow2(b)
  {
    if a > 0 {
      Pow2Add(a - 1, b);
    }
  }

  lemma Pow2Sixteen()
    ensures Pow2(8) == 256 && Pow2(16) == 65536
  {
    assert Pow2(2) == 4;
    Pow2Add(2, 2);
    Pow2Add(4, 4);
    Pow2Add(8, 8);
  }

  lemma {:induction false} Pow2Monotone(a: nat, b: nat)
    requires a <= b
    ensures Pow2(a) <= Pow2(b)
  {
    if a < b {
      Pow2Monotone(a, b - 1);
    }
  }

  /** The shift is a floor division: it brackets its argument. */
  lemma ShrBrackets(v: int, n: nat)
    ensures Shr(v, n) * Pow2(n) <= v < (Shr(v, n) + 1) * Pow2(n)
  {
  }

  lemma ShrMonotone(a: int, b: int, n: nat)
    requires a <= b
    ensures Shr(a, n) <= Shr(b, n)
  {
    var p := Pow2(n);
    ShrBrackets(a, n);
    ShrBrackets(b, n);
    if Shr(a, n) > Shr(b, n) {
      MulMonotone(Shr(b, n) + 1, Shr(a, n), p);
    }
  }

  lemma MulMonotone(a: int, b: int, s: nat)
    requires a <= b
    ensures a * s <= b * s
  {
    assert b * s - a * s == (b - a) * s;
  }

  /** The next row starts one stride after this one. */
  lemma MulSucc(y: int, s: int)
    ensures (y + 1) * s == y * s + s
  {
  }

  /** Index `q*d + r` with `0 <= r < d` decodes back to (q, r). */
  lemma DivModOf(q: int, r: int, d: int)
    requires 0 <= r < d
    ensures (q * d + r) / d == q
    ensures (q * d + r) % d == r
  {
    var i := q * d + r;
    var q', r' := i / d, i % d;
    assert q' * d + r' == q * d + r;
    assert (q' - q) * d == r - r';
    if q' > q {
      MulMonotone(1, q' - q, d);
    } else if q' < q {
      MulMonotone(1, q - q', d);
    }
  }

  /** An index that lies in row `y` of a buffer with row length `s`. */
  lemma RowOf(i: int, y: int, s: int)
    requires s > 0 && y * s <= i < y * s + s
    ensures i / s == y && i % s == i - y * s
  {
    DivModOf(y, i - y * s, s);
  }

  /** Rows before row `y` end before row `y` starts. */
  lemma RowBefore(r: int, x: int, y: int, s: int)
    requires 0 <= r < y && 0 <= x < s
    ensures r * s + x < y * s
  {
    MulMonotone(r + 1, y, s);
  }

  /** An index at or past row `h` lies in a row numbered h or more. */
  lemma DivAtLeast(i: int, h: nat, s: nat)
    requires s > 0 && h * s <= i
    ensures i / s >= h
  {
    if i / s < h {
      DivModOf(i / s, i % s, s);
      MulMonotone(i / s + 1, h, s);
    }
  }

  /** An index before row `r` lies in a row numbered below r. */
  lemma DivLess(i: int, r: nat, s: nat)
    requires s > 0 && 0 <= i < r * s
    ensures i / s < r
  {
    if i / s >= r {
      DivModOf(i / s, i % s, s);
      MulMonotone(r, i / s, s);
    }
  }
}
