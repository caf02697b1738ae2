/**
 * The integer YUV -> RGB step that the decoding kernels share: luma is
 * offset by bias_y and scaled by y_coef, each chroma sample is offset by
 * bias_uv, and each component is a fixed-point sum that is rounded, shifted
 * right and clamped. The coefficients come from a floating-point matrix
 * derivation (`get_inverse_transform(...).to_integers(precision)`), which is
 * not modelled: they are parameters here.
 */
module InverseTransforms {
  import opened Numerics
  import opened Planes

  /** The quantised inverse transform. */
  datatype InverseTransform = InverseTransform(yCoef: int, crCoef: int, cbCoef: int, gCoeff1: int, gCoeff2: int)

  /** How a kernel turns a fixed-point sum into a stored component: add
      `rounding`, shift right by `shift`, clamp to [0, max]. */
  datatype Quantiser = Quantiser(rounding: int, shift: nat, max: nat)

  function Quantise(v: int, q: Quantiser): (r: int)
    ensures 0 <= r <= q.max
  {
    Clamp(Shr(v + q.rounding, q.shift), 0, q.max)
  }

  /** One pixel from its luma sample `ys` and chroma samples `us`, `vs`:
      R = y + cr_coef*cr, B = y + cb_coef*cb, G = y - g1*cr - g2*cb. */
  function DecodePixel(ys: int, us: int, vs: int, biasY: int, biasUV: int, t: InverseTransform, q: Quantiser): (p: Colour)
    ensures ColourFits(p, q.max)
  {
    var yv := (ys - biasY) * t.yCoef;
    var cb := us - biasUV;
    var cr := vs - biasUV;
    Colour(Quantise(yv + t.crCoef * cr, q), Quantise(yv - t.gCoeff1 * cr - t.gCoeff2 * cb, q), Quantise(yv + t.cbCoef * cb, q))
  }

  lemma QuantiseMonotone(a: int, b: int, q: Quantiser)
    requires a <= b
    ensures Quantise(a, q) <= Quantise(b, q)
  {
    ShrMonotone(a + q.rounding, b + q.rounding, q.shift);
  }

  /** Neutral chroma (both samples at bias_uv) decodes to a grey: the three
      components are the quantised scaled luma. */
  lemma NeutralChromaIsGrey(ys: int, biasY: int, biasUV: int, t: InverseTransform, q: Quantiser)
    ensures DecodePixel(ys, biasUV, biasUV, biasY, biasUV, t, q).r == Quantise((ys - biasY) * t.yCoef, q)
    ensures DecodePixel(ys, biasUV, biasUV, biasY, biasUV, t, q).g == Quantise((ys - biasY) * t.yCoef, q)
    ensures DecodePixel(ys, biasUV, biasUV, biasY, biasUV, t, q).b == Quantise((ys - biasY) * t.yCoef, q)
  {
  }

  /** Black point: luma at bias_y with neutral chroma decodes to (0, 0, 0)
      whenever the rounding constant is below one output step. */
  lemma BiasDecodesToBlack(biasY: int, biasUV: int, t: InverseTransform, q: Quantiser)
    requires 0 <= q.rounding < Pow2(q.shift)
    ensures DecodePixel(biasY, biasUV, biasUV, biasY, biasUV, t, q) == Colour(0, 0, 0)
  {
    NeutralChromaIsGrey(biasY, biasY, biasUV, t, q);
    DivModOf(0, q.rounding, Pow2(q.shift));
  }

  /** With a non-negative luma coefficient, a brighter luma sample never
      gives a darker component. */
  lemma DecodeMonotoneInLuma(y1: int, y2: int, us: int, vs: int, biasY: int, biasUV: int, t: InverseTransform, q: Quantiser)
    requires y1 <= y2 && t.yCoef >= 0
    ensures DecodePixel(y1, us, vs, biasY, biasUV, t, q).r <= DecodePixel(y2, us, vs, biasY, biasUV, t, q).r
    ensures DecodePixel(y1, us, vs, biasY, biasUV, t, q).g <= DecodePixel(y2, us, vs, biasY, biasUV, t, q).g
    ensures DecodePixel(y1, us, vs, biasY, biasUV, t, q).b <= DecodePixel(y2, us, vs, biasY, biasUV, t, q).b
  {
    var cb, cr := us - biasUV, vs - biasUV;
    MulMonotone(y1 - biasY, y2 - biasY, t.yCoef);
    var a, b := (y1 - biasY) * t.yCoef, (y2 - biasY) * t.yCoef;
    QuantiseMonotone(a + t.crCoef * cr, b + t.crCoef * cr, q);
    QuantiseMonotone(a - t.gCoeff1 * cr - t.gCoeff2 * cb, b - t.gCoeff1 * cr - t.gCoeff2 * cb, q);
    QuantiseMonotone(a + t.cbCoef * cb, b + t.cbCoef * cb, q);
  }
}
