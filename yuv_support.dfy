/**
 * Range and layout tables of the conversion library: the TV/Full bias and
 * excursion at a bit depth (the ranges of ITU-T H.273, section 8.3), the byte
 * offsets of the interleaved pixel layouts, the NV chroma order and the packed
 * 4:2:2 group layouts, and the decoders that turn a const-generic discriminant
 * back into its enum (a value that names no variant panics, modelled as None).
 */
module YuvSupport {
  import opened Numerics
  import opened Wrappers

  // ---------------------------------------------------------------- ranges

  datatype YuvRange = TV | Full

  datatype YuvChromaRange = YuvChromaRange(
    biasY: nat,
    biasUV: nat,
    rangeY: nat,
    rangeUV: nat,
    range: YuvRange)

  /** The depths `get_yuv_range` accepts without an unsigned underflow in
      `depth - 8` / `depth - 1` or an overflow of `1 << depth` on `u32`. */
  predicate RangeDepthOk(depth: nat, range: YuvRange)
  {
    1 <= depth <= 31 && (range == TV ==> 8 <= depth)
  }

  function GetYuvRange(depth: nat, range: YuvRange): (r: YuvChromaRange)
    requires RangeDepthOk(depth, range)
    ensures r.range == range
  {
    match range
    case TV =>
      YuvChromaRange(16 * Pow2(depth - 8), Pow2(depth - 1), 219 * Pow2(depth - 8), 224 * Pow2(depth - 8), range)
    case Full =>
      YuvChromaRange(0, Pow2(depth - 1), Pow2(depth) - 1, Pow2(depth) - 1, range)
  }

  /** At 8 bits TV range is 16/128/219/224 and Full range is 0/128/255/255. */
  lemma RangesAt8()
    ensures GetYuvRange(8, TV) == YuvChromaRange(16, 128, 219, 224, TV)
    ensures GetYuvRange(8, Full) == YuvChromaRange(0, 128, 255, 255, Full)
  {
    assert Pow2(7) == 128;
    assert Pow2(8) == 256;
  }

  /** One more bit of depth doubles every TV-range quantity. */
  lemma TvRangeDoublesPerBit(depth: nat)
    requires 8 <= depth < 31
    ensures GetYuvRange(depth + 1, TV).biasY == 2 * GetYuvRange(depth, TV).biasY
    ensures GetYuvRange(depth + 1, TV).biasUV == 2 * GetYuvRange(depth, TV).biasUV
    ensures GetYuvRange(depth + 1, TV).rangeY == 2 * GetYuvRange(depth, TV).rangeY
    ensures GetYuvRange(depth + 1, TV).rangeUV == 2 * GetYuvRange(depth, TV).rangeUV
  {
    assert Pow2(depth + 1 - 8) == 2 * Pow2(depth - 8);
    assert Pow2(depth + 1 - 1) == 2 * Pow2(depth - 1);
  }

  /** Both ranges fit the code space of their depth: luma black plus
      excursion stays below 2^depth, chroma is centred at half the code
      space, and in TV range the chroma excursion stays inside [0, 2^depth). */
  lemma RangeFitsDepth(depth: nat, range: YuvRange)
    requires RangeDepthOk(depth, range)
    ensures GetYuvRange(depth, range).biasY + GetYuvRange(depth, range).rangeY <= Pow2(depth) - 1
    ensures 2 * GetYuvRange(depth, range).biasUV == Pow2(depth)
    ensures range == TV ==>
      GetYuvRange(depth, range).biasUV * 2 - GetYuvRange(depth, range).rangeUV >= 0 &&
      GetYuvRange(depth, range).biasUV * 2 + GetYuvRange(depth, range).rangeUV <= 2 * Pow2(depth) - 1
    ensures range == Full ==> GetYuvRange(depth, range).rangeY == GetYuvRange(depth, range).rangeUV == Pow2(depth) - 1
    ensures range == TV ==>
      GetYuvRange(depth, TV) ==
        YuvChromaRange(16 * Pow2(depth - 8), 128 * Pow2(depth - 8), 219 * Pow2(depth - 8), 224 * Pow2(depth - 8), TV)
  {
    assert Pow2(depth) == 2 * Pow2(depth - 1);
    if range == TV {
      Pow2Over8(depth - 8);
      assert depth - 8 + 8 == depth && depth - 8 + 7 == depth - 1;
    }
  }

  /** Each TV quantity is its 8-bit value scaled by 2^(depth - 8). */
  lemma {:induction false} Pow2Over8(k: nat)
    ensures Pow2(k + 8) == 256 * Pow2(k) && Pow2(k + 7) == 128 * Pow2(k)
  {
    if k == 0 {
      Pow2Sixteen();
      assert Pow2(7) == 128;
    } else {
      Pow2Over8(k - 1);
      assert Pow2(k + 8) == 2 * Pow2(k - 1 + 8);
      assert Pow2(k + 7) == 2 * Pow2(k - 1 + 7);
    }
  }

  // ------------------------------------------------------- chroma sampling

  datatype YuvChromaSample = YUV420 | YUV422 | YUV444
  {
    function Discriminant(): nat
    {
      match this
      case YUV420 => 0
      case YUV422 => 1
      case YUV444 => 2
    }
  }

  function ChromaSampleFrom(value: u8): (r: Option<YuvChromaSample>)
    ensures r.Some? <==> value < 3
    ensures r.Some? ==> r.value.Discriminant() == value as int
  {
    match value
    case 0 => Some(YUV420)
    case 1 => Some(YUV422)
    case 2 => Some(YUV444)
    case _ => None
  }

  /** The column step of the RGB<->NV kernels: a pixel pair shares chroma
      except in 4:4:4. */
  function ColumnStep(sampling: YuvChromaSample): (step: nat)
    ensures step == (if sampling == YUV444 then 1 else 2)
  {
    match sampling
    case YUV420 => 2
    case YUV422 => 2
    case YUV444 => 1
  }

  /** The chroma row read or written for image row `y`. */
  function ChromaRow(sampling: YuvChromaSample, y: nat): (c: nat)
    ensures sampling == YUV420 ==> c == y / 2
    ensures sampling != YUV420 ==> c == y
  {
    if sampling == YUV420 then y / 2 else y
  }

  /** The number of chroma rows of an image of `height` rows: one per row
      pair (the last odd row on its own) in 4:2:0, one per row otherwise. */
  function ChromaRows(sampling: YuvChromaSample, height: nat): nat
  {
    if sampling == YUV420 then (height + 1) / 2 else height
  }

  // --------------------------------------------------------------- NV order

  datatype YuvNVOrder = UV | VU
  {
    function Discriminant(): nat
    {
      match this
      case UV => 0
      case VU => 1
    }

    function UPosition(): (p: nat)
      ensures p < 2
    {
      match this
      case UV => 0
      case VU => 1
    }

    function VPosition(): (p: nat)
      ensures p < 2
    {
      match this
      case UV => 1
      case VU => 0
    }
  }

  /** The two chroma bytes of an NV sample are distinct positions of the
      pair, and the two orders swap them. */
  lemma NvPositions(order: YuvNVOrder)
    ensures order.UPosition() < 2 && order.VPosition() < 2
    ensures order.UPosition() != order.VPosition()
    ensures order.UPosition() + order.VPosition() == 1
    ensures UV.UPosition() == VU.VPosition() && UV.VPosition() == VU.UPosition()
  {
  }

  function NvOrderFrom(value: u8): (r: Option<YuvNVOrder>)
    ensures r.Some? <==> value < 2
    ensures r.Some? ==> r.value.Discriminant() == value as int
  {
    match value
    case 0 => Some(UV)
    case 1 => Some(VU)
    case _ => None
  }

  // ------------------------------------------------ high-bit-depth storage

  datatype YuvEndianness = BigEndian | LittleEndian
  {
    function Discriminant(): nat
    {
      match this
      case BigEndian => 0
      case LittleEndian => 1
    }
  }

  function EndiannessFrom(value: u8): (r: Option<YuvEndianness>)
    ensures r.Some? <==> value < 2
    ensures r.Some? ==> r.value.Discriminant() == value as int
  {
    match value
    case 0 => Some(BigEndian)
    case 1 => Some(LittleEndian)
    case _ => None
  }

  datatype YuvBytesPacking = MostSignificantBytes | LeastSignificantBytes
  {
    function Discriminant(): nat
    {
      match this
      case MostSignificantBytes => 0
      case LeastSignificantBytes => 1
    }
  }

  function BytesPackingFrom(value: u8): (r: Option<YuvBytesPacking>)
    ensures r.Some? <==> value < 2
    ensures r.Some? ==> r.value.Discriminant() == value as int
  {
    match value
    case 0 => Some(MostSignificantBytes)
    case 1 => Some(LeastSignificantBytes)
    case _ => None
  }

  // ------------------------------------------------- interleaved RGB layout

  datatype YuvSourceChannels = Rgb | Rgba | Bgra | Bgr
  {
    function Discriminant(): nat
    {
      match this
      case Rgb => 0
      case Rgba => 1
      case Bgra => 2
      case Bgr => 3
    }

    function ChannelsCount(): nat
    {
      match this
      case Rgb => 3
      case Bgr => 3
      case Rgba => 4
      case Bgra => 4
    }

    predicate HasAlpha()
    {
      match this
      case Rgb => false
      case Bgr => false
      case Rgba => true
      case Bgra => true
    }

    function ROffset(): nat
    {
      match this
      case Rgb => 0
      case Rgba => 0
      case Bgra => 2
      case Bgr => 2
    }

    function GOffset(): nat
    {
      1
    }

    function BOffset(): nat
    {
      match this
      case Rgb => 2
      case Rgba => 2
      case Bgra => 0
      case Bgr => 0
    }

    function AOffset(): nat
    {
      match this
      case Rgb => 0
      case Bgr => 0
      case Rgba => 3
      case Bgra => 3
    }
  }

  /** Every layout puts R, G and B at distinct offsets among the first three
      bytes of the pixel; it has alpha exactly when the pixel has four bytes, and alpha is then the
      fourth byte. */
  lemma ChannelLayout(c: YuvSourceChannels)
    ensures c.ROffset() < 3 && c.GOffset() < 3 && c.BOffset() < 3
    ensures c.ROffset() != c.GOffset() && c.GOffset() != c.BOffset() && c.ROffset() != c.BOffset()
    ensures c.ChannelsCount() == 3 || c.ChannelsCount() == 4
    ensures c.HasAlpha() <==> c.ChannelsCount() == 4
    ensures c.HasAlpha() ==> c.AOffset() == 3
  {
  }

  function SourceChannelsFrom(value: u8): (r: Option<YuvSourceChannels>)
    ensures r.Some? <==> value < 4
    ensures r.Some? ==> r.value.Discriminant() == value as int
  {
    match value
    case 0 => Some(Rgb)
    case 1 => Some(Rgba)
    case 2 => Some(Bgra)
    case 3 => Some(Bgr)
    case _ => None
  }

  // ------------------------------------------------- packed 4:2:2 layouts

  datatype Yuy2Description = YUYV | UYVY | YVYU | VYUY
  {
    function Discriminant(): nat
    {
      match this
      case YUYV => 0
      case UYVY => 1
      case YVYU => 2
      case VYUY => 3
    }

    function UPosition(): nat
    {
      match this
      case YUYV => 1
      case UYVY => 0
      case YVYU => 3
      case VYUY => 2
    }

    function VPosition(): nat
    {
      match this
      case YUYV => 3
      case UYVY => 2
      case YVYU => 1
      case VYUY => 0
    }

    function FirstYPosition(): nat
    {
      match this
      case YUYV => 0
      case UYVY => 1
      case YVYU => 0
      case VYUY => 1
    }

    function SecondYPosition(): nat
    {
      match this
      case YUYV => 2
      case UYVY => 3
      case YVYU => 2
      case VYUY => 3
    }

    /** Which component a byte position of the 4-byte group holds. */
    function Role(p: nat): nat
      requires p < 4
    {
      if p == FirstYPosition() then 0
      else if p == UPosition() then 1
      else if p == SecondYPosition() then 2
      else 3
    }
  }

  /** The four positions of every packed layout are a permutation of
      {0,1,2,3} with the first luma before the second. */
  lemma Yuy2Positions(d: Yuy2Description)
    ensures {d.FirstYPosition(), d.UPosition(), d.SecondYPosition(), d.VPosition()} == {0, 1, 2, 3}
    ensures d.FirstYPosition() < 4 && d.UPosition() < 4 && d.SecondYPosition() < 4 && d.VPosition() < 4
    ensures d.FirstYPosition() < d.SecondYPosition()
    ensures forall p :: 0 <= p < 4 ==> d.Role(p) < 4
    ensures d.Role(d.FirstYPosition()) == 0 && d.Role(d.UPosition()) == 1
    ensures d.Role(d.SecondYPosition()) == 2 && d.Role(d.VPosition()) == 3
  {
  }

  function Yuy2DescriptionFrom(value: nat): (r: Option<Yuy2Description>)
    ensures r.Some? <==> value < 4
    ensures r.Some? ==> r.value.Discriminant() == value
  {
    match value
    case 0 => Some(YUYV)
    case 1 => Some(UYVY)
    case 2 => Some(YVYU)
    case 3 => Some(VYUY)
    case _ => None
  }
}
