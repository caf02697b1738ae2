# yuvutils scalar conversion kernels in Dafny

This project models the scalar reference paths of the yuvutils pixel-format
conversion library and proves properties of that model. Each kernel is an
integer fixed-point computation driven by a row and column walk over
caller-owned byte or 16-bit buffers. The modelled kernels are:

- the range and layout tables (`yuv_support.rs`): TV/Full bias and excursion
  per bit depth, channel offsets, NV and YUY2 byte positions, and the
  `From<u8>` decoders;
- `rgbx_to_nv`: RGB(A) to a luma plane plus interleaved UV, with pair-averaged
  chroma and 4:2:0 chroma only on even rows;
- `yuv_nv12_to_rgbx`: the inverse NV kernel at precision 6;
- `yuv_p16_to_image_impl`: high-bit-depth planar to 8-bit RGB(A), after
  endianness and MSB-packing normalisation;
- `yuv_p16_to_image_ar30`: high-bit-depth planar to AR30/RA30 words, with
  its 4:4:4, 4:2:2 and 4:2:0 row walks and its odd-width and odd-height tails;
- `yuv_to_yuy2_impl` and `yuy2_to_yuv_impl`: the packed 4:2:2 packer and
  unpacker, and the round trip between them;
- `yuv422_to_rgba` from the `yuvs` crate: length validation, the pair loop
  and the odd tail.

Every loop of the source is a Dafny `method` over an `array`. Each one is
proved against a specification function: a per-pixel colour function, a
packed-byte function or a per-row sequence function. A row method writes
exactly the bytes that function gives and leaves every other byte unchanged.
An image method writes every row of the image that way. Lemmas then state
what the specification functions mean: bounds, shared chroma, grey
preservation, round trips, and which rows and columns are covered.

Modules:

| file | module | contents |
|---|---|---|
| `wrappers.dfy` | `Wrappers` | `Option`, `Result` |
| `numerics.dfy` | `Numerics` | `u8`, `u16`, `Pow2`, floor shift `Shr`, `Clamp`, row offsets |
| `planes.dfy` | `Planes` | pixels and rows in a flat buffer, "nothing else changes" |
| `yuv_support.dfy` | `YuvSupport` | ranges, enums, layout tables, decoders |
| `inverse_transform.dfy` | `InverseTransforms` | the shared YUV to RGB fixed-point pixel |
| `rgba_to_nv.dfy` | `RgbaToNv` | `rgbx_to_nv` |
| `yuv_nv_to_rgba.dfy` | `YuvNvToRgba` | `yuv_nv12_to_rgbx` |
| `yuv_p10_rgba.dfy` | `YuvP10Rgba` | `yuv_p16_to_image_impl` |
| `yuv_p16_ar30.dfy` | `YuvP16Ar30` | `yuv_p16_to_image_ar30` and `_impl` |
| `yuv_to_yuy2.dfy` | `YuvToYuy2` | `yuv_to_yuy2_impl` |
| `yuy2_to_yuv.dfy` | `Yuy2ToYuv` | `yuy2_to_yuv_impl` |
| `packed_round_trip.dfy` | `PackedRoundTrip` | packing then unpacking |
| `yuv422.dfy` | `Yuv422` | `yuv422_to_rgba` |

Rust's `>>` on `i32` floors, so it is `Numerics.Shr`, a floor division by
`Pow2(n)`. Dafny's `/` by a positive divisor gives the same result. Where the
shift amount is a constant (the forward transform's `>> 8` and the pair
average's `>> 1`), the model divides by 256 or 2 directly.

## Model

| member | source | states |
|---|---|---|
| YuvSupport.GetYuvRange | src/yuv_support.rs:185-200 | the returned range carries the requested TV/Full kind; its values are pinned by the lemmas below |
| YuvSupport.RangesAt8 | src/yuv_support.rs:185-200 | at 8 bits TV is bias 16/128 with excursions 219/224, and Full is 0/128 with 255/255 |
| YuvSupport.TvRangeDoublesPerBit | src/yuv_support.rs:185-193 | each extra bit of TV depth doubles bias_y, bias_uv, range_y and range_uv, i.e. the values are the 8-bit ones shifted left by d-8 |
| YuvSupport.RangeFitsDepth | src/yuv_support.rs:185-200 | bias_y + range_y fits in d bits; 2·bias_uv = 2^d; TV values are the 8-bit ones times 2^(d-8); Full gives range_y = range_uv = 2^d - 1 |
| YuvSupport.ChromaSampleFrom | src/yuv_support.rs:299-311 | decodes exactly the values 0..2 and inverts the discriminant; any other value is the panic case (None) |
| YuvSupport.YuvNVOrder.UPosition | src/yuv_support.rs:261-268 | the U byte position of an NV pair is 0 or 1 |
| YuvSupport.YuvNVOrder.VPosition | src/yuv_support.rs:269-276 | the V byte position of an NV pair is 0 or 1 |
| YuvSupport.NvPositions | src/yuv_support.rs:261-276 | U and V positions are distinct, cover {0,1}, and UV and VU swap them |
| YuvSupport.NvOrderFrom | src/yuv_support.rs:278-289 | decodes exactly 0 and 1 and inverts the discriminant; other values panic |
| YuvSupport.EndiannessFrom | src/yuv_support.rs:321-332 | decodes exactly 0 and 1 and inverts the discriminant; other values panic |
| YuvSupport.BytesPackingFrom | src/yuv_support.rs:348-359 | decodes exactly 0 and 1 and inverts the discriminant; other values panic |
| YuvSupport.ChannelLayout | src/yuv_support.rs:385-438 | R, G, B offsets are pairwise distinct and below 3, the count is 3 or 4, alpha exists exactly when the count is 4, and its offset is then 3 |
| YuvSupport.SourceChannelsFrom | src/yuv_support.rs:370-383 | decodes exactly 0..3 and inverts the discriminant; other values panic |
| YuvSupport.Yuy2Positions | src/yuv_support.rs:464-504 | first Y, U, second Y and V positions are a permutation of {0,1,2,3}, first Y precedes second Y, and each position's role is the inverse of that table |
| YuvSupport.Yuy2DescriptionFrom | src/yuv_support.rs:450-462 | decodes exactly 0..3 and inverts the discriminant; other values panic |
| InverseTransforms.Quantise | src/yuv_nv_to_rgba.rs:239-248 | a rounded, shifted and clamped channel always lies in 0..max |
| InverseTransforms.DecodePixel | src/yuv_nv_to_rgba.rs:232-248 | every channel of a decoded pixel lies in 0..max |
| InverseTransforms.QuantiseMonotone | src/yuv_nv_to_rgba.rs:239-248 | rounding, shifting and clamping preserve order |
| InverseTransforms.NeutralChromaIsGrey | src/yuv_nv_to_rgba.rs:232-248 | with U = V = bias_uv, R, G and B all equal the quantised luma term |
| InverseTransforms.BiasDecodesToBlack | src/yuv_nv_to_rgba.rs:232-248 | Y = bias_y with neutral chroma decodes to black whenever the rounding constant is below 2^shift |
| InverseTransforms.DecodeMonotoneInLuma | src/yuv_nv_to_rgba.rs:232-248 | with a non-negative luma coefficient, a brighter Y never darkens any channel |
| RgbaToNv.Average | src/rgba_to_nv.rs:202-216 | the pair average lies between the two samples and is their half-sum rounded up |
| RgbaToNv.Range8IsDepth8 | src/rgba_to_nv.rs:53-67 | the literal 8-bit range the kernel uses is exactly `get_yuv_range(8, range)`, for TV and Full |
| RgbaToNv.PixelMathBounds | src/rgba_to_nv.rs:63-67 | TV luma lies in 16..235 and TV chroma in 16..240, clamped from bias_y; Full values lie in 0..255 |
| RgbaToNv.GreyHasNeutralChroma | src/rgba_to_nv.rs:217-222 | a grey pixel gets Cb = Cr = 128 when each chroma row of coefficients sums to zero |
| RgbaToNv.PixelFits | src/rgba_to_nv.rs:159-168 | every pixel of a row that fits lies inside the source buffer |
| RgbaToNv.RowLumas | src/rgba_to_nv.rs:189-194 | the row's luma sequence has one entry per pixel; LumaTailAt states where the entries land |
| RgbaToNv.RowCbs | src/rgba_to_nv.rs:201-222 | the row's Cb sequence has one entry per pixel; ChromaTailPair states where the entries land |
| RgbaToNv.RowCrs | src/rgba_to_nv.rs:201-222 | the row's Cr sequence has one entry per pixel; ChromaTailPair states where the entries land |
| RgbaToNv.LumaStep | src/rgba_to_nv.rs:175-225 | one iteration's luma writes keep the plane's length; which bytes they set is stated by LumaTailPrefix |
| RgbaToNv.LumaTail | src/rgba_to_nv.rs:158-235 | the luma tail from cx0 keeps the plane's length; its bytes are stated by LumaTailAt |
| RgbaToNv.ChromaStep | src/rgba_to_nv.rs:224-231 | one chroma store keeps the UV plane's length; its bytes are stated by ChromaTailPair |
| RgbaToNv.ChromaTail | src/rgba_to_nv.rs:158-235 | the chroma tail keeps the UV plane's length; its bytes are stated by ChromaTailPair and ChromaTailOutside |
| RgbaToNv.LumaTailPrefix | src/rgba_to_nv.rs:175-225 | after n iterations, a luma byte holds its pixel's luma exactly when an iteration so far wrote it; otherwise it is unchanged |
| RgbaToNv.LumaTailAt | src/rgba_to_nv.rs:175-225 | after the tail, luma x (cx0 <= x < width) is written iff the row computes chroma or x is the second pixel of a 4:2:0/4:2:2 pair; even-column luma of odd 4:2:0 rows is left as it was |
| RgbaToNv.ChromaStepAt | src/rgba_to_nv.rs:224-231 | one chroma store sets byte uv_pos+u_position to Cb, uv_pos+v_position to Cr, and leaves every other byte as it was |
| RgbaToNv.ChromaTailPair | src/rgba_to_nv.rs:224-235 | every iteration k whose column cx0 + k·step lies inside the row writes Cb at uv_base+2k+u_position and Cr at uv_base+2k+v_position, and later iterations do not overwrite them |
| RgbaToNv.ChromaTailOutside | src/rgba_to_nv.rs:224-235 | no UV byte outside the tail's 2n bytes changes |
| RgbaToNv.ChromaTailByte | src/rgba_to_nv.rs:224-235 | after a chroma row tail from column 0, byte j of its row is the Cb (when j is at u_position within its pair) or the Cr of pair j/2, taken at column step·(j/2) |
| RgbaToNv.RgbxToNvStep | src/rgba_to_nv.rs:158-235 | one loop iteration leaves the planes as LumaStep and ChromaStep describe, and the UV plane untouched off chroma rows |
| RgbaToNv.ChromaStores | src/rgba_to_nv.rs:201-232 | the chroma branch writes pixel x's luma and the Cb/Cr pair at uv_pos + u/v position |
| RgbaToNv.LoadPixel | src/rgba_to_nv.rs:159-168 | reads the pixel at column x using the channel layout's offsets |
| RgbaToNv.RgbxToNvRow | src/rgba_to_nv.rs:158-235 | the scalar tail from any (cx0, ux0) leaves luma as LumaTail and UV as ChromaTail, and UV untouched off chroma rows |
| RgbaToNv.RgbxToNvStepCorrected | src/rgba_to_nv.rs:158-235 | the intended iteration stores the pixel's own luma on every row and the pair's Cb/Cr only on chroma rows |
| RgbaToNv.RgbxToNvRowCorrected | src/rgba_to_nv.rs:158-235 | the intended row tail sets every column from cx0 to the row's end to its pixel's luma on every row, changes no other luma byte, and writes chroma as the row tail does |
| RgbaToNv.ChromaRowsWritten | src/rgba_to_nv.rs:94-96 | chroma is written on every row for 4:4:4/4:2:2 and on even rows for 4:2:0; the rows written are exactly the chroma rows 0..ChromaRows(y) |
| RgbaToNv.SourceRowFits | src/rgba_to_nv.rs:238-249 | every source row of the frame lies inside the RGBA buffer |
| RgbaToNv.LumaRowHolds | src/rgba_to_nv.rs:88-250 | after row y's tail, luma rows 0..y hold their pixels' luma where the tail writes it and their old bytes elsewhere, and no byte past row y's pixels changes |
| RgbaToNv.LumaByteHolds | src/rgba_to_nv.rs:175-225 | column x of row y holds the luma of pixel (y, x) after row y's tail where the tail writes it (every visited column on a chroma row, the second pixel of each pair otherwise), and its byte from before the conversion elsewhere |
| RgbaToNv.UvRowHolds | src/rgba_to_nv.rs:88-250 | a row that computes chroma fills its chroma row with the Cb/Cr of its pairs, keeps the chroma rows before it, and changes no other UV byte |
| RgbaToNv.UvByteHolds | src/rgba_to_nv.rs:201-235 | byte j of the chroma row written by row y holds the Cb or Cr of the pair at column step·(j/2) of row y, as the order places them |
| RgbaToNv.RowBounds | src/rgba_to_nv.rs:238-249 | the luma row and the chroma row written by row y lie inside their planes |
| RgbaToNv.RgbxToNvImageRow | src/rgba_to_nv.rs:88-250 | one row of the outer loop adds luma row y and, on a chroma row, its chroma row to the rows that hold, leaving the earlier rows and the rest of both planes as they were |
| RgbaToNv.NextRowOffsets | src/rgba_to_nv.rs:238-249 | the luma and RGBA offsets advance by a stride each row; the UV offset advances to the next row's chroma row, after odd rows only in 4:2:0 |
| RgbaToNv.OddRowEvenLumaKept | src/rgba_to_nv.rs:175-225 | after the conversion, in 4:2:0 every even column of every odd row keeps its old luma byte |
| RgbaToNv.OddRowLumaSkippedExample | src/rgba_to_nv.rs:175-225 | a 1-wide, 2-high 4:2:0 image leaves the luma of pixel (1, 0) as it was |
| RgbaToNv.ChromaOffsetNext | src/rgba_to_nv.rs:240-249 | the UV offset grows by one stride after a row exactly when the chroma row changes |
| RgbaToNv.RgbxToNv | src/rgba_to_nv.rs:37-251 | for every row y and column x, luma byte (y, x) holds the luma of pixel (y, x) where the tail writes it and its old value elsewhere; chroma row cr holds, pair by pair, the Cb and Cr of its writer row (cr, or 2·cr in 4:2:0) at the order's positions; every byte outside the rows' pixels is unchanged |
| YuvNvToRgba.NvPixelFromBytes | src/yuv_nv_to_rgba.rs:231-248 | the pixel reads Y at y_offset+x and U/V at uv_offset + ux + u/v position, with ux = ux0 + 2·pair index |
| YuvNvToRgba.RowTailFromStart | src/yuv_nv_to_rgba.rs:115-120 | a tail from column 0 decodes the image pixel whose chroma comes from row y>>1 (4:2:0) or row y |
| YuvNvToRgba.PairSharesChroma | src/yuv_nv_to_rgba.rs:262-291 | in 4:2:0/4:2:2, pixels 2i and 2i+1 with equal Y decode to the same colour, so chroma is reused |
| YuvNvToRgba.RowPairSharesChroma | src/yuv_nv_to_rgba.rs:115-120 | in 4:2:0, rows 2r and 2r+1 with equal Y decode to the same colour |
| YuvNvToRgba.NeutralChromaDecodesGrey | src/yuv_nv_to_rgba.rs:232-248 | neutral U/V decode to R = G = B |
| YuvNvToRgba.PairIndexOf | src/yuv_nv_to_rgba.rs:231-237 | both pixels of iteration k read the UV pair at ux0 + 2k |
| YuvNvToRgba.Nv12ToRgbxStep | src/yuv_nv_to_rgba.rs:231-295 | one iteration writes pixel x and, in 4:2:0/4:2:2, pixel x+1 when it is below width, and nothing else |
| YuvNvToRgba.Nv12ToRgbxSecond | src/yuv_nv_to_rgba.rs:262-291 | the second pixel reuses the pair's Cb/Cr and writes only its own channel bytes |
| YuvNvToRgba.DecodeStore | src/yuv_nv_to_rgba.rs:250-260 | B, G, R land at the layout's offsets, alpha is 255 exactly when the layout has alpha, and no other byte changes |
| YuvNvToRgba.Nv12ToRgbxRow | src/yuv_nv_to_rgba.rs:231-295 | the tail from any (cx0, ux0) writes every pixel cx0..width with its decoded colour and nothing outside those pixels |
| YuvNvToRgba.RowBounds | src/yuv_nv_to_rgba.rs:111-120 | each output row's luma, chroma and destination bytes lie inside their buffers |
| YuvNvToRgba.Nv12ToRgbxImageRow | src/yuv_nv_to_rgba.rs:111-297 | one destination chunk gets every pixel of its row and no other byte changes |
| YuvNvToRgba.Nv12ToRgbx | src/yuv_nv_to_rgba.rs:51-297 | every complete destination row holds the decoded row; bytes past the width stay as they were |
| YuvP10Rgba.StoredWordFits | src/yuv_p10_rgba.rs:161-190 | a d-bit sample stored MSB-aligned or LSB-aligned fits in 16 bits and normalises back to itself |
| YuvP10Rgba.WordBytes | src/yuv_p10_rgba.rs:161-170 | a 16-bit word splits into two bytes that recombine to it |
| YuvP10Rgba.SampleRoundTrip | src/yuv_p10_rgba.rs:161-190 | encoding a d-bit sample into two bytes for any endianness and packing and normalising it gives the sample back |
| YuvP10Rgba.SampleFits | src/yuv_p10_rgba.rs:161-190 | after the MSB shift a normalised sample is below 2^d; LSB-packed words are below 2^16 |
| YuvP10Rgba.EndiannessSwaps | src/yuv_p10_rgba.rs:161-170 | big-endian reading of (b0, b1) equals little-endian reading of (b1, b0) |
| YuvP10Rgba.P16PixelFromBytes | src/yuv_p10_rgba.rs:157-199 | a pixel decodes the normalised Y at x and U/V at chroma index ci with shift 6 + (d-8) |
| YuvP10Rgba.DecodeStore | src/yuv_p10_rgba.rs:192-211 | one pixel's channels land at the layout's offsets, alpha is 255 when present, and nothing else changes |
| YuvP10Rgba.StoreSecond | src/yuv_p10_rgba.rs:215-251 | the second pixel of a pair uses the same chroma index and writes only its own bytes |
| YuvP10Rgba.RowDoneExtend | src/yuv_p10_rgba.rs:157-255 | two consecutive written spans join into one |
| YuvP10Rgba.P16ToRgbaPair | src/yuv_p10_rgba.rs:157-255 | one iteration writes pixel x, and pixel x+1 only when x+2 < width; it returns the next unwritten column |
| YuvP10Rgba.P16ToRgbaRow | src/yuv_p10_rgba.rs:157-255 | the loop writes pixels x0..WrittenEnd(x0, width) with chroma index cx0 + (x-x0)/2 and nothing else |
| YuvP10Rgba.PairWalk | src/yuv_p10_rgba.rs:213-254 | iteration k runs at column x0+2k with chroma index cx0+k |
| YuvP10Rgba.WalkEnd | src/yuv_p10_rgba.rs:157-215 | the loop exits with WrittenEnd columns written |
| YuvP10Rgba.WrittenEndFromStart | src/yuv_p10_rgba.rs:213-215 | from column 0, odd widths are fully written but even widths stop one column short |
| YuvP10Rgba.Chroma444AsWritten | src/yuv_p10_rgba.rs:253-254 | as written, pixels 1 and 3 of a 4:4:4 row read chroma 0 and 1, i.e. chroma x/2 |
| YuvP10Rgba.RowBounds | src/yuv_p10_rgba.rs:100-120 | a row's 16-bit luma, chroma rows (y>>1 for 4:2:0) and destination row lie inside their buffers |
| YuvP10Rgba.P16ToRgbaImageRow | src/yuv_p10_rgba.rs:110-255 | one destination row holds its decoded pixels up to WrittenEnd and nothing else changes |
| YuvP10Rgba.YuvP16ToImage | src/yuv_p10_rgba.rs:42-259 | a failed constraint check is returned with the destination untouched; otherwise every row holds its decoded pixels |
| YuvP10Rgba.P16ToRgbaPairCorrected | src/yuv_p10_rgba.rs:213-254 | the intended iteration writes x and x+1 whenever x+1 < width, and steps chroma by the subsampling's column step |
| YuvP10Rgba.SecondCorrected | src/yuv_p10_rgba.rs:213-254 | in the intended iteration, pixel x+1 is written whenever x+1 < width, from its own chroma index, and only its own bytes change |
| YuvP10Rgba.ChromaReadable | src/yuv_p10_rgba.rs:253-254 | the intended chroma index of every column stays inside the row's chroma samples |
| YuvP10Rgba.P16ToRgbaRowCorrected | src/yuv_p10_rgba.rs:157-255 | the intended row writes every column x0..width with its own chroma sample |
| YuvP10Rgba.CorrectedChroma | src/yuv_p10_rgba.rs:253-254 | intended chroma index is x for 4:4:4 and x/2 otherwise |
| YuvP16Ar30.KernelFor | src/yuv_p16_ar30.rs:289-344 | a kernel exists exactly for depths 10 and 12; it has msb shift 16-d, 2·bias_uv = 2^d, bias_y 0 for Full and 2^d/16 for TV |
| YuvP16Ar30.KernelOffsets | src/yuv_p16_ar30.rs:58-83 | 10-bit kernels use bias_uv 512 (TV bias_y 64); 12-bit kernels use 2048 (TV bias_y 256) |
| YuvP16Ar30.Upsampled | src/yuv_p16_ar30.rs:218-225 | a chroma row duplicated per column has one U and one V per pixel |
| YuvP16Ar30.HalvedIsUpsampledFull | src/yuv_p16_ar30.rs:89-151 | a halved-chroma pixel equals the full-chroma pixel over duplicated chroma, except the first of a pair at 12 bits, which saturates at 10 bits |
| YuvP16Ar30.PairSharesChroma | src/yuv_p16_ar30.rs:89-127 | pixels 2i and 2i+1 read chroma i; the first saturates at AR30_DEPTH = 10 and the second at BIT_DEPTH |
| YuvP16Ar30.ComponentBounds | src/yuv_p16_ar30.rs:100-145 | given qrshr's range, the first pixel of a pair stays below 2^10 and others below 2^d |
| YuvP16Ar30.StoreWord | src/yuv_p16_ar30.rs:105-110 | a packed pixel's four bytes land at its 4-byte chunk and nothing else changes |
| YuvP16Ar30.StorePixel | src/yuv_p16_ar30.rs:105-151 | adds pixel x to the row written so far |
| YuvP16Ar30.FullRow | src/yuv_p16_ar30.rs:172-198 | a 4:4:4 row writes one 4-byte pixel per (y, u, v) triple and nothing else |
| YuvP16Ar30.HalvedChromaRow | src/yuv_p16_ar30.rs:85-152 | a halved-chroma row writes every pixel, pairs sharing chroma and the odd last pixel using the last chroma, and nothing else |
| YuvP16Ar30.HalvedPair | src/yuv_p16_ar30.rs:89-127 | one pair writes 8 bytes from one (u, v) |
| YuvP16Ar30.HalvedPairs | src/yuv_p16_ar30.rs:89-127 | the pair loop writes pixels 0 .. 2·⌊width/2⌋ of the row, each pair from chroma sample i, and changes no byte beyond them |
| YuvP16Ar30.HalvedPairPixels | src/yuv_p16_ar30.rs:95-126 | in pair i, pixel 2i is chroma sample i rounded at the 10-bit AR30 depth and pixel 2i+1 the same chroma at the bit depth |
| YuvP16Ar30.HalvedStore | src/yuv_p16_ar30.rs:105-126 | storing one pixel adds pixel x to the pixels already written and changes only its 4 bytes |
| YuvP16Ar30.HalvedLast | src/yuv_p16_ar30.rs:129-151 | for odd width, the last pixel uses the last luma and last chroma sample at the bit depth; with the pairs before it, the whole row is written |
| YuvP16Ar30.Yuv420RowsShareChroma | src/yuv_p16_ar30.rs:244-281 | in 4:2:0, rows 2p and 2p+1 read chroma row p, and an odd last row reads the last chroma row |
| YuvP16Ar30.RowBounds | src/yuv_p16_ar30.rs:154-281 | a row's luma, chroma and destination chunk lie inside their buffers, and the written width fits the stride |
| YuvP16Ar30.WordsAreRow | src/yuv_p16_ar30.rs:154-281 | a row of stored words is that row of the AR30 image |
| YuvP16Ar30.ImageRow | src/yuv_p16_ar30.rs:154-281 | one row of any subsampling holds its image row and nothing else changes |
| YuvP16Ar30.NextRow | src/yuv_p16_ar30.rs:154-281 | adds one row to the image rows written so far |
| YuvP16Ar30.RowStart | src/yuv_p16_ar30.rs:166-171 | locates the row's plane offsets and destination chunk |
| YuvP16Ar30.YuvP16ToAr30 | src/yuv_p16_ar30.rs:41-287 | the first failing check is returned with the destination untouched; otherwise every row holds its AR30 image row |
| YuvP16Ar30.RowWalk | src/yuv_p16_ar30.rs:154-225 | the 4:4:4 and 4:2:2 walks write every row |
| YuvP16Ar30.PairWalk | src/yuv_p16_ar30.rs:226-281 | the 4:2:0 walk writes every row pair and, for odd height, the last row |
| YuvP16Ar30.RowPair | src/yuv_p16_ar30.rs:244-256 | one pair of rows written from one chroma row |
| YuvP16Ar30.LastChunks | src/yuv_p16_ar30.rs:258-275 | the `.last()` chunks are the last image row and the last chroma row |
| YuvP16Ar30.YuvP16ToAr30Impl | src/yuv_p16_ar30.rs:289-344 | for depth 10 or 12 the dispatch behaves as YuvP16ToAr30 with that depth's kernel |
| YuvToYuy2.GroupFits | src/yuv_to_yuy2.rs:169-191 | every component of a packed group, averaged or copied, is a byte |
| YuvToYuy2.StoreGroup | src/yuv_to_yuy2.rs:183-191 | Y0, U, Y1, V land at the layout's four positions of group g and nothing else changes |
| YuvToYuy2.GroupByte | src/yuv_to_yuy2.rs:183-191 | byte p of a stored group is the component the layout assigns to p |
| YuvToYuy2.GroupsGiveByte | src/yuv_to_yuy2.rs:162-216 | a row of stored groups gives every packed byte |
| YuvToYuy2.GroupsArePackedRow | src/yuv_to_yuy2.rs:162-216 | all groups stored means the whole packed row holds |
| YuvToYuy2.GroupsDoneKept | src/yuv_to_yuy2.rs:162-198 | writing beyond the stored groups keeps them |
| YuvToYuy2.PackPair | src/yuv_to_yuy2.rs:162-198 | group g gets Y[2g], Y[2g+1] and the copied chroma (4:2:0/4:2:2) or averaged chroma (4:4:4) |
| YuvToYuy2.PackPairs | src/yuv_to_yuy2.rs:162-198 | the pair loop stores groups 0 .. ⌊width/2⌋, advances the luma index by 2 and the chroma index by the subsampling step per group, and changes nothing past those groups |
| YuvToYuy2.YuvToYuy2Row | src/yuv_to_yuy2.rs:162-216 | a row writes every group, including the odd tail, and nothing else |
| YuvToYuy2.PackTail | src/yuv_to_yuy2.rs:200-216 | the odd-width tail group holds the last Y, a second Y of 0 and copied chroma; with the pair groups before it, every group of the row is stored |
| YuvToYuy2.RowBounds | src/yuv_to_yuy2.rs:88-99 | a row's planes (chroma row y>>1 for 4:2:0) and packed row lie inside their buffers |
| YuvToYuy2.YuvToYuy2 | src/yuv_to_yuy2.rs:56-218 | every complete packed row holds its image row and nothing else changes |
| YuvToYuy2.AveragedChromaBetween | src/yuv_to_yuy2.rs:169-181 | 4:4:4 packed chroma lies between the two samples, and equals them when they agree |
| YuvToYuy2.OddTailGroup | src/yuv_to_yuy2.rs:200-216 | the tail group copies chroma without averaging, even in 4:4:4 at column width-1 |
| Yuy2ToYuv.LumaExtend | src/yuy2_to_yuv.rs:126-181 | two consecutive unpacked luma spans join |
| Yuy2ToYuv.ChromaExtend | src/yuy2_to_yuv.rs:126-181 | two consecutive unpacked chroma spans join |
| Yuy2ToYuv.UnpackChroma | src/yuy2_to_yuv.rs:143-158 | one group writes its chroma to index k, and also k+1 in 4:4:4, and nothing else |
| Yuy2ToYuv.UnpackLuma | src/yuy2_to_yuv.rs:143-147 | one group writes Y[2g] from first_y and Y[2g+1] from second_y, and nothing else |
| Yuy2ToYuv.UnpackChromaTail | src/yuy2_to_yuv.rs:161-181 | the odd tail writes one U/V sample |
| Yuy2ToYuv.UnpackLumaTail | src/yuy2_to_yuv.rs:161-181 | the odd tail writes only the first Y |
| Yuy2ToYuv.Yuy2ToYuvRow | src/yuy2_to_yuv.rs:126-181 | a row unpacks every luma and chroma sample and changes nothing outside them |
| Yuy2ToYuv.UnpackPair | src/yuy2_to_yuv.rs:126-158 | one pair group advances all three planes |
| Yuy2ToYuv.UnpackPairs | src/yuy2_to_yuv.rs:126-158 | the pair loop unpacks the luma and chroma samples of all ⌊width/2⌋ full groups into the three planes |
| Yuy2ToYuv.UnpackTail | src/yuy2_to_yuv.rs:161-181 | the odd tail completes the row |
| Yuy2ToYuv.ChromaRowStep | src/yuy2_to_yuv.rs:183-196 | in 4:2:0 the chroma row is shared by two packed rows and the odd row's values remain |
| Yuy2ToYuv.LumaRowHolds | src/yuy2_to_yuv.rs:126-181 | an unpacked row is that row of the luma image |
| Yuy2ToYuv.LumaPlaneNext | src/yuy2_to_yuv.rs:64-198 | adds one luma row to the rows done |
| Yuy2ToYuv.ChromaPlaneNext | src/yuy2_to_yuv.rs:183-196 | adds or overwrites the current chroma row |
| Yuy2ToYuv.UnpackImageRow | src/yuy2_to_yuv.rs:64-198 | one outer iteration advances all three planes |
| Yuy2ToYuv.Yuy2ToYuv | src/yuy2_to_yuv.rs:64-198 | every luma row and every chroma row holds its unpacked values; 4:2:0 chroma comes from the later row of its pair |
| Yuy2ToYuv.NextOffsets | src/yuy2_to_yuv.rs:183-196 | offsets advance by a stride per row, chroma after odd rows only in 4:2:0 |
| Yuy2ToYuv.UnpackBounds | src/yuy2_to_yuv.rs:183-196 | offsets grow with the row index |
| PackedRoundTrip.PackedComponent | src/yuv_to_yuy2.rs:183-191 | byte p of packed group g is the group's component for that position's role |
| PackedRoundTrip.LumaRoundTrip | src/yuy2_to_yuv.rs:134-147 | unpacking a packed row gives back every luma sample |
| PackedRoundTrip.ChromaRoundTrip | src/yuy2_to_yuv.rs:134-147 | for 4:2:0/4:2:2, unpacking gives back every chroma sample, odd tail included |
| PackedRoundTrip.Chroma444PairRoundTrip | src/yuv_to_yuy2.rs:169-181 | in 4:4:4 a pair's chroma returns exactly when the two samples are equal |
| PackedRoundTrip.Chroma444TailRoundTrip | src/yuv_to_yuy2.rs:200-216 | in 4:4:4 the odd tail's chroma returns exactly |
| PackedRoundTrip.ImageRowIsPackedRow | src/yuv_to_yuy2.rs:56-218 | each row of a packed image is a packed row |
| PackedRoundTrip.ImageLumaRoundTrip | src/yuy2_to_yuv.rs:64-198 | luma survives packing and unpacking |
| PackedRoundTrip.ImageChromaRoundTrip | src/yuy2_to_yuv.rs:64-198 | 4:2:0/4:2:2 chroma survives packing and unpacking |
| Yuv422.Validate | yuvs/src/yuv422.rs:68-123 | Ok exactly when plane lengths are stride·height, the transform exists and rgb is width·height·4; a wrong luma length is reported as such, and an rgb length error only arises after the planes and the transform passed; Ok carries max 2^d-1 and the range's biases |
| Yuv422.PairSharesChroma | yuvs/src/yuv422.rs:132-168 | both pixels of a pair read the same U and V |
| Yuv422.StoredExactly | yuvs/src/yuv422.rs:141-167 | stored channels are the decoded values in 0..2^d-1 and alpha is 2^d-1 |
| Yuv422.TightStridesAsIntended | yuvs/src/yuv422.rs:132-199 | with tight strides every pixel reads its own Y and chroma x/2 |
| Yuv422.LastColumnSkipped | yuvs/src/yuv422.rs:170-178 | odd width with an even luma stride leaves the last column without a source |
| Yuv422.LastColumnSkippedExample | yuvs/src/yuv422.rs:170-178 | a 1×1 image with luma stride 2 writes nothing |
| Yuv422.InRow | yuvs/src/yuv422.rs:125-128 | a byte of row r lies inside the buffer |
| Yuv422.StoreRgba | yuvs/src/yuv422.rs:149-152 | R, G, B and alpha land at the pixel's four slots and nothing else changes |
| Yuv422.PixelDoneKept | yuvs/src/yuv422.rs:132-199 | writes elsewhere keep a finished pixel |
| Yuv422.PixelsDoneKept | yuvs/src/yuv422.rs:132-199 | writes after a row prefix keep it |
| Yuv422.DecodeAt | yuvs/src/yuv422.rs:137-152 | decodes and stores pixel x |
| Yuv422.DecodePair | yuvs/src/yuv422.rs:136-168 | one pair writes pixels 2i and 2i+1 from one U/V |
| Yuv422.PairBound | yuvs/src/yuv422.rs:125-134 | a pair's 8 bytes lie in the rgb buffer |
| Yuv422.UnwrittenDone | yuvs/src/yuv422.rs:170-199 | columns without a source count as done when left unchanged |
| Yuv422.ConvertRow | yuvs/src/yuv422.rs:132-199 | a row writes every pixel that has a source, leaves the others unchanged, and touches nothing outside the row |
| Yuv422.RowsDoneNext | yuvs/src/yuv422.rs:132 | adds one row to the rows done |
| Yuv422.Yuv422ToRgba | yuvs/src/yuv422.rs:51-203 | returns Validate's error with rgb unchanged; otherwise every pixel is decoded from its source or left unchanged |
| Yuv422.ConvertRowCorrected | yuvs/src/yuv422.rs:170-199 | the intended row writes every column, the last from the last chroma sample |
| Yuv422.DecodeLastIntended | yuvs/src/yuv422.rs:170-199 | writes the intended last column |
| Yuv422.PairsAsIntended | yuvs/src/yuv422.rs:132-168 | pairs already match the intended row |
| Yuv422.IntendedKept | yuvs/src/yuv422.rs:132-199 | adds one intended pixel to the row prefix |

## Left out

- The SIMD prefixes (SSE, AVX2, AVX-512, NEON) are not modelled. Each scalar row tail starts at column 0, or at a symbolic `(cx0, ux0)` for the NV kernels and `yuv_p16_to_image_impl`.
- rayon parallel row iteration and runtime CPU-feature dispatch become a sequential row loop, because rows are independent.
- The floating-point derivation of the fixed-point coefficients is left out. It covers `get_forward_transform`, `get_inverse_transform`, `get_kr_kb`, `search_inverse_transform` and the `kg == 0` panic. The integer coefficients are parameters, and in `yuv422` the transform's outcome is a `Result` parameter.
- i32 overflow is not modelled. Arithmetic is on unbounded integers, which agrees with the source whenever the coefficients keep its i32 sums in range.
- `qrshr`, `to_ne`, `Rgb30::pack`, `check_constraints` and `check_rgba_destination` are not part of this model. The first three are function parameters with no invented bit layout. The checks are `Result` parameters.
- The public wrapper functions only fix const generics. They are represented by the configuration parameters (channels, order, sampling, range, endianness, packing).
- Buffers are distinct arrays, and each row's width fits its stride. The source's unchecked accesses give no meaning to overlapping planes or rows.
- `chunks_exact(0)` panics on a zero stride or width. Such panics become preconditions. A decoder's panic on an unknown value becomes `None`.
- YuvP16Ar30.YuvP16ToAr30: each buffer must hold exactly its image rows (`ImageFits`). With longer buffers the source also converts extra complete rows, and for odd 4:2:0 heights its `.last()` chunks would then be the buffers' last rows.
- YuvP16Ar30.YuvP16ToAr30Impl: a bit depth other than 10 or 12 is a precondition (the source panics), and `KernelFor` returns `None` for it.
- Yuv422.Yuv422ToRgba: the generic sample type `V` is integers of `sampleBits` bits, and `as_()` into `V` is reduction modulo 2^sampleBits.
- YuvP10Rgba.YuvP16ToImage: `ImageFits` is this model's own precondition, not what `check_constraints` accepts: the plane rows must cover every destination row (`rgba.Length / rgbaStride` of them). The source walks `rgba.chunks_exact_mut(rgba_stride)` and reads the planes through unchecked pointers, so with more destination rows than plane rows it reads out of bounds, which the model does not describe.
- YuvP10Rgba.YuvP16ToImage: `DepthOk` is a precondition. It excludes a TV bit depth below 8 (an unsigned underflow in `get_yuv_range`) and a depth above 16 (an underflow of `16 - bit_depth`), which the source does not guard.
- Yuv422.Yuv422ToRgba: `RangeDepthOk(bitDepth, range) && bitDepth <= 30` is a precondition once the plane lengths match. It excludes a TV depth below 8, where `get_yuv_range` underflows an unsigned `bit_depth - 8`, and depths of 31 and more, where `(1 << bit_depth) - 1` overflows i32. The source does not check either. Validate states the same precondition.

## Findings

| source | as written | input that shows it | evidently intended | confidence | as-written member | corrected member |
|---|---|---|---|---|---|---|
| src/yuv_p10_rgba.rs:213-215 | the second pixel of a pair is written only when x + 2 < width | even width 2 from column 0: pixel 1 is never written | write pixel x+1 whenever x + 1 < width | not executed | YuvP10Rgba.WrittenEndFromStart | YuvP10Rgba.P16ToRgbaRowCorrected |
| src/yuv_p10_rgba.rs:253-254 | `cx += 1` per two pixels for every subsampling | 4:4:4, pixel 1 reads chroma 0 and pixel 3 reads chroma 1 | advance chroma by one sample per pixel in 4:4:4 | not executed | YuvP10Rgba.Chroma444AsWritten | YuvP10Rgba.CorrectedChroma |
| yuvs/src/yuv422.rs:170-178 | the odd tail takes the remainder of the luma stride row, not of the image row | 1×1 image, y = [16, 0], y_stride 2, u = v = [128]: no pixel is written | decode the last column of every odd-width row | not executed | Yuv422.LastColumnSkippedExample | Yuv422.ConvertRowCorrected |
| src/rgba_to_nv.rs:175-225 | the pixel's own luma is stored only inside `if compute_uv_row`, so a 4:2:0 odd row stores luma only for the second pixel of each pair | 4:2:0, width 1, height 2: the luma of pixel (1, 0) is never written | store every pixel's luma on every row, as the library's SIMD RGB-to-YUV rows do (`src/sse/rgba_to_yuv.rs:143-145` stores luma before its `if compute_uv_row`) | not executed | RgbaToNv.OddRowEvenLumaKept | RgbaToNv.RgbxToNvRowCorrected |
