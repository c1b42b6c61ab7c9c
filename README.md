# ophGen hologram generator — a Dafny model

This project models the single-wavelength build of `ophGen`, the hologram
generator of Openholo (`ophgen/src/ophGen.cpp`). It covers:

- the buffers it owns: the complex field `complex_H`, the encoded hologram
  `holo_encoded`, the 8-bit `holo_normalized`, and their size `encode_size`;
- the encoders that turn the complex field into real samples: simple
  numerical interference, two-phase, Burckhardt, single side band,
  real part, phase, amplitude, side band and symmetrization;
- the propagation steps that fill the field: angular-spectrum
  accumulation, Fresnel propagation by zero padding, and the once-only
  carrier wave;
- the string rules around them: the depth settings of the depth-map
  configuration, and the file names of the two `save` overloads.

Complex samples are pairs of reals. The C math functions (`sqrt`, `exp`,
`sin`, `cos`, `tan`, `acos`, `atan2`) are fields of a value `Elementary`,
so they are uninterpreted. The FFT helpers (`fft2` + `fftwShift`,
`circShift`, `oph::normalize`) are fields of a value `Fourier`. The only
laws assumed are stated in each member's `requires`:

- `ZeroLaws`: exp(0) = cos(0) = 1 and sin(0) = 0;
- `SqrtLaw`: sqrt is the non-negative square root;
- `Lawful`: each helper fills a buffer of the size it is given.

What is proved is the index logic:

- which positions each loop writes, zeroes, keeps or accumulates;
- how the flat `pnX * pnY` buffers map to rows and columns;
- how one operation relates to another: a round trip, an independence,
  a "nothing else changes".

Files, one module each:

| file | module | part of ophGen.cpp |
|---|---|---|
| complex.dfy | Complex | complex arithmetic and the math library |
| grid.dfy | Grid | row-major indexing used by every loop |
| wrappers.dfy | Wrappers | `Option` |
| fourier.dfy | Fourier | FFT helpers, `freqShift` |
| context.dfy | FieldContext | pixel count, pitch, wavelength, `k`, `ss` |
| encoders.dfy | Encoders | `numericalInterference`, `twoPhaseEncoding`, `burckhardt`, `realPart`/`getPhase`/`getAmplitude` |
| ssb.dfy | SingleSideBand | `singleSideBand` |
| sideband.dfy | SideBand | `encodeSideBand`, `encodeSideBand_CPU`, `encodeSymmetrization`, `getShiftPhaseValue` |
| fresnel.dfy | Fresnel | both `fresnelPropagation` overloads |
| angular.dfy | AngularSpectrum | `propagationAngularSpectrum` |
| carrier.dfy | Carrier | the grid and multiplication loops of `waveCarry` |
| depthconfig.dfy | DepthConfig | depth count and `RenderDepth` parsing of `readConfig` |
| savenames.dfy | SaveNames | file names of both `save` overloads |
| generator.dfy | Generator | the `ophGen` object: buffers, `encoding`, `waveCarry`, `setResolution` |

Quirks of the source are reproduced, not fixed. Each has a member that
exhibits it:

- The propagation mask does not keep the square root's argument
  non-negative (`MaskAdmitsNegativeRadicand`).
- Two-phase encoding reads an `amp` buffer it never writes, so its output
  is fixed only up to that buffer's contents (`TwoPhaseEncoding`,
  `TwoPhaseIgnoresAmplitude`).
- Off-axis single side band shifts `complex_H` but encodes `holo`
  (`Generator.Generator.EncodingPassband`).
- The `OphConfig` overload of `fresnelPropagation` shifts only `Nx * Ny`
  of the `4 Nx Ny` samples; the rest of `temp1` keeps the zeros of its
  allocation through the transfer step (`PropagateWithConfig`,
  `UnfilledStaysZero`).
- The `waveCarry` grid covers `2 floor(Ny/2) * 2 floor(Nx/2)` samples
  (`GridCoversField`).
- `RenderDepth` is read into the change-depth flag after the depth count
  has been chosen (`FlagOverwrittenAfterCount`).
- Batch file names accumulate (`BatchNamesAccumulate`).
- A batch name whose only '.' is its first character loses its last
  character (`SplitNameRejoins`).

## Model

| member | source | states |
|---|---|---|
| FieldContext.Derive | ophgen/src/ophGen.cpp:288-290 | k * lambda = 2 pi, ssx = nx * ppx and ssy = ny * ppy; counts, pitches and wavelength are kept; the context is valid exactly when counts, pitches and wavelength are positive |
| Grid.FlatSplit | ophgen/src/ophGen.cpp:545-546 | pixel i of a w-wide buffer is at column i % w of row i / w; the flat index gives row and column back |
| Grid.FlatInjective | ophgen/src/ophGen.cpp:1561-1562 | distinct (row, column) cells have distinct flat indices |
| Fourier.FreqShift | ophgen/src/ophGen.cpp:1080-1095 | forward transform, circular shift, backward transform; the result has nx * ny samples |
| Fourier.RealParts | ophgen/src/ophGen.cpp:1071-1072 | element i is the real part of sample i, same length |
| Encoders.MaxOf | ophgen/src/ophGen.cpp:928-929 | the result bounds every element from above and, for a non-empty input, is one of them |
| Encoders.Interference | ophgen/src/ophGen.cpp:923-947 | one intensity per input sample |
| Encoders.ReferenceIsMaxMagnitude | ophgen/src/ophGen.cpp:925-929 | the reference is at least every sample's magnitude and equals one of them |
| Encoders.InterferenceIntensity | ophgen/src/ophGen.cpp:932-941 | with a true square root, encoded[i] = (re + ref)^2 + im^2 |
| Encoders.ReferenceDominates | ophgen/src/ophGen.cpp:932-934 | with a true square root, every sample plus the reference has a non-negative real part |
| Encoders.Reference | ophgen/src/ophGen.cpp:925-929 | computes ref = maxOfArr(absCplxArr(holo)), the largest sample magnitude; ReferenceIsMaxMagnitude states what it is |
| Encoders.NumericalInterference | ophgen/src/ophGen.cpp:923-947 | encoded[0..size) is the interference of the field with its largest magnitude; the rest of encoded is unchanged |
| Encoders.PairLayout | ophgen/src/ophGen.cpp:965-968 | the pair layout holds two samples per input |
| Encoders.TwoPhaseLayout | ophgen/src/ophGen.cpp:949-968 | two outputs per normalised sample |
| Encoders.TwoPhasePairs | ophgen/src/ophGen.cpp:960-968 | the pair at 2i, 2i+1 sums to 2 (phase + pi) and differs by 2 acos(amp[i]) |
| Encoders.TwoPhaseIgnoresAmplitude | ophgen/src/ophGen.cpp:954-963 | fields with equal phases get equal two-phase output whatever their amplitudes |
| Encoders.InterleavePairs | ophgen/src/ophGen.cpp:965-968 | the pair loop writes all 2n slots with the pair layout and nothing beyond |
| Encoders.TwoPhaseEncoding | ophgen/src/ophGen.cpp:949-974 | encoded[0..2 size) is the pair layout of the normalised field for some contents of the unwritten amp buffer; the rest is unchanged |
| Encoders.SectorZeros | ophgen/src/ophGen.cpp:994-1010 | A3 = 0 in [0, 2pi/3), A1 = 0 in [2pi/3, 4pi/3), A2 = 0 in [4pi/3, 2pi), all three 0 outside [0, 2pi) |
| Encoders.SectorRotation | ophgen/src/ophGen.cpp:1000-1009 | the second and third sectors are the first rotated across A1, A2, A3 |
| Encoders.BurckhardtTriple | ophgen/src/ophGen.cpp:994-1010 | computes A1, A2, A3 of one sample by its phase sector, all zero outside [0, 2pi); SectorZeros and SectorRotation state its shape |
| Encoders.TripleLayout | ophgen/src/ophGen.cpp:1012-1016 | three outputs per triple |
| Encoders.BurckhardtLayout | ophgen/src/ophGen.cpp:976-1016 | three outputs per normalised sample |
| Encoders.TripleSlots | ophgen/src/ophGen.cpp:1012-1016 | in the interleaved layout triple i occupies slots 3i, 3i+1, 3i+2 |
| Encoders.BurckhardtSlots | ophgen/src/ophGen.cpp:1012-1016 | slots 3i, 3i+1, 3i+2 hold A1, A2, A3 of sample i's triple |
| Encoders.FillTriples | ophgen/src/ophGen.cpp:987-1010 | A1, A2, A3 start zeroed and end holding every sample's sector triple |
| Encoders.InterleaveTriples | ophgen/src/ophGen.cpp:1012-1016 | the interleave loop writes all 3n slots with the triple layout and nothing beyond |
| Encoders.Burckhardt | ophgen/src/ophGen.cpp:976-1018 | encoded[0..3 size) is the Burckhardt layout of the normalised field; the rest is unchanged |
| Encoders.PointwiseEncode | ophgen/src/ophGen.cpp:770-794 | encoded[i] is the real part, phase or magnitude of holo[i] for i < size; the rest is unchanged |
| SingleSideBand.Masked | ophgen/src/ophGen.cpp:1029-1062 | the masked spectrum has the spectrum's length |
| SingleSideBand.MaskedColumns | ophgen/src/ophGen.cpp:1031-1048 | LEFT zeroes columns >= X/2 of every row, RIGHT columns < X/2; other samples are kept |
| SingleSideBand.MaskedHalves | ophgen/src/ophGen.cpp:1049-1062 | TOP zeroes indices >= size/2, BOTTOM indices < size/2; an unrecognised passband changes nothing |
| SingleSideBand.OppositeBandsClearAll | ophgen/src/ophGen.cpp:1029-1062 | LEFT/RIGHT and TOP/BOTTOM zero complementary sets; applying both of a pair clears the spectrum |
| SingleSideBand.ZeroColumns | ophgen/src/ophGen.cpp:1032-1047 | exactly the columns lo..hi-1 of every row become zero |
| SingleSideBand.ZeroRowColumns | ophgen/src/ophGen.cpp:1032-1047 | the inner loop for row i zeroes exactly that row's samples in columns lo..hi-1 and leaves every other sample as it was |
| SingleSideBand.ZeroRange | ophgen/src/ophGen.cpp:1050-1060 | exactly the indices lo..hi-1 become zero |
| SingleSideBand.ZeroPassband | ophgen/src/ophGen.cpp:1029-1062 | the spectrum becomes its passband mask |
| SingleSideBand.SsbOutput | ophgen/src/ophGen.cpp:1020-1077 | one output sample per pixel |
| SingleSideBand.SingleSideBandEncode | ophgen/src/ophGen.cpp:1020-1077 | encoded[0..nx ny) is the normalised real part of the band-limited field; the rest is unchanged |
| SideBand.CropSitesAgree | ophgen/src/ophGen.cpp:1396-1419 | the floating-point halving of encodeSideBand and the integer halving of encodeSymmetrization give the same bounds |
| SideBand.SideBandAxis | ophgen/src/ophGen.cpp:1396-1419 | computes the zero-based crop bounds of one axis with the floating-point halving of encodeSideBand; AxisWindow states the window |
| SideBand.SymmetrizationAxis | ophgen/src/ophGen.cpp:1523-1552 | computes the same bounds with the integer halving of encodeSymmetrization; CropSitesAgree shows the two agree |
| SideBand.SideBandBox | ophgen/src/ophGen.cpp:1396-1419 | pairs the x bounds (from sig_location[0]) and y bounds (from sig_location[1]) of encodeSideBand |
| SideBand.SymmetrizationBox | ophgen/src/ophGen.cpp:1523-1552 | pairs the x and y bounds of encodeSymmetrization |
| SideBand.AxisWindow | ophgen/src/ophGen.cpp:1523-1552 | flag 0 keeps [0, n-1]; other flags keep [c - c/2 - 1, 2c - c/2 - 2] with c = n/2, inside the axis and c wide for n >= 2, empty for n < 2 |
| SideBand.Cropped | ophgen/src/ophGen.cpp:1554-1565 | h_crop has pnx * pny samples |
| SideBand.CroppedAt | ophgen/src/ophGen.cpp:1560-1565 | the sample at (x, y) is the field's when x and y are both in the box, zero otherwise |
| SideBand.NoFlagsKeepsAll | ophgen/src/ophGen.cpp:1523-1565 | with both flags zero the crop is the whole field |
| SideBand.CropTransform | ophgen/src/ophGen.cpp:1447-1448 | the normalised fftwShift of h_crop over the pixel grid, in the direction the caller passes (OPH_BACKWARD here, the literal -1 at line 1568) |
| SideBand.Crop | ophgen/src/ophGen.cpp:1432-1443 | the crop loop fills a zeroed buffer with exactly the cropped field |
| SideBand.ShiftPhaseFlags | ophgen/src/ophGen.cpp:1623-1663 | both flags 0 give 1; a lone flag gives one phasor of the row or column; y flags other than 1 act as -1, x flags other than -1 act as 1 |
| SideBand.ShiftPhaseSeparable | ophgen/src/ophGen.cpp:1632-1662 | with x flag 0 the correction depends only on the row, with y flag 0 only on the column |
| SideBand.ShiftPhaseValue | ophgen/src/ophGen.cpp:1623-1663 | computes getShiftPhaseValue: 1, times the y phasor when sig_location[1] != 0, times the x phasor when sig_location[0] != 0; ShiftPhaseFlags and ShiftPhaseSeparable state its cases |
| SideBand.ShiftAngleY | ophgen/src/ophGen.cpp:1634-1642 | computes the y angle 2 pi (+-yy) / (4 ppy) of row r, positive yy for flag 1 |
| SideBand.ShiftAngleX | ophgen/src/ophGen.cpp:1650-1658 | computes the x angle 2 pi (+-xx) / (4 ppx) of column c, negated xx for flag -1 |
| SideBand.ShiftAngleSteps | ophgen/src/ophGen.cpp:1632-1662 | neighbouring pixels are a quarter turn apart: a column step turns the x angle by -pi/2 (pi/2 for flag -1), a row step turns the y angle by -pi/2 for flag 1 (pi/2 otherwise), and each flag's two choices give opposite angles |
| SideBand.Demodulated | ophgen/src/ophGen.cpp:1575-1579 | one real sample per transformed sample |
| SideBand.Demodulate | ophgen/src/ophGen.cpp:1451-1458 | encoded[i] is the real part of sample i times its shift phase; the rest is unchanged |
| SideBand.EncodeSideBandCpu | ophgen/src/ophGen.cpp:1427-1461 | encoded[0..n) is the demodulated backward transform of the cropped field; the rest is unchanged |
| SideBand.EncodeSymmetrization | ophgen/src/ophGen.cpp:1516-1582 | the same with integer-halved bounds and direction -1 |
| Fresnel.BlockIndexFacts | ophgen/src/ophGen.cpp:1188-1194 | input sample k goes to an in-bounds position inside the centred block, which ranks back to k |
| Fresnel.RankFacts | ophgen/src/ophGen.cpp:1188-1194 | every block position holds some input sample and is that sample's position |
| Fresnel.BlockIndexInjective | ophgen/src/ophGen.cpp:1188-1194 | distinct input samples go to distinct positions |
| Fresnel.Padded | ophgen/src/ophGen.cpp:1182-1194 | the padded buffer has 4 nX nY entries |
| Fresnel.PadPlacement | ophgen/src/ophGen.cpp:1182-1194 | the padded buffer is zero outside the block and holds input k at its block position |
| Fresnel.Extracted | ophgen/src/ophGen.cpp:1231-1244 | the extracted block has nX nY samples |
| Fresnel.ExtractPadded | ophgen/src/ophGen.cpp:1182-1244 | extracting the block of a padded field returns the field |
| Fresnel.PadCentered | ophgen/src/ophGen.cpp:1182-1194 | the padding loop produces exactly the padded buffer |
| Fresnel.PadRow | ophgen/src/ophGen.cpp:1189-1193 | one row of the padding loop places the next nX input samples at their block positions in that row, advances idxIn by nX, and changes nothing else |
| Fresnel.ExtractCentered | ophgen/src/ophGen.cpp:1231-1244 | the extraction loop writes exactly the block into out[0..nX nY) and nothing beyond |
| Fresnel.FrequencyGridCentred | ophgen/src/ophGen.cpp:1204-1211 | column nX has fx = 0, column 0 has fx = -1/(2 ppX), columns are 1/(2 nX ppX) apart, row nY has fy = 0 |
| Fresnel.FrequencyGrid | ophgen/src/ophGen.cpp:1201-1211 | the grid loop fills all 4 nX nY entries of fx and fy with the centred grid |
| Fresnel.FillFrequencyRow | ophgen/src/ophGen.cpp:1206-1210 | one row of the grid loop writes 2 nX entries of fx and fy with the centred grid values and leaves earlier entries alone |
| Fresnel.TransferAtZeroDistance | ophgen/src/ophGen.cpp:1220-1225 | at distance 0 the transfer function is 1 |
| Fresnel.Transfer | ophgen/src/ophGen.cpp:1221-1224 | computes exp(i 2 pi d sqrt(1/lambda^2 - fx^2 - fy^2)); TransferAtZeroDistance and TransferSample state it |
| Fresnel.Propagated | ophgen/src/ophGen.cpp:1220-1225 | the propagated spectrum has the spectrum's length |
| Fresnel.PropagatedAtZeroDistance | ophgen/src/ophGen.cpp:1220-1225 | at distance 0 the transfer step leaves the spectrum unchanged |
| Fresnel.TransferSample | ophgen/src/ophGen.cpp:1221-1224 | the two-step build of prop gives the sample times the transfer function |
| Fresnel.ApplyTransfer | ophgen/src/ophGen.cpp:1213-1225 | the transfer loop multiplies every sample by the transfer function at its grid point |
| Fresnel.TransferLoop | ophgen/src/ophGen.cpp:1220-1225 | temp2 becomes temp1 multiplied sample by sample by the transfer function |
| Fresnel.ShiftedTransfer | ophgen/src/ophGen.cpp:1196-1229 | forward shift into the freshly allocated, zero-initialised temp1, transfer and backward shift of the padded field; the part of temp1 the forward shift does not fill stays zero |
| Fresnel.FresnelOutput | ophgen/src/ophGen.cpp:1172-1257 | pad, forward shift into a zero-filled temp1, transfer, backward shift and extract: one output per input pixel |
| Fresnel.FresnelAtZeroDistance | ophgen/src/ophGen.cpp:1172-1257 | at distance 0 the output is the forward-backward transform pair alone, with the unfilled part of temp1 zero, read from the block |
| Fresnel.ZeroPadded | ophgen/src/ophGen.cpp:1117-1120 | temp1 after the forward fftwShift: the shifted samples first, zero in every position the shift does not fill |
| Fresnel.UnfilledStaysZero | ophgen/src/ophGen.cpp:1117-1120 | at any distance the transfer step keeps the unfilled part of temp1 at zero |
| Fresnel.Propagate | ophgen/src/ophGen.cpp:1182-1244 | out[0..n) is the propagation of the input for the given shift calls, with the part of temp1 the forward shift leaves unfilled at zero; the rest of out is unchanged |
| Fresnel.ConfigForward | ophgen/src/ophGen.cpp:1119-1120 | the OphConfig forward shift leaves 3 Nx Ny of the padded samples unfilled |
| Fresnel.PaddedShift | ophgen/src/ophGen.cpp:1199 | the member overload's shifts cover the whole padded buffer |
| Fresnel.PropagateWithConfig | ophgen/src/ophGen.cpp:1098-1170 | the OphConfig overload's output is fully determined by the input: its forward shift fills Nx Ny samples of temp1 and the other 3 Nx Ny stay zero |
| Fresnel.PropagateWithContext | ophgen/src/ophGen.cpp:1172-1257 | the member overload's output is fully determined by the input |
| AngularSpectrum.Accumulated | ophgen/src/ophGen.cpp:544-565 | the accumulated field has the field's length |
| AngularSpectrum.AccumulatedAt | ophgen/src/ophGen.cpp:556-564 | a pixel failing the mask keeps its value; a passing pixel gains exactly kernel * input |
| AngularSpectrum.AccumulationCommutes | ophgen/src/ophGen.cpp:561-564 | accumulating two depth planes in either order gives the same field |
| AngularSpectrum.AccumulatedAtZeroDistance | ophgen/src/ophGen.cpp:551-560 | at distance 0 a passing pixel gains exactly its input sample |
| AngularSpectrum.PixelFrequencies | ophgen/src/ophGen.cpp:545-549 | fxx depends only on the column, fyy only on the row |
| AngularSpectrum.Fxx | ophgen/src/ophGen.cpp:545-548 | computes fxx = -1/(2 ppX) + x/ssX for column x = i % pnX |
| AngularSpectrum.Fyy | ophgen/src/ophGen.cpp:546-549 | computes fyy = 1/(2 ppY) - 1/ssY - y/ssY for row y = i / pnX |
| AngularSpectrum.Kernel | ophgen/src/ophGen.cpp:551-554 | computes exp(i k d sqrt(1 - (lambda fxx)^2 - (lambda fyy)^2)) |
| AngularSpectrum.Contribution | ophgen/src/ophGen.cpp:556-560 | kernel * input sample when fxx^2 + fyy^2 < k^2, else the default-constructed 0 + 0i; AccumulatedAt states what it adds |
| AngularSpectrum.MaskAdmitsNegativeRadicand | ophgen/src/ophGen.cpp:551-556 | with k = 2 pi / lambda, frequency (2/lambda, 0) passes the mask, yet the square-root argument is -3 |
| AngularSpectrum.PropagationAngularSpectrum | ophgen/src/ophGen.cpp:527-569 | complex_H becomes its accumulation with the input plane; the input may alias complex_H |
| AngularSpectrum.AddContribution | ophgen/src/ophGen.cpp:559-564 | complex_H[i] gains the masked kernel contribution of input sample i, real and imaginary parts together |
| Carrier.Carried | ophgen/src/ophGen.cpp:1373-1376 | the carried field has the field's length |
| Carrier.GridCoversField | ophgen/src/ophGen.cpp:1361-1369 | the grid never has more samples than the field, and has exactly as many iff both counts are even |
| Carrier.EvenGridDetermined | ophgen/src/ophGen.cpp:1357-1369 | with even counts the grid buffers are fully determined |
| Carrier.CarrierGridCentred | ophgen/src/ophGen.cpp:1361-1364 | the grid starts at (-(nx/2) dfx, (ny/2) dfy); column nx/2 has fx = 0, row ny/2 has fy = 0, columns are dfx apart |
| Carrier.CarrierAtZeroDistance | ophgen/src/ophGen.cpp:1373-1376 | at distance 0 the carrier leaves the field unchanged |
| Carrier.CarrierPhase | ophgen/src/ophGen.cpp:1374-1375 | computes d tan(angleX) fx + d tan(angleY) fy, the imaginary part of the carrier exponent |
| Carrier.CarrierGrid | ophgen/src/ophGen.cpp:1355-1369 | the grid loop writes the first 2(ny/2) * 2(nx/2) entries of fx and fy with the carrier grid |
| Carrier.FillGrid | ophgen/src/ophGen.cpp:1361-1369 | the nested grid loop sets every one of the 2(ny/2) * 2(nx/2) entries of fx and fy to the carrier grid value |
| Carrier.FillGridRow | ophgen/src/ophGen.cpp:1362-1368 | one row of the grid loop writes its 2(nx/2) samples with the row's fy and the columns' fx, leaving earlier rows alone |
| Carrier.ModulateCarrier | ophgen/src/ophGen.cpp:1352-1377 | complex_H becomes itself times the carrier, on some grid whose written part is the carrier grid |
| DepthConfig.LeadingInt | ophgen/src/ophGen.cpp:370-371 | a number that is read consumes at least one character |
| DepthConfig.StreamIntsRoundTrip | ophgen/src/ophGen.cpp:378-382 | integers written space-separated are read back, in order, by the extraction loop |
| DepthConfig.StreamInts | ophgen/src/ophGen.cpp:378-382 | the integers a stringstream yields from the text, in order, stopping at the first failed extraction |
| DepthConfig.FindColon | ophgen/src/ophGen.cpp:365 | the first ':' if any, none otherwise |
| DepthConfig.Range | ophgen/src/ophGen.cpp:373-374 | start, start+1, ..., end; empty when start > end |
| DepthConfig.ColonClearsList | ophgen/src/ophGen.cpp:366-375 | with a ':' the previous list has no effect |
| DepthConfig.NoColonAppends | ophgen/src/ophGen.cpp:376-383 | without a ':' the integers read are appended after the previous list |
| DepthConfig.RangeText | ophgen/src/ophGen.cpp:365-375 | "start:end" yields exactly the inclusive range |
| DepthConfig.RenderDepthList | ophgen/src/ophGen.cpp:365-383 | the range start..end for text with a ':' (none when either side has no number), otherwise the prior list followed by the streamed integers |
| DepthConfig.DepthCount | ophgen/src/ophGen.cpp:354-357 | the default count when FLAG_CHANGE_DEPTH_QUANTIZATION is 0, the configured number otherwise |
| DepthConfig.ReadDepthSettings | ophgen/src/ophGen.cpp:354-388 | depth count, RenderDepth flag and render-depth list, or the failed query, the stoi exception or the empty-list rejection; FlagOverwrittenAfterCount states its outcome |
| DepthConfig.FlagOverwrittenAfterCount | ophgen/src/ophGen.cpp:354-388 | the depth count follows the flag as it was before; the flag then holds the RenderDepth query; the read fails iff the query fails or the list is empty |
| DepthConfig.PushRange | ophgen/src/ophGen.cpp:372-374 | the push loop builds the inclusive range |
| DepthConfig.PushStream | ophgen/src/ophGen.cpp:378-382 | the extraction loop appends every integer the stream yields |
| DepthConfig.ParseRenderDepth | ophgen/src/ophGen.cpp:365-383 | the parse yields the render-depth list, or the stoi exception |
| SaveNames.ImageNameRecognized | ophgen/src/ophGen.cpp:588-602 | the name written always carries a recognised extension and is the given name or it plus ".bmp" |
| SaveNames.ImageName | ophgen/src/ophGen.cpp:588-602 | the name unchanged when checkExtension accepts .bmp, .jpg, .gif or .png, else with ".bmp" appended |
| SaveNames.SaveCall | ophgen/src/ophGen.cpp:576-602 | no image is written exactly when the name is null |
| SaveNames.SaveSizeFallback | ophgen/src/ophGen.cpp:585-586 | the pixel count replaces the size only when both px and py are 0 |
| SaveNames.LastDot | ophgen/src/ophGen.cpp:611 | the position of the last '.', or none when there is none |
| SaveNames.SplitNameRejoins | ophgen/src/ophGen.cpp:611-615 | name + ext is the file name, except when its only '.' is the first character (".bmp" splits into "" and ".bm") |
| SaveNames.SplitName | ophgen/src/ophGen.cpp:611-615 | splits at the last '.' (or the end), the extension taken with count length - 1 |
| SaveNames.BatchNamesAccumulate | ophgen/src/ophGen.cpp:620-628 | each batch name is a strict prefix-extension of the one before, and from the second on it is not name + i + ext |
| SaveNames.Batched | ophgen/src/ophGen.cpp:620-621 | the name after i + 1 appends: the split name followed by 0 ext 1 ext ... i ext |
| SaveNames.BatchName | ophgen/src/ophGen.cpp:611-621 | the name passed for file i of the batch save |
| SaveNames.BatchNames | ophgen/src/ophGen.cpp:611-628 | the loop produces fnum names, name i being the accumulated batch name |
| Generator.EncodedFillsBuffer | ophgen/src/ophGen.cpp:741-752 | every basic encoding fills exactly the encode_size buffer chosen for its flag |
| Generator.EncodeWidth | ophgen/src/ophGen.cpp:741-752 | encode_size[_X]: 3 nx for Burckhardt, 2 nx for two-phase, nx otherwise |
| Generator.EncodedBy | ophgen/src/ophGen.cpp:763-808 | what holo_encoded holds after the encoding switch for each flag; the unwritten-amp freedom of two-phase is an existential |
| Generator.OffAxis | ophgen/src/ophGen.cpp:839 | the shifted field keeps the pixel count |
| Generator.PassbandEncoded | ophgen/src/ophGen.cpp:830-847 | one sample per pixel; all zero for flags other than SSB and OFFSSB |
| Generator.ClearPrefix | ophgen/src/ophGen.cpp:670-675 | the first n entries become the value; the rest is unchanged |
| Generator.Generator.constructor | ophgen/src/ophGen.cpp:56-72 | no buffers, no carrier applied |
| Generator.Generator.Initialize | ophgen/src/ophGen.cpp:78-127 | fresh zeroed buffers of pnX pnY samples, encode_size = pixel count |
| Generator.Generator.ResetBuffer | ophgen/src/ophGen.cpp:660-677 | each allocated buffer is zeroed over its pixel count or encode_size, and kept beyond it |
| Generator.Generator.SetResolution | ophgen/src/ophGen.cpp:1688-1696 | the same resolution changes nothing; a new one updates the pixel count and re-runs initialize |
| Generator.Generator.Reallocate | ophgen/src/ophGen.cpp:754-761 | fresh zeroed holo_encoded and holo_normalized of width * height |
| Generator.EncodeField | ophgen/src/ophGen.cpp:763-808 | holo_encoded holds the flag's encoding of the field, for every flag handled in place |
| Generator.EncodeNarrow | ophgen/src/ophGen.cpp:765-794 | numerical interference, real part, phase or amplitude: one value per pixel, each the flag's encoding |
| Generator.EncodeWide | ophgen/src/ophGen.cpp:775-784 | Burckhardt (three values per pixel) or two-phase (two per pixel) encoding fills the widened buffer |
| Generator.EncodeSymmetric | ophgen/src/ophGen.cpp:800-803 | the symmetrisation encoding of the cropped, transformed field |
| Generator.Generator.Encoding | ophgen/src/ophGen.cpp:735-809 | encode_size is 3nx, 2nx or nx by ny; buffers are fresh and zeroed; the given field (or complex_H) is encoded, and SSB/OFFSSB/unknown leave holo_encoded zero |
| Generator.EncodeOrSkip | ophgen/src/ophGen.cpp:763-808 | a flag handled in place encodes the field; SSB, OFFSSB and unknown flags leave the zeroed buffer as it was |
| Generator.Generator.EncodingPassband | ophgen/src/ophGen.cpp:811-848 | size nx by ny; OFFSSB shifts complex_H but encodes holo, which is the shifted field only when holo is complex_H |
| Generator.EncodePassbandBuffers | ophgen/src/ophGen.cpp:830-847 | OFFSSB shifts complex_H; the encoded source is holo, which sees the shift only when it is complex_H itself |
| Generator.Generator.ShiftField | ophgen/src/ophGen.cpp:839 | complex_H is replaced by its frequency-shifted self |
| Generator.ShiftInPlace | ophgen/src/ophGen.cpp:839 | the buffer is replaced by its frequency-shifted self |
| Generator.Generator.EncodingMember | ophgen/src/ophGen.cpp:850-921 | ENCODE_METHOD applied to complex_H; OFFSSB encodes the shifted field |
| Generator.EncodeBuffers | ophgen/src/ophGen.cpp:877-921 | OFFSSB shifts the field first and every other flag leaves it alone; SSB and OFFSSB write the band-limited output of the (shifted) field, other flags their basic encoding |
| Generator.Generator.WaveCarry | ophgen/src/ophGen.cpp:1348-1383 | acts once: the first call sets bCarried and carries complex_H; later calls change nothing |
| Generator.Generator.PropagationAngularSpectrum | ophgen/src/ophGen.cpp:527-569 | complex_H accumulates the input plane |
| Generator.Generator.EncodeSideBand | ophgen/src/ophGen.cpp:1385-1425 | nothing without a field; otherwise holo_encoded[0..n) is the side-band encoding with the signal location's crop box |
| Generator.Generator.FresnelPropagation | ophgen/src/ophGen.cpp:1172-1257 | out[0..n) is the Fresnel propagation with the context's counts, pitch and wavelength |

## Left out

- The `USE_3CHANNEL` build (several wavelengths, one `complex_H` per colour) is not modelled; only the single-wavelength branch is.
- The GPU path (`encodeSideBand_GPU`, the CUDA kernels declared `extern "C"`) is device code whose bodies are not visible. `encodeSideBand` is modelled for `bCPU` true only.
- XML reading with tinyxml2 is not modelled. Of the three `readConfig` overloads only the depth count, the `RenderDepth` text and the derivation of `k` and `ss` are modelled. The XML library's boolean query is a parameter.
- File and console I/O is not modelled: `loadPointCloud`, `loadComplex`, `testSLM`, `load`, `loadAsOhc`, `normalize`, `Openholo::saveAsImg`, `LOG`, `cout`, `cin.get()`. The `save` overloads are modelled as the name, buffer and size they pass to the image writer.
- The FFT, `fftwShift`, `circShift` and `oph::normalize` are uninterpreted. Only the sizes of their outputs are assumed.
- `absCplxArr` and `maxOfArr` are not part of this model. They are taken to compute sqrt(re^2 + im^2) of each sample (`Encoders.Magnitudes`, with the math library's square root) and the exact maximum, 0.0 for an empty array (`Encoders.MaxOf`).
- The FFTW plan calls of `encodeSymmetrization` (`fftw_plan_dft_2d`, `fftw_destroy_plan`, `fftw_cleanup`) are not modelled. The plan is built on uninitialised pointers and never executed, and FFTW's plan state is not part of this model.
- Floating point is not modelled: computation is on reals and the math library is uninterpreted. Integer widths (`int`, `uint`) are unbounded, so overflow of `pnX * pnY` or of counters is not modelled.
- OpenMP `parallel for` and `atomic` are not modelled; loops run sequentially. `AccumulationCommutes` states the order independence the atomics rely on.
- `getRandPhaseValue` is not modelled, because its output is random.
- `ophgen/src/ophPointCloud.h` holds declarations and trivial accessors only, and is not part of this model.
- `Openholo::checkExtension` is not part of this model. It is the parameter `check`, and the one fact used about it, that a name ending in the extension is accepted, is the requirement `SuffixSound`.
- `setPixelNumber` and `setPixelNumberOHC` are not part of this model. `Generator.Generator.SetResolution` assumes they set the pixel count and nothing else.
- `std::stoi` throwing for out-of-range numbers is not modelled; only the no-digits case (`None`/`Thrown`) is. The 256-byte `sprintf_s` buffer of `save` is not modelled either.
- `Generator.Generator.EncodingPassband`, `Generator.Generator.Encoding` and `Generator.Generator.EncodingMember`: the `cin.get()` pause before an error return is left out.
- The `va_list` walk of the batch `save` is not modelled: `SaveNames.BatchNames` gives the names only, not which buffer each call receives.
- `waveCarry`'s `fz` buffer is computed but never used, so it is left out.
- `Carrier.ModulateCarrier`: the carrier grid for odd pixel counts reads uninitialised buffer entries, so the contract fixes only the written part of the grid.
- `Encoders.TwoPhaseEncoding`: the output depends on the never-written `amp` buffer, so the contract fixes it only up to that buffer's contents.
- Deallocation (`delete[]`, `ophFree`) and memory leaks are not modelled.
- Divisions by pixel counts, pitches and wavelength are kept away from zero by `FieldContext.Valid` and `Fresnel.Divisible`.
- The `oph::Complex` default constructor is not part of this model. It is taken to give 0 + 0i: for the `u_frequency` of a masked-out pixel, for the `val` of `getShiftPhaseValue`, and for every element of `new Complex<Real>[...]`, so the part of `temp1` that a forward shift does not fill is zero. Buffers of `Real` from `new Real[...]` (the two-phase `amp`, the `fx`, `fy` of `waveCarry`) stay indeterminate.
