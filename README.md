# Pitch visualizer core, modelled in Dafny

The app in `scripts/app.js` listens to a microphone and does four things:

- decimates the audio;
- keeps the last four decimated blocks in a round-robin store of segments;
- windows the segments into an FFT frame, then turns the spectrum into bytes;
- picks the sung pitch from those bytes and draws it against a staff.

This project models the four pieces of that logic that can be stated without a browser:

- **Peak picker** (`peak_picker.dfy`, module `PeakPicker`). `getPeakFreq` works in two stages:
  - It scans the byte spectrum for its first maximum.
  - It then tries sub-harmonic bins `peakIndex / i + slop`. The divisor `i` runs from 2 to 6 and `slop` is taken from `[0, -1, 1, -2, 2]`. Probes outside the spectrum are skipped.
  - Within one divisor, the best probe above 60% of the peak is chosen. A later divisor that finds one overrides the earlier divisors.

  The functions `FirstMax`, `BestProbe`, `Corrected` and `PeakBin` state the result. The methods `ScanPeak`, `GetPeakBin` and `GetPeakFreq` are the source's loops, proved against those functions. The lemmas prove which bin wins.
- **Segment store and frame layout** (`segments.dfy`, module `Segments`). This module is the value model:
  - the store is the segments plus the slot index;
  - saving one decimated block is `Push`;
  - a run of blocks is `Run`;
  - the FFT input a store stands for is `Frame`: the window applied to the segments, oldest first.
- **Frame assembler** (`frame_assembler.dfy`, module `FrameAssembler`). This is the `onaudioprocess` callback as a class:
  - an array of saved segments, its index, and the `real` and `imaginary` arrays;
  - its nested loops are proved to leave exactly `Push` of the decimated block in the store and `Frame` of the new store in `real`.
- **Byte spectrum** (`byte_spectrum.dfy`, module `ByteSpectrum`). This is the three-way clamp of a decibel value onto 0..255.
- **Bins** (`bins.dfy`, module `Bins`). This covers `hzToBin`, `binToHz` and the octave-lowering loop `calculateLowestOctaveTonicHz`.

Modelling choices:

- **Threshold.** The source's `dataArray[t] > peak*0.6` is modelled as `5 * a[t] > 3 * peak` on whole numbers. Both sides are bytes. `peak*0.6` in double precision always rounds to the exact value `3*peak/5` whenever that value is a whole number: the error of the constant `0.6`, times at most 255, is below half a unit in the last place of the result. So the two comparisons agree on every pair of bytes.
- **Probe index.** `Math.floor(peakIndex/i + slop)` is Dafny's `peakIndex / i + slop`, because `peakIndex` is non-negative and `slop` is a whole number.
- **Empty spectrum.** The source reads `dataArray[0]` as `undefined`, and every probe is out of range. The model returns bin 0 with a placeholder peak of 0 that is never compared.
- **`real` is renamed `realPart`**, because `real` names a type in Dafny.
- **Saved segments.** The source's array of arrays `savedSamples` is an `array<seq<real>>`. Each segment is a value that is updated at one position. Frame positions `j*fftSize/numSegments + i` are written `FrameIndex(j, i)`.
- **Constants.** The segment length `fftSize/numSegments` is the constant 512. `fftSize` is 2048, `numSegments` is 4 and `downSampleRatio` is 8, as in the source.
- **Window.** The window coefficients `fftWindow` are computed once at start-up and never changed. They are given to the constructor as an arbitrary sequence of the right length.
- **Octave threshold.** In the model, the threshold `xposToHz(0)` of the octave loop is `minDisplayedBin * hzPerBin`, because `pow(x, 0/WIDTH)` is 1 for a non-zero `WIDTH`. On exact reals the loop ends only when that threshold is positive, so the method requires `minDisplayedBin > 0` and `hzPerBin > 0`. Both hold where the app calls it. `hzPerBin` is `sampleRate/downSampleRatio/fftSize`, about 2.93 Hz at 48 kHz. `minDisplayedBin` is computed in `sizeCanvas`. On a wide display it is `hzToBin(minHz)`, which is 27 for `minHz = 80` and stays positive while `hzPerBin <= 80`. On a narrow display it is `hzToBin(refTonicHz/2)`, which is 44 for the start-up `refTonicHz` of 261.63 Hz. The target button (scripts/app.js:389-397) can later set `refTonicHz` to any bin centre `(bin+0.5)*hzPerBin` above `minHz`. For bin 1 that makes the narrow-display `minDisplayedBin` equal to `floor(1.5/2) = 0`. Bin 1 passes the `peakHz > minHz` guard only when `hzPerBin > 53.3` Hz, that is, for a sample rate above about 874 kHz. The button also calls `calculateLowestOctaveTonicHz` (line 394) before `sizeCanvas` (line 395), so the threshold it uses is the one left by the previous `refTonicHz`. That value is either the start-up value or an earlier accepted peak, both above `minHz`, so the same bound applies. Every sample rate up to about 870 kHz therefore keeps the threshold positive, which covers every rate Web Audio delivers.

What the sub-harmonic correction achieves:

- `PeakPicker.FundamentalUnderHarmonic`: a spectrum holding a fundamental at bin `k >= 2` and a stronger harmonic at bin `2k`, silent elsewhere, is reported at `k` when the fundamental exceeds 60% of the harmonic.
- The 60% test is strict, as the code writes it. A fundamental at exactly 60% is not chosen: `[0, 0, 153, 0, 255]` is reported at bin 4 (`PeakPicker.ExactlySixtyPercentRejected`, `PeakPicker.ExactlySixtyPercentExample`).
- At `k = 1` the correction fails. The last divisor's probes `0 + slop` reach the harmonic's own bin 2, and its larger value wins. `[0, 200, 255]` is reported at bin 2 (`PeakPicker.FundamentalAtBinOneLost`, `PeakPicker.FundamentalAtBinOneExample`). The app discards this result: the guard `peakHz > minHz` at scripts/app.js:392 rejects `binToHz(2)`, about 7.3 Hz at 48 kHz, for any sample rate below about 524 kHz.

## Model

| member | source | states |
|---|---|---|
| ByteSpectrum.ByteScaleFactor | scripts/app.js:118-120 | The bytes-per-decibel factor is positive, and it spans the decibel range onto exactly 255 |
| ByteSpectrum.ScaledInRange | scripts/app.js:173-174 | Inside the decibel range, the rescaled value lies in [0, 255], so storing it as a byte only truncates |
| ByteSpectrum.DecibelsToByte | scripts/app.js:169-174 | 0 below `minDecibels`; 255 above `maxDecibels`; in between, the byte is the truncation of `(dB - minDecibels) * byteScaleFactor` |
| ByteSpectrum.AppRange | scripts/app.js:118-174 | On the app's range of -80 to -10 dB, the factor is 255/70, -80 dB maps to 0, -10 dB to 255 and -45 dB to 127 |
| ByteSpectrum.DecibelsToByteMonotone | scripts/app.js:169-174 | A louder bin never gets a smaller byte, across all three branches |
| ByteSpectrum.DecibelsToByteAtBounds | scripts/app.js:169-174 | The branches meet: `minDecibels` maps to 0 and `maxDecibels` to 255 |
| Bins.HzToBin | scripts/app.js:501-503 | The bin is the one whose range `[bin*hzPerBin, (bin+1)*hzPerBin)` contains the frequency |
| Bins.BinToHz | scripts/app.js:505-508 | The frequency lies strictly inside the bin, exactly half a bin above its lower edge |
| Bins.BinRoundTrip | scripts/app.js:501-508 | `hzToBin(binToHz(b)) == b` for every bin |
| Bins.HzRoundTrip | scripts/app.js:501-508 | Snapping a frequency to its bin centre moves it by at most half a bin |
| Bins.LeftEdgeHz | scripts/app.js:497-499 | `xposToHz(0)` is `minDisplayedBin * hzPerBin`, at least one bin's width when both are positive |
| Bins.CalculateLowestOctaveTonicHz | scripts/app.js:497-518 | The result is the tonic divided by `2^k` for some `k >= 0`, and it is at or below `xposToHz(0)`. It is the tonic itself when the tonic is already at or below that threshold. Otherwise it is above half the threshold, that is, at most an octave below |
| PeakPicker.FirstMaxUnique | scripts/app.js:522-530 | The first maximum is unique |
| PeakPicker.FirstMax | scripts/app.js:522-530 | The scan's index holds the largest value, and every earlier index holds a strictly smaller one |
| PeakPicker.ScanPeak | scripts/app.js:522-530 | The loop with strict `>` ends at the first maximum, and `peak` is its value |
| PeakPicker.Probes | scripts/app.js:537-541 | One probe per slop entry, in slop order, each `peakIndex / i + slop[j]` |
| PeakPicker.ProbeIsFloor | scripts/app.js:541 | `peakIndex / i + slop[j]` on whole numbers is `Math.floor(peakIndex/i + slop[j])` on the exact quotient |
| PeakPicker.Qualifies | scripts/app.js:542-545 | A probe counts exactly when it lies in `[0, dataArray.length)` and its value exceeds `peak*0.6` |
| PeakPicker.FoundPeak | scripts/app.js:539-547 | `foundPeak` is 0 before a round chooses a probe and the chosen probe's value after; it is always a byte value |
| PeakPicker.BestProbeAtMost | scripts/app.js:540-548 | A probe chosen within one divisor is no larger than the largest probe that divisor tries |
| PeakPicker.BestProbe | scripts/app.js:538-548 | A probe chosen within one divisor lies in the spectrum and exceeds 60% of the peak |
| PeakPicker.BestProbeNone | scripts/app.js:538-548 | A divisor chooses nothing exactly when none of its probes qualifies |
| PeakPicker.BestProbeWinner | scripts/app.js:538-548 | A divisor that chooses a probe chooses its largest qualifying probe, and ties go to the earliest in slop order |
| PeakPicker.WinningProbeUnique | scripts/app.js:538-548 | At most one probe of a divisor is the winner |
| PeakPicker.Corrected | scripts/app.js:534-549 | After the divisors up to `d`, the index is either still `peakIndex` or a qualifying probe |
| PeakPicker.CorrectedIsProbe | scripts/app.js:534-549 | A changed index is `peakIndex / i + slop[j]` for some divisor `i` in 2..d and some slop entry `j` |
| PeakPicker.CorrectedUnchanged | scripts/app.js:534-549 | When no divisor up to `d` has a qualifying probe, the index stays `peakIndex` |
| PeakPicker.CorrectedLastRound | scripts/app.js:534-549 | Otherwise the largest divisor with a qualifying probe decides, for its winning probe |
| PeakPicker.PeakBin | scripts/app.js:521-549 | The reported bin lies in the spectrum (bin 0 when the spectrum is empty). When it is not the first maximum, it exceeds 60% of the peak and is one of the sub-harmonic probes |
| PeakPicker.LoneSpikeUnchanged | scripts/app.js:521-549 | A spike with no qualifying sub-harmonic probe is reported at its own bin |
| PeakPicker.LargestDivisorWins | scripts/app.js:521-549 | Otherwise the bin is the winning probe of the largest divisor that has a qualifying probe |
| PeakPicker.CorrectedCases | scripts/app.js:537-549 | After rounds 2..d, either no round had a qualifying probe and the index is unchanged, or the last round with one decided for its winning probe |
| PeakPicker.PeakBinCases | scripts/app.js:521-549 | Every non-empty spectrum is reported either at its first maximum, when no divisor has a qualifying probe, or at the winning probe of the largest divisor that has one |
| PeakPicker.HarmonicIsFirstMax | scripts/app.js:522-530 | With a fundamental at `k` under a stronger harmonic at `2k`, the scan settles on `2k` |
| PeakPicker.RoundFindsOnlyFundamental | scripts/app.js:537-549 | For `k >= 2`, a divisor round over such a spectrum chooses nothing or bin `k`, except the first round when `k == 2` |
| PeakPicker.CorrectedSettlesOn | scripts/app.js:537-549 | When every round from some round that chooses a probe up to `d` chooses nothing or `k`, the index after round `d` is `k` |
| PeakPicker.FundamentalUnderHarmonic | scripts/app.js:532-549 | A fundamental at bin `k >= 2` above 60% of a stronger harmonic at `2k`, with every other bin silent, is reported at `k` |
| PeakPicker.ExactlySixtyPercentRejected | scripts/app.js:545 | With a fundamental at exactly 60% of the harmonic, the harmonic's bin `2k` is reported, because the test is strict |
| PeakPicker.ExactlySixtyPercentExample | scripts/app.js:545 | `[0, 0, 153, 0, 255]` is reported at bin 4 |
| PeakPicker.FundamentalAtBinOneLost | scripts/app.js:537-549 | A fundamental at bin 1 under a stronger harmonic at bin 2 is reported at bin 2 |
| PeakPicker.FundamentalAtBinOneExample | scripts/app.js:537-549 | `[0, 200, 255]` is reported at bin 2 |
| PeakPicker.GetPeakBin | scripts/app.js:521-549 | The nested divisor and slop loops, with the bounds check and the `foundPeak` reset per divisor, compute `PeakBin` |
| PeakPicker.GetPeakFreq | scripts/app.js:521-556 | The reported frequency is the centre of bin `PeakBin` |
| Segments.Initial | scripts/app.js:92-97 | At start-up there are `numSegments` zero segments of `fftSize/numSegments` samples, and the index is 0 |
| Segments.Decimate | scripts/app.js:148-155 | Column `i` of the saved block is `inputData[i*downSampleRatio]` |
| Segments.Push | scripts/app.js:155-157 | The block overwrites the slot at the index, every other slot is unchanged, and the index becomes `(index + 1) % numSegments` |
| Segments.FrameIndex | scripts/app.js:152-154 | `j*fftSize/numSegments + c` is the frame position whose quotient by the segment length is `j` and whose remainder is `c`, and it lies in the frame |
| Segments.OlderSlot | scripts/app.js:152 | The slot `(savedSamplesIndex + j + 1) % numSegments` of an older segment is a valid slot, never the current one |
| Segments.FrameIndexOnto | scripts/app.js:152-154 | Every frame position is `FrameIndex` of its segment and column |
| Segments.ConcatAt | scripts/app.js:152-154 | Position `c` of segment `j` of the concatenation is sample `c` of segment `j` |
| Segments.Run | scripts/app.js:148-158 | The store after successive callbacks, one block each, first to last, stays well formed |
| Segments.Rotated | scripts/app.js:150-154 | The segments in age order, each of one segment's length: age `j` is slot `(index + j) % numSegments`, so the slot at the index, the next to be overwritten, is the oldest |
| Segments.Frame | scripts/app.js:150-154 | `real[j*seg + c] == savedSamples[(index + j) % numSegments][c] * fftWindow[j*seg + c]` for every segment `j` and column `c`: oldest segment first, newest last |
| Segments.WindowedRotatedLayout | scripts/app.js:150-154 | The window applied to the age-ordered segments laid end to end has that layout |
| Segments.RunIndex | scripts/app.js:157 | After `m` callbacks the index has moved `m` slots on, wrapping around |
| Segments.RunSlot | scripts/app.js:155-157 | Within `numSegments` callbacks, the `t`-th block sits `t` slots after the starting index |
| Segments.FullCycle | scripts/app.js:148-158 | After `numSegments` callbacks the store holds exactly those blocks in arrival order, and the frame is the window applied to their concatenation, whatever was stored before |
| FrameAssembler.SlotAfterPush | scripts/app.js:152-157 | Once the index has moved on, the segment `j` places after the new index is older segment `j`, and the last one is the slot just written |
| FrameAssembler.FrameOfColumns | scripts/app.js:148-157 | Writing the older segments and the new block column by column, by the source's index formula, produces the frame of the store after the push |
| FrameAssembler.Assembler.constructor | scripts/app.js:92-97 | A new assembler holds the initial store of zero segments at index 0 |
| FrameAssembler.Assembler.AssembleColumn | scripts/app.js:149-156 | One pass of the outer loop writes column `i` of each older segment and of the new block, times the window, into `real`. It saves the new sample in the current slot and changes nothing else |
| FrameAssembler.Assembler.AssembleColumns | scripts/app.js:148-156 | The outer loop replaces the current slot with the decimated block and writes the whole frame layout into `real` |
| FrameAssembler.Assembler.ProcessAudio | scripts/app.js:144-158 | The store after a callback is `Push` of the store before it and the decimated block. `real` is `Frame` of the new store, and `imaginary` is all zeros |

## Left out

- The `getUserMedia` polyfill, `AudioContext` creation and the biquad anti-aliasing filters: browser audio nodes whose behaviour is not visible.
- `transform`, the FFT of fft.js: fft.js is not part of this model. The frame assembler stops at the frame handed to it.
- The magnitude loop over the spectrum: its `Math.sqrt`, `Math.log10` and exponential smoothing are floating-point transcendental numerics. Only the clamp on its result is modelled, on an arbitrary decibel value. `ByteSpectrum.DecibelsToByte` takes that value as an exact real, so `-Infinity` (the decibels of a zero magnitude) is not represented. Its branch result, 0, is the same as for any value below the floor.
- ByteSpectrum.DecibelsToByte: computes the scaled value on exact reals, not doubles. The truncation is modelled only for in-range values, which are all it ever sees.
- The Blackman window computed with `Math.cos`: the window is an arbitrary sequence given to the constructor.
- Floating point in general: samples, window coefficients, frequencies and `hzPerBin` are exact reals.
- `hzToXpos` and `xposToHz`, apart from `xposToHz(0)`, which the octave loop uses as its threshold.
- Bins.CalculateLowestOctaveTonicHz: requires a positive threshold. In doubles, a threshold of 0 still ends the loop once halving underflows to 0, and a `WIDTH` of 0 makes the threshold NaN, so the loop does not run. Neither case is modelled.
- Tone output (the oscillator and gain), the canvas drawing, the staff images, `sizeCanvas` and the event handlers: presentation and I/O.
- `console.log` calls: they have no effect on the computed values.
- The event delivering `inputData`, and the timing between callbacks: `ProcessAudio` takes the input block as a parameter.
- FrameAssembler.Assembler.ProcessAudio: requires the input block to have `downSampleRatio*fftSize/numSegments` samples, as the script processor is created to deliver; other lengths are not modelled.
