/**
 * The audio callback's buffer work: each block of input is decimated into the
 * current slot of `savedSamples`, and the FFT input (`real`, here `realPart`)
 * is rebuilt from the saved segments, oldest first, times the window.
 */
module FrameAssembler {
  import opened Segments

  /**
   * Once the index has moved on from `idx`, the segment `j` places after it
   * is the older segment `j` for all but the last `j`, and the slot `idx`
   * itself for the last.
   */
  lemma SlotAfterPush(idx: nat, j: nat)
    requires idx < NumSegments && j < NumSegments
    ensures j < NumSegments - 1 ==> ((idx + 1) % NumSegments + j) % NumSegments == OlderSlot(idx, j)
    ensures j == NumSegments - 1 ==> ((idx + 1) % NumSegments + j) % NumSegments == idx
  {
    ModSmall(idx + 1, NumSegments);
    ModSmall((idx + 1) % NumSegments + j, NumSegments);
  }

  /**
   * The callback's index formula builds the frame of the store after the
   * push: segment `j` of the frame is the older segment `j` for all but the
   * last, and the new block for the last.
   */
  lemma FrameOfColumns(before: Store, block: seq<real>, w: seq<real>, f: seq<real>)
    requires WellFormed(before) && |block| == SegmentLength && |w| == FftSize && |f| == FftSize
    requires forall j, c :: 0 <= j < NumSegments - 1 && 0 <= c < SegmentLength ==>
      f[FrameIndex(j, c)] == before.segments[OlderSlot(before.index, j)][c] * w[FrameIndex(j, c)]
    requires forall c :: 0 <= c < SegmentLength ==>
      f[FrameIndex(NumSegments - 1, c)] == block[c] * w[FrameIndex(NumSegments - 1, c)]
    ensures f == Frame(Push(before, block), w)
  {
    var after := Push(before, block);
    forall k | 0 <= k < FftSize
      ensures f[k] == Frame(after, w)[k]
    {
      FrameIndexOnto(k);
      var j, c := k / SegmentLength, k % SegmentLength;
      SlotAfterPush(before.index, j);
    }
  }

  /**
   * The state the callback keeps between calls. Each slot of `savedSamples`
   * holds one segment, updated sample by sample. `real` is called `realPart`
   * here because `real` names a type in Dafny.
   */
  class Assembler {
    const savedSamples: array<seq<real>>
    var savedSamplesIndex: nat
    const realPart: array<real>
    const imaginary: array<real>
    /** The window coefficients, fixed once computed. */
    const fftWindow: seq<real>

    ghost predicate Valid()
      reads this, savedSamples
    {
      && savedSamples.Length == NumSegments
      && (forall r :: 0 <= r < NumSegments ==> |savedSamples[r]| == SegmentLength)
      && realPart.Length == FftSize
      && imaginary.Length == FftSize
      && realPart != imaginary
      && |fftWindow| == FftSize
      && savedSamplesIndex < NumSegments
    }

    /** The saved segments and the slot index, as a value. */
    ghost function State(): (s: Store)
      requires Valid()
      reads this, savedSamples
      ensures WellFormed(s)
    {
      Store(savedSamples[..], savedSamplesIndex)
    }

    /** Setting up: every saved segment zero, slot 0 next. */
    constructor(window: seq<real>)
      requires |window| == FftSize
      ensures Valid()
      ensures fftWindow == window
      ensures State() == Initial()
      ensures fresh(savedSamples) && fresh(realPart) && fresh(imaginary)
    {
      fftWindow := window;
      savedSamples := new seq<real>[NumSegments](r => seq(SegmentLength, c => 0.0));
      savedSamplesIndex := 0;
      realPart := new real[FftSize];
      imaginary := new real[FftSize];
      new;
      assert savedSamples[..] == Initial().segments;
    }

    /**
     * One pass of the callback's outer loop, for column `i`: the inner loop
     * puts position `i` of each older segment, oldest first, times the
     * window, in its place in `realPart`; then the new sample goes after
     * them, times the window, and is saved in the current slot. Nothing else
     * changes.
     */
    method AssembleColumn(inputData: seq<real>, i: nat)
      requires Valid()
      requires |inputData| == DownSampleRatio * SegmentLength && i < SegmentLength
      modifies savedSamples, realPart
      ensures Valid()
      ensures forall j :: 0 <= j < NumSegments - 1 ==>
        realPart[FrameIndex(j, i)] ==
          old(savedSamples[OlderSlot(savedSamplesIndex, j)])[i] * fftWindow[FrameIndex(j, i)]
      ensures realPart[FrameIndex(NumSegments - 1, i)] ==
        inputData[i * DownSampleRatio] * fftWindow[FrameIndex(NumSegments - 1, i)]
      ensures forall j, c :: 0 <= j < NumSegments && 0 <= c < SegmentLength && c != i ==>
        realPart[FrameIndex(j, c)] == old(realPart[FrameIndex(j, c)])
      ensures savedSamples[savedSamplesIndex] == old(savedSamples[savedSamplesIndex])[i := inputData[i * DownSampleRatio]]
      ensures forall r :: 0 <= r < NumSegments && r != savedSamplesIndex ==> savedSamples[r] == old(savedSamples[r])
    {
      var j := 0;
      while j < NumSegments - 1
        invariant 0 <= j <= NumSegments - 1
        invariant forall j' :: 0 <= j' < j ==>
          realPart[FrameIndex(j', i)] ==
            savedSamples[OlderSlot(savedSamplesIndex, j')][i] * fftWindow[FrameIndex(j', i)]
        invariant forall k :: 0 <= k < FftSize && (k % SegmentLength != i || k / SegmentLength >= j) ==>
          realPart[k] == old(realPart[k])
        modifies realPart
      {
        realPart[FrameIndex(j, i)] := savedSamples[OlderSlot(savedSamplesIndex, j)][i] * fftWindow[FrameIndex(j, i)];
        j := j + 1;
      }
      realPart[FrameIndex(NumSegments - 1, i)] := inputData[i * DownSampleRatio] * fftWindow[FrameIndex(NumSegments - 1, i)];
      savedSamples[savedSamplesIndex] := savedSamples[savedSamplesIndex][i := inputData[i * DownSampleRatio]];
    }

    /**
     * The callback's outer loop: every column of the older segments and of
     * the decimated block goes into `realPart` times the window, and the
     * block replaces the current slot, sample by sample.
     */
    method AssembleColumns(inputData: seq<real>)
      requires Valid()
      requires |inputData| == DownSampleRatio * SegmentLength
      modifies savedSamples, realPart
      ensures Valid()
      ensures savedSamples[..] == old(savedSamples[..])[savedSamplesIndex := Decimate(inputData)]
      ensures forall j, c :: 0 <= j < NumSegments - 1 && 0 <= c < SegmentLength ==>
        realPart[FrameIndex(j, c)] == old(savedSamples[OlderSlot(savedSamplesIndex, j)])[c] * fftWindow[FrameIndex(j, c)]
      ensures forall c :: 0 <= c < SegmentLength ==>
        realPart[FrameIndex(NumSegments - 1, c)] == inputData[c * DownSampleRatio] * fftWindow[FrameIndex(NumSegments - 1, c)]
    {
      ghost var before := savedSamples[..];
      ghost var idx := savedSamplesIndex;
      DivModUnique(|inputData|, DownSampleRatio, SegmentLength, 0);
      var i := 0;
      while i < |inputData| / DownSampleRatio
        invariant 0 <= i <= SegmentLength
        invariant Valid()
        invariant forall r :: 0 <= r < NumSegments && r != idx ==> savedSamples[r] == before[r]
        invariant forall c :: 0 <= c < SegmentLength ==>
          savedSamples[idx][c] == if c < i then inputData[c * DownSampleRatio] else before[idx][c]
        invariant forall j, c :: 0 <= j < NumSegments - 1 && 0 <= c < i ==>
          realPart[FrameIndex(j, c)] == savedSamples[OlderSlot(idx, j)][c] * fftWindow[FrameIndex(j, c)]
        invariant forall c :: 0 <= c < i ==>
          realPart[FrameIndex(NumSegments - 1, c)] == inputData[c * DownSampleRatio] * fftWindow[FrameIndex(NumSegments - 1, c)]
      {
        AssembleColumn(inputData, i);
        i := i + 1;
      }
      assert savedSamples[idx] == Decimate(inputData);
      assert savedSamples[..] == before[idx := Decimate(inputData)];
    }

    /**
     * `onaudioprocess` up to the FFT call: the decimated block overwrites
     * the current slot and the index moves on, `realPart` becomes the frame
     * of the new store, and `imaginary` is cleared.
     */
    method ProcessAudio(inputData: seq<real>)
      requires Valid()
      requires |inputData| == DownSampleRatio * SegmentLength
      modifies this, savedSamples, realPart, imaginary
      ensures Valid()
      ensures State() == Push(old(State()), Decimate(inputData))
      ensures realPart[..] == Frame(State(), fftWindow)
      ensures forall k :: 0 <= k < FftSize ==> imaginary[k] == 0.0
    {
      ghost var before := State();
      AssembleColumns(inputData);
      savedSamplesIndex := (savedSamplesIndex + 1) % NumSegments;
      forall k | 0 <= k < imaginary.Length {
        imaginary[k] := 0.0;
      }
      FrameOfColumns(before, Decimate(inputData), fftWindow, realPart[..]);
    }
  }
}
