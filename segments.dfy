/**
 * The saved-segment store behind the spectrum: the last `numSegments` blocks
 * of decimated audio and the round-robin index of the slot the next block
 * overwrites, and the FFT frame the store stands for: the window applied to
 * the segments concatenated oldest first.
 */
module Segments {

  const FftSize: nat := 2048
  const DownSampleRatio: nat := 8
  const NumSegments: nat := 4

  /** Samples per saved segment: `fftSize/numSegments`, that is 2048 / 4. */
  const SegmentLength: nat := 512

  /** `savedSamples` and `savedSamplesIndex`. */
  datatype Store = Store(segments: seq<seq<real>>, index: nat)

  predicate WellFormed(s: Store)
  {
    && |s.segments| == NumSegments
    && (forall r :: 0 <= r < NumSegments ==> |s.segments[r]| == SegmentLength)
    && s.index < NumSegments
  }

  /** The store as first set up: every segment zero, slot 0 next. */
  function Initial(): (s: Store)
    ensures WellFormed(s)
    ensures s.index == 0
    ensures forall r, c :: 0 <= r < NumSegments && 0 <= c < SegmentLength ==> s.segments[r][c] == 0.0
  {
    Store(seq(NumSegments, r => seq(SegmentLength, c => 0.0)), 0)
  }

  /** Every `downSampleRatio`-th sample of one callback's input. */
  function Decimate(input: seq<real>): (block: seq<real>)
    requires |input| == DownSampleRatio * SegmentLength
    ensures |block| == SegmentLength
    ensures forall c :: 0 <= c < SegmentLength ==> block[c] == input[c * DownSampleRatio]
  {
    seq(SegmentLength, c requires 0 <= c < SegmentLength => input[c * DownSampleRatio])
  }

  /**
   * Saving a block: it overwrites the slot at the index, no other slot
   * changes, and the index moves on to the next slot, wrapping around.
   */
  function Push(s: Store, block: seq<real>): (t: Store)
    requires WellFormed(s) && |block| == SegmentLength
    ensures WellFormed(t)
    ensures t.segments[s.index] == block
    ensures forall r :: 0 <= r < NumSegments && r != s.index ==> t.segments[r] == s.segments[r]
    ensures t.index == (s.index + 1) % NumSegments
  {
    Store(s.segments[s.index := block], (s.index + 1) % NumSegments)
  }

  /** Saving several blocks, first to last. */
  function Run(s: Store, blocks: seq<seq<real>>): (t: Store)
    requires WellFormed(s)
    requires forall b :: 0 <= b < |blocks| ==> |blocks[b]| == SegmentLength
    ensures WellFormed(t)
  {
    if |blocks| == 0 then s
    else Push(Run(s, blocks[..|blocks| - 1]), blocks[|blocks| - 1])
  }

  /** The segments in age order: the slot at the index holds the oldest. */
  function Rotated(s: Store): (ss: seq<seq<real>>)
    requires WellFormed(s)
    ensures |ss| == NumSegments
    ensures forall j :: 0 <= j < NumSegments ==> |ss[j]| == SegmentLength
  {
    seq(NumSegments, j requires 0 <= j < NumSegments => s.segments[(s.index + j) % NumSegments])
  }

  /** The segments laid end to end. */
  function Concat(ss: seq<seq<real>>): seq<real>
  {
    if |ss| == 0 then [] else Concat(ss[..|ss| - 1]) + ss[|ss| - 1]
  }

  /** Each sample multiplied by its window coefficient. */
  function Windowed(x: seq<real>, w: seq<real>): (y: seq<real>)
    requires |x| == |w|
    ensures |y| == |x|
  {
    seq(|x|, k requires 0 <= k < |x| => x[k] * w[k])
  }

  /**
   * The FFT input `real` the store stands for. Frame position `j * seg + c`
   * holds position `c` of the segment `j` places after the one at the index,
   * times its window coefficient: the oldest segment comes first and the
   * newest last.
   */
  function Frame(s: Store, w: seq<real>): (f: seq<real>)
    requires WellFormed(s) && |w| == FftSize
    ensures |f| == FftSize
    ensures forall j, c :: 0 <= j < NumSegments && 0 <= c < SegmentLength ==>
      f[FrameIndex(j, c)] == s.segments[(s.index + j) % NumSegments][c] * w[FrameIndex(j, c)]
  {
    WindowedRotatedLayout(s, w);
    Windowed(Concat(Rotated(s)), w)
  }

  /**
   * Position `c` of segment `j` in the frame (`j*fftSize/numSegments + c`):
   * the frame position whose quotient by the segment length is `j` and whose
   * remainder is `c`.
   */
  function FrameIndex(j: nat, c: nat): (k: nat)
    requires c < SegmentLength
    ensures k / SegmentLength == j && k % SegmentLength == c
    ensures j < NumSegments ==> k < FftSize
  {
    DivModUnique(j * SegmentLength + c, SegmentLength, j, c);
    j * SegmentLength + c
  }

  /**
   * The slot of the segment `j + 1` places after slot `idx`, wrapping around
   * (`(savedSamplesIndex + j + 1) % numSegments`). For the older segments it
   * is never `idx` itself.
   */
  function OlderSlot(idx: nat, j: nat): (r: nat)
    requires idx < NumSegments && j < NumSegments - 1
    ensures r < NumSegments && r != idx
    ensures r == if idx + j + 1 < NumSegments then idx + j + 1 else idx + j + 1 - NumSegments
  {
    ModSmall(idx + j + 1, NumSegments);
    (idx + j + 1) % NumSegments
  }

  /** Quotient and remainder are the only ones: `x == q * n + r` with `0 <= r < n`. */
  lemma DivModUnique(x: int, n: int, q: int, r: int)
    requires n > 0 && 0 <= r < n && x == q * n + r
    ensures x / n == q && x % n == r
  {
    var d := x / n - q;
    assert d * n == r - x % n by {
      assert x == (x / n) * n + x % n;
      assert (x / n - q) * n == (x / n) * n - q * n;
    }
    assert d * n >= n || d * n <= -n || d == 0;
  }

  /** Below twice the modulus, wrapping around subtracts it at most once. */
  lemma ModSmall(x: int, n: int)
    requires n > 0 && 0 <= x < 2 * n
    ensures x % n == if x < n then x else x - n
  {
    if x < n {
      DivModUnique(x, n, 0, x);
    } else {
      DivModUnique(x, n, 1, x - n);
    }
  }

  /** One step on from a remainder is the remainder one step on. */
  lemma ModSucc(x: int, n: int)
    requires n > 0
    ensures (x % n + 1) % n == (x + 1) % n
  {
    var q, r := x / n, x % n;
    DivModUnique(x, n, q, r);
    if r + 1 < n {
      DivModUnique(x + 1, n, q, r + 1);
      DivModUnique(r + 1, n, 0, r + 1);
    } else {
      DivModUnique(x + 1, n, q + 1, 0);
      DivModUnique(r + 1, n, 1, 0);
    }
  }

  /** Fewer than `n` steps on from a slot below `n`, no two slots coincide. */
  lemma SlotsDistinct(a: int, t: int, m: int, n: int)
    requires 0 <= a < n && 0 <= t < m < n
    ensures (a + t) % n != (a + m) % n
  {
    ModSmall(a + t, n);
    ModSmall(a + m, n);
  }

  /** Every frame position is position `k % seg` of segment `k / seg`. */
  lemma FrameIndexOnto(k: nat)
    requires k < FftSize
    ensures k / SegmentLength < NumSegments
    ensures k == FrameIndex(k / SegmentLength, k % SegmentLength)
  {
    assert k == (k / SegmentLength) * SegmentLength + k % SegmentLength;
  }

  lemma {:induction false} ConcatLength(ss: seq<seq<real>>)
    requires forall j :: 0 <= j < |ss| ==> |ss[j]| == SegmentLength
    ensures |Concat(ss)| == |ss| * SegmentLength
  {
    if |ss| > 0 {
      ConcatLength(ss[..|ss| - 1]);
    }
  }

  /** Position `c` of segment `j` of a concatenation is position `c` of `ss[j]`. */
  lemma {:induction false} ConcatAt(ss: seq<seq<real>>, j: nat, c: nat)
    requires forall b :: 0 <= b < |ss| ==> |ss[b]| == SegmentLength
    requires j < |ss| && c < SegmentLength
    ensures FrameIndex(j, c) < |Concat(ss)|
    ensures Concat(ss)[FrameIndex(j, c)] == ss[j][c]
  {
    var init := ss[..|ss| - 1];
    ConcatLength(ss);
    ConcatLength(init);
    if j < |ss| - 1 {
      ConcatAt(init, j, c);
    }
  }

  /** The layout of the windowed concatenation that `Frame` returns. */
  lemma WindowedRotatedLayout(s: Store, w: seq<real>)
    requires WellFormed(s) && |w| == FftSize
    ensures |Concat(Rotated(s))| == FftSize
    ensures forall j, c :: 0 <= j < NumSegments && 0 <= c < SegmentLength ==>
      Windowed(Concat(Rotated(s)), w)[FrameIndex(j, c)] ==
        s.segments[(s.index + j) % NumSegments][c] * w[FrameIndex(j, c)]
  {
    ConcatLength(Rotated(s));
    forall j, c | 0 <= j < NumSegments && 0 <= c < SegmentLength
      ensures Windowed(Concat(Rotated(s)), w)[FrameIndex(j, c)] ==
        s.segments[(s.index + j) % NumSegments][c] * w[FrameIndex(j, c)]
    {
      ConcatAt(Rotated(s), j, c);
    }
  }

  /** After `m` blocks the index has moved `m` slots on, wrapping around. */
  lemma {:induction false} RunIndex(s: Store, blocks: seq<seq<real>>)
    requires WellFormed(s)
    requires forall b :: 0 <= b < |blocks| ==> |blocks[b]| == SegmentLength
    ensures Run(s, blocks).index == (s.index + |blocks|) % NumSegments
  {
    if |blocks| > 0 {
      RunIndex(s, blocks[..|blocks| - 1]);
      ModSucc(s.index + |blocks| - 1, NumSegments);
    }
  }

  /**
   * After at most `numSegments` blocks, the `t`-th block sits `t` slots after
   * the starting index: no later block has overwritten it.
   */
  lemma {:induction false} RunSlot(s: Store, blocks: seq<seq<real>>, t: nat)
    requires WellFormed(s) && |blocks| <= NumSegments
    requires forall b :: 0 <= b < |blocks| ==> |blocks[b]| == SegmentLength
    requires t < |blocks|
    ensures Run(s, blocks).segments[(s.index + t) % NumSegments] == blocks[t]
  {
    var m := |blocks| - 1;
    var init := blocks[..m];
    RunIndex(s, init);
    if t < m {
      RunSlot(s, init, t);
      SlotsDistinct(s.index, t, m, NumSegments);
      assert init[t] == blocks[t];
    }
  }

  /**
   * A full cycle: after `numSegments` blocks the store holds exactly them, in
   * the order they arrived, and its frame is the window applied to their
   * concatenation, whatever was stored before.
   */
  lemma FullCycle(s: Store, blocks: seq<seq<real>>, w: seq<real>)
    requires WellFormed(s) && |blocks| == NumSegments && |w| == FftSize
    requires forall b :: 0 <= b < |blocks| ==> |blocks[b]| == SegmentLength
    ensures Run(s, blocks).index == s.index
    ensures Rotated(Run(s, blocks)) == blocks
    ensures |Concat(blocks)| == FftSize
    ensures Frame(Run(s, blocks), w) == Windowed(Concat(blocks), w)
  {
    RunIndex(s, blocks);
    ConcatLength(blocks);
    ModSmall(s.index + NumSegments, NumSegments);
    forall t | 0 <= t < NumSegments
      ensures Rotated(Run(s, blocks))[t] == blocks[t]
    {
      RunSlot(s, blocks, t);
    }
    assert Rotated(Run(s, blocks)) == blocks;
  }
}
