/**
 * The fundamental-frequency detector `getPeakFreq`: find the strongest bin of
 * the byte spectrum, then look for a sub-harmonic of it (the peak index divided
 * by 2..6, give or take two bins) strong enough to be the true fundamental.
 */
module PeakPicker {
  import opened ByteSpectrum
  import Bins

  datatype Option<T> = None | Some(value: T)

  /** Bin offsets tried around each sub-harmonic guess, in the order they are tried. */
  const Slop: seq<int> := [0, -1, 1, -2, 2]

  /** The divisors tried: `peakIndex / 2` up to `peakIndex / 6`. */
  const MinDivisor: nat := 2
  const MaxDivisor: nat := 6

  /** `k` is the first index at which `a` takes its maximum. */
  ghost predicate IsFirstMax(a: seq<uint8>, k: nat)
  {
    && k < |a|
    && (forall j :: 0 <= j < |a| ==> a[j] <= a[k])
    && (forall j :: 0 <= j < k ==> a[j] < a[k])
  }

  /** A sequence has one first maximum. */
  lemma FirstMaxUnique(a: seq<uint8>, k1: nat, k2: nat)
    requires IsFirstMax(a, k1) && IsFirstMax(a, k2)
    ensures k1 == k2
  {
    assert a[k1] <= a[k2] && a[k2] <= a[k1];
  }

  /** The bin the initial scan settles on (`peakIndex`). */
  function FirstMax(a: seq<uint8>): (k: nat)
    requires |a| > 0
    ensures k < |a|
    ensures IsFirstMax(a, k)
  {
    if |a| == 1 then 0
    else
      var k := FirstMax(a[..|a| - 1]);
      if a[|a| - 1] > a[k] then |a| - 1 else k
  }

  /** The bins (`testIndex`) probed around the sub-harmonic guess `base`, in order. */
  function Probes(base: int): (ps: seq<int>)
    ensures |ps| == |Slop|
  {
    seq(|Slop|, j requires 0 <= j < |Slop| => base + Slop[j])
  }

  /**
   * The probe at slop entry `j` is the source's `Math.floor(peakIndex/i + slop[j])`:
   * for a non-negative index, adding a whole number commutes with the floor.
   */
  lemma ProbeIsFloor(peakIndex: nat, i: nat, j: nat)
    requires i > 0 && j < |Slop|
    ensures Probes(peakIndex / i)[j] == ((peakIndex as real) / (i as real) + (Slop[j] as real)).Floor
  {
    var q := peakIndex / i;
    var x := (peakIndex as real) / (i as real);
    assert peakIndex == q * i + peakIndex % i;
    assert (q as real) * (i as real) <= peakIndex as real < (q as real + 1.0) * (i as real);
    assert x * (i as real) == peakIndex as real;
    Bins.UnscaleStrict(x, q as real + 1.0, i as real);
    if x < q as real {
      Bins.ScaleStrict(x, q as real, i as real);
    }
    var y := x + (Slop[j] as real);
    assert (q + Slop[j]) as real <= y < (q + Slop[j] + 1) as real;
    assert Probes(q)[j] == q + Slop[j];
  }

  /**
   * Bin `t` lies inside the spectrum and its value exceeds 60% of the peak.
   * On whole numbers, `a[t] > 0.6 * peak` is `5 * a[t] > 3 * peak`.
   */
  predicate Qualifies(a: seq<uint8>, peak: uint8, t: int)
    ensures Qualifies(a, peak, t) <==> 0 <= t < |a| && (a[t] as real) > 0.6 * (peak as real)
  {
    0 <= t < |a| && 5 * (a[t] as int) > 3 * (peak as int)
  }

  /** `foundPeak`: the value of the probe chosen so far in this round, 0 before any. */
  function FoundPeak(a: seq<uint8>, best: Option<nat>): (found: int)
    requires best.Some? ==> best.value < |a|
    ensures 0 <= found < 256
  {
    if best.None? then 0 else a[best.value] as int
  }

  /**
   * The bin chosen by the first `n` probes of one divisor round: a probe
   * replaces the current choice when it qualifies and is strictly larger
   * than `foundPeak`.
   */
  function BestProbe(a: seq<uint8>, peak: uint8, probes: seq<int>, n: nat): (best: Option<nat>)
    requires n <= |probes|
    ensures best.Some? ==> Qualifies(a, peak, best.value)
  {
    if n == 0 then None
    else
      var prev := BestProbe(a, peak, probes, n - 1);
      var t := probes[n - 1];
      if Qualifies(a, peak, t) && a[t] as int > FoundPeak(a, prev) then Some(t as nat) else prev
  }

  /**
   * `newPeakIndex` after the divisor rounds 2..d: a round that chooses a probe
   * overrides whatever the earlier rounds chose.
   */
  function Corrected(a: seq<uint8>, p: nat, peak: uint8, d: nat): (r: nat)
    ensures r == p || Qualifies(a, peak, r)
  {
    if d < MinDivisor then p
    else match BestProbe(a, peak, Probes(p / d), |Slop|)
      case Some(t) => t
      case None => Corrected(a, p, peak, d - 1)
  }

  /**
   * The bin `getPeakFreq` reports. It lies in the spectrum, and when it is not
   * the first maximum it is one of the probes `peakIndex / i + slop` and
   * exceeds 60% of the peak. An empty spectrum gives bin 0, since every probe
   * of it is out of range.
   */
  function PeakBin(a: seq<uint8>): (r: nat)
    ensures |a| == 0 ==> r == 0
    ensures |a| > 0 ==> r < |a|
    ensures |a| > 0 && r != FirstMax(a) ==>
      && 5 * (a[r] as int) > 3 * (a[FirstMax(a)] as int)
      && exists i: nat, j: nat :: MinDivisor <= i <= MaxDivisor && j < |Slop| && r == Probes(FirstMax(a) / i)[j]
  {
    if |a| == 0 then 0
    else
      CorrectedIsProbe(a, FirstMax(a), a[FirstMax(a)], MaxDivisor);
      Corrected(a, FirstMax(a), a[FirstMax(a)], MaxDivisor)
  }

  /**
   * Probe `w` wins among the first `n` probes of a round: it qualifies, no
   * qualifying probe is larger, and every qualifying probe tried before it is
   * smaller.
   */
  ghost predicate IsWinningProbe(a: seq<uint8>, peak: uint8, probes: seq<int>, n: nat, w: nat)
  {
    && w < n <= |probes|
    && Qualifies(a, peak, probes[w])
    && (forall j :: 0 <= j < n && Qualifies(a, peak, probes[j]) ==> a[probes[j]] <= a[probes[w]])
    && (forall j :: 0 <= j < w && Qualifies(a, peak, probes[j]) ==> a[probes[j]] < a[probes[w]])
  }

  /** A round has at most one winning probe. */
  lemma WinningProbeUnique(a: seq<uint8>, peak: uint8, probes: seq<int>, n: nat, w1: nat, w2: nat)
    requires IsWinningProbe(a, peak, probes, n, w1) && IsWinningProbe(a, peak, probes, n, w2)
    ensures w1 == w2
  {
    assert a[probes[w1]] <= a[probes[w2]] && a[probes[w2]] <= a[probes[w1]];
  }

  /** A chosen probe is no larger than the largest probe tried. */
  lemma {:induction false} BestProbeAtMost(a: seq<uint8>, peak: uint8, probes: seq<int>, n: nat, bound: int)
    requires n <= |probes|
    requires forall j :: 0 <= j < n ==> probes[j] <= bound
    ensures BestProbe(a, peak, probes, n).Some? ==> BestProbe(a, peak, probes, n).value <= bound
  {
    if n > 0 {
      BestProbeAtMost(a, peak, probes, n - 1, bound);
    }
  }

  /** A round chooses nothing exactly when none of its probes qualifies. */
  lemma {:induction false} BestProbeNone(a: seq<uint8>, peak: uint8, probes: seq<int>, n: nat)
    requires n <= |probes|
    ensures BestProbe(a, peak, probes, n).None? <==>
      forall j :: 0 <= j < n ==> !Qualifies(a, peak, probes[j])
  {
    if n > 0 {
      BestProbeNone(a, peak, probes, n - 1);
      var t := probes[n - 1];
      if Qualifies(a, peak, t) {
        assert a[t] as int > 0;
      }
    }
  }

  /** A round that chooses a probe chooses its winning probe. */
  lemma {:induction false} BestProbeWinner(a: seq<uint8>, peak: uint8, probes: seq<int>, n: nat)
    requires n <= |probes|
    requires BestProbe(a, peak, probes, n).Some?
    ensures exists w: nat :: IsWinningProbe(a, peak, probes, n, w) && BestProbe(a, peak, probes, n).value == probes[w]
  {
    var prev := BestProbe(a, peak, probes, n - 1);
    var t := probes[n - 1];
    BestProbeNone(a, peak, probes, n - 1);
    if Qualifies(a, peak, t) && a[t] as int > FoundPeak(a, prev) {
      if prev.Some? {
        BestProbeWinner(a, peak, probes, n - 1);
      }
      assert IsWinningProbe(a, peak, probes, n, n - 1);
    } else {
      BestProbeWinner(a, peak, probes, n - 1);
      var w: nat :| IsWinningProbe(a, peak, probes, n - 1, w) && prev.value == probes[w];
      assert IsWinningProbe(a, peak, probes, n, w);
    }
  }

  /** A changed peak index is one of the probes of some round up to `d`. */
  lemma {:induction false} CorrectedIsProbe(a: seq<uint8>, p: nat, peak: uint8, d: nat)
    ensures Corrected(a, p, peak, d) != p ==>
      exists i: nat, j: nat :: MinDivisor <= i <= d && j < |Slop| && Corrected(a, p, peak, d) == Probes(p / i)[j]
  {
    if d >= MinDivisor {
      var best := BestProbe(a, peak, Probes(p / d), |Slop|);
      if best.Some? {
        BestProbeWinner(a, peak, Probes(p / d), |Slop|);
      } else {
        CorrectedIsProbe(a, p, peak, d - 1);
      }
    }
  }

  /** When no round up to `d` has a qualifying probe, the peak index stands. */
  lemma {:induction false} CorrectedUnchanged(a: seq<uint8>, p: nat, peak: uint8, d: nat)
    requires forall e, j :: MinDivisor <= e <= d && 0 <= j < |Slop| ==> !Qualifies(a, peak, Probes(p / e)[j])
    ensures Corrected(a, p, peak, d) == p
  {
    if d >= MinDivisor {
      BestProbeNone(a, peak, Probes(p / d), |Slop|);
      CorrectedUnchanged(a, p, peak, d - 1);
    }
  }

  /**
   * The last round (largest divisor) up to `d` with a qualifying probe
   * decides, and it decides for its winning probe.
   */
  lemma {:induction false} CorrectedLastRound(a: seq<uint8>, p: nat, peak: uint8, d: nat, e: nat, w: nat)
    requires MinDivisor <= e <= d
    requires IsWinningProbe(a, peak, Probes(p / e), |Slop|, w)
    requires forall e', j :: e < e' <= d && 0 <= j < |Slop| ==> !Qualifies(a, peak, Probes(p / e')[j])
    ensures Corrected(a, p, peak, d) == Probes(p / e)[w]
    decreases d
  {
    BestProbeNone(a, peak, Probes(p / d), |Slop|);
    if d == e {
      BestProbeWinner(a, peak, Probes(p / e), |Slop|);
      var w': nat :| IsWinningProbe(a, peak, Probes(p / e), |Slop|, w') &&
        BestProbe(a, peak, Probes(p / e), |Slop|).value == Probes(p / e)[w'];
      WinningProbeUnique(a, peak, Probes(p / e), |Slop|, w, w');
    } else {
      CorrectedLastRound(a, p, peak, d - 1, e, w);
    }
  }

  /**
   * A lone spike at the first maximum `k`, with no qualifying sub-harmonic
   * probe, is reported unchanged.
   */
  lemma LoneSpikeUnchanged(a: seq<uint8>, k: nat)
    requires |a| > 0 && k == FirstMax(a)
    requires forall e, j :: MinDivisor <= e <= MaxDivisor && 0 <= j < |Slop| ==> !Qualifies(a, a[k], Probes(k / e)[j])
    ensures PeakBin(a) == k
  {
    CorrectedUnchanged(a, k, a[k], MaxDivisor);
  }

  /**
   * Otherwise the largest divisor `e` that has a qualifying probe decides:
   * the result is its largest qualifying probe, the earliest in slop order on
   * ties.
   */
  lemma LargestDivisorWins(a: seq<uint8>, k: nat, e: nat, w: nat)
    requires |a| > 0 && k == FirstMax(a) && MinDivisor <= e <= MaxDivisor
    requires IsWinningProbe(a, a[k], Probes(k / e), |Slop|, w)
    requires forall e', j :: e < e' <= MaxDivisor && 0 <= j < |Slop| ==> !Qualifies(a, a[k], Probes(k / e')[j])
    ensures PeakBin(a) == Probes(k / e)[w]
  {
    CorrectedLastRound(a, k, a[k], MaxDivisor, e, w);
  }

  /** No round with a divisor in `lo+1..hi` has a qualifying probe. */
  ghost predicate RoundsQuiet(a: seq<uint8>, p: nat, peak: uint8, lo: nat, hi: int)
  {
    forall e, j :: lo < e <= hi && 0 <= j < |Slop| ==> !Qualifies(a, peak, Probes(p / e)[j])
  }

  /**
   * Round `e` is the last of rounds 2..d with a qualifying probe, and its
   * winning probe is `w`.
   */
  ghost predicate RoundDecides(a: seq<uint8>, p: nat, peak: uint8, d: nat, e: nat, w: nat)
  {
    && MinDivisor <= e <= d
    && IsWinningProbe(a, peak, Probes(p / e), |Slop|, w)
    && RoundsQuiet(a, p, peak, e, d)
  }

  /** A quiet range of rounds stays quiet when a quiet round `d` is added. */
  lemma QuietExtends(a: seq<uint8>, p: nat, peak: uint8, lo: nat, d: nat)
    requires lo < d && RoundsQuiet(a, p, peak, lo, d - 1)
    requires forall j :: 0 <= j < |Slop| ==> !Qualifies(a, peak, Probes(p / d)[j])
    ensures RoundsQuiet(a, p, peak, lo, d)
  {
  }

  /**
   * Every run of rounds 2..d ends one of two ways: no round has a qualifying
   * probe and the peak index stands, or the last round with a qualifying
   * probe decides for its winning probe.
   */
  lemma {:induction false} CorrectedCases(a: seq<uint8>, p: nat, peak: uint8, d: nat)
    ensures
      || (RoundsQuiet(a, p, peak, MinDivisor - 1, d) && Corrected(a, p, peak, d) == p)
      || (exists e: nat, w: nat :: RoundDecides(a, p, peak, d, e, w) && Corrected(a, p, peak, d) == Probes(p / e)[w])
    decreases d
  {
    if d >= MinDivisor {
      var probes := Probes(p / d);
      BestProbeNone(a, peak, probes, |Slop|);
      if BestProbe(a, peak, probes, |Slop|).Some? {
        BestProbeWinner(a, peak, probes, |Slop|);
        var w: nat :| IsWinningProbe(a, peak, probes, |Slop|, w) && BestProbe(a, peak, probes, |Slop|).value == probes[w];
        assert RoundDecides(a, p, peak, d, d, w);
      } else {
        assert Corrected(a, p, peak, d) == Corrected(a, p, peak, d - 1);
        CorrectedCases(a, p, peak, d - 1);
        if RoundsQuiet(a, p, peak, MinDivisor - 1, d - 1) && Corrected(a, p, peak, d - 1) == p {
          QuietExtends(a, p, peak, MinDivisor - 1, d);
        } else {
          var e: nat, w: nat :| RoundDecides(a, p, peak, d - 1, e, w) && Corrected(a, p, peak, d - 1) == Probes(p / e)[w];
          QuietExtends(a, p, peak, e, d);
        }
      }
    }
  }

  /**
   * The whole of `getPeakFreq`'s choice: a non-empty spectrum is reported at
   * its first maximum `k` when no divisor has a qualifying probe, and
   * otherwise at the winning probe of the largest divisor that has one.
   */
  lemma PeakBinCases(a: seq<uint8>)
    requires |a| > 0
    ensures var k := FirstMax(a);
      || (RoundsQuiet(a, k, a[k], MinDivisor - 1, MaxDivisor) && PeakBin(a) == k)
      || (exists e: nat, w: nat :: RoundDecides(a, k, a[k], MaxDivisor, e, w) && PeakBin(a) == Probes(k / e)[w])
  {
    CorrectedCases(a, FirstMax(a), a[FirstMax(a)], MaxDivisor);
  }

  /**
   * A spectrum holding a fundamental at bin `k` and a stronger harmonic at
   * bin `2k`, with every other bin silent.
   */
  ghost predicate FundamentalAndHarmonic(a: seq<uint8>, k: nat)
  {
    && 2 * k < |a|
    && a[k] < a[2 * k]
    && (forall t :: 0 <= t < |a| && t != k && t != 2 * k ==> a[t] == 0)
  }

  /** The scan settles on the harmonic. */
  lemma HarmonicIsFirstMax(a: seq<uint8>, k: nat)
    requires FundamentalAndHarmonic(a, k)
    ensures FirstMax(a) == 2 * k
  {
    assert IsFirstMax(a, 2 * k);
    FirstMaxUnique(a, 2 * k, FirstMax(a));
  }

  /**
   * From bin 2 on, no probe of the harmonic's divisor rounds reaches back up
   * to the harmonic, except the first round's for `k == 2`; so a round that
   * chooses a probe chooses the fundamental.
   */
  lemma RoundFindsOnlyFundamental(a: seq<uint8>, k: nat, e: nat)
    requires FundamentalAndHarmonic(a, k) && k >= 2
    requires MinDivisor <= e <= MaxDivisor && !(e == 2 && k == 2)
    ensures BestProbe(a, a[2 * k], Probes(2 * k / e), |Slop|).None? ||
      BestProbe(a, a[2 * k], Probes(2 * k / e), |Slop|).value == k
  {
    var base := 2 * k / e;
    assert base + 2 < 2 * k by {
      if e == 2 {
        assert base == k;
      } else {
        assert base <= 2 * k / 3;
      }
    }
    BestProbeAtMost(a, a[2 * k], Probes(base), |Slop|, base + 2);
    var best := BestProbe(a, a[2 * k], Probes(base), |Slop|);
    if best.Some? {
      assert a[best.value] != 0;
    }
  }

  /**
   * When every round from `e0` up to `d` chooses nothing or bin `k`, and round
   * `e0` chooses something, the index after round `d` is `k`.
   */
  lemma {:induction false} CorrectedSettlesOn(a: seq<uint8>, p: nat, peak: uint8, k: nat, d: nat, e0: nat)
    requires MinDivisor <= e0 <= d
    requires BestProbe(a, peak, Probes(p / e0), |Slop|).Some?
    requires forall e :: e0 <= e <= d ==>
      BestProbe(a, peak, Probes(p / e), |Slop|).None? || BestProbe(a, peak, Probes(p / e), |Slop|).value == k
    ensures Corrected(a, p, peak, d) == k
    decreases d
  {
    if BestProbe(a, peak, Probes(p / d), |Slop|).None? {
      CorrectedSettlesOn(a, p, peak, k, d - 1, e0);
    }
  }

  /**
   * The purpose of the correction: a fundamental at bin `k >= 2` above 60% of
   * a stronger harmonic at bin `2k` is reported, not the harmonic.
   */
  lemma FundamentalUnderHarmonic(a: seq<uint8>, k: nat)
    requires FundamentalAndHarmonic(a, k) && k >= 2
    requires 5 * (a[k] as int) > 3 * (a[2 * k] as int)
    ensures PeakBin(a) == k
  {
    HarmonicIsFirstMax(a, k);
    var p, peak := 2 * k, a[2 * k];
    var e0: nat := if k == 2 then 3 else 2;
    var j: nat := if k == 2 then 2 else 0;
    assert Probes(p / e0)[j] == k;
    BestProbeNone(a, peak, Probes(p / e0), |Slop|);
    forall e | e0 <= e <= MaxDivisor
      ensures BestProbe(a, peak, Probes(p / e), |Slop|).None? || BestProbe(a, peak, Probes(p / e), |Slop|).value == k
    {
      RoundFindsOnlyFundamental(a, k, e);
    }
    CorrectedSettlesOn(a, p, peak, k, MaxDivisor, e0);
  }

  /**
   * The threshold is strict: a fundamental at exactly 60% of the harmonic is
   * not chosen, and the harmonic is reported.
   */
  lemma ExactlySixtyPercentRejected(a: seq<uint8>, k: nat)
    requires FundamentalAndHarmonic(a, k)
    requires 5 * (a[k] as int) == 3 * (a[2 * k] as int)
    ensures PeakBin(a) == 2 * k
  {
    HarmonicIsFirstMax(a, k);
  }

  /** A harmonic of 255 over a fundamental of 153 at bin 2: bin 4 is reported. */
  lemma ExactlySixtyPercentExample()
    ensures PeakBin([0, 0, 153, 0, 255]) == 4
  {
    ExactlySixtyPercentRejected([0, 0, 153, 0, 255], 2);
  }

  /**
   * For a fundamental at bin 1 the correction fails: the last divisor's
   * probes reach the harmonic at bin 2 itself, and the larger value wins.
   */
  lemma FundamentalAtBinOneLost(a: seq<uint8>)
    requires FundamentalAndHarmonic(a, 1)
    ensures PeakBin(a) == 2
  {
    HarmonicIsFirstMax(a, 1);
    var peak := a[2];
    var probes := Probes(2 / MaxDivisor);
    assert probes[4] == 2;
    BestProbeNone(a, peak, probes, |Slop|);
    BestProbeWinner(a, peak, probes, |Slop|);
    var w: nat :| IsWinningProbe(a, peak, probes, |Slop|, w) &&
      BestProbe(a, peak, probes, |Slop|).value == probes[w];
    assert a[probes[w]] != 0;
  }

  /** The spectrum `[0, 200, 255]`: the fundamental at bin 1 is lost to bin 2. */
  lemma FundamentalAtBinOneExample()
    ensures PeakBin([0, 200, 255]) == 2
  {
    FundamentalAtBinOneLost([0, 200, 255]);
  }

  /**
   * The initial scan of `getPeakFreq`: the first maximum of the spectrum and
   * its value. An empty spectrum has no first element; its peak value is never
   * compared, because every probe of it is out of range, and 0 stands for it.
   */
  method ScanPeak(dataArray: seq<uint8>) returns (peakIndex: nat, peak: uint8)
    ensures |dataArray| > 0 ==> peakIndex == FirstMax(dataArray) && peak == dataArray[peakIndex]
    ensures |dataArray| == 0 ==> peakIndex == 0 && peak == 0
  {
    peak := if |dataArray| > 0 then dataArray[0] else 0;
    peakIndex := 0;
    var i := 1;
    while i < |dataArray|
      invariant |dataArray| > 0 ==> 1 <= i <= |dataArray| && peakIndex < i && peak == dataArray[peakIndex]
      invariant |dataArray| > 0 ==> forall k :: 0 <= k < i ==> dataArray[k] <= peak
      invariant |dataArray| > 0 ==> forall k :: 0 <= k < peakIndex ==> dataArray[k] < peak
      invariant |dataArray| == 0 ==> peakIndex == 0 && peak == 0
    {
      if dataArray[i] > peak {
        peakIndex := i;
        peak := dataArray[i];
      }
      i := i + 1;
    }
    if |dataArray| > 0 {
      FirstMaxUnique(dataArray, peakIndex, FirstMax(dataArray));
    }
  }

  /**
   * `getPeakFreq` up to the conversion to Hz: the scan for the first maximum,
   * then the divisor rounds 2..6 over the slop offsets, skipping probes outside
   * the spectrum.
   */
  method GetPeakBin(dataArray: seq<uint8>) returns (newPeakIndex: nat)
    ensures newPeakIndex == PeakBin(dataArray)
  {
    var peakIndex, peak := ScanPeak(dataArray);
    newPeakIndex := peakIndex;
    var d := MinDivisor;
    while d <= MaxDivisor
      invariant MinDivisor <= d <= MaxDivisor + 1
      invariant newPeakIndex == Corrected(dataArray, peakIndex, peak, d - 1)
    {
      ghost var before := newPeakIndex;
      ghost var probes := Probes(peakIndex / d);
      var foundPeak := 0;
      var j := 0;
      while j < |Slop|
        invariant 0 <= j <= |Slop|
        invariant foundPeak == FoundPeak(dataArray, BestProbe(dataArray, peak, probes, j))
        invariant BestProbe(dataArray, peak, probes, j).None? ==> newPeakIndex == before
        invariant BestProbe(dataArray, peak, probes, j).Some? ==>
          newPeakIndex == BestProbe(dataArray, peak, probes, j).value
      {
        var testIndex := peakIndex / d + Slop[j];
        assert testIndex == probes[j];
        if 0 <= testIndex < |dataArray| {
          if 5 * (dataArray[testIndex] as int) > 3 * (peak as int) && dataArray[testIndex] as int > foundPeak {
            newPeakIndex := testIndex;
            foundPeak := dataArray[testIndex] as int;
          }
        }
        j := j + 1;
      }
      assert newPeakIndex == Corrected(dataArray, peakIndex, peak, d);
      d := d + 1;
    }
  }

  /** `getPeakFreq`: the centre frequency of the reported bin. */
  method GetPeakFreq(dataArray: seq<uint8>, hzPerBin: real) returns (peakFreq: real)
    requires hzPerBin > 0.0
    ensures peakFreq == Bins.BinToHz(PeakBin(dataArray), hzPerBin)
  {
    var bin := GetPeakBin(dataArray);
    peakFreq := Bins.BinToHz(bin, hzPerBin);
  }
}
