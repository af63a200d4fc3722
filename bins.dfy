/**
 * Conversions between frequencies and FFT bins, and the search for the
 * lowest octave of the tonic that the staff display needs.
 */
module Bins {

  /** The bin that contains `hz` (`hzToBin`). */
  function HzToBin(hz: real, hzPerBin: real): (bin: int)
    requires hzPerBin > 0.0
    ensures bin as real * hzPerBin <= hz < (bin + 1) as real * hzPerBin
  {
    var q := hz / hzPerBin;
    var n := q.Floor;
    assert q * hzPerBin == hz;
    assert q < (n + 1) as real;
    ScaleStrict(q, (n + 1) as real, hzPerBin);
    assert hz < (n + 1) as real * hzPerBin;
    assert n as real * hzPerBin <= q * hzPerBin;
    n
  }

  /** Multiplying by a positive factor keeps a strict order. */
  lemma ScaleStrict(x: real, y: real, c: real)
    requires x < y && c > 0.0
    ensures x * c < y * c
  {
  }

  /** A strict order between multiples of a positive factor holds of the multiplicands. */
  lemma UnscaleStrict(x: real, y: real, c: real)
    requires x * c < y * c && c > 0.0
    ensures x < y
  {
  }

  /** The centre frequency of a bin (`binToHz`). */
  function BinToHz(bin: int, hzPerBin: real): (hz: real)
    requires hzPerBin > 0.0
    ensures bin as real * hzPerBin < hz < (bin + 1) as real * hzPerBin
    ensures hz - bin as real * hzPerBin == hzPerBin / 2.0
  {
    (bin as real + 0.5) * hzPerBin
  }

  /** Converting a bin to its centre frequency and back gives the bin again. */
  lemma BinRoundTrip(bin: int, hzPerBin: real)
    requires hzPerBin > 0.0
    ensures HzToBin(BinToHz(bin, hzPerBin), hzPerBin) == bin
  {
    var hz := BinToHz(bin, hzPerBin);
    var b := HzToBin(hz, hzPerBin);
    assert b as real * hzPerBin <= hz < (b + 1) as real * hzPerBin;
    assert bin as real * hzPerBin < hz < (bin + 1) as real * hzPerBin;
    assert b as real * hzPerBin < (bin + 1) as real * hzPerBin;
    UnscaleStrict(b as real, (bin + 1) as real, hzPerBin);
    assert bin as real * hzPerBin < (b + 1) as real * hzPerBin;
    UnscaleStrict(bin as real, (b + 1) as real, hzPerBin);
  }

  /** Quantising a frequency to its bin centre moves it by at most half a bin. */
  lemma HzRoundTrip(hz: real, hzPerBin: real)
    requires hzPerBin > 0.0
    ensures hz - hzPerBin / 2.0 < BinToHz(HzToBin(hz, hzPerBin), hzPerBin) <= hz + hzPerBin / 2.0
  {
  }

  /** 2 to the power `k`. */
  function Pow2(k: nat): (p: real)
    ensures p >= 1.0
  {
    if k == 0 then 1.0 else 2.0 * Pow2(k - 1)
  }

  /**
   * `xposToHz(0)`, the frequency at the display's left edge. It is
   * `pow(maxDisplayedBin/minDisplayedBin, 0) * minDisplayedBin * hzPerBin`,
   * and any number to the power 0 is 1.
   */
  function LeftEdgeHz(minDisplayedBin: int, hzPerBin: real): (edge: real)
    ensures minDisplayedBin > 0 && hzPerBin > 0.0 ==> edge >= hzPerBin > 0.0
  {
    assert minDisplayedBin > 0 && hzPerBin > 0.0 ==> minDisplayedBin as real * hzPerBin >= 1.0 * hzPerBin;
    minDisplayedBin as real * hzPerBin
  }

  /** Halving a ratio above 1 lowers its integer part. */
  lemma HalfFloorDecreases(x: real)
    requires x > 1.0
    ensures 0 <= (x / 2.0).Floor < x.Floor
  {
    var h := (x / 2.0).Floor;
    assert h as real * 2.0 <= x;
    assert 2 * h <= x.Floor;
  }

  /**
   * `calculateLowestOctaveTonicHz`: halves the tonic until it is at or below
   * the left edge of the display. The result is the tonic lowered by whole
   * octaves, at most an octave below the edge (or the tonic itself when it
   * already lies at or below it).
   */
  method CalculateLowestOctaveTonicHz(tonicHz: real, minDisplayedBin: int, hzPerBin: real)
    returns (lowestTonicHz: real)
    requires minDisplayedBin > 0 && hzPerBin > 0.0
    ensures exists k: nat :: lowestTonicHz * Pow2(k) == tonicHz
    ensures lowestTonicHz <= LeftEdgeHz(minDisplayedBin, hzPerBin)
    ensures tonicHz <= LeftEdgeHz(minDisplayedBin, hzPerBin) ==> lowestTonicHz == tonicHz
    ensures tonicHz > LeftEdgeHz(minDisplayedBin, hzPerBin) ==>
      lowestTonicHz > LeftEdgeHz(minDisplayedBin, hzPerBin) / 2.0
  {
    var edge := LeftEdgeHz(minDisplayedBin, hzPerBin);
    assert edge > 0.0;
    lowestTonicHz := tonicHz;
    ghost var k: nat := 0;
    while lowestTonicHz > edge
      invariant lowestTonicHz * Pow2(k) == tonicHz
      invariant tonicHz <= edge ==> lowestTonicHz == tonicHz
      invariant tonicHz > edge ==> lowestTonicHz > edge / 2.0
      decreases (lowestTonicHz / edge).Floor
    {
      assert lowestTonicHz / edge > 1.0;
      HalfFloorDecreases(lowestTonicHz / edge);
      assert (lowestTonicHz / 2.0) / edge == (lowestTonicHz / edge) / 2.0;
      assert (lowestTonicHz / 2.0) * Pow2(k + 1) == lowestTonicHz * Pow2(k);
      lowestTonicHz := lowestTonicHz / 2.0;
      k := k + 1;
    }
  }
}
