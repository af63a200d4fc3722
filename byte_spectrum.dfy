/**
 * The byte spectrum `freqDataArray`: each smoothed bin magnitude, in decibels,
 * is clamped to a decibel range and rescaled onto the bytes 0..255 that the
 * display and the peak picker read.
 */
module ByteSpectrum {

  /** One element of a `Uint8Array`. */
  newtype uint8 = x: int | 0 <= x < 256

  /** The decibel range mapped onto the byte scale (`minDecibels`, `maxDecibels`). */
  const MinDecibels: real := -80.0
  const MaxDecibels: real := -10.0

  /** Bytes per decibel inside the range (`byteScaleFactor`). */
  function ByteScaleFactor(minDecibels: real, maxDecibels: real): (f: real)
    requires minDecibels < maxDecibels
    ensures f > 0.0
    ensures f * (maxDecibels - minDecibels) == 255.0
  {
    255.0 / (maxDecibels - minDecibels)
  }

  /** Inside the range, the rescaled value lies between 0 and 255. */
  lemma ScaledInRange(dB: real, minDecibels: real, maxDecibels: real)
    requires minDecibels <= dB <= maxDecibels && minDecibels < maxDecibels
    ensures 0.0 <= (dB - minDecibels) * ByteScaleFactor(minDecibels, maxDecibels) <= 255.0
  {
    var f := ByteScaleFactor(minDecibels, maxDecibels);
    assert (dB - minDecibels) * f <= (maxDecibels - minDecibels) * f;
  }

  /**
   * The byte stored for a bin of `dB` decibels: 0 below the floor, 255 above
   * the ceiling, and otherwise the linear rescaling, truncated as storing a
   * non-negative number into a `Uint8Array` truncates it.
   */
  function DecibelsToByte(dB: real, minDecibels: real, maxDecibels: real): (b: uint8)
    requires minDecibels < maxDecibels
    ensures dB < minDecibels ==> b == 0
    ensures dB > maxDecibels ==> b == 255
    ensures minDecibels <= dB <= maxDecibels ==>
      b as real <= (dB - minDecibels) * ByteScaleFactor(minDecibels, maxDecibels) < b as real + 1.0
  {
    if dB < minDecibels then 0
    else if dB > maxDecibels then 255
    else
      ScaledInRange(dB, minDecibels, maxDecibels);
      ((dB - minDecibels) * ByteScaleFactor(minDecibels, maxDecibels)).Floor as uint8
  }

  /**
   * On the app's range of -80 to -10 decibels a byte step is 70/255 of a
   * decibel, and the middle of the range, -45 decibels, maps to 127.
   */
  lemma AppRange()
    ensures ByteScaleFactor(MinDecibels, MaxDecibels) == 255.0 / 70.0
    ensures DecibelsToByte(-45.0, MinDecibels, MaxDecibels) == 127
    ensures DecibelsToByte(MinDecibels, MinDecibels, MaxDecibels) == 0
    ensures DecibelsToByte(MaxDecibels, MinDecibels, MaxDecibels) == 255
  {
    DecibelsToByteAtBounds(MinDecibels, MaxDecibels);
  }

  /** A louder bin never gets a smaller byte. */
  lemma DecibelsToByteMonotone(dB1: real, dB2: real, minDecibels: real, maxDecibels: real)
    requires minDecibels < maxDecibels && dB1 <= dB2
    ensures DecibelsToByte(dB1, minDecibels, maxDecibels) <= DecibelsToByte(dB2, minDecibels, maxDecibels)
  {
    var f := ByteScaleFactor(minDecibels, maxDecibels);
    if minDecibels <= dB1 && dB2 <= maxDecibels {
      var x1, x2 := (dB1 - minDecibels) * f, (dB2 - minDecibels) * f;
      var b1, b2 := DecibelsToByte(dB1, minDecibels, maxDecibels), DecibelsToByte(dB2, minDecibels, maxDecibels);
      assert x1 <= x2;
      assert b1 as real <= x1 && x2 < b2 as real + 1.0;
    }
  }

  /** The three branches meet: the floor maps to 0 and the ceiling to 255. */
  lemma DecibelsToByteAtBounds(minDecibels: real, maxDecibels: real)
    requires minDecibels < maxDecibels
    ensures DecibelsToByte(minDecibels, minDecibels, maxDecibels) == 0
    ensures DecibelsToByte(maxDecibels, minDecibels, maxDecibels) == 255
  {
  }
}
