/** Integer arithmetic of the JVM that the monitor relies on: the range of a
    `long`, Java's truncating integer division, and the byte-to-MB/GB
    conversions used for display and for the memory threshold. */
module Units {

  const LONG_MIN: int := -0x8000_0000_0000_0000
  const LONG_MAX: int := 0x7FFF_FFFF_FFFF_FFFF

  const BYTES_PER_MB: int := 1024 * 1024
  const BYTES_PER_GB: int := 1024 * 1024 * 1024

  /** `x` is representable as a Java `long`. */
  predicate IsLong(x: int) {
    LONG_MIN <= x <= LONG_MAX
  }

  /** Java's `/` on integers for a positive divisor: the exact quotient
      rounded toward zero (Dafny's own `/` rounds toward minus infinity). */
  function TruncDiv(a: int, d: int): (q: int)
    requires d > 0
    ensures a >= 0 ==> 0 <= q && q * d <= a < (q + 1) * d
    ensures a <= 0 ==> q <= 0 && (q - 1) * d < a <= q * d
  {
    if a >= 0 then a / d else -((-a) / d)
  }

  /** `bytesToMb`: whole mebibytes in `bytes`, truncated. */
  function BytesToMb(bytes: int): (mb: int)
    requires IsLong(bytes)
    ensures IsLong(mb)
    ensures bytes >= 0 ==> 0 <= mb && mb * BYTES_PER_MB <= bytes < (mb + 1) * BYTES_PER_MB
    ensures bytes <= 0 ==> mb <= 0 && (mb - 1) * BYTES_PER_MB < bytes <= mb * BYTES_PER_MB
  {
    TruncDiv(bytes, BYTES_PER_MB)
  }

  /** `bytesToGb`: whole gibibytes in `bytes`, truncated. */
  function BytesToGb(bytes: int): (gb: int)
    requires IsLong(bytes)
    ensures IsLong(gb)
    ensures bytes >= 0 ==> 0 <= gb && gb * BYTES_PER_GB <= bytes < (gb + 1) * BYTES_PER_GB
    ensures bytes <= 0 ==> gb <= 0 && (gb - 1) * BYTES_PER_GB < bytes <= gb * BYTES_PER_GB
  {
    TruncDiv(bytes, BYTES_PER_GB)
  }

  /** For a non-negative byte count, comparing its truncated MB figure with a
      whole number of MB is the same as comparing the bytes themselves. */
  lemma MbBelowIff(bytes: int, limitMb: int)
    requires IsLong(bytes) && bytes >= 0 && limitMb >= 0
    ensures BytesToMb(bytes) < limitMb <==> bytes < limitMb * BYTES_PER_MB
  {
    var mb := BytesToMb(bytes);
    if mb < limitMb {
      assert (mb + 1) * BYTES_PER_MB <= limitMb * BYTES_PER_MB;
    } else {
      assert limitMb * BYTES_PER_MB <= mb * BYTES_PER_MB;
    }
  }
}
