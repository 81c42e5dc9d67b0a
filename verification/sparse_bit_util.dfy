/** Constants and segment checks shared by every tier (SparseBitUtil). */
module SparseBitUtil {
  import opened Errors

  /** Every tier has one slot (or one bit) per value of an unsigned byte. */
  const LEVEL_SIZE: int := 256

  /** The mask that turns a Java int into the unsigned value of its low byte. */
  const BYTE_MASK: int := 0xFF

  /** An unsigned segment value, 0..255. */
  type Byte = x: int | 0 <= x < 256

  /** Java's 32-bit and 64-bit two's-complement integers, as integer ranges. */
  const INT_MIN: int := -0x8000_0000
  const LONG_MIN: int := -0x8000_0000_0000_0000
  type Int32 = x: int | -0x8000_0000 <= x < 0x8000_0000
  type Int64 = x: int | -0x8000_0000_0000_0000 <= x < 0x8000_0000_0000_0000
  type Int8 = x: int | -0x80 <= x < 0x80

  /** `BYTE_MASK & x`: the low eight bits of the two's-complement representation of x.
      Taking the remainder modulo 256 with a non-negative result is exactly that. */
  function ByteMask(x: int): (r: Byte)
    ensures (x - r) % 256 == 0
    ensures 0 <= x < 256 ==> r == x
  {
    x % 256
  }

  /** `checkSegment`: a segment an index reports must be a valid slot number. */
  function CheckSegment(segment: int): (r: Result<()>)
    ensures r.Ok? <==> 0 <= segment < LEVEL_SIZE
    ensures r.Fail? ==> r.error == IllegalArgument
  {
    if segment < 0 || segment >= LEVEL_SIZE then Fail(IllegalArgument) else Ok(())
  }

  /** `checkSegments`: the bounds of a range on one tier must both be slot numbers, in order. */
  function CheckSegments(segmentFrom: int, segmentTo: int): (r: Result<()>)
    ensures r.Ok? <==> 0 <= segmentFrom <= segmentTo < LEVEL_SIZE
    ensures r.Fail? ==> r.error == IllegalArgument
  {
    if segmentFrom < 0 then Fail(IllegalArgument)
    else if segmentTo >= LEVEL_SIZE then Fail(IllegalArgument)
    else if segmentFrom > segmentTo then Fail(IllegalArgument)
    else Ok(())
  }
}
