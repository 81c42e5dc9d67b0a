/** SparseBitLongIndex: a Java long read as eight unsigned bytes, the least significant
    byte at level 0. */
module LongIndex {
  import opened Errors
  import opened SparseBitUtil
  import opened Arith
  import opened Keys

  /** `Long.BYTES`: a long index spans eight tiers. */
  const LEVELS: int := 8

  datatype LongIndex = LongIndex(index: Int64)

  /** `BYTE_MASK & (int) (v >> 8k)`: shift, narrow to int, keep the low byte. */
  function ByteOf(v: Int64, k: nat): (r: Byte)
    requires k < 8
    ensures r == DigitOf(Unsigned(v, 64), k)
  {
    JavaByteIsDigit(v, 64, k);
    ByteMask(ToInt32(ShiftRight(v, 8 * k)))
  }

  /** `segment(level)`: byte `level` of the value read as unsigned; any other level is out
      of bounds. */
  function Segment(ix: LongIndex, level: int): (r: Result<int>)
    ensures r.Ok? <==> 0 <= level < LEVELS
    ensures r.Fail? ==> r.error == IndexOutOfBounds
    ensures r.Ok? ==> r.value == DigitOf(Unsigned(ix.index, 64), level)
  {
    var x := ix.index;
    match level
    case 7 => Ok(ByteOf(x, 7))
    case 6 => Ok(ByteOf(x, 6))
    case 5 => Ok(ByteOf(x, 5))
    case 4 => Ok(ByteOf(x, 4))
    case 3 => Ok(ByteOf(x, 3))
    case 2 => Ok(ByteOf(x, 2))
    case 1 => Ok(ByteOf(x, 1))
    case 0 => Ok(ByteOf(x, 0))
    case _ => Fail(IndexOutOfBounds)
  }

  /** The eight segments as the tree reads them. */
  function Key(ix: LongIndex): (k: Key)
    ensures |k| == LEVELS
    ensures forall l | 0 <= l < LEVELS :: Segment(ix, l) == Ok(k[l])
  {
    [Segment(ix, 0).value, Segment(ix, 1).value, Segment(ix, 2).value, Segment(ix, 3).value,
     Segment(ix, 4).value, Segment(ix, 5).value, Segment(ix, 6).value, Segment(ix, 7).value]
  }

  /** The long whose segments are k: the reference inverse of Key. */
  function Decode(k: Key): (x: Int64)
    requires |k| == LEVELS
  {
    Pow2Literals();
    FromDigitsBound(k);
    Signed(FromDigits(k), 64)
  }

  /** The segments spell the value read as unsigned: the sum of segment(l) * 256^l. */
  lemma KeyValue(ix: LongIndex)
    ensures FromDigits(Key(ix)) == Unsigned(ix.index, 64)
  {
    Pow2Bytes(8);
    DigitsDetermine(Key(ix), Unsigned(ix.index, 64));
  }

  /** The key is the eight low base-256 digits of the unsigned value. */
  lemma KeyIsDigits(ix: LongIndex)
    ensures Key(ix) == Digits(Unsigned(ix.index, 64), 8)
  {
    KeyValue(ix);
    DigitsOfFromDigits(Key(ix));
  }

  /** Decoding the segments gives the long back. */
  lemma DecodeKey(ix: LongIndex)
    ensures Decode(Key(ix)) == ix.index
  {
    KeyValue(ix);
    Pow2Literals();
    SignedRoundTrip(ix.index, 64);
  }

  /** Every eight-segment key is the key of exactly the long it decodes to. */
  lemma KeyDecode(k: Key)
    requires |k| == LEVELS
    ensures Key(LongIndex(Decode(k))) == k
  {
    Pow2Literals();
    var u := FromDigits(k);
    FromDigitsBound(k);
    DivUnique(u, Pow2(64), 0, u);
    assert Unsigned(Decode(k), 64) == u;
    DigitsOfFromDigits(k);
    forall l | 0 <= l < LEVELS
      ensures Key(LongIndex(Decode(k)))[l] == k[l]
    {
      DigitsAt(u, LEVELS, l);
    }
  }

  /** A negative long has its sign bit in the top segment, which reads 0x80 or more. */
  lemma NegativeTopSegment(ix: LongIndex)
    requires ix.index < 0
    ensures Segment(ix, 7).Ok? && Segment(ix, 7).value >= 0x80
  {
    Pow2Literals();
    var u := Unsigned(ix.index, 64);
    DivUnique(ix.index, Pow2(64), -1, ix.index + Pow2(64));
    assert u >= 0x8000_0000_0000_0000;
    Pow2Bytes(7);
    assert Pow2(56) == 0x100_0000_0000_0000 by {
      Pow2Add(56, 8);
    }
    var q := u / Pow256(7);
    DivUnique(u, Pow256(7), q, u % Pow256(7));
    assert 0x80 <= q < 0x100;
    DivUnique(q, 256, 0, q);
  }
}
