/** SparseBitIntIndex: a Java int read as four unsigned bytes, the least significant
    byte at level 0. */
module IntIndex {
  import opened Errors
  import opened SparseBitUtil
  import opened Arith
  import opened Keys

  /** `Integer.BYTES`: an int index spans four tiers. */
  const LEVELS: int := 4

  datatype IntIndex = IntIndex(index: Int32)

  /** `segment(level)`: byte `level` of the value, counted from the least significant end
      and read as unsigned; any other level is out of bounds. */
  function Segment(ix: IntIndex, level: int): (r: Result<int>)
    ensures r.Ok? <==> 0 <= level < LEVELS
    ensures r.Fail? ==> r.error == IndexOutOfBounds
    ensures r.Ok? ==> r.value == DigitOf(Unsigned(ix.index, 32), level)
  {
    var x := ix.index;
    MaskedByteIsDigit(x, 32, 0);
    MaskedByteIsDigit(x, 32, 1);
    MaskedByteIsDigit(x, 32, 2);
    MaskedByteIsDigit(x, 32, 3);
    assert ShiftRight(x, 0) == x;
    match level
    case 3 => Ok(ByteMask(ShiftRight(x, 24)))
    case 2 => Ok(ByteMask(ShiftRight(x, 16)))
    case 1 => Ok(ByteMask(ShiftRight(x, 8)))
    case 0 => Ok(ByteMask(x))
    case _ => Fail(IndexOutOfBounds)
  }

  /** The four segments as the tree reads them. */
  function Key(ix: IntIndex): (k: Key)
    ensures |k| == LEVELS
    ensures forall l | 0 <= l < LEVELS :: Segment(ix, l) == Ok(k[l])
  {
    [Segment(ix, 0).value, Segment(ix, 1).value, Segment(ix, 2).value, Segment(ix, 3).value]
  }

  /** The int whose segments are k: the reference inverse of Key. */
  function Decode(k: Key): (x: Int32)
    requires |k| == LEVELS
  {
    Pow2Literals();
    FromDigitsBound(k);
    Signed(FromDigits(k), 32)
  }

  /** The segments spell the value read as unsigned: the sum of segment(l) * 256^l. */
  lemma KeyValue(ix: IntIndex)
    ensures FromDigits(Key(ix)) == Unsigned(ix.index, 32)
  {
    Pow2Bytes(4);
    DigitsDetermine(Key(ix), Unsigned(ix.index, 32));
  }

  /** Decoding the segments gives the int back. */
  lemma DecodeKey(ix: IntIndex)
    ensures Decode(Key(ix)) == ix.index
  {
    KeyValue(ix);
    Pow2Literals();
    SignedRoundTrip(ix.index, 32);
  }

  /** Every four-segment key is the key of exactly the int it decodes to. */
  lemma KeyDecode(k: Key)
    requires |k| == LEVELS
    ensures Key(IntIndex(Decode(k))) == k
  {
    Pow2Literals();
    var u := FromDigits(k);
    FromDigitsBound(k);
    DivUnique(u, Pow2(32), 0, u);
    assert Unsigned(Decode(k), 32) == u;
    DigitsOfFromDigits(k);
    forall l | 0 <= l < LEVELS
      ensures Key(IntIndex(Decode(k)))[l] == k[l]
    {
      DigitsAt(u, LEVELS, l);
    }
  }

  /** The interface's own example: 0x00112233 gives 0x11 at level 2 and 0x33 at level 0. */
  lemma InterfaceExample()
    ensures Segment(IntIndex(0x0011_2233), 2) == Ok(0x11)
    ensures Segment(IntIndex(0x0011_2233), 0) == Ok(0x33)
    ensures Segment(IntIndex(0x0011_2233), 4) == Fail(IndexOutOfBounds)
  {
    Pow2Literals();
    assert ShiftRight(0x0011_2233, 16) == 0x11;
  }
}
