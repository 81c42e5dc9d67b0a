/** SparseBitBytesIndex: a byte array of any length read as an unsigned big-endian number,
    so the last byte is level 0. */
module BytesIndex {
  import opened Errors
  import opened SparseBitUtil
  import opened Keys

  datatype BytesIndex = BytesIndex(index: seq<Int8>)

  /** `SparseBitBytesIndex.of(bytes)`: a null or empty array is rejected. */
  function Of(index: Option<seq<Int8>>): (r: Result<BytesIndex>)
    ensures r.Ok? <==> index.Some? && |index.value| > 0
    ensures r.Ok? ==> r.value.index == index.value
    ensures r.Fail? ==> r.error == IllegalArgument
  {
    if index.None? then Fail(IllegalArgument)
    else if |index.value| == 0 then Fail(IllegalArgument)
    else Ok(BytesIndex(index.value))
  }

  /** `levels()`: one tier per byte. */
  function Levels(ix: BytesIndex): int
  {
    |ix.index|
  }

  /** The unsigned value of a Java byte. */
  function UnsignedByte(b: Int8): (r: Byte)
  {
    if b < 0 then b + 256 else b
  }

  /** `segment(level)`: byte `length - 1 - level` masked to its unsigned value; any level
      outside the array is out of bounds. */
  function Segment(ix: BytesIndex, level: int): (r: Result<int>)
    ensures r.Ok? <==> 0 <= level < Levels(ix)
    ensures r.Fail? ==> r.error == IndexOutOfBounds
    ensures r.Ok? ==> r.value == UnsignedByte(ix.index[|ix.index| - 1 - level])
  {
    if 0 <= level < |ix.index| then Ok(ByteMask(ix.index[|ix.index| - 1 - level]))
    else Fail(IndexOutOfBounds)
  }

  /** All segments as the tree reads them. */
  function Key(ix: BytesIndex): (k: Key)
    ensures |k| == Levels(ix)
    ensures forall l | 0 <= l < |k| :: Segment(ix, l) == Ok(k[l])
  {
    seq(|ix.index|, l requires 0 <= l < |ix.index| => Segment(ix, l).value)
  }

  /** Java's `(byte)` narrowing of an unsigned byte value. */
  function ToByte(b: Byte): Int8
  {
    if b >= 128 then b - 256 else b
  }

  /** The array whose segments are k: the reference inverse of Key. */
  function Decode(k: Key): (bytes: seq<Int8>)
    ensures |bytes| == |k|
  {
    seq(|k|, i requires 0 <= i < |k| => ToByte(k[|k| - 1 - i]))
  }

  /** Decoding the segments gives the array back. */
  lemma DecodeKey(ix: BytesIndex)
    ensures Decode(Key(ix)) == ix.index
  {
    var k := Key(ix);
    forall i | 0 <= i < |k|
      ensures Decode(k)[i] == ix.index[i]
    {
      var l := |k| - 1 - i;
      assert Segment(ix, l) == Ok(k[l]);
      assert k[l] == UnsignedByte(ix.index[i]);
      assert Decode(k)[i] == ToByte(k[l]);
    }
  }

  /** Every key is the key of the array it decodes to. */
  lemma KeyDecode(k: Key)
    ensures Key(BytesIndex(Decode(k))) == k
  {
    var ix := BytesIndex(Decode(k));
    forall l | 0 <= l < |k|
      ensures Key(ix)[l] == k[l]
    {
      assert Segment(ix, l) == Ok(Key(ix)[l]);
      assert ix.index[|k| - 1 - l] == ToByte(k[l]);
    }
  }
}
