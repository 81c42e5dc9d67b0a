/** SparseBitLong2Index: a 128-bit index held as two Java longs, `index1` the high half
    (segments 15..8) and `index2` the low half (segments 7..0). */
module Long2Index {
  import opened Errors
  import opened SparseBitUtil
  import opened Arith
  import opened Keys
  import IntIndex
  import LongIndex

  /** `2 * Long.BYTES`: a 128-bit index spans sixteen tiers. */
  const LEVELS: int := 16

  datatype Long2Index = Long2Index(index1: Int64, index2: Int64)

  /** The 64-bit two's-complement wrap Java applies to every long result. */
  function WrapLong(v: int): (r: Int64)
    ensures Unsigned(r, 64) == Unsigned(v, 64)
  {
    Pow2Literals();
    Signed(v, 64)
  }

  /** The bit pattern of a long (or of an int or byte widened to long by sign extension). */
  function Bits64(v: int): bv64
  {
    Pow2Literals();
    Unsigned(v, 64) as bv64
  }

  /** The bit pattern of an int. */
  function Bits32(v: int): bv32
  {
    Pow2Literals();
    Unsigned(v, 32) as bv32
  }

  /** `segment(level)`: levels 15..8 are the bytes of `index1` from high to low, levels 7..0
      those of `index2`, all unsigned; any other level is out of bounds. */
  function Segment(ix: Long2Index, level: int): (r: Result<int>)
    ensures r.Ok? <==> 0 <= level < LEVELS
    ensures r.Fail? ==> r.error == IndexOutOfBounds
    ensures 8 <= level < LEVELS ==> r.Ok? && r.value == DigitOf(Unsigned(ix.index1, 64), level - 8)
    ensures 0 <= level < 8 ==> r.Ok? && r.value == DigitOf(Unsigned(ix.index2, 64), level)
  {
    match level
    case 15 => Ok(LongIndex.ByteOf(ix.index1, 7))
    case 14 => Ok(LongIndex.ByteOf(ix.index1, 6))
    case 13 => Ok(LongIndex.ByteOf(ix.index1, 5))
    case 12 => Ok(LongIndex.ByteOf(ix.index1, 4))
    case 11 => Ok(LongIndex.ByteOf(ix.index1, 3))
    case 10 => Ok(LongIndex.ByteOf(ix.index1, 2))
    case 9 => Ok(LongIndex.ByteOf(ix.index1, 1))
    case 8 => Ok(LongIndex.ByteOf(ix.index1, 0))
    case 7 => Ok(LongIndex.ByteOf(ix.index2, 7))
    case 6 => Ok(LongIndex.ByteOf(ix.index2, 6))
    case 5 => Ok(LongIndex.ByteOf(ix.index2, 5))
    case 4 => Ok(LongIndex.ByteOf(ix.index2, 4))
    case 3 => Ok(LongIndex.ByteOf(ix.index2, 3))
    case 2 => Ok(LongIndex.ByteOf(ix.index2, 2))
    case 1 => Ok(LongIndex.ByteOf(ix.index2, 1))
    case 0 => Ok(LongIndex.ByteOf(ix.index2, 0))
    case _ => Fail(IndexOutOfBounds)
  }

  /** The sixteen segments as the tree reads them. */
  function Key(ix: Long2Index): (k: Key)
    ensures |k| == LEVELS
    ensures forall l | 0 <= l < LEVELS :: Segment(ix, l) == Ok(k[l])
  {
    seq(LEVELS, l requires 0 <= l < LEVELS => Segment(ix, l).value)
  }

  /** The low half supplies segments 7..0 and the high half segments 15..8. */
  lemma KeyHalves(ix: Long2Index)
    ensures Key(ix) == LongIndex.Key(LongIndex.LongIndex(ix.index2)) + LongIndex.Key(LongIndex.LongIndex(ix.index1))
  {
    var lo := LongIndex.Key(LongIndex.LongIndex(ix.index2));
    var hi := LongIndex.Key(LongIndex.LongIndex(ix.index1));
    forall l | 0 <= l < LEVELS
      ensures Key(ix)[l] == (lo + hi)[l]
    {
      if l < 8 {
        assert LongIndex.Segment(LongIndex.LongIndex(ix.index2), l) == Ok(lo[l]);
      } else {
        assert LongIndex.Segment(LongIndex.LongIndex(ix.index1), l - 8) == Ok(hi[l - 8]);
      }
    }
  }

  /** The segments spell the 128-bit unsigned number index1 * 2^64 + index2. */
  lemma KeyValue(ix: Long2Index)
    ensures FromDigits(Key(ix)) == Unsigned(ix.index2, 64) + Unsigned(ix.index1, 64) * Pow2(64)
  {
    var lo := LongIndex.Key(LongIndex.LongIndex(ix.index2));
    var hi := LongIndex.Key(LongIndex.LongIndex(ix.index1));
    KeyHalves(ix);
    LongIndex.KeyValue(LongIndex.LongIndex(ix.index2));
    LongIndex.KeyValue(LongIndex.LongIndex(ix.index1));
    Pow2Bytes(8);
    ConcatValue(lo, hi, Unsigned(ix.index2, 64), Unsigned(ix.index1, 64), Pow2(64));
  }

  /** `Long.compare`: the sign of a signed comparison, as -1, 0 or 1. */
  function Compare(a: int, b: int): (r: int)
    ensures r == -1 || r == 0 || r == 1
  {
    if a < b then -1 else if a == b then 0 else 1
  }

  /** `Long.compareUnsigned`: compare after adding `Long.MIN_VALUE` to both sides with
      wrap-around, which moves the unsigned order onto the signed one. */
  function CompareUnsigned(a: Int64, b: Int64): (r: int)
  {
    Compare(WrapLong(a + LONG_MIN), WrapLong(b + LONG_MIN))
  }

  /** Adding `Long.MIN_VALUE` with wrap-around maps the unsigned reading onto the signed range. */
  lemma ShiftToSigned(a: Int64)
    ensures WrapLong(a + LONG_MIN) == Unsigned(a, 64) + LONG_MIN
  {
    Pow2Literals();
    var u := Unsigned(a, 64);
    if a >= 0 {
      DivUnique(a, Pow2(64), 0, a);
      SignedRoundTrip(a + LONG_MIN, 64);
    } else {
      DivUnique(a, Pow2(64), -1, a + Pow2(64));
      SignedRoundTrip(u + LONG_MIN, 64);
      DivUnique(a + LONG_MIN, Pow2(64), -1, u + LONG_MIN);
      DivUnique(u + LONG_MIN, Pow2(64), 0, u + LONG_MIN);
    }
  }

  /** compareUnsigned orders two longs by their unsigned readings. */
  lemma CompareUnsignedOrder(a: Int64, b: Int64)
    ensures CompareUnsigned(a, b) < 0 <==> Unsigned(a, 64) < Unsigned(b, 64)
    ensures CompareUnsigned(a, b) == 0 <==> a == b
    ensures CompareUnsigned(a, b) > 0 <==> Unsigned(a, 64) > Unsigned(b, 64)
  {
    ShiftToSigned(a);
    ShiftToSigned(b);
    LongIndex.DecodeKey(LongIndex.LongIndex(a));
    LongIndex.DecodeKey(LongIndex.LongIndex(b));
    LongIndex.KeyValue(LongIndex.LongIndex(a));
    LongIndex.KeyValue(LongIndex.LongIndex(b));
  }

  /** `compareTo`: the high halves unsigned, then the low halves unsigned. */
  function CompareTo(a: Long2Index, b: Long2Index): (r: int)
  {
    var r := CompareUnsigned(a.index1, b.index1);
    if r != 0 then r else CompareUnsigned(a.index2, b.index2)
  }

  /** compareTo agrees with comparing the keys segment by segment from level 15 down. */
  lemma CompareToIsKeyOrder(a: Long2Index, b: Long2Index)
    ensures CompareTo(a, b) <= 0 <==> LeUpTo(Key(a), Key(b), LEVELS - 1)
    ensures CompareTo(a, b) == 0 <==> Key(a) == Key(b)
    ensures CompareTo(a, b) < 0 <==> !LeUpTo(Key(b), Key(a), LEVELS - 1)
  {
    CompareUnsignedOrder(a.index1, b.index1);
    CompareUnsignedOrder(a.index2, b.index2);
    KeyValue(a);
    KeyValue(b);
    assert Key(a)[..LEVELS] == Key(a) && Key(b)[..LEVELS] == Key(b);
    LeUpToIsNumericOrder(Key(a), Key(b), LEVELS - 1);
    LeUpToIsNumericOrder(Key(b), Key(a), LEVELS - 1);
    var p := Pow2(64);
    var la, lb := Unsigned(a.index2, 64), Unsigned(b.index2, 64);
    var ha, hb := Unsigned(a.index1, 64), Unsigned(b.index1, 64);
    CompareByTopDigit(la, lb, ha, hb, p);
    CompareByTopDigit(lb, la, hb, ha, p);
    EqualsIsKeyEquality(a, b);
  }

  /** `equals`: another object that is not a Long2Index (or is null) is `None`. */
  function Equals(a: Long2Index, o: Option<Long2Index>): (r: bool)
  {
    o.Some? && a.index1 == o.value.index1 && a.index2 == o.value.index2
  }

  /** `Long.hashCode`: the two halves of the long folded together by exclusive or. */
  function LongHash(v: Int64): Int32
  {
    var b := Bits64(v);
    ToInt32((b ^ (b >> 32)) as int)
  }

  /** `hashCode`: the exclusive or of the two halves' hash codes. */
  function HashCode(ix: Long2Index): Int32
  {
    Pow2Literals();
    Signed((Bits32(LongHash(ix.index1)) ^ Bits32(LongHash(ix.index2))) as int, 32)
  }

  /** equals holds exactly between indices with the same segments, and such indices hash
      alike. */
  lemma EqualsIsKeyEquality(a: Long2Index, b: Long2Index)
    ensures Equals(a, Some(b)) <==> Key(a) == Key(b)
    ensures Equals(a, Some(b)) ==> HashCode(a) == HashCode(b)
    ensures !Equals(a, None)
  {
    if Key(a) == Key(b) {
      KeyHalves(a);
      KeyHalves(b);
      var la, lb := LongIndex.Key(LongIndex.LongIndex(a.index2)), LongIndex.Key(LongIndex.LongIndex(b.index2));
      var ha, hb := LongIndex.Key(LongIndex.LongIndex(a.index1)), LongIndex.Key(LongIndex.LongIndex(b.index1));
      assert la == (la + ha)[..8] && lb == (lb + hb)[..8];
      assert ha == (la + ha)[8..] && hb == (lb + hb)[8..];
      LongIndex.DecodeKey(LongIndex.LongIndex(a.index1));
      LongIndex.DecodeKey(LongIndex.LongIndex(b.index1));
      LongIndex.DecodeKey(LongIndex.LongIndex(a.index2));
      LongIndex.DecodeKey(LongIndex.LongIndex(b.index2));
    }
  }

  /** Java's `(long) v << s`: multiply by 2^s and wrap to 64 bits. */
  function ShiftLeft(v: int, s: nat): Int64
  {
    WrapLong(v * Pow2(s))
  }

  /** Java's `a & b` on two longs (an int operand is first sign-extended to long). */
  function And(a: int, b: int): Int64
  {
    Pow2Literals();
    Signed((Bits64(a) & Bits64(b)) as int, 64)
  }

  /** `Long2Index(int, int, int, int)` as written: each half joins two ints with `&`, and
      the low int is sign-extended first. */
  function FromIntsAsWritten(i1: Int32, i2: Int32, i3: Int32, i4: Int32): Long2Index
  {
    Long2Index(And(ShiftLeft(i1, 32), i2), And(ShiftLeft(i3, 32), i4))
  }

  /** The long whose high 32 bits are `hi` and low 32 bits are `lo`:
      `((long) hi << 32) | (lo & 0xFFFFFFFFL)`, written arithmetically (the two operands
      have no bit in common, so the or is a sum). */
  function Join(hi: Int32, lo: Int32): (r: Int64)
    ensures Unsigned(r, 64) == Unsigned(lo, 32) + Unsigned(hi, 32) * Pow2(32)
  {
    Pow2Literals();
    var r := hi * 0x1_0000_0000 + Unsigned(lo, 32);
    JoinUnsigned(hi, Unsigned(lo, 32));
    r
  }

  lemma JoinUnsigned(hi: Int32, u: nat)
    requires u < 0x1_0000_0000
    ensures Unsigned(hi * 0x1_0000_0000 + u, 64) == u + Unsigned(hi, 32) * Pow2(32)
  {
    Pow2Literals();
    var r := hi * 0x1_0000_0000 + u;
    if hi >= 0 {
      DivUnique(r, Pow2(64), 0, r);
      DivUnique(hi, Pow2(32), 0, hi);
    } else {
      DivUnique(r, Pow2(64), -1, r + Pow2(64));
      DivUnique(hi, Pow2(32), -1, hi + Pow2(32));
    }
  }

  /** `Long2Index(int, int, int, int)` as its documentation describes it: index1 is the
      highest int. */
  function FromInts(i1: Int32, i2: Int32, i3: Int32, i4: Int32): (r: Long2Index)
  {
    Long2Index(Join(i1, i2), Join(i3, i4))
  }

  /** A long joined from two ints has the low int's segments below the high int's. */
  lemma JoinKey(hi: Int32, lo: Int32)
    ensures LongIndex.Key(LongIndex.LongIndex(Join(hi, lo)))
         == IntIndex.Key(IntIndex.IntIndex(lo)) + IntIndex.Key(IntIndex.IntIndex(hi))
  {
    var k := LongIndex.Key(LongIndex.LongIndex(Join(hi, lo)));
    var a := IntIndex.Key(IntIndex.IntIndex(lo));
    var b := IntIndex.Key(IntIndex.IntIndex(hi));
    LongIndex.KeyValue(LongIndex.LongIndex(Join(hi, lo)));
    IntIndex.KeyValue(IntIndex.IntIndex(lo));
    IntIndex.KeyValue(IntIndex.IntIndex(hi));
    Pow2Bytes(4);
    ConcatValue(a, b, Unsigned(lo, 32), Unsigned(hi, 32), Pow2(32));
    assert FromDigits(k) == FromDigits(a + b);
    DigitsOfFromDigits(k);
    DigitsOfFromDigits(a + b);
  }

  /** The four ints supply segments 15..12, 11..8, 7..4 and 3..0, highest first. */
  lemma FromIntsLayout(i1: Int32, i2: Int32, i3: Int32, i4: Int32)
    ensures Key(FromInts(i1, i2, i3, i4))
         == IntIndex.Key(IntIndex.IntIndex(i4)) + IntIndex.Key(IntIndex.IntIndex(i3))
          + IntIndex.Key(IntIndex.IntIndex(i2)) + IntIndex.Key(IntIndex.IntIndex(i1))
  {
    KeyHalves(FromInts(i1, i2, i3, i4));
    JoinKey(i1, i2);
    JoinKey(i3, i4);
  }

  /** Joining (0, 1) with `&` loses the low int: segment 8 reads 0 where the documented
      layout puts the 1. */
  lemma FromIntsAsWrittenLosesLowInt()
    ensures Segment(FromIntsAsWritten(0, 1, 0, 1), 8) == Ok(0)
    ensures Segment(FromInts(0, 1, 0, 1), 8) == Ok(1)
  {
    Pow2Literals();
    assert ShiftLeft(0, 32) == 0 by {
      SignedRoundTrip(0, 64);
    }
    assert Bits64(0) == 0 && Bits64(1) == 1;
    assert And(0, 1) == 0 by {
      SignedRoundTrip(0, 64);
    }
    assert Join(0, 1) == 1;
    DivUnique(1, Pow2(64), 0, 1);
  }

  /** The constructor's argument checks: a null array or one of the wrong length. */
  function CheckBytes(bytes: Option<seq<Int8>>): (r: Result<seq<Int8>>)
    ensures r.Ok? <==> bytes.Some? && |bytes.value| == LEVELS
    ensures r.Ok? ==> r.value == bytes.value
    ensures r.Fail? ==> r.error == IllegalArgument
  {
    if bytes.None? then Fail(IllegalArgument)
    else if |bytes.value| != LEVELS then Fail(IllegalArgument)
    else Ok(bytes.value)
  }

  /** One half as written: eight sign-extended bytes, shifted into place and joined by `&`. */
  function AndBytes(b: seq<Int8>, o: nat): Int64
    requires o + 8 <= |b|
  {
    Pow2Literals();
    var w := (Bits64(b[o]) << 56) & (Bits64(b[o + 1]) << 48) & (Bits64(b[o + 2]) << 40)
           & (Bits64(b[o + 3]) << 32) & (Bits64(b[o + 4]) << 24) & (Bits64(b[o + 5]) << 16)
           & (Bits64(b[o + 6]) << 8) & Bits64(b[o + 7]);
    Signed(w as int, 64)
  }

  /** `Long2Index(byte[])` as written. */
  function FromBytesAsWritten(bytes: Option<seq<Int8>>): (r: Result<Long2Index>)
    ensures r.Ok? <==> bytes.Some? && |bytes.value| == LEVELS
    ensures r.Fail? ==> r.error == IllegalArgument
  {
    var c := CheckBytes(bytes);
    if c.Fail? then Fail(c.error)
    else Ok(Long2Index(AndBytes(c.value, 0), AndBytes(c.value, 8)))
  }

  /** One half as documented: eight unsigned bytes, the first the most significant. */
  function OrBytes(b: seq<Int8>, o: nat): (r: Int64)
    requires o + 8 <= |b|
  {
    Pow2Literals();
    var d := [ByteMask(b[o + 7]), ByteMask(b[o + 6]), ByteMask(b[o + 5]), ByteMask(b[o + 4]),
              ByteMask(b[o + 3]), ByteMask(b[o + 2]), ByteMask(b[o + 1]), ByteMask(b[o])];
    FromDigitsBound(d);
    Signed(FromDigits(d), 64)
  }

  /** `Long2Index(byte[])` as its documentation describes it: the first byte is the highest. */
  function FromBytes(bytes: Option<seq<Int8>>): (r: Result<Long2Index>)
    ensures r.Ok? <==> bytes.Some? && |bytes.value| == LEVELS
    ensures r.Fail? ==> r.error == IllegalArgument
  {
    var c := CheckBytes(bytes);
    if c.Fail? then Fail(c.error)
    else Ok(Long2Index(OrBytes(c.value, 0), OrBytes(c.value, 8)))
  }

  /** A half assembled from bytes o..o+7 has byte o+7-k as its segment k. */
  lemma OrBytesKey(b: seq<Int8>, o: nat)
    requires o + 8 <= |b|
    ensures forall k | 0 <= k < 8 :: LongIndex.Key(LongIndex.LongIndex(OrBytes(b, o)))[k] == ByteMask(b[o + 7 - k])
  {
    Pow2Literals();
    var d := [ByteMask(b[o + 7]), ByteMask(b[o + 6]), ByteMask(b[o + 5]), ByteMask(b[o + 4]),
              ByteMask(b[o + 3]), ByteMask(b[o + 2]), ByteMask(b[o + 1]), ByteMask(b[o])];
    var u := FromDigits(d);
    FromDigitsBound(d);
    DivUnique(u, Pow2(64), 0, u);
    assert Unsigned(OrBytes(b, o), 64) == u;
    LongIndex.KeyIsDigits(LongIndex.LongIndex(OrBytes(b, o)));
    DigitsOfFromDigits(d);
  }

  /** The documented layout: segment 15 - k is the unsigned value of bytes[k]. */
  lemma FromBytesLayout(bytes: seq<Int8>)
    requires |bytes| == LEVELS
    ensures FromBytes(Some(bytes)).Ok?
    ensures forall k | 0 <= k < LEVELS :: Segment(FromBytes(Some(bytes)).value, LEVELS - 1 - k) == Ok(ByteMask(bytes[k]))
  {
    var ix := FromBytes(Some(bytes)).value;
    var hi := LongIndex.Key(LongIndex.LongIndex(ix.index1));
    var lo := LongIndex.Key(LongIndex.LongIndex(ix.index2));
    OrBytesKey(bytes, 0);
    OrBytesKey(bytes, 8);
    KeyHalves(ix);
    forall k | 0 <= k < LEVELS
      ensures Segment(ix, LEVELS - 1 - k) == Ok(ByteMask(bytes[k]))
    {
      var l := LEVELS - 1 - k;
      assert Segment(ix, l) == Ok(Key(ix)[l]);
      if l < 8 {
        assert Key(ix)[l] == lo[l];
      } else {
        assert Key(ix)[l] == hi[l - 8];
      }
    }
  }

  /** Joining bytes with `&` loses them: fifteen zero bytes followed by a 1 give segment 0
      the value 0, where the documented layout puts the 1. */
  lemma FromBytesAsWrittenLosesBytes()
    ensures var bytes := seq(15, i => 0) + [1];
      FromBytesAsWritten(Some(bytes)).Ok? && Segment(FromBytesAsWritten(Some(bytes)).value, 0) == Ok(0)
      && Segment(FromBytes(Some(bytes)).value, 0) == Ok(1)
  {
    var bytes: seq<Int8> := seq(15, i => 0) + [1];
    Pow2Literals();
    assert Bits64(0) == 0 && Bits64(1) == 1;
    assert bytes[15] == 1 && forall i | 0 <= i < 15 :: bytes[i] == 0;
    assert AndBytes(bytes, 8) == 0 by {
      SignedRoundTrip(0, 64);
    }
    DivUnique(0, Pow2(64), 0, 0);
    FromBytesLayout(bytes);
    assert ByteMask(bytes[15]) == 1;
  }
}
