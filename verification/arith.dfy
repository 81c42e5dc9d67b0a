/** Powers, Euclidean division facts and base-256 digits, used to reason about
    Java's shifts and the byte layout of the index encodings. */
module Arith {
  import opened SparseBitUtil

  function Pow2(n: nat): (r: nat)
    ensures r >= 1
  {
    if n == 0 then 1 else 2 * Pow2(n - 1)
  }

  function Pow256(n: nat): (r: nat)
    ensures r >= 1
  {
    if n == 0 then 1 else 256 * Pow256(n - 1)
  }

  lemma {:induction false} Pow2Add(a: nat, b: nat)
    ensures Pow2(a + b) == Pow2(a) * Pow2(b)
    decreases a
  {
    if a > 0 {
      Pow2Add(a - 1, b);
      assert Pow2(a + b) == 2 * Pow2(a - 1 + b);
    }
  }

  lemma {:induction false} Pow2Bytes(k: nat)
    ensures Pow2(8 * k) == Pow256(k)
  {
    if k > 0 {
      Pow2Bytes(k - 1);
      Pow2Add(8, 8 * (k - 1));
      assert 8 * k == 8 + 8 * (k - 1);
    }
  }

  lemma MulAtLeast(d: int, e: int)
    requires d > 0 && e >= 1
    ensures d * e >= d
  {
    assert d * e - d == d * (e - 1);
  }

  lemma DivUnique(x: int, d: int, q: int, r: int)
    requires d > 0 && 0 <= r < d && x == d * q + r
    ensures x / d == q && x % d == r
  {
    var q' := x / d;
    var r' := x % d;
    assert d * q' + r' == d * q + r;
    assert d * (q' - q) == r - r' by {
      assert d * (q' - q) == d * q' - d * q;
    }
    if q' > q {
      MulAtLeast(d, q' - q);
    } else if q' < q {
      MulAtLeast(d, q - q');
    }
  }

  lemma DivAddMultiple(x: int, q: int, d: int)
    requires d > 0
    ensures (x + q * d) / d == x / d + q
    ensures (x + q * d) % d == x % d
  {
    DivUnique(x + q * d, d, x / d + q, x % d);
  }

  lemma DivDiv(x: int, a: int, b: int)
    requires a > 0 && b > 0
    ensures x / a / b == x / (a * b)
  {
    var q := x / a;
    var r := x % a;
    var q2 := q / b;
    var r2 := q % b;
    assert x == a * q + r;
    assert q == b * q2 + r2;
    NestedProduct(a, b, q2, r2);
    assert x == (a * b) * q2 + (a * r2 + r);
    ScaledRemainder(a, b, r2);
    DivUnique(x, a * b, q2, a * r2 + r);
  }

  lemma NestedProduct(a: int, b: int, q: int, r: int)
    ensures a * (b * q + r) == (a * b) * q + a * r
  {
  }

  lemma ScaledRemainder(a: int, b: int, r: int)
    requires a > 0 && 0 <= r < b
    ensures 0 <= a * r <= a * b - a
  {
    assert a * (b - 1 - r) >= 0;
    assert a * (b - 1 - r) == a * b - a - a * r;
  }

  /** Java's `x >> s` on a two's-complement value: floor division by 2^s. */
  function ShiftRight(x: int, s: nat): int
  {
    x / Pow2(s)
  }

  /** Java's `(int) y` narrowing of a long: keep the low 32 bits, read them as signed. */
  function ToInt32(y: int): (r: Int32)
    ensures (y - r) % 0x1_0000_0000 == 0
  {
    var low := y % 0x1_0000_0000;
    if low >= 0x8000_0000 then low - 0x1_0000_0000 else low
  }

  /** The unsigned reading of the low `width` bits of x. */
  function Unsigned(x: int, width: nat): (u: nat)
    ensures u < Pow2(width)
  {
    x % Pow2(width)
  }

  /** Digit k of u in base 256. */
  function DigitOf(u: int, k: nat): Byte
  {
    (u / Pow256(k)) % 256
  }

  /** The value of a little-endian base-256 digit sequence. */
  function FromDigits(d: seq<Byte>): nat
  {
    if |d| == 0 then 0 else d[0] + 256 * FromDigits(d[1..])
  }

  lemma {:induction false} FromDigitsBound(d: seq<Byte>)
    ensures FromDigits(d) < Pow256(|d|)
  {
    if |d| > 0 {
      FromDigitsBound(d[1..]);
      assert FromDigits(d[1..]) + 1 <= Pow256(|d| - 1);
      assert 256 * (FromDigits(d[1..]) + 1) <= 256 * Pow256(|d| - 1);
    }
  }

  /** The n low digits of u, least significant first. */
  function Digits(u: nat, n: nat): (d: seq<Byte>)
    ensures |d| == n
  {
    if n == 0 then [] else [u % 256] + Digits(u / 256, n - 1)
  }

  lemma {:induction false} DigitsRoundTrip(u: nat, n: nat)
    requires u < Pow256(n)
    ensures FromDigits(Digits(u, n)) == u
  {
    if n > 0 {
      var d := Digits(u, n);
      assert d[1..] == Digits(u / 256, n - 1);
      assert 256 * (u / 256) <= u < 256 * Pow256(n - 1);
      DigitsRoundTrip(u / 256, n - 1);
    } else {
      assert u == 0;
    }
  }

  lemma {:induction false} DigitsOfFromDigits(d: seq<Byte>)
    ensures Digits(FromDigits(d), |d|) == d
  {
    if |d| > 0 {
      var u := FromDigits(d);
      DivUnique(u, 256, FromDigits(d[1..]), d[0]);
      DigitsOfFromDigits(d[1..]);
    }
  }

  lemma {:induction false} DigitsAt(u: nat, n: nat, k: nat)
    requires k < n
    ensures Digits(u, n)[k] == DigitOf(u, k)
  {
    if k > 0 {
      DigitsAt(u / 256, n - 1, k - 1);
      DivDiv(u, 256, Pow256(k - 1));
    }
  }

  /** Narrowing to int keeps the low byte. */
  lemma NarrowKeepsLowByte(y: int)
    ensures ToInt32(y) % 256 == y % 256
  {
    var z := ToInt32(y);
    var j := (y - z) / 0x1_0000_0000;
    assert y == z + j * 0x1_0000_0000;
    assert j * 0x1_0000_0000 == (j * 0x100_0000) * 256;
    DivAddMultiple(z, j * 0x100_0000, 256);
  }

  lemma MulRotate(c: int, d: int, e: int)
    ensures (d * e) * c == (c * e) * d
  {
  }

  /** Adding a multiple of d * 256 * rest to x does not change byte 0 of x / d. */
  lemma LowByteWrap(x: int, d: int, rest: int)
    requires d > 0 && rest > 0
    ensures (x / d) % 256 == ((x % (d * (256 * rest))) / d) % 256
  {
    var e := 256 * rest;
    var w := d * e;
    assert w > 0 by {
      MulAtLeast(d, e);
    }
    var c := x / w;
    var u := x % w;
    assert x == w * c + u;
    MulRotate(c, d, e);
    DivAddMultiple(u, c * e, d);
    assert c * e == (c * rest) * 256;
    DivAddMultiple(u / d, c * rest, 256);
  }

  /** Digit k of a signed value below the width equals digit k of its unsigned reading. */
  lemma ShiftedLowByteIgnoresSign(x: int, width: nat, k: nat)
    requires 8 * k + 8 <= width
    ensures (x / Pow2(8 * k)) % 256 == (Unsigned(x, width) / Pow2(8 * k)) % 256
  {
    Pow2Add(8 * k, width - 8 * k);
    Pow2Add(8, width - 8 * k - 8);
    assert Pow2(8) == 256;
    LowByteWrap(x, Pow2(8 * k), Pow2(width - 8 * k - 8));
  }

  /** Byte k of a two's-complement value as Java extracts it: shift right by 8k, narrow to
      int, mask the low byte. It is digit k of the value read as unsigned. */
  lemma JavaByteIsDigit(x: int, width: nat, k: nat)
    requires 8 * k + 8 <= width
    ensures ByteMask(ToInt32(ShiftRight(x, 8 * k))) == DigitOf(Unsigned(x, width), k)
  {
    NarrowKeepsLowByte(ShiftRight(x, 8 * k));
    ShiftedLowByteIgnoresSign(x, width, k);
    Pow2Bytes(k);
  }

  /** Byte k of a value as Java extracts it without narrowing: `BYTE_MASK & (x >> 8k)`. */
  lemma MaskedByteIsDigit(x: int, width: nat, k: nat)
    requires 8 * k + 8 <= width
    ensures ByteMask(ShiftRight(x, 8 * k)) == DigitOf(Unsigned(x, width), k)
  {
    ShiftedLowByteIgnoresSign(x, width, k);
    Pow2Bytes(k);
  }

  lemma MulAssociates(a: int, b: int, c: int)
    ensures a * (b * c) == (a * b) * c
  {
  }

  /** A digit sequence that spells u's n low digits has u as its value. */
  lemma DigitsDetermine(d: seq<Byte>, u: nat)
    requires u < Pow256(|d|)
    requires forall k | 0 <= k < |d| :: d[k] == DigitOf(u, k)
    ensures FromDigits(d) == u
  {
    forall k | 0 <= k < |d|
      ensures d[k] == Digits(u, |d|)[k]
    {
      DigitsAt(u, |d|, k);
    }
    assert d == Digits(u, |d|);
    DigitsRoundTrip(u, |d|);
  }

  /** The value of two digit sequences one after the other. */
  lemma {:induction false} FromDigitsConcat(a: seq<Byte>, b: seq<Byte>)
    ensures FromDigits(a + b) == FromDigits(a) + Pow256(|a|) * FromDigits(b)
  {
    if |a| > 0 {
      assert (a + b)[1..] == a[1..] + b;
      FromDigitsConcat(a[1..], b);
      assert FromDigits(a + b) == a[0] + 256 * FromDigits(a[1..] + b);
      ShiftDigit(a[0], FromDigits(a[1..]), FromDigits(b), Pow256(|a| - 1));
    } else {
      assert a + b == b;
    }
  }

  /** One more low digit in front of a two-part value. */
  lemma ShiftDigit(d: int, x: int, y: int, p: int)
    ensures d + 256 * (x + p * y) == (d + 256 * x) + (256 * p) * y
  {
    MulAssociates(256, p, y);
  }

  /** FromDigitsConcat with the values of the parts already known. */
  lemma ConcatValue(a: seq<Byte>, b: seq<Byte>, x: nat, y: nat, p: nat)
    requires FromDigits(a) == x && FromDigits(b) == y && Pow256(|a|) == p
    ensures FromDigits(a + b) == x + y * p
  {
    FromDigitsConcat(a, b);
    assert p * y == y * p;
  }

  /** The two's-complement value of the low `width` bits of u: what Java stores when a
      computed bit pattern is kept in a signed variable of that width. */
  function Signed(u: int, width: nat): (r: int)
    requires width >= 1
    ensures -(Pow2(width - 1) as int) <= r < Pow2(width - 1)
    ensures Unsigned(r, width) == Unsigned(u, width)
  {
    var p := Pow2(width);
    var half := Pow2(width - 1);
    assert p == 2 * half;
    var low := u % p;
    if low >= half then
      DivAddMultiple(low, -1, p);
      DivUnique(low, p, 0, low);
      low - p
    else
      DivUnique(low, p, 0, low);
      low
  }

  /** Signed undoes Unsigned on values that already fit the width. */
  lemma SignedRoundTrip(x: int, width: nat)
    requires width >= 1 && -(Pow2(width - 1) as int) <= x < Pow2(width - 1)
    ensures Signed(Unsigned(x, width), width) == x
  {
    var p := Pow2(width);
    var half := Pow2(width - 1);
    assert p == 2 * half;
    var u := Unsigned(x, width);
    DivUnique(u, p, 0, u);
    if x >= 0 {
      DivUnique(x, p, 0, x);
    } else {
      DivUnique(x, p, -1, x + p);
    }
  }

  /** The powers of two that name Java's integer widths. */
  lemma Pow2Literals()
    ensures Pow2(8) == 256 && Pow2(16) == 0x1_0000
    ensures Pow2(31) == 0x8000_0000 && Pow2(32) == 0x1_0000_0000
    ensures Pow2(63) == 0x8000_0000_0000_0000 && Pow2(64) == 0x1_0000_0000_0000_0000
    ensures Pow256(4) == 0x1_0000_0000 && Pow256(8) == 0x1_0000_0000_0000_0000
  {
    assert Pow2(4) == 16 by {
      assert Pow2(1) == 2 && Pow2(2) == 4 && Pow2(3) == 8;
    }
    Pow2Add(4, 4);
    Pow2Add(8, 8);
    Pow2Add(16, 16);
    Pow2Add(32, 32);
    assert Pow2(32) == 2 * Pow2(31);
    assert Pow2(64) == 2 * Pow2(63);
    Pow2Bytes(4);
    Pow2Bytes(8);
  }
}
