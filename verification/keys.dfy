/** Keys as the tree sees them: the segments of an index, least significant first,
    and the inclusive-range arithmetic the range split relies on. */
module Keys {
  import opened SparseBitUtil
  import opened Arith

  /** key[k] is `index.segment(k)`; a tier at level h reads key[h]. */
  type Key = seq<Byte>

  /** The segments of SparseBitConstIndex.MIN: 0 at every level. */
  function Floor(n: nat): (k: Key)
    ensures |k| == n && forall i | 0 <= i < n :: k[i] == 0
  {
    seq(n, i => 0)
  }

  /** The segments of SparseBitConstIndex.MAX: 255 at every level. */
  function Ceil(n: nat): (k: Key)
    ensures |k| == n && forall i | 0 <= i < n :: k[i] == 255
  {
    seq(n, i => 255)
  }

  /** Two keys address the same bit of a tree of height h. */
  predicate SameUpTo(a: Key, b: Key, h: nat)
    requires |a| > h && |b| > h
  {
    a[..h + 1] == b[..h + 1]
  }

  /** a <= b comparing segments h, h-1, ..., 0 (most significant first). */
  predicate LeUpTo(a: Key, b: Key, h: nat)
    requires |a| > h && |b| > h
  {
    a[h] < b[h] || (a[h] == b[h] && (h == 0 || LeUpTo(a, b, h - 1)))
  }

  /** x lies in the inclusive range [f, t] of a tree of height h. */
  predicate InRange(x: Key, f: Key, t: Key, h: nat)
    requires |x| > h && |f| > h && |t| > h
  {
    LeUpTo(f, x, h) && LeUpTo(x, t, h)
  }

  /** Every segment of k below level j is 0. */
  predicate ZeroBelow(k: Key, j: nat)
    requires j <= |k|
  {
    forall i | 0 <= i < j :: k[i] == 0
  }

  /** Every segment of k below level j is 255. */
  predicate FullBelow(k: Key, j: nat)
    requires j <= |k|
  {
    forall i | 0 <= i < j :: k[i] == 255
  }

  /** At level k a 0 in the lower bound is followed only by 0s, and a 255 in the upper
      bound only by 255s: the bounds never make the whole-slot shortcut read one segment
      as covering a slot that is only partly in the range. */
  predicate AlignedAt(f: Key, t: Key, k: nat)
    requires |f| > k && |t| > k
  {
    (f[k] == 0 ==> ZeroBelow(f, k)) && (t[k] == 255 ==> FullBelow(t, k))
  }

  predicate Aligned(f: Key, t: Key, h: nat)
    requires |f| >= h && |t| >= h
  {
    forall k | 0 <= k < h :: AlignedAt(f, t, k)
  }

  /** The unsigned number the low h+1 segments of x spell. */
  function Value(x: Key, h: nat): nat
    requires |x| > h
  {
    FromDigits(x[..h + 1])
  }

  lemma {:induction false} LeUpToReflexive(x: Key, h: nat)
    requires |x| > h
    ensures LeUpTo(x, x, h)
  {
    if h > 0 {
      LeUpToReflexive(x, h - 1);
    }
  }

  lemma {:induction false} FloorIsLeast(n: nat, x: Key, h: nat)
    requires n > h && |x| > h
    ensures LeUpTo(Floor(n), x, h)
  {
    if h > 0 && x[h] == 0 {
      FloorIsLeast(n, x, h - 1);
    }
  }

  lemma {:induction false} CeilIsGreatest(n: nat, x: Key, h: nat)
    requires n > h && |x| > h
    ensures LeUpTo(x, Ceil(n), h)
  {
    if h > 0 && x[h] == 255 {
      CeilIsGreatest(n, x, h - 1);
    }
  }

  lemma {:induction false} LeUpToTransitive(a: Key, b: Key, c: Key, h: nat)
    requires |a| > h && |b| > h && |c| > h
    requires LeUpTo(a, b, h) && LeUpTo(b, c, h)
    ensures LeUpTo(a, c, h)
  {
    if h > 0 && a[h] == b[h] == c[h] {
      LeUpToTransitive(a, b, c, h - 1);
    }
  }

  lemma {:induction false} LeUpToTotal(a: Key, b: Key, h: nat)
    requires |a| > h && |b| > h
    ensures LeUpTo(a, b, h) || LeUpTo(b, a, h)
  {
    if h > 0 && a[h] == b[h] {
      LeUpToTotal(a, b, h - 1);
    }
  }

  lemma {:induction false} LeUpToAntisymmetric(a: Key, b: Key, h: nat)
    requires |a| > h && |b| > h
    requires LeUpTo(a, b, h) && LeUpTo(b, a, h)
    ensures SameUpTo(a, b, h)
  {
    if h > 0 {
      LeUpToAntisymmetric(a, b, h - 1);
      SameUpToStep(a, b, h);
    }
  }

  lemma SameUpToStep(a: Key, b: Key, h: nat)
    requires h >= 1 && |a| > h && |b| > h
    ensures SameUpTo(a, b, h) <==> a[h] == b[h] && SameUpTo(a, b, h - 1)
  {
    if a[h] == b[h] && SameUpTo(a, b, h - 1) {
      assert a[..h + 1] == a[..h] + [a[h]];
      assert b[..h + 1] == b[..h] + [b[h]];
    }
    if SameUpTo(a, b, h) {
      assert a[..h] == a[..h + 1][..h];
      assert b[..h] == b[..h + 1][..h];
      assert a[h] == a[..h + 1][h];
      assert b[h] == b[..h + 1][h];
    }
  }

  /** A one-bit range [key, key] holds exactly the keys that address the same bit. */
  lemma {:induction false} SingletonRange(x: Key, key: Key, h: nat)
    requires |x| > h && |key| > h
    ensures InRange(x, key, key, h) <==> SameUpTo(x, key, h)
  {
    if h > 0 {
      SingletonRange(x, key, h - 1);
      SameUpToStep(x, key, h);
    }
    if SameUpTo(x, key, h) {
      LeUpToReflexive(x, h);
      SameKeysCompareEqual(x, key, key, h);
    }
    if h == 0 && InRange(x, key, key, h) {
      assert x[..1] == [x[0]] && key[..1] == [key[0]];
    }
  }

  /** Keys that address the same bit compare the same way. */
  lemma {:induction false} SameKeysCompareEqual(x: Key, y: Key, z: Key, h: nat)
    requires |x| > h && |y| > h && |z| > h
    requires SameUpTo(x, y, h)
    ensures LeUpTo(x, z, h) == LeUpTo(y, z, h)
    ensures LeUpTo(z, x, h) == LeUpTo(z, y, h)
  {
    assert x[h] == x[..h + 1][h] && y[h] == y[..h + 1][h];
    if h > 0 {
      SameUpToStep(x, y, h);
      SameKeysCompareEqual(x, y, z, h - 1);
    }
  }

  /** How the inclusive range [f, t] of a tree at level h >= 1 meets slot x[h]: the
      split into [f, MAX] for the first slot, everything for the interior slots and
      [MIN, t] for the last slot, or [f, t] itself when both bounds share the slot. */
  lemma RangeBySlot(x: Key, f: Key, t: Key, h: nat)
    requires h >= 1 && |x| > h && |f| > h && |t| > h
    ensures x[h] < f[h] || x[h] > t[h] ==> !InRange(x, f, t, h)
    ensures f[h] == x[h] == t[h] ==> (InRange(x, f, t, h) <==> InRange(x, f, t, h - 1))
    ensures f[h] == x[h] < t[h] ==> (InRange(x, f, t, h) <==> InRange(x, f, Ceil(h), h - 1))
    ensures f[h] < x[h] == t[h] ==> (InRange(x, f, t, h) <==> InRange(x, Floor(h), t, h - 1))
    ensures f[h] < x[h] < t[h] ==> InRange(x, f, t, h) && InRange(x, Floor(h), Ceil(h), h - 1)
  {
    CeilIsGreatest(h, x, h - 1);
    FloorIsLeast(h, x, h - 1);
  }

  /** Replacing either bound by MIN or MAX keeps a range aligned. */
  lemma AlignedWithEnds(f: Key, t: Key, h: nat)
    requires |f| >= h && |t| >= h && Aligned(f, t, h)
    ensures Aligned(f, Ceil(h), h) && Aligned(Floor(h), t, h) && Aligned(Floor(h), Ceil(h), h)
  {
    forall k | 0 <= k < h
      ensures AlignedAt(f, Ceil(h), k) && AlignedAt(Floor(h), t, k) && AlignedAt(Floor(h), Ceil(h), k)
    {
      assert AlignedAt(f, t, k);
    }
  }

  /** Bounds that are 0 and 255 all the way down cover every key of a tree of height k. */
  lemma CoveringBounds(x: Key, f: Key, t: Key, k: nat)
    requires |x| > k && |f| > k && |t| > k
    requires ZeroBelow(f, k + 1) && FullBelow(t, k + 1)
    ensures InRange(x, f, t, k)
  {
    assert f[..k + 1] == Floor(k + 1);
    assert t[..k + 1] == Ceil(k + 1);
    FloorIsLeast(k + 1, x, k);
    CeilIsGreatest(k + 1, x, k);
    SamePrefixCompares(f, Floor(k + 1), x, k);
    SamePrefixCompares(t, Ceil(k + 1), x, k);
  }

  lemma SamePrefixCompares(a: Key, b: Key, x: Key, k: nat)
    requires |a| > k && |b| > k && |x| > k && a[..k + 1] == b[..k + 1]
    ensures LeUpTo(a, x, k) == LeUpTo(b, x, k) && LeUpTo(x, a, k) == LeUpTo(x, b, k)
  {
    SameKeysCompareEqual(a, b, x, k);
  }

  lemma {:induction false} FromDigitsAppend(d: seq<Byte>, b: Byte)
    ensures FromDigits(d + [b]) == FromDigits(d) + b * Pow256(|d|)
  {
    if |d| > 0 {
      assert (d + [b])[1..] == d[1..] + [b];
      FromDigitsAppend(d[1..], b);
    } else {
      assert d + [b] == [b];
      assert [b][1..] == [];
    }
  }

  /** Numbers written with a common base p compare by their top digit first. */
  lemma CompareByTopDigit(la: int, lb: int, ah: int, bh: int, p: int)
    requires 0 <= la < p && 0 <= lb < p
    ensures ah < bh ==> la + ah * p < lb + bh * p
    ensures ah == bh ==> (la + ah * p <= lb + bh * p <==> la <= lb)
  {
    if ah < bh {
      var d := bh - ah;
      assert bh * p == ah * p + d * p;
      MulAtLeast(p, d);
      assert p * d == d * p;
    }
  }

  /** The segment-by-segment order is the unsigned numeric order of the keys. */
  lemma {:induction false} LeUpToIsNumericOrder(a: Key, b: Key, h: nat)
    requires |a| > h && |b| > h
    ensures LeUpTo(a, b, h) <==> Value(a, h) <= Value(b, h)
  {
    var p := Pow256(h);
    assert a[..h + 1] == a[..h] + [a[h]];
    assert b[..h + 1] == b[..h] + [b[h]];
    FromDigitsAppend(a[..h], a[h]);
    FromDigitsAppend(b[..h], b[h]);
    var la := FromDigits(a[..h]);
    var lb := FromDigits(b[..h]);
    FromDigitsBound(a[..h]);
    FromDigitsBound(b[..h]);
    assert Value(a, h) == la + a[h] * p;
    assert Value(b, h) == lb + b[h] * p;
    CompareByTopDigit(la, lb, a[h], b[h], p);
    CompareByTopDigit(lb, la, b[h], a[h], p);
    if a[h] == b[h] {
      if h > 0 {
        LeUpToIsNumericOrder(a, b, h - 1);
        assert a[..h] == a[..h - 1 + 1] && b[..h] == b[..h - 1 + 1];
      } else {
        assert a[..0] == [] && b[..0] == [];
      }
    }
  }
}
