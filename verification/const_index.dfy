/** SparseBitConstIndex: an index that reports the same segment at every level; only the
    MIN (all 0) and MAX (all 255) instances exist. */
module ConstIndex {
  import opened Errors
  import opened SparseBitUtil
  import opened Keys

  /** The two segment values the private constructor is ever called with. */
  type Extreme = x: int | x == 0 || x == 255

  datatype ConstIndex = ConstIndex(segment: Extreme)

  /** The lowest index at any depth. */
  const MIN: ConstIndex := ConstIndex(0)

  /** The highest index at any depth. */
  const MAX: ConstIndex := ConstIndex(255)

  /** `levels()` is `Integer.MAX_VALUE`, so either constant passes any depth check. */
  const LEVELS: int := 0x7FFF_FFFF

  /** `segment(level)`: the constant, for every level, never throwing. */
  function Segment(ix: ConstIndex, level: int): Result<int>
  {
    Ok(ix.segment)
  }

  /** The first n segments as the tree reads them. */
  function Key(ix: ConstIndex, n: nat): (k: Key)
    ensures |k| == n && forall l | 0 <= l < n :: Segment(ix, l) == Ok(k[l])
  {
    seq(n, l => ix.segment)
  }

  /** MIN and MAX bound every index at every level, so [x, MAX] runs from x to the end of
      the deepest slot holding it and [MIN, x] from the start of that slot to x. */
  lemma Bounds(n: nat, x: Key, h: nat)
    requires n > h && |x| > h
    ensures Key(MIN, n) == Floor(n) && Key(MAX, n) == Ceil(n)
    ensures forall l: int :: Segment(MIN, l).value <= x[h] <= Segment(MAX, l).value
    ensures LeUpTo(Key(MIN, n), x, h) && LeUpTo(x, Key(MAX, n), h)
  {
    FloorIsLeast(n, x, h);
    CeilIsGreatest(n, x, h);
  }
}
