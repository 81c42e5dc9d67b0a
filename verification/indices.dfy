/** The index kinds a set can be addressed with, behind the `SparseBitIndex` interface:
    `levels()` and `segment(level)`. */
module Indices {
  import opened Errors
  import opened SparseBitUtil
  import opened Keys
  import IntIndex
  import LongIndex
  import Long2Index
  import BytesIndex
  import ConstIndex

  datatype Index =
    | IntIx(i: IntIndex.IntIndex)
    | LongIx(l: LongIndex.LongIndex)
    | Long2Ix(w: Long2Index.Long2Index)
    | BytesIx(b: BytesIndex.BytesIndex)
    | ConstIx(c: ConstIndex.ConstIndex)

  /** `levels()`. */
  function Levels(ix: Index): int
  {
    match ix
    case IntIx(_) => IntIndex.LEVELS
    case LongIx(_) => LongIndex.LEVELS
    case Long2Ix(_) => Long2Index.LEVELS
    case BytesIx(b) => BytesIndex.Levels(b)
    case ConstIx(_) => ConstIndex.LEVELS
  }

  /** `segment(level)`. */
  function Segment(ix: Index, level: int): Result<int>
  {
    match ix
    case IntIx(i) => IntIndex.Segment(i, level)
    case LongIx(l) => LongIndex.Segment(l, level)
    case Long2Ix(w) => Long2Index.Segment(w, level)
    case BytesIx(b) => BytesIndex.Segment(b, level)
    case ConstIx(c) => ConstIndex.Segment(c, level)
  }

  /** Every index kind answers each level below `levels()` with an unsigned byte, so the
      tree's own segment checks never fire on a single index. */
  lemma SegmentsInRange(ix: Index, level: int)
    requires 0 <= level < Levels(ix)
    ensures Segment(ix, level).Ok? && 0 <= Segment(ix, level).value < LEVEL_SIZE
  {
  }

  /** The first n segments of ix as the tree reads them. */
  function KeyOf(ix: Index, n: nat): (k: Key)
    requires n <= Levels(ix)
    ensures |k| == n && forall l | 0 <= l < n :: Segment(ix, l) == Ok(k[l])
  {
    seq(n, l requires 0 <= l < n => SegmentsInRange(ix, l); Segment(ix, l).value)
  }
}
