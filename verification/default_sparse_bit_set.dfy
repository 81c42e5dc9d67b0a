/** DefaultSparseBitSet: a hierarchical bit set of a fixed number of byte levels, holding
    its root level and checking every index it is given before the tree reads it. Every
    mutation returns the new set; an exception is a `Fail` and leaves the caller's set as
    it was. */
module DefaultSparseBitSet {
  import opened Errors
  import opened SparseBitUtil
  import opened Keys
  import opened Levels
  import LevelN
  import LevelNRange
  import BitSemantics
  import RangeSemantics
  import Tidy
  import opened Indices

  /** `levels`, the collapse threshold every level was built with, and `base`. */
  datatype SparseBitSet = SparseBitSet(levels: int, maximumOccupancy: int, base: Node)

  /** What construction establishes and every operation keeps: a positive level count, a
      threshold in 2..256, and a root that validates and reads exactly `levels` segments. */
  predicate Inv(s: SparseBitSet)
  {
    && s.levels >= 1
    && ValidOccupancy(s.maximumOccupancy)
    && s.base.Real() && Valid(s.base)
    && Height(s.base) == s.levels - 1
  }

  /** The bit the set holds for the key x; only the first `levels` segments are read. */
  predicate Bit(s: SparseBitSet, x: Key)
    requires Inv(s) && |x| >= s.levels
  {
    Contains(s.base, x)
  }

  /** The index has at least as many levels as the set reads. */
  predicate Addressable(s: SparseBitSet, ix: Index)
  {
    Indices.Levels(ix) >= s.levels
  }

  /** What `checkIndex` lets through: a present index with at least `levels` levels. */
  predicate Admits(s: SparseBitSet, ix: Option<Index>)
  {
    ix.Some? && Addressable(s, ix.value)
  }

  /** The segments of an admitted index that the set reads. */
  function KeyFor(s: SparseBitSet, ix: Index): (k: Key)
    requires s.levels >= 0 && Addressable(s, ix)
    ensures |k| == s.levels
  {
    KeyOf(ix, s.levels)
  }

  /** The bit the set holds for an admitted index. */
  predicate Holds(s: SparseBitSet, ix: Index)
    requires Inv(s) && Addressable(s, ix)
  {
    Bit(s, KeyFor(s, ix))
  }

  /** Two admitted indices address the same bit when their first `levels` segments agree. */
  predicate SameBit(s: SparseBitSet, a: Index, b: Index)
    requires s.levels >= 0 && Addressable(s, a) && Addressable(s, b)
  {
    forall l | 0 <= l < s.levels :: Segment(a, l) == Segment(b, l)
  }

  /** Two admitted indices address the same bit exactly when they give the same key. */
  lemma SameBitIsSameKey(s: SparseBitSet, a: Index, b: Index)
    requires s.levels >= 1 && Addressable(s, a) && Addressable(s, b)
    ensures SameBit(s, a, b) <==> KeyFor(s, a) == KeyFor(s, b)
    ensures SameBit(s, a, b) <==> SameUpTo(KeyFor(s, a), KeyFor(s, b), s.levels - 1)
  {
    var ka := KeyFor(s, a);
    var kb := KeyFor(s, b);
    assert ka[..s.levels] == ka && kb[..s.levels] == kb;
    if SameBit(s, a, b) {
      forall l | 0 <= l < s.levels
        ensures ka[l] == kb[l]
      {
        assert Segment(a, l) == Ok(ka[l]) && Segment(b, l) == Ok(kb[l]);
      }
    }
  }

  // ---------------------------------------------------------------- construction

  /** `new DefaultSparseBitSet(levels, maximumOccupancy)`: a positive level count and a
      threshold in 2..256, checked in that order; the root is `createLevel`. */
  function Create(levels: int, maximumOccupancy: int): (r: Result<SparseBitSet>)
    ensures r.Ok? <==> levels > 0 && 2 <= maximumOccupancy <= LEVEL_SIZE
    ensures r.Fail? ==> r.error == IllegalArgument
    ensures r.Ok? ==> Inv(r.value) && r.value.levels == levels && r.value.maximumOccupancy == maximumOccupancy
    ensures r.Ok? ==> IsEmpty(r.value.base) && !IsFull(r.value.base, maximumOccupancy)
    ensures r.Ok? ==> forall x: Key {:trigger Bit(r.value, x)} | |x| >= levels :: !Bit(r.value, x)
  {
    if levels <= 0 then Fail(IllegalArgument)
    else if maximumOccupancy < 2 || maximumOccupancy > LEVEL_SIZE then Fail(IllegalArgument)
    else Ok(SparseBitSet(levels, maximumOccupancy, CreateLevel(levels)))
  }

  /** `new DefaultSparseBitSet(levels)`: the precise set, threshold 256. */
  function CreatePrecise(levels: int): (r: Result<SparseBitSet>)
    ensures r.Ok? <==> levels > 0
    ensures r.Fail? ==> r.error == IllegalArgument
    ensures r.Ok? ==> Inv(r.value) && r.value.levels == levels && r.value.maximumOccupancy == LEVEL_SIZE
    ensures r.Ok? ==> forall x: Key {:trigger Bit(r.value, x)} | |x| >= levels :: !Bit(r.value, x)
  {
    Create(levels, LEVEL_SIZE)
  }

  /** `createWithLevels(levels)`. */
  function CreateWithLevels(levels: int): (r: Result<SparseBitSet>)
    ensures r == CreatePrecise(levels)
    ensures r.Fail? <==> levels <= 0
  {
    if levels <= 0 then Fail(IllegalArgument) else CreatePrecise(levels)
  }

  /** `createWithBits(bits)`: a positive multiple of 8 bits, one level per byte. */
  function CreateWithBits(bits: int): (r: Result<SparseBitSet>)
    ensures r.Ok? <==> bits > 0 && bits % 8 == 0
    ensures r.Fail? ==> r.error == IllegalArgument
    ensures r.Ok? ==> Inv(r.value) && r.value.levels * 8 == bits && r.value.maximumOccupancy == LEVEL_SIZE
    ensures r.Ok? ==> forall x: Key {:trigger Bit(r.value, x)} | |x| >= r.value.levels :: !Bit(r.value, x)
  {
    if bits <= 0 then Fail(IllegalArgument)
    else if bits % 8 > 0 then Fail(IllegalArgument)
    else CreatePrecise(bits / 8)
  }

  // ---------------------------------------------------------------- single bits

  /** `checkIndex(index)`: a null index, or one with fewer levels than the set, is an
      illegal argument; otherwise the segments the tree will read. */
  function CheckIndex(s: SparseBitSet, ix: Option<Index>): (r: Result<Key>)
    requires s.levels >= 0
    ensures r.Ok? <==> Admits(s, ix)
    ensures r.Fail? ==> r.error == IllegalArgument
    ensures r.Ok? ==> |r.value| == s.levels
    ensures r.Ok? ==> forall l | 0 <= l < s.levels :: Segment(ix.value, l) == Ok(r.value[l])
  {
    match ix
    case None => Fail(IllegalArgument)
    case Some(i) => if !Addressable(s, i) then Fail(IllegalArgument) else Ok(KeyOf(i, s.levels))
  }

  /** `get(index)`. */
  function Get(s: SparseBitSet, ix: Option<Index>): (r: Result<bool>)
    requires Inv(s)
    ensures r.Ok? <==> Admits(s, ix)
    ensures r.Fail? ==> r.error == IllegalArgument
    ensures r.Ok? ==> r.value == Holds(s, ix.value)
  {
    match CheckIndex(s, ix)
    case Fail(e) => Fail(e)
    case Ok(k) => Ok(LevelN.Get(s.base, k))
  }

  /** `set(index)`: the new set and its result. Corrected, the result is whether the bit
      was clear before. As written it is also `true` when the index's path meets a
      collapsed slot, whose bits are all set already; both revisions build the same set. */
  function Set(s: SparseBitSet, ix: Option<Index>, rev: Revision): (r: Result<(SparseBitSet, bool)>)
    requires Inv(s)
    ensures r.Ok? <==> Admits(s, ix)
    ensures r.Fail? ==> r.error == IllegalArgument
    ensures r.Ok? ==> var (s', changed) := r.value;
      && Inv(s') && s'.levels == s.levels && s'.maximumOccupancy == s.maximumOccupancy
      && changed == (!Holds(s, ix.value) || (rev == AsWritten && BitSemantics.PathCollapsed(s.base, KeyFor(s, ix.value))))
  {
    match CheckIndex(s, ix)
    case Fail(e) => Fail(e)
    case Ok(k) =>
      BitSemantics.SetRevisions(s.base, k, s.maximumOccupancy);
      var (b, changed) := LevelN.Set(s.base, k, s.maximumOccupancy, rev);
      Ok((s.(base := b), changed))
  }

  /** Both revisions of `set(index)` leave the same set. */
  lemma SetRevisionsAgree(s: SparseBitSet, ix: Index)
    requires Inv(s) && Addressable(s, ix)
    ensures Set(s, Some(ix), AsWritten).value.0 == Set(s, Some(ix), Corrected).value.0
  {
    assert CheckIndex(s, Some(ix)) == Ok(KeyFor(s, ix));
    BitSemantics.SetRevisions(s.base, KeyFor(s, ix), s.maximumOccupancy);
  }

  /** `clear(index)`: the new set and whether the bit was set before. */
  function Clear(s: SparseBitSet, ix: Option<Index>): (r: Result<(SparseBitSet, bool)>)
    requires Inv(s)
    ensures r.Ok? <==> Admits(s, ix)
    ensures r.Fail? ==> r.error == IllegalArgument
    ensures r.Ok? ==> var (s', changed) := r.value;
      && Inv(s') && s'.levels == s.levels && s'.maximumOccupancy == s.maximumOccupancy
      && changed == Holds(s, ix.value)
  {
    match CheckIndex(s, ix)
    case Fail(e) => Fail(e)
    case Ok(k) =>
      var (b, changed) := LevelN.Clear(s.base, k);
      Ok((s.(base := b), changed))
  }

  /** `flip(index)`. */
  function Flip(s: SparseBitSet, ix: Option<Index>): (r: Result<SparseBitSet>)
    requires Inv(s)
    ensures r.Ok? <==> Admits(s, ix)
    ensures r.Fail? ==> r.error == IllegalArgument
    ensures r.Ok? ==> Inv(r.value) && r.value.levels == s.levels && r.value.maximumOccupancy == s.maximumOccupancy
  {
    match CheckIndex(s, ix)
    case Fail(e) => Fail(e)
    case Ok(k) => Ok(s.(base := LevelN.Flip(s.base, k, s.maximumOccupancy)))
  }

  /** After `set(ix)` the bit of ix is set and every bit that was set still is; in a
      precise set no other bit changes. A lower threshold may collapse a slot early and so
      set neighbours of ix as well. */
  lemma SetThenGet(s: SparseBitSet, ix: Index, y: Index, rev: Revision)
    requires Inv(s) && Addressable(s, ix) && Addressable(s, y)
    ensures var s' := Set(s, Some(ix), rev).value.0;
      && (SameBit(s, ix, y) || Holds(s, y) ==> Holds(s', y))
      && (s.maximumOccupancy == LEVEL_SIZE ==> (Holds(s', y) <==> SameBit(s, ix, y) || Holds(s, y)))
  {
    SameBitIsSameKey(s, y, ix);
    BitSemantics.SetEffect(s.base, KeyFor(s, ix), s.maximumOccupancy, rev, KeyFor(s, y));
  }

  /** After `clear(ix)` the bit of ix is clear and every other bit is as it was, for every
      threshold. */
  lemma ClearThenGet(s: SparseBitSet, ix: Index, y: Index)
    requires Inv(s) && Addressable(s, ix) && Addressable(s, y)
    ensures Holds(Clear(s, Some(ix)).value.0, y) <==> !SameBit(s, ix, y) && Holds(s, y)
  {
    SameBitIsSameKey(s, y, ix);
    BitSemantics.ClearEffect(s.base, KeyFor(s, ix), KeyFor(s, y));
  }

  /** After `flip(ix)` the bit of ix is inverted and, in a precise set, no other bit
      changes; with a lower threshold every bit it should leave set is set. */
  lemma FlipThenGet(s: SparseBitSet, ix: Index, y: Index)
    requires Inv(s) && Addressable(s, ix) && Addressable(s, y)
    ensures var s' := Flip(s, Some(ix)).value;
      && ((if SameBit(s, ix, y) then !Holds(s, y) else Holds(s, y)) ==> Holds(s', y))
      && (s.maximumOccupancy == LEVEL_SIZE ==>
            (Holds(s', y) <==> if SameBit(s, ix, y) then !Holds(s, y) else Holds(s, y)))
  {
    SameBitIsSameKey(s, y, ix);
    BitSemantics.FlipEffect(s.base, KeyFor(s, ix), s.maximumOccupancy, KeyFor(s, y));
  }

  /** A second `set` of the same index reports no change when corrected; as written it
      reports one exactly when the path of the index meets a collapsed slot, as it does
      after the first `set` collapsed the slot. */
  lemma SetIdempotent(s: SparseBitSet, ix: Index, rev: Revision)
    requires Inv(s) && Addressable(s, ix)
    ensures var s1 := Set(s, Some(ix), rev).value.0;
      Set(s1, Some(ix), rev).value.1 <==> rev == AsWritten && BitSemantics.PathCollapsed(s1.base, KeyFor(s, ix))
  {
    SetThenGet(s, ix, ix, rev);
  }

  /** A second `clear` of the same index reports no change. */
  lemma ClearIdempotent(s: SparseBitSet, ix: Index)
    requires Inv(s) && Addressable(s, ix)
    ensures !Clear(Clear(s, Some(ix)).value.0, Some(ix)).value.1
  {
    ClearThenGet(s, ix, ix);
  }

  /** In a precise set, flipping an index twice restores every bit. */
  lemma FlipTwice(s: SparseBitSet, ix: Index, y: Index)
    requires Inv(s) && Addressable(s, ix) && Addressable(s, y)
    requires s.maximumOccupancy == LEVEL_SIZE
    ensures Holds(Flip(Flip(s, Some(ix)).value, Some(ix)).value, y) == Holds(s, y)
  {
    var s1 := Flip(s, Some(ix)).value;
    FlipThenGet(s, ix, y);
    FlipThenGet(s1, ix, y);
  }

  /** Whatever the threshold, `set(ix)` and `flip(ix)` leave every bit under another slot
      of the top tier as it was: an early collapse stays inside the slot of ix. */
  lemma SetSparesOtherSlots(s: SparseBitSet, ix: Index, y: Index)
    requires Inv(s) && Addressable(s, ix) && Addressable(s, y)
    requires KeyFor(s, ix)[s.levels - 1] != KeyFor(s, y)[s.levels - 1]
    ensures Holds(Set(s, Some(ix), Corrected).value.0, y) == Holds(s, y)
    ensures Holds(Flip(s, Some(ix)).value, y) == Holds(s, y)
  {
    var k, x, m := KeyFor(s, ix), KeyFor(s, y), s.maximumOccupancy;
    assert CheckIndex(s, Some(ix)) == Ok(k);
    if s.base.Inner? {
      Tidy.SparesOtherSlots(s.base, k, m, x);
    }
  }

  // ---------------------------------------------------------------- whole set

  /** `isEmpty()`: the root's counters; an empty set holds no bit, whatever the threshold. */
  function IsEmptySet(s: SparseBitSet): (r: bool)
    requires Inv(s)
    ensures r ==> forall x: Key {:trigger Bit(s, x)} | |x| >= s.levels :: !Bit(s, x)
  {
    if IsEmpty(s.base) then EmptyHoldsNothing(s.base); true else false
  }

  /** `isFull()`: the root's counters against the threshold; a full precise set holds every
      bit (with a lower threshold "full" means only "collapsed"). */
  function IsFullSet(s: SparseBitSet): (r: bool)
    requires Inv(s)
    ensures r && s.maximumOccupancy == LEVEL_SIZE ==> forall x: Key {:trigger Bit(s, x)} | |x| >= s.levels :: Bit(s, x)
  {
    if IsFull(s.base, s.maximumOccupancy) then
      if s.maximumOccupancy == LEVEL_SIZE then FullHoldsEverything(s.base); true else true
    else false
  }

  /** `setAll()`. */
  function SetAll(s: SparseBitSet): (r: SparseBitSet)
    requires Inv(s)
    ensures Inv(r) && r.levels == s.levels && r.maximumOccupancy == s.maximumOccupancy
    ensures IsFullSet(r)
    ensures forall x: Key {:trigger Bit(r, x)} | |x| >= s.levels :: Bit(r, x)
  {
    s.(base := LevelN.SetAll(s.base))
  }

  /** `clearAll()`. */
  function ClearAll(s: SparseBitSet): (r: SparseBitSet)
    requires Inv(s)
    ensures Inv(r) && r.levels == s.levels && r.maximumOccupancy == s.maximumOccupancy
    ensures IsEmptySet(r)
    ensures forall x: Key {:trigger Bit(r, x)} | |x| >= s.levels :: !Bit(r, x)
  {
    s.(base := LevelN.ClearAll(s.base))
  }

  /** `flipAll()`. */
  function FlipAll(s: SparseBitSet): (r: SparseBitSet)
    requires Inv(s)
    ensures Inv(r) && r.levels == s.levels && r.maximumOccupancy == s.maximumOccupancy
  {
    s.(base := LevelNRange.FlipAll(s.base, s.maximumOccupancy))
  }

  /** After `flipAll()` every bit that was clear is set; in a precise set exactly those. */
  lemma FlipAllThenGet(s: SparseBitSet, x: Key)
    requires Inv(s) && |x| >= s.levels
    ensures !Bit(s, x) ==> Bit(FlipAll(s), x)
    ensures s.maximumOccupancy == LEVEL_SIZE ==> (Bit(FlipAll(s), x) <==> !Bit(s, x))
  {
    RangeSemantics.FlipAllEffect(s.base, s.maximumOccupancy, x);
  }

  /** `validate()`: raises IllegalStateException exactly when a counter disagrees with the
      slots or bits it counts; every set an operation here returns passes. */
  function ValidateSet(s: SparseBitSet): (r: Result<()>)
    ensures r.Ok? <==> Validate(s.base)
    ensures r.Fail? ==> r.error == IllegalState
    ensures Inv(s) ==> r.Ok?
  {
    if Validate(s.base) then Ok(()) else Fail(IllegalState)
  }

  // ---------------------------------------------------------------- ranges

  /** `set`, `clear` and `flip` of the inclusive range [from, to]: both indices are
      checked, then the root runs the range. Every ordered range is carried out. Corrected,
      every reversed range is an illegal argument; as written, only one whose bounds are
      reversed in a segment some level checks, so one reversed only below a slot that an
      operation handles whole (an absent slot for `clear`, a collapsed one for `set`)
      passes without an exception. */
  function RangeOp(op: Op, s: SparseBitSet, f: Option<Index>, t: Option<Index>, rev: Revision): (r: Result<SparseBitSet>)
    requires Inv(s)
    ensures r.Ok? ==> Admits(s, f) && Admits(s, t)
    ensures Admits(s, f) && Admits(s, t) && LeUpTo(KeyFor(s, f.value), KeyFor(s, t.value), s.levels - 1) ==> r.Ok?
    ensures rev == Corrected && r.Ok? ==> LeUpTo(KeyFor(s, f.value), KeyFor(s, t.value), s.levels - 1)
    ensures r.Fail? ==> r.error == IllegalArgument
    ensures r.Ok? ==> Inv(r.value) && r.value.levels == s.levels && r.value.maximumOccupancy == s.maximumOccupancy
  {
    match CheckIndex(s, f)
    case Fail(e) => Fail(e)
    case Ok(kf) =>
      match CheckIndex(s, t)
      case Fail(e) => Fail(e)
      case Ok(kt) =>
        match LevelNRange.Range(op, s.base, kf, kt, s.maximumOccupancy, rev)
        case Done(b) => Ok(s.(base := b))
        case Raised(_, e) => Fail(e)
  }

  /** An admitted, ordered range reaches the root's range operation. */
  lemma RangeOpRuns(op: Op, s: SparseBitSet, f: Index, t: Index, rev: Revision)
    requires Inv(s) && Addressable(s, f) && Addressable(s, t)
    requires LeUpTo(KeyFor(s, f), KeyFor(s, t), s.levels - 1)
    ensures RangeOp(op, s, Some(f), Some(t), rev)
         == Ok(s.(base := LevelNRange.Range(op, s.base, KeyFor(s, f), KeyFor(s, t), s.maximumOccupancy, rev).node))
  {
    CheckedKey(s, f);
    CheckedKey(s, t);
    var o := LevelNRange.Range(op, s.base, KeyFor(s, f), KeyFor(s, t), s.maximumOccupancy, rev);
    assert o.Done? by {
      assert Height(s.base) == s.levels - 1;
    }
    assert RangeOp(op, s, Some(f), Some(t), rev) == Ok(s.(base := o.node));
  }

  /** Whatever the revision, bounds reversed in the root's own segment are an illegal
      argument: the root checks its segments before it touches any slot. */
  lemma RangeOpRefusesTopReversal(op: Op, s: SparseBitSet, f: Index, t: Index, rev: Revision)
    requires Inv(s) && Addressable(s, f) && Addressable(s, t)
    requires KeyFor(s, f)[s.levels - 1] > KeyFor(s, t)[s.levels - 1]
    ensures RangeOp(op, s, Some(f), Some(t), rev) == Fail(IllegalArgument)
  {
    CheckedKey(s, f);
    CheckedKey(s, t);
    assert Height(s.base) == s.levels - 1;
  }

  /** An admitted index passes `checkIndex` with its key. */
  lemma CheckedKey(s: SparseBitSet, ix: Index)
    requires s.levels >= 0 && Addressable(s, ix)
    ensures CheckIndex(s, Some(ix)) == Ok(KeyFor(s, ix))
  {
  }

  /** After a range operation every bit inside [from, to] carries the operation's value and
      every bit outside keeps its own, exactly for `clear` and for a precise set; with a
      lower threshold `set` and `flip` may set further bits of slots they collapse. As
      written this holds for bounds whose lower segments are aligned to the slots the
      whole-slot shortcut reads. */
  lemma RangeThenGet(op: Op, s: SparseBitSet, f: Index, t: Index, y: Index, rev: Revision)
    requires Inv(s) && Addressable(s, f) && Addressable(s, t) && Addressable(s, y)
    requires LeUpTo(KeyFor(s, f), KeyFor(s, t), s.levels - 1)
    requires rev == Corrected || Aligned(KeyFor(s, f), KeyFor(s, t), s.levels - 1)
    ensures var r := RangeOp(op, s, Some(f), Some(t), rev);
      && r.Ok?
      && (ExpectedBit(op, s, f, t, y) ==> Holds(r.value, y))
      && (s.maximumOccupancy == LEVEL_SIZE || op == ClearOp ==> (Holds(r.value, y) <==> ExpectedBit(op, s, f, t, y)))
  {
    RangeOpRuns(op, s, f, t, rev);
    RangeBit(op, s, f, t, y, rev);
  }

  /** The bit of y that a range operation of [f, t] should leave: the operation's value
      inside the range, the old bit outside it (the root's Expected at the three keys). */
  ghost predicate ExpectedBit(op: Op, s: SparseBitSet, f: Index, t: Index, y: Index)
    requires Inv(s) && Addressable(s, f) && Addressable(s, t) && Addressable(s, y)
  {
    Expected(op, s.base, KeyFor(s, f), KeyFor(s, t), KeyFor(s, y))
  }

  /** RangeThenGet for the root's range operation itself. */
  lemma RangeBit(op: Op, s: SparseBitSet, f: Index, t: Index, y: Index, rev: Revision)
    requires Inv(s) && Addressable(s, f) && Addressable(s, t) && Addressable(s, y)
    requires rev == Corrected || Aligned(KeyFor(s, f), KeyFor(s, t), s.levels - 1)
    ensures var s' := s.(base := LevelNRange.Range(op, s.base, KeyFor(s, f), KeyFor(s, t), s.maximumOccupancy, rev).node);
      && Inv(s')
      && (ExpectedBit(op, s, f, t, y) ==> Holds(s', y))
      && (s.maximumOccupancy == LEVEL_SIZE || op == ClearOp ==> (Holds(s', y) <==> ExpectedBit(op, s, f, t, y)))
  {
    var kf, kt, x := KeyFor(s, f), KeyFor(s, t), KeyFor(s, y);
    RangeKeys(op, s, kf, kt, x, rev);
    HoldsWithBase(s, LevelNRange.Range(op, s.base, kf, kt, s.maximumOccupancy, rev).node, y);
  }

  /** The bit of y in the set with a new root of the same height. */
  lemma HoldsWithBase(s: SparseBitSet, b: Node, y: Index)
    requires Inv(s) && Addressable(s, y)
    requires b.Real() && Valid(b) && Height(b) == s.levels - 1
    ensures Inv(s.(base := b)) && Holds(s.(base := b), y) == Contains(b, KeyFor(s, y))
  {
  }

  /** RangeBit for keys. */
  lemma RangeKeys(op: Op, s: SparseBitSet, f: Key, t: Key, x: Key, rev: Revision)
    requires Inv(s) && |f| == |t| == |x| == s.levels
    requires rev == Corrected || Aligned(f, t, s.levels - 1)
    ensures var b := LevelNRange.Range(op, s.base, f, t, s.maximumOccupancy, rev).node;
      var expected := Expected(op, s.base, f, t, x);
      && Valid(b) && b.Real() && Height(b) == s.levels - 1
      && (expected ==> Contains(b, x))
      && (s.maximumOccupancy == LEVEL_SIZE || op == ClearOp ==> (Contains(b, x) <==> expected))
  {
    RangeSemantics.RangeEffect(op, s.base, f, t, s.maximumOccupancy, rev, x);
  }

  // ---------------------------------------------------------------- precise sets

  /** A precise set whose levels are all tidy: the shape `set`, `clear`, `flip`, `setAll`
      and `clearAll` keep, and in which `isEmpty()` and `isFull()` speak for the bits. */
  predicate Precise(s: SparseBitSet)
  {
    s.maximumOccupancy == LEVEL_SIZE && Tidy.Tidy(s.base, LEVEL_SIZE)
  }

  /** In a tidy precise set the counters answer exactly: empty when no bit is set, full
      when every bit is. */
  lemma PreciseEmptyFull(s: SparseBitSet)
    requires Inv(s) && Precise(s)
    ensures IsEmptySet(s) ==> forall x: Key {:trigger Bit(s, x)} | |x| >= s.levels :: !Bit(s, x)
    ensures !IsEmptySet(s) ==> exists x: Key {:trigger Bit(s, x)} | |x| >= s.levels :: Bit(s, x)
    ensures IsFullSet(s) ==> forall x: Key {:trigger Bit(s, x)} | |x| >= s.levels :: Bit(s, x)
    ensures !IsFullSet(s) ==> exists x: Key {:trigger Bit(s, x)} | |x| >= s.levels :: !Bit(s, x)
  {
    Tidy.ExactEmptyFull(s.base);
    if !IsEmptySet(s) {
      var x: Key :| |x| > Height(s.base) && Contains(s.base, x);
      assert Bit(s, x);
    }
    if !IsFullSet(s) {
      var x: Key :| |x| > Height(s.base) && !Contains(s.base, x);
      assert !Bit(s, x);
    }
  }

  /** Every fresh precise set is tidy, and the single-bit and whole-set operations keep a
      precise set tidy. */
  lemma PreciseKept(s: SparseBitSet, ix: Index)
    requires Inv(s) && Precise(s) && Addressable(s, ix)
    ensures Precise(Set(s, Some(ix), Corrected).value.0)
    ensures Precise(Clear(s, Some(ix)).value.0)
    ensures Precise(Flip(s, Some(ix)).value)
    ensures Precise(SetAll(s)) && Precise(ClearAll(s))
  {
    var k := KeyFor(s, ix);
    Tidy.SetKeepsTidy(s.base, k, LEVEL_SIZE, Corrected);
    Tidy.ClearKeepsTidy(s.base, k);
    Tidy.FlipKeepsTidy(s.base, k, LEVEL_SIZE);
    Tidy.FreshTidy(s.base, LEVEL_SIZE);
  }

  /** A new precise set is tidy. */
  lemma CreatedPrecise(levels: int)
    requires levels > 0
    ensures Precise(CreatePrecise(levels).value)
  {
    Tidy.FreshTidy(CreateLevel(levels), LEVEL_SIZE);
  }

  /** In a precise set, clearing one index after `setAll()` leaves the set neither full nor
      empty, every other bit still set; setting it again makes the set full once more. */
  lemma ClearOneAfterSetAll(s: SparseBitSet, ix: Index)
    requires Inv(s) && Precise(s) && Addressable(s, ix)
    ensures var s1 := Clear(SetAll(s), Some(ix)).value.0;
      && !IsFullSet(s1)
      && !Get(s1, Some(ix)).value
      && (forall y: Index | Addressable(s, y) && !SameBit(s, ix, y) :: Holds(s1, y))
      && IsFullSet(Set(s1, Some(ix), Corrected).value.0)
  {
    var s0 := SetAll(s);
    PreciseKept(s, ix);
    var s1 := Clear(s0, Some(ix)).value.0;
    PreciseKept(s0, ix);
    forall y: Index | Addressable(s, y) && !SameBit(s, ix, y)
      ensures Holds(s1, y)
    {
      ClearThenGet(s0, ix, y);
    }
    ClearThenGet(s0, ix, ix);
    PreciseEmptyFull(s1);
    var s2 := Set(s1, Some(ix), Corrected).value.0;
    PreciseKept(s1, ix);
    forall x: Key {:trigger Bit(s2, x)} | |x| >= s.levels
      ensures Bit(s2, x)
    {
      var k := KeyFor(s, ix);
      BitSemantics.ClearEffect(s0.base, k, x);
      BitSemantics.SetEffect(s1.base, k, LEVEL_SIZE, Corrected, x);
    }
    PreciseEmptyFull(s2);
  }
}
