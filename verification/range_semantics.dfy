/** What the bulk operations do to the set of keys a level holds. With bounds the
    whole-slot shortcut reads correctly (always when corrected, and as written when
    the bounds are aligned), `clear` of [from, to] removes exactly the keys in the range
    at every threshold, and `set` and `flip` do exactly what they say when the threshold
    is 256; with a smaller threshold they leave every bit they should set set, and may
    set the rest of a slot they collapse. A reversed range changes no bit. */
module RangeSemantics {
  import opened Errors
  import opened SparseBitUtil
  import opened Keys
  import opened Levels
  import opened LevelN
  import opened LevelNRange
  import Level0

  /** The bit slot s of tier n should hold for key x after the segment helper handled
      it with the bounds f and t, which the level below reads. */
  ghost function SlotExpected(op: Op, n: Node, f: Key, t: Key, x: Key): bool
    requires Tier(n) && |f| >= n.level && |t| >= n.level && |x| > n.level
  {
    if InRange(x, f, t, n.level - 1) then Apply(op, Contains(n, x)) else Contains(n, x)
  }

  /** Two tiers at one level that agree on x expect the same after any range operation. */
  lemma SameExpectation(op: Op, a: Node, b: Node, f: Key, t: Key, x: Key)
    requires Tier(a) && Tier(b) && a.level == b.level
    requires |f| >= a.level && |t| >= a.level && |x| > a.level
    requires Contains(a, x) == Contains(b, x)
    ensures SlotExpected(op, a, f, t, x) == SlotExpected(op, b, f, t, x)
  {
  }

  /** For a key under a materialised slot, the tier expects what the level below does. */
  lemma ExpectationBelow(op: Op, n: Node, f: Key, t: Key, s: Byte, x: Key)
    requires Tier(n) && Valid(n) && n.slots[s].Real() && |f| >= n.level && |t| >= n.level
    requires |x| > n.level && x[n.level] == s
    ensures Height(n.slots[s]) == n.level - 1
    ensures SlotExpected(op, n, f, t, x) == Expected(op, n.slots[s], f, t, x)
  {
    assert Valid(n.slots[s]) && Height(n.slots[s]) == n.level - 1;
    ContainsViaSlot(n, x);
  }

  /** The shortcut's test, read correctly, means every key below the slot is in range. */
  lemma ShortcutCovers(f: Key, t: Key, k: nat, rev: Revision, x: Key)
    requires |f| > k && |t| > k && |x| > k
    requires rev == Corrected || AlignedAt(f, t, k)
    requires Affected(f, t, k, rev) >= LEVEL_SIZE
    ensures InRange(x, f, t, k)
  {
    AffectedAllMeansCovered(f, t, k, rev);
    CoveringBounds(x, f, t, k);
  }

  /** A key in range lies between the bounds, so a reversed range holds no key. */
  lemma InRangeOrdered(x: Key, f: Key, t: Key, h: nat)
    requires |x| > h && |f| > h && |t| > h && InRange(x, f, t, h)
    ensures LeUpTo(f, t, h)
  {
    LeUpToTransitive(f, x, t, h);
  }

  lemma ContainsViaSlot(n: Node, x: Key)
    requires Tier(n) && |x| > n.level
    ensures Contains(n, x) == Contains(n.slots[x[n.level]], x)
  {
  }

  /** The bulk operation op of [f, t]: every bit it should leave set is set, and at
      threshold 256, or for `clear` at any threshold, no other bit is. */
  lemma {:induction false} RangeEffect(op: Op, n: Node, f: Key, t: Key, m: int, rev: Revision, x: Key)
    requires n.Real() && Valid(n) && ValidOccupancy(m)
    requires |f| > Height(n) && |t| > Height(n) && |x| > Height(n)
    requires rev == Corrected || Aligned(f, t, Height(n))
    ensures Expected(op, n, f, t, x) ==> Contains(Range(op, n, f, t, m, rev).node, x)
    ensures m == LEVEL_SIZE || op == ClearOp ==>
              Contains(Range(op, n, f, t, m, rev).node, x) ==> Expected(op, n, f, t, x)
    decreases Height(n), 4, 0
  {
    if InRange(x, f, t, Height(n)) {
      InRangeOrdered(x, f, t, Height(n));
    }
    if n.Inner? && !(rev == Corrected && !LeUpTo(f, t, n.level)) {
      RangeTierEffect(op, n, f, t, m, rev, x);
    }
  }

  /** RangeEffect on a tier whose bounds pass the corrected order check. */
  lemma {:induction false} RangeTierEffect(op: Op, n: Node, f: Key, t: Key, m: int, rev: Revision, x: Key)
    requires Tier(n) && Valid(n) && ValidOccupancy(m)
    requires |f| > n.level && |t| > n.level && |x| > n.level
    requires rev == Corrected || Aligned(f, t, n.level)
    requires rev == Corrected ==> LeUpTo(f, t, n.level)
    ensures Expected(op, n, f, t, x) ==> Contains(Range(op, n, f, t, m, rev).node, x)
    ensures m == LEVEL_SIZE || op == ClearOp ==>
              Contains(Range(op, n, f, t, m, rev).node, x) ==> Expected(op, n, f, t, x)
    decreases n.level, 3, 3
  {
    var r := Range(op, n, f, t, m, rev);
    var level := n.level;
    var sf := f[level];
    var st := t[level];
    if InRange(x, f, t, level) {
      InRangeOrdered(x, f, t, level);
    }
    if sf > st {
      assert r.node == n;
    } else if sf != st {
      assert CheckSegments(sf, st) == Ok(());
      CeilIsGreatest(level, f, level - 1);
      var o1 := Segment(op, n, f, Ceil(level), sf, m, rev);
      assert o1.Done?;
      assert r.node == SplitResult(op, n, f, t, m, rev);
      SplitEffect(op, n, f, t, m, rev, x);
    } else {
      assert CheckSegments(sf, st) == Ok(());
      assert r == Segment(op, n, f, t, sf, m, rev);
      RangeBySlot(x, f, t, level);
      ContainsViaSlot(n, x);
      ContainsViaSlot(r.node, x);
      SegmentEffect(op, n, f, t, sf, m, rev, x);
    }
  }

  /** The node a range whose bounds fall in different slots of tier n leaves: the first
      slot from f to MAX, then the slots between them whole, then the last slot from MIN
      to t. */
  ghost function SplitResult(op: Op, n: Node, f: Key, t: Key, m: int, rev: Revision): Node
    requires Tier(n) && |f| > n.level && |t| > n.level && f[n.level] < t[n.level]
  {
    var level := n.level;
    var o1 := Segment(op, n, f, Ceil(level), f[level], m, rev);
    var o2 := Slots(op, o1.node, f[level] + 1, t[level], m, rev);
    Segment(op, o2.node, Floor(level), t, t[level], m, rev).node
  }

  /** The split range leaves every bit it should; exactly, at threshold 256 or for
      `clear`. */
  lemma {:induction false} SplitEffect(op: Op, n: Node, f: Key, t: Key, m: int, rev: Revision, x: Key)
    requires Tier(n) && Valid(n) && ValidOccupancy(m)
    requires |f| > n.level && |t| > n.level && |x| > n.level && f[n.level] < t[n.level]
    requires rev == Corrected || Aligned(f, t, n.level)
    ensures Expected(op, n, f, t, x) ==> Contains(SplitResult(op, n, f, t, m, rev), x)
    ensures m == LEVEL_SIZE || op == ClearOp ==> Contains(SplitResult(op, n, f, t, m, rev), x) ==> Expected(op, n, f, t, x)
    decreases n.level, 3, 2
  {
    var level := n.level;
    RangeBySlot(x, f, t, level);
    if x[level] == f[level] {
      SplitFirst(op, n, f, t, m, rev, x);
    } else if x[level] == t[level] {
      SplitLast(op, n, f, t, m, rev, x);
    } else if f[level] < x[level] < t[level] {
      SplitMiddle(op, n, f, t, m, rev, x);
    } else {
      SplitOutside(op, n, f, t, m, rev, x);
    }
  }

  /** A key in the first slot: only the first step reaches it, with the bounds f and MAX. */
  lemma {:induction false} SplitFirst(op: Op, n: Node, f: Key, t: Key, m: int, rev: Revision, x: Key)
    requires Tier(n) && Valid(n) && ValidOccupancy(m)
    requires |f| > n.level && |t| > n.level && |x| > n.level && f[n.level] == x[n.level] < t[n.level]
    requires rev == Corrected || Aligned(f, t, n.level)
    ensures Expected(op, n, f, t, x) ==> Contains(SplitResult(op, n, f, t, m, rev), x)
    ensures m == LEVEL_SIZE || op == ClearOp ==> Contains(SplitResult(op, n, f, t, m, rev), x) ==> Expected(op, n, f, t, x)
    decreases n.level, 3, 1
  {
    var level := n.level;
    if rev == AsWritten {
      AlignedWithEnds(f, t, level);
    }
    var o1 := Segment(op, n, f, Ceil(level), f[level], m, rev);
    var o2 := Slots(op, o1.node, f[level] + 1, t[level], m, rev);
    assert SplitResult(op, n, f, t, m, rev) == Segment(op, o2.node, Floor(level), t, t[level], m, rev).node;
    SplitTailKeeps(op, o1.node, f, t, m, rev, x);
    FirstSlotExpectation(op, n, f, t, x);
    SegmentEffect(op, n, f, Ceil(level), f[level], m, rev, x);
  }

  /** For a key in the first slot, the range expects what the first step's bounds do. */
  lemma FirstSlotExpectation(op: Op, n: Node, f: Key, t: Key, x: Key)
    requires Tier(n) && |f| > n.level && |t| > n.level && |x| > n.level
    requires f[n.level] == x[n.level] < t[n.level]
    ensures Expected(op, n, f, t, x) == SlotExpected(op, n, f, Ceil(n.level), x)
  {
    RangeBySlot(x, f, t, n.level);
  }

  /** For a key in the last slot, the range expects what the last step's bounds do. */
  lemma LastSlotExpectation(op: Op, n: Node, f: Key, t: Key, x: Key)
    requires Tier(n) && |f| > n.level && |t| > n.level && |x| > n.level
    requires f[n.level] < x[n.level] == t[n.level]
    ensures Expected(op, n, f, t, x) == SlotExpected(op, n, Floor(n.level), t, x)
  {
    RangeBySlot(x, f, t, n.level);
  }

  /** The last two steps of a split range leave a key of the first slot alone. */
  lemma {:induction false} SplitTailKeeps(op: Op, n: Node, f: Key, t: Key, m: int, rev: Revision, x: Key)
    requires Tier(n) && Valid(n) && ValidOccupancy(m)
    requires |f| > n.level && |t| > n.level && |x| > n.level && x[n.level] == f[n.level] < t[n.level]
    requires rev == Corrected || Aligned(Floor(n.level), t, n.level)
    ensures var level := n.level;
      var o2 := Slots(op, n, f[level] + 1, t[level], m, rev);
      Contains(Segment(op, o2.node, Floor(level), t, t[level], m, rev).node, x) == Contains(n, x)
    decreases n.level, 3, 0
  {
    var level := n.level;
    var o2 := Slots(op, n, f[level] + 1, t[level], m, rev);
    SlotsEffect(op, n, f[level] + 1, t[level], m, rev, x);
    SegmentEffect(op, o2.node, Floor(level), t, t[level], m, rev, x);
  }

  /** The first two steps of a split range leave a key of the last slot alone. */
  lemma {:induction false} SplitHeadKeeps(op: Op, n: Node, f: Key, t: Key, m: int, rev: Revision, x: Key)
    requires Tier(n) && Valid(n) && ValidOccupancy(m)
    requires |f| > n.level && |t| > n.level && |x| > n.level && f[n.level] < x[n.level] == t[n.level]
    requires rev == Corrected || Aligned(f, Ceil(n.level), n.level)
    ensures var level := n.level;
      var o1 := Segment(op, n, f, Ceil(level), f[level], m, rev);
      Contains(Slots(op, o1.node, f[level] + 1, t[level], m, rev).node, x) == Contains(n, x)
    decreases n.level, 3, 0
  {
    var level := n.level;
    var o1 := Segment(op, n, f, Ceil(level), f[level], m, rev);
    SegmentEffect(op, n, f, Ceil(level), f[level], m, rev, x);
    SlotsEffect(op, o1.node, f[level] + 1, t[level], m, rev, x);
  }

  /** A key in the last slot: only the last step reaches it, with the bounds MIN and t. */
  lemma {:induction false} SplitLast(op: Op, n: Node, f: Key, t: Key, m: int, rev: Revision, x: Key)
    requires Tier(n) && Valid(n) && ValidOccupancy(m)
    requires |f| > n.level && |t| > n.level && |x| > n.level && f[n.level] < x[n.level] == t[n.level]
    requires rev == Corrected || Aligned(f, t, n.level)
    ensures Expected(op, n, f, t, x) ==> Contains(SplitResult(op, n, f, t, m, rev), x)
    ensures m == LEVEL_SIZE || op == ClearOp ==> Contains(SplitResult(op, n, f, t, m, rev), x) ==> Expected(op, n, f, t, x)
    decreases n.level, 3, 1
  {
    var level := n.level;
    if rev == AsWritten {
      AlignedWithEnds(f, t, level);
    }
    var o1 := Segment(op, n, f, Ceil(level), f[level], m, rev);
    var o2 := Slots(op, o1.node, f[level] + 1, t[level], m, rev);
    assert SplitResult(op, n, f, t, m, rev) == Segment(op, o2.node, Floor(level), t, t[level], m, rev).node;
    SplitHeadKeeps(op, n, f, t, m, rev, x);
    LastSlotExpectation(op, n, f, t, x);
    SameExpectation(op, o2.node, n, Floor(level), t, x);
    SegmentEffect(op, o2.node, Floor(level), t, t[level], m, rev, x);
  }

  /** A key in an interior slot: the middle step applies op to it whole. */
  lemma {:induction false} SplitMiddle(op: Op, n: Node, f: Key, t: Key, m: int, rev: Revision, x: Key)
    requires Tier(n) && Valid(n) && ValidOccupancy(m)
    requires |f| > n.level && |t| > n.level && |x| > n.level && f[n.level] < x[n.level] < t[n.level]
    requires rev == Corrected || Aligned(f, t, n.level)
    ensures Expected(op, n, f, t, x) ==> Contains(SplitResult(op, n, f, t, m, rev), x)
    ensures m == LEVEL_SIZE || op == ClearOp ==> Contains(SplitResult(op, n, f, t, m, rev), x) ==> Expected(op, n, f, t, x)
    decreases n.level, 3, 1
  {
    var n1 := SplitHead(op, n, f, t, m, rev, x);
    MiddleSlotExpectation(op, n, f, t, x);
    SplitTailApplies(op, n1, f, t, m, rev, x);
  }

  /** The first step of a split range: the node it leaves for the other two, which holds
      what n held outside the first slot. */
  lemma {:induction false} SplitHead(op: Op, n: Node, f: Key, t: Key, m: int, rev: Revision, x: Key)
      returns (n1: Node)
    requires Tier(n) && Valid(n) && ValidOccupancy(m)
    requires |f| > n.level && |t| > n.level && |x| > n.level && f[n.level] < t[n.level]
    requires rev == Corrected || Aligned(f, t, n.level)
    ensures Tier(n1) && Valid(n1) && n1.level == n.level
    ensures rev == Corrected || Aligned(Floor(n.level), t, n.level)
    ensures x[n.level] != f[n.level] ==> Contains(n1, x) == Contains(n, x)
    ensures SplitResult(op, n, f, t, m, rev)
              == Segment(op, Slots(op, n1, f[n.level] + 1, t[n.level], m, rev).node, Floor(n.level), t, t[n.level], m, rev).node
    decreases n.level, 3, 0
  {
    var level := n.level;
    if rev == AsWritten {
      AlignedWithEnds(f, t, level);
    }
    n1 := Segment(op, n, f, Ceil(level), f[level], m, rev).node;
    SegmentEffect(op, n, f, Ceil(level), f[level], m, rev, x);
  }

  /** The last two steps of a split range apply op to a key of an interior slot. */
  lemma {:induction false} SplitTailApplies(op: Op, n: Node, f: Key, t: Key, m: int, rev: Revision, x: Key)
    requires Tier(n) && Valid(n) && ValidOccupancy(m)
    requires |f| > n.level && |t| > n.level && |x| > n.level && f[n.level] < x[n.level] < t[n.level]
    requires rev == Corrected || Aligned(Floor(n.level), t, n.level)
    ensures var level := n.level;
      var o2 := Slots(op, n, f[level] + 1, t[level], m, rev);
      var r := Segment(op, o2.node, Floor(level), t, t[level], m, rev).node;
      && (Apply(op, Contains(n, x)) ==> Contains(r, x))
      && (m == LEVEL_SIZE || op == ClearOp ==> Contains(r, x) ==> Apply(op, Contains(n, x)))
    decreases n.level, 3, 0
  {
    var level := n.level;
    var o2 := Slots(op, n, f[level] + 1, t[level], m, rev);
    SlotsInside(op, n, f[level] + 1, t[level], m, rev, x);
    SegmentEffect(op, o2.node, Floor(level), t, t[level], m, rev, x);
  }

  /** For a key in an interior slot, the range applies op to it. */
  lemma MiddleSlotExpectation(op: Op, n: Node, f: Key, t: Key, x: Key)
    requires Tier(n) && |f| > n.level && |t| > n.level && |x| > n.level
    requires f[n.level] < x[n.level] < t[n.level]
    ensures Expected(op, n, f, t, x) == Apply(op, Contains(n, x))
  {
    RangeBySlot(x, f, t, n.level);
  }

  /** A key outside the slots of the range: no step changes it. */
  lemma {:induction false} SplitOutside(op: Op, n: Node, f: Key, t: Key, m: int, rev: Revision, x: Key)
    requires Tier(n) && Valid(n) && ValidOccupancy(m)
    requires |f| > n.level && |t| > n.level && |x| > n.level && f[n.level] < t[n.level]
    requires x[n.level] < f[n.level] || t[n.level] < x[n.level]
    requires rev == Corrected || Aligned(f, t, n.level)
    ensures Contains(SplitResult(op, n, f, t, m, rev), x) == Contains(n, x)
    ensures !Expected(op, n, f, t, x) == !Contains(n, x)
    decreases n.level, 3, 1
  {
    var level := n.level;
    if rev == AsWritten {
      AlignedWithEnds(f, t, level);
    }
    var o1 := Segment(op, n, f, Ceil(level), f[level], m, rev);
    var o2 := Slots(op, o1.node, f[level] + 1, t[level], m, rev);
    RangeBySlot(x, f, t, level);
    SegmentEffect(op, n, f, Ceil(level), f[level], m, rev, x);
    SlotsEffect(op, o1.node, f[level] + 1, t[level], m, rev, x);
    SegmentEffect(op, o2.node, Floor(level), t, t[level], m, rev, x);
  }

  /** The interior slots lo .. hi - 1, each covered whole: op applied to every bit under
      them (exactly, at threshold 256 or for `clear`), no other slot touched. */
  lemma SlotsEffect(op: Op, n: Node, lo: int, hi: int, m: int, rev: Revision, x: Key)
    requires Tier(n) && Valid(n) && ValidOccupancy(m) && 0 <= lo && hi <= LEVEL_SIZE
    requires |x| > n.level
    ensures !(lo <= x[n.level] < hi) ==> Contains(Slots(op, n, lo, hi, m, rev).node, x) == Contains(n, x)
    ensures lo <= x[n.level] < hi ==> Apply(op, Contains(n, x)) ==> Contains(Slots(op, n, lo, hi, m, rev).node, x)
    ensures lo <= x[n.level] < hi && (m == LEVEL_SIZE || op == ClearOp) ==>
              Contains(Slots(op, n, lo, hi, m, rev).node, x) ==> Apply(op, Contains(n, x))
    decreases n.level, 2, hi - lo, 2
  {
    if lo <= x[n.level] < hi {
      SlotsInside(op, n, lo, hi, m, rev, x);
    } else {
      SlotsFrame(op, n, lo, hi, m, rev, x);
    }
  }

  /** One step of the slot loop: slot lo handled whole, then the rest. */
  lemma SlotsStep(op: Op, n: Node, lo: int, hi: int, m: int, rev: Revision, x: Key)
    requires Tier(n) && Valid(n) && ValidOccupancy(m) && 0 <= lo < hi <= LEVEL_SIZE
    requires |x| > n.level
    ensures var o := Segment(op, n, Floor(n.level), Ceil(n.level), lo, m, rev);
      && (x[n.level] != lo ==> Contains(o.node, x) == Contains(n, x))
      && (x[n.level] == lo ==> Apply(op, Contains(n, x)) ==> Contains(o.node, x))
      && (x[n.level] == lo && (m == LEVEL_SIZE || op == ClearOp) ==>
            Contains(o.node, x) ==> Apply(op, Contains(n, x)))
    decreases n.level, 2, hi - lo, 0
  {
    FloorIsLeast(n.level, Ceil(n.level), n.level - 1);
    FloorIsLeast(n.level, x, n.level - 1);
    CeilIsGreatest(n.level, x, n.level - 1);
    assert InRange(x, Floor(n.level), Ceil(n.level), n.level - 1);
    SegmentEffect(op, n, Floor(n.level), Ceil(n.level), lo, m, rev, x);
  }

  /** The slot loop's first iteration. */
  lemma SlotsUnfold(op: Op, n: Node, lo: int, hi: int, m: int, rev: Revision)
    requires Tier(n) && 0 <= lo < hi <= LEVEL_SIZE
    ensures var o := Segment(op, n, Floor(n.level), Ceil(n.level), lo, m, rev);
      Slots(op, n, lo, hi, m, rev) == Slots(op, o.node, lo + 1, hi, m, rev)
  {
    FloorIsLeast(n.level, Ceil(n.level), n.level - 1);
  }

  /** The slot loop leaves every key outside its slots alone. */
  lemma {:induction false} SlotsFrame(op: Op, n: Node, lo: int, hi: int, m: int, rev: Revision, x: Key)
    requires Tier(n) && Valid(n) && ValidOccupancy(m) && 0 <= lo && hi <= LEVEL_SIZE
    requires |x| > n.level && !(lo <= x[n.level] < hi)
    ensures Contains(Slots(op, n, lo, hi, m, rev).node, x) == Contains(n, x)
    decreases n.level, 2, hi - lo, 1
  {
    if lo < hi {
      SlotsStep(op, n, lo, hi, m, rev, x);
      SlotsUnfold(op, n, lo, hi, m, rev);
      var o := Segment(op, n, Floor(n.level), Ceil(n.level), lo, m, rev);
      SlotsFrame(op, o.node, lo + 1, hi, m, rev, x);
    }
  }

  /** The slot loop applies op to every key under its slots. */
  lemma {:induction false} SlotsInside(op: Op, n: Node, lo: int, hi: int, m: int, rev: Revision, x: Key)
    requires Tier(n) && Valid(n) && ValidOccupancy(m) && 0 <= lo && hi <= LEVEL_SIZE
    requires |x| > n.level && lo <= x[n.level] < hi
    ensures Apply(op, Contains(n, x)) ==> Contains(Slots(op, n, lo, hi, m, rev).node, x)
    ensures m == LEVEL_SIZE || op == ClearOp ==>
              Contains(Slots(op, n, lo, hi, m, rev).node, x) ==> Apply(op, Contains(n, x))
    decreases n.level, 2, hi - lo, 1
  {
    SlotsStep(op, n, lo, hi, m, rev, x);
    SlotsUnfold(op, n, lo, hi, m, rev);
    var o := Segment(op, n, Floor(n.level), Ceil(n.level), lo, m, rev);
    if x[n.level] == lo {
      SlotsFrame(op, o.node, lo + 1, hi, m, rev, x);
    } else {
      SlotsInside(op, o.node, lo + 1, hi, m, rev, x);
    }
  }

  /** Slot s handled for the bounds f and t: the bits under it become what the level
      below should hold, and no other slot changes. */
  lemma {:induction false} SegmentEffect(op: Op, n: Node, f: Key, t: Key, s: Byte, m: int, rev: Revision, x: Key)
    requires Tier(n) && Valid(n) && ValidOccupancy(m) && |f| >= n.level && |t| >= n.level
    requires |x| > n.level
    requires rev == Corrected || Aligned(f, t, n.level)
    ensures x[n.level] != s ==> Contains(Segment(op, n, f, t, s, m, rev).node, x) == Contains(n, x)
    ensures x[n.level] == s ==> SlotExpected(op, n, f, t, x) ==> Contains(Segment(op, n, f, t, s, m, rev).node, x)
    ensures x[n.level] == s && (m == LEVEL_SIZE || op == ClearOp) ==>
              Contains(Segment(op, n, f, t, s, m, rev).node, x) ==> SlotExpected(op, n, f, t, x)
    decreases n.level, 1, 0
  {
    var r := Segment(op, n, f, t, s, m, rev);
    ContainsViaSlot(n, x);
    ContainsViaSlot(r.node, x);
    if x[n.level] == s {
      match op
      case SetOp => SetSegmentEffect(n, f, t, s, m, rev, x);
      case ClearOp => ClearSegmentEffect(n, f, t, s, m, rev, x);
      case FlipOp => FlipSegmentEffect(n, f, t, s, m, rev, x);
    }
  }

  lemma {:induction false} SetSegmentEffect(n: Node, f: Key, t: Key, s: Byte, m: int, rev: Revision, x: Key)
    requires Tier(n) && Valid(n) && ValidOccupancy(m) && |f| >= n.level && |t| >= n.level
    requires |x| > n.level && x[n.level] == s
    requires rev == Corrected || Aligned(f, t, n.level)
    ensures SlotExpected(SetOp, n, f, t, x) ==> Contains(SetSegment(n, f, t, s, m, rev).node.slots[s], x)
    ensures m == LEVEL_SIZE ==>
              Contains(SetSegment(n, f, t, s, m, rev).node.slots[s], x) ==> SlotExpected(SetOp, n, f, t, x)
    decreases n.level, 0, 1
  {
    var k := n.level - 1;
    var r := SetSegment(n, f, t, s, m, rev);
    ContainsViaSlot(n, x);
    if n.slots[s].Full? {
      assert r == Done(n);
    } else if Affected(f, t, k, rev) >= m {
      assert r.node.slots[s] == Full;
      if m == LEVEL_SIZE {
        ShortcutCovers(f, t, k, rev, x);
      }
    } else {
      var u := Require(n, s);
      assert r == SetInside(u, f, t, s, m, rev);
      ContainsViaSlot(u, x);
      assert Contains(u, x) == Contains(n, x);
      SameExpectation(SetOp, u, n, f, t, x);
      SetInsideEffect(u, f, t, s, m, rev, x);
    }
  }

  /** The range set in the materialised slot, which is collapsed if it became full. */
  lemma {:induction false} SetInsideEffect(n: Node, f: Key, t: Key, s: Byte, m: int, rev: Revision, x: Key)
    requires Tier(n) && Valid(n) && ValidOccupancy(m) && n.slots[s].Real() && |f| >= n.level && |t| >= n.level
    requires |x| > n.level && x[n.level] == s
    requires rev == Corrected || Aligned(f, t, n.level)
    ensures SlotExpected(SetOp, n, f, t, x) ==> Contains(SetInside(n, f, t, s, m, rev).node.slots[s], x)
    ensures m == LEVEL_SIZE ==>
              Contains(SetInside(n, f, t, s, m, rev).node.slots[s], x) ==> SlotExpected(SetOp, n, f, t, x)
    decreases n.level, 0, 0
  {
    var c0 := n.slots[s];
    var o := Range(SetOp, c0, f, t, m, rev);
    ExpectationBelow(SetOp, n, f, t, s, x);
    RangeEffect(SetOp, c0, f, t, m, rev, x);
    if o.Done? && IsFull(o.node, m) && m == LEVEL_SIZE {
      FullHoldsEverything(o.node);
    }
  }

  lemma {:induction false} ClearSegmentEffect(n: Node, f: Key, t: Key, s: Byte, m: int, rev: Revision, x: Key)
    requires Tier(n) && Valid(n) && ValidOccupancy(m) && |f| >= n.level && |t| >= n.level
    requires |x| > n.level && x[n.level] == s
    requires rev == Corrected || Aligned(f, t, n.level)
    ensures Contains(ClearSegment(n, f, t, s, m, rev).node.slots[s], x) == SlotExpected(ClearOp, n, f, t, x)
    decreases n.level, 0, 1
  {
    var k := n.level - 1;
    var r := ClearSegment(n, f, t, s, m, rev);
    ContainsViaSlot(n, x);
    if Affected(f, t, k, rev) >= LEVEL_SIZE {
      ShortcutCovers(f, t, k, rev, x);
      assert r.node.slots[s] == Empty;
    } else if n.slots[s].Full? {
      var u := Unfold(n, s);
      assert r == ClearInside(u, f, t, s, m, rev, false);
      ContainsViaSlot(u, x);
      assert Contains(u, x) == Contains(n, x);
      ClearInsideEffect(u, f, t, s, m, rev, false, x);
      SameExpectation(ClearOp, u, n, f, t, x);
    } else if n.slots[s].Real() {
      assert r == ClearInside(n, f, t, s, m, rev, true);
      ClearInsideEffect(n, f, t, s, m, rev, true, x);
    } else {
      assert r == Done(n);
    }
  }

  lemma {:induction false} ClearInsideEffect(n: Node, f: Key, t: Key, s: Byte, m: int, rev: Revision, dismiss: bool, x: Key)
    requires Tier(n) && Valid(n) && ValidOccupancy(m) && n.slots[s].Real() && |f| >= n.level && |t| >= n.level
    requires |x| > n.level && x[n.level] == s
    requires rev == Corrected || Aligned(f, t, n.level)
    ensures Contains(ClearInside(n, f, t, s, m, rev, dismiss).node.slots[s], x) == SlotExpected(ClearOp, n, f, t, x)
    decreases n.level, 0, 0
  {
    var c0 := n.slots[s];
    var o := Range(ClearOp, c0, f, t, m, rev);
    ExpectationBelow(ClearOp, n, f, t, s, x);
    RangeEffect(ClearOp, c0, f, t, m, rev, x);
    if o.Done? && dismiss && IsEmpty(o.node) {
      EmptyHoldsNothing(o.node);
    }
  }

  lemma {:induction false} FlipSegmentEffect(n: Node, f: Key, t: Key, s: Byte, m: int, rev: Revision, x: Key)
    requires Tier(n) && Valid(n) && ValidOccupancy(m) && |f| >= n.level && |t| >= n.level
    requires |x| > n.level && x[n.level] == s
    requires rev == Corrected || Aligned(f, t, n.level)
    ensures SlotExpected(FlipOp, n, f, t, x) ==> Contains(FlipSegment(n, f, t, s, m, rev).node.slots[s], x)
    ensures m == LEVEL_SIZE ==>
              Contains(FlipSegment(n, f, t, s, m, rev).node.slots[s], x) ==> SlotExpected(FlipOp, n, f, t, x)
    decreases n.level, 0, 1
  {
    var k := n.level - 1;
    var r := FlipSegment(n, f, t, s, m, rev);
    ContainsViaSlot(n, x);
    if Affected(f, t, k, rev) >= LEVEL_SIZE && !n.slots[s].Real() {
      assert r.node.slots[s] == if n.slots[s].Full? then Empty else Full;
      ShortcutCovers(f, t, k, rev, x);
    } else {
      var u := Open(n, s);
      assert r == FlipInside(u, f, t, s, m, rev);
      ContainsViaSlot(u, x);
      assert Contains(u, x) == Contains(n, x);
      SameExpectation(FlipOp, u, n, f, t, x);
      FlipInsideEffect(u, f, t, s, m, rev, x);
    }
  }

  /** The materialised slot flipped in the level below and then reclassified. */
  lemma {:induction false} FlipInsideEffect(n: Node, f: Key, t: Key, s: Byte, m: int, rev: Revision, x: Key)
    requires Tier(n) && Valid(n) && ValidOccupancy(m) && n.slots[s].Real() && |f| >= n.level && |t| >= n.level
    requires |x| > n.level && x[n.level] == s
    requires rev == Corrected || Aligned(f, t, n.level)
    ensures SlotExpected(FlipOp, n, f, t, x) ==> Contains(FlipInside(n, f, t, s, m, rev).node.slots[s], x)
    ensures m == LEVEL_SIZE ==>
              Contains(FlipInside(n, f, t, s, m, rev).node.slots[s], x) ==> SlotExpected(FlipOp, n, f, t, x)
    decreases n.level, 0, 0
  {
    var c0 := n.slots[s];
    var o := Range(FlipOp, c0, f, t, m, rev);
    var after := FlipInside(n, f, t, s, m, rev).node.slots[s];
    ExpectationBelow(FlipOp, n, f, t, s, x);
    RangeEffect(FlipOp, c0, f, t, m, rev, x);
    FlipInsideSlot(n, f, t, s, m, rev);
    if o.Done? {
      ReclassifiedSlot(o.node, after, m, x);
    }
  }

  /** The slot FlipInside leaves: the flipped level below, reclassified unless the flip
      raised. */
  lemma FlipInsideSlot(n: Node, f: Key, t: Key, s: Byte, m: int, rev: Revision)
    requires Tier(n) && n.slots[s].Real() && |f| >= n.level && |t| >= n.level
    ensures var o := Range(FlipOp, n.slots[s], f, t, m, rev);
      FlipInside(n, f, t, s, m, rev).node.slots[s]
        == if o.Raised? then o.node
           else if IsFull(o.node, m) then Full else if IsEmpty(o.node) then Empty else o.node
  {
  }

  /** A level put back in its slot as `Full` when it reached the threshold, as `Empty`
      when it holds nothing: every bit it held is still there, and nothing else at
      threshold 256. */
  lemma ReclassifiedSlot(c: Node, after: Node, m: int, x: Key)
    requires c.Real() && Valid(c) && ValidOccupancy(m) && |x| > Height(c)
    requires after == if IsFull(c, m) then Full else if IsEmpty(c) then Empty else c
    ensures Contains(c, x) ==> Contains(after, x)
    ensures m == LEVEL_SIZE ==> Contains(after, x) == Contains(c, x)
  {
    if IsFull(c, m) {
      if m == LEVEL_SIZE {
        FullHoldsEverything(c);
      }
    } else if IsEmpty(c) {
      EmptyHoldsNothing(c);
    }
  }

  /** `flipAll()`: every bit that was clear becomes set, and at threshold 256 exactly the
      bits that were clear are set; a tier flips MIN .. MAX, which covers every key. */
  lemma FlipAllEffect(n: Node, m: int, x: Key)
    requires n.Real() && Valid(n) && ValidOccupancy(m) && |x| > Height(n)
    ensures !Contains(n, x) ==> Contains(FlipAll(n, m), x)
    ensures m == LEVEL_SIZE ==> (Contains(FlipAll(n, m), x) <==> !Contains(n, x))
  {
    if n.Inner? {
      FlipAllTierEffect(n, m, x);
    }
  }

  /** The tier case of FlipAllEffect: one flip over MIN .. MAX. */
  lemma FlipAllTierEffect(n: Node, m: int, x: Key)
    requires Tier(n) && Valid(n) && ValidOccupancy(m) && |x| > n.level
    ensures !Contains(n, x) ==> Contains(FlipAll(n, m), x)
    ensures m == LEVEL_SIZE ==> (Contains(FlipAll(n, m), x) <==> !Contains(n, x))
  {
    var h := n.level;
    var lo, hi := Floor(h + 1), Ceil(h + 1);
    assert FlipAll(n, m) == Range(FlipOp, n, lo, hi, m, AsWritten).node;
    WholeRange(n, x);
    RangeEffect(FlipOp, n, lo, hi, m, AsWritten, x);
  }

  /** MIN .. MAX holds every key of a tier and is aligned, so the flip of it should toggle x. */
  lemma WholeRange(n: Node, x: Key)
    requires Tier(n) && |x| > n.level
    ensures var h := n.level;
      var lo, hi := Floor(h + 1), Ceil(h + 1);
      && Aligned(lo, hi, h)
      && Expected(FlipOp, n, lo, hi, x) == !Contains(n, x)
  {
    var h := n.level;
    FloorIsLeast(h + 1, x, h);
    CeilIsGreatest(h + 1, x, h);
    assert InRange(x, Floor(h + 1), Ceil(h + 1), h);
  }
}
