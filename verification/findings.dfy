/** Concrete inputs on which the level code, as written, departs from its documented
    contract, each beside the corrected behaviour the rest of the model uses. */
module Findings {
  import opened Errors
  import opened SparseBitUtil
  import opened Keys
  import opened Levels
  import opened LevelN
  import opened LevelNRange
  import RangeSemantics
  import Level0
  import Indices
  import IntIndex
  import DefaultSparseBitSet

  /** `set(index)` under a collapsed slot reports a change, although the bit was already
      set; the corrected answer is "no change". */
  lemma SetOnCollapsedSlot()
    ensures var n := SetAll(CreateLevel(2));
      var key: Key := [0, 0];
      && Contains(n, key)
      && Set(n, key, LEVEL_SIZE, AsWritten).1
      && !Set(n, key, LEVEL_SIZE, Corrected).1
  {
    var n := SetAll(CreateLevel(2));
    assert n.Inner? && n.level == 1 && n.slots[0] == Full;
  }

  /** The keys of 0x11220001, 0x1122FFFF and 0x11220000 in a set of four levels. */
  const LOW: Key := [0x01, 0x00, 0x22, 0x11]
  const HIGH: Key := [0xFF, 0xFF, 0x22, 0x11]
  const BELOW: Key := [0x00, 0x00, 0x22, 0x11]

  /** `set(0x11220001, 0x1122FFFF)` on an empty precise set of four levels: at level 2 the
      shortcut reads only segment 1 (0x00 .. 0xFF), counts all 256 slots of level 1 as
      covered and collapses slot 0x22 whole, so 0x11220000 is set too. Corrected, the
      shortcut also checks the lower segments, and no bit outside the range is set. */
  lemma RangeShortcutOverreach()
    ensures !InRange(BELOW, LOW, HIGH, 3)
    ensures Contains(Range(SetOp, CreateLevel(4), LOW, HIGH, LEVEL_SIZE, AsWritten).node, BELOW)
    ensures !Contains(Range(SetOp, CreateLevel(4), LOW, HIGH, LEVEL_SIZE, Corrected).node, BELOW)
  {
    var n0 := CreateLevel(4);
    assert n0.Inner? && n0.level == 3 && n0.slots[0x11] == Empty;
    assert !LeUpTo(LOW, BELOW, 0);
    assert !LeUpTo(LOW, BELOW, 3);
    // As written: the top tier materialises slot 0x11 and hands the range down.
    var r := Range(SetOp, n0, LOW, HIGH, LEVEL_SIZE, AsWritten);
    assert Affected(LOW, HIGH, 2, AsWritten) == 1;
    assert r == SetSegment(n0, LOW, HIGH, 0x11, LEVEL_SIZE, AsWritten);
    var n1 := Require(n0, 0x11);
    var c := n1.slots[0x11];
    assert c == CreateLevel(3);
    assert c.Inner? && c.level == 2 && c.slots[0x22] == Empty;
    // Level 2 counts 1 + 0xFF - 0x00 = 256 slots below 0x22 as covered.
    assert Affected(LOW, HIGH, 1, AsWritten) == LEVEL_SIZE;
    var o := Range(SetOp, c, LOW, HIGH, LEVEL_SIZE, AsWritten);
    assert o == SetSegment(c, LOW, HIGH, 0x22, LEVEL_SIZE, AsWritten);
    assert o == Done(MarkCollapsed(c, 0x22));
    assert o.node.occupancy == 1;
    assert r == Done(Store(n1, 0x11, o.node));
    assert r.node.slots[0x11] == o.node && o.node.slots[0x22] == Full;
    // Corrected: every bit the range leaves set was set before or lies in the range.
    RangeSemantics.RangeEffect(SetOp, n0, LOW, HIGH, LEVEL_SIZE, Corrected, BELOW);
  }

  /** The bounds 0x0005 and 0x0003 in a set of two levels. */
  const FROM: Key := [0x05, 0x00]
  const TO: Key := [0x03, 0x00]

  /** `set(0x0005, 0x0003)` on an empty set of two levels: the top tier materialises
      slot 0x00 before level 0 finds the bounds reversed and raises, so the set that
      raised IllegalArgumentException no longer reports `isEmpty()`. Corrected, the
      reversed range is refused before anything changes. */
  lemma ReversedRangeLeavesTrace()
    ensures IsEmpty(CreateLevel(2))
    ensures var w := Range(SetOp, CreateLevel(2), FROM, TO, LEVEL_SIZE, AsWritten);
      w.Raised? && w.error == IllegalArgument && !IsEmpty(w.node)
    ensures var c := Range(SetOp, CreateLevel(2), FROM, TO, LEVEL_SIZE, Corrected);
      c.Raised? && c.error == IllegalArgument && IsEmpty(c.node)
  {
    assert !LeUpTo(FROM, TO, 1);
    ReversedRangeAsWritten();
  }

  /** The as-written step of ReversedRangeLeavesTrace. */
  lemma ReversedRangeAsWritten()
    ensures var w := Range(SetOp, CreateLevel(2), FROM, TO, LEVEL_SIZE, AsWritten);
      w.Raised? && !IsEmpty(w.node)
  {
    var n := CreateLevel(2);
    assert n.Inner? && n.level == 1 && n.slots[0] == Empty;
    var w := Range(SetOp, n, FROM, TO, LEVEL_SIZE, AsWritten);
    assert w == SetSegment(n, FROM, TO, 0, LEVEL_SIZE, AsWritten);
    assert Affected(FROM, TO, 0, AsWritten) < LEVEL_SIZE;
    var n1 := Require(n, 0);
    assert n1.usage == 1 && n1.slots[0] == CreateLevel(1);
    var leaf := n1.slots[0];
    var o := Range(SetOp, leaf, FROM, TO, LEVEL_SIZE, AsWritten);
    assert o == Level0.Range(SetOp, leaf, FROM, TO);
    assert o == Raised(leaf, IllegalArgument);
    var n2 := Store(n1, 0, leaf);
    assert n2.usage == 1;
    assert w == Raised(n2, IllegalArgument);
  }

  /** As written, `clear(0x0005, 0x0003)` on an empty set of two levels and
      `set(0x0005, 0x0003)` after `setAll()` return normally and change nothing: the root
      checks only its own segment (0x00 .. 0x00), and the slot is absent for `clear` and
      collapsed for `set`, so level 0, which would find the bounds reversed, is never
      asked. Corrected, both are refused as illegal arguments. */
  lemma ReversedRangeAccepted()
    ensures var s := DefaultSparseBitSet.CreateWithLevels(2).value;
      var full := DefaultSparseBitSet.SetAll(s);
      var f, t := Some(Indices.IntIx(IntIndex.IntIndex(5))), Some(Indices.IntIx(IntIndex.IntIndex(3)));
      && DefaultSparseBitSet.RangeOp(ClearOp, s, f, t, AsWritten) == Ok(s)
      && DefaultSparseBitSet.RangeOp(SetOp, full, f, t, AsWritten) == Ok(full)
      && DefaultSparseBitSet.RangeOp(ClearOp, s, f, t, Corrected) == Fail(IllegalArgument)
      && DefaultSparseBitSet.RangeOp(SetOp, full, f, t, Corrected) == Fail(IllegalArgument)
  {
    var s := DefaultSparseBitSet.CreateWithLevels(2).value;
    var full := DefaultSparseBitSet.SetAll(s);
    var f, t := Indices.IntIx(IntIndex.IntIndex(5)), Indices.IntIx(IntIndex.IntIndex(3));
    assert s.base == CreateLevel(2) && full.base == SetAll(CreateLevel(2));
    BoundKeys(s, f, t);
    BoundKeys(full, f, t);
    ReversedBelowTop();
  }

  /** The keys of 0x0005 and 0x0003 in a set of two levels. */
  lemma BoundKeys(s: DefaultSparseBitSet.SparseBitSet, f: Indices.Index, t: Indices.Index)
    requires s.levels == 2
    requires f == Indices.IntIx(IntIndex.IntIndex(5)) && t == Indices.IntIx(IntIndex.IntIndex(3))
    ensures DefaultSparseBitSet.Addressable(s, f) && DefaultSparseBitSet.Addressable(s, t)
    ensures DefaultSparseBitSet.CheckIndex(s, Some(f)) == Ok(FROM)
    ensures DefaultSparseBitSet.CheckIndex(s, Some(t)) == Ok(TO)
  {
    SmallIntKey(s, 5);
    SmallIntKey(s, 3);
  }

  /** A small non-negative int reads as itself at level 0 and as 0 at level 1. */
  lemma SmallIntKey(s: DefaultSparseBitSet.SparseBitSet, v: int)
    requires s.levels == 2 && 0 <= v < 256
    ensures var ix := Indices.IntIx(IntIndex.IntIndex(v));
      DefaultSparseBitSet.Addressable(s, ix) && DefaultSparseBitSet.CheckIndex(s, Some(ix)) == Ok([v, 0])
  {
    var ix := Indices.IntIx(IntIndex.IntIndex(v));
    var k := DefaultSparseBitSet.CheckIndex(s, Some(ix)).value;
    assert Indices.Segment(ix, 0) == Ok(v) && Indices.Segment(ix, 1) == Ok(0);
    assert k == [v, 0];
  }

  /** The tier-level step of ReversedRangeAccepted. */
  lemma ReversedBelowTop()
    ensures !LeUpTo(FROM, TO, 1)
    ensures Range(ClearOp, CreateLevel(2), FROM, TO, LEVEL_SIZE, AsWritten) == Done(CreateLevel(2))
    ensures Range(SetOp, SetAll(CreateLevel(2)), FROM, TO, LEVEL_SIZE, AsWritten) == Done(SetAll(CreateLevel(2)))
  {
    var n := CreateLevel(2);
    assert n.Inner? && n.level == 1 && n.slots[0] == Empty;
    assert Affected(FROM, TO, 0, AsWritten) < 0;
    assert Range(ClearOp, n, FROM, TO, LEVEL_SIZE, AsWritten) == ClearSegment(n, FROM, TO, 0, LEVEL_SIZE, AsWritten);
    var full := SetAll(n);
    assert full.slots[0] == Full;
    assert Range(SetOp, full, FROM, TO, LEVEL_SIZE, AsWritten) == SetSegment(full, FROM, TO, 0, LEVEL_SIZE, AsWritten);
  }
}
