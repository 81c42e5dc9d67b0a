/** The bulk operations of SparseBitLevelN: `set`, `clear` and `flip` of the inclusive
    range [from, to]. A tier splits the range by its own segment into the first slot
    (from .. MAX), the interior slots (MIN .. MAX) and the last slot (MIN .. to), or
    keeps it whole when both bounds share a slot, and handles each slot with
    `setSegment`, `clearSegment` or `flipSegment`. Those look at segment(level - 1) of
    the bounds to decide whether the slot is covered well enough to be collapsed or
    dropped whole, and otherwise recurse into the level below. */
module LevelNRange {
  import opened Errors
  import opened SparseBitUtil
  import opened Keys
  import opened Levels
  import opened LevelN
  import Level0

  /** `affected` in the segment helpers: how many slots of the level below the bounds
      cover. As written it is 1 + to.segment(k) - from.segment(k), which also counts the
      end slots that the bounds cover only in part; corrected, an end slot counts only
      when every lower segment of its bound is 0 (from) or 255 (to). */
  function Affected(f: Key, t: Key, k: nat, rev: Revision): int
    requires |f| > k && |t| > k
  {
    var written: int := 1 + t[k] as int - f[k] as int;
    match rev
    case AsWritten => written
    case Corrected => written - (if ZeroBelow(f, k) then 0 else 1) - (if FullBelow(t, k) then 0 else 1)
  }

  /** Whether the range shortcut may treat the slot at level k + 1 as wholly covered:
      always when corrected, and as written only for bounds aligned at k. */
  lemma AffectedAllMeansCovered(f: Key, t: Key, k: nat, rev: Revision)
    requires |f| > k && |t| > k
    requires rev == Corrected || AlignedAt(f, t, k)
    ensures Affected(f, t, k, rev) >= LEVEL_SIZE <==> ZeroBelow(f, k + 1) && FullBelow(t, k + 1)
  {
  }

  /** The bulk operation op of [f, t] on any real level, with collapse threshold m. */
  function Range(op: Op, n: Node, f: Key, t: Key, m: int, rev: Revision): (r: Outcome)
    requires n.Real() && Shaped(n) && |f| > Height(n) && |t| > Height(n)
    decreases Height(n), 3, 0
    ensures SameShape(n, r.node) && Shaped(r.node)
    ensures Valid(n) ==> Valid(r.node)
    ensures LeUpTo(f, t, Height(n)) ==> r.Done?
    ensures r.Raised? ==> r.error == IllegalArgument
    ensures rev == Corrected && !LeUpTo(f, t, Height(n)) ==> r == Raised(n, IllegalArgument)
    ensures f[Height(n)] > t[Height(n)] ==> r == Raised(n, IllegalArgument)
  {
    if rev == Corrected && !LeUpTo(f, t, Height(n)) then Raised(n, IllegalArgument)
    else match n
    case Leaf(_, _) => Level0.Range(op, n, f, t)
    case Inner(level, _, _, _) =>
      var sf := f[level];
      var st := t[level];
      match CheckSegments(sf, st)
      case Fail(e) => Raised(n, e)
      case Ok(_) =>
        if sf != st then
          CeilIsGreatest(level, f, level - 1);
          FloorIsLeast(level, t, level - 1);
          var o1 := Segment(op, n, f, Ceil(level), sf, m, rev);
          if o1.Raised? then o1
          else
            var o2 := Slots(op, o1.node, sf + 1, st, m, rev);
            if o2.Raised? then o2
            else Segment(op, o2.node, Floor(level), t, st, m, rev)
        else
          Segment(op, n, f, t, sf, m, rev)
  }

  /** The loop over the interior slots lo .. hi - 1, each covered whole. */
  function Slots(op: Op, n: Node, lo: int, hi: int, m: int, rev: Revision): (r: Outcome)
    requires Tier(n) && 0 <= lo && hi <= LEVEL_SIZE
    decreases n.level, 2, hi - lo
    ensures Tier(r.node) && r.node.level == n.level
    ensures Valid(n) ==> Valid(r.node)
    ensures r.Done?
  {
    if lo >= hi then Done(n)
    else
      FloorIsLeast(n.level, Ceil(n.level), n.level - 1);
      var o := Segment(op, n, Floor(n.level), Ceil(n.level), lo, m, rev);
      if o.Raised? then o else Slots(op, o.node, lo + 1, hi, m, rev)
  }

  /** Slot s of tier n handled for the bounds f and t, which the level below reads. */
  function Segment(op: Op, n: Node, f: Key, t: Key, s: Byte, m: int, rev: Revision): (r: Outcome)
    requires Tier(n) && |f| >= n.level && |t| >= n.level
    decreases n.level, 1, 0
    ensures Tier(r.node) && r.node.level == n.level
    ensures Valid(n) ==> Valid(r.node)
    ensures LeUpTo(f, t, n.level - 1) ==> r.Done?
    ensures r.Raised? ==> r.error == IllegalArgument
    ensures r.node.slots == n.slots[s := r.node.slots[s]]
  {
    match op
    case SetOp => SetSegment(n, f, t, s, m, rev)
    case ClearOp => ClearSegment(n, f, t, s, m, rev)
    case FlipOp => FlipSegment(n, f, t, s, m, rev)
  }

  /** `setSegment`: nothing to do under a collapse bit; collapse the slot outright when
      `affected` reaches the threshold; otherwise set the range in the (materialised)
      level below and collapse the slot if that level became full. */
  function SetSegment(n: Node, f: Key, t: Key, s: Byte, m: int, rev: Revision): (r: Outcome)
    requires Tier(n) && |f| >= n.level && |t| >= n.level
    decreases n.level, 0, 1
    ensures Tier(r.node) && r.node.level == n.level
    ensures Valid(n) ==> Valid(r.node)
    ensures LeUpTo(f, t, n.level - 1) ==> r.Done?
    ensures r.Raised? ==> r.error == IllegalArgument
    ensures r.node.slots == n.slots[s := r.node.slots[s]]
  {
    if n.slots[s].Full? then Done(n)
    else if Affected(f, t, n.level - 1, rev) >= m then
      if n.slots[s].Real() then Done(Collapse(n, s)) else Done(MarkCollapsed(n, s))
    else
      var u := Require(n, s);
      var r := SetInside(u, f, t, s, m, rev);
      OneSlotChanged(n.slots, u.slots, r.node.slots, s);
      r
  }

  /** The range set in the materialised slot s, which is then collapsed if its level
      became full. */
  function SetInside(n: Node, f: Key, t: Key, s: Byte, m: int, rev: Revision): (r: Outcome)
    requires Tier(n) && n.slots[s].Real() && |f| >= n.level && |t| >= n.level
    decreases n.level, 0, 0
    ensures Tier(r.node) && r.node.level == n.level
    ensures Valid(n) ==> Valid(r.node)
    ensures LeUpTo(f, t, n.level - 1) ==> r.Done?
    ensures r.Raised? ==> r.error == IllegalArgument
    ensures r.node.slots == n.slots[s := r.node.slots[s]]
  {
    var o := Range(SetOp, n.slots[s], f, t, m, rev);
    var n2 := Store(n, s, o.node);
    if o.Raised? then Raised(n2, o.error)
    else if IsFull(o.node, m) then
      var n3 := Collapse(n2, s);
      OneSlotChanged(n.slots, n2.slots, n3.slots, s);
      Done(n3)
    else Done(n2)
  }

  /** Slot s made absent, whatever it was. */
  function Drop(n: Node, s: Byte): (r: Node)
    requires Tier(n)
    ensures Tier(r) && r.level == n.level && r.slots[s] == Empty
    ensures Valid(n) ==> Valid(r)
    ensures r.slots == n.slots[s := r.slots[s]]
  {
    if n.slots[s].Full? then ClearCollapsed(n, s)
    else if n.slots[s].Real() then Dismiss(n, s)
    else n
  }

  /** The level c cleared in place in slot s, then dismissed if `dismiss` holds and it
      became empty. */
  function StoreCleared(n: Node, s: Byte, c: Node, dismiss: bool): (r: Node)
    requires Tier(n) && n.slots[s].Real() && SameShape(c, n.slots[s]) && Shaped(c)
    ensures Tier(r) && r.level == n.level
    ensures r.slots == n.slots[s := r.slots[s]]
    ensures r.slots[s] == (if dismiss && IsEmpty(c) then Empty else c)
    ensures Valid(n) && Validate(c) ==> Valid(r)
  {
    var n2 := Store(n, s, c);
    if dismiss && IsEmpty(c) then
      var n3 := Dismiss(n2, s);
      OneSlotChanged(n.slots, n2.slots, n3.slots, s);
      n3
    else n2
  }

  /** `clearSegment`: when `affected` spans all 256 slots below, drop the slot whole
      (clear its collapse bit or dismiss its level); otherwise unfold a collapsed slot
      and clear the range in it, leaving it materialised even if it became empty, or
      clear the range in a materialised slot and dismiss it if it became empty. */
  function ClearSegment(n: Node, f: Key, t: Key, s: Byte, m: int, rev: Revision): (r: Outcome)
    requires Tier(n) && |f| >= n.level && |t| >= n.level
    decreases n.level, 0, 1
    ensures Tier(r.node) && r.node.level == n.level
    ensures Valid(n) ==> Valid(r.node)
    ensures LeUpTo(f, t, n.level - 1) ==> r.Done?
    ensures r.Raised? ==> r.error == IllegalArgument
    ensures r.node.slots == n.slots[s := r.node.slots[s]]
  {
    if Affected(f, t, n.level - 1, rev) >= LEVEL_SIZE then Done(Drop(n, s))
    else if n.slots[s].Full? then
      var u := Unfold(n, s);
      var r := ClearInside(u, f, t, s, m, rev, false);
      OneSlotChanged(n.slots, u.slots, r.node.slots, s);
      r
    else if n.slots[s].Real() then ClearInside(n, f, t, s, m, rev, true)
    else Done(n)
  }

  /** The range cleared in the materialised slot s, which is then dismissed if
      `dismiss` holds and it became empty. */
  function ClearInside(n: Node, f: Key, t: Key, s: Byte, m: int, rev: Revision, dismiss: bool): (r: Outcome)
    requires Tier(n) && n.slots[s].Real() && |f| >= n.level && |t| >= n.level
    decreases n.level, 0, 0
    ensures Tier(r.node) && r.node.level == n.level
    ensures Valid(n) ==> Valid(r.node)
    ensures LeUpTo(f, t, n.level - 1) ==> r.Done?
    ensures r.Raised? ==> r.error == IllegalArgument
    ensures r.node.slots == n.slots[s := r.node.slots[s]]
  {
    var o := Range(ClearOp, n.slots[s], f, t, m, rev);
    if o.Raised? then Raised(Store(n, s, o.node), o.error)
    else Done(StoreCleared(n, s, o.node, dismiss))
  }

  /** `flipSegment`: when `affected` spans all 256 slots below, a collapsed slot becomes
      absent, an absent one collapsed, and a materialised one is flipped over the range
      and reclassified; otherwise the slot is unfolded or materialised, flipped over the
      range and reclassified. */
  function FlipSegment(n: Node, f: Key, t: Key, s: Byte, m: int, rev: Revision): (r: Outcome)
    requires Tier(n) && |f| >= n.level && |t| >= n.level
    decreases n.level, 0, 1
    ensures Tier(r.node) && r.node.level == n.level
    ensures Valid(n) ==> Valid(r.node)
    ensures LeUpTo(f, t, n.level - 1) ==> r.Done?
    ensures r.Raised? ==> r.error == IllegalArgument
    ensures r.node.slots == n.slots[s := r.node.slots[s]]
  {
    if Affected(f, t, n.level - 1, rev) >= LEVEL_SIZE && !n.slots[s].Real() then
      if n.slots[s].Full? then Done(ClearCollapsed(n, s)) else Done(MarkCollapsed(n, s))
    else
      var u := Open(n, s);
      var r := FlipInside(u, f, t, s, m, rev);
      OneSlotChanged(n.slots, u.slots, r.node.slots, s);
      r
  }

  /** The range flipped in the materialised slot s, which is then reclassified. */
  function FlipInside(n: Node, f: Key, t: Key, s: Byte, m: int, rev: Revision): (r: Outcome)
    requires Tier(n) && n.slots[s].Real() && |f| >= n.level && |t| >= n.level
    decreases n.level, 0, 0
    ensures Tier(r.node) && r.node.level == n.level
    ensures Valid(n) ==> Valid(r.node)
    ensures LeUpTo(f, t, n.level - 1) ==> r.Done?
    ensures r.Raised? ==> r.error == IllegalArgument
    ensures r.node.slots == n.slots[s := r.node.slots[s]]
  {
    var o := Range(FlipOp, n.slots[s], f, t, m, rev);
    var n2 := Store(n, s, o.node);
    if o.Raised? then Raised(n2, o.error)
    else
      var n3 := Reclassify(n2, s, m);
      OneSlotChanged(n.slots, n2.slots, n3.slots, s);
      Done(n3)
  }

  /** `flipAll()` of any real level; a tier flips the range MIN .. MAX. */
  function FlipAll(n: Node, m: int): (r: Node)
    requires n.Real() && Shaped(n)
    ensures SameShape(n, r) && Shaped(r)
    ensures Valid(n) ==> Valid(r)
  {
    if n.Leaf? then Level0.FlipAll(n)
    else
      var h := Height(n);
      FloorIsLeast(h + 1, Ceil(h + 1), h);
      Range(FlipOp, n, Floor(h + 1), Ceil(h + 1), m, AsWritten).node
  }
}
