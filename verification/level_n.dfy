/** SparseBitLevelN: an intermediate tier at `level` >= 1 whose slot s, chosen by
    segment(level), is absent, collapsed (every bit under it set) or a materialised
    level at level - 1. This module holds the slot transitions and the single-bit
    operations, written over any real level: a leaf is delegated to Level0. */
module LevelN {
  import opened SparseBitUtil
  import opened Keys
  import opened Levels
  import Level0

  /** A tier at level >= 1 with its 256 slots in shape. */
  predicate Tier(n: Node)
  {
    n.Inner? && Shaped(n)
  }

  /** A node may sit in slot s of tier n. */
  predicate Fits(n: Node, c: Node)
    requires n.Inner?
  {
    Shaped(c) && (c.Real() ==> Height(c) == n.level - 1)
  }

  /** Replacing one slot keeps `validate()` passing when the two counters move by the
      change in the number of collapsed and of materialised slots. */
  lemma ReplaceSlotValid(n: Node, s: Byte, c: Node, occupancy: int, usage: int)
    requires Tier(n)
    ensures && Valid(n) && Fits(n, c) && Validate(c)
            && occupancy == n.occupancy - (if n.slots[s].Full? then 1 else 0) + (if c.Full? then 1 else 0)
            && usage == n.usage - (if n.slots[s].Real() then 1 else 0) + (if c.Real() then 1 else 0)
            ==> Valid(Inner(n.level, n.slots[s := c], occupancy, usage))
  {
    if Valid(n) && Fits(n, c) && Validate(c) {
      MasksUpdate(n.slots, s, c);
      TallyUpdate(FullMask(n.slots), s, c.Full?);
      TallyUpdate(RealMask(n.slots), s, c.Real());
    }
  }

  /** Two changes confined to slot s make one change confined to slot s. */
  lemma OneSlotChanged(a: seq<Node>, b: seq<Node>, c: seq<Node>, s: int)
    requires 0 <= s < |a| && |b| == |a| && |c| == |a|
    requires b == a[s := b[s]] && c == b[s := c[s]]
    ensures c == a[s := c[s]]
  {
  }

  /** `setAll()` of any real level: every slot collapsed and none materialised. */
  function SetAll(n: Node): (r: Node)
    requires n.Real() && Shaped(n)
    ensures SameShape(n, r) && Valid(r)
    ensures forall m | m <= LEVEL_SIZE :: IsFull(r, m)
    ensures forall x: Key {:trigger Contains(r, x)} | |x| > Height(n) :: Contains(r, x)
  {
    if n.Leaf? then Level0.SetAll(n)
    else
      var slots := seq(LEVEL_SIZE, i => Full);
      assert forall i | 0 <= i < LEVEL_SIZE :: slots[i] == Full;
      assert FullMask(slots) == seq(LEVEL_SIZE, i => true);
      assert RealMask(slots) == seq(LEVEL_SIZE, i => false);
      TallyAll(seq(LEVEL_SIZE, i => true));
      TallyNone(seq(LEVEL_SIZE, i => false));
      var r := Inner(n.level, slots, LEVEL_SIZE, 0);
      assert Shaped(r);
      assert Tally(FullMask(slots)) == LEVEL_SIZE;
      assert Tally(RealMask(slots)) == 0;
      assert Validate(r);
      r
  }

  /** `clearAll()` of any real level: every slot absent. */
  function ClearAll(n: Node): (r: Node)
    requires n.Real() && Shaped(n)
    ensures SameShape(n, r) && Valid(r) && IsEmpty(r)
    ensures forall x: Key {:trigger Contains(r, x)} | |x| > Height(n) :: !Contains(r, x)
  {
    if n.Leaf? then Level0.ClearAll(n)
    else
      var slots := seq(LEVEL_SIZE, i => Empty);
      assert forall i | 0 <= i < LEVEL_SIZE :: slots[i] == Empty;
      assert FullMask(slots) == seq(LEVEL_SIZE, i => false);
      assert RealMask(slots) == seq(LEVEL_SIZE, i => false);
      TallyNone(seq(LEVEL_SIZE, i => false));
      var r := Inner(n.level, slots, 0, 0);
      assert Shaped(r);
      assert Tally(FullMask(slots)) == 0;
      assert Validate(r);
      r
  }

  /** `collapseUnderlying(segment)`: the materialised slot s becomes a collapse bit. */
  function Collapse(n: Node, s: Byte): (r: Node)
    requires Tier(n)
    ensures Tier(r) && r.level == n.level && r.slots[s] == Full
    ensures Valid(n) && n.slots[s].Real() ==> Valid(r)
    ensures r.slots == n.slots[s := r.slots[s]]
  {
    ReplaceSlotValid(n, s, Full, n.occupancy + 1, n.usage - 1);
    Inner(n.level, n.slots[s := Full], n.occupancy + 1, n.usage - 1)
  }

  /** The absent slot s of `setSegment` and `flipSegment` that the range covers whole:
      the collapse bit is set directly. */
  function MarkCollapsed(n: Node, s: Byte): (r: Node)
    requires Tier(n)
    ensures Tier(r) && r.level == n.level && r.slots[s] == Full
    ensures Valid(n) && n.slots[s].Empty? ==> Valid(r)
    ensures r.slots == n.slots[s := r.slots[s]]
  {
    ReplaceSlotValid(n, s, Full, n.occupancy + 1, n.usage);
    Inner(n.level, n.slots[s := Full], n.occupancy + 1, n.usage)
  }

  /** The collapsed slot s of `clearSegment` and `flipSegment` that the range covers
      whole: the collapse bit is cleared directly. */
  function ClearCollapsed(n: Node, s: Byte): (r: Node)
    requires Tier(n)
    ensures Tier(r) && r.level == n.level && r.slots[s] == Empty
    ensures Valid(n) && n.slots[s].Full? ==> Valid(r)
    ensures r.slots == n.slots[s := r.slots[s]]
  {
    ReplaceSlotValid(n, s, Empty, n.occupancy - 1, n.usage);
    Inner(n.level, n.slots[s := Empty], n.occupancy - 1, n.usage)
  }

  /** `unfoldUnderlying(segment)`: the collapsed slot s becomes a materialised level
      with every bit set, so the bits under s stay as they were. */
  function Unfold(n: Node, s: Byte): (r: Node)
    requires Tier(n)
    ensures Tier(r) && r.level == n.level && r.slots[s].Real()
    ensures Valid(n) && n.slots[s].Full? ==> Valid(r)
    ensures forall x: Key {:trigger Contains(r.slots[s], x)} | |x| > n.level - 1 :: Contains(r.slots[s], x)
    ensures r.slots == n.slots[s := r.slots[s]]
  {
    var c := SetAll(CreateLevel(n.level));
    ReplaceSlotValid(n, s, c, n.occupancy - 1, n.usage + 1);
    Inner(n.level, n.slots[s := c], n.occupancy - 1, n.usage + 1)
  }

  /** `requireUnderlying(segment)`: an absent slot s gets a new empty level; a
      materialised one is kept. Never reached with a collapsed slot. */
  function Require(n: Node, s: Byte): (r: Node)
    requires Tier(n) && !n.slots[s].Full?
    ensures Tier(r) && r.level == n.level && r.slots[s].Real()
    ensures n.slots[s].Real() ==> r == n
    ensures Valid(n) ==> Valid(r)
    ensures forall x: Key {:trigger Contains(r.slots[s], x)} | |x| > n.level - 1 :: !n.slots[s].Real() ==> !Contains(r.slots[s], x)
    ensures r.slots == n.slots[s := r.slots[s]]
  {
    if n.slots[s].Real() then n
    else
      var c := CreateLevel(n.level);
      ReplaceSlotValid(n, s, c, n.occupancy, n.usage + 1);
      Inner(n.level, n.slots[s := c], n.occupancy, n.usage + 1)
  }

  /** The slot s made ready for a change that may clear bits under it: unfolded when
      collapsed, materialised when absent. */
  function Open(n: Node, s: Byte): (r: Node)
    requires Tier(n)
    ensures Tier(r) && r.level == n.level && r.slots[s].Real()
    ensures Valid(n) ==> Valid(r)
    ensures r.slots == n.slots[s := r.slots[s]]
  {
    if n.slots[s].Full? then Unfold(n, s) else Require(n, s)
  }

  /** `dismissUnderlying(segment)`: the materialised slot s becomes absent. */
  function Dismiss(n: Node, s: Byte): (r: Node)
    requires Tier(n)
    ensures Tier(r) && r.level == n.level && r.slots[s] == Empty
    ensures Valid(n) && n.slots[s].Real() ==> Valid(r)
    ensures r.slots == n.slots[s := r.slots[s]]
  {
    ReplaceSlotValid(n, s, Empty, n.occupancy, n.usage - 1);
    Inner(n.level, n.slots[s := Empty], n.occupancy, n.usage - 1)
  }

  /** The materialised slot s after its level was changed in place: the counters of
      this tier do not move. */
  function Store(n: Node, s: Byte, c: Node): (r: Node)
    requires Tier(n) && n.slots[s].Real() && SameShape(c, n.slots[s]) && Shaped(c)
    ensures Tier(r) && r.level == n.level && r.slots[s] == c
    ensures Valid(n) && Validate(c) ==> Valid(r)
    ensures r.slots == n.slots[s := r.slots[s]]
  {
    ReplaceSlotValid(n, s, c, n.occupancy, n.usage);
    Inner(n.level, n.slots[s := c], n.occupancy, n.usage)
  }

  /** After a flip of the materialised slot s: collapse it if it became full, else
      dismiss it if it became empty. */
  function Reclassify(n: Node, s: Byte, m: int): (r: Node)
    requires Tier(n) && n.slots[s].Real()
    ensures Tier(r) && r.level == n.level
    ensures Valid(n) ==> Valid(r)
    ensures r.slots[s] == (if IsFull(n.slots[s], m) then Full
                           else if IsEmpty(n.slots[s]) then Empty else n.slots[s])
    ensures r.slots == n.slots[s := r.slots[s]]
  {
    if IsFull(n.slots[s], m) then Collapse(n, s)
    else if IsEmpty(n.slots[s]) then Dismiss(n, s)
    else n
  }

  /** `get(index)` of any real level. */
  function Get(n: Node, key: Key): (r: bool)
    requires n.Real() && Shaped(n) && |key| > Height(n)
    decreases Height(n)
    ensures r == Contains(n, key)
  {
    match n
    case Leaf(bits, _) => bits[key[0]]
    case Inner(level, slots, _, _) =>
      var s := key[level];
      if slots[s].Full? then true
      else if slots[s].Real() then Get(slots[s], key)
      else false
  }

  /** `set(index)` of any real level: the slot on the key's path is materialised if
      absent, the bit set below it, and the slot collapsed if its level became full.
      A collapsed slot on the path answers at once; as written the answer is `true`,
      although the bit was already set. */
  function Set(n: Node, key: Key, m: int, rev: Revision): (r: (Node, bool))
    requires n.Real() && Shaped(n) && |key| > Height(n)
    decreases Height(n)
    ensures SameShape(n, r.0) && Shaped(r.0)
    ensures Valid(n) ==> Valid(r.0)
    ensures rev == Corrected ==> r.1 == !Contains(n, key)
  {
    match n
    case Leaf(_, _) => Level0.Set(n, key)
    case Inner(level, slots, _, _) =>
      var s := key[level];
      if slots[s].Full? then (n, rev == AsWritten)
      else
        var n1 := Require(n, s);
        var (c, changed) := Set(n1.slots[s], key, m, rev);
        var n2 := Store(n1, s, c);
        (if IsFull(c, m) then Collapse(n2, s) else n2, changed)
  }

  /** `clear(index)` of any real level: a collapsed slot on the path is unfolded first;
      the bit is cleared below it and the slot dismissed if its level became empty. */
  function Clear(n: Node, key: Key): (r: (Node, bool))
    requires n.Real() && Shaped(n) && |key| > Height(n)
    decreases Height(n)
    ensures SameShape(n, r.0) && Shaped(r.0)
    ensures Valid(n) ==> Valid(r.0)
    ensures r.1 == Contains(n, key)
  {
    match n
    case Leaf(_, _) => Level0.Clear(n, key)
    case Inner(level, slots, _, _) =>
      var s := key[level];
      var n1 := if slots[s].Full? then Unfold(n, s) else n;
      if n1.slots[s].Real() then
        var (c, changed) := Clear(n1.slots[s], key);
        var n2 := Store(n1, s, c);
        (if IsEmpty(c) then Dismiss(n2, s) else n2, changed)
      else (n1, false)
  }

  /** `flip(index)` of any real level: the slot on the path is unfolded or
      materialised, the bit flipped below it, and the slot reclassified. */
  function Flip(n: Node, key: Key, m: int): (r: Node)
    requires n.Real() && Shaped(n) && |key| > Height(n)
    decreases Height(n)
    ensures SameShape(n, r) && Shaped(r)
    ensures Valid(n) ==> Valid(r)
  {
    match n
    case Leaf(_, _) => Level0.Flip(n, key)
    case Inner(level, slots, _, _) =>
      var s := key[level];
      var n1 := Open(n, s);
      var c := Flip(n1.slots[s], key, m);
      Reclassify(Store(n1, s, c), s, m)
  }
}
