/** What the single-bit operations do to the set of keys a level holds: `clear` removes
    exactly the addressed key; `set` and `flip` do exactly what they say when the
    collapse threshold is 256, and with a smaller threshold may additionally set the
    rest of a slot they collapse. */
module BitSemantics {
  import opened SparseBitUtil
  import opened Keys
  import opened Levels
  import opened LevelN
  import Level0

  /** A tier holds key x when the slot x selects does. */
  lemma ContainsViaSlot(n: Node, x: Key)
    requires Tier(n) && |x| > n.level
    ensures Contains(n, x) == Contains(n.slots[x[n.level]], x)
  {
  }

  /** Keys agree up to a leaf's level exactly when their segment 0 does. */
  lemma SameUpToZero(x: Key, key: Key)
    requires |x| > 0 && |key| > 0
    ensures SameUpTo(x, key, 0) <==> x[0] == key[0]
  {
    assert x[..1] == [x[0]] && key[..1] == [key[0]];
  }

  /** `get(index)` reads the bit that `set(index)` turned on, and `set` changes no other
      bit, when the threshold is 256; with a smaller one it may also set the other bits
      of a slot it collapses. */
  lemma {:induction false} SetEffect(n: Node, key: Key, m: int, rev: Revision, x: Key)
    requires n.Real() && Valid(n) && |key| > Height(n) && |x| > Height(n) && ValidOccupancy(m)
    ensures (SameUpTo(x, key, Height(n)) || Contains(n, x)) ==> Contains(Set(n, key, m, rev).0, x)
    ensures m == LEVEL_SIZE && Contains(Set(n, key, m, rev).0, x) ==> SameUpTo(x, key, Height(n)) || Contains(n, x)
    decreases Height(n), 1
  {
    var r := Set(n, key, m, rev).0;
    match n
    case Leaf(_, _) =>
      SameUpToZero(x, key);
    case Inner(level, slots, _, _) =>
      var s := key[level];
      SameUpToStep(x, key, level);
      ContainsViaSlot(n, x);
      ContainsViaSlot(r, x);
      if !slots[s].Full? && x[level] == s {
        SetPathEffect(n, key, m, rev, x);
      }
  }

  /** The slot on the path after `set`: the bit set in the level below, which is then
      collapsed if it became full. */
  lemma {:induction false} SetPathEffect(n: Node, key: Key, m: int, rev: Revision, x: Key)
    requires Tier(n) && Valid(n) && |key| > n.level && |x| > n.level && ValidOccupancy(m)
    requires !n.slots[key[n.level]].Full? && x[n.level] == key[n.level]
    ensures var after := Set(n, key, m, rev).0.slots[x[n.level]];
      (SameUpTo(x, key, n.level - 1) || Contains(n.slots[x[n.level]], x)) ==> Contains(after, x)
    ensures var after := Set(n, key, m, rev).0.slots[x[n.level]];
      m == LEVEL_SIZE && Contains(after, x) ==> SameUpTo(x, key, n.level - 1) || Contains(n.slots[x[n.level]], x)
    decreases Height(n), 0
  {
    var s := key[n.level];
    var c0 := Open(n, s).slots[s];
    OpenedSlot(n, s, x);
    var c := Set(c0, key, m, rev).0;
    SetPathSlot(n, key, m, rev);
    SetEffect(c0, key, m, rev, x);
    var after := Set(n, key, m, rev).0.slots[s];
    if IsFull(c, m) {
      assert after == Full;
      if m == LEVEL_SIZE {
        FullHoldsEverything(c);
      }
    } else {
      assert after == c;
    }
  }

  /** The slot `Open` returns is a valid level one lower that holds what the slot held. */
  lemma OpenedSlot(n: Node, s: Byte, x: Key)
    requires Tier(n) && Valid(n) && |x| > n.level
    ensures var c0 := Open(n, s).slots[s];
      c0.Real() && Valid(c0) && Height(c0) == n.level - 1 && Contains(c0, x) == Contains(n.slots[s], x)
  {
    assert Valid(Open(n, s).slots[s]);
  }

  /** The slot `set` leaves on the path: the level below after `set`, or Full in its place. */
  lemma SetPathSlot(n: Node, key: Key, m: int, rev: Revision)
    requires Tier(n) && |key| > n.level && !n.slots[key[n.level]].Full?
    ensures var c := Set(Open(n, key[n.level]).slots[key[n.level]], key, m, rev).0;
      Set(n, key, m, rev).0.slots[key[n.level]] == if IsFull(c, m) then Full else c
  {
  }

  /** The key's path meets a collapsed slot: the place where `set` as written returns
      early with `true`. */
  predicate PathCollapsed(n: Node, key: Key)
    requires Shaped(n) && |key| > Height(n)
    decreases Height(n)
  {
    n.Inner? && var c := n.slots[key[n.level]];
    c.Full? || (c.Inner? && PathCollapsed(c, key))
  }

  /** The two revisions of `set` build the same level. As written, the result is `true`
      when the bit was clear and also whenever the path meets a collapsed slot, where the
      bit is already set; corrected, it is `true` exactly when the bit was clear. */
  lemma {:induction false} SetRevisions(n: Node, key: Key, m: int)
    requires n.Real() && Shaped(n) && |key| > Height(n)
    ensures Set(n, key, m, AsWritten).0 == Set(n, key, m, Corrected).0
    ensures Set(n, key, m, AsWritten).1 == (!Contains(n, key) || PathCollapsed(n, key))
    ensures PathCollapsed(n, key) ==> Contains(n, key)
    decreases Height(n)
  {
    if n.Inner? {
      var s := key[n.level];
      if !n.slots[s].Full? {
        var c0 := Require(n, s).slots[s];
        if !n.slots[s].Real() {
          assert c0 == CreateLevel(n.level);
          assert !PathCollapsed(c0, key) by {
            if c0.Inner? {
              assert c0.slots[key[c0.level]] == Empty;
            }
          }
        }
        SetRevisions(c0, key, m);
      }
    }
  }

  /** `clear(index)` turns off exactly the addressed bit, at every threshold. */
  lemma {:induction false} ClearEffect(n: Node, key: Key, x: Key)
    requires n.Real() && Valid(n) && |key| > Height(n) && |x| > Height(n)
    ensures Contains(Clear(n, key).0, x) <==> !SameUpTo(x, key, Height(n)) && Contains(n, x)
    decreases Height(n), 1
  {
    var r := Clear(n, key).0;
    match n
    case Leaf(_, _) =>
      SameUpToZero(x, key);
    case Inner(level, slots, _, _) =>
      var s := key[level];
      SameUpToStep(x, key, level);
      ContainsViaSlot(n, x);
      ContainsViaSlot(r, x);
      ClearFrame(n, key);
      if x[level] != s || slots[s].Empty? {
        assert r.slots[x[level]] == slots[x[level]];
      } else {
        ClearPathEffect(n, key, x);
      }
  }

  /** The slot on the path after `clear`: unfolded if collapsed, the bit cleared in the
      level below, and the slot dismissed if its level became empty. */
  lemma {:induction false} ClearPathEffect(n: Node, key: Key, x: Key)
    requires Tier(n) && Valid(n) && |key| > n.level && |x| > n.level
    requires !n.slots[key[n.level]].Empty? && x[n.level] == key[n.level]
    ensures Contains(Clear(n, key).0.slots[x[n.level]], x) <==>
              !SameUpTo(x, key, n.level - 1) && Contains(n.slots[x[n.level]], x)
    decreases Height(n), 0
  {
    var s := key[n.level];
    var c0 := ClearPathParts(n, key, x);
    var c := Clear(c0, key).0;
    ClearEffect(c0, key, x);
    DroppedSlot(c, Clear(n, key).0.slots[s], x);
  }

  /** The level below the path's slot that `clear` works on, and the slot it leaves. */
  lemma ClearPathParts(n: Node, key: Key, x: Key) returns (c0: Node)
    requires Tier(n) && Valid(n) && |key| > n.level && |x| > n.level
    requires !n.slots[key[n.level]].Empty?
    ensures c0.Real() && Valid(c0) && Height(c0) == n.level - 1
    ensures Contains(c0, x) == Contains(n.slots[key[n.level]], x)
    ensures var c := Clear(c0, key).0;
      Clear(n, key).0.slots[key[n.level]] == if IsEmpty(c) then Empty else c
  {
    c0 := Open(n, key[n.level]).slots[key[n.level]];
    OpenedSlot(n, key[n.level], x);
    ClearPathSlot(n, key);
  }

  /** A level that became empty, dropped from its slot, still holds what it held. */
  lemma DroppedSlot(c: Node, after: Node, x: Key)
    requires c.Real() && Valid(c) && |x| > Height(c)
    requires after == if IsEmpty(c) then Empty else c
    ensures Contains(after, x) == Contains(c, x)
  {
    if IsEmpty(c) {
      EmptyHoldsNothing(c);
    }
  }

  /** `clear` on a tier changes no slot off the path, and nothing when the path's slot is
      absent. */
  lemma ClearFrame(n: Node, key: Key)
    requires Tier(n) && |key| > n.level
    ensures var r := Clear(n, key).0;
      r.Inner? && r.level == n.level && r.slots == n.slots[key[n.level] := r.slots[key[n.level]]]
      && (n.slots[key[n.level]].Empty? ==> r == n)
  {
  }

  /** The slot `clear` leaves on the path: the level below after `clear`, or Empty in its
      place. */
  lemma ClearPathSlot(n: Node, key: Key)
    requires Tier(n) && |key| > n.level && !n.slots[key[n.level]].Empty?
    ensures var c := Clear(Open(n, key[n.level]).slots[key[n.level]], key).0;
      Clear(n, key).0.slots[key[n.level]] == if IsEmpty(c) then Empty else c
  {
  }

  /** `flip(index)` inverts exactly the addressed bit when the threshold is 256; with a
      smaller one every bit it should leave set is set, but a slot it collapses may
      gain others. */
  lemma {:induction false} FlipEffect(n: Node, key: Key, m: int, x: Key)
    requires n.Real() && Valid(n) && |key| > Height(n) && |x| > Height(n) && ValidOccupancy(m)
    ensures (if SameUpTo(x, key, Height(n)) then !Contains(n, x) else Contains(n, x)) ==> Contains(Flip(n, key, m), x)
    ensures m == LEVEL_SIZE ==>
      (Contains(Flip(n, key, m), x) <==> if SameUpTo(x, key, Height(n)) then !Contains(n, x) else Contains(n, x))
    decreases Height(n), 1
  {
    var r := Flip(n, key, m);
    match n
    case Leaf(_, _) =>
      SameUpToZero(x, key);
    case Inner(level, slots, _, _) =>
      var s := key[level];
      SameUpToStep(x, key, level);
      ContainsViaSlot(n, x);
      ContainsViaSlot(r, x);
      if x[level] == s {
        FlipPathEffect(n, key, m, x);
      }
  }

  /** The slot on the path after `flip`: opened, the bit flipped in the level below, and
      the slot reclassified as collapsed, absent or materialised. */
  lemma {:induction false} FlipPathEffect(n: Node, key: Key, m: int, x: Key)
    requires Tier(n) && Valid(n) && |key| > n.level && |x| > n.level && ValidOccupancy(m)
    requires x[n.level] == key[n.level]
    ensures var was := Contains(n.slots[x[n.level]], x);
      (if SameUpTo(x, key, n.level - 1) then !was else was) ==> Contains(Flip(n, key, m).slots[x[n.level]], x)
    ensures var was := Contains(n.slots[x[n.level]], x);
      m == LEVEL_SIZE ==>
        (Contains(Flip(n, key, m).slots[x[n.level]], x) <==> if SameUpTo(x, key, n.level - 1) then !was else was)
    decreases Height(n), 0
  {
    var s := key[n.level];
    var c0 := Open(n, s).slots[s];
    OpenedSlot(n, s, x);
    var c := Flip(c0, key, m);
    FlipPathSlot(n, key, m);
    FlipEffect(c0, key, m, x);
    var after := Flip(n, key, m).slots[s];
    if IsFull(c, m) {
      assert after == Full;
      if m == LEVEL_SIZE {
        FullHoldsEverything(c);
      }
    } else if IsEmpty(c) {
      assert after == Empty;
      EmptyHoldsNothing(c);
    } else {
      assert after == c;
    }
  }

  /** The slot `flip` leaves on the path: the level below after `flip`, reclassified. */
  lemma FlipPathSlot(n: Node, key: Key, m: int)
    requires Tier(n) && |key| > n.level
    ensures var c := Flip(Open(n, key[n.level]).slots[key[n.level]], key, m);
      Flip(n, key, m).slots[key[n.level]] == if IsFull(c, m) then Full else if IsEmpty(c) then Empty else c
  {
  }
}
