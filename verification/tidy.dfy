/** The shape the single-bit operations keep: no materialised level below a tier is full
    or empty. It is what makes `isEmpty()` and `isFull()` of a precise set (m = 256)
    answer for the bits the set holds rather than for its counters. */
module Tidy {
  import opened SparseBitUtil
  import opened Keys
  import opened Levels
  import opened LevelN
  import BitSemantics

  /** Every materialised slot, at every depth, is neither full (it would have been
      collapsed) nor empty (it would have been dismissed). */
  predicate Tidy(n: Node, m: int)
  {
    match n
    case Inner(_, slots, _, _) =>
      forall i | 0 <= i < |slots| ::
        slots[i].Real() ==> !IsFull(slots[i], m) && !IsEmpty(slots[i]) && Tidy(slots[i], m)
    case _ => true
  }

  /** What tidiness says of one materialised slot. */
  lemma TidySlot(n: Node, s: Byte, m: int)
    requires n.Inner? && |n.slots| == LEVEL_SIZE && Tidy(n, m) && n.slots[s].Real()
    ensures !IsFull(n.slots[s], m) && !IsEmpty(n.slots[s]) && Tidy(n.slots[s], m)
  {
  }

  /** A valid tier that is empty or full has no materialised slot, so it is tidy. */
  lemma NoRealSlots(n: Node, m: int)
    requires Valid(n) && n.Inner? && (IsEmpty(n) || IsFull(n, LEVEL_SIZE))
    ensures forall i | 0 <= i < |n.slots| :: !n.slots[i].Real()
    ensures Tidy(n, m)
  {
    TallyNone(RealMask(n.slots));
    if !IsEmpty(n) {
      TallyAll(FullMask(n.slots));
      TallyNone(RealMask(n.slots)) by {
        assert forall i | 0 <= i < |n.slots| :: n.slots[i].Full?;
        assert forall i | 0 <= i < |n.slots| :: !RealMask(n.slots)[i];
      }
    }
  }

  /** A key of height h + 1 whose top segment is s and whose lower segments are x's. */
  function Graft(x: Key, h: nat, s: Byte): (y: Key)
    requires |x| >= h
    ensures |y| == h + 1 && y[h] == s && y[..h] == x[..h]
  {
    x[..h] + [s]
  }

  /** A tier contains every key exactly when slot s, read through the tier, does for every s;
      with the lower levels free, slot s must then contain every key of its own height. */
  lemma SlotHoldsAll(n: Node, s: Byte)
    requires Tier(n) && n.slots[s].Real()
    requires forall x: Key {:trigger Contains(n, x)} | |x| > n.level :: Contains(n, x)
    ensures forall y: Key {:trigger Contains(n.slots[s], y)} | |y| > n.level - 1 :: Contains(n.slots[s], y)
  {
    forall y: Key {:trigger Contains(n.slots[s], y)} | |y| > n.level - 1
      ensures Contains(n.slots[s], y)
    {
      var z := Graft(y, n.level, s);
      assert Contains(n, z);
      assert SameUpTo(y, z, n.level - 1);
      ContainsReadsLowSegments(n.slots[s], y, z);
    }
  }

  lemma SlotHoldsNone(n: Node, s: Byte)
    requires Tier(n) && n.slots[s].Real()
    requires forall x: Key {:trigger Contains(n, x)} | |x| > n.level :: !Contains(n, x)
    ensures forall y: Key {:trigger Contains(n.slots[s], y)} | |y| > n.level - 1 :: !Contains(n.slots[s], y)
  {
    forall y: Key {:trigger Contains(n.slots[s], y)} | |y| > n.level - 1
      ensures !Contains(n.slots[s], y)
    {
      var z := Graft(y, n.level, s);
      assert !Contains(n, z);
      assert SameUpTo(y, z, n.level - 1);
      ContainsReadsLowSegments(n.slots[s], y, z);
    }
  }

  /** With m = 256 a valid tidy level is full exactly when it holds every key, and empty
      exactly when it holds none. */
  lemma {:induction false} ExactEmptyFull(n: Node)
    requires n.Real() && Valid(n) && Tidy(n, LEVEL_SIZE)
    ensures IsFull(n, LEVEL_SIZE) ==> forall x: Key {:trigger Contains(n, x)} | |x| > Height(n) :: Contains(n, x)
    ensures !IsFull(n, LEVEL_SIZE) ==> exists x: Key {:trigger Contains(n, x)} | |x| > Height(n) :: !Contains(n, x)
    ensures IsEmpty(n) ==> forall x: Key {:trigger Contains(n, x)} | |x| > Height(n) :: !Contains(n, x)
    ensures !IsEmpty(n) ==> exists x: Key {:trigger Contains(n, x)} | |x| > Height(n) :: Contains(n, x)
    decreases Height(n)
  {
    if n.Leaf? {
      LeafEmptyFull(n, LEVEL_SIZE);
      if forall x: Key {:trigger Contains(n, x)} | |x| > 0 :: Contains(n, x) {
        forall i | 0 <= i < LEVEL_SIZE
          ensures n.bits[i]
        {
          assert Contains(n, [i]);
        }
        TallyAll(n.bits);
      }
      if IsFull(n, LEVEL_SIZE) {
        FullHoldsEverything(n);
      }
    } else {
      if forall x: Key {:trigger Contains(n, x)} | |x| > n.level :: Contains(n, x) {
        forall i | 0 <= i < LEVEL_SIZE
          ensures n.slots[i].Full?
        {
          var s: Byte := i;
          var z := Floor(n.level) + [s];
          assert z[n.level] == s;
          BitSemantics.ContainsViaSlot(n, z);
          assert Contains(n, z);
          if n.slots[s].Real() {
            SlotHoldsAll(n, s);
            ExactEmptyFull(n.slots[s]);
            TidySlot(n, s, LEVEL_SIZE);
            assert false;
          }
        }
        assert forall i | 0 <= i < LEVEL_SIZE :: FullMask(n.slots)[i];
        TallyAll(FullMask(n.slots));
      }
      if IsFull(n, LEVEL_SIZE) {
        FullHoldsEverything(n);
      }
      if forall x: Key {:trigger Contains(n, x)} | |x| > n.level :: !Contains(n, x) {
        forall i | 0 <= i < LEVEL_SIZE
          ensures n.slots[i].Empty?
        {
          var s: Byte := i;
          var z := Floor(n.level) + [s];
          assert z[n.level] == s;
          BitSemantics.ContainsViaSlot(n, z);
          assert !Contains(n, z);
          if n.slots[s].Real() {
            SlotHoldsNone(n, s);
            ExactEmptyFull(n.slots[s]);
            TidySlot(n, s, LEVEL_SIZE);
            assert false;
          }
        }
        assert forall i | 0 <= i < LEVEL_SIZE :: !FullMask(n.slots)[i] && !RealMask(n.slots)[i];
        TallyNone(FullMask(n.slots));
        TallyNone(RealMask(n.slots));
      }
      if IsEmpty(n) {
        EmptyHoldsNothing(n);
      }
    }

  }

  /** A new level, and every level after setAll or clearAll, is tidy. */
  lemma FreshTidy(n: Node, m: int)
    requires n.Real() && Shaped(n)
    ensures Tidy(CreateLevel(Height(n) + 1), m)
    ensures Tidy(SetAll(n), m) && Tidy(ClearAll(n), m)
  {
    if n.Inner? {
      NoRealSlots(CreateLevel(Height(n) + 1), m);
      NoRealSlots(SetAll(n), m);
      NoRealSlots(ClearAll(n), m);
    }
  }

  /** Replacing slot s of a tidy tier keeps it tidy when the new slot is not a full or
      empty materialised level. */
  lemma SlotUpdateTidy(n: Node, r: Node, s: Byte, m: int)
    requires n.Inner? && r.Inner? && |n.slots| == |r.slots| == LEVEL_SIZE && Tidy(n, m)
    requires r.slots == n.slots[s := r.slots[s]]
    requires r.slots[s].Real() ==> !IsFull(r.slots[s], m) && !IsEmpty(r.slots[s]) && Tidy(r.slots[s], m)
    ensures Tidy(r, m)
  {
    forall i | 0 <= i < LEVEL_SIZE && r.slots[i].Real()
      ensures !IsFull(r.slots[i], m) && !IsEmpty(r.slots[i]) && Tidy(r.slots[i], m)
    {
      if i != s {
        assert r.slots[i] == n.slots[i];
      }
    }
  }

  /** The slot a single-bit operation descends into is tidy before the descent. */
  lemma OpenedSlotTidy(n: Node, s: Byte, m: int)
    requires Tier(n) && Valid(n) && Tidy(n, m)
    ensures !n.slots[s].Full? ==> Tidy(Require(n, s).slots[s], m)
    ensures Tidy(Open(n, s).slots[s], m)
    ensures n.slots[s].Full? ==> Tidy(Unfold(n, s).slots[s], m)
  {
    FreshTidy(CreateLevel(n.level), m);
  }

  /** A level that holds a key is not empty. */
  lemma HolderNotEmpty(n: Node, key: Key)
    requires n.Real() && Valid(n) && |key| > Height(n) && Contains(n, key)
    ensures !IsEmpty(n)
  {
    if IsEmpty(n) {
      EmptyHoldsNothing(n);
    }
  }

  /** What `set(index)` does to the slot on the key's path of a tier; no other slot changes. */
  lemma SetSlot(n: Node, key: Key, m: int, rev: Revision)
    requires Tier(n) && |key| > n.level
    ensures var s := key[n.level]; var r := Set(n, key, m, rev).0;
      && r.Inner? && r.slots == n.slots[s := r.slots[s]]
      && (!n.slots[s].Full? ==>
            var c := Set(Require(n, s).slots[s], key, m, rev).0;
            r.slots[s] == if IsFull(c, m) then Full else c)
  {
  }

  /** What `clear(index)` does to the slot on the key's path of a tier. */
  lemma ClearSlot(n: Node, key: Key)
    requires Tier(n) && |key| > n.level
    ensures var s := key[n.level]; var r := Clear(n, key).0;
      var n1 := if n.slots[s].Full? then Unfold(n, s) else n;
      && r.Inner? && r.slots == n.slots[s := r.slots[s]]
      && (n1.slots[s].Real() ==>
            var c := Clear(n1.slots[s], key).0;
            r.slots[s] == if IsEmpty(c) then Empty else c)
      && (!n1.slots[s].Real() ==> r.slots[s] == n.slots[s])
  {
  }

  /** What `flip(index)` does to the slot on the key's path of a tier. */
  lemma FlipSlot(n: Node, key: Key, m: int)
    requires Tier(n) && |key| > n.level
    ensures var s := key[n.level]; var r := Flip(n, key, m);
      var c := Flip(Open(n, s).slots[s], key, m);
      && r.Inner? && r.slots == n.slots[s := r.slots[s]]
      && r.slots[s] == (if IsFull(c, m) then Full else if IsEmpty(c) then Empty else c)
  {
  }

  /** `set(index)` and `flip(index)` of a tier, whatever the threshold, leave every key
      under another slot as it was. */
  lemma SparesOtherSlots(n: Node, key: Key, m: int, x: Key)
    requires Tier(n) && Valid(n) && |key| > n.level && |x| > n.level
    requires x[n.level] != key[n.level]
    ensures Contains(Set(n, key, m, Corrected).0, x) == Contains(n, x)
    ensures Contains(Flip(n, key, m), x) == Contains(n, x)
  {
    SetSlot(n, key, m, Corrected);
    FlipSlot(n, key, m);
    var r1, r2 := Set(n, key, m, Corrected).0, Flip(n, key, m);
    assert r1.slots[x[n.level]] == n.slots[x[n.level]];
    assert r2.slots[x[n.level]] == n.slots[x[n.level]];
  }

  /** `set(index)` keeps the level tidy, for every collapse threshold. */
  lemma {:induction false} SetKeepsTidy(n: Node, key: Key, m: int, rev: Revision)
    requires n.Real() && Valid(n) && Tidy(n, m) && |key| > Height(n) && ValidOccupancy(m)
    ensures Tidy(Set(n, key, m, rev).0, m)
    decreases Height(n)
  {
    if n.Inner? {
      var s := key[n.level];
      SetSlot(n, key, m, rev);
      if !n.slots[s].Full? {
        OpenedSlotTidy(n, s, m);
        var c0 := Require(n, s).slots[s];
        SetKeepsTidy(c0, key, m, rev);
        BitSemantics.SetEffect(c0, key, m, rev, key);
        HolderNotEmpty(Set(c0, key, m, rev).0, key);
      }
      SlotUpdateTidy(n, Set(n, key, m, rev).0, s, m);
    }
  }

  /** `clear(index)` keeps a precise level tidy: the unfolded slot loses one bit, so it is
      no longer full, and it is dismissed if it became empty. */
  lemma {:induction false} ClearKeepsTidy(n: Node, key: Key)
    requires n.Real() && Valid(n) && Tidy(n, LEVEL_SIZE) && |key| > Height(n)
    ensures Tidy(Clear(n, key).0, LEVEL_SIZE)
    decreases Height(n)
  {
    if n.Inner? {
      var s := key[n.level];
      ClearSlot(n, key);
      var n1 := if n.slots[s].Full? then Unfold(n, s) else n;
      if n1.slots[s].Real() {
        OpenedSlotTidy(n, s, LEVEL_SIZE);
        var c0 := n1.slots[s];
        ClearKeepsTidy(c0, key);
        BitSemantics.ClearEffect(c0, key, key);
        ExactEmptyFull(Clear(c0, key).0);
      }
      SlotUpdateTidy(n, Clear(n, key).0, s, LEVEL_SIZE);
    }
  }

  /** `flip(index)` keeps the level tidy, for every collapse threshold: the flipped slot
      is reclassified. */
  lemma {:induction false} FlipKeepsTidy(n: Node, key: Key, m: int)
    requires n.Real() && Valid(n) && Tidy(n, m) && |key| > Height(n) && ValidOccupancy(m)
    ensures Tidy(Flip(n, key, m), m)
    decreases Height(n)
  {
    if n.Inner? {
      var s := key[n.level];
      FlipSlot(n, key, m);
      OpenedSlotTidy(n, s, m);
      FlipKeepsTidy(Open(n, s).slots[s], key, m);
      SlotUpdateTidy(n, Flip(n, key, m), s, m);
    }
  }
}
