/** The level abstraction shared by every tier (SparseBitLevel, SparseBitLevelType,
    SparseBitLevels): one tagged union for the leaf, the intermediate tier and the two
    stateless sentinels, the structural invariant that `validate()` checks, and the
    abstraction function from a level to the set of keys whose bit it holds. */
module Levels {
  import opened Errors
  import opened SparseBitUtil
  import opened Keys

  /** Which behaviour to follow at the places where the level code departs from its
      documented contract: `AsWritten` follows the source, `Corrected` the evident intent. */
  datatype Revision = AsWritten | Corrected

  /** The three bit mutations. */
  datatype Op = SetOp | ClearOp | FlipOp

  /** The new value of one bit that a mutation touches. */
  function Apply(op: Op, b: bool): bool
  {
    match op
    case SetOp => true
    case ClearOp => false
    case FlipOp => !b
  }

  /** How a mutation of a real level ended: normally, or by an exception that leaves
      behind whatever the level had already changed. */
  datatype Outcome = Done(node: Node) | Raised(node: Node, error: Error)

  /** SparseBitLevelType. */
  datatype LevelType = NULL | FULL | REAL

  /** A level of the tree. The sentinels SparseBitLevels.NULL and SparseBitLevels.FULL
      hold no state, so every use of one is the same shared value.
      - `Empty` is SparseBitLevelNull: all bits 0. Inside an intermediate tier it is a slot
        with `underlyings[s] == null` and no collapse bit.
      - `Full` is SparseBitLevelFull: all bits 1. Inside an intermediate tier it is a slot
        whose collapse bit is set.
      - `Leaf` is SparseBitLevel0: a 256-bit bitmap and its recorded occupancy.
      - `Inner` is SparseBitLevelN at `level`: 256 slots, the number of collapsed slots
        (`currentOccupancy`) and the number of materialised slots (`currentUsage`). */
  datatype Node =
    | Empty
    | Full
    | Leaf(bits: seq<bool>, occupancy: int)
    | Inner(level: nat, slots: seq<Node>, occupancy: int, usage: int)
  {
    /** A level that owns state, as opposed to a shared sentinel. */
    predicate Real()
    {
      Leaf? || Inner?
    }
  }

  /** `getType()`. */
  function Type(n: Node): (r: LevelType)
    ensures r == LevelType.NULL <==> n == Empty
    ensures r == LevelType.FULL <==> n == Full
    ensures r == REAL <==> n.Real()
  {
    match n
    case Empty => LevelType.NULL
    case Full => LevelType.FULL
    case _ => REAL
  }

  /** The collapse thresholds a set may be built with. */
  predicate ValidOccupancy(m: int)
  {
    2 <= m <= LEVEL_SIZE
  }

  /** The level a node reads its segment from; sentinels read none. */
  function Height(n: Node): nat
  {
    if n.Inner? then n.level else 0
  }

  /** Both are real levels of the same kind at the same height. */
  predicate SameShape(a: Node, b: Node)
  {
    a.Real() && b.Real() && a.Leaf? == b.Leaf? && Height(a) == Height(b)
  }

  /** What the Java types guarantee: 256 bits or slots, and every materialised slot of
      a tier at level h is a real level at h - 1 (a leaf exactly when h - 1 == 0). */
  predicate Shaped(n: Node)
  {
    match n
    case Empty => true
    case Full => true
    case Leaf(bits, _) => |bits| == LEVEL_SIZE
    case Inner(level, slots, _, _) =>
      && level >= 1
      && |slots| == LEVEL_SIZE
      && forall i | 0 <= i < |slots| ::
           Shaped(slots[i]) && (slots[i].Real() ==> Height(slots[i]) == level - 1)
  }

  /** Population count. */
  function Tally(s: seq<bool>): (r: nat)
    ensures r <= |s|
  {
    Count(s, |s|)
  }

  /** Population count of the first n entries. */
  function Count(s: seq<bool>, n: nat): (r: nat)
    requires n <= |s|
    ensures r <= n
  {
    if n == 0 then 0 else Count(s, n - 1) + (if s[n - 1] then 1 else 0)
  }

  /** Which slots are collapsed. */
  function FullMask(slots: seq<Node>): (r: seq<bool>)
    ensures |r| == |slots| && forall i | 0 <= i < |slots| :: r[i] == slots[i].Full?
  {
    seq(|slots|, i requires 0 <= i < |slots| => slots[i].Full?)
  }

  /** Which slots are materialised. */
  function RealMask(slots: seq<Node>): (r: seq<bool>)
    ensures |r| == |slots| && forall i | 0 <= i < |slots| :: r[i] == slots[i].Real()
  {
    seq(|slots|, i requires 0 <= i < |slots| => slots[i].Real())
  }

  /** What `validate()` checks: a leaf's occupancy is its population count; a tier's
      occupancy and usage are its numbers of collapsed and materialised slots, and every
      materialised slot validates too. (A slot that is both collapsed and materialised,
      the other failure `validate()` reports, cannot be written in this representation.)
      `validate()` throws IllegalStateException exactly when this is false. */
  predicate Validate(n: Node)
  {
    match n
    case Empty => true
    case Full => true
    case Leaf(bits, occupancy) => occupancy == Tally(bits)
    case Inner(_, slots, occupancy, usage) =>
      && occupancy == Tally(FullMask(slots))
      && usage == Tally(RealMask(slots))
      && forall i | 0 <= i < |slots| :: Validate(slots[i])
  }

  predicate Valid(n: Node)
  {
    Shaped(n) && Validate(n)
  }

  /** The abstraction function: whether the bit addressed by key x is set. */
  predicate Contains(n: Node, x: Key)
    requires Shaped(n) && |x| > Height(n)
  {
    match n
    case Empty => false
    case Full => true
    case Leaf(bits, _) => bits[x[0]]
    case Inner(level, slots, _, _) => Contains(slots[x[level]], x)
  }

  /** `isEmpty()` of every kind of level. */
  predicate IsEmpty(n: Node)
  {
    match n
    case Empty => true
    case Full => false
    case Leaf(_, occupancy) => occupancy == 0
    case Inner(_, _, occupancy, usage) => occupancy == 0 && usage == 0
  }

  /** `isFull()` of every kind of level, for collapse threshold m. */
  predicate IsFull(n: Node, m: int)
  {
    match n
    case Empty => false
    case Full => true
    case Leaf(_, occupancy) => occupancy >= m
    case Inner(_, _, occupancy, _) => occupancy >= m
  }

  /** The bits a mutation of [f, t] should leave in a level that held those of n. */
  ghost function Expected(op: Op, n: Node, f: Key, t: Key, x: Key): bool
    requires Shaped(n) && |x| > Height(n) && |f| > Height(n) && |t| > Height(n)
  {
    if InRange(x, f, t, Height(n)) then Apply(op, Contains(n, x)) else Contains(n, x)
  }

  /** n' holds at least the bits the mutation should leave. */
  ghost predicate Reaches(op: Op, n: Node, n': Node, f: Key, t: Key)
    requires Shaped(n) && Shaped(n') && Height(n') == Height(n)
    requires |f| > Height(n) && |t| > Height(n)
  {
    forall x: Key {:trigger Expected(op, n, f, t, x)} {:trigger Contains(n', x)} | |x| > Height(n) :: Expected(op, n, f, t, x) ==> Contains(n', x)
  }

  /** n' holds no bit the mutation should not leave. */
  ghost predicate Within(op: Op, n: Node, n': Node, f: Key, t: Key)
    requires Shaped(n) && Shaped(n') && Height(n') == Height(n)
    requires |f| > Height(n) && |t| > Height(n)
  {
    forall x: Key {:trigger Contains(n', x)} {:trigger Expected(op, n, f, t, x)} | |x| > Height(n) :: Contains(n', x) ==> Expected(op, n, f, t, x)
  }

  /** Both levels hold the same bits. */
  ghost predicate Same(n: Node, n': Node)
    requires Shaped(n) && Shaped(n') && Height(n') == Height(n)
  {
    forall x: Key {:trigger Contains(n', x)} {:trigger Contains(n, x)} | |x| > Height(n) :: Contains(n', x) == Contains(n, x)
  }

  /** `SparseBitLevels.createLevel(maximumOccupancy, levels)`: a leaf when levels - 1 <= 0,
      otherwise an empty intermediate tier at level levels - 1. */
  function CreateLevel(levels: int): (r: Node)
    ensures Valid(r) && r.Real()
    ensures r.Leaf? <==> levels - 1 <= 0
    ensures r.Inner? ==> r.level == levels - 1
    ensures IsEmpty(r) && forall m | m >= 1 :: !IsFull(r, m)
    ensures forall x: Key {:trigger Contains(r, x)} | |x| > Height(r) :: !Contains(r, x)
  {
    var level := levels - 1;
    if level > 0 then
      var r := Inner(level, seq(LEVEL_SIZE, i => Empty), 0, 0);
      assert FullMask(r.slots) == seq(LEVEL_SIZE, i => false);
      assert RealMask(r.slots) == seq(LEVEL_SIZE, i => false);
      TallyNone(seq(LEVEL_SIZE, i => false));
      r
    else
      TallyNone(seq(LEVEL_SIZE, i => false));
      Leaf(seq(LEVEL_SIZE, i => false), 0)
  }

  lemma TallyUpdate(s: seq<bool>, i: nat, b: bool)
    requires i < |s|
    ensures Tally(s[i := b]) == Tally(s) - (if s[i] then 1 else 0) + (if b then 1 else 0)
  {
    CountUpdate(s, i, b, |s|);
  }

  lemma {:induction false} CountUpdate(s: seq<bool>, i: nat, b: bool, n: nat)
    requires i < |s| && n <= |s|
    ensures Count(s[i := b], n) == Count(s, n) - (if i < n && s[i] then 1 else 0) + (if i < n && b then 1 else 0)
  {
    if n > 0 {
      CountUpdate(s, i, b, n - 1);
    }
  }

  lemma TallyNone(s: seq<bool>)
    ensures Tally(s) == 0 <==> forall i | 0 <= i < |s| :: !s[i]
  {
    CountNone(s, |s|);
  }

  lemma {:induction false} CountNone(s: seq<bool>, n: nat)
    requires n <= |s|
    ensures Count(s, n) == 0 <==> forall i | 0 <= i < n :: !s[i]
  {
    if n > 0 {
      CountNone(s, n - 1);
    }
  }

  lemma TallyAll(s: seq<bool>)
    ensures Tally(s) == |s| <==> forall i | 0 <= i < |s| :: s[i]
  {
    CountAll(s, |s|);
  }

  lemma {:induction false} CountAll(s: seq<bool>, n: nat)
    requires n <= |s|
    ensures Count(s, n) == n <==> forall i | 0 <= i < n :: s[i]
  {
    if n > 0 {
      CountAll(s, n - 1);
    }
  }

  lemma TallyNegate(s: seq<bool>)
    ensures Tally(seq(|s|, i requires 0 <= i < |s| => !s[i])) == |s| - Tally(s)
  {
    CountNegate(s, seq(|s|, i requires 0 <= i < |s| => !s[i]), |s|);
  }

  lemma {:induction false} CountNegate(s: seq<bool>, ns: seq<bool>, n: nat)
    requires |ns| == |s| && n <= |s|
    requires forall i | 0 <= i < |s| :: ns[i] == !s[i]
    ensures Count(ns, n) == n - Count(s, n)
  {
    if n > 0 {
      CountNegate(s, ns, n - 1);
    }
  }

  lemma MasksUpdate(slots: seq<Node>, i: nat, c: Node)
    requires i < |slots|
    ensures FullMask(slots[i := c]) == FullMask(slots)[i := c.Full?]
    ensures RealMask(slots[i := c]) == RealMask(slots)[i := c.Real()]
  {
  }

  /** A level that reports isEmpty() holds no bit. */
  lemma EmptyHoldsNothing(n: Node)
    requires Valid(n) && IsEmpty(n)
    ensures forall x: Key {:trigger Contains(n, x)} | |x| > Height(n) :: !Contains(n, x)
  {
    match n
    case Leaf(bits, _) =>
      TallyNone(bits);
    case Inner(_, slots, _, _) =>
      TallyNone(FullMask(slots));
      TallyNone(RealMask(slots));
    case _ =>
  }

  /** With the precise threshold 256, a level that reports isFull() holds every bit. */
  lemma FullHoldsEverything(n: Node)
    requires Valid(n) && IsFull(n, LEVEL_SIZE)
    ensures forall x: Key {:trigger Contains(n, x)} | |x| > Height(n) :: Contains(n, x)
  {
    match n
    case Leaf(bits, _) =>
      TallyAll(bits);
    case Inner(_, slots, _, _) =>
      TallyAll(FullMask(slots));
    case _ =>
  }

  /** A leaf reports isEmpty() exactly when it holds no bit, and isFull() exactly when it
      holds at least m bits. */
  lemma LeafEmptyFull(n: Node, m: int)
    requires Valid(n) && n.Leaf?
    ensures IsEmpty(n) ==> forall x: Key {:trigger Contains(n, x)} | |x| > 0 :: !Contains(n, x)
    ensures !IsEmpty(n) ==> exists x: Key {:trigger Contains(n, x)} | |x| > 0 :: Contains(n, x)
    ensures IsFull(n, m) <==> Tally(n.bits) >= m
  {
    TallyNone(n.bits);
    if IsEmpty(n) {
      EmptyHoldsNothing(n);
    } else {
      var i :| 0 <= i < |n.bits| && n.bits[i];
      var x: Key := [i];
      assert Contains(n, x);
    }
  }

  /** A level reads only the segments at and below its own level. */
  lemma {:induction false} ContainsReadsLowSegments(n: Node, x: Key, y: Key)
    requires Shaped(n) && |x| > Height(n) && |y| > Height(n) && SameUpTo(x, y, Height(n))
    ensures Contains(n, x) == Contains(n, y)
  {
    var h := Height(n);
    assert x[h] == x[..h + 1][h] && y[h] == y[..h + 1][h];
    match n
    case Inner(level, slots, _, _) =>
      var c := slots[x[level]];
      if c.Real() {
        assert x[..Height(c) + 1] == x[..h + 1][..Height(c) + 1];
        assert y[..Height(c) + 1] == y[..h + 1][..Height(c) + 1];
        ContainsReadsLowSegments(c, x, y);
      }
    case _ =>
  }
}
