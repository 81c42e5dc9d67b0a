/** SparseBitLevel0: the last tier, a bitmap of 256 bits addressed by segment 0 and the
    number of bits set in it. */
module Level0 {
  import opened Errors
  import opened SparseBitUtil
  import opened Keys
  import opened Levels

  /** The bitmap of a leaf with every bit at b. */
  function Uniform(b: bool): (bits: seq<bool>)
    ensures |bits| == LEVEL_SIZE && forall i | 0 <= i < LEVEL_SIZE :: bits[i] == b
  {
    seq(LEVEL_SIZE, i => b)
  }

  /** `setAll()`: every bit set, occupancy 256, whatever the leaf held before. */
  function SetAll(n: Node): (r: Node)
    requires n.Leaf?
    ensures r.Leaf? && Valid(r) && r.occupancy == LEVEL_SIZE
    ensures forall x: Key {:trigger Contains(r, x)} | |x| > 0 :: Contains(r, x)
  {
    TallyAll(Uniform(true));
    Leaf(Uniform(true), LEVEL_SIZE)
  }

  /** `clearAll()`: every bit cleared, occupancy 0. */
  function ClearAll(n: Node): (r: Node)
    requires n.Leaf?
    ensures r.Leaf? && Valid(r) && IsEmpty(r)
    ensures forall x: Key {:trigger Contains(r, x)} | |x| > 0 :: !Contains(r, x)
  {
    TallyNone(Uniform(false));
    Leaf(Uniform(false), 0)
  }

  /** `flipAll()`: every bit inverted; the occupancy becomes its complement to 256
      without recounting, which is right exactly when it was right before. */
  function FlipAll(n: Node): (r: Node)
    requires n.Leaf? && Shaped(n)
    ensures r.Leaf? && Shaped(r)
    ensures Validate(r) <==> Validate(n)
    ensures forall x: Key {:trigger Contains(r, x)} {:trigger Contains(n, x)} | |x| > 0 :: Contains(r, x) == !Contains(n, x)
  {
    var bits := seq(LEVEL_SIZE, i requires 0 <= i < LEVEL_SIZE => !n.bits[i]);
    TallyNegate(n.bits);
    Leaf(bits, LEVEL_SIZE - n.occupancy)
  }

  /** `set(index)`: reports whether the bit was clear, and counts it in if so. */
  function Set(n: Node, key: Key): (r: (Node, bool))
    requires n.Leaf? && Shaped(n) && |key| > 0
    ensures r.0.Leaf? && Shaped(r.0)
    ensures Validate(n) ==> Validate(r.0)
    ensures r.1 == !Contains(n, key)
    ensures forall x: Key {:trigger Contains(r.0, x)} {:trigger Contains(n, x)} | |x| > 0 :: Contains(r.0, x) == (x[0] == key[0] || Contains(n, x))
  {
    var s := key[0];
    if n.bits[s] then (n, false)
    else
      TallyUpdate(n.bits, s, true);
      (Leaf(n.bits[s := true], n.occupancy + 1), true)
  }

  /** `clear(index)`: reports whether the bit was set, and counts it out if so. */
  function Clear(n: Node, key: Key): (r: (Node, bool))
    requires n.Leaf? && Shaped(n) && |key| > 0
    ensures r.0.Leaf? && Shaped(r.0)
    ensures Validate(n) ==> Validate(r.0)
    ensures r.1 == Contains(n, key)
    ensures forall x: Key {:trigger Contains(r.0, x)} {:trigger Contains(n, x)} | |x| > 0 :: Contains(r.0, x) == (x[0] != key[0] && Contains(n, x))
  {
    var s := key[0];
    if n.bits[s] then
      TallyUpdate(n.bits, s, false);
      (Leaf(n.bits[s := false], n.occupancy - 1), true)
    else (n, false)
  }

  /** `flip(index)`: inverts the bit and moves the occupancy by one accordingly. */
  function Flip(n: Node, key: Key): (r: Node)
    requires n.Leaf? && Shaped(n) && |key| > 0
    ensures r.Leaf? && Shaped(r)
    ensures Validate(n) ==> Validate(r)
    ensures forall x: Key {:trigger Contains(r, x)} {:trigger Contains(n, x)} | |x| > 0 :: Contains(r, x) == (if x[0] == key[0] then !Contains(n, x) else Contains(n, x))
  {
    var s := key[0];
    TallyUpdate(n.bits, s, !n.bits[s]);
    Leaf(n.bits[s := !n.bits[s]], if n.bits[s] then n.occupancy - 1 else n.occupancy + 1)
  }

  /** The bulk `set`, `clear` and `flip` of [from, to]: only segment 0 of the bounds is
      read; a reversed pair raises IllegalArgumentException before anything changes;
      otherwise the occupancy is recounted, so the leaf validates afterwards even if
      its count was off before. */
  function Range(op: Op, n: Node, f: Key, t: Key): (r: Outcome)
    requires n.Leaf? && Shaped(n) && |f| > 0 && |t| > 0
    ensures r.node.Leaf? && Shaped(r.node)
    ensures r.Done? <==> f[0] <= t[0]
    ensures r.Done? ==> Valid(r.node)
    ensures r.Raised? ==> r == Raised(n, IllegalArgument)
    ensures forall x: Key {:trigger Contains(r.node, x)} {:trigger Expected(op, n, f, t, x)} | |x| > 0 :: Contains(r.node, x) == Expected(op, n, f, t, x)
  {
    match CheckSegments(f[0], t[0])
    case Fail(e) => Raised(n, e)
    case Ok(_) =>
      var bits := seq(LEVEL_SIZE, i requires 0 <= i < LEVEL_SIZE =>
                      if f[0] <= i <= t[0] then Apply(op, n.bits[i]) else n.bits[i]);
      Done(Leaf(bits, Tally(bits)))
  }
}
