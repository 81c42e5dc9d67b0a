/** SparseBitLevelFull and SparseBitLevelNull: the shared stateless levels standing for a
    subtree with every bit set and with no bit set. Being shared, they cannot change;
    each accepts exactly the operations that leave its bits as they are and throws
    UnsupportedOperationException for the others. */
module Sentinels {
  import opened Errors
  import opened Keys
  import opened Levels

  predicate Sentinel(n: Node)
  {
    n.Full? || n.Empty?
  }

  /** An operation leaves every bit of the sentinel n as it is. */
  ghost predicate Keeps(op: Op, n: Node)
    requires Sentinel(n)
  {
    forall x: Key {:trigger Contains(n, x)} | |x| > 0 :: Apply(op, Contains(n, x)) == Contains(n, x)
  }

  /** `get(index)`. */
  function Get(n: Node, key: Key): (r: bool)
    requires Sentinel(n)
    ensures r <==> forall x: Key {:trigger Contains(n, x)} | |x| > 0 :: Contains(n, x)
  {
    var w: Key := [0];
    assert Contains(n, w) == n.Full?;
    n.Full?
  }

  /** The single-bit `set(index)` and `clear(index)`: accepted by the sentinel whose
      bits they would not change, where they report that nothing changed. */
  function Update(op: Op, n: Node, key: Key): (r: Result<bool>)
    requires Sentinel(n) && op != FlipOp
    ensures r.Ok? <==> Keeps(op, n)
    ensures r.Ok? ==> r.value == false
    ensures r.Fail? ==> r.error == UnsupportedOperation
  {
    assert Contains(n, [0]) == n.Full?;
    match op
    case SetOp => if n.Full? then Ok(false) else Fail(UnsupportedOperation)
    case ClearOp => if n.Empty? then Ok(false) else Fail(UnsupportedOperation)
  }

  /** `flip(index)`, the bulk operations of [from, to] and `setAll()`, `clearAll()`,
      `flipAll()`: none reads its arguments, so a sentinel does not check the order of
      the bounds either. */
  function Bulk(op: Op, n: Node): (r: Result<()>)
    requires Sentinel(n)
    ensures r.Ok? <==> Keeps(op, n)
    ensures r.Fail? ==> r.error == UnsupportedOperation
  {
    assert Contains(n, [0]) == n.Full?;
    match op
    case SetOp => if n.Full? then Ok(()) else Fail(UnsupportedOperation)
    case ClearOp => if n.Empty? then Ok(()) else Fail(UnsupportedOperation)
    case FlipOp => Fail(UnsupportedOperation)
  }
}
