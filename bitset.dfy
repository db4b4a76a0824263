/**
 * The part of `java.util.BitSet` the bit-plane codec relies on: a set of bit
 * indices that starts empty, `get`, `set(i)`, `set(from, to)`, `nextSetBit`
 * (here only whether it is negative) and `nextClearBit`. The indices `set`
 * takes are Java `int`s; a negative one throws, which the callers check first.
 */
module BitSets {
  import opened JavaInt

  /** The indices from..to-1, the bits `set(from, to)` turns on. */
  function Range(from: nat, to: nat): (r: set<nat>)
    ensures forall k: nat :: k in r <==> (from <= k < to)
  {
    if to <= from then {} else Range(from, to - 1) + {to - 1}
  }

  /** A strict upper bound of a finite set of indices. */
  ghost function Bound(m: set<nat>): (b: nat)
    ensures forall k :: k in m ==> k < b
  {
    if m == {} then 0
    else
      var x :| x in m;
      var r := Bound(m - {x});
      assert forall k :: k in m ==> k == x || k in m - {x};
      if x + 1 > r then x + 1 else r
  }

  /** `nextSetBit(i) >= 0`: some index at or after i is set. */
  predicate HasSetBitFrom(m: set<nat>, i: nat)
  {
    exists k :: k in m && k >= i
  }

  /** `nextClearBit(i)`: the first index at or after i that is not set. */
  function NextClearBit(m: set<nat>, i: nat): (r: nat)
    ensures r >= i && r !in m
    ensures forall k :: i <= k < r ==> k in m
    decreases Bound(m) - i
  {
    if i !in m then i else NextClearBit(m, i + 1)
  }

  class BitSet {
    /** The indices whose bit is set; every other bit is clear. */
    var members: set<nat>

    /** `new BitSet()`: all bits clear. */
    constructor ()
      ensures members == {}
    {
      members := {};
    }

    /** `get(i)`. */
    function Get(i: nat): bool
      reads this
    {
      i in members
    }

    /** `set(i)` for an `int` index 0 <= i: turns bit i on and leaves every other bit as it was. */
    method Set(i: nat)
      requires i < Two31
      modifies this
      ensures members == old(members) + {i}
    {
      members := members + {i};
    }

    /** `set(from, to)` for `int` bounds 0 <= from <= to: turns bits from..to-1 on. */
    method SetRange(from: nat, to: nat)
      requires from <= to < Two31
      modifies this
      ensures members == old(members) + Range(from, to)
    {
      var i := from;
      while i < to
        invariant from <= i <= to
        invariant members == old(members) + Range(from, i)
      {
        Set(i);
        i := i + 1;
      }
    }
  }
}
