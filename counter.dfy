// The tuple counter behind `count` clauses and positional variables: a long
// that turns into an arbitrary-precision decimal once it would overflow.

module Counter {
  import opened Base

  /** Long.MAX_VALUE. */
  const LongMax: int := 0x7fff_ffff_ffff_ffff

  /** The integer numerics a counter is compared with and converted to:
    * Int32 and Int64 are the long-valued ones (LonNumeric), Int is backed by
    * a BigDecimal. */
  datatype IntNumeric = Int32(v: int) | Int64(v: int) | Int(v: int)

  /** Long.compare and BigDecimal.compareTo: -1, 0 or 1. */
  function Compare(x: int, y: int): (r: int)
    ensures r == -1 || r == 0 || r == 1
    ensures r < 0 <==> x < y
    ensures r == 0 <==> x == y
    ensures r > 0 <==> x > y
  {
    if x < y then -1 else if x == y then 0 else 1
  }

  class Counter {
    /** The long representation, used while `bdv` is unset (None is Java null). */
    var lv: int
    /** The BigDecimal representation, once the long one is exhausted. */
    var bdv: Option<int>

    /** In long mode `lv` is a non-negative long; in big mode `lv` is -1 and
      * the value has gone past Long.MAX_VALUE. */
    ghost predicate Valid()
      reads this
    {
      (bdv.None? ==> 0 <= lv <= LongMax) &&
      (bdv.Some? ==> lv == -1 && bdv.value > LongMax)
    }

    /** The mathematical value the counter stands for. */
    function Value(): int
      reads this
    {
      if bdv.None? then lv else bdv.value
    }

    /** A fresh counter is 0, in long mode. */
    constructor ()
      ensures Valid() && Value() == 0 && bdv.None?
    {
      lv := 0;
      bdv := None;
    }

    /** inc: the value grows by exactly one; the representation changes to
      * BigDecimal exactly when incrementing from Long.MAX_VALUE, and never
      * changes back. */
    method Inc() returns (r: Counter)
      requires Valid()
      modifies this
      ensures Valid() && r == this
      ensures Value() == old(Value()) + 1
      ensures old(bdv).None? && old(lv) < LongMax ==> bdv.None? && lv == old(lv) + 1
      ensures old(bdv).None? && old(lv) == LongMax ==> bdv.Some? && lv == -1
      ensures old(bdv).Some? ==> bdv.Some? && lv == -1
    {
      if bdv.None? {
        if lv < LongMax {
          lv := lv + 1;
          return this;
        }
        bdv := Some(lv);
        lv := -1;
      }
      bdv := Some(bdv.value + 1);
      return this;
    }

    /** asIntNumeric: an Int64 in long mode, an Int in big mode, both
      * denoting the current value. */
    function AsIntNumeric(): (r: IntNumeric)
      reads this
      ensures r.v == Value()
      ensures r.Int64? <==> bdv.None?
      ensures r.Int? <==> bdv.Some?
    {
      if bdv.None? then Int64(lv) else Int(bdv.value)
    }

    /** cmp(i): the sign of the counter's value minus i's value, whichever
      * representation either side uses. Against a long counter the source
      * tells LonNumeric arguments from the others, but with unbounded values
      * both of its branches make the same comparison. */
    function Cmp(i: IntNumeric): (r: int)
      reads this
      ensures r == -1 || r == 0 || r == 1
      ensures r < 0 <==> Value() < i.v
      ensures r == 0 <==> Value() == i.v
      ensures r > 0 <==> Value() > i.v
    {
      if bdv.None? then Compare(lv, i.v) else Compare(bdv.value, i.v)
    }
  }

  /** Incrementing n times from a fresh counter reaches n: the counter counts
    * past Long.MAX_VALUE without wrapping around. */
  method CountTo(n: nat) returns (c: Counter)
    ensures fresh(c) && c.Valid() && c.Value() == n
    ensures c.bdv.Some? <==> n > LongMax
  {
    c := new Counter();
    for k := 0 to n
      invariant c.Valid() && c.Value() == k
      invariant c.bdv.Some? <==> k > LongMax
    {
      var _ := c.Inc();
    }
  }
}
