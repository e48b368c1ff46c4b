/** The 64-bit sequence numbers of dds/DCPS/Definitions.h: a signed high and an unsigned low half. */
module SequenceNumbers {
  // The halves are ordered lexicographically.  Every other module works on the integer value of a
  // sequence number; this module justifies that.

  const LOW_BASE: int := 0x1_0000_0000
  const INT32_MAX: int := 0x7FFF_FFFF
  const UINT32_MAX: int := 0xFFFF_FFFF
  const MIN_VALUE: int := 1
  const MAX_VALUE: int := 0x7FFF_FFFF_FFFF_FFFF

  datatype Halves = Halves(high: int, low: int)

  /** What an ACE_INT32 and an ACE_UINT32 can hold. */
  predicate Representable(p: Halves) {
    -INT32_MAX - 1 <= p.high <= INT32_MAX && 0 <= p.low <= UINT32_MAX
  }

  function Value(p: Halves): int {
    LOW_BASE * p.high + p.low
  }

  /** SEQUENCENUMBER_UNKNOWN of the RTPS specification. */
  const UNKNOWN_HALVES := Halves(-1, 0)
  const UNKNOWN: int := Value(UNKNOWN_HALVES)

  predicate Less(p: Halves, q: Halves) {
    p.high < q.high || (p.high == q.high && p.low < q.low)
  }

  function Previous(p: Halves): Halves {
    if p.low == 1 && p.high == 0 then Halves(INT32_MAX, UINT32_MAX)
    else if p.low == 0 then Halves(p.high - 1, UINT32_MAX)
    else Halves(p.high, p.low - 1)
  }

  /** The integer successor with the wrap-around of operator++. */
  function NextValue(v: int): int {
    if v == MAX_VALUE then MIN_VALUE else v + 1
  }

  class SequenceNumber {
    var high: int
    var low: int

    ghost predicate Valid()
      reads this
    {
      Representable(Halves(high, low))
    }

    function GetValue(): int
      reads this
    {
      Value(Halves(high, low))
    }

    /** setValue(Value): anything below one becomes one. */
    method SetValue(value: int)
      requires value <= MAX_VALUE
      modifies this
      ensures Valid()
      ensures GetValue() == if value < MIN_VALUE then MIN_VALUE else value
    {
      var v := if value < MIN_VALUE then MIN_VALUE else value;
      high := v / LOW_BASE;
      low := v % LOW_BASE;
    }

    /** operator++: one more than before, except that the largest number wraps to one. */
    method Increment()
      requires Valid()
      modifies this
      ensures Valid()
      ensures GetValue() == NextValue(old(GetValue()))
      ensures 1 <= old(GetValue()) ==> Previous(Halves(high, low)) == old(Halves(high, low))
    {
      if low == UINT32_MAX {
        if high == INT32_MAX {
          high := 0;
          low := 1;
        } else {
          high := high + 1;
          low := 0;
        }
      } else {
        low := low + 1;
      }
    }
  }

  /** The comparison operators order sequence numbers exactly as their integer values,
      and distinct pairs have distinct values. */
  lemma {:induction false} OrderIsomorphism(p: Halves, q: Halves)
    requires Representable(p) && Representable(q)
    ensures Less(p, q) <==> Value(p) < Value(q)
    ensures p == q <==> Value(p) == Value(q)
  {
    if p.high < q.high {
      assert Value(p) <= LOW_BASE * p.high + UINT32_MAX < LOW_BASE * (p.high + 1) <= Value(q);
    } else if q.high < p.high {
      assert Value(q) <= LOW_BASE * q.high + UINT32_MAX < LOW_BASE * (q.high + 1) <= Value(p);
    }
  }

  /** previous() is the integer predecessor, except that one wraps to the largest number. */
  lemma {:induction false} PreviousIsPredecessor(p: Halves)
    requires Representable(p) && 1 <= Value(p)
    ensures Representable(Previous(p))
    ensures Value(Previous(p)) == if Value(p) == MIN_VALUE then MAX_VALUE else Value(p) - 1
    ensures NextValue(Value(Previous(p))) == Value(p)
  {
    OrderIsomorphism(p, Halves(0, 1));
  }
}
