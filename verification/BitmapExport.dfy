/** DisjointSequence::to_bitmap and fill_bitmap_range: writing the ranges above the cumulative
    ack into an array of Longs. */
module BitmapExports {
  import opened RangeLists
  import opened BitmapScans

  /** Bit positions count from the number after the first range. */
  function Base(rs: seq<Range>): int
    requires rs != []
  {
    rs[0].hi + 1
  }

  /** The m-th stretch of 1 bits: range m itself, or the gap just before it when inverting. */
  function Stretch(rs: seq<Range>, invert: bool, m: nat): Range
    requires 1 <= m < |rs|
  {
    if invert then Range(rs[m - 1].hi + 1 - Base(rs), rs[m].lo - 1 - Base(rs))
    else Range(rs[m].lo - Base(rs), rs[m].hi - Base(rs))
  }

  /** Bit k belongs in the bitmap. */
  ghost predicate InStretch(rs: seq<Range>, invert: bool, k: int) {
    exists m :: 1 <= m < |rs| && Has(Stretch(rs, invert, m), k)
  }

  lemma {:induction false} StretchesAscend(rs: seq<Range>, invert: bool, l: nat, m: nat)
    requires Canonical(rs) && 1 <= l <= m < |rs|
    ensures 0 <= Stretch(rs, invert, l).lo <= Stretch(rs, invert, l).hi
    ensures l < m ==> Stretch(rs, invert, l).hi < Stretch(rs, invert, m).lo
  {
    assert Within(rs[l]) && Within(rs[m]);
    Separated(rs, l - 1, l);
    if l > 1 { Separated(rs, 0, l - 1); assert Within(rs[l - 1]); }
    if l < m { Separated(rs, l, m); Separated(rs, l - 1, m); Separated(rs, m - 1, m); }
    if l < m - 1 { Separated(rs, l, m - 1); assert Within(rs[m - 1]); }
  }

  /** Without inversion the bits are the stored numbers above the cumulative ack; with
      inversion, the missing numbers below the highest one. */
  lemma {:induction false} StretchMeaning(rs: seq<Range>, invert: bool, k: int)
    requires Canonical(rs) && |rs| >= 2 && 0 <= k
    ensures InStretch(rs, invert, k) <==>
      if invert then Base(rs) + k < rs[|rs| - 1].hi && !Covers(rs, Base(rs) + k) else Covers(rs, Base(rs) + k)
  {
    var x := Base(rs) + k;
    if !invert {
      if m :| 1 <= m < |rs| && Has(Stretch(rs, false, m), k) { assert Has(rs[m], x); }
      if Covers(rs, x) {
        var m :| 0 <= m < |rs| && Has(rs[m], x);
        assert Has(Stretch(rs, false, m), k);
      }
    } else {
      if m :| 1 <= m < |rs| && Has(Stretch(rs, true, m), k) {
        BetweenIsMissing(rs, m, x);
        if m < |rs| - 1 { Separated(rs, m, |rs| - 1); }
        assert Within(rs[m]) && Within(rs[|rs| - 1]);
      }
      if !Covers(rs, x) && x < rs[|rs| - 1].hi {
        var m := LowerBound(rs, x);
        assert m < |rs| && !Has(rs[m], x);
        assert m > 0;
        assert Has(Stretch(rs, true, m), k);
      }
    }
  }

  /** After stretch m, the rest of its last Long still holds what the array held before:
      nothing cleared it when the Long was first touched. */
  ghost predicate TailKept(rs: seq<Range>, invert: bool, m: nat)
    requires m < |rs|
  {
    m >= 2 &&
    var s, p := Stretch(rs, invert, m), Stretch(rs, invert, m - 1);
    s.lo / 32 == s.hi / 32 && (p.hi / 32 == s.lo / 32 ==> TailKept(rs, invert, m - 1))
  }

  /** Bit k is never written: it lies in such a tail and the next stretch starts in a later Long. */
  ghost predicate Stale(rs: seq<Range>, invert: bool, k: int) {
    exists m {:trigger TailKept(rs, invert, m)} :: 1 <= m < |rs| - 1 && TailKept(rs, invert, m)
      && Stretch(rs, invert, m).hi < k < Stretch(rs, invert, m + 1).lo
      && k / 32 == Stretch(rs, invert, m).hi / 32 < Stretch(rs, invert, m + 1).lo / 32
  }

  lemma {:induction false} StaleIsOutside(rs: seq<Range>, invert: bool, k: int)
    requires Canonical(rs) && Stale(rs, invert, k)
    ensures !InStretch(rs, invert, k)
  {
    var m :| 1 <= m < |rs| - 1 && TailKept(rs, invert, m)
      && Stretch(rs, invert, m).hi < k < Stretch(rs, invert, m + 1).lo;
    if l :| 1 <= l < |rs| && Has(Stretch(rs, invert, l), k) {
      StretchesAscend(rs, invert, l, l);
      if l <= m { StretchesAscend(rs, invert, l, m); StretchesAscend(rs, invert, m, m); }
      else { StretchesAscend(rs, invert, m + 1, l); }
    }
  }

  /** What fill_bitmap_range leaves at bit k, given what was there, wherever the stretch lies: the stretch
      is set.  Of the Long it starts in, the bits before it are cleared from the last one written on, or from
      the start of the Long if that one lies in another; the bits after it are kept unless nothing was written
      before.  The Long it ends in, if that is a later one, is overwritten.  Full Longs after the last one
      written are cleared up to the stretch, and the rest is left alone. */
  ghost function Filled(was: seq<bool>, numBits: nat, low: nat, high: nat, k: nat): bool
    requires k < |was|
  {
    if low <= k <= high then true
    else if k / 32 == low / 32 then
      numBits > 0 && was[k] && (k < low ==> k % 32 < BitLast(numBits, low / 32))
    else if k / 32 < low / 32 then k / 32 < (numBits + 31) / 32 && was[k]
    else k / 32 > high / 32 && was[k]
  }

  /** A stretch above everything written before: the bits between are cleared, except that the unwritten
      tail of an earlier Long is left alone, and so is the tail of a Long that is touched for the first time
      by a stretch starting in it. */
  lemma {:induction false} FilledAbove(was: seq<bool>, numBits: nat, low: nat, high: nat, k: nat)
    requires numBits <= low <= high && k < |was|
    ensures Filled(was, numBits, low, high, k) ==
      if k < numBits then was[k]
      else if k < low then numBits > 0 && k / 32 == (numBits - 1) / 32 < low / 32 && was[k]
      else if k <= high then true
      else if k / 32 == high / 32 && (low / 32 < high / 32 || numBits == 0) then false
      else was[k]
  {
    if k < low && k / 32 < low / 32 {
      LongsBelow(numBits, k);
    }
  }

  /** A stretch that starts below the bits written before: it is set, and what lies outside it stays, except after its end
      in a Long that it runs into, and before its start in its own Long when the bits written before end in a later one. */
  lemma {:induction false} FilledOver(was: seq<bool>, numBits: nat, low: nat, high: nat, k: nat)
    requires low < numBits && low <= high && k < |was|
    ensures Filled(was, numBits, low, high, k) ==
      if low <= k <= high then true
      else if low / 32 < k / 32 == high / 32 then false
      else if low / 32 == k / 32 < (numBits - 1) / 32 && k < low then false
      else was[k]
  {
    LongsBelow(numBits, k);
  }

  lemma {:induction false} LongsBelow(numBits: nat, k: nat)
    ensures k / 32 < (numBits + 31) / 32 <==> numBits > 0 && k / 32 <= (numBits - 1) / 32
  {
  }

  /** Lines 263-265. */
  method ClearBits(x: Long, from: nat, to: nat) returns (y: Long)
    requires from <= 32 && to <= 32
    ensures forall b :: 0 <= b < 32 ==> y[b] == (x[b] && !(from <= b < to))
  {
    y := x;
    var m := from;
    while m < to
      invariant from <= m && (m <= to || m == from)
      invariant forall b :: 0 <= b < 32 ==> y[b] == (x[b] && !(from <= b < m))
    {
      y := y[m := false];
      m := m + 1;
    }
  }

  /** Lines 271-273 and 285-287. */
  method SetBits(x: Long, from: nat, last: nat) returns (y: Long)
    requires from <= 31 && last <= 31
    ensures forall b :: 0 <= b < 32 ==> y[b] == (x[b] || from <= b <= last)
  {
    y := x;
    var m := from;
    while m <= last
      invariant from <= m && (m <= last + 1 || m == from)
      invariant forall b :: 0 <= b < 32 ==> y[b] == (x[b] || from <= b < m)
    {
      y := y[m := true];
      m := m + 1;
    }
  }

  /** Bit b of the Long at idx_low after lines 258-274. */
  ghost predicate FirstLongBit(was: Long, numBits: nat, low: nat, high: nat, b: nat)
    requires b < 32
  {
    || (low % 32 <= b && (low / 32 < high / 32 || b <= high % 32))
    || (numBits > 0 && was[b] && !(BitLast(numBits, low / 32) <= b < low % 32))
  }

  function BitLast(numBits: nat, first: nat): nat
    requires numBits > 0
  {
    if (numBits - 1) / 32 == first then (numBits - 1) % 32 + 1 else 0
  }

  /** The Longs fill_bitmap_range leaves, Long by Long. */
  ghost predicate LongsFilled(was: seq<Long>, now: seq<Long>, numBits: nat, low: nat, high: nat)
    requires low <= high < 32 * |was| && |now| == |was|
  {
    var first, last := low / 32, high / 32;
    && (forall w :: 0 <= w < |was| && ((w < first && w < (numBits + 31) / 32) || w > last) ==> now[w] == was[w])
    && (forall w :: (numBits + 31) / 32 <= w < first ==> now[w] == Filler(false))
    && (forall b :: 0 <= b < 32 ==> now[first][b] == FirstLongBit(was[first], numBits, low, high, b))
    && (forall w :: first < w < last ==> now[w] == Filler(true))
    && (first < last ==> forall b :: 0 <= b < 32 ==> now[last][b] == (b <= high % 32))
  }

  lemma {:induction false} FilledBit(was: seq<Long>, now: seq<Long>, numBits: nat, low: nat, high: nat, k: nat)
    requires low <= high < 32 * |was| && |now| == |was| && k < 32 * |was|
    requires LongsFilled(was, now, numBits, low, high)
    ensures Bits(now)[k] == Filled(Bits(was), numBits, low, high, k)
  {
  }

  /** Lines 258-273: the Long at idx_low, preserving bits that may already be there. */
  method FirstLong(was: Long, numBits: nat, low: nat, high: nat) returns (x: Long)
    requires low <= high
    ensures forall b :: 0 <= b < 32 ==> x[b] == FirstLongBit(was, numBits, low, high, b)
  {
    if numBits > 0 {
      x := ClearBits(was, BitLast(numBits, low / 32), low % 32);
    } else {
      x := Filler(false);
    }
    x := SetBits(x, low % 32, if high / 32 == low / 32 then high % 32 else 31);
  }

  /** Lines 252-289: write the bits from low to high, both inside the array. */
  method FillLongs(low: nat, high: nat, bitmap: array<Long>, numBits: nat)
    requires low <= high < 32 * bitmap.Length
    modifies bitmap
    ensures LongsFilled(old(bitmap[..]), bitmap[..], numBits, low, high)
  {
    ghost var was := bitmap[..];
    var idxLow, idxHigh := low / 32, high / 32;
    var i := (numBits + 31) / 32;
    while i < idxLow
      invariant i >= (numBits + 31) / 32
      invariant forall w :: (numBits + 31) / 32 <= w < i && w < idxLow ==> bitmap[w] == Filler(false)
      invariant forall w :: 0 <= w < bitmap.Length && (w < (numBits + 31) / 32 || w >= idxLow) ==> bitmap[w] == was[w]
    {
      bitmap[i] := Filler(false);
      i := i + 1;
    }
    var x := FirstLong(bitmap[idxLow], numBits, low, high);
    bitmap[idxLow] := x;
    var elt := idxLow + 1;
    while elt < idxHigh
      invariant elt == idxLow + 1 || idxLow < elt <= idxHigh
      invariant forall w :: idxLow < w < elt && w < idxHigh ==> bitmap[w] == Filler(true)
      invariant bitmap[idxLow] == x
      invariant forall w :: (numBits + 31) / 32 <= w < idxLow ==> bitmap[w] == Filler(false)
      invariant forall w :: 0 <= w < idxLow && w < (numBits + 31) / 32 ==> bitmap[w] == was[w]
      invariant forall w :: 0 <= w < bitmap.Length && w >= elt ==> bitmap[w] == was[w]
    {
      bitmap[elt] := Filler(true);
      elt := elt + 1;
    }
    if idxHigh > idxLow {
      x := SetBits(Filler(false), 0, high % 32);
      bitmap[idxHigh] := x;
    }
  }

  /** fill_bitmap_range: set the bits from low to high, clamped to the array. */
  method FillBitmapRange(low: nat, high: nat, bitmap: array<Long>, numBits: nat) returns (complete: bool, newBits: nat)
    requires low <= high < ULONG && 32 * bitmap.Length <= ULONG
    modifies bitmap
    ensures low / 32 >= bitmap.Length ==> !complete && newBits == numBits && bitmap[..] == old(bitmap[..])
    ensures low / 32 < bitmap.Length ==>
      && (complete <==> high < 32 * bitmap.Length)
      && newBits == (if complete then high else 32 * bitmap.Length - 1) + 1
      && forall k :: 0 <= k < 32 * bitmap.Length ==>
           Bits(bitmap[..])[k] == Filled(Bits(old(bitmap[..])), numBits, low, newBits - 1, k)
    ensures low / 32 < bitmap.Length ==> forall k :: low <= k < newBits ==> Bits(bitmap[..])[k]
    ensures forall k :: 0 <= k < 32 * bitmap.Length && Bits(bitmap[..])[k] ==> Bits(old(bitmap[..]))[k] || low <= k < newBits
  {
    if low / 32 >= bitmap.Length {
      return false, numBits;
    }
    var clamped, top := false, high;
    if high / 32 >= bitmap.Length {
      top := bitmap.Length * 32 - 1;
      clamped := true;
    }
    ghost var was := bitmap[..];
    FillLongs(low, top, bitmap, numBits);
    forall k | 0 <= k < 32 * bitmap.Length ensures Bits(bitmap[..])[k] == Filled(Bits(was), numBits, low, top, k) {
      FilledBit(was, bitmap[..], numBits, low, top, k);
    }
    return !clamped, top + 1;
  }

  /** The bit to_bitmap should leave at k, and the one it leaves. */
  ghost predicate Exported(rs: seq<Range>, invert: bool, was: seq<bool>, k: nat)
    requires k < |was|
  {
    InStretch(rs, invert, k) || (Stale(rs, invert, k) && was[k])
  }

  /** What the array holds when the stretches up to number done have been written. */
  ghost predicate WrittenUpTo(rs: seq<Range>, invert: bool, done: nat, was: seq<bool>, now: seq<bool>, numBits: nat)
    requires done < |rs| && |now| == |was|
  {
    && numBits == (if done == 0 then 0 else Stretch(rs, invert, done).hi + 1) <= |was|
    && (forall k :: 0 <= k < numBits ==> now[k] == Exported(rs, invert, was, k))
    && (forall k :: numBits <= k < |was| ==>
          now[k] == (was[k] && (numBits > 0 && k / 32 == (numBits - 1) / 32 ==> TailKept(rs, invert, done))))
  }

  lemma {:induction false} GapIsOutside(rs: seq<Range>, invert: bool, m: nat, k: nat)
    requires Canonical(rs) && 1 <= m < |rs| && k < Stretch(rs, invert, m).lo
    requires m > 1 ==> Stretch(rs, invert, m - 1).hi < k
    ensures !InStretch(rs, invert, k)
  {
    if l :| 1 <= l < |rs| && Has(Stretch(rs, invert, l), k) {
      if l < m { StretchesAscend(rs, invert, l, m - 1); StretchesAscend(rs, invert, m - 1, m - 1); }
      else { StretchesAscend(rs, invert, m, l); }
    }
  }

  /** The gap before stretch m is left alone when the tail before it was kept and stretch m
      starts in a later Long. */
  ghost predicate StaleBefore(rs: seq<Range>, invert: bool, m: nat, k: int)
    requires 1 <= m < |rs|
  {
    && m > 1 && TailKept(rs, invert, m - 1)
    && k / 32 == Stretch(rs, invert, m - 1).hi / 32 < Stretch(rs, invert, m).lo / 32
  }

  lemma {:induction false} GapIsStale(rs: seq<Range>, invert: bool, m: nat, k: nat)
    requires Canonical(rs) && 1 <= m < |rs| && k < Stretch(rs, invert, m).lo
    requires m > 1 ==> Stretch(rs, invert, m - 1).hi < k
    ensures Stale(rs, invert, k) <==> StaleBefore(rs, invert, m, k)
  {
    if Stale(rs, invert, k) {
      var l :| 1 <= l < |rs| - 1 && TailKept(rs, invert, l)
        && Stretch(rs, invert, l).hi < k < Stretch(rs, invert, l + 1).lo
        && k / 32 == Stretch(rs, invert, l).hi / 32 < Stretch(rs, invert, l + 1).lo / 32;
      OnlyOneGap(rs, invert, l + 1, m, k);
    }
  }

  lemma {:induction false} OnlyOneGap(rs: seq<Range>, invert: bool, l: nat, m: nat, k: nat)
    requires Canonical(rs) && 1 <= l < |rs| && 1 <= m < |rs|
    requires k < Stretch(rs, invert, l).lo && k < Stretch(rs, invert, m).lo
    requires l > 1 ==> Stretch(rs, invert, l - 1).hi < k
    requires m > 1 ==> Stretch(rs, invert, m - 1).hi < k
    ensures l == m
  {
    if l < m { StretchesAscend(rs, invert, l, m - 1); StretchesAscend(rs, invert, m - 1, m - 1); }
    if m < l { StretchesAscend(rs, invert, m, l - 1); StretchesAscend(rs, invert, l - 1, l - 1); }
  }

  /** Writing stretch m, possibly clamped to end at top, gives every bit up to top its
      exported value. */
  lemma {:induction false} StretchWritten(rs: seq<Range>, invert: bool, m: nat, was: seq<bool>, mid: seq<bool>,
                                          now: seq<bool>, numBits: nat, top: nat, k: nat)
    requires Canonical(rs) && 1 <= m < |rs| && |mid| == |was| == |now|
    requires WrittenUpTo(rs, invert, m - 1, was, mid, numBits)
    requires var s := Stretch(rs, invert, m); s.lo <= top <= s.hi && top < |was|
    requires 0 <= Stretch(rs, invert, m).lo && k < |was| && now[k] == Filled(mid, numBits, Stretch(rs, invert, m).lo, top, k)
    ensures k <= top ==> now[k] == Exported(rs, invert, was, k)
    ensures k > top == Stretch(rs, invert, m).hi ==>
      now[k] == (was[k] && (k / 32 == top / 32 ==> TailKept(rs, invert, m)))
  {
    var s := Stretch(rs, invert, m);
    StretchesAscend(rs, invert, m, m);
    if m > 1 { StretchesAscend(rs, invert, m - 1, m); }
    FilledAbove(mid, numBits, s.lo, top, k);
    if numBits <= k < s.lo {
      GapIsOutside(rs, invert, m, k);
      GapIsStale(rs, invert, m, k);
    } else if s.lo <= k <= top {
      assert Has(s, k);
    }
  }

  /** One more stretch, written in full. */
  lemma {:induction false} NextStretchWritten(rs: seq<Range>, invert: bool, m: nat, was: seq<bool>, mid: seq<bool>,
                                              now: seq<bool>, numBits: nat)
    requires Canonical(rs) && 1 <= m < |rs| && |mid| == |was| == |now|
    requires WrittenUpTo(rs, invert, m - 1, was, mid, numBits)
    requires var s := Stretch(rs, invert, m);
      0 <= s.lo <= s.hi < |was| && forall k :: 0 <= k < |was| ==> now[k] == Filled(mid, numBits, s.lo, s.hi, k)
    ensures WrittenUpTo(rs, invert, m, was, now, Stretch(rs, invert, m).hi + 1)
  {
    var top := Stretch(rs, invert, m).hi;
    forall k | 0 <= k < |was|
      ensures k <= top ==> now[k] == Exported(rs, invert, was, k)
      ensures k > top ==> now[k] == (was[k] && (k / 32 == top / 32 ==> TailKept(rs, invert, m)))
    {
      StretchWritten(rs, invert, m, was, mid, now, numBits, top, k);
    }
  }
}
