/** When the bitmap operations of DisjointSequence do what DisjointSequence.h promises. */
module BitmapLaws {
  import opened SequenceNumbers
  import opened RangeLists
  import opened BitmapScans
  import opened BitmapExports
  import opened BitmapRuns
  import opened DisjointSequences

  /** A bitmap is inserted exactly, whatever is stored, if and only if none of its all-zero
      Longs directly follows a Long whose last bit is set. */
  lemma {:induction false} ExactOnEverySetIffClean(val: int, n: nat, bits: seq<bool>)
    requires 1 <= val && n <= |bits|
    ensures (forall rs: seq<Range> :: Canonical(rs) ==> ExactFrom(rs, val, n, bits, 0, 0)) <==> Clean(n, bits, 0)
  {
    var empty: seq<Range> := [];
    SpillFreeIffClean(empty, val, n, bits, 0, 0);
    ScanExactIffNoSpill(empty, val, n, bits, 0, 0);
    assert Canonical(empty);
    if Clean(n, bits, 0) {
      forall rs: seq<Range> | Canonical(rs) ensures ExactFrom(rs, val, n, bits, 0, 0) {
        CleanNeverSpills(rs, val, n, bits, 0, 0);
        ScanExactIffNoSpill(rs, val, n, bits, 0, 0);
      }
    }
  }

  /** The two Longs 0x00000001, 0x00000000 mark one number and insert thirty-three. */
  lemma {:induction false} ZeroLongSpills()
    ensures var longs: seq<Long> := [Filler(false)[31 := true], Filler(false)];
      && Marked(1, 64, Bits(longs), 0) == iset{32}
      && Scan([], 1, 64, Bits(longs), 0, 0) == Span(32, 64)
  {
    var longs: seq<Long> := [Filler(false)[31 := true], Filler(false)];
    var bits := Bits(longs);
    assert bits[31] && ZeroLong(bits, 32) by { ZeroWordIsZeroLong(longs, 1); }
    assert Marked(1, 64, bits, 0) == iset{32};
    ZeroBits([], 1, 64, bits, 0, 31);
    assert Scan([], 1, 64, bits, 0, 31) == Scan([], 1, 64, bits, 32, 32);
    assert Scan([], 1, 64, bits, 32, 32) == Scan([], 1, 64, bits, 32, 64) == Span(32, 64);
  }

  /** Bits that are not set, with no run open, add nothing. */
  lemma {:induction false} ZeroBits(rs: seq<Range>, val: int, n: nat, bits: seq<bool>, i: nat, j: nat)
    requires 1 <= val && i <= j < n <= |bits| && i / 32 == j / 32 && bits[j]
    requires forall k :: i <= k < j ==> !bits[k]
    ensures Scan(rs, val, n, bits, 0, i) == Scan(rs, val, n, bits, 0, j)
    decreases j - i
  {
    if i < j { ZeroBits(rs, val, n, bits, i + 1, j); }
  }

  /** Numbers 1 and 3 to 100 are stored; one Long from 2 on with only its first bit set.  Closing the run at
      number 3 joins it to 100, and the code goes on with a Long that the array does not have. */
  lemma {:induction false} OverreadExists()
    ensures var rs, longs: seq<Long> := [Range(1, 1), Range(3, 100)], [Filler(false)[0 := true]];
      Canonical(rs) && Overreads(rs, 2, 32, Bits(longs), 0, 0)
  {
    var rs, longs: seq<Long> := [Range(1, 1), Range(3, 100)], [Filler(false)[0 := true]];
    var bits := Bits(longs);
    assert bits[0] && !bits[1];
    LowerBoundIs(rs, 3, 1);
    assert Past(rs, 3) == 101;
    assert Overreads(rs, 2, 32, bits, 2, 1);
  }

  /** [0, 0] is stored and a bitmap marks the number 1: the list becomes [0, 0], [1, 1], which is not canonical. */
  method ZeroRangeAbuts() returns (s: DisjointSequence)
    ensures s.ranges == [Range(0, 0), Range(1, 1)] && !s.Valid()
  {
    s := new DisjointSequence();
    var _ := s.InsertRange(Range(0, 0));
    SingleRange(Range(0, 0), s.ranges);
    var longs: seq<Long> := [Filler(false)[0 := true]];
    assert Bits(longs)[0];
    var _, _ := s.InsertBitmap(1, 1, longs, Filler(false));
    OneBitScan([Range(0, 0)], Bits(longs));
    OnlyOneAbove(s.ranges);
  }

  lemma {:induction false} OnlyOneAbove(rs: seq<Range>)
    requires Loose(rs) && Zeros(rs) == 1 && Members(rs) == Members([Range(0, 0)]) + iset{1}
    ensures rs == [Range(0, 0), Range(1, 1)]
  {
    var zero := [Range(0, 0)];
    forall x ensures x in Members(Above(rs)) <==> x in iset{} + Span(1, 1) {
      AboveMembers(rs, x);
      assert Covers(zero, x) <==> Has(zero[0], x);
      assert x in Members(rs) <==> x in Members(zero) || x == 1;
      if x == 0 && Above(rs) != [] { FirstIsMember(Above(rs)); }
    }
    SingleRange(Range(1, 1), Above(rs));
  }

  lemma {:induction false} OneBitScan(rs: seq<Range>, bits: seq<bool>)
    requires |bits| >= 1 && bits[0]
    ensures Scan(rs, 1, 1, bits, 0, 0) == iset{1}
  {
    assert Scan(rs, 1, 1, bits, 0, 0) == Scan(rs, 1, 1, bits, 1, 1) == Span(1, 1);
  }

  /** Numbers 1, 3, 35 and 70: the Long of 35 is first touched by its own stretch, so bit 40
      keeps whatever the array held although number 42 is missing. */
  lemma {:induction false} StaleBitExists()
    ensures var rs := [Range(1, 1), Range(3, 3), Range(35, 35), Range(70, 70)];
      && Canonical(rs) && Stale(rs, false, 40) && !InStretch(rs, false, 40) && 40 < Stretch(rs, false, 3).hi < 96
      && Exported(rs, false, seq(96, _ => true), 40)
  {
    var rs := [Range(1, 1), Range(3, 3), Range(35, 35), Range(70, 70)];
    assert Stretch(rs, false, 1) == Range(1, 1);
    assert Stretch(rs, false, 2) == Range(33, 33);
    assert Stretch(rs, false, 3) == Range(68, 68);
    assert TailKept(rs, false, 2);
    StaleIsOutside(rs, false, 40);
  }

  /** to_bitmap is exact if and only if no bit it leaves stale was set beforehand. */
  lemma {:induction false} ExportExactIffNothingStale(rs: seq<Range>, invert: bool, was: seq<bool>, n: nat)
    requires Canonical(rs) && n <= |was|
    ensures (forall k :: 0 <= k < n ==> (Exported(rs, invert, was, k) <==> InStretch(rs, invert, k)))
      <==> (forall k :: 0 <= k < n && Stale(rs, invert, k) ==> !was[k])
  {
    forall k | 0 <= k < n && Stale(rs, invert, k) ensures !InStretch(rs, invert, k) { StaleIsOutside(rs, invert, k); }
    if forall k :: 0 <= k < n ==> (Exported(rs, invert, was, k) <==> InStretch(rs, invert, k)) {
      forall k | 0 <= k < n && Stale(rs, invert, k) ensures !was[k] {
        assert Exported(rs, invert, was, k) <==> InStretch(rs, invert, k);
      }
    }
  }

  /** Some range ends on the last bit of a Long and the next one starts beyond the Long after it. */
  ghost predicate SwallowsGap(rs: seq<Range>) {
    exists m {:trigger Stretch(rs, false, m)} :: 1 <= m < |rs| - 1
      && Stretch(rs, false, m).hi % 32 == 31
      && Stretch(rs, false, m + 1).lo / 32 > Stretch(rs, false, m).hi / 32 + 1
  }

  ghost predicate Exports(rs: seq<Range>, n: nat, bits: seq<bool>) {
    && |rs| >= 2 && n == Stretch(rs, false, |rs| - 1).hi + 1 <= |bits|
    && forall k :: 0 <= k < n ==> (bits[k] <==> InStretch(rs, false, k))
  }

  lemma {:induction false} ExportedMarks(rs: seq<Range>, n: nat, bits: seq<bool>)
    requires Canonical(rs) && Exports(rs, n, bits)
    ensures Members([rs[0]]) + Marked(Base(rs), n, bits, 0) == Members(rs)
  {
    var first := [rs[0]];
    forall x ensures x in Members(first) + Marked(Base(rs), n, bits, 0) <==> x in Members(rs) {
      assert Has(first[0], x) <==> Has(rs[0], x);
      if x >= Base(rs) {
        StretchMeaning(rs, false, x - Base(rs));
        if x >= Base(rs) + n { NothingAbove(rs, false, x - Base(rs)); }
      } else if i :| 0 <= i < |rs| && Has(rs[i], x) {
        if i > 0 { Separated(rs, 0, i); }
      }
    }
  }

  lemma {:induction false} SwallowedIsUnclean(rs: seq<Range>, n: nat, bits: seq<bool>)
    requires Canonical(rs) && Exports(rs, n, bits) && SwallowsGap(rs)
    ensures !Clean(n, bits, 0)
  {
    var m :| 1 <= m < |rs| - 1 && Stretch(rs, false, m).hi % 32 == 31
      && Stretch(rs, false, m + 1).lo / 32 > Stretch(rs, false, m).hi / 32 + 1;
    var j := ZeroLongAfter(rs, n, bits, m, Stretch(rs, false, m).hi, Stretch(rs, false, m + 1).lo);
  }

  /** A stretch that ends with its Long and is followed by a gap of a whole Long. */
  lemma {:induction false} ZeroLongAfter(rs: seq<Range>, n: nat, bits: seq<bool>, m: nat, hi: int, next: int) returns (j: nat)
    requires Canonical(rs) && Exports(rs, n, bits) && 1 <= m < |rs| - 1
    requires hi == Stretch(rs, false, m).hi && next == Stretch(rs, false, m + 1).lo && hi % 32 == 31 && next / 32 > hi / 32 + 1
    ensures 0 < j < n && j % 32 == 0 && ZeroLong(bits, j) && bits[j - 1]
  {
    StretchesAscend(rs, false, m, m);
    StretchesAscend(rs, false, m + 1, |rs| - 1);
    StretchesAscend(rs, false, m + 1, m + 1);
    j := hi + 1;
    assert Has(Stretch(rs, false, m), j - 1);
    forall k | j <= k < j + 32 ensures k < n && !bits[k] { GapIsOutside(rs, false, m + 1, k); }
  }

  lemma {:induction false} UncleanIsSwallowed(rs: seq<Range>, n: nat, bits: seq<bool>)
    requires Canonical(rs) && Exports(rs, n, bits) && !Clean(n, bits, 0)
    ensures SwallowsGap(rs)
  {
    var j :| 0 < j < n && j % 32 == 0 && ZeroLong(bits, j) && bits[j - 1];
    assert InStretch(rs, false, j - 1);
    var m :| 1 <= m < |rs| && Has(Stretch(rs, false, m), j - 1);
    NextStretchIsFar(rs, n, bits, j, m);
  }

  /** A stretch that reaches bit j - 1 and is followed by an all-zero Long at j. */
  lemma {:induction false} NextStretchIsFar(rs: seq<Range>, n: nat, bits: seq<bool>, j: nat, m: nat)
    requires Canonical(rs) && Exports(rs, n, bits)
    requires 0 < j < n && ZeroLong(bits, j)
    requires 1 <= m < |rs| && Has(Stretch(rs, false, m), j - 1)
    ensures m < |rs| - 1 && Stretch(rs, false, m).hi == j - 1 && Stretch(rs, false, m + 1).lo >= j + 32
  {
    assert !bits[j];
    assert !Has(Stretch(rs, false, m), j);
    StretchesAscend(rs, false, m, |rs| - 1);
    if m < |rs| - 1 {
      var next := Stretch(rs, false, m + 1);
      StretchesAscend(rs, false, m, m + 1);
      StretchesAscend(rs, false, m + 1, m + 1);
      StretchesAscend(rs, false, m + 1, |rs| - 1);
      StretchesAscend(rs, false, |rs| - 1, |rs| - 1);
      assert Has(next, next.lo);
      assert bits[next.lo];
    }
  }

  /** Inserting an exact export into the set of the first range gives the original set back
      if and only if no gap is swallowed. */
  lemma {:induction false} RoundTripIffNoGapSwallowed(rs: seq<Range>, n: nat, bits: seq<bool>)
    requires Canonical(rs) && Exports(rs, n, bits)
    ensures Members([rs[0]]) + Scan([rs[0]], Base(rs), n, bits, 0, 0) == Members(rs) <==> !SwallowsGap(rs)
  {
    var first := [rs[0]];
    assert Within(rs[0]);
    assert Canonical(first);
    forall x | x >= Base(rs) ensures !Covers(first, x) { assert !Has(first[0], x); }
    SpillFreeIffClean(first, Base(rs), n, bits, 0, 0);
    ScanExactIffNoSpill(first, Base(rs), n, bits, 0, 0);
    ExportedMarks(rs, n, bits);
    assert Members(first) + OpenRun(Base(rs), n, 0, 0) == Members(first);
    if SwallowsGap(rs) { SwallowedIsUnclean(rs, n, bits); }
    if !Clean(n, bits, 0) { UncleanIsSwallowed(rs, n, bits); }
  }

  lemma {:induction false} SingleRange(r: Range, rs: seq<Range>)
    requires Within(r) && Canonical(rs) && Members(rs) == iset{} + Span(r.lo, r.hi)
    ensures rs == [r]
  {
    assert forall x :: Has([r][0], x) <==> Has(Range(r.lo, r.hi), x);
    assert Canonical([r]);
    CanonicalFormIsUnique(rs, [r]);
  }

  /** to_bitmap into a zeroed array, then insert into a set holding only the first range. */
  method RoundTrip(source: DisjointSequence, length: nat) returns (rebuilt: DisjointSequence, complete: bool)
    requires source.Valid() && |source.ranges| >= 2
    requires 0 < 32 * length < 0x8000_0000
    requires source.ranges[|source.ranges| - 1].hi < MAX_VALUE
    requires source.ranges[|source.ranges| - 1].hi - source.ranges[0].hi <= ULONG
    ensures rebuilt.Valid()
    ensures complete <==> Stretch(source.ranges, false, |source.ranges| - 1).hi < 32 * length
    ensures complete ==> (rebuilt.ranges == source.ranges <==> !SwallowsGap(source.ranges))
  {
    var rs := source.ranges;
    assert Within(rs[0]);
    Separated(rs, 0, |rs| - 1);
    var bitmap := new Long[length](_ => Filler(false));
    var numBits;
    complete, numBits := source.ToBitmap(bitmap, false);
    rebuilt := new DisjointSequence();
    var _ := rebuilt.InsertRange(rs[0]);
    SingleRange(rs[0], rebuilt.ranges);
    if complete {
      assert Exports(rs, numBits, Bits(bitmap[..]));
      Rebuild(rebuilt, rs, numBits, bitmap[..]);
    }
  }

  /** Numbers 1, 33 and 98: the stretch of 33 ends the first Long of the bitmap, two zero Longs follow, and the set that is
      rebuilt is another one. */
  method RoundTripLosesGap() returns (source: DisjointSequence, rebuilt: DisjointSequence)
    ensures source.ranges == [Range(1, 1), Range(33, 33), Range(98, 98)] && source.Valid()
    ensures rebuilt.Valid() && rebuilt.ranges != source.ranges
  {
    var rs := [Range(1, 1), Range(33, 33), Range(98, 98)];
    source := new DisjointSequence();
    var _ := source.InsertRange(rs[0]);
    var _ := source.InsertRange(rs[1]);
    var _ := source.InsertRange(rs[2]);
    ThreeRanges(rs, source.ranges);
    var complete;
    rebuilt, complete := RoundTrip(source, 4);
    assert Stretch(rs, false, 1) == Range(31, 31) && Stretch(rs, false, 2) == Range(96, 96);
    assert complete && SwallowsGap(rs);
  }

  lemma {:induction false} ThreeRanges(rs: seq<Range>, now: seq<Range>)
    requires Canonical(rs) && |rs| == 3 && Canonical(now)
    requires Members(now) == iset{} + Span(rs[0].lo, rs[0].hi) + Span(rs[1].lo, rs[1].hi) + Span(rs[2].lo, rs[2].hi)
    ensures now == rs
  {
    forall x ensures x in Members(rs) <==> x in Members(now) {
      assert Covers(rs, x) <==> Has(rs[0], x) || Has(rs[1], x) || Has(rs[2], x);
    }
    CanonicalFormIsUnique(now, rs);
  }

  /** The number after the first range is missing. */
  lemma {:induction false} FirstBitIsClear(rs: seq<Range>, n: nat, bits: seq<bool>)
    requires Canonical(rs) && Exports(rs, n, bits)
    ensures n > 0 && !bits[0]
  {
    StretchesAscend(rs, false, |rs| - 1, |rs| - 1);
    FirstIsMember(rs);
    StretchMeaning(rs, false, 0);
  }

  /** A bitmap that exports rs, inserted into the first range of rs. */
  method Rebuild(first: DisjointSequence, rs: seq<Range>, numBits: nat, bitmap: seq<Long>)
    requires first.Valid() && Canonical(rs) && |rs| >= 2 && first.ranges == [rs[0]]
    requires numBits <= 32 * |bitmap| < 0x8000_0000 && rs[|rs| - 1].hi < MAX_VALUE
    requires Exports(rs, numBits, Bits(bitmap))
    modifies first
    ensures first.Valid() && (first.ranges == rs <==> !SwallowsGap(rs))
  {
    RoundTripIffNoGapSwallowed(rs, numBits, Bits(bitmap));
    assert !Bits(bitmap)[0] by { FirstBitIsClear(rs, numBits, Bits(bitmap)); }
    var _, _ := first.InsertBitmap(Base(rs), numBits, bitmap, Filler(false));
    if !SwallowsGap(rs) { CanonicalFormIsUnique(first.ranges, rs); }
  }
}
