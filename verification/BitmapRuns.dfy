/** How the bitmap insertion of DisjointSequence sees the range list while it works on it. */
module BitmapRuns {
  import opened SequenceNumbers
  import opened RangeLists
  import opened BitmapScans

  /** The local variables of the bitmap loop: cursor, open run, bit index, the Long being
      looked at, its bit, and the two flags. */
  datatype ScanState = ScanState(iter: nat, rangeStart: int, i: nat, x: Long, bit: nat, grew: bool, overread: bool)

  /** operator++ wraps at the largest number, so a range ending there is never merged with a
      stored range that also ends there; the final std::set::insert then meets an equal key. */
  predicate Jams(rs: seq<Range>, r: Range) {
    && r.hi == MAX_VALUE && rs != []
    && rs[|rs| - 1].hi == MAX_VALUE && rs[|rs| - 1].lo > r.lo && rs[|rs| - 1].lo > MIN_VALUE
  }

  /** The key of the second search: the number just before the range, never below zero. */
  function KeyBelow(r: Range): int {
    if r.lo - 1 > 0 then r.lo - 1 else 0
  }

  /** All ranges before the cursor end too early to touch a run starting at first. */
  predicate CursorFits(rs: seq<Range>, iter: nat, first: int) {
    iter <= |rs| && (iter == |rs| || forall i :: 0 <= i < iter ==> rs[i].hi + 1 < first)
  }

  /** A converted key: SequenceNumber's constructor raises 0 to 1. */
  function Key(previous: int): int {
    if previous < MIN_VALUE then MIN_VALUE else previous
  }

  /** How many ranges end at 0: the range [0, 0] that a heartbeat stores, or none.  No key reaches it. */
  function Zeros(rs: seq<Range>): nat {
    if rs != [] && rs[0].hi == 0 then 1 else 0
  }

  /** The ranges that end above 0. */
  function Above(rs: seq<Range>): seq<Range> {
    rs[Zeros(rs)..]
  }

  /** Canonical, except that [0, 0] may touch the range after it. */
  predicate Loose(rs: seq<Range>) {
    && Canonical(Above(rs)) && (Zeros(rs) == 1 ==> rs[0] == Range(0, 0))
    && (Above(rs) != [] ==> Above(rs)[0].hi >= 1 && (Zeros(rs) == 1 ==> Above(rs)[0].lo >= 1))
  }

  /** What a run inserted at iter leaves, whatever it was merged with. */
  ghost predicate RunInserted(rs: seq<Range>, r: Range, iter: nat, now: seq<Range>) {
    && Loose(now) && Zeros(now) == Zeros(rs)
    && Members(now) == Members(rs) + Span(r.lo, r.hi) && !(Span(r.lo, r.hi) <= Members(rs))
    && Zeros(now) <= iter < |now| && now[iter].lo <= r.lo && r.hi <= now[iter].hi
    && forall first :: first > r.lo ==> CursorFits(now, iter, first)
  }

  /** What the merge finds: the run reaches from iter up to stop, and joins the range there if it touches it. */
  predicate Merges(rs: seq<Range>, r: Range, iter: nat, stop: nat, right: nat, merged: Range)
    requires iter <= stop <= |rs| && iter < |rs|
  {
    && rs[iter].lo <= r.hi + 1 && !(rs[iter].lo <= r.lo && rs[iter].hi >= r.hi)
    && merged.lo == (if rs[iter].lo < r.lo then rs[iter].lo else r.lo)
    && (iter < stop ==> rs[stop - 1].hi <= r.hi)
    && (stop < |rs| ==> rs[stop].hi > r.hi)
    && var joins := stop < |rs| && rs[stop].lo <= r.hi + 1 && rs[stop].lo > r.lo;
    && right == (if joins then stop + 1 else stop)
    && merged.hi == (if joins then rs[stop].hi else r.hi)
  }

  /** In a canonical list of positive ends, the search for the number before r leads to k, where the merge begins. */
  predicate MergesAt(t: seq<Range>, r: Range, k: nat, stop: nat, right: nat, merged: Range) {
    && Canonical(t) && 1 <= r.lo <= r.hi < MAX_VALUE && k <= stop <= |t| && k < |t| && t[0].hi >= 1
    && k == LowerBound(t, r.lo - 1) && Merges(t, r, k, stop, right, merged)
  }

  ghost predicate TopMerged(t: seq<Range>, r: Range, k: nat, merged: Range, now: seq<Range>) {
    && Canonical(now) && Members(now) == Members(t) + Span(r.lo, r.hi) && !(Span(r.lo, r.hi) <= Members(t))
    && k < |now| && now[k] == merged && now[0].hi >= 1
  }

  /** t with the ranges from k up to right replaced by merged. */
  function Replaced(t: seq<Range>, k: nat, right: nat, merged: Range): seq<Range>
    requires k <= right <= |t|
  {
    SetInsert(t[..k] + t[right..], merged)
  }

  /** now is top under the [0, 0] of rs, if it has one. */
  predicate Stacked(rs: seq<Range>, top: seq<Range>, now: seq<Range>) {
    now == rs[..Zeros(rs)] + top
  }

  /** The first z ranges end before x. */
  predicate LeadEnds(rs: seq<Range>, z: nat, x: int) {
    z <= |rs| && forall l :: 0 <= l < z ==> rs[l].hi < x
  }

  ghost predicate ReachesBeyond(rs: seq<Range>, x: int) {
    exists k :: 0 <= k < |rs| && rs[k].hi >= x
  }

  /** Nothing is lost, and nothing is new from x on. */
  ghost predicate Extends(now: iset<int>, original: iset<int>, x: int) {
    original <= now && forall y :: y in now && y >= x ==> y in original
  }

  /** What is left of the scan completes now to what the whole scan gives. */
  ghost predicate Owed(now: iset<int>, original: seq<Range>, value: int, numBits: nat, longs: seq<Long>, start: int, i: nat)
    requires 1 <= value && numBits <= 32 * |longs|
  {
    now + Scan(original, value, numBits, Bits(longs), start, i)
    == Members(original) + Scan(original, value, numBits, Bits(longs), 0, 0)
  }

  /** The list rs, reached from original in state t, and what is left of the scan give what the whole scan gives. */
  ghost predicate Progressing(rs: seq<Range>, original: seq<Range>, value: int, numBits: nat, longs: seq<Long>, t: ScanState)
    requires 1 <= value && numBits <= 32 * |longs|
  {
    && Reached(rs, original, value, numBits, t)
    && Owed(Members(rs), original, value, numBits, longs, t.rangeStart, t.i)
    && Placed(original, value, numBits, longs, t)
  }

  /** The list has grown from original, the cursor fits, and nothing is new from the bit of t on. */
  ghost predicate Reached(rs: seq<Range>, original: seq<Range>, value: int, numBits: nat, t: ScanState) {
    && Loose(rs) && Canonical(original) && Zeros(rs) == Zeros(original)
    && (t.rangeStart == 0 || (0 < t.rangeStart < value + t.i && t.rangeStart < value + numBits))
    && CursorFits(rs, t.iter, if t.rangeStart == 0 then value + t.i else t.rangeStart)
    && Extends(Members(rs), Members(original), value + t.i)
    && (t.grew <==> Members(rs) != Members(original))
  }

  /** The Long and the bit that t looks at, and whether a read past the array is behind it or still to come. */
  ghost predicate Placed(original: seq<Range>, value: int, numBits: nat, longs: seq<Long>, t: ScanState)
    requires 1 <= value && numBits <= 32 * |longs|
  {
    && (t.overread || Overreads(original, value, numBits, Bits(longs), t.rangeStart, t.i)
        <==> Overreads(original, value, numBits, Bits(longs), 0, 0))
    && (t.bit == t.i % 32 || (t.bit == 32 && t.i % 32 == 0))
    && (t.i < numBits && t.bit != 0 && t.bit != 32 ==> t.x == longs[t.i / 32])
  }

  /** A run is open and the bit ends it. */
  ghost predicate AtRunEnd(numBits: nat, longs: seq<Long>, s: ScanState)
    requires numBits <= 32 * |longs|
  {
    s.i < numBits && s.rangeStart != 0 && !Bits(longs)[s.i] && !(s.i % 32 == 0 && ZeroLong(Bits(longs), s.i))
  }

  /** The run added to was gives rs, and what is left to be scanned starts after last. */
  ghost predicate RunClosed(was: seq<Range>, rs: seq<Range>, original: seq<Range>, value: int, numBits: nat, longs: seq<Long>,
                            s: ScanState, added: bool, iter: nat, last: int)
    requires 1 <= value && numBits <= 32 * |longs|
  {
    && Loose(rs) && Zeros(rs) == Zeros(was) && Members(rs) == Members(was) + Span(s.rangeStart, value + s.i - 1)
    && (added <==> Members(rs) != Members(was)) && CursorFits(rs, iter, value + s.i + 1)
    && last == Past(original, value + s.i) - 1
    && last + 1 - value >= 0 && Owed(Members(rs), original, value, numBits, longs, 0, last + 1 - value)
  }

  /** [0, 0] is stored and the bitmap marks the number 1. */
  predicate Abuts(rs: seq<Range>, value: int, n: nat, bits: seq<bool>)
    requires n <= |bits|
  {
    rs != [] && rs[0].hi == 0 && value == 1 && n > 0 && bits[0]
  }

  /** The gaps between neighbouring ranges. */
  function Gap(rs: seq<Range>, i: nat): Range
    requires i + 1 < |rs|
  {
    Range(rs[i].hi + 1, rs[i + 1].lo - 1)
  }
}
