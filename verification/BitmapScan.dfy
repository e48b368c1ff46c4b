/** RTPS SequenceNumberSet bitmaps (section 9.4.2.6 of RTPS 2.1) and what DisjointSequence::insert takes from them. */
module BitmapScans {
  import opened RangeLists

  // Bit k of the set is bit 31 - k % 32 of Long k / 32.  Scan says which numbers are inserted for a
  // bitmap; the lemmas say when those are the numbers the bitmap marks.

  const ULONG: int := 0x1_0000_0000

  /** A CORBA::Long as its 32 bits, most significant first: bit b is the one that the code
      tests, sets and clears through the mask 1 << (31 - b). */
  type Long = x: seq<bool> | |x| == 32 witness seq(32, _ => false)

  /** The Long whose bits are all b: zero, or 0xFFFFFFFF. */
  function Filler(b: bool): Long {
    seq(32, _ => b)
  }

  /** The bits of a bitmap in the order they are numbered. */
  function Bits(words: seq<Long>): (bits: seq<bool>)
    ensures |bits| == 32 * |words|
  {
    seq(32 * |words|, k requires 0 <= k < 32 * |words| => words[k / 32][k % 32])
  }

  /** How (Long, bit) positions advance. */
  lemma {:induction false} NextPosition(i: nat)
    ensures if i % 32 == 31 then (i + 1) % 32 == 0 else (i + 1) % 32 == i % 32 + 1 && (i + 1) / 32 == i / 32
    ensures (i + 32) % 32 == i % 32
  {
  }

  /** The Long that starts at bit i, i a multiple of 32, is all zero. */
  predicate ZeroLong(bits: seq<bool>, i: nat) {
    forall k :: i <= k < i + 32 && k < |bits| ==> !bits[k]
  }

  lemma {:induction false} ZeroWordIsZeroLong(words: seq<Long>, w: nat)
    requires w < |words|
    ensures words[w] == Filler(false) <==> ZeroLong(Bits(words), 32 * w)
  {
    var bits := Bits(words);
    forall b | 0 <= b < 32 ensures bits[32 * w + b] == words[w][b] {
      assert (32 * w + b) / 32 == w && (32 * w + b) % 32 == b;
    }
    if words[w] == Filler(false) {
      forall k | 32 * w <= k < 32 * w + 32 ensures !bits[k] { assert bits[32 * w + (k - 32 * w)] == words[w][k - 32 * w]; }
    }
    if ZeroLong(bits, 32 * w) {
      forall b | 0 <= b < 32 ensures !words[w][b] { assert !bits[32 * w + b]; }
    }
  }

  /** The numbers a bitmap stands for, from bit i on. */
  ghost predicate Marks(val: int, n: nat, bits: seq<bool>, i: nat, x: int)
    requires n <= |bits|
  {
    val + i <= x < val + n && bits[x - val]
  }

  ghost function Marked(val: int, n: nat, bits: seq<bool>, i: nat): iset<int>
    requires n <= |bits|
  {
    iset x | Marks(val, n, bits, i, x)
  }

  /** Where the skip-ahead resumes after a 0 bit for number x: past the stored range that
      holds x, or just past x. */
  function Past(rs: seq<Range>, x: int): (y: int)
    ensures y > x
  {
    var k := LowerBound(rs, x);
    if k < |rs| && rs[k].lo <= x then rs[k].hi + 1 else x + 1
  }

  /** What the loop inserts from bit i on; start is the first number of an open run, 0 if
      none.  An all-zero Long is skipped without closing an open run. */
  ghost function Scan(rs: seq<Range>, val: int, n: nat, bits: seq<bool>, start: int, i: nat): iset<int>
    requires 1 <= val && n <= |bits|
    decreases n - i
  {
    if i >= n then
      if start != 0 then Span(start, val + n - 1) else iset{}
    else if i % 32 == 0 && ZeroLong(bits, i) then
      Scan(rs, val, n, bits, start, i + 32)
    else if bits[i] then
      Scan(rs, val, n, bits, if start == 0 then val + i else start, i + 1)
    else if start == 0 then
      Scan(rs, val, n, bits, 0, i + 1)
    else
      Span(start, val + i - 1) + Scan(rs, val, n, bits, 0, Past(rs, val + i) - val)
  }

  /** The numbers of the Long that starts at bit i are all stored. */
  ghost predicate LongStored(rs: seq<Range>, val: int, n: nat, i: nat) {
    forall x :: val + i <= x < val + i + 32 && x < val + n ==> Covers(rs, x)
  }

  /** Every all-zero Long met with a run open describes only numbers already stored. */
  ghost predicate NoSpill(rs: seq<Range>, val: int, n: nat, bits: seq<bool>, start: int, i: nat)
    requires 1 <= val && n <= |bits|
    decreases n - i
  {
    i < n ==>
      if i % 32 == 0 && ZeroLong(bits, i) then
        (start != 0 ==> LongStored(rs, val, n, i)) && NoSpill(rs, val, n, bits, start, i + 32)
      else if bits[i] then
        NoSpill(rs, val, n, bits, if start == 0 then val + i else start, i + 1)
      else if start == 0 then
        NoSpill(rs, val, n, bits, 0, i + 1)
      else
        NoSpill(rs, val, n, bits, 0, Past(rs, val + i) - val)
  }

  /** Some closed run is followed by a skip that leaves the array: the number after the stored range it
      joins lies beyond the last bit. */
  ghost predicate Overreads(rs: seq<Range>, val: int, n: nat, bits: seq<bool>, start: int, i: nat)
    requires 1 <= val && n <= |bits|
    decreases n - i
  {
    i < n &&
      if i % 32 == 0 && ZeroLong(bits, i) then
        Overreads(rs, val, n, bits, start, i + 32)
      else if bits[i] then
        Overreads(rs, val, n, bits, if start == 0 then val + i else start, i + 1)
      else if start == 0 then
        Overreads(rs, val, n, bits, 0, i + 1)
      else
        Past(rs, val + i) - val > |bits| || Overreads(rs, val, n, bits, 0, Past(rs, val + i) - val)
  }

  /** Only a stored range that reaches beyond the last Long makes the scan read there. */
  lemma {:induction false} OverreadNeedsStored(rs: seq<Range>, val: int, n: nat, bits: seq<bool>, start: int, i: nat)
    requires 1 <= val && n <= |bits| && Overreads(rs, val, n, bits, start, i)
    ensures exists k :: 0 <= k < |rs| && rs[k].hi >= val + |bits|
    decreases n - i
  {
    if i % 32 == 0 && ZeroLong(bits, i) {
      OverreadNeedsStored(rs, val, n, bits, start, i + 32);
    } else if bits[i] {
      OverreadNeedsStored(rs, val, n, bits, if start == 0 then val + i else start, i + 1);
    } else if start == 0 {
      OverreadNeedsStored(rs, val, n, bits, 0, i + 1);
    } else if Past(rs, val + i) - val > |bits| {
      assert rs[LowerBound(rs, val + i)].hi >= val + |bits|;
    } else {
      OverreadNeedsStored(rs, val, n, bits, 0, Past(rs, val + i) - val);
    }
  }

  /** No all-zero Long directly follows a Long whose last bit is set. */
  ghost predicate Clean(n: nat, bits: seq<bool>, i: nat)
    requires n <= |bits|
  {
    forall j {:trigger ZeroLong(bits, j)} :: 0 < j && i <= j < n && j % 32 == 0 && ZeroLong(bits, j) ==> !bits[j - 1]
  }

  /** The part of an open run that lies before bit i. */
  ghost function OpenRun(val: int, n: nat, start: int, i: nat): iset<int> {
    if start == 0 then iset{} else Span(start, val + (if i < n then i else n) - 1)
  }

  ghost predicate ExactFrom(rs: seq<Range>, val: int, n: nat, bits: seq<bool>, start: int, i: nat)
    requires 1 <= val && n <= |bits|
  {
    Members(rs) + Scan(rs, val, n, bits, start, i)
    == Members(rs) + OpenRun(val, n, start, i) + Marked(val, n, bits, i)
  }

  /** The scan inserts exactly the marked numbers, up to numbers already stored, if and only
      if no all-zero Long spills. */
  lemma {:induction false} ScanExactIffNoSpill(rs: seq<Range>, val: int, n: nat, bits: seq<bool>, start: int, i: nat)
    requires Canonical(rs) && 1 <= val && n <= |bits|
    requires start == 0 || 0 < start < val + i
    ensures ExactFrom(rs, val, n, bits, start, i) <==> NoSpill(rs, val, n, bits, start, i)
    decreases n - i
  {
    if i >= n {
      ScanEnds(rs, val, n, bits, start, i);
    } else {
      var nextStart, next := NextStart(val, bits, start, i), NextBit(rs, val, bits, start, i);
      ScanExactIffNoSpill(rs, val, n, bits, nextStart, next);
      ExactStep(rs, val, n, bits, start, i, nextStart, next);
      NoSpillStep(rs, val, n, bits, start, i, nextStart, next);
    }
  }

  /** The open run and the bit of the next turn. */
  function NextStart(val: int, bits: seq<bool>, start: int, i: nat): int
    requires i < |bits|
  {
    if i % 32 == 0 && ZeroLong(bits, i) then start else if bits[i] then (if start == 0 then val + i else start) else 0
  }

  function NextBit(rs: seq<Range>, val: int, bits: seq<bool>, start: int, i: nat): (j: nat)
    requires i < |bits|
    ensures j > i
  {
    if i % 32 == 0 && ZeroLong(bits, i) then i + 32
    else if bits[i] || start == 0 then i + 1
    else Past(rs, val + i) - val
  }

  /** The Long at bit i is not skipped with a run open, unless what it describes is stored. */
  ghost predicate Holds(rs: seq<Range>, val: int, n: nat, bits: seq<bool>, start: int, i: nat) {
    i % 32 == 0 && ZeroLong(bits, i) && start != 0 ==> LongStored(rs, val, n, i)
  }

  lemma {:induction false} NoSpillStep(rs: seq<Range>, val: int, n: nat, bits: seq<bool>, start: int, i: nat,
                                       nextStart: int, next: nat)
    requires 1 <= val && i < n <= |bits|
    requires nextStart == NextStart(val, bits, start, i) && next == NextBit(rs, val, bits, start, i)
    ensures NoSpill(rs, val, n, bits, start, i) <==> Holds(rs, val, n, bits, start, i) && NoSpill(rs, val, n, bits, nextStart, next)
  {
  }

  lemma {:induction false} ExactStep(rs: seq<Range>, val: int, n: nat, bits: seq<bool>, start: int, i: nat,
                                     nextStart: int, next: nat)
    requires Canonical(rs) && 1 <= val && i < n <= |bits|
    requires start == 0 || 0 < start < val + i
    requires nextStart == NextStart(val, bits, start, i) && next == NextBit(rs, val, bits, start, i)
    ensures ExactFrom(rs, val, n, bits, start, i) <==>
      Holds(rs, val, n, bits, start, i) && ExactFrom(rs, val, n, bits, nextStart, next)
  {
    if i % 32 == 0 && ZeroLong(bits, i) {
      ZeroLongStep(rs, val, n, bits, start, i);
    } else if bits[i] {
      OneBitStep(rs, val, n, bits, start, i);
    } else if start == 0 {
      ZeroBitStep(rs, val, n, bits, i);
    } else {
      CloseRunStep(rs, val, n, bits, start, i);
    }
  }

  lemma {:induction false} ScanEnds(rs: seq<Range>, val: int, n: nat, bits: seq<bool>, start: int, i: nat)
    requires 1 <= val && n <= |bits| && i >= n
    ensures ExactFrom(rs, val, n, bits, start, i) && NoSpill(rs, val, n, bits, start, i)
  {
    assert Marked(val, n, bits, i) == iset{};
  }

  lemma {:induction false} OneBitStep(rs: seq<Range>, val: int, n: nat, bits: seq<bool>, start: int, i: nat)
    requires 1 <= val && i < n <= |bits| && bits[i]
    requires start == 0 || 0 < start < val + i
    ensures var s := if start == 0 then val + i else start;
      ExactFrom(rs, val, n, bits, start, i) <==> ExactFrom(rs, val, n, bits, s, i + 1)
  {
    var s := if start == 0 then val + i else start;
    assert OpenRun(val, n, start, i) + Marked(val, n, bits, i) == OpenRun(val, n, s, i + 1) + Marked(val, n, bits, i + 1);
    assert forall a: iset<int>, b: iset<int> {:trigger Members(rs) + a + b} :: Members(rs) + a + b == Members(rs) + (a + b);
  }

  lemma {:induction false} ZeroBitStep(rs: seq<Range>, val: int, n: nat, bits: seq<bool>, i: nat)
    requires 1 <= val && i < n <= |bits| && !bits[i] && !(i % 32 == 0 && ZeroLong(bits, i))
    ensures ExactFrom(rs, val, n, bits, 0, i) <==> ExactFrom(rs, val, n, bits, 0, i + 1)
  {
    assert Marked(val, n, bits, i) == Marked(val, n, bits, i + 1);
  }

  /** The scan never looks back, so all it adds lies in the open run or beyond bit i. */
  lemma {:induction false} ScanBounds(rs: seq<Range>, val: int, n: nat, bits: seq<bool>, start: int, i: nat)
    requires 1 <= val && n <= |bits|
    requires start == 0 || 0 < start < val + i
    ensures forall x :: x in Scan(rs, val, n, bits, start, i) ==>
      x < val + n && (if start == 0 then val + i <= x else start <= x)
    ensures OpenRun(val, n, start, i) <= Scan(rs, val, n, bits, start, i)
    decreases n - i
  {
    if i >= n {
    } else if i % 32 == 0 && ZeroLong(bits, i) {
      ScanBounds(rs, val, n, bits, start, i + 32);
    } else if bits[i] {
      ScanBounds(rs, val, n, bits, if start == 0 then val + i else start, i + 1);
    } else if start == 0 {
      ScanBounds(rs, val, n, bits, 0, i + 1);
    } else {
      ScanBounds(rs, val, n, bits, 0, Past(rs, val + i) - val);
    }
  }

  /** The scan takes the number 1 exactly when the bitmap starts there and its first bit is set. */
  lemma {:induction false} ScanTakesOne(rs: seq<Range>, val: int, n: nat, bits: seq<bool>)
    requires 1 <= val && n <= |bits|
    ensures 1 in Scan(rs, val, n, bits, 0, 0) <==> val == 1 && n > 0 && bits[0]
  {
    ScanBounds(rs, val, n, bits, 0, 0);
    if val == 1 && n > 0 {
      if bits[0] {
        ScanBounds(rs, 1, n, bits, 1, 1);
        assert 1 in OpenRun(1, n, 1, 1);
      } else {
        ScanBounds(rs, 1, n, bits, 0, 32);
        ScanBounds(rs, 1, n, bits, 0, 1);
      }
    }
  }

  lemma {:induction false} ZeroLongStep(rs: seq<Range>, val: int, n: nat, bits: seq<bool>, start: int, i: nat)
    requires 1 <= val && i < n <= |bits| && i % 32 == 0 && ZeroLong(bits, i)
    requires start == 0 || 0 < start < val + i
    ensures ExactFrom(rs, val, n, bits, start, i) <==>
      (start != 0 ==> LongStored(rs, val, n, i)) && ExactFrom(rs, val, n, bits, start, i + 32)
  {
    assert Marked(val, n, bits, i) == Marked(val, n, bits, i + 32);
    if start != 0 {
      ScanBounds(rs, val, n, bits, start, i + 32);
      var grown := OpenRun(val, n, start, i + 32);
      if LongStored(rs, val, n, i) {
        forall x | x in grown ensures x in Members(rs) + OpenRun(val, n, start, i) {
        }
        assert Members(rs) + grown == Members(rs) + OpenRun(val, n, start, i);
      } else {
        var x :| val + i <= x < val + i + 32 && x < val + n && !Covers(rs, x);
        assert x in grown;
        assert x !in Marked(val, n, bits, i) && x !in OpenRun(val, n, start, i) && x !in Members(rs);
      }
    }
  }

  lemma {:induction false} CloseRunStep(rs: seq<Range>, val: int, n: nat, bits: seq<bool>, start: int, i: nat)
    requires Canonical(rs) && 1 <= val && i < n <= |bits| && !bits[i]
    requires !(i % 32 == 0 && ZeroLong(bits, i))
    requires 0 < start < val + i
    ensures ExactFrom(rs, val, n, bits, start, i) <==> ExactFrom(rs, val, n, bits, 0, Past(rs, val + i) - val)
  {
    var j := Past(rs, val + i) - val;
    var run, got := Span(start, val + i - 1), Scan(rs, val, n, bits, 0, j);
    ScanBounds(rs, val, n, bits, 0, j);
    SkippedIsStored(rs, val, n, bits, i);
    assert OpenRun(val, n, start, i) == run && OpenRun(val, n, 0, j) == iset{};
    assert Scan(rs, val, n, bits, start, i) == run + got;
    var here, there := Marked(val, n, bits, i), Marked(val, n, bits, j);
    CancelRun(Members(rs), run, got, here, there);
  }

  /** Set algebra of closing a run: the run is apart from everything later. */
  lemma {:induction false} CancelRun(stored: iset<int>, run: iset<int>, got: iset<int>, here: iset<int>, there: iset<int>)
    requires stored + here == stored + there
    requires run !! got && run !! there
    ensures stored + (run + got) == stored + run + here <==> stored + got == stored + iset{} + there
  {
    if stored + (run + got) == stored + run + here {
      forall x ensures x in stored + got <==> x in stored + there {
        assert x in stored + here <==> x in stored + there;
        assert x in stored + (run + got) <==> x in stored + run + here;
      }
    }
    if stored + got == stored + iset{} + there {
      forall x ensures x in stored + (run + got) <==> x in stored + run + here {
        assert x in stored + here <==> x in stored + there;
        assert x in stored + got <==> x in stored + iset{} + there;
      }
    }
  }

  /** Bits jumped over by the skip-ahead describe stored numbers only. */
  lemma {:induction false} SkippedIsStored(rs: seq<Range>, val: int, n: nat, bits: seq<bool>, i: nat)
    requires i < n <= |bits| && !bits[i]
    ensures var j := Past(rs, val + i) - val;
      Members(rs) + Marked(val, n, bits, i) == Members(rs) + Marked(val, n, bits, j)
  {
    var j := Past(rs, val + i) - val;
    var k := LowerBound(rs, val + i);
    forall x | val + i < x < val + j ensures Covers(rs, x) { assert Has(rs[k], x); }
  }

  /** On a clean bitmap nothing spills, whatever is stored. */
  lemma {:induction false} CleanNeverSpills(rs: seq<Range>, val: int, n: nat, bits: seq<bool>, start: int, i: nat)
    requires 1 <= val && n <= |bits| && Clean(n, bits, i)
    requires start != 0 ==> 0 < i <= n && bits[i - 1]
    ensures NoSpill(rs, val, n, bits, start, i)
    decreases n - i
  {
    if i >= n {
    } else if i % 32 == 0 && ZeroLong(bits, i) {
      CleanNeverSpills(rs, val, n, bits, start, i + 32);
    } else if bits[i] {
      CleanNeverSpills(rs, val, n, bits, if start == 0 then val + i else start, i + 1);
    } else if start == 0 {
      CleanNeverSpills(rs, val, n, bits, 0, i + 1);
    } else {
      CleanNeverSpills(rs, val, n, bits, 0, Past(rs, val + i) - val);
    }
  }

  /** When nothing at or above the base is stored, only a clean bitmap is free of spills. */
  lemma {:induction false} SpillFreeIffClean(rs: seq<Range>, val: int, n: nat, bits: seq<bool>, start: int, i: nat)
    requires 1 <= val && n <= |bits|
    requires forall x :: x >= val ==> !Covers(rs, x)
    requires start != 0 <==> 0 < i <= n && bits[i - 1]
    ensures NoSpill(rs, val, n, bits, start, i) <==> Clean(n, bits, i)
    decreases n - i
  {
    if i >= n {
    } else if i % 32 == 0 && ZeroLong(bits, i) {
      if start != 0 {
        assert !Covers(rs, val + i);
      } else {
        SpillFreeIffClean(rs, val, n, bits, 0, i + 32);
        CleanStep(n, bits, i, i + 32);
      }
    } else {
      CleanStep(n, bits, i, i + 1);
      if !bits[i] && start != 0 {
        NothingToSkip(rs, val + i);
      }
      SpillFreeIffClean(rs, val, n, bits, if !bits[i] then 0 else if start == 0 then val + i else start, i + 1);
    }
  }

  lemma {:induction false} NothingToSkip(rs: seq<Range>, x: int)
    requires !Covers(rs, x)
    ensures Past(rs, x) == x + 1
  {
    var k := LowerBound(rs, x);
    assert k < |rs| ==> !Has(rs[k], x);
  }

  lemma {:induction false} CleanStep(n: nat, bits: seq<bool>, i: nat, j: nat)
    requires i < n <= |bits|
    requires if i % 32 == 0 && ZeroLong(bits, i) then j == i + 32 && (i == 0 || !bits[i - 1]) else j == i + 1
    ensures Clean(n, bits, i) <==> Clean(n, bits, j)
  {
    if Clean(n, bits, j) {
      forall k | 0 < k && i <= k < n && k % 32 == 0 && ZeroLong(bits, k) ensures !bits[k - 1] {
        assert k < j ==> k == i;
      }
    }
  }
}
