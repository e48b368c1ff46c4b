/** Sorted lists of disjoint, non-adjacent ranges and the sets of numbers they stand for. */
module RangeLists {
  import opened SequenceNumbers

  /** All numbers from lo to hi, both included. */
  datatype Range = Range(lo: int, hi: int)

  predicate Has(r: Range, x: int) {
    r.lo <= x <= r.hi
  }

  ghost function Span(lo: int, hi: int): iset<int> {
    iset x | Has(Range(lo, hi), x)
  }

  predicate Within(r: Range) {
    0 <= r.lo <= r.hi <= MAX_VALUE
  }

  /** At least one number is missing between a and b. */
  predicate Apart(a: Range, b: Range) {
    a.hi + 1 < b.lo
  }

  /** Ascending, and with at least one number missing between neighbours. */
  predicate Canonical(rs: seq<Range>) {
    && (forall i :: 0 <= i < |rs| ==> Within(rs[i]))
    && (forall i, j {:trigger Apart(rs[i], rs[j])} :: 0 <= i < j < |rs| ==> Apart(rs[i], rs[j]))
  }

  lemma {:induction false} Separated(rs: seq<Range>, i: nat, j: nat)
    requires Canonical(rs) && i < j < |rs|
    ensures rs[i].hi + 1 < rs[j].lo
    ensures rs[i].hi < rs[j].hi
  {
    assert Apart(rs[i], rs[j]);
  }

  predicate Covers(rs: seq<Range>, x: int) {
    exists i :: 0 <= i < |rs| && Has(rs[i], x)
  }

  ghost function Members(rs: seq<Range>): iset<int> {
    iset x | Covers(rs, x)
  }

  /** A number strictly between two neighbouring ranges, or outside them all, is missing. */
  lemma {:induction false} BetweenIsMissing(rs: seq<Range>, k: nat, x: int)
    requires Canonical(rs) && k <= |rs|
    requires k > 0 ==> rs[k - 1].hi < x
    requires k < |rs| ==> x < rs[k].lo
    ensures !Covers(rs, x)
  {
    if i :| 0 <= i < |rs| && Has(rs[i], x) {
      if i + 1 < k { Separated(rs, i, k - 1); }
      if k < i { Separated(rs, k, i); }
    }
  }

  /** std::set::lower_bound for the comparison on upper ends: the first range that ends at
      or after key, or |rs| when there is none. */
  function LowerBound(rs: seq<Range>, key: int): (k: nat)
    ensures k <= |rs|
    ensures forall i :: 0 <= i < k ==> rs[i].hi < key
    ensures k < |rs| ==> rs[k].hi >= key
  {
    LowerBoundFrom(rs, key, 0)
  }

  function LowerBoundFrom(rs: seq<Range>, key: int, from: nat): (k: nat)
    requires from <= |rs|
    ensures from <= k <= |rs|
    ensures forall i :: from <= i < k ==> rs[i].hi < key
    ensures k < |rs| ==> rs[k].hi >= key
    decreases |rs| - from
  {
    if from == |rs| || rs[from].hi >= key then from else LowerBoundFrom(rs, key, from + 1)
  }

  /** std::set::insert: a range whose upper end is already a key is dropped. */
  function SetInsert(rs: seq<Range>, r: Range): seq<Range> {
    var k := LowerBound(rs, r.hi);
    if k < |rs| && rs[k].hi == r.hi then rs else rs[..k] + [r] + rs[k..]
  }

  /** The range list denotes the set and the set determines the list. */
  lemma {:induction false} CanonicalFormIsUnique(a: seq<Range>, b: seq<Range>)
    requires Canonical(a) && Canonical(b)
    requires Members(a) == Members(b)
    ensures a == b
  {
    if a == [] {
      if b != [] { FirstIsMember(b); }
    } else if b == [] {
      FirstIsMember(a);
    } else {
      FirstRangesAgree(a, b);
      FirstRangesAgree(b, a);
      forall x ensures Covers(a[1..], x) <==> Covers(b[1..], x) {
        TailMembers(a, x);
        TailMembers(b, x);
        assert x in Members(a) <==> x in Members(b);
      }
      CanonicalFormIsUnique(a[1..], b[1..]);
      assert a == [a[0]] + a[1..] && b == [b[0]] + b[1..];
    }
  }

  lemma {:induction false} FirstIsMember(rs: seq<Range>)
    requires Canonical(rs) && rs != []
    ensures forall x :: Has(rs[0], x) ==> x in Members(rs)
    ensures rs[0].lo in Members(rs)
    ensures forall x :: x in Members(rs) ==> rs[0].lo <= x
    ensures rs[0].hi + 1 !in Members(rs)
  {
    assert Has(rs[0], rs[0].lo);
    if |rs| > 1 { Separated(rs, 0, 1); }
    BetweenIsMissing(rs, 1, rs[0].hi + 1);
    forall x | x in Members(rs) ensures rs[0].lo <= x {
      if x < rs[0].lo { BetweenIsMissing(rs, 0, x); }
    }
  }

  lemma {:induction false} FirstRangesAgree(a: seq<Range>, b: seq<Range>)
    requires Canonical(a) && Canonical(b) && a != [] && b != []
    requires Members(a) == Members(b)
    ensures b[0].lo <= a[0].lo
    ensures a[0].lo == b[0].lo ==> a[0].hi <= b[0].hi
  {
    FirstIsMember(a);
    FirstIsMember(b);
    assert Has(a[0], b[0].hi + 1) <==> a[0].lo <= b[0].hi + 1 <= a[0].hi;
  }

  lemma {:induction false} TailMembers(rs: seq<Range>, x: int)
    requires Canonical(rs) && rs != []
    ensures Covers(rs[1..], x) <==> Covers(rs, x) && !Has(rs[0], x)
  {
    if Covers(rs[1..], x) {
      var i :| 0 <= i < |rs[1..]| && Has(rs[1..][i], x);
      assert Has(rs[i + 1], x);
      Separated(rs, 0, i + 1);
    }
    if Covers(rs, x) && !Has(rs[0], x) {
      var i :| 0 <= i < |rs| && Has(rs[i], x);
      assert rs[1..][i - 1] == rs[i];
    }
  }

  /** Where element k of rs[..i] + [r] + rs[j..] comes from. */
  lemma {:induction false} SpliceAt(rs: seq<Range>, i: nat, r: Range, j: nat, k: nat)
    requires i <= j <= |rs| && k < i + 1 + |rs| - j
    ensures (rs[..i] + [r] + rs[j..])[k] == if k < i then rs[k] else if k == i then r else rs[j + k - i - 1]
  {
  }

  /** Replacing the ranges from i up to j by one range that swallows them. */
  lemma {:induction false} Splice(rs: seq<Range>, i: nat, r: Range, j: nat)
    requires Canonical(rs) && Within(r) && i <= j <= |rs|
    requires i > 0 ==> rs[i - 1].hi + 1 < r.lo
    requires j < |rs| ==> r.hi + 1 < rs[j].lo
    requires i < j ==> r.lo <= rs[i].lo && rs[j - 1].hi <= r.hi
    ensures Canonical(rs[..i] + [r] + rs[j..])
    ensures Members(rs[..i] + [r] + rs[j..]) == Members(rs) + Span(r.lo, r.hi)
  {
    var t := rs[..i] + [r] + rs[j..];
    forall k, l | 0 <= k < l < |t| ensures Apart(t[k], t[l]) {
      SpliceAt(rs, i, r, j, k);
      SpliceAt(rs, i, r, j, l);
      if k < i - 1 { Separated(rs, k, i - 1); }
      if j < |rs| && j + l - i - 1 > j { Separated(rs, j, j + l - i - 1); }
      if l < i { Separated(rs, k, l); }
      if i < k { Separated(rs, j + k - i - 1, j + l - i - 1); }
    }
    forall k | 0 <= k < |t| ensures Within(t[k]) {
      SpliceAt(rs, i, r, j, k);
    }
    forall x ensures x in Members(t) <==> x in Members(rs) || Has(r, x) {
      SpliceCovers(rs, i, r, j, x);
    }
  }

  lemma {:induction false} SpliceCovers(rs: seq<Range>, i: nat, r: Range, j: nat, x: int)
    requires Canonical(rs) && i <= j <= |rs|
    requires i < j ==> r.lo <= rs[i].lo && rs[j - 1].hi <= r.hi
    ensures Covers(rs[..i] + [r] + rs[j..], x) <==> Covers(rs, x) || Has(r, x)
  {
    var t := rs[..i] + [r] + rs[j..];
    SpliceAt(rs, i, r, j, i);
    assert Has(r, x) ==> Has(t[i], x);
    if k :| 0 <= k < |t| && Has(t[k], x) {
      SpliceAt(rs, i, r, j, k);
      if k != i { assert Has(rs[if k < i then k else j + k - i - 1], x); }
    }
    if k :| 0 <= k < |rs| && Has(rs[k], x) {
      if k < i {
        SpliceAt(rs, i, r, j, k);
        assert Has(t[k], x);
      } else if k < j {
        Swallowed(rs, i, r, j, k, x);
      } else {
        SpliceAt(rs, i, r, j, i + 1 + k - j);
        assert Has(t[i + 1 + k - j], x);
      }
    }
  }

  lemma {:induction false} Swallowed(rs: seq<Range>, i: nat, r: Range, j: nat, k: nat, x: int)
    requires Canonical(rs) && i <= k < j <= |rs| && Has(rs[k], x)
    requires r.lo <= rs[i].lo && rs[j - 1].hi <= r.hi
    ensures Has(r, x)
  {
    if i < k { Separated(rs, i, k); }
    if k < j - 1 { Separated(rs, k, j - 1); }
    assert Within(rs[i]) && Within(rs[j - 1]);
  }
}
