/** dds/DCPS/DisjointSequence.cpp: a set of sequence numbers kept as an ordered list of ranges. */
module DisjointSequences {
  import opened SequenceNumbers
  import opened RangeLists
  import opened BitmapScans
  import opened BitmapExports
  import opened BitmapRuns

  // An iterator into the std::set is an index into the list, end() is its length.

  datatype InsertStatus = InvalidRange | NothingNew | Grew

  lemma {:induction false} LowerBoundIs(rs: seq<Range>, key: int, k: nat)
    requires k <= |rs|
    requires forall i :: 0 <= i < k ==> rs[i].hi < key
    requires k < |rs| ==> rs[k].hi >= key
    ensures LowerBound(rs, key) == k
  {
  }

  lemma {:induction false} JamsAtTheLastRange(rs: seq<Range>, r: Range)
    requires Canonical(rs) && Jams(rs, r)
    ensures LowerBound(rs, r.hi) == |rs| - 1
  {
    forall l | 0 <= l < |rs| - 1 ensures rs[l].hi < r.hi { Separated(rs, l, |rs| - 1); }
    LowerBoundIs(rs, r.hi, |rs| - 1);
  }

  /** Erasing [i, j) and inserting r puts r where the erased ranges were. */
  lemma {:induction false} EraseThenInsert(rs: seq<Range>, i: nat, r: Range, j: nat)
    requires Canonical(rs) && i <= j <= |rs|
    requires i > 0 ==> rs[i - 1].hi < r.hi
    requires j < |rs| ==> r.hi < rs[j].hi
    ensures SetInsert(rs[..i] + rs[j..], r) == rs[..i] + [r] + rs[j..]
  {
    var t := rs[..i] + rs[j..];
    forall l | 0 <= l < i ensures t[l].hi < r.hi {
      if l < i - 1 { Separated(rs, l, i - 1); }
    }
    assert i < |t| ==> t[i] == rs[j];
    LowerBoundIs(t, r.hi, i);
    assert t[..i] == rs[..i] && t[i..] == rs[j..];
  }

  /** The list insert_i ends with, given the outcome of its two searches. */
  lemma {:induction false} InsertUnion(rs: seq<Range>, r: Range, below: nat, above: nat, merged: Range)
    requires Canonical(rs) && Within(r) && !Jams(rs, r)
    requires var a := LowerBound(rs, r.hi);
      && (a < |rs| ==> r.lo < rs[a].lo)
      && below == LowerBound(rs, KeyBelow(r))
      && var touches := a < |rs| && NextValue(r.hi) >= rs[a].lo;
      && above == (if touches then a + 1 else a)
      && merged.hi == (if touches then rs[a].hi else r.hi)
    requires merged.lo == if below < |rs| && r.lo > rs[below].lo then rs[below].lo else r.lo
    ensures below <= above
    ensures var t := SetInsert(if below < |rs| then rs[..below] + rs[above..] else rs, merged);
      Canonical(t) && Members(t) == Members(rs) + Span(r.lo, r.hi)
  {
    var a := LowerBound(rs, r.hi);
    BelowBeforeAbove(rs, r);
    MergedFits(rs, r, below, above, merged);
    if below == |rs| { assert rs[..below] + rs[above..] == rs; }
    EraseThenInsert(rs, below, merged, above);
    Splice(rs, below, merged, above);
    forall x ensures x in Members(rs) + Span(merged.lo, merged.hi) <==> x in Members(rs) + Span(r.lo, r.hi) {
      assert Has(merged, x) && x < r.lo ==> Has(rs[below], x);
      assert Has(merged, x) && x > r.hi ==> Has(rs[a], x);
    }
  }

  lemma {:induction false} MergedFits(rs: seq<Range>, r: Range, below: nat, above: nat, merged: Range)
    requires Canonical(rs) && Within(r) && !Jams(rs, r)
    requires var a := LowerBound(rs, r.hi);
      && (a < |rs| ==> r.lo < rs[a].lo)
      && below == LowerBound(rs, KeyBelow(r)) && below <= a
      && var touches := a < |rs| && NextValue(r.hi) >= rs[a].lo;
      && above == (if touches then a + 1 else a)
      && merged.hi == (if touches then rs[a].hi else r.hi)
    requires merged.lo == if below < |rs| && r.lo > rs[below].lo then rs[below].lo else r.lo
    ensures Within(merged)
    ensures below > 0 ==> rs[below - 1].hi + 1 < merged.lo
    ensures above < |rs| ==> merged.hi + 1 < rs[above].lo
    ensures below < above ==> merged.lo <= rs[below].lo && rs[above - 1].hi <= merged.hi
  {
    var a := LowerBound(rs, r.hi);
    if a < |rs| {
      assert Within(rs[a]);
      if a < |rs| - 1 {
        Separated(rs, a, a + 1);
        assert Within(rs[a + 1]);
      }
    }
    if 0 < below < |rs| { Separated(rs, below - 1, below); }
    if 0 < below { assert Within(rs[below - 1]); }
    if below < |rs| { assert Within(rs[below]); }
  }

  lemma {:induction false} JamExists()
    ensures var rs, r := [Range(5, MAX_VALUE)], Range(1, MAX_VALUE); Canonical(rs) && Within(r) && Jams(rs, r)
  {
  }

  lemma {:induction false} WithLast(rs: seq<Range>, below: nat)
    requires Canonical(rs) && below < |rs|
    ensures Canonical(rs[..below] + [rs[|rs| - 1]])
  {
    var n, t := |rs| - 1, rs[..below] + [rs[|rs| - 1]];
    forall i | 0 <= i < |t| ensures Within(t[i]) { assert Within(rs[if i < below then i else n]); }
    forall i, j | 0 <= i < j < |t| ensures Apart(t[i], t[j]) { Separated(rs, i, if j < below then j else n); }
  }

  /** The jam: nothing of the range is stored and what lay in between is lost. */
  lemma {:induction false} InsertJams(rs: seq<Range>, r: Range, below: nat, merged: Range)
    requires Canonical(rs) && Within(r) && Jams(rs, r)
    requires below == LowerBound(rs, KeyBelow(r)) && merged.hi == r.hi
    ensures LowerBound(rs, r.hi) == |rs| - 1 && below < |rs|
    ensures SetInsert(rs[..below] + rs[|rs| - 1..], merged) == rs[..below] + [rs[|rs| - 1]]
    ensures Members(rs[..below] + [rs[|rs| - 1]]) != Members(rs) + Span(r.lo, r.hi)
    ensures Canonical(rs[..below] + [rs[|rs| - 1]])
  {
    JamsAtTheLastRange(rs, r);
    var n := |rs| - 1;
    WithLast(rs, below);
    assert rs[n].hi >= KeyBelow(r);
    var t := rs[..below] + [rs[n]];
    assert rs[..below] + rs[n..] == t;
    forall l | 0 <= l < below ensures t[l].hi < r.hi { if l < n { Separated(rs, l, n); } }
    LowerBoundIs(t, r.hi, below);
    forall l | 0 <= l < |t| ensures !Has(t[l], r.lo) {
      assert t[l] == if l < below then rs[l] else rs[n];
    }
    assert r.lo in Span(r.lo, r.hi) && r.lo !in Members(t);
  }

  lemma {:induction false} BelowBeforeAbove(rs: seq<Range>, r: Range)
    requires Within(r)
    ensures LowerBound(rs, KeyBelow(r)) <= LowerBound(rs, r.hi)
  {
    var a := LowerBound(rs, r.hi);
    assert a < |rs| ==> rs[a].hi >= KeyBelow(r);
  }

  lemma {:induction false} CoveredCannotJam(rs: seq<Range>, r: Range)
    requires Canonical(rs)
    requires var a := LowerBound(rs, r.hi); a < |rs| && rs[a].lo <= r.lo
    ensures !Jams(rs, r)
  {
    if Jams(rs, r) { JamsAtTheLastRange(rs, r); }
  }

  lemma {:induction false} AlreadyCovered(rs: seq<Range>, r: Range)
    requires Canonical(rs) && Within(r)
    ensures var a := LowerBound(rs, r.hi);
      Span(r.lo, r.hi) <= Members(rs) <==> a < |rs| && rs[a].lo <= r.lo
  {
    var a := LowerBound(rs, r.hi);
    if a < |rs| && rs[a].lo <= r.lo {
      forall x | Has(r, x) ensures x in Members(rs) { assert Has(rs[a], x); }
    } else if a < |rs| && rs[a].lo <= r.hi {
      // the number just below the last touching range is missing
      assert rs[a].lo - 1 in Span(r.lo, r.hi);
      if a > 0 { Separated(rs, a - 1, a); }
      BetweenIsMissing(rs, a, rs[a].lo - 1);
    } else {
      assert r.hi in Span(r.lo, r.hi);
      BetweenIsMissing(rs, a, r.hi);
    }
  }

  /** A cursor on the range that holds first fits every later run. */
  lemma {:induction false} CursorOnRange(rs: seq<Range>, iter: nat, first: int)
    requires Canonical(rs) && iter < |rs| && rs[iter].lo <= first
    ensures forall later :: later > first ==> CursorFits(rs, iter, later)
  {
    forall i | 0 <= i < iter ensures rs[i].hi + 1 < first { Separated(rs, i, iter); }
  }

  lemma {:induction false} CanonicalIsLoose(rs: seq<Range>)
    requires Canonical(rs)
    ensures Loose(rs)
  {
    var t, z := Above(rs), Zeros(rs);
    forall i | 0 <= i < |t| ensures Within(t[i]) { assert Within(rs[i + z]); }
    forall i, j | 0 <= i < j < |t| ensures Apart(t[i], t[j]) { Separated(rs, i + z, j + z); }
    if rs != [] { assert Within(rs[0]); }
    if |rs| > 1 { Separated(rs, 0, 1); assert Within(rs[1]); }
  }

  /** The list is canonical unless [0, 0] and a range that starts at 1 stand side by side. */
  lemma {:induction false} LooseIsCanonicalIff(rs: seq<Range>)
    requires Loose(rs)
    ensures Canonical(rs) <==> !(Zeros(rs) == 1 && Covers(rs, 1))
  {
    var t := Above(rs);
    if Zeros(rs) == 1 {
      assert rs == [Range(0, 0)] + t;
      if Covers(rs, 1) {
        var i :| 0 <= i < |rs| && Has(rs[i], 1);
        if Canonical(rs) { Separated(rs, 0, i); }
      } else {
        if t != [] { assert !Has(rs[1], 1); }
        forall i, j | 0 <= i < j < |rs| ensures Apart(rs[i], rs[j]) {
          if i > 0 { Separated(t, i - 1, j - 1); } else if j > 1 { Separated(t, 0, j - 1); assert Within(t[0]); }
        }
        forall i | 0 <= i < |rs| ensures Within(rs[i]) { if i > 0 { assert Within(t[i - 1]); } }
      }
    } else {
      assert t == rs;
    }
  }

  lemma {:induction false} AboveMembers(rs: seq<Range>, x: int)
    requires Loose(rs)
    ensures Covers(rs, x) <==> Covers(Above(rs), x) || (Zeros(rs) == 1 && x == 0)
  {
    var t, z := Above(rs), Zeros(rs);
    if Covers(rs, x) {
      var i :| 0 <= i < |rs| && Has(rs[i], x);
      if i >= z { assert Has(t[i - z], x); }
    }
    if Covers(t, x) {
      var i :| 0 <= i < |t| && Has(t[i], x);
      assert Has(rs[i + z], x);
    }
    if z == 1 && x == 0 { assert Has(rs[0], 0); }
  }

  /** Searching for a key of at least 1 passes over [0, 0]. */
  lemma {:induction false} SearchAbove(rs: seq<Range>, previous: int)
    requires Loose(rs) && previous >= 0
    ensures LowerBound(rs, Key(previous)) == Zeros(rs) + LowerBound(Above(rs), previous)
  {
    var t, z, k := Above(rs), Zeros(rs), LowerBound(Above(rs), previous);
    assert previous == 0 && t != [] ==> k == 0;
    forall i | 0 <= i < z + k ensures rs[i].hi < Key(previous) {
      if i >= z { assert t[i - z].hi < previous; }
    }
    if k < |t| { assert t[k] == rs[z + k]; }
    LowerBoundIs(rs, Key(previous), z + k);
  }

  /** A new upper part under the same [0, 0]. */
  lemma {:induction false} Relead(rs: seq<Range>, t: seq<Range>, r: Range)
    requires Loose(rs) && Canonical(t) && t != [] && t[0].hi >= 1
    requires 1 <= r.lo && Members(t) == Members(Above(rs)) + Span(r.lo, r.hi)
    ensures var now := rs[..Zeros(rs)] + t;
      && Loose(now) && Zeros(now) == Zeros(rs) && Above(now) == t
      && forall x :: x in Members(now) <==> x in Members(t) || (Zeros(rs) == 1 && x == 0)
  {
    var now := rs[..Zeros(rs)] + t;
    FirstIsMember(t);
    if Zeros(rs) == 1 && t[0].lo in Members(Above(rs)) { FirstIsMember(Above(rs)); }
    assert Zeros(now) == Zeros(rs) && Above(now) == t;
    forall x ensures Covers(now, x) <==> Covers(t, x) || (Zeros(rs) == 1 && x == 0) { AboveMembers(now, x); }
  }

  lemma {:induction false} ContainedAlready(rs: seq<Range>, i: nat, r: Range)
    requires i < |rs| && rs[i].lo <= r.lo && r.hi <= rs[i].hi
    ensures Span(r.lo, r.hi) <= Members(rs)
    ensures Members(rs) == Members(rs) + Span(r.lo, r.hi)
  {
    assert forall x :: Has(r, x) ==> Has(rs[i], x);
  }

  lemma {:induction false} InsertedApart(rs: seq<Range>, r: Range, iter: nat)
    requires Canonical(rs) && 1 <= r.lo <= r.hi < MAX_VALUE && iter <= |rs|
    requires forall i :: 0 <= i < iter ==> rs[i].hi < r.lo - 1
    requires iter < |rs| ==> rs[iter].lo > r.hi + 1
    ensures var t := rs[..iter] + [r] + rs[iter..];
      && Canonical(t) && Members(t) == Members(rs) + Span(r.lo, r.hi) && t[iter] == r
      && ((rs == [] || rs[0].hi >= 1) ==> t[0].hi >= 1)
      && forall later :: later > r.lo ==> CursorFits(t, iter, later)
    ensures !(Span(r.lo, r.hi) <= Members(rs))
  {
    Splice(rs, iter, r, iter);
    CursorOnRange(rs[..iter] + [r] + rs[iter..], iter, r.lo);
    BetweenIsMissing(rs, iter, r.lo);
    assert r.lo in Span(r.lo, r.hi);
  }

  lemma {:induction false} MergedRunFits(rs: seq<Range>, r: Range, iter: nat, stop: nat, right: nat, merged: Range)
    requires Canonical(rs) && 1 <= r.lo <= r.hi < MAX_VALUE && iter <= stop <= |rs| && iter < |rs|
    requires forall i :: 0 <= i < iter ==> rs[i].hi < r.lo - 1
    requires rs[iter].hi >= r.lo - 1 && rs[iter].lo <= r.hi + 1
    requires !(rs[iter].lo <= r.lo && rs[iter].hi >= r.hi)
    requires merged.lo == if rs[iter].lo < r.lo then rs[iter].lo else r.lo
    requires iter < stop ==> rs[stop - 1].hi <= r.hi
    requires stop < |rs| ==> rs[stop].hi > r.hi
    requires var joins := stop < |rs| && rs[stop].lo <= r.hi + 1 && rs[stop].lo > r.lo;
      && right == (if joins then stop + 1 else stop)
      && merged.hi == (if joins then rs[stop].hi else r.hi)
    ensures Within(merged) && iter <= right <= |rs|
    ensures iter > 0 ==> rs[iter - 1].hi + 1 < merged.lo
    ensures right < |rs| ==> merged.hi + 1 < rs[right].lo
    ensures iter < right ==> merged.lo <= rs[iter].lo && rs[right - 1].hi <= merged.hi
  {
    assert Within(rs[iter]);
    if stop < |rs| { assert Within(rs[stop]); }
    if iter < stop < |rs| { Separated(rs, iter, stop); }
    if stop < |rs| - 1 { Separated(rs, stop, stop + 1); }
    if 0 < iter { Separated(rs, iter - 1, iter); }
  }

  lemma {:induction false} InsertedMerged(rs: seq<Range>, r: Range, iter: nat, stop: nat, right: nat, merged: Range)
    requires Canonical(rs) && 1 <= r.lo <= r.hi < MAX_VALUE && iter <= stop <= |rs| && iter < |rs|
    requires forall i :: 0 <= i < iter ==> rs[i].hi < r.lo - 1
    requires rs[iter].hi >= r.lo - 1 && rs[iter].lo <= r.hi + 1
    requires !(rs[iter].lo <= r.lo && rs[iter].hi >= r.hi)
    requires merged.lo == if rs[iter].lo < r.lo then rs[iter].lo else r.lo
    requires iter < stop ==> rs[stop - 1].hi <= r.hi
    requires stop < |rs| ==> rs[stop].hi > r.hi
    requires var joins := stop < |rs| && rs[stop].lo <= r.hi + 1 && rs[stop].lo > r.lo;
      && right == (if joins then stop + 1 else stop)
      && merged.hi == (if joins then rs[stop].hi else r.hi)
    ensures var t := SetInsert(rs[..iter] + rs[right..], merged);
      && Canonical(t) && Members(t) == Members(rs) + Span(r.lo, r.hi)
      && iter < |t| && t[iter] == merged && (rs[0].hi >= 1 ==> t[0].hi >= 1)
      && forall later :: later > r.lo ==> CursorFits(t, iter, later)
    ensures !(Span(r.lo, r.hi) <= Members(rs))
  {
    MergedRunFits(rs, r, iter, stop, right, merged);
    EraseThenInsert(rs, iter, merged, right);
    Splice(rs, iter, merged, right);
    forall x ensures x in Members(rs) + Span(merged.lo, merged.hi) <==> x in Members(rs) + Span(r.lo, r.hi) {
      assert Has(merged, x) && x < r.lo ==> Has(rs[iter], x);
      assert Has(merged, x) && x > r.hi ==> Has(rs[stop], x);
    }
    CursorOnRange(rs[..iter] + [merged] + rs[right..], iter, r.lo);
    AlreadyCovered(rs, r);
    LastTouched(rs, r, iter);
  }

  lemma {:induction false} CursorAbove(rs: seq<Range>, iter: nat, r: Range)
    requires Loose(rs) && Zeros(rs) <= iter < |rs| && 1 <= r.lo && rs[iter].lo <= r.lo
    ensures forall first :: first > r.lo ==> CursorFits(rs, iter, first)
  {
    CursorOnRange(Above(rs), iter - Zeros(rs), r.lo);
    forall first | first > r.lo ensures CursorFits(rs, iter, first) {
      assert CursorFits(Above(rs), iter - Zeros(rs), first);
      forall i | 0 <= i < iter ensures rs[i].hi + 1 < first {
        if i >= Zeros(rs) { assert rs[i] == Above(rs)[i - Zeros(rs)]; }
      }
    }
  }

  /** The upper part with a run inserted, under the same [0, 0]. */
  lemma {:induction false} InsertedAbove(rs: seq<Range>, r: Range, t: seq<Range>, iter: nat, now: seq<Range>)
    requires Loose(rs) && 1 <= r.lo <= r.hi && Zeros(rs) <= iter
    requires var k := iter - Zeros(rs);
      && Canonical(t) && Members(t) == Members(Above(rs)) + Span(r.lo, r.hi)
      && k < |t| && t[0].hi >= 1 && t[k].lo <= r.lo && r.hi <= t[k].hi
    requires now == rs[..Zeros(rs)] + t
    requires !(Span(r.lo, r.hi) <= Members(Above(rs)))
    ensures RunInserted(rs, r, iter, now)
  {
    Relead(rs, t, r);
    UnionAbove(rs, Members(t), r, Members(now));
    CursorAbove(now, iter, r);
  }

  lemma {:induction false} UnionAbove(rs: seq<Range>, top: iset<int>, r: Range, now: iset<int>)
    requires Loose(rs) && 1 <= r.lo && top == Members(Above(rs)) + Span(r.lo, r.hi)
    requires forall x :: x in now <==> x in top || (Zeros(rs) == 1 && x == 0)
    ensures now == Members(rs) + Span(r.lo, r.hi)
    ensures Span(r.lo, r.hi) <= Members(rs) <==> Span(r.lo, r.hi) <= Members(Above(rs))
  {
    forall x ensures x in Members(rs) <==> x in Members(Above(rs)) || (Zeros(rs) == 1 && x == 0) { AboveMembers(rs, x); }
    assert forall x :: x in Span(r.lo, r.hi) ==> x >= 1;
  }

  /** Canonical form survives unless the run starts at 1 above [0, 0]. */
  lemma {:induction false} RunKeepsCanonicalIff(rs: seq<Range>, r: Range, iter: nat, now: seq<Range>)
    requires Canonical(rs) && 1 <= r.lo <= r.hi && RunInserted(rs, r, iter, now)
    ensures Canonical(now) <==> !(Zeros(rs) == 1 && r.lo == 1)
  {
    CanonicalIsLoose(rs);
    LooseIsCanonicalIff(now);
    LooseIsCanonicalIff(rs);
    assert Covers(now, 1) <==> 1 in Members(now);
    assert 1 in Members(now) <==> 1 in Members(rs) || 1 in Span(r.lo, r.hi);
    assert Has(Range(r.lo, r.hi), 1) <==> r.lo == 1;
  }

  lemma {:induction false} CoveredAbove(rs: seq<Range>, iter: nat, r: Range)
    requires Loose(rs) && Zeros(rs) <= iter < |rs| && 1 <= r.lo <= r.hi
    requires rs[iter].lo <= r.lo && rs[iter].hi >= r.hi
    ensures Span(r.lo, r.hi) <= Members(rs) && Members(rs) == Members(rs) + Span(r.lo, r.hi)
    ensures Canonical(rs) ==> !(Zeros(rs) == 1 && r.lo == 1)
    ensures forall first :: first > r.lo ==> CursorFits(rs, iter, first)
  {
    ContainedAlready(rs, iter, r);
    CursorAbove(rs, iter, r);
    if Canonical(rs) && Zeros(rs) == 1 { Separated(rs, 0, iter); }
  }

  lemma {:induction false} ApartAbove(rs: seq<Range>, r: Range, iter: nat)
    requires Loose(rs) && 1 <= r.lo <= r.hi < MAX_VALUE && Zeros(rs) <= iter <= |rs|
    requires iter - Zeros(rs) == LowerBound(Above(rs), r.lo - 1) && (iter < |rs| ==> rs[iter].lo > r.hi + 1)
    ensures RunInserted(rs, r, iter, rs[..iter] + [r] + rs[iter..])
  {
    var z := Zeros(rs);
    assert iter < |rs| ==> Above(rs)[iter - z] == rs[iter];
    ApartOver(rs, Above(rs), z, iter - z, r, iter, rs[..iter] + [r] + rs[iter..]);
  }

  lemma {:induction false} ApartOver(rs: seq<Range>, t: seq<Range>, z: nat, k: nat, r: Range, iter: nat, now: seq<Range>)
    requires Loose(rs) && t == Above(rs) && z == Zeros(rs) && iter == z + k <= |rs| && 1 <= r.lo <= r.hi < MAX_VALUE
    requires k == LowerBound(t, r.lo - 1) && (k < |t| ==> t[k].lo > r.hi + 1) && now == rs[..iter] + [r] + rs[iter..]
    ensures RunInserted(rs, r, iter, now)
  {
    var top := ApartTop(t, r, k);
    ShiftSplice(rs, t, z, k, iter, r);
    assert Stacked(rs, top, now);
    TopUnderLead(rs, t, r, k, iter, r, top, now);
  }

  lemma {:induction false} ApartTop(t: seq<Range>, r: Range, k: nat) returns (top: seq<Range>)
    requires Canonical(t) && 1 <= r.lo <= r.hi < MAX_VALUE && k == LowerBound(t, r.lo - 1) && (t != [] ==> t[0].hi >= 1)
    requires k < |t| ==> t[k].lo > r.hi + 1
    ensures top == t[..k] + [r] + t[k..] && TopMerged(t, r, k, r, top)
  {
    InsertedApart(t, r, k);
    top := t[..k] + [r] + t[k..];
  }

  lemma {:induction false} ShiftSplice(rs: seq<Range>, t: seq<Range>, z: nat, k: nat, i: nat, r: Range)
    requires i == z + k <= |rs| && t == rs[z..]
    ensures rs[..i] + [r] + rs[i..] == rs[..z] + (t[..k] + [r] + t[k..])
  {
  }

  lemma {:induction false} ShiftCut(rs: seq<Range>, t: seq<Range>, z: nat, k: nat, rest: nat, i: nat, j: nat)
    requires i == z + k && j == z + rest <= |rs| && k <= rest && t == rs[z..]
    ensures rs[..i] + rs[j..] == rs[..z] + (t[..k] + t[rest..])
  {
  }

  lemma {:induction false} LowerBoundLead(lead: seq<Range>, rest: seq<Range>, key: int)
    requires forall l :: 0 <= l < |lead| ==> lead[l].hi < key
    ensures LowerBound(lead + rest, key) == |lead| + LowerBound(rest, key)
  {
    var all, k, n := lead + rest, LowerBound(rest, key), |lead|;
    forall l | 0 <= l < n + k ensures all[l].hi < key { if l >= n { assert all[l] == rest[l - n]; } }
    if k < |rest| { assert all[n + k] == rest[k]; }
    LowerBoundIs(all, key, n + k);
  }

  lemma {:induction false} SplitLead(lead: seq<Range>, rest: seq<Range>, k: nat, r: Range)
    requires k <= |rest|
    ensures (lead + rest)[..|lead| + k] + [r] + (lead + rest)[|lead| + k..] == lead + (rest[..k] + [r] + rest[k..])
  {
  }

  lemma {:induction false} SetInsertLead(lead: seq<Range>, rest: seq<Range>, r: Range)
    requires forall l :: 0 <= l < |lead| ==> lead[l].hi < r.hi
    ensures SetInsert(lead + rest, r) == lead + SetInsert(rest, r)
  {
    var k := LowerBound(rest, r.hi);
    LowerBoundLead(lead, rest, r.hi);
    if k < |rest| { assert (lead + rest)[|lead| + k] == rest[k]; }
    SplitLead(lead, rest, k, r);
  }

  lemma {:induction false} MergesAbove(rs: seq<Range>, t: seq<Range>, z: nat, k: nat, n: nat, rest: int, r: Range,
                                       iter: nat, stop: nat, right: nat, merged: Range)
    requires Loose(rs) && 1 <= r.lo <= r.hi < MAX_VALUE && t == Above(rs) && z == Zeros(rs)
    requires iter == z + k <= stop == z + n <= |rs| && iter < |rs| && k == LowerBound(t, r.lo - 1)
    requires Merges(rs, r, iter, stop, right, merged) && rest == right - z
    ensures k <= rest <= |t| && right <= |rs| && MergesAt(t, r, k, n, rest, merged)
    ensures LeadEnds(rs, z, merged.hi) && merged.lo <= r.lo && r.hi <= merged.hi
  {
  }

  /** The merged run, under the same [0, 0]. */
  lemma {:induction false} MergedAbove(rs: seq<Range>, r: Range, iter: nat, stop: nat, right: nat, merged: Range)
    requires Loose(rs) && 1 <= r.lo <= r.hi < MAX_VALUE && Zeros(rs) <= iter <= stop <= |rs| && iter < |rs|
    requires iter - Zeros(rs) == LowerBound(Above(rs), r.lo - 1) && Merges(rs, r, iter, stop, right, merged)
    ensures iter <= right <= |rs| && RunInserted(rs, r, iter, Replaced(rs, iter, right, merged))
  {
    var z := Zeros(rs);
    var t, k, n, rest := Above(rs), iter - z, stop - z, right - z;
    MergesAbove(rs, t, z, k, n, rest, r, iter, stop, right, merged);
    MergedOver(rs, t, z, k, n, rest, r, iter, right, merged);
  }

  /** Places in the list t above the lead of rs are given as numbers of their own. */
  lemma {:induction false} MergedOver(rs: seq<Range>, t: seq<Range>, z: nat, k: nat, stop: nat, rest: nat, r: Range,
                                      iter: nat, right: nat, merged: Range)
    requires Loose(rs) && t == Above(rs) && z == Zeros(rs) && iter == z + k && right == z + rest <= |rs| && k <= rest <= |t|
    requires MergesAt(t, r, k, stop, rest, merged) && 1 <= r.lo <= r.hi
    requires LeadEnds(rs, z, merged.hi) && merged.lo <= r.lo && r.hi <= merged.hi
    ensures RunInserted(rs, r, iter, Replaced(rs, iter, right, merged))
  {
    LeadStays(rs, t, z, k, rest, iter, right, merged);
    MergedTop(t, r, k, stop, rest, merged);
    TopUnderLead(rs, t, r, k, iter, merged, Replaced(t, k, rest, merged), Replaced(rs, iter, right, merged));
  }

  lemma {:induction false} TopUnderLead(rs: seq<Range>, t: seq<Range>, r: Range, k: nat, iter: nat, merged: Range,
                                        top: seq<Range>, now: seq<Range>)
    requires Loose(rs) && t == Above(rs) && iter == Zeros(rs) + k && 1 <= r.lo <= r.hi && merged.lo <= r.lo && r.hi <= merged.hi
    requires TopMerged(t, r, k, merged, top) && Stacked(rs, top, now)
    ensures RunInserted(rs, r, iter, now)
  {
    InsertedAbove(rs, r, top, iter, now);
  }

  /** The merge seen on the ranges above [0, 0] alone. */
  lemma {:induction false} MergedTop(t: seq<Range>, r: Range, k: nat, stop: nat, right: nat, merged: Range)
    requires k <= right <= |t| && MergesAt(t, r, k, stop, right, merged)
    ensures TopMerged(t, r, k, merged, Replaced(t, k, right, merged))
  {
    InsertedMerged(t, r, k, stop, right, merged);
  }

  lemma {:induction false} LeadStays(rs: seq<Range>, t: seq<Range>, z: nat, k: nat, rest: nat, iter: nat, right: nat, merged: Range)
    requires t == Above(rs) && z == Zeros(rs) && iter == z + k && right == z + rest <= |rs| && k <= rest <= |t|
    requires LeadEnds(rs, z, merged.hi)
    ensures Stacked(rs, Replaced(t, k, rest, merged), Replaced(rs, iter, right, merged))
  {
    ShiftCut(rs, t, z, k, rest, iter, right);
    var lead, cut := rs[..z], t[..k] + t[rest..];
    SetInsertLead(lead, cut, merged);
    assert Replaced(rs, iter, right, merged) == SetInsert(lead + cut, merged);
  }

  /** A range that neither contains r nor ends before it leaves part of r uncovered. */
  lemma {:induction false} LastTouched(rs: seq<Range>, r: Range, iter: nat)
    requires Canonical(rs) && Within(r) && iter < |rs|
    requires forall i :: 0 <= i < iter ==> rs[i].hi < r.lo - 1
    requires rs[iter].hi >= r.lo - 1
    requires !(rs[iter].lo <= r.lo && rs[iter].hi >= r.hi)
    ensures var a := LowerBound(rs, r.hi); !(a < |rs| && rs[a].lo <= r.lo)
  {
    var a := LowerBound(rs, r.hi);
    if iter < a < |rs| { Separated(rs, iter, a); }
  }

  /** After a run ending just below x was inserted, the cursor's range ends where the scan of
      the original list would resume. */
  lemma {:induction false} SkipMatchesPast(original: seq<Range>, rs: seq<Range>, iter: nat, x: int)
    requires Canonical(original) && Canonical(rs) && iter < |rs|
    requires Has(rs[iter], x - 1)
    requires forall y :: y >= x ==> (y in Members(rs) <==> y in Members(original))
    ensures Past(original, x) == if rs[iter].hi == x - 1 then x + 1 else rs[iter].hi + 1
    ensures rs[iter].hi >= x ==> exists k :: 0 <= k < |original| && original[k].hi == rs[iter].hi
  {
    if iter + 1 < |rs| { Separated(rs, iter, iter + 1); }
    BetweenIsMissing(rs, iter + 1, rs[iter].hi + 1);
    assert rs[iter].hi + 1 !in Members(original);
    if rs[iter].hi == x - 1 {
      assert !Covers(original, x);
      NothingToSkip(original, x);
    } else {
      forall y | x <= y <= rs[iter].hi ensures Covers(original, y) {
        assert Has(rs[iter], y);
        assert y in Members(original);
      }
      StoredRunEnds(original, x, rs[iter].hi);
    }
  }

  /** A stretch of stored numbers followed by a missing one lies in a single range. */
  lemma {:induction false} StoredRunEnds(rs: seq<Range>, x: int, end: int)
    requires Canonical(rs) && x <= end
    requires forall y :: x <= y <= end ==> Covers(rs, y)
    requires !Covers(rs, end + 1)
    ensures var k := LowerBound(rs, x); k < |rs| && rs[k].lo <= x && rs[k].hi == end
  {
    assert Covers(rs, x);
    var i :| 0 <= i < |rs| && Has(rs[i], x);
    forall j | 0 <= j < i ensures rs[j].hi < x { Separated(rs, j, i); }
    LowerBoundIs(rs, x, i);
    assert !Has(rs[i], end + 1);
    if rs[i].hi < end {
      assert Covers(rs, rs[i].hi + 1);
      if i + 1 < |rs| { Separated(rs, i, i + 1); }
      BetweenIsMissing(rs, i + 1, rs[i].hi + 1);
    }
  }

  /** Inserting a closed run leaves the rest of the scan to be done from where it resumes. */
  lemma {:induction false} RunSettled(original: seq<Range>, value: int, numBits: nat, longs: seq<Long>, now: iset<int>,
                                      later: iset<int>, s: ScanState, next: nat)
    requires 1 <= value && numBits <= 32 * |longs| && AtRunEnd(numBits, longs, s)
    requires next == Past(original, value + s.i) - value
    requires later == now + Span(s.rangeStart, value + s.i - 1)
    requires Owed(now, original, value, numBits, longs, s.rangeStart, s.i)
    ensures Owed(later, original, value, numBits, longs, 0, next)
  {
    var run, owed := Span(s.rangeStart, value + s.i - 1), Scan(original, value, numBits, Bits(longs), 0, next);
    assert Scan(original, value, numBits, Bits(longs), s.rangeStart, s.i) == run + owed;
    assert now + (run + owed) == (now + run) + owed;
  }

  /** A bit that closes no run leaves the scan to the next bit. */
  lemma {:induction false} OpenStep(original: seq<Range>, value: int, n: nat, marks: seq<bool>, start: int, i: nat)
    requires 1 <= value && i < n <= |marks| && (marks[i] || start == 0)
    requires !(i % 32 == 0 && ZeroLong(marks, i))
    ensures Scan(original, value, n, marks, start, i)
      == Scan(original, value, n, marks, if marks[i] && start == 0 then value + i else start, i + 1)
  {
  }

  lemma {:induction false} RunIsClosed(was: seq<Range>, rs: seq<Range>, original: seq<Range>, value: int, numBits: nat,
                                       longs: seq<Long>, s: ScanState, added: bool, iter: nat, last: int)
    requires 1 <= value && numBits <= 32 * |longs| && AtRunEnd(numBits, longs, s) && Loose(rs) && Zeros(rs) == Zeros(was)
    requires Canonical(original) && Extends(Members(was), Members(original), value + s.i)
    requires Owed(Members(was), original, value, numBits, longs, s.rangeStart, s.i)
    requires Members(rs) == Members(was) + Span(s.rangeStart, value + s.i - 1)
    requires !added <==> Span(s.rangeStart, value + s.i - 1) <= Members(was)
    requires Zeros(rs) <= iter < |rs| && Has(rs[iter], value + s.i - 1) && CursorFits(rs, iter, value + s.i + 1)
    requires last == if rs[iter].hi != value + s.i - 1 then rs[iter].hi else value + s.i
    ensures RunClosed(was, rs, original, value, numBits, longs, s, added, iter, last)
    ensures last != value + s.i ==> exists k :: 0 <= k < |original| && original[k].hi == last
  {
    ClosedLast(was, rs, original, s.rangeStart, value + s.i, iter, last);
    GrewIff(Members(was), Members(rs), Span(s.rangeStart, value + s.i - 1), added);
    RunSettled(original, value, numBits, longs, Members(was), Members(rs), s, last + 1 - value);
  }

  lemma {:induction false} GrewIff(was: iset<int>, now: iset<int>, run: iset<int>, added: bool)
    requires now == was + run && (!added <==> run <= was)
    ensures added <==> now != was
  {
  }

  /** Where the skip-ahead goes after the run that ends before x. */
  lemma {:induction false} ClosedLast(was: seq<Range>, rs: seq<Range>, original: seq<Range>, start: int, x: int, iter: nat, last: int)
    requires Canonical(original) && Loose(rs) && 1 <= x && Members(rs) == Members(was) + Span(start, x - 1)
    requires Extends(Members(was), Members(original), x)
    requires Zeros(rs) <= iter < |rs| && Has(rs[iter], x - 1)
    requires last == if rs[iter].hi != x - 1 then rs[iter].hi else x
    ensures last == Past(original, x) - 1
    ensures last != x ==> exists k :: 0 <= k < |original| && original[k].hi == last
  {
    SameAfterRun(was, rs, original, start, x);
    SkipMatchesPast(original, Above(rs), iter - Zeros(rs), x);
  }

  /** The run changes nothing from its end on. */
  lemma {:induction false} SameAfterRun(was: seq<Range>, rs: seq<Range>, original: seq<Range>, start: int, x: int)
    requires Loose(rs) && 1 <= x && Members(rs) == Members(was) + Span(start, x - 1)
    requires Extends(Members(was), Members(original), x)
    ensures forall y :: y >= x ==> (y in Members(Above(rs)) <==> y in Members(original))
  {
    forall y | y >= x ensures y in Members(Above(rs)) <==> y in Members(original) {
      AboveMembers(rs, y);
      assert y in Members(rs) <==> y in Members(was);
    }
  }

  lemma {:induction false} ClosedProgress(was: seq<Range>, rs: seq<Range>, original: seq<Range>, value: int, numBits: nat,
                                          longs: seq<Long>, s: ScanState, added: bool, t: ScanState, last: int)
    requires 1 <= value && numBits <= 32 * |longs| && Progressing(was, original, value, numBits, longs, s)
    requires AtRunEnd(numBits, longs, s) && RunClosed(was, rs, original, value, numBits, longs, s, added, t.iter, last)
    requires t.rangeStart == 0 && t.i == last + 1 - value && t.grew == (s.grew || added)
    requires t.overread <==> s.overread || last - value >= 32 * |longs|
    requires t.bit == (last - value) % 32 + 1 && (last - value < 32 * |longs| ==> t.x == longs[(last - value) / 32])
    ensures Progressing(rs, original, value, numBits, longs, t)
  {
    ClosedPlace(original, value, numBits, longs, s, t, last);
    ClosedReach(was, rs, original, value, numBits, s, added, t);
  }

  lemma {:induction false} ClosedReach(was: seq<Range>, rs: seq<Range>, original: seq<Range>, value: int, numBits: nat,
                                       s: ScanState, added: bool, t: ScanState)
    requires Reached(was, original, value, numBits, s) && Loose(rs) && Zeros(rs) == Zeros(was)
    requires Members(rs) == Members(was) + Span(s.rangeStart, value + s.i - 1) && (added <==> Members(rs) != Members(was))
    requires CursorFits(rs, t.iter, value + s.i + 1) && t.rangeStart == 0 && t.i > s.i && t.grew == (s.grew || added)
    ensures Reached(rs, original, value, numBits, t)
  {
    CursorLater(rs, t.iter, value + s.i + 1, value + t.i);
    StillOriginal(Members(was), Members(rs), Members(original), s.rangeStart, value + s.i, value + t.i);
    GrewEver(Members(was), Members(rs), Members(original), s.grew, added);
  }

  lemma {:induction false} GrewEver(was: iset<int>, now: iset<int>, original: iset<int>, grew: bool, added: bool)
    requires original <= was <= now && (grew <==> was != original) && (added <==> now != was)
    ensures grew || added <==> now != original
  {
  }

  lemma {:induction false} ClosedPlace(original: seq<Range>, value: int, numBits: nat, longs: seq<Long>,
                                       s: ScanState, t: ScanState, last: int)
    requires 1 <= value && numBits <= 32 * |longs| && Placed(original, value, numBits, longs, s)
    requires AtRunEnd(numBits, longs, s) && last == Past(original, value + s.i) - 1
    requires t.rangeStart == 0 && t.i == last - value + 1
    requires t.overread <==> s.overread || last - value >= 32 * |longs|
    requires t.bit == (last - value) % 32 + 1 && (last - value < 32 * |longs| ==> t.x == longs[(last - value) / 32])
    ensures Placed(original, value, numBits, longs, t)
  {
    NextPosition(last - value);
    OverreadsNext(original, value, numBits, longs, s, last);
  }

  /** Closing the run reads past the array, or the rest of the scan does. */
  lemma {:induction false} OverreadsNext(original: seq<Range>, value: int, numBits: nat, longs: seq<Long>, s: ScanState, last: int)
    requires 1 <= value && numBits <= 32 * |longs| && AtRunEnd(numBits, longs, s) && last == Past(original, value + s.i) - 1
    ensures Overreads(original, value, numBits, Bits(longs), s.rangeStart, s.i)
      <==> last - value >= 32 * |longs| || Overreads(original, value, numBits, Bits(longs), 0, last + 1 - value)
  {
  }

  lemma {:induction false} StillOriginal(was: iset<int>, now: iset<int>, original: iset<int>, start: int, x: int, later: int)
    requires now == was + Span(start, x - 1) && Extends(was, original, x) && x <= later
    ensures Extends(now, original, later) && original <= was <= now
  {
  }

  lemma {:induction false} CursorLater(rs: seq<Range>, iter: nat, first: int, later: int)
    requires CursorFits(rs, iter, first) && first <= later
    ensures CursorFits(rs, iter, later)
  {
  }

  lemma {:induction false} AbutsIff(rs: seq<Range>, value: int, n: nat, bits: seq<bool>, now: seq<Range>)
    requires Canonical(rs) && 1 <= value && n <= |bits| && Loose(now) && Zeros(now) == Zeros(rs)
    requires Members(now) == Members(rs) + Scan(rs, value, n, bits, 0, 0)
    ensures Canonical(now) <==> !Abuts(rs, value, n, bits)
  {
    CanonicalIsLoose(rs);
    LooseIsCanonicalIff(rs);
    LooseIsCanonicalIff(now);
    ScanTakesOne(rs, value, n, bits);
    assert Covers(now, 1) <==> 1 in Members(now);
  }

  lemma {:induction false} StretchBounds(rs: seq<Range>, invert: bool, m: nat)
    requires Canonical(rs) && 1 <= m < |rs| && rs[|rs| - 1].hi - rs[0].hi <= ULONG
    ensures 0 <= Stretch(rs, invert, m).lo <= Stretch(rs, invert, m).hi < ULONG
  {
    StretchesAscend(rs, invert, m, m);
    if m < |rs| - 1 { Separated(rs, m, |rs| - 1); }
    assert Within(rs[m]);
  }

  lemma {:induction false} NothingAbove(rs: seq<Range>, invert: bool, k: int)
    requires Canonical(rs) && |rs| > 1 && Stretch(rs, invert, |rs| - 1).hi < k
    ensures !InStretch(rs, invert, k)
  {
    if l :| 1 <= l < |rs| && Has(Stretch(rs, invert, l), k) {
      StretchesAscend(rs, invert, l, |rs| - 1);
      StretchesAscend(rs, invert, |rs| - 1, |rs| - 1);
    }
  }

  /** When stretch m does not fit, what was written is right and nothing wanted is left
      inside the array. */
  lemma {:induction false} CutOff(rs: seq<Range>, invert: bool, m: nat, was: seq<bool>, mid: seq<bool>,
                                  now: seq<bool>, numBits: nat, newBits: nat)
    requires Canonical(rs) && 1 <= m < |rs| && |mid| == |was| == |now| && |was| % 32 == 0
    requires WrittenUpTo(rs, invert, m - 1, was, mid, numBits)
    requires Stretch(rs, invert, m).hi >= |was|
    requires 0 <= Stretch(rs, invert, m).lo && (Stretch(rs, invert, m).lo >= |was| ==> newBits == numBits && now == mid)
    requires Stretch(rs, invert, m).lo < |was| ==>
      && newBits == |was|
      && forall k :: 0 <= k < |was| ==> now[k] == Filled(mid, numBits, Stretch(rs, invert, m).lo, newBits - 1, k)
    ensures forall k :: 0 <= k < newBits ==> now[k] == Exported(rs, invert, was, k)
    ensures forall k :: newBits <= k < |was| ==> !InStretch(rs, invert, k)
    ensures Stretch(rs, invert, |rs| - 1).hi >= |was| && newBits <= |was|
  {
    StretchesAscend(rs, invert, m, |rs| - 1);
    StretchesAscend(rs, invert, |rs| - 1, |rs| - 1);
    if Stretch(rs, invert, m).lo < |was| {
      forall k | 0 <= k < newBits ensures now[k] == Exported(rs, invert, was, k) {
        StretchWritten(rs, invert, m, was, mid, now, numBits, newBits - 1, k);
      }
    } else {
      forall k | newBits <= k < |was| ensures !InStretch(rs, invert, k) { GapIsOutside(rs, invert, m, k); }
    }
  }

  /** Present ranges and gaps tile the stretch from the lowest to the highest number. */
  lemma {:induction false} GapsTile(rs: seq<Range>, gaps: seq<Range>)
    requires Canonical(rs) && rs != [] && |gaps| == |rs| - 1
    requires forall i :: 0 <= i < |gaps| ==> gaps[i] == Gap(rs, i)
    ensures Canonical(gaps)
    ensures forall x :: x in Members(gaps) <==> rs[0].lo <= x <= rs[|rs| - 1].hi && x !in Members(rs)
  {
    forall i | 0 <= i < |gaps| ensures Within(gaps[i]) {
      Separated(rs, i, i + 1);
      assert Within(rs[i]) && Within(rs[i + 1]);
    }
    forall i, j | 0 <= i < j < |gaps| ensures Apart(gaps[i], gaps[j]) {
      if i + 1 < j { Separated(rs, i + 1, j); }
      assert Within(rs[j]) && Within(rs[i + 1]);
    }
    forall x ensures x in Members(gaps) <==> rs[0].lo <= x <= rs[|rs| - 1].hi && x !in Members(rs) {
      GapHolds(rs, gaps, x);
    }
  }

  lemma {:induction false} GapHolds(rs: seq<Range>, gaps: seq<Range>, x: int)
    requires Canonical(rs) && rs != [] && |gaps| == |rs| - 1
    requires forall i :: 0 <= i < |gaps| ==> gaps[i] == Gap(rs, i)
    ensures Covers(gaps, x) <==> rs[0].lo <= x <= rs[|rs| - 1].hi && !Covers(rs, x)
  {
    var n := |rs| - 1;
    if i :| 0 <= i < |gaps| && Has(gaps[i], x) {
      BetweenIsMissing(rs, i + 1, x);
      if 0 < i { Separated(rs, 0, i); }
      if i + 1 < n { Separated(rs, i + 1, n); }
      assert Within(rs[0]) && Within(rs[n]) && Within(rs[i]) && Within(rs[i + 1]);
    }
    if rs[0].lo <= x <= rs[n].hi && !Covers(rs, x) {
      var k := LowerBound(rs, x);
      assert k < |rs| && !Has(rs[k], x);
      assert k > 0;
      assert Has(gaps[k - 1], x);
    }
  }

  class DisjointSequence {
    var ranges: seq<Range>

    ghost predicate Valid()
      reads this
    {
      Canonical(ranges)
    }

    constructor ()
      ensures Valid() && Members(ranges) == iset{}
    {
      ranges := [];
    }

    method Reset()
      modifies this
      ensures Valid() && Members(ranges) == iset{}
    {
      ranges := [];
    }

    method Contains(value: int) returns (present: bool)
      requires Valid()
      ensures present <==> value in Members(ranges)
    {
      var iter := LowerBound(ranges, value);
      present := iter < |ranges| && ranges[iter].lo <= value;
      if present {
        assert Has(ranges[iter], value);
      } else {
        BetweenIsMissing(ranges, iter, value);
      }
    }

    /** The high end of the lowest contiguous range: everything from the lowest number up to
        the cumulative ack is present and the next number is not. */
    method CumulativeAck() returns (ack: int)
      requires Valid()
      ensures ranges == [] ==> ack == UNKNOWN
      ensures ranges != [] ==> Span(ranges[0].lo, ack) <= Members(ranges) && ack + 1 !in Members(ranges)
      ensures ranges != [] ==> ranges[0].lo <= ack && forall x :: x in Members(ranges) ==> ranges[0].lo <= x
    {
      if ranges == [] { return UNKNOWN; }
      FirstIsMember(ranges);
      assert Span(ranges[0].lo, ranges[0].hi) <= Members(ranges) by {
        assert forall x :: Has(Range(ranges[0].lo, ranges[0].hi), x) ==> Has(ranges[0], x);
      }
      return ranges[0].hi;
    }

    /** missing_sequence_ranges: the missing and the present ranges tile [low, high]. */
    method MissingRanges() returns (missing: seq<Range>)
      requires Valid()
      ensures Canonical(missing)
      ensures forall x :: x in Members(missing) <==>
        ranges != [] && ranges[0].lo <= x <= ranges[|ranges| - 1].hi && x !in Members(ranges)
    {
      missing := [];
      if |ranges| <= 1 {
        assert forall x :: ranges != [] && Has(ranges[0], x) ==> x in Members(ranges);
        return;
      }
      var first := 0;
      while first + 1 < |ranges|
        invariant first < |ranges| && |missing| == first
        invariant forall i :: 0 <= i < first ==> missing[i] == Gap(ranges, i)
      {
        Separated(ranges, first, first + 1);
        assert Within(ranges[first]) && Within(ranges[first + 1]);
        var missingLow, missingHigh := NextValue(ranges[first].hi), ranges[first + 1].lo - 1;
        if missingLow <= missingHigh {
          missing := missing + [Range(missingLow, missingHigh)];
        }
        first := first + 1;
      }
      GapsTile(ranges, missing);
    }

    /** insert_i without the gaps output.  It is set union exactly when it does not jam, and
        reports NothingNew exactly when the range was wholly present. */
    method InsertRange(range: Range) returns (status: InsertStatus)
      requires Valid() && 0 <= range.lo && range.hi <= MAX_VALUE
      modifies this
      ensures status == InvalidRange <==> range.lo > range.hi
      ensures status == InvalidRange ==> ranges == old(ranges)
      ensures status != InvalidRange ==>
        (Members(ranges) == old(Members(ranges)) + Span(range.lo, range.hi) <==> !Jams(old(ranges), range))
      ensures Valid()
      ensures status == NothingNew <==> range.lo <= range.hi && Span(range.lo, range.hi) <= old(Members(ranges))
    {
      if range.lo > range.hi {
        return InvalidRange;
      }
      ghost var before := ranges;
      AlreadyCovered(before, range);
      var rangeAbove := LowerBound(ranges, range.hi);
      if rangeAbove < |ranges| && ranges[rangeAbove].lo <= range.lo {
        CoveredCannotJam(before, range);
        assert Members(before) == Members(before) + Span(range.lo, range.hi);
        return NothingNew;
      }
      var newRange := range;
      if rangeAbove < |ranges| && NextValue(newRange.hi) >= ranges[rangeAbove].lo {
        newRange := Range(newRange.lo, ranges[rangeAbove].hi);
        rangeAbove := rangeAbove + 1;
      }
      var rangeBelow := LowerBound(ranges, KeyBelow(range));
      BelowBeforeAbove(before, range);
      if rangeBelow < |ranges| {
        if newRange.lo > ranges[rangeBelow].lo {
          newRange := Range(ranges[rangeBelow].lo, newRange.hi);
        }
        ranges := ranges[..rangeBelow] + ranges[rangeAbove..];
      }
      ranges := SetInsert(ranges, newRange);
      if Jams(before, range) {
        InsertJams(before, range, rangeBelow, newRange);
      } else {
        InsertUnion(before, range, rangeBelow, rangeAbove, newRange);
      }
      return Grew;
    }

    /** The first range that ends at or after previous, resuming from the cursor unless it is
        end().  Both searches convert previous to a SequenceNumber. */
    static method Seek(rs: seq<Range>, cursor: nat, previous: int) returns (iter: nat)
      requires 0 <= previous && CursorFits(rs, cursor, previous + 1)
      ensures iter == LowerBound(rs, Key(previous))
    {
      iter := cursor;
      if rs != [] {
        if iter == |rs| {
          return LowerBound(rs, Key(previous));
        }
        while iter != |rs| && rs[iter].hi < Key(previous)
          invariant iter <= |rs|
          invariant forall i :: 0 <= i < iter ==> rs[i].hi < Key(previous)
        {
          iter := iter + 1;
        }
        LowerBoundIs(rs, Key(previous), iter);
      }
    }

    /** insert_bitmap_range: insert_i without the two searches, resuming from a cursor.  The
        outcome is again set union, so by uniqueness of the canonical form the list is the one
        insert_i builds, unless [0, 0] is stored and the run starts at 1: that range is passed over and
        stays a neighbour of the run.  The cursor it leaves fits every run that starts above this one. */
    method InsertBitmapRange(cursor: nat, range: Range) returns (grew: bool, iter: nat)
      requires Loose(ranges) && 1 <= range.lo <= range.hi < MAX_VALUE
      requires CursorFits(ranges, cursor, range.lo)
      modifies this
      ensures Loose(ranges) && Zeros(ranges) == Zeros(old(ranges))
      ensures Members(ranges) == old(Members(ranges)) + Span(range.lo, range.hi)
      ensures old(Valid()) ==> (Valid() <==> !(Zeros(old(ranges)) == 1 && range.lo == 1))
      ensures !grew <==> Span(range.lo, range.hi) <= old(Members(ranges))
      ensures Zeros(ranges) <= iter < |ranges| && ranges[iter].lo <= range.lo && range.hi <= ranges[iter].hi
      ensures forall first :: first > range.lo ==> CursorFits(ranges, iter, first)
    {
      var rs := ranges;
      var previous := range.lo - 1;
      var next := range.hi + 1;
      iter := Seek(rs, cursor, previous);
      SearchAbove(rs, previous);
      if iter == |rs| || rs[iter].lo > next {
        ApartAbove(rs, range, iter);
        ranges := rs[..iter] + [range] + rs[iter..];
      } else if rs[iter].lo <= range.lo && rs[iter].hi >= range.hi {
        CoveredAbove(rs, iter, range);
        return false, iter;
      } else {
        ranges := MergeRun(rs, range, iter);
      }
      if Canonical(rs) { RunKeepsCanonicalIff(rs, range, iter, ranges); }
      return true, iter;
    }

    /** Lines 178-195: the run and all ranges it reaches become one. */
    static method MergeRun(rs: seq<Range>, range: Range, iter: nat) returns (now: seq<Range>)
      requires Loose(rs) && 1 <= range.lo <= range.hi < MAX_VALUE && Zeros(rs) <= iter < |rs|
      requires iter - Zeros(rs) == LowerBound(Above(rs), range.lo - 1)
      requires rs[iter].lo <= range.hi + 1 && !(rs[iter].lo <= range.lo && rs[iter].hi >= range.hi)
      ensures RunInserted(rs, range, iter, now)
    {
      var next := range.hi + 1;
      var right := iter;
      while right != |rs| && rs[right].hi < next
        invariant iter <= right <= |rs|
        invariant iter < right ==> rs[right - 1].hi < next
      {
        right := right + 1;
      }
      ghost var stop := right;
      var high := range.hi;
      if right != |rs| && rs[right].lo <= next && rs[right].lo > range.lo {
        high := rs[right].hi;
        right := right + 1;
      }
      var low := if rs[iter].lo < range.lo then rs[iter].lo else range.lo;
      MergedAbove(rs, range, iter, stop, right, Range(low, high));
      now := SetInsert(rs[..iter] + rs[right..], Range(low, high));
    }

    /** Lines 119-129: the 0 bit s.i ends the run that began at s.rangeStart.  Inserts the run and returns
        the number from which the skip-ahead counts on; the scan's total is unchanged. */
    method CloseRun(ghost original: seq<Range>, value: int, numBits: nat, ghost longs: seq<Long>, s: ScanState)
      returns (added: bool, iter: nat, last: int)
      requires 1 <= value && value + numBits <= MAX_VALUE && numBits <= 32 * |longs|
      requires Progress(original, value, numBits, longs, s) && AtRunEnd(numBits, longs, s)
      modifies this
      ensures RunClosed(old(ranges), ranges, original, value, numBits, longs, s, added, iter, last)
      ensures last != value + s.i ==> exists k :: 0 <= k < |original| && original[k].hi == last
    {
      added, iter := InsertBitmapRange(s.iter, Range(s.rangeStart, value + s.i - 1));
      last := if ranges[iter].hi != value + s.i - 1 then ranges[iter].hi else value + s.i;
      RunIsClosed(old(ranges), ranges, original, value, numBits, longs, s, added, iter, last);
    }

    /** Lines 127-135: move to the given bit, loading its Long if it is another one. */
    static method SkipAhead(i: nat, bit: nat, x: Long, to: int, longs: seq<Long>, past: Long)
      returns (nextI: nat, nextBit: nat, nextX: Long, outside: bool)
      requires i < 32 * |longs| && bit == i % 32 && x == longs[i / 32]
      requires i <= to < ULONG - 1
      ensures nextI == to && nextBit == to % 32
      ensures nextI < 32 * |longs| ==> nextX == longs[nextI / 32]
      ensures outside <==> to >= 32 * |longs|
    {
      nextI, nextBit, nextX, outside := i, bit, x, false;
      if to != i {
        nextI := to % ULONG;
        nextBit := nextI % 32;
        if nextI / 32 != i / 32 {
          if nextI / 32 < |longs| {
            nextX := longs[nextI / 32];
          } else {
            nextX, outside := past, true;
          }
        }
      }
    }

    /** What holds before each turn of the loop at line 97. */
    ghost predicate Progress(original: seq<Range>, value: int, numBits: nat, longs: seq<Long>, t: ScanState)
      requires 1 <= value && numBits <= 32 * |longs|
      reads this
    {
      Progressing(ranges, original, value, numBits, longs, t)
    }

    /** One turn of the loop on a bit that is not the first of an all-zero Long. */
    method BitStep(ghost original: seq<Range>, value: int, numBits: nat, longs: seq<Long>, past: Long, s: ScanState)
      returns (t: ScanState)
      requires 1 <= value && value + numBits <= MAX_VALUE && numBits <= 32 * |longs| && numBits < 0x8000_0000
      requires forall k :: 0 <= k < |original| ==> original[k].hi - value < ULONG - 1
      requires Progress(original, value, numBits, longs, s) && s.i < numBits
      requires s.bit == s.i % 32 && s.x == longs[s.i / 32] && !(s.bit == 0 && s.x == Filler(false))
      modifies this
      ensures Progress(original, value, numBits, longs, t) && t.i > s.i
    {
      if s.x[s.bit] || s.rangeStart == 0 {
        NoRunCloses(original, value, numBits, longs, s);
        t := if s.x[s.bit] && s.rangeStart == 0 then s.(rangeStart := value + s.i) else s;
        t := t.(i := t.i + 1, bit := t.bit + 1);
      } else {
        ZeroWordIsZeroLong(longs, s.i / 32);
        t := CloseStep(original, value, numBits, longs, past, s);
      }
    }

    lemma {:induction false} NoRunCloses(original: seq<Range>, value: int, numBits: nat, longs: seq<Long>, s: ScanState)
      requires 1 <= value && numBits <= 32 * |longs|
      requires Progress(original, value, numBits, longs, s) && s.i < numBits
      requires s.bit == s.i % 32 && s.x == longs[s.i / 32] && !(s.bit == 0 && s.x == Filler(false))
      requires s.x[s.bit] || s.rangeStart == 0
      ensures var start := if s.x[s.bit] && s.rangeStart == 0 then value + s.i else s.rangeStart;
        Progress(original, value, numBits, longs, s.(rangeStart := start, i := s.i + 1, bit := s.bit + 1))
    {
      ZeroWordIsZeroLong(longs, s.i / 32);
      OpenStep(original, value, numBits, Bits(longs), s.rangeStart, s.i);
      NextPosition(s.i);
    }

    method CloseStep(ghost original: seq<Range>, value: int, numBits: nat, longs: seq<Long>, past: Long, s: ScanState)
      returns (t: ScanState)
      requires 1 <= value && value + numBits <= MAX_VALUE && numBits <= 32 * |longs| && numBits < 0x8000_0000
      requires forall k :: 0 <= k < |original| ==> original[k].hi - value < ULONG - 1
      requires Progress(original, value, numBits, longs, s) && AtRunEnd(numBits, longs, s)
      requires s.bit == s.i % 32 && s.x == longs[s.i / 32]
      modifies this
      ensures Progress(original, value, numBits, longs, t) && t.i > s.i
    {
      var added, iter, last := CloseRun(original, value, numBits, longs, s);
      var i, bit, x, outside := SkipAhead(s.i, s.bit, s.x, last - value, longs, past);
      t := ScanState(iter, 0, i + 1, x, bit + 1, s.grew || added, s.overread || outside);
      ClosedProgress(old(ranges), ranges, original, value, numBits, longs, s, added, t, last);
    }

    lemma {:induction false} SkipZeroLong(original: seq<Range>, value: int, numBits: nat, longs: seq<Long>, s: ScanState)
      requires 1 <= value && numBits <= 32 * |longs|
      requires Progress(original, value, numBits, longs, s) && s.i < numBits
      requires s.bit == 0 && longs[s.i / 32] == Filler(false)
      ensures Progress(original, value, numBits, longs, s.(i := s.i + 32, bit := 32))
    {
      ZeroWordIsZeroLong(longs, s.i / 32);
      NextPosition(s.i);
    }

    /** Lines 139-146: a run still open at the end is inserted up to the last bit. */
    method Finish(ghost original: seq<Range>, value: int, numBits: nat, ghost longs: seq<Long>, t: ScanState)
      returns (grew: bool)
      requires 1 <= value && value + numBits <= MAX_VALUE && numBits <= 32 * |longs|
      requires Progress(original, value, numBits, longs, t) && t.i >= numBits
      modifies this
      ensures Loose(ranges) && Zeros(ranges) == Zeros(original)
      ensures Members(ranges) == Members(original) + Scan(original, value, numBits, Bits(longs), 0, 0)
      ensures grew <==> Members(ranges) != Members(original)
      ensures t.overread <==> Overreads(original, value, numBits, Bits(longs), 0, 0)
    {
      grew := t.grew;
      if t.rangeStart != 0 {
        var added, _ := InsertBitmapRange(t.iter, Range(t.rangeStart, value + numBits - 1));
        grew := grew || added;
      }
    }

    /** One turn of the loop: lines 99-136 and the increments. */
    method Turn(ghost original: seq<Range>, value: int, numBits: nat, longs: seq<Long>, past: Long, s: ScanState)
      returns (t: ScanState)
      requires 1 <= value && value + numBits <= MAX_VALUE && numBits <= 32 * |longs| && numBits < 0x8000_0000
      requires forall k :: 0 <= k < |original| ==> original[k].hi - value < ULONG - 1
      requires Progress(original, value, numBits, longs, s) && s.i < numBits
      modifies this
      ensures Progress(original, value, numBits, longs, t) && t.i > s.i
    {
      t := if s.bit == 32 then s.(bit := 0) else s;
      if t.bit == 0 {
        t := t.(x := longs[t.i / 32]);
        if t.x == Filler(false) {
          SkipZeroLong(original, value, numBits, longs, t);
          t := t.(i := t.i + 31, bit := 31);
          t := t.(i := t.i + 1, bit := t.bit + 1);
          return;
        }
      }
      t := BitStep(original, value, numBits, longs, past, t);
    }

    /** insert(value, num_bits, bits).  past stands for whatever lies after the array; overread
        reports that the skip-ahead loaded it. */
    method InsertBitmap(value: int, numBits: nat, longs: seq<Long>, past: Long) returns (grew: bool, overread: bool)
      requires Valid()
      requires 1 <= value && value + numBits <= MAX_VALUE
      requires numBits <= 32 * |longs| && numBits < 0x8000_0000
      requires forall k :: 0 <= k < |ranges| ==> ranges[k].hi - value < ULONG - 1
      modifies this
      ensures Valid() <==> !Abuts(old(ranges), value, numBits, Bits(longs))
      ensures Loose(ranges) && Zeros(ranges) == Zeros(old(ranges))
      ensures Members(ranges) == old(Members(ranges)) + Scan(old(ranges), value, numBits, Bits(longs), 0, 0)
      ensures Members(ranges) == old(Members(ranges)) + Marked(value, numBits, Bits(longs), 0)
        <==> NoSpill(old(ranges), value, numBits, Bits(longs), 0, 0)
      ensures grew <==> Members(ranges) != old(Members(ranges))
      ensures overread <==> Overreads(old(ranges), value, numBits, Bits(longs), 0, 0)
      ensures overread ==> ReachesBeyond(old(ranges), value + 32 * |longs|)
    {
      ghost var original := ranges;
      CanonicalIsLoose(ranges);
      var t := ScanState(|ranges|, 0, 0, Filler(false), 0, false, false);
      while t.i < numBits
        invariant Progress(original, value, numBits, longs, t)
        decreases numBits - t.i
      {
        t := Turn(original, value, numBits, longs, past, t);
      }
      grew := Finish(original, value, numBits, longs, t);
      overread := t.overread;
      ScanExactIffNoSpill(original, value, numBits, Bits(longs), 0, 0);
      AbutsIff(original, value, numBits, Bits(longs), ranges);
      if overread { OverreadNeedsStored(original, value, numBits, Bits(longs), 0, 0); }
    }

    /** One turn of the loop: stretch m written, or cut off. */
    method WriteStretch(bitmap: array<Long>, invert: bool, m: nat, numBits: nat, ghost was: seq<bool>)
      returns (fits: bool, newBits: nat)
      requires Valid() && 32 * bitmap.Length <= ULONG && 1 <= m < |ranges|
      requires ranges[|ranges| - 1].hi - ranges[0].hi <= ULONG && |was| == 32 * bitmap.Length
      requires WrittenUpTo(ranges, invert, m - 1, was, Bits(bitmap[..]), numBits)
      modifies bitmap
      ensures fits ==> WrittenUpTo(ranges, invert, m, was, Bits(bitmap[..]), newBits)
      ensures !fits ==> Stretch(ranges, invert, |ranges| - 1).hi >= |was| && newBits <= |was|
      ensures !fits ==> forall k :: 0 <= k < newBits ==> Bits(bitmap[..])[k] == Exported(ranges, invert, was, k)
      ensures !fits ==> forall k :: newBits <= k < |was| ==> !InStretch(ranges, invert, k)
    {
      StretchBounds(ranges, invert, m);
      if m > 1 { StretchesAscend(ranges, invert, m - 1, m); }
      var stretch := Stretch(ranges, invert, m);
      ghost var mid := Bits(bitmap[..]);
      fits, newBits := FillBitmapRange(stretch.lo, stretch.hi, bitmap, numBits);
      if fits {
        NextStretchWritten(ranges, invert, m, was, mid, Bits(bitmap[..]), numBits);
      } else {
        CutOff(ranges, invert, m, was, mid, Bits(bitmap[..]), numBits, newBits);
      }
    }

    /** to_bitmap: one stretch after another until one does not fit.  Bit k comes out as wanted
        unless it is stale and was set before; what was not reached holds no wanted bit. */
    method ToBitmap(bitmap: array<Long>, invert: bool) returns (complete: bool, numBits: nat)
      requires Valid() && 32 * bitmap.Length <= ULONG
      requires ranges != [] ==> ranges[|ranges| - 1].hi - ranges[0].hi <= ULONG
      modifies bitmap
      ensures complete <==> |ranges| <= 1 || Stretch(ranges, invert, |ranges| - 1).hi < 32 * bitmap.Length
      ensures numBits <= 32 * bitmap.Length
      ensures complete ==> numBits == if |ranges| <= 1 then 0 else Stretch(ranges, invert, |ranges| - 1).hi + 1
      ensures forall k :: 0 <= k < numBits ==> Bits(bitmap[..])[k] == Exported(ranges, invert, Bits(old(bitmap[..])), k)
      ensures forall k :: numBits <= k < 32 * bitmap.Length ==> !InStretch(ranges, invert, k)
    {
      numBits := 0;
      if |ranges| <= 1 {
        return true, 0;
      }
      ghost var was := Bits(bitmap[..]);
      var m := 1;
      while m < |ranges|
        invariant 1 <= m <= |ranges|
        invariant WrittenUpTo(ranges, invert, m - 1, was, Bits(bitmap[..]), numBits)
      {
        var fits, newBits := WriteStretch(bitmap, invert, m, numBits, was);
        if !fits {
          return false, newBits;
        }
        numBits := newBits;
        m := m + 1;
      }
      forall k | numBits <= k < 32 * bitmap.Length ensures !InStretch(ranges, invert, k) {
        NothingAbove(ranges, invert, k);
      }
      return true, numBits;
    }
  }
}
