/** Exclusive ownership (section 7.1.3.9 of DDS 1.2): the election of one owner per instance. */
module OwnershipSpec {
  // The election of dds/DCPS/OwnershipManager.cpp, the copies of the owner kept in every reader's
  // InstanceState, and the ownership test of DataReaderImpl::filter_instance.

  type Writer = nat
  type Reader = nat
  type Handle = nat
  type StateId = nat

  /** GUID_UNKNOWN. */
  const UNKNOWN: Writer := 0

  datatype WriterInfo = WriterInfo(pub: Writer, strength: int)

  const NOBODY := WriterInfo(UNKNOWN, 0)

  /** OwnershipWriterInfos: states lists the registered InstanceStates of the handle. */
  datatype Infos = Infos(owner: WriterInfo, candidates: seq<WriterInfo>, states: seq<StateId>)

  /** The ownership fields of an InstanceState. */
  datatype InstanceState = InstanceState(handle: Handle, reader: Reader, owner: Writer, registered: bool)

  /** A reader's writers_ with their strengths, and the owner_evaluated_ flags that are true. */
  datatype ReaderState = ReaderState(writers: map<Writer, int>, evaluated: set<(Writer, Handle)>)

  datatype State = State(infos: map<Handle, Infos>, insts: map<StateId, InstanceState>, readers: map<Reader, ReaderState>)

  // ----- the election of one instance -----

  ghost predicate Descending(c: seq<WriterInfo>) {
    forall i, j :: 0 <= i < j < |c| ==> c[i].strength >= c[j].strength
  }

  /** std::sort with DescendingOwnershipStrengthSort: any sorting permutation. */
  ghost predicate IsSortOf(t: seq<WriterInfo>, c: seq<WriterInfo>) {
    multiset(t) == multiset(c) && Descending(t)
  }

  /** remove_owner(infos, sort): the first candidate takes over. */
  ghost predicate OwnerRemoved(b: Infos, a: Infos, sort: bool) {
    if b.candidates == [] then a == b.(owner := NOBODY)
    else exists t :: TakesOver(b, t, a) && if sort then IsSortOf(t, b.candidates) else t == b.candidates
  }

  ghost predicate TakesOver(b: Infos, t: seq<WriterInfo>, a: Infos) {
    t != [] && a == b.(owner := t[0], candidates := t[1..])
  }

  function Find(c: seq<WriterInfo>, pub: Writer): (k: nat)
    ensures k <= |c|
    ensures forall i :: 0 <= i < k ==> c[i].pub != pub
    ensures k < |c| ==> c[k].pub == pub
  {
    FindFrom(c, pub, 0)
  }

  function FindFrom(c: seq<WriterInfo>, pub: Writer, from: nat): (k: nat)
    requires from <= |c|
    ensures from <= k <= |c|
    ensures forall i :: from <= i < k ==> c[i].pub != pub
    ensures k < |c| ==> c[k].pub == pub
    decreases |c| - from
  {
    if from == |c| || c[from].pub == pub then from else FindFrom(c, pub, from + 1)
  }

  /** The candidate list after the challenger's entry was updated or appended. */
  function Entered(c: seq<WriterInfo>, pub: Writer, strength: int): seq<WriterInfo> {
    var k := Find(c, pub);
    if k < |c| then c[k := WriterInfo(pub, strength)] else c + [WriterInfo(pub, strength)]
  }

  predicate NeedsSort(c: seq<WriterInfo>, pub: Writer, strength: int) {
    var k := Find(c, pub);
    !(k < |c| && c[k].strength == strength)
  }

  /** The election part of select_owner for an instance that has an entry. */
  ghost predicate Selected(b: Infos, pub: Writer, strength: int, a: Infos) {
    if b.owner.pub == UNKNOWN then
      a == b.(owner := WriterInfo(pub, strength))
    else if b.owner.pub == pub then
      if b.owner.strength <= strength then a == b.(owner := WriterInfo(pub, strength))
      else OwnerRemoved(b.(candidates := b.candidates + [WriterInfo(pub, strength)]), a, true)
    else
      var replace := strength > b.owner.strength;
      var c := if replace then b.candidates + [b.owner] else b.candidates;
      exists t :: Ranked(c, pub, strength, t)
        && if replace then OwnerRemoved(b.(candidates := t), a, false) else a == b.(candidates := t)
  }

  ghost predicate Ranked(c: seq<WriterInfo>, pub: Writer, strength: int, t: seq<WriterInfo>) {
    if NeedsSort(c, pub, strength) then IsSortOf(t, Entered(c, pub, strength)) else t == Entered(c, pub, strength)
  }

  /** select_owner broadcasts in exactly these branches. */
  predicate Broadcasts(b: Infos, pub: Writer, strength: int) {
    || b.owner.pub == UNKNOWN
    || (b.owner.pub == pub && b.owner.strength > strength)
    || (b.owner.pub != pub && b.owner.strength < strength)
  }

  function Without(c: seq<WriterInfo>, pub: Writer): seq<WriterInfo> {
    var k := Find(c, pub);
    if k < |c| then c[..k] + c[k + 1..] else c
  }

  // ----- what an election keeps -----

  ghost predicate Distinct(c: seq<WriterInfo>) {
    forall i, j :: 0 <= i < j < |c| ==> c[i].pub != c[j].pub
  }

  /** No candidate is stronger than the owner, the candidates are sorted, no writer appears
      twice, and without an owner there are no candidates. */
  ghost predicate Elected(n: Infos) {
    && Descending(n.candidates) && Distinct(n.candidates)
    && (forall i :: 0 <= i < |n.candidates| ==>
          && n.candidates[i].strength <= n.owner.strength
          && n.candidates[i].pub != n.owner.pub
          && n.candidates[i].pub != UNKNOWN)
    && (n.owner.pub == UNKNOWN ==> n.candidates == [])
  }

  /** Who competes for the instance and how strong: the owner and the candidates. */
  ghost predicate Contends(n: Infos, w: WriterInfo) {
    w.pub != UNKNOWN && (w == n.owner || w in n.candidates)
  }

  lemma {:induction false} SortKeeps(t: seq<WriterInfo>, c: seq<WriterInfo>)
    requires IsSortOf(t, c)
    ensures |t| == |c| && (forall w :: w in t <==> w in c)
    ensures Distinct(c) ==> Distinct(t)
  {
    assert |multiset(t)| == |t| && |multiset(c)| == |c|;
    forall w ensures w in t <==> w in c {
      assert w in multiset(t) <==> w in multiset(c);
    }
    if Distinct(c) {
      forall i, j | 0 <= i < j < |t| ensures t[i].pub != t[j].pub { SortDistinct(t, c, i, j); }
    }
  }

  lemma {:induction false} SortDistinct(t: seq<WriterInfo>, c: seq<WriterInfo>, i: nat, j: nat)
    requires multiset(t) == multiset(c) && Distinct(c) && i < j < |t|
    ensures t[i].pub != t[j].pub
  {
    if t[i].pub == t[j].pub {
      assert t[i] in multiset(c) && t[j] in multiset(c);
      var k :| 0 <= k < |c| && c[k] == t[i];
      var l :| 0 <= l < |c| && c[l] == t[j];
      if k == l {
        TwiceIn(t, i, j);
        OnceIn(c, k);
      }
    }
  }

  lemma {:induction false} TwiceIn(t: seq<WriterInfo>, i: nat, j: nat)
    requires i < j < |t| && t[i] == t[j]
    ensures multiset(t)[t[i]] >= 2
  {
    assert t == t[..j] + [t[j]] + t[j + 1..];
    assert t[..j][i] == t[i];
    assert t[i] in multiset(t[..j]);
  }

  lemma {:induction false} OnceIn(c: seq<WriterInfo>, k: nat)
    requires k < |c| && Distinct(c)
    ensures multiset(c)[c[k]] == 1
  {
    assert c == c[..k] + [c[k]] + c[k + 1..];
    assert c[k] !in c[..k] && c[k] !in c[k + 1..];
  }

  /** A list of contenders that no one outside it outranks. */
  ghost predicate Ranking(t: seq<WriterInfo>) {
    && Descending(t) && Distinct(t)
    && forall i :: 0 <= i < |t| ==> t[i].pub != UNKNOWN
  }

  /** Promoting the head of a ranking yields an election among exactly its members. */
  lemma {:induction false} HeadTakesOver(b: Infos, t: seq<WriterInfo>, a: Infos)
    requires Ranking(t) && TakesOver(b, t, a)
    ensures Elected(a) && a.states == b.states
    ensures forall w :: Contends(a, w) <==> w in t
    ensures forall w :: w in t ==> w.strength <= a.owner.strength
  {
    assert t == [t[0]] + t[1..];
    forall w | w in t ensures w.strength <= t[0].strength {
      var i :| 0 <= i < |t| && t[i] == w;
      if i > 0 { assert t[0].strength >= t[i].strength; }
    }
  }

  /** remove_owner with sort == false picks a strongest candidate although it does not look. */
  lemma {:induction false} RemoveOwnerKeepsElection(b: Infos, a: Infos)
    requires Elected(b) && OwnerRemoved(b, a, false)
    ensures Elected(a) && a.states == b.states
    ensures forall w :: Contends(a, w) <==> w in b.candidates
    ensures forall w :: w in b.candidates ==> w.strength <= a.owner.strength
    ensures a.owner.pub == UNKNOWN <==> b.candidates == []
  {
    if b.candidates != [] {
      HeadTakesOver(b, b.candidates, a);
    }
  }

  lemma {:induction false} WithoutMembers(c: seq<WriterInfo>, pub: Writer)
    requires Distinct(c) && Descending(c)
    ensures Distinct(Without(c, pub)) && Descending(Without(c, pub))
    ensures forall w :: w in Without(c, pub) <==> w in c && w.pub != pub
  {
    var k, d := Find(c, pub), Without(c, pub);
    if k < |c| {
      forall i | 0 <= i < |d| ensures d[i] == c[if i < k then i else i + 1] {}
      forall w | w in c && w.pub != pub ensures w in d {
        var i :| 0 <= i < |c| && c[i] == w;
        assert d[if i < k then i else i - 1] == w;
      }
      forall w | w in d ensures w in c && w.pub != pub {
        var i :| 0 <= i < |d| && d[i] == w;
      }
    }
  }

  /** remove_candidate keeps the election and removes one writer. */
  lemma {:induction false} RemoveCandidateKeepsElection(b: Infos, pub: Writer, a: Infos)
    requires Elected(b) && b.owner.pub != pub && a == b.(candidates := Without(b.candidates, pub))
    ensures Elected(a)
    ensures forall w :: Contends(a, w) <==> Contends(b, w) && w.pub != pub
  {
    WithoutMembers(b.candidates, pub);
    forall i | 0 <= i < |a.candidates|
      ensures a.candidates[i].strength <= a.owner.strength && a.candidates[i].pub != a.owner.pub && a.candidates[i].pub != UNKNOWN
    {
      assert a.candidates[i] in b.candidates;
    }
  }

  lemma {:induction false} AppendedMembers(c: seq<WriterInfo>, x: WriterInfo)
    requires Distinct(c) && forall i :: 0 <= i < |c| ==> c[i].pub != x.pub
    ensures Distinct(c + [x])
    ensures forall w :: w in c + [x] <==> w in c || w == x
  {
  }

  /** Entering a challenger keeps the writers distinct and changes only its own entry. */
  lemma {:induction false} EnteredMembers(c: seq<WriterInfo>, pub: Writer, strength: int)
    requires Distinct(c)
    ensures Distinct(Entered(c, pub, strength))
    ensures forall w :: w in Entered(c, pub, strength) <==> w == WriterInfo(pub, strength) || (w in c && w.pub != pub)
  {
    var k, d := Find(c, pub), Entered(c, pub, strength);
    forall w ensures w in d <==> w == WriterInfo(pub, strength) || (w in c && w.pub != pub) {
      if w in c && w.pub != pub {
        var i :| 0 <= i < |c| && c[i] == w;
        assert d[i] == w;
      }
      if k < |c| { assert d[k] == WriterInfo(pub, strength); } else { assert d[|c|] == WriterInfo(pub, strength); }
      if w in d && w != WriterInfo(pub, strength) {
        var i :| 0 <= i < |d| && d[i] == w;
        assert i < |c| && c[i] == w;
      }
    }
  }

  /** The list select_owner works with is sorted even when it skips the sort. */
  lemma {:induction false} RankedIsRanking(c: seq<WriterInfo>, pub: Writer, strength: int, t: seq<WriterInfo>)
    requires Distinct(c) && (forall w :: w in c ==> w.pub != UNKNOWN) && pub != UNKNOWN
    requires NeedsSort(c, pub, strength) || Descending(c)
    requires Ranked(c, pub, strength, t)
    ensures Ranking(t)
    ensures forall w :: w in t <==> w == WriterInfo(pub, strength) || (w in c && w.pub != pub)
  {
    EnteredMembers(c, pub, strength);
    if NeedsSort(c, pub, strength) {
      SortKeeps(t, Entered(c, pub, strength));
    } else {
      var k := Find(c, pub);
      assert c[k] == WriterInfo(pub, strength);
      assert t == c;
    }
    forall i | 0 <= i < |t| ensures t[i].pub != UNKNOWN { assert t[i] in t; }
  }

  /** The outcome of select_owner, for every list of candidates and every sorting permutation:
      the election is kept, exactly the challenger's entry changes, a strictly stronger
      challenger wins, an equal or weaker one never displaces the owner, and the owner only
      changes in branches that broadcast. */
  lemma {:induction false} SelectKeepsElection(b: Infos, pub: Writer, strength: int, a: Infos)
    requires Elected(b) && pub != UNKNOWN && Selected(b, pub, strength, a)
    ensures Elected(a) && a.states == b.states && a.owner.pub != UNKNOWN
    ensures forall w :: Contends(a, w) <==> w == WriterInfo(pub, strength) || (Contends(b, w) && w.pub != pub)
    ensures b.owner.pub == UNKNOWN ==> a.owner.pub == pub
    ensures b.owner.pub == pub && strength >= b.owner.strength ==> a.owner.pub == pub
    ensures b.owner.pub != UNKNOWN && b.owner.pub != pub ==>
      a.owner.pub == if strength > b.owner.strength then pub else b.owner.pub
    ensures !Broadcasts(b, pub, strength) ==> a.owner.pub == b.owner.pub
  {
    if b.owner.pub == UNKNOWN {
    } else if b.owner.pub == pub {
      if strength < b.owner.strength { OwnerWeakens(b, pub, strength, a); }
    } else if strength > b.owner.strength {
      ChallengerWins(b, pub, strength, a);
    } else {
      ChallengerWaits(b, pub, strength, a);
    }
  }

  lemma {:induction false} OwnerWeakens(b: Infos, pub: Writer, strength: int, a: Infos)
    requires Elected(b) && pub != UNKNOWN && Selected(b, pub, strength, a)
    requires b.owner.pub == pub && strength < b.owner.strength
    ensures Elected(a) && a.states == b.states && a.owner.pub != UNKNOWN
    ensures forall w :: Contends(a, w) <==> w == WriterInfo(pub, strength) || (Contends(b, w) && w.pub != pub)
  {
    var c := b.candidates + [WriterInfo(pub, strength)];
    AppendedMembers(b.candidates, WriterInfo(pub, strength));
    var t: seq<WriterInfo> :| TakesOver(b.(candidates := c), t, a) && IsSortOf(t, c);
    SortKeeps(t, c);
    forall i | 0 <= i < |t| ensures t[i].pub != UNKNOWN { assert t[i] in t; }
    HeadTakesOver(b.(candidates := c), t, a);
    assert a.owner in t;
  }

  lemma {:induction false} ChallengerWins(b: Infos, pub: Writer, strength: int, a: Infos)
    requires Elected(b) && pub != UNKNOWN && Selected(b, pub, strength, a)
    requires b.owner.pub != UNKNOWN && b.owner.pub != pub && strength > b.owner.strength
    ensures Elected(a) && a.states == b.states && a.owner.pub == pub
    ensures forall w :: Contends(a, w) <==> w == WriterInfo(pub, strength) || (Contends(b, w) && w.pub != pub)
  {
    var c := b.candidates + [b.owner];
    AppendedMembers(b.candidates, b.owner);
    var t: seq<WriterInfo> :| Ranked(c, pub, strength, t) && OwnerRemoved(b.(candidates := t), a, false);
    StrongestIsFirst(c, pub, strength, t, b.owner.strength);
    HeadTakesOver(b.(candidates := t), t, a);
  }

  /** A challenger stronger than everyone listed ends up first. */
  lemma {:induction false} StrongestIsFirst(c: seq<WriterInfo>, pub: Writer, strength: int, t: seq<WriterInfo>, bound: int)
    requires Distinct(c) && (forall w :: w in c ==> w.pub != UNKNOWN && w.strength <= bound)
    requires pub != UNKNOWN && bound < strength && Ranked(c, pub, strength, t)
    ensures Ranking(t) && t != [] && t[0].pub == pub
    ensures forall w :: w in t <==> w == WriterInfo(pub, strength) || (w in c && w.pub != pub)
  {
    var k := Find(c, pub);
    assert k < |c| ==> c[k] in c;
    RankedIsRanking(c, pub, strength, t);
    var i :| 0 <= i < |t| && t[i] == WriterInfo(pub, strength);
    assert t[0].strength >= t[i].strength;
    assert t[0] in t;
  }

  lemma {:induction false} ChallengerWaits(b: Infos, pub: Writer, strength: int, a: Infos)
    requires Elected(b) && pub != UNKNOWN && Selected(b, pub, strength, a)
    requires b.owner.pub != UNKNOWN && b.owner.pub != pub && strength <= b.owner.strength
    ensures Elected(a) && a.states == b.states && a.owner == b.owner
    ensures forall w :: Contends(a, w) <==> w == WriterInfo(pub, strength) || (Contends(b, w) && w.pub != pub)
  {
    var c := b.candidates;
    var t: seq<WriterInfo> :| Ranked(c, pub, strength, t) && a == b.(candidates := t);
    RankedIsRanking(c, pub, strength, t);
    forall i | 0 <= i < |t| ensures t[i].strength <= b.owner.strength && t[i].pub != b.owner.pub {
      assert t[i] in t;
    }
  }
}
