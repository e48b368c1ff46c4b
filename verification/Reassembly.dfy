/** Repeated splits of a sample and any grouping of the joins (dds/DCPS/DataSampleHeader.cpp, split and join). */
module Reassembly {
  import opened Basics
  import opened HeaderCodec
  import opened Fragmentation

  // ----- any number of cuts, any grouping of the joins -----

  ghost predicate AllLegal(m: Fragment, sizes: seq<nat>)
    decreases |sizes|
  {
    Sound(m) && (sizes != [] ==> Legal(m, sizes[0]) && AllLegal(Tail(m, sizes[0]), sizes[1..]))
  }

  /** The pieces of m when the tail is cut again at each of the sizes. */
  ghost function Pieces(m: Fragment, sizes: seq<nat>): (ps: seq<Fragment>)
    requires AllLegal(m, sizes)
    ensures |ps| == |sizes| + 1
    decreases |sizes|
  {
    if sizes == [] then [m] else [Head(m, sizes[0])] + Pieces(Tail(m, sizes[0]), sizes[1..])
  }

  function PayloadOf(ps: seq<Fragment>): seq<Byte> {
    if ps == [] then [] else ps[0].payload + PayloadOf(ps[1..])
  }

  function EntriesOf(ps: seq<Fragment>): multiset<Guid> {
    if ps == [] then multiset{} else multiset(ps[0].header.entries) + EntriesOf(ps[1..])
  }

  ghost predicate Filtered(ps: seq<Fragment>) {
    exists p :: p in ps && p.header.contentFilter
  }

  /** The fields that all fragments of a sample share. */
  predicate SameSample(m: Header, h: Header) {
    && h.messageId == m.messageId && h.submessageId == m.submessageId
    && h.littleEndian == m.littleEndian && h.coherentChange == m.coherentChange
    && h.historicSample == m.historicSample && h.lifespanDuration == m.lifespanDuration
    && h.groupCoherent == m.groupCoherent && h.sequenceRepair == m.sequenceRepair
    && h.cdrEncapsulation == m.cdrEncapsulation && h.keyFieldsOnly == m.keyFieldsOnly
    && h.sequenceHigh == m.sequenceHigh && h.sequenceLow == m.sequenceLow
    && h.sourceSec == m.sourceSec && h.sourceNanosec == m.sourceNanosec
    && h.lifespanSec == m.lifespanSec && h.lifespanNanosec == m.lifespanNanosec
    && h.publicationId == m.publicationId && h.publisherId == m.publisherId
  }

  lemma {:induction false} SharedAndOwn(m: Header, h: Header)
    requires SameSample(m, h)
    ensures h == m.(moreFragments := h.moreFragments, contentFilter := h.contentFilter,
                    messageLength := h.messageLength, entries := h.entries)
  {
  }

  lemma {:induction false} JoinShares(m: Header, a: Header, b: Header)
    requires SameSample(m, a) && SameSample(m, b)
    requires a.moreFragments && a.messageLength + b.messageLength < 0x1_0000_0000
    ensures Join(a, b).Some? && SameSample(m, Join(a, b).value)
    ensures Join(a, b).value.moreFragments == b.moreFragments
    ensures Join(a, b).value.messageLength == a.messageLength + b.messageLength
  {
  }

  predicate PieceOf(m: Header, p: Fragment) {
    Sound(p) && SameSample(m, p.header)
  }

  /** Consecutive pieces of one sample. */
  predicate Consecutive(m: Header, ps: seq<Fragment>) {
    && ps != []
    && (forall i :: 0 <= i < |ps| ==> PieceOf(m, ps[i]))
    && (forall i :: 0 <= i < |ps| - 1 ==> ps[i].header.moreFragments)
  }

  /** h is the header of the pieces ps taken together. */
  ghost predicate Sums(m: Header, ps: seq<Fragment>, h: Header)
    requires ps != []
  {
    && SameSample(m, h) && h.moreFragments == ps[|ps| - 1].header.moreFragments
    && h.messageLength == |PayloadOf(ps)| && h.contentFilter == Filtered(ps)
    && multiset(h.entries) == EntriesOf(ps) && (!h.contentFilter ==> h.entries == [])
  }

  lemma {:induction false} AppendPayload(ps: seq<Fragment>, qs: seq<Fragment>)
    ensures PayloadOf(ps + qs) == PayloadOf(ps) + PayloadOf(qs)
  {
    if ps == [] {
      assert ps + qs == qs;
    } else {
      var first, rest := ps[0], ps[1..];
      assert (ps + qs)[0] == first && (ps + qs)[1..] == rest + qs;
      AppendPayload(rest, qs);
      assert PayloadOf(ps + qs) == first.payload + PayloadOf(rest + qs);
    }
  }

  lemma {:induction false} AppendEntries(ps: seq<Fragment>, qs: seq<Fragment>)
    ensures EntriesOf(ps + qs) == EntriesOf(ps) + EntriesOf(qs)
  {
    if ps == [] {
      assert ps + qs == qs;
    } else {
      var first, rest := ps[0], ps[1..];
      assert (ps + qs)[0] == first && (ps + qs)[1..] == rest + qs;
      AppendEntries(rest, qs);
      assert EntriesOf(ps + qs) == multiset(first.header.entries) + EntriesOf(rest + qs);
    }
  }

  lemma {:induction false} AppendFiltered(ps: seq<Fragment>, qs: seq<Fragment>)
    ensures Filtered(ps + qs) == (Filtered(ps) || Filtered(qs))
  {
    assert forall p :: p in ps + qs <==> p in ps || p in qs;
  }

  lemma {:induction false} JoinEntries(a: Header, b: Header)
    requires Join(a, b).Some? && (!a.contentFilter ==> a.entries == []) && (!b.contentFilter ==> b.entries == [])
    ensures var c := Join(a, b).value;
            && multiset(c.entries) == multiset(a.entries) + multiset(b.entries)
            && c.contentFilter == (a.contentFilter || b.contentFilter) && (!c.contentFilter ==> c.entries == [])
  {
    ReverseKeepsElements(a.entries);
  }

  lemma {:induction false} JoinSums(m: Header, ps: seq<Fragment>, qs: seq<Fragment>, a: Header, b: Header)
    requires ps != [] && qs != [] && Sums(m, ps, a) && Sums(m, qs, b)
    requires a.moreFragments && |PayloadOf(ps + qs)| < 0x1_0000_0000
    ensures Join(a, b).Some? && Sums(m, ps + qs, Join(a, b).value)
  {
    AppendPayload(ps, qs);
    AppendEntries(ps, qs);
    AppendFiltered(ps, qs);
    JoinShares(m, a, b);
    JoinEntries(a, b);
  }

  /** How join calls are grouped. */
  datatype Grouping = Piece | Both(left: Grouping, right: Grouping)

  function Leaves(g: Grouping): (n: nat)
    ensures n >= 1
  {
    match g
    case Piece => 1
    case Both(left, right) => Leaves(left) + Leaves(right)
  }

  function Reassembled(g: Grouping, ps: seq<Fragment>): Option<Header>
    requires |ps| == Leaves(g)
  {
    match g
    case Piece => Some(ps[0].header)
    case Both(left, right) =>
      var n := Leaves(left);
      var a, b := Reassembled(left, ps[..n]), Reassembled(right, ps[n..]);
      if a.None? || b.None? then None else Join(a.value, b.value)
  }

  predicate SameSequence(a: Header, b: Header) {
    a.sequenceHigh == b.sequenceHigh && a.sequenceLow == b.sequenceLow
  }

  /** Fragments of one sample, each but the last announcing another one. */
  predicate Joinable(ps: seq<Fragment>)
    requires ps != []
  {
    forall i :: 0 <= i < |ps| - 1 ==> ps[i].header.moreFragments && SameSequence(ps[i].header, ps[|ps| - 1].header)
  }

  lemma {:induction false} JoinableParts(ps: seq<Fragment>, n: nat)
    requires 0 < n < |ps|
    ensures Joinable(ps) <==>
      && Joinable(ps[..n]) && Joinable(ps[n..])
      && ps[n - 1].header.moreFragments && SameSequence(ps[n - 1].header, ps[|ps| - 1].header)
  {
    var a, b := ps[..n], ps[n..];
    assert a[n - 1] == ps[n - 1] && b[|b| - 1] == ps[|ps| - 1];
    if Joinable(ps) {
      forall i | 0 <= i < |b| - 1 ensures b[i].header.moreFragments && SameSequence(b[i].header, b[|b| - 1].header) {
        assert b[i] == ps[n + i];
      }
    }
    if Joinable(a) && Joinable(b) && a[n - 1].header.moreFragments && SameSequence(a[n - 1].header, b[|b| - 1].header) {
      forall i | 0 <= i < |ps| - 1 ensures ps[i].header.moreFragments && SameSequence(ps[i].header, ps[|ps| - 1].header) {
        assert ps[i] == if i < n then a[i] else b[i - n];
      }
    }
  }

  /** However they are grouped, fragments join to one if and only if they are of one sequence and each but the last
      announces another; the result has the fields of the last one, apart from length, filter flag and entries. */
  lemma {:induction false} JoinsIffJoinable(g: Grouping, ps: seq<Fragment>)
    requires |ps| == Leaves(g)
    ensures Reassembled(g, ps).Some? <==> Joinable(ps)
    ensures Reassembled(g, ps).Some? ==>
      var h := Reassembled(g, ps).value;
      h == ps[|ps| - 1].header.(messageLength := h.messageLength, contentFilter := h.contentFilter, entries := h.entries)
  {
    match g
    case Piece =>
    case Both(left, right) =>
      var n := Leaves(left);
      JoinsIffJoinable(left, ps[..n]);
      JoinsIffJoinable(right, ps[n..]);
      JoinableParts(ps, n);
  }

  lemma {:induction false} SingleSums(m: Header, p: Fragment)
    requires PieceOf(m, p)
    ensures Sums(m, [p], p.header)
  {
    assert PayloadOf([p]) == p.payload + PayloadOf([]);
    assert EntriesOf([p]) == multiset(p.header.entries) + EntriesOf([]);
    assert p in [p];
  }

  lemma {:induction false} ConsecutiveParts(m: Header, ps: seq<Fragment>, n: nat)
    requires Consecutive(m, ps) && 0 < n < |ps|
    ensures Consecutive(m, ps[..n]) && Consecutive(m, ps[n..]) && ps[..n][n - 1].header.moreFragments
    ensures PayloadOf(ps) == PayloadOf(ps[..n]) + PayloadOf(ps[n..])
  {
    assert ps == ps[..n] + ps[n..];
    AppendPayload(ps[..n], ps[n..]);
  }

  lemma {:induction false} GroupingSums(m: Header, g: Grouping, ps: seq<Fragment>)
    requires |ps| == Leaves(g) && Consecutive(m, ps) && |PayloadOf(ps)| < 0x1_0000_0000
    ensures Reassembled(g, ps).Some? && Sums(m, ps, Reassembled(g, ps).value)
  {
    match g
    case Piece =>
      assert ps == [ps[0]] && PieceOf(m, ps[0]);
      SingleSums(m, ps[0]);
    case Both(left, right) =>
      var n := Leaves(left);
      var a, b := ps[..n], ps[n..];
      assert ps == a + b;
      ConsecutiveParts(m, ps, n);
      GroupingSums(m, left, a);
      GroupingSums(m, right, b);
      JoinSums(m, a, b, Reassembled(left, a).value, Reassembled(right, b).value);
  }

  lemma {:induction false} HeadAndTail(m: Fragment, size: nat)
    requires Legal(m, size)
    ensures PieceOf(m.header, Head(m, size)) && PieceOf(m.header, Tail(m, size))
    ensures multiset(Head(m, size).header.entries) + multiset(Tail(m, size).header.entries) == multiset(m.header.entries)
    ensures m.header.contentFilter == (Head(m, size).header.contentFilter || Tail(m, size).header.contentFilter)
    ensures Head(m, size).header.moreFragments && !Tail(m, size).header.moreFragments
  {
    SplitMakesProgress(m, size);
    CutEntries(m, size);
  }

  lemma {:induction false} CutEntries(m: Fragment, size: nat)
    requires Legal(m, size)
    ensures multiset(Head(m, size).header.entries) + multiset(Tail(m, size).header.entries) == multiset(m.header.entries)
  {
    if size < HeaderSize(m.header) {
      MovedAreAvailable(m.header, size);
      CutKeepsElements(m.header.entries, |m.header.entries| - Moved(m.header, size));
    }
  }

  lemma {:induction false} CutKeepsElements<T>(e: seq<T>, x: nat)
    requires x <= |e|
    ensures multiset(Reverse(e[x..])) + multiset(e[..x]) == multiset(e)
  {
    ReverseKeepsElements(e[x..]);
    assert e[..x] + e[x..] == e;
  }

  /** Together the pieces carry everything m carries. */
  lemma {:induction false} PiecesCarryEverything(m: Fragment, sizes: seq<nat>)
    requires AllLegal(m, sizes)
    ensures PayloadOf(Pieces(m, sizes)) == m.payload && EntriesOf(Pieces(m, sizes)) == multiset(m.header.entries)
    ensures Filtered(Pieces(m, sizes)) == m.header.contentFilter
    decreases |sizes|
  {
    if sizes == [] {
      SingleSums(m.header, m);
    } else {
      var head, tail := Head(m, sizes[0]), Tail(m, sizes[0]);
      SplitMakesProgress(m, sizes[0]);
      HeadAndTail(m, sizes[0]);
      PiecesCarryEverything(tail, sizes[1..]);
      SingleSums(m.header, head);
      AppendPayload([head], Pieces(tail, sizes[1..]));
      AppendEntries([head], Pieces(tail, sizes[1..]));
      AppendFiltered([head], Pieces(tail, sizes[1..]));
    }
  }

  /** Every piece but the last announces another one. */
  lemma {:induction false} PiecesAreConsecutive(m: Fragment, sizes: seq<nat>)
    requires AllLegal(m, sizes)
    ensures Consecutive(m.header, Pieces(m, sizes))
    ensures Pieces(m, sizes)[|sizes|].header.moreFragments == (sizes == [] && m.header.moreFragments)
    decreases |sizes|
  {
    if sizes != [] {
      var head, tail := Head(m, sizes[0]), Tail(m, sizes[0]);
      HeadAndTail(m, sizes[0]);
      PiecesAreConsecutive(tail, sizes[1..]);
      Sooner(m.header, head, tail, Pieces(tail, sizes[1..]));
    }
  }

  /** Every piece but the last fits the size it was cut at. */
  lemma {:induction false} PieceFits(m: Fragment, sizes: seq<nat>, i: nat)
    requires AllLegal(m, sizes) && i < |sizes|
    ensures Size(Pieces(m, sizes)[i]) <= sizes[i]
    decreases |sizes|
  {
    SplitMakesProgress(m, sizes[0]);
    if i > 0 {
      PieceFits(Tail(m, sizes[0]), sizes[1..], i - 1);
    }
  }

  lemma {:induction false} Sooner(m: Header, head: Fragment, tail: Fragment, rest: seq<Fragment>)
    requires PieceOf(m, head) && head.header.moreFragments && PieceOf(m, tail)
    requires Consecutive(tail.header, rest)
    ensures Consecutive(m, [head] + rest)
  {
    forall i | 0 <= i < |rest| ensures PieceOf(m, rest[i]) {
      assert PieceOf(tail.header, rest[i]);
    }
  }

  /** For any sample, any number of cuts at legal sizes and any grouping of adjacent joins, reassembly succeeds and
      gives back the length, the entries as a multiset and every other field; only moreFragments is cleared. */
  lemma {:induction false} ReassemblyRestores(m: Fragment, sizes: seq<nat>, g: Grouping)
    requires AllLegal(m, sizes) && Leaves(g) == |sizes| + 1
    ensures PayloadOf(Pieces(m, sizes)) == m.payload
    ensures var r := Reassembled(g, Pieces(m, sizes));
            && r.Some? && multiset(r.value.entries) == multiset(m.header.entries)
            && r.value == m.header.(entries := r.value.entries, moreFragments := sizes == [] && m.header.moreFragments)
  {
    PiecesCarryEverything(m, sizes);
    PiecesAreConsecutive(m, sizes);
    GroupingSums(m.header, g, Pieces(m, sizes));
    SharedAndOwn(m.header, Reassembled(g, Pieces(m, sizes)).value);
  }

  /** Cutting a fragment that announces another one loses that announcement, so its own neighbour cannot be joined:
      all flags come back exactly when the fragment that was cut was the last one. */
  lemma {:induction false} FlagsRestoredIffLast(m: Fragment, sizes: seq<nat>, g: Grouping, next: Header)
    requires AllLegal(m, sizes) && sizes != [] && Leaves(g) == |sizes| + 1
    ensures var r := Reassembled(g, Pieces(m, sizes));
            && r.Some? && (r.value.moreFragments == m.header.moreFragments <==> !m.header.moreFragments)
            && Join(r.value, next).None?
  {
    ReassemblyRestores(m, sizes, g);
  }

  lemma {:induction false} AnnouncementLost() returns (m: Fragment, size: nat)
    ensures Legal(m, size) && m.header.moreFragments
    ensures Join(Head(m, size).header, Tail(m, size).header) == Some(m.header.(moreFragments := false))
  {
    var id := seq(16, _ => 0);
    var h := Header(0, 0, true, false, false, false, false, false, false, true, false, false,
                    21, 0, 1, 0, 0, 0, 0, id, id, []);
    m, size := Fragment(h, seq(21, _ => 0)), 60;
    JoinUndoesSplit(m, size);
    assert Reverse(h.entries) == h.entries;
  }

  // ----- order of the entries -----

  /** Every piece is joined with all that follow it. */
  function RightNested(n: nat): (g: Grouping)
    ensures Leaves(g) == n + 1
  {
    if n == 0 then Piece else Both(Piece, RightNested(n - 1))
  }

  /** How many entries are left when the payload is first cut. */
  ghost function Turned(m: Fragment, sizes: seq<nat>): (n: nat)
    requires AllLegal(m, sizes)
    ensures n <= |m.header.entries|
    decreases |sizes|
  {
    if sizes == [] then 0
    else if sizes[0] < HeaderSize(m.header) then Turned(Tail(m, sizes[0]), sizes[1..])
    else |m.header.entries|
  }

  /** The first t entries reversed. */
  function TurnedAround(e: seq<Guid>, t: nat): seq<Guid>
    requires t <= |e|
  {
    Reverse(e[..t]) + e[t..]
  }

  lemma {:induction false} ReverseTwice(s: seq<Guid>)
    ensures Reverse(Reverse(s)) == s
  {
  }

  lemma {:induction false} TurnPrefix(e: seq<Guid>, x: nat, t: nat)
    requires t <= x <= |e|
    ensures Reverse(e[..x][..t]) + e[..x][t..] + e[x..] == Reverse(e[..t]) + e[t..]
  {
    assert e[..x][..t] == e[..t] && e[..x][t..] + e[x..] == e[t..];
  }

  lemma {:induction false} EntryCut(m: Fragment, size: nat)
    requires Legal(m, size) && size < HeaderSize(m.header)
    ensures var e, x := m.header.entries, |m.header.entries| - Moved(m.header, size);
      && 0 <= x <= |e| && Head(m, size).header.entries == Reverse(e[x..]) && Tail(m, size).header.entries == e[..x]
      && Head(m, size).header.contentFilter
  {
    MovedAreAvailable(m.header, size);
  }

  lemma {:induction false} JoinedEntries(a: Header, b: Header)
    requires Join(a, b).Some? && a.contentFilter
    ensures Join(a, b).value.entries == b.entries + Reverse(a.entries)
  {
  }

  lemma {:induction false} TurnEntryCut(m: Fragment, size: nat, t: nat, b: Header)
    requires Legal(m, size) && size < HeaderSize(m.header) && t <= |Tail(m, size).header.entries|
    requires Join(Head(m, size).header, b).Some?
    requires b.entries == TurnedAround(Tail(m, size).header.entries, t)
    ensures t <= |m.header.entries| && Join(Head(m, size).header, b).value.entries == TurnedAround(m.header.entries, t)
  {
    EntryCut(m, size);
    JoinedEntries(Head(m, size).header, b);
    var e, x := m.header.entries, |m.header.entries| - Moved(m.header, size);
    ReverseTwice(e[x..]);
    TurnPrefix(e, x, t);
  }

  lemma {:induction false} TurnPayloadCut(m: Fragment, size: nat, b: Header)
    requires Legal(m, size) && size >= HeaderSize(m.header) && b.entries == []
    requires Join(Head(m, size).header, b).Some?
    ensures Join(Head(m, size).header, b).value.entries == TurnedAround(m.header.entries, |m.header.entries|)
  {
    var e := m.header.entries;
    assert e[..|e|] == e && Reverse(e) + e[|e|..] == Reverse(e) == [] + Reverse(e);
  }

  lemma {:induction false} ReassembledFirst(g: Grouping, head: Fragment, rest: seq<Fragment>)
    requires |rest| == Leaves(g) && Reassembled(g, rest).Some?
    ensures Reassembled(Both(Piece, g), [head] + rest) == Join(head.header, Reassembled(g, rest).value)
  {
    var all := [head] + rest;
    assert all[..1] == [head] && all[1..] == rest;
  }

  /** One more cut in front of pieces that were joined to b. */
  lemma {:induction false} OrderStep(m: Fragment, sizes: seq<nat>, b: Header)
    requires AllLegal(m, sizes) && sizes != [] && Join(Head(m, sizes[0]).header, b).Some?
    requires b.entries == TurnedAround(Tail(m, sizes[0]).header.entries, Turned(Tail(m, sizes[0]), sizes[1..]))
    ensures Join(Head(m, sizes[0]).header, b).value.entries == TurnedAround(m.header.entries, Turned(m, sizes))
  {
    if sizes[0] < HeaderSize(m.header) {
      TurnEntryCut(m, sizes[0], Turned(m, sizes), b);
    } else {
      assert Tail(m, sizes[0]).header.entries == [] && b.entries == [];
      TurnPayloadCut(m, sizes[0], b);
    }
  }

  /** Joining every piece with all that follow keeps the order of the entries that were cut off before the payload was,
      and reverses the entries that were still there. */
  lemma {:induction false} RightNestedOrder(m: Fragment, sizes: seq<nat>)
    requires AllLegal(m, sizes)
    ensures var r := Reassembled(RightNested(|sizes|), Pieces(m, sizes));
            r.Some? && r.value.entries == TurnedAround(m.header.entries, Turned(m, sizes))
    decreases |sizes|
  {
    ReassemblyRestores(m, sizes, RightNested(|sizes|));
    if sizes == [] {
      var e := m.header.entries;
      assert Reverse(e[..0]) + e[0..] == e;
    } else {
      var tail, later := Tail(m, sizes[0]), sizes[1..];
      RightNestedOrder(tail, later);
      var b := Reassembled(RightNested(|later|), Pieces(tail, later)).value;
      FirstJoinsRest(m, sizes, tail, later, b);
      OrderStep(m, sizes, b);
    }
  }

  lemma {:induction false} FirstJoinsRest(m: Fragment, sizes: seq<nat>, tail: Fragment, later: seq<nat>, b: Header)
    requires AllLegal(m, sizes) && sizes != [] && tail == Tail(m, sizes[0]) && later == sizes[1..]
    requires Reassembled(RightNested(|later|), Pieces(tail, later)) == Some(b)
    ensures Reassembled(RightNested(|sizes|), Pieces(m, sizes)) == Join(Head(m, sizes[0]).header, b)
  {
    var g, head, rest := RightNested(|later|), Head(m, sizes[0]), Pieces(tail, later);
    assert |sizes| == |later| + 1;
    assert RightNested(|sizes|) == Both(Piece, g) && Pieces(m, sizes) == [head] + rest;
    ReassembledFirst(g, head, rest);
  }

  /** What a packet must hold for a cut to take something off: one entry or, if there is none, one byte of payload. */
  function LeastRoom(h: Header): nat {
    if h.entries == [] then HeaderSize(h) + 1 else Fixed(h) + 4 + 16
  }

  ghost predicate Roomy(m: Fragment, space: nat -> nat) {
    Sound(m) && m.payload != [] && forall i :: LeastRoom(m.header) <= space(i)
  }

  /** A cut at a size that holds LeastRoom is legal, and what is left is smaller and needs no more room. */
  lemma {:induction false} CutAdvances(m: Fragment, size: nat)
    requires Sound(m) && m.payload != [] && LeastRoom(m.header) <= size < Size(m)
    ensures Legal(m, size) && Advances(m, size)
    ensures LeastRoom(Tail(m, size).header) <= LeastRoom(m.header)
  {
    if size < HeaderSize(m.header) { MovedAreAvailable(m.header, size); }
  }

  lemma {:induction false} TailIsRoomy(m: Fragment, space: nat -> nat, i: nat)
    requires Roomy(m, space) && space(i) < Size(m)
    ensures Legal(m, space(i)) && Advances(m, space(i)) && Roomy(Tail(m, space(i)), space)
  {
    CutAdvances(m, space(i));
    SplitMakesProgress(m, space(i));
  }

  /** Where the send loop cuts when space(i) bytes are left in packet i: the tail again and again until it fits. */
  ghost function Cuts(m: Fragment, space: nat -> nat, i: nat): (cuts: seq<nat>)
    requires Roomy(m, space)
    ensures AllLegal(m, cuts)
    decreases |m.header.entries|, |m.payload|
  {
    if Size(m) <= space(i) then []
    else
      TailIsRoomy(m, space, i);
      SplitMakesProgress(m, space(i));
      [space(i)] + Cuts(Tail(m, space(i)), space, i + 1)
  }

  /** The pieces that the send loop makes. */
  ghost function Whole(m: Fragment, space: nat -> nat, i: nat): seq<Fragment>
    requires Roomy(m, space)
  {
    Pieces(m, Cuts(m, space, i))
  }

  /** One turn of the loop. */
  method CutOnce(m: Fragment, space: nat -> nat, i: nat) returns (head: Fragment, rest: Fragment)
    requires Roomy(m, space) && space(i) < Size(m)
    ensures Size(head) <= space(i) && Roomy(rest, space)
    ensures Whole(m, space, i) == [head] + Whole(rest, space, i + 1)
    ensures |rest.header.entries| < |m.header.entries|
            || (|rest.header.entries| == |m.header.entries| && |rest.payload| < |m.payload|)
  {
    TailIsRoomy(m, space, i);
    SplitMakesProgress(m, space(i));
    head, rest := Head(m, space(i)), Tail(m, space(i));
    assert Cuts(m, space, i)[1..] == Cuts(rest, space, i + 1);
  }

  lemma {:induction false} LastCut(m: Fragment, space: nat -> nat, i: nat)
    requires Roomy(m, space) && Size(m) <= space(i)
    ensures Whole(m, space, i) == [m]
  {
  }

  /** Every piece fits the packet it goes into. */
  ghost predicate AllFit(pieces: seq<Fragment>, space: nat -> nat) {
    forall i :: 0 <= i < |pieces| ==> Size(pieces[i]) <= space(i)
  }

  lemma {:induction false} FitsToo(pieces: seq<Fragment>, p: Fragment, space: nat -> nat)
    requires AllFit(pieces, space) && Size(p) <= space(|pieces|)
    ensures AllFit(pieces + [p], space)
  {
  }

  lemma {:induction false} Regrouped(front: seq<Fragment>, p: Fragment, back: seq<Fragment>)
    ensures front + ([p] + back) == front + [p] + back
  {
  }

  /** The send loop ends, and every piece fits the packet it goes into. */
  method FragmentAll(m: Fragment, space: nat -> nat) returns (pieces: seq<Fragment>)
    requires Roomy(m, space)
    ensures AllFit(pieces, space) && pieces == Whole(m, space, 0)
  {
    pieces := [];
    var tail := m;
    while Size(tail) > space(|pieces|)
      invariant Roomy(tail, space)
      invariant AllFit(pieces, space)
      invariant pieces + Whole(tail, space, |pieces|) == Whole(m, space, 0)
      decreases |tail.header.entries|, |tail.payload|
    {
      var head, rest := CutOnce(tail, space, |pieces|);
      Regrouped(pieces, head, Whole(rest, space, |pieces| + 1));
      FitsToo(pieces, head, space);
      pieces, tail := pieces + [head], rest;
    }
    FitsToo(pieces, tail, space);
    assert pieces + [tail] == Whole(m, space, 0) by {
      LastCut(tail, space, |pieces|);
    }
    pieces := pieces + [tail];
  }
}
