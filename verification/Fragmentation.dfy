/** Fragments of one sample (dds/DCPS/DataSampleHeader.cpp): split, split_payload and join. */
module Fragmentation {
  import opened Basics
  import opened HeaderCodec
  import opened HeaderReader

  /** A header and the payload that follows it. */
  datatype Fragment = Fragment(header: Header, payload: seq<Byte>)

  function Reverse<T>(s: seq<T>): (r: seq<T>)
    ensures |r| == |s|
  {
    seq(|s|, i requires 0 <= i < |s| => s[|s| - 1 - i])
  }

  lemma {:induction false} ReverseKeepsElements<T>(s: seq<T>)
    ensures multiset(Reverse(s)) == multiset(s)
  {
    if s != [] {
      var init, last := s[..|s| - 1], s[|s| - 1];
      assert Reverse(s) == [last] + Reverse(init);
      assert s == init + [last];
      ReverseKeepsElements(init);
    }
  }

  // ----- lengths -----

  function Fixed(h: Header): nat {
    40 + (if h.lifespanDuration then 8 else 0) + (if h.groupCoherent then 16 else 0)
  }

  function HeaderSize(h: Header): nat {
    Fixed(h) + (if h.contentFilter then 4 + 16 * |h.entries| else 0)
  }

  function Size(m: Fragment): nat {
    HeaderSize(m.header) + |m.payload|
  }

  lemma {:induction false} SizeIsEncoded(m: Fragment)
    requires |m.header.entries| < 0x1_0000_0000
    ensures Size(m) == |Encode(m.header) + m.payload|
  {
    EncodingIsHeld(m.header, m.payload);
  }

  /** The header describes its payload, and has no entries that it does not send. */
  predicate Sound(m: Fragment) {
    && |m.payload| < 0x1_0000_0000 && m.header.messageLength == |m.payload|
    && |m.header.entries| < 0x1_0000_0000 && (!m.header.contentFilter ==> m.header.entries == [])
  }

  /** Where split may be asked to cut: before the end and, inside the entries, after their number. */
  predicate Legal(m: Fragment, size: nat) {
    Sound(m) && m.payload != [] && size < Size(m) && (size < HeaderSize(m.header) ==> Fixed(m.header) + 4 <= size)
  }

  /** The cut takes something off: inside the entries there is room for one of them, and otherwise there are entries or
      a byte of payload in the head. */
  predicate Advances(m: Fragment, size: nat) {
    if size < HeaderSize(m.header) then Fixed(m.header) + 4 + 16 <= size
    else m.header.entries != [] || size > HeaderSize(m.header)
  }

  // ----- split -----

  /** How many entries fit in a head of size bytes. */
  function Moved(h: Header, size: nat): nat
    requires Fixed(h) + 4 <= size
  {
    (size - Fixed(h) - 4) / 16
  }

  lemma {:induction false} MovedAreAvailable(h: Header, size: nat)
    requires Fixed(h) + 4 <= size < HeaderSize(h)
    ensures h.contentFilter && Moved(h, size) < |h.entries| && (Moved(h, size) > 0 <==> Fixed(h) + 4 + 16 <= size)
    ensures Fixed(h) + 4 + 16 * Moved(h, size) <= size < Fixed(h) + 4 + 16 * (Moved(h, size) + 1)
  {
  }

  function Head(m: Fragment, size: nat): Fragment
    requires Legal(m, size)
  {
    var h := m.header;
    if size < HeaderSize(h) then
      MovedAreAvailable(h, size);
      Fragment(h.(moreFragments := true, messageLength := 0,
                  entries := Reverse(h.entries[|h.entries| - Moved(h, size)..])), [])
    else
      var n := size - HeaderSize(h);
      Fragment(h.(moreFragments := true, messageLength := n), m.payload[..n])
  }

  function Tail(m: Fragment, size: nat): Fragment
    requires Legal(m, size)
  {
    var h := m.header;
    if size < HeaderSize(h) then
      MovedAreAvailable(h, size);
      Fragment(h.(moreFragments := false, messageLength := |m.payload|,
                  entries := h.entries[..|h.entries| - Moved(h, size)]), m.payload)
    else
      var n := size - HeaderSize(h);
      Fragment(h.(moreFragments := false, contentFilter := false, messageLength := |m.payload| - n, entries := []),
               m.payload[n..])
  }

  /** The head fits, both halves are sound and nothing of the payload is lost.  The tail has fewer entries, or as many
      entries and less payload, exactly when the cut takes something off: splitting the tail again and again then comes
      to an end. */
  lemma {:induction false} SplitMakesProgress(m: Fragment, size: nat)
    requires Legal(m, size)
    ensures Size(Head(m, size)) <= size && Sound(Head(m, size)) && Sound(Tail(m, size))
    ensures Head(m, size).payload + Tail(m, size).payload == m.payload && Tail(m, size).payload != []
    ensures Fixed(Tail(m, size).header) == Fixed(m.header)
    ensures var before, after := |m.header.entries|, |Tail(m, size).header.entries|;
            after < before || (after == before && |Tail(m, size).payload| < |m.payload|) <==> Advances(m, size)
  {
    if size < HeaderSize(m.header) {
      MovedAreAvailable(m.header, size);
    }
  }

  lemma {:induction false} BytesShift(a: Chain, b: Chain, k: nat)
    requires k <= |b|
    ensures Bytes(a + b, |a| + k) == Bytes(b, k)
    decreases |b| - k
  {
    if k < |b| {
      BytesShift(a, b, k + 1);
    }
  }

  lemma {:induction false} BytesConcat(a: Chain, b: Chain, i: nat)
    requires i <= |a|
    ensures Bytes(a + b, i) == Bytes(a, i) + Bytes(b, 0)
    decreases |a| - i
  {
    if i == |a| {
      BytesShift(a, b, 0);
    } else {
      BytesConcat(a, b, i + 1);
    }
  }

  /** A chain is its blocks before i, block i and its blocks after i. */
  lemma {:induction false} BytesAround(chain: Chain, i: nat)
    requires i < |chain|
    ensures Bytes(chain, 0) == Bytes(chain[..i], 0) + (chain[i] + Bytes(chain[i + 1..], 0))
    ensures Bytes(chain, i) == chain[i] + Bytes(chain[i + 1..], 0)
    ensures Bytes(chain[..i + 1], 0) == Bytes(chain[..i], 0) + chain[i]
  {
    var front, block, back := chain[..i], [chain[i]], chain[i + 1..];
    assert chain == front + (block + back) && chain[..i + 1] == front + block;
    BytesConcat(front, block + back, 0);
    BytesConcat(block, back, 0);
    BytesConcat(front, block, 0);
    assert Bytes(block, 0) == chain[i] + Bytes(block, 1);
    BytesShift(front, block + back, 0);
  }

  lemma {:induction false} NextBlock(chain: Chain, i: nat)
    requires i < |chain| && |chain[i]| < |Bytes(chain, i)|
    ensures i + 1 < |chain| && Bytes(chain, i) == chain[i] + Bytes(chain, i + 1)
    ensures Bytes(chain[..i + 1], 0) + Bytes(chain, i + 1) == Bytes(chain[..i], 0) + Bytes(chain, i)
    ensures |Bytes(chain[..i + 1], 0)| == |Bytes(chain[..i], 0)| + |chain[i]|
  {
    BytesAround(chain, i);
  }

  lemma {:induction false} Cut(a: seq<Byte>, b: seq<Byte>, c: seq<Byte>, k: nat)
    requires k <= |b|
    ensures (a + (b + c))[..|a| + k] == a + b[..k] && (a + (b + c))[|a| + k..] == b[k..] + c
  {
  }

  /** The block in which the first size bytes end, and how many of them are in it. */
  method FindBlock(orig: Chain, size: nat) returns (i: nat, remain: nat)
    requires size <= |Bytes(orig, 0)| && orig != []
    ensures i < |orig| && remain <= |orig[i]| && |Bytes(orig[..i], 0)| + remain == size
  {
    i, remain := 0, size;
    while remain > |orig[i]|
      invariant i < |orig| && remain <= |Bytes(orig, i)| && |Bytes(orig[..i], 0)| + remain == size
      decreases |orig| - i
    {
      NextBlock(orig, i);
      remain, i := remain - |orig[i]|, i + 1;
    }
  }

  /** split_payload: the chain cut after size bytes. */
  method SplitPayload(orig: Chain, size: nat) returns (head: Chain, tail: Chain)
    requires size <= |Bytes(orig, 0)| && orig != []
    ensures Bytes(head, 0) == Bytes(orig, 0)[..size] && Bytes(tail, 0) == Bytes(orig, 0)[size..]
  {
    var i, remain := FindBlock(orig, size);
    head, tail := CutBlock(orig, i, remain);
    BytesAround(orig, i);
    Cut(Bytes(orig[..i], 0), orig[i], Bytes(orig[i + 1..], 0), remain);
  }

  /** Block i keeps its first remain bytes and ends the head; the tail starts with the others, if any. */
  method CutBlock(orig: Chain, i: nat, remain: nat) returns (head: Chain, tail: Chain)
    requires i < |orig| && remain <= |orig[i]|
    ensures Bytes(head, 0) == Bytes(orig[..i], 0) + orig[i][..remain]
    ensures Bytes(tail, 0) == orig[i][remain..] + Bytes(orig[i + 1..], 0)
  {
    var frag := orig[i];
    head := orig[..i] + [frag[..remain]];
    BytesAround(head, i);
    assert head[..i] == orig[..i] && head[i + 1..] == [];
    if remain == |frag| {
      tail := orig[i + 1..];
    } else {
      tail := [frag[remain..]] + orig[i + 1..];
      BytesAround(tail, 0);
      assert tail[1..] == orig[i + 1..];
    }
  }

  /** Entries leave the list from its end, so the head has them in reverse. */
  method TakeEntries(entries: seq<Guid>, n: nat) returns (taken: seq<Guid>, left: seq<Guid>)
    requires n <= |entries|
    ensures taken == Reverse(entries[|entries| - n..]) && left == entries[..|entries| - n]
  {
    taken, left := [], entries;
    var i, x := 0, |entries|;
    while i < n
      invariant 0 <= i <= n && x == |entries| - i
      invariant taken == Reverse(entries[x..]) && left == entries[..x]
    {
      x := x - 1;
      taken := taken + [entries[x]];
      left := left[..x];
      assert entries[x..] == [entries[x]] + entries[x + 1..];
      i := i + 1;
    }
  }

  /** split: the header as it was read and the chain that was left after reading it. */
  method Split(read: Header, orig: Chain, size: nat) returns (head: Header, headPayload: Chain, tail: Header, tailPayload: Chain)
    requires Legal(Fragment(read, Bytes(orig, 0)), size)
    ensures Fragment(head, Bytes(headPayload, 0)) == Head(Fragment(read, Bytes(orig, 0)), size)
    ensures Fragment(tail, Bytes(tailPayload, 0)) == Tail(Fragment(read, Bytes(orig, 0)), size)
  {
    var payload := SkipEmpty(orig);
    if size < HeaderSize(read) {
      MovedAreAvailable(read, size);
      head, tail := SplitEntries(read, size, |Bytes(payload, 0)|);
      headPayload, tailPayload := [], payload;
    } else {
      headPayload, tailPayload := SplitPayload(payload, size - HeaderSize(read));
      head := read.(moreFragments := true, messageLength := |Bytes(headPayload, 0)|);
      tail := read.(moreFragments := false, contentFilter := false, messageLength := |Bytes(tailPayload, 0)|, entries := []);
    }
  }

  /** As many entries as fit go into the head; the tail keeps the others. */
  method SplitEntries(read: Header, size: nat, length: U32) returns (head: Header, tail: Header)
    requires Fixed(read) + 4 <= size < HeaderSize(read)
    ensures var x := |read.entries| - Moved(read, size);
            && head == read.(moreFragments := true, messageLength := 0, entries := Reverse(read.entries[x..]))
            && tail == read.(moreFragments := false, messageLength := length, entries := read.entries[..x])
  {
    MovedAreAvailable(read, size);
    var avail := size - Fixed(read) - 4;
    var taken, left := TakeEntries(read.entries, avail / 16);
    head := read.(moreFragments := true, messageLength := 0, entries := taken);
    tail := read.(moreFragments := false, contentFilter := |left| > 0, messageLength := length, entries := left);
  }

  /** Reading the header left empty blocks in front of the payload. */
  method SkipEmpty(chain: Chain) returns (payload: Chain)
    requires Bytes(chain, 0) != []
    ensures Bytes(payload, 0) == Bytes(chain, 0) && payload != [] && payload[0] != []
  {
    payload := chain;
    while payload[0] == []
      invariant payload != [] && Bytes(payload, 0) == Bytes(chain, 0)
      decreases |payload|
    {
      BytesAround(payload, 0);
      payload := payload[1..];
    }
  }

  // ----- join -----

  /** Addition of ACE_UINT32 values. */
  function Sum(a: U32, b: U32): U32 {
    if a + b < 0x1_0000_0000 then a + b else a + b - 0x1_0000_0000
  }

  function Join(first: Header, second: Header): Option<Header> {
    if !first.moreFragments || first.sequenceHigh != second.sequenceHigh || first.sequenceLow != second.sequenceLow then None
    else Some(second.(messageLength := Sum(second.messageLength, first.messageLength),
                      contentFilter := first.contentFilter || second.contentFilter,
                      entries := if first.contentFilter then second.entries + Reverse(first.entries) else second.entries))
  }

  /** join: first's entries are appended from the last to the first. */
  method JoinHeaders(first: Header, second: Header) returns (result: Option<Header>)
    ensures result == Join(first, second)
  {
    if !first.moreFragments || first.sequenceHigh != second.sequenceHigh || first.sequenceLow != second.sequenceLow {
      return None;
    }
    var r := second.(messageLength := Sum(second.messageLength, first.messageLength));
    if first.contentFilter {
      var entries, i := second.entries, |first.entries|;
      while i > 0
        invariant 0 <= i <= |first.entries| && entries == second.entries + Reverse(first.entries[i..])
      {
        i := i - 1;
        assert first.entries[i..] == [first.entries[i]] + first.entries[i + 1..];
        entries := entries + [first.entries[i]];
      }
      assert first.entries[0..] == first.entries;
      r := r.(contentFilter := true, entries := entries);
    }
    return Some(r);
  }

  lemma {:induction false} JoinUndoesEntryCut(m: Fragment, size: nat)
    requires Legal(m, size) && size < HeaderSize(m.header)
    ensures Join(Head(m, size).header, Tail(m, size).header) == Some(m.header.(moreFragments := false))
  {
    MovedAreAvailable(m.header, size);
    var e, x := m.header.entries, |m.header.entries| - Moved(m.header, size);
    assert e[..x] + Reverse(Reverse(e[x..])) == e;
  }

  lemma {:induction false} JoinUndoesPayloadCut(m: Fragment, size: nat)
    requires Legal(m, size) && size >= HeaderSize(m.header)
    ensures Join(Head(m, size).header, Tail(m, size).header)
            == Some(m.header.(moreFragments := false, entries := Reverse(m.header.entries)))
  {
    var head, tail, e := Head(m, size).header, Tail(m, size).header, m.header.entries;
    assert tail.messageLength + head.messageLength == m.header.messageLength;
    if m.header.contentFilter {
      assert tail.entries + Reverse(head.entries) == Reverse(e);
    } else {
      assert Reverse(e) == [];
    }
  }

  /** One cut and one join: the length, the flags other than moreFragments and every other field come back.
      A cut inside the entries keeps their order and a cut inside the payload reverses it. */
  lemma {:induction false} JoinUndoesSplit(m: Fragment, size: nat)
    requires Legal(m, size)
    ensures var e := m.header.entries;
            Join(Head(m, size).header, Tail(m, size).header)
            == Some(m.header.(moreFragments := false, entries := if size < HeaderSize(m.header) then e else Reverse(e)))
  {
    if size < HeaderSize(m.header) {
      JoinUndoesEntryCut(m, size);
    } else {
      JoinUndoesPayloadCut(m, size);
    }
  }
}
