/** DataWriterImpl::send_control_customized: one REQUEST_ACK per expected sequence number and
    data link, each filtered out for the targets that need another number. */
module AckRequests {
  import opened AckProtocol

  /** A data link: every remote reader reached over it, and those of them that are associated
      with this writer. */
  datatype DataLink = DataLink(targets: set<ReaderId>, subscribed: set<ReaderId>)

  /** A REQUEST_ACK as sent on one link: its number and its content filter entries. */
  datatype Sent = Sent(sequence: int, filtered: set<ReaderId>)

  predicate Passes(m: Sent, r: ReaderId) {
    r !in m.filtered
  }

  /** Exactly one message gets through to r, and it carries number n. */
  ghost predicate GetsExactly(messages: seq<Sent>, r: ReaderId, n: int) {
    exists i :: 0 <= i < |messages| && Passes(messages[i], r) && messages[i].sequence == n
      && forall j :: 0 <= j < |messages| && Passes(messages[j], r) ==> j == i
  }

  ghost predicate NoRepeats(s: seq<ReaderId>) {
    forall i, j :: 0 <= i < j < |s| ==> s[i] != s[j]
  }

  ghost function Elements(s: seq<ReaderId>): set<ReaderId> {
    set x | x in s
  }

  /** The groups partition the targets dealt with so far and put each under the number the
      token expects of it. */
  ghost predicate Partition(gsm: map<int, seq<ReaderId>>, placed: set<ReaderId>, t: Token) {
    && (forall n :: n in gsm ==> NoRepeats(gsm[n]) && gsm[n] != [])
    && (forall n, r :: n in gsm && r in gsm[n] ==> r in placed && Expected(t, r) == n)
    && (forall r :: r in placed ==> Expected(t, r) in gsm && r in gsm[Expected(t, r)])
  }

  function Push(gsm: map<int, seq<ReaderId>>, n: int, r: ReaderId): map<int, seq<ReaderId>> {
    gsm[n := (if n in gsm then gsm[n] else []) + [r]]
  }

  lemma {:induction false} PushKeepsPartition(gsm: map<int, seq<ReaderId>>, placed: set<ReaderId>, t: Token, r: ReaderId)
    requires Partition(gsm, placed, t) && r !in placed
    ensures Partition(Push(gsm, Expected(t, r), r), placed + {r}, t)
  {
  }

  /** A list without repeats inside a set of the same size is the whole set. */
  lemma {:induction false} FullGroup(group: seq<ReaderId>, targets: set<ReaderId>)
    requires NoRepeats(group) && Elements(group) <= targets
    ensures |group| <= |targets|
    ensures |group| == |targets| <==> Elements(group) == targets
  {
    SizeOfElements(group);
    if Elements(group) != targets { assert |targets - Elements(group)| > 0; }
    assert targets == Elements(group) + (targets - Elements(group));
  }

  lemma {:induction false} SizeOfElements(group: seq<ReaderId>)
    requires NoRepeats(group)
    ensures |Elements(group)| == |group|
  {
    if group != [] {
      var n := |group| - 1;
      SizeOfElements(group[..n]);
      assert Elements(group) == Elements(group[..n]) + {group[n]};
    }
  }

  /** target_intersection. */
  method TargetIntersection(link: DataLink, customized: seq<ReaderId>) returns (intersect: seq<ReaderId>)
    requires NoRepeats(customized)
    ensures NoRepeats(intersect)
    ensures forall r :: r in intersect <==> r in customized && r in link.subscribed
  {
    intersect := [];
    for i := 0 to |customized|
      invariant NoRepeats(intersect)
      invariant forall r :: r in intersect <==> r in customized[..i] && r in link.subscribed
    {
      assert customized[..i + 1] == customized[..i] + [customized[i]];
      if customized[i] in link.subscribed {
        intersect := intersect + [customized[i]];
      }
    }
    assert customized[..|customized|] == customized;
  }

  /** Lines 996-1011: the groups of one link. */
  method GroupTargets(link: DataLink, intersect: seq<ReaderId>, t: Token) returns (gsm: map<int, seq<ReaderId>>)
    requires NoRepeats(intersect)
    requires forall r :: r in intersect ==> r in t.custom && r in link.targets
    requires forall r :: r in link.targets && r in t.custom ==> r in intersect
    ensures Partition(gsm, link.targets, t)
  {
    gsm := map[];
    var rest := link.targets;
    for i := 0 to |intersect|
      invariant rest == link.targets - Elements(intersect[..i])
      invariant Partition(gsm, Elements(intersect[..i]), t)
    {
      assert Elements(intersect[..i + 1]) == Elements(intersect[..i]) + {intersect[i]};
      PushKeepsPartition(gsm, Elements(intersect[..i]), t, intersect[i]);
      gsm := Push(gsm, t.custom[intersect[i]], intersect[i]);
      rest := rest - {intersect[i]};
    }
    assert intersect[..|intersect|] == intersect;
    ghost var placed := Elements(intersect);
    while rest != {}
      invariant rest !! placed && rest + placed == link.targets
      invariant forall r :: r in rest ==> r !in t.custom
      invariant Partition(gsm, placed, t)
      decreases rest
    {
      var r :| r in rest;
      PushKeepsPartition(gsm, placed, t, r);
      gsm := Push(gsm, t.sequence, r);
      placed := placed + {r};
      rest := rest - {r};
    }
  }

  /** The messages one link carries: customized, or the original one unfiltered. */
  method SendOnLink(link: DataLink, customized: seq<ReaderId>, t: Token) returns (messages: seq<Sent>)
    requires NoRepeats(customized) && Elements(customized) == t.custom.Keys
    requires link.subscribed <= link.targets
    requires forall r :: r in link.targets && r in t.custom ==> r in link.subscribed
    ensures forall r :: r in link.targets ==> GetsExactly(messages, r, Expected(t, r))
  {
    var intersect := TargetIntersection(link, customized);
    if intersect == [] {
      messages := [Sent(t.sequence, {})];
      assert Passes(messages[0], 0);
      forall r | r in link.targets ensures GetsExactly(messages, r, Expected(t, r)) {
        assert r !in intersect;
        assert Passes(messages[0], r);
      }
      return;
    }
    assert forall r :: r in t.custom ==> r in Elements(customized);
    assert forall r :: r in customized ==> r in Elements(customized);
    var gsm := GroupTargets(link, intersect, t);
    messages := [];
    var todo: set<int> := gsm.Keys;
    while todo != {}
      invariant todo <= gsm.Keys
      invariant forall r :: r in link.targets && Expected(t, r) !in todo ==> GetsExactly(messages, r, Expected(t, r))
      invariant forall r, j :: r in link.targets && Expected(t, r) in todo && 0 <= j < |messages| ==> !Passes(messages[j], r)
      decreases todo
    {
      var n := NextGroup(todo);
      var filtered := FilterOthers(link, gsm[n], n, t);
      ghost var before := messages;
      messages := messages + [Sent(n, filtered)];
      todo := todo - {n};
      forall r | r in link.targets && Expected(t, r) !in todo ensures GetsExactly(messages, r, Expected(t, r)) {
        GetsThrough(before, Sent(n, filtered), r, Expected(t, r));
      }
    }
  }

  /** The order in which the groups are visited does not matter. */
  method NextGroup(todo: set<int>) returns (n: int)
    requires todo != {}
    ensures n in todo
  {
    assert (forall n :: n !in todo) ==> todo == {};
    n :| n in todo;
  }

  /** Appending one more message. */
  lemma {:induction false} GetsThrough(before: seq<Sent>, m: Sent, r: ReaderId, n: int)
    requires if m.sequence == n then Passes(m, r) && forall j :: 0 <= j < |before| ==> !Passes(before[j], r)
             else !Passes(m, r) && GetsExactly(before, r, n)
    ensures GetsExactly(before + [m], r, n)
  {
    var after := before + [m];
    if m.sequence == n {
      assert after[|before|] == m;
      assert forall j :: 0 <= j < |after| && Passes(after[j], r) ==> j == |before|;
    } else {
      var i :| 0 <= i < |before| && Passes(before[i], r) && before[i].sequence == n
        && forall j :: 0 <= j < |before| && Passes(before[j], r) ==> j == i;
      assert after[i] == before[i];
      assert forall j :: 0 <= j < |after| && Passes(after[j], r) ==> j == i;
    }
  }

  /** Lines 1035-1054: filter out every target of the link that is not in the group. */
  method FilterOthers(link: DataLink, group: seq<ReaderId>, ghost n: int, ghost t: Token) returns (filtered: set<ReaderId>)
    requires NoRepeats(group) && Elements(group) <= link.targets
    requires forall r :: r in link.targets ==> (r in group <==> Expected(t, r) == n)
    ensures forall r :: r in link.targets ==> (r !in filtered <==> Expected(t, r) == n)
  {
    FullGroup(group, link.targets);
    if |link.targets| == |group| {
      assert forall r :: r in link.targets ==> r in Elements(group);
      return {};
    }
    filtered := link.targets;
    for i := 0 to |group|
      invariant filtered == link.targets - Elements(group[..i])
    {
      assert Elements(group[..i + 1]) == Elements(group[..i]) + {group[i]};
      filtered := filtered - {group[i]};
    }
    assert group[..|group|] == group;
  }

  /** send_control_customized over all links: every target of every link gets exactly one
      REQUEST_ACK on that link, with the number the token expects of it. */
  method SendControlCustomized(links: seq<DataLink>, customized: seq<ReaderId>, t: Token) returns (sent: seq<seq<Sent>>)
    requires NoRepeats(customized) && Elements(customized) == t.custom.Keys
    requires forall i :: 0 <= i < |links| ==> links[i].subscribed <= links[i].targets
    requires forall i, r :: 0 <= i < |links| && r in links[i].targets && r in t.custom ==> r in links[i].subscribed
    ensures |sent| == |links|
    ensures forall i, r :: 0 <= i < |links| && r in links[i].targets ==> GetsExactly(sent[i], r, Expected(t, r))
  {
    sent := [];
    for k := 0 to |links|
      invariant |sent| == k
      invariant forall i, r :: 0 <= i < k && r in links[i].targets ==> GetsExactly(sent[i], r, Expected(t, r))
    {
      var messages := SendOnLink(links[k], customized, t);
      sent := sent + [messages];
    }
  }
}
