/** Runs in which a wait for acknowledgements is over before the reader got its messages. */
module AckFailures {
  import opened SequenceNumbers
  import opened RangeLists
  import opened AckProtocol

  /** A run and one more step. */
  lemma {:induction false} RunGrows(states: seq<State>, events: seq<Event>, e: Event, s': State)
    returns (longer: seq<State>, more: seq<Event>)
    requires IsRun(states, events) && Next(states[|events|], e, s')
    ensures longer == states + [s'] && more == events + [e] && IsRun(longer, more)
  {
    longer, more := states + [s'], events + [e];
  }

  /** The writer with reader 0 alone. */
  function Writer(n: int, readers: set<ReaderId>, acked: map<ReaderId, int>): WriterState {
    WriterState(n, map[0 := n], readers, acked)
  }

  /** Two samples and a request for their acknowledgement. */
  function Sent(): seq<Message> {
    [Data(1, false), Data(2, false), RequestAck(2)]
  }

  /** The link after all of that was delivered and the request was answered. */
  ghost function Answering(replies: seq<int>): Link {
    Link(true, Sent(), 3, ReaderSide(true, Span(1, 2)), replies, UNKNOWN)
  }

  lemma {:induction false} OneWrite(s: State, s': State)
    requires s.w.sequence < MAX_VALUE && s.links.Keys == {0} && s.links[0].up && s.w.expected == map[0 := s.w.sequence]
    requires var n := Following(s.w.sequence);
      s' == s.(w := s.w.(sequence := n, expected := map[0 := n]),
               links := map[0 := s.links[0].(log := s.links[0].log + [Data(n, false)])])
    requires s.former == []
    ensures Next(s, Write({}), s')
  {
    var m := Data(Following(s.w.sequence), false);
    assert !NeedsRepair(s.w);
    assert Written(s.w, {}) == s'.w;
    assert SendData(s.links, {}, m) == s'.links;
    assert DataToFormer([], m) == [];
  }

  /** The writer and a link that is up and carries log. */
  function Under(n: int, log: seq<Message>): State {
    State(Writer(n, {}, map[]), map[0 := Link(true, log, 0, ReaderSide(false, iset{}), [], UNKNOWN)], {}, [])
  }

  lemma {:induction false} Linked() returns (states: seq<State>, events: seq<Event>)
    ensures IsRun(states, events) && |events| == 2 && states[2] == Under(UNKNOWN, [])
  {
    var s1 := State(Writer(UNKNOWN, {}, map[]), map[0 := NewLink(UNKNOWN)], {}, []);
    states, events := RunGrows([START], [], Associate(0), s1);
    states, events := RunGrows(states, events, LinkUp(0), Under(UNKNOWN, []));
  }

  /** The reader is associated, two samples are written and their acknowledgement is requested. */
  lemma {:induction false} Requested() returns (states: seq<State>, events: seq<Event>)
    ensures IsRun(states, events) && |events| == 5 && states[4].w == Writer(2, {}, map[])
    ensures states[5] == Under(2, Sent())
  {
    states, events := Linked();
    var one, two := [Data(1, false)], [Data(1, false), Data(2, false)];
    assert [] + [Data(1, false)] == one && one + [Data(2, false)] == two && two + [RequestAck(2)] == Sent();
    OneWrite(Under(UNKNOWN, []), Under(1, one));
    OneWrite(Under(1, one), Under(2, two));
    OneRequest(Under(2, two), Under(2, Sent()));
    states, events := RunGrows(states, events, Write({}), Under(1, one));
    states, events := RunGrows(states, events, Write({}), Under(2, two));
    states, events := RunGrows(states, events, Request, Under(2, Sent()));
  }

  lemma {:induction false} OneRequest(s: State, s': State)
    requires s.links.Keys == {0} && s.links[0].up && s.w.expected == map[0 := s.w.sequence] && s.former == []
    requires s' == s.(links := map[0 := s.links[0].(log := s.links[0].log + [RequestAck(s.w.sequence)])])
    ensures Next(s, Request, s')
  {
    var t := IssueToken(s.w);
    assert t.custom == map[];
    assert SendRequests(s.links, t) == s'.links;
    assert RequestsToFormer([], t) == [];
  }

  /** Then everything is delivered, and the reader answers the request. */
  lemma {:induction false} ReaderAnswers() returns (states: seq<State>, events: seq<Event>)
    ensures IsRun(states, events) && |events| == 8 && states[4].w == Writer(2, {}, map[])
    ensures states[8] == State(Writer(2, {}, map[]), map[0 := Answering([2])], {}, [])
  {
    states, events := Requested();
    var s5 := states[5];
    var side := ReaderSide(true, Span(1, 1));
    var s6 := s5.(links := map[0 := Link(true, Sent(), 1, side, [], UNKNOWN)]);
    var s7 := s5.(links := map[0 := Answering([]).(delivered := 2)]);
    var s8 := s5.(links := map[0 := Answering([2])]);
    assert Delivered(s5.links[0], false) == s6.links[0];
    assert Span(1, 1) + iset{2} == Span(1, 2);
    assert Delivered(s6.links[0], false) == s7.links[0];
    assert s7.links[0].log[2] == RequestAck(2) && ShouldAck(s7.links[0], s7.links[0].side);
    assert Delivered(s7.links[0], true) == s8.links[0];
    states, events := RunGrows(states, events, Deliver(0, false), s6);
    states, events := RunGrows(states, events, Deliver(0, false), s7);
    states, events := RunGrows(states, events, Deliver(0, true), s8);
  }

  /** The reader comes back: nothing was sent to it, and the record of its former association stands. */
  ghost predicate BackWithRecord(states: seq<State>, events: seq<Event>, k: nat) {
    && IsRun(states, events) && |events| == k && k > 4
    && (var t := IssueToken(states[4].w); Expected(t, 0) == 2 && AllAcked(states[k].w, t))
    && 0 in states[k].w.readers && Acked(states[k].w, 0) == 2
    && 0 in states[k].links && states[k].links[0].log == [] && Outdated(states, events, k, 0)
  }

  /** From the removal on: the link goes down, the reader is associated again and the association completed. */
  lemma {:induction false} ComesBack(states: seq<State>, events: seq<Event>, i: nat, l: Link)
    returns (longer: seq<State>, more: seq<Event>)
    requires IsRun(states, events) && |events| > i && |events| > 4 && states[4].w == Writer(2, {}, map[])
    requires states[|events|] == State(WriterState(2, map[], {}, map[0 := 2]), map[], {0}, [Former(0, l)])
    requires LeftBehindAt(states, events, |events|, 0, i)
    ensures BackWithRecord(longer, more, |events| + 3) && more == events + [Disassociate(0), Associate(0), AssociationComplete(0)]
  {
    var k, s := |events|, states[|events|];
    var s1 := s.(former := [Former(0, l.(up := false))]);
    var s2 := s1.(w := WriterState(2, map[0 := UNKNOWN], {}, map[0 := 2]), links := map[0 := NewLink(2)]);
    var s3 := s2.(w := WriterState(2, map[0 := UNKNOWN], {0}, map[0 := 2]));
    assert Down(s.former, 0) == s1.former;
    longer, more := RunGrows(states, events, Disassociate(0), s1);
    longer, more := RunGrows(longer, more, Associate(0), s2);
    longer, more := RunGrows(longer, more, AssociationComplete(0), s3);
    assert forall j :: 0 <= j <= k ==> longer[j] == states[j];
    assert forall j :: 0 <= j < k ==> more[j] == events[j];
    assert LeftBehindAt(longer, more, k + 3, 0, i);
    assert IssueToken(states[4].w).custom == map[];
  }

  /** A reader that answered before its association was complete is removed and comes back.  The wait for the token of
      that time is then over although nothing was sent to the reader since: the removal cleared nothing. */
  lemma {:induction false} StaleAckStandsIn() returns (states: seq<State>, events: seq<Event>)
    ensures BackWithRecord(states, events, 13)
    ensures events[8..] == [DeliverAck(0), Remove(0), Disassociate(0), Associate(0), AssociationComplete(0)]
  {
    states, events := ReaderAnswers();
    var s9 := State(Writer(2, {}, map[0 := 2]), map[0 := Answering([])], {}, []);
    var s10 := State(WriterState(2, map[], {}, map[0 := 2]), map[], {0}, [Former(0, Answering([]))]);
    assert [2][1..] == [];
    assert AckDelivered(states[8].w, 0, 2) == s9.w;
    states, events := RunGrows(states, events, DeliverAck(0), s9);
    assert Disassociated(s9.w, 0) == s10.w && s9.links - {0} == map[] && [] + [Former(0, Answering([]))] == s10.former;
    states, events := RunGrows(states, events, Remove(0), s10);
    assert LeftBehindAt(states, events, 10, 0, 9);
    states, events := ComesBack(states, events, 9, Answering([]));
  }

  /** A reader of a complete association is removed while its answer is under way.  The answer arrives, is recorded, and
      stands when the reader comes back. */
  lemma {:induction false} LateAckStandsIn() returns (states: seq<State>, events: seq<Event>)
    ensures BackWithRecord(states, events, 14)
    ensures events[8..] == [AssociationComplete(0), Remove(0), LateAck(0), Disassociate(0), Associate(0), AssociationComplete(0)]
  {
    states, events := ReaderAnswers();
    var s9 := State(Writer(2, {0}, map[]), map[0 := Answering([2])], {}, []);
    var s10 := State(WriterState(2, map[], {}, map[]), map[], {}, [Former(0, Answering([2]))]);
    var s11 := State(WriterState(2, map[], {}, map[0 := 2]), map[], {0}, [Former(0, Answering([]))]);
    states, events := RunGrows(states, events, AssociationComplete(0), s9);
    assert Disassociated(s9.w, 0) == s10.w && s9.links - {0} == map[] && [] + [Former(0, Answering([2]))] == s10.former;
    states, events := RunGrows(states, events, Remove(0), s10);
    assert [2][1..] == [] && AckDelivered(s10.w, 0, 2) == s11.w;
    states, events := RunGrows(states, events, LateAck(0), s11);
    assert LeftBehindAt(states, events, 11, 0, 10);
    states, events := ComesBack(states, events, 10, Answering([]));
  }
}
