/** The sequence and acknowledgement protocol between one DataWriterImpl and its readers. */
module AckProtocol {
  import opened SequenceNumbers
  import opened RangeLists

  // Content filtering with the sequence_repair_ bit, per-reader expected sequences, REQUEST_ACK
  // and SAMPLE_ACK messages, and wait_for_ack_responses.  Messages to a reader travel in order
  // and without loss once its link is up; everything else is interleaved freely.

  type ReaderId = nat

  /** A sample or sequenced control message, or a REQUEST_ACK. */
  datatype Message = Data(seq_: int, repair: bool) | RequestAck(seq_: int)

  /** sequence_number_, reader_info_[..].expected_sequence_, readers_ and idToSequence_. */
  datatype WriterState = WriterState(sequence: int, expected: map<ReaderId, int>, readers: set<ReaderId>, acked: map<ReaderId, int>)

  /** The fields of the reader's WriterInfo: seen_data_ and the set in ack_sequence_. */
  datatype ReaderSide = ReaderSide(seen: bool, ack: iset<int>)

  /** Everything sent to a reader since it was associated, how much of it was delivered, the
      reader's side, and the SAMPLE_ACKs under way to the writer.  since is the writer's sequence
      at the time of the association. */
  datatype Link = Link(up: bool, log: seq<Message>, delivered: nat, side: ReaderSide, replies: seq<int>, since: int)

  /** The link of an association that the writer has removed.  It goes on carrying messages and
      acks: nothing discards what is under way, and until disassociate is called the link is up. */
  datatype Former = Former(r: ReaderId, l: Link)

  /** stale: readers of which the writer holds an ack that an earlier association gave. */
  datatype State = State(w: WriterState, links: map<ReaderId, Link>, stale: set<ReaderId>, former: seq<Former>)

  datatype Token = Token(sequence: int, custom: map<ReaderId, int>)

  // ----- the writer -----

  /** Incrementing the sequence number from the unknown value starts at one. */
  function Following(sequence: int): int {
    if sequence == UNKNOWN then MIN_VALUE else NextValue(sequence)
  }

  predicate NeedsRepair(w: WriterState) {
    exists r :: r in w.expected && w.expected[r] != w.sequence
  }

  /** The writer after a write that excludes some readers; a control message excludes none. */
  function Written(w: WriterState, excluded: set<ReaderId>): WriterState {
    var n := Following(w.sequence);
    w.(sequence := n, expected := map r | r in w.expected :: if r in excluded then w.expected[r] else n)
  }

  /** create_ack_token and the customization made by send_ack_requests. */
  function IssueToken(w: WriterState): Token {
    Token(w.sequence, map r | r in w.expected && w.expected[r] != w.sequence :: w.expected[r])
  }

  function Expected(t: Token, r: ReaderId): int {
    if r in t.custom then t.custom[r] else t.sequence
  }

  /** idToSequence_[r]: a missing entry reads as the default sequence number, one. */
  function Acked(w: WriterState, r: ReaderId): int {
    if r in w.acked then w.acked[r] else MIN_VALUE
  }

  /** The test wait_for_ack_responses makes each time it wakes up. */
  predicate AllAcked(w: WriterState, t: Token) {
    forall r :: r in w.readers ==> Acked(w, r) >= Expected(t, r)
  }

  function AckDelivered(w: WriterState, r: ReaderId, ack: int): WriterState {
    w.(acked := w.acked[r := if Acked(w, r) < ack then ack else Acked(w, r)])
  }

  function Disassociated(w: WriterState, r: ReaderId): WriterState {
    WriterState(w.sequence, w.expected - {r}, w.readers - {r}, if r in w.readers then w.acked - {r} else w.acked)
  }

  // ----- the reader -----

  /** writer_activity: the baseline is reset by the first message and by a repair. */
  ghost function Activity(side: ReaderSide, m: Message): ReaderSide
    requires m.Data?
  {
    if side.seen && !m.repair then side.(ack := side.ack + iset{m.seq_})
    else ReaderSide(true, Span(MIN_VALUE, m.seq_))
  }

  // ----- steps -----

  datatype Event =
    | Associate(r: ReaderId)
    | LinkUp(r: ReaderId)
    | AssociationComplete(r: ReaderId)
    | Remove(r: ReaderId)
    | Write(excluded: set<ReaderId>)
    | Request
    | Deliver(r: ReaderId, reply: bool)
    | DeliverAck(r: ReaderId)
    | Disassociate(r: ReaderId)
    | LateDeliver(i: nat, reply: bool)
    | LateAck(i: nat)

  function Receives(l: Link, m: Message): Link {
    if l.up then l.(log := l.log + [m]) else l
  }

  function SendData(links: map<ReaderId, Link>, excluded: set<ReaderId>, m: Message): map<ReaderId, Link> {
    map r | r in links :: if r in excluded then links[r] else Receives(links[r], m)
  }

  function SendRequests(links: map<ReaderId, Link>, t: Token): map<ReaderId, Link> {
    map r | r in links :: Receives(links[r], RequestAck(Expected(t, r)))
  }

  function DataToFormer(former: seq<Former>, m: Message): seq<Former> {
    seq(|former|, i requires 0 <= i < |former| => former[i].(l := Receives(former[i].l, m)))
  }

  function RequestsToFormer(former: seq<Former>, t: Token): seq<Former> {
    seq(|former|, i requires 0 <= i < |former| => former[i].(l := Receives(former[i].l, RequestAck(Expected(t, former[i].r)))))
  }

  function Down(former: seq<Former>, r: ReaderId): seq<Former> {
    seq(|former|, i requires 0 <= i < |former| => if former[i].r == r then former[i].(l := former[i].l.(up := false)) else former[i])
  }

  function NewLink(since: int): Link {
    Link(false, [], 0, ReaderSide(false, iset{}), [], since)
  }

  /** should_ack: data was seen, and some REQUEST_ACK so far asked for no more than what is there without a gap. */
  ghost predicate ShouldAck(l: Link, side: ReaderSide)
    requires l.delivered < |l.log|
  {
    side.seen && exists j :: 0 <= j <= l.delivered && l.log[j].RequestAck? && Span(MIN_VALUE, l.log[j].seq_) <= side.ack
  }

  /** Delivering the next message; the reader may answer with the message's own number if it should. */
  ghost function Delivered(l: Link, reply: bool): Link
    requires l.delivered < |l.log|
  {
    var m := l.log[l.delivered];
    var side := if m.Data? then Activity(l.side, m) else l.side;
    l.(delivered := l.delivered + 1, side := side,
       replies := if reply && ShouldAck(l, side) then l.replies + [m.seq_] else l.replies)
  }

  ghost predicate Next(s: State, e: Event, s': State) {
    match e
    case Associate(r) =>
      && r !in s.w.expected && (forall i :: 0 <= i < |s.former| && s.former[i].r == r ==> !s.former[i].l.up)
      && s' == s.(w := s.w.(expected := s.w.expected[r := UNKNOWN]), links := s.links[r := NewLink(s.w.sequence)])
    case LinkUp(r) =>
      r in s.links && s' == s.(links := s.links[r := s.links[r].(up := true)])
    case AssociationComplete(r) =>
      r in s.w.expected && s' == s.(w := s.w.(readers := s.w.readers + {r}))
    case Remove(r) =>
      s' == State(Disassociated(s.w, r), s.links - {r},
                  if r in s.w.readers then s.stale - {r} else if r in s.w.acked then s.stale + {r} else s.stale,
                  if r in s.links then s.former + [Former(r, s.links[r])] else s.former)
    case Write(excluded) =>
      && s.w.sequence < MAX_VALUE
      && var m := Data(Following(s.w.sequence), NeedsRepair(s.w));
         s' == s.(w := Written(s.w, excluded), links := SendData(s.links, excluded, m), former := DataToFormer(s.former, m))
    case Request =>
      var t := IssueToken(s.w);
      s' == s.(links := SendRequests(s.links, t), former := RequestsToFormer(s.former, t))
    case Deliver(r, reply) =>
      && r in s.links && s.links[r].delivered < |s.links[r].log|
      && s' == s.(links := s.links[r := Delivered(s.links[r], reply)])
    case DeliverAck(r) =>
      && r in s.links && s.links[r].replies != []
      && s' == s.(w := AckDelivered(s.w, r, s.links[r].replies[0]),
                  links := s.links[r := s.links[r].(replies := s.links[r].replies[1..])])
    case Disassociate(r) =>
      s' == s.(former := Down(s.former, r))
    case LateDeliver(i, reply) =>
      && i < |s.former| && s.former[i].l.delivered < |s.former[i].l.log|
      && s' == s.(former := s.former[i := Former(s.former[i].r, Delivered(s.former[i].l, reply))])
    case LateAck(i) =>
      && i < |s.former| && s.former[i].l.replies != []
      && var o := s.former[i];
         s' == s.(w := AckDelivered(s.w, o.r, o.l.replies[0]), stale := s.stale + {o.r},
                  former := s.former[i := Former(o.r, o.l.(replies := o.l.replies[1..]))])
  }

  const START := State(WriterState(UNKNOWN, map[], {}, map[]), map[], {}, [])

  // ----- the invariant -----

  /** The number of the last data message among the first k, 0 if there is none. */
  function LastData(log: seq<Message>, k: nat): int
    requires k <= |log|
  {
    if k == 0 then 0 else if log[k - 1].Data? then log[k - 1].seq_ else LastData(log, k - 1)
  }

  /** Without the repair bit a message carries the number right after the reader's previous
      one; a REQUEST_ACK asks for the reader's previous one. */
  predicate Fits(last: int, m: Message) {
    if m.Data? then m.seq_ > last && (last != 0 && !m.repair ==> m.seq_ == last + 1)
    else last != 0 ==> m.seq_ == last
  }

  ghost predicate FitsAt(log: seq<Message>, j: nat)
    requires j < |log|
  {
    Fits(LastData(log, j), log[j])
  }

  ghost predicate LogOk(log: seq<Message>) {
    forall j {:trigger FitsAt(log, j)} :: 0 <= j < |log| ==> FitsAt(log, j)
  }

  /** What the reader has and answered is what was delivered. */
  ghost predicate SideOk(l: Link) {
    && l.delivered <= |l.log| && LogOk(l.log) && (!l.up ==> l.log == [])
    && (l.side.seen <==> LastData(l.log, l.delivered) != 0)
    && (l.side.seen ==> l.side.ack == Span(MIN_VALUE, LastData(l.log, l.delivered)))
    && (!l.side.seen ==> l.side.ack == iset{})
    && (forall v :: v in l.replies ==> v <= LastData(l.log, l.delivered))
  }

  /** The link of a reader of which expected is expected and ack is recorded. */
  ghost predicate Held(l: Link, expected: int, sequence: int, ack: int, stale: bool) {
    && SideOk(l) && Numbered(l, sequence) && DataSince(l) && RecordOk(l, ack, stale)
    && (LastData(l.log, |l.log|) != 0 ==> expected == LastData(l.log, |l.log|))
    && l.since <= sequence && (expected == UNKNOWN || expected > l.since)
  }

  ghost predicate LinkOk(s: State, r: ReaderId)
    requires r in s.links
  {
    r in s.w.expected && Held(s.links[r], s.w.expected[r], s.w.sequence, Acked(s.w, r), r in s.stale)
  }

  /** No number on the link is above top. */
  ghost predicate Numbered(l: Link, top: int) {
    && l.delivered <= |l.log| && (forall j :: 0 <= j < |l.log| ==> l.log[j].seq_ <= top)
    && forall v :: v in l.replies ==> v <= top
  }

  /** The data was written after the association began. */
  ghost predicate DataSince(l: Link) {
    forall j :: 0 <= j < |l.log| && l.log[j].Data? ==> l.log[j].seq_ > l.since
  }

  /** What the writer holds was delivered on this link or, if stale, was sent before it. */
  predicate RecordOk(l: Link, ack: int, stale: bool)
    requires l.delivered <= |l.log|
  {
    ack <= 1 || ack <= LastData(l.log, l.delivered) || (stale && ack <= l.since)
  }

  /** What still comes from a removed association was sent before the present one. */
  ghost predicate FormerOk(s: State, o: Former) {
    Numbered(o.l, s.w.sequence) && (o.r in s.links ==> !o.l.up && Numbered(o.l, s.links[o.r].since))
  }

  ghost predicate WriterOk(s: State) {
    && (s.w.sequence == UNKNOWN || 1 <= s.w.sequence <= MAX_VALUE)
    && (forall r :: r in s.w.expected ==> s.w.expected[r] <= s.w.sequence)
    && s.w.readers <= s.w.expected.Keys && s.links.Keys == s.w.expected.Keys
    && (forall r :: r in s.w.acked ==> r in s.w.expected || r in s.stale)
  }

  /** Nothing is acknowledged that was not sent. */
  ghost predicate AcksOk(s: State) {
    forall r :: r in s.w.acked ==> s.w.acked[r] <= 1 || s.w.acked[r] <= s.w.sequence
  }

  ghost predicate Inv(s: State) {
    && WriterOk(s) && AcksOk(s) && (forall r :: r in s.links ==> LinkOk(s, r))
    && forall i :: 0 <= i < |s.former| ==> FormerOk(s, s.former[i])
  }

  /** LastData looks only at the prefix. */
  lemma {:induction false} LastDataPrefix(log: seq<Message>, more: seq<Message>, k: nat)
    requires k <= |log|
    ensures LastData(log + more, k) == LastData(log, k)
  {
    if k > 0 { LastDataPrefix(log, more, k - 1); }
  }

  lemma {:induction false} LogGrows(log: seq<Message>, m: Message)
    requires LogOk(log) && Fits(LastData(log, |log|), m)
    ensures LogOk(log + [m])
    ensures LastData(log + [m], |log| + 1) == if m.Data? then m.seq_ else LastData(log, |log|)
    ensures forall k :: 0 <= k <= |log| ==> LastData(log + [m], k) == LastData(log, k)
  {
    forall k | 0 <= k <= |log| ensures LastData(log + [m], k) == LastData(log, k) { LastDataPrefix(log, [m], k); }
    forall j | 0 <= j < |log| + 1 ensures FitsAt(log + [m], j) {
      if j < |log| { assert FitsAt(log, j); }
    }
  }

  /** Data messages ascend, so those not yet delivered are above the last one delivered. */
  lemma {:induction false} LaterIsHigher(log: seq<Message>, k: nat, j: nat)
    requires LogOk(log) && k <= j < |log| && log[j].Data?
    ensures log[j].seq_ > LastData(log, k)
  {
    LastDataAscends(log, k, j);
    assert FitsAt(log, j);
  }

  lemma {:induction false} LastDataAscends(log: seq<Message>, k: nat, j: nat)
    requires LogOk(log) && k <= j <= |log|
    ensures LastData(log, k) <= LastData(log, j)
  {
    if k < j {
      LastDataAscends(log, k, j - 1);
      assert FitsAt(log, j - 1);
    }
  }

  /** A longer log. */
  lemma {:induction false} Extended(l: Link, expected: int, sequence: int, ack: int, stale: bool, m: Message, later: int)
    requires Held(l, expected, sequence, ack, stale) && Fits(LastData(l.log, |l.log|), m)
    requires sequence <= later && m.seq_ <= later && (m.Data? ==> m.seq_ > sequence)
    ensures Held(Receives(l, m), if m.Data? then m.seq_ else expected, later, ack, stale)
  {
    if l.up { LogGrows(l.log, m); }
  }

  lemma {:induction false} HeldLater(l: Link, expected: int, sequence: int, ack: int, stale: bool, later: int, up: bool)
    requires Held(l, expected, sequence, ack, stale) && sequence <= later && (l.up ==> up)
    ensures Held(l.(up := up), expected, later, ack, stale)
  {
  }

  lemma {:induction false} WriteKeepsLink(s: State, excluded: set<ReaderId>, s': State, r: ReaderId)
    requires Inv(s) && Next(s, Write(excluded), s') && r in s'.links
    ensures LinkOk(s', r)
  {
    assert LinkOk(s, r);
    var l, n := s.links[r], Following(s.w.sequence);
    if r in excluded {
      HeldLater(l, s.w.expected[r], s.w.sequence, Acked(s.w, r), r in s.stale, n, l.up);
    } else {
      NextFits(s, r);
      Extended(l, s.w.expected[r], s.w.sequence, Acked(s.w, r), r in s.stale, Data(n, NeedsRepair(s.w)), n);
    }
  }

  lemma {:induction false} NextFits(s: State, r: ReaderId)
    requires Inv(s) && r in s.links && s.w.sequence < MAX_VALUE
    ensures Fits(LastData(s.links[r].log, |s.links[r].log|), Data(Following(s.w.sequence), NeedsRepair(s.w)))
  {
    assert LinkOk(s, r);
    LastDataAscends(s.links[r].log, 0, |s.links[r].log|);
    assert !NeedsRepair(s.w) ==> s.w.expected[r] == s.w.sequence;
  }

  lemma {:induction false} RequestKeepsLink(s: State, s': State, r: ReaderId)
    requires Inv(s) && Next(s, Request, s') && r in s'.links
    ensures LinkOk(s', r)
  {
    assert LinkOk(s, r);
    TokenIsExact(s.w, r);
    Extended(s.links[r], s.w.expected[r], s.w.sequence, Acked(s.w, r), r in s.stale, RequestAck(s.w.expected[r]), s.w.sequence);
  }

  /** The token asks every known reader for exactly what the writer expects of it, and a reader that is associated later
      for the last number at the time. */
  lemma {:induction false} TokenIsExact(w: WriterState, r: ReaderId)
    ensures Expected(IssueToken(w), r) == if r in w.expected then w.expected[r] else w.sequence
  {
  }

  lemma {:induction false} DeliverKeepsLink(s: State, r: ReaderId, reply: bool, s': State)
    requires Inv(s) && Next(s, Deliver(r, reply), s')
    ensures LinkOk(s', r)
  {
    assert LinkOk(s, r);
    DeliverKeepsSide(s.links[r], reply);
    DeliverKeepsNumbers(s.links[r], reply, s.w.sequence);
  }

  lemma {:induction false} DeliverKeepsSide(l: Link, reply: bool)
    requires SideOk(l) && l.delivered < |l.log|
    ensures SideOk(Delivered(l, reply)) && LastData(l.log, l.delivered) <= LastData(l.log, l.delivered + 1)
    ensures LastData(l.log, l.delivered + 1)
      == if l.log[l.delivered].Data? then l.log[l.delivered].seq_ else LastData(l.log, l.delivered)
  {
    var k := l.delivered;
    var m, last := l.log[k], LastData(l.log, k);
    assert FitsAt(l.log, k);
    LastDataAscends(l.log, 0, k);
    assert LastData(l.log, k + 1) == if m.Data? then m.seq_ else last;
    if m.Data? && l.side.seen && !m.repair {
      assert Span(MIN_VALUE, last) + iset{m.seq_} == Span(MIN_VALUE, m.seq_);
    }
  }

  lemma {:induction false} DeliverKeepsNumbers(l: Link, reply: bool, top: int)
    requires Numbered(l, top) && l.delivered < |l.log|
    ensures Numbered(Delivered(l, reply), top)
  {
  }

  lemma {:induction false} AckKeepsNumbers(l: Link, top: int)
    requires Numbered(l, top) && l.replies != []
    ensures l.replies[0] <= top && Numbered(l.(replies := l.replies[1..]), top)
  {
    assert l.replies[0] in l.replies;
    forall v | v in l.replies[1..] ensures v in l.replies {}
  }

  lemma {:induction false} DeliverAckKeepsLink(s: State, r: ReaderId, s': State)
    requires Inv(s) && Next(s, DeliverAck(r), s')
    ensures LinkOk(s', r)
  {
    assert LinkOk(s, r);
    var l := s.links[r];
    AckKeepsNumbers(l, s.w.sequence);
    assert l.replies[0] in l.replies;
    forall v | v in l.replies[1..] ensures v in l.replies {}
  }

  /** Every step keeps the invariant. */
  lemma {:induction false} NextKeepsInv(s: State, e: Event, s': State)
    requires Inv(s) && Next(s, e, s')
    ensures Inv(s')
  {
    NextKeepsWriter(s, e, s');
    NextKeepsAcks(s, e, s');
    forall r | r in s'.links ensures LinkOk(s', r) { NextKeepsLink(s, e, s', r); }
    forall i | 0 <= i < |s'.former| ensures FormerOk(s', s'.former[i]) { NextKeepsFormer(s, e, s', i); }
  }

  lemma {:induction false} NextKeepsWriter(s: State, e: Event, s': State)
    requires WriterOk(s) && Next(s, e, s')
    ensures WriterOk(s')
  {
  }

  lemma {:induction false} NextKeepsAcks(s: State, e: Event, s': State)
    requires Inv(s) && Next(s, e, s')
    ensures AcksOk(s')
  {
    if e.DeliverAck? {
      assert LinkOk(s, e.r);
      AckKeepsNumbers(s.links[e.r], s.w.sequence);
    } else if e.LateAck? {
      assert FormerOk(s, s.former[e.i]);
      AckKeepsNumbers(s.former[e.i].l, s.w.sequence);
    }
  }

  lemma {:induction false} NewLinkIsOk(s: State, r: ReaderId, s': State)
    requires Inv(s) && Next(s, Associate(r), s')
    ensures LinkOk(s', r)
  {
    assert r in s.w.acked ==> r in s.stale;
  }

  /** An ack from a removed association is from before the present one. */
  lemma {:induction false} LateAckKeepsLink(s: State, i: nat, s': State)
    requires Inv(s) && Next(s, LateAck(i), s') && s.former[i].r in s'.links
    ensures LinkOk(s', s.former[i].r)
  {
    var r := s.former[i].r;
    assert LinkOk(s, r) && FormerOk(s, s.former[i]);
    AckKeepsNumbers(s.former[i].l, s.links[r].since);
  }

  /** A link that the step does not touch. */
  lemma {:induction false} OtherKeepsLink(s: State, e: Event, s': State, r: ReaderId)
    requires Inv(s) && Next(s, e, s') && r in s'.links && !e.Write? && !e.Request?
    requires e.Associate? || e.Deliver? || e.DeliverAck? ==> e.r != r
    requires e.LateAck? ==> s.former[e.i].r != r
    ensures LinkOk(s', r)
  {
    Untouched(s, e, s', r);
    assert LinkOk(s, r);
    HeldLater(s.links[r], s.w.expected[r], s.w.sequence, Acked(s.w, r), r in s.stale, s.w.sequence, s'.links[r].up);
  }

  lemma {:induction false} Untouched(s: State, e: Event, s': State, r: ReaderId)
    requires Inv(s) && Next(s, e, s') && r in s'.links && !e.Write? && !e.Request?
    requires e.Associate? || e.Deliver? || e.DeliverAck? ==> e.r != r
    requires e.LateAck? ==> s.former[e.i].r != r
    ensures r in s.links && r in s.w.expected && r in s'.w.expected && s'.w.expected[r] == s.w.expected[r]
    ensures s'.links[r] == s.links[r].(up := s'.links[r].up) && (s.links[r].up ==> s'.links[r].up)
    ensures s'.w.sequence == s.w.sequence && Acked(s'.w, r) == Acked(s.w, r) && (r in s'.stale <==> r in s.stale)
  {
    assert LinkOk(s, r);
  }

  lemma {:induction false} NextKeepsLink(s: State, e: Event, s': State, r: ReaderId)
    requires Inv(s) && Next(s, e, s') && r in s'.links
    ensures LinkOk(s', r)
  {
    match e
    case Associate(q) =>
      if r == q { NewLinkIsOk(s, r, s'); } else { OtherKeepsLink(s, e, s', r); }
    case Write(excluded) => WriteKeepsLink(s, excluded, s', r);
    case Request => RequestKeepsLink(s, s', r);
    case Deliver(q, reply) =>
      if r == q { DeliverKeepsLink(s, q, reply, s'); } else { OtherKeepsLink(s, e, s', r); }
    case DeliverAck(q) =>
      if r == q { DeliverAckKeepsLink(s, q, s'); } else { OtherKeepsLink(s, e, s', r); }
    case LateAck(i) =>
      if r == s.former[i].r { LateAckKeepsLink(s, i, s'); } else { OtherKeepsLink(s, e, s', r); }
    case _ => OtherKeepsLink(s, e, s', r);
  }

  lemma {:induction false} NextKeepsFormer(s: State, e: Event, s': State, i: nat)
    requires Inv(s) && Next(s, e, s') && i < |s'.former|
    ensures FormerOk(s', s'.former[i])
  {
    if e.LateDeliver? && e.i == i {
      LateDeliverKeepsFormer(s, i, e.reply, s');
    } else if e.LateAck? && e.i == i {
      LateAckKeepsFormer(s, i, s');
    } else if e.Write? || e.Request? {
      SendKeepsFormer(s, e, s', i);
    } else if i == |s.former| {
      assert LinkOk(s, e.r);
    } else {
      FormerIsKept(s, e, s', i);
    }
  }

  /** A former link that the step does not touch; a new association begins at the writer's sequence. */
  lemma {:induction false} FormerIsKept(s: State, e: Event, s': State, i: nat)
    requires Inv(s) && Next(s, e, s') && i < |s.former| && !e.Write? && !e.Request?
    requires e.LateDeliver? || e.LateAck? ==> e.i != i
    ensures i < |s'.former| && FormerOk(s', s'.former[i])
  {
    var o := s.former[i];
    assert FormerOk(s, o);
    assert s'.former[i].r == o.r && s'.former[i].l == o.l.(up := s'.former[i].l.up);
    if o.r in s.links && o.r in s'.links { StepKeepsSince(s, e, s', o.r) by { assert e != Remove(o.r); } }
  }

  lemma {:induction false} LateDeliverKeepsFormer(s: State, i: nat, reply: bool, s': State)
    requires Inv(s) && Next(s, LateDeliver(i, reply), s')
    ensures FormerOk(s', s'.former[i])
  {
    assert FormerOk(s, s.former[i]);
    DeliverKeepsNumbers(s.former[i].l, reply, s.w.sequence);
    if s.former[i].r in s.links { DeliverKeepsNumbers(s.former[i].l, reply, s.links[s.former[i].r].since); }
  }

  lemma {:induction false} LateAckKeepsFormer(s: State, i: nat, s': State)
    requires Inv(s) && Next(s, LateAck(i), s')
    ensures FormerOk(s', s'.former[i])
  {
    assert FormerOk(s, s.former[i]);
    AckKeepsNumbers(s.former[i].l, s.w.sequence);
    if s.former[i].r in s.links { AckKeepsNumbers(s.former[i].l, s.links[s.former[i].r].since); }
  }

  /** Until it is disassociated a removed reader may still get what the writer sends. */
  lemma {:induction false} SendKeepsFormer(s: State, e: Event, s': State, i: nat)
    requires Inv(s) && Next(s, e, s') && (e.Write? || e.Request?) && i < |s'.former|
    ensures FormerOk(s', s'.former[i])
  {
    assert FormerOk(s, s.former[i]);
    if s.former[i].r in s.links {
      assert s'.links[s.former[i].r].since == s.links[s.former[i].r].since;
    }
  }

  ghost predicate IsRun(states: seq<State>, events: seq<Event>) {
    && |states| == |events| + 1 && states[0] == START
    && forall i :: 0 <= i < |events| ==> Next(states[i], events[i], states[i + 1])
  }

  lemma {:induction false} RunsKeepInv(states: seq<State>, events: seq<Event>, k: nat)
    requires IsRun(states, events) && k < |states|
    ensures Inv(states[k])
  {
    if k > 0 {
      RunsKeepInv(states, events, k - 1);
      NextKeepsInv(states[k - 1], events[k - 1], states[k]);
    }
  }

  /** In every run, whatever was filtered for whom, the ack set of a reader right after data
      message n is exactly {1..n}: filtering never leaves a gap. */
  lemma {:induction false} FilteringLeavesNoGap(states: seq<State>, events: seq<Event>, k: nat)
    requires IsRun(states, events) && k < |events| && events[k].Deliver?
    requires var l := states[k].links; events[k].r in l && l[events[k].r].delivered < |l[events[k].r].log|
    ensures var l := states[k].links[events[k].r];
      var m := l.log[l.delivered];
      m.Data? ==> states[k + 1].links[events[k].r].side == ReaderSide(true, Span(MIN_VALUE, m.seq_))
  {
    RunsKeepInv(states, events, k);
    assert LinkOk(states[k], events[k].r);
    assert Next(states[k], events[k], states[k + 1]);
    DataCompletes(states[k].links[events[k].r], events[k].reply);
  }

  lemma {:induction false} DataCompletes(l: Link, reply: bool)
    requires SideOk(l) && l.delivered < |l.log|
    ensures var m := l.log[l.delivered]; m.Data? ==> Delivered(l, reply).side == ReaderSide(true, Span(MIN_VALUE, m.seq_))
  {
    DeliverKeepsSide(l, reply);
    if l.log[l.delivered].Data? { LastDataAscends(l.log, 0, l.delivered); }
  }

  // ----- what the writer's record of acks means -----

  /** The step records an ack of at least e from r, on its link or from a removed association. */
  predicate Acks(s: State, ev: Event, r: ReaderId, e: int) {
    || (ev == DeliverAck(r) && r in s.links && s.links[r].replies != [] && s.links[r].replies[0] >= e)
    || (ev.LateAck? && ev.i < |s.former| && s.former[ev.i].r == r
        && s.former[ev.i].l.replies != [] && s.former[ev.i].l.replies[0] >= e)
  }

  /** Only the removal of a complete association erases the record. */
  predicate Clears(s: State, ev: Event, r: ReaderId) {
    ev == Remove(r) && r in s.w.readers
  }

  /** Event i delivered an ack of at least e from r that no later removal has cleared. */
  ghost predicate AnsweredAt(states: seq<State>, events: seq<Event>, k: nat, r: ReaderId, e: int, i: nat)
    requires |states| == |events| + 1 && k < |states|
  {
    i < k && Acks(states[i], events[i], r, e) && forall j :: i < j < k ==> !Clears(states[j], events[j], r)
  }

  ghost predicate Answered(states: seq<State>, events: seq<Event>, k: nat, r: ReaderId, e: int)
    requires |states| == |events| + 1 && k < |states|
  {
    exists i :: AnsweredAt(states, events, k, r, e, i)
  }

  /** In every run, the recorded ack of a reader reaches e exactly when e is at most one, the
      default of a fresh entry, or the reader delivered such an ack since it was last cleared. */
  lemma {:induction false} RecordedIffAnswered(states: seq<State>, events: seq<Event>, k: nat, r: ReaderId, e: int)
    requires IsRun(states, events) && k < |states|
    ensures Acked(states[k].w, r) >= e <==> e <= 1 || Answered(states, events, k, r, e)
  {
    if k > 0 {
      var i := k - 1;
      RecordedIffAnswered(states, events, i, r, e);
      assert Next(states[i], events[i], states[k]);
      if Acks(states[i], events[i], r, e) {
        assert AnsweredAt(states, events, k, r, e, i);
      } else if Clears(states[i], events[i], r) {
        assert forall j :: AnsweredAt(states, events, k, r, e, j) ==> j == i;
      } else {
        StillAnswered(states, events, i, r, e);
      }
    }
  }

  lemma {:induction false} StillAnswered(states: seq<State>, events: seq<Event>, k: nat, r: ReaderId, e: int)
    requires |states| == |events| + 1 && k + 1 < |states|
    requires !Clears(states[k], events[k], r) && !Acks(states[k], events[k], r, e)
    ensures Answered(states, events, k + 1, r, e) <==> Answered(states, events, k, r, e)
  {
    var n := k + 1;
    if Answered(states, events, k, r, e) {
      var i :| AnsweredAt(states, events, k, r, e, i);
      assert AnsweredAt(states, events, n, r, e, i);
    }
    if Answered(states, events, n, r, e) {
      var i :| AnsweredAt(states, events, n, r, e, i);
      assert AnsweredAt(states, events, k, r, e, i);
    }
  }

  /** The wait reports OK in exactly these states. */
  lemma {:induction false} WaitIsOkIff(states: seq<State>, events: seq<Event>, k: nat, t: Token)
    requires IsRun(states, events) && k < |states|
    ensures AllAcked(states[k].w, t) <==>
      forall r :: r in states[k].w.readers ==> Expected(t, r) <= 1 || Answered(states, events, k, r, Expected(t, r))
  {
    forall r | r in states[k].w.readers
      ensures Acked(states[k].w, r) >= Expected(t, r) <==> Expected(t, r) <= 1 || Answered(states, events, k, r, Expected(t, r))
    {
      RecordedIffAnswered(states, events, k, r, Expected(t, r));
    }
  }

  // ----- what the wait means -----

  /** The step leaves a record of an association that is over: r is removed before its association was complete, or an
      ack of a removed association arrives. */
  predicate Leaves(s: State, ev: Event, r: ReaderId) {
    || (ev == Remove(r) && r !in s.w.readers && r in s.w.acked)
    || (ev.LateAck? && ev.i < |s.former| && s.former[ev.i].r == r)
  }

  /** Event i left a record behind that no later removal has cleared. */
  ghost predicate LeftBehindAt(states: seq<State>, events: seq<Event>, k: nat, r: ReaderId, i: nat)
    requires |states| == |events| + 1 && k < |states|
  {
    i < k && Leaves(states[i], events[i], r) && forall j :: i < j < k ==> !Clears(states[j], events[j], r)
  }

  ghost predicate LeftBehind(states: seq<State>, events: seq<Event>, k: nat, r: ReaderId)
    requires |states| == |events| + 1 && k < |states|
  {
    exists i :: LeftBehindAt(states, events, k, r, i)
  }

  lemma {:induction false} StaleIffLeftBehind(states: seq<State>, events: seq<Event>, k: nat, r: ReaderId)
    requires IsRun(states, events) && k < |states|
    ensures r in states[k].stale <==> LeftBehind(states, events, k, r)
  {
    if k > 0 {
      var i := k - 1;
      StaleIffLeftBehind(states, events, i, r);
      assert Next(states[i], events[i], states[k]);
      if Clears(states[i], events[i], r) {
        assert forall j :: LeftBehindAt(states, events, k, r, j) ==> j == i;
      } else if Leaves(states[i], events[i], r) {
        assert LeftBehindAt(states, events, k, r, i);
      } else {
        StillLeftBehind(states, events, i, r);
      }
    }
  }

  lemma {:induction false} StillLeftBehind(states: seq<State>, events: seq<Event>, k: nat, r: ReaderId)
    requires |states| == |events| + 1 && k + 1 < |states|
    requires !Clears(states[k], events[k], r) && !Leaves(states[k], events[k], r)
    ensures LeftBehind(states, events, k + 1, r) <==> LeftBehind(states, events, k, r)
  {
    var n := k + 1;
    if LeftBehind(states, events, k, r) {
      var i :| LeftBehindAt(states, events, k, r, i);
      assert LeftBehindAt(states, events, n, r, i);
    }
    if LeftBehind(states, events, n, r) {
      var i :| LeftBehindAt(states, events, n, r, i);
      assert LeftBehindAt(states, events, k, r, i);
    }
  }

  /** The reader's record is of an earlier association: it was left behind, and the reader has received
      nothing since it came back. */
  ghost predicate Outdated(states: seq<State>, events: seq<Event>, k: nat, r: ReaderId)
    requires |states| == |events| + 1 && k < |states| && r in states[k].links
  {
    LeftBehind(states, events, k, r) && !states[k].links[r].side.seen
  }

  lemma {:induction false} ReadersHaveLinks(states: seq<State>, events: seq<Event>, k: nat)
    requires IsRun(states, events) && k < |states|
    ensures states[k].w.readers <= states[k].links.Keys
  {
    RunsKeepInv(states, events, k);
  }

  /** Everything up to e was received, and only later numbers are owed. */
  ghost predicate Received(l: Link, e: int) {
    Span(1, e) <= l.side.ack && forall j :: l.delivered <= j < |l.log| && l.log[j].Data? ==> l.log[j].seq_ > e
  }

  lemma {:induction false} DeliveredIsReceived(l: Link, e: int)
    requires SideOk(l) && 1 < e <= LastData(l.log, l.delivered)
    ensures Received(l, e)
  {
    forall j | l.delivered <= j < |l.log| && l.log[j].Data? ensures l.log[j].seq_ > e {
      LaterIsHigher(l.log, l.delivered, j);
    }
  }

  /** The last number is one of the data. */
  lemma {:induction false} LastDataSince(l: Link, k: nat)
    requires DataSince(l) && k <= |l.log|
    ensures LastData(l.log, k) == 0 || LastData(l.log, k) > l.since
  {
    if k > 0 { LastDataSince(l, k - 1); }
  }

  /** When the wait reports OK in any reachable state, a reader of which more than number one
      was expected has received every message sent to it up to that number, unless its record is outdated. */
  lemma {:induction false} WaitMeansReceived(states: seq<State>, events: seq<Event>, k: nat, t: Token, r: ReaderId)
    requires IsRun(states, events) && k < |states| && r in states[k].links && !Outdated(states, events, k, r)
    requires var s := states[k]; AllAcked(s.w, t) && r in s.w.readers && Expected(t, r) > 1
    ensures Received(states[k].links[r], Expected(t, r))
  {
    RunsKeepInv(states, events, k);
    StaleIffLeftBehind(states, events, k, r);
    var l := states[k].links[r];
    assert LinkOk(states[k], r);
    LastDataSince(l, l.delivered);
    DeliveredIsReceived(l, Expected(t, r));
  }

  /** In every reachable state a wait that is over can be relied on for a reader, whatever was expected of it, if and only
      if the reader's record is not outdated or is no more than the default. */
  lemma {:induction false} WaitIsReliableIff(states: seq<State>, events: seq<Event>, k: nat, r: ReaderId)
    requires IsRun(states, events) && k < |states| && r in states[k].w.readers
    ensures r in states[k].links
    ensures (forall t :: AllAcked(states[k].w, t) && Expected(t, r) > 1 ==> Received(states[k].links[r], Expected(t, r)))
      <==> !Outdated(states, events, k, r) || Acked(states[k].w, r) <= 1
  {
    ReadersHaveLinks(states, events, k);
    var s := states[k];
    if Outdated(states, events, k, r) && Acked(s.w, r) > 1 {
      RunsKeepInv(states, events, k);
      assert LinkOk(s, r);
      var t := Token(Acked(s.w, r), map q | q in s.w.readers && q != r :: MIN_VALUE);
      AckedFromOne(states, events, k);
      assert AllAcked(s.w, t) && Expected(t, r) > 1;
      assert 1 in Span(1, Expected(t, r)) && !Received(s.links[r], Expected(t, r));
    } else {
      forall t | AllAcked(s.w, t) && Expected(t, r) > 1 ensures Received(s.links[r], Expected(t, r)) {
        WaitMeansReceived(states, events, k, t, r);
      }
    }
  }

  lemma {:induction false} AckedFromOne(states: seq<State>, events: seq<Event>, k: nat)
    requires IsRun(states, events) && k < |states|
    ensures forall q :: Acked(states[k].w, q) >= MIN_VALUE
  {
    forall q ensures Acked(states[k].w, q) >= MIN_VALUE {
      RecordedIffAnswered(states, events, k, q, MIN_VALUE);
    }
  }

  // ----- a wait in time -----

  /** The reader stays associated from j to k. */
  ghost predicate Stays(events: seq<Event>, j: nat, k: nat, r: ReaderId) {
    j <= k <= |events| && forall i :: j <= i < k ==> events[i] != Remove(r)
  }

  lemma {:induction false} SinceStays(states: seq<State>, events: seq<Event>, j: nat, k: nat, r: ReaderId)
    requires IsRun(states, events) && Stays(events, j, k, r) && r in states[j].w.expected
    ensures r in states[j].links && r in states[k].links && states[k].links[r].since == states[j].links[r].since
    decreases k - j
  {
    RunsKeepInv(states, events, j);
    if j < k {
      SinceStays(states, events, j, k - 1, r);
      RunsKeepInv(states, events, k - 1);
      StepKeepsSince(states[k - 1], events[k - 1], states[k], r);
    }
  }

  lemma {:induction false} StepKeepsSince(s: State, e: Event, s': State, r: ReaderId)
    requires WriterOk(s) && Next(s, e, s') && r in s.links && e != Remove(r)
    ensures r in s'.links && s'.links[r].since == s.links[r].since
  {
  }

  /** A token issued while the reader is associated, and a wait for it that is over before the reader is removed: then
      the reader has received what the token expects of it, whatever earlier associations left behind. */
  lemma {:induction false} WaitInTimeMeansReceived(states: seq<State>, events: seq<Event>, j: nat, k: nat, r: ReaderId)
    requires IsRun(states, events) && Stays(events, j, k, r) && r in states[j].w.expected && r in states[k].w.readers
    requires var t := IssueToken(states[j].w); AllAcked(states[k].w, t) && Expected(t, r) > 1
    ensures r in states[k].links && Received(states[k].links[r], Expected(IssueToken(states[j].w), r))
  {
    var e := Expected(IssueToken(states[j].w), r);
    TokenIsExact(states[j].w, r);
    SinceStays(states, events, j, k, r);
    RunsKeepInv(states, events, j);
    RunsKeepInv(states, events, k);
    assert LinkOk(states[j], r) && LinkOk(states[k], r);
    assert Acked(states[k].w, r) >= e > states[k].links[r].since;
    DeliveredIsReceived(states[k].links[r], e);
  }
}
