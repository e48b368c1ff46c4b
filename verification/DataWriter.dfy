/** The sequence and acknowledgement fields of dds/DCPS/DataWriterImpl.cpp and, on the reading
    side, of WriterInfo as DataReaderImpl::writer_activity updates them.  Each method is proved to take one of the
    steps of AckProtocol, which then says what the steps mean over whole runs. */
module DataWriters {
  import opened SequenceNumbers
  import opened RangeLists
  import opened DisjointSequences
  import opened AckProtocol
  import opened AckRequests

  class DataWriter {
    var sequenceNumber: int
    var readerInfo: map<ReaderId, int>
    var readers: set<ReaderId>
    var idToSequence: map<ReaderId, int>

    ghost function View(): WriterState
      reads this
    {
      WriterState(sequenceNumber, readerInfo, readers, idToSequence)
    }

    constructor ()
      ensures View() == START.w
    {
      sequenceNumber, readerInfo, readers, idToSequence := UNKNOWN, map[], {}, map[];
    }

    /** need_sequence_repair_i. */
    method NeedSequenceRepair() returns (repair: bool)
      ensures repair <==> NeedsRepair(View())
    {
      var todo := readerInfo.Keys;
      while todo != {}
        invariant todo <= readerInfo.Keys
        invariant forall r :: r in readerInfo && r !in todo ==> readerInfo[r] == sequenceNumber
        decreases todo
      {
        var r :| r in todo;
        if readerInfo[r] != sequenceNumber {
          return true;
        }
        todo := todo - {r};
      }
      return false;
    }

    /** create_sample_data_message and the bookkeeping at the end of write: the message's number
        and repair bit, and the expected sequence of every reader that is not filtered out. */
    method Write(filterOut: seq<ReaderId>) returns (m: Message)
      requires sequenceNumber < MAX_VALUE
      modifies this
      ensures View() == Written(old(View()), Elements(filterOut))
      ensures m == Data(Following(old(sequenceNumber)), NeedsRepair(old(View())))
    {
      ghost var before := View();
      var repair := NeedSequenceRepair();
      sequenceNumber := if sequenceNumber == UNKNOWN then MIN_VALUE else NextValue(sequenceNumber);
      m := Data(sequenceNumber, repair);
      var excluded := set r | r in filterOut;
      var todo := readerInfo.Keys;
      while todo != {}
        invariant todo <= readerInfo.Keys == before.expected.Keys
        invariant sequenceNumber == Following(before.sequence) && readers == before.readers && idToSequence == before.acked
        invariant forall r :: r in readerInfo ==>
          readerInfo[r] == if r in todo || r in excluded then before.expected[r] else sequenceNumber
        decreases todo
      {
        var r :| r in todo;
        if r !in excluded {
          readerInfo := readerInfo[r := sequenceNumber];
        }
        todo := todo - {r};
      }
    }

    /** create_control_message: the sequenced kinds count like a write to every reader; the
        others carry the unknown number and change nothing. */
    method CreateControlMessage(sequenced: bool) returns (m: Message)
      requires sequenceNumber < MAX_VALUE
      modifies this
      ensures View() == if sequenced then Written(old(View()), {}) else old(View())
      ensures m == if sequenced then Data(Following(old(sequenceNumber)), NeedsRepair(old(View()))) else Data(UNKNOWN, false)
    {
      ghost var before := View();
      if !sequenced {
        return Data(UNKNOWN, false);
      }
      var repair := NeedSequenceRepair();
      sequenceNumber := if sequenceNumber == UNKNOWN then MIN_VALUE else NextValue(sequenceNumber);
      m := Data(sequenceNumber, repair);
      var todo := readerInfo.Keys;
      while todo != {}
        invariant todo <= readerInfo.Keys == before.expected.Keys
        invariant sequenceNumber == Following(before.sequence) && readers == before.readers && idToSequence == before.acked
        invariant forall r :: r in readerInfo ==> readerInfo[r] == if r in todo then before.expected[r] else sequenceNumber
        decreases todo
      {
        var r :| r in todo;
        readerInfo := readerInfo[r := sequenceNumber];
        todo := todo - {r};
      }
    }

    /** create_ack_token and send_ack_requests: the token, and one REQUEST_ACK per reader and
        link with the number the writer expects of that reader. */
    method SendAckRequests(links: seq<DataLink>) returns (t: Token, sent: seq<seq<Sent>>)
      requires forall i :: 0 <= i < |links| ==> links[i].subscribed <= links[i].targets
      requires forall i, r :: 0 <= i < |links| && r in links[i].targets && r in readerInfo ==> r in links[i].subscribed
      ensures t == IssueToken(View())
      ensures |sent| == |links|
      ensures forall i, r :: 0 <= i < |links| && r in links[i].targets && r in readerInfo ==>
        GetsExactly(sent[i], r, readerInfo[r])
    {
      t := Token(sequenceNumber, map[]);
      var customized: seq<ReaderId>, todo := [], readerInfo.Keys;
      while todo != {}
        invariant todo <= readerInfo.Keys && t.sequence == sequenceNumber
        invariant NoRepeats(customized) && Elements(customized) == t.custom.Keys && Elements(customized) !! todo
        invariant t.custom == map r | r in readerInfo && r !in todo && readerInfo[r] != sequenceNumber :: readerInfo[r]
        decreases todo
      {
        var r :| r in todo;
        if readerInfo[r] != t.sequence {
          assert r !in Elements(customized);
          assert Elements(customized + [r]) == Elements(customized) + {r};
          customized := customized + [r];
          t := t.(custom := t.custom[r := readerInfo[r]]);
        }
        todo := todo - {r};
      }
      sent := SendControlCustomized(links, customized, t);
      forall i, r | 0 <= i < |links| && r in links[i].targets && r in readerInfo
        ensures GetsExactly(sent[i], r, readerInfo[r])
      {
        TokenIsExact(View(), r);
        assert t.custom == IssueToken(View()).custom;
        assert GetsExactly(sent[i], r, Expected(t, r));
      }
    }

    /** One turn of the loop in wait_for_ack_responses.  Looking up a reader that has not
        answered creates its entry with the default number. */
    method CheckAcks(t: Token) returns (done: bool)
      modifies this`idToSequence
      ensures done <==> AllAcked(old(View()), t)
      ensures forall r :: Acked(View(), r) == Acked(old(View()), r)
    {
      ghost var before := View();
      var todo := readers;
      while todo != {}
        invariant todo <= readers
        invariant forall r :: Acked(View(), r) == Acked(before, r)
        invariant forall r :: r in readers && r !in todo ==> Acked(before, r) >= Expected(t, r)
        decreases todo
      {
        var r :| r in todo;
        if r !in idToSequence {
          idToSequence := idToSequence[r := MIN_VALUE];
        }
        if idToSequence[r] < Expected(t, r) {
          assert Acked(before, r) < Expected(t, r);
          return false;
        }
        todo := todo - {r};
      }
      return true;
    }

    /** deliver_ack. */
    method DeliverAck(r: ReaderId, ack: int)
      modifies this`idToSequence
      ensures View() == AckDelivered(old(View()), r, ack)
    {
      if r !in idToSequence {
        idToSequence := idToSequence[r := MIN_VALUE];
      }
      if idToSequence[r] < ack {
        idToSequence := idToSequence[r := ack];
      }
    }

    /** remove_associations for one reader. */
    method RemoveAssociation(r: ReaderId)
      modifies this
      ensures View() == Disassociated(old(View()), r)
    {
      if r in readers {
        readers := readers - {r};
        idToSequence := idToSequence - {r};
      }
      readerInfo := readerInfo - {r};
    }
  }

  /** What a reader keeps about one writer. */
  class WriterInfo {
    var seenData: bool
    const ackSequence: DisjointSequence

    ghost predicate Valid()
      reads this, ackSequence
    {
      ackSequence.Valid()
    }

    ghost function View(): ReaderSide
      reads this, ackSequence
    {
      ReaderSide(seenData, Members(ackSequence.ranges))
    }

    constructor ()
      ensures Valid() && fresh(ackSequence) && View() == ReaderSide(false, iset{})
    {
      seenData := false;
      ackSequence := new DisjointSequence();
    }

    /** writer_activity, the acknowledgement baseline. */
    method WriterActivity(m: Message)
      requires Valid() && m.Data? && 1 <= m.seq_ < MAX_VALUE
      modifies this, ackSequence
      ensures Valid() && View() == Activity(old(View()), m)
    {
      if seenData && !m.repair {
        var _ := ackSequence.InsertRange(Range(m.seq_, m.seq_));
        assert Span(m.seq_, m.seq_) == iset{m.seq_};
      } else {
        seenData := true;
        ackSequence.Reset();
        var _ := ackSequence.InsertRange(Range(MIN_VALUE, m.seq_));
        assert iset{} + Span(MIN_VALUE, m.seq_) == Span(MIN_VALUE, m.seq_);
      }
    }
  }
}
