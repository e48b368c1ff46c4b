/** Who is heard, who is told and who is forgotten in the ownership protocol. */
module OwnershipLaws {
  import opened OwnershipSpec
  import opened OwnershipRuns

  // ----- who is heard -----

  /** Which samples pass the ownership test.  A reader that holds an owner and has evaluated the writer accepts that owner
      only.  Otherwise the writer is elected, and accepted, when nobody owns the instance, when it is stronger than the
      owner, or when it is the owner and has not become weaker; one that has become weaker stays the owner against weaker
      candidates and loses against a stronger one. */
  lemma {:induction false} AcceptedIff(s: State, id: StateId, pub: Writer, accepted: bool, s': State)
    requires Safe(s) && Next(s, Sample(id, pub, accepted), s')
    ensures var n := s.insts[id];
      if n.reader !in s.readers || pub !in s.readers[n.reader].writers then !accepted
      else if n.owner != UNKNOWN && (pub, n.handle) in s.readers[n.reader].evaluated then accepted <==> n.owner == pub
      else if OwnerOf(s, n.handle) == UNKNOWN then accepted
      else
        var owner, strength := s.infos[n.handle].owner, s.readers[n.reader].writers[pub];
        if owner.pub != pub then accepted <==> strength > owner.strength
        else
          && (strength >= owner.strength ==> accepted)
          && ((forall w :: w in s.infos[n.handle].candidates ==> w.strength < strength) ==> accepted)
          && ((exists w :: w in s.infos[n.handle].candidates && w.strength > strength) ==> !accepted)
  {
    var n := s.insts[id];
    if n.reader in s.readers && pub in s.readers[n.reader].writers {
      var r := s.readers[n.reader];
      if n.owner == UNKNOWN || (pub, n.handle) !in r.evaluated {
        var mid :| SelectStep(s, id, pub, r.writers[pub], accepted, mid)
          && s' == mid.(readers := mid.readers[n.reader := r.(evaluated := r.evaluated + {(pub, n.handle)})]);
        if n.handle in s.infos {
          assert EntryOk(s, n.handle);
          ElectedIff(s.infos[n.handle].(states := Joined(s, id)), pub, r.writers[pub], mid.infos[n.handle]);
        }
      }
    }
  }

  lemma {:induction false} ElectedIff(b: Infos, pub: Writer, strength: int, a: Infos)
    requires Elected(b) && pub != UNKNOWN && Selected(b, pub, strength, a)
    ensures b.owner.pub == UNKNOWN ==> a.owner.pub == pub
    ensures b.owner.pub != UNKNOWN && b.owner.pub != pub ==> (a.owner.pub == pub <==> strength > b.owner.strength)
    ensures b.owner.pub == pub && strength >= b.owner.strength ==> a.owner.pub == pub
    ensures b.owner.pub == pub && (forall w :: w in b.candidates ==> w.strength < strength) ==> a.owner.pub == pub
    ensures b.owner.pub == pub && strength < b.owner.strength && (exists w :: w in b.candidates && w.strength > strength)
      ==> a.owner.pub != pub
  {
    SelectKeepsElection(b, pub, strength, a);
    var own := WriterInfo(pub, strength);
    assert Contends(a, own);
    if b.owner.pub == pub && (forall w :: w in b.candidates ==> w.strength < strength) && a.owner.pub != pub {
      assert Contends(a, a.owner);
    }
    if b.owner.pub == pub && strength < b.owner.strength && a.owner.pub == pub {
      assert Contends(a, a.owner) && a.owner == own;
      forall w | w in b.candidates ensures w.strength <= strength {
        CandidatesContend(b, w);
        assert Contends(a, w);
      }
    }
  }

  lemma {:induction false} CandidatesContend(b: Infos, w: WriterInfo)
    requires Elected(b) && w in b.candidates
    ensures Contends(b, w) && w.pub != b.owner.pub
  {
    var i :| 0 <= i < |b.candidates| && b.candidates[i] == w;
  }

  /** A writer that is elected or loses an election contends with the strength it has at that reader. */
  lemma {:induction false} SampleIsRecorded(s: State, id: StateId, pub: Writer, accepted: bool, s': State)
    requires Safe(s) && Next(s, Sample(id, pub, accepted), s')
    requires s.insts[id].reader in s.readers && pub in s.readers[s.insts[id].reader].writers
    requires s.insts[id].owner == UNKNOWN || (pub, s.insts[id].handle) !in s.readers[s.insts[id].reader].evaluated
    ensures var n := s.insts[id];
      && n.handle in s'.infos && Contends(s'.infos[n.handle], WriterInfo(pub, s.readers[n.reader].writers[pub]))
      && id in s'.infos[n.handle].states && n.reader in s'.readers && (pub, n.handle) in s'.readers[n.reader].evaluated
      && (accepted ==> s'.infos[n.handle].owner == WriterInfo(pub, s.readers[n.reader].writers[pub]))
  {
    var n := s.insts[id];
    var r := s.readers[n.reader];
    assert StateOk(s, id);
    var mid :| SelectStep(s, id, pub, r.writers[pub], accepted, mid)
      && s' == mid.(readers := mid.readers[n.reader := r.(evaluated := r.evaluated + {(pub, n.handle)})]);
    if n.handle in s.infos {
      assert EntryOk(s, n.handle);
      SelectKeepsElection(s.infos[n.handle].(states := Joined(s, id)), pub, r.writers[pub], mid.infos[n.handle]);
      assert Contends(mid.infos[n.handle], mid.infos[n.handle].owner);
    }
  }

  // ----- who is heard again -----

  /** The step clears the reader's flag for pub at the instance: another strength, the loss of the writer, or the
      release of an instance that the reader has a state of. */
  predicate ClearsFlag(s: State, e: Event, reader: Reader, pub: Writer, h: Handle) {
    || (e.StrengthChanged? && e.reader == reader && e.pub == pub
        && reader in s.readers && pub in s.readers[reader].writers && s.readers[reader].writers[pub] != e.strength)
    || (e.WriterLost? && e.reader == reader && e.pub == pub)
    || (e == Released(h) && h in s.infos && HasState(s, h, reader))
  }

  predicate HasState(s: State, h: Handle, reader: Reader)
    requires h in s.infos
  {
    exists id :: id in s.infos[h].states && id in s.insts && s.insts[id].reader == reader
  }

  predicate Unevaluated(s: State, reader: Reader, pub: Writer, h: Handle) {
    reader in s.readers ==> (pub, h) !in s.readers[reader].evaluated
  }

  /** A sample of pub for the instance at that reader. */
  predicate Samples(s: State, e: Event, reader: Reader, pub: Writer, h: Handle) {
    e.Sample? && e.pub == pub && e.id in s.insts && s.insts[e.id].reader == reader && s.insts[e.id].handle == h
  }

  lemma {:induction false} FlagIsCleared(s: State, e: Event, s': State, reader: Reader, pub: Writer, h: Handle)
    requires Next(s, e, s') && ClearsFlag(s, e, reader, pub, h)
    ensures Unevaluated(s', reader, pub, h)
  {
  }

  /** Only a sample of the writer itself sets the flag. */
  lemma {:induction false} FlagStaysClear(s: State, e: Event, s': State, reader: Reader, pub: Writer, h: Handle)
    requires Next(s, e, s') && Unevaluated(s, reader, pub, h) && !Samples(s, e, reader, pub, h)
    ensures Unevaluated(s', reader, pub, h)
  {
  }

  lemma {:induction false} ClearUntilSampled(states: seq<State>, events: seq<Event>, i: nat, j: nat, reader: Reader, pub: Writer, h: Handle)
    requires IsRun(states, events) && i < j < |states| && ClearsFlag(states[i], events[i], reader, pub, h)
    requires forall k :: i < k < j ==> !Samples(states[k], events[k], reader, pub, h)
    ensures Unevaluated(states[j], reader, pub, h)
    decreases j - i
  {
    assert Next(states[j - 1], events[j - 1], states[j]);
    if i == j - 1 {
      FlagIsCleared(states[i], events[i], states[j], reader, pub, h);
    } else {
      ClearUntilSampled(states, events, i, j - 1, reader, pub, h);
      FlagStaysClear(states[j - 1], events[j - 1], states[j], reader, pub, h);
    }
  }

  /** In every run, after a step that clears the flag, the first sample of a writer that is stronger than the owner is
      accepted. */
  lemma {:induction false} HeardAgain(states: seq<State>, events: seq<Event>, i: nat, j: nat, id: StateId, pub: Writer, accepted: bool)
    requires IsRun(states, events) && i < j < |events| && events[j] == Sample(id, pub, accepted) && Competes(states[j], id, pub)
    requires var n := states[j].insts[id];
      && ClearsFlag(states[i], events[i], n.reader, pub, n.handle)
      && forall k :: i < k < j ==> !Samples(states[k], events[k], n.reader, pub, n.handle)
    ensures accepted
  {
    var n := states[j].insts[id];
    ClearUntilSampled(states, events, i, j, n.reader, pub, n.handle);
    RunsAreSafe(states, events, j);
    assert Next(states[j], events[j], states[j + 1]);
    StrongerIsHeardIff(states[j], id, pub, accepted, states[j + 1]);
  }

  /** A writer that was raised above the owner is accepted with its next sample. */
  lemma {:induction false} RaisedIsHeard(s: State, reader: Reader, pub: Writer, strength: int, s': State, id: StateId, accepted: bool, s'': State)
    requires Safe(s) && Next(s, StrengthChanged(reader, pub, strength), s') && Next(s', Sample(id, pub, accepted), s'')
    requires s.readers[reader].writers[pub] != strength && id in s.insts && s.insts[id].reader == reader
    requires var h := s.insts[id].handle; h in s.infos && s.infos[h].owner.pub != pub && strength > s.infos[h].owner.strength
    ensures accepted
  {
    NextIsSafe(s, StrengthChanged(reader, pub, strength), s');
    StrongerIsHeardIff(s', id, pub, accepted, s'');
  }

  // ----- who is told -----

  /** When a step changes the owner of an instance, every registered state of it holds the new owner afterwards. */
  lemma {:induction false} ChangeReachesAll(s: State, e: Event, s': State, h: Handle)
    requires Safe(s) && Next(s, e, s') && h in s'.infos && OwnerOf(s', h) != OwnerOf(s, h)
    ensures forall id :: id in s'.infos[h].states ==> id in s'.insts && s'.insts[id].owner == OwnerOf(s', h)
  {
    if h in s.infos { assert EntryOk(s, h); }
    match e
    case Sample(id, pub, accepted) => SampleReachesAll(s, id, pub, accepted, s', h);
    case _ =>
  }

  lemma {:induction false} SampleReachesAll(s: State, id: StateId, pub: Writer, accepted: bool, s': State, h: Handle)
    requires Safe(s) && SampleStep(s, id, pub, accepted, s') && h in s'.infos && OwnerOf(s', h) != OwnerOf(s, h)
    ensures forall i :: i in s'.infos[h].states ==> i in s'.insts && s'.insts[i].owner == OwnerOf(s', h)
  {
    var n := s.insts[id];
    var r := s.readers[n.reader];
    var mid :| SelectStep(s, id, pub, r.writers[pub], accepted, mid)
      && s' == mid.(readers := mid.readers[n.reader := r.(evaluated := r.evaluated + {(pub, n.handle)})]);
    SelectHasFrame(s, id, pub, r.writers[pub], accepted, mid);
    if h in s.infos { assert EntryOk(s, h); }
  }

  /** A state without an owner that takes part in an election of an owned instance is told the owner if and only if the
      owner was challenged by a stronger writer or has become weaker itself; it may accept a sample and still hold no
      owner. */
  lemma {:induction false} ToldIff(s: State, id: StateId, pub: Writer, accepted: bool, s': State)
    requires Safe(s) && Next(s, Sample(id, pub, accepted), s') && s.insts[id].owner == UNKNOWN
    requires s.insts[id].reader in s.readers && pub in s.readers[s.insts[id].reader].writers
    requires OwnerOf(s, s.insts[id].handle) != UNKNOWN
    ensures id in s'.insts
    ensures var owner, strength := s.infos[s.insts[id].handle].owner, s.readers[s.insts[id].reader].writers[pub];
      var told := if owner.pub == pub then strength < owner.strength else strength > owner.strength;
      s'.insts[id].owner == if told then OwnerOf(s', s.insts[id].handle) else UNKNOWN
  {
    var n := s.insts[id];
    var r := s.readers[n.reader];
    assert StateOk(s, id) && EntryOk(s, n.handle);
    var mid :| SelectStep(s, id, pub, r.writers[pub], accepted, mid)
      && s' == mid.(readers := mid.readers[n.reader := r.(evaluated := r.evaluated + {(pub, n.handle)})]);
  }

  /** A candidate whose strength has not changed leaves the order of the candidates as it is. */
  lemma {:induction false} UnchangedOrder(c: seq<WriterInfo>, pub: Writer, strength: int, t: seq<WriterInfo>)
    requires Distinct(c) && WriterInfo(pub, strength) in c && Ranked(c, pub, strength, t)
    ensures t == c
  {
    var k :| 0 <= k < |c| && c[k] == WriterInfo(pub, strength);
    assert Find(c, pub) == k;
  }

  // ----- who is forgotten -----

  predicate Listed(n: Infos, pub: Writer) {
    n.owner.pub == pub || exists w :: w in n.candidates && w.pub == pub
  }

  lemma {:induction false} RemovedFrom(b: Infos, pub: Writer, a: Infos)
    requires Elected(b) && pub != UNKNOWN && WriterRemoved(b, pub, a)
    ensures !Listed(a, pub)
  {
    if b.owner.pub == pub {
      RemoveOwnerKeepsElection(b, a);
      forall w | w in a.candidates ensures w.pub != pub {
        CandidatesContend(a, w);
        CandidatesContend(b, w);
      }
      if a.owner.pub != UNKNOWN {
        assert Contends(a, a.owner);
        CandidatesContend(b, a.owner);
      }
    } else {
      RemoveCandidateKeepsElection(b, pub, a);
      forall w | w in a.candidates ensures w.pub != pub {
        CandidatesContend(a, w);
      }
    }
  }

  /** A writer that unregisters is no longer owner or candidate of the instance, a lost writer of no instance, and a
      released instance has no entry and no owner at any of its states. */
  lemma {:induction false} RemovedIsGone(s: State, e: Event, s': State, h: Handle)
    requires Safe(s) && Next(s, e, s')
    ensures e.Unregistered? && e.handle == h && h in s'.infos ==> !Listed(s'.infos[h], e.pub)
    ensures e.WriterLost? && h in s'.infos ==> !Listed(s'.infos[h], e.pub)
    ensures e.WriterLost? ==>
      && e.reader in s'.readers
      && (e.pub in s'.readers[e.reader].writers <==> !e.removed && e.pub in s.readers[e.reader].writers)
    ensures e == Released(h) ==> h !in s'.infos && forall id :: id in s'.insts && s'.insts[id].handle == h ==> s'.insts[id].owner == UNKNOWN
  {
    if h in s.infos { assert EntryOk(s, h); }
    if ((e.Unregistered? && e.handle == h) || e.WriterLost?) && h in s'.infos {
      RemovedFrom(s.infos[h], e.pub, s'.infos[h]);
    }
    if e == Released(h) {
      forall id | id in s'.insts && s'.insts[id].handle == h ensures s'.insts[id].owner == UNKNOWN { assert StateOk(s, id); }
    }
  }
}
