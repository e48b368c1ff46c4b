/** Every run of the ownership protocol: many readers, each with its own InstanceStates and
    writers, share one OwnershipManager. */
module OwnershipRuns {
  import opened OwnershipSpec

  /** broadcast_new_owner. */
  function Broadcast(insts: map<StateId, InstanceState>, states: seq<StateId>, owner: Writer): map<StateId, InstanceState> {
    map id | id in insts :: if id in states then insts[id].(owner := owner) else insts[id]
  }

  function Register(insts: map<StateId, InstanceState>, id: StateId): map<StateId, InstanceState>
    requires id in insts
  {
    insts[id := insts[id].(registered := true)]
  }

  /** select_owner: register the state, run the election, broadcast if the branch does. */
  ghost predicate SelectStep(s: State, id: StateId, pub: Writer, strength: int, won: bool, s': State) {
    && id in s.insts && s'.readers == s.readers
    && var h := s.insts[id].handle;
    && var joining := if s.insts[id].registered then [] else [id];
    && h in s'.infos
    && var a := s'.infos[h];
    && s'.infos == s.infos[h := a]
    && won == (a.owner.pub == pub)
    && if h in s.infos then
         var b := s.infos[h].(states := s.infos[h].states + joining);
         && Selected(b, pub, strength, a)
         && s'.insts == if Broadcasts(b, pub, strength) then Broadcast(Register(s.insts, id), b.states, a.owner.pub)
                        else Register(s.insts, id)
       else
         && a == Infos(WriterInfo(pub, strength), [], joining)
         && s'.insts == Broadcast(Register(s.insts, id), joining, pub)
  }

  /** The ownership test of filter_instance. */
  ghost predicate SampleStep(s: State, id: StateId, pub: Writer, accepted: bool, s': State) {
    && id in s.insts
    && var n := s.insts[id];
    if n.reader !in s.readers || pub !in s.readers[n.reader].writers then
      !accepted && s' == s
    else
      var r := s.readers[n.reader];
      if n.owner == UNKNOWN || (pub, n.handle) !in r.evaluated then
        exists mid :: SelectStep(s, id, pub, r.writers[pub], accepted, mid)
          && s' == mid.(readers := mid.readers[n.reader := r.(evaluated := r.evaluated + {(pub, n.handle)})])
      else
        accepted == (n.owner == pub) && s' == s
  }

  /** remove_writer(infos, pub) on one entry. */
  ghost predicate WriterRemoved(b: Infos, pub: Writer, a: Infos) {
    if b.owner.pub == pub then OwnerRemoved(b, a, false)
    else a == b.(candidates := Without(b.candidates, pub))
  }

  /** remove_writer(handle, pub), as unregister_was_received calls it. */
  ghost predicate UnregisterStep(s: State, h: Handle, pub: Writer, s': State) {
    && s'.readers == s.readers
    && if h !in s.infos then s' == s
       else
         && h in s'.infos && s'.infos == s.infos[h := s'.infos[h]]
         && WriterRemoved(s.infos[h], pub, s'.infos[h])
         && s'.insts == if s.infos[h].owner.pub == pub then Broadcast(s.insts, s.infos[h].states, s'.infos[h].owner.pub)
                        else s.insts
  }

  /** What remove_writer(pub) over all instances does to one InstanceState. */
  function AfterLoss(n: InstanceState, id: StateId, pub: Writer, before: map<Handle, Infos>, after: map<Handle, Infos>): InstanceState
    requires before.Keys == after.Keys
  {
    if n.handle in before && before[n.handle].owner.pub == pub && id in before[n.handle].states
    then n.(owner := after[n.handle].owner.pub) else n
  }

  /** writer_removed and writer_became_dead: remove_writer(pub), then clear_owner_evaluated;
      a removed writer also leaves the reader's writers_. */
  ghost predicate WriterLostStep(s: State, reader: Reader, pub: Writer, removed: bool, s': State) {
    && reader in s.readers
    && s'.infos.Keys == s.infos.Keys
    && (forall h :: h in s.infos ==> WriterRemoved(s.infos[h], pub, s'.infos[h]))
    && s'.insts == (map id | id in s.insts :: AfterLoss(s.insts[id], id, pub, s.infos, s'.infos))
    && s'.readers == s.readers[reader := Forget(s.readers[reader], pub, removed)]
  }

  function Forget(r: ReaderState, pub: Writer, removed: bool): ReaderState {
    ReaderState(if removed then r.writers - {pub} else r.writers, set p | p in r.evaluated && p.0 != pub)
  }

  function ResetFlags(r: ReaderState, h: Handle): ReaderState {
    r.(evaluated := set p | p in r.evaluated && p.1 != h)
  }

  /** remove_writers(handle): the entry goes and every registered state is reset. */
  ghost predicate ReleaseStep(s: State, h: Handle, s': State) {
    if h !in s.infos then s' == s
    else
      var states := s.infos[h].states;
      && s'.infos == s.infos - {h}
      && s'.insts == (map id | id in s.insts :: if id in states then s.insts[id].(owner := UNKNOWN, registered := false) else s.insts[id])
      && s'.readers == (map r | r in s.readers ::
           if exists id :: id in states && id in s.insts && s.insts[id].reader == r then ResetFlags(s.readers[r], h) else s.readers[r])
  }

  /** remove_instance, from the destructor of a registered InstanceState. */
  function Drop(states: seq<StateId>, id: StateId): seq<StateId> {
    var k := IndexFrom(states, id, 0);
    if k < |states| then states[..k] + states[k + 1..] else states
  }

  function IndexFrom(states: seq<StateId>, id: StateId, from: nat): (k: nat)
    requires from <= |states|
    ensures from <= k <= |states|
    ensures forall i :: from <= i < k ==> states[i] != id
    ensures k < |states| ==> states[k] == id
    decreases |states| - from
  {
    if from == |states| || states[from] == id then from else IndexFrom(states, id, from + 1)
  }

  ghost predicate DestroyStep(s: State, id: StateId, s': State) {
    && id in s.insts
    && var n := s.insts[id];
    && s'.insts == s.insts - {id} && s'.readers == s.readers
    && s'.infos == if n.registered && n.handle in s.infos
         then s.infos[n.handle := s.infos[n.handle].(states := Drop(s.infos[n.handle].states, id))] else s.infos
  }

  datatype Event =
    | Created(id: StateId, handle: Handle, reader: Reader)
    | Destroyed(id: StateId)
    | Associated(reader: Reader, pub: Writer, strength: int)
    | StrengthChanged(reader: Reader, pub: Writer, strength: int)
    | Sample(id: StateId, pub: Writer, accepted: bool)
    | Unregistered(handle: Handle, pub: Writer)
    | WriterLost(reader: Reader, pub: Writer, removed: bool)
    | Released(handle: Handle)

  ghost predicate Next(s: State, e: Event, s': State) {
    match e
    case Created(id, handle, reader) =>
      id !in s.insts && s' == s.(insts := s.insts[id := InstanceState(handle, reader, UNKNOWN, false)])
    case Destroyed(id) => DestroyStep(s, id, s')
    case Associated(reader, pub, strength) =>
      && pub != UNKNOWN
      && var r := if reader in s.readers then s.readers[reader] else ReaderState(map[], {});
      s' == s.(readers := s.readers[reader := r.(writers := r.writers[pub := strength])])
    case StrengthChanged(reader, pub, strength) =>
      && reader in s.readers && pub in s.readers[reader].writers
      && var r := s.readers[reader];
      s' == if r.writers[pub] == strength then s
            else s.(readers := s.readers[reader := Forget(r, pub, false).(writers := r.writers[pub := strength])])
    case Sample(id, pub, accepted) => SampleStep(s, id, pub, accepted, s')
    case Unregistered(handle, pub) => pub != UNKNOWN && UnregisterStep(s, handle, pub, s')
    case WriterLost(reader, pub, removed) => pub != UNKNOWN && WriterLostStep(s, reader, pub, removed, s')
    case Released(handle) => ReleaseStep(s, handle, s')
  }

  const START := State(map[], map[], map[])

  // ----- the invariant -----

  /** A registered state is listed exactly at its handle, listed states exist, and a state's
      owner is unknown or the manager's. */
  ghost predicate StateOk(s: State, id: StateId)
    requires id in s.insts
  {
    var n := s.insts[id];
    && (n.registered <==> n.handle in s.infos && id in s.infos[n.handle].states)
    && (n.owner == UNKNOWN || (n.registered && n.owner == s.infos[n.handle].owner.pub))
  }

  ghost predicate EntryOk(s: State, h: Handle)
    requires h in s.infos
  {
    && Elected(s.infos[h])
    && (forall i, j :: 0 <= i < j < |s.infos[h].states| ==> s.infos[h].states[i] != s.infos[h].states[j])
    && (forall id :: id in s.infos[h].states ==> id in s.insts && s.insts[id].handle == h)
  }

  ghost predicate Safe(s: State) {
    && (forall h :: h in s.infos ==> EntryOk(s, h))
    && (forall id :: id in s.insts ==> StateOk(s, id))
    && (forall r, w :: r in s.readers && w in s.readers[r].writers ==> w != UNKNOWN)
  }

  /** The states listed for an instance once id has joined. */
  function Joined(s: State, id: StateId): seq<StateId>
    requires id in s.insts
  {
    var h := s.insts[id].handle;
    (if h in s.infos then s.infos[h].states else []) + (if s.insts[id].registered then [] else [id])
  }

  /** The frame of select_owner: one entry changes, and the states either all learn the new
      owner or keep the old one, who is still the owner. */
  ghost predicate SelectFrame(s: State, id: StateId, s': State) {
    && id in s.insts
    && var h := s.insts[id].handle;
    && h in s'.infos && s'.infos == s.infos[h := s'.infos[h]]
    && Elected(s'.infos[h]) && s'.infos[h].states == Joined(s, id) && s'.readers == s.readers
    && (|| s'.insts == Broadcast(Register(s.insts, id), Joined(s, id), s'.infos[h].owner.pub)
        || (s'.insts == Register(s.insts, id) && h in s.infos && s'.infos[h].owner.pub == s.infos[h].owner.pub))
  }

  lemma {:induction false} SelectHasFrame(s: State, id: StateId, pub: Writer, strength: int, won: bool, s': State)
    requires Safe(s) && pub != UNKNOWN && SelectStep(s, id, pub, strength, won, s')
    ensures SelectFrame(s, id, s')
  {
    var h := s.insts[id].handle;
    if h in s.infos {
      assert EntryOk(s, h);
      SelectKeepsElection(s.infos[h].(states := Joined(s, id)), pub, strength, s'.infos[h]);
    }
  }

  lemma {:induction false} JoinedEntry(s: State, id: StateId, s': State)
    requires Safe(s) && SelectFrame(s, id, s')
    ensures EntryOk(s', s.insts[id].handle)
  {
    assert StateOk(s, id);
    var h := s.insts[id].handle;
    if h in s.infos { assert EntryOk(s, h); }
  }

  lemma {:induction false} JoinedState(s: State, id: StateId, s': State, i: StateId)
    requires Safe(s) && SelectFrame(s, id, s') && i in s'.insts
    ensures StateOk(s', i)
  {
    assert StateOk(s, i);
    assert StateOk(s, id);
  }

  lemma {:induction false} SelectIsSafe(s: State, id: StateId, pub: Writer, strength: int, won: bool, s': State)
    requires Safe(s) && pub != UNKNOWN && SelectStep(s, id, pub, strength, won, s')
    ensures Safe(s')
    ensures s.insts[id].handle in s'.infos
    ensures won <==> s'.infos[s.insts[id].handle].owner.pub == pub
  {
    SelectHasFrame(s, id, pub, strength, won, s');
    FrameIsSafe(s, id, s');
  }

  lemma {:induction false} FrameIsSafe(s: State, id: StateId, s': State)
    requires Safe(s) && SelectFrame(s, id, s')
    ensures Safe(s')
  {
    JoinedEntry(s, id, s');
    forall g | g in s'.infos ensures EntryOk(s', g) {
      if g != s.insts[id].handle { assert EntryOk(s, g); }
    }
    forall i | i in s'.insts ensures StateOk(s', i) { JoinedState(s, id, s', i); }
  }

  lemma {:induction false} UnregisterIsSafe(s: State, h: Handle, pub: Writer, s': State)
    requires Safe(s) && pub != UNKNOWN && UnregisterStep(s, h, pub, s')
    ensures Safe(s')
  {
    if h in s.infos {
      assert EntryOk(s, h);
      RemovalKeepsElection(s.infos[h], pub, s'.infos[h]);
      forall g | g in s'.infos ensures EntryOk(s', g) {
        if g != h { assert EntryOk(s, g); }
      }
      forall i | i in s'.insts ensures StateOk(s', i) { assert StateOk(s, i); }
    }
  }

  lemma {:induction false} RemovalKeepsElection(b: Infos, pub: Writer, a: Infos)
    requires Elected(b) && WriterRemoved(b, pub, a)
    ensures Elected(a) && a.states == b.states
    ensures b.owner.pub != pub ==> a.owner == b.owner
  {
    if b.owner.pub == pub { RemoveOwnerKeepsElection(b, a); } else { RemoveCandidateKeepsElection(b, pub, a); }
  }

  lemma {:induction false} LossIsSafe(s: State, reader: Reader, pub: Writer, removed: bool, s': State)
    requires Safe(s) && pub != UNKNOWN && WriterLostStep(s, reader, pub, removed, s')
    ensures Safe(s')
  {
    forall h | h in s'.infos ensures EntryOk(s', h) && s'.infos[h].states == s.infos[h].states {
      assert EntryOk(s, h);
      assert WriterRemoved(s.infos[h], pub, s'.infos[h]);
      RemovalKeepsElection(s.infos[h], pub, s'.infos[h]);
    }
    forall i | i in s'.insts ensures StateOk(s', i) {
      assert StateOk(s, i);
      var h := s.insts[i].handle;
      if h in s.infos {
        assert EntryOk(s, h);
        assert WriterRemoved(s.infos[h], pub, s'.infos[h]);
        RemovalKeepsElection(s.infos[h], pub, s'.infos[h]);
      }
    }
  }

  lemma {:induction false} ReleaseIsSafe(s: State, h: Handle, s': State)
    requires Safe(s) && ReleaseStep(s, h, s')
    ensures Safe(s')
  {
    forall g | g in s'.infos ensures EntryOk(s', g) { assert EntryOk(s, g); }
    if h in s.infos { assert EntryOk(s, h); }
    forall i | i in s'.insts ensures StateOk(s', i) { assert StateOk(s, i); }
  }

  lemma {:induction false} DropAt(states: seq<StateId>, id: StateId, k: nat, i: nat)
    requires k == IndexFrom(states, id, 0) < |states| && i < |states| - 1
    ensures |Drop(states, id)| == |states| - 1 && Drop(states, id)[i] == states[if i < k then i else i + 1]
  {
  }

  lemma {:induction false} DroppedHas(states: seq<StateId>, id: StateId, x: StateId)
    requires forall i, j :: 0 <= i < j < |states| ==> states[i] != states[j]
    ensures x in Drop(states, id) <==> x in states && x != id
  {
    var k, d := IndexFrom(states, id, 0), Drop(states, id);
    if k < |states| {
      if x in states && x != id {
        var i :| 0 <= i < |states| && states[i] == x;
        DropAt(states, id, k, if i < k then i else i - 1);
      }
      if x in d {
        var i :| 0 <= i < |d| && d[i] == x;
        DropAt(states, id, k, i);
      }
    }
  }

  lemma {:induction false} Dropped(states: seq<StateId>, id: StateId)
    requires forall i, j :: 0 <= i < j < |states| ==> states[i] != states[j]
    ensures forall i, j :: 0 <= i < j < |Drop(states, id)| ==> Drop(states, id)[i] != Drop(states, id)[j]
    ensures forall x :: x in Drop(states, id) <==> x in states && x != id
  {
    forall x ensures x in Drop(states, id) <==> x in states && x != id { DroppedHas(states, id, x); }
    var k, d := IndexFrom(states, id, 0), Drop(states, id);
    if k < |states| {
      forall i, j | 0 <= i < j < |d| ensures d[i] != d[j] {
        DropAt(states, id, k, i);
        DropAt(states, id, k, j);
      }
    }
  }

  lemma {:induction false} DestroyIsSafe(s: State, id: StateId, s': State)
    requires Safe(s) && DestroyStep(s, id, s')
    ensures Safe(s')
  {
    assert StateOk(s, id);
    forall g | g in s'.infos ensures EntryOk(s', g) {
      assert EntryOk(s, g);
      Dropped(s.infos[g].states, id);
    }
    forall i | i in s'.insts ensures StateOk(s', i) {
      assert StateOk(s, i);
      if s.insts[i].handle in s.infos {
        assert EntryOk(s, s.insts[i].handle);
        Dropped(s.infos[s.insts[i].handle].states, id);
      }
    }
  }

  lemma {:induction false} SampleIsSafe(s: State, id: StateId, pub: Writer, accepted: bool, s': State)
    requires Safe(s) && SampleStep(s, id, pub, accepted, s')
    ensures Safe(s')
    ensures accepted ==> s.insts[id].handle in s'.infos && s'.infos[s.insts[id].handle].owner.pub == pub
  {
    var n := s.insts[id];
    assert StateOk(s, id);
    if n.reader in s.readers && pub in s.readers[n.reader].writers {
      var r := s.readers[n.reader];
      if n.owner == UNKNOWN || (pub, n.handle) !in r.evaluated {
        var mid :| SelectStep(s, id, pub, r.writers[pub], accepted, mid)
          && s' == mid.(readers := mid.readers[n.reader := r.(evaluated := r.evaluated + {(pub, n.handle)})]);
        SelectIsSafe(s, id, pub, r.writers[pub], accepted, mid);
        forall h | h in s'.infos ensures EntryOk(s', h) { assert EntryOk(mid, h); }
        forall i | i in s'.insts ensures StateOk(s', i) { assert StateOk(mid, i); }
      }
    }
  }

  /** Every step keeps the invariant. */
  lemma {:induction false} NextIsSafe(s: State, e: Event, s': State)
    requires Safe(s) && Next(s, e, s')
    ensures Safe(s')
  {
    match e
    case Sample(id, pub, accepted) => SampleIsSafe(s, id, pub, accepted, s');
    case Unregistered(h, pub) => UnregisterIsSafe(s, h, pub, s');
    case WriterLost(r, pub, removed) => LossIsSafe(s, r, pub, removed, s');
    case Released(h) => ReleaseIsSafe(s, h, s');
    case Destroyed(id) => DestroyIsSafe(s, id, s');
    case _ =>
      forall h | h in s'.infos ensures EntryOk(s', h) { assert EntryOk(s, h); }
      forall i | i in s'.insts ensures StateOk(s', i) { if i in s.insts { assert StateOk(s, i); } }
  }

  ghost predicate IsRun(states: seq<State>, events: seq<Event>) {
    && |states| == |events| + 1 && states[0] == START
    && forall i :: 0 <= i < |events| ==> Next(states[i], events[i], states[i + 1])
  }

  /** The invariant holds in every reachable state. */
  lemma {:induction false} RunsAreSafe(states: seq<State>, events: seq<Event>, k: nat)
    requires IsRun(states, events) && k < |states|
    ensures Safe(states[k])
  {
    if k > 0 {
      RunsAreSafe(states, events, k - 1);
      NextIsSafe(states[k - 1], events[k - 1], states[k]);
    }
  }

  function OwnerOf(s: State, h: Handle): Writer {
    if h in s.infos then s.infos[h].owner.pub else UNKNOWN
  }

  /** In every reachable state, every InstanceState of every reader agrees with the manager or
      has no owner, and no contender outranks the owner. */
  lemma {:induction false} OwnersAgree(states: seq<State>, events: seq<Event>, k: nat, id: StateId)
    requires IsRun(states, events) && k < |states| && id in states[k].insts
    ensures states[k].insts[id].owner in {UNKNOWN, OwnerOf(states[k], states[k].insts[id].handle)}
    ensures forall h, w :: h in states[k].infos && Contends(states[k].infos[h], w) ==> w.strength <= states[k].infos[h].owner.strength
  {
    RunsAreSafe(states, events, k);
    assert StateOk(states[k], id);
    forall h, w | h in states[k].infos && Contends(states[k].infos[h], w)
      ensures w.strength <= states[k].infos[h].owner.strength
    {
      assert EntryOk(states[k], h);
    }
  }

  /** A sample that passes the ownership test of any reader comes from the manager's owner. */
  lemma {:induction false} AcceptedComeFromTheOwner(states: seq<State>, events: seq<Event>, k: nat)
    requires IsRun(states, events) && k < |events|
    requires events[k].Sample? && events[k].accepted
    ensures OwnerOf(states[k + 1], states[k].insts[events[k].id].handle) == events[k].pub
  {
    RunsAreSafe(states, events, k);
    SampleIsSafe(states[k], events[k].id, events[k].pub, true, states[k + 1]);
  }

  /** Two accepted samples of one instance from different writers, at any two readers, have a
      change of owner between them. */
  lemma {:induction false} OneWriterBetweenOwnerChanges(states: seq<State>, events: seq<Event>, i: nat, j: nat, h: Handle)
    requires IsRun(states, events) && i < j < |events|
    requires events[i].Sample? && events[i].accepted && events[i].id in states[i].insts && states[i].insts[events[i].id].handle == h
    requires events[j].Sample? && events[j].accepted && events[j].id in states[j].insts && states[j].insts[events[j].id].handle == h
    requires events[i].pub != events[j].pub
    ensures exists k :: i < k <= j && OwnerOf(states[k], h) != OwnerOf(states[k + 1], h)
  {
    AcceptedComeFromTheOwner(states, events, i);
    AcceptedComeFromTheOwner(states, events, j);
    SomeChange(states, h, i + 1, j + 1);
  }

  lemma {:induction false} SomeChange(states: seq<State>, h: Handle, i: nat, j: nat)
    requires i < j < |states| && OwnerOf(states[i], h) != OwnerOf(states[j], h)
    ensures exists k :: i <= k < j && OwnerOf(states[k], h) != OwnerOf(states[k + 1], h)
  {
    if OwnerOf(states[j - 1], h) == OwnerOf(states[i], h) {
      assert OwnerOf(states[j - 1], h) != OwnerOf(states[j - 1 + 1], h);
    } else {
      SomeChange(states, h, i, j - 1);
    }
  }

  /** The owner_evaluated_ flag outlives the election: a writer that unregisters while another
      candidate waits is shut out at this reader afterwards. */
  lemma {:induction false} ReturningWriterIsShutOut(s: State, id: StateId, pub: Writer, s': State, accepted: bool, s'': State)
    requires Safe(s) && id in s.insts && pub != UNKNOWN && s.insts[id].owner == pub
    requires var n := s.insts[id]; n.reader in s.readers && (pub, n.handle) in s.readers[n.reader].evaluated
    requires var h := s.insts[id].handle;
      && h in s.infos && s.infos[h].candidates != []
      && Next(s, Unregistered(h, pub), s')
    requires Next(s', Sample(id, pub, accepted), s'')
    ensures !accepted && s'' == s' && ShutOut(s', id, pub)
    ensures OwnerOf(s', s.insts[id].handle) !in {UNKNOWN, pub}
  {
    var h := s.insts[id].handle;
    assert StateOk(s, id) && EntryOk(s, h);
    RemoveOwnerKeepsElection(s.infos[h], s'.infos[h]);
    assert Contends(s'.infos[h], s'.infos[h].owner);
  }

  /** A writer stronger than the present owner is heard exactly when this reader has no owner for the instance or has not
      evaluated the writer there yet. */
  lemma {:induction false} StrongerIsHeardIff(s: State, id: StateId, pub: Writer, accepted: bool, s': State)
    requires Safe(s) && Next(s, Sample(id, pub, accepted), s') && Competes(s, id, pub)
    ensures var n := s.insts[id];
      accepted <==> n.owner == UNKNOWN || (pub, n.handle) !in s.readers[n.reader].evaluated
  {
    var n := s.insts[id];
    var h, r := n.handle, s.readers[n.reader];
    assert StateOk(s, id) && EntryOk(s, h);
    if n.owner == UNKNOWN || (pub, h) !in r.evaluated {
      var mid :| SelectStep(s, id, pub, r.writers[pub], accepted, mid)
        && s' == mid.(readers := mid.readers[n.reader := r.(evaluated := r.evaluated + {(pub, h)})]);
      SelectKeepsElection(s.infos[h].(states := Joined(s, id)), pub, r.writers[pub], mid.infos[h]);
    }
  }

  /** The reader of the state knows pub, another writer or nobody owns the instance, and pub is stronger. */
  predicate Competes(s: State, id: StateId, pub: Writer) {
    && id in s.insts && s.insts[id].reader in s.readers && pub in s.readers[s.insts[id].reader].writers
    && s.insts[id].handle in s.infos && s.infos[s.insts[id].handle].owner.pub != pub
    && s.readers[s.insts[id].reader].writers[pub] > s.infos[s.insts[id].handle].owner.strength
  }

  /** The reader has evaluated pub, and holds another owner. */
  predicate ShutOut(s: State, id: StateId, pub: Writer) {
    && id in s.insts && s.insts[id].owner !in {UNKNOWN, pub}
    && s.insts[id].reader in s.readers && (pub, s.insts[id].handle) in s.readers[s.insts[id].reader].evaluated
  }

  /** A step that may give pub another hearing: its evaluation is forgotten at that reader, the instance is given up, or
      the instance passes to pub or to nobody. */
  predicate Rehears(s: State, e: Event, s': State, id: StateId, pub: Writer)
    requires id in s.insts
  {
    var n := s.insts[id];
    || e == Destroyed(id) || e == Released(n.handle) || OwnerOf(s', n.handle) in {UNKNOWN, pub}
    || ((e.WriterLost? || e.StrengthChanged?) && e.reader == n.reader && e.pub == pub)
  }

  lemma {:induction false} ShutOutStays(s: State, e: Event, s': State, id: StateId, pub: Writer)
    requires Safe(s) && Next(s, e, s') && ShutOut(s, id, pub) && !Rehears(s, e, s', id, pub)
    ensures ShutOut(s', id, pub) && s'.insts[id].handle == s.insts[id].handle && s'.insts[id].reader == s.insts[id].reader
  {
    assert StateOk(s, id) && EntryOk(s, s.insts[id].handle);
    match e
    case Sample(other, w, accepted) => SampleKeepsShutOut(s, other, w, accepted, s', id, pub);
    case Unregistered(_, _) => RemovalKeepsShutOut(s, e, s', id, pub);
    case WriterLost(_, _, _) => RemovalKeepsShutOut(s, e, s', id, pub);
    case Released(_) => ReleaseKeepsShutOut(s, e, s', id, pub);
    case _ =>
  }

  lemma {:induction false} RemovalKeepsShutOut(s: State, e: Event, s': State, id: StateId, pub: Writer)
    requires Safe(s) && Next(s, e, s') && (e.Unregistered? || e.WriterLost?) && ShutOut(s, id, pub) && !Rehears(s, e, s', id, pub)
    ensures ShutOut(s', id, pub) && s'.insts[id].handle == s.insts[id].handle && s'.insts[id].reader == s.insts[id].reader
  {
    assert StateOk(s, id);
  }

  lemma {:induction false} ReleaseKeepsShutOut(s: State, e: Event, s': State, id: StateId, pub: Writer)
    requires Safe(s) && Next(s, e, s') && e.Released? && ShutOut(s, id, pub) && !Rehears(s, e, s', id, pub)
    ensures ShutOut(s', id, pub) && s'.insts[id].handle == s.insts[id].handle && s'.insts[id].reader == s.insts[id].reader
  {
    assert StateOk(s, id) && (e.handle in s.infos ==> EntryOk(s, e.handle));
  }

  lemma {:induction false} SampleKeepsShutOut(s: State, other: StateId, w: Writer, accepted: bool, s': State, id: StateId, pub: Writer)
    requires Safe(s) && SampleStep(s, other, w, accepted, s') && ShutOut(s, id, pub)
    requires OwnerOf(s', s.insts[id].handle) !in {UNKNOWN, pub}
    ensures ShutOut(s', id, pub) && s'.insts[id].handle == s.insts[id].handle && s'.insts[id].reader == s.insts[id].reader
  {
    var n := s.insts[other];
    assert StateOk(s, id) && StateOk(s, other);
    if n.reader in s.readers && w in s.readers[n.reader].writers {
      var r := s.readers[n.reader];
      if n.owner == UNKNOWN || (w, n.handle) !in r.evaluated {
        var mid :| SelectStep(s, other, w, r.writers[w], accepted, mid)
          && s' == mid.(readers := mid.readers[n.reader := r.(evaluated := r.evaluated + {(w, n.handle)})]);
        SelectHasFrame(s, other, w, r.writers[w], accepted, mid);
        FrameKeepsOwner(s, other, mid, id, pub);
      }
    }
  }

  /** The state keeps an owner other than pub when the manager does. */
  lemma {:induction false} FrameKeepsOwner(s: State, other: StateId, mid: State, id: StateId, pub: Writer)
    requires SelectFrame(s, other, mid) && id in s.insts && s.insts[id].owner !in {UNKNOWN, pub} && StateOk(s, id)
    requires s.insts[other].handle in s.infos ==> EntryOk(s, s.insts[other].handle)
    requires OwnerOf(mid, s.insts[id].handle) !in {UNKNOWN, pub}
    ensures id in mid.insts && mid.insts[id].owner !in {UNKNOWN, pub}
    ensures mid.insts[id].handle == s.insts[id].handle && mid.insts[id].reader == s.insts[id].reader
  {
  }

  /** In every run a writer that is shut out stays so, sample after sample and however strong it is, until a step that may
      give it another hearing. */
  lemma {:induction false} RejectedUntilReheard(states: seq<State>, events: seq<Event>, i: nat, j: nat, id: StateId, pub: Writer)
    requires IsRun(states, events) && i <= j < |states| && ShutOut(states[i], id, pub)
    requires forall k :: i <= k < j ==> id in states[k].insts && !Rehears(states[k], events[k], states[k + 1], id, pub)
    ensures ShutOut(states[j], id, pub)
    ensures j < |events| && events[j].Sample? && events[j].id == id && events[j].pub == pub ==> !events[j].accepted
    decreases j - i
  {
    if i < j {
      RejectedUntilReheard(states, events, i, j - 1, id, pub);
      RunsAreSafe(states, events, j - 1);
      ShutOutStays(states[j - 1], events[j - 1], states[j], id, pub);
    }
    if j < |events| {
      assert Next(states[j], events[j], states[j + 1]);
    }
  }

  /** Writer 1 of strength 10 owns the instance, writer 2 of strength 5 waits.  Writer 1 unregisters and writes again: its
      sample is filtered out although it is the stronger one. */
  lemma {:induction false} StrongerIsFilteredOut() returns (states: seq<State>, events: seq<Event>)
    ensures IsRun(states, events) && |events| == 7 && events[6] == Sample(3, 1, false)
    ensures Competes(states[6], 3, 1) && ShutOut(states[6], 3, 1)
  {
    var waiting, known := InstanceState(7, 0, UNKNOWN, false), map[1 := 10, 2 := 5];
    var first, second := WriterInfo(1, 10), WriterInfo(2, 5);
    var s1 := State(map[], map[3 := waiting], map[]);
    var s2 := State(map[], map[3 := waiting], map[0 := ReaderState(map[1 := 10], {})]);
    var s3 := State(map[], map[3 := waiting], map[0 := ReaderState(known, {})]);
    var s4 := State(map[7 := Infos(first, [], [3])], map[3 := InstanceState(7, 0, 1, true)], map[0 := ReaderState(known, {(1, 7)})]);
    var s5 := State(map[7 := Infos(first, [second], [3])], s4.insts, map[0 := ReaderState(known, {(1, 7), (2, 7)})]);
    var s6 := State(map[7 := Infos(second, [], [3])], map[3 := InstanceState(7, 0, 2, true)], s5.readers);
    TwoWritersJoin(s1, s2, s3);
    FirstWriterIsTaken(s3, s4);
    SecondWriterWaits(s4, s5);
    OwnerLeaves(s5, s6);
    StillFiltered(s6);
    states, events := Extended([START], [], Created(3, 7, 0), s1);
    states, events := Extended(states, events, Associated(0, 1, 10), s2);
    states, events := Extended(states, events, Associated(0, 2, 5), s3);
    states, events := Extended(states, events, Sample(3, 1, true), s4);
    states, events := Extended(states, events, Sample(3, 2, false), s5);
    states, events := Extended(states, events, Unregistered(7, 1), s6);
    states, events := Extended(states, events, Sample(3, 1, false), s6);
  }

  /** A run and one more step. */
  lemma {:induction false} Extended(states: seq<State>, events: seq<Event>, e: Event, s': State)
    returns (longer: seq<State>, more: seq<Event>)
    requires IsRun(states, events) && Next(states[|events|], e, s')
    ensures longer == states + [s'] && more == events + [e] && IsRun(longer, more)
  {
    longer, more := states + [s'], events + [e];
  }

  lemma {:induction false} StillFiltered(s: State)
    requires s.insts == map[3 := InstanceState(7, 0, 2, true)] && 0 in s.readers
    requires s.readers[0] == ReaderState(map[1 := 10, 2 := 5], {(1, 7), (2, 7)})
    ensures Next(s, Sample(3, 1, false), s)
  {
  }

  lemma {:induction false} TwoWritersJoin(s1: State, s2: State, s3: State)
    requires s1 == State(map[], map[3 := InstanceState(7, 0, UNKNOWN, false)], map[])
    requires s2 == s1.(readers := map[0 := ReaderState(map[1 := 10], {})])
    requires s3 == s1.(readers := map[0 := ReaderState(map[1 := 10, 2 := 5], {})])
    ensures Next(START, Created(3, 7, 0), s1) && Next(s1, Associated(0, 1, 10), s2) && Next(s2, Associated(0, 2, 5), s3)
  {
  }

  lemma {:induction false} FirstWriterIsTaken(s: State, s': State)
    requires s.infos == map[] && s.insts == map[3 := InstanceState(7, 0, UNKNOWN, false)]
    requires 0 in s.readers && s.readers[0] == ReaderState(map[1 := 10, 2 := 5], {})
    requires s' == State(map[7 := Infos(WriterInfo(1, 10), [], [3])], map[3 := InstanceState(7, 0, 1, true)],
                         s.readers[0 := ReaderState(map[1 := 10, 2 := 5], {(1, 7)})])
    ensures Next(s, Sample(3, 1, true), s')
  {
    var mid := s'.(readers := s.readers);
    assert Broadcast(Register(s.insts, 3), [3], 1) == mid.insts;
    assert SelectStep(s, 3, 1, 10, true, mid);
    assert {} + {(1, 7)} == {(1, 7)};
    assert s' == mid.(readers := mid.readers[0 := s.readers[0].(evaluated := {} + {(1, 7)})]);
  }

  lemma {:induction false} SecondWriterWaits(s: State, s': State)
    requires s.infos == map[7 := Infos(WriterInfo(1, 10), [], [3])] && s.insts == map[3 := InstanceState(7, 0, 1, true)]
    requires 0 in s.readers && s.readers[0] == ReaderState(map[1 := 10, 2 := 5], {(1, 7)})
    requires s' == State(map[7 := Infos(WriterInfo(1, 10), [WriterInfo(2, 5)], [3])], s.insts,
                         s.readers[0 := ReaderState(map[1 := 10, 2 := 5], {(1, 7), (2, 7)})])
    ensures Next(s, Sample(3, 2, false), s')
  {
    var mid := s'.(readers := s.readers);
    SecondIsRanked(s.infos[7], mid.infos[7]);
    SecondIsSelected(s, mid);
    assert {(1, 7)} + {(2, 7)} == {(1, 7), (2, 7)};
  }

  lemma {:induction false} SecondIsRanked(b: Infos, now: Infos)
    requires b == Infos(WriterInfo(1, 10), [], [3]) && now == b.(candidates := [WriterInfo(2, 5)])
    ensures Selected(b, 2, 5, now)
  {
    var t := [WriterInfo(2, 5)];
    assert Entered([], 2, 5) == t && IsSortOf(t, t);
    assert Ranked([], 2, 5, t);
  }

  lemma {:induction false} SecondIsSelected(s: State, mid: State)
    requires s.infos == map[7 := Infos(WriterInfo(1, 10), [], [3])] && s.insts == map[3 := InstanceState(7, 0, 1, true)]
    requires mid == s.(infos := map[7 := Infos(WriterInfo(1, 10), [WriterInfo(2, 5)], [3])])
    requires Selected(s.infos[7], 2, 5, mid.infos[7])
    ensures SelectStep(s, 3, 2, 5, false, mid)
  {
    var b := s.infos[7];
    assert b.(states := b.states + []) == b;
    assert Register(s.insts, 3) == s.insts;
  }

  lemma {:induction false} OwnerLeaves(s: State, s': State)
    requires s.infos == map[7 := Infos(WriterInfo(1, 10), [WriterInfo(2, 5)], [3])] && s.insts == map[3 := InstanceState(7, 0, 1, true)]
    requires s' == State(map[7 := Infos(WriterInfo(2, 5), [], [3])], map[3 := InstanceState(7, 0, 2, true)], s.readers)
    ensures Next(s, Unregistered(7, 1), s')
  {
    assert TakesOver(s.infos[7], [WriterInfo(2, 5)], s'.infos[7]);
    assert Broadcast(s.insts, [3], 2) == s'.insts;
  }
}
