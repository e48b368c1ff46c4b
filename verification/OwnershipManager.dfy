/** dds/DCPS/OwnershipManager.cpp together with the fields it reaches through InstanceState and
    DataReaderImpl pointers: owners, candidates and registered states per instance, the owner that each state
    holds, and the evaluation flags of each reader.  Each method is proved to take one of the steps of
    OwnershipRuns and to keep the safety invariant of all runs. */
module OwnershipManagers {
  import opened OwnershipSpec
  import opened OwnershipRuns

  /** std::sort, descending by strength. */
  method SortDescending(c: seq<WriterInfo>) returns (t: seq<WriterInfo>)
    ensures IsSortOf(t, c)
  {
    t := [];
    for n := 0 to |c|
      invariant IsSortOf(t, c[..n])
    {
      t := InsertSorted(t, c[n]);
      assert c[..n + 1] == c[..n] + [c[n]];
    }
    assert c[..|c|] == c;
  }

  method InsertSorted(t: seq<WriterInfo>, w: WriterInfo) returns (u: seq<WriterInfo>)
    requires Descending(t)
    ensures Descending(u) && multiset(u) == multiset(t) + multiset{w}
  {
    var i := 0;
    while i < |t| && t[i].strength >= w.strength
      invariant i <= |t|
      invariant forall k :: 0 <= k < i ==> t[k].strength >= w.strength
    {
      i := i + 1;
    }
    u := t[..i] + [w] + t[i..];
    InsertKeepsOrder(t, w, i);
    InsertKeepsElements(t, w, i);
  }

  lemma {:induction false} InsertKeepsElements(t: seq<WriterInfo>, w: WriterInfo, i: nat)
    requires i <= |t|
    ensures multiset(t[..i] + [w] + t[i..]) == multiset(t) + multiset{w}
  {
    assert t == t[..i] + t[i..];
  }

  lemma {:induction false} InsertKeepsOrder(t: seq<WriterInfo>, w: WriterInfo, i: nat)
    requires Descending(t) && i <= |t|
    requires forall k :: 0 <= k < i ==> t[k].strength >= w.strength
    requires i < |t| ==> t[i].strength < w.strength
    ensures Descending(t[..i] + [w] + t[i..])
  {
    var u := t[..i] + [w] + t[i..];
    forall j, k | 0 <= j < k < |u| ensures u[j].strength >= u[k].strength {
      InsertedAt(t, w, i, j);
      InsertedAt(t, w, i, k);
      if i < |t| && k - 1 > i { assert t[i].strength >= t[k - 1].strength; }
    }
  }

  lemma {:induction false} InsertedAt(t: seq<WriterInfo>, w: WriterInfo, i: nat, k: nat)
    requires i <= |t| && k <= |t|
    ensures (t[..i] + [w] + t[i..])[k] == if k < i then t[k] else if k == i then w else t[k - 1]
  {
  }

  /** remove_writer(pub) has dealt with every entry outside todo. */
  ghost predicate Losing(before: State, pub: Writer, todo: set<Handle>, now: State) {
    && todo <= now.infos.Keys == before.infos.Keys && now.readers == before.readers
    && (forall h :: h in now.infos ==>
          if h in todo then now.infos[h] == before.infos[h] else WriterRemoved(before.infos[h], pub, now.infos[h]))
    && now.insts.Keys == before.insts.Keys
    && (forall id :: id in now.insts ==>
          now.insts[id] == if before.insts[id].handle in todo then before.insts[id]
                           else AfterLoss(before.insts[id], id, pub, before.infos, now.infos))
  }

  lemma {:induction false} LoseOne(before: State, pub: Writer, todo: set<Handle>, now: State, h: Handle, s': State)
    requires Safe(before) && Losing(before, pub, todo, now) && h in todo
    requires UnregisterStep(now, h, pub, s')
    ensures Losing(before, pub, todo - {h}, s')
  {
    assert EntryOk(before, h);
    forall id | id in s'.insts
      ensures s'.insts[id] == if before.insts[id].handle in todo - {h} then before.insts[id]
                              else AfterLoss(before.insts[id], id, pub, before.infos, s'.infos)
    {
      LoseOneState(before, pub, todo, now, h, s', id);
    }
  }

  lemma {:induction false} LoseOneState(before: State, pub: Writer, todo: set<Handle>, now: State, h: Handle, s': State, id: StateId)
    requires Safe(before) && Losing(before, pub, todo, now) && h in todo
    requires UnregisterStep(now, h, pub, s') && id in s'.insts
    ensures id in before.insts && s'.infos.Keys == before.infos.Keys
    ensures s'.insts[id] == if before.insts[id].handle in todo - {h} then before.insts[id]
                            else AfterLoss(before.insts[id], id, pub, before.infos, s'.infos)
  {
    assert EntryOk(before, h) && StateOk(before, id);
  }

  function ResetStates(insts: map<StateId, InstanceState>, states: seq<StateId>): map<StateId, InstanceState> {
    map id | id in insts :: if id in states then insts[id].(owner := UNKNOWN, registered := false) else insts[id]
  }

  ghost predicate Reaches(insts: map<StateId, InstanceState>, states: seq<StateId>, r: Reader) {
    exists id :: id in states && id in insts && insts[id].reader == r
  }

  ghost function ResetReaders(readers: map<Reader, ReaderState>, insts: map<StateId, InstanceState>, states: seq<StateId>,
                              h: Handle): map<Reader, ReaderState>
  {
    map r | r in readers :: if Reaches(insts, states, r) then ResetFlags(readers[r], h) else readers[r]
  }

  lemma {:induction false} ResetTwice(r: ReaderState, h: Handle)
    ensures ResetFlags(ResetFlags(r, h), h) == ResetFlags(r, h)
  {
    assert ResetFlags(ResetFlags(r, h), h).evaluated == ResetFlags(r, h).evaluated;
  }

  lemma {:induction false} ResetOne(s: State, states: seq<StateId>, i: nat, h: Handle)
    requires i < |states| && states[i] in s.insts
    ensures var id := states[i];
      && var n := ResetStates(s.insts, states[..i]);
      && id in n && n[id].reader == s.insts[id].reader
      && ResetStates(s.insts, states[..i + 1]) == n[id := n[id].(owner := UNKNOWN, registered := false)]
    ensures var r := s.insts[states[i]].reader;
      && var m := ResetReaders(s.readers, s.insts, states[..i], h);
      ResetReaders(s.readers, s.insts, states[..i + 1], h) == if r in m then m[r := ResetFlags(m[r], h)] else m
  {
    assert states[..i + 1] == states[..i] + [states[i]];
    forall r ensures Reaches(s.insts, states[..i + 1], r) <==> Reaches(s.insts, states[..i], r) || r == s.insts[states[i]].reader {
      if Reaches(s.insts, states[..i], r) {
        var id :| id in states[..i] && id in s.insts && s.insts[id].reader == r;
        assert id in states[..i + 1];
      }
      assert states[i] in states[..i + 1];
    }
    var r := s.insts[states[i]].reader;
    if r in s.readers { ResetTwice(s.readers[r], h); }
  }

  /** The loop of remove_instance. */
  method DropState(states: seq<StateId>, id: StateId) returns (left: seq<StateId>)
    ensures left == Drop(states, id)
  {
    var j := 0;
    while j < |states| && states[j] != id
      invariant j <= |states|
      invariant forall i :: 0 <= i < j ==> states[i] != id
    {
      j := j + 1;
    }
    assert j == IndexFrom(states, id, 0);
    return if j < |states| then states[..j] + states[j + 1..] else states;
  }

  class OwnershipManager {
    var infos: map<Handle, Infos>
    var insts: map<StateId, InstanceState>
    var readers: map<Reader, ReaderState>

    ghost function View(): State
      reads this
    {
      State(infos, insts, readers)
    }

    constructor ()
      ensures View() == START
    {
      infos, insts, readers := map[], map[], map[];
    }

    method BroadcastNewOwner(states: seq<StateId>, owner: Writer)
      requires forall id :: id in states ==> id in insts
      modifies this`insts
      ensures insts == Broadcast(old(insts), states, owner)
    {
      for i := 0 to |states|
        invariant insts == Broadcast(old(insts), states[..i], owner)
      {
        assert states[..i + 1] == states[..i] + [states[i]];
        insts := insts[states[i] := insts[states[i]].(owner := owner)];
      }
      assert states[..|states|] == states;
    }

    /** remove_owner(instance, infos, sort). */
    method RemoveOwner(h: Handle, sort: bool)
      requires h in infos && forall id :: id in infos[h].states ==> id in insts
      modifies this`infos, this`insts
      ensures h in infos && infos == old(infos)[h := infos[h]]
      ensures OwnerRemoved(old(infos[h]), infos[h], sort)
      ensures insts == Broadcast(old(insts), old(infos[h]).states, infos[h].owner.pub)
    {
      var n := infos[h];
      if n.candidates == [] {
        n := n.(owner := NOBODY);
      } else {
        var c := n.candidates;
        if sort {
          c := SortDescending(c);
          assert |multiset(c)| == |multiset(n.candidates)|;
        }
        assert TakesOver(n, c, n.(owner := c[0], candidates := c[1..]));
        n := n.(owner := c[0], candidates := c[1..]);
      }
      infos := infos[h := n];
      BroadcastNewOwner(n.states, n.owner.pub);
    }

    /** remove_candidate: the first entry of the writer, if any. */
    method RemoveCandidate(h: Handle, pub: Writer)
      requires h in infos
      modifies this`infos
      ensures infos == old(infos)[h := old(infos[h]).(candidates := Without(old(infos[h]).candidates, pub))]
    {
      var c := infos[h].candidates;
      var i := 0;
      while i < |c| && c[i].pub != pub
        invariant i <= |c|
        invariant forall k :: 0 <= k < i ==> c[k].pub != pub
      {
        i := i + 1;
      }
      assert i == Find(c, pub);
      if i < |c| {
        infos := infos[h := infos[h].(candidates := c[..i] + c[i + 1..])];
      }
      assert infos == old(infos)[h := old(infos[h]).(candidates := Without(c, pub))];
    }

    /** remove_writer(instance, pub); true if it was the owner. */
    method RemoveWriterOf(h: Handle, pub: Writer) returns (wasOwner: bool)
      requires Safe(View()) && pub != UNKNOWN
      modifies this`infos, this`insts
      ensures UnregisterStep(old(View()), h, pub, View()) && Safe(View())
      ensures wasOwner <==> OwnerOf(old(View()), h) == pub
    {
      ghost var before := View();
      wasOwner := false;
      if h in infos {
        assert EntryOk(before, h);
        if infos[h].owner.pub == pub {
          RemoveOwner(h, false);
          wasOwner := true;
        } else {
          RemoveCandidate(h, pub);
        }
      }
      UnregisterIsSafe(before, h, pub, View());
    }

    /** remove_writer(pub) over all instances, then clear_owner_evaluated: writer_removed and
        writer_became_dead. */
    method LoseWriter(reader: Reader, pub: Writer, removed: bool)
      requires Safe(View()) && pub != UNKNOWN && reader in readers
      modifies this
      ensures WriterLostStep(old(View()), reader, pub, removed, View()) && Safe(View())
    {
      ghost var before := View();
      var todo := infos.Keys;
      while todo != {}
        invariant Safe(View()) && Losing(before, pub, todo, View())
        decreases todo
      {
        var h :| h in todo;
        ghost var now := View();
        var _ := RemoveWriterOf(h, pub);
        LoseOne(before, pub, todo, now, h, View());
        todo := todo - {h};
      }
      readers := readers[reader := Forget(readers[reader], pub, removed)];
      LossIsSafe(before, reader, pub, removed, View());
    }

    method IsOwner(h: Handle, pub: Writer) returns (owns: bool)
      requires pub != UNKNOWN
      ensures owns <==> OwnerOf(View(), h) == pub
    {
      owns := h in infos && infos[h].owner.pub == pub;
    }

    /** select_owner.  registered() both reads and sets the flag. */
    method SelectOwner(id: StateId, pub: Writer, strength: int) returns (won: bool)
      requires Safe(View()) && pub != UNKNOWN && id in insts
      modifies this`infos, this`insts
      ensures SelectStep(old(View()), id, pub, strength, won, View()) && Safe(View())
    {
      ghost var before := View();
      assert StateOk(before, id);
      var h := insts[id].handle;
      var joining := if insts[id].registered then [] else [id];
      if h in infos {
        assert EntryOk(before, h);
        infos := infos[h := infos[h].(states := infos[h].states + joining)];
        insts := Register(insts, id);
        won := Elect(h, pub, strength);
        assert infos == before.infos[h := infos[h]];
      } else {
        infos := infos[h := Infos(WriterInfo(pub, strength), [], joining)];
        insts := Register(insts, id);
        BroadcastNewOwner(joining, pub);
        won := true;
      }
      SelectIsSafe(before, id, pub, strength, won, View());
    }

    /** Lines 334-401: the election on an existing entry. */
    method Elect(h: Handle, pub: Writer, strength: int) returns (won: bool)
      requires h in infos && (forall id :: id in infos[h].states ==> id in insts) && pub != UNKNOWN
      modifies this`infos, this`insts
      ensures h in infos && infos == old(infos)[h := infos[h]]
      ensures Selected(old(infos[h]), pub, strength, infos[h])
      ensures won <==> infos[h].owner.pub == pub
      ensures insts == if Broadcasts(old(infos[h]), pub, strength)
        then Broadcast(old(insts), old(infos[h]).states, infos[h].owner.pub) else old(insts)
    {
      if infos[h].owner.pub == UNKNOWN {
        infos := infos[h := infos[h].(owner := WriterInfo(pub, strength))];
        BroadcastNewOwner(infos[h].states, pub);
        won := true;
      } else if infos[h].owner.pub == pub {
        if infos[h].owner.strength <= strength {
          infos := infos[h := infos[h].(owner := WriterInfo(pub, strength))];
          won := true;
        } else {
          infos := infos[h := infos[h].(candidates := infos[h].candidates + [WriterInfo(pub, strength)])];
          RemoveOwner(h, true);
          won := infos[h].owner.pub == pub;
        }
      } else {
        won := Challenge(h, pub, strength);
      }
    }

    /** The challenger takes its place among the candidates. */
    static method RankChallenger(listed: seq<WriterInfo>, pub: Writer, strength: int) returns (c: seq<WriterInfo>)
      ensures Ranked(listed, pub, strength, c)
    {
      c := listed;
      var found, sort, i := false, true, 0;
      while i < |c|
        invariant i <= |c| && !found && sort && c == listed
        invariant forall k :: 0 <= k < i ==> c[k].pub != pub
      {
        if c[i].pub == pub {
          if c[i].strength != strength {
            c := c[i := WriterInfo(pub, strength)];
          } else {
            sort := false;
          }
          found := true;
          break;
        }
        i := i + 1;
      }
      assert Find(listed, pub) == i;
      if !found {
        c := c + [WriterInfo(pub, strength)];
      }
      assert c == Entered(listed, pub, strength) && sort == NeedsSort(listed, pub, strength);
      if sort {
        c := SortDescending(c);
      }
    }

    /** Lines 353-401: the challenger is not the owner. */
    method Challenge(h: Handle, pub: Writer, strength: int) returns (won: bool)
      requires h in infos && forall id :: id in infos[h].states ==> id in insts
      requires infos[h].owner.pub != UNKNOWN && infos[h].owner.pub != pub
      modifies this`infos, this`insts
      ensures h in infos && infos == old(infos)[h := infos[h]]
      ensures Selected(old(infos[h]), pub, strength, infos[h])
      ensures won <==> infos[h].owner.pub == pub
      ensures insts == if Broadcasts(old(infos[h]), pub, strength)
        then Broadcast(old(insts), old(infos[h]).states, infos[h].owner.pub) else old(insts)
    {
      var b := infos[h];
      var replaceOwner := strength > b.owner.strength;
      var c := RankChallenger(if replaceOwner then b.candidates + [b.owner] else b.candidates, pub, strength);
      infos := infos[h := b.(candidates := c)];
      if replaceOwner {
        RemoveOwner(h, false);
      }
      won := infos[h].owner.pub == pub;
    }

    /** The ownership part of filter_instance. */
    method FilterInstance(id: StateId, pub: Writer) returns (filtered: bool)
      requires Safe(View()) && id in insts
      modifies this
      ensures SampleStep(old(View()), id, pub, !filtered, View()) && Safe(View())
    {
      ghost var before := View();
      var reader, h := insts[id].reader, insts[id].handle;
      if reader !in readers || pub !in readers[reader].writers {
        return true;
      }
      if insts[id].owner == UNKNOWN || (pub, h) !in readers[reader].evaluated {
        var isOwner := SelectOwner(id, pub, readers[reader].writers[pub]);
        readers := readers[reader := readers[reader].(evaluated := readers[reader].evaluated + {(pub, h)})];
        filtered := !isOwner;
      } else {
        filtered := insts[id].owner != pub;
      }
      SampleIsSafe(before, id, pub, !filtered, View());
    }

    /** remove_writers(instance). */
    method RemoveWriters(h: Handle)
      requires Safe(View())
      modifies this
      ensures ReleaseStep(old(View()), h, View()) && Safe(View())
    {
      ghost var before := View();
      if h in infos {
        assert EntryOk(before, h);
        var states := infos[h].states;
        for i := 0 to |states|
          invariant infos == before.infos
          invariant insts == ResetStates(before.insts, states[..i])
          invariant readers == ResetReaders(before.readers, before.insts, states[..i], h)
        {
          ResetOne(before, states, i, h);
          var id := states[i];
          insts := insts[id := insts[id].(owner := UNKNOWN, registered := false)];
          var r := insts[id].reader;
          if r in readers {
            readers := readers[r := ResetFlags(readers[r], h)];
          }
        }
        assert states[..|states|] == states;
        infos := infos - {h};
      }
      ReleaseIsSafe(before, h, View());
    }

    /** ~InstanceState and remove_instance. */
    method DestroyInstance(id: StateId)
      requires Safe(View()) && id in insts
      modifies this
      ensures DestroyStep(old(View()), id, View()) && Safe(View())
    {
      ghost var before := View();
      var h := insts[id].handle;
      if insts[id].registered && h in infos {
        var left := DropState(infos[h].states, id);
        infos := infos[h := infos[h].(states := left)];
      }
      insts := insts - {id};
      DestroyIsSafe(before, id, View());
    }

    /** DataReaderImpl::update_ownership_strength. */
    method UpdateOwnershipStrength(reader: Reader, pub: Writer, strength: int)
      requires Safe(View()) && reader in readers && pub in readers[reader].writers
      modifies this`readers
      ensures Next(old(View()), StrengthChanged(reader, pub, strength), View()) && Safe(View())
    {
      ghost var before := View();
      var r := readers[reader];
      if r.writers[pub] != strength {
        readers := readers[reader := Forget(r, pub, false).(writers := r.writers[pub := strength])];
      }
      NextIsSafe(before, StrengthChanged(reader, pub, strength), View());
    }
  }
}
