/** What the numbers of the writer are in every run: the sequence, the expected sequences and the repair bit. */
module AckNumbers {
  import opened SequenceNumbers
  import opened AckProtocol

  /** How many of the first k events are writes. */
  function Writes(events: seq<Event>, k: nat): nat
    requires k <= |events|
  {
    if k == 0 then 0 else Writes(events, k - 1) + (if events[k - 1].Write? then 1 else 0)
  }

  /** The n-th write carries the number n. */
  lemma {:induction false} SequenceCountsWrites(states: seq<State>, events: seq<Event>, k: nat)
    requires IsRun(states, events) && k < |states|
    ensures states[k].w.sequence == if Writes(events, k) == 0 then UNKNOWN else Writes(events, k)
  {
    if k > 0 {
      SequenceCountsWrites(states, events, k - 1);
      StepCounts(states[k - 1], events[k - 1], states[k]);
    }
  }

  lemma {:induction false} StepCounts(s: State, e: Event, s': State)
    requires Next(s, e, s')
    ensures s'.w.sequence == if e.Write? then Following(s.w.sequence) else s.w.sequence
    ensures e.Write? ==> s.w.sequence < MAX_VALUE
  {
  }

  /** Event i was the last write before k that did not exclude r, and r is associated since. */
  ghost predicate LastSentAt(states: seq<State>, events: seq<Event>, k: nat, r: ReaderId, i: nat)
    requires |states| == |events| + 1 && k < |states|
  {
    && i < k && events[i].Write? && r !in events[i].excluded && r in states[i].w.expected
    && forall j :: i < j < k ==> events[j] != Remove(r) && (events[j].Write? ==> r in events[j].excluded)
  }

  ghost predicate Sent(states: seq<State>, events: seq<Event>, k: nat, r: ReaderId)
    requires |states| == |events| + 1 && k < |states|
  {
    exists i :: LastSentAt(states, events, k, r, i)
  }

  lemma {:induction false} StillLastSent(states: seq<State>, events: seq<Event>, k: nat, r: ReaderId, i: nat)
    requires |states| == |events| + 1 && k + 1 < |states|
    requires events[k] != Remove(r) && (events[k].Write? ==> r in events[k].excluded)
    ensures LastSentAt(states, events, k + 1, r, i) <==> LastSentAt(states, events, k, r, i)
  {
  }

  /** In every run the expected sequence of an associated reader is the number of the last write that was not filtered
      out for it since it was associated, and unknown exactly when there is none. */
  lemma {:induction false} ExpectedIsLastSent(states: seq<State>, events: seq<Event>, k: nat, r: ReaderId)
    requires IsRun(states, events) && k < |states| && r in states[k].w.expected
    ensures states[k].w.expected[r] == UNKNOWN <==> !Sent(states, events, k, r)
    ensures forall i: nat :: LastSentAt(states, events, k, r, i) ==> states[k].w.expected[r] == Writes(events, i + 1)
  {
    if k > 0 {
      var n := k - 1;
      assert Next(states[n], events[n], states[k]);
      SequenceCountsWrites(states, events, k);
      if events[n] == Associate(r) {
        NotSentYet(states, events, n, r);
      } else if events[n].Write? && r !in events[n].excluded {
        assert LastSentAt(states, events, k, r, n);
        assert forall i :: LastSentAt(states, events, k, r, i) ==> i == n;
      } else {
        ExpectedIsLastSent(states, events, n, r);
        forall i ensures LastSentAt(states, events, k, r, i) <==> LastSentAt(states, events, n, r, i) {
          StillLastSent(states, events, n, r, i);
        }
      }
    }
  }

  /** A reader stays known from a write to it until it is removed. */
  lemma {:induction false} KnownSince(states: seq<State>, events: seq<Event>, i: nat, k: nat, r: ReaderId)
    requires IsRun(states, events) && i <= k < |states| && r in states[i].w.expected
    requires forall j :: i <= j < k ==> events[j] != Remove(r)
    ensures r in states[k].w.expected
  {
    if i < k {
      KnownSince(states, events, i, k - 1, r);
      assert Next(states[k - 1], events[k - 1], states[k]);
    }
  }

  /** A reader that is just being associated was sent nothing. */
  lemma {:induction false} NotSentYet(states: seq<State>, events: seq<Event>, n: nat, r: ReaderId)
    requires IsRun(states, events) && n < |events| && events[n] == Associate(r)
    ensures !Sent(states, events, n + 1, r)
  {
    assert Next(states[n], events[n], states[n + 1]);
    var k := n + 1;
    if Sent(states, events, k, r) {
      var i :| LastSentAt(states, events, k, r, i);
      KnownSince(states, events, i, n, r);
    }
  }

  /** The reader was sent the write just before, whatever came in between. */
  ghost predicate GotPrevious(states: seq<State>, events: seq<Event>, k: nat, r: ReaderId)
    requires |states| == |events| + 1 && k < |states|
  {
    exists i: nat :: LastSentAt(states, events, k, r, i) && Writes(events, i + 1) == Writes(events, k)
  }

  /** In every run the next write carries the repair bit if and only if there was a write before and some associated
      reader was not sent the last one. */
  lemma {:induction false} RepairIffMissed(states: seq<State>, events: seq<Event>, k: nat)
    requires IsRun(states, events) && k < |states|
    ensures NeedsRepair(states[k].w) <==>
      Writes(events, k) > 0 && exists r :: r in states[k].w.expected && !GotPrevious(states, events, k, r)
  {
    SequenceCountsWrites(states, events, k);
    forall r | r in states[k].w.expected
      ensures states[k].w.expected[r] != states[k].w.sequence <==> Writes(events, k) > 0 && !GotPrevious(states, events, k, r)
    {
      ExpectedIsLastSent(states, events, k, r);
      if Sent(states, events, k, r) {
        var i: nat :| LastSentAt(states, events, k, r, i);
        WritesAscend(events, i + 1, k);
      }
    }
  }

  lemma {:induction false} WritesAscend(events: seq<Event>, i: nat, k: nat)
    requires i <= k <= |events|
    ensures Writes(events, i) <= Writes(events, k)
    ensures i > 0 && events[i - 1].Write? ==> Writes(events, i) > 0
  {
    if i < k { WritesAscend(events, i, k - 1); }
  }
}
