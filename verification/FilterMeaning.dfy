/** The value of a condition as the grammar nests it (dds/DCPS/FilterExpressionGrammar.h), and when the evaluation tree
    agrees with it. */
module FilterMeanings {
  import opened Basics
  import opened FilterEvaluators

  predicate Joined(isAnd: bool, a: bool, b: bool) {
    if isAnd then a && b else a || b
  }

  // ----- the two readings of a derivation -----

  /** NOT covers the whole condition that it introduces, and AND and OR join whole conditions, as they are nested in the
      derivation. */
  predicate Derived(c: Condition, test: nat -> bool)
    decreases c, 1
  {
    DerivedTail(c.tail, DerivedFirst(c, test), test)
  }

  predicate DerivedFirst(c: Condition, test: nat -> bool)
    decreases c, 0
  {
    match c
    case PredFirst(id, _) => test(id)
    case NotFirst(cond, _) => !Derived(cond, test)
    case Parenthesized(inner, _) => Derived(inner, test)
  }

  predicate DerivedTail(t: ConditionTail, sofar: bool, test: nat -> bool) {
    match t
    case End => sofar
    case More(isAnd, cond, tail) => DerivedTail(tail, Joined(isAnd, sofar, Derived(cond, test)), test)
  }

  /** The same derivation read as its list is: term after term, with NOT on the term that follows it. */
  predicate Folded(c: Condition, test: nat -> bool)
    decreases c, 1
  {
    FoldedTail(c.tail, FoldedFirst(c, test), test)
  }

  predicate FoldedFirst(c: Condition, test: nat -> bool)
    decreases c, 0
  {
    match c
    case PredFirst(id, _) => test(id)
    case NotFirst(cond, _) => FoldedTail(cond.tail, !FoldedFirst(cond, test), test)
    case Parenthesized(inner, _) => Folded(inner, test)
  }

  predicate FoldedTail(t: ConditionTail, sofar: bool, test: nat -> bool) {
    match t
    case End => sofar
    case More(isAnd, cond, tail) => FoldedTail(tail, FoldedInto(cond, isAnd, sofar, test), test)
  }

  predicate FoldedInto(c: Condition, isAnd: bool, sofar: bool, test: nat -> bool)
    decreases c, 1
  {
    FoldedTail(c.tail, Joined(isAnd, sofar, FoldedFirst(c, test)), test)
  }

  // ----- conditions whose NOTs head their lists -----

  predicate Headed(c: Condition)
    decreases c, 1
  {
    HeadedFirst(c) && PlainTail(c.tail)
  }

  predicate HeadedFirst(c: Condition)
    decreases c, 0
  {
    match c
    case PredFirst(_, _) => true
    case NotFirst(cond, _) => Plain(cond)
    case Parenthesized(inner, _) => Headed(inner)
  }

  /** No NOT in the list of the condition itself. */
  predicate Plain(c: Condition)
    decreases c, 1
  {
    !c.NotFirst? && HeadedFirst(c) && PlainTail(c.tail)
  }

  predicate PlainTail(t: ConditionTail) {
    t.More? ==> Plain(t.cond) && PlainTail(t.tail)
  }

  lemma {:induction false} NotsHead(c: Condition, all: seq<Ast>, i: nat)
    requires At(all, i, Stored(c)) && NotsFirst(all, i)
    ensures NotsFirst(all, i + |Stored(c)|) && Headed(c) && (i > 0 ==> Plain(c))
    decreases c, 1
  {
    if c.NotFirst? {
      var inner, rest := Stored(c.cond), StoredTail(c.tail);
      assert Stored(c) == [Not] + inner + rest;
      AtBoth(all, i, [Not] + inner, rest);
      FirstAt(all, i, Not, inner);
      NotsHead(c.cond, all, i + 1);
      NotsHeadTail(c.tail, all, i + 1 + |inner|);
    } else {
      var node, rest := Stored(c)[0], StoredTail(c.tail);
      assert Stored(c) == [node] + rest;
      FirstAt(all, i, node, rest);
      if c.Parenthesized? { NotsHead(c.inner, Stored(c.inner), 0); }
      NotsHeadTail(c.tail, all, i + 1);
    }
  }

  lemma {:induction false} NotsHeadTail(t: ConditionTail, all: seq<Ast>, i: nat)
    requires At(all, i, StoredTail(t)) && NotsFirst(all, i)
    ensures NotsFirst(all, i + |StoredTail(t)|) && PlainTail(t)
    decreases t, 0
  {
    if t.More? {
      MoreAt(t, all, i);
      NotsHead(t.cond, all, i + 1);
      NotsHeadTail(t.tail, all, i + 1 + |Stored(t.cond)|);
    }
  }

  // ----- the list means what Folded says -----

  lemma {:induction false} FoldsOnce(all: seq<Ast>, i: nat, isAnd: bool, sofar: bool, test: nat -> bool)
    requires i + 1 < |all| && all[i] == (if isAnd then And else Or) && Term(all[i + 1]) && TailShape(all, i + 2)
    ensures TailShape(all, i)
    ensures FoldFrom(all, i, sofar, test) == FoldFrom(all, i + 2, Joined(isAnd, sofar, TermValue(all[i + 1], test)), test)
  {
  }

  /** Folding over the siblings of a tail is folding over its derivation. */
  lemma {:induction false} TailFolds(t: ConditionTail, sofar: bool, all: seq<Ast>, i: nat, test: nat -> bool)
    requires PlainTail(t) && At(all, i, StoredTail(t)) && TailShape(all, i + |StoredTail(t)|)
    ensures TailShape(all, i)
    ensures FoldFrom(all, i, sofar, test) == FoldFrom(all, i + |StoredTail(t)|, FoldedTail(t, sofar, test), test)
    decreases t, 0
  {
    if t.More? {
      MoreAt(t, all, i);
      var next, value := i + 1 + |Stored(t.cond)|, FoldedInto(t.cond, t.isAnd, sofar, test);
      TailFolds(t.tail, value, all, next, test);
      ConditionFolds(t.cond, t.isAnd, sofar, all, i + 1, test);
      FoldsOnce(all, i, t.isAnd, sofar, test);
      assert FoldFrom(all, i, sofar, test) == FoldFrom(all, next, value, test);
    }
  }

  lemma {:induction false} ConditionFolds(c: Condition, isAnd: bool, sofar: bool, all: seq<Ast>, i: nat, test: nat -> bool)
    requires Plain(c) && At(all, i, Stored(c)) && TailShape(all, i + |Stored(c)|)
    ensures i < |all| && Term(all[i]) && TailShape(all, i + 1)
    ensures FoldFrom(all, i + 1, Joined(isAnd, sofar, TermValue(all[i], test)), test)
            == FoldFrom(all, i + |Stored(c)|, FoldedInto(c, isAnd, sofar, test), test)
    decreases c, 1
  {
    var node := Stored(c)[0];
    assert Stored(c) == [node] + StoredTail(c.tail);
    FirstAt(all, i, node, StoredTail(c.tail));
    if c.Parenthesized? {
      assert HeadedFirst(c);
      HeadedMeans(c.inner, test);
    }
    TailFolds(c.tail, Joined(isAnd, sofar, TermValue(node, test)), all, i + 1, test);
  }

  lemma {:induction false} HeadedMeans(c: Condition, test: nat -> bool)
    requires Headed(c)
    ensures Shape(Stored(c)) && Meaning(Stored(c), test) == Folded(c, test)
    decreases c, 3
  {
    if c.NotFirst? {
      NegatedMeans(c, test);
    } else {
      PlainMeans(c, test);
    }
  }

  lemma {:induction false} NegatedMeans(c: Condition, test: nat -> bool)
    requires Headed(c) && c.NotFirst?
    ensures Shape(Stored(c)) && Meaning(Stored(c), test) == Folded(c, test)
    decreases c, 2
  {
    var all, cond := Stored(c), c.cond;
    assert Plain(cond) && HeadedFirst(cond);
    var node, k := NegatedAt(c);
    if cond.Parenthesized? { HeadedMeans(cond.inner, test); }
    var value := TermValue(node, test);
    assert value == FoldedFirst(cond, test);
    TailFolds(c.tail, FoldedFirst(c, test), all, k, test);
    TailFolds(cond.tail, !value, all, 2, test);
    assert FoldFrom(all, 2, !value, test) == FoldFrom(all, k, FoldedFirst(c, test), test);
  }

  /** What NOT before a plain condition stores. */
  lemma {:induction false} NegatedAt(c: Condition) returns (node: Ast, k: nat)
    requires c.NotFirst? && !c.cond.NotFirst?
    ensures node == Stored(c.cond)[0] == (if c.cond.PredFirst? then Pred(c.cond.id) else Cond(Stored(c.cond.inner)))
    ensures var all := Stored(c);
      && k == 2 + |StoredTail(c.cond.tail)| && k + |StoredTail(c.tail)| == |all| && all[0] == Not && all[1] == node
      && At(all, 2, StoredTail(c.cond.tail)) && At(all, k, StoredTail(c.tail))
  {
    var all, rest, more := Stored(c), StoredTail(c.cond.tail), StoredTail(c.tail);
    node, k := Stored(c.cond)[0], 2 + |rest|;
    assert Stored(c.cond) == [node] + rest;
    assert all == [Not, node] + rest + more;
    AtBoth(all, 0, [Not, node] + rest, more);
    AtBoth(all, 0, [Not, node], rest);
  }

  lemma {:induction false} PlainMeans(c: Condition, test: nat -> bool)
    requires Plain(c)
    ensures Shape(Stored(c)) && Meaning(Stored(c), test) == Folded(c, test)
    decreases c, 2
  {
    var all, node := Stored(c), Stored(c)[0];
    assert all == [node] + StoredTail(c.tail);
    AtBoth(all, 0, [node], StoredTail(c.tail));
    if c.Parenthesized? {
      assert HeadedFirst(c);
      HeadedMeans(c.inner, test);
    }
    TailFolds(c.tail, TermValue(node, test), all, 1, test);
  }

  // ----- where both readings agree -----

  /** NOT covers a single term, and a condition after AND or OR has no other operators in its list. */
  predicate NestsLeft(c: Condition)
    decreases c, 1
  {
    NestsFirst(c) && LeftTail(c.tail)
  }

  predicate NestsFirst(c: Condition)
    decreases c, 0
  {
    match c
    case PredFirst(_, _) => true
    case NotFirst(cond, _) => !cond.NotFirst? && cond.tail.End? && NestsFirst(cond)
    case Parenthesized(inner, _) => NestsLeft(inner)
  }

  predicate LeftTail(t: ConditionTail) {
    t.More? ==> Flat(t.cond, t.isAnd) && LeftTail(t.tail)
  }

  /** A condition without a NOT of its own whose operators are all the same. */
  predicate Flat(c: Condition, isAnd: bool)
    decreases c, 2
  {
    !c.NotFirst? && NestsFirst(c) && FlatTail(c.tail, isAnd)
  }

  predicate FlatTail(t: ConditionTail, isAnd: bool) {
    t.More? ==> t.isAnd == isAnd && Flat(t.cond, isAnd) && FlatTail(t.tail, isAnd)
  }

  lemma {:induction false} NestedAgrees(c: Condition, test: nat -> bool)
    requires NestsLeft(c)
    ensures Headed(c) && Folded(c, test) == Derived(c, test)
    decreases c, 1
  {
    NestedFirst(c, test);
    NestedTail(c.tail, DerivedFirst(c, test), test);
  }

  lemma {:induction false} NestedFirst(c: Condition, test: nat -> bool)
    requires NestsFirst(c)
    ensures HeadedFirst(c) && FoldedFirst(c, test) == DerivedFirst(c, test)
    decreases c, 0
  {
    match c
    case PredFirst(_, _) =>
    case NotFirst(cond, _) =>
      NestedFirst(cond, test);
      var value := DerivedFirst(cond, test);
      assert cond.tail == End && DerivedTail(End, value, test) == value && FoldedTail(End, !value, test) == !value;
    case Parenthesized(inner, _) => NestedAgrees(inner, test);
  }

  lemma {:induction false} NestedTail(t: ConditionTail, sofar: bool, test: nat -> bool)
    requires LeftTail(t)
    ensures PlainTail(t) && FoldedTail(t, sofar, test) == DerivedTail(t, sofar, test)
  {
    if t.More? {
      NestedFirst(t.cond, test);
      FlatJoins(t.cond.tail, t.isAnd, sofar, DerivedFirst(t.cond, test), test);
      NestedTail(t.tail, Joined(t.isAnd, sofar, Derived(t.cond, test)), test);
    }
  }

  /** Where there is one operator only, it does not matter what is joined first. */
  lemma {:induction false} FlatJoins(t: ConditionTail, isAnd: bool, a: bool, b: bool, test: nat -> bool)
    requires FlatTail(t, isAnd)
    ensures PlainTail(t) && FoldedTail(t, Joined(isAnd, a, b), test) == Joined(isAnd, a, DerivedTail(t, b, test))
  {
    if t.More? {
      NestedFirst(t.cond, test);
      var d := DerivedFirst(t.cond, test);
      FlatJoins(t.cond.tail, isAnd, Joined(isAnd, a, b), d, test);
      assert Joined(isAnd, Joined(isAnd, a, b), Derived(t.cond, test))
        == Joined(isAnd, a, Joined(isAnd, b, Derived(t.cond, test)));
      FlatJoins(t.tail, isAnd, a, Joined(isAnd, b, Derived(t.cond, test)), test);
    }
  }

  // ----- predicates that can be chosen freely -----

  function Ids(c: Condition): set<nat>
    decreases c, 1
  {
    FirstIds(c) + TailIds(c.tail)
  }

  function FirstIds(c: Condition): set<nat>
    decreases c, 0
  {
    match c
    case PredFirst(id, _) => {id}
    case NotFirst(cond, _) => Ids(cond)
    case Parenthesized(inner, _) => Ids(inner)
  }

  function TailIds(t: ConditionTail): set<nat> {
    match t
    case End => {}
    case More(_, cond, tail) => Ids(cond) + TailIds(tail)
  }

  /** Every predicate of the condition is a test of its own. */
  predicate Distinct(c: Condition)
    decreases c, 1
  {
    DistinctFirst(c) && DistinctTail(c.tail) && FirstIds(c) !! TailIds(c.tail)
  }

  predicate DistinctFirst(c: Condition)
    decreases c, 0
  {
    match c
    case PredFirst(_, _) => true
    case NotFirst(cond, _) => Distinct(cond)
    case Parenthesized(inner, _) => Distinct(inner)
  }

  predicate DistinctTail(t: ConditionTail) {
    t.More? ==> Distinct(t.cond) && DistinctTail(t.tail) && Ids(t.cond) !! TailIds(t.tail)
  }

  ghost predicate SameOn(ids: set<nat>, a: nat -> bool, b: nat -> bool) {
    forall n :: n in ids ==> a(n) == b(n)
  }

  ghost predicate SameOff(ids: set<nat>, a: nat -> bool, b: nat -> bool) {
    forall n :: n !in ids ==> a(n) == b(n)
  }

  lemma {:induction false} FirstStays(c: Condition, a: nat -> bool, b: nat -> bool)
    requires SameOn(FirstIds(c), a, b)
    ensures FoldedFirst(c, a) == FoldedFirst(c, b) && DerivedFirst(c, a) == DerivedFirst(c, b)
    decreases c, 0
  {
    match c
    case PredFirst(_, _) =>
    case NotFirst(cond, _) =>
      assert FirstIds(c) == Ids(cond) == FirstIds(cond) + TailIds(cond.tail);
      FirstStays(cond, a, b);
      TailStays(cond.tail, !FoldedFirst(cond, a), a, b);
      TailStays(cond.tail, DerivedFirst(cond, a), a, b);
    case Parenthesized(inner, _) =>
      assert FirstIds(c) == Ids(inner) == FirstIds(inner) + TailIds(inner.tail);
      FirstStays(inner, a, b);
      TailStays(inner.tail, FoldedFirst(inner, a), a, b);
      TailStays(inner.tail, DerivedFirst(inner, a), a, b);
  }

  lemma {:induction false} TailStays(t: ConditionTail, sofar: bool, a: nat -> bool, b: nat -> bool)
    requires SameOn(TailIds(t), a, b)
    ensures FoldedTail(t, sofar, a) == FoldedTail(t, sofar, b) && DerivedTail(t, sofar, a) == DerivedTail(t, sofar, b)
    decreases t
  {
    if t.More? {
      assert Ids(t.cond) == FirstIds(t.cond) + TailIds(t.cond.tail);
      FirstStays(t.cond, a, b);
      TailStays(t.cond.tail, Joined(t.isAnd, sofar, FoldedFirst(t.cond, a)), a, b);
      TailStays(t.cond.tail, DerivedFirst(t.cond, a), a, b);
      TailStays(t.tail, FoldedInto(t.cond, t.isAnd, sofar, a), a, b);
      TailStays(t.tail, Joined(t.isAnd, sofar, Derived(t.cond, a)), a, b);
    }
  }

  /** The tail passes on what comes before it, in both readings. */
  ghost predicate Quiet(t: ConditionTail, test: nat -> bool) {
    forall v :: FoldedTail(t, v, test) == v && DerivedTail(t, v, test) == v
  }

  lemma {:induction false} QuietStays(t: ConditionTail, a: nat -> bool, b: nat -> bool)
    requires SameOn(TailIds(t), a, b) && Quiet(t, a)
    ensures Quiet(t, b)
  {
    forall v ensures FoldedTail(t, v, b) == v && DerivedTail(t, v, b) == v {
      TailStays(t, v, a, b);
    }
  }

  /** The first term of c has the value b in both readings, and what follows in its list is quiet. */
  ghost predicate IsSet(c: Condition, b: bool, test: nat -> bool) {
    FoldedFirst(c, test) == b && DerivedFirst(c, test) == b && Quiet(c.tail, test)
  }

  lemma {:induction false} SetMeans(c: Condition, b: bool, test: nat -> bool)
    requires IsSet(c, b, test)
    ensures Derived(c, test) == b && Folded(c, test) == b
    ensures forall isAnd, v :: FoldedInto(c, isAnd, v, test) == Joined(isAnd, v, b)
  {
  }

  /** Predicates of t alone are chosen so that t is quiet. */
  lemma {:induction false} MakeQuiet(t: ConditionTail, test: nat -> bool) returns (now: nat -> bool)
    requires PlainTail(t) && DistinctTail(t)
    ensures Quiet(t, now) && SameOff(TailIds(t), test, now)
    decreases t, 0
  {
    now := test;
    if t.More? {
      var mid := MakeQuiet(t.tail, test);
      now := SetCondition(t.cond, t.isAnd, mid);
      QuietStays(t.tail, mid, now);
      QuietMore(t, now);
    }
  }

  lemma {:induction false} QuietMore(t: ConditionTail, test: nat -> bool)
    requires t.More? && IsSet(t.cond, t.isAnd, test) && Quiet(t.tail, test)
    ensures Quiet(t, test)
  {
    SetMeans(t.cond, t.isAnd, test);
    assert forall v :: Joined(t.isAnd, v, t.isAnd) == v;
  }

  lemma {:induction false} SetFirst(c: Condition, b: bool, test: nat -> bool) returns (now: nat -> bool)
    requires HeadedFirst(c) && DistinctFirst(c)
    ensures FoldedFirst(c, now) == b && DerivedFirst(c, now) == b && SameOff(FirstIds(c), test, now)
    decreases c, 0
  {
    match c
    case PredFirst(id, _) =>
      now := (n: nat) => if n == id then b else test(n);
    case NotFirst(cond, _) =>
      now := SetCondition(cond, !b, test);
      SetMeans(cond, !b, now);
      assert FoldedTail(cond.tail, b, now) == b;
    case Parenthesized(inner, _) =>
      now := SetCondition(inner, b, test);
      SetMeans(inner, b, now);
  }

  lemma {:induction false} SetCondition(c: Condition, b: bool, test: nat -> bool) returns (now: nat -> bool)
    requires Headed(c) && Distinct(c)
    ensures IsSet(c, b, now) && SameOff(Ids(c), test, now)
    decreases c, 1
  {
    var mid := MakeQuiet(c.tail, test);
    now := SetFirst(c, b, mid);
    QuietStays(c.tail, mid, now);
  }

  // ----- where they differ -----

  /** The readings of a condition that does not nest to the left differ for some values of its predicates. */
  lemma {:induction false} Differs(c: Condition) returns (test: nat -> bool)
    requires Headed(c) && Distinct(c) && !NestsLeft(c)
    ensures Folded(c, test) != Derived(c, test)
    decreases c, 1
  {
    if !NestsFirst(c) {
      var early := FirstDiffers(c);
      test := MakeQuiet(c.tail, early);
      FirstStays(c, early, test);
    } else {
      var sofar, late := TailDiffers(c.tail);
      test := SetFirst(c, sofar, late);
      TailStays(c.tail, sofar, late, test);
    }
  }

  lemma {:induction false} FirstDiffers(c: Condition) returns (test: nat -> bool)
    requires HeadedFirst(c) && DistinctFirst(c) && !NestsFirst(c)
    ensures FoldedFirst(c, test) != DerivedFirst(c, test)
    decreases c, 0
  {
    match c
    case NotFirst(cond, _) =>
      if cond.tail.More? {
        test := NotCoversTerm(cond.tail);
        assert FoldedTail(cond.tail, !FoldedFirst(cond, test), test) == DerivedTail(cond.tail, DerivedFirst(cond, test), test);
      } else {
        test := FirstDiffers(cond);
        assert Derived(cond, test) == DerivedTail(End, DerivedFirst(cond, test), test) == DerivedFirst(cond, test);
      }
    case Parenthesized(inner, _) =>
      test := Differs(inner);
  }

  /** A tail that overrules what comes before it: negated by the one reading only. */
  lemma {:induction false} NotCoversTerm(t: ConditionTail) returns (test: nat -> bool)
    requires t.More? && PlainTail(t) && DistinctTail(t)
    ensures forall a, b :: FoldedTail(t, a, test) == DerivedTail(t, b, test)
    decreases t, 0
  {
    var mid := MakeQuiet(t.tail, _ => true);
    test := SetCondition(t.cond, !t.isAnd, mid);
    QuietStays(t.tail, mid, test);
    SetMeans(t.cond, !t.isAnd, test);
  }

  lemma {:induction false} TailDiffers(t: ConditionTail) returns (sofar: bool, test: nat -> bool)
    requires PlainTail(t) && DistinctTail(t) && !LeftTail(t)
    ensures FoldedTail(t, sofar, test) != DerivedTail(t, sofar, test)
    decreases t, 0
  {
    var mid;
    if !Flat(t.cond, t.isAnd) {
      sofar, mid := IntoDiffers(t.cond, t.isAnd);
      test := MakeQuiet(t.tail, mid);
      IntoStays(t.cond, t.isAnd, sofar, mid, test);
    } else {
      sofar, mid := TailDiffers(t.tail);
      test := SetCondition(t.cond, t.isAnd, mid);
      TailStays(t.tail, sofar, mid, test);
      SetMeans(t.cond, t.isAnd, test);
    }
  }

  lemma {:induction false} IntoStays(c: Condition, isAnd: bool, sofar: bool, a: nat -> bool, b: nat -> bool)
    requires SameOn(Ids(c), a, b)
    ensures FoldedInto(c, isAnd, sofar, a) == FoldedInto(c, isAnd, sofar, b) && Derived(c, a) == Derived(c, b)
  {
    FirstStays(c, a, b);
    TailStays(c.tail, Joined(isAnd, sofar, FoldedFirst(c, a)), a, b);
    TailStays(c.tail, DerivedFirst(c, a), a, b);
  }

  lemma {:induction false} IntoDiffers(c: Condition, isAnd: bool) returns (sofar: bool, test: nat -> bool)
    requires Plain(c) && Distinct(c) && !Flat(c, isAnd)
    ensures FoldedInto(c, isAnd, sofar, test) != Joined(isAnd, sofar, Derived(c, test))
    decreases c, 1
  {
    var mid, first;
    if !NestsFirst(c) {
      sofar := isAnd;
      mid := FirstDiffers(c);
      test := MakeQuiet(c.tail, mid);
      FirstStays(c, mid, test);
    } else {
      sofar, first, mid := JoinDiffers(c.tail, isAnd);
      test := SetFirst(c, first, mid);
      TailStays(c.tail, Joined(isAnd, sofar, first), mid, test);
      TailStays(c.tail, first, mid, test);
    }
  }

  lemma {:induction false} JoinDiffers(t: ConditionTail, isAnd: bool) returns (sofar: bool, first: bool, test: nat -> bool)
    requires PlainTail(t) && DistinctTail(t) && !FlatTail(t, isAnd)
    ensures FoldedTail(t, Joined(isAnd, sofar, first), test) != Joined(isAnd, sofar, DerivedTail(t, first, test))
    decreases t, 0
  {
    var mid;
    if t.isAnd != isAnd {
      sofar, first := !isAnd, isAnd;
      mid := MakeQuiet(t.tail, _ => true);
      test := SetCondition(t.cond, isAnd, mid);
      QuietStays(t.tail, mid, test);
      SetMeans(t.cond, isAnd, test);
    } else if !Flat(t.cond, isAnd) {
      sofar, mid := IntoDiffers(t.cond, isAnd);
      first := isAnd;
      test := MakeQuiet(t.tail, mid);
      IntoStays(t.cond, isAnd, sofar, mid, test);
    } else {
      sofar, first, mid := JoinDiffers(t.tail, isAnd);
      test := SetCondition(t.cond, isAnd, mid);
      TailStays(t.tail, Joined(isAnd, sofar, first), mid, test);
      TailStays(t.tail, first, mid, test);
      SetMeans(t.cond, isAnd, test);
    }
  }

  // ----- the filter and its derivation -----

  /** A filter that nests to the left evaluates to the value of its derivation. */
  lemma {:induction false} NestedFilterAgrees(c: Condition, test: nat -> bool)
    requires NestsLeft(c)
    ensures WellFormed(Build(Stored(c))) && Eval(Build(Stored(c)), test) == Some(Derived(c, test))
  {
    NestedAgrees(c, test);
    HeadedMeans(c, test);
    ShapeBuilds(Stored(c), test);
  }

  /** With predicates that are tests of their own, the tree is well formed and evaluates to the value of the derivation
      for all outcomes of the tests if and only if the condition nests to the left. */
  lemma {:induction false} FilterAgreesIff(c: Condition)
    requires Distinct(c)
    ensures WellFormed(Build(Stored(c))) && (forall test :: Eval(Build(Stored(c)), test) == Some(Derived(c, test)))
      <==> NestsLeft(c)
  {
    if NestsLeft(c) {
      forall test ensures WellFormed(Build(Stored(c))) && Eval(Build(Stored(c)), test) == Some(Derived(c, test)) {
        NestedFilterAgrees(c, test);
      }
      NestedFilterAgrees(c, _ => true);
    } else if WellFormed(Build(Stored(c))) {
      WellFormedIffNotsFirst(c);
      NotsHead(c, Stored(c), 0);
      var test := Differs(c);
      HeadedMeans(c, test);
      ShapeBuilds(Stored(c), test);
      assert Eval(Build(Stored(c)), test) != Some(Derived(c, test));
    }
  }

  /** "NOT a OR b" is derived as the negation of a OR b, and its tree applies NOT to a alone: they differ exactly when b
      holds. */
  lemma {:induction false} NotCoversLess(test: nat -> bool)
    ensures var c := NotFirst(PredFirst(0, More(false, PredFirst(1, End), End)), End);
      && Stored(c) == [Not, Pred(0), Or, Pred(1)]
      && (Eval(Build(Stored(c)), test) == Some(Derived(c, test)) <==> !test(1))
  {
    var c := NotFirst(PredFirst(0, More(false, PredFirst(1, End), End)), End);
    var nodes := [Not, Pred(0), Or, Pred(1)];
    assert Stored(c) == nodes;
    assert TailShape(nodes, 4) && TailShape(nodes, 2) && Shape(nodes);
    ShapeBuilds(nodes, test);
    assert FoldFrom(nodes, 2, !test(0), test) == FoldFrom(nodes, 4, !test(0) || test(1), test);
    assert Derived(PredFirst(0, More(false, PredFirst(1, End), End)), test) == (test(0) || test(1));
  }

  /** "a AND b OR c" is derived as a AND (b OR c), and its tree is (a AND b) OR c: they differ exactly when c holds and a
      does not. */
  lemma {:induction false} MixedOperatorsDiffer(test: nat -> bool)
    ensures var c := PredFirst(0, More(true, PredFirst(1, More(false, PredFirst(2, End), End)), End));
      && Stored(c) == [Pred(0), And, Pred(1), Or, Pred(2)]
      && (Eval(Build(Stored(c)), test) == Some(Derived(c, test)) <==> test(0) || !test(2))
  {
    var inner := PredFirst(1, More(false, PredFirst(2, End), End));
    var c := PredFirst(0, More(true, inner, End));
    var nodes := [Pred(0), And, Pred(1), Or, Pred(2)];
    assert Stored(inner) == [Pred(1), Or, Pred(2)] && Stored(c) == nodes;
    assert TailShape(nodes, 5) && TailShape(nodes, 3) && TailShape(nodes, 1) && Shape(nodes);
    ShapeBuilds(nodes, test);
    assert FoldFrom(nodes, 3, test(0) && test(1), test) == FoldFrom(nodes, 5, (test(0) && test(1)) || test(2), test);
    assert FoldFrom(nodes, 1, test(0), test) == FoldFrom(nodes, 3, test(0) && test(1), test);
    assert Derived(inner, test) == (test(1) || test(2));
  }
}
