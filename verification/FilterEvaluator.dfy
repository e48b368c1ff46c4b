/** The evaluation tree of a content filter (dds/DCPS/FilterEvaluator.cpp) and the grammar of conditions. */
module FilterEvaluators {
  import opened Basics

  // walkAst, the constructor's loop over siblings and the Logical node, with the conditions of
  // dds/DCPS/FilterExpressionGrammar.h.

  /** A stored syntax node: a predicate, a keyword, or a parenthesized condition with its list of siblings. */
  datatype Ast = Pred(id: nat) | And | Or | Not | Cond(children: seq<Ast>)

  datatype Kind = Test(id: nat) | AndOp | OrOp | NotOp

  /** An evaluation node and the children added to it; a child may be null. */
  datatype Node = Node(kind: Kind, children: seq<Option<Node>>)

  // ----- building -----

  /** walkAst. AND and OR take the previous node as their first child and leave no previous node; everything else
      becomes a child of the previous node, if there is one. */
  function Walk(node: Ast, prev: Option<Node>): Option<Node>
    decreases node, 0
  {
    match node
    case Pred(id) => Added(prev, Some(Node(Test(id), [])))
    case And => Some(Node(AndOp, [prev]))
    case Or => Some(Node(OrOp, [prev]))
    case Not => Added(prev, Some(Node(NotOp, [])))
    case Cond(children) => Added(prev, WalkFrom(children, 0, None))
  }

  function Added(prev: Option<Node>, eval: Option<Node>): Option<Node> {
    if prev.None? then eval else Some(prev.value.(children := prev.value.children + [eval]))
  }

  function WalkFrom(nodes: seq<Ast>, i: nat, prev: Option<Node>): Option<Node>
    requires i <= |nodes|
    decreases nodes, |nodes| - i
  {
    if i == |nodes| then prev else WalkFrom(nodes, i + 1, Walk(nodes[i], prev))
  }

  function Build(nodes: seq<Ast>): Option<Node> {
    WalkFrom(nodes, 0, None)
  }

  method WalkAst(node: Ast, before: Option<Node>) returns (result: Option<Node>)
    ensures result == Walk(node, before)
    decreases node, 0
  {
    var prev := before;
    var eval: Option<Node> := None;
    match node {
      case Pred(id) => eval := Some(Node(Test(id), []));
      case And => eval, prev := Some(Node(AndOp, [prev])), None;
      case Or => eval, prev := Some(Node(OrOp, [prev])), None;
      case Not => eval := Some(Node(NotOp, []));
      case Cond(children) => eval := BuildFilter(children);
    }
    if prev.Some? {
      return Some(prev.value.(children := prev.value.children + [eval]));
    }
    return eval;
  }

  /** The loop over siblings. */
  method BuildFilter(nodes: seq<Ast>) returns (root: Option<Node>)
    ensures root == Build(nodes)
    decreases nodes, 1
  {
    root := None;
    var i := 0;
    while i < |nodes|
      invariant 0 <= i <= |nodes| && WalkFrom(nodes, i, root) == Build(nodes)
    {
      root := WalkAst(nodes[i], root);
      i := i + 1;
    }
  }

  // ----- evaluation -----

  /** eval: None when it would use a child that is not there. */
  function Eval(tree: Option<Node>, test: nat -> bool): Option<bool>
    decreases tree
  {
    if tree.None? then None
    else
      var n := tree.value;
      if n.kind.Test? then Some(test(n.kind.id))
      else if |n.children| == 0 then None
      else
        var left := Eval(n.children[0], test);
        if left.None? then None
        else if n.kind.NotOp? then Some(!left.value)
        else if n.kind.AndOp? && !left.value then Some(false)
        else if n.kind.OrOp? && left.value then Some(true)
        else if |n.children| < 2 then None
        else Eval(n.children[1], test)
  }

  /** Two children for AND and OR, one for NOT, none that is null. */
  predicate WellFormed(tree: Option<Node>)
    decreases tree
  {
    && tree.Some?
    && var n := tree.value;
       match n.kind
       case Test(_) => n.children == []
       case NotOp => |n.children| == 1 && WellFormed(n.children[0])
       case AndOp => |n.children| == 2 && WellFormed(n.children[0]) && WellFormed(n.children[1])
       case OrOp => |n.children| == 2 && WellFormed(n.children[0]) && WellFormed(n.children[1])
  }

  // ----- meaning of a list -----

  /** [NOT] term ((AND | OR) term)*, where a term is a predicate or a list of this shape. */
  predicate Shape(nodes: seq<Ast>)
    decreases nodes, |nodes| + 1
  {
    && nodes != []
    && var first := if nodes[0].Not? then 1 else 0;
       first < |nodes| && Term(nodes[first]) && TailShape(nodes, first + 1)
  }

  predicate Term(node: Ast)
    decreases node, 0
  {
    node.Pred? || (node.Cond? && Shape(node.children))
  }

  predicate TailShape(nodes: seq<Ast>, i: nat)
    requires i <= |nodes|
    decreases nodes, |nodes| - i
  {
    i < |nodes| ==>
      (nodes[i].And? || nodes[i].Or?) && i + 1 < |nodes| && Term(nodes[i + 1]) && TailShape(nodes, i + 2)
  }

  predicate TermValue(node: Ast, test: nat -> bool)
    requires Term(node)
    decreases node, 0
  {
    match node
    case Pred(id) => test(id)
    case Cond(children) => Meaning(children, test)
  }

  /** The terms combined from left to right, with NOT on the first term only. */
  predicate Meaning(nodes: seq<Ast>, test: nat -> bool)
    requires Shape(nodes)
    decreases nodes, |nodes| + 1
  {
    if nodes[0].Not? then FoldFrom(nodes, 2, !TermValue(nodes[1], test), test)
    else FoldFrom(nodes, 1, TermValue(nodes[0], test), test)
  }

  predicate FoldFrom(nodes: seq<Ast>, i: nat, sofar: bool, test: nat -> bool)
    requires i <= |nodes| && TailShape(nodes, i)
    decreases nodes, |nodes| - i
  {
    if i == |nodes| then sofar
    else
      var term := TermValue(nodes[i + 1], test);
      FoldFrom(nodes, i + 2, if nodes[i].And? then sofar && term else sofar || term, test)
  }

  lemma {:induction false} TermBuilds(node: Ast, test: nat -> bool)
    requires Term(node)
    ensures WellFormed(Walk(node, None)) && Eval(Walk(node, None), test) == Some(TermValue(node, test))
    ensures forall prev: Option<Node> {:trigger Walk(node, prev)} :: Walk(node, prev) == Added(prev, Walk(node, None))
    decreases node, 0
  {
    if node.Cond? {
      ShapeBuilds(node.children, test);
    }
  }

  lemma {:induction false} TailBuilds(nodes: seq<Ast>, i: nat, prev: Option<Node>, sofar: bool, test: nat -> bool)
    requires i <= |nodes| && TailShape(nodes, i) && WellFormed(prev) && Eval(prev, test) == Some(sofar)
    ensures WellFormed(WalkFrom(nodes, i, prev))
    ensures Eval(WalkFrom(nodes, i, prev), test) == Some(FoldFrom(nodes, i, sofar, test))
    decreases nodes, |nodes| - i
  {
    if i < |nodes| {
      var term := nodes[i + 1];
      TermBuilds(term, test);
      var open := Walk(nodes[i], prev);
      var both := Added(open, Walk(term, None));
      assert both.value.children == [prev, Walk(term, None)];
      assert WalkFrom(nodes, i, prev) == WalkFrom(nodes, i + 1, open) == WalkFrom(nodes, i + 2, both);
      var value := TermValue(term, test);
      TailBuilds(nodes, i + 2, both, if nodes[i].And? then sofar && value else sofar || value, test);
    }
  }

  /** Every list of the shape gives a well-formed tree whose short-circuit value is the list's meaning. */
  lemma {:induction false} ShapeBuilds(nodes: seq<Ast>, test: nat -> bool)
    requires Shape(nodes)
    ensures WellFormed(Build(nodes)) && Eval(Build(nodes), test) == Some(Meaning(nodes, test))
    decreases nodes, |nodes| + 1
  {
    if nodes[0].Not? {
      TermBuilds(nodes[1], test);
      var negated := Added(Walk(Not, None), Walk(nodes[1], None));
      assert negated.value.children == [Walk(nodes[1], None)];
      assert Build(nodes) == WalkFrom(nodes, 1, Walk(Not, None)) == WalkFrom(nodes, 2, negated);
      TailBuilds(nodes, 2, negated, !TermValue(nodes[1], test), test);
    } else {
      TermBuilds(nodes[0], test);
      assert Build(nodes) == WalkFrom(nodes, 1, Walk(nodes[0], None));
      TailBuilds(nodes, 1, Walk(nodes[0], None), TermValue(nodes[0], test), test);
    }
  }

  // ----- what the grammar produces -----

  /** Derivations of Cond and CondTail. Only parenthesized conditions are stored as nodes of their own. */
  datatype Condition =
    | PredFirst(id: nat, tail: ConditionTail)
    | NotFirst(cond: Condition, tail: ConditionTail)
    | Parenthesized(inner: Condition, tail: ConditionTail)
  datatype ConditionTail = End | More(isAnd: bool, cond: Condition, tail: ConditionTail)

  /** The siblings that a derivation stores. */
  function Stored(c: Condition): seq<Ast> {
    match c
    case PredFirst(id, tail) => [Pred(id)] + StoredTail(tail)
    case NotFirst(cond, tail) => [Not] + Stored(cond) + StoredTail(tail)
    case Parenthesized(inner, tail) => [Cond(Stored(inner))] + StoredTail(tail)
  }

  function StoredTail(t: ConditionTail): seq<Ast> {
    match t
    case End => []
    case More(isAnd, cond, tail) => [if isAnd then And else Or] + Stored(cond) + StoredTail(tail)
  }

  /** From i on the list reads NOT* term ((AND | OR) NOT* term)*; expecting says that a term is due. */
  predicate InGrammar(nodes: seq<Ast>, i: nat, expecting: bool)
    requires i <= |nodes|
    decreases nodes, |nodes| - i
  {
    if i == |nodes| then !expecting
    else
      match nodes[i]
      case Pred(_) => expecting && InGrammar(nodes, i + 1, false)
      case Cond(children) => expecting && InGrammar(children, 0, true) && InGrammar(nodes, i + 1, false)
      case Not => expecting && InGrammar(nodes, i + 1, true)
      case And => !expecting && InGrammar(nodes, i + 1, true)
      case Or => !expecting && InGrammar(nodes, i + 1, true)
  }

  /** From i on no NOT but at the head of its list. */
  predicate NotsFirst(nodes: seq<Ast>, i: nat)
    requires i <= |nodes|
    decreases nodes, |nodes| - i
  {
    i < |nodes| ==>
      && (nodes[i].Not? ==> i == 0)
      && (nodes[i].Cond? ==> NotsFirst(nodes[i].children, 0))
      && NotsFirst(nodes, i + 1)
  }

  /** The list all holds part from i on. */
  predicate At(all: seq<Ast>, i: nat, part: seq<Ast>) {
    i + |part| <= |all| && all[i..i + |part|] == part
  }

  lemma {:induction false} AtBoth(all: seq<Ast>, i: nat, a: seq<Ast>, b: seq<Ast>)
    requires At(all, i, a + b)
    ensures At(all, i, a) && At(all, i + |a|, b)
  {
    var ab := all[i..i + |a + b|];
    assert ab[..|a|] == a && ab[|a|..] == b;
  }

  /** What More stores. */
  lemma {:induction false} MoreAt(t: ConditionTail, all: seq<Ast>, i: nat)
    requires t.More? && At(all, i, StoredTail(t))
    ensures |StoredTail(t)| == 1 + |Stored(t.cond)| + |StoredTail(t.tail)|
    ensures i < |all| && all[i] == (if t.isAnd then And else Or)
    ensures At(all, i + 1, Stored(t.cond)) && At(all, i + 1 + |Stored(t.cond)|, StoredTail(t.tail))
  {
    var node := if t.isAnd then And else Or;
    AtBoth(all, i, [node] + Stored(t.cond), StoredTail(t.tail));
    AtBoth(all, i, [node], Stored(t.cond));
    assert all[i] == all[i..i + 1][0];
  }

  /** Wherever the siblings of a condition stand in a list, they read as one condition does. */
  lemma {:induction false} StoredInGrammar(c: Condition, all: seq<Ast>, i: nat)
    requires At(all, i, Stored(c))
    ensures InGrammar(all, i, true) == InGrammar(all, i + |Stored(c)|, false)
    decreases c, 2
  {
    if c.NotFirst? {
      NegatedInGrammar(c, all, i);
    } else {
      PlainInGrammar(c, all, i);
    }
  }

  lemma {:induction false} NegatedInGrammar(c: Condition, all: seq<Ast>, i: nat)
    requires c.NotFirst? && At(all, i, Stored(c))
    ensures InGrammar(all, i, true) == InGrammar(all, i + |Stored(c)|, false)
    decreases c, 1
  {
    var inner, rest := Stored(c.cond), StoredTail(c.tail);
    assert Stored(c) == [Not] + inner + rest;
    AtBoth(all, i, [Not] + inner, rest);
    FirstAt(all, i, Not, inner);
    ReadsNot(all, i);
    StoredInGrammar(c.cond, all, i + 1);
    StoredTailInGrammar(c.tail, all, i + 1 + |inner|);
    assert i + |Stored(c)| == i + 1 + |inner| + |rest|;
  }

  lemma {:induction false} PlainInGrammar(c: Condition, all: seq<Ast>, i: nat)
    requires !c.NotFirst? && At(all, i, Stored(c))
    ensures InGrammar(all, i, true) == InGrammar(all, i + |Stored(c)|, false)
    decreases c, 1
  {
    var node, rest := Stored(c)[0], StoredTail(c.tail);
    assert Stored(c) == [node] + rest;
    FirstAt(all, i, node, rest);
    if c.Parenthesized? {
      StoredInGrammar(c.inner, Stored(c.inner), 0);
    }
    ReadsTerm(all, i);
    StoredTailInGrammar(c.tail, all, i + 1);
    assert i + |Stored(c)| == i + 1 + |rest|;
  }

  lemma {:induction false} ReadsTerm(all: seq<Ast>, i: nat)
    requires i < |all| && (all[i].Pred? || (all[i].Cond? && InGrammar(all[i].children, 0, true)))
    ensures InGrammar(all, i, true) == InGrammar(all, i + 1, false)
  {
  }

  lemma {:induction false} ReadsNot(all: seq<Ast>, i: nat)
    requires i < |all| && all[i].Not?
    ensures InGrammar(all, i, true) == InGrammar(all, i + 1, true)
  {
  }

  lemma {:induction false} FirstAt(all: seq<Ast>, i: nat, node: Ast, rest: seq<Ast>)
    requires At(all, i, [node] + rest)
    ensures i < |all| && all[i] == node && At(all, i + 1, rest)
  {
    AtBoth(all, i, [node], rest);
    assert all[i] == all[i..i + 1][0];
  }

  lemma {:induction false} StoredTailInGrammar(t: ConditionTail, all: seq<Ast>, i: nat)
    requires At(all, i, StoredTail(t))
    ensures InGrammar(all, i, false) == InGrammar(all, i + |StoredTail(t)|, false)
    decreases t, 0
  {
    if t.More? {
      MoreAt(t, all, i);
      StoredInGrammar(t.cond, all, i + 1);
      StoredTailInGrammar(t.tail, all, i + 1 + |Stored(t.cond)|);
    }
  }

  // ----- when the tree is well formed -----

  /** A node that lacks exactly its last child. */
  predicate Open(tree: Option<Node>) {
    && tree.Some?
    && var n := tree.value;
       match n.kind
       case Test(_) => false
       case NotOp => n.children == []
       case AndOp => |n.children| == 1 && WellFormed(n.children[0])
       case OrOp => |n.children| == 1 && WellFormed(n.children[0])
  }

  /** No further child or parent makes the tree well formed. */
  predicate Broken(tree: Option<Node>) {
    && tree.Some? && !WellFormed(tree) && !Open(tree)
    && (tree.value.kind.AndOp? || tree.value.kind.OrOp? ==> tree.value.children != [])
  }

  lemma {:induction false} AddedStatus(prev: Option<Node>, eval: Option<Node>)
    requires eval.Some?
    ensures Open(prev) && WellFormed(eval) ==> WellFormed(Added(prev, eval))
    ensures Open(prev) && !WellFormed(eval) ==> Broken(Added(prev, eval))
    ensures Broken(prev) ==> Broken(Added(prev, eval))
  {
    if prev.Some? {
      var n := prev.value;
      assert forall k :: 0 <= k < |n.children| ==> (n.children + [eval])[k] == n.children[k];
    }
  }

  /** Walking the rest of a list of the grammar: the result is well formed or broken, and it is well formed exactly when
      the tree so far is not broken and no NOT is left but at the head of a list. */
  lemma {:induction false} WalkStatus(nodes: seq<Ast>, i: nat, prev: Option<Node>, expecting: bool)
    requires i <= |nodes| && InGrammar(nodes, i, expecting) && (prev.None? <==> i == 0)
    requires if i == 0 then expecting else Broken(prev) || (if expecting then Open(prev) else WellFormed(prev))
    ensures var r := WalkFrom(nodes, i, prev);
            && (WellFormed(r) || Broken(r))
            && (WellFormed(r) <==> !Broken(prev) && NotsFirst(nodes, i))
    decreases nodes, |nodes| - i
  {
    if i < |nodes| {
      var node := nodes[i];
      var next := Walk(node, prev);
      match node {
        case Pred(id) =>
          AddedStatus(prev, Some(Node(Test(id), [])));
          WalkStatus(nodes, i + 1, next, false);
        case Cond(children) =>
          WalkStatus(children, 0, None, true);
          AddedStatus(prev, Build(children));
          WalkStatus(nodes, i + 1, next, false);
        case Not =>
          AddedStatus(prev, Some(Node(NotOp, [])));
          WalkStatus(nodes, i + 1, next, true);
        case And =>
          WalkStatus(nodes, i + 1, next, true);
        case Or =>
          WalkStatus(nodes, i + 1, next, true);
      }
    }
  }

  /** For every condition of the grammar the tree is well formed if and only if every NOT heads its list. */
  lemma {:induction false} WellFormedIffNotsFirst(c: Condition)
    ensures WellFormed(Build(Stored(c))) <==> NotsFirst(Stored(c), 0)
  {
    StoredInGrammar(c, Stored(c), 0);
    WalkStatus(Stored(c), 0, None, true);
  }

  lemma {:induction false} ShapeFrom(nodes: seq<Ast>, i: nat, expecting: bool)
    requires 0 < i <= |nodes| && NotsFirst(nodes, i)
    requires InGrammar(nodes, i, expecting)
    ensures if expecting then i < |nodes| && Term(nodes[i]) && TailShape(nodes, i + 1) else TailShape(nodes, i)
    decreases nodes, |nodes| - i
  {
    if i < |nodes| {
      if nodes[i].Cond? {
        ShapeOf(nodes[i].children);
      }
      ShapeFrom(nodes, i + 1, nodes[i].And? || nodes[i].Or?);
    }
  }

  lemma {:induction false} ShapeOf(nodes: seq<Ast>)
    requires NotsFirst(nodes, 0) && InGrammar(nodes, 0, true)
    ensures Shape(nodes)
    decreases nodes, |nodes| + 1
  {
    if nodes[0].Cond? {
      ShapeOf(nodes[0].children);
    }
    ShapeFrom(nodes, 1, nodes[0].Not?);
  }

  /** The filter as a whole: where every NOT heads its list, evaluating the tree that is built for the condition gives the
      value of its terms combined from left to right. */
  lemma {:induction false} FilterMeansItsList(c: Condition, test: nat -> bool)
    requires NotsFirst(Stored(c), 0)
    ensures Shape(Stored(c)) && Eval(Build(Stored(c)), test) == Some(Meaning(Stored(c), test))
  {
    StoredInGrammar(c, Stored(c), 0);
    ShapeOf(Stored(c));
    ShapeBuilds(Stored(c), test);
  }

  /** The condition "a AND NOT b" is in the grammar, and its tree evaluates a child that is not there whenever a holds. */
  lemma {:induction false} AndNotIsMalformed(test: nat -> bool)
    ensures var c := PredFirst(0, More(true, NotFirst(PredFirst(1, End), End), End));
            && Stored(c) == [Pred(0), And, Not, Pred(1)] && !WellFormed(Build(Stored(c)))
            && (Eval(Build(Stored(c)), test) == None <==> test(0))
  {
    var a, b, not := Some(Node(Test(0), [])), Some(Node(Test(1), [])), Some(Node(NotOp, []));
    var nodes := [Pred(0), And, Not, Pred(1)];
    var one, two, three := Some(Node(AndOp, [a])), Some(Node(AndOp, [a, not])), Some(Node(AndOp, [a, not, b]));
    assert [a] + [not] == [a, not] && [a, not] + [b] == [a, not, b];
    assert Build(nodes) == WalkFrom(nodes, 1, a) == WalkFrom(nodes, 2, one);
    assert Walk(Not, one) == two && Walk(Pred(1), two) == three;
    assert WalkFrom(nodes, 2, one) == WalkFrom(nodes, 3, two) == WalkFrom(nodes, 4, three);
  }
}
