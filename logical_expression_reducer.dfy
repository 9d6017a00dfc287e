/**
 * The logical expression reducer rule: an OR whose branches share conjuncts,
 * `(a AND b AND x) OR (c AND d AND x)`, is rewritten to `x AND ((a AND b) OR (c AND d))`.
 *
 * Expressions are values compared by structure, as `ExpressionUnorderedSet` and the memo map
 * compare them. An `ExpressionUnorderedSet` is a `set`; the order in which the rule iterates over
 * such a set is the parameter `order`, a function of the set's contents. The rule's truth claim is
 * stated for every two-valued assignment: an operation's truth is `truth` applied to its id and the
 * values of its arguments.
 */
module LogicalExpressionReducer {
  import opened Wrappers

  datatype LogicalOperator = And | Or

  /**
   * An expression: a `LogicalExpression`, or any other expression (`Operation`), identified by
   * everything that is not an argument (`id`) and by its argument expressions.
   */
  datatype Expression =
    | Operation(id: nat, arguments: seq<Expression>)
    | Logical(op: LogicalOperator, left: Expression, right: Expression)

  /** A link of a chain of `op`: a logical expression with that operator. */
  predicate IsChain(e: Expression, op: LogicalOperator)
  {
    e.Logical? && e.op == op
  }

  /** The truth value of an expression under an assignment of truth values to operations. */
  function Eval(e: Expression, truth: (nat, seq<bool>) -> bool): bool
    decreases e
  {
    match e
    case Operation(id, args) => truth(id, seq(|args|, i requires 0 <= i < |args| => Eval(args[i], truth)))
    case Logical(op, l, r) => if op == And then Eval(l, truth) && Eval(r, truth) else Eval(l, truth) || Eval(r, truth)
  }

  // --- The chain helpers ---

  /**
   * `_collect_chained_logical_expressions`: the elements of the chain `a op (b op (c ...))`. An
   * expression that is not a link of the chain is an element of its own.
   */
  function Collect(e: Expression, op: LogicalOperator): (r: set<Expression>)
    ensures r != {}
    ensures forall x :: x in r ==> !IsChain(x, op)
    ensures !IsChain(e, op) ==> r == {e}
    decreases e
  {
    if IsChain(e, op) then Collect(e.left, op) + Collect(e.right, op) else {e}
  }

  /** An AND chain holds exactly when all of its elements hold. */
  lemma {:induction false} ConjunctionOfCollected(e: Expression, truth: (nat, seq<bool>) -> bool)
    ensures Eval(e, truth) <==> forall x :: x in Collect(e, And) ==> Eval(x, truth)
    decreases e
  {
    if IsChain(e, And) {
      ConjunctionOfCollected(e.left, truth);
      ConjunctionOfCollected(e.right, truth);
    }
  }

  /** An OR chain holds exactly when one of its elements holds. */
  lemma {:induction false} DisjunctionOfCollected(e: Expression, truth: (nat, seq<bool>) -> bool)
    ensures Eval(e, truth) <==> exists x :: x in Collect(e, Or) && Eval(x, truth)
    decreases e
  {
    if IsChain(e, Or) {
      DisjunctionOfCollected(e.left, truth);
      DisjunctionOfCollected(e.right, truth);
    }
  }

  /**
   * `_remove_expressions_from_chain`: drops the elements in `toRemove` from the chain. A link
   * whose left (or else right) operand is to be removed is replaced by the other operand, from
   * which removal goes on; a link with neither is kept with both operands reduced.
   */
  function Remove(chain: Expression, op: LogicalOperator, toRemove: set<Expression>): (r: Expression)
    ensures Collect(r, op) <= Collect(chain, op)
    ensures (forall x :: x in toRemove ==> !IsChain(x, op)) ==> Collect(chain, op) - toRemove <= Collect(r, op)
    ensures !IsChain(chain, op) ==> r == chain
    decreases chain
  {
    if !IsChain(chain, op) then chain
    else if chain.left in toRemove then Remove(chain.right, op, toRemove)
    else if chain.right in toRemove then Remove(chain.left, op, toRemove)
    else Logical(op, Remove(chain.left, op, toRemove), Remove(chain.right, op, toRemove))
  }

  /** Removing conjuncts that the chain has loses nothing once they are AND-ed back in. */
  lemma RemovePreservesConjunction(b: Expression, common: set<Expression>, truth: (nat, seq<bool>) -> bool)
    requires common <= Collect(b, And)
    ensures Eval(b, truth) == ((forall c :: c in common ==> Eval(c, truth)) && Eval(Remove(b, And, common), truth))
  {
    ConjunctionOfCollected(b, truth);
    ConjunctionOfCollected(Remove(b, And, common), truth);
  }

  // --- Step 2: the common conjuncts ---

  /** The AND elements every branch has, intersected branch by branch. */
  function CommonOf(branches: seq<Expression>): set<Expression>
    requires |branches| > 0
    decreases |branches|
  {
    if |branches| == 1 then Collect(branches[0], And)
    else CommonOf(branches[..|branches| - 1]) * Collect(branches[|branches| - 1], And)
  }

  /** A common conjunct is an AND element of every branch, and each such element is common. */
  lemma {:induction false} CommonIsInEveryBranch(branches: seq<Expression>, x: Expression)
    requires |branches| > 0
    ensures x in CommonOf(branches) <==> forall i :: 0 <= i < |branches| ==> x in Collect(branches[i], And)
    decreases |branches|
  {
    if |branches| > 1 {
      var init := branches[..|branches| - 1];
      CommonIsInEveryBranch(init, x);
      forall i | 0 <= i < |init|
        ensures branches[i] == init[i]
      {
      }
    }
  }

  /**
   * Step 2 of `_apply_to_expressions`: starts from the AND elements of the first branch and, for
   * every further branch, erases those that branch lacks.
   */
  method IntersectConjuncts(branches: seq<Expression>) returns (common: set<Expression>)
    requires |branches| > 0
    ensures common == CommonOf(branches)
  {
    common := Collect(branches[0], And);
    var k := 1;
    while k < |branches|
      invariant 1 <= k <= |branches|
      invariant common == CommonOf(branches[..k])
    {
      var current := Collect(branches[k], And);
      ghost var start := common;
      var pending := common;
      while pending != {}
        invariant pending <= start
        invariant common == start * current + pending
        decreases |pending|
      {
        var x :| x in pending;
        if x !in current {
          common := common - {x};
        }
        pending := pending - {x};
      }
      assert branches[..k + 1][..k] == branches[..k];
      k := k + 1;
    }
    assert branches[..k] == branches;
  }

  // --- Step 4: the rewrite ---

  /** Each branch with the common conjuncts removed. */
  function RemoveAll(branches: seq<Expression>, common: set<Expression>): (r: seq<Expression>)
    ensures |r| == |branches|
    decreases |branches|
  {
    if branches == [] then []
    else RemoveAll(branches[..|branches| - 1], common) + [Remove(branches[|branches| - 1], And, common)]
  }

  lemma {:induction false} RemoveAllElements(branches: seq<Expression>, common: set<Expression>)
    ensures forall i :: 0 <= i < |branches| ==> RemoveAll(branches, common)[i] == Remove(branches[i], And, common)
    decreases |branches|
  {
    if branches != [] {
      RemoveAllElements(branches[..|branches| - 1], common);
    }
  }

  /** `first` OR-ed, from the left, with each of `xs` in turn. */
  function OrFold(first: Expression, xs: seq<Expression>): Expression
    decreases |xs|
  {
    if xs == [] then first else Logical(Or, OrFold(first, xs[..|xs| - 1]), xs[|xs| - 1])
  }

  /** `chain` with each of `cs` in turn AND-ed in front of it. */
  function AndFront(chain: Expression, cs: seq<Expression>): Expression
    decreases |cs|
  {
    if cs == [] then chain else Logical(And, cs[|cs| - 1], AndFront(chain, cs[..|cs| - 1]))
  }

  /**
   * The expression Step 4 builds: the first reduced branch, OR-ed with every reduced branch (the
   * first one again included), and the common conjuncts AND-ed in front in `commonOrder`.
   */
  function Rewritten(branches: seq<Expression>, common: set<Expression>, commonOrder: seq<Expression>): Expression
    requires |branches| > 0
  {
    var removed := RemoveAll(branches, common);
    AndFront(OrFold(removed[0], removed), commonOrder)
  }

  lemma {:induction false} EvalOrFold(first: Expression, xs: seq<Expression>, truth: (nat, seq<bool>) -> bool)
    ensures Eval(OrFold(first, xs), truth) == (Eval(first, truth) || exists i :: 0 <= i < |xs| && Eval(xs[i], truth))
    decreases |xs|
  {
    if xs != [] {
      var init := xs[..|xs| - 1];
      EvalOrFold(first, init, truth);
      if exists i :: 0 <= i < |init| && Eval(init[i], truth) {
        var i :| 0 <= i < |init| && Eval(init[i], truth);
        assert xs[i] == init[i];
      }
      forall i | 0 <= i < |xs| - 1
        ensures xs[i] == init[i]
      {
      }
    }
  }

  lemma {:induction false} EvalAndFront(chain: Expression, cs: seq<Expression>, truth: (nat, seq<bool>) -> bool)
    ensures Eval(AndFront(chain, cs), truth) == ((forall i :: 0 <= i < |cs| ==> Eval(cs[i], truth)) && Eval(chain, truth))
    decreases |cs|
  {
    if cs != [] {
      var init := cs[..|cs| - 1];
      EvalAndFront(chain, init, truth);
      forall i | 0 <= i < |cs| - 1
        ensures cs[i] == init[i]
      {
      }
    }
  }

  /** `xs` lists exactly the elements of `s`. */
  predicate IsEnumeration(xs: seq<Expression>, s: set<Expression>)
  {
    (forall x :: x in xs ==> x in s) && (forall x :: x in s ==> x in xs)
  }

  /** Some expression of `xs` holds. */
  predicate SomeHolds(xs: seq<Expression>, truth: (nat, seq<bool>) -> bool)
  {
    exists i :: 0 <= i < |xs| && Eval(xs[i], truth)
  }

  /** Every expression of `s` holds. */
  predicate AllHold(s: set<Expression>, truth: (nat, seq<bool>) -> bool)
  {
    forall c :: c in s ==> Eval(c, truth)
  }

  lemma CommonInBranch(branches: seq<Expression>, i: nat)
    requires i < |branches|
    ensures CommonOf(branches) <= Collect(branches[i], And)
  {
    forall x | x in CommonOf(branches)
      ensures x in Collect(branches[i], And)
    {
      CommonIsInEveryBranch(branches, x);
    }
  }

  lemma AllListedHold(cs: seq<Expression>, s: set<Expression>, truth: (nat, seq<bool>) -> bool)
    requires IsEnumeration(cs, s)
    ensures (forall i :: 0 <= i < |cs| ==> Eval(cs[i], truth)) == AllHold(s, truth)
  {
    if !AllHold(s, truth) {
      var c :| c in s && !Eval(c, truth);
      assert c in cs;
    }
  }

  lemma {:induction false} ChainHoldsIfSomeBranchHolds(e: Expression, branches: seq<Expression>, truth: (nat, seq<bool>) -> bool)
    requires IsEnumeration(branches, Collect(e, Or))
    ensures Eval(e, truth) == SomeHolds(branches, truth)
  {
    DisjunctionOfCollected(e, truth);
    if Eval(e, truth) {
      var b :| b in Collect(e, Or) && Eval(b, truth);
      assert b in branches;
    }
    if SomeHolds(branches, truth) {
      var i :| 0 <= i < |branches| && Eval(branches[i], truth);
      assert branches[i] in Collect(e, Or);
    }
  }

  /** With the common conjuncts holding, a branch holds exactly when its reduced form does. */
  lemma ReducedBranchesHold(branches: seq<Expression>, truth: (nat, seq<bool>) -> bool)
    requires |branches| > 0
    ensures SomeHolds(branches, truth) == (AllHold(CommonOf(branches), truth) && SomeHolds(RemoveAll(branches, CommonOf(branches)), truth))
  {
    var common := CommonOf(branches);
    var removed := RemoveAll(branches, common);
    RemoveAllElements(branches, common);
    forall i | 0 <= i < |branches|
      ensures Eval(branches[i], truth) == (AllHold(common, truth) && Eval(removed[i], truth))
    {
      CommonInBranch(branches, i);
      RemovePreservesConjunction(branches[i], common, truth);
    }
    if SomeHolds(removed, truth) && AllHold(common, truth) {
      var i :| 0 <= i < |removed| && Eval(removed[i], truth);
      assert Eval(branches[i], truth);
    }
  }

  /**
   * The rewrite keeps the truth value of the OR chain under every assignment, whatever order the
   * branches and the common conjuncts are visited in.
   */
  lemma RewrittenPreservesTruth(e: Expression, branches: seq<Expression>, commonOrder: seq<Expression>, truth: (nat, seq<bool>) -> bool)
    requires IsEnumeration(branches, Collect(e, Or)) && |branches| > 0
    requires IsEnumeration(commonOrder, CommonOf(branches))
    ensures Eval(Rewritten(branches, CommonOf(branches), commonOrder), truth) == Eval(e, truth)
  {
    var common := CommonOf(branches);
    var removed := RemoveAll(branches, common);
    EvalAndFront(OrFold(removed[0], removed), commonOrder, truth);
    AllListedHold(commonOrder, common, truth);
    EvalOrFold(removed[0], removed, truth);
    ChainHoldsIfSomeBranchHolds(e, branches, truth);
    ReducedBranchesHold(branches, truth);
    assert Eval(removed[0], truth) ==> SomeHolds(removed, truth);
  }

  /**
   * Step 4.1 and 4.2 of `_apply_to_expressions`: starts from the first branch with the common
   * conjuncts removed, OR-s in every branch so reduced (restarting at the first), then AND-s each
   * common conjunct in front.
   */
  method RebuildChain(branches: seq<Expression>, common: set<Expression>, commonOrder: seq<Expression>) returns (chain: Expression)
    requires |branches| > 0
    ensures chain == Rewritten(branches, common, commonOrder)
  {
    ghost var removed := RemoveAll(branches, common);
    RemoveAllElements(branches, common);
    chain := Remove(branches[0], And, common);
    ghost var first := chain;
    var i := 0;
    while i < |branches|
      invariant 0 <= i <= |branches|
      invariant chain == OrFold(first, removed[..i])
    {
      var branch := Remove(branches[i], And, common);
      assert removed[..i + 1][..i] == removed[..i];
      chain := Logical(Or, chain, branch);
      i := i + 1;
    }
    assert removed[..i] == removed;
    ghost var ored := chain;
    var j := 0;
    while j < |commonOrder|
      invariant 0 <= j <= |commonOrder|
      invariant chain == AndFront(ored, commonOrder[..j])
    {
      assert commonOrder[..j + 1][..j] == commonOrder[..j];
      chain := Logical(And, commonOrder[j], chain);
      j := j + 1;
    }
    assert commonOrder[..j] == commonOrder;
  }

  // --- The reduction of one expression ---

  /** `order(s)` lists the contents of `s`. */
  predicate Lists(order: set<Expression> -> seq<Expression>, s: set<Expression>)
  {
    IsEnumeration(order(s), s)
  }

  /** `order(s)` is the iteration order of a set with the contents `s`. */
  ghost predicate ValidOrder(order: set<Expression> -> seq<Expression>)
  {
    forall s :: Lists(order, s)
  }

  /** The iteration order of a non-empty set has a first element. */
  lemma OrderOfNonEmpty(order: set<Expression> -> seq<Expression>, s: set<Expression>)
    requires ValidOrder(order) && s != {}
    ensures IsEnumeration(order(s), s) && |order(s)| > 0
  {
    assert Lists(order, s);
    var x :| x in s;
    assert x in order(s);
  }

  /**
   * The factoring of one OR chain: `None` when it is no OR or its branches share no conjunct
   * (Step 3), otherwise the rewritten expression.
   */
  function Factor(e: Expression, order: set<Expression> -> seq<Expression>): Option<Expression>
  {
    if !IsChain(e, Or) then None
    else
      var branches := order(Collect(e, Or));
      if |branches| == 0 then None
      else
        var common := CommonOf(branches);
        if common == {} then None
        else Some(Rewritten(branches, common, order(common)))
  }

  /** A factored OR chain becomes an AND chain. */
  lemma FactorIsConjunction(e: Expression, order: set<Expression> -> seq<Expression>)
    requires ValidOrder(order) && Factor(e, order).Some?
    ensures IsChain(e, Or) && IsChain(Factor(e, order).value, And)
  {
    OrderOfNonEmpty(order, CommonOf(order(Collect(e, Or))));
  }

  /** `x` is an AND element of each branch in `bs`. */
  predicate InEveryBranch(x: Expression, bs: set<Expression>)
  {
    forall b :: b in bs ==> x in Collect(b, And)
  }

  /** Over an enumeration of the branches, the common conjuncts are those in every branch. */
  lemma CommonOfListedBranches(branches: seq<Expression>, bs: set<Expression>, x: Expression)
    requires IsEnumeration(branches, bs) && |branches| > 0
    ensures x in CommonOf(branches) <==> InEveryBranch(x, bs)
  {
    CommonIsInEveryBranch(branches, x);
    if x in CommonOf(branches) {
      forall b | b in bs
        ensures x in Collect(b, And)
      {
        var i :| 0 <= i < |branches| && branches[i] == b;
      }
    }
    if InEveryBranch(x, bs) {
      forall i | 0 <= i < |branches|
        ensures x in Collect(branches[i], And)
      {
        assert branches[i] in bs;
      }
    }
  }

  /** An OR chain is factored exactly when its branches have a common conjunct. */
  lemma FactorOfChain(e: Expression, order: set<Expression> -> seq<Expression>)
    requires ValidOrder(order) && IsChain(e, Or)
    ensures |order(Collect(e, Or))| > 0
    ensures Factor(e, order).Some? <==> CommonOf(order(Collect(e, Or))) != {}
  {
    OrderOfNonEmpty(order, Collect(e, Or));
  }

  /** An OR chain some conjunct of which occurs in all of its branches. */
  ghost predicate SharesConjunct(e: Expression)
  {
    IsChain(e, Or) && exists x :: InEveryBranch(x, Collect(e, Or))
  }

  /** An OR chain is factored exactly when some conjunct occurs in all of its branches. */
  lemma FactorIffSharedConjunct(e: Expression, order: set<Expression> -> seq<Expression>)
    requires ValidOrder(order)
    ensures Factor(e, order).Some? <==> SharesConjunct(e)
  {
    if IsChain(e, Or) {
      var bs := Collect(e, Or);
      var branches := order(bs);
      FactorOfChain(e, order);
      OrderOfNonEmpty(order, bs);
      if exists x :: InEveryBranch(x, bs) {
        var x :| InEveryBranch(x, bs);
        CommonOfListedBranches(branches, bs, x);
      }
      if CommonOf(branches) != {} {
        var x :| x in CommonOf(branches);
        CommonOfListedBranches(branches, bs, x);
      }
    }
  }

  /** The factored expression has the truth value of the original under every assignment. */
  lemma FactorPreservesTruth(e: Expression, order: set<Expression> -> seq<Expression>, truth: (nat, seq<bool>) -> bool)
    requires ValidOrder(order) && Factor(e, order).Some?
    ensures Eval(Factor(e, order).value, truth) == Eval(e, truth)
  {
    var branches := order(Collect(e, Or));
    OrderOfNonEmpty(order, Collect(e, Or));
    OrderOfNonEmpty(order, CommonOf(branches));
    RewrittenPreservesTruth(e, branches, order(CommonOf(branches)), truth);
  }

  /**
   * What one visit of `_apply_to_expressions` leaves in place of an expression: an OR chain is
   * factored when it can be, other logical expressions stay, and the arguments of every other
   * expression are reduced in turn.
   */
  function Reduce(e: Expression, order: set<Expression> -> seq<Expression>): Expression
    requires ValidOrder(order)
    decreases e
  {
    match e
    case Operation(id, args) => Operation(id, ReduceAll(args, order))
    case Logical(_, _, _) => if Factor(e, order).Some? then Factor(e, order).value else e
  }

  /** Some OR chain the visit reaches is factored. */
  ghost predicate Reducible(e: Expression)
    decreases e
  {
    match e
    case Operation(_, args) => exists i :: 0 <= i < |args| && Reducible(args[i])
    case Logical(_, _, _) => SharesConjunct(e)
  }

  /** Some OR chain the visit of one of `xs` reaches is factored. */
  ghost predicate AnyReducible(xs: seq<Expression>)
    decreases |xs|
  {
    |xs| > 0 && (AnyReducible(xs[..|xs| - 1]) || Reducible(xs[|xs| - 1]))
  }

  lemma {:induction false} AnyReducibleIffSome(xs: seq<Expression>)
    ensures AnyReducible(xs) <==> exists j :: 0 <= j < |xs| && Reducible(xs[j])
    decreases |xs|
  {
    if |xs| > 0 {
      var init := xs[..|xs| - 1];
      AnyReducibleIffSome(init);
      if exists j :: 0 <= j < |init| && Reducible(init[j]) {
        var j :| 0 <= j < |init| && Reducible(init[j]);
        assert xs[j] == init[j];
      }
      if exists j :: 0 <= j < |xs| - 1 && Reducible(xs[j]) {
        var j :| 0 <= j < |xs| - 1 && Reducible(xs[j]);
        assert xs[j] == init[j];
      }
    }
  }

  /** The reduced expression has the truth value of the original under every assignment. */
  lemma {:induction false} ReducePreservesTruth(e: Expression, order: set<Expression> -> seq<Expression>, truth: (nat, seq<bool>) -> bool)
    requires ValidOrder(order)
    ensures Eval(Reduce(e, order), truth) == Eval(e, truth)
    decreases e
  {
    match e
    case Operation(id, args) =>
      var reduced := ReduceAll(args, order);
      ReduceAllElements(args, order);
      forall i | 0 <= i < |args|
        ensures Eval(reduced[i], truth) == Eval(args[i], truth)
      {
        ReducePreservesTruth(args[i], order, truth);
      }
      assert seq(|reduced|, i requires 0 <= i < |reduced| => Eval(reduced[i], truth))
        == seq(|args|, i requires 0 <= i < |args| => Eval(args[i], truth));
    case Logical(_, _, _) =>
      if Factor(e, order).Some? {
        FactorPreservesTruth(e, order, truth);
      }
  }

  /** The reduction leaves an expression as it is exactly when nothing in it is factored. */
  lemma {:induction false} ReduceChangesIffReducible(e: Expression, order: set<Expression> -> seq<Expression>)
    requires ValidOrder(order)
    ensures Reduce(e, order) == e <==> !Reducible(e)
    decreases e
  {
    match e
    case Operation(id, args) =>
      var reduced := ReduceAll(args, order);
      ReduceAllElements(args, order);
      forall i | 0 <= i < |args|
        ensures reduced[i] == args[i] <==> !Reducible(args[i])
      {
        ReduceChangesIffReducible(args[i], order);
      }
      if Reducible(e) {
        var i :| 0 <= i < |args| && Reducible(args[i]);
        assert reduced[i] != args[i];
      } else {
        assert reduced == args;
      }
    case Logical(_, _, _) =>
      FactorIffSharedConjunct(e, order);
      if Factor(e, order).Some? {
        FactorIsConjunction(e, order);
      }
  }

  // --- The visitor and the memo ---

  /** Every memo entry maps an OR chain to its factoring. */
  ghost predicate MemoSound(memo: map<Expression, Expression>, order: set<Expression> -> seq<Expression>)
    requires ValidOrder(order)
  {
    forall k :: k in memo ==> Factor(k, order) == Some(memo[k])
  }

  /**
   * The visitor of `_apply_to_expressions` on one expression: a memoised expression is replaced by
   * its memo entry (Step 0); the arguments of an expression that is not logical are visited; an
   * OR chain with common conjuncts is rewritten and memoised (Steps 1 to 4).
   */
  method VisitExpression(e: Expression, memo: map<Expression, Expression>, order: set<Expression> -> seq<Expression>)
    returns (r: Expression, memo': map<Expression, Expression>, changed: bool)
    requires ValidOrder(order) && MemoSound(memo, order)
    ensures r == Reduce(e, order)
    ensures MemoSound(memo', order) && memo.Keys <= memo'.Keys
    ensures changed ==> Reducible(e)
    ensures changed || |memo'| == |memo|
    ensures Reducible(e) ==> |memo'| > 0
    decreases e
  {
    if e in memo {
      FactorIffSharedConjunct(e, order);
      return memo[e], memo, false;
    }
    FactorIffSharedConjunct(e, order);
    if e.Operation? {
      ReducibleOperation(e);
      var reduced;
      reduced, memo', changed := ApplyToExpressions(e.arguments, memo, order);
      r := Operation(e.id, reduced);
    } else if e.op == Or {
      r, memo', changed := FactorChain(e, memo, order);
    } else {
      r, memo', changed := e, memo, false;
    }
  }

  /** Each of `xs` reduced. */
  function ReduceAll(xs: seq<Expression>, order: set<Expression> -> seq<Expression>): (r: seq<Expression>)
    requires ValidOrder(order)
    ensures |r| == |xs|
    decreases xs
  {
    if xs == [] then [] else ReduceAll(xs[..|xs| - 1], order) + [Reduce(xs[|xs| - 1], order)]
  }

  lemma {:induction false} ReduceAllElements(xs: seq<Expression>, order: set<Expression> -> seq<Expression>)
    requires ValidOrder(order)
    ensures forall j :: 0 <= j < |xs| ==> ReduceAll(xs, order)[j] == Reduce(xs[j], order)
    decreases |xs|
  {
    if xs != [] {
      ReduceAllElements(xs[..|xs| - 1], order);
    }
  }

  lemma VisitStep(xs: seq<Expression>, i: nat, a: Expression, order: set<Expression> -> seq<Expression>)
    requires i < |xs| && ValidOrder(order) && a == Reduce(xs[i], order)
    ensures ReduceAll(xs[..i + 1], order) == ReduceAll(xs[..i], order) + [a]
    ensures AnyReducible(xs[..i + 1]) <==> AnyReducible(xs[..i]) || Reducible(xs[i])
  {
    assert xs[..i + 1][..i] == xs[..i];
  }

  /** The body of the expression loop: the visit of `xs[i]`, extending the facts the loop carries. */
  method VisitNext(xs: seq<Expression>, i: nat, reduced: seq<Expression>, memo: map<Expression, Expression>,
                   before: map<Expression, Expression>, changed: bool, order: set<Expression> -> seq<Expression>)
    returns (reduced': seq<Expression>, after: map<Expression, Expression>, changed': bool)
    requires i < |xs| && ValidOrder(order) && MemoSound(before, order) && reduced == ReduceAll(xs[..i], order)
    requires (changed ==> AnyReducible(xs[..i])) && (changed || |before| == |memo|) && (AnyReducible(xs[..i]) ==> |before| > 0)
    ensures reduced' == ReduceAll(xs[..i + 1], order)
    ensures MemoSound(after, order) && before.Keys <= after.Keys
    ensures changed' ==> AnyReducible(xs[..i + 1])
    ensures changed' || |after| == |memo|
    ensures AnyReducible(xs[..i + 1]) ==> |after| > 0
    decreases xs, 0
  {
    var a, c;
    a, after, c := VisitExpression(xs[i], before, order);
    VisitStep(xs, i, a, order);
    reduced', changed' := reduced + [a], changed || c;
  }

  lemma ReducibleOperation(e: Expression)
    requires e.Operation?
    ensures Reducible(e) <==> AnyReducible(e.arguments)
  {
    AnyReducibleIffSome(e.arguments);
  }

  /** Steps 1 to 4 on an OR chain that is not memoised. */
  method FactorChain(e: Expression, memo: map<Expression, Expression>, order: set<Expression> -> seq<Expression>)
    returns (r: Expression, memo': map<Expression, Expression>, changed: bool)
    requires IsChain(e, Or) && e !in memo && ValidOrder(order) && MemoSound(memo, order)
    ensures Factor(e, order).None? ==> r == e && memo' == memo && !changed
    ensures Factor(e, order).Some? ==> r == Factor(e, order).value && memo' == memo[e := r] && changed
    ensures MemoSound(memo', order)
  {
    r, memo', changed := e, memo, false;
    var branches := order(Collect(e, Or));
    OrderOfNonEmpty(order, Collect(e, Or));
    var common := IntersectConjuncts(branches);
    if common != {} {
      changed := true;
      r := RebuildChain(branches, common, order(common));
      memo' := memo[e := r];
    }
  }

  /**
   * The expression loop of `_apply_to_expressions`: each expression visited in turn, the memo
   * passed on from one to the next. The visit of the arguments of an expression that is not
   * logical is the same loop over the arguments.
   */
  method ApplyToExpressions(expressions: seq<Expression>, memo: map<Expression, Expression>, order: set<Expression> -> seq<Expression>)
    returns (reduced: seq<Expression>, memo': map<Expression, Expression>, changed: bool)
    requires ValidOrder(order) && MemoSound(memo, order)
    ensures reduced == ReduceAll(expressions, order)
    ensures MemoSound(memo', order) && memo.Keys <= memo'.Keys
    ensures changed ==> AnyReducible(expressions)
    ensures changed || |memo'| == |memo|
    ensures AnyReducible(expressions) ==> |memo'| > 0
    decreases expressions, 1
  {
    reduced := [];
    memo', changed := memo, false;
    var i := 0;
    while i < |expressions|
      invariant 0 <= i <= |expressions|
      invariant reduced == ReduceAll(expressions[..i], order)
      invariant MemoSound(memo', order) && memo.Keys <= memo'.Keys
      invariant changed ==> AnyReducible(expressions[..i])
      invariant changed || |memo'| == |memo|
      invariant AnyReducible(expressions[..i]) ==> |memo'| > 0
    {
      reduced, memo', changed := VisitNext(expressions, i, reduced, memo, memo', changed, order);
      i := i + 1;
    }
    assert expressions[..i] == expressions;
  }

  /** Each of `xs` is left as it is exactly when nothing in any of them is factored. */
  lemma {:induction false} ReduceAllChangesIffReducible(xs: seq<Expression>, order: set<Expression> -> seq<Expression>)
    requires ValidOrder(order)
    ensures ReduceAll(xs, order) == xs <==> !AnyReducible(xs)
    decreases |xs|
  {
    if xs != [] {
      var init := xs[..|xs| - 1];
      ReduceAllChangesIffReducible(init, order);
      ReduceChangesIffReducible(xs[|xs| - 1], order);
      if ReduceAll(xs, order) == xs {
        assert ReduceAll(init, order) == ReduceAll(xs, order)[..|xs| - 1];
      }
      assert xs == init + [xs[|xs| - 1]];
    }
  }

  // --- The plan ---

  /**
   * A node of the logical query plan with its inputs. Predicate and projection nodes are the only
   * kinds whose expressions the rule looks at.
   */
  datatype Plan =
    | PredicateNode(condition: Expression, left: Option<Plan>, right: Option<Plan>)
    | ProjectionNode(expressions: seq<Expression>, left: Option<Plan>, right: Option<Plan>)
    | OtherNode(left: Option<Plan>, right: Option<Plan>)

  /** The expressions of a node that the rule rewrites. */
  function NodeExpressions(p: Plan): seq<Expression>
  {
    match p
    case PredicateNode(e, _, _) => [e]
    case ProjectionNode(es, _, _) => es
    case OtherNode(_, _) => []
  }

  /** The plan after the rule: every rewritten expression reduced, in every node. */
  function ReducePlan(p: Plan, order: set<Expression> -> seq<Expression>): Plan
    requires ValidOrder(order)
    decreases p
  {
    var left := if p.left.Some? then Some(ReducePlan(p.left.value, order)) else None;
    var right := if p.right.Some? then Some(ReducePlan(p.right.value, order)) else None;
    match p
    case PredicateNode(e, _, _) => PredicateNode(Reduce(e, order), left, right)
    case ProjectionNode(es, _, _) => ProjectionNode(ReduceAll(es, order), left, right)
    case OtherNode(_, _) => OtherNode(left, right)
  }

  /** Some node of the plan has an expression in which an OR chain is factored. */
  ghost predicate PlanReducible(p: Plan)
    decreases p
  {
    AnyReducible(NodeExpressions(p))
    || (p.left.Some? && PlanReducible(p.left.value))
    || (p.right.Some? && PlanReducible(p.right.value))
  }

  /**
   * `_apply_to_node`: the expressions of a predicate or projection node, then the left input, then
   * the right input, all with one memo.
   */
  method ApplyToNode(p: Plan, memo: map<Expression, Expression>, order: set<Expression> -> seq<Expression>)
    returns (r: Plan, memo': map<Expression, Expression>, changed: bool)
    requires ValidOrder(order) && MemoSound(memo, order)
    ensures r == ReducePlan(p, order)
    ensures MemoSound(memo', order) && memo.Keys <= memo'.Keys
    ensures changed ==> PlanReducible(p)
    ensures changed || |memo'| == |memo|
    ensures PlanReducible(p) ==> |memo'| > 0
    decreases p
  {
    var own;
    own, memo', changed := ApplyToExpressions(NodeExpressions(p), memo, order);
    var left: Option<Plan> := None;
    if p.left.Some? {
      var l, m, c := ApplyToNode(p.left.value, memo', order);
      left, memo', changed := Some(l), m, changed || c;
    }
    var right: Option<Plan> := None;
    if p.right.Some? {
      var l, m, c := ApplyToNode(p.right.value, memo', order);
      right, memo', changed := Some(l), m, changed || c;
    }
    match p
    case PredicateNode(e, _, _) =>
      assert [e][..0] == [];
      r := PredicateNode(own[0], left, right);
    case ProjectionNode(_, _, _) =>
      r := ProjectionNode(own, left, right);
    case OtherNode(_, _) =>
      r := OtherNode(left, right);
  }

  /** The plan is left as it is exactly when nothing in it is factored. */
  lemma {:induction false} ReducePlanChangesIffReducible(p: Plan, order: set<Expression> -> seq<Expression>)
    requires ValidOrder(order)
    ensures ReducePlan(p, order) == p <==> !PlanReducible(p)
    decreases p
  {
    ReduceAllChangesIffReducible(NodeExpressions(p), order);
    if p.left.Some? {
      ReducePlanChangesIffReducible(p.left.value, order);
    }
    if p.right.Some? {
      ReducePlanChangesIffReducible(p.right.value, order);
    }
    match p
    case PredicateNode(e, _, _) =>
      assert [e][..0] == [];
    case ProjectionNode(_, _, _) =>
    case OtherNode(_, _) =>
  }

  /**
   * `apply_to`: runs the rule over the plan with an empty memo. It reports a change exactly when
   * some OR chain was factored, which is exactly when the plan differs from the input.
   */
  method ApplyTo(p: Plan, order: set<Expression> -> seq<Expression>) returns (r: Plan, changed: bool)
    requires ValidOrder(order)
    ensures r == ReducePlan(p, order)
    ensures changed <==> PlanReducible(p)
    ensures changed <==> r != p
  {
    var memo;
    r, memo, changed := ApplyToNode(p, map[], order);
    ReducePlanChangesIffReducible(p, order);
  }

  /** Two plans of the same shape whose corresponding expressions have the same truth values. */
  ghost predicate SameTruth(p: Plan, q: Plan, truth: (nat, seq<bool>) -> bool)
    decreases p
  {
    && |NodeExpressions(p)| == |NodeExpressions(q)|
    && (forall i :: 0 <= i < |NodeExpressions(p)| ==> Eval(NodeExpressions(p)[i], truth) == Eval(NodeExpressions(q)[i], truth))
    && p.left.Some? == q.left.Some?
    && (p.left.Some? ==> SameTruth(p.left.value, q.left.value, truth))
    && p.right.Some? == q.right.Some?
    && (p.right.Some? ==> SameTruth(p.right.value, q.right.value, truth))
  }

  /** The rule keeps the truth value of every predicate and projection expression of the plan. */
  lemma {:induction false} ReducePlanPreservesTruth(p: Plan, order: set<Expression> -> seq<Expression>, truth: (nat, seq<bool>) -> bool)
    requires ValidOrder(order)
    ensures SameTruth(ReducePlan(p, order), p, truth)
    decreases p
  {
    var es := NodeExpressions(p);
    ReduceAllElements(es, order);
    forall i | 0 <= i < |es|
      ensures Eval(ReduceAll(es, order)[i], truth) == Eval(es[i], truth)
    {
      ReducePreservesTruth(es[i], order, truth);
    }
    if p.left.Some? {
      ReducePlanPreservesTruth(p.left.value, order, truth);
    }
    if p.right.Some? {
      ReducePlanPreservesTruth(p.right.value, order, truth);
    }
    match p
    case PredicateNode(e, _, _) =>
      assert [e][..0] == [];
    case ProjectionNode(_, _, _) =>
    case OtherNode(_, _) =>
  }
}
