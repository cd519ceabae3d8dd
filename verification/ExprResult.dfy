// What the duplicate elimination leaves behind: no two operands that could be joined, and no
// operand whose negation is there too.

module ExprResult {
  import opened Common
  import opened KconfigExpr
  import opened ExprEquality
  import opened ExprTransform
  import opened ExprJoin
  import opened ExprSpine
  import opened ExprSweep
  import opened ExprDups

  // ----- A pass that counts nothing has looked at everything -----

  /** The pairs from (i, j) on, row by row. */
  predicate FromHere(i: nat, j: nat, k: nat, l: nat) {
    k > i || (k == i && l >= j)
  }

  lemma {:induction false} Dups1FromZero(op: Op, ls: seq<Expr>, i: nat, j: nat, bound: nat, k: nat, l: nat)
    requires i <= |ls| && j <= |ls| && Operands(op, ls) && Total(ls) < bound
    requires Dups1From(op, ls, i, j, bound).count == 0
    requires k < |ls| && l < |ls| && k != l && FromHere(i, j, k, l)
    ensures Dups1Pair(op, ls, k, l, bound).count == 0
    decreases |ls| - i, |ls| - j
  {
    hide Dups1Pair, Total, Operands;
    if j == |ls| {
      Dups1FromZero(op, ls, i + 1, 0, bound, k, l);
    } else if i == j {
      Dups1FromZero(op, ls, i, j + 1, bound, k, l);
    } else if k != i || l != j {
      Dups1FromZero(op, ls, i, j + 1, bound, k, l);
    }
  }

  /** No two operands can be joined, and the first pass has nothing to do in an operand. */
  lemma Dups1Zero(e: Expr, k: nat, l: nat)
    requires e.Bin? && Dups1(e).1 == 0
    requires k < |Leaves(e.op, e)| && l < |Leaves(e.op, e)| && k != l
    ensures Join(e.op, Leaves(e.op, e)[k], Leaves(e.op, e)[l]).None?
    ensures Leaves(e.op, e)[k].Bin? ==> Dups1(Leaves(e.op, e)[k]).1 == 0
  {
    var ls := Leaves(e.op, e);
    LeavesSize(e.op, e);
    hide Total, Leaves, Dups1From, Join, Rebuild;
    Dups1FromZero(e.op, ls, 0, 0, Size(e), k, l);
    PairZero(e.op, ls, k, l, Size(e));
  }

  lemma PairZero(op: Op, ls: seq<Expr>, k: nat, l: nat, bound: nat)
    requires k < |ls| && l < |ls| && k != l && Operands(op, ls) && Total(ls) < bound
    requires Dups1Pair(op, ls, k, l, bound).count == 0
    ensures Join(op, ls[k], ls[l]).None? && (ls[k].Bin? ==> Dups1(ls[k]).1 == 0)
  {
    hide Total, Dups1, Join;
    assert ls[k := ls[k]] == ls;
  }

  /** `x`, operand `i`, is the negation of no part of `node`, whose operands start at `lo`. */
  ghost predicate Unopposed(op: Op, x: Expr, node: Expr, lo: nat, i: nat) {
    if IsOp(op, node) then
      && Unopposed(op, x, node.left, lo, i)
      && Unopposed(op, x, node.right, lo + |Leaves(op, node.left)|, i)
      && !Opposes(op, x, node)
    else lo == i || !Opposes(op, x, node)
  }

  /** A visit that counts nothing is made of visits and tests that count nothing. */
  lemma VisitZero(op: Op, node: Expr, ls: seq<Expr>, lo: nat, i: nat, bound: nat)
    requires i < |ls| && lo + |Leaves(op, node)| <= |ls| && Operands(op, ls) && Total(ls) < bound
    requires Dups2Visit(op, node, ls, lo, i, bound).count == 0
    ensures if IsOp(op, node) then
              && lo + |Leaves(op, node.left)| + |Leaves(op, node.right)| <= |ls|
              && Dups2Visit(op, node.left, ls, lo, i, bound).count == 0
              && Dups2Visit(op, node.right, ls, lo + |Leaves(op, node.left)|, i, bound).count == 0
              && Dups2Test(op, node, ls, lo, i, bound).count == 0
            else lo == i || Dups2Test(op, node, ls, lo, i, bound).count == 0
  {
    hide Dups2Test, Total, Operands;
  }

  lemma SlotsSplit(op: Op, node: Expr, ls: seq<Expr>, lo: nat)
    requires IsOp(op, node) && lo + |Leaves(op, node)| <= |ls|
    requires ls[lo..lo + |Leaves(op, node)|] == Leaves(op, node)
    ensures var k, n := |Leaves(op, node.left)|, |Leaves(op, node.right)|;
            && lo + k + n <= |ls| && ls[lo..lo + k] == Leaves(op, node.left)
            && ls[lo + k..lo + k + n] == Leaves(op, node.right)
  {
    hide Leaves;
    LeavesOfTree(op, node);
    var a, b := Leaves(op, node.left), Leaves(op, node.right);
    assert lo + |Leaves(op, node)| == lo + |a| + |b|;
    SliceParts(ls, lo, a, b);
  }

  lemma LeavesOfTree(op: Op, e: Expr)
    requires IsOp(op, e)
    ensures Leaves(op, e) == Leaves(op, e.left) + Leaves(op, e.right)
  {
  }

  lemma SliceParts(ls: seq<Expr>, lo: nat, a: seq<Expr>, b: seq<Expr>)
    requires lo + |a| + |b| <= |ls| && ls[lo..lo + |a| + |b|] == a + b
    ensures ls[lo..lo + |a|] == a && ls[lo + |a|..lo + |a| + |b|] == b
  {
    var whole := ls[lo..lo + |a| + |b|];
    assert whole[..|a|] == a && whole[|a|..] == b;
  }

  lemma {:induction false} Dups2VisitZero(op: Op, node: Expr, ls: seq<Expr>, lo: nat, i: nat, bound: nat)
    requires i < |ls| && lo + |Leaves(op, node)| <= |ls| && Operands(op, ls) && Total(ls) < bound
    requires ls[lo..lo + |Leaves(op, node)|] == Leaves(op, node)
    requires Dups2Visit(op, node, ls, lo, i, bound).count == 0 && ls[i].Bin?
    ensures Unopposed(op, ls[i], node, lo, i)
    ensures IsOp(op, node) ==> Dups2(ls[i]).1 == 0
    decreases node
  {
    hide Dups2Visit, Dups2Test, Dups2, Total, Operands, Opposes, Leaves;
    VisitZero(op, node, ls, lo, i, bound);
    if IsOp(op, node) {
      var k := |Leaves(op, node.left)|;
      SlotsSplit(op, node, ls, lo);
      Dups2VisitZero(op, node.left, ls, lo, i, bound);
      Dups2VisitZero(op, node.right, ls, lo + k, i, bound);
      TestZero(op, node, ls, lo, i, bound);
    } else if lo != i {
      TestZero(op, node, ls, lo, i, bound);
    }
  }

  lemma TestZero(op: Op, node: Expr, ls: seq<Expr>, lo: nat, i: nat, bound: nat)
    requires i < |ls| && lo + |Leaves(op, node)| <= |ls| && Operands(op, ls) && Total(ls) < bound
    requires ls[lo..lo + |Leaves(op, node)|] == Leaves(op, node)
    requires Dups2Test(op, node, ls, lo, i, bound).count == 0 && ls[i].Bin?
    ensures !Opposes(op, ls[i], node) && Dups2(ls[i]).1 == 0
  {
    hide Total, Opposes, Dups2;
    TotalUpdate(ls, i, ls[i]);
    assert ls[i := ls[i]] == ls;
    RebuildLeaves(op, node);
  }

  lemma {:induction false} Dups2FromZero(op: Op, shape: Expr, ls: seq<Expr>, i: nat, bound: nat, k: nat)
    requires i <= k < |ls| == |Leaves(op, shape)| && Operands(op, ls) && Total(ls) < bound
    requires Dups2From(op, shape, ls, i, bound).count == 0
    ensures Dups2Visit(op, shape, ls, 0, k, bound).count == 0
    decreases |ls| - i
  {
    hide Dups2Visit, Total, Operands;
    if i < k { Dups2FromZero(op, shape, ls, i + 1, bound, k); }
  }

  /** No operand is opposed, and the second pass has nothing to do in an operand. */
  lemma Dups2Zero(e: Expr, k: nat)
    requires e.Bin? && Dups2(e).1 == 0 && k < |Leaves(e.op, e)| && Leaves(e.op, e)[k].Bin?
    ensures Unopposed(e.op, Leaves(e.op, e)[k], e, 0, k) && Dups2(Leaves(e.op, e)[k]).1 == 0
  {
    var ls := Leaves(e.op, e);
    LeavesSize(e.op, e);
    hide Total, Dups2From, Dups2Visit, Rebuild, Leaves;
    Dups2FromZero(e.op, e, ls, 0, Size(e), k);
    assert ls[0..0 + |ls|] == ls;
    Dups2VisitZero(e.op, e, ls, 0, k, Size(e));
  }

  // ----- The result -----

  /** At every AND or OR that is not below a negation: no two operands can be joined, and none
      is opposed by a part of the tree. */
  ghost predicate Irredundant(e: Expr)
    decreases Size(e)
  {
    e.Bin? ==>
      var ls := Leaves(e.op, e);
      && (forall i, j :: 0 <= i < |ls| && 0 <= j < |ls| && i != j ==> Join(e.op, ls[i], ls[j]).None?)
      && (forall i :: 0 <= i < |ls| && ls[i].Bin? ==> Unopposed(e.op, ls[i], e, 0, i))
      && (forall i :: 0 <= i < |ls| ==> (LeafSmaller(e.op, e, i); Irredundant(ls[i])))
  }

  lemma {:induction false} StableIsIrredundant(e: Expr)
    requires e.Bin? ==> Dups1(e).1 == 0 && Dups2(e).1 == 0
    ensures Irredundant(e)
    decreases Size(e)
  {
    hide Dups1, Dups2, Join, Unopposed, Leaves;
    if e.Bin? {
      var ls := Leaves(e.op, e);
      forall i, j | 0 <= i < |ls| && 0 <= j < |ls| && i != j ensures Join(e.op, ls[i], ls[j]).None? {
        Dups1Zero(e, i, j);
      }
      forall i | 0 <= i < |ls| && ls[i].Bin? ensures Unopposed(e.op, ls[i], e, 0, i) { Dups2Zero(e, i); }
      forall i | 0 <= i < |ls| ensures Irredundant(ls[i]) {
        LeafSmaller(e.op, e, i);
        Dups1Zero(e, i, if i == 0 then 1 else 0);
        if ls[i].Bin? { Dups2Zero(e, i); }
        StableIsIrredundant(ls[i]);
      }
    }
  }

  /** What the elimination of duplicates returns has none. */
  lemma EliminateDupsIrredundant(e: Expr)
    ensures Irredundant(EliminateDups(e))
  {
    hide EliminateDups, DupsRound, Dups1, Dups2;
    StableIsIrredundant(EliminateDups(e));
  }

  /** An expression and its negation oppose each other. */
  lemma NegationOpposes(op: Op, e: Expr)
    ensures Opposes(op, e, Transform(Not(e)))
  {
    ExtractItself(op, Transform(Not(e)));
  }

  /** For symbols, negated symbols and comparisons: one opposes another if and only if that has
      all operands of its negation. */
  lemma OpposesExact(op: Op, e1: Expr, e2: Expr)
    requires Sweepable(false, Leaves(op, Transform(Not(e1)))) && Atoms(Leaves(op, e2))
    ensures Opposes(op, e1, e2) <==> multiset(Leaves(op, Transform(Not(e1)))) <= multiset(Leaves(op, e2))
  {
    hide Transform, ExtractEqTop;
    ExtractExact(op, Transform(Not(e1)), e2);
  }

  /** At every AND or OR that is not below a negation: no two operands are equal, and none that
      is a tree has its negation as an operand or as the whole. */
  ghost predicate NoRepeats(e: Expr)
    decreases Size(e)
  {
    e.Bin? ==>
      var ls := Leaves(e.op, e);
      && (forall i, j :: 0 <= i < |ls| && 0 <= j < |ls| && i != j ==> !ExprEq(ls[i], ls[j]))
      && (forall i, j :: 0 <= i < |ls| && 0 <= j < |ls| && i != j && ls[i].Bin? ==> ls[j] != Transform(Not(ls[i])))
      && (forall i :: 0 <= i < |ls| ==> (LeafSmaller(e.op, e, i); NoRepeats(ls[i])))
  }

  /** An operand that opposes nothing opposes no other operand. */
  lemma {:induction false} UnopposedOperand(op: Op, x: Expr, node: Expr, lo: nat, i: nat, j: nat)
    requires Unopposed(op, x, node, lo, i) && lo <= j < lo + |Leaves(op, node)| && j != i
    ensures !Opposes(op, x, Leaves(op, node)[j - lo])
    decreases node
  {
    hide Opposes;
    if IsOp(op, node) {
      var k := |Leaves(op, node.left)|;
      if j < lo + k {
        UnopposedOperand(op, x, node.left, lo, i, j);
      } else {
        UnopposedOperand(op, x, node.right, lo + k, i, j);
      }
    }
  }

  lemma {:induction false} IrredundantNoRepeats(e: Expr)
    requires Irredundant(e)
    ensures NoRepeats(e)
    decreases Size(e)
  {
    hide Opposes, Unopposed, Leaves, Transform;
    if e.Bin? {
      var ls := Leaves(e.op, e);
      forall i, j | 0 <= i < |ls| && 0 <= j < |ls| && i != j ensures !ExprEq(ls[i], ls[j]) {
        EqualJoins(e.op, ls[i], ls[j]);
      }
      forall i, j | 0 <= i < |ls| && 0 <= j < |ls| && i != j && ls[i].Bin? ensures ls[j] != Transform(Not(ls[i])) {
        UnopposedOperand(e.op, ls[i], e, 0, i, j);
        NegationOpposes(e.op, ls[i]);
      }
      forall i | 0 <= i < |ls| ensures NoRepeats(ls[i]) {
        LeafSmaller(e.op, e, i);
        IrredundantNoRepeats(ls[i]);
      }
    }
  }

  lemma EqualJoins(op: Op, a: Expr, b: Expr)
    ensures ExprEq(a, b) ==> Join(op, a, b).Some?
  {
    hide ExprEq;
  }

  /** So no two operands of it are equal, and no operand has its negation beside it. */
  lemma EliminateDupsNoRepeats(e: Expr)
    ensures NoRepeats(EliminateDups(e))
  {
    EliminateDupsIrredundant(e);
    IrredundantNoRepeats(EliminateDups(e));
  }
}
