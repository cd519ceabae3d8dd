// Removing duplicate and contradicting operands: the two pairwise passes over the
// operands of a tree and the loop that repeats them until nothing changes.

module ExprDups {
  import opened Common
  import opened KconfigExpr
  import opened ExprEquality
  import opened ExprTransform
  import opened ExprJoin
  import opened ExprSpine

  /** The slots after a pass and the number of rewrites it counted. */
  datatype Pass = Pass(slots: seq<Expr>, count: nat)

  predicate Operands(op: Op, ls: seq<Expr>) {
    forall k :: 0 <= k < |ls| ==> !IsOp(op, ls[k])
  }

  // ----- First pass: join equal or related operands -----

  /** Joins slots `i` and `j` if a rule applies: `i` becomes the identity. */
  function JoinPair(op: Op, ls: seq<Expr>, i: nat, j: nat): (p: Pass)
    requires i < |ls| && j < |ls| && i != j
    requires Operands(op, ls)
    ensures |p.slots| == |ls| && Operands(op, p.slots)
    ensures Total(p.slots) <= Total(ls)
    ensures p.count == 0 ==> p.slots == ls
    ensures p.count > 0 ==> IsYn(p.slots[i])
    ensures forall k :: 0 <= k < |ls| && k != i && k != j ==> p.slots[k] == ls[k]
  {
    var t := Join(op, ls[i], ls[j]);
    if t.None? then Pass(ls, 0)
    else
      JoinShape(op, ls[i], ls[j]);
      TotalUpdate(ls, i, Sym(IdentityOf(op)));
      TotalUpdate(ls[i := Sym(IdentityOf(op))], j, t.value);
      Pass(ls[i := Sym(IdentityOf(op))][j := t.value], 1)
  }

  /** The pass over the operands of `e`, both pointers starting at `e`. */
  function Dups1(e: Expr): (r: (Expr, nat))
    requires e.Bin?
    ensures IsOp(e.op, r.0) && Size(r.0) <= Size(e)
    ensures r.1 == 0 ==> r.0 == e
    decreases Size(e)
  {
    LeavesSize(e.op, e);
    var p := Dups1From(e.op, Leaves(e.op, e), 0, 0, Size(e));
    RebuildSize(e.op, e, p.slots);
    RebuildLeaves(e.op, e);
    (Rebuild(e.op, e, p.slots), p.count)
  }

  /** The pairs from (i, j) on, row by row. */
  function Dups1From(op: Op, ls: seq<Expr>, i: nat, j: nat, ghost bound: nat): (p: Pass)
    requires i <= |ls| && j <= |ls|
    requires Operands(op, ls)
    requires Total(ls) < bound
    ensures |p.slots| == |ls| && Operands(op, p.slots)
    ensures Total(p.slots) <= Total(ls)
    ensures p.count == 0 ==> p.slots == ls
    decreases bound, 1, |ls| - i, |ls| - j
  {
    if i == |ls| then Pass(ls, 0)
    else if j == |ls| then Dups1From(op, ls, i + 1, 0, bound)
    else if i == j then Dups1From(op, ls, i, j + 1, bound)
    else
      var here := Dups1Pair(op, ls, i, j, bound);
      var rest := Dups1From(op, here.slots, i, j + 1, bound);
      Pass(rest.slots, here.count + rest.count)
  }

  /** One pair; slot `i` is simplified first if it holds a tree of the other operator. */
  function Dups1Pair(op: Op, ls: seq<Expr>, i: nat, j: nat, ghost bound: nat): (p: Pass)
    requires i < |ls| && j < |ls| && i != j
    requires Operands(op, ls)
    requires Total(ls) < bound
    ensures |p.slots| == |ls| && Operands(op, p.slots)
    ensures Total(p.slots) <= Total(ls)
    ensures p.count == 0 ==> p.slots == ls
    decreases bound, 0
  {
    TotalUpdate(ls, i, ls[i]);
    var (x, n) := if ls[i].Bin? then Dups1(ls[i]) else (ls[i], 0);
    TotalUpdate(ls, i, x);
    var joined := JoinPair(op, ls[i := x], i, j);
    Pass(joined.slots, n + joined.count)
  }

  // ----- Second pass: contradictions and tautologies -----

  /** The negation of `e1` is wholly contained in `e2`. */
  predicate Opposes(op: Op, e1: Expr, e2: Expr) {
    ExtractEqTop(op, Transform(Not(e1)), e2).rest1 == Sym(IdentityOf(op))
  }

  function Dups2(e: Expr): (r: (Expr, nat))
    requires e.Bin?
    ensures IsOp(e.op, r.0) && Size(r.0) <= Size(e)
    ensures r.1 == 0 ==> r.0 == e
    decreases Size(e)
  {
    LeavesSize(e.op, e);
    var p := Dups2From(e.op, e, Leaves(e.op, e), 0, Size(e));
    RebuildSize(e.op, e, p.slots);
    RebuildLeaves(e.op, e);
    (Rebuild(e.op, e, p.slots), p.count)
  }

  /** Slots `i` and up, each against the whole tree. */
  function Dups2From(op: Op, shape: Expr, ls: seq<Expr>, i: nat, ghost bound: nat): (p: Pass)
    requires i <= |ls| == |Leaves(op, shape)|
    requires Operands(op, ls)
    requires Total(ls) < bound
    ensures |p.slots| == |ls| && Operands(op, p.slots)
    ensures Total(p.slots) <= Total(ls)
    ensures p.count == 0 ==> p.slots == ls
    decreases bound, |ls| - i, 2
  {
    if i == |ls| then Pass(ls, 0)
    else
      var here := Dups2Visit(op, shape, ls, 0, i, bound);
      var rest := Dups2From(op, shape, here.slots, i + 1, bound);
      Pass(rest.slots, here.count + rest.count)
  }

  /** Slot `i` against the subtree `node`, whose operands start at slot `lo`: first
      against the parts of `node`, then against `node` as a whole. */
  function Dups2Visit(op: Op, node: Expr, ls: seq<Expr>, lo: nat, i: nat, ghost bound: nat): (p: Pass)
    requires i < |ls| && lo + |Leaves(op, node)| <= |ls|
    requires Operands(op, ls)
    requires Total(ls) < bound
    ensures |p.slots| == |ls| && Operands(op, p.slots)
    ensures Total(p.slots) <= Total(ls)
    ensures p.count == 0 ==> p.slots == ls
    decreases bound, |ls| - i, 1, node
  {
    if IsOp(op, node) then
      var a := Dups2Visit(op, node.left, ls, lo, i, bound);
      var b := Dups2Visit(op, node.right, a.slots, lo + |Leaves(op, node.left)|, i, bound);
      var c := Dups2Test(op, node, b.slots, lo, i, bound);
      Pass(c.slots, a.count + b.count + c.count)
    else if lo == i then Pass(ls, 0)
    else Dups2Test(op, node, ls, lo, i, bound)
  }

  /** Simplifies slot `i`, then replaces it by the absorbing constant if `node` contains
      its negation. */
  function Dups2Test(op: Op, node: Expr, ls: seq<Expr>, lo: nat, i: nat, ghost bound: nat): (p: Pass)
    requires i < |ls| && lo + |Leaves(op, node)| <= |ls|
    requires Operands(op, ls)
    requires Total(ls) < bound
    ensures |p.slots| == |ls| && Operands(op, p.slots)
    ensures Total(p.slots) <= Total(ls)
    ensures p.count == 0 ==> p.slots == ls
    decreases bound, |ls| - i, 0
  {
    if !ls[i].Bin? then Pass(ls, 0)
    else
      TotalUpdate(ls, i, ls[i]);
      var (x, n) := Dups2(ls[i]);
      TotalUpdate(ls, i, x);
      var simplified := ls[i := x];
      var other := Rebuild(op, node, simplified[lo..lo + |Leaves(op, node)|]);
      if Opposes(op, x, other) then
        TotalUpdate(ls, i, Sym(AbsorberOf(op)));
        Pass(ls[i := Sym(AbsorberOf(op))], n + 1)
      else
        Pass(simplified, n)
  }

  // ----- The loop -----

  /** One round of both passes. */
  function DupsRound(e: Expr): (r: (Expr, nat))
    ensures Size(r.0) <= Size(e)
    ensures r.1 == 0 ==> r.0 == e
    ensures e.Bin? && r.1 == 0 ==> Dups1(e).1 == 0 && Dups2(e).1 == 0
  {
    if e.Bin? then
      var (a, n) := Dups1(e);
      var (b, m) := Dups2(a);
      (b, n + m)
    else (e, 0)
  }

  // ----- Progress: a counted rewrite leaves y or n behind -----

  lemma AnyYnUpdate(ls: seq<Expr>, i: nat, x: Expr)
    requires i < |ls| && AnyYn(ls)
    requires YnIn(ls[i]) ==> YnIn(x)
    ensures AnyYn(ls[i := x])
  {
    var k :| 0 <= k < |ls| && YnIn(ls[k]);
    assert YnIn(ls[i := x][k]);
  }

  lemma JoinPairLeavesYn(op: Op, ls: seq<Expr>, i: nat, j: nat)
    requires i < |ls| && j < |ls| && i != j && Operands(op, ls)
    ensures var p := JoinPair(op, ls, i, j);
            p.count > 0 || AnyYn(ls) ==> AnyYn(p.slots)
  {
    var p := JoinPair(op, ls, i, j);
    if p.count > 0 { assert YnIn(p.slots[i]); }
  }

  lemma {:induction false} Dups1LeavesYn(e: Expr)
    requires e.Bin?
    ensures Dups1(e).1 > 0 || HasYn(e) ==> HasYn(Dups1(e).0)
    decreases Size(e)
  {
    LeavesSize(e.op, e);
    Dups1FromLeavesYn(e.op, Leaves(e.op, e), 0, 0, Size(e));
    RebuildLeaves(e.op, e);
    RebuildYn(e.op, e, Leaves(e.op, e));
    RebuildYn(e.op, e, Dups1From(e.op, Leaves(e.op, e), 0, 0, Size(e)).slots);
  }

  lemma {:induction false} Dups1FromLeavesYn(op: Op, ls: seq<Expr>, i: nat, j: nat, bound: nat)
    requires i <= |ls| && j <= |ls|
    requires Operands(op, ls)
    requires Total(ls) < bound
    ensures var p := Dups1From(op, ls, i, j, bound);
            p.count > 0 || AnyYn(ls) ==> AnyYn(p.slots)
    decreases bound, 1, |ls| - i, |ls| - j
  {
    hide Dups1Pair, Total;
    if i == |ls| {
    } else if j == |ls| {
      Dups1FromLeavesYn(op, ls, i + 1, 0, bound);
    } else if i == j {
      Dups1FromLeavesYn(op, ls, i, j + 1, bound);
    } else {
      Dups1PairLeavesYn(op, ls, i, j, bound);
      Dups1FromLeavesYn(op, Dups1Pair(op, ls, i, j, bound).slots, i, j + 1, bound);
    }
  }

  lemma {:induction false} Dups1PairLeavesYn(op: Op, ls: seq<Expr>, i: nat, j: nat, bound: nat)
    requires i < |ls| && j < |ls| && i != j
    requires Operands(op, ls)
    requires Total(ls) < bound
    ensures var p := Dups1Pair(op, ls, i, j, bound);
            p.count > 0 || AnyYn(ls) ==> AnyYn(p.slots)
    decreases bound, 0
  {
    hide Dups1, JoinPair, Total;
    TotalUpdate(ls, i, ls[i]);
    var (x, n) := if ls[i].Bin? then Dups1(ls[i]) else (ls[i], 0);
    TotalUpdate(ls, i, x);
    if ls[i].Bin? { Dups1LeavesYn(ls[i]); }
    var simplified := ls[i := x];
    if AnyYn(ls) { AnyYnUpdate(ls, i, x); }
    assert n > 0 ==> YnIn(simplified[i]);
    JoinPairLeavesYn(op, simplified, i, j);
  }

  lemma {:induction false} Dups2LeavesYn(e: Expr)
    requires e.Bin?
    ensures Dups2(e).1 > 0 || HasYn(e) ==> HasYn(Dups2(e).0)
    decreases Size(e)
  {
    LeavesSize(e.op, e);
    Dups2FromLeavesYn(e.op, e, Leaves(e.op, e), 0, Size(e));
    RebuildLeaves(e.op, e);
    RebuildYn(e.op, e, Leaves(e.op, e));
    RebuildYn(e.op, e, Dups2From(e.op, e, Leaves(e.op, e), 0, Size(e)).slots);
  }

  lemma {:induction false} Dups2FromLeavesYn(op: Op, shape: Expr, ls: seq<Expr>, i: nat, bound: nat)
    requires i <= |ls| == |Leaves(op, shape)|
    requires Operands(op, ls)
    requires Total(ls) < bound
    ensures var p := Dups2From(op, shape, ls, i, bound);
            p.count > 0 || AnyYn(ls) ==> AnyYn(p.slots)
    decreases bound, |ls| - i, 2
  {
    if i < |ls| {
      Dups2VisitLeavesYn(op, shape, ls, 0, i, bound);
      Dups2FromLeavesYn(op, shape, Dups2Visit(op, shape, ls, 0, i, bound).slots, i + 1, bound);
    }
  }

  lemma {:induction false} Dups2VisitLeavesYn(op: Op, node: Expr, ls: seq<Expr>, lo: nat, i: nat, bound: nat)
    requires i < |ls| && lo + |Leaves(op, node)| <= |ls|
    requires Operands(op, ls)
    requires Total(ls) < bound
    ensures var p := Dups2Visit(op, node, ls, lo, i, bound);
            p.count > 0 || AnyYn(ls) ==> AnyYn(p.slots)
    decreases bound, |ls| - i, 1, node
  {
    hide Dups2Test, Total, Operands, AnyYn;
    if IsOp(op, node) {
      var a := Dups2Visit(op, node.left, ls, lo, i, bound);
      var b := Dups2Visit(op, node.right, a.slots, lo + |Leaves(op, node.left)|, i, bound);
      Dups2VisitLeavesYn(op, node.left, ls, lo, i, bound);
      Dups2VisitLeavesYn(op, node.right, a.slots, lo + |Leaves(op, node.left)|, i, bound);
      Dups2TestLeavesYn(op, node, b.slots, lo, i, bound);
    } else if lo != i {
      Dups2TestLeavesYn(op, node, ls, lo, i, bound);
    }
  }

  lemma {:induction false} Dups2TestLeavesYn(op: Op, node: Expr, ls: seq<Expr>, lo: nat, i: nat, bound: nat)
    requires i < |ls| && lo + |Leaves(op, node)| <= |ls|
    requires Operands(op, ls)
    requires Total(ls) < bound
    ensures var p := Dups2Test(op, node, ls, lo, i, bound);
            p.count > 0 || AnyYn(ls) ==> AnyYn(p.slots)
    decreases bound, |ls| - i, 0
  {
    if ls[i].Bin? {
      TotalUpdate(ls, i, ls[i]);
      var (x, n) := Dups2(ls[i]);
      TotalUpdate(ls, i, x);
      Dups2LeavesYn(ls[i]);
      var p := Dups2Test(op, node, ls, lo, i, bound);
      if AnyYn(ls) { AnyYnUpdate(ls, i, p.slots[i]); }
      if p.count > 0 { assert YnIn(p.slots[i]); }
    }
  }

  /** A round that counted a rewrite is followed by an elimination of y and n that
      strictly shrinks the tree. */
  lemma RoundShrinks(e: Expr)
    requires DupsRound(e).1 > 0
    ensures Size(EliminateYn(DupsRound(e).0)) < Size(e)
  {
    Dups1LeavesYn(e);
    Dups2LeavesYn(Dups1(e).0);
  }

  /** Rounds until one counts nothing. */
  function EliminateDups(e: Expr): (r: Expr)
    ensures Size(r) <= Size(e)
    ensures DupsRound(r).1 == 0
    decreases Size(e)
  {
    var (x, n) := DupsRound(e);
    if n == 0 then x
    else
      RoundShrinks(e);
      EliminateDups(EliminateYn(x))
  }

  lemma EliminateDupsIdempotent(e: Expr)
    ensures EliminateDups(EliminateDups(e)) == EliminateDups(e)
  {
  }

  // ----- Meaning: the first pass -----

  lemma {:induction false} Dups1KeepsValue(e: Expr, v: Valuation)
    requires e.Bin? && WellFormed(v)
    ensures Eval(Dups1(e).0, v) == Eval(e, v)
    decreases Size(e)
  {
    LeavesSize(e.op, e);
    var p := Dups1From(e.op, Leaves(e.op, e), 0, 0, Size(e));
    Dups1FromKeepsValue(e.op, Leaves(e.op, e), 0, 0, Size(e), v);
    LeavesValue(e.op, e, v);
    RebuildValue(e.op, e, p.slots, v);
  }

  lemma FoldReplace(op: Op, ls: seq<Expr>, i: nat, x: Expr, v: Valuation)
    requires FixesConstants(v) && i < |ls|
    ensures Fold(op, ls[i := x], v) == Apply(op, Eval(x, v), Fold(op, ls[i := Sym(IdentityOf(op))], v))
  {
    FoldPull(op, ls[i := x], i, v);
    assert ls[i := x][i := Sym(IdentityOf(op))] == ls[i := Sym(IdentityOf(op))];
  }

  lemma JoinPairKeepsValue(op: Op, ls: seq<Expr>, i: nat, j: nat, v: Valuation)
    requires WellFormed(v)
    requires i < |ls| && j < |ls| && i != j && Operands(op, ls)
    ensures Fold(op, JoinPair(op, ls, i, j).slots, v) == Fold(op, ls, v)
  {
    var t := Join(op, ls[i], ls[j]);
    if t.Some? {
      JoinKeepsValue(op, ls[i], ls[j], v);
      var out := ls[i := Sym(IdentityOf(op))];
      FoldPull(op, ls, i, v);
      FoldPull(op, out, j, v);
      FoldReplace(op, out, j, t.value, v);
      Reassociate(op, Eval(ls[i], v), Eval(ls[j], v), Fold(op, out[j := Sym(IdentityOf(op))], v));
    }
  }

  lemma {:induction false} Dups1FromKeepsValue(op: Op, ls: seq<Expr>, i: nat, j: nat, bound: nat, v: Valuation)
    requires WellFormed(v)
    requires i <= |ls| && j <= |ls|
    requires Operands(op, ls)
    requires Total(ls) < bound
    ensures Fold(op, Dups1From(op, ls, i, j, bound).slots, v) == Fold(op, ls, v)
    decreases bound, 1, |ls| - i, |ls| - j
  {
    hide Dups1Pair, Fold, Total;
    if i == |ls| {
    } else if j == |ls| {
      Dups1FromKeepsValue(op, ls, i + 1, 0, bound, v);
    } else if i == j {
      Dups1FromKeepsValue(op, ls, i, j + 1, bound, v);
    } else {
      Dups1PairKeepsValue(op, ls, i, j, bound, v);
      Dups1FromKeepsValue(op, Dups1Pair(op, ls, i, j, bound).slots, i, j + 1, bound, v);
    }
  }

  lemma {:induction false} Dups1PairKeepsValue(op: Op, ls: seq<Expr>, i: nat, j: nat, bound: nat, v: Valuation)
    requires WellFormed(v)
    requires i < |ls| && j < |ls| && i != j
    requires Operands(op, ls)
    requires Total(ls) < bound
    ensures Fold(op, Dups1Pair(op, ls, i, j, bound).slots, v) == Fold(op, ls, v)
    decreases bound, 0
  {
    hide Dups1, JoinPair, Fold, Total;
    TotalUpdate(ls, i, ls[i]);
    var (x, n) := if ls[i].Bin? then Dups1(ls[i]) else (ls[i], 0);
    TotalUpdate(ls, i, x);
    if ls[i].Bin? { Dups1KeepsValue(ls[i], v); }
    FoldPull(op, ls, i, v);
    FoldReplace(op, ls, i, x, v);
    JoinPairKeepsValue(op, ls[i := x], i, j, v);
  }

  // ----- Meaning: the second pass decides m, never changes n or y -----

  /** `after` agrees with `before` except that it may decide an m. */
  predicate Decides(before: Tristate, after: Tristate) {
    before == Mod || before == after
  }

  /** An operand whose negation is contained in another one makes the pair the absorbing
      constant, exactly when not both are m. */
  lemma OpposesMeaning(op: Op, e1: Expr, e2: Expr, v: Valuation)
    requires WellFormed(v)
    requires Opposes(op, e1, e2)
    ensures Apply(op, Eval(e1, v), Eval(e2, v)) == v(AbsorberOf(op)).tri
            <==> !(Eval(e1, v) == Mod && Eval(e2, v) == Mod)
    ensures Decides(Apply(op, Eval(e1, v), Eval(e2, v)), v(AbsorberOf(op)).tri)
  {
    TransformKeepsValue(Not(e1), v);
    ExtractEqTopSplits(op, Transform(Not(e1)), e2, v);
  }

  lemma DecidesMonotone(op: Op, a: Tristate, a': Tristate, b: Tristate)
    requires Decides(a, a')
    ensures Decides(Apply(op, a, b), Apply(op, a', b))
  {
  }

  lemma DecidesRow(op: Op, x: Tristate, other: Tristate, rest: Tristate, absorber: Tristate)
    requires absorber == TriNot(Unit(op))
    requires Decides(Apply(op, x, other), absorber)
    requires Apply(op, Apply(op, x, rest), other) == Apply(op, x, rest)
    ensures Decides(Apply(op, x, rest), Apply(op, absorber, rest))
  {
  }

  lemma {:induction false} Dups2Decides(e: Expr, v: Valuation)
    requires e.Bin? && WellFormed(v)
    ensures Decides(Eval(e, v), Eval(Dups2(e).0, v))
    decreases Size(e)
  {
    LeavesSize(e.op, e);
    var p := Dups2From(e.op, e, Leaves(e.op, e), 0, Size(e));
    Dups2FromDecides(e.op, e, Leaves(e.op, e), 0, Size(e), v);
    LeavesValue(e.op, e, v);
    RebuildValue(e.op, e, p.slots, v);
  }

  lemma {:induction false} Dups2FromDecides(op: Op, shape: Expr, ls: seq<Expr>, i: nat, bound: nat, v: Valuation)
    requires WellFormed(v)
    requires i <= |ls| == |Leaves(op, shape)|
    requires Operands(op, ls)
    requires Total(ls) < bound
    ensures Decides(Fold(op, ls, v), Fold(op, Dups2From(op, shape, ls, i, bound).slots, v))
    decreases bound, |ls| - i, 2
  {
    if i < |ls| {
      Dups2VisitDecides(op, shape, ls, 0, i, bound, v);
      Dups2FromDecides(op, shape, Dups2Visit(op, shape, ls, 0, i, bound).slots, i + 1, bound, v);
    }
  }

  lemma {:induction false} Dups2VisitDecides(op: Op, node: Expr, ls: seq<Expr>, lo: nat, i: nat, bound: nat,
          v: Valuation)
    requires WellFormed(v)
    requires i < |ls| && lo + |Leaves(op, node)| <= |ls|
    requires Operands(op, ls)
    requires Total(ls) < bound
    ensures Decides(Fold(op, ls, v), Fold(op, Dups2Visit(op, node, ls, lo, i, bound).slots, v))
    decreases bound, |ls| - i, 1, node
  {
    hide Dups2Test, Fold, Opposes;
    if IsOp(op, node) {
      var a := Dups2Visit(op, node.left, ls, lo, i, bound);
      var b := Dups2Visit(op, node.right, a.slots, lo + |Leaves(op, node.left)|, i, bound);
      Dups2VisitDecides(op, node.left, ls, lo, i, bound, v);
      Dups2VisitDecides(op, node.right, a.slots, lo + |Leaves(op, node.left)|, i, bound, v);
      Dups2TestDecides(op, node, b.slots, lo, i, bound, v);
      assert Dups2Visit(op, node, ls, lo, i, bound).slots
             == Dups2Test(op, node, b.slots, lo, i, bound).slots;
    } else if lo != i {
      Dups2TestDecides(op, node, ls, lo, i, bound, v);
    }
  }

  lemma {:induction false} Dups2TestDecides(op: Op, node: Expr, ls: seq<Expr>, lo: nat, i: nat, bound: nat,
          v: Valuation)
    requires WellFormed(v)
    requires i < |ls| && lo + |Leaves(op, node)| <= |ls|
    requires Operands(op, ls)
    requires Total(ls) < bound
    ensures Decides(Fold(op, ls, v), Fold(op, Dups2Test(op, node, ls, lo, i, bound).slots, v))
    decreases bound, |ls| - i, 0
  {
    hide Fold, Opposes, Dups2, Rebuild, Eval, Leaves;
    if ls[i].Bin? {
      TotalUpdate(ls, i, ls[i]);
      var (x, n) := Dups2(ls[i]);
      Dups2Decides(ls[i], v);
      FoldPull(op, ls, i, v);
      var simplified := ls[i := x];
      assert Decides(Fold(op, ls, v), Fold(op, simplified, v)) by {
        FoldReplace(op, ls, i, x, v);
        DecidesMonotone(op, Eval(ls[i], v), Eval(x, v), Fold(op, ls[i := Sym(IdentityOf(op))], v));
      }
      var hi := lo + |Leaves(op, node)|;
      var other := Rebuild(op, node, simplified[lo..hi]);
      if Opposes(op, x, other) {
        RebuildValue(op, node, simplified[lo..hi], v);
        OpposesMeaning(op, x, other, v);
        OpposedRow(op, simplified, lo, hi, i, v);
        assert simplified[i := Sym(AbsorberOf(op))] == ls[i := Sym(AbsorberOf(op))];
      }
    }
  }

  /** Row level of the second pass: slot `i` against the slots lo..hi. */
  lemma OpposedRow(op: Op, ls: seq<Expr>, lo: nat, hi: nat, i: nat, v: Valuation)
    requires FixesConstants(v)
    requires i < |ls| && lo <= hi <= |ls|
    requires Decides(Apply(op, Eval(ls[i], v), Fold(op, ls[lo..hi], v)), v(AbsorberOf(op)).tri)
    ensures Decides(Fold(op, ls, v), Fold(op, ls[i := Sym(AbsorberOf(op))], v))
  {
    FoldAbsorbsPart(op, ls, lo, hi, v);
    FoldPull(op, ls, i, v);
    FoldReplace(op, ls, i, Sym(AbsorberOf(op)), v);
    DecidesRow(op, Eval(ls[i], v), Fold(op, ls[lo..hi], v), Fold(op, ls[i := Sym(IdentityOf(op))], v),
               v(AbsorberOf(op)).tri);
  }

  // ----- Meaning: the whole elimination -----

  /** Wherever the input is n or y the result has that value, in every well-formed
      valuation; an m may be decided. */
  lemma {:induction false} EliminateDupsDecides(e: Expr, v: Valuation)
    requires WellFormed(v)
    ensures Decides(Eval(e, v), Eval(EliminateDups(e), v))
    decreases Size(e)
  {
    if e.Bin? {
      Dups1KeepsValue(e, v);
      Dups2Decides(Dups1(e).0, v);
      var (x, n) := DupsRound(e);
      if n != 0 {
        RoundShrinks(e);
        EliminateYnKeepsValue(x, v);
        EliminateDupsDecides(EliminateYn(x), v);
      }
    }
  }

  lemma {:induction false} TwoValuedValue(e: Expr, v: Valuation)
    requires TwoValued(e, v)
    ensures Eval(e, v) != Mod
  {
    match e
    case Not(a) => TwoValuedValue(a, v);
    case Bin(_, l, r) => TwoValuedValue(l, v); TwoValuedValue(r, v);
    case _ =>
  }

  /** In two-valued logic the elimination preserves the value. */
  lemma EliminateDupsKeepsValue(e: Expr, v: Valuation)
    requires WellFormed(v) && TwoValued(e, v)
    ensures Eval(EliminateDups(e), v) == Eval(e, v)
  {
    TwoValuedValue(e, v);
    EliminateDupsDecides(e, v);
  }

  // ----- At m the second pass does change the value -----

  lemma {:induction false} Dups2VisitFlat(op: Op, node: Expr, ls: seq<Expr>, lo: nat, i: nat, bound: nat)
    requires i < |ls| && lo + |Leaves(op, node)| <= |ls|
    requires Operands(op, ls)
    requires Total(ls) < bound
    requires !ls[i].Bin?
    ensures Dups2Visit(op, node, ls, lo, i, bound) == Pass(ls, 0)
    decreases node
  {
    hide Dups2, Total, Operands, Opposes, Rebuild;
    if IsOp(op, node) {
      Dups2VisitFlat(op, node.left, ls, lo, i, bound);
      Dups2VisitFlat(op, node.right, ls, lo + |Leaves(op, node.left)|, i, bound);
    }
  }

  /** Operands that are not trees are left alone. */
  lemma {:induction false} Dups2FromFlat(op: Op, shape: Expr, ls: seq<Expr>, i: nat, bound: nat)
    requires i <= |ls| == |Leaves(op, shape)|
    requires Operands(op, ls)
    requires Total(ls) < bound
    requires forall k :: i <= k < |ls| ==> !ls[k].Bin?
    ensures Dups2From(op, shape, ls, i, bound) == Pass(ls, 0)
    decreases |ls| - i
  {
    if i < |ls| {
      Dups2VisitFlat(op, shape, ls, 0, i, bound);
      Dups2FromFlat(op, shape, ls, i + 1, bound);
    }
  }

  const FOO := Sym(Config(0, TristateKind))
  const BAR := Sym(Config(1, TristateKind))
  const EITHER := Bin(Or, FOO, BAR)
  const NEITHER := Bin(And, Not(FOO), Not(BAR))

  lemma EitherIsFlat()
    ensures Dups2(EITHER) == (EITHER, 0)
  {
    LeavesSize(Or, EITHER);
    assert Leaves(Or, EITHER) == [FOO, BAR];
    Dups2FromFlat(Or, EITHER, [FOO, BAR], 0, Size(EITHER));
    RebuildLeaves(Or, EITHER);
  }

  lemma NeitherOpposesEither()
    ensures Opposes(And, EITHER, NEITHER)
    ensures !Opposes(And, EITHER, Not(FOO)) && !Opposes(And, EITHER, Not(BAR))
  {
    assert Transform(EITHER) == EITHER;
    NormalIsFixed(NEITHER);
    assert Transform(Not(EITHER)) == NEITHER;
    assert ExprEq(Not(FOO), Not(FOO)) && ExprEq(Not(BAR), Not(BAR));
    assert !ExprEq(Not(FOO), Not(BAR)) && !ExprEq(Not(BAR), Not(FOO));
    var y := Sym(SymYes);
    assert !ExprEq(y, Not(FOO)) && !ExprEq(y, Not(BAR)) && !ExprEq(Not(BAR), y) && !ExprEq(Not(FOO), y);
    var c1 := Some(Not(FOO));
    assert ExtractEq(And, None, Not(FOO), NEITHER) == Extraction(c1, y, Bin(And, y, Not(BAR)));
    assert ExtractEq(And, c1, Not(BAR), Bin(And, y, Not(BAR)))
           == Extraction(Some(Bin(And, Not(FOO), Not(BAR))), y, Bin(And, y, y));
    assert ExtractEq(And, None, NEITHER, Not(FOO)) == Extraction(c1, Bin(And, y, Not(BAR)), y);
    assert ExtractEq(And, None, NEITHER, Not(BAR)) == Extraction(Some(Not(BAR)), Bin(And, Not(FOO), y), y);
  }

  lemma ExampleVisit()
    ensures Leaves(And, NEITHER) == [Not(FOO), Not(BAR)]
    ensures Total([EITHER, Not(FOO), Not(BAR)]) < 9
    ensures Dups2Visit(And, NEITHER, [EITHER, Not(FOO), Not(BAR)], 1, 0, 9)
            == Pass([Sym(SymNo), Not(FOO), Not(BAR)], 1)
  {
    hide Opposes, Transform, Dups2, Rebuild;
    var ls := [EITHER, Not(FOO), Not(BAR)];
    var out := [Sym(SymNo), Not(FOO), Not(BAR)];
    assert Leaves(And, NEITHER) == [Not(FOO), Not(BAR)];
    assert Size(EITHER) == 3;
    assert Total(ls) == 3 + Total(ls[1..]) && Total(ls[1..]) == 2 + Total([Not(BAR)]);
    EitherIsFlat();
    NeitherOpposesEither();
    assert ls[0 := EITHER] == ls && ls[1..3] == [Not(FOO), Not(BAR)] && ls[0 := Sym(SymNo)] == out;
    RebuildLeaves(And, NEITHER);
    assert Dups2Test(And, Not(FOO), ls, 1, 0, 9) == Pass(ls, 0);
    assert Dups2Test(And, Not(BAR), ls, 2, 0, 9) == Pass(ls, 0);
    assert Dups2Test(And, NEITHER, ls, 1, 0, 9) == Pass(out, 1);
  }

  lemma ExampleRow()
    ensures Leaves(And, Bin(And, EITHER, NEITHER)) == [EITHER, Not(FOO), Not(BAR)]
    ensures Total([EITHER, Not(FOO), Not(BAR)]) < 9
    ensures Dups2From(And, Bin(And, EITHER, NEITHER), [EITHER, Not(FOO), Not(BAR)], 0, 9)
            == Pass([Sym(SymNo), Not(FOO), Not(BAR)], 1)
  {
    hide Opposes, Transform, Total, Dups2, Rebuild;
    var e := Bin(And, EITHER, NEITHER);
    var ls := [EITHER, Not(FOO), Not(BAR)];
    var out := [Sym(SymNo), Not(FOO), Not(BAR)];
    ExampleVisit();
    assert Leaves(And, e.left) == [EITHER];
    assert Leaves(And, e) == ls;
    assert Dups2Visit(And, e.left, ls, 0, 0, 9) == Pass(ls, 0);
    assert Dups2Test(And, e, out, 0, 0, 9) == Pass(out, 0);
    assert Dups2Visit(And, e, ls, 0, 0, 9) == Pass(out, 1);
    Dups2FromFlat(And, e, out, 1, 9);
  }

  lemma SecondPassOnExample()
    ensures Dups2(Bin(And, EITHER, NEITHER)).0 == Bin(And, Sym(SymNo), NEITHER)
  {
    hide Opposes, Transform, Total, Dups2From, Leaves;
    var e := Bin(And, EITHER, NEITHER);
    var out := [Sym(SymNo), Not(FOO), Not(BAR)];
    assert Size(EITHER) == 3 && Size(NEITHER) == 5 && Size(e) == 9;
    ExampleRow();
    ExampleVisit();
    RebuildLeaves(And, NEITHER);
    assert out[..1] == [Sym(SymNo)] && out[1..] == [Not(FOO), Not(BAR)];
    assert Rebuild(And, e, out) == Bin(And, Sym(SymNo), NEITHER);
  }

  /** Slots of which no two can be joined stay as they are. */
  lemma {:induction false} Dups1Still(op: Op, ls: seq<Expr>, i: nat, j: nat, bound: nat)
    requires i <= |ls| && j <= |ls| && Operands(op, ls) && Total(ls) < bound
    requires forall k, l :: 0 <= k < |ls| && 0 <= l < |ls| && k != l ==> Dups1Pair(op, ls, k, l, bound) == Pass(ls, 0)
    ensures Dups1From(op, ls, i, j, bound) == Pass(ls, 0)
    decreases |ls| - i, |ls| - j
  {
    hide Dups1Pair, Total, Operands;
    if i < |ls| {
      if j == |ls| {
        Dups1Still(op, ls, i + 1, 0, bound);
      } else {
        Dups1Still(op, ls, i, j + 1, bound);
      }
    }
  }

  lemma FirstPassOnEither()
    ensures Dups1(EITHER) == (EITHER, 0)
  {
    var ls := [FOO, BAR];
    LeavesSize(Or, EITHER);
    assert Leaves(Or, EITHER) == ls;
    assert Operands(Or, ls);
    assert !ExprEq(FOO, BAR) && !ExprEq(BAR, FOO);
    assert ls[0 := FOO] == ls && ls[1 := BAR] == ls;
    Dups1Still(Or, ls, 0, 0, Size(EITHER));
    RebuildLeaves(Or, EITHER);
  }

  lemma FirstPassOnExample()
    ensures Dups1(Bin(And, EITHER, NEITHER)) == (Bin(And, EITHER, NEITHER), 0)
  {
    hide Dups1From, Dups1Pair, Total, Operands, Leaves, Rebuild, Size, Dups2From;
    var e := Bin(And, EITHER, NEITHER);
    ExampleRow();
    FirstPassPairs();
    Dups1Still(And, [EITHER, Not(FOO), Not(BAR)], 0, 0, 9);
    RebuildLeaves(And, e);
  }

  lemma FirstPassPairs()
    ensures var ls := [EITHER, Not(FOO), Not(BAR)];
            && Operands(And, ls) && Total(ls) < 9 && Size(Bin(And, EITHER, NEITHER)) == 9
            && forall k, l :: 0 <= k < 3 && 0 <= l < 3 && k != l ==> Dups1Pair(And, ls, k, l, 9) == Pass(ls, 0)
  {
    hide *;
    var ls := [EITHER, Not(FOO), Not(BAR)];
    ExampleSizes();
    FirstPassOnEither();
    var a, b, c := EITHER, Not(FOO), Not(BAR);
    NoneJoin(a, b);
    NoneJoin(a, c);
    NoneJoin(b, a);
    NoneJoin(b, c);
    NoneJoin(c, a);
    NoneJoin(c, b);
    PairStill(And, ls, 0, 1, 9);
    PairStill(And, ls, 0, 2, 9);
    PairStill(And, ls, 1, 0, 9);
    PairStill(And, ls, 1, 2, 9);
    PairStill(And, ls, 2, 0, 9);
    PairStill(And, ls, 2, 1, 9);
  }

  lemma ExampleSizes()
    ensures Total([EITHER, Not(FOO), Not(BAR)]) < 9 && Size(Bin(And, EITHER, NEITHER)) == 9
    ensures Operands(And, [EITHER, Not(FOO), Not(BAR)]) && FOO != BAR && EITHER.Bin?
  {
    hide Dups2Visit;
    assert Size(EITHER) == 3 && Size(NEITHER) == 5;
    ExampleVisit();
  }

  lemma PairStill(op: Op, ls: seq<Expr>, k: nat, l: nat, bound: nat)
    requires k < |ls| && l < |ls| && k != l && Operands(op, ls) && Total(ls) < bound
    requires ls[k].Bin? ==> Dups1(ls[k]) == (ls[k], 0)
    requires Join(op, ls[k], ls[l]).None?
    ensures Dups1Pair(op, ls, k, l, bound) == Pass(ls, 0)
  {
    hide Total, Dups1, Operands, Join;
    assert ls[k := ls[k]] == ls;
  }

  lemma NoneJoin(a: Expr, b: Expr)
    requires a in {EITHER, Not(FOO), Not(BAR)} && b in {EITHER, Not(FOO), Not(BAR)} && a != b
    ensures Join(And, a, b).None?
  {
    assert !ExprEq(Not(FOO), Not(BAR)) && !ExprEq(Not(BAR), Not(FOO));
  }

  /** (FOO || BAR) && (!FOO && !BAR) is m when FOO and BAR are m; removing duplicates
      makes it n. */
  lemma EliminateDupsChangesMod(v: Valuation)
    requires WellFormed(v)
    requires v(FOO.sym).tri == Mod && v(BAR.sym).tri == Mod
    ensures Eval(Bin(And, EITHER, NEITHER), v) == Mod
    ensures EliminateDups(Bin(And, EITHER, NEITHER)) == Sym(SymNo) && Eval(Sym(SymNo), v) == No
  {
    hide Dups1, Dups2;
    var e, x := Bin(And, EITHER, NEITHER), Bin(And, Sym(SymNo), NEITHER);
    FirstPassOnExample();
    SecondPassOnExample();
    assert DupsRound(e).0 == x && DupsRound(e).1 > 0;
    assert EliminateYn(x) == Sym(SymNo);
  }

  // ----- The passes as they run: slots rewritten in place -----

  /** One visit of the first pass to a pair of slots. */
  method JoinSlots(op: Op, slots: array<Expr>, i: nat, j: nat, ghost bound: nat) returns (count: nat)
    requires i < slots.Length && j < slots.Length && i != j
    requires Operands(op, slots[..]) && Total(slots[..]) < bound
    modifies slots
    ensures Pass(slots[..], count) == Dups1Pair(op, old(slots[..]), i, j, bound)
    decreases bound, 0
  {
    ghost var before := slots[..];
    TotalUpdate(before, i, before[i]);
    count := 0;
    if slots[i].Bin? {
      var x, n := JoinInPlace(slots[i]);
      slots[i] := x;
      count := n;
    }
    assert slots[..] == before[i := slots[i]];
    var joined := Join(op, slots[i], slots[j]);
    if joined.Some? {
      slots[i] := Sym(IdentityOf(op));
      slots[j] := joined.value;
      count := count + 1;
    }
  }

  /** Slot `i` against every other slot. */
  method JoinRow(op: Op, slots: array<Expr>, i: nat, ghost bound: nat) returns (count: nat)
    requires i < slots.Length && Operands(op, slots[..]) && Total(slots[..]) < bound
    modifies slots
    ensures Operands(op, slots[..]) && Total(slots[..]) < bound
    ensures var rest := Dups1From(op, slots[..], i + 1, 0, bound);
            Dups1From(op, old(slots[..]), i, 0, bound) == Pass(rest.slots, count + rest.count)
    decreases bound, 1
  {
    hide Dups1Pair, Total, Operands;
    ghost var before := slots[..];
    count := 0;
    var j := 0;
    while j < slots.Length
      invariant j <= slots.Length
      invariant Operands(op, slots[..]) && Total(slots[..]) < bound
      invariant var rest := Dups1From(op, slots[..], i, j, bound);
                Dups1From(op, before, i, 0, bound) == Pass(rest.slots, count + rest.count)
    {
      if i != j {
        var n := JoinSlots(op, slots, i, j, bound);
        count := count + n;
      }
      j := j + 1;
    }
  }

  lemma Dups1Done(op: Op, ls: seq<Expr>, bound: nat)
    requires Operands(op, ls) && Total(ls) < bound
    ensures Dups1From(op, ls, |ls|, 0, bound) == Pass(ls, 0)
  {
  }

  /** The first pass, every pair of slots in turn. */
  method JoinInPlace(e: Expr) returns (r: Expr, count: nat)
    requires e.Bin?
    ensures (r, count) == Dups1(e)
    decreases Size(e), 2
  {
    var op, leaves := e.op, Leaves(e.op, e);
    LeavesSize(op, e);
    assert Operands(op, leaves);
    hide Dups1From, Leaves, Total, Operands;
    var slots := new Expr[|leaves|](k requires 0 <= k < |leaves| => leaves[k]);
    assert slots[..] == leaves;
    count := 0;
    var i := 0;
    while i < slots.Length
      invariant i <= slots.Length
      invariant Operands(op, slots[..]) && Total(slots[..]) < Size(e)
      invariant var rest := Dups1From(op, slots[..], i, 0, Size(e));
                Dups1From(op, leaves, 0, 0, Size(e)) == Pass(rest.slots, count + rest.count)
    {
      var n := JoinRow(op, slots, i, Size(e));
      count := count + n;
      i := i + 1;
    }
    Dups1Done(op, slots[..], Size(e));
    r := Rebuild(op, e, slots[..]);
  }

  /** The loop of rounds; the counter says whether another one is needed. */
  method RemoveDuplicates(e: Expr) returns (r: Expr)
    ensures r == EliminateDups(e)
    ensures forall v: Valuation :: WellFormed(v) ==> Decides(Eval(e, v), Eval(r, v))
  {
    r := e;
    while true
      invariant EliminateDups(r) == EliminateDups(e)
      decreases Size(r)
    {
      ghost var before := r;
      var count := 0;
      if r.Bin? {
        r, count := JoinInPlace(r);
        var (x, n) := Dups2(r);
        r, count := x, count + n;
      }
      assert (r, count) == DupsRound(before);
      if count == 0 { break; }
      RoundShrinks(before);
      r := EliminateYn(r);
    }
    forall v: Valuation | WellFormed(v) ensures Decides(Eval(e, v), Eval(r, v)) {
      EliminateDupsDecides(e, v);
    }
  }
}
