// Structural comparison of expressions up to reordering: the mutual recursion of
// comparison and elimination, and the extraction of common parts.

module ExprEquality {
  import opened Common
  import opened KconfigExpr

  /** Compares two expressions; AND/OR trees are equal when eliminating their
      common parts leaves the same symbol on both sides. */
  predicate ExprEq(e1: Expr, e2: Expr)
    decreases Size(e1) + Size(e2), 2
  {
    match e1
    case Compare(c, l, r) => e1 == e2
    case Sym(s) => e1 == e2
    case Not(a) => e2.Not? && ExprEq(a, e2.arg)
    case Bin(op, _, _) =>
      && IsOp(op, e2)
      && var (a, b) := EliminateEq(e1, e2);
         a.Sym? && a == b
  }

  /** Cancels the parts that both sides have in common. */
  function EliminateEq(e1: Expr, e2: Expr): (r: (Expr, Expr))
    decreases Size(e1) + Size(e2), 1
  {
    var (a1, a2) := if e1.Bin? then EliminatePass(e1.op, e1, e2) else (e1, e2);
    var (b1, b2) :=
      if a2.Bin? && !IsOp(a2.op, a1) then EliminatePass(a2.op, a1, a2) else (a1, a2);
    (EliminateYn(b1), EliminateYn(b2))
  }

  /** One sweep over all pairs of `op` leaves: an equal pair becomes the identity
      of `op` on both sides. */
  function EliminatePass(op: Op, e1: Expr, e2: Expr): (r: (Expr, Expr))
    ensures Size(r.0) <= Size(e1) && Size(r.1) <= Size(e2)
    ensures IsOp(op, e1) ==> IsOp(op, r.0)
    ensures IsOp(op, e2) ==> IsOp(op, r.1)
    decreases Size(e1) + Size(e2), if IsOp(op, e1) || IsOp(op, e2) then 0 else 3
  {
    if IsOp(op, e1) then
      var (l, x) := EliminatePass(op, e1.left, e2);
      var (r, y) := EliminatePass(op, e1.right, x);
      (Bin(op, l, r), y)
    else if IsOp(op, e2) then
      var (x, l) := EliminatePass(op, e1, e2.left);
      var (y, r) := EliminatePass(op, x, e2.right);
      (y, Bin(op, l, r))
    else if (IsYn(e1) && e1 == e2) || !ExprEq(e1, e2) then
      (e1, e2)
    else
      (Sym(IdentityOf(op)), Sym(IdentityOf(op)))
  }

  lemma Regroup(op: Op, a: Tristate, b: Tristate, c: Tristate, d: Tristate)
    ensures Apply(op, Apply(op, a, b), Apply(op, c, d)) == Apply(op, Apply(op, a, c), Apply(op, b, d))
  {
  }

  lemma Reassociate(op: Op, a: Tristate, b: Tristate, c: Tristate)
    ensures Apply(op, Apply(op, a, b), c) == Apply(op, a, Apply(op, b, c)) == Apply(op, a, Apply(op, c, b))
  {
  }

  /** `a` and `b` are `a'` and `b'` with the same `part` put back by `op`. */
  ghost predicate SplitsBy(op: Op, a: Tristate, b: Tristate, a': Tristate, b': Tristate, part: Tristate) {
    a == Apply(op, a', part) && b == Apply(op, b', part)
  }

  ghost predicate SplitsAs(op: Op, a: Tristate, b: Tristate, a': Tristate, b': Tristate) {
    exists part :: SplitsBy(op, a, b, a', b', part)
  }

  lemma SplitsCompose(op: Op, a: Tristate, b: Tristate, a1: Tristate, b1: Tristate,
                      d: Tristate, d1: Tristate, b2: Tristate)
    requires SplitsAs(op, a, b, a1, b1) && SplitsAs(op, d, b1, d1, b2)
    ensures SplitsAs(op, Apply(op, a, d), b, Apply(op, a1, d1), b2)
  {
    var m :| SplitsBy(op, a, b, a1, b1, m);
    var m' :| SplitsBy(op, d, b1, d1, b2, m');
    Regroup(op, a1, m, d1, m');
    Reassociate(op, b2, m', m);
    assert SplitsBy(op, Apply(op, a, d), b, Apply(op, a1, d1), b2, Apply(op, m, m'));
  }

  lemma SplitsSymmetric(op: Op, a: Tristate, b: Tristate, a': Tristate, b': Tristate)
    requires SplitsAs(op, a, b, a', b')
    ensures SplitsAs(op, b, a, b', a')
  {
    var m :| SplitsBy(op, a, b, a', b', m);
    assert SplitsBy(op, b, a, b', a', m);
  }

  /** `part`, joined by `op`, moves from both `a` and `b` into `c`. */
  ghost predicate MovesBy(op: Op, c: Tristate, a: Tristate, b: Tristate,
                          c': Tristate, a': Tristate, b': Tristate, part: Tristate) {
    && c' == Apply(op, c, part)
    && a == Apply(op, a', part)
    && b == Apply(op, b', part)
  }

  ghost predicate Moves(op: Op, c: Tristate, a: Tristate, b: Tristate,
                        c': Tristate, a': Tristate, b': Tristate) {
    exists part :: MovesBy(op, c, a, b, c', a', b', part)
  }

  lemma MovesCompose(op: Op, c: Tristate, a: Tristate, b: Tristate,
                     c1: Tristate, a1: Tristate, b1: Tristate,
                     d: Tristate, c2: Tristate, d1: Tristate, b2: Tristate)
    requires Moves(op, c, a, b, c1, a1, b1) && Moves(op, c1, d, b1, c2, d1, b2)
    ensures Moves(op, c, Apply(op, a, d), b, c2, Apply(op, a1, d1), b2)
  {
    var m :| MovesBy(op, c, a, b, c1, a1, b1, m);
    var m' :| MovesBy(op, c1, d, b1, c2, d1, b2, m');
    Regroup(op, a1, m, d1, m');
    Reassociate(op, b2, m', m);
    Reassociate(op, c, m, m');
    assert MovesBy(op, c, Apply(op, a, d), b, c2, Apply(op, a1, d1), b2, Apply(op, m, m'));
  }

  lemma MovesSymmetric(op: Op, c: Tristate, a: Tristate, b: Tristate,
                       c': Tristate, a': Tristate, b': Tristate)
    requires Moves(op, c, a, b, c', a', b')
    ensures Moves(op, c, b, a, c', b', a')
  {
    var m :| MovesBy(op, c, a, b, c', a', b', m);
    assert MovesBy(op, c, b, a, c', b', a', m);
  }

  /** What sweeping away equal pairs removes is the same part on both sides. */
  lemma {:induction false} EliminatePassSplits(op: Op, e1: Expr, e2: Expr, v: Valuation)
    requires FixesConstants(v)
    ensures var r := EliminatePass(op, e1, e2);
            SplitsAs(op, Eval(e1, v), Eval(e2, v), Eval(r.0, v), Eval(r.1, v))
    decreases Size(e1) + Size(e2), if IsOp(op, e1) || IsOp(op, e2) then 0 else 3
  {
    if IsOp(op, e1) {
      var (l, x) := EliminatePass(op, e1.left, e2);
      var (r, y) := EliminatePass(op, e1.right, x);
      EliminatePassSplits(op, e1.left, e2, v);
      EliminatePassSplits(op, e1.right, x, v);
      SplitsCompose(op, Eval(e1.left, v), Eval(e2, v), Eval(l, v), Eval(x, v),
                    Eval(e1.right, v), Eval(r, v), Eval(y, v));
    } else if IsOp(op, e2) {
      var (x, l) := EliminatePass(op, e1, e2.left);
      var (y, r) := EliminatePass(op, x, e2.right);
      EliminatePassSplits(op, e1, e2.left, v);
      EliminatePassSplits(op, x, e2.right, v);
      SplitsSymmetric(op, Eval(e1, v), Eval(e2.left, v), Eval(x, v), Eval(l, v));
      SplitsSymmetric(op, Eval(x, v), Eval(e2.right, v), Eval(y, v), Eval(r, v));
      SplitsCompose(op, Eval(e2.left, v), Eval(e1, v), Eval(l, v), Eval(x, v),
                    Eval(e2.right, v), Eval(r, v), Eval(y, v));
      SplitsSymmetric(op, Eval(e2, v), Eval(e1, v), Apply(op, Eval(l, v), Eval(r, v)), Eval(y, v));
    } else {
      var unit := v(IdentityOf(op)).tri;
      assert SplitsBy(op, Eval(e1, v), Eval(e2, v), Eval(e1, v), Eval(e2, v), unit);
      if !(IsYn(e1) && e1 == e2) && ExprEq(e1, e2) {
        ExprEqSound(e1, e2, v);
        assert SplitsBy(op, Eval(e1, v), Eval(e2, v), unit, unit, Eval(e1, v));
      }
    }
  }

  /** Taking the same part away from both sides never turns the order of their values round. */
  lemma SplitsKeepOrder(op: Op, a: Tristate, b: Tristate, a': Tristate, b': Tristate)
    requires SplitsAs(op, a, b, a', b')
    ensures Rank(a') <= Rank(b') ==> Rank(a) <= Rank(b)
  {
    var part :| SplitsBy(op, a, b, a', b', part);
  }

  /** What is left of `e1` implies what is left of `e2` only if `e1` implies `e2`. */
  lemma EliminateEqKeepsOrder(e1: Expr, e2: Expr, v: Valuation)
    requires FixesConstants(v)
    ensures var r := EliminateEq(e1, e2);
            Rank(Eval(r.0, v)) <= Rank(Eval(r.1, v)) ==> Rank(Eval(e1, v)) <= Rank(Eval(e2, v))
  {
    var (a1, a2) := if e1.Bin? then EliminatePass(e1.op, e1, e2) else (e1, e2);
    if e1.Bin? {
      EliminatePassSplits(e1.op, e1, e2, v);
      SplitsKeepOrder(e1.op, Eval(e1, v), Eval(e2, v), Eval(a1, v), Eval(a2, v));
    }
    var (b1, b2) :=
      if a2.Bin? && !IsOp(a2.op, a1) then EliminatePass(a2.op, a1, a2) else (a1, a2);
    if a2.Bin? && !IsOp(a2.op, a1) {
      EliminatePassSplits(a2.op, a1, a2, v);
      SplitsKeepOrder(a2.op, Eval(a1, v), Eval(a2, v), Eval(b1, v), Eval(b2, v));
    }
    EliminateYnKeepsValue(b1, v);
    EliminateYnKeepsValue(b2, v);
  }

  /** What is cancelled on the two sides has one value: sides that end up equal
      were equal before. */
  lemma {:induction false} EliminateEqSound(e1: Expr, e2: Expr, v: Valuation)
    requires FixesConstants(v)
    ensures var r := EliminateEq(e1, e2);
            Eval(r.0, v) == Eval(r.1, v) ==> Eval(e1, v) == Eval(e2, v)
    decreases Size(e1) + Size(e2), 1
  {
    var (a1, a2) := if e1.Bin? then EliminatePass(e1.op, e1, e2) else (e1, e2);
    if e1.Bin? { EliminatePassSplits(e1.op, e1, e2, v); }
    var (b1, b2) :=
      if a2.Bin? && !IsOp(a2.op, a1) then EliminatePass(a2.op, a1, a2) else (a1, a2);
    if a2.Bin? && !IsOp(a2.op, a1) { EliminatePassSplits(a2.op, a1, a2, v); }
    EliminateYnKeepsValue(b1, v);
    EliminateYnKeepsValue(b2, v);
  }

  /** Expressions that compare equal have the same value in every valuation. */
  lemma {:induction false} ExprEqSound(e1: Expr, e2: Expr, v: Valuation)
    requires FixesConstants(v)
    requires ExprEq(e1, e2)
    ensures Eval(e1, v) == Eval(e2, v)
    decreases Size(e1) + Size(e2), 2
  {
    match e1
    case Compare(_, _, _) =>
    case Sym(_) =>
    case Not(a) => ExprEqSound(a, e2.arg, v);
    case Bin(_, _, _) => EliminateEqSound(e1, e2, v);
  }

  datatype Extraction = Extraction(common: Option<Expr>, rest1: Expr, rest2: Expr)

  function Accumulate(op: Op, c: Option<Expr>, e: Expr): Expr {
    if c.Some? then Bin(op, c.value, e) else e
  }

  /** Moves every leaf common to both sides into `common`. */
  function ExtractEq(op: Op, common: Option<Expr>, e1: Expr, e2: Expr): (r: Extraction)
    ensures Size(r.rest1) <= Size(e1) && Size(r.rest2) <= Size(e2)
    ensures common.Some? ==> r.common.Some?
    ensures r.common.None? ==> r.rest1 == e1 && r.rest2 == e2
    decreases Size(e1) + Size(e2)
  {
    if IsOp(op, e1) then
      var Extraction(c, l, x) := ExtractEq(op, common, e1.left, e2);
      var Extraction(d, r, y) := ExtractEq(op, c, e1.right, x);
      Extraction(d, Bin(op, l, r), y)
    else if IsOp(op, e2) then
      var Extraction(c, x, l) := ExtractEq(op, common, e1, e2.left);
      var Extraction(d, y, r) := ExtractEq(op, c, x, e2.right);
      Extraction(d, y, Bin(op, l, r))
    else if ExprEq(e1, e2) then
      Extraction(Some(Accumulate(op, common, e1)), Sym(IdentityOf(op)), Sym(IdentityOf(op)))
    else
      Extraction(common, e1, e2)
  }

  /** Extraction from scratch, with y and n removed from the rests when something
      was extracted. */
  function ExtractEqTop(op: Op, e1: Expr, e2: Expr): (r: Extraction) {
    var x := ExtractEq(op, None, e1, e2);
    if x.common.Some? then Extraction(x.common, EliminateYn(x.rest1), EliminateYn(x.rest2)) else x
  }

  function EvalCommon(op: Op, c: Option<Expr>, v: Valuation): Tristate {
    if c.Some? then Eval(c.value, v) else v(IdentityOf(op)).tri
  }

  /** Extraction only moves leaves: with what was moved put back, each side has
      the value it had. */
  lemma {:induction false} ExtractEqMoves(op: Op, common: Option<Expr>, e1: Expr, e2: Expr, v: Valuation)
    requires FixesConstants(v)
    ensures var r := ExtractEq(op, common, e1, e2);
            Moves(op, EvalCommon(op, common, v), Eval(e1, v), Eval(e2, v),
                  EvalCommon(op, r.common, v), Eval(r.rest1, v), Eval(r.rest2, v))
    decreases Size(e1) + Size(e2)
  {
    var c0 := EvalCommon(op, common, v);
    if IsOp(op, e1) {
      var Extraction(c, l, x) := ExtractEq(op, common, e1.left, e2);
      var Extraction(d, r, y) := ExtractEq(op, c, e1.right, x);
      ExtractEqMoves(op, common, e1.left, e2, v);
      ExtractEqMoves(op, c, e1.right, x, v);
      MovesCompose(op, c0, Eval(e1.left, v), Eval(e2, v), EvalCommon(op, c, v), Eval(l, v), Eval(x, v),
                   Eval(e1.right, v), EvalCommon(op, d, v), Eval(r, v), Eval(y, v));
    } else if IsOp(op, e2) {
      var Extraction(c, x, l) := ExtractEq(op, common, e1, e2.left);
      var Extraction(d, y, r) := ExtractEq(op, c, x, e2.right);
      ExtractEqMoves(op, common, e1, e2.left, v);
      ExtractEqMoves(op, c, x, e2.right, v);
      MovesSymmetric(op, c0, Eval(e1, v), Eval(e2.left, v), EvalCommon(op, c, v), Eval(x, v), Eval(l, v));
      MovesSymmetric(op, EvalCommon(op, c, v), Eval(x, v), Eval(e2.right, v),
                     EvalCommon(op, d, v), Eval(y, v), Eval(r, v));
      MovesCompose(op, c0, Eval(e2.left, v), Eval(e1, v), EvalCommon(op, c, v), Eval(l, v), Eval(x, v),
                   Eval(e2.right, v), EvalCommon(op, d, v), Eval(r, v), Eval(y, v));
      MovesSymmetric(op, c0, Eval(e2, v), Eval(e1, v),
                     EvalCommon(op, d, v), Apply(op, Eval(l, v), Eval(r, v)), Eval(y, v));
    } else {
      ExtractLeafMoves(op, common, e1, e2, v);
    }
  }

  lemma ExtractLeafMoves(op: Op, common: Option<Expr>, e1: Expr, e2: Expr, v: Valuation)
    requires FixesConstants(v)
    requires !IsOp(op, e1) && !IsOp(op, e2)
    ensures var r := ExtractEq(op, common, e1, e2);
            Moves(op, EvalCommon(op, common, v), Eval(e1, v), Eval(e2, v),
                  EvalCommon(op, r.common, v), Eval(r.rest1, v), Eval(r.rest2, v))
  {
    var unit := v(IdentityOf(op)).tri;
    var c := EvalCommon(op, common, v);
    if ExprEq(e1, e2) {
      ExprEqSound(e1, e2, v);
      var r := ExtractEq(op, common, e1, e2);
      var m := Eval(e1, v);
      assert MovesBy(op, c, m, m, EvalCommon(op, r.common, v), unit, unit, m);
    } else {
      assert MovesBy(op, c, Eval(e1, v), Eval(e2, v), c, Eval(e1, v), Eval(e2, v), unit);
    }
  }

  /** Extraction from scratch splits both sides into rest and common part. */
  lemma ExtractEqTopSplits(op: Op, e1: Expr, e2: Expr, v: Valuation)
    requires FixesConstants(v)
    ensures var r := ExtractEqTop(op, e1, e2);
            && Eval(e1, v) == Apply(op, Eval(r.rest1, v), EvalCommon(op, r.common, v))
            && Eval(e2, v) == Apply(op, Eval(r.rest2, v), EvalCommon(op, r.common, v))
  {
    ExtractEqMoves(op, None, e1, e2, v);
    var x := ExtractEq(op, None, e1, e2);
    EliminateYnKeepsValue(x.rest1, v);
    EliminateYnKeepsValue(x.rest2, v);
  }
}
