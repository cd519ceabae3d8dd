// Rewriting an expression to negation normal form with tests of bool symbols
// turned into the symbols themselves.

module ExprTransform {
  import opened KconfigExpr

  /** The measure that every rewriting step lowers, De Morgan included. */
  function Weight(e: Expr): (n: nat)
    ensures n >= 1
  {
    match e
    case Sym(_) => 1
    case Compare(_, _, _) => 2
    case Not(a) => 2 * Weight(a)
    case Bin(_, l, r) => 1 + Weight(l) + Weight(r)
  }

  /** A comparison of a bool symbol with y, m or n becomes the symbol, its negation
      or a constant; a bool symbol is never m. */
  function TransformCompare(c: Cmp, l: Symbol, r: Symbol): Expr {
    if KindOf(l) != Boolean then Compare(c, l, r)
    else match (c, r)
      case (Equal, SymNo) => Not(Sym(l))
      case (Equal, SymMod) => Sym(SymNo)
      case (Equal, SymYes) => Sym(l)
      case (Unequal, SymNo) => Sym(l)
      case (Unequal, SymMod) => Sym(SymYes)
      case (Unequal, SymYes) => Not(Sym(l))
      case _ => Compare(c, l, r)
  }

  /** The negation of `l op r`, pushed one level down: lighter than the negated node. */
  function DeMorgan(op: Op, l: Expr, r: Expr): (x: Expr)
    ensures Weight(x) < Weight(Not(Bin(op, l, r)))
  {
    var x := Bin(Dual(op), Not(l), Not(r));
    assert Weight(x) == 1 + Weight(Not(l)) + Weight(Not(r));
    x
  }

  function Transform(e: Expr): (r: Expr)
    ensures Weight(r) <= Weight(e)
    decreases Weight(e)
  {
    match e
    case Sym(_) => e
    case Compare(c, l, r) => TransformCompare(c, l, r)
    case Bin(op, l, r) => Bin(op, Transform(l), Transform(r))
    case Not(a) =>
      var x := Transform(a);
      match x
      case Not(y) => Transform(y)
      case Compare(c, l, r) => Compare(FlipCmp(c), l, r)
      case Bin(op, l, r) => Transform(DeMorgan(op, l, r))
      case Sym(SymYes) => Sym(SymNo)
      case Sym(SymMod) => Sym(SymMod)
      case Sym(SymNo) => Sym(SymYes)
      case Sym(_) => Not(x)
  }

  lemma {:induction false} TransformKeepsValue(e: Expr, v: Valuation)
    requires WellFormed(v)
    ensures Eval(Transform(e), v) == Eval(e, v)
    decreases Weight(e)
  {
    match e
    case Sym(_) =>
    case Compare(c, l, r) =>
    case Bin(op, l, r) =>
      TransformKeepsValue(l, v);
      TransformKeepsValue(r, v);
    case Not(a) =>
      TransformKeepsValue(a, v);
      var x := Transform(a);
      match x
      case Not(y) => TransformKeepsValue(y, v);
      case Bin(op, l, r) => TransformKeepsValue(DeMorgan(op, l, r), v);
      case _ =>
  }

  /** Negation normal form: negation only on symbols other than y, m, n, and no bool
      symbol compared with y, m or n. */
  predicate Normal(e: Expr) {
    match e
    case Sym(_) => true
    case Not(a) => a.Sym? && !IsTrit(a.sym)
    case Bin(_, l, r) => Normal(l) && Normal(r)
    case Compare(_, l, r) => !(KindOf(l) == Boolean && IsTrit(r))
  }

  lemma {:induction false} TransformNormalises(e: Expr)
    ensures Normal(Transform(e))
    decreases Weight(e)
  {
    match e
    case Sym(_) =>
    case Compare(_, _, _) =>
    case Bin(_, l, r) =>
      TransformNormalises(l);
      TransformNormalises(r);
    case Not(a) =>
      TransformNormalises(a);
      match Transform(a)
      case Not(y) => TransformNormalises(y);
      case Bin(op, l, r) => TransformNormalises(DeMorgan(op, l, r));
      case _ =>
  }

  lemma {:induction false} NormalIsFixed(e: Expr)
    requires Normal(e)
    ensures Transform(e) == e
  {
    if e.Bin? {
      NormalIsFixed(e.left);
      NormalIsFixed(e.right);
    }
  }

  /** An expression is unchanged by the rewriting exactly when it is normal; so
      rewriting twice is rewriting once. */
  lemma TransformFixpoints(e: Expr)
    ensures Transform(e) == e <==> Normal(e)
    ensures Transform(Transform(e)) == Transform(e)
  {
    TransformNormalises(e);
    NormalIsFixed(Transform(e));
    if Normal(e) { NormalIsFixed(e); }
  }
}
