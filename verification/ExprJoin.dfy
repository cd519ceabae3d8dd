// Joining two operands of one AND or OR into a single expression: the rules for
// comparisons of one symbol with y, m and n.

module ExprJoin {
  import opened Common
  import opened KconfigExpr
  import opened ExprEquality

  /** The symbol the rules look at on the first operand. */
  function FirstSubject(e: Expr): Option<Symbol> {
    match e
    case Sym(s) => Some(s)
    case Compare(_, l, _) => Some(l)
    case Not(Sym(s)) => Some(s)
    case Not(Compare(_, l, _)) => Some(l)
    case _ => None
  }

  /** The symbol the rules look at on the second operand. */
  function SecondSubject(e: Expr): Option<Symbol> {
    match e
    case Sym(s) => Some(s)
    case Compare(_, l, _) => Some(l)
    case Not(Sym(s)) => Some(s)
    case _ => None
  }

  predicate IsCompare(c: Cmp, e: Expr) {
    e.Compare? && e.cmp == c
  }

  /** Both operands are comparisons `c`, with `p` and `q` in either order. */
  predicate ComparePair(c: Cmp, e1: Expr, e2: Expr, p: Symbol, q: Symbol) {
    && IsCompare(c, e1)
    && IsCompare(c, e2)
    && ((e1.rhs == p && e2.rhs == q) || (e1.rhs == q && e2.rhs == p))
  }

  /** One operand is a plain symbol and the other compares by `c` with `p`. */
  predicate SymbolAndCompare(c: Cmp, e1: Expr, e2: Expr, p: Symbol) {
    || (e1.Sym? && IsCompare(c, e2) && e2.rhs == p)
    || (e2.Sym? && IsCompare(c, e1) && e1.rhs == p)
  }

  predicate IsNotSymbol(e: Expr) {
    e.Not? && e.arg.Sym?
  }

  function JoinOr(e1: Expr, e2: Expr): Option<Expr> {
    if ExprEq(e1, e2) then Some(e1)
    else
      var s1, s2 := FirstSubject(e1), SecondSubject(e2);
      if s1.None? || s2.None? || s1 != s2 then None
      else
        var s := s1.value;
        if KindOf(s) == TristateKind && ComparePair(Equal, e1, e2, SymYes, SymMod) then
          Some(Compare(Unequal, s, SymNo))
        else if KindOf(s) == TristateKind && ComparePair(Equal, e1, e2, SymYes, SymNo) then
          Some(Compare(Unequal, s, SymMod))
        else if KindOf(s) == TristateKind && ComparePair(Equal, e1, e2, SymMod, SymNo) then
          Some(Compare(Unequal, s, SymYes))
        else if KindOf(s) == Boolean && ((IsNotSymbol(e1) && e2.Sym?) || (IsNotSymbol(e2) && e1.Sym?)) then
          Some(Sym(SymYes))
        else None
  }

  function JoinAnd(e1: Expr, e2: Expr): Option<Expr> {
    if ExprEq(e1, e2) then Some(e1)
    else
      var s1, s2 := FirstSubject(e1), SecondSubject(e2);
      if s1.None? || s2.None? || s1 != s2 then None
      else
        var s := s1.value;
        if KindOf(s) != Boolean && KindOf(s) != TristateKind then None
        else if SymbolAndCompare(Equal, e1, e2, SymYes) then Some(Compare(Equal, s, SymYes))
        else if SymbolAndCompare(Unequal, e1, e2, SymNo) then Some(Sym(s))
        else if SymbolAndCompare(Unequal, e1, e2, SymMod) then Some(Compare(Equal, s, SymYes))
        else if KindOf(s) != TristateKind then None
        else if IsCompare(Equal, e1) && IsCompare(Unequal, e2) && IsConst(e1.rhs) && IsConst(e2.rhs) then
          Some(if e1.rhs != e2.rhs then Compare(Equal, s, e1.rhs) else Sym(SymNo))
        else if IsCompare(Unequal, e1) && IsCompare(Equal, e2) && IsConst(e1.rhs) && IsConst(e2.rhs) then
          Some(if e1.rhs != e2.rhs then Compare(Equal, s, e2.rhs) else Sym(SymNo))
        else if ComparePair(Unequal, e1, e2, SymYes, SymNo) then Some(Compare(Equal, s, SymMod))
        else if ComparePair(Unequal, e1, e2, SymYes, SymMod) then Some(Compare(Equal, s, SymNo))
        else if ComparePair(Unequal, e1, e2, SymMod, SymNo) then Some(Compare(Equal, s, SymYes))
        else None
  }

  function Join(op: Op, e1: Expr, e2: Expr): Option<Expr> {
    match op case And => JoinAnd(e1, e2) case Or => JoinOr(e1, e2)
  }

  lemma ConstantsDiffer(a: Symbol, b: Symbol, v: Valuation)
    requires WellFormed(v) && IsConst(a) && IsConst(b) && a != b
    ensures v(a).str != v(b).str
  {
  }

  predicate IsLogical(s: Symbol) {
    KindOf(s) == Boolean || KindOf(s) == TristateKind
  }

  /** Comparing a bool or tristate symbol with y, m or n compares its value. */
  lemma CompareIsValueTest(c: Cmp, s: Symbol, t: Symbol, v: Valuation)
    requires WellFormed(v) && IsLogical(s) && (t == SymYes || t == SymMod || t == SymNo)
    ensures Eval(Compare(c, s, t), v) == if (v(s).tri == v(t).tri) == (c == Equal) then Yes else No
  {
    assert v(s).str == Letter(v(s).tri);
    assert "n"[0] != "m"[0] && "n"[0] != "y"[0] && "m"[0] != "y"[0];
  }

  lemma JoinOrKeepsValue(e1: Expr, e2: Expr, v: Valuation)
    requires WellFormed(v)
    requires JoinOr(e1, e2).Some?
    ensures Eval(JoinOr(e1, e2).value, v) == TriMax(Eval(e1, v), Eval(e2, v))
  {
    if ExprEq(e1, e2) {
      ExprEqSound(e1, e2, v);
    } else if e1.Compare? && e2.Compare? {
      var s := e1.lhs;
      CompareIsValueTest(Equal, s, e1.rhs, v);
      CompareIsValueTest(Equal, s, e2.rhs, v);
      CompareIsValueTest(Unequal, s, JoinOr(e1, e2).value.rhs, v);
    }
  }

  lemma JoinSymbolAndCompare(s: Symbol, c: Expr, e1: Expr, e2: Expr, v: Valuation)
    requires WellFormed(v)
    requires c.Compare? && ((e1 == Sym(s) && e2 == c) || (e2 == Sym(s) && e1 == c))
    requires JoinAnd(e1, e2).Some?
    ensures Eval(JoinAnd(e1, e2).value, v) == TriMin(v(s).tri, Eval(c, v))
  {
    assert IsLogical(s);
    CompareIsValueTest(c.cmp, s, c.rhs, v);
    CompareIsValueTest(Equal, s, SymYes, v);
  }

  lemma JoinTwoCompares(e1: Expr, e2: Expr, v: Valuation)
    requires WellFormed(v)
    requires e1.Compare? && e2.Compare? && e1 != e2
    requires JoinAnd(e1, e2).Some?
    ensures Eval(JoinAnd(e1, e2).value, v) == TriMin(Eval(e1, v), Eval(e2, v))
  {
    var s := e1.lhs;
    if e1.cmp != e2.cmp {
      if e1.rhs != e2.rhs { ConstantsDiffer(e1.rhs, e2.rhs, v); }
    } else {
      CompareIsValueTest(Unequal, s, e1.rhs, v);
      CompareIsValueTest(Unequal, s, e2.rhs, v);
      CompareIsValueTest(Equal, s, JoinAnd(e1, e2).value.rhs, v);
    }
  }

  lemma JoinAndKeepsValue(e1: Expr, e2: Expr, v: Valuation)
    requires WellFormed(v)
    requires JoinAnd(e1, e2).Some?
    ensures Eval(JoinAnd(e1, e2).value, v) == TriMin(Eval(e1, v), Eval(e2, v))
  {
    if ExprEq(e1, e2) {
      ExprEqSound(e1, e2, v);
    } else if e1.Compare? && e2.Compare? {
      JoinTwoCompares(e1, e2, v);
    } else if e1.Sym? {
      JoinSymbolAndCompare(e1.sym, e2, e1, e2, v);
    } else {
      JoinSymbolAndCompare(e2.sym, e1, e1, e2, v);
    }
  }

  /** Every join has the three-valued meaning of the AND or OR it replaces. */
  lemma JoinKeepsValue(op: Op, e1: Expr, e2: Expr, v: Valuation)
    requires WellFormed(v)
    requires Join(op, e1, e2).Some?
    ensures Eval(Join(op, e1, e2).value, v) == Apply(op, Eval(e1, v), Eval(e2, v))
  {
    match op
    case And => JoinAndKeepsValue(e1, e2, v);
    case Or => JoinOrKeepsValue(e1, e2, v);
  }

  /** Both compare one tristate symbol. */
  predicate OneTristate(e1: Expr, e2: Expr) {
    e1.Compare? && e2.Compare? && e1.lhs == e2.lhs && KindOf(e1.lhs) == TristateKind
  }

  /** One is a bool symbol and the other its negation. */
  predicate Opposites(e1: Expr, e2: Expr) {
    e1.Sym? && KindOf(e1.sym) == Boolean && e2 == Not(e1)
  }

  /** A bool or tristate symbol, and a comparison that it implies or that implies it. */
  predicate SymbolAndTest(e1: Expr, e2: Expr) {
    && e1.Sym? && IsLogical(e1.sym) && e2.Compare? && e2.lhs == e1.sym
    && (if e2.cmp == Equal then e2.rhs == SymYes else e2.rhs == SymNo || e2.rhs == SymMod)
  }

  /** The operands of an OR that are joined: equal ones, two values of one tristate symbol, and
      a bool symbol with its negation. */
  lemma JoinOrExact(e1: Expr, e2: Expr)
    ensures JoinOr(e1, e2).Some?
            <==> || ExprEq(e1, e2)
                 || (OneTristate(e1, e2) && e1.cmp == Equal && e2.cmp == Equal && IsTrit(e1.rhs) && IsTrit(e2.rhs))
                 || Opposites(e1, e2) || Opposites(e2, e1)
  {
  }

  /** The operands of an AND that are joined: equal ones, a symbol with a test of it, a value
      and an excluded value of one tristate symbol, and two excluded values. */
  lemma JoinAndExact(e1: Expr, e2: Expr)
    ensures JoinAnd(e1, e2).Some?
            <==> || ExprEq(e1, e2)
                 || SymbolAndTest(e1, e2) || SymbolAndTest(e2, e1)
                 || (OneTristate(e1, e2) && e1.cmp != e2.cmp && IsConst(e1.rhs) && IsConst(e2.rhs))
                 || (OneTristate(e1, e2) && e1.cmp == Unequal && e2.cmp == Unequal && IsTrit(e1.rhs) && IsTrit(e2.rhs))
  {
  }

  /** A join is no larger than what it replaces, and never a node of the same
      operator. */
  lemma JoinShape(op: Op, e1: Expr, e2: Expr)
    requires Join(op, e1, e2).Some?
    ensures Size(Join(op, e1, e2).value) <= Size(e1)
    ensures !IsOp(op, e1) ==> !IsOp(op, Join(op, e1, e2).value)
  {
  }
}
