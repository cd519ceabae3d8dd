// Rewriting "e = y", "e != n" and the like into an expression without the outer
// comparison.

module ExprCompare {
  import opened Common
  import opened KconfigExpr
  import opened ExprJoin

  /** `e cmp s` pushed to the leaves. There is no result for a comparison leaf tested
      against anything but y, m and n. */
  function TransCompare(e: Option<Expr>, c: Cmp, s: Symbol): (r: Option<Expr>)
    ensures s == SymYes || s == SymNo ==> r.Some?
    decreases if e.Some? then Size(e.value) else 0
  {
    match e
    case None => Some(if c == Unequal then Not(Sym(s)) else Sym(s))
    case Some(Bin(op, l, r)) =>
      var both := if s == SymYes || s == SymNo then
                    Bin(if s == SymYes then op else Dual(op),
                        TransCompare(Some(l), Equal, s).value, TransCompare(Some(r), Equal, s).value)
                  else e.value;
      Some(if c == Unequal then Not(both) else both)
    case Some(Not(a)) => TransCompare(Some(a), FlipCmp(c), s)
    case Some(Compare(_, _, _)) =>
      if s == SymYes then Some(if c == Equal then e.value else Not(e.value))
      else if s == SymMod then Some(Sym(if c == Equal then SymNo else SymYes))
      else if s == SymNo then Some(if c == Equal then Not(e.value) else e.value)
      else None
    case Some(Sym(x)) => Some(Compare(c, x, s))
  }

  /** Leaves whose value a comparison with y, m or n can test. */
  predicate TestableLeaves(e: Expr) {
    match e
    case Sym(x) => IsLogical(x) || x == SymYes || x == SymMod || x == SymNo
    case Not(a) => TestableLeaves(a)
    case Bin(_, l, r) => TestableLeaves(l) && TestableLeaves(r)
    case Compare(_, _, _) => true
  }

  /** The value of `e` when every symbol that is m is read as `d`. */
  function EvalReading(e: Expr, v: Valuation, d: Tristate): Tristate {
    match e
    case Sym(x) => if v(x).tri == Mod then d else v(x).tri
    case Not(a) => TriNot(EvalReading(a, v, d))
    case Bin(op, l, r) => Apply(op, EvalReading(l, v, d), EvalReading(r, v, d))
    case Compare(_, _, _) => Eval(e, v)
  }

  function Truth(b: bool): Tristate {
    if b then Yes else No
  }

  predicate Holds(c: Cmp, t: Tristate, s: Tristate) {
    (t == s) == (c == Equal)
  }

  lemma {:induction false} ReadingIsDecided(e: Expr, v: Valuation, d: Tristate)
    requires d != Mod
    ensures EvalReading(e, v, d) != Mod
  {
    match e
    case Not(a) => ReadingIsDecided(a, v, d);
    case Bin(_, l, r) => ReadingIsDecided(l, v, d); ReadingIsDecided(r, v, d);
    case _ =>
  }

  lemma SymbolTest(c: Cmp, x: Symbol, s: Symbol, v: Valuation)
    requires WellFormed(v) && TestableLeaves(Sym(x)) && (s == SymYes || s == SymNo)
    ensures Eval(Compare(c, x, s), v) == Truth(Holds(c, v(x).tri, v(s).tri))
  {
    if IsLogical(x) {
      CompareIsValueTest(c, x, s, v);
    } else {
      assert "n"[0] != "m"[0] && "n"[0] != "y"[0] && "m"[0] != "y"[0];
    }
  }

  /** What the rewriting computes, for all expressions: the comparison of the value that
      `e` has when m is read as the opposite of `s`. */
  lemma {:induction false} TransCompareMeaning(e: Expr, c: Cmp, s: Symbol, v: Valuation)
    requires WellFormed(v) && TestableLeaves(e)
    requires s == SymYes || s == SymNo
    ensures Eval(TransCompare(Some(e), c, s).value, v)
            == Truth(Holds(c, EvalReading(e, v, TriNot(v(s).tri)), v(s).tri))
    decreases Size(e)
  {
    var d := TriNot(v(s).tri);
    match e
    case Bin(op, l, r) =>
      TransCompareMeaning(l, Equal, s, v);
      TransCompareMeaning(r, Equal, s, v);
      ReadingIsDecided(l, v, d);
      ReadingIsDecided(r, v, d);
    case Not(a) =>
      TransCompareMeaning(a, FlipCmp(c), s, v);
      ReadingIsDecided(a, v, d);
    case Compare(_, _, _) =>
    case Sym(x) =>
      SymbolTest(c, x, s, v);
  }

  /** No symbol below an odd number of negations is m; `odd` counts those above `e`. */
  predicate Settled(e: Expr, v: Valuation, odd: bool) {
    match e
    case Sym(x) => odd ==> v(x).tri != Mod
    case Not(a) => Settled(a, v, !odd)
    case Bin(_, l, r) => Settled(l, v, odd) && Settled(r, v, odd)
    case Compare(_, _, _) => true
  }

  /** A value that is decided is the same in every reading. */
  lemma {:induction false} DecidedReading(e: Expr, v: Valuation, d: Tristate)
    ensures Eval(e, v) != Mod ==> EvalReading(e, v, d) == Eval(e, v)
  {
    match e
    case Bin(_, l, r) => DecidedReading(l, v, d); DecidedReading(r, v, d);
    case Not(a) => DecidedReading(a, v, d);
    case _ =>
  }

  /** The rewriting tests the value of `e` itself unless that value is m and is read as `s`. */
  lemma TransCompareExact(e: Expr, c: Cmp, s: Symbol, v: Valuation)
    requires WellFormed(v) && TestableLeaves(e)
    requires s == SymYes || s == SymNo
    ensures Eval(TransCompare(Some(e), c, s).value, v) == Truth(Holds(c, Eval(e, v), v(s).tri))
            <==> !(Eval(e, v) == Mod && EvalReading(e, v, TriNot(v(s).tri)) == v(s).tri)
  {
    TransCompareMeaning(e, c, s, v);
    DecidedReading(e, v, TriNot(v(s).tri));
  }

  /** Reading m as the opposite of `s` keeps whether a settled value is `s`, and below an odd
      number of negations whether it is the opposite. */
  lemma {:induction false} ReadingAgrees(e: Expr, s: Tristate, v: Valuation, odd: bool)
    requires s != Mod && Settled(e, v, odd)
    ensures var t := if odd then TriNot(s) else s;
            EvalReading(e, v, TriNot(s)) == t <==> Eval(e, v) == t
  {
    match e
    case Bin(_, l, r) =>
      ReadingAgrees(l, s, v, odd);
      ReadingAgrees(r, s, v, odd);
      ReadingIsDecided(l, v, TriNot(s));
      ReadingIsDecided(r, v, TriNot(s));
    case Not(a) => ReadingAgrees(a, s, v, !odd);
    case _ =>
  }

  /** The rewriting tests the value of `e` where no symbol below an odd number of negations
      is m. */
  lemma TransCompareKeepsValue(e: Expr, c: Cmp, s: Symbol, v: Valuation)
    requires WellFormed(v) && TestableLeaves(e)
    requires s == SymYes || s == SymNo
    requires Settled(e, v, false)
    ensures Eval(TransCompare(Some(e), c, s).value, v) == Truth(Holds(c, Eval(e, v), v(s).tri))
  {
    TransCompareMeaning(e, c, s, v);
    ReadingAgrees(e, v(s).tri, v, false);
  }

  /** With negation in three values it can fail: !FOO = y at FOO = m. */
  lemma TransCompareFailsAtMod(v: Valuation)
    requires WellFormed(v) && v(Config(0, TristateKind)).tri == Mod
    ensures var e := Not(Sym(Config(0, TristateKind)));
            && TestableLeaves(e)
            && !Holds(Equal, Eval(e, v), Yes)
            && Eval(TransCompare(Some(e), Equal, SymYes).value, v) == Yes
  {
    TransCompareMeaning(Not(Sym(Config(0, TristateKind))), Equal, SymYes, v);
  }
}
