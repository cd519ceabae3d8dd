// How the menus use the simplifier: the dependency a menu inherits from its parent, and the
// test for showing an entry below the symbol before it.

module ExprMenus {
  import opened Common
  import opened KconfigExpr
  import opened ExprEquality
  import opened ExprTransform
  import opened ExprJoin
  import opened ExprSpine
  import opened ExprSweep
  import opened ExprDups
  import opened ExprResult
  import opened ExprCompare
  import opened SymbolEval

  /** The conjunction of two dependencies, either of which may be missing. */
  function BothOf(a: Option<Expr>, b: Option<Expr>): Option<Expr> {
    if a.None? then b else if b.None? then a else Some(Bin(And, a.value, b.value))
  }

  /** The dependency of a menu below a parent with dependency `parent`. */
  function Inherited(parent: Option<Expr>, dep: Option<Expr>): Option<Expr> {
    var both := BothOf(parent, if dep.None? then None else Some(Transform(dep.value)));
    if both.None? then None else Some(EliminateDups(both.value))
  }

  /** In the values that evaluating the symbols gives, an inherited dependency is n or y
      exactly as the smaller of the two is; only an m may become decided. */
  lemma InheritedMeaning(c: Setup, parent: Option<Expr>, dep: Option<Expr>)
    requires Acyclic(c)
    ensures var v := Solution(c);
            Decides(TriMin(EvalOpt(parent, v), EvalOpt(dep, v)), EvalOpt(Inherited(parent, dep), v))
  {
    hide Solution, Transform, EliminateDups, Acyclic;
    var v := Solution(c);
    SolutionWellFormed(c);
    var inner := if dep.None? then None else Some(Transform(dep.value));
    if dep.Some? {
      TransformKeepsValue(dep.value, v);
    }
    var both := BothOf(parent, inner);
    assert EvalOpt(both, v) == TriMin(EvalOpt(parent, v), EvalOpt(dep, v));
    if both.Some? {
      EliminateDupsDecides(both.value, v);
    }
  }

  /** It has no operands that could be joined, and none that oppose each other. */
  lemma InheritedIrredundant(parent: Option<Expr>, dep: Option<Expr>)
    ensures Inherited(parent, dep).Some? ==> Irredundant(Inherited(parent, dep).value)
    ensures Inherited(parent, dep).Some? <==> parent.Some? || dep.Some?
  {
    hide Transform, EliminateDups;
    var both := BothOf(parent, if dep.None? then None else Some(Transform(dep.value)));
    if both.Some? { EliminateDupsIrredundant(both.value); }
  }

  /** "Not n", simplified. */
  function Shown(e: Option<Expr>): Expr {
    EliminateDups(Transform(TransCompare(e, Unequal, SymNo).value))
  }

  /** The test for showing an entry with dependency `dep` below one with dependency `above`:
      nothing of `above` is left once the common part is taken away. */
  predicate Nested(dep: Option<Expr>, above: Option<Expr>) {
    EliminateEq(Shown(dep), Shown(above)).1 == Sym(SymYes)
  }

  /** The value read with m as y; a missing dependency is y. */
  function Reading(e: Option<Expr>, v: Valuation): Tristate {
    if e.None? then Yes else EvalReading(e.value, v, Yes)
  }

  /** The whole pipeline tests "not n" of the reading with m as y, in three values: the test
      is never m, so the second pass of the duplicate elimination has nothing to decide. */
  lemma ShownMeaning(e: Option<Expr>, v: Valuation)
    requires WellFormed(v) && (e.Some? ==> TestableLeaves(e.value))
    ensures Eval(Shown(e), v) == Truth(Reading(e, v) != No)
  {
    var test := TransCompare(e, Unequal, SymNo).value;
    if e.Some? {
      TransCompareMeaning(e.value, Unequal, SymNo, v);
    }
    TransformKeepsValue(test, v);
    EliminateDupsDecides(Transform(test), v);
  }

  /** What passes the test is not n; the converse holds where no symbol below an odd number
      of negations is m. */
  lemma ReadingOfValue(e: Option<Expr>, v: Valuation)
    ensures Reading(e, v) != No ==> EvalOpt(e, v) != No
    ensures (e.Some? ==> Settled(e.value, v, false)) ==> (Reading(e, v) != No <==> EvalOpt(e, v) != No)
  {
    if e.Some? {
      DecidedReading(e.value, v, Yes);
      if Settled(e.value, v, false) {
        ReadingAgrees(e.value, No, v, false);
      }
    }
  }

  /** An entry passes the test only below one that is not n whenever it is not n, both in the
      reading with m as y. */
  lemma NestedIsSound(dep: Option<Expr>, above: Option<Expr>, v: Valuation)
    requires WellFormed(v) && Nested(dep, above)
    requires (dep.Some? ==> TestableLeaves(dep.value)) && (above.Some? ==> TestableLeaves(above.value))
    ensures Reading(dep, v) != No ==> Reading(above, v) != No
  {
    hide EliminateEq, Shown;
    ShownMeaning(dep, v);
    ShownMeaning(above, v);
    EliminateEqKeepsOrder(Shown(dep), Shown(above), v);
  }

  /** In plain values: an entry with no m below an odd number of negations is nested only
      below one that is visible when it is. */
  lemma NestedIsVisible(dep: Option<Expr>, above: Option<Expr>, v: Valuation)
    requires WellFormed(v) && Nested(dep, above)
    requires (dep.Some? ==> TestableLeaves(dep.value)) && (above.Some? ==> TestableLeaves(above.value))
    requires dep.Some? ==> Settled(dep.value, v, false)
    ensures EvalOpt(dep, v) != No ==> EvalOpt(above, v) != No
  {
    hide Nested, Reading;
    NestedIsSound(dep, above, v);
    ReadingOfValue(dep, v);
    ReadingOfValue(above, v);
  }

  /** For conjunctions of symbols, negated symbols and comparisons the test is whether the entry
      has all conditions of the one above. Two single conditions are not compared: an entry
      with the very condition of the one above is not put below it. */
  lemma NestedExact(dep: Option<Expr>, above: Option<Expr>)
    requires Atoms(Leaves(And, Shown(dep))) && Atoms(Leaves(And, Shown(above)))
    requires Sym(SymNo) !in Leaves(And, Shown(above))
    ensures Nested(dep, above)
            <==> if IsOp(And, Shown(dep)) || IsOp(And, Shown(above))
                 then Solid(Leaves(And, Shown(above))) <= Solid(Leaves(And, Shown(dep)))
                 else Shown(above) == Sym(SymYes)
  {
    hide Shown, EliminateEq, Leaves, Solid;
    EliminateEqExact(And, Shown(dep), Shown(above));
  }

  const FOO_OFF: Expr := Compare(Equal, FOO.sym, SymNo)
  const BOTH_OFF: Expr := Bin(And, FOO_OFF, Compare(Equal, BAR.sym, SymNo))

  lemma BothOffLeaves()
    ensures Leaves(And, BOTH_OFF) == [BOTH_OFF.left, BOTH_OFF.right] && Operands(And, [BOTH_OFF.left, BOTH_OFF.right])
    ensures Join(And, BOTH_OFF.left, BOTH_OFF.right).None? && Join(And, BOTH_OFF.right, BOTH_OFF.left).None?
  {
    assert !ExprEq(BOTH_OFF.left, BOTH_OFF.right) && !ExprEq(BOTH_OFF.right, BOTH_OFF.left);
  }

  lemma BothOffStays()
    ensures EliminateDups(BOTH_OFF) == BOTH_OFF
  {
    hide Leaves, Join, Total, Dups1From, Dups2From, Dups1Pair, Rebuild, Operands, Size, Opposes;
    var ls := [BOTH_OFF.left, BOTH_OFF.right];
    LeavesSize(And, BOTH_OFF);
    BothOffLeaves();
    PairStill(And, ls, 0, 1, Size(BOTH_OFF));
    PairStill(And, ls, 1, 0, Size(BOTH_OFF));
    Dups1Still(And, ls, 0, 0, Size(BOTH_OFF));
    Dups2FromFlat(And, BOTH_OFF, ls, 0, Size(BOTH_OFF));
    RebuildLeaves(And, BOTH_OFF);
  }

  lemma ShownExample()
    ensures Shown(Some(NEITHER)) == BOTH_OFF && Shown(Some(FOO_OFF)) == FOO_OFF
  {
    hide Dups1, Dups2;
    var either := Bin(Or, Compare(Unequal, FOO.sym, SymNo), Compare(Unequal, BAR.sym, SymNo));
    assert TransCompare(Some(Not(FOO)), Equal, SymNo) == Some(either.left);
    assert TransCompare(Some(Not(BAR)), Equal, SymNo) == Some(either.right);
    assert TransCompare(Some(NEITHER), Unequal, SymNo) == Some(Not(either));
    assert Transform(either) == either;
    assert Transform(Not(either)) == BOTH_OFF;
    BothOffStays();
  }

  lemma NestedExample()
    ensures EliminateEq(BOTH_OFF, FOO_OFF).1 == Sym(SymYes)
  {
    assert EliminatePass(And, BOTH_OFF.left, FOO_OFF) == (Sym(SymYes), Sym(SymYes));
    assert EliminatePass(And, BOTH_OFF.right, Sym(SymYes)) == (BOTH_OFF.right, Sym(SymYes));
  }

  /** Without that condition it can fail: !FOO && !BAR is nested below FOO = n, and with FOO
      at m and BAR at n the first is m and the second n. */
  lemma NestedFailsAtMod(v: Valuation)
    requires WellFormed(v) && v(FOO.sym).tri == Mod && v(BAR.sym).tri == No
    ensures Nested(Some(NEITHER), Some(FOO_OFF)) && Eval(NEITHER, v) == Mod && Eval(FOO_OFF, v) == No
  {
    hide Shown, EliminateEq;
    ShownExample();
    NestedExample();
    CompareIsValueTest(Equal, FOO.sym, SymNo, v);
  }
}
