// The comparison of expressions finds what it should: the sweep over all pairs of operands on
// rows of slots, reflexivity, and the exact answer for trees of symbols and comparisons.

module ExprSweep {
  import opened Common
  import opened KconfigExpr
  import opened ExprEquality
  import opened ExprSpine

  // ----- The sweep on rows -----

  /** One pair: equal operands become the identity; y and n stay when `keep` is set. */
  function Pair(op: Op, keep: bool, x: Expr, y: Expr): (Expr, Expr) {
    if (keep && IsYn(x) && x == y) || !ExprEq(x, y) then (x, y) else (Sym(IdentityOf(op)), Sym(IdentityOf(op)))
  }

  /** One operand against a row. */
  function Row(op: Op, keep: bool, x: Expr, ys: seq<Expr>): (r: (Expr, seq<Expr>))
    ensures |r.1| == |ys|
    decreases |ys|
  {
    if ys == [] then (x, [])
    else
      var (x1, y) := Pair(op, keep, x, ys[0]);
      var (x2, rest) := Row(op, keep, x1, ys[1..]);
      (x2, [y] + rest)
  }

  /** Every operand of one row against the other row. */
  function Sweep(op: Op, keep: bool, xs: seq<Expr>, ys: seq<Expr>): (r: (seq<Expr>, seq<Expr>))
    ensures |r.0| == |xs| && |r.1| == |ys|
    decreases |xs|
  {
    if xs == [] then ([], ys)
    else
      var (x, ys1) := Row(op, keep, xs[0], ys);
      var (rest, ys2) := Sweep(op, keep, xs[1..], ys1);
      ([x] + rest, ys2)
  }

  lemma {:induction false} RowAppend(op: Op, keep: bool, x: Expr, a: seq<Expr>, b: seq<Expr>)
    ensures var (x1, a1) := Row(op, keep, x, a);
            var (x2, b1) := Row(op, keep, x1, b);
            Row(op, keep, x, a + b) == (x2, a1 + b1)
    decreases |a|
  {
    if a == [] {
      assert a + b == b;
      var b1 := Row(op, keep, x, b).1;
      assert [] + b1 == b1;
    } else {
      assert (a + b)[1..] == a[1..] + b;
      var (x1, y) := Pair(op, keep, x, a[0]);
      RowAppend(op, keep, x1, a[1..], b);
      var (x2, a1) := Row(op, keep, x1, a[1..]);
      var b1 := Row(op, keep, x2, b).1;
      assert [y] + (a1 + b1) == [y] + a1 + b1;
    }
  }

  lemma {:induction false} SweepAppend(op: Op, keep: bool, a: seq<Expr>, b: seq<Expr>, ys: seq<Expr>)
    ensures var (a1, ys1) := Sweep(op, keep, a, ys);
            var (b1, ys2) := Sweep(op, keep, b, ys1);
            Sweep(op, keep, a + b, ys) == (a1 + b1, ys2)
    decreases |a|
  {
    if a == [] {
      assert a + b == b;
      var b1 := Sweep(op, keep, b, ys).0;
      assert [] + b1 == b1;
    } else {
      assert (a + b)[1..] == a[1..] + b;
      var (x, ys1) := Row(op, keep, a[0], ys);
      SweepAppend(op, keep, a[1..], b, ys1);
      var (a1, ys2) := Sweep(op, keep, a[1..], ys1);
      var b1 := Sweep(op, keep, b, ys2).0;
      assert [x] + (a1 + b1) == [x] + a1 + b1;
    }
  }

  lemma SweepOne(op: Op, keep: bool, x: Expr, ys: seq<Expr>)
    ensures Sweep(op, keep, [x], ys) == ([Row(op, keep, x, ys).0], Row(op, keep, x, ys).1)
  {
    assert [x][1..] == [];
    var (x', ys') := Row(op, keep, x, ys);
    assert [x'] + [] == [x'];
  }

  lemma RowOne(op: Op, keep: bool, x: Expr, y: Expr)
    ensures Row(op, keep, x, [y]) == (Pair(op, keep, x, y).0, [Pair(op, keep, x, y).1])
  {
    assert [y][1..] == [];
    var (x', y') := Pair(op, keep, x, y);
    assert [y'] + [] == [y'];
  }

  /** The elimination of common parts sweeps the operands of both trees. */
  lemma {:induction false} PassSweeps(op: Op, e1: Expr, e2: Expr)
    ensures var r := EliminatePass(op, e1, e2);
            (Leaves(op, r.0), Leaves(op, r.1)) == Sweep(op, true, Leaves(op, e1), Leaves(op, e2))
    decreases Size(e1) + Size(e2)
  {
    hide ExprEq, Sweep, Row;
    if IsOp(op, e1) {
      var (l, x) := EliminatePass(op, e1.left, e2);
      PassSweeps(op, e1.left, e2);
      PassSweeps(op, e1.right, x);
      SweepAppend(op, true, Leaves(op, e1.left), Leaves(op, e1.right), Leaves(op, e2));
    } else if IsOp(op, e2) {
      var (x, l) := EliminatePass(op, e1, e2.left);
      PassSweeps(op, e1, e2.left);
      PassSweeps(op, x, e2.right);
      SweepSplit(op, true, e1, x, Leaves(op, x), Leaves(op, e2.left), Leaves(op, e2.right));
    } else {
      SweepOne(op, true, e1, [e2]);
      RowOne(op, true, e1, e2);
    }
  }

  /** One operand against two rows, one after the other. */
  lemma SweepSplit(op: Op, keep: bool, e: Expr, x: Expr, xs: seq<Expr>, a: seq<Expr>, b: seq<Expr>)
    requires xs == Sweep(op, keep, [e], a).0 && xs == [x]
    ensures Sweep(op, keep, [e], a + b)
            == (Sweep(op, keep, [x], b).0, Sweep(op, keep, [e], a).1 + Sweep(op, keep, [x], b).1)
  {
    SweepOne(op, keep, e, a);
    SweepOne(op, keep, e, a + b);
    SweepOne(op, keep, x, b);
    hide Sweep, Row;
    RowAppend(op, keep, e, a, b);
  }

  /** So does the extraction of common parts, and y and n are moved like all others. */
  lemma {:induction false} ExtractSweeps(op: Op, common: Option<Expr>, e1: Expr, e2: Expr)
    ensures var r := ExtractEq(op, common, e1, e2);
            (Leaves(op, r.rest1), Leaves(op, r.rest2)) == Sweep(op, false, Leaves(op, e1), Leaves(op, e2))
    decreases Size(e1) + Size(e2)
  {
    hide ExprEq, Sweep, Row;
    if IsOp(op, e1) {
      var Extraction(c, l, x) := ExtractEq(op, common, e1.left, e2);
      ExtractSweeps(op, common, e1.left, e2);
      ExtractSweeps(op, c, e1.right, x);
      SweepAppend(op, false, Leaves(op, e1.left), Leaves(op, e1.right), Leaves(op, e2));
    } else if IsOp(op, e2) {
      var Extraction(c, x, l) := ExtractEq(op, common, e1, e2.left);
      ExtractSweeps(op, common, e1, e2.left);
      ExtractSweeps(op, c, x, e2.right);
      SweepSplit(op, false, e1, x, Leaves(op, x), Leaves(op, e2.left), Leaves(op, e2.right));
    } else {
      SweepOne(op, false, e1, [e2]);
      RowOne(op, false, e1, e2);
    }
  }

  /** Equal first operands are extracted. */
  lemma {:induction false} ExtractFirst(op: Op, common: Option<Expr>, e1: Expr, e2: Expr)
    requires ExprEq(Leaves(op, e1)[0], Leaves(op, e2)[0])
    ensures ExtractEq(op, common, e1, e2).common.Some?
    decreases Size(e1) + Size(e2)
  {
    hide ExprEq;
    if IsOp(op, e1) {
      ExtractFirst(op, common, e1.left, e2);
    } else if IsOp(op, e2) {
      ExtractFirst(op, common, e1, e2.left);
    }
  }

  // ----- A row against itself -----

  lemma EqYn(x: Expr, y: Expr)
    requires IsYn(x) || IsYn(y)
    ensures ExprEq(x, y) <==> x == y
  {
  }

  /** What becomes of an operand that has met its like. */
  function Blank(op: Op, keep: bool, x: Expr): Expr {
    if keep && IsYn(x) then x else Sym(IdentityOf(op))
  }

  predicate Blanked(op: Op, keep: bool, x: Expr) {
    x == Blank(op, keep, x)
  }

  function Blanks(op: Op, keep: bool, xs: seq<Expr>): (r: seq<Expr>)
    ensures |r| == |xs|
    ensures forall i :: 0 <= i < |xs| ==> r[i] == Blank(op, keep, xs[i])
  {
    seq(|xs|, i requires 0 <= i < |xs| => Blank(op, keep, xs[i]))
  }

  /** A blank operand has no further effect. */
  lemma {:induction false} RowOfBlank(op: Op, keep: bool, x: Expr, ys: seq<Expr>)
    requires Blanked(op, keep, x)
    ensures Row(op, keep, x, ys) == (x, ys)
    decreases |ys|
  {
    if ys != [] {
      EqYn(x, ys[0]);
      RowOfBlank(op, keep, x, ys[1..]);
      assert [ys[0]] + ys[1..] == ys;
    }
  }

  lemma {:induction false} RowOverBlanks(op: Op, keep: bool, x: Expr, ys: seq<Expr>)
    requires forall i :: 0 <= i < |ys| ==> Blanked(op, keep, ys[i])
    ensures Row(op, keep, x, ys) == (x, ys)
    decreases |ys|
  {
    if ys != [] {
      assert Blanked(op, keep, ys[0]);
      EqYn(x, ys[0]);
      RowOverBlanks(op, keep, x, ys[1..]);
      assert [ys[0]] + ys[1..] == ys;
    }
  }

  /** An operand that meets itself behind blank ones. */
  lemma RowMeetsItself(op: Op, keep: bool, x: Expr, done: seq<Expr>, rest: seq<Expr>)
    requires ExprEq(x, x) && forall i :: 0 <= i < |done| ==> Blanked(op, keep, done[i])
    ensures Row(op, keep, x, done + ([x] + rest)) == (Blank(op, keep, x), done + ([Blank(op, keep, x)] + rest))
  {
    hide Row, ExprEq;
    RowOverBlanks(op, keep, x, done);
    RowAppend(op, keep, x, done, [x] + rest);
    RowAppend(op, keep, x, [x], rest);
    RowOne(op, keep, x, x);
    RowOfBlank(op, keep, Blank(op, keep, x), rest);
  }

  /** A row swept against itself, behind operands that are blank already, is blank. */
  lemma {:induction false} SweepItself(op: Op, keep: bool, done: seq<Expr>, xs: seq<Expr>)
    requires forall i :: 0 <= i < |done| ==> Blanked(op, keep, done[i])
    requires forall i :: 0 <= i < |xs| ==> ExprEq(xs[i], xs[i])
    ensures Sweep(op, keep, xs, done + xs) == (Blanks(op, keep, xs), done + Blanks(op, keep, xs))
    decreases |xs|
  {
    hide ExprEq, Row, Sweep, Blanks, Blank;
    if xs == [] {
      SweepNone(op, keep, done);
    } else {
      var x, rest, b := xs[0], xs[1..], Blank(op, keep, xs[0]);
      var done' := done + [b];
      assert xs == [x] + rest;
      BlanksCons(op, keep, done, x, rest);
      RowMeetsItself(op, keep, x, done, rest);
      SweepCons(op, keep, x, rest, done + xs);
      SweepItself(op, keep, done', rest);
    }
  }

  lemma SweepNone(op: Op, keep: bool, done: seq<Expr>)
    ensures Sweep(op, keep, [], done + []) == (Blanks(op, keep, []), done + Blanks(op, keep, []))
  {
    assert done + [] == done && Blanks(op, keep, []) == [];
  }

  lemma SweepCons(op: Op, keep: bool, x: Expr, rest: seq<Expr>, ys: seq<Expr>)
    ensures var (x1, ys1) := Row(op, keep, x, ys);
            Sweep(op, keep, [x] + rest, ys) == ([x1] + Sweep(op, keep, rest, ys1).0, Sweep(op, keep, rest, ys1).1)
  {
    hide Row;
    assert ([x] + rest)[1..] == rest;
  }

  lemma BlanksCons(op: Op, keep: bool, done: seq<Expr>, x: Expr, rest: seq<Expr>)
    ensures var b := Blank(op, keep, x);
            && Blanked(op, keep, b)
            && Blanks(op, keep, [x] + rest) == [b] + Blanks(op, keep, rest)
            && done + ([b] + rest) == done + [b] + rest
            && done + ([x] + rest) == done + [x] + rest
            && done + [b] + Blanks(op, keep, rest) == done + ([b] + Blanks(op, keep, rest))
  {
    var b := Blank(op, keep, x);
    var all := [x] + rest;
    assert forall i :: 0 < i < |all| ==> all[i] == rest[i - 1];
    assert Blanks(op, keep, all) == [b] + Blanks(op, keep, rest);
  }

  /** A tree of y and n is one of them. */
  lemma {:induction false} YnTree(op: Op, e: Expr)
    requires forall i :: 0 <= i < |Leaves(op, e)| ==> IsYn(Leaves(op, e)[i])
    ensures EliminateYn(e) == Sym(if Sym(AbsorberOf(op)) in Leaves(op, e) then AbsorberOf(op) else IdentityOf(op))
  {
    if IsOp(op, e) {
      var a, b := Leaves(op, e.left), Leaves(op, e.right);
      assert forall i :: 0 <= i < |a| ==> a[i] == Leaves(op, e)[i];
      assert forall i :: 0 <= i < |b| ==> b[i] == Leaves(op, e)[|a| + i];
      YnTree(op, e.left);
      YnTree(op, e.right);
    } else {
      assert Leaves(op, e)[0] == e;
    }
  }

  lemma {:induction false} LeafSmaller(op: Op, e: Expr, i: nat)
    requires IsOp(op, e) && i < |Leaves(op, e)|
    ensures Size(Leaves(op, e)[i]) < Size(e)
  {
    var k := |Leaves(op, e.left)|;
    if i < k {
      if IsOp(op, e.left) { LeafSmaller(op, e.left, i); }
    } else {
      if IsOp(op, e.right) { LeafSmaller(op, e.right, i - k); }
    }
  }

  /** Every expression is equal to itself. */
  lemma {:induction false} ExprEqReflexive(e: Expr)
    ensures ExprEq(e, e)
    decreases Size(e)
  {
    match e
    case Not(a) => ExprEqReflexive(a);
    case Bin(op, _, _) =>
      var ls := Leaves(op, e);
      forall i | 0 <= i < |ls| ensures ExprEq(ls[i], ls[i]) {
        LeafSmaller(op, e, i);
        ExprEqReflexive(ls[i]);
      }
      SelfCancels(op, e);
    case _ =>
  }

  lemma TreesEliminate(op: Op, e1: Expr, e2: Expr)
    requires IsOp(op, e1) && IsOp(op, e2)
    ensures var (a, b) := EliminatePass(op, e1, e2);
            EliminateEq(e1, e2) == (EliminateYn(a), EliminateYn(b))
  {
    hide EliminatePass, EliminateYn;
  }

  lemma BlanksAreYn(op: Op, xs: seq<Expr>)
    ensures forall i :: 0 <= i < |xs| ==> IsYn(Blanks(op, true, xs)[i])
  {
  }

  lemma SelfCancels(op: Op, e: Expr)
    requires IsOp(op, e) && forall i :: 0 <= i < |Leaves(op, e)| ==> ExprEq(Leaves(op, e)[i], Leaves(op, e)[i])
    ensures var (a, b) := EliminateEq(e, e); a.Sym? && a == b
  {
    hide EliminatePass, EliminateEq, Leaves, ExprEq, Sweep, EliminateYn, Blank;
    TreesEliminate(op, e, e);
    var ls := Leaves(op, e);
    BlanksAreYn(op, ls);
    SweepItself(op, true, [], ls);
    assert [] + ls == ls && [] + Blanks(op, true, ls) == Blanks(op, true, ls);
    PassSweeps(op, e, e);
    var (a, b) := EliminatePass(op, e, e);
    YnTree(op, a);
    YnTree(op, b);
  }

  // ----- Rows of symbols, negated symbols and comparisons -----

  predicate Atom(e: Expr) {
    e.Sym? || e.Compare? || (e.Not? && e.arg.Sym?)
  }

  predicate Atoms(xs: seq<Expr>) {
    forall i :: 0 <= i < |xs| ==> Atom(xs[i])
  }

  lemma AtomEq(x: Expr, y: Expr)
    requires Atom(x) && Atom(y)
    ensures ExprEq(x, y) <==> x == y
  {
  }

  function One(x: Expr): multiset<Expr> {
    if IsYn(x) then multiset{} else multiset{x}
  }

  /** The operands other than y and n. */
  function Solid(xs: seq<Expr>): multiset<Expr> {
    if xs == [] then multiset{} else One(xs[0]) + Solid(xs[1..])
  }

  lemma {:induction false} SolidCount(xs: seq<Expr>, x: Expr)
    ensures Solid(xs)[x] == if IsYn(x) then 0 else multiset(xs)[x]
    decreases |xs|
  {
    if xs != [] {
      assert xs == [xs[0]] + xs[1..];
      SolidCount(xs[1..], x);
    }
  }

  lemma SolidIn(xs: seq<Expr>, x: Expr)
    ensures !IsYn(x) ==> (x in xs <==> Solid(xs)[x] > 0)
  {
    SolidCount(xs, x);
    assert x in xs <==> x in multiset(xs);
  }

  lemma SolidCons(x: Expr, xs: seq<Expr>)
    ensures Solid([x] + xs) == One(x) + Solid(xs)
  {
    assert ([x] + xs)[1..] == xs;
  }

  /** y and n are swept only when kept apart; a row without them can do without that. */
  predicate Sweepable(keep: bool, xs: seq<Expr>) {
    Atoms(xs) && (keep || forall i :: 0 <= i < |xs| ==> !IsYn(xs[i]))
  }

  /** An operand without its like in the row changes nothing. */
  lemma {:induction false} RowMisses(op: Op, keep: bool, x: Expr, ys: seq<Expr>)
    requires Atom(x) && Atoms(ys) && (keep || !IsYn(x)) && (IsYn(x) || x !in ys)
    ensures Row(op, keep, x, ys) == (x, ys)
    decreases |ys|
  {
    hide ExprEq;
    if ys != [] {
      assert Atom(ys[0]);
      AtomEq(x, ys[0]);
      RowMisses(op, keep, x, ys[1..]);
      assert [ys[0]] + ys[1..] == ys;
    }
  }

  /** Otherwise both it and the first of its like become the identity. */
  lemma RowFinds(op: Op, keep: bool, x: Expr, ys: seq<Expr>) returns (i: nat)
    requires Atom(x) && Atoms(ys) && !IsYn(x) && x in ys
    ensures i < |ys| && ys[i] == x
    ensures Row(op, keep, x, ys) == (Sym(IdentityOf(op)), ys[i := Sym(IdentityOf(op))])
  {
    i := FirstLike(x, ys);
    var id, a, b := Sym(IdentityOf(op)), ys[..i], ys[i + 1..];
    assert ys == a + ([x] + b) && ys[i := id] == a + ([id] + b);
    hide Row, ExprEq;
    RowMisses(op, keep, x, a);
    RowAppend(op, keep, x, a, [x] + b);
    RowAppend(op, keep, x, [x], b);
    AtomEq(x, x);
    RowOne(op, keep, x, x);
    RowOfBlank(op, keep, id, b);
  }

  lemma FirstLike(x: Expr, ys: seq<Expr>) returns (i: nat)
    requires x in ys
    ensures i < |ys| && ys[i] == x && x !in ys[..i]
  {
    i := 0;
    while ys[i] != x
      invariant i < |ys| && x !in ys[..i]
      decreases |ys| - i
    {
      assert ys[..i + 1] == ys[..i] + [ys[i]];
      assert ys[..|ys|] == ys;
      i := i + 1;
    }
  }

  lemma SolidUpdate(ys: seq<Expr>, i: nat, z: Expr)
    requires i < |ys| && IsYn(z) && !IsYn(ys[i])
    ensures Solid(ys[i := z]) == Solid(ys) - multiset{ys[i]}
  {
    hide Solid;
    var a, b := ys[..i], ys[i + 1..];
    assert ys == a + ([ys[i]] + b) && ys[i := z] == a + ([z] + b);
    SolidAppend(a, [ys[i]] + b);
    SolidAppend(a, [z] + b);
    SolidCons(ys[i], b);
    SolidCons(z, b);
  }

  lemma YnUpdate(ys: seq<Expr>, i: nat, z: Expr, w: Expr)
    requires i < |ys| && w != z && w != ys[i]
    ensures w in ys[i := z] <==> w in ys
  {
    var ys' := ys[i := z];
    if w in ys { var k :| 0 <= k < |ys| && ys[k] == w; assert ys'[k] == w; }
    if w in ys' { var k :| 0 <= k < |ys'| && ys'[k] == w; assert ys[k] == w; }
  }

  lemma CancelOne(x: Expr, rest: multiset<Expr>, ys: multiset<Expr>)
    ensures ys[x] > 0 ==> rest - (ys - multiset{x}) == multiset{x} + rest - ys
                          && ys - multiset{x} - rest == ys - (multiset{x} + rest)
    ensures ys[x] == 0 ==> multiset{x} + (rest - ys) == multiset{x} + rest - ys && ys - rest == ys - (multiset{x} + rest)
  {
  }

  ghost predicate Absorbs(op: Op, xs: seq<Expr>) {
    Sym(AbsorberOf(op)) in xs
  }

  /** Each row without what the other has; absorbing constants stay. */
  ghost predicate Remain(op: Op, xs: seq<Expr>, ys: seq<Expr>, xs': seq<Expr>, ys': seq<Expr>) {
    && Atoms(xs') && Atoms(ys')
    && Solid(xs') == Solid(xs) - Solid(ys) && Solid(ys') == Solid(ys) - Solid(xs)
    && (Absorbs(op, xs') <==> Absorbs(op, xs)) && (Absorbs(op, ys') <==> Absorbs(op, ys))
  }

  /** That is what is left after a sweep. */
  lemma {:induction false} SweepOfAtoms(op: Op, keep: bool, xs: seq<Expr>, ys: seq<Expr>)
    requires Sweepable(keep, xs) && Atoms(ys)
    ensures var (xs', ys') := Sweep(op, keep, xs, ys);
            Remain(op, xs, ys, xs', ys')
    decreases |xs|
  {
    if xs == [] {
      SweepOfNone(op, keep, ys);
    } else {
      var x, rest := xs[0], xs[1..];
      assert xs == [x] + rest && Atom(x) && Sweepable(keep, rest);
      hide ExprEq, Row, Sweep, Remain, RowResult, Atoms, Solid;
      var (x', ys1) := Row(op, keep, x, ys);
      RowOfAtom(op, keep, x, ys);
      SweepCons(op, keep, x, rest, ys);
      RowAtoms(op, x, ys, x', ys1);
      SweepOfAtoms(op, keep, rest, ys1);
      var (rest', ys2) := Sweep(op, keep, rest, ys1);
      RemainCons(op, x, x', rest, rest', ys, ys1, ys2);
    }
  }

  lemma RowAtoms(op: Op, x: Expr, ys: seq<Expr>, x': Expr, ys': seq<Expr>)
    requires RowResult(op, x, ys, x', ys')
    ensures Atoms(ys')
  {
  }

  lemma RemainCons(op: Op, x: Expr, x': Expr, rest: seq<Expr>, rest': seq<Expr>,
                   ys: seq<Expr>, ys1: seq<Expr>, ys2: seq<Expr>)
    requires RowResult(op, x, ys, x', ys1) && Remain(op, rest, ys1, rest', ys2)
    ensures Remain(op, [x] + rest, ys, [x'] + rest', ys2)
  {
    hide Solid, Absorbs, Atoms;
    SolidCons(x, rest);
    SolidCons(x', rest');
    AbsorbsCons(op, x, x', rest, rest');
    AtomsCons(x', rest');
    SolidsCancel(x, x', Solid(rest), Solid(rest'), Solid(ys), Solid(ys1), Solid(ys2));
  }

  lemma AtomsCons(x: Expr, xs: seq<Expr>)
    requires Atom(x) && Atoms(xs)
    ensures Atoms([x] + xs)
  {
  }

  lemma SolidsCancel(x: Expr, x': Expr, rest: multiset<Expr>, rest': multiset<Expr>,
                     ys: multiset<Expr>, ys1: multiset<Expr>, ys2: multiset<Expr>)
    requires IsYn(x) || ys[x] == 0 ==> x' == x && ys1 == ys
    requires !IsYn(x) && ys[x] > 0 ==> IsYn(x') && ys1 == ys - multiset{x}
    requires rest' == rest - ys1 && ys2 == ys1 - rest
    ensures One(x') + rest' == One(x) + rest - ys && ys2 == ys - (One(x) + rest)
  {
    if !IsYn(x) { CancelOne(x, rest, ys); }
  }

  lemma AbsorbsCons(op: Op, x: Expr, x': Expr, xs: seq<Expr>, xs': seq<Expr>)
    requires x == Sym(AbsorberOf(op)) <==> x' == Sym(AbsorberOf(op))
    requires Absorbs(op, xs) <==> Absorbs(op, xs')
    ensures Absorbs(op, [x] + xs) <==> Absorbs(op, [x'] + xs')
  {
  }

  /** What one operand does to a row: it cancels with one of its like, if there is one. */
  ghost predicate RowResult(op: Op, x: Expr, ys: seq<Expr>, x': Expr, ys': seq<Expr>) {
    && Atom(x') && Atoms(ys') && (Absorbs(op, ys') <==> Absorbs(op, ys))
    && (x == Sym(AbsorberOf(op)) <==> x' == Sym(AbsorberOf(op)))
    && (IsYn(x) ==> x' == x && ys' == ys)
    && (!IsYn(x) ==> if Solid(ys)[x] > 0 then IsYn(x') && Solid(ys') == Solid(ys) - multiset{x}
                     else x' == x && ys' == ys)
  }

  lemma RowOfAtom(op: Op, keep: bool, x: Expr, ys: seq<Expr>)
    requires Atom(x) && Atoms(ys) && (keep || !IsYn(x))
    ensures var (x', ys') := Row(op, keep, x, ys);
            RowResult(op, x, ys, x', ys')
  {
    hide Row, Solid;
    SolidIn(ys, x);
    if IsYn(x) || x !in ys {
      RowMisses(op, keep, x, ys);
    } else {
      var i := RowFinds(op, keep, x, ys);
      SolidUpdate(ys, i, Sym(IdentityOf(op)));
      YnUpdate(ys, i, Sym(IdentityOf(op)), Sym(AbsorberOf(op)));
    }
  }

  lemma SweepOfNone(op: Op, keep: bool, ys: seq<Expr>)
    ensures Sweep(op, keep, [], ys) == ([], ys) && Solid([]) == multiset{}
  {
  }

  /** An absorbing constant among the operands decides. */
  lemma {:induction false} AbsorbedTree(op: Op, e: Expr)
    requires Atoms(Leaves(op, e)) && Absorbs(op, Leaves(op, e))
    ensures EliminateYn(e) == Sym(AbsorberOf(op))
  {
    if IsOp(op, e) {
      var a, b := Leaves(op, e.left), Leaves(op, e.right);
      assert forall i :: 0 <= i < |a| ==> a[i] == Leaves(op, e)[i];
      assert forall i :: 0 <= i < |b| ==> b[i] == Leaves(op, e)[|a| + i];
      if Sym(AbsorberOf(op)) in a { AbsorbedTree(op, e.left); }
      if Sym(AbsorberOf(op)) in b { AbsorbedTree(op, e.right); }
    } else {
      assert Leaves(op, e) == [e];
    }
  }

  lemma {:induction false} SolidAppend(a: seq<Expr>, b: seq<Expr>)
    ensures Solid(a + b) == Solid(a) + Solid(b)
    decreases |a|
  {
    if a == [] {
      assert a + b == b;
    } else {
      assert (a + b)[1..] == a[1..] + b;
      SolidAppend(a[1..], b);
    }
  }

  /** Without one, removing y and n leaves exactly the other operands; none is the identity. */
  lemma {:induction false} SolidTree(op: Op, e: Expr)
    requires Atoms(Leaves(op, e)) && !Absorbs(op, Leaves(op, e))
    ensures var r := EliminateYn(e);
            && Solid(Leaves(op, r)) == Solid(Leaves(op, e)) && Sym(AbsorberOf(op)) != r
            && (r == Sym(IdentityOf(op)) <==> Solid(Leaves(op, e)) == multiset{})
  {
    hide Solid;
    if IsOp(op, e) {
      var a, b := Leaves(op, e.left), Leaves(op, e.right);
      assert forall i :: 0 <= i < |a| ==> a[i] == Leaves(op, e)[i];
      assert forall i :: 0 <= i < |b| ==> b[i] == Leaves(op, e)[|a| + i];
      SolidTree(op, e.left);
      SolidTree(op, e.right);
      SolidAppend(a, b);
      var l, r := EliminateYn(e.left), EliminateYn(e.right);
      SolidAppend(Leaves(op, l), Leaves(op, r));
      hide Atoms, Absorbs;
    } else {
      SolidLeaf(op, e);
    }
  }

  lemma SolidLeaf(op: Op, e: Expr)
    requires !IsOp(op, e) && Atoms(Leaves(op, e)) && !Absorbs(op, Leaves(op, e))
    ensures EliminateYn(e) == e && e != Sym(AbsorberOf(op))
    ensures e == Sym(IdentityOf(op)) <==> Solid(Leaves(op, e)) == multiset{}
  {
    assert Leaves(op, e) == [e] && Leaves(op, e)[0] == e;
    SolidCons(e, []);
    assert [e] + [] == [e];
  }

  // ----- The exact answer -----

  /** Two trees of one operator over symbols, negated symbols and comparisons are equal if and
      only if the absorbing constant is in both, or in neither and the other operands except
      the identity are the same, with repetitions and in any order. */
  lemma ExprEqExact(op: Op, e1: Expr, e2: Expr)
    requires IsOp(op, e1) && IsOp(op, e2) && Atoms(Leaves(op, e1)) && Atoms(Leaves(op, e2))
    ensures ExprEq(e1, e2)
            <==> if Absorbs(op, Leaves(op, e1)) then Absorbs(op, Leaves(op, e2))
                 else !Absorbs(op, Leaves(op, e2)) && Solid(Leaves(op, e1)) == Solid(Leaves(op, e2))
  {
    hide EliminatePass, EliminateEq, Leaves, Sweep, Solid, Absorbs, Atoms, EliminateYn, Remain;
    var xs, ys := Leaves(op, e1), Leaves(op, e2);
    TreesEliminate(op, e1, e2);
    SweepableKept(xs);
    PassSweeps(op, e1, e2);
    SweepOfAtoms(op, true, xs, ys);
    var (a, b) := EliminatePass(op, e1, e2);
    RestsDecide(op, xs, ys, a, b);
  }

  lemma SweepableKept(xs: seq<Expr>)
    requires Atoms(xs)
    ensures Sweepable(true, xs)
  {
  }

  lemma RestsDecide(op: Op, xs: seq<Expr>, ys: seq<Expr>, a: Expr, b: Expr)
    requires Remain(op, xs, ys, Leaves(op, a), Leaves(op, b))
    ensures EliminateYn(a).Sym? && EliminateYn(a) == EliminateYn(b)
            <==> if Absorbs(op, xs) then Absorbs(op, ys) else !Absorbs(op, ys) && Solid(xs) == Solid(ys)
  {
    hide EliminateYn, Leaves, Solid, Absorbs;
    if Absorbs(op, xs) { AbsorbedTree(op, a); } else { SolidTree(op, a); }
    if Absorbs(op, ys) { AbsorbedTree(op, b); } else { SolidTree(op, b); }
    if !Absorbs(op, xs) && !Absorbs(op, ys) {
      var l, r := EliminateYn(a), EliminateYn(b);
      if l.Sym? && l == r {
        SymbolRest(op, l, Solid(xs), Solid(ys));
      }
      DifferencesEmpty(Solid(xs), Solid(ys));
    }
  }

  lemma SymbolRest(op: Op, z: Expr, xs: multiset<Expr>, ys: multiset<Expr>)
    requires z.Sym? && Solid(Leaves(op, z)) == xs - ys && Solid(Leaves(op, z)) == ys - xs
    ensures xs - ys == multiset{} && ys - xs == multiset{}
  {
    SolidCons(z, []);
    assert [z] + [] == [z];
    assert (xs - ys)[z] == 0 || (ys - xs)[z] == 0;
  }

  lemma DifferencesEmpty(xs: multiset<Expr>, ys: multiset<Expr>)
    ensures xs - ys == multiset{} && ys - xs == multiset{} <==> xs == ys
  {
    if xs - ys == multiset{} && ys - xs == multiset{} {
      forall z ensures xs[z] == ys[z] {
        assert (xs - ys)[z] == 0 && (ys - xs)[z] == 0;
      }
    }
  }

  /** In particular a tree is equal to every reordering of it. */
  lemma ReorderedEqual(op: Op, e1: Expr, e2: Expr)
    requires IsOp(op, e1) && IsOp(op, e2) && Atoms(Leaves(op, e1))
    requires multiset(Leaves(op, e1)) == multiset(Leaves(op, e2))
    ensures ExprEq(e1, e2)
  {
    hide Leaves, ExprEq, Solid;
    var xs, ys := Leaves(op, e1), Leaves(op, e2);
    forall i | 0 <= i < |ys| ensures Atom(ys[i]) {
      assert ys[i] in multiset(xs);
    }
    assert Absorbs(op, xs) <==> Sym(AbsorberOf(op)) in multiset(xs);
    assert Absorbs(op, ys) <==> Sym(AbsorberOf(op)) in multiset(ys);
    forall z ensures Solid(xs)[z] == Solid(ys)[z] {
      SolidCount(xs, z);
      SolidCount(ys, z);
    }
    ExprEqExact(op, e1, e2);
  }

  /** When at least one side is a tree, nothing is left of the second one if and only if the
      first one has all its operands. Two single operands are not compared. */
  lemma EliminateEqExact(op: Op, e1: Expr, e2: Expr)
    requires Atoms(Leaves(op, e1)) && Atoms(Leaves(op, e2)) && !Absorbs(op, Leaves(op, e2))
    ensures EliminateEq(e1, e2).1 == Sym(IdentityOf(op))
            <==> if IsOp(op, e1) || IsOp(op, e2) then Solid(Leaves(op, e2)) <= Solid(Leaves(op, e1))
                 else e2 == Sym(IdentityOf(op))
  {
    hide EliminatePass, EliminateEq, Leaves, Sweep, Solid, Absorbs, Atoms, EliminateYn;
    OnlyOp(op, e1);
    OnlyOp(op, e2);
    var xs, ys := Leaves(op, e1), Leaves(op, e2);
    var (a, b) := EliminatePass(op, e1, e2);
    PassSweeps(op, e1, e2);
    SweepableKept(xs);
    SweepOfAtoms(op, true, xs, ys);
    SolidTree(op, b);
    OnlyOp(op, b);
    EliminateEqIs(op, e1, e2);
    DifferenceEmpty(Solid(ys), Solid(xs));
  }

  lemma EliminateEqIs(op: Op, e1: Expr, e2: Expr)
    requires IsOp(op, e1) || Atom(e1)
    requires IsOp(op, e2) || Atom(e2)
    requires var b := EliminatePass(op, e1, e2).1; IsOp(op, b) || Atom(b)
    ensures EliminateEq(e1, e2).1
            == if IsOp(op, e1) || IsOp(op, e2) then EliminateYn(EliminatePass(op, e1, e2).1) else EliminateYn(e2)
  {
    hide EliminatePass, EliminateYn;
  }

  /** A tree of atoms is of that operator, or an atom. */
  lemma OnlyOp(op: Op, e: Expr)
    requires Atoms(Leaves(op, e))
    ensures IsOp(op, e) || (Atom(e) && EliminateYn(e) == e)
  {
    if !IsOp(op, e) { assert Leaves(op, e)[0] == e; }
  }

  lemma DifferenceEmpty(xs: multiset<Expr>, ys: multiset<Expr>)
    ensures xs - ys == multiset{} <==> xs <= ys
  {
    if xs - ys == multiset{} {
      forall z ensures xs[z] <= ys[z] { assert (xs - ys)[z] == 0; }
    }
  }

  // ----- What extraction takes out -----

  /** All of a tree can be extracted from itself. */
  lemma ExtractItself(op: Op, e: Expr)
    ensures ExtractEqTop(op, e, e).rest1 == Sym(IdentityOf(op))
  {
    hide ExtractEq, Leaves, Sweep, ExprEq;
    var ls := Leaves(op, e);
    forall i | 0 <= i < |ls| ensures ExprEq(ls[i], ls[i]) { ExprEqReflexive(ls[i]); }
    ExtractFirst(op, None, e, e);
    SweepItself(op, false, [], ls);
    assert [] + ls == ls && [] + Blanks(op, false, ls) == Blanks(op, false, ls);
    ExtractSweeps(op, None, e, e);
    YnTree(op, ExtractEq(op, None, e, e).rest1);
  }

  /** A tree of symbols, negated symbols and comparisons other than y and n is extracted from
      another one if and only if that has all its operands. */
  lemma ExtractExact(op: Op, e1: Expr, e2: Expr)
    requires Sweepable(false, Leaves(op, e1)) && Atoms(Leaves(op, e2))
    ensures ExtractEqTop(op, e1, e2).rest1 == Sym(IdentityOf(op))
            <==> multiset(Leaves(op, e1)) <= multiset(Leaves(op, e2))
  {
    hide ExtractEq, Leaves, Sweep, Solid, ExprEq, Atoms, Absorbs, Sweepable, EliminateYn;
    var xs, ys := Leaves(op, e1), Leaves(op, e2);
    var r := ExtractEq(op, None, e1, e2);
    ExtractSweeps(op, None, e1, e2);
    SweepOfAtoms(op, false, xs, ys);
    SolidRow(op, xs);
    SolidTree(op, r.rest1);
    SolidIncluded(xs, ys);
    hide Remain;
    if r.common.None? {
      assert e1 != Sym(IdentityOf(op)) by { SolidSingle(op, e1); }
    }
  }

  lemma SolidRow(op: Op, xs: seq<Expr>)
    requires Sweepable(false, xs) && xs != []
    ensures !Absorbs(op, xs) && Solid(xs) != multiset{} && forall i :: 0 <= i < |xs| ==> !IsYn(xs[i])
  {
    SolidIn(xs, xs[0]);
  }

  lemma SolidSingle(op: Op, e: Expr)
    requires Sweepable(false, Leaves(op, e))
    ensures e != Sym(IdentityOf(op))
  {
    assert !IsYn(Leaves(op, e)[0]);
  }

  lemma SolidIncluded(xs: seq<Expr>, ys: seq<Expr>)
    requires forall i :: 0 <= i < |xs| ==> !IsYn(xs[i])
    ensures Solid(xs) - Solid(ys) == multiset{} <==> multiset(xs) <= multiset(ys)
  {
    forall z ensures Solid(xs)[z] == multiset(xs)[z] && (!IsYn(z) ==> Solid(ys)[z] == multiset(ys)[z]) {
      SolidCount(xs, z);
      SolidCount(ys, z);
      if IsYn(z) { assert z !in xs && z !in multiset(xs); }
    }
    if Solid(xs) - Solid(ys) == multiset{} {
      forall z ensures multiset(xs)[z] <= multiset(ys)[z] {
        assert (Solid(xs) - Solid(ys))[z] == 0;
      }
    }
  }
}
