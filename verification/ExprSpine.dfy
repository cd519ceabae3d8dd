// The operands of a nested AND (or OR) as a row of slots. The pairwise passes walk one
// tree through two aliased pointers; what they rewrite are exactly these slots, and
// two pointers to one node are one slot.

module ExprSpine {
  import opened KconfigExpr

  /** The operands of the `op` nodes at the top of `e`, left to right. */
  function Leaves(op: Op, e: Expr): (ls: seq<Expr>)
    ensures |ls| >= 1
    ensures forall k :: 0 <= k < |ls| ==> !IsOp(op, ls[k])
    ensures !IsOp(op, e) ==> ls == [e]
    ensures IsOp(op, e) ==> |ls| >= 2
  {
    if IsOp(op, e) then Leaves(op, e.left) + Leaves(op, e.right) else [e]
  }

  /** `shape` with its operands replaced by `ls`. */
  function Rebuild(op: Op, shape: Expr, ls: seq<Expr>): (e: Expr)
    requires |ls| == |Leaves(op, shape)|
    ensures IsOp(op, shape) ==> IsOp(op, e)
    ensures !IsOp(op, shape) ==> e == ls[0]
  {
    if IsOp(op, shape) then
      var k := |Leaves(op, shape.left)|;
      Bin(op, Rebuild(op, shape.left, ls[..k]), Rebuild(op, shape.right, ls[k..]))
    else ls[0]
  }

  lemma {:induction false} RebuildLeaves(op: Op, e: Expr)
    ensures Rebuild(op, e, Leaves(op, e)) == e
  {
    if IsOp(op, e) {
      RebuildLeaves(op, e.left);
      RebuildLeaves(op, e.right);
      var k := |Leaves(op, e.left)|;
      assert Leaves(op, e)[..k] == Leaves(op, e.left) && Leaves(op, e)[k..] == Leaves(op, e.right);
    }
  }

  function Total(ls: seq<Expr>): nat {
    if ls == [] then 0 else Size(ls[0]) + Total(ls[1..])
  }

  lemma {:induction false} TotalAppend(a: seq<Expr>, b: seq<Expr>)
    ensures Total(a + b) == Total(a) + Total(b)
  {
    if a == [] {
      assert a + b == b;
    } else {
      TotalAppend(a[1..], b);
      assert (a + b)[1..] == a[1..] + b;
    }
  }

  lemma {:induction false} TotalUpdate(ls: seq<Expr>, i: nat, x: Expr)
    requires i < |ls|
    ensures Total(ls[i := x]) == Total(ls) - Size(ls[i]) + Size(x)
    ensures Size(ls[i]) <= Total(ls)
  {
    if i > 0 {
      TotalUpdate(ls[1..], i - 1, x);
      assert ls[i := x][1..] == ls[1..][i - 1 := x];
    }
  }

  lemma {:induction false} RebuildSize(op: Op, shape: Expr, ls: seq<Expr>)
    requires |ls| == |Leaves(op, shape)|
    ensures Size(Rebuild(op, shape, ls)) == Total(ls) + |ls| - 1
  {
    if IsOp(op, shape) {
      var k := |Leaves(op, shape.left)|;
      RebuildSize(op, shape.left, ls[..k]);
      RebuildSize(op, shape.right, ls[k..]);
      TotalAppend(ls[..k], ls[k..]);
      assert ls[..k] + ls[k..] == ls;
    }
  }

  lemma LeavesSize(op: Op, e: Expr)
    ensures Size(e) == Total(Leaves(op, e)) + |Leaves(op, e)| - 1
  {
    RebuildLeaves(op, e);
    RebuildSize(op, e, Leaves(op, e));
  }

  function Unit(op: Op): Tristate {
    match op case And => Yes case Or => No
  }

  /** The value of a row of operands. */
  function Fold(op: Op, ls: seq<Expr>, v: Valuation): Tristate {
    if ls == [] then Unit(op) else Apply(op, Eval(ls[0], v), Fold(op, ls[1..], v))
  }

  lemma {:induction false} FoldAppend(op: Op, a: seq<Expr>, b: seq<Expr>, v: Valuation)
    ensures Fold(op, a + b, v) == Apply(op, Fold(op, a, v), Fold(op, b, v))
  {
    if a == [] {
      assert a + b == b;
    } else {
      FoldAppend(op, a[1..], b, v);
      assert (a + b)[1..] == a[1..] + b;
    }
  }

  lemma {:induction false} RebuildValue(op: Op, shape: Expr, ls: seq<Expr>, v: Valuation)
    requires |ls| == |Leaves(op, shape)|
    ensures Eval(Rebuild(op, shape, ls), v) == Fold(op, ls, v)
  {
    if IsOp(op, shape) {
      var k := |Leaves(op, shape.left)|;
      RebuildValue(op, shape.left, ls[..k], v);
      RebuildValue(op, shape.right, ls[k..], v);
      FoldAppend(op, ls[..k], ls[k..], v);
      assert ls[..k] + ls[k..] == ls;
    }
  }

  lemma LeavesValue(op: Op, e: Expr, v: Valuation)
    ensures Eval(e, v) == Fold(op, Leaves(op, e), v)
  {
    RebuildLeaves(op, e);
    RebuildValue(op, e, Leaves(op, e), v);
  }

  /** One slot can be taken out of the row, leaving the identity behind. */
  lemma {:induction false} FoldPull(op: Op, ls: seq<Expr>, i: nat, v: Valuation)
    requires FixesConstants(v)
    requires i < |ls|
    ensures Fold(op, ls, v) == Apply(op, Eval(ls[i], v), Fold(op, ls[i := Sym(IdentityOf(op))], v))
  {
    var out := ls[i := Sym(IdentityOf(op))];
    if i > 0 {
      FoldPull(op, ls[1..], i - 1, v);
      assert out[1..] == ls[1..][i - 1 := Sym(IdentityOf(op))];
    }
  }

  /** A part of the row adds nothing to the whole row. */
  lemma FoldAbsorbsPart(op: Op, ls: seq<Expr>, lo: nat, hi: nat, v: Valuation)
    requires lo <= hi <= |ls|
    ensures Apply(op, Fold(op, ls, v), Fold(op, ls[lo..hi], v)) == Fold(op, ls, v)
  {
    assert ls == ls[..lo] + (ls[lo..hi] + ls[hi..]);
    FoldAppend(op, ls[lo..hi], ls[hi..], v);
    FoldAppend(op, ls[..lo], ls[lo..hi] + ls[hi..], v);
  }

  /** y or n stands somewhere an elimination of y and n would find it. */
  predicate YnIn(e: Expr) {
    IsYn(e) || HasYn(e)
  }

  predicate AnyYn(ls: seq<Expr>) {
    exists k :: 0 <= k < |ls| && YnIn(ls[k])
  }

  lemma {:induction false} RebuildYn(op: Op, shape: Expr, ls: seq<Expr>)
    requires |ls| == |Leaves(op, shape)|
    ensures YnIn(Rebuild(op, shape, ls)) <==> AnyYn(ls)
  {
    if IsOp(op, shape) {
      var k := |Leaves(op, shape.left)|;
      var a, b := ls[..k], ls[k..];
      RebuildYn(op, shape.left, a);
      RebuildYn(op, shape.right, b);
      assert forall i :: 0 <= i < |b| ==> b[i] == ls[k + i];
      if AnyYn(ls) {
        var i :| 0 <= i < |ls| && YnIn(ls[i]);
        assert if i < k then YnIn(a[i]) else YnIn(b[i - k]);
      }
    } else {
      assert YnIn(ls[0]) ==> AnyYn(ls);
    }
  }
}
