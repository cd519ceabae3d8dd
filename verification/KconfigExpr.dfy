// Dependency expressions of Kconfig: the syntax of `struct expr`, symbols as
// the simplifier sees them, and the three-valued meaning of an expression.

module KconfigExpr {
  import opened Common

  /** The three values, in the order the source's enum gives them. */
  datatype Tristate = No | Mod | Yes

  function Rank(t: Tristate): int {
    match t case No => 0 case Mod => 1 case Yes => 2
  }

  function TriMin(a: Tristate, b: Tristate): Tristate {
    if Rank(a) < Rank(b) then a else b
  }

  function TriMax(a: Tristate, b: Tristate): Tristate {
    if Rank(a) > Rank(b) then a else b
  }

  function TriNot(a: Tristate): Tristate {
    match a case No => Yes case Mod => Mod case Yes => No
  }

  function Letter(t: Tristate): string {
    match t case No => "n" case Mod => "m" case Yes => "y"
  }

  datatype Kind = Unknown | Boolean | TristateKind | IntKind | HexKind | StringKind | OtherKind

  /** Names that quoted constants can have: the lookup answers with the three
      predefined symbols for "y", "m" and "n". */
  type ConstName = s: string | s != "y" && s != "m" && s != "n" witness ""

  /** A symbol by identity. Constants are interned, so the name identifies them;
      configuration symbols are told apart by `id`. */
  datatype Symbol =
    | SymNo
    | SymMod
    | SymYes
    | Const(name: ConstName)
    | Config(id: nat, kind: Kind)

  function KindOf(s: Symbol): Kind {
    if s.Config? then s.kind else Unknown
  }

  predicate IsTrit(s: Symbol) {
    s == SymYes || s == SymMod || s == SymNo
  }

  predicate IsConst(s: Symbol) {
    !s.Config?
  }

  datatype Op = And | Or

  datatype Cmp = Equal | Unequal

  datatype Expr =
    | Sym(sym: Symbol)
    | Not(arg: Expr)
    | Bin(op: Op, left: Expr, right: Expr)
    | Compare(cmp: Cmp, lhs: Symbol, rhs: Symbol)

  /** What a symbol evaluates to: its tristate and its string. */
  datatype SymValue = SymValue(tri: Tristate, str: string)

  type Valuation = Symbol -> SymValue

  /** The predefined constants have their own values. */
  ghost predicate FixesConstants(v: Valuation) {
    && v(SymNo) == SymValue(No, "n")
    && v(SymMod) == SymValue(Mod, "m")
    && v(SymYes) == SymValue(Yes, "y")
  }

  /** Valuations that evaluating symbols can produce: a constant is its name, the
      string of a bool or tristate symbol is the letter of its value, and a
      bool symbol is never m. */
  ghost predicate WellFormed(v: Valuation) {
    && FixesConstants(v)
    && (forall n: ConstName :: v(Const(n)) == SymValue(No, n))
    && (forall id: nat :: v(Config(id, Boolean)).tri != Mod
                          && v(Config(id, Boolean)).str == Letter(v(Config(id, Boolean)).tri))
    && (forall id: nat :: v(Config(id, TristateKind)).str == Letter(v(Config(id, TristateKind)).tri))
  }

  function Apply(op: Op, a: Tristate, b: Tristate): Tristate {
    match op case And => TriMin(a, b) case Or => TriMax(a, b)
  }

  function IdentityOf(op: Op): Symbol {
    match op case And => SymYes case Or => SymNo
  }

  function AbsorberOf(op: Op): Symbol {
    match op case And => SymNo case Or => SymYes
  }

  function Dual(op: Op): Op {
    match op case And => Or case Or => And
  }

  function FlipCmp(c: Cmp): Cmp {
    match c case Equal => Unequal case Unequal => Equal
  }

  /** The value of an expression. */
  function Eval(e: Expr, v: Valuation): Tristate {
    match e
    case Sym(s) => v(s).tri
    case Not(a) => TriNot(Eval(a, v))
    case Bin(op, l, r) => Apply(op, Eval(l, v), Eval(r, v))
    case Compare(Equal, l, r) => if v(l).str == v(r).str then Yes else No
    case Compare(Unequal, l, r) => if v(l).str == v(r).str then No else Yes
  }

  /** No symbol of `e` is m. */
  predicate TwoValued(e: Expr, v: Valuation) {
    match e
    case Sym(s) => v(s).tri != Mod
    case Not(a) => TwoValued(a, v)
    case Bin(_, l, r) => TwoValued(l, v) && TwoValued(r, v)
    case Compare(_, _, _) => true
  }

  /** The number of nodes. */
  function Size(e: Expr): (n: nat)
    ensures n >= 1
  {
    match e
    case Sym(_) => 1
    case Compare(_, _, _) => 1
    case Not(a) => 1 + Size(a)
    case Bin(_, l, r) => 1 + Size(l) + Size(r)
  }

  predicate IsOp(op: Op, e: Expr) {
    e.Bin? && e.op == op
  }

  predicate IsYn(e: Expr) {
    e == Sym(SymYes) || e == Sym(SymNo)
  }

  /** Some AND/OR node outside every negation has y or n as a child. */
  predicate HasYn(e: Expr) {
    e.Bin? && (IsYn(e.left) || IsYn(e.right) || HasYn(e.left) || HasYn(e.right))
  }

  /** Removes y and n below AND/OR nodes, from the leaves up. */
  function EliminateYn(e: Expr): (r: Expr)
    ensures Size(r) <= Size(e)
    ensures HasYn(e) ==> Size(r) < Size(e)
    ensures !HasYn(r)
  {
    match e
    case Bin(op, left, right) =>
      var l, r := EliminateYn(left), EliminateYn(right);
      if l == Sym(AbsorberOf(op)) then l
      else if l == Sym(IdentityOf(op)) then r
      else if r == Sym(AbsorberOf(op)) then r
      else if r == Sym(IdentityOf(op)) then l
      else Bin(op, l, r)
    case _ => e
  }

  lemma {:induction false} EliminateYnKeepsValue(e: Expr, v: Valuation)
    requires FixesConstants(v)
    ensures Eval(EliminateYn(e), v) == Eval(e, v)
  {
    if e.Bin? {
      EliminateYnKeepsValue(e.left, v);
      EliminateYnKeepsValue(e.right, v);
    }
  }

  lemma {:induction false} EliminateYnWithoutYn(e: Expr)
    requires !HasYn(e)
    ensures EliminateYn(e) == e
  {
    if e.Bin? {
      EliminateYnWithoutYn(e.left);
      EliminateYnWithoutYn(e.right);
    }
  }
}
