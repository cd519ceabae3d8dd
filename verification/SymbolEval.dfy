// Values of bool and tristate symbols: the defining equations, their unique solution by
// recursion along the dependencies, and the memoising evaluator that fills a table.

module SymbolEval {
  import opened Common
  import opened KconfigExpr
  import opened ExprJoin

  /** A default: the value and the condition under which it is taken. */
  datatype Default = Default(value: Expr, cond: Option<Expr>)

  /** What is declared about a symbol: conditions of its prompts, direct dependency, what
      selects it, and its defaults in order. */
  datatype Definition = Definition(prompts: seq<Option<Expr>>, dirDep: Option<Expr>, revDep: Option<Expr>,
                                   defaults: seq<Default>)

  /** All declarations, the values the user set, whether modules are enabled, and the
      symbols of other kinds with their values. `rank` orders symbols by dependency. */
  datatype Setup = Setup(defs: Symbol -> Definition, user: map<Symbol, Tristate>, modules: Tristate,
                         rank: Symbol -> nat, other: Symbol -> SymValue)

  /** Every bool or tristate symbol in `e` ranks below `r`. */
  predicate Below(c: Setup, e: Expr, r: nat) {
    match e
    case Sym(s) => SymBelow(c, s, r)
    case Not(a) => Below(c, a, r)
    case Bin(_, l, h) => Below(c, l, r) && Below(c, h, r)
    case Compare(_, l, h) => SymBelow(c, l, r) && SymBelow(c, h, r)
  }

  predicate SymBelow(c: Setup, s: Symbol, r: nat) {
    IsLogical(s) ==> c.rank(s) < r
  }

  predicate BelowOpt(c: Setup, e: Option<Expr>, r: nat) {
    e.Some? ==> Below(c, e.value, r)
  }

  predicate DefBelow(c: Setup, d: Definition, r: nat) {
    && (forall i :: 0 <= i < |d.prompts| ==> BelowOpt(c, d.prompts[i], r))
    && BelowOpt(c, d.dirDep, r)
    && BelowOpt(c, d.revDep, r)
    && (forall i :: 0 <= i < |d.defaults| ==> Below(c, d.defaults[i].value, r) && BelowOpt(c, d.defaults[i].cond, r))
  }

  /** No symbol depends on itself. */
  ghost predicate Acyclic(c: Setup) {
    forall s :: IsLogical(s) ==> DefBelow(c, c.defs(s), c.rank(s))
  }

  // ----- The defining equations, over any valuation of the other symbols -----

  function EvalOpt(e: Option<Expr>, v: Valuation): Tristate {
    if e.Some? then Eval(e.value, v) else Yes
  }

  /** Without modules a tristate symbol counts as bool. */
  function EffectiveKind(c: Setup, s: Symbol): Kind {
    if KindOf(s) == TristateKind && c.modules == No then Boolean else KindOf(s)
  }

  function AnyPrompt(ps: seq<Option<Expr>>, v: Valuation): Tristate {
    if ps == [] then No else TriMax(EvalOpt(ps[0], v), AnyPrompt(ps[1..], v))
  }

  function Visibility(c: Setup, s: Symbol, v: Valuation): Tristate {
    var t := AnyPrompt(c.defs(s).prompts, v);
    if t == Mod && (KindOf(s) != TristateKind || c.modules == No) then Yes else t
  }

  function Selected(c: Setup, s: Symbol, v: Valuation): Tristate {
    var t := if c.defs(s).revDep.Some? then Eval(c.defs(s).revDep.value, v) else No;
    if t == Mod && EffectiveKind(c, s) == Boolean then Yes else t
  }

  /** The first default whose condition is not n, limited by the condition. */
  function DefaultValue(ds: seq<Default>, v: Valuation): Tristate {
    if ds == [] then No
    else
      var cond := EvalOpt(ds[0].cond, v);
      if cond != No then TriMin(Eval(ds[0].value, v), cond) else DefaultValue(ds[1..], v)
  }

  function Defined(c: Setup, s: Symbol, v: Valuation): Tristate {
    var vis := Visibility(c, s, v);
    var own := if vis != No && s in c.user then TriMin(c.user[s], vis) else DefaultValue(c.defs(s).defaults, v);
    var t := TriMax(own, Selected(c, s, v));
    if t == Mod && EffectiveKind(c, s) == Boolean then Yes else t
  }

  /** The string of a bool or tristate symbol. */
  function StringOf(c: Setup, t: Tristate): string {
    if t == Mod && c.modules == No then "n" else Letter(t)
  }

  function FixedValue(c: Setup, s: Symbol): SymValue {
    match s
    case SymNo => SymValue(No, "n")
    case SymMod => SymValue(Mod, "m")
    case SymYes => SymValue(Yes, "y")
    case Const(n) => SymValue(No, n)
    case Config(_, _) => c.other(s)
  }

  ghost predicate Solves(c: Setup, v: Valuation) {
    && (forall s :: IsLogical(s) ==> v(s) == SymValue(Defined(c, s, v), StringOf(c, Defined(c, s, v))))
    && (forall s :: !IsLogical(s) ==> v(s) == FixedValue(c, s))
  }

  // ----- Locality: what a value depends on -----

  ghost predicate AgreeBelow(c: Setup, v: Valuation, w: Valuation, r: nat) {
    && (forall s :: IsLogical(s) && c.rank(s) < r ==> v(s) == w(s))
    && (forall s :: !IsLogical(s) ==> v(s) == w(s))
  }

  lemma {:induction false} EvalLocal(c: Setup, e: Expr, v: Valuation, w: Valuation, r: nat)
    requires Below(c, e, r) && AgreeBelow(c, v, w, r)
    ensures Eval(e, v) == Eval(e, w)
  {
    match e
    case Not(a) => EvalLocal(c, a, v, w, r);
    case Bin(_, l, h) => EvalLocal(c, l, v, w, r); EvalLocal(c, h, v, w, r);
    case _ =>
  }

  lemma EvalOptLocal(c: Setup, e: Option<Expr>, v: Valuation, w: Valuation, r: nat)
    requires BelowOpt(c, e, r) && AgreeBelow(c, v, w, r)
    ensures EvalOpt(e, v) == EvalOpt(e, w)
  {
    if e.Some? { EvalLocal(c, e.value, v, w, r); }
  }

  lemma {:induction false} PromptsLocal(c: Setup, ps: seq<Option<Expr>>, v: Valuation, w: Valuation, r: nat)
    requires (forall i :: 0 <= i < |ps| ==> BelowOpt(c, ps[i], r)) && AgreeBelow(c, v, w, r)
    ensures AnyPrompt(ps, v) == AnyPrompt(ps, w)
  {
    if ps != [] {
      EvalOptLocal(c, ps[0], v, w, r);
      PromptsLocal(c, ps[1..], v, w, r);
    }
  }

  lemma {:induction false} DefaultsLocal(c: Setup, ds: seq<Default>, v: Valuation, w: Valuation, r: nat)
    requires AgreeBelow(c, v, w, r)
    requires forall i :: 0 <= i < |ds| ==> Below(c, ds[i].value, r) && BelowOpt(c, ds[i].cond, r)
    ensures DefaultValue(ds, v) == DefaultValue(ds, w)
  {
    if ds != [] {
      EvalOptLocal(c, ds[0].cond, v, w, r);
      EvalLocal(c, ds[0].value, v, w, r);
      DefaultsLocal(c, ds[1..], v, w, r);
    }
  }

  /** Visibility, selection and value of a symbol depend only on lower-ranked symbols. */
  lemma DefinedLocal(c: Setup, s: Symbol, v: Valuation, w: Valuation)
    requires Acyclic(c) && IsLogical(s) && AgreeBelow(c, v, w, c.rank(s))
    ensures Visibility(c, s, v) == Visibility(c, s, w)
    ensures Selected(c, s, v) == Selected(c, s, w)
    ensures Defined(c, s, v) == Defined(c, s, w)
  {
    var d, r := c.defs(s), c.rank(s);
    assert DefBelow(c, d, r);
    PromptsLocal(c, d.prompts, v, w, r);
    if d.revDep.Some? { EvalLocal(c, d.revDep.value, v, w, r); }
    DefaultsLocal(c, d.defaults, v, w, r);
  }

  // ----- The solution by plain recursion -----

  /** The valuation that is right for symbols ranked below `r`; the others count as n. */
  ghost function Stage(c: Setup, r: nat): Valuation
  {
    if r == 0 then s => if IsLogical(s) then SymValue(No, "n") else FixedValue(c, s)
    else
      var v := Stage(c, r - 1);
      s =>
        if IsLogical(s) && c.rank(s) == r - 1 then SymValue(Defined(c, s, v), StringOf(c, Defined(c, s, v))) else v(s)
  }

  /** The value of a symbol: computed from the stage below it. */
  ghost function ValueOf(c: Setup, s: Symbol): SymValue {
    if IsLogical(s) then
      var t := Defined(c, s, Stage(c, c.rank(s)));
      SymValue(t, StringOf(c, t))
    else FixedValue(c, s)
  }

  ghost function Solution(c: Setup): Valuation {
    s => ValueOf(c, s)
  }

  lemma {:induction false} StageAgrees(c: Setup, r: nat)
    ensures AgreeBelow(c, Stage(c, r), Solution(c), r)
  {
    if r > 0 {
      StageAgrees(c, r - 1);
      forall s | IsLogical(s) && c.rank(s) < r ensures Stage(c, r)(s) == Solution(c)(s) {
        if c.rank(s) < r - 1 { assert Stage(c, r - 1)(s) == Solution(c)(s); }
      }
      forall s | !IsLogical(s) ensures Stage(c, r)(s) == Solution(c)(s) {
        assert Stage(c, r - 1)(s) == Solution(c)(s);
      }
    }
  }

  /** Plain recursion solves the defining equations. */
  lemma SolutionSolves(c: Setup)
    requires Acyclic(c)
    ensures Solves(c, Solution(c))
  {
    forall s | IsLogical(s)
      ensures Solution(c)(s) == SymValue(Defined(c, s, Solution(c)), StringOf(c, Defined(c, s, Solution(c))))
    {
      StageAgrees(c, c.rank(s));
      DefinedLocal(c, s, Stage(c, c.rank(s)), Solution(c));
    }
  }

  /** They have no other solution. */
  lemma {:induction false} SolutionUnique(c: Setup, v: Valuation, r: nat)
    requires Acyclic(c) && Solves(c, v)
    ensures AgreeBelow(c, v, Solution(c), r)
    decreases r
  {
    if r > 0 {
      SolutionUnique(c, v, r - 1);
      SolutionSolves(c);
      forall s | IsLogical(s) && c.rank(s) < r ensures v(s) == Solution(c)(s) {
        if c.rank(s) == r - 1 { DefinedLocal(c, s, v, Solution(c)); }
      }
    }
  }

  /** The values that symbols get are well formed: what the simplifier of expressions
      assumes of a valuation holds of every evaluation. */
  lemma SolutionWellFormed(c: Setup)
    requires Acyclic(c)
    ensures WellFormed(Solution(c))
  {
    SolutionSolves(c);
    var v := Solution(c);
    forall id: nat
      ensures v(Config(id, Boolean)).tri != Mod && v(Config(id, Boolean)).str == Letter(v(Config(id, Boolean)).tri)
    {
      assert IsLogical(Config(id, Boolean));
    }
    forall id: nat ensures v(Config(id, TristateKind)).str == Letter(v(Config(id, TristateKind)).tri) {
      assert IsLogical(Config(id, TristateKind));
    }
    forall n: ConstName ensures v(Const(n)) == SymValue(No, n) {
      assert !IsLogical(Const(n));
    }
  }

  // ----- What a value is, case by case -----

  /** m counts as y for a symbol that can only be n or y. */
  function Promoted(c: Setup, s: Symbol, t: Tristate): Tristate {
    if t == Mod && EffectiveKind(c, s) == Boolean then Yes else t
  }

  /** What the selecting expression makes of the symbol at least. */
  function SelectedTo(c: Setup, s: Symbol, v: Valuation): Tristate {
    if c.defs(s).revDep.None? then No else Promoted(c, s, Eval(c.defs(s).revDep.value, v))
  }

  /** Default `i` is the first whose condition is not n. */
  ghost predicate FirstDefault(ds: seq<Default>, v: Valuation, i: nat) {
    && i < |ds| && EvalOpt(ds[i].cond, v) != No
    && forall j :: 0 <= j < i ==> EvalOpt(ds[j].cond, v) == No
  }

  ghost predicate NoDefault(ds: seq<Default>, v: Valuation) {
    forall j :: 0 <= j < |ds| ==> EvalOpt(ds[j].cond, v) == No
  }

  lemma {:induction false} DefaultTaken(ds: seq<Default>, v: Valuation, i: nat)
    requires FirstDefault(ds, v, i)
    ensures DefaultValue(ds, v) == TriMin(Eval(ds[i].value, v), EvalOpt(ds[i].cond, v))
    decreases i
  {
    if i > 0 {
      assert EvalOpt(ds[0].cond, v) == No;
      DefaultTaken(ds[1..], v, i - 1);
    }
  }

  lemma {:induction false} DefaultMissing(ds: seq<Default>, v: Valuation)
    requires NoDefault(ds, v)
    ensures DefaultValue(ds, v) == No
  {
    if ds != [] {
      assert EvalOpt(ds[0].cond, v) == No;
      DefaultMissing(ds[1..], v);
    }
  }

  /** The prompt with the largest condition decides. */
  lemma {:induction false} PromptsExact(ps: seq<Option<Expr>>, v: Valuation)
    ensures forall i :: 0 <= i < |ps| ==> Rank(EvalOpt(ps[i], v)) <= Rank(AnyPrompt(ps, v))
    ensures AnyPrompt(ps, v) == No || exists i :: 0 <= i < |ps| && EvalOpt(ps[i], v) == AnyPrompt(ps, v)
    decreases |ps|
  {
    if ps != [] {
      var rest := ps[1..];
      PromptsExact(rest, v);
      assert forall i :: 0 <= i < |rest| ==> rest[i] == ps[i + 1];
      forall i | 0 <= i < |ps| ensures Rank(EvalOpt(ps[i], v)) <= Rank(AnyPrompt(ps, v)) {
        if i > 0 { assert Rank(EvalOpt(rest[i - 1], v)) <= Rank(AnyPrompt(rest, v)); }
      }
      if AnyPrompt(ps, v) != EvalOpt(ps[0], v) && AnyPrompt(ps, v) != No {
        var i :| 0 <= i < |rest| && EvalOpt(rest[i], v) == AnyPrompt(rest, v);
        assert EvalOpt(ps[i + 1], v) == AnyPrompt(ps, v);
      }
    }
  }

  /** A prompt of the symbol has the condition `t`. */
  ghost predicate PromptedAs(c: Setup, s: Symbol, v: Valuation, t: Tristate) {
    exists i :: 0 <= i < |c.defs(s).prompts| && EvalOpt(c.defs(s).prompts[i], v) == t
  }

  /** A symbol is visible as its best prompt says; m counts as y unless it is a tristate symbol
      and there are modules. */
  lemma VisibilityExact(c: Setup, s: Symbol, v: Valuation)
    ensures var halves := KindOf(s) == TristateKind && c.modules != No;
            && (Visibility(c, s, v) == No <==> !PromptedAs(c, s, v, Mod) && !PromptedAs(c, s, v, Yes))
            && (Visibility(c, s, v) == Yes
                <==> PromptedAs(c, s, v, Yes) || (PromptedAs(c, s, v, Mod) && !halves))
  {
    hide AnyPrompt;
    PromptsExact(c.defs(s).prompts, v);
  }

  /** In every solution: a visible symbol with a value of the user is that value, limited by the
      visibility, but at least what it is selected to. */
  lemma ValueOfUser(c: Setup, v: Valuation, s: Symbol)
    requires Solves(c, v) && IsLogical(s) && s in c.user && Visibility(c, s, v) != No
    ensures v(s).tri == Promoted(c, s, TriMax(TriMin(c.user[s], Visibility(c, s, v)), SelectedTo(c, s, v)))
  {
    hide Visibility, DefaultValue;
  }

  /** Without one, or when it is invisible, it is the first default whose condition is not n,
      limited by that condition, but at least what it is selected to. */
  lemma ValueOfDefault(c: Setup, v: Valuation, s: Symbol, i: nat)
    requires Solves(c, v) && IsLogical(s) && (s !in c.user || Visibility(c, s, v) == No)
    requires FirstDefault(c.defs(s).defaults, v, i)
    ensures var d := c.defs(s).defaults[i];
            v(s).tri == Promoted(c, s, TriMax(TriMin(Eval(d.value, v), EvalOpt(d.cond, v)), SelectedTo(c, s, v)))
  {
    hide Visibility, DefaultValue;
    DefaultTaken(c.defs(s).defaults, v, i);
  }

  /** And without such a default it is what it is selected to. */
  lemma ValueOfSelection(c: Setup, v: Valuation, s: Symbol)
    requires Solves(c, v) && IsLogical(s) && (s !in c.user || Visibility(c, s, v) == No)
    requires NoDefault(c.defs(s).defaults, v)
    ensures v(s).tri == SelectedTo(c, s, v)
  {
    hide Visibility, DefaultValue;
    DefaultMissing(c.defs(s).defaults, v);
  }

  /** A value above the selection is within the visibility, or within the condition of the
      default that it comes from. */
  lemma ValueIsLimited(c: Setup, v: Valuation, s: Symbol)
    requires Solves(c, v) && IsLogical(s) && Rank(v(s).tri) > Rank(SelectedTo(c, s, v))
    ensures || (s in c.user && Rank(v(s).tri) <= Rank(Visibility(c, s, v)))
            || exists i: nat :: FirstDefault(c.defs(s).defaults, v, i)
                                && Rank(v(s).tri) <= Rank(Promoted(c, s, EvalOpt(c.defs(s).defaults[i].cond, v)))
  {
    hide AnyPrompt, DefaultValue;
    var ds := c.defs(s).defaults;
    if s in c.user && Visibility(c, s, v) != No {
      ValueOfUser(c, v, s);
    } else {
      if NoDefault(ds, v) { ValueOfSelection(c, v, s); }
      var i := FirstOf(ds, v);
      ValueOfDefault(c, v, s, i);
    }
  }

  lemma {:induction false} FirstOf(ds: seq<Default>, v: Valuation) returns (i: nat)
    requires !NoDefault(ds, v)
    ensures FirstDefault(ds, v, i)
    decreases |ds|
  {
    if EvalOpt(ds[0].cond, v) != No { return 0; }
    var rest := ds[1..];
    assert forall j :: 0 <= j < |rest| ==> rest[j] == ds[j + 1];
    i := FirstOf(rest, v);
    i := i + 1;
  }

  // ----- Setting a value -----

  predicate WithinRange(kind: Kind, visible: Tristate, selected: Tristate, t: Tristate) {
    && visible != No
    && (kind == Boolean || kind == TristateKind)
    && !(kind == Boolean && t == Mod)
    && !(Rank(visible) <= Rank(selected))
    && Rank(t) >= Rank(selected) && Rank(t) <= Rank(visible)
  }

  lemma DefinedIgnoresOthers(c: Setup, u: Symbol, s: Symbol, t: Tristate, v: Valuation)
    requires u != s
    ensures var c' := c.(user := c.user[s := t]);
            Defined(c', u, v) == Defined(c, u, v) && StringOf(c', Defined(c, u, v)) == StringOf(c, Defined(c, u, v))
  {
  }

  /** Setting a value changes no lower-ranked symbol. */
  lemma {:induction false} SetLeavesLower(c: Setup, s: Symbol, t: Tristate, r: nat)
    requires Acyclic(c) && IsLogical(s) && r <= c.rank(s)
    ensures Acyclic(c.(user := c.user[s := t]))
    ensures AgreeBelow(c, Solution(c), Solution(c.(user := c.user[s := t])), r)
    decreases r
  {
    hide Defined, Visibility, Selected, Acyclic, Stage;
    var c' := c.(user := c.user[s := t]);
    SetKeepsAcyclic(c, c.user[s := t]);
    if r > 0 {
      SetLeavesLower(c, s, t, r - 1);
      SolutionSolves(c);
      SolutionSolves(c');
      forall u | IsLogical(u) && c.rank(u) < r ensures Solution(c)(u) == Solution(c')(u) {
        if c.rank(u) == r - 1 {
          DefinedLocal(c, u, Solution(c), Solution(c'));
          DefinedIgnoresOthers(c, u, s, t, Solution(c'));
        }
      }
    }
  }

  lemma {:induction false} BelowSame(c: Setup, c': Setup, e: Expr, r: nat)
    requires c'.rank == c.rank && Below(c, e, r)
    ensures Below(c', e, r)
  {
    match e
    case Not(a) => BelowSame(c, c', a, r);
    case Bin(_, l, h) => BelowSame(c, c', l, r); BelowSame(c, c', h, r);
    case _ =>
  }

  lemma SetKeepsAcyclic(c: Setup, user: map<Symbol, Tristate>)
    requires Acyclic(c)
    ensures Acyclic(c.(user := user))
  {
    var c' := c.(user := user);
    forall s | IsLogical(s) ensures DefBelow(c', c'.defs(s), c'.rank(s)) {
      var d, r := c.defs(s), c.rank(s);
      assert DefBelow(c, d, r);
      forall i | 0 <= i < |d.prompts| ensures BelowOpt(c', d.prompts[i], r) {
        if d.prompts[i].Some? { BelowSame(c, c', d.prompts[i].value, r); }
      }
      if d.dirDep.Some? { BelowSame(c, c', d.dirDep.value, r); }
      if d.revDep.Some? { BelowSame(c, c', d.revDep.value, r); }
      forall i | 0 <= i < |d.defaults|
        ensures Below(c', d.defaults[i].value, r) && BelowOpt(c', d.defaults[i].cond, r)
      {
        BelowSame(c, c', d.defaults[i].value, r);
        if d.defaults[i].cond.Some? { BelowSame(c, c', d.defaults[i].cond.value, r); }
      }
    }
  }

  // ----- What an evaluation looks at -----

  predicate SymKnown(s: Symbol, known: set<Symbol>) {
    IsLogical(s) ==> s in known
  }

  /** Every bool or tristate symbol in `e` is in `known`. */
  predicate Known(e: Expr, known: set<Symbol>) {
    match e
    case Sym(s) => SymKnown(s, known)
    case Not(a) => Known(a, known)
    case Bin(_, l, h) => Known(l, known) && Known(h, known)
    case Compare(_, l, h) => SymKnown(l, known) && SymKnown(h, known)
  }

  predicate KnownOpt(e: Option<Expr>, known: set<Symbol>) {
    e.Some? ==> Known(e.value, known)
  }

  predicate PromptsKnown(ps: seq<Option<Expr>>, known: set<Symbol>) {
    forall i :: 0 <= i < |ps| ==> KnownOpt(ps[i], known)
  }

  /** The conditions up to the first that is not n, and the value behind that one. */
  predicate DefaultsKnown(ds: seq<Default>, v: Valuation, known: set<Symbol>) {
    ds == []
    || (KnownOpt(ds[0].cond, known)
        && if EvalOpt(ds[0].cond, v) != No then Known(ds[0].value, known) else DefaultsKnown(ds[1..], v, known))
  }

  /** All that the value of `s` is computed from is in `known`. */
  predicate UsesKnown(c: Setup, s: Symbol, v: Valuation, known: set<Symbol>) {
    && PromptsKnown(c.defs(s).prompts, known)
    && KnownOpt(c.defs(s).revDep, known)
    && ((Visibility(c, s, v) != No && s in c.user) || DefaultsKnown(c.defs(s).defaults, v, known))
  }

  lemma {:induction false} KnownGrows(e: Expr, known: set<Symbol>, more: set<Symbol>)
    requires Known(e, known) && known <= more
    ensures Known(e, more)
  {
    match e
    case Not(a) => KnownGrows(a, known, more);
    case Bin(_, l, h) => KnownGrows(l, known, more); KnownGrows(h, known, more);
    case _ =>
  }

  lemma KnownOptGrows(e: Option<Expr>, known: set<Symbol>, more: set<Symbol>)
    requires KnownOpt(e, known) && known <= more
    ensures KnownOpt(e, more)
  {
    if e.Some? { KnownGrows(e.value, known, more); }
  }

  lemma PromptsKnownGrows(ps: seq<Option<Expr>>, known: set<Symbol>, more: set<Symbol>)
    requires PromptsKnown(ps, known) && known <= more
    ensures PromptsKnown(ps, more)
  {
    forall i | 0 <= i < |ps| ensures KnownOpt(ps[i], more) { KnownOptGrows(ps[i], known, more); }
  }

  lemma {:induction false} DefaultsKnownGrows(ds: seq<Default>, v: Valuation, known: set<Symbol>, more: set<Symbol>)
    requires DefaultsKnown(ds, v, known) && known <= more
    ensures DefaultsKnown(ds, v, more)
  {
    if ds != [] {
      KnownOptGrows(ds[0].cond, known, more);
      if EvalOpt(ds[0].cond, v) != No {
        KnownGrows(ds[0].value, known, more);
      } else {
        DefaultsKnownGrows(ds[1..], v, known, more);
      }
    }
  }

  lemma UsesKnownGrows(c: Setup, s: Symbol, v: Valuation, known: set<Symbol>, more: set<Symbol>)
    requires UsesKnown(c, s, v, known) && known <= more
    ensures UsesKnown(c, s, v, more)
  {
    PromptsKnownGrows(c.defs(s).prompts, known, more);
    KnownOptGrows(c.defs(s).revDep, known, more);
    if DefaultsKnown(c.defs(s).defaults, v, known) { DefaultsKnownGrows(c.defs(s).defaults, v, known, more); }
  }

  /** The search for a default that stops at `i`. */
  lemma {:induction false} DefaultsKnownUpTo(ds: seq<Default>, v: Valuation, known: set<Symbol>, i: nat)
    requires i <= |ds|
    requires forall j :: 0 <= j < i ==> KnownOpt(ds[j].cond, known) && EvalOpt(ds[j].cond, v) == No
    requires i < |ds| ==> KnownOpt(ds[i].cond, known) && EvalOpt(ds[i].cond, v) != No && Known(ds[i].value, known)
    ensures DefaultsKnown(ds, v, known)
    decreases i
  {
    if i > 0 { DefaultsKnownUpTo(ds[1..], v, known, i - 1); }
  }

  ghost predicate AgreeOn(c: Setup, known: set<Symbol>, v: Valuation, w: Valuation, r: nat) {
    && (forall s :: s in known && IsLogical(s) && c.rank(s) < r ==> v(s) == w(s))
    && (forall s :: !IsLogical(s) ==> v(s) == w(s))
  }

  lemma {:induction false} EvalKnown(c: Setup, e: Expr, known: set<Symbol>, v: Valuation, w: Valuation, r: nat)
    requires Below(c, e, r) && Known(e, known) && AgreeOn(c, known, v, w, r)
    ensures Eval(e, v) == Eval(e, w)
  {
    match e
    case Not(a) => EvalKnown(c, a, known, v, w, r);
    case Bin(_, l, h) => EvalKnown(c, l, known, v, w, r); EvalKnown(c, h, known, v, w, r);
    case _ =>
  }

  lemma EvalOptKnown(c: Setup, e: Option<Expr>, known: set<Symbol>, v: Valuation, w: Valuation, r: nat)
    requires BelowOpt(c, e, r) && KnownOpt(e, known) && AgreeOn(c, known, v, w, r)
    ensures EvalOpt(e, v) == EvalOpt(e, w)
  {
    if e.Some? { EvalKnown(c, e.value, known, v, w, r); }
  }

  lemma {:induction false} PromptsSame(c: Setup, ps: seq<Option<Expr>>, known: set<Symbol>, v: Valuation, w: Valuation,
                                       r: nat)
    requires (forall i :: 0 <= i < |ps| ==> BelowOpt(c, ps[i], r)) && PromptsKnown(ps, known)
    requires AgreeOn(c, known, v, w, r)
    ensures AnyPrompt(ps, v) == AnyPrompt(ps, w)
  {
    if ps != [] {
      EvalOptKnown(c, ps[0], known, v, w, r);
      PromptsSame(c, ps[1..], known, v, w, r);
    }
  }

  lemma {:induction false} DefaultsSame(c: Setup, ds: seq<Default>, known: set<Symbol>, v: Valuation, w: Valuation,
                                        r: nat)
    requires forall i :: 0 <= i < |ds| ==> Below(c, ds[i].value, r) && BelowOpt(c, ds[i].cond, r)
    requires DefaultsKnown(ds, v, known) && AgreeOn(c, known, v, w, r)
    ensures DefaultValue(ds, v) == DefaultValue(ds, w) && DefaultsKnown(ds, w, known)
  {
    if ds != [] {
      EvalOptKnown(c, ds[0].cond, known, v, w, r);
      if EvalOpt(ds[0].cond, v) != No {
        EvalKnown(c, ds[0].value, known, v, w, r);
      } else {
        DefaultsSame(c, ds[1..], known, v, w, r);
      }
    }
  }

  /** What is computed from known symbols is the same when they are. */
  lemma UsesSame(c: Setup, u: Symbol, known: set<Symbol>, v: Valuation, w: Valuation)
    requires Acyclic(c) && IsLogical(u) && UsesKnown(c, u, v, known) && AgreeOn(c, known, v, w, c.rank(u))
    ensures Visibility(c, u, v) == Visibility(c, u, w)
    ensures Selected(c, u, v) == Selected(c, u, w)
    ensures Defined(c, u, v) == Defined(c, u, w)
    ensures UsesKnown(c, u, w, known)
  {
    var d, r := c.defs(u), c.rank(u);
    assert DefBelow(c, d, r);
    PromptsSame(c, d.prompts, known, v, w, r);
    if d.revDep.Some? { EvalKnown(c, d.revDep.value, known, v, w, r); }
    if DefaultsKnown(d.defaults, v, known) { DefaultsSame(c, d.defaults, known, v, w, r); }
  }

  /** A set of symbols computed from each other. */
  ghost predicate Closed(c: Setup, known: set<Symbol>) {
    forall u :: u in known ==> IsLogical(u) && UsesKnown(c, u, Solution(c), known)
  }

  /** Setting a symbol outside such a set changes none of its symbols. */
  lemma {:induction false} SetLeavesClosed(c: Setup, s: Symbol, t: Tristate, known: set<Symbol>, r: nat)
    requires Acyclic(c) && Closed(c, known) && s !in known
    ensures Acyclic(c.(user := c.user[s := t]))
    ensures AgreeOn(c, known, Solution(c), Solution(c.(user := c.user[s := t])), r)
    decreases r
  {
    hide Defined, Visibility, Selected, Acyclic, Stage, UsesKnown;
    var c' := c.(user := c.user[s := t]);
    SetKeepsAcyclic(c, c.user[s := t]);
    SolutionSolves(c);
    SolutionSolves(c');
    if r > 0 {
      SetLeavesClosed(c, s, t, known, r - 1);
      forall u | u in known && c.rank(u) < r ensures Solution(c)(u) == Solution(c')(u) {
        if c.rank(u) == r - 1 {
          UsesSame(c, u, known, Solution(c), Solution(c'));
          DefinedIgnoresOthers(c, u, s, t, Solution(c'));
        }
      }
    }
  }

  // ----- Values that pass the range test -----

  /** A value that passes the range test is the value the symbol has once everything is
      evaluated again. */
  lemma SetTakesEffect(c: Setup, s: Symbol, t: Tristate)
    requires Acyclic(c) && IsLogical(s)
    requires WithinRange(EffectiveKind(c, s), Visibility(c, s, Solution(c)), Selected(c, s, Solution(c)), t)
    ensures Solution(c.(user := c.user[s := t]))(s).tri == t
  {
    var c' := c.(user := c.user[s := t]);
    SetLeavesLower(c, s, t, c.rank(s));
    SolutionSolves(c');
    DefinedLocal(c, s, Solution(c), Solution(c'));
    assert Visibility(c', s, Solution(c')) == Visibility(c, s, Solution(c'));
    assert Selected(c', s, Solution(c')) == Selected(c, s, Solution(c'));
  }

  /** A value is in range if and only if the symbol leaves a choice and setting the value would
      give it that value. */
  lemma RangeExact(c: Setup, s: Symbol, t: Tristate)
    requires Acyclic(c) && IsLogical(s)
    ensures var v := Solution(c);
            WithinRange(EffectiveKind(c, s), Visibility(c, s, v), Selected(c, s, v), t)
            <==> && Rank(Selected(c, s, v)) < Rank(Visibility(c, s, v))
                 && Solution(c.(user := c.user[s := t]))(s).tri == t
  {
    var c' := c.(user := c.user[s := t]);
    SetLeavesLower(c, s, t, c.rank(s));
    SolutionSolves(c');
    DefinedLocal(c, s, Solution(c), Solution(c'));
    hide Solution, AnyPrompt, DefaultValue, Acyclic;
    assert Visibility(c', s, Solution(c')) == Visibility(c, s, Solution(c'));
    assert Selected(c', s, Solution(c')) == Selected(c, s, Solution(c'));
  }

  /** Setting the value a symbol already has is harmless when the symbol is invisible, or the
      value lies within its visibility, or it is forced anyway. */
  predicate SetSameHarmless(visible: Tristate, selected: Tristate, t: Tristate) {
    visible == No || Rank(t) <= Rank(visible) || selected == t
  }

  /** Setting the value that a symbol has keeps that value exactly in the harmless case: a
      default may exceed the visibility, a value of the user may not. */
  lemma SetSameExact(c: Setup, s: Symbol)
    requires Acyclic(c) && IsLogical(s)
    ensures var t := Solution(c)(s).tri;
            var c' := c.(user := c.user[s := t]);
            && Acyclic(c')
            && (Solution(c')(s).tri == t
                <==> SetSameHarmless(Visibility(c, s, Solution(c)), Selected(c, s, Solution(c)), t))
  {
    var t := Solution(c)(s).tri;
    var c' := c.(user := c.user[s := t]);
    SetLeavesLower(c, s, t, c.rank(s));
    SolutionSolves(c);
    SolutionSolves(c');
    DefinedLocal(c, s, Solution(c), Solution(c'));
    assert Visibility(c', s, Solution(c')) == Visibility(c, s, Solution(c));
    assert Selected(c', s, Solution(c')) == Selected(c, s, Solution(c));
    assert DefBelow(c, c.defs(s), c.rank(s));
    DefaultsLocal(c, c.defs(s).defaults, Solution(c), Solution(c'), c.rank(s));
  }

  /** In the harmless case no symbol changes. */
  lemma SetSameKeepsAll(c: Setup, s: Symbol, r: nat)
    requires Acyclic(c) && IsLogical(s)
    requires SetSameHarmless(Visibility(c, s, Solution(c)), Selected(c, s, Solution(c)), Solution(c)(s).tri)
    ensures var c' := c.(user := c.user[s := Solution(c)(s).tri]);
            Acyclic(c') && AgreeBelow(c, Solution(c), Solution(c'), r)
  {
    hide Acyclic, Defined, Visibility, Selected, Stage;
    var t := Solution(c)(s).tri;
    var c' := c.(user := c.user[s := t]);
    SetSameExact(c, s);
    SolutionSolves(c);
    SolutionSolves(c');
    SetLeavesLower(c, s, t, c.rank(s));
    assert Defined(c', s, Solution(c)) == t by {
      AgreeSame(c, c', Solution(c), Solution(c'), c.rank(s));
      DefinedLocal(c', s, Solution(c), Solution(c'));
    }
    forall u | IsLogical(u)
      ensures Solution(c)(u) == SymValue(Defined(c', u, Solution(c)), StringOf(c', Defined(c', u, Solution(c))))
    {
      if u != s { DefinedIgnoresOthers(c, u, s, t, Solution(c)); }
    }
    SolutionUnique(c', Solution(c), r);
    AgreeSame(c', c, Solution(c), Solution(c'), r);
  }

  lemma AgreeSame(c: Setup, c': Setup, v: Valuation, w: Valuation, r: nat)
    requires c'.rank == c.rank && AgreeBelow(c, v, w, r)
    ensures AgreeBelow(c', v, w, r)
  {
  }

  /** A tristate symbol prompted only as m and defaulting to y is y; setting it to y makes
      it m at the next evaluation. */
  lemma SetSameCanChange(c: Setup, s: Symbol)
    requires Acyclic(c) && KindOf(s) == TristateKind && c.modules == Yes && s !in c.user
    requires c.defs(s) == Definition([Some(Sym(SymMod))], None, None, [Default(Sym(SymYes), None)])
    ensures Solution(c)(s).tri == Yes
    ensures Solution(c.(user := c.user[s := Yes]))(s).tri == Mod
  {
    var c' := c.(user := c.user[s := Yes]);
    SetKeepsAcyclic(c, c.user[s := Yes]);
    SolutionSolves(c);
    SolutionSolves(c');
    assert [Some(Sym(SymMod))][1..] == [];
    assert !IsLogical(SymMod) && !IsLogical(SymYes);
    assert AnyPrompt(c.defs(s).prompts, Solution(c)) == Mod && AnyPrompt(c.defs(s).prompts, Solution(c')) == Mod;
  }
}
