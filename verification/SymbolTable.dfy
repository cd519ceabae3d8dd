// The evaluator as it runs: a table of values marked valid as they are computed, filled on
// demand through the expressions.

module SymbolTable {
  import opened Common
  import opened KconfigExpr
  import opened ExprJoin
  import opened SymbolEval

  class Table {
    var setup: Setup
    /** Symbols marked valid; the mark is set before the value is computed. */
    var valid: set<Symbol>
    var curr: map<Symbol, Tristate>
    var visible: map<Symbol, Tristate>
    var selected: map<Symbol, Tristate>

    constructor (c: Setup)
      requires Acyclic(c)
      ensures setup == c && valid == {} && Sound({})
    {
      setup, valid, curr, visible, selected := c, {}, map[], map[], map[];
    }

    /** The record of `s` is the one plain recursion gives, and all it was computed from is
        marked valid. */
    ghost predicate Recorded(s: Symbol)
      reads this
    {
      var v := Solution(setup);
      && IsLogical(s)
      && s in curr && curr[s] == v(s).tri
      && s in visible && visible[s] == Visibility(setup, s, v)
      && s in selected && selected[s] == Selected(setup, s, v)
      && UsesKnown(setup, s, v, valid)
    }

    /** Every valid symbol outside `busy`, whose evaluation is under way, is right. */
    ghost predicate Sound(busy: set<Symbol>)
      reads this
    {
      Acyclic(setup) && forall s :: s in valid && s !in busy ==> Recorded(s)
    }

    /** All symbols being evaluated rank at least `r`. */
    ghost predicate AllFrom(busy: set<Symbol>, r: nat)
      reads this
    {
      forall p :: p in busy ==> r <= setup.rank(p)
    }

    /** Evaluation goes forward, and leaves the records of `busy` alone. */
    twostate predicate Forward(busy: set<Symbol>)
      reads this
    {
      && setup == old(setup)
      && old(valid) <= valid
      && forall p :: p in busy ==>
           && (p in visible <==> p in old(visible)) && (p in visible ==> visible[p] == old(visible)[p])
           && (p in selected <==> p in old(selected)) && (p in selected ==> selected[p] == old(selected)[p])
    }

    /** sym_calc_value. */
    method CalcValue(s: Symbol, ghost busy: set<Symbol>)
      requires IsLogical(s) && Sound(busy) && AllFrom(busy, setup.rank(s) + 1)
      modifies this
      ensures Sound(busy) && Forward(busy) && s in valid && Recorded(s)
      decreases setup.rank(s), 1
    {
      hide Acyclic, Solution, Visibility, Selected, Defined, Recorded, PromptsKnown, KnownOpt, DefaultsKnown, UsesKnown;
      if s in valid { return; }
      MarkValid(s, busy);
      CalcVisibility(s, busy + {s});
      SetCurr(s, No, busy + {s});
      ghost var before := valid;
      var t := CalcOwn(s, busy + {s});
      SolutionUnfolds(setup, s);
      PromptsKnownGrows(setup.defs(s).prompts, before, valid);
      KnownOptGrows(setup.defs(s).revDep, before, valid);
      t := TriMax(t, selected[s]);
      if t == Mod && EffectiveKind(setup, s) == Boolean { t := Yes; }
      SetCurr(s, t, busy + {s});
      IsRecorded(s);
    }

    /** The mark is set before the value is known. */
    method MarkValid(s: Symbol, ghost busy: set<Symbol>)
      requires Sound(busy)
      modifies this`valid
      ensures Sound(busy + {s}) && valid == old(valid) + {s}
    {
      hide Acyclic, Solution, Visibility, Selected, UsesKnown;
      valid := valid + {s};
      assert forall p :: p in old(valid) && p !in busy ==> old(Recorded(p));
      forall p | p in valid && p !in busy + {s} ensures Recorded(p) {
        UsesKnownGrows(setup, p, Solution(setup), old(valid), valid);
      }
    }

    /** The value of a symbol whose evaluation is under way. */
    method SetCurr(s: Symbol, t: Tristate, ghost busy: set<Symbol>)
      requires Sound(busy) && s in busy
      modifies this`curr
      ensures Sound(busy) && curr == old(curr)[s := t]
    {
      hide Acyclic, Solution, Visibility, Selected, UsesKnown;
      curr := curr[s := t];
      assert forall p :: p in valid && p !in busy ==> old(Recorded(p));
    }

    lemma IsRecorded(s: Symbol)
      requires IsLogical(s)
      requires s in curr && curr[s] == Solution(setup)(s).tri
      requires s in visible && visible[s] == Visibility(setup, s, Solution(setup))
      requires s in selected && selected[s] == Selected(setup, s, Solution(setup))
      requires PromptsKnown(setup.defs(s).prompts, valid) && KnownOpt(setup.defs(s).revDep, valid)
      requires || (visible[s] != No && s in setup.user)
               || DefaultsKnown(setup.defs(s).defaults, Solution(setup), valid)
      ensures Recorded(s)
    {
    }

    /** The value from the user if the symbol is visible, otherwise from its defaults. */
    method CalcOwn(s: Symbol, ghost busy: set<Symbol>) returns (t: Tristate)
      requires IsLogical(s) && s in busy && Sound(busy) && AllFrom(busy, setup.rank(s)) && s in visible
      modifies this
      ensures Sound(busy) && Forward(busy)
      ensures t == if visible[s] != No && s in setup.user then TriMin(setup.user[s], visible[s])
                   else DefaultValue(setup.defs(s).defaults, Solution(setup))
      ensures (visible[s] != No && s in setup.user) || DefaultsKnown(setup.defs(s).defaults, Solution(setup), valid)
      decreases setup.rank(s), 0, 4
    {
      hide Acyclic, Solution, Recorded, DefaultsKnown;
      if visible[s] != No && s in setup.user {
        t := TriMin(setup.user[s], visible[s]);
      } else {
        t := CalcDefault(s, busy);
      }
    }

    /** sym_calc_visibility. */
    method CalcVisibility(s: Symbol, ghost busy: set<Symbol>)
      requires IsLogical(s) && s in busy && Sound(busy) && AllFrom(busy, setup.rank(s))
      modifies this
      ensures Sound(busy) && Forward(busy - {s})
      ensures s in visible && visible[s] == Visibility(setup, s, Solution(setup))
      ensures s in selected && selected[s] == Selected(setup, s, Solution(setup))
      ensures PromptsKnown(setup.defs(s).prompts, valid) && KnownOpt(setup.defs(s).revDep, valid)
      decreases setup.rank(s), 0, 4
    {
      assert DefBelow(setup, setup.defs(s), setup.rank(s));
      hide Solution, Acyclic, DefBelow, AnyPrompt, Recorded, PromptsKnown, KnownOpt;
      var t := CalcPrompts(s, busy);
      ghost var before := valid;
      if t == Mod && (KindOf(s) != TristateKind || setup.modules == No) { t := Yes; }
      SetVisible(s, t, busy);
      t := CalcSelected(s, busy);
      PromptsKnownGrows(setup.defs(s).prompts, before, valid);
      if t == Mod && EffectiveKind(setup, s) == Boolean { t := Yes; }
      SetSelected(s, t, busy);
    }

    method SetVisible(s: Symbol, t: Tristate, ghost busy: set<Symbol>)
      requires Sound(busy) && s in busy
      modifies this`visible
      ensures Sound(busy) && visible == old(visible)[s := t]
    {
      hide Acyclic, Solution, Visibility, Selected, UsesKnown;
      visible := visible[s := t];
      assert forall p :: p in valid && p !in busy ==> old(Recorded(p));
    }

    method SetSelected(s: Symbol, t: Tristate, ghost busy: set<Symbol>)
      requires Sound(busy) && s in busy
      modifies this`selected
      ensures Sound(busy) && selected == old(selected)[s := t]
    {
      hide Acyclic, Solution, Visibility, Selected, UsesKnown;
      selected := selected[s := t];
      assert forall p :: p in valid && p !in busy ==> old(Recorded(p));
    }

    method CalcPrompts(s: Symbol, ghost busy: set<Symbol>) returns (t: Tristate)
      requires IsLogical(s) && Sound(busy) && AllFrom(busy, setup.rank(s))
      modifies this
      ensures Sound(busy) && Forward(busy) && t == AnyPrompt(setup.defs(s).prompts, Solution(setup))
      ensures PromptsKnown(setup.defs(s).prompts, valid)
      decreases setup.rank(s), 0, 3
    {
      ghost var v := Solution(setup);
      var ps := setup.defs(s).prompts;
      assert DefBelow(setup, setup.defs(s), setup.rank(s));
      hide Solution, Acyclic, Recorded;
      t := No;
      var i := 0;
      while i < |ps|
        invariant i <= |ps| && Sound(busy) && Forward(busy)
        invariant TriMax(t, AnyPrompt(ps[i..], v)) == AnyPrompt(ps, v)
        invariant PromptsKnown(ps[..i], valid)
      {
        assert ps[i..][1..] == ps[i + 1..];
        ghost var before := valid;
        var p := CalcOpt(ps[i], setup.rank(s), busy);
        PromptsKnownGrows(ps[..i], before, valid);
        assert ps[..i + 1] == ps[..i] + [ps[i]];
        t := TriMax(t, p);
        i := i + 1;
      }
      assert ps[..i] == ps;
    }

    /** The direct dependency, evaluated for the warning only, and what selects the symbol. */
    method CalcSelected(s: Symbol, ghost busy: set<Symbol>) returns (t: Tristate)
      requires IsLogical(s) && Sound(busy) && AllFrom(busy, setup.rank(s))
      modifies this
      ensures Sound(busy) && Forward(busy)
      ensures t == if setup.defs(s).revDep.Some? then Eval(setup.defs(s).revDep.value, Solution(setup)) else No
      ensures KnownOpt(setup.defs(s).revDep, valid)
      decreases setup.rank(s), 0, 3
    {
      var d := setup.defs(s);
      assert DefBelow(setup, d, setup.rank(s));
      hide Solution, Acyclic, Recorded;
      var dir := CalcOpt(d.dirDep, setup.rank(s), busy);
      t := No;
      if d.revDep.Some? { t := CalcExpr(d.revDep.value, setup.rank(s), busy); }
    }

    /** sym_get_default_prop and the value of what it finds. */
    method CalcDefault(s: Symbol, ghost busy: set<Symbol>) returns (t: Tristate)
      requires IsLogical(s) && Sound(busy) && AllFrom(busy, setup.rank(s))
      modifies this
      ensures Sound(busy) && Forward(busy)
      ensures t == DefaultValue(setup.defs(s).defaults, Solution(setup))
      ensures DefaultsKnown(setup.defs(s).defaults, Solution(setup), valid)
      decreases setup.rank(s), 0, 3
    {
      ghost var v := Solution(setup);
      var ds := setup.defs(s).defaults;
      assert DefBelow(setup, setup.defs(s), setup.rank(s));
      hide Solution, Acyclic, Recorded;
      var i := 0;
      while i < |ds|
        invariant i <= |ds| && Sound(busy) && Forward(busy)
        invariant DefaultValue(ds, v) == DefaultValue(ds[i..], v)
        invariant RefusedBefore(ds, v, valid, i)
      {
        assert ds[i..][1..] == ds[i + 1..];
        ghost var before := valid;
        var cond := CalcOpt(ds[i].cond, setup.rank(s), busy);
        RefusedGrows(ds, v, before, valid, i);
        if cond != No {
          before := valid;
          var x := CalcExpr(ds[i].value, setup.rank(s), busy);
          RefusedGrows(ds, v, before, valid, i);
          KnownOptGrows(ds[i].cond, before, valid);
          DefaultsKnownUpTo(ds, v, valid, i);
          return TriMin(x, cond);
        }
        i := i + 1;
      }
      DefaultsKnownUpTo(ds, v, valid, i);
      t := No;
    }

    method CalcOpt(e: Option<Expr>, ghost r: nat, ghost busy: set<Symbol>) returns (t: Tristate)
      requires BelowOpt(setup, e, r) && Sound(busy) && AllFrom(busy, r)
      modifies this
      ensures Sound(busy) && Forward(busy) && t == EvalOpt(e, Solution(setup)) && KnownOpt(e, valid)
      decreases r, 0, 2
    {
      if e.None? { return Yes; }
      t := CalcExpr(e.value, r, busy);
    }

    /** expr_calc_value: evaluates the symbols it meets. */
    method CalcExpr(e: Expr, ghost r: nat, ghost busy: set<Symbol>) returns (t: Tristate)
      requires Below(setup, e, r) && Sound(busy) && AllFrom(busy, r)
      modifies this
      ensures Sound(busy) && Forward(busy) && t == Eval(e, Solution(setup)) && Known(e, valid)
      decreases r, 0, 1, e
    {
      hide Sound, Solution;
      match e
      case Sym(s) =>
        var x := CalcSymbol(s, r, busy);
        t := x.tri;
      case Not(a) =>
        t := CalcExpr(a, r, busy);
        t := TriNot(t);
      case Bin(op, l, h) =>
        var x := CalcExpr(l, r, busy);
        ghost var before := valid;
        var y := CalcExpr(h, r, busy);
        KnownGrows(l, before, valid);
        t := Apply(op, x, y);
      case Compare(c, l, h) =>
        var x := CalcSymbol(l, r, busy);
        var y := CalcSymbol(h, r, busy);
        t := if (x.str == y.str) == (c == Equal) then Yes else No;
    }

    method CalcSymbol(s: Symbol, ghost r: nat, ghost busy: set<Symbol>) returns (x: SymValue)
      requires SymBelow(setup, s, r) && Sound(busy) && AllFrom(busy, r)
      modifies this
      ensures Sound(busy) && Forward(busy) && x == Solution(setup)(s) && SymKnown(s, valid)
      decreases r, 0, 0
    {
      if IsLogical(s) {
        CalcValue(s, busy);
        SolutionSolves(setup);
        x := SymValue(curr[s], StringOf(setup, curr[s]));
      } else {
        x := FixedValue(setup, s);
      }
    }

    /** Calls in any order, each symbol any number of times. */
    method CalcAll(order: seq<Symbol>)
      requires Sound({}) && forall i :: 0 <= i < |order| ==> IsLogical(order[i])
      modifies this
      ensures Sound({}) && setup == old(setup)
      ensures forall i :: 0 <= i < |order| ==> order[i] in curr && curr[order[i]] == Solution(setup)(order[i]).tri
    {
      hide Acyclic, Solution, Visibility, Selected;
      var i := 0;
      while i < |order|
        invariant i <= |order| && Sound({}) && setup == old(setup)
        invariant forall j :: 0 <= j < i ==> order[j] in valid
      {
        CalcValue(order[i], {});
        i := i + 1;
      }
      forall j | 0 <= j < |order| ensures Recorded(order[j]) { assert order[j] in valid; }
    }

    /** What the record of a symbol holds; before the first evaluation it is n. */
    static function Held(record: map<Symbol, Tristate>, s: Symbol): Tristate {
      if s in record then record[s] else No
    }

    /** sym_set_tristate_value. It goes by what is recorded, valid or not. A new value that is
        accepted, and really in range, is what evaluating again gives. Accepting the value
        already recorded leaves all marks in place, which is right unless the symbol is marked
        valid and its value changes by this. */
    method SetValue(s: Symbol, t: Tristate) returns (ok: bool)
      requires Sound({}) && IsLogical(s)
      modifies this
      ensures ok <==> Held(old(curr), s) == t
                      || WithinRange(EffectiveKind(old(setup), s), Held(old(visible), s), Held(old(selected), s), t)
      ensures setup == if ok then old(setup).(user := old(setup).user[s := t]) else old(setup)
      ensures curr == old(curr) && valid == if ok && Held(old(curr), s) != t then {} else old(valid)
      ensures !ok || Held(old(curr), s) != t ==> Sound({})
      ensures ok && Held(old(curr), s) != t && ReallyInRange(old(setup), s, t) ==> Solution(setup)(s).tri == t
      ensures s in old(valid) && ok && Held(old(curr), s) != t ==> ReallyInRange(old(setup), s, t)
      ensures ok && Held(old(curr), s) == t ==>
                (Sound({}) <==>
                   s in old(valid) ==> SetSameHarmless(Held(old(visible), s), Held(old(selected), s), t))
    {
      hide Recorded, Solution, Visibility, Selected, Acyclic, SetSameHarmless;
      var was := Held(curr, s);
      if was != t && !WithinRange(EffectiveKind(setup, s), Held(visible, s), Held(selected, s), t) { return false; }
      if was != t {
        RecordedInRange(s, t);
        ForgetAll(s, t);
      } else {
        KeepAll(s, t);
      }
      ok := true;
    }

    lemma RecordedInRange(s: Symbol, t: Tristate)
      requires Sound({})
      ensures s in valid ==> Held(visible, s) == Visibility(setup, s, Solution(setup))
      ensures s in valid ==> Held(selected, s) == Selected(setup, s, Solution(setup))
      ensures s in valid ==> Held(curr, s) == Solution(setup)(s).tri
    {
      assert s in valid ==> Recorded(s);
    }

    /** A new value: all marks go. */
    method ForgetAll(s: Symbol, t: Tristate)
      requires Sound({}) && IsLogical(s)
      modifies this`setup, this`valid
      ensures setup == old(setup).(user := old(setup).user[s := t]) && valid == {} && Sound({})
      ensures ReallyInRange(old(setup), s, t) ==> Solution(setup)(s).tri == t
    {
      hide Solution, Visibility, Selected;
      if ReallyInRange(setup, s, t) { SetTakesEffect(setup, s, t); }
      SetKeepsAcyclic(setup, setup.user[s := t]);
      setup, valid := setup.(user := setup.user[s := t]), {};
    }

    /** The value recorded already: all marks stay. */
    method KeepAll(s: Symbol, t: Tristate)
      requires Sound({}) && IsLogical(s) && Held(curr, s) == t
      modifies this`setup
      ensures setup == old(setup).(user := old(setup).user[s := t])
      ensures Sound({}) <==> s in valid ==> SetSameHarmless(Held(visible, s), Held(selected, s), t)
    {
      hide Solution, Visibility, Selected, UsesKnown;
      ghost var c := setup;
      RecordedInRange(s, t);
      SetSameExact(c, s);
      SetKeepsAcyclic(c, c.user[s := t]);
      assert forall u :: u in valid ==> Recorded(u);
      setup := setup.(user := setup.user[s := t]);
      if s !in valid {
        forall u | u in valid ensures Recorded(u) { ClosedRecord(c, s, t, valid, u); }
      } else if SetSameHarmless(Held(visible, s), Held(selected, s), t) {
        forall u | u in valid ensures Recorded(u) { SameRecord(c, s, valid, u); }
      } else {
        assert !Recorded(s);
      }
    }
  }

  /** The defaults in front of `i` have been looked at, and their conditions are n. */
  ghost predicate RefusedBefore(ds: seq<Default>, v: Valuation, known: set<Symbol>, i: nat)
    requires i <= |ds|
  {
    forall j :: 0 <= j < i ==> KnownOpt(ds[j].cond, known) && EvalOpt(ds[j].cond, v) == No
  }

  lemma RefusedGrows(ds: seq<Default>, v: Valuation, known: set<Symbol>, more: set<Symbol>, i: nat)
    requires i <= |ds| && RefusedBefore(ds, v, known, i) && known <= more
    ensures RefusedBefore(ds, v, more, i)
  {
    forall j | 0 <= j < i ensures KnownOpt(ds[j].cond, more) { KnownOptGrows(ds[j].cond, known, more); }
  }

  /** The value is in the range that visibility and selection of the symbol allow now. */
  ghost predicate ReallyInRange(c: Setup, s: Symbol, t: Tristate) {
    WithinRange(EffectiveKind(c, s), Visibility(c, s, Solution(c)), Selected(c, s, Solution(c)), t)
  }

  lemma SameRecord(c: Setup, s: Symbol, known: set<Symbol>, u: Symbol)
    requires Acyclic(c) && IsLogical(s) && IsLogical(u) && UsesKnown(c, u, Solution(c), known)
    requires SetSameHarmless(Visibility(c, s, Solution(c)), Selected(c, s, Solution(c)), Solution(c)(s).tri)
    ensures var c' := c.(user := c.user[s := Solution(c)(s).tri]);
            && Solution(c')(u) == Solution(c)(u)
            && Visibility(c', u, Solution(c')) == Visibility(c, u, Solution(c))
            && Selected(c', u, Solution(c')) == Selected(c, u, Solution(c))
            && UsesKnown(c', u, Solution(c'), known)
  {
    var c' := c.(user := c.user[s := Solution(c)(s).tri]);
    SetSameKeepsAll(c, s, c.rank(u) + 1);
    hide Solution, Acyclic, PromptsKnown, KnownOpt, DefaultsKnown;
    UsesSame(c, u, known, Solution(c), Solution(c'));
  }

  /** A valid symbol after the user set one that is not valid. */
  lemma ClosedRecord(c: Setup, s: Symbol, t: Tristate, known: set<Symbol>, u: Symbol)
    requires Acyclic(c) && Closed(c, known) && s !in known && u in known
    ensures var c' := c.(user := c.user[s := t]);
            && Solution(c')(u) == Solution(c)(u)
            && Visibility(c', u, Solution(c')) == Visibility(c, u, Solution(c))
            && Selected(c', u, Solution(c')) == Selected(c, u, Solution(c))
            && UsesKnown(c', u, Solution(c'), known)
  {
    var c' := c.(user := c.user[s := t]);
    SetLeavesClosed(c, s, t, known, c.rank(u) + 1);
    hide Solution, Acyclic, PromptsKnown, KnownOpt, DefaultsKnown;
    UsesSame(c, u, known, Solution(c), Solution(c'));
  }

  lemma SolutionUnfolds(c: Setup, s: Symbol)
    requires Acyclic(c) && IsLogical(s)
    ensures var v := Solution(c);
            var vis := Visibility(c, s, v);
            var own := if vis != No && s in c.user then TriMin(c.user[s], vis) else DefaultValue(c.defs(s).defaults, v);
            var t := TriMax(own, Selected(c, s, v));
            v(s).tri == if t == Mod && EffectiveKind(c, s) == Boolean then Yes else t
  {
    hide Solution, Visibility, Selected, DefaultValue;
    SolutionSolves(c);
  }
}
