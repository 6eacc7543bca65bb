/** `sym_calc_value`, `expr_calc_value` and their helpers: evaluation on demand, remembered in the symbols. */
module SymbolEvaluator {
  import opened Wrappers
  import opened Tristate
  import opened KconfigExpr
  import opened ExprCompare
  import opened DependencyGraph
  import opened SymbolSpec

  /** The fields of a symbol that evaluation writes. */
  datatype Slot = Slot(curr: SymbolValue, visible: Tri, dirTri: Tri, revTri: Tri, write: bool)

  const BLANK := Slot(SymbolValue(NO, ""), NO, NO, NO, false)

  /** `valid` are the symbols with SYMBOL_VALID set, `busy` those of them whose evaluation is not finished. */
  datatype Memo = Memo(valid: set<Symbol>, slots: map<Symbol, Slot>, modulesVal: Tri, busy: set<Symbol>)

  function At(m: Memo, s: Symbol): Slot {
    if s in m.slots then m.slots[s] else BLANK
  }

  ghost predicate Right(c: Config, rank: Symbol -> nat, s: Symbol, slot: Slot) {
    var env := Final(c, rank);
    && slot.curr == Pure(c, rank, s)
    && (IsLogical(s) || IsText(s) ==>
          && slot.visible == Visibility(c, s, env)
          && slot.dirTri == DirectValue(c, s, env)
          && slot.revTri == SelectValue(c, s, env)
          && slot.write == Written(c, s, env))
  }

  /** Every symbol that is valid and not under evaluation holds what `SymbolSpec` says. */
  ghost predicate Sound(c: Config, rank: Symbol -> nat, m: Memo) {
    && Legit(c, rank)
    && m.modulesVal == c.modulesVal
    && m.busy <= m.valid
    && (forall s | IsTriConst(s) :: s in m.valid && s !in m.busy)
    && forall s: Symbol {:trigger At(m, s)} | s in m.valid && s !in m.busy :: Right(c, rank, s, At(m, s))
  }

  /** Symbols ranked below `limit` are not under evaluation. */
  ghost predicate Free(rank: Symbol -> nat, m: Memo, limit: nat) {
    forall s | s in m.busy :: limit <= rank(s)
  }

  /** Nothing valid is touched, except possibly `own`. */
  predicate Extends(before: Memo, after: Memo, own: set<Symbol>) {
    && after.busy == before.busy
    && before.valid <= after.valid
    && forall s {:trigger At(after, s)} | s in before.valid && s !in own :: At(after, s) == At(before, s)
  }

  const TRI_CONSTANTS := {SYMBOL_NO, SYMBOL_MOD, SYMBOL_YES}

  /** Only y, m and n have a value from the start. */
  const INITIAL_SLOTS: map<Symbol, Slot> := map s | s in TRI_CONSTANTS :: BLANK.(curr := AllOff(s))

  lemma {:induction false} InitialSound(c: Config, rank: Symbol -> nat)
    requires Legit(c, rank)
    ensures Sound(c, rank, Memo(TRI_CONSTANTS, INITIAL_SLOTS, c.modulesVal, {}))
  {
    var m := Memo(TRI_CONSTANTS, INITIAL_SLOTS, c.modulesVal, {});
    forall s: Symbol {:trigger At(m, s)} | s in m.valid && s !in m.busy ensures Right(c, rank, s, At(m, s)) {
      assert IsTriConst(s) && At(m, s) == BLANK.(curr := AllOff(s));
      assert !IsLogical(s) && !IsText(s) && Pure(c, rank, s) == AllOff(s);
    }
  }

  /** From just before a symbol is marked valid to just after its evaluation has finished. */
  lemma {:induction false} ExtendsWhole(before: Memo, begun: Memo, computed: Memo, after: Memo, sym: Symbol)
    requires before.busy <= before.valid && sym !in before.valid
    requires begun == before.(valid := before.valid + {sym}, busy := before.busy + {sym})
    requires Extends(begun, computed, {sym}) && after == computed.(busy := computed.busy - {sym})
    ensures Extends(before, after, {})
  {
    forall s | s in before.valid ensures At(after, s) == At(before, s) {
      assert At(computed, s) == At(begun, s);
    }
  }

  class Evaluator {
    const c: Config
    ghost const rank: Symbol -> nat
    var valid: set<Symbol>
    var slots: map<Symbol, Slot>
    var modulesVal: Tri
    ghost var busy: set<Symbol>

    constructor (c: Config, ghost rank: Symbol -> nat)
      requires Legit(c, rank)
      ensures this.c == c && this.rank == rank && Sound(c, rank, View()) && busy == {}
    {
      this.c, this.rank := c, rank;
      valid, slots, modulesVal, busy := TRI_CONSTANTS, INITIAL_SLOTS, c.modulesVal, {};
      InitialSound(c, rank);
    }

    ghost function View(): Memo
      reads this
    {
      Memo(valid, slots, modulesVal, busy)
    }

    function Own(s: Symbol): (slot: Slot)
      reads this
      ensures slot == At(View(), s)
    {
      if s in slots then slots[s] else BLANK
    }

    ghost predicate Ready(limit: nat)
      reads this
    {
      Sound(c, rank, View()) && Free(rank, View(), limit)
    }

    /** The loop of `sym_clear_all_valid`: the old values stay where they are, only the flags go. */
    method ClearFlags()
      requires Sound(c, rank, View()) && busy == {}
      modifies this`valid
      ensures Sound(c, rank, View()) && valid == TRI_CONSTANTS
    {
      valid := TRI_CONSTANTS;
      assert forall s | s in valid :: IsTriConst(s);
      assert forall s: Symbol :: At(View(), s) == old(At(View(), s));
    }

    /** `sym_clear_all_valid`, which evaluates the symbol that switches modules again. */
    method ClearAllValid()
      requires Sound(c, rank, View()) && busy == {}
      modifies this
      ensures Sound(c, rank, View()) && busy == {} && c.modulesSym in valid
    {
      ClearFlags();
      CalcValue(c.modulesSym);
    }

    /** A write to a symbol under evaluation. */
    method Write(sym: Symbol, slot: Slot)
      requires Sound(c, rank, View()) && sym in busy
      modifies this`slots
      ensures Sound(c, rank, View()) && Extends(old(View()), View(), {sym})
      ensures Own(sym) == slot
    {
      slots := slots[sym := slot];
      forall s: Symbol | s in valid && s !in busy ensures Right(c, rank, s, At(View(), s)) {
        assert At(View(), s) == old(At(View(), s));
      }
    }

    /** `sym_calc_value`. */
    method CalcValue(sym: Symbol)
      requires Ready(rank(sym) + 1)
      modifies this
      ensures Sound(c, rank, View()) && Extends(old(View()), View(), {})
      ensures sym in valid
      decreases rank(sym), 10
    {
      if sym in valid {
        return;
      }
      Begin(sym);
      ghost var begun := View();
      CalcNewValue(sym);
      ghost var computed := View();
      Finish(sym);
      ExtendsWhole(old(View()), begun, computed, View(), sym);
    }

    /** SYMBOL_VALID is set before the value is there, so that a recursive call ends. */
    method Begin(sym: Symbol)
      requires Ready(rank(sym) + 1) && sym !in valid
      modifies this`valid, this`busy
      ensures Ready(rank(sym))
      ensures View() == old(View()).(valid := old(valid) + {sym}, busy := old(busy) + {sym})
    {
      valid, busy := valid + {sym}, busy + {sym};
      assert forall s: Symbol :: At(View(), s) == old(At(View(), s));
    }

    ghost method Finish(sym: Symbol)
      requires Sound(c, rank, View()) && sym in busy && Right(c, rank, sym, Own(sym))
      modifies this`busy
      ensures Sound(c, rank, View()) && View() == old(View()).(busy := old(busy) - {sym})
    {
      busy := busy - {sym};
      assert forall s: Symbol :: At(View(), s) == old(At(View(), s));
    }

    /** The part of `sym_calc_value` after SYMBOL_VALID has been set. */
    method CalcNewValue(sym: Symbol)
      requires Ready(rank(sym)) && sym in busy
      modifies this
      ensures Sound(c, rank, View()) && Extends(old(View()), View(), {sym})
      ensures Right(c, rank, sym, Own(sym))
      decreases rank(sym), 9
    {
      var oldval := Own(sym).curr;
      if IsLogical(sym) || IsText(sym) {
        CalcTyped(sym);
      } else {
        Write(sym, Own(sym).(curr := SymbolValue(NO, c.name(sym))));
      }
      if oldval != Own(sym).curr && c.modulesSym == sym {
        NoteModules(sym);
      }
    }

    /** `modules_val` follows its symbol. */
    method NoteModules(sym: Symbol)
      requires Sound(c, rank, View()) && sym == c.modulesSym && Right(c, rank, sym, Own(sym))
      modifies this`modulesVal
      ensures View() == old(View())
    {
      modulesVal := Own(sym).curr.tri;
    }

    method CalcTyped(sym: Symbol)
      requires Ready(rank(sym)) && sym in busy && (IsLogical(sym) || IsText(sym))
      modifies this
      ensures Sound(c, rank, View()) && Extends(old(View()), View(), {sym})
      ensures Right(c, rank, sym, Own(sym))
      decreases rank(sym), 8
    {
      PureSolves(c, rank, sym);
      CalcVisibility(sym);
      if IsLogical(sym) {
        CalcLogical(sym);
      } else {
        CalcText(sym);
        ValidateRange(sym);
      }
      if sym in c.auto {
        Write(sym, Own(sym).(write := false));
      }
    }

    /** `sym_calc_visibility`. */
    method CalcVisibility(sym: Symbol)
      requires Ready(rank(sym)) && sym in busy
      modifies this
      ensures Sound(c, rank, View()) && Extends(old(View()), View(), {sym})
      ensures var env := Final(c, rank);
              Own(sym) == old(Own(sym)).(visible := Visibility(c, sym, env), dirTri := DirectValue(c, sym, env),
                                         revTri := SelectValue(c, sym, env))
      decreases rank(sym), 7
    {
      CalcVisible(sym);
      CalcDirect(sym);
      CalcSelect(sym);
    }

    method CalcVisible(sym: Symbol)
      requires Ready(rank(sym)) && sym in busy
      modifies this
      ensures Sound(c, rank, View()) && Extends(old(View()), View(), {sym})
      ensures Own(sym) == old(Own(sym)).(visible := Visibility(c, sym, Final(c, rank)))
      decreases rank(sym), 6
    {
      assert SymbolUnder(c, rank, sym);
      var tri := CalcPrompts(Info(c, sym).props, rank(sym));
      Write(sym, Own(sym).(visible := Promote(tri, sym.typ, modulesVal)));
    }

    method CalcDirect(sym: Symbol)
      requires Ready(rank(sym)) && sym in busy
      modifies this
      ensures Sound(c, rank, View()) && Extends(old(View()), View(), {sym})
      ensures Own(sym) == old(Own(sym)).(dirTri := DirectValue(c, sym, Final(c, rank)))
      decreases rank(sym), 6
    {
      assert SymbolUnder(c, rank, sym);
      var tri := CalcCondition(Info(c, sym).dirDep, rank(sym));
      Write(sym, Own(sym).(dirTri := if tri == MOD then YES else tri));
    }

    method CalcSelect(sym: Symbol)
      requires Ready(rank(sym)) && sym in busy
      modifies this
      ensures Sound(c, rank, View()) && Extends(old(View()), View(), {sym})
      ensures Own(sym) == old(Own(sym)).(revTri := SelectValue(c, sym, Final(c, rank)))
      decreases rank(sym), 6
    {
      assert SymbolUnder(c, rank, sym);
      var tri := NO;
      if Info(c, sym).revDep.Some? {
        tri := CalcExpr(Info(c, sym).revDep.value, rank(sym));
      }
      if tri == MOD && EffectiveType(sym.typ, modulesVal) == Boolean {
        tri := YES;
      }
      Write(sym, Own(sym).(revTri := tri));
    }

    /** The loop of `sym_calc_visibility` over the prompts. */
    method CalcPrompts(props: seq<Property>, ghost limit: nat) returns (tri: Tri)
      requires Ready(limit) && PropertiesUnder(c, rank, props, limit)
      modifies this
      ensures Sound(c, rank, View()) && Extends(old(View()), View(), {})
      ensures tri == PromptValue(Prompts(props), Final(c, rank))
      decreases limit, 4
    {
      tri := NO;
      for i := 0 to |props|
        invariant Ready(limit) && Extends(old(View()), View(), {})
        invariant tri == PromptValue(Prompts(props[..i]), Final(c, rank))
      {
        PromptValueSnoc(props[..i + 1], Final(c, rank));
        assert props[..i + 1][..i] == props[..i];
        if HasText(props[i].kind) {
          assert PropertyUnder(c, rank, props[i], limit);
          var t := CalcCondition(props[i].visible, limit);
          tri := Max(tri, t);
        }
      }
      assert props[..|props|] == props;
    }

    /** `sym_get_default_prop` and `sym_get_range_prop`. */
    method ActiveProperty(props: seq<Property>, kind: PropertyKind, ghost limit: nat) returns (p: Option<Property>, tri: Tri)
      requires Ready(limit) && PropertiesUnder(c, rank, props, limit) && (kind == Default || kind == Range)
      modifies this
      ensures Sound(c, rank, View()) && Extends(old(View()), View(), {})
      ensures p == FirstActive(props, kind, Final(c, rank))
      ensures p.Some? ==> tri == ConditionValue(p.value.visible, Final(c, rank)) && PropertyUnder(c, rank, p.value, limit)
      ensures p.Some? ==> p.value.kind == kind
      decreases limit, 4
    {
      tri := NO;
      for i := 0 to |props|
        invariant Ready(limit) && Extends(old(View()), View(), {})
        invariant FirstActive(props, kind, Final(c, rank)) == FirstActive(props[i..], kind, Final(c, rank))
      {
        assert PropertyUnder(c, rank, props[i], limit);
        assert props[i..][1..] == props[i + 1..];
        if props[i].kind == kind {
          tri := CalcCondition(props[i].visible, limit);
          if tri != NO {
            return Some(props[i]), tri;
          }
        }
      }
      p := None;
    }

    /** The boolean and tristate case of `sym_calc_value`. */
    method CalcLogical(sym: Symbol)
      requires Ready(rank(sym)) && sym in busy && IsLogical(sym)
      requires Own(sym).visible == Visibility(c, sym, Final(c, rank)) && Own(sym).revTri == SelectValue(c, sym, Final(c, rank))
      modifies this
      ensures Sound(c, rank, View()) && Extends(old(View()), View(), {sym})
      ensures Own(sym) == old(Own(sym)).(curr := SymbolValue(LogicalValue(c, sym, Final(c, rank)), "n"),
                                         write := MayWrite(c, sym, Final(c, rank)))
      decreases rank(sym), 7
    {
      var visible, revTri := Own(sym).visible, Own(sym).revTri;
      var tri := NO;
      var write := visible != NO;
      if visible != NO && sym in c.user {
        tri := Min(c.user[sym].tri, visible);
      } else {
        var found;
        tri, found := CalcDefault(sym);
        write := write || revTri != NO || found;
      }
      tri := Max(tri, revTri);
      if tri == MOD && EffectiveType(sym.typ, modulesVal) == Boolean {
        tri := YES;
      }
      Write(sym, Own(sym).(curr := SymbolValue(tri, "n"), write := write));
    }

    method CalcDefault(sym: Symbol) returns (tri: Tri, found: bool)
      requires Ready(rank(sym))
      modifies this
      ensures Sound(c, rank, View()) && Extends(old(View()), View(), {})
      ensures tri == DefaultTri(c, sym, Final(c, rank))
      ensures found == FirstActive(Info(c, sym).props, Default, Final(c, rank)).Some?
      decreases rank(sym), 6
    {
      assert SymbolUnder(c, rank, sym);
      var p, visible := ActiveProperty(Info(c, sym).props, Default, rank(sym));
      tri, found := NO, p.Some?;
      if found {
        tri := CalcCondition(p.value.expr, rank(sym));
        tri := Min(tri, visible);
      }
    }

    /** The string, hex and int case of `sym_calc_value`. */
    method CalcText(sym: Symbol)
      requires Ready(rank(sym)) && sym in busy && IsText(sym)
      requires Own(sym).visible == Visibility(c, sym, Final(c, rank))
      modifies this
      ensures Sound(c, rank, View()) && Extends(old(View()), View(), {sym})
      ensures Own(sym) == old(Own(sym)).(curr := SymbolValue(NO, TextValue(c, sym, Final(c, rank))),
                                         write := MayWrite(c, sym, Final(c, rank)))
      decreases rank(sym), 7
    {
      var visible := Own(sym).visible;
      var text := "";
      var write := visible != NO;
      if visible != NO && sym in c.user {
        text := c.user[sym].str;
      } else {
        var found;
        text, found := CalcDefaultText(sym);
        write := write || found;
      }
      Write(sym, Own(sym).(curr := SymbolValue(NO, text), write := write));
    }

    method CalcDefaultText(sym: Symbol) returns (text: string, found: bool)
      requires Ready(rank(sym))
      modifies this
      ensures Sound(c, rank, View()) && Extends(old(View()), View(), {})
      ensures text == DefaultText(c, sym, Final(c, rank))
      ensures found == HasDefaultSymbol(c, sym, Final(c, rank))
      decreases rank(sym), 6
    {
      assert SymbolUnder(c, rank, sym);
      var p, _ := ActiveProperty(Info(c, sym).props, Default, rank(sym));
      text, found := "", p.Some? && PropertySymbol(p.value).Some?;
      if found {
        text := CalcRawText(PropertySymbol(p.value).value, rank(sym));
      }
    }

    /** `sym_validate_range`. */
    method ValidateRange(sym: Symbol)
      requires Ready(rank(sym)) && sym in busy && IsText(sym)
      modifies this
      ensures Sound(c, rank, View()) && Extends(old(View()), View(), {sym})
      ensures var before := old(Own(sym));
              Own(sym) == before.(curr := before.curr.(str := Clamped(c, sym, before.curr.str, Final(c, rank))))
      decreases rank(sym), 7
    {
      if sym.typ == Str {
        return;
      }
      var text := CalcClamped(sym, Own(sym).curr.str);
      Write(sym, Own(sym).(curr := Own(sym).curr.(str := text)));
    }

    method CalcClamped(sym: Symbol, val: string) returns (text: string)
      requires Ready(rank(sym)) && (sym.typ == Int || sym.typ == Hex)
      modifies this
      ensures Sound(c, rank, View()) && Extends(old(View()), View(), {})
      ensures text == Clamped(c, sym, val, Final(c, rank))
      decreases rank(sym), 6
    {
      assert SymbolUnder(c, rank, sym);
      var p, _ := ActiveProperty(Info(c, sym).props, Range, rank(sym));
      text := val;
      if p.Some? && p.value.bounds.Some? {
        text := CalcClampedTo(sym, val, p.value.bounds.value);
      }
    }

    method CalcClampedTo(sym: Symbol, text: string, bounds: (Symbol, Symbol)) returns (r: string)
      requires Ready(rank(sym)) && rank(bounds.0) < rank(sym) && rank(bounds.1) < rank(sym)
      modifies this
      ensures Sound(c, rank, View()) && Extends(old(View()), View(), {})
      ensures r == ClampedTo(c, sym, text, bounds, Final(c, rank))
      decreases rank(sym), 5
    {
      var base := Base(sym.typ, 0);
      var val := c.toInt(text, base);
      var val2 := CalcBound(bounds.0, base, rank(sym));
      if val >= val2 {
        val2 := CalcBound(bounds.1, base, rank(sym));
        if val <= val2 {
          return text;
        }
      }
      r := c.format(val2, base);
    }

    /** `sym_get_range_val`. */
    method CalcBound(sym: Symbol, base: int, ghost limit: nat) returns (v: int)
      requires Ready(limit) && rank(sym) < limit
      modifies this
      ensures Sound(c, rank, View()) && Extends(old(View()), View(), {})
      ensures v == Bound(c, sym, base, Final(c, rank))
      decreases limit, 2
    {
      var text := CalcRawText(sym, limit);
      v := c.toInt(text, Base(sym.typ, base));
    }

    method CalcRawText(sym: Symbol, ghost limit: nat) returns (text: string)
      requires Ready(limit) && rank(sym) < limit
      modifies this
      ensures Sound(c, rank, View()) && Extends(old(View()), View(), {})
      ensures text == RawText(sym, Final(c, rank))
      decreases limit, 1
    {
      CalcValue(sym);
      assert Right(c, rank, sym, At(View(), sym));
      text := Own(sym).curr.str;
    }

    method CalcCondition(e: Option<Expr>, ghost limit: nat) returns (v: Tri)
      requires Ready(limit) && ConditionUnder(c, rank, e, limit)
      modifies this
      ensures Sound(c, rank, View()) && Extends(old(View()), View(), {})
      ensures v == ConditionValue(e, Final(c, rank))
      decreases limit, 3
    {
      if e.None? {
        return YES;
      }
      v := CalcExpr(e.value, limit);
    }

    /** `expr_calc_value`. */
    method CalcExpr(e: Expr, ghost limit: nat) returns (v: Tri)
      requires Ready(limit) && Under(c, rank, e, limit)
      modifies this
      ensures Sound(c, rank, View()) && Extends(old(View()), View(), {})
      ensures v == Value(e, Final(c, rank))
      decreases limit, 2, e
    {
      match e
      case Sym(s) =>
        CalcValue(s);
        assert Right(c, rank, s, At(View(), s));
        v := Own(s).curr.tri;
      case Not(x) =>
        v := CalcExpr(x, limit);
        v := Complement(v);
      case Bin(op, l, r) =>
        var v1 := CalcExpr(l, limit);
        var v2 := CalcExpr(r, limit);
        v := Apply(op, v1, v2);
      case Cmp(rel, lhs, rhs) =>
        var same := CompareStrings(lhs, rhs, limit);
        v := if same == rel.Equal? then YES else NO;
    }

    method CompareStrings(lhs: Symbol, rhs: Symbol, ghost limit: nat) returns (same: bool)
      requires Ready(limit) && rank(lhs) < limit && rank(rhs) < limit
      requires lhs.typ == TristateType || rhs.typ == TristateType ==> rank(c.modulesSym) < limit
      modifies this
      ensures Sound(c, rank, View()) && Extends(old(View()), View(), {})
      ensures same <==> Final(c, rank)(lhs).str == Final(c, rank)(rhs).str
      decreases limit, 1
    {
      CalcValue(lhs);
      CalcValue(rhs);
      var str1 := GetStringValue(lhs, limit);
      var str2 := GetStringValue(rhs, limit);
      same := str1 == str2;
    }

    /** `sym_get_string_value`. */
    method GetStringValue(sym: Symbol, ghost limit: nat) returns (str: string)
      requires Ready(limit) && rank(sym) < limit && sym in valid
      requires sym.typ == TristateType ==> rank(c.modulesSym) < limit
      modifies this
      ensures Sound(c, rank, View()) && Extends(old(View()), View(), {})
      ensures str == Final(c, rank)(sym).str
      decreases limit, 0
    {
      assert Right(c, rank, sym, At(View(), sym));
      if !IsLogical(sym) {
        return Own(sym).curr.str;
      }
      var tri := Own(sym).curr.tri;
      if tri != MOD {
        return TriString(tri);
      }
      if sym.typ == Boolean || c.modulesVal == NO {
        NeverMod(c, rank, sym);
      }
      CalcValue(c.modulesSym);
      assert Right(c, rank, c.modulesSym, At(View(), c.modulesSym));
      str := if Own(c.modulesSym).curr.tri == NO then "n" else "m";
    }
  }

  /**
   * Evaluating symbols in any order, each any number of times and with the memory wiped wherever the caller likes,
   * always gives the values of the definition by recursion.
   */
  method Evaluate(c: Config, ghost rank: Symbol -> nat, order: seq<Symbol>, wipe: set<int>) returns (values: seq<SymbolValue>)
    requires Legit(c, rank)
    ensures |values| == |order|
    ensures forall i | 0 <= i < |order| :: values[i] == Pure(c, rank, order[i])
  {
    var evaluator := new Evaluator(c, rank);
    values := [];
    for i := 0 to |order|
      invariant evaluator.c == c && evaluator.rank == rank
      invariant Sound(c, rank, evaluator.View()) && evaluator.busy == {}
      invariant |values| == i && forall j | 0 <= j < i :: values[j] == Pure(c, rank, order[j])
    {
      if i in wipe {
        evaluator.ClearAllValid();
      }
      evaluator.CalcValue(order[i]);
      assert Right(c, rank, order[i], At(evaluator.View(), order[i]));
      values := values + [evaluator.Own(order[i]).curr];
    }
  }
}
