/** The value of every kconfiglib symbol from scratch, as a function of the user values. */
module KconfiglibSpec {
  import opened Wrappers
  import opened Tristate
  import opened KconfiglibExpr

  type Choice = nat

  datatype Kind = Unknown | Bool | TristateKind | StringKind | Integer | Hexadecimal

  /** `special` symbols (n, m, y and those from the environment) have a fixed value. */
  datatype SymInfo = SymInfo(name: string, kind: Kind, prompts: seq<Option<KExpr>>, defaults: seq<(KExpr, Option<KExpr>)>,
                             ranges: seq<((Operand, Operand), Option<KExpr>)>, revDep: KExpr,
                             choice: Option<Choice>, special: Option<string>)

  datatype ChoiceInfo = ChoiceInfo(kind: Kind, isOptional: bool, prompts: seq<Option<KExpr>>,
                                   defaults: seq<(Sym, Option<KExpr>)>, symbols: seq<Sym>)

  /**
   * What the Kconfig files say. `isBase`, `toInt` and `format` stand for `_is_base_n`, `int` and `str` or `hex`.
   */
  datatype Setup = Setup(syms: set<Sym>, info: Sym -> SymInfo, choice: Choice -> ChoiceInfo, modules: Option<Sym>,
                         isBase: (string, int) -> bool, toInt: (string, int) -> int, format: (int, int) -> string)

  /** What the user has set: values of symbols, selections and modes of choices. */
  datatype User = User(values: map<Sym, string>, selected: map<Choice, Sym>, mode: map<Choice, Tri>)

  type Values = Sym -> string

  predicate IsLogical(kind: Kind) {
    kind == Bool || kind == TristateKind
  }

  function EnvFor(c: Setup, v: Values): Env {
    Env((s: Sym) => IsLogical(c.info(s).kind), v)
  }

  /** `_eval_expr` on top of `_eval_expr_2`: without modules `m` counts as `y`. */
  function Top(on: bool, t: Tri): Tri {
    if t == MOD && !on then YES else t
  }

  function Cond(c: Setup, on: bool, e: Option<KExpr>, v: Values): Tri {
    Top(on, OptionalValue(e, EnvFor(c, v)))
  }

  /** The loop over the prompts in `_get_visibility`, last prompt last. */
  function PromptMax(c: Setup, on: bool, prompts: seq<Option<KExpr>>, v: Values): Tri {
    if prompts == [] then NO
    else
      var n := |prompts| - 1;
      Max(Top(on, PromptMax(c, on, prompts[..n], v)), Cond(c, on, prompts[n], v))
  }

  function Promoted(kind: Kind, t: Tri): Tri {
    if t == MOD && kind != TristateKind then YES else t
  }

  function ChoiceVisibility(c: Setup, on: bool, ch: Choice, v: Values): Tri {
    Promoted(c.choice(ch).kind, PromptMax(c, on, c.choice(ch).prompts, v))
  }

  function Visibility(c: Setup, on: bool, s: Sym, v: Values): Tri {
    var info := c.info(s);
    var own := PromptMax(c, on, info.prompts, v);
    Promoted(info.kind,
             if info.choice.None? then own
             else Min(Top(on, own), Top(on, ChoiceVisibility(c, on, info.choice.value, v))))
  }

  function WantedMode(c: Setup, u: User, ch: Choice): Tri {
    if ch in u.mode then u.mode[ch] else if c.choice(ch).isOptional then NO else MOD
  }

  /** The mode of a choice with the given visibility. */
  function ModeGiven(c: Setup, on: bool, u: User, ch: Choice, visible: Tri): Tri {
    var mode := Min(Top(on, WantedMode(c, u, ch)), Top(on, visible));
    if mode == MOD && c.choice(ch).kind == Bool then YES else mode
  }

  function Mode(c: Setup, on: bool, u: User, ch: Choice, v: Values): Tri {
    ModeGiven(c, on, u, ch, ChoiceVisibility(c, on, ch, v))
  }

  /** The first entry whose condition is not `n`, with the value of the condition. */
  function FirstActive<T>(c: Setup, on: bool, entries: seq<(T, Option<KExpr>)>, v: Values): Option<(T, Tri)> {
    if entries == [] then None
    else
      var t := Cond(c, on, entries[0].1, v);
      if t != NO then Some((entries[0].0, t)) else FirstActive(c, on, entries[1..], v)
  }

  function FirstVisible(c: Setup, on: bool, symbols: seq<Sym>, v: Values): Option<Sym> {
    if symbols == [] then None
    else if Visibility(c, on, symbols[0], v) != NO then Some(symbols[0])
    else FirstVisible(c, on, symbols[1..], v)
  }

  /** `get_selection_from_defaults`. */
  function DefaultSelection(c: Setup, on: bool, ch: Choice, v: Values): Option<Sym> {
    var info := c.choice(ch);
    if info.symbols == [] then None
    else
      var chosen := match FirstActive(c, on, info.defaults, v) case None => info.symbols[0] case Some(d) => d.0;
      if Visibility(c, on, chosen, v) != NO then Some(chosen) else FirstVisible(c, on, info.symbols, v)
  }

  /** `get_selection`. */
  function Selection(c: Setup, on: bool, u: User, ch: Choice, v: Values): Option<Sym> {
    if Mode(c, on, u, ch, v) != YES then None
    else if ch in u.selected && Visibility(c, on, u.selected[ch], v) == YES then Some(u.selected[ch])
    else if c.choice(ch).isOptional then None
    else DefaultSelection(c, on, ch, v)
  }

  function ChoiceSymbolTri(c: Setup, on: bool, u: User, s: Sym, ch: Choice, v: Values): Tri {
    if Visibility(c, on, s, v) == NO then NO
    else
      var mode := Mode(c, on, u, ch, v);
      if mode == YES then if Selection(c, on, u, ch, v) == Some(s) then YES else NO
      else if mode == MOD && s in u.values && (u.values[s] == "m" || u.values[s] == "y") then MOD
      else NO
  }

  function DefaultTri(c: Setup, on: bool, s: Sym, v: Values): Tri {
    match FirstActive(c, on, c.info(s).defaults, v)
    case None => NO
    case Some(d) => Min(Cond(c, on, Some(d.0), v), Top(on, d.1))
  }

  function PlainTri(c: Setup, on: bool, u: User, s: Sym, v: Values): Tri {
    var visible := Visibility(c, on, s, v);
    var own := if visible != NO && s in u.values then Min(Top(on, TriOf(u.values[s])), Top(on, visible))
               else DefaultTri(c, on, s, v);
    var rev := Cond(c, on, Some(c.info(s).revDep), v);
    if rev != NO then Max(Top(on, own), Top(on, rev)) else own
  }

  function TriValue(c: Setup, on: bool, u: User, s: Sym, v: Values): Tri {
    var info := c.info(s);
    var t := if info.choice.Some? then ChoiceSymbolTri(c, on, u, s, info.choice.value, v) else PlainTri(c, on, u, s, v);
    if t == MOD && info.kind == Bool then YES else t
  }

  /** `_get_str_value` of a default, which is an operand for symbols that are not logical. */
  function TextOf(c: Setup, e: KExpr, v: Values): string {
    if e.Leaf? then StringOf(e.o, EnvFor(c, v)) else ""
  }

  function TextValue(c: Setup, on: bool, u: User, s: Sym, v: Values): string {
    if Visibility(c, on, s, v) != NO && s in u.values then u.values[s]
    else
      match FirstActive(c, on, c.info(s).defaults, v)
      case None => ""
      case Some(d) => TextOf(c, d.0, v)
  }

  function NumberOf(c: Setup, o: Operand, base: int, v: Values): int {
    var text := StringOf(o, EnvFor(c, v));
    if c.isBase(text, base) then c.toInt(text, base) else 0
  }

  function ActiveRange(c: Setup, on: bool, s: Sym, base: int, v: Values): Option<(int, int)> {
    match FirstActive(c, on, c.info(s).ranges, v)
    case None => None
    case Some(r) => Some((NumberOf(c, r.0.0, base, v), NumberOf(c, r.0.1, base, v)))
  }

  predicate WithinRange(range: Option<(int, int)>, n: int) {
    range.None? || range.value.0 <= n <= range.value.1
  }

  function Clamp(c: Setup, text: string, base: int, range: Option<(int, int)>): string {
    var n := c.toInt(text, base);
    if range.Some? && n < range.value.0 then c.format(range.value.0, base)
    else if range.Some? && n > range.value.1 then c.format(range.value.1, base)
    else text
  }

  /** The loop over the defaults of a number: a default that is no number is kept only if nothing comes after it. */
  function DefaultNumber(c: Setup, on: bool, defaults: seq<(KExpr, Option<KExpr>)>, base: int, range: Option<(int, int)>,
                         sofar: string, v: Values): string
  {
    if defaults == [] then
      if range.Some? && range.value.0 > 0 then c.format(range.value.0, base) else sofar
    else if Cond(c, on, defaults[0].1, v) == NO then DefaultNumber(c, on, defaults[1..], base, range, sofar, v)
    else
      var text := TextOf(c, defaults[0].0, v);
      if c.isBase(text, base) then Clamp(c, text, base, range)
      else DefaultNumber(c, on, defaults[1..], base, range, text, v)
  }

  function Base(kind: Kind): int {
    if kind == Hexadecimal then 16 else 10
  }

  function NumberValue(c: Setup, on: bool, u: User, s: Sym, v: Values): string {
    var base := Base(c.info(s).kind);
    var range := ActiveRange(c, on, s, base, v);
    if Visibility(c, on, s, v) != NO && s in u.values && c.isBase(u.values[s], base)
       && WithinRange(range, c.toInt(u.values[s], base))
    then u.values[s]
    else DefaultNumber(c, on, c.info(s).defaults, base, range, "", v)
  }

  /** `get_value` without its cache, given the values of other symbols. */
  function ValueOf(c: Setup, on: bool, u: User, s: Sym, v: Values): string {
    var info := c.info(s);
    match info.special
    case Some(text) => text
    case None =>
      match info.kind
      case Unknown => info.name
      case Bool => TriString(TriValue(c, on, u, s, v))
      case TristateKind => TriString(TriValue(c, on, u, s, v))
      case StringKind => TextValue(c, on, u, s, v)
      case _ => NumberValue(c, on, u, s, v)
  }

  // Ranks: the dependency graph is acyclic once the symbols of a choice count as one node

  predicate OperandUnder(rank: Sym -> nat, o: Operand, limit: nat) {
    o.SymbolRef? ==> rank(o.sym) < limit
  }

  predicate ExprUnder(rank: Sym -> nat, e: KExpr, limit: nat)
    decreases e
  {
    match e
    case Leaf(o) => OperandUnder(rank, o, limit)
    case And(terms) => TermsUnder(rank, terms, limit)
    case Or(terms) => TermsUnder(rank, terms, limit)
    case Not(x) => ExprUnder(rank, x, limit)
    case Equal(l, r) => OperandUnder(rank, l, limit) && OperandUnder(rank, r, limit)
    case Unequal(l, r) => OperandUnder(rank, l, limit) && OperandUnder(rank, r, limit)
  }

  predicate TermsUnder(rank: Sym -> nat, terms: seq<KExpr>, limit: nat)
    decreases terms
  {
    terms == [] || (ExprUnder(rank, terms[0], limit) && TermsUnder(rank, terms[1..], limit))
  }

  predicate CondUnder(rank: Sym -> nat, e: Option<KExpr>, limit: nat) {
    e.None? || ExprUnder(rank, e.value, limit)
  }

  predicate PromptsUnder(rank: Sym -> nat, prompts: seq<Option<KExpr>>, limit: nat) {
    forall i | 0 <= i < |prompts| :: CondUnder(rank, prompts[i], limit)
  }

  predicate EntriesUnder<T>(rank: Sym -> nat, entries: seq<(T, Option<KExpr>)>, limit: nat) {
    forall i | 0 <= i < |entries| :: CondUnder(rank, entries[i].1, limit)
  }

  predicate DefaultsUnder(rank: Sym -> nat, defaults: seq<(KExpr, Option<KExpr>)>, limit: nat) {
    && EntriesUnder(rank, defaults, limit)
    && forall i | 0 <= i < |defaults| :: ExprUnder(rank, defaults[i].0, limit)
  }

  predicate RangesUnder(rank: Sym -> nat, ranges: seq<((Operand, Operand), Option<KExpr>)>, limit: nat) {
    && EntriesUnder(rank, ranges, limit)
    && forall i | 0 <= i < |ranges| :: BoundsUnder(rank, ranges[i].0, limit)
  }

  predicate BoundsUnder(rank: Sym -> nat, bounds: (Operand, Operand), limit: nat) {
    OperandUnder(rank, bounds.0, limit) && OperandUnder(rank, bounds.1, limit)
  }

  /** The symbols of a choice share a rank; the choice itself depends on lower symbols only. */
  predicate ChoiceUnder(c: Setup, rank: Sym -> nat, ch: Choice, limit: nat) {
    var info := c.choice(ch);
    && PromptsUnder(rank, info.prompts, limit)
    && EntriesUnder(rank, info.defaults, limit)
    && (forall t | t in info.symbols :: rank(t) == limit && c.info(t).choice == Some(ch))
    && (forall i | 0 <= i < |info.defaults| :: info.defaults[i].0 in info.symbols)
  }

  predicate SymbolUnder(c: Setup, rank: Sym -> nat, s: Sym) {
    var info := c.info(s);
    && PromptsUnder(rank, info.prompts, rank(s))
    && DefaultsUnder(rank, info.defaults, rank(s))
    && RangesUnder(rank, info.ranges, rank(s))
    && ExprUnder(rank, info.revDep, rank(s))
    && (info.choice.Some? ==> ChoiceUnder(c, rank, info.choice.value, rank(s)) && s in c.choice(info.choice.value).symbols)
  }

  ghost predicate Ranked(c: Setup, rank: Sym -> nat) {
    forall s: Sym :: SymbolUnder(c, rank, s)
  }

  ghost function Below(c: Setup, on: bool, u: User, rank: Sym -> nat, s: Sym): Values
    decreases rank(s), 0
  {
    (t: Sym) => if rank(t) < rank(s) then Pure(c, on, u, rank, t) else ""
  }

  /** The value of a symbol by recursion on its rank, with modules switched on or off. */
  ghost function Pure(c: Setup, on: bool, u: User, rank: Sym -> nat, s: Sym): string
    decreases rank(s), 1
  {
    ValueOf(c, on, u, s, Below(c, on, u, rank, s))
  }

  /** The symbol MODULES does not depend on whether modules are on (`ModulesIndependent`). */
  ghost predicate ModulesOn(c: Setup, u: User, rank: Sym -> nat) {
    c.modules.Some? && Pure(c, false, u, rank, c.modules.value) == "y"
  }

  ghost function Final(c: Setup, u: User, rank: Sym -> nat): Values {
    (s: Sym) => Pure(c, ModulesOn(c, u, rank), u, rank, s)
  }
}
