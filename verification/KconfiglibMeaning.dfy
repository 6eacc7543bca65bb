/** What kconfiglib computes for symbols and choices, entry by entry. */
module KconfiglibMeaning {
  import opened Wrappers
  import opened Tristate
  import opened KconfiglibExpr
  import opened KconfiglibSpec
  import opened KconfiglibSolution

  // Lists with conditions

  predicate Holds(c: Setup, on: bool, e: Option<KExpr>, v: Values) {
    Cond(c, on, e, v) != NO
  }

  /** Entry `i` is the first whose condition is not `n`. */
  predicate FirstAt<T>(c: Setup, on: bool, entries: seq<(T, Option<KExpr>)>, v: Values, i: nat) {
    i < |entries| && Holds(c, on, entries[i].1, v) && forall j | 0 <= j < i :: !Holds(c, on, entries[j].1, v)
  }

  predicate NoneHolds<T>(c: Setup, on: bool, entries: seq<(T, Option<KExpr>)>, v: Values) {
    forall j | 0 <= j < |entries| :: !Holds(c, on, entries[j].1, v)
  }

  lemma {:induction false} FirstActiveAt<T>(c: Setup, on: bool, entries: seq<(T, Option<KExpr>)>, v: Values, i: nat)
    requires FirstAt(c, on, entries, v, i)
    ensures FirstActive(c, on, entries, v) == Some((entries[i].0, Cond(c, on, entries[i].1, v)))
  {
    if i > 0 {
      assert !Holds(c, on, entries[0].1, v);
      assert forall j | 0 <= j < |entries| - 1 :: entries[1..][j] == entries[j + 1];
      FirstActiveAt(c, on, entries[1..], v, i - 1);
    }
  }

  lemma {:induction false} NoFirstActive<T>(c: Setup, on: bool, entries: seq<(T, Option<KExpr>)>, v: Values)
    requires NoneHolds(c, on, entries, v)
    ensures FirstActive(c, on, entries, v) == None
  {
    if entries != [] {
      assert !Holds(c, on, entries[0].1, v);
      assert forall j | 0 <= j < |entries| - 1 :: entries[1..][j] == entries[j + 1];
      NoFirstActive(c, on, entries[1..], v);
    }
  }

  // Visibility

  /** `t` is the highest condition of a prompt, and n without prompts. */
  ghost predicate IsHighest(c: Setup, on: bool, prompts: seq<Option<KExpr>>, v: Values, t: Tri) {
    && (forall i | 0 <= i < |prompts| :: Cond(c, on, prompts[i], v) <= t)
    && (t != NO ==> exists i | 0 <= i < |prompts| :: Cond(c, on, prompts[i], v) == t)
  }

  lemma {:induction false} PromptsHighest(c: Setup, on: bool, prompts: seq<Option<KExpr>>, v: Values)
    ensures IsHighest(c, on, prompts, v, PromptMax(c, on, prompts, v))
    ensures !on ==> PromptMax(c, on, prompts, v) != MOD
  {
    if prompts != [] {
      var n := |prompts| - 1;
      PromptsHighest(c, on, prompts[..n], v);
      var before, last := PromptMax(c, on, prompts[..n], v), Cond(c, on, prompts[n], v);
      assert forall i | 0 <= i < n :: prompts[..n][i] == prompts[i];
      if before != NO {
        var i :| 0 <= i < n && Cond(c, on, prompts[..n][i], v) == before;
        assert Cond(c, on, prompts[i], v) == before;
      }
      assert Cond(c, on, prompts[n], v) == last;
    }
  }

  /** m counts as y for anything that is not tristate. */
  predicate Raised(kind: Kind, t: Tri, r: Tri) {
    r == if t == MOD && kind != TristateKind then YES else t
  }

  ghost predicate ChoiceVisibilityIs(c: Setup, on: bool, ch: Choice, v: Values, vis: Tri) {
    exists t: Tri :: IsHighest(c, on, c.choice(ch).prompts, v, t) && Raised(c.choice(ch).kind, t, vis)
  }

  /** A symbol is as visible as its most visible prompt, and no more than its choice. */
  ghost predicate VisibilityIs(c: Setup, on: bool, s: Sym, v: Values, vis: Tri) {
    var info := c.info(s);
    exists t: Tri ::
      && IsHighest(c, on, info.prompts, v, t)
      && Raised(info.kind, if info.choice.None? then t else Min(t, ChoiceVisibility(c, on, info.choice.value, v)), vis)
  }

  lemma {:induction false} ChoiceVisibilityMeaning(c: Setup, on: bool, ch: Choice, v: Values)
    ensures ChoiceVisibilityIs(c, on, ch, v, ChoiceVisibility(c, on, ch, v))
    ensures !on ==> ChoiceVisibility(c, on, ch, v) != MOD
  {
    PromptsHighest(c, on, c.choice(ch).prompts, v);
  }

  lemma {:induction false} VisibilityMeaning(c: Setup, on: bool, s: Sym, v: Values)
    ensures VisibilityIs(c, on, s, v, Visibility(c, on, s, v))
    ensures !on ==> Visibility(c, on, s, v) != MOD
  {
    PromptsHighest(c, on, c.info(s).prompts, v);
    if c.info(s).choice.Some? {
      ChoiceVisibilityMeaning(c, on, c.info(s).choice.value, v);
    }
  }

  // Choices

  /**
   * The mode is n if nothing is wanted or shown, y if y is wanted and shown, and otherwise m, where m is possible. The
   * user decides what is wanted; without a decision it is m, or n for an optional choice.
   */
  predicate ModeIs(c: Setup, on: bool, u: User, ch: Choice, shown: Tri, mode: Tri) {
    var info := c.choice(ch);
    if shown == NO || (ch in u.mode && u.mode[ch] == NO) || (ch !in u.mode && info.isOptional) then mode == NO
    else if shown == YES && ch in u.mode && u.mode[ch] == YES then mode == YES
    else mode == if on && info.kind != Bool then MOD else YES
  }

  lemma {:induction false} ModeMeaning(c: Setup, on: bool, u: User, ch: Choice, shown: Tri)
    ensures ModeIs(c, on, u, ch, shown, ModeGiven(c, on, u, ch, shown))
  {
  }

  /** The first active default of the choice, or its first symbol; if that is not visible, the first symbol that is. */
  ghost predicate DefaultSelectionIs(c: Setup, on: bool, ch: Choice, v: Values, r: Option<Sym>) {
    var info := c.choice(ch);
    if info.symbols == [] then r == None
    else
      && (forall i: nat {:trigger FirstAt(c, on, info.defaults, v, i)} | FirstAt(c, on, info.defaults, v, i) ::
            PreferredIs(c, on, ch, v, info.defaults[i].0, r))
      && (NoneHolds(c, on, info.defaults, v) ==> PreferredIs(c, on, ch, v, info.symbols[0], r))
  }

  ghost predicate PreferredIs(c: Setup, on: bool, ch: Choice, v: Values, preferred: Sym, r: Option<Sym>) {
    if Visibility(c, on, preferred, v) != NO then r == Some(preferred)
    else FirstVisibleIs(c, on, c.choice(ch).symbols, v, r)
  }

  ghost predicate FirstVisibleIs(c: Setup, on: bool, symbols: seq<Sym>, v: Values, r: Option<Sym>) {
    match r
    case None => forall i | 0 <= i < |symbols| :: Visibility(c, on, symbols[i], v) == NO
    case Some(s) =>
      exists k | 0 <= k < |symbols| ::
        && symbols[k] == s && Visibility(c, on, s, v) != NO
        && forall i | 0 <= i < k :: Visibility(c, on, symbols[i], v) == NO
  }

  /** In mode y a visible selection of the user wins; without one an optional choice selects nothing. */
  ghost predicate SelectionIs(c: Setup, on: bool, u: User, ch: Choice, v: Values, r: Option<Sym>) {
    if Mode(c, on, u, ch, v) != YES then r == None
    else if ch in u.selected && Visibility(c, on, u.selected[ch], v) == YES then r == Some(u.selected[ch])
    else if c.choice(ch).isOptional then r == None
    else DefaultSelectionIs(c, on, ch, v, r)
  }

  lemma {:induction false} FirstVisibleMeaning(c: Setup, on: bool, symbols: seq<Sym>, v: Values)
    ensures FirstVisibleIs(c, on, symbols, v, FirstVisible(c, on, symbols, v))
  {
    if symbols != [] && Visibility(c, on, symbols[0], v) == NO {
      FirstVisibleMeaning(c, on, symbols[1..], v);
      var r := FirstVisible(c, on, symbols[1..], v);
      assert forall i | 0 <= i < |symbols| - 1 :: symbols[1..][i] == symbols[i + 1];
      if r.Some? {
        var k :| 0 <= k < |symbols| - 1 && symbols[1..][k] == r.value
                 && forall i | 0 <= i < k :: Visibility(c, on, symbols[1..][i], v) == NO;
        assert symbols[k + 1] == r.value;
        assert forall i | 1 <= i < k + 1 :: symbols[i] == symbols[1..][i - 1];
      }
    }
  }

  lemma {:induction false} DefaultSelectionMeaning(c: Setup, on: bool, ch: Choice, v: Values)
    ensures DefaultSelectionIs(c, on, ch, v, DefaultSelection(c, on, ch, v))
  {
    var defaults := c.choice(ch).defaults;
    FirstVisibleMeaning(c, on, c.choice(ch).symbols, v);
    forall i: nat | FirstAt(c, on, defaults, v, i)
      ensures FirstActive(c, on, defaults, v) == Some((defaults[i].0, Cond(c, on, defaults[i].1, v)))
    {
      FirstActiveAt(c, on, defaults, v, i);
    }
    if NoneHolds(c, on, defaults, v) {
      NoFirstActive(c, on, defaults, v);
    }
  }

  lemma {:induction false} SelectionMeaning(c: Setup, on: bool, u: User, ch: Choice, v: Values)
    ensures SelectionIs(c, on, u, ch, v, Selection(c, on, u, ch, v))
  {
    DefaultSelectionMeaning(c, on, ch, v);
  }

  // Bool and tristate symbols

  /** A visible user value up to the visibility, else the first active default up to its condition, else n. */
  ghost predicate OwnIs(c: Setup, on: bool, u: User, s: Sym, v: Values, own: Tri) {
    var vis, defaults := Visibility(c, on, s, v), c.info(s).defaults;
    if vis != NO && s in u.values then own == Min(Top(on, TriOf(u.values[s])), vis)
    else
      && (NoneHolds(c, on, defaults, v) ==> own == NO)
      && forall i: nat {:trigger FirstAt(c, on, defaults, v, i)} | FirstAt(c, on, defaults, v, i) ::
           own == Min(Cond(c, on, Some(defaults[i].0), v), Cond(c, on, defaults[i].1, v))
  }

  /** Outside choices: what the symbol has of its own, but at least as much as it is selected. */
  ghost predicate PlainIs(c: Setup, on: bool, u: User, s: Sym, v: Values, t: Tri) {
    exists own: Tri ::
      OwnIs(c, on, u, s, v, own) && Raised(c.info(s).kind, Max(own, Cond(c, on, Some(c.info(s).revDep), v)), t)
  }

  /** In a choice: y for the selected symbol in mode y, m for user values other than n in mode m, else n. */
  predicate ChosenIs(c: Setup, on: bool, u: User, s: Sym, ch: Choice, v: Values, t: Tri) {
    var mode := Mode(c, on, u, ch, v);
    if Visibility(c, on, s, v) == NO || mode == NO then t == NO
    else if mode == YES then t == if Selection(c, on, u, ch, v) == Some(s) then YES else NO
    else Raised(c.info(s).kind, if s in u.values && u.values[s] in ["m", "y"] then MOD else NO, t)
  }

  lemma {:induction false} OwnMeaning(c: Setup, on: bool, u: User, s: Sym, v: Values) returns (own: Tri)
    ensures OwnIs(c, on, u, s, v, own) && (!on ==> own != MOD)
    ensures own == if Visibility(c, on, s, v) != NO && s in u.values
                   then Min(Top(on, TriOf(u.values[s])), Top(on, Visibility(c, on, s, v)))
                   else DefaultTri(c, on, s, v)
  {
    var vis, defaults := Visibility(c, on, s, v), c.info(s).defaults;
    VisibilityMeaning(c, on, s, v);
    own := if vis != NO && s in u.values then Min(Top(on, TriOf(u.values[s])), Top(on, vis)) else DefaultTri(c, on, s, v);
    forall i: nat | FirstAt(c, on, defaults, v, i)
      ensures FirstActive(c, on, defaults, v) == Some((defaults[i].0, Cond(c, on, defaults[i].1, v)))
    {
      FirstActiveAt(c, on, defaults, v, i);
    }
    if NoneHolds(c, on, defaults, v) {
      NoFirstActive(c, on, defaults, v);
    }
  }

  lemma {:induction false} PlainMeaning(c: Setup, on: bool, u: User, s: Sym, v: Values)
    requires c.info(s).kind == Bool || c.info(s).kind == TristateKind
    ensures var t := PlainTri(c, on, u, s, v);
            PlainIs(c, on, u, s, v, if t == MOD && c.info(s).kind == Bool then YES else t)
  {
    var own := OwnMeaning(c, on, u, s, v);
    var rev := Cond(c, on, Some(c.info(s).revDep), v);
    assert PlainTri(c, on, u, s, v) == Max(own, rev);
  }

  // Strings and numbers

  /** The text of a default, which has to be an operand. */
  function TextAt(defaults: seq<(KExpr, Option<KExpr>)>, v: Values, i: nat): string
    requires i < |defaults|
  {
    match defaults[i].0
    case Leaf(SymbolRef(t)) => v(t)
    case Leaf(Text(text)) => text
    case _ => ""
  }

  /** A visible user value, else the first active default, else nothing. */
  ghost predicate StringIs(c: Setup, on: bool, u: User, s: Sym, v: Values, text: string) {
    var defaults := c.info(s).defaults;
    if Visibility(c, on, s, v) != NO && s in u.values then text == u.values[s]
    else
      && (NoneHolds(c, on, defaults, v) ==> text == "")
      && forall i: nat {:trigger FirstAt(c, on, defaults, v, i)} | FirstAt(c, on, defaults, v, i) ::
           text == TextAt(defaults, v, i)
  }

  lemma {:induction false} StringMeaning(c: Setup, on: bool, u: User, s: Sym, v: Values)
    ensures StringIs(c, on, u, s, v, TextValue(c, on, u, s, v))
  {
    var defaults := c.info(s).defaults;
    forall i: nat | FirstAt(c, on, defaults, v, i)
      ensures FirstActive(c, on, defaults, v) == Some((defaults[i].0, Cond(c, on, defaults[i].1, v)))
    {
      FirstActiveAt(c, on, defaults, v, i);
    }
    if NoneHolds(c, on, defaults, v) {
      NoFirstActive(c, on, defaults, v);
    }
  }

  /** A bound that is no number counts as 0. */
  predicate BoundIs(c: Setup, o: Operand, base: int, v: Values, n: int) {
    var text := match o case SymbolRef(t) => v(t) case Text(x) => x case Stray => "";
    n == if c.isBase(text, base) then c.toInt(text, base) else 0
  }

  /** The bounds of the first active range. */
  ghost predicate RangeIs(c: Setup, on: bool, s: Sym, base: int, v: Values, range: Option<(int, int)>) {
    var ranges := c.info(s).ranges;
    && (NoneHolds(c, on, ranges, v) ==> range == None)
    && forall i: nat {:trigger FirstAt(c, on, ranges, v, i)} | FirstAt(c, on, ranges, v, i) ::
         range.Some? && BoundIs(c, ranges[i].0.0, base, v, range.value.0) && BoundIs(c, ranges[i].0.1, base, v, range.value.1)
  }

  lemma {:induction false} RangeMeaning(c: Setup, on: bool, s: Sym, base: int, v: Values)
    ensures RangeIs(c, on, s, base, v, ActiveRange(c, on, s, base, v))
  {
    var ranges := c.info(s).ranges;
    forall i: nat | FirstAt(c, on, ranges, v, i)
      ensures FirstActive(c, on, ranges, v) == Some((ranges[i].0, Cond(c, on, ranges[i].1, v)))
    {
      FirstActiveAt(c, on, ranges, v, i);
    }
    if NoneHolds(c, on, ranges, v) {
      NoFirstActive(c, on, ranges, v);
    }
  }

  predicate NumberAt(c: Setup, on: bool, defaults: seq<(KExpr, Option<KExpr>)>, base: int, v: Values, i: nat)
    requires i < |defaults|
  {
    Holds(c, on, defaults[i].1, v) && c.isBase(TextAt(defaults, v, i), base)
  }

  predicate FirstNumberAt(c: Setup, on: bool, defaults: seq<(KExpr, Option<KExpr>)>, base: int, v: Values, i: nat) {
    i < |defaults| && NumberAt(c, on, defaults, base, v, i) && forall j | 0 <= j < i :: !NumberAt(c, on, defaults, base, v, j)
  }

  predicate NoNumber(c: Setup, on: bool, defaults: seq<(KExpr, Option<KExpr>)>, base: int, v: Values) {
    forall j | 0 <= j < |defaults| :: !NumberAt(c, on, defaults, base, v, j)
  }

  predicate LastAt(c: Setup, on: bool, defaults: seq<(KExpr, Option<KExpr>)>, v: Values, i: nat) {
    && i < |defaults| && Holds(c, on, defaults[i].1, v)
    && forall j | i < j < |defaults| :: !Holds(c, on, defaults[j].1, v)
  }

  /** A number below or above the range gives way to the bound. */
  predicate KeptWithin(c: Setup, text: string, base: int, range: Option<(int, int)>, r: string) {
    var n := c.toInt(text, base);
    match range
    case None => r == text
    case Some(bounds) =>
      r == if n < bounds.0 then c.format(bounds.0, base) else if n > bounds.1 then c.format(bounds.1, base) else text
  }

  /**
   * The first active default that is a number, kept within the range. If there is none: the lower bound if it is
   * positive, else the last active default as it stands, else nothing.
   */
  ghost predicate DefaultNumberIs(c: Setup, on: bool, defaults: seq<(KExpr, Option<KExpr>)>, base: int,
                                  range: Option<(int, int)>, sofar: string, v: Values, r: string)
  {
    && (forall i: nat {:trigger FirstNumberAt(c, on, defaults, base, v, i)} | FirstNumberAt(c, on, defaults, base, v, i) ::
          KeptWithin(c, TextAt(defaults, v, i), base, range, r))
    && (NoNumber(c, on, defaults, base, v) ==>
          if range.Some? && range.value.0 > 0 then r == c.format(range.value.0, base)
          else
            && (NoneHolds(c, on, defaults, v) ==> r == sofar)
            && forall i: nat {:trigger LastAt(c, on, defaults, v, i)} | LastAt(c, on, defaults, v, i) ::
                 r == TextAt(defaults, v, i))
  }

  lemma {:induction false} DefaultNumberMeaning(c: Setup, on: bool, defaults: seq<(KExpr, Option<KExpr>)>, base: int,
                                                range: Option<(int, int)>, sofar: string, v: Values)
    ensures DefaultNumberIs(c, on, defaults, base, range, sofar, v, DefaultNumber(c, on, defaults, base, range, sofar, v))
  {
    if defaults != [] {
      var rest := defaults[1..];
      var active, text := Holds(c, on, defaults[0].1, v), TextAt(defaults, v, 0);
      assert TextOf(c, defaults[0].0, v) == text;
      if !(active && c.isBase(text, base)) {
        assert !NumberAt(c, on, defaults, base, v, 0);
        DefaultNumberMeaning(c, on, rest, base, range, if active then text else sofar, v);
        RestOfDefaults(c, on, defaults, base, range, sofar, v, DefaultNumber(c, on, defaults, base, range, sofar, v));
      } else {
        assert NumberAt(c, on, defaults, base, v, 0);
      }
    }
  }

  lemma {:induction false} RestOfDefaults(c: Setup, on: bool, defaults: seq<(KExpr, Option<KExpr>)>, base: int,
                                          range: Option<(int, int)>, sofar: string, v: Values, r: string)
    requires defaults != [] && !NumberAt(c, on, defaults, base, v, 0)
    requires DefaultNumberIs(c, on, defaults[1..], base, range,
                             if Holds(c, on, defaults[0].1, v) then TextAt(defaults, v, 0) else sofar, v, r)
    ensures DefaultNumberIs(c, on, defaults, base, range, sofar, v, r)
  {
    var rest := defaults[1..];
    forall j | 0 <= j < |rest|
      ensures NumberAt(c, on, rest, base, v, j) <==> NumberAt(c, on, defaults, base, v, j + 1)
      ensures Holds(c, on, rest[j].1, v) <==> Holds(c, on, defaults[j + 1].1, v)
      ensures TextAt(rest, v, j) == TextAt(defaults, v, j + 1)
    {
    }
    forall i: nat | FirstNumberAt(c, on, defaults, base, v, i) ensures i > 0 && FirstNumberAt(c, on, rest, base, v, i - 1) {
      forall j | 0 <= j < i - 1 ensures !NumberAt(c, on, rest, base, v, j) {
        assert !NumberAt(c, on, defaults, base, v, j + 1);
      }
    }
    if NoNumber(c, on, defaults, base, v) {
      forall j | 0 <= j < |rest| ensures !NumberAt(c, on, rest, base, v, j) {
        assert !NumberAt(c, on, defaults, base, v, j + 1);
      }
      forall i: nat | LastAt(c, on, defaults, v, i)
        ensures if i == 0 then NoneHolds(c, on, rest, v) else LastAt(c, on, rest, v, i - 1)
      {
        forall j | i <= j < |rest| ensures !Holds(c, on, rest[j].1, v) {
          assert !Holds(c, on, defaults[j + 1].1, v);
        }
      }
    }
  }

  /** A visible user value that is a number within the active range, else a default. */
  ghost predicate NumberIs(c: Setup, on: bool, u: User, s: Sym, v: Values, text: string) {
    var base := if c.info(s).kind == Hexadecimal then 16 else 10;
    exists range ::
      && RangeIs(c, on, s, base, v, range)
      && if Visibility(c, on, s, v) != NO && s in u.values && c.isBase(u.values[s], base)
            && (range.Some? ==> range.value.0 <= c.toInt(u.values[s], base) <= range.value.1)
         then text == u.values[s]
         else DefaultNumberIs(c, on, c.info(s).defaults, base, range, "", v, text)
  }

  lemma {:induction false} NumberMeaning(c: Setup, on: bool, u: User, s: Sym, v: Values)
    ensures NumberIs(c, on, u, s, v, NumberValue(c, on, u, s, v))
  {
    var base := Base(c.info(s).kind);
    RangeMeaning(c, on, s, base, v);
    DefaultNumberMeaning(c, on, c.info(s).defaults, base, ActiveRange(c, on, s, base, v), "", v);
  }

  // All symbols

  /** The value of a symbol, given the values of the others. */
  ghost predicate ValueIs(c: Setup, on: bool, u: User, s: Sym, v: Values, text: string) {
    var info := c.info(s);
    if info.special.Some? then text == info.special.value
    else
      match info.kind
      case Unknown => text == info.name
      case StringKind => StringIs(c, on, u, s, v, text)
      case Integer => NumberIs(c, on, u, s, v, text)
      case Hexadecimal => NumberIs(c, on, u, s, v, text)
      case _ =>
        exists t: Tri ::
          && text == TriString(t)
          && if info.choice.Some? then ChosenIs(c, on, u, s, info.choice.value, v, t) else PlainIs(c, on, u, s, v, t)
  }

  lemma {:induction false} ChosenMeaning(c: Setup, on: bool, u: User, s: Sym, v: Values)
    requires c.info(s).choice.Some? && (c.info(s).kind == Bool || c.info(s).kind == TristateKind)
    ensures ChosenIs(c, on, u, s, c.info(s).choice.value, v, TriValue(c, on, u, s, v))
  {
  }

  lemma {:induction false} ValueMeaning(c: Setup, on: bool, u: User, s: Sym, v: Values)
    ensures ValueIs(c, on, u, s, v, ValueOf(c, on, u, s, v))
  {
    var info := c.info(s);
    if info.special.None? && (info.kind == Bool || info.kind == TristateKind) {
      var t := TriValue(c, on, u, s, v);
      if info.choice.Some? {
        ChosenMeaning(c, on, u, s, v);
      } else {
        PlainMeaning(c, on, u, s, v);
      }
      assert ValueOf(c, on, u, s, v) == TriString(t);
    } else if info.special.None? && info.kind == StringKind {
      StringMeaning(c, on, u, s, v);
    } else if info.special.None? && info.kind != Unknown {
      NumberMeaning(c, on, u, s, v);
    }
  }

  /** No bool symbol is m, and while modules are off no tristate symbol is. */
  lemma {:induction false} NeverMod(c: Setup, on: bool, u: User, s: Sym, v: Values)
    requires c.info(s).special.None? && (c.info(s).kind == Bool || (c.info(s).kind == TristateKind && !on))
    ensures ValueOf(c, on, u, s, v) != "m"
  {
    if c.info(s).choice.None? {
      var own := OwnMeaning(c, on, u, s, v);
    } else {
      var ch := c.info(s).choice.value;
      ModeMeaning(c, on, u, ch, ChoiceVisibility(c, on, ch, v));
    }
  }

  /** The value from scratch is what the entries say, given the values from scratch of all symbols. */
  lemma {:induction false} FinalMeaning(c: Setup, u: User, rank: Sym -> nat, s: Sym)
    requires Ranked(c, rank) && SelectionsValid(c, u)
    ensures ValueIs(c, ModulesOn(c, u, rank), u, s, Final(c, u, rank), Final(c, u, rank)(s))
  {
    var on := ModulesOn(c, u, rank);
    SolutionSolves(c, on, u, rank);
    assert Final(c, u, rank) == Solution(c, on, u, rank);
    ValueMeaning(c, on, u, s, Final(c, u, rank));
  }
}
