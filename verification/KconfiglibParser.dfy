/** Printing and parsing of kconfiglib expressions on tokens (`_expr_to_str_rec`, `_parse_expr_2`). */
module KconfiglibParser {
  import opened Wrappers
  import opened Tristate
  import opened KconfiglibExpr

  datatype Token = TOr | TAnd | TNot | TOpen | TClose | TEqual | TUnequal | TSymbol(s: Sym) | TText(text: string) | TKeyword

  datatype Level = OrLevel | AndLevel

  /** Whether `m` becomes `m && MODULES`, the two symbols concerned, and whether referenced symbols are recorded. */
  datatype Setup = Setup(transformM: bool, symM: Sym, modulesSym: Sym, records: bool)

  // Printing

  function TokenOf(o: Operand): Token {
    match o
    case SymbolRef(s) => TSymbol(s)
    case Text(t) => TText(t)
    case Stray => TKeyword
  }

  predicate Atomic(e: KExpr) {
    e.Leaf? || e.Equal? || e.Unequal?
  }

  function Precedence(e: KExpr): int {
    if e.Or? then 0 else if e.And? then 1 else 2
  }

  predicate NeedsParens(level: Level, e: KExpr) {
    !Atomic(e) && (if level.OrLevel? then 0 else 1) > Precedence(e)
  }

  /** `_expr_to_str_rec`. */
  function Print(e: KExpr): seq<Token>
    decreases e, 0
  {
    match e
    case Leaf(o) => [TokenOf(o)]
    case Or(terms) => PrintTerms(OrLevel, terms)
    case And(terms) => PrintTerms(AndLevel, terms)
    case Not(x) => [TNot] + if x.Leaf? then Print(x) else [TOpen] + Print(x) + [TClose]
    case Equal(l, r) => [TokenOf(l), TEqual, TokenOf(r)]
    case Unequal(l, r) => [TokenOf(l), TUnequal, TokenOf(r)]
  }

  function PrintTerm(level: Level, e: KExpr): seq<Token>
    decreases e, 1
  {
    if NeedsParens(level, e) then [TOpen] + Print(e) + [TClose] else Print(e)
  }

  /** `_intersperse`. */
  function PrintTerms(level: Level, terms: seq<KExpr>): seq<Token>
    decreases terms
  {
    if terms == [] then []
    else if |terms| == 1 then PrintTerm(level, terms[0])
    else PrintTerm(level, terms[0]) + [if level.OrLevel? then TOr else TAnd] + PrintTerms(level, terms[1..])
  }

  // Parsing, as a function on the remaining tokens

  datatype Parsed<T> = Failed | Parsed(value: T, rest: seq<Token>)

  predicate StartsWith(ts: seq<Token>, t: Token) {
    ts != [] && ts[0] == t
  }

  function Wrap(level: Level, terms: seq<KExpr>): KExpr {
    if |terms| == 1 then terms[0] else if level.OrLevel? then Or(terms) else And(terms)
  }

  function Prepend(front: seq<KExpr>, r: Parsed<seq<KExpr>>): Parsed<seq<KExpr>> {
    match r
    case Failed => Failed
    case Parsed(terms, rest) => Parsed(front + terms, rest)
  }

  /** An operand, or anything else, from the token or the end of the feed. */
  function OperandAt(ts: seq<Token>): Operand {
    if ts == [] then Stray
    else
      match ts[0]
      case TSymbol(s) => SymbolRef(s)
      case TText(t) => Text(t)
      case _ => Stray
  }

  /** In a comparison the symbol `m` stands for its name. */
  function Compared(p: Setup, o: Operand): Operand {
    if o == SymbolRef(p.symM) then Text("m") else o
  }

  function Single(p: Setup, o: Operand): KExpr {
    if p.transformM && (o == SymbolRef(p.symM) || o == Text("m"))
    then And([Leaf(Text("m")), Leaf(SymbolRef(p.modulesSym))])
    else Leaf(o)
  }

  function Drop(ts: seq<Token>): seq<Token> {
    if ts == [] then [] else ts[1..]
  }

  /** An expression counts only with the closing parenthesis after it. */
  function InParens(r: Parsed<KExpr>): Parsed<KExpr> {
    match r
    case Failed => Failed
    case Parsed(e, rest) => if StartsWith(rest, TClose) then Parsed(e, rest[1..]) else Failed
  }

  function ParseFactor(p: Setup, ts: seq<Token>): (r: Parsed<KExpr>)
    ensures r.Parsed? ==> |r.rest| < |ts|
    decreases |ts|, 0
  {
    if StartsWith(ts, TOpen) then InParens(ParseExpr(p, ts[1..]))
    else if StartsWith(ts, TNot) then
      match ParseFactor(p, ts[1..])
      case Failed => Failed
      case Parsed(e, rest) => Parsed(Not(e), rest)
    else if OperandAt(ts).Stray? then Failed
    else
      var first, rest := OperandAt(ts), ts[1..];
      if StartsWith(rest, TEqual) then
        Parsed(Equal(Compared(p, first), Compared(p, OperandAt(rest[1..]))), Drop(rest[1..]))
      else if StartsWith(rest, TUnequal) then
        Parsed(Unequal(Compared(p, first), Compared(p, OperandAt(rest[1..]))), Drop(rest[1..]))
      else Parsed(Single(p, first), rest)
  }

  function ParseFactors(p: Setup, ts: seq<Token>): (r: Parsed<seq<KExpr>>)
    ensures r.Parsed? ==> |r.rest| < |ts| && r.value != []
    decreases |ts|, 1
  {
    match ParseFactor(p, ts)
    case Failed => Failed
    case Parsed(e, rest) => Prepend([e], MoreFactors(p, rest))
  }

  function MoreFactors(p: Setup, ts: seq<Token>): (r: Parsed<seq<KExpr>>)
    ensures r.Parsed? ==> |r.rest| <= |ts|
    decreases |ts|, 2
  {
    if StartsWith(ts, TAnd) then ParseFactors(p, ts[1..]) else Parsed([], ts)
  }

  function ParseOrTerm(p: Setup, ts: seq<Token>): (r: Parsed<KExpr>)
    ensures r.Parsed? ==> |r.rest| < |ts|
    decreases |ts|, 2
  {
    match ParseFactors(p, ts)
    case Failed => Failed
    case Parsed(terms, rest) => Parsed(Wrap(AndLevel, terms), rest)
  }

  function ParseTerms(p: Setup, ts: seq<Token>): (r: Parsed<seq<KExpr>>)
    ensures r.Parsed? ==> |r.rest| < |ts| && r.value != []
    decreases |ts|, 3
  {
    match ParseOrTerm(p, ts)
    case Failed => Failed
    case Parsed(e, rest) => Prepend([e], MoreTerms(p, rest))
  }

  function MoreTerms(p: Setup, ts: seq<Token>): (r: Parsed<seq<KExpr>>)
    ensures r.Parsed? ==> |r.rest| <= |ts|
    decreases |ts|, 4
  {
    if StartsWith(ts, TOr) then ParseTerms(p, ts[1..]) else Parsed([], ts)
  }

  function ParseExpr(p: Setup, ts: seq<Token>): (r: Parsed<KExpr>)
    ensures r.Parsed? ==> |r.rest| < |ts|
    decreases |ts|, 4
  {
    match ParseTerms(p, ts)
    case Failed => Failed
    case Parsed(terms, rest) => Parsed(Wrap(OrLevel, terms), rest)
  }

  // What printing and parsing makes of an expression: lists of the same operator are merged, operands are rewritten

  function ComparedBoth(p: Setup, e: KExpr): KExpr
    requires e.Equal? || e.Unequal?
  {
    if e.Equal? then Equal(Compared(p, e.l), Compared(p, e.r)) else Unequal(Compared(p, e.l), Compared(p, e.r))
  }

  function Normalized(p: Setup, e: KExpr): KExpr
    decreases e, 2
  {
    Wrap(OrLevel, OrTerms(p, e))
  }

  function OrTerms(p: Setup, e: KExpr): seq<KExpr>
    decreases e, 1
  {
    if e.Or? then AllOrTerms(p, e.terms) else [Wrap(AndLevel, AndTerms(p, e))]
  }

  function AllOrTerms(p: Setup, es: seq<KExpr>): seq<KExpr>
    decreases es
  {
    if es == [] then [] else OrTerms(p, es[0]) + AllOrTerms(p, es[1..])
  }

  function AndTerms(p: Setup, e: KExpr): seq<KExpr>
    decreases e, 0
  {
    match e
    case And(terms) => AllAndTerms(p, terms)
    case Or(terms) => [Wrap(OrLevel, AllOrTerms(p, terms))]
    case Not(x) => [Not(Normalized(p, x))]
    case Leaf(o) => [Single(p, o)]
    case _ => [ComparedBoth(p, e)]
  }

  function AllAndTerms(p: Setup, es: seq<KExpr>): seq<KExpr>
    decreases es
  {
    if es == [] then [] else AndTerms(p, es[0]) + AllAndTerms(p, es[1..])
  }

  /** The expression with the operands the parser rewrites replaced, and nothing merged. */
  function Rewritten(p: Setup, e: KExpr): KExpr
    decreases e
  {
    match e
    case Leaf(o) => Single(p, o)
    case And(terms) => And(AllRewritten(p, terms))
    case Or(terms) => Or(AllRewritten(p, terms))
    case Not(x) => Not(Rewritten(p, x))
    case _ => ComparedBoth(p, e)
  }

  function AllRewritten(p: Setup, es: seq<KExpr>): seq<KExpr>
    decreases es
  {
    if es == [] then [] else [Rewritten(p, es[0])] + AllRewritten(p, es[1..])
  }

  /** An m that stands alone and is rewritten is limited by MODULES; another operand keeps its value. */
  lemma {:induction false} RewrittenOperand(p: Setup, o: Operand, env: Env)
    ensures Eval(Rewritten(p, Leaf(o)), env)
            == if p.transformM && (o == SymbolRef(p.symM) || o == Text("m"))
               then Min(MOD, LeafValue(SymbolRef(p.modulesSym), env)) else LeafValue(o, env)
  {
    var m, rest := Leaf(Text("m")), [Leaf(SymbolRef(p.modulesSym))];
    var both := [m, rest[0]];
    assert both[1..] == rest && rest[1..] == [];
    assert Eval(rest[0], env) == LeafValue(SymbolRef(p.modulesSym), env);
    assert AllOf(rest, env) == LeafValue(SymbolRef(p.modulesSym), env);
    assert Eval(m, env) == MOD;
    assert AllOf(both, env) == Min(MOD, AllOf(rest, env));
    assert Single(p, o) == And(both) || Single(p, o) == Leaf(o);
  }

  /** The string of an operand of a comparison: that of the symbol m is "m". */
  function ComparedString(p: Setup, o: Operand, env: Env): string {
    match o
    case SymbolRef(s) => if s == p.symM then "m" else env.value(s)
    case Text(t) => t
    case Stray => ""
  }

  lemma {:induction false} RewrittenComparison(p: Setup, l: Operand, r: Operand, env: Env)
    ensures Eval(Rewritten(p, Equal(l, r)), env) == if ComparedString(p, l, env) == ComparedString(p, r, env) then YES else NO
    ensures Eval(Rewritten(p, Unequal(l, r)), env) == if ComparedString(p, l, env) != ComparedString(p, r, env) then YES else NO
  {
  }

  /** No comparison has the symbol `m` as an operand, and with the rewriting of `m` neither `m` stands alone. */
  predicate Untouched(p: Setup, e: KExpr)
    decreases e
  {
    match e
    case Leaf(o) => p.transformM ==> o != SymbolRef(p.symM) && o != Text("m")
    case And(terms) => AllUntouched(p, terms)
    case Or(terms) => AllUntouched(p, terms)
    case Not(x) => Untouched(p, x)
    case Equal(l, r) => l != SymbolRef(p.symM) && r != SymbolRef(p.symM)
    case Unequal(l, r) => l != SymbolRef(p.symM) && r != SymbolRef(p.symM)
  }

  predicate AllUntouched(p: Setup, es: seq<KExpr>)
    decreases es
  {
    es == [] || (Untouched(p, es[0]) && AllUntouched(p, es[1..]))
  }

  /** The parser leaves the operands alone if and only if none of these occurs. */
  lemma {:induction false} RewrittenIff(p: Setup, e: KExpr)
    ensures Rewritten(p, e) == e <==> Untouched(p, e)
    decreases e
  {
    match e
    case And(terms) => AllRewrittenIff(p, terms);
    case Or(terms) => AllRewrittenIff(p, terms);
    case Not(x) => RewrittenIff(p, x);
    case _ =>
  }

  lemma {:induction false} AllRewrittenIff(p: Setup, es: seq<KExpr>)
    ensures AllRewritten(p, es) == es <==> AllUntouched(p, es)
    decreases es
  {
    if es != [] {
      var head, tail := Rewritten(p, es[0]), AllRewritten(p, es[1..]);
      RewrittenIff(p, es[0]);
      AllRewrittenIff(p, es[1..]);
      assert ([head] + tail)[0] == head && ([head] + tail)[1..] == tail;
      assert es == [es[0]] + es[1..];
    }
  }

  /** No list is empty and nothing stray stands anywhere. */
  predicate Printable(e: KExpr)
    decreases e
  {
    match e
    case Leaf(o) => !o.Stray?
    case And(terms) => terms != [] && AllPrintable(terms)
    case Or(terms) => terms != [] && AllPrintable(terms)
    case Not(x) => Printable(x)
    case Equal(l, r) => !l.Stray? && !r.Stray?
    case Unequal(l, r) => !l.Stray? && !r.Stray?
  }

  predicate AllPrintable(es: seq<KExpr>)
    decreases es
  {
    es == [] || (Printable(es[0]) && AllPrintable(es[1..]))
  }

  predicate AfterFactor(rest: seq<Token>) {
    !StartsWith(rest, TEqual) && !StartsWith(rest, TUnequal)
  }

  predicate AfterTerm(rest: seq<Token>) {
    AfterFactor(rest) && !StartsWith(rest, TAnd)
  }

  lemma {:induction false} ParsePrintedFactor(p: Setup, e: KExpr, rest: seq<Token>)
    requires Printable(e) && AfterFactor(rest) && !e.And?
    ensures |AndTerms(p, e)| == 1
    ensures ParseFactor(p, PrintTerm(AndLevel, e) + rest) == Parsed(AndTerms(p, e)[0], rest)
    decreases e, 1
  {
    var ts := PrintTerm(AndLevel, e) + rest;
    match e
    case Leaf(o) => assert ts[1..] == rest;
    case Or(terms) => ParsePrintedOr(p, e, rest);
    case Not(x) =>
      if x.Leaf? {
        assert ts[1..] == PrintTerm(AndLevel, x) + rest;
        ParsePrintedFactor(p, x, rest);
        assert AndTerms(p, x) == [Single(p, x.o)] && Normalized(p, x) == Single(p, x.o);
      } else {
        assert ts[1..] == [TOpen] + Print(x) + [TClose] + rest;
        ParsePrintedInParens(p, x, rest);
      }
    case Equal(l, r) => ComparisonTokens(p, e, rest);
    case Unequal(l, r) => ComparisonTokens(p, e, rest);
  }

  lemma {:induction false} ComparisonTokens(p: Setup, e: KExpr, rest: seq<Token>)
    requires (e.Equal? || e.Unequal?) && Printable(e)
    ensures ParseFactor(p, Print(e) + rest) == Parsed(ComparedBoth(p, e), rest)
  {
    var relation := if e.Equal? then TEqual else TUnequal;
    var ts := Print(e) + rest;
    assert ts[1..] == [relation, TokenOf(e.r)] + rest;
    assert ts[1..][1..] == [TokenOf(e.r)] + rest;
    assert ts[1..][1..][1..] == rest;
  }

  lemma {:induction false} ParsePrintedOr(p: Setup, e: KExpr, rest: seq<Token>)
    requires Printable(e) && e.Or?
    ensures ParseFactor(p, [TOpen] + Print(e) + [TClose] + rest) == Parsed(Normalized(p, e), rest)
    decreases e, 0
  {
    ParsePrintedTermList(p, e.terms, [TClose] + rest);
    Parenthesized(p, e, rest);
  }

  lemma {:induction false} ParsePrintedInParens(p: Setup, e: KExpr, rest: seq<Token>)
    requires Printable(e)
    ensures ParseFactor(p, [TOpen] + Print(e) + [TClose] + rest) == Parsed(Normalized(p, e), rest)
    decreases e, 4
  {
    ParsePrintedTerms(p, e, [TClose] + rest);
    Parenthesized(p, e, rest);
  }

  lemma {:induction false} NothingMore(p: Setup, rest: seq<Token>, terms: seq<KExpr>)
    ensures Prepend(terms, MoreTerms(p, [TClose] + rest)) == Parsed(terms, [TClose] + rest)
  {
    assert terms + [] == terms;
  }

  lemma {:induction false} Parenthesized(p: Setup, e: KExpr, rest: seq<Token>)
    requires ParseTerms(p, Print(e) + ([TClose] + rest)) == Prepend(OrTerms(p, e), MoreTerms(p, [TClose] + rest))
    ensures ParseFactor(p, [TOpen] + Print(e) + [TClose] + rest) == Parsed(Normalized(p, e), rest)
  {
    var ts, tail := [TOpen] + Print(e) + [TClose] + rest, [TClose] + rest;
    NothingMore(p, rest, OrTerms(p, e));
    assert tail[1..] == rest;
    assert ParseExpr(p, Print(e) + tail) == Parsed(Normalized(p, e), tail);
    assert ts[1..] == Print(e) + tail;
  }

  lemma {:induction false} ParsePrintedFactors(p: Setup, e: KExpr, rest: seq<Token>)
    requires Printable(e) && AfterFactor(rest)
    ensures ParseFactors(p, PrintTerm(AndLevel, e) + rest) == Prepend(AndTerms(p, e), MoreFactors(p, rest))
    decreases e, 2
  {
    if e.And? {
      ParsePrintedFactorList(p, e.terms, rest);
    } else {
      ParsePrintedFactor(p, e, rest);
      assert AndTerms(p, e) == [AndTerms(p, e)[0]];
    }
  }

  lemma {:induction false} ParsePrintedFactorList(p: Setup, es: seq<KExpr>, rest: seq<Token>)
    requires es != [] && AllPrintable(es) && AfterFactor(rest)
    ensures ParseFactors(p, PrintTerms(AndLevel, es) + rest) == Prepend(AllAndTerms(p, es), MoreFactors(p, rest))
    decreases es
  {
    if |es| == 1 {
      ParsePrintedFactors(p, es[0], rest);
      assert AllAndTerms(p, es) == AndTerms(p, es[0]) + [] == AndTerms(p, es[0]);
    } else {
      var tail := PrintTerms(AndLevel, es[1..]) + rest;
      assert PrintTerms(AndLevel, es) + rest == PrintTerm(AndLevel, es[0]) + ([TAnd] + tail);
      ParsePrintedFactors(p, es[0], [TAnd] + tail);
      assert ([TAnd] + tail)[1..] == tail;
      ParsePrintedFactorList(p, es[1..], rest);
      PrependTwice(AndTerms(p, es[0]), AllAndTerms(p, es[1..]), MoreFactors(p, rest));
    }
  }

  lemma {:induction false} PrependTwice(a: seq<KExpr>, b: seq<KExpr>, r: Parsed<seq<KExpr>>)
    ensures Prepend(a, Prepend(b, r)) == Prepend(a + b, r)
  {
    if r.Parsed? {
      assert a + (b + r.value) == (a + b) + r.value;
    }
  }

  lemma {:induction false} ParsePrintedTerms(p: Setup, e: KExpr, rest: seq<Token>)
    requires Printable(e) && AfterTerm(rest)
    ensures ParseTerms(p, Print(e) + rest) == Prepend(OrTerms(p, e), MoreTerms(p, rest))
    decreases e, 3
  {
    if e.Or? {
      ParsePrintedTermList(p, e.terms, rest);
    } else {
      ParsePrintedFactors(p, e, rest);
      assert AndTerms(p, e) + [] == AndTerms(p, e);
    }
  }

  lemma {:induction false} ParsePrintedTermList(p: Setup, es: seq<KExpr>, rest: seq<Token>)
    requires es != [] && AllPrintable(es) && AfterTerm(rest)
    ensures ParseTerms(p, PrintTerms(OrLevel, es) + rest) == Prepend(AllOrTerms(p, es), MoreTerms(p, rest))
    decreases es
  {
    if |es| == 1 {
      ParsePrintedTerms(p, es[0], rest);
      assert AllOrTerms(p, es) == OrTerms(p, es[0]) + [] == OrTerms(p, es[0]);
    } else {
      var tail := PrintTerms(OrLevel, es[1..]) + rest;
      assert PrintTerms(OrLevel, es) + rest == PrintTerm(OrLevel, es[0]) + ([TOr] + tail);
      ParsePrintedTerms(p, es[0], [TOr] + tail);
      assert ([TOr] + tail)[1..] == tail;
      ParsePrintedTermList(p, es[1..], rest);
      PrependTwice(OrTerms(p, es[0]), AllOrTerms(p, es[1..]), MoreTerms(p, rest));
    }
  }

  /**
   * Parsing what has been printed takes exactly the tokens printed and gives the expression back, up to merged lists and
   * the operands the parser rewrites.
   */
  lemma {:induction false} ParseUndoesPrint(p: Setup, e: KExpr, rest: seq<Token>)
    requires Printable(e) && AfterTerm(rest) && !StartsWith(rest, TOr)
    ensures ParseExpr(p, Print(e) + rest) == Parsed(Normalized(p, e), rest)
  {
    ParsePrintedTerms(p, e, rest);
    assert OrTerms(p, e) + [] == OrTerms(p, e);
  }

  lemma {:induction false} WrapValue(level: Level, terms: seq<KExpr>, env: Env)
    ensures Eval(Wrap(level, terms), env) == if level.OrLevel? then AnyOf(terms, env) else AllOf(terms, env)
  {
    if |terms| == 1 {
      assert terms == [terms[0]];
      assert AllOf(terms[1..], env) == YES && AnyOf(terms[1..], env) == NO;
    }
  }

  lemma {:induction false} AllRewrittenCons(p: Setup, es: seq<KExpr>)
    requires es != []
    ensures AllRewritten(p, es)[0] == Rewritten(p, es[0]) && AllRewritten(p, es)[1..] == AllRewritten(p, es[1..])
  {
  }

  /** Merging does not change the value. */
  lemma {:induction false} NormalizedValue(p: Setup, e: KExpr, env: Env)
    ensures Eval(Normalized(p, e), env) == Eval(Rewritten(p, e), env)
    decreases e, 2
  {
    OrTermsValue(p, e, env);
    WrapValue(OrLevel, OrTerms(p, e), env);
  }

  lemma {:induction false} OrTermsValue(p: Setup, e: KExpr, env: Env)
    ensures AnyOf(OrTerms(p, e), env) == Eval(Rewritten(p, e), env)
    decreases e, 1
  {
    if e.Or? {
      AllOrTermsValue(p, e.terms, env);
    } else {
      AndTermsValue(p, e, env);
      WrapValue(AndLevel, AndTerms(p, e), env);
      assert AnyOf(OrTerms(p, e)[1..], env) == NO;
    }
  }

  lemma {:induction false} AllOrTermsValue(p: Setup, es: seq<KExpr>, env: Env)
    ensures AnyOf(AllOrTerms(p, es), env) == AnyOf(AllRewritten(p, es), env)
    decreases es
  {
    if es != [] {
      OrTermsValue(p, es[0], env);
      AllOrTermsValue(p, es[1..], env);
      AnyOfConcat(OrTerms(p, es[0]), AllOrTerms(p, es[1..]), env);
      AllRewrittenCons(p, es);
    }
  }

  lemma {:induction false} AndTermsValue(p: Setup, e: KExpr, env: Env)
    ensures AllOf(AndTerms(p, e), env) == Eval(Rewritten(p, e), env)
    decreases e, 0
  {
    match e
    case And(terms) => AllAndTermsValue(p, terms, env);
    case Or(terms) =>
      AllOrTermsValue(p, terms, env);
      WrapValue(OrLevel, AllOrTerms(p, terms), env);
      assert AllOf(AndTerms(p, e)[1..], env) == YES;
    case Not(x) =>
      NormalizedValue(p, x, env);
      assert AllOf(AndTerms(p, e)[1..], env) == YES;
    case _ => assert AllOf(AndTerms(p, e)[1..], env) == YES;
  }

  lemma {:induction false} AllAndTermsValue(p: Setup, es: seq<KExpr>, env: Env)
    ensures AllOf(AllAndTerms(p, es), env) == AllOf(AllRewritten(p, es), env)
    decreases es
  {
    if es != [] {
      AndTermsValue(p, es[0], env);
      AllAndTermsValue(p, es[1..], env);
      AllOfConcat(AndTerms(p, es[0]), AllAndTerms(p, es[1..]), env);
      AllRewrittenCons(p, es);
    }
  }

  // The parser as written, on a feed of tokens

  /** `_Feed`. */
  class Feed {
    const items: seq<Token>
    var i: nat

    constructor (items: seq<Token>)
      ensures this.items == items && i == 0
    {
      this.items, i := items, 0;
    }

    ghost predicate Valid()
      reads this`i
    {
      i <= |items|
    }

    function Rest(): seq<Token>
      reads this`i
      requires Valid()
    {
      items[i..]
    }

    method GetNext() returns (t: Option<Token>)
      requires Valid()
      modifies this`i
      ensures Valid() && Rest() == Drop(old(Rest()))
      ensures t == if old(Rest()) == [] then None else Some(old(Rest())[0])
      ensures items[old(i)..i] == if t.None? then [] else [t.value]
      ensures old(i) <= i
    {
      if i >= |items| {
        return None;
      }
      t := Some(items[i]);
      i := i + 1;
    }

    method PeekNext() returns (t: Option<Token>)
      requires Valid()
      ensures t == if Rest() == [] then None else Some(Rest()[0])
    {
      t := if i >= |items| then None else Some(items[i]);
    }

    method Check(token: Token) returns (found: bool)
      requires Valid()
      modifies this`i
      ensures Valid() && found == StartsWith(old(Rest()), token)
      ensures Rest() == if found then old(Rest())[1..] else old(Rest())
      ensures old(i) <= i && items[old(i)..i] == if found then [token] else []
    {
      if i >= |items| {
        return false;
      }
      found := items[i] == token;
      if found {
        i := i + 1;
      }
    }
  }

  /** The symbols among the tokens. */
  function SymbolsOf(ts: seq<Token>): set<Sym> {
    set t | t in ts && t.TSymbol? :: t.s
  }

  lemma {:induction false} SymbolsConcat(items: seq<Token>, a: nat, b: nat, c: nat)
    requires a <= b <= c <= |items|
    ensures SymbolsOf(items[a..c]) == SymbolsOf(items[a..b]) + SymbolsOf(items[b..c])
  {
    assert items[a..c] == items[a..b] + items[b..c];
  }

  class Parser {
    const p: Setup
    /** The referenced symbols of the current symbol or choice. */
    var referenced: set<Sym>

    constructor (p: Setup)
      ensures this.p == p && referenced == {}
    {
      this.p, referenced := p, {};
    }

    /** Every symbol among the tokens read since `start` has been recorded in addition to `before`. */
    ghost predicate Recorded(before: set<Sym>, feed: Feed, start: nat)
      reads this`referenced, feed`i
    {
      && start <= feed.i <= |feed.items|
      && referenced == before + if p.records then SymbolsOf(feed.items[start..feed.i]) else {}
    }

    lemma {:induction false} RecordedThen(before: set<Sym>, feed: Feed, start: nat, middle: nat, sofar: set<Sym>)
      requires start <= middle <= feed.i <= |feed.items|
      requires sofar == before + if p.records then SymbolsOf(feed.items[start..middle]) else {}
      requires Recorded(sofar, feed, middle)
      ensures Recorded(before, feed, start)
    {
      SymbolsConcat(feed.items, start, middle, feed.i);
    }

    /** `feed.check`, which reads no symbols. */
    method Check(feed: Feed, token: Token, ghost before: set<Sym>, ghost start: nat) returns (found: bool)
      requires feed.Valid() && Recorded(before, feed, start) && !token.TSymbol?
      modifies feed`i
      ensures feed.Valid() && found == StartsWith(old(feed.Rest()), token) && Recorded(before, feed, start)
      ensures feed.Rest() == if found then old(feed.Rest())[1..] else old(feed.Rest())
    {
      ghost var middle := feed.i;
      found := feed.Check(token);
      RecordedThen(before, feed, start, middle, referenced);
    }

    /** `_parse_expr_2`; no result stands for the exception. */
    method ParseExpr2(feed: Feed) returns (r: Option<KExpr>)
      requires feed.Valid()
      modifies feed`i, this`referenced
      ensures feed.Valid() && Recorded(old(referenced), feed, old(feed.i))
      ensures Matches(feed.Rest(), r, ParseExpr(p, old(feed.Rest())))
      decreases |feed.items| - feed.i, 3
    {
      ghost var start, from, before := feed.Rest(), feed.i, referenced;
      r := ParseOrTerm2(feed);
      if r.None? {
        return;
      }
      var terms := [r.value];
      var more := Check(feed, TOr, before, from);
      while more
        invariant feed.Valid() && |feed.Rest()| < |start| && terms != [] && Recorded(before, feed, from)
        invariant ParseTerms(p, start) == Prepend(terms, if more then ParseTerms(p, feed.Rest()) else Parsed([], feed.Rest()))
        decreases |feed.Rest()|, more
      {
        ghost var middle, sofar := feed.i, referenced;
        r := ParseOrTerm2(feed);
        RecordedThen(before, feed, from, middle, sofar);
        if r.None? {
          return;
        }
        PrependTwice(terms, [r.value], MoreTerms(p, feed.Rest()));
        terms := terms + [r.value];
        more := Check(feed, TOr, before, from);
      }
      assert terms + [] == terms;
      r := Some(Wrap(OrLevel, terms));
    }

    /** `_parse_or_term`. */
    method ParseOrTerm2(feed: Feed) returns (r: Option<KExpr>)
      requires feed.Valid()
      modifies feed`i, this`referenced
      ensures feed.Valid() && Recorded(old(referenced), feed, old(feed.i))
      ensures Matches(feed.Rest(), r, ParseOrTerm(p, old(feed.Rest())))
      decreases |feed.items| - feed.i, 2
    {
      ghost var start, from, before := feed.Rest(), feed.i, referenced;
      r := ParseFactor2(feed);
      if r.None? {
        return;
      }
      var terms := [r.value];
      var more := Check(feed, TAnd, before, from);
      while more
        invariant feed.Valid() && |feed.Rest()| < |start| && terms != [] && Recorded(before, feed, from)
        invariant ParseFactors(p, start) == Prepend(terms, if more then ParseFactors(p, feed.Rest()) else Parsed([], feed.Rest()))
        decreases |feed.Rest()|, more
      {
        ghost var middle, sofar := feed.i, referenced;
        r := ParseFactor2(feed);
        RecordedThen(before, feed, from, middle, sofar);
        if r.None? {
          return;
        }
        PrependTwice(terms, [r.value], MoreFactors(p, feed.Rest()));
        terms := terms + [r.value];
        more := Check(feed, TAnd, before, from);
      }
      assert terms + [] == terms;
      r := Some(Wrap(AndLevel, terms));
    }

    /** `_parse_factor`. */
    method ParseFactor2(feed: Feed) returns (r: Option<KExpr>)
      requires feed.Valid()
      modifies feed`i, this`referenced
      ensures feed.Valid() && Recorded(old(referenced), feed, old(feed.i))
      ensures Matches(feed.Rest(), r, ParseFactor(p, old(feed.Rest())))
      decreases |feed.items| - feed.i, 1
    {
      ghost var from, before := feed.i, referenced;
      var found := Check(feed, TOpen, before, from);
      if found {
        r := ParseParenthesized(feed, before, from);
        return;
      }
      found := Check(feed, TNot, before, from);
      ghost var middle := feed.i;
      if found {
        r := ParseFactor2(feed);
        RecordedThen(before, feed, from, middle, before);
        if r.Some? {
          r := Some(Not(r.value));
        }
        return;
      }
      r := ParseOperand(feed);
      RecordedThen(before, feed, from, middle, before);
    }

    /** An expression and the closing parenthesis. */
    method ParseParenthesized(feed: Feed, ghost before: set<Sym>, ghost from: nat) returns (r: Option<KExpr>)
      requires feed.Valid() && Recorded(before, feed, from)
      modifies feed`i, this`referenced
      ensures feed.Valid() && Recorded(before, feed, from)
      ensures Matches(feed.Rest(), r, InParens(ParseExpr(p, old(feed.Rest()))))
      decreases |feed.items| - feed.i, 4
    {
      ghost var middle, sofar := feed.i, referenced;
      r := ParseExpr2(feed);
      RecordedThen(before, feed, from, middle, sofar);
      if r.Some? {
        var found := Check(feed, TClose, before, from);
        if !found {
          r := None;
        }
      }
    }

    /** A symbol among the operands is recorded. */
    method Record(o: Operand)
      modifies this`referenced
      ensures referenced == old(referenced) + if p.records && o.SymbolRef? then {o.sym} else {}
    {
      if p.records && o.SymbolRef? {
        referenced := referenced + {o.sym};
      }
    }

    /** The next operand, or anything else. */
    method NextOperand(feed: Feed) returns (o: Operand)
      requires feed.Valid()
      modifies feed`i, this`referenced
      ensures feed.Valid() && Recorded(old(referenced), feed, old(feed.i))
      ensures o == OperandAt(old(feed.Rest())) && feed.Rest() == Drop(old(feed.Rest()))
    {
      var token := feed.GetNext();
      o := AsOperand(token);
      Record(o);
    }

    /** The rest of `_parse_factor`: an operand or a comparison. */
    method ParseOperand(feed: Feed) returns (r: Option<KExpr>)
      requires feed.Valid() && !StartsWith(feed.Rest(), TOpen) && !StartsWith(feed.Rest(), TNot)
      modifies feed`i, this`referenced
      ensures feed.Valid() && Recorded(old(referenced), feed, old(feed.i))
      ensures Matches(feed.Rest(), r, ParseFactor(p, old(feed.Rest())))
    {
      ghost var from, before := feed.i, referenced;
      var first := NextOperand(feed);
      if first.Stray? {
        return None;
      }
      var next := feed.PeekNext();
      if next != Some(TEqual) && next != Some(TUnequal) {
        return Some(Single(p, first));
      }
      var equal := Check(feed, TEqual, before, from);
      if !equal {
        var unequal := Check(feed, TUnequal, before, from);
      }
      ghost var middle, sofar := feed.i, referenced;
      var second := NextOperand(feed);
      RecordedThen(before, feed, from, middle, sofar);
      r := Some(if equal then Equal(Compared(p, first), Compared(p, second))
                else Unequal(Compared(p, first), Compared(p, second)));
    }
  }

  function AsOperand(t: Option<Token>): Operand {
    OperandAt(if t.None? then [] else [t.value])
  }

  /** What a parsing method returns and leaves in the feed, against the parsing function. */
  predicate Matches(rest: seq<Token>, r: Option<KExpr>, parsed: Parsed<KExpr>) {
    if parsed.Failed? then r.None? else r == Some(parsed.value) && rest == parsed.rest
  }

  /** Printing and reading back takes all tokens, and evaluates as before unless the parser rewrites operands. */
  method Reparse(p: Setup, e: KExpr, ghost env: Env) returns (r: Option<KExpr>, consumed: bool)
    requires Printable(e)
    ensures r == Some(Normalized(p, e)) && consumed
    ensures Eval(r.value, env) == Eval(Rewritten(p, e), env)
    ensures Untouched(p, e) ==> Eval(r.value, env) == Eval(e, env)
  {
    var feed := new Feed(Print(e));
    var parser := new Parser(p);
    assert Print(e) + [] == Print(e);
    ParseUndoesPrint(p, e, []);
    NormalizedValue(p, e, env);
    RewrittenIff(p, e);
    assert feed.Rest() == Print(e);
    r := parser.ParseExpr2(feed);
    consumed := feed.i == |feed.items|;
  }
}
