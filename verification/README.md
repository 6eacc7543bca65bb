# Verification of the recovery system and its configuration tools

This project models four parts of the repository in Dafny and proves what they are for.

- **Kconfig expressions** (`Kconfig*`, `Expr*`). The optimiser of `expr.c` over the three values n < m < y: folding,
  negation push-down, factoring, joining and comparison rewriting, with the value of `expr_calc_value` as semantics.
  An environment gives each symbol a tristate value and a string. It is well formed when boolean symbols are never m,
  strings of logical symbols match their values and different constants have different strings; it is two-valued when
  no symbol other than the constant m is m. Constants never have a type.
  The passes are functions from trees to trees. The passes that remove duplicates are the exception: they rewrite two
  positions of one tree at a time, which may be the same position, so that class `Rewriter` holds the tree and the
  global count, and a position (`struct expr **`) is a path into it. Equality up to order and grouping of operands is
  defined in `ExprEquality` by way of multisets (`FormOf`).
- **Kconfig symbols and menus** (`DependencyGraph`, `CycleCheck`, `SymbolSpec`, `SymbolMeaning`, `SymbolEvaluator`,
  `Menu*`, `StringEscape`) and **kconfiglib** (`Kconfiglib*`, `KconfigAgreement`): cycle detection, evaluation remembered
  in the symbols, the linked menu, the walk that writes it, escaping, the cache of kconfiglib with its selective
  invalidation, its parser and its printer. The definitions of values are pinned down entry by entry in `SymbolMeaning`
  and `KconfiglibMeaning`. Ranks state that a dependency graph has no cycle; for kconfiglib the symbols of a choice share a rank.
  The kconfiglib caches are maps by symbol in class `Config`; a special symbol has a fixed value in place of a cached one.
- **Partition allocator** (`QtMap`, `PartitionLayout`, `InstallManager`, `PartitionTable`): numbering, accounting in MiB,
  placement in sectors and the partition table. `QByteArray::number` is a parameter. Partitions are distinct objects.
- **QR segments** (`BitBuffer`, `Qr*`): packing of bits and the segment encoders, with decoders after sections 7.4.3 and
  7.4.4 of ISO/IEC 18004:2015. A byte is the sequence of its eight bits.

Where code and its documentation differ, the code is followed.

- The comment of `expr_trans_bool` speaks of bool symbols, the code tests for tristate ones (`expr.c:317-341`).
- `sym_check_deps` is said to return NULL when dependencies are fine. The outermost call returns NULL in any case, so
  that the error count in `conf_parse` never grows (`CycleCheck.CheckAll`). It also looks neither at direct
  dependencies nor at the bounds of ranges nor at the symbol that switches modules, which evaluation does. So a graph
  can pass that cannot be evaluated (`SymbolSpec.PassedGraphMayLoop`); `CheckedGraphIsRanked` says exactly when.
- `checkPartition` is not meant for negative partition numbers but accepts them; `RotationsReorderIff` says when they
  spoil the order. A raw partition that is not maximised and a multiple of 4 MiB is charged too little;
  `CheckSufficesIff` says when that matters.
- `unset_user_value` on MODULES invalidates only what `_build_dep` has recorded, where `set_user_value` invalidates
  everything; `StepSufficesIff` says when that matters.
- The default of a string symbol that names a logical symbol is always "n", whatever the value of that symbol
  (`symbol.c:396-403`, `RawText` in `SymbolSpec`).
- `expr_eliminate_dups` keeps every value except that it may decide an m (`StrikingLosesMod`). `StrikeValue` says when
  a single strike does.
- `_parse_factor` accepts anything as the second operand of a comparison, and `makeAlphanumeric` does not check the
  table for -1.

## Model

| member | source | states |
|---|---|---|
| `KconfigExpr.AllOffTwoValued` | buildroot/support/kconfig/symbol.c:14-30 | The environments assumed below exist: all symbols off, with y, m, n and every other constant different strings, is a two-valued well-formed environment |
| `ExprEliminate.EliminateYNSound` | buildroot/support/kconfig/expr.c:231-312 | Folding y and n out of an expression keeps its value for every assignment of the symbols |
| `ExprEliminate.EliminateYNNormal` | buildroot/support/kconfig/expr.c:231-312 | Folding keeps the normal form that `expr_transform` establishes |
| `ExprEliminate.EliminateShared` | buildroot/support/kconfig/expr.c:130-162 | Striking out shared operands makes neither side larger and does not change whether a side is a chain of the operator, which is what the mutual recursion with `expr_eq` ends on |
| `ExprEliminate.EliminateSharedSound` | buildroot/support/kconfig/expr.c:130-162 | In each environment one value accounts for everything struck out on both sides |
| `ExprEliminate.EliminateEqSound` | buildroot/support/kconfig/expr.c:164-187 | Factoring is sound: in each environment there are c and d with old = (new and d) or c for both arguments |
| `ExprEliminate.ExprEqSound` | buildroot/support/kconfig/expr.c:189-229 | If `expr_eq` answers 1 both expressions have the same value everywhere |
| `ExprEquality.ExprEqIff` | buildroot/support/kconfig/expr.c:189-229 | For folded expressions `expr_eq` answers 1 if and only if they differ in nothing but the order and the grouping of the operands of each chain, at any depth |
| `ExprEquality.SharedIsCommon` | buildroot/support/kconfig/expr.c:130-162 | Of the operands of either side exactly those are struck out, with multiplicity, that the other side has as well up to order and grouping |
| `ExprEquality.FoldingFolds` | buildroot/support/kconfig/expr.c:231-312 | What folding leaves is y, n or without them |
| `ExprEliminate.ResidueYesImplies` | buildroot/support/kconfig/expr.c:164-187 | A second residue of y means that the first expression is at most the second in every environment |
| `ExprEquality.ResidueYesIff` | buildroot/support/kconfig/expr.c:164-187 | Where one side is a conjunction and neither a disjunction the second residue is y if and only if the first side has all operands of the second |
| `ExprTransform.Transform` | buildroot/support/kconfig/expr.c:636-771 | The result has NOT only above symbols other than y, m and n, compares no boolean symbol with them, and is not heavier than the argument |
| `ExprTransform.PushDownIsLighter` | buildroot/support/kconfig/expr.c:716-733 | A De Morgan step lowers the weight on which the recursion ends |
| `ExprTransform.TransformSound` | buildroot/support/kconfig/expr.c:636-771 | `expr_transform` keeps the value in every well-formed tristate environment |
| `ExprTransform.NormalIsFixed` | buildroot/support/kconfig/expr.c:636-771 | Exactly what the pass establishes it leaves alone: an expression in normal form is returned unchanged |
| `ExprTransform.TransformIdempotent` | buildroot/support/kconfig/expr.c:636-771 | A second run changes nothing |
| `ExprTransform.NodeCountMayGrow` | buildroot/support/kconfig/expr.c:716-733 | The node count is no measure for the recursion: the pass can return a larger tree |
| `ExprExtract.ExtractEqSound` | buildroot/support/kconfig/expr.c:848-875 | Everything taken from either side goes once into the common part |
| `ExprExtract.ExtractCommonSound` | buildroot/support/kconfig/expr.c:826-846 | Each operand is its residue joined with the common part |
| `ExprEquality.ExtractAllIff` | buildroot/support/kconfig/expr.c:826-875 | Nothing is left of the first side if and only if the second has all its operands |
| `ExprJoin.ComparisonMeaning` | buildroot/support/kconfig/symbol.c:760-782 | Comparing a logical symbol with y, m or n as strings is comparing tristate values |
| `ExprJoin.JoinSound` | buildroot/support/kconfig/expr.c:346-502 | A join has the value of both operands together in every well-formed tristate environment |
| `ExprJoin.TwoOfThree` | buildroot/support/kconfig/expr.c:372-487 | For a tristate symbol = with two of y, m and n joins in a disjunction to != with the third, and != with two joins in a conjunction to = with the third |
| `ExprJoin.ValueAndExclusion` | buildroot/support/kconfig/expr.c:455-468 | In a conjunction = with one constant takes in != with another, and gives n with the same, in either order |
| `ExprJoin.SymbolJoins` | buildroot/support/kconfig/expr.c:394-453 | The symbol alone joins with =y, !=m, !=n and, if it is bool, with its negation |
| `ExprJoin.JoinNormal` | buildroot/support/kconfig/expr.c:346-502 | Joining keeps the normal form |
| `ExprDups.Rewriter.Dups1` | buildroot/support/kconfig/expr.c:504-554 | The first pass over two positions of one tree, possibly the same, keeps the value in every well-formed tristate environment, and counts something if and only if there is a pair that can be joined; without a count the tree is the same |
| `ExprDups.Rewriter.Dups2` | buildroot/support/kconfig/expr.c:556-610 | The second pass only decides m, never changes a definite value, and counts something if and only if there is a contradicting pair; where one operand alone is a chain, and consistent, it is struck out exactly if another part of the chain contradicts it, and nothing else changes |
| `ExprDups.Rewriter.Strike` | buildroot/support/kconfig/expr.c:570-608 | The comparison of the positions and the switch of the second pass: an operand another one contradicts becomes the absorbing constant, and a consistent one that is not contradicted stays |
| `ExprDups.StrikeValue` | buildroot/support/kconfig/expr.c:576-608 | Striking out a contradicted operand keeps the value of the chain if and only if that value is not m |
| `ExprPairs.ContradictsIff` | buildroot/support/kconfig/expr.c:576-608 | The test of the second pass holds if and only if the operands of the negated first part are all among those of the second |
| `ExprPairs.SameOperandsJoin` | buildroot/support/kconfig/expr.c:346-352 | Operands that are the same up to order and grouping are joined into the first |
| `ExprDups.StepJoin` | buildroot/support/kconfig/expr.c:530-552 | Replacing two operands by their join keeps the value and everything outside the chain |
| `ExprDups.FoldAfterPass` | buildroot/support/kconfig/expr.c:612-634 | Every counted round costs a leaf once y and n are folded out, so that the loop ends |
| `ExprDups.Rewriter.EliminateDups` | buildroot/support/kconfig/expr.c:612-634 | The loop ends with `trans_count` as before, keeps the normal form, only decides m, and leaves neither a joinable nor a contradicting pair in any chain, so that no operand stands twice in a chain in whatever order and grouping; it changes a tree if and only if there was such a pair, and what is left after striking out a lone chain is the result if it is stable |
| `ExprDups.EliminateDupsOf` | buildroot/support/kconfig/expr.c:612-634 | The same for a caller that owns the tree |
| `ExprDups.TwoValuedDefinite` | buildroot/support/kconfig/expr.c:938-977 | In a two-valued environment an expression without the constant m is never m |
| `ExprDups.ResolvesIsExact` | buildroot/support/kconfig/expr.c:612-634 | The pass keeps every definite value, and so every value in a two-valued environment when the constant m does not stand alone |
| `ExprDups.StrikingLosesMod` | buildroot/support/kconfig/expr.c:612-634 | Not so with m: (a or b) and (not a and not b), which is m when a and b are, comes out as n |
| `ExprCompare.TransCompareSound` | buildroot/support/kconfig/expr.c:877-936 | Comparing an expression with y or n is expressed by one that says so, wherever nothing below a NOT is m |
| `ExprCompare.TransCompareExact` | buildroot/support/kconfig/expr.c:877-936 | On negation normal form, which is what `menu_finalize` passes, it is right if and only if counting negated symbols that are m as the value compared with does not change the comparison |
| `ExprCompare.NegatedSymbolExact` | buildroot/support/kconfig/expr.c:908-909 | So for a single negated symbol turning = into != is right if and only if the symbol is not m |
| `ExprCompare.TransBoolKeepsNo` | buildroot/support/kconfig/expr.c:317-341 | On negation normal form the pass keeps whether the value is n in every well-formed environment, and never raises it |
| `ExprCompare.TransBoolNeedsNormalForm` | buildroot/support/kconfig/expr.c:317-341 | Below a NOT it may turn n into m |
| `ExprCompare.VisibilityUnchanged` | buildroot/support/kconfig/symbol.c:189-205 | The promoted visibility of a symbol that is not tristate is the same before and after `expr_trans_bool` |
| `ExprCompare.DependsSymbolSound` | buildroot/support/kconfig/expr.c:797-824 | An expression that depends on a symbol is n whenever the symbol is n |
| `MenuAdoption.DependsSymbolIff` | buildroot/support/kconfig/expr.c:797-824 | It depends on the symbol if and only if some conjunct, wherever it stands, is the symbol or its comparison =y, =m or !=n |
| `ExprCompare.OnlyContainedSymbolsMatter` | buildroot/support/kconfig/expr.c:773-795 | Only symbols the expression contains matter for its value |
| `MenuAdoption.VisibleCondition` | buildroot/support/kconfig/menu.c:338-351 | The rewritten condition is y where the prompt is visible and n where it is not, in every two-valued environment |
| `MenuAdoption.AdoptsSibling` | buildroot/support/kconfig/menu.c:343-358 | A sibling is adopted exactly if it contains the symbol and either depends on it or leaves y behind after factoring; and an adopted sibling is n whenever the symbol, being bool or tristate, is n, or whenever the prompt of the symbol is invisible |
| `MenuTree.FinalizeKeepsOrder` | buildroot/support/kconfig/menu.c:279-422 | Whatever the adoption test answers, no entry is lost, duplicated or moved in preorder |
| `MenuTree.FinalizeHoists` | buildroot/support/kconfig/menu.c:412-421 | Below a finalized entry only entries with a prompt have a submenu |
| `MenuTree.HoistKeepsOrder` | buildroot/support/kconfig/menu.c:412-421 | Moving children behind an entry without a prompt keeps the preorder |
| `MenuTree.HoistOne` | buildroot/support/kconfig/menu.c:412-421 | An entry keeps its submenu if it has a prompt, and is followed by what was in it otherwise |
| `MenuTree.HoistKeepsPrompted` | buildroot/support/kconfig/menu.c:412-421 | Entries with a prompt stay at their level with all they have |
| `MenuTree.AdoptStopsAtFirstRefusal` | buildroot/support/kconfig/menu.c:343-371 | The siblings adopted are those before the first one turned down, apart from those one of them has taken itself |
| `MenuTree.OnlySymbolsAdopt` | buildroot/support/kconfig/menu.c:336-371 | Only an entry of a symbol without a submenu adopts siblings, as many as the test accepts; every other entry leaves them alone |
| `MenuFinalize.Finalizer.MenuFinalize` | buildroot/support/kconfig/menu.c:336-422 | The links become those of the finalized forest, the list of siblings goes on after the adopted ones, and the entries below are finalized once each, in preorder |
| `MenuFinalize.Finalizer.FinalizeChildren` | buildroot/support/kconfig/menu.c:336-337 | The loop over a submenu finalizes each entry that is still a sibling when its turn comes |
| `MenuFinalize.Finalizer.AdoptSiblings` | buildroot/support/kconfig/menu.c:343-364 | The adopted siblings get the symbol as parent, and the last of them is known |
| `MenuFinalize.Detach` | buildroot/support/kconfig/menu.c:365-369 | The adopted siblings become the submenu and end there |
| `MenuFinalize.Splice` | buildroot/support/kconfig/menu.c:412-421 | Children of an entry without a prompt become its next siblings, with the right parent |
| `MenuFinalize.HoistChildren` | buildroot/support/kconfig/menu.c:372-422 | The second loop does this for every entry, including those just moved up |
| `MenuFinalize.FinalizeRoot` | buildroot/support/kconfig/zconf.y:509 | The whole menu reads the same afterwards, parents are right, each entry has been finalized exactly once, and only prompted entries have submenus |
| `MenuWalk.Walk` | buildroot/support/kconfig/confdata.c:786-819 | The walk ends and visits exactly the entries below the root in preorder |
| `MenuWalk.Climb` | buildroot/support/kconfig/confdata.c:811-817 | Climbing parent pointers ends at the first ancestor with a next sibling, or after the root |
| `DependencyGraph.TopologicalIsAcyclic` | buildroot/support/kconfig/symbol.c:1184-1216 | A list of all symbols with dependencies first shows that there is no cycle |
| `DependencyGraph.EdgeIff` | buildroot/support/kconfig/symbol.c:1153-1216 | One symbol depends on another if and only if that is contained in its select expression, in the condition of a property other than a select or choice value, or in the value of a default |
| `DependencyGraph.SelectsAddNoCycles` | buildroot/support/kconfig/symbol.c:1196-1198 | Taking away all selects and choice values changes no cycle that can be reached |
| `CycleCheck.Checker.CheckDeps` | buildroot/support/kconfig/symbol.c:1255-1287 | A call keeps CHECK as it was, reports only real cycles, returns only a symbol still being checked, and without a report has finished the symbol after all its dependencies; the measure is the number of symbols without CHECKED |
| `CycleCheck.Checker.CheckSymDeps` | buildroot/support/kconfig/symbol.c:1184-1216 | The same for all dependencies of a symbol |
| `CycleCheck.Checker.CheckExprDeps` | buildroot/support/kconfig/symbol.c:1153-1181 | The same for all symbols of an expression |
| `CycleCheck.ClosesCycle` | buildroot/support/kconfig/symbol.c:1261-1264 | Meeting a symbol with CHECK set closes a walk in the graph |
| `CycleCheck.LeaveSound` | buildroot/support/kconfig/symbol.c:1279-1284 | A symbol whose dependencies are done extends the topological order |
| `CycleCheck.CheckAll` | buildroot/support/kconfig/zconf.y:510-513 | Over any list of symbols a recursion is reported if and only if the part of the graph they lead to has a cycle, with or without the selects and choice values; CHECK is clear afterwards, and no outermost call returns a symbol, so that the error count stays 0. Without a report the order in which that part was done with is topological |
| `DependencyGraph.RankedIff` | buildroot/support/kconfig/symbol.c:1184-1216 | Every symbol can rank above all it depends on if and only if there is no cycle |
| `SymbolSpec.PureSolves` | buildroot/support/kconfig/symbol.c:293-440 | The value by recursion on ranks satisfies the equation of every symbol at once |
| `SymbolSpec.PureIsUnique` | buildroot/support/kconfig/symbol.c:293-440 | No other values do: the result does not depend on the order of evaluation |
| `SymbolSpec.SelectIsLowerBound` | buildroot/support/kconfig/symbol.c:378-381 | A symbol is at least as far on as it is selected |
| `SymbolSpec.NeverMod` | buildroot/support/kconfig/symbol.c:382-383 | No boolean symbol is m, and with modules off no logical symbol is |
| `SymbolMeaning.VisibilityMeaning` | buildroot/support/kconfig/symbol.c:189-205 | A symbol is as visible as its most visible prompt, with m raised to y unless it is tristate and modules are on |
| `SymbolMeaning.UserMeaning` | buildroot/support/kconfig/symbol.c:343-352 | A visible user value of a bool or tristate symbol counts up to the visibility, joined with the selects and promoted |
| `SymbolMeaning.DefaultMeaning` | buildroot/support/kconfig/symbol.c:353-380 | Otherwise the value is that of the first default whose condition is not n, up to the condition, joined with the selects and promoted |
| `SymbolMeaning.SelectMeaning` | buildroot/support/kconfig/symbol.c:353-380 | Without such a default the selects alone count |
| `SymbolMeaning.StringMeaning` | buildroot/support/kconfig/symbol.c:385-404 | A string symbol has its user value if it is visible, else the value of the symbol its first active default names |
| `SymbolMeaning.NumberMeaning` | buildroot/support/kconfig/symbol.c:155-187 | A number has the same, replaced by the bound of the first active range that it passes, the lower one first |
| `SymbolMeaning.UnboundedMeaning` | buildroot/support/kconfig/symbol.c:155-168 | Without an active range it stays |
| `SymbolMeaning.WrittenMeaning` | buildroot/support/kconfig/symbol.c:346-404 | A symbol is written if it is visible, selected or has an active default, for a text one that names a symbol |
| `SymbolSpec.UserValueMeaning` | buildroot/support/kconfig/symbol.c:345-354 | A visible user value of a bool or tristate symbol is cut off at visibility, raised to select, and taken over in between, as y where m is not allowed |
| `SymbolSpec.WithinRange` | buildroot/support/kconfig/symbol.c:155-187 | With an active range that is not empty a number ends up within it if and only if the bound it runs into, printed and read again, is within it |
| `SymbolSpec.FinalWellFormed` | buildroot/support/kconfig/symbol.c:760-782 | The values of a configuration form a well-formed environment, so that the rewriting theorems apply to it |
| `SymbolSpec.TransformKeepsFinal` | buildroot/support/kconfig/menu.c:311-318 | Conditions `menu_finalize` has transformed evaluate as the ones written |
| `SymbolSpec.EvaluableIff` | buildroot/support/kconfig/symbol.c:293-403 | Some order of evaluation exists if and only if there is no cycle in what evaluation reads: conditions of prompts, defaults and ranges, defaults, bounds, selects, direct dependencies and, where a tristate symbol is compared, the modules symbol |
| `SymbolSpec.CheckedGraphIsRanked` | buildroot/support/kconfig/zconf.y:510-513 | For a graph without a cycle in the sense of the check that is so if and only if no cycle leads through something the check overlooks |
| `SymbolSpec.PassedGraphMayLoop` | buildroot/support/kconfig/zconf.y:510-513 | It may: A depending directly on B with default A passes, and no order of evaluation exists |
| `SymbolEvaluator.Evaluator.CalcValue` | buildroot/support/kconfig/symbol.c:293-440 | Evaluation on demand leaves every valid symbol with the value, visibility, select value and write flag of the definition, and nothing valid changes |
| `SymbolEvaluator.Evaluator.CalcVisibility` | buildroot/support/kconfig/symbol.c:189-227 | The three values it stores are those of the definition |
| `SymbolEvaluator.Evaluator.CalcLogical` | buildroot/support/kconfig/symbol.c:336-384 | The bool and tristate case stores the value of the definition |
| `SymbolEvaluator.Evaluator.CalcText` | buildroot/support/kconfig/symbol.c:385-405 | The string, hex and int case stores the value of the definition |
| `SymbolEvaluator.Evaluator.ValidateRange` | buildroot/support/kconfig/symbol.c:155-187 | A number outside its active range is replaced by the bound it passes |
| `SymbolEvaluator.Evaluator.ActiveProperty` | buildroot/support/kconfig/symbol.c:115-137 | The first property of a kind with a condition other than n, and the value of the condition |
| `SymbolEvaluator.Evaluator.CalcExpr` | buildroot/support/kconfig/expr.c:938-977 | An expression evaluates to its value over the symbols of the definition |
| `SymbolEvaluator.Evaluator.GetStringValue` | buildroot/support/kconfig/symbol.c:760-782 | The string of a logical symbol is y, m or n by its tristate value, although the code consults the modules symbol |
| `SymbolEvaluator.Evaluator.ClearFlags` | buildroot/support/kconfig/symbol.c:447-448 | Only y, m and n stay valid, and the stale values left behind do no harm |
| `SymbolEvaluator.Evaluator.ClearAllValid` | buildroot/support/kconfig/symbol.c:442-452 | Afterwards the modules symbol is valid again |
| `SymbolEvaluator.Evaluate` | buildroot/support/kconfig/symbol.c:293-440 | Any order of evaluations, with the flags cleared anywhere in between, gives the values of the definition |
| `KconfiglibExpr.MakeAndSound` | buildroot/support/scripts/kconfiglib.py:1981-2002 | `_make_and` builds the minimum of both operands, merged lists included, with None as y |
| `KconfiglibExpr.MakeOrSound` | buildroot/support/scripts/kconfiglib.py:1953-1977 | `_make_or` builds the maximum |
| `KconfigAgreement.SameValue` | buildroot/support/scripts/kconfiglib.py:1449-1516 | kconfiglib gives an expression the value that the C code gives its translation |
| `KconfiglibParser.ParseUndoesPrint` | buildroot/support/scripts/kconfiglib.py:2128-2190 | Parsing the printed tokens of any expression takes exactly these tokens and returns the expression with nested lists of one operator merged and the operands rewritten that the parser rewrites |
| `KconfiglibParser.RewrittenIff` | buildroot/support/scripts/kconfiglib.py:886-912 | Nothing is rewritten if and only if no comparison has the symbol m as an operand and, when m becomes m && MODULES, no m stands alone |
| `KconfiglibParser.RewrittenOperand` | buildroot/support/scripts/kconfiglib.py:886-895 | A rewritten m is limited by MODULES, any other operand keeps its value |
| `KconfiglibParser.RewrittenComparison` | buildroot/support/scripts/kconfiglib.py:897-912 | In a comparison the symbol m counts as the string m |
| `KconfiglibParser.NormalizedValue` | buildroot/support/scripts/kconfiglib.py:1449-1516 | Merging changes no value under the short-circuiting evaluator |
| `KconfiglibParser.Parser.ParseExpr2` | buildroot/support/scripts/kconfiglib.py:846-852 | The loop consumes from the feed what the parsing function consumes and returns its result; exactly the symbols read are recorded as referenced, even when parsing fails |
| `KconfiglibParser.Parser.ParseOrTerm2` | buildroot/support/scripts/kconfiglib.py:854-860 | The same for conjunctions |
| `KconfiglibParser.Parser.ParseFactor2` | buildroot/support/scripts/kconfiglib.py:862-880 | The same for parentheses and negations |
| `KconfiglibParser.Parser.ParseOperand` | buildroot/support/scripts/kconfiglib.py:880-912 | The same for operands and comparisons; the second operand of a comparison is not checked |
| `KconfiglibParser.Feed.Check` | buildroot/support/scripts/kconfiglib.py:3550-3560 | The next token is removed if it is the one asked for, and nothing else happens |
| `KconfiglibParser.Reparse` | buildroot/support/scripts/kconfiglib.py:846-912 | Printing and reading back consumes everything and evaluates as before wherever nothing is rewritten |
| `KconfiglibSolution.ValueAgrees` | buildroot/support/scripts/kconfiglib.py:2287-2445 | A value depends on lower symbols and on the user values of the symbol and its choice only |
| `KconfiglibSolution.SolutionSolves` | buildroot/support/scripts/kconfiglib.py:2287-2445 | The value by recursion on ranks satisfies the equations of all symbols |
| `KconfiglibMeaning.ValueMeaning` | buildroot/support/scripts/kconfiglib.py:2287-2445 | Entry by entry: outside choices a bool or tristate symbol is at least its select value, joined with the visible user value up to the visibility or else with the first active default up to its condition; in a choice it follows mode and selection; strings take the user value or the first active default; numbers take a user value within the first active range, else the first default that is a number, kept within the range, else the positive lower bound or the last active default |
| `KconfiglibMeaning.VisibilityMeaning` | buildroot/support/scripts/kconfiglib.py:2259-2274 | A symbol is as visible as its most visible prompt, and no more than its choice |
| `KconfiglibMeaning.SelectionMeaning` | buildroot/support/scripts/kconfiglib.py:3173-3216 | In mode y a visible selection of the user wins; otherwise, unless the choice is optional, the first active default, or else the first symbol, if visible, or else the first visible symbol |
| `KconfiglibMeaning.ModeMeaning` | buildroot/support/scripts/kconfiglib.py:3292-3303 | The mode is n if nothing is wanted or shown, y if y is, and m otherwise where m is possible |
| `KconfiglibMeaning.NeverMod` | buildroot/support/scripts/kconfiglib.py:2352-2354 | No bool symbol is m, and while modules are off no tristate symbol is |
| `KconfiglibInvalidation.ModulesOnMeaning` | buildroot/support/scripts/kconfiglib.py:1540-1542 | Whether modules are on is whether the value of MODULES is y |
| `KconfiglibInvalidation.LiftedRanked` | buildroot/support/scripts/kconfiglib.py:1548-1593 | Raising everything a change reaches above the rest keeps the graph ranked |
| `KconfiglibInvalidation.SolutionsAgree` | buildroot/support/scripts/kconfiglib.py:2849-2863 | If no symbol outside what a change reaches would be computed differently from the values before the change, all of them keep their values |
| `KconfiglibInvalidation.InvalidationKeepsCoherence` | buildroot/support/scripts/kconfiglib.py:2849-2863 | Dropping the caches of everything a change reaches leaves every other cached value, visibility and selection right as long as modules stay on or off |
| `KconfiglibInvalidation.ModulesAfterMeaning` | buildroot/support/scripts/kconfiglib.py:2287-2345 | Whether modules will be on after a change is told by computing MODULES alone from the values before it |
| `KconfiglibInvalidation.SufficesIff` | buildroot/support/scripts/kconfiglib.py:2849-2863 | Dropping a closed set of symbols leaves all caches right that were right if and only if, computed from the values before the change with the new user values and the new setting of modules, every symbol outside keeps its value and visibility, and its choice its visibility and selection |
| `KconfiglibInvalidation.LeftoversIff` | buildroot/support/scripts/kconfiglib.py:2849-2859 | The cached visibilities of special symbols and of choices without symbols are never invalidated, and stay right in every cache if and only if the change affects none of them |
| `KconfiglibInvalidation.UnreachedLeftoversStay` | buildroot/support/scripts/kconfiglib.py:2849-2859 | It affects none if it leaves modules alone, reaches no special symbol and nothing the prompts of such a choice mention |
| `KconfiglibInvalidation.LeftoversMayGoStale` | buildroot/support/scripts/kconfiglib.py:2849-2859 | In a legitimate setup a prompt that depends on a bool symbol leaves both stale, whatever is invalidated |
| `KconfiglibInvalidation.FullInvalidation` | buildroot/support/scripts/kconfiglib.py:596-598 | Dropping all caches is right for any change |
| `KconfiglibDependents.BuildDep` | buildroot/support/scripts/kconfiglib.py:1548-1593 | The dependents recorded for a symbol are exactly the symbols whose definition, or whose choice, mentions it |
| `KconfiglibDependents.Dependents.GetDependent` | buildroot/support/scripts/kconfiglib.py:2966-2984 | Together with the symbol the result is the least set closed under direct dependence and siblings in a choice; the remembered sets stay right |
| `KconfiglibDependents.Dependents.AddDependentIgnoreSiblings` | buildroot/support/scripts/kconfiglib.py:2986-2993 | It adds the dependents and all they reach, and nothing a closed set would not contain |
| `KconfiglibCache.Config.GetValue` | buildroot/support/scripts/kconfiglib.py:2287-2445 | The value returned is the one from scratch, which is what the entries say (`ValueMeaning`); it is remembered, and all caches stay right |
| `KconfiglibCache.Config.GetVisibility` | buildroot/support/scripts/kconfiglib.py:2259-2274 | The same for the visibility of a symbol; a special symbol shows what it showed when it was first asked |
| `KconfiglibCache.Config.GetChoiceVisibility` | buildroot/support/scripts/kconfiglib.py:2259-2274 | The same for the visibility of a choice; one without symbols shows what it showed when it was first asked |
| `KconfiglibCache.Config.GetMode` | buildroot/support/scripts/kconfiglib.py:3292-3303 | The mode of a choice follows from what it shows, as `ModeMeaning` says |
| `KconfiglibCache.Config.GetSelection` | buildroot/support/scripts/kconfiglib.py:3173-3193 | The selection of a choice is the one from scratch, for every choice, as `SelectionMeaning` says |
| `KconfiglibCache.Config.GetSelectionFromDefaults` | buildroot/support/scripts/kconfiglib.py:3195-3216 | The same for the default selection |
| `KconfiglibCache.Config.EvalExpr` | buildroot/support/scripts/kconfiglib.py:1435-1447 | An expression evaluates to its value from scratch, m promoted when modules are off |
| `KconfiglibCache.Config.EvalExpr2` | buildroot/support/scripts/kconfiglib.py:1449-1516 | The short-circuiting evaluation returns the minimum or maximum of all terms |
| `KconfiglibCache.Config.FindDefaultNumber` | buildroot/support/scripts/kconfiglib.py:2412-2442 | The loop over the defaults of a number: a default that is no number is passed over, and the low end of the range comes last |
| `KconfiglibUpdates.Invalidate` | buildroot/support/scripts/kconfiglib.py:2849-2859 | A symbol loses its value and visibility, its choice its visibility and selection; special symbols keep theirs |
| `KconfiglibUpdates.Session.SetUserValue` | buildroot/support/scripts/kconfiglib.py:2447-2479 | Setting a user value keeps all caches right and drops exactly the results of the symbols it reaches; for MODULES it drops all |
| `KconfiglibUpdates.SetUserMeaning` | buildroot/support/scripts/kconfiglib.py:2865-2931 | A valid value replaces that of the symbol, y selects it in its choice, m ends a selection, and nothing else changes; a value that is not valid changes nothing |
| `KconfiglibUpdates.SelectingWins` | buildroot/support/scripts/kconfiglib.py:2447-2479 | Setting a choice symbol to y makes it y and all others of the choice n, where symbol and choice are fully visible |
| `KconfiglibUpdates.Session.UnsetUserValue` | buildroot/support/scripts/kconfiglib.py:2481-2486 | Removing one drops exactly the results of the symbols it reaches, also for MODULES, and keeps all caches right if for MODULES the other symbols would be computed as they are |
| `KconfiglibUpdates.UnsetUserMeaning` | buildroot/support/scripts/kconfiglib.py:2481-2486 | Removing a user value removes the selection and the mode of the choice as well, and nothing else |
| `KconfiglibUpdates.StepKeepsCoherence` | buildroot/support/scripts/kconfiglib.py:2447-2486 | Any one of these actions, followed by the invalidation of what it reaches, keeps every cached result right unless it switches modules on or off |
| `KconfiglibUpdates.StepSufficesIff` | buildroot/support/scripts/kconfiglib.py:2447-2486 | That invalidation is enough for every cache if and only if, should the action remove the user value of MODULES, every symbol outside its reach is computed as before from the values before the action |
| `KconfiglibUpdates.SameModulesHarmless` | buildroot/support/scripts/kconfiglib.py:2481-2486 | That holds if MODULES is y before and after, or neither |
| `KconfiglibUpdates.Run` | buildroot/support/scripts/kconfiglib.py:2287-2486 | Over any sequence of reads, assignments and removals every read returns the value from scratch, provided that before each removal for MODULES every symbol outside its reach would be computed as it is |
| `KconfiglibUpdates.UnsetModulesLeavesStale` | buildroot/support/scripts/kconfiglib.py:2481-2486 | Removing the user value of MODULES can leave a stale value: a legitimate setup with two symbols, and a cache that is right before and wrong after |
| `QtMap.InsertFresh` | recovery/InstallManager.cpp:212 | Inserting a new key keeps the order and every other entry |
| `InstallManager.AutoNumberIsFresh` | recovery/InstallManager.cpp:187-196 | A number chosen automatically is the first from 6 on that is larger than every number in the map |
| `InstallManager.NumbersInsert` | recovery/InstallManager.cpp:198-212 | The checks keep the numbering rules: never 0, 1 or 5, never both 2 and 4 |
| `InstallManager.AcceptedIff` | recovery/InstallManager.cpp:198-212 | A number is refused if and only if it is taken or the map would break the numbering rules with it |
| `InstallManager.RegularInsert` | recovery/InstallManager.cpp:198-212 | Numbers stay within 2 to 4 and 6 upwards if and only if no negative one is entered |
| `InstallManager.RotationsReorderIff` | recovery/InstallManager.cpp:244-255 | The rotations put the logical partitions first if and only if no number is negative or there is no logical partition |
| `InstallManager.NegativeIsPlacedFirst` | recovery/InstallManager.cpp:244-255 | With the numbers -1 and 6 they do not |
| `InstallManager.InstallManager.CheckPartition` | recovery/InstallManager.cpp:173-223 | It refuses exactly the numbers in use, 1, 5 and the second of 2 and 4; otherwise the map gains the entry, the device name matches the number, and the totals grow by the charge. A refusal leaves the map alone but not the totals |
| `InstallManager.InstallManager.CheckImage` | recovery/InstallManager.cpp:141-171 | Nothing happens without partitions or without room for a RISC OS one. Otherwise the partitions before the first refused number are entered, it succeeds if none is refused, and the totals are those of the map plus the size of the refused partition |
| `InstallManager.InstallManager.ReserveForRiscOs` | recovery/InstallManager.cpp:149-161 | The space in front of the fixed offset is charged and the numbers 6 and 7 are required |
| `InstallManager.RotationsReorder` | recovery/InstallManager.cpp:242-253 | The three conditional rotations give the logical partitions first and then the primary ones |
| `InstallManager.OrderIsPermutation` | recovery/InstallManager.cpp:242-253 | No partition is lost or repeated by them |
| `InstallManager.InstallManager.PlacementOrder` | recovery/InstallManager.cpp:242-253 | The method computes that order |
| `InstallManager.BudgetIsTotal` | recovery/InstallManager.cpp:225-239 | What the placement may use is what `checkPartition` has charged plus the extra space |
| `InstallManager.InstallManager.PlaceInOrder` | recovery/InstallManager.cpp:255-308 | The loop writes the slots of the placement function into the partitions |
| `InstallManager.InstallManager.CalculateSpaceRequirements` | recovery/InstallManager.cpp:225-309 | It succeeds if and only if the charges fit and no fixed offset is too low, with as much extra space for each maximised partition as all can get. On success with right totals and positive sizes the layout is what `LayoutFollows` states |
| `InstallManager.BudgetFitsDisk` | recovery/InstallManager.cpp:225-309 | With an aligned start and a total of whole MiB the check is enough for every partition to end on the disk when the slack is not negative, counted from the RISC OS partition on if there is one, whose space in front is charged as well |
| `InstallManager.LayoutFollows` | recovery/InstallManager.cpp:225-309 | On success with positive sizes, also after a RISC OS image, the slots are in order, disjoint, at the offset asked for or at the first aligned one behind a gap, and of the size `PlaceSizes` gives; and they all end on the disk if and only if the final end does |
| `PartitionLayout.PlaceIsWell` | recovery/InstallManager.cpp:255-307 | Slots follow each other behind the offset; those without a fixed start begin at the first aligned sector that leaves a gap of 2 |
| `PartitionLayout.PlaceSizes` | recovery/InstallManager.cpp:281-306 | The last partition gets its MiB, or what is left of the disk if maximised; another one gives up 2 sectors at a multiple of 4 MiB unless raw, and if maximised is enlarged to the next boundary otherwise |
| `PartitionLayout.PlaceFailsIff` | recovery/InstallManager.cpp:259-264 | Placement fails if and only if some requested offset does not lie behind the partition before it |
| `PartitionLayout.SlotsAreDisjoint` | recovery/InstallManager.cpp:255-307 | Any two slots of a placement are disjoint |
| `PartitionLayout.InnerSizeWithinCharge` | recovery/InstallManager.cpp:214-218 | A partition that another follows stays, with its gap, within what it was charged if and only if it is not raw, unmaximised and a multiple of 4 MiB |
| `PartitionLayout.ExtentIsExact` | recovery/InstallManager.cpp:276-303 | What a partition takes up from its aligned start to the next is its charge and extra space less its slack, to the sector |
| `PartitionLayout.OnDiskIff` | recovery/InstallManager.cpp:255-307 | For any fixed offsets all partitions of a successful placement end on the disk if and only if the end counted from the last fixed offset does |
| `PartitionLayout.NeededDecides` | recovery/InstallManager.cpp:255-307 | Without fixed offsets placement succeeds, and all partitions end on the disk if and only if what they take up fits behind the first aligned start |
| `PartitionLayout.PlaceFitsDiskIff` | recovery/InstallManager.cpp:225-309 | In whole MiB: all partitions end on the disk if and only if the budget less the slack is available; the floor divisions lose nothing |
| `PartitionLayout.CheckedFitsIff` | recovery/InstallManager.cpp:225-240 | On a disk that passes the check, with the extra space computed from it, every partition ends on the disk if and only if the slack and the MiB that could not be divided make up for what is undercharged |
| `PartitionLayout.CheckSufficesIff` | recovery/InstallManager.cpp:225-240 | The check is enough on disks of every size if and only if the slack of all partitions together is not negative for extra space of 0, 1, 2 and 3 MiB, and so whenever no partition before the last is undercharged |
| `PartitionLayout.UnderchargedOverflows` | recovery/InstallManager.cpp:214-218 | Concrete requests that pass the check and overrun the disk: 4 MiB raw and 4 MiB with 8 MiB free |
| `PartitionLayout.LastFillsDisk` | recovery/InstallManager.cpp:282-288 | A maximised last partition ends with the disk |
| `PartitionTable.SettingsPlacement` | recovery/PreSetup.cpp:171-186 | The settings partition lies inside the extended one and leaves an aligned start behind it |
| `PartitionTable.SystemPartitionsFit` | recovery/InstallManager_Utility.cpp:44-56 | Adding 1, 5 and the extended partition at 2 or 4 overwrites no partition of an operating system |
| `PartitionTable.WritePartitionTable` | recovery/InstallManager_Utility.cpp:27-83 | It fails exactly without a readable table; otherwise the map holds the OS partitions, the boot partition as 1, the settings partition as 5 and the extended one as 2, or as 4 if an OS holds 2. Cut at newlines and commas the text reads back as start, size, type and active mark of each partition, and as 0,0 for free numbers; and if the partitions were placed behind the settings partition the extended entry encloses that and every logical one and lies before every OS primary |
| `PartitionTable.TableText` | recovery/InstallManager_Utility.cpp:71-83 | Line i of the text describes partition i, or is 0,0 |
| `PartitionTable.SplitInvertsText` | recovery/InstallManager_Utility.cpp:71-83 | Cutting the text at its newlines gives back the lines |
| `PartitionTable.LinesOnOneLine` | recovery/InstallManager_Utility.cpp:71-83 | No line contains a newline of its own |
| `PartitionTable.LaidOutIsPlaced` | recovery/InstallManager_Utility.cpp:30-50 | That is the case after a successful placement unless a negative number stands in front of a logical partition |
| `PartitionTable.ExtendedEncloses` | recovery/InstallManager_Utility.cpp:30-56 | The extended partition holds the settings partition and every logical one, and every primary one of an operating system lies behind it |
| `PartitionTable.ExtendedEndIsLastLogical` | recovery/InstallManager_Utility.cpp:50 | The end the table is written with is the end of the last logical partition placed |
| `BitBuffer.BitsAt` | recovery/libs/QRCode/BitBuffer.cpp:50-51 | Shifting out the bits from the top gives the binary digits of the value |
| `BitBuffer.SetBitAppends` | recovery/libs/QRCode/BitBuffer.cpp:50-51 | Setting one bit behind the last appends it to the bit sequence |
| `BitBuffer.Buffer.AppendBits` | recovery/libs/QRCode/BitBuffer.cpp:44-52 | It rejects exactly values that do not fit; otherwise the contents grow by the bits of the value, the size is the ceiling of bits by 8 and the padding is zero |
| `BitBuffer.Buffer.AppendData` | recovery/libs/QRCode/BitBuffer.cpp:55-63 | The bits of the segment are appended |
| `QrText.IsNumeric` | recovery/libs/QRCode/QrSegment.cpp:158-165 | True exactly for digits |
| `QrText.IsAlphanumeric` | recovery/libs/QRCode/QrSegment.cpp:148-155 | True exactly for characters with a code |
| `QrAlphanumeric.TableOrder` | recovery/libs/QRCode/QrSegment.cpp:168-173 | The table gives the digits 0 to 9, the letters 10 to 35, the nine signs 36 to 44 in order, and nothing else a code |
| `QrNumeric.MakeNumeric` | recovery/libs/QRCode/QrSegment.cpp:58-78 | It fails exactly for a character that is no digit; otherwise the segment holds the groups of section 7.4.3, packed without slack |
| `QrAlphanumeric.MakeAlphanumeric` | recovery/libs/QRCode/QrSegment.cpp:81-101 | It fails exactly when a character is outside the table or a pair comes out negative; otherwise the segment holds the pairs of section 7.4.4 |
| `QrNumeric.NumericRoundTrip` | recovery/libs/QRCode/QrSegment.cpp:58-78 | Decoding the numeric groups gives back the digits |
| `QrAlphanumeric.AlphanumericRoundTrip` | recovery/libs/QRCode/QrSegment.cpp:81-101 | Decoding the pairs gives back the codes |
| `QrSegment.AlphanumericRightIff` | recovery/libs/QRCode/QrSegment.cpp:81-101 | On its own `makeAlphanumeric` gives a segment that reads back as the text if and only if `isAlphanumeric` accepts the text |
| `QrSegment.BangReadsAsColon` | recovery/libs/QRCode/QrSegment.cpp:81-101 | It accepts "1!" and gives the bits of "0:" |
| `QrSegment.MakeBytes` | recovery/libs/QRCode/QrSegment.cpp:53-55 | A byte segment passes the check of the constructor |
| `QrSegment.MakeSegments` | recovery/libs/QRCode/QrSegment.cpp:104-119 | For every text it succeeds with at most one segment, in the first mode that can hold the text and with no more bits than that needs, and reading it by mode gives the text back |
| `QrText.ShortestFirst` | recovery/libs/QRCode/QrSegment.cpp:104-119 | The modes are tried from the one that needs the fewest bits on |
| `StringEscape.EscapedSize` | buildroot/support/kconfig/symbol.c:922-935 | The first pass computes the size of the quoted string with its terminator |
| `StringEscape.EscapeStringValue` | buildroot/support/kconfig/symbol.c:915-956 | The second pass fills exactly that buffer with the quoted and escaped string |
| `StringEscape.ParseString` | buildroot/support/kconfig/confdata.c:154-170 | Resolving escapes in place leaves the unescaped string up to the closing quote, or refuses a line without one |
| `StringEscape.DropOne` | buildroot/support/kconfig/confdata.c:163 | `memmove` drops one character and nothing before it changes |
| `StringEscape.UnescapeEscaped` | buildroot/support/kconfig/confdata.c:154-170 | Unescaping inverts escaping, whatever follows the closing quote |
| `StringEscape.WriteAndRead` | buildroot/support/kconfig/symbol.c:915-956 | Writing a string and reading it in place yields the string |
| `StringEscape.PythonEscapesAlike` | buildroot/support/scripts/kconfiglib.py:2953-2957 | The two replacements of kconfiglib escape as the C code does |
| `StringEscape.PythonReadsBack` | buildroot/support/scripts/kconfiglib.py:306-309 | Its two replacements on reading invert its own escape and that of the C code |

## Left out

- User interfaces, process execution, mounting, downloading, file naming, warnings and log-only fields have no
  counterpart; sector starts and sizes and the text of files are inputs.
- Memory management in the rewriters; E_LIST and E_RANGE nodes, which the rewriters only pass through;
  `expr_trans_compare` with `symbol_mod`, which has no caller; `expr_simplify_unmet_dep`, which only feeds a warning.
- 32-bit overflow in the allocator and in segment lengths; integers are unbounded there. `BitBuffer` does model the
  conversion of negative values to `uint32_t`.
- Choice symbols in `symbol.c` and in the cycle check. Choices are modelled for kconfiglib.
- MenuFinalize.Finalizer.MenuFinalize: the test which sibling to adopt is any function of parent and sibling; what the
  actual test guarantees is stated by `MenuAdoption.AdoptsSibling`. The propagation of dependencies into properties,
  select expressions and choice values is not part of the linked model.
- PartitionLayout.PlaceFitsDiskIff: the closed form in MiB is for lists without fixed offsets; with them `OnDiskIff` gives
  the condition in sectors.
- SymbolEvaluator.Evaluator.CalcValue: assumes that `modules_val` already is the value of its symbol and that the graph
  is acyclic; change flags and the unmet dependency warning are not modelled.
- KconfiglibCache.Config.GetValue: `write_to_conf` is not modelled. A default of a string or number that is not an operand
  counts as the empty string, where the original stops with an exception.
- KconfiglibCache.Config.GetVisibility: asks that MODULES ranks below a special symbol whose prompts may be m.
- KconfiglibInvalidation.InvalidationKeepsCoherence: asks that the default symbols of a choice are among its symbols, as
  other defaults are not recorded as dependencies. Visibilities of special symbols and of choices without symbols of
  their own are left to `LeftoversIff` and the two lemmas after it.
- The lexer and the Kconfig file parsers: tokens and symbols are given.
- The total length check `getTotalBits` and the rest of the QR code drawing.
