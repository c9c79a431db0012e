# Verified models of the emulator's toolchain

This project models, in Dafny, the parts of the repository whose correctness rests on arguments that
span many functions or whole runs, and proves those arguments:

- **Kconfig expressions** (`Expr*.dfy`): the three-valued logic of configuration conditions and its
  optimiser. A slot (`struct expr **`) of the source is a path into a tree held in a field, so that
  overlapping and identical slots behave as they do in the source.
- **The Kconfig menu tree** (`MenuTree.dfy`): nodes with `parent`, `next` and `list` pointers, relinked
  by `menu_finalize` and then walked by `conf_write` without a stack.
- **Kconfig symbols** (`SymbolSpec.dfy`, `SymbolDeps.dfy`, `SymbolCalc.dfy`, `Choice.dfy`): a plain
  definition of a symbol's value, the cycle check, the memoising evaluator, and choices;
  `SymbolRules.dfy` says what prompts, defaults, implies and selects do in every solution, and
  `SymbolBool.dfy` what simplifying conditions for booleans does to all values.
- **Kconfig macro expansion** (`Preprocess.dfy`, `PreprocessCalls.dfy`) and **.config files** (`ConfigFile.dfy`).
- **luna and lld** (`ObjectCode.dfy`, `LinkedRun.dfy`, `BranchCode.dfy`): the relocatable object stream
  between assembler and linker, and linked jumps and conditional branches, whose meaning is the emulator's
  own `step`.
- **The 6502** (`Cpu.dfy`, `CpuInstructions.dfy`): single steps, and the stack discipline of whole runs.
- **Packets** (`Checksum.dfy`, `Slip.dfy`): Internet checksums and SLIP framing on a serial line.

`dafny verify dfyconfig.toml` checks everything.

## What was found

- The constant rules of `expr_join_and` are exact if and only if no tristate value equals both constants.
  `a="2" && a!=y` becomes `a="2"`, although the two operands contradict each other, because numeric names
  compare as numbers (`ExprJoin.ConstantRuleExactIff`, `ExprJoin.ConstantRuleCounterexample`). Everything
  built on the rule carries this condition (`Separated`); it holds when tristates are compared with y, m,
  n and non-numeric strings.
- `expr_eq` is equality up to the order and nesting of operands exactly for expressions that have no y or
  n as an operand (`ExprOrder.ExprEqIff`). With such operands it need not be transitive, and its answer can
  depend on the order (`ExprOrder.OrderMatters`); an expression always equals itself
  (`ExprOrder.EqualsItself`).
- A boolean or tristate compared with y, m or n is compared as text, in which m comes before n: `A > n` is
  false for A = m. `ExprCompare.ConstantsCompareIff` says exactly when the relations hold as they should.
- `expr_trans_compare` flips a relation under a negation. This is right in a valuation if and only if the
  negated operand is not m there (`ExprMenuDeps.TransCompareNotExactIff`, with the failing input in
  `ExprMenuDeps.TransCompareNegatedM`). `expr_trans_bool` needs the normal form
  (`ExprMenuDeps.TransBoolNeedsNormalForm`, `ExprMenuDeps.TransBoolUnderNotIff`); its only caller,
  menu.cpp:404, passes normal forms, so no input of the program fails for this reason.
- That caller rewrites the conditions of selects and implies too, before menu.cpp:407-416 copies them to
  another symbol. With `select T if X != n` in a boolean that is y, and X = m, the tristate T is selected at
  m, although the condition is y (`SymbolBool.SelectWeakened`). `SymbolBool.SelectKeptIff` says exactly when
  a select is weakened. Prompts and defaults never are (`SymbolBool.SameSolutions`).
- `sym_set_tristate_value` accepts a value equal to the current one without the range test, and the
  next calculation may give another value (`SymbolSpec.EqualValueNotKept`). The exact condition under
  which a value is kept, for visible and invisible symbols, is in `SymbolSpec.SetThenRecalculate`. A
  value from a default may exceed the visibility, one from the user is cut down to it; so saving a
  configuration and reading it back can change values. `SymbolSpec.ReloadGivesSameValues` says exactly when
  it does not.
- A default on a choice value, against which the parser only warns, can make a hidden value y beside the
  chosen one (`Choice.DefaultBreaksRule`); there is one value y exactly if no default does that
  (`Choice.ExactlyOne`). While a choice is m, a hidden boolean value with a default is y
  (`Choice.NotYIff`, an equivalence). menu_finalize prevents this for the first entry of a value only, so
  that a default in a second entry inside the same choice has the effect (`Choice.SecondEntryBreaksRule`).
  A default in a second definition outside the choice acts even while the choice is n
  (`Choice.OutsideDefaultBreaksRule`).
- The recursion guard of macro expansion refuses an expansion if and only if a variable is entered without
  arguments while it is being expanded, or for the 1002nd time at once (`Preprocess.RefusedIff`). It so
  refuses expansions that would end (`Preprocess.GuardRefusesMore`).
- The size field of an object file has 16 bits. luna accepts calls that give longer code, and lld then
  rejects the file (`Lld.SizeFieldOverflows`); it also rejects files without any byte or word, which have no
  header (`Lld.NoHeaderRejected`). `Lld.AssembleAndLink` says exactly for which calls luna reports no error,
  and when the code asked for comes out.
- The don't-fragment test of `tunslip` is made on the field in host byte order. On a little-endian machine it
  looks at a bit of the fragment offset, and packets with the don't-fragment bit keep the identification 0
  (`Checksum.NeedsIdIff`, `Checksum.DontFragmentMissed`).
- The identification rewrite of `tunslip` keeps an accepted packet acceptable except when the header length
  field is 2 (eight bytes) and the identification is no multiple of 65535 (`Checksum.RewriteSafeIff`;
  `Checksum.ShortHeaderBreaks` gives such a packet). For packets that end before their checksum field does,
  `Checksum.RewriteKeepsPacketValid` gives the exact condition.
- A menu whose title begins with `CONFIG_X is not set` resets the symbol X when the file is read
  (`ConfigFile.TitleResetsSymbol`). `ConfigFile.CommentIgnored` says exactly which titles are passed over, and
  `ConfigFile.FileReads` what is read from any file.

## Model

| member | source | states |
|---|---|---|
| `KconfigExpr.CompareWithConstant` | tools/kconfig/expr.cpp:1066-1100 | Comparing a logical symbol with y, m or n through strings gives equality of the tristate values. |
| `ExprCompare.IntsCompare` | tools/kconfig/expr.cpp:1066-1100 | All six relations between integers of up to 64 bits, written in decimal, are those of the numbers. |
| `ExprCompare.HexesCompare` | tools/kconfig/expr.cpp:1066-1100 | The same for unsigned hexadecimal numbers. |
| `ExprCompare.StringsCompare` | tools/kconfig/expr.cpp:1066-1100 | Strings are ordered by their first difference, a prefix coming first. |
| `ExprCompare.TristatesCompare` | tools/kconfig/expr.cpp:1066-1100 | Booleans and tristates among themselves are ordered n, m, y. |
| `ExprCompare.ConstantsCompareIff` | tools/kconfig/expr.cpp:1066-1100 | Against y, m and n all relations are right exactly if value and constant are not m and n in some order. |
| `ExprCompare.GreaterThanNo` | tools/kconfig/expr.cpp:1076-1077 | The comparison A > n fails for A = m. |
| `ExprTransform.Transform` | tools/kconfig/expr.cpp:692-847 | The rewriting ends although De Morgan steps add nodes: a measure in which NOT doubles what it negates never grows and falls at every recursive call. |
| `ExprTransform.TransformPreservesValue` | tools/kconfig/expr.cpp:692-847 | The rewritten expression has the same value under every well-formed valuation. |
| `ExprTransform.TransformNormal` | tools/kconfig/expr.cpp:692-847 | In the result every NOT stands on a non-constant symbol and no boolean symbol is compared with y, m or n. |
| `ExprTransform.NormalIffFixed` | tools/kconfig/expr.cpp:692-847 | An expression is in this normal form exactly if the rewriting leaves it alone. |
| `ExprElim.EliminateYnPreservesValue` | tools/kconfig/expr.cpp:314-395 | Removing constants y and n keeps the value under every valuation. |
| `ExprElim.EliminateYnShrinks` | tools/kconfig/expr.cpp:314-395 | It never adds nodes, and takes at least one away if an operand is a constant. |
| `ExprElim.EliminateLeavesSplits` | tools/kconfig/expr.cpp:148-217 | Striking out equal operands on both sides leaves residues that, combined with one common part, give the two sides back. |
| `ExprElim.EliminateEqSplits` | tools/kconfig/expr.cpp:219-231 | The same for the whole of expr_eliminate_eq, whichever of the two connectives each side has. |
| `ExprElim.ExprEqSound` | tools/kconfig/expr.cpp:250-301 | If expr_eq answers true the two expressions have the same value under every valuation. |
| `ExprElim.ResidueYesImpliesBelow` | tools/kconfig/menu.cpp:479-490 | If the second side is reduced to y, the first side is nowhere greater than the second. |
| `ExprOrder.EqualsItself` | tools/kconfig/expr.cpp:250-301 | Every expression, constants included, is recognised as equal to itself. |
| `ExprOrder.StrikesCommon` | tools/kconfig/expr.cpp:148-217 | Without constants each operand is struck out against one equal operand of the other side: what is left on each side is the multiset difference. |
| `ExprOrder.ExprEqIff` | tools/kconfig/expr.cpp:250-301 | Without constants as operands, expr_eq answers true exactly if the two expressions are the same up to order and nesting of operands at every level. |
| `ExprOrder.ReducedToYesIff` | tools/kconfig/expr.cpp:219-231 | Against an AND an expression is reduced to y exactly if its operands are among those of the AND. |
| `ExprOrder.OrderMatters` | tools/kconfig/expr.cpp:250-301 | Two expressions with constants, the same up to order, that are not recognised as equal. |
| `ExprJoin.JoinExact` | tools/kconfig/expr.cpp:429-585 | A joined operand has the value of the two operands combined, for every rule of both functions. |
| `ExprJoin.JoinShape` | tools/kconfig/expr.cpp:429-585 | A join has fewer nodes than its operands, is no AND or OR unless it is the first operand, brings in no constants but y, m, n, and keeps the normal form. |
| `ExprJoin.JoinIff` | tools/kconfig/expr.cpp:429-585 | Two operands are joined exactly if expr_eq holds or they are one of the pairs that the comments of the source name. |
| `ExprJoin.ConstantRuleExactIff` | tools/kconfig/expr.cpp:537-551 | The rule for a = b with a != c is right in every valuation exactly if no tristate value equals both constants. |
| `ExprJoin.ConstantRuleCounterexample` | tools/kconfig/expr.cpp:1071-1081 | It fails for the constants "2" and y. |
| `ExprDups.PutPairValue` | tools/kconfig/expr.cpp:625-645 | Replacing two operands anywhere on one spine by two others of the same combined value keeps the value of the whole tree. |
| `ExprDups.JoinImproves` | tools/kconfig/expr.cpp:625-645 | Storing the identity in one slot and the joined operand in the other keeps the value, the spine, the normal form and the set of constants, and leaves a constant to remove. |
| `ExprDups.Rewriter.EliminateDups1` | tools/kconfig/expr.cpp:594-648 | On slots that may overlap or be one, a pass keeps value and spine; if the counter has not moved, nothing has changed and no two operands below the slots can be joined. |
| `ExprDups.Rewriter.EliminateDupsInside` | tools/kconfig/expr.cpp:618-623 | The self-aliased call removes the duplicates inside an operand, and ends. |
| `ExprDups.Rewriter.EliminateDups` | tools/kconfig/expr.cpp:662-684 | The loop ends with an expression of the same value, no larger, in which at every level two operands are different, also up to order and nesting if they have no constants, and never one of the named pairs; it brings in no constant operands, and restores the counter. |
| `ExprMenuDeps.RewriteMMeaning` | tools/kconfig/menu.cpp:81-104 | A condition with m rewritten has the value that the original has when m counts at most as MODULES. |
| `ExprMenuDeps.TransBoolValue` | tools/kconfig/expr.cpp:400-424 | On the normal form the result is at most the old value, and equal once m is promoted to y. |
| `ExprMenuDeps.TransBoolNeedsNormalForm` | tools/kconfig/expr.cpp:400-424 | Outside the normal form this fails; the only caller passes normal forms. |
| `ExprMenuDeps.TransBoolUnderNotIff` | tools/kconfig/expr.cpp:400-424 | Below a NOT on a normal form it is right in a valuation exactly if the operand is not lowered there. |
| `ExprMenuDeps.Propagate` | tools/kconfig/menu.cpp:351-405 | The condition stored for a child or property allows exactly what the inherited and its own condition allow, up to m for y where the symbol is boolean, and is free of duplicates. |
| `ExprMenuDeps.TransCompareExact` | tools/kconfig/expr.cpp:920-983 | The inserted comparison is true exactly where the expression has, or has not, the given value, provided that no negated operand is m. |
| `ExprMenuDeps.TransCompareNotExactIff` | tools/kconfig/expr.cpp:951-952 | Under a negation it is right in a valuation exactly if the negated operand is not m there. |
| `ExprMenuDeps.TransCompareNegatedM` | tools/kconfig/expr.cpp:951-952 | A valuation in which a negated m makes it wrong. |
| `ExprMenuDeps.IsSuperset` | tools/kconfig/menu.cpp:479-490 | A positive answer means that the element's comparison lies below the symbol's everywhere; for a conjunction without constants the answer is positive exactly if all operands of the symbol's simplified comparison are among the element's. |
| `ExprMenuDeps.SupersetMeaning` | tools/kconfig/menu.cpp:455-490 | So the element can only be visible where the symbol's prompt is. |
| `ExprMenuDeps.DependsSymbolSound` | tools/kconfig/expr.cpp:877-904 | A condition that depends on a symbol is n whenever the symbol is. |
| `ExprMenuDeps.DependsSymbolIff` | tools/kconfig/expr.cpp:877-904 | A condition depends on a symbol outright exactly if the symbol, or its comparison =y, =m or !=n, is an operand of the outermost AND. |
| `ExprMenuDeps.InSubmenu` | tools/kconfig/menu.cpp:461-490 | What is put into a submenu mentions the symbol, and is only visible where the symbol is on or its prompt is visible (for a string or number: unless it depends on the symbol outright); what depends on the symbol outright is always put there; what else is, is decided by the superset test. |
| `MenuTree.Flatten` | tools/kconfig/menu.cpp:574-583 | Flattening one node re-nests the chain, corrects the parents of the moved nodes and keeps the order of all nodes. |
| `MenuTree.MakeSubmenu` | tools/kconfig/menu.cpp:460-501 | Creating a submenu takes over exactly the following elements up to the first that does not depend on the symbol. |
| `MenuTree.CloseSubmenu` | tools/kconfig/menu.cpp:497-501 | The three pointer writes give a chain of children and a shorter chain of successors. |
| `MenuTree.MenuFinalize` | tools/kconfig/menu.cpp:426-600 | The tree afterwards is the finalized one, all pointers are right, and every node with a prompt text and children keeps its list. |
| `MenuTree.Finalized` | tools/kconfig/menu.cpp:426-600 | Finalizing keeps the preorder of the nodes and leaves no children below a node without a prompt text. |
| `MenuTree.FinalizedKeeps` | tools/kconfig/menu.cpp:574 | Nodes with a prompt text keep their first child. |
| `MenuTree.ParentsAllowed` | tools/kconfig/menu.cpp:434-583 | A node moves up past ancestors without a prompt text only, or down below a symbol of its chain that something depends on. |
| `MenuTree.NearestIsParent` | tools/kconfig/menu.cpp:574-583 | Without automatic submenus the parent afterwards is the nearest ancestor with a prompt text. |
| `MenuTree.Walk` | tools/kconfig/confdata.cpp:863-907 | The walk without a stack visits the nodes below the root in preorder, each once, and stops. |
| `MenuTree.Climb` | tools/kconfig/confdata.cpp:895-906 | Going up ends at the next node of the nearest ancestor that has one. |
| `MenuTree.FinalizeAndWrite` | tools/kconfig/confdata.cpp:863-907 | Finalizing a tree and then writing visits every node exactly once, in the order of creation; menus keep their elements, and every node stands below a parent it may have. |
| `SymbolSpec.CalculatedAgrees` | tools/kconfig/symbol.cpp:325-467 | A symbol's value, visibility and reverse dependency depend on nothing but the symbols that the cycle check follows. |
| `SymbolSpec.ValueIsSolution` | tools/kconfig/symbol.cpp:325-467 | In an acyclic configuration the plain recursive definition gives every symbol the value calculated from the others. |
| `SymbolSpec.SolutionUnique` | tools/kconfig/symbol.cpp:325-467 | There is no other such valuation. |
| `SymbolSpec.SolutionWellFormed` | tools/kconfig/symbol.cpp:325-467 | It is a well-formed valuation, as the expression rewriting assumes, and without modules no logical symbol is m. |
| `SymbolRules.ValueRuled` | tools/kconfig/symbol.cpp:376-416 | In every solution a boolean or tristate is what the rules say of its properties: a user's value no higher than the best prompt; else the lesser of value and condition of the first default that holds, lifted by implies up to the direct dependency; never below the selects; m counts as y where there is no m. |
| `SymbolRules.DefaultIsCut` | tools/kconfig/symbol.cpp:393-398 | A tristate with nothing but defaults is the lesser of value and condition. |
| `SymbolRules.SelectsAndImplies` | tools/kconfig/symbol.cpp:399-412 | A select is always obeyed; an imply lifts up to the direct dependency and no further. |
| `SymbolRules.TextRuled` | tools/kconfig/symbol.cpp:417-436 | A string or number is the user's if a prompt holds, else the text of the symbol named by the first default that holds, else empty. |
| `SymbolSpec.SetThenRecalculate` | tools/kconfig/symbol.cpp:480-533 | Visibility and reverse dependency do not depend on the symbol's own value; a value in range is the one calculated afterwards; exactly which values a visible symbol keeps; an invisible symbol keeps its value. |
| `SymbolSpec.ConfirmKeepsSolution` | tools/kconfig/symbol.cpp:499-533 | Confirming the current value, when it is in range, changes no symbol. |
| `SymbolSpec.SavedSolutionIff` | tools/kconfig/symbol.cpp:325-467 | With all visible user values among the values saved, the current values solve the saved configuration exactly if no saved value exceeds its visibility without being forced by a reverse dependency. |
| `SymbolSpec.ReloadGivesSameValues` | tools/kconfig/symbol.cpp:325-467 | So in an acyclic configuration saving, reading back and calculating changes no value exactly under this condition. |
| `SymbolSpec.EqualValueNotKept` | tools/kconfig/symbol.cpp:503-504 | Confirming it when it is not in range can change it. |
| `SymbolBool.VisibilityUnchanged` | tools/kconfig/symbol.cpp:189-203 | Symbols that are no tristates are visible exactly as before their prompts were rewritten for booleans. |
| `SymbolBool.CalculatedUnchanged` | tools/kconfig/menu.cpp:403-405 | Nor does the rewriting of prompts and defaults change the value of any symbol, given the others. |
| `SymbolBool.SameSolutions` | tools/kconfig/menu.cpp:403-405 | So the whole configuration has the same solutions before and after. |
| `SymbolBool.SelectKeptIff` | tools/kconfig/menu.cpp:403-416 | A select or imply by a symbol that is no tristate keeps its effect exactly if the target counts as boolean, or it is not so that selector and condition are y, the rewritten condition m and nothing else selects with y; otherwise m replaces y. |
| `SymbolBool.SelectWeakened` | tools/kconfig/menu.cpp:403-416 | A select with X != n that gives m where the condition says y. |
| `SymbolDeps.OrderRanks` | tools/kconfig/symbol.cpp:1250-1279 | The order in which symbols are finished ranks every dependency below its dependent. |
| `SymbolDeps.FallingIsAcyclic` | tools/kconfig/symbol.cpp:1250-1279 | A graph with such ranks has no cycle. |
| `SymbolRules.DepsIff` | tools/kconfig/symbol.cpp:1163-1248 | The cycle check follows exactly the symbols in the direct, reverse and implied dependency and in the conditions and values of properties other than select and imply. |
| `SymbolDeps.Checker.CheckDeps` | tools/kconfig/symbol.cpp:1250-1279 | With the flags of the symbols on the current path set, the answer is a symbol only if there is a cycle, and without one everything reachable is marked as checked. |
| `SymbolDeps.Checker.CheckExprDeps` | tools/kconfig/symbol.cpp:1130-1161 | The same for all symbols of an expression. |
| `SymbolDeps.CheckConfiguration` | tools/kconfig/symbol.cpp:1130-1279 | Checked over all symbols, no error is reported if and only if the dependency graph has no cycle. |
| `SymbolCalc.Calculator.CalcValue` | tools/kconfig/symbol.cpp:325-467 | With some symbols already valid and some being calculated, the symbol gets its value in the solution and nothing valid becomes wrong. |
| `SymbolCalc.Calculator.SetAndCalculate` | tools/kconfig/symbol.cpp:480-533 | Setting a value in range, dropping the valid flags and calculating again gives that value. |
| `SymbolCalc.CheckAndCalculate` | tools/kconfig/symbol.cpp:325-467 | If the cycle check passes, calculating symbols in any order and any number of times gives each its value under the plain definition. |
| `Choice.MemberIsY` | tools/kconfig/symbol.cpp:376-414 | A choice value is y exactly if the choice is y and it is the chosen one, or an unsupported default makes it so. |
| `Choice.ExactlyOne` | tools/kconfig/symbol.cpp:272-302 | A choice that is y has a chosen value that is y, and it is the only one exactly if no other value is y by default. |
| `Choice.ChosenIs` | tools/kconfig/symbol.cpp:246-302 | The user's pick goes before every default if it is visible; then the first default that applies; then the first visible value. |
| `Choice.NotYIff` | tools/kconfig/symbol.cpp:376-414 | A value inside a choice that is not y is y exactly if the choice is m and the value is no tristate, is hidden and has a default that is not n; in a choice that is n it is n. |
| `Choice.NotYMeansNone` | tools/kconfig/menu.cpp:337-343 | While a choice is not y none of its values is y, for tristate values and for values whose prompts and defaults are off while the choice is m. |
| `Choice.OffMeansNone` | tools/kconfig/menu.cpp:337-343 | All values of a choice that is n are n. |
| `Choice.FinalizeMember` | tools/kconfig/menu.cpp:337-405 | The stored condition of each property of one entry allows exactly what choice, entry and property allow together, up to m for y where the value is no tristate; for the first entry of a value only (menu.cpp:507), n unless the choice is y if only the choice is a tristate. |
| `Choice.FinalizedFollow` | tools/kconfig/menu.cpp:507-536 | Prompts and defaults so finalized are hidden with the choice, and those of a first entry while it is m, as the other results need. |
| `Choice.DefaultBreaksRule` | tools/kconfig/menu.cpp:513-515 | Inside a choice that is y, a hidden value with a default is y beside the chosen one. |
| `Choice.SecondEntryBreaksRule` | tools/kconfig/menu.cpp:507-536 | A default in a second entry inside a choice makes a boolean value y while the choice is m. |
| `Choice.OutsideDefaultBreaksRule` | tools/kconfig/menu.cpp:366-392 | A default in a second definition outside the choice makes a value y while the choice is n. |
| `Choice.Calculator.CalcVisibility` | tools/kconfig/symbol.cpp:186-203 | The prompt loop gives the visibility of a choice value under the choice's present state. |
| `Choice.Calculator.CalcChosen` | tools/kconfig/symbol.cpp:246-302 | The user's pick if visible, else the first visible default, else the first visible value; the choice becomes n if there is none. |
| `Choice.Calculator.CalcAll` | tools/kconfig/symbol.cpp:325-467 | Calculating a choice and its values: every value is the one defined; if the choice is y so is the chosen value, and another only by default; inside a choice that is m exactly the promoted defaults are y; if it is n all values are n. |
| `Preprocess.JoinSplit` | tools/kconfig/preprocess.cpp:382-397 | Cutting a clause at its outer commas loses nothing. |
| `PreprocessCalls.SplitJoin` | tools/kconfig/preprocess.cpp:382-397 | Cutting a clause gives back the plain name and arguments it was joined from. |
| `Preprocess.ExpandAppend` | tools/kconfig/preprocess.cpp:493-535 | A string that ends outside a reference, and not with a dollar sign, expands apart from what follows it. |
| `PreprocessCalls.CallExpands` | tools/kconfig/preprocess.cpp:399-412 | A call of a user-defined function with plain arguments is the expansion of its text with these arguments. |
| `PreprocessCalls.CallGivesArgument` | tools/kconfig/preprocess.cpp:357-366 | A function whose text is a number gives the argument of that number, whatever the others are. |
| `PreprocessCalls.UnknownNames` | tools/kconfig/preprocess.cpp:414-428 | A name that is no variable and no built-in function is looked up in the environment if it has no arguments, and is empty otherwise. |
| `Preprocess.StackIsShort` | tools/kconfig/preprocess.cpp:258-263 | The guards bound the depth of nested expansions by 1001 times the number of variables. |
| `Preprocess.EnterBounded` | tools/kconfig/preprocess.cpp:258-265 | Each entry that the guards let through uses up some of that bound, so expansion always ends. |
| `Preprocess.GuardOnlyRefuses` | tools/kconfig/preprocess.cpp:249-275 | An answer other than a refusal is the answer of the rules without any guard, for every sufficient depth; so an expansion without end is always refused. |
| `Preprocess.RefusedIff` | tools/kconfig/preprocess.cpp:258-263 | An expansion is refused exactly if, following the unguarded rules, a variable is entered without arguments while it is being expanded, or more than 1001 times at once. |
| `Preprocess.GuardRefusesMore` | tools/kconfig/preprocess.cpp:258-260 | A function called with its own name is refused although it would end. |
| `Preprocess.Preprocessor.VariableExpand` | tools/kconfig/preprocess.cpp:249-275 | The counters stand for the call stack: the result is that of the rules, and after success all counters are as before. |
| `Preprocess.Preprocessor.EvalClause` | tools/kconfig/preprocess.cpp:344-437 | An argument number, or a name and arguments expanded first; variables hide built-ins, which hide the environment. |
| `Preprocess.Preprocessor.ExpandDollar` | tools/kconfig/preprocess.cpp:451-486 | The part behind a dollar sign is replaced and the position moves to its end. |
| `Preprocess.Preprocessor.ExpandString` | tools/kconfig/preprocess.cpp:493-550 | The loop over a string gives what the rules give, ends, and restores all counters unless an error is reported. |
| `ConfigFile.UnescapeEscape` | tools/kconfig/confdata.cpp:256-265 | Reading an escaped string gives the string back, for every string and whatever follows it. |
| `ConfigFile.EscapedSize` | tools/kconfig/symbol.cpp:882-896 | The buffer allocated for an escaped string has exactly the length needed. |
| `ConfigFile.EscapeStringValue` | tools/kconfig/symbol.cpp:896-915 | The chunk-wise loop escapes each quote and backslash and nothing else. |
| `ConfigFile.UnescapeInPlace` | tools/kconfig/confdata.cpp:257-270 | Deleting backslashes in the line's own buffer leaves the unescaped text, or reports that it has no end. |
| `ConfigFile.ValueBack` | tools/kconfig/confdata.cpp:229-288 | The text of a value of any type is read as that value. |
| `ConfigNumbers.ValidIntIff` | tools/kconfig/symbol.cpp:565-577 | A text is a valid integer exactly if it is a decimal number without leading zeros, perhaps with a minus sign. |
| `ConfigNumbers.ValidHexIff` | tools/kconfig/symbol.cpp:578-586 | A text is a valid hexadecimal number exactly if all of it is read as one in conditions. |
| `ConfigFile.LineBack` | tools/kconfig/confdata.cpp:411-475 | The line written for a symbol sets that symbol to the value written. |
| `ConfigFile.FileReads` | tools/kconfig/confdata.cpp:408-502 | Reading a written file, with whatever comments between the symbols, gives each symbol what the last line about it says. |
| `ConfigFile.FileRoundTrip` | tools/kconfig/confdata.cpp:408-502 | So it restores the value of every symbol written, and of no other, unless a title resets a symbol. |
| `ConfigFile.UnsetIff` | tools/kconfig/confdata.cpp:411-419 | A comment is read as unsetting a name exactly if it says that this name, without a blank, is not set. |
| `ConfigFile.CommentIgnored` | tools/kconfig/confdata.cpp:870-874 | A title is passed over exactly if it is one line and does not begin by saying of a name that it is not set. |
| `ConfigFile.TitleResetsSymbol` | tools/kconfig/confdata.cpp:411-442 | A file in which y is written for a symbol and n is read, because of a title. |
| `ConfigFile.WriteAndRead` | tools/kconfig/confdata.cpp:585-606 | The same through the loops that write and read. |
| `Luna.Assembler.WriteHeader` | OS/c64-lng/devel_utils/luna.c:1246-1298 | The first call writes magic, globals, the low 16 bits of pc_end and the externals. |
| `Luna.Assembler.PutByte` | OS/c64-lng/devel_utils/luna.c:1241-1374 | In object mode a call writes the header if it is the first, adds the pending zeros and one value to what the stream stands for, keeps the buffer below 127 bytes, and reports an error exactly if the value is to be relocated and is a whole word or neither variable nor external. |
| `Luna.Assembler.PutWord` | OS/c64-lng/devel_utils/luna.c:1376-1389 | The same for words, with the program counter moved by two; an error exactly if the value is to be relocated and is half a word or neither variable nor external. |
| `Luna.Assembler.CleanupPlainBuf` | OS/c64-lng/devel_utils/luna.c:1230-1239 | Writing the buffer out as a fragment changes nothing that the stream stands for. |
| `Luna.Assembler.Close` | OS/c64-lng/devel_utils/luna.c:2177-2191 | At the end the zeros asked for last and the end mark are written. |
| `Lld.RelocateStream` | OS/c64-lng/devel_utils/lld.c:438-472 | Decoding the encoding of any list of fragments gives the bytes each stands for at the base address, without an error while the buffer is long enough. |
| `Lld.LinkedCode` | OS/c64-lng/devel_utils/lld.c:438-472 | In a buffer of its size plus two, a stream written by luna is linked to the code it stands for. |
| `Lld.ReadEncodedNames` | OS/c64-lng/devel_utils/lld.c:424-429 | The list of externals is read back name by name. |
| `Lld.ReadHeader` | OS/c64-lng/devel_utils/lld.c:622-651 | The linker passes over magic and globals and reads the size that luna has written, modulo 65536. |
| `Lld.LinkedFits` | OS/c64-lng/devel_utils/lld.c:438-472 | Linked code never outgrows the code buffer. |
| `Lld.ObjectFileRoundTrip` | OS/c64-lng/devel_utils/lld.c:608-677 | Header, names and stream together give the code with every relocation resolved, exactly if it ends below 64k. |
| `Lld.NoHeaderRejected` | OS/c64-lng/devel_utils/lld.c:622-635 | A file without a header, from a run without putbyte, is rejected. |
| `Lld.SizeFieldOverflows` | OS/c64-lng/devel_utils/luna.c:1282-1283 | Three calls that luna accepts, giving 65538 bytes, and a file that is not linked to them. |
| `Lld.LinkObject` | OS/c64-lng/devel_utils/lld.c:854-874 | Both passes over one file: header, buffer of the size read back plus two, code, and nothing behind it. |
| `Lld.Linker.AddCode` | OS/c64-lng/devel_utils/lld.c:415-473 | The two loops of the linker do what the decoding of the stream says. |
| `Lld.AssembleAndLink` | OS/c64-lng/devel_utils/lld.c:608-874 | luna reports no error exactly if it accepts each call; then linking gives exactly the bytes asked for, without a complaint, if and only if a byte or word was asked for and the code ends below 64k; each call's bytes stand behind those before it, a word with its low byte first, halves as remainder and quotient of the relocated number. |
| `Lld.CallsDelivered` | OS/c64-lng/devel_utils/lld.c:259-285 | The linked code holds for each call the number it comes to at the base address, or counted from an external. |
| `LinkedRun.JumpReachesLabel` | src/CentralProcessingUnit.cpp:491-495 | A JMP to a label, assembled, linked and run by the emulator, goes to the label plus the base address. |
| `LinkedRun.CallReachesLabel` | src/CentralProcessingUnit.cpp:496-503 | So does a JSR, with the address of its last byte on the stack. |
| `BranchCode.BranchMeansTheSame` | OS/c64-lng/devel_utils/luna.c:1404-1440 | For all branch opcodes, addresses and targets the code chosen, of two or five bytes, runs to the target exactly if the condition holds, else to the byte behind it, and changes nothing but the program counter. |
| `BranchCode.Emitter.WriteBranch` | OS/c64-lng/devel_utils/luna.c:1411-1440 | What is emitted in each case, with errors exactly when conversion is switched off and the target is out of reach. |
| `Cpu.PushRepresents` | src/CentralProcessingUnit.cpp:180-184 | Up to 256 bytes deep a push adds a byte on top of the sequence that the stack page holds, without touching the others. |
| `Cpu.PopWordRepresents` | src/CentralProcessingUnit.cpp:185-189 | Two pops take a pushed word off the sequence and give it back. |
| `Cpu.StepFollows` | src/CentralProcessingUnit.cpp:223-704 | Every step of a properly nested run, interrupts included, keeps S and the stack page in line with the open calls and interrupts; a return restores what its frame says. |
| `Cpu.RunReturns` | src/CentralProcessingUnit.cpp:223-704 | The same over a whole run, down to the first return to where it began. |
| `Cpu.CallReturns` | src/CentralProcessingUnit.cpp:496-511 | A JSR followed by any properly nested run that returns goes on behind the JSR with S as it was. |
| `Cpu.InterruptReturns` | src/CentralProcessingUnit.cpp:190-201 | An interrupt followed by a properly nested handler restores PC, S and P, with only bit 4 of P cleared. |
| `Cpu.ShortestCall` | src/CentralProcessingUnit.cpp:496-511 | Properly nested runs exist: a JSR to an RTS returns behind the JSR. |
| `Cpu.ShortestInterrupt` | src/CentralProcessingUnit.cpp:190-201 | So do handlers: an interrupt whose vector leads to an RTI restores PC, S and P. |
| `CpuInstructions.OperandAddress` | src/CentralProcessingUnit.cpp:73-179 | The effective address of each mode, from the bytes in memory; pointers in the zero page do not leave it. |
| `CpuInstructions.StepData` | src/CentralProcessingUnit.cpp:223-250 | A data instruction reads and stores at its effective address, and goes on behind its operand. |
| `CpuInstructions.StepJump` | src/CentralProcessingUnit.cpp:491-495 | A jump goes to its effective address and does nothing else. |
| `CpuInstructions.StepCall` | src/CentralProcessingUnit.cpp:496-503 | A JSR goes to its operand, low byte first, with the address of its own last byte on top of the stack. |
| `CpuInstructions.StepReturn` | src/CentralProcessingUnit.cpp:504-511 | An RTS goes behind the address on top of the stack. |
| `CpuInstructions.StepInterrupt` | src/CentralProcessingUnit.cpp:190-201 | An interrupt goes on at the address in the vector, with PC and P on the stack, I set and the line released. |
| `CpuInstructions.StepBreak` | src/CentralProcessingUnit.cpp:512-523 | BRK does the same with bit 4 set, and stops the processor. |
| `CpuInstructions.StepReturnFromInterrupt` | src/CentralProcessingUnit.cpp:524-531 | RTI takes P and PC from the stack. |
| `CpuInstructions.StepPush` | src/CentralProcessingUnit.cpp:675-691 | PHA pushes A, PHP pushes P with bit 4 set. |
| `CpuInstructions.StepPull` | src/CentralProcessingUnit.cpp:680-686 | PLA loads A from the stack with its N and Z flags, leaving the others alone. |
| `CpuInstructions.TimerFires` | src/CentralProcessingUnit.cpp:229-237 | The timer pulls the line at the step whose number is the interval, and not before. |
| `Cpu.Processor.TakeIrq` | src/CentralProcessingUnit.cpp:190-201 | PC and P are pushed, I is set, the vector is taken and the line released. |
| `Cpu.Processor.FetchOperand` | src/CentralProcessingUnit.cpp:135-179 | The operand of each addressing mode, and the program counter behind it. |
| `Cpu.Processor.Advance` | src/CentralProcessingUnit.cpp:223-704 | One call of step makes exactly the transition that the results on single instructions and on runs are about. |
| `Cpu.Processor.Steps` | src/CentralProcessingUnit.cpp:214-704 | Any number of calls, with interrupts asserted in between, make the run that those properties are about. |
| `Checksum.Ip4SumModulo` | OS/contiki/tools/tunslip.c:342-361 | ip4sum is the sum of the words modulo 65535, and zero only if everything is. |
| `Checksum.Ip4Sum` | OS/contiki/tools/tunslip.c:342-361 | The loop computes it on any part of a buffer, of odd or even length. |
| `Checksum.GoodIffMultiple` | OS/contiki/tools/tunslip.c:380-382 | A checksum test passes exactly if the words add up to a multiple of 65535. |
| `Checksum.WordSumWeighted` | OS/contiki/tools/tunslip.c:342-361 | The words summed are the bytes, those at even places counted 256 times, with a zero behind an odd last one. |
| `Checksum.TransportSummed` | OS/contiki/tools/tunslip.c:384-393 | The TCP or UDP checksum is good exactly if protocol, length, addresses and payload add up to a multiple of 65535. |
| `Checksum.CheckIp` | OS/contiki/tools/tunslip.c:363-412 | The code returned for each kind of packet, whatever its header length, as long as what is summed is inside the buffer. |
| `Checksum.AcceptedIff` | OS/contiki/tools/tunslip.c:363-412 | check_ip accepts exactly the packets of version 4 and the right length whose header, and payload with pseudo header where that counts, add up to multiples of 65535. |
| `Checksum.NeedsIdIff` | OS/contiki/tools/tunslip.c:642 | Which bytes the don't-fragment test looks at, on machines of either byte order. |
| `Checksum.DontFragmentMissed` | OS/contiki/tools/tunslip.c:642 | An ordinary packet with the don't-fragment bit that the test misses on a little-endian machine. |
| `Checksum.RewriteKeepsPacketValid` | OS/contiki/tools/tunslip.c:642-655 | On machines of either byte order, for accepted packets of any length, the rewrite of the identification keeps the packet acceptable exactly if the contributions of the two changed fields, which header and packet end may cut, change header and payload sum by multiples of 65535. |
| `Checksum.RewriteSafeIff` | OS/contiki/tools/tunslip.c:642-655 | So a packet of 12 bytes or more stays acceptable exactly if its header length is not eight bytes or the identification is a multiple of 65535, and any packet does with a header of 12 bytes or more. |
| `Checksum.ShortHeaderBreaks` | OS/contiki/tools/tunslip.c:642-655 | An accepted packet with a header of eight bytes that the rewrite makes unacceptable. |
| `Checksum.PrepareForSerial` | OS/contiki/tools/tunslip.c:626-655 | The code, the bytes sent and the next identification in every case; a packet passes exactly if it passes the first check and the rewrite keeps it acceptable. |
| `Checksum.PreparedIs` | OS/contiki/tools/tunslip.c:642-647 | An accepted packet that passes the test gets the identification, high byte first; every other stays as it is. |
| `Checksum.HeaderSummed` | OS/contiki/tools/tunslip.c:320 | The complement of the header sum makes the header good. |
| `Checksum.PayloadSummed` | OS/contiki/tools/tunslip.c:321-327 | The UDP checksum, with 65535 for zero, makes pseudo header and payload good. |
| `Checksum.FillChecksums` | OS/contiki/tools/tunslip.c:301-329 | A relayed packet passes check_ip, and only its four checksum bytes were changed. |
| `Slip.RoundTripExactly` | OS/contiki/tools/tunslip6.c:172-337 | A packet is delivered as it was sent if and only if it has between 1 and 1999 bytes, with or without XON/XOFF. |
| `Slip.DecodeEncoded` | OS/contiki/tools/tunslip6.c:187-192 | Of a longer packet, what follows its last 2000 byte block is delivered. |
| `Slip.ChunkingIsInvisible` | OS/contiki/tools/tunslip6.c:290-296 | Decoding may stop and go on anywhere, even between an ESC and the byte behind it. |
| `Slip.StuffAll` | OS/contiki/tools/tunslip6.c:445-475 | No END occurs inside an encoded packet, and with flow control no XON or XOFF. |
| `Slip.RoundTrip` | OS/contiki/tools/tunslip6.c:172-337 | Decoding the encodings of packets of any lengths gives, in order, what is left of each: the packet itself up to 1999 bytes, nothing for an empty one. |
| `Slip.DeliveredPrefix` | OS/contiki/tools/tunslip6.c:172-337 | Whatever part of the output has arrived, the packets found are a prefix of those that arrive in the end. |
| `Slip.Sender.WriteToSerial` | OS/contiki/tools/tunslip6.c:415-478 | The encoded packet joins the queue exactly if the buffer has room for it. |
| `Slip.Sender.SlipFlushbuf` | OS/contiki/tools/tunslip6.c:392-413 | However much the line takes, what was written and what is queued stay the same together. |
| `Slip.Receiver.SerialToTun` | OS/contiki/tools/tunslip6.c:171-337 | One call decodes all that has arrived, across calls, and passes on the data packets among those found. |
| `Slip.ReachesTun` | OS/contiki/tools/tunslip6.c:205-283 | Exactly those packets reach the TUN device that do not begin with !, ? or a carriage return and have a byte outside printable text behind the first. |
| `Slip.Link.Safe` | OS/contiki/tools/tunslip6.c:171-478 | In every reachable state of sender, line and receiver the packets found are a prefix of those accepted, empty ones left out, and all of them when the line is quiet. |
| `Slip.Run` | OS/contiki/tools/tunslip6.c:171-478 | The same for every sequence of sends, empty packets included, partial writes and arrivals. |

## Left out

- Files, pipes, `$(shell …)`, terminals, sockets, TUN devices and UART: streams are byte sequences, memory is plain RAM, answers of the operating system are parameters.
- Memory management of expressions. `expr_transform`, `expr_eliminate_yn`, `expr_eliminate_eq` and `expr_trans_bool` are modelled on values, so the reuse of tree nodes in place is not captured; the slots of `expr_eliminate_dups` are.
- `modules_val` is a fixed parameter of symbol evaluation.
- Ranges (`P_RANGE`), which the cycle check does not follow, and the flags that only drive the user interface.
- ExprDups.Rewriter.EliminateDups: requires `Separated` constants, because the constant rules of `expr_join_and` are not exact otherwise.
- ExprMenuDeps.IsSuperset: what a negative answer means is said for conjunctions without constants only.
- ExprOrder.ExprEqIff: for expressions without y and n as operands; see `ExprOrder.OrderMatters`.
- MenuTree.MenuFinalize: the test whether an element depends on a symbol is a parameter; `ExprMenuDeps.InSubmenu` models it.
- Symbol evaluation covers symbols outside choices; `Choice.dfy` takes the values of the symbols outside one choice as given. The mode of the choice itself, before its values are looked at, is a parameter.
- Choice.NotYIff: for values whose prompts and defaults all stand inside the choice; see `Choice.OutsideDefaultBreaksRule`.
- Preprocess.Preprocessor.EvalClause: seventeen parts are reported as too many arguments, as eighteen are in the source.
- `expand_one_token`, which is the same loop with another end, and `variable_add`. The built-in functions, the environment and `strtoul` are parameters of macro expansion.
- ConfigFile.UnescapeInPlace: a text that ends in a single backslash is reported as having no end.
- `auto.conf`, headers and the other printers; choice bookkeeping while reading.
- luna's expressions and labels; the model starts at `putbyte` and `putword` with the program counter at 0. The pass before the final one makes the same calls, and gives `pc_end`. The two `read_byte` calls of one C expression are taken from left to right.
- Linking several files and libraries, LUnix and LNG objects, and the resolution of names: the values of the externals are given.
- Lld.Linker.AddCode: an external number equal to the size of the list, which the guard of the source lets through, is reported as out of range.
- `opt65.c`, disassemblers and opcode tables.
- The effect of data instructions on registers and flags is a parameter of the processor model, as is the decoder table, except for the rows that branches and JMP need. Cycle counts, decimal mode and the page behaviour of the indirect JMP are not emulated by the source.
- Cpu.StepFollows: covers runs in which S is not loaded by TXS, at most 256 bytes are pushed, returns meet their own frames, and no data instruction writes to the used part of the stack.
- Checksum.CheckIp: for a buffer of at least 28 bytes in which header and payload end, as far as they are summed; otherwise the source reads beyond it.
- The replies of tunslip6 to `?P` and `!M` packets, and echoing at verbosity 2 and above, which clears the input buffer.
- The code of `tunslip.c` that parses DHCP options.
