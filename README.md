# Inline Method refactoring — a Dafny model

This project models the language-independent core of Roslyn's *Inline
Method* refactoring (`AbstractInlineMethodRefactoringProvider`). The
refactoring replaces a call to a private method whose body is a single
statement with that statement. The model covers:

- **the eligibility gate**, in `eligibility.dfy`. The code action is
  offered only when several conditions hold:
  - there is an invocation node;
  - the semantic model is available;
  - the best-matching symbol exists;
  - that symbol is a private ordinary method;
  - it has exactly one declaration;
  - the language hook reports that declaration as a single statement;
  - the syntax root is available.
- **the name generator** and its collision-avoidance loops, in
  `names.dfy`. `GenerateNewName` replaces a trailing run of digits by its
  value plus one, or appends `1` when the name has no such run. Each
  `while (… Contains(name))` loop is modelled by `Escape`: the first
  generated name that is not taken.
- **the local-symbol walker** `VariableDeclaratorOperationVisitor`, in
  `symbols.dfy`. It is a class whose set of collected locals grows as
  `Visit` recurses through the operation tree.
- **the rename table**, in `rename_table.dfy`. It is built in three
  ordered passes:
  1. Each parameter bound to a caller identifier takes that identifier.
  2. Each callee local keeps its name, or is renamed away from every name
     claimed so far.
  3. Each expression parameter, and then the param-array parameter, is
     renamed away from the names visible at the call and from every name
     claimed so far.
- **change application**, in `inline.dfy` and `syntax.dfy`, over an
  abstract syntax tree:
  - One editor rewrites a copy of the callee declaration. It applies all
    replace-variable changes, then all identifier-rename changes.
  - A second editor inserts every extracted declaration in front of the
    call's parent.
  - That editor then replaces the call with the rewritten single
    statement.

  A `SyntaxEditor` is a class over a fixed original root that records
  its edits in order. `GetChangedRoot` applies them one after another.

## Model

| member | source | states |
|---|---|---|
| NameGenerator.GenerateNewName | src/Features/Core/Portable/InlineMethod/AbstractInlineMethodRefactoringProvider.cs:197-215 | The backward scan pushes the maximal trailing digit run. The result is the text before that run followed by the run's value plus one, or by 1 when there is no run (`NewName`). |
| NameGenerator.TrailingDigitCountUnique | src/Features/Core/Portable/InlineMethod/AbstractInlineMethodRefactoringProvider.cs:200-211 | A digit run at the end of the name that has a non-digit, or nothing, in front of it is exactly the run the scan collects before it breaks. |
| NameGenerator.NewNameOfRun | src/Features/Core/Portable/InlineMethod/AbstractInlineMethodRefactoringProvider.cs:213-214 | Given where the trailing digit run starts, the generated name is the prefix before it plus the decimal text of the run's value plus one, or of 1 for an empty run. |
| NameGenerator.NewNameWithoutDigits | src/Features/Core/Portable/InlineMethod/AbstractInlineMethodRefactoringProvider.cs:213-214 | A name that does not end in a digit gets 1 appended. |
| NameGenerator.NewNameWithDigits | src/Features/Core/Portable/InlineMethod/AbstractInlineMethodRefactoringProvider.cs:213-214 | A prefix not ending in a digit, followed by a non-empty digit run, becomes that prefix followed by the run's value plus one. |
| NameGenerator.ParseNatToString | src/Features/Core/Portable/InlineMethod/AbstractInlineMethodRefactoringProvider.cs:213-214 | Parsing the decimal text of a number gives the number back, so appending the incremented suffix and reading it again agree. |
| NameGenerator.NewNameIsDifferent | src/Features/Core/Portable/InlineMethod/AbstractInlineMethodRefactoringProvider.cs:193-196 | Every generated name ends in a digit and differs from its input. |
| NameGenerator.NewNameAdvances | src/Features/Core/Portable/InlineMethod/AbstractInlineMethodRefactoringProvider.cs:193-196 | A generated name keeps the input's non-digit stem and has a numeric suffix one larger than the input's (an absent suffix counts as 0). |
| NameGenerator.ExampleWithoutDigits | src/Features/Core/Portable/InlineMethod/AbstractInlineMethodRefactoringProvider.cs:193-196 | "x" becomes "x1". |
| NameGenerator.ExampleCount1 | src/Features/Core/Portable/InlineMethod/AbstractInlineMethodRefactoringProvider.cs:193-196 | "count1" becomes "count2". |
| NameGenerator.ExampleA9 | src/Features/Core/Portable/InlineMethod/AbstractInlineMethodRefactoringProvider.cs:193-196 | "a9" becomes "a10". |
| NameGenerator.ExampleItem12 | src/Features/Core/Portable/InlineMethod/AbstractInlineMethodRefactoringProvider.cs:193-196 | "item12" becomes "item13". |
| NameGenerator.PendingShrinks | src/Features/Core/Portable/InlineMethod/AbstractInlineMethodRefactoringProvider.cs:154-157 | While the current name is taken, one more generation strictly shrinks the finite set of taken names the loop can still reach, so the collision loop terminates. |
| NameGenerator.Escape | src/Features/Core/Portable/InlineMethod/AbstractInlineMethodRefactoringProvider.cs:154-157 | The loop's result is not taken. A name that is not taken is kept unchanged. |
| NameGenerator.EscapeStepsBounded | src/Features/Core/Portable/InlineMethod/AbstractInlineMethodRefactoringProvider.cs:154-157 | The loop calls the generator at most as many times as there are taken names. |
| NameGenerator.EscapeIsIterate | src/Features/Core/Portable/InlineMethod/AbstractInlineMethodRefactoringProvider.cs:154-157 | The loop's result is the name after exactly that many generator calls. |
| NameGenerator.EscapeSkipsOnlyTaken | src/Features/Core/Portable/InlineMethod/AbstractInlineMethodRefactoringProvider.cs:154-157 | Every name the loop passed over was taken, so the result is the first free name in the generated sequence. |
| NameGenerator.AvoidTakenNames | src/Features/Core/Portable/InlineMethod/AbstractInlineMethodRefactoringProvider.cs:168-171 | The imperative collision loop returns a name that is not taken, and it is the first free generated name (`Escape`). |
| Symbols.VariableDeclaratorOperationVisitor.constructor | src/Features/Core/Portable/InlineMethod/AbstractInlineMethodRefactoringProvider.cs:297-301 | A new walker starts with an empty set of locals. |
| Symbols.VariableDeclaratorOperationVisitor.FindAllLocalSymbols | src/Features/Core/Portable/InlineMethod/AbstractInlineMethodRefactoringProvider.cs:303-311 | A missing operation leaves the set unchanged. Otherwise the declarators of the whole tree are added in walk order. The set is returned and stays duplicate-free. |
| Symbols.VariableDeclaratorOperationVisitor.Visit | src/Features/Core/Portable/InlineMethod/AbstractInlineMethodRefactoringProvider.cs:313-322 | A node adds its own declarator symbol, if it is a declarator, and then those of its children in order. |
| Symbols.AddAllContents | src/Features/Core/Portable/InlineMethod/AbstractInlineMethodRefactoringProvider.cs:318 | Adding to a hash set keeps it duplicate-free and keeps what it held. Its members are exactly the old members plus the added symbols. |
| Symbols.LocalSymbolsOfContents | src/Features/Core/Portable/InlineMethod/AbstractInlineMethodRefactoringProvider.cs:303-322 | The walk of a missing operation yields nothing. Otherwise it yields every declared local exactly once and nothing else. |
| RenameTable.SeedRenameParameters | src/Features/Core/Portable/InlineMethod/AbstractInlineMethodRefactoringProvider.cs:140-144 | The table's keys are exactly the renamed parameters. Each parameter maps to the argument name of its last binding (dictionary overwrite). |
| RenameTable.ClaimNamesAt | src/Features/Core/Portable/InlineMethod/AbstractInlineMethodRefactoringProvider.cs:151-161 | The i-th local's name is its own name escaped from the initial names and every name picked before it. A local whose name is free keeps it. |
| RenameTable.ClaimNamesFresh | src/Features/Core/Portable/InlineMethod/AbstractInlineMethodRefactoringProvider.cs:151-161 | The names picked for the locals are pairwise distinct, and none is an argument name. |
| RenameTable.LocalNamesFresh | src/Features/Core/Portable/InlineMethod/AbstractInlineMethodRefactoringProvider.cs:151-161 | Distinct locals get distinct names, all outside the initial names and all claimed. |
| RenameTable.ClaimLocalNames | src/Features/Core/Portable/InlineMethod/AbstractInlineMethodRefactoringProvider.cs:151-161 | Pass 2 adds exactly the locals as keys. Non-local entries are unchanged. The locals' names are the claimed names picked in order, and the claimed set grows by exactly those names. |
| RenameTable.ClaimCalleeLocalNames | src/Features/Core/Portable/InlineMethod/AbstractInlineMethodRefactoringProvider.cs:147-161 | Pass 2 over the walker's result for the callee operation, seeded with the argument names. |
| RenameTable.ClaimParameterName | src/Features/Core/Portable/InlineMethod/AbstractInlineMethodRefactoringProvider.cs:165-175 | One parameter maps to its name escaped from the caller-visible names and the claimed names. The name is then claimed. |
| RenameTable.ClaimParameterNames | src/Features/Core/Portable/InlineMethod/AbstractInlineMethodRefactoringProvider.cs:165-175 | The expression parameters are added as keys and other entries are kept. The claimed set grows by exactly the names picked in order, each escaped from the caller-visible names, the earlier claims and the names picked before it. A parameter listed twice ends with the name of its last occurrence. The names are pairwise distinct, newly claimed and clear of the caller-visible names. |
| RenameTable.ClaimMovedParameterNames | src/Features/Core/Portable/InlineMethod/AbstractInlineMethodRefactoringProvider.cs:163-188 | The same holds for the expression parameters followed by the param-array parameter, when there is one: it is named last, by the same escape. Locals and untouched parameters keep their entries. |
| RenameTable.ParameterNamesFresh | src/Features/Core/Portable/InlineMethod/AbstractInlineMethodRefactoringProvider.cs:165-188 | Names picked in order for a run of parameters are pairwise distinct, newly claimed and clear of the caller-visible names. |
| RenameTable.CallerNames | src/Features/Core/Portable/InlineMethod/AbstractInlineMethodRefactoringProvider.cs:135-138 | The caller-visible names are exactly the names of the visible symbols that are not inaccessible locals. |
| RenameTable.CalleeLocalKeepsCallerName | src/Features/Core/Portable/InlineMethod/AbstractInlineMethodRefactoringProvider.cs:154-157 | A callee local `t` keeps the name `t` although a symbol named `t` is visible at the call site: pass 2 never consults the caller-visible names. |
| RenameTable.FreshNamesExtend | src/Features/Core/Portable/InlineMethod/AbstractInlineMethodRefactoringProvider.cs:159-160 | Because every pass claims its names, names given by a later pass never clash with names given by an earlier one. |
| RenameTable.ComputeRenameTable | src/Features/Core/Portable/InlineMethod/AbstractInlineMethodRefactoringProvider.cs:123-191 | The keys are exactly: renamed parameters, callee locals, expression parameters and the param-array parameter. Each parameter that no later pass renames keeps the argument name of its last binding. The locals' names are the in-order claimed names. The expression parameters and then the param-array parameter get the names picked in order, escaped from the caller-visible names, the argument names and the locals' names. They avoid every caller-visible name. All generated names are pairwise distinct and differ from every argument name. |
| Eligibility.TryGetBestMatchSymbol | src/Features/Core/Portable/InlineMethod/AbstractInlineMethodRefactoringProvider.cs:104-121 | The bound symbol if there is one, else the first candidate. The result is null exactly when there is neither. |
| Eligibility.BestMatchIsReported | src/Features/Core/Portable/InlineMethod/AbstractInlineMethodRefactoringProvider.cs:109-120 | A chosen symbol is always one the semantic model reported. |
| Eligibility.ComputeRefactoring | src/Features/Core/Portable/InlineMethod/AbstractInlineMethodRefactoringProvider.cs:43-102 | An action is registered if and only if every gate condition holds. It captures the invocation, the chosen symbol, its single declaration and the root. |
| Eligibility.BoundSymbolDecides | src/Features/Core/Portable/InlineMethod/AbstractInlineMethodRefactoringProvider.cs:58-64 | A bound symbol that is not private blocks the action, even when an eligible candidate exists. |
| InlineMethod.OfType | src/Features/Core/Portable/InlineMethod/AbstractInlineMethodRefactoringProvider.cs:233 | Filtering changes by kind keeps exactly the changes of that kind, in order. |
| InlineMethod.OfTypeConcat | src/Features/Core/Portable/InlineMethod/AbstractInlineMethodRefactoringProvider.cs:233 | Filtering a concatenation is filtering each part and concatenating, so order and repetitions are kept. |
| InlineMethod.OfTypeSingle | src/Features/Core/Portable/InlineMethod/AbstractInlineMethodRefactoringProvider.cs:233 | A single change is kept exactly when it has the kind. |
| InlineMethod.ReplaceAllSyntaxNodesForSymbol | src/Features/Core/Portable/InlineMethod/AbstractInlineMethodRefactoringProvider.cs:267-290 | The editor's log grows by one replacement per reference inside its original root, in reference order, each carrying that reference's trivia. |
| InlineMethod.SymbolEditsContents | src/Features/Core/Portable/InlineMethod/AbstractInlineMethodRefactoringProvider.cs:280-288 | Every recorded edit replaces a reference inside the original root with the replacement carrying that reference's trivia. Every such reference gets its edit. References outside the root get none. |
| InlineMethod.ReplaceAllChanges | src/Features/Core/Portable/InlineMethod/AbstractInlineMethodRefactoringProvider.cs:233-242 | A run of changes extends the log with each change's edits, in the order of the changes. |
| InlineMethod.ChangeEditsContents | src/Features/Core/Portable/InlineMethod/AbstractInlineMethodRefactoringProvider.cs:233-253 | Every edit of a run of changes replaces some change's reference, found inside the root, with that change's replacement node. Each such reference is covered. |
| InlineMethod.RewriteCallee | src/Features/Core/Portable/InlineMethod/AbstractInlineMethodRefactoringProvider.cs:226-255 | The inline statement is taken from the callee declaration with all replace edits applied, then all rename edits. |
| InlineMethod.RenamesFollowReplacements | src/Features/Core/Portable/InlineMethod/AbstractInlineMethodRefactoringProvider.cs:233-253 | The rename changes act on the tree the replace changes produced. |
| InlineMethod.InsertEdits | src/Features/Core/Portable/InlineMethod/AbstractInlineMethodRefactoringProvider.cs:258-261 | One insertion in front of the call's parent per extracted declaration, in order. |
| InlineMethod.EditDocument | src/Features/Core/Portable/InlineMethod/AbstractInlineMethodRefactoringProvider.cs:257-264 | The document is the root with the insertions applied first and the replacement of the call last. |
| InlineMethod.InlineMethodInDocument | src/Features/Core/Portable/InlineMethod/AbstractInlineMethodRefactoringProvider.cs:217-265 | The whole inlining produces `InlinedDocument`: the rewritten callee statement replaces the call after the declarations are inserted. |
| InlineMethod.InsertsPlaceDeclarations | src/Features/Core/Portable/InlineMethod/AbstractInlineMethodRefactoringProvider.cs:258-261 | After the insertions, the anchor is still inside the document and every extracted declaration is in it. |
| InlineMethod.InlinedDocumentContents | src/Features/Core/Portable/InlineMethod/AbstractInlineMethodRefactoringProvider.cs:257-264 | The final document holds the inline statement and every extracted declaration. |
| InlineMethod.InsertsDeclarationsInOrder | src/Features/Core/Portable/InlineMethod/AbstractInlineMethodRefactoringProvider.cs:258-261 | The extracted declarations sit in change order directly in front of the call's parent, among the siblings of that parent. |
| InlineMethod.InlinedDocumentPlacement | src/Features/Core/Portable/InlineMethod/AbstractInlineMethodRefactoringProvider.cs:257-264 | The call's grandparent ends up with its earlier children, then the declarations in change order, then the call's parent with the inline statement at the call's position, then its later children. |
| Syntax.SyntaxEditor.constructor | src/Features/Core/Portable/InlineMethod/AbstractInlineMethodRefactoringProvider.cs:229-231 | A new editor is over the given root and holds no edits. |
| Syntax.SyntaxEditor.ReplaceNode | src/Features/Core/Portable/InlineMethod/AbstractInlineMethodRefactoringProvider.cs:287 | Records exactly one replacement, at the end of the log. |
| Syntax.SyntaxEditor.InsertBefore | src/Features/Core/Portable/InlineMethod/AbstractInlineMethodRefactoringProvider.cs:260 | Records exactly one insertion, at the end of the log. |
| Syntax.SyntaxEditor.GetChangedRoot | src/Features/Core/Portable/InlineMethod/AbstractInlineMethodRefactoringProvider.cs:255 | With no edits the original root is returned. Otherwise the edits take effect in recording order: applying any prefix of the log and then the rest gives the same tree. |
| Syntax.ApplyConcat | src/Features/Core/Portable/InlineMethod/AbstractInlineMethodRefactoringProvider.cs:255 | Applying a log is applying its first part and then its second, so edits take effect in recording order. |
| Syntax.ReplaceInPlaces | src/Features/Core/Portable/InlineMethod/AbstractInlineMethodRefactoringProvider.cs:263 | Where the replaced node occurs, the replacement is in the result. |
| Syntax.ReplaceInKeeps | src/Features/Core/Portable/InlineMethod/AbstractInlineMethodRefactoringProvider.cs:263 | A subtree unrelated to the replaced node survives the replacement. |
| Syntax.InsertInPlaces | src/Features/Core/Portable/InlineMethod/AbstractInlineMethodRefactoringProvider.cs:260 | When the anchor has a parent in the tree, the inserted statement is in the result. |
| Syntax.InsertInKeeps | src/Features/Core/Portable/InlineMethod/AbstractInlineMethodRefactoringProvider.cs:260 | A subtree that does not hold the anchor survives the insertion. |
| Syntax.InsertInBeforeAnchor | src/Features/Core/Portable/InlineMethod/AbstractInlineMethodRefactoringProvider.cs:260 | The anchor's parent ends up with the statement directly in front of the anchor, and that rebuilt parent is in the result. |
| Syntax.InsertInAtChild | src/Features/Core/Portable/InlineMethod/AbstractInlineMethodRefactoringProvider.cs:260 | When the anchor is a node's k-th child and no other child holds it, the statement becomes that node's k-th child and the anchor moves one place right. |
| Syntax.ReplaceInRebuilds | src/Features/Core/Portable/InlineMethod/AbstractInlineMethodRefactoringProvider.cs:263 | A subtree that does not lie inside the replaced node is rebuilt in place: its own rewritten form is in the result. |

## Left out

- Asynchrony, `ConfigureAwait`, `Task.WhenAll` and cancellation tokens (`ThrowIfCancellationRequested`) are not modelled; every operation runs to completion.
- The language-specific hooks are parameters of the model. These are `GetInvocationExpressionSyntaxNodeAsync` (an optional invocation node), `IsMethodContainsOneStatement` and `GetInlineStatement` (functions on nodes), and `ComputeInlineChanges` (the given list of changes).
- The semantic model is also given as parameters:
  - `GetSymbolInfo` is a function from nodes to symbol information.
  - `GetOperation` is the callee's optional operation tree.
  - `LookupSymbols` and `IsInaccessibleLocal` are a list of visible symbols and a set of inaccessible locals.
- `SymbolFinder.FindReferencesAsync` followed by `root.FindNode` is given as a function from a symbol to its reference nodes, in order.
- `DocumentEditor` and `SyntaxEditor` are library code. They are modelled as an edit log applied in order by structural search of the current tree. Tracking of nodes across earlier edits is not modelled.
- Nodes are values: a node carries an id, but two subtrees that are equal in id, text, trivia and children are the same node for `Contains`, `ReplaceNode` and `InsertBefore`. Object identity of syntax nodes is not modelled.
- Trivia is one leading and one trailing string per node; trivia lists and their kinds are not modelled.
- The code-action title (`string.Format` of `FeaturesResources.Inline_0`) and `RegisterRefactoring` are not modelled. The gate returns the captured action arguments instead.
- The null test on the declaration array (line 71) has no counterpart: `Task.WhenAll` never yields null, so only the length test is modelled.
- `IsOrdinaryMethod` is modelled as "the symbol is a method whose kind is ordinary". The `is IMethodSymbol` test after it is modelled but can never fail.
- The order of `HashSet` enumeration in the walker is taken to be insertion order, so the locals are renamed in walk order.
- The insertion anchor is the invocation's `Parent` (line 260), as the code does.
- NameGenerator.GenerateNewName: only `'0'`..`'9'` count as digits. `char.IsNumber` also accepts other Unicode numeric characters, on which `int.Parse` would throw.
- NameGenerator.GenerateNewName: the suffix value is unbounded, so a run whose value is 2147483647 or more behaves differently in the code. For a larger value `int.Parse` throws `OverflowException`. For exactly 2147483647 the `+ 1` on line 213 overflows 32-bit `int`, which wraps to -2147483648 in C#'s default unchecked arithmetic. Neither case is modelled.
- NameGenerator.PendingShrinks: termination is shown by a shrinking finite measure. No separate lemma states that the generated sequence never repeats a name.
- RenameTable.ComputeRenameTable: the pass-1 name is stated only for the last binding of a parameter that no later pass renames, because later writes to the dictionary overwrite it.
- RenameTable.ComputeRenameTable: callee locals are not kept clear of the caller-visible names. Pass 2 (lines 154-157) tests a local's name only against the argument names and the names claimed before it, so a callee local may share its name with a caller local (see `RenameTable.CalleeLocalKeepsCallerName`). The model follows the code.
- `src/Features/LanguageServer/Protocol/Handler/Hover/HoverHandler.cs` and `src/Workspaces/Core/Portable/SolutionCrawler/ExportIncrementalAnalyzerProviderAttribute.cs` are not part of this model. They hold no part of the refactoring.
