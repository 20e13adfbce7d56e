/** The conflict-free rename table: every symbol the inlining touches is
    mapped to the name it will have in the caller. */
module RenameTable {
  import opened Symbols
  import opened NameGenerator

  /** The names visible at the end of the invocation's span, leaving out
      locals that are inaccessible from there. */
  function CallerNames(visibleSymbols: seq<Symbol>, inaccessibleLocals: set<Symbol>): (names: set<string>)
    ensures forall s :: s in visibleSymbols && s !in inaccessibleLocals ==> s.Name() in names
    ensures forall n :: n in names ==> exists s :: s in visibleSymbols && s !in inaccessibleLocals && s.Name() == n
  {
    set s | s in visibleSymbols && s !in inaccessibleLocals :: s.Name()
  }

  /** The caller identifiers that parameters are renamed to. */
  function ArgumentNames(renameParameters: seq<(ParameterSymbol, string)>): set<string> {
    set b | b in renameParameters :: b.1
  }

  function RenameParameterKeys(renameParameters: seq<(ParameterSymbol, string)>): set<Symbol> {
    set b | b in renameParameters :: Parameter(b.0)
  }

  function LocalKeys(locals: seq<LocalSymbol>): set<Symbol> {
    set l | l in locals :: Local(l)
  }

  function ParameterKeys(parameters: seq<ParameterSymbol>): set<Symbol> {
    set p | p in parameters :: Parameter(p)
  }

  /** The keys whose names the builder generates: callee locals, expression
      parameters and the param-array parameter. */
  function GeneratedKeys(
    locals: seq<LocalSymbol>,
    expressionParameters: seq<ParameterSymbol>,
    paramArrayParameter: Option<ParameterSymbol>): set<Symbol>
  {
    LocalKeys(locals) + ParameterKeys(MovedParameters(expressionParameters, paramArrayParameter))
  }

  /** No later binding of the same parameter follows position `i`. */
  predicate LastBinding(renameParameters: seq<(ParameterSymbol, string)>, i: nat)
    requires i < |renameParameters|
  {
    forall j :: i < j < |renameParameters| ==> renameParameters[j].0 != renameParameters[i].0
  }

  /** No later occurrence of the same parameter follows position `i`. */
  predicate LastOccurrence(parameters: seq<ParameterSymbol>, i: nat)
    requires i < |parameters|
  {
    forall j :: i < j < |parameters| ==> parameters[j] != parameters[i]
  }

  /** The parameters pass 3 renames, in the order it renames them: the
      expression parameters, then the param-array parameter. */
  function MovedParameters(
    expressionParameters: seq<ParameterSymbol>, paramArrayParameter: Option<ParameterSymbol>): seq<ParameterSymbol>
  {
    expressionParameters + (if paramArrayParameter.Some? then [paramArrayParameter.value] else [])
  }

  /** The names the table gives the locals, in walk order. */
  function LocalNames(table: map<Symbol, string>, locals: seq<LocalSymbol>): (names: seq<string>)
    requires forall l :: l in locals ==> Local(l) in table
    ensures |names| == |locals|
  {
    seq(|locals|, j requires 0 <= j < |locals| => table[Local(locals[j])])
  }

  function Elements(s: seq<string>): set<string> {
    set x | x in s
  }

  /** Distinct keys of `keys` have distinct names. */
  predicate NamesDistinct(table: map<Symbol, string>, keys: set<Symbol>)
    requires keys <= table.Keys
  {
    forall k1, k2 :: k1 in keys && k2 in keys && k1 != k2 ==> table[k1] != table[k2]
  }

  /** The names given to `keys` are pairwise distinct, all claimed, and
      none of them is in `base`. */
  predicate FreshNames(table: map<Symbol, string>, keys: set<Symbol>, base: set<string>, claimed: set<string>) {
    && DistinctNamesClearOf(table, keys, base)
    && (forall k :: k in keys ==> table[k] in claimed)
  }

  /** The names given to `keys` are pairwise distinct and none of them is
      in `base`. */
  predicate DistinctNamesClearOf(table: map<Symbol, string>, keys: set<Symbol>, base: set<string>) {
    && keys <= table.Keys
    && (forall k :: k in keys ==> table[k] !in base)
    && NamesDistinct(table, keys)
  }

  /** A later pass that names `added` with names outside everything claimed
      before it keeps the names of all earlier keys distinct from the new
      ones. */
  lemma FreshNamesExtend(
    table0: map<Symbol, string>, table1: map<Symbol, string>, keys: set<Symbol>, added: set<Symbol>,
    base: set<string>, claimed0: set<string>, claimed1: set<string>)
    requires FreshNames(table0, keys, base, claimed0)
    requires FreshNames(table1, added, claimed0, claimed1)
    requires base <= claimed0 <= claimed1
    requires forall k :: k in keys && k !in added ==> k in table1 && table1[k] == table0[k]
    ensures FreshNames(table1, keys + added, base, claimed1)
  {
    forall k1, k2 | k1 in keys + added && k2 in keys + added && k1 != k2
      ensures table1[k1] != table1[k2]
    {
      if k1 in added && k2 !in added {
        assert table1[k2] in claimed0;
      } else if k1 !in added && k2 in added {
        assert table1[k1] in claimed0;
      }
    }
  }

  /** The declared names of the parameters, in order. */
  function ParameterNames(parameters: seq<ParameterSymbol>): (names: seq<string>)
    ensures |names| == |parameters|
  {
    seq(|parameters|, j requires 0 <= j < |parameters| => parameters[j].name)
  }

  /** The names of the symbols, in order. */
  function NamesOf(locals: seq<LocalSymbol>): (names: seq<string>)
    ensures |names| == |locals|
  {
    seq(|locals|, j requires 0 <= j < |locals| => locals[j].name)
  }

  /** The names a run of collision-avoidance loops picks for `names`, one
      after another: each is the first generated name clear of `claimed0`
      and of every name picked before it. */
  function ClaimNames(claimed0: set<string>, names: seq<string>): (picked: seq<string>)
    ensures |picked| == |names|
  {
    if names == [] then
      []
    else
      var previous := ClaimNames(claimed0, names[..|names| - 1]);
      previous + [Escape(names[|names| - 1], claimed0 + Elements(previous))]
  }

  lemma {:induction false} ClaimNamesPrefix(claimed0: set<string>, names: seq<string>, i: nat)
    requires i <= |names|
    ensures ClaimNames(claimed0, names)[..i] == ClaimNames(claimed0, names[..i])
    decreases |names|
  {
    if i < |names| {
      ClaimNamesPrefix(claimed0, names[..|names| - 1], i);
      assert names[..|names| - 1][..i] == names[..i];
    } else {
      assert names[..i] == names;
    }
  }

  /** Each picked name is the first generated one clear of the initial
      claims and of the names picked before it; in particular a name that
      collides with nothing is kept. */
  lemma ClaimNamesAt(claimed0: set<string>, names: seq<string>, i: nat)
    requires i < |names|
    ensures var picked := ClaimNames(claimed0, names);
      picked[i] == Escape(names[i], claimed0 + Elements(picked[..i]))
    ensures var picked := ClaimNames(claimed0, names);
      names[i] !in claimed0 && names[i] !in picked[..i] ==> picked[i] == names[i]
  {
    ClaimNamesPrefix(claimed0, names, i + 1);
    ClaimNamesPrefix(claimed0, names, i);
    var prefix := names[..i + 1];
    assert prefix[..|prefix| - 1] == names[..i];
    var picked := ClaimNames(claimed0, names);
    assert picked[..i + 1][i] == picked[i];
    assert picked[..i + 1][..i] == picked[..i];
  }

  /** The picked names are pairwise distinct and clear of the initial
      claims. */
  lemma {:induction false} ClaimNamesFresh(claimed0: set<string>, names: seq<string>)
    ensures Distinct(ClaimNames(claimed0, names))
    ensures forall n :: n in ClaimNames(claimed0, names) ==> n !in claimed0
  {
    if names != [] {
      var previous := ClaimNames(claimed0, names[..|names| - 1]);
      ClaimNamesFresh(claimed0, names[..|names| - 1]);
      var last := Escape(names[|names| - 1], claimed0 + Elements(previous));
      assert ClaimNames(claimed0, names) == previous + [last];
      assert last !in previous;
    }
  }

  /** One more name claimed: the picks for a longer prefix extend those for
      the shorter one by the escape of the next name. */
  lemma ClaimNamesStep(claimed0: set<string>, names: seq<string>, i: nat)
    requires i < |names|
    ensures ClaimNames(claimed0, names[..i + 1])
         == ClaimNames(claimed0, names[..i])
          + [Escape(names[i], claimed0 + Elements(ClaimNames(claimed0, names[..i])))]
  {
    var prefix := names[..i + 1];
    assert prefix[..|prefix| - 1] == names[..i];
  }

  lemma ElementsSnoc(s: seq<string>, x: string)
    ensures Elements(s + [x]) == Elements(s) + {x}
  {
  }

  /** The names the locals were given are distinct, claimed, and clear of
      the names claimed before them. */
  lemma LocalNamesFresh(table: map<Symbol, string>, locals: seq<LocalSymbol>, claimed0: set<string>)
    requires Distinct(locals)
    requires forall l :: l in locals ==> Local(l) in table
    requires LocalNames(table, locals) == ClaimNames(claimed0, NamesOf(locals))
    ensures FreshNames(table, LocalKeys(locals), claimed0, claimed0 + Elements(LocalNames(table, locals)))
  {
    var names := LocalNames(table, locals);
    ClaimNamesFresh(claimed0, NamesOf(locals));
    forall k | k in LocalKeys(locals)
      ensures table[k] in names && table[k] !in claimed0
    {
      var j :| 0 <= j < |locals| && locals[j] == k.local;
      assert table[k] == names[j];
    }
    forall k1, k2 | k1 in LocalKeys(locals) && k2 in LocalKeys(locals) && k1 != k2
      ensures table[k1] != table[k2]
    {
      var i :| 0 <= i < |locals| && locals[i] == k1.local;
      var j :| 0 <= j < |locals| && locals[j] == k2.local;
      assert table[k1] == names[i] && table[k2] == names[j];
    }
  }

  /** Pass 1: each parameter bound to a caller identifier is mapped to that
      identifier; a later binding of the same parameter overwrites an
      earlier one. */
  method SeedRenameParameters(renameParameters: seq<(ParameterSymbol, string)>)
    returns (renameTable: map<Symbol, string>)
    ensures renameTable.Keys == RenameParameterKeys(renameParameters)
    ensures forall i :: (0 <= i < |renameParameters| && LastBinding(renameParameters, i)
                         ==> renameTable[Parameter(renameParameters[i].0)] == renameParameters[i].1)
  {
    renameTable := map[];
    for i := 0 to |renameParameters|
      invariant renameTable.Keys == RenameParameterKeys(renameParameters[..i])
      invariant forall a :: (0 <= a < i && (forall b :: a < b < i ==> renameParameters[b].0 != renameParameters[a].0)
                             ==> renameTable[Parameter(renameParameters[a].0)] == renameParameters[a].1)
    {
      assert renameParameters[..i + 1] == renameParameters[..i] + [renameParameters[i]];
      renameTable := renameTable[Parameter(renameParameters[i].0) := renameParameters[i].1];
    }
    assert renameParameters[..|renameParameters|] == renameParameters;
  }

  /** Pass 2: each callee local, in walk order, keeps its name unless that
      name is already claimed, in which case the generator is applied until
      the name is free; the chosen name is claimed. */
  method ClaimLocalNames(table0: map<Symbol, string>, locals: seq<LocalSymbol>, claimed0: set<string>)
    returns (renameTable: map<Symbol, string>, claimed: set<string>)
    requires Distinct(locals)
    ensures renameTable.Keys == table0.Keys + LocalKeys(locals)
    ensures forall k :: k in table0 && !k.Local? ==> renameTable[k] == table0[k]
    ensures LocalNames(renameTable, locals) == ClaimNames(claimed0, NamesOf(locals))
    ensures claimed == claimed0 + Elements(LocalNames(renameTable, locals))
  {
    renameTable, claimed := table0, claimed0;
    ghost var chosen: seq<string> := [];
    for i := 0 to |locals|
      invariant forall k :: k in table0 ==> k in renameTable
      invariant forall k :: k in renameTable ==> k in table0 || (k.Local? && k.local in locals)
      invariant forall k :: k in table0 && !k.Local? ==> renameTable[k] == table0[k]
      invariant chosen == ClaimNames(claimed0, NamesOf(locals)[..i])
      invariant forall j :: 0 <= j < i ==> Local(locals[j]) in renameTable && renameTable[Local(locals[j])] == chosen[j]
      invariant claimed == claimed0 + Elements(chosen)
    {
      var localSymbolName := AvoidTakenNames(locals[i].name, claimed);
      NamedLocalsStep(renameTable, locals, i, chosen, localSymbolName);
      renameTable := renameTable[Local(locals[i]) := localSymbolName];
      claimed := claimed + {localSymbolName};
      ClaimNamesStep(claimed0, NamesOf(locals), i);
      ElementsSnoc(chosen, localSymbolName);
      chosen := chosen + [localSymbolName];
    }
    assert NamesOf(locals)[..|locals|] == NamesOf(locals);
    NamedLocalsAll(table0, renameTable, locals, chosen);
  }

  /** Once every local is named, the table holds exactly the old keys and
      the locals, and the locals' names are the chosen ones. */
  lemma NamedLocalsAll(table0: map<Symbol, string>, table: map<Symbol, string>, locals: seq<LocalSymbol>, chosen: seq<string>)
    requires |chosen| == |locals|
    requires forall k :: k in table0 ==> k in table
    requires forall k :: k in table ==> k in table0 || (k.Local? && k.local in locals)
    requires forall j :: 0 <= j < |locals| ==> Local(locals[j]) in table && table[Local(locals[j])] == chosen[j]
    ensures table.Keys == table0.Keys + LocalKeys(locals)
    ensures LocalNames(table, locals) == chosen
  {
    forall k | k in LocalKeys(locals) ensures k in table {
      var j :| 0 <= j < |locals| && k == Local(locals[j]);
    }
  }

  /** Naming the next local leaves the earlier locals' names in place. */
  lemma NamedLocalsStep(
    table: map<Symbol, string>, locals: seq<LocalSymbol>, i: nat, chosen: seq<string>, name: string)
    requires Distinct(locals) && i < |locals| && |chosen| == i
    requires forall j :: 0 <= j < i ==> Local(locals[j]) in table && table[Local(locals[j])] == chosen[j]
    ensures forall j :: (0 <= j < i + 1 ==>
      Local(locals[j]) in table[Local(locals[i]) := name]
      && table[Local(locals[i]) := name][Local(locals[j])] == (chosen + [name])[j])
  {
    forall j | 0 <= j < i + 1
      ensures table[Local(locals[i]) := name][Local(locals[j])] == (chosen + [name])[j]
    {
      if j < i {
        assert locals[j] != locals[i];
      }
    }
  }

  lemma ParameterKeysSnoc(parameters: seq<ParameterSymbol>, i: nat)
    requires i < |parameters|
    ensures ParameterKeys(parameters[..i + 1]) == ParameterKeys(parameters[..i]) + {Parameter(parameters[i])}
  {
    assert parameters[..i + 1] == parameters[..i] + [parameters[i]];
  }

  /** Pass 2 as a whole: collects the callee's locals with the operation
      walker and names each of them. */
  method ClaimCalleeLocalNames(table0: map<Symbol, string>, calleeOperation: Option<Operation>, claimed0: set<string>)
    returns (renameTable: map<Symbol, string>, claimed: set<string>, localSymbolsOfCallee: seq<LocalSymbol>)
    ensures localSymbolsOfCallee == LocalSymbolsOf(calleeOperation)
    ensures renameTable.Keys == table0.Keys + LocalKeys(localSymbolsOfCallee)
    ensures forall k :: k in table0 && !k.Local? ==> renameTable[k] == table0[k]
    ensures LocalNames(renameTable, localSymbolsOfCallee) == ClaimNames(claimed0, NamesOf(localSymbolsOfCallee))
    ensures claimed == claimed0 + Elements(LocalNames(renameTable, localSymbolsOfCallee))
    ensures FreshNames(renameTable, LocalKeys(localSymbolsOfCallee), claimed0, claimed)
  {
    var operationVisitor := new VariableDeclaratorOperationVisitor();
    localSymbolsOfCallee := operationVisitor.FindAllLocalSymbols(calleeOperation);
    LocalSymbolsOfContents(calleeOperation);
    renameTable, claimed := ClaimLocalNames(table0, localSymbolsOfCallee, claimed0);
    LocalNamesFresh(renameTable, localSymbolsOfCallee, claimed0);
  }

  /** Names that no later pass touches stay as they were. */
  lemma LocalNamesFrame(table0: map<Symbol, string>, table1: map<Symbol, string>, locals: seq<LocalSymbol>)
    requires forall l :: l in locals ==> Local(l) in table0 && Local(l) in table1 && table1[Local(l)] == table0[Local(l)]
    ensures LocalNames(table1, locals) == LocalNames(table0, locals)
  {
  }

  /** Renames one parameter away from the caller-visible names and the
      claimed names, and claims the result. */
  method ClaimParameterName(
    table0: map<Symbol, string>, parameter: ParameterSymbol, callerNames: set<string>, claimed0: set<string>)
    returns (renameTable: map<Symbol, string>, claimed: set<string>)
    ensures renameTable == table0[Parameter(parameter) := Escape(parameter.name, callerNames + claimed0)]
    ensures renameTable[Parameter(parameter)] !in callerNames && renameTable[Parameter(parameter)] !in claimed0
    ensures claimed == claimed0 + {renameTable[Parameter(parameter)]}
    ensures FreshNames(renameTable, {Parameter(parameter)}, claimed0, claimed)
  {
    var parameterName := AvoidTakenNames(parameter.name, callerNames + claimed0);
    renameTable := table0[Parameter(parameter) := parameterName];
    claimed := claimed0 + {parameterName};
  }

  /** Pass 3, part I: every expression parameter, in order. */
  method ClaimParameterNames(
    table0: map<Symbol, string>, parameters: seq<ParameterSymbol>, callerNames: set<string>, claimed0: set<string>)
    returns (renameTable: map<Symbol, string>, claimed: set<string>)
    ensures renameTable.Keys == table0.Keys + ParameterKeys(parameters)
    ensures forall k :: k in table0 && k !in ParameterKeys(parameters) ==> renameTable[k] == table0[k]
    ensures claimed == claimed0 + Elements(ClaimNames(callerNames + claimed0, ParameterNames(parameters)))
    ensures NamedParameters(renameTable, parameters, ClaimNames(callerNames + claimed0, ParameterNames(parameters)))
    ensures FreshNames(renameTable, ParameterKeys(parameters), claimed0, claimed)
    ensures forall k :: k in ParameterKeys(parameters) ==> renameTable[k] !in callerNames
  {
    renameTable, claimed := table0, claimed0;
    ghost var chosen: seq<string> := [];
    for i := 0 to |parameters|
      invariant renameTable.Keys == table0.Keys + ParameterKeys(parameters[..i])
      invariant forall k :: k in table0 && k !in ParameterKeys(parameters[..i]) ==> renameTable[k] == table0[k]
      invariant chosen == ClaimNames(callerNames + claimed0, ParameterNames(parameters)[..i])
      invariant claimed == claimed0 + Elements(chosen)
      invariant NamedParameters(renameTable, parameters[..i], chosen)
    {
      var parameterName := AvoidTakenNames(parameters[i].name, callerNames + claimed);
      ParameterLoopStep(table0, renameTable, parameters, i, chosen, callerNames, claimed0, parameterName);
      renameTable := renameTable[Parameter(parameters[i]) := parameterName];
      claimed := claimed + {parameterName};
      chosen := chosen + [parameterName];
    }
    assert parameters[..|parameters|] == parameters;
    assert ParameterNames(parameters)[..|parameters|] == ParameterNames(parameters);
    ParameterNamesFresh(renameTable, parameters, callerNames, claimed0);
  }

  /** One iteration of the expression-parameter loop keeps its
      invariants. */
  lemma ParameterLoopStep(
    table0: map<Symbol, string>, table: map<Symbol, string>, parameters: seq<ParameterSymbol>, i: nat,
    chosen: seq<string>, callerNames: set<string>, claimed0: set<string>, name: string)
    requires i < |parameters|
    requires table.Keys == table0.Keys + ParameterKeys(parameters[..i])
    requires forall k :: k in table0 && k !in ParameterKeys(parameters[..i]) ==> table[k] == table0[k]
    requires chosen == ClaimNames(callerNames + claimed0, ParameterNames(parameters)[..i])
    requires NamedParameters(table, parameters[..i], chosen)
    requires name == Escape(parameters[i].name, callerNames + (claimed0 + Elements(chosen)))
    ensures table[Parameter(parameters[i]) := name].Keys == table0.Keys + ParameterKeys(parameters[..i + 1])
    ensures forall k :: (k in table0 && k !in ParameterKeys(parameters[..i + 1])
                         ==> table[Parameter(parameters[i]) := name][k] == table0[k])
    ensures chosen + [name] == ClaimNames(callerNames + claimed0, ParameterNames(parameters)[..i + 1])
    ensures claimed0 + Elements(chosen) + {name} == claimed0 + Elements(chosen + [name])
    ensures NamedParameters(table[Parameter(parameters[i]) := name], parameters[..i + 1], chosen + [name])
  {
    ParameterKeysStep(table0, table, parameters, i, name);
    ClaimedParameterStep(parameters, i, chosen, callerNames, claimed0, name);
    NamedParametersStep(table, parameters, i, chosen, name);
  }

  lemma NamedParametersStep(
    table: map<Symbol, string>, parameters: seq<ParameterSymbol>, i: nat, chosen: seq<string>, name: string)
    requires i < |parameters|
    requires NamedParameters(table, parameters[..i], chosen)
    ensures NamedParameters(table[Parameter(parameters[i]) := name], parameters[..i + 1], chosen + [name])
  {
    NamedParametersSnoc(table, parameters[..i], chosen, parameters[i], name);
    assert parameters[..i + 1] == parameters[..i] + [parameters[i]];
  }

  lemma ParameterKeysStep(
    table0: map<Symbol, string>, table: map<Symbol, string>, parameters: seq<ParameterSymbol>, i: nat, name: string)
    requires i < |parameters|
    requires table.Keys == table0.Keys + ParameterKeys(parameters[..i])
    requires forall k :: k in table0 && k !in ParameterKeys(parameters[..i]) ==> table[k] == table0[k]
    ensures table[Parameter(parameters[i]) := name].Keys == table0.Keys + ParameterKeys(parameters[..i + 1])
    ensures forall k :: (k in table0 && k !in ParameterKeys(parameters[..i + 1])
                         ==> table[Parameter(parameters[i]) := name][k] == table0[k])
  {
    ParameterKeysSnoc(parameters, i);
  }

  lemma ClaimedParameterStep(
    parameters: seq<ParameterSymbol>, i: nat, chosen: seq<string>,
    callerNames: set<string>, claimed0: set<string>, name: string)
    requires i < |parameters|
    requires chosen == ClaimNames(callerNames + claimed0, ParameterNames(parameters)[..i])
    requires name == Escape(parameters[i].name, callerNames + (claimed0 + Elements(chosen)))
    ensures chosen + [name] == ClaimNames(callerNames + claimed0, ParameterNames(parameters)[..i + 1])
    ensures claimed0 + Elements(chosen) + {name} == claimed0 + Elements(chosen + [name])
  {
    ClaimNamesStep(callerNames + claimed0, ParameterNames(parameters), i);
    assert callerNames + (claimed0 + Elements(chosen)) == (callerNames + claimed0) + Elements(chosen);
    ElementsSnoc(chosen, name);
  }

  /** Each parameter's last occurrence in `parameters` has the name chosen
      at that position. */
  predicate NamedParameters(table: map<Symbol, string>, parameters: seq<ParameterSymbol>, chosen: seq<string>) {
    && |chosen| == |parameters|
    && forall i :: (0 <= i < |parameters| && LastOccurrence(parameters, i)
                    ==> Parameter(parameters[i]) in table && table[Parameter(parameters[i])] == chosen[i])
  }

  /** Naming one more parameter: its entry is the new name, and an earlier
      parameter keeps its name unless it is the same parameter. */
  lemma NamedParametersSnoc(
    table: map<Symbol, string>, parameters: seq<ParameterSymbol>, chosen: seq<string>, p: ParameterSymbol, name: string)
    requires NamedParameters(table, parameters, chosen)
    ensures NamedParameters(table[Parameter(p) := name], parameters + [p], chosen + [name])
  {
    var next := parameters + [p];
    forall a | 0 <= a < |next| && LastOccurrence(next, a)
      ensures Parameter(next[a]) in table[Parameter(p) := name]
      ensures table[Parameter(p) := name][Parameter(next[a])] == (chosen + [name])[a]
    {
      if a < |parameters| {
        forall j | a < j < |parameters| ensures parameters[j] != parameters[a] {
          assert next[j] == parameters[j];
        }
        assert LastOccurrence(parameters, a) && next[a] == parameters[a];
        assert next[|parameters|] == p && p != next[a];
      }
    }
  }

  /** The position of the last occurrence of `p`. */
  function LastIndex(parameters: seq<ParameterSymbol>, p: ParameterSymbol): (i: nat)
    requires p in parameters
    ensures i < |parameters| && parameters[i] == p && LastOccurrence(parameters, i)
  {
    var n := |parameters| - 1;
    if parameters[n] == p then n
    else
      assert p in parameters[..n] by {
        var j :| 0 <= j < |parameters| && parameters[j] == p;
        assert parameters[..n][j] == p;
      }
      var i := LastIndex(parameters[..n], p);
      assert LastOccurrence(parameters[..n], i);
      assert forall j :: i < j < n ==> parameters[j] == parameters[..n][j];
      i
  }

  /** The names a run of parameter loops gave are distinct, claimed, and
      clear of the caller-visible names and the names claimed before. */
  lemma ParameterNamesFresh(
    table: map<Symbol, string>, parameters: seq<ParameterSymbol>, callerNames: set<string>, claimed0: set<string>)
    requires NamedParameters(table, parameters, ClaimNames(callerNames + claimed0, ParameterNames(parameters)))
    ensures var picked := ClaimNames(callerNames + claimed0, ParameterNames(parameters));
      FreshNames(table, ParameterKeys(parameters), claimed0, claimed0 + Elements(picked))
    ensures forall k :: k in ParameterKeys(parameters) ==> table[k] !in callerNames
  {
    ClaimNamesFresh(callerNames + claimed0, ParameterNames(parameters));
    PicksFresh(table, parameters, ClaimNames(callerNames + claimed0, ParameterNames(parameters)), callerNames + claimed0);
  }

  /** Distinct picks clear of `base` give the parameters distinct names
      clear of `base`, each one of the picks. */
  lemma PicksFresh(table: map<Symbol, string>, parameters: seq<ParameterSymbol>, picked: seq<string>, base: set<string>)
    requires NamedParameters(table, parameters, picked)
    requires Distinct(picked)
    requires forall n :: n in picked ==> n !in base
    ensures DistinctNamesClearOf(table, ParameterKeys(parameters), base)
    ensures forall k :: k in ParameterKeys(parameters) ==> table[k] in Elements(picked)
  {
    PicksClear(table, parameters, picked, base);
    PicksDistinct(table, parameters, picked);
  }

  lemma PicksClear(table: map<Symbol, string>, parameters: seq<ParameterSymbol>, picked: seq<string>, base: set<string>)
    requires NamedParameters(table, parameters, picked)
    requires forall n :: n in picked ==> n !in base
    ensures forall k :: k in ParameterKeys(parameters) ==> k in table && table[k] !in base && table[k] in Elements(picked)
  {
    forall k | k in ParameterKeys(parameters)
      ensures k in table && table[k] !in base && table[k] in Elements(picked)
    {
      PickOf(table, parameters, picked, k);
    }
  }

  lemma PicksDistinct(table: map<Symbol, string>, parameters: seq<ParameterSymbol>, picked: seq<string>)
    requires NamedParameters(table, parameters, picked)
    requires Distinct(picked)
    ensures ParameterKeys(parameters) <= table.Keys
    ensures forall k1, k2 :: (k1 in ParameterKeys(parameters) && k2 in ParameterKeys(parameters) && k1 != k2
                              ==> table[k1] != table[k2])
  {
    forall k | k in ParameterKeys(parameters) ensures k in table {
      PickOf(table, parameters, picked, k);
    }
    forall k1, k2 | k1 in ParameterKeys(parameters) && k2 in ParameterKeys(parameters) && k1 != k2
      ensures table[k1] != table[k2]
    {
      PickOf(table, parameters, picked, k1);
      PickOf(table, parameters, picked, k2);
      var i1, i2 := LastIndex(parameters, k1.parameter), LastIndex(parameters, k2.parameter);
      if i1 < i2 {
        assert picked[i1] != picked[i2];
      } else {
        assert i2 < i1;
        assert picked[i2] != picked[i1];
      }
    }
  }

  /** A parameter key is named by the pick at its parameter's last
      occurrence. */
  lemma PickOf(table: map<Symbol, string>, parameters: seq<ParameterSymbol>, picked: seq<string>, k: Symbol)
    requires NamedParameters(table, parameters, picked)
    requires k in ParameterKeys(parameters)
    ensures k.Parameter? && k.parameter in parameters
    ensures k in table && table[k] == picked[LastIndex(parameters, k.parameter)]
  {
    var i := LastIndex(parameters, k.parameter);
    assert Parameter(parameters[i]) == k;
  }

  /** Pass 3: the expression parameters, then the param-array parameter,
      each renamed away from the caller-visible names and every claimed
      name. */
  method ClaimMovedParameterNames(
    table0: map<Symbol, string>, expressionParameters: seq<ParameterSymbol>,
    paramArrayParameter: Option<ParameterSymbol>, callerNames: set<string>, claimed0: set<string>)
    returns (renameTable: map<Symbol, string>, claimed: set<string>)
    ensures renameTable.Keys == table0.Keys + ParameterKeys(MovedParameters(expressionParameters, paramArrayParameter))
    ensures forall k :: k in table0 && !k.Parameter? ==> renameTable[k] == table0[k]
    ensures forall x :: (Parameter(x) in table0 && x !in MovedParameters(expressionParameters, paramArrayParameter)
                         ==> renameTable[Parameter(x)] == table0[Parameter(x)])
    ensures var moved := MovedParameters(expressionParameters, paramArrayParameter);
      claimed == claimed0 + Elements(ClaimNames(callerNames + claimed0, ParameterNames(moved)))
    ensures var moved := MovedParameters(expressionParameters, paramArrayParameter);
      NamedParameters(renameTable, moved, ClaimNames(callerNames + claimed0, ParameterNames(moved)))
    ensures FreshNames(renameTable, ParameterKeys(MovedParameters(expressionParameters, paramArrayParameter)),
                       claimed0, claimed)
    ensures forall k :: (k in ParameterKeys(MovedParameters(expressionParameters, paramArrayParameter))
                         ==> renameTable[k] !in callerNames)
  {
    var moved := MovedParameters(expressionParameters, paramArrayParameter);
    renameTable, claimed := ClaimParameterNames(table0, expressionParameters, callerNames, claimed0);
    if paramArrayParameter.Some? {
      ghost var table1, claimed1 := renameTable, claimed;
      renameTable, claimed := ClaimParameterName(renameTable, paramArrayParameter.value, callerNames, claimed);
      ParamArrayStep(table0, table1, expressionParameters, paramArrayParameter.value, callerNames, claimed0, claimed1);
    } else {
      assert moved == expressionParameters;
    }
    ParameterNamesFresh(renameTable, moved, callerNames, claimed0);
  }

  /** The param-array block named after the expression-parameter loop
      acts as one more iteration of that loop. */
  lemma ParamArrayStep(
    table0: map<Symbol, string>, table: map<Symbol, string>, parameters: seq<ParameterSymbol>, p: ParameterSymbol,
    callerNames: set<string>, claimed0: set<string>, claimed: set<string>)
    requires table.Keys == table0.Keys + ParameterKeys(parameters)
    requires forall k :: k in table0 && k !in ParameterKeys(parameters) ==> table[k] == table0[k]
    requires claimed == claimed0 + Elements(ClaimNames(callerNames + claimed0, ParameterNames(parameters)))
    requires NamedParameters(table, parameters, ClaimNames(callerNames + claimed0, ParameterNames(parameters)))
    ensures var name := Escape(p.name, callerNames + claimed);
      var picked := ClaimNames(callerNames + claimed0, ParameterNames(parameters + [p]));
      && table[Parameter(p) := name].Keys == table0.Keys + ParameterKeys(parameters + [p])
      && (forall k :: (k in table0 && k !in ParameterKeys(parameters + [p])
                       ==> table[Parameter(p) := name][k] == table0[k]))
      && claimed + {name} == claimed0 + Elements(picked)
      && NamedParameters(table[Parameter(p) := name], parameters + [p], picked)
  {
    var picked := ClaimNames(callerNames + claimed0, ParameterNames(parameters));
    var name := Escape(p.name, callerNames + claimed);
    ParameterKeysAppend(parameters, p);
    ParamArrayClaimed(parameters, p, callerNames, claimed0, claimed);
    NamedParametersSnoc(table, parameters, picked, p, name);
  }

  lemma ParamArrayClaimed(
    parameters: seq<ParameterSymbol>, p: ParameterSymbol, callerNames: set<string>, claimed0: set<string>, claimed: set<string>)
    requires claimed == claimed0 + Elements(ClaimNames(callerNames + claimed0, ParameterNames(parameters)))
    ensures var picked := ClaimNames(callerNames + claimed0, ParameterNames(parameters));
      var name := Escape(p.name, callerNames + claimed);
      && ClaimNames(callerNames + claimed0, ParameterNames(parameters + [p])) == picked + [name]
      && claimed + {name} == claimed0 + Elements(picked + [name])
  {
    var picked := ClaimNames(callerNames + claimed0, ParameterNames(parameters));
    ClaimNamesSnoc(callerNames + claimed0, parameters, p);
    assert callerNames + (claimed0 + Elements(picked)) == (callerNames + claimed0) + Elements(picked);
    ElementsSnoc(picked, Escape(p.name, callerNames + claimed));
  }

  lemma ParameterKeysAppend(parameters: seq<ParameterSymbol>, p: ParameterSymbol)
    ensures ParameterKeys(parameters + [p]) == ParameterKeys(parameters) + {Parameter(p)}
  {
  }

  /** One more parameter claimed: the picks extend by the escape of its
      name from everything claimed so far. */
  lemma ClaimNamesSnoc(base: set<string>, parameters: seq<ParameterSymbol>, p: ParameterSymbol)
    ensures var picked := ClaimNames(base, ParameterNames(parameters));
      ClaimNames(base, ParameterNames(parameters + [p])) == picked + [Escape(p.name, base + Elements(picked))]
  {
    var names := ParameterNames(parameters + [p]);
    assert names[..|names| - 1] == ParameterNames(parameters);
  }

  /** Builds the rename table in three ordered passes: parameters bound to a
      caller identifier take that identifier; each callee local keeps its
      name or is renamed away from every name claimed so far; each
      expression parameter, then the param-array parameter, is renamed away
      from the caller-visible names and every name claimed so far. */
  method ComputeRenameTable(
    calleeOperation: Option<Operation>,
    visibleSymbols: seq<Symbol>,
    inaccessibleLocals: set<Symbol>,
    paramArrayParameter: Option<ParameterSymbol>,
    renameParameters: seq<(ParameterSymbol, string)>,
    expressionParameters: seq<ParameterSymbol>)
    returns (renameTable: map<Symbol, string>)
    ensures renameTable.Keys
         == RenameParameterKeys(renameParameters)
          + GeneratedKeys(LocalSymbolsOf(calleeOperation), expressionParameters, paramArrayParameter)
    ensures forall i :: (0 <= i < |renameParameters| && LastBinding(renameParameters, i)
                         && renameParameters[i].0 !in MovedParameters(expressionParameters, paramArrayParameter)
                         ==> renameTable[Parameter(renameParameters[i].0)] == renameParameters[i].1)
    ensures LocalNames(renameTable, LocalSymbolsOf(calleeOperation))
         == ClaimNames(ArgumentNames(renameParameters), NamesOf(LocalSymbolsOf(calleeOperation)))
    ensures var moved := MovedParameters(expressionParameters, paramArrayParameter);
      var claimedBefore := ArgumentNames(renameParameters) + Elements(LocalNames(renameTable, LocalSymbolsOf(calleeOperation)));
      NamedParameters(renameTable, moved,
                      ClaimNames(CallerNames(visibleSymbols, inaccessibleLocals) + claimedBefore, ParameterNames(moved)))
    ensures forall p :: p in MovedParameters(expressionParameters, paramArrayParameter) ==>
      renameTable[Parameter(p)] !in CallerNames(visibleSymbols, inaccessibleLocals)
    ensures DistinctNamesClearOf(
      renameTable, GeneratedKeys(LocalSymbolsOf(calleeOperation), expressionParameters, paramArrayParameter),
      ArgumentNames(renameParameters))
  {
    var localSymbolNamesOfCaller := CallerNames(visibleSymbols, inaccessibleLocals);
    renameTable := SeedRenameParameters(renameParameters);

    // Pass 2: callee locals, kept clear of the caller identifiers above.
    var calleeParameterNames := ArgumentNames(renameParameters);
    ghost var base := calleeParameterNames;
    var localSymbolsOfCallee;
    renameTable, calleeParameterNames, localSymbolsOfCallee :=
      ClaimCalleeLocalNames(renameTable, calleeOperation, calleeParameterNames);
    ghost var afterLocals, claimedLocals := renameTable, calleeParameterNames;

    // Pass 3: expression parameters, then the param-array parameter.
    renameTable, calleeParameterNames := ClaimMovedParameterNames(
      renameTable, expressionParameters, paramArrayParameter, localSymbolNamesOfCaller, calleeParameterNames);
    FreshNamesExtend(afterLocals, renameTable, LocalKeys(localSymbolsOfCallee),
                     ParameterKeys(MovedParameters(expressionParameters, paramArrayParameter)),
                     base, claimedLocals, calleeParameterNames);
    LocalNamesFrame(afterLocals, renameTable, localSymbolsOfCallee);
  }

  /** Pass 2 tests a callee local only against the names claimed so far,
      never against the names visible at the call site: a callee local `t`
      keeps its name although a caller symbol named `t` is in scope. */
  method CalleeLocalKeepsCallerName() returns (renameTable: map<Symbol, string>)
    ensures Local(LocalSymbol(1, "t")) in renameTable && renameTable[Local(LocalSymbol(1, "t"))] == "t"
    ensures "t" in CallerNames([OtherSymbol(2, "t")], {})
  {
    var t := LocalSymbol(1, "t");
    var callee := Operation(VariableDeclarator(t), []);
    renameTable := ComputeRenameTable(Some(callee), [OtherSymbol(2, "t")], {}, None, [], []);
    assert Declarators(callee) == [t];
    assert LocalSymbolsOf(Some(callee)) == [t];
    assert NamesOf([t]) == ["t"];
    assert ArgumentNames([]) == {};
    assert ClaimNames({}, ["t"]) == ["t"];
    assert LocalNames(renameTable, [t])[0] == renameTable[Local(t)];
    assert OtherSymbol(2, "t") in [OtherSymbol(2, "t")] && OtherSymbol(2, "t").Name() == "t";
  }
}
