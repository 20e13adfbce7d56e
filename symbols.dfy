/** Symbols as opaque handles (identity is the id, not the name) and the
    semantic operation tree of a callee, with the walker that collects the
    local symbols its variable declarators introduce. */
module Symbols {

  datatype Option<T> = None | Some(value: T)

  /** A local variable (ILocalSymbol). */
  datatype LocalSymbol = LocalSymbol(id: nat, name: string)

  /** A method parameter (IParameterSymbol). */
  datatype ParameterSymbol = ParameterSymbol(id: nat, name: string)

  /** Any symbol (ISymbol): rename-table keys and the symbols visible in the
      caller's scope. */
  datatype Symbol =
    | Local(local: LocalSymbol)
    | Parameter(parameter: ParameterSymbol)
    | OtherSymbol(id: nat, name: string)
  {
    function Name(): string {
      match this
      case Local(l) => l.name
      case Parameter(p) => p.name
      case OtherSymbol(_, n) => n
    }
  }

  datatype OperationKind = VariableDeclarator(symbol: LocalSymbol) | OtherOperation

  /** A node of the semantic operation tree (IOperation) with its children in
      walk order. */
  datatype Operation = Operation(kind: OperationKind, children: seq<Operation>)

  /** The symbols of the variable declarators of `op`, in pre-order, with
      repetitions. */
  function Declarators(op: Operation): seq<LocalSymbol>
    decreases op, 1
  {
    (if op.kind.VariableDeclarator? then [op.kind.symbol] else []) + DeclaratorsOfList(op, |op.children|)
  }

  /** The declarators of the first `n` children of `op`. */
  function DeclaratorsOfList(op: Operation, n: nat): seq<LocalSymbol>
    requires n <= |op.children|
    decreases op, 0, n
  {
    if n == 0 then [] else DeclaratorsOfList(op, n - 1) + Declarators(op.children[n - 1])
  }

  /** Adding to a set kept in insertion order. */
  function Add(acc: seq<LocalSymbol>, x: LocalSymbol): seq<LocalSymbol> {
    if x in acc then acc else acc + [x]
  }

  /** Adding every element of `xs`, in order. */
  function AddAll(acc: seq<LocalSymbol>, xs: seq<LocalSymbol>): seq<LocalSymbol> {
    if xs == [] then acc else Add(AddAll(acc, xs[..|xs| - 1]), xs[|xs| - 1])
  }

  predicate Distinct<T(==)>(s: seq<T>) {
    forall i, j :: 0 <= i < j < |s| ==> s[i] != s[j]
  }

  /** The local symbols a walk of `operation` yields; none for a missing
      operation. */
  function LocalSymbolsOf(operation: Option<Operation>): seq<LocalSymbol> {
    if operation.None? then [] else AddAll([], Declarators(operation.value))
  }

  lemma {:induction false} AddAllConcat(acc: seq<LocalSymbol>, xs: seq<LocalSymbol>, ys: seq<LocalSymbol>)
    ensures AddAll(acc, xs + ys) == AddAll(AddAll(acc, xs), ys)
  {
    if ys != [] {
      assert (xs + ys)[..|xs + ys| - 1] == xs + ys[..|ys| - 1];
      AddAllConcat(acc, xs, ys[..|ys| - 1]);
    } else {
      assert xs + ys == xs;
    }
  }

  /** The collected symbols are exactly those already present or declared,
      each once, with the earlier ones kept in front. */
  lemma {:induction false} AddAllContents(acc: seq<LocalSymbol>, xs: seq<LocalSymbol>)
    requires Distinct(acc)
    ensures Distinct(AddAll(acc, xs))
    ensures forall x :: x in AddAll(acc, xs) <==> x in acc || x in xs
    ensures |AddAll(acc, xs)| >= |acc| && AddAll(acc, xs)[..|acc|] == acc
  {
    if xs != [] {
      var init := xs[..|xs| - 1];
      AddAllContents(acc, init);
      assert forall x :: x in xs <==> x in init || x == xs[|xs| - 1] by {
        assert xs == init + [xs[|xs| - 1]];
      }
    }
  }

  /** A walk of a missing operation yields nothing; otherwise every declared
      local exactly once. */
  lemma LocalSymbolsOfContents(operation: Option<Operation>)
    ensures Distinct(LocalSymbolsOf(operation))
    ensures operation.None? ==> LocalSymbolsOf(operation) == []
    ensures operation.Some? ==>
      forall l :: l in LocalSymbolsOf(operation) <==> l in Declarators(operation.value)
  {
    if operation.Some? {
      AddAllContents([], Declarators(operation.value));
    }
  }

  /** Walking one more child adds that child's declarators after those
      already collected. */
  lemma VisitedChild(acc: seq<LocalSymbol>, own: seq<LocalSymbol>, operation: Operation, i: nat)
    requires i < |operation.children|
    ensures AddAll(acc, own + DeclaratorsOfList(operation, i + 1))
         == AddAll(AddAll(acc, own + DeclaratorsOfList(operation, i)), Declarators(operation.children[i]))
  {
    AddAllConcat(acc, own + DeclaratorsOfList(operation, i), Declarators(operation.children[i]));
    assert own + DeclaratorsOfList(operation, i + 1)
        == own + DeclaratorsOfList(operation, i) + Declarators(operation.children[i]);
  }

  /** The operation walker that records the symbol of every variable
      declarator it visits in a set (kept here in insertion order). */
  class VariableDeclaratorOperationVisitor {
    var localSymbols: seq<LocalSymbol>

    ghost predicate Valid()
      reads this
    {
      Distinct(localSymbols)
    }

    constructor ()
      ensures Valid() && localSymbols == []
    {
      localSymbols := [];
    }

    method FindAllLocalSymbols(operation: Option<Operation>) returns (r: seq<LocalSymbol>)
      requires Valid()
      modifies this
      ensures Valid()
      ensures r == localSymbols
      ensures operation.None? ==> localSymbols == old(localSymbols)
      ensures operation.Some? ==> localSymbols == AddAll(old(localSymbols), Declarators(operation.value))
    {
      if operation.Some? {
        Visit(operation.value);
      }
      r := localSymbols;
    }

    method Visit(operation: Operation)
      requires Valid()
      modifies this
      ensures Valid()
      ensures localSymbols == AddAll(old(localSymbols), Declarators(operation))
      decreases operation
    {
      var own: seq<LocalSymbol> := [];
      if operation.kind.VariableDeclarator? {
        own := [operation.kind.symbol];
        assert AddAll(localSymbols, own) == Add(localSymbols, operation.kind.symbol) by {
          assert own[..0] == [];
        }
        localSymbols := Add(localSymbols, operation.kind.symbol);
      }
      AddAllContents(old(localSymbols), own);
      for i := 0 to |operation.children|
        invariant Valid()
        invariant localSymbols == AddAll(old(localSymbols), own + DeclaratorsOfList(operation, i))
      {
        Visit(operation.children[i]);
        VisitedChild(old(localSymbols), own, operation, i);
      }
    }
  }
}
