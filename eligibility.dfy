/** Whether the refactoring is offered at a call: the callee symbol is
    chosen from the semantic model's answer and must be a private ordinary
    method with exactly one declaration holding a single statement. */
module Eligibility {
  import opened Symbols
  import opened Syntax

  datatype Accessibility =
    | NotApplicable | Private | ProtectedAndInternal | Protected | Internal | ProtectedOrInternal | Public

  datatype MethodKind = Ordinary | Constructor | PropertyGet | PropertySet | LocalFunction | OtherMethodKind

  datatype SymbolKind = MethodSymbol(methodKind: MethodKind) | OtherSymbolKind

  /** What the gate looks at in a symbol: its accessibility, its kind and
      the syntax nodes that declare it. */
  datatype CalleeSymbol = CalleeSymbol(
    name: string,
    declaredAccessibility: Accessibility,
    kind: SymbolKind,
    declaringSyntaxReferences: seq<Node>)

  predicate IsOrdinaryMethod(s: CalleeSymbol) {
    s.kind.MethodSymbol? && s.kind.methodKind == Ordinary
  }

  /** The semantic model's answer for a node: the symbol it binds to, if
      any, and the candidates considered when binding failed. */
  datatype SymbolInfo = SymbolInfo(symbol: Option<CalleeSymbol>, candidateSymbols: seq<CalleeSymbol>)

  /** The bound symbol if there is one, else the first candidate, else
      nothing. */
  function TryGetBestMatchSymbol(symbolInfo: SymbolInfo): (r: Option<CalleeSymbol>)
    ensures symbolInfo.symbol.Some? ==> r == symbolInfo.symbol
    ensures symbolInfo.symbol.None? && symbolInfo.candidateSymbols != [] ==> r == Some(symbolInfo.candidateSymbols[0])
    ensures r.None? <==> symbolInfo.symbol.None? && symbolInfo.candidateSymbols == []
  {
    if symbolInfo.symbol.Some? then symbolInfo.symbol
    else if |symbolInfo.candidateSymbols| > 0 then Some(symbolInfo.candidateSymbols[0])
    else None
  }

  /** The chosen symbol is always one the semantic model reported. */
  lemma BestMatchIsReported(symbolInfo: SymbolInfo)
    requires TryGetBestMatchSymbol(symbolInfo).Some?
    ensures TryGetBestMatchSymbol(symbolInfo) == symbolInfo.symbol
         || TryGetBestMatchSymbol(symbolInfo).value in symbolInfo.candidateSymbols
  {
  }

  /** The arguments the registered code action captures. */
  datatype InlineAction = InlineAction(
    invocation: Node, callee: CalleeSymbol, calleeDeclaration: Node, root: Node)

  /** The refactoring offered at a call site, if any. The invocation, the
      semantic model and the syntax root may each be missing; the semantic
      model is given as the symbol information it reports per node, and the
      single-statement test is the language hook. */
  function ComputeRefactoring(
    invocation: Option<Node>,
    semanticModel: Option<Node -> SymbolInfo>,
    root: Option<Node>,
    isMethodContainsOneStatement: Node -> bool): (r: Option<InlineAction>)
    ensures r.Some? <==>
      && invocation.Some?
      && semanticModel.Some?
      && TryGetBestMatchSymbol(semanticModel.value(invocation.value)).Some?
      && var callee := TryGetBestMatchSymbol(semanticModel.value(invocation.value)).value;
      && callee.declaredAccessibility == Private
      && IsOrdinaryMethod(callee)
      && |callee.declaringSyntaxReferences| == 1
      && isMethodContainsOneStatement(callee.declaringSyntaxReferences[0])
      && root.Some?
    ensures r.Some? ==>
      && r.value.invocation == invocation.value
      && Some(r.value.callee) == TryGetBestMatchSymbol(semanticModel.value(invocation.value))
      && r.value.calleeDeclaration == r.value.callee.declaringSyntaxReferences[0]
      && r.value.root == root.value
  {
    if invocation.None? then None
    else if semanticModel.None? then None
    else
      var getSymbolInfo := semanticModel.value;
      var methodSymbol := TryGetBestMatchSymbol(getSymbolInfo(invocation.value));
      if methodSymbol.None?
         || methodSymbol.value.declaredAccessibility != Private
         || !IsOrdinaryMethod(methodSymbol.value)
      then None
      else if !methodSymbol.value.kind.MethodSymbol? then None
      else
        var calleeMethodDeclarationSyntaxNodes := methodSymbol.value.declaringSyntaxReferences;
        if |calleeMethodDeclarationSyntaxNodes| != 1 then None
        else if !isMethodContainsOneStatement(calleeMethodDeclarationSyntaxNodes[0]) then None
        else if root.None? then None
        else Some(InlineAction(invocation.value, methodSymbol.value, calleeMethodDeclarationSyntaxNodes[0], root.value))
  }

  /** A bound symbol that fails the gate is not rescued by an eligible
      candidate. */
  lemma BoundSymbolDecides(
    invocation: Node, semanticModel: Node -> SymbolInfo, root: Node, isMethodContainsOneStatement: Node -> bool)
    requires semanticModel(invocation).symbol.Some?
    requires semanticModel(invocation).symbol.value.declaredAccessibility != Private
    ensures ComputeRefactoring(Some(invocation), Some(semanticModel), Some(root), isMethodContainsOneStatement).None?
  {
  }
}
