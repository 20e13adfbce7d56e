/** Applying the inline changes: the callee copy is rewritten through one
    syntax editor, the caller's document through another. */
module InlineMethod {
  import opened Symbols
  import opened Syntax

  /** The changes the language-specific part computes for one call. */
  datatype InlineChange =
    | ReplaceVariableChange(symbol: Symbol, replacementLiteralExpression: Node)
    | IdentifierRenameVariableChange(symbol: Symbol, identifierSyntaxNode: Node)
    | ExtractDeclarationChange(declarationStatement: Node)

  predicate IsReplace(c: InlineChange) { c.ReplaceVariableChange? }
  predicate IsRename(c: InlineChange) { c.IdentifierRenameVariableChange? }
  predicate IsExtract(c: InlineChange) { c.ExtractDeclarationChange? }

  /** The changes of one kind, in their original order. */
  function OfType(changes: seq<InlineChange>, keep: InlineChange -> bool): (r: seq<InlineChange>)
    ensures |r| <= |changes|
    ensures forall c :: c in r <==> c in changes && keep(c)
    ensures forall i :: 0 <= i < |r| ==> keep(r[i])
  {
    if changes == [] then []
    else
      OfType(changes[..|changes| - 1], keep)
      + (if keep(changes[|changes| - 1]) then [changes[|changes| - 1]] else [])
  }

  /** Filtering distributes over concatenation: the kept changes stay in
      their original order and every occurrence of a kept change is kept. */
  lemma {:induction false} OfTypeConcat(xs: seq<InlineChange>, ys: seq<InlineChange>, keep: InlineChange -> bool)
    ensures OfType(xs + ys, keep) == OfType(xs, keep) + OfType(ys, keep)
    decreases |ys|
  {
    if ys == [] {
      assert xs + ys == xs;
    } else {
      var init := ys[..|ys| - 1];
      assert (xs + ys)[..|xs + ys| - 1] == xs + init;
      OfTypeConcat(xs, init, keep);
    }
  }

  /** A single change is kept exactly when it is of the kind. */
  lemma OfTypeSingle(c: InlineChange, keep: InlineChange -> bool)
    ensures OfType([c], keep) == if keep(c) then [c] else []
  {
    assert [c][..0] == [];
  }

  /** The node that replaces every reference to a change's symbol. */
  function ReplacementOf(change: InlineChange): Node
    requires !change.ExtractDeclarationChange?
  {
    if change.ReplaceVariableChange? then change.replacementLiteralExpression else change.identifierSyntaxNode
  }

  /** The edits one symbol's references produce: each reference inside the
      editor's original root, in order, is replaced by the replacement node
      carrying that reference's trivia. */
  function SymbolEdits(originalRoot: Node, references: seq<Node>, replacementNode: Node): seq<Edit> {
    if references == [] then []
    else
      var n := references[|references| - 1];
      SymbolEdits(originalRoot, references[..|references| - 1], replacementNode)
      + (if Contains(originalRoot, n) then [ReplaceEdit(n, WithTriviaOf(replacementNode, n))] else [])
  }

  /** Every edit targets a reference inside the original root and carries
      that reference's trivia; every such reference has its edit. */
  lemma {:induction false} SymbolEditsContents(originalRoot: Node, references: seq<Node>, replacementNode: Node)
    ensures forall e :: e in SymbolEdits(originalRoot, references, replacementNode) ==>
      && e.ReplaceEdit?
      && e.target in references
      && Contains(originalRoot, e.target)
      && e.replacement == WithTriviaOf(replacementNode, e.target)
    ensures forall n :: n in references && Contains(originalRoot, n) ==>
      ReplaceEdit(n, WithTriviaOf(replacementNode, n)) in SymbolEdits(originalRoot, references, replacementNode)
    ensures |SymbolEdits(originalRoot, references, replacementNode)| <= |references|
  {
    if references != [] {
      var init := references[..|references| - 1];
      SymbolEditsContents(originalRoot, init, replacementNode);
      assert references == init + [references[|references| - 1]];
    }
  }

  /** The edits of a run of replace or rename changes, change by change. */
  function ChangeEdits(originalRoot: Node, changes: seq<InlineChange>, referencesOf: Symbol -> seq<Node>): seq<Edit>
    requires forall i :: 0 <= i < |changes| ==> !changes[i].ExtractDeclarationChange?
  {
    if changes == [] then []
    else
      var c := changes[|changes| - 1];
      ChangeEdits(originalRoot, changes[..|changes| - 1], referencesOf)
      + SymbolEdits(originalRoot, referencesOf(c.symbol), ReplacementOf(c))
  }

  /** The callee's edits: all replace changes first, then all rename
      changes. */
  function CalleeEdits(calleeDeclaration: Node, changes: seq<InlineChange>, referencesOf: Symbol -> seq<Node>): seq<Edit> {
    ChangeEdits(calleeDeclaration, OfType(changes, IsReplace), referencesOf)
    + ChangeEdits(calleeDeclaration, OfType(changes, IsRename), referencesOf)
  }

  /** The caller's insertions: each extracted declaration, in order, before
      `anchor`. */
  function InsertEdits(anchor: Node, changes: seq<InlineChange>): (edits: seq<Edit>)
    requires forall i :: 0 <= i < |changes| ==> changes[i].ExtractDeclarationChange?
    ensures |edits| == |changes|
    ensures forall i :: 0 <= i < |edits| ==> edits[i] == InsertBeforeEdit(anchor, changes[i].declarationStatement)
  {
    if changes == [] then []
    else
      InsertEdits(anchor, changes[..|changes| - 1])
      + [InsertBeforeEdit(anchor, changes[|changes| - 1].declarationStatement)]
  }

  /** The statements the extracted-declaration changes carry, in order. */
  function Declarations(changes: seq<InlineChange>): (ds: seq<Node>)
    requires forall i :: 0 <= i < |changes| ==> changes[i].ExtractDeclarationChange?
    ensures |ds| == |changes|
  {
    seq(|changes|, i requires 0 <= i < |changes| => changes[i].declarationStatement)
  }

  /** The statement that replaces the call: the callee declaration with
      every edit applied, reduced to its single statement by the language
      hook. */
  function InlineBody(
    calleeDeclaration: Node, changes: seq<InlineChange>,
    referencesOf: Symbol -> seq<Node>, getInlineStatement: Node -> Node): Node
  {
    getInlineStatement(Apply(calleeDeclaration, CalleeEdits(calleeDeclaration, changes, referencesOf)))
  }

  /** The caller's document after inlining. */
  function InlinedDocument(
    root: Node, invocation: Node, invocationParent: Node, calleeDeclaration: Node,
    changes: seq<InlineChange>, referencesOf: Symbol -> seq<Node>, getInlineStatement: Node -> Node): Node
  {
    Apply(root, InsertEdits(invocationParent, OfType(changes, IsExtract))
                + [ReplaceEdit(invocation, InlineBody(calleeDeclaration, changes, referencesOf, getInlineStatement))])
  }

  /** Replaces every reference to `symbol` found inside the editor's
      original root by `replacementNode`, keeping each reference's trivia. */
  method ReplaceAllSyntaxNodesForSymbol(
    editor: SyntaxEditor, symbol: Symbol, replacementNode: Node, referencesOf: Symbol -> seq<Node>)
    modifies editor
    ensures editor.edits == old(editor.edits) + SymbolEdits(editor.OriginalRoot, referencesOf(symbol), replacementNode)
  {
    var allSyntaxNodesToReplace := referencesOf(symbol);
    for i := 0 to |allSyntaxNodesToReplace|
      invariant editor.edits
             == old(editor.edits) + SymbolEdits(editor.OriginalRoot, allSyntaxNodesToReplace[..i], replacementNode)
    {
      var nodeToReplace := allSyntaxNodesToReplace[i];
      assert allSyntaxNodesToReplace[..i + 1][..i] == allSyntaxNodesToReplace[..i];
      if Contains(editor.OriginalRoot, nodeToReplace) {
        var replacementNodeWithTrivia := WithTriviaOf(replacementNode, nodeToReplace);
        editor.ReplaceNode(nodeToReplace, replacementNodeWithTrivia);
      }
    }
    assert allSyntaxNodesToReplace[..|allSyntaxNodesToReplace|] == allSyntaxNodesToReplace;
  }

  /** Applies a run of replace or rename changes through `editor`, one
      change after another. */
  method ReplaceAllChanges(editor: SyntaxEditor, changes: seq<InlineChange>, referencesOf: Symbol -> seq<Node>)
    requires forall i :: 0 <= i < |changes| ==> !changes[i].ExtractDeclarationChange?
    modifies editor
    ensures editor.edits == old(editor.edits) + ChangeEdits(editor.OriginalRoot, changes, referencesOf)
  {
    for i := 0 to |changes|
      invariant editor.edits == old(editor.edits) + ChangeEdits(editor.OriginalRoot, changes[..i], referencesOf)
    {
      assert changes[..i + 1][..i] == changes[..i];
      var change := changes[i];
      ReplaceAllSyntaxNodesForSymbol(editor, change.symbol, ReplacementOf(change), referencesOf);
    }
    assert changes[..|changes|] == changes;
  }

  /** Rewrites a copy of the callee declaration with the replace changes,
      then the rename changes, and extracts its single statement. */
  method RewriteCallee(
    calleeMethodDeclarationSyntaxNode: Node, replacementChanges: seq<InlineChange>,
    referencesOf: Symbol -> seq<Node>, getInlineStatement: Node -> Node)
    returns (inlineMethodBody: Node)
    ensures inlineMethodBody
         == InlineBody(calleeMethodDeclarationSyntaxNode, replacementChanges, referencesOf, getInlineStatement)
  {
    var calleeMethodDeclarationNodeEditor := new SyntaxEditor(calleeMethodDeclarationSyntaxNode);
    ReplaceAllChanges(calleeMethodDeclarationNodeEditor, OfType(replacementChanges, IsReplace), referencesOf);
    assert calleeMethodDeclarationNodeEditor.edits
        == ChangeEdits(calleeMethodDeclarationSyntaxNode, OfType(replacementChanges, IsReplace), referencesOf);
    ReplaceAllChanges(calleeMethodDeclarationNodeEditor, OfType(replacementChanges, IsRename), referencesOf);
    assert calleeMethodDeclarationNodeEditor.edits
        == CalleeEdits(calleeMethodDeclarationSyntaxNode, replacementChanges, referencesOf);
    inlineMethodBody := getInlineStatement(calleeMethodDeclarationNodeEditor.GetChangedRoot());
  }

  /** Inserts each extracted declaration before the call's parent, then
      replaces the call by `inlineMethodBody`. */
  method EditDocument(
    root: Node, calleeMethodInvocationSyntaxNode: Node, invocationParent: Node,
    extractChanges: seq<InlineChange>, inlineMethodBody: Node)
    returns (document: Node)
    requires Contains(root, invocationParent) && calleeMethodInvocationSyntaxNode in invocationParent.children
    requires forall i :: 0 <= i < |extractChanges| ==> extractChanges[i].ExtractDeclarationChange?
    ensures document
         == Apply(root, InsertEdits(invocationParent, extractChanges)
                        + [ReplaceEdit(calleeMethodInvocationSyntaxNode, inlineMethodBody)])
  {
    var documentEditor := new SyntaxEditor(root);
    for i := 0 to |extractChanges|
      invariant documentEditor.edits == InsertEdits(invocationParent, extractChanges[..i])
    {
      assert extractChanges[..i + 1][..i] == extractChanges[..i];
      documentEditor.InsertBefore(invocationParent, extractChanges[i].declarationStatement);
    }
    assert extractChanges[..|extractChanges|] == extractChanges;

    var k :| 0 <= k < |invocationParent.children| && invocationParent.children[k] == calleeMethodInvocationSyntaxNode;
    assert Contains(invocationParent, calleeMethodInvocationSyntaxNode) by {
      assert Contains(invocationParent.children[k], calleeMethodInvocationSyntaxNode);
    }
    ContainsTransitive(root, invocationParent, calleeMethodInvocationSyntaxNode);
    documentEditor.ReplaceNode(calleeMethodInvocationSyntaxNode, inlineMethodBody);
    document := documentEditor.GetChangedRoot();
  }

  /** The whole inlining of one call: the rewritten callee statement
      replaces the call, after the extracted declarations were put in front
      of the call's parent. */
  method InlineMethodInDocument(
    root: Node, calleeMethodInvocationSyntaxNode: Node, invocationParent: Node,
    calleeMethodDeclarationSyntaxNode: Node, replacementChanges: seq<InlineChange>,
    referencesOf: Symbol -> seq<Node>, getInlineStatement: Node -> Node)
    returns (document: Node)
    requires Contains(root, invocationParent) && calleeMethodInvocationSyntaxNode in invocationParent.children
    ensures document == InlinedDocument(root, calleeMethodInvocationSyntaxNode, invocationParent,
                                        calleeMethodDeclarationSyntaxNode, replacementChanges, referencesOf,
                                        getInlineStatement)
  {
    var inlineMethodBody :=
      RewriteCallee(calleeMethodDeclarationSyntaxNode, replacementChanges, referencesOf, getInlineStatement);
    document := EditDocument(
      root, calleeMethodInvocationSyntaxNode, invocationParent,
      OfType(replacementChanges, IsExtract), inlineMethodBody);
  }

  /** Every edit of a run of changes replaces a reference, found inside the
      original root, to the symbol of one of the changes by that change's
      node with the reference's trivia; and every such reference is edited. */
  lemma {:induction false} ChangeEditsContents(
    originalRoot: Node, changes: seq<InlineChange>, referencesOf: Symbol -> seq<Node>)
    requires forall i :: 0 <= i < |changes| ==> !changes[i].ExtractDeclarationChange?
    ensures forall e :: e in ChangeEdits(originalRoot, changes, referencesOf) ==>
      && e.ReplaceEdit?
      && Contains(originalRoot, e.target)
      && exists c :: (c in changes && e.target in referencesOf(c.symbol)
                      && e.replacement == WithTriviaOf(ReplacementOf(c), e.target))
    ensures forall c, n :: (c in changes && n in referencesOf(c.symbol) && Contains(originalRoot, n)
      ==> ReplaceEdit(n, WithTriviaOf(ReplacementOf(c), n)) in ChangeEdits(originalRoot, changes, referencesOf))
  {
    if changes != [] {
      var init := changes[..|changes| - 1];
      var last := changes[|changes| - 1];
      ChangeEditsContents(originalRoot, init, referencesOf);
      SymbolEditsContents(originalRoot, referencesOf(last.symbol), ReplacementOf(last));
      assert changes == init + [last];
    }
  }

  /** The rename changes act on the tree the replace changes produced. */
  lemma RenamesFollowReplacements(
    calleeDeclaration: Node, changes: seq<InlineChange>, referencesOf: Symbol -> seq<Node>)
    ensures Apply(calleeDeclaration, CalleeEdits(calleeDeclaration, changes, referencesOf))
         == Apply(Apply(calleeDeclaration, ChangeEdits(calleeDeclaration, OfType(changes, IsReplace), referencesOf)),
                  ChangeEdits(calleeDeclaration, OfType(changes, IsRename), referencesOf))
  {
    ApplyConcat(calleeDeclaration,
                ChangeEdits(calleeDeclaration, OfType(changes, IsReplace), referencesOf),
                ChangeEdits(calleeDeclaration, OfType(changes, IsRename), referencesOf));
  }

  /** Inserting declarations that do not hold the anchor keeps the anchor
      strictly inside the tree and puts every declaration into it. */
  lemma {:induction false} InsertsPlaceDeclarations(root: Node, anchor: Node, changes: seq<InlineChange>)
    requires Contains(root, anchor) && root != anchor
    requires forall i :: 0 <= i < |changes| ==> changes[i].ExtractDeclarationChange?
    requires forall i :: 0 <= i < |changes| ==> !Contains(changes[i].declarationStatement, anchor)
    ensures Contains(Apply(root, InsertEdits(anchor, changes)), anchor)
    ensures Apply(root, InsertEdits(anchor, changes)) != anchor
    ensures forall i :: (0 <= i < |changes|
      ==> Contains(Apply(root, InsertEdits(anchor, changes)), changes[i].declarationStatement))
  {
    if changes != [] {
      var init := changes[..|changes| - 1];
      var statement := changes[|changes| - 1].declarationStatement;
      InsertsPlaceDeclarations(root, anchor, init);
      var before := Apply(root, InsertEdits(anchor, init));
      ApplySnoc(root, InsertEdits(anchor, init), InsertBeforeEdit(anchor, statement));
      assert InsertEdits(anchor, changes) == InsertEdits(anchor, init) + [InsertBeforeEdit(anchor, statement)];
      var after := Apply(root, InsertEdits(anchor, changes));
      assert after == InsertIn(before, anchor, statement);
      InsertInKeepsAnchor(before, anchor, statement);
      InsertInPlaces(before, anchor, statement);
      forall i | 0 <= i < |init|
        ensures Contains(after, changes[i].declarationStatement)
      {
        assert changes[i] == init[i];
        InsertInKeeps(before, anchor, statement, init[i].declarationStatement);
      }
    }
  }

  /** After inlining, the document holds the inline statement and every
      extracted declaration, provided the call's parent is not the root
      and the declarations are unrelated to the call and its parent. */
  lemma InlinedDocumentContents(
    root: Node, invocationParent: Node, k: nat, extractChanges: seq<InlineChange>, inlineMethodBody: Node)
    requires Contains(root, invocationParent) && root != invocationParent && k < |invocationParent.children|
    requires forall i :: 0 <= i < |extractChanges| ==> extractChanges[i].ExtractDeclarationChange?
    requires forall i :: (0 <= i < |extractChanges| ==>
      && !Contains(extractChanges[i].declarationStatement, invocationParent)
      && !Contains(extractChanges[i].declarationStatement, invocationParent.children[k])
      && !Contains(invocationParent.children[k], extractChanges[i].declarationStatement))
    ensures var document := Apply(root, InsertEdits(invocationParent, extractChanges)
                                        + [ReplaceEdit(invocationParent.children[k], inlineMethodBody)]);
      && Contains(document, inlineMethodBody)
      && forall i :: 0 <= i < |extractChanges| ==> Contains(document, extractChanges[i].declarationStatement)
  {
    var invocation := invocationParent.children[k];
    var inserted := Apply(root, InsertEdits(invocationParent, extractChanges));
    InsertsPlaceDeclarations(root, invocationParent, extractChanges);
    ApplySnoc(root, InsertEdits(invocationParent, extractChanges), ReplaceEdit(invocation, inlineMethodBody));
    var document := ReplaceIn(inserted, invocation, inlineMethodBody);
    assert Contains(invocationParent, invocation) by {
      assert Contains(invocationParent.children[k], invocation);
    }
    ContainsTransitive(inserted, invocationParent, invocation);
    ReplaceInPlaces(inserted, invocation, inlineMethodBody);
    forall i | 0 <= i < |extractChanges|
      ensures Contains(document, extractChanges[i].declarationStatement)
    {
      var d := extractChanges[i].declarationStatement;
      ReplaceInKeeps(inserted, invocation, inlineMethodBody, d);
    }
  }

  /** Inserting the declarations before a node that no sibling and no
      declaration holds places them, in change order, directly in front of
      it among its siblings. */
  lemma {:induction false} InsertsDeclarationsInOrder(root: Node, grand: Node, k: nat, changes: seq<InlineChange>)
    requires Contains(root, grand) && k < |grand.children|
    requires forall i :: 0 <= i < |grand.children| && i != k ==> !Contains(grand.children[i], grand.children[k])
    requires forall i :: 0 <= i < |changes| ==> changes[i].ExtractDeclarationChange?
    requires forall i :: 0 <= i < |changes| ==> !Contains(changes[i].declarationStatement, grand.children[k])
    ensures Contains(Apply(root, InsertEdits(grand.children[k], changes)),
                     grand.(children := grand.children[..k] + Declarations(changes) + grand.children[k..]))
    decreases |changes|
  {
    var anchor := grand.children[k];
    if changes == [] {
      assert grand.children[..k] + Declarations(changes) + grand.children[k..] == grand.children;
    } else {
      var init := changes[..|changes| - 1];
      var statement := changes[|changes| - 1].declarationStatement;
      InsertsDeclarationsInOrder(root, grand, k, init);
      var before := Apply(root, InsertEdits(anchor, init));
      var g := grand.(children := grand.children[..k] + Declarations(init) + grand.children[k..]);
      var m := k + |init|;
      SplicedChildren(grand, k, Declarations(init), anchor);
      InsertInAtChild(g, m, statement);
      ChildDoesNotContainParent(g, m);
      InsertInRebuilds(before, anchor, statement, g);
      ApplySnoc(root, InsertEdits(anchor, init), InsertBeforeEdit(anchor, statement));
      assert InsertEdits(anchor, changes) == InsertEdits(anchor, init) + [InsertBeforeEdit(anchor, statement)];
      SpliceOneMore(grand, k, changes);
    }
  }

  /** Splicing one more declaration before the anchor of a grandparent that
      already holds the earlier ones gives the splice of all of them. */
  lemma SpliceOneMore(grand: Node, k: nat, changes: seq<InlineChange>)
    requires k < |grand.children| && changes != []
    requires forall i :: 0 <= i < |changes| ==> changes[i].ExtractDeclarationChange?
    ensures var init := changes[..|changes| - 1];
      var g := grand.(children := grand.children[..k] + Declarations(init) + grand.children[k..]);
      var m := k + |init|;
      g.(children := g.children[..m] + [changes[|changes| - 1].declarationStatement] + g.children[m..])
        == grand.(children := grand.children[..k] + Declarations(changes) + grand.children[k..])
  {
    var init := changes[..|changes| - 1];
    var statement := changes[|changes| - 1].declarationStatement;
    var g := grand.(children := grand.children[..k] + Declarations(init) + grand.children[k..]);
    var m := k + |init|;
    assert Declarations(changes) == Declarations(init) + [statement];
    assert g.children[..m] == grand.children[..k] + Declarations(init);
    assert g.children[m..] == grand.children[k..];
  }

  /** After inlining, the call's grandparent holds, in order: its children
      before the call's parent, every extracted declaration in change order,
      the call's parent with the inline statement at the call's position,
      and its remaining children. This holds when the call occurs nowhere
      else under the grandparent and in no declaration. */
  lemma InlinedDocumentPlacement(
    root: Node, grand: Node, k: nat, j: nat, extractChanges: seq<InlineChange>, inlineMethodBody: Node)
    requires Contains(root, grand) && k < |grand.children| && j < |grand.children[k].children|
    requires forall i :: (0 <= i < |grand.children| && i != k
      ==> !Contains(grand.children[i], grand.children[k].children[j]))
    requires forall i :: (0 <= i < |grand.children[k].children| && i != j
      ==> !Contains(grand.children[k].children[i], grand.children[k].children[j]))
    requires forall i :: 0 <= i < |extractChanges| ==> extractChanges[i].ExtractDeclarationChange?
    requires forall i :: (0 <= i < |extractChanges|
      ==> !Contains(extractChanges[i].declarationStatement, grand.children[k].children[j]))
    ensures var parent := grand.children[k];
      var document := Apply(root, InsertEdits(parent, extractChanges)
                                  + [ReplaceEdit(parent.children[j], inlineMethodBody)]);
      Contains(document, grand.(children := grand.children[..k] + Declarations(extractChanges)
                                  + [parent.(children := parent.children[..j] + [inlineMethodBody] + parent.children[j + 1..])]
                                  + grand.children[k + 1..]))
  {
    var parent := grand.children[k];
    var invocation := parent.children[j];
    assert Contains(parent, invocation) by {
      assert Contains(parent.children[j], invocation);
    }
    forall i | 0 <= i < |grand.children| && i != k
      ensures !Contains(grand.children[i], parent)
    {
      if Contains(grand.children[i], parent) {
        ContainsTransitive(grand.children[i], parent, invocation);
      }
    }
    forall i | 0 <= i < |extractChanges|
      ensures !Contains(extractChanges[i].declarationStatement, parent)
    {
      if Contains(extractChanges[i].declarationStatement, parent) {
        ContainsTransitive(extractChanges[i].declarationStatement, parent, invocation);
      }
    }
    InsertsDeclarationsInOrder(root, grand, k, extractChanges);
    var decls := Declarations(extractChanges);
    var g := grand.(children := grand.children[..k] + decls + grand.children[k..]);
    var inserted := Apply(root, InsertEdits(parent, extractChanges));
    var m := k + |decls|;
    SplicedChildren(grand, k, decls, invocation);
    ChildDoesNotContainParent(g, m);
    assert !Contains(invocation, g) by {
      if Contains(invocation, g) {
        ContainsTransitive(parent, invocation, g);
      }
    }
    ReplaceInRebuilds(inserted, invocation, inlineMethodBody, g);
    ChildDoesNotContainParent(parent, j);
    ReplaceInOneChild(parent, j, invocation, inlineMethodBody);
    ReplaceInOneChild(g, m, invocation, inlineMethodBody);
    ApplySnoc(root, InsertEdits(parent, extractChanges), ReplaceEdit(invocation, inlineMethodBody));
    assert g.children[..m] == grand.children[..k] + decls;
    assert g.children[m + 1..] == grand.children[k + 1..];
  }
}
