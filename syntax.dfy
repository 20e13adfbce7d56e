/** Syntax trees as values and the syntax editor that records edits against
    an original root and produces the changed root on demand. */
module Syntax {

  /** A syntax node: an identity, its own text, the trivia around it and
      its children in source order. */
  datatype Node = Node(id: nat, text: string, leadingTrivia: string, trailingTrivia: string, children: seq<Node>)

  /** `n` is `root` or one of its descendants. */
  predicate Contains(root: Node, n: Node)
    decreases root
  {
    root == n || exists i :: 0 <= i < |root.children| && Contains(root.children[i], n)
  }

  /** `replacement` with the leading and trailing trivia of `node`. */
  function WithTriviaOf(replacement: Node, node: Node): (r: Node)
    ensures r.leadingTrivia == node.leadingTrivia && r.trailingTrivia == node.trailingTrivia
    ensures r.id == replacement.id && r.text == replacement.text && r.children == replacement.children
  {
    replacement.(leadingTrivia := node.leadingTrivia, trailingTrivia := node.trailingTrivia)
  }

  function Height(n: Node): nat
    decreases n, 1
  {
    1 + ChildrenHeight(n, |n.children|)
  }

  /** The greatest height among the first `k` children of `n`. */
  function ChildrenHeight(n: Node, k: nat): nat
    requires k <= |n.children|
    decreases n, 0, k
  {
    if k == 0 then 0
    else if ChildrenHeight(n, k - 1) < Height(n.children[k - 1]) then Height(n.children[k - 1])
    else ChildrenHeight(n, k - 1)
  }

  lemma {:induction false} ChildLower(n: Node, i: nat, k: nat)
    requires i < k <= |n.children|
    ensures Height(n.children[i]) <= ChildrenHeight(n, k)
    decreases k
  {
    if i < k - 1 {
      ChildLower(n, i, k - 1);
    }
  }

  /** A descendant is strictly lower than its ancestor. */
  lemma {:induction false} ContainsLower(root: Node, n: Node)
    requires Contains(root, n)
    ensures root == n || Height(n) < Height(root)
    decreases root
  {
    if root != n {
      var i :| 0 <= i < |root.children| && Contains(root.children[i], n);
      ContainsLower(root.children[i], n);
      ChildLower(root, i, |root.children|);
    }
  }

  /** A child never contains its parent. */
  lemma ChildDoesNotContainParent(parent: Node, i: nat)
    requires i < |parent.children|
    ensures !Contains(parent.children[i], parent)
  {
    ChildLower(parent, i, |parent.children|);
    if Contains(parent.children[i], parent) {
      ContainsLower(parent.children[i], parent);
    }
  }

  /** Every occurrence of `target` in `t` replaced by `replacement`. */
  function ReplaceIn(t: Node, target: Node, replacement: Node): Node
    decreases t
  {
    if t == target then replacement
    else t.(children := seq(|t.children|, i requires 0 <= i < |t.children| => ReplaceIn(t.children[i], target, replacement)))
  }

  /** `statement` inserted as a sibling immediately before each occurrence
      of `anchor` in `t`. */
  function InsertIn(t: Node, anchor: Node, statement: Node): Node
    decreases t, 1
  {
    t.(children := InsertInChildren(t, |t.children|, anchor, statement))
  }

  /** The first `k` children of `t` with `statement` placed before each one
      equal to `anchor` and the insertion carried into the others. */
  function InsertInChildren(t: Node, k: nat, anchor: Node, statement: Node): seq<Node>
    requires k <= |t.children|
    decreases t, 0, k
  {
    if k == 0 then []
    else
      InsertInChildren(t, k - 1, anchor, statement)
      + (if t.children[k - 1] == anchor then [statement, anchor]
         else [InsertIn(t.children[k - 1], anchor, statement)])
  }

  /** The two edits a syntax editor records. */
  datatype Edit =
    | ReplaceEdit(target: Node, replacement: Node)
    | InsertBeforeEdit(anchor: Node, statement: Node)

  function ApplyEdit(t: Node, e: Edit): Node {
    match e
    case ReplaceEdit(target, replacement) => ReplaceIn(t, target, replacement)
    case InsertBeforeEdit(anchor, statement) => InsertIn(t, anchor, statement)
  }

  /** The edits applied in the order they were recorded. */
  function Apply(root: Node, edits: seq<Edit>): Node {
    if edits == [] then root else ApplyEdit(Apply(root, edits[..|edits| - 1]), edits[|edits| - 1])
  }

  lemma ApplySnoc(root: Node, edits: seq<Edit>, e: Edit)
    ensures Apply(root, edits + [e]) == ApplyEdit(Apply(root, edits), e)
  {
    assert (edits + [e])[..|edits + [e]| - 1] == edits;
  }

  lemma {:induction false} ApplyConcat(root: Node, first: seq<Edit>, second: seq<Edit>)
    ensures Apply(root, first + second) == Apply(Apply(root, first), second)
    decreases |second|
  {
    if second == [] {
      assert first + second == first;
    } else {
      var init := second[..|second| - 1];
      assert first + second == (first + init) + [second[|second| - 1]];
      ApplySnoc(root, first + init, second[|second| - 1]);
      ApplyConcat(root, first, init);
      ApplySnoc(Apply(root, first), init, second[|second| - 1]);
      assert init + [second[|second| - 1]] == second;
    }
  }

  /** A tree without the target is left as it is. */
  lemma {:induction false} ReplaceInAbsent(t: Node, target: Node, replacement: Node)
    requires !Contains(t, target)
    ensures ReplaceIn(t, target, replacement) == t
    decreases t
  {
    forall i | 0 <= i < |t.children|
      ensures ReplaceIn(t.children[i], target, replacement) == t.children[i]
    {
      ReplaceInAbsent(t.children[i], target, replacement);
    }
    assert ReplaceIn(t, target, replacement).children == t.children;
  }

  /** Where the target occurs, the replacement is in the result. */
  lemma {:induction false} ReplaceInPlaces(t: Node, target: Node, replacement: Node)
    requires Contains(t, target)
    ensures Contains(ReplaceIn(t, target, replacement), replacement)
    decreases t
  {
    if t != target {
      var i :| 0 <= i < |t.children| && Contains(t.children[i], target);
      ReplaceInPlaces(t.children[i], target, replacement);
      assert ReplaceIn(t, target, replacement).children[i] == ReplaceIn(t.children[i], target, replacement);
    }
  }

  /** A subtree that neither holds the target nor lies inside it survives
      the replacement. */
  lemma {:induction false} ReplaceInKeeps(t: Node, target: Node, replacement: Node, n: Node)
    requires Contains(t, n) && !Contains(n, target) && !Contains(target, n)
    ensures Contains(ReplaceIn(t, target, replacement), n)
    decreases t
  {
    if t == n {
      ReplaceInAbsent(t, target, replacement);
    } else {
      var i :| 0 <= i < |t.children| && Contains(t.children[i], n);
      ReplaceInKeeps(t.children[i], target, replacement, n);
      assert ReplaceIn(t, target, replacement).children[i] == ReplaceIn(t.children[i], target, replacement);
    }
  }

  /** Splicing `ds` in front of the `k`-th child moves that child to
      position `k + |ds|`, and it stays the only child that can hold `x`. */
  lemma SplicedChildren(g: Node, k: nat, ds: seq<Node>, x: Node)
    requires k < |g.children|
    requires forall i :: 0 <= i < |g.children| && i != k ==> !Contains(g.children[i], x)
    requires forall i :: 0 <= i < |ds| ==> !Contains(ds[i], x)
    ensures var c := g.children[..k] + ds + g.children[k..];
      && c[k + |ds|] == g.children[k]
      && forall i :: 0 <= i < |c| && i != k + |ds| ==> !Contains(c[i], x)
  {
    var c := g.children[..k] + ds + g.children[k..];
    forall i | 0 <= i < |c| && i != k + |ds|
      ensures !Contains(c[i], x)
    {
      if i < k {
        assert c[i] == g.children[i];
      } else if i < k + |ds| {
        assert c[i] == ds[i - k];
      } else {
        assert c[i] == g.children[i - |ds|];
      }
    }
  }

  /** Every node outside the target is rebuilt in place. */
  lemma {:induction false} ReplaceInRebuilds(t: Node, target: Node, replacement: Node, n: Node)
    requires Contains(t, n) && !Contains(target, n)
    ensures Contains(ReplaceIn(t, target, replacement), ReplaceIn(n, target, replacement))
    decreases t
  {
    if t != n {
      var i :| 0 <= i < |t.children| && Contains(t.children[i], n);
      ReplaceInRebuilds(t.children[i], target, replacement, n);
      assert ReplaceIn(t, target, replacement).children[i] == ReplaceIn(t.children[i], target, replacement);
    }
  }

  /** Replacing inside the one child that can hold the target rebuilds
      that child and leaves its siblings as they are. */
  lemma ReplaceInOneChild(g: Node, k: nat, target: Node, replacement: Node)
    requires k < |g.children| && g != target
    requires forall i :: 0 <= i < |g.children| && i != k ==> !Contains(g.children[i], target)
    ensures ReplaceIn(g, target, replacement)
         == g.(children := g.children[..k] + [ReplaceIn(g.children[k], target, replacement)] + g.children[k + 1..])
  {
    forall i | 0 <= i < |g.children| && i != k
      ensures ReplaceIn(g.children[i], target, replacement) == g.children[i]
    {
      ReplaceInAbsent(g.children[i], target, replacement);
    }
  }

  lemma {:induction false} ContainsTransitive(a: Node, b: Node, c: Node)
    requires Contains(a, b) && Contains(b, c)
    ensures Contains(a, c)
    decreases a
  {
    if a != b {
      var i :| 0 <= i < |a.children| && Contains(a.children[i], b);
      ContainsTransitive(a.children[i], b, c);
    }
  }

  /** `statement` sits directly in front of `anchor` among `siblings`. */
  predicate ImmediatelyBefore(siblings: seq<Node>, statement: Node, anchor: Node) {
    exists j :: 0 <= j < |siblings| - 1 && siblings[j] == statement && siblings[j + 1] == anchor
  }

  /** What becomes of the `i`-th child: an anchor is kept with the statement
      in front of it, any other child is carried through the insertion. */
  lemma {:induction false} InsertInChildrenHas(t: Node, k: nat, i: nat, anchor: Node, statement: Node)
    requires i < k <= |t.children|
    ensures t.children[i] == anchor ==> ImmediatelyBefore(InsertInChildren(t, k, anchor, statement), statement, anchor)
    ensures t.children[i] == anchor ==> anchor in InsertInChildren(t, k, anchor, statement)
    ensures t.children[i] != anchor ==> InsertIn(t.children[i], anchor, statement) in InsertInChildren(t, k, anchor, statement)
    decreases k
  {
    var prefix := InsertInChildren(t, k - 1, anchor, statement);
    var result := InsertInChildren(t, k, anchor, statement);
    if i < k - 1 {
      InsertInChildrenHas(t, k - 1, i, anchor, statement);
      assert result[..|prefix|] == prefix;
      if t.children[i] == anchor {
        var j :| 0 <= j < |prefix| - 1 && prefix[j] == statement && prefix[j + 1] == anchor;
        assert result[j] == statement && result[j + 1] == anchor;
      }
    } else if t.children[i] == anchor {
      assert result[|prefix|] == statement && result[|prefix| + 1] == anchor;
    } else {
      assert result[|prefix|] == InsertIn(t.children[i], anchor, statement);
    }
  }

  /** A tree without the anchor is left as it is. */
  lemma {:induction false} InsertInAbsent(t: Node, anchor: Node, statement: Node)
    requires !Contains(t, anchor)
    ensures InsertIn(t, anchor, statement) == t
    decreases t, 1
  {
    InsertInChildrenAbsent(t, |t.children|, anchor, statement);
    assert t.children[..|t.children|] == t.children;
  }

  lemma {:induction false} InsertInChildrenAbsent(t: Node, k: nat, anchor: Node, statement: Node)
    requires k <= |t.children|
    requires forall i :: 0 <= i < k ==> !Contains(t.children[i], anchor)
    ensures InsertInChildren(t, k, anchor, statement) == t.children[..k]
    decreases t, 0, k
  {
    if k > 0 {
      InsertInChildrenAbsent(t, k - 1, anchor, statement);
      InsertInAbsent(t.children[k - 1], anchor, statement);
      assert t.children[..k] == t.children[..k - 1] + [t.children[k - 1]];
    }
  }

  /** When the anchor has a parent in `t`, the statement is in the result. */
  lemma {:induction false} InsertInPlaces(t: Node, anchor: Node, statement: Node)
    requires Contains(t, anchor) && t != anchor
    ensures Contains(InsertIn(t, anchor, statement), statement)
    decreases t
  {
    var i :| 0 <= i < |t.children| && Contains(t.children[i], anchor);
    var r := InsertIn(t, anchor, statement);
    InsertInChildrenHas(t, |t.children|, i, anchor, statement);
    if t.children[i] == anchor {
      var j :| 0 <= j < |r.children| - 1 && r.children[j] == statement && r.children[j + 1] == anchor;
      assert Contains(r.children[j], statement);
    } else {
      InsertInPlaces(t.children[i], anchor, statement);
      var j :| 0 <= j < |r.children| && r.children[j] == InsertIn(t.children[i], anchor, statement);
    }
  }

  /** A subtree that does not hold the anchor survives the insertion. */
  lemma {:induction false} InsertInKeeps(t: Node, anchor: Node, statement: Node, n: Node)
    requires Contains(t, n) && !Contains(n, anchor)
    ensures Contains(InsertIn(t, anchor, statement), n)
    decreases t
  {
    if t == n {
      InsertInAbsent(t, anchor, statement);
    } else {
      var i :| 0 <= i < |t.children| && Contains(t.children[i], n);
      var r := InsertIn(t, anchor, statement);
      InsertInChildrenHas(t, |t.children|, i, anchor, statement);
      if t.children[i] == anchor {
        var j :| 0 <= j < |r.children| && r.children[j] == anchor;
      } else {
        InsertInKeeps(t.children[i], anchor, statement, n);
        var j :| 0 <= j < |r.children| && r.children[j] == InsertIn(t.children[i], anchor, statement);
      }
    }
  }

  /** The parent of the anchor ends up with the statement directly in front
      of the anchor, and that rebuilt parent is in the result. */
  lemma {:induction false} InsertInBeforeAnchor(t: Node, parent: Node, i: nat, statement: Node)
    requires Contains(t, parent) && i < |parent.children|
    ensures ImmediatelyBefore(InsertIn(parent, parent.children[i], statement).children, statement, parent.children[i])
    ensures Contains(InsertIn(t, parent.children[i], statement), InsertIn(parent, parent.children[i], statement))
  {
    InsertInChildrenHas(parent, |parent.children|, i, parent.children[i], statement);
    ChildDoesNotContainParent(parent, i);
    InsertInRebuilds(t, parent.children[i], statement, parent);
  }

  /** Every node outside the anchor is rebuilt in place. */
  lemma {:induction false} InsertInRebuilds(t: Node, anchor: Node, statement: Node, n: Node)
    requires Contains(t, n) && !Contains(anchor, n)
    ensures Contains(InsertIn(t, anchor, statement), InsertIn(n, anchor, statement))
    decreases t
  {
    if t != n {
      var i :| 0 <= i < |t.children| && Contains(t.children[i], n);
      var r := InsertIn(t, anchor, statement);
      InsertInChildrenHas(t, |t.children|, i, anchor, statement);
      if t.children[i] == anchor {
        assert false;
      } else {
        InsertInRebuilds(t.children[i], anchor, statement, n);
        var j :| 0 <= j < |r.children| && r.children[j] == InsertIn(t.children[i], anchor, statement);
      }
    }
  }

  /** Inserting before a child that is the only one holding the anchor
      puts the statement directly in front of that child and leaves the
      other children as they are. */
  lemma InsertInAtChild(g: Node, k: nat, statement: Node)
    requires k < |g.children|
    requires forall i :: 0 <= i < |g.children| && i != k ==> !Contains(g.children[i], g.children[k])
    ensures InsertIn(g, g.children[k], statement) == g.(children := g.children[..k] + [statement] + g.children[k..])
  {
    InsertInChildrenAfter(g, k, |g.children|, statement);
    assert g.children[k..|g.children|] == g.children[k..];
  }

  lemma {:induction false} InsertInChildrenAfter(g: Node, k: nat, m: nat, statement: Node)
    requires k < m <= |g.children|
    requires forall i :: 0 <= i < |g.children| && i != k ==> !Contains(g.children[i], g.children[k])
    ensures InsertInChildren(g, m, g.children[k], statement) == g.children[..k] + [statement] + g.children[k..m]
    decreases m
  {
    var anchor := g.children[k];
    if m == k + 1 {
      InsertInChildrenAbsent(g, k, anchor, statement);
      assert g.children[k..m] == [anchor];
    } else {
      InsertInChildrenAfter(g, k, m - 1, statement);
      assert g.children[m - 1] != anchor by {
        assert Contains(g.children[m - 1], g.children[m - 1]);
      }
      InsertInAbsent(g.children[m - 1], anchor, statement);
      assert g.children[k..m] == g.children[k..m - 1] + [g.children[m - 1]];
    }
  }

  /** The anchor itself survives an insertion below a proper ancestor, and
      stays strictly below the rebuilt tree. */
  lemma {:induction false} InsertInKeepsAnchor(t: Node, anchor: Node, statement: Node)
    requires Contains(t, anchor) && t != anchor
    ensures Contains(InsertIn(t, anchor, statement), anchor)
    ensures InsertIn(t, anchor, statement) != anchor
    decreases t
  {
    var i :| 0 <= i < |t.children| && Contains(t.children[i], anchor);
    var r := InsertIn(t, anchor, statement);
    InsertInChildrenHas(t, |t.children|, i, anchor, statement);
    var j: nat;
    if t.children[i] == anchor {
      j :| 0 <= j < |r.children| && r.children[j] == anchor;
    } else {
      InsertInKeepsAnchor(t.children[i], anchor, statement);
      j :| 0 <= j < |r.children| && r.children[j] == InsertIn(t.children[i], anchor, statement);
    }
    assert Contains(r.children[j], anchor);
    ChildDoesNotContainParent(r, j);
  }

  /** An editor over a fixed original root. Edits are recorded in order;
      the changed root is the original with every edit applied in turn. */
  /** A log may be split anywhere: its first part is applied, then the
      rest. */
  lemma ApplySplit(root: Node, edits: seq<Edit>)
    ensures forall i :: 0 <= i <= |edits| ==> Apply(root, edits) == Apply(Apply(root, edits[..i]), edits[i..])
  {
    forall i | 0 <= i <= |edits|
      ensures Apply(root, edits) == Apply(Apply(root, edits[..i]), edits[i..])
    {
      ApplyConcat(root, edits[..i], edits[i..]);
      assert edits[..i] + edits[i..] == edits;
    }
  }

  class SyntaxEditor {
    const OriginalRoot: Node
    var edits: seq<Edit>

    constructor (root: Node)
      ensures OriginalRoot == root && edits == []
    {
      OriginalRoot := root;
      edits := [];
    }

    /** Records the replacement of `node`, which must belong to the
        original root. */
    method ReplaceNode(node: Node, newNode: Node)
      requires Contains(OriginalRoot, node)
      modifies this
      ensures edits == old(edits) + [ReplaceEdit(node, newNode)]
    {
      edits := edits + [ReplaceEdit(node, newNode)];
    }

    /** Records the insertion of `newNode` before `node`, which must belong
        to the original root. */
    method InsertBefore(node: Node, newNode: Node)
      requires Contains(OriginalRoot, node)
      modifies this
      ensures edits == old(edits) + [InsertBeforeEdit(node, newNode)]
    {
      edits := edits + [InsertBeforeEdit(node, newNode)];
    }

    /** The original root with the recorded edits applied in the order
        they were recorded. */
    function GetChangedRoot(): (r: Node)
      reads this
      ensures edits == [] ==> r == OriginalRoot
      ensures forall i :: 0 <= i <= |edits| ==> r == Apply(Apply(OriginalRoot, edits[..i]), edits[i..])
    {
      ApplySplit(OriginalRoot, edits);
      Apply(OriginalRoot, edits)
    }
  }
}
