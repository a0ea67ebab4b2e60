/**
 The shape of the free-block tree: colours, order and black heights, and the contexts the
 insertion fix-up climbs through. Everything here is about values; RbTree ties it to the heap.
 */
module RbShape {

  datatype Color = Red | Black

  /** free_block_metadata. The size of a block does not change while it sits in the tree. */
  class Node {
    const size: nat
    var color: Color
    var left: Node?
    var right: Node?
    var parent: Node?

    constructor (size: nat)
    {
      this.size := size;
      color, left, right, parent := Red, null, null, null;
    }
  }

  datatype Tree = Leaf | Branch(left: Tree, color: Color, node: Node, right: Tree)

  /** A tree with a hole: the way from the hole up to the root. */
  datatype Context =
    | Top
    | InLeft(up: Context, color: Color, node: Node, right: Tree)
    | InRight(left: Tree, color: Color, node: Node, up: Context)

  ghost function Plug(c: Context, t: Tree): Tree {
    match c
    case Top => t
    case InLeft(up, color, x, r) => Plug(up, Branch(t, color, x, r))
    case InRight(l, color, x, up) => Plug(up, Branch(l, color, x, t))
  }

  // ----- the nodes, in order -----

  ghost function Nodes(t: Tree): set<Node> {
    match t
    case Leaf => {}
    case Branch(l, _, x, r) => Nodes(l) + {x} + Nodes(r)
  }

  ghost function ContextNodes(c: Context): set<Node> {
    match c
    case Top => {}
    case InLeft(up, _, x, r) => {x} + Nodes(r) + ContextNodes(up)
    case InRight(l, _, x, up) => {x} + Nodes(l) + ContextNodes(up)
  }

  ghost predicate Distinct(t: Tree) {
    match t
    case Leaf => true
    case Branch(l, _, x, r) =>
      Distinct(l) && Distinct(r) && x !in Nodes(l) && x !in Nodes(r) && Nodes(l) !! Nodes(r)
  }

  ghost predicate ContextDistinct(c: Context) {
    match c
    case Top => true
    case InLeft(up, _, x, r) =>
      Distinct(r) && ContextDistinct(up) && x !in Nodes(r) && x !in ContextNodes(up) && Nodes(r) !! ContextNodes(up)
    case InRight(l, _, x, up) =>
      Distinct(l) && ContextDistinct(up) && x !in Nodes(l) && x !in ContextNodes(up) && Nodes(l) !! ContextNodes(up)
  }

  /** The path from the root that follows right links only. */
  ghost function RightSpine(t: Tree): seq<Node> {
    match t
    case Leaf => []
    case Branch(_, _, x, r) => [x] + RightSpine(r)
  }

  ghost function Inorder(t: Tree): seq<Node> {
    match t
    case Leaf => []
    case Branch(l, _, x, r) => Inorder(l) + [x] + Inorder(r)
  }

  /** What stands before and after the hole in order. */
  ghost function Before(c: Context): seq<Node> {
    match c
    case Top => []
    case InLeft(up, _, _, _) => Before(up)
    case InRight(l, _, x, up) => Before(up) + Inorder(l) + [x]
  }

  ghost function After(c: Context): seq<Node> {
    match c
    case Top => []
    case InLeft(up, _, x, r) => [x] + Inorder(r) + After(up)
    case InRight(_, _, _, up) => After(up)
  }

  lemma Regroup<T>(a: seq<T>, b: seq<T>, c: seq<T>, d: seq<T>, e: seq<T>)
    ensures a + (b + c + d) + e == a + b + (c + d + e) == (a + b + c) + d + e
  {
  }

  lemma {:induction false} InorderPlug(c: Context, t: Tree)
    ensures Inorder(Plug(c, t)) == Before(c) + Inorder(t) + After(c)
  {
    match c
    case Top =>
    case InLeft(up, color, x, r) =>
      InorderPlug(up, Branch(t, color, x, r));
      Regroup(Before(up), Inorder(t), [x], Inorder(r), After(up));
    case InRight(l, color, x, up) =>
      InorderPlug(up, Branch(l, color, x, t));
      Regroup(Before(up), Inorder(l), [x], Inorder(t), After(up));
  }

  lemma {:induction false} NodesPlug(c: Context, t: Tree)
    ensures Nodes(Plug(c, t)) == ContextNodes(c) + Nodes(t)
    ensures Distinct(Plug(c, t)) <==> ContextDistinct(c) && Distinct(t) && ContextNodes(c) !! Nodes(t)
  {
    match c
    case Top =>
    case InLeft(up, color, x, r) => NodesPlug(up, Branch(t, color, x, r));
    case InRight(l, color, x, up) => NodesPlug(up, Branch(l, color, x, t));
  }

  ghost predicate SortedBySize(s: seq<Node>) {
    forall i, j :: 0 <= i < j < |s| ==> s[i].size <= s[j].size
  }

  // ----- red-black balance -----

  predicate IsRed(t: Tree) {
    t.Branch? && t.color == Red
  }

  function BlackHeight(t: Tree): nat {
    match t
    case Leaf => 0
    case Branch(l, color, _, _) => BlackHeight(l) + (if color == Black then 1 else 0)
  }

  predicate Balanced(t: Tree) {
    match t
    case Leaf => true
    case Branch(l, color, _, r) =>
      Balanced(l) && Balanced(r) && BlackHeight(l) == BlackHeight(r) &&
      (color == Red ==> !IsRed(l) && !IsRed(r))
  }

  /** The colours met on a way from the root of t down to an empty place. */
  ghost predicate IsPath(t: Tree, colors: seq<Color>)
    decreases t
  {
    match t
    case Leaf => colors == []
    case Branch(l, color, _, r) =>
      colors != [] && colors[0] == color && (IsPath(l, colors[1..]) || IsPath(r, colors[1..]))
  }

  ghost function CountBlack(colors: seq<Color>): nat {
    if colors == [] then 0 else (if colors[0] == Black then 1 else 0) + CountBlack(colors[1..])
  }

  ghost predicate NoAdjacentReds(colors: seq<Color>) {
    forall i :: 0 <= i < |colors| - 1 ==> colors[i] == Black || colors[i + 1] == Black
  }

  /** The textbook conditions: every path counts n black nodes, and no red follows a red. */
  ghost predicate PathsAgree(t: Tree, n: nat) {
    forall colors :: IsPath(t, colors) ==> CountBlack(colors) == n && NoAdjacentReds(colors)
  }

  lemma {:induction false} BalancedPaths(t: Tree, colors: seq<Color>)
    requires Balanced(t) && IsPath(t, colors)
    ensures CountBlack(colors) == BlackHeight(t) && NoAdjacentReds(colors)
    ensures colors != [] ==> t.Branch? && colors[0] == t.color
    decreases t
  {
    if t.Branch? {
      var child := if IsPath(t.left, colors[1..]) then t.left else t.right;
      BalancedPaths(child, colors[1..]);
      forall i | 0 <= i < |colors| - 1
        ensures colors[i] == Black || colors[i + 1] == Black
      {
        assert colors[i + 1] == colors[1..][i];
        if i > 0 { assert colors[i] == colors[1..][i - 1]; }
      }
    }
  }

  lemma {:induction false} SomePath(t: Tree) returns (colors: seq<Color>)
    ensures IsPath(t, colors) && CountBlack(colors) == BlackHeight(t)
  {
    match t
    case Leaf => colors := [];
    case Branch(l, color, _, _) =>
      var rest := SomePath(l);
      colors := [color] + rest;
      assert colors[1..] == rest;
  }

  lemma {:induction false} PathsBalanced(t: Tree, n: nat)
    requires PathsAgree(t, n)
    ensures Balanced(t) && BlackHeight(t) == n
    decreases t
  {
    var some := SomePath(t);
    if t.Branch? {
      var own := if t.color == Black then 1 else 0;
      ChildPaths(t, t.left, n);
      ChildPaths(t, t.right, n);
      PathsBalanced(t.left, n - own);
      PathsBalanced(t.right, n - own);
    }
  }

  lemma ChildPaths(t: Tree, child: Tree, n: nat)
    requires t.Branch? && PathsAgree(t, n) && (child == t.left || child == t.right)
    ensures n >= (if t.color == Black then 1 else 0)
    ensures PathsAgree(child, n - if t.color == Black then 1 else 0)
    ensures t.color == Red ==> !IsRed(child)
  {
    var own := if t.color == Black then 1 else 0;
    forall colors | IsPath(child, colors)
      ensures CountBlack(colors) == n - own && NoAdjacentReds(colors)
      ensures t.color == Red && colors != [] ==> colors[0] == Black
    {
      var whole := [t.color] + colors;
      assert whole[1..] == colors && IsPath(t, whole);
      assert forall i :: 0 <= i < |colors| ==> colors[i] == whole[i + 1];
      if colors != [] { assert whole[0] == Black || whole[0 + 1] == Black; }
    }
    var some := SomePath(child);
  }

  /** The recursive balance condition is the textbook one. */
  lemma BalancedExactly(t: Tree)
    ensures Balanced(t) <==> PathsAgree(t, BlackHeight(t))
  {
    if Balanced(t) {
      forall colors | IsPath(t, colors)
        ensures CountBlack(colors) == BlackHeight(t) && NoAdjacentReds(colors)
      {
        BalancedPaths(t, colors);
      }
    }
    if PathsAgree(t, BlackHeight(t)) { PathsBalanced(t, BlackHeight(t)); }
  }

  // ----- contexts that accept a subtree of a given black height -----

  predicate BlackAbove(c: Context) {
    c.Top? || c.color == Black
  }

  /** Any balanced tree of black height h fits the hole, if it may be red only under a black node. */
  ghost predicate Accepts(c: Context, h: nat) {
    match c
    case Top => true
    case InLeft(up, color, _, t) =>
      Balanced(t) && BlackHeight(t) == h && (color == Red ==> !IsRed(t) && up != Top && BlackAbove(up)) &&
      Accepts(up, h + if color == Black then 1 else 0)
    case InRight(t, color, _, up) =>
      Balanced(t) && BlackHeight(t) == h && (color == Red ==> !IsRed(t) && up != Top && BlackAbove(up)) &&
      Accepts(up, h + if color == Black then 1 else 0)
  }

  lemma {:induction false} PlugBalanced(c: Context, t: Tree)
    requires Balanced(t) && Accepts(c, BlackHeight(t)) && (IsRed(t) ==> BlackAbove(c))
    ensures Balanced(Plug(c, t))
    ensures c != Top ==> !IsRed(Plug(c, t))
  {
    match c
    case Top =>
    case InLeft(up, color, x, r) => PlugBalanced(up, Branch(t, color, x, r));
    case InRight(l, color, x, up) => PlugBalanced(up, Branch(l, color, x, t));
  }
}
