/**
 The heap of tree nodes as a value: what each node's fields contain. Trees are related to
 stores here, so that the effect of a pointer write is the effect of a map update.
 */
module RbStore {
  import opened RbShape

  datatype Cell = Cell(left: Node?, right: Node?, parent: Node?, color: Color)

  datatype Store = Store(root: Node?, cells: map<Node, Cell>)

  /** The store below n, whose parent is p, is the tree t. */
  ghost predicate Holds(cells: map<Node, Cell>, n: Node?, p: Node?, t: Tree)
    decreases t
  {
    match t
    case Leaf => n == null
    case Branch(l, color, x, r) =>
      n == x && x in cells && cells[x].color == color && cells[x].parent == p &&
      Holds(cells, cells[x].left, x, l) && Holds(cells, cells[x].right, x, r)
  }

  /** The store around the hole is the context c; the hole's link contains n, its parent is p. */
  ghost predicate Around(s: Store, c: Context, n: Node?, p: Node?)
    decreases c
  {
    match c
    case Top => s.root == n && p == null
    case InLeft(up, color, x, r) =>
      p == x && x in s.cells && s.cells[x].left == n && s.cells[x].color == color &&
      Holds(s.cells, s.cells[x].right, x, r) && Around(s, up, x, s.cells[x].parent)
    case InRight(l, color, x, up) =>
      p == x && x in s.cells && s.cells[x].right == n && s.cells[x].color == color &&
      Holds(s.cells, s.cells[x].left, x, l) && Around(s, up, x, s.cells[x].parent)
  }

  /** The store is the tree t plugged into the context c, every node once. */
  ghost predicate Split(s: Store, c: Context, n: Node?, p: Node?, t: Tree) {
    Around(s, c, n, p) && Holds(s.cells, n, p, t) &&
    ContextDistinct(c) && Distinct(t) && ContextNodes(c) !! Nodes(t)
  }

  /** The whole store is the tree t. */
  ghost predicate Represents(s: Store, t: Tree) {
    Holds(s.cells, s.root, null, t) && Distinct(t) && s.cells.Keys == Nodes(t)
  }

  lemma {:induction false} HoldsFrame(cells: map<Node, Cell>, cells': map<Node, Cell>, n: Node?, p: Node?, t: Tree)
    requires Holds(cells, n, p, t)
    requires forall x :: x in Nodes(t) && x in cells ==> x in cells' && cells'[x] == cells[x]
    ensures Holds(cells', n, p, t)
    decreases t
  {
    match t
    case Leaf =>
    case Branch(l, _, x, r) =>
      HoldsFrame(cells, cells', cells[x].left, x, l);
      HoldsFrame(cells, cells', cells[x].right, x, r);
  }

  lemma {:induction false} AroundFrame(s: Store, s': Store, c: Context, n: Node?, p: Node?)
    requires Around(s, c, n, p)
    requires forall x :: x in ContextNodes(c) && x in s.cells ==> x in s'.cells && s'.cells[x] == s.cells[x]
    requires s'.root == s.root
    ensures Around(s', c, n, p)
    decreases c
  {
    match c
    case Top =>
    case InLeft(up, _, x, r) =>
      HoldsFrame(s.cells, s'.cells, s.cells[x].right, x, r);
      AroundFrame(s, s', up, x, s.cells[x].parent);
    case InRight(l, _, x, up) =>
      HoldsFrame(s.cells, s'.cells, s.cells[x].left, x, l);
      AroundFrame(s, s', up, x, s.cells[x].parent);
  }

  /** Leaving the hole: the context closes over the tree. */
  lemma {:induction false} Join(s: Store, c: Context, n: Node?, p: Node?, t: Tree)
    requires Split(s, c, n, p, t)
    ensures Split(s, Top, s.root, null, Plug(c, t))
    decreases c
  {
    NodesPlug(c, t);
    match c
    case Top =>
    case InLeft(up, color, x, r) => Join(s, up, x, s.cells[x].parent, Branch(t, color, x, r));
    case InRight(l, color, x, up) => Join(s, up, x, s.cells[x].parent, Branch(l, color, x, t));
  }

  // ----- rotations -----

  /** A left rotation at a: its right child b takes its place, b's left child goes to a. */
  ghost predicate CanRotateLeft(s: Store, a: Node) {
    a in s.cells &&
    var b, p := s.cells[a].right, s.cells[a].parent;
    b != null && b in s.cells && b != a && p != a && p != b &&
    var inner := s.cells[b].left;
    inner != a && inner != b && (inner != null ==> inner in s.cells && inner != p) &&
    (p != null ==> p in s.cells)
  }

  ghost predicate CanRotateRight(s: Store, a: Node) {
    a in s.cells &&
    var b, p := s.cells[a].left, s.cells[a].parent;
    b != null && b in s.cells && b != a && p != a && p != b &&
    var inner := s.cells[b].right;
    inner != a && inner != b && (inner != null ==> inner in s.cells && inner != p) &&
    (p != null ==> p in s.cells)
  }

  /** The parent's link, or the root, is turned from a to b. */
  ghost function Relink(s: Store, p: Node?, a: Node, b: Node): Store
    requires p != null ==> p in s.cells
  {
    if p == null then s.(root := b)
    else
      var cell := s.cells[p];
      s.(cells := s.cells[p := if cell.left == a then cell.(left := b) else cell.(right := b)])
  }

  ghost function Adopt(cells: map<Node, Cell>, n: Node?, p: Node): map<Node, Cell>
    requires n != null ==> n in cells
  {
    if n == null then cells else cells[n := cells[n].(parent := p)]
  }

  ghost function RotatedLeft(s: Store, a: Node): (s': Store)
    requires CanRotateLeft(s, a)
    ensures s'.cells.Keys == s.cells.Keys
  {
    var b: Node, p := s.cells[a].right, s.cells[a].parent;
    var inner := s.cells[b].left;
    var cells := s.cells[a := s.cells[a].(right := inner, parent := b)][b := s.cells[b].(left := a, parent := p)];
    Relink(s.(cells := Adopt(cells, inner, a)), p, a, b)
  }

  ghost function RotatedRight(s: Store, a: Node): (s': Store)
    requires CanRotateRight(s, a)
    ensures s'.cells.Keys == s.cells.Keys
  {
    var b: Node, p := s.cells[a].left, s.cells[a].parent;
    var inner := s.cells[b].right;
    var cells := s.cells[a := s.cells[a].(left := inner, parent := b)][b := s.cells[b].(right := a, parent := p)];
    Relink(s.(cells := Adopt(cells, inner, a)), p, a, b)
  }

  /** The entries a rotation writes, and that it writes no others. */
  ghost predicate RotationEffect(s: Store, s': Store, a: Node, b: Node, inner: Node?, p: Node?)
    requires a in s.cells && (p != null ==> p in s.cells)
  {
    s'.cells.Keys == s.cells.Keys && s'.root == (if p == null then b else s.root) &&
    (inner != null && inner in s.cells ==> s'.cells[inner] == s.cells[inner].(parent := a)) &&
    (forall x :: x in s.cells && x != a && x != b && x != inner ==> s'.cells[x] == Relink(s, p, a, b).cells[x]) &&
    (forall x :: x in s.cells && x != p ==> Relink(s, p, a, b).cells[x] == s.cells[x])
  }

  lemma RotatedLeftEffect(s: Store, a: Node)
    requires CanRotateLeft(s, a)
    ensures var b: Node, p := s.cells[a].right, s.cells[a].parent;
            RotationEffect(s, RotatedLeft(s, a), a, b, s.cells[b].left, p) &&
            RotatedLeft(s, a).cells[a] == s.cells[a].(right := s.cells[b].left, parent := b) &&
            RotatedLeft(s, a).cells[b] == s.cells[b].(left := a, parent := p)
  {
  }

  lemma RotatedRightEffect(s: Store, a: Node)
    requires CanRotateRight(s, a)
    ensures var b: Node, p := s.cells[a].left, s.cells[a].parent;
            RotationEffect(s, RotatedRight(s, a), a, b, s.cells[b].right, p) &&
            RotatedRight(s, a).cells[a] == s.cells[a].(left := s.cells[b].right, parent := b) &&
            RotatedRight(s, a).cells[b] == s.cells[b].(right := a, parent := p)
  {
  }

  lemma HoldsAdopt(cells: map<Node, Cell>, cells': map<Node, Cell>, n: Node?, p: Node?, q: Node, t: Tree)
    requires Holds(cells, n, p, t) && Distinct(t)
    requires forall x :: x in Nodes(t) && x in cells ==>
      x in cells' && cells'[x] == if x == n then cells[x].(parent := q) else cells[x]
    ensures Holds(cells', n, q, t)
  {
    if t.Branch? {
      HoldsFrame(cells, cells', cells[t.node].left, t.node, t.left);
      HoldsFrame(cells, cells', cells[t.node].right, t.node, t.right);
    }
  }

  /** Turning the link above the hole keeps the context. */
  lemma AroundRelink(s: Store, s': Store, c: Context, a: Node, b: Node, p: Node?)
    requires Around(s, c, a, p) && ContextDistinct(c) && a !in ContextNodes(c)
    requires p != null ==> p in s.cells
    requires p == null ==> s'.root == b
    requires p != null ==> s'.root == s.root
    requires forall x :: x in ContextNodes(c) && x in s.cells ==>
      x in s'.cells && s'.cells[x] == Relink(s, p, a, b).cells[x]
    ensures Around(s', c, b, p)
  {
    match c
    case Top =>
    case InLeft(up, _, x, r) =>
      HoldsFrame(s.cells, s'.cells, s.cells[x].right, x, r);
      AroundFrame(s, s', up, x, s.cells[x].parent);
    case InRight(l, _, x, up) =>
      LeftChildIsNot(s.cells, s.cells[x].left, x, l, a);
      HoldsFrame(s.cells, s'.cells, s.cells[x].left, x, l);
      AroundFrame(s, s', up, x, s.cells[x].parent);
  }

  lemma LeftChildIsNot(cells: map<Node, Cell>, n: Node?, p: Node?, t: Tree, a: Node)
    requires Holds(cells, n, p, t) && a !in Nodes(t)
    ensures n != a
  {
  }

  /** The three subtrees and two nodes of a rotation, kept apart from one another and from the context. */
  ghost predicate Apart(c: Context, a: Node, b: Node, x: Tree, y: Tree, z: Tree) {
    a != b && a !in Nodes(x) + Nodes(y) + Nodes(z) && b !in Nodes(x) + Nodes(y) + Nodes(z) &&
    Nodes(x) !! Nodes(y) && Nodes(x) !! Nodes(z) && Nodes(y) !! Nodes(z) &&
    Distinct(x) && Distinct(y) && Distinct(z) &&
    a !in ContextNodes(c) && b !in ContextNodes(c) && Nodes(x) + Nodes(y) + Nodes(z) !! ContextNodes(c)
  }

  lemma ApartLeft(c: Context, t: Tree)
    requires t.Branch? && t.right.Branch?
    ensures Distinct(t) && ContextNodes(c) !! Nodes(t)
            <==> Apart(c, t.node, t.right.node, t.left, t.right.left, t.right.right)
  {
    assert Nodes(t.right) == Nodes(t.right.left) + {t.right.node} + Nodes(t.right.right);
    assert Distinct(t) ==> Distinct(t.right);
  }

  lemma ApartRight(c: Context, t: Tree)
    requires t.Branch? && t.left.Branch?
    ensures Distinct(t) && ContextNodes(c) !! Nodes(t)
            <==> Apart(c, t.node, t.left.node, t.left.left, t.left.right, t.right)
  {
    assert Nodes(t.left) == Nodes(t.left.left) + {t.left.node} + Nodes(t.left.right);
    assert Distinct(t) ==> Distinct(t.left);
  }

  lemma HoldsBranch(cells: map<Node, Cell>, n: Node?, p: Node?, t: Tree)
    requires t.Branch? && Holds(cells, n, p, t)
    ensures n == t.node && t.node in cells && cells[t.node].color == t.color && cells[t.node].parent == p
    ensures Holds(cells, cells[t.node].left, t.node, t.left) && Holds(cells, cells[t.node].right, t.node, t.right)
  {
  }

  lemma MakeBranch(cells: map<Node, Cell>, p: Node?, t: Tree)
    requires t.Branch? && t.node in cells && cells[t.node].color == t.color && cells[t.node].parent == p
    requires Holds(cells, cells[t.node].left, t.node, t.left) && Holds(cells, cells[t.node].right, t.node, t.right)
    ensures Holds(cells, t.node, p, t)
  {
  }

  lemma ParentInContext(s: Store, c: Context, n: Node?, p: Node?)
    requires Around(s, c, n, p)
    ensures p != null ==> p in ContextNodes(c) && p in s.cells
  {
  }

  lemma RootOf(cells: map<Node, Cell>, n: Node?, p: Node?, t: Tree)
    requires Holds(cells, n, p, t)
    ensures n != null ==> n in Nodes(t) && n in cells
    ensures n == null <==> t == Leaf
  {
  }

  /** Trees clear of the written entries survive a rotation; the inner one changes its parent. */
  lemma RotationKeeps(s: Store, s': Store, c: Context, a: Node, b: Node, inner: Node?, p: Node?, x: Tree, y: Tree,
                      z: Tree, nx: Node?, px: Node?, nz: Node?, pz: Node?)
    requires a in s.cells && (p != null ==> p in s.cells && p in ContextNodes(c))
    requires RotationEffect(s, s', a, b, inner, p) && Apart(c, a, b, x, y, z)
    requires Holds(s.cells, nx, px, x) && Holds(s.cells, inner, b, y) && Holds(s.cells, nz, pz, z)
    requires inner != null ==> inner in Nodes(y) && inner in s.cells
    ensures Holds(s'.cells, nx, px, x) && Holds(s'.cells, inner, a, y) && Holds(s'.cells, nz, pz, z)
  {
    hide Nodes, Distinct, ContextDistinct, ContextNodes, Relink, Holds;
    HoldsFrame(s.cells, s'.cells, nx, px, x);
    HoldsFrame(s.cells, s'.cells, nz, pz, z);
    HoldsAdopt(s.cells, s'.cells, inner, b, a, y);
  }

  /** The rotation on the pointers is the rotation of the tree in its context. */
  lemma RotateLeftTree(s: Store, c: Context, p: Node?, t: Tree)
    requires t.Branch? && t.right.Branch? && Split(s, c, t.node, p, t)
    ensures CanRotateLeft(s, t.node)
    ensures Split(RotatedLeft(s, t.node), c, t.right.node, p,
                  Branch(Branch(t.left, t.color, t.node, t.right.left), t.right.color, t.right.node, t.right.right))
  {
    var x, a, y, b, z := t.left, t.node, t.right.left, t.right.node, t.right.right;
    var t' := Branch(Branch(x, t.color, a, y), t.right.color, b, z);
    ApartLeft(c, t);
    ApartRight(c, t');
    ParentInContext(s, c, a, p);
    HoldsBranch(s.cells, a, p, t);
    HoldsBranch(s.cells, s.cells[a].right, a, t.right);
    var inner := s.cells[b].left;
    RootOf(s.cells, inner, b, y);
    assert CanRotateLeft(s, a);
    var s' := RotatedLeft(s, a);
    RotatedLeftEffect(s, a);
    hide Nodes, Distinct, ContextDistinct, ContextNodes, RotatedLeft, Relink, Holds, Around;
    RotationKeeps(s, s', c, a, b, inner, p, x, y, z, s.cells[a].left, a, s.cells[b].right, b);
    AroundRelink(s, s', c, a, b, p);
    MakeBranch(s'.cells, b, t'.left);
    MakeBranch(s'.cells, p, t');
  }

  lemma RotateRightTree(s: Store, c: Context, p: Node?, t: Tree)
    requires t.Branch? && t.left.Branch? && Split(s, c, t.node, p, t)
    ensures CanRotateRight(s, t.node)
    ensures Split(RotatedRight(s, t.node), c, t.left.node, p,
                  Branch(t.left.left, t.left.color, t.left.node, Branch(t.left.right, t.color, t.node, t.right)))
  {
    var x, a, y, b, z := t.left.left, t.node, t.left.right, t.left.node, t.right;
    var t' := Branch(x, t.left.color, b, Branch(y, t.color, a, z));
    ApartRight(c, t);
    ApartLeft(c, t');
    ParentInContext(s, c, a, p);
    HoldsBranch(s.cells, a, p, t);
    HoldsBranch(s.cells, s.cells[a].left, a, t.left);
    var inner := s.cells[b].right;
    RootOf(s.cells, inner, b, y);
    assert CanRotateRight(s, a);
    var s' := RotatedRight(s, a);
    RotatedRightEffect(s, a);
    hide Nodes, Distinct, ContextDistinct, ContextNodes, RotatedRight, Relink, Holds, Around;
    RotationKeeps(s, s', c, a, b, inner, p, x, y, z, s.cells[b].left, b, s.cells[a].right, a);
    AroundRelink(s, s', c, a, b, p);
    MakeBranch(s'.cells, b, t'.right);
    MakeBranch(s'.cells, p, t');
  }
}
