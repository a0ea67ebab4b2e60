/**
 The fix-up after an insertion, on stores: moving between contexts, repainting nodes, and the
 two ways one round of the loop leaves the tree.
 */
module RbFixup {
  import opened RbShape
  import opened RbStore

  ghost function Depth(c: Context): nat {
    match c
    case Top => 0
    case InLeft(up, _, _, _) => 1 + Depth(up)
    case InRight(_, _, _, up) => 1 + Depth(up)
  }

  /** The subtree one level above the hole. */
  ghost function Wrap(c: Context, t: Tree): (w: Tree)
    requires c != Top
    ensures w.Branch? && w.node == c.node && w.color == c.color
  {
    match c
    case InLeft(_, color, x, r) => Branch(t, color, x, r)
    case InRight(l, color, x, _) => Branch(l, color, x, t)
  }

  ghost function Sibling(c: Context): Tree
    requires c != Top
  {
    match c
    case InLeft(_, _, _, r) => r
    case InRight(l, _, _, _) => l
  }

  lemma ZipUp(s: Store, c: Context, n: Node?, p: Node?, t: Tree)
    requires c != Top && Split(s, c, n, p, t)
    ensures p == c.node && c.node in s.cells && s.cells[c.node].color == c.color
    ensures Split(s, c.up, c.node, s.cells[c.node].parent, Wrap(c, t))
    ensures Plug(c, t) == Plug(c.up, Wrap(c, t))
  {
  }

  lemma UnzipLeft(s: Store, c: Context, n: Node?, p: Node?, t: Tree)
    requires t.Branch? && Split(s, c, n, p, t)
    ensures n == t.node && t.node in s.cells
    ensures Split(s, InLeft(c, t.color, t.node, t.right), s.cells[t.node].left, t.node, t.left)
  {
  }

  lemma UnzipRight(s: Store, c: Context, n: Node?, p: Node?, t: Tree)
    requires t.Branch? && Split(s, c, n, p, t)
    ensures n == t.node && t.node in s.cells
    ensures Split(s, InRight(t.left, t.color, t.node, c), s.cells[t.node].right, t.node, t.right)
  {
  }

  /** Away from the top, the root field points into the context. */
  lemma {:induction false} RootInContext(s: Store, c: Context, n: Node?, p: Node?)
    requires c != Top && Around(s, c, n, p)
    ensures s.root != null && s.root in ContextNodes(c)
    decreases c
  {
    match c
    case InLeft(up, _, x, _) => if up != Top { RootInContext(s, up, x, s.cells[x].parent); }
    case InRight(_, _, x, up) => if up != Top { RootInContext(s, up, x, s.cells[x].parent); }
  }

  // ----- repainting -----

  ghost function Paint(s: Store, x: Node, color: Color): (s': Store)
    requires x in s.cells
    ensures s'.cells.Keys == s.cells.Keys
  {
    s.(cells := s.cells[x := s.cells[x].(color := color)])
  }

  ghost function Repaint(t: Tree, x: Node, color: Color): Tree {
    match t
    case Leaf => Leaf
    case Branch(l, c, y, r) => Branch(Repaint(l, x, color), if y == x then color else c, y, Repaint(r, x, color))
  }

  lemma {:induction false} RepaintKeepsNodes(t: Tree, x: Node, color: Color)
    ensures Nodes(Repaint(t, x, color)) == Nodes(t) && Inorder(Repaint(t, x, color)) == Inorder(t)
    ensures Distinct(Repaint(t, x, color)) == Distinct(t)
    ensures x !in Nodes(t) ==> Repaint(t, x, color) == t
  {
    if t.Branch? {
      RepaintKeepsNodes(t.left, x, color);
      RepaintKeepsNodes(t.right, x, color);
    }
  }

  lemma {:induction false} PaintHolds(s: Store, n: Node?, p: Node?, t: Tree, x: Node, color: Color)
    requires x in s.cells && Holds(s.cells, n, p, t)
    ensures Holds(Paint(s, x, color).cells, n, p, Repaint(t, x, color))
    decreases t
  {
    if t.Branch? {
      PaintHolds(s, s.cells[t.node].left, t.node, t.left, x, color);
      PaintHolds(s, s.cells[t.node].right, t.node, t.right, x, color);
    }
  }

  lemma PaintSplit(s: Store, c: Context, n: Node?, p: Node?, t: Tree, x: Node, color: Color)
    requires Split(s, c, n, p, t) && x in Nodes(t) && x in s.cells
    ensures Split(Paint(s, x, color), c, n, p, Repaint(t, x, color))
  {
    PaintHolds(s, n, p, t, x, color);
    RepaintKeepsNodes(t, x, color);
    AroundFrame(s, Paint(s, x, color), c, n, p);
  }

  ghost function Recolored(t: Tree, color: Color): Tree
    requires t.Branch?
  {
    t.(color := color)
  }

  // ----- what one round does to the tree -----

  /** A red node with black children of equal height: what sits at the hole during the fix-up. */
  ghost predicate RedRooted(t: Tree) {
    IsRed(t) && Balanced(t)
  }

  /** Under a red parent there is a black grandparent. */
  lemma GrandparentExists(c: Context, h: nat)
    requires c != Top && c.color == Red && Accepts(c, h)
    ensures c.up != Top && c.up.color == Black && Accepts(c.up.up, h + 1)
    ensures Balanced(Sibling(c)) && !IsRed(Sibling(c)) && BlackHeight(Sibling(c)) == h
    ensures Balanced(Sibling(c.up)) && BlackHeight(Sibling(c.up)) == h
  {
  }

  /** Parent and uncle black, grandparent red. */
  ghost function PushedUp(c: Context, t: Tree): Tree
    requires c != Top && c.up != Top && Sibling(c.up).Branch?
  {
    var parent := Recolored(Wrap(c, t), Black);
    var uncle := Recolored(Sibling(c.up), Black);
    if c.up.InLeft? then Branch(parent, Red, c.up.node, uncle) else Branch(uncle, Red, c.up.node, parent)
  }

  lemma PushedUpBalanced(c: Context, t: Tree)
    requires c != Top && c.color == Red && RedRooted(t) && Accepts(c, BlackHeight(t)) && IsRed(Sibling(c.up))
    ensures c.up != Top && RedRooted(PushedUp(c, t)) && Accepts(c.up.up, BlackHeight(PushedUp(c, t)))
  {
    GrandparentExists(c, BlackHeight(t));
  }

  lemma PushedUpInorder(c: Context, t: Tree)
    requires c != Top && c.up != Top && Sibling(c.up).Branch?
    ensures Inorder(PushedUp(c, t)) == Inorder(Wrap(c.up, Wrap(c, t)))
  {
    assert Inorder(Recolored(Wrap(c, t), Black)) == Inorder(Wrap(c, t));
    assert Inorder(Recolored(Sibling(c.up), Black)) == Inorder(Sibling(c.up));
  }

  /** The three repaintings of the red-uncle case, in the source's order. */
  lemma PaintPushedUp(s: Store, c: Context, n: Node?, p: Node?, t: Tree)
    requires c != Top && c.up != Top && Sibling(c.up).Branch? && Split(s, c, n, p, t)
    ensures c.node in s.cells && Sibling(c.up).node in s.cells && c.up.node in s.cells
    ensures var s' := Paint(Paint(Paint(s, c.node, Black), Sibling(c.up).node, Black), c.up.node, Red);
            Split(s', c.up.up, c.up.node, s.cells[c.up.node].parent, PushedUp(c, t))
  {
    ZipUp(s, c, n, p, t);
    var q := s.cells[c.node].parent;
    ZipUp(s, c.up, c.node, q, Wrap(c, t));
    var g, u, whole := c.up.node, Sibling(c.up), Wrap(c.up, Wrap(c, t));
    var gp := s.cells[g].parent;
    UncleInStore(s, c.up, c.node, q);
    assert c.node in Nodes(whole) && u.node in Nodes(whole) && g in Nodes(whole);
    PaintSplit(s, c.up.up, g, gp, whole, c.node, Black);
    var s1, t1 := Paint(s, c.node, Black), Repaint(whole, c.node, Black);
    RepaintKeepsNodes(whole, c.node, Black);
    PaintSplit(s1, c.up.up, g, gp, t1, u.node, Black);
    var s2, t2 := Paint(s1, u.node, Black), Repaint(t1, u.node, Black);
    RepaintKeepsNodes(t1, u.node, Black);
    PaintSplit(s2, c.up.up, g, gp, t2, g, Red);
    RepaintPushedUp(c, t);
  }

  lemma UncleInStore(s: Store, c: Context, n: Node?, p: Node?)
    requires c != Top && Sibling(c).Branch? && Around(s, c, n, p)
    ensures Sibling(c).node in s.cells
  {
  }

  lemma RepaintPushedUp(c: Context, t: Tree)
    requires c != Top && c.up != Top && Sibling(c.up).Branch?
    requires Distinct(Wrap(c.up, Wrap(c, t)))
    ensures Repaint(Repaint(Repaint(Wrap(c.up, Wrap(c, t)), c.node, Black), Sibling(c.up).node, Black), c.up.node, Red)
         == PushedUp(c, t)
  {
    var p, u, g := c.node, Sibling(c.up), c.up.node;
    var w := Wrap(c, t);
    RepaintRoot(w, p, Black);
    RepaintRoot(u, u.node, Black);
    RepaintKeepsNodes(u, p, Black);
    RepaintKeepsNodes(Recolored(w, Black), u.node, Black);
    RepaintKeepsNodes(Recolored(w, Black), g, Red);
    RepaintKeepsNodes(Recolored(u, Black), g, Red);
    assert Nodes(Recolored(w, Black)) == Nodes(w) && Nodes(Recolored(u, Black)) == Nodes(u);
    assert w.node in Nodes(w) && u.node in Nodes(u);
  }

  lemma RepaintRoot(t: Tree, x: Node, color: Color)
    requires t.Branch? && t.node == x && Distinct(t)
    ensures Repaint(t, x, color) == Recolored(t, color)
  {
    RepaintKeepsNodes(t.left, x, color);
    RepaintKeepsNodes(t.right, x, color);
  }

  // ----- the black-uncle cases -----

  /** The hole's surroundings after the outer rotation: parent black on top, grandparent red beside. */
  ghost function Lowered(c: Context): Context
    requires c != Top && c.up != Top && (c.InLeft? <==> c.up.InLeft?)
  {
    if c.InLeft?
    then InLeft(c.up.up, Black, c.node, Branch(c.right, Red, c.up.node, c.up.right))
    else InRight(Branch(c.up.left, Red, c.up.node, c.left), Black, c.node, c.up.up)
  }

  lemma LoweredAccepts(c: Context, h: nat)
    requires c != Top && c.color == Red && Accepts(c, h) && !IsRed(Sibling(c.up)) && (c.InLeft? <==> c.up.InLeft?)
    ensures c.up != Top && Accepts(Lowered(c), h)
  {
    GrandparentExists(c, h);
  }

  lemma LoweredInorder(c: Context, t: Tree)
    requires c != Top && c.up != Top && (c.InLeft? <==> c.up.InLeft?)
    ensures Inorder(Plug(Lowered(c), t)) == Inorder(Plug(c, t))
    ensures Depth(Lowered(c)) < Depth(c)
  {
    InorderPlug(Lowered(c), t);
    InorderPlug(c, t);
    var up := c.up.up;
    if c.InLeft? {
      Chain(Inorder(c.right), [c.up.node], Inorder(c.up.right), [c.node], After(up));
    } else {
      Chain2(Before(up), Inorder(c.up.left), [c.up.node], Inorder(c.left), [c.node]);
    }
  }

  lemma Chain<T>(a: seq<T>, b: seq<T>, c: seq<T>, d: seq<T>, e: seq<T>)
    ensures d + (a + b + c) + e == d + a + (b + c + e)
  {
  }

  lemma Chain2<T>(a: seq<T>, b: seq<T>, c: seq<T>, d: seq<T>, e: seq<T>)
    ensures a + (b + c + d) + e == (a + b + c) + d + e
  {
  }

  /** Parent on the left and z on the left: repaint, then rotate the grandparent to the right. */
  lemma FinishLeft(s: Store, c: Context, n: Node?, p: Node?, t: Tree)
    requires c.InLeft? && c.up.InLeft? && Split(s, c, n, p, t)
    ensures c.node in s.cells && c.up.node in s.cells
    ensures var s1 := Paint(Paint(s, c.node, Black), c.up.node, Red);
            CanRotateRight(s1, c.up.node) && Split(RotatedRight(s1, c.up.node), Lowered(c), n, p, t)
  {
    var g := c.up.node;
    var gp, w := PaintedFamily(s, c, n, p, t);
    var s1 := Paint(Paint(s, c.node, Black), g, Red);
    RotateRightTree(s1, c.up.up, gp, w);
    var s2 := RotatedRight(s1, g);
    UnzipLeft(s2, c.up.up, c.node, gp, Branch(t, Black, c.node, Branch(c.right, Red, g, c.up.right)));
  }

  lemma FinishRight(s: Store, c: Context, n: Node?, p: Node?, t: Tree)
    requires c.InRight? && c.up.InRight? && Split(s, c, n, p, t)
    ensures c.node in s.cells && c.up.node in s.cells
    ensures var s1 := Paint(Paint(s, c.node, Black), c.up.node, Red);
            CanRotateLeft(s1, c.up.node) && Split(RotatedLeft(s1, c.up.node), Lowered(c), n, p, t)
  {
    var g := c.up.node;
    var gp, w := PaintedFamily(s, c, n, p, t);
    var s1 := Paint(Paint(s, c.node, Black), g, Red);
    RotateLeftTree(s1, c.up.up, gp, w);
    var s2 := RotatedLeft(s1, g);
    UnzipRight(s2, c.up.up, c.node, gp, Branch(Branch(c.up.left, Red, g, c.left), Black, c.node, t));
  }

  /** Grandparent, parent and subtree after the two repaintings, seen from above. */
  lemma PaintedFamily(s: Store, c: Context, n: Node?, p: Node?, t: Tree) returns (gp: Node?, w: Tree)
    requires c != Top && c.up != Top && Split(s, c, n, p, t)
    ensures p == c.node && c.node in s.cells && c.up.node in s.cells
    ensures w == if c.up.InLeft? then Branch(Recolored(Wrap(c, t), Black), Red, c.up.node, c.up.right)
                 else Branch(c.up.left, Red, c.up.node, Recolored(Wrap(c, t), Black))
    ensures Split(Paint(Paint(s, c.node, Black), c.up.node, Red), c.up.up, c.up.node, gp, w)
  {
    ZipUp(s, c, n, p, t);
    var q := s.cells[c.node].parent;
    var inner := Wrap(c, t);
    ZipUp(s, c.up, c.node, q, inner);
    var g := c.up.node;
    var whole := Wrap(c.up, inner);
    gp := s.cells[g].parent;
    PaintSplit(s, c.up.up, g, gp, whole, c.node, Black);
    var s1, t1 := Paint(s, c.node, Black), Repaint(whole, c.node, Black);
    RepaintKeepsNodes(whole, c.node, Black);
    PaintSplit(s1, c.up.up, g, gp, t1, g, Red);
    w := Repaint(t1, g, Red);
    RepaintRoot(inner, c.node, Black);
    RepaintKeepsNodes(Sibling(c.up), c.node, Black);
    RepaintKeepsNodes(Sibling(c.up), g, Red);
    RepaintKeepsNodes(Recolored(inner, Black), g, Red);
    assert Nodes(Recolored(inner, Black)) == Nodes(inner);
  }

  /** The hole's surroundings after the inner rotation, which turns the bent case into the straight one. */
  ghost function Straight(c: Context, t: Tree): Context
    requires c != Top && t.Branch?
  {
    if c.InRight? then InLeft(c.up, Red, t.node, t.right) else InRight(t.left, Red, t.node, c.up)
  }

  ghost function Lower(c: Context, t: Tree): Tree
    requires c != Top && t.Branch?
  {
    if c.InRight? then Branch(c.left, Red, c.node, t.left) else Branch(t.right, Red, c.node, c.right)
  }

  lemma StraightBalanced(c: Context, t: Tree)
    requires c != Top && c.color == Red && RedRooted(t) && Accepts(c, BlackHeight(t))
    ensures RedRooted(Lower(c, t)) && Accepts(Straight(c, t), BlackHeight(Lower(c, t)))
    ensures Depth(Straight(c, t)) == Depth(c)
    ensures Sibling(Straight(c, t).up) == Sibling(c.up)
  {
    GrandparentExists(c, BlackHeight(t));
  }

  lemma StraightInorder(c: Context, t: Tree)
    requires c != Top && c.color == Red && IsRed(t)
    ensures Inorder(Plug(Straight(c, t), Lower(c, t))) == Inorder(Plug(c, t))
  {
    InorderPlug(c.up, Wrap(c, t));
    InorderPlug(c.up, Wrap(Straight(c, t), Lower(c, t)));
    if c.InRight? {
      Reassociate(Inorder(c.left), [c.node], Inorder(t.left), [t.node], Inorder(t.right));
    } else {
      Reassociate(Inorder(t.left), [t.node], Inorder(t.right), [c.node], Inorder(c.right));
    }
  }

  lemma Reassociate<T>(a: seq<T>, b: seq<T>, c: seq<T>, d: seq<T>, e: seq<T>)
    ensures a + b + (c + d + e) == (a + b + c) + d + e
  {
  }

  lemma StraightenLeft(s: Store, c: Context, n: Node?, p: Node?, t: Tree)
    requires c.InRight? && c.color == Red && IsRed(t) && Split(s, c, n, p, t)
    ensures c.node in s.cells && CanRotateLeft(s, c.node)
    ensures Split(RotatedLeft(s, c.node), Straight(c, t), c.node, t.node, Lower(c, t))
  {
    ZipUp(s, c, n, p, t);
    var q := s.cells[c.node].parent;
    RotateLeftTree(s, c.up, q, Wrap(c, t));
    UnzipLeft(RotatedLeft(s, c.node), c.up, t.node, q, Branch(Lower(c, t), Red, t.node, t.right));
  }

  lemma StraightenRight(s: Store, c: Context, n: Node?, p: Node?, t: Tree)
    requires c.InLeft? && c.color == Red && IsRed(t) && Split(s, c, n, p, t)
    ensures c.node in s.cells && CanRotateRight(s, c.node)
    ensures Split(RotatedRight(s, c.node), Straight(c, t), c.node, t.node, Lower(c, t))
  {
    ZipUp(s, c, n, p, t);
    var q := s.cells[c.node].parent;
    RotateRightTree(s, c.up, q, Wrap(c, t));
    UnzipRight(RotatedRight(s, c.node), c.up, t.node, q, Branch(t.left, Red, t.node, Lower(c, t)));
  }

  // ----- attaching the new node -----

  /** The store after z has been written into the empty hole below parent. */
  ghost function Attached(s: Store, z: Node, parent: Node?): (s': Store)
    requires parent != null ==> parent in s.cells
    ensures s'.cells.Keys == s.cells.Keys + {z}
  {
    var cells := s.cells[z := Cell(null, null, parent, Red)];
    if parent == null then Store(z, cells)
    else if z.size < parent.size then Store(s.root, cells[parent := s.cells[parent].(left := z)])
    else Store(s.root, cells[parent := s.cells[parent].(right := z)])
  }

  lemma AttachSplit(s: Store, c: Context, z: Node, parent: Node?)
    requires Split(s, c, null, parent, Leaf) && z !in s.cells && z !in ContextNodes(c)
    requires c != Top ==> (c.InLeft? <==> z.size < c.node.size)
    ensures parent != null ==> parent in s.cells
    ensures Split(Attached(s, z, parent), c, z, parent, Branch(Leaf, Red, z, Leaf))
  {
    var s' := Attached(s, z, parent);
    match c
    case Top =>
    case InLeft(up, _, x, r) =>
      HoldsFrame(s.cells, s'.cells, s.cells[x].right, x, r);
      AroundFrame(s, s', up, x, s.cells[x].parent);
    case InRight(l, _, x, up) =>
      HoldsFrame(s.cells, s'.cells, s.cells[x].left, x, l);
      AroundFrame(s, s', up, x, s.cells[x].parent);
  }

  /** The new node goes after every node of its own size or less, and before all larger ones. */
  ghost predicate Inserted(before: seq<Node>, z: Node, after: seq<Node>) {
    exists i :: 0 <= i <= |before| && InsertedAt(before, z, after, i)
  }

  ghost predicate InsertedAt(before: seq<Node>, z: Node, after: seq<Node>, i: nat)
    requires i <= |before|
  {
    after == before[..i] + [z] + before[i..] &&
    (forall j :: 0 <= j < i ==> before[j].size <= z.size) &&
    (forall j :: i <= j < |before| ==> z.size < before[j].size)
  }

  lemma InsertedSorted(before: seq<Node>, z: Node, after: seq<Node>)
    requires SortedBySize(before) && Inserted(before, z, after)
    ensures SortedBySize(after)
  {
  }

  /** The hole reached by the descent is the place where z belongs. */
  ghost predicate RightPlace(c: Context, z: Node) {
    (forall x :: x in Before(c) ==> x.size <= z.size) && (forall x :: x in After(c) ==> z.size < x.size)
  }

  lemma PlaceInserts(c: Context, z: Node)
    requires RightPlace(c, z)
    ensures Inserted(Inorder(Plug(c, Leaf)), z, Inorder(Plug(c, Branch(Leaf, Red, z, Leaf))))
  {
    InorderPlug(c, Leaf);
    InorderPlug(c, Branch(Leaf, Red, z, Leaf));
    var was, now := Inorder(Plug(c, Leaf)), Inorder(Plug(c, Branch(Leaf, Red, z, Leaf)));
    var i := |Before(c)|;
    assert was[..i] == Before(c) && was[i..] == After(c);
    assert InsertedAt(was, z, now, i);
  }

  /** One step of the descent keeps the place right. */
  /** A subtree met on the way down and the tree around it. */
  ghost predicate Descending(c: Context, t: Tree) {
    Balanced(t) && Accepts(c, BlackHeight(t)) && (IsRed(t) ==> c != Top && BlackAbove(c))
  }

  lemma StartDescent(s: Store, t: Tree, z: Node)
    requires Represents(s, t) && Balanced(t) && !IsRed(t)
    ensures Split(s, Top, s.root, null, t) && Plug(Top, t) == t && RightPlace(Top, z) && Descending(Top, t)
  {
  }

  lemma DescendHeights(c: Context, t: Tree)
    requires t.Branch? && Descending(c, t)
    ensures Descending(InLeft(c, t.color, t.node, t.right), t.left)
    ensures Descending(InRight(t.left, t.color, t.node, c), t.right)
  {
  }

  lemma HoleFilled(s: Store, c: Context, n: Node, p: Node?, t: Tree)
    requires Split(s, c, n, p, t)
    ensures t.Branch? && t.node == n && n in s.cells
  {
  }

  lemma HoleEmpty(s: Store, c: Context, p: Node?, t: Tree)
    requires Split(s, c, null, p, t) && Descending(c, t)
    ensures t == Leaf && Accepts(c, 0)
  {
  }

  lemma Descend(c: Context, t: Tree, z: Node)
    requires t.Branch? && RightPlace(c, z) && SortedBySize(Inorder(Plug(c, t)))
    ensures z.size < t.node.size ==> RightPlace(InLeft(c, t.color, t.node, t.right), z)
    ensures z.size >= t.node.size ==> RightPlace(InRight(t.left, t.color, t.node, c), z)
  {
    InorderPlug(c, t);
    var l, r := Before(c) + Inorder(t.left), Inorder(t.right) + After(c);
    Center(Before(c), Inorder(t.left), t.node, Inorder(t.right), After(c));
    SortedAround(l, t.node, r);
    if z.size < t.node.size {
      assert After(InLeft(c, t.color, t.node, t.right)) == [t.node] + r;
    } else {
      assert Before(InRight(t.left, t.color, t.node, c)) == l + [t.node];
    }
  }

  lemma Center(b: seq<Node>, l: seq<Node>, x: Node, r: seq<Node>, a: seq<Node>)
    ensures b + (l + [x] + r) + a == (b + l) + [x] + (r + a)
    ensures [x] + r + a == [x] + (r + a)
  {
  }

  lemma SortedAround(xs: seq<Node>, x: Node, ys: seq<Node>)
    requires SortedBySize(xs + [x] + ys)
    ensures forall y :: y in xs ==> y.size <= x.size
    ensures forall y :: y in ys ==> x.size <= y.size
  {
    var s := xs + [x] + ys;
    assert s[|xs|] == x;
    forall i | 0 <= i < |xs| ensures xs[i].size <= x.size { assert s[i] == xs[i]; }
    forall i | 0 <= i < |ys| ensures x.size <= ys[i].size { assert s[|xs| + 1 + i] == ys[i]; }
  }

  // ----- the loop's state, and what each case makes of it -----

  ghost function Elements(s: seq<Node>): set<Node> {
    set x | x in s
  }

  lemma {:induction false} NodesInorder(t: Tree)
    ensures Elements(Inorder(t)) == Nodes(t)
  {
    if t.Branch? {
      NodesInorder(t.left);
      NodesInorder(t.right);
      ElementsJoin(Inorder(t.left), t.node, Inorder(t.right));
    }
  }

  lemma ElementsJoin(a: seq<Node>, x: Node, b: seq<Node>)
    ensures Elements(a + [x] + b) == Elements(a) + {x} + Elements(b)
  {
  }

  ghost function HoleParent(c: Context): Node? {
    if c == Top then null else c.node
  }

  /** A red z over balanced subtrees, in a context that accepts it; the nodes stand in the given order. */
  ghost predicate Fixing(s: Store, c: Context, z: Node, t: Tree, order: seq<Node>) {
    t.Branch? && t.node == z && RedRooted(t) && Accepts(c, BlackHeight(t)) &&
    Split(s, c, z, HoleParent(c), t) && Inorder(Plug(c, t)) == order &&
    s.cells.Keys == Elements(order)
  }

  /** The grandparent's other child is red. */
  ghost predicate RedUncle(c: Context) {
    c != Top && c.up != Top && IsRed(Sibling(c.up))
  }

  lemma RedUncleStep(s: Store, c: Context, z: Node, t: Tree, order: seq<Node>)
    requires Fixing(s, c, z, t, order) && c != Top && c.color == Red && RedUncle(c)
    ensures c.node in s.cells && Sibling(c.up).node in s.cells && c.up.node in s.cells
    ensures Fixing(Paint(Paint(Paint(s, c.node, Black), Sibling(c.up).node, Black), c.up.node, Red),
                   c.up.up, c.up.node, PushedUp(c, t), order)
  {
    PaintPushedUp(s, c, z, c.node, t);
    PushedUpBalanced(c, t);
    PushedUpInorder(c, t);
    InorderPlug(c.up.up, PushedUp(c, t));
    InorderPlug(c.up.up, Wrap(c.up, Wrap(c, t)));
    assert Plug(c, t) == Plug(c.up.up, Wrap(c.up, Wrap(c, t)));
    AroundParent(s, c, z, c.node);
  }

  lemma AroundParent(s: Store, c: Context, n: Node?, p: Node?)
    requires c != Top && c.up != Top && Around(s, c, n, p)
    ensures c.node in s.cells && c.up.node in s.cells
    ensures s.cells[c.node].parent == c.up.node && s.cells[c.up.node].parent == HoleParent(c.up.up)
  {
    assert Around(s, c.up, c.node, s.cells[c.node].parent);
    assert Around(s, c.up.up, c.up.node, s.cells[c.up.node].parent);
  }

  lemma StraightenStep(s: Store, c: Context, z: Node, t: Tree, order: seq<Node>)
    requires Fixing(s, c, z, t, order) && c != Top && c.color == Red && c.up != Top
    ensures c.InRight? ==> CanRotateLeft(s, c.node)
    ensures c.InRight? ==> Fixing(RotatedLeft(s, c.node), Straight(c, t), c.node, Lower(c, t), order)
    ensures c.InLeft? ==> CanRotateRight(s, c.node)
    ensures c.InLeft? ==> Fixing(RotatedRight(s, c.node), Straight(c, t), c.node, Lower(c, t), order)
  {
    StraightBalanced(c, t);
    StraightInorder(c, t);
    if c.InRight? { StraightenLeft(s, c, z, c.node, t); } else { StraightenRight(s, c, z, c.node, t); }
  }

  lemma FinishStep(s: Store, c: Context, z: Node, t: Tree, order: seq<Node>)
    requires Fixing(s, c, z, t, order) && c != Top && c.color == Red && c.up != Top
    requires !IsRed(Sibling(c.up)) && (c.InLeft? <==> c.up.InLeft?)
    ensures c.node in s.cells && c.up.node in s.cells
    ensures var s1 := Paint(Paint(s, c.node, Black), c.up.node, Red);
            if c.InLeft?
            then CanRotateRight(s1, c.up.node) && Fixing(RotatedRight(s1, c.up.node), Lowered(c), z, t, order)
            else CanRotateLeft(s1, c.up.node) && Fixing(RotatedLeft(s1, c.up.node), Lowered(c), z, t, order)
    ensures Depth(Lowered(c)) < Depth(c)
  {
    LoweredAccepts(c, BlackHeight(t));
    LoweredInorder(c, t);
    if c.InLeft? { FinishLeft(s, c, z, c.node, t); } else { FinishRight(s, c, z, c.node, t); }
  }

  /** What the pointers read by one round of the loop are. */
  lemma LookAround(s: Store, c: Context, z: Node, t: Tree, order: seq<Node>)
    requires Fixing(s, c, z, t, order) && c != Top && c.color == Red
    ensures z in s.cells && s.cells[z].parent == c.node && c.node in s.cells && c.up != Top && c.up.node in s.cells
    ensures s.cells[c.node].parent == c.up.node
    ensures s.cells[c.up.node].left == c.node <==> c.up.InLeft?
    ensures s.cells[c.node].right == z <==> c.InRight?
    ensures s.cells[c.node].left == z <==> c.InLeft?
    ensures var uncle := if c.up.InLeft? then s.cells[c.up.node].right else s.cells[c.up.node].left;
            (Sibling(c.up) == Leaf <==> uncle == null) &&
            (uncle != null ==> Sibling(c.up).Branch? && uncle == Sibling(c.up).node && uncle in s.cells &&
                               s.cells[uncle].color == Sibling(c.up).color)
  {
    GrandparentExists(c, BlackHeight(t));
    AroundParent(s, c, z, c.node);
    assert Around(s, c.up, c.node, c.up.node);
    if c.up.InRight? {
      RootOf(s.cells, s.cells[c.up.node].left, c.up.node, c.up.left);
    } else {
      RootOf(s.cells, s.cells[c.up.node].right, c.up.node, c.up.right);
    }
    if c.InRight? {
      RootOf(s.cells, s.cells[c.node].left, c.node, c.left);
    } else {
      RootOf(s.cells, s.cells[c.node].right, c.node, c.right);
    }
  }

  /** Attaching z at its place starts the fix-up. */
  lemma StartFixing(s: Store, tree: Tree, c: Context, z: Node)
    requires Represents(s, tree) && Plug(c, Leaf) == tree && Split(s, c, null, HoleParent(c), Leaf)
    requires z !in s.cells && Accepts(c, 0) && (c != Top ==> (c.InLeft? <==> z.size < c.node.size))
    ensures c != Top ==> c.node in s.cells
    ensures Fixing(Attached(s, z, HoleParent(c)), c, z, Branch(Leaf, Red, z, Leaf),
                   Inorder(Plug(c, Branch(Leaf, Red, z, Leaf))))
  {
    var t := Branch(Leaf, Red, z, Leaf);
    NodesPlug(c, Leaf);
    AttachSplit(s, c, z, HoleParent(c));
    AttachedKeys(s, tree, c, z);
  }

  lemma AttachedKeys(s: Store, tree: Tree, c: Context, z: Node)
    requires s.cells.Keys == Nodes(tree) && Plug(c, Leaf) == tree && (c != Top ==> c.node in s.cells)
    ensures Attached(s, z, HoleParent(c)).cells.Keys
         == Elements(Inorder(Plug(c, Branch(Leaf, Red, z, Leaf))))
  {
    var t := Branch(Leaf, Red, z, Leaf);
    NodesPlug(c, Leaf);
    NodesPlug(c, t);
    NodesInorder(Plug(c, t));
    assert Nodes(Plug(c, t)) == s.cells.Keys + {z};
    assert Attached(s, z, HoleParent(c)).cells.Keys == s.cells.Keys + {z};
  }

  /** The loop is at the root exactly when the context is empty. */
  lemma AtTop(s: Store, c: Context, z: Node, t: Tree, order: seq<Node>)
    requires Fixing(s, c, z, t, order)
    ensures z in s.cells && (s.root == z <==> c == Top)
    ensures c != Top ==> s.cells[z].parent == c.node && c.node in s.cells && s.cells[c.node].color == c.color
  {
    if c != Top { RootInContext(s, c, z, c.node); }
  }

  /** Blackening the root completes the tree. */
  lemma Complete(s: Store, c: Context, z: Node, t: Tree, order: seq<Node>) returns (tree: Tree)
    requires Fixing(s, c, z, t, order) && BlackAbove(c)
    ensures s.root != null && s.root in s.cells
    ensures Represents(Paint(s, s.root, Black), tree) && Balanced(tree) && !IsRed(tree) && Inorder(tree) == order
  {
    var whole := Plug(c, t);
    PlugBalanced(c, t);
    Join(s, c, z, HoleParent(c), t);
    NodesInorder(whole);
    assert Nodes(whole) == s.cells.Keys;
    NodesPlug(c, t);
    assert z in Nodes(whole);
    var r := whole.node;
    RepaintRoot(whole, r, Black);
    PaintSplit(s, Top, r, null, whole, r, Black);
    tree := Recolored(whole, Black);
    RepaintKeepsNodes(whole, r, Black);
  }
}
