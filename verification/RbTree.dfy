/**
 rb_tree_insert of the red-black allocator: descent, rotations and the fix-up loop that
 climbs by parent pointers, on the nodes themselves.
 */
module RbTrees {
  import opened RbShape
  import opened RbStore
  import opened RbFixup

  /** A reference to a link: the root field or a child field of a node. */
  datatype Link = RootLink | LeftLink(of: Node) | RightLink(of: Node)

  class RbTree {
    var root: Node?
    /** The nodes' fields, as a value, and the tree they form. */
    ghost var store: Store
    ghost var tree: Tree

    static ghost function CellOf(x: Node): Cell
      reads x
    {
      Cell(x.left, x.right, x.parent, x.color)
    }

    ghost predicate InHeap(s: Store)
      reads this`root, s.cells.Keys
    {
      root == s.root && forall x :: x in s.cells ==> CellOf(x) == s.cells[x]
    }

    /** A red-black tree sorted by size, with a black root and consistent parent pointers. */
    ghost predicate Valid()
      reads this, store.cells.Keys
    {
      InHeap(store) && Represents(store, tree) && Balanced(tree) && !IsRed(tree) && SortedBySize(Inorder(tree))
    }

    function Read(link: Link): Node?
      reads this, if link.RootLink? then {} else {link.of}
    {
      match link
      case RootLink => root
      case LeftLink(x) => x.left
      case RightLink(x) => x.right
    }

    method Write(link: Link, n: Node?)
      modifies this`root, if link.RootLink? then {} else {link.of}
      ensures !link.RootLink? ==> root == old(root)
      ensures link.RootLink? ==> root == n
      ensures link.LeftLink? ==> link.of.left == n && unchanged(link.of`right, link.of`parent, link.of`color)
      ensures link.RightLink? ==> link.of.right == n && unchanged(link.of`left, link.of`parent, link.of`color)
    {
      match link
      case RootLink => root := n;
      case LeftLink(x) => x.left := n;
      case RightLink(x) => x.right := n;
    }

    /** The link that points to n. */
    function LinkTo(n: Node): Link
      reads n, n.parent
    {
      if n.parent == null then RootLink
      else if n == n.parent.left then LeftLink(n.parent)
      else RightLink(n.parent)
    }

    // ----- rotations on the pointers -----

    /** a, its child, that child's inner child and a's parent are different nodes. */
    ghost predicate Unrelated(a: Node, child: Node, inner: Node?)
      reads a
    {
      a != child && inner != a && inner != child && a.parent != a && a.parent != child &&
      (a.parent != null ==> a.parent != inner)
    }

    ghost function Written(a: Node, child: Node, inner: Node?): set<object>
      reads a
    {
      {a, child} + (if a.parent == null then {} else {a.parent}) + (if inner == null then {} else {inner})
    }

    /** What both rotations do to the links above, and to the inner child they hand over. */
    twostate predicate Rotated(a: Node, child: Node, inner: Node?, p: Node?, oldRoot: Node?)
      reads this, a, child, inner, p
    {
      a.parent == child && child.parent == p && a.color == old(a.color) && child.color == old(child.color) &&
      (inner != null ==> inner.parent == a && unchanged(inner`left, inner`right, inner`color)) &&
      (p == null ==> root == child) &&
      (p != null ==>
        root == oldRoot && unchanged(p`parent, p`color) &&
        p.left == (if old(p.left) == a then child else old(p.left)) &&
        p.right == (if old(p.left) == a then old(p.right) else child))
    }

    /** rb_small_left_rotation, with the source's order of writes; a link to nothing rotatable is left alone. */
    method RotateLeft(link: Link, a: Node, child: Node?)
      requires Read(link) == a && child == a.right && link == LinkTo(a)
      requires child != null ==> Unrelated(a, child, child.left)
      modifies this`root, if child == null then {} else Written(a, child, child.left)
      ensures child == null ==> root == old(root)
      ensures child != null ==>
        Rotated(a, child, old(child.left), old(a.parent), old(root)) &&
        a.left == old(a.left) && a.right == old(child.left) && child.left == a && child.right == old(child.right)
    {
      if child == null { return; }
      var inner := child.left;
      var parent := a.parent;
      if parent != null {
        if a == parent.left {
          parent.left := child;
        } else {
          parent.right := child;
        }
      }
      child.parent := a.parent;
      child.left := a;
      a.parent := child;
      a.right := inner;
      if inner != null { inner.parent := a; }
      Write(link, child);
    }

    /** rb_small_right_rotation. */
    method RotateRight(link: Link, a: Node, child: Node?)
      requires Read(link) == a && child == a.left && link == LinkTo(a)
      requires child != null ==> Unrelated(a, child, child.right)
      modifies this`root, if child == null then {} else Written(a, child, child.right)
      ensures child == null ==> root == old(root)
      ensures child != null ==>
        Rotated(a, child, old(child.right), old(a.parent), old(root)) &&
        a.right == old(a.right) && a.left == old(child.right) && child.right == a && child.left == old(child.left)
    {
      if child == null { return; }
      var inner := child.right;
      var parent := a.parent;
      if parent != null {
        if a == parent.left {
          parent.left := child;
        } else {
          parent.right := child;
        }
      }
      child.parent := a.parent;
      child.right := a;
      a.parent := child;
      a.left := inner;
      if inner != null { inner.parent := a; }
      Write(link, child);
    }

    /** On a heap that is a store, the pointer rotation is the rotation of the store. */
    method RotateLeftAt(a: Node, ghost s: Store)
      requires InHeap(s) && CanRotateLeft(s, a)
      requires Read(LinkTo(a)) == a
      modifies this`root, s.cells.Keys
      ensures InHeap(RotatedLeft(s, a))
    {
      ghost var b: Node, p := a.right, a.parent;
      ghost var inner := b.left;
      assert CellOf(a) == s.cells[a] && CellOf(b) == s.cells[b];
      RotatedLeftEffect(s, a);
      ghost var s' := RotatedLeft(s, a);
      RotateLeft(LinkTo(a), a, a.right);
      forall x | x in s'.cells
        ensures CellOf(x) == s'.cells[x]
      {
        assert old(CellOf(x)) == s.cells[x];
      }
    }

    method RotateRightAt(a: Node, ghost s: Store)
      requires InHeap(s) && CanRotateRight(s, a)
      requires Read(LinkTo(a)) == a
      modifies this`root, s.cells.Keys
      ensures InHeap(RotatedRight(s, a))
    {
      ghost var b: Node, p := a.left, a.parent;
      ghost var inner := b.right;
      assert CellOf(a) == s.cells[a] && CellOf(b) == s.cells[b];
      RotatedRightEffect(s, a);
      ghost var s' := RotatedRight(s, a);
      RotateRight(LinkTo(a), a, a.left);
      forall x | x in s'.cells
        ensures CellOf(x) == s'.cells[x]
      {
        assert old(CellOf(x)) == s.cells[x];
      }
    }

    /** link_to finds the link that holds the node at the hole. */
    lemma LinkFound(s: Store, c: Context, n: Node, p: Node?, t: Tree)
      requires InHeap(s) && Split(s, c, n, p, t)
      ensures n.parent == p && Read(LinkTo(n)) == n
    {
      RootOf(s.cells, n, p, t);
      assert CellOf(n) == s.cells[n];
      if c.InRight? { RootOf(s.cells, s.cells[c.node].left, c.node, c.left); }
      if c != Top { assert CellOf(c.node) == s.cells[c.node]; }
    }

    // ----- the fix-up -----

    method SetColor(x: Node, color: Color, ghost s: Store)
      requires InHeap(s) && x in s.cells
      modifies x`color
      ensures InHeap(Paint(s, x, color))
    {
      x.color := color;
    }

    // ----- insertion -----

    /** The loop that looks for the place: smaller goes left, the rest goes right. */
    method FindPlace(z: Node) returns (parent: Node?, ghost c: Context)
      requires Valid() && z !in store.cells
      ensures Split(store, c, null, parent, Leaf) && Plug(c, Leaf) == tree && parent == HoleParent(c)
      ensures RightPlace(c, z) && (c != Top ==> (c.InLeft? <==> z.size < c.node.size))
      ensures Accepts(c, 0)
    {
      hide Represents, Balanced, Accepts, RightPlace, Descending, Split, SortedBySize, Inorder;
      parent, c := null, Top;
      ghost var t := tree;
      StartDescent(store, t, z);
      var node := root;
      while node != null
        invariant parent == HoleParent(c) && Split(store, c, node, parent, t) && Plug(c, t) == tree
        invariant RightPlace(c, z) && (c != Top ==> (c.InLeft? <==> z.size < c.node.size))
        invariant Descending(c, t)
        decreases t
      {
        HoleFilled(store, c, node, parent, t);
        Descend(c, t, z);
        DescendHeights(c, t);
        UnzipLeft(store, c, node, parent, t);
        UnzipRight(store, c, node, parent, t);
        assert CellOf(node) == store.cells[node];
        parent := node;
        if z.size < node.size {
          c, t := InLeft(c, t.color, t.node, t.right), t.left;
          node := node.left;
        } else {
          c, t := InRight(t.left, t.color, t.node, c), t.right;
          node := node.right;
        }
      }
      HoleEmpty(store, c, parent, t);
    }

    /** Hanging z under parent, on the side its size calls for. */
    method Attach(z: Node, parent: Node?)
      requires InHeap(store) && z !in store.cells && (parent != null ==> parent in store.cells)
      requires z.left == null && z.right == null && z.color == Red
      modifies this`root, z`parent, if parent == null then {} else {parent}
      ensures InHeap(Attached(store, z, parent))
    {
      z.parent := parent;
      if parent == null {
        root := z;
      } else if z.size < parent.size {
        parent.left := z;
      } else {
        parent.right := z;
      }
    }

    lemma ParentLinked(s: Store, c: Context, z: Node, t: Tree, order: seq<Node>)
      requires InHeap(s) && Fixing(s, c, z, t, order) && c != Top
      ensures Read(LinkTo(c.node)) == c.node
    {
      ZipUp(s, c, z, c.node, t);
      LinkFound(s, c.up, c.node, s.cells[c.node].parent, Wrap(c, t));
    }

    lemma GrandparentLinked(s: Store, c: Context, z: Node, t: Tree, order: seq<Node>)
      requires Fixing(s, c, z, t, order) && c != Top && c.up != Top
      requires c.node in s.cells && c.up.node in s.cells
      requires InHeap(Paint(Paint(s, c.node, Black), c.up.node, Red))
      ensures Read(LinkTo(c.up.node)) == c.up.node
    {
      var gp, w := PaintedFamily(s, c, z, c.node, t);
      LinkFound(Paint(Paint(s, c.node, Black), c.up.node, Red), c.up.up, c.up.node, gp, w);
    }

    /** Case 2 with the parent on the left: z becomes the old parent, which is rotated to the left. */
    method StraightenLeft(z: Node, parent: Node,
                          ghost s: Store, ghost c: Context, ghost t: Tree, ghost order: seq<Node>)
      returns (ghost s': Store)
      requires InHeap(s) && Fixing(s, c, z, t, order) && c != Top && c.color == Red && c.up != Top
      requires c.up.InLeft? && !IsRed(Sibling(c.up)) && parent == c.node && z == parent.right
      modifies this`root, s.cells.Keys
      ensures c.InRight?
      ensures InHeap(s') && Fixing(s', Straight(c, t), parent, Lower(c, t), order) && parent.parent == z
      ensures s'.cells.Keys == s.cells.Keys
    {
      LookAround(s, c, z, t, order);
      assert CellOf(parent) == s.cells[parent];
      StraightenStep(s, c, z, t, order);
      StraightBalanced(c, t);
      ParentLinked(s, c, z, t, order);
      RotateLeftAt(parent, s);
      s' := RotatedLeft(s, parent);
      LookAround(s', Straight(c, t), parent, Lower(c, t), order);
      assert CellOf(parent) == s'.cells[parent];
    }

    /** Case 3 with the parent on the left: repaint, then rotate the grandparent to the right. */
    method FinishLeftCase(z: Node, parent: Node, grand: Node,
                          ghost s: Store, ghost c: Context, ghost t: Tree, ghost order: seq<Node>)
      returns (ghost s': Store)
      requires InHeap(s) && Fixing(s, c, z, t, order) && c != Top && c.color == Red && c.up != Top
      requires c.InLeft? && c.up.InLeft? && !IsRed(Sibling(c.up)) && parent == c.node && grand == c.up.node
      modifies this`root, s.cells.Keys
      ensures InHeap(s') && Fixing(s', Lowered(c), z, t, order)
      ensures s'.cells.Keys == s.cells.Keys
    {
      FinishStep(s, c, z, t, order);
      SetColor(parent, Black, s);
      SetColor(grand, Red, Paint(s, parent, Black));
      ghost var s1 := Paint(Paint(s, parent, Black), grand, Red);
      GrandparentLinked(s, c, z, t, order);
      RotateRightAt(grand, s1);
      s' := RotatedRight(s1, grand);
    }

    method LeftCases(z: Node, parent: Node, grand: Node,
                     ghost s: Store, ghost c: Context, ghost t: Tree, ghost order: seq<Node>)
      returns (next: Node, ghost s': Store, ghost c': Context, ghost t': Tree)
      requires InHeap(s) && Fixing(s, c, z, t, order) && c != Top && c.color == Red && c.up != Top
      requires c.up.InLeft? && !IsRed(Sibling(c.up)) && parent == c.node && grand == c.up.node
      requires parent.right == z <==> c.InRight?
      modifies this`root, s.cells.Keys
      ensures InHeap(s') && Fixing(s', c', next, t', order) && Depth(c') < Depth(c)
      ensures s'.cells.Keys == s.cells.Keys
    {
      next, s', c', t' := z, s, c, t;
      var p := parent;
      if z == p.right {
        next := p;
        s' := StraightenLeft(z, p, s, c, t, order);
        c', t' := Straight(c, t), Lower(c, t);
        p := next.parent;
      }
      s' := FinishLeftCase(next, p, grand, s', c', t', order);
      LoweredInorder(c', t');
      c' := Lowered(c');
    }

    /** Case 2 with the parent on the right: z becomes the old parent, which is rotated to the right. */
    method StraightenRight(z: Node, parent: Node,
                          ghost s: Store, ghost c: Context, ghost t: Tree, ghost order: seq<Node>)
      returns (ghost s': Store)
      requires InHeap(s) && Fixing(s, c, z, t, order) && c != Top && c.color == Red && c.up != Top
      requires c.up.InRight? && !IsRed(Sibling(c.up)) && parent == c.node && z == parent.left
      modifies this`root, s.cells.Keys
      ensures c.InLeft?
      ensures InHeap(s') && Fixing(s', Straight(c, t), parent, Lower(c, t), order) && parent.parent == z
      ensures s'.cells.Keys == s.cells.Keys
    {
      LookAround(s, c, z, t, order);
      assert CellOf(parent) == s.cells[parent];
      StraightenStep(s, c, z, t, order);
      StraightBalanced(c, t);
      ParentLinked(s, c, z, t, order);
      RotateRightAt(parent, s);
      s' := RotatedRight(s, parent);
      LookAround(s', Straight(c, t), parent, Lower(c, t), order);
      assert CellOf(parent) == s'.cells[parent];
    }

    /** Case 3 with the parent on the right: repaint, then rotate the grandparent to the left. */
    method FinishRightCase(z: Node, parent: Node, grand: Node,
                          ghost s: Store, ghost c: Context, ghost t: Tree, ghost order: seq<Node>)
      returns (ghost s': Store)
      requires InHeap(s) && Fixing(s, c, z, t, order) && c != Top && c.color == Red && c.up != Top
      requires c.InRight? && c.up.InRight? && !IsRed(Sibling(c.up)) && parent == c.node && grand == c.up.node
      modifies this`root, s.cells.Keys
      ensures InHeap(s') && Fixing(s', Lowered(c), z, t, order)
      ensures s'.cells.Keys == s.cells.Keys
    {
      FinishStep(s, c, z, t, order);
      SetColor(parent, Black, s);
      SetColor(grand, Red, Paint(s, parent, Black));
      ghost var s1 := Paint(Paint(s, parent, Black), grand, Red);
      GrandparentLinked(s, c, z, t, order);
      RotateLeftAt(grand, s1);
      s' := RotatedLeft(s1, grand);
    }

    method RightCases(z: Node, parent: Node, grand: Node,
                     ghost s: Store, ghost c: Context, ghost t: Tree, ghost order: seq<Node>)
      returns (next: Node, ghost s': Store, ghost c': Context, ghost t': Tree)
      requires InHeap(s) && Fixing(s, c, z, t, order) && c != Top && c.color == Red && c.up != Top
      requires c.up.InRight? && !IsRed(Sibling(c.up)) && parent == c.node && grand == c.up.node
      requires parent.left == z <==> c.InLeft?
      modifies this`root, s.cells.Keys
      ensures InHeap(s') && Fixing(s', c', next, t', order) && Depth(c') < Depth(c)
      ensures s'.cells.Keys == s.cells.Keys
    {
      next, s', c', t' := z, s, c, t;
      var p := parent;
      if z == p.left {
        next := p;
        s' := StraightenRight(z, p, s, c, t, order);
        c', t' := Straight(c, t), Lower(c, t);
        p := next.parent;
      }
      s' := FinishRightCase(next, p, grand, s', c', t', order);
      LoweredInorder(c', t');
      c' := Lowered(c');
    }

    /** Case 1: the uncle is red. */
    method RedUncleCase(z: Node, parent: Node, uncle: Node, grand: Node,
                        ghost s: Store, ghost c: Context, ghost t: Tree, ghost order: seq<Node>)
      returns (ghost s': Store)
      requires InHeap(s) && Fixing(s, c, z, t, order) && c != Top && c.color == Red && RedUncle(c)
      requires parent == c.node && grand == c.up.node && uncle == Sibling(c.up).node
      modifies s.cells.Keys
      ensures InHeap(s') && Fixing(s', c.up.up, grand, PushedUp(c, t), order)
    {
      RedUncleStep(s, c, z, t, order);
      SetColor(parent, Black, s);
      SetColor(uncle, Black, Paint(s, parent, Black));
      SetColor(grand, Red, Paint(Paint(s, parent, Black), uncle, Black));
      s' := Paint(Paint(Paint(s, parent, Black), uncle, Black), grand, Red);
    }

    /** One round of the fix-up loop: the redness moves two levels up, or a rotation removes it. */
    method Round(z: Node, ghost s: Store, ghost c: Context, ghost t: Tree, ghost order: seq<Node>)
      returns (next: Node, ghost s': Store, ghost c': Context, ghost t': Tree)
      requires InHeap(s) && Fixing(s, c, z, t, order) && c != Top && c.color == Red
      modifies this`root, s.cells.Keys
      ensures InHeap(s') && Fixing(s', c', next, t', order) && Depth(c') < Depth(c)
      ensures s'.cells.Keys == s.cells.Keys
    {
      LookAround(s, c, z, t, order);
      assert CellOf(z) == s.cells[z] && CellOf(c.node) == s.cells[c.node] && CellOf(c.up.node) == s.cells[c.up.node];
      var parent := z.parent;
      var grand := parent.parent;
      if parent == grand.left {
        var uncle := grand.right;
        assert uncle != null ==> CellOf(uncle) == s.cells[uncle];
        if uncle != null && uncle.color == Red {
          s' := RedUncleCase(z, parent, uncle, grand, s, c, t, order);
          next, c', t' := grand, c.up.up, PushedUp(c, t);
        } else {
          next, s', c', t' := LeftCases(z, parent, grand, s, c, t, order);
        }
      } else {
        var uncle := grand.left;
        assert uncle != null ==> CellOf(uncle) == s.cells[uncle];
        if uncle != null && uncle.color == Red {
          s' := RedUncleCase(z, parent, uncle, grand, s, c, t, order);
          next, c', t' := grand, c.up.up, PushedUp(c, t);
        } else {
          next, s', c', t' := RightCases(z, parent, grand, s, c, t, order);
        }
      }
    }

    /** The fix-up loop. */
    method FixUp(z: Node, ghost s0: Store, ghost c0: Context, ghost t0: Tree, ghost order: seq<Node>)
      returns (ghost s: Store, ghost whole: Tree)
      requires InHeap(s0) && Fixing(s0, c0, z, t0, order)
      modifies this`root, s0.cells.Keys
      ensures InHeap(s) && Represents(s, whole) && Balanced(whole) && !IsRed(whole) && Inorder(whole) == order
      ensures s.cells.Keys == s0.cells.Keys
    {
      hide Fixing, Represents, Balanced;
      ghost var c, t := c0, t0;
      s := s0;
      var x := z;
      AtTop(s, c, x, t, order);
      assert CellOf(x) == s.cells[x] && (c != Top ==> CellOf(c.node) == s.cells[c.node]);
      while x != root && x.parent.color == Red
        invariant InHeap(s) && Fixing(s, c, x, t, order) && s.cells.Keys == s0.cells.Keys
        invariant x == root <==> c == Top
        invariant c != Top ==> x.parent == c.node && c.node.color == c.color
        decreases Depth(c)
      {
        x, s, c, t := Round(x, s, c, t, order);
        AtTop(s, c, x, t, order);
        assert CellOf(x) == s.cells[x] && (c != Top ==> CellOf(c.node) == s.cells[c.node]);
      }
      whole := Complete(s, c, x, t, order);
      root.color := Black;
      s := Paint(s, s.root, Black);
    }

    /** rb_tree_insert. */
    method Insert(z: Node)
      requires Valid() && z !in store.cells
      modifies this, store.cells.Keys, z
      ensures Valid()
      ensures Inserted(old(Inorder(tree)), z, Inorder(tree))
      ensures store.cells.Keys == old(store.cells.Keys) + {z}
    {
      hide Represents, Fixing, Split, Balanced, SortedBySize, Inserted, Accepts, RightPlace, Plug, Inorder, InHeap;
      z.left := null;
      z.right := null;
      z.color := Red;
      assert Valid();
      var parent, c := FindPlace(z);
      PlaceInserts(c, z);
      StartFixing(store, tree, c, z);
      Attach(z, parent);
      ghost var t := Branch(Leaf, Red, z, Leaf);
      InsertedSorted(Inorder(tree), z, Inorder(Plug(c, t)));
      hide Attached;
      store, tree := FixUp(z, Attached(store, z, parent), c, t, Inorder(Plug(c, t)));
    }

    // ----- the fit searches -----

    /** What the searches rely on: the tree is in the heap and sorted by size, balanced or not. */
    ghost predicate Searchable()
      reads this, store.cells.Keys
    {
      InHeap(store) && Represents(store, tree) && SortedBySize(Inorder(tree))
    }

    /** node is the root of the subtree t of the heap. */
    ghost predicate At(node: Node?, p: Node?, t: Tree)
      reads this, store.cells.Keys
    {
      InHeap(store) && Holds(store.cells, node, p, t) && SortedBySize(Inorder(t))
    }

    lemma Children(node: Node, p: Node?, t: Tree)
      requires At(node, p, t)
      ensures t.Branch? && t.node == node && At(node.left, node, t.left) && At(node.right, node, t.right)
      ensures forall x :: x in Inorder(t.left) ==> x.size <= node.size
      ensures forall x :: x in Inorder(t.right) ==> node.size <= x.size
      ensures forall x :: x in Inorder(t) <==> x in Inorder(t.left) || x == node || x in Inorder(t.right)
    {
      assert CellOf(node) == store.cells[node];
      assert Holds(store.cells, node.left, node, t.left) && Holds(store.cells, node.right, node, t.right);
      SortedAround(Inorder(t.left), node, Inorder(t.right));
      SortedParts(Inorder(t.left), node, Inorder(t.right));
    }

    static lemma SortedParts(a: seq<Node>, x: Node, b: seq<Node>)
      requires SortedBySize(a + [x] + b)
      ensures SortedBySize(a) && SortedBySize(b)
    {
      var s := a + [x] + b;
      forall i, j | 0 <= i < j < |a| ensures a[i].size <= a[j].size { assert s[i] == a[i] && s[j] == a[j]; }
      forall i, j | 0 <= i < j < |b|
        ensures b[i].size <= b[j].size
      {
        assert s[|a| + 1 + i] == b[i] && s[|a| + 1 + j] == b[j];
      }
    }

    /** get_best_free_block: a smallest block that is large enough, or nothing when none is. */
    method BestFit(size: nat) returns (best: Node?)
      requires Searchable()
      ensures best == null <==> forall x :: x in Inorder(tree) ==> x.size < size
      ensures best != null ==> best in Inorder(tree) && best.size >= size
      ensures best != null ==> forall x :: x in Inorder(tree) && x.size >= size ==> best.size <= x.size
    {
      var block := root;
      best := null;
      ghost var p: Node?, t := null, tree;
      while block != null
        invariant At(block, p, t) && (forall x :: x in Inorder(t) ==> x in Inorder(tree))
        invariant best != null ==> best in Inorder(tree) && best.size >= size
        invariant best != null ==> forall x :: x in Inorder(t) ==> x.size <= best.size
        invariant forall x :: x in Inorder(tree) && x.size >= size ==>
          x in Inorder(t) || (best != null && best.size <= x.size)
        decreases t
      {
        Children(block, p, t);
        if block.size >= size { best := block; }
        if block.size < size {
          p, block, t := block, block.right, t.right;
        } else if block.size > size {
          p, block, t := block, block.left, t.left;
        } else {
          break;
        }
      }
      if block == null { assert t == Leaf && Inorder(t) == []; }
    }

    /** get_worst_free_block: a largest block, when it is large enough. */
    method WorstFit(size: nat) returns (worst: Node?)
      requires Searchable()
      ensures worst == null <==> forall x :: x in Inorder(tree) ==> x.size < size
      ensures worst != null ==> worst in Inorder(tree) && worst.size >= size
      ensures worst != null ==> forall x :: x in Inorder(tree) ==> x.size <= worst.size
    {
      var block := root;
      worst := null;
      ghost var p: Node?, t := null, tree;
      while block != null
        invariant At(block, p, t) && (forall x :: x in Inorder(t) ==> x in Inorder(tree))
        invariant worst != null ==> worst in Inorder(tree) && worst.size >= size
        invariant worst != null ==> forall x :: x in Inorder(t) ==> worst.size <= x.size
        invariant forall x :: x in Inorder(tree) ==>
          x in Inorder(t) || x.size < size || (worst != null && x.size <= worst.size)
        decreases t
      {
        Children(block, p, t);
        if block.size >= size { worst := block; }
        p, block, t := block, block.right, t.right;
      }
      assert t == Leaf && Inorder(t) == [];
    }

    /**
     get_first_free_block: it follows right links only, yet misses no block that is large
     enough. The block it returns is the topmost large enough one on that path.
     */
    method FirstFit(size: nat) returns (first: Node?, ghost k: nat)
      requires Searchable()
      ensures first == null <==> forall x :: x in Inorder(tree) ==> x.size < size
      ensures first != null ==> first in Inorder(tree) && first.size >= size
      ensures first != null ==> k < |RightSpine(tree)| && RightSpine(tree)[k] == first
      ensures first != null ==> forall j :: 0 <= j < k ==> RightSpine(tree)[j].size < size
    {
      hide At, RightSpine, Searchable;
      AtRoot();
      var block := root;
      ghost var p: Node?, t := null, tree;
      ghost var passed: seq<Node> := [];
      first, k := null, 0;
      while block != null
        invariant At(block, p, t) && (forall x :: x in Inorder(t) ==> x in Inorder(tree))
        invariant forall x :: x in Inorder(tree) ==> x in Inorder(t) || x.size < size
        invariant k == |passed| && RightSpine(tree) == passed + RightSpine(t)
        invariant forall j :: 0 <= j < |passed| ==> passed[j].size < size
        decreases t
      {
        Children(block, p, t);
        SpineStep(t);
        if block.size >= size {
          return block, k;
        }
        passed, k := passed + [block], k + 1;
        p, block, t := block, block.right, t.right;
      }
      Bottom(p, t);
    }

    lemma AtRoot()
      requires Searchable()
      ensures At(root, null, tree)
    {
    }

    lemma Bottom(p: Node?, t: Tree)
      requires At(null, p, t)
      ensures t == Leaf && Inorder(t) == []
    {
    }
  }

  lemma SpineStep(t: Tree)
    requires t.Branch?
    ensures RightSpine(t) == [t.node] + RightSpine(t.right)
  {
  }
}
