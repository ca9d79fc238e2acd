/** The red-black tree with parent pointers. */
module RedBlackTree {
  import opened BitUtils
  import opened RbTrees
  import opened RbDeletion

  lemma {:induction false} HeadInCtx(c: Ctx, x: Node?, p: Node?, head: Node?)
    requires CtxLinked(c, x, p, head)
    ensures if c.Top? then head == x else head in CtxNodes(c)
  {
    match c {
      case Top =>
      case InLeft(up, n, _, _, _, _) => HeadInCtx(up, n, n.parent, head);
      case InRight(up, n, _, _, _, _) => HeadInCtx(up, n, n.parent, head);
    }
  }

  lemma {:induction false} NodesAllocated(t: Tree)
    ensures allocated(Nodes(t))
  {
    match t {
      case Leaf =>
      case T(l, n, _, _, _, r) => NodesAllocated(l); NodesAllocated(r);
    }
  }

  lemma {:induction false} CtxNodesAllocated(c: Ctx)
    ensures allocated(CtxNodes(c))
  {
    match c {
      case Top =>
      case InLeft(up, n, _, _, _, other) => CtxNodesAllocated(up); NodesAllocated(other);
      case InRight(up, n, _, _, _, other) => CtxNodesAllocated(up); NodesAllocated(other);
    }
  }

  lemma HolderLinked(c: Ctx, x: Node?, p: Node?, head: Node?)
    requires CtxLinked(c, x, p, head) && !c.Top?
    ensures p == c.node && p.key == c.key && p.red == c.red
    ensures x == if c.InLeft? then p.left else p.right
  {
  }

  lemma RootLinked(t: Tree, x: Node?, p: Node?)
    requires Linked(t, x, p)
    ensures x == null <==> t == Leaf
    ensures x != null ==> x in Nodes(t) && x.parent == p
    ensures t.T? ==> x == t.node && x.red == t.red && x.key == t.key && x.data == t.data
  {
  }

  ghost function Root(t: Tree): set<Node> {
    if t.Leaf? then {} else {t.node}
  }

  lemma RootInside(t: Tree)
    ensures Root(t) <= Nodes(t)
  {
  }

  lemma HolderInside(c: Ctx)
    ensures Holder(c) <= CtxNodes(c)
  {
  }

  lemma TopBalanced(c: Ctx, n: nat)
    ensures c.Top? ==> CtxBalanced(c, n, null)
  {
  }

  lemma SiblingInside(c: Ctx)
    ensures !c.Top? ==> Root(c.other) <= CtxNodes(c)
  {
  }

  /** A key below a red parent lies on the same side of every ancestor as the parent. */
  lemma FamilySide(c: Ctx, t: Tree, up: Ctx)
    requires t.T? && !c.Top? && up == c.up && !up.Top? && Ordered(t, Lo(c), Hi(c), null) && CtxOrdered(c, null)
    ensures up.key < t.key <==> up.InRight?
    ensures up.InLeft? ==> t.key < up.key
  {
  }

  /** On which side of the holder the keys of a subtree lie. */
  lemma SideOfHolder(c: Ctx, t: Tree, doomed: Node?)
    requires t.T? && t.node != doomed && Ordered(t, Lo(c), Hi(c), doomed) && !c.Top?
    ensures c.key < t.key <==> c.InRight?
  {
  }

  /** What the key tests that decide a node's side see: the doomed node's key may equal its neighbour's. */
  lemma SideTests(c: Ctx, t: Tree, doomed: Node?)
    requires t.T? && !c.Top? && doomed !in CtxNodes(c)
    requires CtxOrdered(c, doomed) && Ordered(t, Lo(c), Hi(c), doomed)
    ensures c.InLeft? ==> t.key <= c.key && (c.other.T? ==> t.key < c.other.key)
  {
  }

  lemma NoSuchKey(c: Ctx, key: nat)
    requires CtxOrdered(c, null) && Lo(c) < key < Hi(c)
    ensures !HasKey(Plug(c, Leaf), key)
  {
    PlugNodes(c, Leaf);
    forall e | e in CtxEntries(c)
      ensures e.key != key
    {
      CtxKeysOutside(c, e);
    }
  }

  lemma KeyFound(c: Ctx, t: Tree)
    requires t.T?
    ensures HasKey(Plug(c, t), t.key) && t.node in Nodes(Plug(c, t))
  {
    PlugNodes(c, t);
    assert Entry(t.node, t.key, t.data) in Entries(t);
  }

  lemma HoleSide(c: Ctx, key: nat)
    requires !c.Top? && CtxOrdered(c, null) && Lo(c) < key < Hi(c)
    ensures c.key < key <==> c.InRight?
    ensures c.InLeft? ==> key < c.key
  {
  }

  lemma UpBlackRoot(c: Ctx)
    requires !c.Top? && CtxBlackRoot(c)
    ensures if c.up.Top? then !c.red else CtxBlackRoot(c.up)
  {
  }

  lemma LeafFacts(leaf: Tree, node: Node, key: nat, c: Ctx, n: nat)
    requires leaf == T(Leaf, node, key, node.data, true, Leaf) && key == node.key && node.red
    requires node.left == null && node.right == null && Balanced(Leaf, n, null) && Lo(c) < key < Hi(c)
    ensures Linked(leaf, node, node.parent) && Nodes(leaf) == {node} && Distinct(leaf)
    ensures Ordered(leaf, Lo(c), Hi(c), null) && Balanced(leaf, n, null) && IsRed(leaf, null)
    ensures Entries(leaf) == {Entry(node, key, node.data)} && Entries(Leaf) == {} && Nodes(Leaf) == {}
  {
  }

  lemma OneNode(node: Node, key: nat)
    requires key == node.key < KEY_LIMIT && !node.red && node.left == null && node.right == null && node.parent == null
    ensures var t := T(Leaf, node, key, node.data, false, Leaf);
            && Linked(t, node, null) && RedBlack(t) && Nodes(t) == {node}
            && Entries(t) == {Entry(node, key, node.data)}
  {
    var t := T(Leaf, node, key, node.data, false, Leaf);
    assert Balanced(t, 1, null);
  }

  lemma SomeHeight(t: Tree) returns (n: nat)
    requires RedBlack(t)
    ensures Balanced(t, n, null)
  {
    n :| Balanced(t, n, null);
  }

  lemma StepsAreFew(t: Tree, key: int)
    requires RedBlack(t)
    ensures Pow2((PathLength(t, key) + 1) / 2) <= Size(t) + 1
  {
    hide RedBlack, Height, Size, PathLength;
    RedBlackIsShallow(t);
    PathIsShort(t, key);
    Pow2Monotone((PathLength(t, key) + 1) / 2, (Height(t) + 1) / 2);
  }

  lemma CopyPairs(c: Ctx, t: Tree, m: Tree)
    requires t.T? && CtxDistinct(c) && Distinct(t) && CtxNodes(c) !! Nodes(t)
    requires (t.right.T? && m == Leftmost(t.right)) || (t.left.T? && m == Rightmost(t.left))
    ensures PairsBut(Entries(Plug(c, Overwritten(t, m.key, m.data))), m.node) == PairsBut(Entries(Plug(c, t)), t.node)
    ensures Size(m) < Size(t)
  {
    hide PairsBut, Entries, CtxEntries, Distinct, CtxDistinct, Nodes, CtxNodes;
    PlugNodes(c, t);
    PlugNodes(c, Overwritten(t, m.key, m.data));
    if t.right.T? && m == Leftmost(t.right) {
      LeftmostEntry(t.right);
    } else {
      RightmostEntry(t.left);
    }
    CopyStep(c, t, Entry(m.node, m.key, m.data));
  }

  lemma DoomedOutside(c: Ctx, t: Tree)
    requires t.T? && CtxNodes(c) !! Nodes(t)
    ensures t.node !in CtxNodes(c) && t.node in Nodes(t)
  {
  }

  lemma NothingWithout(t: Tree, key: nat)
    requires !HasKey(t, key)
    ensures Without(Pairs(t), key) == Pairs(t)
  {
    forall p | p in Pairs(t)
      ensures p.0 != key
    {
      var e :| e in Entries(t) && p == (e.key, e.data);
    }
  }

  /** What the leaf that is to go means for the balance: a red one nothing, a black one a missing node. */
  lemma LeafBalance(c: Ctx, t: Tree, n: nat)
    requires t.T? && t.left.Leaf? && t.right.Leaf? && CtxNodes(c) !! Nodes(t)
    requires BalanceFits(c, t, n, null)
    ensures t.red ==> Balanced(t, 0, t.node) && CtxBalanced(c, 0, t.node)
    ensures t.red ==> !IsRed(t, t.node) && CtxBlackRoot(c) && !c.Top?
    ensures !t.red ==> Short(c, t, 0, t.node)
  {
    DoomedOutside(c, t);
    if t.red {
      RedLeafDoomed(c, t, n);
    } else {
      BlackLeafShort(c, t, n);
    }
  }

  /** The node that a context hangs its hole from. */
  ghost function Holder(c: Ctx): set<Node> {
    if c.Top? then {} else {c.node}
  }

  datatype Status = Ok | NoKey

  datatype Direction = LeftNode | RightNode | RootNode

  class RbTree {
    var head: Node?
    ghost var tree: Tree

    constructor ()
      ensures Valid() && tree == Leaf && head == null
    {
      head, tree := null, Leaf;
      new;
      assert Balanced(tree, 0, null);
    }

    ghost predicate Located(c: Ctx, t: Tree, x: Node?, p: Node?)
      reads this, CtxNodes(c), Nodes(t)
    {
      && CtxLinked(c, x, p, head) && Linked(t, x, p)
      && CtxDistinct(c) && Distinct(t) && CtxNodes(c) !! Nodes(t)
    }

    /** node and the child that rises above it trade colours, and the child takes node's place below gParent. */
    static method Exchange(node: Node, child: Node, gParent: Node?)
      requires node != child
      modifies node`parent, node`red, child`parent, child`red
      ensures node.parent == child && child.parent == gParent
      ensures node.red == old(child.red) && child.red == old(node.red)
    {
      var cColor := child.red;
      var pColor := node.red;
      child.parent := gParent;
      node.parent := child;
      child.red := pColor;
      node.red := cColor;
    }

    /** The subtree b, which hung below was, hangs below parent. */
    static method Adopt(child: Node?, parent: Node, ghost b: Tree, ghost was: Node?)
      requires Linked(b, child, was) && Distinct(b)
      modifies Root(b)
      ensures Linked(b, child, parent)
    {
      if child != null {
        child.parent := parent;
      }
    }

    /** The end of both rotations: whatever pointed at node points at top. */
    method Rehang(gParent: Node?, node: Node, top: Node, ghost c: Ctx)
      requires CtxLinked(c, node, gParent, head) && CtxDistinct(c) && node !in CtxNodes(c) && top !in CtxNodes(c)
      requires !c.Top? ==> (c.key < top.key <==> c.InRight?)
      modifies `head, Holder(c)
      ensures CtxLinked(c, top, gParent, head)
    {
      HeadInCtx(c, node, gParent, head);
      if gParent != null {
        if gParent.key < top.key {
          gParent.right := top;
        } else {
          gParent.left := top;
        }
      }
      if node == head {
        head := top;
      }
    }

    /** The first half of a right rotation: the links and colours below node's parent. */
    static method TwistRight(node: Node, ghost t: Tree, ghost p: Node?) returns (lChild: Node)
      requires Linked(t, node, p) && Distinct(t) && t.T? && t.left.T?
      modifies Nodes(t)
      ensures lChild == t.left.node && Linked(RotatedRight(t), lChild, p)
    {
      hide Nodes, CtxNodes, CtxLinked, Distinct, CtxDistinct, Ordered, CtxOrdered;
      RightParts(t);
      ghost var a, b, d := t.left.left, t.left.right, t.right;
      NodesAllocated(a);
      NodesAllocated(b);
      NodesAllocated(d);
      assert Linked(t.left, node.left, node);
      var gParent := node.parent;
      lChild := node.left;
      var gChild := lChild.right;
      RootLinked(b, gChild, lChild);
      RootInside(b);
      Exchange(node, lChild, gParent);
      lChild.right := node;
      node.left := gChild;
      Adopt(gChild, node, b, lChild);
    }

    /** Raises the left child of node; the node raised must not be the doomed one, whose key may equal another. */
    method RotateRight(node: Node, ghost c: Ctx, ghost t: Tree, ghost doomed: Node?) returns (top: Node, ghost r: Tree)
      requires Located(c, t, node, node.parent)
      requires t.T? && t.left.T? && t.left.node != doomed
      requires CtxOrdered(c, doomed) && Ordered(t, Lo(c), Hi(c), doomed)
      modifies `head, Nodes(t), Holder(c)
      ensures r == RotatedRight(t) && top == r.node
      ensures Located(c, r, top, top.parent)
      ensures Nodes(r) == Nodes(t) && Entries(r) == Entries(t) && Ordered(r, Lo(c), Hi(c), doomed)
    {
      hide Nodes, CtxNodes, CtxLinked, Distinct, CtxDistinct, Ordered, CtxOrdered;
      NodesAllocated(t);
      CtxNodesAllocated(c);
      r := RotatedRight(t);
      RightParts(t);
      RotatedRightOrdered(t, Lo(c), Hi(c), doomed);
      HolderInside(c);
      if !c.Top? {
        SideOfHolder(c, r, doomed);
      }
      var gParent := node.parent;
      top := TwistRight(node, t, gParent);
      Rehang(gParent, node, top, c);
    }

    /** The first half of a left rotation: the links and colours below node's parent. */
    static method TwistLeft(node: Node, ghost t: Tree, ghost p: Node?) returns (rChild: Node)
      requires Linked(t, node, p) && Distinct(t) && t.T? && t.right.T?
      modifies Nodes(t)
      ensures rChild == t.right.node && Linked(RotatedLeft(t), rChild, p)
    {
      hide Nodes, CtxNodes, CtxLinked, Distinct, CtxDistinct, Ordered, CtxOrdered;
      LeftParts(t);
      ghost var a, b, d := t.left, t.right.left, t.right.right;
      NodesAllocated(a);
      NodesAllocated(b);
      NodesAllocated(d);
      assert Linked(t.right, node.right, node);
      var gParent := node.parent;
      rChild := node.right;
      var gChild := rChild.left;
      RootLinked(b, gChild, rChild);
      RootInside(b);
      Exchange(node, rChild, gParent);
      rChild.left := node;
      node.right := gChild;
      Adopt(gChild, node, b, rChild);
    }

    /** Raises the right child of node; the node raised must not be the doomed one, whose key may equal another. */
    method RotateLeft(node: Node, ghost c: Ctx, ghost t: Tree, ghost doomed: Node?) returns (top: Node, ghost r: Tree)
      requires Located(c, t, node, node.parent)
      requires t.T? && t.right.T? && t.right.node != doomed
      requires CtxOrdered(c, doomed) && Ordered(t, Lo(c), Hi(c), doomed)
      modifies `head, Nodes(t), Holder(c)
      ensures r == RotatedLeft(t) && top == r.node
      ensures Located(c, r, top, top.parent)
      ensures Nodes(r) == Nodes(t) && Entries(r) == Entries(t) && Ordered(r, Lo(c), Hi(c), doomed)
    {
      hide Nodes, CtxNodes, CtxLinked, Distinct, CtxDistinct, Ordered, CtxOrdered;
      NodesAllocated(t);
      CtxNodesAllocated(c);
      r := RotatedLeft(t);
      LeftParts(t);
      RotatedLeftOrdered(t, Lo(c), Hi(c), doomed);
      HolderInside(c);
      if !c.Top? {
        SideOfHolder(c, r, doomed);
      }
      var gParent := node.parent;
      top := TwistLeft(node, t, gParent);
      Rehang(gParent, node, top, c);
    }

    // ----- Insertion

    ghost predicate Valid()
      reads this, Nodes(tree)
    {
      Linked(tree, head, null) && RedBlack(tree)
    }

    /** A focus of black height n fits its context. */
    ghost predicate Fits(c: Ctx, t: Tree, n: nat, doomed: Node?)
    {
      OrderFits(c, t, doomed) && BalanceFits(c, t, n, doomed)
    }

    ghost method Close(c: Ctx, t: Tree, n: nat, x: Node?, p: Node?)
      requires Located(c, t, x, p) && Fits(c, t, n, null)
      modifies `tree
      ensures Valid()
      ensures tree == Plug(c, t)
      ensures Nodes(tree) == CtxNodes(c) + Nodes(t)
      ensures Entries(tree) == CtxEntries(c) + Entries(t)
    {
      hide Nodes, CtxNodes, Linked, CtxLinked, Distinct, CtxDistinct, Ordered, CtxOrdered, Balanced, CtxBalanced,
           Plug, CtxBlackRoot, RedBlack;
      CloseLinked(c, t, x, p, head);
      CloseRedBlack(c, t, n);
      tree := Plug(c, t);
    }

    lemma LocatedUp(c: Ctx, t: Tree, x: Node?, p: Node?)
      requires Located(c, t, x, p) && !c.Top?
      ensures p == c.node && Located(c.up, Up(c, t), p, c.node.parent)
    {
      hide Nodes, CtxNodes, Linked, CtxLinked, Distinct, CtxDistinct;
      UpLinked(c, t, x, p, head);
      UpDistinct(c, t);
    }

    /** Rebalances around a red node with a red child, when its sibling is black. */
    method PerformRotation(parent: Node, key: nat, ghost c: Ctx, ghost t: Tree, ghost n: nat)
      requires Located(c, t, parent, parent.parent) && !c.Top? && t.T?
      requires CtxOrdered(c, null) && Ordered(t, Lo(c), Hi(c), null) && CtxBalanced(c, n, null) && CtxBlackRoot(c)
      requires Loose(t, n) && t.red && RedSide(t, key) && !c.red && !IsRed(c.other, null)
      modifies this, CtxNodes(c), Nodes(t)
      ensures Valid()
      ensures Nodes(tree) == CtxNodes(c) + Nodes(t)
      ensures Entries(tree) == CtxEntries(c) + Entries(t)
    {
      hide Nodes, CtxNodes, CtxLinked, Distinct, CtxDistinct, Ordered, CtxOrdered, CtxBalanced, Entries, CtxEntries;
      NodesAllocated(t);
      CtxNodesAllocated(c);
      SideOfHolder(c, t, null);
      var gParent := parent.parent;
      UpFacts(c, t, null);
      LocatedUp(c, t, parent, parent.parent);
      HolderInside(c);
      HolderInside(c.up);
      ghost var top, r;
      var raised := parent;
      if gParent.key < parent.key {
        if parent.key < key {
          StraightBalanced(c, t, n);
          top, r := RotateLeft(gParent, c.up, Up(c, t), null);
        } else {
          ZigzagBalanced(c, t, n);
          raised, r := RotateRight(parent, c, t, null);
          UpFacts(c, r, null);
          LocatedUp(c, r, raised, raised.parent);
          top, r := RotateLeft(gParent, c.up, Up(c, r), null);
        }
      } else {
        if parent.key < key {
          ZigzagBalanced(c, t, n);
          raised, r := RotateLeft(parent, c, t, null);
          UpFacts(c, r, null);
          LocatedUp(c, r, raised, raised.parent);
          top, r := RotateRight(gParent, c.up, Up(c, r), null);
        } else {
          StraightBalanced(c, t, n);
          top, r := RotateRight(gParent, c.up, Up(c, t), null);
        }
      }
      Close(c.up, r, n + 1, top, top.parent);
    }

    /** bf_get_rbt_neigh_color: whether the sibling is red. */
    method GetNeighColor(root: Node, ghost c: Ctx, ghost t: Tree, ghost doomed: Node?) returns (red: bool)
      requires Located(c, t, root, root.parent) && t.T? && doomed !in CtxNodes(c)
      requires CtxOrdered(c, doomed) && Ordered(t, Lo(c), Hi(c), doomed)
      ensures red <==> !c.Top? && c.other.T? && c.other.red
    {
      hide Nodes, CtxNodes, Distinct, CtxDistinct, Ordered, CtxOrdered;
      if root.parent == null {
        return false;
      }
      var parent: Node := root.parent;
      SideTests(c, t, doomed);
      var isRight := (parent.right != null && parent.right.key == root.key) || parent.key < root.key;
      var isLeft := (parent.left != null && parent.left.key == root.key) || parent.key > root.key;
      if isRight {
        if parent.left != null {
          return parent.left.red;
        }
      } else if isLeft {
        if parent.right != null {
          return parent.right.red;
        }
      }
      return false;
    }

    static method PaintRoot(node: Node, red: bool, ghost t: Tree, ghost p: Node?)
      requires Linked(t, node, p) && Distinct(t) && t.T?
      modifies node`red
      ensures Linked(Painted(t, red), node, p)
    {
      node.red := red;
    }

    method Paint(node: Node, red: bool, ghost c: Ctx, ghost t: Tree)
      requires Located(c, t, node, node.parent) && t.T?
      modifies node`red
      ensures Located(c, Painted(t, red), node, node.parent)
    {
      hide Nodes, CtxNodes, Distinct, CtxDistinct, Ordered, CtxOrdered, CtxLinked;
      NodesAllocated(t);
      CtxNodesAllocated(c);
      PaintFacts(t, red, null);
      RootLinked(t, node, node.parent);
      PaintRoot(node, red, t, node.parent);
    }

    method PaintSibling(sibling: Node, red: bool, ghost c: Ctx, ghost t: Tree, ghost x: Node?, ghost p: Node?)
      requires Located(c, t, x, p) && !c.Top? && c.other.T? && c.other.node == sibling
      modifies sibling`red
      ensures Located(SiblingPainted(c, red), t, x, p)
    {
      hide Distinct, Ordered, CtxOrdered;
      NodesAllocated(t);
      CtxNodesAllocated(c);
      SiblingPaintFacts(c, red, null);
      PaintRoot(sibling, red, c.other, c.node);
    }

    /** bf_color_fix_rbt_nodes: two red siblings turn black, and their parent red unless it is the root. */
    method ColorFix(root: Node, ghost c: Ctx, ghost t: Tree, ghost n: nat)
      requires Located(c, t, root, root.parent) && t.T?
      requires CtxOrdered(c, null) && Ordered(t, Lo(c), Hi(c), null) && CtxBalanced(c, n, null)
      requires Loose(t, n) && (if c.Top? then !t.red else CtxBlackRoot(c))
      requires t.red ==> !c.red && IsRed(c.other, null)
      modifies this, CtxNodes(c), Nodes(t)
      ensures Valid()
      ensures Nodes(tree) == CtxNodes(c) + Nodes(t)
      ensures Entries(tree) == CtxEntries(c) + Entries(t)
      decreases c, 0
    {
      hide Nodes, CtxNodes, CtxDistinct, Distinct, Ordered, CtxOrdered, CtxBalanced, Entries, CtxEntries;
      if !root.red {
        Close(c, t, n, root, root.parent);
        return;
      }
      NodesAllocated(t);
      CtxNodesAllocated(c);
      HolderInside(c);
      RootInside(t);
      SiblingInside(c);
      SideOfHolder(c, t, null);
      var parent: Node := root.parent;
      var sibling: Node;
      if parent.key < root.key {
        sibling := parent.left;
      } else {
        sibling := parent.right;
      }
      RecolourBalanced(c, t, n);
      PaintFacts(t, false, null);
      SiblingPaintFacts(c, false, null);
      Paint(root, false, c, t);
      ghost var t1 := Painted(t, false);
      PaintSibling(sibling, false, c, t1, root, parent);
      ghost var c1 := SiblingPainted(c, false);
      UpFacts(c1, t1, null);
      LocatedUp(c1, t1, root, parent);
      if !c.up.Top? {
        FamilySide(c, t, c.up);
      }
      ColorParent(parent, root.key, c.up, Up(c1, t1), n);
    }

    /** The end of bf_color_fix_rbt_nodes: the root stays black, any other parent of two black nodes turns red. */
    method ColorParent(parent: Node, key: nat, ghost c: Ctx, ghost t: Tree, ghost n: nat)
      requires Located(c, t, parent, parent.parent) && t.T? && !t.red
      requires CtxOrdered(c, null) && Ordered(t, Lo(c), Hi(c), null) && CtxBalanced(c, n + 1, null)
      requires Balanced(t, n + 2, null) && Balanced(Painted(t, true), n + 1, null)
      requires !c.Top? ==> CtxBlackRoot(c) && (c.key < key <==> c.InRight?) && (c.InLeft? ==> key < c.key)
      modifies this, CtxNodes(c), Nodes(t)
      ensures Valid()
      ensures Nodes(tree) == CtxNodes(c) + Nodes(t)
      ensures Entries(tree) == CtxEntries(c) + Entries(t)
      decreases c, 2
    {
      hide Nodes, CtxNodes, CtxDistinct, Distinct, Ordered, CtxOrdered, CtxBalanced, Entries, CtxEntries, Balanced;
      NodesAllocated(t);
      CtxNodesAllocated(c);
      RootInside(t);
      if parent.parent == null {
        Paint(parent, false, c, t);
        assert Painted(t, false) == t;
        TopBalanced(c, n + 2);
        Close(c, t, n + 2, parent, null);
      } else {
        Paint(parent, true, c, t);
        ghost var t1 := Painted(t, true);
        PaintFacts(t, true, null);
        RecolourGoesUp(c, t1, n + 1, key);
        UpFacts(c, t1, null);
        LocatedUp(c, t1, parent, parent.parent);
        BalancePostInsertion(parent.parent, key, c.up, Up(c, t1), if c.red then n + 1 else n + 2);
      }
    }

    /** bf_balance_rbt_post_insertion: root may be a red node that just got a red child on key's side. */
    method BalancePostInsertion(root: Node, key: nat, ghost c: Ctx, ghost t: Tree, ghost n: nat)
      requires Located(c, t, root, root.parent)
      requires CtxOrdered(c, null) && Ordered(t, Lo(c), Hi(c), null) && CtxBalanced(c, n, null)
      requires Loose(t, n) && RedSide(t, key) && !(ParentRed(c) && t.red)
      requires if c.Top? then !t.red else CtxBlackRoot(c)
      modifies this, CtxNodes(c), Nodes(t)
      ensures Valid()
      ensures Nodes(tree) == CtxNodes(c) + Nodes(t)
      ensures Entries(tree) == CtxEntries(c) + Entries(t)
      decreases c, 1
    {
      hide Nodes, CtxNodes, CtxDistinct, Distinct, Ordered, CtxOrdered, CtxBalanced, Entries, CtxEntries;
      NodesAllocated(t);
      CtxNodesAllocated(c);
      if root.red {
        var neighRed := GetNeighColor(root, c, t, null);
        if neighRed {
          ColorFix(root, c, t, n);
        } else {
          PerformRotation(root, key, c, t, n);
        }
      } else {
        Close(c, t, n, root, root.parent);
      }
    }

    lemma LocatedDown(c: Ctx, t: Tree, x: Node, p: Node?)
      requires Located(c, t, x, p) && t.T?
      ensures Located(DownLeft(c, t), t.left, x.left, x)
      ensures Located(DownRight(c, t), t.right, x.right, x)
    {
    }

    lemma StepDown(c: Ctx, t: Tree, x: Node, p: Node?, n: nat, doomed: Node?) returns (m: nat)
      requires Located(c, t, x, p) && t.T? && t.node != doomed && Fits(c, t, n, doomed)
      ensures Located(DownLeft(c, t), t.left, x.left, x) && Fits(DownLeft(c, t), t.left, m, doomed)
      ensures Located(DownRight(c, t), t.right, x.right, x) && Fits(DownRight(c, t), t.right, m, doomed)
      ensures Plug(DownLeft(c, t), t.left) == Plug(c, t) && Plug(DownRight(c, t), t.right) == Plug(c, t)
      ensures x == t.node && x.key == t.key
    {
      hide Nodes, CtxNodes, CtxLinked, Distinct, CtxDistinct, Ordered, CtxOrdered, Balanced, CtxBalanced,
           CtxBlackRoot, Plug;
      LocatedDown(c, t, x, p);
      DownFacts(c, t, doomed);
      DownBalanced(c, t, n, doomed);
      m := if t.red then n else n - 1;
    }

    /** The descent of the insertion: the node with the key, or the node that it will hang from. */
    method Descend(start: Node, key: nat) returns (root: Node?, prev: Node, ghost c: Ctx, ghost t: Tree, ghost n: nat)
      requires Valid() && start == head && key < KEY_LIMIT
      ensures Located(c, t, root, if root == null then prev else root.parent)
      ensures Fits(c, t, n, null)
      ensures Plug(c, t) == tree
      ensures Lo(c) < key < Hi(c)
      ensures root != null ==> t.T? && root == t.node && root.key == t.key == key
      ensures root == null ==> !c.Top? && c.node == prev && t == Leaf
    {
      hide Nodes, CtxNodes, CtxLinked, Distinct, CtxDistinct, Ordered, CtxOrdered, Balanced, CtxBalanced,
           CtxBlackRoot;
      prev, root := start, start;
      c, t := Top, tree;
      n :| Balanced(tree, n, null);
      AtTop(tree, n);
      ghost var p: Node? := null;
      while root != null
        invariant Located(c, t, root, p)
        invariant Fits(c, t, n, null)
        invariant Plug(c, t) == tree
        invariant Lo(c) < key < Hi(c)
        invariant root == null ==> p == prev && !c.Top? && c.node == prev
        decreases t
      {
        prev := root;
        ghost var m := StepDown(c, t, root, p, n, null);
        if root.key < key {
          c, t, n, p := DownRight(c, t), t.right, m, root;
          root := root.right;
        } else if root.key > key {
          c, t, n, p := DownLeft(c, t), t.left, m, root;
          root := root.left;
        } else {
          break;
        }
      }
    }

    lemma AtTop(t: Tree, n: nat)
      requires t == tree && Valid() && Balanced(t, n, null)
      ensures Located(Top, t, head, null) && Fits(Top, t, n, null) && Plug(Top, t) == t
    {
    }

    /** Stores the new leaf in the hole below root. */
    method Hang(root: Node, node: Node, key: nat, ghost c: Ctx)
      requires CtxLinked(c, null, root, head) && CtxDistinct(c) && !c.Top? && c.node == root
      requires c.InRight? <==> c.key < key
      modifies root`left, root`right
      ensures CtxLinked(c, node, root, head)
    {
      CtxNodesAllocated(c);
      if root.key < key {
        root.right := node;
      } else {
        root.left := node;
      }
    }

    /** bf_insert_rbt_entry on the head. */
    method Insert(start: Node?, key: nat) returns (res: Node)
      requires Valid() && start == head && key < KEY_LIMIT
      modifies this, Nodes(tree)
      ensures Valid()
      ensures HasKey(old(tree), key) ==> tree == old(tree) && res in Nodes(tree) && res.key == key
      ensures !HasKey(old(tree), key) ==> fresh(res) && Entries(tree) == Entries(old(tree)) + {Entry(res, key, 0)}
      ensures Nodes(tree) == old(Nodes(tree)) + {res}
    {
      hide Nodes, CtxNodes, Linked, CtxLinked, Distinct, CtxDistinct, Ordered, CtxOrdered, Balanced, CtxBalanced,
           CtxBlackRoot, Plug, Entries, CtxEntries, RedBlack, Loose, RedSide;
      NodesAllocated(tree);
      if start == null {
        res := new Node(key, start);
        res.red := false;
        EmptyTree();
        head := res;
        tree := T(Leaf, res, key, 0, false, Leaf);
        OneNode(res, key);
        return;
      }
      var root, prev, c, t, n := Descend(start, key);
      PlugNodes(c, t);
      CtxNodesAllocated(c);
      if root != null {
        KeyFound(c, t);
        return root;
      }
      root := prev;
      NoSuchKey(c, key);
      HoleSide(c, key);
      HolderInside(c);
      res := new Node(key, root);
      ghost var leaf := T(Leaf, res, key, 0, true, Leaf);
      LeafFacts(leaf, res, key, c, n);
      Hang(root, res, key, c);
      RecolourGoesUp(c, leaf, n, key);
      UpFacts(c, leaf, null);
      UpBlackRoot(c);
      LocatedUp(c, leaf, res, root);
      BalancePostInsertion(root, key, c.up, Up(c, leaf), if c.red then n else n + 1);
    }

    lemma EmptyTree()
      requires Valid() && head == null
      ensures tree == Leaf && Entries(tree) == {} && Nodes(tree) == {} && forall key :: !HasKey(tree, key)
    {
    }

    // ----- Searching

    /** The node with the greatest key not above key; the search takes at most 2 log2(size + 1) steps. */
    method GetLowerBound(key: nat, start: Node?) returns (lowerBound: Node?, ghost steps: nat)
      requires Valid() && start == head && key < KEY_LIMIT
      ensures IsLowerBound(tree, key, lowerBound)
      ensures steps == PathLength(tree, key) && Pow2((steps + 1) / 2) <= Size(tree) + 1
    {
      hide Nodes, CtxNodes, CtxLinked, Distinct, CtxDistinct, Ordered, CtxOrdered, Balanced, CtxBalanced,
           CtxBlackRoot, Pow2, IsLowerBound, Plug, Height, Size, RedBlack, Entries;
      lowerBound, steps := null, 0;
      var root := start;
      ghost var c, t := Top, tree;
      ghost var n: nat := SomeHeight(tree);
      AtTop(tree, n);
      ghost var p: Node? := null;
      while root != null
        invariant Located(c, t, root, p) && Fits(c, t, n, null)
        invariant Plug(c, t) == tree && Lo(c) < key < Hi(c)
        invariant lowerBound == LoNode(c)
        invariant steps + PathLength(t, key) == PathLength(tree, key)
        decreases t
      {
        ghost var m := StepDown(c, t, root, p, n, null);
        PathDown(t, key);
        steps := steps + 1;
        if root.key == key {
          BoundsAtKey(c, t);
          StepsAreFew(tree, key);
          return root, steps;
        } else if root.key > key {
          c, t, n, p := DownLeft(c, t), t.left, m, root;
          root := root.left;
        } else {
          lowerBound := root;
          c, t, n, p := DownRight(c, t), t.right, m, root;
          root := root.right;
        }
      }
      BoundsAtHole(c, key);
      StepsAreFew(tree, key);
    }

    /** The node with the least key not below key. */
    method GetUpperBound(key: nat, start: Node?) returns (upperBound: Node?, ghost steps: nat)
      requires Valid() && start == head && key < KEY_LIMIT
      ensures IsUpperBound(tree, key, upperBound)
      ensures steps == PathLength(tree, key) && Pow2((steps + 1) / 2) <= Size(tree) + 1
    {
      hide Nodes, CtxNodes, CtxLinked, Distinct, CtxDistinct, Ordered, CtxOrdered, Balanced, CtxBalanced,
           CtxBlackRoot, Pow2, IsUpperBound, Plug, Height, Size, RedBlack, Entries;
      upperBound, steps := null, 0;
      var root := start;
      ghost var c, t := Top, tree;
      ghost var n: nat := SomeHeight(tree);
      AtTop(tree, n);
      ghost var p: Node? := null;
      while root != null
        invariant Located(c, t, root, p) && Fits(c, t, n, null)
        invariant Plug(c, t) == tree && Lo(c) < key < Hi(c)
        invariant upperBound == HiNode(c)
        invariant steps + PathLength(t, key) == PathLength(tree, key)
        decreases t
      {
        ghost var m := StepDown(c, t, root, p, n, null);
        PathDown(t, key);
        steps := steps + 1;
        if root.key == key {
          BoundsAtKey(c, t);
          StepsAreFew(tree, key);
          return root, steps;
        } else if root.key < key {
          c, t, n, p := DownRight(c, t), t.right, m, root;
          root := root.right;
        } else {
          upperBound := root;
          c, t, n, p := DownLeft(c, t), t.left, m, root;
          root := root.left;
        }
      }
      BoundsAtHole(c, key);
      StepsAreFew(tree, key);
    }

    // ----- Deletion: rebalancing around the doomed leaf

    /** bf_get_neighbor_rbt_node: the sibling. */
    method GetNeighbor(root: Node, ghost c: Ctx, ghost t: Tree, ghost doomed: Node?) returns (r: Node?)
      requires Located(c, t, root, root.parent) && t.T? && doomed !in CtxNodes(c)
      requires CtxOrdered(c, doomed) && Ordered(t, Lo(c), Hi(c), doomed)
      ensures if c.Top? || c.other.Leaf? then r == null else r == c.other.node
    {
      hide Nodes, CtxNodes, Distinct, CtxDistinct, Ordered, CtxOrdered;
      if root.parent == null {
        return null;
      }
      var parent: Node := root.parent;
      SideTests(c, t, doomed);
      var isRight := (parent.right != null && parent.right.key == root.key) || parent.key < root.key;
      var isLeft := (parent.left != null && parent.left.key == root.key) || parent.key > root.key;
      if isRight {
        return parent.left;
      } else if isLeft {
        return parent.right;
      }
      return null;
    }

    /** bf_get_rbt_node_direction, which compares keys and so meets the duplicate. */
    method GetDirection(root: Node, ghost c: Ctx, ghost t: Tree, ghost doomed: Node?) returns (d: Direction)
      requires Located(c, t, root, root.parent) && t.T? && doomed !in CtxNodes(c)
      requires CtxOrdered(c, doomed) && Ordered(t, Lo(c), Hi(c), doomed)
      ensures d == if c.Top? then RootNode else if c.InLeft? then LeftNode else RightNode
    {
      hide Nodes, CtxNodes, Distinct, CtxDistinct, Ordered, CtxOrdered;
      if root.parent == null {
        return RootNode;
      }
      var parent: Node := root.parent;
      SideTests(c, t, doomed);
      if parent.key < root.key || (parent.right != null && parent.right.key == root.key) {
        return RightNode;
      }
      return LeftNode;
    }

    /** The focus that holds the doomed leaf is one black node short. */
    ghost predicate Rebalancing(c: Ctx, t: Tree, n: nat, node: Node, doomed: Node)
      reads this, node, CtxNodes(c), Nodes(t)
    {
      && Located(c, t, node, node.parent) && t.T? && doomed in Nodes(t)
      && CtxOrdered(c, doomed) && Ordered(t, Lo(c), Hi(c), doomed) && Short(c, t, n, doomed)
    }

    /** The whole tree is balanced and ordered but for the doomed leaf; its root's colour is open. */
    ghost predicate Rebalanced(doomed: Node)
      reads this, Nodes(tree)
    {
      && Linked(tree, head, null) && Distinct(tree) && doomed in Nodes(tree)
      && Ordered(tree, -1, KEY_LIMIT, doomed) && exists n: nat :: Balanced(tree, n, doomed)
    }

    ghost method CloseDoomed(c: Ctx, t: Tree, n: nat, x: Node?, p: Node?, doomed: Node)
      requires Located(c, t, x, p) && doomed in Nodes(t)
      requires CtxOrdered(c, doomed) && Ordered(t, Lo(c), Hi(c), doomed)
      requires CtxBalanced(c, n, doomed) && Balanced(t, n, doomed) && !(ParentRed(c) && IsRed(t, doomed))
      modifies `tree
      ensures Rebalanced(doomed)
      ensures tree == Plug(c, t)
      ensures Nodes(tree) == CtxNodes(c) + Nodes(t)
      ensures Entries(tree) == CtxEntries(c) + Entries(t)
    {
      hide Nodes, CtxNodes, Linked, CtxLinked, Distinct, CtxDistinct, Ordered, CtxOrdered, Balanced, CtxBalanced,
           Plug;
      CloseLinked(c, t, x, p, head);
      PlugNodes(c, t);
      PlugDistinct(c, t);
      PlugOrdered(c, t, doomed);
      var m := PlugBalanced(c, t, n, doomed);
      tree := Plug(c, t);
    }

    /** Black sibling without a red child. */
    method TurnSiblingRed(node: Node, neigh: Node, ghost c: Ctx, ghost t: Tree, ghost n: nat, ghost doomed: Node)
      returns (next: Node, done: bool)
      requires Rebalancing(c, t, n, node, doomed) && !c.Top?
      requires c.other.T? && c.other.node == neigh && !c.other.red && !IsRed(c.other.left, doomed)
                && !IsRed(c.other.right, doomed)
      modifies this, CtxNodes(c), Nodes(t)
      ensures done ==> Rebalanced(doomed)
      ensures done ==> Nodes(tree) == CtxNodes(c) + Nodes(t) && Entries(tree) == CtxEntries(c) + Entries(t)
      ensures !done ==> !c.red
      ensures !done ==> var t1 := Up(SiblingPainted(c, true), t);
                        && Rebalancing(c.up, t1, n + 1, next, doomed)
                        && CtxNodes(c.up) + Nodes(t1) == CtxNodes(c) + Nodes(t)
                        && CtxEntries(c.up) + Entries(t1) == CtxEntries(c) + Entries(t)
    {
      hide Nodes, CtxNodes, Linked, CtxLinked, Distinct, CtxDistinct, Ordered, CtxOrdered, Balanced, CtxBalanced,
           Entries, CtxEntries, SiblingPainted, Up, Short;
      NodesAllocated(t);
      CtxNodesAllocated(c);
      HolderInside(c);
      SiblingInside(c);
      SiblingTurnsRed(c, t, n, doomed);
      SiblingPaintFacts(c, true, doomed);
      ghost var p := node.parent;
      PaintSibling(neigh, true, c, t, node, p);
      ghost var c1 := SiblingPainted(c, true);
      SiblingPaintedShape(c, true);
      UpFacts(c1, t, doomed);
      LocatedUp(c1, t, node, p);
      ghost var g := Up(c1, t);
      UpHasNode(c1, t);
      var parent: Node := node.parent;
      RootLinked(g, parent, parent.parent);
      if parent.red {
        Paint(parent, false, c1.up, g);
        PaintFacts(g, false, doomed);
        CloseDoomed(c1.up, Painted(g, false), n + 1, parent, parent.parent, doomed);
        return node, true;
      } else {
        return parent, false;
      }
    }

    static method PaintChildRoot(top: Node, left: bool, ghost t: Tree, ghost p: Node?)
      requires Linked(t, top, p) && Distinct(t) && t.T? && (if left then t.left.T? else t.right.T?)
      modifies Root(if left then t.left else t.right)
      ensures Linked(FarPainted(t, left), top, p)
    {
      hide Distinct, Nodes;
      ChildParts(t);
      NodesAllocated(t.left);
      NodesAllocated(t.right);
      if left {
        PaintRoot(top.left, false, t.left, top);
      } else {
        PaintRoot(top.right, false, t.right, top);
      }
    }

    /** Turns one child of top black. */
    method PaintChild(top: Node, left: bool, ghost c: Ctx, ghost t: Tree, ghost doomed: Node?)
      requires Located(c, t, top, top.parent) && t.T? && (if left then t.left.T? else t.right.T?)
      requires Ordered(t, Lo(c), Hi(c), doomed)
      modifies Nodes(t) - {top}
      ensures Located(c, FarPainted(t, left), top, top.parent)
      ensures Ordered(FarPainted(t, left), Lo(c), Hi(c), doomed)
      ensures Nodes(FarPainted(t, left)) == Nodes(t) && Entries(FarPainted(t, left)) == Entries(t)
    {
      hide Nodes, CtxNodes, Linked, CtxLinked, Distinct, CtxDistinct, Ordered, CtxOrdered, Balanced, CtxBalanced,
           Entries, CtxEntries;
      NodesAllocated(t);
      CtxNodesAllocated(c);
      FarPaintedFacts(t, left, Lo(c), Hi(c), doomed);
      ChildParts(t);
      RootLinked(t, top, top.parent);
      PaintChildRoot(top, left, t, top.parent);
    }

    /** Black sibling with a red far child. */
    method FarCase(node: Node, neigh: Node, dir: Direction, ghost c: Ctx, ghost t: Tree, ghost n: nat,
            ghost doomed: Node)
      requires Rebalancing(c, t, n, node, doomed) && !c.Top?
      requires dir == if c.InLeft? then LeftNode else RightNode
      requires c.other.T? && c.other.node == neigh && neigh != doomed && !c.other.red && IsRed(Far(c), doomed)
      modifies this, CtxNodes(c), Nodes(t)
      ensures Rebalanced(doomed)
      ensures Nodes(tree) == CtxNodes(c) + Nodes(t) && Entries(tree) == CtxEntries(c) + Entries(t)
    {
      hide Nodes, CtxNodes, Linked, CtxLinked, Distinct, CtxDistinct, Ordered, CtxOrdered, Balanced, CtxBalanced,
           Entries, CtxEntries, Short;
      NodesAllocated(t);
      CtxNodesAllocated(c);
      HolderInside(c);
      HolderInside(c.up);
      FarRedFixes(c, t, n, doomed);
      UpFacts(c, t, doomed);
      UpHasNode(c, t);
      LocatedUp(c, t, node, node.parent);
      var parent: Node := node.parent;
      ghost var top, r;
      if dir == LeftNode {
        top, r := RotateLeft(parent, c.up, Up(c, t), doomed);
        PaintChild(neigh, false, c.up, r, doomed);
      } else {
        top, r := RotateRight(parent, c.up, Up(c, t), doomed);
        PaintChild(neigh, true, c.up, r, doomed);
      }
      CloseDoomed(c.up, FarPainted(r, c.InRight?), if c.red then n + 1 else n + 2, neigh, neigh.parent, doomed);
    }

    lemma LocatedAcross(c: Ctx, t: Tree, x: Node?, p: Node)
      requires Located(c, t, x, p) && !c.Top?
      ensures Located(Across(c, t), c.other, if c.InLeft? then p.right else p.left, p)
    {
    }

    /** Black sibling with a black far and a red near child: the far child is red afterwards. */
    method NearCase(node: Node, neigh: Node, dir: Direction, ghost c: Ctx, ghost t: Tree, ghost n: nat,
            ghost doomed: Node)
      returns (ghost o: Tree)
      requires Rebalancing(c, t, n, node, doomed) && !c.Top?
      requires dir == if c.InLeft? then LeftNode else RightNode
      requires c.other.T? && c.other.node == neigh && !c.other.red && !IsRed(Far(c), doomed) && IsRed(Near(c), doomed)
      modifies this, CtxNodes(c), Nodes(t)
      ensures Rebalancing(WithOther(c, o), t, n, node, doomed)
      ensures o.T? && !o.red && IsRed(Far(WithOther(c, o)), doomed)
      ensures CtxNodes(WithOther(c, o)) + Nodes(t) == CtxNodes(c) + Nodes(t)
      ensures CtxEntries(WithOther(c, o)) + Entries(t) == CtxEntries(c) + Entries(t)
    {
      hide Nodes, CtxNodes, Linked, CtxLinked, Distinct, CtxDistinct, Ordered, CtxOrdered, Balanced, CtxBalanced,
           Entries, CtxEntries, Short;
      NodesAllocated(t);
      CtxNodesAllocated(c);
      NearRedTurns(c, t, n, doomed);
      ghost var a := Across(c, t);
      RootLinked(t, node, node.parent);
      HolderLinked(c, node, node.parent, head);
      var parent: Node := node.parent;
      LocatedAcross(c, t, node, parent);
      RootLinked(c.other, if c.InLeft? then parent.right else parent.left, parent);
      AcrossFacts(c, t, c.other, doomed);
      HolderInside(a);
      var top;
      if dir == LeftNode {
        top, o := RotateRight(neigh, a, c.other, doomed);
      } else {
        top, o := RotateLeft(neigh, a, c.other, doomed);
      }
      AcrossFacts(c, t, o, doomed);
      AcrossFacts(a, o, o, doomed);
      HolderLinked(a, top, top.parent, head);
      LocatedAcross(a, o, top, parent);
      RootLinked(t, if c.InLeft? then parent.left else parent.right, parent);
    }

    /** Red sibling: it is rotated above the parent, which turns red. */
    method RedSiblingCase(node: Node, dir: Direction, ghost c: Ctx, ghost t: Tree, ghost n: nat, ghost doomed: Node)
      requires Rebalancing(c, t, n, node, doomed) && !c.Top?
      requires dir == if c.InLeft? then LeftNode else RightNode
      requires c.other.T? && c.other.node != doomed && c.other.red
      modifies this, CtxNodes(c), Nodes(t)
      ensures Rebalancing(BelowSibling(c), t, n, node, doomed)
      ensures CtxNodes(BelowSibling(c)) + Nodes(t) == CtxNodes(c) + Nodes(t)
      ensures CtxEntries(BelowSibling(c)) + Entries(t) == CtxEntries(c) + Entries(t)
    {
      hide Nodes, CtxNodes, Linked, CtxLinked, Distinct, CtxDistinct, Ordered, CtxOrdered, Balanced, CtxBalanced,
           Entries, CtxEntries, Short;
      NodesAllocated(t);
      CtxNodesAllocated(c);
      HolderInside(c);
      HolderInside(c.up);
      RootLinked(t, node, node.parent);
      RedSiblingRises(c, t, n, doomed);
      UpFacts(c, t, doomed);
      UpHasNode(c, t);
      LocatedUp(c, t, node, node.parent);
      var parent: Node := node.parent;
      ghost var top, r;
      if dir == RightNode {
        top, r := RotateRight(parent, c.up, Up(c, t), doomed);
        LocatedDown(c.up, r, top, top.parent);
        DownFacts(c.up, r, doomed);
        RootLinked(r.right, top.right, top);
        LocatedDown(DownRight(c.up, r), r.right, top.right, top);
        DownFacts(DownRight(c.up, r), r.right, doomed);
        RootLinked(t, top.right.right, top.right);
        assert DownRight(DownRight(c.up, r), r.right) == BelowSibling(c);
      } else {
        top, r := RotateLeft(parent, c.up, Up(c, t), doomed);
        LocatedDown(c.up, r, top, top.parent);
        DownFacts(c.up, r, doomed);
        RootLinked(r.left, top.left, top);
        LocatedDown(DownLeft(c.up, r), r.left, top.left, top);
        DownFacts(DownLeft(c.up, r), r.left, doomed);
        RootLinked(t, top.left.left, top.left);
        assert DownLeft(DownLeft(c.up, r), r.left) == BelowSibling(c);
      }
      UpFacts(BelowSibling(c), t, doomed);
      UpFacts(BelowSibling(c).up, Up(BelowSibling(c), t), doomed);
    }

    /** The final step of the rebalancing: the root is made black. */
    method BlackenHead(ghost doomed: Node)
      requires Rebalanced(doomed)
      modifies this, Nodes(tree)
      ensures Rebalanced(doomed) && BlackRoot(tree)
      ensures Nodes(tree) == old(Nodes(tree)) && Entries(tree) == old(Entries(tree))
    {
      hide Nodes, Linked, Distinct, Ordered, Balanced, Entries;
      NodesAllocated(tree);
      HasRoot(tree, doomed);
      RootLinked(tree, head, null);
      if head.red {
        ghost var n: nat :| Balanced(tree, n, doomed);
        BlackenedRoot(tree, n, doomed);
        PaintFacts(tree, false, doomed);
        PaintRoot(head, false, tree, null);
        tree := Painted(tree, false);
      }
    }

    lemma HasRoot(t: Tree, d: Node)
      requires d in Nodes(t)
      ensures t.T?
    {
    }

    lemma ParentOrTop(c: Ctx, t: Tree, node: Node)
      requires Located(c, t, node, node.parent)
      ensures node.parent == null <==> c.Top?
    {
    }

    /** The sibling's and its children's colours, as the loop reads them. */
    lemma SiblingFacts(c: Ctx, t: Tree, node: Node)
      requires Located(c, t, node, node.parent) && !c.Top? && c.other.T?
      ensures var o := c.other;
              && o.node.red == o.red
              && (o.left.Leaf? ==> o.node.left == null) && (o.right.Leaf? ==> o.node.right == null)
              && (o.left.T? ==> o.node.left == o.left.node && o.left.node.red == o.left.red)
              && (o.right.T? ==> o.node.right == o.right.node && o.right.node.red == o.right.red)
    {
      hide Nodes, CtxNodes, Distinct, CtxDistinct;
      var p := node.parent;
      var o := c.other;
      RootLinked(o, if c.InLeft? then p.right else p.left, p);
      RootLinked(o.left, o.node.left, o.node);
      RootLinked(o.right, o.node.right, o.node);
    }

    /** bf_balance_rbt_post_deletion: rebalances around the doomed leaf start, which stays linked. */
    method BalancePostDeletion(start: Node, ghost c0: Ctx, ghost t0: Tree)
      requires Rebalancing(c0, t0, 0, start, start)
      modifies this, CtxNodes(c0), Nodes(t0)
      ensures Rebalanced(start) && BlackRoot(tree)
      ensures Nodes(tree) == CtxNodes(c0) + Nodes(t0) && Entries(tree) == CtxEntries(c0) + Entries(t0)
    {
      hide Nodes, CtxNodes, Linked, CtxLinked, Distinct, CtxDistinct, Ordered, CtxOrdered, Balanced, CtxBalanced,
           Entries, CtxEntries, Short, Rank, FarRank, BelowSibling, WithOther, SiblingPainted, Up;
      NodesAllocated(t0);
      CtxNodesAllocated(c0);
      var node: Node? := start;
      var imbalance := true;
      ghost var c, t, n: nat := c0, t0, 0;
      while imbalance && node != null
        invariant imbalance ==> node != null && Rebalancing(c, t, n, node, start)
        invariant imbalance ==> CtxNodes(c) + Nodes(t) == CtxNodes(c0) + Nodes(t0)
        invariant imbalance ==> CtxEntries(c) + Entries(t) == CtxEntries(c0) + Entries(t0)
        invariant !imbalance ==> Rebalanced(start)
        invariant !imbalance ==> Nodes(tree) == CtxNodes(c0) + Nodes(t0)
        invariant !imbalance ==> Entries(tree) == CtxEntries(c0) + Entries(t0)
        decreases imbalance, Rank(c), FarRank(c)
      {
        ParentOrTop(c, t, node);
        if node.parent == null {
          imbalance := false;
          ShortAtTop(c, t, n, start);
          CloseDoomed(c, t, n, node, null, start);
          break;
        }
        ShortHasSibling(c, t, n, start);
        SiblingFacts(c, t, node);
        var neigh := GetNeighbor(node, c, t, start);
        var dir := GetDirection(node, c, t, start);
        if neigh == null || !neigh.red {
          if neigh == null || ((neigh.right == null || !neigh.right.red) && (neigh.left == null || !neigh.left.red)) {
            var next, done := TurnSiblingRed(node, neigh, c, t, n, start);
            if done {
              imbalance := false;
            } else {
              RankFalls(c);
              SiblingPaintedShape(c, true);
              node := next;
              c, t, n := c.up, Up(SiblingPainted(c, true), t), n + 1;
            }
          } else if dir == LeftNode && neigh.right != null && neigh.right.red {
            FarCase(node, neigh, dir, c, t, n, start);
            imbalance := false;
          } else if dir == RightNode && neigh.left != null && neigh.left.red {
            FarCase(node, neigh, dir, c, t, n, start);
            imbalance := false;
          } else if dir == LeftNode && (neigh.right == null || !neigh.right.red)
                    && (neigh.left != null && neigh.left.red) {
            ghost var o := NearCase(node, neigh, dir, c, t, n, start);
            NearRedRank(c, o);
            c := WithOther(c, o);
          } else if dir == RightNode && (neigh.left == null || !neigh.left.red)
                    && (neigh.right != null && neigh.right.red) {
            ghost var o := NearCase(node, neigh, dir, c, t, n, start);
            NearRedRank(c, o);
            c := WithOther(c, o);
          }
        } else {
          RedSiblingCase(node, dir, c, t, n, start);
          RedSiblingRank(c);
          c := BelowSibling(c);
        }
      }
      BlackenHead(start);
    }

    // ----- Deletion: finding the leaf to unlink

    /** bf_get_successor_rbt_node: the leftmost node of the right subtree. */
    static method GetSuccessor(root: Node, ghost t: Tree, ghost p: Node?) returns (successor: Node?)
      requires Linked(t, root, p) && t.T?
      ensures successor == null <==> t.right.Leaf?
      ensures t.right.T? ==> var m := Leftmost(t.right);
                && successor == m.node && successor.key == m.key && successor.data == m.data && successor.red == m.red
    {
      hide Nodes;
      successor := root.right;
      if successor == null {
        return;
      }
      ghost var u, q := t.right, root;
      while successor.left != null
        invariant successor != null && u.T? && Linked(u, successor, q)
        invariant Leftmost(u) == Leftmost(t.right)
        decreases u
      {
        u, q := u.left, successor;
        successor := successor.left;
      }
    }

    /** bf_get_predecessor_rbt_node: the rightmost node of the left subtree. */
    static method GetPredecessor(root: Node, ghost t: Tree, ghost p: Node?) returns (predecessor: Node?)
      requires Linked(t, root, p) && t.T?
      ensures predecessor == null <==> t.left.Leaf?
      ensures t.left.T? ==> var m := Rightmost(t.left);
                && predecessor == m.node && predecessor.key == m.key
                && predecessor.data == m.data && predecessor.red == m.red
    {
      hide Nodes;
      predecessor := root.left;
      if predecessor == null {
        return;
      }
      ghost var u, q := t.left, root;
      while predecessor.right != null
        invariant predecessor != null && u.T? && Linked(u, predecessor, q)
        invariant Rightmost(u) == Rightmost(t.left)
        decreases u
      {
        u, q := u.right, predecessor;
        predecessor := predecessor.right;
      }
    }

    /** root's key and data are about to be given up. */
    ghost predicate Copying(c: Ctx, t: Tree, n: nat, root: Node)
      reads this, root, CtxNodes(c), Nodes(t)
    {
      Located(c, t, root, root.parent) && t.T? && t.node == root && OrderFits(c, t, root) && BalanceFits(c, t, n, null)
    }

    lemma {:induction false} ToLeftmost(c: Ctx, t: Tree, x: Node?, p: Node?, n: nat, d: Node)
      returns (c': Ctx, t': Tree, n': nat)
      requires Located(c, t, x, p) && t.T? && OrderFits(c, t, d) && BalanceFits(c, t, n, null)
      ensures t' == Leftmost(t) && Located(c', t', t'.node, t'.node.parent)
      ensures OrderFits(c', t', d) && BalanceFits(c', t', n', null) && Plug(c', t') == Plug(c, t)
      decreases t
    {
      hide Nodes, CtxNodes, Linked, CtxLinked, Distinct, CtxDistinct, OrderFits, BalanceFits, Plug;
      RootLinked(t, x, p);
      if t.left.Leaf? {
        return c, t, n;
      }
      LocatedDown(c, t, x, p);
      DownFacts(c, t, d);
      DownBalanced(c, t, n, null);
      c', t', n' := ToLeftmost(DownLeft(c, t), t.left, x.left, x, if t.red then n else n - 1, d);
    }

    lemma {:induction false} ToRightmost(c: Ctx, t: Tree, x: Node?, p: Node?, n: nat, d: Node)
      returns (c': Ctx, t': Tree, n': nat)
      requires Located(c, t, x, p) && t.T? && OrderFits(c, t, d) && BalanceFits(c, t, n, null)
      ensures t' == Rightmost(t) && Located(c', t', t'.node, t'.node.parent)
      ensures OrderFits(c', t', d) && BalanceFits(c', t', n', null) && Plug(c', t') == Plug(c, t)
      decreases t
    {
      hide Nodes, CtxNodes, Linked, CtxLinked, Distinct, CtxDistinct, OrderFits, BalanceFits, Plug;
      RootLinked(t, x, p);
      if t.right.Leaf? {
        return c, t, n;
      }
      LocatedDown(c, t, x, p);
      DownFacts(c, t, d);
      DownBalanced(c, t, n, null);
      c', t', n' := ToRightmost(DownRight(c, t), t.right, x.right, x, if t.red then n else n - 1, d);
    }

    /** One copying step: root takes over its in-order neighbour, which is doomed in its place. */
    method CopyStepDown(root: Node, ghost c: Ctx, ghost t: Tree, ghost n: nat)
      returns (replacement: Node, ghost c': Ctx, ghost t': Tree, ghost n': nat)
      requires Copying(c, t, n, root) && (t.left.T? || t.right.T?)
      modifies root`key, root`data
      ensures Copying(c', t', n', replacement) && Size(t') < Size(t)
      ensures Nodes(Plug(c', t')) == Nodes(Plug(c, t))
      ensures PairsBut(Entries(Plug(c', t')), replacement) == PairsBut(Entries(Plug(c, t)), root)
    {
      hide Nodes, CtxNodes, CtxLinked, Distinct, CtxDistinct, OrderFits, BalanceFits, Plug, Entries, CtxEntries,
           Ordered, CtxOrdered, Balanced, CtxBalanced, PairsBut;
      NodesAllocated(t);
      CtxNodesAllocated(c);
      RootLinked(t, root, root.parent);
      var r := GetSuccessor(root, t, root.parent);
      ghost var onRight := r != null;
      if r == null {
        r := GetPredecessor(root, t, root.parent);
      }
      replacement := r;
      ghost var m := if onRight then Leftmost(t.right) else Rightmost(t.left);
      CopyOrdered(c, t, m);
      CopyPairs(c, t, m);
      OverwrittenFacts(c, t, m.key, m.data, n);
      ghost var t1 := Overwritten(t, m.key, m.data);
      ghost var p := root.parent;
      Overwrite(root, replacement, c, t);
      LocatedDown(c, t1, root, p);
      DownFacts(c, t1, m.node);
      DownBalanced(c, t1, n, null);
      if onRight {
        c', t', n' := ToLeftmost(DownRight(c, t1), t1.right, root.right, root, if t1.red then n else n - 1, m.node);
      } else {
        c', t', n' := ToRightmost(DownLeft(c, t1), t1.left, root.left, root, if t1.red then n else n - 1, m.node);
      }
      PlugNodes(c, t1);
      PlugNodes(c, t);
    }

    method Overwrite(root: Node, replacement: Node, ghost c: Ctx, ghost t: Tree)
      requires Located(c, t, root, root.parent) && t.T? && t.node == root
      modifies root`key, root`data
      ensures Located(c, Overwritten(t, old(replacement.key), old(replacement.data)), root, root.parent)
      ensures root.parent == old(root.parent)
    {
      NodesAllocated(t);
      CtxNodesAllocated(c);
      root.key := replacement.key;
      root.data := replacement.data;
    }

    /** The search for the key to delete. */
    method FindKey(key: nat, start: Node?) returns (root: Node?, ghost c: Ctx, ghost t: Tree, ghost n: nat)
      requires Valid() && start == head && key < KEY_LIMIT
      ensures root == null ==> !HasKey(tree, key)
      ensures root != null ==>
                && Copying(c, t, n, root) && Plug(c, t) == tree && t.key == key && HasKey(tree, key)
                && PairsBut(Entries(tree), root) == Without(Pairs(tree), key)
    {
      hide Nodes, CtxNodes, CtxLinked, Distinct, CtxDistinct, Ordered, CtxOrdered, Balanced, CtxBalanced,
           CtxBlackRoot, Plug, Entries, PairsBut, Pairs, HasKey, Without;
      root := start;
      c, t := Top, tree;
      n := SomeHeight(tree);
      AtTop(tree, n);
      ghost var p: Node? := null;
      while root != null && root.key != key
        invariant Located(c, t, root, p) && Fits(c, t, n, null)
        invariant Plug(c, t) == tree && Lo(c) < key < Hi(c)
        decreases t
      {
        ghost var m := StepDown(c, t, root, p, n, null);
        if root.key < key {
          c, t, n, p := DownRight(c, t), t.right, m, root;
          root := root.right;
        } else if root.key > key {
          c, t, n, p := DownLeft(c, t), t.left, m, root;
          root := root.left;
        }
      }
      if root == null {
        NoSuchKey(c, key);
      } else {
        KeyFound(c, t);
        LeafPairs(c, t, key);
      }
    }

    /** bf_bst_node_deletion: copies in-order neighbours along until a leaf is left to unlink. */
    method BstDeletion(key: nat, start: Node?)
      returns (res: Node?, color: bool, ghost c: Ctx, ghost t: Tree, ghost n: nat)
      requires Valid() && start == head && key < KEY_LIMIT
      modifies Nodes(tree)
      ensures res == null ==> !HasKey(tree, key) && Valid()
      ensures res != null ==>
                && HasKey(tree, key) && Copying(c, t, n, res) && t.left.Leaf? && t.right.Leaf? && color == t.red
                && Nodes(Plug(c, t)) == Nodes(tree)
                && PairsBut(Entries(Plug(c, t)), res) == Without(Pairs(tree), key)
    {
      hide Nodes, CtxNodes, CtxLinked, Distinct, CtxDistinct, OrderFits, BalanceFits, Ordered, Balanced, Plug,
           Entries, PairsBut, Pairs, HasKey, Without, RedBlack;
      NodesAllocated(tree);
      color := false;
      res, c, t, n := FindKey(key, start);
      while res != null
        invariant res == null ==> !HasKey(tree, key) && Valid()
        invariant res != null ==>
                    && HasKey(tree, key) && Copying(c, t, n, res)
                    && Nodes(Plug(c, t)) == Nodes(tree)
                    && PairsBut(Entries(Plug(c, t)), res) == Without(Pairs(tree), key)
        decreases Size(t)
      {
        RootLinked(t, res, res.parent);
        RootLinked(t.left, res.left, res);
        RootLinked(t.right, res.right, res);
        PlugNodes(c, t);
        if res.right == null && res.left == null {
          color := res.red;
          return;
        }
        ghost var c', t', n';
        res, c', t', n' := CopyStepDown(res, c, t, n);
        c, t, n := c', t', n';
        RootLinked(t, res, res.parent);
        color := res.red;
      }
    }

    /** The zipper at the doomed leaf. */
    lemma {:induction false} FindDoomed(c: Ctx, t: Tree, x: Node?, p: Node?, n: nat, d: Node)
      returns (c': Ctx, t': Tree)
      requires Located(c, t, x, p) && d in Nodes(t) && OrderFits(c, t, d) && BalanceFits(c, t, n, d)
      ensures t'.T? && t'.node == d && Located(c', t', d, d.parent)
      ensures OrderFits(c', t', d) && BalanceFits(c', t', 0, d) && Plug(c', t') == Plug(c, t)
      decreases t
    {
      hide CtxNodes, Linked, CtxLinked, Distinct, CtxDistinct, OrderFits, Balanced, Plug;
      RootLinked(t, x, p);
      if t.node == d {
        LeafIsBare(t, n, d);
        return c, t;
      }
      LocatedDown(c, t, x, p);
      DownFacts(c, t, d);
      DownBalanced(c, t, n, d);
      if d in Nodes(t.left) {
        c', t' := FindDoomed(DownLeft(c, t), t.left, x.left, x, if t.red then n else n - 1, d);
      } else {
        c', t' := FindDoomed(DownRight(c, t), t.right, x.right, x, if t.red then n else n - 1, d);
      }
    }

    /** Cuts the doomed leaf off its parent. */
    method Unlink(res: Node, ghost c: Ctx, ghost t: Tree)
      requires Located(c, t, res, res.parent) && t.T? && t.node == res
      requires OrderFits(c, t, res) && BalanceFits(c, t, 0, res)
      modifies this, CtxNodes(c)
      ensures Valid()
      ensures Pairs(tree) == PairsBut(Entries(Plug(c, t)), res)
      ensures Nodes(tree) == Nodes(Plug(c, t)) - {res}
    {
      hide Nodes, Distinct, CtxDistinct, BalanceFits, Ordered, CtxOrdered, Balanced, CtxBalanced, Plug, Entries,
           CtxEntries, PairsBut, Pairs, RedBlack;
      NodesAllocated(t);
      CtxNodesAllocated(c);
      HolderInside(c);
      DoomedOutside(c, t);
      UnlinkedIsRedBlack(c, t, res);
      var childDir := GetDirection(res, c, t, res);
      CutOff(res, childDir, c, t);
      CloseLinked(c, Leaf, null, if c.Top? then null else c.node, head);
      tree := Plug(c, Leaf);
    }

    method CutOff(res: Node, childDir: Direction, ghost c: Ctx, ghost t: Tree)
      requires CtxLinked(c, res, res.parent, head) && CtxDistinct(c)
      requires childDir == if c.Top? then RootNode else if c.InLeft? then LeftNode else RightNode
      modifies `head, Holder(c)
      ensures CtxLinked(c, null, if c.Top? then null else c.node, head)
    {
      CtxNodesAllocated(c);
      var parent := res.parent;
      if parent == null {
        head := null;
      } else if childDir == LeftNode {
        parent.left := null;
      } else {
        parent.right := null;
      }
    }

    /** bf_remove_rbt_entry. */
    method Remove(key: nat) returns (status: Status)
      requires Valid() && key < KEY_LIMIT
      modifies this, Nodes(tree)
      ensures Valid()
      ensures status == if HasKey(old(tree), key) then Ok else NoKey
      ensures Pairs(tree) == Without(old(Pairs(tree)), key)
      ensures status == NoKey ==> tree == old(tree)
      ensures status == Ok ==> exists freed :: freed in old(Nodes(tree)) && Nodes(tree) == old(Nodes(tree)) - {freed}
    {
      hide Nodes, CtxNodes, Linked, CtxLinked, Distinct, CtxDistinct, BalanceFits, Ordered, CtxOrdered, Balanced,
           CtxBalanced, Plug, Entries, CtxEntries, PairsBut, Pairs, HasKey, Without, RedBlack;
      NodesAllocated(tree);
      var res, color, c, t, n := BstDeletion(key, head);
      if res == null {
        NothingWithout(tree, key);
        return NoKey;
      }
      PlugNodes(c, t);
      RootLinked(t, res, res.parent);
      DoomedOutside(c, t);
      LeafBalance(c, t, n);
      if !color {
        BalancePostDeletion(res, c, t);
      } else {
        CloseDoomed(c, t, 0, res, res.parent, res);
        PlugBlackRoot(c, t);
      }
      ghost var m: nat :| Balanced(tree, m, res);
      DoomedAtTop(m, res);
      ghost var c1, t1 := FindDoomed(Top, tree, head, null, m, res);
      PlugNodes(c1, t1);
      Unlink(res, c1, t1);
      return Ok;
    }

    lemma DoomedAtTop(m: nat, d: Node)
      requires Rebalanced(d) && BlackRoot(tree) && Balanced(tree, m, d)
      ensures Located(Top, tree, head, null) && OrderFits(Top, tree, d) && BalanceFits(Top, tree, m, d)
      ensures Plug(Top, tree) == tree
    {
    }

    // ----- The data that a caller hangs on a node

    /** The zipper at a node of the tree. */
    lemma {:induction false} FindNode(c: Ctx, t: Tree, x: Node?, p: Node?, n: nat, d: Node)
      returns (c': Ctx, t': Tree, n': nat)
      requires Located(c, t, x, p) && d in Nodes(t) && Fits(c, t, n, null)
      ensures t'.T? && t'.node == d && Located(c', t', d, d.parent)
      ensures Fits(c', t', n', null) && Plug(c', t') == Plug(c, t)
      decreases t
    {
      hide CtxNodes, Linked, CtxLinked, Distinct, CtxDistinct, OrderFits, BalanceFits, Plug;
      RootLinked(t, x, p);
      if t.node == d {
        return c, t, n;
      }
      var m := StepDown(c, t, x, p, n, null);
      if d in Nodes(t.left) {
        c', t', n' := FindNode(DownLeft(c, t), t.left, x.left, x, m, d);
      } else {
        c', t', n' := FindNode(DownRight(c, t), t.right, x.right, x, m, d);
      }
    }

    method WriteData(node: Node, data: int, ghost c: Ctx, ghost t: Tree)
      requires Located(c, t, node, node.parent) && t.T? && t.node == node
      modifies node`data
      ensures Located(c, Overwritten(t, t.key, data), node, node.parent) && node.key == t.key
    {
      NodesAllocated(t);
      CtxNodesAllocated(c);
      node.data := data;
    }

    /** A caller's assignment to a node's data. */
    method SetData(node: Node, data: int)
      requires Valid() && node in Nodes(tree)
      modifies node`data, `tree
      ensures Valid() && Nodes(tree) == old(Nodes(tree))
      ensures Pairs(tree) == Without(old(Pairs(tree)), node.key) + {(node.key, data)}
    {
      hide Nodes, CtxNodes, Linked, CtxLinked, Distinct, CtxDistinct, Ordered, CtxOrdered, Balanced, CtxBalanced,
           CtxBlackRoot, Plug, Entries, CtxEntries, PairsBut, Pairs, Without, RedBlack, BalanceFits, OrderFits;
      ghost var n := SomeHeight(tree);
      AtTop(tree, n);
      ghost var c, t, m := FindNode(Top, tree, head, null, n, node);
      ghost var t1 := Overwritten(t, t.key, data);
      PlugNodes(c, t);
      OverwrittenFacts(c, t, t.key, data, m);
      DataWritten(c, t, data);
      WriteData(node, data, c, t);
      Close(c, t1, m, node, node.parent);
    }
  }
}
