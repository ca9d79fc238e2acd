/** Red-black trees as values: the shape of the linked nodes, and the zipper that points into it.

    A Tree records, for every node, its identity and its fields; a Ctx is a tree with a hole.
    One node may be doomed: it is the leaf that a deletion is about to unlink.  Balanced counts
    the doomed node as absent, and Ordered lets its key equal a neighbour's, which is the
    duplicate that the deletion leaves in the tree while it rebalances. */
module RbTrees {
  import opened BitUtils

  const KEY_LIMIT: nat := 0x1_0000_0000

  class Node {
    var key: nat
    var red: bool
    var left: Node?
    var right: Node?
    var parent: Node?
    var data: int

    /** bf_create_rbt_node: a red leaf under the given parent. */
    constructor (key: nat, parent: Node?)
      ensures this.key == key && this.red && left == null && right == null
      ensures this.parent == parent && data == 0
    {
      this.key, this.red, left, right := key, true, null, null;
      this.parent, data := parent, 0;
    }
  }

  datatype Tree =
    | Leaf
    | T(left: Tree, node: Node, key: nat, data: int, red: bool, right: Tree)

  datatype Ctx =
    | Top
    | InLeft(up: Ctx, node: Node, key: nat, data: int, red: bool, other: Tree)
    | InRight(up: Ctx, node: Node, key: nat, data: int, red: bool, other: Tree)

  ghost function Plug(c: Ctx, t: Tree): Tree {
    match c
    case Top => t
    case InLeft(up, n, k, d, red, right) => Plug(up, T(t, n, k, d, red, right))
    case InRight(up, n, k, d, red, left) => Plug(up, T(left, n, k, d, red, t))
  }

  // ----- Nodes and entries

  ghost function Nodes(t: Tree): set<Node> {
    match t
    case Leaf => {}
    case T(l, n, _, _, _, r) => Nodes(l) + {n} + Nodes(r)
  }

  ghost function CtxNodes(c: Ctx): set<Node> {
    match c
    case Top => {}
    case InLeft(up, n, _, _, _, other) => CtxNodes(up) + {n} + Nodes(other)
    case InRight(up, n, _, _, _, other) => CtxNodes(up) + {n} + Nodes(other)
  }

  ghost predicate Distinct(t: Tree) {
    match t
    case Leaf => true
    case T(l, n, _, _, _, r) =>
      n !in Nodes(l) && n !in Nodes(r) && Nodes(l) !! Nodes(r) && Distinct(l) && Distinct(r)
  }

  ghost predicate CtxDistinct(c: Ctx) {
    match c
    case Top => true
    case InLeft(up, n, _, _, _, other) =>
      n !in CtxNodes(up) && n !in Nodes(other) && CtxNodes(up) !! Nodes(other) && CtxDistinct(up) && Distinct(other)
    case InRight(up, n, _, _, _, other) =>
      n !in CtxNodes(up) && n !in Nodes(other) && CtxNodes(up) !! Nodes(other) && CtxDistinct(up) && Distinct(other)
  }

  /** What one node holds. */
  datatype Entry = Entry(node: Node, key: nat, data: int)

  ghost function Entries(t: Tree): set<Entry> {
    match t
    case Leaf => {}
    case T(l, n, k, d, _, r) => Entries(l) + {Entry(n, k, d)} + Entries(r)
  }

  ghost function CtxEntries(c: Ctx): set<Entry> {
    match c
    case Top => {}
    case InLeft(up, n, k, d, _, other) => CtxEntries(up) + {Entry(n, k, d)} + Entries(other)
    case InRight(up, n, k, d, _, other) => CtxEntries(up) + {Entry(n, k, d)} + Entries(other)
  }

  // ----- Order

  ghost predicate Inside(n: Node, k: int, lo: int, hi: int, doomed: Node?) {
    if n == doomed then lo <= k <= hi else lo < k < hi
  }

  ghost predicate Ordered(t: Tree, lo: int, hi: int, doomed: Node?) {
    match t
    case Leaf => true
    case T(l, n, k, _, _, r) =>
      Inside(n, k, lo, hi, doomed) && Ordered(l, lo, k, doomed) && Ordered(r, k, hi, doomed)
  }

  /** The bounds that a context puts on the keys in its hole. */
  ghost function Lo(c: Ctx): int {
    match c
    case Top => -1
    case InLeft(up, _, _, _, _, _) => Lo(up)
    case InRight(_, _, k, _, _, _) => k
  }

  ghost function Hi(c: Ctx): int {
    match c
    case Top => KEY_LIMIT
    case InLeft(_, _, k, _, _, _) => k
    case InRight(up, _, _, _, _, _) => Hi(up)
  }

  ghost predicate CtxOrdered(c: Ctx, doomed: Node?) {
    match c
    case Top => true
    case InLeft(up, n, k, _, _, right) =>
      Inside(n, k, Lo(up), Hi(up), doomed) && Ordered(right, k, Hi(up), doomed) && CtxOrdered(up, doomed)
    case InRight(up, n, k, _, _, left) =>
      Inside(n, k, Lo(up), Hi(up), doomed) && Ordered(left, Lo(up), k, doomed) && CtxOrdered(up, doomed)
  }

  // ----- Balance

  ghost predicate IsRed(t: Tree, doomed: Node?) {
    t.T? && t.node != doomed && t.red
  }

  /** No red node has a red child, and n black nodes lie on every path down. */
  ghost predicate Balanced(t: Tree, n: nat, doomed: Node?) {
    match t
    case Leaf => n == 0
    case T(l, node, _, _, red, r) =>
      if node == doomed then n == 0 && l == Leaf && r == Leaf
      else if red then !IsRed(l, doomed) && !IsRed(r, doomed) && Balanced(l, n, doomed) && Balanced(r, n, doomed)
      else n > 0 && Balanced(l, n - 1, doomed) && Balanced(r, n - 1, doomed)
  }

  ghost predicate ParentRed(c: Ctx) {
    !c.Top? && c.red
  }

  /** The context is balanced around a subtree of black height n; the colours at the hole are not compared. */
  ghost predicate CtxBalanced(c: Ctx, n: nat, doomed: Node?) {
    match c
    case Top => true
    case InLeft(up, _, _, _, red, other) =>
      Balanced(other, n, doomed) && (red ==> !IsRed(other, doomed) && !ParentRed(up))
      && CtxBalanced(up, if red then n else n + 1, doomed)
    case InRight(up, _, _, _, red, other) =>
      Balanced(other, n, doomed) && (red ==> !IsRed(other, doomed) && !ParentRed(up))
      && CtxBalanced(up, if red then n else n + 1, doomed)
  }

  ghost predicate BlackRoot(t: Tree) {
    t.T? ==> !t.red
  }

  ghost predicate CtxBlackRoot(c: Ctx) {
    match c
    case Top => true
    case InLeft(up, _, _, _, red, _) => if up.Top? then !red else CtxBlackRoot(up)
    case InRight(up, _, _, _, red, _) => if up.Top? then !red else CtxBlackRoot(up)
  }

  // ----- Closing the zipper

  lemma {:induction false} PlugNodes(c: Ctx, t: Tree)
    ensures Nodes(Plug(c, t)) == CtxNodes(c) + Nodes(t)
    ensures Entries(Plug(c, t)) == CtxEntries(c) + Entries(t)
  {
    match c {
      case Top =>
      case InLeft(up, n, k, d, red, other) => PlugNodes(up, T(t, n, k, d, red, other));
      case InRight(up, n, k, d, red, other) => PlugNodes(up, T(other, n, k, d, red, t));
    }
  }

  lemma {:induction false} PlugDistinct(c: Ctx, t: Tree)
    requires CtxDistinct(c) && Distinct(t) && CtxNodes(c) !! Nodes(t)
    ensures Distinct(Plug(c, t))
  {
    match c {
      case Top =>
      case InLeft(up, n, k, d, red, other) => PlugDistinct(up, T(t, n, k, d, red, other));
      case InRight(up, n, k, d, red, other) => PlugDistinct(up, T(other, n, k, d, red, t));
    }
  }

  lemma {:induction false} PlugOrdered(c: Ctx, t: Tree, doomed: Node?)
    requires CtxOrdered(c, doomed) && Ordered(t, Lo(c), Hi(c), doomed)
    ensures Ordered(Plug(c, t), -1, KEY_LIMIT, doomed)
  {
    match c {
      case Top =>
      case InLeft(up, n, k, d, red, other) => PlugOrdered(up, T(t, n, k, d, red, other), doomed);
      case InRight(up, n, k, d, red, other) => PlugOrdered(up, T(other, n, k, d, red, t), doomed);
    }
  }

  lemma {:induction false} PlugBalanced(c: Ctx, t: Tree, n: nat, doomed: Node?) returns (m: nat)
    requires CtxBalanced(c, n, doomed) && Balanced(t, n, doomed)
    requires !(ParentRed(c) && IsRed(t, doomed)) && doomed !in CtxNodes(c)
    ensures Balanced(Plug(c, t), m, doomed)
  {
    match c {
      case Top => m := n;
      case InLeft(up, node, k, d, red, other) =>
        m := PlugBalanced(up, T(t, node, k, d, red, other), if red then n else n + 1, doomed);
      case InRight(up, node, k, d, red, other) =>
        m := PlugBalanced(up, T(other, node, k, d, red, t), if red then n else n + 1, doomed);
    }
  }

  lemma {:induction false} PlugBlackRoot(c: Ctx, t: Tree)
    requires if c.Top? then BlackRoot(t) else CtxBlackRoot(c)
    ensures BlackRoot(Plug(c, t))
  {
    match c {
      case Top =>
      case InLeft(up, n, k, d, red, other) => PlugBlackRoot(up, T(t, n, k, d, red, other));
      case InRight(up, n, k, d, red, other) => PlugBlackRoot(up, T(other, n, k, d, red, t));
    }
  }

  // ----- The heap holds the shape

  /** The tree t hangs at x below the node p. */
  ghost predicate Linked(t: Tree, x: Node?, p: Node?)
    reads Nodes(t)
  {
    match t
    case Leaf => x == null
    case T(l, n, k, d, red, r) =>
      && x == n && n.key == k && n.data == d && n.red == red && n.parent == p
      && Linked(l, n.left, n) && Linked(r, n.right, n)
  }

  /** Around a hole that holds x below p, the nodes of c hang from head. */
  ghost predicate CtxLinked(c: Ctx, x: Node?, p: Node?, head: Node?)
    reads CtxNodes(c)
  {
    match c
    case Top => p == null && head == x
    case InLeft(up, n, k, d, red, other) =>
      && p == n && n.left == x && n.key == k && n.data == d && n.red == red
      && Linked(other, n.right, n) && CtxLinked(up, n, n.parent, head)
    case InRight(up, n, k, d, red, other) =>
      && p == n && n.right == x && n.key == k && n.data == d && n.red == red
      && Linked(other, n.left, n) && CtxLinked(up, n, n.parent, head)
  }

  // ----- Rotations as transformations of the shape; the two nodes swap colours

  ghost function RotatedRight(t: Tree): Tree
    requires t.T? && t.left.T?
  {
    var l := t.left;
    T(l.left, l.node, l.key, l.data, t.red, T(l.right, t.node, t.key, t.data, l.red, t.right))
  }

  ghost function RotatedLeft(t: Tree): Tree
    requires t.T? && t.right.T?
  {
    var r := t.right;
    T(T(t.left, t.node, t.key, t.data, r.red, r.left), r.node, r.key, r.data, t.red, r.right)
  }

  lemma RotatedRightOrdered(t: Tree, lo: int, hi: int, doomed: Node?)
    requires t.T? && t.left.T? && Ordered(t, lo, hi, doomed) && t.left.node != doomed
    ensures Ordered(RotatedRight(t), lo, hi, doomed)
    ensures Entries(RotatedRight(t)) == Entries(t)
  {
  }

  lemma RotatedLeftOrdered(t: Tree, lo: int, hi: int, doomed: Node?)
    requires t.T? && t.right.T? && Ordered(t, lo, hi, doomed) && t.right.node != doomed
    ensures Ordered(RotatedLeft(t), lo, hi, doomed)
    ensures Entries(RotatedLeft(t)) == Entries(t)
  {
  }

  lemma RightParts(t: Tree)
    requires t.T? && t.left.T? && Distinct(t)
    ensures var l, a, b, d := t.left.node, t.left.left, t.left.right, t.right;
            && Nodes(t) == Nodes(a) + Nodes(b) + Nodes(d) + {l, t.node}
            && l != t.node && l !in Nodes(a) + Nodes(b) + Nodes(d) && t.node !in Nodes(a) + Nodes(b) + Nodes(d)
            && Nodes(a) !! Nodes(b) && Nodes(a) !! Nodes(d) && Nodes(b) !! Nodes(d)
            && Distinct(a) && Distinct(b) && Distinct(d)
            && Nodes(RotatedRight(t)) == Nodes(t) && Distinct(RotatedRight(t))
  {
  }

  lemma LeftParts(t: Tree)
    requires t.T? && t.right.T? && Distinct(t)
    ensures var l, a, b, d := t.right.node, t.left, t.right.left, t.right.right;
            && Nodes(t) == Nodes(a) + Nodes(b) + Nodes(d) + {l, t.node}
            && l != t.node && l !in Nodes(a) + Nodes(b) + Nodes(d) && t.node !in Nodes(a) + Nodes(b) + Nodes(d)
            && Nodes(a) !! Nodes(b) && Nodes(a) !! Nodes(d) && Nodes(b) !! Nodes(d)
            && Distinct(a) && Distinct(b) && Distinct(d)
            && Nodes(RotatedLeft(t)) == Nodes(t) && Distinct(RotatedLeft(t))
  {
  }

  // ----- Insertion

  /** Balanced, except that a red root may have a red child. */
  ghost predicate Loose(t: Tree, n: nat) {
    t.T? && if t.red then Balanced(t.left, n, null) && Balanced(t.right, n, null)
            else n > 0 && Balanced(t.left, n - 1, null) && Balanced(t.right, n - 1, null)
  }

  /** The red child of a red root is on key's side, and it is the only one. */
  ghost predicate RedSide(t: Tree, key: nat) {
    t.T? && (t.red ==> if t.key < key then IsRed(t.right, null) && !IsRed(t.left, null)
                       else key < t.key && IsRed(t.left, null) && !IsRed(t.right, null))
  }

  lemma {:induction false} CloseLinked(c: Ctx, t: Tree, x: Node?, p: Node?, head: Node?)
    requires CtxLinked(c, x, p, head) && Linked(t, x, p)
    ensures Linked(Plug(c, t), head, null)
  {
    match c {
      case Top =>
      case InLeft(up, n, k, d, red, other) => CloseLinked(up, T(t, n, k, d, red, other), n, n.parent, head);
      case InRight(up, n, k, d, red, other) => CloseLinked(up, T(other, n, k, d, red, t), n, n.parent, head);
    }
  }

  ghost predicate RedBlack(t: Tree) {
    && Distinct(t) && Ordered(t, -1, KEY_LIMIT, null) && BlackRoot(t)
    && exists n: nat :: Balanced(t, n, null)
  }

  /** A focus that fits its context makes a red-black tree. */
  lemma CloseRedBlack(c: Ctx, t: Tree, n: nat)
    requires CtxDistinct(c) && Distinct(t) && CtxNodes(c) !! Nodes(t)
    requires CtxOrdered(c, null) && Ordered(t, Lo(c), Hi(c), null)
    requires CtxBalanced(c, n, null) && Balanced(t, n, null) && !(ParentRed(c) && IsRed(t, null))
    requires if c.Top? then BlackRoot(t) else CtxBlackRoot(c)
    ensures RedBlack(Plug(c, t))
    ensures Nodes(Plug(c, t)) == CtxNodes(c) + Nodes(t)
    ensures Entries(Plug(c, t)) == CtxEntries(c) + Entries(t)
  {
    PlugNodes(c, t);
    PlugDistinct(c, t);
    PlugOrdered(c, t, null);
    var m := PlugBalanced(c, t, n, null);
    PlugBlackRoot(c, t);
  }

  // ----- Moving the focus to the parent

  ghost function Up(c: Ctx, t: Tree): Tree
    requires !c.Top?
  {
    if c.InLeft? then T(t, c.node, c.key, c.data, c.red, c.other)
    else T(c.other, c.node, c.key, c.data, c.red, t)
  }

  lemma UpFacts(c: Ctx, t: Tree, doomed: Node?)
    requires !c.Top?
    ensures Plug(c.up, Up(c, t)) == Plug(c, t)
    ensures CtxNodes(c.up) + Nodes(Up(c, t)) == CtxNodes(c) + Nodes(t)
    ensures CtxEntries(c.up) + Entries(Up(c, t)) == CtxEntries(c) + Entries(t)
    ensures CtxOrdered(c, doomed) && Ordered(t, Lo(c), Hi(c), doomed) ==>
              CtxOrdered(c.up, doomed) && Ordered(Up(c, t), Lo(c.up), Hi(c.up), doomed)
    ensures c.InLeft? ==> Hi(c) == c.key
    ensures c.InRight? ==> Lo(c) == c.key
  {
  }

  lemma UpDistinct(c: Ctx, t: Tree)
    requires !c.Top? && CtxDistinct(c) && Distinct(t) && CtxNodes(c) !! Nodes(t)
    ensures CtxDistinct(c.up) && Distinct(Up(c, t)) && CtxNodes(c.up) !! Nodes(Up(c, t))
  {
  }

  lemma UpLinked(c: Ctx, t: Tree, x: Node?, p: Node?, head: Node?)
    requires !c.Top? && CtxLinked(c, x, p, head) && Linked(t, x, p)
    ensures p == c.node && Linked(Up(c, t), p, c.node.parent) && CtxLinked(c.up, p, c.node.parent, head)
  {
  }

  /** Left child of a left child, or its mirror image: one rotation of the grandparent. */
  lemma StraightBalanced(c: Ctx, t: Tree, n: nat)
    requires !c.Top? && !c.red && CtxBalanced(c, n, null) && !IsRed(c.other, null)
    requires Loose(t, n) && t.red
    requires c.InLeft? ==> IsRed(t.left, null) && !IsRed(t.right, null)
    requires c.InRight? ==> IsRed(t.right, null) && !IsRed(t.left, null)
    ensures var r := if c.InLeft? then RotatedRight(Up(c, t)) else RotatedLeft(Up(c, t));
            Balanced(r, n + 1, null) && !r.red
    ensures CtxBalanced(c.up, n + 1, null)
  {
  }

  /** Right child of a left child, or its mirror image: the parent is rotated first. */
  lemma ZigzagBalanced(c: Ctx, t: Tree, n: nat)
    requires !c.Top? && !c.red && CtxBalanced(c, n, null) && !IsRed(c.other, null)
    requires Loose(t, n) && t.red
    requires c.InLeft? ==> IsRed(t.right, null) && !IsRed(t.left, null)
    requires c.InRight? ==> IsRed(t.left, null) && !IsRed(t.right, null)
    ensures var r := if c.InLeft? then RotatedRight(Up(c, RotatedLeft(t))) else RotatedLeft(Up(c, RotatedRight(t)));
            Balanced(r, n + 1, null) && !r.red
    ensures CtxBalanced(c.up, n + 1, null)
  {
  }

  // ----- Recolouring

  ghost function Painted(t: Tree, red: bool): Tree
    requires t.T?
  {
    T(t.left, t.node, t.key, t.data, red, t.right)
  }

  /** The context with its sibling subtree's root painted. */
  ghost function SiblingPainted(c: Ctx, red: bool): Ctx
    requires !c.Top? && c.other.T?
  {
    if c.InLeft? then InLeft(c.up, c.node, c.key, c.data, c.red, Painted(c.other, red))
    else InRight(c.up, c.node, c.key, c.data, c.red, Painted(c.other, red))
  }

  lemma SiblingPaintedShape(c: Ctx, red: bool)
    requires !c.Top? && c.other.T?
    ensures var c1 := SiblingPainted(c, red);
            && c1.up == c.up && c1.node == c.node && c1.key == c.key && c1.red == c.red
            && (c1.InLeft? <==> c.InLeft?) && !c1.Top?
  {
  }

  lemma UpHasNode(c: Ctx, t: Tree)
    requires !c.Top?
    ensures Up(c, t).T? && Up(c, t).node == c.node && Up(c, t).red == c.red && Up(c, t).key == c.key
    ensures Nodes(t) <= Nodes(Up(c, t))
  {
  }

  lemma PaintFacts(t: Tree, red: bool, doomed: Node?)
    requires t.T?
    ensures Nodes(Painted(t, red)) == Nodes(t) && Entries(Painted(t, red)) == Entries(t)
    ensures Distinct(t) ==> Distinct(Painted(t, red))
    ensures forall lo, hi :: Ordered(t, lo, hi, doomed) ==> Ordered(Painted(t, red), lo, hi, doomed)
  {
  }

  lemma SiblingPaintFacts(c: Ctx, red: bool, doomed: Node?)
    requires !c.Top? && c.other.T?
    ensures CtxNodes(SiblingPainted(c, red)) == CtxNodes(c) && CtxEntries(SiblingPainted(c, red)) == CtxEntries(c)
    ensures CtxDistinct(c) ==> CtxDistinct(SiblingPainted(c, red))
    ensures CtxOrdered(c, doomed) ==> CtxOrdered(SiblingPainted(c, red), doomed)
    ensures Lo(SiblingPainted(c, red)) == Lo(c) && Hi(SiblingPainted(c, red)) == Hi(c)
  {
    PaintFacts(c.other, red, doomed);
  }

  /** Parent and sibling black, grandparent red: the violation moves two levels up. */
  lemma RecolourBalanced(c: Ctx, t: Tree, n: nat)
    requires !c.Top? && !c.red && CtxBalanced(c, n, null) && IsRed(c.other, null)
    requires Loose(t, n) && t.red
    ensures var g := Up(SiblingPainted(c, false), Painted(t, false));
            Balanced(g, n + 2, null) && Balanced(Painted(g, true), n + 1, null) && !g.red
    ensures CtxBalanced(c.up, n + 1, null)
  {
  }

  /** What the grandparent's parent sees after a recolouring. */
  lemma RecolourGoesUp(c: Ctx, t: Tree, n: nat, key: nat)
    requires !c.Top? && CtxBalanced(c, n, null) && Balanced(t, n, null) && IsRed(t, null)
    requires c.key < key <==> c.InRight?
    requires c.InLeft? ==> key < c.key
    ensures Loose(Up(c, t), if c.red then n else n + 1) && RedSide(Up(c, t), key)
    ensures CtxBalanced(c.up, if c.red then n else n + 1, null) && !(ParentRed(c.up) && c.red)
  {
  }

  ghost predicate HasKey(t: Tree, key: int) {
    exists e :: e in Entries(t) && e.key == key
  }

  /** In an ordered tree a key outside a subtree's bounds is not in it. */
  lemma {:induction false} KeysInside(t: Tree, lo: int, hi: int, e: Entry)
    requires Ordered(t, lo, hi, null) && e in Entries(t)
    ensures lo < e.key < hi
  {
    if e in Entries(t.left) {
      KeysInside(t.left, lo, t.key, e);
    } else if e in Entries(t.right) {
      KeysInside(t.right, t.key, hi, e);
    }
  }

  /** No node of the context has a key that the bounds of its hole admit. */
  lemma {:induction false} CtxKeysOutside(c: Ctx, e: Entry)
    requires CtxOrdered(c, null) && e in CtxEntries(c)
    ensures e.key <= Lo(c) || Hi(c) <= e.key
    ensures Lo(c) < Hi(c)
  {
    if e in CtxEntries(c.up) {
      CtxKeysOutside(c.up, e);
    } else if e in Entries(c.other) {
      match c {
        case InLeft(up, n, k, _, _, other) => KeysInside(other, k, Hi(up), e);
        case InRight(up, n, k, _, _, other) => KeysInside(other, Lo(up), k, e);
      }
    }
  }

  /** The focus fits the order of its context, but for the doomed node. */
  ghost predicate OrderFits(c: Ctx, t: Tree, doomed: Node?) {
    CtxOrdered(c, doomed) && Ordered(t, Lo(c), Hi(c), doomed)
  }

  /** The focus has the black height and the colour that its context admits. */
  ghost predicate BalanceFits(c: Ctx, t: Tree, n: nat, doomed: Node?) {
    && CtxBalanced(c, n, doomed) && Balanced(t, n, doomed) && !(ParentRed(c) && IsRed(t, doomed))
    && (if c.Top? then BlackRoot(t) else CtxBlackRoot(c))
  }

  // ----- Moving the focus to a child

  ghost function DownLeft(c: Ctx, t: Tree): Ctx
    requires t.T?
  {
    InLeft(c, t.node, t.key, t.data, t.red, t.right)
  }

  ghost function DownRight(c: Ctx, t: Tree): Ctx
    requires t.T?
  {
    InRight(c, t.node, t.key, t.data, t.red, t.left)
  }

  lemma DownFacts(c: Ctx, t: Tree, doomed: Node?)
    requires t.T?
    ensures Plug(DownLeft(c, t), t.left) == Plug(c, t)
    ensures Plug(DownRight(c, t), t.right) == Plug(c, t)
    ensures OrderFits(c, t, doomed) ==>
              OrderFits(DownLeft(c, t), t.left, doomed) && OrderFits(DownRight(c, t), t.right, doomed)
  {
  }

  /** Descending keeps the focus fitting its context. */
  lemma DownBalanced(c: Ctx, t: Tree, n: nat, doomed: Node?)
    requires t.T? && t.node != doomed && BalanceFits(c, t, n, doomed)
    ensures var m := if t.red then n else n - 1;
            m >= 0 && BalanceFits(DownLeft(c, t), t.left, m, doomed) && BalanceFits(DownRight(c, t), t.right, m, doomed)
  {
  }

  // ----- Bounds

  ghost function Height(t: Tree): nat {
    if t.Leaf? then 0
    else 1 + if Height(t.left) < Height(t.right) then Height(t.right) else Height(t.left)
  }

  ghost function Size(t: Tree): nat {
    if t.Leaf? then 0 else Size(t.left) + 1 + Size(t.right)
  }

  lemma {:induction false} BalancedIsShallow(t: Tree, n: nat)
    requires Balanced(t, n, null)
    ensures Height(t) <= 2 * n + if IsRed(t, null) then 1 else 0
    ensures Pow2(n) <= Size(t) + 1
  {
    if t.T? {
      BalancedIsShallow(t.left, if t.red then n else n - 1);
      BalancedIsShallow(t.right, if t.red then n else n - 1);
    }
  }

  /** How many nodes a search for a key looks at. */
  ghost function PathLength(t: Tree, key: int): nat {
    if t.Leaf? then 0
    else if key == t.key then 1
    else 1 + PathLength(if key < t.key then t.left else t.right, key)
  }

  lemma PathDown(t: Tree, key: int)
    requires t.T?
    ensures key == t.key ==> PathLength(t, key) == 1
    ensures key < t.key ==> PathLength(t, key) == 1 + PathLength(t.left, key)
    ensures t.key < key ==> PathLength(t, key) == 1 + PathLength(t.right, key)
  {
  }

  lemma {:induction false} PathIsShort(t: Tree, key: int)
    ensures PathLength(t, key) <= Height(t)
  {
    if t.T? && key != t.key {
      PathIsShort(if key < t.key then t.left else t.right, key);
    }
  }

  /** A red-black tree is at most twice as high as the logarithm of its size allows. */
  lemma RedBlackIsShallow(t: Tree)
    requires RedBlack(t)
    ensures Pow2((Height(t) + 1) / 2) <= Size(t) + 1
  {
    var n: nat :| Balanced(t, n, null);
    BalancedIsShallow(t, n);
    Pow2Monotone((Height(t) + 1) / 2, n);
  }

  lemma {:induction false} SizeIsEntries(t: Tree)
    requires Distinct(t)
    ensures Size(t) == |Entries(t)|
  {
    if t.T? {
      SizeIsEntries(t.left);
      SizeIsEntries(t.right);
      EntryNodes(t.left);
      EntryNodes(t.right);
      assert Entries(t.left) !! Entries(t.right) by {
        forall e | e in Entries(t.left)
          ensures e !in Entries(t.right)
        {
          assert e.node in Nodes(t.left);
        }
      }
      assert |Entries(t.left) + {Entry(t.node, t.key, t.data)}| == Size(t.left) + 1;
    }
  }

  lemma {:induction false} EntryNodes(t: Tree)
    ensures forall e :: e in Entries(t) ==> e.node in Nodes(t)
  {
    if t.T? {
      EntryNodes(t.left);
      EntryNodes(t.right);
    }
  }

  /** r holds the greatest key not above key, or is null when every key is above it. */
  ghost predicate IsLowerBound(t: Tree, key: int, r: Node?) {
    if r == null then forall e :: e in Entries(t) ==> key < e.key
    else exists b :: b in Entries(t) && b.node == r && b.key <= key
                     && forall e :: e in Entries(t) && e.key <= key ==> e.key <= b.key
  }

  /** r holds the least key not below key, or is null when every key is below it. */
  ghost predicate IsUpperBound(t: Tree, key: int, r: Node?) {
    if r == null then forall e :: e in Entries(t) ==> e.key < key
    else exists b :: b in Entries(t) && b.node == r && key <= b.key
                     && forall e :: e in Entries(t) && key <= e.key ==> b.key <= e.key
  }

  /** The last node where the path to the hole turned right. */
  ghost function LoNode(c: Ctx): Node? {
    match c
    case Top => null
    case InLeft(up, _, _, _, _, _) => LoNode(up)
    case InRight(_, n, _, _, _, _) => n
  }

  /** The last node where the path to the hole turned left. */
  ghost function HiNode(c: Ctx): Node? {
    match c
    case Top => null
    case InLeft(_, n, _, _, _, _) => n
    case InRight(up, _, _, _, _, _) => HiNode(up)
  }

  lemma {:induction false} BoundEntries(c: Ctx)
    ensures if LoNode(c) == null then Lo(c) == -1
            else exists e :: e in CtxEntries(c) && e.node == LoNode(c) && e.key == Lo(c)
    ensures if HiNode(c) == null then Hi(c) == KEY_LIMIT
            else exists e :: e in CtxEntries(c) && e.node == HiNode(c) && e.key == Hi(c)
  {
    if !c.Top? {
      BoundEntries(c.up);
      assert Entry(c.node, c.key, c.data) in CtxEntries(c);
      assert forall e :: e in CtxEntries(c.up) ==> e in CtxEntries(c);
    }
  }

  lemma BoundsAtHole(c: Ctx, key: nat)
    requires CtxOrdered(c, null) && Lo(c) < key < Hi(c)
    ensures IsLowerBound(Plug(c, Leaf), key, LoNode(c))
    ensures IsUpperBound(Plug(c, Leaf), key, HiNode(c))
  {
    PlugNodes(c, Leaf);
    PlugOrdered(c, Leaf, null);
    BoundEntries(c);
    forall e | e in CtxEntries(c)
      ensures e.key <= Lo(c) || Hi(c) <= e.key < KEY_LIMIT
    {
      CtxKeysOutside(c, e);
      KeysInside(Plug(c, Leaf), -1, KEY_LIMIT, e);
    }
  }

  lemma BoundsAtKey(c: Ctx, t: Tree)
    requires t.T?
    ensures IsLowerBound(Plug(c, t), t.key, t.node)
    ensures IsUpperBound(Plug(c, t), t.key, t.node)
  {
    PlugNodes(c, t);
    assert Entry(t.node, t.key, t.data) in Entries(t);
  }
}
