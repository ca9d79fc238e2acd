/** Deletion from a red-black tree, as transformations of its shape.

    The doomed node is the leaf to be unlinked.  Copying keys towards it leaves its key a
    duplicate of an ancestor's; rebalancing then works around it while it is still linked. */
module RbDeletion {
  import opened RbTrees

  // ----- Changing which node is doomed

  lemma {:induction false} OrderedSwitch(t: Tree, lo: int, hi: int, d: Node?, d': Node?)
    requires Ordered(t, lo, hi, d) && d !in Nodes(t)
    ensures Ordered(t, lo, hi, d')
  {
    if t.T? {
      OrderedSwitch(t.left, lo, t.key, d, d');
      OrderedSwitch(t.right, t.key, hi, d, d');
    }
  }

  lemma {:induction false} CtxOrderedSwitch(c: Ctx, d: Node?, d': Node?)
    requires CtxOrdered(c, d) && d !in CtxNodes(c)
    ensures CtxOrdered(c, d')
  {
    match c {
      case Top =>
      case InLeft(up, n, k, _, _, other) =>
        CtxOrderedSwitch(up, d, d');
        OrderedSwitch(other, k, Hi(up), d, d');
      case InRight(up, n, k, _, _, other) =>
        CtxOrderedSwitch(up, d, d');
        OrderedSwitch(other, Lo(up), k, d, d');
    }
  }

  lemma {:induction false} BalancedSwitch(t: Tree, n: nat, d: Node?, d': Node?)
    requires Balanced(t, n, d) && d !in Nodes(t) && d' !in Nodes(t)
    ensures Balanced(t, n, d')
  {
    if t.T? {
      BalancedSwitch(t.left, if t.red then n else n - 1, d, d');
      BalancedSwitch(t.right, if t.red then n else n - 1, d, d');
      RootIn(t.left);
      RootIn(t.right);
    }
  }

  lemma RootIn(t: Tree)
    ensures t.T? ==> t.node in Nodes(t)
  {
  }

  lemma {:induction false} CtxBalancedSwitch(c: Ctx, n: nat, d: Node?, d': Node?)
    requires CtxBalanced(c, n, d) && d !in CtxNodes(c) && d' !in CtxNodes(c)
    ensures CtxBalanced(c, n, d')
  {
    if !c.Top? {
      CtxBalancedSwitch(c.up, if c.red then n else n + 1, d, d');
      BalancedSwitch(c.other, n, d, d');
      RootIn(c.other);
    }
  }

  lemma {:induction false} OrderedWiden(t: Tree, lo: int, hi: int, lo': int, hi': int, d: Node?)
    requires Ordered(t, lo, hi, d) && lo' <= lo && hi <= hi'
    ensures Ordered(t, lo', hi', d)
  {
    if t.T? {
      OrderedWiden(t.left, lo, t.key, lo', t.key, d);
      OrderedWiden(t.right, t.key, hi, t.key, hi', d);
    }
  }

  // ----- The replacement for an inner node

  /** The subtree whose root has the least key. */
  ghost function Leftmost(t: Tree): (m: Tree)
    requires t.T?
    ensures m.T? && m.left.Leaf? && m.node in Nodes(t) && Size(m) <= Size(t)
  {
    if t.left.Leaf? then t else Leftmost(t.left)
  }

  ghost function Rightmost(t: Tree): (m: Tree)
    requires t.T?
    ensures m.T? && m.right.Leaf? && m.node in Nodes(t) && Size(m) <= Size(t)
  {
    if t.right.Leaf? then t else Rightmost(t.right)
  }

  /** Lowering the lower bound onto the least key dooms only the node that has it. */
  lemma {:induction false} LeftmostOrdered(t: Tree, lo: int, hi: int, d: Node?)
    requires t.T? && Distinct(t) && Ordered(t, lo, hi, d) && d !in Nodes(t)
    ensures lo < Leftmost(t).key < hi
    ensures Ordered(t, Leftmost(t).key, hi, Leftmost(t).node)
  {
    var m := Leftmost(t);
    if t.left.T? {
      LeftmostOrdered(t.left, lo, t.key, d);
    }
    OrderedSwitch(t.right, t.key, hi, d, m.node);
  }

  lemma {:induction false} RightmostOrdered(t: Tree, lo: int, hi: int, d: Node?)
    requires t.T? && Distinct(t) && Ordered(t, lo, hi, d) && d !in Nodes(t)
    ensures lo < Rightmost(t).key < hi
    ensures Ordered(t, lo, Rightmost(t).key, Rightmost(t).node)
  {
    var m := Rightmost(t);
    if t.right.T? {
      RightmostOrdered(t.right, t.key, hi, d);
    }
    OrderedSwitch(t.left, lo, t.key, d, m.node);
  }

  /** The root takes over key and data of another node. */
  ghost function Overwritten(t: Tree, key: nat, data: int): Tree
    requires t.T?
  {
    T(t.left, t.node, key, data, t.red, t.right)
  }

  /** Copying the successor into the root moves the doom, and the duplicate key, to the successor. */
  lemma SuccessorOrdered(t: Tree, lo: int, hi: int)
    requires t.T? && t.right.T? && Distinct(t) && Ordered(t, lo, hi, t.node)
    ensures var m := Leftmost(t.right);
            Ordered(Overwritten(t, m.key, m.data), lo, hi, m.node) && m.node != t.node
  {
    var m := Leftmost(t.right);
    LeftmostOrdered(t.right, t.key, hi, t.node);
    OrderedSwitch(t.left, lo, t.key, t.node, m.node);
    OrderedWiden(t.left, lo, t.key, lo, m.key, m.node);
  }

  lemma PredecessorOrdered(t: Tree, lo: int, hi: int)
    requires t.T? && t.left.T? && Distinct(t) && Ordered(t, lo, hi, t.node)
    ensures var m := Rightmost(t.left);
            Ordered(Overwritten(t, m.key, m.data), lo, hi, m.node) && m.node != t.node
  {
    var m := Rightmost(t.left);
    RightmostOrdered(t.left, lo, t.key, t.node);
    OrderedSwitch(t.right, t.key, hi, t.node, m.node);
    OrderedWiden(t.right, t.key, hi, m.key, hi, m.node);
  }

  // ----- What the tree holds besides the doomed node

  /** The keys and data of all nodes but one. */
  ghost function PairsBut(entries: set<Entry>, d: Node?): set<(nat, int)> {
    set e | e in entries && e.node != d :: (e.key, e.data)
  }

  ghost function Pairs(t: Tree): set<(nat, int)> {
    PairsBut(Entries(t), null)
  }

  lemma {:induction false} EntryOf(t: Tree, e: Entry)
    requires Distinct(t) && e in Entries(t)
    ensures e.node in Nodes(t)
    ensures t.T? && e.node == t.node ==> e == Entry(t.node, t.key, t.data)
  {
    if t.T? {
      EntryNodes(t.left);
      EntryNodes(t.right);
    }
  }

  lemma {:induction false} CtxEntryNodes(c: Ctx)
    ensures forall e :: e in CtxEntries(c) ==> e.node in CtxNodes(c)
  {
    if !c.Top? {
      CtxEntryNodes(c.up);
      EntryNodes(c.other);
    }
  }

  lemma {:induction false} LeftmostEntry(t: Tree)
    requires t.T?
    ensures var m := Leftmost(t); Entry(m.node, m.key, m.data) in Entries(t)
  {
    if t.left.T? {
      LeftmostEntry(t.left);
    }
  }

  lemma {:induction false} RightmostEntry(t: Tree)
    requires t.T?
    ensures var m := Rightmost(t); Entry(m.node, m.key, m.data) in Entries(t)
  {
    if t.right.T? {
      RightmostEntry(t.right);
    }
  }

  /** Before anything is copied, leaving out the node with the key leaves out exactly the key. */
  lemma DoomedAtKey(c: Ctx, t: Tree)
    requires t.T? && CtxDistinct(c) && Distinct(t) && CtxNodes(c) !! Nodes(t)
    requires CtxOrdered(c, null) && Ordered(t, Lo(c), Hi(c), null)
    ensures PairsBut(CtxEntries(c) + Entries(t), t.node)
         == set p | p in PairsBut(CtxEntries(c) + Entries(t), null) && p.0 != t.key
  {
    CtxEntryNodes(c);
    forall e | e in CtxEntries(c) + Entries(t)
      ensures e.node != t.node <==> e.key != t.key
    {
      if e in CtxEntries(c) {
        CtxKeysOutside(c, e);
      } else {
        EntryOf(t, e);
        if e in Entries(t.left) {
          KeysInside(t.left, Lo(c), t.key, e);
        } else if e in Entries(t.right) {
          KeysInside(t.right, t.key, Hi(c), e);
        }
      }
    }
    var all := CtxEntries(c) + Entries(t);
    forall p
      ensures p in PairsBut(all, t.node) <==> p in PairsBut(all, null) && p.0 != t.key
    {
      if p in PairsBut(all, null) && p.0 != t.key {
        var e :| e in all && p == (e.key, e.data);
        assert e.node != t.node;
      }
    }
  }

  /** Copying an entry over the doomed node and dooming its source keeps what the others hold. */
  lemma CopyKeepsPairs(others: set<Entry>, d: Node, k: nat, x: int, m: Entry)
    requires m in others && m.node != d && forall e :: e in others ==> e.node != d
    requires forall e :: e in others && e.node == m.node ==> e == m
    ensures PairsBut(others + {Entry(d, m.key, m.data)}, m.node) == PairsBut(others + {Entry(d, k, x)}, d)
  {
    var after, before := others + {Entry(d, m.key, m.data)}, others + {Entry(d, k, x)};
    forall p
      ensures p in PairsBut(after, m.node) <==> p in PairsBut(before, d)
    {
      if p in PairsBut(before, d) {
        var e :| e in before && e.node != d && p == (e.key, e.data);
        if e == m {
          assert Entry(d, m.key, m.data) in after;
        } else {
          assert e in after && e.node != m.node;
        }
      }
      if p in PairsBut(after, m.node) {
        var e :| e in after && e.node != m.node && p == (e.key, e.data);
        if e.node == d {
          assert m in before;
        } else {
          assert e in before;
        }
      }
    }
  }

  lemma {:induction false} EntryUnique(t: Tree, e: Entry, f: Entry)
    requires Distinct(t) && e in Entries(t) && f in Entries(t) && e.node == f.node
    ensures e == f
  {
    EntryNodes(t.left);
    EntryNodes(t.right);
    if e.node in Nodes(t.left) {
      EntryUnique(t.left, e, f);
    } else if e.node in Nodes(t.right) {
      EntryUnique(t.right, e, f);
    }
  }

  /** The copying step on a located tree: the pairs outside the doomed node stay the same. */
  lemma CopyStep(c: Ctx, t: Tree, m: Entry)
    requires t.T? && CtxDistinct(c) && Distinct(t) && CtxNodes(c) !! Nodes(t)
    requires m in Entries(t.left) || m in Entries(t.right)
    ensures PairsBut(CtxEntries(c) + Entries(Overwritten(t, m.key, m.data)), m.node)
         == PairsBut(CtxEntries(c) + Entries(t), t.node)
  {
    CtxEntryNodes(c);
    EntryNodes(t.left);
    EntryNodes(t.right);
    var others := CtxEntries(c) + Entries(t.left) + Entries(t.right);
    forall e | e in others && e.node == m.node
      ensures e == m
    {
      if m in Entries(t.left) {
        EntryUnique(t.left, e, m);
      } else {
        EntryUnique(t.right, e, m);
      }
    }
    CopyKeepsPairs(others, t.node, t.key, t.data, m);
    assert CtxEntries(c) + Entries(t) == others + {Entry(t.node, t.key, t.data)};
    assert CtxEntries(c) + Entries(Overwritten(t, m.key, m.data)) == others + {Entry(t.node, m.key, m.data)};
  }

  lemma OverwrittenFacts(c: Ctx, t: Tree, k: nat, x: int, n: nat)
    requires t.T?
    ensures var t1 := Overwritten(t, k, x);
            && t1.T? && t1.left == t.left && t1.right == t.right && t1.node == t.node && t1.red == t.red
            && Nodes(t1) == Nodes(t) && (Distinct(t) ==> Distinct(t1))
            && (BalanceFits(c, t, n, null) ==> BalanceFits(c, t1, n, null))
  {
  }

  /** The order once the successor, or the predecessor, is copied into the doomed root of the focus. */
  lemma CopyOrdered(c: Ctx, t: Tree, m: Tree)
    requires t.T? && Distinct(t) && CtxNodes(c) !! Nodes(t) && OrderFits(c, t, t.node)
    requires (t.right.T? && m == Leftmost(t.right)) || (t.left.T? && m == Rightmost(t.left))
    ensures OrderFits(c, Overwritten(t, m.key, m.data), m.node) && m.node != t.node
  {
    CtxOrderedSwitch(c, t.node, m.node);
    if t.right.T? && m == Leftmost(t.right) {
      SuccessorOrdered(t, Lo(c), Hi(c));
    } else {
      PredecessorOrdered(t, Lo(c), Hi(c));
    }
  }

  lemma LeafPairs(c: Ctx, t: Tree, key: nat)
    requires t.T? && t.key == key && CtxDistinct(c) && Distinct(t) && CtxNodes(c) !! Nodes(t) && OrderFits(c, t, null)
    ensures OrderFits(c, t, t.node)
    ensures PairsBut(Entries(Plug(c, t)), t.node) == Without(Pairs(Plug(c, t)), key)
  {
    PlugNodes(c, t);
    DoomedAtKey(c, t);
    OrderedSwitch(t, Lo(c), Hi(c), null, t.node);
    CtxOrderedSwitch(c, null, t.node);
  }

  /** All pairs but those with the key. */
  ghost function Without(pairs: set<(nat, int)>, key: nat): set<(nat, int)> {
    set p | p in pairs && p.0 != key
  }

  /** A caller's write to the data of the node in focus. */
  lemma DataWritten(c: Ctx, t: Tree, data: int)
    requires t.T? && CtxDistinct(c) && Distinct(t) && CtxNodes(c) !! Nodes(t) && OrderFits(c, t, null)
    ensures OrderFits(c, Overwritten(t, t.key, data), null)
    ensures Pairs(Plug(c, Overwritten(t, t.key, data))) == Without(Pairs(Plug(c, t)), t.key) + {(t.key, data)}
  {
    hide Plug, PairsBut, CtxEntries, Ordered, CtxOrdered, CtxDistinct;
    OverwrittenOrdered(t, Lo(c), Hi(c), data);
    var t1 := Overwritten(t, t.key, data);
    PlugNodes(c, t);
    PlugNodes(c, t1);
    LeafPairs(c, t, t.key);
    DataStep(c, t, data);
  }

  lemma OverwrittenOrdered(t: Tree, lo: int, hi: int, data: int)
    requires t.T? && Ordered(t, lo, hi, null)
    ensures Ordered(Overwritten(t, t.key, data), lo, hi, null)
  {
  }

  lemma DataStep(c: Ctx, t: Tree, data: int)
    requires t.T? && CtxDistinct(c) && Distinct(t) && CtxNodes(c) !! Nodes(t)
    ensures PairsBut(CtxEntries(c) + Entries(Overwritten(t, t.key, data)), null)
         == PairsBut(CtxEntries(c) + Entries(t), t.node) + {(t.key, data)}
  {
    hide PairsBut;
    CtxEntryNodes(c);
    EntryNodes(t.left);
    EntryNodes(t.right);
    var others := CtxEntries(c) + Entries(t.left) + Entries(t.right);
    AllPairs(others, t.node, t.key, t.data, data);
    assert CtxEntries(c) + Entries(t) == others + {Entry(t.node, t.key, t.data)};
    assert CtxEntries(c) + Entries(Overwritten(t, t.key, data)) == others + {Entry(t.node, t.key, data)};
  }

  lemma AllPairs(others: set<Entry>, d: Node, k: nat, x: int, y: int)
    requires forall e :: e in others ==> e.node != d
    ensures PairsBut(others + {Entry(d, k, y)}, null) == PairsBut(others + {Entry(d, k, x)}, d) + {(k, y)}
  {
    var after, before := others + {Entry(d, k, y)}, others + {Entry(d, k, x)};
    forall p
      ensures p in PairsBut(after, null) <==> p in PairsBut(before, d) || p == (k, y)
    {
      if p in PairsBut(after, null) {
        var e :| e in after && p == (e.key, e.data);
        assert e in before || p == (k, y);
      }
      if p in PairsBut(before, d) {
        var e :| e in before && e.node != d && p == (e.key, e.data);
        assert e in after;
      }
      assert Entry(d, k, y) in after;
    }
  }

  // ----- Rebalancing: the focus t is one black node short of what its context expects

  /** The focus has black height n where the context expects n + 1, and its root is not red. */
  ghost predicate Short(c: Ctx, t: Tree, n: nat, d: Node?) {
    Balanced(t, n, d) && CtxBalanced(c, n + 1, d) && !IsRed(t, d)
  }

  lemma ShortAtTop(c: Ctx, t: Tree, n: nat, d: Node?)
    requires c.Top? && Short(c, t, n, d)
    ensures Balanced(t, n, d) && CtxBalanced(c, n, d) && !ParentRed(c)
  {
  }

  /** A short focus has a sibling, and the sibling's grandchildren's parents are there when it is red. */
  lemma ShortHasSibling(c: Ctx, t: Tree, n: nat, d: Node?)
    requires !c.Top? && Short(c, t, n, d) && d !in CtxNodes(c)
    ensures c.other.T? && c.other.node != d && d !in Nodes(c.other)
    ensures c.other.left.T? ==> c.other.left.node != d
    ensures c.other.right.T? ==> c.other.right.node != d
    ensures c.other.red ==> !c.red && c.other.left.T? && c.other.right.T?
  {
    RootIn(c.other);
    assert Balanced(c.other, n + 1, d);
    RootIn(c.other.left);
    RootIn(c.other.right);
    if c.other.red {
      assert Balanced(c.other.left, n + 1, d) && Balanced(c.other.right, n + 1, d);
    }
  }

  /** The sibling's child farther from the focus, and the nearer one. */
  ghost function Far(c: Ctx): Tree
    requires !c.Top? && c.other.T?
  {
    if c.InLeft? then c.other.right else c.other.left
  }

  ghost function Near(c: Ctx): Tree
    requires !c.Top? && c.other.T?
  {
    if c.InLeft? then c.other.left else c.other.right
  }

  /** Black sibling with black children: it turns red, and the parent makes up for it or becomes short itself. */
  lemma SiblingTurnsRed(c: Ctx, t: Tree, n: nat, d: Node?)
    requires !c.Top? && Short(c, t, n, d) && d !in CtxNodes(c)
    requires c.other.T? && !c.other.red && !IsRed(c.other.left, d) && !IsRed(c.other.right, d)
    ensures var g := Up(SiblingPainted(c, true), t);
            if c.red then Balanced(Painted(g, false), n + 1, d) && CtxBalanced(c.up, n + 1, d)
            else Short(c.up, g, n + 1, d)
  {
    RootIn(c.other);
  }

  /** The last step of the far case, after the rotation: the raised sibling's far child turns black. */
  ghost function FarPainted(r: Tree, left: bool): Tree
    requires r.T? && (if left then r.left.T? else r.right.T?)
  {
    if left then T(Painted(r.left, false), r.node, r.key, r.data, r.red, r.right)
    else T(r.left, r.node, r.key, r.data, r.red, Painted(r.right, false))
  }

  lemma FarPaintedFacts(t: Tree, left: bool, lo: int, hi: int, d: Node?)
    requires t.T? && (if left then t.left.T? else t.right.T?)
    ensures var r := FarPainted(t, left);
            && Nodes(r) == Nodes(t) && Entries(r) == Entries(t)
            && (Distinct(t) ==> Distinct(r)) && (Ordered(t, lo, hi, d) ==> Ordered(r, lo, hi, d))
  {
    PaintFacts(if left then t.left else t.right, false, d);
  }

  lemma ChildParts(t: Tree)
    requires t.T? && Distinct(t)
    ensures Distinct(t.left) && Distinct(t.right) && Nodes(t.left) !! Nodes(t.right)
    ensures t.node !in Nodes(t.left) && t.node !in Nodes(t.right)
    ensures Nodes(t.left) <= Nodes(t) && Nodes(t.right) <= Nodes(t)
    ensures t.left.T? ==> t.left.node in Nodes(t.left)
    ensures t.right.T? ==> t.right.node in Nodes(t.right)
  {
  }

  /** Black sibling with a red far child: one rotation of the parent ends the rebalancing. */
  lemma FarRedFixes(c: Ctx, t: Tree, n: nat, d: Node?)
    requires !c.Top? && Short(c, t, n, d) && d !in CtxNodes(c)
    requires c.other.T? && !c.other.red && IsRed(Far(c), d)
    ensures var g := Up(c, t);
            var r := FarPainted(if c.InLeft? then RotatedLeft(g) else RotatedRight(g), c.InRight?);
            var m := if c.red then n + 1 else n + 2;
            Balanced(r, m, d) && r.red == c.red && CtxBalanced(c.up, m, d) && !(ParentRed(c.up) && c.red)
  {
    RootIn(c.other);
    RootIn(c.other.left);
    RootIn(c.other.right);
    assert Balanced(c.other.left, n, d) && Balanced(c.other.right, n, d);
    assert Balanced(Far(c).left, n, d) && Balanced(Far(c).right, n, d);
  }

  /** The sibling subtree replaced. */
  ghost function WithOther(c: Ctx, other: Tree): Ctx
    requires !c.Top?
  {
    if c.InLeft? then InLeft(c.up, c.node, c.key, c.data, c.red, other)
    else InRight(c.up, c.node, c.key, c.data, c.red, other)
  }

  /** Black sibling with a black far and a red near child: rotating the sibling makes the far child red. */
  lemma NearRedTurns(c: Ctx, t: Tree, n: nat, d: Node?)
    requires !c.Top? && Short(c, t, n, d) && d !in CtxNodes(c)
    requires c.other.T? && !c.other.red && !IsRed(Far(c), d) && IsRed(Near(c), d)
    ensures var c1 := WithOther(c, if c.InLeft? then RotatedRight(c.other) else RotatedLeft(c.other));
            Short(c1, t, n, d) && c1.other.T? && !c1.other.red && IsRed(Far(c1), d)
  {
    RootIn(c.other);
    RootIn(c.other.left);
    RootIn(c.other.right);
    assert Balanced(c.other.left, n, d) && Balanced(c.other.right, n, d);
    assert Balanced(Near(c).left, n, d) && Balanced(Near(c).right, n, d);
    RootIn(Near(c).left);
    RootIn(Near(c).right);
    var o := if c.InLeft? then RotatedRight(c.other) else RotatedLeft(c.other);
    assert Balanced(if c.InLeft? then o.right else o.left, n, d);
    assert Balanced(o, n + 1, d);
  }

  /** The context of the sibling: the focus and its sibling trade places. */
  ghost function Across(c: Ctx, t: Tree): Ctx
    requires !c.Top?
  {
    if c.InLeft? then InRight(c.up, c.node, c.key, c.data, c.red, t)
    else InLeft(c.up, c.node, c.key, c.data, c.red, t)
  }

  lemma AcrossFacts(c: Ctx, t: Tree, o: Tree, d: Node?)
    requires !c.Top?
    ensures Across(Across(c, t), o) == WithOther(c, o) && Across(c, t).other == t && !Across(c, t).Top?
    ensures CtxNodes(Across(c, t)) + Nodes(c.other) == CtxNodes(c) + Nodes(t)
    ensures CtxEntries(Across(c, t)) + Entries(c.other) == CtxEntries(c) + Entries(t)
    ensures CtxOrdered(c, d) && Ordered(t, Lo(c), Hi(c), d) ==>
              CtxOrdered(Across(c, t), d) && Ordered(c.other, Lo(Across(c, t)), Hi(Across(c, t)), d)
  {
  }

  /** Where the focus is after a red sibling was rotated above the parent. */
  ghost function BelowSibling(c: Ctx): Ctx
    requires !c.Top? && c.other.T?
  {
    var o := c.other;
    if c.InLeft? then InLeft(InLeft(c.up, o.node, o.key, o.data, c.red, o.right), c.node, c.key, c.data, o.red, o.left)
    else InRight(InRight(c.up, o.node, o.key, o.data, c.red, o.left), c.node, c.key, c.data, o.red, o.right)
  }

  /** Red sibling: after the rotation the focus lies deeper, but its parent is red and its sibling black. */
  lemma RedSiblingRises(c: Ctx, t: Tree, n: nat, d: Node?)
    requires !c.Top? && Short(c, t, n, d) && d !in CtxNodes(c) && c.other.T? && c.other.red
    ensures Short(BelowSibling(c), t, n, d) && BelowSibling(c).red
    ensures var g := Up(c, t);
            Up(BelowSibling(c).up, Up(BelowSibling(c), t)) == if c.InLeft? then RotatedLeft(g) else RotatedRight(g)
    ensures BelowSibling(c).up.up == c.up
  {
    RootIn(c.other);
    RootIn(c.other.left);
    RootIn(c.other.right);
  }

  ghost function Depth(c: Ctx): nat {
    if c.Top? then 0 else 1 + Depth(c.up)
  }

  /** Steps of the loop left to the parent: none once the parent is red. */
  ghost function Rank(c: Ctx): nat {
    if c.Top? || c.red then 0 else Depth(c)
  }

  /** Whether the far child still has to be made red. */
  ghost function FarRank(c: Ctx): nat {
    if !c.Top? && c.other.T? && !c.other.red && Far(c).T? && Far(c).red then 0 else 1
  }

  lemma RankFalls(c: Ctx)
    requires !c.Top? && !c.red
    ensures Rank(c.up) < Rank(c)
  {
  }

  lemma NearRedRank(c: Ctx, o: Tree)
    requires !c.Top? && c.other.T? && !c.other.red && !(Far(c).T? && Far(c).red)
    requires o.T? && !o.red && Far(WithOther(c, o)).T? && Far(WithOther(c, o)).red
    ensures Rank(WithOther(c, o)) == Rank(c) && FarRank(WithOther(c, o)) < FarRank(c)
  {
  }

  lemma RedSiblingRank(c: Ctx)
    requires !c.Top? && c.other.T? && c.other.red && !c.red
    ensures Rank(BelowSibling(c)) < Rank(c)
  {
  }

  lemma BlackenedRoot(t: Tree, n: nat, d: Node)
    requires t.T? && t.red && Balanced(t, n, d)
    ensures exists m: nat :: Balanced(Painted(t, false), m, d)
  {
    assert Balanced(Painted(t, false), if t.node == d then 0 else n + 1, d);
  }

  // ----- Unlinking the doomed leaf

  /** A red leaf counts as absent without changing any black height. */
  lemma RedLeafDoomed(c: Ctx, t: Tree, n: nat)
    requires t.T? && t.left.Leaf? && t.right.Leaf? && t.red && Balanced(t, n, null) && CtxBalanced(c, n, null)
    requires t.node !in CtxNodes(c)
    ensures Balanced(t, 0, t.node) && CtxBalanced(c, 0, t.node)
  {
    CtxBalancedSwitch(c, 0, null, t.node);
  }

  /** A black leaf leaves its place one black node short. */
  lemma BlackLeafShort(c: Ctx, t: Tree, n: nat)
    requires t.T? && t.left.Leaf? && t.right.Leaf? && !t.red && Balanced(t, n, null) && CtxBalanced(c, n, null)
    requires t.node !in CtxNodes(c)
    ensures Short(c, t, 0, t.node)
  {
    CtxBalancedSwitch(c, 1, null, t.node);
  }

  /** Where the doomed leaf hangs after the rebalancing. */
  lemma {:induction false} LeafIsBare(t: Tree, n: nat, d: Node)
    requires Balanced(t, n, d) && t.T? && t.node == d
    ensures n == 0 && t.left.Leaf? && t.right.Leaf?
  {
  }

  /** The tree without the doomed leaf is a red-black tree again, and holds what the other nodes hold. */
  lemma UnlinkedIsRedBlack(c: Ctx, t: Tree, d: Node)
    requires t.T? && t.node == d && CtxDistinct(c) && Distinct(t) && CtxNodes(c) !! Nodes(t)
    requires OrderFits(c, t, d) && BalanceFits(c, t, 0, d)
    ensures RedBlack(Plug(c, Leaf))
    ensures Pairs(Plug(c, Leaf)) == PairsBut(Entries(Plug(c, t)), d)
    ensures Nodes(Plug(c, Leaf)) == Nodes(Plug(c, t)) - {d}
  {
    hide Plug, Ordered, CtxOrdered, CtxBalanced, CtxDistinct, RedBlack, PairsBut;
    LeafIsBare(t, 0, d);
    CtxOrderedSwitch(c, d, null);
    CtxBalancedSwitch(c, 0, d, null);
    EmptyFits(c, t);
    CloseRedBlack(c, Leaf, 0);
    PlugNodes(c, t);
    PlugNodes(c, Leaf);
    CtxEntryNodes(c);
    PairsOfOthers(CtxEntries(c), Entry(d, t.key, t.data));
    assert Entries(t) == {Entry(d, t.key, t.data)};
    assert CtxEntries(c) + Entries(Leaf) == CtxEntries(c);
  }

  lemma EmptyFits(c: Ctx, t: Tree)
    requires CtxOrdered(c, null) && CtxBalanced(c, 0, null)
    ensures OrderFits(c, Leaf, null)
    ensures Balanced(Leaf, 0, null) && !IsRed(Leaf, null)
  {
  }

  lemma PairsOfOthers(others: set<Entry>, e: Entry)
    requires forall f :: f in others ==> f.node != e.node
    ensures PairsBut(others + {e}, e.node) == PairsBut(others, null)
  {
  }
}
