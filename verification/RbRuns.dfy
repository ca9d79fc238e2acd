/** Runs of the red-black tree: every sequence of insertions, data writes and removals acts as on a map. */
module RbRuns {
  import opened BitUtils
  import opened RbTrees
  import opened RbDeletion
  import opened RedBlackTree

  datatype Request = Add(key: nat) | Put(key: nat, data: int) | Drop(key: nat)

  function Step(m: map<nat, int>, r: Request): map<nat, int> {
    match r
    case Add(key) => if key in m then m else m[key := 0]
    case Put(key, data) => m[key := data]
    case Drop(key) => m - {key}
  }

  /** The map that a sequence of requests leads to. */
  function After(m: map<nat, int>, requests: seq<Request>): map<nat, int> {
    if requests == [] then m else Step(After(m, requests[..|requests| - 1]), requests[|requests| - 1])
  }

  ghost predicate Holds(pairs: set<(nat, int)>, m: map<nat, int>) {
    forall p: (nat, int) :: p in pairs <==> p.0 in m && m[p.0] == p.1
  }

  // ----- What a run leaves, said without the map

  /** No later request on the key does anything to it. */
  ghost predicate Quiet(requests: seq<Request>, from: nat, key: nat) {
    forall j :: from <= j < |requests| && requests[j].key == key ==> requests[j].Add?
  }

  /** Before request i the key is not there: whatever came for it was dropped again. */
  ghost predicate Absent(requests: seq<Request>, i: nat, key: nat)
    requires i <= |requests|
  {
    forall j :: 0 <= j < i && requests[j].key == key ==> DroppedIn(requests, j, i, key)
  }

  ghost predicate DroppedIn(requests: seq<Request>, j: nat, i: nat, key: nat)
    requires i <= |requests|
  {
    exists l :: j <= l < i && requests[l] == Drop(key)
  }

  /** Request i is the one that gives the key the data it has in the end. */
  ghost predicate Gives(requests: seq<Request>, i: nat, key: nat, data: int) {
    && i < |requests| && Quiet(requests, i + 1, key)
    && (requests[i] == Put(key, data) || (requests[i] == Add(key) && data == 0 && Absent(requests, i, key)))
  }

  ghost predicate EndsWith(requests: seq<Request>, key: nat, data: int) {
    exists i: nat :: Gives(requests, i, key, data)
  }

  lemma AbsentStep(requests: seq<Request>, key: nat)
    requires requests != []
    ensures var n := |requests| - 1;
            Absent(requests, n + 1, key) <==>
            requests[n] == Drop(key) || (requests[n].key != key && Absent(requests[..n], n, key))
    ensures var n := |requests| - 1;
            forall i: nat :: i <= n ==> (Absent(requests, i, key) <==> Absent(requests[..n], i, key))
  {
    var n := |requests| - 1;
    var init := requests[..n];
    forall j: nat, i: nat | j <= i <= n
      ensures DroppedIn(requests, j, i, key) <==> DroppedIn(init, j, i, key)
    {
      if l :| j <= l < i && requests[l] == Drop(key) {
        assert init[l] == Drop(key);
      }
      if l :| j <= l < i && init[l] == Drop(key) {
        assert requests[l] == Drop(key);
      }
    }
    forall j: nat | j <= n
      ensures DroppedIn(requests, j, n + 1, key) <==> requests[n] == Drop(key) || DroppedIn(init, j, n, key)
    {
      if l :| j <= l < n && init[l] == Drop(key) {
        assert requests[l] == Drop(key);
      }
      if DroppedIn(requests, j, n + 1, key) {
        var l :| j <= l < n + 1 && requests[l] == Drop(key);
        assert l < n ==> init[l] == Drop(key);
      }
    }
    assert requests[n].key == key && !requests[n].Drop? ==> !DroppedIn(requests, n, n + 1, key);
    assert forall j :: 0 <= j < n ==> requests[j] == init[j];
  }

  lemma GivesStep(requests: seq<Request>, key: nat, data: int)
    requires requests != []
    ensures var n := |requests| - 1;
            EndsWith(requests, key, data) <==>
            (if requests[n].key != key then EndsWith(requests[..n], key, data)
             else match requests[n]
                  case Put(_, d) => d == data
                  case Drop(_) => false
                  case Add(_) => EndsWith(requests[..n], key, data) || (data == 0 && Absent(requests[..n], n, key)))
  {
    hide Absent;
    var n := |requests| - 1;
    var init := requests[..n];
    AbsentStep(requests, key);
    forall i: nat | i < n
      ensures Gives(requests, i, key, data) <==>
              Gives(init, i, key, data) && (requests[n].key == key ==> requests[n].Add?)
    {
      assert requests[i] == init[i];
      assert Quiet(requests, i + 1, key) <==>
             Quiet(init, i + 1, key) && (requests[n].key == key ==> requests[n].Add?);
    }
    if EndsWith(init, key, data) {
      var i: nat :| Gives(init, i, key, data);
      assert Gives(requests, i, key, data) || (requests[n].key == key && !requests[n].Add?);
    }
    assert Gives(requests, n, key, data) <==>
           (requests[n] == Put(key, data) || (requests[n] == Add(key) && data == 0 && Absent(init, n, key)));
  }

  /** The map after a run, from the requests alone. */
  lemma {:induction false} AfterIs(requests: seq<Request>, key: nat, data: int)
    ensures key in After(map[], requests) && After(map[], requests)[key] == data <==> EndsWith(requests, key, data)
    ensures key in After(map[], requests) <==> !Absent(requests, |requests|, key)
  {
    hide Absent, EndsWith;
    if requests == [] {
      NothingYet(key, data);
    } else {
      var n := |requests| - 1;
      AfterIs(requests[..n], key, data);
      GivesStep(requests, key, data);
      AbsentStep(requests, key);
    }
  }

  lemma NothingYet(key: nat, data: int)
    ensures !EndsWith([], key, data) && Absent([], 0, key)
  {
  }

  // ----- One request

  lemma HasKeyInMap(t: Tree, m: map<nat, int>, key: nat)
    requires Holds(Pairs(t), m)
    ensures HasKey(t, key) <==> key in m
  {
    KeyInPairs(t, key);
    if key in m {
      assert (key, m[key]) in Pairs(t);
    }
  }

  lemma KeyInPairs(t: Tree, key: nat)
    ensures HasKey(t, key) <==> exists p :: p in Pairs(t) && p.0 == key
  {
    if e :| e in Entries(t) && e.key == key {
      assert (e.key, e.data) in Pairs(t);
    }
    if p :| p in Pairs(t) && p.0 == key {
      var e :| e in Entries(t) && p == (e.key, e.data);
    }
  }

  lemma AddedPair(t: Tree, before: Tree, e: Entry)
    requires Entries(t) == Entries(before) + {e}
    ensures Pairs(t) == Pairs(before) + {(e.key, e.data)}
  {
    forall p
      ensures p in Pairs(t) <==> p in Pairs(before) || p == (e.key, e.data)
    {
      if p in Pairs(t) {
        var f :| f in Entries(t) && p == (f.key, f.data);
        assert f in Entries(before) || f == e;
      }
      if p in Pairs(before) {
        var f :| f in Entries(before) && p == (f.key, f.data);
        assert f in Entries(t);
      }
      assert e in Entries(t);
    }
  }

  /** A removal takes out the pair of its key, a write replaces or adds it, and an insertion adds 0 to a new key. */
  method Perform(t: RbTree, r: Request) returns (status: Status)
    requires t.Valid() && r.key < KEY_LIMIT
    modifies t, Nodes(t.tree)
    ensures t.Valid()
    ensures r.Drop? ==> Pairs(t.tree) == set p | p in old(Pairs(t.tree)) && p.0 != r.key
    ensures r.Put? ==> Pairs(t.tree) == (set p | p in old(Pairs(t.tree)) && p.0 != r.key) + {(r.key, r.data)}
    ensures r.Add? && (exists p :: p in old(Pairs(t.tree)) && p.0 == r.key) ==> Pairs(t.tree) == old(Pairs(t.tree))
    ensures r.Add? && (forall p :: p in old(Pairs(t.tree)) ==> p.0 != r.key) ==>
              Pairs(t.tree) == old(Pairs(t.tree)) + {(r.key, 0)}
    ensures status == NoKey <==> r.Drop? && forall p :: p in old(Pairs(t.tree)) ==> p.0 != r.key
    ensures forall n :: n in Nodes(t.tree) ==> n in old(Nodes(t.tree)) || fresh(n)
  {
    hide Entries, Pairs, HasKey, Nodes, RedBlack, Linked;
    NodesAllocated(t.tree);
    ghost var before := t.tree;
    status := Ok;
    KeyInPairs(before, r.key);
    match r {
      case Add(key) =>
        var node := t.Insert(t.head, key);
        if !HasKey(before, key) {
          AddedPair(t.tree, before, Entry(node, key, 0));
        }
      case Put(key, data) =>
        var node := t.Insert(t.head, key);
        if !HasKey(before, key) {
          AddedPair(t.tree, before, Entry(node, key, 0));
          AddedKey(t, node, key);
        }
        NodesAllocated(t.tree);
        t.SetData(node, data);
      case Drop(key) =>
        status := t.Remove(key);
    }
  }

  /** What a request does to the pairs is what it does to the map. */
  lemma StepHolds(before: set<(nat, int)>, after: set<(nat, int)>, m: map<nat, int>, r: Request)
    requires Holds(before, m)
    requires r.Drop? ==> after == set p | p in before && p.0 != r.key
    requires r.Put? ==> after == (set p | p in before && p.0 != r.key) + {(r.key, r.data)}
    requires r.Add? && (exists p :: p in before && p.0 == r.key) ==> after == before
    requires r.Add? && (forall p :: p in before ==> p.0 != r.key) ==> after == before + {(r.key, 0)}
    ensures Holds(after, Step(m, r))
  {
    if r.Add? && r.key in m {
      assert (r.key, m[r.key]) in before;
    }
  }

  lemma AddedKey(t: RbTree, node: Node, key: nat)
    requires t.Valid() && Entry(node, key, 0) in Entries(t.tree)
    ensures node.key == key
  {
    EntryFields(t.tree, t.head, null, Entry(node, key, 0));
  }

  lemma {:induction false} EntryFields(t: Tree, x: Node?, p: Node?, e: Entry)
    requires Linked(t, x, p) && e in Entries(t)
    ensures e.node in Nodes(t) && e.node.key == e.key && e.node.data == e.data
  {
    if e in Entries(t.left) {
      EntryFields(t.left, x.left, x, e);
    } else if e in Entries(t.right) {
      EntryFields(t.right, x.right, x, e);
    }
  }

  // ----- Whole runs

  /** Every run from a new tree ends in a valid red-black tree that holds exactly what the requests leave: a key has the
      data of the last request that gave it some, unless it was dropped after that. */
  method Execute(requests: seq<Request>) returns (t: RbTree)
    requires forall r :: r in requests ==> r.key < KEY_LIMIT
    ensures fresh(t) && t.Valid()
    ensures Holds(Pairs(t.tree), After(map[], requests))
    ensures forall key: nat, data: int ::
              (key, data) in Pairs(t.tree) <==> exists i: nat :: Gives(requests, i, key, data)
    ensures requests != [] && requests[|requests| - 1].Drop? ==>
              forall p :: p in Pairs(t.tree) ==> p.0 != requests[|requests| - 1].key
    ensures requests != [] && requests[|requests| - 1].Put? ==>
              (requests[|requests| - 1].key, requests[|requests| - 1].data) in Pairs(t.tree)
  {
    hide Step, Pairs, Gives;
    t := new RbTree();
    NewIsEmpty(t.tree);
    var i := 0;
    while i < |requests|
      invariant 0 <= i <= |requests|
      invariant t.Valid() && Holds(Pairs(t.tree), After(map[], requests[..i]))
      invariant fresh(t) && fresh(Nodes(t.tree))
    {
      assert requests[..i + 1][..i] == requests[..i];
      ghost var before := Pairs(t.tree);
      var status := Perform(t, requests[i]);
      StepHolds(before, Pairs(t.tree), After(map[], requests[..i]), requests[i]);
      i := i + 1;
    }
    assert requests[..i] == requests;
    forall key: nat, data: int
      ensures (key, data) in Pairs(t.tree) <==> exists i: nat :: Gives(requests, i, key, data)
    {
      AfterIs(requests, key, data);
    }
    if requests != [] {
      LastStep(After(map[], requests[..|requests| - 1]), requests[|requests| - 1]);
    }
  }

  lemma LastStep(m: map<nat, int>, r: Request)
    ensures r.Drop? ==> r.key !in Step(m, r)
    ensures r.Put? ==> r.key in Step(m, r) && Step(m, r)[r.key] == r.data
  {
  }

  lemma NewIsEmpty(t: Tree)
    requires t == Leaf
    ensures Holds(Pairs(t), map[]) && Nodes(t) == {}
  {
  }

  // ----- Searches after a run

  lemma {:induction false} KeyUnique(t: Tree, lo: int, hi: int, e: Entry, f: Entry)
    requires Ordered(t, lo, hi, null) && e in Entries(t) && f in Entries(t) && e.key == f.key
    ensures e == f
  {
    forall x | x in Entries(t.left)
      ensures x.key < t.key
    {
      KeysInside(t.left, lo, t.key, x);
    }
    forall x | x in Entries(t.right)
      ensures t.key < x.key
    {
      KeysInside(t.right, t.key, hi, x);
    }
    if e in Entries(t.left) {
      KeyUnique(t.left, lo, t.key, e, f);
    } else if e in Entries(t.right) {
      KeyUnique(t.right, t.key, hi, e, f);
    }
  }

  lemma {:induction false} KeysCount(entries: set<Entry>, keys: set<nat>)
    requires forall e, f :: e in entries && f in entries && e.key == f.key ==> e == f
    requires forall k :: k in keys <==> exists e :: e in entries && e.key == k
    ensures |entries| == |keys|
    decreases entries
  {
    if entries != {} {
      var e :| e in entries;
      forall k
        ensures k in keys - {e.key} <==> exists f :: f in entries - {e} && f.key == k
      {
        if k in keys - {e.key} {
          var f :| f in entries && f.key == k;
          assert f in entries - {e};
        }
      }
      KeysCount(entries - {e}, keys - {e.key});
      assert e.key in keys;
    } else {
      assert keys == {};
    }
  }

  /** The tree has as many nodes as the map has keys. */
  lemma SizeIsMap(t: Tree, m: map<nat, int>)
    requires RedBlack(t) && Holds(Pairs(t), m)
    ensures Size(t) == |m|
  {
    hide Entries, Pairs;
    SizeIsEntries(t);
    forall e, f | e in Entries(t) && f in Entries(t) && e.key == f.key
      ensures e == f
    {
      KeyUnique(t, -1, KEY_LIMIT, e, f);
    }
    forall k
      ensures k in m.Keys <==> exists e :: e in Entries(t) && e.key == k
    {
      HasKeyInMap(t, m, k);
    }
    KeysCount(Entries(t), m.Keys);
  }

  lemma EntryInMap(t: Tree, m: map<nat, int>, e: Entry)
    requires Holds(Pairs(t), m) && e in Entries(t)
    ensures e.key in m && m[e.key] == e.data
  {
    assert (e.key, e.data) in Pairs(t);
  }

  lemma LowerInMap(t: RbTree, m: map<nat, int>, key: nat, r: Node?)
    requires t.Valid() && Holds(Pairs(t.tree), m) && IsLowerBound(t.tree, key, r)
    ensures r == null ==> forall k :: k in m ==> key < k
    ensures r != null ==> r.key in m && r.data == m[r.key] && r.key <= key
    ensures r != null ==> forall k :: k in m && k <= key ==> k <= r.key
  {
    hide Entries, Pairs, Linked, RedBlack, Holds;
    forall k | k in m
      ensures exists e :: e in Entries(t.tree) && e.key == k
    {
      HasKeyInMap(t.tree, m, k);
    }
    if r != null {
      var b :| b in Entries(t.tree) && b.node == r && b.key <= key
               && forall e :: e in Entries(t.tree) && e.key <= key ==> e.key <= b.key;
      EntryFields(t.tree, t.head, null, b);
      EntryInMap(t.tree, m, b);
    }
  }

  lemma UpperInMap(t: RbTree, m: map<nat, int>, key: nat, r: Node?)
    requires t.Valid() && Holds(Pairs(t.tree), m) && IsUpperBound(t.tree, key, r)
    ensures r == null ==> forall k :: k in m ==> k < key
    ensures r != null ==> r.key in m && r.data == m[r.key] && key <= r.key
    ensures r != null ==> forall k :: k in m && key <= k ==> r.key <= k
  {
    hide Entries, Pairs, Linked, RedBlack, Holds;
    forall k | k in m
      ensures exists e :: e in Entries(t.tree) && e.key == k
    {
      HasKeyInMap(t.tree, m, k);
    }
    if r != null {
      var b :| b in Entries(t.tree) && b.node == r && key <= b.key
               && forall e :: e in Entries(t.tree) && key <= e.key ==> b.key <= e.key;
      EntryFields(t.tree, t.head, null, b);
      EntryInMap(t.tree, m, b);
    }
  }

  /** After any run, both searches answer as the map does, within twice the logarithm of its size. */
  method Query(requests: seq<Request>, key: nat) returns (lower: Node?, upper: Node?, ghost steps: nat)
    requires key < KEY_LIMIT && forall r :: r in requests ==> r.key < KEY_LIMIT
    ensures var m := After(map[], requests);
            if lower == null then forall k :: k in m ==> key < k
            else lower.key in m && lower.data == m[lower.key] && lower.key <= key
                 && forall k :: k in m && k <= key ==> k <= lower.key
    ensures var m := After(map[], requests);
            if upper == null then forall k :: k in m ==> k < key
            else upper.key in m && upper.data == m[upper.key] && key <= upper.key
                 && forall k :: k in m && key <= k ==> upper.key <= k
    ensures Pow2((steps + 1) / 2) <= |After(map[], requests)| + 1
  {
    hide Entries, Pairs, Linked, RedBlack, Holds, IsLowerBound, IsUpperBound, Pow2;
    var t := Execute(requests);
    NodesAllocated(t.tree);
    ghost var m := After(map[], requests);
    ghost var lowerSteps, upperSteps;
    lower, lowerSteps := t.GetLowerBound(key, t.head);
    upper, upperSteps := t.GetUpperBound(key, t.head);
    steps := if lowerSteps <= upperSteps then upperSteps else lowerSteps;
    LowerInMap(t, m, key, lower);
    UpperInMap(t, m, key, upper);
    SizeIsMap(t.tree, m);
  }
}
