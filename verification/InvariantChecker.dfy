/** The allocator's run-time checker, power2_allocator_assert: it accepts exactly the states that satisfy the
    invariant.  A failed assertion is the result false. */
module InvariantChecker {
  import opened BitUtils
  import opened Judy
  import opened Decomposition
  import opened FreeSpace
  import opened Accounting
  import opened PowerTwoAllocator
  import opened AllocatorProperties

  // ----- What the three marking passes establish

  ghost predicate EntryFits(list: FreeList, k: nat, x: nat)
    requires x in list
  {
    Pow2(k) / 2 < list[x] <= Pow2(k)
  }

  /** The entries of one list have their list's sizes, overlap neither each other nor what is marked. */
  ghost predicate ListFits(list: FreeList, k: nat, marked: set<nat>) {
    (forall x :: x in list ==> EntryFits(list, k, x)) && Apart(list, list.Keys, marked)
  }

  /** Some of the intervals of a map overlap neither each other nor what is marked. */
  ghost predicate Apart(sizes: map<nat, nat>, some: set<nat>, marked: set<nat>)
    requires some <= sizes.Keys
  {
    && (forall x, i :: x in some && x <= i < x + sizes[x] ==> i !in marked)
    && (forall x, y :: x in some && y in some && x < y ==> x + sizes[x] <= y)
  }

  ghost predicate ListsFit(lists: seq<FreeList>) {
    && (forall k, x :: 0 <= k < |lists| && x in lists[k] ==> EntryFits(lists[k], k, x))
    && (forall k, x, y :: 0 <= k < |lists| && x in lists[k] && y in lists[k] && x < y ==> x + lists[k][x] <= y)
    && (forall j, k, i :: 0 <= j < k < |lists| && HeldBy(lists[j], i) ==> !HeldBy(lists[k], i))
  }

  ghost predicate BlocksApart(inuse: Blocks) {
    forall b, c :: b in inuse && c in inuse && b < c ==> b + inuse[b] <= c
  }

  /** 32-bit indices do not wrap, and no block is empty. */
  ghost predicate Bounded(a: Allocator)
    reads a, a.freeLists
  {
    && (forall k, x :: 0 <= k < a.freeLists.Length && x in a.freeLists[k] ==> x + a.freeLists[k][x] < TWO_32)
    && (forall b :: b in a.inuseList ==> 1 <= a.inuseList[b] && b + a.inuseList[b] < TWO_32)
  }

  ghost predicate GapStored(a: Allocator, s: nat)
    requires a.Shape() && ValidBlocks(a.inuseList, a.totalSize) && s in Starts(a.inuseList)
    reads a, a.freeLists
  {
    StartsInside(a.inuseList, a.totalSize, s);
    Greedy(s, GapEnd(a.inuseList, a.totalSize, s), a.noFreeLists) <= a.View()
  }

  // ----- Marking

  method MarkRange(lo: nat, len: nat, marked: set<nat>) returns (ok: bool, out: set<nat>)
    ensures ok <==> forall i :: lo <= i < lo + len ==> i !in marked
    ensures ok ==> forall i :: i in out <==> i in marked || lo <= i < lo + len
  {
    out := marked;
    for i := lo to lo + len
      invariant forall j :: j in out <==> j in marked || lo <= j < i
      invariant forall j :: lo <= j < i ==> j !in marked
    {
      if i in out {
        return false, out;
      }
      out := out + {i};
    }
    return true, out;
  }

  /** out marks the intervals done so far, which are apart, besides what was marked. */
  ghost predicate MarkedSoFar(sizes: map<nat, nat>, marked: set<nat>, done: set<nat>, out: set<nat>) {
    && done <= sizes.Keys && Apart(sizes, done, marked)
    && forall i :: i in out <==> i in marked || exists x :: x in done && x <= i < x + sizes[x]
  }

  /** done are the keys before the one to look at next. */
  ghost predicate DoneUpTo(sizes: map<nat, nat>, index: Option<nat>, done: set<nat>) {
    && (index.Some? ==> index.value in sizes && index.value !in done)
    && forall x :: x in done <==> x in sizes && (index.Some? ==> x < index.value)
  }

  lemma DoneStart(sizes: map<nat, nat>, marked: set<nat>)
    ensures DoneUpTo(sizes, First(sizes.Keys, 0), {}) && MarkedSoFar(sizes, marked, {}, marked)
  {
    var index := First(sizes.Keys, 0);
    assert index.Some? ==> index.value in sizes.Keys;
  }

  lemma DoneMore(sizes: map<nat, nat>, x: nat, done: set<nat>)
    requires DoneUpTo(sizes, Some(x), done)
    ensures DoneUpTo(sizes, Next(sizes.Keys, x), done + {x}) && done < sizes.Keys
  {
    var index := Next(sizes.Keys, x);
    assert index.Some? ==> index.value in sizes.Keys;
    assert x in sizes.Keys;
  }

  /** One more interval that meets no mark. */
  lemma MarkedMore(sizes: map<nat, nat>, marked: set<nat>, done: set<nat>, out: set<nat>, x: nat, next: set<nat>)
    requires DoneUpTo(sizes, Some(x), done) && MarkedSoFar(sizes, marked, done, out) && sizes[x] > 0
    requires forall i :: x <= i < x + sizes[x] ==> i !in out
    requires forall i :: i in next <==> i in out || x <= i < x + sizes[x]
    ensures MarkedSoFar(sizes, marked, done + {x}, next)
  {
    assert x !in out;
  }

  /** A mark met on the way is a clash. */
  lemma MarkMet(sizes: map<nat, nat>, marked: set<nat>, done: set<nat>, out: set<nat>, x: nat, i: nat)
    requires DoneUpTo(sizes, Some(x), done) && MarkedSoFar(sizes, marked, done, out)
    requires x <= i < x + sizes[x] && i in out
    ensures !Apart(sizes, sizes.Keys, marked)
  {
    if i !in marked {
      var y :| y in done && y <= i < y + sizes[y];
      assert y in sizes.Keys && x in sizes.Keys;
    }
  }

  lemma AllMarked(sizes: map<nat, nat>, marked: set<nat>, done: set<nat>, out: set<nat>)
    requires DoneUpTo(sizes, None, done) && MarkedSoFar(sizes, marked, done, out)
    ensures Apart(sizes, sizes.Keys, marked)
    ensures forall i :: i in out <==> i in marked || HeldBy(sizes, i)
  {
    assert done == sizes.Keys;
  }

  method MarkList(list: FreeList, k: nat, marked: set<nat>) returns (ok: bool, out: set<nat>)
    ensures ok <==> ListFits(list, k, marked)
    ensures ok ==> forall i :: i in out <==> i in marked || HeldBy(list, i)
  {
    hide Pow2, Apart, HeldBy, MarkedSoFar, First, Next;
    out := marked;
    var index := First(list.Keys, 0);
    ghost var done: set<nat> := {};
    DoneStart(list, marked);
    while index.Some?
      invariant DoneUpTo(list, index, done) && MarkedSoFar(list, marked, done, out)
      invariant forall x :: x in done ==> EntryFits(list, k, x)
      decreases list.Keys - done
    {
      var x := index.value;
      if !(list[x] <= Pow2(k)) || !(list[x] > Pow2(k) / 2) {
        assert !EntryFits(list, k, x);
        return false, out;
      }
      var fits, next := MarkRange(x, list[x], out);
      if !fits {
        ghost var i :| x <= i < x + list[x] && i in out;
        MarkMet(list, marked, done, out, x, i);
        return false, out;
      }
      MarkedMore(list, marked, done, out, x, next);
      DoneMore(list, x, done);
      out := next;
      done := done + {x};
      index := Next(list.Keys, x);
    }
    AllMarked(list, marked, done, out);
    return true, out;
  }

  ghost predicate HeldAnywhere(lists: seq<FreeList>, i: nat) {
    exists k :: 0 <= k < |lists| && HeldBy(lists[k], i)
  }

  lemma ListsFitStep(lists: seq<FreeList>, k: nat, marked: set<nat>)
    requires k < |lists| && ListsFit(lists[..k])
    requires forall i :: i in marked <==> HeldAnywhere(lists[..k], i)
    ensures ListFits(lists[k], k, marked) <==> ListsFit(lists[..k + 1])
    ensures forall i :: HeldAnywhere(lists[..k + 1], i) <==> i in marked || HeldBy(lists[k], i)
  {
    hide EntryFits, HeldBy;
    var more := lists[..k + 1];
    forall i
      ensures HeldAnywhere(more, i) <==> i in marked || HeldBy(lists[k], i)
    {
      if j :| 0 <= j < k + 1 && HeldBy(more[j], i) {
        assert j < k ==> HeldBy(lists[..k][j], i);
      }
      if j :| 0 <= j < k && HeldBy(lists[..k][j], i) {
        assert HeldBy(more[j], i);
      }
      assert HeldBy(lists[k], i) ==> HeldBy(more[k], i);
    }
    if ListsFit(more) {
      ListFitsFrom(lists, k, marked);
    }
    if ListFits(lists[k], k, marked) {
      forall j, h, i | 0 <= j < h < k + 1 && HeldBy(more[j], i)
        ensures !HeldBy(more[h], i)
      {
        if h == k {
          assert HeldBy(lists[..k][j], i);
          MarkedNotHeld(lists[k], k, marked, i);
        } else {
          assert HeldBy(lists[..k][j], i);
          assert !HeldBy(lists[..k][h], i);
        }
      }
      forall h, x | 0 <= h < k + 1 && x in more[h]
        ensures EntryFits(more[h], h, x)
      {
        assert h < k ==> x in lists[..k][h];
      }
      forall h, x, y | 0 <= h < k + 1 && x in more[h] && y in more[h] && x < y
        ensures x + more[h][x] <= y
      {
        assert h < k ==> x in lists[..k][h] && y in lists[..k][h];
      }
    }
  }

  lemma MarkedNotHeld(list: FreeList, k: nat, marked: set<nat>, i: nat)
    requires ListFits(list, k, marked) && i in marked
    ensures !HeldBy(list, i)
  {
  }

  lemma ListFitsFrom(lists: seq<FreeList>, k: nat, marked: set<nat>)
    requires k < |lists| && ListsFit(lists[..k + 1])
    requires forall i :: i in marked <==> HeldAnywhere(lists[..k], i)
    ensures ListFits(lists[k], k, marked)
  {
    hide EntryFits;
    var more := lists[..k + 1];
    assert more[k] == lists[k];
    forall x, i | x in lists[k] && x <= i < x + lists[k][x]
      ensures i !in marked
    {
      assert HeldBy(more[k], i);
      forall j | 0 <= j < k
        ensures !HeldBy(lists[..k][j], i)
      {
        assert lists[..k][j] == more[j];
      }
    }
  }

  lemma ListsFitPrefix(lists: seq<FreeList>, k: nat)
    requires k <= |lists| && ListsFit(lists)
    ensures ListsFit(lists[..k])
  {
    hide EntryFits, HeldBy;
  }

  method MarkLists(a: Allocator) returns (ok: bool, out: set<nat>)
    requires a.Shape()
    ensures ok <==> ListsFit(a.freeLists[..])
    ensures ok ==> forall i :: i in out <==> HeldAnywhere(a.freeLists[..], i)
  {
    hide ListFits, ListsFit, HeldBy;
    out := {};
    NoLists(a.freeLists[..0]);
    for k := 0 to a.noFreeLists
      invariant ListsFit(a.freeLists[..k])
      invariant forall i :: i in out <==> HeldAnywhere(a.freeLists[..k], i)
    {
      ghost var lists := a.freeLists[..];
      assert a.freeLists[..k] == lists[..k] && a.freeLists[..k + 1] == lists[..k + 1];
      ListsFitStep(lists, k, out);
      if ListsFit(lists) {
        ListsFitPrefix(lists, k + 1);
      }
      var fits, next := MarkList(a.freeLists[k], k, out);
      if !fits {
        return false, out;
      }
      out := next;
    }
    assert a.freeLists[..a.noFreeLists] == a.freeLists[..];
    return true, out;
  }

  lemma NoLists(lists: seq<FreeList>)
    requires lists == []
    ensures ListsFit(lists)
  {
  }

  lemma ApartBlocks(inuse: Blocks)
    ensures BlocksApart(inuse) <==> Apart(inuse, inuse.Keys, {})
    ensures forall i :: HeldBy(inuse, i) <==> InUse(inuse, i)
  {
  }

  method MarkBlocks(inuse: Blocks) returns (ok: bool, out: set<nat>)
    requires forall b :: b in inuse ==> inuse[b] >= 1
    ensures ok <==> BlocksApart(inuse)
    ensures ok ==> forall i :: i in out <==> InUse(inuse, i)
  {
    hide Apart, HeldBy, InUse, BlocksApart, MarkedSoFar, First, Next;
    out := {};
    var index := First(inuse.Keys, 0);
    ghost var done: set<nat> := {};
    ApartBlocks(inuse);
    DoneStart(inuse, {});
    while index.Some?
      invariant DoneUpTo(inuse, index, done) && MarkedSoFar(inuse, {}, done, out)
      decreases inuse.Keys - done
    {
      var x := index.value;
      var fits, next := MarkRange(x, inuse[x], out);
      if !fits {
        ghost var i :| x <= i < x + inuse[x] && i in out;
        MarkMet(inuse, {}, done, out, x, i);
        return false, out;
      }
      MarkedMore(inuse, {}, done, out, x, next);
      DoneMore(inuse, x, done);
      out := next;
      done := done + {x};
      index := Next(inuse.Keys, x);
    }
    AllMarked(inuse, {}, done, out);
    return true, out;
  }

  /** Every index below total is marked by exactly one of the two. */
  method Partitioned(total: nat, free: set<nat>, used: set<nat>) returns (ok: bool)
    ensures ok <==> forall i: nat :: i < total ==> (i in free <==> i !in used)
  {
    for i := 0 to total
      invariant forall j: nat :: j < i ==> (j in free <==> j !in used)
    {
      if i in free {
        if i in used {
          return false;
        }
      } else {
        if i !in used {
          return false;
        }
      }
    }
    return true;
  }

  // ----- The cut of each gap

  lemma AlignedEnough(cur: nat, rem: nat, lists: nat)
    requires 1 <= lists <= 32 && rem < TWO_32
    ensures Ctz(cur) >= Ctz(Pow2(FreeLog(cur, rem, lists)))
  {
    CtzOfPower(FreeLog(cur, rem, lists));
  }

  lemma {:induction false} CtzOfPower(k: nat)
    ensures Ctz(Pow2(k)) == k
  {
    if k > 0 {
      CtzOfPower(k - 1);
    }
  }

  /** power2_allocator_free_list_assert: the lists hold the cut of a free range; one that wraps past 32 bits never
      passes. */
  method FreeListAssert(a: Allocator, freeIndex: nat, size: nat) returns (ok: bool)
    requires a.Shape() && Bounded(a) && freeIndex < TWO_32 && size < TWO_32
    ensures freeIndex + size < TWO_32 ==> (ok <==> Greedy(freeIndex, freeIndex + size, a.noFreeLists) <= a.View())
    ensures freeIndex + size >= TWO_32 ==> !ok
  {
    hide Pow2, Greedy, Aligned, FreeLog;
    var cur: nat, rem: nat := freeIndex, size;
    ghost var end, lists := freeIndex + size, a.noFreeLists;
    while rem > 0
      invariant cur + rem == end && cur < TWO_32
      invariant end < TWO_32 ==> (Greedy(freeIndex, end, lists) <= a.View() <==> Greedy(cur, end, lists) <= a.View())
    {
      var log := FreeLog(cur, rem, a.noFreeLists);
      FirstChunkAsserts(cur, rem, lists);
      AlignedEnough(cur, rem, lists);
      assert log < 32 && cur % Pow2(log) == 0 && Ctz(cur) >= Ctz(Pow2(log));
      ghost var ch := FirstChunk(cur, rem, lists);
      if end < TWO_32 {
        GreedyStep(cur, end, lists, ch);
      }
      StoredChunk(a.freeLists[..], log, cur);
      if cur !in a.freeLists[log] {
        return false;
      }
      var tmp := a.freeLists[log][cur];
      if rem < Pow2(log) {
        if tmp != rem {
          return false;
        }
        cur, rem := cur + rem, 0;
      } else {
        if tmp != Pow2(log) {
          return false;
        }
        cur, rem := cur + Pow2(log), rem - Pow2(log);
      }
    }
    if end < TWO_32 {
      GreedyEmpty(cur, lists);
    }
    return true;
  }

  lemma ValidGapStored(a: Allocator, s: nat)
    requires a.Valid() && s in Starts(a.inuseList)
    ensures s <= GapEnd(a.inuseList, a.totalSize, s) < TWO_32
    ensures Greedy(s, GapEnd(a.inuseList, a.totalSize, s), a.noFreeLists) <= a.View()
  {
    hide Greedy, Starts, GapEnd, ValidBlocks, ChunksOf;
    var inuse, total, lists := a.inuseList, a.totalSize, a.noFreeLists;
    StartsInside(inuse, total, s);
    forall ch | ch in Greedy(s, GapEnd(inuse, total, s), lists)
      ensures ch in FreeChunks(inuse, total, lists)
    {
      assert IsFreeChunk(inuse, total, lists, s, ch);
    }
  }

  /** The starts up to the end of the block after a gap. */
  lemma NoStartBetween(inuse: Blocks, s: nat, t: nat, b: nat)
    requires BlocksApart(inuse) && First(inuse.Keys, s) == Some(b)
    requires forall c :: c in inuse && c < s ==> c + inuse[c] <= s
    requires t in Starts(inuse) && t < b + inuse[b]
    ensures t <= s
  {
    if t != 0 {
      var c :| c in inuse && t == c + inuse[c];
      assert c in inuse.Keys;
    }
  }

  lemma LastStart(inuse: Blocks, s: nat, t: nat)
    requires First(inuse.Keys, s) == None && t in Starts(inuse)
    requires forall c :: c in inuse && c < s ==> c + inuse[c] <= s
    ensures t <= s
  {
    if t != 0 {
      var c :| c in inuse && t == c + inuse[c];
      assert c in inuse.Keys;
    }
  }

  lemma BlockStart(inuse: Blocks, b: nat)
    requires b in inuse
    ensures b + inuse[b] in Starts(inuse)
  {
  }

  /** Subtraction of unsigned 32-bit words. */
  function Sub32(x: nat, y: nat): (r: nat)
    requires x < TWO_32 && y < TWO_32
    ensures r < TWO_32 && (r == x - y || r == x - y + TWO_32)
  {
    if y <= x then x - y else x - y + TWO_32
  }

  ghost predicate GapsStored(a: Allocator, below: nat)
    requires a.Shape() && ValidBlocks(a.inuseList, a.totalSize)
    reads a, a.freeLists
  {
    forall s :: s in Starts(a.inuseList) && s < below ==> GapStored(a, s)
  }

  /** Every gap before s, which starts one, has its cut stored. */
  ghost predicate Passed(a: Allocator, s: nat)
    requires a.Shape()
    reads a, a.freeLists
  {
    && s in Starts(a.inuseList) && s < TWO_32
    && (forall c :: c in a.inuseList && c < s ==> c + a.inuseList[c] <= s)
    && (ValidBlocks(a.inuseList, a.totalSize) ==> GapsStored(a, s))
  }

  lemma FirstGap(a: Allocator)
    requires a.Shape()
    ensures Passed(a, 0)
  {
  }

  lemma NextGap(a: Allocator, s: nat, b: nat)
    requires a.Shape() && Bounded(a) && BlocksApart(a.inuseList) && Passed(a, s)
    requires First(a.inuseList.Keys, s) == Some(b) && Greedy(s, b, a.noFreeLists) <= a.View()
    ensures Passed(a, b + a.inuseList[b])
    ensures Next(a.inuseList.Keys, b) == First(a.inuseList.Keys, b + a.inuseList[b])
  {
    hide Greedy, Starts, ChunksOf, GapsStored, ValidBlocks, First, Next;
    var inuse := a.inuseList;
    BlockFacts(a, s);
    BlockStart(inuse, b);
    SameFirst(inuse, b, b + inuse[b]);
    forall c | c in inuse && c < b + inuse[b]
      ensures c + inuse[c] <= b + inuse[b]
    {
      assert c == b || c < b;
    }
    if ValidBlocks(inuse, a.totalSize) {
      OneMoreGap(a, s, b);
    }
  }

  lemma OneMoreGap(a: Allocator, s: nat, b: nat)
    requires a.Shape() && BlocksApart(a.inuseList) && ValidBlocks(a.inuseList, a.totalSize)
    requires Passed(a, s) && GapsStored(a, s)
    requires First(a.inuseList.Keys, s) == Some(b) && b in a.inuseList && Greedy(s, b, a.noFreeLists) <= a.View()
    ensures GapsStored(a, b + a.inuseList[b])
  {
    hide Greedy, Starts, ChunksOf, ValidBlocks, First;
    var inuse := a.inuseList;
    forall t | t in Starts(inuse) && t < b + inuse[b]
      ensures GapStored(a, t)
    {
      NoStartBetween(inuse, s, t, b);
    }
  }

  lemma FinalGap(a: Allocator, s: nat)
    requires a.Shape() && Bounded(a) && BlocksApart(a.inuseList) && First(a.inuseList.Keys, s) == None
    requires Passed(a, s) && s <= a.totalSize && Greedy(s, a.totalSize, a.noFreeLists) <= a.View()
    ensures ValidBlocks(a.inuseList, a.totalSize) && GapsStored(a, TWO_32)
  {
    hide Greedy, Starts, ChunksOf;
    var inuse := a.inuseList;
    assert forall b :: b in inuse ==> b in inuse.Keys && b < s;
    forall t | t in Starts(inuse)
      ensures t <= s
    {
      LastStart(inuse, s, t);
    }
  }

  lemma SameFirst(inuse: Blocks, b: nat, s: nat)
    requires BlocksApart(inuse) && b in inuse && s == b + inuse[b] && inuse[b] >= 1
    ensures Next(inuse.Keys, b) == First(inuse.Keys, s)
  {
    var n := Next(inuse.Keys, b);
    if n.Some? {
      assert n.value in inuse && b < n.value;
    }
  }

  /** What the checker sees at a start in a valid state. */
  lemma ValidGap(a: Allocator, s: nat)
    requires a.Valid() && Passed(a, s)
    ensures var index := First(a.inuseList.Keys, s);
            var end := if index.None? then a.totalSize else index.value;
            s <= end < TWO_32 && Greedy(s, end, a.noFreeLists) <= a.View()
  {
    hide Greedy, Starts, ChunksOf, FreeChunks;
    ValidGapStored(a, s);
  }

  lemma BlockFacts(a: Allocator, s: nat)
    requires a.Shape() && Bounded(a) && Passed(a, s)
    ensures s < TWO_32
    ensures var index := First(a.inuseList.Keys, s);
            index.Some? ==> index.value in a.inuseList && s <= index.value
                            && index.value < index.value + a.inuseList[index.value] < TWO_32
  {
    hide Starts, GapsStored;
    var index := First(a.inuseList.Keys, s);
    assert index.Some? ==> index.value in a.inuseList;
  }

  method GapsAssert(a: Allocator) returns (ok: bool)
    requires a.Shape() && Bounded(a) && BlocksApart(a.inuseList)
    ensures a.Valid() ==> ok
    ensures ok ==> ValidBlocks(a.inuseList, a.totalSize) && GapsStored(a, TWO_32)
  {
    hide Greedy, Starts, ChunksOf, FreeChunks, Aligned, Pow2, GapsStored, ValidBlocks, Passed, BlocksApart, Bounded,
         First, Next;
    var freeIndex: nat := 0;
    var index := First(a.inuseList.Keys, 0);
    FirstGap(a);
    BlockFacts(a, freeIndex);
    if a.Valid() {
      ValidGap(a, freeIndex);
    }
    while index.Some?
      invariant Passed(a, freeIndex) && index == First(a.inuseList.Keys, freeIndex)
      decreases TWO_32 - freeIndex
    {
      var b := index.value;
      BlockFacts(a, freeIndex);
      if a.Valid() {
        ValidGap(a, freeIndex);
      }
      var stored := FreeListAssert(a, freeIndex, b - freeIndex);
      if !stored {
        return false;
      }
      NextGap(a, freeIndex, b);
      freeIndex := b + a.inuseList[b];
      index := Next(a.inuseList.Keys, b);
    }
    BlockFacts(a, freeIndex);
    ok := LastGapAssert(a, freeIndex);
  }

  /** The gap behind the last block; one that starts past the total would wrap. */
  method LastGapAssert(a: Allocator, freeIndex: nat) returns (ok: bool)
    requires a.Shape() && Bounded(a) && BlocksApart(a.inuseList) && freeIndex < TWO_32
    requires Passed(a, freeIndex) && First(a.inuseList.Keys, freeIndex) == None
    ensures a.Valid() ==> ok
    ensures ok ==> ValidBlocks(a.inuseList, a.totalSize) && GapsStored(a, TWO_32)
  {
    hide Greedy, Starts, ChunksOf, FreeChunks, Aligned, Pow2, GapsStored, ValidBlocks, Passed, BlocksApart, Bounded,
         First, Next;
    if a.Valid() {
      ValidGap(a, freeIndex);
    }
    ok := true;
    if freeIndex != a.totalSize {
      ok := FreeListAssert(a, freeIndex, Sub32(a.totalSize, freeIndex));
    } else {
      GreedyEmpty(freeIndex, a.noFreeLists);
    }
    if ok {
      FinalGap(a, freeIndex);
    }
  }

  // ----- The whole checker

  lemma ValidListsFit(a: Allocator)
    requires a.Valid()
    ensures ListsFit(a.freeLists[..])
  {
    hide FreeChunks, ValidBlocks, ChunksOf;
    var lists := a.freeLists[..];
    forall k, x | 0 <= k < |lists| && x in lists[k]
      ensures EntryFits(lists[k], k, x)
    {
      var ch := Chunk(k, x, lists[k][x]);
      StoredChunk(lists, k, x);
      FreeChunkIsFree(a.inuseList, a.totalSize, a.noFreeLists, ch);
      HalfOfPow2(k);
    }
    forall k, x, y | 0 <= k < |lists| && x in lists[k] && y in lists[k] && x < y
      ensures x + lists[k][x] <= y
    {
      EntryInside(a, k, y);
      EntriesDisjoint(a, k, x, k, y);
    }
    forall j, k, i | 0 <= j < k < |lists| && HeldBy(lists[j], i)
      ensures !HeldBy(lists[k], i)
    {
      ListsShareNothing(a, j, k, i);
    }
  }

  lemma HalfOfPow2(k: nat)
    ensures Pow2(k) / 2 == if k == 0 then 0 else Pow2(k - 1)
  {
  }

  lemma ValidPartitions(a: Allocator, i: nat)
    requires a.Valid()
    ensures i < a.totalSize ==> (HeldAnywhere(a.freeLists[..], i) <==> !InUse(a.inuseList, i))
    ensures a.totalSize <= i ==> !HeldAnywhere(a.freeLists[..], i) && !InUse(a.inuseList, i)
  {
    hide FreeChunks, ChunksOf, HeldBy;
    EntryAt(a, i);
  }

  /** The checks together leave no room: every stored entry is one of the cut. */
  lemma ChecksSuffice(a: Allocator)
    requires a.Shape() && ListsFit(a.freeLists[..]) && ValidBlocks(a.inuseList, a.totalSize)
    requires forall i: nat :: i < a.totalSize ==> (HeldAnywhere(a.freeLists[..], i) <==> !InUse(a.inuseList, i))
    requires forall i: nat :: a.totalSize <= i ==> !HeldAnywhere(a.freeLists[..], i)
    requires GapsStored(a, TWO_32)
    ensures a.Valid()
  {
    hide ListsFit, Greedy, Starts, GapEnd, ValidBlocks, HeldAnywhere, InUse, GapsStored, Aligned, Pow2;
    var inuse, total, lists := a.inuseList, a.totalSize, a.noFreeLists;
    forall ch | ch in FreeChunks(inuse, total, lists)
      ensures ch in a.View()
    {
      CutIsStored(a, ch);
    }
    forall ch | ch in a.View()
      ensures ch in FreeChunks(inuse, total, lists)
    {
      EntryHolds(a.freeLists[..], ch);
      assert Free(inuse, total, ch.start);
      FreeChunksCover(inuse, total, lists, ch.start);
      var cut :| cut in FreeChunks(inuse, total, lists) && cut.Covers(ch.start);
      assert cut in a.View();
      SameEntry(a.freeLists[..], ch, cut);
    }
  }

  lemma CutIsStored(a: Allocator, ch: Chunk)
    requires a.Shape() && ValidBlocks(a.inuseList, a.totalSize) && GapsStored(a, TWO_32)
    requires ch in FreeChunks(a.inuseList, a.totalSize, a.noFreeLists)
    ensures ch in a.View()
  {
    hide Greedy, Starts, GapEnd, ValidBlocks, ChunksOf;
    var s := FreeChunkFacts(a.inuseList, a.totalSize, a.noFreeLists, ch);
    assert GapStored(a, s);
  }

  lemma EntryHolds(lists: seq<FreeList>, ch: Chunk)
    requires ListsFit(lists) && ch in ChunksOf(lists)
    ensures ch.len > 0 && HeldAnywhere(lists, ch.start)
  {
    assert EntryFits(lists[ch.log], ch.log, ch.start);
    assert HeldBy(lists[ch.log], ch.start);
  }

  lemma SameEntry(lists: seq<FreeList>, a: Chunk, b: Chunk)
    requires ListsFit(lists) && a in ChunksOf(lists) && b in ChunksOf(lists) && b.Covers(a.start)
    ensures a == b
  {
    EntryHolds(lists, a);
    assert HeldBy(lists[a.log], a.start) && HeldBy(lists[b.log], a.start);
  }

  /** power2_allocator_assert passes exactly in the valid states. */
  method Check(a: Allocator) returns (ok: bool)
    requires a.Shape() && Bounded(a)
    ensures ok <==> a.Valid()
  {
    hide ListsFit, Starts, ValidBlocks, HeldAnywhere, InUse, GapsStored, ChunksOf, FreeChunks, Aligned, Pow2;
    if a.Valid() {
      ValidListsFit(a);
      ValidApart(a.inuseList, a.totalSize);
      forall i: nat {
        ValidPartitions(a, i);
      }
    }
    var listsOk, free := MarkLists(a);
    if !listsOk {
      return false;
    }
    var blocksOk, used := MarkBlocks(a.inuseList);
    if !blocksOk {
      return false;
    }
    var partitioned := Partitioned(a.totalSize, free, used);
    if !partitioned {
      return false;
    }
    var gapsOk := GapsAssert(a);
    if !gapsOk {
      return false;
    }
    if First(free, a.totalSize).Some? {
      return false;
    }
    if First(used, a.totalSize).Some? {
      return false;
    }
    ChecksSuffice(a);
    return true;
  }

  lemma ValidApart(inuse: Blocks, total: nat)
    requires ValidBlocks(inuse, total)
    ensures BlocksApart(inuse)
  {
  }

  lemma ValidBounded(a: Allocator)
    requires a.Valid()
    ensures Bounded(a)
  {
    hide FreeChunks, ChunksOf, ValidBlocks;
    forall k, x | 0 <= k < a.freeLists.Length && x in a.freeLists[k]
      ensures x + a.freeLists[k][x] < TWO_32
    {
      EntryInside(a, k, x);
    }
    BlocksBounded(a.inuseList, a.totalSize);
  }

  lemma BlocksBounded(inuse: Blocks, total: nat)
    requires ValidBlocks(inuse, total)
    ensures forall b :: b in inuse ==> 1 <= inuse[b] && b + inuse[b] <= total
  {
  }

  /** Whatever requests lead to, the checker passes. */
  method CheckAfterRun(a: Allocator, requests: seq<Request>) returns (ok: bool, ghost states: seq<Blocks>)
    requires a.Valid() && forall r :: r in requests ==> Callable(r)
    modifies a.freeLists, a`inuseList
    ensures ok && a.Valid()
    ensures Trace(AllocatorProperties.Shape.Shape(a.totalSize, a.maxSize, a.noFreeLists), requests, states)
    ensures states[0] == old(a.inuseList) && states[|requests|] == a.inuseList
  {
    hide FreeChunks, ChunksOf, ValidBlocks, Aligned, Pow2, Bounded, Effect;
    states := Execute(a, requests);
    ValidBounded(a);
    ok := Check(a);
  }
}
