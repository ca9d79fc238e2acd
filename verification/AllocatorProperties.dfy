/** What the allocator guarantees in every reachable state and over whole runs.

    Every operation keeps Allocator.Valid(); the theorems here say what that invariant means for
    the lists themselves, and compose operations. */
module AllocatorProperties {
  import opened BitUtils
  import opened Decomposition
  import opened FreeSpace
  import opened Runs
  import opened Accounting
  import opened PowerTwoAllocator

  // ----- States

  /** An entry of a free list is a maximal aligned free block, and every such block is an entry. */
  lemma EntryIffMaximal(a: Allocator, k: nat, index: nat, len: nat)
    requires a.Valid() && k < a.noFreeLists
    ensures index in a.freeLists[k] && a.freeLists[k][index] == len
       <==> MaximalFree(Chunk(k, index, len), a.inuseList, a.totalSize, a.noFreeLists)
  {
    hide FreeChunks, MaximalFree, ValidBlocks;
    FreeChunksAreMaximal(a.inuseList, a.totalSize, a.noFreeLists, Chunk(k, index, len));
    assert Chunk(k, index, len) in ChunksOf(a.freeLists[..]) <==>
           index in a.freeLists[k] && a.freeLists[k][index] == len;
  }

  /** The lists depend on the blocks in use only, not on the operations that led there. */
  lemma HistoryIndependence(a: Allocator, b: Allocator)
    requires a.Valid() && b.Valid()
    requires a.totalSize == b.totalSize && a.noFreeLists == b.noFreeLists && a.inuseList == b.inuseList
    ensures a.freeLists[..] == b.freeLists[..]
  {
    hide FreeChunks, ValidBlocks, ChunksOf;
    ChunksDetermine(a.freeLists[..], b.freeLists[..]);
  }

  lemma EntriesDisjoint(a: Allocator, j: nat, x: nat, k: nat, y: nat)
    requires a.Valid() && j < a.noFreeLists && k < a.noFreeLists
    requires x in a.freeLists[j] && y in a.freeLists[k] && (j != k || x != y)
    ensures x + a.freeLists[j][x] <= a.totalSize
    ensures x + a.freeLists[j][x] <= y || y + a.freeLists[k][y] <= x
  {
    hide FreeChunks, ValidBlocks;
    var ch, other := Chunk(j, x, a.freeLists[j][x]), Chunk(k, y, a.freeLists[k][y]);
    assert ch in a.View() && other in a.View();
    FreeChunkIsFree(a.inuseList, a.totalSize, a.noFreeLists, ch);
    FreeChunksDisjoint(a.inuseList, a.totalSize, a.noFreeLists, ch);
  }

  lemma EntryAt(a: Allocator, i: nat)
    requires a.Valid()
    ensures Free(a.inuseList, a.totalSize, i)
       <==> exists k :: 0 <= k < a.noFreeLists && HeldBy(a.freeLists[k], i)
  {
    hide FreeChunks, ValidBlocks, Free;
    FreeChunksCover(a.inuseList, a.totalSize, a.noFreeLists, i);
    if Free(a.inuseList, a.totalSize, i) {
      var ch :| ch in a.View() && ch.Covers(i);
      assert HeldBy(a.freeLists[ch.log], i);
    }
    if k :| 0 <= k < a.noFreeLists && HeldBy(a.freeLists[k], i) {
      var x :| x in a.freeLists[k] && x <= i < x + a.freeLists[k][x];
      assert Chunk(k, x, a.freeLists[k][x]) in a.View();
    }
  }

  /** Every index is in use or held by exactly one entry, so usage and the lists' sizes add up. */
  lemma Conservation(a: Allocator)
    requires a.Valid()
    ensures |UsedBelow(a.inuseList, a.totalSize)| + SumLists(a.freeLists[..]) == a.totalSize
  {
    hide FreeChunks, ValidBlocks, ChunksOf, HeldBy, Free;
    var lists, total := a.freeLists[..], a.totalSize;
    UsedAndFree(a.inuseList, total);
    ListsAreApart(a);
    SumListsIsHeld(lists, total);
    forall i: nat | i < total
      ensures i in HeldByAll(lists, total) <==> Free(a.inuseList, total, i)
    {
      EntryAt(a, i);
      HeldSomewhere(lists, total, i);
    }
    assert HeldByAll(lists, total) == FreeIndices(a.inuseList, total);
  }

  lemma HeldSomewhere(lists: seq<FreeList>, total: nat, i: nat)
    requires i < total
    ensures i in HeldByAll(lists, total) <==> exists k :: 0 <= k < |lists| && HeldBy(lists[k], i)
  {
    hide HeldBy;
    if i in HeldByAll(lists, total) {
      var k :| 0 <= k < |lists| && i in Held(lists[k], total);
    }
    if k :| 0 <= k < |lists| && HeldBy(lists[k], i) {
      assert i in Held(lists[k], total);
    }
  }

  lemma ListsAreApart(a: Allocator)
    requires a.Valid()
    ensures ListsApart(a.freeLists[..], a.totalSize)
  {
    hide FreeChunks, ValidBlocks, ChunksOf;
    var lists, total := a.freeLists[..], a.totalSize;
    forall k | 0 <= k < |lists|
      ensures EntriesApart(lists[k], total)
    {
      forall x | x in lists[k]
        ensures x + lists[k][x] <= total
      {
        EntryInside(a, k, x);
      }
      forall x, y | x in lists[k] && y in lists[k] && x < y
        ensures x + lists[k][x] <= y
      {
        EntryInside(a, k, y);
        EntriesDisjoint(a, k, x, k, y);
      }
    }
    forall j, k, i | 0 <= j < k < |lists| && i in Held(lists[j], total)
      ensures i !in Held(lists[k], total)
    {
      ListsShareNothing(a, j, k, i);
    }
  }

  lemma EntryInside(a: Allocator, k: nat, x: nat)
    requires a.Valid() && k < a.noFreeLists && x in a.freeLists[k]
    ensures x + a.freeLists[k][x] <= a.totalSize && a.freeLists[k][x] > 0
  {
    hide FreeChunks, ValidBlocks;
    var ch := Chunk(k, x, a.freeLists[k][x]);
    assert ch in a.View();
    FreeChunkIsFree(a.inuseList, a.totalSize, a.noFreeLists, ch);
  }

  lemma ListsShareNothing(a: Allocator, j: nat, k: nat, i: nat)
    requires a.Valid() && j < k < a.noFreeLists && HeldBy(a.freeLists[j], i)
    ensures !HeldBy(a.freeLists[k], i)
  {
    hide FreeChunks, ValidBlocks, ChunksOf;
    var x :| x in a.freeLists[j] && x <= i < x + a.freeLists[j][x];
    forall y | y in a.freeLists[k]
      ensures !(y <= i < y + a.freeLists[k][y])
    {
      EntriesDisjoint(a, j, x, k, y);
    }
  }

  // ----- Runs of operations

  datatype Request =
    | DoAlloc(size: nat)
    | DoRelease(index: nat)
    | DoReserve(index: nat, size: nat)
    | DoAllocMultiple(size: nat, count: nat)
    | DoReleaseMultiple(index: nat, count: nat)

  /** The arguments the operations are defined for. */
  predicate Callable(r: Request) {
    match r
    case DoAlloc(size) => 1 <= size < TWO_32
    case DoRelease(_) => true
    case DoReserve(index, size) => index < TWO_32 && 1 <= size && index + size < TWO_32
    case DoAllocMultiple(size, count) => 1 <= size <= INT_LIMIT && count < TWO_32
    case DoReleaseMultiple(_, _) => true
  }

  /** The shape of an allocator, which no operation changes. */
  datatype Shape = Shape(total: nat, max: nat, lists: nat) {
    ghost predicate Fits(inuse: Blocks) {
      1 <= lists <= 32 && total < TWO_32 && ValidBlocks(inuse, total)
    }
  }

  /** One block more: the last fit of the first fitting chunk, aligned and wholly free before; or nothing, when no
      suitably aligned run is free. */
  ghost predicate OneMore(s: Shape, before: Blocks, size: nat, after: Blocks)
    requires s.Fits(before) && size < TWO_32
  {
    if size <= s.max && HasAlignedRun(before, s.total, size) then
      exists r: nat :: Placed(s, before, size, r) && after == before[r := size]
    else after == before
  }

  ghost predicate Placed(s: Shape, before: Blocks, size: nat, r: nat)
    requires s.Fits(before) && size < TWO_32
  {
    && Aligned(r, Log2Ceil(size)) && FreeRange(before, s.total, r, r + size)
    && exists ch :: BestFit(FreeChunks(before, s.total, s.lists), Log2Ceil(size), size, ch)
                    && LastFit(ch, Log2Ceil(size), size, r)
  }

  /** One run more: at the lowest place where it fits, if there is one. */
  ghost predicate OneRunMore(s: Shape, before: Blocks, size: nat, count: nat, after: Blocks)
    requires size < TWO_32
  {
    if Log2Ceil(size) == s.lists - 1 && HasRun(s, before, size, count) then
      exists r: nat :: IsLowestRun(s, before, size, count, r) && after == WithRun(before, r, s.max, size, count)
    else after == before
  }

  ghost predicate HasRun(s: Shape, before: Blocks, size: nat, count: nat) {
    exists a: nat :: RunAt(before, s.total, s.max, size, count, a)
  }

  ghost predicate IsLowestRun(s: Shape, before: Blocks, size: nat, count: nat, r: nat) {
    && RunAt(before, s.total, s.max, size, count, r)
    && forall a: nat :: RunAt(before, s.total, s.max, size, count, a) ==> r <= a
  }

  ghost predicate IsRun(s: Shape, inuse: Blocks, index: nat, count: nat) {
    s.lists >= 1 && Aligned(index, s.lists - 1) && index in inuse && RunInUse(inuse, index, s.max, inuse[index], count)
  }

  /** What a request does to the blocks in use. */
  ghost predicate Effect(s: Shape, r: Request, before: Blocks, after: Blocks)
    requires Callable(r) && s.Fits(before)
  {
    match r
    case DoAlloc(size) => OneMore(s, before, size, after)
    case DoRelease(index) => after == before - {index}
    case DoReserve(index, size) =>
      after == if FreeRange(before, s.total, index, index + size) then before[index := size] else before
    case DoAllocMultiple(size, count) =>
      if count == 1 then OneMore(s, before, size, after)
      else if count == 0 then after == before
      else OneRunMore(s, before, size, count, after)
    case DoReleaseMultiple(index, count) =>
      if count == 1 then after == before - {index}
      else
        after == if count > 1 && IsRun(s, before, index, count) && before[index] < TWO_32
                    && Log2Ceil(before[index]) == s.lists - 1
                 then WithoutRun(before, index, s.max, count) else before
  }

  /** Performs one request; a run is given back only when it is one. */
  method Perform(a: Allocator, r: Request)
    requires a.Valid() && Callable(r)
    modifies a.freeLists, a`inuseList
    ensures a.Valid()
    ensures Effect(Shape(a.totalSize, a.maxSize, a.noFreeLists), r, old(a.inuseList), a.inuseList)
    ensures r.DoRelease? || (r.DoReleaseMultiple? && r.count == 1) ==> a.inuseList == old(a.inuseList) - {r.index}
    ensures r.DoReserve? ==>
              a.inuseList == if FreeRange(old(a.inuseList), a.totalSize, r.index, r.index + r.size)
                             then old(a.inuseList)[r.index := r.size] else old(a.inuseList)
    ensures r.DoAlloc? || (r.DoAllocMultiple? && r.count == 1) ==>
              if r.size <= a.maxSize && HasAlignedRun(old(a.inuseList), a.totalSize, r.size) then
                exists at: nat, ch ::
                  && BestFit(old(a.View()), Log2Ceil(r.size), r.size, ch) && LastFit(ch, Log2Ceil(r.size), r.size, at)
                  && FreeRange(old(a.inuseList), a.totalSize, at, at + r.size)
                  && a.inuseList == old(a.inuseList)[at := r.size]
              else a.inuseList == old(a.inuseList)
    ensures r.DoAllocMultiple? && r.count > 1 && Log2Ceil(r.size) == a.noFreeLists - 1 ==>
              if exists at: nat :: RunAt(old(a.inuseList), a.totalSize, a.maxSize, r.size, r.count, at) then
                exists at: nat ::
                  && RunAt(old(a.inuseList), a.totalSize, a.maxSize, r.size, r.count, at)
                  && (forall b: nat :: RunAt(old(a.inuseList), a.totalSize, a.maxSize, r.size, r.count, b) ==> at <= b)
                  && a.inuseList == WithRun(old(a.inuseList), at, a.maxSize, r.size, r.count)
              else a.inuseList == old(a.inuseList)
    ensures r.DoAllocMultiple? && (r.count == 0 || (r.count > 1 && Log2Ceil(r.size) != a.noFreeLists - 1)) ==>
              a.inuseList == old(a.inuseList)
    ensures r.DoReleaseMultiple? && r.count != 1 ==>
              a.inuseList ==
                if r.count > 1 && old(a.IsAlignedRun(r.index, r.count))
                   && old(a.inuseList)[r.index] < TWO_32 && Log2Ceil(old(a.inuseList)[r.index]) == a.noFreeLists - 1
                then WithoutRun(old(a.inuseList), r.index, a.maxSize, r.count) else old(a.inuseList)
  {
    hide ChunksOf, FreeChunks, ValidBlocks, Aligned, Pow2, FreeRange, Log2Ceil, BestFit, LastFit, RunAt, WithRun,
         WithoutRun, RunInUse;
    var rc := 0;
    match r {
      case DoAlloc(size) =>
        ghost var s, before := Shape(a.totalSize, a.maxSize, a.noFreeLists), a.inuseList;
        rc := a.Alloc(size);
        if rc != -1 {
          ghost var at: nat := rc;
          assert Placed(s, before, size, at);
        }
      case DoRelease(index) => rc := a.Release(index);
      case DoReserve(index, size) => rc := a.Reserve(index, size);
      case DoAllocMultiple(size, count) =>
        ghost var s, before := Shape(a.totalSize, a.maxSize, a.noFreeLists), a.inuseList;
        rc := a.AllocMultiple(size, count);
        if rc != -1 {
          ghost var at: nat := rc;
          if count == 1 {
            assert Placed(s, before, size, at);
          } else {
            assert IsLowestRun(s, before, size, count, at);
          }
        }
      case DoReleaseMultiple(index, count) =>
        BlockSizes(a.inuseList, a.totalSize);
        WithoutRunStep(a.inuseList, index, a.maxSize, 0);
        if count <= 1 || a.IsAlignedRun(index, count) {
          rc := a.ReleaseMultiple(index, count);
        }
    }
  }

  lemma BlockSizes(inuse: Blocks, total: nat)
    requires ValidBlocks(inuse, total) && total < TWO_32
    ensures forall b :: b in inuse ==> inuse[b] < TWO_32
  {
  }

  /** The states that requests can lead through. */
  ghost predicate Trace(s: Shape, requests: seq<Request>, states: seq<Blocks>) {
    && |states| == |requests| + 1
    && forall i :: 0 <= i < |requests| ==>
         Callable(requests[i]) && s.Fits(states[i]) && Effect(s, requests[i], states[i], states[i + 1])
  }

  /** Performs the requests in order. */
  method Execute(a: Allocator, requests: seq<Request>) returns (ghost states: seq<Blocks>)
    requires a.Valid() && forall r :: r in requests ==> Callable(r)
    modifies a.freeLists, a`inuseList
    ensures a.Valid()
    ensures Trace(Shape(a.totalSize, a.maxSize, a.noFreeLists), requests, states)
    ensures states[0] == old(a.inuseList) && states[|requests|] == a.inuseList
  {
    hide ChunksOf, FreeChunks, ValidBlocks, Aligned, Pow2, Effect;
    states := [a.inuseList];
    ghost var s := Shape(a.totalSize, a.maxSize, a.noFreeLists);
    var n := 0;
    while n < |requests|
      invariant 0 <= n <= |requests| && a.Valid()
      invariant Trace(s, requests[..n], states)
      invariant states[0] == old(a.inuseList) && states[n] == a.inuseList
    {
      assert Callable(requests[n]) && s.Fits(a.inuseList);
      ghost var was := states;
      Perform(a, requests[n]);
      states := states + [a.inuseList];
      TraceGrows(s, requests, n, was, a.inuseList);
      n := n + 1;
    }
    assert requests[..n] == requests;
  }

  lemma TraceGrows(s: Shape, requests: seq<Request>, n: nat, states: seq<Blocks>, next: Blocks)
    requires n < |requests| && Trace(s, requests[..n], states)
    requires Callable(requests[n]) && s.Fits(states[n]) && Effect(s, requests[n], states[n], next)
    ensures Trace(s, requests[..n + 1], states + [next])
  {
    hide Effect, ValidBlocks;
    var more := states + [next];
    forall i | 0 <= i < n + 1
      ensures Callable(requests[i]) && s.Fits(more[i]) && Effect(s, requests[i], more[i], more[i + 1])
    {
      assert i < n ==> requests[..n][i] == requests[i] && more[i + 1] == states[i + 1];
    }
  }

  /** What a request does is determined by the blocks in use, and thus so is a whole run. */
  lemma EffectDetermined(s: Shape, r: Request, before: Blocks, x: Blocks, y: Blocks)
    requires Callable(r) && s.Fits(before) && Effect(s, r, before, x) && Effect(s, r, before, y)
    ensures x == y
  {
    hide FreeChunks, ValidBlocks, Aligned, FreeRange, Log2Ceil, BestFit, LastFit, RunAt, WithRun, WithoutRun,
         RunInUse, HasAlignedRun;
    if r.DoAlloc? || (r.DoAllocMultiple? && r.count == 1) {
      if x != before && y != before {
        var i: nat :| Placed(s, before, r.size, i) && x == before[i := r.size];
        var j: nat :| Placed(s, before, r.size, j) && y == before[j := r.size];
        PlacedOnce(s, before, r.size, i, j);
      } else if x != y {
        var i: nat :| Placed(s, before, r.size, i);
        PlacedIsNew(s, before, r.size);
      }
    }
  }

  lemma PlacedIsNew(s: Shape, before: Blocks, size: nat)
    requires s.Fits(before) && 1 <= size < TWO_32
    ensures forall i: nat :: Placed(s, before, size, i) ==> i !in before
  {
    hide FreeChunks, ValidBlocks, Aligned, FreeRange, Log2Ceil, BestFit, LastFit;
    forall i: nat | Placed(s, before, size, i)
      ensures i !in before
    {
      FreeIsNotBlock(before, s.total, i, size);
    }
  }

  lemma PlacedOnce(s: Shape, before: Blocks, size: nat, i: nat, j: nat)
    requires s.Fits(before) && size < TWO_32 && Placed(s, before, size, i) && Placed(s, before, size, j)
    ensures i == j
  {
    hide FreeChunks, ValidBlocks, Aligned, FreeRange, Log2Ceil;
    var chunks := FreeChunks(before, s.total, s.lists);
    var a :| BestFit(chunks, Log2Ceil(size), size, a) && LastFit(a, Log2Ceil(size), size, i);
    var b :| BestFit(chunks, Log2Ceil(size), size, b) && LastFit(b, Log2Ceil(size), size, j);
    FreeChunkIsFree(before, s.total, s.lists, a);
    FreeChunkIsFree(before, s.total, s.lists, b);
    FreeChunksDisjoint(before, s.total, s.lists, a);
  }

  lemma {:induction false} RunDetermined(s: Shape, requests: seq<Request>, states: seq<Blocks>,
          others: seq<Blocks>, n: nat)
    requires Trace(s, requests, states) && Trace(s, requests, others) && states[0] == others[0]
    requires n <= |requests|
    ensures states[n] == others[n]
  {
    hide Effect, ValidBlocks;
    if n > 0 {
      RunDetermined(s, requests, states, others, n - 1);
      EffectDetermined(s, requests[n - 1], states[n - 1], states[n], others[n]);
    }
  }

  /** Two runs from creation that end with the same blocks in use end with the same lists. */
  method RunsConverge(size: nat, count: nat, run1: seq<Request>, run2: seq<Request>)
    returns (a: Allocator?, b: Allocator?, ghost states1: seq<Blocks>, ghost states2: seq<Blocks>)
    requires size < TWO_32 && (IsUint32Power2(size) ==> size * count < INT_LIMIT)
    requires forall r :: r in run1 + run2 ==> Callable(r)
    ensures a == null || b == null <==> forall k: nat :: size != Pow2(k)
    ensures a != null && b != null ==>
              && RunFromEmpty(a, size, count, run1, states1) && RunFromEmpty(b, size, count, run2, states2)
              && (a.inuseList == b.inuseList ==> a.freeLists[..] == b.freeLists[..])
  {
    hide ChunksOf, FreeChunks, ValidBlocks, Aligned, Effect;
    a := Allocator.Create(size, count);
    b := Allocator.Create(size, count);
    states1, states2 := [], [];
    if a != null && b != null {
      assert forall r :: r in run1 ==> r in run1 + run2;
      assert forall r :: r in run2 ==> r in run1 + run2;
      SamePower(a.noFreeLists - 1, b.noFreeLists - 1);
      states1 := Execute(a, run1);
      states2 := Execute(b, run2);
      if a.inuseList == b.inuseList {
        HistoryIndependence(a, b);
      }
    }
  }

  /** a is where the requests lead from a new allocator. */
  ghost predicate RunFromEmpty(a: Allocator, size: nat, count: nat, requests: seq<Request>, states: seq<Blocks>)
    reads a, a.freeLists
  {
    && a.Valid() && a.maxSize == size && a.totalSize == size * count
    && Trace(Shape(a.totalSize, a.maxSize, a.noFreeLists), requests, states)
    && states[0] == map[] && states[|requests|] == a.inuseList
  }

  lemma SamePower(j: nat, k: nat)
    requires Pow2(j) == Pow2(k)
    ensures j == k
  {
    if j < k {
      Pow2Monotone(j, k);
    } else if k < j {
      Pow2Monotone(k, j);
    }
  }

  // ----- Round trips

  lemma InsertDelete(inuse: Blocks, index: nat, size: nat)
    requires index !in inuse
    ensures inuse[index := size] - {index} == inuse
  {
  }

  /** Releasing what was just allocated restores every free list exactly. */
  method AllocThenRelease(a: Allocator, size: nat) returns (index: int)
    requires a.Valid() && 1 <= size < TWO_32
    modifies a.freeLists, a`inuseList
    ensures index == -1 <==> size > a.maxSize || !HasAlignedRun(old(a.inuseList), a.totalSize, size)
    ensures a.Valid() && a.inuseList == old(a.inuseList)
    ensures a.freeLists[..] == old(a.freeLists[..])
  {
    hide FreeChunks, ValidBlocks, Aligned, Pow2, ChunksOf, Log2Ceil, HasAlignedRun;
    index := a.Alloc(size);
    if index != -1 {
      FreeIsNotBlock(old(a.inuseList), a.totalSize, index, size);
      InsertDelete(old(a.inuseList), index, size);
      var r := a.Release(index);
      ChunksDetermine(a.freeLists[..], old(a.freeLists[..]));
    }
  }

  lemma FreeIsNotBlock(inuse: Blocks, total: nat, index: nat, size: nat)
    requires ValidBlocks(inuse, total) && FreeRange(inuse, total, index, index + size) && size > 0
    ensures index !in inuse
  {
    assert Free(inuse, total, index);
    assert !InUse(inuse, index);
  }

  /** Releasing what was just reserved restores every free list exactly. */
  method ReserveThenRelease(a: Allocator, index: nat, size: nat) returns (reserved: bool)
    requires a.Valid() && index < TWO_32 && 1 <= size && index + size < TWO_32
    modifies a.freeLists, a`inuseList
    ensures reserved <==> FreeRange(old(a.inuseList), a.totalSize, index, index + size)
    ensures a.Valid() && a.inuseList == old(a.inuseList)
    ensures a.freeLists[..] == old(a.freeLists[..])
  {
    hide FreeChunks, ValidBlocks, Aligned, Pow2, ChunksOf, FreeRange;
    var r := a.Reserve(index, size);
    reserved := r == 0;
    if reserved {
      FreeIsNotBlock(old(a.inuseList), a.totalSize, index, size);
      InsertDelete(old(a.inuseList), index, size);
      r := a.Release(index);
      ChunksDetermine(a.freeLists[..], old(a.freeLists[..]));
    }
  }

  /** The same for a run of blocks, given back without coalescing to the left. */
  method AllocMultipleThenRelease(a: Allocator, size: nat, count: nat) returns (index: int)
    requires a.Valid() && 1 <= size <= INT_LIMIT && 1 < count < TWO_32
    modifies a.freeLists, a`inuseList
    ensures index != -1 ==> index >= 0 && RunAt(old(a.inuseList), a.totalSize, a.maxSize, size, count, index)
    ensures index == -1 && Log2Ceil(size) == a.noFreeLists - 1 ==>
              forall i: nat :: !RunAt(old(a.inuseList), a.totalSize, a.maxSize, size, count, i)
    ensures a.Valid() && a.inuseList == old(a.inuseList)
    ensures a.freeLists[..] == old(a.freeLists[..])
  {
    hide FreeChunks, ValidBlocks, Aligned, Pow2, ChunksOf, Log2Ceil, WithRun, WithoutRun, SlotsFree, RunInUse;
    index := a.AllocMultiple(size, count);
    if index != -1 {
      ghost var before, m := old(a.inuseList), a.maxSize;
      RunAligned(a.noFreeLists - 1, count, index);
      WithRunInUse(before, index, m, size, count);
      RunHasFirst(before, index, m, size, count);
      RunIsNew(before, a.totalSize, m, index, size, count);
      WithoutWithRun(before, index, m, size, count);
      var r := a.ReleaseMultiple(index, count);
      ChunksDetermine(a.freeLists[..], old(a.freeLists[..]));
    }
  }

  lemma RunHasFirst(inuse: Blocks, a: nat, m: nat, size: nat, count: nat)
    requires count > 0
    ensures IsBlock(WithRun(inuse, a, m, size, count), a, size)
  {
    hide Slot;
    WithRunInUse(inuse, a, m, size, count);
    SlotStep(a, m, 0);
    assert IsBlock(WithRun(inuse, a, m, size, count), Slot(a, m, 0), size);
  }

  lemma RunIsNew(inuse: Blocks, total: nat, m: nat, a: nat, size: nat, count: nat)
    requires ValidBlocks(inuse, total) && SlotsFree(inuse, total, m, a, size, count) && size > 0
    ensures SlotSet(a, m, count) !! inuse.Keys
  {
    hide Slot, ValidBlocks, FreeRange;
    forall i | 0 <= i < count
      ensures Slot(a, m, i) !in inuse
    {
      FreeIsNotBlock(inuse, total, Slot(a, m, i), size);
    }
  }

  /** Releasing a run at once and releasing its blocks one by one, fully coalescing, give the same lists. */
  method RunReleaseMatchesSingles(a: Allocator, b: Allocator, index: nat, count: nat)
    requires a.Valid() && b.Valid() && a != b && a.freeLists != b.freeLists
    requires a.totalSize == b.totalSize && a.noFreeLists == b.noFreeLists && a.inuseList == b.inuseList
    requires count > 1 && index in a.inuseList && Log2Ceil(a.inuseList[index]) == a.noFreeLists - 1
    requires a.IsAlignedRun(index, count)
    modifies a.freeLists, a`inuseList, b.freeLists, b`inuseList
    ensures a.inuseList == WithoutRun(old(a.inuseList), index, a.maxSize, count)
    ensures a.Valid() && b.Valid() && a.inuseList == b.inuseList
    ensures a.freeLists[..] == b.freeLists[..]
  {
    hide FreeChunks, ValidBlocks, Aligned, Pow2, ChunksOf, Log2Ceil, WithoutRun, RunInUse, Slot;
    ghost var before := a.inuseList;
    var r := a.ReleaseMultiple(index, count);
    var i := 0;
    WithoutRunStep(before, index, b.maxSize, 0);
    SlotStep(index, b.maxSize, 0);
    var at := index;
    while i < count
      invariant 0 <= i <= count && at == Slot(index, b.maxSize, i)
      invariant b.Valid() && b.inuseList == WithoutRun(before, index, b.maxSize, i)
      invariant a.Valid() && a.inuseList == WithoutRun(before, index, b.maxSize, count)
    {
      WithoutRunStep(before, index, b.maxSize, i);
      SlotStep(index, b.maxSize, i);
      r := b.Release(at);
      at := at + b.maxSize;
      i := i + 1;
    }
    HistoryIndependence(a, b);
  }
}
