/** The power-of-two aligned allocator.

    Valid() is the invariant that every public operation keeps: the free lists hold exactly the
    chunks that FreeSpace.FreeChunks gives for the in-use blocks.  The assertions inside the two
    list-editing loops are the source's own; the proof shows that none of them can fail. */
module PowerTwoAllocator {
  import opened BitUtils
  import opened Judy
  import opened Decomposition
  import opened FreeSpace
  import opened Neighbours
  import opened Runs
  import opened Accounting

  // ----- The free lists as a set of chunks

  type FreeList = map<nat, nat>

  function Put(list: FreeList, index: nat, len: nat): FreeList {
    list[index := len]
  }

  function Drop(list: FreeList, index: nat): FreeList {
    list - {index}
  }

  ghost function ChunksOf(lists: seq<FreeList>): iset<Chunk> {
    iset ch: Chunk | ch.log < |lists| && ch.start in lists[ch.log] && lists[ch.log][ch.start] == ch.len
  }

  lemma ChunksInsert(lists: seq<FreeList>, k: nat, index: nat, len: nat)
    requires k < |lists| && index !in lists[k]
    ensures ChunksOf(lists[k := Put(lists[k], index, len)]) == ChunksOf(lists) + iset{Chunk(k, index, len)}
  {
  }

  lemma ChunksRemove(lists: seq<FreeList>, k: nat, index: nat)
    requires k < |lists| && index in lists[k]
    ensures ChunksOf(lists[k := Drop(lists[k], index)])
         == ChunksOf(lists) - iset{Chunk(k, index, lists[k][index])}
  {
  }

  lemma ChunksDetermine(a: seq<FreeList>, b: seq<FreeList>)
    requires |a| == |b| && ChunksOf(a) == ChunksOf(b)
    ensures a == b
  {
    forall k | 0 <= k < |a|
      ensures a[k] == b[k]
    {
      forall i | i in a[k]
        ensures i in b[k] && a[k][i] == b[k][i]
      {
        assert Chunk(k, i, a[k][i]) in ChunksOf(a);
      }
      forall i | i in b[k]
        ensures i in a[k]
      {
        assert Chunk(k, i, b[k][i]) in ChunksOf(b);
      }
    }
  }

  lemma StoredChunk(lists: seq<FreeList>, k: nat, index: nat)
    requires k < |lists|
    ensures index in lists[k] ==> Chunk(k, index, lists[k][index]) in ChunksOf(lists)
  {
  }

  lemma NotStored(lists: seq<FreeList>, k: nat, index: nat, end: nat)
    requires k < |lists| && index < end && Outside(ChunksOf(lists), index, end)
    ensures index !in lists[k]
  {
    StoredChunk(lists, k, index);
  }

  lemma IsStored(lists: seq<FreeList>, ch: Chunk)
    requires ch in ChunksOf(lists)
    ensures ch.log < |lists| && ch.start in lists[ch.log] && lists[ch.log][ch.start] == ch.len
  {
  }

  /** The chunk that a request of size indices, 2^log2 aligned, is carved from: first by list, then by index. */
  ghost predicate BestFit(chunks: iset<Chunk>, log2: nat, size: nat, ch: Chunk) {
    && ch in chunks && log2 <= ch.log && size <= ch.len
    && forall b :: b in chunks && log2 <= b.log && size <= b.len ==>
                     ch.log < b.log || (ch.log == b.log && ch.start <= b.start)
  }

  /** On the lists: no list below the chunk's, from log2 on, has a long enough entry, and none in its own is earlier. */
  lemma FirstInLists(lists: seq<FreeList>, log2: nat, size: nat, ch: Chunk)
    requires BestFit(ChunksOf(lists), log2, size, ch)
    ensures log2 <= ch.log < |lists| && ch.start in lists[ch.log] && lists[ch.log][ch.start] == ch.len >= size
    ensures forall k, i :: log2 <= k < ch.log && i in lists[k] ==> lists[k][i] < size
    ensures forall i :: i in lists[ch.log] && i < ch.start ==> lists[ch.log][i] < size
  {
    IsStored(lists, ch);
    forall k, i | log2 <= k <= ch.log && i in lists[k] && (k == ch.log ==> i < ch.start)
      ensures lists[k][i] < size
    {
      StoredChunk(lists, k, i);
    }
  }

  /** The last place in a chunk where size indices fit at a multiple of 2^log2. */
  ghost predicate LastFit(ch: Chunk, log2: nat, size: nat, a: nat) {
    && Aligned(a, log2) && ch.start <= a && a + size <= ch.End()
    && forall b: nat :: Aligned(b, log2) && b + size <= ch.End() ==> b <= a
  }

  lemma ListsBound(lists: seq<FreeList>)
    ensures forall ch :: ch in ChunksOf(lists) ==> ch.log < |lists|
  {
  }

  /** Some size free indices start at a multiple of 2^ceil(log2 size). */
  ghost predicate HasAlignedRun(inuse: Blocks, total: nat, size: nat)
    requires size < TWO_32
  {
    exists a: nat :: Aligned(a, Log2Ceil(size)) && FreeRange(inuse, total, a, a + size)
  }

  lemma NoRun(inuse: Blocks, total: nat, lists: nat, size: nat)
    requires 1 <= lists <= 32 && ValidBlocks(inuse, total) && total < TWO_32
    requires 1 <= size < TWO_32 && size <= Pow2(lists - 1)
    requires forall ch :: ch in FreeChunks(inuse, total, lists) && Log2Ceil(size) <= ch.log ==> ch.len < size
    ensures !HasAlignedRun(inuse, total, size)
  {
    hide FreeChunks, ValidBlocks, Log2Ceil, FreeRange, Aligned;
    if HasAlignedRun(inuse, total, size) {
      var a: nat :| Aligned(a, Log2Ceil(size)) && FreeRange(inuse, total, a, a + size);
      var ch := AlignedRunInChunk(inuse, total, lists, a, size);
    }
  }

  lemma RunFound(inuse: Blocks, total: nat, size: nat, a: nat)
    requires size < TWO_32 && Aligned(a, Log2Ceil(size)) && FreeRange(inuse, total, a, a + size)
    ensures HasAlignedRun(inuse, total, size)
  {
  }

  /** Rounding the chunk's last index down, and stepping back once if the block would stick out, finds the last fit. */
  lemma RoundingFindsLastFit(ch: Chunk, lists: nat, log2: nat, size: nat) returns (a: nat)
    requires WellFormed(ch, lists) && log2 <= ch.log && size <= ch.len && 1 <= size <= Pow2(log2)
    ensures var top := RoundDown(ch.End() - 1, log2);
            a == if top + size > ch.End() then top - Pow2(log2) else top
    ensures LastFit(ch, log2, size, a)
  {
    var top := RoundDown(ch.End() - 1, log2);
    AlignedDown(ch.start, ch.log, log2);
    Pow2Aligned(log2, log2);
    if top < ch.start {
      AlignedApart(top, ch.start, log2);
    }
    a := top;
    if top + size > ch.End() {
      AlignedApart(ch.start, top, log2);
      a := top - Pow2(log2);
      AlignedSum(Pow2(log2), top, log2);
    }
    forall b: nat | Aligned(b, log2) && b + size <= ch.End()
      ensures b <= a
    {
      if top < b {
        AlignedApart(top, b, log2);
      } else if a < b < top {
        AlignedApart(b, top, log2);
        AlignedApart(a, b, log2);
      }
    }
  }

  lemma MaskFits(x: nat, log2: nat)
    requires x < TWO_32 && log2 <= 32
    ensures Pow2(log2) <= Pow2(64)
    ensures BitAnd(x, Pow2(64) - Pow2(log2)) == RoundDown(x, log2)
  {
    Pow2Of64();
    MaskRoundsDown(x, 64, log2);
  }

  lemma ListHeld(lists: seq<FreeList>, k: nat)
    requires k < |lists|
    ensures HoldsList(ChunksOf(lists), k, lists[k])
  {
  }

  lemma TopKeysInside(inuse: Blocks, total: nat, lists: nat, list: FreeList)
    requires 1 <= lists <= 32 && ValidBlocks(inuse, total) && total < TWO_32
    requires HoldsList(FreeChunks(inuse, total, lists), lists - 1, list)
    ensures forall k :: k in list ==> k < total
  {
    hide FreeChunks, ValidBlocks;
    forall k | k in list
      ensures k < total
    {
      var ch := Chunk(lists - 1, k, list[k]);
      assert ch in FreeChunks(inuse, total, lists);
      FreeChunkIsFree(inuse, total, lists, ch);
    }
  }

  lemma StoredRun(lists: seq<FreeList>, k: nat, list: FreeList, m: nat, freeIndex: seq<nat>,
          freeSize: seq<nat>, size: nat)
    requires k < |lists| && list == lists[k] && 0 < |freeIndex| == |freeSize|
    requires SlotsStored(list, m, freeIndex[0], size, |freeIndex|)
    requires forall i :: 0 <= i < |freeIndex| ==> freeIndex[i] == Slot(freeIndex[0], m, i)
    requires forall i :: 0 <= i < |freeIndex| ==> freeIndex[i] in list && freeSize[i] == list[freeIndex[i]]
    ensures forall i :: 0 <= i < |freeIndex| ==> freeSize[i] >= size
    ensures forall i :: 0 <= i < |freeIndex| ==> Chunk(k, freeIndex[i], freeSize[i]) in ChunksOf(lists)
  {
    hide Slot;
    forall i | 0 <= i < |freeIndex|
      ensures freeSize[i] >= size
    {
      assert SlotStored(list, Slot(freeIndex[0], m, i), size);
    }
  }

  lemma NoChunks(lists: seq<FreeList>)
    requires forall k :: 0 <= k < |lists| ==> lists[k] == map[]
    ensures ChunksOf(lists) == iset{}
  {
  }

  lemma NextSlotFits(i: nat, count: nat, size: nat)
    requires i < count
    ensures i * size + size == (i + 1) * size <= size * count
  {
    MulMonotone(i + 1, count, size);
  }

  lemma GreedyEndsAt(end: nat, lists: nat)
    requires 1 <= lists <= 32 && end < TWO_32
    ensures forall hi :: Outside(Greedy(0, end, lists), end, hi)
  {
    hide Greedy;
    forall ch | ch in Greedy(0, end, lists)
      ensures ch.start < end && ch.End() <= end
    {
      GreedyInside(0, end, lists, ch);
    }
  }

  lemma NoBlocksAllFree(total: nat, lists: nat)
    requires 1 <= lists <= 32 && total < TWO_32
    ensures ValidBlocks(map[], total)
    ensures FreeChunks(map[], total, lists) == Greedy(0, total, lists)
  {
    hide Greedy;
    FreeChunksByGap(map[], total, lists, 0);
    assert GapEnd(map[], total, 0) == total;
    assert OtherChunks(map[], total, lists, 0) == iset{};
  }

  lemma RunsMeanSlots(inuse: Blocks, total: nat, m: nat, size: nat, count: nat)
    ensures forall a: nat :: RunAt(inuse, total, m, size, count, a) ==>
              && m * count < TWO_32 && Aligned(a, Log2Ceil(m * count))
              && forall i :: 0 <= i < count ==> FreeRange(inuse, total, Slot(a, m, i), Slot(a, m, i) + size)
    ensures m * count < TWO_32 ==>
              forall a: nat :: Aligned(a, Log2Ceil(m * count)) && !RunAt(inuse, total, m, size, count, a) ==>
                exists i :: 0 <= i < count && !FreeRange(inuse, total, Slot(a, m, i), Slot(a, m, i) + size)
  {
    hide Aligned, Log2Ceil, Slot, FreeRange;
  }

  function BlockOrTotal(index: Option<nat>, total: nat): nat {
    if index.None? then total else index.value
  }

  lemma BlockInside(inuse: Blocks, total: nat, b: nat)
    requires ValidBlocks(inuse, total)
    ensures forall c :: c in inuse ==> c < total
  {
  }

  lemma NothingUsedBefore(inuse: Blocks, total: nat, first: nat)
    requires ValidBlocks(inuse, total) && forall b :: b in inuse.Keys ==> first <= b
    ensures UsedBelow(inuse, first) == {}
  {
  }

  lemma Pow2Positive(k: nat)
    ensures Pow2(k) > 0
  {
  }

  class Allocator {
    var maxSize: nat
    var totalSize: nat
    var noFreeLists: nat
    var freeLists: array<FreeList>
    var inuseList: Blocks

    ghost predicate Shape()
      reads this
    {
      && 1 <= noFreeLists <= 32 && noFreeLists == freeLists.Length
      && maxSize == Pow2(noFreeLists - 1)
      && totalSize < INT_LIMIT && Aligned(totalSize, noFreeLists - 1)
    }

    ghost function View(): iset<Chunk>
      reads this, freeLists
    {
      ChunksOf(freeLists[..])
    }

    ghost predicate Valid()
      reads this, freeLists
    {
      && Shape()
      && ValidBlocks(inuseList, totalSize)
      && View() == FreeChunks(inuseList, totalSize, noFreeLists)
    }

    // ----- Creation and copying

    /** The calloc of create: a record with no_free_lists empty lists. */
    constructor Blank(size: nat, total: nat, lists: nat)
      ensures maxSize == size && totalSize == total && noFreeLists == lists
      ensures fresh(freeLists) && freeLists.Length == lists
      ensures forall k :: 0 <= k < lists ==> freeLists[k] == map[]
      ensures inuseList == map[]
    {
      maxSize, totalSize, noFreeLists := size, total, lists;
      freeLists := new FreeList[lists](_ => map[]);
      inuseList := map[];
    }

    /** An allocator of count times size indices, or null when size is no power of two. */
    static method Create(size: nat, count: nat) returns (a: Allocator?)
      requires size < TWO_32 && (IsUint32Power2(size) ==> size * count < INT_LIMIT)
      ensures a == null <==> forall k: nat :: size != Pow2(k)
      ensures a != null ==>
                && fresh(a) && fresh(a.freeLists) && a.Valid()
                && a.maxSize == size && a.totalSize == size * count && a.inuseList == map[]
    {
      hide ChunksOf, FreeChunks, Greedy, Aligned, Pow2, Log2Ceil, IsUint32Power2;
      IsPower2Iff(size);
      if !IsUint32Power2(size) {
        return null;
      }
      var log2 := Log2Ceil(size);
      Log2CeilOfPower(size);
      a := new Allocator.Blank(size, size * count, log2 + 1);
      MultipleAligned(count, log2);
      NoChunks(a.freeLists[..]);
      ZeroAligned(log2);
      GreedyEmpty(0, log2 + 1);
      var i, freeIndex: nat := 0, 0;
      while i < count
        invariant 0 <= i <= count && freeIndex == i * size
        invariant fresh(a) && fresh(a.freeLists) && a.Shape() && a.noFreeLists == log2 + 1
        invariant a.maxSize == size && a.totalSize == size * count && a.inuseList == map[]
        invariant freeIndex <= a.totalSize
        invariant Aligned(freeIndex, log2)
        invariant a.View() == Greedy(0, freeIndex, log2 + 1)
      {
        NextSlotFits(i, count, size);
        GreedyEndsAt(freeIndex, log2 + 1);
        GreedyComposeAtMultiple(0, freeIndex, freeIndex + size, log2 + 1);
        Pow2Aligned(log2, log2);
        AlignedSum(freeIndex, size, log2);
        a.InsertOneFree(freeIndex, size);
        i, freeIndex := i + 1, freeIndex + size;
      }
      NoBlocksAllFree(a.totalSize, log2 + 1);
    }

    static method CopyList(list: FreeList) returns (copy: FreeList)
      ensures copy == list
    {
      copy := map[];
      var index := First(list.Keys, 0);
      while index.Some?
        invariant index.Some? ==> index.value in list
        invariant copy.Keys == set i | i in list && (index.Some? ==> i < index.value)
        invariant forall i :: i in copy ==> copy[i] == list[i]
        decreases list.Keys - copy.Keys
      {
        assert index.value in list.Keys - copy.Keys;
        copy := copy[index.value := list[index.value]];
        index := Next(list.Keys, index.value);
      }
    }

    /** A second allocator in the same state, sharing nothing with the first. */
    method MakeCopy() returns (dest: Allocator)
      requires Valid()
      ensures fresh(dest) && fresh(dest.freeLists) && dest.Valid()
      ensures dest.maxSize == maxSize && dest.totalSize == totalSize && dest.noFreeLists == noFreeLists
      ensures dest.freeLists[..] == freeLists[..] && dest.inuseList == inuseList
    {
      hide ChunksOf, FreeChunks, ValidBlocks, Aligned, Pow2;
      dest := new Allocator.Blank(maxSize, totalSize, noFreeLists);
      var i := 0;
      while i < noFreeLists
        invariant 0 <= i <= noFreeLists
        invariant dest.maxSize == maxSize && dest.totalSize == totalSize && dest.noFreeLists == noFreeLists
        invariant fresh(dest.freeLists) && dest.freeLists.Length == noFreeLists
        invariant forall k :: 0 <= k < i ==> dest.freeLists[k] == freeLists[k]
      {
        var copy := CopyList(freeLists[i]);
        dest.freeLists[i] := copy;
        i := i + 1;
      }
      var blocks := CopyList(inuseList);
      dest.inuseList := blocks;
      assert dest.freeLists[..] == freeLists[..];
    }

    // ----- Editing the free lists

    /** JLI and the store through the returned pointer. */
    method Store(k: nat, index: nat, len: nat)
      requires k < freeLists.Length && index !in freeLists[k]
      modifies freeLists
      ensures View() == old(View()) + iset{Chunk(k, index, len)}
    {
      ChunksInsert(freeLists[..], k, index, len);
      ghost var lists := freeLists[..];
      freeLists[k] := Put(freeLists[k], index, len);
      assert freeLists[..] == lists[k := Put(lists[k], index, len)];
    }

    /** JLG and JLD. */
    method Take(k: nat, index: nat) returns (len: nat)
      requires k < freeLists.Length && index in freeLists[k]
      modifies freeLists
      ensures len == old(freeLists[k])[index]
      ensures Chunk(k, index, len) in old(View())
      ensures View() == old(View()) - iset{Chunk(k, index, len)}
    {
      ChunksRemove(freeLists[..], k, index);
      ghost var lists := freeLists[..];
      len := freeLists[k][index];
      freeLists[k] := Drop(freeLists[k], index);
      assert freeLists[..] == lists[k := Drop(lists[k], index)];
    }

    method InsertOneFree(freeIndex: nat, size: nat)
      requires Shape() && freeIndex + size <= totalSize
      requires size > 0 ==> Outside(View(), freeIndex, freeIndex + size)
      modifies freeLists
      ensures View() == old(View()) + Greedy(freeIndex, freeIndex + size, noFreeLists)
    {
      hide Greedy, Aligned, FirstChunk, WellFormed, ChunksOf, FreeLog, Put, Drop, Pow2;
      var curIndex: nat, remSize: nat := freeIndex, size;
      ghost var end := freeIndex + size;
      ghost var done: iset<Chunk> := iset{};
      while remSize > 0
        invariant curIndex + remSize == end
        invariant View() == old(View()) + done
        invariant done + Greedy(curIndex, end, noFreeLists) == Greedy(freeIndex, end, noFreeLists)
        invariant remSize > 0 ==> Outside(View(), curIndex, end)
      {
        var freeLog2 := FreeLog(curIndex, remSize, noFreeLists);
        FirstChunkAsserts(curIndex, remSize, noFreeLists);
        assert freeLog2 < 32 && curIndex % Pow2(freeLog2) == 0;
        assert curIndex !in freeLists[freeLog2] by {
          NotStored(freeLists[..], freeLog2, curIndex, end);
        }
        GreedyStep(curIndex, end, noFreeLists, FirstChunk(curIndex, remSize, noFreeLists));
        done := done + iset{FirstChunk(curIndex, remSize, noFreeLists)};
        if remSize < Pow2(freeLog2) {
          assert remSize > Pow2(freeLog2) / 2;
          Store(freeLog2, curIndex, remSize);
          curIndex, remSize := curIndex + remSize, 0;
        } else {
          Store(freeLog2, curIndex, Pow2(freeLog2));
          curIndex, remSize := curIndex + Pow2(freeLog2), remSize - Pow2(freeLog2);
        }
      }
      GreedyEmpty(end, noFreeLists);
    }

    method RemoveFreeIndex(freeIndex: nat, size: nat)
      requires Shape() && freeIndex + size <= totalSize
      requires Greedy(freeIndex, freeIndex + size, noFreeLists) <= View()
      modifies freeLists
      ensures View() == old(View()) - Greedy(freeIndex, freeIndex + size, noFreeLists)
    {
      hide Greedy, Aligned, FirstChunk, WellFormed, ChunksOf, FreeLog, Put, Drop, Pow2;
      var curIndex: nat, remSize: nat := freeIndex, size;
      ghost var end := freeIndex + size;
      ghost var done: iset<Chunk> := iset{};
      while remSize > 0
        invariant curIndex + remSize == end
        invariant View() == old(View()) - done
        invariant done + Greedy(curIndex, end, noFreeLists) == Greedy(freeIndex, end, noFreeLists)
        invariant Greedy(curIndex, end, noFreeLists) <= View()
      {
        var freeLog2 := FreeLog(curIndex, remSize, noFreeLists);
        FirstChunkAsserts(curIndex, remSize, noFreeLists);
        assert freeLog2 < 32 && curIndex % Pow2(freeLog2) == 0;
        ghost var ch := FirstChunk(curIndex, remSize, noFreeLists);
        RestAfterFirst(curIndex, end, noFreeLists, ch);
        IsStored(freeLists[..], ch);
        var tmpSize := Take(freeLog2, curIndex);
        done := done + iset{ch};
        if remSize < Pow2(freeLog2) {
          assert tmpSize == remSize;
          curIndex, remSize := curIndex + remSize, 0;
        } else {
          assert tmpSize == Pow2(freeLog2);
          curIndex, remSize := curIndex + Pow2(freeLog2), remSize - Pow2(freeLog2);
        }
      }
      GreedyEmpty(end, noFreeLists);
    }

    /** Takes out the lowest entry of one list that holds at least size indices. */
    method RemoveOneFree(log2: nat, size: nat) returns (freeIndex: Option<nat>, freeSize: nat)
      requires Shape() && log2 < noFreeLists && size <= Pow2(log2)
      modifies freeLists
      ensures freeIndex.None? ==> freeLists[..] == old(freeLists[..])
      ensures freeIndex.None? ==> forall ch :: ch in View() && ch.log == log2 ==> ch.len < size
      ensures freeIndex.Some? ==>
                && freeSize >= size
                && Chunk(log2, freeIndex.value, freeSize) in old(View())
                && View() == old(View()) - iset{Chunk(log2, freeIndex.value, freeSize)}
                && forall ch :: ch in old(View()) && ch.log == log2 && ch.start < freeIndex.value ==> ch.len < size
    {
      hide Drop;
      freeSize := 0;
      var list := freeLists[log2];
      freeIndex := First(list.Keys, 0);
      while freeIndex.Some? && list[freeIndex.value] < size
        invariant freeIndex.Some? ==> freeIndex.value in list
        invariant forall i :: i in list && (freeIndex.Some? ==> i < freeIndex.value) ==> list[i] < size
        decreases if freeIndex.None? then {} else set i | i in list && freeIndex.value <= i
      {
        ghost var seen := freeIndex.value;
        freeIndex := Next(list.Keys, freeIndex.value);
        assert seen in (set i | i in list && seen <= i);
      }
      if freeIndex.Some? {
        freeSize := Take(log2, freeIndex.value);
      }
    }

    /** Takes out the chunk that a request is served from, searching upwards from list log2. */
    method TakeChunk(log2: nat, size: nat) returns (freeIndex: Option<nat>, freeSize: nat, ghost ch: Chunk)
      requires Shape() && log2 < noFreeLists && size <= Pow2(log2)
      modifies freeLists
      ensures freeIndex.None? ==> freeLists[..] == old(freeLists[..])
      ensures freeIndex.None? ==> forall b :: b in View() && log2 <= b.log ==> b.len < size
      ensures freeIndex.Some? ==>
                && ch.start == freeIndex.value && ch.len == freeSize
                && BestFit(old(View()), log2, size, ch)
                && View() == old(View()) - iset{ch}
      ensures freeIndex.Some? ==>
                var lists := old(freeLists[..]);
                && log2 <= ch.log < noFreeLists && freeIndex.value in lists[ch.log]
                && lists[ch.log][freeIndex.value] == freeSize >= size
                && (forall k, i :: log2 <= k < ch.log && i in lists[k] ==> lists[k][i] < size)
                && (forall i :: i in lists[ch.log] && i < freeIndex.value ==> lists[ch.log][i] < size)
    {
      hide ChunksOf, Pow2, Aligned;
      freeIndex, freeSize, ch := None, 0, Chunk(0, 0, 0);
      var i := log2;
      while i < noFreeLists
        invariant log2 <= i <= noFreeLists
        invariant freeLists[..] == old(freeLists[..])
        invariant forall b :: b in View() && log2 <= b.log < i ==> b.len < size
        invariant freeIndex.None?
      {
        Pow2Monotone(log2, i);
        freeIndex, freeSize := RemoveOneFree(i, size);
        if freeIndex.Some? {
          ch := Chunk(i, freeIndex.value, freeSize);
          FirstInLists(old(freeLists[..]), log2, size, ch);
          return;
        }
        i := i + 1;
      }
      ListsBound(freeLists[..]);
    }

    /** Allocates size indices at a multiple of 2^ceil(log2 size), or returns -1. */
    method Alloc(size: nat) returns (r: int)
      requires Valid() && 1 <= size < TWO_32
      modifies freeLists, `inuseList
      ensures Valid()
      ensures size > maxSize ==> r == -1
      ensures size <= maxSize ==> (r == -1 <==> !HasAlignedRun(old(inuseList), totalSize, size))
      ensures r == -1 ==> inuseList == old(inuseList) && freeLists[..] == old(freeLists[..])
      ensures r != -1 ==> r >= 0 && Aligned(r, Log2Ceil(size))
                          && FreeRange(old(inuseList), totalSize, r, r + size)
                          && inuseList == old(inuseList)[r := size]
      ensures r != -1 ==> exists ch :: BestFit(old(View()), Log2Ceil(size), size, ch)
                                       && LastFit(ch, Log2Ceil(size), size, r)
      ensures r != -1 ==>
                var lists := old(freeLists[..]);
                exists k: nat, x: nat ::
                  && Log2Ceil(size) <= k < noFreeLists && x in lists[k] && size <= lists[k][x]
                  && (forall j, y :: Log2Ceil(size) <= j < k && y in lists[j] ==> lists[j][y] < size)
                  && (forall y :: y in lists[k] && y < x ==> lists[k][y] < size)
                  && x <= r && r + size <= x + lists[k][x]
                  && (forall b: nat :: Aligned(b, Log2Ceil(size)) && b + size <= x + lists[k][x] ==> b <= r)
    {
      hide ChunksOf, Aligned, Pow2, FreeChunks, ValidBlocks, Log2Ceil, FreeRange, Greedy, BitAnd, RoundDown,
           HasAlignedRun;
      if maxSize < size {
        return -1;
      }
      var log2 := Log2Ceil(size);
      Log2CeilBounds(size);
      Log2CeilIff(size, noFreeLists - 1);
      var freeIndex, freeSize, ch := TakeChunk(log2, size);
      if freeIndex.None? {
        NoRun(inuseList, totalSize, noFreeLists, size);
        return -1;
      }
      FreeChunkIsFree(inuseList, totalSize, noFreeLists, ch);
      var end := freeIndex.value + freeSize;
      MaskFits(end - 1, log2);
      var allocIndex := BitAnd(end - 1, Pow2(64) - Pow2(log2));
      ghost var last := RoundingFindsLastFit(ch, noFreeLists, log2, size);
      if allocIndex + size > end {
        allocIndex := allocIndex - Pow2(log2);
      }
      SubRangeFree(inuseList, totalSize, ch.start, ch.End(), allocIndex, allocIndex + size);
      CarveOut(ch, freeIndex.value, freeSize, allocIndex, size);
      RunFound(old(inuseList), totalSize, size, allocIndex);
      r := allocIndex;
    }

    /** Stores both remainders of a chunk that was taken out, and marks the block between them. */
    method CarveOut(ghost ch: Chunk, freeIndex: nat, freeSize: nat, allocIndex: nat, size: nat)
      requires Shape() && ValidBlocks(inuseList, totalSize)
      requires ch in FreeChunks(inuseList, totalSize, noFreeLists)
      requires View() == FreeChunks(inuseList, totalSize, noFreeLists) - iset{ch}
      requires ch.start == freeIndex && ch.len == freeSize
      requires 1 <= size && freeIndex <= allocIndex && allocIndex + size <= freeIndex + freeSize
      modifies freeLists, `inuseList
      ensures Valid()
      ensures inuseList == old(inuseList)[allocIndex := size]
    {
      hide ChunksOf, FreeChunks, ValidBlocks, Greedy, Aligned, Pow2, Outside, WellFormed;
      FreeChunkIsFree(inuseList, totalSize, noFreeLists, ch);
      FreeChunksDisjoint(inuseList, totalSize, noFreeLists, ch);
      RoomForRemainders(View(), ch, noFreeLists, allocIndex, size);
      CarveChunk(inuseList, totalSize, noFreeLists, ch, allocIndex, size);
      InsertOneFree(freeIndex, allocIndex - freeIndex);
      InsertOneFree(allocIndex + size, (freeIndex + freeSize) - (allocIndex + size));
      assert allocIndex !in inuseList;
      inuseList := inuseList[allocIndex := size];
    }

    // ----- Giving blocks back, and reserving chosen ones

    method Release(index: nat) returns (r: int)
      requires Valid()
      modifies freeLists, `inuseList
      ensures Valid()
      ensures r == if index in old(inuseList) then 0 else -1
      ensures inuseList == old(inuseList) - {index}
    {
      hide ChunksOf, FreeChunks, Greedy, Aligned, Pow2, Outside, Starts, GapEnd, ValidBlocks, PrevEnd, NextStart;
      if index !in inuseList {
        assert inuseList - {index} == inuseList;
        return -1;
      }
      var size := inuseList[index];
      var freeIndex := PrevEnd(inuseList, index);
      var nextIndex := NextStart(inuseList, totalSize, index);
      AroundBlock(inuseList, totalSize, index);
      Restore(inuseList, totalSize, noFreeLists, freeIndex, index, nextIndex);
      RemoveFreeIndex(freeIndex, index - freeIndex);
      RemoveFreeIndex(index + size, nextIndex - (index + size));
      InsertOneFree(freeIndex, nextIndex - freeIndex);
      inuseList := inuseList - {index};
      return 0;
    }

    /** Reserves chosen indices; 1 when they are not all free. */
    method Reserve(index: nat, size: nat) returns (r: int)
      requires Valid() && index < TWO_32 && 1 <= size < TWO_32
      requires index + size < TWO_32 || !ReserveAccepts(inuseList, totalSize, index, size)
      modifies freeLists, `inuseList
      ensures Valid()
      ensures r == if FreeRange(old(inuseList), totalSize, index, index + size) then 0 else 1
      ensures inuseList == if r == 0 then old(inuseList)[index := size] else old(inuseList)
      ensures r != 0 ==> freeLists[..] == old(freeLists[..])
    {
      hide ChunksOf, FreeChunks, Greedy, Aligned, Pow2, Outside, Starts, GapEnd, ValidBlocks, PrevEnd, NextStart,
           FreeRange, InUse;
      ReserveExact(inuseList, totalSize, index, size);
      FreeRangeAround(inuseList, totalSize, index, size);
      NextStartFacts(inuseList, totalSize, index);
      if index in inuseList {
        return 1;
      }
      var prevFreeIndex := PrevEnd(inuseList, index);
      var nextInuseIndex := NextStart(inuseList, totalSize, index);
      if index < prevFreeIndex {
        return 1;
      }
      if (index + size) % TWO_32 > nextInuseIndex {
        return 1;
      }
      AroundFreeIndex(inuseList, totalSize, index);
      FreeChunksByGap(inuseList, totalSize, noFreeLists, prevFreeIndex);
      Carve(inuseList, totalSize, noFreeLists, prevFreeIndex, index, size);
      GapRefill(inuseList, totalSize, noFreeLists, prevFreeIndex, index, size);
      RemoveFreeIndex(prevFreeIndex, nextInuseIndex - prevFreeIndex);
      InsertOneFree(prevFreeIndex, index - prevFreeIndex);
      InsertOneFree(index + size, nextInuseIndex - (index + size));
      assert index !in inuseList;
      inuseList := inuseList[index := size];
      return 0;
    }

    // ----- Runs of top-class blocks

    /** Carves size indices out of each slot's chunk; nothing is marked in use yet. */
    method CarveRun(a: nat, size: nat, count: nat, freeIndex: seq<nat>, freeSize: seq<nat>)
      requires Valid() && size > 0 && |freeIndex| == count == |freeSize|
      requires forall i :: 0 <= i < count ==> freeIndex[i] == Slot(a, maxSize, i) && freeSize[i] >= size
      requires forall i :: 0 <= i < count ==> Chunk(noFreeLists - 1, freeIndex[i], freeSize[i]) in View()
      modifies freeLists
      ensures ValidBlocks(WithRun(inuseList, a, maxSize, size, count), totalSize)
      ensures View() == FreeChunks(WithRun(inuseList, a, maxSize, size, count), totalSize, noFreeLists)
      ensures forall i :: 0 <= i < count ==> freeIndex[i] !in WithRun(inuseList, a, maxSize, size, i)
    {
      hide ChunksOf, FreeChunks, ValidBlocks, Greedy, Aligned, Pow2, Outside, WellFormed, Slot, WithRun;
      WithRunStep(inuseList, a, maxSize, size, 0);
      var i := 0;
      while i < count
        invariant 0 <= i <= count
        invariant ValidBlocks(WithRun(inuseList, a, maxSize, size, i), totalSize)
        invariant View() == FreeChunks(WithRun(inuseList, a, maxSize, size, i), totalSize, noFreeLists)
        invariant forall j :: i <= j < count ==> Chunk(noFreeLists - 1, freeIndex[j], freeSize[j]) in View()
        invariant forall j :: 0 <= j < i ==> freeIndex[j] !in WithRun(inuseList, a, maxSize, size, j)
      {
        CarveSlot(WithRun(inuseList, a, maxSize, size, i), freeIndex[i], freeSize[i], size);
        WithRunStep(inuseList, a, maxSize, size, i);
        forall j | i < j < count
          ensures freeIndex[j] != freeIndex[i]
        {
          Pow2Positive(noFreeLists - 1);
          SlotsApart(a, maxSize, i, j);
        }
        i := i + 1;
      }
    }

    /** One slot of the run: its chunk goes out, what is left of it goes back in. */
    method CarveSlot(ghost inuse: Blocks, freeIndex: nat, freeSize: nat, size: nat)
      requires Shape() && ValidBlocks(inuse, totalSize) && View() == FreeChunks(inuse, totalSize, noFreeLists)
      requires 1 <= size <= freeSize && Chunk(noFreeLists - 1, freeIndex, freeSize) in View()
      modifies freeLists
      ensures freeIndex !in inuse && ValidBlocks(inuse[freeIndex := size], totalSize)
      ensures View() == FreeChunks(inuse[freeIndex := size], totalSize, noFreeLists)
      ensures old(View()) - iset{Chunk(noFreeLists - 1, freeIndex, freeSize)} <= View()
    {
      hide ChunksOf, FreeChunks, ValidBlocks, Greedy, Aligned, Pow2, Outside, WellFormed;
      ghost var ch := Chunk(noFreeLists - 1, freeIndex, freeSize);
      FreeChunkIsFree(inuse, totalSize, noFreeLists, ch);
      FreeChunksDisjoint(inuse, totalSize, noFreeLists, ch);
      RoomForRemainders(View() - iset{ch}, ch, noFreeLists, freeIndex, size);
      CarveChunk(inuse, totalSize, noFreeLists, ch, freeIndex, size);
      GreedyEmpty(freeIndex, noFreeLists);
      IsStored(freeLists[..], ch);
      var len := Take(noFreeLists - 1, freeIndex);
      assert View() + Greedy(freeIndex, freeIndex, noFreeLists) == View();
      InsertOneFree(freeIndex + size, freeSize - size);
    }

    method MarkRun(a: nat, size: nat, count: nat, freeIndex: seq<nat>)
      requires |freeIndex| == count
      requires forall i :: 0 <= i < count ==> freeIndex[i] == Slot(a, maxSize, i)
      requires forall i :: 0 <= i < count ==> freeIndex[i] !in WithRun(inuseList, a, maxSize, size, i)
      modifies `inuseList
      ensures inuseList == WithRun(old(inuseList), a, maxSize, size, count)
    {
      hide Slot, WithRun;
      WithRunStep(inuseList, a, maxSize, size, 0);
      var i := 0;
      while i < count
        invariant 0 <= i <= count
        invariant inuseList == WithRun(old(inuseList), a, maxSize, size, i)
      {
        WithRunStep(old(inuseList), a, maxSize, size, i);
        assert freeIndex[i] !in inuseList;
        inuseList := inuseList[freeIndex[i] := size];
        i := i + 1;
      }
    }

    method AllocIntV2(log2: nat, size: nat, count: nat, align: nat) returns (r: int)
      requires Valid() && 1 <= size < TWO_32 && log2 == Log2Ceil(size) && align > 0
      modifies freeLists, `inuseList
      ensures Valid()
      ensures r == -1 ==> inuseList == old(inuseList) && freeLists[..] == old(freeLists[..])
      ensures log2 != noFreeLists - 1 || count == 0 ==> r == -1
      ensures r == -1 && log2 == noFreeLists - 1 && count > 0 ==>
                forall a: nat :: a % align == 0 && Aligned(a, log2) ==>
                                 !SlotsFree(old(inuseList), totalSize, maxSize, a, size, count)
      ensures r != -1 ==>
                && r >= 0 && r % align == 0 && Aligned(r, log2)
                && SlotsFree(old(inuseList), totalSize, maxSize, r, size, count)
                && (forall a: nat :: a % align == 0 && Aligned(a, log2) ==>
                                     SlotsFree(old(inuseList), totalSize, maxSize, a, size, count) ==> r <= a)
                && inuseList == WithRun(old(inuseList), r, maxSize, size, count)
    {
      hide ChunksOf, FreeChunks, ValidBlocks, Greedy, Aligned, Pow2, Slot, WithRun, Log2Ceil, SlotsFree, SlotsStored;
      if log2 != noFreeLists - 1 || count == 0 {
        return -1;
      }
      var list := freeLists[log2];
      ListHeld(freeLists[..], log2);
      TopKeysInside(inuseList, totalSize, noFreeLists, list);
      forall a: nat
        ensures SlotsStored(list, maxSize, a, size, count)
           <==> Aligned(a, log2) && SlotsFree(inuseList, totalSize, maxSize, a, size, count)
      {
        RunStoredIff(inuseList, totalSize, noFreeLists, list, a, size, count);
      }
      var found, freeIndex, freeSize := FindRun(list, maxSize, size, count, align, totalSize);
      if !found {
        return -1;
      }
      StoredRun(freeLists[..], log2, list, maxSize, freeIndex, freeSize, size);
      CarveRun(freeIndex[0], size, count, freeIndex, freeSize);
      MarkRun(freeIndex[0], size, count, freeIndex);
      return freeIndex[0];
    }

    /** Allocates count blocks of size indices, one per top-class slot, at the lowest aligned run; or returns -1. */
    method AllocMultiple(size: nat, count: nat) returns (r: int)
      requires Valid() && 1 <= size <= INT_LIMIT && count < TWO_32
      modifies freeLists, `inuseList
      ensures Valid()
      ensures r == -1 ==> inuseList == old(inuseList) && freeLists[..] == old(freeLists[..])
      ensures count == 1 && size <= maxSize ==> (r == -1 <==> !HasAlignedRun(old(inuseList), totalSize, size))
      ensures count == 1 && r != -1 ==> r >= 0 && Aligned(r, Log2Ceil(size))
                                        && FreeRange(old(inuseList), totalSize, r, r + size)
                                        && inuseList == old(inuseList)[r := size]
      ensures count == 1 && size > maxSize ==> r == -1
      ensures count == 1 && r != -1 ==> exists ch :: BestFit(old(View()), Log2Ceil(size), size, ch)
                                                     && LastFit(ch, Log2Ceil(size), size, r)
      ensures count != 1 && (count == 0 || Log2Ceil(size) != noFreeLists - 1) ==> r == -1
      ensures count > 1 && r == -1 && Log2Ceil(size) == noFreeLists - 1 ==>
                forall a: nat :: !RunAt(old(inuseList), totalSize, maxSize, size, count, a)
      ensures count > 1 && r != -1 ==>
                && r >= 0 && RunAt(old(inuseList), totalSize, maxSize, size, count, r)
                && (forall a: nat :: RunAt(old(inuseList), totalSize, maxSize, size, count, a) ==> r <= a)
                && inuseList == WithRun(old(inuseList), r, maxSize, size, count)
      ensures count > 1 && r != -1 ==>
                && maxSize * count < TWO_32 && Aligned(r, Log2Ceil(maxSize * count))
                && forall i :: 0 <= i < count ==>
                     FreeRange(old(inuseList), totalSize, Slot(r, maxSize, i), Slot(r, maxSize, i) + size)
      ensures count > 1 && Log2Ceil(size) == noFreeLists - 1 && maxSize * count < TWO_32 ==>
                forall a: nat :: Aligned(a, Log2Ceil(maxSize * count)) && (r == -1 || a < r) ==>
                  exists i :: 0 <= i < count &&
                    !FreeRange(old(inuseList), totalSize, Slot(a, maxSize, i), Slot(a, maxSize, i) + size)
    {
      hide ChunksOf, FreeChunks, ValidBlocks, Greedy, Aligned, Pow2, Slot, WithRun, Log2Ceil, SlotsFree,
           HasAlignedRun, FreeRange, RunAt;
      RunsMeanSlots(inuseList, totalSize, maxSize, size, count);
      if count == 1 {
        r := Alloc(size);
        return;
      }
      var log2 := Log2Ceil(size);
      var total := Pow2(log2) * count % TWO_32;
      if count > 0 && log2 == noFreeLists - 1 {
        SearchIsExactEverywhere(inuseList, totalSize, log2, size, count);
      }
      if totalSize < total {
        return -1;
      }
      var align := Pow2(Log2Ceil(total));
      if log2 != noFreeLists - 1 {
        return -1;
      }
      r := AllocIntV2(log2, size, count, align);
    }

    /** A run as alloc_multiple makes it: count blocks of one size, one per top-class slot from index on. */
    predicate IsAlignedRun(index: nat, count: nat)
      reads this
    {
      && noFreeLists >= 1 && Aligned(index, noFreeLists - 1)
      && index in inuseList && RunInUse(inuseList, index, maxSize, inuseList[index], count)
    }

    /** Gives back a run; the blocks before each slot need no coalescing, because slots are multiples of maxSize. */
    method ReleaseMultiple(index: nat, count: nat) returns (r: int)
      requires Valid()
      requires count > 1 && index in inuseList && Log2Ceil(inuseList[index]) == noFreeLists - 1 ==>
                 IsAlignedRun(index, count)
      modifies freeLists, `inuseList
      ensures Valid()
      ensures r == -1 ==> inuseList == old(inuseList)
      ensures count == 1 ==> r == if index in old(inuseList) then 0 else -1
      ensures count != 1 ==>
                (r == 0 <==> index in old(inuseList) && Log2Ceil(old(inuseList)[index]) == noFreeLists - 1)
      ensures r == 0 ==> inuseList == WithoutRun(old(inuseList), index, maxSize, count)
      ensures r == 0 || r == -1
    {
      hide ChunksOf, FreeChunks, Greedy, Aligned, Pow2, Slot, WithoutRun, Log2Ceil, RunInUse;
      WithoutRunStep(inuseList, index, maxSize, 0);
      SlotStep(index, maxSize, 0);
      if count == 1 {
        WithoutRunStep(inuseList, index, maxSize, 0);
        r := Release(index);
        return;
      }
      if index !in inuseList {
        return -1;
      }
      var size := inuseList[index];
      if Log2Ceil(size) != noFreeLists - 1 {
        return -1;
      }
      var at := index;
      var i := 0;
      while i < count
        invariant 0 <= i <= count && at == Slot(index, maxSize, i)
        invariant Valid()
        invariant inuseList == WithoutRun(old(inuseList), index, maxSize, i)
      {
        Pow2Positive(noFreeLists - 1);
        RunStillInUse(old(inuseList), index, maxSize, size, count, i);
        SlotAligned(index, noFreeLists - 1, i);
        ReleaseSlot(at, size);
        WithoutRunStep(old(inuseList), index, maxSize, i);
        SlotStep(index, maxSize, i);
        at := at + maxSize;
        i := i + 1;
      }
      return 0;
    }

    method ReleaseSlot(index: nat, size: nat)
      requires Valid() && IsBlock(inuseList, index, size) && Aligned(index, noFreeLists - 1)
      modifies freeLists, `inuseList
      ensures Valid()
      ensures inuseList == old(inuseList) - {index}
    {
      hide ChunksOf, FreeChunks, Greedy, Aligned, Pow2, Outside, Starts, GapEnd, ValidBlocks, PrevEnd, NextStart;
      var nextIndex := NextStart(inuseList, totalSize, index);
      AroundBlock(inuseList, totalSize, index);
      RestoreAtMultiple(inuseList, totalSize, noFreeLists, PrevEnd(inuseList, index), index, nextIndex);
      RemoveFreeIndex(index + size, nextIndex - (index + size));
      InsertOneFree(index, size + (nextIndex - (index + size)));
      inuseList := inuseList - {index};
    }

    // ----- Queries

    /** The number of indices in use. */
    method Usage() returns (count: nat)
      requires ValidBlocks(inuseList, totalSize)
      ensures count == |UsedBelow(inuseList, totalSize)|
    {
      hide ValidBlocks, UsedBelow;
      count := 0;
      var index := First(inuseList.Keys, 0);
      NothingUsedBefore(inuseList, totalSize, BlockOrTotal(index, totalSize));
      while index.Some?
        invariant index.Some? ==> index.value in inuseList
        invariant count == |UsedBelow(inuseList, BlockOrTotal(index, totalSize))|
        decreases if index.None? then {} else set i | i in inuseList && index.value <= i
      {
        ghost var b := index.value;
        BlockInside(inuseList, totalSize, b);
        count := count + inuseList[index.value];
        index := Next(inuseList.Keys, index.value);
        UsedStep(inuseList, totalSize, b, BlockOrTotal(index, totalSize));
        assert b in (set i | i in inuseList && b <= i);
      }
    }
  }
}
