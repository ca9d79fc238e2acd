/** Runs of top-class blocks: what alloc_multiple looks for and release_multiple gives back. */
module Runs {
  import opened BitUtils
  import opened Judy
  import opened Decomposition
  import opened FreeSpace

  /** The start of slot i in a run that starts at a, with slots m indices apart. */
  function Slot(a: nat, m: nat, i: nat): nat {
    a + i * m
  }

  lemma SlotStep(a: nat, m: nat, i: nat)
    ensures Slot(a, m, 0) == a
    ensures Slot(a, m, i + 1) == Slot(a, m, i) + m
  {
    assert (i + 1) * m == i * m + m;
  }

  lemma {:induction false} SlotsApart(a: nat, m: nat, i: nat, j: nat)
    requires i < j
    ensures Slot(a, m, i) + m <= Slot(a, m, j)
  {
    SlotStep(a, m, j - 1);
    if i < j - 1 {
      SlotsApart(a, m, i, j - 1);
    }
  }

  lemma {:induction false} SlotAligned(a: nat, top: nat, i: nat)
    requires Aligned(a, top)
    ensures Aligned(Slot(a, Pow2(top), i), top)
  {
    hide Slot, Aligned, Pow2;
    SlotStep(a, Pow2(top), i);
    if i > 0 {
      SlotStep(a, Pow2(top), i - 1);
      SlotAligned(a, top, i - 1);
      Pow2Aligned(top, top);
      AlignedSum(Slot(a, Pow2(top), i - 1), Pow2(top), top);
    }
  }

  ghost function SlotSet(a: nat, m: nat, count: nat): set<nat> {
    set i | 0 <= i < count :: Slot(a, m, i)
  }

  lemma SlotSetStep(a: nat, m: nat, count: nat)
    ensures SlotSet(a, m, count + 1) == SlotSet(a, m, count) + {Slot(a, m, count)}
    ensures m > 0 ==> Slot(a, m, count) !in SlotSet(a, m, count)
  {
    hide Slot;
    forall i | 0 <= i < count
      ensures m > 0 ==> Slot(a, m, i) != Slot(a, m, count)
    {
      SlotsApart(a, m, i, count);
    }
  }

  /** The in-use blocks after a run of count blocks of one size is taken at a. */
  ghost function WithRun(inuse: Blocks, a: nat, m: nat, size: nat, count: nat): Blocks {
    map b | b in inuse.Keys + SlotSet(a, m, count) :: if b in SlotSet(a, m, count) then size else inuse[b]
  }

  lemma WithRunStep(inuse: Blocks, a: nat, m: nat, size: nat, count: nat)
    ensures WithRun(inuse, a, m, size, 0) == inuse
    ensures WithRun(inuse, a, m, size, count + 1) == WithRun(inuse, a, m, size, count)[Slot(a, m, count) := size]
  {
    hide Slot;
    SlotSetStep(a, m, count);
  }

  /** The in-use blocks after the first count slots of a run are given back. */
  ghost function WithoutRun(inuse: Blocks, a: nat, m: nat, count: nat): Blocks {
    inuse - SlotSet(a, m, count)
  }

  lemma WithoutRunStep(inuse: Blocks, a: nat, m: nat, count: nat)
    ensures WithoutRun(inuse, a, m, 0) == inuse
    ensures WithoutRun(inuse, a, m, count + 1) == WithoutRun(inuse, a, m, count) - {Slot(a, m, count)}
  {
    hide Slot;
    SlotSetStep(a, m, count);
  }

  /** count in-use blocks of one size, m apart from a on. */
  predicate RunInUse(inuse: Blocks, a: nat, m: nat, size: nat, count: nat) {
    forall i :: 0 <= i < count ==> IsBlock(inuse, Slot(a, m, i), size)
  }

  predicate IsBlock(inuse: Blocks, index: nat, size: nat) {
    index in inuse && inuse[index] == size
  }

  lemma RunStillInUse(inuse: Blocks, a: nat, m: nat, size: nat, count: nat, i: nat)
    requires RunInUse(inuse, a, m, size, count) && i < count && m > 0
    ensures IsBlock(WithoutRun(inuse, a, m, i), Slot(a, m, i), size)
  {
    hide Slot;
    SlotSetStep(a, m, i);
    assert IsBlock(inuse, Slot(a, m, i), size);
  }

  /** A run just taken is in use, ready to be given back. */
  lemma WithRunInUse(inuse: Blocks, a: nat, m: nat, size: nat, count: nat)
    ensures RunInUse(WithRun(inuse, a, m, size, count), a, m, size, count)
  {
    hide Slot;
    forall i | 0 <= i < count
      ensures IsBlock(WithRun(inuse, a, m, size, count), Slot(a, m, i), size)
    {
      assert Slot(a, m, i) in SlotSet(a, m, count);
    }
  }

  /** Giving a run back undoes taking it. */
  lemma WithoutWithRun(inuse: Blocks, a: nat, m: nat, size: nat, count: nat)
    requires SlotSet(a, m, count) !! inuse.Keys
    ensures WithoutRun(WithRun(inuse, a, m, size, count), a, m, count) == inuse
  {
    hide Slot;
  }

  /** count slots, m apart from a on, whose first size indices are free. */
  ghost predicate SlotsFree(inuse: Blocks, total: nat, m: nat, a: nat, size: nat, count: nat) {
    forall i :: 0 <= i < count ==> FreeRange(inuse, total, Slot(a, m, i), Slot(a, m, i) + size)
  }

  /** The same, read off the list of top-class chunks. */
  ghost predicate SlotsStored(list: map<nat, nat>, m: nat, a: nat, size: nat, count: nat) {
    forall i :: 0 <= i < count ==> SlotStored(list, Slot(a, m, i), size)
  }

  ghost predicate SlotStored(list: map<nat, nat>, slot: nat, size: nat) {
    slot in list && list[slot] >= size
  }

  lemma NextMultiple(a: nat, index: nat, align: nat)
    requires align > 0 && index % align == 0
    ensures (index + align) % align == 0
    ensures a % align == 0 && index <= a ==> a == index || index + align <= a
  {
    var p, q := a / align, index / align;
    assert index == q * align;
    assert index + align == (q + 1) * align;
    DivUnique(index + align, align, q + 1, 0);
    if a % align == 0 && index < a {
      assert a == p * align;
      if p <= q {
        MulMonotone(p, q, align);
      } else {
        MulMonotone(q + 1, p, align);
      }
    }
  }

  /** The scan of alloc_int_v2: the lowest multiple of align where count slots are stored with size indices. */
  method FindRun(list: map<nat, nat>, m: nat, size: nat, count: nat, align: nat, ghost total: nat)
    returns (found: bool, freeIndex: seq<nat>, freeSize: seq<nat>)
    requires count > 0 && align > 0
    requires forall k :: k in list ==> k < total
    ensures |freeIndex| == count == |freeSize|
    ensures !found ==> forall a: nat :: SlotsStored(list, m, a, size, count) ==> a % align != 0
    ensures found ==>
              && freeIndex[0] % align == 0
              && SlotsStored(list, m, freeIndex[0], size, count)
              && (forall a: nat :: SlotsStored(list, m, a, size, count) && a % align == 0 ==> freeIndex[0] <= a)
              && (forall i :: 0 <= i < count ==> freeIndex[i] == Slot(freeIndex[0], m, i))
              && (forall i :: 0 <= i < count ==> freeIndex[i] in list && freeSize[i] == list[freeIndex[i]])
  {
    hide Slot;
    freeIndex, freeSize := seq(count, _ => 0), seq(count, _ => 0);
    found := false;
    var index: nat := 0;
    while true
      invariant |freeIndex| == count == |freeSize|
      invariant index % align == 0
      invariant forall a: nat :: SlotsStored(list, m, a, size, count) && a % align == 0 ==> index <= a
      decreases total - index
    {
      var nextIndex := index + align;
      var head := First(list.Keys, index);
      if head.None? {
        forall a: nat | SlotsStored(list, m, a, size, count)
          ensures a % align != 0
        {
          StartStored(list, m, a, size, count);
        }
        return;
      }
      forall a: nat | SlotsStored(list, m, a, size, count) && a % align == 0
        ensures head.value <= a && (a == index || nextIndex <= a)
      {
        StartStored(list, m, a, size, count);
        NextMultiple(a, index, align);
      }
      NextMultiple(0, index, align);
      index := head.value;
      if index % align != 0 {
        index := nextIndex;
        continue;
      }
      var complete;
      complete, freeIndex, freeSize := CheckRun(list, m, size, count, index);
      if complete {
        SlotStep(index, m, 0);
        return true, freeIndex, freeSize;
      }
      index := nextIndex;
    }
  }

  lemma StartStored(list: map<nat, nat>, m: nat, a: nat, size: nat, count: nat)
    requires count > 0 && SlotsStored(list, m, a, size, count)
    ensures a in list.Keys
  {
    hide Slot;
    SlotStep(a, m, 0);
    assert SlotStored(list, Slot(a, m, 0), size);
  }

  /** The inner loop of the scan: follows the slots from start on while they are large enough. */
  method CheckRun(list: map<nat, nat>, m: nat, size: nat, count: nat, start: nat)
    returns (complete: bool, freeIndex: seq<nat>, freeSize: seq<nat>)
    requires start in list
    ensures |freeIndex| == count == |freeSize|
    ensures complete <==> SlotsStored(list, m, start, size, count)
    ensures complete ==> forall i :: 0 <= i < count ==>
                                       && freeIndex[i] == Slot(start, m, i)
                                       && freeIndex[i] in list && freeSize[i] == list[freeIndex[i]]
  {
    hide Slot;
    freeIndex, freeSize := seq(count, _ => 0), seq(count, _ => 0);
    var i := 0;
    var index := start;
    SlotStep(start, m, 0);
    while index in list && i < count
      invariant 0 <= i <= count && index == Slot(start, m, i)
      invariant |freeIndex| == count == |freeSize|
      invariant forall j :: 0 <= j < i ==> SlotStored(list, Slot(start, m, j), size)
      invariant forall j :: 0 <= j < i ==> freeIndex[j] == Slot(start, m, j)
      invariant forall j :: 0 <= j < i ==> freeIndex[j] in list && freeSize[j] == list[freeIndex[j]]
    {
      freeSize := freeSize[i := list[index]];
      freeIndex := freeIndex[i := index];
      if list[index] < size {
        break;
      }
      SlotStep(start, m, i);
      index := index + m;
      i := i + 1;
    }
    complete := i == count;
    if i < count {
      assert !SlotStored(list, Slot(start, m, i), size);
    }
  }

  /** list holds exactly the chunks of one class. */
  ghost predicate HoldsList(chunks: iset<Chunk>, log: nat, list: map<nat, nat>) {
    forall ch: Chunk :: ch.log == log ==> (ch in chunks <==> ch.start in list && list[ch.start] == ch.len)
  }

  /** A top-class slot is stored with size indices exactly when its first size indices are free. */
  lemma SlotStoredIff(inuse: Blocks, total: nat, lists: nat, list: map<nat, nat>, slot: nat, size: nat)
    requires 1 <= lists <= 32 && ValidBlocks(inuse, total) && total < TWO_32
    requires HoldsList(FreeChunks(inuse, total, lists), lists - 1, list)
    requires Aligned(slot, lists - 1) && 1 <= size < TWO_32 && Log2Ceil(size) == lists - 1
    ensures SlotStored(list, slot, size) <==> FreeRange(inuse, total, slot, slot + size)
  {
    hide FreeChunks, ValidBlocks, Log2Ceil, Aligned, Pow2, WellFormed, FreeRange;
    Log2CeilBounds(size);
    if SlotStored(list, slot, size) {
      var ch := Chunk(lists - 1, slot, list[slot]);
      assert ch in FreeChunks(inuse, total, lists);
      FreeChunkIsFree(inuse, total, lists, ch);
      SubRangeFree(inuse, total, slot, slot + list[slot], slot, slot + size);
    }
    if FreeRange(inuse, total, slot, slot + size) {
      var ch := AlignedRunInChunk(inuse, total, lists, slot, size);
      TopChunkAt(inuse, total, lists, ch, slot);
      assert ch == Chunk(lists - 1, slot, ch.len);
    }
  }

  lemma TopChunkAt(inuse: Blocks, total: nat, lists: nat, ch: Chunk, slot: nat)
    requires 1 <= lists <= 32 && ValidBlocks(inuse, total) && total < TWO_32
    requires ch in FreeChunks(inuse, total, lists) && lists - 1 <= ch.log
    requires Aligned(slot, lists - 1) && ch.start <= slot < ch.End()
    ensures ch.log == lists - 1 && ch.start == slot
  {
    hide FreeChunks, ValidBlocks, Aligned, Pow2;
    FreeChunkIsFree(inuse, total, lists, ch);
    if ch.start < slot {
      AlignedApart(ch.start, slot, ch.log);
    }
  }

  lemma RunStoredIff(inuse: Blocks, total: nat, lists: nat, list: map<nat, nat>, a: nat, size: nat, count: nat)
    requires 1 <= lists <= 32 && ValidBlocks(inuse, total) && total < TWO_32
    requires HoldsList(FreeChunks(inuse, total, lists), lists - 1, list)
    requires 1 <= size < TWO_32 && Log2Ceil(size) == lists - 1 && count > 0
    ensures SlotsStored(list, Pow2(lists - 1), a, size, count)
       <==> Aligned(a, lists - 1) && SlotsFree(inuse, total, Pow2(lists - 1), a, size, count)
  {
    hide FreeChunks, ValidBlocks, Log2Ceil, Aligned, Pow2, FreeRange, Slot, SlotStored;
    var m := Pow2(lists - 1);
    if SlotsStored(list, m, a, size, count) {
      TopKeyAligned(inuse, total, lists, list, a, size, count);
    }
    if Aligned(a, lists - 1) {
      forall i | 0 <= i < count
        ensures SlotStored(list, Slot(a, m, i), size) <==> FreeRange(inuse, total, Slot(a, m, i), Slot(a, m, i) + size)
      {
        SlotAligned(a, lists - 1, i);
        SlotStoredIff(inuse, total, lists, list, Slot(a, m, i), size);
      }
    }
  }

  lemma TopKeyAligned(inuse: Blocks, total: nat, lists: nat, list: map<nat, nat>, a: nat, size: nat, count: nat)
    requires 1 <= lists <= 32 && ValidBlocks(inuse, total) && total < TWO_32
    requires HoldsList(FreeChunks(inuse, total, lists), lists - 1, list)
    requires count > 0 && SlotsStored(list, Pow2(lists - 1), a, size, count)
    ensures Aligned(a, lists - 1)
  {
    hide FreeChunks, ValidBlocks, Aligned, Pow2;
    StartStored(list, Pow2(lists - 1), a, size, count);
    var ch := Chunk(lists - 1, a, list[a]);
    assert ch in FreeChunks(inuse, total, lists);
    FreeChunkIsFree(inuse, total, lists, ch);
  }

  /** A run of free slots lies inside the allocator with its last slot whole. */
  lemma RunFits(inuse: Blocks, total: nat, top: nat, a: nat, size: nat, count: nat)
    requires Aligned(total, top) && Aligned(a, top) && count > 0 && size > 0
    requires SlotsFree(inuse, total, Pow2(top), a, size, count)
    ensures a + Pow2(top) * count <= total
  {
    hide Aligned, Pow2, InUse;
    var m := Pow2(top);
    var last := Slot(a, m, count - 1);
    assert FreeRange(inuse, total, last, last + size);
    assert Free(inuse, total, last);
    SlotAligned(a, top, count - 1);
    AlignedApart(last, total, top);
    assert (count - 1) * m + m == m * count;
  }

  /** A run that alloc_multiple may return: aligned to the least power of two that holds all its slots. */
  ghost predicate RunAt(inuse: Blocks, total: nat, m: nat, size: nat, count: nat, a: nat) {
    && m * count < TWO_32
    && Aligned(a, Log2Ceil(m * count))
    && SlotsFree(inuse, total, m, a, size, count)
  }

  lemma RunAligned(top: nat, count: nat, a: nat)
    requires count > 0 && Pow2(top) * count < TWO_32 && Aligned(a, Log2Ceil(Pow2(top) * count))
    ensures Aligned(a, top)
  {
    hide Aligned, Log2Ceil, Pow2;
    var length := Pow2(top) * count;
    MulMonotone(1, count, Pow2(top));
    if Log2Ceil(length) < top {
      Log2CeilIff(length, Log2Ceil(length));
      Pow2Monotone(Log2Ceil(length), top);
    } else {
      AlignedDown(a, Log2Ceil(length), top);
    }
  }

  /** The scan's search space, in the source's terms: the request's length taken in 32 bits, and its alignment. */
  lemma SearchIsExact(inuse: Blocks, total: nat, top: nat, size: nat, count: nat, a: nat)
    requires total < TWO_32 && Aligned(total, top) && count > 0 && size > 0
    ensures var length := Pow2(top) * count % TWO_32;
            RunAt(inuse, total, Pow2(top), size, count, a) <==>
            (length <= total && a % Pow2(Log2Ceil(length)) == 0 && Aligned(a, top)
             && SlotsFree(inuse, total, Pow2(top), a, size, count))
  {
    hide Aligned, Log2Ceil, Pow2, SlotsFree;
    var exact := Pow2(top) * count;
    var length := exact % TWO_32;
    AlignedIffRemainder(a, Log2Ceil(length));
    if RunAt(inuse, total, Pow2(top), size, count, a) {
      RunAligned(top, count, a);
      RunFits(inuse, total, top, a, size, count);
    } else if Aligned(a, top) && SlotsFree(inuse, total, Pow2(top), a, size, count) {
      RunFits(inuse, total, top, a, size, count);
    }
  }

  lemma SearchIsExactEverywhere(inuse: Blocks, total: nat, top: nat, size: nat, count: nat)
    requires total < TWO_32 && Aligned(total, top) && count > 0 && size > 0
    ensures var length := Pow2(top) * count % TWO_32;
            forall a: nat :: RunAt(inuse, total, Pow2(top), size, count, a) <==>
                             (length <= total && a % Pow2(Log2Ceil(length)) == 0 && Aligned(a, top)
                              && SlotsFree(inuse, total, Pow2(top), a, size, count))
  {
    hide Aligned, Log2Ceil, Pow2, SlotsFree, RunAt;
    forall a: nat {
      SearchIsExact(inuse, total, top, size, count, a);
    }
  }
}
