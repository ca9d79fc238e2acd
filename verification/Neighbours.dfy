/** The in-use neighbours of an index, and the checks that reserve makes with them. */
module Neighbours {
  import opened BitUtils
  import opened Judy
  import opened FreeSpace

  function PrevEnd(inuse: Blocks, index: nat): nat {
    match Prev(inuse.Keys, index)
    case None => 0
    case Some(b) => b + inuse[b]
  }

  function NextStart(inuse: Blocks, total: nat, index: nat): nat {
    match Next(inuse.Keys, index)
    case None => total
    case Some(b) => b
  }

  lemma AroundBlock(inuse: Blocks, total: nat, a: nat)
    requires ValidBlocks(inuse, total) && a in inuse
    ensures var s, e := PrevEnd(inuse, a), NextStart(inuse, total, a);
            && s in Starts(inuse) && s <= a && GapEnd(inuse, total, s) == a
            && a + inuse[a] <= e <= total && GapEnd(inuse, total, a + inuse[a]) == e
  {
    hide First, Prev;
    var e := NextStart(inuse, total, a);
    assert forall b :: b in inuse.Keys ==> b in inuse;
    assert First(inuse.Keys, PrevEnd(inuse, a)).Some?;
    assert forall b :: b in inuse.Keys && a < b ==> a + inuse[a] <= b;
  }

  /** The source's three range checks before it reserves, with the sum taken in 32 bits. */
  predicate ReserveAccepts(inuse: Blocks, total: nat, index: nat, size: nat) {
    && index !in inuse
    && PrevEnd(inuse, index) <= index
    && (index + size) % TWO_32 <= NextStart(inuse, total, index)
  }

  lemma AroundFreeIndex(inuse: Blocks, total: nat, a: nat)
    requires ValidBlocks(inuse, total) && a !in inuse && PrevEnd(inuse, a) <= a <= total
    ensures var s := PrevEnd(inuse, a);
            s in Starts(inuse) && GapEnd(inuse, total, s) == NextStart(inuse, total, a)
  {
    hide First, Prev;
    assert forall b :: b in inuse.Keys <==> b in inuse;
  }

  lemma NotInUse(inuse: Blocks, total: nat, a: nat)
    requires ValidBlocks(inuse, total)
    ensures !InUse(inuse, a) <==> a !in inuse && PrevEnd(inuse, a) <= a
  {
    hide First, Prev;
    assert forall b :: b in inuse.Keys <==> b in inuse;
    if a in inuse {
      assert a <= a < a + inuse[a];
    }
    match Prev(inuse.Keys, a) {
      case None =>
      case Some(b) =>
        if a < b + inuse[b] {
          assert InUse(inuse, a);
        }
    }
  }

  lemma FreeRangeAround(inuse: Blocks, total: nat, a: nat, size: nat)
    requires ValidBlocks(inuse, total) && 1 <= size
    ensures FreeRange(inuse, total, a, a + size)
       <==> !InUse(inuse, a) && a + size <= NextStart(inuse, total, a)
  {
    hide First, Prev, Starts, GapEnd, PrevEnd, InUse;
    NotInUse(inuse, total, a);
    NextStartFacts(inuse, total, a);
    if !InUse(inuse, a) && a + size <= NextStart(inuse, total, a) {
      AroundFreeIndex(inuse, total, a);
      GapIsFree(inuse, total, PrevEnd(inuse, a));
    }
    if FreeRange(inuse, total, a, a + size) {
      assert Free(inuse, total, a) && Free(inuse, total, a + size - 1);
      assert !Free(inuse, total, NextStart(inuse, total, a));
    }
  }

  lemma NextStartFacts(inuse: Blocks, total: nat, a: nat)
    requires ValidBlocks(inuse, total)
    ensures NextStart(inuse, total, a) <= total
    ensures a < total ==> a < NextStart(inuse, total, a)
    ensures NextStart(inuse, total, a) < total ==> InUse(inuse, NextStart(inuse, total, a))
  {
    hide First;
    assert forall b :: b in inuse.Keys <==> b in inuse;
    var e := NextStart(inuse, total, a);
    if e < total {
      assert e <= e < e + inuse[e];
    }
  }

  /** What the checks decide: that the range is free, unless the 32-bit sum wraps back below the next block. */
  lemma ReserveExact(inuse: Blocks, total: nat, index: nat, size: nat)
    requires ValidBlocks(inuse, total) && total < INT_LIMIT
    requires index < TWO_32 && 1 <= size < TWO_32
    ensures (ReserveAccepts(inuse, total, index, size) <==> FreeRange(inuse, total, index, index + size))
       <==> !(index + size >= TWO_32 && !InUse(inuse, index)
              && index + size - TWO_32 <= NextStart(inuse, total, index))
  {
    hide First, Prev, PrevEnd, NextStart, InUse, FreeRange, ValidBlocks;
    NotInUse(inuse, total, index);
    NextStartFacts(inuse, total, index);
    FreeRangeAround(inuse, total, index, size);
    if index + size >= TWO_32 {
      assert (index + size) % TWO_32 == index + size - TWO_32;
    } else {
      assert (index + size) % TWO_32 == index + size;
    }
  }

  /** An empty allocator of 8 indices accepts 2^32 - 4 indices from index 6: the sum wraps to 2. */
  lemma ReserveWraps()
    ensures ReserveAccepts(map[], 8, 6, TWO_32 - 4)
    ensures !FreeRange(map[], 8, 6, 6 + (TWO_32 - 4))
  {
    assert !Free(map[], 8, 8);
  }
}
