/** The free space that a set of in-use blocks leaves, and its chunks.

    FreeChunks is the allocator's unstated invariant: what the free lists must hold, as a
    function of the in-use blocks alone.  FreeChunksAreMaximal gives it without any reference to
    gaps or to the splitting loop: an entry is a free block, aligned for its list, that no other
    such block contains. */
module FreeSpace {
  import opened BitUtils
  import opened Decomposition
  import opened Judy

  /** Start index to size, the allocator's inuse_list. */
  type Blocks = map<nat, nat>

  ghost predicate ValidBlocks(inuse: Blocks, total: nat) {
    && (forall b :: b in inuse ==> 1 <= inuse[b] && b + inuse[b] <= total)
    && (forall b, c :: b in inuse && c in inuse && b < c ==> b + inuse[b] <= c)
  }

  ghost predicate InUse(inuse: Blocks, i: nat) {
    exists b :: b in inuse && b <= i < b + inuse[b]
  }

  ghost predicate Free(inuse: Blocks, total: nat, i: nat) {
    i < total && !InUse(inuse, i)
  }

  ghost predicate FreeRange(inuse: Blocks, total: nat, lo: nat, hi: nat) {
    forall i :: lo <= i < hi ==> Free(inuse, total, i)
  }

  lemma SubRangeFree(inuse: Blocks, total: nat, lo: nat, hi: nat, lo': nat, hi': nat)
    requires FreeRange(inuse, total, lo, hi) && lo <= lo' && hi' <= hi
    ensures FreeRange(inuse, total, lo', hi')
  {
  }

  /** Where a gap can start: at 0 or at the end of a block. */
  ghost function Starts(inuse: Blocks): set<nat> {
    {0} + set b | b in inuse :: b + inuse[b]
  }

  /** Where the gap that starts at s ends. */
  ghost function GapEnd(inuse: Blocks, total: nat, s: nat): nat {
    match First(inuse.Keys, s)
    case None => total
    case Some(b) => b
  }

  lemma StartsInside(inuse: Blocks, total: nat, s: nat)
    requires ValidBlocks(inuse, total) && s in Starts(inuse)
    ensures s <= GapEnd(inuse, total, s) <= total
  {
  }

  ghost predicate IsFreeChunk(inuse: Blocks, total: nat, lists: nat, s: nat, ch: Chunk)
    requires 1 <= lists <= 32 && ValidBlocks(inuse, total) && total < TWO_32
    requires s in Starts(inuse)
  {
    StartsInside(inuse, total, s);
    ch in Greedy(s, GapEnd(inuse, total, s), lists)
  }

  ghost function FreeChunks(inuse: Blocks, total: nat, lists: nat): iset<Chunk>
    requires 1 <= lists <= 32 && ValidBlocks(inuse, total) && total < TWO_32
  {
    iset ch: Chunk | InSomeGap(inuse, total, lists, ch)
  }

  ghost predicate InSomeGap(inuse: Blocks, total: nat, lists: nat, ch: Chunk)
    requires 1 <= lists <= 32 && ValidBlocks(inuse, total) && total < TWO_32
  {
    exists s :: s in Starts(inuse) && IsFreeChunk(inuse, total, lists, s, ch)
  }

  // ----- Gaps

  /** A block lies between any two starts, so different gaps do not touch. */
  lemma GapsApart(inuse: Blocks, total: nat, s: nat, t: nat)
    requires ValidBlocks(inuse, total) && s in Starts(inuse) && t in Starts(inuse) && s < t
    ensures GapEnd(inuse, total, s) < t
  {
    var b :| b in inuse && t == b + inuse[b];
    if b < s {
      BlockBeforeStart(inuse, total, b, s);
    }
  }

  /** A gap's indices are free, and a gap stops at an in-use index or at the total. */
  lemma GapIsFree(inuse: Blocks, total: nat, s: nat)
    requires ValidBlocks(inuse, total) && s in Starts(inuse)
    ensures FreeRange(inuse, total, s, GapEnd(inuse, total, s))
    ensures !Free(inuse, total, GapEnd(inuse, total, s))
  {
    var e := GapEnd(inuse, total, s);
    StartsInside(inuse, total, s);
    forall i | s <= i < e
      ensures Free(inuse, total, i)
    {
      forall b | b in inuse
        ensures !(b <= i < b + inuse[b])
      {
        if b < s {
          BlockBeforeStart(inuse, total, b, s);
        }
      }
    }
    if e != total {
      assert e in inuse && e <= e < e + inuse[e];
    }
  }

  lemma BlockBeforeStart(inuse: Blocks, total: nat, b: nat, s: nat)
    requires ValidBlocks(inuse, total) && s in Starts(inuse) && b in inuse && b < s
    ensures b + inuse[b] <= s
  {
    var c :| c in inuse && s == c + inuse[c];
  }

  /** The end of the last block before a free index starts the gap that holds it. */
  lemma GapOf(inuse: Blocks, total: nat, i: nat) returns (s: nat)
    requires ValidBlocks(inuse, total) && Free(inuse, total, i)
    ensures s in Starts(inuse) && s <= i < GapEnd(inuse, total, s)
  {
    assert forall b :: b in inuse ==> !(b <= i < b + inuse[b]);
    match Prev(inuse.Keys, i) {
      case None => s := 0;
      case Some(b) => s := b + inuse[b];
    }
  }

  lemma FreeRangeInGap(inuse: Blocks, total: nat, lo: nat, hi: nat) returns (s: nat)
    requires ValidBlocks(inuse, total) && lo < hi && FreeRange(inuse, total, lo, hi)
    ensures s in Starts(inuse) && s <= lo && hi <= GapEnd(inuse, total, s)
  {
    s := GapOf(inuse, total, lo);
    GapIsFree(inuse, total, s);
  }

  // ----- The closed form

  ghost predicate MaximalFree(ch: Chunk, inuse: Blocks, total: nat, lists: nat) {
    && WellFormed(ch, lists)
    && FreeRange(inuse, total, ch.start, ch.End())
    && forall b: Chunk :: (WellFormed(b, lists) && FreeRange(inuse, total, b.start, b.End())
                           && ch.Within(b.start, b.End())) ==> b == ch
  }

  lemma MaximalInGap(inuse: Blocks, total: nat, lists: nat, s: nat, ch: Chunk)
    requires ValidBlocks(inuse, total) && s in Starts(inuse)
    requires ch.len > 0 && ch.Within(s, GapEnd(inuse, total, s))
    ensures Maximal(ch, s, GapEnd(inuse, total, s), lists) <==> MaximalFree(ch, inuse, total, lists)
  {
    hide GapEnd, Starts, InUse, Free, ValidBlocks;
    var e := GapEnd(inuse, total, s);
    GapIsFree(inuse, total, s);
    forall b: Chunk | WellFormed(b, lists) && ch.Within(b.start, b.End())
      ensures b.Within(s, e) <==> FreeRange(inuse, total, b.start, b.End())
    {
      if FreeRange(inuse, total, b.start, b.End()) {
        var t := FreeRangeInGap(inuse, total, b.start, b.End());
        SameGap(inuse, total, s, t, ch.start);
      }
    }
  }

  lemma SameGap(inuse: Blocks, total: nat, s: nat, t: nat, i: nat)
    requires ValidBlocks(inuse, total) && s in Starts(inuse) && t in Starts(inuse)
    requires s <= i < GapEnd(inuse, total, s) && t <= i < GapEnd(inuse, total, t)
    ensures s == t
  {
    if s < t {
      GapsApart(inuse, total, s, t);
    } else if t < s {
      GapsApart(inuse, total, t, s);
    }
  }

  /** The free lists' contents, said without gaps: the maximal aligned free blocks. */
  lemma FreeChunksAreMaximal(inuse: Blocks, total: nat, lists: nat, ch: Chunk)
    requires 1 <= lists <= 32 && ValidBlocks(inuse, total) && total < TWO_32
    ensures ch in FreeChunks(inuse, total, lists) <==> MaximalFree(ch, inuse, total, lists)
  {
    hide GapEnd, Starts, InUse, Free, ValidBlocks, Maximal;
    if ch in FreeChunks(inuse, total, lists) {
      var s :| s in Starts(inuse) && IsFreeChunk(inuse, total, lists, s, ch);
      StartsInside(inuse, total, s);
      var e := GapEnd(inuse, total, s);
      GreedyInside(s, e, lists, ch);
      GreedyIsMaximal(s, e, lists, ch);
      MaximalInGap(inuse, total, lists, s, ch);
    }
    if MaximalFree(ch, inuse, total, lists) {
      var s := FreeRangeInGap(inuse, total, ch.start, ch.End());
      StartsInside(inuse, total, s);
      MaximalInGap(inuse, total, lists, s, ch);
      GreedyIsMaximal(s, GapEnd(inuse, total, s), lists, ch);
      assert IsFreeChunk(inuse, total, lists, s, ch);
    }
  }

  // ----- Taking a block out of a gap, and giving it back

  lemma CarveKeepsValid(inuse: Blocks, total: nat, s: nat, a: nat, size: nat)
    requires ValidBlocks(inuse, total) && s in Starts(inuse)
    requires 1 <= size && s <= a && a + size <= GapEnd(inuse, total, s)
    ensures a !in inuse
    ensures ValidBlocks(inuse[a := size], total)
  {
    StartsInside(inuse, total, s);
    forall b | b in inuse && b < a
      ensures b + inuse[b] <= a
    {
      if b < s {
        BlockBeforeStart(inuse, total, b, s);
      }
    }
  }

  /** Which gaps there are after a block is put at a: the one at s is cut in two, the others stay. */
  lemma CarveGaps(inuse: Blocks, total: nat, s: nat, a: nat, size: nat)
    requires ValidBlocks(inuse, total) && s in Starts(inuse)
    requires 1 <= size && s <= a && a + size <= GapEnd(inuse, total, s)
    ensures Starts(inuse[a := size]) == Starts(inuse) + {a + size}
    ensures GapEnd(inuse[a := size], total, s) == a
    ensures GapEnd(inuse[a := size], total, a + size) == GapEnd(inuse, total, s)
    ensures forall t :: t in Starts(inuse) && t != s ==> t != a + size
    ensures forall t :: t in Starts(inuse) && t != s ==>
                        GapEnd(inuse[a := size], total, t) == GapEnd(inuse, total, t)
  {
    hide Starts, GapEnd, ValidBlocks;
    StartsInside(inuse, total, s);
    CarveKeepsValid(inuse, total, s, a, size);
    CarveStarts(inuse, a, size);
    CarveEnd(inuse, total, a, size, s);
    CarveEnd(inuse, total, a, size, a + size);
    forall t | t in Starts(inuse) && t != s
      ensures t != a + size && GapEnd(inuse[a := size], total, t) == GapEnd(inuse, total, t)
    {
      CarveEnd(inuse, total, a, size, t);
      if t < s {
        GapsApart(inuse, total, t, s);
      } else {
        GapsApart(inuse, total, s, t);
      }
    }
    GapEndSkips(inuse, total, s, a + size);
  }

  lemma CarveStarts(inuse: Blocks, a: nat, size: nat)
    requires a !in inuse
    ensures Starts(inuse[a := size]) == Starts(inuse) + {a + size}
  {
    var inuse' := inuse[a := size];
    forall b | b in inuse
      ensures b + inuse[b] in Starts(inuse')
    {
      assert b in inuse' && inuse'[b] == inuse[b];
    }
    assert a in inuse' && a + inuse'[a] == a + size;
  }

  lemma CarveEnd(inuse: Blocks, total: nat, a: nat, size: nat, t: nat)
    requires a < total
    ensures GapEnd(inuse[a := size], total, t)
         == if t <= a < GapEnd(inuse, total, t) || (t <= a && GapEnd(inuse, total, t) == total) then a
            else GapEnd(inuse, total, t)
  {
    assert inuse[a := size].Keys == inuse.Keys + {a};
  }

  lemma GapEndSkips(inuse: Blocks, total: nat, s: nat, t: nat)
    requires s <= t <= GapEnd(inuse, total, s)
    ensures GapEnd(inuse, total, t) == GapEnd(inuse, total, s)
  {
  }

  ghost predicate Outside(chunks: iset<Chunk>, lo: nat, hi: nat) {
    forall ch :: ch in chunks ==> (ch.start < lo && ch.End() <= lo) || hi <= ch.start
  }

  /** The chunks of all gaps but the one at s. */
  ghost function OtherChunks(inuse: Blocks, total: nat, lists: nat, s: nat): iset<Chunk>
    requires 1 <= lists <= 32 && ValidBlocks(inuse, total) && total < TWO_32
  {
    iset ch: Chunk | InOtherGap(inuse, total, lists, s, ch)
  }

  ghost predicate InOtherGap(inuse: Blocks, total: nat, lists: nat, s: nat, ch: Chunk)
    requires 1 <= lists <= 32 && ValidBlocks(inuse, total) && total < TWO_32
  {
    exists t :: t in Starts(inuse) && t != s && IsFreeChunk(inuse, total, lists, t, ch)
  }

  lemma FreeChunksByGap(inuse: Blocks, total: nat, lists: nat, s: nat)
    requires 1 <= lists <= 32 && ValidBlocks(inuse, total) && total < TWO_32
    requires s in Starts(inuse)
    ensures s <= GapEnd(inuse, total, s) <= total
    ensures FreeChunks(inuse, total, lists)
         == OtherChunks(inuse, total, lists, s) + Greedy(s, GapEnd(inuse, total, s), lists)
    ensures Outside(OtherChunks(inuse, total, lists, s), s, GapEnd(inuse, total, s))
  {
    hide Greedy, Starts, GapEnd, ValidBlocks;
    StartsInside(inuse, total, s);
    forall ch | ch in OtherChunks(inuse, total, lists, s)
      ensures (ch.start < s && ch.End() <= s) || GapEnd(inuse, total, s) <= ch.start
    {
      var t :| t in Starts(inuse) && t != s && IsFreeChunk(inuse, total, lists, t, ch);
      StartsInside(inuse, total, t);
      GreedyInside(t, GapEnd(inuse, total, t), lists, ch);
      if t < s {
        GapsApart(inuse, total, t, s);
      } else {
        GapsApart(inuse, total, s, t);
      }
    }
    assert forall ch :: ch in Greedy(s, GapEnd(inuse, total, s), lists) <==> IsFreeChunk(inuse, total, lists, s, ch);
  }

  /** Putting a block into a gap changes only that gap's chunks. */
  lemma Carve(inuse: Blocks, total: nat, lists: nat, s: nat, a: nat, size: nat)
    requires 1 <= lists <= 32 && ValidBlocks(inuse, total) && total < TWO_32
    requires s in Starts(inuse) && GapEnd(inuse, total, s) <= total
    requires 1 <= size && s <= a && a + size <= GapEnd(inuse, total, s)
    ensures a !in inuse && ValidBlocks(inuse[a := size], total)
    ensures FreeChunks(inuse[a := size], total, lists)
         == OtherChunks(inuse, total, lists, s)
          + (Greedy(s, a, lists) + Greedy(a + size, GapEnd(inuse, total, s), lists))
  {
    hide Greedy, Starts, GapEnd, ValidBlocks;
    CarveKeepsValid(inuse, total, s, a, size);
    CarveGaps(inuse, total, s, a, size);
    var inuse' := inuse[a := size];
    forall t, ch | t in Starts(inuse) && t != s
      ensures IsFreeChunk(inuse', total, lists, t, ch) <==> IsFreeChunk(inuse, total, lists, t, ch)
    {
    }
    forall ch
      ensures ch in FreeChunks(inuse', total, lists) <==>
              (ch in OtherChunks(inuse, total, lists, s) || ch in Greedy(s, a, lists)
               || ch in Greedy(a + size, GapEnd(inuse, total, s), lists))
    {
      if ch in Greedy(s, a, lists) {
        assert IsFreeChunk(inuse', total, lists, s, ch);
      } else if ch in Greedy(a + size, GapEnd(inuse, total, s), lists) {
        assert IsFreeChunk(inuse', total, lists, a + size, ch);
      }
    }
  }

  lemma FreeChunkFacts(inuse: Blocks, total: nat, lists: nat, ch: Chunk) returns (s: nat)
    requires 1 <= lists <= 32 && ValidBlocks(inuse, total) && total < TWO_32
    requires ch in FreeChunks(inuse, total, lists)
    ensures s in Starts(inuse) && s <= ch.start && ch.End() <= GapEnd(inuse, total, s) <= total
    ensures ch in Greedy(s, GapEnd(inuse, total, s), lists)
    ensures WellFormed(ch, lists)
  {
    hide Greedy, Starts, GapEnd, ValidBlocks, WellFormed;
    s :| s in Starts(inuse) && IsFreeChunk(inuse, total, lists, s, ch);
    StartsInside(inuse, total, s);
    GreedyInside(s, GapEnd(inuse, total, s), lists, ch);
  }

  /** Two different free chunks do not overlap. */
  lemma FreeChunksDisjoint(inuse: Blocks, total: nat, lists: nat, ch: Chunk)
    requires 1 <= lists <= 32 && ValidBlocks(inuse, total) && total < TWO_32
    requires ch in FreeChunks(inuse, total, lists)
    ensures Outside(FreeChunks(inuse, total, lists) - iset{ch}, ch.start, ch.End())
  {
    hide Greedy, Starts, GapEnd, ValidBlocks;
    var s := FreeChunkFacts(inuse, total, lists, ch);
    var e := GapEnd(inuse, total, s);
    FreeChunksByGap(inuse, total, lists, s);
    forall b | b in FreeChunks(inuse, total, lists) && b != ch
      ensures (b.start < ch.start && b.End() <= ch.start) || ch.End() <= b.start
    {
      if b in Greedy(s, e, lists) {
        GreedyInside(s, e, lists, b);
        var i := if ch.start < b.start then b.start else ch.start;
        if b.Covers(i) && ch.Covers(i) {
          GreedyDisjoint(s, e, lists, b, ch, i);
        }
      }
    }
  }

  /** Carving a block out of one chunk changes the cut of that chunk only. */
  lemma CarveChunk(inuse: Blocks, total: nat, lists: nat, ch: Chunk, a: nat, size: nat)
    requires 1 <= lists <= 32 && ValidBlocks(inuse, total) && total < TWO_32
    requires ch in FreeChunks(inuse, total, lists) && ch.End() <= total
    requires 1 <= size && ch.start <= a && a + size <= ch.End()
    ensures a !in inuse && ValidBlocks(inuse[a := size], total)
    ensures FreeChunks(inuse[a := size], total, lists)
         == (FreeChunks(inuse, total, lists) - iset{ch})
          + Greedy(ch.start, a, lists) + Greedy(a + size, ch.End(), lists)
  {
    hide Greedy, Starts, GapEnd, ValidBlocks, FreeChunks, OtherChunks, WellFormed;
    var s := FreeChunkFacts(inuse, total, lists, ch);
    var e := GapEnd(inuse, total, s);
    Carve(inuse, total, lists, s, a, size);
    FreeChunksByGap(inuse, total, lists, s);
    GreedySplit(s, e, lists, ch);
    GreedyPrefix(s, e, lists, ch, a);
    ComposeAtChunkEnd(s, e, lists, ch, a + size);
    var others, before, after := OtherChunks(inuse, total, lists, s), Greedy(s, ch.start, lists),
        Greedy(ch.End(), e, lists);
    assert ch !in others && ch !in before && ch !in after by {
      if ch in before {
        GreedyInside(s, ch.start, lists, ch);
      }
      if ch in after {
        GreedyInside(ch.End(), e, lists, ch);
      }
    }
    Regroup(others, before, iset{ch}, after, Greedy(ch.start, a, lists), Greedy(a + size, ch.End(), lists));
  }

  lemma Regroup<T(!new)>(others: iset<T>, before: iset<T>, ch: iset<T>, after: iset<T>, left: iset<T>, right: iset<T>)
    requires ch !! others && ch !! before && ch !! after
    ensures others + (before + left) + (right + after)
         == ((others + (before + ch + after)) - ch) + left + right
  {
  }

  lemma ComposeAtChunkEnd(s: nat, e: nat, lists: nat, ch: Chunk, x: nat)
    requires 1 <= lists <= 32 && s <= e < TWO_32 && ch in Greedy(s, e, lists)
    requires ch.start < x <= ch.End()
    ensures ch.End() <= e
    ensures Greedy(x, e, lists) == Greedy(x, ch.End(), lists) + Greedy(ch.End(), e, lists)
  {
    hide Greedy;
    GreedyInside(s, e, lists, ch);
    if ch.End() == e {
      GreedyEmpty(e, lists);
    } else {
      Pow2Aligned(ch.log, ch.log);
      AlignedSum(ch.start, Pow2(ch.log), ch.log);
      GreedyCompose(x, ch.End(), e, lists, ch.log);
    }
  }

  /** The gap around a block that is taken back. */
  lemma Restore(inuse: Blocks, total: nat, lists: nat, s: nat, a: nat, e: nat)
    requires 1 <= lists <= 32 && ValidBlocks(inuse, total) && total < TWO_32
    requires a in inuse && a + inuse[a] <= e <= total
    requires s in Starts(inuse) && s <= a && GapEnd(inuse, total, s) == a
    requires GapEnd(inuse, total, a + inuse[a]) == e
    ensures ValidBlocks(inuse - {a}, total)
    ensures FreeChunks(inuse - {a}, total, lists)
         == (FreeChunks(inuse, total, lists) - Greedy(s, a, lists) - Greedy(a + inuse[a], e, lists))
          + Greedy(s, e, lists)
    ensures Greedy(s, a, lists) <= FreeChunks(inuse, total, lists)
    ensures Greedy(a + inuse[a], e, lists) <= FreeChunks(inuse, total, lists) - Greedy(s, a, lists)
    ensures Outside(FreeChunks(inuse, total, lists) - Greedy(s, a, lists) - Greedy(a + inuse[a], e, lists), s, e)
  {
    hide Greedy, FreeChunks, OtherChunks, Starts, GapEnd;
    var inuse', size := inuse - {a}, inuse[a];
    assert inuse'[a := size] == inuse;
    RestoreGap(inuse, total, s, a, e);
    FreeChunksByGap(inuse', total, lists, s);
    Carve(inuse', total, lists, s, a, size);
    OutsideParts(OtherChunks(inuse', total, lists, s), s, a, size, e, lists);
  }

  lemma OutsideParts(others: iset<Chunk>, s: nat, a: nat, size: nat, e: nat, lists: nat)
    requires 1 <= lists <= 32 && s <= a && a + size <= e < TWO_32
    requires Outside(others, s, e)
    ensures others + (Greedy(s, a, lists) + Greedy(a + size, e, lists))
            - Greedy(s, a, lists) - Greedy(a + size, e, lists) == others
    ensures Greedy(s, a, lists) !! Greedy(a + size, e, lists)
  {
    hide Greedy;
    forall ch | ch in Greedy(s, a, lists)
      ensures ch !in Greedy(a + size, e, lists)
    {
      GreedyInside(s, a, lists, ch);
      NotInLaterCut(a + size, e, lists, ch);
    }
    forall ch | ch in Greedy(s, a, lists) + Greedy(a + size, e, lists)
      ensures ch !in others
    {
      if ch in Greedy(s, a, lists) {
        GreedyInside(s, a, lists, ch);
      } else {
        GreedyInside(a + size, e, lists, ch);
      }
    }
  }

  /** Giving back a block that starts at a multiple of the largest chunk leaves the chunks before it alone. */
  lemma RestoreAtMultiple(inuse: Blocks, total: nat, lists: nat, s: nat, a: nat, e: nat)
    requires 1 <= lists <= 32 && ValidBlocks(inuse, total) && total < TWO_32
    requires a in inuse && a + inuse[a] <= e <= total && Aligned(a, lists - 1)
    requires s in Starts(inuse) && s <= a && GapEnd(inuse, total, s) == a
    requires GapEnd(inuse, total, a + inuse[a]) == e
    ensures ValidBlocks(inuse - {a}, total)
    ensures FreeChunks(inuse - {a}, total, lists)
         == (FreeChunks(inuse, total, lists) - Greedy(a + inuse[a], e, lists)) + Greedy(a, e, lists)
    ensures Greedy(a + inuse[a], e, lists) <= FreeChunks(inuse, total, lists)
    ensures Outside(FreeChunks(inuse, total, lists) - Greedy(a + inuse[a], e, lists), a, e)
  {
    hide Greedy, FreeChunks, OtherChunks, Starts, GapEnd, ValidBlocks, Aligned;
    Restore(inuse, total, lists, s, a, e);
    GreedyComposeAtMultiple(s, a, e, lists);
    forall ch | ch in Greedy(s, a, lists)
      ensures ch.start < a && ch.End() <= a
      ensures ch !in Greedy(a + inuse[a], e, lists)
    {
      GreedyInside(s, a, lists, ch);
      NotInLaterCut(a + inuse[a], e, lists, ch);
    }
  }

  lemma RestoreGap(inuse: Blocks, total: nat, s: nat, a: nat, e: nat)
    requires ValidBlocks(inuse, total) && a in inuse
    requires s in Starts(inuse) && s <= a && GapEnd(inuse, total, s) == a
    requires GapEnd(inuse, total, a + inuse[a]) == e
    ensures s in Starts(inuse - {a}) && GapEnd(inuse - {a}, total, s) == e
  {
    hide Starts, First;
    var inuse' := inuse - {a};
    RestoreStart(inuse, total, s, a);
    assert inuse'[a := inuse[a]] == inuse;
    CarveEnd(inuse', total, a, inuse[a], a + inuse[a]);
    NoBlockInside(inuse, total, s, a);
    GapEndSkipsEmpty(inuse', total, s, a + inuse[a]);
  }

  lemma RestoreStart(inuse: Blocks, total: nat, s: nat, a: nat)
    requires ValidBlocks(inuse, total) && a in inuse && s in Starts(inuse) && s <= a
    ensures s in Starts(inuse - {a})
  {
    if s != 0 {
      var b :| b in inuse && s == b + inuse[b];
      assert b in inuse - {a} && (inuse - {a})[b] == inuse[b];
    }
  }

  lemma NoBlockInside(inuse: Blocks, total: nat, s: nat, a: nat)
    requires ValidBlocks(inuse, total) && a in inuse && s <= a && GapEnd(inuse, total, s) == a
    ensures forall b :: b in inuse - {a} ==> b < s || a + inuse[a] <= b
  {
    assert First(inuse.Keys, s).Some?;
    forall b | b in inuse - {a}
      ensures b < s || a + inuse[a] <= b
    {
      assert b in inuse.Keys;
    }
  }

  lemma GapEndSkipsEmpty(inuse: Blocks, total: nat, s: nat, t: nat)
    requires s <= t && forall b :: b in inuse ==> b < s || t <= b
    ensures GapEnd(inuse, total, t) == GapEnd(inuse, total, s)
  {
    assert forall b :: b in inuse.Keys <==> b in inuse;
  }

  /** Once a gap's chunks are out of the lists, both sides of a block put into it can be stored. */
  lemma GapRefill(inuse: Blocks, total: nat, lists: nat, s: nat, a: nat, size: nat)
    requires 1 <= lists <= 32 && ValidBlocks(inuse, total) && total < TWO_32
    requires s in Starts(inuse) && GapEnd(inuse, total, s) <= total
    requires 1 <= size && s <= a && a + size <= GapEnd(inuse, total, s)
    ensures var e := GapEnd(inuse, total, s);
            var rest := FreeChunks(inuse, total, lists) - Greedy(s, e, lists);
            && rest == OtherChunks(inuse, total, lists, s)
            && (s < a ==> Outside(rest, s, a))
            && (a + size < e ==> Outside(rest + Greedy(s, a, lists), a + size, e))
  {
    hide Greedy, FreeChunks, OtherChunks, Starts, GapEnd, ValidBlocks;
    var e := GapEnd(inuse, total, s);
    var others := OtherChunks(inuse, total, lists, s);
    FreeChunksByGap(inuse, total, lists, s);
    forall ch | ch in Greedy(s, e, lists)
      ensures ch !in others
    {
      GreedyInside(s, e, lists, ch);
    }
    forall ch | ch in Greedy(s, a, lists)
      ensures ch.start < a + size && ch.End() <= a + size
    {
      GreedyInside(s, a, lists, ch);
    }
    assert FreeChunks(inuse, total, lists) - Greedy(s, e, lists) == others;
  }

  /** The free chunks determine the free space, and the in-use blocks determine the free chunks. */
  lemma FreeChunksCover(inuse: Blocks, total: nat, lists: nat, i: nat)
    requires 1 <= lists <= 32 && ValidBlocks(inuse, total) && total < TWO_32
    ensures Free(inuse, total, i) <==> exists ch :: ch in FreeChunks(inuse, total, lists) && ch.Covers(i)
  {
    hide Greedy, Starts, GapEnd, ValidBlocks, Free;
    if Free(inuse, total, i) {
      var s := GapOf(inuse, total, i);
      StartsInside(inuse, total, s);
      var ch := GreedyCovers(s, GapEnd(inuse, total, s), lists, i);
      assert IsFreeChunk(inuse, total, lists, s, ch);
      assert ch in FreeChunks(inuse, total, lists);
    }
    if ch :| ch in FreeChunks(inuse, total, lists) && ch.Covers(i) {
      var s := FreeChunkFacts(inuse, total, lists, ch);
      GapIsFree(inuse, total, s);
    }
  }

  /** An aligned free run that a list could serve lies inside one free chunk of a list that is large enough. */
  lemma AlignedRunInChunk(inuse: Blocks, total: nat, lists: nat, a: nat, size: nat) returns (ch: Chunk)
    requires 1 <= lists <= 32 && ValidBlocks(inuse, total) && total < TWO_32
    requires 1 <= size < TWO_32 && size <= Pow2(lists - 1)
    requires Aligned(a, Log2Ceil(size)) && FreeRange(inuse, total, a, a + size)
    ensures ch in FreeChunks(inuse, total, lists)
    ensures Log2Ceil(size) <= ch.log && ch.start <= a && a + size <= ch.End()
  {
    hide Greedy, Starts, GapEnd, ValidBlocks, Log2Ceil, Pow2, Aligned;
    var log := Log2Ceil(size);
    Log2CeilBounds(size);
    Log2CeilIff(size, lists - 1);
    var s := FreeRangeInGap(inuse, total, a, a + size);
    StartsInside(inuse, total, s);
    var block := Chunk(log, a, size);
    ch := BlockInChunk(s, GapEnd(inuse, total, s), lists, block);
    assert IsFreeChunk(inuse, total, lists, s, ch);
  }

  lemma FreeChunkIsFree(inuse: Blocks, total: nat, lists: nat, ch: Chunk)
    requires 1 <= lists <= 32 && ValidBlocks(inuse, total) && total < TWO_32
    requires ch in FreeChunks(inuse, total, lists)
    ensures WellFormed(ch, lists) && ch.End() <= total
    ensures FreeRange(inuse, total, ch.start, ch.End())
  {
    hide Greedy, Starts, GapEnd, ValidBlocks, Free, WellFormed;
    var s := FreeChunkFacts(inuse, total, lists, ch);
    GapIsFree(inuse, total, s);
  }

  /** Once a chunk is out of the lists, both remainders of a block carved from it can be stored. */
  lemma RoomForRemainders(chunks: iset<Chunk>, ch: Chunk, lists: nat, a: nat, size: nat)
    requires 1 <= lists <= 32 && ch.End() < TWO_32
    requires Outside(chunks, ch.start, ch.End())
    requires 1 <= size && ch.start <= a && a + size <= ch.End()
    ensures ch.start < a ==> Outside(chunks, ch.start, a)
    ensures a + size < ch.End() ==> Outside(chunks + Greedy(ch.start, a, lists), a + size, ch.End())
  {
    hide Greedy, WellFormed;
    forall b | b in Greedy(ch.start, a, lists)
      ensures b.start < a + size && b.End() <= a + size
    {
      GreedyInside(ch.start, a, lists, b);
    }
  }
}
