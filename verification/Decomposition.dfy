/** How the allocator cuts a free interval into chunks, and why the cut is canonical.

    Greedy(s, e, lists) is the set of chunks that the splitting loop produces.  Its closed form
    is proved in GreedyIsMaximal: the chunks are exactly the maximal aligned blocks of [s, e).
    The lemmas in between are the ones the allocator's operations rely on when they touch part
    of an interval only: a prefix of the cut does not move when the end moves (GreedyPrefix), and
    the cut composes at well-aligned points (GreedyCompose, GreedyComposeAtMultiple). */
module Decomposition {
  import opened BitUtils

  /** An entry of free_lists[log]: the free indices start .. start + len. */
  datatype Chunk = Chunk(log: nat, start: nat, len: nat) {
    function End(): nat { start + len }

    predicate Covers(i: nat) { start <= i < End() }

    predicate Within(lo: nat, hi: nat) { lo <= start && End() <= hi }
  }

  /** A legal entry: aligned to its list, and long enough not to belong to a smaller one. */
  ghost predicate WellFormed(ch: Chunk, lists: nat) {
    && ch.log < lists
    && Aligned(ch.start, ch.log)
    && 1 <= ch.len <= Pow2(ch.log)
    && (ch.log > 0 ==> Pow2(ch.log - 1) < ch.len)
  }

  /** The list that the chunk starting at cur goes to when rem indices remain. */
  function FreeLog(cur: nat, rem: nat, lists: nat): (k: nat)
    requires 1 <= lists <= 32 && rem < TWO_32
    ensures k < lists
  {
    var tz := Ctz(cur);
    var log := Log2Ceil(rem);
    var k := if tz < log then tz else log;
    if k >= lists then lists - 1 else k
  }

  lemma FreeLogIff(cur: nat, rem: nat, lists: nat, j: nat)
    requires 1 <= lists <= 32 && cur < TWO_32 && 1 <= rem < TWO_32 && j < lists
    ensures j <= FreeLog(cur, rem, lists) <==> Aligned(cur, j) && (j == 0 || Pow2(j - 1) < rem)
  {
    CtzIff(cur, j);
    if j > 0 {
      Log2CeilIff(rem, j - 1);
    }
  }

  function FirstChunk(cur: nat, rem: nat, lists: nat): (ch: Chunk)
    requires 1 <= lists <= 32 && cur < TWO_32 && 1 <= rem < TWO_32
    ensures WellFormed(ch, lists)
    ensures ch.start == cur && ch.len <= rem
    ensures ch.len < Pow2(ch.log) ==> ch.len == rem
  {
    var k := FreeLog(cur, rem, lists);
    FreeLogIff(cur, rem, lists, k);
    if k > 0 then
      assert Pow2(k) == 2 * Pow2(k - 1);
      Chunk(k, cur, if rem < Pow2(k) then rem else Pow2(k))
    else
      Chunk(k, cur, if rem < Pow2(k) then rem else Pow2(k))
  }

  /** What the splitting loops assert of every chunk before they store it. */
  lemma FirstChunkAsserts(cur: nat, rem: nat, lists: nat)
    requires 1 <= lists <= 32 && cur < TWO_32 && 1 <= rem < TWO_32
    ensures var k := FreeLog(cur, rem, lists);
            && k < 32
            && cur % Pow2(k) == 0
            && FirstChunk(cur, rem, lists) == Chunk(k, cur, if rem < Pow2(k) then rem else Pow2(k))
            && (rem < Pow2(k) ==> rem > Pow2(k) / 2)
  {
    var k := FreeLog(cur, rem, lists);
    FreeLogIff(cur, rem, lists, k);
    AlignedIffRemainder(cur, k);
  }

  ghost function Greedy(cur: nat, end: nat, lists: nat): (chunks: iset<Chunk>)
    requires 1 <= lists <= 32 && cur <= end < TWO_32
    decreases end - cur
  {
    if cur == end then iset{}
    else
      var ch := FirstChunk(cur, end - cur, lists);
      iset{ch} + Greedy(ch.End(), end, lists)
  }

  lemma GreedyStep(cur: nat, end: nat, lists: nat, ch: Chunk)
    requires 1 <= lists <= 32 && cur < end < TWO_32
    requires ch == FirstChunk(cur, end - cur, lists)
    ensures Greedy(cur, end, lists) == iset{ch} + Greedy(ch.End(), end, lists)
  {
  }

  lemma GreedyEmpty(cur: nat, lists: nat)
    requires 1 <= lists <= 32 && cur < TWO_32
    ensures Greedy(cur, cur, lists) == iset{}
  {
  }

  lemma UnionAssociates<T>(a: iset<T>, b: iset<T>, c: iset<T>)
    ensures (a + b) + c == a + (b + c)
  {
  }

  // ----- The chunks tile the interval

  lemma {:induction false} GreedyInside(cur: nat, end: nat, lists: nat, ch: Chunk)
    requires 1 <= lists <= 32 && cur <= end < TWO_32
    requires ch in Greedy(cur, end, lists)
    ensures WellFormed(ch, lists) && ch.Within(cur, end)
    ensures ch == FirstChunk(ch.start, end - ch.start, lists)
    decreases end - cur
  {
    var first := FirstChunk(cur, end - cur, lists);
    if ch != first {
      GreedyInside(first.End(), end, lists, ch);
    }
  }

  lemma NotInLaterCut(cur: nat, end: nat, lists: nat, ch: Chunk)
    requires 1 <= lists <= 32 && cur <= end < TWO_32 && ch.start < cur
    ensures ch !in Greedy(cur, end, lists)
  {
    if ch in Greedy(cur, end, lists) {
      GreedyInside(cur, end, lists, ch);
    }
  }

  lemma {:induction false} GreedyCovers(cur: nat, end: nat, lists: nat, i: nat) returns (ch: Chunk)
    requires 1 <= lists <= 32 && cur <= i < end < TWO_32
    ensures ch in Greedy(cur, end, lists) && ch.Covers(i)
    decreases end - cur
  {
    ch := FirstChunk(cur, end - cur, lists);
    if ch.End() <= i {
      ch := GreedyCovers(ch.End(), end, lists, i);
    }
  }

  lemma {:induction false} GreedyDisjoint(cur: nat, end: nat, lists: nat, a: Chunk, b: Chunk, i: nat)
    requires 1 <= lists <= 32 && cur <= end < TWO_32
    requires a in Greedy(cur, end, lists) && b in Greedy(cur, end, lists)
    requires a.Covers(i) && b.Covers(i)
    ensures a == b
    decreases end - cur
  {
    var first := FirstChunk(cur, end - cur, lists);
    if a != first {
      GreedyInside(first.End(), end, lists, a);
    }
    if b != first {
      GreedyInside(first.End(), end, lists, b);
    }
    if a != first && b != first {
      GreedyDisjoint(first.End(), end, lists, a, b, i);
    }
  }

  lemma RestAfterFirst(cur: nat, end: nat, lists: nat, ch: Chunk)
    requires 1 <= lists <= 32 && cur < end < TWO_32
    requires ch == FirstChunk(cur, end - cur, lists)
    ensures Greedy(cur, end, lists) == iset{ch} + Greedy(ch.End(), end, lists)
    ensures ch !in Greedy(ch.End(), end, lists)
  {
    if ch in Greedy(ch.End(), end, lists) {
      GreedyInside(ch.End(), end, lists, ch);
    }
  }

  // ----- Locality of the cut

  /** A first chunk that does not end the interval stays the first chunk while it fits. */
  lemma FirstChunkStable(cur: nat, rem: nat, rem': nat, lists: nat)
    requires 1 <= lists <= 32 && cur < TWO_32 && 1 <= rem < TWO_32
    requires FirstChunk(cur, rem, lists).len <= rem' <= rem
    requires rem' == rem || FirstChunk(cur, rem, lists).len < rem
    ensures FirstChunk(cur, rem', lists) == FirstChunk(cur, rem, lists)
  {
    var k := FreeLog(cur, rem, lists);
    FreeLogIff(cur, rem, lists, k);
    FreeLogIff(cur, rem', lists, k);
    var k' := FreeLog(cur, rem', lists);
    FreeLogIff(cur, rem, lists, k');
    FreeLogIff(cur, rem', lists, k');
  }

  lemma GreedyComposeStep(cur: nat, g: nat, end: nat, lists: nat)
    requires 1 <= lists <= 32 && cur < g <= end < TWO_32
    requires FirstChunk(cur, g - cur, lists) == FirstChunk(cur, end - cur, lists)
    requires var next := FirstChunk(cur, g - cur, lists).End();
      Greedy(next, end, lists) == Greedy(next, g, lists) + Greedy(g, end, lists)
    ensures Greedy(cur, end, lists) == Greedy(cur, g, lists) + Greedy(g, end, lists)
  {
    hide FirstChunk, WellFormed;
    var first := FirstChunk(cur, g - cur, lists);
    GreedyStep(cur, end, lists, first);
    GreedyStep(cur, g, lists, first);
    UnionAssociates(iset{first}, Greedy(first.End(), g, lists), Greedy(g, end, lists));
  }

  /** Moving the end, while it stays past a chunk's start, keeps every chunk before that start. */
  lemma {:induction false} GreedyPrefix(cur: nat, end: nat, lists: nat, ch: Chunk, end': nat)
    requires 1 <= lists <= 32 && cur <= end < TWO_32
    requires ch in Greedy(cur, end, lists)
    requires ch.start <= end' <= end
    ensures cur <= ch.start
    ensures Greedy(cur, end', lists) == Greedy(cur, ch.start, lists) + Greedy(ch.start, end', lists)
    decreases end - cur
  {
    hide Greedy, FirstChunk, WellFormed;
    GreedyInside(cur, end, lists, ch);
    if ch.start == cur {
      GreedyEmpty(cur, lists);
    } else {
      var first := FirstChunk(cur, end - cur, lists);
      GreedyStep(cur, end, lists, first);
      GreedyInside(first.End(), end, lists, ch);
      FirstChunkStable(cur, end - cur, end' - cur, lists);
      FirstChunkStable(cur, end - cur, ch.start - cur, lists);
      GreedyPrefix(first.End(), end, lists, ch, end');
      GreedyComposeStep(cur, ch.start, end', lists);
    }
  }

  /** Removing one chunk splits the cut into the part before it and the part after it. */
  lemma GreedySplit(cur: nat, end: nat, lists: nat, ch: Chunk)
    requires 1 <= lists <= 32 && cur <= end < TWO_32
    requires ch in Greedy(cur, end, lists)
    ensures cur <= ch.start && ch.End() <= end
    ensures Greedy(cur, end, lists)
         == Greedy(cur, ch.start, lists) + iset{ch} + Greedy(ch.End(), end, lists)
  {
    hide FirstChunk;
    GreedyInside(cur, end, lists, ch);
    GreedyPrefix(cur, end, lists, ch, end);
    GreedyStep(ch.start, end, lists, ch);
    UnionAssociates(Greedy(cur, ch.start, lists), iset{ch}, Greedy(ch.End(), end, lists));
  }

  /** The first chunk stops at or before any point that is aligned to its list. */
  lemma FirstChunkAtBoundary(cur: nat, g: nat, end: nat, lists: nat)
    requires 1 <= lists <= 32 && cur < g <= end < TWO_32
    requires Aligned(g, FreeLog(cur, end - cur, lists))
    ensures cur + Pow2(FreeLog(cur, end - cur, lists)) <= g
    ensures FirstChunk(cur, end - cur, lists).len == Pow2(FreeLog(cur, end - cur, lists))
    ensures FirstChunk(cur, g - cur, lists) == FirstChunk(cur, end - cur, lists)
  {
    var k := FreeLog(cur, end - cur, lists);
    FreeLogIff(cur, end - cur, lists, k);
    AlignedApart(cur, g, k);
    FirstChunkStable(cur, end - cur, g - cur, lists);
  }

  /** The cut composes at g when cur lies strictly inside the aligned 2^i block that ends at g. */
  lemma {:induction false} GreedyCompose(cur: nat, g: nat, end: nat, lists: nat, i: nat)
    requires 1 <= lists <= 32 && cur <= g <= end < TWO_32
    requires i < lists && Aligned(g, i) && g < cur + Pow2(i)
    ensures Greedy(cur, end, lists) == Greedy(cur, g, lists) + Greedy(g, end, lists)
    decreases g - cur
  {
    hide Greedy, FirstChunk, FreeLog, WellFormed;
    if cur < g {
      var k := FreeLog(cur, end - cur, lists);
      FreeLogIff(cur, end - cur, lists, k);
      if i <= k {
        AlignedDown(cur, k, i);
        AlignedApart(cur, g, i);
      } else {
        AlignedDown(g, i, k);
        FirstChunkAtBoundary(cur, g, end, lists);
        GreedyCompose(cur + Pow2(k), g, end, lists, i);
        GreedyComposeStep(cur, g, end, lists);
      }
    } else {
      GreedyEmpty(cur, lists);
    }
  }

  /** Multiples of the largest chunk size are always chunk boundaries. */
  lemma {:induction false} GreedyComposeAtMultiple(cur: nat, g: nat, end: nat, lists: nat)
    requires 1 <= lists <= 32 && cur <= g <= end < TWO_32
    requires Aligned(g, lists - 1)
    ensures Greedy(cur, end, lists) == Greedy(cur, g, lists) + Greedy(g, end, lists)
    decreases g - cur
  {
    hide Greedy, FirstChunk, FreeLog, WellFormed;
    if cur < g {
      var k := FreeLog(cur, end - cur, lists);
      AlignedDown(g, lists - 1, k);
      FirstChunkAtBoundary(cur, g, end, lists);
      GreedyComposeAtMultiple(cur + Pow2(k), g, end, lists);
      GreedyComposeStep(cur, g, end, lists);
    } else {
      GreedyEmpty(cur, lists);
    }
  }

  // ----- The closed form

  /** Every well-formed block of the interval lies inside a single chunk of the cut. */
  lemma BlockInChunk(cur: nat, end: nat, lists: nat, b: Chunk) returns (ch: Chunk)
    requires 1 <= lists <= 32 && cur <= end < TWO_32
    requires WellFormed(b, lists) && b.Within(cur, end)
    ensures ch in Greedy(cur, end, lists)
    ensures b.Within(ch.start, ch.End()) && b.log <= ch.log
  {
    hide Greedy, FreeLog;
    ch := GreedyCovers(cur, end, lists, b.start);
    GreedyInside(cur, end, lists, ch);
    if ch.log < b.log {
      AlignedDown(b.start, b.log, ch.log);
      if ch.start < b.start {
        AlignedApart(ch.start, b.start, ch.log);
      }
      assert ch.start == b.start;
      Pow2Monotone(ch.log, b.log - 1);
      if b.log > 0 {
        FreeLogIff(ch.start, end - ch.start, lists, b.log);
      }
    } else {
      AlignedDown(ch.start, ch.log, b.log);
      if ch.End() < b.End() {
        assert ch.len == Pow2(ch.log);
        Pow2Aligned(ch.log, b.log);
        AlignedSum(ch.start, ch.len, b.log);
        AlignedApart(b.start, ch.End(), b.log);
      }
    }
  }

  /** A well-formed block of [lo, hi) that no other well-formed block of it contains. */
  ghost predicate Maximal(ch: Chunk, lo: nat, hi: nat, lists: nat) {
    && WellFormed(ch, lists)
    && ch.Within(lo, hi)
    && forall b: Chunk :: WellFormed(b, lists) && b.Within(lo, hi) && ch.Within(b.start, b.End()) ==> b == ch
  }

  lemma SameExtent(a: Chunk, b: Chunk, lists: nat)
    requires WellFormed(a, lists) && WellFormed(b, lists)
    requires a.start == b.start && a.len == b.len
    ensures a == b
  {
    if a.log < b.log {
      Pow2Monotone(a.log, b.log - 1);
    } else if b.log < a.log {
      Pow2Monotone(b.log, a.log - 1);
    }
  }

  /** The greedy cut is the set of maximal aligned blocks, whatever order produced it. */
  lemma GreedyIsMaximal(cur: nat, end: nat, lists: nat, ch: Chunk)
    requires 1 <= lists <= 32 && cur <= end < TWO_32
    ensures ch in Greedy(cur, end, lists) <==> Maximal(ch, cur, end, lists)
  {
    if ch in Greedy(cur, end, lists) {
      GreedyInside(cur, end, lists, ch);
      forall b: Chunk | WellFormed(b, lists) && b.Within(cur, end) && ch.Within(b.start, b.End())
        ensures b == ch
      {
        var big := BlockInChunk(cur, end, lists, b);
        GreedyDisjoint(cur, end, lists, ch, big, ch.start);
        SameExtent(b, ch, lists);
      }
    }
    if Maximal(ch, cur, end, lists) {
      var big := BlockInChunk(cur, end, lists, ch);
      GreedyInside(cur, end, lists, big);
    }
  }
}
