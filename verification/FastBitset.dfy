/** The Judy-backed bitset: searches for runs of clear bits.

    Positions are C ints, so a width is at most 2^31; bf_fbs_set admits positions below the width only. */
module FastBitset {
  import opened BitUtils
  import opened Judy

  class Bitset {
    var width: nat
    var fbs: set<nat>

    ghost predicate Valid()
      reads this
    {
      0 < width <= INT_LIMIT && forall i :: i in fbs ==> i < width
    }

    constructor (width: nat)
      requires 0 < width <= INT_LIMIT
      ensures Valid() && this.width == width && fbs == {}
    {
      this.width, fbs := width, {};
    }

    /** Sets the bit and returns its previous value. */
    method Set(position: nat, val: bool) returns (prev: bool)
      requires Valid() && position < width
      modifies `fbs
      ensures Valid()
      ensures prev == (position in old(fbs))
      ensures fbs == if val then old(fbs) + {position} else old(fbs) - {position}
    {
      prev := position in fbs;
      if val {
        fbs := fbs + {position};
      } else {
        fbs := fbs - {position};
      }
    }

    /** count clear bits from start on, inside the width. */
    ghost predicate ClearRun(start: nat, count: nat)
      reads this
    {
      start + count <= width && forall i :: start <= i < start + count ==> i !in fbs
    }

    /** A run is clear exactly when it ends inside the width and before the next set position. */
    lemma ClearToNext(start: nat, count: nat)
      requires Valid() && count > 0
      ensures ClearRun(start, count) <==>
              start + count <= match First(fbs, start) case None => width case Some(next) => next
    {
      match First(fbs, start) {
        case None =>
        case Some(next) =>
          if start + count > next {
            assert start <= next < start + count;
          }
      }
    }

    /** The least start after position of count clear bits. */
    method FirstClrContiguous(position: int, count: nat) returns (r: int)
      requires Valid() && -INT_LIMIT <= position < INT_LIMIT - 1 && 0 < count < TWO_32
      ensures r == -1 <==> position < -1 || forall s: nat :: position < s ==> !ClearRun(s, count)
      ensures r != -1 ==> r > position && r >= 0 && ClearRun(r, count)
      ensures r != -1 ==> forall s: nat :: position < s < r ==> !ClearRun(s, count)
    {
      var from := position + 1;
      if from < 0 || (from + count) % TWO_32 > width {
        if 0 <= from {
          assert from + count > width;
        }
        return -1;
      }
      var freeIndex := FirstEmpty(fbs, from);
      NoRunOverSet(from, freeIndex, count);
      if freeIndex >= width {
        return -1;
      }
      if count == 1 {
        assert ClearRun(freeIndex, count);
        return freeIndex;
      }
      var lastFree: nat := freeIndex;
      while lastFree < width
        invariant from <= freeIndex == lastFree && freeIndex !in fbs
        invariant forall s: nat :: from <= s < freeIndex ==> !ClearRun(s, count)
        decreases width - lastFree
      {
        match Next(fbs, lastFree) {
          case None => lastFree := width - 1;
          case Some(next) => lastFree := next - 1;
        }
        if (lastFree + 1) - freeIndex >= count {
          assert ClearRun(freeIndex, count);
          return freeIndex;
        }
        RunTooShort(freeIndex, lastFree, count);
        ghost var end := lastFree;
        lastFree := NextEmpty(fbs, lastFree);
        NoRunOverSet(end + 1, lastFree, count);
        freeIndex := lastFree;
      }
      return -1;
    }

    /** No run starts on a set bit. */
    lemma NoRunOverSet(lo: nat, hi: nat, count: nat)
      requires count > 0 && forall i :: lo <= i < hi ==> i in fbs
      ensures forall s: nat :: lo <= s < hi ==> !ClearRun(s, count)
    {
      forall s: nat | lo <= s < hi
        ensures !ClearRun(s, count)
      {
        assert s in fbs;
      }
    }

    /** No run starts in a gap that ends before count bits. */
    lemma RunTooShort(first: nat, last: nat, count: nat)
      requires first <= last && last + 1 - first < count && (last + 1 in fbs || last + 1 == width)
      ensures forall s: nat :: first <= s <= last ==> !ClearRun(s, count)
    {
    }

    /** The greatest start of count clear bits that end before position. */
    method PrevClrContiguous(position: int, count: nat) returns (r: int)
      requires Valid() && -INT_LIMIT <= position <= width && 0 < count < TWO_32
      ensures r == -1 <==> forall s: nat :: s + count <= position ==> !ClearRun(s, count)
      ensures r != -1 ==> r >= 0 && r + count <= position && ClearRun(r, count)
      ensures r != -1 ==> forall s: nat :: r < s && s + count <= position ==> !ClearRun(s, count)
    {
      if position <= 0 {
        return -1;
      }
      var last := position - 1;
      if last + 1 < count || last >= width {
        return -1;
      }
      var head := LastEmpty(fbs, last);
      if head.None? {
        EndsBelow(position, count);
        return -1;
      }
      var freeIndex := head.value;
      EndsOnSet(freeIndex, last, count);
      if count == 1 {
        assert ClearRun(freeIndex, count);
        return freeIndex;
      }
      var lastFree: nat := freeIndex;
      while true
        invariant freeIndex == lastFree <= last && freeIndex !in fbs
        invariant forall s: nat :: freeIndex < s + count - 1 <= last ==> !ClearRun(s, count)
        decreases lastFree
      {
        match Prev(fbs, lastFree) {
          case None => lastFree := 0;
          case Some(prev) => lastFree := prev + 1;
        }
        if (freeIndex + 1) - lastFree >= count {
          assert ClearRun((freeIndex + 1) - count, count);
          return (freeIndex + 1) - count;
        }
        StartsTooLate(lastFree, freeIndex, count);
        var before := PrevEmpty(fbs, lastFree);
        if before.None? {
          EndsBelow(lastFree, count);
          return -1;
        }
        EndsOnSet(before.value, lastFree - 1, count);
        lastFree := before.value;
        freeIndex := lastFree;
      }
      return -1;
    }

    lemma EndsOnSet(lo: nat, hi: int, count: nat)
      requires count > 0 && forall i :: lo < i <= hi ==> i in fbs
      ensures forall s: nat :: lo < s + count - 1 <= hi ==> !ClearRun(s, count)
    {
      forall s: nat | lo < s + count - 1 <= hi
        ensures !ClearRun(s, count)
      {
        assert s + count - 1 in fbs;
      }
    }

    lemma StartsTooLate(first: nat, last: nat, count: nat)
      requires last + 1 - first < count && (first == 0 || first - 1 in fbs)
      ensures forall s: nat :: first <= s + count - 1 <= last ==> !ClearRun(s, count)
    {
    }

    lemma EndsBelow(hi: nat, count: nat)
      requires count > 0 && forall i :: 0 <= i < hi ==> i in fbs
      ensures forall s: nat :: s + count - 1 < hi ==> !ClearRun(s, count)
    {
      forall s: nat | s + count - 1 < hi
        ensures !ClearRun(s, count)
      {
        assert s + count - 1 in fbs;
      }
    }

    /** The least set position after the argument. */
    method FirstSet(position: int) returns (r: int)
      requires Valid() && -INT_LIMIT <= position < INT_LIMIT - 1
      ensures position < -1 || position >= width ==> r == -1
      ensures -1 <= position < width ==>
                if r == -1 then forall i :: i in fbs ==> i <= position
                else r in fbs && position < r && forall i :: i in fbs && position < i ==> r <= i
    {
      var from := position + 1;
      if from < 0 || from > width {
        return -1;
      }
      match First(fbs, from) {
        case None => return -1;
        case Some(i) => return i;
      }
    }
  }
}
