/** The id allocator: contiguous allocation over an ordered set of used ids.

    Sizes keep every result inside a C int, and ids are C unsigned ints; the search works on 64-bit words. */
module IdAllocator {
  import opened BitUtils
  import opened Judy

  /** Subtraction of unsigned 64-bit words. */
  function Sub64(a: nat, b: nat): nat {
    (a - b) % TWO_64
  }

  ghost predicate ClearRun(ids: set<nat>, start: nat, count: nat) {
    forall i :: start <= i < start + count ==> i !in ids
  }

  /** What the search accepts: a clear run, kept inside the size only when no used id follows it. */
  ghost predicate Acceptable(ids: set<nat>, size: nat, start: nat, count: nat) {
    && start !in ids
    && ClearRun(ids, start, count)
    && (if exists i :: i in ids && start < i then start <= size else start + count <= size)
  }

  /** The documented goal: a clear run inside the size. */
  ghost predicate Fits(ids: set<nat>, size: nat, start: nat, count: nat) {
    ClearRun(ids, start, count) && start + count <= size
  }

  /** An id below the size is free, and start is the least acceptable run. */
  ghost predicate Chosen(ids: set<nat>, size: nat, start: nat, count: nat) {
    && FirstEmpty(ids, 0) < size
    && Acceptable(ids, size, start, count)
    && forall s: nat :: s < start ==> !Acceptable(ids, size, s, count)
  }

  /** The search comes back empty. */
  ghost predicate NothingChosen(ids: set<nat>, size: nat, count: nat) {
    FirstEmpty(ids, 0) < size ==> forall s: nat :: !Acceptable(ids, size, s, count)
  }

  function IdRange(start: nat, count: nat): (r: set<nat>)
    ensures forall i :: i in r <==> start <= i < start + count
  {
    if count == 0 then {} else IdRange(start, count - 1) + {start + count - 1}
  }

  class Allocator {
    var ids: set<nat>
    const size: nat
    const zeroBased: bool

    ghost predicate Valid()
      reads this
    {
      size < INT_LIMIT - 1 && forall i :: i in ids ==> i < TWO_32
    }

    constructor (size: nat, zeroBased: bool)
      requires size < INT_LIMIT - 1
      ensures Valid() && ids == {} && this.size == size && this.zeroBased == zeroBased
    {
      this.ids, this.size, this.zeroBased := {}, size, zeroBased;
    }

    method AllocateContiguous(count: nat) returns (r: int)
      requires Valid() && count < 256
      modifies `ids
      ensures Valid()
      ensures r == -1 <==> NothingChosen(old(ids), size, count)
      ensures r == -1 ==> ids == old(ids)
      ensures r != -1 ==> r >= if zeroBased then 0 else 1
      ensures r != -1 ==>
                var start: nat := if zeroBased then r else r - 1;
                Chosen(old(ids), size, start, count) && ids == old(ids) + IdRange(start, count)
    {
      var firstEmpty := FirstEmpty(ids, 0);
      if firstEmpty >= size {
        return -1;
      }
      NoneStartsOnUsed(ids, size, 0, firstEmpty, count);
      if count == 1 {
        assert Chosen(ids, size, firstEmpty, 1);
        assert ids + {firstEmpty} == ids + IdRange(firstEmpty, 1);
        ids := ids + {firstEmpty};
        return if zeroBased then firstEmpty else firstEmpty + 1;
      }
      var found := Search(firstEmpty, count);
      if found.None? || found.value > size {
        return -1;
      }
      firstEmpty := found.value;
      ghost var was := ids;
      for i := 0 to count
        invariant ids == was + IdRange(firstEmpty, i)
      {
        ids := ids + {firstEmpty + i};
      }
      return if zeroBased then firstEmpty else firstEmpty + 1;
    }

    /** The loop that moves from gap to gap; past the last used id it leaves by 64-bit wrap-around. */
    method Search(first: nat, count: nat) returns (r: Option<nat>)
      requires Valid() && count < 256
      requires first == FirstEmpty(ids, 0) < size
      ensures r.Some? && r.value <= size <==> !NothingChosen(ids, size, count)
      ensures r.Some? && r.value <= size ==> Chosen(ids, size, r.value, count)
    {
      var firstEmpty := first;
      var next := Next(ids, firstEmpty);
      var nextSet: nat := if next.None? then size else next.value;
      NoneStartsOnUsed(ids, size, 0, firstEmpty, count);
      while Sub64(nextSet, firstEmpty) < count
        invariant firstEmpty !in ids && firstEmpty <= TWO_32 && nextSet <= TWO_32
        invariant next == Next(ids, firstEmpty)
        invariant next.Some? ==> nextSet == next.value
        invariant next.None? && nextSet >= firstEmpty ==> nextSet == size
        invariant next.None? && nextSet < firstEmpty ==> firstEmpty > size || firstEmpty + count <= size
        invariant forall s: nat :: s < firstEmpty ==> !Acceptable(ids, size, s, count)
        decreases TWO_32 + 1 - firstEmpty
      {
        SubIsExactOrHuge(nextSet, firstEmpty);
        GapTooShort(ids, size, firstEmpty, nextSet, count);
        var index := FirstEmpty(ids, nextSet);
        assert TWO_32 !in ids;
        NoneStartsOnUsed(ids, size, nextSet, index, count);
        firstEmpty := index;
        next := Next(ids, index);
        match next {
          case None =>
            if Sub64(size, index) < count {
              LastGapTooShort(ids, size, index, count);
              return None;
            }
            SubIsExactOrHuge(size, index);
          case Some(i) =>
            nextSet := i;
        }
      }
      SubIsExactOrHuge(nextSet, firstEmpty);
      if firstEmpty <= size {
        assert Acceptable(ids, size, firstEmpty, count);
      } else {
        PastTheSize(ids, size, firstEmpty, count);
      }
      return Some(firstEmpty);
    }

    method Release(id: nat)
      requires Valid() && id < TWO_32 && (!zeroBased ==> id > 0)
      modifies `ids
      ensures Valid()
      ensures ids == old(ids) - {if zeroBased then id else id - 1}
    {
      var index := if zeroBased then id else id - 1;
      ids := ids - {index};
    }

    method Set(id: nat)
      requires Valid() && id < TWO_32 && (!zeroBased ==> id > 0)
      modifies `ids
      ensures Valid()
      ensures ids == old(ids) + {if zeroBased then id else id - 1}
    {
      var index := if zeroBased then id else id - 1;
      ids := ids + {index};
    }

    method IsSet(id: nat) returns (r: bool)
      requires Valid() && id < TWO_32
      ensures zeroBased ==> (r <==> id in ids)
      ensures !zeroBased && id == 0 ==> !r
      ensures !zeroBased && id > 0 ==> (r <==> id - 1 in ids)
    {
      var index := id;
      if !zeroBased {
        if id < 1 {
          return false;
        }
        index := id - 1;
      }
      r := index in ids;
    }

    /** The used id that follows the given one; None is the source's -1. */
    method GetNext(id: nat) returns (r: Option<nat>)
      requires Valid() && id < TWO_32
      ensures zeroBased && r.None? ==> forall i :: i in ids ==> i <= id
      ensures zeroBased && r.Some? ==> r.value in ids && id < r.value
      ensures zeroBased && r.Some? ==> forall i :: i in ids && id < i ==> r.value <= i
      ensures !zeroBased && id == 0 ==> r.None?
      ensures !zeroBased && id > 0 && r.None? ==> forall i :: i in ids ==> i + 1 <= id
      ensures !zeroBased && r.Some? ==> id < r.value && r.value - 1 in ids
      ensures !zeroBased && r.Some? ==> forall i :: i in ids && id < i + 1 ==> r.value <= i + 1
    {
      var index := id;
      if !zeroBased {
        if id == 0 {
          return None;
        }
        index := id - 1;
      }
      match Next(ids, index) {
        case None => return None;
        case Some(i) => return Some(if zeroBased then i else i + 1);
      }
    }
  }

  // ---------- Ids in and out ----------

  /** The ids handed out are the ones in use: releasing them one by one leaves what was used before. */
  method AllocateThenRelease(a: Allocator, count: nat) returns (id: int)
    requires a.Valid() && count < 256
    modifies a`ids
    ensures id == -1 <==> NothingChosen(old(a.ids), a.size, count)
    ensures a.Valid() && a.ids == old(a.ids)
  {
    hide Chosen, NothingChosen;
    id := a.AllocateContiguous(count);
    if id != -1 {
      ghost var was := old(a.ids);
      ghost var start: nat := if a.zeroBased then id else id - 1;
      ChosenIsNew(was, a.size, start, count);
      for i := 0 to count
        invariant a.Valid() && a.ids == was + (IdRange(start, count) - IdRange(start, i))
      {
        var used := a.IsSet(id + i);
        assert used;
        a.Release(id + i);
      }
    }
  }

  lemma ChosenIsNew(ids: set<nat>, size: nat, start: nat, count: nat)
    requires Chosen(ids, size, start, count)
    ensures IdRange(start, count) !! ids && start <= size
  {
    AcceptableIsClear(ids, size, start, count);
  }

  // ---------- The search ----------

  /** A 64-bit difference is the true one, or too large for any count. */
  lemma SubIsExactOrHuge(a: nat, b: nat)
    requires a <= TWO_32 && b <= TWO_32
    ensures a >= b ==> Sub64(a, b) == a - b
    ensures a < b ==> Sub64(a, b) >= 256
  {
    if a < b {
      assert Sub64(a, b) == a - b + TWO_64;
    }
  }

  lemma NoneStartsOnUsed(ids: set<nat>, size: nat, lo: nat, hi: nat, count: nat)
    requires forall i :: lo <= i < hi ==> i in ids
    ensures forall s: nat :: lo <= s < hi ==> !Acceptable(ids, size, s, count)
  {
    forall s: nat | lo <= s < hi
      ensures !Acceptable(ids, size, s, count)
    {
      assert s in ids;
    }
  }

  /** No run is acceptable in a gap that the loop leaves. */
  lemma GapTooShort(ids: set<nat>, size: nat, first: nat, last: nat, count: nat)
    requires first <= last && last - first < count
    requires last in ids || (last == size && forall i :: i in ids ==> i <= first)
    ensures forall s: nat :: first <= s < last ==> !Acceptable(ids, size, s, count)
  {
    forall s: nat | first <= s < last
      ensures !Acceptable(ids, size, s, count)
    {
      if last in ids {
        assert s <= last < s + count;
      }
    }
  }

  lemma LastGapTooShort(ids: set<nat>, size: nat, first: nat, count: nat)
    requires size <= TWO_32 && first <= TWO_32 && count < 256 && Sub64(size, first) < count
    requires forall i :: i in ids ==> i <= first
    requires forall s: nat :: s < first ==> !Acceptable(ids, size, s, count)
    ensures forall s: nat :: !Acceptable(ids, size, s, count)
  {
    SubIsExactOrHuge(size, first);
  }

  lemma PastTheSize(ids: set<nat>, size: nat, first: nat, count: nat)
    requires first > size
    requires forall s: nat :: s < first ==> !Acceptable(ids, size, s, count)
    ensures forall s: nat :: !Acceptable(ids, size, s, count)
  {
  }

  // ---------- What an allocation promises ----------

  lemma NoFitWhenFull(ids: set<nat>, size: nat, count: nat)
    requires count > 0 && FirstEmpty(ids, 0) >= size
    ensures forall s: nat :: !Fits(ids, size, s, count)
  {
    forall s: nat
      ensures !Fits(ids, size, s, count)
    {
      if s + count <= size {
        assert s in ids;
      }
    }
  }

  /** The start of the free gap that ends at the size. */
  function TailStart(ids: set<nat>, size: nat): (r: nat)
    ensures r <= size && (forall i :: r <= i < size ==> i !in ids) && (r > 0 ==> r - 1 in ids)
  {
    var last := Prev(ids, size);
    if last.None? then 0 else last.value + 1
  }

  /** No run fits, but a used id at or past the size ends a gap that is long enough across the size. */
  ghost predicate Strays(ids: set<nat>, size: nat, count: nat) {
    && FirstEmpty(ids, 0) < size
    && (forall s: nat :: !Fits(ids, size, s, count))
    && First(ids, size).Some?
    && First(ids, size).value - TailStart(ids, size) >= count
  }

  /** Ids at or past the size are handed out exactly in that case. */
  lemma OverrunIff(ids: set<nat>, size: nat, count: nat)
    requires count > 0
    ensures (exists s: nat :: Chosen(ids, size, s, count) && s + count > size) <==> Strays(ids, size, count)
  {
    var p := TailStart(ids, size);
    if s: nat :| Chosen(ids, size, s, count) && s + count > size {
      OverrunStrays(ids, size, s, count);
    }
    if Strays(ids, size, count) {
      var n := First(ids, size).value;
      assert ClearRun(ids, p, count) by {
        forall i | p <= i < p + count
          ensures i !in ids
        {
          assert i < size || !(i >= size && i < n) || i !in ids;
        }
      }
      assert Acceptable(ids, size, p, count);
      var s := LeastAcceptable(ids, size, p, count);
      assert !Fits(ids, size, s, count);
      assert Chosen(ids, size, s, count) && s + count > size;
    }
  }

  lemma OverrunStrays(ids: set<nat>, size: nat, s: nat, count: nat)
    requires Chosen(ids, size, s, count) && s + count > size
    ensures Strays(ids, size, count)
  {
    forall f: nat
      ensures !Fits(ids, size, f, count)
    {
      if Fits(ids, size, f, count) {
        assert f < s;
        assert count > 0 ==> f !in ids;
        assert Acceptable(ids, size, f, count);
      }
    }
    var i :| i in ids && s < i;
    assert !(s <= i < s + count);
    assert First(ids, size).Some?;
    var n := First(ids, size).value;
    assert !(s <= n < s + count);
    var p := TailStart(ids, size);
    assert p > 0 ==> !(s <= p - 1 < s + count);
  }

  lemma LeastAcceptable(ids: set<nat>, size: nat, some: nat, count: nat) returns (s: nat)
    requires Acceptable(ids, size, some, count)
    ensures s <= some && Acceptable(ids, size, s, count)
    ensures forall t: nat :: t < s ==> !Acceptable(ids, size, t, count)
  {
    s := 0;
    while !Acceptable(ids, size, s, count)
      invariant s <= some && forall t: nat :: t < s ==> !Acceptable(ids, size, t, count)
      decreases some - s
    {
      s := s + 1;
    }
  }

  /** The documented goal: the choice is the lowest run inside the size, and only a set without one yields nothing. */
  ghost predicate MeetsGoal(ids: set<nat>, size: nat, count: nat) {
    && (forall s: nat :: Chosen(ids, size, s, count) <==> LowestFit(ids, size, s, count))
    && (NothingChosen(ids, size, count) <==> forall s: nat :: !Fits(ids, size, s, count))
  }

  ghost predicate LowestFit(ids: set<nat>, size: nat, s: nat, count: nat) {
    Fits(ids, size, s, count) && forall p: nat :: p < s ==> !Fits(ids, size, p, count)
  }

  /** The goal is met unless a used id strays past the size in that way; it never does while all are below it. */
  lemma ChoiceIsLowestFit(ids: set<nat>, size: nat, count: nat)
    requires count > 0
    ensures MeetsGoal(ids, size, count) <==> !Strays(ids, size, count)
    ensures (forall i :: i in ids ==> i < size) ==> !Strays(ids, size, count)
  {
    hide Acceptable, Strays;
    OverrunIff(ids, size, count);
    NoStrayBelow(ids, size, count);
    if Strays(ids, size, count) {
      var s: nat :| Chosen(ids, size, s, count) && s + count > size;
      assert !Fits(ids, size, s, count);
    } else {
      forall s: nat
        ensures Chosen(ids, size, s, count) <==> LowestFit(ids, size, s, count)
      {
        ChosenFits(ids, size, s, count);
      }
      if f: nat :| Fits(ids, size, f, count) {
        FitIsChosen(ids, size, f, count);
      }
      if !NothingChosen(ids, size, count) {
        var some: nat :| Acceptable(ids, size, some, count);
        var s := LeastAcceptable(ids, size, some, count);
        assert Chosen(ids, size, s, count);
      }
    }
  }

  lemma NoStrayBelow(ids: set<nat>, size: nat, count: nat)
    ensures (forall i :: i in ids ==> i < size) ==> !Strays(ids, size, count)
  {
  }

  lemma FitIsAcceptable(ids: set<nat>, size: nat, s: nat, count: nat)
    requires count > 0 && Fits(ids, size, s, count)
    ensures Acceptable(ids, size, s, count) && FirstEmpty(ids, 0) < size
  {
    if FirstEmpty(ids, 0) >= size {
      NoFitWhenFull(ids, size, count);
    }
  }

  lemma FitIsChosen(ids: set<nat>, size: nat, f: nat, count: nat)
    requires count > 0 && Fits(ids, size, f, count)
    ensures !NothingChosen(ids, size, count)
  {
    FitIsAcceptable(ids, size, f, count);
  }

  lemma ChosenFits(ids: set<nat>, size: nat, s: nat, count: nat)
    requires count > 0 && forall c: nat :: Chosen(ids, size, c, count) ==> c + count <= size
    ensures Chosen(ids, size, s, count) <==> LowestFit(ids, size, s, count)
  {
    hide Acceptable;
    forall p: nat | Fits(ids, size, p, count)
      ensures Acceptable(ids, size, p, count) && FirstEmpty(ids, 0) < size
    {
      FitIsAcceptable(ids, size, p, count);
    }
    if Chosen(ids, size, s, count) {
      AcceptableIsClear(ids, size, s, count);
    }
    if LowestFit(ids, size, s, count) {
      var c := LeastAcceptable(ids, size, s, count);
      AcceptableIsClear(ids, size, c, count);
      assert Chosen(ids, size, c, count);
      assert Fits(ids, size, c, count);
    }
  }

  lemma AcceptableIsClear(ids: set<nat>, size: nat, s: nat, count: nat)
    requires Acceptable(ids, size, s, count)
    ensures ClearRun(ids, s, count)
  {
  }

  /** Such a case: four ids in all, 1 and 9 used, five wanted; 2 to 6 are handed out. */
  lemma OverrunExample()
    ensures Chosen({1, 9}, 4, 2, 5) && 2 + 5 > 4
  {
    var ids: set<nat> := {1, 9};
    assert FirstEmpty(ids, 0) == 0 by {
      assert 0 !in ids;
    }
    assert 9 in ids && 2 < 9;
    assert Acceptable(ids, 4, 2, 5);
    assert 1 in ids && 0 <= 1 < 0 + 5;
    assert !ClearRun(ids, 0, 5);
    assert !Acceptable(ids, 4, 0, 5) && !Acceptable(ids, 4, 1, 5);
  }
}
