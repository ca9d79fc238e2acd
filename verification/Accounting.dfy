/** Index counts: the indices in use and the sizes held by the free lists add up to the total. */
module Accounting {
  import opened FreeSpace

  ghost function Range(lo: nat, hi: nat): (r: set<nat>)
    ensures forall i :: i in r <==> lo <= i < hi
    decreases hi - lo
  {
    if hi <= lo then {} else Range(lo, hi - 1) + {hi - 1}
  }

  lemma {:induction false} RangeSize(lo: nat, hi: nat)
    requires lo <= hi
    ensures |Range(lo, hi)| == hi - lo
    decreases hi - lo
  {
    if lo < hi {
      RangeSize(lo, hi - 1);
    }
  }

  lemma UnionSize<T>(a: set<T>, b: set<T>)
    requires a !! b
    ensures |a + b| == |a| + |b|
  {
  }

  /** The indices below hi that some block holds. */
  ghost function UsedBelow(inuse: Blocks, hi: nat): set<nat> {
    set i | 0 <= i < hi && InUse(inuse, i)
  }

  ghost function FreeIndices(inuse: Blocks, total: nat): set<nat> {
    set i | 0 <= i < total && Free(inuse, total, i)
  }

  lemma UsedAndFree(inuse: Blocks, total: nat)
    ensures |UsedBelow(inuse, total)| + |FreeIndices(inuse, total)| == total
  {
    UnionSize(UsedBelow(inuse, total), FreeIndices(inuse, total));
    assert UsedBelow(inuse, total) + FreeIndices(inuse, total) == Range(0, total);
    RangeSize(0, total);
  }

  /** Passing one block: hi is the next block's start, or the total. */
  lemma UsedStep(inuse: Blocks, total: nat, b: nat, hi: nat)
    requires ValidBlocks(inuse, total) && b in inuse && b < hi
    requires hi == total || hi in inuse
    requires forall c :: c in inuse && b < c ==> hi <= c
    ensures |UsedBelow(inuse, hi)| == |UsedBelow(inuse, b)| + inuse[b]
  {
    hide InUse, Range, ValidBlocks;
    var block := Range(b, b + inuse[b]);
    RangeSize(b, b + inuse[b]);
    forall i: nat
      ensures i in UsedBelow(inuse, hi) <==> i in UsedBelow(inuse, b) || i in block
    {
      UsedAt(inuse, total, b, hi, i);
    }
    assert UsedBelow(inuse, hi) == UsedBelow(inuse, b) + block;
    UnionSize(UsedBelow(inuse, b), block);
  }

  lemma UsedAt(inuse: Blocks, total: nat, b: nat, hi: nat, i: nat)
    requires ValidBlocks(inuse, total) && b in inuse && b < hi
    requires hi == total || hi in inuse
    requires forall c :: c in inuse && b < c ==> hi <= c
    ensures b + inuse[b] <= hi
    ensures i < hi && InUse(inuse, i) <==> (i < b && InUse(inuse, i)) || b <= i < b + inuse[b]
  {
    if i < hi && InUse(inuse, i) {
      var c :| c in inuse && c <= i < c + inuse[c];
    }
  }

  // ----- Sums over the free lists

  ghost function AnyKey(list: map<nat, nat>): (k: nat)
    requires list != map[]
    ensures k in list
  {
    assert list.Keys != {};
    var k :| k in list.Keys;
    k
  }

  ghost function SumList(list: map<nat, nat>): nat {
    if list == map[] then 0
    else
      var k := AnyKey(list);
      list[k] + SumList(list - {k})
  }

  ghost function SumLists(lists: seq<map<nat, nat>>): nat {
    if lists == [] then 0 else SumList(lists[0]) + SumLists(lists[1..])
  }

  /** The indices that the entries of one list hold, among those below total. */
  ghost function Held(list: map<nat, nat>, total: nat): set<nat> {
    set i | 0 <= i < total && HeldBy(list, i)
  }

  ghost predicate HeldBy(list: map<nat, nat>, i: nat) {
    exists k :: k in list && k <= i < k + list[k]
  }

  ghost predicate EntriesApart(list: map<nat, nat>, total: nat) {
    && (forall k :: k in list ==> k + list[k] <= total)
    && (forall j, k :: j in list && k in list && j < k ==> j + list[j] <= k)
  }

  lemma {:induction false} SumListIsHeld(list: map<nat, nat>, total: nat)
    requires EntriesApart(list, total)
    ensures SumList(list) == |Held(list, total)|
    decreases |list|
  {
    hide Held, Range;
    if list == map[] {
      HeldNothing(total);
    } else {
      var k := AnyKey(list);
      var rest := list - {k};
      SumListIsHeld(rest, total);
      RangeSize(k, k + list[k]);
      HeldStep(list, total, k);
      UnionSize(Range(k, k + list[k]), Held(rest, total));
    }
  }

  lemma HeldNothing(total: nat)
    ensures Held(map[], total) == {}
  {
  }

  lemma HeldAt(list: map<nat, nat>, total: nat, k: nat, i: nat)
    requires EntriesApart(list, total) && k in list
    ensures k + list[k] <= total
    ensures HeldBy(list, i) <==> k <= i < k + list[k] || HeldBy(list - {k}, i)
    ensures !(k <= i < k + list[k] && HeldBy(list - {k}, i))
  {
    var rest := list - {k};
    assert forall j :: j in list && j != k ==> j in rest && rest[j] == list[j];
    assert forall j :: j in rest ==> j in list && j != k;
  }

  lemma HeldStep(list: map<nat, nat>, total: nat, k: nat)
    requires EntriesApart(list, total) && k in list
    ensures Held(list, total) == Range(k, k + list[k]) + Held(list - {k}, total)
    ensures Range(k, k + list[k]) !! Held(list - {k}, total)
  {
    hide HeldBy, Range, EntriesApart;
    HeldAt(list, total, k, 0);
    forall i: nat
      ensures HeldBy(list, i) <==> k <= i < k + list[k] || HeldBy(list - {k}, i)
      ensures !(k <= i < k + list[k] && HeldBy(list - {k}, i))
    {
      HeldAt(list, total, k, i);
    }
  }

  ghost predicate ListsApart(lists: seq<map<nat, nat>>, total: nat) {
    && (forall a :: 0 <= a < |lists| ==> EntriesApart(lists[a], total))
    && (forall a, b :: 0 <= a < b < |lists| ==> Held(lists[a], total) !! Held(lists[b], total))
  }

  ghost function HeldByAll(lists: seq<map<nat, nat>>, total: nat): set<nat> {
    set i | 0 <= i < total && InSomeList(lists, total, i)
  }

  ghost predicate InSomeList(lists: seq<map<nat, nat>>, total: nat, i: nat) {
    exists a :: 0 <= a < |lists| && i in Held(lists[a], total)
  }

  lemma {:induction false} SumListsIsHeld(lists: seq<map<nat, nat>>, total: nat)
    requires ListsApart(lists, total)
    ensures SumLists(lists) == |HeldByAll(lists, total)|
  {
    hide Held, EntriesApart;
    if lists == [] {
      assert HeldByAll(lists, total) == {};
    } else {
      var rest := lists[1..];
      SumListsIsHeld(rest, total);
      SumListIsHeld(lists[0], total);
      UnionSize(Held(lists[0], total), HeldByAll(rest, total));
      HeldInside(lists[0], total);
      HeldByAllStep(lists, total);
    }
  }

  lemma HeldInside(list: map<nat, nat>, total: nat)
    ensures forall i :: i in Held(list, total) ==> i < total
  {
  }

  lemma HeldByAllStep(lists: seq<map<nat, nat>>, total: nat)
    requires lists != []
    ensures HeldByAll(lists, total) == Held(lists[0], total) + HeldByAll(lists[1..], total)
  {
    hide Held;
    HeldInside(lists[0], total);
    var rest := lists[1..];
    forall i | 0 <= i < total
      ensures i in HeldByAll(lists, total) <==> i in Held(lists[0], total) || i in HeldByAll(rest, total)
    {
      if i in HeldByAll(lists, total) && i !in Held(lists[0], total) {
        var a :| 0 <= a < |lists| && i in Held(lists[a], total);
        assert i in Held(rest[a - 1], total);
      }
      if i in HeldByAll(rest, total) {
        var a :| 0 <= a < |rest| && i in Held(rest[a], total);
        assert i in Held(lists[a + 1], total);
      }
    }
  }
}
