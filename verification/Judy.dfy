/** Judy arrays as the utilities use them: ordered sets and the ordered key sets of ordered maps.

    First and Last look from their argument inclusively, Next and Prev exclusively
    (JudyFirst.c:23).  The insides of the library are not modelled. */
module Judy {

  datatype Option<+T> = None | Some(value: T)

  /** J1F, JLF: the least key at or after index. */
  function First(keys: set<nat>, index: nat): (r: Option<nat>)
    ensures r.None? <==> forall k :: k in keys ==> k < index
    ensures r.Some? ==> r.value in keys && index <= r.value
    ensures r.Some? ==> forall k :: k in keys && index <= k ==> r.value <= k
  {
    if exists k :: k in keys && index <= k then
      ghost var some :| some in keys && index <= some;
      HasLeast(keys, index, some);
      var k :| k in keys && index <= k && forall j :: j in keys && index <= j ==> k <= j;
      Some(k)
    else
      None
  }

  /** J1N, JLN: the least key after index. */
  function Next(keys: set<nat>, index: nat): (r: Option<nat>)
    ensures r.None? <==> forall k :: k in keys ==> k <= index
    ensures r.Some? ==> r.value in keys && index < r.value
    ensures r.Some? ==> forall k :: k in keys && index < k ==> r.value <= k
  {
    First(keys, index + 1)
  }

  /** J1P, JLP: the greatest key before index. */
  function Prev(keys: set<nat>, index: nat): (r: Option<nat>)
    ensures r.None? <==> forall k :: k in keys ==> index <= k
    ensures r.Some? ==> r.value in keys && r.value < index
    ensures r.Some? ==> forall k :: k in keys && k < index ==> k <= r.value
    decreases index
  {
    if index == 0 then None
    else if index - 1 in keys then Some(index - 1)
    else Prev(keys, index - 1)
  }

  /** J1FE: the least index, at or after the argument, that is not a key. */
  function FirstEmpty(keys: set<nat>, index: nat): (r: nat)
    ensures index <= r && r !in keys
    ensures forall k :: index <= k < r ==> k in keys
    decreases set k | k in keys && index <= k
  {
    if index in keys then
      assert (set k | k in keys && index <= k) == (set k | k in keys && index + 1 <= k) + {index};
      FirstEmpty(keys, index + 1)
    else
      index
  }

  /** J1NE: the least index after the argument that is not a key. */
  function NextEmpty(keys: set<nat>, index: nat): (r: nat)
    ensures index < r && r !in keys
    ensures forall k :: index < k < r ==> k in keys
  {
    FirstEmpty(keys, index + 1)
  }

  /** J1LE: the greatest index, at or before the argument, that is not a key. */
  function LastEmpty(keys: set<nat>, index: nat): (r: Option<nat>)
    ensures r.None? <==> forall k :: 0 <= k <= index ==> k in keys
    ensures r.Some? ==> r.value <= index && r.value !in keys
    ensures r.Some? ==> forall k :: r.value < k <= index ==> k in keys
    decreases index
  {
    if index !in keys then Some(index)
    else if index == 0 then None
    else LastEmpty(keys, index - 1)
  }

  /** J1PE: the greatest index before the argument that is not a key. */
  function PrevEmpty(keys: set<nat>, index: nat): (r: Option<nat>)
    ensures r.None? <==> forall k :: 0 <= k < index ==> k in keys
    ensures r.Some? ==> r.value < index && r.value !in keys
    ensures r.Some? ==> forall k :: r.value < k < index ==> k in keys
  {
    if index == 0 then None else LastEmpty(keys, index - 1)
  }

  lemma {:induction false} HasLeast(keys: set<nat>, index: nat, some: nat)
    requires some in keys && index <= some
    ensures exists k :: k in keys && index <= k && forall j :: j in keys && index <= j ==> k <= j
    decreases some - index
  {
    if index !in keys {
      HasLeast(keys, index + 1, some);
    }
  }
}
