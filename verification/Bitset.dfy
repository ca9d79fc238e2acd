/** The fixed-width bitset over an array of 64-bit words.

    The bits past the width may hold anything: the operations that look at the last word mask it first. */
module Bitset {
  import opened BitUtils
  import opened Words

  /** The bit at position i of a row of words. */
  ghost predicate BitAt(ws: seq<Word>, i: nat)
    requires i < 64 * |ws|
  {
    Bit(ws[i / 64], i % 64)
  }

  ghost function MembersOf(ws: seq<Word>, width: nat): (r: set<nat>)
    requires width <= 64 * |ws|
    ensures forall i: nat :: i < width ==> (i in r <==> BitAt(ws, i))
    ensures forall i :: i in r ==> i < width
  {
    if width == 0 then {}
    else MembersOf(ws, width - 1) + (if BitAt(ws, width - 1) then {width - 1} else {})
  }

  lemma PlaceOf(idx: nat, k: nat)
    requires k < 64
    ensures (64 * idx + k) / 64 == idx && (64 * idx + k) % 64 == k
  {
  }

  /** Rows that agree bit by bit within a width have the same members. */
  lemma SameMembers(a: seq<Word>, b: seq<Word>, width: nat)
    requires |a| == |b| && width <= 64 * |a|
    requires forall i: nat :: i < width ==> BitAt(a, i) == BitAt(b, i)
    ensures MembersOf(a, width) == MembersOf(b, width)
  {
    hide BitAt, MembersOf;
  }

  /** One word of a row is replaced. */
  lemma WordReplaced(ws: seq<Word>, idx: nat, w: Word, i: nat)
    requires idx < |ws| && i < 64 * |ws|
    ensures BitAt(ws[idx := w], i) == if i / 64 == idx then Bit(w, i % 64) else BitAt(ws, i)
  {
  }

  class WordBitset {
    const width: nat
    const bs: array<Word>

    predicate Valid() {
      0 < width < INT_LIMIT && bs.Length == (width + 63) / 64
    }

    /** bf_bs_init: the caller supplies the words. */
    constructor (width: nat, mem: array<Word>)
      requires 0 < width < INT_LIMIT && mem.Length == (width + 63) / 64
      ensures Valid() && this.width == width && bs == mem
    {
      this.width, this.bs := width, mem;
    }

    ghost function Members(): set<nat>
      requires Valid()
      reads bs
    {
      MembersOf(bs[..], width)
    }

    /** No bit past the width is set. */
    ghost predicate Clean()
      requires Valid()
      reads bs
    {
      forall i: nat :: width <= i < 64 * bs.Length ==> !BitAt(bs[..], i)
    }

    function TopWordMask(): (r: Word)
      requires Valid()
      ensures forall k :: 0 <= k < 64 ==> Bit(r, k) == (64 * (bs.Length - 1) + k < width)
    {
      hide Bit;
      var x := width % 64;
      if x != 0 then Mask(x) else Ones()
    }

    method MaskTop()
      requires Valid()
      modifies bs
      ensures Clean() && Members() == old(Members())
      ensures forall j :: 0 <= j < bs.Length - 1 ==> bs[j] == old(bs[j])
    {
      hide Bit, BitAt, MembersOf;
      ghost var before := bs[..];
      var last := bs.Length - 1;
      bs[last] := And(bs[last], TopWordMask());
      assert bs[..] == before[last := bs[last]];
      forall i: nat | i < 64 * bs.Length
        ensures BitAt(bs[..], i) == (i < width && BitAt(before, i))
      {
        WordReplaced(before, last, bs[last], i);
        AtPlace(before, i);
      }
      SameMembers(bs[..], before, width);
    }

    lemma AtPlace(ws: seq<Word>, i: nat)
      requires i < 64 * |ws|
      ensures BitAt(ws, i) == Bit(ws[i / 64], i % 64)
    {
    }

    method Set(position: nat, val: bool) returns (prev: bool)
      requires Valid() && position < width
      modifies bs
      ensures prev == (position in old(Members()))
      ensures Members() == if val then old(Members()) + {position} else old(Members()) - {position}
      ensures old(Clean()) ==> Clean()
    {
      hide Bit, BitAt, MembersOf;
      ghost var before := bs[..];
      var idx, shift := position / 64, position % 64;
      BitTest(bs[idx], shift);
      AtPlace(before, position);
      var tmp := Shl(1, shift);
      prev := And(bs[idx], tmp) != 0;
      if val && !prev {
        bs[idx] := Or(bs[idx], tmp);
      } else if !val && prev {
        bs[idx] := And(bs[idx], Not(tmp));
      }
      assert bs[..] == before[idx := bs[idx]];
      forall i: nat | i < 64 * bs.Length
        ensures BitAt(bs[..], i) == if i == position then val else BitAt(before, i)
      {
        WordReplaced(before, idx, bs[idx], i);
        AtPlace(before, i);
      }
    }

    method Get(position: nat) returns (r: bool)
      requires Valid() && position < width
      ensures r == (position in Members())
    {
      hide Bit, BitAt, MembersOf;
      BitTest(bs[position / 64], position % 64);
      AtPlace(bs[..], position);
      r := And(Shr(bs[position / 64], position % 64), 1) == 1;
    }

    // ----- Bit fields

    /** Writes size bits of val from position on, as far as the width allows, and touches nothing else. */
    method SetWord(position: nat, size: nat, val: Word)
      requires Valid() && position < width && 0 < size <= 64
      modifies bs
      ensures forall i: nat :: i < width ==>
        (i in Members() <==> if position <= i < position + size then Bit(val, i - position) else i in old(Members()))
      ensures old(Clean()) ==> Clean()
    {
      hide Bit, BitAt, MembersOf;
      ghost var before := bs[..];
      var n := if width - position < size then width - position else size;
      var idx, offset, v := position / 64, position % 64, val;
      if n < 64 {
        LowOfField(before[idx], offset, n, val);
        v := And(v, Mask(n));
        bs[idx] := And(bs[idx], Not(Shl(Mask(n), offset)));
      } else {
        LowOfFullField(before[idx], offset, val);
        bs[idx] := And(bs[idx], Not(Shl(Ones(), offset)));
      }
      bs[idx] := Or(bs[idx], Shl(v, offset));
      ghost var low := bs[idx];
      assert bs[..] == before[idx := low];
      var spill := offset + n - 64;
      if spill > 0 {
        HighOfField(before[idx + 1], offset, n, val, v);
        bs[idx + 1] := And(bs[idx + 1], Not(Mask(spill)));
        bs[idx + 1] := Or(bs[idx + 1], Shr(v, n - spill));
        assert bs[..] == before[idx := low][idx + 1 := bs[idx + 1]];
      }
      FieldWritten(before, bs[..], position, n, val);
    }

    /** Reads n bits from offset on, as far as the width allows. */
    method GetWord(position: nat, size: nat) returns (word: Word)
      requires Valid() && position < width && 0 < size <= 64
      ensures forall k :: 0 <= k < 64 ==> (Bit(word, k) <==> k < size && position + k in Members())
    {
      hide Bit, BitAt, MembersOf;
      var n := if width - position < size then width - position else size;
      var idx, offset := position / 64, position % 64;
      word := bs[idx];
      if offset != 0 {
        word := Shr(word, offset);
        var spill := offset + n - 64;
        if spill > 0 {
          var word2 := bs[idx + 1];
          word := Or(word, Shl(word2, n - spill));
        }
      }
      assert forall k :: 0 <= k < n ==>
        Bit(word, k) == if offset + k < 64 then Bit(bs[idx], offset + k) else Bit(bs[idx + 1], offset + k - 64);
      if n < 64 {
        word := And(word, Mask(n));
      }
      forall k | 0 <= k < 64
        ensures Bit(word, k) <==> k < size && position + k in Members()
      {
        if k < n {
          AtPlace(bs[..], position + k);
        }
      }
    }

    /** The least set position after the argument. */
    method FirstSet(position: int) returns (r: int)
      requires Valid() && -1 <= position < width
      modifies bs
      ensures Members() == old(Members()) && (old(Clean()) ==> Clean())
      ensures r == -1 <==> forall i :: i in Members() ==> i <= position
      ensures r != -1 ==> r in Members() && position < r && forall i :: i in Members() && position < i ==> r <= i
    {
      hide Bit, BitAt, MembersOf;
      var from := position + 1;
      if from >= width {
        return -1;
      }
      var last := bs.Length - 1;
      var i, shift := from / 64, from % 64;
      MaskTop();
      NoMemberPast();
      var x := Ffs(Shr(bs[i], shift));
      FoundInWord(i, shift, x);
      if x != 0 {
        return 64 * i + x - 1 + shift;
      }
      if i == last {
        return -1;
      }
      i := i + 1;
      while i < last
        invariant from / 64 < i <= last
        invariant forall j: nat :: from <= j < 64 * i ==> !BitAt(bs[..], j)
        modifies {}
      {
        x := Ffs(bs[i]);
        FoundInWholeWord(i, x);
        if x != 0 {
          return 64 * i + x - 1;
        }
        i := i + 1;
      }
      x := Ffs(bs[i]);
      FoundInWholeWord(i, x);
      if x != 0 && 64 * i + x - 1 < width {
        return 64 * i + x - 1;
      }
      return -1;
    }

    lemma NoMemberPast()
      requires Valid() && Clean()
      ensures forall i: nat :: i < 64 * bs.Length ==> (i in Members() <==> BitAt(bs[..], i))
    {
      hide BitAt, MembersOf;
    }

    /** What the lowest one bit of a shifted word says about the row. */
    lemma FoundInWord(idx: nat, shift: nat, x: nat)
      requires Valid() && idx < bs.Length && shift < 64 && x == Ffs(Shr(bs[idx], shift))
      ensures x == 0 ==> forall j: nat :: 64 * idx + shift <= j < 64 * (idx + 1) ==> !BitAt(bs[..], j)
      ensures x > 0 ==> shift + x - 1 < 64 && BitAt(bs[..], 64 * idx + shift + x - 1)
      ensures x > 0 ==> forall j: nat :: 64 * idx + shift <= j < 64 * idx + shift + x - 1 ==> !BitAt(bs[..], j)
    {
      hide Bit, BitAt, MembersOf;
      var w := Shr(bs[idx], shift);
      forall j: nat | 64 * idx + shift <= j < 64 * (idx + 1)
        ensures BitAt(bs[..], j) == Bit(w, j - 64 * idx - shift)
      {
        AtPlace(bs[..], j);
        PlaceOf(idx, j - 64 * idx);
      }
    }

    lemma FoundInWholeWord(idx: nat, x: nat)
      requires Valid() && idx < bs.Length && x == Ffs(bs[idx])
      ensures x == 0 ==> forall j: nat :: 64 * idx <= j < 64 * (idx + 1) ==> !BitAt(bs[..], j)
      ensures x > 0 ==> x <= 64 && BitAt(bs[..], 64 * idx + x - 1)
      ensures x > 0 ==> forall j: nat :: 64 * idx <= j < 64 * idx + x - 1 ==> !BitAt(bs[..], j)
    {
      hide Bit, BitAt, MembersOf;
      forall j: nat | 64 * idx <= j < 64 * (idx + 1)
        ensures BitAt(bs[..], j) == Bit(bs[idx], j - 64 * idx)
      {
        AtPlace(bs[..], j);
        PlaceOf(idx, j - 64 * idx);
      }
    }

    // ----- Whole sets

    method SetAll(val: bool)
      requires Valid()
      modifies bs
      ensures Clean() && forall i: nat :: i in Members() <==> val && i < width
    {
      hide Bit, BitAt, MembersOf;
      var len := bs.Length;
      if val {
        for i := 0 to len
          invariant forall j :: 0 <= j < i ==> bs[j] == Ones()
        {
          bs[i] := Ones();
        }
        forall i: nat | i < width
          ensures BitAt(bs[..], i)
        {
          AtPlace(bs[..], i);
        }
        MaskTop();
      } else {
        for i := 0 to len
          invariant forall j :: 0 <= j < i ==> bs[j] == 0
        {
          bs[i] := 0;
        }
        forall i: nat | i < 64 * bs.Length
          ensures !BitAt(bs[..], i)
        {
          AtPlace(bs[..], i);
          ZeroBit(i % 64);
        }
      }
    }

    /** The number of members. */
    method CountOnes() returns (cnt: nat)
      requires Valid()
      modifies bs
      ensures Members() == old(Members()) && (old(Clean()) ==> Clean())
      ensures cnt == |Members()|
    {
      hide Bit, BitAt, MembersOf, PopCount;
      cnt := 0;
      MaskTop();
      NoMembers(bs[..]);
      var i := 0;
      while i < bs.Length
        invariant 0 <= i <= bs.Length
        invariant cnt == |MembersOf(bs[..], 64 * i)|
        modifies {}
      {
        WordCounted(bs[..], i);
        cnt := cnt + PopCount(bs[i]);
        i := i + 1;
      }
      NoMemberPast();
      assert MembersOf(bs[..], 64 * i) == Members();
    }
  }

  lemma NoMembers(ws: seq<Word>)
    ensures MembersOf(ws, 0) == {}
  {
  }

  /** A word contributes its one bits. */
  lemma WordCounted(ws: seq<Word>, idx: nat)
    requires idx < |ws|
    ensures |MembersOf(ws, 64 * (idx + 1))| == |MembersOf(ws, 64 * idx)| + PopCount(ws[idx])
  {
    hide MembersOf, OnesBelow, PopCount, Bit, BitAt;
    assert 64 * (idx + 1) == 64 * idx + 64;
    PopCountOfWord(ws[idx]);
    PartCounted(ws, idx, 64);
  }

  lemma MembersStep(ws: seq<Word>, n: nat)
    requires n < 64 * |ws|
    ensures |MembersOf(ws, n + 1)| == |MembersOf(ws, n)| + (if BitAt(ws, n) then 1 else 0)
  {
    hide BitAt;
  }

  lemma {:induction false} PartCounted(ws: seq<Word>, idx: nat, n: nat)
    requires idx < |ws| && n <= 64
    ensures |MembersOf(ws, 64 * idx + n)| == |MembersOf(ws, 64 * idx)| + OnesBelow(ws[idx], n)
  {
    hide Bit, MembersOf;
    if n > 0 {
      PartCounted(ws, idx, n - 1);
      MembersStep(ws, 64 * idx + n - 1);
      PlaceOf(idx, n - 1);
    }
  }

  /** What is read back is what was written, as far as the width allows. */
  method WriteThenRead(b: WordBitset, position: nat, size: nat, val: Word) returns (r: Word)
    requires b.Valid() && position < b.width && 0 < size <= 64
    modifies b.bs
    ensures r == val % Pow2(if b.width - position < size then b.width - position else size)
    ensures forall i: nat :: i < b.width ==>
      (i in b.Members() <==>
         if position <= i < position + size then Bit(val, i - position) else i in old(b.Members()))
  {
    hide Bit, BitAt, MembersOf, Pow2, Low;
    b.SetWord(position, size, val);
    r := b.GetWord(position, size);
    ghost var n := if b.width - position < size then b.width - position else size;
    LowBits(val, n);
    LowSmaller(val, n);
    LowIsRemainder(val, n);
    WordsDetermined(r, Low(val, n));
  }

  /** Equality of sets, read word by word. */
  method Equal(x: WordBitset, y: WordBitset) returns (r: bool)
    requires x.Valid() && y.Valid()
    modifies x.bs, y.bs
    ensures x.Members() == old(x.Members()) && y.Members() == old(y.Members())
    ensures r <==> x.width == y.width && x.Members() == y.Members()
  {
    hide Bit, BitAt, MembersOf;
    if x.width != y.width {
      return false;
    }
    x.MaskTop();
    y.MaskTop();
    var i := 0;
    while i < x.bs.Length
      invariant 0 <= i <= x.bs.Length
      invariant forall j: nat :: j < 64 * i && j < x.width ==> (j in x.Members() <==> j in y.Members())
      modifies {}
    {
      var xx := x.GetWord(i * 64, 64);
      var yy := y.GetWord(i * 64, 64);
      if xx != yy {
        WordsDiffer(x, y, i, xx, yy);
        return false;
      }
      forall j: nat | 64 * i <= j < 64 * (i + 1) && j < x.width
        ensures j in x.Members() <==> j in y.Members()
      {
        assert Bit(xx, j - 64 * i) == Bit(yy, j - 64 * i);
      }
      i := i + 1;
    }
    return true;
  }

  lemma WordsDiffer(x: WordBitset, y: WordBitset, i: nat, xx: Word, yy: Word)
    requires x.Valid() && y.Valid() && xx != yy
    requires forall k :: 0 <= k < 64 ==> (Bit(xx, k) <==> i * 64 + k in x.Members())
    requires forall k :: 0 <= k < 64 ==> (Bit(yy, k) <==> i * 64 + k in y.Members())
    ensures x.Members() != y.Members()
  {
    hide Bit, BitAt, MembersOf;
    if forall k :: 0 <= k < 64 ==> Bit(xx, k) == Bit(yy, k) {
      WordsDetermined(xx, yy);
    }
  }

  /** The first word of a field: bits offset to offset + n are val's. */
  ghost predicate FieldLow(w: Word, r: Word, offset: nat, n: nat, val: Word) {
    forall k :: 0 <= k < 64 ==>
      Bit(r, k) == if offset <= k < offset + n then Bit(val, k - offset) else Bit(w, k)
  }

  /** The word after it: the bits that spilled over. */
  ghost predicate FieldHigh(w: Word, r: Word, offset: nat, n: nat, val: Word)
    requires offset < 64
  {
    forall k :: 0 <= k < 64 ==>
      Bit(r, k) == if k + 64 < offset + n then Bit(val, k + 64 - offset) else Bit(w, k)
  }

  lemma LowOfField(w: Word, offset: nat, n: nat, val: Word)
    requires offset < 64 && n < 64
    ensures FieldLow(w, Or(And(w, Not(Shl(Mask(n), offset))), Shl(And(val, Mask(n)), offset)), offset, n, val)
  {
    hide Bit, And, Or, Not, Shl, Mask;
  }

  lemma LowOfFullField(w: Word, offset: nat, val: Word)
    requires offset < 64
    ensures FieldLow(w, Or(And(w, Not(Shl(Ones(), offset))), Shl(val, offset)), offset, 64, val)
  {
    hide Bit, And, Or, Not, Shl, Ones;
  }

  lemma HighOfField(w: Word, offset: nat, n: nat, val: Word, v: Word)
    requires offset < 64 && 64 < offset + n <= 64 + n <= 128
    requires v == if n < 64 then And(val, Mask(n)) else val
    ensures FieldHigh(w, Or(And(w, Not(Mask(offset + n - 64))), Shr(v, 64 - offset)), offset, n, val)
  {
    hide Bit, And, Or, Not, Shr, Mask;
  }

  /** The two words of a field, seen as positions of the row. */
  lemma FieldWritten(before: seq<Word>, after: seq<Word>, position: nat, n: nat, val: Word)
    requires |before| == |after| && 0 < n <= 64 && position + n <= 64 * |before|
    requires var idx, offset := position / 64, position % 64;
      && FieldLow(before[idx], after[idx], offset, n, val)
      && (offset + n > 64 ==> FieldHigh(before[idx + 1], after[idx + 1], offset, n, val))
      && forall j :: 0 <= j < |before| && j != idx && (j == idx + 1 ==> offset + n <= 64) ==> after[j] == before[j]
    ensures forall i: nat :: i < 64 * |before| ==>
      BitAt(after, i) == if position <= i < position + n then Bit(val, i - position) else BitAt(before, i)
  {
    hide Bit;
  }
}
