/** From an index to its ordinal: the counting walk, the order that its result counts by, and the inverse laws. */
module JudyCount {
  import opened BitUtils
  import opened Judy
  import opened Words
  import opened JudyBranches
  import opened JudyIndexes
  import opened JudyTrees
  import opened JudyGet
  import opened JudyByCount

  /** j__udyCountLeafB1: the offset of a digit, counted up to it or down to it. */
  method CountLeafB1(jp: Jp, ghost k: nat, digit: nat) returns (count: nat)
    requires BitLeaf(jp, k) && digit < DIGITS && KeysUnder(jp, k, digit) != []
    ensures count == PopTo(jp, k, digit)
  {
    if digit / LEAF_BITS < LEAF_SUBS / 2 {
      count := CountLeafUp(jp, k, digit);
    } else {
      count := CountLeafDown(jp, k, digit);
    }
  }

  method CountLeafUp(jp: Jp, ghost k: nat, digit: nat) returns (offset: nat)
    requires BitLeaf(jp, k) && digit < DIGITS && KeysUnder(jp, k, digit) != []
    ensures offset == PopTo(jp, k, digit)
  {
    hide PopTo, Shape, Counted, KeysUnder, Bit, OnesBelow, PopCount;
    var bitmap, findsub, findbit := jp.body.bitmap, digit / LEAF_BITS, digit % LEAF_BITS;
    var w := bitmap[findsub];
    BitsWhole(jp, k, 0);
    var count := 0;
    for subexp := 0 to findsub
      invariant count == PopTo(jp, k, LEAF_BITS * subexp)
    {
      BitsWhole(jp, k, subexp);
      FullCount(bitmap[subexp]);
      count := count + if bitmap[subexp] == TWO_64 - 1 then LEAF_BITS else PopCount(bitmap[subexp]);
    }
    UpToDigit(jp, k, digit);
    count := count + PopCount(And(w, MaskLowerInc(findbit)));
    offset := count - 1;
  }

  /** The keys of the digit's word up to the digit, itself included. */
  lemma UpToDigit(jp: Jp, k: nat, digit: nat)
    requires BitLeaf(jp, k) && digit < DIGITS && KeysUnder(jp, k, digit) != []
    ensures var s, m := digit / LEAF_BITS, digit % LEAF_BITS;
            PopTo(jp, k, LEAF_BITS * s) + PopCount(And(jp.body.bitmap[s], MaskLowerInc(m)))
            == PopTo(jp, k, digit) + 1
  {
    hide PopTo, Shape, Counted, Bit, OnesBelow, PopCount, And, MaskLowerInc;
    var s, m := digit / LEAF_BITS, digit % LEAF_BITS;
    BitsRank(jp, k, s, m);
    OneMore(jp.body.bitmap[s], m);
    LowerCount(jp.body.bitmap[s], m);
  }

  method CountLeafDown(jp: Jp, ghost k: nat, digit: nat) returns (count: nat)
    requires BitLeaf(jp, k) && digit < DIGITS
    ensures count == PopTo(jp, k, digit)
  {
    hide PopTo, Shape, Counted, Bit, OnesBelow, PopCount;
    var bitmap, findsub, findbit := jp.body.bitmap, digit / LEAF_BITS, digit % LEAF_BITS;
    BitsWhole(jp, k, 0);
    count := jp.pop1;
    var subexp := LEAF_SUBS - 1;
    while subexp > findsub
      invariant findsub <= subexp < LEAF_SUBS
      invariant count == PopTo(jp, k, LEAF_BITS * (subexp + 1))
    {
      BitsWhole(jp, k, subexp);
      FullCount(bitmap[subexp]);
      count := count - if bitmap[subexp] == TWO_64 - 1 then LEAF_BITS else PopCount(bitmap[subexp]);
      subexp := subexp - 1;
    }
    BitsWhole(jp, k, findsub);
    BitsRank(jp, k, findsub, findbit);
    HigherCount(bitmap[findsub], findbit);
    count := count - PopCount(And(bitmap[findsub], MaskHigherInc(findbit)));
  }

  lemma FullCount(w: Word)
    ensures w == TWO_64 - 1 ==> PopCount(w) == LEAF_BITS
  {
    hide PopCount, OnesBelow, Pow2;
    PopCountOfWord(w);
    if w == TWO_64 - 1 {
      Pow2Of64();
      AllOnes(64, 64);
    }
  }

  lemma {:induction false} AllOnes(n: nat, k: nat)
    requires k <= n
    ensures OnesBelow(Pow2(n) - 1, k) == k
  {
    hide Bit, Pow2;
    if k > 0 {
      AllOnes(n, k - 1);
      MaskBit(n, k - 1);
    }
  }

  /** The bits at or below a position, masked out and counted. */
  lemma LowerCount(w: Word, m: nat)
    requires m < 64
    ensures PopCount(And(w, MaskLowerInc(m))) == OnesBelow(w, m + 1)
  {
    hide Bit, PopCount, OnesBelow, And, MaskLowerInc;
    PopCountOfWord(And(w, MaskLowerInc(m)));
    OnesCut(And(w, MaskLowerInc(m)), w, m + 1, 64);
  }

  lemma HigherCount(w: Word, m: nat)
    requires m < 64
    ensures PopCount(And(w, MaskHigherInc(m))) == PopCount(w) - OnesBelow(w, m)
  {
    hide Bit, PopCount, OnesBelow, And, MaskHigherInc;
    var high := And(w, MaskHigherInc(m));
    PopCountOfWord(high);
    PopCountOfWord(w);
    OnesAbove(high, w, m, 64);
  }

  lemma {:induction false} OnesAbove(high: nat, w: nat, m: nat, n: nat)
    requires m <= n && forall i :: 0 <= i < n ==> Bit(high, i) == (m <= i && Bit(w, i))
    ensures OnesBelow(high, n) == OnesBelow(w, n) - OnesBelow(w, m)
    decreases n
  {
    hide Bit;
    if n > m {
      OnesAbove(high, w, m, n - 1);
    } else {
      OnesBelowMonotone(high, 0, n);
    }
  }

  /** The populations above a digit. */
  ghost predicate Above(jp: Jp, k: nat, digit: nat, child: Jp, above: nat)
    requires Branch(jp, k)
  {
    && digit < DIGITS && Child(jp.body, digit) == Some(child)
    && above == jp.pop1 - PopTo(jp, k, digit + 1)
  }

  /** That is how many keys have a greater byte there. */
  lemma AboveCountsKeys(jp: Jp, k: nat, digit: nat, child: Jp, above: nat)
    requires Branch(jp, k) && Above(jp, k, digit, child, above)
    ensures |jp.dcd| < k && forall i :: 0 <= i < |Keys(jp, k)| ==> |Keys(jp, k)[i]| == k
    ensures |set i | 0 <= i < |Keys(jp, k)| && digit < Keys(jp, k)[i][|jp.dcd|]| == above
  {
    hide Shape, Counted, KeysTo, Child, Digital;
    StoredPop(jp, k);
    forall i | 0 <= i < |Keys(jp, k)|
      ensures |Keys(jp, k)[i]| == k
      ensures digit < Keys(jp, k)[i][|jp.dcd|] <==> PopTo(jp, k, digit + 1) <= i
    {
      KeysAreBytes(jp, k, i);
      WholePop(jp, k);
      var d := ByteAt(jp, k, i);
      if d <= digit {
        PopMonotone(jp, k, d + 1, digit + 1);
      } else {
        PopMonotone(jp, k, digit + 1, d);
      }
    }
    var positions := set i | 0 <= i < |Keys(jp, k)| && digit < Keys(jp, k)[i][|jp.dcd|];
    Ends(jp, k);
    PopMonotone(jp, k, digit + 1, DIGITS);
    IntervalSize(positions, PopTo(jp, k, digit + 1), |Keys(jp, k)|);
  }

  lemma ByteAt(jp: Jp, k: nat, i: nat) returns (d: nat)
    requires Branch(jp, k) && i < |Keys(jp, k)|
    ensures d < DIGITS && |Keys(jp, k)[i]| == k && |jp.dcd| < k && Keys(jp, k)[i][|jp.dcd|] == d
    ensures PopTo(jp, k, d) <= i < PopTo(jp, k, d + 1)
  {
    hide Shape, Counted, KeysTo, Child, Digital, KeysUnder;
    StoredPop(jp, k);
    WholePop(jp, k);
    KeysAreBytes(jp, k, i);
    var j;
    d, j := KeyOf(jp, k, DIGITS, i);
    KeysUnderAscending(jp, k, d);
    KeyAt(jp, k, d, j, d + 1);
  }

  method AboveInLinear(jp: Jp, ghost k: nat, digit: nat) returns (above: nat, child: Jp)
    requires Branch(jp, k) && jp.body.Linear? && digit < DIGITS && Child(jp.body, digit).Some?
    ensures Above(jp, k, digit, child, above)
  {
    hide PopTo, Shape, Counted;
    var l := jp.body.l;
    LinearStart(jp, k);
    assert digit in l.expanse;
    above := 0;
    var jpnum := |l.jps| - 1;
    LinearStep(jp, k, jpnum);
    while digit < l.expanse[jpnum]
      invariant 0 <= jpnum < |l.jps| && digit in l.expanse[..jpnum + 1]
      invariant above == jp.pop1 - PopTo(jp, k, DigitOf(l, jpnum + 1))
    {
      LinearStep(jp, k, jpnum);
      above := above + l.jps[jpnum].pop1;
      jpnum := jpnum - 1;
    }
    LinearStep(jp, k, jpnum);
    child := l.jps[jpnum];
  }

  /** Either direction of the bitmap branch; which one is taken depends on cache lines, and is left open. */
  method AboveInBitmap(jp: Jp, ghost k: nat, digit: nat) returns (above: nat, child: Jp)
    requires Branch(jp, k) && jp.body.Bitmap? && digit < DIGITS && Child(jp.body, digit).Some?
    ensures Above(jp, k, digit, child, above)
  {
    hide PopTo, Shape, Counted, Bit, OnesBelow, PopCount, Above;
    if * {
      above, child := AboveUpInBitmap(jp, k, digit);
    } else {
      above, child := AboveDownInBitmap(jp, k, digit);
    }
  }

  lemma FindBit(jp: Jp, k: nat, digit: nat)
    requires Branch(jp, k) && jp.body.Bitmap? && digit < DIGITS && Child(jp.body, digit).Some?
    ensures var b, s, m := jp.body.b, digit / BITS, digit % BITS;
            var n := OnesBelow(b.bitmap[s], m + 1);
            && PopCount(And(b.bitmap[s], MaskLowerInc(m))) == n
            && 0 < n <= |b.jps[s]| == PopCount(b.bitmap[s]) && Child(jp.body, digit) == Some(b.jps[s][n - 1])
            && PopTo(jp, k, digit + 1) == PopTo(jp, k, BITS * s) + SubPop(b.jps[s], n)
  {
    hide PopTo, Shape, Counted, Bit, PopCount, OnesBelow;
    var w, m := jp.body.b.bitmap[digit / BITS], digit % BITS;
    LowerCount(w, m);
    OneMore(w, m);
    SubRank(jp, k, digit / BITS, m + 1);
  }

  /** Subtracts the populations at or below the digit from the whole. */
  method AboveUpInBitmap(jp: Jp, ghost k: nat, digit: nat) returns (above: nat, child: Jp)
    requires Branch(jp, k) && jp.body.Bitmap? && digit < DIGITS && Child(jp.body, digit).Some?
    ensures Above(jp, k, digit, child, above)
  {
    hide PopTo, Shape, Counted, Bit, OnesBelow, PopCount, Child;
    var b, findsub, findbit := jp.body.b, digit / BITS, digit % BITS;
    FindBit(jp, k, digit);
    Ends(jp, k);
    PopMonotone(jp, k, digit + 1, DIGITS);
    var rest: int := jp.pop1;
    var jpcount: nat := 0;
    for subexp := 0 to findsub + 1
      invariant subexp <= findsub ==> rest == jp.pop1 - PopTo(jp, k, BITS * subexp)
      invariant subexp == findsub + 1 ==>
        jpcount == PopCount(And(b.bitmap[findsub], MaskLowerInc(findbit))) && rest == jp.pop1 - PopTo(jp, k, digit + 1)
    {
      jpcount := PopCount(if subexp < findsub then b.bitmap[subexp] else And(b.bitmap[subexp], MaskLowerInc(findbit)));
      SubWhole(jp, k, subexp);
      var taken := Subtract(b.jps[subexp], jpcount, rest);
      rest := taken;
    }
    above, child := rest, b.jps[findsub][jpcount - 1];
  }

  /** The inner loop: the first n children of a subarray. */
  method Subtract(jps: seq<Jp>, n: nat, from: int) returns (rest: int)
    requires n <= |jps|
    ensures rest == from - SubPop(jps, n)
  {
    rest := from;
    for jpnum := 0 to n
      invariant rest == from - SubPop(jps, jpnum)
    {
      rest := rest - jps[jpnum].pop1;
    }
  }

  /** Adds the populations above the digit. */
  method AboveDownInBitmap(jp: Jp, ghost k: nat, digit: nat) returns (above: nat, child: Jp)
    requires Branch(jp, k) && jp.body.Bitmap? && digit < DIGITS && Child(jp.body, digit).Some?
    ensures Above(jp, k, digit, child, above)
  {
    hide PopTo, Shape, Counted, Bit, OnesBelow, PopCount, Child;
    var b, findsub, findbit := jp.body.b, digit / BITS, digit % BITS;
    FindBit(jp, k, digit);
    Ends(jp, k);
    above := 0;
    var jpcountbf: nat := 0;
    var subexp := SUBS - 1;
    while subexp >= findsub
      invariant findsub - 1 <= subexp < SUBS
      invariant findsub <= subexp ==> jpcountbf == 0 && above == jp.pop1 - PopTo(jp, k, BITS * (subexp + 1))
      invariant subexp == findsub - 1 ==>
        && jpcountbf == PopCount(And(b.bitmap[findsub], MaskLowerInc(findbit)))
        && above == jp.pop1 - PopTo(jp, k, digit + 1)
    {
      var jpcount := PopCount(b.bitmap[subexp]);
      SubWhole(jp, k, subexp);
      if jpcount != 0 {
        if subexp == findsub {
          jpcountbf := PopCount(And(b.bitmap[subexp], MaskLowerInc(findbit)));
        }
        var jpnum := jpcount - 1;
        while jpnum >= jpcountbf
          invariant jpcountbf - 1 <= jpnum < jpcount
          invariant above == jp.pop1 - PopTo(jp, k, BITS * subexp) - SubPop(b.jps[subexp], jpnum + 1)
        {
          above := above + b.jps[subexp][jpnum].pop1;
          jpnum := jpnum - 1;
        }
      }
      subexp := subexp - 1;
    }
    child := b.jps[findsub][jpcountbf - 1];
  }

  method AboveInPlain(jp: Jp, ghost k: nat, digit: nat) returns (above: nat, child: Jp)
    requires Branch(jp, k) && jp.body.Plain? && digit < DIGITS && Child(jp.body, digit).Some?
    ensures Above(jp, k, digit, child, above)
    ensures jp.body.u.jps[digit] == Some(child)
  {
    hide PopTo, Shape, Counted;
    var u := jp.body.u;
    Ends(jp, k);
    if digit < DIGITS / 2 {
      above := jp.pop1;
      for jpnum := 0 to digit + 1
        invariant above == jp.pop1 - PopTo(jp, k, jpnum)
      {
        PlainStep(jp, k, jpnum);
        PopMonotone(jp, k, jpnum + 1, DIGITS);
        if u.jps[jpnum].Some? {
          above := above - u.jps[jpnum].value.pop1;
        }
      }
    } else {
      above := 0;
      var jpnum := DIGITS - 1;
      while jpnum > digit
        invariant digit <= jpnum < DIGITS
        invariant above == jp.pop1 - PopTo(jp, k, jpnum + 1)
      {
        PlainStep(jp, k, jpnum);
        if u.jps[jpnum].Some? {
          above := above + u.jps[jpnum].value.pop1;
        }
        jpnum := jpnum - 1;
      }
    }
    child := u.jps[digit].value;
  }

  method AboveInBranch(jp: Jp, ghost k: nat, digit: nat) returns (above: nat, child: Jp)
    requires Branch(jp, k) && digit < DIGITS && Child(jp.body, digit).Some?
    ensures Above(jp, k, digit, child, above)
  {
    hide PopTo, Shape, Counted, Above, Child, Digital;
    match jp.body {
      case Linear(_) => above, child := AboveInLinear(jp, k, digit);
      case Bitmap(_) => above, child := AboveInBitmap(jp, k, digit);
      case Plain(_) => above, child := AboveInPlain(jp, k, digit);
    }
  }

  /** The position of a key in a leaf: the search or the count of its kind. */
  method OffsetInLeaf(jp: Jp, ghost k: nat, index: Bytes) returns (offset: nat)
    requires Valid(jp, k) && (jp.body.Line? || OneByte(jp.body)) && index in Keys(jp, k)
    ensures offset < jp.pop1 == |Keys(jp, k)| && Keys(jp, k)[offset] == index
  {
    hide PopTo, Shape, Counted, Keys, KeysUnder, Digital, Less;
    Kind(jp, k);
    if jp.body.Line? {
      KeyInLine(jp, k, index);
      var rest := index[|jp.dcd|..];
      assert index == jp.dcd + rest;
      KeyOfLeaf(jp, k, 0);
      var found;
      found, offset := SearchLeaf(jp.body.keys, rest);
      KeyOfLeaf(jp, k, offset);
    } else {
      KeyInOneByte(jp, k, index);
      var digit := index[|jp.dcd|];
      assert index == jp.dcd + [digit];
      KeyOfDigit(jp, k, digit);
      if jp.body.Bits? {
        offset := CountLeafB1(jp, k, digit);
      } else {
        FullRanks(jp, k, digit);
        offset := digit;
      }
    }
  }

  /** j__udy1LCountSM: how many keys are at or above a key of the tree. */
  method CountSM(jp: Jp, ghost k: nat, index: Bytes) returns (r: nat)
    requires Valid(jp, k) && index in Keys(jp, k)
    ensures IsCount(jp, k, index, r)
    decreases k
  {
    hide PopTo, Shape, Counted, Keys, KeysUnder, Digital, Child;
    Kind(jp, k);
    if jp.body.Line? || jp.body.Bits? || jp.body.FullPop? {
      var offset := OffsetInLeaf(jp, k, index);
      return jp.pop1 - offset;
    } else {
      KeyInChild(jp, k, index);
      assert index[..|jp.dcd|] == jp.dcd;
      var digit := index[|jp.dcd|];
      var above, child := AboveInBranch(jp, k, digit);
      PopStep(jp, k, digit);
      PopMonotone(jp, k, digit + 1, DIGITS);
      ghost var left: nat := k - |jp.dcd| - 1;
      var below := CountSM(child, left, index[|jp.dcd| + 1..]);
      StoredPop(child, left);
      KeyUnderChild(jp, k, digit, child, child.pop1 - below);
      assert index == (jp.dcd + [digit]) + index[|jp.dcd| + 1..];
      return above + below;
    }
  }

  // ----- Each undoes the other

  /** The walk to the ordinal that a count gives ends at the key that was counted. */
  method SelectAfterRank(jp: Jp, k: nat, index: Bytes, pIndex: Bytes) returns (r: nat, found: bool, again: Bytes)
    requires Valid(jp, k) && jp.pop1 < TWO_64 && index in Keys(jp, k) && |pIndex| == k
    ensures IsCount(jp, k, index, r) && found && again == index
  {
    hide Shape, Counted, Keys;
    StoredPop(jp, k);
    r := CountSM(jp, k, index);
    found, again := ByCount(Some(jp), k, jp.pop1 - r + 1, pIndex);
  }

  /** The count of the key that the walk to an ordinal ends at gives the ordinal back. */
  method RankAfterSelect(jp: Jp, k: nat, count: nat, pIndex: Bytes) returns (found: bool, index: Bytes, rank: nat)
    requires Valid(jp, k) && 1 <= count <= jp.pop1 < TWO_64 && |pIndex| == k
    ensures found && |Keys(jp, k)| == jp.pop1 && index == Keys(jp, k)[count - 1] && rank == count
  {
    hide Shape, Counted, Keys;
    StoredPop(jp, k);
    found, index := ByCount(Some(jp), k, count, pIndex);
    var r := CountSM(jp, k, index);
    CountIsUnique(jp, k, index, r, jp.pop1 - count + 1);
    rank := jp.pop1 - r + 1;
  }

  /** A key has one count. */
  lemma CountIsUnique(jp: Jp, k: nat, index: Bytes, r: nat, q: nat)
    requires Shape(jp, k) && IsCount(jp, k, index, r) && IsCount(jp, k, index, q)
    ensures r == q
  {
    hide Shape, Keys;
    KeysDistinct(jp, k, |Keys(jp, k)| - q, |Keys(jp, k)| - r);
  }

  lemma {:induction false} IntervalSize(s: set<nat>, lo: nat, hi: nat)
    requires lo <= hi && forall i :: i in s <==> lo <= i < hi
    ensures |s| == hi - lo
    decreases hi
  {
    if lo < hi {
      IntervalSize(s - {hi - 1}, lo, hi - 1);
    } else {
      assert s == {};
    }
  }

  // ----- The public count of a range

  /** The positions of the keys from a word on. */
  ghost function PositionsFrom(keys: seq<Bytes>, v: nat): set<nat> {
    set i | 0 <= i < |keys| && v <= Value(keys[i])
  }

  ghost function PositionsIn(keys: seq<Bytes>, lo: nat, hi: nat): set<nat> {
    set i | 0 <= i < |keys| && lo <= Value(keys[i]) <= hi
  }

  /** What the inclusive search of the array answers: the least key from a word on. */
  ghost predicate IsFirst(keys: seq<Bytes>, v: nat, r: Option<Bytes>) {
    match r
    case None => forall i :: 0 <= i < |keys| ==> Value(keys[i]) < v
    case Some(key) =>
      && key in keys && v <= Value(key)
      && forall i :: 0 <= i < |keys| && v <= Value(keys[i]) ==> Value(key) <= Value(keys[i])
  }

  /** Keys of words in increasing order. */
  ghost predicate Increasing(keys: seq<Bytes>) {
    forall i, j :: 0 <= i < j < |keys| ==> Value(keys[i]) < Value(keys[j])
  }

  lemma KeysIncrease(jp: Jp, k: nat)
    requires Shape(jp, k)
    ensures Increasing(Keys(jp, k))
    ensures forall i :: 0 <= i < |Keys(jp, k)| ==> Value(Keys(jp, k)[i]) < Power(k)
  {
    hide Keys, Less, Shape, Value, IsBytes;
    KeysAscending(jp, k);
    forall i | 0 <= i < |Keys(jp, k)|
      ensures IsBytes(Keys(jp, k)[i]) && Value(Keys(jp, k)[i]) < Power(k)
    {
      KeysAreBytes(jp, k, i);
      ValueBound(Keys(jp, k)[i]);
    }
    forall i, j | 0 <= i < j < |Keys(jp, k)|
      ensures Value(Keys(jp, k)[i]) < Value(Keys(jp, k)[j])
    {
      LessIsNumeric(Keys(jp, k)[i], Keys(jp, k)[j]);
    }
  }

  /** The count of the first key from a word on is the number of keys from that word on. */
  lemma CountFromFirst(jp: Jp, k: nat, v: nat, first: Bytes, r: nat)
    requires Shape(jp, k) && IsFirst(Keys(jp, k), v, Some(first)) && IsCount(jp, k, first, r)
    ensures |PositionsFrom(Keys(jp, k), v)| == r
  {
    hide Keys, Shape, Value;
    var keys := Keys(jp, k);
    KeysIncrease(jp, k);
    var lo := |keys| - r;
    forall i | 0 <= i < |keys|
      ensures v <= Value(keys[i]) <==> lo <= i
    {
      assert i < lo ==> Value(keys[i]) < Value(keys[lo]);
      assert lo < i ==> Value(keys[lo]) < Value(keys[i]);
    }
    IntervalSize(PositionsFrom(keys, v), lo, |keys|);
  }

  /** The result of the counting walk, said with the order of the words. */
  lemma RankCountsFrom(jp: Jp, k: nat, index: Bytes, r: nat)
    requires Shape(jp, k) && IsCount(jp, k, index, r)
    ensures |PositionsFrom(Keys(jp, k), Value(index))| == r
  {
    hide Keys, Shape, Value;
    CountFromFirst(jp, k, Value(index), index, r);
  }

  lemma AllFromZero(keys: seq<Bytes>)
    ensures |PositionsFrom(keys, 0)| == |keys|
  {
    IntervalSize(PositionsFrom(keys, 0), 0, |keys|);
  }

  lemma NoneFromAbove(keys: seq<Bytes>, v: nat)
    requires forall i :: 0 <= i < |keys| ==> Value(keys[i]) < v
    ensures |PositionsFrom(keys, v)| == 0
  {
    hide Value;
    assert PositionsFrom(keys, v) == {};
  }

  lemma RangeIsDifference(keys: seq<Bytes>, lo: nat, hi: nat)
    ensures lo <= hi ==> |PositionsIn(keys, lo, hi)| == |PositionsFrom(keys, lo)| - |PositionsFrom(keys, hi + 1)|
    ensures hi < lo ==> |PositionsIn(keys, lo, hi)| == 0
  {
    hide Value;
    if lo <= hi {
      var above, inside := PositionsFrom(keys, hi + 1), PositionsIn(keys, lo, hi);
      assert PositionsFrom(keys, lo) == inside + above && inside !! above;
    } else {
      assert PositionsIn(keys, lo, hi) == {};
    }
  }

  /** A single word: one key or none. */
  lemma RangeOfOne(jp: Jp, k: nat, index: Bytes)
    requires Shape(jp, k) && |index| == k && IsBytes(index)
    ensures |PositionsIn(Keys(jp, k), Value(index), Value(index))| == if index in Keys(jp, k) then 1 else 0
  {
    hide Keys, Shape, Value, IsBytes;
    var keys, v := Keys(jp, k), Value(index);
    KeysIncrease(jp, k);
    forall i | 0 <= i < |keys|
      ensures Value(keys[i]) == v <==> keys[i] == index
    {
      KeysAreBytes(jp, k, i);
      LessIsNumeric(keys[i], index);
    }
    if p :| 0 <= p < |keys| && keys[p] == index {
      forall i | 0 <= i < |keys|
        ensures Value(keys[i]) == v <==> i == p
      {
        assert i < p ==> Value(keys[i]) < Value(keys[p]);
        assert p < i ==> Value(keys[p]) < Value(keys[i]);
      }
      assert PositionsIn(keys, v, v) == {p};
    } else {
      assert PositionsIn(keys, v, v) == {};
    }
  }

  /** Judy1Count: how many keys there are from index1 to index2, inclusive.  The searches from index1 and from past
      index2 come as parameters. */
  method CountRange(root: Option<Jp>, k: nat, index1: Bytes, index2: Bytes, first1: Option<Bytes>,
                    first2: Option<Bytes>)
    returns (count: nat)
    requires |index1| == |index2| == k && IsBytes(index1) && IsBytes(index2)
    requires root.Some? ==>
               && Valid(root.value, k)
               && IsFirst(Keys(root.value, k), Value(index1), first1)
               && IsFirst(Keys(root.value, k), Value(index2) + 1, first2)
    ensures count == if root.None? then 0 else |PositionsIn(Keys(root.value, k), Value(index1), Value(index2))|
  {
    hide Keys, Value, Shape, Counted, PositionsFrom, PositionsIn, IsBytes, Power;
    if root.None? {
      return 0;
    }
    var jp := root.value;
    ghost var keys := Keys(jp, k);
    RangeIsDifference(keys, Value(index1), Value(index2));
    if Value(index1) > Value(index2) {
      return 0;
    }
    if index1 == index2 {
      RangeOfOne(jp, k, index1);
      var test := Test(root, k, index1);
      return if test then 1 else 0;
    }
    var above1 := jp.pop1;
    StoredPop(jp, k);
    if Value(index1) == 0 {
      AllFromZero(keys);
    } else {
      if first1.None? {
        NoneFromAbove(keys, Value(index1));
        return 0;
      }
      above1 := CountSM(jp, k, first1.value);
      CountFromFirst(jp, k, Value(index1), first1.value, above1);
    }
    if Value(index2) == Power(k) - 1 {
      KeysIncrease(jp, k);
      NoneFromAbove(keys, Value(index2) + 1);
      return above1;
    }
    if first2.None? {
      NoneFromAbove(keys, Value(index2) + 1);
      return above1;
    }
    var above2 := CountSM(jp, k, first2.value);
    CountFromFirst(jp, k, Value(index2) + 1, first2.value, above2);
    if above1 == above2 {
      return 0;
    }
    return above1 - above2;
  }
}
