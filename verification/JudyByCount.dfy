/** From an ordinal to an index: Judy1ByCount and JudyLByCount, with their scans that add upwards or subtract
    downwards. */
module JudyByCount {
  import opened BitUtils
  import opened Judy
  import opened Words
  import opened JudyBranches
  import opened JudyIndexes
  import opened JudyTrees

  /** JU_BITMAPDIGITB and JU_BITMAPDIGITL: shifts the bitmap until the offset is used up. */
  method BitmapDigit(base: nat, bitmap: Word, offset: nat) returns (digit: nat)
    requires offset < PopCount(bitmap)
    ensures digit == base + SelectBit(bitmap, offset)
  {
    hide Bit, PopCount, OnesBelow, Halved, SelectBit, Pow2;
    digit := base;
    var map_, remain: int := bitmap, offset;
    ghost var j := 0;
    HalvedStep(bitmap, 0);
    NoneBelow(bitmap);
    ghost var k := SelectBit(bitmap, offset);
    while true
      invariant 0 <= j <= k && digit == base + j
      invariant map_ == Halved(bitmap, j) && remain == offset - OnesBelow(bitmap, j) >= 0
      decreases k - j
    {
      HalvedStep(bitmap, j);
      OneMore(bitmap, j);
      OnesBelowMonotone(bitmap, j, k);
      if j < k {
        OnesBelowMonotone(bitmap, j + 1, k);
      }
      remain := remain - map_ % 2;
      if remain < 0 {
        break;
      }
      map_, digit := map_ / 2, digit + 1;
      j := j + 1;
    }
  }

  /** The child that holds the index with count0 indexes below it, when lower of them come before it. */
  ghost predicate Found(jp: Jp, k: nat, count0: nat, base: nat, digit: nat, child: Jp, lower: nat)
    requires Branch(jp, k)
  {
    && digit < DIGITS && Child(jp.body, digit) == Some(child)
    && lower == base + PopTo(jp, k, digit) && lower <= count0 < lower + child.pop1
  }

  method FindInLinear(jp: Jp, ghost k: nat, count0: nat, base: nat) returns (digit: nat, child: Jp, lower: nat)
    requires Branch(jp, k) && jp.body.Linear? && base <= count0 < base + jp.pop1
    ensures Found(jp, k, count0, base, digit, child, lower)
  {
    hide PopTo, Shape, Counted;
    var l := jp.body.l;
    lower := base;
    LinearStart(jp, k);
    var jpnum := 0;
    while true
      invariant 0 <= jpnum < |l.jps|
      invariant lower == base + PopTo(jp, k, DigitOf(l, jpnum)) <= count0
      decreases |l.jps| - jpnum
    {
      LinearStep(jp, k, jpnum);
      var pop1 := l.jps[jpnum].pop1;
      if lower + pop1 > count0 {
        return l.expanse[jpnum], l.jps[jpnum], lower;
      }
      lower := lower + pop1;
      jpnum := jpnum + 1;
    }
  }

  /** Adds the populations of the children below, subexpanse by subexpanse. */
  method FindUpInBitmap(jp: Jp, ghost k: nat, count0: nat, base: nat) returns (digit: nat, child: Jp, lower: nat)
    requires Branch(jp, k) && jp.body.Bitmap? && base <= count0 < base + jp.pop1
    ensures Found(jp, k, count0, base, digit, child, lower)
  {
    hide PopTo, Shape, Counted, Bit, OnesBelow;
    var b := jp.body.b;
    lower := base;
    Ends(jp, k);
    var subexp := 0;
    while true
      invariant 0 <= subexp < SUBS
      invariant lower == base + PopTo(jp, k, BITS * subexp) <= count0
      decreases SUBS - subexp
    {
      var jpcount, jpnum := PopCount(b.bitmap[subexp]), 0;
      while jpnum < jpcount
        invariant 0 <= jpnum <= jpcount
        invariant lower == base + PopTo(jp, k, BITS * subexp) + SubPop(b.jps[subexp], jpnum) <= count0
      {
        var pop1 := b.jps[subexp][jpnum].pop1;
        ghost var d := SubChild(jp, k, subexp, jpnum);
        if lower + pop1 > count0 {
          digit := BitmapDigit(subexp * BITS, b.bitmap[subexp], jpnum);
          return digit, b.jps[subexp][jpnum], lower;
        }
        lower := lower + pop1;
        jpnum := jpnum + 1;
      }
      SubWhole(jp, k, subexp);
      subexp := subexp + 1;
    }
  }

  /** Subtracts the populations of the children above from the whole. */
  method FindDownInBitmap(jp: Jp, ghost k: nat, count0: nat, base: nat) returns (digit: nat, child: Jp, lower: nat)
    requires Branch(jp, k) && jp.body.Bitmap? && base <= count0 < base + jp.pop1
    ensures Found(jp, k, count0, base, digit, child, lower)
  {
    hide PopTo, Shape, Counted, Bit, OnesBelow;
    var b := jp.body.b;
    lower := base + jp.pop1;
    Ends(jp, k);
    var subexp := SUBS - 1;
    while true
      invariant 0 <= subexp < SUBS
      invariant lower == base + PopTo(jp, k, BITS * (subexp + 1)) > count0
      decreases subexp
    {
      SubWhole(jp, k, subexp);
      var jpnum := PopCount(b.bitmap[subexp]) - 1;
      while jpnum >= 0
        invariant -1 <= jpnum < |b.jps[subexp]|
        invariant lower == base + PopTo(jp, k, BITS * subexp) + SubPop(b.jps[subexp], jpnum + 1) > count0
      {
        ghost var d := SubChild(jp, k, subexp, jpnum);
        lower := lower - b.jps[subexp][jpnum].pop1;
        if lower == 0 || lower - 1 < count0 {
          digit := BitmapDigit(subexp * BITS, b.bitmap[subexp], jpnum);
          return digit, b.jps[subexp][jpnum], lower;
        }
        jpnum := jpnum - 1;
      }
      subexp := subexp - 1;
    }
  }

  method FindUpInPlain(jp: Jp, ghost k: nat, count0: nat, base: nat) returns (digit: nat, child: Jp, lower: nat)
    requires Branch(jp, k) && jp.body.Plain? && base <= count0 < base + jp.pop1
    ensures Found(jp, k, count0, base, digit, child, lower)
    ensures digit < DIGITS && jp.body.u.jps[digit] == Some(child)
  {
    hide PopTo, Shape, Counted;
    var u := jp.body.u;
    lower := base;
    Ends(jp, k);
    digit := 0;
    while true
      invariant 0 <= digit < DIGITS
      invariant lower == base + PopTo(jp, k, digit) <= count0
      decreases DIGITS - digit
    {
      PlainStep(jp, k, digit);
      if u.jps[digit].Some? {
        var pop1 := u.jps[digit].value.pop1;
        if lower + pop1 > count0 {
          return digit, u.jps[digit].value, lower;
        }
        lower := lower + pop1;
      }
      digit := digit + 1;
    }
  }

  method FindDownInPlain(jp: Jp, ghost k: nat, count0: nat, base: nat) returns (digit: nat, child: Jp, lower: nat)
    requires Branch(jp, k) && jp.body.Plain? && base <= count0 < base + jp.pop1
    ensures Found(jp, k, count0, base, digit, child, lower)
    ensures digit < DIGITS && jp.body.u.jps[digit] == Some(child)
  {
    hide PopTo, Shape, Counted;
    var u := jp.body.u;
    lower := base + jp.pop1;
    Ends(jp, k);
    digit := DIGITS - 1;
    while true
      invariant 0 <= digit < DIGITS
      invariant lower == base + PopTo(jp, k, digit + 1) > count0
      decreases digit
    {
      PlainStep(jp, k, digit);
      if u.jps[digit].Some? {
        lower := lower - u.jps[digit].value.pop1;
        if lower == 0 || lower - 1 < count0 {
          return digit, u.jps[digit].value, lower;
        }
      }
      digit := digit - 1;
    }
  }

  /** The digit of an ordinal in a bitmap leaf, scanned upwards or downwards. */
  method FindInBits(jp: Jp, ghost k: nat, count0: nat, base: nat) returns (digit: nat)
    requires BitLeaf(jp, k) && base <= count0 < base + jp.pop1
    ensures digit < DIGITS && KeysUnder(jp, k, digit) == [[digit]] && count0 == base + PopTo(jp, k, digit)
  {
    hide PopTo, Shape, Counted, Bit, OnesBelow, PopCount;
    var bitmap := jp.body.bitmap;
    var lower: nat, subexp: nat;
    BitsWhole(jp, k, 0);
    if count0 - base < jp.pop1 / 2 {
      lower, subexp := base, 0;
      while true
        invariant 0 <= subexp < LEAF_SUBS
        invariant lower == base + PopTo(jp, k, LEAF_BITS * subexp) <= count0
        decreases LEAF_SUBS - subexp
      {
        BitsWhole(jp, k, subexp);
        var pop1 := PopCount(bitmap[subexp]);
        if lower + pop1 > count0 {
          break;
        }
        lower := lower + pop1;
        subexp := subexp + 1;
      }
    } else {
      lower, subexp := base + jp.pop1, LEAF_SUBS - 1;
      while true
        invariant 0 <= subexp < LEAF_SUBS
        invariant lower == base + PopTo(jp, k, LEAF_BITS * (subexp + 1)) > count0
        decreases subexp
      {
        BitsWhole(jp, k, subexp);
        lower := lower - PopCount(bitmap[subexp]);
        if lower == 0 || lower - 1 < count0 {
          break;
        }
        subexp := subexp - 1;
      }
    }
    BitsWhole(jp, k, subexp);
    ghost var m := SelectBit(bitmap[subexp], count0 - lower);
    BitsRank(jp, k, subexp, m);
    LeafPlace(subexp, m);
    digit := BitmapDigit(subexp * LEAF_BITS, bitmap[subexp], count0 - lower);
  }

  method FindInBranch(jp: Jp, ghost k: nat, count0: nat, base: nat) returns (digit: nat, child: Jp, lower: nat)
    requires Branch(jp, k) && base <= count0 < base + jp.pop1
    ensures Found(jp, k, count0, base, digit, child, lower)
  {
    hide PopTo, Shape, Counted, Found, Digital;
    match jp.body {
      case Linear(_) =>
        digit, child, lower := FindInLinear(jp, k, count0, base);
      case Bitmap(_) =>
        if count0 - base < jp.pop1 / 2 {
          digit, child, lower := FindUpInBitmap(jp, k, count0, base);
        } else {
          digit, child, lower := FindDownInBitmap(jp, k, count0, base);
        }
      case Plain(_) =>
        if count0 - base < jp.pop1 / 2 {
          digit, child, lower := FindUpInPlain(jp, k, count0, base);
        } else {
          digit, child, lower := FindDownInPlain(jp, k, count0, base);
        }
    }
  }

  /** The bytes of an index from a place on, replaced: JU_SETDIGIT, JU_SETDCD and the copies out of leaves. */
  function Placed(index: Bytes, at: nat, bytes: Bytes): (r: Bytes)
    requires at + |bytes| <= |index|
    ensures |r| == |index| && r[..at + |bytes|] == index[..at] + bytes
  {
    index[..at] + bytes + index[at + |bytes|..]
  }

  /** Writing two stretches that adjoin. */
  lemma PlacedTwice(index: Bytes, at: nat, a: Bytes, b: Bytes)
    requires at + |a| + |b| <= |index|
    ensures Placed(Placed(index, at, a), at + |a|, b)[..at + |a| + |b|] == index[..at] + (a + b)
  {
  }

  /** Two findings for the same ordinal are the same: the direction of the scan makes no difference. */
  lemma FoundOnce(jp: Jp, k: nat, count0: nat, base: nat, d: nat, c: Jp, lower: nat, d': nat, c': Jp, lower': nat)
    requires Branch(jp, k)
    requires Found(jp, k, count0, base, d, c, lower) && Found(jp, k, count0, base, d', c', lower')
    ensures d == d' && c == c' && lower == lower'
  {
    hide PopTo, Shape, Counted, Child, Digital;
    PopStep(jp, k, d);
    PopStep(jp, k, d');
    if d < d' {
      PopMonotone(jp, k, d + 1, d');
    } else if d' < d {
      PopMonotone(jp, k, d' + 1, d);
    }
  }

  /** Judy1ByCount: writes the index with the given ordinal, base 1, over the caller's, whatever that held; says when
      there is no such ordinal. */
  method ByCount(root: Option<Jp>, k: nat, count: nat, pIndex: Bytes) returns (found: bool, index: Bytes)
    requires root.Some? ==> Valid(root.value, k) && root.value.pop1 < TWO_64
    requires count < TWO_64 && |pIndex| == k
    ensures root.None? ==> !found
    ensures root.Some? ==> (found <==> 1 <= count <= |Keys(root.value, k)|)
    ensures root.Some? && found ==> index == Keys(root.value, k)[count - 1]
  {
    hide PopTo, Shape, Counted, Keys, KeysUnder, Digital, Placed, Found;
    index := pIndex;
    if root.None? {
      return false, index;
    }
    var jp := root.value;
    Kind(jp, k);
    var count0 := if count == 0 then TWO_64 - 1 else count - 1;
    if count0 > jp.pop1 - 1 {
      return false, index;
    }
    var lower: nat, at: nat := 0, 0;
    ghost var keys := Keys(jp, k);
    while true
      invariant at < k == |index|
      invariant Valid(jp, k - at) && lower <= count0 < lower + jp.pop1 && count0 < |keys|
      invariant |Keys(jp, k - at)| == jp.pop1 && keys[count0] == index[..at] + Keys(jp, k - at)[count0 - lower]
      decreases k - at
    {
      ghost var key := Keys(jp, k - at)[count0 - lower];
      Kind(jp, k - at);
      KeyLength(jp, k - at, count0 - lower);
      if jp.body.Line? || jp.body.Bits? || jp.body.FullPop? {
        var tail := FindInLeaf(jp, k - at, count0, lower);
        PlacedTwice(index, at, jp.dcd, tail);
        index := Placed(index, at, jp.dcd);
        index := Placed(index, at + |jp.dcd|, tail);
        assert index[..k] == index;
        return true, index;
      }
      var digit, child, below := FindInBranch(jp, k - at, count0, lower);
      ghost var left := k - at - |jp.dcd| - 1;
      Descend(jp, k - at, count0, lower, digit, child, below);
      PlacedTwice(index, at, jp.dcd, [digit]);
      assert index[..at] + ((jp.dcd + [digit]) + Keys(child, left)[count0 - below])
          == (index[..at] + (jp.dcd + [digit])) + Keys(child, left)[count0 - below];
      index := Placed(index, at, jp.dcd);
      index := Placed(index, at + |jp.dcd|, [digit]);
      jp, lower, at := child, below, at + |jp.dcd| + 1;
    }
  }

  lemma KeyLength(jp: Jp, k: nat, i: nat)
    requires Shape(jp, k) && i < |Keys(jp, k)|
    ensures |Keys(jp, k)[i]| == k
  {
    hide Shape, Keys;
    KeysAreBytes(jp, k, i);
  }

  lemma Descend(jp: Jp, k: nat, count0: nat, base: nat, digit: nat, child: Jp, lower: nat)
    requires Branch(jp, k) && Found(jp, k, count0, base, digit, child, lower)
    ensures var left := k - |jp.dcd| - 1;
            && Valid(child, left) && lower <= count0 < lower + child.pop1 == lower + |Keys(child, left)|
            && base <= count0 < base + jp.pop1 == base + |Keys(jp, k)|
            && Keys(jp, k)[count0 - base] == (jp.dcd + [digit]) + Keys(child, left)[count0 - lower]
  {
    hide PopTo, Shape, Counted, Keys, Digital, Child;
    KeyUnderChild(jp, k, digit, child, count0 - lower);
    StoredPop(child, k - |jp.dcd| - 1);
  }

  /** The bytes that a leaf holds for an ordinal, after its skipped ones. */
  method FindInLeaf(jp: Jp, ghost k: nat, count0: nat, base: nat) returns (tail: Bytes)
    requires Valid(jp, k) && (jp.body.Line? || jp.body.Bits? || jp.body.FullPop?) && base <= count0 < base + jp.pop1
    ensures |Keys(jp, k)| == jp.pop1 && Keys(jp, k)[count0 - base] == jp.dcd + tail
  {
    hide PopTo, Shape, Counted, Keys, KeysUnder, Digital;
    Kind(jp, k);
    if jp.body.Line? {
      KeyOfLeaf(jp, k, count0 - base);
      return jp.body.keys[count0 - base];
    } else if jp.body.Bits? {
      var digit := FindInBits(jp, k, count0, base);
      KeyOfDigit(jp, k, digit);
      return [digit];
    } else {
      FullRanks(jp, k, DIGITS);
      WholePop(jp, k);
      FullRanks(jp, k, count0 - base);
      KeyOfDigit(jp, k, count0 - base);
      return [count0 - base];
    }
  }
}
