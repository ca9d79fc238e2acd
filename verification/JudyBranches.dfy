/** The three forms of a Judy branch, a map from digits 0..255 to children, and the conversions between them.

    A branch lists its digits (L), packs them into a bitmap per subexpanse with a subarray of children each (B), or
    has a slot for every digit (U).  The bitmaps have the default aspect ratio, eight subexpanses of 32 bits. */
module JudyBranches {
  import opened BitUtils
  import opened Judy
  import opened Words

  const BITS: nat := 32
  const SUBS: nat := 8
  const DIGITS: nat := 256
  const MAX_L: nat := 7

  datatype BranchL<T> = BranchL(expanse: seq<nat>, jps: seq<T>) {
    ghost predicate Valid() {
      && |expanse| == |jps|
      && (forall i :: 0 <= i < |expanse| ==> expanse[i] < DIGITS)
      && (forall i, j :: 0 <= i < j < |expanse| ==> expanse[i] < expanse[j])
    }
  }

  datatype BranchB<T> = BranchB(bitmap: seq<Word>, jps: seq<seq<T>>) {
    /** Each subarray has a child for every bit of its bitmap. */
    ghost predicate Valid() {
      && |bitmap| == |jps| == SUBS
      && (forall s :: 0 <= s < SUBS ==> bitmap[s] < TWO_32 && PopCount(bitmap[s]) == |jps[s]|)
    }
  }

  /** None is a null child. */
  datatype BranchU<T> = BranchU(jps: seq<Option<T>>) {
    ghost predicate Valid() {
      |jps| == DIGITS
    }
  }

  // ----- What a branch means

  ghost function AtL<T>(b: BranchL<T>, digit: nat): (r: Option<T>)
    requires b.Valid()
    ensures forall i :: 0 <= i < |b.expanse| && b.expanse[i] == digit ==> r == Some(b.jps[i])
    ensures digit !in b.expanse ==> r == None
  {
    if i :| 0 <= i < |b.expanse| && b.expanse[i] == digit then Some(b.jps[i]) else None
  }

  ghost function AtB<T>(b: BranchB<T>, digit: nat): Option<T>
    requires b.Valid() && digit < DIGITS
  {
    var w, k := b.bitmap[digit / BITS], digit % BITS;
    if Bit(w, k) then
      RankInside(w, k);
      Some(b.jps[digit / BITS][OnesBelow(w, k)])
    else
      None
  }

  lemma {:induction false} OnesBelowMonotone(w: nat, j: nat, k: nat)
    requires j <= k
    ensures OnesBelow(w, j) <= OnesBelow(w, k) <= OnesBelow(w, j) + (k - j)
    ensures (forall i :: j <= i < k ==> !Bit(w, i)) ==> OnesBelow(w, k) == OnesBelow(w, j)
  {
    if j < k {
      OnesBelowMonotone(w, j, k - 1);
    }
  }

  /** The rank of a set bit points into the subarray. */
  lemma RankInside(w: Word, k: nat)
    requires k < BITS && w < TWO_32 && Bit(w, k)
    ensures OnesBelow(w, k) < PopCount(w)
  {
    hide Pow2, PopCount;
    OnesBelowMonotone(w, k + 1, BITS);
    Pow2Of32();
    PopCountIsOnes(w, BITS);
  }

  // ----- The lookups

  /** JudyGet's scan of a linear branch, which has at least one child. */
  method LookupL<T>(b: BranchL<T>, digit: nat) returns (r: Option<T>)
    requires b.Valid() && |b.jps| > 0
    ensures r == AtL(b, digit)
  {
    var posidx := 0;
    while true
      invariant 0 <= posidx < |b.jps|
      invariant forall i :: 0 <= i < posidx ==> b.expanse[i] != digit
      decreases |b.jps| - posidx
    {
      if b.expanse[posidx] == digit {
        return Some(b.jps[posidx]);
      }
      posidx := posidx + 1;
      if posidx == |b.jps| {
        break;
      }
    }
    return None;
  }

  /** JudyGet's bitmap test and popcount offset. */
  method LookupB<T>(b: BranchB<T>, digit: nat) returns (r: Option<T>)
    requires b.Valid() && digit < DIGITS
    ensures r == AtB(b, digit)
  {
    hide Pow2, Bit, OnesBelow, PopCount;
    var subexp := digit / BITS;
    var bitmap := b.bitmap[subexp];
    BitTest(bitmap, digit % BITS);
    var bitmask := Shl(1, digit % BITS);
    if And(bitmap, bitmask) == 0 {
      return None;
    }
    RankInside(bitmap, digit % BITS);
    OffsetIsRank(bitmap, digit % BITS);
    return Some(b.jps[subexp][PopCount(And(bitmap, bitmask - 1))]);
  }

  /** Counting the bits below the mask gives the rank. */
  lemma OffsetIsRank(w: Word, k: nat)
    requires k < 64
    ensures Shl(1, k) > 0
    ensures PopCount(And(w, Shl(1, k) - 1)) == OnesBelow(w, k)
  {
    hide Bit, OnesBelow, PopCount;
    OneShifted(k);
    MaskBits(Shl(1, k) - 1, k);
    var low := And(w, Shl(1, k) - 1);
    PopCountOfWord(low);
    OnesCut(low, w, k, 64);
  }

  lemma OneShifted(k: nat)
    requires k < 64
    ensures Shl(1, k) == Pow2(k)
  {
    Pow2Monotone(k + 1, 64);
    Pow2Of64();
  }

  lemma {:induction false} OnesCut(low: nat, w: nat, k: nat, n: nat)
    requires k <= n && forall i :: 0 <= i < n ==> Bit(low, i) == (i < k && Bit(w, i))
    ensures OnesBelow(low, n) == OnesBelow(w, k)
    decreases n
  {
    hide Bit;
    if n > k {
      OnesCut(low, w, k, n - 1);
    } else if n > 0 {
      OnesCut(low, w, k - 1, n - 1);
    }
  }

  /** The bits at or below a position. */
  function MaskLowerInc(k: nat): (r: Word)
    requires k < 64
    ensures forall i :: 0 <= i < 64 ==> Bit(r, i) == (i <= k)
  {
    hide Bit, Pow2, Or;
    OneShifted(k);
    MaskBits(Shl(1, k) - 1, k);
    BitTest(0, k);
    Or(Shl(1, k) - 1, Shl(1, k))
  }

  /** The bits at or above a position: the negated mask. */
  function MaskHigherInc(k: nat): (r: Word)
    requires k < 64
    ensures forall i :: 0 <= i < 64 ==> Bit(r, i) == (k <= i)
  {
    hide Bit, Pow2;
    OneShifted(k);
    MaskBits(Shl(1, k) - 1, k);
    assert Not(Shl(1, k) - 1) == TWO_64 - Shl(1, k);
    TWO_64 - Shl(1, k)
  }

  // ----- Linear to bitmap

  /** How many of the listed digits are below d. */
  ghost function CountBelow(exp: seq<nat>, d: nat): (r: nat)
    ensures r <= |exp|
  {
    if exp == [] || exp[0] >= d then 0 else 1 + CountBelow(exp[1..], d)
  }

  ghost predicate Sorted(exp: seq<nat>) {
    forall i, j :: 0 <= i < j < |exp| ==> exp[i] < exp[j]
  }

  lemma {:induction false} CountBelowIs(exp: seq<nat>, d: nat, n: nat)
    requires Sorted(exp) && n <= |exp|
    requires (forall i :: 0 <= i < n ==> exp[i] < d) && (forall i :: n <= i < |exp| ==> d <= exp[i])
    ensures CountBelow(exp, d) == n
  {
    if n > 0 {
      CountBelowIs(exp[1..], d, n - 1);
    }
  }

  lemma {:induction false} CountBelowSplits(exp: seq<nat>, d: nat)
    requires Sorted(exp)
    ensures forall i :: 0 <= i < CountBelow(exp, d) ==> exp[i] < d
    ensures forall i :: CountBelow(exp, d) <= i < |exp| ==> d <= exp[i]
  {
    if exp != [] && exp[0] < d {
      CountBelowSplits(exp[1..], d);
    }
  }

  lemma NotLater(exp: seq<nat>, n: nat, i: nat)
    requires Sorted(exp) && n < |exp| && i < |exp| && exp[i] <= exp[n]
    ensures i <= n
  {
  }

  lemma CountBelowStep(exp: seq<nat>, d: nat)
    requires Sorted(exp)
    ensures CountBelow(exp, d + 1) == CountBelow(exp, d) + (if d in exp then 1 else 0)
    ensures d in exp ==> exp[CountBelow(exp, d)] == d
  {
    hide CountBelow;
    CountBelowSplits(exp, d);
    var n := CountBelow(exp, d);
    if d in exp {
      var i :| 0 <= i < |exp| && exp[i] == d;
      NotLater(exp, n, i);
      CountBelowIs(exp, d + 1, n + 1);
    } else {
      CountBelowIs(exp, d + 1, n);
    }
  }

  /** The bitmaps that hold the digits of exp. */
  ghost predicate HoldDigits(bitmap: seq<Word>, exp: seq<nat>)
    requires |bitmap| == SUBS
  {
    && (forall s :: 0 <= s < SUBS ==> bitmap[s] < TWO_32)
    && forall d: nat :: d < DIGITS ==> (Bit(bitmap[d / BITS], d % BITS) <==> d in exp)
  }

  lemma {:induction false} RankInList(bitmap: seq<Word>, exp: seq<nat>, s: nat, k: nat)
    requires |bitmap| == SUBS && s < SUBS && k <= BITS && Sorted(exp) && HoldDigits(bitmap, exp)
    ensures OnesBelow(bitmap[s], k) == CountBelow(exp, BITS * s + k) - CountBelow(exp, BITS * s)
  {
    hide Bit, CountBelow;
    if k > 0 {
      RankInList(bitmap, exp, s, k - 1);
      CountBelowStep(exp, BITS * s + k - 1);
      DigitPlace(s, k - 1);
    }
  }

  lemma DigitPlace(s: nat, k: nat)
    requires s < SUBS && k < BITS
    ensures var d := BITS * s + k; d < DIGITS && d / BITS == s && d % BITS == k
  {
  }

  /** How many of the listed digits come before a subexpanse. */
  ghost function Cut(exp: seq<nat>, s: nat): nat {
    CountBelow(exp, BITS * s)
  }

  ghost predicate SliceAt<T>(jps: seq<seq<T>>, exp: seq<nat>, all: seq<T>, s: nat)
    requires s < |jps|
  {
    Cut(exp, s) <= Cut(exp, s + 1) <= |all| && jps[s] == all[Cut(exp, s)..Cut(exp, s + 1)]
  }

  ghost predicate SlicesOf<T>(jps: seq<seq<T>>, exp: seq<nat>, all: seq<T>, to: nat)
    requires |jps| == SUBS && to <= SUBS
  {
    forall s :: 0 <= s < to ==> SliceAt(jps, exp, all, s)
  }

  /** A bitmap branch with the right bits and slices means the same as the list. */
  lemma SlicesMean<T>(b: BranchB<T>, l: BranchL<T>)
    requires l.Valid() && |b.bitmap| == |b.jps| == SUBS && HoldDigits(b.bitmap, l.expanse)
    requires SlicesOf(b.jps, l.expanse, l.jps, SUBS)
    ensures b.Valid() && forall d: nat :: d < DIGITS ==> AtB(b, d) == AtL(l, d)
  {
    hide Bit, OnesBelow, PopCount, CountBelow, Pow2;
    forall s | 0 <= s < SUBS
      ensures PopCount(b.bitmap[s]) == |b.jps[s]|
    {
      assert SliceAt(b.jps, l.expanse, l.jps, s);
      RankInList(b.bitmap, l.expanse, s, BITS);
      Pow2Of32();
      PopCountIsOnes(b.bitmap[s], BITS);
    }
    forall d: nat | d < DIGITS
      ensures AtB(b, d) == AtL(l, d)
    {
      DigitMeans(b, l, d);
    }
  }

  lemma DigitMeans<T>(b: BranchB<T>, l: BranchL<T>, d: nat)
    requires l.Valid() && b.Valid() && HoldDigits(b.bitmap, l.expanse) && d < DIGITS
    requires SlicesOf(b.jps, l.expanse, l.jps, SUBS)
    ensures AtB(b, d) == AtL(l, d)
  {
    hide Bit, OnesBelow, PopCount, CountBelow;
    var s, k := d / BITS, d % BITS;
    if d in l.expanse {
      RankInList(b.bitmap, l.expanse, s, k);
      RankInside(b.bitmap[s], k);
      CountBelowStep(l.expanse, d);
      assert SliceAt(b.jps, l.expanse, l.jps, s);
      assert BITS * s + k == d;
    }
  }

  /** j__udyCreateBranchB. */
  method CreateBranchB<T>(l: BranchL<T>) returns (b: BranchB<T>)
    requires l.Valid() && |l.expanse| > 0
    ensures b.Valid() && forall d: nat :: d < DIGITS ==> AtB(b, d) == AtL(l, d)
  {
    hide Bit, CountBelow, SlicesOf;
    var exp, n := l.expanse, |l.expanse|;
    var bitmap: seq<Word> := seq(SUBS, _ => 0);
    var jps: seq<seq<T>> := seq(SUBS, _ => []);
    var curr: nat, ii: nat, jj: nat := exp[0] / BITS, 0, 0;
    EmptyBitmaps(bitmap);
    NothingBefore(jps, exp, l.jps, curr);
    while ii <= n
      invariant 0 <= jj <= ii <= n + 1 && |bitmap| == |jps| == SUBS
      invariant ii <= n ==> curr < SUBS && jj == Cut(exp, curr)
      invariant ii <= n ==> forall i :: 0 <= i < n ==> (if i < ii then exp[i] / BITS <= curr else curr <= exp[i] / BITS)
      invariant HoldDigits(bitmap, exp[..if ii <= n then ii else n])
      invariant SlicesOf(jps, exp, l.jps, if ii <= n then curr else SUBS)
      invariant ii <= n ==> forall s :: curr <= s < SUBS ==> jps[s] == []
    {
      var subExp: nat := TWO_64 - 1;
      if ii < n {
        subExp := exp[ii] / BITS;
        BitAdded(bitmap, exp, ii);
        bitmap := bitmap[subExp := Or(bitmap[subExp], Shl(1, exp[ii] % BITS))];
      }
      if subExp != curr {
        SliceDone(jps, l, curr, if ii < n then subExp else SUBS, jj, ii);
        jps := jps[curr := l.jps[jj..ii]];
        jj := ii;
        curr := subExp;
      }
      ii := ii + 1;
    }
    assert exp[..n] == exp;
    b := BranchB(bitmap, jps);
    SlicesMean(b, l);
  }

  lemma EmptyBitmaps(bitmap: seq<Word>)
    requires |bitmap| == SUBS && forall s :: 0 <= s < SUBS ==> bitmap[s] == 0
    ensures HoldDigits(bitmap, [])
  {
    hide Bit;
    forall d: nat | d < DIGITS
      ensures !Bit(bitmap[d / BITS], d % BITS)
    {
      ZeroBit(d % BITS);
    }
  }

  lemma NothingBefore<T>(jps: seq<seq<T>>, exp: seq<nat>, all: seq<T>, curr: nat)
    requires |jps| == SUBS && |exp| == |all| > 0 && Sorted(exp) && exp[0] / BITS == curr < SUBS
    requires forall s :: 0 <= s < SUBS ==> jps[s] == []
    ensures SlicesOf(jps, exp, all, curr)
    ensures Cut(exp, curr) == 0
  {
    hide CountBelow;
    forall s | 0 <= s <= curr
      ensures Cut(exp, s) == 0
    {
      CutAt(exp, s, 0);
    }
    forall s | 0 <= s < curr
      ensures SliceAt(jps, exp, all, s)
    {
      assert Cut(exp, s + 1) == 0 && jps[s] == all[0..0];
    }
  }

  lemma BitAdded(bitmap: seq<Word>, exp: seq<nat>, ii: nat)
    requires |bitmap| == SUBS && ii < |exp| && exp[ii] < DIGITS && HoldDigits(bitmap, exp[..ii])
    ensures var s := exp[ii] / BITS;
            HoldDigits(bitmap[s := Or(bitmap[s], Shl(1, exp[ii] % BITS))], exp[..ii + 1])
  {
    hide Bit, Or, Shl, Pow2;
    var s, k := exp[ii] / BITS, exp[ii] % BITS;
    BitTest(bitmap[s], k);
    var w := Or(bitmap[s], Shl(1, k));
    OrOfBit(bitmap[s], k);
    forall d: nat | d < DIGITS
      ensures Bit(bitmap[s := w][d / BITS], d % BITS) <==> d in exp[..ii + 1]
    {
      assert exp[..ii + 1] == exp[..ii] + [exp[ii]];
    }
  }

  lemma OrOfBit(w: Word, k: nat)
    requires w < TWO_32 && k < BITS
    ensures Or(w, Shl(1, k)) < TWO_32
  {
    hide Pow2;
    OneShifted(k);
    Pow2Of32();
    Pow2Monotone(k, BITS);
    Pow2Monotone(k + 1, BITS);
    OrFits(w, Shl(1, k), BITS);
  }

  /** The subexpanse curr gets the children jj to ii; those up to the next one are empty. */
  lemma SliceDone<T>(jps: seq<seq<T>>, l: BranchL<T>, curr: nat, next: nat, jj: nat, ii: nat)
    requires l.Valid() && |jps| == SUBS && curr < next <= SUBS && jj <= ii <= |l.expanse|
    requires jj == Cut(l.expanse, curr)
    requires forall i :: 0 <= i < ii ==> l.expanse[i] / BITS <= curr
    requires forall i :: ii <= i < |l.expanse| ==> next <= l.expanse[i] / BITS
    requires SlicesOf(jps, l.expanse, l.jps, curr) && forall s :: curr <= s < SUBS ==> jps[s] == []
    ensures SlicesOf(jps[curr := l.jps[jj..ii]], l.expanse, l.jps, next)
    ensures Cut(l.expanse, next) == ii
  {
    hide Cut;
    forall s | curr < s <= next
      ensures Cut(l.expanse, s) == ii
    {
      CutAt(l.expanse, s, ii);
    }
    var after := jps[curr := l.jps[jj..ii]];
    forall s | 0 <= s < next
      ensures SliceAt(after, l.expanse, l.jps, s)
    {
      if s < curr {
        assert SliceAt(jps, l.expanse, l.jps, s) && after[s] == jps[s];
      } else {
        assert Cut(l.expanse, s + 1) == ii;
        assert curr < s ==> after[s] == l.jps[ii..ii];
      }
    }
  }

  lemma CutAt(exp: seq<nat>, s: nat, ii: nat)
    requires Sorted(exp) && ii <= |exp|
    requires forall i :: 0 <= i < ii ==> exp[i] / BITS < s
    requires forall i :: ii <= i < |exp| ==> s <= exp[i] / BITS
    ensures Cut(exp, s) == ii
  {
    hide CountBelow;
    forall i | 0 <= i < ii
      ensures exp[i] < BITS * s
    {
      assert exp[i] / BITS < s;
    }
    forall i | ii <= i < |exp|
      ensures BITS * s <= exp[i]
    {
      assert s <= exp[i] / BITS;
    }
    CountBelowIs(exp, BITS * s, ii);
  }

  // ----- Bitmap to uncompressed

  lemma HalvedStep(w: nat, j: nat)
    ensures Halved(w, j) % 2 == (if Bit(w, j) then 1 else 0)
    ensures Halved(w, j) / 2 == Halved(w, j + 1)
    ensures Halved(w, 0) == w
  {
    HalvedBit(w, j, 0);
    HalvedNext(w, j);
  }

  lemma {:induction false} HalvedNext(w: nat, j: nat)
    ensures Halved(w, j) / 2 == Halved(w, j + 1)
  {
    if j > 0 {
      HalvedNext(w / 2, j - 1);
    }
  }

  lemma {:induction false} FullRank(w: nat, k: nat)
    requires k <= BITS && w == TWO_32 - 1
    ensures OnesBelow(w, k) == k
    ensures forall i :: 0 <= i < k ==> Bit(w, i)
  {
    hide Bit;
    Pow2Of32();
    if k > 0 {
      FullRank(w, k - 1);
      MaskBit(BITS, k - 1);
    }
  }

  /** The slots of one subexpanse. */
  ghost predicate SlotsMean<T>(dst: seq<Option<T>>, base: nat, n: nat, w: Word, jps: seq<T>)
    requires base + n <= |dst| && n <= BITS && w < TWO_32 && PopCount(w) == |jps|
  {
    forall k :: 0 <= k < n ==>
      dst[base + k] == if Bit(w, k) then (RankInside(w, k); Some(jps[OnesBelow(w, k)])) else None
  }

  /** j__udyCreateBranchU. */
  method CreateBranchU<T>(b: BranchB<T>) returns (u: BranchU<T>)
    requires b.Valid()
    ensures u.Valid() && forall d: nat :: d < DIGITS ==> u.jps[d] == AtB(b, d)
  {
    hide Bit, OnesBelow, PopCount, Pow2, SlotsMean;
    var dst: seq<Option<T>> := [];
    for ii := 0 to SUBS
      invariant |dst| == BITS * ii
      invariant forall s :: 0 <= s < ii ==> SlotsMean(dst, BITS * s, BITS, b.bitmap[s], b.jps[s])
    {
      var more := Expand(b.bitmap[ii], b.jps[ii]);
      SlotsAppended(dst, more, b, ii);
      dst := dst + more;
    }
    u := BranchU(dst);
    forall d: nat | d < DIGITS
      ensures u.jps[d] == AtB(b, d)
    {
      SlotMeans(u, b, d);
    }
  }

  /** The slots of one subexpanse, by the three cases of the conversion. */
  method Expand<T>(bitmap: Word, jps: seq<T>) returns (dst: seq<Option<T>>)
    requires bitmap < TWO_32 && PopCount(bitmap) == |jps|
    ensures |dst| == BITS && SlotsMean(dst, 0, BITS, bitmap, jps)
  {
    hide Bit, OnesBelow, PopCount, Pow2, Halved;
    dst := [];
    if bitmap == 0 {
      for jj := 0 to BITS
        invariant |dst| == jj && forall k :: 0 <= k < jj ==> dst[k] == None
      {
        ZeroBit(jj);
        dst := dst + [None];
      }
      forall k | 0 <= k < BITS
        ensures !Bit(bitmap, k)
      {
        ZeroBit(k);
      }
      return;
    }
    PopCountIsRank(bitmap);
    if bitmap == TWO_32 - 1 {
      FullRank(bitmap, BITS);
      for jj := 0 to BITS
        invariant |dst| == jj && forall k :: 0 <= k < jj ==> dst[k] == Some(jps[k])
      {
        dst := dst + [Some(jps[jj])];
      }
      forall k | 0 <= k < BITS
        ensures Bit(bitmap, k) && OnesBelow(bitmap, k) == k
      {
        FullRank(bitmap, k);
      }
      return;
    }
    var map_, next := bitmap, 0;
    HalvedStep(bitmap, 0);
    NoneBelow(bitmap);
    for jj := 0 to BITS
      invariant |dst| == jj && SlotsMean(dst, 0, jj, bitmap, jps)
      invariant map_ == Halved(bitmap, jj) && next == OnesBelow(bitmap, jj)
    {
      HalvedStep(bitmap, jj);
      OneMore(bitmap, jj);
      if map_ % 2 == 1 {
        RankInside(bitmap, jj);
        dst := dst + [Some(jps[next])];
        next := next + 1;
      } else {
        dst := dst + [None];
      }
      map_ := map_ / 2;
    }
  }

  lemma PopCountIsRank(w: Word)
    requires w < TWO_32
    ensures PopCount(w) == OnesBelow(w, BITS)
  {
    hide PopCount, OnesBelow, Pow2;
    Pow2Of32();
    PopCountIsOnes(w, BITS);
  }

  lemma NoneBelow(w: nat)
    ensures OnesBelow(w, 0) == 0
  {
  }

  lemma OneMore(w: nat, k: nat)
    ensures OnesBelow(w, k + 1) == OnesBelow(w, k) + (if Bit(w, k) then 1 else 0)
  {
  }

  lemma SlotsMoved<T>(dst: seq<Option<T>>, to: seq<Option<T>>, base: nat, base': nat, w: Word, jps: seq<T>)
    requires base + BITS <= |dst| && base' + BITS <= |to| && dst[base..base + BITS] == to[base'..base' + BITS]
    requires w < TWO_32 && PopCount(w) == |jps| && SlotsMean(dst, base, BITS, w, jps)
    ensures SlotsMean(to, base', BITS, w, jps)
  {
    hide Bit, OnesBelow, PopCount, Pow2;
    var part := dst[base..base + BITS];
    forall k | 0 <= k < BITS
      ensures part[k] == dst[base + k] && part[k] == to[base' + k]
    {
    }
  }

  lemma SlotsAppended<T>(dst: seq<Option<T>>, more: seq<Option<T>>, b: BranchB<T>, ii: nat)
    requires b.Valid() && ii < SUBS && |dst| == BITS * ii && |more| == BITS
    requires SlotsMean(more, 0, BITS, b.bitmap[ii], b.jps[ii])
    requires forall s :: 0 <= s < ii ==> SlotsMean(dst, BITS * s, BITS, b.bitmap[s], b.jps[s])
    ensures forall s :: 0 <= s < ii + 1 ==> SlotsMean(dst + more, BITS * s, BITS, b.bitmap[s], b.jps[s])
  {
    hide Bit, OnesBelow, PopCount, Pow2;
    forall s | 0 <= s < ii + 1
      ensures SlotsMean(dst + more, BITS * s, BITS, b.bitmap[s], b.jps[s])
    {
      var part, base := if s < ii then dst else more, if s < ii then BITS * s else 0;
      SlotsMoved(part, dst + more, base, BITS * s, b.bitmap[s], b.jps[s]);
    }
  }

  lemma SlotMeans<T>(u: BranchU<T>, b: BranchB<T>, d: nat)
    requires u.Valid() && b.Valid() && d < DIGITS
    requires forall s :: 0 <= s < SUBS ==> SlotsMean(u.jps, BITS * s, BITS, b.bitmap[s], b.jps[s])
    ensures u.jps[d] == AtB(b, d)
  {
    hide Bit, OnesBelow, PopCount;
    var s, k := d / BITS, d % BITS;
    assert SlotsMean(u.jps, BITS * s, BITS, b.bitmap[s], b.jps[s]);
    assert BITS * s + k == d;
  }

  // ----- Bitmap back to linear

  /** How many children come before a subexpanse. */
  ghost function Before<T>(jps: seq<seq<T>>, s: nat): nat
    requires s <= |jps|
  {
    if s == 0 then 0 else Before(jps, s - 1) + |jps[s - 1]|
  }

  /** How many children come before a digit. */
  ghost function Rank<T>(b: BranchB<T>, d: nat): nat
    requires b.Valid() && d <= DIGITS
  {
    if d == DIGITS then Before(b.jps, SUBS) else Before(b.jps, d / BITS) + OnesBelow(b.bitmap[d / BITS], d % BITS)
  }

  lemma RankStep<T>(b: BranchB<T>, d: nat)
    requires b.Valid() && d < DIGITS
    ensures Rank(b, d + 1) == Rank(b, d) + (if Bit(b.bitmap[d / BITS], d % BITS) then 1 else 0)
  {
    hide Bit, OnesBelow, PopCount, Pow2;
    var s, k := d / BITS, d % BITS;
    OneMore(b.bitmap[s], k);
    if k == BITS - 1 {
      PopCountIsRank(b.bitmap[s]);
      assert Before(b.jps, s + 1) == Before(b.jps, s) + |b.jps[s]|;
      if s + 1 < SUBS {
        NoneBelow(b.bitmap[s + 1]);
        assert (d + 1) / BITS == s + 1 && (d + 1) % BITS == 0;
      }
    } else {
      assert (d + 1) / BITS == s && (d + 1) % BITS == k + 1;
    }
  }

  lemma RankOfZero<T>(b: BranchB<T>)
    requires b.Valid()
    ensures Rank(b, 0) == 0
  {
  }

  /** The digits below d that have a child, in order, each at its rank. */
  ghost predicate DigitsListed<T>(exp: seq<nat>, b: BranchB<T>, d: nat)
    requires b.Valid() && d <= DIGITS
  {
    && |exp| == Rank(b, d)
    && (forall i :: 0 <= i < |exp| ==> exp[i] < d && Bit(b.bitmap[exp[i] / BITS], exp[i] % BITS))
    && (forall i :: 0 <= i < |exp| ==> Rank(b, exp[i]) == i)
    && Sorted(exp)
    && (forall e: nat :: e < d && Bit(b.bitmap[e / BITS], e % BITS) ==> e in exp)
  }

  lemma DigitListed<T>(exp: seq<nat>, b: BranchB<T>, d: nat)
    requires b.Valid() && d < DIGITS && DigitsListed(exp, b, d)
    ensures DigitsListed(if Bit(b.bitmap[d / BITS], d % BITS) then exp + [d] else exp, b, d + 1)
  {
    hide Bit, Rank;
    RankStep(b, d);
    if Bit(b.bitmap[d / BITS], d % BITS) {
      DigitAdded(exp, b, d);
    }
  }

  lemma DigitAdded<T>(exp: seq<nat>, b: BranchB<T>, d: nat)
    requires b.Valid() && d < DIGITS && DigitsListed(exp, b, d)
    requires Bit(b.bitmap[d / BITS], d % BITS) && Rank(b, d + 1) == Rank(b, d) + 1
    ensures DigitsListed(exp + [d], b, d + 1)
  {
    hide Bit, Rank;
    var more := exp + [d];
    assert forall i :: 0 <= i < |exp| ==> more[i] == exp[i];
    assert more[|exp|] == d;
    forall e: nat | e < d + 1 && Bit(b.bitmap[e / BITS], e % BITS)
      ensures e in more
    {
      assert e < d ==> e in exp;
    }
  }

  /** The children of the first subexpanses, one subarray after the other. */
  ghost predicate Joined<T>(all: seq<T>, jps: seq<seq<T>>, n: nat)
    requires n <= |jps|
  {
    && |all| == Before(jps, n)
    && forall s, j :: 0 <= s < n && 0 <= j < |jps[s]| ==> ChildAt(all, Before(jps, s) + j, jps[s][j])
  }

  ghost predicate ChildAt<T>(all: seq<T>, i: nat, child: T) {
    i < |all| && all[i] == child
  }

  lemma JoinedStep<T>(all: seq<T>, jps: seq<seq<T>>, n: nat)
    requires n < |jps| && Joined(all, jps, n)
    ensures Joined(all + jps[n], jps, n + 1)
  {
    var more := all + jps[n];
    forall s, j | 0 <= s < n + 1 && 0 <= j < |jps[s]|
      ensures ChildAt(more, Before(jps, s) + j, jps[s][j])
    {
      assert s < n ==> ChildAt(all, Before(jps, s) + j, jps[s][j]);
    }
  }

  /** j__udyBranchBToBranchL, for a branch with few enough children. */
  method BranchBToBranchL<T>(b: BranchB<T>) returns (l: BranchL<T>)
    requires b.Valid() && Before(b.jps, SUBS) <= MAX_L
    ensures l.Valid() && |l.jps| <= MAX_L
    ensures forall d: nat :: d < DIGITS ==> AtL(l, d) == AtB(b, d)
  {
    hide Bit, OnesBelow, PopCount, Rank, DigitsListed, Joined, Pow2;
    var expanse: seq<nat> := [];
    RankOfZero(b);
    NoDigits(b);
    for digit := 0 to DIGITS
      invariant DigitsListed(expanse, b, digit)
    {
      DigitListed(expanse, b, digit);
      BitTest(b.bitmap[digit / BITS], digit % BITS);
      if And(b.bitmap[digit / BITS], Shl(1, digit % BITS)) != 0 {
        expanse := expanse + [digit];
      }
    }
    var jps: seq<T> := [];
    NothingJoined(b.jps);
    for subExp := 0 to SUBS
      invariant Joined(jps, b.jps, subExp)
    {
      JoinedStep(jps, b.jps, subExp);
      if b.jps[subExp] == [] {
        assert jps + b.jps[subExp] == jps;
      } else {
        var numJPs := PopCount(b.bitmap[subExp]);
        assert numJPs > 0 && b.jps[subExp][..numJPs] == b.jps[subExp];
        jps := jps + b.jps[subExp][..numJPs];
      }
    }
    l := BranchL(expanse, jps);
    LinearMeans(l, b);
  }

  lemma NoDigits<T>(b: BranchB<T>)
    requires b.Valid() && Rank(b, 0) == 0
    ensures DigitsListed([], b, 0)
  {
  }

  lemma NothingJoined<T>(jps: seq<seq<T>>)
    ensures Joined([], jps, 0)
  {
  }

  lemma LinearMeans<T>(l: BranchL<T>, b: BranchB<T>)
    requires b.Valid() && DigitsListed(l.expanse, b, DIGITS) && Joined(l.jps, b.jps, SUBS)
    ensures l.Valid() && |l.jps| == Before(b.jps, SUBS)
    ensures forall d: nat :: d < DIGITS ==> AtL(l, d) == AtB(b, d)
  {
    hide Bit, OnesBelow, PopCount, Before, Joined;
    assert |l.jps| == Before(b.jps, SUBS) by {
      JoinedSize(l.jps, b.jps, SUBS);
    }
    forall d: nat | d < DIGITS
      ensures AtL(l, d) == AtB(b, d)
    {
      if d in l.expanse {
        var i :| 0 <= i < |l.expanse| && l.expanse[i] == d;
        RankInside(b.bitmap[d / BITS], d % BITS);
        JoinedAt(l.jps, b.jps, d / BITS, OnesBelow(b.bitmap[d / BITS], d % BITS));
      }
    }
  }

  lemma JoinedSize<T>(all: seq<T>, jps: seq<seq<T>>, n: nat)
    requires n <= |jps| && Joined(all, jps, n)
    ensures |all| == Before(jps, n)
  {
  }

  lemma JoinedAt<T>(all: seq<T>, jps: seq<seq<T>>, s: nat, j: nat)
    requires s < |jps| && j < |jps[s]| && Joined(all, jps, |jps|)
    ensures ChildAt(all, Before(jps, s) + j, jps[s][j])
  {
  }
}
