/** Judy trees as counting sees them: nodes, the keys below them, and the stored populations.

    An index is its bytes, most significant first.  A node carries the bytes it skips (Dcd), the population stored
    beside it, and a linear leaf, a bitmap leaf, the full leaf of Judy1 or one of the three branches.  k is the number
    of bytes still to decode when a node is reached. */
module JudyTrees {
  import opened BitUtils
  import opened Judy
  import opened Words
  import opened JudyBranches
  import opened JudyIndexes

  /** The bitmap leaves of 64-bit builds. */
  const LEAF_BITS: nat := 64
  const LEAF_SUBS: nat := 4

  datatype Jp = Jp(dcd: Bytes, pop1: nat, body: Body)

  datatype Body =
    | Line(keys: seq<Bytes>)
    | Bits(bitmap: seq<Word>)
    | FullPop
    | Linear(l: BranchL<Jp>)
    | Bitmap(b: BranchB<Jp>)
    | Plain(u: BranchU<Jp>)

  // ----- The keys below a node

  ghost predicate Ascending(keys: seq<Bytes>, k: nat) {
    && (forall i :: 0 <= i < |keys| ==> |keys[i]| == k)
    && (forall i, j :: 0 <= i < j < |keys| ==> Less(keys[i], keys[j]))
  }

  /** Far fewer keys than half the words, so that the sums of the binary search do not wrap. */
  ghost predicate LinearLeaf(keys: seq<Bytes>, k: nat) {
    Ascending(keys, k) && |keys| < TWO_64 / 2 && forall i :: 0 <= i < |keys| ==> IsBytes(keys[i])
  }

  /** A branch, or a leaf of one byte, that can be looked up by digit. */
  ghost predicate Digital(body: Body) {
    match body
    case Line(_) => false
    case Bits(bitmap) => |bitmap| == LEAF_SUBS
    case FullPop => true
    case Linear(l) => l.Valid() && |l.jps| > 0
    case Bitmap(b) => b.Valid()
    case Plain(u) => u.Valid()
  }

  ghost function Child(body: Body, d: nat): Option<Jp>
    requires Digital(body) && d < DIGITS
  {
    match body
    case Linear(l) => AtL(l, d)
    case Bitmap(b) => AtB(b, d)
    case Plain(u) => u.jps[d]
    case _ => None
  }

  ghost predicate OneByte(body: Body) {
    body.Bits? || body.FullPop?
  }

  ghost predicate Shape(jp: Jp, k: nat)
    decreases k
  {
    |jp.dcd| < k && IsBytes(jp.dcd) &&
    var s := k - |jp.dcd|;
    if jp.body.Line? then LinearLeaf(jp.body.keys, s)
    else
      && Digital(jp.body)
      && (if OneByte(jp.body) then s == 1 else s >= 2)
      && forall d: nat :: d < DIGITS && Child(jp.body, d).Some? ==> Shape(Child(jp.body, d).value, s - 1)
  }

  /** The keys of a node, each of k bytes, in order. */
  ghost function Keys(jp: Jp, k: nat): seq<Bytes>
    requires Shape(jp, k)
    decreases k, 1, 0
  {
    Prefixed(jp.dcd, if jp.body.Line? then jp.body.keys else KeysTo(jp, k, DIGITS))
  }

  ghost function Prefixed(p: Bytes, keys: seq<Bytes>): (r: seq<Bytes>)
    ensures |r| == |keys| && forall i :: 0 <= i < |keys| ==> r[i] == p + keys[i]
  {
    seq(|keys|, i requires 0 <= i < |keys| => p + keys[i])
  }

  /** The keys under the digits below d, without the skipped bytes. */
  ghost function KeysTo(jp: Jp, k: nat, d: nat): seq<Bytes>
    requires Shape(jp, k) && !jp.body.Line? && d <= DIGITS
    decreases k, 0, d
  {
    if d == 0 then [] else KeysTo(jp, k, d - 1) + KeysUnder(jp, k, d - 1)
  }

  ghost function KeysUnder(jp: Jp, k: nat, d: nat): seq<Bytes>
    requires Shape(jp, k) && !jp.body.Line? && d < DIGITS
    decreases k, 0, d
  {
    if jp.body.Bits? then
      if Bit(jp.body.bitmap[d / LEAF_BITS], d % LEAF_BITS) then [[d]] else []
    else if jp.body.FullPop? then [[d]]
    else
      match Child(jp.body, d)
      case None => []
      case Some(c) => Prefixed([d], Keys(c, k - |jp.dcd| - 1))
  }

  /** Every stored population is the number of keys below. */
  ghost predicate Counted(jp: Jp, k: nat)
    requires Shape(jp, k)
    decreases k
  {
    && jp.pop1 == |Keys(jp, k)| > 0
    && (!jp.body.Line? ==>
          forall d: nat :: d < DIGITS && Child(jp.body, d).Some? ==> Counted(Child(jp.body, d).value, k - |jp.dcd| - 1))
  }

  ghost predicate Valid(jp: Jp, k: nat) {
    Shape(jp, k) && Counted(jp, k)
  }

  ghost function PopTo(jp: Jp, k: nat, d: nat): nat
    requires Shape(jp, k) && !jp.body.Line? && d <= DIGITS
  {
    |KeysTo(jp, k, d)|
  }

  ghost predicate Branch(jp: Jp, k: nat) {
    Valid(jp, k) && !jp.body.Line? && !OneByte(jp.body) && Digital(jp.body) && |jp.dcd| + 2 <= k
  }

  lemma StoredPop(jp: Jp, k: nat)
    requires Valid(jp, k)
    ensures jp.pop1 == |Keys(jp, k)| > 0
  {
  }

  lemma PopStep(jp: Jp, k: nat, d: nat)
    requires Branch(jp, k) && d < DIGITS
    ensures var c := Child(jp.body, d);
            PopTo(jp, k, d + 1) == PopTo(jp, k, d) + (if c.None? then 0 else c.value.pop1)
    ensures var c := Child(jp.body, d); c.Some? ==> Valid(c.value, k - |jp.dcd| - 1)
    ensures PopTo(jp, k, 0) == 0 && PopTo(jp, k, DIGITS) == jp.pop1
  {
    hide Child, Digital, Keys;
    WholePop(jp, k);
    var c := Child(jp.body, d);
    if c.Some? {
      StoredPop(c.value, k - |jp.dcd| - 1);
    }
    assert KeysTo(jp, k, d + 1) == KeysTo(jp, k, d) + KeysUnder(jp, k, d);
  }

  lemma WholePop(jp: Jp, k: nat)
    requires Valid(jp, k) && !jp.body.Line?
    ensures PopTo(jp, k, DIGITS) == jp.pop1
  {
    hide Digital, Child, KeysTo;
  }

  lemma {:induction false} PopMonotone(jp: Jp, k: nat, d: nat, e: nat)
    requires Branch(jp, k) && d <= e <= DIGITS
    ensures PopTo(jp, k, d) <= PopTo(jp, k, e)
    ensures (forall x: nat :: d <= x < e ==> Child(jp.body, x).None?) ==> PopTo(jp, k, e) == PopTo(jp, k, d)
    decreases e
  {
    hide PopTo, Child, Valid;
    if d < e {
      PopStep(jp, k, e - 1);
      PopMonotone(jp, k, d, e - 1);
    }
  }

  /** Where the keys of a child stand among its parent's. */
  lemma {:induction false} KeyAt(jp: Jp, k: nat, d: nat, i: nat, e: nat)
    requires Shape(jp, k) && !jp.body.Line? && d < e <= DIGITS && i < |KeysUnder(jp, k, d)|
    ensures PopTo(jp, k, d) + i < PopTo(jp, k, e)
    ensures KeysTo(jp, k, e)[PopTo(jp, k, d) + i] == KeysUnder(jp, k, d)[i]
    decreases e
  {
    hide KeysUnder, Shape;
    if d + 1 < e {
      KeyAt(jp, k, d, i, e - 1);
    }
  }

  /** Which child a key belongs to. */
  lemma {:induction false} KeyOf(jp: Jp, k: nat, e: nat, p: nat) returns (d: nat, i: nat)
    requires Shape(jp, k) && !jp.body.Line? && e <= DIGITS && p < PopTo(jp, k, e)
    ensures d < e && i < |KeysUnder(jp, k, d)| && p == PopTo(jp, k, d) + i
    ensures KeysTo(jp, k, e)[p] == KeysUnder(jp, k, d)[i]
    decreases e
  {
    hide KeysUnder, Shape;
    if PopTo(jp, k, e - 1) <= p {
      return e - 1, p - PopTo(jp, k, e - 1);
    }
    d, i := KeyOf(jp, k, e - 1, p);
  }

  // ----- The keys are in order

  lemma PrefixedAscending(p: Bytes, keys: seq<Bytes>, k: nat)
    requires Ascending(keys, k)
    ensures Ascending(Prefixed(p, keys), |p| + k)
  {
    hide Less;
    forall i, j | 0 <= i < j < |keys|
      ensures Less(Prefixed(p, keys)[i], Prefixed(p, keys)[j])
    {
      LessUnder(p, keys[i], keys[j]);
    }
  }

  lemma {:induction false} KeysAscending(jp: Jp, k: nat)
    requires Shape(jp, k)
    ensures Ascending(Keys(jp, k), k)
    decreases k, 1, 0
  {
    hide KeysTo, Ascending;
    var s := k - |jp.dcd|;
    if jp.body.Line? {
      PrefixedAscending(jp.dcd, jp.body.keys, s);
    } else {
      KeysToAscending(jp, k, DIGITS);
      PrefixedAscending(jp.dcd, KeysTo(jp, k, DIGITS), s);
    }
  }

  lemma {:induction false} KeysToAscending(jp: Jp, k: nat, d: nat)
    requires Shape(jp, k) && !jp.body.Line? && d <= DIGITS
    ensures Ascending(KeysTo(jp, k, d), k - |jp.dcd|)
    ensures forall i :: 0 <= i < PopTo(jp, k, d) ==> KeysTo(jp, k, d)[i][0] < d
    decreases k, 0, d
  {
    hide KeysUnder, Digital, Child;
    if d > 0 {
      KeysToAscending(jp, k, d - 1);
      KeysUnderAscending(jp, k, d - 1);
      JoinAscending(KeysTo(jp, k, d - 1), KeysUnder(jp, k, d - 1), k - |jp.dcd|, d - 1);
    }
  }

  lemma JoinAscending(a: seq<Bytes>, b: seq<Bytes>, k: nat, d: nat)
    requires k > 0 && Ascending(a, k) && Ascending(b, k)
    requires (forall i :: 0 <= i < |a| ==> a[i][0] < d) && (forall i :: 0 <= i < |b| ==> b[i][0] == d)
    ensures Ascending(a + b, k)
    ensures forall i :: 0 <= i < |a + b| ==> (a + b)[i][0] < d + 1
  {
  }

  lemma {:induction false} KeysUnderAscending(jp: Jp, k: nat, d: nat)
    requires Shape(jp, k) && !jp.body.Line? && d < DIGITS
    ensures Ascending(KeysUnder(jp, k, d), k - |jp.dcd|)
    ensures forall i :: 0 <= i < |KeysUnder(jp, k, d)| ==> KeysUnder(jp, k, d)[i][0] == d
    decreases k, 0, d
  {
    hide Digital, Keys;
    if !OneByte(jp.body) {
      match Child(jp.body, d) {
        case None =>
        case Some(c) =>
          KeysAscending(c, k - |jp.dcd| - 1);
          PrefixedAscending([d], Keys(c, k - |jp.dcd| - 1), k - |jp.dcd| - 1);
      }
    }
  }

  /** No key occurs twice. */
  lemma KeysDistinct(jp: Jp, k: nat, i: nat, j: nat)
    requires Shape(jp, k) && i < |Keys(jp, k)| && j < |Keys(jp, k)| && Keys(jp, k)[i] == Keys(jp, k)[j]
    ensures i == j
  {
    hide Keys, Less, Shape;
    KeysAscending(jp, k);
    LessIrreflexive(Keys(jp, k)[i]);
  }

  /** Every key is made of bytes. */
  lemma {:induction false} KeysAreBytes(jp: Jp, k: nat, p: nat)
    requires Shape(jp, k) && p < |Keys(jp, k)|
    ensures |Keys(jp, k)[p]| == k && IsBytes(Keys(jp, k)[p])
    decreases k
  {
    hide Digital, Child, KeysTo;
    if !jp.body.Line? {
      var d, i := KeyOf(jp, k, DIGITS, p);
      if !OneByte(jp.body) {
        KeysAreBytes(Child(jp.body, d).value, k - |jp.dcd| - 1, i);
      }
    }
  }

  // ----- Populations in each form of branch

  /** The digit where the n-th listed child starts, or the end. */
  function DigitOf(l: BranchL<Jp>, n: nat): nat
    requires n <= |l.expanse|
  {
    if n == |l.expanse| then DIGITS else l.expanse[n]
  }

  lemma LinearStep(jp: Jp, k: nat, n: nat)
    requires Branch(jp, k) && jp.body.Linear? && n < |jp.body.l.expanse|
    ensures var l := jp.body.l;
            && l.expanse[n] < DIGITS && Child(jp.body, l.expanse[n]) == Some(l.jps[n])
            && Valid(l.jps[n], k - |jp.dcd| - 1)
            && DigitOf(l, n + 1) <= DIGITS
            && PopTo(jp, k, DigitOf(l, n + 1)) == PopTo(jp, k, DigitOf(l, n)) + l.jps[n].pop1
            && PopTo(jp, k, l.expanse[n] + 1) == PopTo(jp, k, DigitOf(l, n + 1))
  {
    hide PopTo, Shape, Counted;
    var l := jp.body.l;
    PopStep(jp, k, l.expanse[n]);
    forall x: nat | l.expanse[n] + 1 <= x < DigitOf(l, n + 1)
      ensures Child(jp.body, x).None?
    {
      NotListed(l, n, x);
    }
    PopMonotone(jp, k, l.expanse[n] + 1, DigitOf(l, n + 1));
  }

  lemma NotListed(l: BranchL<Jp>, n: nat, x: nat)
    requires l.Valid() && n < |l.expanse| && l.expanse[n] < x < DigitOf(l, n + 1)
    ensures x !in l.expanse
  {
    forall i | 0 <= i < |l.expanse|
      ensures l.expanse[i] != x
    {
      assert i < n ==> l.expanse[i] < l.expanse[n];
      assert n + 1 < i ==> l.expanse[n + 1] < l.expanse[i];
    }
  }

  lemma LinearStart(jp: Jp, k: nat)
    requires Branch(jp, k) && jp.body.Linear?
    ensures PopTo(jp, k, DigitOf(jp.body.l, 0)) == 0 && PopTo(jp, k, DIGITS) == jp.pop1
  {
    hide PopTo, Shape, Counted;
    var l := jp.body.l;
    PopStep(jp, k, 0);
    forall x: nat | x < DigitOf(l, 0)
      ensures Child(jp.body, x).None?
    {
      assert x !in l.expanse;
    }
    PopMonotone(jp, k, 0, DigitOf(l, 0));
  }

  /** The slot of a digit in an uncompressed branch holds its child. */
  lemma PlainStep(jp: Jp, k: nat, d: nat)
    requires Branch(jp, k) && jp.body.Plain? && d < DIGITS
    ensures var c := jp.body.u.jps[d];
            && Child(jp.body, d) == c && (c.Some? ==> Valid(c.value, k - |jp.dcd| - 1))
            && PopTo(jp, k, d + 1) == PopTo(jp, k, d) + (if c.None? then 0 else c.value.pop1)
  {
    hide PopTo, Shape, Counted;
    PopStep(jp, k, d);
  }

  /** The population of the first children of a subarray. */
  ghost function SubPop(jps: seq<Jp>, n: nat): nat
    requires n <= |jps|
  {
    if n == 0 then 0 else SubPop(jps, n - 1) + jps[n - 1].pop1
  }

  lemma {:induction false} SubRank(jp: Jp, k: nat, s: nat, m: nat)
    requires Branch(jp, k) && jp.body.Bitmap? && s < SUBS && m <= BITS
    ensures var b := jp.body.b;
            && OnesBelow(b.bitmap[s], m) <= |b.jps[s]|
            && PopTo(jp, k, BITS * s + m) == PopTo(jp, k, BITS * s) + SubPop(b.jps[s], OnesBelow(b.bitmap[s], m))
  {
    hide PopTo, Shape, Counted, Bit, PopCount;
    var w := jp.body.b.bitmap[s];
    PopCountIsRank(w);
    OnesBelowMonotone(w, m, BITS);
    if m > 0 {
      SubRank(jp, k, s, m - 1);
      PopStep(jp, k, BITS * s + m - 1);
      DigitPlace(s, m - 1);
    }
  }

  /** The bit of a word with j one bits below it. */
  function SelectBit(w: nat, j: nat): (k: nat)
    requires j < PopCount(w)
    ensures Bit(w, k) && OnesBelow(w, k) == j
    ensures (w < TWO_32 ==> k < BITS) && (w < TWO_64 ==> k < 64)
    decreases w
  {
    hide Pow2;
    var k := if w % 2 == 1 && j == 0 then 0 else 1 + SelectBit(w / 2, j - w % 2);
    SelectedBit(w, j, k);
    k
  }

  lemma SelectedBit(w: nat, j: nat, k: nat)
    requires j < PopCount(w)
    requires k == 0 ==> w % 2 == 1 && j == 0
    requires k > 0 ==> Bit(w / 2, k - 1) && w % 2 <= j && OnesBelow(w / 2, k - 1) == j - w % 2
    ensures Bit(w, k) && OnesBelow(w, k) == j
    ensures (w < TWO_32 ==> k < BITS) && (w < TWO_64 ==> k < 64)
  {
    hide Pow2, PopCount;
    if k > 0 {
      OnesBelowHalf(w, k - 1);
    }
    Pow2Of32();
    Pow2Of64();
    if w < TWO_32 && BITS <= k {
      SmallBit(w, BITS, k);
    }
    if w < TWO_64 && 64 <= k {
      SmallBit(w, 64, k);
    }
  }

  /** The j-th child of a subarray: its digit, and what comes before it. */
  lemma SubChild(jp: Jp, k: nat, s: nat, j: nat) returns (d: nat)
    requires Branch(jp, k) && jp.body.Bitmap? && s < SUBS && j < |jp.body.b.jps[s]|
    ensures var b := jp.body.b;
            && d == BITS * s + SelectBit(b.bitmap[s], j) && d < DIGITS && d / BITS == s
            && Child(jp.body, d) == Some(b.jps[s][j]) && Valid(b.jps[s][j], k - |jp.dcd| - 1)
            && PopTo(jp, k, d) == PopTo(jp, k, BITS * s) + SubPop(b.jps[s], j)
            && PopTo(jp, k, d + 1) == PopTo(jp, k, BITS * s) + SubPop(b.jps[s], j + 1)
  {
    hide PopTo, Shape, Counted, Bit, PopCount, OnesBelow;
    var m := SelectBit(jp.body.b.bitmap[s], j);
    d := BITS * s + m;
    DigitPlace(s, m);
    SubRank(jp, k, s, m);
    PopStep(jp, k, d);
  }

  lemma SubWhole(jp: Jp, k: nat, s: nat)
    requires Branch(jp, k) && jp.body.Bitmap? && s < SUBS
    ensures var b := jp.body.b;
            PopTo(jp, k, BITS * (s + 1)) == PopTo(jp, k, BITS * s) + SubPop(b.jps[s], |b.jps[s]|)
  {
    hide PopTo, Shape, Counted, Bit, PopCount, OnesBelow;
    PopCountIsRank(jp.body.b.bitmap[s]);
    SubRank(jp, k, s, BITS);
  }

  lemma Ends(jp: Jp, k: nat)
    requires Branch(jp, k)
    ensures PopTo(jp, k, 0) == 0 && PopTo(jp, k, DIGITS) == jp.pop1
  {
    PopStep(jp, k, 0);
  }

  // ----- Bitmap leaves

  ghost predicate BitLeaf(jp: Jp, k: nat) {
    Valid(jp, k) && jp.body.Bits? && Digital(jp.body) && |jp.dcd| + 1 == k
  }

  lemma LeafPlace(s: nat, m: nat)
    requires s < LEAF_SUBS && m < LEAF_BITS
    ensures var d := LEAF_BITS * s + m; d < DIGITS && d / LEAF_BITS == s && d % LEAF_BITS == m
  {
  }

  lemma BitsStep(jp: Jp, k: nat, d: nat)
    requires BitLeaf(jp, k) && d < DIGITS
    ensures PopTo(jp, k, d + 1)
         == PopTo(jp, k, d) + (if Bit(jp.body.bitmap[d / LEAF_BITS], d % LEAF_BITS) then 1 else 0)
  {
    hide Shape, Counted, Bit, Digital;
    assert KeysTo(jp, k, d + 1) == KeysTo(jp, k, d) + KeysUnder(jp, k, d);
  }

  lemma {:induction false} BitsRank(jp: Jp, k: nat, s: nat, m: nat)
    requires BitLeaf(jp, k) && s < LEAF_SUBS && m <= LEAF_BITS
    ensures PopTo(jp, k, LEAF_BITS * s + m) == PopTo(jp, k, LEAF_BITS * s) + OnesBelow(jp.body.bitmap[s], m)
  {
    hide Shape, Counted, Bit, Digital, PopTo;
    if m > 0 {
      BitsRank(jp, k, s, m - 1);
      LeafPlace(s, m - 1);
      BitsStep(jp, k, LEAF_BITS * s + m - 1);
    }
  }

  lemma BitsWhole(jp: Jp, k: nat, s: nat)
    requires BitLeaf(jp, k) && s < LEAF_SUBS
    ensures PopTo(jp, k, LEAF_BITS * (s + 1)) == PopTo(jp, k, LEAF_BITS * s) + PopCount(jp.body.bitmap[s])
    ensures PopTo(jp, k, 0) == 0 && PopTo(jp, k, DIGITS) == jp.pop1
  {
    hide Shape, Counted, Bit, PopCount, OnesBelow;
    PopCountOfWord(jp.body.bitmap[s]);
    BitsRank(jp, k, s, LEAF_BITS);
    WholePop(jp, k);
  }

  /** The leaf of Judy1 that stands for all 256 digits. */
  ghost predicate FullLeaf(jp: Jp, k: nat) {
    Valid(jp, k) && jp.body.FullPop? && |jp.dcd| + 1 == k
  }

  lemma {:induction false} FullRanks(jp: Jp, k: nat, d: nat)
    requires FullLeaf(jp, k) && d <= DIGITS
    ensures PopTo(jp, k, d) == d
    ensures d < DIGITS ==> KeysUnder(jp, k, d) == [[d]]
  {
    hide Shape, Counted;
    if d > 0 {
      FullRanks(jp, k, d - 1);
      assert KeysTo(jp, k, d) == KeysTo(jp, k, d - 1) + KeysUnder(jp, k, d - 1);
    }
  }

  // ----- Where a key stands

  lemma KeyUnderChild(jp: Jp, k: nat, digit: nat, child: Jp, i: nat)
    requires Branch(jp, k) && digit < DIGITS && Child(jp.body, digit) == Some(child)
    requires i < child.pop1
    ensures Valid(child, k - |jp.dcd| - 1) && i < |Keys(child, k - |jp.dcd| - 1)|
    ensures PopTo(jp, k, digit) + i < jp.pop1 == |Keys(jp, k)|
    ensures Keys(jp, k)[PopTo(jp, k, digit) + i] == (jp.dcd + [digit]) + Keys(child, k - |jp.dcd| - 1)[i]
  {
    hide Shape, Counted, KeysTo, Child, Digital;
    PopStep(jp, k, digit);
    StoredPop(jp, k);
    StoredPop(child, k - |jp.dcd| - 1);
    KeyAt(jp, k, digit, i, DIGITS);
  }

  lemma KeyOfLeaf(jp: Jp, k: nat, i: nat)
    requires Valid(jp, k) && jp.body.Line? && i < jp.pop1
    ensures |jp.body.keys| == jp.pop1 == |Keys(jp, k)| && Keys(jp, k)[i] == jp.dcd + jp.body.keys[i]
  {
  }

  lemma KeyOfDigit(jp: Jp, k: nat, digit: nat)
    requires Valid(jp, k) && !jp.body.Line? && digit < DIGITS && KeysUnder(jp, k, digit) == [[digit]]
    ensures PopTo(jp, k, digit) < jp.pop1 == |Keys(jp, k)|
    ensures Keys(jp, k)[PopTo(jp, k, digit)] == jp.dcd + [digit]
  {
    hide Shape, Counted, KeysTo, KeysUnder, Digital;
    StoredPop(jp, k);
    WholePop(jp, k);
    KeyAt(jp, k, digit, 0, DIGITS);
  }

  lemma Kind(jp: Jp, k: nat)
    requires Valid(jp, k)
    ensures if jp.body.Line? then true else if jp.body.Bits? then BitLeaf(jp, k)
            else if jp.body.FullPop? then FullLeaf(jp, k) else Branch(jp, k)
    ensures |Keys(jp, k)| == jp.pop1 > 0 && |jp.dcd| < k
  {
  }

  // ----- Ordinals

  /** r counts from the end of the keys down to the index, inclusive. */
  ghost predicate IsCount(jp: Jp, k: nat, index: Bytes, r: nat)
    requires Shape(jp, k)
  {
    0 < r <= |Keys(jp, k)| && Keys(jp, k)[|Keys(jp, k)| - r] == index
  }

  // ----- Changing the form of a branch

  ghost predicate SameChildren(a: Jp, b: Jp) {
    && a.dcd == b.dcd && a.pop1 == b.pop1 && Digital(a.body) && Digital(b.body)
    && !OneByte(a.body) && !OneByte(b.body) && !a.body.Line? && !b.body.Line?
    && forall d: nat :: d < DIGITS ==> Child(a.body, d) == Child(b.body, d)
  }

  /** A branch that is converted to a form with the same children holds the same keys and counts. */
  lemma ConversionKeepsKeys(a: Jp, b: Jp, k: nat)
    requires Branch(a, k) && SameChildren(a, b)
    ensures Branch(b, k) && Keys(b, k) == Keys(a, k)
  {
    hide Child, Digital, KeysTo;
    SameShape(a, b, k);
    SameKeysTo(a, b, k, DIGITS);
    StoredPop(a, k);
  }

  lemma SameShape(a: Jp, b: Jp, k: nat)
    requires Branch(a, k) && SameChildren(a, b)
    ensures Shape(b, k)
    ensures forall d: nat :: d < DIGITS && Child(b.body, d).Some? ==> Counted(Child(b.body, d).value, k - |b.dcd| - 1)
  {
    hide Child, Digital, Keys;
  }

  lemma {:induction false} SameKeysTo(a: Jp, b: Jp, k: nat, d: nat)
    requires Branch(a, k) && SameChildren(a, b) && Shape(b, k) && d <= DIGITS
    ensures KeysTo(b, k, d) == KeysTo(a, k, d)
  {
    hide Child, Digital, Keys, Shape, Counted;
    if d > 0 {
      SameKeysTo(a, b, k, d - 1);
    }
  }
}
