/** From an index to its membership: Judy1Test, the walk that decodes an index byte by byte. */
module JudyGet {
  import opened BitUtils
  import opened Judy
  import opened Words
  import opened JudyBranches
  import opened JudyIndexes
  import opened JudyTrees

  // ----- Where a key goes on

  /** A key of a node starts with its skipped bytes, and goes on in the child of its next byte. */
  lemma KeyInChild(jp: Jp, k: nat, index: Bytes)
    requires Branch(jp, k) && index in Keys(jp, k)
    ensures |index| > |jp.dcd| && index[..|jp.dcd|] == jp.dcd
    ensures var digit := index[|jp.dcd|];
            && digit < DIGITS && Child(jp.body, digit).Some?
            && index[|jp.dcd| + 1..] in Keys(Child(jp.body, digit).value, k - |jp.dcd| - 1)
  {
    hide Shape, Counted, KeysTo, Child, Digital;
    var p :| 0 <= p < |Keys(jp, k)| && Keys(jp, k)[p] == index;
    var d, i := KeyOf(jp, k, DIGITS, p);
    var rest := KeysUnder(jp, k, d)[i];
    assert index == jp.dcd + rest;
    PopStep(jp, k, d);
    var c := Child(jp.body, d).value;
    assert rest == [d] + Keys(c, k - |jp.dcd| - 1)[i];
    assert index[|jp.dcd| + 1..] == Keys(c, k - |jp.dcd| - 1)[i];
  }

  lemma KeyInOneByte(jp: Jp, k: nat, index: Bytes)
    requires (BitLeaf(jp, k) || FullLeaf(jp, k)) && index in Keys(jp, k)
    ensures |index| == |jp.dcd| + 1 && index[..|jp.dcd|] == jp.dcd
    ensures var digit := index[|jp.dcd|];
            digit < DIGITS && KeysUnder(jp, k, digit) == [[digit]]
  {
    hide Shape, Counted, KeysTo, Digital;
    var p :| 0 <= p < |Keys(jp, k)| && Keys(jp, k)[p] == index;
    var d, i := KeyOf(jp, k, DIGITS, p);
    assert index == jp.dcd + [d];
  }

  lemma KeyInLine(jp: Jp, k: nat, index: Bytes)
    requires Valid(jp, k) && jp.body.Line? && index in Keys(jp, k)
    ensures |index| >= |jp.dcd| && index[..|jp.dcd|] == jp.dcd && index[|jp.dcd|..] in jp.body.keys
    ensures LinearLeaf(jp.body.keys, |index| - |jp.dcd|)
  {
    var p :| 0 <= p < |Keys(jp, k)| && Keys(jp, k)[p] == index;
    assert index == jp.dcd + jp.body.keys[p];
  }

  /** A word is below a branch exactly when its bytes are, one after the other. */
  lemma InBranch(jp: Jp, k: nat, index: Bytes)
    requires Branch(jp, k) && |index| == k && IsBytes(index)
    ensures index in Keys(jp, k) <==>
            && index[..|jp.dcd|] == jp.dcd && Child(jp.body, index[|jp.dcd|]).Some?
            && index[|jp.dcd| + 1..] in Keys(Child(jp.body, index[|jp.dcd|]).value, k - |jp.dcd| - 1)
  {
    hide Shape, Counted, Keys, Child, Digital, Branch;
    var n := |jp.dcd|;
    BranchParts(jp, k);
    if index in Keys(jp, k) {
      KeyInChild(jp, k, index);
    }
    if index[..n] == jp.dcd && Child(jp.body, index[n]).Some? {
      var c := Child(jp.body, index[n]).value;
      PopStep(jp, k, index[n]);
      if index[n + 1..] in Keys(c, k - n - 1) {
        KeyFromChild(jp, k, index[n], c, index[n + 1..]);
        assert index == (jp.dcd + [index[n]]) + index[n + 1..];
      }
    }
  }

  lemma KeyFromChild(jp: Jp, k: nat, digit: nat, c: Jp, rest: Bytes)
    requires Branch(jp, k) && digit < DIGITS && Child(jp.body, digit) == Some(c) && Valid(c, k - |jp.dcd| - 1)
    requires rest in Keys(c, k - |jp.dcd| - 1)
    ensures (jp.dcd + [digit]) + rest in Keys(jp, k)
  {
    hide Shape, Counted, Keys, Child, Digital, PopTo;
    var keys := Keys(c, k - |jp.dcd| - 1);
    StoredPop(c, k - |jp.dcd| - 1);
    var i :| 0 <= i < |keys| && keys[i] == rest;
    KeyUnderChild(jp, k, digit, c, i);
  }

  lemma BranchParts(jp: Jp, k: nat)
    requires Branch(jp, k)
    ensures Valid(jp, k) && !jp.body.Line? && !OneByte(jp.body) && Digital(jp.body) && |jp.dcd| + 2 <= k
  {
  }

  /** A word is in a leaf exactly when its last bytes are listed, or their bit is set, or the leaf is full. */
  lemma InLeaf(jp: Jp, k: nat, index: Bytes)
    requires Valid(jp, k) && (jp.body.Line? || OneByte(jp.body)) && |index| == k && IsBytes(index)
    ensures |jp.dcd| < k && (OneByte(jp.body) ==> |jp.dcd| + 1 == k)
    ensures jp.body.Bits? ==> |jp.body.bitmap| == LEAF_SUBS
    ensures index in Keys(jp, k) <==>
            index[..|jp.dcd|] == jp.dcd &&
            match jp.body
            case Line(keys) => index[|jp.dcd|..] in keys
            case Bits(bitmap) => Bit(bitmap[index[|jp.dcd|] / LEAF_BITS], index[|jp.dcd|] % LEAF_BITS)
            case _ => true
  {
    hide PopTo, Counted, Keys, Bit;
    Kind(jp, k);
    var n := |jp.dcd|;
    if index in Keys(jp, k) {
      if jp.body.Line? {
        KeyInLine(jp, k, index);
      } else {
        KeyInOneByte(jp, k, index);
      }
    }
    if index[..n] == jp.dcd {
      assert index == jp.dcd + index[n..];
      if jp.body.Line? {
        LineKeyListed(jp, k, index[n..]);
      } else if KeysUnder(jp, k, index[n]) == [[index[n]]] {
        assert index[n..] == [index[n]];
        KeyOfDigit(jp, k, index[n]);
      }
    }
  }

  lemma LineKeyListed(jp: Jp, k: nat, tail: Bytes)
    requires Valid(jp, k) && jp.body.Line?
    ensures tail in jp.body.keys ==> jp.dcd + tail in Keys(jp, k)
  {
    if tail in jp.body.keys {
      var i :| 0 <= i < |jp.body.keys| && jp.body.keys[i] == tail;
      assert Keys(jp, k)[i] == jp.dcd + jp.body.keys[i];
    }
  }

  // ----- Linear leaves

  /** The binary search of a linear leaf, with its lower end at all ones, one below 0 in 64 bits; where the index would
      go when it is not there. */
  method SearchLeaf(keys: seq<Bytes>, index: Bytes) returns (found: bool, offset: nat)
    requires LinearLeaf(keys, |index|)
    ensures found <==> index in keys
    ensures found ==> offset < |keys| && keys[offset] == index
    ensures !found ==> offset <= |keys| && (forall i :: 0 <= i < offset ==> Less(keys[i], index))
                       && forall i :: offset <= i < |keys| ==> Less(index, keys[i])
  {
    hide Less;
    var low: nat, high: nat := TWO_64 - 1, |keys|;
    ghost var l := -1;
    while (high + TWO_64 - low) % TWO_64 > 1
      invariant -1 <= l < high <= |keys| && low == if l == -1 then TWO_64 - 1 else l
      invariant forall i :: 0 <= i <= l ==> !Less(index, keys[i])
      invariant forall i :: high <= i < |keys| ==> Less(index, keys[i])
      decreases high - l
    {
      var mid := ((high + low) % TWO_64) / 2;
      MiddleInside(l, low, high);
      if Less(index, keys[mid]) {
        AboveAll(keys, index, mid);
        high := mid;
      } else {
        BelowAll(keys, index, mid);
        low, l := mid, mid;
      }
    }
    EndsMeet(l, low, high);
    if low == TWO_64 - 1 || keys[low] != index {
      Missing(keys, index, high);
      return false, high;
    }
    return true, low;
  }

  lemma MiddleInside(l: int, low: nat, high: nat)
    requires -1 <= l < high < TWO_64 / 2 && low == if l == -1 then TWO_64 - 1 else l
    requires (high + TWO_64 - low) % TWO_64 > 1
    ensures l < ((high + low) % TWO_64) / 2 < high
  {
    assert l == -1 ==> (high + low) % TWO_64 == high - 1;
  }

  lemma EndsMeet(l: int, low: nat, high: nat)
    requires -1 <= l < high < TWO_64 / 2 && low == if l == -1 then TWO_64 - 1 else l
    requires (high + TWO_64 - low) % TWO_64 <= 1
    ensures high == l + 1
  {
    assert l == -1 ==> (high + TWO_64 - low) % TWO_64 == high + 1;
    assert l != -1 ==> (high + TWO_64 - low) % TWO_64 == high - low;
  }

  lemma AboveAll(keys: seq<Bytes>, index: Bytes, mid: nat)
    requires Ascending(keys, |index|) && mid < |keys| && Less(index, keys[mid])
    ensures forall i :: mid <= i < |keys| ==> Less(index, keys[i])
  {
    hide Less;
    forall i | mid < i < |keys|
      ensures Less(index, keys[i])
    {
      LessTransitive(index, keys[mid], keys[i]);
    }
  }

  lemma BelowAll(keys: seq<Bytes>, index: Bytes, mid: nat)
    requires Ascending(keys, |index|) && mid < |keys| && !Less(index, keys[mid])
    ensures forall i :: 0 <= i <= mid ==> !Less(index, keys[i])
  {
    hide Less;
    forall i | 0 <= i < mid
      ensures !Less(index, keys[i])
    {
      if Less(index, keys[i]) {
        LessTransitive(index, keys[i], keys[mid]);
      }
    }
  }

  lemma Missing(keys: seq<Bytes>, index: Bytes, high: nat)
    requires Ascending(keys, |index|) && high <= |keys|
    requires forall i :: 0 <= i < high ==> !Less(index, keys[i])
    requires forall i :: high <= i < |keys| ==> Less(index, keys[i])
    requires high > 0 ==> keys[high - 1] != index
    ensures index !in keys && forall i :: 0 <= i < high ==> Less(keys[i], index)
  {
    hide Less;
    forall i | 0 <= i < high
      ensures Less(keys[i], index)
    {
      BelowLast(keys, index, high - 1, i);
    }
    forall i | 0 <= i < |keys|
      ensures keys[i] != index
    {
      LessIrreflexive(index);
      assert i < high ==> Less(keys[i], index);
    }
  }

  lemma BelowLast(keys: seq<Bytes>, index: Bytes, last: nat, i: nat)
    requires Ascending(keys, |index|) && i <= last < |keys|
    requires keys[last] != index && !Less(index, keys[last])
    ensures Less(keys[i], index)
  {
    hide Less;
    LessTotal(index, keys[last]);
    if i < last {
      LessTransitive(keys[i], keys[last], index);
    }
  }

  // ----- The walk

  /** The child of a digit, by the lookup of its kind of branch. */
  method Lookup(jp: Jp, ghost k: nat, digit: nat) returns (child: Option<Jp>)
    requires Branch(jp, k) && digit < DIGITS
    ensures child == Child(jp.body, digit)
  {
    hide Shape, Counted;
    match jp.body {
      case Linear(l) => child := LookupL(l, digit);
      case Bitmap(b) => child := LookupB(b, digit);
      case Plain(u) => child := u.jps[digit];
    }
  }

  /** Whether a leaf holds the bytes that are left of an index. */
  method TestLeaf(jp: Jp, ghost k: nat, index: Bytes) returns (r: bool)
    requires Valid(jp, k) && (jp.body.Line? || OneByte(jp.body)) && |index| == k && IsBytes(index)
    ensures r <==> index in Keys(jp, k)
  {
    hide Shape, Counted, Keys, Bit, And, Shl, Less;
    InLeaf(jp, k, index);
    var n := |jp.dcd|;
    if index[..n] != jp.dcd {
      return false;
    }
    match jp.body {
      case Line(keys) =>
        LineIsLeaf(jp, k);
        var offset;
        r, offset := SearchLeaf(keys, index[n..]);
      case Bits(bitmap) =>
        BitTest(bitmap[index[n] / LEAF_BITS], index[n] % LEAF_BITS);
        r := And(bitmap[index[n] / LEAF_BITS], Shl(1, index[n] % LEAF_BITS)) != 0;
      case FullPop =>
        r := true;
    }
  }

  lemma LineIsLeaf(jp: Jp, k: nat)
    requires Valid(jp, k) && jp.body.Line?
    ensures |jp.dcd| < k && LinearLeaf(jp.body.keys, k - |jp.dcd|)
  {
  }

  /** Judy1Test: whether the index is one of the keys. */
  method Test(root: Option<Jp>, k: nat, index: Bytes) returns (r: bool)
    requires root.Some? ==> Valid(root.value, k)
    requires |index| == k && IsBytes(index)
    ensures r <==> root.Some? && index in Keys(root.value, k)
  {
    hide Shape, Counted, Keys, Child, Digital;
    if root.None? {
      return false;
    }
    var jp, at := root.value, 0;
    assert index[0..] == index;
    while true
      invariant at <= k && Valid(jp, k - at)
      invariant index in Keys(root.value, k) <==> index[at..] in Keys(jp, k - at)
      decreases k - at
    {
      Kind(jp, k - at);
      ghost var rest := index[at..];
      if jp.body.Line? || jp.body.Bits? || jp.body.FullPop? {
        r := TestLeaf(jp, k - at, index[at..]);
        return;
      }
      InBranch(jp, k - at, rest);
      var n := at + |jp.dcd|;
      assert rest[..|jp.dcd|] == index[at..n] && rest[|jp.dcd| + 1..] == index[n + 1..];
      if index[at..n] != jp.dcd {
        return false;
      }
      var child := Lookup(jp, k - at, index[n]);
      if child.None? {
        return false;
      }
      ghost var left := k - at - |jp.dcd| - 1;
      PopStep(jp, k - at, index[n]);
      jp, at := child.value, n + 1;
    }
  }
}
