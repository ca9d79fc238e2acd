/** The 64-bit words of the bitset: their operators, bit by bit. */
module Words {
  import opened BitUtils

  type Word = w: nat | w < TWO_64

  predicate Bit(w: nat, k: nat) {
    if k == 0 then w % 2 == 1 else Bit(w / 2, k - 1)
  }

  // ----- The operators of the language on unsigned 64-bit values

  function And(a: Word, b: Word): (r: Word)
    ensures forall k :: 0 <= k < 64 ==> Bit(r, k) == (Bit(a, k) && Bit(b, k))
  {
    hide Bit, BitAnd;
    AndIsSmaller(a, b);
    AndBits(a, b);
    BitAnd(a, b)
  }

  function Or(a: Word, b: Word): (r: Word)
    ensures forall k :: 0 <= k < 64 ==> Bit(r, k) == (Bit(a, k) || Bit(b, k))
  {
    hide Bit, BitOr, Pow2;
    Pow2Of64();
    OrFits(a, b, 64);
    OrBits(a, b);
    BitOr(a, b)
  }

  function Not(a: Word): (r: Word)
    ensures forall k :: 0 <= k < 64 ==> Bit(r, k) == !Bit(a, k)
  {
    hide Bit, Pow2;
    Pow2Of64();
    ComplementBits(a, 64);
    TWO_64 - 1 - a
  }

  function Shl(a: Word, s: nat): (r: Word)
    requires s < 64
    ensures forall k :: 0 <= k < 64 ==> Bit(r, k) == (s <= k && Bit(a, k - s))
  {
    hide Bit, Pow2;
    Pow2Of64();
    ShiftedBits(a, s);
    LowBits(a * Pow2(s), 64);
    LowIsRemainder(a * Pow2(s), 64);
    (a * Pow2(s)) % TWO_64
  }

  function Shr(a: Word, s: nat): (r: Word)
    requires s < 64
    ensures forall k: nat :: Bit(r, k) == Bit(a, k + s)
    ensures forall k :: 64 - s <= k < 64 ==> !Bit(r, k)
  {
    hide Bit, Pow2, Halved;
    HalvedBits(a, s);
    HalvedSmaller(a, s);
    Pow2Of64();
    SmallBits(a, 64);
    HalvedIsQuotient(a, s);
    a / Pow2(s)
  }

  /** (1 << n) - 1. */
  function Mask(n: nat): (r: Word)
    requires n < 64
    ensures forall k :: 0 <= k < 64 ==> Bit(r, k) == (k < n)
  {
    hide Bit, Pow2;
    Pow2Monotone(n, 64);
    Pow2Of64();
    MaskBits(Pow2(n) - 1, n);
    Pow2(n) - 1
  }

  function Ones(): (r: Word)
    ensures forall k :: 0 <= k < 64 ==> Bit(r, k)
  {
    hide Bit;
    Pow2Of64();
    MaskBits(TWO_64 - 1, 64);
    TWO_64 - 1
  }

  /** __builtin_ffsll: one more than the place of the lowest one bit, or 0. */
  function Ffs(w: Word): (r: nat)
    ensures r == 0 ==> w == 0 && forall k: nat :: !Bit(w, k)
    ensures r > 0 ==> r <= 64 && Bit(w, r - 1) && forall k: nat :: k < r - 1 ==> !Bit(w, k)
  {
    hide Pow2;
    if w == 0 then
      Pow2Of64();
      SmallBits(0, 0);
      0
    else
      FfsBits(w);
      Pow2Of64();
      SmallBits(w, 64);
      CtzNonZero(w) + 1
  }

  function PopCount(w: nat): nat {
    if w == 0 then 0 else w % 2 + PopCount(w / 2)
  }

  // ----- The same, without the width

  function BitOr(a: nat, b: nat): nat {
    if a == 0 && b == 0 then 0
    else 2 * BitOr(a / 2, b / 2) + (if a % 2 == 1 || b % 2 == 1 then 1 else 0)
  }

  lemma {:induction false} AndIsSmaller(a: nat, b: nat)
    ensures BitAnd(a, b) <= a
  {
    if a != 0 && b != 0 {
      AndIsSmaller(a / 2, b / 2);
    }
  }

  lemma {:induction false} ZeroBit(k: nat)
    ensures !Bit(0, k)
  {
    if k > 0 {
      ZeroBit(k - 1);
    }
  }

  lemma {:induction false} AndBit(a: nat, b: nat, k: nat)
    ensures Bit(BitAnd(a, b), k) == (Bit(a, k) && Bit(b, k))
    decreases k
  {
    if a == 0 || b == 0 {
      ZeroBit(k);
    } else if k > 0 {
      AndBit(a / 2, b / 2, k - 1);
    }
  }

  lemma AndBits(a: nat, b: nat)
    ensures forall k: nat :: Bit(BitAnd(a, b), k) == (Bit(a, k) && Bit(b, k))
  {
    hide Bit, BitAnd;
    forall k: nat {
      AndBit(a, b, k);
    }
  }

  lemma {:induction false} OrFits(a: nat, b: nat, n: nat)
    requires a < Pow2(n) && b < Pow2(n)
    ensures BitOr(a, b) < Pow2(n)
  {
    if n > 0 {
      OrFits(a / 2, b / 2, n - 1);
    }
  }

  lemma {:induction false} OrBit(a: nat, b: nat, k: nat)
    ensures Bit(BitOr(a, b), k) == (Bit(a, k) || Bit(b, k))
    decreases k
  {
    if a == 0 && b == 0 {
      ZeroBit(k);
    } else if k > 0 {
      OrBit(a / 2, b / 2, k - 1);
    }
  }

  lemma OrBits(a: nat, b: nat)
    ensures forall k: nat :: Bit(BitOr(a, b), k) == (Bit(a, k) || Bit(b, k))
  {
    hide Bit, BitOr;
    forall k: nat {
      OrBit(a, b, k);
    }
  }

  lemma {:induction false} ComplementBit(a: nat, n: nat, k: nat)
    requires a < Pow2(n) && k < n
    ensures Bit(Pow2(n) - 1 - a, k) == !Bit(a, k)
    decreases k
  {
    if k > 0 {
      ComplementBit(a / 2, n - 1, k - 1);
      assert (Pow2(n) - 1 - a) / 2 == Pow2(n - 1) - 1 - a / 2;
    }
  }

  lemma ComplementBits(a: nat, n: nat)
    requires a < Pow2(n)
    ensures forall k :: 0 <= k < n ==> Bit(Pow2(n) - 1 - a, k) == !Bit(a, k)
  {
    hide Bit, Pow2;
    forall k | 0 <= k < n {
      ComplementBit(a, n, k);
    }
  }

  lemma {:induction false} ShiftedBit(a: nat, s: nat, k: nat)
    ensures Bit(a * Pow2(s), k) == (s <= k && Bit(a, k - s))
    decreases k
  {
    if s > 0 {
      assert a * Pow2(s) == 2 * (a * Pow2(s - 1));
      if k > 0 {
        ShiftedBit(a, s - 1, k - 1);
      }
    }
  }

  lemma ShiftedBits(a: nat, s: nat)
    ensures forall k: nat :: Bit(a * Pow2(s), k) == (s <= k && Bit(a, k - s))
  {
    hide Bit, Pow2;
    forall k: nat {
      ShiftedBit(a, s, k);
    }
  }

  /** a modulo 2^n. */
  function Low(a: nat, n: nat): nat {
    if n == 0 then 0 else 2 * Low(a / 2, n - 1) + a % 2
  }

  lemma {:induction false} LowIsRemainder(a: nat, n: nat)
    ensures Low(a, n) == a % Pow2(n)
  {
    if n > 0 {
      LowIsRemainder(a / 2, n - 1);
      RemainderOfHalf(a, Pow2(n - 1));
    }
  }

  lemma {:induction false} LowBit(a: nat, n: nat, k: nat)
    ensures Bit(Low(a, n), k) == (k < n && Bit(a, k))
    decreases k
  {
    if n == 0 {
      ZeroBit(k);
    } else if k > 0 {
      LowBit(a / 2, n - 1, k - 1);
    }
  }

  lemma LowBits(a: nat, n: nat)
    ensures forall k: nat :: Bit(Low(a, n), k) == (k < n && Bit(a, k))
  {
    hide Bit, Low;
    forall k: nat {
      LowBit(a, n, k);
    }
  }

  lemma {:induction false} LowSmaller(a: nat, n: nat)
    ensures Low(a, n) <= a
  {
    if n > 0 {
      LowSmaller(a / 2, n - 1);
    }
  }

  /** a divided by 2^s. */
  function Halved(a: nat, s: nat): nat {
    if s == 0 then a else Halved(a / 2, s - 1)
  }

  lemma {:induction false} HalvedIsQuotient(a: nat, s: nat)
    ensures Halved(a, s) == a / Pow2(s)
  {
    if s > 0 {
      HalvedIsQuotient(a / 2, s - 1);
      DivHalf(a, Pow2(s - 1));
    }
  }

  lemma DivHalf(a: nat, p: nat)
    requires p > 0
    ensures a / (2 * p) == (a / 2) / p
  {
    var q, r := (a / 2) / p, (a / 2) % p;
    assert a / 2 == q * p + r;
    assert 2 * (q * p) == q * (2 * p);
    DivUnique(a, 2 * p, q, 2 * r + a % 2);
  }

  lemma {:induction false} HalvedSmaller(a: nat, s: nat)
    ensures Halved(a, s) <= a
  {
    if s > 0 {
      HalvedSmaller(a / 2, s - 1);
    }
  }

  lemma {:induction false} HalvedBit(a: nat, s: nat, k: nat)
    ensures Bit(Halved(a, s), k) == Bit(a, k + s)
    decreases s
  {
    if s > 0 {
      HalvedBit(a / 2, s - 1, k);
    }
  }

  lemma HalvedBits(a: nat, s: nat)
    ensures forall k: nat :: Bit(Halved(a, s), k) == Bit(a, k + s)
  {
    hide Bit, Halved;
    forall k: nat {
      HalvedBit(a, s, k);
    }
  }

  lemma {:induction false} SmallBit(a: nat, n: nat, k: nat)
    requires a < Pow2(n) && n <= k
    ensures !Bit(a, k)
    decreases k
  {
    if n == 0 {
      ZeroBit(k);
    } else {
      SmallBit(a / 2, n - 1, k - 1);
    }
  }

  lemma SmallBits(a: nat, n: nat)
    requires a < Pow2(n)
    ensures forall k: nat :: n <= k ==> !Bit(a, k)
  {
    hide Bit, Pow2;
    forall k: nat | n <= k {
      SmallBit(a, n, k);
    }
  }

  lemma {:induction false} MaskBit(n: nat, k: nat)
    ensures Bit(Pow2(n) - 1, k) == (k < n)
    decreases k
  {
    if n == 0 {
      ZeroBit(k);
    } else if k > 0 {
      MaskBit(n - 1, k - 1);
      assert (Pow2(n) - 1) / 2 == Pow2(n - 1) - 1;
    }
  }

  lemma MaskBits(w: nat, n: nat)
    requires w == Pow2(n) - 1
    ensures forall k: nat :: Bit(w, k) == (k < n)
  {
    hide Bit, Pow2;
    forall k: nat
      ensures Bit(w, k) == (k < n)
    {
      MaskBit(n, k);
    }
  }

  lemma {:induction false} FfsBits(w: nat)
    requires w > 0
    ensures Bit(w, CtzNonZero(w)) && forall k :: 0 <= k < CtzNonZero(w) ==> !Bit(w, k)
  {
    if w % 2 == 0 {
      FfsBits(w / 2);
      forall k | 0 <= k < CtzNonZero(w)
        ensures !Bit(w, k)
      {
        assert k > 0 ==> !Bit(w / 2, k - 1);
      }
    }
  }

  /** Words of n bits that agree bit by bit are the same number. */
  lemma {:induction false} BitsDetermine(a: nat, b: nat, n: nat)
    requires a < Pow2(n) && b < Pow2(n)
    requires forall k :: 0 <= k < n ==> Bit(a, k) == Bit(b, k)
    ensures a == b
  {
    if n > 0 {
      forall k | 0 <= k < n - 1
        ensures Bit(a / 2, k) == Bit(b / 2, k)
      {
        assert Bit(a, k + 1) == Bit(b, k + 1);
      }
      BitsDetermine(a / 2, b / 2, n - 1);
      assert Bit(a, 0) == Bit(b, 0);
    }
  }

  lemma WordsDetermined(a: Word, b: Word)
    requires forall k :: 0 <= k < 64 ==> Bit(a, k) == Bit(b, k)
    ensures a == b
  {
    hide Bit, Pow2;
    Pow2Of64();
    BitsDetermine(a, b, 64);
  }

  /** A number without bits from place n on has n bits. */
  lemma {:induction false} HighClear(a: nat, n: nat)
    requires forall k: nat :: n <= k ==> !Bit(a, k)
    ensures a < Pow2(n)
  {
    if n > 0 {
      forall k: nat | n - 1 <= k
        ensures !Bit(a / 2, k)
      {
        assert !Bit(a, k + 1);
      }
      HighClear(a / 2, n - 1);
    } else if a > 0 {
      FfsBits(a);
    }
  }

  lemma AllClear(w: Word)
    requires forall k :: 0 <= k < 64 ==> !Bit(w, k)
    ensures w == 0
  {
    hide Bit;
    forall k | 0 <= k < 64
      ensures Bit(w, k) == Bit(0, k)
    {
      ZeroBit(k);
    }
    WordsDetermined(w, 0);
  }

  /** The two idioms that read one bit. */
  lemma BitTest(w: Word, s: nat)
    requires s < 64
    ensures forall k :: 0 <= k < 64 ==> Bit(Shl(1, s), k) == (k == s)
    ensures And(w, Shl(1, s)) != 0 <==> Bit(w, s)
    ensures And(Shr(w, s), 1) == 1 <==> Bit(w, s)
  {
    hide Bit, Pow2, BitAnd;
    forall k | 0 <= k < 64
      ensures Bit(Shl(1, s), k) == (k == s)
    {
      if s <= k {
        OneBit(k - s);
      }
    }
    ZeroBit(s);
    if !Bit(w, s) {
      AllClear(And(w, Shl(1, s)));
    }
    AndOne(Shr(w, s));
  }

  lemma {:induction false} OneBit(k: nat)
    ensures Bit(1, k) == (k == 0)
  {
    if k > 0 {
      ZeroBit(k - 1);
    }
  }

  lemma AndOne(w: Word)
    ensures And(w, 1) == 1 <==> Bit(w, 0)
  {
    assert BitAnd(w / 2, 0) == 0;
  }

  // ----- Counting the one bits

  function OnesBelow(w: nat, n: nat): nat {
    if n == 0 then 0 else OnesBelow(w, n - 1) + (if Bit(w, n - 1) then 1 else 0)
  }

  lemma {:induction false} OnesBelowHalf(w: nat, n: nat)
    ensures OnesBelow(w, n + 1) == w % 2 + OnesBelow(w / 2, n)
  {
    if n > 0 {
      OnesBelowHalf(w, n - 1);
    }
  }

  lemma {:induction false} PopCountIsOnes(w: nat, n: nat)
    requires w < Pow2(n)
    ensures PopCount(w) == OnesBelow(w, n)
    decreases n
  {
    if n > 0 {
      PopCountIsOnes(w / 2, n - 1);
      OnesBelowHalf(w, n - 1);
    }
  }

  lemma PopCountOfWord(w: Word)
    ensures PopCount(w) == OnesBelow(w, 64)
  {
    hide Pow2, PopCount, OnesBelow;
    Pow2Of64();
    PopCountIsOnes(w, 64);
  }
}
