/** The bit arithmetic under the power-of-two allocator.

    Machine words are natural numbers here; a function that the source defines only on 32 bits
    says so in its precondition.  The two facts every allocator proof rests on are the
    equivalences CtzIff (trailing zeroes against divisibility) and Log2CeilIff (ceiling of the
    logarithm against the powers that bound a number).  Divisibility by a power of two is
    stated digit by digit, which keeps the proofs linear; AlignedIffRemainder ties it to %. */
module BitUtils {

  const TWO_32: nat := 0x1_0000_0000
  const TWO_64: nat := 0x1_0000_0000_0000_0000

  /** One more than the greatest C int; the allocators return their indices as int. */
  const INT_LIMIT: int := 0x8000_0000

  function Pow2(n: nat): (p: nat)
    ensures p >= 1
  {
    if n == 0 then 1 else 2 * Pow2(n - 1)
  }

  lemma {:induction false} Pow2Monotone(a: nat, b: nat)
    requires a <= b
    ensures Pow2(a) <= Pow2(b)
    ensures a < b ==> 2 * Pow2(a) <= Pow2(b)
    decreases b
  {
    if a < b {
      Pow2Monotone(a, b - 1);
    }
  }

  lemma {:induction false} Pow2Sum(a: nat, b: nat)
    ensures Pow2(a + b) == Pow2(a) * Pow2(b)
  {
    if a > 0 {
      Pow2Sum(a - 1, b);
      calc {
        Pow2(a + b);
        2 * Pow2(a - 1 + b);
        2 * (Pow2(a - 1) * Pow2(b));
        (2 * Pow2(a - 1)) * Pow2(b);
      }
    }
  }

  lemma Pow2Of32()
    ensures Pow2(32) == TWO_32
  {
    assert Pow2(8) == 0x100;
    Pow2Sum(8, 8);
    Pow2Sum(16, 16);
  }

  lemma Pow2Of64()
    ensures Pow2(64) == TWO_32 * TWO_32
  {
    Pow2Of32();
    Pow2Sum(32, 32);
  }

  // ----- Divisibility by powers of two

  /** x is a multiple of 2^k: its k lowest binary digits are zero. */
  predicate Aligned(x: nat, k: nat) {
    k == 0 || (x % 2 == 0 && Aligned(x / 2, k - 1))
  }

  /** Aligning to a larger power aligns to every smaller one. */
  lemma {:induction false} AlignedDown(x: nat, k: nat, j: nat)
    requires Aligned(x, k) && j <= k
    ensures Aligned(x, j)
  {
    if j > 0 {
      AlignedDown(x / 2, k - 1, j - 1);
    }
  }

  /** Distinct multiples of a power are at least that power apart. */
  lemma {:induction false} AlignedApart(x: nat, y: nat, k: nat)
    requires Aligned(x, k) && Aligned(y, k) && x < y
    ensures x + Pow2(k) <= y
  {
    if k > 0 {
      AlignedApart(x / 2, y / 2, k - 1);
    }
  }

  lemma {:induction false} AlignedSum(x: nat, y: nat, k: nat)
    requires Aligned(x, k) && Aligned(y, k)
    ensures Aligned(x + y, k)
    ensures x <= y ==> Aligned(y - x, k)
  {
    if k > 0 {
      AlignedSum(x / 2, y / 2, k - 1);
      assert (x + y) / 2 == x / 2 + y / 2;
      if x <= y {
        assert (y - x) / 2 == y / 2 - x / 2;
      }
    }
  }

  lemma {:induction false} ZeroAligned(k: nat)
    ensures Aligned(0, k)
  {
    if k > 0 {
      ZeroAligned(k - 1);
    }
  }

  lemma {:induction false} Pow2Aligned(k: nat, j: nat)
    requires j <= k
    ensures Aligned(Pow2(k), j)
  {
    if j > 0 {
      Pow2Aligned(k - 1, j - 1);
    }
  }

  /** Every multiple of 2^k is reached from 0 in steps of 2^k. */
  lemma {:induction false} MultipleAligned(q: nat, k: nat)
    ensures Aligned(q * Pow2(k), k)
  {
    if q == 0 {
      ZeroAligned(k);
    } else {
      MultipleAligned(q - 1, k);
      Pow2Aligned(k, k);
      AlignedSum((q - 1) * Pow2(k), Pow2(k), k);
      assert q * Pow2(k) == (q - 1) * Pow2(k) + Pow2(k);
    }
  }

  lemma DivUnique(x: int, d: nat, q: int, r: nat)
    requires d > 0 && r < d && x == q * d + r
    ensures x / d == q && x % d == r
  {
    if x / d < q {
      MulMonotone(x / d + 1, q, d);
    } else if q < x / d {
      MulMonotone(q + 1, x / d, d);
    }
  }

  lemma MulMonotone(a: int, b: int, p: nat)
    requires a <= b
    ensures a * p <= b * p
  {
    assert (b - a) * p >= 0;
  }

  /** The remainder by 2p, from the remainder of the half by p. */
  lemma RemainderOfHalf(x: nat, p: nat)
    requires p > 0
    ensures x % (2 * p) == 2 * ((x / 2) % p) + x % 2
  {
    var q, r := (x / 2) / p, (x / 2) % p;
    assert x / 2 == q * p + r;
    assert 2 * (q * p) == q * (2 * p);
    DivUnique(x, 2 * p, q, 2 * r + x % 2);
  }

  lemma {:induction false} AlignedIffRemainder(x: nat, k: nat)
    ensures Aligned(x, k) <==> x % Pow2(k) == 0
  {
    if k > 0 {
      AlignedIffRemainder(x / 2, k - 1);
      RemainderOfHalf(x, Pow2(k - 1));
    }
  }

  // ----- Counting zeroes

  /** __builtin_ctz, with the 32 that the wrapper returns for zero. */
  function Ctz(x: nat): nat {
    if x == 0 then 32 else CtzNonZero(x)
  }

  function CtzNonZero(x: nat): nat
    requires x != 0
  {
    if x % 2 == 1 then 0 else 1 + CtzNonZero(x / 2)
  }

  /** The number of binary digits of x; 32 minus it is __builtin_clz. */
  function BitLength(x: nat): nat {
    if x == 0 then 0 else 1 + BitLength(x / 2)
  }

  lemma {:induction false} BitLengthIff(x: nat, j: nat)
    ensures x < Pow2(j) <==> BitLength(x) <= j
  {
    if x != 0 && j > 0 {
      BitLengthIff(x / 2, j - 1);
    }
  }

  function Clz32(x: nat): (r: nat)
    requires 0 < x < TWO_32
    ensures r == 32 - BitLength(x)
  {
    Pow2Of32();
    BitLengthIff(x, 32);
    32 - BitLength(x)
  }

  function Log2Ceil(x: nat): nat
    requires x < TWO_32
  {
    if x > 1 then 32 - Clz32(x - 1) else 0
  }

  function Log2Floor(x: nat): nat
    requires x < TWO_32
  {
    if x != 0 then assert BitLength(x) > 0; 31 - Clz32(x) else 0
  }

  /** Trailing zeroes count the powers of two that divide a 32-bit word. */
  lemma {:induction false} CtzIff(x: nat, j: nat)
    requires x < TWO_32 && j <= 32
    ensures Aligned(x, j) <==> j <= Ctz(x)
  {
    if x == 0 {
      ZeroAligned(j);
    } else {
      CtzNonZeroIff(x, j);
    }
  }

  lemma {:induction false} CtzNonZeroIff(x: nat, j: nat)
    requires x != 0
    ensures Aligned(x, j) <==> j <= CtzNonZero(x)
  {
    if j > 0 && x % 2 == 0 {
      CtzNonZeroIff(x / 2, j - 1);
    }
  }

  /** Log2Ceil(x) is the least exponent whose power reaches x. */
  lemma {:induction false} Log2CeilIff(x: nat, j: nat)
    requires x < TWO_32
    ensures x <= Pow2(j) <==> Log2Ceil(x) <= j
  {
    if x > 1 {
      BitLengthIff(x - 1, j);
    }
  }

  /** Log2Floor(x) is the greatest exponent whose power x reaches. */
  lemma {:induction false} Log2FloorIff(x: nat, j: nat)
    requires 0 < x < TWO_32
    ensures Pow2(j) <= x <==> j <= Log2Floor(x)
  {
    BitLengthIff(x, j);
  }

  lemma Log2CeilBounds(x: nat)
    requires 1 <= x < TWO_32
    ensures x <= Pow2(Log2Ceil(x)) && Log2Ceil(x) <= 32
    ensures Log2Ceil(x) > 0 ==> Pow2(Log2Ceil(x) - 1) < x
  {
    Log2CeilIff(x, Log2Ceil(x));
    if Log2Ceil(x) > 0 {
      Log2CeilIff(x, Log2Ceil(x) - 1);
    }
  }

  // ----- Bitwise and

  function BitAnd(a: nat, b: nat): nat {
    if a == 0 || b == 0 then 0
    else 2 * BitAnd(a / 2, b / 2) + (if a % 2 == 1 && b % 2 == 1 then 1 else 0)
  }

  function IsUint32Power2(x: nat): bool {
    x > 0 && BitAnd(x, x - 1) == 0
  }

  lemma {:induction false} BitAndSelf(x: nat)
    ensures BitAnd(x, x) == x
  {
    if x > 0 {
      BitAndSelf(x / 2);
    }
  }

  /** The classic test accepts exactly the powers of two. */
  lemma {:induction false} IsPower2Iff(x: nat)
    ensures IsUint32Power2(x) <==> exists k: nat :: x == Pow2(k)
  {
    if x == 0 {
    } else if x == 1 {
      assert BitAnd(1, 0) == 0;
      assert x == Pow2(0);
    } else if x % 2 == 1 {
      BitAndSelf(x / 2);
      assert (x - 1) / 2 == x / 2;
      forall k: nat
        ensures x != Pow2(k)
      {
        assert k == 0 || Pow2(k) % 2 == 0;
      }
      assert !IsUint32Power2(x);
    } else {
      IsPower2Iff(x / 2);
      assert (x - 1) / 2 == x / 2 - 1;
      assert BitAnd(x, x - 1) == 2 * BitAnd(x / 2, x / 2 - 1);
      if IsUint32Power2(x / 2) {
        var k: nat :| x / 2 == Pow2(k);
        assert x == Pow2(k + 1);
      } else {
        forall k: nat
          ensures x != Pow2(k)
        {
          if k > 0 {
            assert Pow2(k - 1) != x / 2;
          }
        }
      }
    }
  }

  lemma Log2CeilOfPower(x: nat)
    requires x < TWO_32 && IsUint32Power2(x)
    ensures x == Pow2(Log2Ceil(x))
    ensures Log2Ceil(x) <= 31
  {
    IsPower2Iff(x);
    var k: nat :| x == Pow2(k);
    Log2CeilBounds(x);
    Log2CeilIff(x, k);
    if Log2Ceil(x) < k {
      Pow2Monotone(Log2Ceil(x), k);
    }
    Pow2Of32();
    if 32 <= k {
      Pow2Monotone(32, k);
    }
  }

  /** x with its l lowest binary digits cleared. */
  function RoundDown(x: nat, l: nat): (r: nat)
    ensures r <= x < r + Pow2(l) && Aligned(r, l)
  {
    if l == 0 then x else 2 * RoundDown(x / 2, l - 1)
  }

  lemma {:induction false} MaskAll(x: nat, n: nat)
    requires x < Pow2(n)
    ensures BitAnd(x, Pow2(n) - 1) == x
  {
    if x > 0 {
      MaskAll(x / 2, n - 1);
      assert (Pow2(n) - 1) / 2 == Pow2(n - 1) - 1;
    }
  }

  /** Masking with the complement of 2^l - 1 in an n-bit word rounds down to a multiple of 2^l. */
  lemma {:induction false} MaskRoundsDown(x: nat, n: nat, l: nat)
    requires x < Pow2(n) && l <= n
    ensures Pow2(l) <= Pow2(n)
    ensures BitAnd(x, Pow2(n) - Pow2(l)) == RoundDown(x, l)
    decreases n
  {
    hide BitAnd, Aligned;
    Pow2Monotone(l, n);
    if l == 0 {
      MaskAll(x, n);
    } else {
      Pow2Monotone(l - 1, n - 1);
      var m := Pow2(n - 1) - Pow2(l - 1);
      assert Pow2(n) - Pow2(l) == 2 * m;
      BitAndEven(x, m);
      MaskRoundsDown(x / 2, n - 1, l - 1);
    }
  }

  lemma BitAndEven(x: nat, m: nat)
    ensures BitAnd(x, 2 * m) == 2 * BitAnd(x / 2, m)
  {
    if x == 1 {
      assert BitAnd(0, m) == 0;
    }
  }
}
