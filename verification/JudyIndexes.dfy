/** The indexes of a Judy array: words, and their bytes, most significant first.

    The walks read and write an index byte by byte; the lemmas here say what that means for the word. */
module JudyIndexes {
  import opened BitUtils
  import opened Words

  type Bytes = seq<nat>

  const BYTE: nat := 256

  predicate IsBytes(b: Bytes) {
    forall i :: 0 <= i < |b| ==> b[i] < BYTE
  }

  function Power(n: nat): (p: nat)
    ensures p >= 1
  {
    if n == 0 then 1 else BYTE * Power(n - 1)
  }

  /** The word with these bytes. */
  function Value(b: Bytes): nat {
    if b == [] then 0 else BYTE * Value(b[..|b| - 1]) + b[|b| - 1]
  }

  lemma {:induction false} ValueBound(b: Bytes)
    requires IsBytes(b)
    ensures Value(b) < Power(|b|)
  {
    if b != [] {
      ValueBound(b[..|b| - 1]);
    }
  }

  // ----- Order

  predicate Less(a: Bytes, b: Bytes)
    requires |a| == |b|
  {
    |a| > 0 && (a[0] < b[0] || (a[0] == b[0] && Less(a[1..], b[1..])))
  }

  lemma {:induction false} LessLast(a: Bytes, b: Bytes)
    requires |a| == |b| > 0
    ensures var i := |a| - 1;
            Less(a, b) <==> Less(a[..i], b[..i]) || (a[..i] == b[..i] && a[i] < b[i])
  {
    var i := |a| - 1;
    if i > 0 {
      LessLast(a[1..], b[1..]);
      assert a[1..][..i - 1] == a[..i][1..] && b[1..][..i - 1] == b[..i][1..];
      assert a[..i] == [a[0]] + a[..i][1..] && b[..i] == [b[0]] + b[..i][1..];
    }
  }

  /** The order of the bytes is the order of the words, and the bytes determine the word. */
  lemma {:induction false} LessIsNumeric(a: Bytes, b: Bytes)
    requires |a| == |b| && IsBytes(a) && IsBytes(b)
    ensures Less(a, b) <==> Value(a) < Value(b)
    ensures a == b <==> Value(a) == Value(b)
  {
    hide Less;
    if a != [] {
      var i := |a| - 1;
      LessIsNumeric(a[..i], b[..i]);
      LessLast(a, b);
      assert a == a[..i] + [a[i]] && b == b[..i] + [b[i]];
    } else {
      NothingLess(a, b);
    }
  }

  lemma NothingLess(a: Bytes, b: Bytes)
    requires a == b == []
    ensures !Less(a, b)
  {
  }

  lemma {:induction false} LessUnder(p: Bytes, a: Bytes, b: Bytes)
    requires |a| == |b| && Less(a, b)
    ensures Less(p + a, p + b)
  {
    if p != [] {
      LessUnder(p[1..], a, b);
      assert (p + a)[1..] == p[1..] + a && (p + b)[1..] == p[1..] + b;
    } else {
      assert p + a == a && p + b == b;
    }
  }

  lemma {:induction false} LessIrreflexive(a: Bytes)
    ensures !Less(a, a)
  {
    if |a| > 0 {
      LessIrreflexive(a[1..]);
    }
  }

  lemma {:induction false} LessTransitive(a: Bytes, b: Bytes, c: Bytes)
    requires |a| == |b| == |c| && Less(a, b) && Less(b, c)
    ensures Less(a, c)
  {
    if a[0] == b[0] == c[0] {
      LessTransitive(a[1..], b[1..], c[1..]);
    }
  }

  lemma {:induction false} LessTotal(a: Bytes, b: Bytes)
    requires |a| == |b|
    ensures a == b || Less(a, b) || Less(b, a)
  {
    if a != [] && a[0] == b[0] {
      LessTotal(a[1..], b[1..]);
      assert a == [a[0]] + a[1..] && b == [b[0]] + b[1..];
    }
  }

  // ----- Digits of a word

  /** JU_DIGITATSTATE: the byte at a state, counted from 1 at the low end. */
  function DigitAtState(v: nat, state: nat): nat
    requires state > 0
  {
    (v / Power(state - 1)) % BYTE
  }

  /** JU_SETDIGIT: the bits of the digit cleared and the new ones put in. */
  function SetDigit(v: nat, d: nat, state: nat): nat
    requires state > 0
  {
    MulMonotone(0, v / Power(state), Power(state));
    MulMonotone(0, d, Power(state - 1));
    (v / Power(state)) * Power(state) + d * Power(state - 1) + v % Power(state - 1)
  }

  lemma Parts(v: nat, p: nat)
    requires p > 0
    ensures v / (BYTE * p) == (v / BYTE) / p
    ensures v % (BYTE * p) == BYTE * ((v / BYTE) % p) + v % BYTE
  {
    var q, r := (v / BYTE) / p, (v / BYTE) % p;
    assert v / BYTE == q * p + r;
    assert BYTE * (q * p) == q * (BYTE * p);
    DivUnique(v, BYTE * p, q, BYTE * r + v % BYTE);
  }

  lemma {:induction false} DigitIsByte(b: Bytes, state: nat)
    requires 1 <= state <= |b| && IsBytes(b)
    ensures DigitAtState(Value(b), state) == b[|b| - state]
  {
    hide DigitAtState;
    var n := |b| - 1;
    DigitSteps(Value(b[..n]), b[n], state);
    if state > 1 {
      DigitIsByte(b[..n], state - 1);
    }
  }

  lemma DigitSteps(u: nat, low: nat, state: nat)
    requires state > 0 && low < BYTE
    ensures DigitAtState(BYTE * u + low, state) == if state == 1 then low else DigitAtState(u, state - 1)
  {
    var v := BYTE * u + low;
    assert v / BYTE == u && v % BYTE == low;
    if state > 1 {
      Parts(v, Power(state - 2));
    }
  }

  lemma {:induction false} SetDigitSetsByte(b: Bytes, d: nat, state: nat)
    requires 1 <= state <= |b| && IsBytes(b) && d < BYTE
    ensures SetDigit(Value(b), d, state) == Value(b[|b| - state := d])
  {
    hide SetDigit;
    var n := |b| - 1;
    var init, set_ := b[..n], b[|b| - state := d];
    if state == 1 {
      assert set_[..n] == init;
      SetLowDigit(Value(init), b[n], d);
    } else {
      assert set_[..n] == init[n - (state - 1) := d];
      SetDigitSetsByte(init, d, state - 1);
      SetDigitSteps(Value(init), b[n], d, state);
    }
  }

  lemma SetLowDigit(u: nat, low: nat, d: nat)
    requires low < BYTE
    ensures SetDigit(BYTE * u + low, d, 1) == BYTE * u + d
  {
    assert Power(1) == BYTE && Power(0) == 1;
    assert (BYTE * u + low) / BYTE == u;
  }

  lemma SetDigitSteps(u: nat, low: nat, d: nat, state: nat)
    requires state > 1 && low < BYTE
    ensures SetDigit(BYTE * u + low, d, state) == BYTE * SetDigit(u, d, state - 1) + low
  {
    var v, p, q := BYTE * u + low, Power(state - 1), Power(state - 2);
    Parts(v, p);
    Parts(v, q);
    assert v / BYTE == u && v % BYTE == low;
    assert (u / p) * (BYTE * p) == BYTE * ((u / p) * p);
    assert d * (BYTE * q) == BYTE * (d * q);
  }

  // ----- The same, bit by bit

  /** The places of a word of n bytes; all words of eight bytes are the machine's. */
  lemma {:induction false} PowerIsPow2(n: nat)
    ensures Power(n) == Pow2(8 * n)
    ensures n == 8 ==> Power(n) == TWO_64
  {
    hide Pow2;
    if n == 0 {
      assert Pow2(0) == 1 by {
        Pow2Sum(0, 0);
      }
    } else {
      PowerIsPow2(n - 1);
      ByteIsPow2();
      Pow2Sum(8, 8 * (n - 1));
    }
    Pow2Of64();
  }

  lemma ByteIsPow2()
    ensures BYTE == Pow2(8)
  {
    assert Pow2(4) == 16;
    Pow2Sum(4, 4);
  }

  /** The digit at a state is the word shifted down by whole bytes and cut to eight bits. */
  lemma DigitBits(v: nat, state: nat, i: nat)
    requires state > 0
    ensures Bit(DigitAtState(v, state), i) <==> i < 8 && Bit(v, 8 * (state - 1) + i)
  {
    hide Bit, Pow2, Power, Halved, Low;
    var s := 8 * (state - 1);
    PowerIsPow2(state - 1);
    ByteIsPow2();
    HalvedIsQuotient(v, s);
    LowIsRemainder(Halved(v, s), 8);
    LowBit(Halved(v, s), 8, i);
    HalvedBit(v, s, i);
  }

  /** Setting a digit puts its eight bits at the state and leaves every other bit of the word. */
  lemma SetDigitBits(v: nat, d: nat, state: nat, i: nat)
    requires state > 0 && d < BYTE
    ensures Bit(SetDigit(v, d, state), i) <==>
            if 8 * (state - 1) <= i < 8 * state then Bit(d, i - 8 * (state - 1)) else Bit(v, i)
  {
    hide Bit, Pow2, Halved, Low, SetDigit, Join;
    var s := 8 * (state - 1);
    ByteIsPow2();
    SetDigitJoins(v, d, state);
    LowSmall(v, s);
    JoinedBit(Join(Halved(v, s + 8), d, 8), Low(v, s), s, i);
    if i < s {
      LowBit(v, s, i);
    } else {
      JoinedBit(Halved(v, s + 8), d, 8, i - s);
      if s + 8 <= i {
        HalvedBit(v, s + 8, i - s - 8);
      }
    }
  }

  /** Two numbers side by side in one word, the lower of n bits. */
  function Join(high: nat, low: nat, n: nat): nat {
    high * Pow2(n) + low
  }

  lemma {:induction false} JoinedBit(high: nat, low: nat, n: nat, i: nat)
    requires low < Pow2(n)
    ensures Bit(Join(high, low, n), i) <==> if i < n then Bit(low, i) else Bit(high, i - n)
  {
    hide Join;
    JoinHalf(high, low, n);
    if n > 0 && i > 0 {
      JoinedBit(high, low / 2, n - 1, i - 1);
    }
  }

  lemma JoinHalf(high: nat, low: nat, n: nat)
    ensures n == 0 ==> Join(high, low, n) == high + low
    ensures n > 0 ==> Join(high, low, n) / 2 == Join(high, low / 2, n - 1) && Join(high, low, n) % 2 == low % 2
  {
    if n > 0 {
      assert high * Pow2(n) == 2 * (high * Pow2(n - 1));
    }
  }

  /** The bits above the digit, the digit, and the bits below it. */
  lemma SetDigitJoins(v: nat, d: nat, state: nat)
    requires state > 0
    ensures var s := 8 * (state - 1);
            SetDigit(v, d, state) == Join(Join(Halved(v, s + 8), d, 8), Low(v, s), s)
  {
    hide Pow2, Power, Halved, Low;
    var s := 8 * (state - 1);
    PowerIsPow2(state);
    PowerIsPow2(state - 1);
    Pow2Sum(8, s);
    HalvedIsQuotient(v, s + 8);
    LowIsRemainder(v, s);
    Regroup(Halved(v, s + 8), Pow2(8), d, Pow2(s));
  }

  lemma Regroup(a: nat, b: nat, c: nat, p: nat)
    ensures (a * b + c) * p == a * (b * p) + c * p
  {
  }

  lemma LowSmall(v: nat, n: nat)
    ensures Low(v, n) < Pow2(n)
  {
    LowIsRemainder(v, n);
  }

  lemma DigitFits(v: Word, d: nat, state: nat)
    requires 1 <= state <= 8 && d < BYTE
    ensures DigitAtState(v, state) < TWO_64 && SetDigit(v, d, state) < TWO_64
  {
    hide Bit, Pow2, SetDigit, Power;
    Pow2Of64();
    SmallBits(v, 64);
    forall k: nat | 64 <= k
      ensures !Bit(SetDigit(v, d, state), k)
    {
      SetDigitBits(v, d, state, k);
    }
    HighClear(SetDigit(v, d, state), 64);
  }

  /** On machine words these are the source's expressions: shift and cut, and mask, shift and or. */
  lemma DigitsOfWords(v: Word, d: nat, state: nat)
    requires 1 <= state <= 8 && d < 256
    ensures DigitAtState(v, state) == And(Shr(v, 8 * (state - 1)), 0xff)
    ensures SetDigit(v, d, state) == Or(And(v, Not(Shl(0xff, 8 * (state - 1)))), Shl(d, 8 * (state - 1)))
  {
    hide Bit, Pow2, DigitAtState, SetDigit;
    var s := 8 * (state - 1);
    ByteIsPow2();
    MaskBits(0xff, 8);
    SmallBits(d, 8);
    DigitFits(v, d, state);
    forall i | 0 <= i < 64
      ensures Bit(DigitAtState(v, state), i) == Bit(And(Shr(v, s), 0xff), i)
      ensures Bit(SetDigit(v, d, state), i) == Bit(Or(And(v, Not(Shl(0xff, s))), Shl(d, s)), i)
    {
      DigitBits(v, state, i);
      SetDigitBits(v, d, state, i);
    }
    WordsDetermined(DigitAtState(v, state), And(Shr(v, s), 0xff));
    WordsDetermined(SetDigit(v, d, state), Or(And(v, Not(Shl(0xff, s))), Shl(d, s)));
  }
}
