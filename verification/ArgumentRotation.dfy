/** The in-place block exchange of getopt: permute_args rotates a segment along gcd-many cycles.

    Positions are counted from the start of the segment; n is its length and k the length of its
    first block, so that position p of the result comes from position (p + k) mod n. */
module ArgumentRotation {
  import opened BitUtils

  // ----- Divisibility

  lemma ModShift(x: int, q: int, n: nat)
    requires n > 0
    ensures (x + q * n) % n == x % n
  {
    var r := x % n;
    var w := x / n;
    assert x == w * n + r;
    assert x + q * n == (w + q) * n + r;
    DivUnique(x + q * n, n, w + q, r);
  }

  function Combination(x: int, a: int, y: int, b: int): int {
    x * a + y * b
  }

  /** g divides a and b and is a combination of them, so it is their greatest common divisor. */
  ghost predicate IsGcd(g: nat, a: nat, b: nat) {
    && g > 0 && a % g == 0 && b % g == 0
    && exists x, y :: Combination(x, a, y, b) == g
  }

  /** No common divisor exceeds it. */
  lemma GcdIsGreatest(g: nat, a: nat, b: nat, d: nat)
    requires IsGcd(g, a, b) && d > 0 && a % d == 0 && b % d == 0
    ensures d <= g
  {
    var x, y :| Combination(x, a, y, b) == g;
    DividesSum(x, a, y, b, d);
    if g < d {
      DivUnique(g, d, 0, g);
    }
  }

  lemma DividesSum(x: int, a: nat, y: int, b: nat, d: nat)
    requires d > 0 && a % d == 0 && b % d == 0
    ensures Combination(x, a, y, b) % d == 0
  {
    var u, v := a / d, b / d;
    assert a == u * d && b == v * d;
    Reorder(x, u, d);
    Reorder(y, v, d);
    assert Combination(x, a, y, b) == 0 + (x * u + y * v) * d;
    ModShift(0, x * u + y * v, d);
  }

  lemma ScaleStep(p: int, q: int, a: int, b: int, k: int, c: int)
    requires a == k * b + c
    ensures Combination(p, a, q, b) == Combination(p * k + q, b, p, c)
  {
    calc {
      p * a + q * b;
      p * (k * b + c) + q * b;
      (p * k) * b + p * c + q * b;
      (p * k + q) * b + p * c;
    }
  }

  lemma RemainderCombination(x1: int, y1: int, x2: int, y2: int, a: int, b: int, k: int)
    ensures Combination(x1, a, y1, b) - k * Combination(x2, a, y2, b) == Combination(x1 - k * x2, a, y1 - k * y2, b)
  {
    assert k * (x2 * a + y2 * b) == (k * x2) * a + (k * y2) * b;
    assert (x1 - k * x2) * a == x1 * a - (k * x2) * a;
    assert (y1 - k * y2) * b == y1 * b - (k * y2) * b;
  }

  /** The Euclidean loop. */
  method Gcd(a0: nat, b0: nat) returns (r: nat)
    requires b0 > 0
    ensures IsGcd(r, a0, b0)
  {
    hide Combination;
    var a, b := a0, b0;
    var c := a % b;
    // a and b stay combinations of the arguments, and the arguments combinations of a and b
    ghost var p, q, s, t := 1, 0, 0, 1;
    ghost var x1, y1, x2, y2 := 1, 0, 0, 1;
    Units(a0, b0);
    while c != 0
      invariant a >= 0 && b > 0 && c == a % b
      invariant a0 == Combination(p, a, q, b) && b0 == Combination(s, a, t, b)
      invariant a == Combination(x1, a0, y1, b0) && b == Combination(x2, a0, y2, b0)
      decreases b
    {
      ghost var k := a / b;
      ScaleStep(p, q, a, b, k, c);
      ScaleStep(s, t, a, b, k, c);
      RemainderCombination(x1, y1, x2, y2, a0, b0, k);
      p, q, s, t := p * k + q, p, s * k + t, s;
      x1, y1, x2, y2 := x2, y2, x1 - k * x2, y1 - k * y2;
      a := b;
      b := c;
      c := a % b;
    }
    DividesCombination(p, a, q, b);
    DividesCombination(s, a, t, b);
    return b;
  }

  lemma Units(a: int, b: int)
    ensures Combination(1, a, 0, b) == a && Combination(0, a, 1, b) == b
  {
  }

  lemma DividesCombination(p: int, a: nat, q: int, b: nat)
    requires b > 0 && a % b == 0
    ensures Combination(p, a, q, b) % b == 0
  {
    var k := a / b;
    assert a == k * b;
    assert p * (k * b) == (p * k) * b;
    assert Combination(p, a, q, b) == 0 + (p * k + q) * b;
    ModShift(0, p * k + q, b);
  }

  // ----- The cycles

  /** The rotation: where the element at position p of the result comes from. */
  function Source(p: nat, k: nat, n: nat): nat {
    if p + k < n then p + k else p + k - n
  }

  /** The j-th position that cycle i visits, counting back from its start at k + i. */
  function Visit(i: nat, j: nat, k: nat, n: nat): nat
    requires n > 0
  {
    (k + i - j * k) % n
  }

  lemma VisitStart(i: nat, k: nat, n: nat)
    requires k + i < n
    ensures Visit(i, 0, k, n) == k + i
  {
    DivUnique(k + i, n, 0, k + i);
  }

  /** One move of pos, and the rotation as its inverse. */
  lemma VisitStep(i: nat, j: nat, k: nat, n: nat)
    requires k <= n && n > 0
    ensures var p, next := Visit(i, j, k, n), Visit(i, j + 1, k, n);
            p < n && next < n && next == (if p >= k then p - k else p + (n - k)) && Source(next, k, n) == p
  {
    var x := k + i - j * k;
    var r, w := x % n, x / n;
    assert x == w * n + r;
    assert (j + 1) * k == j * k + k;
    if r >= k {
      DivUnique(x - k, n, w, r - k);
    } else {
      assert x - k == (w - 1) * n + (r - k + n);
      DivUnique(x - k, n, w - 1, r - k + n);
    }
  }

  /** What the cycle structure needs from the greatest common divisor. */
  ghost predicate Cycles(g: nat, l: nat, k: nat, n: nat, x: int, y: int) {
    g > 0 && l > 0 && n == g * l && k <= n && k % g == 0 && Combination(x, k, y, n) == g
  }

  lemma MultipleOfGcd(g: nat, l: nat, k: nat, n: nat, x: int, y: int)
    requires Cycles(g, l, k, n, x, y)
    ensures l * k == (k / g) * n && n > 0
  {
    var k' := k / g;
    assert k == k' * g;
    assert l * (k' * g) == k' * (g * l);
    MulMonotone(1, l, g);
  }

  /** A cycle closes after l visits. */
  lemma VisitPeriodic(i: nat, j: nat, m: int, g: nat, l: nat, k: nat, n: nat, x: int, y: int)
    requires Cycles(g, l, k, n, x, y) && j + m * l >= 0
    ensures n > 0 && Visit(i, j + m * l, k, n) == Visit(i, j, k, n)
  {
    MultipleOfGcd(g, l, k, n, x, y);
    assert (j + m * l) * k == j * k + m * (l * k);
    assert m * ((k / g) * n) == (m * (k / g)) * n;
    ModShift(k + i - j * k, -(m * (k / g)), n);
    assert -(m * (k / g)) * n == -((m * (k / g)) * n);
  }

  /** Visits stay in the residue class of i. */
  lemma VisitClass(i: nat, j: nat, g: nat, l: nat, k: nat, n: nat, x: int, y: int)
    requires Cycles(g, l, k, n, x, y) && i < g
    ensures n > 0 && Visit(i, j, k, n) % g == i
  {
    MultipleOfGcd(g, l, k, n, x, y);
    var v := Visit(i, j, k, n);
    var w := (k + i - j * k) / n;
    var k' := k / g;
    assert k == k' * g;
    assert k + i - j * k == w * n + v;
    ClassQuotient(v, i, j, w, l, k', g);
    DivUnique(v, g, k' - j * k' - w * l, i);
  }

  lemma ClassQuotient(v: int, i: int, j: int, w: int, l: int, k: int, g: int)
    requires k * g + i - j * (k * g) == w * (g * l) + v
    ensures v == (k - j * k - w * l) * g + i
  {
    assert w * (g * l) == (w * l) * g;
    assert j * (k * g) == (j * k) * g;
    Distribute(k - j * k, w * l, g);
    Distribute(k, j * k, g);
  }

  lemma DifferenceOfVisits(i: nat, j: nat, j': nat, k: nat, n: nat) returns (w: int)
    requires n > 0 && Visit(i, j, k, n) == Visit(i, j', k, n)
    ensures (j' - j) * k == w * n
  {
    var u, v := (k + i - j * k) / n, (k + i - j' * k) / n;
    w := u - v;
    Distribute(u, v, n);
    Distribute(j', j, k);
  }

  lemma Distribute(a: int, b: int, c: int)
    ensures (a - b) * c == a * c - b * c
  {
  }

  /** A distance that is a multiple of n in steps of k is a whole number of rounds. */
  lemma WholeRounds(d: int, w: int, g: nat, l: nat, k: nat, n: nat, x: int, y: int) returns (m: int)
    requires Cycles(g, l, k, n, x, y) && d * k == w * n
    ensures d == m * l
  {
    m := x * w + y * d;
    BezoutMultiple(d, x, k, y, n, g);
    RoundMultiple(x, d, k, w, n);
    Reorder(d, x, k);
    Distribute(x * w, -(y * d), n);
    assert m * n == m * (g * l) == (m * l) * g;
    CancelFactor(d, m * l, g);
  }

  lemma Reorder(a: int, b: int, c: int)
    ensures a * (b * c) == b * (a * c)
  {
  }

  /** Within one round no position is visited twice. */
  lemma VisitInjective(i: nat, j: nat, j': nat, g: nat, l: nat, k: nat, n: nat, x: int, y: int)
    requires Cycles(g, l, k, n, x, y) && n > 0 && j < j' < l
    ensures Visit(i, j, k, n) != Visit(i, j', k, n)
  {
    if Visit(i, j, k, n) == Visit(i, j', k, n) {
      var w := DifferenceOfVisits(i, j, j', k, n);
      var m := WholeRounds(j' - j, w, g, l, k, n, x, y);
      if m <= 0 {
        MulMonotone(m, 0, l);
      } else {
        MulMonotone(1, m, l);
      }
    }
  }

  lemma CancelFactor(a: int, b: int, g: nat)
    requires g > 0 && a * g == b * g
    ensures a == b
  {
    if a < b {
      MulMonotone(a + 1, b, g);
    } else if b < a {
      MulMonotone(b + 1, a, g);
    }
  }

  /** Every position of the residue class is visited. */
  lemma VisitSurjective(i: nat, p: nat, g: nat, l: nat, k: nat, n: nat, x: int, y: int) returns (j: nat)
    requires Cycles(g, l, k, n, x, y) && i < g && p < n && p % g == i
    ensures j < l && n > 0 && Visit(i, j, k, n) == p
  {
    MultipleOfGcd(g, l, k, n, x, y);
    var m := p / g;
    // (1 - j) * k is congruent to m * g = (m * x) * k + (m * y) * n when j = 1 - m * x
    var j0 := 1 - m * x;
    j := j0 % l;
    var r := j0 / l;
    var q := r * (k / g) - m * y;
    RoundsToPosition(m, x, y, r, l, k / g, k, n, g);
    Distribute(1, j, k);
    assert k + i - j * k == p + q * n;
    ModShift(p, q, n);
    DivUnique(p, n, 0, p);
  }

  lemma RoundsToPosition(m: int, x: int, y: int, r: int, l: int, u: int, k: int, n: int, g: int)
    requires Combination(x, k, y, n) == g && l * k == u * n
    ensures (m * x + r * l) * k == m * g + (r * u - m * y) * n
  {
    hide Combination;
    calc {
      (m * x + r * l) * k;
      (m * x) * k + (r * l) * k;
      { BezoutMultiple(m, x, k, y, n, g); RoundMultiple(r, l, k, u, n); }
      m * g - (m * y) * n + (r * u) * n;
      { Distribute(r * u, m * y, n); }
      m * g + (r * u - m * y) * n;
    }
  }

  lemma BezoutMultiple(m: int, x: int, k: int, y: int, n: int, g: int)
    requires Combination(x, k, y, n) == g
    ensures (m * x) * k == m * g - (m * y) * n
  {
    assert m * (x * k + y * n) == m * (x * k) + m * (y * n);
  }

  lemma RoundMultiple(r: int, l: int, k: int, u: int, n: int)
    requires l * k == u * n
    ensures (r * l) * k == (r * u) * n
  {
    assert r * (l * k) == r * (u * n);
  }

  lemma VisitsDistinct(start: nat, i: nat, g: nat, l: nat, k: nat, n: nat, x: int, y: int)
    requires Cycles(g, l, k, n, x, y) && i < g && n > 0
    ensures forall t, u :: 0 <= t < l && 0 <= u < l && t != u ==> Visit(i, t, k, n) != Visit(i, u, k, n)
    ensures forall t :: 0 <= t <= l ==> Visit(i, t, k, n) < n && InCycle(start + Visit(i, t, k, n), start, i, n, g)
  {
    hide Cycles, Visit;
    forall t, u | 0 <= t < l && 0 <= u < l && t != u
      ensures Visit(i, t, k, n) != Visit(i, u, k, n)
    {
      if t < u {
        VisitInjective(i, t, u, g, l, k, n, x, y);
      } else {
        VisitInjective(i, u, t, g, l, k, n, x, y);
      }
    }
    forall t | 0 <= t <= l
      ensures Visit(i, t, k, n) < n && InCycle(start + Visit(i, t, k, n), start, i, n, g)
    {
      VisitClass(i, t, g, l, k, n, x, y);
      VisitInRange(i, t, k, n);
    }
  }

  lemma VisitInRange(i: nat, j: nat, k: nat, n: nat)
    requires n > 0
    ensures Visit(i, j, k, n) < n
  {
  }

  /** After j swaps of cycle i: the visited positions have their elements, the start holds the next one. */
  ghost predicate Staged<T>(a: seq<T>, o: seq<T>, start: nat, i: nat, j: nat, l: nat, k: nat, n: nat, g: nat)
    requires n > 0 && l > 0 && g > 0 && start + n <= |a| == |o| && j <= l
  {
    && (forall t :: 1 <= t <= j && t < l ==> a[start + Visit(i, t, k, n)] == o[start + Visit(i, t - 1, k, n)])
    && a[start + Visit(i, 0, k, n)] == o[start + Visit(i, if j < l then j else l - 1, k, n)]
    && (forall t :: j < t < l ==> a[start + Visit(i, t, k, n)] == o[start + Visit(i, t, k, n)])
    && (forall q :: 0 <= q < |a| && !InCycle(q, start, i, n, g) ==> a[q] == o[q])
  }

  /** Whether index q lies in the segment and in the residue class of cycle i. */
  predicate InCycle(q: nat, start: nat, i: nat, n: nat, g: nat)
    requires g > 0
  {
    start <= q < start + n && (q - start) % g == i
  }

  function Swapped<T>(a: seq<T>, x: nat, y: nat): seq<T>
    requires x < |a| && y < |a|
  {
    a[x := a[y]][y := a[x]]
  }

  lemma StageStep<T>(a: seq<T>, o: seq<T>, start: nat, i: nat, j: nat, l: nat, k: nat, n: nat, g: nat)
    requires n > 0 && l > 0 && g > 0 && start + n <= |a| == |o| && j < l
    requires Staged(a, o, start, i, j, l, k, n, g)
    requires forall t, u :: 0 <= t < l && 0 <= u < l && t != u ==> Visit(i, t, k, n) != Visit(i, u, k, n)
    requires forall t :: 0 <= t <= l ==> Visit(i, t, k, n) < n && InCycle(start + Visit(i, t, k, n), start, i, n, g)
    requires Visit(i, l, k, n) == Visit(i, 0, k, n)
    ensures Staged(Swapped(a, start + Visit(i, j + 1, k, n), start + Visit(i, 0, k, n)), o, start, i, j + 1, l, k, n, g)
  {
    hide Visit, InCycle;
    var pos, cstart := start + Visit(i, j + 1, k, n), start + Visit(i, 0, k, n);
    assert InCycle(pos, start, i, n, g) && InCycle(cstart, start, i, n, g);
  }

  lemma StageDone<T>(a: seq<T>, o: seq<T>, start: nat, i: nat, l: nat, k: nat, n: nat, g: nat, x: int, y: int, p: nat)
    requires Cycles(g, l, k, n, x, y) && n > 0 && l > 0 && i < g && k <= n && start + n <= |a| == |o|
    requires Staged(a, o, start, i, l, l, k, n, g)
    requires p < n && p % g == i
    ensures a[start + p] == o[start + Source(p, k, n)]
  {
    hide Visit, Cycles;
    var t := VisitSurjective(i, p, g, l, k, n, x, y);
    if t == 0 {
      VisitStep(i, l - 1, k, n);
      VisitPeriodic(i, 0, 1, g, l, k, n, x, y);
    } else {
      VisitStep(i, t - 1, k, n);
    }
  }

  /** The inner loop: swapping along cycle i brings every position of the cycle its element. */
  method RunCycle<T>(start: nat, k: nat, n: nat, i: nat, cyclelen: nat, nargv: array<T>, ghost g: nat,
          ghost x: int, ghost y: int)
    requires Cycles(g, cyclelen, k, n, x, y) && i < g && k + i < n && start + n <= nargv.Length
    modifies nargv
    ensures forall p :: 0 <= p < n && p % g == i ==> Source(p, k, n) < n
    ensures forall p :: 0 <= p < n && p % g == i ==> nargv[start + p] == old(nargv[start + Source(p, k, n)])
    ensures forall p :: 0 <= p < n && p % g != i ==> nargv[start + p] == old(nargv[start + p])
    ensures forall q :: 0 <= q < nargv.Length && !(start <= q < start + n) ==> nargv[q] == old(nargv[q])
  {
    hide Visit, Cycles, Staged, InCycle;
    ghost var l, o := cyclelen, nargv[..];
    MultipleOfGcd(g, l, k, n, x, y);
    CycleLengthPositive(g, l, k, n, x, y);
    VisitsDistinct(start, i, g, l, k, n, x, y);
    VisitStart(i, k, n);
    VisitPeriodic(i, 0, 1, g, l, k, n, x, y);
    StageStart(o, start, i, l, k, n, g);
    var nonoptEnd := start + k;
    var cstart := nonoptEnd + i;
    var pos := cstart;
    var j := 0;
    while j < cyclelen
      invariant 0 <= j <= l
      invariant pos == start + Visit(i, j, k, n)
      invariant Staged(nargv[..], o, start, i, j, l, k, n, g)
    {
      VisitStep(i, j, k, n);
      if pos >= nonoptEnd {
        pos := pos - k;
      } else {
        pos := pos + (n - k);
      }
      ghost var a := nargv[..];
      StageStep(a, o, start, i, j, l, k, n, g);
      var swap := nargv[pos];
      nargv[pos] := nargv[cstart];
      nargv[cstart] := swap;
      assert nargv[..] == Swapped(a, pos, cstart);
      j := j + 1;
    }
    forall p | 0 <= p < n && p % g == i
      ensures nargv[start + p] == o[start + Source(p, k, n)]
    {
      StageDone(nargv[..], o, start, i, l, k, n, g, x, y, p);
    }
    StageElsewhere(nargv[..], o, start, i, l, k, n, g);
  }

  lemma StageStart<T>(o: seq<T>, start: nat, i: nat, l: nat, k: nat, n: nat, g: nat)
    requires n > 0 && l > 0 && g > 0 && start + n <= |o|
    ensures Staged(o, o, start, i, 0, l, k, n, g)
  {
  }

  lemma StageElsewhere<T>(a: seq<T>, o: seq<T>, start: nat, i: nat, l: nat, k: nat, n: nat, g: nat)
    requires n > 0 && l > 0 && g > 0 && start + n <= |a| == |o| && Staged(a, o, start, i, l, l, k, n, g)
    ensures forall p :: 0 <= p < n && p % g != i ==> a[start + p] == o[start + p]
    ensures forall q :: 0 <= q < |a| && !(start <= q < start + n) ==> a[q] == o[q]
  {
  }

  lemma CycleLengthPositive(g: nat, l: nat, k: nat, n: nat, x: int, y: int)
    requires Cycles(g, l, k, n, x, y)
    ensures l > 0 && k <= n
  {
  }

  /** The gcd of the block lengths gives the number of cycles. */
  lemma CyclesOf(g: nat, k: nat, m: nat) returns (x: int, y: int)
    requires IsGcd(g, k, m) && m > 0
    ensures g > 0 && Cycles(g, (k + m) / g, k, k + m, x, y) && g <= m
  {
    hide Combination;
    var u, v :| Combination(u, k, v, m) == g;
    x, y := u - v, v;
    SumCombination(u, v, k, m);
    SumOfMultiples(k, m, g);
  }

  lemma SumCombination(u: int, v: int, k: int, m: int)
    ensures Combination(u - v, k, v, k + m) == Combination(u, k, v, m)
  {
    Distribute(u, v, k);
    assert v * (k + m) == v * k + v * m;
  }

  lemma SumOfMultiples(k: nat, m: nat, g: nat)
    requires g > 0 && k % g == 0 && m % g == 0 && m > 0
    ensures k + m == g * ((k + m) / g) && (k + m) / g > 0 && g <= m
  {
    var a, b := k / g, m / g;
    assert k == a * g && m == b * g;
    Distribute(a, -b, g);
    DivUnique(k + m, g, a + b, 0);
    if b <= 0 {
      MulMonotone(b, 0, g);
    } else {
      MulMonotone(1, b, g);
    }
  }

  lemma SourceClass(p: nat, g: nat, l: nat, k: nat, n: nat, x: int, y: int)
    requires Cycles(g, l, k, n, x, y) && p < n
    ensures Source(p, k, n) % g == p % g && Source(p, k, n) < n
  {
    var u := k / g;
    assert k == u * g;
    ModShift(p, u, g);
    if p + k >= n {
      assert p + k - n == p + (u - l) * g by {
        Distribute(u, l, g);
      }
      ModShift(p, u - l, g);
    }
  }

  /** Exchanges the blocks [nonoptStart, nonoptEnd) and [nonoptEnd, optEnd), keeping the order inside each. */
  method PermuteArgs<T>(nonoptStart: nat, nonoptEnd: nat, optEnd: nat, nargv: array<T>)
    requires nonoptStart <= nonoptEnd < optEnd <= nargv.Length
    modifies nargv
    ensures nargv[..] == old(nargv[..nonoptStart]) + old(nargv[nonoptEnd..optEnd])
                         + old(nargv[nonoptStart..nonoptEnd]) + old(nargv[optEnd..])
  {
    hide Cycles, Source, IsGcd, Rotated, Settled;
    var nnonopts := nonoptEnd - nonoptStart;
    var nopts := optEnd - nonoptEnd;
    var ncycle := Gcd(nnonopts, nopts);
    ghost var x, y := CyclesOf(ncycle, nnonopts, nopts);
    var cyclelen := (optEnd - nonoptStart) / ncycle;
    ghost var n := nnonopts + nopts;
    ghost var o := nargv[..];
    RunCycles(nonoptStart, nnonopts, optEnd - nonoptStart, ncycle, cyclelen, nargv, x, y);
    AllRotated(nargv[..], o, nonoptStart, nnonopts, n, ncycle);
  }

  /** The outer loop. */
  method RunCycles<T>(start: nat, k: nat, n: nat, ncycle: nat, cyclelen: nat, nargv: array<T>, ghost x: int,
          ghost y: int)
    requires ncycle > 0 && Cycles(ncycle, cyclelen, k, n, x, y) && k + ncycle <= n && start + n <= nargv.Length
    modifies nargv
    ensures Rotated(nargv[..], old(nargv[..]), start, k, n, ncycle, ncycle)
  {
    hide Cycles, Source, Rotated, Settled;
    ghost var o := nargv[..];
    NoneRotated(o, start, k, n, ncycle);
    var i := 0;
    while i < ncycle
      invariant 0 <= i <= ncycle
      invariant Rotated(nargv[..], o, start, k, n, ncycle, i)
    {
      ghost var a := nargv[..];
      RunCycle(start, k, n, i, cyclelen, nargv, ncycle, x, y);
      RotatedStep(nargv[..], a, o, start, k, n, ncycle, i, cyclelen, x, y);
      i := i + 1;
    }
  }

  /** Where position p has its element from once the first i cycles are done. */
  function Settled(p: nat, k: nat, n: nat, g: nat, i: nat): nat
    requires g > 0
  {
    if p % g < i then Source(p, k, n) else p
  }

  /** The first i cycles are done, the other positions hold what they held. */
  ghost predicate Rotated<T>(a: seq<T>, o: seq<T>, start: nat, k: nat, n: nat, g: nat, i: nat)
    requires g > 0 && start + n <= |o| && k <= n
  {
    && |a| == |o|
    && (forall p :: 0 <= p < n ==> Settled(p, k, n, g, i) < n && a[start + p] == o[start + Settled(p, k, n, g, i)])
    && (forall q :: 0 <= q < |o| && !(start <= q < start + n) ==> a[q] == o[q])
  }

  lemma NoneRotated<T>(o: seq<T>, start: nat, k: nat, n: nat, g: nat)
    requires g > 0 && start + n <= |o| && k <= n
    ensures Rotated(o, o, start, k, n, g, 0)
  {
  }

  lemma SettledStep(p: nat, g: nat, i: nat, l: nat, k: nat, n: nat, x: int, y: int)
    requires Cycles(g, l, k, n, x, y) && p < n
    ensures g > 0 && Settled(p, k, n, g, i + 1) == if p % g == i then Source(p, k, n) else Settled(p, k, n, g, i)
    ensures p % g == i ==> Source(p, k, n) < n && Settled(Source(p, k, n), k, n, g, i) == Source(p, k, n)
  {
    SourceClass(p, g, l, k, n, x, y);
  }

  lemma RotatedStep<T>(b: seq<T>, a: seq<T>, o: seq<T>, start: nat, k: nat, n: nat, g: nat, i: nat, l: nat,
          x: int, y: int)
    requires Cycles(g, l, k, n, x, y) && g > 0 && start + n <= |o| == |b| == |a| && k <= n
    requires Rotated(a, o, start, k, n, g, i)
    requires forall p :: 0 <= p < n && p % g == i ==> Source(p, k, n) < n && b[start + p] == a[start + Source(p, k, n)]
    requires forall p :: 0 <= p < n && p % g != i ==> b[start + p] == a[start + p]
    requires forall q :: 0 <= q < |b| && !(start <= q < start + n) ==> b[q] == a[q]
    ensures Rotated(b, o, start, k, n, g, i + 1)
  {
    hide Cycles, Source, Settled;
    var next := i + 1;
    forall p | 0 <= p < n
      ensures Settled(p, k, n, g, next) < n && b[start + p] == o[start + Settled(p, k, n, g, next)]
    {
      SettledStep(p, g, i, l, k, n, x, y);
    }
  }

  lemma AllRotated<T>(a: seq<T>, o: seq<T>, start: nat, k: nat, n: nat, g: nat)
    requires g > 0 && start + n <= |o| && k <= n && Rotated(a, o, start, k, n, g, g)
    ensures a == o[..start] + o[start + k..start + n] + o[start..start + k] + o[start + n..]
  {
    var r := o[..start] + o[start + k..start + n] + o[start..start + k] + o[start + n..];
    forall q | 0 <= q < |o|
      ensures a[q] == r[q]
    {
      if start <= q < start + n {
        var p := q - start;
        assert Settled(p, k, n, g, g) == Source(p, k, n);
        assert a[start + p] == o[start + Source(p, k, n)];
      }
    }
  }
}
