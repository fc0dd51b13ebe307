/** Greatest common divisors and affine maps modulo n. */
module Modular {

  /** Euclid's algorithm. */
  function Gcd(a: nat, b: nat): nat
    decreases b
  {
    if b == 0 then a else Gcd(b, Rem(a, b))
  }

  function Abs(x: int): nat { if x < 0 then -x else x }

  function Rem(a: nat, b: nat): (r: nat)
    requires b != 0
    ensures r < b
  {
    a % b
  }

  /** The remainder of C, which takes the sign of the dividend. */
  function CRem(a: int, b: int): (r: int)
    requires b != 0
    ensures Abs(r) == Rem(Abs(a), Abs(b)) && (a >= 0 ==> r >= 0) && (a < 0 ==> r <= 0)
  {
    var r: int := Rem(Abs(a), Abs(b));
    if a < 0 then -r else r
  }

  /** `gcd_val`. */
  method GcdVal(x: int, y: int) returns (g: nat)
    ensures g == Gcd(Abs(x), Abs(y))
  {
    var a, b := x, y;
    while b != 0
      invariant Gcd(Abs(a), Abs(b)) == Gcd(Abs(x), Abs(y))
      decreases Abs(b)
    {
      a, b := b, CRem(a, b);
    }
    g := Abs(a);
  }

  lemma DivMod(x: int, n: int)
    requires n > 0
    ensures x == x / n * n + x % n && 0 <= x % n < n
  {
  }

  lemma ModUnique(x: int, n: int, q: int, r: int)
    requires n > 0 && x == q * n + r && 0 <= r < n
    ensures x % n == r
  {
    DivMod(x, n);
    var d := x / n - q;
    assert d * n == r - x % n;
    MultipleBounds(d, n);
  }

  lemma MultipleBounds(d: int, n: int)
    requires n > 0
    ensures d >= 1 ==> d * n >= n
    ensures d <= -1 ==> d * n <= -n
    ensures d == 0 ==> d * n == 0
  {
  }

  lemma {:induction false} Bezout(a: nat, b: nat) returns (x: int, y: int)
    ensures a * x + b * y == Gcd(a, b)
    decreases b
  {
    if b == 0 {
      x, y := 1, 0;
    } else {
      var u, v := Bezout(b, Rem(a, b));
      DivMod(a, b);
      x, y := v, u - a / b * v;
      BackSubstitute(a, b, a / b, Rem(a, b), u, v);
    }
  }

  lemma BackSubstitute(a: int, b: int, q: int, r: int, u: int, v: int)
    requires a == q * b + r
    ensures a * v + b * (u - q * v) == b * u + r * v
  {
    assert b * (q * v) == q * b * v;
    assert (q * b + r) * v == q * b * v + r * v;
  }

  /** What Euclid computes divides both arguments. */
  lemma {:induction false} GcdDivides(a: nat, b: nat) returns (k: nat, m: nat)
    ensures a == k * Gcd(a, b) && b == m * Gcd(a, b)
    decreases b
  {
    if b == 0 {
      k, m := 1, 0;
    } else {
      var p, r := GcdDivides(b, Rem(a, b));
      DivMod(a, b);
      k, m := a / b * p + r, p;
      Multiples(a / b, p, r, Gcd(a, b));
    }
  }

  lemma Multiples(q: nat, p: nat, r: nat, g: nat)
    ensures (q * p + r) * g == q * (p * g) + r * g
  {
    assert q * p * g == q * (p * g);
    assert (q * p + r) * g == q * p * g + r * g;
  }

  /** Every common divisor divides it, so it is the greatest. */
  lemma GcdIsGreatest(a: nat, b: nat, d: nat, k: nat, m: nat) returns (q: int)
    requires a == k * d && b == m * d
    ensures Gcd(a, b) == q * d
  {
    var x, y := Bezout(a, b);
    q := k * x + m * y;
    assert k * d * x == k * x * d && m * d * y == m * y * d;
    assert (k * x + m * y) * d == k * x * d + m * y * d;
  }

  predicate Divides(d: int, x: int)
    requires d > 0
  {
    x % d == 0
  }

  /** No number above one divides both. */
  ghost predicate Coprime(a: nat, n: nat) { forall d :: d > 1 ==> !(Divides(d, a) && Divides(d, n)) }

  lemma GcdOneIsCoprime(a: nat, n: nat)
    requires Gcd(a, n) == 1
    ensures Coprime(a, n)
  {
    forall d | d > 1 && Divides(d, a) && Divides(d, n)
      ensures false
    {
      DivMod(a, d);
      DivMod(n, d);
      var k := GcdIsGreatest(a, n, d, a / d, n / d);
      ModUnique(1, d, k, 0);
      ModUnique(1, d, 0, 1);
    }
  }

  /** The neighbour below n is always coprime to n, so the search for a step cannot fail. */
  lemma NeighbourIsCoprime(n: nat)
    requires n >= 2
    ensures Gcd(n - 1, n) == 1
  {
    assert (n - 1) % n == n - 1;
    if n == 2 {
      assert Gcd(2, 1) == Gcd(1, 0);
    } else {
      ModUnique(n, n - 1, 1, 1);
      assert Gcd(n, n - 1) == Gcd(n - 1, 1);
      assert Gcd(n - 1, 1) == Gcd(1, 0);
    }
  }

  /** The first number from `c` on whose gcd with n is one; the search cannot pass n - 1. */
  function FirstCoprime(n: nat, c: int): (r: int)
    requires n >= 2 && c < n
    ensures c <= r < n && Gcd(Abs(r), n) == 1
    ensures forall k :: c <= k < r ==> Gcd(Abs(k), n) != 1
    decreases n - c
  {
    NeighbourIsCoprime(n);
    if Gcd(Abs(c), n) == 1 then c else FirstCoprime(n, c + 1)
  }

  function StepFor(n: nat, round: int): (r: int)
    requires n >= 2
    ensures 2 - n < r < n && Gcd(Abs(r), n) == 1
  {
    FirstCoprime(n, CRem(round, n - 1) + 1)
  }

  /** `pick_coprime_step`; the fallback after the loop is never reached. */
  method PickCoprimeStep(n: int, round: int) returns (step: int)
    ensures n >= 2 ==> step == StepFor(n, round)
    ensures n <= 1 ==> step == 1
  {
    if n <= 1 {
      return 1;
    }
    var candidate := CRem(round, n - 1) + 1;
    while candidate < n
      invariant candidate < n && FirstCoprime(n, candidate) == StepFor(n, round)
      decreases n - candidate
    {
      var g := GcdVal(candidate, n);
      if g == 1 {
        return candidate;
      }
      candidate := candidate + 1;
    }
    assert false;
    return 1;
  }

  /** The step is positive for every round from -1 modulo n - 1 up, in particular for every round
      that is not negative; then no number above one divides both it and n. */
  lemma StepIsPositive(n: nat, round: int)
    requires n >= 2
    ensures StepFor(n, round) >= 1 <==> CRem(round, n - 1) >= -1
    ensures StepFor(n, round) >= 1 ==> Coprime(StepFor(n, round), n)
  {
    StepSign(n, CRem(round, n - 1) + 1);
    if StepFor(n, round) >= 1 {
      GcdOneIsCoprime(StepFor(n, round), n);
    }
  }

  /** In a round that is not negative the step is the first number from round modulo n - 1, plus one, that is coprime
      to n. */
  lemma StepMeaning(n: nat, round: nat)
    requires n >= 2
    ensures Rem(round, n - 1) + 1 <= StepFor(n, round) < n && Coprime(StepFor(n, round), n)
    ensures forall c: nat :: Rem(round, n - 1) + 1 <= c < StepFor(n, round) ==> Gcd(c, n) != 1
  {
    GcdOneIsCoprime(StepFor(n, round), n);
    forall c: nat | Rem(round, n - 1) + 1 <= c < StepFor(n, round)
      ensures Gcd(c, n) != 1
    {
      assert Gcd(Abs(c), n) != 1;
    }
  }

  /** The search passes over zero but not over -1. */
  lemma StepSign(n: nat, start: int)
    requires n >= 2 && start < n
    ensures FirstCoprime(n, start) >= 1 <==> start >= 0
  {
    OneIsCoprime(n);
    ZeroIsNotCoprime(n);
    assert Gcd(Abs(-1), n) == 1 && Gcd(Abs(0), n) != 1;
  }

  lemma ZeroIsNotCoprime(n: nat)
    requires n >= 2
    ensures Gcd(0, n) == n
  {
    assert 0 % n == 0;
    assert Gcd(n, 0) == n;
  }

  lemma OneIsCoprime(n: nat)
    requires n >= 2
    ensures Gcd(1, n) == 1
  {
    assert 1 % n == 1;
    assert Gcd(n, 1) == Gcd(1, n % 1);
  }

  function Affine(a: int, b: int, n: int, i: int): int
    requires n > 0
  {
    (a * i + b) % n
  }

  /** An affine map with a coprime step never sends two positions to one slot. */
  lemma AffineInjective(a: int, b: int, n: nat, i: nat, j: nat)
    requires n > 0 && Gcd(Abs(a), n) == 1 && i < n && j < n
    requires Affine(a, b, n, i) == Affine(a, b, n, j)
    ensures i == j
  {
    var k := Difference(a * i + b, a * j + b, n);
    Distribute(a, i, j);
    var m := CoprimeCancels(a, n, i - j, k);
    MultipleBounds(m, n);
  }

  lemma Distribute(a: int, i: int, j: int)
    ensures a * (i - j) == a * i - a * j
  {
  }

  lemma SignedBezout(a: int, n: nat) returns (x: int, y: int)
    ensures a * x + n * y == Gcd(Abs(a), n)
  {
    x, y := Bezout(Abs(a), n);
    if a < 0 {
      assert Abs(a) * x == a * -x;
      x := -x;
    }
  }

  /** If n divides a * d and a is coprime to n, then n divides d. */
  lemma CoprimeCancels(a: int, n: nat, d: int, k: int) returns (m: int)
    requires Gcd(Abs(a), n) == 1 && a * d == k * n
    ensures d == m * n
  {
    var x, y := SignedBezout(a, n);
    Combine(a, n, x, y, d, k);
    m := x * k + y * d;
  }

  lemma Difference(u: int, v: int, n: int) returns (k: int)
    requires n > 0 && u % n == v % n
    ensures u - v == k * n
  {
    DivMod(u, n);
    DivMod(v, n);
    k := u / n - v / n;
    assert k * n == u / n * n - v / n * n;
  }

  lemma Combine(a: int, n: int, x: int, y: int, d: int, k: int)
    requires a * x + n * y == 1 && a * d == k * n
    ensures d == (x * k + y * d) * n
  {
    assert d == (a * x + n * y) * d;
    assert (a * x + n * y) * d == x * (a * d) + n * y * d;
    assert x * (k * n) == x * k * n;
    assert n * y * d == y * d * n;
  }

  /** An affine map with a coprime step reaches every slot. */
  lemma AffineSurjective(a: int, b: int, n: nat, s: nat) returns (i: nat)
    requires n > 0 && Gcd(Abs(a), n) == 1 && s < n
    ensures i < n && Affine(a, b, n, i) == s
  {
    var x, y := SignedBezout(a, n);
    var t := x * (s - b);
    DivMod(t, n);
    i := t % n;
    var q := Inverted(a, n, x, y, s - b, t / n, i);
    ModUnique(a * i + b, n, q, s);
  }

  /** Multiplying the inverse of a by d, reduced by p multiples of n, gives d again modulo n. */
  lemma Inverted(a: int, n: int, x: int, y: int, d: int, p: int, i: int) returns (q: int)
    requires a * x + n * y == 1 && x * d == p * n + i
    ensures a * i == q * n + d
  {
    q := -(y * d) - a * p;
    assert (a * x + n * y) * d == a * (x * d) + y * d * n;
    assert a * (p * n + i) == a * p * n + a * i;
    assert (-(y * d) - a * p) * n == -(y * d * n) - a * p * n;
  }

  /** Any n consecutive rounds meet every remainder modulo n. */
  lemma EveryRemainder(start: nat, n: nat, s: nat) returns (k: nat)
    requires s < n
    ensures k < n && (start + k) % n == s
  {
    DivMod(start, n);
    var r := start % n;
    if s >= r {
      k := s - r;
      ModUnique(start + k, n, start / n, s);
    } else {
      k := s - r + n;
      assert (start / n + 1) * n == start / n * n + n;
      ModUnique(start + k, n, start / n + 1, s);
    }
  }
}
