/** The GF(64) Latin squares behind the multi-hop ranking.

    A byte masked to its low six bits is written as those bits, lowest first, so that exclusive
    or, shifts and the complement are what they are on the machine word. */
module Mols {
  import opened Sequences

  const MAGIC_CONSTANT := 4097

  /** Bits of a machine word, lowest first. */
  type Bits = seq<bool>

  /** A row, a column or an entry of the squares: an element of GF(64). */
  type Elem = x: Bits | |x| == 6 witness [false, false, false, false, false, false]

  const ZERO: Elem := [false, false, false, false, false, false]

  /** The number the bits stand for. */
  function Value(x: Bits): (v: nat)
  {
    if x == [] then 0 else (if x[0] then 1 else 0) + 2 * Value(x[1..])
  }

  function Xor(x: Bits, y: Bits): (z: Bits)
    requires |x| == |y|
    ensures |z| == |x|
  {
    seq(|x|, k requires 0 <= k < |x| => x[k] != y[k])
  }

  function Not(x: Bits): (z: Bits)
    ensures |z| == |x|
  {
    seq(|x|, k requires 0 <= k < |x| => !x[k])
  }

  function TwoTo(n: nat): nat { if n == 0 then 1 else 2 * TwoTo(n - 1) }

  lemma {:induction false} ValueOfNot(x: Bits)
    ensures Value(x) + Value(Not(x)) == TwoTo(|x|) - 1
  {
    if x != [] {
      assert Not(x)[1..] == Not(x[1..]);
      ValueOfNot(x[1..]);
    }
  }

  lemma {:induction false} ValueBelow(x: Bits)
    ensures Value(x) < TwoTo(|x|)
  {
    if x != [] {
      ValueBelow(x[1..]);
    }
  }

  lemma {:induction false} ValueInjective(x: Bits, y: Bits)
    requires |x| == |y| && Value(x) == Value(y)
    ensures x == y
  {
    if x != [] {
      ValueInjective(x[1..], y[1..]);
      assert x == [x[0]] + x[1..] && y == [y[0]] + y[1..];
    }
  }

  // ---------- The field product ----------

  /** The low six bits of 0x43, the reduction polynomial x^6 + x + 1. */
  const REDUCTION: Elem := [true, true, false, false, false, false]

  function ShiftLeft(a: Elem): Elem { [false] + a[..5] }

  /** Multiplication by the generator x. */
  function Double(a: Elem): Elem { if a[5] then Xor(ShiftLeft(a), REDUCTION) else ShiftLeft(a) }

  function Select(bit: bool, a: Elem): Elem { if bit then a else ZERO }

  /** The sum of the copies x^k * a for the bits k of b. */
  function Product(a: Elem, b: Bits): Elem
    decreases |b|
  {
    if b == [] then ZERO else Xor(Select(b[0], a), Product(Double(a), b[1..]))
  }

  lemma {:induction false} ProductOfZero(a: Elem, b: Bits)
    requires true !in b
    ensures Product(a, b) == ZERO
    decreases |b|
  {
    if b != [] {
      ProductOfZero(Double(a), b[1..]);
    }
  }

  lemma XorAssociates(x: Elem, y: Elem, z: Elem)
    ensures Xor(Xor(x, y), z) == Xor(x, Xor(y, z))
    ensures Xor(x, ZERO) == x == Xor(ZERO, x)
  {
  }

  /** `gf64_mul` computes the field product of the low six bits of two bytes; the loop stops once no
      bit of the multiplier is left. */
  method Gf64Mul(x: Bits, y: Bits) returns (r: Elem)
    requires |x| == |y| == 8
    ensures r == Product(x[..6], y[..6])
  {
    var a: Elem, b: Bits := x[..6], y[..6];
    ghost var product := Product(a, b);
    r := ZERO;
    XorAssociates(product, ZERO, ZERO);
    while true in b
      invariant Xor(r, Product(a, b)) == product
      decreases |b|
    {
      XorAssociates(r, Select(b[0], a), Product(Double(a), b[1..]));
      if b[0] {
        r := Xor(r, a);
      }
      a := Double(a);
      b := b[1..];
    }
    ProductOfZero(a, b);
    XorAssociates(r, ZERO, ZERO);
  }

  // ---------- Scores ----------

  /** The score of column `j` in a row whose two squares start at `g1` and `g2`. */
  function RowScore(g1: Elem, g2: Elem, j: Elem): int { Value(Xor(g1, j)) * 64 + Value(Xor(g2, j)) + 1 }

  function Score(i: Elem, j: Elem, m1: Elem, m2: Elem): int { RowScore(Product(m1, i), Product(m2, i), j) }

  /** Scores against the column 63 - j, as `ColumnComplement` shows. */
  function CongestionScore(i: Elem, j: Elem, m1: Elem, m2: Elem): int
  {
    MAGIC_CONSTANT - Score(i, Not(j), m1, m2)
  }

  lemma ColumnComplement(j: Elem)
    ensures Value(Not(j)) == 63 - Value(j)
  {
    ValueOfNot(j);
    assert TwoTo(6) == 64;
  }

  lemma RowComplement(g1: Elem, g2: Elem, j: Elem)
    ensures RowScore(g1, g2, Not(j)) == MAGIC_CONSTANT - RowScore(g1, g2, j)
  {
    assert Xor(g1, Not(j)) == Not(Xor(g1, j));
    assert Xor(g2, Not(j)) == Not(Xor(g2, j));
    ColumnComplement(Xor(g1, j));
    ColumnComplement(Xor(g2, j));
  }

  /** The congestion square is the plain square: complementing the column complements both entries. */
  lemma CongestionCancels(i: Elem, j: Elem, m1: Elem, m2: Elem)
    ensures CongestionScore(i, j, m1, m2) == Score(i, j, m1, m2)
  {
    RowComplement(Product(m1, i), Product(m2, i), j);
  }

  /** In one row, two columns score alike exactly when they are the same column. */
  lemma ScoreCollision(i: Elem, j: Elem, k: Elem, m1: Elem, m2: Elem)
    ensures Score(i, j, m1, m2) == Score(i, k, m1, m2) <==> j == k
  {
    if Score(i, j, m1, m2) == Score(i, k, m1, m2) {
      var g := Product(m1, i);
      EntriesOfScore(g, Product(m2, i), j, g, Product(m2, i), k);
      assert Xor(g, Xor(g, j)) == j && Xor(g, Xor(g, k)) == k;
    }
  }

  // ---------- Orthogonality ----------

  lemma DoubleDistributes(a: Elem, b: Elem)
    ensures Double(Xor(a, b)) == Xor(Double(a), Double(b))
  {
    assert ShiftLeft(Xor(a, b)) == Xor(ShiftLeft(a), ShiftLeft(b));
  }

  lemma {:induction false} ProductDistributes(a: Elem, b: Elem, c: Bits)
    ensures Product(Xor(a, b), c) == Xor(Product(a, c), Product(b, c))
    decreases |c|
  {
    if c != [] {
      ProductDistributes(Double(a), Double(b), c[1..]);
      DoubleDistributes(a, b);
      SelectDistributes(c[0], a, b, Product(Double(a), c[1..]), Product(Double(b), c[1..]));
    }
  }

  lemma SelectDistributes(bit: bool, a: Elem, b: Elem, p: Elem, q: Elem)
    ensures Xor(Select(bit, Xor(a, b)), Xor(p, q)) == Xor(Xor(Select(bit, a), p), Xor(Select(bit, b), q))
  {
  }

  /** Bit `k` of a product, from the six shifted copies of the multiplicand. */
  lemma ProductBit(a: Elem, a1: Elem, a2: Elem, a3: Elem, a4: Elem, a5: Elem, b: Elem, k: nat)
    requires k < 6
    requires Double(a) == a1 && Double(a1) == a2 && Double(a2) == a3 && Double(a3) == a4 && Double(a4) == a5
    ensures Product(a, b)[k] == ((b[0] && a[k]) != ((b[1] && a1[k]) != ((b[2] && a2[k]) !=
                                ((b[3] && a3[k]) != ((b[4] && a4[k]) != (b[5] && a5[k]))))))
  {
    assert b[0..] == b;
    ProductStep(a, b, 0, k);
    ProductStep(a1, b, 1, k);
    ProductStep(a2, b, 2, k);
    HighBits(a3, a4, a5, b, k);
  }

  /** The part of the product that the three high bits of the multiplier contribute. */
  lemma HighBits(a3: Elem, a4: Elem, a5: Elem, b: Elem, k: nat)
    requires k < 6 && Double(a3) == a4 && Double(a4) == a5
    ensures Product(a3, b[3..])[k] == ((b[3] && a3[k]) != ((b[4] && a4[k]) != (b[5] && a5[k])))
  {
    ProductStep(a3, b, 3, k);
    ProductStep(a4, b, 4, k);
    ProductStep(a5, b, 5, k);
  }

  lemma ProductStep(a: Elem, b: Elem, n: nat, k: nat)
    requires k < 6 && n < 6
    ensures Product(a, b[n..])[k] == ((b[n] && a[k]) != Product(Double(a), b[n + 1..])[k])
  {
    Suffix(b, n, 1);
  }

  /** Multiplication by 6 or by 12, the sums of the two multiplier pairs, has no kernel. */
  lemma NoKernel(m: Elem, i: Elem)
    requires m == [false, true, true, false, false, false] || m == [false, false, true, true, false, false]
    requires Product(m, i) == ZERO
    ensures i == ZERO
  {
    var m1 := Double(m);
    var m2 := Double(m1);
    var m3 := Double(m2);
    var m4 := Double(m3);
    var m5 := Double(m4);
    ProductBit(m, m1, m2, m3, m4, m5, i, 0);
    ProductBit(m, m1, m2, m3, m4, m5, i, 1);
    ProductBit(m, m1, m2, m3, m4, m5, i, 2);
    ProductBit(m, m1, m2, m3, m4, m5, i, 3);
    ProductBit(m, m1, m2, m3, m4, m5, i, 4);
    ProductBit(m, m1, m2, m3, m4, m5, i, 5);
  }

  lemma {:induction false} ProductDistributesRight(a: Elem, b: Bits, c: Bits)
    requires |b| == |c|
    ensures Product(a, Xor(b, c)) == Xor(Product(a, b), Product(a, c))
    decreases |b|
  {
    if b != [] {
      assert Xor(b, c)[1..] == Xor(b[1..], c[1..]);
      ProductDistributesRight(Double(a), b[1..], c[1..]);
      var p, q := Product(Double(a), b[1..]), Product(Double(a), c[1..]);
      assert Xor(Select(b[0] != c[0], a), Xor(p, q)) == Xor(Xor(Select(b[0], a), p), Xor(Select(c[0], a), q));
    }
  }

  /** The multipliers of the two squares: 3 and 5, or 7 and 11 when round-trip times are uneven. */
  const BASE_M1: Elem := [true, true, false, false, false, false]
  const BASE_M2: Elem := [true, false, true, false, false, false]
  const VARIANT_M1: Elem := [true, true, true, false, false, false]
  const VARIANT_M2: Elem := [true, true, false, true, false, false]

  lemma XorSum(p: Elem, q: Elem, j: Elem)
    ensures Xor(Xor(p, j), Xor(q, j)) == Xor(p, q)
    ensures Xor(p, Xor(p, j)) == j
    ensures Xor(p, p) == ZERO
    ensures Xor(p, q) == ZERO ==> p == q
  {
    if Xor(p, q) == ZERO {
      forall k | 0 <= k < 6
        ensures p[k] == q[k]
      {
        assert !Xor(p, q)[k];
      }
    }
  }

  /** The two squares are orthogonal for both multiplier pairs: a score determines its cell. */
  lemma ScoreDeterminesCell(i: Elem, j: Elem, i': Elem, j': Elem, m1: Elem, m2: Elem)
    requires (m1 == BASE_M1 && m2 == BASE_M2) || (m1 == VARIANT_M1 && m2 == VARIANT_M2)
    requires Score(i, j, m1, m2) == Score(i', j', m1, m2)
    ensures i == i' && j == j'
  {
    EntriesOfScore(Product(m1, i), Product(m2, i), j, Product(m1, i'), Product(m2, i'), j');
    SumOfEntries(m1, m2, i, j);
    SumOfEntries(m1, m2, i', j');
    SameRow(Xor(m1, m2), i, i');
    XorSum(Product(m1, i), Product(m1, i), j);
    XorSum(Product(m1, i), Product(m1, i), j');
  }

  lemma SameRow(m: Elem, i: Elem, i': Elem)
    requires m == Xor(BASE_M1, BASE_M2) || m == Xor(VARIANT_M1, VARIANT_M2)
    requires Product(m, i) == Product(m, i')
    ensures i == i'
  {
    ProductDistributesRight(m, i, i');
    XorSum(Product(m, i), Product(m, i), i);
    NoKernel(m, Xor(i, i'));
    XorSum(i, i', i);
  }

  /** Adding the entries of a cell cancels the column. */
  lemma SumOfEntries(m1: Elem, m2: Elem, i: Elem, j: Elem)
    ensures Xor(Xor(Product(m1, i), j), Xor(Product(m2, i), j)) == Product(Xor(m1, m2), i)
  {
    ProductDistributes(m1, m2, i);
    XorSum(Product(m1, i), Product(m2, i), j);
  }

  lemma EntriesOfScore(g1: Elem, g2: Elem, j: Elem, h1: Elem, h2: Elem, k: Elem)
    requires RowScore(g1, g2, j) == RowScore(h1, h2, k)
    ensures Xor(g1, j) == Xor(h1, k) && Xor(g2, j) == Xor(h2, k)
  {
    ValueBelow(Xor(g2, j));
    ValueBelow(Xor(h2, k));
    assert TwoTo(6) == 64;
    ValueInjective(Xor(g1, j), Xor(h1, k));
    ValueInjective(Xor(g2, j), Xor(h2, k));
  }
}
