/**
 Rational approximation by continued fractions (`frac` in xlsx.js), over exact real numbers but with the
 conversion to 32 bits that the source takes for the floor.
 */
module Fractions {
  import opened Options

  /**
   `Ratio(q, p, Q)` is the source's `[q, p, Q]`; in `NotFinite` its `q` is infinite and its `p` not a number.
   `Unfinished` means that the loop has not ended after the given number of rounds.
   */
  datatype Outcome = Ratio(whole: int, numerator: int, denominator: int) | NotFinite | Unfinished

  const WORD := 2147483648.0
  const TINY := 0.0000000001
  const HUGE := 10000000000.0

  /** The conversion of a positive number to a signed integer of 32 bits. */
  function ToInt32(b: real): (a: int)
    ensures a as real <= b || b < 0.0
    ensures 0.0 <= b < WORD ==> a == b.Floor
  {
    (b.Floor + 0x8000_0000) % 0x1_0000_0000 - 0x8000_0000
  }

  /** The only positive number that divides both is 1. */
  ghost predicate Coprime(p: int, q: int) {
    forall d: int, a: int, b: int :: d > 0 && Divides(d, a, p) && Divides(d, b, q) ==> d == 1
  }

  ghost predicate Divides(d: int, a: int, p: int) {
    d * a == p
  }

  function Abs(x: real): (r: real)
    ensures r >= 0.0 && (r == x || r == -x)
  {
    if x < 0.0 then -x else x
  }

  /** Neighbouring convergents have determinant 1 or -1. */
  ghost predicate Neighbours(p: int, q: int, p': int, q': int) {
    p * q' - p' * q == 1 || p * q' - p' * q == -1
  }

  lemma {:induction false} UnitDivisor(d: int, a: int)
    requires d > 0 && (d * a == 1 || d * a == -1)
    ensures d == 1
  {
    MultipleIsFar(d, a);
  }

  lemma {:induction false} MultipleIsFar(d: int, a: int)
    requires d > 0
    ensures d * a >= d || d * a <= -d || d * a == 0
  {
    if a >= 1 { assert d * a >= d * 1; } else if a <= -1 { assert d * a <= d * -1; }
  }

  lemma {:induction false} NeighboursCoprime(p: int, q: int, p': int, q': int)
    requires Neighbours(p, q, p', q')
    ensures Coprime(p, q) && Coprime(p', q')
  {
    forall d: int, a: int, b: int | d > 0 && Divides(d, a, p) && Divides(d, b, q) ensures d == 1 {
      assert p * q' - p' * q == d * (a * q' - p' * b);
      UnitDivisor(d, a * q' - p' * b);
    }
    forall d: int, a: int, b: int | d > 0 && Divides(d, a, p') && Divides(d, b, q') ensures d == 1 {
      assert p * q' - p' * q == d * (p * b - a * q);
      UnitDivisor(d, p * b - a * q);
    }
  }

  /** Adding multiples of the denominator to the numerator, or changing its sign, keeps a fraction reduced. */
  lemma {:induction false} CoprimeSigned(p: int, q: int, sign: int)
    requires Coprime(p, q) && (sign == 1 || sign == -1)
    ensures Coprime(sign * p, q)
  {
    forall d: int, a: int, b: int | d > 0 && Divides(d, a, sign * p) && Divides(d, b, q) ensures d == 1 {
      assert d * (sign * a) == sign * (d * a) == p;
      assert Divides(d, sign * a, p);
    }
  }

  lemma {:induction false} CoprimeShifted(p: int, q: int, k: int, r: int)
    requires Coprime(p, q) && r == p - k * q
    ensures Coprime(r, q)
  {
    forall d: int, a: int, b: int | d > 0 && Divides(d, a, r) && Divides(d, b, q) ensures d == 1 {
      assert d * (a + k * b) == d * a + k * (d * b) == p;
      assert Divides(d, a + k * b, p);
    }
  }

  // ----- the expansion

  function Mixed(b: real, m: int, n: int): real {
    b * m as real + n as real
  }

  /** The number is `(B * P1 + P2) / (B * Q1 + Q2)`, where `B` is the complete quotient still to be expanded. */
  ghost predicate Expands(x: real, b: real, p1: int, p2: int, q1: int, q2: int) {
    x * Mixed(b, q1, q2) == Mixed(b, p1, p2)
  }

  lemma {:induction false} ExpandStep(x: real, b: real, a: int, b': real, p1: int, p2: int, q1: int, q2: int)
    requires Expands(x, b, p1, p2, q1, q2) && (b - a as real) * b' == 1.0
    ensures Expands(x, b', a * p1 + p2, p1, a * q1 + q2, q1)
  {
    var f := b - a as real;
    var p, q := (a * p1 + p2) as real, (a * q1 + q2) as real;
    ScaleUp(f, b', q, q1 as real);
    ScaleUp(f, b', p, p1 as real);
    Linear(b, a, q1, q2);
    Linear(b, a, p1, p2);
    calc {
      x * (b' * q + q1 as real);
      x * (b' * (q + f * q1 as real));
      b' * (x * (q + f * q1 as real));
      b' * (p + f * p1 as real);
      b' * p + p1 as real;
    }
  }

  lemma {:induction false} ScaleUp(f: real, b: real, q: real, q1: real)
    requires f * b == 1.0
    ensures b * q + q1 == b * (q + f * q1)
  {
    assert b * (f * q1) == (f * b) * q1;
  }

  lemma {:induction false} Linear(b: real, a: int, m: int, n: int)
    ensures (a * m + n) as real + (b - a as real) * m as real == b * m as real + n as real
  {
    assert (a * m + n) as real == a as real * m as real + n as real;
  }

  lemma {:induction false} NeighbourStep(a: int, p1: int, p2: int, q1: int, q2: int)
    requires Neighbours(p1, q1, p2, q2)
    ensures Neighbours(a * p1 + p2, a * q1 + q2, p1, q1)
  {
    assert (a * p1 + p2) * q1 - p1 * (a * q1 + q2) == -(p1 * q2 - p2 * q1);
  }

  /** How far the fraction is from the number, times its denominator. */
  function Residue(x: real, p: int, q: int): (r: real)
    ensures r >= 0.0
  {
    Abs(x * q as real - p as real)
  }

  /** The fraction `p/q` is nearer than `1 / (q * max)` to the number. */
  ghost predicate Near(x: real, p: int, q: int, max: int) {
    Times(Residue(x, p, q), max as real) < 1.0
  }

  // Products are named where the arguments about them are to stay linear.

  function Times(a: real, b: real): real {
    a * b
  }

  ghost predicate Product(w: real, r: real, b: real) {
    w * r == b
  }

  ghost predicate Outgrows(w: real, b: real, max: int) {
    w > 0.0 && w > b * max as real
  }

  /** The convergent before the last, once the last one is too large. */
  lemma {:induction false} ResidueOfPrevious(x: real, b: real, p1: int, p2: int, q1: int, q2: int, max: int)
    requires Expands(x, b, p1, p2, q1, q2) && Neighbours(p1, q1, p2, q2) && b > 0.0 && q1 > max >= 1 && q2 >= 0
    ensures Near(x, p2, q2, max)
  {
    hide *;
    MixedExceeds(b, q1, q2, max);
    Determinant(x, b, p1, p2, q1, q2);
    FractionBound(Mixed(b, q1, q2), x, p2, q2, b, max);
  }

  /** The last convergent that fits, when its successor or the rest of the expansion is large. */
  lemma {:induction false} ResidueOfLast(x: real, b: real, p1: int, p2: int, q1: int, q2: int, max: int)
    requires Expands(x, b, p1, p2, q1, q2) && Neighbours(p1, q1, p2, q2) && b >= 0.0
    requires max >= 1 && Outgrows(Mixed(b, q1, q2), 1.0, max)
    ensures Near(x, p1, q1, max)
  {
    hide *;
    OutgrowsIsPositive(Mixed(b, q1, q2), 1.0, max);
    Determinant(x, b, p1, p2, q1, q2);
    FractionBound(Mixed(b, q1, q2), x, p1, q1, 1.0, max);
  }

  lemma {:induction false} OutgrowsIsPositive(w: real, b: real, max: int)
    requires Outgrows(w, b, max)
    ensures w > 0.0
  {
  }

  lemma {:induction false} MixedExceeds(b: real, m: int, n: int, max: int)
    requires b > 0.0 && 0 <= max < m && n >= 0
    ensures Outgrows(Mixed(b, m, n), b, max) && Mixed(b, m, n) > 0.0
  {
    ScaleLess(b, max as real, m as real);
  }

  lemma {:induction false} ScaleLess(b: real, m: real, n: real)
    requires b > 0.0 && 0.0 <= m < n
    ensures 0.0 <= b * m < b * n
  {
  }

  lemma {:induction false} FractionBound(w: real, x: real, p: int, q: int, b: real, max: int)
    requires Product(w, Residue(x, p, q), b) && Outgrows(w, b, max)
    ensures Near(x, p, q, max)
  {
    Regroup(w, Residue(x, p, q), b, max as real);
    BelowOne(w, Times(Residue(x, p, q), max as real), b * max as real);
  }

  lemma {:induction false} Regroup(w: real, r: real, b: real, m: real)
    requires w * r == b
    ensures w * (r * m) == b * m
  {
  }

  lemma {:induction false} BelowOne(w: real, y: real, v: real)
    requires w > 0.0 && w * y == v && v < w
    ensures y < 1.0
  {
  }

  /** Both convergents' residues, times the denominator of the expansion. */
  lemma {:induction false} Determinant(x: real, b: real, p1: int, p2: int, q1: int, q2: int)
    requires Expands(x, b, p1, p2, q1, q2) && Neighbours(p1, q1, p2, q2)
    requires Mixed(b, q1, q2) > 0.0
    ensures Product(Mixed(b, q1, q2), Residue(x, p1, q1), 1.0)
    ensures b >= 0.0 ==> Product(Mixed(b, q1, q2), Residue(x, p2, q2), b)
  {
    RealNeighbours(p1, q1, p2, q2);
    RealDeterminant(x, b, p1 as real, p2 as real, q1 as real, q2 as real, Mixed(b, q1, q2), Mixed(b, p1, p2));
  }

  lemma {:induction false} RealNeighbours(p: int, q: int, p': int, q': int)
    requires Neighbours(p, q, p', q')
    ensures var det := p as real * q' as real - p' as real * q as real; det == 1.0 || det == -1.0
  {
    assert (p * q') as real == p as real * q' as real;
    assert (p' * q) as real == p' as real * q as real;
  }

  lemma {:induction false} RealDeterminant(x: real, b: real, p1: real, p2: real, q1: real, q2: real, w: real, n: real)
    requires w == b * q1 + q2 && n == b * p1 + p2 && x * w == n && w > 0.0
    requires var det := p1 * q2 - p2 * q1; det == 1.0 || det == -1.0
    ensures w * Abs(x * q1 - p1) == 1.0
    ensures b >= 0.0 ==> w * Abs(x * q2 - p2) == b
  {
    var det := p1 * q2 - p2 * q1;
    Distribute(w, x, n, p1, q1);
    Distribute(w, x, n, p2, q2);
    Cross(b, p1, p2, q1, q2);
    AbsScale(w, x * q1 - p1, -det);
    AbsScale(w, x * q2 - p2, b * det);
  }

  lemma {:induction false} AbsScale(w: real, r: real, v: real)
    requires w > 0.0 && w * r == v
    ensures w * Abs(r) == Abs(v)
  {
  }

  lemma {:induction false} Distribute(w: real, x: real, n: real, p: real, q: real)
    requires x * w == n
    ensures w * (x * q - p) == n * q - w * p
  {
    assert w * (x * q) == (x * w) * q;
  }

  lemma {:induction false} Cross(b: real, p1: real, p2: real, q1: real, q2: real)
    ensures var w, n, det := b * q1 + q2, b * p1 + p2, p1 * q2 - p2 * q1;
      n * q1 - w * p1 == -det && n * q2 - w * p2 == b * det
  {
  }

  /** How far the newest convergent is from the number, times the denominator of the expansion. */
  lemma {:induction false} ResidueOfNewest(x: real, b: real, a: int, p1: int, p2: int, q1: int, q2: int)
    requires Expands(x, b, p1, p2, q1, q2) && Neighbours(p1, q1, p2, q2)
    requires b >= a as real && Mixed(b, q1, q2) > 0.0
    ensures Product(Mixed(b, q1, q2), Residue(x, a * p1 + p2, a * q1 + q2), b - a as real)
  {
    RealNeighbours(p1, q1, p2, q2);
    RealNewest(x, b, a as real, p1 as real, p2 as real, q1 as real, q2 as real);
    LiftedNewest(a, p1, p2);
    LiftedNewest(a, q1, q2);
  }

  lemma {:induction false} LiftedNewest(a: int, m: int, n: int)
    ensures (a * m + n) as real == a as real * m as real + n as real
  {
  }

  lemma {:induction false} RealNewest(x: real, b: real, a: real, p1: real, p2: real, q1: real, q2: real)
    requires x * (b * q1 + q2) == b * p1 + p2 && b * q1 + q2 > 0.0 && b >= a
    requires var det := p1 * q2 - p2 * q1; det == 1.0 || det == -1.0
    ensures (b * q1 + q2) * Abs(x * (a * q1 + q2) - (a * p1 + p2)) == b - a
  {
    var w, f, det := b * q1 + q2, b - a, p1 * q2 - p2 * q1;
    var r := x * (a * q1 + q2) - (a * p1 + p2);
    Distribute(w, x, b * p1 + p2, a * p1 + p2, a * q1 + q2);
    Skew(b, a, p1, p2, q1, q2);
    AbsScale(w, r, f * det);
    assert Abs(f * det) == f;
  }

  /** The expansion ends within `TINY` of an integer quotient: the newest convergent is that close. */
  lemma {:induction false} ResidueOfExact(x: real, b: real, a: int, p1: int, p2: int, q1: int, q2: int)
    requires Expands(x, b, p1, p2, q1, q2) && Neighbours(p1, q1, p2, q2)
    requires 0.0 <= b - a as real < TINY && q1 >= 0 && a * q1 + q2 >= 1
    ensures Residue(x, a * p1 + p2, a * q1 + q2) < TINY
  {
    Linear(b, a, q1, q2);
    assert Mixed(b, q1, q2) >= 1.0 by { assert (b - a as real) * q1 as real >= 0.0; }
    ResidueOfNewest(x, b, a, p1, p2, q1, q2);
    SmallQuotient(Mixed(b, q1, q2), Residue(x, a * p1 + p2, a * q1 + q2), b - a as real);
  }

  lemma {:induction false} Skew(b: real, a: real, p1: real, p2: real, q1: real, q2: real)
    ensures (b * p1 + p2) * (a * q1 + q2) - (b * q1 + q2) * (a * p1 + p2) == (b - a) * (p1 * q2 - p2 * q1)
  {
  }

  lemma {:induction false} SmallQuotient(w: real, r: real, f: real)
    requires w >= 1.0 && r >= 0.0 && w * r == f && f < TINY
    ensures r < TINY
  {
    assert w * r >= r;
  }

  // ---------------------------------------------------------------------------------------------
  // Best approximations

  /** No fraction with a denominator up to `max` comes nearer, each distance taken times its denominator. */
  ghost predicate Best(x: real, p: int, q: int, max: int) {
    forall p': int, q': int :: 1 <= q' <= max ==> Residue(x, p, q) <= Residue(x, p', q')
  }

  /** How far `p/q` is from the number, in terms of the two newest convergents. */
  lemma {:induction false} ResidueOfAny(x: real, b: real, p1: int, p2: int, q1: int, q2: int, p: int, q: int)
    requires Expands(x, b, p1, p2, q1, q2) && Mixed(b, q1, q2) > 0.0
    ensures Product(Mixed(b, q1, q2), Residue(x, p, q), Abs(Mixed(b, p * q1 - q * p1, p * q2 - q * p2)))
  {
    var w, n := Mixed(b, q1, q2), Mixed(b, p1, p2);
    var k, m := p * q1 - q * p1, p * q2 - q * p2;
    Distribute(w, x, n, p as real, q as real);
    assert k as real == p as real * q1 as real - q as real * p1 as real;
    assert m as real == p as real * q2 as real - q as real * p2 as real;
    Turned(b, p1 as real, p2 as real, q1 as real, q2 as real, p as real, q as real);
    AbsScale(w, x * q as real - p as real, -Mixed(b, k, m));
  }

  lemma {:induction false} Turned(b: real, p1: real, p2: real, q1: real, q2: real, p: real, q: real)
    ensures (b * p1 + p2) * q - (b * q1 + q2) * p == -(b * (p * q1 - q * p1) + (p * q2 - q * p2))
  {
  }

  /** The last convergent is best below the denominator that would follow it. */
  lemma {:induction false} LastIsBest(x: real, b: real, a: int, p1: int, p2: int, q1: int, q2: int, max: int)
    requires Expands(x, b, p1, p2, q1, q2) && Neighbours(p1, q1, p2, q2)
    requires a as real <= b && 1 <= q1 && 0 <= q2 && 0.0 <= b && max < a * q1 + q2 && Mixed(b, q1, q2) > 0.0
    ensures Best(x, p1, q1, max)
  {
    hide Expands, Mixed, Residue, Product;
    Determinant(x, b, p1, p2, q1, q2);
    forall p: int, q: int | 1 <= q <= max ensures Residue(x, p1, q1) <= Residue(x, p, q) {
      var k, m := p * q1 - q * p1, p * q2 - q * p2;
      ResidueOfAny(x, b, p1, p2, q1, q2, p, q);
      CrossDifference(p1, p2, q1, q2, p, q);
      AtLeastOne(b, a, q1, q2, q, k, m);
      Compare(Mixed(b, q1, q2), Residue(x, p1, q1), 1.0, Residue(x, p, q), Abs(Mixed(b, k, m)));
    }
  }

  /** So is the one before it below the denominator of the last. */
  lemma {:induction false} PreviousIsBest(x: real, b: real, p1: int, p2: int, q1: int, q2: int, max: int)
    requires Expands(x, b, p1, p2, q1, q2) && Neighbours(p1, q1, p2, q2)
    requires 0.0 <= b && 1 <= q2 && max < q1 && Mixed(b, q1, q2) > 0.0
    ensures Best(x, p2, q2, max)
  {
    hide Expands, Mixed, Residue, Product;
    Determinant(x, b, p1, p2, q1, q2);
    forall p: int, q: int | 1 <= q <= max ensures Residue(x, p2, q2) <= Residue(x, p, q) {
      var k, m := p * q1 - q * p1, p * q2 - q * p2;
      ResidueOfAny(x, b, p1, p2, q1, q2, p, q);
      CrossDifference(p1, p2, q1, q2, p, q);
      AtLeastRest(b, q1, q2, q, k, m);
      Compare(Mixed(b, q1, q2), Residue(x, p2, q2), b, Residue(x, p, q), Abs(Mixed(b, k, m)));
    }
  }

  lemma {:induction false} Compare(w: real, r: real, u: real, s: real, v: real)
    requires w > 0.0 && Product(w, r, u) && Product(w, s, v) && u <= v
    ensures r <= s
  {
    Ascends(s, r, w);
  }

  lemma {:induction false} CrossDifference(p1: int, p2: int, q1: int, q2: int, p: int, q: int)
    requires Neighbours(p1, q1, p2, q2)
    ensures var k, m := p * q1 - q * p1, p * q2 - q * p2; m * q1 - k * q2 == q || m * q1 - k * q2 == -q
  {
    var k, m := p * q1 - q * p1, p * q2 - q * p2;
    assert m * q1 - k * q2 == q * (p1 * q2 - p2 * q1);
  }

  /** Its integer part does not vanish, and has the sign of what it leaves. */
  lemma {:induction false} AtLeastOne(b: real, a: int, q1: int, q2: int, q: int, k: int, m: int)
    requires a as real <= b && 1 <= q1 && 0 <= q2 && 1 <= q < a * q1 + q2
    requires m * q1 - k * q2 == q || m * q1 - k * q2 == -q
    ensures Abs(Mixed(b, k, m)) >= 1.0
  {
    hide Mixed;
    MixedOpposite(b, k, m);
    if k >= 1 {
      MoreThanOne(b, a, q1, q2, q, k, m);
    } else if k <= -1 {
      Opposites(m, q1, k, q2);
      MoreThanOne(b, a, q1, q2, q, -k, -m);
    } else {
      Opposites(m, q1, k, q2);
      SignOf(m, q1);
      SignOf(-m, q1);
      MixedZero(b, m);
    }
  }

  lemma {:induction false} Opposites(m: int, q1: int, k: int, q2: int)
    ensures -m * q1 - -k * q2 == -(m * q1 - k * q2) && (-m) * q1 == -(m * q1) && (k == 0 ==> k * q2 == 0)
  {
  }

  lemma {:induction false} MixedOpposite(b: real, k: int, m: int)
    ensures Mixed(b, k, m) == -Mixed(b, -k, -m)
  {
  }

  lemma {:induction false} MixedZero(b: real, m: int)
    ensures Mixed(b, 0, m) == m as real
  {
  }

  lemma {:induction false} MoreThanOne(b: real, a: int, q1: int, q2: int, q: int, k: int, m: int)
    requires a as real <= b && 1 <= q1 && 1 <= q < a * q1 + q2 && k >= 1
    requires m * q1 - k * q2 == q || m * q1 - k * q2 == -q
    ensures Mixed(b, k, m) >= 1.0
  {
    var t := a * k + m;
    Linear(b, a, k, m);
    NonNegativeProduct(b - a as real, k as real);
    assert t * q1 == k * (a * q1 + q2) + (m * q1 - k * q2);
    Bigger(k, a * q1 + q2);
    SignOf(t, q1);
    assert Mixed(b, k, m) == t as real + (b - a as real) * k as real;
  }

  lemma {:induction false} Bigger(k: int, n: int)
    requires k >= 1 && n >= 0
    ensures k * n >= n
  {
    assert (k - 1) * n >= 0;
  }

  lemma {:induction false} SignOf(t: int, n: int)
    requires n >= 1
    ensures t * n > 0 ==> t >= 1
  {
    if t <= 0 {
      assert t * n <= 0;
    }
  }

  /** The two numbers have the same sign, and the first does not vanish. */
  lemma {:induction false} AtLeastRest(b: real, q1: int, q2: int, q: int, k: int, m: int)
    requires 0.0 <= b && 1 <= q2 && 1 <= q < q1
    requires m * q1 - k * q2 == q || m * q1 - k * q2 == -q
    ensures Abs(Mixed(b, k, m)) >= b
  {
    if m >= 1 {
      Bigger(m, q1);
      SignOf(k, q2);
      BothPositive(b, k, m);
    } else if m <= -1 {
      Bigger(-m, q1);
      assert m * q1 == -(-m * q1);
      SignOf(-k, q2);
      BothPositive(b, -k, -m);
      assert Mixed(b, k, m) == -Mixed(b, -k, -m);
    } else {
      assert k * q2 == q || k * q2 == -q;
      SignOf(k, q2);
      SignOf(-k, q2);
      if k >= 1 { BothPositive(b, k, 0); } else { BothPositive(b, -k, 0); assert Mixed(b, k, 0) == -Mixed(b, -k, 0); }
    }
  }

  lemma {:induction false} BothPositive(b: real, k: int, m: int)
    requires 0.0 <= b && k >= 1 && m >= 0
    ensures Mixed(b, k, m) >= b
  {
    NonNegativeProduct(b, (k - 1) as real);
    assert b * k as real == b * (k - 1) as real + b;
  }

  /** Where the expansion stands: before, after one, or after more of its convergents. */
  ghost predicate Standing(x: real, max: int, b: real, p1: int, p2: int, q1: int, q2: int) {
    && Expands(x, b, p1, p2, q1, q2) && Neighbours(p1, q1, p2, q2)
    && b >= 0.0 && p1 >= 0 && p2 >= 0
    && ((q1 == 0 && q2 == 1) || (q1 == 1 && q2 == 0 && b > 1.0) || (1 <= q2 <= q1 && q2 < max && b > 1.0))
  }

  lemma {:induction false} StandingStep(x: real, max: int, b: real, a: int, b': real, p1: int, p2: int, q1: int,
      q2: int)
    requires Standing(x, max, b, p1, p2, q1, q2) && q1 < max && a == b.Floor
    requires b - a as real > 0.0 && b' == 1.0 / (b - a as real)
    ensures Standing(x, max, b', a * p1 + p2, p1, a * q1 + q2, q1)
    ensures q1 > 0 && q2 > 0 ==> a * q1 + q2 > q1
  {
    hide Expands, Neighbours;
    assert (b - a as real) * b' == 1.0;
    Reciprocal(b - a as real, b');
    ExpandStep(x, b, a, b', p1, p2, q1, q2);
    NeighbourStep(a, p1, p2, q1, q2);
    Grows(a, p1, p2);
    Grows(a, q1, q2);
  }

  lemma {:induction false} Reciprocal(f: real, b: real)
    requires 0.0 < f < 1.0 && f * b == 1.0
    ensures b > 1.0
  {
  }

  lemma {:induction false} Grows(a: int, m: int, n: int)
    requires a >= 0 && m >= 0 && n >= 0
    ensures a * m + n >= n && (a >= 1 ==> a * m + n >= m + n)
  {
  }

  // ---------------------------------------------------------------------------------------------
  // The loop

  /** The variables of the loop: the rest of the expansion, and the newest convergents. */
  datatype State = State(b: real, p: int, q: int, p1: int, q1: int, p2: int, q2: int)

  function Start(x: real): State {
    State(x, 0, 0, 1, 0, 0, 1)
  }

  /** What the conversion leaves of the rest. */
  function Remainder(b: real): real {
    b - ToInt32(b) as real
  }

  /** One round: the next convergent. */
  function Newest(s: State): State {
    s.(p := ToInt32(s.b) * s.p1 + s.p2, q := ToInt32(s.b) * s.q1 + s.q2)
  }

  /** A round that is not the last also moves on to the rest of the expansion. */
  function Next(s: State): State
    requires Remainder(s.b) >= TINY
  {
    var t := Newest(s);
    State(1.0 / Remainder(s.b), t.p, t.q, t.p, t.q, s.p1, s.q1)
  }

  /** The state in which the loop ends, if it does within some number of rounds. */
  function Loop(s: State, max: int, rounds: nat): Option<State>
    decreases rounds
  {
    if s.q1 >= max then Some(s)
    else if rounds == 0 then None
    else if Remainder(s.b) < TINY then Some(Newest(s))
    else Loop(Next(s), max, rounds - 1)
  }

  lemma {:induction false} LoopMore(s: State, max: int, rounds: nat, more: nat)
    requires Loop(s, max, rounds).Some? && rounds <= more
    ensures Loop(s, max, more) == Loop(s, max, rounds)
    decreases rounds
  {
    if s.q1 < max && Remainder(s.b) >= TINY {
      LoopMore(Next(s), max, rounds - 1, more - 1);
    }
  }

  /** The newest convergent, or an earlier one if its denominator is too large. */
  function Chosen(s: State, max: int): (int, int) {
    if s.q <= max then (s.p, s.q) else if s.q1 <= max then (s.p1, s.q1) else (s.p2, s.q2)
  }

  /** `Math.floor(n / d)` */
  function FloorDiv(n: int, d: int): (r: int)
    requires d != 0
    ensures d > 0 ==> r * d <= n < r * d + d
  {
    if d > 0 then n / d else (-n) / (-d)
  }

  function Sign(x: real): int {
    if x < 0.0 then -1 else 1
  }

  /** The fraction as the caller gets it. */
  function Written(p: int, q: int, mixed: bool): Outcome {
    if !mixed then Ratio(0, p, q)
    else if q == 0 then NotFinite
    else Ratio(FloorDiv(p, q), p - FloorDiv(p, q) * q, q)
  }

  /** What `frac` gives within some number of rounds. */
  function FracOf(x: real, max: int, mixed: bool, rounds: nat): Outcome {
    var end := Loop(Start(Abs(x)), max, rounds);
    if end.None? then Unfinished
    else
      var chosen := Chosen(end.value, max);
      Written(Sign(x) * chosen.0, chosen.1, mixed)
  }

  /** The loop of `frac`. */
  method Convergents(x: real, max: int, rounds: nat) returns (end: Option<State>)
    ensures end == Loop(Start(x), max, rounds)
  {
    var B := x;
    var p2, p1, p := 0, 1, 0;
    var q2, q1, q := 1, 0, 0;
    var left := rounds;
    while q1 < max
      invariant 0 <= left
      invariant Loop(Start(x), max, rounds) == Loop(State(B, p, q, p1, q1, p2, q2), max, left)
      decreases left
    {
      if left == 0 { return None; }
      var A := ToInt32(B);
      p := A * p1 + p2;
      q := A * q1 + q2;
      if B - A as real < TINY { return Some(State(B, p, q, p1, q1, p2, q2)); }
      B := 1.0 / (B - A as real);
      p2, p1 := p1, p;
      q2, q1 := q1, q;
      left := left - 1;
    }
    return Some(State(B, p, q, p1, q1, p2, q2));
  }

  /** `frac`, given up after some number of rounds. */
  method Frac(x: real, max: int, mixed: bool, rounds: nat) returns (r: Outcome)
    requires max >= 1
    ensures r == FracOf(x, max, mixed, rounds)
    ensures max + 4 <= rounds ==>
      && (r.Unfinished? <==> Endless(FateOf(x, max), max))
      && (Good(x, r, max, mixed) <==> Meant(FateOf(x, max), max))
      && (Exceeds(FateOf(x, max), max) ==> Strict(x, r, max))
  {
    var sgn := if x < 0.0 then -1 else 1;
    assert x * sgn as real == Abs(x);
    var end := Convergents(x * sgn as real, max, rounds);
    if max + 4 <= rounds {
      FracIsGood(x, max, mixed, rounds);
    }
    if end.None? { return Unfinished; }
    var s := end.value;
    var p, q := s.p, s.q;
    if q > max { q, p := s.q1, s.p1; }
    if q > max { q, p := s.q2, s.p2; }
    if !mixed { return Ratio(0, sgn * p, q); }
    if q == 0 { return NotFinite; }
    var whole := FloorDiv(sgn * p, q);
    r := Ratio(whole, sgn * p - whole * q, q);
  }

  // ---------------------------------------------------------------------------------------------
  // How the expansion of a number comes to its end

  /** The denominator reaches the maximum, or the rest vanishes, or a quotient does not fit 31 bits. */
  datatype Fate = Reached | Vanishes(q: int) | Wraps(b: real, q1: int, q2: int)

  /** The rests and denominators that occur. */
  predicate Occurs(b: real, q1: int, q2: int) {
    b >= 0.0 && ((q1 == 0 && q2 == 1) || (q1 == 1 && q2 == 0 && b > 1.0) || (1 <= q2 <= q1 && b > 1.0))
  }

  /** The exact continued fraction from the rest `b` on, with two denominators before it. */
  function FateFrom(b: real, q1: int, q2: int, max: int): Fate
    requires Occurs(b, q1, q2)
    decreases if q1 == 0 then 2 else if q2 == 0 then 1 else 0, max - q1
  {
    if q1 >= max then Reached
    else if b >= WORD then Wraps(b, q1, q2)
    else
      var q := b.Floor * q1 + q2;
      if b - b.Floor as real < TINY then Vanishes(q)
      else
        OccursNext(b, q1, q2);
        FateFrom(1.0 / (b - b.Floor as real), q, q1, max)
  }

  function FateOf(x: real, max: int): Fate {
    FateFrom(Abs(x), 0, 1, max)
  }

  lemma {:induction false} OccursNext(b: real, q1: int, q2: int)
    requires Occurs(b, q1, q2) && b - b.Floor as real >= TINY
    ensures Occurs(1.0 / (b - b.Floor as real), b.Floor * q1 + q2, q1)
    ensures q1 > 0 && q2 > 0 ==> b.Floor * q1 + q2 > q1
  {
    Reciprocal(b - b.Floor as real, 1.0 / (b - b.Floor as real));
    Grows(b.Floor, q1, q2);
  }

  /** With the quotient wrapped the loop goes round for ever. */
  predicate Endless(fate: Fate, max: int) {
    fate.Wraps? && ToInt32(fate.b) * fate.q1 + fate.q2 < max && Remainder(fate.b) <= HUGE
  }

  /**
   The result is what it is meant to be: no quotient wraps; or the convergent before it is chosen, and there is one;
   or the wrapped quotient makes the denominator `max` and the denominators are so large that it does not matter.
   */
  predicate Meant(fate: Fate, max: int) {
    fate.Wraps? ==>
      var q, rem := ToInt32(fate.b) * fate.q1 + fate.q2, Remainder(fate.b);
      if q < max then fate.q1 > 0 && rem > HUGE
      else if q > max then true
      else Drowns(rem, Mixed(fate.b, fate.q1, fate.q2), fate.q1, max)
  }

  predicate Drowns(rem: real, w: real, q1: int, max: int) {
    Times(rem, (max - q1) as real) < max as real || rem < Times(TINY, w)
  }

  /** The expansion goes beyond denominators up to `max`. */
  predicate Exceeds(fate: Fate, max: int) {
    match fate
    case Reached => true
    case Vanishes(q) => q > max
    case Wraps(b, q1, q2) => ToInt32(b) * q1 + q2 > max
  }

  /** A reduced fraction with a denominator in `1..max`, near the number; in its mixed form the rest is proper. */
  ghost predicate Good(x: real, r: Outcome, max: int, mixed: bool) {
    && r.Ratio? && 1 <= r.denominator <= max && Coprime(r.numerator, r.denominator)
    && (if mixed then 0 <= r.numerator < r.denominator else r.whole == 0)
    && NearOrTiny(x, r.whole * r.denominator + r.numerator, r.denominator, max)
  }

  ghost predicate NearOrTiny(x: real, p: int, q: int, max: int) {
    Near(x, p, q, max) || Residue(x, p, q) < TINY
  }

  /** The fraction is nearer than `1 / (q * max)`, and no fraction with a denominator up to `max` is nearer. */
  ghost predicate Sharp(x: real, p: int, q: int, max: int) {
    Near(x, p, q, max) && (max >= 2 ==> Best(x, p, q, max))
  }

  ghost predicate Strict(x: real, r: Outcome, max: int) {
    r.Ratio? && Sharp(x, r.whole * r.denominator + r.numerator, r.denominator, max)
  }

  // ---------------------------------------------------------------------------------------------
  // The convergents that are chosen

  ghost predicate Stands(x: real, max: int, s: State) {
    Standing(x, max, s.b, s.p1, s.p2, s.q1, s.q2) && s.q == s.q1 && (s.q1 > 0 ==> s.p == s.p1)
  }

  ghost predicate GoodPair(x: real, p: int, q: int, max: int) {
    1 <= q <= max && Coprime(p, q) && NearOrTiny(x, p, q, max)
  }

  ghost predicate GoodEnd(x: real, s: State, max: int) {
    GoodPair(x, Chosen(s, max).0, Chosen(s, max).1, max)
  }

  ghost predicate SharpEnd(x: real, s: State, max: int) {
    Sharp(x, Chosen(s, max).0, Chosen(s, max).1, max)
  }

  /** The loop ends as the exact expansion decides it. */
  ghost predicate Concludes(x: real, max: int, end: Option<State>, fate: Fate) {
    && (Endless(fate, max) <==> end.None?)
    && (end.Some? ==> (GoodEnd(x, end.value, max) <==> Meant(fate, max)))
    && (Exceeds(fate, max) ==> end.Some? && SharpEnd(x, end.value, max))
  }

  /** The last convergent is best if the next denominator is above the maximum. */
  lemma {:induction false} StateIsBest(x: real, max: int, s: State, a: int)
    requires Stands(x, max, s) && s.q1 >= 1 && a as real <= s.b && max < a * s.q1 + s.q2
    ensures Best(x, s.p1, s.q1, max)
  {
    hide Expands, Neighbours, Mixed, Best;
    MixedAtLeast(s.b, s.q1, s.q2);
    LastIsBest(x, s.b, a, s.p1, s.p2, s.q1, s.q2, max);
  }

  /** The denominator has reached the maximum. */
  lemma {:induction false} EndReached(x: real, max: int, s: State)
    requires Stands(x, max, s) && s.q1 >= max >= 1
    ensures GoodEnd(x, s, max) && SharpEnd(x, s, max)
  {
    hide Expands, Coprime, Near, Outgrows, Mixed, Residue, Best, Neighbours;
    NeighboursCoprime(s.p1, s.q1, s.p2, s.q2);
    if s.q1 > max {
      ResidueOfPrevious(x, s.b, s.p1, s.p2, s.q1, s.q2, max);
      MixedAtLeast(s.b, s.q1, s.q2);
      PreviousIsBest(x, s.b, s.p1, s.p2, s.q1, s.q2, max);
    } else {
      LastIsLarge(s.b, s.q1, s.q2, max);
      ResidueOfLast(x, s.b, s.p1, s.p2, s.q1, s.q2, max);
      if max >= 2 {
        StateIsBest(x, max, s, 1);
      }
    }
  }

  /** The rest has vanished, or nearly so. */
  lemma {:induction false} EndVanishes(x: real, max: int, s: State)
    requires Stands(x, max, s) && s.q1 < max && s.b < WORD && Remainder(s.b) < TINY && max >= 1
    ensures GoodEnd(x, Newest(s), max) && (Newest(s).q > max ==> SharpEnd(x, Newest(s), max))
  {
    hide Expands, Coprime, Near, Outgrows, Mixed, Residue, Best;
    var a := s.b.Floor;
    NeighbourStep(a, s.p1, s.p2, s.q1, s.q2);
    NeighboursCoprime(a * s.p1 + s.p2, a * s.q1 + s.q2, s.p1, s.q1);
    Grows(a, s.q1, s.q2);
    if a * s.q1 + s.q2 > max {
      NextIsLarge(s.b, a, s.q1, s.q2, max);
      ResidueOfLast(x, s.b, s.p1, s.p2, s.q1, s.q2, max);
      StateIsBest(x, max, s, a);
    } else {
      ResidueOfExact(x, s.b, a, s.p1, s.p2, s.q1, s.q2);
    }
  }

  lemma {:induction false} LastIsLarge(b: real, m: int, n: int, max: int)
    requires b > 1.0 && m == max >= 1 && n >= 0
    ensures Outgrows(Mixed(b, m, n), 1.0, max)
  {
    ScaleLess(m as real, 1.0, b);
    MixedIs(b, m, n);
    hide Mixed;
  }

  lemma {:induction false} NextIsLarge(b: real, a: int, m: int, n: int, max: int)
    requires b >= a as real && m >= 0 && a * m + n > max >= 1
    ensures Outgrows(Mixed(b, m, n), 1.0, max)
  {
    NonNegativeProduct(b - a as real, m as real);
    assert Mixed(b, m, n) >= (a * m + n) as real by {
      Linear(b, a, m, n);
    }
    hide Mixed;
    assert (a * m + n) as real > max as real >= 1.0;
    assert 1.0 * max as real == max as real;
  }

  lemma {:induction false} NonNegativeProduct(a: real, b: real)
    requires 0.0 <= a && 0.0 <= b
    ensures 0.0 <= a * b
  {
  }


  lemma {:induction false} Initially(x: real)
    ensures Expands(x, x, 1, 0, 0, 1) && Neighbours(1, 0, 0, 1)
  {
  }


  /** How many rounds are left before the denominator reaches the maximum. */
  function Ahead(s: State, max: int): int {
    if s.q1 == 0 then max + 2 else if s.q2 == 0 then max + 1 else if s.q1 >= max then 0 else max - s.q1
  }

  /** The loop is in its last round, or at a quotient that wraps. */
  predicate Arrived(s: State, max: int) {
    s.q1 >= max || s.b >= WORD || Remainder(s.b) < TINY
  }

  /** The fate of what is still to be expanded. */
  ghost function FateAt(x: real, s: State, max: int): Fate
    requires Stands(x, max, s)
  {
    FateFrom(s.b, s.q1, s.q2, max)
  }

  lemma {:induction false} Onward(x: real, max: int, s: State)
    requires Stands(x, max, s) && max >= 1 && !Arrived(s, max)
    ensures Remainder(s.b) >= TINY && Stands(x, max, Next(s)) && Ahead(Next(s), max) < Ahead(s, max)
    ensures FateAt(x, s, max) == FateAt(x, Next(s), max)
  {
    hide Expands, Neighbours;
    StandingStep(x, max, s.b, s.b.Floor, 1.0 / (s.b - s.b.Floor as real), s.p1, s.p2, s.q1, s.q2);
    OccursNext(s.b, s.q1, s.q2);
  }

  /** The loop follows the exact expansion to its last round, or to a quotient that wraps. */
  lemma {:induction false} Arrives(x: real, max: int, s: State, rounds: nat) returns (w: State, left: nat)
    requires Stands(x, max, s) && max >= 1 && Ahead(s, max) <= rounds
    ensures Stands(x, max, w) && Arrived(w, max) && FateAt(x, s, max) == FateAt(x, w, max)
    ensures Loop(s, max, rounds) == Loop(w, max, left) && rounds - Ahead(s, max) <= left
    decreases rounds
  {
    hide Standing, Stands, FateAt, FateFrom, Remainder, Newest, Next;
    w, left := s, rounds;
    if !Arrived(s, max) {
      Onward(x, max, s);
      w, left := Arrives(x, max, Next(s), rounds - 1);
    }
  }

  // ---------------------------------------------------------------------------------------------
  // A quotient that wraps

  /** What the conversion takes away is a multiple of 2^32. */
  lemma {:induction false} WrapsFar(b: real)
    requires b >= WORD
    ensures Remainder(b) >= 4294967296.0 && ToInt32(Remainder(b)) == 0
    ensures Remainder(b) > HUGE <==> b >= 10737418240.0
  {
    var n := b.Floor;
    var k := (n + 0x8000_0000) / 0x1_0000_0000;
    assert ToInt32(b) == n - 0x1_0000_0000 * k && k >= 1;
    assert Remainder(b) == (0x1_0000_0000 * k) as real + (b - n as real);
    assert Remainder(b).Floor == 0x1_0000_0000 * k;
  }

  /** The reciprocal of the rest comes back as the rest: two states that follow each other for ever. */
  predicate Spins(s: State, max: int) {
    && TINY <= s.b && TINY <= 1.0 / s.b && ToInt32(s.b) == 0 && ToInt32(1.0 / s.b) == 0
    && s.q1 < max && s.q2 < max
  }

  lemma {:induction false} SpinsForever(s: State, max: int, rounds: nat)
    requires Spins(s, max)
    ensures Loop(s, max, rounds) == None
    decreases rounds
  {
    if rounds > 0 {
      assert 1.0 / (1.0 / s.b) == s.b;
      SpinsForever(Next(s), max, rounds - 1);
    }
  }

  /** The round with the wrapped quotient and the round after it. */
  lemma {:induction false} WrappedRounds(max: int, s: State, rounds: nat)
    requires s.b >= WORD && s.q1 < max && rounds >= 2
    ensures Remainder(s.b) >= TINY
    ensures Newest(s).q >= max ==> Loop(s, max, rounds) == Some(Next(s))
    ensures Newest(s).q < max && Remainder(s.b) > HUGE ==> Loop(s, max, rounds) == Some(Newest(Next(s)))
    ensures Newest(s).q < max && Remainder(s.b) > HUGE ==> Chosen(Newest(Next(s)), max) == (s.p1, s.q1)
    ensures Newest(s).q < max && Remainder(s.b) <= HUGE ==> Loop(s, max, rounds) == None
  {
    WrapsFar(s.b);
    var y, t := Remainder(s.b), Newest(s);
    var z := 1.0 / y;
    SmallReciprocal(y);
    if t.q < max {
      assert Remainder(z) == z;
      if y <= HUGE {
        assert 1.0 / z == y;
        SpinsForever(Next(Next(s)), max, rounds - 2);
      }
    }
  }

  lemma {:induction false} SmallReciprocal(y: real)
    requires y >= 4294967296.0
    ensures 0.0 < 1.0 / y < 1.0 && (1.0 / y < TINY <==> y > HUGE) && (1.0 / y).Floor == 0
  {
    var z := 1.0 / y;
    assert z * y == 1.0;
    Descends(z, y, TINY, HUGE);
    Descends(z, y, 1.0, 1.0);
    Ascends(0.0, z, y);
    assert z < 1.0;
  }

  lemma {:induction false} Descends(a: real, b: real, c: real, d: real)
    requires a * b == 1.0 && c * d == 1.0 && b > 0.0 && c > 0.0
    ensures a < c <==> d < b
  {
    Ascends(a, c, b);
    Ascends(d, b, c);
  }

  lemma {:induction false} Ascends(a: real, b: real, c: real)
    requires c > 0.0
    ensures a < b <==> a * c < b * c
  {
    if a < b { assert 0.0 < (b - a) * c; } else { assert 0.0 <= (a - b) * c; }
  }

  /** What a wrapped quotient leads to. */
  lemma {:induction false} EndWrapped(x: real, max: int, s: State, rounds: nat)
    requires Stands(x, max, s) && s.q1 < max && s.b >= WORD && rounds >= 2 && max >= 1
    ensures var fate := Wraps(s.b, s.q1, s.q2); var end := Loop(s, max, rounds);
      && (Endless(fate, max) <==> end.None?)
      && (end.Some? ==> (GoodEnd(x, end.value, max) <==> Meant(fate, max)))
      && (Exceeds(fate, max) ==> end.Some? && SharpEnd(x, end.value, max))
  {
    var y, t := Remainder(s.b), Newest(s);
    WrapsFar(s.b);
    WrappedRounds(max, s, rounds);
    hide Loop;
    if t.q > max {
      ConvergentBeforeWrap(x, max, s);
    } else if t.q == max {
      WrappedConvergent(x, max, s);
    } else if y > HUGE && s.q1 > 0 {
      ConvergentBeforeWrap(x, max, s);
    }
  }

  /** A convergent followed by a quotient that wraps is as near as can be asked for. */
  lemma {:induction false} ConvergentBeforeWrap(x: real, max: int, s: State)
    requires Stands(x, max, s) && s.q1 < max && s.b >= WORD && max >= 1
    requires Newest(s).q > max || (s.q1 > 0 && Remainder(s.b) > HUGE)
    ensures GoodPair(x, s.p1, s.q1, max) && (Newest(s).q > max ==> Sharp(x, s.p1, s.q1, max))
  {
    WrapsFar(s.b);
    hide Expands, Coprime, Near, Outgrows, Mixed, Residue, Remainder, Best;
    NeighboursCoprime(s.p1, s.q1, s.p2, s.q2);
    if Newest(s).q > max {
      NextIsLarge(s.b, ToInt32(s.b), s.q1, s.q2, max);
      ResidueOfLast(x, s.b, s.p1, s.p2, s.q1, s.q2, max);
      StateIsBest(x, max, s, ToInt32(s.b));
    } else {
      MixedAtLeast(s.b, s.q1, s.q2);
      Determinant(x, s.b, s.p1, s.p2, s.q1, s.q2);
      TinyQuotient(Mixed(s.b, s.q1, s.q2), Residue(x, s.p1, s.q1));
    }
  }

  lemma {:induction false} MixedAtLeast(b: real, m: int, n: int)
    requires b >= 0.0 && m >= 1 && n >= 0
    ensures Mixed(b, m, n) >= b
  {
    assert b * (m - 1) as real >= 0.0;
  }

  lemma {:induction false} TinyQuotient(w: real, r: real)
    requires w > HUGE && Product(w, r, 1.0) && r >= 0.0
    ensures r < TINY
  {
    Ascends(r, TINY, w);
  }

  /** The convergent with a wrapped quotient, when its denominator happens to be `max`. */
  lemma {:induction false} WrappedConvergent(x: real, max: int, s: State)
    requires Stands(x, max, s) && s.q1 < max && s.b >= WORD && Newest(s).q == max >= 1
    ensures GoodPair(x, Newest(s).p, max, max) <==> Meant(Wraps(s.b, s.q1, s.q2), max)
  {
    var y, w := Remainder(s.b), Mixed(s.b, s.q1, s.q2);
    NewestResidue(x, max, s);
    hide Coprime, Mixed, Residue, Remainder, Standing, ToInt32, Product, Drowns, NearOrTiny;
    DrownsIff(x, Newest(s).p, w, y, s.q1, max);
  }

  lemma {:induction false} NewestResidue(x: real, max: int, s: State)
    requires Stands(x, max, s) && s.q1 < max && s.b >= WORD && Newest(s).q == max >= 1
    ensures Product(Mixed(s.b, s.q1, s.q2), Residue(x, Newest(s).p, max), Remainder(s.b))
    ensures Mixed(s.b, s.q1, s.q2) == Remainder(s.b) * s.q1 as real + max as real
    ensures Mixed(s.b, s.q1, s.q2) > 0.0 && Coprime(Newest(s).p, max)
  {
    var a := ToInt32(s.b);
    WrapsFar(s.b);
    hide Coprime, Mixed, Residue, ToInt32, Product, Expands, Neighbours;
    Linear(s.b, a, s.q1, s.q2);
    MixedIs(s.b, s.q1, s.q2);
    NonNegativeProduct(Remainder(s.b), s.q1 as real);
    NeighbourStep(a, s.p1, s.p2, s.q1, s.q2);
    NeighboursCoprime(Newest(s).p, Newest(s).q, s.p1, s.q1);
    ResidueOfNewest(x, s.b, a, s.p1, s.p2, s.q1, s.q2);
  }

  lemma {:induction false} MixedIs(b: real, m: int, n: int)
    ensures Mixed(b, m, n) == b * m as real + n as real
  {
  }

  lemma {:induction false} DrownsIff(x: real, p: int, w: real, y: real, q1: int, max: int)
    requires Product(w, Residue(x, p, max), y) && w == y * q1 as real + max as real && w > 0.0
    ensures NearOrTiny(x, p, max, max) <==> Drowns(y, w, q1, max)
  {
    NearIff(w, Residue(x, p, max), y, q1, max);
    TinyIff(w, Residue(x, p, max), y);
    hide Residue, Product, Times;
  }

  lemma {:induction false} NearIff(w: real, r: real, y: real, q1: int, max: int)
    requires Product(w, r, y) && w == y * q1 as real + max as real && w > 0.0
    ensures Times(r, max as real) < 1.0 <==> Times(y, (max - q1) as real) < max as real
  {
    var v := r * max as real;
    Regroup(w, r, y, max as real);
    Ascends(v, 1.0, w);
    Apart(y, max as real, q1 as real);
  }

  lemma {:induction false} Apart(y: real, m: real, n: real)
    ensures y * (m - n) == y * m - y * n
  {
  }

  lemma {:induction false} TinyIff(w: real, r: real, y: real)
    requires Product(w, r, y) && w > 0.0
    ensures r < TINY <==> y < Times(TINY, w)
  {
    Ascends(r, TINY, w);
  }

  // ---------------------------------------------------------------------------------------------
  // The result

  /** The sign and the mixed form change nothing of how good a fraction is. */
  lemma {:induction false} WrittenGood(x: real, p: int, q: int, max: int, mixed: bool)
    ensures Good(x, Written(Sign(x) * p, q, mixed), max, mixed) <==> GoodPair(Abs(x), p, q, max)
    ensures Sharp(Abs(x), p, q, max) && q >= 1 ==> Strict(x, Written(Sign(x) * p, q, mixed), max)
  {
    var n := Sign(x) * p;
    SignedNear(x, p, q, max);
    SignedBest(x, p, q, max);
    SignedCoprime(p, q, Sign(x));
    assert Sharp(Abs(x), p, q, max) <==> Sharp(x, n, q, max);
    hide Coprime, Residue, Sign, FloorDiv, NearOrTiny, Near, Best, Sharp;
    if q >= 1 {
      var whole := if mixed then FloorDiv(n, q) else 0;
      RatioGood(x, n, q, whole, n - whole * q, max, mixed);
    }
  }

  lemma {:induction false} RatioGood(x: real, n: int, q: int, whole: int, rest: int, max: int, mixed: bool)
    requires q >= 1 && rest == n - whole * q && if mixed then 0 <= rest < q else whole == 0
    ensures Good(x, Ratio(whole, rest, q), max, mixed) <==> q <= max && Coprime(n, q) && NearOrTiny(x, n, q, max)
    ensures Strict(x, Ratio(whole, rest, q), max) <==> Sharp(x, n, q, max)
  {
    hide Coprime, NearOrTiny, Sharp;
    MixedCoprime(n, q, whole);
    assert whole * q + rest == n;
  }

  lemma {:induction false} SignedNear(x: real, p: int, q: int, max: int)
    ensures NearOrTiny(x, Sign(x) * p, q, max) <==> NearOrTiny(Abs(x), p, q, max)
    ensures Near(x, Sign(x) * p, q, max) <==> Near(Abs(x), p, q, max)
  {
    SignedResidue(x, p, q);
    hide Residue, Sign, Abs, Times;
  }

  lemma {:induction false} SignedBest(x: real, p: int, q: int, max: int)
    ensures Best(x, Sign(x) * p, q, max) <==> Best(Abs(x), p, q, max)
  {
    var y, sign := Abs(x), Sign(x);
    SignedResidue(x, p, q);
    if Best(y, p, q, max) {
      forall p': int, q': int | 1 <= q' <= max ensures Residue(x, sign * p, q) <= Residue(x, p', q') {
        SignedResidue(x, sign * p', q');
        assert sign * (sign * p') == p';
        assert Residue(y, p, q) <= Residue(y, sign * p', q');
      }
    }
    if Best(x, sign * p, q, max) {
      forall p': int, q': int | 1 <= q' <= max ensures Residue(y, p, q) <= Residue(y, p', q') {
        SignedResidue(x, p', q');
        assert Residue(x, sign * p, q) <= Residue(x, sign * p', q');
      }
    }
  }

  lemma {:induction false} SignedResidue(x: real, p: int, q: int)
    ensures Residue(x, Sign(x) * p, q) == Residue(Abs(x), p, q)
  {
  }

  lemma {:induction false} SignedCoprime(p: int, q: int, sign: int)
    requires sign == 1 || sign == -1
    ensures Coprime(sign * p, q) <==> Coprime(p, q)
  {
    if Coprime(p, q) {
      CoprimeSigned(p, q, sign);
    }
    if Coprime(sign * p, q) {
      CoprimeSigned(sign * p, q, sign);
      assert sign * (sign * p) == p;
    }
  }

  lemma {:induction false} MixedCoprime(n: int, q: int, k: int)
    ensures Coprime(n - k * q, q) <==> Coprime(n, q)
  {
    if Coprime(n, q) {
      CoprimeShifted(n, q, k, n - k * q);
    }
    if Coprime(n - k * q, q) {
      CoprimeShifted(n - k * q, q, -k, n);
    }
  }

  lemma {:induction false} LastRounds(x: real, max: int, s: State, rounds: nat)
    requires Stands(x, max, s) && Arrived(s, max) && max >= 1 && rounds >= 2
    ensures Concludes(x, max, Loop(s, max, rounds), FateAt(x, s, max))
  {
    hide GoodEnd, SharpEnd, Newest, Next, Expands, Neighbours;
    if s.q1 >= max {
      EndReached(x, max, s);
    } else if s.b >= WORD {
      EndWrapped(x, max, s, rounds);
    } else {
      EndVanishes(x, max, s);
      Vanishing(x, max, s, rounds);
    }
  }

  lemma {:induction false} Vanishing(x: real, max: int, s: State, rounds: nat)
    requires Stands(x, max, s) && s.q1 < max && s.b < WORD && Remainder(s.b) < TINY && rounds >= 1
    ensures Loop(s, max, rounds) == Some(Newest(s)) && FateAt(x, s, max) == Vanishes(Newest(s).q)
  {
    hide Expands, Neighbours;
  }

  /** How the loop ends, and with what, as the exact expansion decides it. */
  lemma {:induction false} LoopConcludes(x: real, max: int, rounds: nat)
    requires x >= 0.0 && max >= 1 && max + 4 <= rounds
    ensures Concludes(x, max, Loop(Start(x), max, rounds), FateFrom(x, 0, 1, max))
  {
    hide Expands, Neighbours, FateFrom, Loop, Concludes;
    Initially(x);
    var s, left := Arrives(x, max, Start(x), rounds);
    LastRounds(x, max, s, left);
  }

  /**
   For every number and every maximum: the loop ends unless a quotient wraps and the rest is at most 10^10; the
   result is a reduced fraction near the number exactly if it is meant to be; and where the expansion goes beyond
   the maximum it is a best approximation.
   */
  lemma {:induction false} FracIsGood(x: real, max: int, mixed: bool, rounds: nat)
    requires max >= 1 && max + 4 <= rounds
    ensures var r := FracOf(x, max, mixed, rounds);
      && (r.Unfinished? <==> Endless(FateOf(x, max), max))
      && (Good(x, r, max, mixed) <==> Meant(FateOf(x, max), max))
      && (Exceeds(FateOf(x, max), max) ==> Strict(x, r, max))
  {
    LoopConcludes(Abs(x), max, rounds);
    var end := Loop(Start(Abs(x)), max, rounds);
    hide Abs, Loop, FateFrom, Coprime, Near, NearOrTiny, Sign, Chosen;
    if end.Some? {
      WrittenGood(x, Chosen(end.value, max).0, Chosen(end.value, max).1, max, mixed);
      hide Good, Strict, Written;
    } else {
      assert !Meant(FateOf(x, max), max);
    }
  }

  /** With the bound 1 the result is the whole part, which is nearest exactly if the rest is at most a half. */
  lemma {:induction false} BestForOne(x: real, rounds: nat)
    requires Abs(x) < WORD && Remainder(Abs(x)) >= TINY && rounds >= 1
    ensures var r := FracOf(x, 1, false, rounds);
      && r == Ratio(0, Sign(x) * Abs(x).Floor, 1)
      && (Best(x, r.numerator, 1, 1) <==> Remainder(Abs(x)) <= 0.5)
  {
    var y := Abs(x);
    SignedBest(x, y.Floor, 1, 1);
    WholeIsBest(y);
    OneRound(y, rounds);
    hide Best, Residue, Loop, Start, Next;
  }

  lemma {:induction false} OneRound(y: real, rounds: nat)
    requires 0.0 <= y < WORD && Remainder(y) >= TINY && rounds >= 1
    ensures Loop(Start(y), 1, rounds) == Some(Next(Start(y))) && Chosen(Next(Start(y)), 1) == (y.Floor, 1)
    ensures Remainder(y) == y - y.Floor as real
  {
  }

  lemma {:induction false} WholeIsBest(y: real)
    ensures Best(y, y.Floor, 1, 1) <==> y - y.Floor as real <= 0.5
  {
    var n := y.Floor;
    forall p': int ensures Residue(y, p', 1) == Abs(y - p' as real) {
    }
    if y - n as real <= 0.5 {
      forall p': int, q': int | 1 <= q' <= 1 ensures Residue(y, n, 1) <= Residue(y, p', q') {
        assert q' == 1 && (p' <= n || n + 1 <= p');
      }
    } else {
      assert Residue(y, n + 1, 1) < Residue(y, n, 1);
    }
  }

  /** Numbers from 2^31 on: for ever below 2.5 * 2^32, and 1/0 from there on. */
  lemma {:induction false} LargeNumber(x: real, max: int, rounds: nat)
    requires x >= WORD && max >= 2
    ensures x < 10737418240.0 ==> forall mixed :: FracOf(x, max, mixed, rounds) == Unfinished
    ensures x >= 10737418240.0 && rounds >= 2 ==>
      FracOf(x, max, false, rounds) == Ratio(0, 1, 0) && FracOf(x, max, true, rounds) == NotFinite
  {
    WrapsFar(x);
    WrappedRounds(max, Start(x), rounds + 2);
    if rounds >= 2 {
      WrappedRounds(max, Start(x), rounds);
    } else if Loop(Start(x), max, rounds).Some? {
      LoopMore(Start(x), max, rounds, rounds + 2);
    }
  }

  /** Three thousand million as a fraction with one digit, and its reciprocal with any number of digits. */
  lemma {:induction false} LoopsForever(mixed: bool, max: int, rounds: nat)
    requires max >= 2
    ensures FracOf(3000000000.0, 9, mixed, rounds) == Unfinished
    ensures FracOf(1.0 / 3000000000.0, max, mixed, rounds) == Unfinished
  {
    LargeNumber(3000000000.0, 9, rounds);
    var s := Start(1.0 / 3000000000.0);
    assert ToInt32(s.b) == 0 && Next(s).b == 3000000000.0;
    if rounds > 0 {
      WrapsFar(Next(s).b);
      WrappedRounds(max, Next(s), rounds + 1);
      if Loop(Next(s), max, rounds - 1).Some? {
        LoopMore(Next(s), max, rounds - 1, rounds + 1);
      }
    }
  }
}
