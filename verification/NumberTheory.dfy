/// Divisibility, greatest common divisors, modular inverses and Fermat's
/// little theorem: the arithmetic that RSA key completion rests on.
module NumberTheory {

  /// n == d * k, named so that a quantifier over k has something to hang on.
  ghost predicate IsMultiple(n: int, d: int, k: int) { n == d * k }

  ghost predicate Divides(d: int, n: int) { exists k :: IsMultiple(n, d, k) }

  /// a and b leave the same remainder modulo n.
  ghost predicate Congruent(a: int, b: int, n: int) { Divides(n, a - b) }

  lemma Witness(d: int, n: int, k: int)
    requires n == d * k
    ensures Divides(d, n)
  {
    assert IsMultiple(n, d, k);
  }

  ghost function Quotient(d: int, n: int): (k: int)
    requires Divides(d, n)
    ensures n == d * k
  {
    var k :| IsMultiple(n, d, k);
    k
  }

  lemma DividesSum(d: int, a: int, b: int)
    requires Divides(d, a) && Divides(d, b)
    ensures Divides(d, a + b) && Divides(d, a - b)
  {
    var x, y := Quotient(d, a), Quotient(d, b);
    assert d * (x + y) == d * x + d * y && d * (x - y) == d * x - d * y;
    Witness(d, a + b, x + y);
    Witness(d, a - b, x - y);
  }

  lemma DividesProduct(d: int, a: int, c: int)
    requires Divides(d, a)
    ensures Divides(d, a * c) && Divides(d, c * a)
  {
    var x := Quotient(d, a);
    assert d * (x * c) == a * c == c * a;
    Witness(d, a * c, x * c);
  }

  lemma DividesTransitive(d: int, a: int, b: int)
    requires Divides(d, a) && Divides(a, b)
    ensures Divides(d, b)
  {
    var y := Quotient(a, b);
    DividesProduct(d, a, y);
  }

  /// How a product with a natural number compares with the factor.
  lemma MulBounds(d: int, k: int)
    requires d >= 0
    ensures k >= 1 ==> d * k >= d
    ensures k <= 0 ==> d * k <= 0
    ensures k <= -1 ==> d * k <= -d
  {
  }

  lemma DividesBound(d: int, n: int)
    requires Divides(d, n) && n > 0 && d >= 0
    ensures 1 <= d <= n
  {
    var k := Quotient(d, n);
    MulBounds(d, k);
  }

  lemma DividesMod(d: int, n: int)
    requires d > 0
    ensures Divides(d, n) <==> n % d == 0
  {
    if n % d == 0 {
      Witness(d, n, n / d);
    }
    if Divides(d, n) {
      var k := Quotient(d, n);
      MultipleMod(d, k);
    }
  }

  lemma MultipleMod(d: int, k: int)
    requires d > 0
    ensures (d * k) % d == 0
  {
    RemainderUnique(d * k, d, k, 0);
  }

  lemma RemainderUnique(n: int, d: int, q: int, r: int)
    requires d > 0 && n == d * q + r && 0 <= r < d
    ensures n % d == r && n / d == q
  {
    var q', r' := n / d, n % d;
    assert n == d * q' + r';
    assert d * (q - q') == r' - r;
    MulBounds(d, q - q');
  }

  lemma CongruentMod(a: int, b: int, n: int)
    requires n > 0
    ensures Congruent(a, b, n) <==> a % n == b % n
  {
    var qa, qb := a / n, b / n;
    if a % n == b % n {
      assert a - b == n * (qa - qb);
      Witness(n, a - b, qa - qb);
    }
    if Congruent(a, b, n) {
      var k := Quotient(n, a - b);
      assert a == n * (qb + k) + b % n;
      RemainderUnique(a, n, qb + k, b % n);
    }
  }

  lemma ModCongruent(a: int, n: int)
    requires n > 0
    ensures Congruent(a % n, a, n) && Congruent(a, a % n, n)
  {
    Witness(n, a - a % n, a / n);
    assert a % n - a == n * -(a / n);
    Witness(n, a % n - a, -(a / n));
  }

  lemma CongruentTransitive(a: int, b: int, c: int, n: int)
    requires Congruent(a, b, n) && Congruent(b, c, n)
    ensures Congruent(a, c, n)
  {
    DividesSum(n, a - b, b - c);
    assert (a - b) + (b - c) == a - c;
  }

  lemma CongruentProduct(a: int, b: int, c: int, d: int, n: int)
    requires Congruent(a, b, n) && Congruent(c, d, n)
    ensures Congruent(a * c, b * d, n)
  {
    DividesProduct(n, a - b, c);
    DividesProduct(n, c - d, b);
    DividesSum(n, (a - b) * c, (c - d) * b);
    assert (a - b) * c + (c - d) * b == a * c - b * d;
  }

  lemma CongruentSum(a: int, b: int, c: int, d: int, n: int)
    requires Congruent(a, b, n) && Congruent(c, d, n)
    ensures Congruent(a + c, b + d, n)
  {
    DividesSum(n, a - b, c - d);
    assert (a - b) + (c - d) == (a + c) - (b + d);
  }

  // ----- greatest common divisor

  function Abs(x: int): nat { if x < 0 then -x else x }

  /// Euclid's algorithm.
  function Gcd(a: nat, b: nat): (g: nat)
    decreases b
  {
    if b == 0 then a else Gcd(b, a % b)
  }

  /// Euclid's algorithm keeping Bezout coefficients: x*a + y*b is the gcd.
  function ExtendedGcd(a: nat, b: nat): (r: (int, int))
    decreases b
  {
    if b == 0 then (1, 0)
    else var (x, y) := ExtendedGcd(b, a % b); (y, x - (a / b) * y)
  }

  lemma {:induction false} Bezout(a: nat, b: nat)
    ensures ExtendedGcd(a, b).0 * a + ExtendedGcd(a, b).1 * b == Gcd(a, b)
    decreases b
  {
    if b > 0 {
      Bezout(b, a % b);
      var (x, y) := ExtendedGcd(b, a % b);
      BezoutStep(a, b, a / b, a % b, x, y);
    }
  }

  lemma BezoutStep(a: int, b: int, q: int, r: int, x: int, y: int)
    requires a == b * q + r
    ensures x * b + y * r == y * a + (x - q * y) * b
  {
    assert y * a == y * (b * q) + y * r;
    assert (x - q * y) * b == x * b - (q * y) * b;
    assert y * (b * q) == (q * y) * b;
  }

  lemma {:induction false} GcdDivides(a: nat, b: nat)
    ensures Divides(Gcd(a, b), a) && Divides(Gcd(a, b), b)
    decreases b
  {
    if b == 0 {
      Witness(a, a, 1);
      Witness(a, 0, 0);
    } else {
      var g := Gcd(a, b);
      GcdDivides(b, a % b);
      DividesProduct(g, b, a / b);
      DividesSum(g, b * (a / b), a % b);
      assert b * (a / b) + a % b == a;
    }
  }

  lemma GcdPositive(a: nat, b: nat)
    requires a > 0 || b > 0
    ensures Gcd(a, b) > 0
  {
    GcdDivides(a, b);
    DividesBound(Gcd(a, b), if a > 0 then a else b);
  }

  /// Two numbers have an inverse relation exactly when they are coprime.
  lemma InverseMeansCoprime(a: nat, n: nat, x: int)
    requires n > 0 && Congruent(a * x, 1, n)
    ensures Gcd(a, n) == 1
  {
    var g := Gcd(a, n);
    GcdDivides(a, n);
    GcdPositive(a, n);
    DividesProduct(g, a, x);
    DividesTransitive(g, n, a * x - 1);
    DividesSum(g, a * x, a * x - 1);
    assert a * x - (a * x - 1) == 1;
    DividesBound(g, 1);
  }

  /// If d divides a * b and is coprime to a then it divides b.
  lemma CoprimeCancels(d: nat, a: nat, b: int)
    requires Gcd(a, d) == 1 && Divides(d, a * b)
    ensures Divides(d, b)
  {
    Bezout(a, d);
    var (x, y) := ExtendedGcd(a, d);
    Witness(d, d, 1);
    DividesProduct(d, a * b, x);
    DividesProduct(d, d, y * b);
    DividesSum(d, (a * b) * x, d * (y * b));
    BezoutTimes(a, d, x, y, b);
  }

  lemma BezoutTimes(a: int, d: int, x: int, y: int, b: int)
    requires x * a + y * d == 1
    ensures (a * b) * x + d * (y * b) == b
  {
    assert (a * b) * x == (x * a) * b;
    assert d * (y * b) == (y * d) * b;
    assert (x * a) * b + (y * d) * b == (x * a + y * d) * b;
  }

  /// The gcd is a common divisor that every other one divides.
  lemma GcdExactly(a: nat, b: nat, c: int)
    ensures Divides(Gcd(a, b), a) && Divides(Gcd(a, b), b)
    ensures Divides(c, a) && Divides(c, b) ==> Divides(c, Gcd(a, b))
  {
    GcdDivides(a, b);
    if Divides(c, a) && Divides(c, b) {
      Bezout(a, b);
      var (x, y) := ExtendedGcd(a, b);
      DividesProduct(c, a, x);
      DividesProduct(c, b, y);
      DividesSum(c, a * x, b * y);
    }
  }

  // ----- least common multiple

  /// l is the least common multiple: a positive common multiple of a and b
  /// that divides, hence does not exceed, every other one.
  ghost predicate IsLcm(l: int, a: int, b: int) {
    && l > 0
    && Divides(a, l) && Divides(b, l)
    && (forall c :: Divides(a, c) && Divides(b, c) ==> Divides(l, c))
  }

  /// The product divided by the gcd is the least common multiple.
  lemma ProductOverGcdIsLcm(a: nat, b: nat)
    requires a > 0 && b > 0
    ensures Gcd(a, b) > 0 && IsLcm(a * b / Gcd(a, b), a, b)
    ensures Divides(a * b / Gcd(a, b), a * b)
  {
    var g := Gcd(a, b);
    GcdPositive(a, b);
    GcdDivides(a, b);
    var l := a * Quotient(g, b);
    CofactorProducts(g, a, b, Quotient(g, a), Quotient(g, b));
    RemainderUnique(a * b, g, l, 0);
    Witness(a, l, Quotient(g, b));
    Witness(b, l, Quotient(g, a));
    Witness(l, a * b, g);
    forall c | Divides(a, c) && Divides(b, c) ensures Divides(l, c) {
      CommonMultipleOfLcm(a, b, l, c);
    }
  }

  lemma CofactorProducts(g: int, a: int, b: int, a': int, b': int)
    requires a > 0 && b > 0 && g > 0 && a == g * a' && b == g * b'
    ensures a * b' == b * a' > 0 && g * (a * b') == a * b == (a * b') * g
  {
    MulBounds(g, b');
    MulBounds(a, b');
    Shuffle(a', g, b', 1);
    assert g * (a * b') == a * (g * b');
  }

  lemma CommonMultipleOfLcm(a: nat, b: nat, l: int, c: int)
    requires Gcd(a, b) * l == a * b && Gcd(a, b) > 0
    requires Divides(a, c) && Divides(b, c)
    ensures Divides(l, c)
  {
    var g := Gcd(a, b);
    Bezout(a, b);
    var (x, y) := ExtendedGcd(a, b);
    var k := x * Quotient(b, c) + y * Quotient(a, c);
    CommonMultiple(a, b, c, x, y, Quotient(a, c), Quotient(b, c));
    Regroup(g, l, k, a * b, c);
    Witness(l, c, k);
  }

  /// A combination of a and b times a common multiple c is a multiple of a*b.
  lemma CommonMultiple(a: int, b: int, c: int, x: int, y: int, ca: int, cb: int)
    requires c == a * ca && c == b * cb
    ensures (x * a + y * b) * c == (a * b) * (x * cb + y * ca)
  {
    calc {
      (x * a + y * b) * c;
      (x * a) * c + (y * b) * c;
      (x * a) * (b * cb) + (y * b) * (a * ca);
      { Shuffle(x, a, b, cb); Shuffle(y, b, a, ca); }
      (a * b) * (x * cb) + (b * a) * (y * ca);
      { assert a * b == b * a; }
      (a * b) * (x * cb) + (a * b) * (y * ca);
      (a * b) * (x * cb + y * ca);
    }
  }

  lemma Shuffle(x: int, a: int, b: int, c: int)
    ensures (x * a) * (b * c) == (a * b) * (x * c)
  {
    assert (x * a) * (b * c) == x * (a * (b * c));
    assert a * (b * c) == (a * b) * c;
    assert x * ((a * b) * c) == (a * b) * (x * c);
  }

  lemma Regroup(g: int, l: int, k: int, m: int, c: int)
    requires g != 0 && g * l == m && g * c == m * k
    ensures c == l * k
  {
    assert (g * l) * k == g * (l * k);
    CancelFactor(g, c, l * k);
  }

  lemma CancelFactor(g: int, a: int, b: int)
    requires g != 0 && g * a == g * b
    ensures a == b
  {
    assert g * (a - b) == 0;
  }

  // ----- modular inverse

  /// The inverse of a modulo n in [0, n), from the Bezout coefficients.
  function ModInverse(a: nat, n: nat): (x: nat)
    requires n > 0
  {
    ExtendedGcd(a, n).0 % n
  }

  lemma ModInverseCorrect(a: nat, n: nat)
    requires n > 1 && Gcd(a, n) == 1
    ensures 0 < ModInverse(a, n) < n
    ensures Congruent(a * ModInverse(a, n), 1, n)
  {
    var (x, y) := ExtendedGcd(a, n);
    Bezout(a, n);
    BezoutInverse(a, n, x, y);
    InverseNotZero(a, ModInverse(a, n), n);
  }

  /// The first Bezout coefficient, reduced, is an inverse.
  lemma BezoutInverse(a: int, n: int, x: int, y: int)
    requires n > 0 && x * a + y * n == 1
    ensures Congruent(a * (x % n), 1, n)
  {
    CommuteMinus(x, a, y, n);
    Witness(n, a * x - 1, -y);
    ModCongruent(x, n);
    Witness(n, a - a, 0);
    CongruentProduct(a, a, x % n, x, n);
    CongruentTransitive(a * (x % n), a * x, 1, n);
  }

  lemma CommuteMinus(x: int, a: int, y: int, n: int)
    requires x * a + y * n == 1
    ensures a * x - 1 == n * -y
  {
  }

  lemma InverseNotZero(a: int, x: int, n: int)
    requires n > 1 && Congruent(a * x, 1, n)
    ensures x != 0
  {
    if x == 0 {
      CongruentMod(0, 1, n);
      RemainderUnique(1, n, 0, 1);
      RemainderUnique(0, n, 0, 0);
      assert false;
    }
  }

  /// Inverses modulo n are unique within [0, n).
  lemma InverseUnique(a: int, x: nat, y: nat, n: nat)
    requires n > 0 && x < n && y < n
    requires Congruent(a * x, 1, n) && Congruent(a * y, 1, n)
    ensures x == y
  {
    // x == x*(a*y) == (a*x)*y == y modulo n.
    Witness(n, x - x, 0);
    Witness(n, y - y, 0);
    CongruentProduct(x, x, a * y, 1, n);
    CongruentProduct(a * x, 1, y, y, n);
    assert x * (a * y) == (a * x) * y;
    CongruentMod(x * (a * y), x, n);
    CongruentMod((a * x) * y, y, n);
    RemainderUnique(x, n, 0, x);
    RemainderUnique(y, n, 0, y);
  }

  // ----- powers

  function Pow(b: int, e: nat): int
  {
    if e == 0 then 1 else b * Pow(b, e - 1)
  }

  lemma {:induction false} PowAdd(b: int, d: nat, e: nat)
    ensures Pow(b, d + e) == Pow(b, d) * Pow(b, e)
  {
    if d > 0 {
      PowAdd(b, d - 1, e);
      assert Pow(b, d + e) == b * Pow(b, d - 1 + e);
      assert b * (Pow(b, d - 1) * Pow(b, e)) == (b * Pow(b, d - 1)) * Pow(b, e);
    }
  }

  lemma {:induction false} PowPow(b: int, d: nat, e: nat)
    ensures d * e >= 0 && Pow(Pow(b, d), e) == Pow(b, d * e)
  {
    if e > 0 {
      PowPow(b, d, e - 1);
      assert d * e == d + d * (e - 1);
      PowAdd(b, d, d * (e - 1));
    }
  }

  lemma {:induction false} PowCongruent(a: int, b: int, e: nat, n: int)
    requires Congruent(a, b, n)
    ensures Congruent(Pow(a, e), Pow(b, e), n)
  {
    if e == 0 {
      Witness(n, 0, 0);
    } else {
      PowCongruent(a, b, e - 1, n);
      CongruentProduct(a, b, Pow(a, e - 1), Pow(b, e - 1), n);
    }
  }

  lemma PowExactly(b: int, e: nat)
    ensures Pow(b, 0) == 1 && Pow(b, 1) == b && Pow(b, 2) == b * b && Pow(b, e + 1) == b * Pow(b, e)
  {
    assert Pow(b, 1) == b * Pow(b, 0) && Pow(b, 2) == b * Pow(b, 1);
  }

  // ----- primes

  ghost predicate Prime(p: int) {
    p >= 2 && forall d :: 1 < d < p ==> !Divides(d, p)
  }

  /// A prime is at least 2 and leaves a remainder on division by any smaller
  /// number but 1.
  lemma PrimeExactly(p: int)
    ensures Prime(p) <==> p >= 2 && forall d :: 1 < d < p ==> p % d != 0
  {
    if Prime(p) {
      forall d | 1 < d < p
        ensures p % d != 0
      {
        DividesMod(d, p);
      }
    } else if p >= 2 {
      var d :| 1 < d < p && Divides(d, p);
      DividesMod(d, p);
    }
  }

  lemma PrimeGcd(p: nat, a: nat)
    requires Prime(p) && !Divides(p, a)
    ensures Gcd(a, p) == 1
  {
    var g := Gcd(a, p);
    GcdDivides(a, p);
    DividesBound(g, p);
  }

  /// Euclid's lemma.
  lemma PrimeDividesProduct(p: nat, a: nat, b: int)
    requires Prime(p) && Divides(p, a * b)
    ensures Divides(p, a) || Divides(p, b)
  {
    if !Divides(p, a) {
      PrimeGcd(p, a);
      CoprimeCancels(p, a, b);
    }
  }

  lemma DistinctPrimesCoprime(p: nat, q: nat)
    requires Prime(p) && Prime(q) && p != q
    ensures Gcd(p, q) == 1
  {
    if Divides(q, p) { DividesBound(q, p); }
    PrimeGcd(q, p);
  }

  lemma MultipleOfMultiple(p: int, q: int, n: int, k: int, j: int)
    requires n == p * k && k == q * j
    ensures Divides(p * q, n)
  {
    assert p * (q * j) == (p * q) * j;
    Witness(p * q, n, j);
  }

  /// A number divisible by two coprime numbers is divisible by their product.
  lemma CoprimeProductDivides(p: nat, q: nat, n: int)
    requires Gcd(p, q) == 1 && Divides(p, n) && Divides(q, n)
    ensures Divides(p * q, n)
  {
    var k := Quotient(p, n);
    CoprimeCancels(q, p, k);
    MultipleOfMultiple(p, q, n, k, Quotient(q, k));
  }

  // ----- Fermat's little theorem, by the binomial theorem

  function Choose(n: nat, k: nat): nat
  {
    if k == 0 then 1 else if n == 0 then 0 else Choose(n - 1, k - 1) + Choose(n - 1, k)
  }

  lemma {:induction false} ChooseAbove(n: nat, k: nat)
    requires n < k
    ensures Choose(n, k) == 0
  {
    if n > 0 {
      ChooseAbove(n - 1, k - 1);
      ChooseAbove(n - 1, k);
    }
  }

  lemma {:induction false} ChooseSelf(n: nat)
    ensures Choose(n, n) == 1
  {
    if n > 0 {
      ChooseSelf(n - 1);
      ChooseAbove(n - 1, n);
    }
  }

  /// k * C(n, k) == n * C(n-1, k-1).
  lemma {:induction false} ChooseAbsorb(n: nat, k: nat)
    requires n > 0 && k > 0
    ensures k * Choose(n, k) == n * Choose(n - 1, k - 1)
  {
    if n == 1 {
      if k > 1 { ChooseAbove(0, k - 1); }
      ChooseAbove(0, k);
    } else {
      ChooseAbsorb(n - 1, k);
      var c := Choose(n - 1, k - 1);
      if k == 1 {
        assert Choose(n, 1) == 1 + Choose(n - 1, 1);
        assert Choose(n - 2, 0) == 1;
      } else {
        ChooseAbsorb(n - 1, k - 1);
        assert c == Choose(n - 2, k - 2) + Choose(n - 2, k - 1);
        AbsorbStep(n, k, c, Choose(n - 1, k), Choose(n - 2, k - 2), Choose(n - 2, k - 1));
      }
    }
  }

  lemma AbsorbStep(n: int, k: int, c: int, d: int, e: int, f: int)
    requires c == e + f && (k - 1) * c == (n - 1) * e && k * d == (n - 1) * f
    ensures k * (c + d) == n * c
  {
    assert (n - 1) * c == (n - 1) * e + (n - 1) * f;
    assert k * (c + d) == (k - 1) * c + c + k * d;
  }

  lemma PrimeDividesChoose(p: nat, k: nat)
    requires Prime(p) && 0 < k < p
    ensures Divides(p, Choose(p, k))
  {
    ChooseAbsorb(p, k);
    Witness(p, k * Choose(p, k), Choose(p - 1, k - 1));
    PrimeDividesProduct(p, k, Choose(p, k));
    if Divides(p, k) { DividesBound(p, k); }
  }

  /// The first m terms of the binomial expansion of (a + 1)^n.
  function BinomialTerms(n: nat, m: nat, a: int): int
  {
    if m == 0 then 0 else BinomialTerms(n, m - 1, a) + Choose(n, m - 1) * Pow(a, m - 1)
  }

  lemma {:induction false} BinomialPascal(n: nat, m: nat, a: int)
    ensures BinomialTerms(n + 1, m + 1, a) == BinomialTerms(n, m + 1, a) + a * BinomialTerms(n, m, a)
  {
    if m > 0 {
      BinomialPascal(n, m - 1, a);
      PascalStep(BinomialTerms(n, m - 1, a), Choose(n, m - 1), Choose(n, m), a, Pow(a, m - 1));
    } else {
      assert BinomialTerms(n, 0, a) == 0;
      assert BinomialTerms(n + 1, 1, a) == 1 == BinomialTerms(n, 1, a);
    }
  }

  lemma PascalStep(t: int, c: int, d: int, a: int, x: int)
    ensures a * t + (c + d) * (a * x) == d * (a * x) + a * (t + c * x)
  {
    assert (c + d) * (a * x) == c * (a * x) + d * (a * x);
    assert c * (a * x) == a * (c * x);
    assert a * (t + c * x) == a * t + a * (c * x);
  }

  lemma {:induction false} BinomialTheorem(n: nat, a: int)
    ensures BinomialTerms(n, n + 1, a) == Pow(a + 1, n)
  {
    if n == 0 {
      assert BinomialTerms(0, 1, a) == BinomialTerms(0, 0, a) + 1;
    } else {
      BinomialTheorem(n - 1, a);
      BinomialPascal(n - 1, n, a);
      ChooseAbove(n - 1, n);
      assert BinomialTerms(n - 1, n + 1, a) == BinomialTerms(n - 1, n, a);
      DistributeOne(a, Pow(a + 1, n - 1));
    }
  }

  lemma DistributeOne(a: int, x: int)
    ensures (a + 1) * x == x + a * x
  {
  }

  /// Modulo p, only the first term of the expansion up to degree p-1 survives.
  lemma {:induction false} BinomialModPrime(p: nat, m: nat, a: int)
    requires Prime(p) && 1 <= m <= p
    ensures Congruent(BinomialTerms(p, m, a), 1, p)
  {
    if m == 1 {
      assert BinomialTerms(p, 1, a) == BinomialTerms(p, 0, a) + Choose(p, 0) * Pow(a, 0) == 1;
      Witness(p, 0, 0);
    } else {
      BinomialModPrime(p, m - 1, a);
      PrimeDividesChoose(p, m - 1);
      var t := Choose(p, m - 1) * Pow(a, m - 1);
      DividesProduct(p, Choose(p, m - 1), Pow(a, m - 1));
      DividesSum(p, BinomialTerms(p, m - 1, a) - 1, t);
      assert BinomialTerms(p, m - 1, a) - 1 + t == BinomialTerms(p, m, a) - 1;
    }
  }

  /// a^p is congruent to a modulo every prime p.
  lemma {:induction false} FermatLittle(p: nat, a: nat)
    requires Prime(p)
    ensures Congruent(Pow(a, p), a, p)
  {
    if a == 0 {
      assert Pow(0, p) == 0;
      Witness(p, 0, 0);
    } else {
      FermatLittle(p, a - 1);
      FermatStep(p, a - 1);
      CongruentSum(BinomialTerms(p, p, a - 1), 1, Pow(a - 1, p), a - 1, p);
    }
  }

  lemma FermatStep(p: nat, b: nat)
    requires Prime(p)
    ensures Pow(b + 1, p) == BinomialTerms(p, p, b) + Pow(b, p)
    ensures Congruent(BinomialTerms(p, p, b), 1, p)
  {
    BinomialTheorem(p, b);
    BinomialModPrime(p, p, b);
    ChooseSelf(p);
    assert BinomialTerms(p, p + 1, b) == BinomialTerms(p, p, b) + Choose(p, p) * Pow(b, p);
  }

  /// Raising to any exponent 1 + k(p-1) leaves m unchanged modulo p, whether
  /// or not p divides m.
  lemma {:induction false} FermatPower(p: nat, m: nat, k: nat)
    requires Prime(p)
    ensures k * (p - 1) >= 0 && Congruent(Pow(m, 1 + k * (p - 1)), m, p)
  {
    if k == 0 {
      assert Pow(m, 1) == m * Pow(m, 0) == m;
      Witness(p, m - m, 0);
    } else {
      FermatPower(p, m, k - 1);
      var e := 1 + (k - 1) * (p - 1);
      assert 1 + k * (p - 1) == e + (p - 1);
      PowAdd(m, e, p - 1);
      Witness(p, Pow(m, p - 1) - Pow(m, p - 1), 0);
      CongruentProduct(Pow(m, e), m, Pow(m, p - 1), Pow(m, p - 1), p);
      FermatLittle(p, m);
      assert m * Pow(m, p - 1) == Pow(m, p);
      CongruentTransitive(Pow(m, e + (p - 1)), Pow(m, p), m, p);
    }
  }
}
