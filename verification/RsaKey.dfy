/// Completion of an RSA key from the private exponent and the two primes, and
/// the inverse of one prime modulo the other (ossl/src/pkey.rs).
module RsaKey {
  import opened Bytes
  import opened Common
  import opened NumberTheory

  datatype Error = OsslError | NullPtr

  /// The wrapper around an arbitrary-precision OpenSSL integer.
  class BigNum {
    var v: int

    constructor ()
      ensures v == 0
    {
      v := 0;
    }

    constructor FromBigEndianSlice(s: seq<u8>)
      ensures v == FromBigEndian(s)
    {
      v := FromBigEndian(s);
    }

    /// Like BN_bn2bin, writes the magnitude.
    method ToBigEndianVec() returns (s: seq<u8>)
      ensures s == ToBigEndian(Abs(v))
    {
      s := ToBigEndian(Abs(v));
    }
  }

  lemma ProductNonNegative(a: nat, b: nat)
    ensures a * b >= 0
  {
  }

  method CheckedSub(res: BigNum, a: BigNum, b: BigNum)
    modifies res
    ensures res.v == old(a.v) - old(b.v)
  {
    res.v := a.v - b.v;
  }

  method CheckedMul(res: BigNum, a: BigNum, b: BigNum)
    modifies res
    ensures res.v == old(a.v) * old(b.v)
  {
    res.v := a.v * b.v;
  }

  method CheckedGcd(res: BigNum, a: BigNum, b: BigNum)
    modifies res
    ensures res.v == Gcd(Abs(old(a.v)), Abs(old(b.v)))
  {
    res.v := Gcd(Abs(a.v), Abs(b.v));
  }

  /// The quotient truncated toward zero; dividing by zero is an error.
  method CheckedDiv(res: BigNum, a: BigNum, b: BigNum) returns (ok: bool)
    modifies res
    ensures ok <==> old(b.v) != 0
    ensures ok ==> res.v == TruncDiv(old(a.v), old(b.v))
  {
    ok := b.v != 0;
    if ok {
      res.v := TruncDiv(a.v, b.v);
    }
  }

  /// Fails when there is no inverse, which includes a modulus of 0, 1 or -1.
  method CheckedModInverse(res: BigNum, a: BigNum, n: BigNum) returns (ok: bool)
    requires a.v >= 0
    modifies res
    ensures ok <==> Invertible(old(a.v), old(n.v))
    ensures ok ==> 0 < res.v < Abs(old(n.v)) && Congruent(old(a.v) * res.v, 1, Abs(old(n.v)))
  {
    ok := Abs(n.v) > 1 && Gcd(a.v, Abs(n.v)) == 1;
    if ok {
      ModInverseCorrect(a.v, Abs(n.v));
      res.v := ModInverse(a.v, Abs(n.v));
    }
  }

  function TruncDiv(a: int, b: int): int
    requires b != 0
  {
    if (a >= 0) == (b > 0) then Abs(a) / Abs(b) else -(Abs(a) / Abs(b))
  }

  predicate Invertible(a: nat, n: int) {
    Abs(n) > 1 && Gcd(a, Abs(n)) == 1
  }

  /// The key material kept for an RSA key; a, b and c are the CRT parameters.
  datatype RsaData = RsaData(
    n: seq<u8>,
    d: Option<seq<u8>>,
    p: Option<seq<u8>>,
    q: Option<seq<u8>>,
    a: Option<seq<u8>>,
    b: Option<seq<u8>>,
    c: Option<seq<u8>>)

  /// The exponent modulus the code computes, phi / gcd(p-1, q-1), for any two
  /// numbers the caller may pass as primes. There is none when p == q == 1.
  function Lambda(p: nat, q: nat): (l: Option<int>)
  {
    var g := Gcd(Abs(p - 1), Abs(q - 1));
    if g == 0 then None else Some(TruncDiv((p - 1) * (q - 1), g))
  }

  predicate Completable(p: nat, q: nat, d: nat) {
    Lambda(p, q).Some? && Invertible(d, Lambda(p, q).value)
  }

  /// e is the public exponent of d: its inverse modulo lambda, fully reduced.
  ghost predicate IsCompletion(p: nat, q: nat, d: nat, e: nat) {
    && Lambda(p, q).Some?
    && var l := Abs(Lambda(p, q).value);
    && 1 < l && 0 < e < l
    && Congruent(d * e, 1, l)
  }

  /// Completes a key from big-endian d, p and q, returning e and the key data.
  method FromDpq(d: seq<u8>, p: seq<u8>, q: seq<u8>) returns (r: Result<(seq<u8>, RsaData), Error>)
    ensures r.Ok? <==> Completable(FromBigEndian(p), FromBigEndian(q), FromBigEndian(d))
    ensures r.Err? ==> r.error == OsslError
    ensures r.Ok? ==>
      var (e, data) := r.value;
      && IsCompletion(FromBigEndian(p), FromBigEndian(q), FromBigEndian(d), FromBigEndian(e))
      && e == ToBigEndian(FromBigEndian(e))
      && FromBigEndian(data.n) == FromBigEndian(p) * FromBigEndian(q)
      && data.n == ToBigEndian(FromBigEndian(data.n))
      && data == RsaData(data.n, Some(d), Some(p), Some(q), None, None, None)
  {
    var bp := new BigNum.FromBigEndianSlice(p);
    var bq := new BigNum.FromBigEndianSlice(q);
    var n := new BigNum();
    CheckedMul(n, bp, bq);
    ghost var P, Q, D := FromBigEndian(p), FromBigEndian(q), FromBigEndian(d);
    assert n.v == P * Q >= 0 by { ProductNonNegative(P, Q); }

    var one := new BigNum.FromBigEndianSlice([1]);
    assert one.v == 1 by { assert [1][..0] == []; }
    var pDec := new BigNum();
    CheckedSub(pDec, bp, one);
    assert pDec.v + 1 == P;
    var qDec := new BigNum();
    CheckedSub(qDec, bq, one);
    assert qDec.v + 1 == Q;

    var phi := new BigNum();
    CheckedMul(phi, pDec, qDec);
    assert phi.v == pDec.v * qDec.v;

    var gcd := new BigNum();
    CheckedGcd(gcd, pDec, qDec);

    var lambda := new BigNum();
    var ok := CheckedDiv(lambda, phi, gcd);
    if !ok {
      return Err(OsslError);
    }
    assert Lambda(P, Q) == Some(lambda.v);

    var bd := new BigNum.FromBigEndianSlice(d);
    var e := new BigNum();
    ok := CheckedModInverse(e, bd, lambda);
    if !ok {
      return Err(OsslError);
    }

    var eVec := e.ToBigEndianVec();
    var nVec := n.ToBigEndianVec();
    BigEndianRoundTrip(e.v);
    BigEndianRoundTrip(n.v);
    assert IsCompletion(P, Q, D, e.v);
    return Ok((eVec, RsaData(nVec, Some(d), Some(p), Some(q), None, None, None)));
  }

  /// Computes p^-1 modulo q, the coefficient OpenPGP stores with a key.
  method InversePModQ(key: RsaData) returns (r: Result<seq<u8>, Error>)
    ensures key.p.None? || key.q.None? <==> r == Err(NullPtr)
    ensures r.Ok? <==>
      key.p.Some? && key.q.Some? && Invertible(FromBigEndian(key.p.value), FromBigEndian(key.q.value))
    ensures r.Ok? ==>
      var q := FromBigEndian(key.q.value);
      0 < FromBigEndian(r.value) < q && Congruent(FromBigEndian(key.p.value) * FromBigEndian(r.value), 1, q)
  {
    if key.p.None? || key.q.None? {
      return Err(NullPtr);
    }
    var p := new BigNum.FromBigEndianSlice(key.p.value);
    var q := new BigNum.FromBigEndianSlice(key.q.value);
    var u := new BigNum();
    var ok := CheckedModInverse(u, p, q);
    if !ok {
      return Err(OsslError);
    }
    var v := u.ToBigEndianVec();
    BigEndianRoundTrip(u.v);
    return Ok(v);
  }

  // ----- what the composition of big-number calls achieves

  /// For p, q >= 2 the computed modulus is the least common multiple of p-1
  /// and q-1, and it divides phi.
  lemma LambdaIsLcm(p: nat, q: nat)
    requires p >= 2 && q >= 2
    ensures Lambda(p, q).Some? && IsLcm(Lambda(p, q).value, p - 1, q - 1)
    ensures Divides(Lambda(p, q).value, (p - 1) * (q - 1))
  {
    ProductOverGcdIsLcm(p - 1, q - 1);
    MulBounds(p - 1, q - 1);
  }

  /// Below 2 there is no prime; what the code computes for such numbers.
  lemma LambdaOfOne(q: nat)
    ensures q == 1 ==> Lambda(1, q) == None
    ensures q != 1 ==> Lambda(1, q) == Some(0) && Lambda(q, 1) == Some(0)
  {
    GcdOfZero(Abs(q - 1));
    assert 0 * (q - 1) == 0 && (q - 1) * 0 == 0;
  }

  lemma LambdaOfZero(q: nat)
    requires q != 1
    ensures Lambda(0, q) == Some(1 - q) && Lambda(q, 0) == Some(1 - q)
  {
    GcdOfOne(Abs(q - 1));
    assert (0 - 1) * (q - 1) == 1 - q && (q - 1) * (0 - 1) == 1 - q;
  }

  lemma GcdOfZero(b: nat)
    ensures Gcd(0, b) == b && Gcd(b, 0) == b
  {
    if b > 0 {
      assert Gcd(0, b) == Gcd(b, 0 % b);
    }
  }

  lemma GcdOfOne(b: nat)
    ensures Gcd(1, b) == 1 && Gcd(b, 1) == 1
  {
    GcdDivides(1, b);
    GcdDivides(b, 1);
    DividesBound(Gcd(1, b), 1);
    DividesBound(Gcd(b, 1), 1);
  }

  /// There is an inverse exactly when the code finds one.
  lemma InvertibleExactly(a: nat, n: int)
    ensures Invertible(a, n) <==>
      (n > 1 || n < -1) && exists x: nat :: x < Abs(n) && Congruent(a * x, 1, Abs(n))
  {
    if Invertible(a, n) {
      ModInverseCorrect(a, Abs(n));
    } else if (n > 1 || n < -1) && exists x: nat :: x < Abs(n) && Congruent(a * x, 1, Abs(n)) {
      var x: nat :| x < Abs(n) && Congruent(a * x, 1, Abs(n));
      InverseMeansCoprime(a, Abs(n), x);
    }
  }

  /// A key can be completed exactly when some exponent completes it.
  lemma CompletableExactly(p: nat, q: nat, d: nat)
    ensures Completable(p, q, d) <==> exists e: nat :: IsCompletion(p, q, d, e)
  {
    if Completable(p, q, d) {
      var l := Abs(Lambda(p, q).value);
      ModInverseCorrect(d, l);
      assert IsCompletion(p, q, d, ModInverse(d, l));
    } else if e: nat :| IsCompletion(p, q, d, e) {
      InverseMeansCoprime(d, Abs(Lambda(p, q).value), e);
    }
  }

  /// An exponent product congruent to 1 modulo a multiple of p-1 fixes every
  /// residue modulo the prime p.
  lemma FixedModPrime(p: nat, l: nat, x: nat, m: nat)
    requires Prime(p) && Divides(p - 1, l) && x >= 1 && Congruent(x, 1, l)
    ensures Congruent(Pow(m, x), m, p)
  {
    DividesTransitive(p - 1, l, x - 1);
    var k := Quotient(p - 1, x - 1);
    MulBounds(p - 1, k);
    FermatPower(p, m, k);
  }

  lemma ExponentsPositive(d: nat, e: nat, l: nat)
    requires l > 1 && e > 0 && Congruent(d * e, 1, l)
    ensures d > 0 && d * e >= 1
  {
    if d == 0 {
      DividesBound(l, 1) by { DividesProduct(l, 0 - 1, -1); }
    }
    MulBounds(e, d);
  }

  /// RSA correctness (section 5.1 of RFC 8017): with distinct primes, raising
  /// to the returned e and then to d gives back every message below n.
  lemma RsaRoundTrip(p: nat, q: nat, d: nat, e: nat, m: nat)
    requires Prime(p) && Prime(q) && p != q
    requires IsCompletion(p, q, d, e)
    requires m < p * q
    ensures Pow(Pow(m, e), d) % (p * q) == m
    ensures Pow(Pow(m, d), e) % (p * q) == m
  {
    var l := Lambda(p, q).value;
    LambdaIsLcm(p, q);
    ExponentsPositive(d, e, l);
    assert d * e == e * d;
    FixedModPrime(p, l, d * e, m);
    FixedModPrime(q, l, d * e, m);
    DistinctPrimesCoprime(p, q);
    CoprimeProductDivides(p, q, Pow(m, d * e) - m);
    PowPow(m, e, d);
    PowPow(m, d, e);
    CongruentMod(Pow(m, d * e), m, p * q);
    RemainderUnique(m, p * q, 0, m);
  }

  /// Such keys exist: 3 and 5 with both exponents 3.
  lemma SmallKey()
    ensures Prime(3) && Prime(5) && IsCompletion(3, 5, 3, 3)
  {
    forall d | 1 < d < 5
      ensures !Divides(d, 5) && (d == 2 ==> !Divides(d, 3))
    {
      DividesMod(d, 5);
      DividesMod(d, 3);
    }
    assert Gcd(2, 4) == Gcd(4, 2) == Gcd(2, 0) == 2;
    assert Lambda(3, 5) == Some(4);
    Witness(4, 3 * 3 - 1, 2);
  }

  /// The code does not check that its primes differ. For primes p and q the
  /// completed key decrypts every message exactly when they do, or in the
  /// degenerate key whose private exponent is 1.
  lemma RsaCorrectExactly(p: nat, q: nat, d: nat, e: nat)
    requires Prime(p) && Prime(q) && IsCompletion(p, q, d, e)
    ensures (forall m: nat :: m < p * q ==> Pow(Pow(m, e), d) % (p * q) == m) <==> p != q || d == 1
  {
    if p != q {
      forall m: nat | m < p * q ensures Pow(Pow(m, e), d) % (p * q) == m {
        RsaRoundTrip(p, q, d, e, m);
      }
    } else if d == 1 {
      InverseOfOne(e, Abs(Lambda(p, q).value));
      forall m: nat | m < p * q ensures Pow(Pow(m, e), d) % (p * q) == m {
        FirstPower(m);
        RemainderUnique(m, p * q, 0, m);
      }
    } else {
      SquareKeyFails(p, d, e);
    }
  }

  lemma InverseOfOne(e: nat, l: nat)
    requires 0 < e < l && Congruent(1 * e, 1, l)
    ensures e == 1
  {
    Witness(l, 0, 0);
    InverseUnique(1, e, 1, l);
  }

  /// Keys with equal primes do get completed.
  lemma SquareKey()
    ensures Prime(5) && IsCompletion(5, 5, 3, 3)
  {
    SmallKey();
    assert Gcd(4, 4) == Gcd(4, 0) == 4;
    assert Lambda(5, 5) == Some(4);
    Witness(4, 3 * 3 - 1, 2);
  }

  lemma FirstPower(m: int)
    ensures Pow(m, 1) == m
  {
    assert Pow(m, 1) == m * Pow(m, 0);
  }

  /// With p twice, p itself is not recovered.
  lemma SquareKeyFails(p: nat, d: nat, e: nat)
    requires Prime(p) && IsCompletion(p, p, d, e) && d != 1
    ensures p < p * p && Pow(Pow(p, e), d) % (p * p) != p
  {
    LambdaIsLcm(p, p);
    ExponentsPositive(d, e, Lambda(p, p).value);
    SquarePowerVanishes(p, d, e);
    MulBounds(p, p - 1);
    Distribute(p, p, 1);
  }

  lemma SquarePowerVanishes(p: nat, d: nat, e: nat)
    requires p >= 2 && d > 0 && e > 0 && (d > 1 || e > 1)
    ensures Pow(Pow(p, e), d) % (p * p) == 0
  {
    PowPow(p, e, d);
    MulBounds(d, e);
    MulBounds(e, d);
    var x := e * d;
    assert x >= 2;
    PowAdd(p, 2, x - 2);
    assert Pow(p, 2) == p * Pow(p, 1) && Pow(p, 1) == p * Pow(p, 0);
    MulBounds(p, p);
    MultipleMod(p * p, Pow(p, x - 2));
  }

  /// Key recovery (section 3.2 of RFC 8017): if d was made as an inverse of e
  /// modulo lambda, or modulo phi, then completion succeeds and the only
  /// exponent it can return is that same e.
  lemma RecoversExponent(p: nat, q: nat, d: nat, e: nat)
    requires p >= 2 && q >= 2
    requires Lambda(p, q).Some? ==> 0 < e < Lambda(p, q).value
    requires
      || (Lambda(p, q).Some? && Congruent(d * e, 1, Lambda(p, q).value))
      || Congruent(d * e, 1, (p - 1) * (q - 1))
    ensures Completable(p, q, d) && IsCompletion(p, q, d, e)
    ensures forall x: nat :: IsCompletion(p, q, d, x) ==> x == e
  {
    LambdaIsLcm(p, q);
    var l := Lambda(p, q).value;
    if Congruent(d * e, 1, (p - 1) * (q - 1)) {
      DividesTransitive(l, (p - 1) * (q - 1), d * e - 1);
    }
    InverseMeansCoprime(d, l, e);
    forall x: nat | IsCompletion(p, q, d, x) ensures x == e {
      InverseUnique(d, x, e, l);
    }
  }

  /// The stored coefficient u recombines a message from its two residues.
  lemma CrtRecombines(p: nat, q: nat, u: int, m: nat)
    requires p > 0 && q > 0 && m < p * q && Congruent(p * u, 1, q)
    ensures m == m % p + p * (((m % q - m % p) * u) % q)
  {
    var t, x := m / p, m % q - m % p;
    QuotientBelow(p, q, m);
    // x * u == (p * t) * u == t modulo q
    assert Congruent(x, p * t, q) by {
      ModCongruent(m, q);
      assert x - p * t == m % q - m;
    }
    assert Congruent(x * u, t, q) by {
      UndoFactor(p, q, u, t, x);
    }
    CongruentMod(x * u, t, q);
    RemainderUnique(t, q, 0, t);
  }

  lemma QuotientBelow(p: nat, q: nat, m: nat)
    requires p > 0 && m < p * q
    ensures 0 <= m / p < q && m == p * (m / p) + m % p
  {
    DivisionIdentity(m, p);
    LessFromProduct(p, m / p, q, m % p);
  }

  lemma DivisionIdentity(m: nat, p: nat)
    requires p > 0
    ensures m == p * (m / p) + m % p && 0 <= m / p && 0 <= m % p
  {
  }

  lemma LessFromProduct(p: int, k: int, q: int, r: int)
    requires p > 0 && r >= 0 && p * k + r < p * q
    ensures k < q
  {
    MulBounds(p, k - q);
    Distribute(p, k, q);
  }

  lemma Distribute(p: int, k: int, q: int)
    ensures p * (k - q) == p * k - p * q
  {
  }

  lemma UndoFactor(p: int, q: int, u: int, t: int, x: int)
    requires Congruent(x, p * t, q) && Congruent(p * u, 1, q)
    ensures Congruent(x * u, t, q)
  {
    Witness(q, 0, 0);
    CongruentProduct(x, p * t, u, u, q);
    CongruentProduct(p * u, 1, t, t, q);
    assert (p * u) * t == (p * t) * u;
    CongruentTransitive(x * u, (p * t) * u, t, q);
  }
}
