/** Arithmetic modulo a prime, for any modulus: divisibility, Euclid's lemma and
    Fermat's little theorem. */
module PrimeField {
  import opened Sequences

  /** `a` is a multiple of `p`. */
  predicate Zero(a: int, p: nat)
    requires p > 0
  {
    a % p == 0
  }

  predicate Cong(a: int, b: int, p: nat)
    requires p > 0
  {
    Zero(a - b, p)
  }

  ghost predicate IsPrime(p: nat) {
    p >= 2 && forall m | 2 <= m < p :: p % m != 0
  }

  // ----- multiples

  lemma MultipleIsZero(k: int, p: nat)
    requires p > 0
    ensures Zero(k * p, p)
  {
    var m := k * p;
    assert m == p * (m / p) + m % p;
    assert m % p == p * (k - m / p);
    MultipleSpread(k - m / p, p);
  }

  lemma MultipleSpread(k: int, p: nat)
    ensures k >= 1 ==> p * k >= p
    ensures k <= -1 ==> p * k <= -(p as int)
  {
    if k >= 1 { assert p * k == p * (k - 1) + p; }
    if k <= -1 { assert p * k == -(p * (-k - 1)) - p; }
  }

  lemma MulSwap(a: int, b: int, c: int)
    ensures a * (b * c) == b * (a * c) == (a * b) * c
  {
  }

  lemma MulCross(a: int, b: int, x: int, y: int)
    ensures (a * b) * (x * y) == (a * x) * (b * y)
  {
    MulSwap(b, x, y);
    MulSwap(a, b, x * y);
    MulSwap(a, x, b * y);
  }

  lemma Dist(a: int, b: int, c: int)
    ensures a * (b + c) == a * b + a * c && (b + c) * a == b * a + c * a
    ensures a * (b - c) == a * b - a * c && (b - c) * a == b * a - c * a
  {
  }

  lemma Foil(a: int, b: int, c: int, d: int)
    ensures (a + b) * (c + d) == a * c + a * d + b * c + b * d
    ensures (a - b) * (c - d) == a * c - a * d - b * c + b * d
    ensures (a - b) * (c + d) == a * c + a * d - b * c - b * d
  {
    Dist(c + d, a, b);
    Dist(c - d, a, b);
    Dist(a, c, d);
    Dist(b, c, d);
  }

  lemma ZeroIsMultiple(a: int, p: nat) returns (k: int)
    requires p > 0 && Zero(a, p)
    ensures a == k * p
  {
    k := a / p;
    assert a == p * (a / p) + a % p;
  }

  /** Nothing strictly between 0 and p is a multiple of p. */
  lemma SmallNonZero(a: int, p: nat)
    requires 0 < a < p
    ensures !Zero(a, p)
  {
    if Zero(a, p) {
      var k := ZeroIsMultiple(a, p);
      MultipleSpread(k, p);
    }
  }

  lemma ZeroMul(a: int, c: int, p: nat)
    requires p > 0 && Zero(a, p)
    ensures Zero(c * a, p) && Zero(a * c, p)
  {
    var k := ZeroIsMultiple(a, p);
    assert c * a == (c * k) * p;
    MultipleIsZero(c * k, p);
  }

  lemma ZeroAdd(a: int, b: int, p: nat)
    requires p > 0 && Zero(a, p) && Zero(b, p)
    ensures Zero(a + b, p) && Zero(a - b, p) && Zero(-a, p)
  {
    var k := ZeroIsMultiple(a, p);
    var l := ZeroIsMultiple(b, p);
    assert a + b == (k + l) * p && a - b == (k - l) * p && -a == (-k) * p;
    MultipleIsZero(k + l, p);
    MultipleIsZero(k - l, p);
    MultipleIsZero(-k, p);
  }

  // ----- congruence

  lemma CongRefl(a: int, p: nat)
    requires p > 0
    ensures Cong(a, a, p)
  {
    MultipleIsZero(0, p);
  }

  lemma CongMod(a: int, p: nat)
    requires p > 0
    ensures Cong(a % p, a, p) && Cong(a, a % p, p)
  {
    assert a % p - a == (-(a / p)) * p;
    MultipleIsZero(-(a / p), p);
    MultipleIsZero(a / p, p);
  }

  lemma CongSym(a: int, b: int, p: nat)
    requires p > 0 && Cong(a, b, p)
    ensures Cong(b, a, p)
  {
    ZeroAdd(a - b, a - b, p);
    assert -(a - b) == b - a;
  }

  lemma CongTrans(a: int, b: int, c: int, p: nat)
    requires p > 0 && Cong(a, b, p) && Cong(b, c, p)
    ensures Cong(a, c, p)
  {
    ZeroAdd(a - b, b - c, p);
    assert (a - b) + (b - c) == a - c;
  }

  lemma CongAdd(a: int, a': int, b: int, b': int, p: nat)
    requires p > 0 && Cong(a, a', p) && Cong(b, b', p)
    ensures Cong(a + b, a' + b', p) && Cong(a - b, a' - b', p)
  {
    ZeroAdd(a - a', b - b', p);
    assert (a + b) - (a' + b') == (a - a') + (b - b');
    assert (a - b) - (a' - b') == (a - a') - (b - b');
  }

  lemma CongMul(a: int, a': int, b: int, b': int, p: nat)
    requires p > 0 && Cong(a, a', p) && Cong(b, b', p)
    ensures Cong(a * b, a' * b', p)
  {
    ZeroMul(a - a', b, p);
    ZeroMul(b - b', a', p);
    ZeroAdd((a - a') * b, a' * (b - b'), p);
    assert a * b - a' * b' == (a - a') * b + a' * (b - b');
  }

  /** Congruent numbers have the same residue, and conversely. */
  lemma CongResidue(a: int, b: int, p: nat)
    requires p > 0
    ensures Cong(a, b, p) <==> a % p == b % p
  {
    if a % p == b % p {
      assert a - b == (a / p - b / p) * p;
      MultipleIsZero(a / p - b / p, p);
    }
    if Cong(a, b, p) {
      var k := ZeroIsMultiple(a - b, p);
      assert a % p - b % p == p * (k - a / p + b / p);
      SmallSpread(a % p, b % p, k - a / p + b / p, p);
    }
  }

  lemma SmallSpread(r: int, s: int, k: int, p: nat)
    requires 0 <= r < p && 0 <= s < p && r - s == p * k
    ensures r == s
  {
    MultipleSpread(k, p);
  }

  lemma CongSmall(a: int, b: int, p: nat)
    requires 0 <= a < p && 0 <= b < p && Cong(a, b, p)
    ensures a == b
  {
    var k := ZeroIsMultiple(a - b, p);
    SmallSpread(a, b, k, p);
  }

  // ----- Euclid's lemma

  lemma ModSmall(a: nat, p: nat)
    requires a < p
    ensures a % p == a
  {
    CongMod(a, p);
    CongSmall(a, a % p, p);
  }

  /** A prime dividing a product divides a factor. */
  lemma {:induction false} Euclid(a: int, b: int, p: nat)
    requires IsPrime(p) && Zero(a * b, p)
    ensures Zero(a, p) || Zero(b, p)
  {
    var r := a % p;
    if r != 0 {
      CongMod(a, p);
      CongRefl(b, p);
      CongMul(a, r, b, b, p);
      ZeroAdd(a * b, a * b - r * b, p);
      assert a * b - (a * b - r * b) == r * b;
      EuclidSmall(r, b, p);
    }
  }

  lemma {:induction false} EuclidSmall(r: nat, b: int, p: nat)
    requires IsPrime(p) && 0 < r < p && Zero(r * b, p)
    ensures Zero(b, p)
  {
    if r > 1 {
      var q, s := p / r, p % r;
      assert p == r * q + s;
      assert s != 0;
      ZeroMul(r * b, q, p);
      MultipleIsZero(b, p);
      ZeroAdd(b * p, q * (r * b), p);
      assert b * p - q * (r * b) == s * b by {
        assert b * (r * q + s) == b * (r * q) + b * s;
        assert b * (r * q) == q * (r * b);
      }
      EuclidSmall(s, b, p);
    } else {
      assert r * b == b;
    }
  }

  lemma NonZeroMul(a: int, b: int, p: nat)
    requires IsPrime(p) && !Zero(a, p) && !Zero(b, p)
    ensures !Zero(a * b, p)
  {
    if Zero(a * b, p) { Euclid(a, b, p); }
  }

  /** Cancelling a non-zero factor. */
  lemma Cancel(c: int, a: int, b: int, p: nat)
    requires IsPrime(p) && !Zero(c, p) && Cong(c * a, c * b, p)
    ensures Cong(a, b, p)
  {
    assert c * a - c * b == c * (a - b);
    Euclid(c, a - b, p);
  }

  // ----- powers

  function Pow(b: int, e: nat): int {
    if e == 0 then 1 else b * Pow(b, e - 1)
  }

  lemma {:induction false} PowAdd(b: int, m: nat, n: nat)
    ensures Pow(b, m + n) == Pow(b, m) * Pow(b, n)
  {
    if m > 0 {
      PowAdd(b, m - 1, n);
      MulSwap(b, Pow(b, m - 1), Pow(b, n));
    }
  }

  lemma {:induction false} PowMul(b: int, m: nat, n: nat)
    ensures m * n >= 0
    ensures Pow(b, m * n) == Pow(Pow(b, m), n)
  {
    if n > 0 {
      PowMul(b, m, n - 1);
      assert m * n == m + m * (n - 1);
      PowAdd(b, m, m * (n - 1));
    }
  }

  lemma {:induction false} PowProduct(a: int, b: int, n: nat)
    ensures Pow(a * b, n) == Pow(a, n) * Pow(b, n)
  {
    if n > 0 {
      PowProduct(a, b, n - 1);
      var x, y := Pow(a, n - 1), Pow(b, n - 1);
      MulCross(a, b, x, y);
    }
  }

  lemma {:induction false} PowCong(a: int, b: int, n: nat, p: nat)
    requires p > 0 && Cong(a, b, p)
    ensures Cong(Pow(a, n), Pow(b, n), p)
  {
    if n == 0 {
      CongRefl(1, p);
    } else {
      PowCong(a, b, n - 1, p);
      CongMul(a, b, Pow(a, n - 1), Pow(b, n - 1), p);
    }
  }

  lemma {:induction false} PowOne(n: nat)
    ensures Pow(1, n) == 1
  {
    if n > 0 { PowOne(n - 1); }
  }

  lemma {:induction false} PowMinusOne(n: nat)
    ensures Pow(-1, n) == if n % 2 == 0 then 1 else -1
  {
    if n > 0 { PowMinusOne(n - 1); }
  }

  // ----- Fermat's little theorem

  function Product(s: seq<nat>): nat {
    if s == [] then 1 else s[0] * Product(s[1..])
  }

  function Factorial(n: nat): nat {
    if n == 0 then 1 else n * Factorial(n - 1)
  }

  lemma {:induction false} ProductWithout(s: seq<nat>, k: nat)
    requires k < |s|
    ensures Product(s) == s[k] * Product(Without(s, k))
  {
    if k == 0 {
      assert Without(s, 0) == s[1..];
    } else {
      ProductWithout(s[1..], k - 1);
      assert Without(s, k)[1..] == Without(s[1..], k - 1);
      MulSwap(s[0], s[k], Product(Without(s[1..], k - 1)));
    }
  }

  /** A sequence of distinct numbers filling 1..n multiplies to n!. */
  lemma {:induction false} ProductOfPermutation(s: seq<nat>)
    requires Distinct(s) && forall i | 0 <= i < |s| :: 1 <= s[i] <= |s|
    ensures Product(s) == Factorial(|s|)
    decreases |s|
  {
    var n := |s|;
    if n > 0 {
      var k := Largest(s);
      ProductWithout(s, k);
      RestIsSmaller(s, k);
      ProductOfPermutation(Without(s, k));
    }
  }

  lemma Largest(s: seq<nat>) returns (k: nat)
    requires s != [] && Distinct(s) && forall i | 0 <= i < |s| :: 1 <= s[i] <= |s|
    ensures k < |s| && s[k] == |s|
  {
    var n := |s|;
    var w: seq<nat> := seq(n, i requires 0 <= i < n => s[i] - 1);
    PermutationCovers(w, n);
    assert n - 1 in Elements(w);
    k :| 0 <= k < n && w[k] == n - 1;
  }

  lemma RestIsSmaller(s: seq<nat>, k: nat)
    requires Distinct(s) && forall i | 0 <= i < |s| :: 1 <= s[i] <= |s|
    requires k < |s| && s[k] == |s|
    ensures Distinct(Without(s, k))
    ensures forall i | 0 <= i < |s| - 1 :: 1 <= Without(s, k)[i] <= |s| - 1
  {
    var r := Without(s, k);
    forall i | 0 <= i < |r| ensures 1 <= r[i] <= |r| {
      var j := if i < k then i else i + 1;
      assert r[i] == s[j] && s[j] != s[k];
    }
    forall i, j | 0 <= i < j < |r| ensures r[i] != r[j] {
      var i', j' := if i < k then i else i + 1, if j < k then j else j + 1;
      assert r[i] == s[i'] && r[j] == s[j'] && i' < j';
    }
  }

  /** The residues of a, 2a, .., na. */
  function Multiples(a: int, n: nat, p: nat): (r: seq<nat>)
    requires p > 0
    ensures |r| == n && forall i | 0 <= i < n :: r[i] == ((i + 1) * a) % p
  {
    seq(n, i requires 0 <= i < n => ((i + 1) * a) % p)
  }

  lemma {:induction false} ProductSnoc(s: seq<nat>, x: nat)
    ensures Product(s + [x]) == Product(s) * x
  {
    if s == [] {
      assert [] + [x] == [x];
    } else {
      ProductSnoc(s[1..], x);
      assert (s + [x])[1..] == s[1..] + [x];
      MulSwap(s[0], Product(s[1..]), x);
    }
  }

  lemma {:induction false} ProductOfMultiples(a: int, n: nat, p: nat)
    requires p > 0
    ensures Cong(Product(Multiples(a, n, p)), Pow(a, n) * Factorial(n), p)
  {
    if n == 0 {
      CongRefl(1, p);
    } else {
      var s, last := Multiples(a, n - 1, p), (n * a) % p;
      assert Multiples(a, n, p) == s + [last];
      ProductSnoc(s, last);
      ProductOfMultiples(a, n - 1, p);
      CongMod(n * a, p);
      CongMul(Product(s), Pow(a, n - 1) * Factorial(n - 1), last, n * a, p);
      var x, f := Pow(a, n - 1), Factorial(n - 1);
      MulCross(x, f, a, n);
      assert n * a == a * n && a * x == x * a && n * f == f * n;
    }
  }

  lemma {:induction false} FactorialNonZero(n: nat, p: nat)
    requires IsPrime(p) && n < p
    ensures !Zero(Factorial(n), p)
  {
    if n > 0 {
      FactorialNonZero(n - 1, p);
      SmallNonZero(n, p);
      NonZeroMul(n, Factorial(n - 1), p);
    }
  }

  lemma MultiplesPermute(a: int, p: nat)
    requires IsPrime(p) && !Zero(a, p)
    ensures var s := Multiples(a, p - 1, p);
            Distinct(s) && forall i | 0 <= i < |s| :: 1 <= s[i] <= |s|
  {
    var s := Multiples(a, p - 1, p);
    forall i | 0 <= i < p - 1 ensures 1 <= s[i] <= p - 1 {
      SmallNonZero(i + 1, p);
      NonZeroMul(i + 1, a, p);
    }
    forall i, j | 0 <= i < j < p - 1 ensures s[i] != s[j] {
      DifferentResidues(a, i + 1, j + 1, p);
    }
  }

  lemma DifferentResidues(a: int, i: nat, j: nat, p: nat)
    requires IsPrime(p) && !Zero(a, p) && i < j < i + p
    ensures (i * a) % p != (j * a) % p
  {
    var x, y := j * a, i * a;
    SmallNonZero(j - i, p);
    NonZeroMul(j - i, a, p);
    assert !Zero(x - y, p) by {
      Dist(a, j, i);
    }
    ResiduesDiffer(x, y, p);
  }

  lemma ResiduesDiffer(x: int, y: int, p: nat)
    requires p > 0 && !Zero(x - y, p)
    ensures y % p != x % p
  {
    CongResidue(x, y, p);
  }

  lemma Fermat(a: int, p: nat)
    requires IsPrime(p) && !Zero(a, p)
    ensures Cong(Pow(a, p - 1), 1, p)
  {
    var s, f := Multiples(a, p - 1, p), Factorial(p - 1);
    MultiplesPermute(a, p);
    ProductOfPermutation(s);
    ProductOfMultiples(a, p - 1, p);
    CongSym(f, Pow(a, p - 1) * f, p);
    FactorialNonZero(p - 1, p);
    assert Pow(a, p - 1) * f == f * Pow(a, p - 1) && f == f * 1;
    Cancel(f, Pow(a, p - 1), 1, p);
  }

  /** Fermat as an inverse: a * a^(p-2) is 1. */
  lemma FermatInverse(a: int, p: nat)
    requires IsPrime(p) && !Zero(a, p)
    ensures Cong(a * Pow(a, p - 2), 1, p)
  {
    Fermat(a, p);
    assert Pow(a, p - 1) == a * Pow(a, p - 2);
  }
}
