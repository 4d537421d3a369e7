/** Multiples of an element whose n-th multiple is zero. */
module ElementOrder {
  import opened PrimeField
  import opened DoubleAndAdd

  lemma {:induction false} MultipleOfZero<T(!new)>(m: Addition<T>, p: T, n: nat)
    requires Laws(m) && m.valid(p) && m.eq(p, m.zero)
    ensures m.eq(Multiple(m, p, n), m.zero)
  {
    if n == 0 {
      assert m.eq(m.zero, m.zero);
    } else {
      MultipleOfZero(m, p, n - 1);
      MultipleValid(m, p, n - 1);
      var q := Multiple(m, p, n - 1);
      EqAdd(m, q, m.zero, p, m.zero);
      assert m.eq(m.add(m.zero, m.zero), m.zero);
      EqTrans(m, m.add(q, p), m.add(m.zero, m.zero), m.zero);
    }
  }

  lemma {:induction false} MultipleMul<T(!new)>(m: Addition<T>, p: T, a: nat, b: nat)
    requires Laws(m) && Associates(m) && m.valid(p)
    ensures a * b >= 0
    ensures m.eq(Multiple(m, Multiple(m, p, a), b), Multiple(m, p, a * b))
  {
    var q := Multiple(m, p, a);
    MultipleValid(m, p, a);
    if b == 0 {
      assert m.eq(m.zero, m.zero);
    } else {
      MultipleMul(m, p, a, b - 1);
      var c: nat := a * (b - 1);
      assert a * b == c + a;
      MultipleAdd(m, p, c, a);
      MultipleValid(m, q, b - 1);
      MultipleValid(m, p, c);
      MultipleValid(m, p, c + a);
      var s, t := Multiple(m, q, b - 1), Multiple(m, p, c);
      assert m.eq(q, q);
      EqAdd(m, s, t, q, q);
      EqTrans(m, m.add(s, q), m.add(t, q), Multiple(m, p, c + a));
    }
  }

  /** Zero on the left can be dropped. */
  lemma DropZero<T(!new)>(m: Addition<T>, l: T, z: T, x: T)
    requires Laws(m) && m.valid(z) && m.valid(x) && m.eq(l, m.add(z, x)) && m.eq(z, m.zero)
    ensures m.eq(l, x)
  {
    assert m.eq(x, x);
    EqAdd(m, z, m.zero, x, x);
    assert m.add(m.zero, x) == m.add(x, m.zero);
    EqTrans(m, l, m.add(z, x), m.add(m.zero, x));
    EqTrans(m, l, m.add(x, m.zero), x);
  }

  /** Scalars may be reduced modulo the order. */
  lemma MultipleReduce<T(!new)>(m: Addition<T>, p: T, n: nat, a: nat)
    requires Laws(m) && Associates(m) && m.valid(p) && n > 0 && m.eq(Multiple(m, p, n), m.zero)
    ensures m.eq(Multiple(m, p, a), Multiple(m, p, a % n))
  {
    var q: nat, r: nat := a / n, a % n;
    assert a == n * q + r;
    MultipleMul(m, p, n, q);
    MultipleValid(m, p, n);
    MultipleOfZero(m, Multiple(m, p, n), q);
    MultipleValid(m, Multiple(m, p, n), q);
    var nq: nat := n * q;
    MultipleValid(m, p, nq);
    MultipleValid(m, p, r);
    EqTrans(m, Multiple(m, p, nq), Multiple(m, Multiple(m, p, n), q), m.zero);
    MultipleAdd(m, p, nq, r);
    DropZero(m, Multiple(m, p, a), Multiple(m, p, nq), Multiple(m, p, r));
  }

  /** If the a-th and the (a+b)-th multiple are zero, so is the b-th. */
  lemma DifferenceIsZero<T(!new)>(m: Addition<T>, p: T, a: nat, b: nat)
    requires Laws(m) && Associates(m) && m.valid(p)
    requires m.eq(Multiple(m, p, a), m.zero) && m.eq(Multiple(m, p, a + b), m.zero)
    ensures m.eq(Multiple(m, p, b), m.zero)
  {
    MultipleAdd(m, p, a, b);
    MultipleValid(m, p, a);
    MultipleValid(m, p, b);
    MultipleValid(m, p, a + b);
    DropZero(m, Multiple(m, p, a + b), Multiple(m, p, a), Multiple(m, p, b));
    EqTrans(m, Multiple(m, p, b), Multiple(m, p, a + b), m.zero);
  }

  /** An element killed by a prime n and by some 0 < k < n is zero. */
  lemma {:induction false} KilledTwice<T(!new)>(m: Addition<T>, p: T, n: nat, k: nat)
    requires Laws(m) && Associates(m) && m.valid(p) && IsPrime(n) && 0 < k < n
    requires m.eq(Multiple(m, p, n), m.zero) && m.eq(Multiple(m, p, k), m.zero)
    ensures m.eq(p, m.zero)
  {
    if k == 1 {
      assert Multiple(m, p, 1) == m.add(Multiple(m, p, 0), p) == m.add(m.zero, p) == m.add(p, m.zero);
      assert m.eq(p, m.add(p, m.zero));
      EqTrans(m, p, m.add(p, m.zero), m.zero);
    } else {
      var r: nat := n % k;
      assert n == k * (n / k) + r;
      MultipleReduce(m, p, k, n);
      MultipleValid(m, p, n);
      EqTrans(m, Multiple(m, p, r), Multiple(m, p, n), m.zero);
      KilledTwice(m, p, n, r);
    }
  }

  /** Below a prime order, different scalars give different multiples. */
  lemma MultiplesDiffer<T(!new)>(m: Addition<T>, p: T, n: nat, a: nat, b: nat)
    requires Laws(m) && Associates(m) && m.valid(p) && IsPrime(n) && a < n && b < n
    requires m.eq(Multiple(m, p, n), m.zero) && !m.eq(p, m.zero)
    requires m.eq(Multiple(m, p, a), Multiple(m, p, b))
    ensures a == b
  {
    if a < b {
      SmallerDiffers(m, p, n, a, b - a);
    } else if b < a {
      assert m.eq(Multiple(m, p, b), Multiple(m, p, a));
      SmallerDiffers(m, p, n, b, a - b);
    }
  }

  lemma SmallerDiffers<T(!new)>(m: Addition<T>, p: T, n: nat, a: nat, k: nat)
    requires Laws(m) && Associates(m) && m.valid(p) && IsPrime(n) && 0 < k && a + k < n
    requires m.eq(Multiple(m, p, n), m.zero) && m.eq(Multiple(m, p, a), Multiple(m, p, a + k))
    ensures m.eq(p, m.zero)
  {
    // add the complement n - a on both sides
    var c: nat := n - a;
    var x, y, z := Multiple(m, p, c), Multiple(m, p, a), Multiple(m, p, a + k);
    MultipleValid(m, p, c);
    MultipleValid(m, p, a);
    MultipleValid(m, p, a + k);
    MultipleValid(m, p, n);
    MultipleValid(m, p, n + k);
    assert m.eq(x, x);
    EqAdd(m, x, x, z, y);
    MultipleAdd(m, p, c, a + k);
    MultipleAdd(m, p, c, a);
    assert c + (a + k) == n + k && c + a == n;
    EqTrans(m, Multiple(m, p, n + k), m.add(x, z), m.add(x, y));
    EqTrans(m, Multiple(m, p, n + k), m.add(x, y), Multiple(m, p, n));
    EqTrans(m, Multiple(m, p, n + k), Multiple(m, p, n), m.zero);
    DifferenceIsZero(m, p, n, k);
    KilledTwice(m, p, n, k);
  }

  /** An inverse on the left undoes an addition. */
  lemma Undo<T(!new)>(m: Addition<T>, c: T, p: T, x: T)
    requires Laws(m) && Associates(m) && m.valid(c) && m.valid(p) && m.valid(x) && m.eq(m.add(c, p), m.zero)
    ensures m.eq(m.add(c, m.add(p, x)), x)
  {
    assert m.eq(m.add(m.add(c, p), x), m.add(c, m.add(p, x)));
    DropZero(m, m.add(c, m.add(p, x)), m.add(c, p), x);
  }

  /** An element that some positive scalar kills can be cancelled. */
  lemma CancelLeft<T(!new)>(m: Addition<T>, p: T, n: nat, x: T, y: T)
    requires Laws(m) && Associates(m) && m.valid(p) && m.valid(x) && m.valid(y)
    requires n > 0 && m.eq(Multiple(m, p, n), m.zero) && m.eq(m.add(p, x), m.add(p, y))
    ensures m.eq(x, y)
  {
    var c := Multiple(m, p, n - 1);
    MultipleValid(m, p, n - 1);
    assert m.add(c, p) == Multiple(m, p, n);
    Undo(m, c, p, x);
    Undo(m, c, p, y);
    assert m.eq(c, c);
    EqAdd(m, c, c, m.add(p, x), m.add(p, y));
    EqTrans(m, x, m.add(c, m.add(p, x)), m.add(c, m.add(p, y)));
    EqTrans(m, x, m.add(c, m.add(p, y)), y);
  }
}
