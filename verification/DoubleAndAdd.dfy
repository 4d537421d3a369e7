/** Double-and-add over any addition that is a commutative monoid up to an equivalence. */
module DoubleAndAdd {

  /** An addition with a zero, an equivalence, and the values on which its laws hold. */
  datatype Addition<!T> = Addition(zero: T, add: (T, T) -> T, eq: (T, T) -> bool, valid: T -> bool)

  /** Everything but associativity. */
  ghost predicate Laws<T(!new)>(m: Addition<T>) {
    && m.valid(m.zero)
    && (forall p {:trigger m.eq(p, p)} :: m.valid(p) ==> m.eq(p, p))
    && (forall p, q {:trigger m.eq(p, q)} :: m.eq(p, q) ==> m.eq(q, p))
    && (forall p, q, r {:trigger m.eq(p, q), m.eq(q, r)} :: m.valid(q) && m.eq(p, q) && m.eq(q, r) ==> m.eq(p, r))
    && (forall p, q {:trigger m.add(p, q)} :: m.valid(p) && m.valid(q) ==> m.valid(m.add(p, q)))
    && (forall p, q {:trigger m.add(p, q)} :: m.add(p, q) == m.add(q, p))
    && (forall p {:trigger m.add(p, m.zero)} :: m.valid(p) ==> m.eq(m.add(p, m.zero), p))
    && (forall p, p', q {:trigger m.add(p, q), m.add(p', q)} ::
          m.valid(p) && m.valid(p') && m.valid(q) && m.eq(p, p') ==> m.eq(m.add(p, q), m.add(p', q)))
  }

  ghost predicate Associates<T(!new)>(m: Addition<T>) {
    forall p, q, r {:trigger m.add(m.add(p, q), r)} | m.valid(p) && m.valid(q) && m.valid(r) ::
      m.eq(m.add(m.add(p, q), r), m.add(p, m.add(q, r)))
  }

  /** The double-and-add loop from a given state on. */
  function Ladder<T>(add: (T, T) -> T, result: T, addend: T, scalar: nat): T
    decreases scalar
  {
    if scalar == 0 then result
    else Ladder(add, if scalar % 2 == 1 then add(result, addend) else result, add(addend, addend), scalar / 2)
  }

  /** `p` added to zero `n` times. */
  function Times<T>(add: (T, T) -> T, zero: T, p: T, n: nat): T {
    if n == 0 then zero else add(Times(add, zero, p, n - 1), p)
  }

  ghost function Multiple<T>(m: Addition<T>, p: T, n: nat): T {
    Times(m.add, m.zero, p, n)
  }

  lemma EqAdd<T(!new)>(m: Addition<T>, p: T, p': T, q: T, q': T)
    requires Laws(m) && m.valid(p) && m.valid(p') && m.valid(q) && m.valid(q')
    requires m.eq(p, p') && m.eq(q, q')
    ensures m.eq(m.add(p, q), m.add(p', q'))
  {
    assert m.eq(m.add(p, q), m.add(p', q));
    assert m.add(p', q) == m.add(q, p') && m.add(q', p') == m.add(p', q');
    assert m.eq(m.add(q, p'), m.add(q', p'));
  }

  lemma EqTrans<T(!new)>(m: Addition<T>, p: T, q: T, r: T)
    requires Laws(m) && m.valid(q) && m.eq(p, q) && m.eq(q, r)
    ensures m.eq(p, r)
  {
  }

  lemma {:induction false} MultipleValid<T(!new)>(m: Addition<T>, p: T, n: nat)
    requires Laws(m) && m.valid(p)
    ensures m.valid(Multiple(m, p, n))
  {
    if n > 0 { MultipleValid(m, p, n - 1); }
  }

  lemma {:induction false} MultipleAdd<T(!new)>(m: Addition<T>, p: T, a: nat, b: nat)
    requires Laws(m) && Associates(m) && m.valid(p)
    ensures m.eq(Multiple(m, p, a + b), m.add(Multiple(m, p, a), Multiple(m, p, b)))
  {
    MultipleValid(m, p, a);
    if b > 0 {
      MultipleAdd(m, p, a, b - 1);
      MultipleValid(m, p, b - 1);
      MultipleValid(m, p, a + (b - 1));
      var x, y, w := Multiple(m, p, a), Multiple(m, p, b - 1), Multiple(m, p, a + (b - 1));
      assert Multiple(m, p, a + b) == m.add(w, p);
      assert m.eq(m.add(w, p), m.add(m.add(x, y), p));
      assert m.eq(m.add(m.add(x, y), p), m.add(x, m.add(y, p)));
      EqTrans(m, m.add(w, p), m.add(m.add(x, y), p), m.add(x, m.add(y, p)));
    }
  }

  lemma {:induction false} MultipleDouble<T(!new)>(m: Addition<T>, p: T, k: nat)
    requires Laws(m) && Associates(m) && m.valid(p)
    ensures m.eq(Multiple(m, m.add(p, p), k), Multiple(m, p, 2 * k))
  {
    if k > 0 {
      var d := m.add(p, p);
      var a, b := Multiple(m, d, k - 1), Multiple(m, p, 2 * (k - 1));
      MultipleDouble(m, p, k - 1);
      MultipleValid(m, d, k - 1);
      MultipleValid(m, p, 2 * (k - 1));
      assert m.eq(m.add(a, d), m.add(b, d));
      assert m.eq(m.add(m.add(b, p), p), m.add(b, d));
      assert Multiple(m, p, 2 * k) == m.add(Multiple(m, p, 2 * k - 1), p);
      assert Multiple(m, p, 2 * k - 1) == m.add(b, p);
      EqTrans(m, m.add(a, d), m.add(b, d), m.add(m.add(b, p), p));
    }
  }

  lemma {:induction false} LadderValid<T(!new)>(m: Addition<T>, result: T, addend: T, scalar: nat)
    requires Laws(m) && m.valid(result) && m.valid(addend)
    ensures m.valid(Ladder(m.add, result, addend, scalar))
    decreases scalar
  {
    if scalar != 0 {
      LadderValid(m, if scalar % 2 == 1 then m.add(result, addend) else result, m.add(addend, addend), scalar / 2);
    }
  }

  lemma EvenStep<T(!new)>(m: Addition<T>, l: T, next: T, x: T, y: T)
    requires Laws(m) && m.valid(next) && m.valid(x) && m.valid(y)
    requires m.eq(l, m.add(next, x)) && m.eq(x, y)
    ensures m.eq(l, m.add(next, y))
  {
    assert m.eq(next, next);
    EqAdd(m, next, next, x, y);
    EqTrans(m, l, m.add(next, x), m.add(next, y));
  }

  lemma OddStep<T(!new)>(m: Addition<T>, l: T, result: T, addend: T, y: T)
    requires Laws(m) && Associates(m) && m.valid(result) && m.valid(addend) && m.valid(y)
    requires m.eq(l, m.add(m.add(result, addend), y))
    ensures m.eq(l, m.add(result, m.add(y, addend)))
  {
    assert m.add(addend, y) == m.add(y, addend);
    EqTrans(m, l, m.add(m.add(result, addend), y), m.add(result, m.add(addend, y)));
  }

  lemma DoubledMultiple<T(!new)>(m: Addition<T>, p: T, k: nat)
    requires Laws(m) && Associates(m) && m.valid(p)
    ensures m.valid(Multiple(m, m.add(p, p), k)) && m.valid(Multiple(m, p, 2 * k))
    ensures m.eq(Multiple(m, m.add(p, p), k), Multiple(m, p, 2 * k))
    ensures Multiple(m, p, 2 * k + 1) == m.add(Multiple(m, p, 2 * k), p)
  {
    MultipleDouble(m, p, k);
    MultipleValid(m, m.add(p, p), k);
    MultipleValid(m, p, 2 * k);
  }

  lemma LadderStep<T(!new)>(m: Addition<T>, l: T, result: T, addend: T, scalar: nat)
    requires Laws(m) && Associates(m) && m.valid(result) && m.valid(addend)
    requires var next := if scalar % 2 == 1 then m.add(result, addend) else result;
             m.eq(l, m.add(next, Multiple(m, m.add(addend, addend), scalar / 2)))
    ensures m.eq(l, m.add(result, Multiple(m, addend, scalar)))
  {
    var k := scalar / 2;
    DoubledMultiple(m, addend, k);
    var x, y := Multiple(m, m.add(addend, addend), k), Multiple(m, addend, 2 * k);
    if scalar % 2 == 1 {
      EvenStep(m, l, m.add(result, addend), x, y);
      OddStep(m, l, result, addend, y);
    } else {
      EvenStep(m, l, result, x, y);
    }
  }

  /** The loop adds `scalar` copies of `addend` to `result`. */
  lemma {:induction false} LadderIsMultiple<T(!new)>(m: Addition<T>, result: T, addend: T, scalar: nat)
    requires Laws(m) && Associates(m) && m.valid(result) && m.valid(addend)
    ensures m.eq(Ladder(m.add, result, addend, scalar), m.add(result, Multiple(m, addend, scalar)))
    decreases scalar
  {
    if scalar != 0 {
      var next := if scalar % 2 == 1 then m.add(result, addend) else result;
      LadderIsMultiple(m, next, m.add(addend, addend), scalar / 2);
      LadderStep(m, Ladder(m.add, result, addend, scalar), result, addend, scalar);
    }
  }

  /** From zero, the loop computes the multiple. */
  lemma LadderFromZero<T(!new)>(m: Addition<T>, p: T, n: nat)
    requires Laws(m) && Associates(m) && m.valid(p)
    ensures m.eq(Ladder(m.add, m.zero, p, n), Multiple(m, p, n))
  {
    LadderIsMultiple(m, m.zero, p, n);
    MultipleValid(m, p, n);
    var q := Multiple(m, p, n);
    assert m.add(m.zero, q) == m.add(q, m.zero);
  }

  lemma LadderAdd<T(!new)>(m: Addition<T>, p: T, a: nat, b: nat)
    requires Laws(m) && Associates(m) && m.valid(p)
    ensures m.eq(Ladder(m.add, m.zero, p, a + b), m.add(Ladder(m.add, m.zero, p, a), Ladder(m.add, m.zero, p, b)))
  {
    LadderFromZero(m, p, a);
    LadderFromZero(m, p, b);
    LadderFromZero(m, p, a + b);
    LadderValid(m, m.zero, p, a);
    LadderValid(m, m.zero, p, b);
    MultipleValid(m, p, a);
    MultipleValid(m, p, b);
    MultipleValid(m, p, a + b);
    MultipleAdd(m, p, a, b);
    AddChain(m, Ladder(m.add, m.zero, p, a + b), Multiple(m, p, a + b),
      Multiple(m, p, a), Multiple(m, p, b), Ladder(m.add, m.zero, p, a), Ladder(m.add, m.zero, p, b));
  }

  lemma AddChain<T(!new)>(m: Addition<T>, l: T, s: T, x: T, y: T, x': T, y': T)
    requires Laws(m) && m.valid(s) && m.valid(x) && m.valid(y) && m.valid(x') && m.valid(y')
    requires m.eq(l, s) && m.eq(s, m.add(x, y)) && m.eq(x', x) && m.eq(y', y)
    ensures m.eq(l, m.add(x', y'))
  {
    EqAdd(m, x', x, y', y);
    EqTrans(m, l, s, m.add(x, y));
    EqTrans(m, l, m.add(x, y), m.add(x', y'));
  }

  lemma {:induction false} LadderRespects<T(!new)>(m: Addition<T>, r: T, r': T, a: T, a': T, n: nat)
    requires Laws(m) && m.valid(r) && m.valid(r') && m.valid(a) && m.valid(a')
    requires m.eq(r, r') && m.eq(a, a')
    ensures m.eq(Ladder(m.add, r, a, n), Ladder(m.add, r', a', n))
    decreases n
  {
    if n != 0 {
      EqAdd(m, r, r', a, a');
      EqAdd(m, a, a', a, a');
      LadderRespects(m,
        if n % 2 == 1 then m.add(r, a) else r, if n % 2 == 1 then m.add(r', a') else r',
        m.add(a, a), m.add(a', a'), n / 2);
    }
  }

  /** Adding multiples of something equal to zero changes nothing. */
  lemma {:induction false} LadderOfZero<T(!new)>(m: Addition<T>, result: T, addend: T, n: nat)
    requires Laws(m) && m.valid(result) && m.valid(addend) && m.eq(addend, m.zero)
    ensures m.eq(Ladder(m.add, result, addend, n), result)
    decreases n
  {
    if n != 0 {
      EqAdd(m, result, result, addend, m.zero);
      assert m.eq(m.add(result, addend), result);
      EqAdd(m, addend, m.zero, addend, m.zero);
      assert m.eq(m.add(m.zero, m.zero), m.zero);
      var next := if n % 2 == 1 then m.add(result, addend) else result;
      LadderOfZero(m, next, m.add(addend, addend), n / 2);
      EqTrans(m, Ladder(m.add, next, m.add(addend, addend), n / 2), next, result);
    }
  }

  /** An odd multiple of an element of order two is that element; associativity is not needed. */
  lemma LadderOfOrderTwo<T(!new)>(m: Addition<T>, p: T, n: nat)
    requires Laws(m) && m.valid(p) && m.eq(m.add(p, p), m.zero) && n % 2 == 1
    ensures m.eq(Ladder(m.add, m.zero, p, n), p)
  {
    var first := m.add(m.zero, p);
    assert first == m.add(p, m.zero) && m.eq(first, p);
    LadderOfZero(m, first, m.add(p, p), n / 2);
    EqTrans(m, Ladder(m.add, first, m.add(p, p), n / 2), first, p);
  }
}
