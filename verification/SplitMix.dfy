/** The SplitMix64 generator on Python integers masked to 64 bits, and its output bijection. */
module SplitMix {
  import opened Bits
  import opened PrimeField

  const WORD: nat := 0x1_0000_0000_0000_0000
  const GAMMA: nat := 0x9E3779B97F4A7C15
  const FIRST: nat := 0xBF58476D1CE4E5B9
  const SECOND: nat := 0x94D049BB133111EB

  // Inverses of the three odd constants modulo 2^64.
  const GAMMA_INVERSE: nat := 0xF1DE83E19937733D
  const FIRST_INVERSE: nat := 0x96DE1B173F119089
  const SECOND_INVERSE: nat := 0x319642B2D24D8EC3

  function XorShift(v: nat, k: nat): nat {
    Xor(v, Shr(v, k))
  }

  /** `(v ^ (v >> 30)) * FIRST & MASK64`, and so on: the output as a function of the state. */
  function Mix(state: nat): nat {
    var v := (XorShift(state, 30) * FIRST) % WORD;
    var w := (XorShift(v, 27) * SECOND) % WORD;
    XorShift(w, 31) % WORD
  }

  function NextState(state: nat): nat {
    (state + GAMMA) % WORD
  }

  function StateAfter(seed: nat, draws: nat): nat {
    if draws == 0 then seed else NextState(StateAfter(seed, draws - 1))
  }

  function Output(seed: nat, draw: nat): nat {
    Mix(StateAfter(seed, draw))
  }

  // ----- xor-shift is invertible

  lemma XorSelf(a: nat)
    ensures Xor(a, a) == 0
  {
    if a > 0 { XorSelf(a / 2); }
  }

  lemma XorAssociates(a: nat, b: nat, c: nat)
    ensures Xor(Xor(a, b), c) == Xor(a, Xor(b, c))
  {
    forall i: nat ensures Bit(Xor(Xor(a, b), c), i) == Bit(Xor(a, Xor(b, c)), i) {
      XorBit(a, b, i);
      XorBit(Xor(a, b), c, i);
      XorBit(b, c, i);
      XorBit(a, Xor(b, c), i);
    }
    SameBits(Xor(Xor(a, b), c), Xor(a, Xor(b, c)));
  }

  lemma {:induction false} XorShr(a: nat, b: nat, k: nat)
    ensures Shr(Xor(a, b), k) == Xor(Shr(a, k), Shr(b, k))
  {
    forall i: nat ensures Bit(Shr(Xor(a, b), k), i) == Bit(Xor(Shr(a, k), Shr(b, k)), i) {
      ShrBit(Xor(a, b), k, i);
      XorBit(a, b, i + k);
      ShrBit(a, k, i);
      ShrBit(b, k, i);
      XorBit(Shr(a, k), Shr(b, k), i);
    }
    SameBits(Shr(Xor(a, b), k), Xor(Shr(a, k), Shr(b, k)));
  }

  lemma {:induction false} ShrSmaller(v: nat, k: nat)
    requires v > 0 && k > 0
    ensures Shr(v, k) < v
  {
    ShrAtMost(v / 2, k - 1);
  }

  lemma {:induction false} ShrAtMost(v: nat, k: nat)
    ensures Shr(v, k) <= v
  {
    if k > 0 {
      ShrAtMost(v / 2, k - 1);
    }
  }

  lemma ShrZero(k: nat)
    ensures Shr(0, k) == 0
  {
    ShrAtMost(0, k);
  }

  /** w ^ (w >> k) ^ (w >> 2k) ^ .. */
  function UnXorShift(w: nat, k: nat): nat
    requires k > 0
    decreases w
  {
    if w == 0 then 0
    else
      ShrSmaller(w, k);
      Xor(w, UnXorShift(Shr(w, k), k))
  }

  lemma XorCancel(a: nat, b: nat)
    ensures Xor(Xor(a, b), b) == a
  {
    XorAssociates(a, b, b);
    XorSelf(b);
  }

  lemma {:induction false} UnXorShiftOfXorShift(v: nat, k: nat)
    requires k > 0
    ensures UnXorShift(XorShift(v, k), k) == v
  {
    if v == 0 {
      ShrZero(k);
    } else {
      var u := Shr(v, k);
      ShrSmaller(v, k);
      XorShr(v, u, k);
      assert Shr(XorShift(v, k), k) == XorShift(u, k);
      UnXorShiftOfXorShift(u, k);
      XorCancel(v, u);
    }
  }

  lemma {:induction false} XorShiftOfUnXorShift(w: nat, k: nat)
    requires k > 0
    ensures XorShift(UnXorShift(w, k), k) == w
    decreases w
  {
    if w == 0 {
      ShrZero(k);
    } else {
      var s := Shr(w, k);
      ShrSmaller(w, k);
      XorShiftOfUnXorShift(s, k);
      var u := UnXorShift(s, k);
      XorShr(w, u, k);
      // (w ^ u) >> k = s ^ (u >> k), and u ^ (u >> k) = s
      var t := Shr(u, k);
      assert Xor(u, t) == s;
      XorCancel(u, t);
      assert Xor(s, t) == u;
      XorCancel(w, u);
    }
  }

  lemma {:induction false} XorBelow(a: nat, b: nat, n: nat)
    requires a < Pow2(n) && b < Pow2(n)
    ensures Xor(a, b) < Pow2(n)
  {
    if n > 0 && a > 0 && b > 0 { XorBelow(a / 2, b / 2, n - 1); }
  }

  lemma XorShiftBelow(v: nat, k: nat, n: nat)
    requires v < Pow2(n)
    ensures XorShift(v, k) < Pow2(n)
  {
    ShrAtMost(v, k);
    XorBelow(v, Shr(v, k), n);
  }

  lemma {:induction false} UnXorShiftBelow(w: nat, k: nat, n: nat)
    requires k > 0 && w < Pow2(n)
    ensures UnXorShift(w, k) < Pow2(n)
    decreases w
  {
    if w > 0 {
      ShrSmaller(w, k);
      UnXorShiftBelow(Shr(w, k), k, n);
      XorBelow(w, UnXorShift(Shr(w, k), k), n);
    }
  }

  lemma WordIsPow2()
    ensures Pow2(64) == WORD
  {
    assert Pow2(2) == 4 && Pow2(4) == 16;
    Pow2Add(4, 4);
    Pow2Add(8, 8);
    Pow2Add(16, 16);
    Pow2Add(32, 32);
  }

  // ----- multiplication by an odd constant is invertible

  lemma MulInverse(v: nat, c: nat, inverse: nat, m: nat)
    requires v < m && Cong(c * inverse, 1, m)
    ensures (((v * c) % m) * inverse) % m == v
  {
    var w := (v * c) % m;
    CongMod(v * c, m);
    CongRefl(inverse, m);
    CongMul(w, v * c, inverse, inverse, m);
    CongRefl(v, m);
    CongMul(v, v, c * inverse, 1, m);
    MulSwap(v, c, inverse);
    CongTrans(w * inverse, (v * c) * inverse, v, m);
    CongMod(w * inverse, m);
    CongTrans((w * inverse) % m, w * inverse, v, m);
    CongSmall((w * inverse) % m, v, m);
  }

  lemma InverseConstants()
    ensures Cong(GAMMA * GAMMA_INVERSE, 1, WORD)
    ensures Cong(FIRST * FIRST_INVERSE, 1, WORD) && Cong(FIRST_INVERSE * FIRST, 1, WORD)
    ensures Cong(SECOND * SECOND_INVERSE, 1, WORD) && Cong(SECOND_INVERSE * SECOND, 1, WORD)
  {
  }

  // ----- the output function is a bijection on 64-bit words

  /** One round: xor-shift, then multiply. */
  function Round(v: nat, k: nat, c: nat, m: nat): nat
    requires m > 0
  {
    (XorShift(v, k) * c) % m
  }

  function UnRound(w: nat, k: nat, inverse: nat, m: nat): nat
    requires k > 0 && m > 0
  {
    UnXorShift((w * inverse) % m, k)
  }

  lemma RoundInverts(v: nat, k: nat, c: nat, inverse: nat, m: nat, n: nat)
    requires k > 0 && m == Pow2(n) && v < m && Cong(c * inverse, 1, m) && Cong(inverse * c, 1, m)
    ensures UnRound(Round(v, k, c, m), k, inverse, m) == v && Round(v, k, c, m) < m
    ensures Round(UnRound(v, k, inverse, m), k, c, m) == v && UnRound(v, k, inverse, m) < m
  {
    XorShiftBelow(v, k, n);
    MulInverse(XorShift(v, k), c, inverse, m);
    UnXorShiftOfXorShift(v, k);
    var w := (v * inverse) % m;
    UnXorShiftBelow(w, k, n);
    XorShiftOfUnXorShift(w, k);
    MulInverse(v, inverse, c, m);
  }

  function Unmix(output: nat): nat {
    UnRound(UnRound(UnXorShift(output, 31), 27, SECOND_INVERSE, WORD), 30, FIRST_INVERSE, WORD)
  }

  /** Mix maps 64-bit words one to one onto 64-bit words. */
  lemma MixIsBijection(v: nat)
    requires v < WORD
    ensures Mix(v) < WORD && Unmix(Mix(v)) == v
    ensures Unmix(v) < WORD && Mix(Unmix(v)) == v
  {
    WordIsPow2();
    InverseConstants();
    MixForward(v, WORD);
    MixBackward(v, WORD);
  }

  lemma MixForward(v: nat, m: nat)
    requires m == Pow2(64) == WORD && v < m
    requires Cong(FIRST * FIRST_INVERSE, 1, m) && Cong(FIRST_INVERSE * FIRST, 1, m)
    requires Cong(SECOND * SECOND_INVERSE, 1, m) && Cong(SECOND_INVERSE * SECOND, 1, m)
    ensures Mix(v) < m && Unmix(Mix(v)) == v
  {
    RoundInverts(v, 30, FIRST, FIRST_INVERSE, m, 64);
    var a := Round(v, 30, FIRST, m);
    RoundInverts(a, 27, SECOND, SECOND_INVERSE, m, 64);
    var b := Round(a, 27, SECOND, m);
    XorShiftBelow(b, 31, 64);
    UnXorShiftOfXorShift(b, 31);
    ModSmall(XorShift(b, 31), m);
  }

  lemma MixBackward(v: nat, m: nat)
    requires m == Pow2(64) == WORD && v < m
    requires Cong(FIRST * FIRST_INVERSE, 1, m) && Cong(FIRST_INVERSE * FIRST, 1, m)
    requires Cong(SECOND * SECOND_INVERSE, 1, m) && Cong(SECOND_INVERSE * SECOND, 1, m)
    ensures Unmix(v) < m && Mix(Unmix(v)) == v
  {
    UnXorShiftBelow(v, 31, 64);
    var b := UnXorShift(v, 31);
    RoundInverts(b, 27, SECOND, SECOND_INVERSE, m, 64);
    var a := UnRound(b, 27, SECOND_INVERSE, m);
    RoundInverts(a, 30, FIRST, FIRST_INVERSE, m, 64);
    XorShiftOfUnXorShift(v, 31);
    ModSmall(v, m);
  }

  // ----- the output bit by bit

  /** Bit i of `r` is bit i of `v` against bit i + k. */
  ghost predicate Folded(v: nat, k: nat, r: nat) {
    forall i: nat :: Bit(r, i) <==> Bit(v, i) != Bit(v, i + k)
  }

  lemma XorShiftFolds(v: nat, k: nat)
    ensures Folded(v, k, XorShift(v, k))
  {
    forall i: nat ensures Bit(XorShift(v, k), i) <==> Bit(v, i) != Bit(v, i + k) {
      XorBit(v, Shr(v, k), i);
      ShrBit(v, k, i);
    }
  }

  /** The output of a 64-bit state: folded by 30, multiplied, folded by 27, multiplied, folded by 31. */
  lemma MixByBits(state: nat) returns (a: nat, v: nat, b: nat, w: nat)
    requires state < WORD
    ensures Folded(state, 30, a) && v == (a * 0xBF58476D1CE4E5B9) % 0x1_0000_0000_0000_0000
    ensures Folded(v, 27, b) && w == (b * 0x94D049BB133111EB) % 0x1_0000_0000_0000_0000
    ensures Folded(w, 31, Mix(state))
  {
    a := XorShift(state, 30);
    v := (a * FIRST) % WORD;
    b := XorShift(v, 27);
    w := (b * SECOND) % WORD;
    XorShiftFolds(state, 30);
    XorShiftFolds(v, 27);
    XorShiftFolds(w, 31);
    WordIsPow2();
    XorShiftBelow(w, 31, 64);
    ModSmall(XorShift(w, 31), WORD);
  }

  // ----- the period

  lemma {:induction false} StateIsLinear(seed: nat, n: nat, m: nat)
    requires m == WORD
    ensures Cong(StateAfter(seed, n), seed + n * GAMMA, m)
    ensures n > 0 || seed < m ==> StateAfter(seed, n) < m
  {
    if n == 0 {
      CongRefl(seed, m);
    } else {
      StateIsLinear(seed, n - 1, m);
      var s := StateAfter(seed, n - 1);
      CongMod(s + GAMMA, m);
      CongRefl(GAMMA, m);
      CongAdd(s, seed + (n - 1) * GAMMA, GAMMA, GAMMA, m);
      assert seed + (n - 1) * GAMMA + GAMMA == seed + n * GAMMA;
      CongTrans(NextState(s), s + GAMMA, seed + n * GAMMA, m);
    }
  }

  /** After n draws the state is seed + n * GAMMA modulo 2^64. */
  lemma StateIsClosedForm(seed: nat, n: nat)
    requires seed < WORD
    ensures StateAfter(seed, n) == (seed + n * GAMMA) % WORD
  {
    StateIsLinear(seed, n, WORD);
    CongResidue(StateAfter(seed, n), seed + n * GAMMA, WORD);
    ModSmall(StateAfter(seed, n), WORD);
  }

  lemma StatesDiffer(seed: nat, i: nat, j: nat, m: nat)
    requires m == WORD && seed < m && i < j < i + m && Cong(GAMMA * GAMMA_INVERSE, 1, m)
    ensures StateAfter(seed, i) != StateAfter(seed, j)
  {
    if StateAfter(seed, i) == StateAfter(seed, j) {
      StateIsLinear(seed, i, m);
      StateIsLinear(seed, j, m);
      var s := StateAfter(seed, i);
      CongSym(s, seed + i * GAMMA, m);
      CongTrans(seed + i * GAMMA, s, seed + j * GAMMA, m);
      CongSym(seed + i * GAMMA, seed + j * GAMMA, m);
      var k := j - i;
      assert (seed + j * GAMMA) - (seed + i * GAMMA) == k * GAMMA;
      ZeroMul(k * GAMMA, GAMMA_INVERSE, m);
      CongRefl(k, m);
      CongMul(k, k, GAMMA * GAMMA_INVERSE, 1, m);
      MulSwap(k, GAMMA, GAMMA_INVERSE);
      ZeroAdd((k * GAMMA) * GAMMA_INVERSE, k * (GAMMA * GAMMA_INVERSE) - k * 1, m);
      SmallNonZero(k, m);
      assert false;
    }
  }

  /** No output repeats within 2^64 consecutive draws. */
  lemma OutputsDiffer(seed: nat, i: nat, j: nat)
    requires seed < WORD && i < j < i + WORD
    ensures Output(seed, i) != Output(seed, j)
  {
    InverseConstants();
    StatesDiffer(seed, i, j, WORD);
    StateIsLinear(seed, i, WORD);
    StateIsLinear(seed, j, WORD);
    MixIsBijection(StateAfter(seed, i));
    MixIsBijection(StateAfter(seed, j));
  }
}
