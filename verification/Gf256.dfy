/** The field GF(2^8) with the primitive polynomial x^8+x^4+x^3+x^2+1. */
module Gf256 {
  import opened Bits

  /** Field addition: bitwise exclusive or. */
  function Add(a: byte, b: byte): byte {
    assert Pow2(8) == 256;
    XorBound(a, b, 8);
    Xor(a, b)
  }

  /** Multiplication by x: shift left, and reduce by 0x11d on overflow. */
  function Xt(b: byte): byte {
    if b < 128 then 2 * b else XtReduces(b); Xor(2 * b, 0x11d)
  }

  /** Powers of the generator x. */
  function Exp(i: nat): byte {
    if i == 0 then 1 else Xt(Exp(i - 1))
  }

  /** Polynomial multiplication modulo x^8+x^4+x^3+x^2+1, by shift and add. */
  function Mul(a: byte, b: byte): byte
    decreases b
  {
    if b == 0 then 0 else Add(if b % 2 == 1 then a else 0, Mul(Xt(a), b / 2))
  }

  lemma {:induction false} XtReduces(b: byte)
    requires b >= 128
    ensures Xor(2 * b, 0x11d) == Xor(2 * b - 256, 0x1d) < 256
  {
    assert Pow2(8) == 256;
    XorTopBoth(2 * b - 256, 0x1d, 8);
    XorBound(2 * b - 256, 0x1d, 8);
  }

  // ---- addition ------------------------------------------------------------

  lemma {:induction false} AddComm(a: byte, b: byte)
    ensures Add(a, b) == Add(b, a)
  {
    XorComm(a, b);
  }

  lemma {:induction false} AddAssoc(a: byte, b: byte, c: byte)
    ensures Add(Add(a, b), c) == Add(a, Add(b, c))
  {
    XorAssoc(a, b, c);
  }

  lemma {:induction false} AddSwap(a: byte, b: byte, c: byte, d: byte)
    ensures Add(Add(a, b), Add(c, d)) == Add(Add(a, c), Add(b, d))
  {
    XorSwap(a, b, c, d);
  }

  lemma {:induction false} AddZero(a: byte)
    ensures Add(a, 0) == a == Add(0, a) && Add(a, a) == 0
  {
    XorZero(a);
    XorSelf(a);
  }

  lemma {:induction false} AddCancel(a: byte, b: byte)
    ensures Add(Add(a, b), b) == a
    ensures Add(a, b) == 0 ==> a == b
  {
    AddAssoc(a, b, b);
    AddZero(b);
    AddZero(a);
  }

  // ---- multiplication is linear ---------------------------------------------

  /** The top bit of a sum is the exclusive or of the top bits. */
  lemma {:induction false} TopBit(a: byte, b: byte)
    ensures a < 128 && b < 128 ==> Xor(a, b) < 128
    ensures a >= 128 && b >= 128 ==> Xor(a, b) < 128
    ensures a >= 128 && b < 128 ==> Xor(a, b) >= 128
  {
    assert Pow2(7) == 128;
    if a >= 128 && b >= 128 {
      XorTopBoth(a - 128, b - 128, 7);
      XorBound(a - 128, b - 128, 7);
    } else if a >= 128 {
      XorTopOne(a - 128, b, 7);
    } else if b < 128 {
      XorBound(a, b, 7);
    }
  }

  lemma {:induction false} DoubleXor(a: nat, b: nat)
    ensures Xor(2 * a, 2 * b) == 2 * Xor(a, b)
  {
    XorStep(2 * a, 2 * b);
  }

  lemma {:induction false} XtAdd(a: byte, b: byte)
    ensures Xt(Add(a, b)) == Add(Xt(a), Xt(b))
  {
    if a < 128 && b >= 128 {
      AddComm(a, b);
      XtAddOrdered(b, a);
      AddComm(Xt(a), Xt(b));
    } else {
      XtAddOrdered(a, b);
    }
  }

  lemma {:induction false} XtAddOrdered(a: byte, b: byte)
    requires a >= 128 || b < 128
    ensures Xt(Add(a, b)) == Add(Xt(a), Xt(b))
  {
    TopBit(a, b);
    DoubleXor(a, b);
    if a >= 128 && b < 128 {
      XorAssoc(2 * a, 0x11d, 2 * b);
      XorComm(0x11d, 2 * b);
      XorAssoc(2 * a, 2 * b, 0x11d);
    } else if a >= 128 {
      XorSwap(2 * a, 0x11d, 2 * b, 0x11d);
      XorSelf(0x11d);
      XorZero(Xor(2 * a, 2 * b));
    }
  }

  lemma {:induction false} XtInjective(a: byte, b: byte)
    requires Xt(a) == Xt(b)
    ensures a == b
  {
    AddZero(Xt(a));
    XtAdd(a, b);
    var d := Add(a, b);
    assert Xt(d) == 0;
    XorZeroEqual(2 * d, 0x11d);
    AddCancel(a, b);
  }

  lemma {:induction false} MulXt(a: byte, b: byte)
    ensures Mul(Xt(a), b) == Xt(Mul(a, b))
    decreases b
  {
    if b == 0 {
    } else {
      MulXt(Xt(a), b / 2);
      XtAdd(if b % 2 == 1 then a else 0, Mul(Xt(a), b / 2));
    }
  }

  /** One unfolding, valid for b == 0 too. */
  lemma {:induction false} MulStep(a: byte, b: byte)
    ensures Mul(a, b) == Add(if b % 2 == 1 then a else 0, Mul(Xt(a), b / 2))
  {
    if b == 0 { AddZero(0); }
  }

  lemma {:induction false} MulDistrib(a: byte, b: byte, c: byte)
    ensures Mul(a, Add(b, c)) == Add(Mul(a, b), Mul(a, c))
    decreases b + c
  {
    if b == 0 {
      AddZero(c);
      AddZero(Mul(a, c));
    } else {
      XorStep(b, c);
      MulDistrib(Xt(a), b / 2, c / 2);
      MulStep(a, b);
      MulStep(a, c);
      MulStep(a, Add(b, c));
      AddSwap(if b % 2 == 1 then a else 0, Mul(Xt(a), b / 2),
              if c % 2 == 1 then a else 0, Mul(Xt(a), c / 2));
      AddZero(a);
      AddZero(0);
    }
  }

  lemma {:induction false} MulZero(b: byte)
    ensures Mul(0, b) == 0 == Mul(b, 0)
  {
    if b == 0 {
    } else {
      MulZero(b / 2);
      AddZero(0);
    }
  }

  /** Shifting 1 through the bits of b rebuilds b. */
  lemma {:induction false} OneMul(b: byte)
    ensures Mul(1, b) == b
  {
    if b == 0 {
    } else {
      var h := b / 2;
      OneMul(h);
      MulXt(1, h);
      XorStep(b % 2, 2 * h);
      XorZero(h);
    }
  }

  lemma {:induction false} MulOne(b: byte)
    ensures Mul(1, b) == b == Mul(b, 1)
  {
    OneMul(b);
    AddZero(b);
    assert Mul(Xt(b), 0) == 0;
  }

  /** x^i * x^j == x^(i+j): the powers of the generator multiply by adding exponents. */
  lemma {:induction false} ExpAdd(i: nat, j: nat)
    ensures Mul(Exp(i), Exp(j)) == Exp(i + j)
  {
    if i == 0 {
      MulOne(Exp(j));
    } else {
      ExpAdd(i - 1, j);
      MulXt(Exp(i - 1), Exp(j));
    }
  }

  // ---- the generator has order 255 -------------------------------------------

  /** A byte as its eight binary digits, most significant first. */
  datatype B8 = B8(b7: nat, b6: nat, b5: nat, b4: nat, b3: nat, b2: nat, b1: nat, b0: nat)

  predicate Binary(b: B8) {
    b.b7 < 2 && b.b6 < 2 && b.b5 < 2 && b.b4 < 2 && b.b3 < 2 && b.b2 < 2 && b.b1 < 2 && b.b0 < 2
  }

  function Val(b: B8): byte
    requires Binary(b)
  {
    128 * b.b7 + 64 * b.b6 + 32 * b.b5 + 16 * b.b4 + 8 * b.b3 + 4 * b.b2 + 2 * b.b1 + b.b0
  }

  function Flip(p: nat, q: nat): nat {
    if p == q then 0 else 1
  }

  function XtB(b: B8): B8 {
    B8(b.b6, b.b5, b.b4, Flip(b.b3, b.b7), Flip(b.b2, b.b7), Flip(b.b1, b.b7), b.b0, b.b7)
  }

  /** Adding 0x1d flips bits 0, 2, 3 and 4. */
  lemma {:induction false} Xor29(t: nat, p3: nat, p2: nat, p1: nat, p0: nat)
    requires p3 < 2 && p2 < 2 && p1 < 2 && p0 < 2
    ensures Xor(32 * t + 16 * p3 + 8 * p2 + 4 * p1 + 2 * p0, 29)
         == 32 * t + 16 * (1 - p3) + 8 * (1 - p2) + 4 * (1 - p1) + 2 * p0 + 1
  {
    XorSeven(t, p3, p2, p1);
    var a3, r3 := 8 * t + 4 * p3 + 2 * p2 + p1, 8 * t + 4 * (1 - p3) + 2 * (1 - p2) + 1 - p1;
    XorCons(a3, 7, p0, 0);
    XorCons(2 * a3 + p0, 14, 0, 1);
  }

  lemma {:induction false} XorSeven(t: nat, p3: nat, p2: nat, p1: nat)
    requires p3 < 2 && p2 < 2 && p1 < 2
    ensures Xor(8 * t + 4 * p3 + 2 * p2 + p1, 7) == 8 * t + 4 * (1 - p3) + 2 * (1 - p2) + 1 - p1
  {
    XorThree(t, p3, p2);
    XorCons(4 * t + 2 * p3 + p2, 3, p1, 1);
  }

  lemma {:induction false} XorThree(t: nat, p3: nat, p2: nat)
    requires p3 < 2 && p2 < 2
    ensures Xor(4 * t + 2 * p3 + p2, 3) == 4 * t + 2 * (1 - p3) + 1 - p2
  {
    XorOne(t, p3);
    XorCons(2 * t + p3, 1, p2, 1);
  }

  lemma {:induction false} XorOne(t: nat, p3: nat)
    requires p3 < 2
    ensures Xor(2 * t + p3, 1) == 2 * t + 1 - p3
  {
    XorZero(t);
    XorCons(t, 0, p3, 1);
  }

  lemma {:induction false} XtFlips(v: byte, r: byte, t: nat, p3: nat, p2: nat, p1: nat, p0: nat)
    requires t < 8 && p3 < 2 && p2 < 2 && p1 < 2 && p0 < 2
    requires v == 128 + 16 * t + 8 * p3 + 4 * p2 + 2 * p1 + p0
    requires r == 32 * t + 16 * (1 - p3) + 8 * (1 - p2) + 4 * (1 - p1) + 2 * p0 + 1
    ensures Xt(v) == r
  {
    var w := 32 * t + 16 * p3 + 8 * p2 + 4 * p1 + 2 * p0;
    assert Xt(v) == Xor(w, 29) by { XtReduces(v); }
    Xor29(t, p3, p2, p1, p0);
  }

  lemma {:induction false} XtBits(b: B8)
    requires Binary(b)
    ensures Binary(XtB(b)) && Xt(Val(b)) == Val(XtB(b))
  {
    if b.b7 == 1 {
      XtFlips(Val(b), Val(XtB(b)), 4 * b.b6 + 2 * b.b5 + b.b4, b.b3, b.b2, b.b1, b.b0);
    }
  }

  function Xt4(b: B8): B8 {
    XtB(XtB(XtB(XtB(b))))
  }

  /** Seventeen shifts. */
  function Xt17(b: B8): B8 {
    XtB(Xt4(Xt4(Xt4(Xt4(b)))))
  }

  lemma {:induction false} Exp1(i: nat, b: B8)
    requires Binary(b) && Exp(i) == Val(b)
    ensures Binary(XtB(b)) && Exp(i + 1) == Val(XtB(b))
  {
    XtBits(b);
  }

  lemma {:induction false} Exp4(i: nat, b: B8)
    requires Binary(b) && Exp(i) == Val(b)
    ensures Binary(Xt4(b)) && Exp(i + 4) == Val(Xt4(b))
  {
    Exp1(i, b);
    Exp1(i + 1, XtB(b));
    Exp1(i + 2, XtB(XtB(b)));
    Exp1(i + 3, XtB(XtB(XtB(b))));
  }

  lemma {:induction false} Exp17(i: nat, b: B8)
    requires Binary(b) && Exp(i) == Val(b)
    ensures Binary(Xt17(b)) && Exp(i + 17) == Val(Xt17(b))
  {
    Exp4(i, b);
    Exp4(i + 4, Xt4(b));
    Exp4(i + 8, Xt4(Xt4(b)));
    Exp4(i + 12, Xt4(Xt4(Xt4(b))));
    Exp1(i + 16, Xt4(Xt4(Xt4(Xt4(b)))));
  }

  /** Thirty-four and fifty-one shifts: 255 is five times 51, and 85 is 51 + 34. */
  function Xt34(b: B8): B8 {
    Xt17(Xt17(b))
  }

  function Xt51(b: B8): B8 {
    Xt17(Xt34(b))
  }

  lemma {:induction false} Exp51(i: nat, b: B8, c: B8)
    requires Binary(b) && Exp(i) == Val(b) && Xt51(b) == c
    ensures Binary(c) && Exp(i + 51) == Val(c)
  {
    Exp17(i, b);
    Exp17(i + 17, Xt17(b));
    Exp17(i + 34, Xt34(b));
  }

  lemma {:induction false} Hop0(i: nat)
    requires Exp(i) == 1
    ensures Exp(i + 51) == 10
  {
    var b, c := B8(0, 0, 0, 0, 0, 0, 0, 1), B8(0, 0, 0, 0, 1, 0, 1, 0);
    assert Xt51(b) == c;
    Exp51(i, b, c);
  }

  lemma {:induction false} Hop1(i: nat)
    requires Exp(i) == 10
    ensures Exp(i + 51) == 68
  {
    var b, c := B8(0, 0, 0, 0, 1, 0, 1, 0), B8(0, 1, 0, 0, 0, 1, 0, 0);
    assert Xt51(b) == c;
    Exp51(i, b, c);
  }

  lemma {:induction false} Hop2(i: nat)
    requires Exp(i) == 68
    ensures Exp(i + 51) == 146
  {
    var b, c := B8(0, 1, 0, 0, 0, 1, 0, 0), B8(1, 0, 0, 1, 0, 0, 1, 0);
    assert Xt51(b) == c;
    Exp51(i, b, c);
  }

  lemma {:induction false} Hop3(i: nat)
    requires Exp(i) == 146
    ensures Exp(i + 51) == 221
  {
    var b, c := B8(1, 0, 0, 1, 0, 0, 1, 0), B8(1, 1, 0, 1, 1, 1, 0, 1);
    assert Xt51(b) == c;
    Exp51(i, b, c);
  }

  lemma {:induction false} Hop4(i: nat)
    requires Exp(i) == 221
    ensures Exp(i + 51) == 1
  {
    var b, c := B8(1, 1, 0, 1, 1, 1, 0, 1), B8(0, 0, 0, 0, 0, 0, 0, 1);
    assert Xt51(b) == c;
    Exp51(i, b, c);
  }

  lemma {:induction false} Hop85(i: nat)
    requires Exp(i) == 10
    ensures Exp(i + 34) == 214
  {
    var b, c := B8(0, 0, 0, 0, 1, 0, 1, 0), B8(1, 1, 0, 1, 0, 1, 1, 0);
    assert Xt34(b) == c;
    Exp17(i, b);
    Exp17(i + 17, Xt17(b));
  }

  /** From any exponent of 1: 51 and 85 later it is not 1, 255 later it is again. */
  lemma {:induction false} ExpCycle(i: nat)
    requires Exp(i) == 1
    ensures Exp(i + 51) == 10 && Exp(i + 85) == 214 && Exp(i + 255) == 1
  {
    Hop0(i);
    Hop85(i + 51);
    Hop1(i + 51);
    Hop2(i + 102);
    Hop3(i + 153);
    Hop4(i + 204);
  }

  lemma {:induction false} ExpNonZero(i: nat)
    ensures Exp(i) != 0
  {
    if i == 0 {
    } else {
      ExpNonZero(i - 1);
      if Exp(i) == 0 { XtInjective(Exp(i - 1), 0); }
    }
  }

  lemma {:induction false} ExpShift(i: nat, j: nat)
    requires Exp(i + j) == Exp(i)
    ensures Exp(j) == 1
  {
    if i == 0 {
    } else {
      XtInjective(Exp(i + j - 1), Exp(i - 1));
      ExpShift(i - 1, j);
    }
  }

  lemma {:induction false} ExpPeriodic(g: nat, j: nat)
    requires Exp(g) == 1
    ensures Exp(g + j) == Exp(j)
  {
    ExpAdd(g, j);
    MulOne(Exp(j));
  }

  lemma {:induction false} ExpMultiple(g: nat, k: nat)
    requires Exp(g) == 1
    ensures Exp(g * k) == 1
    decreases k
  {
    if k == 0 {
    } else {
      ExpMultiple(g, k - 1);
      ExpPeriodic(g, g * (k - 1));
      assert g * k == g + g * (k - 1);
    }
  }

  /** Exponents of the identity are closed under Euclid's subtraction. */
  lemma {:induction false} ExpGcd(a: nat, b: nat) returns (g: nat, p: nat, q: nat)
    requires 0 < a && 0 < b && Exp(a) == 1 && Exp(b) == 1
    ensures 0 < g && Exp(g) == 1 && a == g * p && b == g * q
    decreases a + b, a
  {
    if a == b {
      g, p, q := a, 1, 1;
    } else if a < b {
      ExpPeriodic(a, b - a);
      var q';
      g, p, q' := ExpGcd(a, b - a);
      q := p + q';
      assert g * q == g * p + g * q';
    } else {
      g, q, p := ExpGcd(b, a);
    }
  }

  /** Some exponent of 1; that it is 0 is of no interest to the callers. */
  lemma {:induction false} SomeExponentOfOne() returns (z: nat)
    ensures Exp(z) == 1
  {
    z := 0;
  }

  lemma {:induction false} ExpAfter6(z: nat)
    requires Exp(z) == 1
    ensures Exp(z + 6) == 64
  {
    assert Exp(z + 1) == 2;
    assert Exp(z + 2) == 4;
    assert Exp(z + 3) == 8;
    assert Exp(z + 4) == 16;
    assert Exp(z + 5) == 32;
  }

  /** If 15 were an exponent of 1, so would be 45, and the 51st power would be the 6th. */
  lemma {:induction false} ExpNot15(z: nat, m: nat)
    requires Exp(z) == 1 && 17 * m == 255
    ensures Exp(m) != 1
  {
    ExpCycle(z);
    ExpAfter6(z);
    if Exp(m) == 1 {
      ExpMultiple(m, 3);
      ExpPeriodic(m * 3, z + 6);
    }
  }

  /** 15, 51 and 85 are the maximal proper divisors of 255; none is an exponent of 1. */
  lemma {:induction false} ExpAtDivisor(m: nat)
    requires 17 * m == 255 || 5 * m == 255 || 3 * m == 255
    ensures Exp(m) != 1
  {
    var z := SomeExponentOfOne();
    if 17 * m == 255 {
      ExpNot15(z, m);
    } else {
      ExpCycle(z);
      ExpPeriodic(z, m);
    }
  }

  lemma {:induction false} ProperDivisor(g: nat, q: nat, d: nat, p: nat) returns (m: nat, k: nat)
    requires g * q == 255 && d == g * p && 0 < d < 255
    ensures m == g * k && (17 * m == 255 || 5 * m == 255 || 3 * m == 255)
  {
    assert p >= q ==> g * p >= g * q;
    assert p < q;
    assert g >= 16 && q >= 17 ==> g * q >= 16 * 17;
    if q > 16 {
      m, k := 15, if g == 1 then 15 else if g == 3 then 5 else if g == 5 then 3 else 1;
    } else {
      m := if q == 5 then 51 else if q == 3 then 85 else 85;
      k := if q == 15 then 5 else 1;
    }
  }

  /** The order of the generator divides 255. */
  lemma {:induction false} ExpFull(n: nat)
    requires 2 * n == 510
    ensures Exp(n) == 1
  {
    var z := SomeExponentOfOne();
    ExpCycle(z);
    ExpPeriodic(z, n);
  }

  lemma {:induction false} ExpBack(i: nat)
    requires i >= 255
    ensures Exp(i) == Exp(i - 255)
  {
    var z := SomeExponentOfOne();
    ExpCycle(z);
    ExpPeriodic(z + 255, i - 255);
    ExpPeriodic(z, i);
  }

  lemma {:induction false} NoProperExponent(g: nat, q: nat, d: nat, p: nat)
    requires g * q == 255 && d == g * p && 0 < d < 255
    ensures Exp(g) != 1
  {
    var m, k := ProperDivisor(g, q, d, p);
    ExpAtDivisor(m);
    if Exp(g) == 1 { ExpMultiple(g, k); }
  }

  /** The proof, for a full cycle that is not written as a literal. */
  lemma {:induction false} ExpPrimitiveIn(d: nat, full: nat)
    requires 0 < d < 255 && 2 * full == 510
    ensures Exp(d) != 1
  {
    if Exp(d) == 1 {
      ExpFull(full);
      var g, p, q := ExpGcd(d, full);
      NoProperExponent(g, q, d, p);
    }
  }

  /** The generator is primitive: its powers do not return to 1 before the 255th. */
  lemma {:induction false} ExpPrimitive(d: nat)
    requires 0 < d < 255
    ensures Exp(d) != 1
  {
    ExpPrimitiveIn(d, 255);
  }

  lemma {:induction false} ExpInjective(i: nat, j: nat)
    requires i < j < 255
    ensures Exp(i) != Exp(j)
  {
    if Exp(i) == Exp(j) {
      ExpShift(i, j - i);
      ExpPrimitive(j - i);
    }
  }

  lemma {:induction false} ExpFresh(i: nat)
    requires i < 255
    ensures forall k :: 0 <= k < i ==> Exp(k) != Exp(i)
  {
    forall k | 0 <= k < i ensures Exp(k) != Exp(i) { ExpInjective(k, i); }
  }

  /** The first n powers of the generator. */
  ghost function Powers(n: nat): set<byte> {
    set i | 0 <= i < n :: Exp(i)
  }

  lemma {:induction false} PowersCount(n: nat)
    requires n <= 255
    ensures |Powers(n)| == n
  {
    if n == 0 {
      assert Powers(0) == {};
    } else {
      PowersCount(n - 1);
      forall i | 0 <= i < n - 1 ensures Exp(i) != Exp(n - 1) { ExpInjective(i, n - 1); }
      assert Powers(n) == Powers(n - 1) + {Exp(n - 1)};
    }
  }

  ghost function NonZero(n: nat): set<int> {
    if n == 0 then {} else NonZero(n - 1) + {n}
  }

  lemma {:induction false} NonZeroCount(n: nat)
    ensures |NonZero(n)| == n
    ensures forall x :: x in NonZero(n) <==> 1 <= x <= n
  {
    if n == 0 {
    } else {
      NonZeroCount(n - 1);
    }
  }

  lemma {:induction false} SubsetOfSameSize(a: set<int>, b: set<int>)
    requires a <= b && |a| == |b|
    ensures a == b
  {
    assert b == a + (b - a);
    assert |b| == |a| + |b - a|;
  }

  /** Every non-zero byte is a power of the generator. */
  lemma {:induction false} LogExists(v: byte) returns (i: nat)
    requires v != 0
    ensures i < 255 && Exp(i) == v
  {
    PowersCount(255);
    NonZeroCount(255);
    forall k | 0 <= k < 255 ensures Exp(k) != 0 { ExpNonZero(k); }
    assert Powers(255) <= NonZero(255);
    SubsetOfSameSize(Powers(255), NonZero(255));
    assert v in Powers(255);
    i :| 0 <= i < 255 && Exp(i) == v;
  }

  // ---- field laws ---------------------------------------------------------------

  lemma {:induction false} MulComm(a: byte, b: byte)
    ensures Mul(a, b) == Mul(b, a)
  {
    MulZero(a);
    MulZero(b);
    if a != 0 && b != 0 {
      var i := LogExists(a);
      var j := LogExists(b);
      ExpAdd(i, j);
      ExpAdd(j, i);
    }
  }

  lemma {:induction false} MulAssoc(a: byte, b: byte, c: byte)
    ensures Mul(Mul(a, b), c) == Mul(a, Mul(b, c))
  {
    if a == 0 {
      MulZero(b);
      MulZero(c);
      MulZero(Mul(b, c));
    } else if b == 0 {
      MulZero(a);
      MulZero(c);
    } else if c == 0 {
      MulZero(b);
      MulZero(a);
      MulZero(Mul(a, b));
    } else {
      var i := LogExists(a);
      var j := LogExists(b);
      var k := LogExists(c);
      var m, n := i + j, j + k;
      ExpAdd(i, j);
      ExpAdd(m, k);
      ExpAdd(j, k);
      ExpAdd(i, n);
    }
  }

  lemma {:induction false} MulDistribLeft(a: byte, b: byte, c: byte)
    ensures Mul(Add(a, b), c) == Add(Mul(a, c), Mul(b, c))
  {
    MulComm(Add(a, b), c);
    MulDistrib(c, a, b);
    MulComm(a, c);
    MulComm(b, c);
  }

  lemma {:induction false} NoZeroDivisors(a: byte, b: byte)
    requires a != 0 && b != 0
    ensures Mul(a, b) != 0
  {
    var i := LogExists(a);
    var j := LogExists(b);
    ExpAdd(i, j);
    ExpNonZero(i + j);
  }

  // ---- the log/antilog tables ----------------------------------------------------

  /** The package-level tables qrExp and qrLog. */
  class Tables {
    const qrExp: array<byte>
    const qrLog: array<byte>

    ghost predicate Valid()
      reads this, qrExp, qrLog
    {
      && qrExp.Length == 512
      && qrLog.Length == 256
      && (forall i :: 0 <= i < 512 ==> qrExp[i] == Exp(i))
      && (forall i :: 0 <= i < 255 ==> qrLog[Exp(i)] == i)
    }

    /** The package initialiser: 255 shifts fill both tables, then qrExp is
        continued periodically so that qrMul needs no reduction modulo 255. */
    constructor ()
      ensures Valid() && fresh(qrExp) && fresh(qrLog)
    {
      qrExp := new byte[512](_ => 0);
      qrLog := new byte[256](_ => 0);
      new;
      FillPowers(qrExp, qrLog);
      for i := 255 to 512
        invariant forall k :: 0 <= k < i ==> qrExp[k] == Exp(k)
        invariant forall k :: 0 <= k < 255 ==> qrLog[Exp(k)] == k
      {
        ExpBack(i);
        qrExp[i] := qrExp[i - 255];
      }
    }

    static method FillPowers(exp: array<byte>, log: array<byte>)
      requires exp != log && exp.Length == 512 && log.Length == 256
      modifies exp, log
      ensures forall k :: 0 <= k < 255 ==> exp[k] == Exp(k)
      ensures forall k :: 0 <= k < 255 ==> log[Exp(k)] == k
    {
      var x: byte := 1;
      var i := 0;
      while i < 255
        invariant 0 <= i <= 255
        invariant x == if i == 0 then 1 else Xt(exp[i - 1])
        invariant forall k :: 0 <= k < i ==> exp[k] == Exp(k)
        invariant forall k :: 0 <= k < i ==> log[Exp(k)] == k
      {
        ExpFresh(i);
        exp[i] := x;
        log[x] := i;
        x := Xt(x);
        i := i + 1;
      }
    }

    /** Table lookup computes the field product. */
    function QrMul(a: byte, b: byte): (r: byte)
      requires Valid()
      reads this, qrExp, qrLog
      ensures r == Mul(a, b)
    {
      MulZero(a);
      MulZero(b);
      if a == 0 || b == 0 then 0
      else
        LogSum(a, b);
        var i: int, j: int := qrLog[a], qrLog[b];
        qrExp[i + j]
    }

    lemma {:induction false} LogLookup(a: byte)
      requires Valid() && a != 0
      ensures qrLog[a] < 255 && Exp(qrLog[a]) == a
    {
      var i := LogExists(a);
      assert qrLog[Exp(i)] == i;
    }

    lemma {:induction false} LogSum(a: byte, b: byte)
      requires Valid() && a != 0 && b != 0
      ensures var i: int, j: int := qrLog[a], qrLog[b]; i + j < 512 && qrExp[i + j] == Mul(a, b)
    {
      LogLookup(a);
      LogLookup(b);
      ExpAdd(qrLog[a], qrLog[b]);
    }
  }
}
