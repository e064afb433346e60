/** Bitwise arithmetic on naturals: exclusive or, powers of two, and the facts
    about single bits that the Reed-Solomon and CRC proofs need. */
module Bits {

  const MOD64: nat := 0x1_0000_0000_0000_0000

  type bit = x: int | 0 <= x < 2
  type byte = x: int | 0 <= x < 256

  /** The codes of characters. */
  function Ascii(text: string): seq<int> {
    seq(|text|, i requires 0 <= i < |text| => text[i] as int)
  }

  function Min(a: nat, b: nat): nat {
    if a < b then a else b
  }

  function Pow2(n: nat): (p: nat)
    ensures p >= 1
  {
    if n == 0 then 1 else 2 * Pow2(n - 1)
  }

  /** Bit k of the result is set exactly when bit k of one operand is. */
  function Xor(a: nat, b: nat): nat
    decreases a + b
  {
    if a == 0 && b == 0 then 0
    else (if a % 2 == b % 2 then 0 else 1) + 2 * Xor(a / 2, b / 2)
  }

  lemma {:induction false} XorComm(a: nat, b: nat)
    ensures Xor(a, b) == Xor(b, a)
    decreases a + b
  {
    if a == 0 && b == 0 {
    } else {
      XorComm(a / 2, b / 2);
    }
  }

  lemma {:induction false} XorZero(a: nat)
    ensures Xor(a, 0) == a && Xor(0, a) == a
  {
    if a == 0 {
    } else {
      XorZero(a / 2);
    }
  }

  lemma {:induction false} XorSelf(a: nat)
    ensures Xor(a, a) == 0
  {
    if a == 0 {
    } else {
      XorSelf(a / 2);
    }
  }

  lemma {:induction false} XorAssoc(a: nat, b: nat, c: nat)
    ensures Xor(Xor(a, b), c) == Xor(a, Xor(b, c))
    decreases a + b + c
  {
    if a == 0 && b == 0 {
      XorZero(c);
    } else if b == 0 && c == 0 {
      XorZero(a);
    } else {
      var l, r := Xor(Xor(a, b), c), Xor(a, Xor(b, c));
      assert l % 2 == r % 2 by {
        XorStep(a, b);
        XorStep(b, c);
        XorStep(Xor(a, b), c);
        XorStep(a, Xor(b, c));
      }
      assert l / 2 == r / 2 by {
        XorStep(a, b);
        XorStep(b, c);
        XorStep(Xor(a, b), c);
        XorStep(a, Xor(b, c));
        XorAssoc(a / 2, b / 2, c / 2);
      }
    }
  }

  /** One unfolding, valid for the zero operands too. */
  lemma {:induction false} XorStep(a: nat, b: nat)
    ensures Xor(a, b) % 2 == if a % 2 == b % 2 then 0 else 1
    ensures Xor(a, b) / 2 == Xor(a / 2, b / 2)
  {
    if a == 0 && b == 0 { assert Xor(0, 0) == 0; }
  }

  /** Xor of numbers given by their upper part and their lowest bit. */
  lemma {:induction false} XorCons(a: nat, b: nat, p: nat, q: nat)
    requires p < 2 && q < 2
    ensures Xor(2 * a + p, 2 * b + q) == 2 * Xor(a, b) + if p == q then 0 else 1
  {
    XorStep(2 * a + p, 2 * b + q);
  }

  lemma {:induction false} XorZeroEqual(a: nat, b: nat)
    ensures Xor(a, b) == 0 ==> a == b
  {
    XorAssoc(a, b, b);
    XorSelf(b);
    XorZero(a);
    XorZero(b);
  }

  /** Xor with a fixed operand is injective. */
  lemma {:induction false} XorInjective(a: nat, b: nat, c: nat)
    requires Xor(a, c) == Xor(b, c)
    ensures a == b
  {
    XorAssoc(a, c, c);
    XorAssoc(b, c, c);
    XorSelf(c);
    XorZero(a);
    XorZero(b);
  }

  /** (a ^ b) ^ (c ^ d) == (a ^ c) ^ (b ^ d) */
  lemma {:induction false} XorSwap(a: nat, b: nat, c: nat, d: nat)
    ensures Xor(Xor(a, b), Xor(c, d)) == Xor(Xor(a, c), Xor(b, d))
  {
    XorAssoc(a, b, Xor(c, d));
    XorAssoc(b, c, d);
    XorComm(b, c);
    XorAssoc(c, b, d);
    XorAssoc(a, c, Xor(b, d));
  }

  lemma {:induction false} XorBound(a: nat, b: nat, n: nat)
    requires a < Pow2(n) && b < Pow2(n)
    ensures Xor(a, b) < Pow2(n)
    decreases n
  {
    if n == 0 {
    } else {
      XorBound(a / 2, b / 2, n - 1);
    }
  }

  /** Bit n, the top one of an (n+1)-bit number, cancels when both operands have it. */
  lemma {:induction false} XorTopBoth(a: nat, b: nat, n: nat)
    requires a < Pow2(n) && b < Pow2(n)
    ensures Xor(a + Pow2(n), b + Pow2(n)) == Xor(a, b)
    decreases n
  {
    if n == 0 {
      assert Xor(1, 1) == 0;
    } else {
      var p := Pow2(n - 1);
      var x, y := a + 2 * p, b + 2 * p;
      assert x / 2 == a / 2 + p && y / 2 == b / 2 + p;
      XorTopBoth(a / 2, b / 2, n - 1);
      XorStep(a, b);
      XorStep(x, y);
      assert Xor(x, y) % 2 == Xor(a, b) % 2;
      assert Xor(x, y) / 2 == Xor(a, b) / 2;
    }
  }

  /** ... and survives when only one of them has it. */
  lemma {:induction false} XorTopOne(a: nat, b: nat, n: nat)
    requires a < Pow2(n) && b < Pow2(n)
    ensures Xor(a + Pow2(n), b) == Xor(a, b) + Pow2(n)
    decreases n
  {
    if n == 0 {
      assert Xor(1, 0) == 1;
    } else {
      var p := Pow2(n - 1);
      XorTopOne(a / 2, b / 2, n - 1);
      XorStep(a, b);
      XorStep(a + 2 * p, b);
      assert (a + 2 * p) / 2 == a / 2 + p;
    }
  }

  // ---- hexadecimal digits ---------------------------------------------------------

  /** Exclusive or of hexadecimal digits, worked out bit by bit. */
  function Xor4(a: nat, b: nat): nat {
    (if a % 2 == b % 2 then 0 else 1) + (if a / 2 % 2 == b / 2 % 2 then 0 else 2)
    + (if a / 4 % 2 == b / 4 % 2 then 0 else 4) + if a / 8 % 2 == b / 8 % 2 then 0 else 8
  }

  function Xor2(a: nat, b: nat): nat {
    (if a % 2 == b % 2 then 0 else 1) + if a / 2 == b / 2 then 0 else 2
  }

  lemma {:induction false} XorPair(p: nat, q: nat, a: nat, b: nat)
    requires a < 4 && b < 4
    ensures Xor(4 * p + a, 4 * q + b) == 4 * Xor(p, q) + Xor2(a, b)
  {
    hide Xor;
    XorCons(2 * p + a / 2, 2 * q + b / 2, a % 2, b % 2);
    XorCons(p, q, a / 2, b / 2);
  }

  lemma {:induction false} Xor4Pairs(a: nat, b: nat)
    requires a < 16 && b < 16
    ensures Xor4(a, b) == Xor2(a % 4, b % 4) + 4 * Xor2(a / 4, b / 4)
  {
    Halves(a);
    Halves(b);
  }

  lemma Halves(a: nat)
    requires a < 16
    ensures a % 4 % 2 == a % 2 && a % 4 / 2 == a / 2 % 2 && a / 4 / 2 == a / 8 % 2
  {
  }

  lemma {:induction false} XorNibble(p: nat, q: nat, a: nat, b: nat)
    requires a < 16 && b < 16
    ensures Xor(16 * p + a, 16 * q + b) == 16 * Xor(p, q) + Xor4(a, b)
  {
    hide Xor, Xor2, Xor4;
    Xor4Pairs(a, b);
    XorPair(4 * p + a / 4, 4 * q + b / 4, a % 4, b % 4);
    XorPair(p, q, a / 4, b / 4);
  }

  // ---- division ------------------------------------------------------------------

  lemma {:induction false} MulMono(p: nat, a: int, b: int)
    requires a <= b
    ensures p * a <= p * b
  {
  }

  lemma {:induction false} DivUnique(a: nat, p: nat, q: nat, r: nat)
    requires a == p * q + r && r < p
    ensures a / p == q && a % p == r
  {
    var x := a / p;
    assert a == p * x + a % p;
    if x < q {
      MulMono(p, x + 1, q);
    } else if x > q {
      MulMono(p, q + 1, x);
    }
  }

  lemma {:induction false} HalfSplit(b: nat, p: nat, q: nat, r: nat)
    requires b == 2 * p * q + r
    ensures b / 2 == p * q + r / 2 && b % 2 == r % 2
  {
    assert b == 2 * (p * q) + r;
  }

  lemma {:induction false} HalfQuotient(a: nat, p: nat, q: nat, r: nat)
    requires a == 2 * p * q + r && r < 2 * p
    ensures a / 2 / p == q
  {
    HalfSplit(a, p, q, r);
    DivUnique(a / 2, p, q, r / 2);
  }

  lemma {:induction false} DivHalf(a: nat, p: nat)
    requires p > 0
    ensures a / (2 * p) == a / 2 / p
  {
    HalfQuotient(a, p, a / (2 * p), a % (2 * p));
  }

  lemma {:induction false} Pow2Monotone(a: nat, b: nat)
    requires a <= b
    ensures Pow2(a) <= Pow2(b)
    decreases b
  {
    if a == b {
    } else {
      Pow2Monotone(a, b - 1);
    }
  }

  lemma {:induction false} Pow2Split(a: nat, b: nat)
    ensures Pow2(a + b) == Pow2(a) * Pow2(b)
    decreases b
  {
    if b == 0 {
    } else {
      Pow2Split(a, b - 1);
      assert Pow2(a + b) == 2 * (Pow2(a) * Pow2(b - 1));
    }
  }

  lemma Pow2Of32()
    ensures Pow2(32) == 0x1_0000_0000
  {
    assert Pow2(8) == 256;
    Pow2Split(8, 8);
    Pow2Split(16, 16);
  }

  lemma Pow2Of64()
    ensures Pow2(64) == MOD64
  {
    Pow2Of32();
    Pow2Split(32, 32);
  }

  lemma {:induction false} Distribute(a: int, b: int, c: int)
    ensures a * (b + c) == a * b + a * c
  {
  }

  /** Indices less than a ring apart have different slots. */
  lemma {:induction false} SlotsDiffer(a: nat, b: nat, size: nat)
    requires b < a < b + size
    ensures a % size != b % size
  {
    if a % size == b % size {
      var x, y := a / size, b / size;
      assert a - b == size * x - size * y;
      Distribute(size, y, x - y);
      assert size * (x - y) == a - b;
      if x - y >= 1 { MulMono(size, 1, x - y); } else { MulMono(size, x - y, 0); }
      assert false;
    }
  }
}
