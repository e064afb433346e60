/** CRC-32 (IEEE polynomial, reflected) and its detection of short bursts. */
module Crc32 {
  import opened Bits

  const POLY: nat := 0xEDB88320
  const ONES: nat := 0xFFFFFFFF

  type word = x: int | 0 <= x < 0x1_0000_0000

  /** One bit of the register: shift right, and add the polynomial if a one fell out. */
  function Shift1(c: word): word {
    Pow2Of32();
    XorBound(c / 2, POLY, 32);
    XorBound(c / 2, 0, 32);
    Xor(c / 2, if c % 2 == 1 then POLY else 0)
  }

  function Shift(c: word, k: nat): word
    decreases k, c
  {
    if k == 0 then c else Shift(Shift1(c), k - 1)
  }

  function WordXor(a: word, b: word): word {
    Pow2Of32();
    XorBound(a, b, 32);
    Xor(a, b)
  }

  /** One byte into the register. */
  function Feed(c: word, b: byte): word {
    Shift(WordXor(c, b), 8)
  }

  /** The register after data, started at c. */
  function Register(c: word, data: seq<byte>): word {
    if |data| == 0 then c else Feed(Register(c, data[..|data| - 1]), data[|data| - 1])
  }

  function Crc(data: seq<byte>): word {
    WordXor(Register(ONES, data), ONES)
  }

  // ---- the register map is linear and injective -----------------------------------------

  lemma {:induction false} Shift1Linear(c: word, d: word)
    ensures Shift1(WordXor(c, d)) == WordXor(Shift1(c), Shift1(d))
  {
    XorStep(c, d);
    var p, q := if c % 2 == 1 then POLY else 0, if d % 2 == 1 then POLY else 0;
    XorSwap(c / 2, p, d / 2, q);
    XorSelf(POLY);
    XorZero(POLY);
    XorZero(0);
  }

  lemma {:induction false} Shift1Kernel(e: word)
    ensures Shift1(e) == 0 ==> e == 0
  {
    XorZeroEqual(e / 2, if e % 2 == 1 then POLY else 0);
  }

  lemma {:induction false} Shift1Injective(c: word, d: word)
    requires Shift1(c) == Shift1(d)
    ensures c == d
  {
    Shift1Linear(c, d);
    XorSelf(Shift1(c));
    Shift1Kernel(WordXor(c, d));
    XorZeroEqual(c, d);
  }

  lemma {:induction false} ShiftInjective(c: word, d: word, k: nat)
    requires Shift(c, k) == Shift(d, k)
    ensures c == d
    decreases k
  {
    if k == 0 {
    } else {
      ShiftInjective(Shift1(c), Shift1(d), k - 1);
      Shift1Injective(c, d);
    }
  }

  lemma {:induction false} ShiftLinear(c: word, d: word, k: nat)
    ensures Shift(WordXor(c, d), k) == WordXor(Shift(c, k), Shift(d, k))
    decreases k
  {
    if k == 0 {
    } else {
      Shift1Linear(c, d);
      ShiftLinear(Shift1(c), Shift1(d), k - 1);
    }
  }

  lemma {:induction false} RegisterInjective(c: word, d: word, data: seq<byte>)
    requires Register(c, data) == Register(d, data)
    ensures c == d
    decreases |data|
  {
    if |data| == 0 {
    } else {
      var init, b := data[..|data| - 1], data[|data| - 1];
      var x, y := Register(c, init), Register(d, init);
      ShiftInjective(WordXor(x, b), WordXor(y, b), 8);
      XorInjective(x, y, b);
      RegisterInjective(c, d, init);
    }
  }

  lemma {:induction false} RegisterConcat(c: word, a: seq<byte>, b: seq<byte>)
    ensures Register(c, a + b) == Register(Register(c, a), b)
    decreases |b|
  {
    if |b| == 0 {
      assert a + b == a;
    } else {
      var init := b[..|b| - 1];
      assert (a + b)[..|a + b| - 1] == a + init;
      RegisterConcat(c, a, init);
    }
  }

  // ---- bursts of up to four bytes ----------------------------------------------------------

  /** z with k zero bits appended. */
  function Up(z: nat, k: nat): nat
    decreases k, z
  {
    if k == 0 then z else 2 * Up(z, k - 1)
  }

  lemma {:induction false} UpIsProduct(z: nat, k: nat)
    ensures Up(z, k) == Pow2(k) * z
    decreases k
  {
    if k == 0 {
    } else {
      UpIsProduct(z, k - 1);
    }
  }

  lemma {:induction false} UpByte(z: nat, k: nat)
    requires k == 8
    ensures Up(z, k) == 256 * z
  {
    assert Pow2(8) == 256;
    UpIsProduct(z, k);
  }

  /** Shifting a number with k trailing zero bits by k bits only moves it. */
  lemma {:induction false} ShiftDown(z: nat, k: nat)
    requires Up(z, k) < 0x1_0000_0000
    ensures Shift(Up(z, k), k) == z
    decreases k
  {
    if k == 0 {
    } else {
      XorZero(Up(z, k - 1));
      ShiftDown(z, k - 1);
    }
  }

  lemma {:induction false} XorLowBits(z: nat, d: nat, k: nat)
    requires d < Pow2(k)
    ensures Xor(Up(z, k), d) == Up(z, k) + d
    decreases k
  {
    if k == 0 {
      XorZero(z);
    } else {
      XorLowBits(z, d / 2, k - 1);
      XorCons(Up(z, k - 1), d / 2, 0, d % 2);
    }
  }

  /** If a difference byte d cancels a shifted difference y, then y was d moved up by
      a byte. */
  lemma {:induction false} Unshift(y: word, d: nat)
    requires Shift(y, 8) == d < 0x100_0000
    ensures y == 256 * d
  {
    UpByte(d, 8);
    ShiftDown(d, 8);
    ShiftInjective(y, 256 * d, 8);
  }

  /** One step back through the differences: from the difference after a byte pair
      (b, b') back to the one before it. */
  lemma {:induction false} DifferenceBefore(x: word, y: word, b: byte, b': byte, d: nat)
    requires WordXor(Feed(x, b), Feed(y, b')) == d < 0x100_0000
    ensures WordXor(x, y) == WordXor(256 * d, WordXor(b, b'))
  {
    var p, q := WordXor(x, b), WordXor(y, b');
    ShiftLinear(p, q, 8);
    Unshift(WordXor(p, q), d);
    XorSwap(x, b, y, b');
    var e, f := WordXor(x, y), WordXor(b, b');
    XorAssoc(e, f, f);
    XorSelf(f);
    XorZero(e);
  }

  /** The difference before one byte pair, as a number: the later difference moved up
      a byte with this pair's difference below it. */
  lemma {:induction false} DifferenceNumber(x: word, y: word, b: byte, b': byte, d: nat)
    requires WordXor(Feed(x, b), Feed(y, b')) == d < 0x100_0000
    ensures Xor(b, b') < 256 && WordXor(x, y) == 256 * d + Xor(b, b')
  {
    DifferenceBefore(x, y, b, b', d);
    assert Pow2(8) == 256;
    XorBound(b, b', 8);
    UpByte(d, 8);
    XorLowBits(d, Xor(b, b'), 8);
  }

  /** From one state, two different four-byte strings never lead to the same state. */
  lemma {:induction false} FourBytesInjective(s: word, u: seq<byte>, v: seq<byte>)
    requires |u| == |v| == 4 && Register(s, u) == Register(s, v)
    ensures u == v
  {
    var x1, x2, x3 := Feed(s, u[0]), Register(s, u[..2]), Register(s, u[..3]);
    var y1, y2, y3 := Feed(s, v[0]), Register(s, v[..2]), Register(s, v[..3]);
    Prefixes(s, u);
    Prefixes(s, v);
    XorSelf(Register(s, u));
    XorSelf(s);
    DifferenceNumber(x3, y3, u[3], v[3], 0);
    var d3 := Xor(u[3], v[3]);
    DifferenceNumber(x2, y2, u[2], v[2], d3);
    var d2 := 256 * d3 + Xor(u[2], v[2]);
    DifferenceNumber(x1, y1, u[1], v[1], d2);
    var d1 := 256 * d2 + Xor(u[1], v[1]);
    DifferenceNumber(s, s, u[0], v[0], d1);
    forall i | 0 <= i < 4 ensures u[i] == v[i] { XorZeroEqual(u[i], v[i]); }
  }

  lemma {:induction false} Prefixes(s: word, u: seq<byte>)
    requires |u| == 4
    ensures Register(s, u[..2]) == Feed(Feed(s, u[0]), u[1])
    ensures Register(s, u[..3]) == Feed(Register(s, u[..2]), u[2])
    ensures Register(s, u) == Feed(Register(s, u[..3]), u[3])
  {
    assert u[..1][..0] == [];
    assert Register(s, u[..1]) == Feed(s, u[0]);
    assert u[..2][..1] == u[..1];
    assert u[..3][..2] == u[..2];
  }

  /** The two strings differ, and only within the four bytes from p on. */
  ghost predicate Burst(a: seq<byte>, b: seq<byte>, p: nat) {
    && |a| == |b| && p + 4 <= |a| && a != b
    && a[..p] == b[..p] && a[p + 4..] == b[p + 4..]
  }

  /** Changing bytes within a window of four always changes the CRC. */
  lemma {:induction false} BurstDetected(a: seq<byte>, b: seq<byte>, p: nat)
    requires Burst(a, b, p)
    ensures Crc(a) != Crc(b)
  {
    var pre, post := a[..p], a[p + 4..];
    var u, v := a[p..p + 4], b[p..p + 4];
    assert a == pre + (u + post) && b == pre + (v + post);
    var s := Register(ONES, pre);
    RegisterConcat(ONES, pre, u + post);
    RegisterConcat(ONES, pre, v + post);
    RegisterConcat(s, u, post);
    RegisterConcat(s, v, post);
    if Crc(a) == Crc(b) {
      XorInjective(Register(ONES, a), Register(ONES, b), ONES);
      RegisterInjective(Register(s, u), Register(s, v), post);
      FourBytesInjective(s, u, v);
    }
  }

  /** crc32_compute. */
  method Compute(data: seq<byte>) returns (crc: word)
    ensures crc == Crc(data)
  {
    crc := ONES;
    for i := 0 to |data|
      invariant crc == Register(ONES, data[..i])
    {
      ghost var fed := Feed(crc, data[i]);
      crc := WordXor(crc, data[i]);
      for j := 0 to 8
        invariant Shift(crc, 8 - j) == fed
      {
        crc := Shift1(crc);
      }
      assert data[..i + 1][..i] == data[..i];
    }
    assert data[..|data|] == data;
    crc := WordXor(crc, ONES);
  }
}
