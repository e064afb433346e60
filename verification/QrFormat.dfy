/** The format words and data masks of a symbol against the code and the figures of ISO/IEC 18004. */
module QrFormat {
  import opened Bits
  import opened QrMatrix

  // ---- format words ------------------------------------------------------------------------------

  /** Sum of polynomials over GF(2), written as numbers. */
  function Plus(a: nat, b: nat): nat {
    Xor(a, b)
  }

  /** Product of polynomials over GF(2), the first of degree two or less. */
  function Times(q: nat, g: nat): nat {
    Plus(Plus(if q % 2 == 1 then g else 0, if q / 2 % 2 == 1 then 2 * g else 0), if q / 4 % 2 == 1 then 4 * g else 0)
  }

  /** x^10 + x^8 + x^5 + x^4 + x^2 + x + 1. */
  const BCH: nat := 1024 + 256 + 32 + 16 + 4 + 2 + 1

  /** What the standard adds to every format word. */
  const FORMAT_MASK: nat := 0x5412

  function Four(a: nat, b: nat, c: nat, d: nat): nat {
    0x1000 * a + 0x100 * b + 0x10 * c + d
  }

  lemma {:induction false} XorFour(a: nat, b: nat, c: nat, d: nat, e: nat, f: nat, g: nat, h: nat)
    requires a < 16 && b < 16 && c < 16 && d < 16 && e < 16 && f < 16 && g < 16 && h < 16
    ensures Xor(Four(a, b, c, d), Four(e, f, g, h)) == Four(Xor4(a, e), Xor4(b, f), Xor4(c, g), Xor4(d, h))
  {
    hide Xor, Xor4;
    XorZero(0);
    XorNibble(0, 0, a, e);
    XorNibble(a, e, b, f);
    XorNibble(16 * a + b, 16 * e + f, c, g);
    XorNibble(16 * (16 * a + b) + c, 16 * (16 * e + f) + g, d, h);
  }

  /** The multiple of the generator that belongs to a mask number. */
  const QUOTIENT: seq<nat> := [0, 1, 2, 3, 5, 4, 7, 6]

  lemma {:induction false} Sum3()
    ensures Xor(0x537, 0xA6E) == 0xF59
  {
    hide Xor;
    XorFour(0x0, 0x5, 0x3, 0x7, 0x0, 0xA, 0x6, 0xE);
  }

  lemma {:induction false} Sum5()
    ensures Xor(0x537, 0x14DC) == 0x11EB
  {
    hide Xor;
    XorFour(0x0, 0x5, 0x3, 0x7, 0x1, 0x4, 0xD, 0xC);
  }

  lemma {:induction false} Sum6()
    ensures Xor(0xA6E, 0x14DC) == 0x1EB2
  {
    hide Xor;
    XorFour(0x0, 0xA, 0x6, 0xE, 0x1, 0x4, 0xD, 0xC);
  }

  lemma {:induction false} Sum7()
    ensures Xor(0xF59, 0x14DC) == 0x1B85
  {
    hide Xor;
    XorFour(0x0, 0xF, 0x5, 0x9, 0x1, 0x4, 0xD, 0xC);
  }

  lemma {:induction false} Word0()
    ensures Xor(0x5412, 0x5412) == 0x0
  {
    hide Xor;
    XorFour(0x5, 0x4, 0x1, 0x2, 0x5, 0x4, 0x1, 0x2);
  }

  lemma {:induction false} Word1()
    ensures Xor(0x5125, 0x5412) == 0x537
  {
    hide Xor;
    XorFour(0x5, 0x1, 0x2, 0x5, 0x5, 0x4, 0x1, 0x2);
  }

  lemma {:induction false} Word2()
    ensures Xor(0x5E7C, 0x5412) == 0xA6E
  {
    hide Xor;
    XorFour(0x5, 0xE, 0x7, 0xC, 0x5, 0x4, 0x1, 0x2);
  }

  lemma {:induction false} Word3()
    ensures Xor(0x5B4B, 0x5412) == 0xF59
  {
    hide Xor;
    XorFour(0x5, 0xB, 0x4, 0xB, 0x5, 0x4, 0x1, 0x2);
  }

  lemma {:induction false} Word4()
    ensures Xor(0x45F9, 0x5412) == 0x11EB
  {
    hide Xor;
    XorFour(0x4, 0x5, 0xF, 0x9, 0x5, 0x4, 0x1, 0x2);
  }

  lemma {:induction false} Word5()
    ensures Xor(0x40CE, 0x5412) == 0x14DC
  {
    hide Xor;
    XorFour(0x4, 0x0, 0xC, 0xE, 0x5, 0x4, 0x1, 0x2);
  }

  lemma {:induction false} Word6()
    ensures Xor(0x4F97, 0x5412) == 0x1B85
  {
    hide Xor;
    XorFour(0x4, 0xF, 0x9, 0x7, 0x5, 0x4, 0x1, 0x2);
  }

  lemma {:induction false} Word7()
    ensures Xor(0x4AA0, 0x5412) == 0x1EB2
  {
    hide Xor;
    XorFour(0x4, 0xA, 0xA, 0x0, 0x5, 0x4, 0x1, 0x2);
  }

  lemma {:induction false} Multiples(q: nat)
    requires q < 8
    ensures Times(q, BCH) == [0, 0x537, 0xA6E, 0xF59, 0x14DC, 0x11EB, 0x1EB2, 0x1B85][q]
  {
    hide Xor;
    XorZero(0);
    XorZero(0x537);
    XorZero(0xA6E);
    XorZero(0xF59);
    XorZero(0x14DC);
    Sum3();
    Sum5();
    Sum6();
    Sum7();
  }

  lemma {:induction false} Unmasked(m: nat)
    requires m < 8
    ensures Plus(FORMAT[m], FORMAT_MASK) == [0, 0x537, 0xA6E, 0xF59, 0x11EB, 0x14DC, 0x1B85, 0x1EB2][m]
  {
    hide Xor;
    if m == 0 { Word0(); }
    if m == 1 { Word1(); }
    if m == 2 { Word2(); }
    if m == 3 { Word3(); }
    if m == 4 { Word4(); }
    if m == 5 { Word5(); }
    if m == 6 { Word6(); }
    if m == 7 { Word7(); }
  }

  /** Each format word is, but for the standard's mask, a multiple of the generator of the BCH code whose
      five information bits are the level 00 and the mask number. */
  lemma {:induction false} FormatIsBch(m: nat)
    requires m < 8
    ensures Plus(FORMAT[m], FORMAT_MASK) == Times(QUOTIENT[m], BCH)
    ensures Plus(FORMAT[m], FORMAT_MASK) / 1024 == m
  {
    hide Plus, Times;
    Multiples(QUOTIENT[m]);
    Unmasked(m);
  }

  // ---- masks -------------------------------------------------------------------------------------

  /** One tile of each mask pattern: dark where a data cell is inverted. */
  const TILES: seq<seq<string>> := [
    ["#.", ".#"],
    ["#", "."],
    ["#.."],
    ["#..", "..#", ".#."],
    ["###...", "###...", "...###", "...###"],
    ["######", "#.....", "#..#..", "#.#.#.", "#..#..", "#....."],
    ["######", "###...", "##.##.", "#.#.#.", "#.##.#", "#...##"],
    ["#.#.#.", "...###", "#...##", ".#.#.#", "###...", ".###.."]
  ]

  lemma {:induction false} SixTimes(k: nat, z: nat)
    ensures (6 * k + z) % 2 == z % 2 && (6 * k + z) % 3 == z % 3
  {
    DivUnique(6 * k + z, 2, 3 * k + z / 2, z % 2);
    DivUnique(6 * k + z, 3, 2 * k + z / 3, z % 3);
  }

  lemma {:induction false} ProductModulo(r: nat, c: nat)
    ensures r * c % 2 == (r % 6) * (c % 6) % 2 && r * c % 3 == (r % 6) * (c % 6) % 3
  {
    var x, y, a, b := r % 6, c % 6, r / 6, c / 6;
    Expanded(r, c, a, x, b, y);
    SixTimes(a * c + x * b, x * y);
  }

  lemma {:induction false} Expanded(r: nat, c: nat, a: nat, x: nat, b: nat, y: nat)
    requires r == 6 * a + x && c == 6 * b + y
    ensures r * c == 6 * (a * c + x * b) + x * y
  {
    Distribute(c, 6 * a, x);
    Distribute(x, 6 * b, y);
    assert c * (6 * a) == 6 * (a * c) && x * (6 * b) == 6 * (x * b);
  }

  function Height(m: nat): nat {
    if m <= 1 then 2 else if m == 2 then 1 else if m == 3 then 3 else if m == 4 then 4 else 6
  }

  function Width(m: nat): nat {
    if m == 0 then 2 else if m == 1 then 1 else if m <= 3 then 3 else 6
  }

  /** A mask repeats its tile in both directions. */
  lemma {:induction false} MaskRepeats(m: nat, r: nat, c: nat)
    requires m < 8
    ensures MaskBit(m, r, c) == MaskBit(m, r % Height(m), c % Width(m))
  {
    hide MaskBit;
    if m <= 3 {
      SumRepeats(m, r, c);
    } else if m == 4 {
      HalvesRepeat(m, r, c);
    } else {
      ProductRepeats(m, r, c);
    }
  }

  lemma {:induction false} SumModulo(r: nat, c: nat, p: nat)
    requires p > 0
    ensures (r + c) % p == (r % p + c % p) % p
  {
    var z := r % p + c % p;
    assert r == p * (r / p) + r % p && c == p * (c / p) + c % p && z == p * (z / p) + z % p;
    var q := r / p + c / p + z / p;
    assert p * q == p * (r / p) + p * (c / p) + p * (z / p);
    DivUnique(r + c, p, q, z % p);
  }

  lemma {:induction false} SumRepeats(m: nat, r: nat, c: nat)
    requires m <= 3
    ensures MaskBit(m, r, c) == MaskBit(m, r % Height(m), c % Width(m))
  {
    if m == 0 {
      SumModulo(r, c, 2);
    } else if m == 3 {
      SumModulo(r, c, 3);
    }
  }

  lemma {:induction false} HalvesRepeat(m: nat, r: nat, c: nat)
    requires m == 4
    ensures MaskBit(m, r, c) == MaskBit(m, r % 4, c % 6)
  {
    var x, y := r % 4 / 2, c % 6 / 3;
    assert r / 2 == 2 * (r / 4) + x;
    assert c / 3 == 2 * (c / 6) + y;
    DivUnique(r / 2 + c / 3, 2, r / 4 + c / 6 + (x + y) / 2, (x + y) % 2);
  }

  lemma {:induction false} ProductRepeats(m: nat, r: nat, c: nat)
    requires 5 <= m < 8
    ensures MaskBit(m, r, c) == MaskBit(m, r % 6, c % 6)
  {
    var p, q := r * c, (r % 6) * (c % 6);
    ProductModulo(r, c);
    SumParity(r, c);
    assert MaskBit(m, r, c) == ByProduct(m, p % 2, p % 3, (r + c) % 2);
    assert MaskBit(m, r % 6, c % 6) == ByProduct(m, q % 2, q % 3, (r % 6 + c % 6) % 2);
  }

  predicate ByProduct(m: nat, two: nat, three: nat, parity: nat) {
    if m == 5 then two + three == 0 else if m == 6 then (two + three) % 2 == 0 else (parity + three) % 2 == 0
  }

  lemma {:induction false} SumParity(r: nat, c: nat)
    ensures (r + c) % 2 == (r % 6 + c % 6) % 2
  {
    var z := r % 6 + c % 6;
    DivUnique(r + c, 2, 3 * (r / 6) + 3 * (c / 6) + z / 2, z % 2);
  }

  lemma Tile0(r: nat, c: nat)
    requires r < 2 && c < 2
    ensures MaskBit(0, r, c) <==> TILES[0][r][c] == '#'
  {
  }

  lemma Tile1(r: nat, c: nat)
    requires r < 2 && c < 1
    ensures MaskBit(1, r, c) <==> TILES[1][r][c] == '#'
  {
  }

  lemma Tile2(r: nat, c: nat)
    requires r < 1 && c < 3
    ensures MaskBit(2, r, c) <==> TILES[2][r][c] == '#'
  {
  }

  lemma Tile3(r: nat, c: nat)
    requires r < 3 && c < 3
    ensures MaskBit(3, r, c) <==> TILES[3][r][c] == '#'
  {
    assert r == 0 || r == 1 || r == 2;
    assert c == 0 || c == 1 || c == 2;
  }

  lemma Tile4(r: nat, c: nat)
    requires r < 4 && c < 6
    ensures MaskBit(4, r, c) <==> TILES[4][r][c] == '#'
  {
    assert r == 0 || r == 1 || r == 2 || r == 3;
    assert c == 0 || c == 1 || c == 2 || c == 3 || c == 4 || c == 5;
  }

  lemma Tile5(r: nat, c: nat)
    requires r < 6 && c < 6
    ensures MaskBit(5, r, c) <==> TILES[5][r][c] == '#'
  {
    assert r == 0 || r == 1 || r == 2 || r == 3 || r == 4 || r == 5;
    assert c == 0 || c == 1 || c == 2 || c == 3 || c == 4 || c == 5;
  }

  lemma Tile6(r: nat, c: nat)
    requires r < 6 && c < 6
    ensures MaskBit(6, r, c) <==> TILES[6][r][c] == '#'
  {
    assert r == 0 || r == 1 || r == 2 || r == 3 || r == 4 || r == 5;
    assert c == 0 || c == 1 || c == 2 || c == 3 || c == 4 || c == 5;
  }

  lemma Tile7(r: nat, c: nat)
    requires r < 6 && c < 6
    ensures MaskBit(7, r, c) <==> TILES[7][r][c] == '#'
  {
    assert r == 0 || r == 1 || r == 2 || r == 3 || r == 4 || r == 5;
    assert c == 0 || c == 1 || c == 2 || c == 3 || c == 4 || c == 5;
  }

  /** The eight masks are the eight patterns of the standard. */
  lemma {:induction false} MaskPicture(m: nat, r: nat, c: nat)
    requires m < 8
    ensures var tile := TILES[m];
            && |tile| > 0 && |tile[0]| > 0 && (forall i :: 0 <= i < |tile| ==> |tile[i]| == |tile[0]|)
            && (MaskBit(m, r, c) <==> tile[r % |tile|][c % |tile[0]|] == '#')
  {
    MaskRepeats(m, r, c);
    hide MaskBit;
    assert |TILES[m]| == Height(m) && |TILES[m][0]| == Width(m);
    if m == 0 { Tile0(r % 2, c % 2); }
    if m == 1 { Tile1(r % 2, c % 1); }
    if m == 2 { Tile2(r % 1, c % 3); }
    if m == 3 { Tile3(r % 3, c % 3); }
    if m == 4 { Tile4(r % 4, c % 6); }
    if m == 5 { Tile5(r % 6, c % 6); }
    if m == 6 { Tile6(r % 6, c % 6); }
    if m == 7 { Tile7(r % 6, c % 6); }
  }
}
